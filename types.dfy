/**
 * The data shapes of the virtual file system: version tokens, the values kept
 * in version slots, the per-name Files record, and the directory Tree with its
 * two synthesis handlers.
 */
module Types {

  datatype Option<+T> = None | Some(value: T)

  datatype Result<+R, +E> = Success(value: R) | Failure(error: E)

  /**
   * A version token. Lookups through a path always carry a string or no
   * token at all (the final segment had no '@'); the utility functions also
   * accept numbers. `Str("*")` is the bulk-delete token.
   */
  datatype Version = Num(n: int) | Str(s: string) | Unset

  /** One constructor per error the core raises. */
  datatype Error =
    | IllegalVersion                     // "Illegal version: *"
    | CannotSetVersion(version: Version) // "Cannot set version ..."
    | UnexpectedFileLevel                // a file name bound to something that is not a Files array
    | UnexpectedDirectoryLevel           // a directory name bound to a non-object value
    | RootAsFile                         // "Accessing root as file."
    | IsDirectory(path: string)          // "<path> is a directory"
    | ReadOnly                           // "Read only filesystem."
    | MissingMetadata                    // reading `.name` of absent sequence metadata
    | MetadataNotWritable                // assigning the read-only METADATA property in strict code

  /**
   * What a version slot or label holds. A VFile is opaque and known only by
   * its identity; arrays and plain objects are kept apart because `find`
   * refuses them. `Awaiting` is the proxy `find` returns, wrapping the
   * outcome of its walk.
   */
  datatype Item =
    | File(id: nat)
    | ArrayValue(id: nat)
    | ObjectValue(id: nat)
    | Awaiting(outcome: Outcome<Item>)

  /**
   * How a walk settles: a value or null, a thrown error, or (`IntoArray`)
   * the walk continued into a Files array used as a directory, which the
   * model does not follow.
   */
  datatype Outcome<+T> = Resolved(value: Option<T>) | Rejected(error: Error) | IntoArray

  /** Descriptive keys, each value modelled as text (see README, Left out). */
  type Metadata = map<string, string>

  /** Labels map a string straight to an entry, not to a slot number. */
  type Tags = map<string, Item>

  /**
   * The versions of one name. `slots` is the array: slot i holds version
   * i + 1, and `None` is a hole left by a deletion or a write past the end.
   * `minusOne` is the array's non-index property "-1", which a write of
   * 'latest' to an empty array creates. `tags` is the TAGS label map (absent
   * until the first label write) and `meta` the sequence-level METADATA.
   * `metaReadOnly` says the METADATA property was attached by `meta()`,
   * through Object.defineProperty, and so cannot be assigned.
   */
  datatype Files = Files(slots: seq<Option<Item>>, minusOne: Option<Item>, tags: Option<Tags>, meta: Option<Metadata>,
                         metaReadOnly: bool)

  const NoFiles: Files := Files([], None, None, None, false)

  /** FILE handler: (path, name, version, rest) to a Files array, or null to decline. */
  type FileHandler = (string, string, Version, seq<string>) -> Option<Files>

  /** DIRECTORY handler: (path, name, rest) to a subtree, or null to decline. */
  type DirectoryHandler = (string, string, seq<string>) -> Option<Tree>

  /**
   * An ordinary entry of a directory: a subtree (a plain object), a Files
   * array, or a value that is not an object at all.
   */
  datatype Entry = Dir(tree: Tree) | Versions(files: Files) | Scalar

  /** A directory: its named entries and the FILE and DIRECTORY handlers. */
  datatype Tree = Tree(entries: map<string, Entry>, onFile: Option<FileHandler>, onDirectory: Option<DirectoryHandler>)

  const EmptyTree: Tree := Tree(map[], None, None)
}
