# observablehq-file-attachments: the version rules and the path walk

This project is a Dafny model of the core of `observablehq-file-attachments`. That
library is an in-memory file system for Observable notebooks. A directory tree
holds, under each file name, a `Files` array of versions:

- Versions are numbered from 1 and stored from slot 0.
- Negative numbers count back from the newest version.
- `latest` and `earliest` name the newest and the first version.
- Any other non-numeric token is a label, and a label maps straight to a file.

A path such as `/dir/name@2` is walked segment by segment. A missing
directory or file array may be synthesized:

1. by a handler stored in the tree (FILE or DIRECTORY);
2. failing that, by a hook of the operation;
3. failing that, by the default.

The walk ends with a file action on the array the last segment names. `find`,
`add`, `copy`, `label` and `metadata` are such walks.

The project has these modules:

- `Types` (`types.dfy`): the data shapes of `src/types.ts`.
  - A tree entry is a directory, a `Files` array, or some other value.
  - A `Files` array has sparse slots, labels, sequence metadata, and the
    JavaScript property `"-1"`. The walk can write that property, as shown below.
  - A flag records whether the sequence metadata was attached by `meta()`.
    `meta()` uses `Object.defineProperty`, which makes the property read-only.
    That is how `file()` builds every array it returns.
  - Files themselves are opaque items. The proxy that `find` returns,
    `Awaiting(outcome)`, is also an item, because `copy` stores it.
- `Util` (`util.dfy`): from `src/util.ts`.
  - `canonicalizeVersion`, `getVersion`, `setVersion`, `deleteVersion`,
    `versions`, `isFiles`/`isTree`/`asFiles`/`asTree` and `encodeString16`.
  - `Throw` and the exceptions become the error side of a `Result`.
- `Paths` (`paths.dfy`): `String.prototype.split`, `Array.prototype.join`,
  the `name@version` form of a final segment, and the target path of `label`.
- `Walk` (`traverse.dfy`): `traverse` and the defaults of its visitor.
  - A walk is a function from the segments, the tree and the visitor.
  - It returns the tree as the walk leaves it, with every synthesized
    directory and array stored in place, and how the walk's promise settles.
- `FileSystem` (`filesystem.dfy`): the file actions of `find`, `add` and
  `metadata`, and the operations built on them.
  - The class `AFileSystem` has the fields `readOnly`, `name` and `tree`.
  - Its methods replace `tree` with the tree their walk leaves.
  - Each method's `ensures` ties its result and its new state to the walk functions.
- `Properties` (`properties.dfy`): what the operations promise together, and
  the scenarios of the repository's tests.

## How the code behaves

Where the code and its documentation disagree, the model follows the code:

- **`add` does not append.**
  - The doc comment of `add` (src/AFileSystem.ts:319-321) says that no
    version, or `latest`, adds a new version.
  - The code writes through `setVersion`, so no version means -1, the last
    slot. An unversioned `add` overwrites the newest version and keeps the
    length (`UnversionedWrite`).
  - An unversioned `add` on an array with no slots fails with "Cannot set version".
- **A new name is not created by a plain add.**
  - `add('/cow', f)` on an empty root stores an empty array under `cow` and then fails.
  - As a result, `add`, `label`, `add` on a new name does not build two
    versions and a label. `AddLabelAddOnNewName` states what happens instead.
- **`find` writes to the tree.** A missing file name is given an empty array,
  and that array is stored before `getVersion` runs (`FindStoresEmptyArray`, `FindInEmptyRoot`).
- **`asTree` accepts arrays,** because `isTree` is `instanceof Object`.
  - A `Files` array in the middle of a path is walked into, not refused.
  - The model stops such a walk at that point with the outcome `IntoArray`
    and does not follow it further.
- **`latest` on an empty array** resolves to slot -1, not to "no version".
  - Reading it gives what was last written there, and null until then.
  - Writing it sets the array's `"-1"` property. The model keeps this cell as `minusOne`.
  - Only `latest` on an empty array reads or writes that cell. On an empty
    array, -1 names no version at all.
  - `deleteVersion` with the number -1 on a non-empty array deletes the cell,
    through its raw `delete files[version]`.
- **Metadata precedence.** The metadata of a file is built in four layers;
  each later layer overrides the earlier ones:
  1. the name;
  2. the sequence metadata;
  3. the file's `content-type`, or, when it has none, the name again;
  4. the cached metadata.

## Model

| member | source | states |
|---|---|---|
| Util.CanonicalNumber | src/util.ts:108-118 | 0 names no version; a positive n names slot n-1; a negative n names slot length+n, or no version when length+n < 0 |
| Util.Canonicalize | src/util.ts:90-119 | only `*` fails, with "Illegal version"; exactly the non-special, non-numeric strings become label keys, unchanged; slot -1 arises exactly from `latest` on an empty array |
| Util.NumberedFromBothEnds | src/util.ts:113-118 | for 1 <= k <= length, tokens k and k-length-1 name the same slot, k-1 |
| Util.SpecialTokens | src/util.ts:91-99 | no version resolves like -1; `earliest` is version 1, slot 0; `latest` agrees with -1 on a non-empty array; on an empty one `latest` gives slot -1 while -1 gives no version; 0 and "0" give no version |
| Util.NumeralAsNumber | src/util.ts:101-104 | a numeral passed as a string resolves exactly like the number it denotes |
| Util.IsIntegerText | src/util.ts:102 | the pattern `^[-+]?\d+$`: text it accepts is one optional sign and then digits only, and every non-empty digit string is accepted |
| Util.ParseInt | src/util.ts:103 | parseInt is non-negative without a '-' and non-positive with one, and a signed numeral's magnitude is the value of its digits |
| Util.ParseIntText | src/util.ts:102-103 | the decimal numeral of every integer matches `^[-+]?\d+$`, and parseInt gives the integer back |
| Util.GetVersion | src/util.ts:128-135 | fails only on `*`; a positive k reads slot k-1, or null past the end; a negative n reads slot length+n when that exists; 0, and a negative number reaching before the first version, read null; a label reads its entry, or null when missing; anything returned is held by the array, in a slot, at "-1" or under a label |
| Util.WriteSlot | src/util.ts:247-248 | `files[i] = x` sets that one cell and keeps every other cell; an index past the end grows the array with holes; -1 sets the "-1" property |
| Util.SetVersion | src/util.ts:238-250 | fails exactly on `*` and on tokens that name no version ("Cannot set version"); a label write creates the label map if needed and touches no slot; any other write keeps the labels and never shrinks the array |
| Util.SetKeepsOtherVersions | src/util.ts:247-248 | a successful write leaves every numbered version it does not name reading the same, and the "-1" cell too unless the write named it |
| Util.SetThenGet | src/util.ts:238-250 | after a successful setVersion, getVersion with the same token reads the file written |
| Util.SetKeepsOtherLabel | src/util.ts:242-248 | a write that does not name a label keeps what that label reads |
| Util.LabelWriteKeepsVersions | src/util.ts:242-246 | a label write always succeeds and leaves every non-label token reading what it read |
| Util.UnversionedWrite | src/util.ts:238-248 | with no token, an empty array refuses the write, and a non-empty one has its last slot overwritten with the length unchanged |
| Util.DeleteRaw | src/util.ts:277-278 | `delete files[n]` clears element n, or the "-1" property for n = -1, keeps the length and every other cell |
| Util.DeleteVersion | src/util.ts:259-280 | `*` empties the slots and the labels and then fails exactly when there is no sequence metadata (reading its name) or when `meta()` attached it read-only; otherwise the metadata and length are kept; a token that names no version changes nothing; a string token removes only that label and touches no slot; a number n deletes raw cell n ("-1" for n = -1) through DeleteRaw, keeping every other cell |
| Util.DeleteUsesRawNumber | src/util.ts:267-278 | deleting version 1 of [a, b] leaves version 1 reading a and removes version 2 |
| Util.DeleteLatestIsLabelDelete | src/util.ts:270-276 | deleting `latest` removes no slot: `latest` still reads the newest version |
| Util.DeleteAllOnAnnotated | src/util.ts:259-265 | on the array `file(name, data)` builds, deleting `*` empties the slots and labels and then fails on the read-only metadata |
| Util.DeleteCanonical | src/util.ts:259-280 | the corrected delete fails only on `*`, and keeps the metadata and length |
| Util.DeleteCanonicalRemoves | src/util.ts:267-279 | after the corrected delete the token reads no version, and every numbered version the token does not name reads as before |
| Util.DeleteAll | src/util.ts:259-265 | the intended `*`: no slot, no label and no "-1" cell remain, the metadata is kept, and nothing fails |
| Util.DeleteAllEmpties | src/util.ts:259-265 | after the intended `*`, every other token reads no version |
| Util.SetKeepsOnly | src/util.ts:238-250 | writing x into an array that holds only x leaves it holding only x |
| Util.SetKeepsFixed | src/util.ts:238-250 | a write of x keeps every length-independent token that read x reading x |
| Util.SetAllStores | src/util.ts:144-151 | after writing x at each token of a list, every length-independent token of the list reads x and nothing but x is held |
| Util.SetAll | src/util.ts:144-151 | setVersion at each token in turn: it keeps the sequence metadata and its flag and never shrinks the array; it fails only on a non-empty list, with "Illegal version" or "Cannot set version" |
| Util.Versions | src/util.ts:144-151 | versions(f) is f at version 1 alone; versions(f, ...list) writes f at every token in order, holds only f, and every length-independent token of the list reads f; the first failing token is the error |
| Util.VersionTwoAndLabel | src/__tests__/util.test.ts:162-177 | versions(f, 2, 'myLabel') is a hole, then f, with f under the label myLabel |
| Util.IsFiles | src/util.ts:29 | `Array.isArray`: every array also passes isTree |
| Util.IsTree | src/util.ts:36 | `instanceof Object`: exactly directories and arrays pass |
| Util.AsFiles | src/util.ts:44-49 | an array passes, a missing entry gives null, anything else is "Unexpected file level" |
| Util.AsTree | src/util.ts:36-62 | directories and arrays pass, a missing entry gives null, exactly the other values are "Unexpected directory level" |
| Util.ShapeChecks | src/util.ts:29-62 | an array passes both checks, a directory only asTree, any other value neither |
| Util.CodePointAt | src/util.ts:291 | codePointAt gives a code point below 0x110000 |
| Util.Encoded16 | src/util.ts:287-294 | the buffer is as long as the string, and every position that does not start a surrogate pair keeps its code unit |
| Util.EncodeString16 | src/util.ts:287-294 | the buffer holds, for each position, the code point there cut to 16 bits |
| Util.EncodedWithoutPairs | src/util.ts:287-294 | on a string with no surrogate pair, the buffer is the string's own code units |
| Util.AstralCharacterCorrupted | src/util.ts:291 | U+1F600 (D83D DE00) is stored as F600 DE00 |
| Util.EncodeString16Units | src/util.ts:287-294 | the corrected encoder stores exactly the string's UTF-16 code units |
| Paths.Split | src/AFileSystem.ts:148 | at least one piece, and no piece holds the separator |
| Paths.Join | src/AFileSystem.ts:374 | the joined text is at least as long as the first piece plus one separator per further piece; Split inverts it (SplitJoin) |
| Paths.JoinEndsWith | src/AFileSystem.ts:374 | the joined text ends with the last piece |
| Paths.JoinSplit | src/AFileSystem.ts:368-374 | joining the pieces of a split gives the text back |
| Paths.SplitJoin | src/AFileSystem.ts:368-374 | splitting joined separator-free pieces gives the pieces back |
| Paths.SplitKeepsChars | src/AFileSystem.ts:368 | every piece is made of characters of the text |
| Paths.LeadingSlash | src/AFileSystem.ts:113-115 | a leading '/' adds one empty segment in front |
| Paths.OnlySlashes | src/AFileSystem.ts:113-117 | a path of slashes only has no non-empty segment |
| Paths.NameOf | src/AFileSystem.ts:120 | the name of a final segment holds no '@' |
| Paths.VersionOf | src/AFileSystem.ts:120 | a segment has no version exactly when it holds no '@'; a version is always text and holds no '@' |
| Paths.NameAndVersion | src/AFileSystem.ts:120 | `name@v` splits into name and version v; a segment without '@' is its own name and has no version |
| Paths.FromRootSegments | src/AFileSystem.ts:148 | an absolute path of plain names splits into an empty segment followed by the names |
| Paths.LabelTarget | src/AFileSystem.ts:367-374 | label's destination path ends in '@' and the label |
| Paths.LabelTargetSegments | src/AFileSystem.ts:367-374 | the label target has the path's segments, with the last one replaced by its name, '@' and the label |
| Paths.LabelTargetFinal | src/AFileSystem.ts:367-374 | the target's last segment has the same name and the label as its version |
| Paths.LabelTargetIdempotent | src/AFileSystem.ts:367-374 | for a label without '/', computing the target of a target with the same label gives the same path; a '/' in the label splits the new last segment, so the source gives a different path there |
| Paths.LabelTargetFromRoot | src/AFileSystem.ts:367-374 | the label target of an absolute path replaces only its last name |
| Walk.SynthesizeFiles | src/AFileSystem.ts:123-126 | the FILE handler's array when it gives one; otherwise the createFiles hook's array when it gives one; otherwise an empty array |
| Walk.SynthesizeDirectory | src/AFileSystem.ts:136-139 | the DIRECTORY handler's subtree when it gives one; otherwise (no handler, or a handler returning null) whatever the createDirectory hook gives; with no hook as well, null |
| Walk.FinalStep | src/AFileSystem.ts:118-133 | a final name bound to something other than an array is "Unexpected file level" and changes nothing; otherwise only that name changes, and it now holds an array |
| Walk.Recurse | src/AFileSystem.ts:111-147 | a walk keeps the handlers, never removes a name, and never changes what kind of entry a name holds |
| Walk.Traverse | src/AFileSystem.ts:104-149 | a walk of a path keeps the handlers, never removes a name, and never changes what kind of entry a name holds |
| Walk.Act | src/AFileSystem.ts:106 | without a file action, the default returns null and keeps the array |
| Walk.EmptySegments | src/AFileSystem.ts:113-117 | segments that are all empty end in "Accessing root as file" with the tree unchanged |
| Walk.RootIsNotAFile | src/AFileSystem.ts:111-117 | '' and '/' (any path of slashes only) are refused as the root |
| Walk.LeadingSlashIgnored | src/AFileSystem.ts:113-115 | the leading empty segment is skipped: the walk of '/'+p goes over p's segments, with the same path passed to handlers, hooks and action |
| Walk.MissingDirectoryIsNull | src/AFileSystem.ts:112 | a missing directory that no DIRECTORY handler supplies (none, or one returning null) and no createDirectory hook supplies ends the walk with null and no change |
| Walk.MissingDirectorySupplied | src/AFileSystem.ts:136-145 | a missing directory supplied by the DIRECTORY handler, or failing it by createDirectory, is stored under its name as the rest of the walk leaves it, and the walk settles as that rest does |
| Walk.MissingFilesSupplied | src/AFileSystem.ts:118-133 | a missing file name whose array the FILE handler, or failing it createFiles, supplies: the action's array is stored under the name and the walk settles to the action's value on the supplied array |
| Walk.Relocate | src/AFileSystem.ts:118-122 | what a path reaches depends only on its directories and the name in its last segment |
| Walk.WalkReached | src/AFileSystem.ts:118-133 | on a path that reaches an array, the walk settles to the action's value on that array and stores the action's array in the same place, changing nothing when the action keeps the array |
| Walk.FinalSettles | src/AFileSystem.ts:118-133 | a final step that does not fail ran the action on the array now stored under the name |
| Walk.WalkSettles | src/AFileSystem.ts:111-147 | a walk that settles to a value ran the action at the final segment and left the path reaching the action's array |
| Walk.SettledByAction | src/AFileSystem.ts:111-147 | a value a walk settles to is one the file action returned for the path's last segment |
| FileSystem.GetFile | src/AFileSystem.ts:212-222 | reads the version the token names and changes nothing; fails exactly on `*` and on a stored array or object ("is a directory") |
| FileSystem.SetFile | src/AFileSystem.ts:335-338 | settles to the file exactly when setVersion accepts the token, storing setVersion's array; otherwise fails with setVersion's error and keeps the array |
| FileSystem.FindVisitor | src/AFileSystem.ts:212-223 | find passes only getFile: no creation hooks; the action keeps the array and never yields an array or object |
| FileSystem.AddVisitor | src/AFileSystem.ts:329-340 | add passes setFile and createDirectory: the action settles to the file or fails and keeps the array; every missing directory is created empty |
| FileSystem.FindWalk | src/AFileSystem.ts:210-225 | find never settles to an array or a plain object |
| FileSystem.AddSegsNeverNull | src/AFileSystem.ts:329-340 | add's walk over any segments settles only to the file it stores |
| FileSystem.AddOp | src/AFileSystem.ts:326-348 | read-only refuses with the tree unchanged; add never settles to null (it settles to its file, or fails); it never removes a name or changes an entry's kind |
| FileSystem.CopyOp | src/AFileSystem.ts:356-358 | a copy that settles settles to the proxy of the source's find; no name is removed and no entry's kind changes |
| FileSystem.LabelOp | src/AFileSystem.ts:367-377 | a label that settles settles to the proxy of find at the path; no name is removed and no entry's kind changes |
| FileSystem.MergeMetadata | src/AFileSystem.ts:311-313 | the keys are the name, the sequence metadata, content-type when present, and the cached keys; each value comes from the highest layer: cached, then content-type (or the name when there is none), then sequence metadata, then the name |
| FileSystem.GetMeta | src/AFileSystem.ts:280-314 | null exactly when the version is absent; fails exactly on `*`; merged metadata always has a name |
| FileSystem.MetadataVisitor | src/AFileSystem.ts:280-315 | metadata passes only getMeta: no creation hooks; the action keeps the array and any metadata it yields has a name |
| FileSystem.MetadataWalk | src/AFileSystem.ts:278-317 | metadata that the walk finds always has a name |
| FileSystem.FsName | src/AFileSystem.ts:195 | a non-empty given name is kept; otherwise the name is FS_ and the next counter value in decimal |
| FileSystem.AFileSystem.constructor | src/AFileSystem.ts:192-196 | keeps the tree; read-only exactly when asked; named as FsName says |
| FileSystem.AFileSystem.Find | src/AFileSystem.ts:210-225 | returns the proxy of find's walk and keeps the tree that walk leaves |
| FileSystem.AFileSystem.Add | src/AFileSystem.ts:326-348 | read-only refuses before any walk; otherwise the walk with setFile and empty directories for missing ones; the new tree is what it leaves |
| FileSystem.AFileSystem.Copy | src/AFileSystem.ts:356-358 | find at the source, then add of its proxy at the destination, on the tree find left |
| FileSystem.AFileSystem.Label | src/AFileSystem.ts:367-377 | copy to the path with its last segment's version replaced by the label |
| FileSystem.AFileSystem.MetadataOf | src/AFileSystem.ts:278-317 | the walk with getMeta; the new tree is what it leaves |
| Properties.AddSegsThenFind | src/AFileSystem.ts:210-225 | after add's walk stores a file, find's walk over the same segments reads it and changes nothing |
| Properties.AddThenFind | src/AFileSystem.ts:326-348 | once add has stored a file at a path, find there returns it and leaves the tree as add left it |
| Properties.ReadOnlyRefuses | src/AFileSystem.ts:328 | a read-only file system refuses add, copy and label with the tree unchanged by add; copy's find still runs |
| Properties.CopyThenFind | src/AFileSystem.ts:356-358 | once copy has stored at the destination, find there returns the proxy of what find returned at the source |
| Properties.LabelReaches | src/AFileSystem.ts:367-374 | the label target of a path that reaches an array reaches the same array, with the label as version |
| Properties.LabelThenFind | src/AFileSystem.ts:367-377 | labelling a file find reaches stores find's proxy under the label, and the labelled path reads that proxy |
| Properties.AddKeepsLabel | src/AFileSystem.ts:335-338 | a later successful add of another version or label leaves what an existing label reads unchanged |
| Properties.FindStoresEmptyArray | src/AFileSystem.ts:122-132 | find of a missing name, with no FILE handler, stores an empty array under it and settles to null |
| Properties.FindUsesFileHandler | src/AFileSystem.ts:122-133 | find of a missing name whose array the FILE handler supplies stores that array under the name and settles to getFile on it |
| Properties.FindReads | src/AFileSystem.ts:210-225 | on a path that reaches an array, find settles to getFile on that array and changes nothing |
| Properties.FindOnWrongShape | src/AFileSystem.ts:122-135 | a final directory or value is "Unexpected file level"; a middle non-object value is "Unexpected directory level"; a middle array is walked into |
| Properties.MetadataSegsBesideFind | src/AFileSystem.ts:280-315 | over any segments, metadata's walk leaves find's tree and is null, fails or walks into an array exactly where find does |
| Properties.MetadataBesideFind | src/AFileSystem.ts:278-317 | metadata leaves the tree find leaves; it is null exactly when find is, fails only where find fails, with the same error, and has a name wherever find returns a file |
| Properties.DefaultNamesDiffer | src/AFileSystem.ts:195 | two file systems created without a name, at different counter values, get different names |
| Properties.NumeralTokens | src/util.ts:101-104 | the path tokens "1", "2", "-1", "-2", "-3" resolve as the numbers |
| Properties.DeeperReached | src/__tests__/directory.ts:44-52 | every versions path under subdir/deeper of the test tree reaches the array [file1, file2] |
| Properties.FindInRootOfSimpleTree | src/__tests__/directory.ts:53-55 | find('/aFile') returns file1 and changes nothing |
| Properties.FindInSubdirOfSimpleTree | src/__tests__/directory.ts:56-58 | find('/subdir/anotherFile') returns file2 and changes nothing |
| Properties.FindInDeeper | src/__tests__/directory.ts:59-70 | find on the versions array in subdir/deeper is getFile on [file1, file2] with the segment's version, and changes nothing |
| Properties.FindVersionsInSimpleTree | src/__tests__/directory.ts:59-70 | no token, @latest, @2 and @-1 return file2; @1, @earliest and @-2 return file1; @-3 returns null |
| Properties.FindInEmptyRoot | src/__tests__/directory.ts:20-35 | in the empty root, '/nofile' and 'nofile' both return null and both leave an empty array under the name |
| Properties.FindUnderMissingDirectory | src/__tests__/directory.ts:27-39 | in the empty root, 'nodir/nofile' and '/nodir/nofile' return null and leave the tree empty |
| Properties.FirstAddOnNewName | src/AFileSystem.ts:326-340 | an unversioned add of a new name stores an empty array and fails with "Cannot set version" |
| Properties.FindVersionOneOfEmpty | src/util.ts:128-135 | version 1 of an empty array reads null, and find changes nothing |
| Properties.AddLabelToEmpty | src/util.ts:242-246 | add under a label to an empty array stores the file under that label and nowhere else |
| Properties.LabelOnEmptyArray | src/AFileSystem.ts:367-377 | labelling version 1 of an empty array stores, under the label, the proxy of the null that version 1 reads |
| Properties.OnlyLabelledAdd | src/util.ts:238-241 | on an array that holds only a label, the unversioned add fails and changes nothing |
| Properties.OnlyLabelledBare | src/util.ts:128-135 | on an array that holds only a label, the bare name reads null |
| Properties.OnlyLabelledTag | src/util.ts:128-135 | on an array that holds only a label, the label reads what it holds |
| Properties.AddLabelAddOnNewName | src/AFileSystem.ts:326-377 | add, label @1, add on a new name: both adds fail, the label reads the proxy of null and the bare name reads null |

## Left out

- In-place updates. `setVersion` and `deleteVersion` change the `Files` array they are given, and `traverse` writes `tree[name]` and `tree[head]`. The model computes the new array and the new tree as values, and `AFileSystem` replaces its `tree` field. Aliasing is therefore not modelled: one array or subtree stored under two names, or kept by a caller, shares no updates.
- Asynchrony. The walk is modelled synchronously.
- Metadata values. The source's metadata holds a `Date` (`modificationDate`) and a number (`length`) beside strings. The model keeps every value as a string. MergeMetadata treats values as opaque, and the HEAD parsing that produces the others is not modelled.
  - A thrown error and a rejected promise are one outcome, `Rejected`.
  - `copy` runs find's walk to the end before add's walk starts. In the code, the two walks may interleave at their `await`s.
- The DIRECTORY action of the visitor (src/AFileSystem.ts:107, 144). No operation supplies one, and its result is discarded.
- The `fs` and `tree` arguments of the handlers and hooks, and the `files` argument of `createFiles`. These are references into mutable state, which the value model has no place for.
- Walking on inside a `Files` array reached by a middle segment. The model stops there with `IntoArray`.
- `getFile`'s check that the array itself is a plain object (src/AFileSystem.ts:213). A `Files` value is always an array in the model, so the check cannot fire.
- The `rest.length === 0` branch of add's `createDirectory` (src/AFileSystem.ts:330-331). The walk calls `createDirectory` only with segments left, so the branch is unreachable.
- The missing-tree check in the constructor (src/AFileSystem.ts:196). A tree is always present in the model.
- The module-level name counter. It is a parameter of the constructor, and the caller advances it.
- The subscription, `updateCount`, `errored`/`updated`, `waitFor`, `watch` and the regenerator. These are change notification, built from promises and async generators.
- `errorWrapper` (src/AFileSystem.ts:151-158). It only rewrites error message text.
- `AFile` and `AFileAwait`. Files are opaque items, and the proxy is `Awaiting(outcome)`.
- The HEAD request, the header parsing and the caching in `metadata` (src/AFileSystem.ts:285-310). These are network I/O. The cached metadata and a file's `content-type` are parameters of `MetadataOf`.
- `file`, `entry`, `meta`, `dsv`, `toArrayBuffer` and `fromArrayBuffer` in util.ts. These are constructors for tests, `defineProperty`, or foreign library calls. What `meta()` does to an array is kept as the read-only flag of its sequence metadata.
- Object.prototype keys such as `constructor`, which a JavaScript object lookup would find, and non-integer or non-finite numbers as versions. Tokens are whole numbers or strings.
- Util.ParseInt: does not model the loss of precision parseInt has beyond 2^53. Digit strings are read exactly.
- Util.WriteSlot: does not model JavaScript's array-index limit. An index of 2^32-1 or more is not an array index, so the source writes a plain property and keeps `length`. The model grows the array instead, and reads that cell back as an element. Numbers beyond 2^53 also lose precision in `version - 1`, which the model computes exactly. The same holds for SetVersion, GetVersion and DeleteRaw on such numbers.
- Util.Encoded16: its contract does not spell out the unit stored at the start of a surrogate pair. `EncodeString16` and `AstralCharacterCorrupted` state it.

## Findings

| source | as written | input that shows it | evidently intended | confidence | as-written member | corrected member |
|---|---|---|---|---|---|---|
| src/util.ts:287-294 | `buf[i] = s.codePointAt(i)`: at a surrogate pair, the whole code point is stored, cut to 16 bits | "😀" (D83D DE00) is stored as F600 DE00 | the UTF-16 code units of the string (`charCodeAt`) | not executed | Util.AstralCharacterCorrupted | Util.EncodeString16Units |
| src/util.ts:259-280 | after canonicalising, `deleteVersion` branches on the raw token and deletes `files[version]` | deleteVersion([a, b], 1) deletes b, version 2; deleteVersion(files, 'latest') deletes a label called "latest" | delete the slot or label the token names, as getVersion and setVersion do | not executed | Util.DeleteUsesRawNumber | Util.DeleteCanonicalRemoves |
| src/util.ts:261-265 | `'*'` empties the slots and labels, then evaluates `files[METADATA] = files[METADATA] ?? {name: files[METADATA]!.name}` | deleteVersion(file('a', d), '*'): `meta()` attached the metadata read-only, so the assignment throws in strict code after the array was emptied; without metadata, reading `.name` of undefined throws | delete every version and label and keep the metadata, without failing | not executed | Util.DeleteAllOnAnnotated | Util.DeleteAllEmpties |
