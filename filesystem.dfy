/**
 * The AFileSystem class: find, add, copy, label and metadata, each a walk
 * over the directory tree with its own file action and creation hooks.
 */
module FileSystem {
  import opened Types
  import opened Util
  import opened Paths
  import opened Walk

  // ---------------------------------------------------------------------------
  // The file actions
  // ---------------------------------------------------------------------------

  /**
   * find's getFile: the version the token selects, null when there is none,
   * an error when the entry stored there is an array or a plain object.
   */
  function GetFile(path: string, name: string, version: Version, files: Files): (r: (Files, Outcome<Item>))
    ensures r.0 == files
    ensures r.1.Rejected? <==>
      (version == Str("*") ||
       (GetVersion(files, version).Success? && GetVersion(files, version).value.Some? &&
        (GetVersion(files, version).value.value.ArrayValue? || GetVersion(files, version).value.value.ObjectValue?)))
    ensures r.1.Rejected? && version != Str("*") ==> r.1.error == IsDirectory(path)
    ensures r.1.Resolved? ==> version != Str("*") && r.1.value == GetVersion(files, version).value
    ensures !r.1.IntoArray?
  {
    match GetVersion(files, version)
    case Failure(e) => (files, Rejected(e))
    case Success(None) => (files, Resolved(None))
    case Success(Some(x)) =>
      if x.ArrayValue? || x.ObjectValue? then (files, Rejected(IsDirectory(path)))
      else (files, Resolved(Some(x)))
  }

  /** add's setFile: write x at the token and settle to x; a refused token leaves the files. */
  function SetFile(x: Item, path: string, name: string, version: Version, files: Files): (r: (Files, Outcome<Item>))
    ensures r.1 == Resolved(Some(x)) <==> SetVersion(files, version, x).Success?
    ensures r.1 == Resolved(Some(x)) ==> r.0 == SetVersion(files, version, x).value
    ensures r.1 != Resolved(Some(x)) ==> r == (files, Rejected(SetVersion(files, version, x).error))
  {
    match SetVersion(files, version, x)
    case Failure(e) => (files, Rejected(e))
    case Success(f) => (f, Resolved(Some(x)))
  }

  /** find walks with getFile and no creation hooks: its action keeps the array and never yields a directory. */
  function FindVisitor(): (v: Visitor<Item>)
    ensures v.file.Some? && v.createFiles.None? && v.createDirectory.None?
    ensures forall p, n, ver, f :: v.file.value(p, n, ver, f).0 == f
    ensures forall p, n, ver, f :: v.file.value(p, n, ver, f).1.Resolved? && v.file.value(p, n, ver, f).1.value.Some? ==>
      !v.file.value(p, n, ver, f).1.value.value.ArrayValue? && !v.file.value(p, n, ver, f).1.value.value.ObjectValue?
  {
    Visitor(Some((p, n, v, f) => GetFile(p, n, v, f)), None, None)
  }

  /**
   * add walks with setFile, and creates every missing directory as an empty
   * one: its action settles to x, or fails and keeps the array.
   */
  function AddVisitor(x: Item): (v: Visitor<Item>)
    ensures v.file.Some? && v.createFiles.None? && v.createDirectory.Some?
    ensures forall p, n, ver, f ::
      v.file.value(p, n, ver, f).1 == Resolved(Some(x)) ||
      (v.file.value(p, n, ver, f).1.Rejected? && v.file.value(p, n, ver, f).0 == f)
    ensures forall p, n, rest :: v.createDirectory.value(p, n, rest) == Some(EmptyTree)
  {
    Visitor(Some((p, n, v, f) => SetFile(x, p, n, v, f)), None, Some((p: string, n: string, rest: seq<string>) => Some(EmptyTree)))
  }

  // ---------------------------------------------------------------------------
  // The operations on a tree
  // ---------------------------------------------------------------------------

  /** find: the walk with getFile. It never settles to an array or a plain object. */
  function FindWalk(t: Tree, path: string): (w: Walked<Item>)
    ensures w.outcome.Resolved? && w.outcome.value.Some? ==>
      !w.outcome.value.value.ArrayValue? && !w.outcome.value.value.ObjectValue?
  {
    SettledByAction(path, Split(path, '/'), t, FindVisitor());
    Traverse(path, t, FindVisitor())
  }

  lemma {:induction false} AddSegsNeverNull(path: string, segs: seq<string>, t: Tree, x: Item)
    ensures var o := Recurse(path, segs, t, AddVisitor(x)).outcome;
      o.Resolved? ==> o == Resolved(Some(x))
    decreases |segs|
  {
    if |segs| > 0 && segs[0] == "" {
      AddSegsNeverNull(path, segs[1..], t, x);
    } else if |segs| > 1 {
      match AsTree(Lookup(t, segs[0]))
      case Failure(_) =>
      case Success(found) =>
        if !(found.Some? && found.value.Versions?) {
          var sub := if found.Some? && found.value.Dir? then Some(found.value.tree)
                     else SynthesizeDirectory(path, segs[0], segs[1..], t, AddVisitor(x));
          AddSegsNeverNull(path, segs[1..], sub.value, x);
        }
    }
  }

  /**
   * add: refused on a read-only file system, otherwise the walk with setFile.
   * It creates every missing directory, so it never settles to null: it
   * settles to the file it stored, or fails.
   */
  function AddOp(readOnly: bool, t: Tree, path: string, x: Item): (w: Walked<Item>)
    ensures readOnly ==> w == Walked(t, Rejected(ReadOnly))
    ensures w.outcome != Resolved(None)
    ensures w.outcome.Resolved? ==> w.outcome == Resolved(Some(x))
    ensures t.entries.Keys <= w.tree.entries.Keys
    ensures forall k :: k in t.entries ==> SameKind(t.entries[k], w.tree.entries[k])
  {
    if readOnly then Walked(t, Rejected(ReadOnly))
    else
      AddSegsNeverNull(path, Split(path, '/'), t, x);
      Traverse(path, t, AddVisitor(x))
  }

  /** copy: find the source, then add the proxy find returned at the destination. */
  function CopyOp(readOnly: bool, t: Tree, from: string, to: string): (w: Walked<Item>)
    ensures w.outcome.Resolved? ==> w.outcome == Resolved(Some(Awaiting(FindWalk(t, from).outcome)))
    ensures t.entries.Keys <= w.tree.entries.Keys
    ensures forall k :: k in t.entries ==> SameKind(t.entries[k], w.tree.entries[k])
  {
    var found := FindWalk(t, from);
    AddOp(readOnly, found.tree, to, Awaiting(found.outcome))
  }

  /** label: copy the path to the same name with '@' and the label in place of its version. */
  function LabelOp(readOnly: bool, t: Tree, path: string, tag: string): (w: Walked<Item>)
    ensures w.outcome.Resolved? ==> w.outcome == Resolved(Some(Awaiting(FindWalk(t, path).outcome)))
    ensures t.entries.Keys <= w.tree.entries.Keys
    ensures forall k :: k in t.entries ==> SameKind(t.entries[k], w.tree.entries[k])
  {
    CopyOp(readOnly, t, path, LabelTarget(path, tag))
  }

  // ---------------------------------------------------------------------------
  // metadata
  // ---------------------------------------------------------------------------

  /**
   * The merged metadata of a file: the name, overridden by the sequence
   * metadata, overridden by the file's content type (or, without one, by the
   * name again), overridden by the file's cached metadata.
   */
  function MergeMetadata(name: string, filesMeta: Metadata, contentType: string, cached: Option<Metadata>): (m: Metadata)
    ensures m.Keys == {"name"} + filesMeta.Keys + (if contentType != "" then {"content-type"} else {}) +
      (if cached.Some? then cached.value.Keys else {})
    ensures forall k :: k in m ==>
      m[k] == if cached.Some? && k in cached.value then cached.value[k]
              else if k == "content-type" && contentType != "" then contentType
              else if k == "name" && contentType == "" then name
              else if k in filesMeta then filesMeta[k]
              else name
  {
    var base := map["name" := name] + filesMeta;
    var withFile := if contentType != "" then base["content-type" := contentType] else base["name" := name];
    if cached.Some? then withFile + cached.value else withFile
  }

  /**
   * metadata's getMeta. `contentType` reads an entry's 'content-type'
   * property ("" when it has none) and `cached` its cached metadata.
   */
  function GetMeta(contentType: Item -> string, cached: Item -> Option<Metadata>,
                   path: string, name: string, version: Version, files: Files): (r: (Files, Outcome<Metadata>))
    ensures r.0 == files
    ensures r.1.Rejected? <==> version == Str("*")
    ensures r.1 == Resolved(None) <==> GetVersion(files, version) == Success(None)
    ensures r.1.Resolved? && r.1.value.Some? ==> "name" in r.1.value.value
  {
    match GetVersion(files, version)
    case Failure(e) => (files, Rejected(e))
    case Success(None) => (files, Resolved(None))
    case Success(Some(x)) =>
      var filesMeta := if files.meta.Some? then files.meta.value else map[];
      (files, Resolved(Some(MergeMetadata(name, filesMeta, contentType(x), cached(x)))))
  }

  /** metadata walks with getMeta and no creation hooks: its action keeps the array and names what it finds. */
  function MetadataVisitor(contentType: Item -> string, cached: Item -> Option<Metadata>): (v: Visitor<Metadata>)
    ensures v.file.Some? && v.createFiles.None? && v.createDirectory.None?
    ensures forall p, n, ver, f :: v.file.value(p, n, ver, f).0 == f
    ensures forall p, n, ver, f :: v.file.value(p, n, ver, f).1.Resolved? && v.file.value(p, n, ver, f).1.value.Some? ==>
      "name" in v.file.value(p, n, ver, f).1.value.value
  {
    Visitor(Some((p, n, v, f) => GetMeta(contentType, cached, p, n, v, f)), None, None)
  }

  /** metadata: the walk with getMeta. Metadata it finds always has a name. */
  function MetadataWalk(t: Tree, path: string, contentType: Item -> string, cached: Item -> Option<Metadata>): (w: Walked<Metadata>)
    ensures w.outcome.Resolved? && w.outcome.value.Some? ==> "name" in w.outcome.value.value
  {
    SettledByAction(path, Split(path, '/'), t, MetadataVisitor(contentType, cached));
    Traverse(path, t, MetadataVisitor(contentType, cached))
  }

  // ---------------------------------------------------------------------------
  // The file system object
  // ---------------------------------------------------------------------------

  /** The given name when it is non-empty, otherwise FS_ and the next value of the name counter. */
  function FsName(name: Option<string>, counter: nat): (s: string)
    ensures |s| > 0
    ensures name.Some? && name.value != "" ==> s == name.value
    ensures name.None? || name.value == "" ==>
      |s| > 3 && s[..3] == "FS_" && AllDigits(s[3..]) && DigitsValue(s[3..]) == counter + 1
  {
    if name.Some? && name.value != "" then name.value
    else
      DigitsOfNatText(counter + 1);
      assert ("FS_" + NatText(counter + 1))[3..] == NatText(counter + 1);
      "FS_" + NatText(counter + 1)
  }

  class AFileSystem {
    var readOnly: bool
    var name: string
    var tree: Tree

    /**
     * `counter` is the module's name counter before this construction; a
     * missing or empty name takes its next value.
     */
    constructor(tree: Tree, readOnly: Option<bool>, name: Option<string>, counter: nat)
      ensures this.tree == tree
      ensures this.readOnly == (readOnly == Some(true))
      ensures this.name == FsName(name, counter)
    {
      this.tree := tree;
      this.readOnly := readOnly == Some(true);
      this.name := FsName(name, counter);
    }

    /** The proxy for the file at a possibly versioned path; the walk may store empty arrays. */
    method Find(path: string) returns (r: Item)
      modifies this`tree
      ensures r == Awaiting(FindWalk(old(tree), path).outcome)
      ensures tree == FindWalk(old(tree), path).tree
    {
      var w := FindWalk(tree, path);
      tree := w.tree;
      r := Awaiting(w.outcome);
    }

    method Add(path: string, file: Item) returns (r: Outcome<Item>)
      modifies this`tree
      ensures r == AddOp(readOnly, old(tree), path, file).outcome
      ensures tree == AddOp(readOnly, old(tree), path, file).tree
    {
      if readOnly {
        r := Rejected(ReadOnly);
        return;
      }
      var w := Traverse(path, tree, AddVisitor(file));
      tree := w.tree;
      r := w.outcome;
    }

    method Copy(from: string, to: string) returns (r: Outcome<Item>)
      modifies this`tree
      ensures r == CopyOp(readOnly, old(tree), from, to).outcome
      ensures tree == CopyOp(readOnly, old(tree), from, to).tree
    {
      var found := Find(from);
      r := Add(to, found);
    }

    method Label(path: string, tag: string) returns (r: Outcome<Item>)
      modifies this`tree
      ensures r == LabelOp(readOnly, old(tree), path, tag).outcome
      ensures tree == LabelOp(readOnly, old(tree), path, tag).tree
    {
      r := Copy(path, LabelTarget(path, tag));
    }

    method MetadataOf(path: string, contentType: Item -> string, cached: Item -> Option<Metadata>)
      returns (r: Outcome<Metadata>)
      modifies this`tree
      ensures r == MetadataWalk(old(tree), path, contentType, cached).outcome
      ensures tree == MetadataWalk(old(tree), path, contentType, cached).tree
    {
      var w := MetadataWalk(tree, path, contentType, cached);
      tree := w.tree;
      r := w.outcome;
    }
  }
}
