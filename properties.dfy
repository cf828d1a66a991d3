/**
 * What the file-system operations promise together: a file added can be
 * found again, a label reads the version it was copied from and survives
 * later writes, add never settles to null, and the behaviour on the trees
 * of the repository's own tests.
 */
module Properties {
  import opened Types
  import opened Util
  import opened Paths
  import opened Walk
  import opened FileSystem

  // ---------------------------------------------------------------------------
  // add
  // ---------------------------------------------------------------------------

  lemma AddSegsThenFind(path: string, segs: seq<string>, t: Tree, x: Item)
    requires !x.ArrayValue? && !x.ObjectValue?
    requires Recurse(path, segs, t, AddVisitor(x)).outcome == Resolved(Some(x))
    ensures var w := Recurse(path, segs, t, AddVisitor(x));
      Recurse(path, segs, w.tree, FindVisitor()) == Walked(w.tree, Resolved(Some(x)))
  {
    var w := Recurse(path, segs, t, AddVisitor(x));
    var before := WalkSettles(path, segs, t, AddVisitor(x));
    var last := Last(segs);
    assert SetFile(x, path, NameOf(last), VersionOf(last), before) == (FilesAt(segs, w.tree).value, Resolved(Some(x)));
    SetThenGet(before, VersionOf(last), x);
    WalkReached(path, segs, w.tree, FindVisitor());
  }

  /**
   * Once add has stored a file, find on the same path settles to that file
   * and leaves the tree as add left it.
   */
  lemma AddThenFind(t: Tree, path: string, x: Item)
    requires !x.ArrayValue? && !x.ObjectValue?
    requires AddOp(false, t, path, x).outcome == Resolved(Some(x))
    ensures var w := AddOp(false, t, path, x);
      FindWalk(w.tree, path) == Walked(w.tree, Resolved(Some(x)))
  {
    AddSegsThenFind(path, Split(path, '/'), t, x);
  }

  /** A read-only file system refuses add, copy and label, though copy's find still runs. */
  lemma ReadOnlyRefuses(t: Tree, path: string, to: string, x: Item, tag: string)
    ensures AddOp(true, t, path, x) == Walked(t, Rejected(ReadOnly))
    ensures CopyOp(true, t, path, to) == Walked(FindWalk(t, path).tree, Rejected(ReadOnly))
    ensures LabelOp(true, t, path, tag).outcome == Rejected(ReadOnly)
  {
  }

  /** Once copy has stored at `to`, find there reads the proxy of what find read at `from`. */
  lemma CopyThenFind(t: Tree, from: string, to: string)
    requires CopyOp(false, t, from, to).outcome.Resolved?
    ensures var proxy := Awaiting(FindWalk(t, from).outcome);
      var w := CopyOp(false, t, from, to);
      w.outcome == Resolved(Some(proxy)) && FindWalk(w.tree, to) == Walked(w.tree, Resolved(Some(proxy)))
  {
    var found := FindWalk(t, from);
    AddThenFind(found.tree, to, Awaiting(found.outcome));
  }

  // ---------------------------------------------------------------------------
  // label
  // ---------------------------------------------------------------------------

  /**
   * The label target of a path that reaches a Files array reaches the same
   * array, with the same name and the label as its version.
   */
  lemma LabelReaches(t: Tree, path: string, tag: string)
    requires '/' !in tag && '@' !in tag
    requires FilesAt(Split(path, '/'), t).Some?
    ensures var segs := Split(path, '/');
      var moved := Split(LabelTarget(path, tag), '/');
      FilesAt(moved, t) == FilesAt(segs, t) &&
      NameOf(Last(moved)) == NameOf(Last(segs)) && VersionOf(Last(moved)) == Str(tag)
  {
    var segs := Split(path, '/');
    var name := NameOf(Last(segs));
    LabelTargetSegments(path, tag);
    NameAndVersion(name, tag);
    Relocate(segs, name + "@" + tag, t);
    assert Last(Split(LabelTarget(path, tag), '/')) == name + "@" + tag;
  }

  /**
   * Labelling a file that find reaches stores the proxy find returned under
   * the label, and the labelled path then reads that proxy.
   */
  lemma LabelThenFind(t: Tree, path: string, tag: string, y: Item)
    requires '/' !in tag && '@' !in tag && IsLabelText(tag)
    requires FindWalk(t, path).outcome == Resolved(Some(y))
    ensures var proxy := Awaiting(Resolved(Some(y)));
      var w := LabelOp(false, t, path, tag);
      w.outcome == Resolved(Some(proxy)) &&
      FindWalk(w.tree, LabelTarget(path, tag)) == Walked(w.tree, Resolved(Some(proxy)))
  {
    var segs := Split(path, '/');
    var found := FindWalk(t, path);
    var _ := WalkSettles(path, segs, t, FindVisitor());
    var to := LabelTarget(path, tag);
    LabelReaches(found.tree, path, tag);
    var proxy := Awaiting(Resolved(Some(y)));
    WalkReached(to, Split(to, '/'), found.tree, AddVisitor(proxy));
    AddSegsThenFind(to, Split(to, '/'), found.tree, proxy);
  }

  /**
   * A later successful add of another version or label to a file leaves
   * what an existing label of that file reads unchanged.
   */
  lemma AddKeepsLabel(t: Tree, path: string, x: Item, tag: string)
    requires '/' !in tag && '@' !in tag && IsLabelText(tag)
    requires FilesAt(Split(path, '/'), t).Some?
    requires VersionOf(Last(Split(path, '/'))) != Str(tag)
    requires AddOp(false, t, path, x).outcome == Resolved(Some(x))
    ensures var labelled := LabelTarget(path, tag);
      FindWalk(AddOp(false, t, path, x).tree, labelled).outcome == FindWalk(t, labelled).outcome
  {
    var segs := Split(path, '/');
    var files := FilesAt(segs, t).value;
    var last := Last(segs);
    var w := AddOp(false, t, path, x);
    WalkReached(path, segs, t, AddVisitor(x));
    assert SetFile(x, path, NameOf(last), VersionOf(last), files).1 == Resolved(Some(x));
    var after := SetVersion(files, VersionOf(last), x).value;
    assert FilesAt(segs, w.tree) == Some(after);
    var labelled := LabelTarget(path, tag);
    LabelReaches(t, path, tag);
    LabelReaches(w.tree, path, tag);
    SetKeepsOtherLabel(files, VersionOf(last), x, tag);
    WalkReached(labelled, Split(labelled, '/'), t, FindVisitor());
    WalkReached(labelled, Split(labelled, '/'), w.tree, FindVisitor());
  }

  // ---------------------------------------------------------------------------
  // find
  // ---------------------------------------------------------------------------

  /**
   * find of a name that is not in the tree, with no FILE handler, stores an
   * empty Files array under the name and settles to null.
   */
  lemma FindStoresEmptyArray(t: Tree, seg: string)
    requires '/' !in seg && seg != "" && NameOf(seg) !in t.entries && t.onFile.None?
    requires VersionOf(seg) != Str("*")
    ensures FindWalk(t, seg) == Walked(t.(entries := t.entries[NameOf(seg) := Entry.Versions(NoFiles)]), Resolved(None))
  {
    assert Split(seg, '/') == [seg];
    assert GetVersion(NoFiles, VersionOf(seg)) == Success(None);
  }

  /**
   * find of a name that is not in the tree, where the FILE handler supplies
   * an array: the array is stored under the name and find reads from it.
   */
  lemma FindUsesFileHandler(t: Tree, seg: string, files: Files)
    requires '/' !in seg && seg != "" && NameOf(seg) !in t.entries
    requires t.onFile.Some? && t.onFile.value(seg, NameOf(seg), VersionOf(seg), []) == Some(files)
    ensures FindWalk(t, seg) ==
      Walked(t.(entries := t.entries[NameOf(seg) := Entry.Versions(files)]), GetFile(seg, NameOf(seg), VersionOf(seg), files).1)
  {
    assert Split(seg, '/') == [seg];
    MissingFilesSupplied(seg, seg, t, FindVisitor(), files);
  }

  /**
   * On a path that already reaches a Files array, find reads the version
   * the last segment names from that array and changes nothing.
   */
  lemma FindReads(t: Tree, path: string)
    requires FilesAt(Split(path, '/'), t).Some?
    ensures var segs := Split(path, '/');
      FindWalk(t, path) ==
      Walked(t, GetFile(path, NameOf(Last(segs)), VersionOf(Last(segs)), FilesAt(segs, t).value).1)
  {
    WalkReached(path, Split(path, '/'), t, FindVisitor());
  }

  /**
   * A final segment naming a directory or a non-object value is refused as a
   * file; a middle segment naming a non-object value is refused as a
   * directory, while one naming a Files array walks into the array.
   */
  lemma FindOnWrongShape(t: Tree, name: string, rest: seq<string>)
    requires PlainName(name) && name in t.entries
    requires |rest| >= 1 && forall i :: 0 <= i < |rest| ==> '/' !in rest[i]
    ensures !t.entries[name].Versions? ==>
      FindWalk(t, FromRoot([name])) == Walked(t, Rejected(UnexpectedFileLevel))
    ensures t.entries[name].Scalar? ==>
      FindWalk(t, FromRoot([name] + rest)) == Walked(t, Rejected(UnexpectedDirectoryLevel))
    ensures t.entries[name].Versions? ==> FindWalk(t, FromRoot([name] + rest)) == Walked(t, IntoArray)
  {
    FromRootSegments([name]);
    NameAndVersion(name, "");
    assert ["", name][1..] == [name];
    assert Recurse(FromRoot([name]), ["", name], t, FindVisitor()) == Recurse(FromRoot([name]), [name], t, FindVisitor());
    var names := [name] + rest;
    assert forall i :: 0 < i < |names| ==> names[i] == rest[i - 1];
    FromRootSegments(names);
    var deep := FromRoot(names);
    assert ([""] + names)[1..] == names;
    assert Recurse(deep, [""] + names, t, FindVisitor()) == Recurse(deep, names, t, FindVisitor());
  }

  // ---------------------------------------------------------------------------
  // metadata
  // ---------------------------------------------------------------------------

  lemma {:induction false} MetadataSegsBesideFind(path: string, segs: seq<string>, t: Tree,
                                                 contentType: Item -> string, cached: Item -> Option<Metadata>)
    ensures var m := Recurse(path, segs, t, MetadataVisitor(contentType, cached));
      var f := Recurse(path, segs, t, FindVisitor());
      m.tree == f.tree &&
      (m.outcome == Resolved(None) <==> f.outcome == Resolved(None)) &&
      (m.outcome.IntoArray? <==> f.outcome.IntoArray?) &&
      (m.outcome.Rejected? ==> f.outcome == Rejected(m.outcome.error)) &&
      (f.outcome.Resolved? && f.outcome.value.Some? ==>
        m.outcome.Resolved? && m.outcome.value.Some? && "name" in m.outcome.value.value)
    decreases |segs|
  {
    var mv := MetadataVisitor(contentType, cached);
    if |segs| > 0 && segs[0] == "" {
      MetadataSegsBesideFind(path, segs[1..], t, contentType, cached);
    } else if |segs| == 1 {
      var name := NameOf(segs[0]);
      match AsFiles(Lookup(t, name))
      case Failure(_) =>
      case Success(found) =>
        var files := if found.Some? then found.value else NoFiles;
        assert SynthesizeFiles(path, name, VersionOf(segs[0]), t, mv) == SynthesizeFiles(path, name, VersionOf(segs[0]), t, FindVisitor());
        assert Act(mv, path, name, VersionOf(segs[0]), files) == GetMeta(contentType, cached, path, name, VersionOf(segs[0]), files);
    } else if |segs| > 1 {
      match AsTree(Lookup(t, segs[0]))
      case Failure(_) =>
      case Success(found) =>
        if !(found.Some? && found.value.Versions?) {
          var sub := if found.Some? && found.value.Dir? then Some(found.value.tree)
                     else SynthesizeDirectory(path, segs[0], segs[1..], t, mv);
          assert sub == if found.Some? && found.value.Dir? then Some(found.value.tree)
                        else SynthesizeDirectory(path, segs[0], segs[1..], t, FindVisitor());
          if sub.Some? {
            MetadataSegsBesideFind(path, segs[1..], sub.value, contentType, cached);
          }
        }
    }
  }

  /**
   * metadata walks exactly as find does and leaves the same tree: it is
   * null exactly when find is, fails where find fails with the same error
   * (find alone also refuses array and object entries), and on a file find
   * returns it yields metadata with a name.
   */
  lemma MetadataBesideFind(t: Tree, path: string, contentType: Item -> string, cached: Item -> Option<Metadata>)
    ensures var m := MetadataWalk(t, path, contentType, cached);
      var f := FindWalk(t, path);
      m.tree == f.tree &&
      (m.outcome == Resolved(None) <==> f.outcome == Resolved(None)) &&
      (m.outcome.Rejected? ==> f.outcome == Rejected(m.outcome.error)) &&
      (f.outcome.Resolved? && f.outcome.value.Some? ==>
        m.outcome.Resolved? && m.outcome.value.Some? && "name" in m.outcome.value.value)
  {
    MetadataSegsBesideFind(path, Split(path, '/'), t, contentType, cached);
  }

  /** Two names the counter gives are distinct. */
  lemma DefaultNamesDiffer(counter1: nat, counter2: nat)
    requires counter1 != counter2
    ensures FsName(None, counter1) != FsName(None, counter2)
  {
  }

  // ---------------------------------------------------------------------------
  // Scenarios
  // ---------------------------------------------------------------------------

  function One(x: Item): Files { Files([Some(x)], None, None, None, false) }

  function Two(x: Item, y: Item): Files { Files([Some(x), Some(y)], None, None, None, false) }

  /**
   * The names in the tree of the 'simple' find tests (there: aFile, subdir,
   * anotherFile, deeper and versions), taken as parameters.
   */
  datatype Names = Names(aFile: string, subdir: string, anotherFile: string, deeper: string, versions: string)

  predicate PlainName(s: string) {
    s != "" && '/' !in s && '@' !in s
  }

  predicate ValidNames(n: Names) {
    PlainName(n.aFile) && PlainName(n.subdir) && PlainName(n.anotherFile) && PlainName(n.deeper) &&
    PlainName(n.versions) && n.aFile != n.subdir && n.anotherFile != n.deeper
  }

  function DeeperTree(n: Names, file1: Item, file2: Item): Tree {
    Tree(map[n.versions := Entry.Versions(Two(file1, file2))], None, None)
  }

  function SubdirTree(n: Names, file1: Item, file2: Item): Tree {
    Tree(map[n.anotherFile := Entry.Versions(One(file2)), n.deeper := Dir(DeeperTree(n, file1, file2))], None, None)
  }

  /** The tree of the 'simple' find tests. */
  function SimpleTree(n: Names, file1: Item, file2: Item): Tree {
    Tree(map[n.aFile := Entry.Versions(One(file1)), n.subdir := Dir(SubdirTree(n, file1, file2))], None, None)
  }

  /** Every path into the versions array of the 'deeper' directory reaches the same array. */
  lemma DeeperReached(n: Names, file1: Item, file2: Item, last: string)
    requires ValidNames(n) && last != "" && '/' !in last && NameOf(last) == n.versions
    ensures var segs := ["", n.subdir, n.deeper, last];
      Split(FromRoot([n.subdir, n.deeper, last]), '/') == segs &&
      FilesAt(segs, SimpleTree(n, file1, file2)) == Some(Two(file1, file2))
  {
    FromRootSegments([n.subdir, n.deeper, last]);
    var segs := ["", n.subdir, n.deeper, last];
    assert segs[1..] == [n.subdir, n.deeper, last];
    assert [n.subdir, n.deeper, last][1..] == [n.deeper, last];
    assert [n.deeper, last][1..] == [last];
    assert FilesAt([last], DeeperTree(n, file1, file2)) == Some(Two(file1, file2));
    assert FilesAt([n.deeper, last], SubdirTree(n, file1, file2)) == FilesAt([last], DeeperTree(n, file1, file2));
    assert FilesAt([n.subdir, n.deeper, last], SimpleTree(n, file1, file2)) ==
      FilesAt([n.deeper, last], SubdirTree(n, file1, file2));
  }

  /** The slots read through path tokens, written as numerals. */
  lemma NumeralTokens(length: nat)
    ensures Canonicalize(Str("1"), length) == Canonicalize(Num(1), length)
    ensures Canonicalize(Str("2"), length) == Canonicalize(Num(2), length)
    ensures Canonicalize(Str("-1"), length) == Canonicalize(Num(-1), length)
    ensures Canonicalize(Str("-2"), length) == Canonicalize(Num(-2), length)
    ensures Canonicalize(Str("-3"), length) == Canonicalize(Num(-3), length)
  {
    NumeralAsNumber(1, length);
    NumeralAsNumber(2, length);
    NumeralAsNumber(-1, length);
    NumeralAsNumber(-2, length);
    NumeralAsNumber(-3, length);
    assert IntText(1) == "1" && IntText(2) == "2";
    assert IntText(-1) == "-1" && IntText(-2) == "-2" && IntText(-3) == "-3";
  }

  /** The 'simple' tree: the leading '/' is skipped and a file in the root is found in place. */
  lemma FindInRootOfSimpleTree(n: Names, file1: Item, file2: Item)
    requires ValidNames(n) && file1.File? && file2.File?
    ensures FindWalk(SimpleTree(n, file1, file2), FromRoot([n.aFile])) ==
      Walked(SimpleTree(n, file1, file2), Resolved(Some(file1)))
  {
    var segs := ["", n.aFile];
    FromRootSegments([n.aFile]);
    NameAndVersion(n.aFile, "");
    assert FilesAt(segs, SimpleTree(n, file1, file2)) == Some(One(file1));
    FindReads(SimpleTree(n, file1, file2), FromRoot([n.aFile]));
    assert Last(segs) == n.aFile;
  }

  lemma FindInSubdirOfSimpleTree(n: Names, file1: Item, file2: Item)
    requires ValidNames(n) && file1.File? && file2.File?
    ensures FindWalk(SimpleTree(n, file1, file2), FromRoot([n.subdir, n.anotherFile])) ==
      Walked(SimpleTree(n, file1, file2), Resolved(Some(file2)))
  {
    var segs := ["", n.subdir, n.anotherFile];
    assert segs[1..] == [n.subdir, n.anotherFile];
    assert segs[1..][1..] == [n.anotherFile];
    FromRootSegments([n.subdir, n.anotherFile]);
    NameAndVersion(n.anotherFile, "");
    assert FilesAt([n.subdir, n.anotherFile], SimpleTree(n, file1, file2)) ==
      FilesAt([n.anotherFile], SubdirTree(n, file1, file2));
    assert FilesAt(segs, SimpleTree(n, file1, file2)) == Some(One(file2));
    FindReads(SimpleTree(n, file1, file2), FromRoot([n.subdir, n.anotherFile]));
    assert Last(segs) == n.anotherFile;
  }

  lemma FindInDeeper(n: Names, file1: Item, file2: Item, last: string)
    requires ValidNames(n) && last != "" && '/' !in last && NameOf(last) == n.versions
    ensures var path := FromRoot([n.subdir, n.deeper, last]);
      FindWalk(SimpleTree(n, file1, file2), path) ==
      Walked(SimpleTree(n, file1, file2), GetFile(path, n.versions, VersionOf(last), Two(file1, file2)).1)
  {
    DeeperReached(n, file1, file2, last);
    var segs := ["", n.subdir, n.deeper, last];
    FindReads(SimpleTree(n, file1, file2), FromRoot([n.subdir, n.deeper, last]));
    assert Last(segs) == last;
  }

  /**
   * One name's versions, whatever the final segment looks like: no token,
   * 'latest', 2 and -1 read the newest; 1, 'earliest' and -2 the first; -3
   * counts back past the start and reads nothing.
   */
  lemma FindVersionsInSimpleTree(n: Names, file1: Item, file2: Item, last: string)
    requires ValidNames(n) && file1.File? && file2.File?
    requires last != "" && '/' !in last && NameOf(last) == n.versions
    ensures var o := FindWalk(SimpleTree(n, file1, file2), FromRoot([n.subdir, n.deeper, last])).outcome;
      (VersionOf(last) in {Unset, Str("latest"), Str("2"), Str("-1")} ==> o == Resolved(Some(file2))) &&
      (VersionOf(last) in {Str("1"), Str("earliest"), Str("-2")} ==> o == Resolved(Some(file1))) &&
      (VersionOf(last) == Str("-3") ==> o == Resolved(None))
  {
    FindInDeeper(n, file1, file2, last);
    NumeralTokens(2);
  }

  /**
   * In the empty root, '/nofile' and 'nofile' both settle to null and both
   * leave an empty Files array under the name.
   */
  lemma FindInEmptyRoot(seg: string)
    requires seg != "" && '/' !in seg && VersionOf(seg) != Str("*")
    ensures FindWalk(EmptyTree, FromRoot([seg])) == FindWalk(EmptyTree, seg) ==
      Walked(Tree(map[NameOf(seg) := Entry.Versions(NoFiles)], None, None), Resolved(None))
  {
    FromRootSegments([seg]);
    FindStoresEmptyArray(EmptyTree, seg);
    assert ["", seg][1..] == [seg];
    assert Recurse(FromRoot([seg]), ["", seg], EmptyTree, FindVisitor()) ==
      Recurse(FromRoot([seg]), [seg], EmptyTree, FindVisitor());
  }

  /** In the empty root, a file under a missing directory is null and nothing is stored. */
  lemma FindUnderMissingDirectory(dir: string, rest: seq<string>)
    requires dir != "" && '/' !in dir
    requires |rest| >= 1 && forall i :: 0 <= i < |rest| ==> '/' !in rest[i]
    ensures FindWalk(EmptyTree, Join([dir] + rest, '/')) == Walked(EmptyTree, Resolved(None))
    ensures FindWalk(EmptyTree, FromRoot([dir] + rest)) == Walked(EmptyTree, Resolved(None))
  {
    var names := [dir] + rest;
    assert forall i :: 0 < i < |names| ==> names[i] == rest[i - 1];
    SplitJoin(names, '/');
    MissingDirectoryIsNull(Join(names, '/'), names, EmptyTree, FindVisitor());
    FromRootSegments(names);
    assert ([""] + names)[1..] == names;
    MissingDirectoryIsNull(FromRoot(names), names, EmptyTree, FindVisitor());
  }

  /** The unversioned add of a name the root lacks: no version to overwrite, so it fails, leaving an empty array. */
  lemma FirstAddOnNewName(name: string, x: Item)
    requires PlainName(name)
    ensures AddOp(false, EmptyTree, FromRoot([name]), x) ==
      Walked(Tree(map[name := Entry.Versions(NoFiles)], None, None), Rejected(CannotSetVersion(Unset)))
  {
    var path := FromRoot([name]);
    FromRootSegments([name]);
    NameAndVersion(name, "");
    var t1 := Tree(map[name := Entry.Versions(NoFiles)], None, None);
    assert ["", name][1..] == [name];
    UnversionedWrite(NoFiles, x);
    assert FinalStep(path, name, EmptyTree, AddVisitor(x)) == Walked(t1, Rejected(CannotSetVersion(Unset)));
    assert Recurse(path, ["", name], EmptyTree, AddVisitor(x)) == Recurse(path, [name], EmptyTree, AddVisitor(x));
  }

  /** Version 1 of an empty array reads null, and find changes nothing. */
  lemma FindVersionOneOfEmpty(name: string)
    requires PlainName(name)
    ensures var t1 := Tree(map[name := Entry.Versions(NoFiles)], None, None);
      FindWalk(t1, FromRoot([name + "@" + "1"])) == Walked(t1, Resolved(None))
  {
    var t1 := Tree(map[name := Entry.Versions(NoFiles)], None, None);
    var seg := name + "@" + "1";
    NameAndVersion(name, "1");
    SplitKeepsChars(seg, '@');
    assert '/' !in seg;
    FromRootSegments([seg]);
    assert FilesAt(["", seg], t1) == Some(NoFiles);
    FindReads(t1, FromRoot([seg]));
    assert Last(["", seg]) == seg;
    NumeralTokens(0);
  }

  /** Adding under a label to an empty array stores the file under that label and nothing else. */
  lemma AddLabelToEmpty(name: string, tag: string, proxy: Item)
    requires PlainName(name) && PlainName(tag) && IsLabelText(tag)
    ensures var t1 := Tree(map[name := Entry.Versions(NoFiles)], None, None);
      var w := AddOp(false, t1, FromRoot([name + "@" + tag]), proxy);
      w.outcome == Resolved(Some(proxy)) &&
      FilesAt(["", name + "@" + tag], w.tree) == Some(NoFiles.(tags := Some(map[tag := proxy])))
  {
    var t1 := Tree(map[name := Entry.Versions(NoFiles)], None, None);
    var seg := name + "@" + tag;
    NameAndVersion(name, tag);
    assert '/' !in seg;
    FromRootSegments([seg]);
    var toSegs := ["", seg];
    assert FilesAt(toSegs, t1) == Some(NoFiles);
    assert Last(toSegs) == seg;
    assert SetVersion(NoFiles, Str(tag), proxy) == Success(NoFiles.(tags := Some(map[tag := proxy])));
    WalkReached(FromRoot([seg]), toSegs, t1, AddVisitor(proxy));
  }

  /** Labelling version 1 of an empty array stores, under the label, the proxy of the null version 1 reads. */
  lemma LabelOnEmptyArray(name: string, tag: string)
    requires PlainName(name) && PlainName(tag) && IsLabelText(tag)
    ensures var t1 := Tree(map[name := Entry.Versions(NoFiles)], None, None);
      var w := LabelOp(false, t1, FromRoot([name + "@" + "1"]), tag);
      w.outcome == Resolved(Some(Awaiting(Resolved(None)))) &&
      FilesAt(["", name + "@" + tag], w.tree) == Some(NoFiles.(tags := Some(map[tag := Awaiting(Resolved(None))])))
  {
    NameAndVersion(name, "1");
    LabelTargetFromRoot([name + "@" + "1"], tag);
    assert [name + "@" + "1"][..0] + [name + "@" + tag] == [name + "@" + tag];
    FindVersionOneOfEmpty(name);
    AddLabelToEmpty(name, tag, Awaiting(Resolved(None)));
  }

  /** On an array holding only a label, the unversioned add has no version to overwrite and fails. */
  lemma OnlyLabelledAdd(t: Tree, name: string, tag: string, proxy: Item, y: Item)
    requires PlainName(name) && PlainName(tag)
    requires FilesAt(["", name + "@" + tag], t) == Some(NoFiles.(tags := Some(map[tag := proxy])))
    ensures AddOp(false, t, FromRoot([name]), y) == Walked(t, Rejected(CannotSetVersion(Unset)))
  {
    var tagged := NoFiles.(tags := Some(map[tag := proxy]));
    NameAndVersion(name, tag);
    FromRootSegments([name]);
    var toSegs := ["", name + "@" + tag];
    var bareSegs := ["", name];
    assert Front(toSegs) + [name] == bareSegs;
    Relocate(toSegs, name, t);
    assert Last(bareSegs) == name;
    assert SetVersion(tagged, Unset, y) == Failure(CannotSetVersion(Unset));
    WalkReached(FromRoot([name]), bareSegs, t, AddVisitor(y));
  }

  /** On an array holding only a label, the bare name reads null. */
  lemma OnlyLabelledBare(t: Tree, name: string, tag: string, proxy: Item)
    requires PlainName(name) && PlainName(tag)
    requires FilesAt(["", name + "@" + tag], t) == Some(NoFiles.(tags := Some(map[tag := proxy])))
    ensures FindWalk(t, FromRoot([name])).outcome == Resolved(None)
  {
    NameAndVersion(name, tag);
    FromRootSegments([name]);
    var toSegs := ["", name + "@" + tag];
    var bareSegs := ["", name];
    assert Front(toSegs) + [name] == bareSegs;
    Relocate(toSegs, name, t);
    assert Last(bareSegs) == name;
    WalkReached(FromRoot([name]), bareSegs, t, FindVisitor());
  }

  /** On an array holding only a label, the label reads what it holds. */
  lemma OnlyLabelledTag(t: Tree, name: string, tag: string, proxy: Item)
    requires PlainName(name) && PlainName(tag) && IsLabelText(tag) && !proxy.ArrayValue? && !proxy.ObjectValue?
    requires FilesAt(["", name + "@" + tag], t) == Some(NoFiles.(tags := Some(map[tag := proxy])))
    ensures FindWalk(t, FromRoot([name + "@" + tag])).outcome == Resolved(Some(proxy))
  {
    var seg := name + "@" + tag;
    NameAndVersion(name, tag);
    assert '/' !in seg;
    FromRootSegments([seg]);
    assert Last(["", seg]) == seg;
    FindReads(t, FromRoot([seg]));
    var tagged := NoFiles.(tags := Some(map[tag := proxy]));
    assert GetVersion(tagged, Str(tag)) == Success(Some(proxy));
    assert GetFile(FromRoot([seg]), name, Str(tag), tagged).1 == Resolved(Some(proxy));
  }

  /**
   * add, label, add on a name that is not there yet, as the code has it:
   * the first add has no version to overwrite and fails, leaving an empty
   * array; label copies the null that version 1 reads; the second add fails
   * like the first; afterwards the label reads the proxy of that null and
   * the bare name reads null.
   */
  lemma AddLabelAddOnNewName(name: string, tag: string, x: Item, y: Item)
    requires PlainName(name) && PlainName(tag) && IsLabelText(tag)
    ensures AddOp(false, EmptyTree, FromRoot([name]), x).outcome == Rejected(CannotSetVersion(Unset))
    ensures var t1 := AddOp(false, EmptyTree, FromRoot([name]), x).tree;
      var labelled := LabelOp(false, t1, FromRoot([name + "@" + "1"]), tag);
      var t2 := labelled.tree;
      labelled.outcome == Resolved(Some(Awaiting(Resolved(None)))) &&
      AddOp(false, t2, FromRoot([name]), y) == Walked(t2, Rejected(CannotSetVersion(Unset))) &&
      FindWalk(t2, FromRoot([name + "@" + tag])).outcome == Resolved(Some(Awaiting(Resolved(None)))) &&
      FindWalk(t2, FromRoot([name])).outcome == Resolved(None)
  {
    FirstAddOnNewName(name, x);
    LabelOnEmptyArray(name, tag);
    var t1 := Tree(map[name := Entry.Versions(NoFiles)], None, None);
    var t2 := LabelOp(false, t1, FromRoot([name + "@" + "1"]), tag).tree;
    OnlyLabelledAdd(t2, name, tag, Awaiting(Resolved(None)), y);
    OnlyLabelledBare(t2, name, tag, Awaiting(Resolved(None)));
    OnlyLabelledTag(t2, name, tag, Awaiting(Resolved(None)));
  }
}
