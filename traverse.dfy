/**
 * The walk every file-system operation is built on: follow a '/'-separated
 * path through the directory tree, synthesizing missing directories and
 * file arrays through the tree's handlers and the visitor's hooks, and run
 * the visitor's file action on the Files array the final segment names.
 *
 * A walk returns the tree as the walk left it (handlers' results are stored
 * in place) together with how its promise settles.
 */
module Walk {
  import opened Types
  import opened Util
  import opened Paths

  /**
   * A file action: (path, name, version, files) to the Files array as the
   * action leaves it and the value the walk settles to.
   */
  type FileAction<T> = (string, string, Version, Files) -> (Files, Outcome<T>)

  /** createFiles hook: (path, name, version) to a Files array, or null. */
  type CreateFiles = (string, string, Version) -> Option<Files>

  /** createDirectory hook: (path, name, rest) to a subtree, or null. */
  type CreateDirectory = (string, string, seq<string>) -> Option<Tree>

  /** The callbacks of one walk; a missing one takes the default that returns null. */
  datatype Visitor<T> = Visitor(
    file: Option<FileAction<T>>,
    createFiles: Option<CreateFiles>,
    createDirectory: Option<CreateDirectory>)

  /** The tree after a walk, and how the walk settled. */
  datatype Walked<T> = Walked(tree: Tree, outcome: Outcome<T>)

  /** tree[key] */
  function Lookup(t: Tree, key: string): (e: Option<Entry>)
    ensures e.Some? <==> key in t.entries
    ensures e.Some? ==> e.value == t.entries[key]
  {
    if key in t.entries then Some(t.entries[key]) else None
  }

  /** The action the visitor names, or the default that leaves the files and returns null. */
  function Act<T>(v: Visitor<T>, path: string, name: string, version: Version, files: Files): (r: (Files, Outcome<T>))
    ensures v.file.None? ==> r == (files, Resolved(None))
  {
    if v.file.Some? then v.file.value(path, name, version, files) else (files, Resolved(None))
  }

  /** Files for a name that has none: the FILE handler, then createFiles, then an empty array. */
  function SynthesizeFiles<T>(path: string, name: string, version: Version, t: Tree, v: Visitor<T>): (files: Files)
    ensures t.onFile.Some? && t.onFile.value(path, name, version, []).Some? ==>
      files == t.onFile.value(path, name, version, []).value
    ensures ((t.onFile.None? || t.onFile.value(path, name, version, []).None?) &&
             v.createFiles.Some? && v.createFiles.value(path, name, version).Some?) ==>
      files == v.createFiles.value(path, name, version).value
    ensures ((t.onFile.None? || t.onFile.value(path, name, version, []).None?) &&
             (v.createFiles.None? || v.createFiles.value(path, name, version).None?)) ==>
      files == NoFiles
  {
    var fromHandler := if t.onFile.Some? then t.onFile.value(path, name, version, []) else None;
    if fromHandler.Some? then fromHandler.value
    else
      var created := if v.createFiles.Some? then v.createFiles.value(path, name, version) else None;
      if created.Some? then created.value else NoFiles
  }

  /** A subtree for a directory that is missing: the DIRECTORY handler, then createDirectory, then null. */
  function SynthesizeDirectory<T>(path: string, name: string, rest: seq<string>, t: Tree, v: Visitor<T>): (sub: Option<Tree>)
    ensures t.onDirectory.Some? && t.onDirectory.value(path, name, rest).Some? ==>
      sub == t.onDirectory.value(path, name, rest)
    ensures (t.onDirectory.None? || t.onDirectory.value(path, name, rest).None?) && v.createDirectory.Some? ==>
      sub == v.createDirectory.value(path, name, rest)
    ensures (t.onDirectory.None? || t.onDirectory.value(path, name, rest).None?) && v.createDirectory.None? ==>
      sub.None?
  {
    var fromHandler := if t.onDirectory.Some? then t.onDirectory.value(path, name, rest) else None;
    if fromHandler.Some? then fromHandler
    else if v.createDirectory.Some? then v.createDirectory.value(path, name, rest)
    else None
  }

  /**
   * The final segment: split off the version, find or synthesize the Files
   * array, store it under the name and run the action on it.
   */
  function FinalStep<T>(path: string, seg: string, t: Tree, v: Visitor<T>): (w: Walked<T>)
    ensures w.tree.onFile == t.onFile && w.tree.onDirectory == t.onDirectory
    ensures NameOf(seg) in t.entries && !t.entries[NameOf(seg)].Versions? ==>
      w == Walked(t, Rejected(UnexpectedFileLevel))
    ensures NameOf(seg) !in t.entries || t.entries[NameOf(seg)].Versions? ==>
      w.tree.entries.Keys == t.entries.Keys + {NameOf(seg)} && w.tree.entries[NameOf(seg)].Versions? &&
      forall k :: k in t.entries && k != NameOf(seg) ==> w.tree.entries[k] == t.entries[k]
  {
    var name := NameOf(seg);
    var version := VersionOf(seg);
    match AsFiles(Lookup(t, name))
    case Failure(e) => Walked(t, Rejected(e))
    case Success(found) =>
      var files := if found.Some? then found.value else SynthesizeFiles(path, name, version, t, v);
      var (after, outcome) := Act(v, path, name, version, files);
      Walked(t.(entries := t.entries[name := Entry.Versions(after)]), outcome)
  }

  /**
   * The recursive walk over the remaining segments. An empty segment is
   * skipped (a leading '/'), running out of segments is an error, the last
   * segment names the file, and every other segment a directory.
   */
  function Recurse<T>(path: string, segs: seq<string>, t: Tree, v: Visitor<T>): (w: Walked<T>)
    ensures w.tree.onFile == t.onFile && w.tree.onDirectory == t.onDirectory
    ensures t.entries.Keys <= w.tree.entries.Keys
    ensures forall k :: k in t.entries ==> SameKind(t.entries[k], w.tree.entries[k])
    decreases |segs|
  {
    if |segs| == 0 then Walked(t, Rejected(RootAsFile))
    else if segs[0] == "" then Recurse(path, segs[1..], t, v)
    else if |segs| == 1 then FinalStep(path, segs[0], t, v)
    else
      var head := segs[0];
      match AsTree(Lookup(t, head))
      case Failure(e) => Walked(t, Rejected(e))
      case Success(found) =>
        if found.Some? && found.value.Versions? then Walked(t, IntoArray)
        else
          var sub := if found.Some? && found.value.Dir? then Some(found.value.tree)
                     else SynthesizeDirectory(path, head, segs[1..], t, v);
          if sub.None? then Walked(t, Resolved(None))
          else
            var w := Recurse(path, segs[1..], sub.value, v);
            Walked(t.(entries := t.entries[head := Dir(w.tree)]), w.outcome)
  }

  /** Both entries are directories, both Files arrays, or both something else. */
  predicate SameKind(a: Entry, b: Entry) {
    (a.Dir? <==> b.Dir?) && (a.Versions? <==> b.Versions?)
  }

  /** traverse(filesystem, path, tree, visitor) */
  function Traverse<T>(path: string, t: Tree, v: Visitor<T>): (w: Walked<T>)
    ensures w.tree.onFile == t.onFile && w.tree.onDirectory == t.onDirectory
    ensures t.entries.Keys <= w.tree.entries.Keys
    ensures forall k :: k in t.entries ==> SameKind(t.entries[k], w.tree.entries[k])
  {
    Recurse(path, Split(path, '/'), t, v)
  }

  // ---------------------------------------------------------------------------
  // Facts about the walk
  // ---------------------------------------------------------------------------

  lemma {:induction false} EmptySegments<T>(path: string, segs: seq<string>, t: Tree, v: Visitor<T>)
    requires forall i :: 0 <= i < |segs| ==> segs[i] == ""
    ensures Recurse(path, segs, t, v) == Walked(t, Rejected(RootAsFile))
    decreases |segs|
  {
    if |segs| > 0 {
      EmptySegments(path, segs[1..], t, v);
    }
  }

  /** A path with no name in it (empty, or only slashes) is the root, which is not a file. */
  lemma RootIsNotAFile<T>(path: string, t: Tree, v: Visitor<T>)
    requires forall i :: 0 <= i < |path| ==> path[i] == '/'
    ensures Traverse(path, t, v) == Walked(t, Rejected(RootAsFile))
  {
    OnlySlashes(path);
    EmptySegments(path, Split(path, '/'), t, v);
  }

  /**
   * An initial '/' only adds an empty segment, which the walk skips: the walk
   * of '/'+p goes over p's segments, with the same path passed to the
   * handlers, hooks and action.
   */
  lemma LeadingSlashIgnored<T>(p: string, t: Tree, v: Visitor<T>)
    ensures Recurse("/" + p, Split("/" + p, '/'), t, v) == Recurse("/" + p, Split(p, '/'), t, v)
  {
    LeadingSlash(p);
    assert Split("/" + p, '/')[1..] == Split(p, '/');
  }

  /**
   * A missing directory that neither the DIRECTORY handler (absent, or
   * returning null) nor a createDirectory hook supplies ends the walk with
   * null and leaves the tree as it was.
   */
  lemma MissingDirectoryIsNull<T>(path: string, segs: seq<string>, t: Tree, v: Visitor<T>)
    requires |segs| >= 2 && segs[0] != "" && segs[0] !in t.entries
    requires t.onDirectory.None? || t.onDirectory.value(path, segs[0], segs[1..]).None?
    requires v.createDirectory.None?
    ensures Recurse(path, segs, t, v) == Walked(t, Resolved(None))
  {
  }

  /**
   * A missing directory that the DIRECTORY handler, or failing it the
   * createDirectory hook, supplies is walked into and stored under its name.
   */
  lemma MissingDirectorySupplied<T>(path: string, segs: seq<string>, t: Tree, v: Visitor<T>, sub: Tree)
    requires |segs| >= 2 && segs[0] != "" && segs[0] !in t.entries
    requires (t.onDirectory.Some? && t.onDirectory.value(path, segs[0], segs[1..]) == Some(sub)) ||
      ((t.onDirectory.None? || t.onDirectory.value(path, segs[0], segs[1..]).None?) &&
       v.createDirectory.Some? && v.createDirectory.value(path, segs[0], segs[1..]) == Some(sub))
    ensures var w := Recurse(path, segs[1..], sub, v);
      Recurse(path, segs, t, v) == Walked(t.(entries := t.entries[segs[0] := Dir(w.tree)]), w.outcome)
  {
    assert SynthesizeDirectory(path, segs[0], segs[1..], t, v) == Some(sub);
  }

  /**
   * A missing file name whose array the FILE handler, or failing it the
   * createFiles hook, supplies: that array is stored under the name with the
   * action's changes, and the walk settles to the action's value on it.
   */
  lemma MissingFilesSupplied<T>(path: string, seg: string, t: Tree, v: Visitor<T>, files: Files)
    requires seg != "" && NameOf(seg) !in t.entries
    requires (t.onFile.Some? && t.onFile.value(path, NameOf(seg), VersionOf(seg), []) == Some(files)) ||
      ((t.onFile.None? || t.onFile.value(path, NameOf(seg), VersionOf(seg), []).None?) &&
       v.createFiles.Some? && v.createFiles.value(path, NameOf(seg), VersionOf(seg)) == Some(files))
    ensures var r := Act(v, path, NameOf(seg), VersionOf(seg), files);
      Recurse(path, [seg], t, v) == Walked(t.(entries := t.entries[NameOf(seg) := Entry.Versions(r.0)]), r.1)
  {
    assert SynthesizeFiles(path, NameOf(seg), VersionOf(seg), t, v) == files;
  }

  // ---------------------------------------------------------------------------
  // Where a path leads in a settled tree
  // ---------------------------------------------------------------------------

  function Last(segs: seq<string>): string
    requires |segs| >= 1
  {
    segs[|segs| - 1]
  }

  function Front(segs: seq<string>): seq<string>
    requires |segs| >= 1
  {
    segs[..|segs| - 1]
  }

  /**
   * The Files array the segments reach through directories that are already
   * in the tree, or None when a directory or the array is missing.
   */
  function FilesAt(segs: seq<string>, t: Tree): Option<Files>
    decreases |segs|
  {
    if |segs| == 0 then None
    else if segs[0] == "" then FilesAt(segs[1..], t)
    else if |segs| == 1 then
      (match Lookup(t, NameOf(segs[0])) case Some(Versions(f)) => Some(f) case _ => None)
    else
      match Lookup(t, segs[0])
      case Some(Dir(sub)) => FilesAt(segs[1..], sub)
      case _ => None
  }

  /**
   * What a path reaches depends on its directories and the name of its
   * last segment only, not on the version the last segment carries.
   */
  lemma {:induction false} Relocate(segs: seq<string>, last: string, t: Tree)
    requires |segs| >= 1 && FilesAt(segs, t).Some?
    requires last != "" && NameOf(last) == NameOf(Last(segs))
    ensures FilesAt(Front(segs) + [last], t) == FilesAt(segs, t)
    decreases |segs|
  {
    var moved := Front(segs) + [last];
    if |segs| == 1 {
      assert moved == [last];
    } else {
      assert moved[0] == segs[0];
      assert moved[1..] == Front(segs[1..]) + [last];
      assert Last(segs[1..]) == Last(segs);
      if segs[0] == "" {
        Relocate(segs[1..], last, t);
      } else {
        match Lookup(t, segs[0])
        case Some(Dir(sub)) => Relocate(segs[1..], last, sub);
      }
    }
  }

  /**
   * On a path that reaches a Files array, the walk runs the action on that
   * array (with the last segment's name and version) and stores its result
   * back in the same place.
   */
  lemma {:induction false} WalkReached<T>(path: string, segs: seq<string>, t: Tree, v: Visitor<T>)
    requires FilesAt(segs, t).Some?
    ensures |segs| >= 1
    ensures var r := Act(v, path, NameOf(Last(segs)), VersionOf(Last(segs)), FilesAt(segs, t).value);
      var w := Recurse(path, segs, t, v);
      w.outcome == r.1 && FilesAt(segs, w.tree) == Some(r.0)
    ensures var r := Act(v, path, NameOf(Last(segs)), VersionOf(Last(segs)), FilesAt(segs, t).value);
      r.0 == FilesAt(segs, t).value ==> Recurse(path, segs, t, v).tree == t
    decreases |segs|
  {
    if segs[0] == "" {
      WalkReached(path, segs[1..], t, v);
      assert Last(segs[1..]) == Last(segs);
    } else if |segs| == 1 {
      var name := NameOf(segs[0]);
      assert t.entries[name] == Entry.Versions(FilesAt(segs, t).value);
    } else {
      match Lookup(t, segs[0])
      case Some(Dir(sub)) =>
        WalkReached(path, segs[1..], sub, v);
        assert Last(segs[1..]) == Last(segs);
    }
  }

  /** The final step of a walk that settles: the action ran on the array now stored under the name. */
  lemma FinalSettles<T>(path: string, seg: string, t: Tree, v: Visitor<T>) returns (before: Files)
    requires seg != "" && !FinalStep(path, seg, t, v).outcome.Rejected?
    ensures FilesAt([seg], FinalStep(path, seg, t, v).tree).Some?
    ensures Act(v, path, NameOf(seg), VersionOf(seg), before) ==
      (FilesAt([seg], FinalStep(path, seg, t, v).tree).value, FinalStep(path, seg, t, v).outcome)
  {
    var name := NameOf(seg);
    match AsFiles(Lookup(t, name))
    case Success(found) =>
      before := if found.Some? then found.value else SynthesizeFiles(path, name, VersionOf(seg), t, v);
      var r := Act(v, path, name, VersionOf(seg), before);
      var after := t.(entries := t.entries[name := Entry.Versions(r.0)]);
      assert FinalStep(path, seg, t, v) == Walked(after, r.1);
      assert FilesAt([seg], after) == Some(r.0);
  }

  /**
   * A walk that settles to a value ran the action at the final segment: the
   * path now reaches a Files array, and that array and the outcome are what
   * the action made of the array it was given (`before`).
   */
  lemma {:induction false} WalkSettles<T>(path: string, segs: seq<string>, t: Tree, v: Visitor<T>) returns (before: Files)
    requires Recurse(path, segs, t, v).outcome.Resolved? && Recurse(path, segs, t, v).outcome.value.Some?
    ensures |segs| >= 1 && FilesAt(segs, Recurse(path, segs, t, v).tree).Some?
    ensures Act(v, path, NameOf(Last(segs)), VersionOf(Last(segs)), before) ==
      (FilesAt(segs, Recurse(path, segs, t, v).tree).value, Recurse(path, segs, t, v).outcome)
    decreases |segs|
  {
    if segs[0] == "" {
      before := WalkSettles(path, segs[1..], t, v);
      assert Last(segs[1..]) == Last(segs);
    } else if |segs| == 1 {
      before := FinalSettles(path, segs[0], t, v);
    } else {
      var head := segs[0];
      match AsTree(Lookup(t, head))
      case Success(found) =>
        var sub := if found.Some? && found.value.Dir? then Some(found.value.tree)
                   else SynthesizeDirectory(path, head, segs[1..], t, v);
        before := WalkSettles(path, segs[1..], sub.value, v);
        var w := Recurse(path, segs[1..], sub.value, v);
        assert Recurse(path, segs, t, v) == Walked(t.(entries := t.entries[head := Dir(w.tree)]), w.outcome);
        assert FilesAt(segs, Recurse(path, segs, t, v).tree) == FilesAt(segs[1..], w.tree);
        assert Last(segs[1..]) == Last(segs);
    }
  }

  /** A walk that settles to a value got that value from the visitor's action on some array. */
  lemma SettledByAction<T>(path: string, segs: seq<string>, t: Tree, v: Visitor<T>)
    ensures var o := Recurse(path, segs, t, v).outcome;
      o.Resolved? && o.value.Some? ==>
      |segs| >= 1 && exists before: Files :: Act(v, path, NameOf(Last(segs)), VersionOf(Last(segs)), before).1 == o
  {
    var o := Recurse(path, segs, t, v).outcome;
    if o.Resolved? && o.value.Some? {
      var before := WalkSettles(path, segs, t, v);
    }
  }
}
