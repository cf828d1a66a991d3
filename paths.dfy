/**
 * Path text: String.prototype.split and Array.prototype.join on one separator,
 * the name@version form of a final segment, and the target path of `label`.
 */
module Paths {
  import opened Types

  /** The first position of c in s. */
  function IndexOf(s: string, c: char): (i: nat)
    requires c in s
    ensures i < |s| && s[i] == c && c !in s[..i]
  {
    if s[0] == c then 0
    else
      var j := IndexOf(s[1..], c);
      assert s[..j + 1] == [s[0]] + s[1..][..j];
      j + 1
  }

  /** s.split(sep): the pieces between separators, at least one. */
  function Split(s: string, sep: char): (parts: seq<string>)
    ensures |parts| >= 1
    ensures forall i :: 0 <= i < |parts| ==> sep !in parts[i]
    decreases |s|
  {
    if sep in s then
      var i := IndexOf(s, sep);
      [s[..i]] + Split(s[i + 1..], sep)
    else [s]
  }

  /** parts.join(sep) */
  function Join(parts: seq<string>, sep: char): (s: string)
    requires |parts| >= 1
    ensures |s| >= |parts[0]| + |parts| - 1
  {
    if |parts| == 1 then parts[0] else parts[0] + [sep] + Join(parts[1..], sep)
  }

  /** The joined text ends with the last piece. */
  lemma {:induction false} JoinEndsWith(parts: seq<string>, sep: char)
    requires |parts| >= 1
    ensures var s := Join(parts, sep); var last := parts[|parts| - 1];
      |s| >= |last| && s[|s| - |last|..] == last
  {
    if |parts| > 1 {
      JoinEndsWith(parts[1..], sep);
      var rest := Join(parts[1..], sep);
      assert Join(parts, sep) == parts[0] + [sep] + rest;
      assert parts[1..][|parts| - 2] == parts[|parts| - 1];
    }
  }

  /** Joining the pieces gives back the text. */
  lemma {:induction false} JoinSplit(s: string, sep: char)
    ensures Join(Split(s, sep), sep) == s
    decreases |s|
  {
    if sep in s {
      var i := IndexOf(s, sep);
      var parts := Split(s, sep);
      var rest := Split(s[i + 1..], sep);
      assert parts == [s[..i]] + rest;
      assert parts[1..] == rest;
      assert Join(parts, sep) == s[..i] + [sep] + Join(rest, sep);
      JoinSplit(s[i + 1..], sep);
      assert s == s[..i] + [sep] + s[i + 1..];
    }
  }

  /** Every piece is made of characters of the text. */
  lemma {:induction false} SplitKeepsChars(s: string, sep: char)
    ensures forall i, ch :: 0 <= i < |Split(s, sep)| && ch in Split(s, sep)[i] ==> ch in s
    decreases |s|
  {
    if sep in s {
      var i := IndexOf(s, sep);
      SplitKeepsChars(s[i + 1..], sep);
      forall k, ch | 0 <= k < |Split(s, sep)| && ch in Split(s, sep)[k] ensures ch in s {
        if k == 0 {
          assert Split(s, sep)[0] == s[..i];
          var j :| 0 <= j < i && s[..i][j] == ch;
          assert s[j] == ch;
        } else {
          assert Split(s, sep)[k] == Split(s[i + 1..], sep)[k - 1];
          assert ch in s[i + 1..];
          var j :| 0 <= j < |s| - i - 1 && s[i + 1..][j] == ch;
          assert s[i + 1 + j] == ch;
        }
      }
    }
  }

  lemma {:induction false} IndexOfAfter(a: string, c: char, b: string)
    requires c !in a
    ensures IndexOf(a + [c] + b, c) == |a|
  {
    if a != [] {
      assert (a + [c] + b)[1..] == a[1..] + [c] + b;
      IndexOfAfter(a[1..], c, b);
    }
  }

  /** A separator-free first piece splits off exactly. */
  lemma SplitAfter(a: string, sep: char, b: string)
    requires sep !in a
    ensures Split(a + [sep] + b, sep) == [a] + Split(b, sep)
  {
    var s := a + [sep] + b;
    IndexOfAfter(a, sep, b);
    assert s[..|a|] == a;
    assert s[|a| + 1..] == b;
  }

  /** Splitting the joined pieces gives back the pieces, when none holds the separator. */
  lemma {:induction false} SplitJoin(parts: seq<string>, sep: char)
    requires |parts| >= 1 && forall i :: 0 <= i < |parts| ==> sep !in parts[i]
    ensures Split(Join(parts, sep), sep) == parts
  {
    if |parts| > 1 {
      var rest := Join(parts[1..], sep);
      assert Join(parts, sep) == parts[0] + [sep] + rest;
      SplitAfter(parts[0], sep, rest);
      assert forall i :: 0 <= i < |parts| - 1 ==> parts[1..][i] == parts[i + 1];
      SplitJoin(parts[1..], sep);
      assert parts == [parts[0]] + parts[1..];
    }
  }

  /** A leading '/' adds one empty segment in front. */
  lemma LeadingSlash(p: string)
    ensures Split("/" + p, '/') == [""] + Split(p, '/')
  {
    SplitAfter("", '/', p);
    assert "" + ['/'] + p == "/" + p;
  }

  /** The absolute path of the given names: '/' and the names joined by '/'. */
  function FromRoot(names: seq<string>): string {
    Join([""] + names, '/')
  }

  lemma FromRootSegments(names: seq<string>)
    requires forall i :: 0 <= i < |names| ==> '/' !in names[i]
    ensures Split(FromRoot(names), '/') == [""] + names
  {
    var parts := [""] + names;
    assert forall i :: 0 < i < |parts| ==> parts[i] == names[i - 1];
    SplitJoin(parts, '/');
  }

  /** The label target of an absolute path of plain names. */
  lemma LabelTargetFromRoot(names: seq<string>, tag: string)
    requires |names| >= 1 && forall i :: 0 <= i < |names| ==> '/' !in names[i]
    ensures LabelTarget(FromRoot(names), tag) ==
      FromRoot(names[..|names| - 1] + [NameOf(names[|names| - 1]) + "@" + tag])
  {
    FromRootSegments(names);
    var exp := [""] + names;
    assert exp[..|exp| - 1] == [""] + names[..|names| - 1];
    assert exp[|exp| - 1] == names[|names| - 1];
    assert ([""] + names[..|names| - 1]) + [NameOf(names[|names| - 1]) + "@" + tag] ==
      [""] + (names[..|names| - 1] + [NameOf(names[|names| - 1]) + "@" + tag]);
  }

  /** A path made only of '/' (or empty) has no non-empty segment. */
  lemma {:induction false} OnlySlashes(p: string)
    requires forall i :: 0 <= i < |p| ==> p[i] == '/'
    ensures forall i :: 0 <= i < |Split(p, '/')| ==> Split(p, '/')[i] == ""
  {
    if p != "" {
      assert p[0] == '/' && '/' in p;
      assert IndexOf(p, '/') == 0;
      OnlySlashes(p[1..]);
      assert Split(p, '/') == [""] + Split(p[1..], '/');
    }
  }

  /** The name of a final segment: the text before its first '@'. */
  function NameOf(seg: string): (name: string)
    ensures '@' !in name
  {
    Split(seg, '@')[0]
  }

  /** The version of a final segment: none without '@', else the text up to the next '@'. */
  function VersionOf(seg: string): (v: Version)
    ensures v == Unset <==> '@' !in seg
    ensures !v.Num? && (v.Str? ==> '@' !in v.s)
  {
    var parts := Split(seg, '@');
    if |parts| == 1 then Unset else Str(parts[1])
  }

  /** `name@version` splits back into its name and version. */
  lemma NameAndVersion(name: string, version: string)
    requires '@' !in name && '@' !in version
    ensures NameOf(name + "@" + version) == name
    ensures VersionOf(name + "@" + version) == Str(version)
    ensures NameOf(name) == name && VersionOf(name) == Unset
  {
    SplitAfter(name, '@', version);
    assert name + "@" + version == name + ['@'] + version;
  }

  /** label's destination: the last segment's name followed by '@' and the label. */
  function LabelTarget(path: string, tag: string): (to: string)
    ensures |to| > |tag| && to[|to| - |tag| - 1..] == "@" + tag
  {
    var exp := Split(path, '/');
    var last := NameOf(exp[|exp| - 1]) + "@" + tag;
    JoinEndsWith(exp[..|exp| - 1] + [last], '/');
    var to := Join(exp[..|exp| - 1] + [last], '/');
    to
  }

  /** With a label free of '/', the target has the same segments but the last. */
  lemma LabelTargetSegments(path: string, tag: string)
    requires '/' !in tag
    ensures var exp := Split(path, '/');
      Split(LabelTarget(path, tag), '/') == exp[..|exp| - 1] + [NameOf(exp[|exp| - 1]) + "@" + tag]
  {
    var exp := Split(path, '/');
    var last := exp[|exp| - 1];
    SplitKeepsChars(last, '@');
    assert '/' !in NameOf(last);
    var parts := exp[..|exp| - 1] + [NameOf(last) + "@" + tag];
    forall i | 0 <= i < |parts| ensures '/' !in parts[i] {
      if i < |exp| - 1 { assert parts[i] == exp[i]; }
    }
    SplitJoin(parts, '/');
  }

  /** Without '/' or '@' in the label, the target's final segment is name@label. */
  lemma LabelTargetFinal(path: string, tag: string)
    requires '/' !in tag && '@' !in tag
    ensures var exp := Split(path, '/');
      var t := Split(LabelTarget(path, tag), '/');
      t[..|t| - 1] == exp[..|exp| - 1] &&
      NameOf(t[|t| - 1]) == NameOf(exp[|exp| - 1]) && VersionOf(t[|t| - 1]) == Str(tag)
  {
    var exp := Split(path, '/');
    LabelTargetSegments(path, tag);
    NameAndVersion(NameOf(exp[|exp| - 1]), tag);
  }

  /** Relabelling a relabelled path with the same label changes nothing. */
  lemma LabelTargetIdempotent(path: string, tag: string)
    requires '/' !in tag
    ensures LabelTarget(LabelTarget(path, tag), tag) == LabelTarget(path, tag)
  {
    var exp := Split(path, '/');
    var name := NameOf(exp[|exp| - 1]);
    LabelTargetSegments(path, tag);
    var t := Split(LabelTarget(path, tag), '/');
    assert t[..|t| - 1] == exp[..|exp| - 1];
    SplitAfter(name, '@', tag);
    assert name + "@" + tag == name + ['@'] + tag;
    assert NameOf(t[|t| - 1]) == name;
  }
}
