/**
 * Version resolution and the slot operations on a Files array: canonicalising
 * a version token, reading, writing and deleting a version or label, building
 * a Files array for a list of versions, classifying tree entries, and the
 * UTF-16 encoder.
 */
module Util {
  import opened Types

  // ---------------------------------------------------------------------------
  // Decimal integer text: the regular expression ^[-+]?\d+$ and parseInt
  // ---------------------------------------------------------------------------

  predicate IsDigit(c: char) { '0' <= c <= '9' }

  predicate AllDigits(s: string) { forall i :: 0 <= i < |s| ==> IsDigit(s[i]) }

  /** The text matches ^[-+]?\d+$ (ASCII digits, at least one). */
  predicate IsIntegerText(s: string)
    ensures IsIntegerText(s) ==> |s| > 0 && (IsDigit(s[0]) || s[0] == '-' || s[0] == '+')
    ensures IsIntegerText(s) ==> forall i :: 0 < i < |s| ==> IsDigit(s[i])
    ensures |s| > 0 && AllDigits(s) ==> IsIntegerText(s)
  {
    if |s| > 0 && (s[0] == '-' || s[0] == '+') then |s| > 1 && AllDigits(s[1..])
    else |s| > 0 && AllDigits(s)
  }

  function DigitsValue(s: string): nat
    requires AllDigits(s)
  {
    if s == [] then 0 else DigitsValue(s[..|s| - 1]) * 10 + (s[|s| - 1] as int - '0' as int)
  }

  /** Number.parseInt(s, 10) on text that matches the integer pattern. */
  function ParseInt(s: string): (n: int)
    requires IsIntegerText(s)
    ensures s[0] != '-' ==> n >= 0
    ensures s[0] == '-' ==> n <= 0
    ensures s[0] == '-' || s[0] == '+' ==> (if n < 0 then -n else n) == DigitsValue(s[1..])
  {
    if s[0] == '-' then -(DigitsValue(s[1..]) as int)
    else if s[0] == '+' then DigitsValue(s[1..])
    else DigitsValue(s)
  }

  /** The decimal numeral of n, without sign or leading zeros. */
  function NatText(n: nat): (s: string)
    ensures |s| > 0 && AllDigits(s)
  {
    if n < 10 then [('0' as int + n) as char]
    else NatText(n / 10) + [('0' as int + n % 10) as char]
  }

  /** The decimal numeral of n, with '-' when negative. */
  function IntText(n: int): string {
    if n < 0 then "-" + NatText(-n) else NatText(n)
  }

  lemma {:induction false} DigitsOfNatText(n: nat)
    ensures DigitsValue(NatText(n)) == n
  {
    if n >= 10 {
      DigitsOfNatText(n / 10);
      var s := NatText(n);
      assert s[..|s| - 1] == NatText(n / 10);
    }
  }

  /** parseInt undoes the decimal numeral. */
  lemma ParseIntText(n: int)
    ensures IsIntegerText(IntText(n)) && ParseInt(IntText(n)) == n
  {
    if n < 0 {
      DigitsOfNatText(-n);
      assert IntText(n)[1..] == NatText(-n);
    } else {
      DigitsOfNatText(n);
    }
  }

  // ---------------------------------------------------------------------------
  // canonicalizeVersion
  // ---------------------------------------------------------------------------

  /** What a token names once resolved against the array's length. */
  datatype Canonical = Slot(index: int) | Label(key: string) | NoVersion

  /** A string that is kept as a label key: not special and not numeric. */
  predicate IsLabelText(s: string) {
    s != "latest" && s != "earliest" && s != "*" && !IsIntegerText(s)
  }

  /**
   * A numeric token: 0 is the state before the first version, a positive n
   * is version n held in slot n - 1, a negative n counts back from the end.
   */
  function CanonicalNumber(n: int, length: nat): (c: Canonical)
    ensures !c.Label?
    ensures c.NoVersion? <==> n == 0 || length + n < 0
    ensures c.Slot? ==> 0 <= c.index && (n > 0 ==> c.index + 1 == n) && (n < 0 ==> c.index == length + n)
  {
    if n == 0 then NoVersion
    else if n < 0 then (if length + n < 0 then NoVersion else Slot(length + n))
    else Slot(n - 1)
  }

  function Canonicalize(v: Version, length: nat): (r: Result<Canonical, Error>)
    ensures r.Failure? <==> v == Str("*")
    ensures r.Failure? ==> r.error == IllegalVersion
    ensures r.Success? && r.value.Label? <==> v.Str? && IsLabelText(v.s)
    ensures r.Success? && r.value.Label? ==> v == Str(r.value.key)
    ensures r.Success? && r.value.Slot? ==> -1 <= r.value.index
    ensures r == Success(Slot(-1)) <==> length == 0 && v == Str("latest")
  {
    match v
    case Unset => Success(CanonicalNumber(-1, length))
    case Num(n) => Success(CanonicalNumber(n, length))
    case Str(s) =>
      if s == "latest" then Success(Slot(length - 1))
      else if s == "earliest" then Success(Slot(0))
      else if s == "*" then Failure(IllegalVersion)
      else if IsIntegerText(s) then Success(CanonicalNumber(ParseInt(s), length))
      else Success(Label(s))
  }

  /** For 1 <= k <= length, versions k and k - length - 1 are one slot. */
  lemma NumberedFromBothEnds(k: int, length: nat)
    requires 1 <= k <= length
    ensures Canonicalize(Num(k), length) == Canonicalize(Num(k - length - 1), length) == Success(Slot(k - 1))
  {
  }

  /**
   * No token means -1; 'earliest' is version 1; 'latest' is -1 except on an
   * empty array, where it gives slot -1 while -1 gives no version.
   */
  lemma SpecialTokens(length: nat)
    ensures Canonicalize(Unset, length) == Canonicalize(Num(-1), length)
    ensures Canonicalize(Str("earliest"), length) == Canonicalize(Num(1), length) == Success(Slot(0))
    ensures length > 0 ==> Canonicalize(Str("latest"), length) == Canonicalize(Num(-1), length)
    ensures length == 0 ==> Canonicalize(Str("latest"), length) == Success(Slot(-1))
    ensures length == 0 ==> Canonicalize(Num(-1), length) == Success(NoVersion)
    ensures Canonicalize(Num(0), length) == Canonicalize(Str("0"), length) == Success(NoVersion)
  {
    assert IsIntegerText("0") && ParseInt("0") == 0;
  }

  /** A numeral passed as a string resolves exactly like the number. */
  lemma NumeralAsNumber(n: int, length: nat)
    ensures Canonicalize(Str(IntText(n)), length) == Canonicalize(Num(n), length)
  {
    ParseIntText(n);
    var s := IntText(n);
    assert s != "latest" && s != "earliest" && s != "*" by {
      assert IsDigit(s[|s| - 1]);
    }
  }

  // ---------------------------------------------------------------------------
  // getVersion, setVersion
  // ---------------------------------------------------------------------------

  /** Everything a Files array currently holds, in slots, at "-1" or under a label. */
  ghost predicate Holds(files: Files, x: Item) {
    (exists i :: 0 <= i < |files.slots| && files.slots[i] == Some(x))
    || files.minusOne == Some(x)
    || (files.tags.Some? && x in files.tags.value.Values)
  }

  /** The cell a slot index reads: "-1", an array element, or nothing. */
  function SlotAt(files: Files, i: int): Option<Item> {
    if i == -1 then files.minusOne
    else if 0 <= i < |files.slots| then files.slots[i]
    else None
  }

  function TagAt(files: Files, key: string): Option<Item> {
    if files.tags.Some? && key in files.tags.value then Some(files.tags.value[key]) else None
  }

  /** getVersion: the stored entry, or null for no version, a hole or a missing label. */
  function GetVersion(files: Files, v: Version): (r: Result<Option<Item>, Error>)
    ensures r.Failure? <==> v == Str("*")
    ensures r.Success? && r.value.Some? ==> Holds(files, r.value.value)
    ensures v.Num? && v.n >= 1 ==> r == Success(if v.n <= |files.slots| then files.slots[v.n - 1] else None)
    ensures v.Num? && v.n < 0 && |files.slots| + v.n >= 0 ==> r == Success(files.slots[|files.slots| + v.n])
    ensures v.Num? && (v.n == 0 || |files.slots| + v.n < 0) ==> r == Success(None)
    ensures v.Str? && IsLabelText(v.s) ==> r == Success(TagAt(files, v.s))
  {
    match Canonicalize(v, |files.slots|)
    case Failure(e) => Failure(e)
    case Success(c) =>
      match c
      case NoVersion => Success(None)
      case Label(key) => Success(TagAt(files, key))
      case Slot(i) => Success(SlotAt(files, i))
  }

  function Holes(n: nat): (s: seq<Option<Item>>)
    ensures |s| == n && forall i :: 0 <= i < n ==> s[i] == None
  {
    if n == 0 then [] else Holes(n - 1) + [None]
  }

  /** An assignment files[i] = x: "-1" for i == -1, growing the array past its end. */
  function WriteSlot(files: Files, i: int, x: Item): (r: Files)
    requires i >= -1
    ensures r.tags == files.tags && r.meta == files.meta
    ensures i == -1 ==> r.slots == files.slots && r.minusOne == Some(x)
    ensures i >= 0 ==> r.minusOne == files.minusOne
    ensures i >= 0 ==> |r.slots| == if i < |files.slots| then |files.slots| else i + 1
    ensures i >= 0 ==> r.slots[i] == Some(x)
    ensures forall j :: 0 <= j < |r.slots| && j != i ==> r.slots[j] == (if j < |files.slots| then files.slots[j] else None)
  {
    if i == -1 then files.(minusOne := Some(x))
    else if i < |files.slots| then files.(slots := files.slots[i := Some(x)])
    else files.(slots := files.slots + Holes(i - |files.slots|) + [Some(x)])
  }

  /**
   * setVersion: a label writes the label map (creating it), an index writes
   * that one cell; no version is an error.
   */
  function SetVersion(files: Files, v: Version, x: Item): (r: Result<Files, Error>)
    ensures r.Failure? <==> v == Str("*") || Canonicalize(v, |files.slots|) == Success(NoVersion)
    ensures r.Failure? && v != Str("*") ==> r.error == CannotSetVersion(v)
    ensures r.Success? ==> r.value.meta == files.meta
    ensures r.Success? && v.Str? && IsLabelText(v.s) ==>
      r.value.slots == files.slots && r.value.minusOne == files.minusOne &&
      r.value.tags == Some((if files.tags.Some? then files.tags.value else map[])[v.s := x])
    ensures r.Success? && !(v.Str? && IsLabelText(v.s)) ==> r.value.tags == files.tags && |r.value.slots| >= |files.slots|
  {
    match Canonicalize(v, |files.slots|)
    case Failure(e) => Failure(e)
    case Success(c) =>
      match c
      case NoVersion => Failure(CannotSetVersion(v))
      case Label(key) => Success(files.(tags := Some((if files.tags.Some? then files.tags.value else map[])[key := x])))
      case Slot(i) => Success(WriteSlot(files, i, x))
  }

  /** Whatever was written is what the same token reads back. */
  lemma SetThenGet(files: Files, v: Version, x: Item)
    requires SetVersion(files, v, x).Success?
    ensures GetVersion(SetVersion(files, v, x).value, v) == Success(Some(x))
  {
    var r := SetVersion(files, v, x).value;
    match Canonicalize(v, |files.slots|)
    case Success(Slot(i)) =>
      assert Canonicalize(v, |r.slots|) == Success(Slot(i)) by {
        if v.Str? && IsIntegerText(v.s) { assert ParseInt(v.s) != 0; }
      }
    case Success(Label(key)) =>
    case Success(NoVersion) =>
  }

  /** A write that does not name label `key` keeps what that label reads. */
  lemma SetKeepsOtherLabel(files: Files, v: Version, x: Item, key: string)
    requires IsLabelText(key) && v != Str(key)
    requires SetVersion(files, v, x).Success?
    ensures GetVersion(SetVersion(files, v, x).value, Str(key)) == GetVersion(files, Str(key))
  {
  }

  /**
   * An index write touches only the slot it names: every other numbered
   * version reads as before, and so does "-1" unless the write named it.
   */
  lemma SetKeepsOtherVersions(files: Files, v: Version, x: Item, k: int)
    requires SetVersion(files, v, x).Success?
    requires 1 <= k <= |files.slots| && Canonicalize(v, |files.slots|) != Success(Slot(k - 1))
    ensures GetVersion(SetVersion(files, v, x).value, Num(k)) == GetVersion(files, Num(k))
    ensures Canonicalize(v, |files.slots|) != Success(Slot(-1)) ==>
      SetVersion(files, v, x).value.minusOne == files.minusOne
  {
  }

  /** A write through a label touches no slot, so every numbered version reads the same. */
  lemma LabelWriteKeepsVersions(files: Files, key: string, x: Item, w: Version)
    requires IsLabelText(key)
    requires !(w.Str? && IsLabelText(w.s))
    ensures SetVersion(files, Str(key), x).Success?
    ensures GetVersion(SetVersion(files, Str(key), x).value, w) == GetVersion(files, w)
  {
  }

  /**
   * With no token on a non-empty array, the last slot is overwritten and the
   * length stays; on an array with no slots the write fails.
   */
  lemma UnversionedWrite(files: Files, x: Item)
    ensures |files.slots| == 0 ==> SetVersion(files, Unset, x) == Failure(CannotSetVersion(Unset))
    ensures |files.slots| > 0 ==>
      SetVersion(files, Unset, x) == Success(files.(slots := files.slots[|files.slots| - 1 := Some(x)]))
  {
  }

  // ---------------------------------------------------------------------------
  // deleteVersion, as the code has it
  // ---------------------------------------------------------------------------

  /** `delete files[n]` for a raw number n: an element, the "-1" property, or nothing. */
  function DeleteRaw(files: Files, n: int): (r: Files)
    ensures |r.slots| == |files.slots| && r.tags == files.tags && r.meta == files.meta
    ensures forall j :: 0 <= j < |files.slots| && j != n ==> r.slots[j] == files.slots[j]
    ensures 0 <= n < |files.slots| ==> r.slots[n] == None
    ensures r.minusOne == if n == -1 then None else files.minusOne
  {
    if n == -1 then files.(minusOne := None)
    else if 0 <= n < |files.slots| then files.(slots := files.slots[n := None])
    else files
  }

  /**
   * deleteVersion. '*' empties the array and the labels and then reassigns
   * the sequence metadata: that fails when there is none (reading its name)
   * and when `meta()` attached it read-only. Otherwise a token resolving to
   * no version does nothing, any string token removes only that label, and
   * a number deletes the cell at the raw number.
   */
  function DeleteVersion(files: Files, v: Version): (r: (Files, Option<Error>))
    ensures v == Str("*") ==> r.0 == files.(slots := [], tags := Some(map[]))
    ensures v == Str("*") ==> (r.1.Some? <==> files.meta.None? || files.metaReadOnly)
    ensures r.1.Some? ==> v == Str("*")
    ensures r.1.Some? ==> r.1.value == if files.meta.None? then MissingMetadata else MetadataNotWritable
    ensures v != Str("*") ==> r.0.meta == files.meta && |r.0.slots| == |files.slots|
    ensures v.Str? && v != Str("*") ==> r.0.slots == files.slots && r.0.minusOne == files.minusOne
    ensures v.Str? && v != Str("*") && Canonicalize(v, |files.slots|) != Success(NoVersion) ==>
      r.0.tags == if files.tags.Some? then Some(files.tags.value - {v.s}) else None
    ensures v.Num? && Canonicalize(v, |files.slots|) != Success(NoVersion) ==> r == (DeleteRaw(files, v.n), None)
    ensures v != Str("*") && Canonicalize(v, |files.slots|) == Success(NoVersion) ==> r == (files, None)
  {
    if v == Str("*") then
      (files.(slots := [], tags := Some(map[])),
       if files.meta.None? then Some(MissingMetadata)
       else if files.metaReadOnly then Some(MetadataNotWritable)
       else None)
    else if Canonicalize(v, |files.slots|) == Success(NoVersion) then
      (files, None)
    else
      match v
      case Str(s) => (files.(tags := if files.tags.Some? then Some(files.tags.value - {s}) else None), None)
      case Num(n) => (DeleteRaw(files, n), None)
      case Unset => (files, None)
  }

  /** Deleting version 1 of [a, b] leaves version 1 and removes version 2. */
  lemma DeleteUsesRawNumber(a: Item, b: Item)
    ensures var r := DeleteVersion(Files([Some(a), Some(b)], None, None, None, false), Num(1)).0;
      GetVersion(r, Num(1)) == Success(Some(a)) && GetVersion(r, Num(2)) == Success(None)
  {
  }

  /** Deleting 'latest' removes a label called "latest", never a slot. */
  lemma DeleteLatestIsLabelDelete(files: Files)
    requires |files.slots| > 0 && files.slots[|files.slots| - 1].Some?
    ensures GetVersion(DeleteVersion(files, Str("latest")).0, Str("latest")) == GetVersion(files, Str("latest"))
    ensures GetVersion(files, Str("latest")).value.Some?
  {
  }

  /**
   * The array `file(name, data)` builds: one version, and its name as sequence
   * metadata attached by `meta()`. Deleting '*' from it empties it and fails.
   */
  lemma DeleteAllOnAnnotated(x: Item, name: string)
    ensures var annotated := Files([Some(x)], None, None, Some(map["name" := name]), true);
      DeleteVersion(annotated, Str("*")) == (annotated.(slots := [], tags := Some(map[])), Some(MetadataNotWritable))
  {
  }

  // ---------------------------------------------------------------------------
  // deleteVersion, deleting the version the token names
  // ---------------------------------------------------------------------------

  /** '*' as intended: every version, label and the "-1" cell go, the metadata stays, nothing fails. */
  function DeleteAll(files: Files): (r: Files)
    ensures r.slots == [] && r.tags == Some(map[]) && r.minusOne.None?
    ensures r.meta == files.meta && r.metaReadOnly == files.metaReadOnly
  {
    files.(slots := [], minusOne := None, tags := Some(map[]))
  }

  /** After the intended '*', no other token reads a version. */
  lemma DeleteAllEmpties(files: Files, w: Version)
    requires w != Str("*")
    ensures GetVersion(DeleteAll(files), w) == Success(None)
  {
  }

  /** Clearing the cell or label that the canonical token names. */
  function DeleteCanonical(files: Files, v: Version): (r: Result<Files, Error>)
    ensures r.Failure? <==> v == Str("*")
    ensures r.Success? ==> r.value.meta == files.meta && |r.value.slots| == |files.slots|
  {
    match Canonicalize(v, |files.slots|)
    case Failure(e) => Failure(e)
    case Success(c) =>
      match c
      case NoVersion => Success(files)
      case Label(key) => Success(files.(tags := if files.tags.Some? then Some(files.tags.value - {key}) else None))
      case Slot(i) => Success(DeleteRaw(files, i))
  }

  /** After the corrected delete, the token reads no version and every other slot is kept. */
  lemma DeleteCanonicalRemoves(files: Files, v: Version)
    requires v != Str("*")
    ensures DeleteCanonical(files, v).Success?
    ensures GetVersion(DeleteCanonical(files, v).value, v) == Success(None)
    ensures forall k :: 1 <= k <= |files.slots| && Canonicalize(v, |files.slots|) != Success(Slot(k - 1)) ==>
      GetVersion(DeleteCanonical(files, v).value, Num(k)) == GetVersion(files, Num(k))
  {
    var r := DeleteCanonical(files, v).value;
    assert Canonicalize(v, |r.slots|) == Canonicalize(v, |files.slots|);
  }

  // ---------------------------------------------------------------------------
  // versions
  // ---------------------------------------------------------------------------

  /** setVersion applied to each token in order; the first failure ends it. */
  function SetAll(files: Files, vs: seq<Version>, x: Item): (r: Result<Files, Error>)
    ensures r.Success? ==> r.value.meta == files.meta && r.value.metaReadOnly == files.metaReadOnly
    ensures r.Success? ==> |r.value.slots| >= |files.slots|
    ensures r.Failure? ==> vs != [] && (r.error == IllegalVersion || r.error.CannotSetVersion?)
    decreases |vs|
  {
    if vs == [] then Success(files)
    else match SetVersion(files, vs[0], x)
      case Failure(e) => Failure(e)
      case Success(next) => SetAll(next, vs[1..], x)
  }

  /** A token whose cell does not depend on the array's length. */
  predicate Fixed(v: Version) {
    (v.Num? && v.n > 0)
    || (v.Str? && (v.s == "earliest" || IsLabelText(v.s) || (IsIntegerText(v.s) && ParseInt(v.s) > 0)))
  }

  /** Only x is held. */
  ghost predicate OnlyHolds(files: Files, x: Item) {
    forall y :: Holds(files, y) ==> y == x
  }

  lemma SetKeepsOnly(files: Files, v: Version, x: Item)
    requires OnlyHolds(files, x) && SetVersion(files, v, x).Success?
    ensures OnlyHolds(SetVersion(files, v, x).value, x)
  {
    var r := SetVersion(files, v, x).value;
    var c := Canonicalize(v, |files.slots|).value;
    forall y | Holds(r, y) ensures y == x {
      if c.Label? {
        assert r.slots == files.slots && r.minusOne == files.minusOne;
        if r.tags.Some? && y in r.tags.value.Values {
          var key :| key in r.tags.value && r.tags.value[key] == y;
          if key != c.key {
            assert files.tags.Some? && key in files.tags.value && files.tags.value[key] == y;
            assert Holds(files, y);
          }
        } else {
          assert Holds(files, y);
        }
      } else {
        assert c.Slot?;
        assert r.tags == files.tags;
        if i :| 0 <= i < |r.slots| && r.slots[i] == Some(y) {
          if i != c.index {
            assert i < |files.slots| && files.slots[i] == Some(y);
            assert Holds(files, y);
          }
        } else if r.minusOne == Some(y) {
          if c.index != -1 { assert files.minusOne == Some(y); assert Holds(files, y); }
        } else {
          assert Holds(files, y);
        }
      }
    }
  }

  lemma SetKeepsFixed(files: Files, v: Version, x: Item, w: Version)
    requires Fixed(w) && GetVersion(files, w) == Success(Some(x))
    requires SetVersion(files, v, x).Success?
    ensures GetVersion(SetVersion(files, v, x).value, w) == Success(Some(x))
  {
    var r := SetVersion(files, v, x).value;
    if w.Str? && IsIntegerText(w.s) { assert ParseInt(w.s) != 0; }
    if w.Num? || (w.Str? && !IsLabelText(w.s)) {
      var i := Canonicalize(w, |files.slots|).value.index;
      assert Canonicalize(w, |r.slots|) == Success(Slot(i));
      assert 0 <= i < |files.slots|;
    }
  }

  /** Every fixed token of the list, and every token after the last failure-free write, reads x. */
  lemma {:induction false} SetAllStores(files: Files, vs: seq<Version>, x: Item)
    requires OnlyHolds(files, x)
    requires SetAll(files, vs, x).Success?
    ensures OnlyHolds(SetAll(files, vs, x).value, x)
    ensures forall w :: Fixed(w) && GetVersion(files, w) == Success(Some(x)) ==>
      GetVersion(SetAll(files, vs, x).value, w) == Success(Some(x))
    ensures forall w :: w in vs && Fixed(w) ==> GetVersion(SetAll(files, vs, x).value, w) == Success(Some(x))
    decreases |vs|
  {
    if vs != [] {
      var next := SetVersion(files, vs[0], x).value;
      SetKeepsOnly(files, vs[0], x);
      SetThenGet(files, vs[0], x);
      forall w | Fixed(w) && GetVersion(files, w) == Success(Some(x))
        ensures GetVersion(next, w) == Success(Some(x))
      {
        SetKeepsFixed(files, vs[0], x, w);
      }
      SetAllStores(next, vs[1..], x);
      forall w | w in vs && Fixed(w) ensures GetVersion(SetAll(files, vs, x).value, w) == Success(Some(x)) {
        if w != vs[0] { assert w in vs[1..]; }
      }
    }
  }

  /** `versions(file, ...list)`: file at each listed version, or at version 1 for an empty list. */
  method Versions(x: Item, versionList: seq<Version>) returns (r: Result<Files, Error>)
    ensures r == SetAll(NoFiles, if versionList == [] then [Num(1)] else versionList, x)
    ensures versionList == [] ==> r == Success(Files([Some(x)], None, None, None, false))
    ensures r.Success? ==> r.value.meta.None? && OnlyHolds(r.value, x)
    ensures r.Success? ==> forall w :: w in versionList && Fixed(w) ==> GetVersion(r.value, w) == Success(Some(x))
  {
    var vs := if versionList == [] then [Num(1)] else versionList;
    var files := NoFiles;
    var i := 0;
    while i < |vs|
      invariant 0 <= i <= |vs|
      invariant SetAll(NoFiles, vs, x) == SetAll(files, vs[i..], x)
      invariant files.meta.None?
    {
      match SetVersion(files, vs[i], x)
      case Failure(e) =>
        return Failure(e);
      case Success(next) =>
        assert vs[i..][1..] == vs[i + 1..];
        files := next;
        i := i + 1;
    }
    r := Success(files);
    assert vs[i..] == [];
    if versionList == [] {
      assert Holes(0) == [];
      assert Canonicalize(Num(1), 0) == Success(Slot(0));
      assert [] + Holes(0) + [Some(x)] == [Some(x)];
      assert WriteSlot(NoFiles, 0, x) == Files([Some(x)], None, None, None, false);
      assert SetVersion(NoFiles, Num(1), x) == Success(Files([Some(x)], None, None, None, false));
    }
    SetAllStores(NoFiles, vs, x);
  }

  /** file('noMetadata', data, 2, 'myLabel'): version 2 in array index 1 and the label. */
  lemma VersionTwoAndLabel(x: Item)
    ensures SetAll(NoFiles, [Num(2), Str("myLabel")], x)
      == Success(Files([None, Some(x)], None, Some(map["myLabel" := x]), None, false))
  {
    assert IsLabelText("myLabel") by { assert !IsDigit('m'); }
    assert Holes(1) == [None];
    var one := Files([None, Some(x)], None, None, None, false);
    assert Canonicalize(Num(2), 0) == Success(Slot(1));
    assert [] + Holes(1) + [Some(x)] == [None, Some(x)];
    assert WriteSlot(NoFiles, 1, x) == one;
    assert SetVersion(NoFiles, Num(2), x) == Success(one);
    assert SetVersion(one, Str("myLabel"), x) == Success(Files([None, Some(x)], None, Some(map["myLabel" := x]), None, false));
    assert [Num(2), Str("myLabel")][1..] == [Str("myLabel")];
  }

  // ---------------------------------------------------------------------------
  // isFiles, isTree, asFiles, asTree
  // ---------------------------------------------------------------------------

  /** Array.isArray. Every array is also an object. */
  predicate IsFiles(e: Option<Entry>)
    ensures IsFiles(e) ==> IsTree(e)
  {
    e.Some? && e.value.Versions?
  }

  /** instanceof Object: directories and arrays alike. */
  predicate IsTree(e: Option<Entry>)
    ensures IsTree(e) <==> e.Some? && (e.value.Dir? || e.value.Versions?)
  {
    e.Some? && !e.value.Scalar?
  }

  function AsFiles(e: Option<Entry>): (r: Result<Option<Files>, Error>)
    ensures r.Success? && r.value.Some? <==> IsFiles(e)
    ensures r == Success(None) <==> e.None?
    ensures r.Success? && r.value.Some? ==> e == Some(Entry.Versions(r.value.value))
    ensures r.Failure? ==> r.error == UnexpectedFileLevel
  {
    if IsFiles(e) then Success(Some(e.value.files))
    else if e.None? then Success(None)
    else Failure(UnexpectedFileLevel)
  }

  function AsTree(e: Option<Entry>): (r: Result<Option<Entry>, Error>)
    ensures r.Success? && r.value.Some? <==> IsTree(e)
    ensures r == Success(None) <==> e.None?
    ensures r.Success? && r.value.Some? ==> e == r.value
    ensures r.Failure? <==> e == Some(Scalar)
    ensures r.Failure? ==> r.error == UnexpectedDirectoryLevel
  {
    if IsTree(e) then Success(e)
    else if e.None? then Success(None)
    else Failure(UnexpectedDirectoryLevel)
  }

  /** A Files array passes both checks; a directory passes only asTree. */
  lemma ShapeChecks(e: Entry)
    ensures e.Versions? ==> AsFiles(Some(e)).Success? && AsTree(Some(e)).Success?
    ensures e.Dir? ==> AsFiles(Some(e)).Failure? && AsTree(Some(e)) == Success(Some(e))
    ensures e.Scalar? ==> AsFiles(Some(e)).Failure? && AsTree(Some(e)).Failure?
  {
  }

  // ---------------------------------------------------------------------------
  // encodeString16
  // ---------------------------------------------------------------------------

  /** A UTF-16 code unit, the element of a JavaScript string and of a Uint16Array. */
  type CodeUnit = x: int | 0 <= x < 0x1_0000

  predicate IsHigh(u: CodeUnit) { 0xD800 <= u <= 0xDBFF }
  predicate IsLow(u: CodeUnit) { 0xDC00 <= u <= 0xDFFF }

  /** String.prototype.codePointAt: a surrogate pair starting at i gives the whole code point. */
  function CodePointAt(s: seq<CodeUnit>, i: nat): (c: int)
    requires i < |s|
    ensures 0 <= c < 0x11_0000
  {
    if IsHigh(s[i]) && i + 1 < |s| && IsLow(s[i + 1])
    then 0x1_0000 + (s[i] as int - 0xD800) * 0x400 + (s[i + 1] as int - 0xDC00)
    else s[i] as int
  }

  /** The units the loop stores: each code point cut to 16 bits by the Uint16Array. */
  function Encoded16(s: seq<CodeUnit>): (r: seq<CodeUnit>)
    ensures |r| == |s|
    ensures forall i :: 0 <= i < |s| && !(IsHigh(s[i]) && i + 1 < |s| && IsLow(s[i + 1])) ==> r[i] == s[i]
  {
    seq(|s|, i requires 0 <= i < |s| => CodePointAt(s, i) % 0x1_0000)
  }

  /** encodeString16 as written: buf[i] = s.codePointAt(i). */
  method EncodeString16(s: seq<CodeUnit>) returns (buf: array<CodeUnit>)
    ensures fresh(buf) && buf[..] == Encoded16(s)
  {
    buf := new CodeUnit[|s|];
    for i := 0 to |s|
      invariant forall j :: 0 <= j < i ==> buf[j] == CodePointAt(s, j) % 0x1_0000
    {
      buf[i] := CodePointAt(s, i) % 0x1_0000;
    }
  }

  /** Without a surrogate pair the encoding is the string's own units. */
  lemma {:induction false} EncodedWithoutPairs(s: seq<CodeUnit>)
    requires forall i :: 0 <= i < |s| - 1 ==> !(IsHigh(s[i]) && IsLow(s[i + 1]))
    ensures Encoded16(s) == s
  {
    var r := Encoded16(s);
    forall i | 0 <= i < |s| ensures r[i] == s[i] {
      assert CodePointAt(s, i) == s[i];
    }
  }

  /** U+1F600 (D83D DE00) is stored as F600 DE00, which decodes to other text. */
  lemma AstralCharacterCorrupted()
    ensures Encoded16([0xD83D, 0xDE00]) == [0xF600, 0xDE00]
  {
    var r := Encoded16([0xD83D, 0xDE00]);
    assert r[0] == 0xF600;
    assert r[1] == 0xDE00;
  }

  /** encodeString16 storing s.charCodeAt(i): the buffer is the string's UTF-16. */
  method EncodeString16Units(s: seq<CodeUnit>) returns (buf: array<CodeUnit>)
    ensures fresh(buf) && buf[..] == s
  {
    buf := new CodeUnit[|s|];
    for i := 0 to |s|
      invariant buf[..i] == s[..i]
    {
      buf[i] := s[i];
    }
  }
}
