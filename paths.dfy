// The path codec: flat keys are root-to-node paths joined with a reserved
// separator, and list positions travel as `__IDX__<n>` segments so that
// lists and dicts share one key-path representation.
module PathCodec {
  import opened Trees

  const SEPARATOR: string := "__CUSTOM_SEPERATOR__"
  const IDX_INDICATOR: string := "__IDX__"

  // ---------------------------------------------------------------------
  // Decimal integers, as `str(i)` writes them and `int(s)` reads them

  predicate IsDigit(c: char) { '0' <= c <= '9' }

  function DigitChar(d: nat): char requires d < 10 { ['0','1','2','3','4','5','6','7','8','9'][d] }

  function DigitValue(c: char): nat requires IsDigit(c) { (c as int) - ('0' as int) }

  /** `str(n)` for a non-negative integer. */
  function NatToString(n: nat): (s: string)
    ensures |s| > 0 && AllDigits(s)
  {
    if n < 10 then [DigitChar(n)] else NatToString(n / 10) + [DigitChar(n % 10)]
  }

  /** `str(i)` */
  function IntToString(i: int): string {
    if i < 0 then "-" + NatToString(-i) else NatToString(i)
  }

  function DigitsValue(s: string): nat
    requires AllDigits(s)
  {
    if s == [] then 0 else 10 * DigitsValue(s[..|s| - 1]) + DigitValue(s[|s| - 1])
  }

  predicate AllDigits(s: string) {
    forall i :: 0 <= i < |s| ==> IsDigit(s[i])
  }

  /** `int(s)` on an optionally signed run of ASCII digits; None where Python raises. */
  function ParseInt(s: string): (r: Option<int>)
    ensures r.Some? ==> |s| > 0
  {
    if |s| > 0 && (s[0] == '-' || s[0] == '+') then
      if |s| > 1 && AllDigits(s[1..]) then
        var v: int := DigitsValue(s[1..]);
        Some(if s[0] == '-' then -v else v)
      else None
    else if |s| > 0 && AllDigits(s) then Some(DigitsValue(s))
    else None
  }

  lemma {:induction false} DigitsOfNatToString(n: nat)
    ensures DigitsValue(NatToString(n)) == n
  {
    var s := NatToString(n);
    if n < 10 {
      assert s[..|s| - 1] == [];
    } else {
      assert s[..|s| - 1] == NatToString(n / 10);
      DigitsOfNatToString(n / 10);
    }
  }

  /** Reading back what `str` wrote gives the integer again. */
  lemma ParseIntToString(i: int)
    ensures ParseInt(IntToString(i)) == Some(i)
  {
    var s := IntToString(i);
    if i < 0 {
      ParseNegative(-i);
      assert s == "-" + NatToString(-i);
    } else {
      ParseNonNegative(i);
      assert s == NatToString(i);
    }
  }

  /** The digits of `n` read as `n`. */
  lemma ParseNonNegative(n: nat)
    ensures ParseInt(NatToString(n)) == Some(n as int)
  {
    var d := NatToString(n);
    assert IsDigit(d[0]);
    DigitsOfNatToString(n);
  }

  /** A minus sign before the digits of `n` reads as `-n`. */
  lemma ParseNegative(n: nat)
    ensures ParseInt("-" + NatToString(n)) == Some(-(n as int))
  {
    var d := NatToString(n);
    var s := "-" + d;
    assert s[1..] == d;
    DigitsOfNatToString(n);
  }

  /** `IDX_INDICATOR + str(i)`: the path segment of list position `i`. */
  function IndexSegment(i: nat): (seg: string)
    ensures |seg| > |IDX_INDICATOR| && seg[..|IDX_INDICATOR|] == IDX_INDICATOR
    ensures ParseInt(seg[|IDX_INDICATOR|..]) == Some(i)
  {
    var seg := IDX_INDICATOR + NatToString(i);
    assert seg[|IDX_INDICATOR|..] == IntToString(i);
    ParseIntToString(i);
    seg
  }

  // ---------------------------------------------------------------------
  // Joining and splitting on the separator

  predicate OccursAt(s: string, i: nat) {
    i + |SEPARATOR| <= |s| && s[i..i + |SEPARATOR|] == SEPARATOR
  }

  /** `s.find(SEPARATOR, i)`: the first occurrence at or after `i`. */
  function FindFrom(s: string, i: nat): (r: Option<nat>)
    requires i <= |s|
    ensures r.Some? ==> i <= r.value && OccursAt(s, r.value)
    ensures forall j :: i <= j && (r.None? || j < r.value) ==> !OccursAt(s, j)
    decreases |s| - i
  {
    if i + |SEPARATOR| > |s| then None
    else if OccursAt(s, i) then Some(i)
    else FindFrom(s, i + 1)
  }

  /** `s.split(SEPARATOR)` */
  function Split(s: string): (parts: seq<string>)
    ensures |parts| > 0
    decreases |s|
  {
    match FindFrom(s, 0)
    case None => [s]
    case Some(i) => [s[..i]] + Split(s[i + |SEPARATOR|..])
  }

  /** `SEPARATOR.join(path)` */
  function Join(path: seq<string>): string {
    if |path| == 0 then ""
    else if |path| == 1 then path[0]
    else path[0] + SEPARATOR + Join(path[1..])
  }

  /** Splitting a joined key gives every string back: `join(split(s)) == s`. */
  lemma {:induction false} JoinSplit(s: string)
    ensures Join(Split(s)) == s
    decreases |s|
  {
    match FindFrom(s, 0)
    case None =>
    case Some(i) =>
      var rest := s[i + |SEPARATOR|..];
      JoinSplit(rest);
      JoinCons(s[..i], Split(rest));
      assert s == s[..i] + SEPARATOR + rest by {
        assert s[i..i + |SEPARATOR|] == SEPARATOR;
      }
  }

  /**
   * A segment that splitting cannot cut: no separator starts inside it, even
   * one that would run on into a separator written after it. The separator
   * begins and ends with "__", so a segment ending in "__CUSTOM_SEPERATOR" is
   * not clean although it does not contain the separator.
   */
  predicate Clean(seg: string) {
    forall j :: 0 <= j < |seg| ==> !OccursAt(seg + SEPARATOR, j)
  }

  lemma {:induction false} FindFromIs(s: string, i: nat, k: nat)
    requires i <= k && OccursAt(s, k)
    requires forall j :: i <= j < k ==> !OccursAt(s, j)
    ensures FindFrom(s, i) == Some(k)
    decreases k - i
  {
    if i < k { FindFromIs(s, i + 1, k); }
  }

  lemma {:induction false} FindFromNone(s: string, i: nat)
    requires i <= |s|
    requires forall j :: i <= j ==> !OccursAt(s, j)
    ensures FindFrom(s, i) == None
    decreases |s| - i
  {
    if i + |SEPARATOR| <= |s| { FindFromNone(s, i + 1); }
  }

  lemma FindAfterClean(seg: string, rest: string)
    requires Clean(seg)
    ensures FindFrom(seg + SEPARATOR + rest, 0) == Some(|seg|)
  {
    var s := seg + SEPARATOR + rest;
    assert OccursAt(s, |seg|) by { assert s[|seg|..|seg| + |SEPARATOR|] == SEPARATOR; }
    forall j | 0 <= j < |seg| ensures !OccursAt(s, j) {
      assert !OccursAt(seg + SEPARATOR, j);
      assert s[j..j + |SEPARATOR|] == (seg + SEPARATOR)[j..j + |SEPARATOR|];
    }
    FindFromIs(s, 0, |seg|);
  }

  lemma NoSeparatorInClean(seg: string)
    requires Clean(seg)
    ensures FindFrom(seg, 0) == None
  {
    forall j | 0 <= j ensures !OccursAt(seg, j) {
      if j + |SEPARATOR| <= |seg| {
        assert seg[j..j + |SEPARATOR|] == (seg + SEPARATOR)[j..j + |SEPARATOR|];
        assert !OccursAt(seg + SEPARATOR, j);
      }
    }
    FindFromNone(seg, 0);
  }

  /** Splitting stops right after a clean first segment. */
  lemma SplitAfterClean(seg: string, rest: string)
    requires Clean(seg)
    ensures Split(seg + SEPARATOR + rest) == [seg] + Split(rest)
  {
    var s := seg + SEPARATOR + rest;
    FindAfterClean(seg, rest);
    assert s[..|seg|] == seg;
    assert s[|seg| + |SEPARATOR|..] == rest;
  }

  /** A path of clean segments survives the round trip through its flat key. */
  lemma {:induction false} SplitJoin(path: seq<string>)
    requires |path| > 0
    requires forall i :: 0 <= i < |path| ==> Clean(path[i])
    ensures Split(Join(path)) == path
  {
    if |path| == 1 {
      NoSeparatorInClean(path[0]);
    } else {
      SplitAfterClean(path[0], Join(path[1..]));
      assert forall i :: 0 <= i < |path| - 1 ==> path[1..][i] == path[i + 1];
      SplitJoin(path[1..]);
      assert path == [path[0]] + path[1..];
    }
  }

  /** The first piece of a key that starts with a clean segment and the separator. */
  lemma SplitHead(seg: string, rest: string)
    requires Clean(seg)
    ensures Split(seg + SEPARATOR + rest)[0] == seg
  {
    var s := seg + SEPARATOR + rest;
    FindAfterClean(seg, rest);
    assert s[..|seg|] == seg;
  }

  /** The first piece of a joined key is the first segment of its path. */
  lemma FirstSegment(path: seq<string>)
    requires |path| > 0 && Clean(path[0])
    ensures Split(Join(path))[0] == path[0]
  {
    if |path| == 1 {
      NoSeparatorInClean(path[0]);
    } else {
      SplitHead(path[0], Join(path[1..]));
    }
  }

  /** A list position's segment cannot be cut: it has no "__" followed by a "C", nor one running into the separator. */
  lemma IndexSegmentClean(i: nat)
    ensures Clean(IndexSegment(i))
  {
    var seg := IndexSegment(i);
    var s := seg + SEPARATOR;
    var d := NatToString(i);
    assert seg == IDX_INDICATOR + d;
    forall j | 0 <= j < |seg| ensures s[j] != '_' || s[j + 1] != '_' || s[j + 2] != 'C' {
      if j >= 7 {
        assert s[j] == d[j - 7];
      } else if j >= 5 {
        assert s[7] == d[0];
      }
    }
    forall j | 0 <= j < |seg| ensures !OccursAt(s, j) {
      if j + |SEPARATOR| <= |s| {
        var w := s[j..j + |SEPARATOR|];
        assert w[0] == s[j] && w[1] == s[j + 1] && w[2] == s[j + 2];
        assert SEPARATOR[0] == '_' && SEPARATOR[1] == '_' && SEPARATOR[2] == 'C';
      }
    }
  }

  /** Joining a path with a segment in front. */
  lemma JoinCons(seg: string, path: seq<string>)
    requires |path| > 0
    ensures Join([seg] + path) == seg + SEPARATOR + Join(path)
  {
    assert ([seg] + path)[1..] == path;
  }

  // ---------------------------------------------------------------------
  // Flat entries of values placed at paths

  /** The flat entries of a list of units: each path joined into its flat key. */
  function JoinKeys(ps: Units): Entries {
    seq(|ps|, j requires 0 <= j < |ps| => (Join(ps[j].0), ps[j].1))
  }

  /** Every path is nonempty and made of segments that splitting cannot cut. */
  ghost predicate WellPaths(ps: Units) {
    forall l :: 0 <= l < |ps| ==> |ps[l].0| > 0 && forall s :: 0 <= s < |ps[l].0| ==> Clean(ps[l].0[s])
  }

  lemma JoinKeysAppend(a: Units, b: Units)
    ensures JoinKeys(a + b) == JoinKeys(a) + JoinKeys(b)
  {
  }
}
