// Flatten, unflatten and reintegrate: for a tree of dicts, putting the
// remainder back around the unflattened sweep units gives the tree again,
// with the "sweep" tags gone.
module RoundTrip {
  import opened Trees
  import opened PathCodec
  import opened Flattener
  import opened Unflatten
  import opened Reintegrate

  /** Whether `p` is a strict prefix of the path of some unit of `t`, not passing through another unit. */
  predicate Leads(t: Tree, p: seq<string>)
    decreases |p|
  {
    && t.Dict?
    && if p == [] then |UnitPaths(t)| > 0
       else match Lookup(t.entries, p[0])
            case None => false
            case Some(c) => !IsUnit(c) && Leads(c, p[1..])
  }

  lemma {:induction false} LeadsNode(t: Tree, p: seq<string>)
    requires Leads(t, p)
    ensures ShapeAt(t, p) == Node
    decreases |p|
  {
    if p != [] {
      ShapeCons(t.entries, p[0], p[1..]);
      assert p == [p[0]] + p[1..];
      LeadsNode(Lookup(t.entries, p[0]).value, p[1..]);
    }
  }

  // ---------------------------------------------------------------------
  // The stripped tree and the remainder, position by position

  /** The stripped tree holds the unit payloads below unit paths, and the tree itself elsewhere. */
  lemma {:induction false} StripShape(t: Tree, p: seq<string>)
    requires t.Dict?
    ensures ShapeAt(Strip(t), p) == if Through(t, p) then ThroughShape(t, p) else ShapeAt(t, p)
    decreases t
  {
    if p != [] {
      var k := p[0];
      var q := p[1..];
      assert p == [k] + q;
      var s := Strip(t).entries;
      assert SameKeys(t.entries, s);
      ShapeCons(s, k, q);
      ShapeCons(t.entries, k, q);
      if HasKey(t.entries, k) {
        var j := LookupParallel(t.entries, s, k);
        var c := t.entries[j].1;
        assert s[j].1 == StripChild(t, j);
        if !IsUnit(c) && c.Dict? {
          StripShape(c, q);
        }
      } else {
        LookupParallelNone(t.entries, s, k);
      }
    }
  }

  /** A key of the remainder holds what is left of the same key of the tree. */
  lemma {:induction false} RemToLookup(t: Tree, i: nat, k: string)
    requires t.Dict? && UniqueKeys(t.entries) && i <= |t.entries|
    ensures Lookup(RemTo(t, i), k) == match Lookup(t.entries[..i], k) case None => None case Some(c) => RemChild(c)
    ensures UniqueKeys(RemTo(t, i))
    decreases i
  {
    RemToUnique(t, i);
    if i > 0 {
      var m := i - 1;
      var key := t.entries[m].0;
      var c := t.entries[m].1;
      RemToLookup(t, m, k);
      RemToKeys(t, m);
      KeyNotBefore(t.entries, m);
      assert t.entries[..i] == t.entries[..m] + [(key, c)];
      LookupAppend(t.entries[..m], key, c, k);
      match RemChild(c) {
        case None =>
          assert RemTo(t, m) + [] == RemTo(t, m);
          assert RemTo(t, i) == RemTo(t, m);
          assert !HasKey(RemTo(t, m), key);
        case Some(x) =>
          assert RemTo(t, i) == RemTo(t, m) + [(key, x)];
          LookupAppend(RemTo(t, m), key, x, k);
      }
    }
  }

  /** The remainder of a dict with distinct keys has distinct keys. */
  lemma {:induction false} RemToUnique(t: Tree, i: nat)
    requires t.Dict? && UniqueKeys(t.entries) && i <= |t.entries|
    ensures UniqueKeys(RemTo(t, i))
    decreases i
  {
    if i > 0 {
      var m := i - 1;
      var key := t.entries[m].0;
      RemToUnique(t, m);
      RemToKeys(t, m);
      KeyNotBefore(t.entries, m);
      match RemChild(t.entries[m].1) {
        case None =>
          assert RemTo(t, m) + [] == RemTo(t, m);
          assert RemTo(t, i) == RemTo(t, m);
        case Some(x) =>
          assert RemTo(t, i) == RemTo(t, m) + [(key, x)];
          assert !HasKey(RemTo(t, m), key);
          SetAbsent(RemTo(t, m), key, x);
          assert UniqueKeys(Set(RemTo(t, m), key, x));
      }
    }
  }

  lemma RemLookup(t: Tree, k: string)
    requires t.Dict? && UniqueKeys(t.entries)
    ensures Lookup(RemTree(t).entries, k) == match Lookup(t.entries, k) case None => None case Some(c) => RemChild(c)
    ensures UniqueKeys(RemTree(t).entries)
  {
    RemToLookup(t, |t.entries|, k);
    assert t.entries[..|t.entries|] == t.entries;
  }

  /** The remainder holds nothing on or below a unit path, and the tree itself elsewhere. */
  lemma {:induction false} RemShape(t: Tree, p: seq<string>)
    requires DictTree(t)
    ensures ShapeAt(RemTree(t), p) == if Through(t, p) then Absent else ShapeAt(t, p)
    decreases t
  {
    if p != [] {
      var k := p[0];
      var q := p[1..];
      assert p == [k] + q;
      RemLookup(t, k);
      ShapeCons(RemTree(t).entries, k, q);
      ShapeCons(t.entries, k, q);
      if HasKey(t.entries, k) {
        var j := KeyPosition(t.entries, k);
        var c := t.entries[j].1;
        if !IsUnit(c) && c.Dict? {
          RemShape(c, q);
        }
      }
    }
  }

  /** The remainder of a tree of dicts has distinct keys throughout. */
  lemma {:induction false} RemDistinct(t: Tree)
    requires DictTree(t)
    ensures DistinctKeys(RemTree(t))
    decreases t
  {
    var r := RemTree(t);
    forall i | 0 <= i < |r.entries| ensures DistinctKeys(r.entries[i].1) {
      var k := r.entries[i].0;
      RemLookup(t, k);
      LookupIndex(r.entries, i);
      var j := KeyPosition(t.entries, k);
      var c := t.entries[j].1;
      if !IsUnit(c) && c.Dict? {
        RemDistinct(c);
      }
    }
    RemLookup(t, "");
  }

  // ---------------------------------------------------------------------
  // The unflattened units, position by position

  /** What the units under one child leave at the position `q` below it. */
  function ChildOver(c: Tree, q: seq<string>): Shape {
    if IsUnit(c) then ShapeAt(Dict(Payload(c.entries)), q)
    else if c.Dict? then Over(UnitPaths(c), q, Absent)
    else Absent
  }

  lemma HeadsDiffer(a: seq<string>, b: seq<string>)
    requires |a| > 0 && |b| > 0 && a[0] != b[0]
    ensures !IsPrefix(a, b) && !IsPrefix(b, a)
  {
  }

  lemma {:induction false} OverTo(t: Tree, i: nat, k: string, q: seq<string>)
    requires DictTree(t) && i <= |t.entries|
    ensures Over(UnitPathsTo(t, i), [k] + q, Absent)
            == match Lookup(t.entries[..i], k) case None => Absent case Some(c) => ChildOver(c, q)
    decreases i
  {
    if i > 0 {
      var m := i - 1;
      var key := t.entries[m].0;
      var c := t.entries[m].1;
      OverTo(t, m, k, q);
      OverAppend(UnitPathsTo(t, m), Contribution(t, m), [k] + q, Absent);
      assert t.entries[..i] == t.entries[..m] + [(key, c)];
      LookupAppend(t.entries[..m], key, c, k);
      if key != k {
        OverOtherKey(t, m, k, q, Over(UnitPathsTo(t, m), [k] + q, Absent));
      } else {
        KeyNotBefore(t.entries, m);
        OverSameKey(t, m, q);
      }
    }
  }

  /** The units under another key leave a position alone. */
  lemma OverOtherKey(t: Tree, m: nat, k: string, q: seq<string>, under: Shape)
    requires DictTree(t) && m < |t.entries| && t.entries[m].0 != k
    ensures Over(Contribution(t, m), [k] + q, under) == under
  {
    var b := Contribution(t, m);
    ContributionWell(t, m);
    forall j | 0 <= j < |b| ensures !IsPrefix(b[j].0, [k] + q) && !IsPrefix([k] + q, b[j].0) {
      HeadsDiffer(b[j].0, [k] + q);
    }
    OverMissed(b, [k] + q, under);
  }

  /** The units under a key, seen from below that key. */
  lemma OverSameKey(t: Tree, m: nat, q: seq<string>)
    requires DictTree(t) && m < |t.entries|
    ensures Over(Contribution(t, m), [t.entries[m].0] + q, Absent) == ChildOver(t.entries[m].1, q)
  {
    var k := t.entries[m].0;
    var c := t.entries[m].1;
    if IsUnit(c) {
      assert IsPrefix([k], [k] + q) && ([k] + q)[1..] == q;
    } else if c.Dict? {
      OverUnder(k, UnitPaths(c), q, Absent);
    }
  }

  /**
   * Below the root, the unflattened units hold the unit payload under a unit
   * path, a dict strictly above a unit path, and nothing elsewhere.
   */
  lemma {:induction false} UnitsShape(t: Tree, p: seq<string>)
    requires DictTree(t) && p != []
    ensures Over(UnitPaths(t), p, Absent)
            == if Through(t, p) then ThroughShape(t, p) else if Leads(t, p) then Node else Absent
    decreases t
  {
    var k := p[0];
    var q := p[1..];
    assert p == [k] + q;
    OverTo(t, |t.entries|, k, q);
    assert t.entries[..|t.entries|] == t.entries;
    if HasKey(t.entries, k) {
      var j := KeyPosition(t.entries, k);
      var c := t.entries[j].1;
      if !IsUnit(c) && c.Dict? {
        if q == [] {
          UnitPathsWell(c);
          OverRoot(UnitPaths(c), Absent);
        } else {
          UnitsShape(c, q);
        }
      }
    }
  }

  /** No unit path is a prefix of another. */
  ghost predicate PrefixFree(ps: Units) {
    forall j, l :: 0 <= j < |ps| && 0 <= l < |ps| && j != l ==> !IsPrefix(ps[j].0, ps[l].0)
  }

  lemma PrefixFreeUnder(k: string, ps: Units)
    requires PrefixFree(ps)
    ensures PrefixFree(Under(k, ps))
  {
    forall j, l | 0 <= j < |ps| && 0 <= l < |ps| && j != l ensures !IsPrefix(Under(k, ps)[j].0, Under(k, ps)[l].0) {
      PrefixCons(k, ps[j].0, ps[l].0);
    }
  }

  lemma {:induction false} UnitsPrefixFree(t: Tree)
    requires DictTree(t)
    ensures PrefixFree(UnitPaths(t))
    decreases t, 1
  {
    UnitsToPrefixFree(t, |t.entries|);
  }

  lemma {:induction false} UnitsToPrefixFree(t: Tree, i: nat)
    requires DictTree(t) && i <= |t.entries|
    ensures PrefixFree(UnitPathsTo(t, i))
    decreases t, 0, i
  {
    if i > 0 {
      var m := i - 1;
      var a := UnitPathsTo(t, m);
      var b := Contribution(t, m);
      var c := t.entries[m].1;
      UnitsToPrefixFree(t, m);
      UnitPathsToWell(t, m);
      ContributionWell(t, m);
      KeyNotBefore(t.entries, m);
      if !IsUnit(c) && c.Dict? {
        UnitsPrefixFree(c);
        PrefixFreeUnder(t.entries[m].0, UnitPaths(c));
      }
      forall j, l | 0 <= j < |a| && 0 <= l < |b|
        ensures !IsPrefix(a[j].0, b[l].0) && !IsPrefix(b[l].0, a[j].0)
      {
        HeadsDiffer(a[j].0, b[l].0);
      }
      assert UnitPathsTo(t, i) == a + b;
      forall j, l | 0 <= j < |a + b| && 0 <= l < |a + b| && j != l
        ensures !IsPrefix((a + b)[j].0, (a + b)[l].0)
      {
        if j >= |a| && l >= |a| {
          assert (a + b)[j] == b[j - |a|] && (a + b)[l] == b[l - |a|];
        }
      }
    }
  }

  // ---------------------------------------------------------------------
  // The round trip

  /**
   * For a tree of dicts, flattening it, unflattening the flat entries and
   * filling in the remainder succeeds and gives the tree back, with the
   * "sweep" tag of every unit removed.
   */
  lemma RoundTrip(t: Tree)
    requires DictTree(t)
    ensures FlattenSweepConfig(t).Ok?
    ensures var (flat, rem) := FlattenSweepConfig(t).value;
            && Unflattened(flat).Ok?
            && Reintegrated(Unflattened(flat).value, rem).Ok?
            && SameTree(Reintegrated(Unflattened(flat).value, rem).value, Strip(t))
  {
    FlattenTreeSpec(t);
    var ps := UnitPaths(t);
    UnitPathsWell(t);
    UnitsPrefixFree(t);
    UnflattenedShape(ps);
    var base := Unflattened(JoinKeys(ps)).value;
    var rem := RemTree(t);
    RemDistinct(t);
    forall p ensures ShapeAt(base, p) != Absent && ShapeAt(rem, p) != Absent ==> ShapeAt(base, p) == Node && ShapeAt(rem, p) == Node {
      RoundTripAt(t, base, p);
    }
    ReintegrateShape(base, rem);
    var r := Reintegrated(base, rem).value;
    forall p ensures ShapeAt(r, p) == ShapeAt(Strip(t), p) {
      RoundTripAt(t, base, p);
    }
  }

  /** Position by position: the unflattened units, the remainder and the stripped tree agree. */
  lemma RoundTripAt(t: Tree, base: Tree, p: seq<string>)
    requires DictTree(t)
    requires forall p :: ShapeAt(base, p) == Over(UnitPaths(t), p, Root(p))
    ensures ShapeAt(base, p) != Absent && ShapeAt(RemTree(t), p) != Absent ==> ShapeAt(base, p) == Node && ShapeAt(RemTree(t), p) == Node
    ensures (if ShapeAt(base, p) != Absent then ShapeAt(base, p) else ShapeAt(RemTree(t), p)) == ShapeAt(Strip(t), p)
  {
    RemShape(t, p);
    StripShape(t, p);
    if p == [] {
      UnitPathsWell(t);
      OverRoot(UnitPaths(t), Node);
    } else {
      UnitsShape(t, p);
      if Leads(t, p) {
        LeadsNode(t, p);
      }
    }
  }
}
