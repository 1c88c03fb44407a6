// `add_where_needed`: the remainder of a flattened configuration is put back
// around the unflattened sweep values without overwriting any of them.
module Reintegrate {
  import opened Trees

  /** `add_where_needed(base, to_add)` */
  function Reintegrated(base: Tree, add: Tree): (r: Res<Tree>)
    ensures r.Fail? ==> r.error == Error(ShapeMismatch, None)
    ensures r.Ok? ==> r.value.Dict? == base.Dict? && r.value.List? == base.List?
    ensures r.Ok? && base.List? ==> |r.value.items| == |base.items|
    decreases add, 1
  {
    match base
    case List(items) => if add.List? then ReintegrateList(items, add, 0) else Raise(ShapeMismatch)
    case Dict(e) => if add.Dict? then ReintegrateDict(e, add, 0) else Raise(ShapeMismatch)
    case _ => Ok(base)
  }

  /** The loop over the items of a list to add, from position `i` on. */
  function ReintegrateList(items: seq<Tree>, add: Tree, i: nat): (r: Res<Tree>)
    requires add.List? && i <= |add.items|
    ensures r.Fail? ==> r.error == Error(ShapeMismatch, None)
    ensures r.Ok? ==> r.value.List? && |r.value.items| == |items|
    ensures r.Ok? ==> forall j :: 0 <= j < i && j < |items| ==> r.value.items[j] == items[j]
    decreases add, 0, |add.items| - i
  {
    if i == |add.items| then Ok(List(items))
    else if i >= |items| then Raise(ShapeMismatch)
    else
      match Reintegrated(items[i], add.items[i])
      case Fail(err) => Fail(err)
      case Ok(x) => ReintegrateList(items[i := x], add, i + 1)
  }

  /** The loop over the entries of a dict to add, from position `i` on. */
  function ReintegrateDict(e: Entries, add: Tree, i: nat): (r: Res<Tree>)
    requires add.Dict? && i <= |add.entries|
    ensures r.Fail? ==> r.error == Error(ShapeMismatch, None)
    ensures r.Ok? ==> r.value.Dict?
    decreases add, 0, |add.entries| - i
  {
    if i == |add.entries| then Ok(Dict(e))
    else
      var k := add.entries[i].0;
      match Lookup(e, k)
      case None => ReintegrateDict(Set(e, k, add.entries[i].1), add, i + 1)
      case Some(b) =>
        match Reintegrated(b, add.entries[i].1)
        case Fail(err) => Fail(err)
        case Ok(x) => ReintegrateDict(Set(e, k, x), add, i + 1)
  }

  /** `add_where_needed`, with its loops; the result is a new tree rather than `base` updated in place. */
  method AddWhereNeeded(base: Tree, add: Tree) returns (r: Res<Tree>)
    ensures r == Reintegrated(base, add)
    decreases add, 1
  {
    if base.List? {
      if !add.List? {
        return Raise(ShapeMismatch);
      }
      r := AddToList(base.items, add);
    } else if base.Dict? {
      if !add.Dict? {
        return Raise(ShapeMismatch);
      }
      r := AddToDict(base.entries, add);
    } else {
      r := Ok(base);
    }
  }

  /** The loop over the items of a list to add. */
  method AddToList(base: seq<Tree>, add: Tree) returns (r: Res<Tree>)
    requires add.List?
    ensures r == ReintegrateList(base, add, 0)
    decreases add, 0
  {
    var items := base;
    var i := 0;
    while i < |add.items|
      invariant 0 <= i <= |add.items|
      invariant ReintegrateList(items, add, i) == ReintegrateList(base, add, 0)
    {
      if i >= |items| {
        return Raise(ShapeMismatch);
      }
      var x := AddWhereNeeded(items[i], add.items[i]);
      if x.Fail? {
        return Fail(x.error);
      }
      items := items[i := x.value];
      i := i + 1;
    }
    return Ok(List(items));
  }

  /** The loop over the entries of a dict to add. */
  method AddToDict(base: Entries, add: Tree) returns (r: Res<Tree>)
    requires add.Dict?
    ensures r == ReintegrateDict(base, add, 0)
    decreases add, 0
  {
    var e := base;
    var i := 0;
    while i < |add.entries|
      invariant 0 <= i <= |add.entries|
      invariant ReintegrateDict(e, add, i) == ReintegrateDict(base, add, 0)
    {
      var (k, v) := add.entries[i];
      match Lookup(e, k) {
        case None =>
          e := Set(e, k, v);
        case Some(b) =>
          var x := AddWhereNeeded(b, v);
          if x.Fail? {
            return Fail(x.error);
          }
          e := Set(e, k, x.value);
      }
      i := i + 1;
    }
    return Ok(Dict(e));
  }

  // ---------------------------------------------------------------------
  // Fill without overwrite

  /** Distinct keys in every dict reached through dicts. */
  predicate DistinctKeys(t: Tree)
    decreases t
  {
    t.Dict? ==> UniqueKeys(t.entries) && forall i :: 0 <= i < |t.entries| ==> DistinctKeys(t.entries[i].1)
  }

  /** Wherever both trees hold something, both hold a dict. */
  ghost predicate Compat(base: Tree, add: Tree) {
    forall p :: ShapeAt(base, p) != Absent && ShapeAt(add, p) != Absent ==> ShapeAt(base, p) == Node && ShapeAt(add, p) == Node
  }

  /** What ends up under key `k` of a dict: the key of `base`, of `add`, or both put together. */
  function Merged(base: Entries, add: Entries, k: string): Option<Tree> {
    match Lookup(add, k)
    case None => Lookup(base, k)
    case Some(a) =>
      match Lookup(base, k)
      case None => Some(a)
      case Some(b) => match Reintegrated(b, a) case Ok(x) => Some(x) case Fail(_) => None
  }

  lemma ChildCompat(base: Tree, add: Tree, k: string)
    requires base.Dict? && add.Dict? && Compat(base, add)
    requires HasKey(base.entries, k) && HasKey(add.entries, k)
    ensures Lookup(base.entries, k).value.Dict? && Lookup(add.entries, k).value.Dict?
    ensures Compat(Lookup(base.entries, k).value, Lookup(add.entries, k).value)
  {
    var b := Lookup(base.entries, k).value;
    var a := Lookup(add.entries, k).value;
    forall q ensures ShapeAt(base, [k] + q) == ShapeAt(b, q) && ShapeAt(add, [k] + q) == ShapeAt(a, q) {
      ShapeCons(base.entries, k, q);
      ShapeCons(add.entries, k, q);
    }
    assert [k] + [] == [k];
  }

  /**
   * Filling a dict from a compatible dict succeeds and leaves, under every
   * key, what `Merged` says: keys of `base` alone stay, keys of `add` alone
   * are copied, and keys of both are filled recursively.
   */
  lemma {:induction false} ReintegrateDictLookup(base: Tree, add: Tree, cur: Entries, i: nat)
    requires base.Dict? && add.Dict? && DistinctKeys(add) && Compat(base, add) && i <= |add.entries|
    requires forall k :: Lookup(cur, k) == if HasKey(add.entries[..i], k) then Merged(base.entries, add.entries, k) else Lookup(base.entries, k)
    ensures ReintegrateDict(cur, add, i).Ok? && ReintegrateDict(cur, add, i).value.Dict?
    ensures forall k :: Lookup(ReintegrateDict(cur, add, i).value.entries, k) == Merged(base.entries, add.entries, k)
    decreases add, 0, |add.entries| - i
  {
    if i == |add.entries| {
      assert add.entries[..i] == add.entries;
    } else {
      var k := add.entries[i].0;
      var a := add.entries[i].1;
      LookupIndex(add.entries, i);
      KeyNotBefore(add.entries, i);
      assert add.entries[..i + 1] == add.entries[..i] + [add.entries[i]];
      KeysOfAppend(add.entries[..i], [add.entries[i]]);
      assert Lookup(cur, k) == Lookup(base.entries, k);
      if HasKey(base.entries, k) {
        ChildCompat(base, add, k);
        ReintegrateShape(Lookup(base.entries, k).value, a);
      }
      var val := match Lookup(cur, k) case None => a case Some(b) => Reintegrated(b, a).value;
      assert Some(val) == Merged(base.entries, add.entries, k);
      var cur' := Set(cur, k, val);
      forall k' ensures Lookup(cur', k') == if HasKey(add.entries[..i + 1], k') then Merged(base.entries, add.entries, k') else Lookup(base.entries, k') {
        if k' != k {
          assert HasKey(add.entries[..i + 1], k') == HasKey(add.entries[..i], k');
          assert Lookup(cur', k') == Lookup(cur, k');
        }
      }
      ReintegrateDictLookup(base, add, cur', i + 1);
    }
  }

  /**
   * Filling a dict from a compatible dict with distinct keys: every position
   * holds what `base` holds there, and what `add` holds where `base` has nothing.
   */
  lemma {:induction false} ReintegrateShape(base: Tree, add: Tree)
    requires base.Dict? && add.Dict? && DistinctKeys(add) && Compat(base, add)
    ensures Reintegrated(base, add).Ok?
    ensures forall p :: ShapeAt(Reintegrated(base, add).value, p)
                        == if ShapeAt(base, p) != Absent then ShapeAt(base, p) else ShapeAt(add, p)
    decreases add, 1
  {
    assert add.entries[..0] == [];
    ReintegrateDictLookup(base, add, base.entries, 0);
    forall p ensures ShapeAt(Reintegrated(base, add).value, p)
                     == if ShapeAt(base, p) != Absent then ShapeAt(base, p) else ShapeAt(add, p) {
      ReintegrateShapeAt(base, add, p);
    }
  }

  lemma ReintegrateShapeAt(base: Tree, add: Tree, p: seq<string>)
    requires base.Dict? && add.Dict? && DistinctKeys(add) && Compat(base, add)
    requires Reintegrated(base, add).Ok? && Reintegrated(base, add).value.Dict?
    requires forall k :: Lookup(Reintegrated(base, add).value.entries, k) == Merged(base.entries, add.entries, k)
    ensures ShapeAt(Reintegrated(base, add).value, p)
            == if ShapeAt(base, p) != Absent then ShapeAt(base, p) else ShapeAt(add, p)
    decreases add, 0, 0
  {
    var r := Reintegrated(base, add).value;
    if p != [] {
      var k := p[0];
      var q := p[1..];
      assert p == [k] + q;
      ShapeCons(r.entries, k, q);
      ShapeCons(base.entries, k, q);
      ShapeCons(add.entries, k, q);
      if HasKey(base.entries, k) && HasKey(add.entries, k) {
        ChildCompat(base, add, k);
        var j := KeyPosition(add.entries, k);
        ReintegrateShape(Lookup(base.entries, k).value, add.entries[j].1);
      }
    }
  }

  /**
   * Whenever filling a dict succeeds, each key holds what it held in `base`
   * when `add` lacks it, what `add` holds when `base` lacks it, and the two
   * filled together otherwise: no key of `base` is replaced outright.
   */
  lemma {:induction false} ReintegrateDictFill(base: Entries, add: Tree, cur: Entries, i: nat)
    requires add.Dict? && UniqueKeys(add.entries) && i <= |add.entries|
    requires forall k :: Lookup(cur, k) == if HasKey(add.entries[..i], k) then Merged(base, add.entries, k) else Lookup(base, k)
    requires ReintegrateDict(cur, add, i).Ok?
    ensures ReintegrateDict(cur, add, i).value.Dict?
    ensures forall k :: Lookup(ReintegrateDict(cur, add, i).value.entries, k) == Merged(base, add.entries, k)
    decreases |add.entries| - i
  {
    if i == |add.entries| {
      assert add.entries[..i] == add.entries;
    } else {
      var k := add.entries[i].0;
      LookupIndex(add.entries, i);
      KeyNotBefore(add.entries, i);
      assert Lookup(cur, k) == Lookup(base, k);
      var val := DictStepUnfold(cur, add, i);
      assert Some(val) == Merged(base, add.entries, k);
      FillStep(base, add.entries, cur, i, val, k' => Merged(base, add.entries, k'));
      ReintegrateDictFill(base, add, Set(cur, k, val), i + 1);
    }
  }

  /** Filling the key at position `i` extends the filled keys by that one. */
  lemma FillStep(base: Entries, add: Entries, cur: Entries, i: nat, val: Tree, filled: string -> Option<Tree>)
    requires i < |add|
    requires forall k :: Lookup(cur, k) == if HasKey(add[..i], k) then filled(k) else Lookup(base, k)
    requires Some(val) == filled(add[i].0)
    ensures forall k' :: Lookup(Set(cur, add[i].0, val), k') == if HasKey(add[..i + 1], k') then filled(k') else Lookup(base, k')
  {
    var k := add[i].0;
    var cur' := Set(cur, k, val);
    assert add[..i + 1] == add[..i] + [add[i]];
    KeysOfAppend(add[..i], [add[i]]);
    forall k' ensures Lookup(cur', k') == if HasKey(add[..i + 1], k') then filled(k') else Lookup(base, k') {
      if k' != k {
        assert HasKey(add[..i + 1], k') == HasKey(add[..i], k');
        assert Lookup(cur', k') == Lookup(cur, k');
      }
    }
  }

  lemma DictStepUnfold(cur: Entries, add: Tree, i: nat) returns (val: Tree)
    requires add.Dict? && i < |add.entries| && ReintegrateDict(cur, add, i).Ok?
    ensures Some(val) == match Lookup(cur, add.entries[i].0)
                         case None => Some(add.entries[i].1)
                         case Some(b) => match Reintegrated(b, add.entries[i].1) case Ok(x) => Some(x) case Fail(_) => None
    ensures ReintegrateDict(cur, add, i) == ReintegrateDict(Set(cur, add.entries[i].0, val), add, i + 1)
  {
    match Lookup(cur, add.entries[i].0) {
      case None => val := add.entries[i].1;
      case Some(b) => val := Reintegrated(b, add.entries[i].1).value;
    }
  }

  /** `add_where_needed` on two dicts, when it succeeds: every key as `Merged` says. */
  lemma ReintegrateFill(base: Tree, add: Tree)
    requires base.Dict? && add.Dict? && UniqueKeys(add.entries) && Reintegrated(base, add).Ok?
    ensures Reintegrated(base, add).value.Dict?
    ensures forall k :: Lookup(Reintegrated(base, add).value.entries, k) == Merged(base.entries, add.entries, k)
  {
    assert add.entries[..0] == [];
    ReintegrateDictFill(base.entries, add, base.entries, 0);
  }

  /**
   * Whenever filling a list succeeds, the list to add was no longer than the
   * base, each position it reaches holds the base item filled with its item,
   * and every later position keeps the base item.
   */
  lemma {:induction false} ReintegrateListFill(items: seq<Tree>, add: Tree, i: nat)
    requires add.List? && i <= |add.items| && i <= |items| && ReintegrateList(items, add, i).Ok?
    ensures |add.items| <= |items|
    ensures forall j :: i <= j < |add.items| ==> Reintegrated(items[j], add.items[j]) == Ok(ReintegrateList(items, add, i).value.items[j])
    ensures forall j :: |add.items| <= j < |items| ==> ReintegrateList(items, add, i).value.items[j] == items[j]
    decreases |add.items| - i
  {
    if i < |add.items| {
      var x := Reintegrated(items[i], add.items[i]).value;
      ReintegrateListFill(items[i := x], add, i + 1);
    }
  }

  /** `add_where_needed` on two lists, when it succeeds: each position as `ReintegrateListFill` says. */
  lemma ReintegrateListAt(base: Tree, add: Tree)
    requires base.List? && add.List? && Reintegrated(base, add).Ok?
    ensures |add.items| <= |base.items|
    ensures forall j :: 0 <= j < |add.items| ==> Reintegrated(base.items[j], add.items[j]) == Ok(Reintegrated(base, add).value.items[j])
    ensures forall j :: |add.items| <= j < |base.items| ==> Reintegrated(base, add).value.items[j] == base.items[j]
  {
    ReintegrateListFill(base.items, add, 0);
  }

  /** A list to add that is longer than the base list is refused. */
  lemma {:induction false} ReintegrateListLonger(items: seq<Tree>, add: Tree, i: nat)
    requires add.List? && i <= |items| < |add.items|
    ensures ReintegrateList(items, add, i).Fail?
    decreases |add.items| - i
  {
    if i < |items| {
      match Reintegrated(items[i], add.items[i]) {
        case Fail(_) =>
        case Ok(x) =>
          assert ReintegrateList(items, add, i) == ReintegrateList(items[i := x], add, i + 1);
          ReintegrateListLonger(items[i := x], add, i + 1);
      }
    }
  }

  /** The shape errors of `add_where_needed`, and its identity on values that are not containers. */
  lemma ReintegrateErrors(base: Tree, add: Tree)
    ensures base.List? && !add.List? ==> Reintegrated(base, add) == Raise(ShapeMismatch)
    ensures base.Dict? && !add.Dict? ==> Reintegrated(base, add) == Raise(ShapeMismatch)
    ensures base.List? && add.List? && |base.items| < |add.items| ==> Reintegrated(base, add).Fail?
    ensures !base.IsContainer() ==> Reintegrated(base, add) == Ok(base)
  {
    if base.List? && add.List? && |base.items| < |add.items| {
      ReintegrateListLonger(base.items, add, 0);
    }
  }
}
