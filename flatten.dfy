// The tree flattener (`flatten_sweep_config` and its inner `flatten_tree`):
// every dict tagged "sweep" is one sweep unit, emitted under the flat key of
// its path with the tag stripped; everything else forms the remainder tree.
module Flattener {
  import opened Trees
  import opened PathCodec

  const SWEEP_INDICATION: string := "sweep"

  /** What `flatten_tree` returns: flat entries, whether any unit was found, the remainder. */
  datatype Flat = Flat(params: Entries, has: bool, rem: Tree)

  predicate IsUnit(v: Tree) {
    v.Dict? && HasKey(v.entries, SWEEP_INDICATION)
  }

  /** `SWEEP_INDICATION in val`: a key of a dict, or an element of a list. */
  predicate Tagged(v: Tree) {
    IsUnit(v) || (v.List? && Str(SWEEP_INDICATION) in v.items)
  }

  /** `postprocess_inner_sweep`: the unit with its tag removed. */
  function Payload(unit: Entries): Entries {
    Remove(unit, SWEEP_INDICATION)
  }

  /** `ret[SEPARATOR.join([prefix, subkey])] = subval` for every flattened entry of a child. */
  function Prefixed(params: Entries, prefix: string, sub: Entries): Entries
    decreases |sub|
  {
    if sub == [] then params
    else Prefixed(Set(params, prefix + SEPARATOR + sub[0].0, sub[0].1), prefix, sub[1..])
  }

  /** `flatten_tree` */
  function FlattenTree(t: Tree): (r: Res<Flat>)
    ensures r.Fail? ==> r.error == Error(TypeMismatch, None)
    ensures r.Ok? ==> r.value.rem.Dict? == t.Dict? && r.value.rem.List? == t.List?
    ensures r.Ok? && !t.IsContainer() ==> r.value.rem == t && !r.value.has
    decreases t, 1
  {
    match t
    case Dict(e) =>
      // the tagged root: every key but the tag, and nothing found below
      if HasKey(e, SWEEP_INDICATION) then Ok(Flat(Payload(e), false, Dict([])))
      else FlattenDict(t, 0, [], false, [])
    case List(_) => FlattenList(t, 0, [], false, [])
    case _ => Ok(Flat([], false, t))
  }

  /** The loop over the items of a dict, from position `i` on. */
  function FlattenDict(t: Tree, i: nat, params: Entries, has: bool, rem: Entries): (r: Res<Flat>)
    requires t.Dict? && i <= |t.entries|
    ensures r.Fail? ==> r.error == Error(TypeMismatch, None)
    ensures r.Ok? ==> r.value.rem.Dict? && (has ==> r.value.has)
    ensures r.Ok? ==> forall k :: HasKey(rem, k) ==> HasKey(r.value.rem.entries, k)
    decreases t, 0, |t.entries| - i
  {
    if i == |t.entries| then Ok(Flat(params, has, Dict(rem)))
    else
      var key := t.entries[i].0;
      if !t.entries[i].1.IsContainer() then
        FlattenDict(t, i + 1, params, has, Set(rem, key, t.entries[i].1))
      else if Tagged(t.entries[i].1) then
        // a tagged list reaches `list.pop("sweep")`, which raises
        if t.entries[i].1.List? then Raise(TypeMismatch)
        else FlattenDict(t, i + 1, Set(params, key, Dict(Payload(t.entries[i].1.entries))), true, rem)
      else
        match FlattenTree(t.entries[i].1)
        case Fail(err) => Fail(err)
        case Ok(sub) =>
          var params' := if sub.has then Prefixed(params, key, sub.params) else params;
          FlattenDict(t, i + 1, params', has || sub.has, Set(rem, key, sub.rem))
  }

  /** The loop over the items of a list, from position `i` on. */
  function FlattenList(t: Tree, i: nat, params: Entries, has: bool, rem: seq<Tree>): (r: Res<Flat>)
    requires t.List? && i <= |t.items|
    ensures r.Fail? ==> r.error == Error(TypeMismatch, None)
    ensures r.Ok? ==> r.value.rem.List? && (has ==> r.value.has)
    ensures r.Ok? ==> |rem| <= |r.value.rem.items| <= |rem| + |t.items| - i
    decreases t, 0, |t.items| - i
  {
    if i == |t.items| then Ok(Flat(params, has, List(rem)))
    else
      var key := IndexSegment(i);
      if !t.items[i].IsContainer() then
        FlattenList(t, i + 1, params, has, rem + [t.items[i]])
      else if IsUnit(t.items[i]) then
        // a unit in a list leaves no placeholder in the remainder list
        FlattenList(t, i + 1, Set(params, key, Dict(Payload(t.items[i].entries))), true, rem)
      else
        match FlattenTree(t.items[i])
        case Fail(err) => Fail(err)
        case Ok(sub) =>
          var params' := if sub.has then Prefixed(params, key, sub.params) else params;
          FlattenList(t, i + 1, params', has || sub.has, rem + [sub.rem])
  }

  /** `flatten_sweep_config`: the flat parameters and the remainder. */
  function FlattenSweepConfig(t: Tree): (r: Res<(Entries, Tree)>)
    ensures r.Fail? ==> r.error == Error(TypeMismatch, None)
    ensures r.Ok? ==> r.value.1.Dict? == t.Dict? && r.value.1.List? == t.List?
  {
    match FlattenTree(t)
    case Fail(err) => Fail(err)
    case Ok(f) => Ok((f.params, f.rem))
  }

  // ---------------------------------------------------------------------
  // What flattening a tree of dicts produces

  /**
   * A tree of dicts: outside its sweep units every container is a dict with
   * distinct keys that splitting cannot cut, and the root is not a unit.
   */
  predicate DictTree(t: Tree)
    decreases t
  {
    && t.Dict? && !IsUnit(t) && UniqueKeys(t.entries)
    && forall i :: 0 <= i < |t.entries| ==>
         && Clean(t.entries[i].0)
         && (IsUnit(t.entries[i].1) || !t.entries[i].1.IsContainer() || DictTree(t.entries[i].1))
  }

  /** The sweep units of a tree of dicts, in visiting order: path and stripped payload. */
  function UnitPaths(t: Tree): Units
    decreases t, 1
  {
    if t.Dict? then UnitPathsTo(t, |t.entries|) else []
  }

  /** The units under the first `i` keys. */
  function UnitPathsTo(t: Tree, i: nat): Units
    requires t.Dict? && i <= |t.entries|
    decreases t, 0, i
  {
    if i == 0 then [] else UnitPathsTo(t, i - 1) + Contribution(t, i - 1)
  }

  /** The units under the key at position `m`. */
  function Contribution(t: Tree, m: nat): Units
    requires t.Dict? && m < |t.entries|
    decreases t, 0, 0
  {
    var k := t.entries[m].0;
    if IsUnit(t.entries[m].1) then [([k], Dict(Payload(t.entries[m].1.entries)))]
    else if t.entries[m].1.Dict? then
      Under(k, UnitPaths(t.entries[m].1))
    else []
  }

  /** What stays of a child in the remainder: nothing for a unit. */
  function RemChild(c: Tree): Option<Tree>
    decreases c, 2
  {
    if IsUnit(c) then None else if c.Dict? then Some(RemTree(c)) else Some(c)
  }

  /** The remainder of a tree of dicts: every unit removed. */
  function RemTree(t: Tree): Tree
    decreases t, 1
  {
    if t.Dict? then Dict(RemTo(t, |t.entries|)) else t
  }

  function RemTo(t: Tree, i: nat): Entries
    requires t.Dict? && i <= |t.entries|
    decreases t, 0, i
  {
    if i == 0 then []
    else
      RemTo(t, i - 1) + match RemChild(t.entries[i - 1].1) case None => [] case Some(x) => [(t.entries[i - 1].0, x)]
  }

  /** Whether the path `p` runs into (or through) a sweep unit of `t`. */
  predicate Through(t: Tree, p: seq<string>)
    decreases |p|
  {
    && p != [] && t.Dict?
    && match Lookup(t.entries, p[0])
       case None => false
       case Some(c) => IsUnit(c) || Through(c, p[1..])
  }

  /** Below a unit, what the stripped unit holds at the rest of the path. */
  function ThroughShape(t: Tree, p: seq<string>): Shape
    requires Through(t, p)
    decreases |p|
  {
    var c := Lookup(t.entries, p[0]).value;
    if IsUnit(c) then ShapeAt(Dict(Payload(c.entries)), p[1..]) else ThroughShape(c, p[1..])
  }

  /** The tree with each unit's tag removed, which is what the sweep machinery gives back. */
  function Strip(t: Tree): Tree
    decreases t, 1
  {
    if t.Dict? then Dict(seq(|t.entries|, j requires 0 <= j < |t.entries| => (t.entries[j].0, StripChild(t, j))))
    else t
  }

  function StripChild(t: Tree, j: nat): Tree
    requires t.Dict? && j < |t.entries|
    decreases t, 0
  {
    var c := t.entries[j].1;
    if IsUnit(c) then Dict(Payload(c.entries)) else if c.Dict? then Strip(c) else c
  }

  // ---------------------------------------------------------------------
  // Flattening a tree of dicts, stated on its unit paths

  /** The flat entries of a child's parameters, each under `key` and the separator. */
  function PrefixKeys(key: string, sub: Entries): Entries {
    seq(|sub|, j requires 0 <= j < |sub| => (key + SEPARATOR + sub[j].0, sub[j].1))
  }

  /** None of the prefixed keys of `sub` is a key of `params` yet. */
  predicate FreshUnder(params: Entries, key: string, sub: Entries) {
    forall l :: 0 <= l < |sub| ==> key + SEPARATOR + sub[l].0 !in KeysOf(params)
  }

  /** Copying a child's parameters under fresh prefixed keys appends them in order. */
  lemma {:induction false} PrefixedAppend(params: Entries, key: string, sub: Entries)
    requires UniqueKeys(sub) && FreshUnder(params, key, sub)
    ensures Prefixed(params, key, sub) == params + PrefixKeys(key, sub)
    decreases |sub|
  {
    if sub == [] {
      assert params + PrefixKeys(key, sub) == params;
    } else {
      var params' := PrefixedFirst(params, key, sub);
      PrefixedAppend(params', key, sub[1..]);
      PrefixedShift(params, key, sub);
    }
  }

  /** The appended copy keeps the keys distinct. */
  lemma {:induction false} PrefixedUnique(params: Entries, key: string, sub: Entries)
    requires UniqueKeys(params) && UniqueKeys(sub) && FreshUnder(params, key, sub)
    ensures UniqueKeys(params + PrefixKeys(key, sub))
    decreases |sub|
  {
    if sub == [] {
      assert params + PrefixKeys(key, sub) == params;
    } else {
      var params' := PrefixedFirst(params, key, sub);
      PrefixedUnique(params', key, sub[1..]);
      PrefixedShift(params, key, sub);
    }
  }

  /** Moving the first prefixed entry over to `params`. */
  lemma PrefixedShift(params: Entries, key: string, sub: Entries)
    requires sub != []
    ensures (params + [(key + SEPARATOR + sub[0].0, sub[0].1)]) + PrefixKeys(key, sub[1..]) == params + PrefixKeys(key, sub)
  {
    var first := (key + SEPARATOR + sub[0].0, sub[0].1);
    var later := PrefixKeys(key, sub[1..]);
    PrefixKeysCons(key, sub);
    assert (params + [first]) + later == params + ([first] + later);
  }

  /** The first prefixed entry is new, so it goes last, and the rest are still fresh after it. */
  lemma PrefixedFirst(params: Entries, key: string, sub: Entries) returns (params': Entries)
    requires UniqueKeys(sub) && sub != [] && FreshUnder(params, key, sub)
    ensures params' == Set(params, key + SEPARATOR + sub[0].0, sub[0].1) == params + [(key + SEPARATOR + sub[0].0, sub[0].1)]
    ensures UniqueKeys(params) ==> UniqueKeys(params')
    ensures UniqueKeys(sub[1..]) && FreshUnder(params', key, sub[1..])
  {
    var k := key + SEPARATOR + sub[0].0;
    SetAbsent(params, k, sub[0].1);
    params' := params + [(k, sub[0].1)];
    forall l | 0 <= l < |sub| - 1 ensures key + SEPARATOR + sub[1..][l].0 !in KeysOf(params') {
      UniqueKeysApart(sub, 0, l + 1);
      UnderInjective(key, sub[0].0, sub[l + 1].0);
    }
  }

  lemma PrefixKeysCons(key: string, sub: Entries)
    requires sub != []
    ensures PrefixKeys(key, sub) == [(key + SEPARATOR + sub[0].0, sub[0].1)] + PrefixKeys(key, sub[1..])
  {
  }

  lemma UnderInjective(key: string, a: string, b: string)
    requires a != b
    ensures key + SEPARATOR + a != key + SEPARATOR + b
  {
    var n := |key + SEPARATOR|;
    assert (key + SEPARATOR + a)[n..] == a;
    assert (key + SEPARATOR + b)[n..] == b;
  }

  /** Unit paths are well formed, and each starts with a key of the tree. */
  lemma {:induction false} UnitPathsWell(t: Tree)
    requires DictTree(t)
    ensures WellPaths(UnitPaths(t))
    ensures forall l :: 0 <= l < |UnitPaths(t)| ==> UnitPaths(t)[l].0[0] in KeysOf(t.entries)
    decreases t, 1
  {
    UnitPathsToWell(t, |t.entries|);
    assert t.entries[..|t.entries|] == t.entries;
  }

  lemma {:induction false} UnitPathsToWell(t: Tree, i: nat)
    requires DictTree(t) && i <= |t.entries|
    ensures WellPaths(UnitPathsTo(t, i))
    ensures forall l :: 0 <= l < |UnitPathsTo(t, i)| ==> UnitPathsTo(t, i)[l].0[0] in KeysOf(t.entries[..i])
    decreases t, 0, i
  {
    if i > 0 {
      UnitPathsToWell(t, i - 1);
      var k := t.entries[i - 1].0;
      var c := t.entries[i - 1].1;
      assert t.entries[..i] == t.entries[..i - 1] + [t.entries[i - 1]];
      KeysOfAppend(t.entries[..i - 1], [t.entries[i - 1]]);
      ContributionWell(t, i - 1);
    }
  }

  /** The units under one key have well-formed paths that start with that key. */
  lemma {:induction false} ContributionWell(t: Tree, m: nat)
    requires DictTree(t) && m < |t.entries|
    ensures WellPaths(Contribution(t, m))
    ensures forall l :: 0 <= l < |Contribution(t, m)| ==> Contribution(t, m)[l].0[0] == t.entries[m].0
    decreases t, 0, 0
  {
    var k := t.entries[m].0;
    var c := t.entries[m].1;
    var b := Contribution(t, m);
    if !IsUnit(c) && c.Dict? {
      UnitPathsWell(c);
    }
    forall l | 0 <= l < |b|
      ensures |b[l].0| > 0 && b[l].0[0] == k
      ensures forall s :: 0 <= s < |b[l].0| ==> Clean(b[l].0[s])
    {
      if !IsUnit(c) && c.Dict? {
        var sub := UnitPaths(c);
        assert b[l].0 == [k] + sub[l].0;
        forall s | 0 <= s < |b[l].0| ensures Clean(b[l].0[s]) {
          if s > 0 { assert b[l].0[s] == sub[l].0[s - 1]; }
        }
      }
    }
  }

  /** The keys of a partial remainder are keys of the entries visited so far. */
  lemma {:induction false} RemToKeys(t: Tree, i: nat)
    requires t.Dict? && i <= |t.entries|
    ensures forall k :: k in KeysOf(RemTo(t, i)) ==> k in KeysOf(t.entries[..i])
    decreases i
  {
    if i > 0 {
      RemToKeys(t, i - 1);
      var k := t.entries[i - 1].0;
      var c := t.entries[i - 1].1;
      var tail := match RemChild(c) case None => [] case Some(x) => [(k, x)];
      assert RemTo(t, i) == RemTo(t, i - 1) + tail;
      KeysOfAppend(RemTo(t, i - 1), tail);
      assert t.entries[..i] == t.entries[..i - 1] + [t.entries[i - 1]];
      KeysOfAppend(t.entries[..i - 1], [t.entries[i - 1]]);
    }
  }

  /**
   * Flattening a tree of dicts emits one flat entry per sweep unit, in
   * visiting order, under the joined path of the unit; it reports whether
   * there was any unit; and it keeps everything else as the remainder.
   */
  lemma {:induction false} FlattenTreeSpec(t: Tree)
    requires DictTree(t)
    ensures FlattenTree(t) == Ok(Flat(JoinKeys(UnitPaths(t)), |UnitPaths(t)| > 0, RemTree(t)))
    ensures UniqueKeys(JoinKeys(UnitPaths(t)))
    decreases t, 1
  {
    assert JoinKeys(UnitPathsTo(t, 0)) == [];
    FlattenDictSpec(t, 0);
  }

  lemma {:induction false} FlattenDictSpec(t: Tree, i: nat)
    requires DictTree(t) && i <= |t.entries|
    requires UniqueKeys(JoinKeys(UnitPathsTo(t, i)))
    ensures FlattenDict(t, i, JoinKeys(UnitPathsTo(t, i)), |UnitPathsTo(t, i)| > 0, RemTo(t, i))
            == Ok(Flat(JoinKeys(UnitPaths(t)), |UnitPaths(t)| > 0, RemTree(t)))
    ensures UniqueKeys(JoinKeys(UnitPaths(t)))
    decreases t, 0, |t.entries| - i, 1
  {
    if i < |t.entries| {
      FlattenDictStep(t, i);
      FlattenDictChain(t, i);
    } else {
      FlattenDictDone(t);
    }
  }

  /** The step from `i` to `i + 1` and what the rest of the loop gives, put together. */
  lemma {:induction false} FlattenDictChain(t: Tree, i: nat)
    requires DictTree(t) && i < |t.entries|
    requires UniqueKeys(JoinKeys(UnitPathsTo(t, i + 1)))
    requires FlattenDict(t, i, JoinKeys(UnitPathsTo(t, i)), |UnitPathsTo(t, i)| > 0, RemTo(t, i))
             == FlattenDict(t, i + 1, JoinKeys(UnitPathsTo(t, i + 1)), |UnitPathsTo(t, i + 1)| > 0, RemTo(t, i + 1))
    ensures FlattenDict(t, i, JoinKeys(UnitPathsTo(t, i)), |UnitPathsTo(t, i)| > 0, RemTo(t, i))
            == Ok(Flat(JoinKeys(UnitPaths(t)), |UnitPaths(t)| > 0, RemTree(t)))
    ensures UniqueKeys(JoinKeys(UnitPaths(t)))
    decreases t, 0, |t.entries| - i, 0
  {
    FlattenDictSpec(t, i + 1);
  }

  /** The loop over a dict's items ends with the flat entries and remainder of the whole dict. */
  lemma FlattenDictDone(t: Tree)
    requires t.Dict?
    ensures FlattenDict(t, |t.entries|, JoinKeys(UnitPathsTo(t, |t.entries|)), |UnitPathsTo(t, |t.entries|)| > 0, RemTo(t, |t.entries|))
            == Ok(Flat(JoinKeys(UnitPaths(t)), |UnitPaths(t)| > 0, RemTree(t)))
  {
    assert UnitPaths(t) == UnitPathsTo(t, |t.entries|);
    assert RemTree(t) == Dict(RemTo(t, |t.entries|));
  }

  /** One turn of the loop over a dict's items keeps the flat entries and the remainder on the spec. */
  lemma {:induction false} FlattenDictStep(t: Tree, i: nat)
    requires DictTree(t) && i < |t.entries|
    requires UniqueKeys(JoinKeys(UnitPathsTo(t, i)))
    ensures FlattenDict(t, i, JoinKeys(UnitPathsTo(t, i)), |UnitPathsTo(t, i)| > 0, RemTo(t, i))
            == FlattenDict(t, i + 1, JoinKeys(UnitPathsTo(t, i + 1)), |UnitPathsTo(t, i + 1)| > 0, RemTo(t, i + 1))
    ensures UniqueKeys(JoinKeys(UnitPathsTo(t, i + 1)))
    decreases t, 0, |t.entries| - i, 0
  {
    var key := t.entries[i].0;
    var c := t.entries[i].1;
    var params := JoinKeys(UnitPathsTo(t, i));
    var has := |UnitPathsTo(t, i)| > 0;
    var rem := RemTo(t, i);
    if !c.IsContainer() {
      StepScalar(t, i);
      UnfoldScalar(t, i, params, has, rem);
    } else if IsUnit(c) {
      StepUnit(t, i);
      UnfoldUnit(t, i, params, has, rem);
    } else {
      FlattenTreeSpec(c);
      StepChild(t, i);
      UnfoldChild(t, i, params, has, rem, JoinKeys(UnitPaths(c)), |UnitPaths(c)| > 0, RemTree(c));
    }
  }

  lemma UnfoldScalar(t: Tree, i: nat, params: Entries, has: bool, rem: Entries)
    requires t.Dict? && i < |t.entries| && !t.entries[i].1.IsContainer()
    ensures FlattenDict(t, i, params, has, rem)
            == FlattenDict(t, i + 1, params, has, Set(rem, t.entries[i].0, t.entries[i].1))
  {
  }

  lemma UnfoldUnit(t: Tree, i: nat, params: Entries, has: bool, rem: Entries)
    requires t.Dict? && i < |t.entries| && IsUnit(t.entries[i].1)
    ensures FlattenDict(t, i, params, has, rem)
            == FlattenDict(t, i + 1, Set(params, t.entries[i].0, Dict(Payload(t.entries[i].1.entries))), true, rem)
  {
  }

  lemma UnfoldChild(t: Tree, i: nat, params: Entries, has: bool, rem: Entries, sub: Entries, subHas: bool, subRem: Tree)
    requires t.Dict? && i < |t.entries| && !IsUnit(t.entries[i].1) && t.entries[i].1.Dict?
    requires FlattenTree(t.entries[i].1) == Ok(Flat(sub, subHas, subRem))
    requires !subHas ==> sub == []
    ensures FlattenDict(t, i, params, has, rem)
            == FlattenDict(t, i + 1, Prefixed(params, t.entries[i].0, sub), has || subHas, Set(rem, t.entries[i].0, subRem))
  {
  }

  lemma StepScalar(t: Tree, i: nat)
    requires t.Dict? && UniqueKeys(t.entries) && i < |t.entries| && !t.entries[i].1.IsContainer()
    ensures Set(RemTo(t, i), t.entries[i].0, t.entries[i].1) == RemTo(t, i + 1)
    ensures UnitPathsTo(t, i + 1) == UnitPathsTo(t, i)
  {
    KeyNotBefore(t.entries, i);
    RemToKeys(t, i);
    SetAbsent(RemTo(t, i), t.entries[i].0, t.entries[i].1);
    assert UnitPathsTo(t, i + 1) == UnitPathsTo(t, i) + [];
  }

  /** The flat keys emitted before position `i` all start with an earlier key. */
  lemma ParamsBefore(t: Tree, i: nat)
    requires DictTree(t) && i < |t.entries|
    ensures forall j :: 0 <= j < |JoinKeys(UnitPathsTo(t, i))| ==>
              Split(JoinKeys(UnitPathsTo(t, i))[j].0)[0] != t.entries[i].0
  {
    var ps := UnitPathsTo(t, i);
    UnitPathsToWell(t, i);
    KeyNotBefore(t.entries, i);
    forall j | 0 <= j < |ps| ensures Split(JoinKeys(ps)[j].0)[0] != t.entries[i].0 {
      FirstSegment(ps[j].0);
    }
  }

  lemma StepUnit(t: Tree, i: nat)
    requires DictTree(t) && i < |t.entries| && IsUnit(t.entries[i].1)
    requires UniqueKeys(JoinKeys(UnitPathsTo(t, i)))
    ensures Set(JoinKeys(UnitPathsTo(t, i)), t.entries[i].0, Dict(Payload(t.entries[i].1.entries)))
            == JoinKeys(UnitPathsTo(t, i + 1))
    ensures |UnitPathsTo(t, i + 1)| > 0 && RemTo(t, i + 1) == RemTo(t, i)
  {
    assert RemTo(t, i + 1) == RemTo(t, i) + [];
    var key := t.entries[i].0;
    var params := JoinKeys(UnitPathsTo(t, i));
    var v := Dict(Payload(t.entries[i].1.entries));
    ParamsBefore(t, i);
    FirstSegment([key]);
    forall j | 0 <= j < |params| ensures KeysOf(params)[j] != key {
      KeysOfIndex(params, j);
    }
    SetAbsent(params, key, v);
    JoinKeysAppend(UnitPathsTo(t, i), Contribution(t, i));
    assert JoinKeys(Contribution(t, i)) == [(key, v)];
  }

  lemma StepChild(t: Tree, i: nat)
    requires DictTree(t) && i < |t.entries|
    requires !IsUnit(t.entries[i].1) && t.entries[i].1.Dict?
    requires UniqueKeys(JoinKeys(UnitPathsTo(t, i)))
    requires UniqueKeys(JoinKeys(UnitPaths(t.entries[i].1)))
    ensures Prefixed(JoinKeys(UnitPathsTo(t, i)), t.entries[i].0, JoinKeys(UnitPaths(t.entries[i].1)))
            == JoinKeys(UnitPathsTo(t, i + 1))
    ensures UniqueKeys(JoinKeys(UnitPathsTo(t, i + 1)))
    ensures Set(RemTo(t, i), t.entries[i].0, RemTree(t.entries[i].1)) == RemTo(t, i + 1)
  {
    var key := t.entries[i].0;
    var c := t.entries[i].1;
    var params := JoinKeys(UnitPathsTo(t, i));
    var sub := JoinKeys(UnitPaths(c));
    ParamsBefore(t, i);
    UnitPathsWell(c);
    forall l | 0 <= l < |sub| ensures key + SEPARATOR + sub[l].0 !in KeysOf(params) {
      forall j | 0 <= j < |params| ensures KeysOf(params)[j] != key + SEPARATOR + sub[l].0 {
        KeysOfIndex(params, j);
        SplitHead(key, sub[l].0);
      }
    }
    PrefixedAppend(params, key, sub);
    PrefixedUnique(params, key, sub);
    forall l | 0 <= l < |sub| ensures JoinKeys(Contribution(t, i))[l] == PrefixKeys(key, sub)[l] {
      JoinCons(key, UnitPaths(c)[l].0);
    }
    assert JoinKeys(Contribution(t, i)) == PrefixKeys(key, sub);
    JoinKeysAppend(UnitPathsTo(t, i), Contribution(t, i));
    KeyNotBefore(t.entries, i);
    RemToKeys(t, i);
    SetAbsent(RemTo(t, i), key, RemTree(c));
  }

  // ---------------------------------------------------------------------
  // Flattening a list of trees of dicts

  /** A list whose elements are scalars, sweep units or trees of dicts. */
  predicate ListOfDictTrees(t: Tree) {
    t.List? && forall i :: 0 <= i < |t.items| ==> !t.items[i].IsContainer() || IsUnit(t.items[i]) || DictTree(t.items[i])
  }

  /** The units at list position `m`, under the position's segment `__IDX__m`. */
  function ItemUnits(t: Tree, m: nat): Units
    requires t.List? && m < |t.items|
  {
    var c := t.items[m];
    if IsUnit(c) then [([IndexSegment(m)], Dict(Payload(c.entries)))]
    else if c.Dict? then Under(IndexSegment(m), UnitPaths(c))
    else []
  }

  /** The units of the first `i` elements, in order. */
  function ListUnitsTo(t: Tree, i: nat): Units
    requires t.List? && i <= |t.items|
  {
    if i == 0 then [] else ListUnitsTo(t, i - 1) + ItemUnits(t, i - 1)
  }

  /** What stays of the first `i` elements: a unit leaves no placeholder, a dict leaves its remainder. */
  function ListRemTo(t: Tree, i: nat): seq<Tree>
    requires t.List? && i <= |t.items|
  {
    if i == 0 then []
    else ListRemTo(t, i - 1) + match RemChild(t.items[i - 1]) case None => [] case Some(x) => [x]
  }

  /** The segments of the list positions below `i`. */
  ghost function SegmentsBelow(i: nat): set<string> {
    set m | 0 <= m < i :: IndexSegment(m)
  }

  /**
   * Flattening a list of trees of dicts emits, element by element, a unit
   * under `__IDX__<i>` and the units of a dict under `__IDX__<i>` and the
   * separator; the remainder list keeps scalars and the remainders of dicts,
   * and a unit leaves no placeholder in it.
   */
  lemma FlattenListSpec(t: Tree)
    requires ListOfDictTrees(t)
    ensures FlattenTree(t) == Ok(Flat(JoinKeys(ListUnitsTo(t, |t.items|)), |ListUnitsTo(t, |t.items|)| > 0, List(ListRemTo(t, |t.items|))))
    ensures UniqueKeys(JoinKeys(ListUnitsTo(t, |t.items|)))
  {
    assert JoinKeys(ListUnitsTo(t, 0)) == [];
    FlattenListFrom(t, 0);
  }

  lemma {:induction false} FlattenListFrom(t: Tree, i: nat)
    requires ListOfDictTrees(t) && i <= |t.items|
    requires UniqueKeys(JoinKeys(ListUnitsTo(t, i)))
    ensures FlattenList(t, i, JoinKeys(ListUnitsTo(t, i)), |ListUnitsTo(t, i)| > 0, ListRemTo(t, i))
         == Ok(Flat(JoinKeys(ListUnitsTo(t, |t.items|)), |ListUnitsTo(t, |t.items|)| > 0, List(ListRemTo(t, |t.items|))))
    ensures UniqueKeys(JoinKeys(ListUnitsTo(t, |t.items|)))
    decreases |t.items| - i
  {
    if i < |t.items| {
      FlattenListStep(t, i);
      FlattenListFrom(t, i + 1);
    } else {
      FlattenListEnd(t, JoinKeys(ListUnitsTo(t, i)), |ListUnitsTo(t, i)| > 0, ListRemTo(t, i));
    }
  }

  /** Past the last element, flattening a list returns what it has gathered. */
  lemma FlattenListEnd(t: Tree, params: Entries, has: bool, rem: seq<Tree>)
    requires t.List?
    ensures FlattenList(t, |t.items|, params, has, rem) == Ok(Flat(params, has, List(rem)))
  {
  }

  /** One turn of the loop over a list's elements keeps the flat entries and the remainder on the spec. */
  lemma FlattenListStep(t: Tree, i: nat)
    requires ListOfDictTrees(t) && i < |t.items|
    requires UniqueKeys(JoinKeys(ListUnitsTo(t, i)))
    ensures FlattenList(t, i, JoinKeys(ListUnitsTo(t, i)), |ListUnitsTo(t, i)| > 0, ListRemTo(t, i))
         == FlattenList(t, i + 1, JoinKeys(ListUnitsTo(t, i + 1)), |ListUnitsTo(t, i + 1)| > 0, ListRemTo(t, i + 1))
    ensures UniqueKeys(JoinKeys(ListUnitsTo(t, i + 1)))
  {
    var c := t.items[i];
    if !c.IsContainer() {
      assert ItemUnits(t, i) == [];
      assert ListUnitsTo(t, i + 1) == ListUnitsTo(t, i);
      assert RemChild(c) == Some(c);
      assert ListRemTo(t, i + 1) == ListRemTo(t, i) + [c];
      var P, H, R := JoinKeys(ListUnitsTo(t, i)), |ListUnitsTo(t, i)| > 0, ListRemTo(t, i);
      assert FlattenList(t, i, P, H, R) == FlattenList(t, i + 1, P, H, R + [c]);
    } else if IsUnit(c) {
      StepListUnit(t, i);
    } else {
      FlattenTreeSpec(c);
      StepListChild(t, i);
    }
  }

  /** The units of one element have well-formed paths that start with its position's segment. */
  lemma ItemUnitsWell(t: Tree, m: nat)
    requires ListOfDictTrees(t) && m < |t.items|
    ensures WellPaths(ItemUnits(t, m))
    ensures forall l :: 0 <= l < |ItemUnits(t, m)| ==> ItemUnits(t, m)[l].0[0] == IndexSegment(m)
  {
    var c := t.items[m];
    var b := ItemUnits(t, m);
    var k := IndexSegment(m);
    IndexSegmentClean(m);
    if !IsUnit(c) && c.Dict? {
      UnitPathsWell(c);
      var sub := UnitPaths(c);
      forall l | 0 <= l < |b|
        ensures |b[l].0| > 0 && forall s :: 0 <= s < |b[l].0| ==> Clean(b[l].0[s])
      {
        assert b[l].0 == [k] + sub[l].0;
        forall s | 0 <= s < |b[l].0| ensures Clean(b[l].0[s]) {
          if s > 0 { assert b[l].0[s] == sub[l].0[s - 1]; }
        }
      }
    }
  }

  /** The units of the first `i` elements have well-formed paths that start with an earlier position's segment. */
  lemma {:induction false} ListUnitsToWell(t: Tree, i: nat)
    requires ListOfDictTrees(t) && i <= |t.items|
    ensures WellPaths(ListUnitsTo(t, i))
    ensures forall l :: 0 <= l < |ListUnitsTo(t, i)| ==> ListUnitsTo(t, i)[l].0[0] in SegmentsBelow(i)
  {
    if i > 0 {
      ListUnitsToWell(t, i - 1);
      ItemUnitsWell(t, i - 1);
      assert ListUnitsTo(t, i) == ListUnitsTo(t, i - 1) + ItemUnits(t, i - 1);
      assert SegmentsBelow(i) == SegmentsBelow(i - 1) + {IndexSegment(i - 1)};
      UnitsAppendWell(ListUnitsTo(t, i - 1), ItemUnits(t, i - 1), SegmentsBelow(i - 1), IndexSegment(i - 1), SegmentsBelow(i));
    }
  }

  /** Appending units whose paths are well formed and start in a set of segments. */
  lemma UnitsAppendWell(a: Units, b: Units, below: set<string>, seg: string, all: set<string>)
    requires WellPaths(a) && WellPaths(b)
    requires forall l :: 0 <= l < |a| ==> a[l].0[0] in below
    requires forall l :: 0 <= l < |b| ==> b[l].0[0] == seg
    requires below <= all && seg in all
    ensures WellPaths(a + b)
    ensures forall l :: 0 <= l < |a + b| ==> (a + b)[l].0[0] in all
  {
    var ab: Units := a + b;
    forall l | 0 <= l < |ab| ensures ab[l] == if l < |a| then a[l] else b[l - |a|] {
    }
  }

  /** The flat keys emitted before position `i` all start with an earlier position's segment. */
  lemma ListParamsBefore(t: Tree, i: nat)
    requires ListOfDictTrees(t) && i < |t.items|
    ensures forall j :: 0 <= j < |JoinKeys(ListUnitsTo(t, i))| ==>
              Split(JoinKeys(ListUnitsTo(t, i))[j].0)[0] != IndexSegment(i)
  {
    var ps := ListUnitsTo(t, i);
    ListUnitsToWell(t, i);
    forall j | 0 <= j < |ps| ensures Split(JoinKeys(ps)[j].0)[0] != IndexSegment(i) {
      FirstSegment(ps[j].0);
      var m :| 0 <= m < i && ps[j].0[0] == IndexSegment(m);
    }
  }

  /** A unit element adds one flat entry under its position's segment, and nothing to the remainder. */
  lemma StepListUnit(t: Tree, i: nat)
    requires ListOfDictTrees(t) && i < |t.items| && IsUnit(t.items[i])
    requires UniqueKeys(JoinKeys(ListUnitsTo(t, i)))
    ensures Set(JoinKeys(ListUnitsTo(t, i)), IndexSegment(i), Dict(Payload(t.items[i].entries)))
            == JoinKeys(ListUnitsTo(t, i + 1))
    ensures |ListUnitsTo(t, i + 1)| > 0 && ListRemTo(t, i + 1) == ListRemTo(t, i)
  {
    assert ListRemTo(t, i + 1) == ListRemTo(t, i) + [];
    var key := IndexSegment(i);
    var params := JoinKeys(ListUnitsTo(t, i));
    var v := Dict(Payload(t.items[i].entries));
    ListParamsBefore(t, i);
    IndexSegmentClean(i);
    FirstSegment([key]);
    forall j | 0 <= j < |params| ensures KeysOf(params)[j] != key {
      KeysOfIndex(params, j);
    }
    SetAbsent(params, key, v);
    JoinKeysAppend(ListUnitsTo(t, i), ItemUnits(t, i));
    assert JoinKeys(ItemUnits(t, i)) == [(key, v)];
  }

  /** A dict element adds its own flat entries under its position's segment and the separator, and its remainder. */
  lemma StepListChild(t: Tree, i: nat)
    requires ListOfDictTrees(t) && i < |t.items|
    requires !IsUnit(t.items[i]) && t.items[i].Dict?
    requires UniqueKeys(JoinKeys(ListUnitsTo(t, i)))
    requires UniqueKeys(JoinKeys(UnitPaths(t.items[i])))
    ensures Prefixed(JoinKeys(ListUnitsTo(t, i)), IndexSegment(i), JoinKeys(UnitPaths(t.items[i])))
            == JoinKeys(ListUnitsTo(t, i + 1))
    ensures UniqueKeys(JoinKeys(ListUnitsTo(t, i + 1)))
    ensures ListRemTo(t, i) + [RemTree(t.items[i])] == ListRemTo(t, i + 1)
  {
    var key := IndexSegment(i);
    var c := t.items[i];
    var params := JoinKeys(ListUnitsTo(t, i));
    var sub := JoinKeys(UnitPaths(c));
    ListParamsBefore(t, i);
    IndexSegmentClean(i);
    UnitPathsWell(c);
    forall l | 0 <= l < |sub| ensures key + SEPARATOR + sub[l].0 !in KeysOf(params) {
      forall j | 0 <= j < |params| ensures KeysOf(params)[j] != key + SEPARATOR + sub[l].0 {
        KeysOfIndex(params, j);
        SplitHead(key, sub[l].0);
      }
    }
    PrefixedAppend(params, key, sub);
    PrefixedUnique(params, key, sub);
    forall l | 0 <= l < |sub| ensures JoinKeys(ItemUnits(t, i))[l] == PrefixKeys(key, sub)[l] {
      JoinCons(key, UnitPaths(c)[l].0);
    }
    assert JoinKeys(ItemUnits(t, i)) == PrefixKeys(key, sub);
    JoinKeysAppend(ListUnitsTo(t, i), ItemUnits(t, i));
  }
}
