// What `upsert_config` promises: overlay keys are assigned and nothing else
// changes, a new key takes its overlay as is, scalars are replaced, list
// operations edit in order, the last `upsert` entry wins, dicts of positions
// stand for lists, and a result handed back at the top holds no reserved key.
module MergeFacts {
  import opened Trees
  import opened PathCodec
  import opened Flattener
  import opened Compression
  import opened MergeBasics
  import opened Merge

  // ---------------------------------------------------------------------
  // Dict targets

  /** A key later in a dict with distinct keys is not among the keys after it. */
  lemma KeyNotAfter(e: Entries, m: nat)
    requires UniqueKeys(e) && m < |e|
    ensures !HasKey(e[m + 1..], e[m].0)
  {
    var after := e[m + 1..];
    forall q | 0 <= q < |after| ensures KeysOf(after)[q] != e[m].0 {
      KeysOfIndex(after, q);
      UniqueKeysApart(e, m, m + 1 + q);
    }
  }

  /** Overlay keys from entry `j` on change only themselves; every key of the target stays. */
  lemma {:induction false} MergeKeysUntouched(e: Entries, rest: Entries, j: nat, path: seq<string>, root: Tree, ev: Evaluator, annotate: bool)
    requires j <= |rest|
    requires MergeKeys(e, rest, j, path, root, ev, annotate).Ok?
    ensures var r := MergeKeys(e, rest, j, path, root, ev, annotate).value;
            && (forall k :: !HasKey(rest[j..], k) || StartsWith(k, SWEEP_GROUP) ==> Lookup(r, k) == Lookup(e, k))
            && (forall k :: HasKey(e, k) ==> HasKey(r, k))
    decreases |rest| - j
  {
    if j < |rest| {
      var key := rest[j].0;
      assert rest[j..][1..] == rest[j + 1..];
      assert KeysOf(rest[j..]) == [key] + KeysOf(rest[j + 1..]);
      var e' := e;
      if !StartsWith(key, SWEEP_GROUP) {
        var y := MergeKeysValue(e, rest, j, path, root, ev, annotate);
        e' := Set(e, key, y);
      }
      assert MergeKeys(e, rest, j, path, root, ev, annotate) == MergeKeys(e', rest, j + 1, path, root, ev, annotate);
      MergeKeysUntouched(e', rest, j + 1, path, root, ev, annotate);
      var r := MergeKeys(e', rest, j + 1, path, root, ev, annotate).value;
      forall k | !HasKey(rest[j..], k) || StartsWith(k, SWEEP_GROUP) ensures Lookup(r, k) == Lookup(e, k) {
        assert !HasKey(rest[j + 1..], k) || StartsWith(k, SWEEP_GROUP);
        assert Lookup(e', k) == Lookup(e, k);
      }
      forall k | HasKey(e, k) ensures HasKey(r, k) {
        assert Lookup(e', k).Some?;
      }
    }
  }

  /**
   * One step of the loop over the overlay's ordinary keys: the value the key
   * gets, with the rest of the loop still to run.
   */
  lemma MergeKeysValue(e: Entries, rest: Entries, j: nat, path: seq<string>, root: Tree, ev: Evaluator, annotate: bool) returns (y: Tree)
    requires j < |rest| && !StartsWith(rest[j].0, SWEEP_GROUP)
    requires MergeKeys(e, rest, j, path, root, ev, annotate).Ok?
    ensures MergeKeys(e, rest, j, path, root, ev, annotate) == MergeKeys(Set(e, rest[j].0, y), rest, j + 1, path, root, ev, annotate)
    ensures !rest[j].1.IsContainer() && !Computed(rest[j].1) ==> y == rest[j].1
    ensures rest[j].1.IsContainer() && !EvalDict(rest[j].1) && !HasKey(e, rest[j].0) ==> y == rest[j].1
    ensures rest[j].1.IsContainer() && !EvalDict(rest[j].1)
            ==> Upserted(if HasKey(e, rest[j].0) then Lookup(e, rest[j].0).value else Null, rest[j].1, path + [rest[j].0], root, ev, annotate) == Ok(y)
    ensures EvalDict(rest[j].1) ==> EvalSpec(ev, Lookup(rest[j].1.entries, SWEEP_OPERATION_VAL).value, root) == Ok(y)
    ensures Computed(rest[j].1)
            ==> EvalString(ev, rest[j].1.s, if HasKey(e, rest[j].0) then Lookup(e, rest[j].0).value else Null) == Ok(y)
  {
    var (key, val) := rest[j];
    var cur := if HasKey(e, key) then Lookup(e, key).value else Null;
    if EvalDict(val) {
      y := EvalSpec(ev, Lookup(val.entries, SWEEP_OPERATION_VAL).value, root).value;
    } else if val.IsContainer() {
      SizeEntry(rest, j);
      y := Upserted(cur, val, path + [key], root, ev, annotate).value;
      if !HasKey(e, key) {
        assert Upserted(Null, val, path + [key], root, ev, annotate) == Ok(val);
      }
    } else if !Computed(val) {
      y := val;
    } else {
      y := EvalString(ev, val.s, cur).value;
    }
  }

  /**
   * An ordinary overlay key holding a plain value ends up with that value, and
   * so does a new key holding a dict or list: a missing target becomes None,
   * onto which the overlay is returned unchanged.
   */
  lemma {:induction false} MergeKeysSets(e: Entries, rest: Entries, j: nat, m: nat, path: seq<string>, root: Tree, ev: Evaluator, annotate: bool)
    requires UniqueKeys(rest) && j <= m < |rest|
    requires !StartsWith(rest[m].0, SWEEP_GROUP)
    requires (!rest[m].1.IsContainer() && !Computed(rest[m].1))
          || (rest[m].1.IsContainer() && !EvalDict(rest[m].1) && !HasKey(e, rest[m].0))
    requires MergeKeys(e, rest, j, path, root, ev, annotate).Ok?
    ensures Lookup(MergeKeys(e, rest, j, path, root, ev, annotate).value, rest[m].0) == Some(rest[m].1)
    decreases m - j
  {
    var key := rest[j].0;
    if StartsWith(key, SWEEP_GROUP) {
      MergeKeysSets(e, rest, j + 1, m, path, root, ev, annotate);
    } else {
      var y := MergeKeysValue(e, rest, j, path, root, ev, annotate);
      if j == m {
        KeyNotAfter(rest, m);
        MergeKeysUntouched(Set(e, key, y), rest, j + 1, path, root, ev, annotate);
      } else {
        UniqueKeysApart(rest, j, m);
        assert HasKey(Set(e, key, y), rest[m].0) == HasKey(e, rest[m].0);
        MergeKeysSets(Set(e, key, y), rest, j + 1, m, path, root, ev, annotate);
      }
    }
  }

  /** A dict target with a key that does not name a position is merged into, not read as a list. */
  lemma PretenderKept(e: Entries, k: string, v: Tree)
    requires !PretendsList(e)
    ensures !PretendsList(Set(e, k, v))
  {
    var i :| 0 <= i < |e| && !StartsWith(e[i].0, IDX_INDICATOR);
    var r := Set(e, k, v);
    KeysOfIndex(e, i);
    KeysOfIndex(r, i);
  }

  /** A one-key overlay with a plain value onto a dict target sets that key; then the result is checked. */
  lemma DictOverlayStep(e: Entries, k: string, v: Tree, path: seq<string>, root: Tree, ev: Evaluator, annotate: bool)
    requires !PretendsList(e)
    requires !StartsWith(k, SWEEP_GROUP) && k != UPSERT_GROUP_IDENTIFIER
    requires !v.IsContainer() && !Computed(v)
    ensures DictStep(e, Dict([(k, v)]), path, root, ev, annotate) == Checked(Dict(Set(e, k, v)), path)
  {
    var rest := [(k, v)];
    assert KeysOf(rest) == [k];
    assert Remove(rest, UPSERT_GROUP_IDENTIFIER) == rest;
    assert MergeKeys(Set(e, k, v), rest, 1, path, root, ev, annotate) == Ok(Set(e, k, v));
    assert MergeKeys(e, rest, 0, path, root, ev, annotate) == Ok(Set(e, k, v));
    assert GroupKeys(rest) == [];
    assert SortKeys([]) == [];
    assert ApplyGroups(Dict(Set(e, k, v)), rest, [], 0, path, root, ev, annotate) == Ok(Dict(Set(e, k, v)));
  }

  /** A one-key overlay with a plain value, below the top, sets that key of a dict target and nothing else. */
  lemma DictOverlaySets(e: Entries, k: string, v: Tree, path: seq<string>, root: Tree, ev: Evaluator, annotate: bool)
    requires !PretendsList(e) && path != []
    requires !StartsWith(k, SWEEP_GROUP) && k != UPSERT_GROUP_IDENTIFIER
    requires !v.IsContainer() && !Computed(v)
    ensures Upserted(Dict(e), Dict([(k, v)]), path, root, ev, annotate) == Ok(Dict(Set(e, k, v)))
  {
    DictOverlayStep(e, k, v, path, root, ev, annotate);
  }

  /** The value a one-key overlay writes. */
  function Assigned(m: Tree): Tree {
    if m.Dict? && m.entries != [] then m.entries[0].1 else Null
  }

  /** A one-key overlay with a plain value. */
  ghost predicate Assigns(m: Tree, k: string) {
    m.Dict? && |m.entries| == 1 && m.entries[0].0 == k && !m.entries[0].1.IsContainer() && !Computed(m.entries[0].1)
  }

  /** When every `upsert` entry assigns the same key, the last one's value is what stays, and nothing else changes. */
  lemma {:induction false} UpsertsLastWins(t: Tree, k: string, ups: Tree, ms: seq<Tree>, j: nat, path: seq<string>, root: Tree, ev: Evaluator, annotate: bool)
    requires t.Dict? && !PretendsList(t.entries)
    requires !StartsWith(k, SWEEP_GROUP) && k != UPSERT_GROUP_IDENTIFIER
    requires j < |ms| && forall i :: 0 <= i < |ms| ==> Assigns(ms[i], k)
    requires forall i :: 0 <= i < |ms| ==> Size(ms[i]) <= Size(ups)
    ensures var r := ApplyUpserts(t, ups, ms, j, path, root, ev, annotate);
            && r.Ok? && r.value.Dict?
            && Assigns(ms[|ms| - 1], k) && Lookup(r.value.entries, k) == Some(ms[|ms| - 1].entries[0].1)
            && forall k' :: k' != k ==> Lookup(r.value.entries, k') == Lookup(t.entries, k')
    decreases |ms| - j
  {
    var v := ms[j].entries[0].1;
    assert ms[j] == Dict([(k, v)]);
    var path' := path + [UPSERT_GROUP_IDENTIFIER + "-" + IntToString(j)];
    DictOverlaySets(t.entries, k, v, path', root, ev, annotate);
    var t' := Dict(Set(t.entries, k, v));
    assert ApplyUpserts(t, ups, ms, j, path, root, ev, annotate) == ApplyUpserts(t', ups, ms, j + 1, path, root, ev, annotate);
    if j + 1 < |ms| {
      PretenderKept(t.entries, k, v);
      UpsertsLastWins(t', k, ups, ms, j + 1, path, root, ev, annotate);
      var r := ApplyUpserts(t', ups, ms, j + 1, path, root, ev, annotate).value;
      forall k' | k' != k ensures Lookup(r.entries, k') == Lookup(t.entries, k') {
        assert Lookup(r.entries, k') == Lookup(t'.entries, k');
      }
    } else {
      assert ApplyUpserts(t', ups, ms, j + 1, path, root, ev, annotate) == Ok(t');
    }
  }

  /** Below the top, a target that is not a list or a dict is replaced by the overlay, unless it is to be computed. */
  lemma ScalarTargetReplaced(args: Tree, ov: Tree, path: seq<string>, root: Tree, ev: Evaluator, annotate: bool)
    requires !args.IsContainer() && !Computed(ov)
    ensures Upserted(args, ov, path, root, ev, annotate) == Ok(ov)
  {
  }

  /** A dict target onto anything but a dict, unless the target reads as a list, raises. */
  lemma DictTargetNeedsDict(e: Entries, ov: Tree, path: seq<string>, root: Tree, ev: Evaluator, annotate: bool)
    requires !PretendsList(e) && !ov.Dict?
    ensures Upserted(Dict(e), ov, path, root, ev, annotate) == Annotated(Raise(TypeMismatch), path, annotate)
  {
  }

  // ---------------------------------------------------------------------
  // Dicts of positions

  /** A dict keyed `__IDX__i` is merged as the list holding each value at the position its key names. */
  lemma PretenderAsList(e: Entries, pos: seq<nat>, ov: Tree, path: seq<string>, root: Tree, ev: Evaluator, annotate: bool)
    requires |pos| == |e|
    requires forall k :: 0 <= k < |e| ==> e[k].0 == IndexSegment(pos[k]) && pos[k] < |e|
    requires forall k, l :: 0 <= k < l < |e| ==> pos[k] != pos[l]
    ensures PretenderItems(e).Ok?
    ensures forall k :: 0 <= k < |e| ==> PretenderItems(e).value[pos[k]] == e[k].1
    ensures Upserted(Dict(e), ov, path, root, ev, annotate)
         == Annotated(Upserted(List(PretenderItems(e).value), ov, path, root, ev, annotate), path, annotate)
  {
    PretenderPlaces(e, pos);
  }

  /** An empty dict has no key that is not a position, so it is merged as an empty list. */
  lemma EmptyDictIsList(ov: Tree, path: seq<string>, root: Tree, ev: Evaluator, annotate: bool)
    ensures Upserted(Dict([]), ov, path, root, ev, annotate)
         == Annotated(Upserted(List([]), ov, path, root, ev, annotate), path, annotate)
  {
    assert PretenderItems([]) == Ok([]);
  }

  /** Hence a key that does not name a position cannot be added to an empty dict. */
  lemma EmptyDictRefusesKey(k: string, v: Tree, ev: Evaluator, annotate: bool)
    requires KeyIndex(k).None? && k != SWEEP_LIST_OPERATIONS
    ensures UpsertConfig(Dict([]), Dict([(k, v)]), ev, annotate).Fail?
    ensures UpsertConfig(Dict([]), Dict([(k, v)]), ev, annotate).error.kind == TypeMismatch
  {
    var ov := Dict([(k, v)]);
    assert KeysOf([(k, v)]) == [k];
    assert PretenderItems([]) == Ok([]);
    assert MergeIndexed([], [(k, v)], 0, [], Dict([]), ev, annotate) == Raise(TypeMismatch);
    assert ListStep([], ov, [], Dict([]), ev, annotate) == Raise(TypeMismatch);
    assert DictStep([], ov, [], Dict([]), ev, annotate) == Upserted(List([]), ov, [], Dict([]), ev, annotate);
  }

  /** And a scalar merged into an empty dict at the top leaves an empty list. */
  lemma EmptyDictScalar(ov: Tree, ev: Evaluator, annotate: bool)
    requires !ov.IsContainer()
    ensures UpsertConfig(Dict([]), ov, ev, annotate) == Ok(List([]))
  {
    assert PretenderItems([]) == Ok([]);
    assert Leak(List([])) == None;
    assert ListStep([], ov, [], Dict([]), ev, annotate) == Ok(List([]));
    assert DictStep([], ov, [], Dict([]), ev, annotate) == Upserted(List([]), ov, [], Dict([]), ev, annotate);
  }

  // ---------------------------------------------------------------------
  // List targets

  /** A list overlay must have the target's length. */
  lemma ListLengthMismatch(items: seq<Tree>, vs: seq<Tree>, path: seq<string>, root: Tree, ev: Evaluator, annotate: bool)
    requires |vs| != |items|
    ensures Upserted(List(items), List(vs), path, root, ev, annotate) == Annotated(Raise(ShapeMismatch), path, annotate)
  {
  }

  /** The operations must be a list. */
  lemma OpsMustBeList(items: seq<Tree>, e: Entries, path: seq<string>, root: Tree, ev: Evaluator, annotate: bool)
    requires HasKey(e, SWEEP_LIST_OPERATIONS) && !Lookup(e, SWEEP_LIST_OPERATIONS).value.List?
    ensures Upserted(List(items), Dict(e), path, root, ev, annotate) == Annotated(Raise(MalformedOperation), path, annotate)
  {
  }

  /** `sweep_insert: -1` appends; any other int inserts where `list.insert` does. */
  lemma InsertStep(items: seq<Tree>, ops: seq<Tree>, j: nat, at: Tree, v: Tree, e: Entries, path: seq<string>, root: Tree, ev: Evaluator, annotate: bool)
    requires j < |ops| && HasKey(e, SWEEP_LIST_OPERATIONS)
    requires ops[j] == OpTree(InsertOp(at, v)) && !v.Null? && AsInt(at).Some?
    ensures ApplyOps(items, ops, j, e, path, root, ev, annotate)
         == ApplyOps(if IsMinusOne(at) then items + [v] else Inserted(items, AsInt(at).value, v), ops, j + 1, e, path, root, ev, annotate)
  {
    ParseOpTree(InsertOp(at, v));
  }

  /**
   * `sweep_insert` with an index alone inserts the overlay itself: its other
   * keys, then the operations it had, put back as its last key.
   */
  lemma InsertOverlayStep(items: seq<Tree>, ops: seq<Tree>, j: nat, at: Tree, e: Entries, path: seq<string>, root: Tree, ev: Evaluator, annotate: bool)
    requires j < |ops| && UniqueKeys(e) && HasKey(e, SWEEP_LIST_OPERATIONS)
    requires ops[j] == OpTree(InsertOp(at, Null)) && AsInt(at).Some?
    ensures var x := Dict(Remove(e, SWEEP_LIST_OPERATIONS) + [(SWEEP_LIST_OPERATIONS, List(ops))]);
            ApplyOps(items, ops, j, e, path, root, ev, annotate)
            == ApplyOps(if IsMinusOne(at) then items + [x] else Inserted(items, AsInt(at).value, x), ops, j + 1, e, path, root, ev, annotate)
  {
    ParseOpTree(InsertOp(at, Null));
    SetAbsent(Remove(e, SWEEP_LIST_OPERATIONS), SWEEP_LIST_OPERATIONS, List(ops));
  }

  /** `sweep_overwrite: [i, v]` replaces element `i`, counting from the end when `i` is negative. */
  lemma OverwriteStep(items: seq<Tree>, ops: seq<Tree>, j: nat, i: int, v: Tree, e: Entries, path: seq<string>, root: Tree, ev: Evaluator, annotate: bool)
    requires j < |ops| && HasKey(e, SWEEP_LIST_OPERATIONS)
    requires ops[j] == OpTree(OverwriteOp(Int(i), v)) && !v.Null?
    requires 0 <= i + |items| && i < |items|
    ensures ApplyOps(items, ops, j, e, path, root, ev, annotate)
         == ApplyOps(items[(if i < 0 then i + |items| else i) := v], ops, j + 1, e, path, root, ev, annotate)
  {
    ParseOpTree(OverwriteOp(Int(i), v));
  }

  /**
   * `sweep_overwrite: i` or `[i, None]` merges the overlay, without its
   * operations, into element `i` under the path segment `str(i)`; every other
   * element stays, and a failing merge ends the loop with its error.
   */
  lemma OverwriteMergeStep(items: seq<Tree>, ops: seq<Tree>, j: nat, at: Tree, e: Entries, path: seq<string>, root: Tree, ev: Evaluator, annotate: bool)
    requires j < |ops| && HasKey(e, SWEEP_LIST_OPERATIONS)
    requires ops[j] == OpTree(OverwriteOp(at, Null)) || ops[j] == Dict([(SWEEP_LIST_OVERWRITE, List([at, Null]))])
    requires AsInt(at).Some? && Position(AsInt(at).value, |items|).Some?
    ensures var p := Position(AsInt(at).value, |items|).value;
            var m := Upserted(items[p], Dict(Remove(e, SWEEP_LIST_OPERATIONS)), path + [IntText(at)], root, ev, annotate);
            && (m.Ok? ==> ApplyOps(items, ops, j, e, path, root, ev, annotate) == ApplyOps(items[p := m.value], ops, j + 1, e, path, root, ev, annotate))
            && (m.Fail? ==> ApplyOps(items, ops, j, e, path, root, ev, annotate) == Fail(m.error))
  {
    ParseOpTree(OverwriteOp(at, Null));
    assert ParseOp(ops[j]) == Ok(OverwriteOp(at, Null));
  }

  /** `[{a: 0}]` with `{b: 1, sweep_list_operations: [{sweep_overwrite: 0}]}` gives `[{a: 0, b: 1}]`. */
  lemma OverwriteMergeExample(ev: Evaluator, annotate: bool)
    ensures UpsertConfig(
              List([Dict([("a", Int(0))])]),
              Dict([("b", Int(1)), (SWEEP_LIST_OPERATIONS, List([Dict([(SWEEP_LIST_OVERWRITE, Int(0))])]))]),
              ev, annotate)
         == Ok(List([Dict([("a", Int(0)), ("b", Int(1))])]))
  {
    var items := [Dict([("a", Int(0))])];
    var ops := [Dict([(SWEEP_LIST_OVERWRITE, Int(0))])];
    var e := [("b", Int(1)), (SWEEP_LIST_OPERATIONS, List(ops))];
    var result := [Dict([("a", Int(0)), ("b", Int(1))])];
    OverwriteMergeRest(e, ops);
    OverwriteMergeOps(items, ops, e, List(items), ev, annotate);
    OverwriteMergeNoLeak(result);
    assert ListStep(items, Dict(e), [], List(items), ev, annotate) == Ok(List(result));
  }

  lemma OverwriteMergeNoLeak(result: seq<Tree>)
    requires result == [Dict([("a", Int(0)), ("b", Int(1))])]
    ensures Leak(List(result)) == None
  {
    assert LeakFrom(result[0], 2) == None;
    assert LeakFrom(result[0], 1) == None;
    assert Leak(result[0]) == None;
    assert LeakFrom(List(result), 1) == None;
  }

  lemma OverwriteMergeRest(e: Entries, ops: seq<Tree>)
    requires e == [("b", Int(1)), (SWEEP_LIST_OPERATIONS, List(ops))]
    ensures Lookup(e, SWEEP_LIST_OPERATIONS) == Some(List(ops))
    ensures Remove(e, SWEEP_LIST_OPERATIONS) == [("b", Int(1))]
  {
    assert KeysOf(e) == ["b", SWEEP_LIST_OPERATIONS];
  }

  /** The operations loop of that example. */
  lemma OverwriteMergeOps(items: seq<Tree>, ops: seq<Tree>, e: Entries, root: Tree, ev: Evaluator, annotate: bool)
    requires items == [Dict([("a", Int(0))])]
    requires ops == [Dict([(SWEEP_LIST_OVERWRITE, Int(0))])]
    requires HasKey(e, SWEEP_LIST_OPERATIONS) && Remove(e, SWEEP_LIST_OPERATIONS) == [("b", Int(1))]
    ensures ApplyOps(items, ops, 0, e, [], root, ev, annotate) == Ok([Dict([("a", Int(0)), ("b", Int(1))])])
  {
    var y := Dict([("a", Int(0)), ("b", Int(1))]);
    assert ops[0] == OpTree(OverwriteOp(Int(0), Null));
    OverwriteMergeStep(items, ops, 0, Int(0), e, [], root, ev, annotate);
    OverwriteMergeInner(items[0], Dict(Remove(e, SWEEP_LIST_OPERATIONS)), [] + [IntText(Int(0))], root, ev, annotate);
    assert items[0 := y] == [y];
    assert ApplyOps([y], ops, 1, e, [], root, ev, annotate) == Ok([y]);
  }

  /** Merging `{b: 1}` into `{a: 0}` below the top gives `{a: 0, b: 1}`. */
  lemma OverwriteMergeInner(t: Tree, o: Tree, path: seq<string>, root: Tree, ev: Evaluator, annotate: bool)
    requires t == Dict([("a", Int(0))]) && o == Dict([("b", Int(1))]) && path != []
    ensures Upserted(t, o, path, root, ev, annotate) == Ok(Dict([("a", Int(0)), ("b", Int(1))]))
  {
    assert !StartsWith(t.entries[0].0, IDX_INDICATOR) && !StartsWith("b", SWEEP_GROUP);
    DictOverlaySets(t.entries, "b", Int(1), path, root, ev, annotate);
    assert Set(t.entries, "b", Int(1)) == [("a", Int(0)), ("b", Int(1))];
  }

  /** Removing or overwriting a position the list does not have raises. */
  lemma OutOfRangeRaises(items: seq<Tree>, ops: seq<Tree>, j: nat, i: int, v: Tree, e: Entries, path: seq<string>, root: Tree, ev: Evaluator, annotate: bool)
    requires j < |ops| && HasKey(e, SWEEP_LIST_OPERATIONS)
    requires ops[j] == OpTree(RemoveOp(i)) || ops[j] == OpTree(OverwriteOp(Int(i), v))
    requires i + |items| < 0 || i >= |items|
    ensures ApplyOps(items, ops, j, e, path, root, ev, annotate) == Raise(IndexOutOfRange(i))
  {
    ParseOpTree(RemoveOp(i));
    ParseOpTree(OverwriteOp(Int(i), v));
  }

  /** `sweep_remove: i` deletes element `i`, counting from the end when `i` is negative. */
  lemma RemoveStep(items: seq<Tree>, ops: seq<Tree>, j: nat, i: int, e: Entries, path: seq<string>, root: Tree, ev: Evaluator, annotate: bool)
    requires j < |ops| && HasKey(e, SWEEP_LIST_OPERATIONS)
    requires ops[j] == OpTree(RemoveOp(i))
    requires 0 <= i + |items| && i < |items|
    ensures var p := if i < 0 then i + |items| else i;
            ApplyOps(items, ops, j, e, path, root, ev, annotate)
            == ApplyOps(items[..p] + items[p + 1..], ops, j + 1, e, path, root, ev, annotate)
  {
    ParseOpTree(RemoveOp(i));
  }

  /**
   * An insert with an index alone inserts the overlay itself, and by then the
   * overlay holds `sweep_list_operations` again, so the top-level call raises.
   */
  lemma IndexOnlyInsertLeaks(ev: Evaluator, annotate: bool)
    ensures var r := UpsertConfig(List([]), Dict([(SWEEP_LIST_OPERATIONS, List([OpTree(InsertOp(Int(0), Null))]))]), ev, annotate);
            r.Fail? && r.error.kind == ReservedKeyLeak(SWEEP_LIST_OPERATIONS)
  {
    var ops := [OpTree(InsertOp(Int(0), Null))];
    var e := [(SWEEP_LIST_OPERATIONS, List(ops))];
    assert KeysOf(e) == [SWEEP_LIST_OPERATIONS];
    assert Remove(e, SWEEP_LIST_OPERATIONS) == [];
    InsertOverlayStep([], ops, 0, Int(0), e, [], List([]), ev, annotate);
    var x := Dict(e);
    assert Inserted([], 0, x) == [x];
    assert ApplyOps([], ops, 0, e, [], List([]), ev, annotate) == Ok([x]);
    assert Leak(x) == Some(SWEEP_LIST_OPERATIONS);
    assert Leak(List([x])) == Some(SWEEP_LIST_OPERATIONS);
    assert ListStep([], Dict(e), [], List([]), ev, annotate) == Raise(ReservedKeyLeak(SWEEP_LIST_OPERATIONS));
  }

  /** `[10, 20, 30]` with "remove 0, then insert 99 at 0" gives `[99, 20, 30]`. */
  lemma RemoveThenInsert(ev: Evaluator, annotate: bool)
    ensures UpsertConfig(
              List([Int(10), Int(20), Int(30)]),
              Dict([(SWEEP_LIST_OPERATIONS, List([
                OpTree(RemoveOp(0)),
                OpTree(InsertOp(Int(0), Int(99)))]))]),
              ev, annotate)
         == Ok(List([Int(99), Int(20), Int(30)]))
  {
    var ops := [OpTree(RemoveOp(0)), OpTree(InsertOp(Int(0), Int(99)))];
    var e := [(SWEEP_LIST_OPERATIONS, List(ops))];
    var items := [Int(10), Int(20), Int(30)];
    var result := [Int(99), Int(20), Int(30)];
    assert KeysOf(e) == [SWEEP_LIST_OPERATIONS];
    RemoveThenInsertOps(ops, e, List(items), ev, annotate);
    assert Leak(List(result)) == None by {
      assert LeakFrom(List(result), 3) == None;
      assert LeakFrom(List(result), 2) == None;
      assert LeakFrom(List(result), 1) == None;
    }
    assert ListStep(items, Dict(e), [], List(items), ev, annotate) == Ok(List(result));
  }

  /** The operations loop of that example. */
  lemma RemoveThenInsertOps(ops: seq<Tree>, e: Entries, root: Tree, ev: Evaluator, annotate: bool)
    requires ops == [OpTree(RemoveOp(0)), OpTree(InsertOp(Int(0), Int(99)))] && HasKey(e, SWEEP_LIST_OPERATIONS)
    ensures ApplyOps([Int(10), Int(20), Int(30)], ops, 0, e, [], root, ev, annotate) == Ok([Int(99), Int(20), Int(30)])
  {
    var items := [Int(10), Int(20), Int(30)];
    RemoveStep(items, ops, 0, 0, e, [], root, ev, annotate);
    assert items[..0] + items[1..] == [Int(20), Int(30)];
    InsertStep([Int(20), Int(30)], ops, 1, Int(0), Int(99), e, [], root, ev, annotate);
    assert Inserted([Int(20), Int(30)], 0, Int(99)) == [Int(99), Int(20), Int(30)];
    assert ApplyOps([Int(99), Int(20), Int(30)], ops, 2, e, [], root, ev, annotate) == Ok([Int(99), Int(20), Int(30)]);
  }

  // ---------------------------------------------------------------------
  // The top-level call

  /** A dict key is among the keys of the tree. */
  lemma {:induction false} KeysInFromCovers(e: Entries, i: nat, k: nat)
    requires i <= k < |e|
    ensures e[k].0 in KeysInFrom(Dict(e), i)
    decreases k - i
  {
    if i < k {
      KeysInFromCovers(e, i + 1, k);
    }
  }

  /** At the top, a list target comes back only through the reserved-key check. */
  lemma ListStepTop(items: seq<Tree>, ov: Tree, root: Tree, ev: Evaluator, annotate: bool)
    requires ListStep(items, ov, [], root, ev, annotate).Ok?
    ensures Leak(ListStep(items, ov, [], root, ev, annotate).value).None?
  {
    match ov
    case Dict(e) =>
      if HasKey(e, SWEEP_LIST_OPERATIONS) {
        var ops := Lookup(e, SWEEP_LIST_OPERATIONS).value;
        var a := ApplyOps(items, ops.items, 0, e, [], root, ev, annotate);
        assert ListStep(items, ov, [], root, ev, annotate) == Checked(List(a.value), []);
      } else {
        var a := MergeIndexed(items, e, 0, [], root, ev, annotate);
        assert ListStep(items, ov, [], root, ev, annotate) == Checked(List(a.value), []);
      }
    case List(vs) =>
      var a := MergeList(items, vs, 0, [], root, ev, annotate);
      assert ListStep(items, ov, [], root, ev, annotate) == Checked(List(a.value), []);
    case _ =>
  }

  /** A merged configuration handed back at the top holds no reserved key anywhere. */
  lemma TopLevelNoLeak(args: Tree, ov: Tree, ev: Evaluator, annotate: bool)
    requires UpsertConfig(args, ov, ev, annotate).Ok?
    ensures forall k :: k in KeysIn(UpsertConfig(args, ov, ev, annotate).value) ==> k !in SPECIAL_KEYS
  {
    var r := UpsertConfig(args, ov, ev, annotate).value;
    match args {
      case List(items) =>
        assert ListStep(items, ov, [], args, ev, annotate) == Ok(r);
        ListStepTop(items, ov, args, ev, annotate);
      case Dict(e) =>
        assert DictStep(e, ov, [], args, ev, annotate) == Ok(r);
        if PretendsList(e) {
          assert PretenderItems(e).Ok?;
          var p := PretenderItems(e).value;
          assert Upserted(List(p), ov, [], args, ev, annotate) == Ok(r);
          assert ListStep(p, ov, [], args, ev, annotate) == Ok(r);
          ListStepTop(p, ov, args, ev, annotate);
        } else {
          var rest := Remove(ov.entries, UPSERT_GROUP_IDENTIFIER);
          assert MergeKeys(e, rest, 0, [], args, ev, annotate).Ok?;
          var merged := MergeKeys(e, rest, 0, [], args, ev, annotate).value;
          assert ApplyGroups(Dict(merged), rest, SortKeys(GroupKeys(rest)), 0, [], args, ev, annotate).Ok?;
          var t := ApplyGroups(Dict(merged), rest, SortKeys(GroupKeys(rest)), 0, [], args, ev, annotate).value;
          if !HasKey(ov.entries, UPSERT_GROUP_IDENTIFIER) {
            assert Checked(t, []) == Ok(r);
          } else {
            var ups := Lookup(ov.entries, UPSERT_GROUP_IDENTIFIER).value;
            assert Members(ups).Ok?;
            var ms := Members(ups).value;
            SizeMembers(ups);
            assert ApplyUpserts(t, ups, ms, 0, [], args, ev, annotate).Ok?;
            var t' := ApplyUpserts(t, ups, ms, 0, [], args, ev, annotate).value;
            assert Checked(t', []) == Ok(r);
          }
        }
    }
    LeakSpec(r);
  }

  /** A reserved key an overlay writes into a dict target makes the top-level call raise. */
  lemma ReservedKeyRaises(e: Entries, k: string, v: Tree, ev: Evaluator, annotate: bool)
    requires !PretendsList(e)
    requires k in SPECIAL_KEYS && !StartsWith(k, SWEEP_GROUP) && k != UPSERT_GROUP_IDENTIFIER
    requires !v.IsContainer() && !Computed(v)
    ensures UpsertConfig(Dict(e), Dict([(k, v)]), ev, annotate).Fail?
    ensures UpsertConfig(Dict(e), Dict([(k, v)]), ev, annotate).error.kind.ReservedKeyLeak?
  {
    var r := Set(e, k, v);
    assert Leak(Dict(r)).Some? by {
      var p := KeyPosition(r, k);
      KeysInFromCovers(r, 0, p);
      LeakSpec(Dict(r));
    }
    DictOverlayStep(e, k, v, [], Dict(e), ev, annotate);
    var body := DictStep(e, Dict([(k, v)]), [], Dict(e), ev, annotate);
    assert body.Fail? && body.error.kind.ReservedKeyLeak?;
    assert Upserted(Dict(e), Dict([(k, v)]), [], Dict(e), ev, annotate) == Annotated(body, [], annotate);
  }

  /** With annotation on, an exception raised below key `k` reaches the caller tagged with a path that starts at `k`. */
  lemma NestedFailureTagged(e: Entries, k: string, v: Tree, ev: Evaluator)
    requires !PretendsList(e) && !StartsWith(k, SWEEP_GROUP) && k != UPSERT_GROUP_IDENTIFIER
    requires v.IsContainer() && !EvalDict(v)
    requires Upserted(if HasKey(e, k) then Lookup(e, k).value else Null, v, [k], Dict(e), ev, true).Fail?
    ensures var r := UpsertConfig(Dict(e), Dict([(k, v)]), ev, true);
            && r == Upserted(if HasKey(e, k) then Lookup(e, k).value else Null, v, [k], Dict(e), ev, true)
            && r.error.at.Some? && IsPrefix([k], r.error.at.value)
  {
    var o := [(k, v)];
    var cur := if HasKey(e, k) then Lookup(e, k).value else Null;
    var inner := Upserted(cur, v, [k], Dict(e), ev, true);
    assert KeysOf(o) == [k];
    assert Remove(o, UPSERT_GROUP_IDENTIFIER) == o;
    SizeEntry(o, 0);
    assert [] + [k] == [k];
    assert MergeKeys(e, o, 0, [], Dict(e), ev, true) == Fail(inner.error);
    assert DictStep(e, Dict(o), [], Dict(e), ev, true) == inner;
    assert Upserted(Dict(e), Dict(o), [], Dict(e), ev, true) == Annotated(inner, [], true) == inner;
  }

  /** `{a: []}` with `{a: [1]}` raises the length mismatch tagged with the path `["a"]`, where it was raised. */
  lemma ShapeMismatchTagged(ev: Evaluator)
    ensures UpsertConfig(Dict([("a", List([]))]), Dict([("a", List([Int(1)]))]), ev, true)
         == Fail(Error(ShapeMismatch, Some(["a"])))
  {
    var e := [("a", List([]))];
    assert !StartsWith(e[0].0, IDX_INDICATOR) && !StartsWith("a", SWEEP_GROUP);
    ListLengthMismatch([], [Int(1)], ["a"], Dict(e), ev, true);
    assert Lookup(e, "a") == Some(List([]));
    NestedFailureTagged(e, "a", List([Int(1)]), ev);
  }

  // ---------------------------------------------------------------------
  // Dicts of positions and lists onto a list

  /**
   * One entry of a dict of positions: its key must name a position of the
   * list, counted from the end when negative, and that position alone gets
   * the entry's value, the value merged into it, or the computed value.
   */
  lemma MergeIndexedValue(items: seq<Tree>, e: Entries, j: nat, path: seq<string>, root: Tree, ev: Evaluator, annotate: bool) returns (p: nat, y: Tree)
    requires j < |e|
    requires MergeIndexed(items, e, j, path, root, ev, annotate).Ok?
    ensures KeyIndex(e[j].0).Some? && !EvalDict(e[j].1)
    ensures Position(KeyIndex(e[j].0).value, |items|) == Some(p)
    ensures MergeIndexed(items, e, j, path, root, ev, annotate) == MergeIndexed(items[p := y], e, j + 1, path, root, ev, annotate)
    ensures !e[j].1.IsContainer() && !Computed(e[j].1) ==> y == e[j].1
    ensures e[j].1.IsContainer() ==> Upserted(items[p], e[j].1, path + [IntToString(KeyIndex(e[j].0).value)], root, ev, annotate) == Ok(y)
    ensures Computed(e[j].1) ==> EvalString(ev, e[j].1.s, items[p]) == Ok(y)
  {
    var val := e[j].1;
    var n := KeyIndex(e[j].0).value;
    p := Position(n, |items|).value;
    if val.IsContainer() {
      SizeEntry(e, j);
      y := Upserted(items[p], val, path + [IntToString(n)], root, ev, annotate).value;
    } else if !Computed(val) {
      y := val;
    } else {
      y := EvalString(ev, val.s, items[p]).value;
    }
  }

  /** Whether `key` names position `q` of a list of length `n`. */
  predicate NamesPosition(key: string, n: nat, q: nat) {
    KeyIndex(key).Some? && Position(KeyIndex(key).value, n) == Some(q)
  }

  /** The value of the last entry of `e` that names position `q`, if any. */
  ghost function LastPlaced(e: Entries, n: nat, q: nat): Option<Tree>
    decreases |e|
  {
    if e == [] then None
    else if LastPlaced(e[1..], n, q).Some? then LastPlaced(e[1..], n, q)
    else if NamesPosition(e[0].0, n, q) then Some(e[0].1)
    else None
  }

  /** A value that is neither a container nor to be computed, so an overlay writes it as is. */
  predicate PlainValue(v: Tree) {
    !v.IsContainer() && !Computed(v)
  }

  /** An entry of plain value whose key names some position of a list of length `n`. */
  predicate PlainPlacement(x: (string, Tree), n: nat) {
    KeyIndex(x.0).Some? && Position(KeyIndex(x.0).value, n).Some? && PlainValue(x.1)
  }

  /**
   * A dict of positions with plain values leaves each position holding the
   * value of the last entry naming it, and every other position as it was.
   */
  lemma {:induction false} MergeIndexedPlain(items: seq<Tree>, e: Entries, j: nat, path: seq<string>, root: Tree, ev: Evaluator, annotate: bool)
    requires j <= |e|
    requires forall k :: j <= k < |e| ==> PlainPlacement(e[k], |items|)
    ensures var r := MergeIndexed(items, e, j, path, root, ev, annotate);
            && r.Ok? && |r.value| == |items|
            && forall q :: 0 <= q < |items| ==>
                 r.value[q] == if LastPlaced(e[j..], |items|, q).Some? then LastPlaced(e[j..], |items|, q).value else items[q]
    decreases |e| - j
  {
    if j == |e| {
      assert e[j..] == [];
    } else {
      var n := KeyIndex(e[j].0).value;
      var p := Position(n, |items|).value;
      var items' := items[p := e[j].1];
      assert MergeIndexed(items, e, j, path, root, ev, annotate) == MergeIndexed(items', e, j + 1, path, root, ev, annotate);
      MergeIndexedPlain(items', e, j + 1, path, root, ev, annotate);
      assert e[j..][1..] == e[j + 1..] && e[j..][0] == e[j];
      forall q | 0 <= q < |items|
        ensures NamesPosition(e[j].0, |items|, q) <==> q == p
      {
      }
    }
  }

  /** A computed dict overlay on a list position always raises: its value is written under a key a list refuses, or one never bound. */
  lemma ComputedEntryRaises(items: seq<Tree>, e: Entries, vs: seq<Tree>, j: nat, path: seq<string>, root: Tree, ev: Evaluator, annotate: bool)
    requires j < |e| && j < |vs| == |items|
    ensures KeyIndex(e[j].0).Some? && EvalDict(e[j].1) ==> MergeIndexed(items, e, j, path, root, ev, annotate).Fail?
    ensures EvalDict(vs[j]) ==> MergeList(items, vs, j, path, root, ev, annotate).Fail?
  {
  }

  /** What merging the overlay element `val` into the target element `was` gives: `got`. */
  ghost predicate ElementMerged(was: Tree, val: Tree, got: Tree, path: seq<string>, root: Tree, ev: Evaluator, annotate: bool) {
    if val.IsContainer() then Upserted(was, val, path, root, ev, annotate) == Ok(got)
    else if Computed(val) then EvalString(ev, val.s, was) == Ok(got)
    else got == val
  }

  /**
   * A list overlay of the target's length merges each element `q` into the
   * target's element `q`, under the path segment `q`, independently of the
   * other positions; no element is a computed dict.
   */
  lemma {:induction false} MergeListAt(items: seq<Tree>, vs: seq<Tree>, j: nat, path: seq<string>, root: Tree, ev: Evaluator, annotate: bool)
    requires j <= |vs| == |items|
    requires MergeList(items, vs, j, path, root, ev, annotate).Ok?
    ensures var r := MergeList(items, vs, j, path, root, ev, annotate).value;
            && |r| == |items|
            && (forall q :: 0 <= q < j ==> r[q] == items[q])
            && forall q :: j <= q < |vs| ==>
                 !EvalDict(vs[q]) && ElementMerged(items[q], vs[q], r[q], path + [IntToString(q)], root, ev, annotate)
    decreases |vs| - j
  {
    MergeListKeeps(items, vs, j, path, root, ev, annotate);
    if j < |vs| {
      var y := MergeListValue(items, vs, j, path, root, ev, annotate);
      MergeListKeeps(items[j := y], vs, j + 1, path, root, ev, annotate);
      MergeListAt(items[j := y], vs, j + 1, path, root, ev, annotate);
    }
  }

  /** A list overlay leaves the length and the positions before `j` as they are. */
  lemma {:induction false} MergeListKeeps(items: seq<Tree>, vs: seq<Tree>, j: nat, path: seq<string>, root: Tree, ev: Evaluator, annotate: bool)
    requires j <= |vs| == |items|
    requires MergeList(items, vs, j, path, root, ev, annotate).Ok?
    ensures var r := MergeList(items, vs, j, path, root, ev, annotate).value;
            |r| == |items| && forall q :: 0 <= q < j ==> r[q] == items[q]
    decreases |vs| - j
  {
    if j < |vs| {
      var y := MergeListValue(items, vs, j, path, root, ev, annotate);
      MergeListKeeps(items[j := y], vs, j + 1, path, root, ev, annotate);
    }
  }

  /** One element of a list overlay: the target element `j` alone becomes the merged value. */
  lemma MergeListValue(items: seq<Tree>, vs: seq<Tree>, j: nat, path: seq<string>, root: Tree, ev: Evaluator, annotate: bool) returns (y: Tree)
    requires j < |vs| == |items|
    requires MergeList(items, vs, j, path, root, ev, annotate).Ok?
    ensures !EvalDict(vs[j]) && ElementMerged(items[j], vs[j], y, path + [IntToString(j)], root, ev, annotate)
    ensures MergeList(items, vs, j, path, root, ev, annotate) == MergeList(items[j := y], vs, j + 1, path, root, ev, annotate)
  {
    var val := vs[j];
    if val.IsContainer() {
      SizeItem(vs, j);
      y := Upserted(items[j], val, path + [IntToString(j)], root, ev, annotate).value;
    } else if !Computed(val) {
      y := val;
    } else {
      y := EvalString(ev, val.s, items[j]).value;
    }
  }

  /** A list overlay of plain values merges without error, so by `MergeListAt` it replaces the list. */
  lemma {:induction false} MergeListPlain(items: seq<Tree>, vs: seq<Tree>, j: nat, path: seq<string>, root: Tree, ev: Evaluator, annotate: bool)
    requires j <= |vs| == |items|
    requires forall q :: j <= q < |vs| ==> PlainValue(vs[q])
    ensures MergeList(items, vs, j, path, root, ev, annotate).Ok?
    decreases |vs| - j
  {
    if j < |vs| {
      MergeListPlain(items[j := vs[j]], vs, j + 1, path, root, ev, annotate);
    }
  }

  // ---------------------------------------------------------------------
  // Group overlays

  /** When every group overlay assigns the same key, the one applied last decides it, and nothing else changes. */
  lemma {:induction false} GroupsSet(t: Tree, k: string, rest: Entries, keys: seq<string>, j: nat, path: seq<string>, root: Tree, ev: Evaluator, annotate: bool)
    requires t.Dict? && !PretendsList(t.entries)
    requires !StartsWith(k, SWEEP_GROUP) && k != UPSERT_GROUP_IDENTIFIER
    requires j < |keys|
    requires forall g :: g in keys ==> HasKey(rest, g) && Assigns(Lookup(rest, g).value, k)
    ensures ApplyGroups(t, rest, keys, j, path, root, ev, annotate)
         == Ok(Dict(Set(t.entries, k, Assigned(Lookup(rest, keys[|keys| - 1]).value))))
    decreases |keys| - j
  {
    var v := GroupSetStep(t, k, rest, keys, j, path, root, ev, annotate);
    var t' := Dict(Set(t.entries, k, v));
    if j + 1 < |keys| {
      PretenderKept(t.entries, k, v);
      GroupsSet(t', k, rest, keys, j + 1, path, root, ev, annotate);
      SetTwice(t.entries, k, v, Assigned(Lookup(rest, keys[|keys| - 1]).value));
    } else {
      assert ApplyGroups(t', rest, keys, j + 1, path, root, ev, annotate) == Ok(t');
    }
  }

  /** One group overlay that assigns `k`: it sets `k` and the remaining groups run on the result. */
  lemma GroupSetStep(t: Tree, k: string, rest: Entries, keys: seq<string>, j: nat, path: seq<string>, root: Tree, ev: Evaluator, annotate: bool) returns (v: Tree)
    requires t.Dict? && !PretendsList(t.entries)
    requires !StartsWith(k, SWEEP_GROUP) && k != UPSERT_GROUP_IDENTIFIER
    requires j < |keys|
    requires forall g :: g in keys ==> HasKey(rest, g) && Assigns(Lookup(rest, g).value, k)
    ensures v == Assigned(Lookup(rest, keys[j]).value) && !v.IsContainer() && !Computed(v)
    ensures ApplyGroups(t, rest, keys, j, path, root, ev, annotate)
         == ApplyGroups(Dict(Set(t.entries, k, v)), rest, keys, j + 1, path, root, ev, annotate)
  {
    var g := keys[j];
    assert g in keys;
    v := Lookup(rest, g).value.entries[0].1;
    assert Lookup(rest, g).value == Dict([(k, v)]);
    DictOverlaySets(t.entries, k, v, path + [g], root, ev, annotate);
  }

  /** Ordinary overlay keys of plain value never make the loop over them raise. */
  lemma {:induction false} MergeKeysPlainOk(e: Entries, rest: Entries, j: nat, path: seq<string>, root: Tree, ev: Evaluator, annotate: bool)
    requires j <= |rest|
    requires forall i :: j <= i < |rest| && !StartsWith(rest[i].0, SWEEP_GROUP) ==> PlainValue(rest[i].1)
    ensures MergeKeys(e, rest, j, path, root, ev, annotate).Ok?
    decreases |rest| - j
  {
    if j < |rest| {
      if StartsWith(rest[j].0, SWEEP_GROUP) {
        MergeKeysPlainOk(e, rest, j + 1, path, root, ev, annotate);
      } else {
        MergeKeysPlainOk(Set(e, rest[j].0, rest[j].1), rest, j + 1, path, root, ev, annotate);
      }
    }
  }

  /** The ordinary keys of plain value: each is set to its overlay value, and the rest keep the target's. */
  lemma MergedPlain(e: Entries, o: Entries, path: seq<string>, root: Tree, ev: Evaluator, annotate: bool) returns (merged: Entries)
    requires !PretendsList(e) && UniqueKeys(o)
    requires forall i :: 0 <= i < |o| && !StartsWith(o[i].0, SWEEP_GROUP) ==> PlainValue(o[i].1)
    ensures MergeKeys(e, o, 0, path, root, ev, annotate) == Ok(merged)
    ensures !PretendsList(merged)
    ensures forall k' :: Lookup(merged, k') == if HasKey(o, k') && !StartsWith(k', SWEEP_GROUP) then Lookup(o, k') else Lookup(e, k')
  {
    MergeKeysPlainOk(e, o, 0, path, root, ev, annotate);
    merged := MergeKeys(e, o, 0, path, root, ev, annotate).value;
    MergeKeysUntouched(e, o, 0, path, root, ev, annotate);
    assert o[0..] == o;
    forall k' | HasKey(o, k') && !StartsWith(k', SWEEP_GROUP)
      ensures Lookup(merged, k') == Lookup(o, k')
    {
      var m := KeyPosition(o, k');
      MergeKeysSets(e, o, 0, m, path, root, ev, annotate);
    }
    var i :| 0 <= i < |e| && !StartsWith(e[i].0, IDX_INDICATOR);
    KeysOfIndex(e, i);
    var pm := KeyPosition(merged, e[i].0);
  }

  /** The last of ascending keys that are those of a non-empty sequence is its greatest. */
  lemma GreatestOf(ks: seq<string>, keys: seq<string>) returns (g: string)
    requires ks != [] && Ascending(keys) && forall k :: k in keys <==> k in ks
    ensures keys != [] && g == keys[|keys| - 1]
    ensures g in ks && forall g' :: g' in ks ==> g' == g || Below(g', g)
  {
    assert ks[0] in keys;
    g := keys[|keys| - 1];
    forall g' | g' in ks
      ensures g' == g || Below(g', g)
    {
      assert g' in keys;
      var l :| 0 <= l < |keys| && keys[l] == g';
      AscendingLast(keys, l);
    }
  }

  /** In ascending keys, every key is the last one or below it. */
  lemma AscendingLast(keys: seq<string>, l: nat)
    requires Ascending(keys) && l < |keys|
    ensures keys[l] == keys[|keys| - 1] || Below(keys[l], keys[|keys| - 1])
  {
    if l < |keys| - 1 {
      assert !Below(keys[|keys| - 1], keys[l]);
    }
    BelowTotal(keys[l], keys[|keys| - 1]);
  }

  /** Without an `upsert` list, a dict overlay is its ordinary keys, then its groups, then the check. */
  lemma DictStepNoUpserts(e: Entries, o: Entries, merged: Entries, t: Tree, path: seq<string>, root: Tree, ev: Evaluator, annotate: bool)
    requires !PretendsList(e) && !HasKey(o, UPSERT_GROUP_IDENTIFIER)
    requires MergeKeys(e, o, 0, path, root, ev, annotate) == Ok(merged)
    requires ApplyGroups(Dict(merged), o, SortKeys(GroupKeys(o)), 0, path, root, ev, annotate) == Ok(t)
    ensures DictStep(e, Dict(o), path, root, ev, annotate) == Checked(t, path)
  {
    assert Remove(o, UPSERT_GROUP_IDENTIFIER) == o;
  }

  /**
   * Group overlays apply after the ordinary keys, in sorted key order, each
   * to the result so far: when the ordinary keys hold plain values and every
   * group sets key `k` to a plain value, `k` ends up with the value of the
   * group whose key sorts last; every other ordinary key gets its overlay
   * value and every remaining key keeps the target's.
   */
  lemma GroupsLastWins(e: Entries, o: Entries, k: string, path: seq<string>, root: Tree, ev: Evaluator, annotate: bool) returns (g: string, t: Entries)
    requires !PretendsList(e) && UniqueKeys(o) && !HasKey(o, UPSERT_GROUP_IDENTIFIER)
    requires !StartsWith(k, SWEEP_GROUP) && k != UPSERT_GROUP_IDENTIFIER
    requires forall i :: 0 <= i < |o| ==> if StartsWith(o[i].0, SWEEP_GROUP) then Assigns(o[i].1, k) else PlainValue(o[i].1)
    requires GroupKeys(o) != []
    ensures g in GroupKeys(o) && forall g' :: g' in GroupKeys(o) ==> g' == g || Below(g', g)
    ensures DictStep(e, Dict(o), path, root, ev, annotate) == Checked(Dict(t), path)
    ensures Lookup(t, k) == Some(Assigned(Lookup(o, g).value))
    ensures forall k' :: k' != k ==> Lookup(t, k') == if HasKey(o, k') && !StartsWith(k', SWEEP_GROUP) then Lookup(o, k') else Lookup(e, k')
  {
    var merged := MergedPlain(e, o, path, root, ev, annotate);
    var keys := SortKeys(GroupKeys(o));
    forall g' | g' in keys
      ensures HasKey(o, g') && Assigns(Lookup(o, g').value, k)
    {
      var m := KeyPosition(o, g');
    }
    g := GreatestOf(GroupKeys(o), keys);
    GroupsSet(Dict(merged), k, o, keys, 0, path, root, ev, annotate);
    t := Set(merged, k, Assigned(Lookup(o, g).value));
    DictStepNoUpserts(e, o, merged, Dict(t), path, root, ev, annotate);
  }

  /** Python's `<` on strings that differ first after a common prefix. */
  lemma {:induction false} BelowAfterPrefix(p: string, a: char, b: char)
    requires a < b
    ensures Below(p + [a], p + [b])
    decreases |p|
  {
    if p != [] {
      BelowAfterPrefix(p[1..], a, b);
      assert (p + [a])[1..] == p[1..] + [a];
      assert (p + [b])[1..] == p[1..] + [b];
    }
  }

  /** `{x: 0}` with `{sweep_group_b: {x: 1}, sweep_group_a: {x: 2}}` gives `{x: 1}`: `sweep_group_b` sorts last. */
  lemma GroupOrderExample(ev: Evaluator, annotate: bool)
    ensures UpsertConfig(Dict([("x", Int(0))]),
                         Dict([("sweep_group_b", Dict([("x", Int(1))])), ("sweep_group_a", Dict([("x", Int(2))]))]),
                         ev, annotate)
         == Ok(Dict([("x", Int(1))]))
  {
    var e := [("x", Int(0))];
    var o := [("sweep_group_b", Dict([("x", Int(1))])), ("sweep_group_a", Dict([("x", Int(2))]))];
    GroupOrderStep(e, o, ev, annotate);
    GroupOrderTarget(e);
  }

  lemma GroupOrderStep(e: Entries, o: Entries, ev: Evaluator, annotate: bool)
    requires e == [("x", Int(0))]
    requires o == [("sweep_group_b", Dict([("x", Int(1))])), ("sweep_group_a", Dict([("x", Int(2))]))]
    ensures DictStep(e, Dict(o), [], Dict(e), ev, annotate) == Ok(Dict([("x", Int(1))]))
  {
    var r := Dict([("x", Int(1))]);
    GroupOrderTarget(e);
    assert KeysOf(o) == ["sweep_group_b", "sweep_group_a"];
    GroupOrderMerge(e, o, ev, annotate);
    GroupOrderApply(e, o, ev, annotate);
    DictStepNoUpserts(e, o, e, r, [], Dict(e), ev, annotate);
    NoLeakOne(r);
  }

  lemma NoLeakOne(r: Tree)
    requires r == Dict([("x", Int(1))])
    ensures Leak(r) == None
  {
    assert LeakFrom(r, 1) == None;
  }

  /** The groups of that overlay sort as `sweep_group_a`, `sweep_group_b`, and the later one decides `x`. */
  lemma GroupOrderApply(e: Entries, o: Entries, ev: Evaluator, annotate: bool)
    requires e == [("x", Int(0))]
    requires o == [("sweep_group_b", Dict([("x", Int(1))])), ("sweep_group_a", Dict([("x", Int(2))]))]
    ensures ApplyGroups(Dict(e), o, SortKeys(GroupKeys(o)), 0, [], Dict(e), ev, annotate) == Ok(Dict([("x", Int(1))]))
  {
    GroupOrderSorted(o);
    GroupOrderAssigns(o);
    GroupOrderTarget(e);
    var keys: seq<string> := ["sweep_group_a", "sweep_group_b"];
    GroupsSet(Dict(e), "x", o, keys, 0, [], Dict(e), ev, annotate);
    assert Assigned(Lookup(o, keys[|keys| - 1]).value) == Int(1);
  }

  lemma GroupOrderAssigns(o: Entries)
    requires o == [("sweep_group_b", Dict([("x", Int(1))])), ("sweep_group_a", Dict([("x", Int(2))]))]
    ensures forall g :: g in ["sweep_group_a", "sweep_group_b"] ==> HasKey(o, g) && Assigns(Lookup(o, g).value, "x")
  {
    assert KeysOf(o) == ["sweep_group_b", "sweep_group_a"];
    assert Lookup(o, "sweep_group_b") == Some(Dict([("x", Int(1))]));
    assert Lookup(o, "sweep_group_a") == Some(Dict([("x", Int(2))]));
  }

  lemma GroupOrderTarget(e: Entries)
    requires e == [("x", Int(0))]
    ensures !PretendsList(e) && !StartsWith("x", SWEEP_GROUP) && Set(e, "x", Int(1)) == [("x", Int(1))]
  {
    assert !StartsWith(e[0].0, IDX_INDICATOR);
  }

  lemma GroupOrderSorted(o: Entries)
    requires o == [("sweep_group_b", Dict([("x", Int(1))])), ("sweep_group_a", Dict([("x", Int(2))]))]
    ensures SortKeys(GroupKeys(o)) == ["sweep_group_a", "sweep_group_b"]
  {
    var ga: string := "sweep_group_a";
    var gb: string := "sweep_group_b";
    GroupOrderKeys(o, ga, gb);
    assert ga == "sweep_group_" + ['a'] && gb == "sweep_group_" + ['b'];
    BelowAfterPrefix("sweep_group_", 'a', 'b');
    SortTwo(ga, gb);
  }

  lemma GroupOrderKeys(o: Entries, ga: string, gb: string)
    requires ga == "sweep_group_a" && gb == "sweep_group_b"
    requires o == [(gb, Dict([("x", Int(1))])), (ga, Dict([("x", Int(2))]))]
    ensures GroupKeys(o) == [gb, ga]
  {
    assert StartsWith(ga, SWEEP_GROUP) && StartsWith(gb, SWEEP_GROUP);
    assert o[1..] == [(ga, Dict([("x", Int(2))]))];
    assert o[1..][1..] == [];
    assert GroupKeys(o[1..][1..]) == [];
    assert GroupKeys(o[1..]) == [ga];
  }

  /** Two keys out of order are swapped. */
  lemma SortTwo(a: string, b: string)
    requires Below(a, b)
    ensures SortKeys([b, a]) == [a, b]
  {
    BelowAsymmetric(a, b);
    assert [b, a][1..] == [a];
    assert SortKeys([a]) == [a];
    assert Insort(b, [a]) == [a, b];
  }

  /** Neither key of that overlay is ordinary, so the loop over ordinary keys changes nothing. */
  lemma GroupOrderMerge(e: Entries, o: Entries, ev: Evaluator, annotate: bool)
    requires o == [("sweep_group_b", Dict([("x", Int(1))])), ("sweep_group_a", Dict([("x", Int(2))]))]
    ensures MergeKeys(e, o, 0, [], Dict(e), ev, annotate) == Ok(e)
  {
    assert StartsWith(o[0].0, SWEEP_GROUP) && StartsWith(o[1].0, SWEEP_GROUP);
    assert MergeKeys(e, o, 1, [], Dict(e), ev, annotate) == Ok(e);
  }
}
