// `upsert_config` as the program runs it: one process-wide flag,
// `EXCEPTION_OCCURED`, that the first handler an exception reaches sets, and
// loops that edit the target step by step and recurse into smaller overlays.
// Every method is proved to compute what the `Merge` functions define and to
// leave the flag set exactly when an exception was tagged.
module Merger {
  import opened Trees
  import opened PathCodec
  import opened Compression
  import opened MergeBasics
  import opened Merge

  /** Collecting group keys entry by entry gives the group keys of the whole overlay. */
  lemma {:induction false} GroupKeysAppend(e: Entries, x: (string, Tree))
    ensures GroupKeys(e + [x]) == GroupKeys(e) + (if StartsWith(x.0, SWEEP_GROUP) then [x.0] else [])
  {
    if e == [] {
      assert e + [x] == [x];
      GroupKeysCons([x]);
    } else {
      var s := e + [x];
      assert s[0] == e[0] && s[1..] == e[1..] + [x];
      GroupKeysAppend(e[1..], x);
      GroupKeysCons(s);
      GroupKeysCons(e);
    }
  }

  lemma GroupKeysCons(e: Entries)
    requires e != []
    ensures GroupKeys(e) == (if StartsWith(e[0].0, SWEEP_GROUP) then [e[0].0] else []) + GroupKeys(e[1..])
  {
  }

  /** The group keys of the first `j + 1` entries. */
  lemma GroupKeysPrefix(rest: Entries, j: nat)
    requires j < |rest|
    ensures GroupKeys(rest[..j + 1]) == GroupKeys(rest[..j]) + (if StartsWith(rest[j].0, SWEEP_GROUP) then [rest[j].0] else [])
  {
    assert rest[..j + 1] == rest[..j] + [rest[j]];
    GroupKeysAppend(rest[..j], rest[j]);
  }

  /** A group key is passed over by the loop over ordinary keys. */
  lemma MergeKeysSkip(e: Entries, rest: Entries, j: nat, path: seq<string>, root: Tree, ev: Evaluator, annotate: bool)
    requires j < |rest| && StartsWith(rest[j].0, SWEEP_GROUP)
    ensures MergeKeys(e, rest, j, path, root, ev, annotate) == MergeKeys(e, rest, j + 1, path, root, ev, annotate)
  {
  }

  /** One `upsert` entry: its outcome ends the loop or is what the rest of the loop starts from. */
  lemma ApplyUpsertsNext(t: Tree, ups: Tree, ms: seq<Tree>, j: nat, path: seq<string>, root: Tree, ev: Evaluator, annotate: bool, y: Res<Tree>)
    requires j < |ms| && forall k :: 0 <= k < |ms| ==> Size(ms[k]) <= Size(ups)
    requires y == Upserted(t, ms[j], path + [UPSERT_GROUP_IDENTIFIER + "-" + IntToString(j)], root, ev, annotate)
    ensures y.Fail? ==> ApplyUpserts(t, ups, ms, j, path, root, ev, annotate) == Fail(y.error)
    ensures y.Ok? ==> ApplyUpserts(t, ups, ms, j, path, root, ev, annotate) == ApplyUpserts(y.value, ups, ms, j + 1, path, root, ev, annotate)
  {
  }

  /** One group overlay, likewise. */
  lemma ApplyGroupsNext(t: Tree, rest: Entries, keys: seq<string>, j: nat, path: seq<string>, root: Tree, ev: Evaluator, annotate: bool, y: Res<Tree>)
    requires j < |keys| && forall k :: k in keys ==> HasKey(rest, k)
    requires y == Upserted(t, Lookup(rest, keys[j]).value, path + [keys[j]], root, ev, annotate)
    ensures y.Fail? ==> ApplyGroups(t, rest, keys, j, path, root, ev, annotate) == Fail(y.error)
    ensures y.Ok? ==> ApplyGroups(t, rest, keys, j, path, root, ev, annotate) == ApplyGroups(y.value, rest, keys, j + 1, path, root, ev, annotate)
  {
  }

  class Merger {
    /** `EXCEPTION_OCCURED`: whether some exception has already been tagged with its path. */
    var exceptionOccured: bool

    /** The state at import time. */
    constructor ()
      ensures !exceptionOccured
    {
      exceptionOccured := false;
    }

    /**
     * `upsert_config(args, sweep_config)` as it is called from outside. A
     * failure is tagged with its path unless one was tagged before; the flag
     * records that it happened.
     */
    method Upsert(args: Tree, ov: Tree, ev: Evaluator) returns (r: Res<Tree>)
      modifies this
      ensures r == UpsertConfig(args, ov, ev, !old(exceptionOccured))
      ensures exceptionOccured == (old(exceptionOccured) || (r.Fail? && r.error.at.Some?))
    {
      if !args.IsContainer() {
        // copying `args` into `root_args` fails before the handler is entered
        return Raise(TypeMismatch);
      }
      r := UpsertAt(args, ov, [], args, ev);
    }

    /** One call of `upsert_config`, with its handler. */
    method UpsertAt(args: Tree, ov: Tree, path: seq<string>, root: Tree, ev: Evaluator) returns (r: Res<Tree>)
      modifies this
      ensures r == Upserted(args, ov, path, root, ev, !old(exceptionOccured))
      ensures exceptionOccured == (old(exceptionOccured) || (r.Fail? && r.error.at.Some?))
      decreases Size(ov), if args.Dict? then 5 else 3
    {
      var body: Res<Tree>;
      match args {
        case List(items) =>
          body := ListTarget(items, ov, path, root, ev);
        case Dict(e) =>
          body := DictTarget(e, ov, path, root, ev);
        case _ =>
          if Computed(ov) {
            body := EvalString(ev, ov.s, args);
          } else {
            body := Ok(ov);
          }
      }
      if body.Fail? && !exceptionOccured {
        exceptionOccured := true;
        r := Fail(Error(body.error.kind, Some(path)));
      } else {
        r := body;
      }
    }

    /** The branch for a list target. */
    method ListTarget(items: seq<Tree>, ov: Tree, path: seq<string>, root: Tree, ev: Evaluator) returns (r: Res<Tree>)
      modifies this
      ensures r == ListStep(items, ov, path, root, ev, !old(exceptionOccured))
      ensures exceptionOccured == (old(exceptionOccured) || (r.Fail? && r.error.at.Some?))
      decreases Size(ov), 2
    {
      match ov {
        case Dict(e) =>
          var edited: Res<seq<Tree>>;
          if HasKey(e, SWEEP_LIST_OPERATIONS) {
            var ops := Lookup(e, SWEEP_LIST_OPERATIONS).value;
            if !ops.List? {
              return Raise(MalformedOperation);
            }
            edited := RunOps(items, ops.items, e, path, root, ev);
          } else {
            edited := RunIndexed(items, e, path, root, ev);
          }
          if edited.Fail? {
            return Fail(edited.error);
          }
          r := Checked(List(edited.value), path);
        case List(vs) =>
          if |vs| != |items| {
            return Raise(ShapeMismatch);
          }
          var edited := RunList(items, vs, path, root, ev);
          if edited.Fail? {
            return Fail(edited.error);
          }
          r := Checked(List(edited.value), path);
        case _ =>
          r := Checked(List(items), path);
      }
    }

    /** The loop over `sweep_list_operations`, editing the list in order. */
    method RunOps(items0: seq<Tree>, ops: seq<Tree>, e: Entries, path: seq<string>, root: Tree, ev: Evaluator) returns (r: Res<seq<Tree>>)
      requires HasKey(e, SWEEP_LIST_OPERATIONS)
      modifies this
      ensures r == ApplyOps(items0, ops, 0, e, path, root, ev, !old(exceptionOccured))
      ensures exceptionOccured == (old(exceptionOccured) || (r.Fail? && r.error.at.Some?))
      decreases Size(Dict(e)), 1, 1
    {
      var annotate := !exceptionOccured;
      var items := items0;
      var j := 0;
      while j < |ops|
        invariant 0 <= j <= |ops|
        invariant exceptionOccured == old(exceptionOccured)
        invariant ApplyOps(items, ops, j, e, path, root, ev, annotate) == ApplyOps(items0, ops, 0, e, path, root, ev, annotate)
      {
        var op := ParseOp(ops[j]);
        if op.Fail? {
          return Fail(op.error);
        }
        var next := RunOp(items, ops, j, op.value, e, path, root, ev);
        if next.Fail? {
          return next;
        }
        items := next.value;
        j := j + 1;
      }
      r := Ok(items);
    }

    /** One operation of the loop: the edited list, or the exception that ends the loop. */
    method RunOp(items: seq<Tree>, ops: seq<Tree>, j: nat, o: Op, e: Entries, path: seq<string>, root: Tree, ev: Evaluator) returns (r: Res<seq<Tree>>)
      requires j < |ops| && ParseOp(ops[j]) == Ok(o) && HasKey(e, SWEEP_LIST_OPERATIONS)
      modifies this
      ensures r.Fail? ==> r == ApplyOps(items, ops, j, e, path, root, ev, !old(exceptionOccured))
      ensures r.Ok? ==> ApplyOps(r.value, ops, j + 1, e, path, root, ev, !old(exceptionOccured))
                        == ApplyOps(items, ops, j, e, path, root, ev, !old(exceptionOccured))
      ensures exceptionOccured == (old(exceptionOccured) || (r.Fail? && r.error.at.Some?))
      decreases Size(Dict(e)), 1, 0
    {
      var rest := Remove(e, SWEEP_LIST_OPERATIONS);
      match o {
        case InsertOp(at, val) =>
          // an insert without a value inserts the overlay, whose operations are put back by then
          var x := if val.Null? then Dict(Set(rest, SWEEP_LIST_OPERATIONS, List(ops))) else val;
          if IsMinusOne(at) {
            r := Ok(items + [x]);
          } else if AsInt(at).None? {
            r := Raise(TypeMismatch);
          } else {
            r := Ok(Inserted(items, AsInt(at).value, x));
          }
        case OverwriteOp(at, val) =>
          if AsInt(at).None? {
            return Raise(TypeMismatch);
          }
          var p := Position(AsInt(at).value, |items|);
          if p.None? {
            return Raise(IndexOutOfRange(AsInt(at).value));
          }
          if val.Null? {
            SizeRemove(e, SWEEP_LIST_OPERATIONS);
            var y := UpsertAt(items[p.value], Dict(rest), path + [IntText(at)], root, ev);
            if y.Fail? {
              return Fail(y.error);
            }
            r := Ok(items[p.value := y.value]);
          } else {
            r := Ok(items[p.value := val]);
          }
        case RemoveOp(i) =>
          var p := Position(i, |items|);
          if p.None? {
            return Raise(IndexOutOfRange(i));
          }
          r := Ok(items[..p.value] + items[p.value + 1..]);
      }
    }

    /** The loop over a dict overlay on a list, whose keys name positions. */
    method RunIndexed(items0: seq<Tree>, e: Entries, path: seq<string>, root: Tree, ev: Evaluator) returns (r: Res<seq<Tree>>)
      modifies this
      ensures r == MergeIndexed(items0, e, 0, path, root, ev, !old(exceptionOccured))
      ensures exceptionOccured == (old(exceptionOccured) || (r.Fail? && r.error.at.Some?))
      decreases Size(Dict(e)), 1, 1
    {
      var annotate := !exceptionOccured;
      var items := items0;
      var j := 0;
      while j < |e|
        invariant 0 <= j <= |e|
        invariant exceptionOccured == old(exceptionOccured)
        invariant MergeIndexed(items, e, j, path, root, ev, annotate) == MergeIndexed(items0, e, 0, path, root, ev, annotate)
      {
        var next := RunIndexedEntry(items, e, j, path, root, ev);
        if next.Fail? {
          return next;
        }
        items := next.value;
        j := j + 1;
      }
      r := Ok(items);
    }

    /** One entry of a dict overlay on a list. */
    method RunIndexedEntry(items: seq<Tree>, e: Entries, j: nat, path: seq<string>, root: Tree, ev: Evaluator) returns (r: Res<seq<Tree>>)
      requires j < |e|
      modifies this
      ensures r.Fail? ==> r == MergeIndexed(items, e, j, path, root, ev, !old(exceptionOccured))
      ensures r.Ok? ==> MergeIndexed(r.value, e, j + 1, path, root, ev, !old(exceptionOccured))
                        == MergeIndexed(items, e, j, path, root, ev, !old(exceptionOccured))
      ensures exceptionOccured == (old(exceptionOccured) || (r.Fail? && r.error.at.Some?))
      decreases Size(Dict(e)), 1, 0
    {
      var (key, val) := e[j];
      var n := KeyIndex(key);
      if n.None? {
        return Raise(TypeMismatch);
      }
      if EvalDict(val) {
        var y := EvalSpec(ev, Lookup(val.entries, SWEEP_OPERATION_VAL).value, root);
        if y.Fail? {
          return Fail(y.error);
        }
        // the value is stored under the string key, which a list refuses
        return Raise(TypeMismatch);
      }
      if Computed(val) && SearchEval(val.s, 0).None? {
        return Raise(NoExpression);
      }
      var p := Position(n.value, |items|);
      if p.None? {
        return Raise(IndexOutOfRange(n.value));
      }
      var y: Res<Tree>;
      if val.IsContainer() {
        SizeEntry(e, j);
        y := UpsertAt(items[p.value], val, path + [IntToString(n.value)], root, ev);
      } else if !Computed(val) {
        y := Ok(val);
      } else {
        y := EvalString(ev, val.s, items[p.value]);
      }
      if y.Fail? {
        return Fail(y.error);
      }
      r := Ok(items[p.value := y.value]);
    }

    /** The loop over a list overlay of the target's length. */
    method RunList(items0: seq<Tree>, vs: seq<Tree>, path: seq<string>, root: Tree, ev: Evaluator) returns (r: Res<seq<Tree>>)
      requires |vs| == |items0|
      modifies this
      ensures r == MergeList(items0, vs, 0, path, root, ev, !old(exceptionOccured))
      ensures exceptionOccured == (old(exceptionOccured) || (r.Fail? && r.error.at.Some?))
      decreases Size(List(vs)), 1
    {
      var annotate := !exceptionOccured;
      var items := items0;
      var j := 0;
      while j < |vs|
        invariant 0 <= j <= |vs| && |items| == |vs|
        invariant exceptionOccured == old(exceptionOccured)
        invariant MergeList(items, vs, j, path, root, ev, annotate) == MergeList(items0, vs, 0, path, root, ev, annotate)
      {
        var val := vs[j];
        if EvalDict(val) {
          var y := EvalSpec(ev, Lookup(val.entries, SWEEP_OPERATION_VAL).value, root);
          if y.Fail? {
            return Fail(y.error);
          }
          // the value is stored under a name this branch never binds
          return Raise(TypeMismatch);
        }
        var y: Res<Tree>;
        if val.IsContainer() {
          SizeItem(vs, j);
          y := UpsertAt(items[j], val, path + [IntToString(j)], root, ev);
        } else if !Computed(val) {
          y := Ok(val);
        } else {
          y := EvalString(ev, val.s, items[j]);
        }
        if y.Fail? {
          return Fail(y.error);
        }
        items := items[j := y.value];
        j := j + 1;
      }
      r := Ok(items);
    }

    /** The branch for a dict target. */
    method DictTarget(e: Entries, ov: Tree, path: seq<string>, root: Tree, ev: Evaluator) returns (r: Res<Tree>)
      modifies this
      ensures r == DictStep(e, ov, path, root, ev, !old(exceptionOccured))
      ensures exceptionOccured == (old(exceptionOccured) || (r.Fail? && r.error.at.Some?))
      decreases Size(ov), 4
    {
      var pretends := IsListPretender(e);
      if pretends {
        var items := ListFromPretender(e);
        if items.Fail? {
          return Fail(items.error);
        }
        r := UpsertAt(List(items.value), ov, path, root, ev);
        return;
      }
      if !ov.Dict? {
        return Raise(TypeMismatch);
      }
      var hasUpserts := HasKey(ov.entries, UPSERT_GROUP_IDENTIFIER);
      var rest := Remove(ov.entries, UPSERT_GROUP_IDENTIFIER);
      SizeRemove(ov.entries, UPSERT_GROUP_IDENTIFIER);
      var merged := RunKeys(e, rest, path, root, ev);
      if merged.Fail? {
        return Fail(merged.error);
      }
      var (e', groups) := merged.value;
      var grouped := RunGroups(Dict(e'), rest, SortKeys(groups), path, root, ev);
      if grouped.Fail? {
        return Fail(grouped.error);
      }
      if !hasUpserts {
        return Checked(grouped.value, path);
      }
      var ups := Lookup(ov.entries, UPSERT_GROUP_IDENTIFIER).value;
      var ms := Members(ups);
      if ms.Fail? {
        return Fail(ms.error);
      }
      SizeLookup(ov.entries, UPSERT_GROUP_IDENTIFIER);
      SizeMembers(ups);
      var upserted := RunUpserts(grouped.value, ups, ms.value, path, root, ev);
      if upserted.Fail? {
        return Fail(upserted.error);
      }
      r := Checked(upserted.value, path);
    }

    /**
     * The loop over the overlay's keys: group keys are collected for later,
     * every other key is merged in.
     */
    method RunKeys(e0: Entries, rest: Entries, path: seq<string>, root: Tree, ev: Evaluator) returns (r: Res<(Entries, seq<string>)>)
      modifies this
      ensures (if r.Ok? then Ok(r.value.0) else Fail(r.error)) == MergeKeys(e0, rest, 0, path, root, ev, !old(exceptionOccured))
      ensures r.Ok? ==> r.value.1 == GroupKeys(rest)
      ensures exceptionOccured == (old(exceptionOccured) || (r.Fail? && r.error.at.Some?))
      decreases Size(Dict(rest)), 1, 1
    {
      var annotate := !exceptionOccured;
      var e := e0;
      var groups: seq<string> := [];
      var j := 0;
      while j < |rest|
        invariant 0 <= j <= |rest|
        invariant exceptionOccured == old(exceptionOccured)
        invariant MergeKeys(e, rest, j, path, root, ev, annotate) == MergeKeys(e0, rest, 0, path, root, ev, annotate)
        invariant groups == GroupKeys(rest[..j])
      {
        GroupKeysPrefix(rest, j);
        if StartsWith(rest[j].0, SWEEP_GROUP) {
          MergeKeysSkip(e, rest, j, path, root, ev, annotate);
          groups := groups + [rest[j].0];
        } else {
          var next := RunKey(e, rest, j, path, root, ev);
          if next.Fail? {
            return Fail(next.error);
          }
          e := next.value;
        }
        j := j + 1;
      }
      assert rest[..j] == rest;
      r := Ok((e, groups));
    }

    /** One ordinary key: a missing key is first set to None, then given its merged value. */
    method RunKey(e0: Entries, rest: Entries, j: nat, path: seq<string>, root: Tree, ev: Evaluator) returns (r: Res<Entries>)
      requires j < |rest| && !StartsWith(rest[j].0, SWEEP_GROUP)
      modifies this
      ensures r.Fail? ==> r == MergeKeys(e0, rest, j, path, root, ev, !old(exceptionOccured))
      ensures r.Ok? ==> MergeKeys(r.value, rest, j + 1, path, root, ev, !old(exceptionOccured))
                        == MergeKeys(e0, rest, j, path, root, ev, !old(exceptionOccured))
      ensures exceptionOccured == (old(exceptionOccured) || (r.Fail? && r.error.at.Some?))
      decreases Size(Dict(rest)), 1, 0
    {
      var (key, val) := rest[j];
      var e := e0;
      if !HasKey(e, key) {
        e := Set(e, key, Null);
      }
      var cur := Lookup(e, key).value;
      assert cur == if HasKey(e0, key) then Lookup(e0, key).value else Null;
      var y: Res<Tree>;
      if EvalDict(val) {
        y := EvalSpec(ev, Lookup(val.entries, SWEEP_OPERATION_VAL).value, root);
      } else if val.IsContainer() {
        SizeEntry(rest, j);
        y := UpsertAt(cur, val, path + [key], root, ev);
      } else if !Computed(val) {
        y := Ok(val);
      } else {
        y := EvalString(ev, val.s, cur);
      }
      if y.Fail? {
        return Fail(y.error);
      }
      SetTwice(e0, key, Null, y.value);
      r := Ok(Set(e, key, y.value));
    }

    /** The loop over the sorted group keys: each overlay applies to the result so far. */
    method RunGroups(t0: Tree, rest: Entries, keys: seq<string>, path: seq<string>, root: Tree, ev: Evaluator) returns (r: Res<Tree>)
      requires forall k :: k in keys ==> HasKey(rest, k)
      modifies this
      ensures r == ApplyGroups(t0, rest, keys, 0, path, root, ev, !old(exceptionOccured))
      ensures exceptionOccured == (old(exceptionOccured) || (r.Fail? && r.error.at.Some?))
      decreases Size(Dict(rest)), 1
    {
      var annotate := !exceptionOccured;
      var t := t0;
      var j := 0;
      while j < |keys|
        invariant 0 <= j <= |keys|
        invariant exceptionOccured == old(exceptionOccured)
        invariant ApplyGroups(t, rest, keys, j, path, root, ev, annotate) == ApplyGroups(t0, rest, keys, 0, path, root, ev, annotate)
      {
        SizeLookup(rest, keys[j]);
        var y := UpsertAt(t, Lookup(rest, keys[j]).value, path + [keys[j]], root, ev);
        ApplyGroupsNext(t, rest, keys, j, path, root, ev, annotate, y);
        if y.Fail? {
          return Fail(y.error);
        }
        t := y.value;
        j := j + 1;
      }
      r := Ok(t);
    }

    /** The loop over the `upsert` entries, in order. */
    method RunUpserts(t0: Tree, ups: Tree, ms: seq<Tree>, path: seq<string>, root: Tree, ev: Evaluator) returns (r: Res<Tree>)
      requires forall k :: 0 <= k < |ms| ==> Size(ms[k]) <= Size(ups)
      modifies this
      ensures r == ApplyUpserts(t0, ups, ms, 0, path, root, ev, !old(exceptionOccured))
      ensures exceptionOccured == (old(exceptionOccured) || (r.Fail? && r.error.at.Some?))
      decreases Size(ups), 6
    {
      var annotate := !exceptionOccured;
      var t := t0;
      var j := 0;
      while j < |ms|
        invariant 0 <= j <= |ms|
        invariant exceptionOccured == old(exceptionOccured)
        invariant ApplyUpserts(t, ups, ms, j, path, root, ev, annotate) == ApplyUpserts(t0, ups, ms, 0, path, root, ev, annotate)
      {
        var y := UpsertAt(t, ms[j], path + [UPSERT_GROUP_IDENTIFIER + "-" + IntToString(j)], root, ev);
        ApplyUpsertsNext(t, ups, ms, j, path, root, ev, annotate, y);
        if y.Fail? {
          return Fail(y.error);
        }
        t := y.value;
        j := j + 1;
      }
      r := Ok(t);
    }

    /** `is_list_pretender`: cleared by the first key that does not start with the index indicator. */
    static method IsListPretender(e: Entries) returns (b: bool)
      ensures b <==> PretendsList(e)
    {
      b := true;
      var i := 0;
      while i < |e|
        invariant 0 <= i <= |e|
        invariant b <==> forall q :: 0 <= q < i ==> StartsWith(e[q].0, IDX_INDICATOR)
      {
        if !StartsWith(e[i].0, IDX_INDICATOR) {
          b := false;
        }
        i := i + 1;
      }
    }

    /** `true_args`: as many Nones as keys, then each value at the position its key names. */
    static method ListFromPretender(e: Entries) returns (r: Res<seq<Tree>>)
      ensures r == PretenderItems(e)
      ensures r.Ok? ==> |r.value| == |e|
    {
      var items: seq<Tree> := seq(|e|, _ => Null);
      var i := 0;
      while i < |e|
        invariant 0 <= i <= |e| && |items| == |e|
        invariant PretenderFrom(e, i, items) == PretenderItems(e)
      {
        var n := KeyIndex(e[i].0);
        if n.None? {
          return Raise(TypeMismatch);
        }
        var p := Position(n.value, |items|);
        if p.None? {
          return Raise(IndexOutOfRange(n.value));
        }
        items := items[p.value := e[i].1];
        i := i + 1;
      }
      r := Ok(items);
    }
  }
}
