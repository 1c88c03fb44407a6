// `upsert_config`: overlaying a sweep selection onto a configuration. The
// overlay replaces scalars, merges into dicts key by key, edits lists by
// position or by explicit operations, applies `sweep_group*` overlays in key
// order and the `upsert` list last, and at the top the result must not
// contain a reserved key. Each function is one loop of the source; together
// they recurse on a smaller overlay.
module Merge {
  import opened Trees
  import opened PathCodec
  import opened Compression
  import opened MergeBasics

  /**
   * The handler every call wraps its body in: the first handler an exception
   * reaches tags it with that call's path, unless an exception was tagged
   * earlier in the process (`annotate` is false then).
   */
  function Annotated<T>(r: Res<T>, path: seq<string>, annotate: bool): (a: Res<T>)
    ensures r.Ok? ==> a == r
    ensures r.Fail? ==> a.Fail? && a.error.kind == r.error.kind
    ensures r.Fail? ==> (a.error.at.Some? <==> r.error.at.Some? || annotate)
    ensures r.Fail? && r.error.at.None? && annotate ==> a == Fail(Error(r.error.kind, Some(path)))
    ensures r.Fail? && (r.error.at.Some? || !annotate) ==> a == r
  {
    if r.Fail? && annotate && r.error.at.None? then Fail(Error(r.error.kind, Some(path))) else r
  }

  /** The reserved-key check the top-level call (the empty path) makes before it returns. */
  function Checked(t: Tree, path: seq<string>): (r: Res<Tree>)
    ensures r.Ok? ==> r.value == t
    ensures r.Fail? <==> path == [] && Leak(t).Some?
    ensures r.Fail? ==> r.error == Error(ReservedKeyLeak(Leak(t).value), None)
  {
    if path == [] && Leak(t).Some? then Raise(ReservedKeyLeak(Leak(t).value)) else Ok(t)
  }

  /** A value written as a string that mentions `dy_eval`, to be computed rather than copied. */
  predicate Computed(val: Tree) {
    val.Str? && Contains(val.s, SWEEP_OPERATION_VAL)
  }

  /** A dict overlay that asks for its value to be computed from the root configuration. */
  predicate EvalDict(val: Tree) {
    val.Dict? && HasKey(val.entries, SWEEP_OPERATION_VAL)
  }

  /** `dy.eval(expr)(arg)` for the expression inside a `dy_eval(...)` string. */
  function EvalString(ev: Evaluator, s: string, arg: Tree): (r: Res<Tree>)
    ensures r.Fail? ==> r.error.at.None?
    ensures r == Raise(NoExpression) <==> forall j, x :: !CallAt(s, j, x)
    ensures SearchEval(s, 0).Some? ==> r == Evaluated(ev, Str(SearchEval(s, 0).value), arg)
  {
    match SearchEval(s, 0)
    case None => Raise(NoExpression)
    case Some(x) => Evaluated(ev, Str(x), arg)
  }

  /**
   * `upsert_config(args, ov, path, root)`: the value `args` becomes, or the
   * exception, tagged by the innermost handler when `annotate` holds.
   */
  function Upserted(args: Tree, ov: Tree, path: seq<string>, root: Tree, ev: Evaluator, annotate: bool): (r: Res<Tree>)
    ensures !annotate && r.Fail? ==> r.error.at.None?
    ensures annotate && r.Fail? ==> r.error.at.Some?
    ensures r.Fail? && r.error.at.Some? ==> IsPrefix(path, r.error.at.value)
    decreases Size(ov), if args.Dict? then 5 else 3, 0
  {
    var body :=
      match args
      case List(items) => ListStep(items, ov, path, root, ev, annotate)
      case Dict(e) => DictStep(e, ov, path, root, ev, annotate)
      case _ => if Computed(ov) then EvalString(ev, ov.s, args) else Ok(ov);
    Annotated(body, path, annotate)
  }

  /** A list target: list operations, a dict of positions, a list of the same length, or nothing. */
  function ListStep(items: seq<Tree>, ov: Tree, path: seq<string>, root: Tree, ev: Evaluator, annotate: bool): (r: Res<Tree>)
    ensures !annotate && r.Fail? ==> r.error.at.None?
    ensures r.Fail? && r.error.at.Some? ==> IsPrefix(path, r.error.at.value)
    decreases Size(ov), 2, 0
  {
    match ov
    case Dict(e) =>
      if HasKey(e, SWEEP_LIST_OPERATIONS) then
        var ops := Lookup(e, SWEEP_LIST_OPERATIONS).value;
        if !ops.List? then Raise(MalformedOperation)
        else
          (match ApplyOps(items, ops.items, 0, e, path, root, ev, annotate)
           case Fail(err) => Fail(err)
           case Ok(items') => Checked(List(items'), path))
      else
        (match MergeIndexed(items, e, 0, path, root, ev, annotate)
         case Fail(err) => Fail(err)
         case Ok(items') => Checked(List(items'), path))
    case List(vs) =>
      if |vs| != |items| then Raise(ShapeMismatch)
      else
        (match MergeList(items, vs, 0, path, root, ev, annotate)
         case Fail(err) => Fail(err)
         case Ok(items') => Checked(List(items'), path))
    case _ => Checked(List(items), path)
  }

  /**
   * The operations loop, from operation `j` on. `e` is the overlay; an
   * insert without a value inserts the overlay itself, which by the time the
   * call returns has its operations back, as its last key.
   */
  function ApplyOps(items: seq<Tree>, ops: seq<Tree>, j: nat, e: Entries, path: seq<string>, root: Tree, ev: Evaluator, annotate: bool): (r: Res<seq<Tree>>)
    requires j <= |ops| && HasKey(e, SWEEP_LIST_OPERATIONS)
    ensures !annotate && r.Fail? ==> r.error.at.None?
    ensures r.Fail? && r.error.at.Some? ==> IsPrefix(path, r.error.at.value)
    decreases Size(Dict(e)), 1, |ops| - j
  {
    if j == |ops| then Ok(items)
    else
      var rest := Remove(e, SWEEP_LIST_OPERATIONS);
      match ParseOp(ops[j])
      case Fail(err) => Fail(err)
      case Ok(InsertOp(at, val)) =>
        var x := if val.Null? then Dict(Set(rest, SWEEP_LIST_OPERATIONS, List(ops))) else val;
        if IsMinusOne(at) then ApplyOps(items + [x], ops, j + 1, e, path, root, ev, annotate)
        else if AsInt(at).None? then Raise(TypeMismatch)
        else ApplyOps(Inserted(items, AsInt(at).value, x), ops, j + 1, e, path, root, ev, annotate)
      case Ok(OverwriteOp(at, val)) =>
        if AsInt(at).None? then Raise(TypeMismatch)
        else
          (match Position(AsInt(at).value, |items|)
           case None => Raise(IndexOutOfRange(AsInt(at).value))
           case Some(p) =>
             if val.Null? then
               SizeRemove(e, SWEEP_LIST_OPERATIONS);
               (match Upserted(items[p], Dict(rest), path + [IntText(at)], root, ev, annotate)
                case Fail(err) => Fail(err)
                case Ok(y) => ApplyOps(items[p := y], ops, j + 1, e, path, root, ev, annotate))
             else ApplyOps(items[p := val], ops, j + 1, e, path, root, ev, annotate))
      case Ok(RemoveOp(i)) =>
        match Position(i, |items|)
        case None => Raise(IndexOutOfRange(i))
        case Some(p) => ApplyOps(items[..p] + items[p + 1..], ops, j + 1, e, path, root, ev, annotate)
  }

  /** A dict overlay on a list, from entry `j` on: each key names a position by its digits. */
  function MergeIndexed(items: seq<Tree>, e: Entries, j: nat, path: seq<string>, root: Tree, ev: Evaluator, annotate: bool): (r: Res<seq<Tree>>)
    requires j <= |e|
    ensures !annotate && r.Fail? ==> r.error.at.None?
    ensures r.Fail? && r.error.at.Some? ==> IsPrefix(path, r.error.at.value)
    decreases Size(Dict(e)), 1, |e| - j
  {
    if j == |e| then Ok(items)
    else
      var val := e[j].1;
      match KeyIndex(e[j].0)
      case None => Raise(TypeMismatch)
      case Some(n) =>
        if EvalDict(val) then
          // the computed value is stored under the string key, which a list refuses
          match EvalSpec(ev, Lookup(val.entries, SWEEP_OPERATION_VAL).value, root)
          case Fail(err) => Fail(err)
          case Ok(_) => Raise(TypeMismatch)
        else if Computed(val) && SearchEval(val.s, 0).None? then
          // the expression is looked for before the position is read
          Raise(NoExpression)
        else
          match Position(n, |items|)
          case None => Raise(IndexOutOfRange(n))
          case Some(p) =>
            if val.IsContainer() then
              SizeEntry(e, j);
              match Upserted(items[p], val, path + [IntToString(n)], root, ev, annotate)
              case Fail(err) => Fail(err)
              case Ok(y) => MergeIndexed(items[p := y], e, j + 1, path, root, ev, annotate)
            else if !Computed(val) then MergeIndexed(items[p := val], e, j + 1, path, root, ev, annotate)
            else
              match EvalString(ev, val.s, items[p])
              case Fail(err) => Fail(err)
              case Ok(y) => MergeIndexed(items[p := y], e, j + 1, path, root, ev, annotate)
  }

  /** A list overlay on a list of the same length, from position `j` on. */
  function MergeList(items: seq<Tree>, vs: seq<Tree>, j: nat, path: seq<string>, root: Tree, ev: Evaluator, annotate: bool): (r: Res<seq<Tree>>)
    requires j <= |vs| == |items|
    ensures !annotate && r.Fail? ==> r.error.at.None?
    ensures r.Fail? && r.error.at.Some? ==> IsPrefix(path, r.error.at.value)
    decreases Size(List(vs)), 1, |vs| - j
  {
    if j == |vs| then Ok(items)
    else
      var val := vs[j];
      if EvalDict(val) then
        // the computed value is stored under a name this branch never binds
        match EvalSpec(ev, Lookup(val.entries, SWEEP_OPERATION_VAL).value, root)
        case Fail(err) => Fail(err)
        case Ok(_) => Raise(TypeMismatch)
      else if val.IsContainer() then
        SizeItem(vs, j);
        match Upserted(items[j], val, path + [IntToString(j)], root, ev, annotate)
        case Fail(err) => Fail(err)
        case Ok(y) => MergeList(items[j := y], vs, j + 1, path, root, ev, annotate)
      else if !Computed(val) then MergeList(items[j := val], vs, j + 1, path, root, ev, annotate)
      else
        match EvalString(ev, val.s, items[j])
        case Fail(err) => Fail(err)
        case Ok(y) => MergeList(items[j := y], vs, j + 1, path, root, ev, annotate)
  }

  /**
   * A dict target: a dict of positions is turned into its list first;
   * otherwise the overlay must be a dict, whose `upsert` list is taken out,
   * whose other keys are merged in order, then its `sweep_group*` keys in
   * sorted order, then the `upsert` entries in order.
   */
  function DictStep(e: Entries, ov: Tree, path: seq<string>, root: Tree, ev: Evaluator, annotate: bool): (r: Res<Tree>)
    ensures !annotate && r.Fail? ==> r.error.at.None?
    ensures r.Fail? && r.error.at.Some? ==> IsPrefix(path, r.error.at.value)
    decreases Size(ov), 4, 0
  {
    if PretendsList(e) then
      match PretenderItems(e)
      case Fail(err) => Fail(err)
      case Ok(items) => Upserted(List(items), ov, path, root, ev, annotate)
    else if !ov.Dict? then Raise(TypeMismatch)
    else
      var rest := Remove(ov.entries, UPSERT_GROUP_IDENTIFIER);
      SizeRemove(ov.entries, UPSERT_GROUP_IDENTIFIER);
      match MergeKeys(e, rest, 0, path, root, ev, annotate)
      case Fail(err) => Fail(err)
      case Ok(merged) =>
        match ApplyGroups(Dict(merged), rest, SortKeys(GroupKeys(rest)), 0, path, root, ev, annotate)
        case Fail(err) => Fail(err)
        case Ok(t) =>
          if !HasKey(ov.entries, UPSERT_GROUP_IDENTIFIER) then Checked(t, path)
          else
            var ups := Lookup(ov.entries, UPSERT_GROUP_IDENTIFIER).value;
            match Members(ups)
            case Fail(err) => Fail(err)
            case Ok(ms) =>
              SizeLookup(ov.entries, UPSERT_GROUP_IDENTIFIER);
              SizeMembers(ups);
              match ApplyUpserts(t, ups, ms, 0, path, root, ev, annotate)
              case Fail(err) => Fail(err)
              case Ok(t') => Checked(t', path)
  }

  /** The overlay's ordinary keys, from entry `j` on; `sweep_group*` keys are skipped here. */
  function MergeKeys(e: Entries, rest: Entries, j: nat, path: seq<string>, root: Tree, ev: Evaluator, annotate: bool): (r: Res<Entries>)
    requires j <= |rest|
    ensures !annotate && r.Fail? ==> r.error.at.None?
    ensures r.Fail? && r.error.at.Some? ==> IsPrefix(path, r.error.at.value)
    decreases Size(Dict(rest)), 1, |rest| - j
  {
    if j == |rest| then Ok(e)
    else
      var (key, val) := rest[j];
      if StartsWith(key, SWEEP_GROUP) then MergeKeys(e, rest, j + 1, path, root, ev, annotate)
      else
        var cur := if HasKey(e, key) then Lookup(e, key).value else Null;
        if EvalDict(val) then
          match EvalSpec(ev, Lookup(val.entries, SWEEP_OPERATION_VAL).value, root)
          case Fail(err) => Fail(err)
          case Ok(y) => MergeKeys(Set(e, key, y), rest, j + 1, path, root, ev, annotate)
        else if val.IsContainer() then
          SizeEntry(rest, j);
          match Upserted(cur, val, path + [key], root, ev, annotate)
          case Fail(err) => Fail(err)
          case Ok(y) => MergeKeys(Set(e, key, y), rest, j + 1, path, root, ev, annotate)
        else if !Computed(val) then MergeKeys(Set(e, key, val), rest, j + 1, path, root, ev, annotate)
        else
          match EvalString(ev, val.s, cur)
          case Fail(err) => Fail(err)
          case Ok(y) => MergeKeys(Set(e, key, y), rest, j + 1, path, root, ev, annotate)
  }

  /** The `sweep_group*` overlays, from the `j`-th key on, each applied to the result so far. */
  function ApplyGroups(t: Tree, rest: Entries, keys: seq<string>, j: nat, path: seq<string>, root: Tree, ev: Evaluator, annotate: bool): (r: Res<Tree>)
    requires j <= |keys|
    requires forall k :: k in keys ==> HasKey(rest, k)
    ensures !annotate && r.Fail? ==> r.error.at.None?
    ensures r.Fail? && r.error.at.Some? ==> IsPrefix(path, r.error.at.value)
    decreases Size(Dict(rest)), 1, |keys| - j
  {
    if j == |keys| then Ok(t)
    else
      SizeLookup(rest, keys[j]);
      match Upserted(t, Lookup(rest, keys[j]).value, path + [keys[j]], root, ev, annotate)
      case Fail(err) => Fail(err)
      case Ok(y) => ApplyGroups(y, rest, keys, j + 1, path, root, ev, annotate)
  }

  /** The `upsert` entries `ms` (what iterating over `ups` yields), from the `j`-th on. */
  function ApplyUpserts(t: Tree, ups: Tree, ms: seq<Tree>, j: nat, path: seq<string>, root: Tree, ev: Evaluator, annotate: bool): (r: Res<Tree>)
    requires j <= |ms|
    requires forall k :: 0 <= k < |ms| ==> Size(ms[k]) <= Size(ups)
    ensures !annotate && r.Fail? ==> r.error.at.None?
    ensures r.Fail? && r.error.at.Some? ==> IsPrefix(path, r.error.at.value)
    decreases Size(ups), 6, |ms| - j
  {
    if j == |ms| then Ok(t)
    else
      match Upserted(t, ms[j], path + [UPSERT_GROUP_IDENTIFIER + "-" + IntToString(j)], root, ev, annotate)
      case Fail(err) => Fail(err)
      case Ok(y) => ApplyUpserts(y, ups, ms, j + 1, path, root, ev, annotate)
  }

  /**
   * `upsert_config(args, ov)` as it is called: no path, and the root is
   * `args` itself. Copying a non-container `args` into the root fails before
   * the handler is entered, so that exception is never tagged.
   */
  function UpsertConfig(args: Tree, ov: Tree, ev: Evaluator, annotate: bool): (r: Res<Tree>)
    ensures !args.IsContainer() ==> r == Raise(TypeMismatch)
    ensures args.IsContainer() && r.Fail? ==> (r.error.at.Some? <==> annotate)
  {
    if !args.IsContainer() then Raise(TypeMismatch) else Upserted(args, ov, [], args, ev, annotate)
  }
}
