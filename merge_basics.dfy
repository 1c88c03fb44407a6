// The vocabulary of `upsert_config`: the reserved keys and the check that a
// merged configuration does not contain them, Python's list indexing and
// insertion, list edit operations, the `dy_eval(...)` expression syntax, the
// order `sweep_group` keys are applied in, and the size of an overlay, which
// every recursive call of the merge makes smaller.
module MergeBasics {
  import opened Trees
  import opened PathCodec
  import opened Flattener
  import opened Compression

  const SWEEP_GROUP: string := "sweep_group"
  const UPSERT_GROUP_IDENTIFIER: string := "upsert"
  const SWEEP_LIST_OPERATIONS: string := "sweep_list_operations"
  const SWEEP_LIST_INSERT: string := "sweep_insert"
  const SWEEP_LIST_REMOVE: string := "sweep_remove"
  const SWEEP_LIST_OVERWRITE: string := "sweep_overwrite"
  const SWEEP_OPERATION_VAL: string := "dy_eval"

  /** Keys that only a sweep configuration may use; a merged configuration must not contain them. */
  const SPECIAL_KEYS: seq<string> := [
    SWEEP_INDICATION, UNIQUE_NAME_IDENT, VALUES_DISPLAY_NAME, SWEEP_GROUP, SWEEP_LIST_OPERATIONS,
    UPSERT_GROUP_IDENTIFIER, SWEEP_OPERATION_VAL, SWEEP_LIST_INSERT, SWEEP_LIST_REMOVE, SWEEP_LIST_OVERWRITE
  ]

  // ---------------------------------------------------------------------
  // Size

  /** The number of children of a list or a dict. */
  function Arity(t: Tree): nat {
    match t
    case List(items) => |items|
    case Dict(e) => |e|
    case _ => 0
  }

  /** The number of nodes of a tree. */
  function Size(t: Tree): nat
    decreases t, 1
  {
    1 + SizeFrom(t, 0)
  }

  /** The sizes of the children from position `i` on. */
  function SizeFrom(t: Tree, i: nat): nat
    decreases t, 0, Arity(t) - i
  {
    if i >= Arity(t) then 0
    else
      match t
      case List(items) => Size(items[i]) + SizeFrom(t, i + 1)
      case Dict(e) => Size(e[i].1) + SizeFrom(t, i + 1)
      case _ => 0
  }

  lemma {:induction false} SizeFromCovers(t: Tree, i: nat, k: nat)
    requires i <= k < Arity(t)
    ensures t.List? ==> Size(t.items[k]) <= SizeFrom(t, i)
    ensures t.Dict? ==> Size(t.entries[k].1) <= SizeFrom(t, i)
    decreases k - i
  {
    if i < k {
      SizeFromCovers(t, i + 1, k);
    }
  }

  /** A list is larger than each of its items. */
  lemma SizeItem(items: seq<Tree>, k: nat)
    requires k < |items|
    ensures Size(items[k]) < Size(List(items))
  {
    SizeFromCovers(List(items), 0, k);
  }

  /** A dict is larger than each of its values. */
  lemma SizeEntry(e: Entries, k: nat)
    requires k < |e|
    ensures Size(e[k].1) < Size(Dict(e))
  {
    SizeFromCovers(Dict(e), 0, k);
  }

  lemma SizeLookup(e: Entries, key: string)
    requires HasKey(e, key)
    ensures Size(Lookup(e, key).value) < Size(Dict(e))
  {
    var j := KeyPosition(e, key);
    SizeEntry(e, j);
  }

  lemma {:induction false} SizeFromShift(e: Entries, i: nat)
    requires e != [] && i < |e|
    ensures SizeFrom(Dict(e), i + 1) == SizeFrom(Dict(e[1..]), i)
    decreases |e| - i
  {
    if i + 1 < |e| {
      SizeFromShift(e, i + 1);
      assert e[1..][i].1 == e[i + 1].1;
    }
  }

  /** The size of a dict, entry by entry. */
  lemma SizeCons(e: Entries)
    requires e != []
    ensures Size(Dict(e)) == Size(e[0].1) + Size(Dict(e[1..]))
  {
    SizeFromShift(e, 0);
  }

  /** Popping a key makes a dict no larger, and smaller when the key is there. */
  lemma {:induction false} SizeRemove(e: Entries, key: string)
    ensures Size(Dict(Remove(e, key))) <= Size(Dict(e))
    ensures HasKey(e, key) ==> Size(Dict(Remove(e, key))) < Size(Dict(e))
  {
    if e != [] {
      SizeCons(e);
      if e[0].0 != key {
        SizeRemove(e[1..], key);
        var r := Remove(e, key);
        assert r == [e[0]] + Remove(e[1..], key);
        assert r[1..] == Remove(e[1..], key);
        SizeCons(r);
        assert HasKey(e, key) ==> HasKey(e[1..], key);
      }
    }
  }

  /** What `for x in v` yields is no larger than `v`. */
  lemma SizeMembers(v: Tree)
    requires Members(v).Ok?
    ensures forall k :: 0 <= k < |Members(v).value| ==> Size(Members(v).value[k]) <= Size(v)
  {
    forall k | 0 <= k < |Members(v).value| ensures Size(Members(v).value[k]) <= Size(v) {
      if v.List? {
        SizeItem(v.items, k);
      }
    }
  }

  // ---------------------------------------------------------------------
  // The reserved-key check

  /**
   * `sanity_check_special_keys`: the first reserved key met walking the tree
   * depth first, each dict key before the value under it; None when there is
   * none, where the source returns normally.
   */
  function Leak(t: Tree): (r: Option<string>)
    ensures r.Some? ==> r.value in SPECIAL_KEYS
    ensures !t.IsContainer() ==> r.None?
    decreases t, 1
  {
    LeakFrom(t, 0)
  }

  function LeakFrom(t: Tree, i: nat): (r: Option<string>)
    ensures r.Some? ==> r.value in SPECIAL_KEYS
    decreases t, 0, Arity(t) - i
  {
    if i >= Arity(t) then None
    else
      match t
      case Dict(e) =>
        if e[i].0 in SPECIAL_KEYS then Some(e[i].0)
        else if e[i].1.IsContainer() && Leak(e[i].1).Some? then Leak(e[i].1)
        else LeakFrom(t, i + 1)
      case List(items) =>
        if items[i].IsContainer() && Leak(items[i]).Some? then Leak(items[i])
        else LeakFrom(t, i + 1)
      case _ => None
  }

  /** Every key of every dict anywhere in the tree. */
  ghost function KeysIn(t: Tree): set<string>
    decreases t, 1
  {
    KeysInFrom(t, 0)
  }

  ghost function KeysInFrom(t: Tree, i: nat): set<string>
    decreases t, 0, Arity(t) - i
  {
    if i >= Arity(t) then {}
    else
      match t
      case Dict(e) => {e[i].0} + KeysIn(e[i].1) + KeysInFrom(t, i + 1)
      case List(items) => KeysIn(items[i]) + KeysInFrom(t, i + 1)
      case _ => {}
  }

  /** The check raises exactly when some dict anywhere has a reserved key, and names one. */
  lemma {:induction false} LeakSpec(t: Tree)
    ensures Leak(t).Some? ==> Leak(t).value in SPECIAL_KEYS && Leak(t).value in KeysIn(t)
    ensures Leak(t).None? <==> forall k :: k in KeysIn(t) ==> k !in SPECIAL_KEYS
    decreases t, 1
  {
    LeakFromSpec(t, 0);
  }

  lemma {:induction false} LeakFromSpec(t: Tree, i: nat)
    ensures LeakFrom(t, i).Some? ==> LeakFrom(t, i).value in SPECIAL_KEYS && LeakFrom(t, i).value in KeysInFrom(t, i)
    ensures LeakFrom(t, i).None? <==> forall k :: k in KeysInFrom(t, i) ==> k !in SPECIAL_KEYS
    decreases t, 0, Arity(t) - i
  {
    if i < Arity(t) {
      LeakFromSpec(t, i + 1);
      match t
      case Dict(e) =>
        LeakSpec(e[i].1);
        if !e[i].1.IsContainer() {
          assert KeysIn(e[i].1) == {};
        }
      case List(items) =>
        LeakSpec(items[i]);
        if !items[i].IsContainer() {
          assert KeysIn(items[i]) == {};
        }
    }
  }

  // ---------------------------------------------------------------------
  // Python lists

  /** `isinstance(idx, int)`: an int, or a bool, which Python counts as an int. */
  function AsInt(t: Tree): Option<int> {
    match t
    case Int(i) => Some(i)
    case Bool(b) => Some(if b then 1 else 0)
    case _ => None
  }

  /** `idx == -1` */
  predicate IsMinusOne(t: Tree) {
    (t.Int? && t.i == -1) || (t.Float? && t.f == -1.0)
  }

  /** `str(idx)` for an int or a bool. */
  function IntText(t: Tree): string
    requires AsInt(t).Some?
  {
    if t.Bool? then (if t.b then "True" else "False") else IntToString(t.i)
  }

  /** The element `xs[i]` denotes in a list of length `n`; None where Python raises IndexError. */
  function Position(i: int, n: nat): (p: Option<nat>)
    ensures p.Some? <==> 0 <= i + n && i < n
    ensures p.Some? ==> p.value < n && p.value == (if i < 0 then i + n else i)
  {
    if 0 <= i < n then Some(i) else if 0 <= i + n && i < 0 then Some(i + n) else None
  }

  /** Where `list.insert(i, x)` puts `x`: a negative index counts from the end, and both ends clamp. */
  function InsertPosition(i: int, n: nat): (p: nat)
    ensures p <= n
    ensures 0 <= i <= n ==> p == i
    ensures 0 <= i + n && i < 0 ==> p == i + n
    ensures i > n ==> p == n
    ensures i + n < 0 ==> p == 0
  {
    if i < 0 then (if i + n < 0 then 0 else i + n) else if i > n then n else i
  }

  /** `list.insert(i, x)` */
  function Inserted(items: seq<Tree>, i: int, x: Tree): (r: seq<Tree>)
    ensures var p := InsertPosition(i, |items|);
            |r| == |items| + 1 && r[p] == x && r[..p] == items[..p] && r[p + 1..] == items[p..]
  {
    var p := InsertPosition(i, |items|);
    assert (items[..p] + [x] + items[p..])[p + 1..] == items[p..];
    items[..p] + [x] + items[p..]
  }

  // ---------------------------------------------------------------------
  // List edit operations

  /**
   * One entry of `sweep_list_operations`. `at` is the index as written and
   * `val` the value given with it, Null where none was given (the source then
   * uses the overlay itself).
   */
  datatype Op = InsertOp(at: Tree, val: Tree) | OverwriteOp(at: Tree, val: Tree) | RemoveOp(idx: int)

  /** The argument of an insert or an overwrite: an int, or an `[index, value]` pair. */
  function IndexArg(a: Tree): (r: Res<(Tree, Tree)>)
    ensures r.Fail? ==> r.error == Error(MalformedOperation, None)
    ensures r.Ok? <==> AsInt(a).Some? || (a.List? && |a.items| == 2)
    ensures r.Ok? && AsInt(a).Some? ==> r.value == (a, Null)
    ensures r.Ok? && a.List? ==> r.value == (a.items[0], a.items[1])
  {
    if AsInt(a).Some? then Ok((a, Null))
    else if a.List? then
      if |a.items| != 2 then Raise(MalformedOperation) else Ok((a.items[0], a.items[1]))
    else Raise(MalformedOperation)
  }

  /** Read one operation; each malformed shape raises before anything is changed. */
  function ParseOp(op: Tree): (r: Res<Op>)
    ensures r.Fail? ==> r.error.at.None? && r.error.kind in {TypeMismatch, MalformedOperation, UnknownOperation}
    ensures r.Ok? ==> op.Dict? && |op.entries| == 1
    ensures r.Ok? ==> op.entries[0].0 == (match r.value
                                          case InsertOp(_, _) => SWEEP_LIST_INSERT
                                          case OverwriteOp(_, _) => SWEEP_LIST_OVERWRITE
                                          case RemoveOp(_) => SWEEP_LIST_REMOVE)
  {
    if !op.Dict? then Raise(TypeMismatch)
    else if |op.entries| != 1 then Raise(MalformedOperation)
    else
      var (tag, a) := op.entries[0];
      if tag == SWEEP_LIST_INSERT then
        match IndexArg(a)
        case Fail(err) => Fail(err)
        case Ok((at, val)) => Ok(InsertOp(at, val))
      else if tag == SWEEP_LIST_OVERWRITE then
        match IndexArg(a)
        case Fail(err) => Fail(err)
        case Ok((at, val)) => Ok(OverwriteOp(at, val))
      else if tag == SWEEP_LIST_REMOVE then
        match AsInt(a)
        case None => Raise(MalformedOperation)
        case Some(i) => Ok(RemoveOp(i))
      else Raise(UnknownOperation)
  }

  /** How an operation is written in a sweep configuration. */
  function OpTree(o: Op): Tree {
    match o
    case InsertOp(at, val) =>
      Dict([(SWEEP_LIST_INSERT, if val.Null? && AsInt(at).Some? then at else List([at, val]))])
    case OverwriteOp(at, val) =>
      Dict([(SWEEP_LIST_OVERWRITE, if val.Null? && AsInt(at).Some? then at else List([at, val]))])
    case RemoveOp(i) => Dict([(SWEEP_LIST_REMOVE, Int(i))])
  }

  /** Reading an operation back from how it is written gives the operation. */
  lemma ParseOpTree(o: Op)
    ensures ParseOp(OpTree(o)) == Ok(o)
  {
  }

  /** Operations of the wrong form, with an unknown tag or a bad index raise, each with its own kind. */
  lemma ParseOpFails(op: Tree)
    ensures !op.Dict? ==> ParseOp(op) == Raise(TypeMismatch)
    ensures op.Dict? && |op.entries| != 1 ==> ParseOp(op) == Raise(MalformedOperation)
    ensures op.Dict? && |op.entries| == 1 && op.entries[0].0 !in [SWEEP_LIST_INSERT, SWEEP_LIST_OVERWRITE, SWEEP_LIST_REMOVE]
            ==> ParseOp(op) == Raise(UnknownOperation)
    ensures op.Dict? && |op.entries| == 1 && op.entries[0].0 == SWEEP_LIST_REMOVE && AsInt(op.entries[0].1).None?
            ==> ParseOp(op) == Raise(MalformedOperation)
    ensures op.Dict? && |op.entries| == 1 && op.entries[0].0 in [SWEEP_LIST_INSERT, SWEEP_LIST_OVERWRITE]
            && AsInt(op.entries[0].1).None? && !(op.entries[0].1.List? && |op.entries[0].1.items| == 2)
            ==> ParseOp(op) == Raise(MalformedOperation)
  {
  }

  // ---------------------------------------------------------------------
  // Keys that name list positions

  /** `s.startswith(prefix)` */
  predicate StartsWith(s: string, prefix: string) {
    |prefix| <= |s| && s[..|prefix|] == prefix
  }

  /** `int(key[len(IDX_INDICATOR):])`: the prefix itself is not checked. */
  function KeyIndex(key: string): (r: Option<int>)
    ensures r.Some? ==> |key| > |IDX_INDICATOR|
  {
    ParseInt(if |key| <= |IDX_INDICATOR| then "" else key[|IDX_INDICATOR|..])
  }

  /** The index segment of a position names that position. */
  lemma KeyIndexSegment(i: nat)
    ensures KeyIndex(IndexSegment(i)) == Some(i) && StartsWith(IndexSegment(i), IDX_INDICATOR)
  {
  }

  /** Every key starts with the index indicator; an empty dict qualifies. */
  predicate PretendsList(e: Entries)
    ensures e == [] ==> PretendsList(e)
  {
    forall i :: 0 <= i < |e| ==> StartsWith(e[i].0, IDX_INDICATOR)
  }

  /** No reserved key starts with `__IDX__`, so a dict that pretends to be a list holds none. */
  lemma {:induction false} PretenderNoReservedKey(e: Entries)
    requires PretendsList(e)
    ensures forall k :: k in SPECIAL_KEYS ==> !HasKey(e, k)
  {
    if e != [] {
      PretenderNoReservedKey(e[1..]);
      assert e[0].0[0] == '_';
      assert forall k :: k in SPECIAL_KEYS ==> k[0] != '_';
      assert KeysOf(e) == [e[0].0] + KeysOf(e[1..]);
    }
  }

  /** The loop that fills `true_args`: each value goes to the position its key names. */
  function PretenderFrom(e: Entries, i: nat, acc: seq<Tree>): (r: Res<seq<Tree>>)
    requires i <= |e|
    ensures r.Ok? ==> |r.value| == |acc|
    ensures r.Fail? ==> r.error.at.None?
    decreases |e| - i
  {
    if i == |e| then Ok(acc)
    else
      match KeyIndex(e[i].0)
      case None => Raise(TypeMismatch)
      case Some(n) =>
        match Position(n, |acc|)
        case None => Raise(IndexOutOfRange(n))
        case Some(p) => PretenderFrom(e, i + 1, acc[p := e[i].1])
  }

  /** The list a dict of index keys stands for: as many Nones as keys, then the values. */
  function PretenderItems(e: Entries): (r: Res<seq<Tree>>)
    ensures r.Ok? ==> |r.value| == |e|
    ensures r.Fail? ==> r.error.at.None?
  {
    PretenderFrom(e, 0, seq(|e|, _ => Null))
  }

  /** Values whose keys name distinct positions in range all land at those positions. */
  lemma {:induction false} PretenderFromPlaces(e: Entries, i: nat, acc: seq<Tree>, pos: seq<nat>)
    requires i <= |e| == |pos| == |acc|
    requires forall k :: 0 <= k < |e| ==> KeyIndex(e[k].0) == Some(pos[k]) && pos[k] < |e|
    requires forall k, l :: 0 <= k < l < |e| ==> pos[k] != pos[l]
    requires forall k :: 0 <= k < i ==> acc[pos[k]] == e[k].1
    ensures PretenderFrom(e, i, acc).Ok?
    ensures forall k :: 0 <= k < |e| ==> PretenderFrom(e, i, acc).value[pos[k]] == e[k].1
    decreases |e| - i
  {
    if i < |e| {
      var acc' := acc[pos[i] := e[i].1];
      forall k | 0 <= k < i + 1 ensures acc'[pos[k]] == e[k].1 {
        if k < i {
          assert pos[k] != pos[i];
        }
      }
      PretenderFromPlaces(e, i + 1, acc', pos);
    }
  }

  /** A dict keyed `__IDX__0` .. `__IDX__(n-1)`, in any order, is the list of its values by key. */
  lemma PretenderPlaces(e: Entries, pos: seq<nat>)
    requires |pos| == |e|
    requires forall k :: 0 <= k < |e| ==> e[k].0 == IndexSegment(pos[k]) && pos[k] < |e|
    requires forall k, l :: 0 <= k < l < |e| ==> pos[k] != pos[l]
    ensures PretendsList(e)
    ensures PretenderItems(e).Ok?
    ensures forall k :: 0 <= k < |e| ==> PretenderItems(e).value[pos[k]] == e[k].1
  {
    forall k | 0 <= k < |e| ensures KeyIndex(e[k].0) == Some(pos[k]) && StartsWith(e[k].0, IDX_INDICATOR) {
      KeyIndexSegment(pos[k]);
    }
    PretenderFromPlaces(e, 0, seq(|e|, _ => Null), pos);
  }

  // ---------------------------------------------------------------------
  // Computed values

  /** `s.find(w) != -1` */
  predicate Contains(s: string, w: string)
    decreases |s|
  {
    StartsWith(s, w) || (|s| > 0 && Contains(s[1..], w))
  }

  const EVAL_CALL: string := "dy_eval("

  /** Where `.` stops matching: the first newline at or after `from`, or the end. */
  function LineEnd(s: string, from: nat): (r: nat)
    requires from <= |s|
    ensures from <= r <= |s| && (r < |s| ==> s[r] == '\n')
    ensures forall k :: from <= k < r ==> s[k] != '\n'
    decreases |s| - from
  {
    if from == |s| || s[from] == '\n' then from else LineEnd(s, from + 1)
  }

  /** The last `)` in `s[lo..hi]`. */
  function LastClose(s: string, lo: nat, hi: nat): (r: Option<nat>)
    requires lo <= hi <= |s|
    ensures r.Some? ==> lo <= r.value < hi && s[r.value] == ')' && forall k :: r.value < k < hi ==> s[k] != ')'
    ensures r.None? ==> forall k :: lo <= k < hi ==> s[k] != ')'
    decreases hi - lo
  {
    if lo == hi then None
    else if s[hi - 1] == ')' then Some(hi - 1)
    else LastClose(s, lo, hi - 1)
  }

  /** `dy_eval(x)` written at position `i` of `s`, on one line. */
  ghost predicate CallAt(s: string, i: nat, x: string) {
    && i + |EVAL_CALL| + |x| < |s|
    && s[i..i + |EVAL_CALL|] == EVAL_CALL
    && s[i + |EVAL_CALL|..i + |EVAL_CALL| + |x|] == x
    && s[i + |EVAL_CALL| + |x|] == ')'
    && '\n' !in x
  }

  /**
   * `re.search(r"dy_eval\((.*)\)", s).group(1)`, searching from `i`: the
   * leftmost call, and the longest argument that ends before the line does;
   * None where the search finds nothing.
   */
  function SearchEval(s: string, i: nat): (r: Option<string>)
    ensures r.Some? ==> exists j :: && i <= j && CallAt(s, j, r.value)
                                   && (forall j', x :: i <= j' < j ==> !CallAt(s, j', x))
                                   && (forall x :: CallAt(s, j, x) ==> |x| <= |r.value|)
    ensures r.None? ==> forall j, x :: i <= j ==> !CallAt(s, j, x)
    decreases |s| - i
  {
    var n := |EVAL_CALL|;
    if i + n > |s| then None
    else if s[i..i + n] == EVAL_CALL then
      var end := LineEnd(s, i + n);
      match LastClose(s, i + n, end)
      case Some(c) =>
        CallFound(s, i, end, c);
        LongestCall(s, i, end, c);
        Some(s[i + n..c])
      case None =>
        NoCallHere(s, i, end);
        SearchEval(s, i + 1)
    else
      assert forall x :: !CallAt(s, i, x);
      SearchEval(s, i + 1)
  }

  /** No call at `i` has a longer argument than the one ending at the line's last `)`. */
  lemma LongestCall(s: string, i: nat, end: nat, c: nat)
    requires i + |EVAL_CALL| <= |s|
    requires end == LineEnd(s, i + |EVAL_CALL|) && LastClose(s, i + |EVAL_CALL|, end) == Some(c)
    ensures forall x :: CallAt(s, i, x) ==> |x| <= c - i - |EVAL_CALL|
  {
    var n := |EVAL_CALL|;
    forall x | CallAt(s, i, x)
      ensures |x| <= c - i - n
    {
      var close := i + n + |x|;
      assert s[close] == ')' && close < |s|;
      if end < close {
        assert false;
      }
    }
  }

  /** The call found at `i` when its line has a last `)` at `c`. */
  lemma CallFound(s: string, i: nat, end: nat, c: nat)
    requires i + |EVAL_CALL| <= |s| && s[i..i + |EVAL_CALL|] == EVAL_CALL
    requires end == LineEnd(s, i + |EVAL_CALL|) && LastClose(s, i + |EVAL_CALL|, end) == Some(c)
    ensures CallAt(s, i, s[i + |EVAL_CALL|..c])
  {
    var x := s[i + |EVAL_CALL|..c];
    assert forall k :: 0 <= k < |x| ==> x[k] == s[i + |EVAL_CALL| + k];
  }

  /** No call at `i` when its line has no `)` after the opening. */
  lemma NoCallHere(s: string, i: nat, end: nat)
    requires i + |EVAL_CALL| <= |s|
    requires end == LineEnd(s, i + |EVAL_CALL|) && LastClose(s, i + |EVAL_CALL|, end).None?
    ensures forall x :: !CallAt(s, i, x)
  {
    var n := |EVAL_CALL|;
    forall x | i + n + |x| < |s| && s[i + n..i + n + |x|] == x
      ensures s[i + n + |x|] != ')' || '\n' in x
    {
      var c := i + n + |x|;
      if end < c {
        assert x[end - i - n] == s[end];
      }
    }
  }

  /** A value to be computed is one that contains the call, and the call must be complete. */
  lemma CallMentionsEval(s: string, i: nat, x: string)
    requires CallAt(s, i, x)
    ensures Contains(s, SWEEP_OPERATION_VAL)
    decreases i
  {
    if i > 0 {
      assert CallAt(s[1..], i - 1, x) by {
        assert s[1..][i - 1..i - 1 + |EVAL_CALL|] == s[i..i + |EVAL_CALL|];
        assert s[1..][i - 1 + |EVAL_CALL|..i - 1 + |EVAL_CALL| + |x|] == s[i + |EVAL_CALL|..i + |EVAL_CALL| + |x|];
      }
      CallMentionsEval(s[1..], i - 1, x);
    } else {
      assert s[..|SWEEP_OPERATION_VAL|] == s[..|EVAL_CALL|][..|SWEEP_OPERATION_VAL|];
    }
  }

  /**
   * `dy.eval`, which this model does not contain: given the expression (a
   * string, or a dict of keyword arguments) and the value the compiled
   * function is applied to, the result, or None where it raises.
   */
  type Evaluator = (Tree, Tree) -> Option<Tree>

  function Evaluated(ev: Evaluator, spec: Tree, arg: Tree): (r: Res<Tree>)
    ensures r.Fail? ==> r == Raise(EvalFailed) && ev(spec, arg).None?
    ensures r.Ok? ==> ev(spec, arg) == Some(r.value)
  {
    match ev(spec, arg)
    case None => Raise(EvalFailed)
    case Some(v) => Ok(v)
  }

  /** `dy.eval(spec)(root)` for a string, `dy.eval(**spec)(root)` for a dict; anything else cannot be unpacked. */
  function EvalSpec(ev: Evaluator, spec: Tree, root: Tree): (r: Res<Tree>)
    ensures r.Fail? ==> r.error.at.None?
    ensures spec.Str? || spec.Dict? ==> r == Evaluated(ev, spec, root)
    ensures !(spec.Str? || spec.Dict?) ==> r == Raise(TypeMismatch)
  {
    if spec.Str? || spec.Dict? then Evaluated(ev, spec, root) else Raise(TypeMismatch)
  }

  // ---------------------------------------------------------------------
  // Group keys, in sorted order

  /** Python's `<` on strings: code point by code point, a proper prefix first. */
  predicate Below(a: string, b: string)
    decreases |a|
  {
    b != [] && (a == [] || a[0] < b[0] || (a[0] == b[0] && Below(a[1..], b[1..])))
  }

  lemma {:induction false} BelowIrreflexive(a: string)
    ensures !Below(a, a)
    decreases |a|
  {
    if a != [] {
      BelowIrreflexive(a[1..]);
    }
  }

  lemma {:induction false} BelowTotal(a: string, b: string)
    ensures a == b || Below(a, b) || Below(b, a)
    decreases |a|
  {
    if a != [] && b != [] && a[0] == b[0] {
      BelowTotal(a[1..], b[1..]);
      if a[1..] == b[1..] {
        assert a == [a[0]] + a[1..] && b == [b[0]] + b[1..];
      }
    }
  }

  lemma {:induction false} BelowTransitive(a: string, b: string, c: string)
    requires Below(a, b) && Below(b, c)
    ensures Below(a, c)
    decreases |a|
  {
    if a != [] && a[0] == b[0] && b[0] == c[0] {
      BelowTransitive(a[1..], b[1..], c[1..]);
    }
  }

  lemma BelowAsymmetric(a: string, b: string)
    requires Below(a, b)
    ensures !Below(b, a)
  {
    if Below(b, a) {
      BelowTransitive(a, b, a);
      BelowIrreflexive(a);
    }
  }

  /** No key comes after a key that follows it. */
  ghost predicate Ascending(ks: seq<string>) {
    forall i, j :: 0 <= i < j < |ks| ==> !Below(ks[j], ks[i])
  }

  /** Insert `k` before the first key it does not follow. */
  function Insort(k: string, ks: seq<string>): (r: seq<string>)
    requires Ascending(ks)
    ensures multiset(r) == multiset(ks) + multiset{k}
    ensures Ascending(r)
  {
    if ks == [] then [k]
    else if !Below(ks[0], k) then
      InsortFront(k, ks);
      [k] + ks
    else
      var t := Insort(k, ks[1..]);
      assert ks == [ks[0]] + ks[1..];
      InsortBehind(k, ks, t);
      [ks[0]] + t
  }

  /** A key that no later key falls below can go in front. */
  lemma AscendingCons(x: string, s: seq<string>)
    requires Ascending(s)
    requires forall j :: 0 <= j < |s| ==> !Below(s[j], x)
    ensures Ascending([x] + s)
  {
    forall i, j | 0 <= i < j < |[x] + s| ensures !Below(([x] + s)[j], ([x] + s)[i]) {
      if i > 0 {
        assert ([x] + s)[j] == s[j - 1] && ([x] + s)[i] == s[i - 1];
      }
    }
  }

  lemma InsortFront(k: string, ks: seq<string>)
    requires Ascending(ks) && ks != [] && !Below(ks[0], k)
    ensures Ascending([k] + ks)
  {
    forall j | 0 <= j < |ks| ensures !Below(ks[j], k) {
      if j > 0 && Below(ks[j], k) {
        BelowTotal(ks[j], ks[0]);
        if ks[j] != ks[0] {
          BelowTransitive(ks[0], ks[j], k);
        }
      }
    }
    AscendingCons(k, ks);
  }

  lemma InsortBehind(k: string, ks: seq<string>, t: seq<string>)
    requires Ascending(ks) && ks != [] && Below(ks[0], k)
    requires Ascending(t) && multiset(t) == multiset(ks[1..]) + multiset{k}
    ensures Ascending([ks[0]] + t)
  {
    forall j | 0 <= j < |t| ensures !Below(t[j], ks[0]) {
      assert t[j] in multiset(t);
      if t[j] == k {
        BelowAsymmetric(ks[0], k);
      } else {
        assert t[j] in multiset(ks[1..]);
        var l :| 0 <= l < |ks[1..]| && ks[1..][l] == t[j];
        assert ks[l + 1] == t[j];
      }
    }
    AscendingCons(ks[0], t);
  }

  /** `keys.sort()` */
  function SortKeys(ks: seq<string>): (r: seq<string>)
    ensures multiset(r) == multiset(ks)
    ensures forall k :: k in r <==> k in ks
    ensures Ascending(r)
  {
    if ks == [] then []
    else
      assert ks == [ks[0]] + ks[1..];
      var r := Insort(ks[0], SortKeys(ks[1..]));
      assert forall k :: k in r <==> k in multiset(r);
      assert forall k :: k in ks <==> k in multiset(ks);
      r
  }

  /** The keys of `e` that start with `sweep_group`, in the order of `e`. */
  function GroupKeys(e: Entries): (r: seq<string>)
    ensures forall k :: k in r <==> HasKey(e, k) && StartsWith(k, SWEEP_GROUP)
  {
    if e == [] then []
    else
      assert KeysOf(e) == [e[0].0] + KeysOf(e[1..]);
      (if StartsWith(e[0].0, SWEEP_GROUP) then [e[0].0] else []) + GroupKeys(e[1..])
  }
}
