// Configuration trees as the sweep utilities see them: JSON/YAML-like values
// whose dictionaries are ordered association lists, because the order in
// which a Python dict was filled decides the order of flat keys, of claimed
// path segments and of the keys of a merged configuration.
module Trees {

  datatype Option<T> = None | Some(value: T)

  datatype Tree =
    | Null
    | Bool(b: bool)
    | Int(i: int)
    | Float(f: real)
    | Str(s: string)
    | List(items: seq<Tree>)
    | Dict(entries: seq<(string, Tree)>)
  {
    /** `isinstance(x, dict) or isinstance(x, list)` */
    predicate IsContainer() { List? || Dict? }
  }

  type Entries = seq<(string, Tree)>

  /** Values placed at paths: sweep units, or the entries of an unflattened configuration. */
  type Units = seq<(seq<string>, Tree)>

  /** Units placed one level down, below the key `k`. */
  function Under(k: string, ps: Units): (r: Units)
    ensures |r| == |ps|
  {
    seq(|ps|, j requires 0 <= j < |ps| => ([k] + ps[j].0, ps[j].1))
  }

  /** What went wrong; one constructor per kind of exception the utilities raise. */
  datatype Kind =
    | AliasReused(alias: Tree)        // a display alias registered twice
    | MissingKey(key: string)         // a Python KeyError on a mapping lookup
    | TypeMismatch                    // a Python TypeError, AttributeError or ValueError from the runtime
    | ShapeMismatch                   // list vs non-list, dict vs non-dict, or lengths that differ
    | IndexOutOfRange(index: int)     // a list position that does not exist
    | MalformedOperation              // a list edit operation of the wrong form
    | UnknownOperation                // a list edit operation with an unknown tag
    | ReservedKeyLeak(key: string)    // a reserved key left in a merged configuration
    | NoExpression                    // a string mentions dy_eval but has no dy_eval(...) call
    | EvalFailed                      // the expression evaluator raised

  /** An exception, with the configuration path it was annotated with, if any. */
  datatype Error = Error(kind: Kind, at: Option<seq<string>>)

  datatype Res<T> = Ok(value: T) | Fail(error: Error)
  {
    predicate IsFailure() { Fail? }
    function PropagateFailure<U>(): Res<U> requires Fail? { Fail(error) }
    function Extract(): T requires Ok? { value }
  }

  /** A freshly raised, not yet annotated exception. */
  function Raise<T>(kind: Kind): Res<T> { Fail(Error(kind, None)) }

  // ---------------------------------------------------------------------
  // Dictionaries as association lists

  function KeysOf(e: Entries): (ks: seq<string>)
    ensures |ks| == |e|
  {
    if e == [] then [] else [e[0].0] + KeysOf(e[1..])
  }

  /** `k in d` */
  predicate HasKey(e: Entries, k: string) {
    k in KeysOf(e)
  }

  /** Distinct keys, as every Python dict has. */
  predicate UniqueKeys(e: Entries) {
    e == [] || (e[0].0 !in KeysOf(e[1..]) && UniqueKeys(e[1..]))
  }

  /** `d[k]`, or None when `k not in d`. */
  function Lookup(e: Entries, k: string): (r: Option<Tree>)
    ensures r.Some? <==> HasKey(e, k)
  {
    if e == [] then None
    else if e[0].0 == k then Some(e[0].1)
    else Lookup(e[1..], k)
  }

  /** `d[k] = v`: an existing key keeps its position, a new key goes last. */
  function Set(e: Entries, k: string, v: Tree): (r: Entries)
    ensures Lookup(r, k) == Some(v)
    ensures forall j :: j != k ==> Lookup(r, j) == Lookup(e, j)
    ensures KeysOf(r) == if HasKey(e, k) then KeysOf(e) else KeysOf(e) + [k]
    ensures UniqueKeys(e) ==> UniqueKeys(r)
  {
    if e == [] then [(k, v)]
    else if e[0].0 == k then [(k, v)] + e[1..]
    else [e[0]] + Set(e[1..], k, v)
  }

  /** `d.pop(k)`, for a key that may be absent: the first entry under `k` goes. */
  function Remove(e: Entries, k: string): (r: Entries)
    ensures forall j :: j != k ==> Lookup(r, j) == Lookup(e, j)
    ensures UniqueKeys(e) ==> UniqueKeys(r) && !HasKey(r, k)
    ensures forall j :: j in KeysOf(r) ==> j in KeysOf(e)
    ensures !HasKey(e, k) ==> r == e
  {
    if e == [] then []
    else if e[0].0 == k then e[1..]
    else
      var t := Remove(e[1..], k);
      assert ([e[0]] + t)[1..] == t;
      assert KeysOf([e[0]] + t) == [e[0].0] + KeysOf(t);
      assert KeysOf(e) == [e[0].0] + KeysOf(e[1..]);
      [e[0]] + t
  }

  lemma {:induction false} KeysOfIndex(e: Entries, j: nat)
    requires j < |e|
    ensures KeysOf(e)[j] == e[j].0
  {
    if j > 0 { KeysOfIndex(e[1..], j - 1); }
  }

  /** The key at position `j` is found at position `j`. */
  lemma {:induction false} LookupIndex(e: Entries, j: nat)
    requires UniqueKeys(e) && j < |e|
    ensures Lookup(e, e[j].0) == Some(e[j].1)
  {
    if j > 0 {
      LookupIndex(e[1..], j - 1);
      KeysOfIndex(e[1..], j - 1);
      assert e[1..][j - 1] == e[j];
    }
  }

  /** A key that is present sits at some position. */
  lemma {:induction false} KeyPosition(e: Entries, k: string) returns (j: nat)
    requires HasKey(e, k)
    ensures j < |e| && e[j].0 == k && Lookup(e, k) == Some(e[j].1)
  {
    if e[0].0 == k {
      j := 0;
    } else {
      var j' := KeyPosition(e[1..], k);
      j := j' + 1;
    }
  }

  /** Distinct keys, position by position. */
  lemma {:induction false} UniqueKeysApart(e: Entries, a: nat, b: nat)
    requires UniqueKeys(e) && a < b < |e|
    ensures e[a].0 != e[b].0
  {
    if a == 0 {
      KeysOfIndex(e[1..], b - 1);
    } else {
      UniqueKeysApart(e[1..], a - 1, b - 1);
    }
  }

  lemma {:induction false} LookupAppend(e: Entries, k: string, v: Tree, j: string)
    ensures Lookup(e + [(k, v)], j) == if HasKey(e, j) then Lookup(e, j) else if k == j then Some(v) else None
  {
    if e != [] {
      assert (e + [(k, v)])[1..] == e[1..] + [(k, v)];
      LookupAppend(e[1..], k, v, j);
    }
  }

  lemma {:induction false} KeysOfAppend(e: Entries, f: Entries)
    ensures KeysOf(e + f) == KeysOf(e) + KeysOf(f)
  {
    if e != [] {
      assert (e + f)[1..] == e[1..] + f;
      KeysOfAppend(e[1..], f);
    } else {
      assert e + f == f;
    }
  }

  /** Setting a key that is absent appends it. */
  lemma {:induction false} SetAbsent(e: Entries, k: string, v: Tree)
    requires !HasKey(e, k)
    ensures Set(e, k, v) == e + [(k, v)]
  {
    if e != [] {
      assert KeysOf(e) == [e[0].0] + KeysOf(e[1..]);
      SetAbsent(e[1..], k, v);
      assert e == [e[0]] + e[1..];
    }
  }

  /** Writing a key twice leaves the second value, where the first write put the key. */
  lemma {:induction false} SetTwice(e: Entries, k: string, a: Tree, b: Tree)
    ensures Set(Set(e, k, a), k, b) == Set(e, k, b)
  {
    if e != [] && e[0].0 != k {
      SetTwice(e[1..], k, a, b);
      var s := Set(e[1..], k, a);
      assert ([e[0]] + s)[1..] == s;
    }
  }

  /** With distinct keys, the key at position `i` is not among the keys before it. */
  lemma {:induction false} KeyNotBefore(e: Entries, i: nat)
    requires UniqueKeys(e) && i < |e|
    ensures e[i].0 !in KeysOf(e[..i])
  {
    if i > 0 {
      KeyNotBefore(e[1..], i - 1);
      assert e[..i] == [e[0]] + e[1..][..i - 1];
      assert KeysOf(e[..i]) == [e[0].0] + KeysOf(e[1..][..i - 1]);
      KeysOfIndex(e[1..], i - 1);
      assert e[i].0 in KeysOf(e[1..]);
    }
  }

  /** Two entry lists with the same keys position by position. */
  ghost predicate SameKeys(e: Entries, f: Entries) {
    |e| == |f| && forall i :: 0 <= i < |e| ==> e[i].0 == f[i].0
  }

  /** Lists with the same keys find a key at the same position. */
  lemma {:induction false} LookupParallel(e: Entries, f: Entries, k: string) returns (j: nat)
    requires SameKeys(e, f) && HasKey(e, k)
    ensures j < |e| && Lookup(e, k) == Some(e[j].1) && Lookup(f, k) == Some(f[j].1)
  {
    if e[0].0 == k {
      j := 0;
    } else {
      var j' := LookupParallel(e[1..], f[1..], k);
      j := j' + 1;
    }
  }

  lemma {:induction false} LookupParallelNone(e: Entries, f: Entries, k: string)
    requires SameKeys(e, f) && !HasKey(e, k)
    ensures Lookup(f, k) == None
  {
    if e != [] {
      LookupParallelNone(e[1..], f[1..], k);
    }
  }

  // ---------------------------------------------------------------------
  // Positions in a tree

  predicate IsPrefix(a: seq<string>, b: seq<string>) {
    |a| <= |b| && b[..|a|] == a
  }

  lemma PrefixOfTake(a: seq<string>, b: seq<string>, m: nat)
    requires m <= |b|
    ensures IsPrefix(a, b[..m]) ==> IsPrefix(a, b)
  {
    if IsPrefix(a, b[..m]) {
      assert b[..|a|] == b[..m][..|a|];
    }
  }

  /** Prefixes are unaffected by a common first segment. */
  lemma PrefixCons(k: string, a: seq<string>, b: seq<string>)
    ensures IsPrefix([k] + a, [k] + b) <==> IsPrefix(a, b)
  {
    if |a| <= |b| {
      var x := ([k] + b)[..|a| + 1];
      assert x == [k] + b[..|a|];
      assert x[1..] == b[..|a|];
      assert ([k] + a)[1..] == a;
    }
  }

  /** The subtree reached from `t` by following the dict keys of `p`. */
  function At(t: Tree, p: seq<string>): Option<Tree>
    decreases |p|
  {
    if p == [] then Some(t)
    else if !t.Dict? then None
    else
      match Lookup(t.entries, p[0])
      case None => None
      case Some(c) => At(c, p[1..])
  }

  /** What is at a position: nothing, a dict, or any other value. */
  datatype Shape = Absent | Node | Leaf(value: Tree)

  function ShapeAt(t: Tree, p: seq<string>): Shape {
    match At(t, p)
    case None => Absent
    case Some(x) => if x.Dict? then Node else Leaf(x)
  }

  /**
   * The same dicts, keys and leaves at every position, whatever order the
   * keys of each dict were inserted in: Python's `==` on trees of dicts.
   */
  ghost predicate SameTree(a: Tree, b: Tree) {
    forall p :: ShapeAt(a, p) == ShapeAt(b, p)
  }

  /** One step down a dict. */
  lemma ShapeCons(e: Entries, k: string, q: seq<string>)
    ensures ShapeAt(Dict(e), [k] + q) == match Lookup(e, k) case None => Absent case Some(c) => ShapeAt(c, q)
  {
    assert ([k] + q)[0] == k && ([k] + q)[1..] == q;
  }

  /** Nothing lies under a value that is not a dict. */
  lemma ShapeBelowLeaf(t: Tree, p: seq<string>)
    requires !t.Dict? && p != []
    ensures ShapeAt(t, p) == Absent
  {
  }
}
