// `unflatten_sweep_config`: every flat key is split back into its path, and
// its value is placed at that path, creating the dicts on the way.
module Unflatten {
  import opened Trees
  import opened PathCodec

  /**
   * The walk of one key: follow (or create) the dicts named by every segment
   * but the last and set the last one. A value that is not a dict on the way
   * cannot be indexed by a string, and Python raises a TypeError.
   */
  function Insert(conf: Tree, path: seq<string>, v: Tree): (r: Res<Tree>)
    requires |path| > 0
    ensures r.Ok? ==> r.value.Dict?
    ensures r.Fail? ==> r.error == Error(TypeMismatch, None)
    decreases |path|
  {
    if !conf.Dict? then Raise(TypeMismatch)
    else if |path| == 1 then Ok(Dict(Set(conf.entries, path[0], v)))
    else
      match Insert(ChildOrEmpty(conf, path[0]), path[1..], v)
      case Fail(err) => Fail(err)
      case Ok(c) => Ok(Dict(Set(conf.entries, path[0], c)))
  }

  /** The unflattened configuration of the first entries, in their order. */
  function Unflattened(flat: Entries): (r: Res<Tree>)
    ensures r.Ok? ==> r.value.Dict?
    ensures r.Fail? ==> r.error == Error(TypeMismatch, None)
    decreases |flat|
  {
    if flat == [] then Ok(Dict([]))
    else
      match Unflattened(flat[..|flat| - 1])
      case Fail(err) => Fail(err)
      case Ok(conf) => Insert(conf, Split(flat[|flat| - 1].0), flat[|flat| - 1].1)
  }

  /** `unflatten_sweep_config` */
  method Unflatten(flat: Entries) returns (r: Res<Tree>)
    ensures r == Unflattened(flat)
  {
    var conf := Dict([]);
    var i := 0;
    while i < |flat|
      invariant 0 <= i <= |flat|
      invariant Unflattened(flat[..i]) == Ok(conf)
    {
      assert flat[..i + 1][..i] == flat[..i];
      var next := Insert(conf, Split(flat[i].0), flat[i].1);
      if next.Fail? {
        FailureStays(flat, i + 1);
        return next;
      }
      conf := next.value;
      i := i + 1;
    }
    assert flat[..i] == flat;
    return Ok(conf);
  }

  /** Once an entry fails, the whole unflattening fails with its error. */
  lemma {:induction false} FailureStays(flat: Entries, i: nat)
    requires i <= |flat| && Unflattened(flat[..i]).Fail?
    ensures Unflattened(flat) == Unflattened(flat[..i])
    decreases |flat| - i
  {
    if i < |flat| {
      assert flat[..i + 1][..i] == flat[..i];
      FailureStays(flat, i + 1);
    } else {
      assert flat[..i] == flat;
    }
  }

  // ---------------------------------------------------------------------
  // Where a value ends up

  /** No position strictly above the end of `path` holds a non-dict value. */
  ghost predicate Walkable(conf: Tree, path: seq<string>) {
    forall m :: 0 <= m < |path| ==> !ShapeAt(conf, path[..m]).Leaf?
  }

  /** Placing a value succeeds exactly when no non-dict value lies on the way. */
  lemma {:induction false} InsertOk(conf: Tree, path: seq<string>, v: Tree)
    requires |path| > 0
    ensures Insert(conf, path, v).Ok? <==> Walkable(conf, path)
    decreases |path|
  {
    assert path[..0] == [];
    if conf.Dict? && |path| > 1 {
      var k := path[0];
      var child := ChildOrEmpty(conf, k);
      InsertOk(child, path[1..], v);
      forall m | 0 <= m < |path| - 1
        ensures ShapeAt(child, path[1..][..m]).Leaf? == ShapeAt(conf, path[..m + 1]).Leaf?
      {
        assert path[..m + 1] == [k] + path[1..][..m];
        ShapeCons(conf.entries, k, path[1..][..m]);
      }
      assert Walkable(conf, path) <==> Walkable(child, path[1..]) by {
        forall m | 0 < m < |path| ensures ShapeAt(conf, path[..m]).Leaf? == ShapeAt(child, path[1..][..m - 1]).Leaf? {
        }
      }
    } else if conf.Dict? {
      assert Walkable(conf, path);
    }
  }

  /** The dict to walk into: the existing child, or a fresh empty dict. */
  function ChildOrEmpty(conf: Tree, k: string): Tree
    requires conf.Dict?
  {
    match Lookup(conf.entries, k) case Some(c) => c case None => Dict([])
  }

  lemma InsertUnfold(conf: Tree, path: seq<string>, v: Tree)
    requires |path| > 1 && Insert(conf, path, v).Ok?
    ensures conf.Dict? && Insert(ChildOrEmpty(conf, path[0]), path[1..], v).Ok?
    ensures Insert(conf, path, v).value
            == Dict(Set(conf.entries, path[0], Insert(ChildOrEmpty(conf, path[0]), path[1..], v).value))
  {
  }

  /** A fresh empty dict has nothing below its root. */
  lemma EmptyShape(q: seq<string>)
    requires q != []
    ensures ShapeAt(Dict([]), q) == Absent
  {
    ShapeCons([], q[0], q[1..]);
    assert q == [q[0]] + q[1..];
  }

  /**
   * After placing `v` at `path`: below `path` lies `v`, strictly above it
   * lie dicts, and everywhere else the configuration is as it was.
   */
  lemma {:induction false} InsertShape(conf: Tree, path: seq<string>, v: Tree, p: seq<string>)
    requires |path| > 0 && Insert(conf, path, v).Ok?
    ensures ShapeAt(Insert(conf, path, v).value, p)
            == if IsPrefix(path, p) then ShapeAt(v, p[|path|..])
               else if IsPrefix(p, path) then Node
               else ShapeAt(conf, p)
    decreases |path|
  {
    if p != [] {
      if |path| == 1 {
        InsertShapeLast(conf, path, v, p);
      } else {
        InsertUnfold(conf, path, v);
        if p[0] == path[0] {
          InsertShape(ChildOrEmpty(conf, path[0]), path[1..], v, p[1..]);
          InsertShapeDown(conf, path, v, p);
        } else {
          InsertShapeAside(conf, path, v, p);
        }
      }
    }
  }

  /** `InsertShape` one level down, given what it says about the child walked into. */
  lemma InsertShapeDown(conf: Tree, path: seq<string>, v: Tree, p: seq<string>)
    requires |path| > 1 && p != [] && p[0] == path[0] && Insert(conf, path, v).Ok?
    requires conf.Dict? && Insert(ChildOrEmpty(conf, path[0]), path[1..], v).Ok?
    requires ShapeAt(Insert(ChildOrEmpty(conf, path[0]), path[1..], v).value, p[1..])
             == if IsPrefix(path[1..], p[1..]) then ShapeAt(v, p[1..][|path| - 1..])
                else if IsPrefix(p[1..], path[1..]) then Node
                else ShapeAt(ChildOrEmpty(conf, path[0]), p[1..])
    ensures ShapeAt(Insert(conf, path, v).value, p)
            == if IsPrefix(path, p) then ShapeAt(v, p[|path|..])
               else if IsPrefix(p, path) then Node
               else ShapeAt(conf, p)
  {
    InsertUnfold(conf, path, v);
    var c := Insert(ChildOrEmpty(conf, path[0]), path[1..], v).value;
    assert p == [p[0]] + p[1..];
    ShapeCons(Set(conf.entries, path[0], c), p[0], p[1..]);
    InsertShapeBelow(conf, path, p);
  }

  /** `InsertShape` at a position that leaves the path at its first segment. */
  lemma InsertShapeAside(conf: Tree, path: seq<string>, v: Tree, p: seq<string>)
    requires |path| > 1 && p != [] && p[0] != path[0] && Insert(conf, path, v).Ok?
    ensures ShapeAt(Insert(conf, path, v).value, p) == ShapeAt(conf, p)
    ensures !IsPrefix(path, p) && !IsPrefix(p, path)
  {
    InsertUnfold(conf, path, v);
    var c := Insert(ChildOrEmpty(conf, path[0]), path[1..], v).value;
    assert p == [p[0]] + p[1..];
    ShapeCons(conf.entries, p[0], p[1..]);
    ShapeCons(Set(conf.entries, path[0], c), p[0], p[1..]);
  }

  /** `InsertShape` when `path` has a single segment. */
  lemma InsertShapeLast(conf: Tree, path: seq<string>, v: Tree, p: seq<string>)
    requires |path| == 1 && p != [] && Insert(conf, path, v).Ok?
    ensures ShapeAt(Insert(conf, path, v).value, p)
            == if IsPrefix(path, p) then ShapeAt(v, p[|path|..])
               else if IsPrefix(p, path) then Node
               else ShapeAt(conf, p)
  {
    var k := p[0];
    var q := p[1..];
    assert p == [k] + q;
    var r := Insert(conf, path, v).value;
    ShapeCons(conf.entries, k, q);
    ShapeCons(r.entries, k, q);
    if k == path[0] {
      assert IsPrefix(path, p) && p[|path|..] == q;
    } else {
      assert !IsPrefix(path, p) && !IsPrefix(p, path);
    }
  }

  /** How the prefix relations and the old shape one level down read at the top. */
  lemma InsertShapeBelow(conf: Tree, path: seq<string>, p: seq<string>)
    requires conf.Dict? && |path| > 1 && p != [] && p[0] == path[0]
    ensures IsPrefix(path, p) <==> IsPrefix(path[1..], p[1..])
    ensures IsPrefix(p, path) <==> IsPrefix(p[1..], path[1..])
    ensures IsPrefix(path, p) ==> p[|path|..] == p[1..][|path| - 1..]
    ensures !IsPrefix(p[1..], path[1..]) ==> ShapeAt(ChildOrEmpty(conf, path[0]), p[1..]) == ShapeAt(conf, p)
  {
    assert p == [p[0]] + p[1..];
    ShapeCons(conf.entries, p[0], p[1..]);
    if !HasKey(conf.entries, path[0]) && p[1..] != [] {
      EmptyShape(p[1..]);
    }
  }

  /**
   * What placing `ps` in order leaves at position `p` of a configuration whose
   * shape there was `under`: the last placement that reaches `p` decides.
   */
  function Over(ps: Units, p: seq<string>, under: Shape): Shape {
    if ps == [] then under
    else
      var last := ps[|ps| - 1];
      if IsPrefix(last.0, p) then ShapeAt(last.1, p[|last.0|..])
      else if IsPrefix(p, last.0) then Node
      else Over(ps[..|ps| - 1], p, under)
  }

  /** What an empty configuration holds at `p`. */
  function Root(p: seq<string>): Shape {
    if p == [] then Node else Absent
  }

  /** Placements none of which is a prefix of a later one. */
  ghost predicate NoEarlierPrefix(ps: Units) {
    forall j, l :: 0 <= j < l < |ps| ==> !IsPrefix(ps[j].0, ps[l].0)
  }

  lemma {:induction false} OverNotLeaf(ps: Units, path: seq<string>, m: nat, under: Shape)
    requires m < |path| && !under.Leaf?
    requires forall j :: 0 <= j < |ps| ==> !IsPrefix(ps[j].0, path)
    ensures !Over(ps, path[..m], under).Leaf?
    decreases |ps|
  {
    if ps != [] {
      var last := ps[|ps| - 1];
      PrefixOfTake(last.0, path, m);
      OverNotLeaf(ps[..|ps| - 1], path, m, under);
    }
  }

  /**
   * Unflattening the flat entries of placements whose paths survive the
   * separator and never extend an earlier path succeeds, and each position
   * holds what the last placement reaching it put there.
   */
  lemma {:induction false} UnflattenedShape(ps: Units)
    requires WellPaths(ps) && NoEarlierPrefix(ps)
    ensures Unflattened(JoinKeys(ps)).Ok?
    ensures forall p :: ShapeAt(Unflattened(JoinKeys(ps)).value, p) == Over(ps, p, Root(p))
    decreases |ps|
  {
    var flat := JoinKeys(ps);
    if ps == [] {
      forall p ensures ShapeAt(Dict([]), p) == Root(p) {
        if p != [] { EmptyShape(p); }
      }
    } else {
      var n := |ps| - 1;
      var before := ps[..n];
      assert flat[..n] == JoinKeys(before);
      UnflattenedShape(before);
      var conf := Unflattened(JoinKeys(before)).value;
      var path := ps[n].0;
      SplitJoin(path);
      assert Split(flat[n].0) == path;
      forall m | 0 <= m < |path| ensures !ShapeAt(conf, path[..m]).Leaf? {
        OverNotLeaf(before, path, m, Root(path[..m]));
      }
      InsertOk(conf, path, ps[n].1);
      forall p ensures ShapeAt(Unflattened(flat).value, p) == Over(ps, p, Root(p)) {
        InsertShape(conf, path, ps[n].1, p);
      }
    }
  }

  /** Placing `a` and then `b`. */
  lemma {:induction false} OverAppend(a: Units, b: Units, p: seq<string>, under: Shape)
    ensures Over(a + b, p, under) == Over(b, p, Over(a, p, under))
    decreases |b|
  {
    if b == [] {
      assert a + b == a;
    } else {
      var n := |b| - 1;
      assert (a + b)[..|a + b| - 1] == a + b[..n];
      OverAppend(a, b[..n], p, under);
    }
  }

  /** Placements off the way to `p`, and not below it, leave it alone. */
  lemma {:induction false} OverMissed(ps: Units, p: seq<string>, under: Shape)
    requires forall j :: 0 <= j < |ps| ==> !IsPrefix(ps[j].0, p) && !IsPrefix(p, ps[j].0)
    ensures Over(ps, p, under) == under
    decreases |ps|
  {
    if ps != [] {
      OverMissed(ps[..|ps| - 1], p, under);
    }
  }

  /** Placements below the key `k`, seen from a position below `k`. */
  lemma {:induction false} OverUnder(k: string, ps: Units, q: seq<string>, under: Shape)
    ensures Over(Under(k, ps), [k] + q, under) == Over(ps, q, under)
    decreases |ps|
  {
    if ps != [] {
      var n := |ps| - 1;
      var path := ps[n].0;
      assert Under(k, ps)[..n] == Under(k, ps[..n]);
      PrefixCons(k, path, q);
      PrefixCons(k, q, path);
      if IsPrefix(path, q) {
        assert ([k] + q)[|path| + 1..] == q[|path|..];
      }
      OverUnder(k, ps[..n], q, under);
    }
  }

  /** At the root, any placement on a nonempty path leaves a dict. */
  lemma OverRoot(ps: Units, under: Shape)
    requires forall j :: 0 <= j < |ps| ==> |ps[j].0| > 0
    ensures Over(ps, [], under) == if ps == [] then under else Node
  {
  }
}
