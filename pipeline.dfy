// The whole path a sweep configuration takes: `standardize_sweep_config`
// followed by `destandardize_sweep_config` on the compressed parameters gives
// the parameter tree back, without its "sweep" tags.
module Pipeline {
  import opened Trees
  import opened PathCodec
  import opened Flattener
  import opened Unflatten
  import opened Reintegrate
  import opened RoundTrip
  import opened Compression
  import opened CompressionFacts
  import opened CompressionTheorems
  import opened Session

  /** A flat value that declares neither a unique name nor display aliases. */
  predicate NoDirectives(v: Tree) {
    !(v.Dict? && (HasKey(v.entries, UNIQUE_NAME_IDENT) || HasKey(v.entries, VALUES_DISPLAY_NAME)))
  }

  /** Every sweep unit found by flattening becomes a dict: its payload. */
  lemma {:induction false} UnitValuesDicts(t: Tree)
    requires DictTree(t)
    ensures forall l :: 0 <= l < |UnitPaths(t)| ==> UnitPaths(t)[l].1.Dict?
    decreases t, 1
  {
    UnitValuesDictsTo(t, |t.entries|);
  }

  lemma {:induction false} UnitValuesDictsTo(t: Tree, i: nat)
    requires DictTree(t) && i <= |t.entries|
    ensures forall l :: 0 <= l < |UnitPathsTo(t, i)| ==> UnitPathsTo(t, i)[l].1.Dict?
    decreases t, 0, i
  {
    if i > 0 {
      UnitValuesDictsTo(t, i - 1);
      var c := t.entries[i - 1].1;
      if !IsUnit(c) && c.Dict? {
        UnitValuesDicts(c);
      }
      var a: Units := UnitPathsTo(t, i - 1);
      var b: Units := Contribution(t, i - 1);
      forall l | 0 <= l < |a + b| ensures (a + b)[l].1.Dict? {
        if l >= |a| {
          assert (a + b)[l] == b[l - |a|];
          if !IsUnit(c) && c.Dict? {
            assert b[l - |a|].1 == UnitPaths(c)[l - |a|].1;
          }
        }
      }
    }
  }

  /**
   * Standardizing a sweep whose parameters form a tree of dicts, starting
   * from an empty key mapping, and destandardizing the compressed parameters
   * with the mapping handed out, gives the parameter tree back with every
   * "sweep" tag removed, provided no unit declares a unique name or aliases
   * and the compressed names do not collide.
   */
  lemma StandardizeRoundTrip(values: Aliases, rem0: Tree, sweep: Entries, params: Tree)
    requires Lookup(sweep, PARAMETERS) == Some(params) && DictTree(params)
    requires forall l :: 0 <= l < |UnitPaths(params)| ==> NoDirectives(UnitPaths(params)[l].1)
    requires var out := Standardized(Mapping([], values, rem0), sweep).1;
             out.Ok? && Lookup(out.value, PARAMETERS).Some?
             && Lookup(out.value, PARAMETERS).value.Dict?
             && |Lookup(out.value, PARAMETERS).value.entries| == |UnitPaths(params)|
    ensures var (m, out) := Standardized(Mapping([], values, rem0), sweep);
            var back := Destandardized(m, Lookup(out.value, PARAMETERS).value.entries);
            back.Ok? && SameTree(back.value, Strip(params))
  {
    FlattenTreeSpec(params);
    UnitValuesDicts(params);
    RoundTrip.RoundTrip(params);
    var flat := JoinKeys(UnitPaths(params));
    var rem := RemTree(params);
    assert FlattenSweepConfig(params) == Ok((flat, rem));
    DeclareUntouched([], values, flat, 0);
    var c := Compressed([], values, flat);
    assert c.out.Ok?;
    assert Lookup(Set(sweep, PARAMETERS, Dict(c.out.value)), PARAMETERS) == Some(Dict(c.out.value));
    CompressDecompress(values, flat);
  }
}
