// The module-level state of the sweep utilities (`compression_mapping`,
// `value_compression_mapping`, `remaining_bunch`) as an object, with the
// operations that read and update it: compression, decompression, and the
// two compositions that turn a sweep configuration into its flat,
// compressed form and back.
module Session {
  import opened Trees
  import opened PathCodec
  import opened Flattener
  import opened Unflatten
  import opened Reintegrate
  import opened Compression

  const PARAMETERS: string := "parameters"

  /** The mapping `standardize_sweep_config` hands out and `destandardize_sweep_config` accepts. */
  datatype Mapping = Mapping(keys: Entries, values: Aliases, remainder: Tree)

  /** `standardize_sweep_config` on the mapping recorded so far: the new mapping and the outcome. */
  function Standardized(m: Mapping, sweep: Entries): (r: (Mapping, Res<Entries>))
    ensures !HasKey(sweep, PARAMETERS) ==> r == (m, Raise(MissingKey(PARAMETERS)))
    ensures r.1.Ok? ==> KeysOf(r.1.value) == KeysOf(sweep) && Lookup(r.1.value, PARAMETERS).value.Dict?
    ensures r.1.Ok? ==> forall k :: k != PARAMETERS ==> Lookup(r.1.value, k) == Lookup(sweep, k)
    ensures r.1.Ok? ==> var f := FlattenSweepConfig(Lookup(sweep, PARAMETERS).value);
                        f.Ok? && r.0.remainder == f.value.1
  {
    match Lookup(sweep, PARAMETERS)
    case None => (m, Raise(MissingKey(PARAMETERS)))
    case Some(params) =>
      match FlattenSweepConfig(params)
      case Fail(err) => (m, Fail(err))
      case Ok((flat, rem)) =>
        var c := Compressed(m.keys, m.values, flat);
        var m' := Mapping(c.keys, c.values, rem);
        match c.out
        case Fail(err) => (m', Fail(err))
        case Ok(ret) => (m', Ok(Set(sweep, PARAMETERS, Dict(ret))))
  }

  /** `destandardize_sweep_config` with the mapping in force. */
  function Destandardized(m: Mapping, sweep: Entries): (r: Res<Tree>)
    ensures r.Ok? ==> r.value.Dict?
    ensures r.Fail? ==> r.error.at.None?
  {
    match Decompressed(m.keys, m.values, sweep)
    case Fail(err) => Fail(err)
    case Ok(flat) =>
      match Unflattened(flat)
      case Fail(err) => Fail(err)
      case Ok(conf) => Reintegrated(conf, m.remainder)
  }

  class Sweeper {
    /** `compression_mapping`: flat key -> the name it was compressed to. */
    var keys: Entries
    /** `value_compression_mapping`: display alias -> the value it stands for. */
    var values: Aliases
    /** `remaining_bunch`: the remainder of the last configuration flattened. */
    var remainder: Tree

    function State(): Mapping
      reads this
    {
      Mapping(keys, values, remainder)
    }

    /** The state at import time. */
    constructor ()
      ensures State() == Mapping([], [], Dict([]))
    {
      keys := [];
      values := [];
      remainder := Dict([]);
    }

    /**
     * `compress_parameter_config`: the three loops over the parameter config.
     * The mappings keep what was recorded before an exception.
     */
    method Compress(config: Entries) returns (r: Res<Entries>)
      modifies this
      ensures Run(keys, values, r) == Compressed(old(keys), old(values), config)
      ensures remainder == old(remainder)
    {
      var first := DeclareAll(config);
      if first.Fail? {
        return first;
      }
      ClaimNames(KeysOf(first.value));
      r := Rename(first.value);
    }

    /** The first loop: declared identifiers and value aliases. */
    method DeclareAll(config: Entries) returns (r: Res<Entries>)
      modifies this
      ensures Run(keys, values, r) == Declared(old(keys), old(values), config)
      ensures remainder == old(remainder)
    {
      var conf := config;
      var i := 0;
      while i < |conf|
        invariant 0 <= i <= |conf|
        invariant DeclareFrom(keys, values, conf, i) == Declared(old(keys), old(values), config)
        invariant remainder == old(remainder)
      {
        if conf[i].1.Dict? {
          var one := DeclareOneStep(conf[i].0, conf[i].1.entries);
          if one.Fail? {
            return one;
          }
          conf := conf[i := (conf[i].0, Dict(one.value))];
        }
        i := i + 1;
      }
      return Ok(conf);
    }

    /**
     * The second loop: every key without a name is named after the suffix
     * of its path that starts at the last segment not yet claimed, and that
     * segment is claimed. `claimed` is the top level of `current_tri`, the
     * only level the loop ever looks at.
     */
    method ClaimNames(names: seq<string>)
      modifies this
      ensures keys == ClaimFrom(old(keys), {}, names, 0)
      ensures values == old(values) && remainder == old(remainder)
    {
      var claimed: set<string> := {};
      var k := 0;
      while k < |names|
        invariant 0 <= k <= |names|
        invariant ClaimFrom(keys, claimed, names, k) == ClaimFrom(old(keys), {}, names, 0)
        invariant values == old(values) && remainder == old(remainder)
      {
        var segs := Split(names[k]);
        var free, current := ScanFree(segs, claimed);
        if free.Some? {
          claimed := claimed + {segs[free.value]};
          if !HasKey(keys, names[k]) {
            keys := Set(keys, names[k], Str(current));
          }
        }
        k := k + 1;
      }
    }

    /**
     * The inner loop of the second loop: from the last segment backwards,
     * the first one not yet claimed, and the dotted suffix that starts there.
     */
    static method ScanFree(segs: seq<string>, claimed: set<string>) returns (free: Option<nat>, current: string)
      ensures free == FreeSegment(segs, claimed, |segs|)
      ensures free.Some? ==> current == DotJoin(segs[free.value..])
    {
      var j := |segs|;
      current := "";
      while j > 0
        invariant 0 <= j <= |segs|
        invariant FreeSegment(segs, claimed, |segs|) == FreeSegment(segs, claimed, j)
        invariant j < |segs| ==> current == DotJoin(segs[j..])
      {
        j := j - 1;
        if j == |segs| - 1 {
          current := segs[j];
        } else {
          assert segs[j..][1..] == segs[j + 1..];
          current := segs[j] + "." + current;
        }
        if segs[j] !in claimed {
          return Some(j), current;
        }
      }
      return None, current;
    }

    /** The third loop: each value under the name recorded for its key. */
    method Rename(conf: Entries) returns (r: Res<Entries>)
      ensures r == RenameFrom(keys, conf, 0, [])
    {
      var ret: Entries := [];
      var t := 0;
      while t < |conf|
        invariant 0 <= t <= |conf|
        invariant RenameFrom(keys, conf, t, ret) == RenameFrom(keys, conf, 0, [])
      {
        match Lookup(keys, conf[t].0) {
          case None =>
            return Raise(MissingKey(conf[t].0));
          case Some(name) =>
            if !name.Str? {
              return Raise(TypeMismatch);
            }
            ret := Set(ret, name.s, conf[t].1);
        }
        t := t + 1;
      }
      return Ok(ret);
    }

    /** The body of the first loop for one dict value: identifier, then aliases. */
    method DeclareOneStep(key: string, inner0: Entries) returns (r: Res<Entries>)
      modifies this
      ensures Run(keys, values, r) == DeclareOne(old(keys), old(values), key, inner0)
      ensures remainder == old(remainder)
    {
      var inner := inner0;
      if HasKey(inner, UNIQUE_NAME_IDENT) {
        keys := Set(keys, key, Lookup(inner, UNIQUE_NAME_IDENT).value);
        inner := Remove(inner, UNIQUE_NAME_IDENT);
      }
      if HasKey(inner, VALUES_DISPLAY_NAME) && HasKey(inner, VALUES) {
        var members := Members(Lookup(inner, VALUES).value);
        if members.Fail? {
          return Fail(members.error);
        }
        var aliases := RecordAll(members.value, Lookup(inner, VALUES_DISPLAY_NAME).value);
        if aliases.Fail? {
          return Fail(aliases.error);
        }
        inner := Remove(Set(inner, VALUES, List(aliases.value)), VALUES_DISPLAY_NAME);
      }
      return Ok(inner);
    }

    /** The loop over a unit's values: each display alias is recorded for its value. */
    method RecordAll(items: seq<Tree>, names: Tree) returns (r: Res<seq<Tree>>)
      modifies this
      ensures (values, r) == RecordAliases(old(values), items, names, 0, [])
      ensures keys == old(keys) && remainder == old(remainder)
    {
      var aliases: seq<Tree> := [];
      var idx := 0;
      while idx < |items|
        invariant 0 <= idx <= |items|
        invariant keys == old(keys) && remainder == old(remainder)
        invariant RecordAliases(values, items, names, idx, aliases) == RecordAliases(old(values), items, names, 0, [])
      {
        var a := Item(names, idx);
        if a.Fail? {
          return Fail(a.error);
        }
        if a.value.IsContainer() {
          return Raise(TypeMismatch);
        }
        if AliasLookup(values, a.value).Some? {
          return Raise(AliasReused(a.value));
        }
        values := values + [(a.value, items[idx])];
        aliases := aliases + [a.value];
        idx := idx + 1;
      }
      return Ok(aliases);
    }

    /** `decompress_parameter_config`: reads the mappings, changes nothing. */
    method Decompress(config: Entries) returns (r: Res<Entries>)
      ensures r == Decompressed(keys, values, config)
    {
      // building `decompression_mapping` hashes every name
      var l := 0;
      while l < |keys|
        invariant 0 <= l <= |keys|
        invariant forall q :: 0 <= q < l ==> !keys[q].1.IsContainer()
      {
        if keys[l].1.IsContainer() {
          return Raise(TypeMismatch);
        }
        l := l + 1;
      }
      var ret: Entries := [];
      var i := 0;
      while i < |config|
        invariant 0 <= i <= |config|
        invariant DecompressFrom(keys, values, config, i, ret) == Decompressed(keys, values, config)
      {
        var t := Resolve(values, config[i].1);
        match Original(keys, config[i].0) {
          case None =>
            return Raise(MissingKey(config[i].0));
          case Some(k) =>
            ret := Set(ret, k, t);
        }
        i := i + 1;
      }
      return Ok(ret);
    }

    /**
     * `standardize_sweep_config`: flatten the parameters, remember the
     * remainder, compress the flat parameters and hand out the mapping.
     */
    method Standardize(sweep: Entries) returns (r: Res<(Entries, Mapping)>)
      modifies this
      ensures (State(), if r.Ok? then Ok(r.value.0) else Fail(r.error)) == Standardized(old(State()), sweep)
      ensures r.Ok? ==> r.value.1 == State()
    {
      var params := Lookup(sweep, PARAMETERS);
      if params.None? {
        return Raise(MissingKey(PARAMETERS));
      }
      var flat := FlattenSweepConfig(params.value);
      if flat.Fail? {
        return Fail(flat.error);
      }
      remainder := flat.value.1;
      var c := Compress(flat.value.0);
      if c.Fail? {
        return Fail(c.error);
      }
      return Ok((Set(sweep, PARAMETERS, Dict(c.value)), State()));
    }

    /**
     * `destandardize_sweep_config`: install the mapping, if one is given,
     * then decompress, unflatten and put the remainder back.
     */
    method Destandardize(sweep: Entries, mapping: Option<Mapping>) returns (r: Res<Tree>)
      modifies this
      ensures State() == if mapping.Some? then mapping.value else old(State())
      ensures r == Destandardized(State(), sweep)
    {
      if mapping.Some? {
        keys := mapping.value.keys;
        values := mapping.value.values;
        remainder := mapping.value.remainder;
      }
      var flat := Decompress(sweep);
      if flat.Fail? {
        return Fail(flat.error);
      }
      var conf := Unflatten.Unflatten(flat.value);
      if conf.Fail? {
        return Fail(conf.error);
      }
      r := AddWhereNeeded(conf.value, remainder);
    }
  }
}
