// `compress_parameter_config` and `decompress_parameter_config`: flat sweep
// keys are shortened to names a sweep dashboard can show, values are given
// display aliases, and both renamings are recorded so that they can be undone.
module Compression {
  import opened Trees
  import opened PathCodec

  const UNIQUE_NAME_IDENT: string := "sweep_identifier"
  const VALUES_DISPLAY_NAME: string := "sweep_alias"
  const VALUES: string := "values"

  /** `value_compression_mapping`: each display alias with the value it stands for, in insertion order. */
  type Aliases = seq<(Tree, Tree)>

  function AliasNames(m: Aliases): (r: seq<Tree>)
    ensures |r| == |m| && forall j :: 0 <= j < |m| ==> r[j] == m[j].0
  {
    if m == [] then [] else [m[0].0] + AliasNames(m[1..])
  }

  /** `m[a]`, or None when `a not in m`. */
  function AliasLookup(m: Aliases, a: Tree): (r: Option<Tree>)
    ensures r.Some? <==> a in AliasNames(m)
  {
    if m == [] then None
    else if m[0].0 == a then Some(m[0].1)
    else AliasLookup(m[1..], a)
  }

  /**
   * The mappings a compression leaves behind (`compression_mapping` and
   * `value_compression_mapping`), with the outcome of the call. An exception
   * leaves behind whatever was recorded before it was raised.
   */
  datatype Run<T> = Run(keys: Entries, values: Aliases, out: Res<T>)

  // ---------------------------------------------------------------------
  // Python's iteration and integer indexing on a configuration value

  /** The elements `for x in v` visits. */
  function Members(v: Tree): (r: Res<seq<Tree>>)
    ensures r.Ok? <==> v.List? || v.Dict? || v.Str?
    ensures v.List? ==> r == Ok(v.items)
    ensures r.Ok? && v.Dict? ==> |r.value| == |v.entries|
  {
    match v
    case List(items) => Ok(items)
    case Dict(e) => Ok(seq(|e|, j requires 0 <= j < |e| => Str(e[j].0)))
    case Str(s) => Ok(seq(|s|, j requires 0 <= j < |s| => Str([s[j]])))
    case _ => Raise(TypeMismatch)
  }

  /** `v[idx]` for a non-negative integer `idx`. */
  function Item(v: Tree, idx: nat): (r: Res<Tree>)
    ensures v.List? ==> (r.Ok? <==> idx < |v.items|)
    ensures r.Ok? ==> v.List? || v.Str?
  {
    match v
    case List(items) => if idx < |items| then Ok(items[idx]) else Raise(IndexOutOfRange(idx))
    case Str(s) => if idx < |s| then Ok(Str([s[idx]])) else Raise(IndexOutOfRange(idx))
    case Dict(_) => Raise(MissingKey(IntToString(idx)))
    case _ => Raise(TypeMismatch)
  }

  // ---------------------------------------------------------------------
  // First pass: declared identifiers and value aliases

  /**
   * The loop over `enumerate(values)` from position `i` on: the alias of each
   * value is looked up in `sweep_alias`, refused if it is already recorded,
   * and recorded. `acc` holds the aliases collected so far.
   */
  function RecordAliases(values: Aliases, items: seq<Tree>, names: Tree, i: nat, acc: seq<Tree>): (r: (Aliases, Res<seq<Tree>>))
    requires i <= |items|
    ensures r.1.Ok? ==> |r.1.value| == |acc| + |items| - i
    decreases |items| - i
  {
    if i == |items| then (values, Ok(acc))
    else
      match Item(names, i)
      case Fail(err) => (values, Fail(err))
      case Ok(a) =>
        // `a in mapping` hashes the alias; a list or dict cannot be hashed
        if a.IsContainer() then (values, Raise(TypeMismatch))
        else if AliasLookup(values, a).Some? then (values, Raise(AliasReused(a)))
        else RecordAliases(values + [(a, items[i])], items, names, i + 1, acc + [a])
  }

  /** The first pass on one dict value: its identifier is recorded and its values are aliased. */
  function DeclareOne(keys: Entries, values: Aliases, key: string, inner: Entries): (r: Run<Entries>)
    ensures HasKey(inner, UNIQUE_NAME_IDENT) ==> Lookup(r.keys, key) == Lookup(inner, UNIQUE_NAME_IDENT)
    ensures forall k :: k != key ==> Lookup(r.keys, k) == Lookup(keys, k)
    ensures !HasKey(inner, UNIQUE_NAME_IDENT) ==> r.keys == keys
    ensures UniqueKeys(keys) ==> UniqueKeys(r.keys)
    ensures UniqueKeys(inner) && r.out.Ok? ==> !HasKey(r.out.value, UNIQUE_NAME_IDENT)
    ensures !HasKey(inner, UNIQUE_NAME_IDENT) && !HasKey(inner, VALUES_DISPLAY_NAME) ==> r.values == values && r.out == Ok(inner)
  {
    var keys1 := if HasKey(inner, UNIQUE_NAME_IDENT) then Set(keys, key, Lookup(inner, UNIQUE_NAME_IDENT).value) else keys;
    var inner1 := Remove(inner, UNIQUE_NAME_IDENT);
    if HasKey(inner1, VALUES_DISPLAY_NAME) && HasKey(inner1, VALUES) then
      match Members(Lookup(inner1, VALUES).value)
      case Fail(err) => Run(keys1, values, Fail(err))
      case Ok(items) =>
        var (values', res) := RecordAliases(values, items, Lookup(inner1, VALUES_DISPLAY_NAME).value, 0, []);
        match res
        case Fail(err) => Run(keys1, values', Fail(err))
        case Ok(aliases) => Run(keys1, values', Ok(Remove(Set(inner1, VALUES, List(aliases)), VALUES_DISPLAY_NAME)))
    else Run(keys1, values, Ok(inner1))
  }

  /** The first loop, from position `i` on; `conf` is the parameter config as updated so far. */
  function DeclareFrom(keys: Entries, values: Aliases, conf: Entries, i: nat): (r: Run<Entries>)
    requires i <= |conf|
    ensures r.out.Ok? ==> KeysOf(r.out.value) == KeysOf(conf)
    ensures UniqueKeys(keys) ==> UniqueKeys(r.keys)
    decreases |conf| - i
  {
    if i == |conf| then Run(keys, values, Ok(conf))
    else if !conf[i].1.Dict? then DeclareFrom(keys, values, conf, i + 1)
    else
      var one := DeclareOne(keys, values, conf[i].0, conf[i].1.entries);
      match one.out
      case Fail(err) => Run(one.keys, one.values, Fail(err))
      case Ok(inner) =>
        var conf' := conf[i := (conf[i].0, Dict(inner))];
        assert KeysOf(conf') == KeysOf(conf) by {
          forall j | 0 <= j < |conf| ensures KeysOf(conf')[j] == KeysOf(conf)[j] {
            KeysOfIndex(conf', j);
            KeysOfIndex(conf, j);
          }
        }
        DeclareFrom(one.keys, one.values, conf', i + 1)
  }

  // ---------------------------------------------------------------------
  // Second pass: names from path suffixes

  /** `'.'.join(segs)`, which the loop builds from the last segment backwards. */
  function DotJoin(segs: seq<string>): string
    requires |segs| > 0
  {
    if |segs| == 1 then segs[0] else segs[0] + "." + DotJoin(segs[1..])
  }

  /**
   * The segment the scan from the end of a path stops at: the last of the
   * first `n` segments that no earlier key has claimed.
   */
  function FreeSegment(segs: seq<string>, claimed: set<string>, n: nat): (r: Option<nat>)
    requires n <= |segs|
    ensures r.Some? ==> r.value < n && segs[r.value] !in claimed
    ensures r.Some? ==> forall m :: r.value < m < n ==> segs[m] in claimed
    ensures r.None? ==> forall m :: 0 <= m < n ==> segs[m] in claimed
  {
    if n == 0 then None
    else if segs[n - 1] !in claimed then Some(n - 1)
    else FreeSegment(segs, claimed, n - 1)
  }

  /** The second loop over `all_keys`, from position `i` on; `claimed` is the top level of `current_tri`. */
  function ClaimFrom(keys: Entries, claimed: set<string>, names: seq<string>, i: nat): (r: Entries)
    requires i <= |names|
    ensures UniqueKeys(keys) ==> UniqueKeys(r)
    decreases |names| - i
  {
    if i == |names| then keys
    else
      var segs := Split(names[i]);
      match FreeSegment(segs, claimed, |segs|)
      case None => ClaimFrom(keys, claimed, names, i + 1)
      case Some(m) =>
        var keys' := if HasKey(keys, names[i]) then keys else Set(keys, names[i], Str(DotJoin(segs[m..])));
        ClaimFrom(keys', claimed + {segs[m]}, names, i + 1)
  }

  /** The segments claimed by the keys before position `i`. */
  function ClaimedBefore(names: seq<string>, i: nat): set<string>
    requires i <= |names|
  {
    if i == 0 then {}
    else
      var c := ClaimedBefore(names, i - 1);
      var segs := Split(names[i - 1]);
      match FreeSegment(segs, c, |segs|)
      case None => c
      case Some(m) => c + {segs[m]}
  }

  // ---------------------------------------------------------------------
  // Third pass: renaming

  /** The third loop, from position `i` on: every key is replaced by its recorded name. */
  function RenameFrom(keys: Entries, conf: Entries, i: nat, ret: Entries): (r: Res<Entries>)
    requires i <= |conf|
    ensures r.Ok? && UniqueKeys(ret) ==> UniqueKeys(r.value)
    decreases |conf| - i
  {
    if i == |conf| then Ok(ret)
    else
      match Lookup(keys, conf[i].0)
      case None => Raise(MissingKey(conf[i].0))
      case Some(name) =>
        // a name that is not a string cannot key the flat dictionaries of this model
        if name.Str? then RenameFrom(keys, conf, i + 1, Set(ret, name.s, conf[i].1))
        else Raise(TypeMismatch)
  }

  /** The first pass alone, from an empty start. */
  function Declared(keys: Entries, values: Aliases, config: Entries): (r: Run<Entries>)
    ensures r.out.Ok? ==> KeysOf(r.out.value) == KeysOf(config)
    ensures UniqueKeys(keys) ==> UniqueKeys(r.keys)
  {
    DeclareFrom(keys, values, config, 0)
  }

  /** `compress_parameter_config`, from the mappings recorded so far. */
  function Compressed(keys: Entries, values: Aliases, config: Entries): (r: Run<Entries>)
    ensures r.out.Ok? ==> Declared(keys, values, config).out.Ok?
  {
    var first := Declared(keys, values, config);
    match first.out
    case Fail(err) => first
    case Ok(conf) =>
      var keys' := ClaimFrom(first.keys, {}, KeysOf(conf), 0);
      Run(keys', first.values, RenameFrom(keys', conf, 0, []))
  }

  // ---------------------------------------------------------------------
  // Decompression

  /** A value that is a recorded alias stands for its value; any other value stands for itself. */
  function Resolve(values: Aliases, v: Tree): (r: Tree)
    ensures r == v || (v.Str? && AliasLookup(values, v) == Some(r))
    ensures !v.Str? || v !in AliasNames(values) ==> r == v
  {
    if v.Str? then
      match AliasLookup(values, v)
      case None => v
      case Some(x) => x
    else v
  }

  /**
   * `{v: k for k, v in compression_mapping.items()}[name]`: the last key
   * recorded under the name wins.
   */
  function Original(keys: Entries, name: string): (r: Option<string>)
    ensures r.None? <==> forall j :: 0 <= j < |keys| ==> keys[j].1 != Str(name)
  {
    if keys == [] then None
    else if keys[|keys| - 1].1 == Str(name) then Some(keys[|keys| - 1].0)
    else Original(keys[..|keys| - 1], name)
  }

  /** The key found is recorded under the name, and no key is found only when none is. */
  lemma {:induction false} OriginalSpec(keys: Entries, name: string)
    ensures var r := Original(keys, name);
      && (r.Some? ==> exists j :: 0 <= j < |keys| && keys[j] == (r.value, Str(name)))
      && (r.None? ==> forall j :: 0 <= j < |keys| ==> keys[j].1 != Str(name))
  {
    if keys != [] && keys[|keys| - 1].1 != Str(name) {
      OriginalSpec(keys[..|keys| - 1], name);
      assert forall j :: 0 <= j < |keys| - 1 ==> keys[..|keys| - 1][j] == keys[j];
    }
  }

  /** Names can serve as dict keys: none is a list or a dict. */
  predicate Hashable(keys: Entries) {
    forall j :: 0 <= j < |keys| ==> !keys[j].1.IsContainer()
  }

  /** The loop of `decompress_parameter_config` from position `i` on. */
  function DecompressFrom(keys: Entries, values: Aliases, config: Entries, i: nat, ret: Entries): (r: Res<Entries>)
    requires i <= |config|
    ensures r.Fail? ==> r.error.at.None? && r.error.kind.MissingKey? && Original(keys, r.error.kind.key).None?
    ensures r.Ok? ==> forall k :: HasKey(ret, k) ==> HasKey(r.value, k)
    ensures r.Ok? && UniqueKeys(ret) ==> UniqueKeys(r.value)
    decreases |config| - i
  {
    if i == |config| then Ok(ret)
    else
      match Original(keys, config[i].0)
      case None => Raise(MissingKey(config[i].0))
      case Some(k) => DecompressFrom(keys, values, config, i + 1, Set(ret, k, Resolve(values, config[i].1)))
  }

  /** `decompress_parameter_config` */
  function Decompressed(keys: Entries, values: Aliases, config: Entries): (r: Res<Entries>)
    ensures r.Fail? ==> r.error.at.None?
    ensures r.Fail? && Hashable(keys) ==> r.error.kind.MissingKey? && Original(keys, r.error.kind.key).None?
    ensures r.Ok? ==> Hashable(keys) && UniqueKeys(r.value)
  {
    if !Hashable(keys) then Raise(TypeMismatch)
    else DecompressFrom(keys, values, config, 0, [])
  }
}
