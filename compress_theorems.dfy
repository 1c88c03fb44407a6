// The key-naming rules of `compress_parameter_config` stated on whole calls,
// and decompression undoing a compression that gave every key its own name.
module CompressionTheorems {
  import opened Trees
  import opened PathCodec
  import opened Compression
  import opened CompressionFacts
  import opened Inversion

  /**
   * A declared `sweep_identifier` becomes the key's name verbatim, whatever
   * the claim pass would have chosen; it keys the compressed config, and the
   * dict no longer carries it.
   */
  lemma CompressIdentifier(keys: Entries, values: Aliases, config: Entries, t: nat)
    requires UniqueKeys(config) && t < |config|
    requires config[t].1.Dict? && UniqueKeys(config[t].1.entries) && HasKey(config[t].1.entries, UNIQUE_NAME_IDENT)
    requires Compressed(keys, values, config).out.Ok?
    ensures var r := Compressed(keys, values, config);
      var ident := Lookup(config[t].1.entries, UNIQUE_NAME_IDENT).value;
      var conf := Declared(keys, values, config).out.value;
      && Lookup(r.keys, config[t].0) == Some(ident)
      && conf[t].0 == config[t].0 && conf[t].1.Dict? && !HasKey(conf[t].1.entries, UNIQUE_NAME_IDENT)
      && ident.Str? && HasKey(r.out.value, ident.s)
  {
    var first := Declared(keys, values, config);
    var conf := first.out.value;
    DeclareFromFacts(keys, values, config, 0, t);
    var names := KeysOf(conf);
    var keys' := ClaimFrom(first.keys, {}, names, 0);
    ClaimKeeps(first.keys, {}, names, 0, config[t].0);
    RenameNames(keys', conf, 0, [], t);
  }

  /**
   * A key with no identifier and no name recorded by an earlier call is named
   * after the suffix of its path that starts at the last segment no earlier
   * key claimed.
   */
  lemma CompressSuffixName(keys: Entries, values: Aliases, config: Entries, t: nat)
    requires UniqueKeys(config) && t < |config|
    requires !(config[t].1.Dict? && HasKey(config[t].1.entries, UNIQUE_NAME_IDENT))
    requires !HasKey(keys, config[t].0)
    requires Declared(keys, values, config).out.Ok?
    ensures Lookup(Compressed(keys, values, config).keys, config[t].0) == ClaimedName(KeysOf(config), t)
  {
    var first := Declared(keys, values, config);
    var conf := first.out.value;
    DeclareFromFacts(keys, values, config, 0, t);
    var names := KeysOf(conf);
    DistinctKeysOf(config);
    KeysOfIndex(config, t);
    ClaimAt(first.keys, names, 0, t);
  }

  /**
   * A key with no identifier and no earlier name whose every path segment is
   * claimed by earlier keys gets no name, and the renaming pass raises.
   */
  lemma CompressAllClaimed(keys: Entries, values: Aliases, config: Entries, t: nat)
    requires UniqueKeys(config) && t < |config|
    requires !(config[t].1.Dict? && HasKey(config[t].1.entries, UNIQUE_NAME_IDENT))
    requires !HasKey(keys, config[t].0)
    requires Declared(keys, values, config).out.Ok?
    requires forall m :: 0 <= m < |Split(config[t].0)| ==> Split(config[t].0)[m] in ClaimedBefore(KeysOf(config), t)
    ensures Compressed(keys, values, config).out.Fail?
  {
    var first := Declared(keys, values, config);
    var conf := first.out.value;
    CompressSuffixName(keys, values, config, t);
    KeysOfIndex(config, t);
    DeclareFromFacts(keys, values, config, 0, t);
    var keys' := ClaimFrom(first.keys, {}, KeysOf(conf), 0);
    RenameFails(keys', conf, 0, [], t);
  }

  /** A fresh compression records names only for the keys of the config. */
  lemma FreshDomain(values: Aliases, config: Entries, k: string)
    requires UniqueKeys(config) && k !in KeysOf(config)
    requires Declared([], values, config).out.Ok?
    ensures Lookup(Compressed([], values, config).keys, k) == None
  {
    var first := Declared([], values, config);
    forall j | 0 <= j < |config| ensures config[j].0 != k {
      KeysOfIndex(config, j);
    }
    DeclareKeysOutside([], values, config, 0, k);
    ClaimOther(first.keys, {}, KeysOf(first.out.value), 0, k);
  }

  /**
   * With distinct names, each recorded only for keys of the config, the
   * name of the `j`-th key leads back to that key.
   */
  lemma NameLeadsBack(keys: Entries, conf: Entries, j: nat)
    requires UniqueKeys(keys) && UniqueKeys(conf) && j < |conf|
    requires forall k :: HasKey(keys, k) ==> k in KeysOf(conf)
    requires forall l :: 0 <= l < |conf| ==> Lookup(keys, conf[l].0) == Some(Str(NameOf(keys, conf[l].0)))
    requires forall a, b :: 0 <= a < b < |conf| ==> NameOf(keys, conf[a].0) != NameOf(keys, conf[b].0)
    ensures Original(keys, NameOf(keys, conf[j].0)) == Some(conf[j].0)
  {
    var n := NameOf(keys, conf[j].0);
    var p := KeyPosition(keys, conf[j].0);
    OriginalSpec(keys, n);
    var r := Original(keys, n);
    assert keys[p].1 == Str(n);
    assert r.Some?;
    var l :| 0 <= l < |keys| && keys[l] == (r.value, Str(n));
    KeysOfIndex(keys, l);
    assert r.value in KeysOf(conf);
    var j' :| 0 <= j' < |conf| && KeysOf(conf)[j'] == r.value;
    KeysOfIndex(conf, j');
    LookupIndex(keys, l);
    assert NameOf(keys, conf[j'].0) == n;
    assert j' == j;
  }

  /** Every name is a string and no dict can be a name: the inverse mapping can be built. */
  lemma NamesHashable(keys: Entries, conf: Entries)
    requires UniqueKeys(keys)
    requires forall k :: HasKey(keys, k) ==> k in KeysOf(conf)
    requires forall l :: 0 <= l < |conf| ==> Lookup(keys, conf[l].0) == Some(Str(NameOf(keys, conf[l].0)))
    ensures Hashable(keys)
  {
    forall l | 0 <= l < |keys| ensures !keys[l].1.IsContainer() {
      NameIsString(keys, conf, l);
    }
  }

  lemma NameIsString(keys: Entries, conf: Entries, l: nat)
    requires UniqueKeys(keys) && l < |keys|
    requires forall k :: HasKey(keys, k) ==> k in KeysOf(conf)
    requires forall l :: 0 <= l < |conf| ==> Lookup(keys, conf[l].0) == Some(Str(NameOf(keys, conf[l].0)))
    ensures keys[l].1.Str?
  {
    var k := keys[l].0;
    KeysOfIndex(keys, l);
    var j := KeyPosition(conf, k);
    assert Lookup(keys, conf[j].0) == Some(Str(NameOf(keys, conf[j].0)));
    LookupIndex(keys, l);
  }

  /**
   * Names recorded only for keys of `conf`, one string name per key, no two
   * alike, and `ret` holding each value of `conf` under its key's name.
   */
  ghost predicate Invertible(keys: Entries, conf: Entries, ret: Entries) {
    && UniqueKeys(keys) && UniqueKeys(conf) && |ret| == |conf|
    && (forall k :: HasKey(keys, k) ==> k in KeysOf(conf))
    && (forall l :: 0 <= l < |conf| ==>
          Lookup(keys, conf[l].0) == Some(Str(NameOf(keys, conf[l].0))) && ret[l] == (NameOf(keys, conf[l].0), conf[l].1))
    && (forall a, b :: 0 <= a < b < |conf| ==> NameOf(keys, conf[a].0) != NameOf(keys, conf[b].0))
  }

  /** A renaming with no name given twice holds one distinct string name per key. */
  lemma RenameOneToOne(keys: Entries, conf: Entries)
    requires RenameFrom(keys, conf, 0, []).Ok? && |RenameFrom(keys, conf, 0, []).value| == |conf|
    ensures var ret := RenameFrom(keys, conf, 0, []).value;
      && (forall l :: 0 <= l < |conf| ==>
            Lookup(keys, conf[l].0) == Some(Str(NameOf(keys, conf[l].0))) && ret[l] == (NameOf(keys, conf[l].0), conf[l].1))
      && (forall a, b :: 0 <= a < b < |conf| ==> NameOf(keys, conf[a].0) != NameOf(keys, conf[b].0))
  {
    forall l | 0 <= l < |conf|
      ensures var ret := RenameFrom(keys, conf, 0, []).value;
              Lookup(keys, conf[l].0) == Some(Str(NameOf(keys, conf[l].0))) && ret[l] == (NameOf(keys, conf[l].0), conf[l].1)
    {
      RenameEntry(keys, conf, l);
    }
    forall a, b | 0 <= a < b < |conf| ensures NameOf(keys, conf[a].0) != NameOf(keys, conf[b].0) {
      RenameEntry(keys, conf, a);
      RenameEntry(keys, conf, b);
      UniqueKeysApart(RenameFrom(keys, conf, 0, []).value, a, b);
    }
  }

  /** Position `l` of a renaming with no name given twice: the value of `conf[l]` under its key's string name. */
  lemma RenameEntry(keys: Entries, conf: Entries, l: nat)
    requires RenameFrom(keys, conf, 0, []).Ok? && |RenameFrom(keys, conf, 0, []).value| == |conf| && l < |conf|
    ensures var ret := RenameFrom(keys, conf, 0, []).value;
            Lookup(keys, conf[l].0) == Some(Str(NameOf(keys, conf[l].0))) && ret[l] == (NameOf(keys, conf[l].0), conf[l].1)
  {
    RenameAppends(keys, conf, 0, []);
    RenameNames(keys, conf, 0, [], l);
    RenamedIndex(keys, conf, 0, l);
  }

  /** The first pass keeps the keys of the config, in order, and dicts stay dicts. */
  lemma DeclaredKeys(values: Aliases, config: Entries)
    requires UniqueKeys(config)
    requires Declared([], values, config).out.Ok?
    ensures var conf := Declared([], values, config).out.value;
      && UniqueKeys(conf) && KeysOf(conf) == KeysOf(config)
      && forall j :: 0 <= j < |config| ==> conf[j].0 == config[j].0 && (config[j].1.Dict? ==> conf[j].1.Dict?)
  {
    var conf := Declared([], values, config).out.value;
    forall j | 0 <= j < |config| ensures conf[j].0 == config[j].0 && (config[j].1.Dict? ==> conf[j].1.Dict?) {
      DeclareFromFacts([], values, config, 0, j);
    }
    SameKeysUnique(config, conf);
  }

  /** A fresh compression in which no two keys received the same name is invertible. */
  lemma FreshInvertible(values: Aliases, config: Entries)
    requires UniqueKeys(config)
    requires Compressed([], values, config).out.Ok?
    requires |Compressed([], values, config).out.value| == |config|
    ensures var r := Compressed([], values, config);
      var conf := Declared([], values, config).out.value;
      && Invertible(r.keys, conf, r.out.value)
      && forall j :: 0 <= j < |config| ==> conf[j].0 == config[j].0 && (config[j].1.Dict? ==> conf[j].1.Dict?)
  {
    var r := Compressed([], values, config);
    var conf := Declared([], values, config).out.value;
    DeclaredKeys(values, config);
    RenameOneToOne(r.keys, conf);
    forall k | HasKey(r.keys, k) ensures k in KeysOf(conf) {
      if k !in KeysOf(conf) {
        FreshDomain(values, config, k);
      }
    }
  }

  /** Decompressing an invertible renaming of dict values gives the entries back. */
  lemma InvertibleDecompress(keys: Entries, values: Aliases, conf: Entries, ret: Entries)
    requires Invertible(keys, conf, ret)
    requires forall j :: 0 <= j < |conf| ==> conf[j].1.Dict?
    ensures Decompressed(keys, values, ret) == Ok(conf)
  {
    var names := KeysOf(conf);
    DistinctKeysOf(conf);
    NamesHashable(keys, conf);
    forall j | 0 <= j < |conf| ensures Original(keys, ret[j].0) == Some(names[j]) {
      NameLeadsBack(keys, conf, j);
      KeysOfIndex(conf, j);
    }
    DecompressExact(keys, values, ret, 0, [], names);
    var back := Restored(values, ret, names, 0);
    forall j | 0 <= j < |conf| ensures back[j] == conf[j] {
      RestoredIndex(values, ret, names, 0, j);
      KeysOfIndex(conf, j);
    }
    assert [] + back == conf;
  }

  /**
   * Decompression undoes a fresh compression of flat sweep entries in which
   * no two keys received the same name: every value is back under its
   * original key, in order, as the first pass left it.
   */
  lemma CompressDecompress(values: Aliases, config: Entries)
    requires UniqueKeys(config)
    requires forall j :: 0 <= j < |config| ==> config[j].1.Dict?
    requires Compressed([], values, config).out.Ok?
    requires |Compressed([], values, config).out.value| == |config|
    ensures var r := Compressed([], values, config);
      Decompressed(r.keys, r.values, r.out.value) == Declared([], values, config).out
  {
    var r := Compressed([], values, config);
    FreshInvertible(values, config);
    InvertibleDecompress(r.keys, r.values, Declared([], values, config).out.value, r.out.value);
  }
}
