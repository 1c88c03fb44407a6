// What compression promises: declared identifiers are kept verbatim, other
// keys are named after their shortest unclaimed path suffix, aliases are
// recorded once each, and decompression undoes it all when no two keys
// received the same name.
module CompressionFacts {
  import opened Trees
  import opened PathCodec
  import opened Compression

  // ---------------------------------------------------------------------
  // Value aliases

  /**
   * Every value from position `i` on has an alias that can be hashed, is not
   * recorded yet, and differs from the aliases of the values before it.
   */
  ghost predicate Recordable(values: Aliases, items: seq<Tree>, names: Tree, i: nat) {
    forall j :: i <= j < |items| ==>
      && Item(names, j).Ok?
      && !Item(names, j).value.IsContainer()
      && Item(names, j).value !in AliasNames(values)
      && forall l :: i <= l < j ==> Item(names, l) != Item(names, j)
  }

  lemma AliasNamesAppend(m: Aliases, x: (Tree, Tree))
    ensures AliasNames(m + [x]) == AliasNames(m) + [x.0]
  {
  }

  /**
   * The alias loop succeeds exactly when the aliases are recordable, and then
   * records each alias with its value, in order, after the earlier ones.
   */
  lemma RecordAliasesSpec(values: Aliases, items: seq<Tree>, names: Tree, i: nat, acc: seq<Tree>)
    requires i <= |items|
    ensures var r := RecordAliases(values, items, names, i, acc);
      && (r.1.Ok? <==> Recordable(values, items, names, i))
      && (r.1.Ok? ==>
            && |r.0| == |values| + |items| - i && r.0[..|values|] == values
            && |r.1.value| == |acc| + |items| - i && r.1.value[..|acc|] == acc
            && forall j :: i <= j < |items| ==>
                 r.0[|values| + j - i] == (Item(names, j).value, items[j]) && r.1.value[|acc| + j - i] == Item(names, j).value)
  {
    RecordAliasesOk(values, items, names, i, acc);
    if RecordAliases(values, items, names, i, acc).1.Ok? {
      RecordAliasesContents(values, items, names, i, acc);
    }
  }

  /** The alias loop succeeds exactly when every alias can be recorded. */
  lemma {:induction false} RecordAliasesOk(values: Aliases, items: seq<Tree>, names: Tree, i: nat, acc: seq<Tree>)
    requires i <= |items|
    ensures RecordAliases(values, items, names, i, acc).1.Ok? <==> Recordable(values, items, names, i)
    decreases |items| - i
  {
    if i == |items| {
    } else if Item(names, i).Fail? || Item(names, i).value.IsContainer() || AliasLookup(values, Item(names, i).value).Some? {
      assert !Recordable(values, items, names, i);
    } else {
      var a := Item(names, i).value;
      var values' := values + [(a, items[i])];
      RecordAliasesOk(values', items, names, i + 1, acc + [a]);
      AliasNamesAppend(values, (a, items[i]));
      if Recordable(values', items, names, i + 1) {
        forall j | i <= j < |items|
          ensures Item(names, j).Ok? && !Item(names, j).value.IsContainer() && Item(names, j).value !in AliasNames(values)
          ensures forall l :: i <= l < j ==> Item(names, l) != Item(names, j)
        {
          if j > i {
            assert Item(names, j).value !in AliasNames(values');
          }
        }
      }
      if Recordable(values, items, names, i) {
        forall j | i + 1 <= j < |items| ensures Item(names, j).value !in AliasNames(values') {
          assert Item(names, i) != Item(names, j);
        }
      }
    }
  }

  /** What a successful alias loop records and returns, position by position. */
  lemma {:induction false} RecordAliasesContents(values: Aliases, items: seq<Tree>, names: Tree, i: nat, acc: seq<Tree>)
    requires i <= |items| && RecordAliases(values, items, names, i, acc).1.Ok?
    ensures var r := RecordAliases(values, items, names, i, acc);
            && r.1.Ok?
            && |r.0| == |values| + |items| - i && r.0[..|values|] == values
            && |r.1.value| == |acc| + |items| - i && r.1.value[..|acc|] == acc
            && forall j :: i <= j < |items| ==>
                 Item(names, j) == Ok(r.1.value[|acc| + j - i]) && r.0[|values| + j - i] == (r.1.value[|acc| + j - i], items[j])
    decreases |items| - i
  {
    if i < |items| {
      var r := RecordAliases(values, items, names, i, acc);
      var a := Item(names, i).value;
      var values' := values + [(a, items[i])];
      assert r == RecordAliases(values', items, names, i + 1, acc + [a]);
      RecordAliasesContents(values', items, names, i + 1, acc + [a]);
      assert r.0[..|values'|][..|values|] == values;
      assert (acc + [a])[..|acc|] == acc;
      assert r.1.value[..|acc| + 1][..|acc|] == acc;
    }
  }

  /** The first recorded entry under an alias is the one found. */
  lemma {:induction false} AliasLookupAt(m: Aliases, p: nat)
    requires p < |m|
    requires forall q :: 0 <= q < p ==> m[q].0 != m[p].0
    ensures AliasLookup(m, m[p].0) == Some(m[p].1)
  {
    if p > 0 {
      AliasLookupAt(m[1..], p - 1);
    }
  }

  /**
   * After a successful alias loop every alias leads back to its value, and
   * decompression turns the alias, as a string, back into that value.
   */
  lemma AliasRoundTrip(values: Aliases, items: seq<Tree>, names: Tree, j: nat)
    requires j < |items|
    requires RecordAliases(values, items, names, 0, []).1.Ok?
    ensures var (values', aliases) := RecordAliases(values, items, names, 0, []);
      && Item(names, j) == Ok(aliases.value[j])
      && AliasLookup(values', aliases.value[j]) == Some(items[j])
      && (aliases.value[j].Str? ==> Resolve(values', aliases.value[j]) == items[j])
  {
    var (values', aliases) := RecordAliases(values, items, names, 0, []);
    RecordAliasesOk(values, items, names, 0, []);
    RecordAliasesContents(values, items, names, 0, []);
    var p := |values| + j;
    assert values'[p] == (aliases.value[j], items[j]);
    forall q | 0 <= q < p ensures values'[q].0 != values'[p].0 {
      AliasDistinct(values, items, names, j, q);
    }
    AliasLookupAt(values', p);
  }

  /** Every entry recorded before the alias of position `j` is under another alias. */
  lemma AliasDistinct(values: Aliases, items: seq<Tree>, names: Tree, j: nat, q: nat)
    requires j < |items| && q < |values| + j
    requires RecordAliases(values, items, names, 0, []).1.Ok?
    ensures var m := RecordAliases(values, items, names, 0, []).0;
            |m| == |values| + |items| && m[q].0 != m[|values| + j].0
  {
    var (values', aliases) := RecordAliases(values, items, names, 0, []);
    RecordAliasesOk(values, items, names, 0, []);
    RecordAliasesContents(values, items, names, 0, []);
    assert Recordable(values, items, names, 0);
    assert Item(names, j) == Ok(aliases.value[j]) && values'[|values| + j] == (aliases.value[j], items[j]);
    if q < |values| {
      assert values'[q] == values'[..|values|][q] == values[q];
      assert values[q].0 in AliasNames(values);
      assert aliases.value[j] !in AliasNames(values);
    } else {
      var l := q - |values|;
      assert Item(names, l) == Ok(aliases.value[l]) && values'[|values| + l] == (aliases.value[l], items[l]);
      assert Item(names, l) != Item(names, j);
    }
  }

  /** An alias that is already recorded, or that two values share, makes the loop raise. */
  lemma AliasReuseRaises(values: Aliases, items: seq<Tree>, names: Tree, j: nat, l: nat)
    requires l < j < |items| || (l == j < |items|)
    requires Item(names, j).Ok?
    requires if l < j then Item(names, l) == Item(names, j) else Item(names, j).value in AliasNames(values)
    ensures RecordAliases(values, items, names, 0, []).1.Fail?
  {
    RecordAliasesSpec(values, items, names, 0, []);
  }

  /**
   * A dict value with both `sweep_alias` and a `values` list comes out of the
   * first pass with `values` replaced by the aliases and `sweep_alias` gone,
   * and every alias is recorded with the value it replaced.
   */
  lemma DeclareAliases(keys: Entries, values: Aliases, key: string, inner: Entries)
    requires UniqueKeys(inner)
    requires Lookup(inner, VALUES_DISPLAY_NAME).Some? && Lookup(inner, VALUES).Some? && Lookup(inner, VALUES).value.List?
    requires DeclareOne(keys, values, key, inner).out.Ok?
    ensures var r := DeclareOne(keys, values, key, inner);
      var items := Lookup(inner, VALUES).value.items;
      && !HasKey(r.out.value, VALUES_DISPLAY_NAME)
      && Lookup(r.out.value, VALUES).Some? && Lookup(r.out.value, VALUES).value.List?
      && |Lookup(r.out.value, VALUES).value.items| == |items|
      && forall j :: 0 <= j < |items| ==>
           var a := Lookup(r.out.value, VALUES).value.items[j];
           Item(Lookup(inner, VALUES_DISPLAY_NAME).value, j) == Ok(a) && AliasLookup(r.values, a) == Some(items[j])
  {
    var inner1 := Remove(inner, UNIQUE_NAME_IDENT);
    assert Lookup(inner1, VALUES_DISPLAY_NAME) == Lookup(inner, VALUES_DISPLAY_NAME);
    assert Lookup(inner1, VALUES) == Lookup(inner, VALUES);
    var items := Lookup(inner, VALUES).value.items;
    var names := Lookup(inner, VALUES_DISPLAY_NAME).value;
    RecordAliasesSpec(values, items, names, 0, []);
    forall j | 0 <= j < |items| ensures AliasLookup(RecordAliases(values, items, names, 0, []).0, RecordAliases(values, items, names, 0, []).1.value[j]) == Some(items[j]) {
      AliasRoundTrip(values, items, names, j);
    }
  }

  // ---------------------------------------------------------------------
  // Declared identifiers

  /**
   * After a successful first pass every key of the config names the
   * identifier its dict declared, or what it named before; values that are
   * not dicts are left alone, and dicts lose their identifier.
   */
  lemma {:induction false} DeclareFromFacts(keys: Entries, values: Aliases, conf: Entries, i: nat, t: nat)
    requires UniqueKeys(conf) && i <= t < |conf|
    requires DeclareFrom(keys, values, conf, i).out.Ok?
    ensures var r := DeclareFrom(keys, values, conf, i);
      && Lookup(r.keys, conf[t].0) ==
           (if conf[t].1.Dict? && HasKey(conf[t].1.entries, UNIQUE_NAME_IDENT) then Lookup(conf[t].1.entries, UNIQUE_NAME_IDENT)
            else Lookup(keys, conf[t].0))
      && r.out.value[t].0 == conf[t].0
      && (!conf[t].1.Dict? ==> r.out.value[t].1 == conf[t].1)
      && (conf[t].1.Dict? ==> r.out.value[t].1.Dict?)
      && (conf[t].1.Dict? && UniqueKeys(conf[t].1.entries) ==> !HasKey(r.out.value[t].1.entries, UNIQUE_NAME_IDENT))
      && (conf[t].1.Dict? && !HasKey(conf[t].1.entries, UNIQUE_NAME_IDENT) && !HasKey(conf[t].1.entries, VALUES_DISPLAY_NAME) ==> r.out.value[t].1 == conf[t].1)
    decreases |conf| - i
  {
    if !conf[i].1.Dict? {
      if i < t {
        DeclareFromFacts(keys, values, conf, i + 1, t);
      } else {
        forall j | i + 1 <= j < |conf| ensures conf[j].0 != conf[t].0 { UniqueKeysApart(conf, t, j); }
        DeclareKeysOutside(keys, values, conf, i + 1, conf[t].0);
        DeclareOutAfter(keys, values, conf, i + 1, t);
      }
    } else {
      var one := DeclareOne(keys, values, conf[i].0, conf[i].1.entries);
      var conf' := conf[i := (conf[i].0, Dict(one.out.value))];
      assert UniqueKeys(conf') by { SameKeysUnique(conf, conf'); }
      if i < t {
        UniqueKeysApart(conf, i, t);
        DeclareFromFacts(one.keys, one.values, conf', i + 1, t);
      } else {
        forall j | i + 1 <= j < |conf| ensures conf'[j].0 != conf[t].0 { UniqueKeysApart(conf, t, j); }
        DeclareKeysOutside(one.keys, one.values, conf', i + 1, conf[t].0);
        DeclareOutAfter(one.keys, one.values, conf', i + 1, t);
      }
    }
  }

  /** Two entry lists with the same keys in the same order are alike in having distinct keys. */
  lemma SameKeysUnique(e: Entries, f: Entries)
    requires UniqueKeys(e) && |e| == |f| && forall j :: 0 <= j < |e| ==> e[j].0 == f[j].0
    ensures UniqueKeys(f)
  {
    if e != [] {
      assert KeysOf(e[1..]) == KeysOf(f[1..]) by {
        forall j | 0 <= j < |e| - 1 ensures KeysOf(e[1..])[j] == KeysOf(f[1..])[j] {
          KeysOfIndex(e[1..], j);
          KeysOfIndex(f[1..], j);
        }
      }
      SameKeysUnique(e[1..], f[1..]);
    }
  }

  /** Keys of positions before `i` are never touched by the rest of the first loop. */
  lemma {:induction false} DeclareKeysOutside(keys: Entries, values: Aliases, conf: Entries, i: nat, k: string)
    requires UniqueKeys(conf) && i <= |conf|
    requires forall j :: i <= j < |conf| ==> conf[j].0 != k
    ensures Lookup(DeclareFrom(keys, values, conf, i).keys, k) == Lookup(keys, k)
    decreases |conf| - i
  {
    if i < |conf| {
      if !conf[i].1.Dict? {
        DeclareKeysOutside(keys, values, conf, i + 1, k);
      } else {
        var one := DeclareOne(keys, values, conf[i].0, conf[i].1.entries);
        if one.out.Ok? {
          var conf' := conf[i := (conf[i].0, Dict(one.out.value))];
          SameKeysUnique(conf, conf');
          DeclareKeysOutside(one.keys, one.values, conf', i + 1, k);
        }
      }
    }
  }

  /** Positions before `i` come out of the rest of the first loop as they went in. */
  lemma {:induction false} DeclareOutAfter(keys: Entries, values: Aliases, conf: Entries, i: nat, t: nat)
    requires t < i <= |conf|
    requires DeclareFrom(keys, values, conf, i).out.Ok?
    ensures DeclareFrom(keys, values, conf, i).out.value[t] == conf[t]
    decreases |conf| - i
  {
    if i < |conf| {
      if !conf[i].1.Dict? {
        DeclareOutAfter(keys, values, conf, i + 1, t);
      } else {
        var one := DeclareOne(keys, values, conf[i].0, conf[i].1.entries);
        var conf' := conf[i := (conf[i].0, Dict(one.out.value))];
        DeclareOutAfter(one.keys, one.values, conf', i + 1, t);
      }
    }
  }

  // ---------------------------------------------------------------------
  // Names from path suffixes

  /**
   * The name the second loop gives the key at position `t` when nothing was
   * recorded for it before: the dotted suffix of its path that starts at the
   * last segment no earlier key claimed, or none when every segment is claimed.
   */
  ghost function ClaimedName(names: seq<string>, t: nat): Option<Tree>
    requires t < |names|
  {
    var segs := Split(names[t]);
    match FreeSegment(segs, ClaimedBefore(names, t), |segs|)
    case None => None
    case Some(m) => Some(Str(DotJoin(segs[m..])))
  }

  /** The second loop never touches a key it does not visit. */
  lemma {:induction false} ClaimOther(keys: Entries, claimed: set<string>, names: seq<string>, i: nat, k: string)
    requires i <= |names|
    requires forall j :: i <= j < |names| ==> names[j] != k
    ensures Lookup(ClaimFrom(keys, claimed, names, i), k) == Lookup(keys, k)
    decreases |names| - i
  {
    if i < |names| {
      var segs := Split(names[i]);
      match FreeSegment(segs, claimed, |segs|)
      case None => ClaimOther(keys, claimed, names, i + 1, k);
      case Some(m) =>
        var keys' := if HasKey(keys, names[i]) then keys else Set(keys, names[i], Str(DotJoin(segs[m..])));
        ClaimOther(keys', claimed + {segs[m]}, names, i + 1, k);
    }
  }

  /** The second loop never replaces a name already recorded. */
  lemma {:induction false} ClaimKeeps(keys: Entries, claimed: set<string>, names: seq<string>, i: nat, k: string)
    requires i <= |names| && HasKey(keys, k)
    ensures Lookup(ClaimFrom(keys, claimed, names, i), k) == Lookup(keys, k)
    decreases |names| - i
  {
    if i < |names| {
      var segs := Split(names[i]);
      match FreeSegment(segs, claimed, |segs|)
      case None => ClaimKeeps(keys, claimed, names, i + 1, k);
      case Some(m) =>
        var keys' := if HasKey(keys, names[i]) then keys else Set(keys, names[i], Str(DotJoin(segs[m..])));
        ClaimKeeps(keys', claimed + {segs[m]}, names, i + 1, k);
    }
  }

  /** Distinct keys, as the keys of a dict are. */
  predicate Distinct(names: seq<string>) {
    forall a, b :: 0 <= a < b < |names| ==> names[a] != names[b]
  }

  lemma DistinctKeysOf(e: Entries)
    requires UniqueKeys(e)
    ensures Distinct(KeysOf(e))
  {
    forall a, b | 0 <= a < b < |e| ensures KeysOf(e)[a] != KeysOf(e)[b] {
      KeysOfIndex(e, a);
      KeysOfIndex(e, b);
      UniqueKeysApart(e, a, b);
    }
  }

  /** Each visited key ends up with the name it had, or else with its claimed name. */
  lemma ClaimAt(keys: Entries, names: seq<string>, i: nat, t: nat)
    requires Distinct(names) && i <= t < |names|
    ensures Lookup(ClaimFrom(keys, ClaimedBefore(names, i), names, i), names[t]) ==
              if HasKey(keys, names[t]) then Lookup(keys, names[t]) else ClaimedName(names, t)
  {
    ClaimWalk(keys, names, i, t);
  }

  /** `ClaimAt`, needing only that no other key equals the one at `t`. */
  lemma {:induction false} ClaimWalk(keys: Entries, names: seq<string>, i: nat, t: nat)
    requires i <= t < |names| && Apart(names, t)
    ensures Lookup(ClaimFrom(keys, ClaimedBefore(names, i), names, i), names[t]) ==
              if HasKey(keys, names[t]) then Lookup(keys, names[t]) else ClaimedName(names, t)
    decreases |names| - i
  {
    var claimed := ClaimedBefore(names, i);
    var segs := Split(names[i]);
    var keys' := match FreeSegment(segs, claimed, |segs|)
      case None => keys
      case Some(m) => if HasKey(keys, names[i]) then keys else Set(keys, names[i], Str(DotJoin(segs[m..])));
    assert ClaimFrom(keys, claimed, names, i) == ClaimFrom(keys', ClaimedBefore(names, i + 1), names, i + 1);
    var goal := if HasKey(keys, names[t]) then Lookup(keys, names[t]) else ClaimedName(names, t);
    if i < t {
      ClaimWalk(keys', names, i + 1, t);
      assert Lookup(keys', names[t]) == Lookup(keys, names[t]);
      assert Lookup(ClaimFrom(keys', ClaimedBefore(names, i + 1), names, i + 1), names[t]) == goal;
    } else if HasKey(keys, names[t]) {
      ClaimKeeps(keys', ClaimedBefore(names, i + 1), names, i + 1, names[t]);
      assert Lookup(ClaimFrom(keys', ClaimedBefore(names, i + 1), names, i + 1), names[t]) == goal;
    } else {
      ClaimOther(keys', ClaimedBefore(names, i + 1), names, i + 1, names[t]);
      assert Lookup(ClaimFrom(keys', ClaimedBefore(names, i + 1), names, i + 1), names[t]) == goal;
    }
  }

  /** No key but the one at `t` equals it. */
  ghost predicate Apart(names: seq<string>, t: nat)
    requires t < |names|
  {
    forall j :: 0 <= j < |names| && j != t ==> names[j] != names[t]
  }

  /** Dicts that declare neither an identifier nor aliases pass the first loop unchanged. */
  lemma {:induction false} DeclareUntouched(keys: Entries, values: Aliases, conf: Entries, i: nat)
    requires i <= |conf|
    requires forall j :: i <= j < |conf| && conf[j].1.Dict? ==>
               !HasKey(conf[j].1.entries, UNIQUE_NAME_IDENT) && !HasKey(conf[j].1.entries, VALUES_DISPLAY_NAME)
    ensures DeclareFrom(keys, values, conf, i) == Run(keys, values, Ok(conf))
    decreases |conf| - i
  {
    if i < |conf| {
      if conf[i].1.Dict? {
        assert conf[i := (conf[i].0, Dict(conf[i].1.entries))] == conf;
      }
      DeclareUntouched(keys, values, conf, i + 1);
    }
  }
}
