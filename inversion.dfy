// Decompression as the inverse of the renaming pass: when no two flat keys
// received the same name, every name leads back to its key.
module Inversion {
  import opened Trees
  import opened Compression

  /** The name recorded for `k`, when it is a string. */
  ghost function NameOf(keys: Entries, k: string): string {
    match Lookup(keys, k)
    case Some(Str(n)) => n
    case _ => ""
  }

  /** Each value from position `i` on under the name of its key. */
  ghost function Renamed(keys: Entries, conf: Entries, i: nat): (r: Entries)
    requires i <= |conf|
    ensures |r| == |conf| - i
    decreases |conf| - i
  {
    if i == |conf| then [] else [(NameOf(keys, conf[i].0), conf[i].1)] + Renamed(keys, conf, i + 1)
  }

  lemma {:induction false} RenamedIndex(keys: Entries, conf: Entries, i: nat, j: nat)
    requires i <= j < |conf|
    ensures Renamed(keys, conf, i)[j - i] == (NameOf(keys, conf[j].0), conf[j].1)
    decreases j - i
  {
    if i < j {
      RenamedIndex(keys, conf, i + 1, j);
    }
  }

  /** A successful renaming has at most one entry per key. */
  lemma {:induction false} RenameLength(keys: Entries, conf: Entries, i: nat, ret: Entries)
    requires i <= |conf|
    requires RenameFrom(keys, conf, i, ret).Ok?
    ensures |RenameFrom(keys, conf, i, ret).value| <= |ret| + |conf| - i
    decreases |conf| - i
  {
    if i < |conf| {
      var n := Lookup(keys, conf[i].0).value.s;
      assert RenameFrom(keys, conf, i, ret) == RenameFrom(keys, conf, i + 1, Set(ret, n, conf[i].1));
      RenameLength(keys, conf, i + 1, Set(ret, n, conf[i].1));
    }
  }

  /** A name, once in the result, stays. */
  lemma {:induction false} RenameKeeps(keys: Entries, conf: Entries, i: nat, ret: Entries, n: string)
    requires i <= |conf| && HasKey(ret, n)
    requires RenameFrom(keys, conf, i, ret).Ok?
    ensures HasKey(RenameFrom(keys, conf, i, ret).value, n)
    decreases |conf| - i
  {
    if i < |conf| {
      var n' := Lookup(keys, conf[i].0).value.s;
      assert RenameFrom(keys, conf, i, ret) == RenameFrom(keys, conf, i + 1, Set(ret, n', conf[i].1));
      RenameKeeps(keys, conf, i + 1, Set(ret, n', conf[i].1), n);
    }
  }

  /** A successful renaming found a string name for every key, and that name keys the result. */
  lemma {:induction false} RenameNames(keys: Entries, conf: Entries, i: nat, ret: Entries, t: nat)
    requires i <= t < |conf|
    requires RenameFrom(keys, conf, i, ret).Ok?
    ensures Lookup(keys, conf[t].0).Some? && Lookup(keys, conf[t].0).value.Str?
    ensures HasKey(RenameFrom(keys, conf, i, ret).value, Lookup(keys, conf[t].0).value.s)
    decreases |conf| - i
  {
    var n := Lookup(keys, conf[i].0).value.s;
    var ret' := Set(ret, n, conf[i].1);
    assert RenameFrom(keys, conf, i, ret) == RenameFrom(keys, conf, i + 1, ret');
    if i < t {
      RenameNames(keys, conf, i + 1, ret', t);
    } else {
      RenameKeeps(keys, conf, i + 1, ret', n);
    }
  }

  lemma RenamedCons(keys: Entries, conf: Entries, i: nat)
    requires i < |conf|
    ensures Renamed(keys, conf, i) == [(NameOf(keys, conf[i].0), conf[i].1)] + Renamed(keys, conf, i + 1)
  {
  }

  /** One step of a renaming that will not collide appends the name. */
  lemma RenameStep(keys: Entries, conf: Entries, i: nat, ret: Entries)
    requires i < |conf|
    requires RenameFrom(keys, conf, i, ret).Ok?
    requires |RenameFrom(keys, conf, i, ret).value| == |ret| + |conf| - i
    ensures Lookup(keys, conf[i].0).Some? && Lookup(keys, conf[i].0).value == Str(NameOf(keys, conf[i].0))
    ensures var x := (NameOf(keys, conf[i].0), conf[i].1);
      RenameFrom(keys, conf, i, ret) == RenameFrom(keys, conf, i + 1, ret + [x])
  {
    var n := Lookup(keys, conf[i].0).value.s;
    var ret' := Set(ret, n, conf[i].1);
    assert RenameFrom(keys, conf, i, ret) == RenameFrom(keys, conf, i + 1, ret');
    RenameLength(keys, conf, i + 1, ret');
    assert |KeysOf(ret')| == if HasKey(ret, n) then |KeysOf(ret)| else |KeysOf(ret)| + 1;
    SetAbsent(ret, n, conf[i].1);
  }

  /** When no name was given twice, the renaming holds each value under its name, in order. */
  lemma {:induction false} RenameAppends(keys: Entries, conf: Entries, i: nat, ret: Entries)
    requires i <= |conf|
    requires RenameFrom(keys, conf, i, ret).Ok?
    requires |RenameFrom(keys, conf, i, ret).value| == |ret| + |conf| - i
    ensures RenameFrom(keys, conf, i, ret).value == ret + Renamed(keys, conf, i)
    decreases |conf| - i
  {
    if i < |conf| {
      var x := (NameOf(keys, conf[i].0), conf[i].1);
      RenameStep(keys, conf, i, ret);
      RenameAppends(keys, conf, i + 1, ret + [x]);
      RenamedCons(keys, conf, i);
      AppendOne(ret, x, Renamed(keys, conf, i + 1));
    } else {
      AppendEmpty(ret);
    }
  }

  /** A missing name makes the renaming raise. */
  lemma {:induction false} RenameFails(keys: Entries, conf: Entries, i: nat, ret: Entries, t: nat)
    requires i <= t < |conf| && Lookup(keys, conf[t].0) == None
    ensures RenameFrom(keys, conf, i, ret).Fail?
    decreases |conf| - i
  {
    var name := Lookup(keys, conf[i].0);
    if i < t && name.Some? && name.value.Str? {
      var ret' := Set(ret, name.value.s, conf[i].1);
      RenameFails(keys, conf, i + 1, ret', t);
    }
  }

  /** Each resolved value from position `i` on under its original key. */
  ghost function Restored(values: Aliases, config: Entries, orig: seq<string>, i: nat): (r: Entries)
    requires i <= |config| == |orig|
    ensures |r| == |config| - i
    decreases |config| - i
  {
    if i == |config| then [] else [(orig[i], Resolve(values, config[i].1))] + Restored(values, config, orig, i + 1)
  }

  lemma {:induction false} RestoredIndex(values: Aliases, config: Entries, orig: seq<string>, i: nat, j: nat)
    requires i <= j < |config| == |orig|
    ensures Restored(values, config, orig, i)[j - i] == (orig[j], Resolve(values, config[j].1))
    decreases j - i
  {
    if i < j {
      RestoredIndex(values, config, orig, i + 1, j);
    }
  }

  lemma RestoredCons(values: Aliases, config: Entries, orig: seq<string>, i: nat)
    requires i < |config| == |orig|
    ensures Restored(values, config, orig, i) == [(orig[i], Resolve(values, config[i].1))] + Restored(values, config, orig, i + 1)
  {
  }

  lemma AppendEmpty(a: Entries)
    ensures a + [] == a
  {
  }

  lemma AppendOne(a: Entries, x: (string, Tree), b: Entries)
    ensures a + [x] + b == a + ([x] + b)
  {
  }

  /** Keys that differ from the one appended stay out of the result. */
  lemma FreshAfter(orig: seq<string>, ret: Entries, v: Tree, i: nat)
    requires i < |orig|
    requires forall j :: i <= j < |orig| ==> orig[j] !in KeysOf(ret)
    requires forall a, b :: i <= a < b < |orig| ==> orig[a] != orig[b]
    ensures forall j :: i + 1 <= j < |orig| ==> orig[j] !in KeysOf(ret + [(orig[i], v)])
  {
    KeysOfAppend(ret, [(orig[i], v)]);
  }

  /** One step of decompression onto a key not yet in the result appends it. */
  lemma DecompressStep(keys: Entries, values: Aliases, config: Entries, i: nat, ret: Entries, orig: string)
    requires i < |config|
    requires Original(keys, config[i].0) == Some(orig) && orig !in KeysOf(ret)
    ensures DecompressFrom(keys, values, config, i, ret) == DecompressFrom(keys, values, config, i + 1, ret + [(orig, Resolve(values, config[i].1))])
  {
    SetAbsent(ret, orig, Resolve(values, config[i].1));
  }

  /**
   * Decompression with every name leading back to its own original key
   * puts each resolved value back under that key, in order.
   */
  lemma {:induction false} DecompressExact(keys: Entries, values: Aliases, config: Entries, i: nat, ret: Entries, orig: seq<string>)
    requires i <= |config| && |orig| == |config|
    requires forall j :: i <= j < |config| ==> Original(keys, config[j].0) == Some(orig[j])
    requires forall j :: i <= j < |config| ==> orig[j] !in KeysOf(ret)
    requires forall a, b :: i <= a < b < |config| ==> orig[a] != orig[b]
    ensures DecompressFrom(keys, values, config, i, ret) == Ok(ret + Restored(values, config, orig, i))
    decreases |config| - i
  {
    if i < |config| {
      var x := (orig[i], Resolve(values, config[i].1));
      DecompressStep(keys, values, config, i, ret, orig[i]);
      FreshAfter(orig, ret, x.1, i);
      DecompressExact(keys, values, config, i + 1, ret + [x], orig);
      RestoredCons(values, config, orig, i);
      AppendOne(ret, x, Restored(values, config, orig, i + 1));
    } else {
      AppendEmpty(ret);
    }
  }
}
