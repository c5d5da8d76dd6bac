/** The Python two-tier cache wrapper as code over two stores changed in place. */
module PythonCacheImpl {
  import opened Base
  import opened Identities
  import opened KeyValue
  import opened Enumeration
  import opened BackingStores
  import opened TtlClamps
  import opened PythonCache

  class PassthroughCacheWrapper {
    const config: Config
    const primary: BackingStore<Pair>
    const cache: BackingStore<Pair>

    ghost predicate Valid()
    {
      ValidConfig(config) && primary != cache
    }

    ghost function Contents(): Tiers<Pair>
      reads primary, cache
    {
      Tiers(primary.cells, cache.cells)
    }

    constructor (primary: BackingStore<Pair>, cache: BackingStore<Pair>, clamp: TtlClamp, token: Revision)
      requires primary != cache && Accepted(clamp) && clamp.min == 0
      ensures Valid() && this.primary == primary && this.cache == cache && config == Config(clamp, token)
    {
      this.primary := primary;
      this.cache := cache;
      config := Config(clamp, token);
    }

    /** A put through the clamping wrapper. */
    method Fill(k: Pair, value: Value, ttl: Option<int>, now: int)
      requires Valid() && ValidTtl(ttl)
      modifies cache
      ensures cache.cells == old(cache.cells)[k := NewCell(now, value, Clamped(config.clamp, ttl).value, config.token)]
    {
      ClampStaysInBounds(config.clamp, ttl);
      var out := cache.Perform(Op.Put(k, value, Clamped(config.clamp, ttl).value, config.token), now);
    }

    method Get(k: Pair, now: int) returns (r: Option<Value>)
      requires Valid()
      modifies cache
      ensures (Contents(), OneValue(r)) == Serve(config, old(Contents()), now, Call.Get(k))
    {
      FillSingle(config, Contents(), now, k);
      r := PyGet(cache.cells, now, k);
      if r.Some? {
        return;
      }
      var (uncached, ttl) := PyTtl(primary.cells, now, k);
      if uncached.None? {
        return None;
      }
      Fill(k, uncached.value, ttl, now);
      r := uncached;
    }

    method Ttl(k: Pair, now: int) returns (r: Timed)
      requires Valid()
      modifies cache
      ensures (Contents(), OneTimed(r)) == Serve(config, old(Contents()), now, Call.Ttl(k))
    {
      FillSingle(config, Contents(), now, k);
      r := PyTtl(cache.cells, now, k);
      if r.0.Some? {
        return;
      }
      var (uncached, ttl) := PyTtl(primary.cells, now, k);
      if uncached.None? {
        return NOTHING;
      }
      Fill(k, uncached.value, ttl, now);
      r := (uncached, ttl);
    }

    /** The keys of a dictionary made from a list, in order of first occurrence. */
    method DictOrder(keys: seq<Pair>) returns (order: seq<Pair>)
      ensures forall k :: k in order <==> k in keys
      ensures forall i, j | 0 <= i < j < |order| :: order[i] != order[j]
    {
      order := [];
      for i := 0 to |keys|
        invariant forall k :: k in order <==> k in keys[..i]
        invariant forall a, b | 0 <= a < b < |order| :: order[a] != order[b]
      {
        assert keys[..i + 1] == keys[..i] + [keys[i]];
        if keys[i] !in order {
          order := order + [keys[i]];
        }
      }
      assert keys[..|keys|] == keys;
    }

    /** First look: a dictionary of what the cache shows for each key, and the keys it misses. */
    method LookInCache(keys: seq<Pair>, now: int) returns (dict: map<Pair, Option<Value>>, missing: seq<Pair>)
      ensures dict.Keys == Elements(keys)
      ensures forall k | k in dict :: dict[k] == PyGet(cache.cells, now, k)
      ensures forall k :: k in missing <==> k in keys && PyGet(cache.cells, now, k).None?
    {
      var order := DictOrder(keys);
      dict := map k | k in order :: None;
      var cached := PyGets(cache.cells, now, keys);
      for i := 0 to |keys|
        invariant dict.Keys == Elements(keys)
        invariant forall k | k in keys[..i] :: dict[k] == PyGet(cache.cells, now, k)
      {
        assert keys[..i + 1] == keys[..i] + [keys[i]];
        dict := dict[keys[i] := cached[i]];
      }
      assert keys[..|keys|] == keys;
      missing := [];
      for i := 0 to |order|
        invariant forall k :: k in missing <==> k in order[..i] && PyGet(cache.cells, now, k).None?
      {
        assert order[..i + 1] == order[..i] + [order[i]];
        if dict[order[i]].None? {
          missing := missing + [order[i]];
        }
      }
      assert order[..|order|] == order;
    }

    method FillMissing(missing: seq<Pair>, now: int, dict: map<Pair, Option<Value>>) returns (filled: map<Pair, Option<Value>>)
      requires Valid() && forall k | k in missing :: PyGet(cache.cells, now, k).None?
      requires forall k | k in missing :: k in dict
      modifies cache
      ensures cache.cells == Refilled(config, old(Contents()), now, Elements(missing))
      ensures filled.Keys == dict.Keys
      ensures forall k | k in dict :: filled[k] == if k in missing then PyGet(primary.cells, now, k) else dict[k]
    {
      ghost var t := Contents();
      filled := dict;
      var entries := PyTtls(primary.cells, now, missing);
      NothingToFill(config, t, now, Elements(missing[..0]));
      for i := 0 to |missing|
        invariant primary.cells == t.primary
        invariant cache.cells == Refilled(config, t, now, Elements(missing[..i]))
        invariant filled.Keys == dict.Keys
        invariant forall k | k in dict :: filled[k] == if k in missing[..i] then PyGet(t.primary, now, k) else dict[k]
      {
        ElementsSnoc(missing, i);
        FillOne(config, t, now, Elements(missing[..i]), missing[i]);
        var (entry, ttl) := entries[i];
        if entry.Some? {
          Fill(missing[i], entry.value, ttl, now);
        }
        filled := filled[missing[i] := entry];
      }
      assert missing[..|missing|] == missing;
    }

    method GetMany(keys: seq<Pair>, now: int) returns (r: seq<Option<Value>>)
      requires Valid()
      modifies cache
      ensures (Contents(), ManyValues(r)) == Serve(config, old(Contents()), now, Call.GetMany(keys))
    {
      ghost var t := Contents();
      var dict, missing := LookInCache(keys, now);
      MissingSuffice(config, t, now, Elements(missing), Elements(keys));
      var filled := FillMissing(missing, now, dict);
      r := seq(|keys|, i requires 0 <= i < |keys| => filled[keys[i]]);
      assert r == ServedValues(t, now, keys);
    }

    method LookForTimed(keys: seq<Pair>, now: int) returns (dict: map<Pair, Timed>, missing: seq<Pair>)
      ensures dict.Keys == Elements(keys)
      ensures forall k | k in dict :: dict[k] == PyTtl(cache.cells, now, k)
      ensures forall k :: k in missing <==> k in keys && PyTtl(cache.cells, now, k) == NOTHING
    {
      var order := DictOrder(keys);
      dict := map k | k in order :: NOTHING;
      var cached := PyTtls(cache.cells, now, keys);
      for i := 0 to |keys|
        invariant dict.Keys == Elements(keys)
        invariant forall k | k in keys[..i] :: dict[k] == PyTtl(cache.cells, now, k)
      {
        assert keys[..i + 1] == keys[..i] + [keys[i]];
        dict := dict[keys[i] := cached[i]];
      }
      assert keys[..|keys|] == keys;
      missing := [];
      for i := 0 to |order|
        invariant forall k :: k in missing <==> k in order[..i] && PyTtl(cache.cells, now, k) == NOTHING
      {
        assert order[..i + 1] == order[..i] + [order[i]];
        if dict[order[i]] == NOTHING {
          missing := missing + [order[i]];
        }
      }
      assert order[..|order|] == order;
    }

    method FillMissingTimed(missing: seq<Pair>, now: int, dict: map<Pair, Timed>) returns (filled: map<Pair, Timed>)
      requires Valid() && forall k | k in missing :: PyGet(cache.cells, now, k).None?
      requires forall k | k in missing :: k in dict
      modifies cache
      ensures cache.cells == Refilled(config, old(Contents()), now, Elements(missing))
      ensures filled.Keys == dict.Keys
      ensures forall k | k in dict :: filled[k] == if k in missing then PyTtl(primary.cells, now, k) else dict[k]
    {
      ghost var t := Contents();
      filled := dict;
      var entries := PyTtls(primary.cells, now, missing);
      NothingToFill(config, t, now, Elements(missing[..0]));
      for i := 0 to |missing|
        invariant primary.cells == t.primary
        invariant cache.cells == Refilled(config, t, now, Elements(missing[..i]))
        invariant filled.Keys == dict.Keys
        invariant forall k | k in dict :: filled[k] == if k in missing[..i] then PyTtl(t.primary, now, k) else dict[k]
      {
        ElementsSnoc(missing, i);
        FillOne(config, t, now, Elements(missing[..i]), missing[i]);
        var (entry, ttl) := entries[i];
        if entry.Some? {
          Fill(missing[i], entry.value, ttl, now);
        }
        filled := filled[missing[i] := (entry, ttl)];
      }
      assert missing[..|missing|] == missing;
    }

    method TtlMany(keys: seq<Pair>, now: int) returns (r: seq<Timed>)
      requires Valid()
      modifies cache
      ensures (Contents(), ManyTimed(r)) == Serve(config, old(Contents()), now, Call.TtlMany(keys))
    {
      ghost var t := Contents();
      var dict, missing := LookForTimed(keys, now);
      assert Elements(missing) == MissedTimed(t, now, keys);
      var filled := FillMissingTimed(missing, now, dict);
      r := seq(|keys|, i requires 0 <= i < |keys| => filled[keys[i]]);
      assert r == seq(|keys|, i requires 0 <= i < |keys| => ServedTimedInBatch(t, now, keys[i]));
    }

    method Put(k: Pair, value: Value, ttl: Option<int>, token: Revision, now: int) returns (out: Result<Outcome>)
      requires Valid()
      modifies cache, primary
      ensures (Contents(), Written(out)) == Serve(config, old(Contents()), now, Write(Op.Put(k, value, ttl, token)))
    {
      var _ := cache.Perform(Op.Delete(k), now);
      out := primary.Perform(Op.Put(k, value, ttl, token), now);
    }

    method PutMany(ks: seq<Pair>, values: seq<Value>, ttl: Option<int>, tokens: nat -> Revision, now: int)
      returns (out: Result<Outcome>)
      requires Valid()
      modifies cache, primary
      ensures (Contents(), Written(out)) == Serve(config, old(Contents()), now, Write(Op.PutMany(ks, values, ttl, tokens)))
    {
      DeleteAllRemoves(cache.cells, ks);
      var _ := cache.Perform(Op.DeleteMany(ks), now);
      out := primary.Perform(Op.PutMany(ks, values, ttl, tokens), now);
    }

    method Delete(k: Pair, now: int) returns (out: Result<Outcome>)
      requires Valid()
      modifies cache, primary
      ensures (Contents(), Written(out)) == Serve(config, old(Contents()), now, Write(Op.Delete(k)))
    {
      var _ := cache.Perform(Op.Delete(k), now);
      out := primary.Perform(Op.Delete(k), now);
    }

    method DeleteMany(ks: seq<Pair>, now: int) returns (out: Result<Outcome>)
      requires Valid()
      modifies cache, primary
      ensures (Contents(), Written(out)) == Serve(config, old(Contents()), now, Write(Op.DeleteMany(ks)))
    {
      DeleteAllRemoves(cache.cells, ks);
      var _ := cache.Perform(Op.DeleteMany(ks), now);
      out := primary.Perform(Op.DeleteMany(ks), now);
    }
  }

  lemma {:induction false} DeleteAllRemoves(m: Store<Pair>, ks: seq<Pair>)
    ensures DeleteAll(m, ks).0 == m - Elements(ks)
  {
    if ks != [] {
      DeleteAllRemoves(Remove(m, ks[0]), ks[1..]);
      ElementsCons(ks);
    } else {
      assert Elements(ks) == {};
    }
  }

  lemma FillSingle(c: Config, t: Tiers<Pair>, now: int, k: Pair)
    requires ValidConfig(c)
    ensures Refilled(c, t, now, {k}) == if Fills(t, now, k) then t.cache[k := CachedCell(c, now, t.primary[k])] else t.cache
  {
    RefilledAt(c, t, now, {k}, k);
  }

  lemma NothingToFill(c: Config, t: Tiers<Pair>, now: int, ks: set<Pair>)
    requires ValidConfig(c)
    ensures (forall k | k in ks :: !Fills(t, now, k)) ==> Refilled(c, t, now, ks) == t.cache
  {
  }

  /** One more key. */
  lemma FillOne(c: Config, t: Tiers<Pair>, now: int, ks: set<Pair>, k: Pair)
    requires ValidConfig(c) && PyGet(t.cache, now, k).None?
    ensures Refilled(c, t, now, ks + {k}) == if Fills(t, now, k) then Refilled(c, t, now, ks)[k := CachedCell(c, now, t.primary[k])]
                                             else Refilled(c, t, now, ks)
  {
    var left := Refilled(c, t, now, ks + {k});
    var right := if Fills(t, now, k) then Refilled(c, t, now, ks)[k := CachedCell(c, now, t.primary[k])]
                 else Refilled(c, t, now, ks);
    forall x ensures (x in left <==> x in right) && (x in left ==> left[x] == right[x]) {
      RefilledAt(c, t, now, ks + {k}, x);
      RefilledAt(c, t, now, ks, x);
    }
  }

  /** Keys that are not missing need no filling. */
  lemma MissingSuffice(c: Config, t: Tiers<Pair>, now: int, missing: set<Pair>, ks: set<Pair>)
    requires ValidConfig(c) && missing <= ks && forall k | k in ks && PyGet(t.cache, now, k).None? :: k in missing
    ensures Refilled(c, t, now, missing) == Refilled(c, t, now, ks)
  {
    var left, right := Refilled(c, t, now, missing), Refilled(c, t, now, ks);
    forall x ensures (x in left <==> x in right) && (x in left ==> left[x] == right[x]) {
      RefilledAt(c, t, now, missing, x);
      RefilledAt(c, t, now, ks, x);
    }
  }
}
