/** The Rust two-tier cache wrapper as code over two stores changed in place. */
module RustCacheImpl {
  import opened Base
  import opened Identities
  import opened KeyValue
  import opened BackingStores
  import opened Enumeration
  import opened RustCache

  class PassthroughCacheWrapper {
    const config: Config
    const primary: BackingStore<Pair>
    const cache: BackingStore<Pair>

    ghost predicate Valid() {
      primary != cache
    }

    function Contents(): Tiers<Pair>
      reads primary, cache
    {
      Tiers(primary.cells, cache.cells)
    }

    constructor (cache: BackingStore<Pair>, primary: BackingStore<Pair>, cacheTtl: Option<int>, token: Revision)
      requires primary != cache
      ensures Valid() && this.primary == primary && this.cache == cache && config == Config(cacheTtl, token)
    {
      this.primary := primary;
      this.cache := cache;
      config := Config(cacheTtl, token);
    }

    method Get(k: Pair, now: int) returns (r: Result<Option<Value>>)
      requires Valid()
      modifies cache
      ensures (Contents(), r) == GetOne(config, old(Contents()), now, k)
    {
      var cached := GetValue(cache.cells, now, k);
      if cached.Some? {
        return Ok(cached);
      }
      var value := GetValue(primary.cells, now, k);
      if value.Some? {
        var put := cache.Perform(Put(k, value.value, config.cacheTtl, config.token), now);
        if put.Err? {
          return Err(put.error);
        }
      }
      r := Ok(value);
    }

    method Ttl(k: Pair, now: int) returns (r: Result<Option<(Value, Option<int>)>>)
      requires Valid()
      modifies cache
      ensures (Contents(), r) == TtlOne(config, old(Contents()), now, k)
    {
      var cached := GetTtl(cache.cells, now, k);
      if cached.Some? {
        return Ok(cached);
      }
      var result := GetTtl(primary.cells, now, k);
      if result.Some? {
        var put := cache.Perform(Put(k, result.value.0, config.cacheTtl, config.token), now);
        if put.Err? {
          return Err(put.error);
        }
      }
      r := Ok(result);
    }

    method GetMany(ks: seq<Pair>, now: int) returns (r: Result<seq<Option<Value>>>)
      requires Valid()
      modifies cache
      ensures (Contents(), r) == GetLoop(config, old(Contents()), now, ks)
    {
      ghost var t := Contents();
      var results: seq<Option<Value>> := [];
      assert ks[0..] == ks;
      ContinuedNothing(GetLoop(config, t, now, ks));
      for i := 0 to |ks|
        invariant Contents().primary == t.primary
        invariant GetLoop(config, t, now, ks) == Continued(results, GetLoop(config, Contents(), now, ks[i..]))
      {
        assert ks[i..][1..] == ks[i + 1..];
        ghost var rest := GetLoop(config, Contents(), now, ks[i..]);
        var value := Get(ks[i], now);
        if value.Err? {
          return Err(value.error);
        }
        ContinuedStep(results, value.value, GetLoop(config, Contents(), now, ks[i + 1..]), rest);
        results := results + [value.value];
      }
      assert results + [] == results;
      r := Ok(results);
    }

    method TtlMany(ks: seq<Pair>, now: int) returns (r: Result<seq<Option<(Value, Option<int>)>>>)
      requires Valid()
      modifies cache
      ensures (Contents(), r) == TtlLoop(config, old(Contents()), now, ks)
    {
      ghost var t := Contents();
      var results: seq<Option<(Value, Option<int>)>> := [];
      assert ks[0..] == ks;
      ContinuedNothing(TtlLoop(config, t, now, ks));
      for i := 0 to |ks|
        invariant Contents().primary == t.primary
        invariant TtlLoop(config, t, now, ks) == Continued(results, TtlLoop(config, Contents(), now, ks[i..]))
      {
        assert ks[i..][1..] == ks[i + 1..];
        ghost var rest := TtlLoop(config, Contents(), now, ks[i..]);
        var entry := Ttl(ks[i], now);
        if entry.Err? {
          return Err(entry.error);
        }
        ContinuedStep(results, entry.value, TtlLoop(config, Contents(), now, ks[i + 1..]), rest);
        results := results + [entry.value];
      }
      assert results + [] == results;
      r := Ok(results);
    }

    /** Drops cached keys one by one. */
    method DropAll(ks: seq<Pair>, now: int)
      modifies cache
      ensures cache.cells == old(cache.cells) - Elements(ks)
    {
      assert Elements(ks[..0]) == {};
      for i := 0 to |ks|
        invariant cache.cells == old(cache.cells) - Elements(ks[..i])
      {
        ElementsSnoc(ks, i);
        var _ := cache.Perform(Op.Delete(ks[i]), now);
      }
      assert ks[..|ks|] == ks;
    }

    method PutMany(ks: seq<Pair>, values: seq<Value>, ttl: Option<int>, tokens: nat -> Revision, now: int)
      returns (out: Result<Outcome>)
      requires Valid()
      modifies cache, primary
      ensures (Contents(), out) == Serve(config, old(Contents()), now, Op.PutMany(ks, values, ttl, tokens))
    {
      if |ks| != |values| {
        return Err(BatchSizeMismatch(|ks|, |values|));
      }
      DropAll(ks, now);
      out := primary.Perform(Op.PutMany(ks, values, ttl, tokens), now);
    }

    method DeleteMany(ks: seq<Pair>, now: int) returns (out: Result<Outcome>)
      requires Valid()
      modifies cache, primary
      ensures (Contents(), out) == Serve(config, old(Contents()), now, Op.DeleteMany(ks))
    {
      DropAll(ks, now);
      out := primary.Perform(Op.DeleteMany(ks), now);
    }

    method GetWithRevision(k: Pair, now: int) returns (out: Result<Outcome>)
      requires Valid()
      modifies cache, primary
      ensures (Contents(), out) == Serve(config, old(Contents()), now, Op.GetWithRevision(k))
    {
      out := primary.Perform(Op.GetWithRevision(k), now);
      if out.value.current.Some? {
        var put := cache.Perform(Put(k, out.value.current.value.value, config.cacheTtl, config.token), now);
        if put.Err? {
          return Err(put.error);
        }
      }
    }

    /** `put`, `delete`, `compare_and_swap` and `compare_and_delete` of one key. */
    method DropAndPass(k: Pair, op: Op<Pair>, now: int) returns (out: Result<Outcome>)
      requires Valid()
      requires (op.Put? || op.Delete? || op.CompareAndSwap? || op.CompareAndDelete?) && op.key == k
      modifies cache, primary
      ensures (Contents(), out) == Serve(config, old(Contents()), now, op)
    {
      var _ := cache.Perform(Op.Delete(k), now);
      out := primary.Perform(op, now);
    }
  }

  function Continued<T>(done: seq<T>, rest: (Tiers<Pair>, Result<seq<T>>)): (Tiers<Pair>, Result<seq<T>>) {
    match rest
    case (t, Ok(vs)) => (t, Ok(done + vs))
    case (t, Err(e)) => (t, Err(e))
  }

  lemma ContinuedNothing<T>(rest: (Tiers<Pair>, Result<seq<T>>))
    ensures Continued([], rest) == rest
  {
    if rest.1.Ok? {
      assert [] + rest.1.value == rest.1.value;
    }
  }

  lemma ContinuedStep<T>(done: seq<T>, v: T, tail: (Tiers<Pair>, Result<seq<T>>), rest: (Tiers<Pair>, Result<seq<T>>))
    requires rest == match tail case (u, Ok(vs)) => (u, Ok([v] + vs)) case (u, Err(e)) => (u, Err(e))
    ensures Continued(done, rest) == Continued(done + [v], tail)
  {
    if tail.1.Ok? {
      assert done + ([v] + tail.1.value) == done + [v] + tail.1.value;
    }
  }

  /** The merged listing of both tiers. */
  method MergedKeys<T(==)>(cacheKeys: seq<T>, primaryKeys: seq<T>, limit: Option<nat>) returns (merged: seq<T>)
    ensures merged == Merge(cacheKeys + primaryKeys, limit, [])
  {
    var all := cacheKeys + primaryKeys;
    var seen: set<T> := {};
    merged := [];
    assert all[0..] == all;
    for i := 0 to |all|
      invariant forall k :: k in seen <==> k in merged
      invariant Merge(all, limit, []) == Merge(all[i..], limit, merged)
    {
      assert all[i..][1..] == all[i + 1..];
      if all[i] !in seen {
        seen := seen + {all[i]};
        merged := merged + [all[i]];
        if limit.Some? && |merged| >= limit.value {
          break;
        }
      }
    }
  }
}
