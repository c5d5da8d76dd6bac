/** Routing every key to one of several stores. A batch whose keys all go to one store is
    handed to it whole; otherwise the keys are taken one by one. */
module Routing {
  import opened Base
  import opened Identities
  import opened KeyValue
  import opened BackingStores
  import opened Enumeration

  type Router = Pair -> nat
  type Stores = seq<Store<Pair>>

  function Route(stores: Stores, router: Router, k: Pair): Result<nat> {
    if router(k) < |stores| then Ok(router(k)) else Err(InvalidOperation)
  }

  // ------------------------------------------------------------ one key at a time

  function GetLoop(stores: Stores, router: Router, now: int, ks: seq<Pair>): Result<seq<Option<Value>>> {
    if ks == [] then Ok([]) else
      var j :- Route(stores, router, ks[0]);
      var rest :- GetLoop(stores, router, now, ks[1..]);
      Ok([GetValue(stores[j], now, ks[0])] + rest)
  }

  function TtlLoop(stores: Stores, router: Router, now: int, ks: seq<Pair>): Result<seq<Option<(Value, Option<int>)>>> {
    if ks == [] then Ok([]) else
      var j :- Route(stores, router, ks[0]);
      var rest :- TtlLoop(stores, router, now, ks[1..]);
      Ok([GetTtl(stores[j], now, ks[0])] + rest)
  }

  /** Puts from position `i` on. What was written before an error stays written. */
  function PutLoop(stores: Stores, router: Router, now: int, ks: seq<Pair>, vs: seq<Value>, ttl: Option<int>,
                   tokens: nat -> Revision, i: nat): (Stores, Result<Outcome>)
    requires i <= |ks| == |vs|
    decreases |ks| - i
  {
    if i == |ks| then (stores, Ok(Done)) else
      match Route(stores, router, ks[i])
      case Err(e) => (stores, Err(e))
      case Ok(j) =>
        var (m, out) := Apply(stores[j], now, Op.Put(ks[i], vs[i], ttl, tokens(i)));
        if out.Err? then (stores[j := m], out) else PutLoop(stores[j := m], router, now, ks, vs, ttl, tokens, i + 1)
  }

  /** Deletes one by one, counting from `n` the keys that were there. */
  function DeleteLoop(stores: Stores, router: Router, ks: seq<Pair>, n: nat): (Stores, Result<nat>)
    decreases |ks|
  {
    if ks == [] then (stores, Ok(n)) else
      match Route(stores, router, ks[0])
      case Err(e) => (stores, Err(e))
      case Ok(j) =>
        DeleteLoop(stores[j := Remove(stores[j], ks[0])], router, ks[1..], if ks[0] in stores[j] then n + 1 else n)
  }

  // ------------------------------------------------------------- all to one store

  predicate AllTo(router: Router, ks: seq<Pair>, j: nat) {
    forall i | 0 <= i < |ks| :: router(ks[i]) == j
  }

  lemma {:induction false} GetLoopOfOne(stores: Stores, router: Router, now: int, ks: seq<Pair>, j: nat)
    requires AllTo(router, ks, j) && j < |stores|
    ensures GetLoop(stores, router, now, ks) == Ok(GetValues(stores[j], now, ks))
  {
    if ks != [] {
      GetLoopOfOne(stores, router, now, ks[1..], j);
      assert GetValues(stores[j], now, ks) == [GetValue(stores[j], now, ks[0])] + GetValues(stores[j], now, ks[1..]);
    }
  }

  lemma {:induction false} TtlLoopOfOne(stores: Stores, router: Router, now: int, ks: seq<Pair>, j: nat)
    requires AllTo(router, ks, j) && j < |stores|
    ensures TtlLoop(stores, router, now, ks) == Ok(GetTtls(stores[j], now, ks))
  {
    if ks != [] {
      TtlLoopOfOne(stores, router, now, ks[1..], j);
      assert GetTtls(stores[j], now, ks) == [GetTtl(stores[j], now, ks[0])] + GetTtls(stores[j], now, ks[1..]);
    }
  }

  lemma UpdateTwice(stores: Stores, j: nat, a: Store<Pair>, b: Store<Pair>)
    requires j < |stores|
    ensures stores[j := a][j := b] == stores[j := b]
  {
  }

  lemma {:induction false} PutLoopOfOne(stores: Stores, router: Router, now: int, ks: seq<Pair>, vs: seq<Value>,
                                        ttl: Option<int>, tokens: nat -> Revision, i: nat, j: nat)
    requires i <= |ks| == |vs| && AllTo(router, ks, j) && j < |stores| && ValidTtl(ttl)
    ensures PutLoop(stores, router, now, ks, vs, ttl, tokens, i)
            == (stores[j := PutAll(stores[j], now, ks, vs, ttl, tokens, i)], Ok(Done))
    decreases |ks| - i
  {
    if i < |ks| {
      var m := stores[j][ks[i] := NewCell(now, vs[i], ttl, tokens(i))];
      PutLoopOfOne(stores[j := m], router, now, ks, vs, ttl, tokens, i + 1, j);
      UpdateTwice(stores, j, m, PutAll(m, now, ks, vs, ttl, tokens, i + 1));
    } else {
      assert stores[j := stores[j]] == stores;
    }
  }

  lemma {:induction false} DeleteLoopOfOne(stores: Stores, router: Router, ks: seq<Pair>, n: nat, j: nat)
    requires AllTo(router, ks, j) && j < |stores|
    ensures var (m, count) := DeleteAll(stores[j], ks);
            DeleteLoop(stores, router, ks, n) == (stores[j := m], Ok(n + count))
    decreases |ks|
  {
    if ks != [] {
      DeleteLoopOfOne(stores[j := Remove(stores[j], ks[0])], router, ks[1..], if ks[0] in stores[j] then n + 1 else n, j);
      UpdateTwice(stores, j, Remove(stores[j], ks[0]), DeleteAll(stores[j], ks).0);
    } else {
      assert stores[j := stores[j]] == stores;
    }
  }

  // ---------------------------------------------------------------------- wrapper

  class RoutingWrapper {
    const stores: seq<BackingStore<Pair>>
    const router: Router

    /** Every store is a different object. */
    ghost predicate Valid() {
      forall i, j | 0 <= i < j < |stores| :: stores[i] != stores[j]
    }

    ghost function Contents(): (r: Stores)
      reads stores
      ensures |r| == |stores| && forall i | 0 <= i < |stores| :: r[i] == stores[i].cells
    {
      seq(|stores|, i requires 0 <= i < |stores| reads stores => stores[i].cells)
    }

    constructor (stores: seq<BackingStore<Pair>>, router: Router)
      requires forall i, j | 0 <= i < j < |stores| :: stores[i] != stores[j]
      ensures Valid() && this.stores == stores && this.router == router
    {
      this.stores := stores;
      this.router := router;
    }

    method RouteTo(k: Pair) returns (r: Result<BackingStore<Pair>>)
      ensures match Route(Contents(), router, k)
              case Ok(j) => r == Ok(stores[j])
              case Err(e) => r == Err(e)
    {
      var index := router(k);
      r := if index < |stores| then Ok(stores[index]) else Err(InvalidOperation);
    }

    method SameStore(ks: seq<Pair>) returns (same: bool)
      requires ks != []
      ensures same <==> AllTo(router, ks, router(ks[0]))
    {
      var first := router(ks[0]);
      for i := 0 to |ks|
        invariant AllTo(router, ks[..i], first)
      {
        if router(ks[i]) != first {
          return false;
        }
      }
      assert ks[..|ks|] == ks;
      same := true;
    }

    method Perform(op: Op<Pair>, k: Pair, now: int) returns (out: Result<Outcome>)
      requires Valid() && (op.Get? || op.Ttl? || op.Put? || op.Delete?) && op.key == k
      modifies stores
      ensures match Route(old(Contents()), router, k)
              case Err(e) => Contents() == old(Contents()) && out == Err(e)
              case Ok(j) =>
                Contents() == old(Contents())[j := Apply(old(Contents())[j], now, op).0]
                && out == Apply(old(Contents())[j], now, op).1
    {
      var store := RouteTo(k);
      if store.Err? {
        return Err(store.error);
      }
      out := store.value.Perform(op, now);
      assert forall i | 0 <= i < |stores| && i != router(k) :: stores[i].cells == old(stores[i].cells);
    }

    /** A batch read is the loop of single reads, with the same errors. */
    method GetMany(ks: seq<Pair>, now: int) returns (r: Result<seq<Option<Value>>>)
      requires Valid()
      ensures r == GetLoop(Contents(), router, now, ks)
    {
      if ks == [] {
        return Ok([]);
      }
      var same := SameStore(ks);
      if same {
        var store := RouteTo(ks[0]);
        if store.Err? {
          return Err(store.error);
        }
        GetLoopOfOne(Contents(), router, now, ks, router(ks[0]));
        r := Ok(GetValues(store.value.cells, now, ks));
      } else {
        var results: seq<Option<Value>> := [];
        assert ks[0..] == ks;
        PrefixedNothing(GetLoop(Contents(), router, now, ks));
        for i := 0 to |ks|
          invariant GetLoop(Contents(), router, now, ks) == Prefixed(results, GetLoop(Contents(), router, now, ks[i..]))
        {
          assert ks[i..][1..] == ks[i + 1..];
          var store := RouteTo(ks[i]);
          if store.Err? {
            return Err(store.error);
          }
          var value := GetValue(store.value.cells, now, ks[i]);
          PrefixedStep(results, value, GetLoop(Contents(), router, now, ks[i + 1..]), GetLoop(Contents(), router, now, ks[i..]));
          results := results + [value];
        }
        assert results + [] == results;
        r := Ok(results);
      }
    }

    method TtlMany(ks: seq<Pair>, now: int) returns (r: Result<seq<Option<(Value, Option<int>)>>>)
      requires Valid()
      ensures r == TtlLoop(Contents(), router, now, ks)
    {
      if ks == [] {
        return Ok([]);
      }
      var same := SameStore(ks);
      if same {
        var store := RouteTo(ks[0]);
        if store.Err? {
          return Err(store.error);
        }
        TtlLoopOfOne(Contents(), router, now, ks, router(ks[0]));
        r := Ok(GetTtls(store.value.cells, now, ks));
      } else {
        var results: seq<Option<(Value, Option<int>)>> := [];
        assert ks[0..] == ks;
        PrefixedNothing(TtlLoop(Contents(), router, now, ks));
        for i := 0 to |ks|
          invariant TtlLoop(Contents(), router, now, ks) == Prefixed(results, TtlLoop(Contents(), router, now, ks[i..]))
        {
          assert ks[i..][1..] == ks[i + 1..];
          var store := RouteTo(ks[i]);
          if store.Err? {
            return Err(store.error);
          }
          var entry := GetTtl(store.value.cells, now, ks[i]);
          PrefixedStep(results, entry, TtlLoop(Contents(), router, now, ks[i + 1..]), TtlLoop(Contents(), router, now, ks[i..]));
          results := results + [entry];
        }
        assert results + [] == results;
        r := Ok(results);
      }
    }

    /** A batch write is the loop of single writes: same stores afterwards, same error. */
    method PutMany(ks: seq<Pair>, values: seq<Value>, ttl: Option<int>, tokens: nat -> Revision, now: int)
      returns (out: Result<Outcome>)
      requires Valid()
      modifies stores
      ensures |ks| != |values| ==> Contents() == old(Contents()) && out == Err(BatchSizeMismatch(|ks|, |values|))
      ensures |ks| == |values| ==> (Contents(), out) == PutLoop(old(Contents()), router, now, ks, values, ttl, tokens, 0)
    {
      if |ks| != |values| {
        return Err(BatchSizeMismatch(|ks|, |values|));
      }
      if ks == [] {
        return Ok(Done);
      }
      ghost var before := Contents();
      var same := SameStore(ks);
      if same {
        var store := RouteTo(ks[0]);
        if store.Err? {
          return Err(store.error);
        }
        if ValidTtl(ttl) {
          PutLoopOfOne(before, router, now, ks, values, ttl, tokens, 0, router(ks[0]));
        }
        out := store.value.Perform(Op.PutMany(ks, values, ttl, tokens), now);
        assert forall i | 0 <= i < |stores| && i != router(ks[0]) :: stores[i].cells == before[i];
        assert Contents() == before[router(ks[0]) := stores[router(ks[0])].cells];
      } else {
        for i := 0 to |ks|
          invariant PutLoop(before, router, now, ks, values, ttl, tokens, 0)
                    == PutLoop(Contents(), router, now, ks, values, ttl, tokens, i)
        {
          var put := Perform(Op.Put(ks[i], values[i], ttl, tokens(i)), ks[i], now);
          if put.Err? {
            return put;
          }
        }
        out := Ok(Done);
      }
    }

    method DeleteMany(ks: seq<Pair>, now: int) returns (r: Result<nat>)
      requires Valid()
      modifies stores
      ensures (Contents(), r) == DeleteLoop(old(Contents()), router, ks, 0)
    {
      if ks == [] {
        return Ok(0);
      }
      ghost var before := Contents();
      var same := SameStore(ks);
      if same {
        var store := RouteTo(ks[0]);
        if store.Err? {
          return Err(store.error);
        }
        DeleteLoopOfOne(before, router, ks, 0, router(ks[0]));
        var out := store.value.Perform(Op.DeleteMany(ks), now);
        assert forall i | 0 <= i < |stores| && i != router(ks[0]) :: stores[i].cells == before[i];
        assert Contents() == before[router(ks[0]) := stores[router(ks[0])].cells];
        r := Ok(out.value.count);
      } else {
        var count := 0;
        assert ks[0..] == ks;
        for i := 0 to |ks|
          invariant DeleteLoop(before, router, ks, 0) == DeleteLoop(Contents(), router, ks[i..], count)
        {
          assert ks[i..][1..] == ks[i + 1..];
          var out := Perform(Op.Delete(ks[i]), ks[i], now);
          if out.Err? {
            return Err(out.error);
          }
          if out.value.existed {
            count := count + 1;
          }
        }
        r := Ok(count);
      }
    }
  }

  // --------------------------------------------------------------------- listings

  function Flat<T>(listings: seq<seq<T>>): seq<T> {
    if listings == [] then [] else listings[0] + Flat(listings[1..])
  }

  /** The listings of all stores, merged. */
  method MergedKeys<T(==)>(listings: seq<seq<T>>, limit: Option<nat>) returns (merged: seq<T>)
    ensures merged == Merge(Flat(listings), limit, [])
  {
    var seen: set<T> := {};
    merged := [];
    assert listings[0..] == listings;
    for i := 0 to |listings|
      invariant forall k :: k in seen <==> k in merged
      invariant Merge(Flat(listings), limit, []) == Merge(Flat(listings[i..]), limit, merged)
    {
      assert listings[i..][1..] == listings[i + 1..];
      var rest := Flat(listings[i + 1..]);
      assert listings[i][0..] == listings[i];
      for j := 0 to |listings[i]|
        invariant forall k :: k in seen <==> k in merged
        invariant Merge(Flat(listings), limit, []) == Merge(listings[i][j..] + rest, limit, merged)
      {
        assert (listings[i][j..] + rest)[1..] == listings[i][j + 1..] + rest;
        var key := listings[i][j];
        if key !in seen {
          seen := seen + {key};
          merged := merged + [key];
          if limit.Some? && |merged| >= limit.value {
            return;
          }
        }
      }
      assert listings[i][|listings[i]|..] + rest == rest;
    }
  }
}
