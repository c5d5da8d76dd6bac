/** What the memory store's mutations of single collections do to its contents and which
    records they add to the feed, entries without expiry. */
module MemoryMutations {
  import opened Base
  import opened Utf8
  import opened KeyOrder
  import opened ChangeFeed
  import opened Identities
  import opened MigrationOptions
  import opened Migration
  import opened MigrationConvergence
  import opened Enumeration

  datatype Request =
    | PutMany(collection: Text, items: seq<(Text, Value)>)
    | DeleteMany(collection: Text, keys: seq<Text>)
    | Swap(collection: Text, key: Text, value: Value)
    | DestroyCollection(collection: Text, order: seq<Text>)

  /** A dropped collection's keys are visited in some order, each once. */
  ghost predicate ValidRequest(m: Contents, r: Request) {
    r.DestroyCollection? ==> Lists(r.order, KeysOf(m, r.collection))
  }

  type Step = (Contents, seq<Mutation>)

  function InsertAll(m: Contents, c: Text, items: seq<(Text, Value)>): Contents
    decreases |items|
  {
    if items == [] then m else InsertAll(m[(c, items[0].0) := items[0].1], c, items[1..])
  }

  function PutRecords(c: Text, items: seq<(Text, Value)>): seq<Mutation> {
    if items == [] then [] else [Mutation(c, items[0].0, Put)] + PutRecords(c, items[1..])
  }

  /** Removes keys one by one; a key that is there leaves a record. */
  function RemoveAll(m: Contents, c: Text, keys: seq<Text>): Step {
    if keys == [] then (m, [])
    else if (c, keys[0]) in m then
      var (rest, records) := RemoveAll(m - {(c, keys[0])}, c, keys[1..]);
      (rest, [Mutation(c, keys[0], Delete)] + records)
    else RemoveAll(m, c, keys[1..])
  }

  ghost predicate IsSmallest(k: Text, keys: set<Text>) {
    k in keys && forall j | j in keys :: j == k || Less(k, j)
  }

  lemma {:induction false} SmallestExists(keys: set<Text>)
    requires keys != {}
    ensures exists k :: IsSmallest(k, keys)
  {
    var x :| x in keys;
    var rest := keys - {x};
    assert keys == rest + {x};
    if rest == {} {
      assert IsSmallest(x, keys);
    } else {
      SmallestExists(rest);
      var k :| IsSmallest(k, rest);
      LessTotal(x, k);
      forall j | j in rest && Less(x, k) ensures Less(x, j) {
        if j != k {
          LessTransitive(x, k, j);
        }
      }
      assert IsSmallest(if Less(x, k) then x else k, keys);
    }
  }

  ghost function Smallest(keys: set<Text>): (k: Text)
    requires keys != {}
    ensures IsSmallest(k, keys)
  {
    SmallestExists(keys);
    var k :| IsSmallest(k, keys);
    k
  }

  lemma KeyPresent(m: Contents, c: Text, k: Text)
    requires k in KeysOf(m, c)
    ensures (c, k) in m
  {
  }

  /** Eviction: the smallest key goes while the collection is over its limit. */
  ghost function Evict(m: Contents, c: Text, max: nat): Step
    decreases |m|
  {
    var keys := KeysOf(m, c);
    if |keys| <= max then (m, []) else
      var k := Smallest(keys);
      KeyPresent(m, c, k);
      var (rest, records) := Evict(m - {(c, k)}, c, max);
      (rest, [Mutation(c, k, Delete)] + records)
  }

  ghost function Perform(m: Contents, max: Option<nat>, r: Request): Step {
    match r
    case PutMany(c, items) =>
      var inserted := InsertAll(m, c, items);
      if max.None? then (inserted, PutRecords(c, items)) else
        var (kept, evicted) := Evict(inserted, c, max.value);
        (kept, PutRecords(c, items) + evicted)
    case DeleteMany(c, keys) => RemoveAll(m, c, keys)
    case Swap(c, k, value) => (m[(c, k) := value], [Mutation(c, k, Put)])
    case DestroyCollection(c, order) => RemoveAll(m, c, order)
  }

  // ------------------------------------------------------------------ coverage

  lemma CoversCompose(a: Contents, b: Contents, c: Contents, r: seq<Mutation>, q: seq<Mutation>)
    requires Covers(a, b, r) && Covers(b, c, q)
    ensures Covers(a, c, r + q)
  {
    forall x: Pair
      ensures LastOp(r + q, x).None? ==> Lookup(a, x) == Lookup(c, x)
      ensures LastOp(r + q, x) == Some(Delete) ==> x !in c
    {
      LastOpConcat(r, q, x);
      assert LastOp(q, x).None? ==> Lookup(b, x) == Lookup(c, x);
    }
  }

  lemma LastOpOne(m: Mutation, x: Pair)
    ensures LastOp([m], x) == if Concerns(m, x) then Some(m.operation) else None
  {
    assert [m][..0] == [];
  }

  lemma InsertCovers(m: Contents, c: Text, k: Text, value: Value)
    ensures Covers(m, m[(c, k) := value], [Mutation(c, k, Put)])
  {
    forall x: Pair ensures LastOp([Mutation(c, k, Put)], x) == if x == (c, k) then Some(Put) else None {
      LastOpOne(Mutation(c, k, Put), x);
    }
  }

  lemma RemoveCovers(m: Contents, c: Text, k: Text)
    ensures Covers(m, m - {(c, k)}, [Mutation(c, k, Delete)])
  {
    forall x: Pair ensures LastOp([Mutation(c, k, Delete)], x) == if x == (c, k) then Some(Delete) else None {
      LastOpOne(Mutation(c, k, Delete), x);
    }
  }

  lemma {:induction false} InsertAllCovers(m: Contents, c: Text, items: seq<(Text, Value)>)
    ensures Covers(m, InsertAll(m, c, items), PutRecords(c, items))
    decreases |items|
  {
    if items != [] {
      var (k, value) := items[0];
      InsertCovers(m, c, k, value);
      InsertAllCovers(m[(c, k) := value], c, items[1..]);
      CoversCompose(m, m[(c, k) := value], InsertAll(m, c, items), [Mutation(c, k, Put)], PutRecords(c, items[1..]));
    }
  }

  lemma {:induction false} RemoveAllCovers(m: Contents, c: Text, keys: seq<Text>)
    ensures Covers(m, RemoveAll(m, c, keys).0, RemoveAll(m, c, keys).1)
  {
    if keys != [] {
      var after := if (c, keys[0]) in m then m - {(c, keys[0])} else m;
      RemoveAllCovers(after, c, keys[1..]);
      if (c, keys[0]) in m {
        RemoveCovers(m, c, keys[0]);
        CoversCompose(m, after, RemoveAll(m, c, keys).0, [Mutation(c, keys[0], Delete)], RemoveAll(after, c, keys[1..]).1);
      }
    }
  }

  /** The last position at which a batch names a key. */
  predicate IsLast(items: seq<(Text, Value)>, i: nat, k: Text) {
    i < |items| && items[i].0 == k && forall j | i < j < |items| :: items[j].0 != k
  }

  lemma {:induction false} InsertAllAt(m: Contents, c: Text, items: seq<(Text, Value)>, x: Pair)
    ensures var after := InsertAll(m, c, items);
            && (x.0 != c || (forall i | 0 <= i < |items| :: items[i].0 != x.1) ==> Lookup(after, x) == Lookup(m, x))
            && (forall i: nat | x.0 == c && IsLast(items, i, x.1) :: Lookup(after, x) == Some(items[i].1))
    decreases |items|
  {
    if items != [] {
      InsertAllAt(m[(c, items[0].0) := items[0].1], c, items[1..], x);
      forall i: nat | i > 0 && IsLast(items, i, x.1) ensures IsLast(items[1..], i - 1, x.1) {
      }
    }
  }

  lemma {:induction false} PutRecordsAt(c: Text, items: seq<(Text, Value)>)
    ensures |PutRecords(c, items)| == |items|
    ensures forall i | 0 <= i < |items| :: PutRecords(c, items)[i] == Mutation(c, items[i].0, Put)
  {
    if items != [] {
      PutRecordsAt(c, items[1..]);
    }
  }

  /** A batch of puts: every key has the value of its last put, unless it is evicted, every
      other key keeps what it has, unless it is evicted, and every put has its record, in order,
      before those of the eviction. */
  lemma PutManyStores(m: Contents, max: Option<nat>, c: Text, items: seq<(Text, Value)>, x: Pair)
    ensures var (after, records) := Perform(m, max, PutMany(c, items));
            && (x in after || max.None? ==>
                  && (x.0 != c || (forall i | 0 <= i < |items| :: items[i].0 != x.1) ==> Lookup(after, x) == Lookup(m, x))
                  && (forall i: nat | x.0 == c && IsLast(items, i, x.1) :: Lookup(after, x) == Some(items[i].1)))
            && |items| <= |records|
            && (forall i | 0 <= i < |items| :: records[i] == Mutation(c, items[i].0, Put))
            && (max.None? ==> |records| == |items|)
  {
    InsertAllAt(m, c, items, x);
    PutRecordsAt(c, items);
    if max.Some? {
      EvictKeepsLargest(InsertAll(m, c, items), c, max.value);
    }
  }

  /** A swap that applies sets its key, records it and evicts nothing; deletes remove the named
      keys and nothing else. */
  lemma SwapAndDeleteStore(m: Contents, max: Option<nat>, c: Text, k: Text, value: Value, keys: seq<Text>, x: Pair)
    ensures var (after, records) := Perform(m, max, Swap(c, k, value));
            && Lookup(after, x) == (if x == (c, k) then Some(value) else Lookup(m, x))
            && records == [Mutation(c, k, Put)]
    ensures var after := Perform(m, max, DeleteMany(c, keys)).0;
            Lookup(after, x) == if x.0 == c && x.1 in keys then None else Lookup(m, x)
  {
    RemoveAllRemoves(m, c, keys);
  }

  /** Eviction is covered, keeps the collection within its limit, touches nothing else and
      keeps the largest keys. */
  lemma {:induction false} EvictKeepsLargest(m: Contents, c: Text, max: nat)
    ensures var (kept, records) := Evict(m, c, max);
            && Covers(m, kept, records)
            && |KeysOf(kept, c)| == (if |KeysOf(m, c)| <= max then |KeysOf(m, c)| else max)
            && (forall x | x in kept :: x in m && kept[x] == m[x])
            && (forall x | x in m && x !in kept :: x.0 == c && forall k | k in KeysOf(kept, c) :: Less(x.1, k))
    decreases |m|
  {
    var keys := KeysOf(m, c);
    if |keys| > max {
      var k := Smallest(keys);
      KeyPresent(m, c, k);
      EvictKeepsLargest(m - {(c, k)}, c, max);
      EvictOne(m, c, k, Evict(m - {(c, k)}, c, max).0, Evict(m - {(c, k)}, c, max).1);
    }
  }

  lemma EvictOne(m: Contents, c: Text, k: Text, kept: Contents, records: seq<Mutation>)
    requires IsSmallest(k, KeysOf(m, c)) && Covers(m - {(c, k)}, kept, records)
    requires forall x | x in kept :: x in m && x != (c, k)
    requires forall x | x in m && x != (c, k) && x !in kept :: x.0 == c && forall j | j in KeysOf(kept, c) :: Less(x.1, j)
    ensures Covers(m, kept, [Mutation(c, k, Delete)] + records)
    ensures |KeysOf(m - {(c, k)}, c)| == |KeysOf(m, c)| - 1
    ensures forall x | x in m && x !in kept :: x.0 == c && forall j | j in KeysOf(kept, c) :: Less(x.1, j)
  {
    RemoveCovers(m, c, k);
    CoversCompose(m, m - {(c, k)}, kept, [Mutation(c, k, Delete)], records);
    assert KeysOf(m - {(c, k)}, c) == KeysOf(m, c) - {k};
    forall j | j in KeysOf(kept, c) ensures Less(k, j) {
      KeyPresent(kept, c, j);
      assert j in KeysOf(m, c);
    }
  }

  /** Every request records what it does to single keys: writes with eviction, deletes, applied
      swaps, which evict nothing, and dropping a collection. */
  lemma MutationsAreCovered(m: Contents, max: Option<nat>, r: Request)
    ensures var (after, records) := Perform(m, max, r); Covers(m, after, records)
  {
    match r
    case PutMany(c, items) =>
      InsertAllCovers(m, c, items);
      if max.Some? {
        EvictKeepsLargest(InsertAll(m, c, items), c, max.value);
        CoversCompose(m, InsertAll(m, c, items), Perform(m, max, r).0, PutRecords(c, items),
                      Evict(InsertAll(m, c, items), c, max.value).1);
      }
    case DeleteMany(c, keys) => RemoveAllCovers(m, c, keys);
    case Swap(c, k, value) => InsertCovers(m, c, k, value);
    case DestroyCollection(c, order) => RemoveAllCovers(m, c, order);
  }

  lemma {:induction false} RemoveAllRemoves(m: Contents, c: Text, keys: seq<Text>)
    ensures var (after, records) := RemoveAll(m, c, keys);
            && (forall x :: x in after <==> x in m && !(x.0 == c && x.1 in keys))
            && (forall x | x in after :: after[x] == m[x])
  {
    if keys != [] {
      FirstOrLater(keys, keys[0]);
      assert keys == [keys[0]] + keys[1..];
      RemoveAllRemoves(if (c, keys[0]) in m then m - {(c, keys[0])} else m, c, keys[1..]);
    }
  }

  lemma {:induction false} RemoveAllRecords(m: Contents, c: Text, keys: seq<Text>)
    requires Distinct(keys) && forall k | k in keys :: (c, k) in m
    ensures |RemoveAll(m, c, keys).1| == |keys|
    ensures forall i | 0 <= i < |keys| :: RemoveAll(m, c, keys).1[i] == Mutation(c, keys[i], Delete)
  {
    if keys != [] {
      DistinctCons(keys);
      assert keys[0] in keys;
      RemoveAllRecords(m - {(c, keys[0])}, c, keys[1..]);
    }
  }

  /** Dropping a collection empties it, with one record for each of its keys, and leaves every
      other collection alone. */
  lemma DestroyCollectionEmpties(m: Contents, max: Option<nat>, c: Text, order: seq<Text>)
    requires ValidRequest(m, DestroyCollection(c, order))
    ensures var (after, records) := Perform(m, max, DestroyCollection(c, order));
            && KeysOf(after, c) == {}
            && (forall x: Pair | x.0 != c :: Lookup(after, x) == Lookup(m, x))
            && |records| == |order| == |KeysOf(m, c)|
            && forall i | 0 <= i < |order| :: records[i] == Mutation(c, order[i], Delete)
  {
    RemoveAllRemoves(m, c, order);
    ListsSize(order, KeysOf(m, c));
    forall k | k in order ensures (c, k) in m {
      KeyPresent(m, c, k);
    }
    RemoveAllRecords(m, c, order);
    var after := RemoveAll(m, c, order).0;
    forall k ensures k !in KeysOf(after, c) {
      assert (c, k) in m ==> k in KeysOf(m, c);
    }
  }
}
