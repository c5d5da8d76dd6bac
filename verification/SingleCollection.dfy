/** The wrapper that keeps every logical collection inside one backing collection under
    compound identities. It refines a two-level store addressed by (collection, key). */
module SingleCollection {
  import opened Base
  import opened Utf8
  import opened Identities
  import opened KeyValue
  import opened Compound
  import opened Enumeration

  function CollectionName(collection: Option<Text>): Text {
    if collection.Some? then collection.value else Ascii("default_collection")
  }

  /** No collection means the one with the default name. */
  lemma DefaultCollection(c: Text)
    ensures CollectionName(None) == Ascii("default_collection") && CollectionName(Some(c)) == c
  {
  }

  function ToPair(collection: Text): Text -> Pair {
    key => (collection, key)
  }

  function ToIdentity(collection: Text): Text -> Text {
    key => CompoundKey(collection, key)
  }

  /** The backing collection `m` holds the two-level store `a`, each cell under its identity. */
  ghost predicate Represents(m: Store<Text>, a: Store<Pair>) {
    && (forall c, k :: (c, k) in a <==> CompoundKey(c, k) in m)
    && (forall c, k | (c, k) in a :: m[CompoundKey(c, k)] == a[(c, k)])
    && (forall s | s in m :: IsIdentity(s))
  }

  ghost predicate IsIdentity(s: Text) {
    exists c, k :: s == CompoundKey(c, k)
  }

  lemma RepresentsUpdate(m: Store<Text>, a: Store<Pair>, c: Text, k: Text, cell: Cell)
    requires Represents(m, a)
    ensures Represents(m[CompoundKey(c, k) := cell], a[(c, k) := cell])
  {
    forall c', k' ensures CompoundKey(c', k') == CompoundKey(c, k) <==> (c', k') == (c, k) {
      CompoundInjective(c', k', c, k);
    }
  }

  lemma RepresentsRemove(m: Store<Text>, a: Store<Pair>, c: Text, k: Text)
    requires Represents(m, a)
    ensures Represents(Remove(m, CompoundKey(c, k)), Remove(a, (c, k)))
  {
    forall c', k' ensures CompoundKey(c', k') == CompoundKey(c, k) <==> (c', k') == (c, k) {
      CompoundInjective(c', k', c, k);
    }
  }

  lemma {:induction false} RepresentsPutAll(m: Store<Text>, a: Store<Pair>, now: int, c: Text, keys: seq<Text>,
                                            values: seq<Value>, ttl: Option<int>, tokens: nat -> Revision, i: nat)
    requires Represents(m, a) && i <= |keys| == |values|
    ensures Represents(PutAll(m, now, MapKeys(ToIdentity(c), keys), values, ttl, tokens, i),
                       PutAll(a, now, MapKeys(ToPair(c), keys), values, ttl, tokens, i))
    decreases |keys| - i
  {
    if i < |keys| {
      MapKeysAt(ToIdentity(c), keys, i);
      MapKeysAt(ToPair(c), keys, i);
      var cell := NewCell(now, values[i], ttl, tokens(i));
      RepresentsUpdate(m, a, c, keys[i], cell);
      RepresentsPutAll(m[CompoundKey(c, keys[i]) := cell], a[(c, keys[i]) := cell], now, c, keys, values, ttl, tokens, i + 1);
    }
  }

  lemma {:induction false} RepresentsDeleteAll(m: Store<Text>, a: Store<Pair>, c: Text, keys: seq<Text>)
    requires Represents(m, a)
    ensures var (m', n) := DeleteAll(m, MapKeys(ToIdentity(c), keys));
            var (a', n') := DeleteAll(a, MapKeys(ToPair(c), keys));
            Represents(m', a') && n == n'
    decreases |keys|
  {
    if keys != [] {
      RepresentsRemove(m, a, c, keys[0]);
      RepresentsDeleteAll(Remove(m, CompoundKey(c, keys[0])), Remove(a, (c, keys[0])), c, keys[1..]);
      assert MapKeys(ToIdentity(c), keys)[1..] == MapKeys(ToIdentity(c), keys[1..]);
      assert MapKeys(ToPair(c), keys)[1..] == MapKeys(ToPair(c), keys[1..]);
    }
  }

  lemma RepresentsReads(m: Store<Text>, a: Store<Pair>, now: int, c: Text, keys: seq<Text>)
    requires Represents(m, a)
    ensures GetValues(m, now, MapKeys(ToIdentity(c), keys)) == GetValues(a, now, MapKeys(ToPair(c), keys))
    ensures GetTtls(m, now, MapKeys(ToIdentity(c), keys)) == GetTtls(a, now, MapKeys(ToPair(c), keys))
  {
    var ids, pairs := MapKeys(ToIdentity(c), keys), MapKeys(ToPair(c), keys);
    forall i | 0 <= i < |keys| ensures LiveCell(m, now, ids[i]) == LiveCell(a, now, pairs[i]) {
      MapKeysAt(ToIdentity(c), keys, i);
      MapKeysAt(ToPair(c), keys, i);
    }
    assert GetValues(m, now, ids) == GetValues(a, now, pairs);
    assert GetTtls(m, now, ids) == GetTtls(a, now, pairs);
  }

  /** The same outcome on both levels, and contents that still correspond. */
  ghost predicate Refines(m: Store<Text>, a: Store<Pair>, now: int, c: Text, op: Op<Text>) {
    var (m', out) := Apply(m, now, MapOp(ToIdentity(c), op));
    var (a', out') := Apply(a, now, MapOp(ToPair(c), op));
    Represents(m', a') && out == out'
  }

  lemma ReadsRefine(m: Store<Text>, a: Store<Pair>, now: int, c: Text, op: Op<Text>)
    requires Represents(m, a)
    requires op.Get? || op.Ttl? || op.GetWithRevision? || op.GetMany? || op.TtlMany?
    ensures Refines(m, a, now, c, op)
  {
    match op
    case GetMany(keys) => RepresentsReads(m, a, now, c, keys);
    case TtlMany(keys) => RepresentsReads(m, a, now, c, keys);
    case Get(k) =>
    case Ttl(k) =>
    case GetWithRevision(k) =>
  }

  lemma WritesRefine(m: Store<Text>, a: Store<Pair>, now: int, c: Text, op: Op<Text>)
    requires Represents(m, a)
    requires op.Put? || op.Delete?
    ensures Refines(m, a, now, c, op)
  {
    match op
    case Put(k, v, ttl, token) => RepresentsUpdate(m, a, c, k, NewCell(now, v, ttl, token));
    case Delete(k) => RepresentsRemove(m, a, c, k);
  }

  lemma BatchesRefine(m: Store<Text>, a: Store<Pair>, now: int, c: Text, op: Op<Text>)
    requires Represents(m, a)
    requires op.PutMany? || op.DeleteMany?
    ensures Refines(m, a, now, c, op)
  {
    match op
    case PutMany(keys, values, ttl, tokens) =>
      if |keys| == |values| {
        RepresentsPutAll(m, a, now, c, keys, values, ttl, tokens, 0);
      }
    case DeleteMany(keys) => RepresentsDeleteAll(m, a, c, keys);
  }

  lemma CompareAndSwapRefines(m: Store<Text>, a: Store<Pair>, now: int, c: Text, op: Op<Text>)
    requires Represents(m, a) && op.CompareAndSwap?
    ensures Refines(m, a, now, c, op)
  {
    assert LiveCell(m, now, CompoundKey(c, op.key)) == LiveCell(a, now, (c, op.key));
    if LiveCell(a, now, (c, op.key)).None? && op.expected.Some? {
      RepresentsRemove(m, a, c, op.key);
    } else {
      RepresentsUpdate(m, a, c, op.key, NewCell(now, op.value, op.ttl, op.token));
    }
  }

  lemma CompareAndDeleteRefines(m: Store<Text>, a: Store<Pair>, now: int, c: Text, op: Op<Text>)
    requires Represents(m, a) && op.CompareAndDelete?
    ensures Refines(m, a, now, c, op)
  {
    RepresentsRemove(m, a, c, op.key);
    assert LiveCell(m, now, CompoundKey(c, op.key)) == LiveCell(a, now, (c, op.key));
  }

  /** One operation, issued by the wrapper on identities or by its user on pairs. */
  lemma ApplyRefines(m: Store<Text>, a: Store<Pair>, now: int, c: Text, op: Op<Text>)
    requires Represents(m, a)
    ensures Refines(m, a, now, c, op)
  {
    if op.CompareAndSwap? {
      CompareAndSwapRefines(m, a, now, c, op);
    } else if op.CompareAndDelete? {
      CompareAndDeleteRefines(m, a, now, c, op);
    } else if op.Put? || op.Delete? {
      WritesRefine(m, a, now, c, op);
    } else if op.PutMany? || op.DeleteMany? {
      BatchesRefine(m, a, now, c, op);
    } else {
      ReadsRefine(m, a, now, c, op);
    }
  }

  // ------------------------------------------------------------------------ runs

  datatype Request = Request(collection: Option<Text>, op: Op<Text>, now: int)

  function RunIdentities(m: Store<Text>, requests: seq<Request>): (Store<Text>, seq<Result<Outcome>>)
    decreases |requests|
  {
    if requests == [] then (m, []) else
      var r := requests[0];
      var (m', out) := Apply(m, r.now, MapOp(ToIdentity(CollectionName(r.collection)), r.op));
      var (m'', outs) := RunIdentities(m', requests[1..]);
      (m'', [out] + outs)
  }

  function RunPairs(a: Store<Pair>, requests: seq<Request>): (Store<Pair>, seq<Result<Outcome>>)
    decreases |requests|
  {
    if requests == [] then (a, []) else
      var r := requests[0];
      var (a', out) := Apply(a, r.now, MapOp(ToPair(CollectionName(r.collection)), r.op));
      var (a'', outs) := RunPairs(a', requests[1..]);
      (a'', [out] + outs)
  }

  /** Over every run of operations the wrapper answers as the two-level store does, and its
      backing collection goes on representing that store. */
  lemma {:induction false} WrapperRefinesTwoLevelStore(m: Store<Text>, a: Store<Pair>, requests: seq<Request>)
    requires Represents(m, a)
    ensures RunIdentities(m, requests).1 == RunPairs(a, requests).1
    ensures Represents(RunIdentities(m, requests).0, RunPairs(a, requests).0)
    decreases |requests|
  {
    if requests != [] {
      var r := requests[0];
      var c := CollectionName(r.collection);
      ApplyRefines(m, a, r.now, c, r.op);
      WrapperRefinesTwoLevelStore(Apply(m, r.now, MapOp(ToIdentity(c), r.op)).0, Apply(a, r.now, MapOp(ToPair(c), r.op)).0, requests[1..]);
    }
  }

  /** The cells of other collections are untouched. */
  ghost predicate SameOutside(a: Store<Pair>, b: Store<Pair>, c: Text) {
    forall p: Pair | p.0 != c :: (p in a <==> p in b) && (p in a ==> a[p] == b[p])
  }

  lemma {:induction false} PutAllSameOutside(a: Store<Pair>, now: int, c: Text, keys: seq<Text>, values: seq<Value>,
                                             ttl: Option<int>, tokens: nat -> Revision, i: nat)
    requires i <= |keys| == |values|
    ensures SameOutside(a, PutAll(a, now, MapKeys(ToPair(c), keys), values, ttl, tokens, i), c)
    decreases |keys| - i
  {
    if i < |keys| {
      MapKeysAt(ToPair(c), keys, i);
      PutAllSameOutside(a[(c, keys[i]) := NewCell(now, values[i], ttl, tokens(i))], now, c, keys, values, ttl, tokens, i + 1);
    }
  }

  lemma {:induction false} DeleteAllSameOutside(a: Store<Pair>, c: Text, keys: seq<Text>)
    ensures SameOutside(a, DeleteAll(a, MapKeys(ToPair(c), keys)).0, c)
    decreases |keys|
  {
    if keys != [] {
      assert MapKeys(ToPair(c), keys)[1..] == MapKeys(ToPair(c), keys[1..]);
      DeleteAllSameOutside(Remove(a, (c, keys[0])), c, keys[1..]);
    }
  }

  /** An operation on one collection leaves every other collection as it was. */
  lemma CollectionsDoNotInterfere(a: Store<Pair>, now: int, c: Text, op: Op<Text>)
    ensures SameOutside(a, Apply(a, now, MapOp(ToPair(c), op)).0, c)
  {
    match op
    case PutMany(keys, values, ttl, tokens) =>
      if |keys| == |values| {
        PutAllSameOutside(a, now, c, keys, values, ttl, tokens, 0);
      }
    case DeleteMany(keys) => DeleteAllSameOutside(a, c, keys);
    case _ =>
  }

  // ----------------------------------------------------------------- enumeration

  /** The keys of collection `c` among the listed identities, or an error when one of them
      is malformed. */
  function KeysIn(listing: seq<Text>, c: Text): Result<seq<Text>> {
    if listing == [] then Ok([]) else
      var pair :- DecompoundKey(listing[0]);
      var rest :- KeysIn(listing[1..], c);
      Ok(if pair.0 == c then [pair.1] + rest else rest)
  }

  /** The first `limit` distinct collections among the listed identities, after `found`. */
  function CollectionsIn(listing: seq<Text>, limit: nat, found: seq<Text>): Result<seq<Text>> {
    if listing == [] then Ok(found) else
      var pair :- DecompoundKey(listing[0]);
      var found' := if pair.0 in found then found else found + [pair.0];
      if |found'| == limit then Ok(found') else CollectionsIn(listing[1..], limit, found')
  }

  /** Every listed string is an identity short enough to exist in memory. */
  ghost predicate WellFormed(listing: seq<Text>) {
    forall s | s in listing :: IsIdentity(s) && |s| < U64_LIMIT
  }

  /** `listing` holds the identities of `pairs`, in the same order. */
  ghost predicate IdentitiesOf(listing: seq<Text>, pairs: seq<Pair>) {
    |listing| == |pairs| && forall i | 0 <= i < |pairs| :: listing[i] == CompoundKey(pairs[i].0, pairs[i].1)
  }

  ghost predicate Decodes(listing: seq<Text>, pairs: seq<Pair>) {
    |listing| == |pairs| && forall i | 0 <= i < |pairs| :: DecompoundKey(listing[i]) == Ok(pairs[i])
  }

  lemma DecodeIdentity(s: Text) returns (p: Pair)
    requires IsIdentity(s) && |s| < U64_LIMIT
    ensures s == CompoundKey(p.0, p.1) && DecompoundKey(s) == Ok(p)
  {
    var c, k :| s == CompoundKey(c, k);
    DecompoundIff(s, c, k);
    p := (c, k);
  }

  function PairOf(s: Text): Pair {
    match DecompoundKey(s) case Ok(p) => p case Err(_) => ([], [])
  }

  lemma DecodeListing(listing: seq<Text>) returns (pairs: seq<Pair>)
    requires WellFormed(listing)
    ensures IdentitiesOf(listing, pairs) && Decodes(listing, pairs)
  {
    pairs := seq(|listing|, i requires 0 <= i < |listing| => PairOf(listing[i]));
    forall i | 0 <= i < |listing|
      ensures listing[i] == CompoundKey(pairs[i].0, pairs[i].1) && DecompoundKey(listing[i]) == Ok(pairs[i])
    {
      var p := DecodeIdentity(listing[i]);
    }
  }

  /** A complete listing of identities is a complete listing of the pairs behind them. */
  lemma ListingOfPairs(m: Store<Text>, a: Store<Pair>, listing: seq<Text>, pairs: seq<Pair>)
    requires Represents(m, a) && Lists(listing, m.Keys) && IdentitiesOf(listing, pairs)
    ensures Lists(pairs, a.Keys)
  {
    forall i, j | 0 <= i < j < |pairs| ensures pairs[i] != pairs[j] {
      assert listing[i] != listing[j];
    }
    forall p ensures p in pairs <==> p in a.Keys {
      if p in pairs {
        var i :| 0 <= i < |pairs| && pairs[i] == p;
        assert listing[i] in listing;
        assert (p.0, p.1) in a;
      }
      if p in a.Keys {
        assert (p.0, p.1) in a;
        assert CompoundKey(p.0, p.1) in listing;
        var i :| 0 <= i < |listing| && listing[i] == CompoundKey(p.0, p.1);
        CompoundInjective(p.0, p.1, pairs[i].0, pairs[i].1);
      }
    }
  }

  function SelectKeys(pairs: seq<Pair>, c: Text): seq<Text> {
    if pairs == [] then []
    else if pairs[0].0 == c then [pairs[0].1] + SelectKeys(pairs[1..], c)
    else SelectKeys(pairs[1..], c)
  }

  function SelectCollections(pairs: seq<Pair>, limit: nat, found: seq<Text>): seq<Text>
    decreases |pairs|
  {
    if pairs == [] then found else
      var found' := if pairs[0].0 in found then found else found + [pairs[0].0];
      if |found'| == limit then found' else SelectCollections(pairs[1..], limit, found')
  }

  lemma {:induction false} KeysInDecoded(listing: seq<Text>, pairs: seq<Pair>, c: Text)
    requires Decodes(listing, pairs)
    ensures KeysIn(listing, c) == Ok(SelectKeys(pairs, c))
    decreases |listing|
  {
    if listing != [] {
      DecodesTail(listing, pairs);
      KeysInDecoded(listing[1..], pairs[1..], c);
    }
  }

  lemma {:induction false} CollectionsInDecoded(listing: seq<Text>, pairs: seq<Pair>, limit: nat, found: seq<Text>)
    requires Decodes(listing, pairs)
    ensures CollectionsIn(listing, limit, found) == Ok(SelectCollections(pairs, limit, found))
    decreases |listing|
  {
    if listing != [] {
      DecodesTail(listing, pairs);
      CollectionsInDecoded(listing[1..], pairs[1..], limit, if pairs[0].0 in found then found else found + [pairs[0].0]);
    }
  }

  lemma DecodesTail(listing: seq<Text>, pairs: seq<Pair>)
    requires Decodes(listing, pairs) && listing != []
    ensures DecompoundKey(listing[0]) == Ok(pairs[0]) && Decodes(listing[1..], pairs[1..])
  {
    assert forall i | 0 <= i < |pairs| - 1 :: listing[1..][i] == listing[i + 1] && pairs[1..][i] == pairs[i + 1];
  }

  lemma {:induction false} SelectKeysLists(pairs: seq<Pair>, c: Text)
    requires Distinct(pairs)
    ensures forall k :: k in SelectKeys(pairs, c) <==> (c, k) in pairs
    ensures Distinct(SelectKeys(pairs, c))
  {
    if pairs != [] {
      DistinctCons(pairs);
      SelectKeysLists(pairs[1..], c);
      assert pairs == [pairs[0]] + pairs[1..];
    }
  }

  function KeysUnder(a: Store<Pair>, c: Text): set<Text> {
    set p | p in a && p.0 == c :: p.1
  }

  lemma KeysUnderHas(a: Store<Pair>, c: Text, k: Text)
    ensures k in KeysUnder(a, c) <==> (c, k) in a
  {
  }

  lemma SelectedAreUnder(a: Store<Pair>, pairs: seq<Pair>, c: Text)
    requires Lists(pairs, a.Keys)
    ensures Lists(SelectKeys(pairs, c), KeysUnder(a, c))
  {
    SelectKeysLists(pairs, c);
    forall k ensures k in SelectKeys(pairs, c) <==> k in KeysUnder(a, c) {
      KeysUnderHas(a, c, k);
    }
  }

  /** With every stored identity listed once, `keys(c)` is exactly the keys of `c`, once each. */
  lemma KeysAreExact(m: Store<Text>, a: Store<Pair>, listing: seq<Text>, c: Text)
    requires Represents(m, a) && Lists(listing, m.Keys) && WellFormed(listing)
    ensures KeysIn(listing, c).Ok? && Lists(KeysIn(listing, c).value, KeysUnder(a, c))
  {
    var pairs := DecodeListing(listing);
    ListingOfPairs(m, a, listing, pairs);
    KeysInDecoded(listing, pairs, c);
    SelectedAreUnder(a, pairs, c);
  }

  /** What a page of a listing shows are exactly the keys of `c`. */
  ghost predicate ShowsKeys(page: seq<Text>, a: Store<Pair>, c: Text) {
    KeysIn(page, c).Ok? && Lists(KeysIn(page, c).value, KeysUnder(a, c))
  }

  lemma ShownFirstOrLater(page: seq<Text>, p: Pair, c: Text, k: Text)
    requires page != [] && DecompoundKey(page[0]) == Ok(p) && KeysIn(page, c).Ok? && k in KeysIn(page, c).value
    ensures KeysIn(page[1..], c).Ok? && (p == (c, k) || k in KeysIn(page[1..], c).value)
  {
    if p.0 == c {
      FirstOrLater(KeysIn(page, c).value, k);
    }
  }

  lemma {:induction false} ShownAreListed(page: seq<Text>, c: Text, k: Text)
    requires WellFormed(page) && KeysIn(page, c).Ok? && k in KeysIn(page, c).value
    ensures CompoundKey(c, k) in page
    decreases |page|
  {
    var p := DecodeIdentity(page[0]);
    ShownFirstOrLater(page, p, c, k);
    FirstOrLater(page, CompoundKey(c, k));
    if p != (c, k) {
      assert forall s | s in page[1..] :: s in page;
      ShownAreListed(page[1..], c, k);
    }
  }

  ghost predicate AllShown(m: Store<Text>, a: Store<Pair>, c: Text, page: nat) {
    forall listing | Lists(listing, m.Keys) :: ShowsKeys(Page(listing, page), a, c)
  }

  /** When the inner store cuts its listing off, `keys(c)` is exact in every order if and only
      if all identities fit the page or the collection is empty. */
  lemma PagedKeysAreExactIff(m: Store<Text>, a: Store<Pair>, c: Text, page: nat)
    requires Represents(m, a) && forall s | s in m.Keys :: IsIdentity(s) && |s| < U64_LIMIT
    ensures AllShown(m, a, c, page) <==> |m.Keys| <= page || forall p | p in a :: p.0 != c
  {
    if |m.Keys| <= page || forall p | p in a :: p.0 != c {
      forall listing | Lists(listing, m.Keys) ensures ShowsKeys(Page(listing, page), a, c) {
        if |m.Keys| <= page {
          ListsSize(listing, m.Keys);
          KeysAreExact(m, a, listing, c);
        } else {
          EmptyShowsNothing(m, a, listing, c, page);
        }
      }
    } else {
      var p :| p in a && p.0 == c;
      HiddenKey(m, a, c, p.1, page);
    }
  }

  lemma HiddenKey(m: Store<Text>, a: Store<Pair>, c: Text, k: Text, page: nat)
    requires Represents(m, a) && (forall s | s in m.Keys :: IsIdentity(s) && |s| < U64_LIMIT)
    requires (c, k) in a && |m.Keys| > page
    ensures !AllShown(m, a, c, page)
  {
    var listing := LastInListing(m.Keys, CompoundKey(c, k));
    var shown := Page(listing, page);
    if KeysIn(shown, c).Ok? && k in KeysIn(shown, c).value {
      ShownAreListed(shown, c, k);
    }
    KeysUnderHas(a, c, k);
    assert !ShowsKeys(shown, a, c);
  }

  lemma EmptyShowsNothing(m: Store<Text>, a: Store<Pair>, listing: seq<Text>, c: Text, page: nat)
    requires Represents(m, a) && Lists(listing, m.Keys) && WellFormed(listing) && forall p | p in a :: p.0 != c
    ensures ShowsKeys(Page(listing, page), a, c)
  {
    var shown := Page(listing, page);
    var pairs := DecodeListing(shown);
    KeysInDecoded(shown, pairs, c);
    var keys := KeysIn(shown, c).value;
    forall k | k in keys ensures (c, k) in a {
      ShownAreListed(shown, c, k);
    }
    FirstIsMember(keys);
  }

  ghost predicate Occurs(pairs: seq<Pair>, c: Text) {
    exists p | p in pairs :: p.0 == c
  }

  /** The selected collections are distinct, bounded, and complete unless the bound was hit. */
  lemma {:induction false} SelectCollectionsLists(pairs: seq<Pair>, limit: nat, found: seq<Text>)
    requires Distinct(found) && |found| < limit
    ensures var r := SelectCollections(pairs, limit, found);
            && Distinct(r) && |r| <= limit
            && (forall c | c in r :: c in found || Occurs(pairs, c))
            && (forall c | c in found :: c in r)
            && (|r| < limit ==> forall c | Occurs(pairs, c) :: c in r)
    decreases |pairs|
  {
    if pairs != [] {
      assert pairs == [pairs[0]] + pairs[1..];
      var c := pairs[0].0;
      var found' := if c in found then found else found + [c];
      assert Distinct(found');
      assert forall d :: d in found' <==> d in found || d == c;
      assert forall d :: Occurs(pairs, d) <==> d == c || Occurs(pairs[1..], d);
      if |found'| != limit {
        SelectCollectionsLists(pairs[1..], limit, found');
      }
    }
  }

  /** `collections(limit)` lists min(limit, n) of the n nonempty collections, once each. */
  lemma CollectionsAreExact(m: Store<Text>, a: Store<Pair>, listing: seq<Text>, limit: nat)
    requires Represents(m, a) && Lists(listing, m.Keys) && WellFormed(listing) && limit > 0
    ensures var r := CollectionsIn(listing, limit, []);
            var all := set p | p in a :: p.0;
            && r.Ok? && Distinct(r.value) && (forall c | c in r.value :: c in all)
            && |r.value| == if limit < |all| then limit else |all|
  {
    var pairs := DecodeListing(listing);
    ListingOfPairs(m, a, listing, pairs);
    CollectionsInDecoded(listing, pairs, limit, []);
    SelectCollectionsLists(pairs, limit, []);
    var all := set p | p in a :: p.0;
    assert forall c :: Occurs(pairs, c) <==> c in all;
    CountDistinct(SelectCollections(pairs, limit, []), all, limit);
  }

  ghost predicate SomeMalformed(listing: seq<Text>) {
    exists s | s in listing :: DecompoundKey(s).Err?
  }

  lemma MalformedFirstOrLater(listing: seq<Text>)
    requires listing != []
    ensures SomeMalformed(listing) <==> DecompoundKey(listing[0]).Err? || SomeMalformed(listing[1..])
  {
    forall s ensures s in listing <==> s == listing[0] || s in listing[1..] {
      FirstOrLater(listing, s);
    }
  }

  /** A malformed identity among those listed makes the listing of keys fail. */
  lemma {:induction false} MalformedIdentityIsReported(listing: seq<Text>, c: Text)
    ensures KeysIn(listing, c).Err? <==> SomeMalformed(listing)
    decreases |listing|
  {
    if listing != [] {
      MalformedFirstOrLater(listing);
      MalformedIdentityIsReported(listing[1..], c);
    }
  }

  // --------------------------------------------------------------------- wrapper

  class SingleCollectionWrapper {
    const backing: Text
    var inner: map<Text, Store<Text>>
    /** The two-level store the wrapper stands for. */
    ghost var pairs: Store<Pair>

    function Contents(): Store<Text>
      reads this
    {
      if backing in inner then inner[backing] else map[]
    }

    ghost predicate Valid()
      reads this
    {
      Represents(Contents(), pairs)
    }

    constructor (backing: Text, inner: map<Text, Store<Text>>)
      requires backing !in inner
      ensures Valid() && pairs == map[] && this.backing == backing && this.inner == inner
    {
      this.backing := backing;
      this.inner := inner;
      pairs := map[];
    }

    /** Any operation, passed on under compound identities: it does to `pairs` what the
        two-level store would do, and leaves the other collections of the inner store alone. */
    method Perform(collection: Option<Text>, op: Op<Text>, now: int) returns (out: Result<Outcome>)
      requires Valid()
      modifies this
      ensures Valid()
      ensures (pairs, out) == Apply(old(pairs), now, MapOp(ToPair(CollectionName(collection)), op))
      ensures forall c | c != backing :: (c in inner <==> c in old(inner)) && (c in inner ==> inner[c] == old(inner)[c])
    {
      var c := CollectionName(collection);
      var (contents, outcome) := Apply(Contents(), now, MapOp(ToIdentity(c), op));
      ApplyRefines(Contents(), pairs, now, c, op);
      pairs := Apply(pairs, now, MapOp(ToPair(c), op)).0;
      inner := inner[backing := contents];
      out := outcome;
    }

    /** `listing` is what the inner store returned for `keys(backing, None)`. */
    method Keys(collection: Option<Text>, limit: Option<nat>, listing: seq<Text>) returns (r: Result<seq<Text>>)
      ensures match KeysIn(listing, CollectionName(collection))
              case Ok(keys) => r == Ok(if limit.Some? then Page(keys, limit.value) else keys)
              case Err(e) => r == Err(e)
    {
      var c := CollectionName(collection);
      var result: seq<Text> := [];
      assert listing[0..] == listing;
      PrefixedNothing(KeysIn(listing, c));
      for i := 0 to |listing|
        invariant KeysIn(listing, c) == Prefixed(result, KeysIn(listing[i..], c))
      {
        assert listing[i..][1..] == listing[i + 1..];
        var pair := DecompoundKey(listing[i]);
        if pair.Err? {
          return Err(pair.error);
        }
        if pair.value.0 == c {
          PrefixedStep(result, pair.value.1, KeysIn(listing[i + 1..], c), KeysIn(listing[i..], c));
          result := result + [pair.value.1];
        }
      }
      assert result + [] == result;
      r := Ok(if limit.Some? then Page(result, limit.value) else result);
    }

    method Collections(limit: Option<nat>, listing: seq<Text>) returns (r: Result<seq<Text>>)
      ensures var n := if limit.Some? then limit.value else U64_LIMIT - 1;
              r == if n == 0 then Ok([]) else CollectionsIn(listing, n, [])
    {
      var n := if limit.Some? then limit.value else U64_LIMIT - 1;
      if n == 0 {
        return Ok([]);
      }
      var seen: set<Text> := {};
      var collections: seq<Text> := [];
      assert listing[0..] == listing;
      for i := 0 to |listing|
        invariant forall c :: c in seen <==> c in collections
        invariant CollectionsIn(listing, n, []) == CollectionsIn(listing[i..], n, collections)
      {
        assert listing[i..][1..] == listing[i + 1..];
        var pair := DecompoundKey(listing[i]);
        if pair.Err? {
          return Err(pair.error);
        }
        if pair.value.0 !in seen {
          seen := seen + {pair.value.0};
          collections := collections + [pair.value.0];
        }
        if |collections| == n {
          break;
        }
      }
      r := Ok(collections);
    }
  }
}
