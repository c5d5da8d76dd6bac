/** Copying a snapshot and applying a change, as loops over a source that is left alone and a
    target changed in place. */
module MigrationImpl {
  import opened Base
  import opened Utf8
  import opened KeyValue
  import opened BackingStores
  import opened Identities
  import opened MigrationOptions
  import opened Enumeration
  import ChangeFeed

  datatype Report = Report(scanned: nat, copied: nat, skippedExpired: nat, replayed: nat)

  function MergeReport(a: Report, b: Report): Report {
    Report(a.scanned + b.scanned, a.copied + b.copied, a.skippedExpired + b.skippedExpired, a.replayed + b.replayed)
  }

  /** Reports can be merged in any order and grouping, and an empty one changes nothing. */
  lemma MergingReports(a: Report, b: Report, c: Report)
    ensures MergeReport(a, b) == MergeReport(b, a)
    ensures MergeReport(MergeReport(a, b), c) == MergeReport(a, MergeReport(b, c))
    ensures MergeReport(a, Report(0, 0, 0, 0)) == a
  {
  }

  /** The source at the time of the copy, and how entries are carried over. `token` stands for
      the revisions the target issues. */
  datatype Job = Job(options: Options, preserveTtl: bool, source: Store<Pair>, now: int, token: Revision)

  // --------------------------------------------------------------- specification

  predicate LiveIn(j: Job, x: Pair) {
    x in j.source && j.source[x].Live(j.now)
  }

  function CopiedCell(j: Job, x: Pair): Cell
    requires LiveIn(j, x)
  {
    NewCell(j.now, j.source[x].value, if j.preserveTtl then j.source[x].Ttl(j.now) else None, j.token)
  }

  function CopyOne(j: Job, target: Store<Pair>, x: Pair): Store<Pair>
    requires Chosen(j.options, x.0)
  {
    if LiveIn(j, x) then target[Image(j.options, x) := CopiedCell(j, x)] else target
  }

  predicate AllChosen(o: Options, xs: seq<Pair>) {
    forall i | 0 <= i < |xs| :: Chosen(o, xs[i].0)
  }

  function CopyAll(j: Job, target: Store<Pair>, xs: seq<Pair>): Store<Pair>
    requires AllChosen(j.options, xs)
    decreases |xs|
  {
    if xs == [] then target else CopyOne(j, CopyAll(j, target, xs[..|xs| - 1]), xs[|xs| - 1])
  }

  function LiveCount(j: Job, xs: seq<Pair>): (n: nat)
    ensures n <= |xs|
    decreases |xs|
  {
    if xs == [] then 0 else LiveCount(j, xs[..|xs| - 1]) + if LiveIn(j, xs[|xs| - 1]) then 1 else 0
  }

  function PairsIn(c: Text, keys: seq<Text>): (r: seq<Pair>)
    ensures |r| == |keys|
    ensures forall i | 0 <= i < |keys| :: r[i] == (c, keys[i])
  {
    seq(|keys|, i requires 0 <= i < |keys| => (c, keys[i]))
  }

  /** Everything the listings make the copy look at, in order. */
  function Listed(o: Options, collections: seq<Text>, keys: Text -> seq<Text>): (r: seq<Pair>)
    ensures AllChosen(o, r)
    decreases |collections|
  {
    if collections == [] then [] else
      var front := Listed(o, collections[..|collections| - 1], keys);
      var last := collections[|collections| - 1];
      if Chosen(o, last) then front + PairsIn(last, keys(last)) else front
  }

  // --------------------------------------------------------------------- lemmas

  lemma CopyAllSnoc(j: Job, target: Store<Pair>, xs: seq<Pair>, x: Pair)
    requires AllChosen(j.options, xs) && Chosen(j.options, x.0)
    ensures AllChosen(j.options, xs + [x])
    ensures CopyAll(j, target, xs + [x]) == CopyOne(j, CopyAll(j, target, xs), x)
    ensures LiveCount(j, xs + [x]) == LiveCount(j, xs) + if LiveIn(j, x) then 1 else 0
  {
    assert (xs + [x])[..|xs|] == xs;
  }

  lemma {:induction false} CopyAllConcat(j: Job, target: Store<Pair>, xs: seq<Pair>, ys: seq<Pair>)
    requires AllChosen(j.options, xs) && AllChosen(j.options, ys)
    ensures AllChosen(j.options, xs + ys)
    ensures CopyAll(j, target, xs + ys) == CopyAll(j, CopyAll(j, target, xs), ys)
    ensures LiveCount(j, xs + ys) == LiveCount(j, xs) + LiveCount(j, ys)
    decreases |ys|
  {
    if ys == [] {
      assert xs + ys == xs;
    } else {
      var front, last := ys[..|ys| - 1], ys[|ys| - 1];
      assert ys == front + [last] && xs + ys == (xs + front) + [last];
      CopyAllConcat(j, target, xs, front);
      CopyAllSnoc(j, target, xs + front, last);
      CopyAllSnoc(j, CopyAll(j, target, xs), front, last);
    }
  }

  lemma PairsSnoc(c: Text, keys: seq<Text>, i: nat)
    requires i < |keys|
    ensures PairsIn(c, keys[..i + 1]) == PairsIn(c, keys[..i]) + [(c, keys[i])]
  {
  }

  lemma PairsConcat(c: Text, keys: seq<Text>, i: nat, m: nat)
    requires i <= m <= |keys|
    ensures PairsIn(c, keys[..m]) == PairsIn(c, keys[..i]) + PairsIn(c, keys[i..m])
  {
  }

  lemma {:induction false} PutAllSnoc(m: Store<Pair>, now: int, ks: seq<Pair>, vs: seq<Value>, tokens: nat -> Revision,
                                      k: Pair, v: Value, i: nat)
    requires i <= |ks| == |vs|
    ensures PutAll(m, now, ks + [k], vs + [v], None, tokens, i)
            == PutAll(m, now, ks, vs, None, tokens, i)[k := NewCell(now, v, None, tokens(|ks|))]
    decreases |ks| - i
  {
    if i < |ks| {
      PutAllSnoc(m[ks[i] := NewCell(now, vs[i], None, tokens(i))], now, ks, vs, tokens, k, v, i + 1);
    } else {
      assert PutAll(m[k := NewCell(now, v, None, tokens(i))], now, ks + [k], vs + [v], None, tokens, i + 1)
             == m[k := NewCell(now, v, None, tokens(i))];
    }
  }

  /** What a copy leaves in the target: the images of the live keys it looked at, each with
      the source's value and, if asked for, its expiry; every other target key is untouched. */
  lemma {:induction false} CopyAllAt(j: Job, target: Store<Pair>, xs: seq<Pair>, x: Pair)
    requires AllChosen(j.options, xs) && Chosen(j.options, x.0)
    ensures var r, t := CopyAll(j, target, xs), Image(j.options, x);
            if x in xs && LiveIn(j, x)
            then t in r && r[t].value == j.source[x].value && r[t].expires == if j.preserveTtl then j.source[x].expires else None
            else (t in r <==> t in target) && (t in r ==> r[t] == target[t])
    decreases |xs|
  {
    if xs != [] {
      var front, last := xs[..|xs| - 1], xs[|xs| - 1];
      assert xs == front + [last];
      CopyAllAt(j, target, front, x);
      ImageInjective(j.options, x, last);
    }
  }

  lemma {:induction false} CopyAllElsewhere(j: Job, target: Store<Pair>, xs: seq<Pair>, t: Pair)
    requires AllChosen(j.options, xs) && forall x: Pair | Chosen(j.options, x.0) :: Image(j.options, x) != t
    ensures var r := CopyAll(j, target, xs); (t in r <==> t in target) && (t in r ==> r[t] == target[t])
    decreases |xs|
  {
    if xs != [] {
      CopyAllElsewhere(j, target, xs[..|xs| - 1], t);
    }
  }

  lemma {:induction false} ListedHas(o: Options, collections: seq<Text>, keys: Text -> seq<Text>, x: Pair)
    ensures x in Listed(o, collections, keys) <==> x.0 in collections && Chosen(o, x.0) && x.1 in keys(x.0)
    decreases |collections|
  {
    if collections != [] {
      var front, last := collections[..|collections| - 1], collections[|collections| - 1];
      assert collections == front + [last];
      ListedHas(o, front, keys, x);
      PairsHave(last, keys(last), x);
    }
  }

  lemma PairsHave(c: Text, keys: seq<Text>, x: Pair)
    ensures x in PairsIn(c, keys) <==> x.0 == c && x.1 in keys
  {
    if x.0 == c && x.1 in keys {
      var i :| 0 <= i < |keys| && keys[i] == x.1;
      assert PairsIn(c, keys)[i] == x;
    }
  }

  predicate SameEntry(j: Job, x: Pair, cell: Cell)
    requires LiveIn(j, x)
  {
    cell.value == j.source[x].value && cell.expires == if j.preserveTtl then j.source[x].expires else None
  }

  predicate RightlyCopied(j: Job, r: Store<Pair>, x: Pair)
    requires Chosen(j.options, x.0)
  {
    var t := Image(j.options, x);
    if LiveIn(j, x) then t in r && SameEntry(j, x, r[t]) else t !in r
  }

  /** The target is the live chosen part of the source under its new names. */
  ghost predicate ExactCopy(j: Job, r: Store<Pair>) {
    && (forall x: Pair | Chosen(j.options, x.0) :: RightlyCopied(j, r, x))
    && (forall t | t in r :: exists x: Pair :: Chosen(j.options, x.0) && Image(j.options, x) == t)
  }

  predicate IsListed(x: Pair, collections: seq<Text>, keys: Text -> seq<Text>) {
    x.0 in collections && x.1 in keys(x.0)
  }

  /** A snapshot into an empty target is exact if and only if the listings show every live
      chosen key. */
  lemma SnapshotIsExact(j: Job, collections: seq<Text>, keys: Text -> seq<Text>)
    ensures ExactCopy(j, CopyAll(j, map[], Listed(j.options, collections, keys))) <==>
            forall x | LiveIn(j, x) && Chosen(j.options, x.0) :: IsListed(x, collections, keys)
  {
    var xs := Listed(j.options, collections, keys);
    var r := CopyAll(j, map[], xs);
    forall x: Pair | Chosen(j.options, x.0)
      ensures RightlyCopied(j, r, x) <==> (LiveIn(j, x) ==> IsListed(x, collections, keys))
    {
      ListedHas(j.options, collections, keys, x);
      CopyAllAt(j, map[], xs, x);
    }
    forall t | t in r ensures exists x: Pair :: Chosen(j.options, x.0) && Image(j.options, x) == t {
      if !exists x: Pair :: Chosen(j.options, x.0) && Image(j.options, x) == t {
        CopyAllElsewhere(j, map[], xs, t);
      }
    }
    if ExactCopy(j, r) {
      forall x | LiveIn(j, x) && Chosen(j.options, x.0) ensures IsListed(x, collections, keys) {
        assert RightlyCopied(j, r, x);
      }
    }
    if forall x | LiveIn(j, x) && Chosen(j.options, x.0) :: IsListed(x, collections, keys) {
      forall x: Pair | Chosen(j.options, x.0) ensures RightlyCopied(j, r, x) {
        assert LiveIn(j, x) ==> IsListed(x, collections, keys);
      }
    }
  }

  // ------------------------------------------------------ what lands under which name

  /** The source's entry stands under a target key, with its expiry when that is asked for. */
  predicate Landed(j: Job, r: Store<Pair>, x: Pair, t: Pair)
    requires LiveIn(j, x)
  {
    && t in r && r[t].value == j.source[x].value
    && r[t].expires == if j.preserveTtl then j.source[x].expires else None
  }

  predicate Untouched(r: Store<Pair>, target: Store<Pair>, t: Pair) {
    (t in r <==> t in target) && (t in r ==> r[t] == target[t])
  }

  /** With a prefix mapping, a live listed key of a collection that was asked for lands under the
      name with the prefix replaced; if it is not live, not listed or not asked for, that target
      key is untouched. */
  lemma CopyReplacesPrefix(j: Job, target: Store<Pair>, collections: seq<Text>, keys: Text -> seq<Text>,
                           from: Text, to: Text, rest: Text, k: Text)
    requires j.options.prefix == Some((from, to))
    ensures Valid(from + rest) && Valid(to + rest)
    ensures var r := CopyAll(j, target, Listed(j.options, collections, keys));
            var c, d := from + rest, to + rest;
            if (j.options.collections == [] || c in j.options.collections) && c in collections && k in keys(c) && LiveIn(j, (c, k))
            then Landed(j, r, (c, k), (d, k))
            else Untouched(r, target, (d, k))
  {
    var o, xs := j.options, Listed(j.options, collections, keys);
    PrefixIsReplaced(o, from, to, rest, k);
    var x: Pair := (from + rest, k);
    if Chosen(o, x.0) {
      ListedHas(o, collections, keys, x);
      CopyAllAt(j, target, xs, x);
    } else {
      NotAnImage(o, from, to, rest, k);
      CopyAllElsewhere(j, target, xs, (to + rest, k));
    }
  }

  /** Target collections without the target prefix are untouched. */
  lemma CopyKeepsToThePrefix(j: Job, target: Store<Pair>, collections: seq<Text>, keys: Text -> seq<Text>,
                             from: Text, to: Text, t: Pair)
    requires j.options.prefix == Some((from, to)) && !(to <= t.0)
    ensures Untouched(CopyAll(j, target, Listed(j.options, collections, keys)), target, t)
  {
    forall y: Pair | Chosen(j.options, y.0) ensures Image(j.options, y) != t {
      var rest := ImagesCarryThePrefix(j.options, from, to, y);
    }
    CopyAllElsewhere(j, target, Listed(j.options, collections, keys), t);
  }

  /** Without a prefix mapping everything lands under the name it has. */
  lemma CopyKeepsNames(j: Job, target: Store<Pair>, collections: seq<Text>, keys: Text -> seq<Text>, c: Text, k: Text)
    requires j.options.prefix.None?
    ensures var r := CopyAll(j, target, Listed(j.options, collections, keys));
            if (j.options.collections == [] || c in j.options.collections) && c in collections && k in keys(c) && LiveIn(j, (c, k))
            then Landed(j, r, (c, k), (c, k))
            else Untouched(r, target, (c, k))
  {
    var o, xs := j.options, Listed(j.options, collections, keys);
    NamesAreKept(o, c, k);
    if Chosen(o, c) {
      ListedHas(o, collections, keys, (c, k));
      CopyAllAt(j, target, xs, (c, k));
    } else {
      forall y: Pair | Chosen(o, y.0) ensures Image(o, y) != (c, k) {
        NamesAreKept(o, y.0, y.1);
      }
      CopyAllElsewhere(j, target, xs, (c, k));
    }
  }

  // ------------------------------------------------------------- paged listings

  function StoredKeys(m: Store<Pair>, c: Text): set<Text> {
    set x | x in m && x.0 == c :: x.1
  }

  /** Complete listings, each in some order: of the collections the store knows, and of the
      keys of every collection, expired ones included. */
  ghost predicate ListsStore(m: Store<Pair>, names: set<Text>, collections: seq<Text>, keys: Text -> seq<Text>) {
    Lists(collections, names) && forall c :: Lists(keys(c), StoredKeys(m, c))
  }

  /** What a store shows that cuts every listing off after `page` names. */
  ghost predicate PagedExact(j: Job, page: nat, collections: seq<Text>, keys: Text -> seq<Text>) {
    ExactCopy(j, CopyAll(j, map[], Listed(j.options, Page(collections, page), c => Page(keys(c), page))))
  }

  ghost function SomeOrder(keys: set<Text>): (s: seq<Text>)
    ensures Lists(s, keys)
  {
    assert exists s :: Lists(s, keys) by {
      var s := SomeListing(keys);
    }
    var s :| Lists(s, keys);
    s
  }

  /** Copying a snapshot from a store that cuts its listings off is exact in every order of
      the listings if and only if, as soon as there is something to copy, the store's
      collections fit one page and so do the keys of every collection that has a live chosen
      key. */
  lemma PagedSnapshotIsExactIff(j: Job, names: set<Text>, page: nat)
    requires forall x | x in j.source :: x.0 in names
    ensures (forall collections, keys | ListsStore(j.source, names, collections, keys) :: PagedExact(j, page, collections, keys))
            <==> forall x | LiveIn(j, x) && Chosen(j.options, x.0) :: |names| <= page && |StoredKeys(j.source, x.0)| <= page
  {
    if forall x | LiveIn(j, x) && Chosen(j.options, x.0) :: |names| <= page && |StoredKeys(j.source, x.0)| <= page {
      forall collections, keys | ListsStore(j.source, names, collections, keys) ensures PagedExact(j, page, collections, keys) {
        FittingListingsShow(j, names, page, collections, keys);
        SnapshotIsExact(j, Page(collections, page), c => Page(keys(c), page));
      }
    } else {
      var x :| LiveIn(j, x) && Chosen(j.options, x.0) && !(|names| <= page && |StoredKeys(j.source, x.0)| <= page);
      var collections, keys := LosingListings(j, names, page, x);
    }
  }

  /** Orders in which a key that does not fit is not shown, and so not copied. */
  lemma LosingListings(j: Job, names: set<Text>, page: nat, x: Pair) returns (collections: seq<Text>, keys: Text -> seq<Text>)
    requires x.0 in names && LiveIn(j, x) && Chosen(j.options, x.0)
    requires !(|names| <= page && |StoredKeys(j.source, x.0)| <= page)
    ensures ListsStore(j.source, names, collections, keys) && !PagedExact(j, page, collections, keys)
  {
    assert x.1 in StoredKeys(j.source, x.0);
    collections := LastInListing(names, x.0);
    var last := LastInListing(StoredKeys(j.source, x.0), x.1);
    keys := c => if c == x.0 then last else SomeOrder(StoredKeys(j.source, c));
    var shown := (c: Text) => Page(keys(c), page);
    assert !IsListed(x, Page(collections, page), shown);
    SnapshotIsExact(j, Page(collections, page), shown);
  }

  lemma FittingListingsShow(j: Job, names: set<Text>, page: nat, collections: seq<Text>, keys: Text -> seq<Text>)
    requires forall x | x in j.source :: x.0 in names
    requires ListsStore(j.source, names, collections, keys)
    requires forall x | LiveIn(j, x) && Chosen(j.options, x.0) :: |names| <= page && |StoredKeys(j.source, x.0)| <= page
    ensures forall x | LiveIn(j, x) && Chosen(j.options, x.0) :: IsListed(x, Page(collections, page), c => Page(keys(c), page))
  {
    forall x | LiveIn(j, x) && Chosen(j.options, x.0) ensures IsListed(x, Page(collections, page), c => Page(keys(c), page)) {
      assert Lists(keys(x.0), StoredKeys(j.source, x.0));
      ListsSize(collections, names);
      ListsSize(keys(x.0), StoredKeys(j.source, x.0));
      assert x.1 in StoredKeys(j.source, x.0);
    }
  }

  // -------------------------------------------------------------------- methods

  method CopyTimedBatch(j: Job, target: BackingStore<Pair>, c: Text, to: Text, batch: seq<Text>, entries: seq<Option<(Value, Option<int>)>>)
    returns (copied: nat, skipped: nat)
    requires j.preserveTtl && Chosen(j.options, c) && TargetCollection(j.options, c) == Some(to)
    requires entries == GetTtls(j.source, j.now, PairsIn(c, batch))
    modifies target
    ensures target.cells == CopyAll(j, old(target.cells), PairsIn(c, batch))
    ensures copied == LiveCount(j, PairsIn(c, batch)) && copied + skipped == |batch|
  {
    copied, skipped := 0, 0;
    for i := 0 to |batch|
      invariant target.cells == CopyAll(j, old(target.cells), PairsIn(c, batch[..i]))
      invariant copied == LiveCount(j, PairsIn(c, batch[..i])) && copied + skipped == i
    {
      PairsSnoc(c, batch, i);
      CopyAllSnoc(j, old(target.cells), PairsIn(c, batch[..i]), (c, batch[i]));
      if entries[i].None? {
        skipped := skipped + 1;
        continue;
      }
      var (value, ttl) := entries[i].value;
      var out := target.Perform(Put((to, batch[i]), value, ttl, j.token), j.now);
      copied := copied + 1;
    }
    assert batch[..|batch|] == batch;
  }

  /** Writing what was collected is copying the keys looked at so far. */
  ghost predicate Collected(j: Job, cells: Store<Pair>, xs: seq<Pair>, ks: seq<Pair>, vs: seq<Value>, tokens: nat -> Revision)
    requires AllChosen(j.options, xs) && |ks| == |vs|
  {
    |ks| == LiveCount(j, xs) && PutAll(cells, j.now, ks, vs, None, tokens, 0) == CopyAll(j, cells, xs)
  }

  lemma CollectStep(j: Job, cells: Store<Pair>, xs: seq<Pair>, x: Pair, t: Pair, ks: seq<Pair>, vs: seq<Value>, tokens: nat -> Revision)
    requires !j.preserveTtl && AllChosen(j.options, xs) && Chosen(j.options, x.0) && t == Image(j.options, x)
    requires |ks| == |vs| && tokens(|ks|) == j.token && Collected(j, cells, xs, ks, vs, tokens)
    ensures AllChosen(j.options, xs + [x])
    ensures if LiveIn(j, x) then Collected(j, cells, xs + [x], ks + [t], vs + [j.source[x].value], tokens)
            else Collected(j, cells, xs + [x], ks, vs, tokens)
  {
    CopyAllSnoc(j, cells, xs, x);
    if LiveIn(j, x) {
      PutAllSnoc(cells, j.now, ks, vs, tokens, t, j.source[x].value, 0);
    }
  }

  method CopyValueBatch(j: Job, target: BackingStore<Pair>, c: Text, to: Text, batch: seq<Text>, values: seq<Option<Value>>)
    returns (copied: nat, skipped: nat)
    requires !j.preserveTtl && Chosen(j.options, c) && TargetCollection(j.options, c) == Some(to)
    requires values == GetValues(j.source, j.now, PairsIn(c, batch))
    modifies target
    ensures target.cells == CopyAll(j, old(target.cells), PairsIn(c, batch))
    ensures copied == LiveCount(j, PairsIn(c, batch)) && copied + skipped == |batch|
  {
    copied, skipped := 0, 0;
    var tokens := (_: nat) => j.token;
    var keysToCopy: seq<Pair>, valuesToCopy: seq<Value> := [], [];
    for i := 0 to |batch|
      invariant |keysToCopy| == |valuesToCopy| && |keysToCopy| + skipped == i && target.cells == old(target.cells)
      invariant Collected(j, target.cells, PairsIn(c, batch[..i]), keysToCopy, valuesToCopy, tokens)
    {
      PairsSnoc(c, batch, i);
      CollectStep(j, target.cells, PairsIn(c, batch[..i]), (c, batch[i]), (to, batch[i]), keysToCopy, valuesToCopy, tokens);
      if values[i].None? {
        skipped := skipped + 1;
        continue;
      }
      keysToCopy := keysToCopy + [(to, batch[i])];
      valuesToCopy := valuesToCopy + [values[i].value];
    }
    assert batch[..|batch|] == batch;
    if keysToCopy != [] {
      var out := target.Perform(PutMany(keysToCopy, valuesToCopy, None, tokens), j.now);
      copied := |keysToCopy|;
    }
  }

  method CopyBatch(j: Job, target: BackingStore<Pair>, c: Text, to: Text, batch: seq<Text>) returns (copied: nat, skipped: nat)
    requires Chosen(j.options, c) && TargetCollection(j.options, c) == Some(to)
    modifies target
    ensures target.cells == CopyAll(j, old(target.cells), PairsIn(c, batch))
    ensures copied == LiveCount(j, PairsIn(c, batch)) && copied + skipped == |batch|
  {
    if j.preserveTtl {
      copied, skipped := CopyTimedBatch(j, target, c, to, batch, GetTtls(j.source, j.now, PairsIn(c, batch)));
    } else {
      copied, skipped := CopyValueBatch(j, target, c, to, batch, GetValues(j.source, j.now, PairsIn(c, batch)));
    }
  }

  method CopyCollection(j: Job, target: BackingStore<Pair>, c: Text, to: Text, keys: seq<Text>) returns (report: Report)
    requires Chosen(j.options, c) && TargetCollection(j.options, c) == Some(to)
    modifies target
    ensures target.cells == CopyAll(j, old(target.cells), PairsIn(c, keys))
    ensures report.scanned == |keys| && report.copied == LiveCount(j, PairsIn(c, keys)) && report.replayed == 0
    ensures report.scanned == report.copied + report.skippedExpired
  {
    report := Report(0, 0, 0, 0);
    var i := 0;
    while i < |keys|
      invariant i <= |keys| && report.scanned == i && report.replayed == 0
      invariant target.cells == CopyAll(j, old(target.cells), PairsIn(c, keys[..i]))
      invariant report.copied == LiveCount(j, PairsIn(c, keys[..i])) && report.scanned == report.copied + report.skippedExpired
    {
      var m := if |keys| - i < BatchSize(j.options) then |keys| else i + BatchSize(j.options);
      var copied, skipped := CopyBatch(j, target, c, to, keys[i..m]);
      PairsConcat(c, keys, i, m);
      CopyAllConcat(j, old(target.cells), PairsIn(c, keys[..i]), PairsIn(c, keys[i..m]));
      report := MergeReport(report, Report(m - i, copied, skipped, 0));
      i := m;
    }
    assert keys[..|keys|] == keys;
  }

  /** `collections` and `keys` are what the source lists. Every scanned key is either copied or
      skipped as expired. */
  method CopySnapshot(j: Job, target: BackingStore<Pair>, collections: seq<Text>, keys: Text -> seq<Text>) returns (report: Report)
    modifies target
    ensures var all := Listed(j.options, collections, keys);
            && target.cells == CopyAll(j, old(target.cells), all)
            && report.scanned == |all| && report.copied == LiveCount(j, all)
    ensures report.scanned == report.copied + report.skippedExpired && report.replayed == 0
  {
    report := Report(0, 0, 0, 0);
    ghost var done: seq<Pair> := [];
    for i := 0 to |collections|
      invariant done == Listed(j.options, collections[..i], keys)
      invariant target.cells == CopyAll(j, old(target.cells), done)
      invariant report.scanned == |done| && report.copied == LiveCount(j, done)
      invariant report.scanned == report.copied + report.skippedExpired && report.replayed == 0
    {
      assert collections[..i + 1][..i] == collections[..i];
      if !Selected(j.options, collections[i]) {
        continue;
      }
      var to := TargetCollection(j.options, collections[i]);
      if to.None? {
        continue;
      }
      var found := keys(collections[i]);
      var part := CopyCollection(j, target, collections[i], to.value, found);
      CopyAllConcat(j, old(target.cells), done, PairsIn(collections[i], found));
      done := done + PairsIn(collections[i], found);
      report := MergeReport(report, part);
    }
    assert collections[..|collections|] == collections;
  }

  // --------------------------------------------------------------------- changes

  /** The target after a change is applied: the image of a chosen key takes the source's
      present entry, or disappears. */
  function Applied(j: Job, target: Store<Pair>, x: Pair, operation: ChangeFeed.Operation): Store<Pair> {
    if !Chosen(j.options, x.0) then target
    else if operation.Put? && LiveIn(j, x) then CopyOne(j, target, x)
    else Remove(target, Image(j.options, x))
  }

  /** With a prefix mapping, a change of a collection that carries the prefix and was asked for
      leaves its key, under the name with the prefix replaced, with the source's present entry,
      or gone for a delete and for an entry that is gone; every other target key is as it was. */
  lemma ApplyReplacesPrefix(j: Job, target: Store<Pair>, from: Text, to: Text, rest: Text, k: Text,
                            operation: ChangeFeed.Operation, t: Pair)
    requires j.options.prefix == Some((from, to))
    ensures Valid(from + rest) && Valid(to + rest)
    ensures var c, d := from + rest, to + rest;
            var r := Applied(j, target, (c, k), operation);
            if t != (d, k) || !(j.options.collections == [] || c in j.options.collections) then Untouched(r, target, t)
            else if operation.Put? && LiveIn(j, (c, k)) then Landed(j, r, (c, k), (d, k))
            else (d, k) !in r
  {
    PrefixIsReplaced(j.options, from, to, rest, k);
  }

  /** A change of a collection without the source prefix leaves the target alone. */
  lemma ApplySkipsOtherPrefixes(j: Job, target: Store<Pair>, from: Text, to: Text, x: Pair, operation: ChangeFeed.Operation)
    requires j.options.prefix == Some((from, to)) && !(from <= x.0)
    ensures Applied(j, target, x, operation) == target
  {
  }

  /** Without a prefix mapping a change is applied under the name it has. */
  lemma ApplyKeepsNames(j: Job, target: Store<Pair>, x: Pair, operation: ChangeFeed.Operation, t: Pair)
    requires j.options.prefix.None?
    ensures var r := Applied(j, target, x, operation);
            if t != x || !(j.options.collections == [] || x.0 in j.options.collections) then Untouched(r, target, t)
            else if operation.Put? && LiveIn(j, x) then Landed(j, r, x, x)
            else x !in r
  {
    NamesAreKept(j.options, x.0, x.1);
  }

  method ApplyChange(j: Job, target: BackingStore<Pair>, change: ChangeFeed.Change) returns (report: Report)
    modifies target
    ensures target.cells == Applied(j, old(target.cells), (change.collection, change.key), change.operation)
    ensures var x := (change.collection, change.key);
            report == if !Chosen(j.options, x.0) then Report(0, 0, 0, 0)
                      else Report(0, 0, if change.operation.Put? && !LiveIn(j, x) then 1 else 0, 1)
  {
    report := Report(0, 0, 0, 1);
    if !Selected(j.options, change.collection) {
      return Report(0, 0, 0, 0);
    }
    var to := TargetCollection(j.options, change.collection);
    if to.None? {
      return Report(0, 0, 0, 0);
    }
    match change.operation {
      case Delete =>
        var out := target.Perform(Op.Delete((to.value, change.key)), j.now);
      case Put =>
        var x := (change.collection, change.key);
        var current :=
          if j.preserveTtl then GetTtl(j.source, j.now, x)
          else match GetValue(j.source, j.now, x) case Some(value) => Some((value, None)) case None => None;
        if current.Some? {
          var out := target.Perform(Op.Put((to.value, change.key), current.value.0, current.value.1, j.token), j.now);
        } else {
          var out := target.Perform(Op.Delete((to.value, change.key)), j.now);
          report := report.(skippedExpired := 1);
        }
    }
  }
}
