/** Which keys a migration gets right, decided key by key: the invariant that every move
    keeps in both directions, and convergence for every interleaving. */
module MigrationConvergence {
  import opened Base
  import opened Utf8
  import opened ChangeFeed
  import opened Enumeration
  import opened Identities
  import opened MigrationOptions
  import opened Migration

  // --------------------------------------------------------------- last records

  lemma {:induction false} LastOpConcat(a: seq<Mutation>, b: seq<Mutation>, x: Pair)
    ensures LastOp(a + b, x) == if LastOp(b, x).Some? then LastOp(b, x) else LastOp(a, x)
    decreases |b|
  {
    if b == [] {
      assert a + b == a;
    } else {
      var front := b[..|b| - 1];
      LastOpConcat(a, front, x);
      assert (a + b)[..|a + b| - 1] == a + front;
    }
  }

  lemma LastOpHead(m: Mutation, rest: seq<Mutation>, x: Pair)
    ensures LastOp([m] + rest, x) == if LastOp(rest, x).Some? then LastOp(rest, x)
                                     else if Concerns(m, x) then Some(m.operation) else None
  {
    LastOpConcat([m], rest, x);
    assert [m][..0] == [];
  }

  // ------------------------------------------------------------------- invariant

  /** What the invariant speaks of: `pending` are the outstanding records. */
  datatype View = View(source: Contents, names: set<Text>, target: Contents, pending: seq<Mutation>, pc: Pc)

  ghost function ViewOf(s: System): View
    requires Standing(s.stream, s.history)
  {
    View(s.source, s.names, s.target, Outstanding(s), s.pc)
  }

  predicate Mentioned(v: View, x: Pair) {
    LastOp(v.pending, x).Some?
  }

  /** Source and target agree about a chosen key. */
  predicate Agrees(o: Options, v: View, x: Pair)
    requires Chosen(o, x.0)
  {
    SameIn(o, v.source, v.target, x)
  }

  function ItemKeys(items: seq<Item>): (r: seq<Text>)
    ensures |r| == |items|
  {
    if items == [] then [] else [items[0].0] + ItemKeys(items[1..])
  }

  /** The value read for a key and not yet written, if there is one. */
  function Held(items: seq<Item>, k: Text): Option<Option<Value>> {
    if items == [] then None else if items[0].0 == k then Some(items[0].1) else Held(items[1..], k)
  }

  /** Enough room on a page for `n` names; no page means room for any number. */
  predicate Room(room: Option<nat>, n: nat) {
    room.Some? ==> n <= room.value
  }

  predicate RoomForKeys(room: Option<nat>, v: View, c: Text) {
    Room(room, |ListableKeys(v.source, v.pending, c)|)
  }

  /** The copier is sure to come to `x`, whatever the listings it has yet to see. */
  predicate Comes(room: Option<nat>, v: View, x: Pair) {
    match v.pc
    case AtStart => Room(room, |ListableNames(v.names, v.pending)|) && RoomForKeys(room, v, x.0)
    case AtCollections(cs) => x.0 in cs && RoomForKeys(room, v, x.0)
    case InCollection(c, reading, items, keys, cs) =>
      (x.0 == c && (x.1 in reading || x.1 in keys)) || (x.0 in cs && RoomForKeys(room, v, x.0))
    case _ => false
  }

  /** A chosen key that will come out right if the source is left alone: a record about it is
      outstanding whose last word is true, or what is being written is right, or both stores
      agree, or the key is there and the copier is sure to come to it. */
  predicate Safe(o: Options, room: Option<nat>, v: View, x: Pair)
    requires Chosen(o, x.0)
  {
    if Mentioned(v, x) then LastOp(v.pending, x) == Some(Delete) ==> x !in v.source
    else match v.pc
      case Applying(y, operation) =>
        if x == y then operation == Delete ==> x !in v.source else Agrees(o, v, x)
      case Putting(y, value) =>
        if x == y then value == Lookup(v.source, x) else Agrees(o, v, x)
      case InCollection(c, _, items, _, _) =>
        if x.0 == c && Held(items, x.1).Some? then WritesRight(o, v, x, Held(items, x.1).value)
        else Agrees(o, v, x) || (x in v.source && Comes(room, v, x))
      case _ => Agrees(o, v, x) || (x in v.source && Comes(room, v, x))
  }

  /** Writing a held value makes the stores agree; nothing is written for a key that was
      missing when it was read. */
  predicate WritesRight(o: Options, v: View, x: Pair, value: Option<Value>)
    requires Chosen(o, x.0)
  {
    if value.Some? then value == Lookup(v.source, x) else Agrees(o, v, x)
  }

  /** A target key names a chosen source key, present or not. */
  ghost predicate IsImage(o: Options, t: Pair) {
    exists x: Pair :: Chosen(o, x.0) && Image(o, x) == t
  }

  ghost predicate Sound(o: Options, room: Option<nat>, v: View) {
    && (forall t | t in v.target :: IsImage(o, t))
    && (forall x: Pair | Chosen(o, x.0) :: Safe(o, room, v, x))
  }

  /** The copier never holds a name twice, and works on chosen collections only. */
  ghost predicate Shaped(o: Options, pc: Pc) {
    match pc
    case AtCollections(cs) => Distinct(cs)
    case InCollection(c, reading, items, keys, cs) =>
      && Chosen(o, c) && Distinct(cs) && c !in cs
      && Distinct(ItemKeys(items) + (reading + keys))
    case Applying(x, _) => Chosen(o, x.0)
    case Putting(x, _) => Chosen(o, x.0)
    case _ => true
  }

  /** What holds in every state a migration can reach, however its source was treated. */
  ghost predicate Running(g: Setup, s: System) {
    && g.limits.Valid() && FeedOf(g.limits, s.feed, s.history) && Standing(s.stream, s.history)
    && s.stream.filter == EVERYTHING
    && Named(s.source, s.names) && Shaped(g.options, s.pc)
  }

  ghost predicate Inv(g: Setup, s: System) {
    Running(g, s) && Sound(g.options, None, ViewOf(s))
  }

  // ------------------------------------------------------------------- held items

  lemma {:induction false} HeldIff(items: seq<Item>, k: Text)
    ensures Held(items, k).Some? <==> k in ItemKeys(items)
  {
    if items != [] {
      HeldIff(items[1..], k);
      FirstOrLater(ItemKeys(items), k);
    }
  }

  lemma {:induction false} HeldSnoc(items: seq<Item>, item: Item, k: Text)
    ensures ItemKeys(items + [item]) == ItemKeys(items) + [item.0]
    ensures Held(items + [item], k) == if Held(items, k).Some? then Held(items, k) else if k == item.0 then Some(item.1) else None
  {
    if items == [] {
      assert [] + [item] == [item];
      assert [item][1..] == [];
    } else {
      HeldSnoc(items[1..], item, k);
      assert (items + [item])[1..] == items[1..] + [item];
    }
  }

  lemma ItemKeysTail(items: seq<Item>)
    requires items != []
    ensures ItemKeys(items)[1..] == ItemKeys(items[1..]) && ItemKeys(items)[0] == items[0].0
  {
  }

  /** The first item's key occurs nowhere after it. */
  lemma WriteShape(items: seq<Item>, keys: seq<Text>)
    requires items != [] && Distinct(ItemKeys(items) + ([] + keys))
    ensures Distinct(ItemKeys(items[1..]) + ([] + keys))
    ensures items[0].0 !in ItemKeys(items[1..]) && items[0].0 !in keys
  {
    var names, rest, later := ItemKeys(items), [] + keys, ItemKeys(items[1..]);
    ItemKeysTail(items);
    TailConcat(names, rest);
    DistinctCons(names + rest);
    assert rest == keys;
    assert items[0].0 !in later + rest;
  }

  // ------------------------------------------------------- the copier, key by key

  lemma SkipDecides(o: Options, room: Option<nat>, v: View, w: View, x: Pair)
    requires v.pc.AtCollections? && v.pc.collections != [] && !Chosen(o, v.pc.collections[0])
    requires w == v.(pc := AtCollections(v.pc.collections[1..])) && Chosen(o, x.0)
    ensures Safe(o, room, w, x) <==> Safe(o, room, v, x)
  {
    FirstOrLater(v.pc.collections, x.0);
  }

  lemma ReadDecides(o: Options, room: Option<nat>, v: View, w: View, c: Text, k: Text, item: Item, x: Pair)
    requires v.pc.InCollection? && Shaped(o, v.pc) && v.pc.collection == c && v.pc.reading != [] && v.pc.reading[0] == k
    requires item == (k, Lookup(v.source, (c, k))) && Chosen(o, x.0)
    requires w == v.(pc := InCollection(c, v.pc.reading[1..], v.pc.items + [item], v.pc.keys, v.pc.collections))
    ensures Safe(o, room, w, x) <==> Safe(o, room, v, x)
  {
    HeldSnoc(v.pc.items, item, x.1);
    HeldIff(v.pc.items, x.1);
    FirstOrLater(v.pc.reading, x.1);
    DistinctParts(ItemKeys(v.pc.items), v.pc.reading + v.pc.keys);
    assert k in v.pc.reading + v.pc.keys;
  }

  lemma WriteDecidesItsKey(o: Options, room: Option<nat>, v: View, w: View, c: Text, k: Text, value: Option<Value>)
    requires v.pc.InCollection? && v.pc.collection == c && v.pc.reading == [] && Chosen(o, c)
    requires v.pc.items != [] && v.pc.items[0] == (k, value)
    requires Held(v.pc.items[1..], k).None? && k !in v.pc.keys && c !in v.pc.collections
    requires w == v.(target := if value.Some? then v.target[Image(o, (c, k)) := value.value] else v.target,
                     pc := InCollection(c, [], v.pc.items[1..], v.pc.keys, v.pc.collections))
    ensures Safe(o, room, w, (c, k)) <==> Safe(o, room, v, (c, k))
  {
  }

  lemma WriteDecidesOthers(o: Options, room: Option<nat>, v: View, w: View, c: Text, k: Text, value: Option<Value>, x: Pair)
    requires v.pc.InCollection? && v.pc.collection == c && v.pc.reading == []
    requires v.pc.items != [] && v.pc.items[0] == (k, value) && Chosen(o, c) && Chosen(o, x.0) && x != (c, k)
    requires w == v.(target := if value.Some? then v.target[Image(o, (c, k)) := value.value] else v.target,
                     pc := InCollection(c, [], v.pc.items[1..], v.pc.keys, v.pc.collections))
    ensures Safe(o, room, w, x) <==> Safe(o, room, v, x)
  {
    ImageInjective(o, x, (c, k));
    assert Agrees(o, w, x) <==> Agrees(o, v, x);
  }

  /** Writing the value that was read, or nothing when the key was gone: it comes out right
      exactly when that was safe. */
  lemma WriteDecides(o: Options, room: Option<nat>, v: View, w: View, c: Text, k: Text, value: Option<Value>, x: Pair)
    requires v.pc.InCollection? && Shaped(o, v.pc) && v.pc.collection == c && v.pc.reading == []
    requires v.pc.items != [] && v.pc.items[0] == (k, value) && Chosen(o, x.0)
    requires w == v.(target := if value.Some? then v.target[Image(o, (c, k)) := value.value] else v.target,
                     pc := InCollection(c, [], v.pc.items[1..], v.pc.keys, v.pc.collections))
    ensures Safe(o, room, w, x) <==> Safe(o, room, v, x)
  {
    if x == (c, k) {
      HeldIff(v.pc.items[1..], k);
      WriteShape(v.pc.items, v.pc.keys);
      WriteDecidesItsKey(o, room, v, w, c, k, value);
    } else {
      WriteDecidesOthers(o, room, v, w, c, k, value, x);
    }
  }

  lemma NextBatchDecides(o: Options, room: Option<nat>, v: View, w: View, n: nat, x: Pair)
    requires v.pc.InCollection? && v.pc.reading == [] && v.pc.items == [] && n <= |v.pc.keys| && Chosen(o, x.0)
    requires w == v.(pc := InCollection(v.pc.collection, v.pc.keys[..n], [], v.pc.keys[n..], v.pc.collections))
    ensures Safe(o, room, w, x) <==> Safe(o, room, v, x)
  {
    assert v.pc.keys == v.pc.keys[..n] + v.pc.keys[n..];
  }

  lemma LeaveDecides(o: Options, room: Option<nat>, v: View, w: View, x: Pair)
    requires v.pc.InCollection? && v.pc.reading == [] && v.pc.items == [] && v.pc.keys == [] && Chosen(o, x.0)
    requires w == v.(pc := AtCollections(v.pc.collections))
    ensures Safe(o, room, w, x) <==> Safe(o, room, v, x)
  {
  }

  lemma FinishDecides(o: Options, room: Option<nat>, v: View, w: View, x: Pair)
    requires v.pc == AtCollections([]) && w == v.(pc := Replaying) && Chosen(o, x.0)
    ensures Safe(o, room, w, x) <==> Safe(o, room, v, x)
  {
  }

  // ------------------------------------------------------------------ listings

  lemma ListingFits(listing: seq<Text>, all: set<Text>)
    requires Distinct(listing) && forall n | n in listing :: n in all
    ensures |listing| <= |all|
  {
    ListsSize(listing, Elements(listing));
    SubsetSize(Elements(listing), all);
  }

  /** Entering a collection keeps every key safe that the page shows or that needs no copy. */
  lemma EnterKeeps(o: Options, room: Option<nat>, v: View, w: View, c: Text, page: seq<Text>, x: Pair)
    requires v.pc.AtCollections? && Shaped(o, v.pc) && v.pc.collections != [] && c == v.pc.collections[0] && Chosen(o, x.0)
    requires w == v.(pc := InCollection(c, [], [], page, v.pc.collections[1..]))
    requires Safe(o, room, v, x) && (x.0 == c && x in v.source && !Mentioned(v, x) && RoomForKeys(room, v, c) ==> x.1 in page)
    ensures Safe(o, room, w, x)
  {
    FirstOrLater(v.pc.collections, x.0);
  }

  /** A key the page does not show stays lost. */
  lemma EnterLoses(o: Options, room: Option<nat>, v: View, w: View, c: Text, page: seq<Text>, x: Pair)
    requires v.pc.AtCollections? && Shaped(o, v.pc) && v.pc.collections != [] && c == v.pc.collections[0] && Chosen(o, x.0)
    requires w == v.(pc := InCollection(c, [], [], page, v.pc.collections[1..]))
    requires !Safe(o, room, v, x) && (x.0 == c && x in v.source && !RoomForKeys(room, v, c) ==> x.1 !in page)
    ensures !Safe(o, room, w, x)
  {
    FirstOrLater(v.pc.collections, x.0);
    DistinctCons(v.pc.collections);
  }

  lemma BeginKeeps(o: Options, room: Option<nat>, v: View, w: View, page: seq<Text>, x: Pair)
    requires v.pc == AtStart && w == v.(pc := AtCollections(page)) && Chosen(o, x.0)
    requires Safe(o, room, v, x)
    requires x in v.source && !Mentioned(v, x) && Room(room, |ListableNames(v.names, v.pending)|) ==> x.0 in page
    ensures Safe(o, room, w, x)
  {
  }

  lemma BeginLoses(o: Options, room: Option<nat>, v: View, w: View, page: seq<Text>, x: Pair)
    requires v.pc == AtStart && w == v.(pc := AtCollections(page)) && Chosen(o, x.0)
    requires !Safe(o, room, v, x)
    requires x in v.source && !Room(room, |ListableNames(v.names, v.pending)|) ==> x.0 !in page
    ensures !Safe(o, room, w, x)
  {
  }

  // ------------------------------------------------------- the replay, key by key

  /** Taking a record: from now on it is being applied instead of outstanding. */
  lemma TakeDecides(o: Options, room: Option<nat>, v: View, w: View, m: Mutation, rest: seq<Mutation>, x: Pair)
    requires v.pc == Replaying && v.pending == [m] + rest && Chosen(o, x.0)
    requires w == v.(pending := rest,
                     pc := if Chosen(o, m.collection) then Applying((m.collection, m.key), m.operation) else Replaying)
    ensures Safe(o, room, w, x) <==> Safe(o, room, v, x)
  {
    LastOpHead(m, rest, x);
  }

  lemma DeleteDecides(o: Options, room: Option<nat>, v: View, w: View, y: Pair, x: Pair)
    requires v.pc == Applying(y, Delete) && Chosen(o, y.0) && Chosen(o, x.0)
    requires w == v.(target := v.target - {Image(o, y)}, pc := Replaying)
    ensures Safe(o, room, w, x) <==> Safe(o, room, v, x)
  {
    ImageInjective(o, x, y);
  }

  /** A put record is applied with the source's present value, which may already be newer
      than the record. */
  lemma ReadCurrentDecides(o: Options, room: Option<nat>, v: View, w: View, y: Pair, x: Pair)
    requires v.pc == Applying(y, Put) && w == v.(pc := Putting(y, Lookup(v.source, y))) && Chosen(o, x.0)
    ensures Safe(o, room, w, x) <==> Safe(o, room, v, x)
  {
  }

  lemma PutDecides(o: Options, room: Option<nat>, v: View, w: View, y: Pair, value: Option<Value>, x: Pair)
    requires v.pc == Putting(y, value) && Chosen(o, y.0) && Chosen(o, x.0)
    requires w == v.(target := if value.Some? then v.target[Image(o, y) := value.value] else v.target - {Image(o, y)},
                     pc := Replaying)
    ensures Safe(o, room, w, x) <==> Safe(o, room, v, x)
  {
    ImageInjective(o, x, y);
  }

  // ------------------------------------------------------------ the source moves

  lemma MutateKeeps(o: Options, v: View, w: View, records: seq<Mutation>, x: Pair)
    requires Covers(v.source, w.source, records) && Chosen(o, x.0)
    requires w == v.(source := w.source, names := w.names, pending := v.pending + records)
    requires Safe(o, None, v, x)
    ensures Safe(o, None, w, x)
  {
    LastOpConcat(v.pending, records, x);
    assert LastOp(records, x).None? ==> Lookup(v.source, x) == Lookup(w.source, x);
  }

  lemma AppendedRecord(history: seq<Change>, p: nat, c: Change)
    requires p <= |history|
    ensures Stripped((history + [c])[p..]) == Stripped(history[p..]) + [Mutation(c.collection, c.key, c.operation)]
  {
    assert (history + [c])[p..] == history[p..] + [c];
  }

  lemma MoveFirst<T>(a: seq<T>, b: seq<T>)
    requires b != []
    ensures (a + [b[0]]) + b[1..] == a + b
  {
  }

  lemma StandingExtends(stream: Stream, history: seq<Change>, c: Change)
    requires Standing(stream, history)
    ensures Standing(stream, history + [c])
  {
    assert (history + [c])[Position(stream)..stream.next] == history[Position(stream)..stream.next];
  }

  /** Recording moves a record from the mutation to the feed. */
  lemma RecordKeepsOutstanding(s: System, s': System, m: Mutation, c: Change)
    requires Standing(s.stream, s.history)
    requires s.unrecorded != [] && m == s.unrecorded[0] && m == Mutation(c.collection, c.key, c.operation)
    requires s'.stream == s.stream && s'.history == s.history + [c] && s'.unrecorded == s.unrecorded[1..]
    ensures Standing(s'.stream, s'.history)
    ensures Outstanding(s') == Outstanding(s)
  {
    StandingExtends(s.stream, s.history, c);
    AppendedRecord(s.history, Position(s.stream), c);
    MoveFirst(Stripped(s.history[Position(s.stream)..]), s.unrecorded);
  }

  // ------------------------------------------------------- the system's steps

  predicate IsListing(o: Options, pc: Pc) {
    pc.AtStart? || (pc.AtCollections? && pc.collections != [] && Chosen(o, pc.collections[0]))
  }

  lemma EnteredShape(page: seq<Text>)
    requires Distinct(page)
    ensures Distinct(ItemKeys([]) + ([] + page))
  {
    assert ItemKeys([]) + ([] + page) == page;
  }

  lemma ReadShape(reading: seq<Text>, items: seq<Item>, keys: seq<Text>, item: Item)
    requires reading != [] && item.0 == reading[0]
    ensures ItemKeys(items + [item]) + (reading[1..] + keys) == ItemKeys(items) + (reading + keys)
  {
    HeldSnoc(items, item, item.0);
  }

  lemma BatchShape(keys: seq<Text>, n: nat)
    requires n <= |keys| && Distinct(ItemKeys([]) + ([] + keys))
    ensures Distinct(ItemKeys([]) + (keys[..n] + keys[n..]))
  {
    assert ItemKeys([]) + (keys[..n] + keys[n..]) == ItemKeys([]) + ([] + keys);
  }

  lemma CopyKeepsPc(g: Setup, s: System, listing: seq<Text>)
    requires Standing(s.stream, s.history) && Shaped(g.options, s.pc) && CopyMove(g, s, listing).Ok?
    ensures Shaped(g.options, CopyMove(g, s, listing).value.pc)
  {
    match s.pc
    case AtStart => PageDistinct(listing, g.page);
    case AtCollections(cs) =>
      if cs != [] {
        DistinctCons(cs);
        if Chosen(g.options, cs[0]) {
          PageDistinct(listing, g.page);
          EnteredShape(Page(listing, g.page));
        }
      }
    case InCollection(c, reading, items, keys, cs) =>
      if reading != [] {
        ReadShape(reading, items, keys, (reading[0], Lookup(s.source, (c, reading[0]))));
      } else if items != [] {
        WriteShape(items, keys);
      } else if keys != [] {
        BatchShape(keys, if |keys| < BatchSize(g.options) then |keys| else BatchSize(g.options));
      }
  }

  /** A move of the copier changes the target and the position only, and the target by
      images. */
  lemma CopyKeepsShape(g: Setup, s: System, listing: seq<Text>)
    requires Running(g, s) && CopyMove(g, s, listing).Ok?
    ensures var r := CopyMove(g, s, listing).value;
            && Running(g, r) && r == s.(target := r.target, pc := r.pc)
            && ViewOf(r) == ViewOf(s).(target := r.target, pc := r.pc)
            && (forall t | t in s.target :: t in r.target)
            && (forall t | t in r.target :: t in s.target || IsImage(g.options, t))
  {
    CopyKeepsPc(g, s, listing);
    var r := CopyMove(g, s, listing).value;
    assert Outstanding(r) == Outstanding(s);
    if s.pc.InCollection? && s.pc.items != [] {
      assert IsImage(g.options, Image(g.options, (s.pc.collection, s.pc.items[0].0)));
    }
  }

  /** Moves that look at no listing decide nothing: a key is safe after them exactly when it
      was before. */
  lemma CopyDecides(g: Setup, s: System, listing: seq<Text>, room: Option<nat>, x: Pair)
    requires Running(g, s) && CopyMove(g, s, listing).Ok? && !IsListing(g.options, s.pc) && Chosen(g.options, x.0)
    ensures ViewOf(CopyMove(g, s, listing).value).pc == CopyMove(g, s, listing).value.pc
    ensures Safe(g.options, room, ViewOf(CopyMove(g, s, listing).value), x) <==> Safe(g.options, room, ViewOf(s), x)
  {
    CopyKeepsShape(g, s, listing);
    var o, v, w := g.options, ViewOf(s), ViewOf(CopyMove(g, s, listing).value);
    match s.pc
    case AtCollections(cs) =>
      if cs == [] {
        FinishDecides(o, room, v, w, x);
      } else {
        SkipDecides(o, room, v, w, x);
      }
    case InCollection(c, reading, items, keys, cs) =>
      if reading != [] {
        ReadDecides(o, room, v, w, c, reading[0], (reading[0], Lookup(s.source, (c, reading[0]))), x);
      } else if items != [] {
        WriteDecides(o, room, v, w, c, items[0].0, items[0].1, x);
      } else if keys != [] {
        NextBatchDecides(o, room, v, w, if |keys| < BatchSize(o) then |keys| else BatchSize(o), x);
      } else {
        LeaveDecides(o, room, v, w, x);
      }
  }

  /** A move of the copier keeps a key safe when its listing is shown in full, or when the
      room on a page was taken into account. */
  lemma CopyKeeps(g: Setup, s: System, listing: seq<Text>, room: Option<nat>, x: Pair)
    requires Running(g, s) && CopyMove(g, s, listing).Ok? && Chosen(g.options, x.0)
    requires room == Some(g.page) || (IsListing(g.options, s.pc) ==> |listing| <= g.page)
    requires Safe(g.options, room, ViewOf(s), x)
    ensures Running(g, CopyMove(g, s, listing).value)
    ensures Safe(g.options, room, ViewOf(CopyMove(g, s, listing).value), x)
  {
    CopyKeepsShape(g, s, listing);
    var o, v, w := g.options, ViewOf(s), ViewOf(CopyMove(g, s, listing).value);
    if !IsListing(o, s.pc) {
      CopyDecides(g, s, listing, room, x);
    } else if s.pc.AtStart? {
      ListingFits(listing, ListableNames(v.names, v.pending));
      BeginKeeps(o, room, v, w, Page(listing, g.page), x);
    } else {
      var c := s.pc.collections[0];
      ListingFits(listing, ListableKeys(v.source, v.pending, c));
      EnterKeeps(o, room, v, w, c, Page(listing, g.page), x);
    }
  }

  lemma {:induction false} EverythingMatches(s: seq<Change>)
    ensures Matching(EVERYTHING, s) == s
  {
    if s != [] {
      EverythingMatches(s[1..]);
      assert s == [s[0]] + s[1..];
    }
  }

  /** The migrating program's subscription shows every record: a receive takes exactly the
      next outstanding one. */
  lemma ReceiveTakesFirst(limits: Limits, s: System, c: Change, stream: Stream)
    requires limits.Valid() && FeedOf(limits, s.feed, s.history) && Standing(s.stream, s.history)
    requires s.stream.filter == EVERYTHING && Recv(s.feed, s.stream) == (Delivered(c), stream)
    ensures Standing(stream, s.history) && stream.filter == EVERYTHING
    ensures Outstanding(s) == [Mutation(c.collection, c.key, c.operation)] + Outstanding(s.(stream := stream))
  {
    RecvDelivers(limits, s.feed, s.history, s.stream);
    var h, p, q := s.history, Position(s.stream), Position(stream);
    EverythingMatches(h[p..q]);
    assert |h[p..q]| == 1;
    assert h[p..] == [h[p]] + h[q..];
    assert Stripped(h[p..]) == [Mutation(c.collection, c.key, c.operation)] + Stripped(h[q..]);
    Regroup([Mutation(c.collection, c.key, c.operation)], Stripped(h[q..]), s.unrecorded);
  }

  lemma Regroup<T>(a: seq<T>, b: seq<T>, c: seq<T>)
    ensures (a + b) + c == a + (b + c)
  {
  }

  /** Moves of the replay decide nothing either. */
  lemma ReplayKeepsShape(g: Setup, s: System, move: Move)
    requires (move.ReceiveOne? || move.ApplyStep?) && Running(g, s) && ReplayMove(g.options, s, move).Ok?
    ensures var r := ReplayMove(g.options, s, move).value;
            && Running(g, r) && r.source == s.source && r.names == s.names
            && (forall t | t in r.target :: t in s.target || IsImage(g.options, t))
            && (forall t | t in s.target && !IsImage(g.options, t) :: t in r.target)
  {
    if s.pc == Replaying {
      RecvDelivers(g.limits, s.feed, s.history, s.stream);
    } else if s.pc.Applying? || s.pc.Putting? {
      assert IsImage(g.options, Image(g.options, s.pc.x));
    }
  }

  lemma ReceiveDecides(g: Setup, s: System, room: Option<nat>, x: Pair)
    requires Running(g, s) && s.pc == Replaying && ReplayMove(g.options, s, ReceiveOne).Ok? && Chosen(g.options, x.0)
    ensures Standing(ReplayMove(g.options, s, ReceiveOne).value.stream, s.history)
    ensures Safe(g.options, room, ViewOf(ReplayMove(g.options, s, ReceiveOne).value), x) <==> Safe(g.options, room, ViewOf(s), x)
  {
    var r := ReplayMove(g.options, s, ReceiveOne).value;
    match Recv(s.feed, s.stream)
    case (Delivered(c), stream) =>
      ReceiveTakesFirst(g.limits, s, c, stream);
      assert Outstanding(r) == Outstanding(s.(stream := stream));
      TakeDecides(g.options, room, ViewOf(s), ViewOf(r), Mutation(c.collection, c.key, c.operation), Outstanding(r), x);
    case (Pending, stream) => NothingTaken(g.limits, s, stream);
    case (Lagged(_), _) =>
  }

  lemma ReplayDecides(g: Setup, s: System, move: Move, room: Option<nat>, x: Pair)
    requires (move.ReceiveOne? || move.ApplyStep?) && Running(g, s) && ReplayMove(g.options, s, move).Ok? && Chosen(g.options, x.0)
    ensures Running(g, ReplayMove(g.options, s, move).value)
    ensures Safe(g.options, room, ViewOf(ReplayMove(g.options, s, move).value), x) <==> Safe(g.options, room, ViewOf(s), x)
  {
    ReplayKeepsShape(g, s, move);
    var o, v, r := g.options, ViewOf(s), ReplayMove(g.options, s, move).value;
    var w := ViewOf(r);
    match (move, s.pc)
    case (ReceiveOne, Replaying) =>
      ReceiveDecides(g, s, room, x);
    case (ApplyStep, Applying(y, operation)) =>
      assert Outstanding(r) == Outstanding(s);
      if operation == Delete {
        DeleteDecides(o, room, v, w, y, x);
      } else {
        ReadCurrentDecides(o, room, v, w, y, x);
      }
    case (ApplyStep, Putting(y, value)) =>
      assert Outstanding(r) == Outstanding(s);
      PutDecides(o, room, v, w, y, value, x);
    case _ =>
  }

  lemma NothingTaken(limits: Limits, s: System, stream: Stream)
    requires limits.Valid() && FeedOf(limits, s.feed, s.history) && Standing(s.stream, s.history)
    requires s.stream.filter == EVERYTHING && Recv(s.feed, s.stream) == (Pending, stream)
    ensures Standing(stream, s.history) && Outstanding(s.(stream := stream)) == Outstanding(s) == s.unrecorded
  {
    RecvDelivers(limits, s.feed, s.history, s.stream);
    EverythingMatches(s.history[Position(s.stream)..]);
    assert Stripped([]) == [];
    assert [] + s.unrecorded == s.unrecorded;
  }

  // ---------------------------------------------------------------- every run

  /** Every target key is the new name of a key the source holds. */
  ghost predicate NoLeftovers(o: Options, s: System) {
    forall t | t in s.target :: exists x | x in s.source && Chosen(o, x.0) :: Image(o, x) == t
  }

  /** Every listing the copier asks for fits the page it is shown. */
  ghost predicate ListingsFit(g: Setup, s: System, moves: seq<Move>)
    requires Standing(s.stream, s.history)
    decreases |moves|
  {
    moves == [] ||
    var r := Advance(g, s, moves[0]);
    && (r.Ok? && moves[0].Copy? && IsListing(g.options, s.pc) ==> |moves[0].listing| <= g.page)
    && (r.Ok? && Standing(r.value.stream, r.value.history) ==> ListingsFit(g, r.value, moves[1..]))
  }

  lemma StartsRunning(g: Setup, s: System)
    requires Started(g, s)
    ensures Standing(s.stream, s.history) && Running(g, s) && Outstanding(s) == []
  {
    assert s.history[|s.history|..] == [];
  }

  lemma StartEstablishes(g: Setup, s: System)
    requires Started(g, s) && NoLeftovers(g.options, s)
    ensures Standing(s.stream, s.history) && Inv(g, s)
  {
    StartsRunning(g, s);
    var o, v := g.options, ViewOf(s);
    forall x: Pair | Chosen(o, x.0) ensures Safe(o, None, v, x) {
      if Image(o, x) in s.target {
        var y :| y in s.source && Chosen(o, y.0) && Image(o, y) == Image(o, x);
        ImageInjective(o, x, y);
      }
    }
    forall t | t in s.target ensures IsImage(o, t) {
      var x :| x in s.source && Chosen(o, x.0) && Image(o, x) == t;
    }
  }

  lemma RecordKeepsView(g: Setup, s: System)
    requires Running(g, s) && s.unrecorded != []
    ensures Advance(g, s, RecordOne).Ok? && Running(g, Advance(g, s, RecordOne).value)
    ensures ViewOf(Advance(g, s, RecordOne).value) == ViewOf(s)
  {
    var m := s.unrecorded[0];
    var c := NewChange(|s.history| + 1, m.collection, m.key, m.operation);
    RecordExtendsHistory(g.limits, s.feed, s.history, m.collection, m.key, m.operation);
    RecordKeepsOutstanding(s, Advance(g, s, RecordOne).value, m, c);
  }

  lemma AdvanceKeeps(g: Setup, s: System, move: Move)
    requires Inv(g, s) && !move.Destroy?
    requires Advance(g, s, move).Ok? && move.Copy? && IsListing(g.options, s.pc) ==> |move.listing| <= g.page
    ensures var r := Advance(g, s, move); r.Ok? ==> Inv(g, r.value)
  {
    var o, r := g.options, Advance(g, s, move);
    if r.Ok? {
      match move
      case MutateSource(source, names, records) =>
        Regroup(Stripped(s.history[Position(s.stream)..]), s.unrecorded, records);
        assert Running(g, r.value);
        forall x: Pair | Chosen(o, x.0) ensures Safe(o, None, ViewOf(r.value), x) {
          MutateKeeps(o, ViewOf(s), ViewOf(r.value), records, x);
        }
      case RecordOne => RecordKeepsView(g, s);
      case Copy(listing) =>
        CopyKeepsShape(g, s, listing);
        forall x: Pair | Chosen(o, x.0) ensures Safe(o, None, ViewOf(r.value), x) {
          CopyKeeps(g, s, listing, None, x);
        }
      case ReceiveOne => ReplayKeeps(g, s, move);
      case ApplyStep => ReplayKeeps(g, s, move);
      case Destroy(_, _) =>
    }
  }

  lemma ReplayKeeps(g: Setup, s: System, move: Move)
    requires (move.ReceiveOne? || move.ApplyStep?) && Inv(g, s) && ReplayMove(g.options, s, move).Ok?
    ensures Inv(g, ReplayMove(g.options, s, move).value)
  {
    var r := ReplayMove(g.options, s, move).value;
    ReplayKeepsShape(g, s, move);
    forall x: Pair | Chosen(g.options, x.0) ensures Safe(g.options, None, ViewOf(r), x) {
      ReplayDecides(g, s, move, None, x);
    }
  }

  lemma {:induction false} AdvanceAllKeeps(g: Setup, s: System, moves: seq<Move>)
    requires Inv(g, s) && NeverDestroyed(moves) && ListingsFit(g, s, moves)
    ensures var r := AdvanceAll(g, s, moves); r.Ok? ==> Inv(g, r.value)
    decreases |moves|
  {
    if moves != [] {
      AdvanceKeeps(g, s, moves[0]);
      if Advance(g, s, moves[0]).Ok? {
        AdvanceAllKeeps(g, Advance(g, s, moves[0]).value, moves[1..]);
      }
    }
  }

  /** Throughout the replay every chosen key has an outstanding record, or reads the same from
      both stores. */
  lemma ReplayIsAccurate(g: Setup, s: System, moves: seq<Move>, x: Pair)
    requires Started(g, s) && NoLeftovers(g.options, s) && Chosen(g.options, x.0)
    ensures Standing(s.stream, s.history)
    ensures var r := AdvanceAll(g, s, moves);
            NeverDestroyed(moves) && ListingsFit(g, s, moves) && r.Ok? && r.value.pc == Replaying ==>
              && Standing(r.value.stream, r.value.history)
              && (|| LastOp(Outstanding(r.value), x).Some?
                  || Lookup(r.value.target, Image(g.options, x)) == Lookup(r.value.source, x))
  {
    StartEstablishes(g, s);
    if NeverDestroyed(moves) && ListingsFit(g, s, moves) {
      AdvanceAllKeeps(g, s, moves);
      var r := AdvanceAll(g, s, moves);
      if r.Ok? {
        assert Safe(g.options, None, ViewOf(r.value), x);
      }
    }
  }

  /** With nothing left to do, the target is exact if and only if both stores agree on every
      chosen key and the target holds nothing else. */
  lemma SettledIff(o: Options, source: Contents, target: Contents)
    ensures target == Renamed(o, source) <==>
            && (forall t | t in target :: IsImage(o, t))
            && (forall x: Pair | Chosen(o, x.0) :: SameIn(o, source, target, x))
  {
    if target == Renamed(o, source) {
      forall x: Pair | Chosen(o, x.0) ensures SameIn(o, source, target, x) {
        RenamedAt(o, source, x);
      }
    }
    if (forall t | t in target :: IsImage(o, t)) && forall x: Pair | Chosen(o, x.0) :: SameIn(o, source, target, x) {
      forall t ensures Lookup(target, t) == Lookup(Renamed(o, source), t) {
        if IsImage(o, t) {
          var x: Pair :| Chosen(o, x.0) && Image(o, x) == t;
          RenamedAt(o, source, x);
          assert SameIn(o, source, target, x);
        }
      }
      SameLookups(target, Renamed(o, source));
    }
  }

  predicate SameIn(o: Options, source: Contents, target: Contents, x: Pair)
    requires Chosen(o, x.0)
  {
    Lookup(target, Image(o, x)) == Lookup(source, x)
  }

  lemma RenamedAt(o: Options, source: Contents, x: Pair)
    requires Chosen(o, x.0)
    ensures Lookup(Renamed(o, source), Image(o, x)) == Lookup(source, x)
  {
    ImagesDistinct(o);
    if Image(o, x) in Renamed(o, source) {
      var y :| y in source && Chosen(o, y.0) && Image(o, y) == Image(o, x);
    }
  }

  lemma SameLookups(a: Contents, b: Contents)
    requires forall t :: Lookup(a, t) == Lookup(b, t)
    ensures a == b
  {
    forall t ensures (t in a <==> t in b) && (t in a ==> a[t] == b[t]) {
      assert Lookup(a, t) == Lookup(b, t);
    }
  }

  /** At the end of a run nothing is outstanding, so that being safe is being right. */
  lemma DrainedDecides(g: Setup, s: System, room: Option<nat>)
    requires Running(g, s) && Drained(s)
    ensures Sound(g.options, room, ViewOf(s)) <==> s.target == Renamed(g.options, s.source)
    ensures forall x: Pair | Chosen(g.options, x.0) :: Safe(g.options, room, ViewOf(s), x) <==> Agrees(g.options, ViewOf(s), x)
  {
    NothingTaken(g.limits, s, Recv(s.feed, s.stream).1);
    SettledIff(g.options, s.source, s.target);
    forall x: Pair | Chosen(g.options, x.0)
      ensures Safe(g.options, room, ViewOf(s), x) <==> Agrees(g.options, ViewOf(s), x)
    {
    }
  }

  /** Live migration converges: whatever the source does between the steps of the copy and of
      the replay, short of being destroyed as a whole, once nothing is left to do the target is
      exactly the chosen part of the source under its new names, unless the subscription
      reported a lag or a listing was cut short. */
  lemma MigrationConverges(g: Setup, s: System, moves: seq<Move>)
    requires Started(g, s) && NoLeftovers(g.options, s)
    ensures Standing(s.stream, s.history)
    ensures NeverDestroyed(moves) && ListingsFit(g, s, moves) ==> EndsExact(g, s, moves)
  {
    StartEstablishes(g, s);
    if NeverDestroyed(moves) && ListingsFit(g, s, moves) {
      AdvanceAllKeeps(g, s, moves);
      var r := AdvanceAll(g, s, moves);
      if r.Ok? && Drained(r.value) {
        DrainedDecides(g, r.value, None);
      }
    }
  }

  // ------------------------------------------------------------- names, spelt out

  /** The target reads, under the name with the prefix replaced, what the source has if its
      collection was asked for, and otherwise nothing. */
  predicate ReadsUnder(o: Options, source: Contents, target: Contents, from: Text, to: Text, rest: Text, k: Text) {
    ConcatValid(from, rest);
    ConcatValid(to, rest);
    Lookup(target, (to + rest, k)) ==
    if o.collections == [] || from + rest in o.collections then Lookup(source, (from + rest, k)) else None
  }

  /** What being the chosen part of the source under its new names means with a prefix
      mapping: every key is found where the prefix is replaced, and nowhere else. */
  lemma RenamedWithPrefixIff(o: Options, from: Text, to: Text, source: Contents, target: Contents)
    requires o.prefix == Some((from, to))
    ensures target == Renamed(o, source) <==>
            && (forall t | t in target :: to <= t.0)
            && (forall rest: Text, k: Text :: ReadsUnder(o, source, target, from, to, rest, k))
  {
    forall rest: Text, k: Text ensures ReadsUnder(o, source, Renamed(o, source), from, to, rest, k) {
      RenamedUnder(o, from, to, source, rest, k);
    }
    forall t | t in Renamed(o, source) ensures to <= t.0 {
      var x: Pair :| Chosen(o, x.0) && Image(o, x) == t;
      var rest := ImagesCarryThePrefix(o, from, to, x);
    }
    if (forall t | t in target :: to <= t.0) && forall rest: Text, k: Text :: ReadsUnder(o, source, target, from, to, rest, k) {
      forall t ensures Lookup(target, t) == Lookup(Renamed(o, source), t) {
        if to <= t.0 {
          assert t.0 == to + t.0[|to|..];
          ConcatValid(to, t.0[|to|..]);
          assert ReadsUnder(o, source, target, from, to, t.0[|to|..], t.1);
          assert ReadsUnder(o, source, Renamed(o, source), from, to, t.0[|to|..], t.1);
        }
      }
      SameLookups(target, Renamed(o, source));
    }
  }

  lemma RenamedUnder(o: Options, from: Text, to: Text, source: Contents, rest: Text, k: Text)
    requires o.prefix == Some((from, to))
    ensures ReadsUnder(o, source, Renamed(o, source), from, to, rest, k)
  {
    PrefixIsReplaced(o, from, to, rest, k);
    var x, t: Pair := (from + rest, k), (to + rest, k);
    if Chosen(o, x.0) {
      RenamedAt(o, source, x);
    } else {
      NotAnImage(o, from, to, rest, k);
    }
  }

  /** Without a prefix mapping every collection that was asked for reads as in the source, and
      the others are empty. */
  lemma RenamedWithoutPrefixIff(o: Options, source: Contents, target: Contents)
    requires o.prefix.None?
    ensures target == Renamed(o, source) <==>
            forall x: Pair :: Lookup(target, x) == if o.collections == [] || x.0 in o.collections then Lookup(source, x) else None
  {
    forall x: Pair ensures Chosen(o, x.0) ==> Image(o, x) == x {
      NamesAreKept(o, x.0, x.1);
    }
    forall x: Pair ensures Lookup(Renamed(o, source), x) == if o.collections == [] || x.0 in o.collections then Lookup(source, x) else None {
      if Chosen(o, x.0) {
        RenamedAt(o, source, x);
      }
    }
    if forall x: Pair :: Lookup(target, x) == if o.collections == [] || x.0 in o.collections then Lookup(source, x) else None {
      SameLookups(target, Renamed(o, source));
    }
  }

  /** Convergence in plain words: when nothing is left to do, what the source has under a
      collection with the source prefix is in the target under the target prefix, for exactly
      the collections that were asked for, and the target has nothing without that prefix. */
  lemma ConvergesUnderNewNames(g: Setup, s: System, moves: seq<Move>, from: Text, to: Text, rest: Text, k: Text, t: Pair)
    requires Started(g, s) && NoLeftovers(g.options, s) && g.options.prefix == Some((from, to))
    ensures Standing(s.stream, s.history) && Valid(from + rest) && Valid(to + rest)
    ensures NeverDestroyed(moves) && ListingsFit(g, s, moves) ==>
              var r := AdvanceAll(g, s, moves);
              r.Ok? && Drained(r.value) ==>
                && Lookup(r.value.target, (to + rest, k)) ==
                   (if g.options.collections == [] || from + rest in g.options.collections
                    then Lookup(r.value.source, (from + rest, k)) else None)
                && (t in r.value.target ==> to <= t.0)
  {
    MigrationConverges(g, s, moves);
    PrefixIsReplaced(g.options, from, to, rest, k);
    var r := AdvanceAll(g, s, moves);
    if NeverDestroyed(moves) && ListingsFit(g, s, moves) && r.Ok? && Drained(r.value) {
      RenamedWithPrefixIff(g.options, from, to, r.value.source, r.value.target);
      assert ReadsUnder(g.options, r.value.source, r.value.target, from, to, rest, k);
    }
  }
}
