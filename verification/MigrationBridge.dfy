/** The copying and replaying code and the step system agree: for entries without expiry, what
    the loops do to a source that stands still is what a run of the step system does. */
module MigrationBridge {
  import opened Base
  import opened Utf8
  import opened Enumeration
  import opened Identities
  import opened MigrationOptions
  import opened Migration
  import opened MigrationConvergence
  import opened MigrationQuietRuns
  import opened MigrationImpl
  import KeyValue
  import ChangeFeed

  type Store = KeyValue.Store<Pair>

  function Plain(m: Store): Contents {
    map x | x in m :: m[x].value
  }

  /** For entries without expiry, writing a key in the copy is what the step system does in a
      read and a write of that key. */
  lemma CopyOneIsReadAndWrite(j: Job, target: Store, x: Pair)
    requires KeyValue.NothingExpires(j.source) && Chosen(j.options, x.0)
    ensures var read := Lookup(Plain(j.source), x);
            Plain(CopyOne(j, target, x))
            == if read.Some? then Plain(target)[Image(j.options, x) := read.value] else Plain(target)
  {
  }

  /** For entries without expiry, applying a change to a source that stays still in between is
      what the step system does from `Applying` to `Replaying`. */
  lemma AppliedIsTheReplaySteps(j: Job, target: Store, s: System, x: Pair, operation: ChangeFeed.Operation)
    requires KeyValue.NothingExpires(j.source) && Chosen(j.options, x.0)
    requires s.source == Plain(j.source) && s.target == Plain(target) && s.pc == Applying(x, operation)
    ensures var first := ReplayMove(j.options, s, ApplyStep);
            && first.Ok?
            && var last := if operation.Delete? then first else ReplayMove(j.options, first.value, ApplyStep);
               last == Ok(s.(target := Plain(Applied(j, target, x, operation)), pc := Replaying))
  {
    var image := Image(j.options, x);
    assert Plain(KeyValue.Remove(target, image)) == Plain(target) - {image};
    if operation.Put? {
      var next := ReplayMove(j.options, s, ApplyStep).value;
      assert next.pc == Putting(x, Lookup(s.source, x));
      if LiveIn(j, x) {
        assert Plain(CopyOne(j, target, x)) == Plain(target)[image := j.source[x].value];
      }
    }
  }

  // --------------------------------------------------------------- a whole copy

  predicate AllCopying(moves: seq<Move>) {
    forall i | 0 <= i < |moves| :: moves[i].Copy?
  }

  /** The job copies the system's source into its target. */
  ghost predicate SameJob(g: Setup, s: System, j: Job, target: Store) {
    && j.options == g.options && KeyValue.NothingExpires(j.source)
    && s.source == Plain(j.source) && s.target == Plain(target)
    && ChangeFeed.Standing(s.stream, s.history)
  }

  /** What the copier has yet to write in its collection, in order. */
  function Ahead(pc: Pc): seq<Text>
    requires pc.InCollection?
  {
    ItemKeys(pc.items) + (pc.reading + pc.keys)
  }

  ghost predicate HoldsPresent(s: System) {
    s.pc.InCollection? ==> forall i | 0 <= i < |s.pc.items| :: s.pc.items[i].1 == Lookup(s.source, (s.pc.collection, s.pc.items[i].0))
  }

  lemma AdvanceFirst(g: Setup, s: System, move: Move, rest: seq<Move>)
    requires ChangeFeed.Standing(s.stream, s.history) && Advance(g, s, move).Ok?
    requires ChangeFeed.Standing(Advance(g, s, move).value.stream, Advance(g, s, move).value.history)
    ensures AdvanceAll(g, s, [move] + rest) == AdvanceAll(g, Advance(g, s, move).value, rest)
  {
    assert ([move] + rest)[1..] == rest;
  }

  lemma CopyAllFirst(j: Job, target: Store, c: Text, keys: seq<Text>)
    requires keys != [] && Chosen(j.options, c)
    ensures CopyAll(j, target, PairsIn(c, keys)) == CopyAll(j, CopyOne(j, target, (c, keys[0])), PairsIn(c, keys[1..]))
  {
    var x := (c, keys[0]);
    assert PairsIn(c, keys) == [x] + PairsIn(c, keys[1..]);
    CopyAllConcat(j, target, [x], PairsIn(c, keys[1..]));
    CopyAllSnoc(j, target, [], x);
    assert [] + [x] == [x];
  }

  /** Where the target will stand when the copier leaves its collection. */
  function AfterCollection(j: Job, target: Store, pc: Pc): Store
    requires pc.InCollection? && Chosen(j.options, pc.collection)
  {
    CopyAll(j, target, PairsIn(pc.collection, Ahead(pc)))
  }

  /** One move inside a collection, and the job's target after it. */
  ghost predicate Within(g: Setup, s: System, j: Job, target: Store, next: System, after: Store) {
    && s.pc.InCollection? && Chosen(g.options, s.pc.collection)
    && SameJob(g, s, j, target) && SameJob(g, next, j, after)
    && next == s.(target := next.target, pc := next.pc) && next.pc.InCollection?
    && next.pc.collection == s.pc.collection && next.pc.collections == s.pc.collections
    && HoldsPresent(next) && WorkLeft(next.pc) < WorkLeft(s.pc)
    && AfterCollection(j, after, next.pc) == AfterCollection(j, target, s.pc)
  }

  lemma ReadWithin(g: Setup, s: System, j: Job, target: Store)
    requires SameJob(g, s, j, target) && s.pc.InCollection? && Chosen(g.options, s.pc.collection) && HoldsPresent(s)
    requires s.pc.reading != []
    ensures CopyMove(g, s, []).Ok? && Within(g, s, j, target, CopyMove(g, s, []).value, target)
  {
    ReadShape(s.pc.reading, s.pc.items, s.pc.keys, (s.pc.reading[0], Lookup(s.source, (s.pc.collection, s.pc.reading[0]))));
  }

  lemma AheadAfterWrite(pc: Pc, next: Pc)
    requires pc.InCollection? && pc.items != [] && pc.reading == []
    requires next == pc.(items := pc.items[1..])
    ensures Ahead(pc) != [] && Ahead(pc)[0] == pc.items[0].0 && Ahead(pc)[1..] == Ahead(next)
  {
    ItemKeysTail(pc.items);
    TailConcat(ItemKeys(pc.items), [] + pc.keys);
  }

  lemma WriteWithin(g: Setup, s: System, j: Job, target: Store)
    requires SameJob(g, s, j, target) && s.pc.InCollection? && Chosen(g.options, s.pc.collection) && HoldsPresent(s)
    requires s.pc.reading == [] && s.pc.items != []
    ensures CopyMove(g, s, []).Ok?
    ensures Within(g, s, j, target, CopyMove(g, s, []).value, CopyOne(j, target, (s.pc.collection, s.pc.items[0].0)))
  {
    var next := CopyMove(g, s, []).value;
    CopyOneIsReadAndWrite(j, target, (s.pc.collection, s.pc.items[0].0));
    AheadAfterWrite(s.pc, next.pc);
    CopyAllFirst(j, target, s.pc.collection, Ahead(s.pc));
    forall i | 0 <= i < |next.pc.items|
      ensures next.pc.items[i].1 == Lookup(s.source, (s.pc.collection, next.pc.items[i].0))
    {
      assert next.pc.items[i] == s.pc.items[i + 1];
    }
  }

  lemma BatchWithin(g: Setup, s: System, j: Job, target: Store)
    requires SameJob(g, s, j, target) && s.pc.InCollection? && Chosen(g.options, s.pc.collection) && HoldsPresent(s)
    requires s.pc.reading == [] && s.pc.items == [] && s.pc.keys != []
    ensures CopyMove(g, s, []).Ok? && Within(g, s, j, target, CopyMove(g, s, []).value, target)
  {
    assert Ahead(CopyMove(g, s, []).value.pc) == Ahead(s.pc);
  }

  lemma {:induction false} CollectionRun(g: Setup, s: System, j: Job, target: Store) returns (moves: seq<Move>)
    requires SameJob(g, s, j, target) && s.pc.InCollection? && Chosen(g.options, s.pc.collection) && HoldsPresent(s)
    ensures AllCopying(moves)
    ensures AdvanceAll(g, s, moves)
            == Ok(s.(pc := AtCollections(s.pc.collections), target := Plain(AfterCollection(j, target, s.pc))))
    decreases WorkLeft(s.pc)
  {
    var after := target;
    if s.pc.reading != [] {
      ReadWithin(g, s, j, target);
    } else if s.pc.items != [] {
      WriteWithin(g, s, j, target);
      after := CopyOne(j, target, (s.pc.collection, s.pc.items[0].0));
    } else if s.pc.keys != [] {
      BatchWithin(g, s, j, target);
    } else {
      assert Ahead(s.pc) == [];
      moves := [Copy([])] + [];
      AdvanceFirst(g, s, Copy([]), []);
      return;
    }
    var next := CopyMove(g, s, []).value;
    var rest := CollectionRun(g, next, j, after);
    moves := [Copy([])] + rest;
    AdvanceFirst(g, s, Copy([]), rest);
  }

  function Part(o: Options, c: Text, keys: Text -> seq<Text>): seq<Pair> {
    if Chosen(o, c) then PairsIn(c, keys(c)) else []
  }

  lemma ListedSnoc(o: Options, cs: seq<Text>, last: Text, keys: Text -> seq<Text>)
    ensures Listed(o, cs + [last], keys) == Listed(o, cs, keys) + Part(o, last, keys)
  {
    assert (cs + [last])[..|cs|] == cs;
  }

  lemma {:induction false} ListedCons(o: Options, cs: seq<Text>, keys: Text -> seq<Text>)
    requires cs != []
    ensures Listed(o, cs, keys) == Part(o, cs[0], keys) + Listed(o, cs[1..], keys)
    decreases |cs|
  {
    if |cs| == 1 {
      ListedSnoc(o, [], cs[0], keys);
      assert cs == [] + [cs[0]] && cs[1..] == [];
    } else {
      var front, last := cs[..|cs| - 1], cs[|cs| - 1];
      ListedCons(o, front, keys);
      ListedSnoc(o, front, last, keys);
      ListedSnoc(o, front[1..], last, keys);
      assert cs == front + [last] && cs[1..] == front[1..] + [last];
      Regroup(Part(o, cs[0], keys), Listed(o, front[1..], keys), Part(o, last, keys));
    }
  }

  /** Complete listings of the keys of every chosen collection, for the system and the job. */
  ghost predicate ListsChosen(g: Setup, s: System, keys: Text -> seq<Text>)
    requires ChangeFeed.Standing(s.stream, s.history)
  {
    forall c | Chosen(g.options, c) :: ListsKeys(s.source, Outstanding(s), c, keys(c))
  }

  lemma {:induction false} CollectionsRun(g: Setup, s: System, j: Job, target: Store, keys: Text -> seq<Text>) returns (moves: seq<Move>)
    requires SameJob(g, s, j, target) && s.pc.AtCollections? && ListsChosen(g, s, keys)
    ensures AllCopying(moves)
    ensures AdvanceAll(g, s, moves)
            == Ok(s.(pc := Replaying,
                     target := Plain(CopyAll(j, target, Listed(g.options, s.pc.collections, c => Page(keys(c), g.page))))))
    decreases |s.pc.collections|
  {
    var cs := s.pc.collections;
    var shown := c => Page(keys(c), g.page);
    if cs == [] {
      moves := [Copy([])] + [];
      AdvanceFirst(g, s, Copy([]), []);
    } else if Chosen(g.options, cs[0]) {
      var inside, next, after := OneCollection(g, s, j, target, keys);
      var rest := CollectionsRun(g, next, j, after, keys);
      AdvanceAllConcat(g, s, inside, rest);
      ListedCons(g.options, cs, shown);
      CopyAllConcat(j, target, PairsIn(cs[0], shown(cs[0])), Listed(g.options, cs[1..], shown));
      moves := inside + rest;
    } else {
      ListedCons(g.options, cs, shown);
      assert [] + Listed(g.options, cs[1..], shown) == Listed(g.options, cs[1..], shown);
      var rest := CollectionsRun(g, CopyMove(g, s, []).value, j, target, keys);
      moves := [Copy([])] + rest;
      AdvanceFirst(g, s, Copy([]), rest);
    }
  }

  lemma OneCollection(g: Setup, s: System, j: Job, target: Store, keys: Text -> seq<Text>)
      returns (moves: seq<Move>, next: System, after: Store)
    requires SameJob(g, s, j, target) && s.pc.AtCollections? && ListsChosen(g, s, keys)
    requires s.pc.collections != [] && Chosen(g.options, s.pc.collections[0])
    ensures AllCopying(moves) && AdvanceAll(g, s, moves) == Ok(next) && SameJob(g, next, j, after)
    ensures next == s.(pc := AtCollections(s.pc.collections[1..]), target := Plain(after))
    ensures var c := s.pc.collections[0]; after == CopyAll(j, target, PairsIn(c, Page(keys(c), g.page)))
  {
    var c := s.pc.collections[0];
    assert ListsKeys(s.source, Outstanding(s), c, keys(c));
    var first := CopyMove(g, s, keys(c)).value;
    var inside := CollectionRun(g, first, j, target);
    assert Ahead(first.pc) == Page(keys(c), g.page);
    after := AfterCollection(j, target, first.pc);
    next := s.(pc := AtCollections(s.pc.collections[1..]), target := Plain(after));
    moves := [Copy(keys(c))] + inside;
    AdvanceFirst(g, s, Copy(keys(c)), inside);
  }

  lemma ListingsServe(g: Setup, s: System, j: Job, collections: seq<Text>, keys: Text -> seq<Text>)
    requires s.source == Plain(j.source) && Named(s.source, s.names) && ListsStore(j.source, s.names, collections, keys)
    ensures ListsCollections(s.source, s.names, [], collections)
    ensures forall c :: ListsKeys(s.source, [], c, keys(c))
  {
    forall c ensures ListsKeys(s.source, [], c, keys(c)) {
      assert KeysOf(s.source, c) == StoredKeys(j.source, c);
      assert Lists(keys(c), StoredKeys(j.source, c));
    }
  }

  /** The copying loops are a run of the step system: whatever the batch size and the order of
      the listings, the copier alone takes the system from its start to the replay with the
      target the loops leave, cut-off listings included. */
  lemma CopySnapshotIsARun(g: Setup, s: System, j: Job, target: Store, collections: seq<Text>, keys: Text -> seq<Text>)
      returns (moves: seq<Move>)
    requires Started(g, s) && SameJob(g, s, j, target) && ListsStore(j.source, s.names, collections, keys)
    ensures AllCopying(moves) && ChangeFeed.Standing(s.stream, s.history)
    ensures AdvanceAll(g, s, moves)
            == Ok(s.(pc := Replaying,
                     target := Plain(CopyAll(j, target, Listed(g.options, Page(collections, g.page), c => Page(keys(c), g.page))))))
  {
    StartsRunning(g, s);
    var next := s.(pc := AtCollections(Page(collections, g.page)));
    ListingsServe(g, s, j, collections, keys);
    assert Outstanding(next) == Outstanding(s) == [];
    var rest := CollectionsRun(g, next, j, target, keys);
    moves := [Copy(collections)] + rest;
    AdvanceFirst(g, s, Copy(collections), rest);
  }
}
