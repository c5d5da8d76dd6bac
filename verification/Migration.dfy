/** Live migration as a system of small steps. The source goes on changing between any two
    steps of the copier; a change reaches the feed in a step of its own, after the source
    shows it; keys are listed, read and written one at a time. */
module Migration {
  import opened Base
  import opened Utf8
  import opened ChangeFeed
  import opened Enumeration
  import opened Identities
  import opened MigrationOptions
  import KeyValue

  type Value = KeyValue.Value
  type Contents = map<Pair, Value>
  type Item = (Text, Option<Value>)

  /** What is migrated, the feed's limits, and how many names the source shows at most when it
      is asked for all of them. */
  datatype Setup = Setup(options: Options, limits: Limits, page: nat)

  /** Where the migrating program stands. In a collection: the keys of the current batch not
      yet read, what was read but not yet written, the keys after the batch, and the
      collections after this one. */
  datatype Pc =
    | AtStart
    | AtCollections(collections: seq<Text>)
    | InCollection(collection: Text, reading: seq<Text>, items: seq<Item>, keys: seq<Text>, collections: seq<Text>)
    | Replaying
    | Applying(x: Pair, operation: Operation)
    | Putting(x: Pair, value: Option<Value>)

  /** `names` are the collections the source knows, empty ones included; `unrecorded` are the
      records of finished mutations that the feed has not seen yet. */
  datatype System = System(source: Contents, names: set<Text>, unrecorded: seq<Mutation>, feed: Feed,
                           history: seq<Change>, stream: Stream, target: Contents, pc: Pc)

  /** `Destroy` empties the whole store, whose configured seed comes back before anything can
      be read; neither leaves a record. */
  datatype Move =
    | MutateSource(source: Contents, names: set<Text>, records: seq<Mutation>)
    | Destroy(seed: Contents, names: set<Text>)
    | RecordOne
    | Copy(listing: seq<Text>)
    | ReceiveOne
    | ApplyStep

  const EVERYTHING: Filter := Filter([], [])

  function Lookup(m: Contents, x: Pair): Option<Value> {
    if x in m then Some(m[x]) else None
  }

  // -------------------------------------------------------------------- records

  predicate Concerns(m: Mutation, x: Pair) {
    (m.collection, m.key) == x
  }

  /** What the last record about `x` says, if there is one. */
  function LastOp(ms: seq<Mutation>, x: Pair): Option<Operation>
    decreases |ms|
  {
    if ms == [] then None
    else if Concerns(ms[|ms| - 1], x) then Some(ms[|ms| - 1].operation)
    else LastOp(ms[..|ms| - 1], x)
  }

  function Stripped(cs: seq<Change>): (ms: seq<Mutation>)
    ensures |ms| == |cs|
    ensures forall i | 0 <= i < |cs| :: ms[i] == Mutation(cs[i].collection, cs[i].key, cs[i].operation)
  {
    seq(|cs|, i requires 0 <= i < |cs| => Mutation(cs[i].collection, cs[i].key, cs[i].operation))
  }

  /** The records the migrating program has still to see. */
  ghost function Outstanding(s: System): seq<Mutation>
    requires Standing(s.stream, s.history)
  {
    Stripped(s.history[Position(s.stream)..]) + s.unrecorded
  }

  /** A mutation of the source: every changed key has a record, and a key whose last record
      is a deletion is gone. */
  ghost predicate Covers(before: Contents, after: Contents, records: seq<Mutation>) {
    && (forall x | LastOp(records, x).None? :: Lookup(before, x) == Lookup(after, x))
    && (forall x | LastOp(records, x) == Some(Delete) :: x !in after)
  }

  // ------------------------------------------------------------------- listings

  predicate Named(source: Contents, names: set<Text>) {
    forall x | x in source :: x.0 in names
  }

  function KeysOf(m: Contents, collection: Text): set<Text> {
    set x | x in m && x.0 == collection :: x.1
  }

  /** The names a listing may show: those there are, and those an outstanding record mentions,
      which may have come or gone while the listing was made. */
  function ListableNames(names: set<Text>, pending: seq<Mutation>): set<Text> {
    names + set m | m in pending :: m.collection
  }

  function ListableKeys(source: Contents, pending: seq<Mutation>, c: Text): set<Text> {
    KeysOf(source, c) + set m | m in pending && m.collection == c :: m.key
  }

  /** A complete listing of collections: each once, and every collection with a key that no
      outstanding record mentions. */
  ghost predicate ListsCollections(source: Contents, names: set<Text>, pending: seq<Mutation>, listing: seq<Text>) {
    && Distinct(listing)
    && (forall c | c in listing :: c in ListableNames(names, pending))
    && (forall x | x in source && LastOp(pending, x).None? :: x.0 in listing)
  }

  ghost predicate ListsKeys(source: Contents, pending: seq<Mutation>, c: Text, listing: seq<Text>) {
    && Distinct(listing)
    && (forall k | k in listing :: k in ListableKeys(source, pending, c))
    && (forall x | x in source && x.0 == c && LastOp(pending, x).None? :: x.1 in listing)
  }

  // ---------------------------------------------------------------------- moves

  /** The copier goes on with the page it is shown of a listing, whether or not that is all. */
  ghost function CopyMove(g: Setup, s: System, listing: seq<Text>): Result<System>
    requires Standing(s.stream, s.history)
  {
    match s.pc
    case AtStart =>
      if ListsCollections(s.source, s.names, Outstanding(s), listing) then Ok(s.(pc := AtCollections(Page(listing, g.page))))
      else Err(InvalidOperation)
    case AtCollections(cs) =>
      if cs == [] then Ok(s.(pc := Replaying))
      else if !Chosen(g.options, cs[0]) then Ok(s.(pc := AtCollections(cs[1..])))
      else if ListsKeys(s.source, Outstanding(s), cs[0], listing) then
        Ok(s.(pc := InCollection(cs[0], [], [], Page(listing, g.page), cs[1..])))
      else Err(InvalidOperation)
    case InCollection(c, reading, items, keys, cs) =>
      if reading != [] then
        Ok(s.(pc := InCollection(c, reading[1..], items + [(reading[0], Lookup(s.source, (c, reading[0])))], keys, cs)))
      else if items != [] then
        var (k, v) := items[0];
        var target := if v.Some? && Chosen(g.options, c) then s.target[Image(g.options, (c, k)) := v.value] else s.target;
        Ok(s.(target := target, pc := InCollection(c, [], items[1..], keys, cs)))
      else if keys != [] then
        var n := if |keys| < BatchSize(g.options) then |keys| else BatchSize(g.options);
        Ok(s.(pc := InCollection(c, keys[..n], [], keys[n..], cs)))
      else Ok(s.(pc := AtCollections(cs)))
    case _ => Err(InvalidOperation)
  }

  ghost function ReplayMove(o: Options, s: System, move: Move): Result<System>
    requires move.ReceiveOne? || move.ApplyStep?
  {
    match (move, s.pc)
    case (ReceiveOne, Replaying) =>
      (match Recv(s.feed, s.stream)
       case (Delivered(c), stream) =>
         Ok(s.(stream := stream, pc := if Chosen(o, c.collection) then Applying((c.collection, c.key), c.operation) else Replaying))
       case (Pending, stream) => Ok(s.(stream := stream))
       case (Lagged(skipped), _) => Err(ChangeFeedLagged(skipped)))
    case (ApplyStep, Applying(x, operation)) =>
      if !Chosen(o, x.0) then Err(InvalidOperation)
      else if operation == Delete then Ok(s.(target := s.target - {Image(o, x)}, pc := Replaying))
      else Ok(s.(pc := Putting(x, Lookup(s.source, x))))
    case (ApplyStep, Putting(x, value)) =>
      if !Chosen(o, x.0) then Err(InvalidOperation)
      else if value.Some? then Ok(s.(target := s.target[Image(o, x) := value.value], pc := Replaying))
      else Ok(s.(target := s.target - {Image(o, x)}, pc := Replaying))
    case _ => Err(InvalidOperation)
  }

  /** One move of the system; an error is a move that is not possible here, or a lag error. */
  ghost function Advance(g: Setup, s: System, move: Move): Result<System>
    requires Standing(s.stream, s.history)
  {
    match move
    case MutateSource(source, names, records) =>
      if Covers(s.source, source, records) && Named(source, names) then
        Ok(s.(source := source, names := names, unrecorded := s.unrecorded + records))
      else Err(InvalidOperation)
    case Destroy(seed, names) =>
      if Named(seed, names) then Ok(s.(source := seed, names := names)) else Err(InvalidOperation)
    case RecordOne =>
      if s.unrecorded == [] then Err(InvalidOperation) else
        var m := s.unrecorded[0];
        Ok(s.(feed := Record(g.limits, s.feed, m.collection, m.key, m.operation),
              history := s.history + [NewChange(|s.history| + 1, m.collection, m.key, m.operation)],
              unrecorded := s.unrecorded[1..]))
    case Copy(listing) => CopyMove(g, s, listing)
    case _ => ReplayMove(g.options, s, move)
  }

  ghost function AdvanceAll(g: Setup, s: System, moves: seq<Move>): Result<System>
    requires Standing(s.stream, s.history)
    decreases |moves|
  {
    if moves == [] then Ok(s) else
      var s' :- Advance(g, s, moves[0]);
      if Standing(s'.stream, s'.history) then AdvanceAll(g, s', moves[1..]) else Err(InvalidOperation)
  }

  /** The subscription is opened before anything is copied, and while no mutation is under
      way. */
  ghost predicate Started(g: Setup, s: System) {
    && g.limits.Valid() && FeedOf(g.limits, s.feed, s.history)
    && Subscribe(s.feed, Latest, EVERYTHING) == Ok(s.stream)
    && Named(s.source, s.names) && s.unrecorded == [] && s.pc == AtStart
  }

  /** The chosen part of the source under its new names. */
  ghost function Renamed(o: Options, source: Contents): Contents {
    ImagesDistinct(o);
    map x | x in source && Chosen(o, x.0) :: Image(o, x) := source[x]
  }

  /** Nothing is left to do: the copy is over, every mutation is recorded and the feed has
      nothing to deliver. */
  ghost predicate Drained(s: System) {
    s.pc == Replaying && s.unrecorded == [] && Recv(s.feed, s.stream).0.Pending?
  }

  /** A run that comes to its end leaves exactly the chosen part of the source in the target. */
  ghost predicate EndsExact(g: Setup, s: System, moves: seq<Move>)
    requires Standing(s.stream, s.history)
  {
    var r := AdvanceAll(g, s, moves);
    r.Ok? && Drained(r.value) ==> r.value.target == Renamed(g.options, r.value.source)
  }

  /** The source is left alone. */
  predicate Untouched(moves: seq<Move>) {
    forall i | 0 <= i < |moves| :: !moves[i].MutateSource? && !moves[i].Destroy?
  }

  /** The source may be mutated, but never destroyed as a whole. */
  predicate NeverDestroyed(moves: seq<Move>) {
    forall i | 0 <= i < |moves| :: !moves[i].Destroy?
  }
}
