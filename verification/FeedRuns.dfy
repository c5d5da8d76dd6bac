/** A consumer that stores the cursor of its last record and resubscribes with it whenever it
    likes, while the store goes on recording changes. */
module FeedRuns {
  import opened Base
  import opened Utf8
  import opened Decimal
  import opened ChangeFeed

  datatype Step =
    | Mutate(collection: Text, key: Text, operation: Operation)
    | Receive
    | Resubscribe

  /** The feed with everything it ever recorded, and the consumer. */
  datatype State = State(feed: Feed, history: seq<Change>, stream: Stream, cursor: Option<Text>, received: seq<Change>)

  /** One step; fails with the error the consumer is shown. */
  function Next(limits: Limits, s: State, step: Step): Result<State> {
    match step
    case Mutate(collection, key, operation) =>
      Ok(s.(feed := Record(limits, s.feed, collection, key, operation),
            history := s.history + [NewChange(|s.history| + 1, collection, key, operation)]))
    case Receive =>
      (match Recv(s.feed, s.stream)
       case (Delivered(c), stream) => Ok(s.(stream := stream, cursor := Some(c.cursor), received := s.received + [c]))
       case (Pending, stream) => Ok(s.(stream := stream))
       case (Lagged(skipped), _) => Err(ChangeFeedLagged(skipped)))
    case Resubscribe =>
      if s.cursor.None? then Ok(s) else
        var stream :- Subscribe(s.feed, After(s.cursor.value), s.stream.filter);
        Ok(s.(stream := stream))
  }

  function Run(limits: Limits, s: State, steps: seq<Step>): Result<State>
    decreases |steps|
  {
    if steps == [] then Ok(s) else
      var s' :- Next(limits, s, steps[0]);
      Run(limits, s', steps[1..])
  }

  /** Where a subscription begins: the number of history records it will never show. */
  function StartPosition(feed: Feed, start: Start): nat
    requires |feed.entries| <= feed.revision
    requires start.After? ==> ParseU64(start.cursor).Some?
  {
    match start
    case Beginning => feed.revision - |feed.entries|
    case Latest => feed.revision
    case After(cursor) => ParseU64(cursor).value
  }

  function Open(feed: Feed, history: seq<Change>, start: Start, filter: Filter): Result<State> {
    var stream :- Subscribe(feed, start, filter);
    Ok(State(feed, history, stream, if start.After? then Some(start.cursor) else None, []))
  }

  /** Everything between the start and the stream's position has been received, and nothing
      was delivered since the stored cursor. */
  ghost predicate Inv(limits: Limits, s: State, start: nat) {
    && limits.Valid() && FeedOf(limits, s.feed, s.history) && Standing(s.stream, s.history)
    && start <= Position(s.stream)
    && s.received == Matching(s.stream.filter, s.history[start..Position(s.stream)])
    && (s.cursor.Some? ==> CursorAt(s, start))
  }

  ghost predicate CursorAt(s: State, start: nat)
    requires s.cursor.Some? && 0 <= Position(s.stream) <= |s.history|
  {
    && ParseU64(s.cursor.value).Some?
    && start <= ParseU64(s.cursor.value).value <= Position(s.stream)
    && Matching(s.stream.filter, s.history[ParseU64(s.cursor.value).value..Position(s.stream)]) == []
  }

  lemma OpenEstablishes(limits: Limits, feed: Feed, history: seq<Change>, start: Start, filter: Filter)
    requires limits.Valid() && FeedOf(limits, feed, history)
    requires Open(feed, history, start, filter).Ok?
    ensures start.After? ==> ParseU64(start.cursor).Some?
    ensures Inv(limits, Open(feed, history, start, filter).value, StartPosition(feed, start))
  {
    var stream := Subscribe(feed, start, filter).value;
    OpenStands(limits, feed, history, start, filter);
    assert history[Position(stream)..Position(stream)] == [];
  }

  lemma OpenStands(limits: Limits, feed: Feed, history: seq<Change>, start: Start, filter: Filter)
    requires limits.Valid() && FeedOf(limits, feed, history) && Subscribe(feed, start, filter).Ok?
    ensures start.After? ==> ParseU64(start.cursor).Some?
    ensures var stream := Subscribe(feed, start, filter).value;
            Standing(stream, history) && Position(stream) == StartPosition(feed, start) && stream.filter == filter
  {
    match start
    case After(cursor) =>
      var c := ParseU64(cursor).value;
      SubscribeAfterIff(limits, feed, history, cursor, c, filter);
      assert history[c..] == history[c..|history|];
    case Latest => assert history[|history|..|history|] == [];
    case Beginning => assert feed.entries == history[|history| - |feed.entries|..|history|];
  }

  lemma MutateKeeps(limits: Limits, s: State, start: nat, change: Change)
    requires Inv(limits, s, start)
    requires change == NewChange(|s.history| + 1, change.collection, change.key, change.operation)
    ensures Inv(limits, s.(feed := Record(limits, s.feed, change.collection, change.key, change.operation),
                           history := s.history + [change]), start)
  {
    RecordExtendsHistory(limits, s.feed, s.history, change.collection, change.key, change.operation);
    var h, h' := s.history, s.history + [change];
    var p := Position(s.stream);
    assert h'[start..p] == h[start..p] && h'[p..s.stream.next] == h[p..s.stream.next];
    if s.cursor.Some? {
      var k := ParseU64(s.cursor.value).value;
      assert h'[k..p] == h[k..p];
    }
  }

  lemma DeliverKeeps(limits: Limits, s: State, start: nat, c: Change, stream: Stream)
    requires Inv(limits, s, start) && |s.history| < U64_LIMIT
    requires ReceivesNext(s.stream.filter, s.history, Position(s.stream), Delivered(c), stream)
    ensures Inv(limits, s.(stream := stream, cursor := Some(c.cursor), received := s.received + [c]), start)
  {
    var q := Position(stream);
    MatchingSplit(s.stream.filter, s.history, start, Position(s.stream), q);
    ParseDigits(q);
    assert s.history[q..q] == [];
  }

  lemma PendingKeeps(limits: Limits, s: State, start: nat, stream: Stream)
    requires Inv(limits, s, start)
    requires ReceivesNext(s.stream.filter, s.history, Position(s.stream), Pending, stream)
    ensures Inv(limits, s.(stream := stream), start)
  {
    var p, q := Position(s.stream), Position(stream);
    assert s.history[p..q] == s.history[p..];
    MatchingSplit(s.stream.filter, s.history, start, p, q);
    if s.cursor.Some? {
      MatchingSplit(s.stream.filter, s.history, ParseU64(s.cursor.value).value, p, q);
    }
  }

  lemma ReceiveKeeps(limits: Limits, s: State, start: nat)
    requires Inv(limits, s, start) && |s.history| < U64_LIMIT
    ensures Next(limits, s, Receive).Ok? ==> Inv(limits, Next(limits, s, Receive).value, start)
  {
    RecvDelivers(limits, s.feed, s.history, s.stream);
    match Recv(s.feed, s.stream)
    case (Delivered(c), stream) => DeliverKeeps(limits, s, start, c, stream);
    case (Pending, stream) => PendingKeeps(limits, s, start, stream);
    case (Lagged(_), _) =>
  }

  lemma ResubscribeKeeps(limits: Limits, s: State, start: nat)
    requires Inv(limits, s, start)
    ensures match Next(limits, s, Resubscribe)
            case Ok(s') => Inv(limits, s', start)
            case Err(e) => e.ChangeCursorExpired?
  {
    if s.cursor.Some? {
      var k := ParseU64(s.cursor.value).value;
      SubscribeAfterIff(limits, s.feed, s.history, s.cursor.value, k, s.stream.filter);
      MatchingSplit(s.stream.filter, s.history, start, k, Position(s.stream));
      if Subscribe(s.feed, After(s.cursor.value), s.stream.filter).Ok? {
        RewindKeeps(limits, s, start, k);
      }
    }
  }

  /** Going back to the stored cursor loses nothing and repeats nothing. */
  lemma RewindKeeps(limits: Limits, s: State, start: nat, k: nat)
    requires Inv(limits, s, start) && s.cursor.Some? && ParseU64(s.cursor.value) == Some(k)
    requires s.received == Matching(s.stream.filter, s.history[start..k])
    ensures Inv(limits, s.(stream := Stream(s.history[k..], |s.history|, s.stream.filter)), start)
  {
    var h := s.history;
    var stream := Stream(h[k..], |h|, s.stream.filter);
    assert Position(stream) == k;
    assert h[k..] == h[k..|h|] && h[k..k] == [];
    assert Standing(stream, h);
    assert CursorAt(s.(stream := stream), start);
  }

  lemma NextKeeps(limits: Limits, s: State, start: nat, step: Step)
    requires Inv(limits, s, start) && |s.history| < U64_LIMIT
    ensures match Next(limits, s, step)
            case Ok(s') => Inv(limits, s', start)
            case Err(e) => e.ChangeCursorExpired? || e.ChangeFeedLagged?
  {
    match step
    case Mutate(c, k, op) => MutateKeeps(limits, s, start, NewChange(|s.history| + 1, c, k, op));
    case Receive => ReceiveKeeps(limits, s, start);
    case Resubscribe => ResubscribeKeeps(limits, s, start);
  }

  lemma {:induction false} RunKeeps(limits: Limits, s: State, start: nat, steps: seq<Step>)
    requires Inv(limits, s, start) && |s.history| + |steps| < U64_LIMIT
    ensures match Run(limits, s, steps)
            case Ok(s') => Inv(limits, s', start)
            case Err(e) => e.ChangeCursorExpired? || e.ChangeFeedLagged?
    decreases |steps|
  {
    if steps != [] {
      NextKeeps(limits, s, start, steps[0]);
      if Next(limits, s, steps[0]).Ok? {
        RunKeeps(limits, Next(limits, s, steps[0]).value, start, steps[1..]);
      }
    }
  }

  /** Exactly once: after any run of mutations, receives and resubscriptions the consumer has
      received precisely the matching records between its start and its stream's position, in
      order, unless it was told that its cursor expired or that it lagged. */
  lemma ExactlyOnceDelivery(limits: Limits, feed: Feed, history: seq<Change>, start: Start, filter: Filter, steps: seq<Step>)
    requires limits.Valid() && FeedOf(limits, feed, history) && |history| + |steps| < U64_LIMIT
    requires Open(feed, history, start, filter).Ok?
    ensures start.After? ==> ParseU64(start.cursor).Some?
    ensures match Run(limits, Open(feed, history, start, filter).value, steps)
            case Ok(s) =>
              && StartPosition(feed, start) <= Position(s.stream) <= |s.history|
              && s.received == Matching(s.stream.filter, s.history[StartPosition(feed, start)..Position(s.stream)])
            case Err(e) => e.ChangeCursorExpired? || e.ChangeFeedLagged?
  {
    OpenEstablishes(limits, feed, history, start, filter);
    RunKeeps(limits, Open(feed, history, start, filter).value, StartPosition(feed, start), steps);
  }

  lemma CaughtUp(limits: Limits, s: State, start: nat)
    requires Inv(limits, s, start) && Recv(s.feed, s.stream).0.Pending?
    ensures s.received == Matching(s.stream.filter, s.history[start..])
  {
    RecvDelivers(limits, s.feed, s.history, s.stream);
    var p, h := Position(s.stream), s.history;
    MatchingConcat(s.stream.filter, h[start..p], h[p..]);
    assert h[start..] == h[start..p] + h[p..];
    assert s.received + [] == s.received;
  }

  /** After any run at whose end a receive would have to wait, the consumer has received every
      matching record since its start, in order and once each. */
  lemma CaughtUpMeansComplete(limits: Limits, feed: Feed, history: seq<Change>, start: Start, filter: Filter, steps: seq<Step>)
    requires limits.Valid() && FeedOf(limits, feed, history) && |history| + |steps| < U64_LIMIT
    requires Open(feed, history, start, filter).Ok?
    ensures start.After? ==> ParseU64(start.cursor).Some?
    ensures var r := Run(limits, Open(feed, history, start, filter).value, steps);
            r.Ok? && Recv(r.value.feed, r.value.stream).0.Pending? ==>
              && StartPosition(feed, start) <= |r.value.history|
              && r.value.received == Matching(r.value.stream.filter, r.value.history[StartPosition(feed, start)..])
  {
    OpenEstablishes(limits, feed, history, start, filter);
    RunKeeps(limits, Open(feed, history, start, filter).value, StartPosition(feed, start), steps);
    var r := Run(limits, Open(feed, history, start, filter).value, steps);
    if r.Ok? && Recv(r.value.feed, r.value.stream).0.Pending? {
      CaughtUp(limits, r.value, StartPosition(feed, start));
    }
  }

  // -------------------------------------------------------------- what was asked for

  /** The stored cursor is that of the last record received, or the first one when there is none. */
  predicate CursorIsLast(s: State, first: Option<Text>) {
    s.cursor == if s.received == [] then first else Some(s.received[|s.received| - 1].cursor)
  }

  /** The filter stays, the history only grows, and the stored cursor stays the last one. */
  predicate Carried(s: State, t: State, first: Option<Text>) {
    && t.stream.filter == s.stream.filter && s.history <= t.history
    && (CursorIsLast(s, first) ==> CursorIsLast(t, first))
  }

  lemma CarriedOn(s: State, t: State, u: State, first: Option<Text>)
    requires Carried(s, t, first) && Carried(t, u, first)
    ensures Carried(s, u, first)
  {
  }

  lemma NextKeepsFilter(limits: Limits, s: State, start: nat, step: Step, first: Option<Text>)
    requires Inv(limits, s, start) && Next(limits, s, step).Ok?
    ensures Carried(s, Next(limits, s, step).value, first)
  {
    if step.Receive? {
      RecvDelivers(limits, s.feed, s.history, s.stream);
    }
  }

  lemma {:induction false} RunKeepsFilter(limits: Limits, s: State, start: nat, steps: seq<Step>, first: Option<Text>)
    requires Inv(limits, s, start) && |s.history| + |steps| < U64_LIMIT && Run(limits, s, steps).Ok?
    ensures Carried(s, Run(limits, s, steps).value, first)
    decreases |steps|
  {
    if steps != [] {
      NextKeepsFilter(limits, s, start, steps[0], first);
      NextKeeps(limits, s, start, steps[0]);
      var next := Next(limits, s, steps[0]).value;
      RunKeepsFilter(limits, next, start, steps[1..], first);
      CarriedOn(s, next, Run(limits, s, steps).value, first);
    }
  }

  /** A change of a collection and of a kind that were asked for; naming none asks for all. */
  predicate AskedFor(filter: Filter, c: Change) {
    && (filter.collections == [] || c.collection in filter.collections)
    && (filter.operations == [] || c.operation in filter.operations)
  }

  /** The mutations among some steps. */
  function Made(steps: seq<Step>): seq<Mutation> {
    if steps == [] then []
    else if steps[0].Mutate? then [Mutation(steps[0].collection, steps[0].key, steps[0].operation)] + Made(steps[1..])
    else Made(steps[1..])
  }

  /** `later` is `history` with a record for each of the mutations made since. */
  ghost predicate Grown(history: seq<Change>, later: seq<Change>, made: seq<Mutation>) {
    && history <= later && |later| == |history| + |made|
    && forall i | 0 <= i < |made| :: Tells(later[|history| + i], |history| + i + 1, made[i])
  }

  predicate Tells(c: Change, revision: nat, m: Mutation) {
    && c.revision == revision && c.cursor == Digits(revision)
    && c.collection == m.collection && c.key == m.key && c.operation == m.operation
  }

  lemma GrownMore(history: seq<Change>, c: Change, later: seq<Change>, m: Mutation, made: seq<Mutation>)
    requires Tells(c, |history| + 1, m) && Grown(history + [c], later, made)
    ensures Grown(history, later, [m] + made)
  {
    assert history <= later && later[|history|] == c;
    forall i | 0 <= i < |made| + 1 ensures Tells(later[|history| + i], |history| + i + 1, ([m] + made)[i]) {
      if i > 0 {
        assert Tells(later[|history| + 1 + (i - 1)], |history| + 1 + (i - 1) + 1, made[i - 1]);
      }
    }
  }

  /** The history a run ends with is the one it began with and what its steps made of it. */
  lemma {:induction false} RunGrows(limits: Limits, s: State, start: nat, steps: seq<Step>)
    requires Inv(limits, s, start) && |s.history| + |steps| < U64_LIMIT && Run(limits, s, steps).Ok?
    ensures Grown(s.history, Run(limits, s, steps).value.history, Made(steps))
    decreases |steps|
  {
    if steps != [] {
      var next := Next(limits, s, steps[0]).value;
      NextKeeps(limits, s, start, steps[0]);
      RunGrows(limits, next, start, steps[1..]);
      match steps[0]
      case Mutate(collection, key, operation) =>
        GrownMore(s.history, NewChange(|s.history| + 1, collection, key, operation), Run(limits, s, steps).value.history,
                  Mutation(collection, key, operation), Made(steps[1..]));
      case _ =>
    }
  }

  /** A consumer receives what it asked for and nothing else: every mutation of the run is in the
      history; whatever was received is a change of a collection and of a kind that were asked
      for; and once it has caught up it has received every such change made since its start.
      Changes come in the order they were made, none twice. */
  lemma ReceivedIsWhatWasAskedFor(limits: Limits, feed: Feed, history: seq<Change>, start: Start, filter: Filter, steps: seq<Step>)
    requires limits.Valid() && FeedOf(limits, feed, history) && |history| + |steps| < U64_LIMIT
    requires Open(feed, history, start, filter).Ok?
    ensures start.After? ==> ParseU64(start.cursor).Some?
    ensures var r := Run(limits, Open(feed, history, start, filter).value, steps);
            var from := StartPosition(feed, start);
            r.Ok? ==>
              var s := r.value;
              && from <= |s.history| && Grown(history, s.history, Made(steps))
              && (forall c | c in s.received :: AskedFor(filter, c) && c in s.history[from..])
              && (forall i, j | 0 <= i < j < |s.received| :: s.received[i].revision < s.received[j].revision)
              && (Recv(s.feed, s.stream).0.Pending? ==>
                    forall c | c in s.history[from..] && AskedFor(filter, c) :: c in s.received)
  {
    OpenEstablishes(limits, feed, history, start, filter);
    var s0, from := Open(feed, history, start, filter).value, StartPosition(feed, start);
    RunKeeps(limits, s0, from, steps);
    if Run(limits, s0, steps).Ok? {
      RunKeepsFilter(limits, s0, from, steps, None);
      RunGrows(limits, s0, from, steps);
      ReceivedSoFar(limits, Run(limits, s0, steps).value, from, filter);
    }
  }

  lemma ReceivedSoFar(limits: Limits, s: State, from: nat, filter: Filter)
    requires Inv(limits, s, from) && s.stream.filter == filter
    ensures forall c | c in s.received :: AskedFor(filter, c) && c in s.history[from..]
    ensures forall i, j | 0 <= i < j < |s.received| :: s.received[i].revision < s.received[j].revision
    ensures Recv(s.feed, s.stream).0.Pending? ==> forall c | c in s.history[from..] && AskedFor(filter, c) :: c in s.received
  {
    MatchingUpTo(filter, s.history, from, Position(s.stream));
    if Recv(s.feed, s.stream).0.Pending? {
      CaughtUp(limits, s, from);
      MatchingIsExact(filter, s.history, from);
    }
  }

  /** The stored cursor is always the last received record's, or before there is one the cursor
      the subscription started after. */
  lemma StoredCursor(limits: Limits, feed: Feed, history: seq<Change>, start: Start, filter: Filter, steps: seq<Step>)
    requires limits.Valid() && FeedOf(limits, feed, history) && |history| + |steps| < U64_LIMIT
    requires Open(feed, history, start, filter).Ok?
    ensures var r := Run(limits, Open(feed, history, start, filter).value, steps);
            r.Ok? ==> r.value.cursor == if r.value.received != [] then Some(r.value.received[|r.value.received| - 1].cursor)
                                        else if start.After? then Some(start.cursor) else None
  {
    OpenEstablishes(limits, feed, history, start, filter);
    var s0, from := Open(feed, history, start, filter).value, StartPosition(feed, start);
    if Run(limits, s0, steps).Ok? {
      RunKeepsFilter(limits, s0, from, steps, s0.cursor);
    }
  }

  lemma {:induction false} NothingMatches(filter: Filter, s: seq<Change>)
    requires Matching(filter, s) == []
    ensures forall i | 0 <= i < |s| :: !AskedFor(filter, s[i])
  {
    if s != [] {
      NothingMatches(filter, s[1..]);
    }
  }

  /** Nothing in the history from `p` up to `q` was asked for. */
  ghost predicate NothingBetween(filter: Filter, history: seq<Change>, p: nat, q: nat) {
    forall i | p <= i < q && i < |history| :: !AskedFor(filter, history[i])
  }

  lemma NothingSkipped(filter: Filter, history: seq<Change>, p: nat, q: nat)
    requires p <= q <= |history| && Matching(filter, history[p..q]) == []
    ensures NothingBetween(filter, history, p, q)
  {
    NothingMatches(filter, history[p..q]);
    forall i | p <= i < q ensures !AskedFor(filter, history[i]) {
      assert history[p..q][i - p] == history[i];
    }
  }

  lemma DeliveredWasAskedFor(filter: Filter, history: seq<Change>, p: nat, q: nat, c: Change)
    requires Numbered(history) && p < q <= |history| && c == history[q - 1] && Matching(filter, history[p..q]) == [c]
    ensures AskedFor(filter, c) && NothingBetween(filter, history, p, q - 1)
  {
    MatchedWasAskedFor(filter, history, p, q, c);
    MatchingSplit(filter, history, p, q - 1, q);
    MatchOne(filter, history, q - 1);
    NothingBefore(Matching(filter, history[p..q - 1]), c);
    NothingSkipped(filter, history, p, q - 1);
  }

  lemma MatchedWasAskedFor(filter: Filter, history: seq<Change>, p: nat, q: nat, c: Change)
    requires Numbered(history) && p <= q <= |history| && Matching(filter, history[p..q]) == [c]
    ensures filter.Matches(c) && AskedFor(filter, c)
  {
    MatchingUpTo(filter, history, p, q);
    assert c in Matching(filter, history[p..q]);
  }

  lemma NothingBefore<T>(a: seq<T>, c: T)
    requires a + [c] == [c]
    ensures a == []
  {
    assert |a + [c]| == |a| + 1;
  }

  /** From position `p` a consumer got to `q`: it was handed the first change that was asked for,
      the one right before `q`, or there was none up to the end. */
  ghost predicate TakesTheNext(filter: Filter, history: seq<Change>, p: nat, q: nat, before: seq<Change>, after: seq<Change>) {
    if after == before then q == |history| && NothingBetween(filter, history, p, q)
    else && p < q <= |history| && AskedFor(filter, history[q - 1]) && after == before + [history[q - 1]]
         && NothingBetween(filter, history, p, q - 1)
  }

  /** Every receive makes progress: it fails with a lag, or hands over the first change after the
      consumer's position that was asked for and moves right behind it, or there is none and it
      has looked at everything. */
  lemma ReceiveTakesTheNext(limits: Limits, s: State, start: nat)
    requires Inv(limits, s, start)
    ensures match Next(limits, s, Receive)
            case Err(e) => e.ChangeFeedLagged?
            case Ok(t) =>
              && 0 <= Position(s.stream) <= Position(t.stream)
              && TakesTheNext(s.stream.filter, s.history, Position(s.stream), Position(t.stream), s.received, t.received)
  {
    RecvDelivers(limits, s.feed, s.history, s.stream);
    var (out, after) := Recv(s.feed, s.stream);
    var p, q := Position(s.stream), Position(after);
    match out
    case Delivered(c) =>
      DeliveredWasAskedFor(s.stream.filter, s.history, p, q, c);
      assert |s.received + [c]| == |s.received| + 1;
    case Pending => NothingLeft(s.stream.filter, s.history, p);
    case Lagged(_) =>
  }

  lemma NothingLeft(filter: Filter, history: seq<Change>, p: nat)
    requires p <= |history| && Matching(filter, history[p..]) == []
    ensures NothingBetween(filter, history, p, |history|)
  {
    assert history[p..] == history[p..|history|];
    NothingSkipped(filter, history, p, |history|);
  }

  /** Resubscribing cures a lag: if the stored cursor is still accepted, the consumer goes on right
      behind it and its next receive does not lag. */
  lemma ResubscribingCuresLag(limits: Limits, s: State, start: nat)
    requires Inv(limits, s, start) && s.cursor.Some?
    ensures match Next(limits, s, Resubscribe)
            case Err(e) => e.ChangeCursorExpired?
            case Ok(t) => ParseU64(s.cursor.value) == Some(Position(t.stream)) && Next(limits, t, Receive).Ok?
  {
    var h, k := s.history, ParseU64(s.cursor.value).value;
    SubscribeAfterIff(limits, s.feed, h, s.cursor.value, k, s.stream.filter);
    if Subscribe(s.feed, After(s.cursor.value), s.stream.filter).Ok? {
      AtTheEndOfTheChannel(limits, s.feed, h, Stream(h[k..], |h|, s.stream.filter), k);
    }
  }

  /** A stream that has everything up to the last record to replay does not lag. */
  lemma AtTheEndOfTheChannel(limits: Limits, feed: Feed, history: seq<Change>, stream: Stream, k: nat)
    requires limits.Valid() && FeedOf(limits, feed, history)
    requires k <= |history| && stream.replay == history[k..] && stream.next == |history|
    ensures Position(stream) == k && !Recv(feed, stream).0.Lagged?
  {
    assert history[k..] == history[k..|history|];
    LagIff(limits, feed, history, stream);
  }

  lemma MatchingUpTo(filter: Filter, history: seq<Change>, from: nat, to: nat)
    requires Numbered(history) && from <= to <= |history|
    ensures var r := Matching(filter, history[from..to]);
            && (forall c | c in r :: c in history[from..] && filter.Matches(c))
            && (forall i, j | 0 <= i < j < |r| :: r[i].revision < r[j].revision)
  {
    var h := history[..to];
    assert h[from..] == history[from..to];
    MatchingIsExact(filter, h, from);
    assert forall c | c in history[from..to] :: c in history[from..];
  }

  // ------------------------------------------------------------ reachable feeds

  function RecordAll(limits: Limits, feed: Feed, mutations: seq<Mutation>): Feed
    decreases |mutations|
  {
    if mutations == [] then feed else
      var m := mutations[|mutations| - 1];
      Record(limits, RecordAll(limits, feed, mutations[..|mutations| - 1]), m.collection, m.key, m.operation)
  }

  function Log(mutations: seq<Mutation>): seq<Change> {
    seq(|mutations|, i requires 0 <= i < |mutations| =>
          NewChange(i + 1, mutations[i].collection, mutations[i].key, mutations[i].operation))
  }

  lemma LogSnoc(mutations: seq<Mutation>, front: seq<Mutation>, m: Mutation)
    requires mutations != [] && front == mutations[..|mutations| - 1] && m == mutations[|mutations| - 1]
    ensures Log(mutations) == Log(front) + [NewChange(|front| + 1, m.collection, m.key, m.operation)]
  {
  }

  lemma {:induction false} ReachableFeed(limits: Limits, mutations: seq<Mutation>)
    requires limits.Valid()
    ensures FeedOf(limits, RecordAll(limits, EMPTY_FEED, mutations), Log(mutations))
    decreases |mutations|
  {
    if mutations != [] {
      var front, m := mutations[..|mutations| - 1], mutations[|mutations| - 1];
      ReachableFeed(limits, front);
      RecordExtendsHistory(limits, RecordAll(limits, EMPTY_FEED, front), Log(front), m.collection, m.key, m.operation);
      LogSnoc(mutations, front, m);
    }
  }

  /** A record of mutation number `n`, counted from zero. */
  predicate Records(c: Change, mutations: seq<Mutation>, n: int) {
    && 0 <= n < |mutations| && c.revision == n + 1 && c.cursor == Digits(n + 1)
    && c.collection == mutations[n].collection && c.key == mutations[n].key && c.operation == mutations[n].operation
  }

  /** The records of all mutations from number `from` on, in order. */
  predicate AreRecords(cs: seq<Change>, mutations: seq<Mutation>, from: nat) {
    |cs| == |mutations| - from && forall i | 0 <= i < |cs| :: Records(cs[i], mutations, from + i)
  }

  /** In every reachable feed the retained records are the latest min(revision, R), with
      consecutive revisions ending at the counter, and a cursor is accepted exactly when it
      lies in their range, replaying precisely what follows it. */
  lemma RetainedRecords(limits: Limits, mutations: seq<Mutation>, c: nat, filter: Filter)
    requires limits.Valid() && c < U64_LIMIT
    ensures var feed := RecordAll(limits, EMPTY_FEED, mutations);
            && feed.revision == |mutations|
            && |feed.entries| == (if |mutations| < limits.retention then |mutations| else limits.retention)
            && |feed.entries| <= |mutations| && AreRecords(feed.entries, mutations, |mutations| - |feed.entries|)
            && (Subscribe(feed, After(Digits(c)), filter).Ok? <==> feed.revision - |feed.entries| <= c <= feed.revision)
            && (feed.revision - |feed.entries| <= c <= feed.revision ==>
                  AreRecords(Subscribe(feed, After(Digits(c)), filter).value.replay, mutations, c))
  {
    var log := Log(mutations);
    ReachableFeed(limits, mutations);
    ParseDigits(c);
    SubscribeAfterIff(limits, RecordAll(limits, EMPTY_FEED, mutations), log, Digits(c), c, filter);
    LogRecords(mutations, |mutations| - |RecordAll(limits, EMPTY_FEED, mutations).entries|);
    if c <= |mutations| {
      LogRecords(mutations, c);
    }
  }

  lemma LogRecords(mutations: seq<Mutation>, from: nat)
    requires from <= |mutations|
    ensures AreRecords(Log(mutations)[from..], mutations, from)
  {
  }
}
