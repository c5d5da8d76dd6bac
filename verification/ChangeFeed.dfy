/** The memory store's change feed: a revision-numbered log that keeps its latest records
    for replay, and a bounded broadcast channel for live delivery. */
module ChangeFeed {
  import opened Base
  import opened Utf8
  import opened Decimal

  // ------------------------------------------------------------------- vocabulary

  datatype Operation = Put | Delete

  datatype Change = Change(cursor: Text, revision: nat, collection: Text, key: Text, operation: Operation)

  /** A mutation as the feed sees it: what a record adds to the log. */
  datatype Mutation = Mutation(collection: Text, key: Text, operation: Operation)

  datatype Start = Beginning | After(cursor: Text) | Latest

  datatype Filter = Filter(collections: seq<Text>, operations: seq<Operation>) {
    predicate Matches(c: Change) {
      && (collections == [] || c.collection in collections)
      && (operations == [] || c.operation in operations)
    }
  }

  /** How many records are kept for replay, and how many the channel holds. */
  datatype Limits = Limits(retention: nat, capacity: nat) {
    predicate Valid() {
      retention >= 1 && capacity >= 1
    }
  }

  /** `entries` is the replay log; `slots` are the channel's latest messages, the last of
      them at position `tail - 1`. */
  datatype Feed = Feed(revision: nat, entries: seq<Change>, tail: nat, slots: seq<Change>)

  const EMPTY_FEED: Feed := Feed(0, [], 0, [])

  /** Records still to be replayed, then the position of the next channel message. */
  datatype Stream = Stream(replay: seq<Change>, next: nat, filter: Filter)

  datatype Received = Delivered(change: Change) | Lagged(skipped: nat) | Pending

  // ------------------------------------------------------------------- operations

  function Keep<T>(s: seq<T>, n: nat): seq<T> {
    if |s| <= n then s else s[|s| - n..]
  }

  function NewChange(revision: nat, collection: Text, key: Text, operation: Operation): Change {
    Change(Digits(revision), revision, collection, key, operation)
  }

  function Record(limits: Limits, feed: Feed, collection: Text, key: Text, operation: Operation): Feed {
    var revision := feed.revision + 1;
    var change := NewChange(revision, collection, key, operation);
    var kept := if |feed.entries| == limits.retention && feed.entries != [] then feed.entries[1..] else feed.entries;
    Feed(revision, kept + [change], feed.tail + 1, Keep(feed.slots + [change], limits.capacity))
  }

  function NewerThan(entries: seq<Change>, revision: nat): seq<Change> {
    if entries == [] then []
    else if entries[0].revision > revision then [entries[0]] + NewerThan(entries[1..], revision)
    else NewerThan(entries[1..], revision)
  }

  function Subscribe(feed: Feed, start: Start, filter: Filter): Result<Stream> {
    match start
    case Beginning => Ok(Stream(feed.entries, feed.tail, filter))
    case Latest => Ok(Stream([], feed.tail, filter))
    case After(cursor) =>
      match ParseU64(cursor)
      case None => Err(InvalidChangeCursor)
      case Some(requested) =>
        if requested > feed.revision then Err(InvalidChangeCursor)
        else if feed.entries != [] && requested + 1 < feed.entries[0].revision then
          Err(ChangeCursorExpired(feed.entries[0].revision))
        else Ok(Stream(NewerThan(feed.entries, requested), feed.tail, filter))
  }

  /** The next matching record; `Pending` when the receiver would have to wait. */
  function Recv(feed: Feed, stream: Stream): (Received, Stream)
    decreases |stream.replay|, feed.tail - stream.next
  {
    if stream.replay != [] then
      var rest := stream.(replay := stream.replay[1..]);
      if stream.filter.Matches(stream.replay[0]) then (Delivered(stream.replay[0]), rest) else Recv(feed, rest)
    else if stream.next >= feed.tail then (Pending, stream)
    else if stream.next + |feed.slots| < feed.tail then
      (Lagged(feed.tail - |feed.slots| - stream.next), stream.(next := feed.tail - |feed.slots|))
    else
      var i := |feed.slots| - (feed.tail - stream.next);
      var rest := stream.(next := stream.next + 1);
      if stream.filter.Matches(feed.slots[i]) then (Delivered(feed.slots[i]), rest) else Recv(feed, rest)
  }

  // -------------------------------------------------------- the feed and its history

  /** Records numbered from 1, each with its number as cursor. */
  ghost predicate Numbered(history: seq<Change>) {
    forall i | 0 <= i < |history| :: history[i].revision == i + 1 && history[i].cursor == Digits(i + 1)
  }

  /** The feed after `history` was recorded. */
  ghost predicate FeedOf(limits: Limits, feed: Feed, history: seq<Change>) {
    && Numbered(history)
    && feed.revision == feed.tail == |history|
    && feed.entries == Keep(history, limits.retention)
    && feed.slots == Keep(history, limits.capacity)
  }

  lemma KeepAppend<T>(s: seq<T>, n: nat, x: T)
    requires n >= 1
    ensures Keep(Keep(s, n) + [x], n) == Keep(s + [x], n)
  {
  }

  lemma RecordExtendsHistory(limits: Limits, feed: Feed, history: seq<Change>, collection: Text, key: Text, operation: Operation)
    requires limits.Valid() && FeedOf(limits, feed, history)
    ensures FeedOf(limits, Record(limits, feed, collection, key, operation),
                   history + [NewChange(|history| + 1, collection, key, operation)])
  {
    KeepAppend(history, limits.capacity, NewChange(|history| + 1, collection, key, operation));
    KeepAppend(history, limits.retention, NewChange(|history| + 1, collection, key, operation));
  }

  lemma {:induction false} NewerThanSuffix(history: seq<Change>, from: nat, requested: nat)
    requires Numbered(history) && from <= |history|
    ensures NewerThan(history[from..], requested) ==
            history[if requested < from then from else if requested > |history| then |history| else requested..]
    decreases |history| - from
  {
    if from < |history| {
      NewerThanSuffix(history, from + 1, requested);
      assert history[from..][1..] == history[from + 1..];
      assert history[from..] == [history[from]] + history[from + 1..];
    }
  }

  lemma ReplayAfter(limits: Limits, feed: Feed, history: seq<Change>, c: nat)
    requires limits.Valid() && FeedOf(limits, feed, history) && |history| - |feed.entries| <= c <= |history|
    ensures NewerThan(feed.entries, c) == history[c..]
  {
    var from := |history| - |feed.entries|;
    assert feed.entries == history[from..];
    NewerThanSuffix(history, from, c);
  }

  /** A cursor is accepted exactly when its number lies within what is retained, and then
      everything after it is replayed; a newer one is invalid, an older one expired. */
  lemma SubscribeAfterIff(limits: Limits, feed: Feed, history: seq<Change>, cursor: Text, c: nat, filter: Filter)
    requires limits.Valid() && FeedOf(limits, feed, history) && ParseU64(cursor) == Some(c)
    ensures var r := Subscribe(feed, After(cursor), filter);
            && (r.Ok? <==> |history| - |feed.entries| <= c <= |history|)
            && (r.Ok? ==> r.value == Stream(history[c..], |history|, filter))
            && (c > |history| ==> r == Err(InvalidChangeCursor))
            && (c < |history| - |feed.entries| ==> r == Err(ChangeCursorExpired(|history| - |feed.entries| + 1)))
  {
    var from := |history| - |feed.entries|;
    assert feed.entries != [] ==> feed.entries[0].revision == from + 1;
    if from <= c <= |history| {
      ReplayAfter(limits, feed, history, c);
    }
  }

  // --------------------------------------------------------------------- delivery

  function Matching(filter: Filter, s: seq<Change>): seq<Change> {
    if s == [] then []
    else if filter.Matches(s[0]) then [s[0]] + Matching(filter, s[1..])
    else Matching(filter, s[1..])
  }

  lemma {:induction false} MatchingConcat(filter: Filter, s: seq<Change>, t: seq<Change>)
    ensures Matching(filter, s + t) == Matching(filter, s) + Matching(filter, t)
  {
    if s == [] {
      assert s + t == t;
    } else {
      assert (s + t)[1..] == s[1..] + t;
      MatchingConcat(filter, s[1..], t);
    }
  }

  lemma MatchingSplit(filter: Filter, h: seq<Change>, i: nat, j: nat, k: nat)
    requires i <= j <= k <= |h|
    ensures Matching(filter, h[i..k]) == Matching(filter, h[i..j]) + Matching(filter, h[j..k])
  {
    MatchingConcat(filter, h[i..j], h[j..k]);
    assert h[i..k] == h[i..j] + h[j..k];
  }

  /** The number of history records the stream is done with. */
  function Position(stream: Stream): int {
    stream.next - |stream.replay|
  }

  /** The stream stands in `history`: its replay is what lies between its position and its
      place in the channel. */
  ghost predicate Standing(stream: Stream, history: seq<Change>) {
    && 0 <= Position(stream) <= stream.next <= |history|
    && stream.replay == history[Position(stream)..stream.next]
  }

  /** What one receive does to a stream: it delivers the first matching record after the
      stream's position and stops right behind it, or finds none, or reports a gap. */
  ghost predicate ReceivesNext(filter: Filter, history: seq<Change>, p: nat, out: Received, after: Stream)
    requires p <= |history|
  {
    && Standing(after, history) && after.filter == filter && p <= Position(after)
    && match out
       case Delivered(c) =>
         && p < Position(after)
         && c == history[Position(after) - 1]
         && Matching(filter, history[p..Position(after)]) == [c]
       case Pending => Position(after) == |history| && Matching(filter, history[p..]) == []
       case Lagged(skipped) => p < Position(after) && skipped > 0
  }

  /** The record at the stream's position, when it can be had, and the stream behind it. */
  lemma NextRecord(limits: Limits, feed: Feed, history: seq<Change>, stream: Stream, rest: Stream)
    requires limits.Valid() && FeedOf(limits, feed, history) && Standing(stream, history)
    requires stream.replay != [] || (stream.next < feed.tail && stream.next + |feed.slots| >= feed.tail)
    requires rest == if stream.replay != [] then stream.(replay := stream.replay[1..]) else stream.(next := stream.next + 1)
    ensures Position(rest) == Position(stream) + 1 && Standing(rest, history)
    ensures Position(stream) < |history|
    ensures var c := history[Position(stream)];
            Recv(feed, stream) == if stream.filter.Matches(c) then (Delivered(c), rest) else Recv(feed, rest)
  {
  }

  lemma {:induction false} RecvDelivers(limits: Limits, feed: Feed, history: seq<Change>, stream: Stream)
    requires limits.Valid() && FeedOf(limits, feed, history) && Standing(stream, history)
    ensures ReceivesNext(stream.filter, history, Position(stream), Recv(feed, stream).0, Recv(feed, stream).1)
    decreases |stream.replay|, feed.tail - stream.next
  {
    var p := Position(stream);
    if stream.replay != [] || (stream.next < feed.tail && stream.next + |feed.slots| >= feed.tail) {
      var rest := if stream.replay != [] then stream.(replay := stream.replay[1..]) else stream.(next := stream.next + 1);
      NextRecord(limits, feed, history, stream, rest);
      if stream.filter.Matches(history[p]) {
        MatchOne(stream.filter, history, p);
      } else {
        RecvDelivers(limits, feed, history, rest);
        SkipReceives(stream.filter, history, p, p + 1, Recv(feed, rest).0, Recv(feed, rest).1);
      }
    } else {
      NothingToHave(limits, feed, history, stream);
    }
  }

  /** A stream that has nothing to replay, and nothing or too much waiting in the channel. */
  lemma NothingToHave(limits: Limits, feed: Feed, history: seq<Change>, stream: Stream)
    requires limits.Valid() && FeedOf(limits, feed, history) && Standing(stream, history)
    requires stream.replay == [] && !(stream.next < feed.tail && stream.next + |feed.slots| >= feed.tail)
    ensures ReceivesNext(stream.filter, history, Position(stream), Recv(feed, stream).0, Recv(feed, stream).1)
  {
    assert history[Position(stream)..] == [] || stream.next + |feed.slots| < feed.tail;
  }

  lemma SkipReceives(filter: Filter, history: seq<Change>, p: nat, next: nat, out: Received, after: Stream)
    requires next == p + 1 && p < |history| && !filter.Matches(history[p])
    requires ReceivesNext(filter, history, next, out, after)
    ensures ReceivesNext(filter, history, p, out, after)
  {
    SkipOne(filter, history, p, Position(after));
  }

  lemma MatchOne(filter: Filter, history: seq<Change>, p: nat)
    requires p < |history| && filter.Matches(history[p])
    ensures Matching(filter, history[p..p + 1]) == [history[p]]
  {
    assert history[p..p + 1] == [history[p]];
  }

  lemma SkipOne(filter: Filter, history: seq<Change>, p: nat, q: nat)
    requires p < q <= |history| && !filter.Matches(history[p])
    ensures Matching(filter, history[p..q]) == Matching(filter, history[p + 1..q])
    ensures Matching(filter, history[p..]) == Matching(filter, history[p + 1..])
  {
    assert history[p..q][1..] == history[p + 1..q];
    assert history[p..][1..] == history[p + 1..];
  }

  /** A receive reports a gap exactly when nothing left to replay matches and more messages
      than the channel holds have been sent since the stream last looked at it; it reports how
      many were lost and goes on with the oldest one the channel still holds. */
  lemma {:induction false} LagIff(limits: Limits, feed: Feed, history: seq<Change>, stream: Stream)
    requires limits.Valid() && FeedOf(limits, feed, history) && Standing(stream, history)
    ensures Recv(feed, stream).0.Lagged? <==>
            Matching(stream.filter, stream.replay) == [] && stream.next + limits.capacity < |history|
    ensures match Recv(feed, stream)
            case (Lagged(skipped), after) => skipped == |history| - limits.capacity - stream.next && after.next == |history| - limits.capacity
            case _ => true
    decreases |stream.replay|, feed.tail - stream.next
  {
    if stream.replay != [] || (stream.next < feed.tail && stream.next + |feed.slots| >= feed.tail) {
      var rest := if stream.replay != [] then stream.(replay := stream.replay[1..]) else stream.(next := stream.next + 1);
      NextRecord(limits, feed, history, stream, rest);
      if !stream.filter.Matches(history[Position(stream)]) {
        LagIff(limits, feed, history, rest);
      }
    }
  }

  /** The matching records are all of them, in revision order, none twice. */
  lemma {:induction false} MatchingIsExact(filter: Filter, history: seq<Change>, from: nat)
    requires Numbered(history) && from <= |history|
    ensures var r := Matching(filter, history[from..]);
            && (forall c :: c in r <==> c in history[from..] && filter.Matches(c))
            && (forall i | 0 <= i < |r| :: r[i].revision > from)
            && (forall i, j | 0 <= i < j < |r| :: r[i].revision < r[j].revision)
    decreases |history| - from
  {
    if from < |history| {
      MatchingIsExact(filter, history, from + 1);
      assert history[from..] == [history[from]] + history[from + 1..];
    }
  }
}
