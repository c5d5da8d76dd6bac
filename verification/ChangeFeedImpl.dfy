/** The change feed in the form the code has: a revision counter, a deque and a sender updated
    in place, and a stream whose receive loops over the records it is not interested in. */
module ChangeFeedImpl {
  import opened Base
  import opened Utf8
  import opened Decimal
  import opened ChangeFeed

  class MemoryFeed {
    const limits: Limits
    var revision: nat
    var entries: seq<Change>
    var tail: nat
    var slots: seq<Change>
    /** Everything ever recorded. */
    ghost var history: seq<Change>

    function Model(): Feed
      reads this
    {
      Feed(revision, entries, tail, slots)
    }

    ghost predicate Valid()
      reads this
    {
      limits.Valid() && FeedOf(limits, Model(), history)
    }

    constructor (limits: Limits)
      requires limits.Valid()
      ensures Valid() && Model() == EMPTY_FEED && history == [] && this.limits == limits
    {
      this.limits := limits;
      revision, entries, tail, slots := 0, [], 0, [];
      history := [];
    }

    method RecordChange(collection: Text, key: Text, operation: Operation)
      requires Valid()
      modifies this
      ensures Valid() && Model() == Record(limits, old(Model()), collection, key, operation)
      ensures history == old(history) + [NewChange(|old(history)| + 1, collection, key, operation)]
    {
      RecordExtendsHistory(limits, Model(), history, collection, key, operation);
      revision := revision + 1;
      var change := Change(Digits(revision), revision, collection, key, operation);
      if |entries| == limits.retention {
        entries := entries[1..];
      }
      entries := entries + [change];
      Send(change);
      history := history + [change];
    }

    /** The broadcast channel: a message takes the next position and pushes out the oldest
        one once the channel is full. */
    method Send(change: Change)
      modifies this`tail, this`slots
      ensures tail == old(tail) + 1 && slots == Keep(old(slots) + [change], limits.capacity)
    {
      tail := tail + 1;
      slots := Keep(slots + [change], limits.capacity);
    }

    method Subscribe(start: Start, filter: Filter) returns (r: Result<MemoryChangeStream>)
      ensures match ChangeFeed.Subscribe(Model(), start, filter)
              case Ok(stream) => r.Ok? && fresh(r.value) && r.value.Model() == stream
              case Err(e) => r == Err(e)
    {
      var replay: seq<Change> := [];
      match start {
        case Beginning => replay := entries;
        case Latest =>
        case After(cursor) =>
          var requested := ParseU64(cursor);
          if requested.None? || requested.value > revision {
            return Err(InvalidChangeCursor);
          }
          if entries != [] {
            var oldest := entries[0].revision;
            if requested.value < (if oldest == 0 then 0 else oldest - 1) {
              return Err(ChangeCursorExpired(oldest));
            }
          }
          replay := CollectNewer(requested.value);
      }
      var stream := new MemoryChangeStream(replay, tail, filter);
      r := Ok(stream);
    }

    method CollectNewer(requested: nat) returns (replay: seq<Change>)
      ensures replay == NewerThan(entries, requested)
    {
      replay := [];
      assert entries[0..] == entries;
      for i := 0 to |entries|
        invariant NewerThan(entries, requested) == replay + NewerThan(entries[i..], requested)
      {
        assert entries[i..][1..] == entries[i + 1..];
        if entries[i].revision > requested {
          replay := replay + [entries[i]];
        }
      }
    }
  }

  class MemoryChangeStream {
    var replay: seq<Change>
    var next: nat
    const filter: Filter

    function Model(): Stream
      reads this
    {
      Stream(replay, next, filter)
    }

    constructor (replay: seq<Change>, next: nat, filter: Filter)
      ensures Model() == Stream(replay, next, filter)
    {
      this.replay, this.next, this.filter := replay, next, filter;
    }

    /** The next matching record, or `Pending` where the code would wait. */
    method Recv(feed: MemoryFeed) returns (out: Received)
      modifies this
      ensures (out, Model()) == ChangeFeed.Recv(feed.Model(), old(Model()))
    {
      while true
        invariant ChangeFeed.Recv(feed.Model(), Model()) == ChangeFeed.Recv(feed.Model(), old(Model()))
        decreases |replay|, feed.tail - next
      {
        if replay != [] {
          var change := replay[0];
          replay := replay[1..];
          if filter.Matches(change) {
            return Delivered(change);
          }
        } else if next >= feed.tail {
          return Pending;
        } else if next + |feed.slots| < feed.tail {
          var oldest := feed.tail - |feed.slots|;
          var skipped := oldest - next;
          next := oldest;
          return Lagged(skipped);
        } else {
          var change := feed.slots[|feed.slots| - (feed.tail - next)];
          next := next + 1;
          if filter.Matches(change) {
            return Delivered(change);
          }
        }
      }
    }
  }
}
