/** Whole runs of the DuckDB store: single and batch operations and culls at rising times,
    against a plain map of entries from which nothing expired is ever dropped. */
module DuckDbRuns {
  import opened Base
  import opened Entries
  import opened Enumeration
  import opened Identities
  import opened EntryMaps
  import opened DuckDb

  datatype Step =
    | Put(k: Pair, v: Value, ttl: Option<int>)
    | PutMany(ks: seq<Pair>, vs: seq<Value>, ttl: Option<int>)
    | Delete(k: Pair)
    | DeleteMany(ks: seq<Pair>)
    | Get(k: Pair)
    | GetMany(ks: seq<Pair>)
    | Cull

  predicate ValidStep(step: Step) {
    match step
    case Put(_, v, _) => v.Sized()
    case PutMany(ks, vs, _) => |ks| == |vs| && AllSized(vs)
    case _ => true
  }

  // ------------------------------------------------------------------ the two sides

  /** What the store's operation leaves behind; one that fails changes nothing. A batch read
      fails on an unreadable row among those asked for, a cull on one among those due. */
  function OnTable(table: Table, now: DateTime, step: Step): Table
    requires ValidStep(step)
  {
    match step
    case Put(k, v, ttl) => (match Upsert(table, k, v, ttl, now) case Ok(t) => t case Err(_) => table)
    case PutMany(ks, vs, ttl) => (match PutLoop(table, ks, vs, ttl, now) case Ok(t) => t case Err(_) => table)
    case Delete(k) => table - {k}
    case DeleteMany(ks) => DeleteLoop(table, ks).0
    case Get(k) => GetOne(table, k, now).0
    case GetMany(ks) => if ReadableAmong(table, Elements(ks)) then GetLoop(table, ks, now).0 else table
    case Cull => if ReadableAmong(table, Due(table, now)) then WithoutExpired(table, table.Keys, now) else table
  }

  function EntriesPut(m: EntryMap, ks: seq<Pair>, vs: seq<Value>, now: DateTime, ttl: Option<int>): EntryMap
    requires |ks| == |vs| && TtlAccepted(now, ttl)
    decreases |ks|
  {
    if ks == [] then m else
      EntriesPut(m, ks[..|ks| - 1], vs[..|vs| - 1], now, ttl)[ks[|ks| - 1] := Written(now, vs[|vs| - 1], ttl)]
  }

  function OnMap(m: EntryMap, now: DateTime, step: Step): EntryMap
    requires ValidStep(step)
  {
    match step
    case Put(k, v, ttl) => if TtlAccepted(now, ttl) then m[k := Written(now, v, ttl)] else m
    case PutMany(ks, vs, ttl) => if TtlAccepted(now, ttl) then EntriesPut(m, ks, vs, now, ttl) else m
    case Delete(k) => m - {k}
    case DeleteMany(ks) => m - Elements(ks)
    case _ => m
  }

  function Reads(m: EntryMap, ks: seq<Pair>, now: DateTime): (r: seq<Option<Value>>)
    requires forall i | 0 <= i < |ks| && ks[i] in m :: m[ks[i]].value.Readable()
    ensures |r| == |ks| && forall i | 0 <= i < |ks| :: Ok(r[i]) == Read(m, ks[i], now, Deserialization)
  {
    seq(|ks|, i requires 0 <= i < |ks| => Read(m, ks[i], now, Deserialization).value)
  }

  type Timed = (DateTime, Step)

  predicate ValidSteps(steps: seq<Timed>)
    decreases |steps|
  {
    steps == [] || (ValidStep(steps[0].1) && ValidSteps(steps[1..]))
  }

  function TableRun(table: Table, now: DateTime, steps: seq<Timed>): (Table, DateTime)
    requires ValidSteps(steps)
    decreases |steps|
  {
    if steps == [] then (table, now) else
      TableRun(OnTable(table, steps[0].0, steps[0].1), steps[0].0, steps[1..])
  }

  function MapRun(m: EntryMap, now: DateTime, steps: seq<Timed>): EntryMap
    requires ValidSteps(steps)
    decreases |steps|
  {
    if steps == [] then m else MapRun(OnMap(m, steps[0].0, steps[0].1), steps[0].0, steps[1..])
  }

  // --------------------------------------------------------------------- simulation

  predicate SameRead(table: Table, m: EntryMap, k: Pair, later: DateTime) {
    GetOne(table, k, later).1 == Read(m, k, later, Deserialization)
  }

  /** Both sides read the same now and at any later time, errors included. */
  ghost predicate Simulates(table: Table, m: EntryMap, now: DateTime) {
    forall k: Pair, later: DateTime | now <= later :: SameRead(table, m, k, later)
  }

  lemma PutSimulates(table: Table, m: EntryMap, now: DateTime, k: Pair, v: Value, at: Option<DateTime>)
    requires Simulates(table, m, now) && v.Sized()
    ensures Simulates(table[k := NewRow(now, v, at)], m[k := ManagedEntry(v, Some(now), at)], now)
  {
    var e := ManagedEntry(v, Some(now), at);
    WrittenRowReadsBack(e);
    var after, written := table[k := NewRow(now, v, at)], m[k := e];
    forall j: Pair, later: DateTime | now <= later ensures SameRead(after, written, j, later) {
      assert SameRead(table, m, j, later);
    }
  }

  lemma {:induction false} PutManySimulates(table: Table, m: EntryMap, now: DateTime, ks: seq<Pair>, vs: seq<Value>, ttl: Option<int>)
    requires Simulates(table, m, now) && |ks| == |vs| && AllSized(vs) && TtlAccepted(now, ttl)
    ensures PutLoop(table, ks, vs, ttl, now).Ok?
    ensures Simulates(PutLoop(table, ks, vs, ttl, now).value, EntriesPut(m, ks, vs, now, ttl), now)
    decreases |ks|
  {
    if ks != [] {
      var front, first := ks[..|ks| - 1], vs[..|vs| - 1];
      PutManySimulates(table, m, now, front, first, ttl);
      PutSimulates(PutLoop(table, front, first, ttl, now).value, EntriesPut(m, front, first, now, ttl),
                   now, ks[|ks| - 1], vs[|vs| - 1], Expiry(now, ttl).value);
    }
  }

  lemma RemoveSimulates(table: Table, m: EntryMap, now: DateTime, ks: set<Pair>)
    requires Simulates(table, m, now)
    ensures Simulates(table - ks, m - ks, now)
  {
    forall k: Pair, later: DateTime | now <= later ensures SameRead(table - ks, m - ks, k, later) {
      assert SameRead(table, m, k, later);
    }
  }

  lemma DropSimulates(table: Table, m: EntryMap, now: DateTime, ks: set<Pair>)
    requires Simulates(table, m, now)
    ensures Simulates(WithoutExpired(table, ks, now), m, now)
  {
    forall k: Pair, later: DateTime | now <= later ensures SameRead(WithoutExpired(table, ks, now), m, k, later) {
      assert SameRead(table, m, k, later);
    }
  }

  lemma GetOneSimulates(table: Table, m: EntryMap, now: DateTime, k: Pair)
    requires Simulates(table, m, now)
    ensures Simulates(GetOne(table, k, now).0, m, now)
  {
    if ReadableAmong(table, {k}) {
      GetOneDrops(table, k, now);
      DropSimulates(table, m, now, {k});
    }
  }

  lemma OnePutSimulates(table: Table, m: EntryMap, now: DateTime, step: Step)
    requires Simulates(table, m, now) && step.Put? && ValidStep(step)
    ensures Simulates(OnTable(table, now, step), OnMap(m, now, step), now)
  {
    var Put(k, v, ttl) := step;
    if TtlAccepted(now, ttl) {
      assert Written(now, v, ttl) == ManagedEntry(v, Some(now), Expiry(now, ttl).value);
      PutSimulates(table, m, now, k, v, Expiry(now, ttl).value);
    }
  }

  lemma StepSimulates(table: Table, m: EntryMap, now: DateTime, step: Step)
    requires Simulates(table, m, now) && ValidStep(step)
    ensures Simulates(OnTable(table, now, step), OnMap(m, now, step), now)
  {
    match step
    case Put(_, _, _) => OnePutSimulates(table, m, now, step);
    case PutMany(ks, vs, ttl) =>
      if TtlAccepted(now, ttl) {
        PutManySimulates(table, m, now, ks, vs, ttl);
      } else {
        PutLoopLastWins(table, ks, vs, ttl, now);
      }
    case Delete(k) => RemoveSimulates(table, m, now, {k});
    case DeleteMany(ks) =>
      DeleteLoopCountsDistinct(table, ks);
      RemoveSimulates(table, m, now, Elements(ks));
    case Get(k) => GetOneSimulates(table, m, now, k);
    case GetMany(ks) =>
      if ReadableAmong(table, Elements(ks)) {
        GetLoopIsTheBatch(table, ks, now);
        DropSimulates(table, m, now, Elements(ks));
      }
    case Cull => DropSimulates(table, m, now, table.Keys);
  }

  /** What is dropped along the way: a cull drops exactly the expired rows when those that are due
      can be read, a read those of its keys when they can be read; a refusal drops nothing. */
  lemma ExpiredRowsAreDropped(table: Table, now: DateTime, k: Pair, ks: seq<Pair>)
    ensures var after := OnTable(table, now, Cull);
            if forall j | j in table && table[j].expiresAt.Some? && table[j].expiresAt.value <= now :: DecodeEntry(table[j]).Ok?
            then k in after <==> k in table && !(DecodeEntry(table[k]).Ok? && DecodeEntry(table[k]).value.IsExpired(now))
            else after == table
    ensures var after := OnTable(table, now, GetMany(ks));
            if forall j | j in ks && j in table :: DecodeEntry(table[j]).Ok?
            then k in after <==> k in table && !(k in ks && DecodeEntry(table[k]).value.IsExpired(now))
            else after == table
  {
    if ReadableAmong(table, Elements(ks)) {
      GetLoopIsTheBatch(table, ks, now);
    }
    assert (forall j | j in ks && j in table :: DecodeEntry(table[j]).Ok?) <==> ReadableAmong(table, Elements(ks));
    assert (forall j | j in table && table[j].expiresAt.Some? && table[j].expiresAt.value <= now :: DecodeEntry(table[j]).Ok?)
           <==> ReadableAmong(table, Due(table, now));
  }

  lemma {:induction false} RunSimulates(table: Table, m: EntryMap, now: DateTime, steps: seq<Timed>)
    requires Simulates(table, m, now) && Rising(now, steps) && ValidSteps(steps)
    ensures var (end, time) := TableRun(table, now, steps); Simulates(end, MapRun(m, now, steps), time)
    decreases |steps|
  {
    if steps != [] {
      var (time, step) := steps[0];
      assert Simulates(table, m, time);
      StepSimulates(table, m, time, step);
      RunSimulates(OnTable(table, time, step), OnMap(m, time, step), time, steps[1..]);
    }
  }

  /** The DuckDB store is a map of entries: after any run of single and batch operations and
      culls on an empty table, every read gives what a map that drops nothing gives, errors
      included, and a batch read succeeds exactly when every entry asked for can be read. */
  lemma DuckDbRefinesMap(now: DateTime, steps: seq<Timed>, k: Pair, ks: seq<Pair>, later: DateTime)
    requires Rising(now, steps) && ValidSteps(steps)
    ensures var (table, time) := TableRun(map[], now, steps);
            var m := MapRun(map[], now, steps);
            time <= later ==>
              && GetOne(table, k, later).1 == Read(m, k, later, Deserialization)
              && (ReadableAmong(table, Elements(ks)) <==> forall i | 0 <= i < |ks| && ks[i] in m :: m[ks[i]].value.Readable())
              && (ReadableAmong(table, Elements(ks)) ==> GetLoop(table, ks, later).1 == Ok(Reads(m, ks, later)))
  {
    RunSimulates(map[], map[], now, steps);
    var (table, time) := TableRun(map[], now, steps);
    var m := MapRun(map[], now, steps);
    if time <= later {
      assert SameRead(table, m, k, later);
      forall i | 0 <= i < |ks|
        ensures (ks[i] in table ==> DecodeEntry(table[ks[i]]).Ok?) <==> (ks[i] in m ==> m[ks[i]].value.Readable())
      {
        assert SameRead(table, m, ks[i], later);
      }
      ReadableIndices(table, ks);
      if ReadableAmong(table, Elements(ks)) {
        BatchReads(table, m, ks, later);
      }
    }
  }

  lemma ReadableIndices(table: Table, ks: seq<Pair>)
    ensures ReadableAmong(table, Elements(ks)) <==> forall i | 0 <= i < |ks| :: ks[i] in table ==> DecodeEntry(table[ks[i]]).Ok?
  {
    assert forall i | 0 <= i < |ks| :: ks[i] in Elements(ks);
  }

  lemma BatchReads(table: Table, m: EntryMap, ks: seq<Pair>, later: DateTime)
    requires ReadableAmong(table, Elements(ks)) && forall k :: SameRead(table, m, k, later)
    requires forall i | 0 <= i < |ks| && ks[i] in m :: m[ks[i]].value.Readable()
    ensures GetLoop(table, ks, later).1 == Ok(Reads(m, ks, later))
  {
    GetLoopIsTheBatch(table, ks, later);
    forall i | 0 <= i < |ks| ensures Ok(LiveValue(table, ks[i], later)) == Read(m, ks[i], later, Deserialization) {
      assert ks[i] in Elements(ks);
      assert SameRead(table, m, ks[i], later);
    }
    assert LiveValues(table, ks, later) == Reads(m, ks, later);
  }
}
