/** The DuckDB store over an abstract table: every row holds an encoded entry and, beside it,
    a copy of the entry's expiry. */
module DuckDb {
  import opened Base
  import opened Utf8
  import opened Entries
  import opened Enumeration
  import opened Identities

  datatype Row = Row(entry: bytes, expiresAt: Option<DateTime>)

  type Table = map<Pair, Row>

  // --------------------------------------------------------------------- entries

  function RowOf(e: ManagedEntry): Row
    requires e.value.Sized()
  {
    Row(Encode(e), e.expiresAt)
  }

  function NewRow(now: DateTime, v: Value, expiresAt: Option<DateTime>): Row
    requires v.Sized()
  {
    RowOf(ManagedEntry(v, Some(now), expiresAt))
  }

  /** The entry of a row; the expiry beside it must be the same. */
  function DecodeEntry(row: Row): (r: Result<ManagedEntry>)
    ensures r.Err? ==> r.error == Deserialization
  {
    match Decode(row.entry)
    case Err(_) => Err(Deserialization)
    case Ok(e) => if e.expiresAt != row.expiresAt then Err(Deserialization) else Ok(e)
  }

  /** Every row can be read, so that the expiry beside every entry is the entry's own. */
  predicate Mirrored(table: Table) {
    forall k | k in table :: DecodeEntry(table[k]).Ok?
  }

  /** A written row reads back, unless its payload is not one its kind allows. */
  lemma WrittenRowReadsBack(e: ManagedEntry)
    requires e.value.Sized()
    ensures DecodeEntry(RowOf(e)) == if e.value.Readable() then Ok(e) else Err(Deserialization)
  {
    DecodeEncoded(e);
  }

  /** A readable row is the row some entry is written as: its two columns determine each
      other. */
  lemma ReadableRowIff(row: Row, e: ManagedEntry)
    ensures DecodeEntry(row) == Ok(e) <==> e.Encodable() && row == RowOf(e)
  {
    EntryCodecBijection(row.entry, e);
  }

  // --------------------------------------------------------------- one key at a time

  function GetOne(table: Table, k: Pair, now: DateTime): (Table, Result<Option<Value>>) {
    if k !in table then (table, Ok(None)) else
      match DecodeEntry(table[k])
      case Err(e) => (table, Err(e))
      case Ok(e) => if e.IsExpired(now) then (table - {k}, Ok(None)) else (table, Ok(Some(e.value)))
  }

  function GetLoop(table: Table, ks: seq<Pair>, now: DateTime): (Table, Result<seq<Option<Value>>>)
    decreases |ks|
  {
    if ks == [] then (table, Ok([])) else
      match GetOne(table, ks[0], now)
      case (t, Err(e)) => (t, Err(e))
      case (t, Ok(v)) =>
        match GetLoop(t, ks[1..], now)
        case (u, Err(e)) => (u, Err(e))
        case (u, Ok(vs)) => (u, Ok([v] + vs))
  }

  function Upsert(table: Table, k: Pair, v: Value, ttl: Option<int>, now: DateTime): Result<Table>
    requires v.Sized()
  {
    var expiresAt :- Expiry(now, ttl);
    Ok(table[k := NewRow(now, v, expiresAt)])
  }

  predicate AllSized(vs: seq<Value>) {
    forall i | 0 <= i < |vs| :: vs[i].Sized()
  }

  /** Puts one after the other; the last one for a key wins. */
  function PutLoop(table: Table, ks: seq<Pair>, vs: seq<Value>, ttl: Option<int>, now: DateTime): Result<Table>
    requires |ks| == |vs| && AllSized(vs)
    decreases |ks|
  {
    if ks == [] then Ok(table) else
      var before :- PutLoop(table, ks[..|ks| - 1], vs[..|vs| - 1], ttl, now);
      Upsert(before, ks[|ks| - 1], vs[|vs| - 1], ttl, now)
  }

  /** Deletes one after the other, counting the rows that were there. */
  function DeleteLoop(table: Table, ks: seq<Pair>): (Table, nat)
    decreases |ks|
  {
    if ks == [] then (table, 0) else
      var (rest, n) := DeleteLoop(table - {ks[0]}, ks[1..]);
      (rest, n + if ks[0] in table then 1 else 0)
  }

  // -------------------------------------------------------------------- expired rows

  predicate ExpiredRow(table: Table, k: Pair, now: DateTime) {
    k in table && DecodeEntry(table[k]).Ok? && DecodeEntry(table[k]).value.IsExpired(now)
  }

  /** The table without the expired rows among some keys. */
  function WithoutExpired(table: Table, ks: set<Pair>, now: DateTime): Table {
    map k | k in table && !(k in ks && ExpiredRow(table, k, now)) :: table[k]
  }

  /** The rows whose expiry column says they are over. */
  function Due(table: Table, now: DateTime): set<Pair> {
    set k | k in table && table[k].expiresAt.Some? && table[k].expiresAt.value <= now
  }

  predicate ReadableAmong(table: Table, ks: set<Pair>) {
    forall k | k in ks && k in table :: DecodeEntry(table[k]).Ok?
  }

  function LiveValue(table: Table, k: Pair, now: DateTime): Option<Value> {
    if k in table && DecodeEntry(table[k]).Ok? && !ExpiredRow(table, k, now) then Some(DecodeEntry(table[k]).value.value)
    else None
  }

  function LiveValues(table: Table, ks: seq<Pair>, now: DateTime): (r: seq<Option<Value>>)
    ensures |r| == |ks| && forall i | 0 <= i < |ks| :: r[i] == LiveValue(table, ks[i], now)
  {
    seq(|ks|, i requires 0 <= i < |ks| => LiveValue(table, ks[i], now))
  }

  /** Dropping expired rows changes nothing that is read now or later. */
  lemma DroppingIsInvisible(table: Table, ks: set<Pair>, now: DateTime, later: DateTime, k: Pair)
    requires now <= later
    ensures LiveValue(WithoutExpired(table, ks, now), k, later) == LiveValue(table, k, later)
    ensures Mirrored(table) ==> Mirrored(WithoutExpired(table, ks, now))
  {
  }

  lemma GetOneDrops(table: Table, k: Pair, now: DateTime)
    requires ReadableAmong(table, {k})
    ensures GetOne(table, k, now) == (WithoutExpired(table, {k}, now), Ok(LiveValue(table, k, now)))
  {
    if ExpiredRow(table, k, now) {
      assert table - {k} == WithoutExpired(table, {k}, now);
    } else {
      assert k in {k};
      assert table == WithoutExpired(table, {k}, now);
    }
  }

  lemma DropCompose(table: Table, a: set<Pair>, b: set<Pair>, now: DateTime)
    ensures WithoutExpired(WithoutExpired(table, a, now), b, now) == WithoutExpired(table, a + b, now)
  {
  }

  /** When the requested rows can be read, the loop of single reads gives the live values in
      request order and drops the expired rows among them: which is what the batch does. */
  lemma {:induction false} GetLoopIsTheBatch(table: Table, ks: seq<Pair>, now: DateTime)
    requires ReadableAmong(table, Elements(ks))
    ensures GetLoop(table, ks, now) == (WithoutExpired(table, Elements(ks), now), Ok(LiveValues(table, ks, now)))
    decreases |ks|
  {
    if ks == [] {
      assert WithoutExpired(table, Elements(ks), now) == table;
    } else {
      var k, rest := ks[0], ks[1..];
      ElementsCons(ks);
      GetOneDrops(table, k, now);
      var t := WithoutExpired(table, {k}, now);
      assert ReadableAmong(t, Elements(rest));
      GetLoopIsTheBatch(t, rest, now);
      DropCompose(table, {k}, Elements(rest), now);
      forall i | 0 <= i < |rest| ensures LiveValue(t, rest[i], now) == LiveValue(table, ks[i + 1], now) {
        DroppingIsInvisible(table, {k}, now, now, rest[i]);
      }
      assert LiveValues(table, ks, now) == [LiveValue(table, k, now)] + LiveValues(t, rest, now);
    }
  }

  // ---------------------------------------------------------------------- last wins

  /** The position of the last put for a key. */
  function LastIndex(ks: seq<Pair>, k: Pair): (i: nat)
    requires k in ks
    ensures i < |ks| && ks[i] == k && forall j | i < j < |ks| :: ks[j] != k
    decreases |ks|
  {
    if ks[|ks| - 1] == k then |ks| - 1 else
      assert ks == ks[..|ks| - 1] + [ks[|ks| - 1]];
      LastIndex(ks[..|ks| - 1], k)
  }

  /** The row of the last put for a key. */
  function LastRow(ks: seq<Pair>, vs: seq<Value>, now: DateTime, expiresAt: Option<DateTime>, k: Pair): Row
    requires |ks| == |vs| && AllSized(vs) && k in ks
  {
    NewRow(now, vs[LastIndex(ks, k)], expiresAt)
  }

  function LastRows(ks: seq<Pair>, vs: seq<Value>, now: DateTime, expiresAt: Option<DateTime>): Table
    requires |ks| == |vs| && AllSized(vs)
  {
    map k | k in ks :: LastRow(ks, vs, now, expiresAt, k)
  }

  /** Sequential puts fail exactly when the TTL is refused and there is something to put, and
      otherwise leave for every key the row of its last put: no order enters into it. */
  lemma {:induction false} PutLoopLastWins(table: Table, ks: seq<Pair>, vs: seq<Value>, ttl: Option<int>, now: DateTime)
    requires |ks| == |vs| && AllSized(vs)
    ensures PutLoop(table, ks, vs, ttl, now) == match Expiry(now, ttl)
                                                case Ok(at) => Ok(table + LastRows(ks, vs, now, at))
                                                case Err(e) => if ks == [] then Ok(table) else Err(e)
    decreases |ks|
  {
    if ks == [] {
      assert Expiry(now, ttl).Ok? ==> table + LastRows(ks, vs, now, Expiry(now, ttl).value) == table;
    } else {
      PutLoopLastWins(table, ks[..|ks| - 1], vs[..|vs| - 1], ttl, now);
      if Expiry(now, ttl).Ok? {
        LastRowsSnoc(table, ks, vs, now, Expiry(now, ttl).value);
      }
    }
  }

  /** How long a put is read back, by its own TTL: until it has passed, and forever without
      one. A TTL is refused exactly when it is not positive or goes beyond the last instant. */
  lemma PutLivesUntil(table: Table, k: Pair, v: Value, ttl: Option<int>, now: DateTime, later: DateTime, j: Pair)
    requires v.Sized() && v.Readable() && now <= later
    ensures var r := Upsert(table, k, v, ttl, now);
            && (r.Ok? <==> ttl.Some? ==> 0 < ttl.value && now + ttl.value <= 8_210_266_876_799_999)
            && (r.Ok? ==>
                  && GetOne(r.value, k, later).1 == Ok(if ttl.Some? && now + ttl.value <= later then None else Some(v))
                  && (j != k ==> GetOne(r.value, j, later).1 == GetOne(table, j, later).1))
  {
    if Expiry(now, ttl).Ok? {
      WrittenRowReadsBack(ManagedEntry(v, Some(now), Expiry(now, ttl).value));
    }
  }

  /** The same for a batch: it is the last put for a key that is read back. */
  lemma BatchLivesUntil(table: Table, ks: seq<Pair>, vs: seq<Value>, ttl: Option<int>, now: DateTime, later: DateTime, i: nat)
    requires |ks| == |vs| && AllSized(vs) && now <= later
    requires i < |ks| && vs[i].Readable() && forall j | i < j < |ks| :: ks[j] != ks[i]
    ensures var r := PutLoop(table, ks, vs, ttl, now);
            && (r.Ok? <==> ttl.Some? ==> 0 < ttl.value && now + ttl.value <= 8_210_266_876_799_999)
            && (r.Ok? ==> GetOne(r.value, ks[i], later).1 == Ok(if ttl.Some? && now + ttl.value <= later then None else Some(vs[i])))
  {
    PutLoopLastWins(table, ks, vs, ttl, now);
    assert LastIndex(ks, ks[i]) == i;
    if Expiry(now, ttl).Ok? {
      WrittenRowReadsBack(ManagedEntry(vs[i], Some(now), Expiry(now, ttl).value));
    }
  }

  lemma LastRowSnoc(ks: seq<Pair>, vs: seq<Value>, now: DateTime, at: Option<DateTime>, k: Pair)
    requires |ks| == |vs| && AllSized(vs) && ks != []
    ensures var front, last := ks[..|ks| - 1], ks[|ks| - 1];
            && (k in ks <==> k == last || k in front)
            && (k == last ==> LastRow(ks, vs, now, at, k) == NewRow(now, vs[|vs| - 1], at))
            && (k != last && k in front ==> LastRow(ks, vs, now, at, k) == LastRow(front, vs[..|vs| - 1], now, at, k))
  {
    assert ks == ks[..|ks| - 1] + [ks[|ks| - 1]];
  }

  lemma OverrideSnoc(table: Table, more: Table, fewer: Table, last: Pair, row: Row)
    requires forall k :: k in more <==> k == last || k in fewer
    requires more[last] == row && forall k | k in fewer && k != last :: more[k] == fewer[k]
    ensures table + more == (table + fewer)[last := row]
  {
  }

  lemma LastRowsSnoc(table: Table, ks: seq<Pair>, vs: seq<Value>, now: DateTime, at: Option<DateTime>)
    requires |ks| == |vs| && AllSized(vs) && ks != []
    ensures table + LastRows(ks, vs, now, at)
            == (table + LastRows(ks[..|ks| - 1], vs[..|vs| - 1], now, at))[ks[|ks| - 1] := NewRow(now, vs[|vs| - 1], at)]
  {
    var front, last, row := ks[..|ks| - 1], ks[|ks| - 1], NewRow(now, vs[|vs| - 1], at);
    var more, fewer := LastRows(ks, vs, now, at), LastRows(front, vs[..|vs| - 1], now, at);
    forall k
      ensures k in more <==> k == last || k in fewer
      ensures k == last ==> k in more && more[k] == row
      ensures k in fewer && k != last ==> more[k] == fewer[k]
    {
      LastRowSnoc(ks, vs, now, at, k);
    }
    OverrideSnoc(table, more, fewer, last, row);
  }

  /** A readable table stays readable under a batch of puts exactly when, for every key, the
      last value put can be read. */
  lemma PutsStayMirroredIff(table: Table, ks: seq<Pair>, vs: seq<Value>, now: DateTime, at: Option<DateTime>)
    requires |ks| == |vs| && AllSized(vs) && Mirrored(table)
    ensures Mirrored(table + LastRows(ks, vs, now, at)) <==> LastReadable(ks, vs)
  {
    var after := table + LastRows(ks, vs, now, at);
    forall k | k in ks ensures DecodeEntry(after[k]).Ok? <==> vs[LastIndex(ks, k)].Readable() {
      WrittenRowReadsBack(ManagedEntry(vs[LastIndex(ks, k)], Some(now), at));
    }
    if Mirrored(after) {
      forall k | k in ks ensures vs[LastIndex(ks, k)].Readable() {
        assert DecodeEntry(after[k]).Ok?;
      }
    }
  }

  predicate LastReadable(ks: seq<Pair>, vs: seq<Value>)
    requires |ks| == |vs|
  {
    forall k | k in ks :: vs[LastIndex(ks, k)].Readable()
  }

  // ------------------------------------------------------------------------ deletes

  /** Sequential deletes count every distinct key that has a row once. */
  lemma {:induction false} DeleteLoopCountsDistinct(table: Table, ks: seq<Pair>)
    ensures DeleteLoop(table, ks) == (table - Elements(ks), |table.Keys * Elements(ks)|)
    decreases |ks|
  {
    if ks == [] {
      NothingDeleted(table, Elements(ks));
    } else {
      DeleteLoopCountsDistinct(table - {ks[0]}, ks[1..]);
      ElementsCons(ks);
      DeleteOneMore(table, Elements(ks[1..]), ks[0]);
    }
  }
}
