/** The DuckDB store's operations over a table changed in place. Query results and hash maps
    are visited in an arbitrary order. */
module DuckDbImpl {
  import opened Base
  import opened Utf8
  import opened Entries
  import opened Enumeration
  import opened Identities
  import opened DuckDb

  class DuckDbStore {
    var table: Table

    constructor (table: Table)
      ensures this.table == table
    {
      this.table := table;
    }

    /** `DELETE … WHERE` key, entry and expiry are still what was read. */
    method DeleteUnchanged(k: Pair, row: Row)
      modifies this
      ensures table == if k in old(table) && old(table)[k] == row then old(table) - {k} else old(table)
    {
      if k in table && table[k] == row {
        table := table - {k};
      }
    }

    method Get(k: Pair, now: DateTime) returns (r: Result<Option<Value>>)
      modifies this
      ensures (table, r) == GetOne(old(table), k, now)
      ensures Mirrored(old(table)) ==> Mirrored(table)
    {
      if k !in table {
        return Ok(None);
      }
      var row := table[k];
      var entry := DecodeEntry(row);
      if entry.Err? {
        return Err(entry.error);
      }
      if entry.value.IsExpired(now) {
        DeleteUnchanged(k, row);
        return Ok(None);
      }
      r := Ok(Some(entry.value.value));
    }

    /** Reads the requested rows: the live values, and the expired rows as they were read. */
    method ReadRows(requested: set<Pair>, now: DateTime) returns (r: Result<(map<Pair, Value>, seq<(Pair, Row)>)>)
      ensures r.Ok? <==> ReadableAmong(table, requested)
      ensures r.Ok? ==> forall k | k in requested :: LiveValue(table, k, now) == if k in r.value.0 then Some(r.value.0[k]) else None
      ensures r.Ok? ==> ListsExpired(table, requested, now, r.value.1)
    {
      var values: map<Pair, Value> := map[];
      var expired: seq<(Pair, Row)> := [];
      var rest := set k | k in table && k in requested;
      ghost var rows := rest;
      while rest != {}
        invariant rest <= rows
        invariant forall k | k in rows - rest :: DecodeEntry(table[k]).Ok?
        invariant forall k :: k in values <==> k in rows - rest && LiveValue(table, k, now).Some?
        invariant forall k | k in values :: LiveValue(table, k, now) == Some(values[k])
        invariant ListsExpired(table, rows - rest, now, expired)
        decreases rest
      {
        var k :| k in rest;
        var entry := DecodeEntry(table[k]);
        if entry.Err? {
          assert k in requested && k in table;
          return Err(entry.error);
        }
        if entry.value.IsExpired(now) {
          ListsOneMore(table, rows - rest, now, expired, k);
          expired := expired + [(k, table[k])];
        } else {
          values := values[k := entry.value.value];
        }
        assert rows - (rest - {k}) == (rows - rest) + {k};
        rest := rest - {k};
      }
      assert rows - {} == rows;
      r := Ok((values, expired));
    }

    method DeleteRows(expired: seq<(Pair, Row)>, requested: set<Pair>, now: DateTime)
      requires ListsExpired(table, requested, now, expired)
      modifies this
      ensures table == WithoutExpired(old(table), requested, now)
    {
      ghost var before := table;
      for i := 0 to |expired|
        invariant forall k :: k in table <==> k in before && !ListedBefore(expired, i, k)
        invariant forall k | k in table :: table[k] == before[k]
      {
        DeleteUnchanged(expired[i].0, expired[i].1);
        forall k ensures ListedBefore(expired, i + 1, k) <==> ListedBefore(expired, i, k) || k == expired[i].0 {
        }
      }
    }

    /** A batch read is the loop of single reads over the requested keys; if one row cannot be
        read nothing is dropped. */
    method GetMany(ks: seq<Pair>, now: DateTime) returns (r: Result<seq<Option<Value>>>)
      modifies this
      ensures r.Ok? <==> ReadableAmong(old(table), Elements(ks))
      ensures r.Ok? ==> (table, r) == GetLoop(old(table), ks, now)
      ensures r.Err? ==> table == old(table)
      ensures Mirrored(old(table)) ==> Mirrored(table)
    {
      if ReadableAmong(table, Elements(ks)) {
        GetLoopIsTheBatch(table, ks, now);
      }
      if ks == [] {
        return Ok([]);
      }
      var read := ReadRows(Elements(ks), now);
      if read.Err? {
        return Err(read.error);
      }
      var (values, expired) := read.value;
      ghost var before := table;
      DeleteRows(expired, Elements(ks), now);
      r := Ok(seq(|ks|, i requires 0 <= i < |ks| => if ks[i] in values then Some(values[ks[i]]) else None));
      assert r.value == LiveValues(before, ks, now);
    }

    method Put(k: Pair, v: Value, ttl: Option<int>, now: DateTime) returns (r: Result<()>)
      requires v.Sized()
      modifies this
      ensures match Upsert(old(table), k, v, ttl, now)
              case Ok(after) => r == Ok(()) && table == after
              case Err(e) => r == Err(e) && table == old(table)
      ensures Mirrored(old(table)) ==> (Mirrored(table) <==> r.Err? || v.Readable())
    {
      var at := Expiry(now, ttl);
      if at.Err? {
        return Err(at.error);
      }
      WrittenRowReadsBack(ManagedEntry(v, Some(now), at.value));
      table := table[k := NewRow(now, v, at.value)];
      assert table[k] == NewRow(now, v, at.value);
      r := Ok(());
    }

    /** The position of each key's last occurrence. */
    method LastIndices(ks: seq<Pair>) returns (last: map<Pair, nat>)
      ensures last.Keys == Elements(ks) && forall k | k in last :: last[k] == LastIndex(ks, k)
    {
      last := map[];
      for i := 0 to |ks|
        invariant last.Keys == Elements(ks[..i]) && forall k | k in last :: last[k] == LastIndex(ks[..i], k)
      {
        ElementsSnoc(ks, i);
        assert ks[..i + 1][..i] == ks[..i];
        last := last[ks[i] := i];
      }
      assert ks[..|ks|] == ks;
    }

    /** The transaction of a batch write: what it will commit. */
    method WithLastRows(ks: seq<Pair>, vs: seq<Value>, now: DateTime, at: Option<DateTime>) returns (pending: Table)
      requires |ks| == |vs| && AllSized(vs)
      ensures pending == table + LastRows(ks, vs, now, at)
    {
      var last := LastIndices(ks);
      pending := table;
      var rest := last.Keys;
      ghost var all := LastRows(ks, vs, now, at);
      NoneWritten(table, all);
      assert all.Keys == rest;
      while rest != {}
        invariant rest <= last.Keys && PartlyWritten(table, all, rest, pending)
        decreases rest
      {
        var k :| k in rest;
        var row := NewRow(now, vs[last[k]], at);
        LastRowIs(ks, vs, now, at, k, last[k]);
        OneMoreWritten(table, all, rest, pending, k);
        pending := pending[k := row];
        rest := rest - {k};
      }
      AllWritten(table, all, pending);
    }

    /** A batch write is the loop of single writes, whatever order the hash map of last
        positions is visited in. */
    method PutMany(ks: seq<Pair>, vs: seq<Value>, ttl: Option<int>, now: DateTime) returns (r: Result<()>)
      requires AllSized(vs)
      modifies this
      ensures |ks| != |vs| ==> r == Err(BatchSizeMismatch(|ks|, |vs|)) && table == old(table)
      ensures |ks| == |vs| && Expiry(now, ttl).Err? ==> r == Err(InvalidTtl) && table == old(table)
      ensures |ks| == |vs| && Expiry(now, ttl).Ok? ==> r == Ok(()) && Ok(table) == PutLoop(old(table), ks, vs, ttl, now)
      ensures Mirrored(old(table)) ==> (Mirrored(table) <==> r.Err? || LastReadable(ks, vs))
    {
      if |ks| != |vs| {
        return Err(BatchSizeMismatch(|ks|, |vs|));
      }
      var at := Expiry(now, ttl);
      if at.Err? {
        return Err(at.error);
      }
      PutLoopLastWins(table, ks, vs, ttl, now);
      if Mirrored(table) {
        PutsStayMirroredIff(table, ks, vs, now, at.value);
      }
      if ks == [] {
        return Ok(());
      }
      var pending := WithLastRows(ks, vs, now, at.value);
      table := pending;
      r := Ok(());
    }

    method Delete(k: Pair) returns (existed: bool)
      modifies this
      ensures table == old(table) - {k} && existed == (k in old(table))
      ensures Mirrored(old(table)) ==> Mirrored(table)
    {
      existed := k in table;
      table := table - {k};
    }

    /** A batch delete is the loop of single deletes, and counts what it counts. */
    method DeleteMany(ks: seq<Pair>) returns (count: nat)
      modifies this
      ensures (table, count) == DeleteLoop(old(table), ks)
      ensures Mirrored(old(table)) ==> Mirrored(table)
    {
      DeleteLoopCountsDistinct(table, ks);
      if ks == [] {
        return 0;
      }
      var unique := Elements(ks);
      count := |table.Keys * unique|;
      table := table - unique;
    }

    /** Drops every expired row, or nothing when one of the rows due cannot be read. */
    method Cull(now: DateTime) returns (r: Result<()>)
      modifies this
      ensures r.Ok? <==> ReadableAmong(old(table), Due(old(table), now))
      ensures r.Ok? ==> table == WithoutExpired(old(table), old(table).Keys, now)
      ensures r.Err? ==> table == old(table)
      ensures Mirrored(old(table)) ==> Mirrored(table)
    {
      DueIsExpired(table, now);
      var expired := ReadDue(Due(table, now), now);
      if expired.Err? {
        return Err(expired.error);
      }
      DeleteRows(expired.value, Due(table, now), now);
      r := Ok(());
    }

    method ReadDue(due: set<Pair>, now: DateTime) returns (r: Result<seq<(Pair, Row)>>)
      requires due <= table.Keys && forall k | k in due && DecodeEntry(table[k]).Ok? :: ExpiredRow(table, k, now)
      ensures r.Ok? <==> ReadableAmong(table, due)
      ensures r.Ok? ==> ListsExpired(table, due, now, r.value)
    {
      var expired: seq<(Pair, Row)> := [];
      var rest := due;
      while rest != {}
        invariant rest <= due
        invariant forall k | k in due - rest :: DecodeEntry(table[k]).Ok?
        invariant ListsExpired(table, due - rest, now, expired)
        decreases rest
      {
        var k :| k in rest;
        var entry := DecodeEntry(table[k]);
        if entry.Err? {
          return Err(entry.error);
        }
        ListsOneMore(table, due - rest, now, expired, k);
        expired := expired + [(k, table[k])];
        assert due - (rest - {k}) == (due - rest) + {k};
        rest := rest - {k};
      }
      assert due - {} == due;
      r := Ok(expired);
    }
  }

  /** All new rows are written except those of the keys in `rest`. */
  ghost predicate PartlyWritten(table: Table, all: Table, rest: set<Pair>, pending: Table) {
    && rest <= all.Keys
    && (forall k :: k in pending <==> k in table || k in all.Keys - rest)
    && (forall k | k in pending :: pending[k] == if k in all.Keys - rest then all[k] else table[k])
  }

  lemma NoneWritten(table: Table, all: Table)
    ensures PartlyWritten(table, all, all.Keys, table)
  {
  }

  lemma OneMoreWritten(table: Table, all: Table, rest: set<Pair>, pending: Table, k: Pair)
    requires PartlyWritten(table, all, rest, pending) && k in rest
    ensures PartlyWritten(table, all, rest - {k}, pending[k := all[k]])
  {
  }

  lemma AllWritten(table: Table, all: Table, pending: Table)
    requires PartlyWritten(table, all, {}, pending)
    ensures pending == table + all
  {
  }

  lemma LastRowIs(ks: seq<Pair>, vs: seq<Value>, now: DateTime, at: Option<DateTime>, k: Pair, index: nat)
    requires |ks| == |vs| && AllSized(vs) && k in ks && index == LastIndex(ks, k)
    ensures k in LastRows(ks, vs, now, at) && LastRows(ks, vs, now, at)[k] == NewRow(now, vs[index], at)
  {
  }

  predicate ListedBefore(expired: seq<(Pair, Row)>, n: nat, k: Pair)
    requires n <= |expired|
  {
    exists i | 0 <= i < n :: expired[i].0 == k
  }

  /** Exactly the expired rows among `ks`, as they stand in the table. */
  ghost predicate ListsExpired(table: Table, ks: set<Pair>, now: DateTime, expired: seq<(Pair, Row)>) {
    && (forall i | 0 <= i < |expired| :: expired[i].0 in table && table[expired[i].0] == expired[i].1)
    && (forall k :: ListedBefore(expired, |expired|, k) <==> k in ks && ExpiredRow(table, k, now))
  }

  lemma ListsOneMore(table: Table, ks: set<Pair>, now: DateTime, expired: seq<(Pair, Row)>, k: Pair)
    requires ListsExpired(table, ks, now, expired) && ExpiredRow(table, k, now)
    ensures ListsExpired(table, ks + {k}, now, expired + [(k, table[k])])
  {
    var more := expired + [(k, table[k])];
    forall j ensures ListedBefore(more, |more|, j) <==> j == k || ListedBefore(expired, |expired|, j) {
      if j == k {
        assert more[|expired|].0 == k;
      }
      if ListedBefore(expired, |expired|, j) {
        var i :| 0 <= i < |expired| && expired[i].0 == j;
        assert more[i].0 == j;
      }
    }
  }

  /** Among readable rows the expiry column tells exactly which are expired. */
  lemma DueIsExpired(table: Table, now: DateTime)
    ensures ReadableAmong(table, Due(table, now)) ==>
              WithoutExpired(table, Due(table, now), now) == WithoutExpired(table, table.Keys, now)
    ensures forall k | k in table && DecodeEntry(table[k]).Ok? :: k in Due(table, now) <==> ExpiredRow(table, k, now)
  {
  }
}
