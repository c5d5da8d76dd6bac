/** A plain map of entries, from which nothing expired is ever dropped: what stores are
    compared with over whole runs at rising times. */
module EntryMaps {
  import opened Base
  import opened Entries
  import opened Identities

  type EntryMap = map<Pair, ManagedEntry>

  /** A TTL that is positive and does not go beyond the last instant. */
  predicate TtlAccepted(now: DateTime, ttl: Option<int>) {
    ttl.Some? ==> 0 < ttl.value && now + ttl.value <= 8_210_266_876_799_999
  }

  /** What the map holds after a write: an entry that ends when its TTL has passed. */
  function Written(now: DateTime, v: Value, ttl: Option<int>): ManagedEntry
    requires TtlAccepted(now, ttl)
  {
    ManagedEntry(v, Some(now), if ttl.Some? then Some(now + ttl.value) else None)
  }

  predicate AllReadable(m: EntryMap) {
    forall x | x in m :: m[x].value.Readable()
  }

  /** What a read should give: an unreadable entry is an error until it is overwritten or
      deleted. */
  function Read(m: EntryMap, x: Pair, now: DateTime, error: Error): Result<Option<Value>> {
    if x !in m then Ok(None)
    else if !m[x].value.Readable() then Err(error)
    else Ok(if m[x].IsExpired(now) then None else Some(m[x].value))
  }

  /** Times that never go back, from `now` on. */
  predicate Rising<S>(now: DateTime, steps: seq<(DateTime, S)>)
    decreases |steps|
  {
    steps == [] || (now <= steps[0].0 && Rising(steps[0].0, steps[1..]))
  }
}
