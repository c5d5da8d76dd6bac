/** The contract of a revisioned key-value store, as operations on a map of cells. Times are
    milliseconds; a cell is live while its expiry lies in the future. Keys are of any type,
    so that the same operations can be read at the level of a wrapper and of its store. */
module KeyValue {
  import opened Base
  import Entries
  import CasEnvelope

  type Value = Entries.Value
  type Revision = CasEnvelope.Revision

  datatype Cell = Cell(value: Value, expires: Option<int>, revision: Revision) {
    predicate Live(now: int) {
      expires.Some? ==> expires.value > now
    }

    function Ttl(now: int): Option<int> {
      if expires.Some? then Some(expires.value - now) else None
    }
  }

  type Store<K> = map<K, Cell>

  predicate NothingExpires<K>(m: Store<K>) {
    forall k | k in m :: m[k].expires.None?
  }

  /** A primary store and a cache in front of it. */
  datatype Tiers<K> = Tiers(primary: Store<K>, cache: Store<K>)

  datatype Op<K> =
    | Get(key: K)
    | Ttl(key: K)
    | Put(key: K, value: Value, ttl: Option<int>, token: Revision)
    | Delete(key: K)
    | GetMany(keys: seq<K>)
    | TtlMany(keys: seq<K>)
    | PutMany(keys: seq<K>, values: seq<Value>, ttl: Option<int>, tokens: nat -> Revision)
    | DeleteMany(keys: seq<K>)
    | GetWithRevision(key: K)
    | CompareAndSwap(key: K, expected: Option<Revision>, value: Value, ttl: Option<int>, token: Revision)
    | CompareAndDelete(key: K, expectedToken: Revision)

  datatype Revisioned = Revisioned(value: Value, revision: Revision, ttl: Option<int>)

  datatype Outcome =
    | Done
    | Found(value: Option<Value>)
    | FoundTtl(entry: Option<(Value, Option<int>)>)
    | Deleted(existed: bool)
    | FoundMany(values: seq<Option<Value>>)
    | FoundTtlMany(entries: seq<Option<(Value, Option<int>)>>)
    | DeletedMany(count: nat)
    | Current(current: Option<Revisioned>)
    | Applied(revision: Revision)
    | CasDeleted
    | Conflict(current: Option<Revisioned>)

  // ------------------------------------------------------------ single operations

  function LiveCell<K>(m: Store<K>, now: int, key: K): Option<Cell> {
    if key in m && m[key].Live(now) then Some(m[key]) else None
  }

  function GetValue<K>(m: Store<K>, now: int, key: K): Option<Value> {
    match LiveCell(m, now, key) case Some(c) => Some(c.value) case None => None
  }

  function GetTtl<K>(m: Store<K>, now: int, key: K): Option<(Value, Option<int>)> {
    match LiveCell(m, now, key) case Some(c) => Some((c.value, c.Ttl(now))) case None => None
  }

  function GetRevisioned<K>(m: Store<K>, now: int, key: K): Option<Revisioned> {
    match LiveCell(m, now, key) case Some(c) => Some(Revisioned(c.value, c.revision, c.Ttl(now))) case None => None
  }

  predicate ValidTtl(ttl: Option<int>) {
    ttl.Some? ==> ttl.value > 0
  }

  function NewCell(now: int, value: Value, ttl: Option<int>, token: Revision): Cell {
    Cell(value, if ttl.Some? then Some(now + ttl.value) else None, token)
  }

  function Remove<K>(m: Store<K>, key: K): Store<K> {
    m - {key}
  }

  // ------------------------------------------------------------- batch operations

  function GetValues<K>(m: Store<K>, now: int, keys: seq<K>): (r: seq<Option<Value>>)
    ensures |r| == |keys|
    ensures forall i | 0 <= i < |keys| :: r[i] == GetValue(m, now, keys[i])
  {
    seq(|keys|, i requires 0 <= i < |keys| => GetValue(m, now, keys[i]))
  }

  function GetTtls<K>(m: Store<K>, now: int, keys: seq<K>): (r: seq<Option<(Value, Option<int>)>>)
    ensures |r| == |keys|
    ensures forall i | 0 <= i < |keys| :: r[i] == GetTtl(m, now, keys[i])
  {
    seq(|keys|, i requires 0 <= i < |keys| => GetTtl(m, now, keys[i]))
  }

  /** Writes from position `i` on, one after the other; `tokens` supplies the revisions. */
  function PutAll<K>(m: Store<K>, now: int, keys: seq<K>, values: seq<Value>, ttl: Option<int>, tokens: nat -> Revision, i: nat): Store<K>
    requires i <= |keys| == |values|
    decreases |keys| - i
  {
    if i == |keys| then m
    else PutAll(m[keys[i] := NewCell(now, values[i], ttl, tokens(i))], now, keys, values, ttl, tokens, i + 1)
  }

  function DeleteAll<K>(m: Store<K>, keys: seq<K>): (r: (Store<K>, nat)) {
    if keys == [] then (m, 0) else
      var (m', n) := DeleteAll(Remove(m, keys[0]), keys[1..]);
      (m', n + if keys[0] in m then 1 else 0)
  }

  // ------------------------------------------------------------------- the store

  /** New contents and outcome of an operation at time `now`. */
  function Apply<K>(m: Store<K>, now: int, op: Op<K>): (Store<K>, Result<Outcome>) {
    match op
    case Get(k) => (m, Ok(Found(GetValue(m, now, k))))
    case Ttl(k) => (m, Ok(FoundTtl(GetTtl(m, now, k))))
    case Put(k, v, ttl, token) =>
      if !ValidTtl(ttl) then (m, Err(InvalidTtl)) else (m[k := NewCell(now, v, ttl, token)], Ok(Done))
    case Delete(k) => (Remove(m, k), Ok(Deleted(k in m)))
    case GetMany(ks) => (m, Ok(FoundMany(GetValues(m, now, ks))))
    case TtlMany(ks) => (m, Ok(FoundTtlMany(GetTtls(m, now, ks))))
    case PutMany(ks, vs, ttl, tokens) =>
      if |ks| != |vs| then (m, Err(BatchSizeMismatch(|ks|, |vs|)))
      else if !ValidTtl(ttl) then (m, Err(InvalidTtl))
      else (PutAll(m, now, ks, vs, ttl, tokens, 0), Ok(Done))
    case DeleteMany(ks) => var (m', n) := DeleteAll(m, ks); (m', Ok(DeletedMany(n)))
    case GetWithRevision(k) => (m, Ok(Current(GetRevisioned(m, now, k))))
    case CompareAndSwap(k, expected, v, ttl, token) =>
      if !ValidTtl(ttl) then (m, Err(InvalidTtl)) else
        var written := m[k := NewCell(now, v, ttl, token)];
        if LiveCell(m, now, k).None? then
          if expected.None? then (written, Ok(Applied(token))) else (Remove(m, k), Ok(Conflict(None)))
        else if expected == Some(m[k].revision) then (written, Ok(Applied(token)))
        else (m, Ok(Conflict(GetRevisioned(m, now, k))))
    case CompareAndDelete(k, expected) =>
      if LiveCell(m, now, k).None? then (Remove(m, k), Ok(Conflict(None)))
      else if expected == m[k].revision then (Remove(m, k), Ok(CasDeleted))
      else (m, Ok(Conflict(GetRevisioned(m, now, k))))
  }

  /** The same operation on renamed keys. */
  function MapOp<K, L>(f: K -> L, op: Op<K>): Op<L> {
    match op
    case Get(k) => Get(f(k))
    case Ttl(k) => Ttl(f(k))
    case Put(k, v, ttl, token) => Put(f(k), v, ttl, token)
    case Delete(k) => Delete(f(k))
    case GetMany(ks) => GetMany(MapKeys(f, ks))
    case TtlMany(ks) => TtlMany(MapKeys(f, ks))
    case PutMany(ks, vs, ttl, tokens) => PutMany(MapKeys(f, ks), vs, ttl, tokens)
    case DeleteMany(ks) => DeleteMany(MapKeys(f, ks))
    case GetWithRevision(k) => GetWithRevision(f(k))
    case CompareAndSwap(k, expected, v, ttl, token) => CompareAndSwap(f(k), expected, v, ttl, token)
    case CompareAndDelete(k, expected) => CompareAndDelete(f(k), expected)
  }

  function MapKeys<K, L>(f: K -> L, ks: seq<K>): (r: seq<L>)
    ensures |r| == |ks|
  {
    if ks == [] then [] else [f(ks[0])] + MapKeys(f, ks[1..])
  }

  lemma {:induction false} MapKeysAt<K, L>(f: K -> L, ks: seq<K>, i: nat)
    requires i < |ks|
    ensures MapKeys(f, ks)[i] == f(ks[i])
  {
    if i > 0 {
      MapKeysAt(f, ks[1..], i - 1);
    }
  }
}
