/** The Rust two-tier cache: like the Python one, but cached entries get a TTL of their own
    and the conditional operations go through it too. */
module RustCache {
  import opened Base
  import opened KeyValue
  import opened Enumeration

  /** `cacheTtl` is what cached entries are given; `token` stands for the revisions the cache
      store issues. */
  datatype Config = Config(cacheTtl: Option<int>, token: Revision)

  // ---------------------------------------------------------- what the wrapper does

  /** Writes a value just read from the primary into the cache. */
  function Fill<K>(c: Config, t: Tiers<K>, now: int, k: K, v: Value): Result<Tiers<K>> {
    if ValidTtl(c.cacheTtl) then Ok(t.(cache := t.cache[k := NewCell(now, v, c.cacheTtl, c.token)])) else Err(InvalidTtl)
  }

  function GetOne<K>(c: Config, t: Tiers<K>, now: int, k: K): (Tiers<K>, Result<Option<Value>>) {
    var cached := GetValue(t.cache, now, k);
    if cached.Some? then (t, Ok(cached)) else
      var value := GetValue(t.primary, now, k);
      if value.None? then (t, Ok(None)) else
        match Fill(c, t, now, k, value.value)
        case Ok(t') => (t', Ok(value))
        case Err(e) => (t, Err(e))
  }

  function TtlOne<K>(c: Config, t: Tiers<K>, now: int, k: K): (Tiers<K>, Result<Option<(Value, Option<int>)>>) {
    var cached := GetTtl(t.cache, now, k);
    if cached.Some? then (t, Ok(cached)) else
      var entry := GetTtl(t.primary, now, k);
      if entry.None? then (t, Ok(None)) else
        match Fill(c, t, now, k, entry.value.0)
        case Ok(t') => (t', Ok(entry))
        case Err(e) => (t, Err(e))
  }

  /** Batch reads are loops that stop at the first error. */
  function GetLoop<K>(c: Config, t: Tiers<K>, now: int, ks: seq<K>): (Tiers<K>, Result<seq<Option<Value>>>)
    decreases |ks|
  {
    if ks == [] then (t, Ok([])) else
      match GetOne(c, t, now, ks[0])
      case (t', Err(e)) => (t', Err(e))
      case (t', Ok(v)) =>
        match GetLoop(c, t', now, ks[1..])
        case (u, Ok(vs)) => (u, Ok([v] + vs))
        case (u, Err(e)) => (u, Err(e))
  }

  function TtlLoop<K>(c: Config, t: Tiers<K>, now: int, ks: seq<K>): (Tiers<K>, Result<seq<Option<(Value, Option<int>)>>>)
    decreases |ks|
  {
    if ks == [] then (t, Ok([])) else
      match TtlOne(c, t, now, ks[0])
      case (t', Err(e)) => (t', Err(e))
      case (t', Ok(v)) =>
        match TtlLoop(c, t', now, ks[1..])
        case (u, Ok(vs)) => (u, Ok([v] + vs))
        case (u, Err(e)) => (u, Err(e))
  }

  /** Drops cached keys and passes an operation on to the primary. */
  function Invalidate<K>(t: Tiers<K>, ks: set<K>, now: int, op: Op<K>): (Tiers<K>, Result<Outcome>) {
    var (primary, out) := Apply(t.primary, now, op);
    (Tiers(primary, t.cache - ks), out)
  }

  function Serve<K>(c: Config, t: Tiers<K>, now: int, op: Op<K>): (Tiers<K>, Result<Outcome>) {
    match op
    case Get(k) =>
      (match GetOne(c, t, now, k)
       case (t', Ok(v)) => (t', Ok(Found(v)))
       case (t', Err(e)) => (t', Err(e)))
    case Ttl(k) =>
      (match TtlOne(c, t, now, k)
       case (t', Ok(v)) => (t', Ok(FoundTtl(v)))
       case (t', Err(e)) => (t', Err(e)))
    case GetMany(ks) =>
      (match GetLoop(c, t, now, ks)
       case (t', Ok(vs)) => (t', Ok(FoundMany(vs)))
       case (t', Err(e)) => (t', Err(e)))
    case TtlMany(ks) =>
      (match TtlLoop(c, t, now, ks)
       case (t', Ok(vs)) => (t', Ok(FoundTtlMany(vs)))
       case (t', Err(e)) => (t', Err(e)))
    case PutMany(ks, vs, _, _) =>
      if |ks| != |vs| then (t, Err(BatchSizeMismatch(|ks|, |vs|))) else Invalidate(t, Elements(ks), now, op)
    case DeleteMany(ks) => Invalidate(t, Elements(ks), now, op)
    case GetWithRevision(k) =>
      var current := GetRevisioned(t.primary, now, k);
      if current.None? then (t, Ok(Current(None))) else
        (match Fill(c, t, now, k, current.value.value)
         case Ok(t') => (t', Ok(Current(current)))
         case Err(e) => (t, Err(e)))
    case Put(k, _, _, _) => Invalidate(t, {k}, now, op)
    case Delete(k) => Invalidate(t, {k}, now, op)
    case CompareAndSwap(k, _, _, _, _) => Invalidate(t, {k}, now, op)
    case CompareAndDelete(k, _) => Invalidate(t, {k}, now, op)
  }

  // --------------------------------------------------------------------- coherence

  predicate Cached<K>(t: Tiers<K>, k: K)
    requires k in t.cache
  {
    k in t.primary && t.primary[k].value == t.cache[k].value
  }

  /** Whatever is cached, live or not, is what the primary holds. */
  ghost predicate Coherent<K(!new)>(t: Tiers<K>) {
    forall k | k in t.cache :: Cached(t, k)
  }

  predicate WritesNoTtl<K>(op: Op<K>) {
    match op
    case Put(_, _, ttl, _) => ttl.None?
    case PutMany(_, _, ttl, _) => ttl.None?
    case CompareAndSwap(_, _, _, ttl, _) => ttl.None?
    case _ => true
  }

  /** Same answer, except that a cached entry may show a TTL where the primary has none. */
  predicate SameButForTtl(a: Option<(Value, Option<int>)>, b: Option<(Value, Option<int>)>) {
    a.Some? == b.Some? && (a.Some? ==> a.value.0 == b.value.0)
  }

  predicate Agrees(a: Result<Outcome>, b: Result<Outcome>) {
    match (a, b)
    case (Ok(FoundTtl(x)), Ok(FoundTtl(y))) => SameButForTtl(x, y)
    case (Ok(FoundTtlMany(xs)), Ok(FoundTtlMany(ys))) => |xs| == |ys| && forall i | 0 <= i < |xs| :: SameButForTtl(xs[i], ys[i])
    case _ => a == b
  }

  lemma GetOneAgrees<K(!new)>(c: Config, t: Tiers<K>, now: int, k: K)
    requires ValidTtl(c.cacheTtl) && Coherent(t) && NothingExpires(t.primary)
    ensures var (u, r) := GetOne(c, t, now, k); r == Ok(GetValue(t.primary, now, k)) && Coherent(u) && u.primary == t.primary
    ensures var (u, r) := TtlOne(c, t, now, k);
            r.Ok? && SameButForTtl(r.value, GetTtl(t.primary, now, k)) && Coherent(u) && u.primary == t.primary
  {
  }

  lemma {:induction false} GetLoopAgrees<K(!new)>(c: Config, t: Tiers<K>, now: int, ks: seq<K>)
    requires ValidTtl(c.cacheTtl) && Coherent(t) && NothingExpires(t.primary)
    ensures var (u, r) := GetLoop(c, t, now, ks); r == Ok(GetValues(t.primary, now, ks)) && Coherent(u) && u.primary == t.primary
    decreases |ks|
  {
    if ks != [] {
      GetOneAgrees(c, t, now, ks[0]);
      GetLoopAgrees(c, GetOne(c, t, now, ks[0]).0, now, ks[1..]);
      assert GetValues(t.primary, now, ks) == [GetValue(t.primary, now, ks[0])] + GetValues(t.primary, now, ks[1..]);
    }
  }

  ghost predicate AllSame(a: seq<Option<(Value, Option<int>)>>, b: seq<Option<(Value, Option<int>)>>) {
    |a| == |b| && forall i | 0 <= i < |a| :: SameButForTtl(a[i], b[i])
  }

  lemma {:induction false} TtlLoopAgrees<K(!new)>(c: Config, t: Tiers<K>, now: int, ks: seq<K>)
    requires ValidTtl(c.cacheTtl) && Coherent(t) && NothingExpires(t.primary)
    ensures var (u, r) := TtlLoop(c, t, now, ks);
            r.Ok? && AllSame(r.value, GetTtls(t.primary, now, ks)) && Coherent(u) && u.primary == t.primary
    decreases |ks|
  {
    if ks != [] {
      GetOneAgrees(c, t, now, ks[0]);
      var (u, first) := TtlOne(c, t, now, ks[0]);
      TtlLoopAgrees(c, u, now, ks[1..]);
      assert GetTtls(t.primary, now, ks) == [GetTtl(t.primary, now, ks[0])] + GetTtls(t.primary, now, ks[1..]);
      SameCons(first.value, TtlLoop(c, u, now, ks[1..]).1.value, GetTtl(t.primary, now, ks[0]), GetTtls(t.primary, now, ks[1..]));
    }
  }

  lemma SameCons(x: Option<(Value, Option<int>)>, xs: seq<Option<(Value, Option<int>)>>,
                 y: Option<(Value, Option<int>)>, ys: seq<Option<(Value, Option<int>)>>)
    requires SameButForTtl(x, y) && AllSame(xs, ys)
    ensures AllSame([x] + xs, [y] + ys)
  {
  }

  /** An operation changes no key but those it names. */
  ghost predicate ChangesOnly<K(!new)>(before: Store<K>, after: Store<K>, ks: set<K>) {
    forall k | k !in ks :: (k in after <==> k in before) && (k in before ==> after[k] == before[k])
  }

  lemma {:induction false} PutAllChanges<K(!new)>(m: Store<K>, now: int, ks: seq<K>, vs: seq<Value>, ttl: Option<int>,
                                                tokens: nat -> Revision, i: nat)
    requires i <= |ks| == |vs|
    ensures ChangesOnly(m, PutAll(m, now, ks, vs, ttl, tokens, i), Elements(ks))
    ensures ttl.None? && NothingExpires(m) ==> NothingExpires(PutAll(m, now, ks, vs, ttl, tokens, i))
    decreases |ks| - i
  {
    if i < |ks| {
      PutAllChanges(m[ks[i] := NewCell(now, vs[i], ttl, tokens(i))], now, ks, vs, ttl, tokens, i + 1);
    }
  }

  lemma {:induction false} DeleteAllChanges<K(!new)>(m: Store<K>, ks: seq<K>)
    ensures ChangesOnly(m, DeleteAll(m, ks).0, Elements(ks))
    ensures NothingExpires(m) ==> NothingExpires(DeleteAll(m, ks).0)
  {
    if ks != [] {
      DeleteAllChanges(Remove(m, ks[0]), ks[1..]);
      ElementsCons(ks);
    }
  }

  /** The keys an operation drops from the cache before it is passed on. */
  function Dropped<K>(op: Op<K>): set<K> {
    match op
    case PutMany(ks, vs, _, _) => if |ks| == |vs| then Elements(ks) else {}
    case DeleteMany(ks) => Elements(ks)
    case Put(k, _, _, _) => {k}
    case Delete(k) => {k}
    case CompareAndSwap(k, _, _, _, _) => {k}
    case CompareAndDelete(k, _) => {k}
    case _ => {}
  }

  lemma ApplyChanges<K(!new)>(m: Store<K>, now: int, op: Op<K>)
    ensures ChangesOnly(m, Apply(m, now, op).0, Dropped(op))
    ensures NothingExpires(m) && WritesNoTtl(op) ==> NothingExpires(Apply(m, now, op).0)
  {
    match op
    case PutMany(ks, vs, ttl, tokens) =>
      if |ks| == |vs| && ValidTtl(ttl) {
        PutAllChanges(m, now, ks, vs, ttl, tokens, 0);
      }
    case DeleteMany(ks) => DeleteAllChanges(m, ks);
    case _ =>
  }

  // -------------------------------------------------- what every operation keeps

  /** Every cached cell is as before, or was just filled with the primary's live value. */
  ghost predicate FillsOnly<K(!new)>(c: Config, t: Tiers<K>, now: int, cache: Store<K>) {
    forall k | k in cache :: (k in t.cache && cache[k] == t.cache[k]) || JustFilled(c, t, now, k, cache[k])
  }

  predicate JustFilled<K>(c: Config, t: Tiers<K>, now: int, k: K, cell: Cell) {
    GetValue(t.primary, now, k) == Some(cell.value) && cell == NewCell(now, cell.value, c.cacheTtl, c.token)
  }

  lemma {:induction false} GetLoopFills<K(!new)>(c: Config, t: Tiers<K>, now: int, ks: seq<K>)
    ensures GetLoop(c, t, now, ks).0.primary == t.primary && FillsOnly(c, t, now, GetLoop(c, t, now, ks).0.cache)
    decreases |ks|
  {
    if ks != [] && GetOne(c, t, now, ks[0]).1.Ok? {
      GetLoopFills(c, GetOne(c, t, now, ks[0]).0, now, ks[1..]);
    }
  }

  lemma {:induction false} TtlLoopFills<K(!new)>(c: Config, t: Tiers<K>, now: int, ks: seq<K>)
    ensures TtlLoop(c, t, now, ks).0.primary == t.primary && FillsOnly(c, t, now, TtlLoop(c, t, now, ks).0.cache)
    decreases |ks|
  {
    if ks != [] && TtlOne(c, t, now, ks[0]).1.Ok? {
      TtlLoopFills(c, TtlOne(c, t, now, ks[0]).0, now, ks[1..]);
    }
  }

  /** Any operation, with or without TTLs: the primary ends up as if it had been called
      directly, named keys leave the cache, and the cache gains the primary's live values
      only. */
  lemma ServeKeeps<K(!new)>(c: Config, t: Tiers<K>, now: int, op: Op<K>)
    ensures var u := Serve(c, t, now, op).0;
            && u.primary == Apply(t.primary, now, op).0
            && FillsOnly(c, t, now, u.cache)
            && (forall k | k in Dropped(op) :: k !in u.cache)
  {
    match op
    case GetMany(ks) => GetLoopFills(c, t, now, ks);
    case TtlMany(ks) => TtlLoopFills(c, t, now, ks);
    case _ =>
  }

  /** The keys a read may put into the cache. */
  function Asked<K>(op: Op<K>): set<K> {
    match op
    case Get(k) => {k}
    case Ttl(k) => {k}
    case GetWithRevision(k) => {k}
    case GetMany(ks) => Elements(ks)
    case TtlMany(ks) => Elements(ks)
    case _ => {}
  }

  /** What one key's place in the cache looks like after it was filled, or left alone. */
  predicate FilledIf<K>(c: Config, t: Tiers<K>, now: int, after: Store<K>, k: K, fill: bool) {
    if fill then
      && k in after && GetValue(t.primary, now, k) == Some(after[k].value)
      && after[k].expires == if c.cacheTtl.Some? then Some(now + c.cacheTtl.value) else None
    else (k in after <==> k in t.cache) && (k in t.cache ==> after[k] == t.cache[k])
  }

  predicate Missed<K>(t: Tiers<K>, now: int, k: K) {
    GetValue(t.primary, now, k).Some? && GetValue(t.cache, now, k).None?
  }

  /** The cache after every operation, key by key: written keys are dropped; keys that were asked
      for and missed are there with a time of their own; a revision is never taken from the
      cache, so asking for one always renews its key; and nothing else changes. */
  lemma CacheIsExact<K(!new)>(c: Config, t: Tiers<K>, now: int, op: Op<K>, k: K)
    requires ValidTtl(c.cacheTtl)
    ensures var after := Serve(c, t, now, op).0.cache;
            if k in Dropped(op) then k !in after
            else FilledIf(c, t, now, after, k, k in Asked(op) &&
                          if op.GetWithRevision? then GetValue(t.primary, now, k).Some? else Missed(t, now, k))
  {
    match op
    case GetMany(ks) => GetLoopCache(c, t, now, ks, k);
    case TtlMany(ks) => TtlLoopCache(c, t, now, ks, k);
    case _ =>
  }

  lemma GetOneCache<K(!new)>(c: Config, t: Tiers<K>, now: int, asked: K, k: K)
    requires ValidTtl(c.cacheTtl)
    ensures GetOne(c, t, now, asked).1.Ok? && GetOne(c, t, now, asked).0.primary == t.primary
    ensures FilledIf(c, t, now, GetOne(c, t, now, asked).0.cache, k, k == asked && Missed(t, now, k))
    ensures TtlOne(c, t, now, asked).1.Ok? && TtlOne(c, t, now, asked).0 == GetOne(c, t, now, asked).0
  {
  }

  /** Filling a key that was missed and then, if that is asked again, filling it once more. */
  lemma FilledTwice<K(!new)>(c: Config, t: Tiers<K>, u: Tiers<K>, now: int, after: Store<K>, k: K, first: bool, more: bool)
    requires ValidTtl(c.cacheTtl) && u.primary == t.primary
    requires FilledIf(c, t, now, u.cache, k, first && Missed(t, now, k))
    requires FilledIf(c, u, now, after, k, more && Missed(u, now, k))
    ensures FilledIf(c, t, now, after, k, (first || more) && Missed(t, now, k))
  {
  }

  lemma {:induction false} GetLoopCache<K(!new)>(c: Config, t: Tiers<K>, now: int, ks: seq<K>, k: K)
    requires ValidTtl(c.cacheTtl)
    ensures GetLoop(c, t, now, ks).1.Ok?
    ensures FilledIf(c, t, now, GetLoop(c, t, now, ks).0.cache, k, k in ks && Missed(t, now, k))
    decreases |ks|
  {
    if ks != [] {
      var u := GetOne(c, t, now, ks[0]).0;
      GetOneCache(c, t, now, ks[0], k);
      GetLoopCache(c, u, now, ks[1..], k);
      FirstOrLater(ks, k);
      FilledTwice(c, t, u, now, GetLoop(c, u, now, ks[1..]).0.cache, k, k == ks[0], k in ks[1..]);
    }
  }

  lemma {:induction false} TtlLoopCache<K(!new)>(c: Config, t: Tiers<K>, now: int, ks: seq<K>, k: K)
    requires ValidTtl(c.cacheTtl)
    ensures TtlLoop(c, t, now, ks).1.Ok?
    ensures FilledIf(c, t, now, TtlLoop(c, t, now, ks).0.cache, k, k in ks && Missed(t, now, k))
    decreases |ks|
  {
    if ks != [] {
      var u := TtlOne(c, t, now, ks[0]).0;
      GetOneCache(c, t, now, ks[0], k);
      TtlLoopCache(c, u, now, ks[1..], k);
      FirstOrLater(ks, k);
      FilledTwice(c, t, u, now, TtlLoop(c, u, now, ks[1..]).0.cache, k, k == ks[0], k in ks[1..]);
    }
  }

  /** The remaining time that is shown with a value is the primary's own exactly when the value
      does not come from the cache, or the cached copy ends when the primary's entry does. */
  lemma ShownTtlIsExactIff<K(!new)>(c: Config, t: Tiers<K>, now: int, k: K)
    requires ValidTtl(c.cacheTtl) && Coherent(t) && GetValue(t.primary, now, k).Some?
    ensures Serve(c, t, now, Ttl(k)).1 == Apply(t.primary, now, Ttl(k)).1 <==>
            (GetValue(t.cache, now, k).Some? ==> t.cache[k].expires == t.primary[k].expires)
  {
  }

  /** Coherence needs no condition: what is cached is what the primary holds, live or not,
      after every operation. */
  lemma ServeStaysCoherent<K(!new)>(c: Config, t: Tiers<K>, now: int, op: Op<K>)
    requires Coherent(t)
    ensures Coherent(Serve(c, t, now, op).0)
  {
    ServeKeeps(c, t, now, op);
    ApplyChanges(t.primary, now, op);
    var u := Serve(c, t, now, op).0;
    forall k | k in u.cache ensures Cached(u, k) {
      assert k !in Dropped(op);
      assert k in t.cache ==> Cached(t, k);
    }
  }

  /** One operation, conditional ones included: the primary ends up as if it had been called
      directly, and the cache stays coherent. */
  lemma OperationIsTransparent<K(!new)>(c: Config, t: Tiers<K>, now: int, op: Op<K>)
    requires ValidTtl(c.cacheTtl) && Coherent(t) && NothingExpires(t.primary) && WritesNoTtl(op)
    ensures var (u, out) := Serve(c, t, now, op);
            && Coherent(u) && NothingExpires(u.primary)
            && u.primary == Apply(t.primary, now, op).0 && Agrees(out, Apply(t.primary, now, op).1)
  {
    ServeKeeps(c, t, now, op);
    ServeStaysCoherent(c, t, now, op);
    ApplyChanges(t.primary, now, op);
    match op
    case Get(k) => GetOneAgrees(c, t, now, k);
    case Ttl(k) => GetOneAgrees(c, t, now, k);
    case GetMany(ks) => GetLoopAgrees(c, t, now, ks);
    case TtlMany(ks) => TtlLoopAgrees(c, t, now, ks);
    case _ =>
  }

  // -------------------------------------------------------------------------- runs

  datatype Event<K> = Tick(ms: nat) | Call(op: Op<K>)

  predicate ValidRun<K>(events: seq<Event<K>>) {
    forall i | 0 <= i < |events| :: events[i].Call? ==> WritesNoTtl(events[i].op)
  }

  function ServeRun<K>(c: Config, t: Tiers<K>, now: int, events: seq<Event<K>>): (Tiers<K>, seq<Result<Outcome>>)
    decreases |events|
  {
    if events == [] then (t, []) else
      match events[0]
      case Tick(ms) => ServeRun(c, t, now + ms, events[1..])
      case Call(op) =>
        var (t', out) := Serve(c, t, now, op);
        var (end, outs) := ServeRun(c, t', now, events[1..]);
        (end, [out] + outs)
  }

  function DirectRun<K>(m: Store<K>, now: int, events: seq<Event<K>>): (Store<K>, seq<Result<Outcome>>)
    decreases |events|
  {
    if events == [] then (m, []) else
      match events[0]
      case Tick(ms) => DirectRun(m, now + ms, events[1..])
      case Call(op) =>
        var (m', out) := Apply(m, now, op);
        var (end, outs) := DirectRun(m', now, events[1..]);
        (end, [out] + outs)
  }

  ghost predicate AllAgree(a: seq<Result<Outcome>>, b: seq<Result<Outcome>>) {
    |a| == |b| && forall i | 0 <= i < |a| :: Agrees(a[i], b[i])
  }

  /** In every sequential run of operations without TTLs, over a primary whose entries do not
      expire, the wrapper answers as the primary would and the cache holds nothing else. */
  lemma {:induction false} RunIsTransparent<K(!new)>(c: Config, t: Tiers<K>, now: int, events: seq<Event<K>>)
    requires ValidTtl(c.cacheTtl) && Coherent(t) && NothingExpires(t.primary) && ValidRun(events)
    ensures var (u, outs) := ServeRun(c, t, now, events);
            && Coherent(u) && NothingExpires(u.primary)
            && u.primary == DirectRun(t.primary, now, events).0
            && AllAgree(outs, DirectRun(t.primary, now, events).1)
    decreases |events|
  {
    if events != [] {
      match events[0]
      case Tick(ms) => RunIsTransparent(c, t, now + ms, events[1..]);
      case Call(op) =>
        OperationIsTransparent(c, t, now, op);
        RunIsTransparent(c, Serve(c, t, now, op).0, now, events[1..]);
    }
  }

  /** In every run, whatever TTLs are used, the primary ends up as if called directly and what
      is cached is what it holds. */
  lemma {:induction false} RunStaysCoherent<K(!new)>(c: Config, t: Tiers<K>, now: int, events: seq<Event<K>>)
    requires Coherent(t)
    ensures var u := ServeRun(c, t, now, events).0; Coherent(u) && u.primary == DirectRun(t.primary, now, events).0
    decreases |events|
  {
    if events != [] {
      match events[0]
      case Tick(ms) => RunStaysCoherent(c, t, now + ms, events[1..]);
      case Call(op) =>
        ServeKeeps(c, t, now, op);
        ServeStaysCoherent(c, t, now, op);
        RunStaysCoherent(c, Serve(c, t, now, op).0, now, events[1..]);
    }
  }

  /** After any run, starting from an empty cache, the merged listing of both tiers shows
      exactly the keys the primary holds, once each; with a limit, as many of them as fit. */
  lemma MergedKeysArePrimaryKeys<K(!new)>(c: Config, primary: Store<K>, now: int, events: seq<Event<K>>,
                                         cacheKeys: seq<K>, primaryKeys: seq<K>, limit: Option<nat>)
    requires var t := ServeRun(c, Tiers(primary, map[]), now, events).0;
             Lists(cacheKeys, t.cache.Keys) && Lists(primaryKeys, t.primary.Keys)
    ensures var keys := DirectRun(primary, now, events).0.Keys;
            var r := Merge(cacheKeys + primaryKeys, limit, []);
            && Distinct(r) && (forall k | k in r :: k in keys)
            && (limit.None? ==> Lists(r, keys))
            && |r| == match limit
                      case None => |keys|
                      case Some(n) => var shown := if n == 0 then 1 else n; if shown < |keys| then shown else |keys|
  {
    RunStaysCoherent(c, Tiers(primary, map[]), now, events);
    var t := ServeRun(c, Tiers(primary, map[]), now, events).0;
    forall k ensures k in cacheKeys + primaryKeys <==> k in t.primary.Keys {
      assert k in t.cache.Keys ==> Cached(t, k);
    }
    MergedListingIsExact(cacheKeys + primaryKeys, limit, t.primary.Keys);
  }

  // ------------------------------------------------------------ bounded staleness

  /** The primary as it stood at a time. */
  datatype Moment<K> = Moment(time: int, primary: Store<K>)

  datatype Traced<K> = Traced(tiers: Tiers<K>, time: int, past: seq<Moment<K>>)

  /** A run that remembers how the primary stood after every event. */
  function TracedRun<K>(c: Config, r: Traced<K>, events: seq<Event<K>>): Traced<K>
    decreases |events|
  {
    if events == [] then r else
      var next := match events[0]
        case Tick(ms) => Traced(r.tiers, r.time + ms, r.past + [Moment(r.time + ms, r.tiers.primary)])
        case Call(op) =>
          var t := Serve(c, r.tiers, r.time, op).0;
          Traced(t, r.time, r.past + [Moment(r.time, t.primary)]);
      TracedRun(c, next, events[1..])
  }

  predicate ShownAt<K>(m: Moment<K>, k: K, v: Value) {
    GetValue(m.primary, m.time, k) == Some(v)
  }

  /** A cell in the cache was filled at some moment of the past, from which its TTL counts. */
  ghost predicate FilledInPast<K>(past: seq<Moment<K>>, ttl: int, k: K, cell: Cell) {
    exists i | 0 <= i < |past| :: cell.expires == Some(past[i].time + ttl) && ShownAt(past[i], k, cell.value)
  }

  ghost predicate Remembers<K(!new)>(r: Traced<K>, ttl: int) {
    && r.past != [] && r.past[|r.past| - 1] == Moment(r.time, r.tiers.primary)
    && (forall i | 0 <= i < |r.past| :: r.past[i].time <= r.time)
    && (forall k | k in r.tiers.cache :: FilledInPast(r.past, ttl, k, r.tiers.cache[k]))
  }

  lemma PastGrows<K>(past: seq<Moment<K>>, m: Moment<K>, ttl: int, k: K, cell: Cell)
    requires FilledInPast(past, ttl, k, cell)
    ensures FilledInPast(past + [m], ttl, k, cell)
  {
    var i :| 0 <= i < |past| && cell.expires == Some(past[i].time + ttl) && ShownAt(past[i], k, cell.value);
    assert (past + [m])[i] == past[i];
  }

  lemma CallRemembers<K(!new)>(c: Config, r: Traced<K>, op: Op<K>, ttl: int)
    requires c.cacheTtl == Some(ttl) && Remembers(r, ttl)
    ensures var t := Serve(c, r.tiers, r.time, op).0;
            Remembers(Traced(t, r.time, r.past + [Moment(r.time, t.primary)]), ttl)
  {
    ServeKeeps(c, r.tiers, r.time, op);
    var t := Serve(c, r.tiers, r.time, op).0;
    forall k | k in t.cache ensures FilledInPast(r.past + [Moment(r.time, t.primary)], ttl, k, t.cache[k]) {
      if JustFilled(c, r.tiers, r.time, k, t.cache[k]) {
        assert ShownAt(r.past[|r.past| - 1], k, t.cache[k].value);
      }
      PastGrows(r.past, Moment(r.time, t.primary), ttl, k, t.cache[k]);
    }
  }

  lemma TickRemembers<K(!new)>(r: Traced<K>, ms: nat, ttl: int)
    requires Remembers(r, ttl)
    ensures Remembers(Traced(r.tiers, r.time + ms, r.past + [Moment(r.time + ms, r.tiers.primary)]), ttl)
  {
    forall k | k in r.tiers.cache
      ensures FilledInPast(r.past + [Moment(r.time + ms, r.tiers.primary)], ttl, k, r.tiers.cache[k])
    {
      PastGrows(r.past, Moment(r.time + ms, r.tiers.primary), ttl, k, r.tiers.cache[k]);
    }
  }

  lemma {:induction false} RunRemembers<K(!new)>(c: Config, r: Traced<K>, events: seq<Event<K>>, ttl: int)
    requires c.cacheTtl == Some(ttl) && Remembers(r, ttl)
    ensures Remembers(TracedRun(c, r, events), ttl)
    decreases |events|
  {
    if events != [] {
      match events[0]
      case Tick(ms) =>
        TickRemembers(r, ms, ttl);
        RunRemembers(c, Traced(r.tiers, r.time + ms, r.past + [Moment(r.time + ms, r.tiers.primary)]), events[1..], ttl);
      case Call(op) =>
        CallRemembers(c, r, op, ttl);
        var t := Serve(c, r.tiers, r.time, op).0;
        RunRemembers(c, Traced(t, r.time, r.past + [Moment(r.time, t.primary)]), events[1..], ttl);
    }
  }

  /** Served values are stale by less than the cache TTL: after any run, whatever TTLs were
      written, a value that is read was the primary's live value at some moment of the last
      `ttl` milliseconds. */
  lemma StalenessIsBounded<K(!new)>(c: Config, primary: Store<K>, now: int, events: seq<Event<K>>, ttl: int, k: K, v: Value)
    requires c.cacheTtl == Some(ttl)
    ensures var r := TracedRun(c, Traced(Tiers(primary, map[]), now, [Moment(now, primary)]), events);
            GetOne(c, r.tiers, r.time, k).1 == Ok(Some(v)) ==>
              exists i | 0 <= i < |r.past| :: r.time - ttl < r.past[i].time <= r.time && ShownAt(r.past[i], k, v)
  {
    var start := Traced(Tiers(primary, map[]), now, [Moment(now, primary)]);
    RunRemembers(c, start, events, ttl);
    var r := TracedRun(c, start, events);
    if GetOne(c, r.tiers, r.time, k).1 == Ok(Some(v)) {
      if GetValue(r.tiers.cache, r.time, k).Some? {
        assert FilledInPast(r.past, ttl, k, r.tiers.cache[k]);
        var i :| 0 <= i < |r.past| && r.tiers.cache[k].expires == Some(r.past[i].time + ttl) && ShownAt(r.past[i], k, v);
      } else {
        assert ShownAt(r.past[|r.past| - 1], k, v);
      }
    }
  }

  // ---------------------------------------------------------------- where it shows

  /** A read of an uncached value that does expire stays right at every later time exactly
      when the TTL given to cached entries runs out no later than the primary's. */
  lemma FillStaysRightIff<K(!new)>(c: Config, t: Tiers<K>, now: int, k: K)
    requires ValidTtl(c.cacheTtl) && GetValue(t.cache, now, k).None? && LiveCell(t.primary, now, k).Some?
    ensures (forall later | now <= later :: ReadsRight(GetOne(c, t, now, k).0, later, k)) <==>
            (t.primary[k].expires.Some? ==> c.cacheTtl.Some? && now + c.cacheTtl.value <= t.primary[k].expires.value)
  {
    var u := GetOne(c, t, now, k).0;
    if t.primary[k].expires.Some? && (c.cacheTtl.None? || now + c.cacheTtl.value > t.primary[k].expires.value) {
      assert !ReadsRight(u, t.primary[k].expires.value, k);
    }
  }

  predicate ReadsRight<K>(t: Tiers<K>, now: int, k: K) {
    GetValue(t.cache, now, k).Some? ==> GetValue(t.cache, now, k) == GetValue(t.primary, now, k)
  }

  /** With a TTL for cached entries that no store accepts, a read fails exactly when the cache
      misses and the primary has the value. */
  lemma BadCacheTtlFailsReadsIff<K(!new)>(c: Config, t: Tiers<K>, now: int, k: K)
    requires !ValidTtl(c.cacheTtl)
    ensures GetOne(c, t, now, k).1 == Err(InvalidTtl) <==> GetValue(t.cache, now, k).None? && GetValue(t.primary, now, k).Some?
    ensures GetOne(c, t, now, k).0 == t
  {
  }

  /** A put the primary refuses drops the cached entry and changes nothing a reader sees. */
  lemma RefusedPutIsHarmless<K(!new)>(c: Config, t: Tiers<K>, now: int, k: K, v: Value, ttl: Option<int>, token: Revision, j: K)
    requires ValidTtl(c.cacheTtl) && Coherent(t) && NothingExpires(t.primary) && !ValidTtl(ttl)
    ensures var (u, out) := Serve(c, t, now, Put(k, v, ttl, token));
            && out == Err(InvalidTtl) && Coherent(u) && u.primary == t.primary
            && GetOne(c, u, now, j).1 == GetOne(c, t, now, j).1
  {
    ServeStaysCoherent(c, t, now, Put(k, v, ttl, token));
    GetOneAgrees(c, t, now, j);
    GetOneAgrees(c, Serve(c, t, now, Put(k, v, ttl, token)).0, now, j);
  }
}
