/** The Python two-tier cache: reads come from the cache first and fill it from the primary
    store; writes drop the cached entry and go to the primary. A stored null is Python's
    None and reads as a missing value. */
module PythonCache {
  import opened Base
  import opened KeyValue
  import Entries
  import opened Enumeration
  import opened TtlClamps

  type Timed = (Option<Value>, Option<int>)

  const NOTHING: Timed := (None, None)

  function Seen(v: Option<Value>): Option<Value> {
    if v.Some? && v.value.kind.Null? then None else v
  }

  // ------------------------------------------------------- what a store answers

  function PyGet<K>(m: Store<K>, now: int, k: K): Option<Value> {
    Seen(GetValue(m, now, k))
  }

  function PyTtl<K>(m: Store<K>, now: int, k: K): Timed {
    match GetTtl(m, now, k)
    case None => NOTHING
    case Some((v, ttl)) => (Seen(Some(v)), ttl)
  }

  /** Python sees a value exactly when the store has one that is not null; the time that is left
      is seen even of a null. */
  lemma NullReadsAsMissing<K>(m: Store<K>, now: int, k: K, v: Value)
    ensures PyGet(m, now, k) == Some(v) <==> Apply(m, now, Op.Get(k)).1 == Ok(Found(Some(v))) && v.kind != Entries.Null
    ensures PyTtl(m, now, k).0 == PyGet(m, now, k)
    ensures match Apply(m, now, Op.Ttl(k)).1
            case Ok(FoundTtl(Some((_, ttl)))) => PyTtl(m, now, k).1 == ttl
            case _ => PyTtl(m, now, k) == (None, None)
  {
  }

  function PyGets<K>(m: Store<K>, now: int, ks: seq<K>): (r: seq<Option<Value>>)
    ensures |r| == |ks| && forall i | 0 <= i < |ks| :: r[i] == PyGet(m, now, ks[i])
  {
    seq(|ks|, i requires 0 <= i < |ks| => PyGet(m, now, ks[i]))
  }

  function PyTtls<K>(m: Store<K>, now: int, ks: seq<K>): (r: seq<Timed>)
    ensures |r| == |ks| && forall i | 0 <= i < |ks| :: r[i] == PyTtl(m, now, ks[i])
  {
    seq(|ks|, i requires 0 <= i < |ks| => PyTtl(m, now, ks[i]))
  }

  // -------------------------------------------------------------------- the tiers

  /** `token` stands for the revisions the cache store issues. */
  datatype Config = Config(clamp: TtlClamp, token: Revision)

  predicate ValidConfig(c: Config) {
    Accepted(c.clamp) && c.clamp.min == 0
  }

  /** The cached cell is what the primary has, and goes no later. */
  predicate Backed(primary: Cell, cached: Cell) {
    && cached.value == primary.value && !cached.value.kind.Null?
    && (primary.expires.Some? ==> cached.expires.Some? && cached.expires.value <= primary.expires.value)
  }

  ghost predicate Coherent<K(!new)>(t: Tiers<K>, now: int) {
    forall k | k in t.cache && t.cache[k].Live(now) :: k in t.primary && Backed(t.primary[k], t.cache[k])
  }

  /** The cell written into the cache for a live primary cell. */
  function CachedCell(c: Config, now: int, cell: Cell): Cell
    requires ValidConfig(c) && cell.Live(now)
  {
    ClampStaysInBounds(c.clamp, cell.Ttl(now));
    NewCell(now, cell.value, Clamped(c.clamp, cell.Ttl(now)).value, c.token)
  }

  predicate Fills<K>(t: Tiers<K>, now: int, k: K) {
    PyGet(t.cache, now, k).None? && PyGet(t.primary, now, k).Some?
  }

  /** The cache after the keys of `ks` were asked for. */
  ghost function Refilled<K(!new)>(c: Config, t: Tiers<K>, now: int, ks: set<K>): Store<K>
    requires ValidConfig(c)
  {
    t.cache + map k | k in ks && Fills(t, now, k) :: CachedCell(c, now, t.primary[k])
  }

  // ------------------------------------------------------------------ coherence

  /** A cached value that is still live is the primary's live value, and stays so as time
      goes by. */
  lemma CoherentRead<K(!new)>(t: Tiers<K>, now: int, later: int, k: K)
    requires Coherent(t, now) && now <= later
    ensures Coherent(t, later)
    ensures PyGet(t.cache, later, k).Some? ==> PyGet(t.cache, later, k) == PyGet(t.primary, later, k)
    ensures LiveCell(t.cache, later, k).Some? ==> LiveCell(t.primary, later, k).Some? && PyGet(t.cache, later, k).Some?
  {
    forall j | j in t.cache && t.cache[j].Live(later) ensures j in t.primary && Backed(t.primary[j], t.cache[j]) {
      assert t.cache[j].Live(now);
    }
  }

  lemma RefilledCoherent<K(!new)>(c: Config, t: Tiers<K>, now: int, ks: set<K>)
    requires ValidConfig(c) && Coherent(t, now)
    ensures Coherent(t.(cache := Refilled(c, t, now, ks)), now)
  {
  }

  lemma RefilledAt<K(!new)>(c: Config, t: Tiers<K>, now: int, ks: set<K>, k: K)
    requires ValidConfig(c)
    ensures var r := Refilled(c, t, now, ks);
            if k in ks && Fills(t, now, k)
            then k in r && r[k] == CachedCell(c, now, t.primary[k]) && PyGet(r, now, k).Some?
            else (k in r <==> k in t.cache) && (k in r ==> r[k] == t.cache[k])
  {
    if k in ks && Fills(t, now, k) {
      ClampStaysInBounds(c.clamp, t.primary[k].Ttl(now));
    }
  }

  /** Filling for some keys and then for others is filling for all of them: so asking for a
      batch leaves the cache as asking one key at a time does. */
  lemma RefilledCompose<K(!new)>(c: Config, t: Tiers<K>, now: int, a: set<K>, b: set<K>)
    requires ValidConfig(c)
    ensures Refilled(c, t.(cache := Refilled(c, t, now, a)), now, b) == Refilled(c, t, now, a + b)
  {
    var u := t.(cache := Refilled(c, t, now, a));
    var left, right := Refilled(c, u, now, b), Refilled(c, t, now, a + b);
    forall k ensures (k in left <==> k in right) && (k in left ==> left[k] == right[k]) {
      RefilledAt(c, t, now, a, k);
      RefilledAt(c, u, now, b, k);
      RefilledAt(c, t, now, a + b, k);
    }
  }

  // ------------------------------------------------------------------------ calls

  datatype Call<K> =
    | Get(key: K)
    | GetMany(keys: seq<K>)
    | Ttl(key: K)
    | TtlMany(keys: seq<K>)
    | Write(op: Op<K>)

  datatype Answer =
    | OneValue(value: Option<Value>)
    | ManyValues(values: seq<Option<Value>>)
    | OneTimed(entry: Timed)
    | ManyTimed(entries: seq<Timed>)
    | Written(outcome: Result<Outcome>)

  /** The four writing operations. */
  predicate IsWrite<K>(op: Op<K>) {
    op.Put? || op.PutMany? || op.Delete? || op.DeleteMany?
  }

  predicate ValidCall<K>(call: Call<K>) {
    call.Write? ==> IsWrite(call.op)
  }

  function KeysWritten<K>(op: Op<K>): set<K>
    requires IsWrite(op)
  {
    match op
    case Put(k, _, _, _) => {k}
    case Delete(k) => {k}
    case PutMany(ks, _, _, _) => Elements(ks)
    case DeleteMany(ks) => Elements(ks)
  }

  /** What the bare primary store does with a call. */
  function Direct<K>(m: Store<K>, now: int, call: Call<K>): (Store<K>, Answer)
    requires ValidCall(call)
  {
    match call
    case Get(k) => (m, OneValue(PyGet(m, now, k)))
    case GetMany(ks) => (m, ManyValues(PyGets(m, now, ks)))
    case Ttl(k) => (m, OneTimed(PyTtl(m, now, k)))
    case TtlMany(ks) => (m, ManyTimed(PyTtls(m, now, ks)))
    case Write(op) => var (m', out) := Apply(m, now, op); (m', Written(out))
  }

  function ServedValue<K>(t: Tiers<K>, now: int, k: K): Option<Value> {
    var cached := PyGet(t.cache, now, k);
    if cached.Some? then cached else PyGet(t.primary, now, k)
  }

  function ServedValues<K>(t: Tiers<K>, now: int, ks: seq<K>): (r: seq<Option<Value>>)
    ensures |r| == |ks| && forall i | 0 <= i < |ks| :: r[i] == ServedValue(t, now, ks[i])
  {
    seq(|ks|, i requires 0 <= i < |ks| => ServedValue(t, now, ks[i]))
  }

  function ServedTimed<K>(t: Tiers<K>, now: int, k: K): Timed {
    var cached := PyTtl(t.cache, now, k);
    if cached.0.Some? then cached else
      var uncached := PyTtl(t.primary, now, k);
      if uncached.0.None? then NOTHING else uncached
  }

  /** The batch form hands a null's TTL through, the single form does not. */
  function ServedTimedInBatch<K>(t: Tiers<K>, now: int, k: K): Timed {
    var cached := PyTtl(t.cache, now, k);
    if cached == NOTHING then PyTtl(t.primary, now, k) else cached
  }

  function MissedTimed<K>(t: Tiers<K>, now: int, ks: seq<K>): set<K> {
    set k | k in ks && PyTtl(t.cache, now, k) == NOTHING
  }

  /** What the wrapper does with a call. */
  ghost function Serve<K(!new)>(c: Config, t: Tiers<K>, now: int, call: Call<K>): (Tiers<K>, Answer)
    requires ValidConfig(c) && ValidCall(call)
  {
    match call
    case Get(k) => (t.(cache := Refilled(c, t, now, {k})), OneValue(ServedValue(t, now, k)))
    case GetMany(ks) =>
      (t.(cache := Refilled(c, t, now, Elements(ks))),
       ManyValues(ServedValues(t, now, ks)))
    case Ttl(k) => (t.(cache := Refilled(c, t, now, {k})), OneTimed(ServedTimed(t, now, k)))
    case TtlMany(ks) =>
      (t.(cache := Refilled(c, t, now, MissedTimed(t, now, ks))),
       ManyTimed(seq(|ks|, i requires 0 <= i < |ks| => ServedTimedInBatch(t, now, ks[i]))))
    case Write(op) =>
      var (primary, out) := Apply(t.primary, now, op);
      (Tiers(primary, t.cache - KeysWritten(op)), Written(out))
  }

  // ----------------------------------------------------------------- transparency

  /** A remaining time that is no longer than another, nothing being forever. */
  predicate NoLonger(a: Option<int>, b: Option<int>) {
    b.Some? ==> a.Some? && a.value <= b.value
  }

  /** The wrapper's answer is as good as the primary's: same values and outcomes, and a TTL
      that is never longer. */
  predicate TimedAgrees(a: Timed, b: Timed) {
    a.0 == b.0 && (a.0.Some? ==> NoLonger(a.1, b.1))
  }

  predicate Agrees(a: Answer, b: Answer) {
    match (a, b)
    case (OneTimed(x), OneTimed(y)) => TimedAgrees(x, y)
    case (ManyTimed(xs), ManyTimed(ys)) => |xs| == |ys| && forall i | 0 <= i < |xs| :: TimedAgrees(xs[i], ys[i])
    case _ => a == b
  }

  lemma ServedAgrees<K(!new)>(t: Tiers<K>, now: int, k: K)
    requires Coherent(t, now)
    ensures ServedValue(t, now, k) == PyGet(t.primary, now, k)
    ensures TimedAgrees(ServedTimed(t, now, k), PyTtl(t.primary, now, k))
    ensures TimedAgrees(ServedTimedInBatch(t, now, k), PyTtl(t.primary, now, k))
  {
    CoherentRead(t, now, now, k);
  }

  /** A write touches no other key of the primary. */
  lemma WriteLeavesOthers<K(!new)>(m: Store<K>, now: int, op: Op<K>, k: K)
    requires IsWrite(op) && k !in KeysWritten(op)
    ensures var m' := Apply(m, now, op).0; (k in m' <==> k in m) && (k in m ==> m'[k] == m[k])
  {
    match op
    case PutMany(ks, vs, ttl, tokens) =>
      if |ks| == |vs| && ValidTtl(ttl) {
        PutAllLeavesOthers(m, now, ks, vs, ttl, tokens, 0, k);
      }
    case DeleteMany(ks) => DeleteAllLeavesOthers(m, ks, k);
    case _ =>
  }

  lemma {:induction false} PutAllLeavesOthers<K(!new)>(m: Store<K>, now: int, ks: seq<K>, vs: seq<Value>, ttl: Option<int>,
                                                      tokens: nat -> Revision, i: nat, k: K)
    requires i <= |ks| == |vs| && k !in ks
    ensures var m' := PutAll(m, now, ks, vs, ttl, tokens, i); (k in m' <==> k in m) && (k in m ==> m'[k] == m[k])
    decreases |ks| - i
  {
    if i < |ks| {
      PutAllLeavesOthers(m[ks[i] := NewCell(now, vs[i], ttl, tokens(i))], now, ks, vs, ttl, tokens, i + 1, k);
    }
  }

  lemma {:induction false} DeleteAllLeavesOthers<K(!new)>(m: Store<K>, ks: seq<K>, k: K)
    requires k !in ks
    ensures var m' := DeleteAll(m, ks).0; (k in m' <==> k in m) && (k in m ==> m'[k] == m[k])
  {
    if ks != [] {
      DeleteAllLeavesOthers(Remove(m, ks[0]), ks[1..], k);
    }
  }

  /** One call: the primary ends up as if it had been called directly, the cache stays
      coherent, and the answer is as good as the primary's. */
  lemma CallIsTransparent<K(!new)>(c: Config, t: Tiers<K>, now: int, call: Call<K>)
    requires ValidConfig(c) && ValidCall(call) && Coherent(t, now)
    ensures Coherent(Serve(c, t, now, call).0, now)
    ensures Serve(c, t, now, call).0.primary == Direct(t.primary, now, call).0
    ensures Agrees(Serve(c, t, now, call).1, Direct(t.primary, now, call).1)
  {
    match call
    case Get(k) => ServedAgrees(t, now, k); RefilledCoherent(c, t, now, {k});
    case Ttl(k) => ServedAgrees(t, now, k); RefilledCoherent(c, t, now, {k});
    case GetMany(ks) => BatchAgrees(t, now, ks); RefilledCoherent(c, t, now, Elements(ks));
    case TtlMany(ks) => BatchAgrees(t, now, ks); RefilledCoherent(c, t, now, MissedTimed(t, now, ks));
    case Write(op) => WriteStaysCoherent(t, now, op);
  }

  lemma BatchAgrees<K(!new)>(t: Tiers<K>, now: int, ks: seq<K>)
    requires Coherent(t, now)
    ensures ServedValues(t, now, ks) == PyGets(t.primary, now, ks)
    ensures forall i | 0 <= i < |ks| :: TimedAgrees(ServedTimedInBatch(t, now, ks[i]), PyTtl(t.primary, now, ks[i]))
  {
    forall i | 0 <= i < |ks|
      ensures ServedValue(t, now, ks[i]) == PyGet(t.primary, now, ks[i])
      ensures TimedAgrees(ServedTimedInBatch(t, now, ks[i]), PyTtl(t.primary, now, ks[i]))
    {
      ServedAgrees(t, now, ks[i]);
    }
  }

  lemma WriteStaysCoherent<K(!new)>(t: Tiers<K>, now: int, op: Op<K>)
    requires IsWrite(op) && Coherent(t, now)
    ensures Coherent(Tiers(Apply(t.primary, now, op).0, t.cache - KeysWritten(op)), now)
  {
    var u := Tiers(Apply(t.primary, now, op).0, t.cache - KeysWritten(op));
    forall k | k in u.cache && u.cache[k].Live(now) ensures k in u.primary && Backed(u.primary[k], u.cache[k]) {
      WriteLeavesOthers(t.primary, now, op, k);
    }
  }

  // ---------------------------------------------------------- batches and loops

  /** One `get` after the other. */
  ghost function GetLoop<K(!new)>(c: Config, t: Tiers<K>, now: int, ks: seq<K>): (Tiers<K>, seq<Option<Value>>)
    requires ValidConfig(c)
    decreases |ks|
  {
    if ks == [] then (t, []) else
      var (u, values) := GetLoop(c, t.(cache := Refilled(c, t, now, {ks[0]})), now, ks[1..]);
      (u, [ServedValue(t, now, ks[0])] + values)
  }

  lemma RefillingKeepsServed<K(!new)>(c: Config, t: Tiers<K>, now: int, a: set<K>, k: K)
    requires ValidConfig(c)
    ensures ServedValue(t.(cache := Refilled(c, t, now, a)), now, k) == ServedValue(t, now, k)
  {
    RefilledAt(c, t, now, a, k);
  }

  /** A batch read is the loop of single reads, repeated keys included: same values, same
      cache afterwards. */
  lemma {:induction false} GetManyIsTheGetLoop<K(!new)>(c: Config, t: Tiers<K>, now: int, ks: seq<K>)
    requires ValidConfig(c)
    ensures var (u, answer) := Serve(c, t, now, Call.GetMany(ks));
            answer == ManyValues(GetLoop(c, t, now, ks).1) && u == GetLoop(c, t, now, ks).0
    decreases |ks|
  {
    if ks == [] {
      assert Refilled(c, t, now, Elements(ks)) == t.cache;
    } else {
      var k, rest := ks[0], ks[1..];
      var first := t.(cache := Refilled(c, t, now, {k}));
      GetManyIsTheGetLoop(c, first, now, rest);
      RefilledCompose(c, t, now, {k}, Elements(rest));
      ElementsCons(ks);
      ServedAfterRefill(c, t, now, {k}, rest);
      ServedCons(t, now, ks, k, rest);
    }
  }

  lemma ServedAfterRefill<K(!new)>(c: Config, t: Tiers<K>, now: int, a: set<K>, ks: seq<K>)
    requires ValidConfig(c)
    ensures ServedValues(t.(cache := Refilled(c, t, now, a)), now, ks) == ServedValues(t, now, ks)
  {
    var u := t.(cache := Refilled(c, t, now, a));
    forall i | 0 <= i < |ks| ensures ServedValue(u, now, ks[i]) == ServedValue(t, now, ks[i]) {
      RefillingKeepsServed(c, t, now, a, ks[i]);
    }
  }

  lemma ServedCons<K>(t: Tiers<K>, now: int, ks: seq<K>, k: K, rest: seq<K>)
    requires ks != [] && k == ks[0] && rest == ks[1..]
    ensures ServedValues(t, now, ks) == [ServedValue(t, now, k)] + ServedValues(t, now, rest)
  {
  }

  // ------------------------------------------------------------------------- runs

  datatype Event<K> = Tick(ms: nat) | Call(call: Call<K>)

  predicate ValidRun<K>(events: seq<Event<K>>) {
    forall i | 0 <= i < |events| :: events[i].Call? ==> ValidCall(events[i].call)
  }

  ghost function ServeRun<K(!new)>(c: Config, t: Tiers<K>, now: int, events: seq<Event<K>>): (Tiers<K>, seq<Answer>)
    requires ValidConfig(c) && ValidRun(events)
    decreases |events|
  {
    if events == [] then (t, []) else
      match events[0]
      case Tick(ms) => ServeRun(c, t, now + ms, events[1..])
      case Call(call) =>
        var (t', answer) := Serve(c, t, now, call);
        var (end, answers) := ServeRun(c, t', now, events[1..]);
        (end, [answer] + answers)
  }

  ghost function DirectRun<K(!new)>(m: Store<K>, now: int, events: seq<Event<K>>): (Store<K>, seq<Answer>)
    requires ValidRun(events)
    decreases |events|
  {
    if events == [] then (m, []) else
      match events[0]
      case Tick(ms) => DirectRun(m, now + ms, events[1..])
      case Call(call) =>
        var (m', answer) := Direct(m, now, call);
        var (end, answers) := DirectRun(m', now, events[1..]);
        (end, [answer] + answers)
  }

  ghost predicate AllAgree(a: seq<Answer>, b: seq<Answer>) {
    |a| == |b| && forall i | 0 <= i < |a| :: Agrees(a[i], b[i])
  }

  lemma {:induction false} RunIsTransparent<K(!new)>(c: Config, t: Tiers<K>, now: int, events: seq<Event<K>>)
    requires ValidConfig(c) && ValidRun(events) && Coherent(t, now)
    ensures ServeRun(c, t, now, events).0.primary == DirectRun(t.primary, now, events).0
    ensures AllAgree(ServeRun(c, t, now, events).1, DirectRun(t.primary, now, events).1)
    decreases |events|
  {
    if events != [] {
      match events[0]
      case Tick(ms) =>
        forall k | k in t.cache && t.cache[k].Live(now + ms) ensures k in t.primary && Backed(t.primary[k], t.cache[k]) {
          assert t.cache[k].Live(now);
        }
        RunIsTransparent(c, t, now + ms, events[1..]);
      case Call(call) =>
        CallIsTransparent(c, t, now, call);
        RunIsTransparent(c, Serve(c, t, now, call).0, now, events[1..]);
    }
  }

  /** The wrapper cannot be told from its primary store: in every sequential run of calls and
      of time passing, starting from an empty cache, all answers are as good as the primary's
      own and the primary ends up the same. */
  lemma CacheIsTransparent<K(!new)>(c: Config, primary: Store<K>, now: int, events: seq<Event<K>>)
    requires ValidConfig(c) && ValidRun(events)
    ensures var (t, answers) := ServeRun(c, Tiers(primary, map[]), now, events);
            var (m, direct) := DirectRun(primary, now, events);
            t.primary == m && AllAgree(answers, direct)
  {
    RunIsTransparent(c, Tiers(primary, map[]), now, events);
  }

  // --------------------------------------------------------------- where it shows

  /** A single `ttl` answers exactly as the primary in two cases: from the cache, when the
      cached entry was not given a shorter time; from the primary, unless a null with an
      expiry is stored there, whose time is dropped. */
  lemma TtlIsExactIff<K(!new)>(t: Tiers<K>, now: int, k: K)
    requires Coherent(t, now)
    ensures ServedTimed(t, now, k) == PyTtl(t.primary, now, k) <==>
            if LiveCell(t.cache, now, k).Some? then t.cache[k].expires == t.primary[k].expires
            else LiveCell(t.primary, now, k).Some? && t.primary[k].value.kind.Null? ==> t.primary[k].expires.None?
  {
    CoherentRead(t, now, now, k);
  }

  /** For such a null the batch form and the single form disagree. */
  lemma BatchTtlDiffersIff<K(!new)>(t: Tiers<K>, now: int, k: K)
    requires Coherent(t, now)
    ensures ServedTimed(t, now, k) != ServedTimedInBatch(t, now, k) <==>
            LiveCell(t.primary, now, k).Some? && t.primary[k].value.kind.Null? && t.primary[k].expires.Some?
  {
    CoherentRead(t, now, now, k);
  }

  /** Filling the cache is exact for as long as it lasts, and after, if and only if the
      primary's remaining time is no more than the clamp allows; an entry that does not expire
      is filled exactly only when there is no TTL for missing ones. */
  lemma FilledTtlIsExactIff<K(!new)>(c: Config, t: Tiers<K>, now: int, k: K)
    requires ValidConfig(c) && Fills(t, now, k)
    ensures var u := Serve(c, t, now, Call.Ttl(k)).0;
            (forall later | now <= later :: TtlExactAt(u, later, k)) <==>
            match t.primary[k].expires
            case None => c.clamp.missing.None?
            case Some(at) => at - now <= c.clamp.max
  {
    var u := Serve(c, t, now, Call.Ttl(k)).0;
    RefilledAt(c, t, now, {k}, k);
    var right := match t.primary[k].expires case None => c.clamp.missing.None? case Some(at) => at - now <= c.clamp.max;
    if right {
      forall later | now <= later ensures TtlExactAt(u, later, k) {
      }
    } else {
      assert !TtlExactAt(u, now, k);
    }
  }

  predicate TtlExactAt<K>(t: Tiers<K>, now: int, k: K) {
    ServedTimed(t, now, k) == PyTtl(t.primary, now, k)
  }

  /** The two halves of a `put` with a `get` in between. */
  ghost function InterleavedPut<K(!new)>(c: Config, t: Tiers<K>, now: int, k: K, value: Value, ttl: Option<int>, token: Revision): Tiers<K>
    requires ValidConfig(c)
  {
    var dropped := t.(cache := Remove(t.cache, k));
    var read := Serve(c, dropped, now, Call.Get(k)).0;
    read.(primary := Apply(read.primary, now, Op.Put(k, value, ttl, token)).0)
  }

  /** A `get` that runs between the two halves of a `put` brings the old value back into the
      cache: later reads are wrong exactly when the put is accepted and there was an old value
      that differs from the new one, and then they show the old one. */
  lemma InterleavedPutLeavesStaleValue<K(!new)>(c: Config, t: Tiers<K>, now: int, k: K, value: Value, ttl: Option<int>, token: Revision)
    requires ValidConfig(c)
    ensures var end := InterleavedPut(c, t, now, k, value, ttl, token);
            && (ServedValue(end, now, k) != PyGet(end.primary, now, k) <==>
                  ValidTtl(ttl) && PyGet(t.primary, now, k).Some? && PyGet(t.primary, now, k) != Some(value))
            && (ServedValue(end, now, k) != PyGet(end.primary, now, k) ==>
                  ServedValue(end, now, k) == PyGet(t.primary, now, k) && !Coherent(end, now))
  {
    var dropped := t.(cache := Remove(t.cache, k));
    RefilledAt(c, dropped, now, {k}, k);
    var end := InterleavedPut(c, t, now, k, value, ttl, token);
    if Coherent(end, now) {
      CoherentRead(end, now, now, k);
    }
  }
}
