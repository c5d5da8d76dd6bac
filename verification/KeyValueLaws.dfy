/** What the operations of the store contract promise each other: how long a write is read back,
    which swaps win, and that no update based on an outdated revision gets through. */
module KeyValueLaws {
  import opened Base
  import opened KeyValue
  import opened Enumeration

  /** Nothing that is read of a key, now or later, differs. */
  ghost predicate SameReads<K>(a: Store<K>, b: Store<K>, now: int, k: K) {
    forall later | now <= later :: SameAt(a, b, later, k)
  }

  predicate SameAt<K>(a: Store<K>, b: Store<K>, later: int, k: K) {
    && Apply(a, later, Get(k)).1 == Apply(b, later, Get(k)).1
    && Apply(a, later, Ttl(k)).1 == Apply(b, later, Ttl(k)).1
    && Apply(a, later, GetWithRevision(k)).1 == Apply(b, later, GetWithRevision(k)).1
  }

  /** What all three reads show of a key written at `now`: the value until its time is up, with
      the time that is left, and nothing from then on. */
  predicate ShowsWritten<K>(m: Store<K>, now: int, k: K, v: Value, ttl: Option<int>, token: Revision, later: int) {
    var left := if ttl.Some? then Some(now + ttl.value - later) else None;
    if ttl.Some? && now + ttl.value <= later then
      && Apply(m, later, Get(k)).1 == Ok(Found(None))
      && Apply(m, later, Ttl(k)).1 == Ok(FoundTtl(None))
      && Apply(m, later, GetWithRevision(k)).1 == Ok(Current(None))
    else
      && Apply(m, later, Get(k)).1 == Ok(Found(Some(v)))
      && Apply(m, later, Ttl(k)).1 == Ok(FoundTtl(Some((v, left))))
      && Apply(m, later, GetWithRevision(k)).1 == Ok(Current(Some(Revisioned(v, token, left))))
  }

  // ---------------------------------------------------------------- reads and writes

  /** Reading changes nothing. */
  lemma ReadsChangeNothing<K(!new)>(m: Store<K>, now: int, op: Op<K>)
    requires op.Get? || op.Ttl? || op.GetMany? || op.TtlMany? || op.GetWithRevision?
    ensures Apply(m, now, op).0 == m
  {
  }

  /** A batch read answers, place by place, what single reads would. */
  lemma BatchReadsAreReads<K(!new)>(m: Store<K>, now: int, ks: seq<K>)
    ensures match Apply(m, now, GetMany(ks)).1
            case Ok(FoundMany(vs)) => |vs| == |ks| && forall i | 0 <= i < |ks| :: Apply(m, now, Get(ks[i])).1 == Ok(Found(vs[i]))
            case _ => false
    ensures match Apply(m, now, TtlMany(ks)).1
            case Ok(FoundTtlMany(es)) => |es| == |ks| && forall i | 0 <= i < |ks| :: Apply(m, now, Ttl(ks[i])).1 == Ok(FoundTtl(es[i]))
            case _ => false
  {
  }

  /** A put is refused exactly for a time that is not positive. An accepted one is read back
      until its time is up, and no other key's reads change. */
  lemma PutThenRead<K(!new)>(m: Store<K>, now: int, k: K, v: Value, ttl: Option<int>, token: Revision, later: int, j: K)
    requires now <= later
    ensures var (after, out) := Apply(m, now, Put(k, v, ttl, token));
            if ttl.Some? && ttl.value <= 0 then out == Err(InvalidTtl) && after == m
            else && out == Ok(Done) && ShowsWritten(after, now, k, v, ttl, token, later)
                 && (j != k ==> SameReads(m, after, now, j))
  {
  }

  /** A delete reports a key that can be read, and afterwards nothing is read of it. */
  lemma DeleteThenRead<K(!new)>(m: Store<K>, now: int, k: K, later: int, j: K)
    ensures var (after, out) := Apply(m, now, Delete(k));
            && Apply(after, later, Get(k)).1 == Ok(Found(None)) && Apply(after, later, GetWithRevision(k)).1 == Ok(Current(None))
            && (Apply(m, now, Get(k)).1 != Ok(Found(None)) ==> out == Ok(Deleted(true)))
            && Apply(after, now, Delete(k)).1 == Ok(Deleted(false))
            && (j != k ==> SameReads(m, after, now, j))
  {
  }

  // ------------------------------------------------------------------ conditional writes

  /** The operation expects revision `r` of key `k`. */
  predicate Expects<K(==)>(op: Op<K>, k: K, r: Revision) {
    || (op.CompareAndSwap? && op.key == k && op.expected == Some(r))
    || (op.CompareAndDelete? && op.key == k && op.expectedToken == r)
  }

  predicate Succeeded(out: Result<Outcome>) {
    out.Ok? && (out.value.Applied? || out.value.CasDeleted?)
  }

  predicate Refused(out: Result<Outcome>, current: Option<Revisioned>) {
    out == Ok(Conflict(current))
  }

  /** A conditional operation that expects a revision goes through exactly when that is the one
      a read would report now; otherwise it reports what the read would, and changes no read. */
  lemma ConditionalIff<K(!new)>(m: Store<K>, now: int, op: Op<K>, k: K, r: Revision, j: K)
    requires Expects(op, k, r) && (op.CompareAndSwap? && op.ttl.Some? ==> op.ttl.value > 0)
    ensures var (after, out) := Apply(m, now, op);
            var seen := Apply(m, now, GetWithRevision(k)).1;
            && seen.Ok? && seen.value.Current?
            && (Succeeded(out) <==> seen.value.current.Some? && seen.value.current.value.revision == r)
            && (!Succeeded(out) ==> Refused(out, seen.value.current) && SameReads(m, after, now, j))
            && (j != k ==> SameReads(m, after, now, j))
  {
  }

  /** A swap that expects nothing goes through exactly when a read finds nothing. */
  lemma CreateIff<K(!new)>(m: Store<K>, now: int, k: K, v: Value, ttl: Option<int>, token: Revision, j: K)
    requires ttl.Some? ==> ttl.value > 0
    ensures var (after, out) := Apply(m, now, CompareAndSwap(k, None, v, ttl, token));
            var seen := Apply(m, now, GetWithRevision(k)).1;
            && seen.Ok? && seen.value.Current?
            && (out == Ok(Applied(token)) <==> Apply(m, now, Get(k)).1 == Ok(Found(None)))
            && (!Succeeded(out) ==> Refused(out, seen.value.current) && SameReads(m, after, now, j))
            && (j != k ==> SameReads(m, after, now, j))
  {
  }

  /** A swap with a time that is not positive is refused and changes nothing; one that goes
      through leaves what it wrote, under the revision it reports. */
  lemma SwapThenRead<K(!new)>(m: Store<K>, now: int, k: K, expected: Option<Revision>, v: Value, ttl: Option<int>,
                              token: Revision, later: int)
    requires now <= later
    ensures var (after, out) := Apply(m, now, CompareAndSwap(k, expected, v, ttl, token));
            && (out.Err? <==> ttl.Some? && ttl.value <= 0)
            && (out.Err? ==> out == Err(InvalidTtl) && after == m)
            && (Succeeded(out) ==> out == Ok(Applied(token)) && ShowsWritten(after, now, k, v, ttl, token, later))
  {
  }

  /** A conditional delete that goes through leaves nothing to read. */
  lemma CompareAndDeleteThenRead<K(!new)>(m: Store<K>, now: int, k: K, r: Revision, later: int)
    ensures var (after, out) := Apply(m, now, CompareAndDelete(k, r));
            Succeeded(out) ==> out == Ok(CasDeleted) && Apply(after, later, GetWithRevision(k)).1 == Ok(Current(None))
  {
  }

  // ------------------------------------------------------------------------- batches

  /** The last position at which a batch names a key. */
  predicate IsLast<K(==)>(ks: seq<K>, i: nat, k: K) {
    i < |ks| && ks[i] == k && forall j | i < j < |ks| :: ks[j] != k
  }

  lemma {:induction false} PutAllAt<K(!new)>(m: Store<K>, now: int, ks: seq<K>, vs: seq<Value>, ttl: Option<int>,
                                             tokens: nat -> Revision, from: nat, k: K)
    requires from <= |ks| == |vs|
    ensures var after := PutAll(m, now, ks, vs, ttl, tokens, from);
            && ((forall i | from <= i < |ks| :: ks[i] != k) ==> (k in after <==> k in m) && (k in m ==> after[k] == m[k]))
            && (forall i: nat | from <= i && IsLast(ks, i, k) :: k in after && after[k] == NewCell(now, vs[i], ttl, tokens(i)))
    decreases |ks| - from
  {
    if from < |ks| {
      PutAllAt(m[ks[from] := NewCell(now, vs[from], ttl, tokens(from))], now, ks, vs, ttl, tokens, from + 1, k);
    }
  }

  /** A batch of puts is refused for sizes that differ or a time that is not positive.
      Otherwise every key reads as its last put wrote it, and no other key's reads change. */
  lemma PutManyThenRead<K(!new)>(m: Store<K>, now: int, ks: seq<K>, vs: seq<Value>, ttl: Option<int>, tokens: nat -> Revision,
                                 later: int, k: K)
    requires now <= later
    ensures var (after, out) := Apply(m, now, PutMany(ks, vs, ttl, tokens));
            if |ks| != |vs| then out == Err(BatchSizeMismatch(|ks|, |vs|)) && after == m
            else if ttl.Some? && ttl.value <= 0 then out == Err(InvalidTtl) && after == m
            else && out == Ok(Done)
                 && (k !in ks ==> SameReads(m, after, now, k))
                 && (forall i: nat | IsLast(ks, i, k) :: ShowsWritten(after, now, k, vs[i], ttl, tokens(i), later))
  {
    if |ks| == |vs| {
      PutAllAt(m, now, ks, vs, ttl, tokens, 0, k);
    }
  }

  /** A batch of deletes removes the named keys, counts each one that was there once, and
      touches no other. */
  lemma {:induction false} DeleteManyRemoves<K(!new)>(m: Store<K>, now: int, ks: seq<K>)
    ensures Apply(m, now, DeleteMany(ks)) == (m - Elements(ks), Ok(DeletedMany(|m.Keys * Elements(ks)|)))
  {
    DeleteAllRemoves(m, ks);
  }

  lemma {:induction false} DeleteAllRemoves<K(!new)>(m: Store<K>, ks: seq<K>)
    ensures DeleteAll(m, ks) == (m - Elements(ks), |m.Keys * Elements(ks)|)
    decreases |ks|
  {
    if ks == [] {
      NothingDeleted(m, Elements(ks));
    } else {
      DeleteAllRemoves(Remove(m, ks[0]), ks[1..]);
      ElementsCons(ks);
      DeleteOneMore(m, Elements(ks[1..]), ks[0]);
    }
  }

  // ---------------------------------------------------------------------------- runs

  type Call<K> = (int, Op<K>)

  /** The outcomes of operations performed one after the other, each at its time. */
  function Outcomes<K>(m: Store<K>, calls: seq<Call<K>>): (r: seq<Result<Outcome>>)
    ensures |r| == |calls|
    decreases |calls|
  {
    if calls == [] then [] else
      var (after, out) := Apply(m, calls[0].0, calls[0].1);
      [out] + Outcomes(after, calls[1..])
  }

  /** The operation gives no entry the revision `r`. */
  predicate NeverIssues<K>(op: Op<K>, r: Revision) {
    match op
    case Put(_, _, _, token) => token != r
    case PutMany(ks, _, _, tokens) => forall i | 0 <= i < |ks| :: tokens(i) != r
    case CompareAndSwap(_, _, _, _, token) => token != r
    case _ => true
  }

  predicate Gone<K>(m: Store<K>, k: K, r: Revision) {
    k in m ==> m[k].revision != r
  }

  lemma {:induction false} PutAllStaysGone<K(!new)>(m: Store<K>, now: int, ks: seq<K>, vs: seq<Value>, ttl: Option<int>,
                                                    tokens: nat -> Revision, from: nat, k: K, r: Revision)
    requires from <= |ks| == |vs| && Gone(m, k, r) && forall i | 0 <= i < |ks| :: tokens(i) != r
    ensures Gone(PutAll(m, now, ks, vs, ttl, tokens, from), k, r)
    decreases |ks| - from
  {
    if from < |ks| {
      PutAllStaysGone(m[ks[from] := NewCell(now, vs[from], ttl, tokens(from))], now, ks, vs, ttl, tokens, from + 1, k, r);
    }
  }

  lemma StaysGone<K(!new)>(m: Store<K>, now: int, op: Op<K>, k: K, r: Revision)
    requires Gone(m, k, r) && NeverIssues(op, r)
    ensures Gone(Apply(m, now, op).0, k, r)
  {
    match op
    case PutMany(ks, vs, ttl, tokens) =>
      if |ks| == |vs| {
        PutAllStaysGone(m, now, ks, vs, ttl, tokens, 0, k, r);
      }
    case DeleteMany(ks) => DeleteAllRemoves(m, ks);
    case _ =>
  }

  lemma {:induction false} GoneFailsAll<K(!new)>(m: Store<K>, calls: seq<Call<K>>, k: K, r: Revision, i: nat)
    requires Gone(m, k, r) && forall j | 0 <= j < |calls| :: NeverIssues(calls[j].1, r)
    requires i < |calls| && Expects(calls[i].1, k, r)
    ensures !Succeeded(Outcomes(m, calls)[i])
    decreases |calls|
  {
    var (now, op) := calls[0];
    if i > 0 {
      assert NeverIssues(calls[0].1, r);
      StaysGone(m, now, op, k, r);
      assert forall j | 0 <= j < |calls[1..]| :: calls[1..][j] == calls[j + 1];
      GoneFailsAll(Apply(m, now, op).0, calls[1..], k, r, i - 1);
    }
  }

  /** No lost update: in every run whose writes never issue an observed revision again, at most
      one of the conditional operations that expect it goes through. */
  lemma {:induction false} AtMostOneSucceeds<K(!new)>(m: Store<K>, calls: seq<Call<K>>, k: K, r: Revision, i: nat, j: nat)
    requires forall n | 0 <= n < |calls| :: NeverIssues(calls[n].1, r)
    requires i < j < |calls| && Expects(calls[i].1, k, r) && Expects(calls[j].1, k, r)
    ensures !(Succeeded(Outcomes(m, calls)[i]) && Succeeded(Outcomes(m, calls)[j]))
    decreases |calls|
  {
    var (now, op) := calls[0];
    var after := Apply(m, now, op).0;
    assert NeverIssues(calls[0].1, r);
    assert forall n | 0 <= n < |calls[1..]| :: calls[1..][n] == calls[n + 1];
    if i > 0 {
      AtMostOneSucceeds(after, calls[1..], k, r, i - 1, j - 1);
    } else if Succeeded(Apply(m, now, op).1) {
      assert Gone(after, k, r);
      GoneFailsAll(after, calls[1..], k, r, j - 1);
    }
  }

  /** Of two swaps from the same observed revision the first goes through and the second reports
      what the first wrote. */
  lemma SecondSwapLoses<K(!new)>(m: Store<K>, now: int, k: K, r: Revision, v: Value, token: Revision, w: Value, other: Revision)
    requires token != r
    requires var seen := Apply(m, now, GetWithRevision(k)).1;
             seen.Ok? && seen.value.Current? && seen.value.current.Some? && seen.value.current.value.revision == r
    ensures var (after, out) := Apply(m, now, CompareAndSwap(k, Some(r), v, None, token));
            && out == Ok(Applied(token))
            && Apply(after, now, CompareAndSwap(k, Some(r), w, None, other)) ==
               (after, Ok(Conflict(Some(Revisioned(v, token, None)))))
  {
  }

  // -------------------------------------------------------------------------- renaming

  /** Renaming keys to themselves changes no operation: nothing but the keys is renamed. */
  lemma RenamingKeepsTheRest<K(!new)>(op: Op<K>)
    ensures MapOp((k: K) => k, op) == op
  {
    var f := (k: K) => k;
    match op
    case GetMany(ks) => KeysUnrenamed(f, ks);
    case TtlMany(ks) => KeysUnrenamed(f, ks);
    case PutMany(ks, _, _, _) => KeysUnrenamed(f, ks);
    case DeleteMany(ks) => KeysUnrenamed(f, ks);
    case _ =>
  }

  lemma KeysUnrenamed<K(!new)>(f: K -> K, ks: seq<K>)
    requires forall k :: f(k) == k
    ensures MapKeys(f, ks) == ks
  {
    forall i | 0 <= i < |ks| ensures MapKeys(f, ks)[i] == ks[i] {
      MapKeysAt(f, ks, i);
    }
  }
}
