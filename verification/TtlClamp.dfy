/** The Python wrapper that keeps the TTLs of writes within bounds. */
module TtlClamps {
  import opened Base

  datatype TtlClamp = TtlClamp(min: int, max: int, missing: Option<int>)

  /** The bounds the constructor accepts. */
  predicate Accepted(c: TtlClamp) {
    0 <= c.min <= c.max && c.max > 0 && (c.missing.Some? ==> c.missing.value > 0)
  }

  function Min(a: int, b: int): int {
    if a < b then a else b
  }

  function Max(a: int, b: int): int {
    if a < b then b else a
  }

  /** The TTL that is written; nothing means forever. A TTL that is not positive is refused. */
  function Clamped(c: TtlClamp, ttl: Option<int>): Result<Option<int>> {
    var asked := if ttl.Some? then ttl else c.missing;
    if asked.None? then Ok(None)
    else if asked.value <= 0 then Err(InvalidTtl)
    else Ok(Some(Max(c.min, Min(asked.value, c.max))))
  }

  lemma ClampStaysInBounds(c: TtlClamp, ttl: Option<int>)
    requires Accepted(c)
    ensures match Clamped(c, ttl)
            case Ok(Some(t)) => c.min <= t <= c.max && t > 0
            case Ok(None) => ttl.None? && c.missing.None?
            case Err(e) => e == InvalidTtl && ttl.Some? && ttl.value <= 0
  {
  }

  ghost predicate NeverLengthens(c: TtlClamp) {
    forall t | t > 0 :: Clamped(c, Some(t)).value.value <= t
  }

  /** No TTL is lengthened exactly when the lower bound is at most one millisecond; the cache
      uses zero. */
  lemma NeverLengthensIff(c: TtlClamp)
    requires Accepted(c)
    ensures NeverLengthens(c) <==> c.min <= 1
  {
    if c.min > 1 {
      assert Clamped(c, Some(1)) == Ok(Some(c.min));
      assert !NeverLengthens(c);
    }
  }

  function Distance(a: int, b: int): int {
    if a < b then b - a else a - b
  }

  /** What is written is the accepted TTL closest to the one asked for, the default standing in
      for one that is missing. */
  lemma ClampIsNearest(c: TtlClamp, ttl: Option<int>, other: int)
    requires Accepted(c) && c.min <= other <= c.max && Clamped(c, ttl).Ok?
    ensures ttl.None? ==> Clamped(c, ttl) == if c.missing.Some? then Clamped(c, c.missing) else Ok(None)
    ensures ttl.Some? ==> && Clamped(c, ttl).value.Some?
                          && Distance(Clamped(c, ttl).value.value, ttl.value) <= Distance(other, ttl.value)
  {
  }
}
