/** Vocabulary shared by every component: optional values, the error kinds of the
    store API without their messages, and bytes. */
module Base {
  datatype Option<+T> = None | Some(value: T)

  datatype Error =
    | Serialization
    | Deserialization
    | InvalidKey
    | InvalidTtl
    | InvalidValue
    | InvalidOperation
    | BatchSizeMismatch(keys: nat, values: nat)
    | InvalidChangeCursor
    | ChangeCursorExpired(oldest: nat)
    | ChangeFeedLagged(skipped: nat)

  datatype Result<+T> = Ok(value: T) | Err(error: Error) {
    predicate IsFailure() {
      Err?
    }

    function PropagateFailure<U>(): Result<U>
      requires Err?
    {
      Err(error)
    }

    function Extract(): T
      requires Ok?
    {
      value
    }
  }

  type byte = b: int | 0 <= b < 256
  type bytes = seq<byte>

  const U32_LIMIT: int := 0x1_0000_0000
  const U64_LIMIT: int := 0x1_0000_0000_0000_0000
  const I64_LIMIT: int := 0x8000_0000_0000_0000

  type uint64 = n: int | 0 <= n < U64_LIMIT
  type int64 = n: int | -I64_LIMIT <= n < I64_LIMIT

  /** A result list with `done` put in front of it: what a loop has yet to append. */
  function Prefixed<T>(done: seq<T>, rest: Result<seq<T>>): Result<seq<T>> {
    match rest
    case Ok(vs) => Ok(done + vs)
    case Err(e) => Err(e)
  }

  lemma PrefixedNothing<T>(rest: Result<seq<T>>)
    ensures Prefixed([], rest) == rest
  {
    if rest.Ok? {
      assert [] + rest.value == rest.value;
    }
  }

  lemma PrefixedStep<T>(done: seq<T>, v: T, tail: Result<seq<T>>, rest: Result<seq<T>>)
    requires rest == match tail case Ok(vs) => Ok([v] + vs) case Err(e) => Err(e)
    ensures Prefixed(done, rest) == Prefixed(done + [v], tail)
  {
    if tail.Ok? {
      assert done + ([v] + tail.value) == done + [v] + tail.value;
    }
  }
}
