/** What the OKV1 encoding promises: when encoding succeeds, the round trip, canonicity,
    and that decoding consumes a self-delimiting piece of its input. */
module StructuredCodecTheorems {
  import opened Base
  import opened LittleEndian
  import opened Utf8
  import opened KeyOrder
  import opened StructuredValues
  import opened StructuredCodec

  // ---------------------------------------------------- when encoding succeeds

  ghost predicate EntriesEncodable(es: Fields<StructuredValue>) {
    forall e | e in es :: |e.0| < U32_LIMIT && Encodable(e.1)
  }

  lemma {:induction false} EncodeValueOk(v: StructuredValue)
    ensures EncodeValue(v).Ok? <==> Encodable(v)
    ensures EncodeValue(v).Err? ==> EncodeValue(v) == Err(Serialization)
    decreases v, 2
  {
    match v
    case List(xs) => EncodeItemsOk(xs);
    case Dict(es) => EncodeDictOk(v);
    case _ =>
  }

  lemma {:induction false} EncodeDictOk(v: StructuredValue)
    requires v.Dict?
    ensures EncodeValue(v).Ok? <==> Encodable(v)
    ensures EncodeValue(v).Err? ==> EncodeValue(v) == Err(Serialization)
    decreases v, 1
  {
    SortElements(v.entries);
    SortSorts(v.entries);
    SortDistinct(v.entries);
    EncodeEntriesOk(v, Sort(v.entries), None);
    assert EntriesEncodable(Sort(v.entries)) <==> EntriesEncodable(v.entries);
  }

  lemma {:induction false} EncodeItemsOk(xs: seq<StructuredValue>)
    ensures EncodeItems(xs).Ok? <==> forall i | 0 <= i < |xs| :: Encodable(xs[i])
    ensures EncodeItems(xs).Err? ==> EncodeItems(xs) == Err(Serialization)
    decreases xs
  {
    if xs != [] {
      EncodeValueOk(xs[0]);
      EncodeItemsOk(xs[1..]);
      assert forall i | 0 < i < |xs| :: xs[i] == xs[1..][i - 1];
    }
  }

  /** In a sorted list the check against the predecessor finds every repeated key. */
  lemma {:induction false} EncodeEntriesOk(parent: StructuredValue, es: Fields<StructuredValue>, previous: Option<Text>)
    requires forall e | e in es :: e.1 < parent
    requires Sorted(es) && (previous.Some? ==> NoneBelow(previous.value, es))
    ensures EncodeEntries(parent, es, previous).Ok? <==>
            && EntriesEncodable(es)
            && DistinctKeys(es)
            && (previous.Some? ==> !HasKey(es, previous.value))
    ensures EncodeEntries(parent, es, previous).Err? ==> EncodeEntries(parent, es, previous) == Err(Serialization)
    decreases parent, 0, |es|
  {
    if es != [] {
      EncodeValueOk(es[0].1);
      EncodeEntriesOk(parent, es[1..], Some(es[0].0));
      assert es == [es[0]] + es[1..];
      if previous.Some? && previous.value != es[0].0 {
        NotLater(previous.value, es);
      }
    }
  }

  lemma NotLater(k: Text, es: Fields<StructuredValue>)
    requires es != [] && Sorted(es) && NoneBelow(k, es) && k != es[0].0
    ensures !HasKey(es, k)
  {
    LessTotal(k, es[0].0);
    HasKeyMember(es[1..], k);
  }

  // ---------------------------------------------------------------- round trip

  lemma TakeConcat(a: bytes, b: bytes)
    ensures Take(a + b, |a|) == Ok(Parsed(a, b))
  {
    assert (a + b)[..|a|] == a && (a + b)[|a|..] == b;
  }

  lemma TakeLenConcat(n: nat, t: bytes)
    requires n < U32_LIMIT
    ensures TakeLen(U32ToLe(n) + t) == Ok(Parsed(n, t))
  {
    TakeConcat(U32ToLe(n), t);
  }

  lemma TakeTextConcat(k: Text, t: bytes)
    requires |k| < U32_LIMIT
    ensures TakeText(U32ToLe(|k|) + (k + t)) == Ok(Parsed(k, t))
  {
    TakeLenConcat(|k|, k + t);
    TakeConcat(k, t);
  }

  /** The round trip in the middle of a buffer: decoding an encoding gives the canonical
      tree and leaves exactly what followed it. */
  lemma {:induction false} RoundTripValue(v: StructuredValue, rest: bytes)
    requires EncodeValue(v).Ok?
    ensures DecodeValue(EncodeValue(v).value + rest) == Ok(Parsed(Canon(v), rest))
    decreases v, 2
  {
    match v
    case List(xs) => RoundTripList(v, rest);
    case Dict(es) => RoundTripDict(v, rest);
    case _ => RoundTripScalar(v, rest);
  }

  lemma Assoc(a: bytes, b: bytes, c: bytes)
    ensures (a + b) + c == a + (b + c)
  {
  }

  lemma Regroup(a: bytes, b: bytes, c: bytes, d: bytes)
    ensures (a + (b + c)) + d == a + (b + (c + d))
  {
  }

  lemma DecodeTagged(tag: byte, t: bytes)
    ensures DecodeValue([tag] + t) == DecodePayload(tag, t)
  {
    assert ([tag] + t)[1..] == t;
  }

  lemma DecodeDict(n: nat, body: bytes, rest: bytes)
    requires n < U32_LIMIT
    requires DecodeEntries(n, body + rest).Ok? && DistinctKeys(DecodeEntries(n, body + rest).value.value)
    ensures var d := DecodeEntries(n, body + rest).value;
            DecodePayload(TAG_DICT, U32ToLe(n) + (body + rest)) == Ok(Parsed(Dict(d.value), d.rest))
  {
    TakeLenConcat(n, body + rest);
  }

  lemma RoundTripScalar(v: StructuredValue, rest: bytes)
    requires !v.List? && !v.Dict? && EncodeValue(v).Ok?
    ensures DecodeValue(EncodeValue(v).value + rest) == Ok(Parsed(v, rest))
  {
    match v
    case Null => DecodeTagged(TAG_NULL, rest);
    case Bool(b) => DecodeTagged(if b then TAG_TRUE else TAG_FALSE, rest);
    case Integer(i) => RoundTripFixed(TAG_INT, I64ToLe(i), rest);
    case UnsignedInteger(u) => RoundTripFixed(TAG_UINT, U64ToLe(u), rest);
    case Float(f) => RoundTripFixed(TAG_FLOAT, f, rest);
    case String(s) => RoundTripSized(TAG_STR, s, rest);
    case Bytes(s) => RoundTripSized(TAG_BYTES, s, rest);
  }

  lemma RoundTripSized(tag: byte, s: bytes, rest: bytes)
    requires |s| < U32_LIMIT && (tag == TAG_BYTES || (tag == TAG_STR && Valid(s)))
    ensures DecodeValue([tag] + (U32ToLe(|s|) + s) + rest) == Ok(Parsed(if tag == TAG_STR then String(s) else Bytes(s), rest))
  {
    Regroup([tag], U32ToLe(|s|), s, rest);
    DecodeTagged(tag, U32ToLe(|s|) + (s + rest));
    TakeLenConcat(|s|, s + rest);
    TakeConcat(s, rest);
  }

  lemma RoundTripFixed(tag: byte, payload: bytes, rest: bytes)
    requires |payload| == 8
    ensures DecodeValue([tag] + payload + rest) == DecodePayload(tag, payload + rest)
    ensures Take(payload + rest, 8) == Ok(Parsed(payload, rest))
  {
    TakeConcat(payload, rest);
    assert [tag] + payload + rest == [tag] + (payload + rest);
    DecodeTagged(tag, payload + rest);
  }

  lemma {:induction false} RoundTripList(v: StructuredValue, rest: bytes)
    requires v.List? && EncodeValue(v).Ok?
    ensures DecodeValue(EncodeValue(v).value + rest) == Ok(Parsed(Canon(v), rest))
    decreases v, 1
  {
    var n, body := |v.items|, EncodeItems(v.items).value;
    TakeLenConcat(n, body + rest);
    RoundTripItems(v.items, rest);
    Regroup([TAG_LIST], U32ToLe(n), body, rest);
    DecodeTagged(TAG_LIST, U32ToLe(n) + (body + rest));
  }

  /** The layout of an encoded dictionary. */
  lemma DictLayout(v: StructuredValue) returns (sorted: Fields<StructuredValue>, body: bytes)
    requires v.Dict? && EncodeValue(v).Ok?
    ensures |sorted| < U32_LIMIT && forall e | e in sorted :: e.1 < v
    ensures EncodeEntries(v, sorted, None) == Ok(body)
    ensures EncodeValue(v).value == [TAG_DICT] + (U32ToLe(|sorted|) + body)
    ensures Canon(v) == Dict(CanonEntries(v, sorted))
    ensures sorted == Sort(v.entries)
  {
    sorted := Sort(v.entries);
    SortElements(v.entries);
    body := EncodeEntries(v, sorted, None).value;
  }

  lemma {:induction false} RoundTripDict(v: StructuredValue, rest: bytes)
    requires v.Dict? && EncodeValue(v).Ok?
    ensures DecodeValue(EncodeValue(v).value + rest) == Ok(Parsed(Canon(v), rest))
    decreases v, 1
  {
    var sorted, body := DictLayout(v);
    assert DistinctKeys(sorted) by {
      EncodeDictOk(v);
      SortDistinct(v.entries);
    }
    CanonEntriesDistinct(v, sorted);
    RoundTripEntries(v, sorted, None, rest);
    DecodeDict(|sorted|, body, rest);
    DecodeTagged(TAG_DICT, U32ToLe(|sorted|) + (body + rest));
    Regroup([TAG_DICT], U32ToLe(|sorted|), body, rest);
  }

  lemma {:induction false} RoundTripItems(xs: seq<StructuredValue>, rest: bytes)
    requires EncodeItems(xs).Ok?
    ensures DecodeItems(|xs|, EncodeItems(xs).value + rest) == Ok(Parsed(CanonItems(xs), rest))
    decreases xs
  {
    if xs == [] {
      assert [] + rest == rest;
    } else {
      var first, others := EncodeValue(xs[0]).value, EncodeItems(xs[1..]).value;
      Assoc(first, others, rest);
      RoundTripValue(xs[0], others + rest);
      RoundTripItems(xs[1..], rest);
    }
  }

  lemma {:induction false} CanonEntriesDistinct(parent: StructuredValue, es: Fields<StructuredValue>)
    requires forall e | e in es :: e.1 < parent
    ensures DistinctKeys(CanonEntries(parent, es)) <==> DistinctKeys(es)
    decreases |es|
  {
    if es != [] {
      CanonEntriesDistinct(parent, es[1..]);
      CanonEntriesHasKey(parent, es[1..], es[0].0);
    }
  }

  lemma {:induction false} CanonEntriesHasKey(parent: StructuredValue, es: Fields<StructuredValue>, k: Text)
    requires forall e | e in es :: e.1 < parent
    ensures HasKey(CanonEntries(parent, es), k) <==> HasKey(es, k)
    decreases |es|
  {
    if es != [] {
      CanonEntriesHasKey(parent, es[1..], k);
    }
  }

  lemma {:induction false} RoundTripEntries(parent: StructuredValue, es: Fields<StructuredValue>, previous: Option<Text>, rest: bytes)
    requires forall e | e in es :: e.1 < parent
    requires EncodeEntries(parent, es, previous).Ok?
    ensures DecodeEntries(|es|, EncodeEntries(parent, es, previous).value + rest) == Ok(Parsed(CanonEntries(parent, es), rest))
    decreases parent, 0, |es|
  {
    if es == [] {
      assert [] + rest == rest;
    } else {
      var (key, value) := es[0];
      var enc := EncodeEntries(parent, es, previous).value;
      var first, others := EncodeValue(value).value, EncodeEntries(parent, es[1..], Some(key)).value;
      assert enc == U32ToLe(|key|) + (key + (first + others));
      RoundTripValue(value, others + rest);
      RoundTripEntries(parent, es[1..], Some(key), rest);
      assert |es[1..]| == |es| - 1 && |key| < U32_LIMIT;
      DecodeFirstEntry(|es|, key, Canon(value), CanonEntries(parent, es[1..]), enc, first, others, rest);
    }
  }

  lemma DecodeFirstEntry(n: nat, key: Text, x: StructuredValue, xs: Fields<StructuredValue>,
                         enc: bytes, first: bytes, others: bytes, rest: bytes)
    requires n > 0 && |key| < U32_LIMIT
    requires enc == U32ToLe(|key|) + (key + (first + others))
    requires DecodeValue(first + (others + rest)) == Ok(Parsed(x, others + rest))
    requires DecodeEntries(n - 1, others + rest) == Ok(Parsed(xs, rest))
    ensures DecodeEntries(n, enc + rest) == Ok(Parsed([(key, x)] + xs, rest))
  {
    Regroup(U32ToLe(|key|), key, first + others, rest);
    Assoc(first, others, rest);
    TakeTextConcat(key, first + (others + rest));
  }

  /** Encoding succeeds exactly on the encodable trees, and decoding the result gives the
      tree with every dictionary sorted by key. */
  lemma RoundTrip(v: StructuredValue)
    ensures Encode(v).Ok? <==> Encodable(v)
    ensures Encode(v).Err? ==> Encode(v) == Err(Serialization)
    ensures Encodable(v) ==> Decode(Encode(v).value) == Ok(Canon(v))
  {
    EncodeValueOk(v);
    if Encodable(v) {
      var body := EncodeValue(v).value;
      assert (STRUCTURED_MAGIC + body)[|STRUCTURED_MAGIC|..] == body + [];
      RoundTripValue(v, []);
    }
  }

  // ------------------------------------------------------------ layout of the input

  lemma TakeLenLayout(s: bytes)
    requires TakeLen(s).Ok?
    ensures TakeLen(s).value.value < U32_LIMIT
    ensures s == U32ToLe(TakeLen(s).value.value) + TakeLen(s).value.rest
  {
    U32Canonical(s[..4]);
  }

  lemma TakeTextLayout(s: bytes)
    requires TakeText(s).Ok?
    ensures |TakeText(s).value.value| < U32_LIMIT
    ensures s == U32ToLe(|TakeText(s).value.value|) + (TakeText(s).value.value + TakeText(s).value.rest)
  {
    TakeLenLayout(s);
  }

  // --------------------------------------------------- decoding is self-delimiting

  /** Decoding consumes the same bytes and gives the same tree whatever follows them. */
  lemma {:induction false} DecodeValueExtends(s: bytes, t: bytes)
    requires DecodeValue(s).Ok?
    ensures DecodeValue(s + t) == Ok(Parsed(DecodeValue(s).value.value, DecodeValue(s).value.rest + t))
    decreases |s|, 0
  {
    DecodePayloadExtends(s[0], s[1..], t);
    assert (s + t)[1..] == s[1..] + t;
  }

  lemma TakeExtends(s: bytes, n: nat, t: bytes)
    requires n <= |s|
    ensures Take(s + t, n) == Ok(Parsed(s[..n], s[n..] + t))
  {
    assert (s + t)[..n] == s[..n] && (s + t)[n..] == s[n..] + t;
  }

  lemma TakeLenExtends(s: bytes, t: bytes)
    requires TakeLen(s).Ok?
    ensures TakeLen(s + t) == Ok(Parsed(TakeLen(s).value.value, TakeLen(s).value.rest + t))
  {
    TakeExtends(s, 4, t);
  }

  lemma TakeTextExtends(s: bytes, t: bytes)
    requires TakeText(s).Ok?
    ensures TakeText(s + t) == Ok(Parsed(TakeText(s).value.value, TakeText(s).value.rest + t))
  {
    TakeLenExtends(s, t);
    var Parsed(n, u) := TakeLen(s).value;
    TakeExtends(u, n, t);
  }

  lemma {:induction false} DecodePayloadExtends(tag: byte, s: bytes, t: bytes)
    requires DecodePayload(tag, s).Ok?
    ensures DecodePayload(tag, s + t) == Ok(Parsed(DecodePayload(tag, s).value.value, DecodePayload(tag, s).value.rest + t))
    decreases |s|, 2
  {
    if tag == TAG_INT || tag == TAG_UINT || tag == TAG_FLOAT {
      TakeExtends(s, 8, t);
    } else if tag == TAG_STR {
      TakeTextExtends(s, t);
    } else if tag == TAG_BYTES || tag == TAG_LIST || tag == TAG_DICT {
      TakeLenExtends(s, t);
      var Parsed(n, u) := TakeLen(s).value;
      if tag == TAG_BYTES {
        TakeExtends(u, n, t);
      } else if tag == TAG_LIST {
        DecodeItemsExtends(n, u, t);
      } else {
        DecodeEntriesExtends(n, u, t);
      }
    }
  }

  lemma {:induction false} DecodeItemsExtends(n: nat, s: bytes, t: bytes)
    requires DecodeItems(n, s).Ok?
    ensures DecodeItems(n, s + t) == Ok(Parsed(DecodeItems(n, s).value.value, DecodeItems(n, s).value.rest + t))
    decreases |s|, 1, n
  {
    if n > 0 {
      DecodeValueExtends(s, t);
      DecodeItemsExtends(n - 1, DecodeValue(s).value.rest, t);
    }
  }

  lemma {:induction false} DecodeEntriesExtends(n: nat, s: bytes, t: bytes)
    requires DecodeEntries(n, s).Ok?
    ensures DecodeEntries(n, s + t) == Ok(Parsed(DecodeEntries(n, s).value.value, DecodeEntries(n, s).value.rest + t))
    decreases |s|, 1, n
  {
    if n > 0 {
      TakeTextExtends(s, t);
      var u := TakeText(s).value.rest;
      DecodeValueExtends(u, t);
      DecodeEntriesExtends(n - 1, DecodeValue(u).value.rest, t);
    }
  }

  /** The accepted byte strings form a prefix-free set: no proper extension of an accepted
      string is accepted, hence no proper prefix either. */
  lemma DecodeIsPrefixFree(s: bytes, t: bytes)
    requires Decode(s).Ok? && t != []
    ensures Decode(s + t) == Err(Deserialization)
  {
    var m := |STRUCTURED_MAGIC|;
    assert (s + t)[m..] == s[m..] + t;
    DecodeValueExtends(s[m..], t);
  }

  /** An encoding with bytes cut off or appended is rejected. */
  lemma TruncatedOrExtendedEncodingRejected(v: StructuredValue, n: nat, t: bytes)
    requires Encodable(v) && Encode(v).Ok? && n < |Encode(v).value|
    ensures Decode(Encode(v).value[..n]).Err?
    ensures t != [] ==> Decode(Encode(v).value + t).Err?
  {
    RoundTrip(v);
    var enc := Encode(v).value;
    if t != [] {
      DecodeIsPrefixFree(enc, t);
    }
    var cut := enc[..n];
    assert cut + enc[n..] == enc;
    if Decode(cut).Ok? {
      DecodeIsPrefixFree(cut, enc[n..]);
    }
  }
}
