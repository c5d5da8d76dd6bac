/** What decoding accepts: every accepted byte string is a reordering of a canonical
    encoding of the same length, and is that encoding when its tree is canonical. */
module StructuredReencoding {
  import opened Base
  import opened LittleEndian
  import opened Utf8
  import opened KeyOrder
  import opened StructuredValues
  import opened StructuredCodec
  import opened StructuredCodecTheorems
  import opened StructuredCanonicity

  // -------------------------------------------------------------------- lengths

  ghost function EncLen(v: StructuredValue): nat
    decreases v
  {
    match v
    case Null => 1
    case Bool(_) => 1
    case Integer(_) => 9
    case UnsignedInteger(_) => 9
    case Float(_) => 9
    case String(s) => 5 + |s|
    case Bytes(s) => 5 + |s|
    case List(xs) => 5 + ItemsLen(xs)
    case Dict(es) => 5 + EntriesLen(es)
  }

  ghost function ItemsLen(xs: seq<StructuredValue>): nat
    decreases xs
  {
    if xs == [] then 0 else EncLen(xs[0]) + ItemsLen(xs[1..])
  }

  ghost function EntriesLen(es: Fields<StructuredValue>): nat
    decreases es
  {
    if es == [] then 0 else EntryLen(es[0]) + EntriesLen(es[1..])
  }

  ghost function EntryLen(e: (Text, StructuredValue)): nat
    decreases e
  {
    4 + |e.0| + EncLen(e.1)
  }

  lemma {:induction false} InsertLen(e: (Text, StructuredValue), es: Fields<StructuredValue>)
    ensures EntriesLen(Insert(e, es)) == EntryLen(e) + EntriesLen(es)
  {
    if es == [] || !Less(es[0].0, e.0) {
      assert ([e] + es)[1..] == es;
    } else {
      InsertLen(e, es[1..]);
      assert Insert(e, es)[1..] == Insert(e, es[1..]);
    }
  }

  lemma {:induction false} SortLen(es: Fields<StructuredValue>)
    ensures EntriesLen(Sort(es)) == EntriesLen(es)
  {
    if es != [] {
      SortLen(es[1..]);
      InsertLen(es[0], Sort(es[1..]));
    }
  }

  /** The length of an encoding, whatever order its dictionaries were given in. */
  lemma {:induction false} EncodedLength(v: StructuredValue)
    requires EncodeValue(v).Ok?
    ensures |EncodeValue(v).value| == EncLen(v)
    decreases v, 1
  {
    match v
    case List(xs) => EncodedItemsLength(xs);
    case Dict(es) =>
      SortElements(es);
      SortLen(es);
      EncodedEntriesLength(v, Sort(es), None);
    case _ =>
  }

  lemma {:induction false} EncodedItemsLength(xs: seq<StructuredValue>)
    requires EncodeItems(xs).Ok?
    ensures |EncodeItems(xs).value| == ItemsLen(xs)
    decreases xs
  {
    if xs != [] {
      EncodedLength(xs[0]);
      EncodedItemsLength(xs[1..]);
    }
  }

  lemma {:induction false} EncodedEntriesLength(parent: StructuredValue, es: Fields<StructuredValue>, previous: Option<Text>)
    requires forall e | e in es :: e.1 < parent
    requires EncodeEntries(parent, es, previous).Ok?
    ensures |EncodeEntries(parent, es, previous).value| == EntriesLen(es)
    decreases parent, 0, |es|
  {
    if es != [] {
      EncodedLength(es[0].1);
      EncodedEntriesLength(parent, es[1..], Some(es[0].0));
    }
  }

  // ------------------------------------------------------------- decoded trees

  /** A decoded tree can be encoded, and occupied exactly as many bytes as its encoding. */
  lemma {:induction false} DecodedValueFits(s: bytes)
    requires DecodeValue(s).Ok?
    ensures Encodable(DecodeValue(s).value.value)
    ensures |s| == EncLen(DecodeValue(s).value.value) + |DecodeValue(s).value.rest|
    decreases |s|, 0
  {
    var tag, t := s[0], s[1..];
    if tag == TAG_STR {
      TakeTextLayout(t);
    } else if tag == TAG_BYTES {
      TakeLenLayout(t);
    } else if tag == TAG_LIST {
      TakeLenLayout(t);
      var Parsed(n, u) := TakeLen(t).value;
      DecodedItemsFit(n, u);
    } else if tag == TAG_DICT {
      TakeLenLayout(t);
      var Parsed(n, u) := TakeLen(t).value;
      DecodedEntriesFit(n, u, DecodeEntries(n, u).value.value, DecodeEntries(n, u).value.rest);
    }
  }

  lemma {:induction false} DecodedItemsFit(n: nat, s: bytes)
    requires DecodeItems(n, s).Ok?
    ensures forall i | 0 <= i < n :: Encodable(DecodeItems(n, s).value.value[i])
    ensures |s| == ItemsLen(DecodeItems(n, s).value.value) + |DecodeItems(n, s).value.rest|
    decreases |s|, 1, n
  {
    if n > 0 {
      DecodedValueFits(s);
      DecodedItemsFit(n - 1, DecodeValue(s).value.rest);
      var xs := DecodeItems(n, s).value.value;
      assert xs[1..] == DecodeItems(n - 1, DecodeValue(s).value.rest).value.value;
    }
  }

  /** The parts of a nonempty run of dictionary entries. */
  lemma DecodeEntriesParts(n: nat, s: bytes, es: Fields<StructuredValue>, rest: bytes)
      returns (key: Text, u: bytes, x: StructuredValue, w: bytes, m: nat)
    requires n > 0 && DecodeEntries(n, s) == Ok(Parsed(es, rest))
    ensures |key| < U32_LIMIT && s == U32ToLe(|key|) + (key + u)
    ensures DecodeValue(u) == Ok(Parsed(x, w)) && |w| < |u| < |s|
    ensures |es| == n && es[0] == (key, x) && es == [(key, x)] + es[1..]
    ensures m == n - 1 && DecodeEntries(m, w) == Ok(Parsed(es[1..], rest))
  {
    m := n - 1;
    TakeTextLayout(s);
    key, u := TakeText(s).value.value, TakeText(s).value.rest;
    x, w := DecodeValue(u).value.value, DecodeValue(u).value.rest;
  }

  lemma {:induction false} DecodedEntriesFit(n: nat, s: bytes, es: Fields<StructuredValue>, rest: bytes)
    requires DecodeEntries(n, s) == Ok(Parsed(es, rest))
    ensures EntriesEncodable(es)
    ensures |s| == EntriesLen(es) + |rest|
    decreases |s|, 1, n
  {
    if n > 0 {
      var key, u, x, w, m := DecodeEntriesParts(n, s, es, rest);
      DecodedValueFits(u);
      DecodedEntriesFit(m, w, es[1..], rest);
      ConsFits((key, x), es[1..]);
    }
  }

  lemma ConsFits(e: (Text, StructuredValue), es: Fields<StructuredValue>)
    requires |e.0| < U32_LIMIT && Encodable(e.1) && EntriesEncodable(es)
    ensures EntriesEncodable([e] + es)
    ensures EntriesLen([e] + es) == EntryLen(e) + EntriesLen(es)
  {
    assert ([e] + es)[1..] == es;
  }

  /** Every accepted byte string re-encodes: successfully, to the same length, and to the
      canonical form of the same tree. */
  lemma AcceptedReencodes(s: bytes)
    requires Decode(s).Ok?
    ensures Encode(Decode(s).value).Ok?
    ensures |Encode(Decode(s).value).value| == |s|
    ensures Decode(Encode(Decode(s).value).value) == Ok(Canon(Decode(s).value))
  {
    var t := s[|STRUCTURED_MAGIC|..];
    DecodedValueFits(t);
    RoundTrip(Decode(s).value);
    EncodedLength(Decode(s).value);
  }

  // --------------------------------------------------------- canonical encodings

  /** The bytes of a decoded canonical tree are that tree's encoding. */
  lemma {:induction false} CanonicalValueBytes(s: bytes)
    requires DecodeValue(s).Ok?
    requires Canon(DecodeValue(s).value.value) == DecodeValue(s).value.value
    ensures EncodeValue(DecodeValue(s).value.value).Ok?
    ensures s == EncodeValue(DecodeValue(s).value.value).value + DecodeValue(s).value.rest
    decreases |s|, 0
  {
    DecodedValueFits(s);
    EncodeValueOk(DecodeValue(s).value.value);
    assert s == [s[0]] + s[1..];
    if s[0] == TAG_LIST {
      CanonicalListBytes(s);
    } else if s[0] == TAG_DICT {
      CanonicalDictBytes(s);
    } else {
      CanonicalScalarBytes(s, DecodeValue(s).value.value, DecodeValue(s).value.rest);
    }
  }

  lemma CanonicalScalarBytes(s: bytes, v: StructuredValue, rest: bytes)
    requires DecodeValue(s) == Ok(Parsed(v, rest)) && s[0] != TAG_LIST && s[0] != TAG_DICT
    ensures EncodeValue(v).Ok? && s == EncodeValue(v).value + rest
  {
    var tag, t := s[0], s[1..];
    assert s == [tag] + t;
    if tag == TAG_INT || tag == TAG_UINT || tag == TAG_FLOAT {
      CanonicalFixedBytes(tag, t, v, rest);
    } else if tag == TAG_STR || tag == TAG_BYTES {
      CanonicalSizedBytes(tag, t, v, rest);
    }
  }

  lemma CanonicalFixedBytes(tag: byte, t: bytes, v: StructuredValue, rest: bytes)
    requires tag == TAG_INT || tag == TAG_UINT || tag == TAG_FLOAT
    requires DecodePayload(tag, t) == Ok(Parsed(v, rest))
    ensures EncodeValue(v).Ok? && [tag] + t == EncodeValue(v).value + rest
  {
    var payload := t[..8];
    I64Canonical(payload);
    assert EncodeValue(v) == Ok([tag] + payload);
    Assoc([tag], payload, rest);
  }

  lemma CanonicalSizedBytes(tag: byte, t: bytes, v: StructuredValue, rest: bytes)
    requires tag == TAG_STR || tag == TAG_BYTES
    requires DecodePayload(tag, t) == Ok(Parsed(v, rest))
    ensures EncodeValue(v).Ok? && [tag] + t == EncodeValue(v).value + rest
  {
    if tag == TAG_STR {
      TakeTextLayout(t);
      Regroup([tag], U32ToLe(|v.text|), v.text, rest);
    } else {
      TakeLenLayout(t);
      Regroup([tag], U32ToLe(|v.data|), v.data, rest);
    }
  }

  lemma {:induction false} CanonicalListBytes(s: bytes)
    requires DecodeValue(s).Ok? && s[0] == TAG_LIST
    requires Canon(DecodeValue(s).value.value) == DecodeValue(s).value.value
    requires EncodeValue(DecodeValue(s).value.value).Ok?
    ensures s == EncodeValue(DecodeValue(s).value.value).value + DecodeValue(s).value.rest
    decreases |s|, 0, 0
  {
    TakeLenLayout(s[1..]);
    var Parsed(n, u) := TakeLen(s[1..]).value;
    var items := DecodeItems(n, u).value;
    forall i | 0 <= i < n ensures Canon(items.value[i]) == items.value[i] {
      assert CanonItems(items.value)[i] == items.value[i];
    }
    CanonicalItemsBytes(n, u);
    Regroup([TAG_LIST], U32ToLe(n), EncodeItems(items.value).value, items.rest);
  }

  lemma {:induction false} CanonicalItemsBytes(n: nat, s: bytes)
    requires DecodeItems(n, s).Ok?
    requires forall i | 0 <= i < n :: Canon(DecodeItems(n, s).value.value[i]) == DecodeItems(n, s).value.value[i]
    ensures EncodeItems(DecodeItems(n, s).value.value).Ok?
    ensures s == EncodeItems(DecodeItems(n, s).value.value).value + DecodeItems(n, s).value.rest
    decreases |s|, 1, n
  {
    if n > 0 {
      var first := DecodeValue(s).value;
      var others := DecodeItems(n - 1, first.rest).value;
      var xs := DecodeItems(n, s).value.value;
      assert xs[0] == first.value && xs[1..] == others.value;
      CanonicalValueBytes(s);
      CanonicalItemsBytes(n - 1, first.rest);
      Assoc(EncodeValue(first.value).value, EncodeItems(others.value).value, others.rest);
    }
  }

  lemma {:induction false} CanonicalDictBytes(s: bytes)
    requires DecodeValue(s).Ok? && s[0] == TAG_DICT
    requires Canon(DecodeValue(s).value.value) == DecodeValue(s).value.value
    requires EncodeValue(DecodeValue(s).value.value).Ok?
    ensures s == EncodeValue(DecodeValue(s).value.value).value + DecodeValue(s).value.rest
    decreases |s|, 0, 0
  {
    TakeLenLayout(s[1..]);
    var Parsed(n, u) := TakeLen(s[1..]).value;
    var v := DecodeValue(s).value.value;
    var entries := DecodeEntries(n, u).value;
    CanonicalEntries(v);
    CanonicalEntriesBytes(v, n, u, None, entries.value, entries.rest);
    Regroup([TAG_DICT], U32ToLe(n), EncodeEntries(v, entries.value, None).value, entries.rest);
  }

  ghost predicate AllCanonical(es: Fields<StructuredValue>) {
    es == [] || (Canon(es[0].1) == es[0].1 && AllCanonical(es[1..]))
  }

  lemma {:induction false} AllCanonicalWhen(es: Fields<StructuredValue>)
    requires forall i | 0 <= i < |es| :: Canon(es[i].1) == es[i].1
    ensures AllCanonical(es)
  {
    if es != [] {
      AllCanonicalWhen(es[1..]);
    }
  }

  /** The entries of a canonical dictionary are in order and canonical themselves. */
  lemma CanonicalEntries(v: StructuredValue)
    requires v.Dict? && Canon(v) == v && EncodeValue(v).Ok?
    ensures Sort(v.entries) == v.entries
    ensures AllCanonical(v.entries)
  {
    assert DistinctKeys(v.entries) by { EncodeValueOk(v); }
    var cs := CanonDictAscends(v);
    SortFixesAscending(cs);
    AllCanonicalWhen(cs);
  }

  lemma {:induction false} CanonicalEntriesBytes(parent: StructuredValue, n: nat, s: bytes, previous: Option<Text>,
                                                 es: Fields<StructuredValue>, rest: bytes)
    requires DecodeEntries(n, s) == Ok(Parsed(es, rest))
    requires forall e | e in es :: e.1 < parent
    requires AllCanonical(es) && EncodeEntries(parent, es, previous).Ok?
    ensures s == EncodeEntries(parent, es, previous).value + rest
    decreases |s|, 1, n
  {
    if n > 0 {
      var key, u, x, w, m := DecodeEntriesParts(n, s, es, rest);
      var a, b := EncodeEntriesParts(parent, es, previous);
      CanonicalValueBytes(u);
      CanonicalEntriesBytes(parent, m, w, Some(key), es[1..], rest);
      GlueEntry(s, U32ToLe(|key|), key, u, a, w, b, rest);
    }
  }

  lemma EncodeEntriesParts(parent: StructuredValue, es: Fields<StructuredValue>, previous: Option<Text>) returns (a: bytes, b: bytes)
    requires forall e | e in es :: e.1 < parent
    requires es != [] && EncodeEntries(parent, es, previous).Ok?
    ensures |es[0].0| < U32_LIMIT
    ensures EncodeValue(es[0].1) == Ok(a) && EncodeEntries(parent, es[1..], Some(es[0].0)) == Ok(b)
    ensures EncodeEntries(parent, es, previous) == Ok(U32ToLe(|es[0].0|) + (es[0].0 + (a + b)))
  {
    a, b := EncodeValue(es[0].1).value, EncodeEntries(parent, es[1..], Some(es[0].0)).value;
  }

  lemma GlueEntry(s: bytes, n: bytes, key: bytes, u: bytes, a: bytes, w: bytes, b: bytes, rest: bytes)
    requires s == n + (key + u) && u == a + w && w == b + rest
    ensures s == (n + (key + (a + b))) + rest
  {
    Assoc(a, b, rest);
    Regroup(n, key, a + b, rest);
  }

  /** On canonical trees decoding and encoding are inverse byte for byte: an accepted
      string is the encoding of its tree exactly when that tree is canonical. */
  lemma AcceptedIsCanonicalIff(s: bytes)
    requires Decode(s).Ok?
    ensures Encode(Decode(s).value) == Ok(s) <==> Canon(Decode(s).value) == Decode(s).value
  {
    var v := Decode(s).value;
    var t := s[|STRUCTURED_MAGIC|..];
    DecodedValueFits(t);
    RoundTrip(v);
    if Canon(v) == v {
      CanonicalValueBytes(t);
      assert EncodeValue(v).value + [] == EncodeValue(v).value;
      assert STRUCTURED_MAGIC + t == s;
    }
  }
}
