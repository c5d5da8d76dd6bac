/** The OKV1 encoding of structured values as functions on byte sequences. */
module StructuredCodec {
  import opened Base
  import opened LittleEndian
  import opened Utf8
  import opened KeyOrder
  import opened StructuredValues

  /** "OKV1" */
  const STRUCTURED_MAGIC: bytes := [0x4F, 0x4B, 0x56, 0x31]

  const TAG_NULL: byte := 0
  const TAG_FALSE: byte := 1
  const TAG_TRUE: byte := 2
  const TAG_INT: byte := 3
  const TAG_FLOAT: byte := 4
  const TAG_STR: byte := 5
  const TAG_BYTES: byte := 6
  const TAG_LIST: byte := 7
  const TAG_DICT: byte := 8
  const TAG_UINT: byte := 9

  // ---------------------------------------------------------------- encoding

  function LenBytes(n: nat): Result<bytes> {
    if n < U32_LIMIT then Ok(U32ToLe(n)) else Err(Serialization)
  }

  function Encode(v: StructuredValue): Result<bytes> {
    var body :- EncodeValue(v);
    Ok(STRUCTURED_MAGIC + body)
  }

  function EncodeValue(v: StructuredValue): Result<bytes>
    decreases v
  {
    match v
    case Null => Ok([TAG_NULL])
    case Bool(b) => Ok([if b then TAG_TRUE else TAG_FALSE])
    case Integer(i) => Ok([TAG_INT] + I64ToLe(i))
    case UnsignedInteger(u) => Ok([TAG_UINT] + U64ToLe(u))
    case Float(f) => Ok([TAG_FLOAT] + f)
    case String(s) => var n :- LenBytes(|s|); Ok([TAG_STR] + (n + s))
    case Bytes(s) => var n :- LenBytes(|s|); Ok([TAG_BYTES] + (n + s))
    case List(xs) =>
      var n :- LenBytes(|xs|);
      var body :- EncodeItems(xs);
      Ok([TAG_LIST] + (n + body))
    case Dict(es) =>
      var n :- LenBytes(|es|);
      SortElements(es);
      var body :- EncodeEntries(v, Sort(es), None);
      Ok([TAG_DICT] + (n + body))
  }

  function EncodeItems(xs: seq<StructuredValue>): Result<bytes>
    decreases xs
  {
    if xs == [] then Ok([]) else
      var first :- EncodeValue(xs[0]);
      var rest :- EncodeItems(xs[1..]);
      Ok(first + rest)
  }

  /** Entries of `parent` in the order given, refusing a key equal to its predecessor. */
  function EncodeEntries(ghost parent: StructuredValue, es: Fields<StructuredValue>, previous: Option<Text>): Result<bytes>
    requires forall e | e in es :: e.1 < parent
    decreases parent, |es|
  {
    if es == [] then Ok([]) else
      var (key, value) := es[0];
      if previous == Some(key) then Err(Serialization) else
      var n :- LenBytes(|key|);
      var first :- EncodeValue(value);
      var rest :- EncodeEntries(parent, es[1..], Some(key));
      Ok(n + (key + (first + rest)))
  }

  // ---------------------------------------------------------------- decoding

  /** A decoded value and the bytes after it. */
  datatype Parsed<+T> = Parsed(value: T, rest: bytes)

  function Take(s: bytes, n: nat): (r: Result<Parsed<bytes>>)
    ensures r.Ok? ==> |r.value.value| == n && s == r.value.value + r.value.rest
    ensures r.Ok? <==> n <= |s|
    ensures r.Err? ==> r.error == Deserialization
  {
    if n <= |s| then Ok(Parsed(s[..n], s[n..])) else Err(Deserialization)
  }

  function TakeLen(s: bytes): (r: Result<Parsed<nat>>)
    ensures r.Err? ==> r.error == Deserialization
    ensures r.Ok? ==> |r.value.rest| + 4 == |s|
  {
    var Parsed(bs, rest) :- Take(s, 4);
    Ok(Parsed(FromLe(bs), rest))
  }

  function TakeText(s: bytes): (r: Result<Parsed<Text>>)
    ensures r.Err? ==> r.error == Deserialization
    ensures r.Ok? ==> |r.value.rest| < |s|
  {
    var Parsed(n, t) :- TakeLen(s);
    var Parsed(bs, rest) :- Take(t, n);
    if Valid(bs) then Ok(Parsed(bs, rest)) else Err(Deserialization)
  }

  function Decode(s: bytes): (r: Result<StructuredValue>)
    ensures r.Err? ==> r.error == Deserialization
  {
    if !(STRUCTURED_MAGIC <= s) then Err(Deserialization) else
      var Parsed(v, rest) :- DecodeValue(s[|STRUCTURED_MAGIC|..]);
      if rest == [] then Ok(v) else Err(Deserialization)
  }

  function DecodeValue(s: bytes): (r: Result<Parsed<StructuredValue>>)
    ensures r.Err? ==> r.error == Deserialization
    ensures r.Ok? ==> |r.value.rest| < |s|
    decreases |s|, 0
  {
    if s == [] then Err(Deserialization) else DecodePayload(s[0], s[1..])
  }

  /** What follows the tag byte. */
  function DecodePayload(tag: byte, t: bytes): (r: Result<Parsed<StructuredValue>>)
    ensures r.Err? ==> r.error == Deserialization
    ensures r.Ok? ==> |r.value.rest| <= |t|
    decreases |t|, 2
  {
    if tag == TAG_NULL then Ok(Parsed(Null, t))
    else if tag == TAG_FALSE then Ok(Parsed(Bool(false), t))
    else if tag == TAG_TRUE then Ok(Parsed(Bool(true), t))
    else if tag == TAG_INT then
      var Parsed(bs, rest) :- Take(t, 8);
      Ok(Parsed(Integer(I64FromLe(bs)), rest))
    else if tag == TAG_UINT then
      var Parsed(bs, rest) :- Take(t, 8);
      Ok(Parsed(UnsignedInteger(U64FromLe(bs)), rest))
    else if tag == TAG_FLOAT then
      var Parsed(bs, rest) :- Take(t, 8);
      Ok(Parsed(Float(bs), rest))
    else if tag == TAG_STR then
      var Parsed(text, rest) :- TakeText(t);
      Ok(Parsed(String(text), rest))
    else if tag == TAG_BYTES then
      var Parsed(n, t1) :- TakeLen(t);
      var Parsed(bs, rest) :- Take(t1, n);
      Ok(Parsed(Bytes(bs), rest))
    else if tag == TAG_LIST then
      var Parsed(n, t1) :- TakeLen(t);
      var Parsed(xs, rest) :- DecodeItems(n, t1);
      Ok(Parsed(List(xs), rest))
    else if tag == TAG_DICT then
      var Parsed(n, t1) :- TakeLen(t);
      var Parsed(es, rest) :- DecodeEntries(n, t1);
      if DistinctKeys(es) then Ok(Parsed(Dict(es), rest)) else Err(Deserialization)
    else Err(Deserialization)
  }

  function DecodeItems(n: nat, s: bytes): (r: Result<Parsed<seq<StructuredValue>>>)
    ensures r.Err? ==> r.error == Deserialization
    ensures r.Ok? ==> |r.value.rest| <= |s|
    ensures r.Ok? ==> |r.value.value| == n
    decreases |s|, 1, n
  {
    if n == 0 then Ok(Parsed([], s)) else
      var Parsed(x, t) :- DecodeValue(s);
      var Parsed(xs, rest) :- DecodeItems(n - 1, t);
      Ok(Parsed([x] + xs, rest))
  }

  /** Keys and values in the order they are stored, repeated keys included. */
  function DecodeEntries(n: nat, s: bytes): (r: Result<Parsed<Fields<StructuredValue>>>)
    ensures r.Err? ==> r.error == Deserialization
    ensures r.Ok? ==> |r.value.rest| <= |s|
    ensures r.Ok? ==> |r.value.value| == n
    decreases |s|, 1, n
  {
    if n == 0 then Ok(Parsed([], s)) else
      var Parsed(key, t) :- TakeText(s);
      var Parsed(x, u) :- DecodeValue(t);
      var Parsed(es, rest) :- DecodeEntries(n - 1, u);
      Ok(Parsed([(key, x)] + es, rest))
  }
}
