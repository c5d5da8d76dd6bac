/** The OKV1 encoding byte by byte: which bytes stand for each kind of value, and in which order
    the entries of a dictionary are written. */
module StructuredLayout {
  import opened Base
  import opened LittleEndian
  import opened Utf8
  import opened KeyOrder
  import opened StructuredValues
  import opened StructuredCodec
  import opened StructuredCodecTheorems

  lemma Magic()
    ensures STRUCTURED_MAGIC == Ascii("OKV1")
  {
  }

  /** The bytes of everything but lists and dictionaries. */
  lemma ScalarLayout(v: StructuredValue)
    ensures match v
            case Null => EncodeValue(v) == Ok([0])
            case Bool(b) => EncodeValue(v) == Ok([if b then 2 else 1])
            case Integer(i) => EncodeValue(v) == Ok([3] + Le8(if i < 0 then i + 0x1_0000_0000_0000_0000 else i))
            case UnsignedInteger(u) => EncodeValue(v) == Ok([9] + Le8(u))
            case Float(f) => EncodeValue(v) == Ok([4] + f)
            case String(s) => EncodeValue(v) == if |s| < 0x1_0000_0000 then Ok([5] + (Le4(|s|) + s)) else Err(Serialization)
            case Bytes(s) => EncodeValue(v) == if |s| < 0x1_0000_0000 then Ok([6] + (Le4(|s|) + s)) else Err(Serialization)
            case List(_) => true
            case Dict(_) => true
  {
    match v
    case Integer(i) => U64Bytes(Unsigned(i));
    case UnsignedInteger(u) => U64Bytes(u);
    case String(s) => if |s| < U32_LIMIT { U32Bytes(|s|); }
    case Bytes(s) => if |s| < U32_LIMIT { U32Bytes(|s|); }
    case _ =>
  }

  function Joined(parts: seq<bytes>): bytes {
    if parts == [] then [] else parts[0] + Joined(parts[1..])
  }

  /** What is written for a list: its items' encodings in their order. */
  lemma ListLayout(xs: seq<StructuredValue>) returns (bodies: seq<bytes>)
    requires EncodeValue(List(xs)).Ok?
    ensures |bodies| == |xs| < 0x1_0000_0000 && forall i | 0 <= i < |xs| :: EncodeValue(xs[i]) == Ok(bodies[i])
    ensures EncodeValue(List(xs)).value == [7] + (Le4(|xs|) + Joined(bodies))
  {
    U32Bytes(|xs|);
    bodies := Items(xs);
  }

  lemma {:induction false} Items(xs: seq<StructuredValue>) returns (bodies: seq<bytes>)
    requires EncodeItems(xs).Ok?
    ensures |bodies| == |xs| && forall i | 0 <= i < |xs| :: EncodeValue(xs[i]) == Ok(bodies[i])
    ensures EncodeItems(xs).value == Joined(bodies)
  {
    bodies := [];
    if xs != [] {
      var rest := Items(xs[1..]);
      bodies := [EncodeValue(xs[0]).value] + rest;
      assert bodies[1..] == rest;
    }
  }

  /** What is written for one dictionary entry. */
  function EntryBytes(key: Text, body: bytes): bytes
    requires |key| < 0x1_0000_0000
  {
    Le4(|key|) + (key + body)
  }

  ghost predicate EntryParts(fs: Fields<StructuredValue>, parts: seq<bytes>) {
    |parts| == |fs| && forall i | 0 <= i < |fs| :: IsEntry(fs[i], parts[i])
  }

  ghost predicate IsEntry(e: (Text, StructuredValue), part: bytes) {
    |e.0| < 0x1_0000_0000 && EncodeValue(e.1).Ok? && part == EntryBytes(e.0, EncodeValue(e.1).value)
  }

  /** What is written for a dictionary: all its entries, keys ascending byte by byte whatever
      their order in the value. */
  lemma DictionaryLayout(es: Fields<StructuredValue>) returns (fs: Fields<StructuredValue>, parts: seq<bytes>)
    requires EncodeValue(Dict(es)).Ok?
    ensures |fs| == |es| < 0x1_0000_0000 && forall e :: e in fs <==> e in es
    ensures KeysRise(fs)
    ensures EntryParts(fs, parts) && EncodeValue(Dict(es)).value == [8] + (Le4(|es|) + Joined(parts))
  {
    var v := Dict(es);
    fs := Sort(es);
    EncodeValueOk(v);
    SortElements(es);
    parts := Entries(v, fs, None);
    U32Bytes(|es|);
    SortAscends(es);
    AscendingIff(fs);
  }

  lemma {:induction false} Entries(parent: StructuredValue, fs: Fields<StructuredValue>, previous: Option<Text>)
    returns (parts: seq<bytes>)
    requires (forall e | e in fs :: e.1 < parent) && EncodeEntries(parent, fs, previous).Ok?
    ensures EntryParts(fs, parts) && EncodeEntries(parent, fs, previous).value == Joined(parts)
    decreases |fs|
  {
    parts := [];
    if fs != [] {
      var rest := Entries(parent, fs[1..], Some(fs[0].0));
      var first := FirstEntry(parent, fs, previous);
      parts := [first] + rest;
      assert parts[1..] == rest;
      PartsCons(fs, first, rest);
    }
  }

  lemma FirstEntry(parent: StructuredValue, fs: Fields<StructuredValue>, previous: Option<Text>) returns (first: bytes)
    requires (forall e | e in fs :: e.1 < parent) && fs != [] && EncodeEntries(parent, fs, previous).Ok?
    ensures EncodeEntries(parent, fs[1..], Some(fs[0].0)).Ok? && IsEntry(fs[0], first)
    ensures EncodeEntries(parent, fs, previous).value == first + EncodeEntries(parent, fs[1..], Some(fs[0].0)).value
  {
    var (key, value) := fs[0];
    U32Bytes(|key|);
    var body, rest := EncodeValue(value).value, EncodeEntries(parent, fs[1..], Some(key)).value;
    first := EntryBytes(key, body);
    Regroup(Le4(|key|), key, body, rest);
  }

  lemma PartsCons(fs: Fields<StructuredValue>, first: bytes, rest: seq<bytes>)
    requires fs != [] && IsEntry(fs[0], first) && EntryParts(fs[1..], rest)
    ensures EntryParts(fs, [first] + rest)
  {
    forall i | 0 <= i < |fs| ensures IsEntry(fs[i], ([first] + rest)[i]) {
      if i > 0 {
        assert fs[i] == fs[1..][i - 1] && ([first] + rest)[i] == rest[i - 1];
      }
    }
  }
}
