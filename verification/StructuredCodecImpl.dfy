/** The OKV1 encoder and decoder in the form the code has: an output vector that grows in
    place, a cursor that advances, and loops over items and entries. Each method is proved
    to compute the encoding or decoding function of StructuredCodec. */
module StructuredCodecImpl {
  import opened Base
  import opened LittleEndian
  import opened Utf8
  import opened KeyOrder
  import opened StructuredValues
  import Spec = StructuredCodec
  import opened StructuredCodecTheorems

  // ------------------------------------------------------------------- encoding

  class ByteVec {
    var data: bytes

    constructor ()
      ensures data == []
    {
      data := [];
    }

    method Push(b: byte)
      modifies this
      ensures data == old(data) + [b]
    {
      data := data + [b];
    }

    method Extend(bs: bytes)
      modifies this
      ensures data == old(data) + bs
    {
      data := data + bs;
    }

    method WriteLen(len: nat) returns (r: Result<()>)
      modifies this
      ensures match Spec.LenBytes(len)
              case Ok(bs) => r.Ok? && data == old(data) + bs
              case Err(e) => r == Err(e) && data == old(data)
    {
      if len >= U32_LIMIT {
        return Err(Serialization);
      }
      Extend(U32ToLe(len));
      r := Ok(());
    }
  }

  /** Appending succeeded with exactly the specified bytes, or failed as specified. */
  ghost predicate Appended(spec: Result<bytes>, before: bytes, after: bytes, r: Result<()>) {
    match spec
    case Ok(bs) => r.Ok? && after == before + bs
    case Err(e) => r == Err(e)
  }

  method Encode(value: StructuredValue) returns (r: Result<bytes>)
    ensures r == Spec.Encode(value)
  {
    var out := new ByteVec();
    out.Extend(Spec.STRUCTURED_MAGIC);
    assert out.data == Spec.STRUCTURED_MAGIC;
    var e := EncodeValue(value, out);
    r := match e case Ok(_) => Ok(out.data) case Err(error) => Err(error);
  }

  method EncodeValue(value: StructuredValue, out: ByteVec) returns (r: Result<()>)
    modifies out
    ensures Appended(Spec.EncodeValue(value), old(out.data), out.data, r)
    decreases value, 2
  {
    r := Ok(());
    match value
    case Null => out.Push(Spec.TAG_NULL);
    case Bool(b) => out.Push(if b then Spec.TAG_TRUE else Spec.TAG_FALSE);
    case Integer(i) =>
      out.Push(Spec.TAG_INT);
      out.Extend(I64ToLe(i));
      Assoc(old(out.data), [Spec.TAG_INT], I64ToLe(i));
    case UnsignedInteger(u) =>
      out.Push(Spec.TAG_UINT);
      out.Extend(U64ToLe(u));
      Assoc(old(out.data), [Spec.TAG_UINT], U64ToLe(u));
    case Float(f) =>
      out.Push(Spec.TAG_FLOAT);
      out.Extend(f);
      Assoc(old(out.data), [Spec.TAG_FLOAT], f);
    case String(s) => r := EncodeSized(Spec.TAG_STR, s, out);
    case Bytes(s) => r := EncodeSized(Spec.TAG_BYTES, s, out);
    case List(_) => r := EncodeList(value, out);
    case Dict(_) => r := EncodeDict(value, out);
  }

  method EncodeSized(tag: byte, s: bytes, out: ByteVec) returns (r: Result<()>)
    modifies out
    ensures match Spec.LenBytes(|s|)
            case Ok(n) => r.Ok? && out.data == old(out.data) + ([tag] + (n + s))
            case Err(e) => r == Err(e)
  {
    out.Push(tag);
    r := out.WriteLen(|s|);
    if r.Ok? {
      out.Extend(s);
      Regroup4(old(out.data), [tag], U32ToLe(|s|), s);
    }
  }

  lemma Regroup4(a: bytes, b: bytes, c: bytes, d: bytes)
    ensures ((a + b) + c) + d == a + (b + (c + d))
  {
  }

  method EncodeList(value: StructuredValue, out: ByteVec) returns (r: Result<()>)
    requires value.List?
    modifies out
    ensures Appended(Spec.EncodeValue(value), old(out.data), out.data, r)
    decreases value, 1
  {
    var values := value.items;
    out.Push(Spec.TAG_LIST);
    r := out.WriteLen(|values|);
    if r.Err? {
      return;
    }
    ghost var base := out.data;
    ghost var done: bytes := [];
    assert values[0..] == values && base + done == base;
    ContinuesStart(Spec.EncodeItems(values));
    for i := 0 to |values|
      invariant r.Ok? && out.data == base + done
      invariant Continues(Spec.EncodeItems(values), done, Spec.EncodeItems(values[i..]))
    {
      ghost var tail := Spec.EncodeItems(values[i + 1..]);
      assert values[i..][1..] == values[i + 1..];
      r := EncodeValue(values[i], out);
      if r.Err? {
        return;
      }
      ghost var first := Spec.EncodeValue(values[i]).value;
      ContinuesStep(Spec.EncodeItems(values), done, first, tail);
      Assoc(base, done, first);
      done := done + first;
    }
    assert done + [] == done;
    Regroup4(old(out.data), [Spec.TAG_LIST], U32ToLe(|values|), done);
  }

  /** The whole encoding is what has been written, then the encoding of what is left. */
  ghost predicate Continues(whole: Result<bytes>, done: bytes, rest: Result<bytes>) {
    match rest
    case Ok(bs) => whole == Ok(done + bs)
    case Err(e) => whole == Err(e)
  }

  lemma ContinuesStart(whole: Result<bytes>)
    ensures Continues(whole, [], whole)
  {
    if whole.Ok? {
      assert [] + whole.value == whole.value;
    }
  }

  lemma ContinuesStep(whole: Result<bytes>, done: bytes, first: bytes, tail: Result<bytes>)
    requires match tail
             case Ok(bs) => whole == Ok(done + (first + bs))
             case Err(e) => whole == Err(e)
    ensures Continues(whole, done + first, tail)
  {
    if tail.Ok? {
      Assoc(done, first, tail.value);
    }
  }

  method EncodeDict(value: StructuredValue, out: ByteVec) returns (r: Result<()>)
    requires value.Dict?
    modifies out
    ensures Appended(Spec.EncodeValue(value), old(out.data), out.data, r)
    decreases value, 1
  {
    out.Push(Spec.TAG_DICT);
    r := out.WriteLen(|value.entries|);
    if r.Err? {
      return;
    }
    SortElements(value.entries);
    var entries := Sort(value.entries);
    ghost var base := out.data;
    r := EncodeSorted(value, entries, out);
    if r.Ok? {
      ghost var body := Spec.EncodeEntries(value, entries, None).value;
      assert out.data == base + body;
      Regroup4(old(out.data), [Spec.TAG_DICT], U32ToLe(|value.entries|), body);
    }
  }

  /** The entries in key order; a key that is written twice in a row is an error. */
  method EncodeSorted(ghost value: StructuredValue, entries: Fields<StructuredValue>, out: ByteVec) returns (r: Result<()>)
    requires forall e | e in entries :: e.1 < value
    modifies out
    ensures Appended(Spec.EncodeEntries(value, entries, None), old(out.data), out.data, r)
    decreases value, 0
  {
    r := Ok(());
    ghost var base := out.data;
    ghost var done: bytes := [];
    var previous: Option<Text> := None;
    assert entries[0..] == entries && base + done == base;
    ContinuesStart(Spec.EncodeEntries(value, entries, None));
    for i := 0 to |entries|
      invariant r.Ok? && out.data == base + done
      invariant Continues(Spec.EncodeEntries(value, entries, None), done, Spec.EncodeEntries(value, entries[i..], previous))
    {
      var (key, item) := entries[i];
      assert entries[i] in entries && forall e | e in entries[i + 1..] :: e in entries;
      ghost var tail := Spec.EncodeEntries(value, entries[i + 1..], Some(key));
      assert entries[i..][1..] == entries[i + 1..];
      if previous == Some(key) {
        return Err(Serialization);
      }
      r := out.WriteLen(|key|);
      if r.Err? {
        return;
      }
      out.Extend(key);
      r := EncodeValue(item, out);
      if r.Err? {
        return;
      }
      ghost var written := U32ToLe(|key|) + (key + Spec.EncodeValue(item).value);
      EntryWritten(base, done, U32ToLe(|key|), key, Spec.EncodeValue(item).value, tail, Spec.EncodeEntries(value, entries, None));
      done := done + written;
      previous := Some(key);
    }
    assert done + [] == done;
  }

  lemma EntryWritten(base: bytes, done: bytes, n: bytes, key: bytes, item: bytes, tail: Result<bytes>, whole: Result<bytes>)
    requires match tail
             case Ok(bs) => whole == Ok(done + (n + (key + (item + bs))))
             case Err(e) => whole == Err(e)
    ensures (((base + done) + n) + key) + item == base + (done + (n + (key + item)))
    ensures Continues(whole, done + (n + (key + item)), tail)
  {
    Regroup4(base + done, n, key, item);
    Assoc(base, done, n + (key + item));
    if tail.Ok? {
      Regroup(n, key, item, tail.value);
      Assoc(done, n + (key + item), tail.value);
    }
  }

  // ------------------------------------------------------------------- decoding

  class Cursor {
    const data: bytes
    var pos: nat

    constructor (data: bytes)
      ensures this.data == data && Valid() && Rest() == data
    {
      this.data := data;
      pos := 0;
    }

    ghost predicate Valid()
      reads this
    {
      pos <= |data|
    }

    ghost function Rest(): bytes
      requires Valid()
      reads this
    {
      data[pos..]
    }

    method Remaining() returns (n: nat)
      requires Valid()
      ensures n == |Rest()|
    {
      n := |data| - pos;
    }

    method ReadBytes(len: nat) returns (r: Result<bytes>)
      requires Valid()
      modifies this
      ensures Valid() && Reads(Spec.Take(old(Rest()), len), this, r)
    {
      var end := pos + len;
      if end > |data| {
        return Err(Deserialization);
      }
      r := Ok(data[pos..end]);
      assert data[pos..][..len] == data[pos..end] && data[pos..][len..] == data[end..];
      pos := end;
    }

    method ReadU8() returns (r: Result<byte>)
      requires Valid()
      modifies this
      ensures Valid()
      ensures if old(Rest()) == [] then r == Err(Deserialization)
              else r == Ok(old(Rest())[0]) && Rest() == old(Rest())[1..]
    {
      var bs := ReadBytes(1);
      r := match bs case Ok(one) => Ok(one[0]) case Err(e) => Err(e);
    }

    method ReadLen() returns (r: Result<nat>)
      requires Valid()
      modifies this
      ensures Valid() && Reads(Spec.TakeLen(old(Rest())), this, r)
    {
      var bs := ReadBytes(4);
      r := match bs case Ok(four) => Ok(FromLe(four)) case Err(e) => Err(e);
    }

    /** A length-prefixed UTF-8 string. */
    method ReadText() returns (r: Result<Text>)
      requires Valid()
      modifies this
      ensures Valid() && Reads(Spec.TakeText(old(Rest())), this, r)
    {
      var n := ReadLen();
      if n.Err? {
        return Err(n.error);
      }
      var bs := ReadBytes(n.value);
      if bs.Err? {
        return Err(bs.error);
      }
      r := if Utf8.Valid(bs.value) then Ok(bs.value) else Err(Deserialization);
    }
  }

  /** The result is the specified one and the cursor stands where the specification stops. */
  ghost predicate Reads<T>(spec: Result<Spec.Parsed<T>>, cursor: Cursor, r: Result<T>)
    requires cursor.Valid()
    reads cursor
  {
    match spec
    case Ok(p) => r == Ok(p.value) && cursor.Rest() == p.rest
    case Err(e) => r == Err(e)
  }

  method Decode(data: bytes) returns (r: Result<StructuredValue>)
    ensures r == Spec.Decode(data)
  {
    if !(Spec.STRUCTURED_MAGIC <= data) {
      return Err(Deserialization);
    }
    var cursor := new Cursor(data[|Spec.STRUCTURED_MAGIC|..]);
    r := DecodeValue(cursor);
    if r.Ok? {
      var left := cursor.Remaining();
      if left != 0 {
        r := Err(Deserialization);
      }
    }
  }

  method DecodeValue(cursor: Cursor) returns (r: Result<StructuredValue>)
    requires cursor.Valid()
    modifies cursor
    ensures cursor.Valid() && Reads(Spec.DecodeValue(old(cursor.Rest())), cursor, r)
    decreases |cursor.Rest()|, 1
  {
    var tagRead := cursor.ReadU8();
    if tagRead.Err? {
      return Err(tagRead.error);
    }
    var tag := tagRead.value;
    if tag == Spec.TAG_NULL {
      r := Ok(Null);
    } else if tag == Spec.TAG_FALSE {
      r := Ok(Bool(false));
    } else if tag == Spec.TAG_TRUE {
      r := Ok(Bool(true));
    } else if tag == Spec.TAG_INT || tag == Spec.TAG_UINT || tag == Spec.TAG_FLOAT {
      var bs := cursor.ReadBytes(8);
      if bs.Err? {
        return Err(bs.error);
      }
      r := Ok(if tag == Spec.TAG_INT then Integer(I64FromLe(bs.value))
              else if tag == Spec.TAG_UINT then UnsignedInteger(U64FromLe(bs.value))
              else Float(bs.value));
    } else if tag == Spec.TAG_STR {
      var text := cursor.ReadText();
      r := match text case Ok(s) => Ok(String(s)) case Err(e) => Err(e);
    } else if tag == Spec.TAG_BYTES || tag == Spec.TAG_LIST || tag == Spec.TAG_DICT {
      var len := cursor.ReadLen();
      if len.Err? {
        return Err(len.error);
      }
      if tag == Spec.TAG_BYTES {
        var bs := cursor.ReadBytes(len.value);
        r := match bs case Ok(s) => Ok(Bytes(s)) case Err(e) => Err(e);
      } else if tag == Spec.TAG_LIST {
        var items := DecodeItems(cursor, len.value);
        r := match items case Ok(xs) => Ok(List(xs)) case Err(e) => Err(e);
      } else {
        r := DecodeDict(cursor, len.value);
      }
    } else {
      r := Err(Deserialization);
    }
  }

  /** The specified result is what has been collected, then the result for what is left. */
  ghost function Prepend<T>(done: seq<T>, rest: Result<Spec.Parsed<seq<T>>>): Result<Spec.Parsed<seq<T>>> {
    match rest
    case Ok(p) => Ok(Spec.Parsed(done + p.value, p.rest))
    case Err(e) => Err(e)
  }

  lemma PrependNothing<T>(rest: Result<Spec.Parsed<seq<T>>>)
    ensures Prepend([], rest) == rest
  {
    if rest.Ok? {
      assert [] + rest.value.value == rest.value.value;
    }
  }

  lemma PrependStep<T>(done: seq<T>, x: T, rest: Result<Spec.Parsed<seq<T>>>)
    ensures Prepend(done + [x], rest) == Prepend(done, Prepend([x], rest))
  {
    if rest.Ok? {
      assert (done + [x]) + rest.value.value == done + ([x] + rest.value.value);
    }
  }

  method DecodeItems(cursor: Cursor, len: nat) returns (r: Result<seq<StructuredValue>>)
    requires cursor.Valid()
    modifies cursor
    ensures cursor.Valid() && Reads(Spec.DecodeItems(len, old(cursor.Rest())), cursor, r)
    decreases |cursor.Rest()|, 2
  {
    ghost var start := cursor.Rest();
    var values: seq<StructuredValue> := [];
    PrependNothing(Spec.DecodeItems(len, start));
    for i := 0 to len
      invariant cursor.Valid() && |cursor.Rest()| <= |start|
      invariant Spec.DecodeItems(len, start) == Prepend(values, Spec.DecodeItems(len - i, cursor.Rest()))
    {
      ghost var here := cursor.Rest();
      var x := DecodeValue(cursor);
      if x.Err? {
        return Err(x.error);
      }
      assert Spec.DecodeItems(len - i, here) == Prepend([x.value], Spec.DecodeItems(len - i - 1, cursor.Rest()));
      PrependStep(values, x.value, Spec.DecodeItems(len - i - 1, cursor.Rest()));
      values := values + [x.value];
    }
    assert values + [] == values;
    r := Ok(values);
  }

  method DecodeDict(cursor: Cursor, len: nat) returns (r: Result<StructuredValue>)
    requires cursor.Valid()
    modifies cursor
    ensures cursor.Valid()
    ensures match Spec.DecodeEntries(len, old(cursor.Rest()))
            case Ok(p) => if DistinctKeys(p.value) then r == Ok(Dict(p.value)) && cursor.Rest() == p.rest else r == Err(Deserialization)
            case Err(e) => r == Err(e)
    decreases |cursor.Rest()|, 2
  {
    ghost var whole := Spec.DecodeEntries(len, cursor.Rest());
    ghost var rest := whole;
    ghost var size := |cursor.Rest()|;
    var entries: Fields<StructuredValue> := [];
    var keys: set<Text> := {};
    ghost var left := len;
    PrependNothing(whole);
    for i := 0 to len
      invariant cursor.Valid() && |cursor.Rest()| <= size
      invariant left == len - i && rest == Spec.DecodeEntries(left, cursor.Rest())
      invariant whole == Prepend(entries, rest)
      invariant DistinctKeys(entries) && keys == KeySet(entries)
    {
      ghost var before := rest;
      var entry;
      entry, rest, left := DecodeEntry(cursor, keys, left, before);
      if entry.Err? {
        RefusedEntry(whole, entries, before);
        return Err(entry.error);
      }
      keys := keys + {entry.value.0};
      PrependStep(entries, entry.value, rest);
      AppendEntry(entries, entry.value);
      entries := entries + [entry.value];
    }
    assert entries + [] == entries;
    r := Ok(Dict(entries));
  }

  /** One key and value; refuses a key that is already in `keys`. `n` is the number of
      entries left, this one included, and `spec` what decoding them should give. */
  method DecodeEntry(cursor: Cursor, keys: set<Text>, ghost n: nat, ghost spec: Result<Spec.Parsed<Fields<StructuredValue>>>)
      returns (r: Result<(Text, StructuredValue)>, ghost rest: Result<Spec.Parsed<Fields<StructuredValue>>>, ghost m: nat)
    requires cursor.Valid() && n > 0 && spec == Spec.DecodeEntries(n, cursor.Rest())
    modifies cursor
    ensures cursor.Valid() && m == n - 1
    ensures match r
            case Ok(entry) =>
              && |cursor.Rest()| < |old(cursor.Rest())|
              && entry.0 !in keys
              && rest == Spec.DecodeEntries(m, cursor.Rest())
              && spec == Prepend([entry], rest)
            case Err(e) => e == Deserialization && Refused(spec, keys)
    decreases |cursor.Rest()|, 1
  {
    ghost var s := cursor.Rest();
    DecodeEntriesErrors(n, s);
    rest, m := spec, n - 1;
    var key := cursor.ReadText();
    if key.Err? {
      r := Err(key.error);
      return;
    }
    ghost var t := cursor.Rest();
    EntryHead(n, s, key.value, t);
    if key.value in keys {
      r := Err(Deserialization);
      return;
    }
    var x := DecodeValue(cursor);
    if x.Err? {
      r := Err(x.error);
      return;
    }
    r := Ok((key.value, x.value));
    rest, m := EntryParts(n, s, key.value, t, x.value, cursor.Rest());
  }

  /** Once the key is read, its value decides whether the rest can succeed. */
  lemma EntryHead(n: nat, s: bytes, key: Text, t: bytes)
    requires n > 0 && Spec.TakeText(s) == Ok(Spec.Parsed(key, t))
    ensures match Spec.DecodeEntries(n, s)
            case Ok(p) => p.value != [] && p.value[0].0 == key
            case Err(e) => true
    ensures Spec.DecodeValue(t).Err? ==> Spec.DecodeEntries(n, s) == Err(Spec.DecodeValue(t).error)
  {
  }

  lemma EntryParts(n: nat, s: bytes, key: Text, t: bytes, x: StructuredValue, u: bytes)
      returns (tail: Result<Spec.Parsed<Fields<StructuredValue>>>, m: nat)
    requires n > 0 && Spec.TakeText(s) == Ok(Spec.Parsed(key, t)) && Spec.DecodeValue(t) == Ok(Spec.Parsed(x, u))
    ensures m == n - 1 && tail == Spec.DecodeEntries(m, u)
    ensures Spec.DecodeEntries(n, s) == Prepend([(key, x)], tail)
  {
    m := n - 1;
    tail := Spec.DecodeEntries(m, u);
  }

  /** Decoding fails, or starts with a key that was seen before. */
  ghost predicate Refused(spec: Result<Spec.Parsed<Fields<StructuredValue>>>, keys: set<Text>) {
    match spec
    case Ok(p) => p.value != [] && p.value[0].0 in keys
    case Err(e) => e == Deserialization
  }

  /** A refused entry makes the whole run of entries unacceptable. */
  lemma RefusedEntry(whole: Result<Spec.Parsed<Fields<StructuredValue>>>, done: Fields<StructuredValue>,
                     rest: Result<Spec.Parsed<Fields<StructuredValue>>>)
    requires whole == Prepend(done, rest) && Refused(rest, KeySet(done))
    ensures match whole case Ok(p) => !DistinctKeys(p.value) case Err(e) => e == Deserialization
  {
    if rest.Ok? {
      KeySetMember(done, rest.value.value[0].0);
      RepeatedAcross(done, rest.value.value, rest.value.value[0].0);
    }
  }

  lemma {:induction false} DecodeEntriesErrors(n: nat, s: bytes)
    ensures Spec.DecodeEntries(n, s).Err? ==> Spec.DecodeEntries(n, s) == Err(Deserialization)
    decreases |s|, 1, n
  {
    if n > 0 && Spec.TakeText(s).Ok? {
      var t := Spec.TakeText(s).value.rest;
      DecodeValueErrors(t);
      if Spec.DecodeValue(t).Ok? {
        DecodeEntriesErrors(n - 1, Spec.DecodeValue(t).value.rest);
      }
    }
  }

  /** Decoding has one kind of error. */
  lemma {:induction false} DecodeValueErrors(s: bytes)
    ensures Spec.DecodeValue(s).Err? ==> Spec.DecodeValue(s) == Err(Deserialization)
    decreases |s|, 0
  {
    if s != [] && (s[0] == Spec.TAG_LIST || s[0] == Spec.TAG_DICT) && Spec.TakeLen(s[1..]).Ok? {
      var Parsed(n, u) := Spec.TakeLen(s[1..]).value;
      DecodeItemsErrors(n, u);
      DecodeEntriesErrors(n, u);
    }
  }

  lemma {:induction false} DecodeItemsErrors(n: nat, s: bytes)
    ensures Spec.DecodeItems(n, s).Err? ==> Spec.DecodeItems(n, s) == Err(Deserialization)
    decreases |s|, 1, n
  {
    if n > 0 {
      DecodeValueErrors(s);
      if Spec.DecodeValue(s).Ok? {
        DecodeItemsErrors(n - 1, Spec.DecodeValue(s).value.rest);
      }
    }
  }

  ghost function KeySet(es: Fields<StructuredValue>): set<Text> {
    if es == [] then {} else {es[0].0} + KeySet(es[1..])
  }

  lemma {:induction false} KeySetMember(es: Fields<StructuredValue>, k: Text)
    ensures k in KeySet(es) <==> HasKey(es, k)
  {
    if es != [] {
      KeySetMember(es[1..], k);
    }
  }

  lemma {:induction false} AppendEntry(es: Fields<StructuredValue>, e: (Text, StructuredValue))
    requires DistinctKeys(es) && e.0 !in KeySet(es)
    ensures KeySet(es + [e]) == KeySet(es) + {e.0} && DistinctKeys(es + [e])
  {
    if es != [] {
      AppendEntry(es[1..], e);
      assert (es + [e])[1..] == es[1..] + [e];
      KeySetMember(es[1..], es[0].0);
      KeySetMember(es[1..] + [e], es[0].0);
    }
  }

  lemma {:induction false} RepeatedAcross(a: Fields<StructuredValue>, b: Fields<StructuredValue>, k: Text)
    requires HasKey(a, k) && HasKey(b, k)
    ensures !DistinctKeys(a + b)
  {
    assert (a + b)[1..] == a[1..] + b;
    if a[0].0 == k {
      HasKeySuffix(a[1..], b, k);
    } else {
      RepeatedAcross(a[1..], b, k);
    }
  }

  lemma {:induction false} HasKeySuffix(a: Fields<StructuredValue>, b: Fields<StructuredValue>, k: Text)
    requires HasKey(b, k)
    ensures HasKey(a + b, k)
  {
    if a == [] {
      assert a + b == b;
    } else {
      assert (a + b)[1..] == a[1..] + b;
      HasKeySuffix(a[1..], b, k);
    }
  }
}
