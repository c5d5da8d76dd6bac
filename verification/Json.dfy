/** Conversion between structured values and JSON trees. A JSON object keeps its entries
    either sorted by key or in order of insertion, depending on how the JSON library was
    built; both are covered. */
module Json {
  import opened Base
  import opened LittleEndian
  import opened Utf8
  import opened KeyOrder
  import SV = StructuredValues

  type StructuredValue = SV.StructuredValue
  type Float64 = SV.Float64

  /** An exponent of all ones is infinity or not a number; the bytes are little-endian. */
  predicate IsFinite(f: Float64) {
    !(f[7] % 128 == 127 && f[6] / 16 == 15)
  }

  /** A double is finite exactly when the eleven bits of its exponent are not all ones. */
  lemma IsFiniteIff(f: Float64)
    ensures IsFinite(f) <==> U64FromLe(f) / 0x10_0000_0000_0000 % 0x800 != 0x7FF
  {
    FromLe4(f);
    FromLe4(f[4..]);
    assert f[4..][4..] == [];
    var a: int, b: int, c: int, d: int := f[4], f[5], f[6], f[7];
    var high := a + 0x100 * b + 0x1_0000 * c + 0x100_0000 * d;
    assert Number4(f[4..]) == high && U64FromLe(f) == Number4(f) + 0x1_0000_0000 * high;
    Exponent(Number4(f), a, b, c, d);
  }

  lemma Exponent(low: int, a: int, b: int, c: int, d: int)
    requires 0 <= low < 0x1_0000_0000 && 0 <= a < 256 && 0 <= b < 256 && 0 <= c < 256 && 0 <= d < 256
    ensures (low + 0x1_0000_0000 * (a + 0x100 * b + 0x1_0000 * c + 0x100_0000 * d)) / 0x10_0000_0000_0000 == c / 16 + 16 * d
    ensures (c / 16 + 16 * d) % 0x800 == 0x7FF <==> d % 128 == 127 && c / 16 == 15
  {
  }

  type FiniteFloat = f: Float64 | IsFinite(f) witness [0, 0, 0, 0, 0, 0, 0, 0]

  type Negative = n: int64 | n < 0 witness -1

  datatype Number = PosInt(u: uint64) | NegInt(i: Negative) | FloatNumber(f: FiniteFloat)

  datatype JsonValue =
    | Null
    | Bool(b: bool)
    | Num(n: Number)
    | String(text: Text)
    | Array(items: seq<JsonValue>)
    | Object(entries: Fields<JsonValue>)

  /** Which order an object keeps: sorted by key, or insertion order. */
  function Arrange<V>(sorted: bool, es: Fields<V>): Fields<V> {
    if sorted then Sort(es) else es
  }

  /** A tree the library can hold: no object repeats a key, and its entries are in order. */
  ghost predicate Holdable(sorted: bool, j: JsonValue)
    decreases j
  {
    match j
    case Array(xs) => forall x | x in xs :: Holdable(sorted, x)
    case Object(es) =>
      && DistinctKeys(es) && Arrange(sorted, es) == es
      && forall e | e in es :: Holdable(sorted, e.1)
    case _ => true
  }

  // -------------------------------------------------------------------- numbers

  function FromI64(n: int64): Number {
    if n < 0 then NegInt(n) else PosInt(n)
  }

  function AsU64(n: Number): Option<uint64> {
    match n case PosInt(u) => Some(u) case _ => None
  }

  function AsI64(n: Number): Option<int64> {
    match n
    case PosInt(u) => if u < I64_LIMIT then Some(u) else None
    case NegInt(i) => Some(i)
    case FloatNumber(_) => None
  }

  function FromNumber(n: Number): StructuredValue {
    if AsU64(n).Some? then
      var u := AsU64(n).value;
      if u < I64_LIMIT then SV.Integer(u) else SV.UnsignedInteger(u)
    else if AsI64(n).Some? then SV.Integer(AsI64(n).value)
    else SV.Float(n.f)
  }

  // ------------------------------------------------------------------ conversion

  function ToJson(sorted: bool, v: StructuredValue): (r: Result<JsonValue>)
    ensures r.Err? ==> r.error == Serialization
    decreases v
  {
    match v
    case Null => Ok(JsonValue.Null)
    case Bool(b) => Ok(JsonValue.Bool(b))
    case Integer(n) => Ok(Num(FromI64(n)))
    case UnsignedInteger(n) => Ok(Num(PosInt(n)))
    case Float(f) => if IsFinite(f) then Ok(Num(FloatNumber(f))) else Err(Serialization)
    case String(s) => Ok(JsonValue.String(s))
    case Bytes(_) => Err(Serialization)
    case List(xs) =>
      var items :- ToJsonItems(sorted, xs);
      Ok(Array(items))
    case Dict(es) =>
      var entries :- ToJsonEntries(sorted, es);
      if DistinctKeys(entries) then Ok(Object(Arrange(sorted, entries))) else Err(Serialization)
  }

  function ToJsonItems(sorted: bool, xs: seq<StructuredValue>): (r: Result<seq<JsonValue>>)
    ensures r.Err? ==> r.error == Serialization
    decreases xs
  {
    if xs == [] then Ok([]) else
      var first :- ToJson(sorted, xs[0]);
      var rest :- ToJsonItems(sorted, xs[1..]);
      Ok([first] + rest)
  }

  function ToJsonEntries(sorted: bool, es: Fields<StructuredValue>): (r: Result<Fields<JsonValue>>)
    ensures r.Err? ==> r.error == Serialization
    decreases es
  {
    if es == [] then Ok([]) else
      var e := es[0];
      assert e.1 < e;
      var first :- ToJson(sorted, e.1);
      var rest :- ToJsonEntries(sorted, es[1..]);
      Ok([(e.0, first)] + rest)
  }

  function FromJson(j: JsonValue): StructuredValue
    decreases j
  {
    match j
    case Null => SV.Null
    case Bool(b) => SV.Bool(b)
    case Num(n) => FromNumber(n)
    case String(s) => SV.String(s)
    case Array(xs) => SV.List(FromJsonItems(xs))
    case Object(es) => SV.Dict(FromJsonEntries(es))
  }

  function FromJsonItems(xs: seq<JsonValue>): seq<StructuredValue>
    decreases xs
  {
    if xs == [] then [] else [FromJson(xs[0])] + FromJsonItems(xs[1..])
  }

  function FromJsonEntries(es: Fields<JsonValue>): Fields<StructuredValue>
    decreases es
  {
    if es == [] then [] else
      var e := es[0];
      assert e.1 < e;
      [(e.0, FromJson(e.1))] + FromJsonEntries(es[1..])
  }

  // ---------------------------------------------------------- what can be converted

  /** No binary data, no float that is not finite, no dictionary with a repeated key, at any
      depth. */
  predicate Lossless(v: StructuredValue)
    decreases v
  {
    match v
    case Bytes(_) => false
    case Float(f) => IsFinite(f)
    case List(xs) => LosslessItems(xs)
    case Dict(es) => DistinctKeys(es) && LosslessEntries(es)
    case _ => true
  }

  predicate LosslessItems(xs: seq<StructuredValue>)
    decreases xs
  {
    xs == [] || (Lossless(xs[0]) && LosslessItems(xs[1..]))
  }

  predicate LosslessEntries(es: Fields<StructuredValue>)
    decreases es
  {
    es == [] ||
    var e := es[0];
    assert e.1 < e;
    Lossless(e.1) && LosslessEntries(es[1..])
  }

  /** The tree with small unsigned integers turned signed and dictionaries in the object's
      order. */
  function Normal(sorted: bool, v: StructuredValue): StructuredValue
    decreases v
  {
    match v
    case UnsignedInteger(n) => if n < I64_LIMIT then SV.Integer(n) else v
    case List(xs) => SV.List(NormalItems(sorted, xs))
    case Dict(es) => SV.Dict(Arrange(sorted, NormalEntries(sorted, es)))
    case _ => v
  }

  function NormalItems(sorted: bool, xs: seq<StructuredValue>): seq<StructuredValue>
    decreases xs
  {
    if xs == [] then [] else [Normal(sorted, xs[0])] + NormalItems(sorted, xs[1..])
  }

  function NormalEntries(sorted: bool, es: Fields<StructuredValue>): Fields<StructuredValue>
    decreases es
  {
    if es == [] then [] else
      var e := es[0];
      assert e.1 < e;
      [(e.0, Normal(sorted, e.1))] + NormalEntries(sorted, es[1..])
  }

  // --------------------------------------------------------------------- to JSON

  lemma {:induction false} ConvertedKeys(sorted: bool, es: Fields<StructuredValue>, k: Text)
    requires ToJsonEntries(sorted, es).Ok?
    ensures HasKey(ToJsonEntries(sorted, es).value, k) <==> HasKey(es, k)
    ensures |ToJsonEntries(sorted, es).value| == |es|
    decreases |es|
  {
    if es != [] {
      ConvertedKeys(sorted, es[1..], k);
    }
  }

  lemma {:induction false} ConvertedDistinct(sorted: bool, es: Fields<StructuredValue>)
    requires ToJsonEntries(sorted, es).Ok?
    ensures DistinctKeys(ToJsonEntries(sorted, es).value) <==> DistinctKeys(es)
    decreases |es|
  {
    if es != [] {
      ConvertedDistinct(sorted, es[1..]);
      ConvertedKeys(sorted, es[1..], es[0].0);
    }
  }

  /** A value converts exactly when nothing in it would be lost. */
  lemma {:induction false} ToJsonOkIff(sorted: bool, v: StructuredValue)
    ensures ToJson(sorted, v).Ok? <==> Lossless(v)
    decreases v
  {
    match v
    case List(xs) => ItemsOkIff(sorted, xs);
    case Dict(es) =>
      EntriesOkIff(sorted, es);
      if ToJsonEntries(sorted, es).Ok? {
        ConvertedDistinct(sorted, es);
      }
    case _ =>
  }

  lemma {:induction false} ItemsOkIff(sorted: bool, xs: seq<StructuredValue>)
    ensures ToJsonItems(sorted, xs).Ok? <==> LosslessItems(xs)
    decreases xs
  {
    if xs != [] {
      ToJsonOkIff(sorted, xs[0]);
      ItemsOkIff(sorted, xs[1..]);
    }
  }

  lemma {:induction false} EntriesOkIff(sorted: bool, es: Fields<StructuredValue>)
    ensures ToJsonEntries(sorted, es).Ok? <==> LosslessEntries(es)
    decreases es
  {
    if es != [] {
      var e := es[0];
      assert e.1 < e;
      ToJsonOkIff(sorted, e.1);
      EntriesOkIff(sorted, es[1..]);
    }
  }

  // ------------------------------------------------------------------- and back

  lemma {:induction false} FromInserted(e: (Text, JsonValue), es: Fields<JsonValue>)
    ensures FromJsonEntries(Insert(e, es)) == Insert((e.0, FromJson(e.1)), FromJsonEntries(es))
    decreases |es|
  {
    if es == [] || !Less(es[0].0, e.0) {
      assert ([e] + es)[1..] == es;
    } else {
      FromInserted(e, es[1..]);
      assert Insert(e, es)[1..] == Insert(e, es[1..]);
      assert FromJsonEntries(es)[1..] == FromJsonEntries(es[1..]);
    }
  }

  lemma {:induction false} FromSorted(es: Fields<JsonValue>)
    ensures FromJsonEntries(Sort(es)) == Sort(FromJsonEntries(es))
    decreases |es|
  {
    if es != [] {
      FromSorted(es[1..]);
      FromInserted(es[0], Sort(es[1..]));
      assert FromJsonEntries(es)[1..] == FromJsonEntries(es[1..]);
    }
  }

  /** What comes back is the value in normal form. */
  lemma {:induction false} FromJsonOfToJson(sorted: bool, v: StructuredValue)
    requires ToJson(sorted, v).Ok?
    ensures FromJson(ToJson(sorted, v).value) == Normal(sorted, v)
    decreases v
  {
    match v
    case List(xs) => FromItemsOfTo(sorted, xs);
    case Dict(es) =>
      FromEntriesOfTo(sorted, es);
      FromSorted(ToJsonEntries(sorted, es).value);
    case _ =>
  }

  lemma {:induction false} FromItemsOfTo(sorted: bool, xs: seq<StructuredValue>)
    requires ToJsonItems(sorted, xs).Ok?
    ensures FromJsonItems(ToJsonItems(sorted, xs).value) == NormalItems(sorted, xs)
    decreases xs
  {
    if xs != [] {
      FromJsonOfToJson(sorted, xs[0]);
      FromItemsOfTo(sorted, xs[1..]);
    }
  }

  lemma {:induction false} FromEntriesOfTo(sorted: bool, es: Fields<StructuredValue>)
    requires ToJsonEntries(sorted, es).Ok?
    ensures FromJsonEntries(ToJsonEntries(sorted, es).value) == NormalEntries(sorted, es)
    decreases es
  {
    if es != [] {
      var e := es[0];
      assert e.1 < e;
      FromJsonOfToJson(sorted, e.1);
      FromEntriesOfTo(sorted, es[1..]);
    }
  }

  /** Every JSON tree survives the trip to a structured value and back unchanged. */
  lemma {:induction false} ToJsonOfFromJson(sorted: bool, j: JsonValue)
    requires Holdable(sorted, j)
    ensures ToJson(sorted, FromJson(j)) == Ok(j)
    decreases j
  {
    match j
    case Array(xs) => ToItemsOfFrom(sorted, xs);
    case Object(es) => ToEntriesOfFrom(sorted, es);
    case _ =>
  }

  lemma {:induction false} ToItemsOfFrom(sorted: bool, xs: seq<JsonValue>)
    requires forall x | x in xs :: Holdable(sorted, x)
    ensures ToJsonItems(sorted, FromJsonItems(xs)) == Ok(xs)
    decreases xs
  {
    if xs != [] {
      assert xs == [xs[0]] + xs[1..];
      ToJsonOfFromJson(sorted, xs[0]);
      ToItemsOfFrom(sorted, xs[1..]);
    }
  }

  lemma {:induction false} ToEntriesOfFrom(sorted: bool, es: Fields<JsonValue>)
    requires forall e | e in es :: Holdable(sorted, e.1)
    ensures ToJsonEntries(sorted, FromJsonEntries(es)) == Ok(es)
    decreases es
  {
    if es != [] {
      assert es == [es[0]] + es[1..];
      var e := es[0];
      assert e.1 < e;
      ToJsonOfFromJson(sorted, e.1);
      ToEntriesOfFrom(sorted, es[1..]);
    }
  }

  // ------------------------------------------------------------- holdable results

  lemma ArrangeTwice<V>(sorted: bool, es: Fields<V>)
    requires DistinctKeys(es)
    ensures DistinctKeys(Arrange(sorted, es)) && Arrange(sorted, Arrange(sorted, es)) == Arrange(sorted, es)
    ensures forall e :: e in Arrange(sorted, es) <==> e in es
  {
    SortElements(es);
    SortAscends(es);
    SortFixesAscending(Sort(es));
  }

  /** Converting yields trees the library can hold. */
  lemma {:induction false} ToJsonIsHoldable(sorted: bool, v: StructuredValue)
    requires ToJson(sorted, v).Ok?
    ensures Holdable(sorted, ToJson(sorted, v).value)
    decreases v
  {
    match v
    case List(xs) => ItemsHoldable(sorted, xs);
    case Dict(es) =>
      EntriesHoldable(sorted, es);
      ArrangeTwice(sorted, ToJsonEntries(sorted, es).value);
    case _ =>
  }

  lemma {:induction false} ItemsHoldable(sorted: bool, xs: seq<StructuredValue>)
    requires ToJsonItems(sorted, xs).Ok?
    ensures forall x | x in ToJsonItems(sorted, xs).value :: Holdable(sorted, x)
    decreases xs
  {
    if xs != [] {
      ToJsonIsHoldable(sorted, xs[0]);
      ItemsHoldable(sorted, xs[1..]);
    }
  }

  lemma {:induction false} EntriesHoldable(sorted: bool, es: Fields<StructuredValue>)
    requires ToJsonEntries(sorted, es).Ok?
    ensures forall e | e in ToJsonEntries(sorted, es).value :: Holdable(sorted, e.1)
    decreases es
  {
    if es != [] {
      var e := es[0];
      assert e.1 < e;
      ToJsonIsHoldable(sorted, e.1);
      EntriesHoldable(sorted, es[1..]);
    }
  }

  /** An object built from a dictionary has its entries, each converted: with keys rising byte by
      byte when the library sorts, and otherwise in the dictionary's order. */
  lemma ObjectOrder(sorted: bool, es: Fields<StructuredValue>, fs: Fields<JsonValue>)
    requires ToJson(sorted, SV.Dict(es)) == Ok(Object(fs))
    ensures |fs| == |es| && forall f :: f in fs <==> exists e :: e in es && Converts(sorted, e, f)
    ensures sorted ==> KeysRise(fs)
    ensures !sorted ==> forall i | 0 <= i < |es| :: Converts(sorted, es[i], fs[i])
  {
    var entries := ToJsonEntries(sorted, es).value;
    EntriesAt(sorted, es);
    ConvertedDistinct(sorted, es);
    ArrangeTwice(sorted, entries);
    forall f ensures f in entries <==> exists e :: e in es && Converts(sorted, e, f) {
      if f in entries {
        var i :| 0 <= i < |entries| && entries[i] == f;
        assert es[i] in es && Converts(sorted, es[i], f);
      }
      if exists e :: e in es && Converts(sorted, e, f) {
        var e :| e in es && Converts(sorted, e, f);
        var i :| 0 <= i < |es| && es[i] == e;
        assert entries[i] == f;
      }
    }
    if sorted {
      SortAscends(entries);
      AscendingIff(fs);
    }
  }

  /** Same key, and the value converted. */
  predicate Converts(sorted: bool, e: (Text, StructuredValue), f: (Text, JsonValue)) {
    f.0 == e.0 && ToJson(sorted, e.1) == Ok(f.1)
  }

  lemma {:induction false} EntriesAt(sorted: bool, es: Fields<StructuredValue>)
    requires ToJsonEntries(sorted, es).Ok?
    ensures |ToJsonEntries(sorted, es).value| == |es|
    ensures forall i | 0 <= i < |es| :: Converts(sorted, es[i], ToJsonEntries(sorted, es).value[i])
    decreases |es|
  {
    if es != [] {
      EntriesAt(sorted, es[1..]);
    }
  }

  /** Two values become the same JSON exactly when they have the same normal form, and the
      normal form is a fixed point of the trip through JSON. */
  lemma SameJsonIff(sorted: bool, a: StructuredValue, b: StructuredValue)
    requires Lossless(a) && Lossless(b)
    ensures ToJson(sorted, a) == ToJson(sorted, b) <==> Normal(sorted, a) == Normal(sorted, b)
    ensures ToJson(sorted, Normal(sorted, a)) == ToJson(sorted, a)
    ensures Normal(sorted, Normal(sorted, a)) == Normal(sorted, a)
  {
    ThroughJson(sorted, a);
    ThroughJson(sorted, b);
  }

  lemma ThroughJson(sorted: bool, v: StructuredValue)
    requires Lossless(v)
    ensures ToJson(sorted, v).Ok? && FromJson(ToJson(sorted, v).value) == Normal(sorted, v)
    ensures ToJson(sorted, Normal(sorted, v)) == ToJson(sorted, v)
    ensures Normal(sorted, Normal(sorted, v)) == Normal(sorted, v)
  {
    ToJsonOkIff(sorted, v);
    FromJsonOfToJson(sorted, v);
    ToJsonIsHoldable(sorted, v);
    ToJsonOfFromJson(sorted, ToJson(sorted, v).value);
    FromJsonOfToJson(sorted, Normal(sorted, v));
  }
}
