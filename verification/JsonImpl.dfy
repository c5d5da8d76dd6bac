/** Conversion to JSON as code: lists collected item by item, objects built by inserting into
    a map that tells whether the key was there. */
module JsonImpl {
  import opened Base
  import opened Utf8
  import opened KeyOrder
  import SV = StructuredValues
  import Spec = Json

  type StructuredValue = SV.StructuredValue
  type JsonValue = Spec.JsonValue

  // -------------------------------------------------------------- the object's map

  /** The map after one more key. */
  function Inserted(sorted: bool, contents: Fields<JsonValue>, e: (Text, JsonValue)): Fields<JsonValue> {
    if sorted then Insert(e, contents) else contents + [e]
  }

  lemma {:induction false} HasKeySnoc<V>(es: Fields<V>, e: (Text, V), k: Text)
    ensures HasKey(es + [e], k) <==> HasKey(es, k) || k == e.0
  {
    if es == [] {
      assert [] + [e] == [e];
      assert [e][1..] == [];
    } else {
      HasKeySnoc(es[1..], e, k);
      assert (es + [e])[1..] == es[1..] + [e];
    }
  }

  lemma {:induction false} DistinctSnoc<V>(es: Fields<V>, e: (Text, V))
    ensures DistinctKeys(es + [e]) <==> DistinctKeys(es) && !HasKey(es, e.0)
  {
    if es == [] {
      assert [] + [e] == [e];
      assert [e][1..] == [];
    } else {
      DistinctSnoc(es[1..], e);
      HasKeySnoc(es[1..], e, es[0].0);
      assert (es + [e])[1..] == es[1..] + [e];
    }
  }

  lemma {:induction false} PrefixDistinct<V>(es: Fields<V>, fs: Fields<V>)
    requires DistinctKeys(es + fs)
    ensures DistinctKeys(es)
  {
    if es != [] {
      assert (es + fs)[1..] == es[1..] + fs;
      PrefixDistinct(es[1..], fs);
      if HasKey(es[1..], es[0].0) {
        PrefixHasKey(es[1..], fs, es[0].0);
      }
    }
  }

  lemma PrefixHasKey<V>(es: Fields<V>, fs: Fields<V>, k: Text)
    requires HasKey(es, k)
    ensures HasKey(es + fs, k)
  {
    HasKeyMember(es, k);
    var i :| 0 <= i < |es| && es[i].0 == k;
    assert (es + fs)[i].0 == k;
    HasKeyMember(es + fs, k);
  }

  /** Inserting a new key into the sorted map sorts it in. */
  lemma InsertedArranges(sorted: bool, done: Fields<JsonValue>, e: (Text, JsonValue))
    requires DistinctKeys(done + [e])
    ensures Inserted(sorted, Spec.Arrange(sorted, done), e) == Spec.Arrange(sorted, done + [e])
  {
    if sorted {
      DistinctSnoc(done, e);
      SortAscends(done + [e]);
      SortSorts(done);
      InsertSorted(e, Sort(done));
      SortDistinct(done);
      SortHasKey(done, e.0);
      InsertDistinct(e, Sort(done));
      SortedDistinctAscends(Insert(e, Sort(done)));
      InsertElements(e, Sort(done));
      SortElements(done);
      SortElements(done + [e]);
      AscendingUnique(Insert(e, Sort(done)), Sort(done + [e]));
    }
  }

  lemma ArrangedHasKey(sorted: bool, done: Fields<JsonValue>, k: Text)
    ensures HasKey(Spec.Arrange(sorted, done), k) <==> HasKey(done, k)
  {
    SortHasKey(done, k);
  }

  // ------------------------------------------------------------------- conversion

  method ToJson(sorted: bool, v: StructuredValue) returns (r: Result<JsonValue>)
    ensures r == Spec.ToJson(sorted, v)
    decreases v, 1
  {
    match v {
      case Null => r := Ok(Spec.Null);
      case Bool(b) => r := Ok(Spec.Bool(b));
      case Integer(n) => r := Ok(Spec.Num(Spec.FromI64(n)));
      case UnsignedInteger(n) => r := Ok(Spec.Num(Spec.PosInt(n)));
      case Float(f) => r := if Spec.IsFinite(f) then Ok(Spec.Num(Spec.FloatNumber(f))) else Err(Serialization);
      case String(s) => r := Ok(Spec.String(s));
      case Bytes(_) => r := Err(Serialization);
      case List(xs) => r := ToArray(sorted, v);
      case Dict(es) => r := ToObject(sorted, v);
    }
  }

  method ToArray(sorted: bool, v: StructuredValue) returns (r: Result<JsonValue>)
    requires v.List?
    ensures r == Spec.ToJson(sorted, v)
    decreases v, 0
  {
    var xs := v.items;
    var items: seq<JsonValue> := [];
    assert xs[0..] == xs;
    PrefixedNothing(Spec.ToJsonItems(sorted, xs));
    for i := 0 to |xs|
      invariant Spec.ToJsonItems(sorted, xs) == Prefixed(items, Spec.ToJsonItems(sorted, xs[i..]))
    {
      assert xs[i..][1..] == xs[i + 1..];
      var item := ToJson(sorted, xs[i]);
      if item.Err? {
        return Err(item.error);
      }
      PrefixedStep(items, item.value, Spec.ToJsonItems(sorted, xs[i + 1..]), Spec.ToJsonItems(sorted, xs[i..]));
      items := items + [item.value];
    }
    assert items + [] == items;
    r := Ok(Spec.Array(items));
  }

  method ToObject(sorted: bool, v: StructuredValue) returns (r: Result<JsonValue>)
    requires v.Dict?
    ensures r == Spec.ToJson(sorted, v)
    decreases v, 0
  {
    var es := v.entries;
    var contents: Fields<JsonValue> := [];
    ghost var done: Fields<JsonValue> := [];
    assert es[0..] == es;
    PrefixedNothing(Spec.ToJsonEntries(sorted, es));
    for i := 0 to |es|
      invariant Spec.ToJsonEntries(sorted, es) == Prefixed(done, Spec.ToJsonEntries(sorted, es[i..]))
      invariant DistinctKeys(done) && contents == Spec.Arrange(sorted, done)
    {
      assert es[i..][1..] == es[i + 1..];
      var e := es[i];
      assert e.1 < e && e < v;
      var item := ToJson(sorted, e.1);
      if item.Err? {
        return Err(item.error);
      }
      ghost var tail := Spec.ToJsonEntries(sorted, es[i + 1..]);
      PrefixedStep(done, (e.0, item.value), tail, Spec.ToJsonEntries(sorted, es[i..]));
      ArrangedHasKey(sorted, done, e.0);
      DistinctSnoc(done, (e.0, item.value));
      if HasKey(contents, e.0) {
        RepeatedKeyFails(sorted, v, done + [(e.0, item.value)], tail);
        return Err(Serialization);
      }
      InsertedArranges(sorted, done, (e.0, item.value));
      contents := Inserted(sorted, contents, (e.0, item.value));
      done := done + [(e.0, item.value)];
    }
    assert done + [] == done;
    r := Ok(Spec.Object(contents));
  }

  lemma RepeatedKeyFails(sorted: bool, v: StructuredValue, done: Fields<JsonValue>, tail: Result<Fields<JsonValue>>)
    requires v.Dict? && !DistinctKeys(done)
    requires Spec.ToJsonEntries(sorted, v.entries) == Prefixed(done, tail)
    ensures Spec.ToJson(sorted, v) == Err(Serialization)
  {
    if tail.Ok? && DistinctKeys(done + tail.value) {
      PrefixDistinct(done, tail.value);
    }
  }
}
