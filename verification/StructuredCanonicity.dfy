/** Canonicity of OKV1: encodings are equal exactly for trees that are the same up to
    dictionary order, and every accepted byte string re-encodes to its canonical form. */
module StructuredCanonicity {
  import opened Base
  import opened LittleEndian
  import opened Utf8
  import opened KeyOrder
  import opened StructuredValues
  import opened StructuredCodec
  import opened StructuredCodecTheorems

  // ------------------------------------------------ canonical form and sameness

  /** `cs` holds exactly the entries of `es` with canonical values. */
  ghost predicate CanonOf(cs: Fields<StructuredValue>, es: Fields<StructuredValue>) {
    && (forall e | e in es :: (e.0, Canon(e.1)) in cs)
    && (forall c | c in cs :: exists e | e in es :: c == (e.0, Canon(e.1)))
  }

  /** Equal keys carry equal canonical values. */
  ghost predicate Agree(es: Fields<StructuredValue>, fs: Fields<StructuredValue>) {
    forall e, f | e in es && f in fs && e.0 == f.0 :: Canon(e.1) == Canon(f.1)
  }

  lemma AgreeingSubset(es: Fields<StructuredValue>, fs: Fields<StructuredValue>, cs: Fields<StructuredValue>, ds: Fields<StructuredValue>)
    requires CanonOf(cs, es) && CanonOf(ds, fs)
    requires SameKeys(es, fs) && Agree(es, fs)
    ensures forall c | c in cs :: c in ds
  {
    forall c | c in cs ensures c in ds {
      var e :| e in es && c == (e.0, Canon(e.1));
      var f := EntryUnderKey(fs, e.0);
      assert (f.0, Canon(f.1)) in ds;
    }
  }

  lemma EqualFormsAgree(es: Fields<StructuredValue>, fs: Fields<StructuredValue>, cs: Fields<StructuredValue>)
    requires CanonOf(cs, es) && CanonOf(cs, fs) && Ascending(cs)
    ensures SameKeys(es, fs) && Agree(es, fs)
  {
    forall e | e in es ensures HasKey(fs, e.0) {
      assert (e.0, Canon(e.1)) in cs;
      var f :| f in fs && (e.0, Canon(e.1)) == (f.0, Canon(f.1));
      KeyOfEntry(fs, f);
    }
    forall f | f in fs ensures HasKey(es, f.0) {
      assert (f.0, Canon(f.1)) in cs;
      var e :| e in es && (f.0, Canon(f.1)) == (e.0, Canon(e.1));
      KeyOfEntry(es, e);
    }
    forall e, f | e in es && f in fs && e.0 == f.0 ensures Canon(e.1) == Canon(f.1) {
      AscendingFunctional(cs, (e.0, Canon(e.1)), (f.0, Canon(f.1)));
    }
  }

  /** What the canonical entries are, as a set. */
  lemma CanonEntriesElements(parent: StructuredValue, es: Fields<StructuredValue>)
    requires forall e | e in es :: e.1 < parent
    ensures CanonOf(CanonEntries(parent, es), es)
  {
    var cs := CanonEntries(parent, es);
    forall e | e in es ensures (e.0, Canon(e.1)) in cs {
      var i :| 0 <= i < |es| && es[i] == e;
      assert cs[i] == (e.0, Canon(e.1));
    }
    forall c | c in cs ensures exists e | e in es :: c == (e.0, Canon(e.1)) {
      var i :| 0 <= i < |cs| && cs[i] == c;
      assert es[i] in es;
    }
  }

  lemma {:induction false} CanonEntriesAscend(parent: StructuredValue, es: Fields<StructuredValue>)
    requires forall e | e in es :: e.1 < parent
    requires Ascending(es)
    ensures Ascending(CanonEntries(parent, es))
    decreases |es|
  {
    if es != [] {
      CanonEntriesAscend(parent, es[1..]);
      CanonEntriesElements(parent, es[1..]);
      var cs := CanonEntries(parent, es);
      assert cs[1..] == CanonEntries(parent, es[1..]);
    }
  }

  lemma CanonDictAscends(v: StructuredValue) returns (cs: Fields<StructuredValue>)
    requires v.Dict? && DistinctKeys(v.entries)
    ensures forall e | e in Sort(v.entries) :: e.1 < v
    ensures cs == CanonEntries(v, Sort(v.entries))
    ensures Canon(v) == Dict(cs) && |cs| == |v.entries| && Ascending(cs)
  {
    SortElements(v.entries);
    SortAscends(v.entries);
    cs := CanonEntries(v, Sort(v.entries));
    CanonEntriesAscend(v, Sort(v.entries));
  }

  /** The entries of a canonical dictionary: ascending, and exactly the original entries
      with canonical values. */
  lemma CanonDict(v: StructuredValue) returns (cs: Fields<StructuredValue>)
    requires v.Dict? && DistinctKeys(v.entries)
    ensures Canon(v) == Dict(cs) && |cs| == |v.entries| && Ascending(cs)
    ensures CanonOf(cs, v.entries)
  {
    cs := CanonDictAscends(v);
    SortElements(v.entries);
    CanonEntriesElements(v, Sort(v.entries));
  }

  /** Two encodable trees have the same canonical form exactly when they are the same up
      to dictionary order. */
  lemma {:induction false} CanonDecidesSame(a: StructuredValue, b: StructuredValue)
    requires Encodable(a) && Encodable(b)
    ensures Canon(a) == Canon(b) <==> Same(a, b)
    decreases a
  {
    match (a, b)
    case (List(xs), List(ys)) =>
      forall i | 0 <= i < |xs| && i < |ys| ensures Canon(xs[i]) == Canon(ys[i]) <==> Same(xs[i], ys[i]) {
        CanonDecidesSame(xs[i], ys[i]);
      }
      if Same(a, b) {
        assert CanonItems(xs) == CanonItems(ys);
      }
      if Canon(a) == Canon(b) {
        assert forall i | 0 <= i < |xs| :: CanonItems(xs)[i] == CanonItems(ys)[i];
      }
    case (Dict(es), Dict(fs)) =>
      forall e, f | e in es && f in fs ensures Canon(e.1) == Canon(f.1) <==> Same(e.1, f.1) {
        CanonDecidesSame(e.1, f.1);
      }
      DictsDecideSame(a, b);
    case _ =>
  }

  lemma DictsDecideSame(a: StructuredValue, b: StructuredValue)
    requires a.Dict? && b.Dict? && DistinctKeys(a.entries) && DistinctKeys(b.entries)
    requires forall e, f | e in a.entries && f in b.entries :: Canon(e.1) == Canon(f.1) <==> Same(e.1, f.1)
    ensures Canon(a) == Canon(b) <==> Same(a, b)
  {
    var es, fs := a.entries, b.entries;
    var cs := CanonDict(a);
    var ds := CanonDict(b);
    assert Same(a, b) <==> |es| == |fs| && SameKeys(es, fs) && Agree(es, fs);
    if Same(a, b) {
      AgreeingSubset(es, fs, cs, ds);
      AgreeingSubset(fs, es, ds, cs);
      AscendingUnique(cs, ds);
    }
    if cs == ds {
      EqualFormsAgree(es, fs, cs);
    }
  }

  /** Canonicalising does not change the encoding. */
  lemma {:induction false} EncodeCanon(v: StructuredValue)
    requires Encodable(v)
    ensures EncodeValue(Canon(v)) == EncodeValue(v)
    decreases v, 1
  {
    match v
    case List(xs) => EncodeItemsCanon(xs);
    case Dict(es) =>
      SortElements(es);
      var cs := CanonDictAscends(v);
      SortFixesAscending(cs);
      assert forall e | e in cs :: e.1 < Dict(cs);
      EncodeEntriesCanon(v, Sort(es), Dict(cs), None);
    case _ =>
  }

  lemma {:induction false} EncodeItemsCanon(xs: seq<StructuredValue>)
    requires forall i | 0 <= i < |xs| :: Encodable(xs[i])
    ensures EncodeItems(CanonItems(xs)) == EncodeItems(xs)
    decreases xs
  {
    if xs != [] {
      EncodeCanon(xs[0]);
      EncodeItemsCanon(xs[1..]);
      assert CanonItems(xs)[1..] == CanonItems(xs[1..]);
    }
  }

  lemma {:induction false} EncodeEntriesCanon(p: StructuredValue, es: Fields<StructuredValue>, q: StructuredValue, previous: Option<Text>)
    requires forall e | e in es :: e.1 < p && Encodable(e.1)
    requires forall c | c in CanonEntries(p, es) :: c.1 < q
    ensures EncodeEntries(q, CanonEntries(p, es), previous) == EncodeEntries(p, es, previous)
    decreases p, 0, |es|
  {
    if es != [] {
      assert es[0] in es;
      EncodeCanon(es[0].1);
      var cs := CanonEntries(p, es);
      assert cs[1..] == CanonEntries(p, es[1..]);
      EncodeEntriesCanon(p, es[1..], q, Some(es[0].0));
    }
  }

  /** Encoded bytes are equal exactly for trees that differ only in dictionary order. */
  lemma CanonicalEncoding(a: StructuredValue, b: StructuredValue)
    requires Encodable(a) && Encodable(b)
    ensures Encode(a) == Encode(b) <==> Same(a, b)
  {
    RoundTrip(a);
    RoundTrip(b);
    CanonDecidesSame(a, b);
    if Canon(a) == Canon(b) {
      EncodeCanon(a);
      EncodeCanon(b);
    }
  }
}
