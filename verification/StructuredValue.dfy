/** The structured value tree, its canonical form, and what it means for two trees to be
    the same up to the order of dictionary entries. */
module StructuredValues {
  import opened Base
  import opened Utf8
  import opened KeyOrder

  /** The eight bytes of an IEEE double. */
  type Float64 = s: bytes | |s| == 8 witness [0, 0, 0, 0, 0, 0, 0, 0]

  datatype StructuredValue =
    | Null
    | Bool(b: bool)
    | Integer(i: int64)
    | UnsignedInteger(u: uint64)
    | Float(f: Float64)
    | String(text: Text)
    | Bytes(data: bytes)
    | List(items: seq<StructuredValue>)
    | Dict(entries: Fields<StructuredValue>)

  /** Every length fits the 32-bit length field and no dictionary, at any depth, repeats a key. */
  predicate Encodable(v: StructuredValue) {
    match v
    case String(s) => |s| < U32_LIMIT
    case Bytes(s) => |s| < U32_LIMIT
    case List(xs) => |xs| < U32_LIMIT && forall i | 0 <= i < |xs| :: Encodable(xs[i])
    case Dict(es) =>
      && |es| < U32_LIMIT
      && DistinctKeys(es)
      && forall e | e in es :: |e.0| < U32_LIMIT && Encodable(e.1)
    case _ => true
  }

  /** The tree with every dictionary sorted by key bytes. */
  ghost function Canon(v: StructuredValue): StructuredValue
    decreases v
  {
    match v
    case List(xs) => List(CanonItems(xs))
    case Dict(es) =>
      SortElements(es);
      Dict(CanonEntries(v, Sort(es)))
    case _ => v
  }

  ghost function CanonItems(xs: seq<StructuredValue>): (r: seq<StructuredValue>)
    ensures |r| == |xs|
    ensures forall i | 0 <= i < |xs| :: r[i] == Canon(xs[i])
    decreases xs
  {
    if xs == [] then [] else [Canon(xs[0])] + CanonItems(xs[1..])
  }

  ghost function CanonEntries(parent: StructuredValue, es: Fields<StructuredValue>): (r: Fields<StructuredValue>)
    requires forall e | e in es :: e.1 < parent
    ensures |r| == |es|
    ensures forall i | 0 <= i < |es| :: r[i] == (es[i].0, Canon(es[i].1))
    decreases parent, |es|
  {
    if es == [] then [] else [(es[0].0, Canon(es[0].1))] + CanonEntries(parent, es[1..])
  }

  ghost predicate SameKeys(es: Fields<StructuredValue>, fs: Fields<StructuredValue>) {
    && (forall e | e in es :: HasKey(fs, e.0))
    && (forall f | f in fs :: HasKey(es, f.0))
  }

  /** Equal up to reordering dictionary entries at every depth. */
  ghost predicate Same(a: StructuredValue, b: StructuredValue) {
    match (a, b)
    case (List(xs), List(ys)) => |xs| == |ys| && forall i | 0 <= i < |xs| :: Same(xs[i], ys[i])
    case (Dict(es), Dict(fs)) =>
      && |es| == |fs|
      && SameKeys(es, fs)
      && forall e, f | e in es && f in fs && e.0 == f.0 :: Same(e.1, f.1)
    case _ => a == b
  }
}
