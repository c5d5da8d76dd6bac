/** Compound identities: a collection and a key framed by the collection's byte length, and
    subspaces framed the same way. */
module Compound {
  import opened Base
  import opened Utf8
  import opened Decimal

  const COLON: byte := 0x3A

  function CollectionPrefix(collection: Text): (p: Text)
    ensures p == Digits(|collection|) + ([COLON] + collection)
  {
    AsciiValid([COLON]);
    ConcatValid([COLON], collection);
    ConcatValid(Digits(|collection|), [COLON] + collection);
    Digits(|collection|) + ([COLON] + collection)
  }

  function CompoundKey(collection: Text, key: Text): (s: Text)
    ensures s == CollectionPrefix(collection) + key
  {
    ConcatValid(CollectionPrefix(collection), key);
    CollectionPrefix(collection) + key
  }

  /** Position of the first colon, or the length when there is none. */
  function ColonIndex(s: bytes): (i: nat)
    ensures i <= |s|
    ensures i < |s| ==> s[i] == COLON
    ensures forall j | 0 <= j < i :: s[j] != COLON
  {
    if s == [] || s[0] == COLON then 0 else 1 + ColonIndex(s[1..])
  }

  /** `str::split_once(':')`. */
  function SplitOnce(s: Text): (r: Option<(Text, Text)>)
    ensures r.Some? ==> s == r.value.0 + ([COLON] + r.value.1) && |r.value.0| == ColonIndex(s)
    ensures r.None? <==> ColonIndex(s) == |s|
  {
    var i := ColonIndex(s);
    if i == |s| then None else
      SplitValid(s, i);
      AsciiValid([COLON]);
      assert s[i..] == [COLON] + s[i + 1..];
      ConcatValid([COLON], s[i + 1..]);
      Some((s[..i], s[i + 1..]))
  }

  function DecompoundKey(s: Text): (r: Result<(Text, Text)>)
    ensures r.Err? ==> r.error == InvalidKey
  {
    match SplitOnce(s)
    case None => Err(InvalidKey)
    case Some((length, payload)) => SplitPayload(length, payload)
  }

  function SplitPayload(length: Text, payload: Text): (r: Result<(Text, Text)>)
    ensures r.Err? ==> r.error == InvalidKey
  {
    if length == [] || !AllDigits(length) then Err(InvalidKey)
    else if |length| > 1 && length[0] == 0x30 then Err(InvalidKey)
    else if ParseU64(length).None? then Err(InvalidKey)
    else
      var n := ParseU64(length).value;
      if n > |payload| || !IsBoundary(payload, n) then Err(InvalidKey)
      else
        SplitValid(payload, n);
        Ok((payload[..n], payload[n..]))
  }

  // --------------------------------------------------------------- injectivity

  lemma {:induction false} ColonAfterDigits(d: bytes, t: bytes)
    requires AllDigits(d)
    ensures ColonIndex(d + ([COLON] + t)) == |d|
    ensures (d + ([COLON] + t))[..|d|] == d && (d + ([COLON] + t))[|d| + 1..] == t
  {
    var s := d + ([COLON] + t);
    assert s[|d|] == COLON;
    assert forall j | 0 <= j < |d| :: s[j] == d[j];
  }

  lemma Reframe(d: bytes, c: bytes, k: bytes)
    ensures (d + ([COLON] + c)) + k == d + ([COLON] + (c + k))
  {
  }

  /** Two identities are equal only when both their collections and their keys are. */
  lemma CompoundInjective(c: Text, k: Text, c': Text, k': Text)
    ensures CompoundKey(c, k) == CompoundKey(c', k') <==> c == c' && k == k'
  {
    if CompoundKey(c, k) == CompoundKey(c', k') {
      Framing(c, k);
      Framing(c', k');
      NumeralOfDigits(|c|);
      NumeralOfDigits(|c'|);
      assert c == (c + k)[..|c|] && k == (c + k)[|c|..];
      assert c' == (c' + k')[..|c'|] && k' == (c' + k')[|c'|..];
    }
  }

  /** How an identity splits at its first colon. */
  lemma Framing(c: Text, k: Text)
    ensures var s := CompoundKey(c, k);
            var i := ColonIndex(s);
            i == |Digits(|c|)| < |s| && s[..i] == Digits(|c|) && s[i + 1..] == c + k
  {
    Reframe(Digits(|c|), c, k);
    ColonAfterDigits(Digits(|c|), c + k);
  }

  lemma SplitPayloadOf(c: Text, k: Text)
    requires |c| < U64_LIMIT
    ensures Valid(c + k) && SplitPayload(Digits(|c|), c + k) == Ok((c, k))
  {
    ParseDigits(|c|);
    ConcatValid(c, k);
    SplitValid(c + k, |c|);
    assert (c + k)[..|c|] == c && (c + k)[|c|..] == k;
  }

  lemma DecompoundOfCompound(c: Text, k: Text)
    requires |c| < U64_LIMIT
    ensures DecompoundKey(CompoundKey(c, k)) == Ok((c, k))
  {
    Framing(c, k);
    SplitPayloadOf(c, k);
    var s := CompoundKey(c, k);
    assert s[..|Digits(|c|)|] == SplitOnce(s).value.0;
    assert s[|Digits(|c|)| + 1..] == SplitOnce(s).value.1;
  }

  lemma PayloadSplit(length: Text, payload: Text, c: Text, k: Text)
    requires SplitPayload(length, payload) == Ok((c, k))
    ensures length == Digits(|c|) && payload == c + k
  {
    DigitsOfNumeral(length);
  }

  lemma CompoundOfDecompound(s: Text, c: Text, k: Text)
    requires DecompoundKey(s) == Ok((c, k))
    ensures s == CompoundKey(c, k)
  {
    var parts := SplitOnce(s).value;
    PayloadSplit(parts.0, parts.1, c, k);
    Reframe(Digits(|c|), c, k);
  }

  /** Decoding is the exact inverse of encoding: a string decodes to a pair precisely when
      it is that pair's identity; every other string is refused. */
  lemma DecompoundIff(s: Text, c: Text, k: Text)
    requires |s| < U64_LIMIT
    ensures DecompoundKey(s) == Ok((c, k)) <==> s == CompoundKey(c, k)
  {
    if s == CompoundKey(c, k) {
      DecompoundOfCompound(c, k);
    }
    if DecompoundKey(s) == Ok((c, k)) {
      CompoundOfDecompound(s, c, k);
    }
  }

  /** An identity starts with the prefix of a collection exactly when that is its own
      collection. */
  lemma PrefixDecidesCollection(c: Text, k: Text, c': Text)
    ensures CollectionPrefix(c') <= CompoundKey(c, k) <==> c' == c
  {
    var s, p := CompoundKey(c, k), CollectionPrefix(c');
    if p <= s {
      var rest := s[|p|..];
      assert s == p + rest;
      ConcatValid(p, rest);
      CompoundInjective(c, k, c', rest);
    }
  }

  // ------------------------------------------------------------------ subspaces

  function SubspacePrefix(subspace: Text): Text {
    if subspace == [] then [] else CollectionPrefix(subspace)
  }

  function Scope(subspace: Text, key: Text): (s: Text)
    ensures s == SubspacePrefix(subspace) + key
  {
    ConcatValid(SubspacePrefix(subspace), key);
    SubspacePrefix(subspace) + key
  }

  function SubspaceCompoundKey(subspace: Text, collection: Text, key: Text): Text {
    Scope(subspace, CompoundKey(collection, key))
  }

  function SubspaceDecompoundKey(subspace: Text, s: Text): Option<(Text, Text)> {
    var p := SubspacePrefix(subspace);
    if !(p <= s) then None else
      assert s == p + s[|p|..];
      ConcatValid(p, s[|p|..]);
      match DecompoundKey(s[|p|..])
      case Ok(pair) => Some(pair)
      case Err(_) => None
  }

  /** Decoding inside a subspace inverts encoding inside it, and refuses everything else. */
  lemma SubspaceDecompoundIff(subspace: Text, s: Text, c: Text, k: Text)
    requires |s| < U64_LIMIT
    ensures SubspaceDecompoundKey(subspace, s) == Some((c, k)) <==> s == SubspaceCompoundKey(subspace, c, k)
  {
    var p := SubspacePrefix(subspace);
    if p <= s {
      assert s == p + s[|p|..];
      ConcatValid(p, s[|p|..]);
      DecompoundIff(s[|p|..], c, k);
    }
    if s == SubspaceCompoundKey(subspace, c, k) {
      assert s[|p|..] == CompoundKey(c, k);
    }
  }

  ghost predicate Isolated(a: Text, b: Text) {
    forall c, k, c', k' :: SubspaceCompoundKey(a, c, k) != SubspaceCompoundKey(b, c', k')
  }

  /** Two distinct subspaces never share a physical key exactly when both are nonempty. */
  lemma SubspaceIsolation(a: Text, b: Text)
    requires a != b
    ensures Isolated(a, b) <==> a != [] && b != []
  {
    if a == [] {
      EmptySubspaceCollides(b);
    } else if b == [] {
      EmptySubspaceCollides(a);
    } else {
      forall c, k, c', k' ensures SubspaceCompoundKey(a, c, k) != SubspaceCompoundKey(b, c', k') {
        CompoundInjective(a, CompoundKey(c, k), b, CompoundKey(c', k'));
      }
    }
  }

  /** The empty subspace holds a key of every other subspace: collection `a`, key the
      inner identity. */
  lemma EmptySubspaceCollides(a: Text)
    requires a != []
    ensures !Isolated(a, []) && !Isolated([], a)
  {
    var inner := CompoundKey([], []);
    assert SubspaceCompoundKey([], a, inner) == SubspaceCompoundKey(a, [], []);
  }

  // -------------------------------------------------------------------- layout

  /** The bytes of an identity: the collection's length in decimal, a colon, the collection, the
      key; in a subspace they follow the subspace framed the same way. */
  lemma IdentityLayout(subspace: Text, c: Text, k: Text)
    ensures CompoundKey(c, k) == Digits(|c|) + Ascii(":") + c + k
    ensures SubspaceCompoundKey(subspace, c, k) ==
            (if subspace == [] then [] else Digits(|subspace|) + Ascii(":") + subspace) + (Digits(|c|) + Ascii(":") + c + k)
  {
  }
}
