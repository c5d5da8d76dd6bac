/** Names of the disk store's trees: a prefix and the collection's bytes in lower-case
    hexadecimal. */
module DiskTreeNames {
  import opened Base
  import opened Utf8

  /** "okv1-" */
  const TREE_PREFIX: bytes := [0x6F, 0x6B, 0x76, 0x31, 0x2D]

  function Digit(n: int): byte
    requires 0 <= n < 16
  {
    if n < 10 then 0x30 + n else 0x61 + (n - 10)
  }

  function DigitValue(b: byte): (r: Result<byte>)
    ensures r.Err? ==> r.error == InvalidKey
  {
    if 0x30 <= b <= 0x39 then Ok(b - 0x30) else if 0x61 <= b <= 0x66 then Ok(b - 0x61 + 10) else Err(InvalidKey)
  }

  function Hex(s: bytes): (r: bytes)
    ensures |r| == 2 * |s|
    ensures forall i | 0 <= i < |r| :: r[i] <= 0x7F
  {
    if s == [] then [] else [Digit(s[0] / 16), Digit(s[0] % 16)] + Hex(s[1..])
  }

  function Unhex(s: bytes): (r: Result<bytes>)
    requires |s| % 2 == 0
    ensures r.Err? ==> r.error == InvalidKey
    decreases |s|
  {
    if s == [] then Ok([]) else
      var high :- DigitValue(s[0]);
      var low :- DigitValue(s[1]);
      var rest :- Unhex(s[2..]);
      Ok([16 * high + low] + rest)
  }

  function EncodeTreeName(collection: Text): Result<Text> {
    if |TREE_PREFIX| + 2 * |collection| >= U64_LIMIT then Err(InvalidKey) else
      AsciiValid(TREE_PREFIX + Hex(collection));
      Ok(TREE_PREFIX + Hex(collection))
  }

  /** Nothing for a tree that is not the store's own. */
  function DecodeTreeName(name: bytes): (r: Result<Option<Text>>)
    ensures r.Err? ==> r.error == InvalidKey
  {
    if !(TREE_PREFIX <= name) then Ok(None)
    else if !Valid(name) then Err(InvalidKey)
    else if (|name| - |TREE_PREFIX|) % 2 != 0 then Err(InvalidKey)
    else
      var collection :- Unhex(name[|TREE_PREFIX|..]);
      if !Valid(collection) then Err(InvalidKey)
      else if EncodeTreeName(collection) != Ok(name) then Err(InvalidKey)
      else Ok(Some(collection))
  }

  lemma HexLater(s: bytes, j: nat)
    requires 2 <= j < 2 * |s|
    ensures Hex(s)[j] == Hex(s[1..])[j - 2]
  {
  }

  lemma DigitIs(n: nat)
    requires n < 16
    ensures Digit(n) == Ascii("0123456789abcdef")[n]
  {
  }

  /** Every byte becomes its two lower-case hexadecimal digits, the higher one first. */
  lemma {:induction false} HexAt(s: bytes, i: nat)
    requires i < |s|
    ensures Hex(s)[2 * i] == Ascii("0123456789abcdef")[s[i] / 16]
    ensures Hex(s)[2 * i + 1] == Ascii("0123456789abcdef")[s[i] % 16]
  {
    if i > 0 {
      HexAt(s[1..], i - 1);
      HexLater(s, 2 * i);
      HexLater(s, 2 * i + 1);
    } else {
      DigitIs(s[0] / 16);
      DigitIs(s[0] % 16);
    }
  }

  lemma Prefix()
    ensures TREE_PREFIX == Ascii("okv1-")
  {
  }

  lemma {:induction false} UnhexHex(s: bytes)
    ensures Unhex(Hex(s)) == Ok(s)
  {
    if s != [] {
      UnhexHex(s[1..]);
      assert Hex(s)[2..] == Hex(s[1..]);
      assert s == [s[0]] + s[1..];
    }
  }

  lemma HexPair(high: byte, low: byte, rest: bytes)
    requires high < 16 && low < 16
    ensures Hex([16 * high + low] + rest) == [Digit(high), Digit(low)] + Hex(rest)
  {
    var s: bytes := [16 * high + low] + rest;
    assert s[1..] == rest && s[0] / 16 == high && s[0] % 16 == low;
  }

  lemma UnhexParts(s: bytes) returns (high: byte, low: byte, rest: bytes)
    requires |s| % 2 == 0 && s != [] && Unhex(s).Ok?
    ensures high < 16 && low < 16 && s == [Digit(high), Digit(low)] + s[2..]
    ensures Unhex(s[2..]) == Ok(rest) && Unhex(s) == Ok([16 * high + low] + rest)
  {
    high, low, rest := DigitValue(s[0]).value, DigitValue(s[1]).value, Unhex(s[2..]).value;
  }

  lemma {:induction false} HexUnhex(s: bytes)
    requires |s| % 2 == 0 && Unhex(s).Ok?
    ensures Hex(Unhex(s).value) == s
    decreases |s|
  {
    if s != [] {
      var high, low, rest := UnhexParts(s);
      HexUnhex(s[2..]);
      HexPair(high, low, rest);
    }
  }

  /** Encoding and decoding are inverse to each other: a name is some collection's exactly
      when it decodes to that collection. */
  lemma TreeNameBijection(name: bytes, collection: Text)
    ensures DecodeTreeName(name) == Ok(Some(collection)) <==> EncodeTreeName(collection) == Ok(name)
  {
    if EncodeTreeName(collection) == Ok(name) {
      assert name[|TREE_PREFIX|..] == Hex(collection);
      UnhexHex(collection);
    }
  }

  /** A tree the store takes for its own is refused exactly when what follows the prefix is
      not the lower-case hexadecimal form of a string. */
  lemma RefusedNameIff(name: bytes)
    requires TREE_PREFIX <= name && |name| < U64_LIMIT
    ensures DecodeTreeName(name).Err? <==> !exists c: Text :: name == TREE_PREFIX + Hex(c)
  {
    if exists c: Text :: name == TREE_PREFIX + Hex(c) {
      var c: Text :| name == TREE_PREFIX + Hex(c);
      TreeNameBijection(name, c);
    }
    if DecodeTreeName(name).Ok? {
      var c := DecodeTreeName(name).value.value;
      assert name == TREE_PREFIX + Hex(c);
    }
  }

  /** The last test of the decoder can never fail. */
  lemma CanonicalTestIsRedundant(name: bytes)
    requires TREE_PREFIX <= name && |name| < U64_LIMIT && (|name| - |TREE_PREFIX|) % 2 == 0
    requires Unhex(name[|TREE_PREFIX|..]).Ok? && Valid(Unhex(name[|TREE_PREFIX|..]).value)
    ensures EncodeTreeName(Unhex(name[|TREE_PREFIX|..]).value) == Ok(name)
  {
    HexUnhex(name[|TREE_PREFIX|..]);
    assert name == TREE_PREFIX + name[|TREE_PREFIX|..];
  }

  lemma TreeNamesDiffer(a: Text, b: Text)
    requires EncodeTreeName(a).Ok? && EncodeTreeName(a) == EncodeTreeName(b)
    ensures a == b
  {
    TreeNameBijection(EncodeTreeName(a).value, a);
    TreeNameBijection(EncodeTreeName(b).value, b);
  }

  // --------------------------------------------------------------- the name codec

  method EncodeName(collection: Text) returns (r: Result<bytes>)
    ensures r == EncodeTreeName(collection)
  {
    if |TREE_PREFIX| + 2 * |collection| >= U64_LIMIT {
      return Err(InvalidKey);
    }
    var encoded := TREE_PREFIX;
    assert encoded == TREE_PREFIX + Hex(collection[..0]);
    for i := 0 to |collection|
      invariant encoded == TREE_PREFIX + Hex(collection[..i])
    {
      HexSnoc(collection[..i], collection[i]);
      assert collection[..i + 1] == collection[..i] + [collection[i]];
      encoded := encoded + [Digit(collection[i] / 16)];
      encoded := encoded + [Digit(collection[i] % 16)];
    }
    assert collection[..|collection|] == collection;
    AsciiValid(encoded);
    r := Ok(encoded);
  }

  lemma {:induction false} HexSnoc(s: bytes, b: byte)
    ensures Hex(s + [b]) == Hex(s) + [Digit(b / 16), Digit(b % 16)]
  {
    if s == [] {
      assert [] + [b] == [b];
      assert Hex([b][1..]) == [];
    } else {
      HexSnoc(s[1..], b);
      assert (s + [b])[1..] == s[1..] + [b];
    }
  }

  method DecodeName(name: bytes) returns (r: Result<Option<bytes>>)
    ensures r == DecodeTreeName(name)
  {
    if !(TREE_PREFIX <= name) {
      return Ok(None);
    }
    if !Valid(name) {
      return Err(InvalidKey);
    }
    var encoded := name[|TREE_PREFIX|..];
    if |encoded| % 2 != 0 {
      return Err(InvalidKey);
    }
    var collection: bytes := [];
    var i := 0;
    assert encoded[0..] == encoded;
    PrefixedNothing(Unhex(encoded));
    while i < |encoded|
      invariant i <= |encoded| && i % 2 == 0
      invariant Unhex(encoded) == Prefixed(collection, Unhex(encoded[i..]))
    {
      assert encoded[i..][2..] == encoded[i + 2..];
      var high := DigitValue(encoded[i]);
      if high.Err? {
        return Err(high.error);
      }
      var low := DigitValue(encoded[i + 1]);
      if low.Err? {
        return Err(low.error);
      }
      PrefixedStep(collection, 16 * high.value + low.value, Unhex(encoded[i + 2..]), Unhex(encoded[i..]));
      collection := collection + [16 * high.value + low.value];
      i := i + 2;
    }
    assert collection + [] == collection;
    if !Valid(collection) {
      return Err(InvalidKey);
    }
    var again := EncodeName(collection);
    if again != Ok(name) {
      return Err(InvalidKey);
    }
    r := Ok(Some(collection));
  }
}
