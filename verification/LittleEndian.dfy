/** Fixed-width little-endian integers, as `to_le_bytes` and `from_le_bytes` lay them out. */
module LittleEndian {
  import opened Base

  function Pow256(width: nat): (p: nat)
    ensures p > 0
  {
    if width == 0 then 1 else 256 * Pow256(width - 1)
  }

  function ToLe(n: nat, width: nat): (bs: bytes)
    ensures |bs| == width
  {
    if width == 0 then [] else [n % 256] + ToLe(n / 256, width - 1)
  }

  function FromLe(bs: bytes): nat {
    if bs == [] then 0 else bs[0] + 256 * FromLe(bs[1..])
  }

  lemma {:induction false} FromToLe(n: nat, width: nat)
    requires n < Pow256(width)
    ensures FromLe(ToLe(n, width)) == n
  {
    if width > 0 {
      FromToLe(n / 256, width - 1);
      assert ToLe(n, width)[1..] == ToLe(n / 256, width - 1);
    }
  }

  lemma {:induction false} ToFromLe(bs: bytes)
    ensures FromLe(bs) < Pow256(|bs|)
    ensures ToLe(FromLe(bs), |bs|) == bs
  {
    if bs != [] {
      ToFromLe(bs[1..]);
      assert bs == [bs[0]] + bs[1..];
    }
  }

  /** The two's-complement reading of a 64-bit pattern. */
  function Unsigned(i: int64): uint64 {
    if i < 0 then i + U64_LIMIT else i
  }

  function Signed(u: uint64): int64 {
    if u >= I64_LIMIT then u - U64_LIMIT else u
  }

  function U32ToLe(n: nat): (bs: bytes)
    requires n < U32_LIMIT
    ensures |bs| == 4
    ensures FromLe(bs) == n
  {
    assert Pow256(4) == U32_LIMIT;
    FromToLe(n, 4);
    ToLe(n, 4)
  }

  function U64ToLe(n: uint64): (bs: bytes)
    ensures |bs| == 8
    ensures U64FromLe(bs) == n
  {
    Pow256Of8();
    FromToLe(n, 8);
    ToLe(n, 8)
  }

  function U64FromLe(bs: bytes): uint64
    requires |bs| == 8
  {
    Pow256Of8();
    ToFromLe(bs);
    FromLe(bs)
  }

  function I64ToLe(i: int64): (bs: bytes)
    ensures |bs| == 8
    ensures I64FromLe(bs) == i
  {
    U64ToLe(Unsigned(i))
  }

  function I64FromLe(bs: bytes): int64
    requires |bs| == 8
  {
    Signed(U64FromLe(bs))
  }

  lemma Pow256Of8()
    ensures Pow256(8) == U64_LIMIT
  {
    assert Pow256(4) == U32_LIMIT;
    assert Pow256(8) == 256 * (256 * (256 * (256 * Pow256(4))));
  }

  /** Every four-byte pattern is the encoding of exactly the number it decodes to. */
  lemma U32Canonical(bs: bytes)
    requires |bs| == 4
    ensures FromLe(bs) < U32_LIMIT
    ensures U32ToLe(FromLe(bs)) == bs
  {
    assert Pow256(4) == U32_LIMIT;
    ToFromLe(bs);
  }

  /** Every eight-byte pattern is the encoding of exactly the number it decodes to. */
  lemma I64Canonical(bs: bytes)
    requires |bs| == 8
    ensures U64ToLe(U64FromLe(bs)) == bs
    ensures I64ToLe(I64FromLe(bs)) == bs
  {
    Pow256Of8();
    ToFromLe(bs);
  }

  // -------------------------------------------------------------- byte by byte

  /** The four bytes of a number, lowest first. */
  function Le4(n: nat): bytes
    requires n < 0x1_0000_0000
  {
    [n % 0x100, n / 0x100 % 0x100, n / 0x1_0000 % 0x100, n / 0x100_0000]
  }

  /** The eight bytes of a number, lowest first. */
  function Le8(n: nat): bytes
    requires n < 0x1_0000_0000_0000_0000
  {
    Le4(n % 0x1_0000_0000) + Le4(n / 0x1_0000_0000)
  }

  /** The number four bytes stand for. */
  function Number4(bs: bytes): nat
    requires |bs| >= 4
  {
    var a: int, b: int, c: int, d: int := bs[0], bs[1], bs[2], bs[3];
    a + 0x100 * b + 0x1_0000 * c + 0x100_0000 * d
  }

  lemma Le4Of(bs: bytes)
    requires |bs| == 4
    ensures Number4(bs) < 0x1_0000_0000 && Le4(Number4(bs)) == bs
  {
    var a: int, b: int, c: int, d: int := bs[0], bs[1], bs[2], bs[3];
    assert Number4(bs) / 0x100 == b + 0x100 * c + 0x1_0000 * d;
    assert Number4(bs) / 0x1_0000 == c + 0x100 * d;
  }

  /** Four bytes and what they are the lowest bytes of. */
  lemma FromLe4(bs: bytes)
    requires |bs| >= 4
    ensures FromLe(bs) == Number4(bs) + 0x1_0000_0000 * FromLe(bs[4..])
  {
    assert bs[1..][1..] == bs[2..] && bs[2..][1..] == bs[3..] && bs[3..][1..] == bs[4..];
    assert FromLe(bs[1..]) == bs[1] + 256 * FromLe(bs[2..]);
    assert FromLe(bs[2..]) == bs[2] + 256 * FromLe(bs[3..]);
    assert FromLe(bs[3..]) == bs[3] + 256 * FromLe(bs[4..]);
  }

  lemma U32Bytes(n: nat)
    requires n < U32_LIMIT
    ensures U32ToLe(n) == Le4(n)
  {
    var bs := U32ToLe(n);
    FromLe4(bs);
    Le4Of(bs);
  }

  lemma U64Bytes(n: uint64)
    ensures U64ToLe(n) == Le8(n)
  {
    var bs := U64ToLe(n);
    FromLe4(bs);
    FromLe4(bs[4..]);
    assert bs[4..][4..] == [];
    Le4Of(bs[..4]);
    Le4Of(bs[4..]);
    assert n / 0x1_0000_0000 == Number4(bs[4..]) && n % 0x1_0000_0000 == Number4(bs[..4]);
    assert bs == bs[..4] + bs[4..];
  }
}
