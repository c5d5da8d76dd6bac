/** Decimal numerals as ASCII bytes: `to_string` and `parse` for unsigned integers. */
module Decimal {
  import opened Base
  import opened Utf8

  predicate IsDigit(b: byte) {
    0x30 <= b <= 0x39
  }

  predicate AllDigits(s: bytes) {
    forall i | 0 <= i < |s| :: IsDigit(s[i])
  }

  function Digits(n: nat): (s: Text)
    ensures AllDigits(s) && |s| > 0
    ensures |s| > 1 ==> s[0] != 0x30
    ensures n > 0 ==> s[0] != 0x30
  {
    if n < 10 then
      AsciiValid([0x30 + n]);
      [0x30 + n]
    else
      AsciiValid(Digits(n / 10) + [0x30 + n % 10]);
      Digits(n / 10) + [0x30 + n % 10]
  }

  function Numeral(s: bytes): nat
    requires AllDigits(s)
  {
    if s == [] then 0 else 10 * Numeral(s[..|s| - 1]) + (s[|s| - 1] - 0x30)
  }

  lemma {:induction false} NumeralOfDigits(n: nat)
    ensures Numeral(Digits(n)) == n
  {
    var s := Digits(n);
    if n < 10 {
      assert s[..0] == [];
    } else {
      NumeralOfDigits(n / 10);
      assert s[..|s| - 1] == Digits(n / 10);
    }
  }

  /** A numeral without superfluous zeros is the one `to_string` writes. */
  lemma {:induction false} DigitsOfNumeral(s: bytes)
    requires AllDigits(s) && s != [] && (|s| > 1 ==> s[0] != 0x30)
    ensures Digits(Numeral(s)) == s
  {
    var front := s[..|s| - 1];
    assert s == front + [s[|s| - 1]];
    if front == [] {
      assert Numeral(front) == 0;
    } else {
      DigitsOfNumeral(front);
      assert front[0] != 0x30;
      NumeralPositive(front);
    }
  }

  lemma {:induction false} NumeralPositive(s: bytes)
    requires AllDigits(s) && s != [] && s[0] != 0x30
    ensures Numeral(s) > 0
  {
    if |s| > 1 {
      NumeralPositive(s[..|s| - 1]);
    }
  }

  /** `str::parse::<u64>`: an optional plus sign, then digits, below 2^64. */
  function ParseU64(s: bytes): Option<nat> {
    var digits := if |s| > 1 && s[0] == 0x2B then s[1..] else s;
    if digits == [] || !AllDigits(digits) || Numeral(digits) >= U64_LIMIT then None
    else Some(Numeral(digits))
  }

  lemma ParseDigits(n: nat)
    ensures ParseU64(Digits(n)) == if n < U64_LIMIT then Some(n) else None
  {
    NumeralOfDigits(n);
  }

  /** The numeral zero, `n` times. */
  function Zeros(n: nat): bytes {
    if n == 0 then [] else [0x30] + Zeros(n - 1)
  }

  /** What is read as `n`: its numeral with any number of zeros before it, and possibly a plus
      sign before those. */
  predicate Denotes(s: bytes, n: nat, plus: bool, zeros: nat) {
    s == Sign(plus) + (Zeros(zeros) + Digits(n))
  }

  function Sign(plus: bool): bytes {
    if plus then Ascii("+") else []
  }

  lemma {:induction false} NumeralConcatZero(zeros: nat, s: bytes)
    requires AllDigits(s)
    ensures AllDigits(Zeros(zeros) + s) && Numeral(Zeros(zeros) + s) == Numeral(s)
    decreases zeros
  {
    if zeros == 0 {
      assert [] + s == s;
    } else {
      NumeralConcatZero(zeros - 1, s);
      assert Zeros(zeros) + s == [0x30] + (Zeros(zeros - 1) + s);
      LeadingZero(Zeros(zeros - 1) + s);
    }
  }

  lemma {:induction false} LeadingZero(s: bytes)
    requires AllDigits(s)
    ensures Numeral([0x30] + s) == Numeral(s)
  {
    if s == [] {
      assert [0x30] + s == [0x30] && [0x30][..0] == [];
      assert Numeral([0x30][..0]) == 0;
    } else {
      LeadingZero(s[..|s| - 1]);
      assert ([0x30] + s)[..|s|] == [0x30] + s[..|s| - 1];
    }
  }

  /** Every nonempty string of digits is a numeral behind some zeros. */
  lemma {:induction false} ZerosThenNumeral(s: bytes) returns (zeros: nat)
    requires AllDigits(s) && s != []
    ensures s == Zeros(zeros) + Digits(Numeral(s))
  {
    if |s| == 1 || s[0] != 0x30 {
      DigitsOfNumeral(s);
      zeros := 0;
      assert Zeros(0) + s == s;
    } else {
      var rest := s[1..];
      assert s == [0x30] + rest;
      var fewer := ZerosThenNumeral(rest);
      LeadingZero(rest);
      OneMoreZero(fewer, rest, Digits(Numeral(rest)));
      zeros := fewer + 1;
    }
  }

  lemma OneMoreZero(zeros: nat, s: bytes, numeral: bytes)
    requires s == Zeros(zeros) + numeral
    ensures [0x30] + s == Zeros(zeros + 1) + numeral
  {
  }

  lemma ParseSigned(plus: bool, digits: bytes)
    requires AllDigits(digits) && digits != []
    ensures ParseU64(Sign(plus) + digits) == if Numeral(digits) < U64_LIMIT then Some(Numeral(digits)) else None
  {
    if plus {
      assert (Sign(plus) + digits)[1..] == digits;
    } else {
      assert Sign(plus) + digits == digits;
    }
  }

  lemma Parsed(s: bytes, n: nat) returns (plus: bool, zeros: nat)
    requires ParseU64(s) == Some(n)
    ensures Denotes(s, n, plus, zeros) && n < U64_LIMIT
  {
    plus := |s| > 1 && s[0] == 0x2B;
    var digits := if plus then s[1..] else s;
    assert AllDigits(digits) && digits != [] && Numeral(digits) == n;
    zeros := ZerosThenNumeral(digits);
    SignIs(plus);
    assert s == (if plus then [0x2B] else []) + digits;
  }

  lemma SignIs(plus: bool)
    ensures Sign(plus) == if plus then [0x2B] else []
  {
  }

  /** Parsing accepts exactly the numerals of numbers below 2^64, superfluous zeros and a plus
      sign allowed. */
  lemma ParseIff(s: bytes, n: nat)
    ensures ParseU64(s) == Some(n) <==> n < 0x1_0000_0000_0000_0000 && exists plus, zeros :: Denotes(s, n, plus, zeros)
  {
    if ParseU64(s) == Some(n) {
      var plus, zeros := Parsed(s, n);
    }
    forall plus, zeros | n < U64_LIMIT && Denotes(s, n, plus, zeros) ensures ParseU64(s) == Some(n) {
      NumeralConcatZero(zeros, Digits(n));
      NumeralOfDigits(n);
      ParseSigned(plus, Zeros(zeros) + Digits(n));
    }
  }
}
