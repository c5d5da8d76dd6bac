/** UTF-8 as the encoding of Unicode scalar values, section 3 of RFC 3629: the byte strings the
    automaton accepts are exactly those that encode a sequence of them. */
module Scalars {
  import opened Base
  import opened Utf8

  /** A code point that is not a surrogate. */
  type Scalar = c: int | 0 <= c < 0x11_0000 && !(0xD800 <= c < 0xE000)

  function EncodeScalar(c: Scalar): bytes {
    if c < 0x80 then [c]
    else if c < 0x800 then [0xC0 + c / 0x40, 0x80 + c % 0x40]
    else if c < 0x1_0000 then [0xE0 + c / 0x1000, 0x80 + c / 0x40 % 0x40, 0x80 + c % 0x40]
    else [0xF0 + c / 0x4_0000, 0x80 + c / 0x1000 % 0x40, 0x80 + c / 0x40 % 0x40, 0x80 + c % 0x40]
  }

  function EncodeScalars(cs: seq<Scalar>): bytes {
    if cs == [] then [] else EncodeScalar(cs[0]) + EncodeScalars(cs[1..])
  }

  lemma ScalarValid(c: Scalar)
    ensures Valid(EncodeScalar(c))
  {
    var s := EncodeScalar(c);
    RunFour(Boundary, s);
  }

  /** The automaton on a string of at most four bytes, step by step. */
  lemma RunFour(q: State, s: bytes)
    requires 1 <= |s| <= 4
    ensures Run(q, s) == var q1 := Step(q, s[0]); if |s| == 1 then q1 else
                         var q2 := Step(q1, s[1]); if |s| == 2 then q2 else
                         var q3 := Step(q2, s[2]); if |s| == 3 then q3 else Step(q3, s[3])
  {
    var t := s[1..];
    assert Run(q, s) == Run(Step(q, s[0]), t);
    if |s| > 1 {
      RunThree(Step(q, s[0]), t);
    }
  }

  lemma RunThree(q: State, s: bytes)
    requires 1 <= |s| <= 3
    ensures Run(q, s) == var q1 := Step(q, s[0]); if |s| == 1 then q1 else
                         var q2 := Step(q1, s[1]); if |s| == 2 then q2 else Step(q2, s[2])
  {
    var t := s[1..];
    assert Run(q, s) == Run(Step(q, s[0]), t);
    if |s| > 1 {
      var u := t[1..];
      assert Run(Step(q, s[0]), t) == Run(Step(Step(q, s[0]), s[1]), u);
      if |s| > 2 {
        assert u[1..] == [];
      }
    }
  }

  lemma {:induction false} EncodedIsValid(cs: seq<Scalar>)
    ensures Valid(EncodeScalars(cs))
  {
    if cs != [] {
      EncodedIsValid(cs[1..]);
      ScalarValid(cs[0]);
      ConcatValid(EncodeScalar(cs[0]), EncodeScalars(cs[1..]));
    }
  }

  /** How many bytes the character takes that starts with `b`. */
  function LeadLength(b: byte): nat {
    match Lead(b)
    case Boundary => 1
    case Tail1 => 2
    case Tail2 => 3
    case AfterE0 => 3
    case AfterED => 3
    case Reject => 0
    case _ => 4
  }

  /** A state that still needs tail bytes is not left before they come. */
  lemma FirstCharacter(s: bytes) returns (n: nat)
    requires Valid(s) && s != []
    ensures n == LeadLength(s[0]) && 1 <= n <= |s| && Run(Boundary, s[..n]) == Boundary
  {
    n := LeadLength(s[0]);
    assert Run(Boundary, s) == Run(Lead(s[0]), s[1..]);
    if n == 0 {
      RunReject(s[1..]);
    } else if n == 1 {
      RunFour(Boundary, s[..1]);
    } else {
      TailsFollow(Lead(s[0]), s[1..], n - 1);
      RunConcat(Boundary, [s[0]], s[1..n]);
      assert s[..n] == [s[0]] + s[1..n] && s[1..][..n - 1] == s[1..n];
      RunFour(Boundary, [s[0]]);
    }
  }

  /** The number of bytes a state waits for. */
  predicate Awaits(q: State, n: nat) {
    match q
    case Boundary => n == 0
    case Tail1 => n == 1
    case Tail2 => n == 2
    case AfterE0 => n == 2
    case AfterED => n == 2
    case Reject => false
    case _ => n == 3
  }

  lemma {:induction false} TailsFollow(q: State, s: bytes, n: nat)
    requires Awaits(q, n) && Run(q, s) == Boundary
    ensures n <= |s| && Run(q, s[..n]) == Boundary
    decreases n
  {
    if n > 0 {
      var r := Step(q, s[0]);
      RunReject(s[1..]);
      TailsFollow(r, s[1..], n - 1);
      assert s[..n][1..] == s[1..][..n - 1];
    }
  }

  lemma TwoBytes(x: int, y: int) returns (c: Scalar)
    requires 2 <= x < 32 && 0 <= y < 64
    ensures EncodeScalar(c) == [0xC0 + x, 0x80 + y]
  {
    c := 64 * x + y;
  }

  lemma ThreeBytes(x: int, y: int, z: int) returns (c: Scalar)
    requires 0 <= x < 16 && 0 <= y < 64 && 0 <= z < 64
    requires (x == 0 ==> y >= 32) && (x == 13 ==> y < 32)
    ensures EncodeScalar(c) == [0xE0 + x, 0x80 + y, 0x80 + z]
  {
    var high := 64 * x + y;
    assert high / 64 == x && high % 64 == y;
    c := 64 * high + z;
    assert c / 0x40 == high && c % 0x40 == z && c / 0x1000 == x;
  }

  lemma FourBytes(w: int, x: int, y: int, z: int) returns (c: Scalar)
    requires 0 <= w < 5 && 0 <= x < 64 && 0 <= y < 64 && 0 <= z < 64
    requires (w == 0 ==> x >= 16) && (w == 4 ==> x < 16)
    ensures EncodeScalar(c) == [0xF0 + w, 0x80 + x, 0x80 + y, 0x80 + z]
  {
    var top := 64 * w + x;
    var high := 64 * top + y;
    assert top / 64 == w && top % 64 == x && high / 64 == top && high % 64 == y;
    c := 64 * high + z;
    assert c / 0x40 == high && c % 0x40 == z && c / 0x1000 == top && c / 0x4_0000 == w;
  }

  /** One complete character is the encoding of a scalar value. */
  lemma CharacterIsScalar(s: bytes) returns (c: Scalar)
    requires 1 <= |s| <= 4 && |s| == LeadLength(s[0]) && Run(Boundary, s) == Boundary
    ensures s == EncodeScalar(c)
  {
    RunFour(Boundary, s);
    if |s| == 1 {
      c := s[0];
    } else if |s| == 2 {
      c := TwoBytes(s[0] - 0xC0, s[1] - 0x80);
    } else if |s| == 3 {
      c := ThreeBytes(s[0] - 0xE0, s[1] - 0x80, s[2] - 0x80);
    } else {
      c := FourBytes(s[0] - 0xF0, s[1] - 0x80, s[2] - 0x80, s[3] - 0x80);
    }
  }

  lemma {:induction false} ValidDecodes(s: bytes) returns (cs: seq<Scalar>)
    requires Valid(s)
    ensures s == EncodeScalars(cs)
    decreases |s|
  {
    cs := [];
    if s != [] {
      var n := FirstCharacter(s);
      var c := CharacterIsScalar(s[..n]);
      assert s == s[..n] + s[n..];
      RunConcat(Boundary, s[..n], s[n..]);
      var rest := ValidDecodes(s[n..]);
      cs := [c] + rest;
      assert cs[1..] == rest;
    }
  }

  /** A byte string is valid exactly when it encodes a sequence of scalar values. */
  lemma ValidIff(s: bytes)
    ensures Valid(s) <==> exists cs :: s == EncodeScalars(cs)
  {
    if Valid(s) {
      var cs := ValidDecodes(s);
    }
    forall cs | s == EncodeScalars(cs) ensures Valid(s) {
      EncodedIsValid(cs);
    }
  }
}
