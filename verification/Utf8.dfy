/** UTF-8 byte sequences, recognised by the automaton of the grammar in section 4 of
    RFC 3629, and the character-boundary test behind `str::get`. */
module Utf8 {
  import opened Base

  /** What the rest of the current character may be: nothing (a character boundary), one to
      three tail bytes, or a first continuation byte from a restricted range. */
  datatype State = Boundary | Tail1 | Tail2 | Tail3 | AfterE0 | AfterED | AfterF0 | AfterF4 | Reject

  predicate IsTail(b: byte) {
    0x80 <= b <= 0xBF
  }

  function Lead(b: byte): State {
    if b <= 0x7F then Boundary
    else if 0xC2 <= b <= 0xDF then Tail1
    else if b == 0xE0 then AfterE0
    else if b == 0xED then AfterED
    else if 0xE1 <= b <= 0xEF then Tail2
    else if b == 0xF0 then AfterF0
    else if 0xF1 <= b <= 0xF3 then Tail3
    else if b == 0xF4 then AfterF4
    else Reject
  }

  function Step(q: State, b: byte): State {
    match q
    case Boundary => Lead(b)
    case Tail1 => if IsTail(b) then Boundary else Reject
    case Tail2 => if IsTail(b) then Tail1 else Reject
    case Tail3 => if IsTail(b) then Tail2 else Reject
    case AfterE0 => if 0xA0 <= b <= 0xBF then Tail1 else Reject
    case AfterED => if 0x80 <= b <= 0x9F then Tail1 else Reject
    case AfterF0 => if 0x90 <= b <= 0xBF then Tail2 else Reject
    case AfterF4 => if 0x80 <= b <= 0x8F then Tail2 else Reject
    case Reject => Reject
  }

  function Run(q: State, s: bytes): State
    decreases |s|
  {
    if s == [] then q else Run(Step(q, s[0]), s[1..])
  }

  predicate Valid(s: bytes) {
    Run(Boundary, s) == Boundary
  }

  /** A Rust `String`: bytes that are valid UTF-8. */
  type Text = s: bytes | Valid(s) witness []

  /** `str::is_char_boundary`. */
  predicate IsBoundary(s: bytes, n: nat) {
    n == 0 || n == |s| || (n < |s| && !IsTail(s[n]))
  }

  lemma {:induction false} RunConcat(q: State, a: bytes, b: bytes)
    ensures Run(q, a + b) == Run(Run(q, a), b)
    decreases |a|
  {
    if a == [] {
      assert a + b == b;
    } else {
      assert (a + b)[1..] == a[1..] + b;
      RunConcat(Step(q, a[0]), a[1..], b);
    }
  }

  lemma {:induction false} RunReject(s: bytes)
    ensures Run(Reject, s) == Reject
  {
    if s != [] {
      RunReject(s[1..]);
    }
  }

  /** After a valid prefix, validity is decided by the rest alone. */
  lemma ConcatValid(a: bytes, b: bytes)
    requires Valid(a)
    ensures Valid(a + b) == Valid(b)
  {
    RunConcat(Boundary, a, b);
  }

  /** Cutting a valid string at `n` gives two valid strings exactly when `n` is a boundary. */
  lemma SplitValid(s: bytes, n: nat)
    requires Valid(s) && n <= |s|
    ensures IsBoundary(s, n) <==> Valid(s[..n])
    ensures IsBoundary(s, n) ==> Valid(s[n..])
  {
    RunConcat(Boundary, s[..n], s[n..]);
    assert s == s[..n] + s[n..];
    if n < |s| {
      var q := Run(Boundary, s[..n]);
      RunReject(s[n..][1..]);
      assert Step(q, s[n]) != Reject;
    }
  }

  lemma {:induction false} AsciiValid(s: bytes)
    requires forall i | 0 <= i < |s| :: s[i] <= 0x7F
    ensures Valid(s)
  {
    if s != [] {
      AsciiValid(s[1..]);
    }
  }

  /** The bytes of a string literal. */
  function Ascii(s: string): (t: Text)
    requires forall i | 0 <= i < |s| :: s[i] <= '~'
  {
    var t := seq(|s|, i requires 0 <= i < |s| => s[i] as int);
    AsciiValid(t);
    t
  }
}
