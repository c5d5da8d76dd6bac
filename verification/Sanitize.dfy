/** Key sanitizing: unwanted characters are replaced, long keys are cut and given a fragment
    of a hash. Strings are sequences of Unicode scalar values. */
module Sanitize {
  import opened Base
  import opened Scalars

  type Str = seq<Scalar>

  const MINIMUM_MAX_LENGTH: int := 16

  // -------------------------------------------------------------------- slicing

  /** Python's `s[:n]`, where a negative bound counts from the end. */
  function Slice(s: Str, n: int): Str {
    if n >= |s| then s else if n >= 0 then s[..n] else if |s| + n <= 0 then [] else s[..|s| + n]
  }

  /** The slice is a beginning; a bound that is not negative is its length, unless the string is
      shorter, a negative one is what it leaves off at the end. */
  lemma SliceIs(s: Str, n: int)
    ensures Slice(s, n) <= s
    ensures |Slice(s, n)| == if n >= 0 then (if |s| < n then |s| else n) else if |s| + n < 0 then 0 else |s| + n
  {
  }

  /** Bytes a character takes in UTF-8. */
  function Width(c: Scalar): int {
    if c < 0x80 then 1 else if c < 0x800 then 2 else if c < 0x1_0000 then 3 else 4
  }

  function EncodedLength(s: Str): (n: nat)
    ensures |s| <= n <= 4 * |s|
  {
    if s == [] then 0 else Width(s[0]) + EncodedLength(s[1..])
  }

  /** The length is that of the string's UTF-8 encoding. */
  lemma {:induction false} EncodedLengthIs(s: Str)
    ensures EncodedLength(s) == |EncodeScalars(s)|
  {
    if s != [] {
      EncodedLengthIs(s[1..]);
    }
  }

  lemma {:induction false} EncodedConcat(a: Str, b: Str)
    ensures EncodedLength(a + b) == EncodedLength(a) + EncodedLength(b)
  {
    if a == [] {
      assert a + b == b;
    } else {
      assert (a + b)[1..] == a[1..] + b;
      EncodedConcat(a[1..], b);
    }
  }

  /** Longer prefixes take strictly more bytes. */
  lemma PrefixGrows(s: Str, i: nat, j: nat)
    requires i < j <= |s|
    ensures EncodedLength(s[..i]) < EncodedLength(s[..j])
  {
    EncodedConcat(s[..i], s[i..j]);
    assert s[..j] == s[..i] + s[i..j];
  }

  /** `r` is the longest prefix that fits; when not even the empty one does, it is empty. */
  predicate LongestFitting(s: Str, max: int, r: Str) {
    && r <= s
    && (max >= 0 ==> EncodedLength(r) <= max)
    && (max < 0 ==> r == [])
    && (|r| < |s| ==> EncodedLength(s[..|r| + 1]) > max)
  }

  lemma LongestFittingUnique(s: Str, max: int, r: Str, q: Str)
    requires LongestFitting(s, max, r) && LongestFitting(s, max, q)
    ensures r == q
  {
    if |r| < |q| {
      assert q == s[..|q|];
      if |r| + 1 < |q| {
        PrefixGrows(s, |r| + 1, |q|);
      }
    } else if |q| < |r| {
      assert r == s[..|r|];
      if |q| + 1 < |r| {
        PrefixGrows(s, |q| + 1, |r|);
      }
    } else {
      assert r == s[..|r|] && q == s[..|r|];
    }
  }

  /** Binary search for the longest prefix that fits in `max` bytes. */
  method TruncateToBytes(value: Str, max: int) returns (result: Str)
    ensures LongestFitting(value, max, result)
  {
    if EncodedLength(value) <= max {
      assert value[..|value|] == value;
      return value;
    }
    assert value[..|value|] == value;
    var left, right := 0, |value|;
    result := [];
    while left <= right
      invariant 0 <= left <= right + 1 <= |value| + 1
      invariant right < |value| ==> EncodedLength(value[..right + 1]) > max
      invariant if left == 0 then result == [] else result == value[..left - 1] && EncodedLength(result) <= max
      decreases right - left
    {
      var mid := (left + right) / 2;
      var candidate := value[..mid];
      if EncodedLength(candidate) <= max {
        result := candidate;
        left := mid + 1;
      } else {
        right := mid - 1;
      }
    }
  }

  /** The same result as a function. */
  function Truncated(s: Str, max: int): (r: Str)
    ensures LongestFitting(s, max, r)
  {
    if s == [] || Width(s[0]) > max then [] else
      var rest := Truncated(s[1..], max - Width(s[0]));
      TruncatedStep(s, max, rest);
      [s[0]] + rest
  }

  lemma TruncatedStep(s: Str, max: int, rest: Str)
    requires s != [] && Width(s[0]) <= max && LongestFitting(s[1..], max - Width(s[0]), rest)
    ensures LongestFitting(s, max, [s[0]] + rest)
  {
    var r := [s[0]] + rest;
    assert r[1..] == rest;
    assert s == [s[0]] + s[1..];
    if |r| < |s| {
      assert s[..|r| + 1][1..] == s[1..][..|rest| + 1];
    }
  }

  // ------------------------------------------------------------------- characters

  /** What the loop over the characters builds: every run of unwanted characters becomes one
      replacement. */
  function Replaced(value: Str, allowed: Str, replacement: Str, inRun: bool): Str {
    if value == [] then []
    else if value[0] in allowed then [value[0]] + Replaced(value[1..], allowed, replacement, false)
    else if inRun then Replaced(value[1..], allowed, replacement, true)
    else replacement + Replaced(value[1..], allowed, replacement, true)
  }

  predicate EndsUnwanted(value: Str, allowed: Str, inRun: bool) {
    if value == [] then inRun else value[|value| - 1] !in allowed
  }

  function SanitizeCharacters(value: Str, allowed: Str, replacement: Str): Str {
    var r := Replaced(value, allowed, replacement, false);
    if |r| == 1 && EndsUnwanted(value, allowed, false) then [] else r
  }

  method SanitizeCharactersInString(value: Str, allowed: Str, replacement: Str) returns (newValue: Str)
    ensures newValue == SanitizeCharacters(value, allowed, replacement)
  {
    newValue := [];
    var lastCharWasReplaced := false;
    assert value[0..] == value;
    for i := 0 to |value|
      invariant lastCharWasReplaced == EndsUnwanted(value[..i], allowed, false)
      invariant Replaced(value, allowed, replacement, false)
                == newValue + Replaced(value[i..], allowed, replacement, lastCharWasReplaced)
    {
      assert value[i..][1..] == value[i + 1..] && value[i..][0] == value[i];
      ghost var tail := Replaced(value[i + 1..], allowed, replacement, value[i] !in allowed);
      if value[i] in allowed {
        assert newValue + ([value[i]] + tail) == newValue + [value[i]] + tail;
        newValue := newValue + [value[i]];
        lastCharWasReplaced := false;
      } else {
        if lastCharWasReplaced {
          continue;
        }
        assert newValue + (replacement + tail) == newValue + replacement + tail;
        newValue := newValue + replacement;
        lastCharWasReplaced := true;
      }
    }
    assert value[..|value|] == value;
    assert newValue + [] == newValue;
    if |newValue| == 1 && lastCharWasReplaced {
      return [];
    }
  }

  predicate AllIn(s: Str, allowed: Str) {
    forall i | 0 <= i < |s| :: s[i] in allowed
  }

  predicate NoneIn(s: Str, allowed: Str) {
    forall i | 0 <= i < |s| :: s[i] !in allowed
  }

  lemma {:induction false} ReplacedIsClean(value: Str, allowed: Str, replacement: Str, inRun: bool)
    ensures AllIn(Replaced(value, allowed, replacement, inRun), allowed + replacement)
    ensures AllIn(value, allowed) ==> Replaced(value, allowed, replacement, inRun) == value
    ensures NoneIn(value, allowed) ==>
              Replaced(value, allowed, replacement, inRun) == if value == [] || inRun then [] else replacement
  {
    if value != [] {
      assert value == [value[0]] + value[1..];
      ReplacedIsClean(value[1..], allowed, replacement, value[0] !in allowed);
    }
  }

  /** The result has only allowed and replacement characters; a clean string is left alone; a
      string without any allowed character becomes empty exactly when the replacement is at
      most one character, otherwise it becomes the replacement. */
  lemma SanitizedIsClean(value: Str, allowed: Str, replacement: Str)
    ensures AllIn(SanitizeCharacters(value, allowed, replacement), allowed + replacement)
    ensures AllIn(value, allowed) ==> SanitizeCharacters(value, allowed, replacement) == value
    ensures NoneIn(value, allowed) && value != [] ==>
              SanitizeCharacters(value, allowed, replacement) == if |replacement| <= 1 then [] else replacement
  {
    ReplacedIsClean(value, allowed, replacement, false);
  }

  /** With an allowed replacement, sanitizing twice is sanitizing once. */
  lemma SanitizingTwice(value: Str, allowed: Str, replacement: Str)
    requires AllIn(replacement, allowed)
    ensures var once := SanitizeCharacters(value, allowed, replacement);
            SanitizeCharacters(once, allowed, replacement) == once
  {
    var once := SanitizeCharacters(value, allowed, replacement);
    SanitizedIsClean(value, allowed, replacement);
    forall i | 0 <= i < |once| ensures once[i] in allowed {
      assert once[i] in allowed + replacement;
    }
    SanitizedIsClean(once, allowed, replacement);
  }

  // ---------------------------------------------------------------- whole strings

  datatype HashFragmentMode = Always | Never | OnlyIfChanged

  /** `digest` stands for the 64 hexadecimal digits of the value's hash. */
  datatype Options = Options(maxLength: int, allowed: Str, replacement: Str, separator: Str, mode: HashFragmentMode,
                             hashLength: int, bytes: bool)

  predicate IsDigest(digest: Str) {
    |digest| == 64 && forall i | 0 <= i < 64 :: digest[i] < 0x80
  }

  function Length(o: Options, s: Str): nat {
    if o.bytes then EncodedLength(s) else |s|
  }

  function Cut(o: Options, s: Str, max: int): Str {
    if o.bytes then Truncated(s, max) else Slice(s, max)
  }

  function Cleaned(o: Options, value: Str): Str {
    if o.allowed == [] then value else SanitizeCharacters(value, o.allowed, o.replacement)
  }

  function Required(o: Options, digest: Str): nat {
    Length(o, o.separator) + Length(o, Slice(digest, o.hashLength))
  }

  /** The cut string with separator and fragment, or the fragment alone. */
  function WithFragment(o: Options, s: Str, digest: Str): Str {
    var cut := Cut(o, s, o.maxLength - Required(o, digest));
    var fragment := Slice(digest, o.hashLength);
    if cut == [] then fragment else cut + o.separator + fragment
  }

  function SanitizeString(o: Options, value: Str, digest: Str): Result<Str> {
    if o.maxLength < MINIMUM_MAX_LENGTH || o.hashLength > o.maxLength / 2 then Err(InvalidOperation) else
      var clean := Cleaned(o, value);
      match o.mode
      case Always => Ok(WithFragment(o, clean, digest))
      case OnlyIfChanged =>
        var cut := Cut(o, clean, o.maxLength);
        if value == cut then Ok(value) else Ok(WithFragment(o, cut, digest))
      case Never => if clean == [] then Err(InvalidOperation) else Ok(Cut(o, clean, o.maxLength))
  }

  /** A beginning of the string that could not be longer: all of it, or one more character
      would need more than `max`. */
  predicate AsMuchAsFits(bytes: bool, s: Str, n: nat, max: int)
    requires n <= |s|
  {
    n == |s| || (if bytes then EncodedLength(s[..n + 1]) else n + 1) > max
  }

  /** As much of the string as there is room for, then separator and fragment; the fragment alone
      when there is no room for a single character. */
  ghost predicate EndsInFragment(o: Options, s: Str, digest: Str, r: Str) {
    var fragment := Slice(digest, o.hashLength);
    var extra := if o.bytes then EncodedLength(o.separator) + EncodedLength(fragment) else |o.separator| + |fragment|;
    exists n | 0 <= n <= |s| ::
      AsMuchAsFits(o.bytes, s, n, o.maxLength - extra) && r == if n == 0 then fragment else s[..n] + o.separator + fragment
  }

  /** The longest beginning of a string within a limit. */
  predicate IsCut(bytes: bool, s: Str, r: Str, max: int) {
    && r <= s && (if bytes then EncodedLength(r) else |r|) <= max
    && AsMuchAsFits(bytes, s, |r|, max)
  }

  /** A value that cleaning and cutting leave alone is kept, another one is given its fragment. */
  ghost predicate KeptOrMarked(o: Options, value: Str, part: Str, digest: Str, r: Str) {
    if value == part then r == value else EndsInFragment(o, part, digest, r)
  }

  /** What a sanitized string looks like. Never: the longest beginning of the cleaned string that
      fits. Always: as much of it as there is room for, with the fragment at the end. Only if
      changed: the string itself when cleaning and cutting change nothing, and otherwise as
      always. */
  lemma SanitizedShape(o: Options, value: Str, digest: Str)
    requires SanitizeString(o, value, digest).Ok?
    ensures var clean := if o.allowed == [] then value else SanitizeCharacters(value, o.allowed, o.replacement);
            var r := SanitizeString(o, value, digest).value;
            match o.mode
            case Never => IsCut(o.bytes, clean, r, o.maxLength)
            case Always => EndsInFragment(o, clean, digest, r)
            case OnlyIfChanged =>
              exists part :: IsCut(o.bytes, clean, part, o.maxLength) && KeptOrMarked(o, value, part, digest, r)
  {
    var clean := Cleaned(o, value);
    CutIsLongest(o, clean, o.maxLength);
    FragmentShape(o, clean, digest);
    FragmentShape(o, Cut(o, clean, o.maxLength), digest);
    var part := Cut(o, clean, o.maxLength);
    assert IsCut(o.bytes, clean, part, o.maxLength);
    if o.mode.OnlyIfChanged? {
      assert KeptOrMarked(o, value, part, digest, SanitizeString(o, value, digest).value);
    }
  }

  /** A string is refused for settings out of range, and without a fragment when nothing is
      left of it. */
  lemma SanitizedOkIff(o: Options, value: Str, digest: Str)
    ensures SanitizeString(o, value, digest).Ok? <==>
            && o.maxLength >= 16 && 2 * o.hashLength <= o.maxLength
            && (o.mode.Never? && o.allowed == [] ==> value != [])
            && (o.mode.Never? && o.allowed != [] ==> SanitizeCharacters(value, o.allowed, o.replacement) != [])
    ensures SanitizeString(o, value, digest).Err? ==> SanitizeString(o, value, digest) == Err(InvalidOperation)
  {
  }

  lemma FragmentShape(o: Options, s: Str, digest: Str)
    ensures EndsInFragment(o, s, digest, WithFragment(o, s, digest))
  {
    var max := o.maxLength - Required(o, digest);
    var cut := Cut(o, s, max);
    CutIsLongest(o, s, max);
    assert cut == s[..|cut|];
    assert AsMuchAsFits(o.bytes, s, |cut|, max);
  }

  lemma CutIsLongest(o: Options, s: Str, max: int)
    ensures Cut(o, s, max) <= s && AsMuchAsFits(o.bytes, s, |Cut(o, s, max)|, max)
    ensures max >= 0 ==> IsCut(o.bytes, s, Cut(o, s, max), max)
  {
  }

  lemma {:induction false} AsciiLength(s: Str)
    requires forall i | 0 <= i < |s| :: s[i] < 0x80
    ensures EncodedLength(s) == |s|
  {
    if s != [] {
      AsciiLength(s[1..]);
    }
  }

  /** The hash fragment's length, counted from the end of the 64 digits for a negative one. */
  function FragmentLength(hashLength: int): nat {
    if hashLength >= 64 then 64 else if hashLength >= 0 then hashLength else if hashLength <= -64 then 0 else 64 + hashLength
  }

  lemma FragmentIs(o: Options, digest: Str)
    requires IsDigest(digest)
    ensures Length(o, Slice(digest, o.hashLength)) == FragmentLength(o.hashLength)
  {
    AsciiLength(Slice(digest, o.hashLength));
  }

  lemma CutFits(o: Options, s: Str, max: int)
    requires max >= 0
    ensures Length(o, Cut(o, s, max)) <= max
  {
  }

  /** Cutting to `max` leaves nothing. In characters a negative bound cuts from the end and
      empties only strings that are no longer than the excess. */
  predicate CutIsEmpty(o: Options, s: Str, max: int) {
    if o.bytes then s == [] || Width(s[0]) > max else s == [] || max == 0 || |s| <= -max
  }

  lemma CutIsEmptyIff(o: Options, s: Str, max: int)
    ensures Cut(o, s, max) == [] <==> CutIsEmpty(o, s, max)
  {
  }

  /** The string with its fragment fits in two cases: nothing is left of the string and the
      fragment alone fits; or something is left, and either bytes are counted or separator and
      fragment need no more than the limit. */
  predicate FragmentFits(o: Options, s: Str, digest: Str) {
    if CutIsEmpty(o, s, o.maxLength - Required(o, digest)) then FragmentLength(o.hashLength) <= o.maxLength
    else o.bytes || Required(o, digest) <= o.maxLength
  }

  lemma WithFragmentFitsIff(o: Options, s: Str, digest: Str)
    requires IsDigest(digest)
    ensures Length(o, WithFragment(o, s, digest)) <= o.maxLength <==> FragmentFits(o, s, digest)
  {
    FragmentIs(o, digest);
    var max := o.maxLength - Required(o, digest);
    var cut := Cut(o, s, max);
    var fragment := Slice(digest, o.hashLength);
    CutIsEmptyIff(o, s, max);
    if o.bytes {
      EncodedConcat(cut, o.separator);
      EncodedConcat(cut + o.separator, fragment);
    }
    if max >= 0 {
      CutFits(o, s, max);
    }
  }

  /** Every accepted string is within its limit, exactly when it gets no fragment or fits with
      it. */
  lemma SanitizedFitsIff(o: Options, value: Str, digest: Str)
    requires IsDigest(digest) && SanitizeString(o, value, digest).Ok?
    ensures (var r := SanitizeString(o, value, digest).value; (if o.bytes then EncodedLength(r) else |r|) <= o.maxLength) <==>
            var clean := Cleaned(o, value);
            match o.mode
            case Never => true
            case Always => FragmentFits(o, clean, digest)
            case OnlyIfChanged => value == Cut(o, clean, o.maxLength) || FragmentFits(o, Cut(o, clean, o.maxLength), digest)
  {
    var clean := Cleaned(o, value);
    CutFits(o, clean, o.maxLength);
    WithFragmentFitsIff(o, clean, digest);
    WithFragmentFitsIff(o, Cut(o, clean, o.maxLength), digest);
  }

  /** With the default separator and up to 15 digits, of which 8 are the default, nothing can be
      too long. */
  lemma DefaultsAlwaysFit(o: Options, value: Str, digest: Str)
    requires IsDigest(digest) && SanitizeString(o, value, digest).Ok?
    requires o.separator == [0x2D] && 0 <= o.hashLength <= 15
    ensures var r := SanitizeString(o, value, digest).value; (if o.bytes then EncodedLength(r) else |r|) <= o.maxLength
  {
    FragmentIs(o, digest);
    SanitizedFitsIff(o, value, digest);
    assert EncodedLength([0x2D]) == 1 by {
      assert [0x2D][1..] == [];
    }
  }

  /** Two families of strings that come out too long. With a separator of 20 characters a key
      of 32 comes out with 48 although the limit is 16. */
  lemma SanitizedCanBeTooLong(digest: Str, c: Scalar)
    requires IsDigest(digest)
    ensures var o := Options(16, [], [], seq(20, _ => 0x2D), Always, 8, false);
            var r := SanitizeString(o, seq(32, _ => c), digest);
            r.Ok? && |r.value| == 48
  {
  }

  /** And a negative fragment length, which is accepted, makes even the empty key come out with
      63, whichever way lengths are counted. */
  lemma NegativeFragmentIsTooLong(digest: Str, bytes: bool)
    requires IsDigest(digest)
    ensures var r := SanitizeString(Options(16, [], [], [0x2D], Always, -1, bytes), [], digest);
            r.Ok? && |r.value| == 63
  {
    var o := Options(16, [], [], [0x2D], Always, -1, bytes);
    FragmentIs(o, digest);
    CutIsEmptyIff(o, [], o.maxLength - Required(o, digest));
  }

  // ----------------------------------------------------------------- excess length

  function HashExcessLength(value: Str, maxLength: int, bytes: bool, digest: Str): Result<Str> {
    var current := if bytes then EncodedLength(value) else |value|;
    if maxLength < MINIMUM_MAX_LENGTH then Err(InvalidOperation)
    else if current <= maxLength then Ok(value)
    else
      var cut := if bytes then Truncated(value, maxLength - 8) else Slice(value, maxLength - 8);
      Ok(cut + Slice(digest, 8))
  }

  /** The result always fits; a value that fits is left alone; in characters a longer one comes
      out at exactly the limit, in bytes at most three short of it. */
  lemma HashedFits(value: Str, maxLength: int, bytes: bool, digest: Str)
    requires IsDigest(digest) && maxLength >= MINIMUM_MAX_LENGTH
    ensures var r := HashExcessLength(value, maxLength, bytes, digest);
            && r.Ok?
            && (bytes ==> EncodedLength(r.value) <= maxLength)
            && (!bytes ==> |r.value| <= maxLength)
            && (if bytes then EncodedLength(value) > maxLength ==> EncodedLength(r.value) >= maxLength - 3
                else |value| > maxLength ==> |r.value| == maxLength)
  {
    AsciiLength(Slice(digest, 8));
    if bytes && EncodedLength(value) > maxLength {
      var cut := Truncated(value, maxLength - 8);
      EncodedConcat(cut, Slice(digest, 8));
      assert cut == value[..|cut|] && value[..|value|] == value;
      EncodedConcat(value[..|cut|], [value[|cut|]]);
      assert value[..|cut| + 1] == value[..|cut|] + [value[|cut|]];
      assert [value[|cut|]][1..] == [];
    }
  }

  /** A value that is too long keeps as much of its beginning as leaves room for eight digits of
      its hash, which follow it. */
  lemma HashedShape(value: Str, maxLength: int, bytes: bool, digest: Str)
    requires IsDigest(digest)
    ensures if maxLength < 16 then HashExcessLength(value, maxLength, bytes, digest) == Err(InvalidOperation)
            else HashExcessLength(value, maxLength, bytes, digest).Ok?
    ensures maxLength >= 16 ==>
              var r := HashExcessLength(value, maxLength, bytes, digest).value;
              if (if bytes then EncodedLength(value) else |value|) <= maxLength then r == value
              else exists part :: IsCut(bytes, value, part, maxLength - 8) && r == part + digest[..8]
  {
    if maxLength >= 16 {
      var o := Options(maxLength, [], [], [], Never, 0, bytes);
      CutIsLongest(o, value, maxLength - 8);
      assert IsCut(bytes, value, Cut(o, value, maxLength - 8), maxLength - 8);
    }
  }
}
