/** Stored values with their kind, and the OKVE1 encoding of an entry with its timestamps. */
module Entries {
  import opened Base
  import opened LittleEndian
  import opened Utf8
  import StructuredCodec
  import opened StructuredCodecTheorems

  // ---------------------------------------------------------------------- values

  datatype ValueKind = Binary | Utf8Text | Integer | UnsignedInteger | Float | Bool | Null | Structured {
    function Tag(): byte {
      match this
      case Binary => 0
      case Utf8Text => 1
      case Integer => 2
      case Float => 3
      case Bool => 4
      case Null => 5
      case Structured => 6
      case UnsignedInteger => 7
    }
  }

  function FromTag(tag: byte): Option<ValueKind> {
    match tag
    case 0 => Some(Binary)
    case 1 => Some(Utf8Text)
    case 2 => Some(Integer)
    case 3 => Some(Float)
    case 4 => Some(Bool)
    case 5 => Some(Null)
    case 6 => Some(Structured)
    case 7 => Some(UnsignedInteger)
    case _ => None
  }

  /** Tags and kinds determine each other. */
  lemma KindTagBijection(kind: ValueKind, tag: byte)
    ensures FromTag(tag) == Some(kind) <==> tag == kind.Tag()
  {
  }

  datatype Value = Value(kind: ValueKind, data: bytes) {
    /** The payload is one the kind allows. The checked constructors see to it; the public
        unchecked ones do not. */
    predicate Readable() {
      ValidPayload(kind, data)
    }

    /** A length that fits the encoding's length field, as every length in memory does. */
    predicate Sized() {
      |data| < U64_LIMIT
    }
  }

  /** The payload is one the kind allows. */
  predicate ValidPayload(kind: ValueKind, data: bytes) {
    match kind
    case Binary => true
    case Utf8Text => Utf8.Valid(data)
    case Integer => |data| == 8
    case UnsignedInteger => |data| == 8
    case Float => |data| == 8
    case Bool => data == [0] || data == [1]
    case Null => data == []
    case Structured => StructuredCodec.Decode(data).Ok?
  }

  function NewValue(kind: ValueKind, data: bytes): Result<Value> {
    if ValidPayload(kind, data) then Ok(Value(kind, data)) else Err(InvalidValue)
  }

  /** A payload is allowed exactly when one of the typed constructors makes it. */
  lemma ReadableIff(v: Value)
    ensures v.Readable() <==>
            match v.kind
            case Binary => true
            case Utf8Text => Valid(v.data)
            case Integer => exists i: int64 :: v.data == I64ToLe(i)
            case UnsignedInteger => exists u: uint64 :: v.data == U64ToLe(u)
            case Float => |v.data| == 8
            case Bool => v.data in {[0], [1]}
            case Null => v.data == []
            case Structured => exists t :: StructuredCodec.Decode(v.data) == Ok(t)
  {
    match v.kind
    case Integer => if |v.data| == 8 { I64Canonical(v.data); }
    case UnsignedInteger => if |v.data| == 8 { I64Canonical(v.data); }
    case _ =>
  }

  // --------------------------------------------------------------------- entries

  /** Milliseconds since 1970 of the first and last instants chrono's `DateTime<Utc>` holds. */
  const MIN_MILLIS: int := -8_334_601_228_800_000
  const MAX_MILLIS: int := 8_210_266_876_799_999

  type DateTime = m: int64 | MIN_MILLIS <= m <= MAX_MILLIS

  datatype ManagedEntry = ManagedEntry(value: Value, createdAt: Option<DateTime>, expiresAt: Option<DateTime>) {
    predicate IsExpired(now: DateTime) {
      expiresAt.Some? && expiresAt.value <= now
    }

    /** Remaining milliseconds, or nothing when the entry does not expire. */
    function Ttl(now: DateTime): Option<nat> {
      match expiresAt
      case None => None
      case Some(at) => Some(if at <= now then 0 else at - now)
    }

    /** An entry whose encoding can be read back. */
    predicate Encodable() {
      value.Readable() && value.Sized()
    }
  }

  /** When an entry written now ends. */
  function Expiry(now: DateTime, ttl: Option<int>): Result<Option<DateTime>> {
    match ttl
    case None => Ok(None)
    case Some(t) => if t <= 0 || now + t > MAX_MILLIS then Err(InvalidTtl) else Ok(Some(now + t))
  }

  function NewEntry(now: DateTime, v: Value, ttl: Option<int>): Result<ManagedEntry> {
    var at :- Expiry(now, ttl);
    Ok(ManagedEntry(v, Some(now), at))
  }

  /** A TTL is refused exactly when it is not positive or goes beyond the last instant; an
      entry is over once its TTL has passed, and never without one. */
  lemma EntryLivesUntil(now: DateTime, v: Value, ttl: Option<int>, later: DateTime)
    requires now <= later
    ensures var r := NewEntry(now, v, ttl);
            && (r.Err? ==> r == Err(InvalidTtl))
            && (r.Ok? ==> r.value.value == v && r.value.createdAt == Some(now))
            && match ttl
               case None => r.Ok? && !r.value.IsExpired(later) && r.value.Ttl(later) == None
               case Some(t) =>
                 && (r.Ok? <==> 0 < t && now + t <= 8_210_266_876_799_999)
                 && (r.Ok? ==> (r.value.IsExpired(later) <==> now + t <= later)
                               && r.value.Ttl(later) == Some(if later < now + t then now + t - later else 0))
  {
  }

  /** "OKVE1" */
  const MAGIC: bytes := [0x4F, 0x4B, 0x56, 0x45, 0x31]
  const FLAG_CREATED_AT: byte := 1
  const FLAG_EXPIRES_AT: byte := 2

  function Flags(e: ManagedEntry): byte {
    (if e.createdAt.Some? then FLAG_CREATED_AT else 0) + (if e.expiresAt.Some? then FLAG_EXPIRES_AT else 0)
  }

  function TimeBytes(t: Option<DateTime>): bytes {
    if t.Some? then I64ToLe(t.value) else []
  }

  function Encode(e: ManagedEntry): bytes
    requires e.value.Sized()
  {
    MAGIC + ([e.value.kind.Tag(), Flags(e)] + (U64ToLe(|e.value.data|) + (TimeBytes(e.createdAt) + (TimeBytes(e.expiresAt) + e.value.data))))
  }

  /** `flags & bit != 0` for the two flag bits. */
  predicate HasFlag(flags: byte, bit: byte)
    requires bit == FLAG_CREATED_AT || bit == FLAG_EXPIRES_AT
  {
    flags / bit % 2 == 1
  }

  type Parsed<T> = StructuredCodec.Parsed<T>

  function TakeTime(present: bool, s: bytes): Result<Parsed<Option<DateTime>>> {
    if !present then Ok(StructuredCodec.Parsed(None, s)) else
      var p :- StructuredCodec.Take(s, 8);
      var millis := I64FromLe(p.value);
      if MIN_MILLIS <= millis <= MAX_MILLIS then Ok(StructuredCodec.Parsed(Some(millis), p.rest)) else Err(Deserialization)
  }

  function Decode(s: bytes): Result<ManagedEntry> {
    var magic :- StructuredCodec.Take(s, 5);
    if magic.value != MAGIC then Err(Deserialization) else
      var head :- StructuredCodec.Take(magic.rest, 1);
      if FromTag(head.value[0]).None? then Err(Deserialization) else
        var flags :- StructuredCodec.Take(head.rest, 1);
        if flags.value[0] >= 4 then Err(Deserialization) else
          DecodeBody(FromTag(head.value[0]).value, flags.value[0], flags.rest)
  }

  function DecodeBody(kind: ValueKind, flags: byte, s: bytes): Result<ManagedEntry> {
    var len :- StructuredCodec.Take(s, 8);
    var created :- TakeTime(HasFlag(flags, FLAG_CREATED_AT), len.rest);
    var expires :- TakeTime(HasFlag(flags, FLAG_EXPIRES_AT), created.rest);
    if |expires.rest| != U64FromLe(len.value) then Err(Deserialization) else
      var value :- NewValue(kind, expires.rest);
      Ok(ManagedEntry(value, created.value, expires.value))
  }

  // -------------------------------------------------------------------- theorems

  /** An instant is read exactly when its eight bytes are there and it is one that chrono holds. */
  lemma TakeTimeIff(s: bytes)
    ensures TakeTime(true, s).Ok? <==>
            |s| >= 8 && -8_334_601_228_800_000 <= I64FromLe(s[..8]) <= 8_210_266_876_799_999
    ensures TakeTime(true, s).Err? ==> TakeTime(true, s) == Err(Deserialization)
  {
  }

  lemma TakeTimeConcat(t: Option<DateTime>, rest: bytes)
    ensures TakeTime(t.Some?, TimeBytes(t) + rest) == Ok(StructuredCodec.Parsed(t, rest))
  {
    if t.Some? {
      TakeConcat(I64ToLe(t.value), rest);
    } else {
      assert [] + rest == rest;
    }
  }

  lemma TakeTimeLayout(present: bool, s: bytes)
    requires TakeTime(present, s).Ok?
    ensures TakeTime(present, s).value.value.Some? == present
    ensures s == TimeBytes(TakeTime(present, s).value.value) + TakeTime(present, s).value.rest
  {
    if present {
      I64Canonical(s[..8]);
    } else {
      assert [] + s == s;
    }
  }

  lemma FlagsTell(e: ManagedEntry)
    ensures HasFlag(Flags(e), FLAG_CREATED_AT) == e.createdAt.Some?
    ensures HasFlag(Flags(e), FLAG_EXPIRES_AT) == e.expiresAt.Some?
  {
  }

  lemma DecodeHead(kind: ValueKind, flags: byte, body: bytes)
    requires flags < 4
    ensures Decode(MAGIC + ([kind.Tag(), flags] + body)) == DecodeBody(kind, flags, body)
  {
    TakeConcat(MAGIC, [kind.Tag(), flags] + body);
    assert [kind.Tag(), flags] + body == [kind.Tag()] + ([flags] + body);
    TakeConcat([kind.Tag()], [flags] + body);
    TakeConcat([flags], body);
  }

  lemma DecodeEncoded(e: ManagedEntry)
    requires e.value.Sized()
    ensures Decode(Encode(e)) == if e.value.Readable() then Ok(e) else Err(InvalidValue)
  {
    var expires := TimeBytes(e.expiresAt) + e.value.data;
    var created := TimeBytes(e.createdAt) + expires;
    FlagsTell(e);
    DecodeHead(e.value.kind, Flags(e), U64ToLe(|e.value.data|) + created);
    TakeConcat(U64ToLe(|e.value.data|), created);
    TakeTimeConcat(e.createdAt, expires);
    TakeTimeConcat(e.expiresAt, e.value.data);
  }

  lemma DecodedHead(s: bytes) returns (kind: ValueKind, flags: byte, body: bytes)
    requires Decode(s).Ok? || Decode(s) == Err(InvalidValue)
    ensures flags < 4 && s == MAGIC + ([kind.Tag(), flags] + body)
    ensures Decode(s) == DecodeBody(kind, flags, body)
  {
    var magic := StructuredCodec.Take(s, 5).value;
    var head := StructuredCodec.Take(magic.rest, 1).value;
    var flag := StructuredCodec.Take(head.rest, 1).value;
    kind, flags, body := FromTag(head.value[0]).value, flag.value[0], flag.rest;
    Assoc(head.value, flag.value, body);
    assert head.value + flag.value == [kind.Tag(), flags];
  }

  lemma BodyParts(kind: ValueKind, flags: byte, s: bytes, e: ManagedEntry) returns (len: bytes, created: bytes, expires: bytes)
    requires DecodeBody(kind, flags, s) == Ok(e)
    ensures |len| == 8 && s == len + created && U64FromLe(len) == |e.value.data|
    ensures TakeTime(HasFlag(flags, FLAG_CREATED_AT), created) == Ok(StructuredCodec.Parsed(e.createdAt, expires))
    ensures TakeTime(HasFlag(flags, FLAG_EXPIRES_AT), expires) == Ok(StructuredCodec.Parsed(e.expiresAt, e.value.data))
    ensures e.Encodable() && e.value.kind == kind
  {
    len, created := s[..8], s[8..];
    expires := TakeTime(HasFlag(flags, FLAG_CREATED_AT), created).value.rest;
  }

  lemma FlagsOf(flags: byte, e: ManagedEntry)
    requires flags < 4 && HasFlag(flags, FLAG_CREATED_AT) == e.createdAt.Some? && HasFlag(flags, FLAG_EXPIRES_AT) == e.expiresAt.Some?
    ensures Flags(e) == flags
  {
  }

  /** How a body was parsed determines its bytes. */
  lemma BodyLayout(flags: byte, s: bytes, len: bytes, created: bytes, expires: bytes, e: ManagedEntry)
    requires flags < 4 && |len| == 8 && s == len + created && U64FromLe(len) == |e.value.data|
    requires TakeTime(HasFlag(flags, FLAG_CREATED_AT), created) == Ok(StructuredCodec.Parsed(e.createdAt, expires))
    requires TakeTime(HasFlag(flags, FLAG_EXPIRES_AT), expires) == Ok(StructuredCodec.Parsed(e.expiresAt, e.value.data))
    ensures Flags(e) == flags
    ensures s == U64ToLe(|e.value.data|) + (TimeBytes(e.createdAt) + (TimeBytes(e.expiresAt) + e.value.data))
  {
    I64Canonical(len);
    assert len == U64ToLe(|e.value.data|);
    TakeTimeLayout(HasFlag(flags, FLAG_CREATED_AT), created);
    assert created == TimeBytes(e.createdAt) + expires;
    TakeTimeLayout(HasFlag(flags, FLAG_EXPIRES_AT), expires);
    assert expires == TimeBytes(e.expiresAt) + e.value.data;
    FlagsOf(flags, e);
  }

  lemma DecodedBody(kind: ValueKind, flags: byte, s: bytes, e: ManagedEntry)
    requires flags < 4 && DecodeBody(kind, flags, s) == Ok(e)
    ensures e.Encodable() && e.value.kind == kind && Flags(e) == flags
    ensures s == U64ToLe(|e.value.data|) + (TimeBytes(e.createdAt) + (TimeBytes(e.expiresAt) + e.value.data))
  {
    var len, created, expires := BodyParts(kind, flags, s, e);
    BodyLayout(flags, s, len, created, expires, e);
  }

  lemma UnreadableBody(kind: ValueKind, flags: byte, s: bytes) returns (e: ManagedEntry)
    requires flags < 4 && DecodeBody(kind, flags, s) == Err(InvalidValue)
    ensures e.value.Sized() && !e.value.Readable() && e.value.kind == kind && Flags(e) == flags
    ensures s == U64ToLe(|e.value.data|) + (TimeBytes(e.createdAt) + (TimeBytes(e.expiresAt) + e.value.data))
  {
    var len, created := s[..8], s[8..];
    var first := TakeTime(HasFlag(flags, FLAG_CREATED_AT), created).value;
    var second := TakeTime(HasFlag(flags, FLAG_EXPIRES_AT), first.rest).value;
    e := ManagedEntry(Value(kind, second.rest), first.value, second.value);
    BodyLayout(flags, s, len, created, first.rest, e);
  }

  /** A string that is no entry is refused as malformed, or as an invalid value when only its
      payload is wrong. */
  lemma DecodeErrors(s: bytes)
    ensures Decode(s).Err? ==> Decode(s) == Err(Deserialization) || Decode(s) == Err(InvalidValue)
    ensures Decode(s) == Err(InvalidValue) <==> exists e: ManagedEntry :: IsUnreadable(e, s)
  {
    if Decode(s) == Err(InvalidValue) {
      var kind, flags, body := DecodedHead(s);
      var e := UnreadableBody(kind, flags, body);
      assert IsUnreadable(e, s);
    }
    forall e: ManagedEntry | IsUnreadable(e, s) ensures Decode(s) == Err(InvalidValue) {
      DecodeEncoded(e);
    }
  }

  predicate IsUnreadable(e: ManagedEntry, s: bytes) {
    e.value.Sized() && !e.value.Readable() && Encode(e) == s
  }

  /** The entry codec is a bijection between entries with a valid payload and the byte
      strings it accepts: each side determines the other exactly. */
  lemma EntryCodecBijection(s: bytes, e: ManagedEntry)
    ensures Decode(s) == Ok(e) <==> e.Encodable() && s == Encode(e)
  {
    if Decode(s) == Ok(e) {
      var kind, flags, body := DecodedHead(s);
      DecodedBody(kind, flags, body, e);
    }
    if e.Encodable() && s == Encode(e) {
      DecodeEncoded(e);
    }
  }

  /** The header of an accepted entry announces its exact length. */
  lemma AcceptedLength(s: bytes)
    requires Decode(s).Ok?
    ensures |s| >= 15
    ensures |s| == 15 + (if HasFlag(s[6], FLAG_CREATED_AT) then 8 else 0)
                   + (if HasFlag(s[6], FLAG_EXPIRES_AT) then 8 else 0) + U64FromLe(s[7..15])
  {
    var kind, flags, body := DecodedHead(s);
    var e := Decode(s).value;
    DecodedBody(kind, flags, body, e);
    FlagsTell(e);
    assert s[7..15] == body[..8] == U64ToLe(|e.value.data|);
  }

  /** No accepted entry is a proper prefix of another: bytes cut off or appended are noticed. */
  lemma EntryIsPrefixFree(s: bytes, t: bytes)
    requires Decode(s).Ok? && t != []
    ensures Decode(s + t).Err?
  {
    AcceptedLength(s);
    assert (s + t)[7..15] == s[7..15] && (s + t)[6] == s[6];
    if Decode(s + t).Ok? {
      AcceptedLength(s + t);
    }
  }

  /** The bytes of an entry: magic, kind, flags, length of the payload, the instants that are
      there, payload. */
  lemma EntryLayout(e: ManagedEntry)
    requires e.value.Sized()
    ensures Encode(e) == Ascii("OKVE1")
                         + [match e.value.kind
                            case Binary => 0
                            case Utf8Text => 1
                            case Integer => 2
                            case Float => 3
                            case Bool => 4
                            case Null => 5
                            case Structured => 6
                            case UnsignedInteger => 7]
                         + [match (e.createdAt, e.expiresAt)
                            case (None, None) => 0
                            case (Some(_), None) => 1
                            case (None, Some(_)) => 2
                            case (Some(_), Some(_)) => 3]
                         + Le8(|e.value.data|)
                         + InstantBytes(e.createdAt) + InstantBytes(e.expiresAt) + e.value.data
  {
    U64Bytes(|e.value.data|);
    InstantLayout(e.createdAt);
    InstantLayout(e.expiresAt);
    Magic();
    Ungroup(MAGIC, e.value.kind.Tag(), Flags(e), U64ToLe(|e.value.data|), TimeBytes(e.createdAt), TimeBytes(e.expiresAt), e.value.data);
  }

  lemma Magic()
    ensures MAGIC == Ascii("OKVE1")
  {
  }

  lemma Ungroup(a: bytes, kind: byte, flags: byte, c: bytes, d: bytes, e: bytes, f: bytes)
    ensures a + ([kind, flags] + (c + (d + (e + f)))) == a + [kind] + [flags] + c + d + e + f
  {
    assert [kind, flags] == [kind] + [flags];
  }

  /** An instant is written as its milliseconds in two's complement, none as nothing. */
  function InstantBytes(t: Option<DateTime>): bytes {
    match t
    case None => []
    case Some(m) => Le8(if m < 0 then m + 0x1_0000_0000_0000_0000 else m)
  }

  lemma InstantLayout(t: Option<DateTime>)
    ensures TimeBytes(t) == InstantBytes(t)
  {
    if t.Some? {
      U64Bytes(Unsigned(t.value));
    }
  }
}
