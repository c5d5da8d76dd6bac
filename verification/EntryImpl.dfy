/** The OKVE1 encoder and decoder in the form the code has: a vector grown step by step and
    an offset threaded through the readers. */
module EntryCodecImpl {
  import opened Base
  import opened LittleEndian
  import Codec = StructuredCodec
  import opened StructuredCodecTheorems
  import opened StructuredCodecImpl
  import opened Entries

  method EncodeEntry(e: ManagedEntry) returns (encoded: bytes)
    requires |e.value.data| < U64_LIMIT
    ensures encoded == Entries.Encode(e)
  {
    var flags: byte := 0;
    if e.createdAt.Some? {
      flags := flags + FLAG_CREATED_AT;
    }
    if e.expiresAt.Some? {
      flags := flags + FLAG_EXPIRES_AT;
    }
    var out := new ByteVec();
    out.Extend(MAGIC);
    out.Push(e.value.kind.Tag());
    out.Push(flags);
    out.Extend(U64ToLe(|e.value.data|));
    if e.createdAt.Some? {
      out.Extend(I64ToLe(e.createdAt.value));
    }
    if e.expiresAt.Some? {
      out.Extend(I64ToLe(e.expiresAt.value));
    }
    out.Extend(e.value.data);
    EncodedLayout(e.value.kind.Tag(), flags, U64ToLe(|e.value.data|), TimeBytes(e.createdAt), TimeBytes(e.expiresAt), e.value.data);
    encoded := out.data;
  }

  lemma EncodedLayout(tag: byte, flags: byte, len: bytes, created: bytes, expires: bytes, data: bytes)
    ensures [] + MAGIC + [tag] + [flags] + len + created + expires + data ==
            MAGIC + ([tag, flags] + (len + (created + (expires + data))))
    ensures [] + MAGIC + [tag] + [flags] + len + [] + expires + data == [] + MAGIC + [tag] + [flags] + len + expires + data
    ensures [] + MAGIC + [tag] + [flags] + len + created + [] + data == [] + MAGIC + [tag] + [flags] + len + created + data
  {
    var head := [] + MAGIC + [tag] + [flags];
    assert head == MAGIC + [tag, flags];
    assert head + len + created + expires + data == head + (len + (created + (expires + data)));
    assert head + len + [] == head + len && head + len + created + [] == head + len + created;
  }

  /** Reads `n` bytes at `offset` and returns the offset after them. */
  method ReadArray(s: bytes, offset: nat, n: nat) returns (r: Result<bytes>, next: nat)
    requires offset <= |s|
    ensures next <= |s|
    ensures match Codec.Take(s[offset..], n)
            case Ok(p) => r == Ok(p.value) && s[next..] == p.rest
            case Err(e) => r == Err(e)
  {
    var end := offset + n;
    if end > |s| {
      return Err(Deserialization), offset;
    }
    assert s[offset..][..n] == s[offset..end] && s[offset..][n..] == s[end..];
    return Ok(s[offset..end]), end;
  }

  method ReadDatetime(s: bytes, offset: nat) returns (r: Result<DateTime>, next: nat)
    requires offset <= |s|
    ensures next <= |s|
    ensures match TakeTime(true, s[offset..])
            case Ok(p) => p.value.Some? && r == Ok(p.value.value) && s[next..] == p.rest
            case Err(e) => r == Err(e)
  {
    var raw;
    raw, next := ReadArray(s, offset, 8);
    if raw.Err? {
      return Err(raw.error), next;
    }
    var millis := I64FromLe(raw.value);
    if millis < MIN_MILLIS || millis > MAX_MILLIS {
      return Err(Deserialization), next;
    }
    r := Ok(millis);
  }

  method DecodeEntry(s: bytes) returns (r: Result<ManagedEntry>)
    ensures r == Entries.Decode(s)
  {
    var offset := 0;
    assert s[0..] == s;
    var magic;
    magic, offset := ReadArray(s, offset, 5);
    if magic.Err? {
      return Err(magic.error);
    }
    if magic.value != MAGIC {
      return Err(Deserialization);
    }
    var tag;
    tag, offset := ReadArray(s, offset, 1);
    if tag.Err? {
      return Err(tag.error);
    }
    var kind := FromTag(tag.value[0]);
    if kind.None? {
      return Err(Deserialization);
    }
    var flags;
    flags, offset := ReadArray(s, offset, 1);
    if flags.Err? {
      return Err(flags.error);
    }
    if flags.value[0] >= 4 {
      return Err(Deserialization);
    }
    r := DecodeAfterHeader(kind.value, flags.value[0], s, offset);
  }

  method DecodeAfterHeader(kind: ValueKind, flags: byte, s: bytes, start: nat) returns (r: Result<ManagedEntry>)
    requires start <= |s|
    ensures r == DecodeBody(kind, flags, s[start..])
  {
    var len, offset := ReadArray(s, start, 8);
    if len.Err? {
      return Err(len.error);
    }
    var createdAt: Option<DateTime> := None;
    if HasFlag(flags, FLAG_CREATED_AT) {
      var created;
      created, offset := ReadDatetime(s, offset);
      if created.Err? {
        return Err(created.error);
      }
      createdAt := Some(created.value);
    }
    var expiresAt: Option<DateTime> := None;
    if HasFlag(flags, FLAG_EXPIRES_AT) {
      var expires;
      expires, offset := ReadDatetime(s, offset);
      if expires.Err? {
        return Err(expires.error);
      }
      expiresAt := Some(expires.value);
    }
    if offset + U64FromLe(len.value) != |s| {
      return Err(Deserialization);
    }
    var value := NewValue(kind, s[offset..]);
    if value.Err? {
      return Err(value.error);
    }
    r := Ok(ManagedEntry(value.value, createdAt, expiresAt));
  }
}
