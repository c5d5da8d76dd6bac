/** The OKVC1 envelope: a 16-byte revision token in front of an OKVE1 entry. */
module CasEnvelope {
  import opened Base
  import opened Utf8
  import Entries
  import opened StructuredCodecTheorems

  /** "OKVC1" */
  const MAGIC: bytes := [0x4F, 0x4B, 0x56, 0x43, 0x31]
  const PREFIX_LEN: nat := 21

  type Revision = r: bytes | |r| == 16 witness [0, 0, 0, 0, 0, 0, 0, 0, 0, 0, 0, 0, 0, 0, 0, 0]

  datatype CasEntry = CasEntry(entry: Entries.ManagedEntry, revision: Revision)

  datatype RevisionedEntry = RevisionedEntry(value: Entries.Value, revision: Revision, ttl: Option<nat>)

  function Encode(entry: Entries.ManagedEntry, revision: Revision): bytes
    requires |entry.value.data| < U64_LIMIT
  {
    MAGIC + (revision + Entries.Encode(entry))
  }

  function Decode(stored: Option<bytes>): Result<Option<CasEntry>> {
    match stored
    case None => Ok(None)
    case Some(s) =>
      if |s| < PREFIX_LEN then Err(Deserialization)
      else if s[..5] != MAGIC then Err(Deserialization)
      else
        var entry :- Entries.Decode(s[PREFIX_LEN..]);
        Ok(Some(CasEntry(entry, s[5..PREFIX_LEN])))
  }

  function ToRevisionedValue(cas: CasEntry, now: Entries.DateTime): Option<RevisionedEntry> {
    if cas.entry.IsExpired(now) then None
    else Some(RevisionedEntry(cas.entry.value, cas.revision, cas.entry.Ttl(now)))
  }

  /** The envelope codec is a bijection between valid entries with a revision and the byte
      strings it accepts. */
  lemma EnvelopeBijection(s: bytes, cas: CasEntry)
    ensures Decode(Some(s)) == Ok(Some(cas)) <==> cas.entry.Encodable() && s == Encode(cas.entry, cas.revision)
  {
    if |s| >= PREFIX_LEN {
      var revision, tail := s[5..PREFIX_LEN], s[PREFIX_LEN..];
      assert s == s[..5] + (revision + tail);
      Entries.EntryCodecBijection(tail, cas.entry);
    }
    if cas.entry.Encodable() && s == Encode(cas.entry, cas.revision) {
      var tail := Entries.Encode(cas.entry);
      Entries.EntryCodecBijection(tail, cas.entry);
      assert s[..5] == MAGIC && s[5..PREFIX_LEN] == cas.revision && s[PREFIX_LEN..] == tail;
    }
  }

  /** What is no envelope is refused as malformed, or as an invalid value when only the payload of
      its entry is wrong. */
  lemma EnvelopeErrors(s: bytes)
    ensures Decode(Some(s)).Err? ==> Decode(Some(s)) == Err(Deserialization) || Decode(Some(s)) == Err(InvalidValue)
    ensures Decode(Some(s)) == Err(InvalidValue) <==>
            |s| >= 21 && s[..5] == Ascii("OKVC1") && Entries.Decode(s[21..]) == Err(InvalidValue)
  {
    if |s| >= PREFIX_LEN {
      Entries.DecodeErrors(s[PREFIX_LEN..]);
    }
  }

  /** Overwriting the revision bytes of an accepted envelope changes the decoded revision
      and nothing else. */
  lemma ReplaceRevision(s: bytes, revision: Revision)
    requires Decode(Some(s)).Ok?
    ensures |s| >= PREFIX_LEN
    ensures Decode(Some(s[..5] + revision + s[PREFIX_LEN..])) == Ok(Some(Decode(Some(s)).value.value.(revision := revision)))
  {
    var t := s[..5] + revision + s[PREFIX_LEN..];
    assert t[..5] == s[..5] && t[5..PREFIX_LEN] == revision && t[PREFIX_LEN..] == s[PREFIX_LEN..];
  }

  /** A bare entry is never mistaken for an envelope, nor an envelope for a bare entry. */
  lemma EnvelopesAreNotEntries(s: bytes)
    ensures !(Entries.Decode(s).Ok? && Decode(Some(s)).Ok?)
  {
    if Entries.Decode(s).Ok? && |s| >= PREFIX_LEN {
      assert s[..5] == Entries.MAGIC;
      assert Entries.MAGIC[3] != MAGIC[3];
    }
  }

  /** Bytes cut off or appended are noticed. */
  lemma EnvelopeIsPrefixFree(s: bytes, t: bytes)
    requires Decode(Some(s)).Ok? && t != []
    ensures Decode(Some(s + t)).Err?
  {
    Entries.EntryIsPrefixFree(s[PREFIX_LEN..], t);
    assert (s + t)[PREFIX_LEN..] == s[PREFIX_LEN..] + t;
  }

  /** What a reader sees of a stored envelope: nothing once expired, otherwise the stored
      value and revision with a positive remaining time. */
  lemma StoredSnapshot(entry: Entries.ManagedEntry, revision: Revision, now: Entries.DateTime)
    requires entry.Encodable()
    ensures Decode(Some(Encode(entry, revision))).Ok?
    ensures var read := ToRevisionedValue(Decode(Some(Encode(entry, revision))).value.value, now);
            if entry.IsExpired(now) then read == None
            else && read.Some? && read.value.value == entry.value && read.value.revision == revision
                 && (read.value.ttl.None? <==> entry.expiresAt.None?)
                 && (read.value.ttl.Some? ==> 0 < read.value.ttl.value == entry.expiresAt.value - now)
  {
    EnvelopeBijection(Encode(entry, revision), CasEntry(entry, revision));
  }

  /** The bytes of an envelope: magic, revision, entry. */
  lemma EnvelopeLayout(entry: Entries.ManagedEntry, revision: Revision)
    requires |entry.value.data| < U64_LIMIT
    ensures Encode(entry, revision) == Ascii("OKVC1") + revision + Entries.Encode(entry)
  {
  }
}
