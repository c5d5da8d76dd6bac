# OpenKeyV: a verified model

OpenKeyV puts one key-value contract over many backends, in Rust with Python bindings. This
project models the parts of it that keep state, encode bytes, or claim to behave like something
simpler, and proves what they promise, for every input and every run. `dafny verify dfyconfig.toml`
checks everything.

## What is modelled

**Byte formats.** `StructuredValue`, `StructuredCodec` and their theorems cover the recursive OKV1
encoding of structured values, `Entry` the OKVE1 entry around it, `CasEnvelope` the OKVC1 envelope
around that. Each has a specification as functions on byte sequences; `StructuredCodecImpl` and
`EntryImpl` are the encoders and decoders as the source writes them (a growing byte vector, a cursor
that advances, loops) and are proved equal to the specification; `StructuredLayout` and the layout
lemmas say byte by byte what is written. `Utf8` is the automaton of section 4 of RFC 3629,
`Utf8Scalars` shows that it accepts exactly the encoded sequences of Unicode scalar values. `Decimal`
is Rust's `to_string` and `parse::<u64>`, `KeyOrder` the byte order of keys.
`Json` relates structured values to JSON trees for both ways the JSON library can keep its objects.

**Identities.** `Compound` has length-framed identities and subspaces, `SingleCollection` the wrapper
that keeps a two-level store in one collection, `DiskTreeName` the hexadecimal names of disk trees,
`Sanitize` the Python key sanitizer.

**The change feed and live migration.** `ChangeFeed` is the bounded, revision-numbered log with its
lossy broadcast channel, `FeedRuns` a consumer that stores its cursor and resubscribes,
`ChangeFeedImpl` the memory store's code. `Migration` is a system of small steps in which the source
keeps changing between any two steps of the copier and of the replay; a mutation reaches the feed in
a later step than it reaches the map, because readers do not take the mutation lock. Listings are
only assumed to be complete for keys that no outstanding record mentions, and the copier is shown at
most a page of them. `MigrationConvergence` decides key by key what comes out right and proves
convergence for a moving source, `MigrationQuietRuns` says exactly when a migration can finish and
when all its runs are exact once the source is left alone, destruction of the source included,
`MemoryMutations` that the memory store's mutations record what they do, `MigrationImpl` is the copying
and replaying code on entries with expiry, and `MigrationBridge` shows that this code is a run of the
step system.

**Wrappers.** `KeyValue` is the store contract as operations on a map of cells, `KeyValueLaws` what
these operations promise each other, `BackingStore` the same changed in place. `PassthroughCachePy` and `TtlClamp` are the Python cache,
`PassthroughCache` the Rust cache, `Routing` the router; `Enumeration` has what they share about
listings.

**Backends.** `Disk` and `DuckDb` treat sled and SQL as maps; their `Impl` files hold the loops, their
`Runs` files prove that whole runs read like a plain map of entries (`EntryMap`).

Times are integer milliseconds and every operation reads the clock once. `Result` stands for the
source's errors, by kind and without their text. Fresh revisions, the order in which hash maps and
query results are visited, what a store lists, and hash digests are parameters or arbitrary choices.

## What the proofs turned up

- `copy_snapshot` asks for collections and keys without a limit, the memory store answers with at most
  10,000 of each in no particular order, and the copy goes on with what it is shown: it is exact in
  every order exactly when everything that has to be copied fits (`PagedSnapshotIsExactIff`,
  `QuietMigrationExactIff`).
- A target that holds a key which is no new name of anything in the source keeps it: no migration
  into it is exact (`QuietMigrationExactIff`, `ConvergesIffNoLeftovers`).
- Destroying a whole memory store records no change, and its configured seed comes back without a
  record. A migration survives this exactly when every value it has already written, or is about to
  write, is mentioned by a record it has yet to see (`DestroyedEndsEmptyIff`, `DestroyedExactIff`); a
  finished migration keeps everything (`DestroyCanStrandCopies`).
- A subscription that has been outrun by the channel never catches up, every other one can
  (`CanFinishIff`).
- A null with an expiry behind the Python cache: `ttl` drops its time, `ttl_many` does not, the
  primary shows it (`TtlIsExactIff`, `BatchTtlDiffersIff`).
- A read between the two halves of a Python cache `put` leaves the old value in the cache whenever
  there was one that differs (`InterleavedPutLeavesStaleValue`).
- The Rust cache gives cached entries a TTL of its own, so a read stays right at all later times
  exactly when that runs out no later than the primary's (`FillStaysRightIff`); it is never stale by
  more than that TTL (`StalenessIsBounded`).
- Merged listings look at the limit after taking an element: a limit of zero shows one
  (`MergedListingIsExact`).
- Subspaces are isolated from each other exactly when both are nonempty (`SubspaceIsolation`).
- The sanitizer's documentation says a string without allowed characters becomes empty; with a
  replacement of two or more characters it becomes the replacement (`SanitizedIsClean`). Its result can
  exceed the limit when separator and fragment need more than the limit, and when the fragment length
  is negative, which is accepted (`SanitizedFitsIff`, `SanitizedCanBeTooLong`,
  `NegativeFragmentIsTooLong`).
- `Value::new_unchecked` and `structured_unchecked` let unreadable entries into a store. On disk one of
  them makes every cull and destruction fail until it is overwritten or deleted; DuckDB refuses the
  reads that meet it (`DiskRefinesMap`, `DuckDbRefinesMap`).
- A change cursor is accepted with superfluous zeros and with a plus sign (`ParseIff`).
- The last test in the disk store's name decoder can never fail (`CanonicalTestIsRedundant`).

## Model

| member | source | states |
|---|---|---|
| MigrationConvergence.MigrationConverges | rust/crates/openkeyv/src/migration.rs:92-230 | for every interleaving of source mutations, recording, copying and replay whose listings are shown in full, once nothing is outstanding the target is exactly the chosen part of the source renamed |
| MigrationConvergence.ConvergesUnderNewNames | rust/crates/openkeyv/src/migration.rs:71-230 | when such a run is over, what the source has under a collection with the source prefix is in the target under the target prefix followed by the same rest, for exactly the collections asked for, and the target has nothing without that prefix |
| MigrationConvergence.RenamedWithPrefixIff | rust/crates/openkeyv/src/migration.rs:71-90 | the chosen part of the source under its new names, spelt out: every key is found where the prefix is replaced and nowhere else |
| MigrationConvergence.RenamedWithoutPrefixIff | rust/crates/openkeyv/src/migration.rs:71-90 | without a prefix mapping the collections asked for read as in the source and the others are empty |
| MigrationConvergence.ReplayIsAccurate | rust/crates/openkeyv/src/migration.rs:163-230 | throughout the replay of such a run each chosen key has an outstanding record or reads the same from both stores |
| MigrationConvergence.WriteDecides | rust/crates/openkeyv/src/migration.rs:115-154 | writing a value read earlier, or nothing for a key that was missing, leaves every key exactly as safe as it was, stale values included |
| MigrationConvergence.ReadDecides | rust/crates/openkeyv/src/migration.rs:118-136 | reading a key moves it from to-be-read to held without making any key safer or less safe |
| MigrationConvergence.TakeDecides | rust/crates/openkeyv/src/migration.rs:183-203 | taking the next record off the feed leaves every key exactly as safe: it is being applied instead of outstanding |
| MigrationConvergence.PutDecides | rust/crates/openkeyv/src/migration.rs:207-226 | writing the value read for a put record, or deleting, leaves every key exactly as safe |
| MigrationConvergence.MutateKeeps | rust/crates/openkeyv/src/store/memory/store.rs:170-217 | a source mutation whose records cover it keeps every safe key safe |
| MigrationConvergence.ReceiveTakesFirst | rust/crates/openkeyv/src/migration.rs:177-180 | the default subscription shows every record: a receive takes exactly the next outstanding one |
| MigrationQuietRuns.QuietMigrationExactIff | rust/crates/openkeyv/src/migration.rs:97-230 | migrating a source that is left alone ends exact in every run and every listing order if and only if the target has no leftovers and whatever is not there yet fits the pages, collections and keys |
| MigrationQuietRuns.QuietExactIff | rust/crates/openkeyv/src/migration.rs:97-230 | from any state of a migration: all quiet runs that finish are exact if and only if every chosen key is safe and the target holds nothing foreign |
| MigrationQuietRuns.ConvergesIffNoLeftovers | rust/crates/openkeyv/src/migration.rs:97-180 | for a source that fits the pages, all runs with full listings, mutations included, end exact if and only if the target starts without leftovers |
| MigrationQuietRuns.CanFinishIff | rust/crates/openkeyv/src/store/memory/client.rs:57-78 | a migration, whatever its backlog, can come to its end exactly when the channel has not outrun its subscription |
| MigrationQuietRuns.FinishingRun | rust/crates/openkeyv/src/migration.rs:107-158 | the run to the end with the source left alone, copy and replay of the backlog; a key that is wrong can be kept wrong |
| MigrationQuietRuns.DestroyedExactIff | rust/crates/openkeyv/src/store/memory/store.rs:565-574 | after the source store is destroyed and its seed is back, unrecorded, all quiet runs end exact if and only if every chosen key is safe with respect to the seed |
| MigrationQuietRuns.DestroyedEndsEmptyIff | rust/crates/openkeyv/src/store/memory/store.rs:565-574 | without a seed they all end with an empty target if and only if every chosen key with a value in the target, or about to be written there, has an outstanding record |
| MigrationQuietRuns.DestroyCanStrandCopies | rust/crates/openkeyv/src/store/memory/store.rs:565-574 | for every source with something to copy there is a run in which destruction leaves the copies behind |
| MigrationOptions.ImageInjective | rust/crates/openkeyv/src/migration.rs:79-86 | renaming collections by prefix never merges two keys |
| MigrationOptions.PrefixIsReplaced | rust/crates/openkeyv/src/migration.rs:71-90 | a collection with the source prefix is chosen if and only if it was asked for, and the new name is the target prefix with the same rest |
| MigrationImpl.CopySnapshot | rust/crates/openkeyv/src/migration.rs:97-159 | the nested loops copy every listed live key of every chosen collection, touch nothing else, and count each scanned key as copied or skipped |
| MigrationImpl.CopyReplacesPrefix | rust/crates/openkeyv/src/migration.rs:92-159 | with a prefix mapping, a live listed key of a collection asked for lands where the prefix is replaced, value and expiry included; otherwise that target key is untouched |
| MigrationImpl.CopyKeepsToThePrefix | rust/crates/openkeyv/src/migration.rs:79-90 | target collections without the target prefix are untouched |
| MigrationImpl.CopyKeepsNames | rust/crates/openkeyv/src/migration.rs:92-159 | without a prefix mapping the live listed keys of the collections asked for land under their own names and nothing else changes |
| MigrationImpl.MergingReports | rust/crates/openkeyv/src/migration.rs:62-69 | reports can be merged in any order and grouping, and an empty one changes nothing |
| MigrationImpl.CopyValueBatch | rust/crates/openkeyv/src/migration.rs:132-155 | collecting live values and writing them in one batch is copying them one by one without expiry |
| MigrationImpl.CopyAllAt | rust/crates/openkeyv/src/migration.rs:107-157 | the target's entry for a key after a copy: the source's value, its expiry when asked for, otherwise what was there |
| MigrationImpl.SnapshotIsExact | rust/crates/openkeyv/src/migration.rs:92-159 | a snapshot into an empty target is exact if and only if the listings show every live chosen key |
| MigrationImpl.PagedSnapshotIsExactIff | rust/crates/openkeyv/src/store/memory/store.rs:515-540 | with listings cut off at a page, the snapshot is exact in every order if and only if, as soon as there is something to copy, the collections fit a page and so do the keys of every collection with a live chosen key |
| MigrationImpl.ApplyChange | rust/crates/openkeyv/src/migration.rs:183-230 | one change: the image takes the source's present entry or disappears, with the report the source gives |
| MigrationImpl.ApplyReplacesPrefix | rust/crates/openkeyv/src/migration.rs:183-230 | with a prefix mapping, a change leaves the key where the prefix is replaced with the present entry, or gone, and no other target key is touched |
| MigrationImpl.ApplySkipsOtherPrefixes | rust/crates/openkeyv/src/migration.rs:196-201 | a change of a collection without the source prefix leaves the target alone |
| MigrationImpl.ApplyKeepsNames | rust/crates/openkeyv/src/migration.rs:183-230 | without a prefix mapping a change is applied under its own name, and only for collections asked for |
| MigrationBridge.CopySnapshotIsARun | rust/crates/openkeyv/src/migration.rs:107-158 | for entries without expiry the copying loops are a run of the step system's copier, for every batch size and listing order, cut-off listings included |
| MigrationBridge.AppliedIsTheReplaySteps | rust/crates/openkeyv/src/migration.rs:203-226 | applying a change to entries without expiry is the step system's move from taking the record to having replayed it |
| MemoryMutations.MutationsAreCovered | rust/crates/openkeyv/src/store/memory/store.rs:170-446 | batch puts, eviction, deletes, applied swaps and dropping a collection record every key they change, in the order that ends with its fate |
| MemoryMutations.PutManyStores | rust/crates/openkeyv/src/store/memory/store.rs:260-311 | a batch of puts leaves every key that is not evicted with the value of its last put, or as it was, and records every put in order |
| MemoryMutations.SwapAndDeleteStore | rust/crates/openkeyv/src/store/memory/store.rs:313-446 | an applied swap sets its key, records it and evicts nothing; deletes remove the named keys and nothing else |
| MemoryMutations.EvictKeepsLargest | rust/crates/openkeyv/src/store/memory/store.rs:100-122 | eviction stops at the limit, removes only keys smaller than all it keeps and touches no other collection |
| MemoryMutations.DestroyCollectionEmpties | rust/crates/openkeyv/src/store/memory/store.rs:543-562 | dropping a collection empties it with one delete record for each of its keys, in any order, and leaves the others alone |
| FeedRuns.ExactlyOnceDelivery | rust/crates/openkeyv/src/store/memory/client.rs:57-185 | after any run of changes, receives and resubscriptions at the stored cursor the consumer has the matching records from its start to its position, in order, none twice, unless told of expiry or lag |
| FeedRuns.ReceivedIsWhatWasAskedFor | rust/crates/openkeyv/src/change.rs:57-75 | after any run every mutation of the run is in the history, a consumer has only changes of the collections and kinds it named, in order and none twice, and once it has caught up it has all of them |
| FeedRuns.ReceiveTakesTheNext | rust/crates/openkeyv/src/store/memory/client.rs:57-78 | every receive lags, or hands over the first change after the consumer's position that was asked for and moves right behind it, or there is none and it has looked at everything |
| FeedRuns.ResubscribingCuresLag | rust/crates/openkeyv/src/store/memory/client.rs:155-185 | resubscribing at a cursor that is still accepted goes on right behind it, and the next receive does not lag |
| FeedRuns.StoredCursor | rust/crates/openkeyv/src/store/memory/client.rs:57-185 | the stored cursor is always the last received record's, or before there is one the cursor the subscription started after |
| FeedRuns.CaughtUpMeansComplete | rust/crates/openkeyv/src/store/memory/client.rs:57-78 | after any run at whose end a receive would wait, every matching record since the start was received, in order |
| FeedRuns.RetainedRecords | rust/crates/openkeyv/src/store/memory/client.rs:120-185 | in every reachable feed the log is the latest min(revision, R) records with consecutive numbers, and a cursor is accepted exactly within its range, replaying what follows it |
| ChangeFeed.SubscribeAfterIff | rust/crates/openkeyv/src/store/memory/client.rs:155-177 | a cursor is accepted iff it lies between what is retained and the counter; which error otherwise |
| Decimal.ParseIff | rust/crates/openkeyv/src/store/memory/client.rs:155-160 | a cursor is read as a number exactly when it is that number's numeral, superfluous zeros and a plus sign allowed |
| ChangeFeed.RecvDelivers | rust/crates/openkeyv/src/store/memory/client.rs:59-77 | a receive delivers the first matching record after the stream's position and stops behind it, or finds none, or reports a gap |
| ChangeFeed.LagIff | rust/crates/openkeyv/src/store/memory/client.rs:68-75 | a lag is reported exactly when no replay record matches and more was sent than the channel holds; how many records were lost, and where the stream goes on |
| ChangeFeed.MatchingIsExact | rust/crates/openkeyv/src/change.rs:71-74 | the matching records are all of them and no others, in strictly rising revision order |
| ChangeFeedImpl.MemoryFeed.RecordChange | rust/crates/openkeyv/src/store/memory/client.rs:120-142 | the log, counter and channel after a change are those of the specification |
| ChangeFeedImpl.MemoryFeed.Subscribe | rust/crates/openkeyv/src/store/memory/client.rs:144-185 | the new stream, or the error, is the specified one |
| ChangeFeedImpl.MemoryChangeStream.Recv | rust/crates/openkeyv/src/store/memory/client.rs:59-77 | the receiving loop returns what the specification returns and leaves the stream where it says |
| StructuredCodecTheorems.RoundTrip | rust/crates/openkeyv/src/value/codec.rs:18-162 | encoding succeeds exactly on trees without repeated keys whose lengths fit 32 bits, and decoding gives the tree with every dictionary sorted |
| StructuredLayout.ScalarLayout | rust/crates/openkeyv/src/value/codec.rs:6-64 | the bytes of every value that is neither list nor dictionary: tag, then length or eight bytes, lowest first |
| StructuredLayout.ListLayout | rust/crates/openkeyv/src/value/codec.rs:65-71 | the bytes of a list: tag, length, its items in order |
| StructuredLayout.DictionaryLayout | rust/crates/openkeyv/src/value/codec.rs:72-92 | the bytes of a dictionary: tag, length, all its entries, whose keys rise byte by byte |
| KeyOrder.LessIff | rust/crates/openkeyv/src/value/codec.rs:76 | one key is before another exactly when it has the smaller byte, or ends, at the first position at which they differ |
| KeyOrder.AscendingIff | rust/crates/openkeyv/src/value/codec.rs:76 | in an ascending list every key is lower, byte by byte, than every later one |
| LittleEndian.U64Bytes | rust/crates/openkeyv/src/value/codec.rs:47-54 | the eight bytes of a number, lowest first |
| Scalars.ValidIff | rust/crates/openkeyv/src/value/codec.rs:114 | text is accepted exactly when it encodes a sequence of Unicode scalar values |
| StructuredCodecTheorems.DecodeValueExtends | rust/crates/openkeyv/src/value/codec.rs:97-155 | a successful decode consumes the same bytes whatever follows them |
| StructuredCodecTheorems.TruncatedOrExtendedEncodingRejected | rust/crates/openkeyv/src/value/codec.rs:25-39 | every proper prefix and every proper extension of an encoding is rejected |
| StructuredCanonicity.CanonDecidesSame | rust/crates/openkeyv/src/value/codec.rs:78-92 | sorted forms are equal exactly for trees equal up to dictionary order at every depth |
| StructuredCanonicity.CanonicalEncoding | rust/crates/openkeyv/src/value/codec.rs:41-95 | two encodable trees have equal bytes if and only if they are equal up to dictionary order |
| StructuredReencoding.AcceptedReencodes | rust/crates/openkeyv/src/value/codec.rs:25-155 | every accepted byte string re-encodes, to the same length and to the canonical form of its tree |
| StructuredReencoding.AcceptedIsCanonicalIff | rust/crates/openkeyv/src/value/codec.rs:25-155 | accepted bytes are the encoding of their tree exactly when the tree is canonical |
| StructuredReencoding.DecodedValueFits | rust/crates/openkeyv/src/value/codec.rs:97-205 | whatever is decoded is encodable and took exactly its encoded length |
| StructuredCodecImpl.Encode | rust/crates/openkeyv/src/value/codec.rs:18-95 | the encoder that appends to a byte vector produces the specified bytes or the specified error |
| StructuredCodecImpl.EncodeSorted | rust/crates/openkeyv/src/value/codec.rs:78-92 | the loop over sorted entries writes each key and value once and refuses neighbours with equal keys |
| StructuredCodecImpl.Decode | rust/crates/openkeyv/src/value/codec.rs:25-155 | the cursor decoder returns the specified tree or error and ends on every input |
| StructuredCodecImpl.DecodeDict | rust/crates/openkeyv/src/value/codec.rs:135-152 | the loop with a set of seen keys accepts exactly entry lists without repeats |
| Entries.EntryCodecBijection | rust/crates/openkeyv/src/entry/codec.rs:12-125 | bytes decode to an entry if and only if the entry is valid and these are its encoding |
| Entries.EntryLayout | rust/crates/openkeyv/src/entry/codec.rs:12-42 | the bytes of an entry: magic, kind, flags, length, the instants that are there, payload |
| Entries.DecodeErrors | rust/crates/openkeyv/src/entry/codec.rs:44-98 | a refused string is malformed, or an invalid value exactly when it is the encoding of an entry with a wrong payload |
| Entries.TakeTimeIff | rust/crates/openkeyv/src/entry/codec.rs:118-125 | an instant is read exactly when its bytes are there and it lies between the first and the last |
| Entries.ReadableIff | rust/crates/openkeyv/src/value/mod.rs:112-134 | which payloads each kind allows |
| Entries.EntryLivesUntil | rust/crates/openkeyv/src/entry/mod.rs:22-81 | a TTL is refused exactly when it is not positive or goes beyond the last instant; an entry is over once its TTL has passed, and shows what is left of it |
| Entries.EntryIsPrefixFree | rust/crates/openkeyv/src/entry/codec.rs:44-98 | bytes appended to an accepted entry are noticed |
| Entries.AcceptedLength | rust/crates/openkeyv/src/entry/codec.rs:70-98 | the header of an accepted entry announces its exact length |
| Entries.KindTagBijection | rust/crates/openkeyv/src/value/kind.rs:14-40 | tags and kinds determine each other |
| EntryCodecImpl.EncodeEntry | rust/crates/openkeyv/src/entry/codec.rs:12-42 | the buffer built step by step is the specified encoding |
| EntryCodecImpl.DecodeEntry | rust/crates/openkeyv/src/entry/codec.rs:44-125 | the readers with their moving offset give the specified entry or error |
| CasEnvelope.EnvelopeBijection | rust/crates/openkeyv/src/cas.rs:34-77 | an envelope decodes to an entry and a revision if and only if it is their encoding |
| CasEnvelope.EnvelopeLayout | rust/crates/openkeyv/src/cas.rs:34-44 | the bytes of an envelope: magic, revision, entry |
| CasEnvelope.EnvelopeErrors | rust/crates/openkeyv/src/cas.rs:56-77 | a refused string is malformed, or an invalid value exactly when only the payload of its entry is wrong |
| CasEnvelope.ReplaceRevision | rust/crates/openkeyv/src/cas.rs:56-77 | overwriting bytes 5 to 21 changes the decoded revision and nothing else |
| CasEnvelope.EnvelopesAreNotEntries | rust/crates/openkeyv/src/cas.rs:56-77 | no byte string is both an entry and an envelope |
| CasEnvelope.EnvelopeIsPrefixFree | rust/crates/openkeyv/src/cas.rs:56-77 | no proper extension of an accepted envelope is accepted |
| CasEnvelope.StoredSnapshot | rust/crates/openkeyv/src/cas.rs:81-94 | a reader sees nothing of an expired entry, otherwise its value, revision and a positive remaining time |
| Compound.DecompoundIff | rust/crates/openkeyv/src/utils/compound.rs:36-80 | a string decodes to a pair if and only if it is the pair's identity |
| Compound.IdentityLayout | rust/crates/openkeyv/src/utils/compound.rs:18-51 | the bytes of an identity: length in decimal, colon, collection, key, behind a subspace framed the same way |
| Compound.CompoundInjective | rust/crates/openkeyv/src/utils/compound.rs:41-46 | identities are equal only for equal collections and keys |
| Compound.PrefixDecidesCollection | rust/crates/openkeyv/src/utils/compound.rs:36-46 | an identity starts with a collection's prefix exactly when it belongs to that collection |
| Compound.SubspaceDecompoundIff | rust/crates/openkeyv/src/utils/compound.rs:48-89 | decoding inside a subspace inverts encoding inside it and refuses everything else |
| Compound.SubspaceIsolation | rust/crates/openkeyv/src/utils/compound.rs:18-51 | two distinct subspaces never share a physical key exactly when both are nonempty |
| KeyValueLaws.AtMostOneSucceeds | rust/crates/openkeyv/src/protocol.rs:150-178 | no lost update: in every run whose writes never issue an observed revision again, at most one of the swaps and deletes that expect it goes through |
| KeyValueLaws.ConditionalIff | rust/crates/openkeyv/src/store/memory/store.rs:353-490 | a swap or delete goes through exactly when the expected revision is the one a read would report; otherwise it reports what the read would and changes no read |
| KeyValueLaws.CreateIff | rust/crates/openkeyv/src/store/memory/store.rs:353-420 | a swap that expects nothing goes through exactly when a read finds nothing |
| KeyValueLaws.SwapThenRead | rust/crates/openkeyv/src/store/memory/store.rs:353-444 | after a swap that goes through, reads show its value, revision and remaining time until that is up; a time that is not positive is refused |
| KeyValueLaws.CompareAndDeleteThenRead | rust/crates/openkeyv/src/store/memory/store.rs:446-490 | after a conditional delete that goes through nothing is read |
| KeyValueLaws.SecondSwapLoses | rust/crates/openkeyv/src/store/memory/store.rs:422-444 | of two swaps from the same revision the second reports what the first wrote |
| KeyValueLaws.BatchReadsAreReads | rust/crates/openkeyv/src/protocol.rs:98-111 | a batch read answers, place by place, what single reads would |
| KeyValueLaws.PutThenRead | rust/crates/openkeyv/src/protocol.rs:74-95 | a put is read back until its time is up, with the time that is left, and changes no other key |
| KeyValueLaws.DeleteThenRead | rust/crates/openkeyv/src/protocol.rs:95-97 | a delete reports a key that can be read, leaves nothing to read of it and changes no other key |
| KeyValueLaws.PutManyThenRead | rust/crates/openkeyv/src/protocol.rs:112-123 | a batch of puts leaves every key as its last put wrote it; sizes that differ and times that are not positive are refused |
| KeyValueLaws.DeleteManyRemoves | rust/crates/openkeyv/src/protocol.rs:124-127 | a batch of deletes removes the named keys and counts each that was there once |
| KeyValueLaws.RenamingKeepsTheRest | rust/crates/openkeyv/src/wrapper/single_collection.rs:36-182 | passing an operation on under other keys changes nothing else about it |
| SingleCollection.WrapperRefinesTwoLevelStore | rust/crates/openkeyv/src/wrapper/single_collection.rs:36-182 | in every run of single, batch and conditional operations the wrapper answers as a two-level store and stays its image |
| SingleCollection.DefaultCollection | rust/crates/openkeyv/src/wrapper/single_collection.rs:30-32 | no collection means the one with the default name |
| SingleCollection.ApplyRefines | rust/crates/openkeyv/src/wrapper/single_collection.rs:36-182 | one operation under compound identities does what the two-level store would do |
| SingleCollection.CollectionsDoNotInterfere | rust/crates/openkeyv/src/wrapper/single_collection.rs:55-129 | an operation on one collection leaves every other as it was |
| SingleCollection.KeysAreExact | rust/crates/openkeyv/src/wrapper/single_collection.rs:188-206 | from a complete listing of the inner store, the listing of a collection shows exactly its keys, once each |
| SingleCollection.PagedKeysAreExactIff | rust/crates/openkeyv/src/wrapper/single_collection.rs:188-206 | from an inner listing cut off at a page it does so in every order if and only if all identities fit the page or the collection is empty |
| SingleCollection.CollectionsAreExact | rust/crates/openkeyv/src/wrapper/single_collection.rs:213-235 | from a complete listing of the inner store, collections with limit n shows min(n, all) distinct collections |
| SingleCollection.MalformedIdentityIsReported | rust/crates/openkeyv/src/wrapper/single_collection.rs:192-203 | listing fails exactly when a listed identity is malformed |
| SingleCollection.SingleCollectionWrapper.Perform | rust/crates/openkeyv/src/wrapper/single_collection.rs:30-182 | the state and answer after an operation are those of the two-level store, other inner collections untouched |
| SingleCollection.SingleCollectionWrapper.Collections | rust/crates/openkeyv/src/wrapper/single_collection.rs:213-235 | the loop with a set of seen names and an early stop gives the specified listing |
| PythonCache.CacheIsTransparent | python/src/openkeyv/wrappers/passthrough_cache/wrapper.py:47-158 | in every sequential run with time passing, from an empty cache, all values and outcomes equal the primary's, TTLs are never longer, and the primary ends the same |
| PythonCache.CallIsTransparent | python/src/openkeyv/wrappers/passthrough_cache/wrapper.py:47-158 | one call keeps the cache coherent and answers as well as the primary |
| PythonCache.CoherentRead | python/src/openkeyv/wrappers/passthrough_cache/wrapper.py:48-59 | a live cached value is the primary's live value, now and later |
| PythonCache.NullReadsAsMissing | python/src/openkeyv/wrappers/passthrough_cache/wrapper.py:48-101 | a stored null reads as a missing value but keeps its remaining time |
| PythonCache.GetManyIsTheGetLoop | python/src/openkeyv/wrappers/passthrough_cache/wrapper.py:61-85 | a batch read equals the loop of single reads, repeated keys included, in values and in the cache it leaves |
| PythonCache.FilledTtlIsExactIff | python/src/openkeyv/wrappers/passthrough_cache/wrapper.py:87-101 | a filled entry shows the primary's TTL at all later times if and only if the primary's remaining time was within the clamp at the fill |
| PythonCache.TtlIsExactIff | python/src/openkeyv/wrappers/passthrough_cache/wrapper.py:87-101 | an uncached TTL answer equals the primary's except for a null with an expiry; a cached one when the cached expiry is the primary's |
| PythonCache.BatchTtlDiffersIff | python/src/openkeyv/wrappers/passthrough_cache/wrapper.py:87-127 | single and batch TTL answers differ exactly for a live null with an expiry |
| PythonCache.InterleavedPutLeavesStaleValue | python/src/openkeyv/wrappers/passthrough_cache/wrapper.py:129-133 | a read between invalidation and write makes later reads wrong exactly when the put is accepted and an old value was there that differs from the new one; they then show the old one |
| PythonCacheImpl.PassthroughCacheWrapper.GetMany | python/src/openkeyv/wrappers/passthrough_cache/wrapper.py:61-85 | the dictionary loops return the specified values and fill the specified cache entries |
| PythonCacheImpl.PassthroughCacheWrapper.TtlMany | python/src/openkeyv/wrappers/passthrough_cache/wrapper.py:103-127 | likewise for values with TTLs |
| PythonCacheImpl.PassthroughCacheWrapper.Get | python/src/openkeyv/wrappers/passthrough_cache/wrapper.py:47-59 | the state and answer of a read are the specified ones |
| TtlClamps.ClampStaysInBounds | python/src/openkeyv/wrappers/ttl_clamp/wrapper.py:39-73 | a clamped TTL lies within the accepted bounds; only a TTL that is not positive is refused |
| TtlClamps.ClampIsNearest | python/src/openkeyv/wrappers/ttl_clamp/wrapper.py:65-73 | what is written is the accepted TTL closest to the one asked for, the default standing in for a missing one |
| TtlClamps.NeverLengthensIff | python/src/openkeyv/wrappers/ttl_clamp/wrapper.py:65-73 | clamping never lengthens a TTL exactly when the lower bound is at most one millisecond |
| RustCache.RunIsTransparent | rust/crates/openkeyv/src/wrapper/passthrough_cache.rs:39-186 | in every sequential run without TTLs over a primary that does not expire, conditional operations included, answers agree and the cache holds only the primary's values |
| RustCache.StalenessIsBounded | rust/crates/openkeyv/src/wrapper/passthrough_cache.rs:39-186 | in every sequential run, whatever TTLs are written, a value that is read was the primary's live value at some moment of the last cache TTL |
| RustCache.RunStaysCoherent | rust/crates/openkeyv/src/wrapper/passthrough_cache.rs:39-186 | in every sequential run, whatever TTLs are written, the primary ends as if called directly and every cached value is the one it holds |
| RustCache.ServeKeeps | rust/crates/openkeyv/src/wrapper/passthrough_cache.rs:39-186 | any operation leaves in the cache only what was there and the primary's live values, without the keys it writes |
| RustCache.OperationIsTransparent | rust/crates/openkeyv/src/wrapper/passthrough_cache.rs:39-186 | one operation without TTL answers as the primary would |
| RustCache.CacheIsExact | rust/crates/openkeyv/src/wrapper/passthrough_cache.rs:39-186 | the cache after every operation, key by key: written keys are dropped, keys asked for and missed are filled with a time of their own, nothing else changes |
| RustCache.ShownTtlIsExactIff | rust/crates/openkeyv/src/wrapper/passthrough_cache.rs:55-72 | the remaining time shown is the primary's exactly when the value is not cached or its cached copy ends with it |
| RustCache.MergedKeysArePrimaryKeys | rust/crates/openkeyv/src/wrapper/passthrough_cache.rs:188-211 | after every run, TTLs included, the merged listing of both complete listings shows exactly the keys the primary holds, or as many as the limit allows |
| RustCache.FillStaysRightIff | rust/crates/openkeyv/src/wrapper/passthrough_cache.rs:40-53 | a filled entry reads right at all later times exactly when its TTL ends no later than the primary's |
| RustCache.BadCacheTtlFailsReadsIff | rust/crates/openkeyv/src/wrapper/passthrough_cache.rs:29-52 | with an unusable cache TTL a read fails exactly on a cache miss the primary could serve |
| RustCache.RefusedPutIsHarmless | rust/crates/openkeyv/src/wrapper/passthrough_cache.rs:74-83 | a put the primary refuses changes no later read |
| RustCacheImpl.PassthroughCacheWrapper.GetMany | rust/crates/openkeyv/src/wrapper/passthrough_cache.rs:90-100 | the loop that stops at the first error gives the specified result and cache |
| RustCacheImpl.PassthroughCacheWrapper.PutMany | rust/crates/openkeyv/src/wrapper/passthrough_cache.rs:114-131 | a mismatch is reported before anything is invalidated; otherwise all keys are dropped and the primary written |
| RustCacheImpl.MergedKeys | rust/crates/openkeyv/src/wrapper/passthrough_cache.rs:194-210 | the loop with a seen set and an early stop gives the merged listing |
| Enumeration.MergedListingIsExact | rust/crates/openkeyv/src/wrapper/routing.rs:175-191 | a merged listing shows each element once, all of them or as many as the limit, and one for a limit of zero |
| Enumeration.PageCompleteIff | rust/crates/openkeyv/src/store/disk/store.rs:384-401 | a capped listing shows a given key in every order exactly when all keys fit |
| Routing.RoutingWrapper.GetMany | rust/crates/openkeyv/src/wrapper/routing.rs:66-90 | the batch read, handed on whole or taken apart, equals the loop of single reads, errors included |
| Routing.RoutingWrapper.TtlMany | rust/crates/openkeyv/src/wrapper/routing.rs:92-115 | likewise with TTLs |
| Routing.RoutingWrapper.PutMany | rust/crates/openkeyv/src/wrapper/routing.rs:117-147 | the batch write leaves the stores and the error that the loop of single writes leaves |
| Routing.RoutingWrapper.DeleteMany | rust/crates/openkeyv/src/wrapper/routing.rs:149-170 | the batch delete leaves the stores and the count that the loop of single deletes leaves |
| Routing.MergedKeys | rust/crates/openkeyv/src/wrapper/routing.rs:175-191 | the nested loops over all stores give the merged listing of their concatenation |
| DiskTreeNames.TreeNameBijection | rust/crates/openkeyv/src/store/disk/store.rs:17-70 | a tree name decodes to a collection if and only if it is the collection's encoding |
| DiskTreeNames.HexAt | rust/crates/openkeyv/src/store/disk/store.rs:23-31 | every byte is written as its two lower-case hexadecimal digits, the higher one first |
| DiskTreeNames.RefusedNameIff | rust/crates/openkeyv/src/store/disk/store.rs:35-70 | a prefixed name is refused exactly when it is no collection's name |
| DiskTreeNames.CanonicalTestIsRedundant | rust/crates/openkeyv/src/store/disk/store.rs:61-67 | the final comparison never fails once the other tests passed |
| DiskTreeNames.EncodeName | rust/crates/openkeyv/src/store/disk/store.rs:17-33 | the loop over the bytes writes the hexadecimal name |
| DiskTreeNames.DecodeName | rust/crates/openkeyv/src/store/disk/store.rs:35-70 | the loop over digit pairs gives the specified collection or error |
| DiskRuns.DiskRefinesMap | rust/crates/openkeyv/src/store/disk/store.rs:162-458 | after any run of writes, deletes, culls and destructions beside foreign trees, every read now or later gives what a map that is never culled gives, errors included, and maintenance succeeds exactly when no unreadable entry is left |
| DiskRuns.StepSimulates | rust/crates/openkeyv/src/store/disk/store.rs:208-458 | each operation keeps store and map reading the same at all later times |
| DiskRuns.WellFormedIff | rust/crates/openkeyv/src/store/disk/store.rs:362-458 | the checks of cull and destroy pass exactly when every entry written and not removed can be read |
| DiskRuns.MaintenanceWorks | rust/crates/openkeyv/src/store/disk/store.rs:362-458 | a cull leaves no expired row in an owned tree and a destruction no owned tree, when every entry can be read; otherwise neither changes anything |
| Disk.PutThenGet | rust/crates/openkeyv/src/store/disk/store.rs:162-231 | what is written is read back until it expires, or refused when its payload is not one its kind allows, and no other read changes |
| Disk.PutLivesUntil | rust/crates/openkeyv/src/store/disk/store.rs:208-231 | a put with a TTL is read back exactly until it has passed, one without for ever; which TTLs are refused |
| Disk.PutKeepsWellFormedIff | rust/crates/openkeyv/src/store/disk/store.rs:208-231 | a write keeps a database fit for maintenance exactly when the written entry can be read back |
| Disk.CullIsInvisible | rust/crates/openkeyv/src/store/disk/store.rs:362-379 | culling changes no read, then or later |
| Disk.CullRemovesExactlyTheExpired | rust/crates/openkeyv/src/store/disk/store.rs:362-379 | exactly the expired rows of owned trees go; foreign trees keep everything |
| Disk.DestroyedReadsEmpty | rust/crates/openkeyv/src/store/disk/store.rs:443-458 | after destroying every read finds nothing and foreign trees are as they were |
| Disk.DropIsolatesCollections | rust/crates/openkeyv/src/store/disk/store.rs:419-438 | dropping a collection's tree empties that collection and no other |
| DiskImpl.DiskStore.Cull | rust/crates/openkeyv/src/store/disk/store.rs:362-379 | culls if and only if everything owned is well-formed, otherwise changes nothing |
| DiskImpl.DiskStore.Destroy | rust/crates/openkeyv/src/store/disk/store.rs:443-458 | drops all owned trees if and only if everything owned is well-formed, otherwise changes nothing |
| DiskImpl.DiskStore.DestroyCollection | rust/crates/openkeyv/src/store/disk/store.rs:419-438 | drops one well-formed tree, reports a missing one, changes nothing on a malformed one |
| DiskImpl.DiskStore.ValidateTreeEntries | rust/crates/openkeyv/src/store/disk/store.rs:140-155 | succeeds exactly on well-formed rows and then lists exactly the expired ones |
| DiskImpl.DiskStore.OwnedTreeNames | rust/crates/openkeyv/src/store/disk/store.rs:120-130 | lists exactly the prefixed trees, or fails if one of their names is ill-formed |
| DuckDbRuns.DuckDbRefinesMap | rust/crates/openkeyv/src/store/duckdb/store.rs:333-941 | after any run of single and batch operations and culls every read gives what a map that drops nothing gives, errors included, and a batch read succeeds exactly when every entry asked for can be read |
| DuckDbRuns.StepSimulates | rust/crates/openkeyv/src/store/duckdb/store.rs:452-941 | each operation keeps table and map reading the same at all later times |
| DuckDbRuns.ExpiredRowsAreDropped | rust/crates/openkeyv/src/store/duckdb/store.rs:502-940 | a cull drops exactly the expired rows when those that are due can be read, a batch read those of its keys; a refusal drops nothing |
| DuckDb.ReadableRowIff | rust/crates/openkeyv/src/store/duckdb/store.rs:310-330 | a row reads as an entry if and only if it is the row that entry is written as, mirrored expiry included |
| DuckDb.PutLoopLastWins | rust/crates/openkeyv/src/store/duckdb/store.rs:749-818 | sequential puts leave the last row for every key, independently of any order, and fail only with the TTL |
| DuckDb.PutLivesUntil | rust/crates/openkeyv/src/store/duckdb/store.rs:452-500 | a put with a TTL is read back exactly until it has passed, one without for ever; which TTLs are refused; no other key changes |
| DuckDb.BatchLivesUntil | rust/crates/openkeyv/src/store/duckdb/store.rs:749-818 | the same for the last put for each key of a batch |
| DuckDb.GetLoopIsTheBatch | rust/crates/openkeyv/src/store/duckdb/store.rs:502-623 | single reads in sequence give the live values in request order and drop the expired rows among them |
| DuckDb.DeleteLoopCountsDistinct | rust/crates/openkeyv/src/store/duckdb/store.rs:821-845 | sequential deletes count every distinct present key once |
| DuckDb.DroppingIsInvisible | rust/crates/openkeyv/src/store/duckdb/store.rs:371-387 | dropping expired rows changes no read, then or later |
| DuckDb.PutsStayMirroredIff | rust/crates/openkeyv/src/store/duckdb/store.rs:782-811 | a batch of puts keeps every row readable exactly when the last value put for each key can be read |
| DuckDbImpl.DuckDbStore.GetMany | rust/crates/openkeyv/src/store/duckdb/store.rs:502-623 | the batch read equals the loop of single reads, or fails on an unreadable row and drops nothing |
| DuckDbImpl.DuckDbStore.PutMany | rust/crates/openkeyv/src/store/duckdb/store.rs:749-818 | the batch write equals the loop of single writes for every order of the hash map |
| DuckDbImpl.DuckDbStore.DeleteMany | rust/crates/openkeyv/src/store/duckdb/store.rs:821-845 | the batch delete equals the loop of single deletes, count included |
| DuckDbImpl.DuckDbStore.Cull | rust/crates/openkeyv/src/store/duckdb/store.rs:850-940 | drops exactly the expired rows, or nothing when a row that is due cannot be read |
| DuckDbImpl.DueIsExpired | rust/crates/openkeyv/src/store/duckdb/store.rs:852-889 | among readable rows the expiry column tells exactly which are expired |
| Json.ToJsonOkIff | rust/crates/openkeyv/src/value/json.rs:35-71 | a value converts exactly when it has no binary data, no non-finite float and no repeated key at any depth |
| Json.IsFiniteIff | rust/crates/openkeyv/src/value/json.rs:45-50 | a double is finite exactly when the eleven bits of its exponent are not all ones |
| Json.ObjectOrder | rust/crates/openkeyv/src/value/json.rs:59-68 | an object has the dictionary's entries, keys rising byte by byte in a library that sorts, in the dictionary's order in one that does not |
| Json.FromJsonOfToJson | rust/crates/openkeyv/src/value/json.rs:35-107 | what comes back is the value with small unsigned integers signed and dictionaries in the object's order |
| Json.ToJsonOfFromJson | rust/crates/openkeyv/src/value/json.rs:35-107 | every JSON tree survives the trip unchanged |
| Json.SameJsonIff | rust/crates/openkeyv/src/value/json.rs:35-71 | two values become the same JSON exactly when their normal forms are equal, and normal forms are fixed points |
| Json.ToJsonIsHoldable | rust/crates/openkeyv/src/value/json.rs:59-68 | objects that are built repeat no key and are in the library's order |
| JsonImpl.ToObject | rust/crates/openkeyv/src/value/json.rs:59-68 | the loop inserting into a map finds every repeated key and builds the specified object |
| Sanitize.TruncateToBytes | python/src/openkeyv/_utils/sanitize.py:78-106 | the binary search returns the longest prefix that fits |
| Sanitize.LongestFittingUnique | python/src/openkeyv/_utils/sanitize.py:78-106 | there is only one such prefix |
| Sanitize.SanitizeCharactersInString | python/src/openkeyv/_utils/sanitize.py:43-75 | the character loop turns every run of unwanted characters into one replacement |
| Sanitize.SanitizedIsClean | python/src/openkeyv/_utils/sanitize.py:43-75 | only allowed and replacement characters remain, clean strings are left alone, and what becomes of a string without allowed characters |
| Sanitize.SanitizingTwice | python/src/openkeyv/_utils/sanitize.py:43-75 | with an allowed replacement, sanitizing is idempotent |
| Sanitize.SanitizedShape | python/src/openkeyv/_utils/sanitize.py:110-193 | what comes out: as much of the cleaned string as there is room for, then separator and fragment; the fragment alone when there is no room; in the other modes the longest beginning that fits, or the string itself |
| Sanitize.SanitizedOkIff | python/src/openkeyv/_utils/sanitize.py:135-193 | which settings and strings are refused |
| Sanitize.EncodedLengthIs | python/src/openkeyv/_utils/sanitize.py:78-106 | lengths in bytes are those of the UTF-8 encoding |
| Sanitize.SanitizedFitsIff | python/src/openkeyv/_utils/sanitize.py:110-193 | exactly when a sanitized string is within its limit, for every accepted combination of settings |
| Sanitize.DefaultsAlwaysFit | python/src/openkeyv/_utils/sanitize.py:110-193 | with the default separator and up to 15 digits of hash it always is |
| Sanitize.SanitizedCanBeTooLong | python/src/openkeyv/_utils/sanitize.py:166-173 | an input for which it is not, by a long separator |
| Sanitize.NegativeFragmentIsTooLong | python/src/openkeyv/_utils/sanitize.py:144-148 | an input for which it is not, by a negative fragment length, whichever way lengths are counted |
| Sanitize.HashedFits | python/src/openkeyv/_utils/sanitize.py:197-227 | the result always fits, short values are left alone, long ones use the limit |
| Sanitize.HashedShape | python/src/openkeyv/_utils/sanitize.py:197-227 | a long value keeps as much of its beginning as leaves room for eight digits of its hash, which follow it |

## Left out

- Bindings, store factory, store handle and configuration files: plumbing.
- Redis, Valkey, Postgres, MongoDB, DynamoDB, S3, Vault, Firestore, OpenSearch, Elasticsearch, Aerospike and Windows Registry clients: network or system calls.
- Encryption, compression, prefix, read-only, logging, statistics, timeout, default-value and size-limit wrappers: forwarding or one-branch checks.
- FileTree store: its component codec repeats the disk store's.
- Python compound keys: the same layout as the Rust ones.
- Floating-point TTLs: TTLs are whole milliseconds, and the clock is read once per operation, so a delay inside one operation and the truncation of fractions are not modelled.
- I/O errors, and failures in the middle of the mutating phase of disk maintenance or of a SQL transaction.
- The end of a change stream when the store is dropped, and the time a record carries.
- MigrationConvergence.MigrationConverges: speaks of entries without expiry, because expiry is not a change and leaves no record, and of runs whose listings are shown in full; for a source left alone QuietMigrationExactIff covers the others. A lag error ends the run.
- MigrationImpl.CopySnapshot: the source stands still and the clock does not move while it runs; the interleaved copy is the step system's.
- MemoryMutations.MutationsAreCovered: without cull and the eviction of expired entries, since entries here do not expire; a compare-and-delete that applies is a delete.
- RustCache.RunIsTransparent: sequential runs without TTLs; with them StalenessIsBounded, RunStaysCoherent and FillStaysRightIff hold.
- RustCache.StalenessIsBounded: without a cache TTL there is no bound.
- RustCache.MergedKeysArePrimaryKeys: asks both tiers for complete listings; stores that cut listings off at 10,000 names show less.
- SingleCollection.CollectionsAreExact: asks the inner store for a complete listing, as does KeysAreExact; PagedKeysAreExactIff says when keys survive a cut-off.
- PythonCache.CacheIsTransparent: sequential runs; InterleavedPutLeavesStaleValue shows what concurrency does.
- KeyValueLaws.PutThenRead: times are unbounded in the store contract, so only a TTL that is not positive is refused; the last instant is in Entries, Disk and DuckDb.
- Routing.RoutingWrapper.PutMany: the routed stores are different objects; two handles on one store are not modelled, nor is routing by collection name, which forwards.
- DuckDbImpl.DuckDbStore.GetMany: its twin with TTLs is not repeated; SQL and entry timestamps agree to the millisecond.
- Disk.PutThenGet: reading a collection for the first time creates an empty tree, which no read can tell from a missing one, so reads leave the trees alone here.
- JsonImpl.ToObject: the JSON library's number parser is not modelled; numbers are the three forms it holds.
- Sanitize.SanitizedFitsIff: the hash is an arbitrary digest of 64 ASCII characters.
- Running out of memory or stack on deeply nested values.
