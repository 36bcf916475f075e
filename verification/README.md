# Verified models of the Stellar Go SDK core

This project models the parts of the Stellar Go SDK where an efficient or stateful form has to agree
with a simple specification, and proves that it does. Everything is Dafny 4.11; the command
`dafny verify dfyconfig.toml` checks all of it.

| modules | what they cover |
|---|---|
| `Common` | results, byte strings, big-endian words |
| `XdrSchema`, `XdrMinSize`, `XdrViews`, `XdrViewProofs`, `XdrAccess` | the XDR view compiler: for any schema the generator accepts, the meaning of the code it emits, measured against an encoder of RFC 4506 |
| `LedgerKeys`, `BucketList`, `BucketListProofs`, `BucketListExact` | compressed ledger keys, and the newest-to-oldest bucket stream against the oldest-to-newest replay, with the exact condition for their agreement |
| `BucketStream`, `ReaderProtocol`, `ReaderOutcome`, `CheckpointReader`, `BucketReader` | framed reads with retries and a spliced hash, the producer/consumer protocol and what each of its calls answers, and all of it put together: from a trusted header to what a consumer has received at io.EOF |
| `Changes`, `RawHistory`, `ChangeReader`, `Compactor`, `SquashedPost`, `Pipeline` | the ledger change pipeline: pairing and sorting, what raw meta says happened, the four-phase reader, the compactor, and from raw meta to the store |
| `Price`, `ContinuedFraction` | 128-bit rounding, the offer conversion, and the rational approximation of prices |
| `StrKey` | the StrKey codec |
| `TxHash` | transaction hashes from wire bytes and from decoded envelopes |
| `Challenge`, `GreedyMatching` | signature matching for SEP-10 challenges, and exactly when the greedy search cannot go wrong |
| `Checkpoints`, `ArchiveScan`, `ArchiveMirror`, `MirrorPromise` | checkpoint arithmetic, the two archive scans, the mirror's worker protocol, and exactly what its result is worth |

Conventions. Code that computes is modelled by functions; loops and objects are modelled by methods and
classes whose `ensures` tie them to those functions, and the properties are lemmas about the functions.
Concurrency is a state machine, and results about it hold for every schedule and every failure of the
outside world. Fixed-width integers wrap where the Go code wraps. SHA-256, CRC16, ed25519 verification
and XDR marshalling of ledger keys are arbitrary functions. Storage, context cancellation and the
answers of backends are arbitrary inputs.

Where the code falls short of a promise, a lemma shows it on a concrete input, and another gives the
exact condition under which the promise is met:

- Price parsing is documented as the best rational approximation. `ContinuedFraction.NotBestWithinInt32`
  shows on "1.0000000004" that it is not the best within int32; `Approximate`, `Parse` and `BestExactly` say
  exactly when it is, and that it is always the best among denominators up to its own. The condition is an
  inequality on the last two convergents, so checking it takes the expansion itself.
- Bucket streaming needs a rule about INITENTRY records: `BucketListProofs.InitRuleNeeded`. The rule, which
  is weaker than CAP-20 (`BucketListExact.RuleIsWeaker`), is exact: `BucketListExact.StreamExactly`.
- The compactor with suppression loses the effect on a key restored and removed again that the store still
  holds: `Compactor.SuppressionCanLose`; exactly then: `Compactor.CompactionPreservesEffect`.
- The fast archive scan never withdraws a note: `ArchiveScan.StaleNoteKept`; the scans agree exactly when
  nothing stale was noted: `ArchiveScan.ScansAgree`.
- Checkpoint arithmetic goes wrong at the last ledger numbers: `Checkpoints.WrongAtTheEnd`; exactly when the
  frequency does not divide 2^32, or no checkpoint is left: `Checkpoints.IsCheckpointExact`,
  `PrevCheckpointExact`, `MakeRangeCovers`, `CheckpointRangesPartition`.
- Mirror returns nil having copied nothing with zero workers (`MirrorPromise.NoWorkersNoMirror`), and with
  files missing when its 32-bit error count wraps (`ErrorsCanWrap`). Its nil can be trusted exactly when
  there is nothing to lose, or a worker and few enough checkpoints and buckets: `MirrorPromise.MirrorExactly`.
  Archives of the default frequency are within that bound up to ledger 3926827199: `ArchivesFit`.
- The scans count errors in 32 bits too: their contracts say that they succeed exactly when the count is a
  multiple of 2^32, and what was noted is stated for a count of zero.
- Greedy signature matching can leave a signature over although a matching exists: `Challenge.GreedyCanMiss`.
  It uses every signature in every order of signers and signatures exactly when no signature's signers could
  all sign elsewhere: `GreedyMatching.AlwaysUsesAllExactly`. Whenever a signature fits at most one key,
  verification is complete: `Challenge.VerifyExactly`.
- Signer weights can wrap in int32: `Challenge.WeightsCanWrap`; the verdict is right for every threshold
  exactly under `Challenge.WeightVerdict`.
- StrKey encoding accepts payloads that decoding refuses: `StrKey.EmptyAccountEncodes`; exactly the illegal
  ones: `StrKey.EncodeThenDecode`.

## Model

| member | source | states |
|---|---|---|
| Common.BigEndian | xdrgen/view_support.go.txt:190-306 | the most significant byte of a word comes first |
| XdrSchema.ScalarRoundTrip | xdrgen/view_support.go.txt:190-306 | decoding the encoding of any in-range scalar, with any bytes after it, gives the scalar back |
| XdrSchema.ScalarInverse | xdrgen/view_support.go.txt:190-306 | any word a scalar view accepts is the encoding of the value it yields |
| XdrSchema.ScalarBytes | xdrgen/view_support.go.txt:190-306 | a scalar is sent in two's complement, the most significant byte first |
| XdrSchema.EncodeAligned | xdrgen/view_minsize.go:8-31 | every encoding of every value is a whole number of four-byte blocks |
| XdrSchema.EncodePrefixFree | xdrgen/view_emitters.go:46-149 | encodings of a type are prefix-free: a buffer determines the value and the bytes left over |
| XdrMinSize.FixedSizeExact | xdrgen/view_emitters.go:38-45 | a type with a recorded fixed size encodes every value in exactly that many bytes |
| XdrMinSize.MinWireSizeLowerBound | xdrgen/view_minsize.go:8-141 | the minimum wire size, in wrapping uint32 arithmetic and on cyclic schemas, never exceeds the encoded length of any value, whatever types are being visited |
| XdrMinSize.ElemsAtLeastCount | xdrgen/view_minsize.go:131-141 | n elements take at least n times the element width used by the count check |
| XdrMinSize.MinIsAttained | xdrgen/view_minsize.go:8-31 | the empty opaque, optional and variable array take exactly the minimum |
| XdrMinSize.MinOfUnion | xdrgen/view_minsize.go:60-129 | a union's minimum is its discriminant and the least any arm takes |
| XdrMinSize.ElemWidthIsMinimum | xdrgen/view_minsize.go:131-141 | on accepted arrays the divisor of the count check is the minimum itself |
| XdrViews.DivisionBound | xdrgen/view_support.go.txt:378-401 | the division in the count check rejects exactly the counts whose elements cannot fit |
| XdrViews.SizeWithin | xdrgen/view_emitters.go:46-80 | on every buffer, what size() measures lies within the buffer, but for fixed sizes and optionals ending in one |
| XdrViews.SizeBeyond | xdrgen/view_emitters.go:46-80 | an optional integer of which only the flag is there measures eight bytes of four |
| XdrViewProofs.ValidImpliesSize | xdrgen/view_emitters.go:46-149 | on every buffer, whatever valid() accepts, size() measures the same; the fixed-size and void-case-0 shortcuts change nothing |
| XdrViewProofs.ShortcutsAgree | xdrgen/view_plan.go:349-365 | on any field valid() accepts, the void-case-0 and fixed-size steps of a traversal advance exactly as size() would |
| XdrViewProofs.ValidOnEncode | xdrgen/view_emitters.go:139-149 | on encode(v) followed by anything, valid() returns the length of encode(v) if v fits the depth limit of 1500, and the depth error otherwise |
| XdrViewProofs.SizeOnEncode | xdrgen/view_emitters.go:46-80 | on encode(v) followed by anything, size() returns the length of encode(v) for every v within the depth limit |
| XdrViewProofs.ValidIsEncoding | xdrgen/view_union.go:110-132 | any buffer valid() accepts begins with the encoding of a well-typed value, of the length returned |
| XdrViewProofs.ValidExactly | xdrgen/view_support.go.txt:33-37 | full validation passes if and only if the buffer starts with the encoding of a value within the depth limit |
| XdrViewProofs.CarriesUnique | xdrgen/view_support.go.txt:33-37 | that value is unique |
| XdrAccess.Traverse | xdrgen/view_emitters.go:46-80 | the emitted straight-line traversal with its shortcuts computes the specified offsets and errors |
| XdrAccess.StructSize | xdrgen/view_struct.go:4-61 | the emitted struct size() equals the specification at every depth |
| XdrAccess.Field | xdrgen/view_struct.go:4-61 | the emitted field accessor equals its specification |
| XdrAccess.LocateFields | xdrgen/view_emitters.go:93-137 | the emitted locate helper, with constant offsets for fixed-size structs, equals the general walk |
| XdrAccess.ArrayTraverse | xdrgen/view_support.go.txt:403-414 | the loop adds up the element extents and fails where one fails or leaves the buffer |
| XdrAccess.StepsIsSizeElems | xdrgen/view_support.go.txt:403-414 | with the element size as its callback, arrayTraverse is the element part of the array's size() |
| XdrAccess.ArrayAll | xdrgen/view_emitters.go:184-400 | the All() loop returns the specified cuts |
| XdrAccess.RawOnEncode | xdrgen/view_support.go.txt:38-43 | Raw() of a buffer starting with encode(v) is exactly encode(v) |
| XdrAccess.RawIsWhole | xdrgen/view_support.go.txt:38-43 | on every buffer, Raw() returns r if and only if the buffer begins with r and size() measures its length |
| XdrAccess.ArmOnEncode | xdrgen/view_union.go:4-58 | a union arm accessor lands on the arm's encoding when its case is selected, and fails otherwise |
| XdrAccess.FieldOnEncode | xdrgen/view_struct.go:4-61 | each field accessor starts exactly at the field's encoding |
| XdrAccess.FieldsBundleOnEncode | xdrgen/view_struct.go:62-115 | Fields() cuts encode(v) into exactly the field encodings, in order |
| XdrAccess.CountOnEncode | xdrgen/view_support.go.txt:359-401 | the count checks never reject a well-formed array and return its length |
| XdrAccess.AllOnEncode | xdrgen/view_emitters.go:184-400 | All() returns exactly the element encodings of any array value |
| XdrAccess.AtOnEncode | xdrgen/view_emitters.go:184-400 | At(i) starts at the i-th element's encoding, and fails for every index out of range |
| LedgerKeys.TrimRightZeros | xdr/trust_line_asset.go:45-56 | the scan keeps exactly the bytes before the trailing zeros |
| LedgerKeys.EncodingBuffer.LedgerKeyCompressEncodeTo | xdr/ledger_key.go:213-268 | the encoder appends the compressed form of the key, field by field, to what the buffer held |
| LedgerKeys.EncodingBuffer.AssetTrustlineCompressEncodeTo | xdr/trust_line_asset.go:58-84 | likewise for trustline assets |
| LedgerKeys.EncodingBuffer.AccountIdCompressEncodeTo | xdr/account_id.go:61-72 | likewise for account ids |
| LedgerKeys.CompressExact | xdr/ledger_key.go:213-268 | two keys have the same compressed form if and only if they are the same key, offers compared by id and data names up to trailing NULs |
| LedgerKeys.AssetCompressInjective | xdr/trust_line_asset.go:58-84 | the compressed asset determines the asset although codes are trimmed |
| LedgerKeys.CompressSeparates | xdr/ledger_key.go:213-268 | on keys with one seller per offer id and no trailing NULs the form separates keys completely |
| BucketList.CheckpointChangeReader.Take | ingest/checkpoint_change_reader.go:423-617 | one record of a live or hot-archive bucket updates the visited set, yields an entry and fails exactly as the two record functions say |
| BucketList.CheckpointChangeReader.StreamBucket | ingest/checkpoint_change_reader.go:423-617 | one pass over a live or hot-archive bucket updates the visited set, yields entries and fails exactly as specified record by record |
| BucketListProofs.StepIsLawful | ingest/checkpoint_change_reader.go:515-617 | each record step is one of the moves the invariant allows, for both list types |
| BucketListProofs.ReplayIsNewest | ingest/checkpoint_change_reader.go:244-266 | replaying oldest to newest leaves at each key what its newest record says |
| BucketListProofs.ListKeepsInv | ingest/checkpoint_change_reader.go:289-304 | the relation between yielded entries, visited keys and newest records is kept by every bucket of the list |
| BucketListProofs.StreamEqualsReplay | ingest/checkpoint_change_reader.go:244-304 | for every list that meets CAP-20, key uniqueness per bucket and id non-reuse, streaming newest to oldest raises no error and yields exactly the replay's entries, each key once, for no filter or any key-only filter |
| BucketListProofs.CanonicalSeparates | xdr/ledger_key.go:213-268 | real ledger keys meet the separation the theorem asks for |
| BucketListProofs.ErrorExactly | ingest/checkpoint_change_reader.go:405-421 | a bucket is read without error if and only if its metadata and INITENTRY records are where they may be |
| BucketListProofs.YieldedPass | ingest/checkpoint_change_reader.go:423-617 | only entries that pass the filter are yielded, whatever the filter looks at |
| BucketListProofs.InitRuleNeeded | ingest/checkpoint_change_reader.go:244-266 | without CAP-20 the stream yields a key twice |
| BucketListExact.StreamExactly | ingest/checkpoint_change_reader.go:244-304 | for readable buckets with unique keys the stream raises no error, and agrees with the replay, each key once, if and only if every INITENTRY that is the newest record of its key or creates a never-reused id has a DEADENTRY or nothing behind it; the hot archive always agrees |
| BucketListExact.ListAt | ingest/checkpoint_change_reader.go:423-617 | what the stream yields of a key is what a one-bit machine yields on the records of that key |
| BucketListExact.SilentRun | ingest/checkpoint_change_reader.go:560-611 | from any point on, a key yields nothing more exactly when the rule holds behind it |
| BucketListExact.CapRuleSuffices | ingest/checkpoint_change_reader.go:244-266 | CAP-20 implies the exact rule |
| BucketListExact.RuleIsWeaker | ingest/checkpoint_change_reader.go:244-266 | a list that breaks CAP-20 and still agrees |
| BucketStream.RecordIsFrame | xdr/xdrstream.go:202-246 | a record returned is exactly the frame at the cursor; an end of file is the end of the bytes or an empty frame |
| BucketStream.FrameHeader | xdr/xdrstream.go:202-246 | a frame starts with the last-fragment bit over its payload's length |
| BucketStream.Stream.ReadOne | xdr/xdrstream.go:202-246 | remembers the boundary, hashes exactly the bytes consumed, and returns what the frame says |
| BucketStream.Stream.ResumeFrom | xdr/xdrstream.go:268-278 | continues at the failed record's boundary with the hash state of that boundary |
| BucketStream.Stream.ValidateHash | xdr/xdrstream.go:145-172 | absorbs what the open or closed source still delivers, and accepts exactly when that works and the digest of everything absorbed is the expected one |
| BucketStream.ReadBucketRecord | ingest/checkpoint_change_reader.go:356-399 | whatever reopened streams serve, success absorbs exactly the frame of the record returned; at most three reopenings, and the first of them that has an answer at the boundary gives it; with equal contents the absorbed bytes are a prefix of the bucket; a read that would not fail is not retried |
| BucketStream.ReadRecords | ingest/checkpoint_change_reader.go:423-617 | over a whole bucket the hash absorbs the frames of the records returned, in order, and nothing else but the empty frame at the end |
| BucketStream.FramesUnique | xdr/xdrstream.go:202-246 | the bytes of a bucket determine its records, so no record is skipped or repeated by retries |
| ReaderProtocol.StepKeepsInv | ingest/checkpoint_change_reader.go:267-350 | every step of producer, consumer, Close and parent context keeps the protocol invariant |
| ReaderProtocol.EofMeansComplete | ingest/checkpoint_change_reader.go:698-713 | over every interleaving, io.EOF is answered only if every bucket ended with the verdict that its check passed and all entries had been returned in order |
| ReaderProtocol.CancelledCallsFail | ingest/checkpoint_change_reader.go:698-728 | a call begun after cancellation returns the cause, always the first one; no entry follows a failure or io.EOF |
| ReaderProtocol.DeliveredInOrder | ingest/checkpoint_change_reader.go:622-671 | at every moment the entries returned are a prefix of those sent, which are a prefix of the list's |
| ReaderProtocol.PendingCallMoves | ingest/checkpoint_change_reader.go:267-350 | while a call is in progress the reader can always move by itself: no deadlock |
| ReaderProtocol.CallsAreAnswered | ingest/checkpoint_change_reader.go:698-713 | left to itself the reader comes to rest after a bounded number of steps, and the call in progress has then been answered |
| ReaderProtocol.CancelledProducerMoves | ingest/checkpoint_change_reader.go:335-350 | after a cancel the producer can always move on to its end, whether or not anybody reads |
| ReaderProtocol.CancelledCallCanFail | ingest/checkpoint_change_reader.go:689-713 | a waiting call can answer the cause at once and leave what is buffered |
| ReaderOutcome.CauseIsFirst | ingest/checkpoint_change_reader.go:267-350 | over every run the reader is cancelled exactly when a cancelling step was taken, and the cause is that of the first: a Close, the parent context, setup's own error, or the error of the first bucket not to pass, with everything before it sent |
| ReaderOutcome.FailuresAreTrue | ingest/checkpoint_change_reader.go:698-728 | every failed call names the cause that happened |
| ReaderOutcome.EntriesAreNumbered | ingest/checkpoint_change_reader.go:675-713 | over every run the k-th call returns, if an entry, the k-th of the list, and all before it returned entries |
| ReaderOutcome.DeliversEverything | ingest/checkpoint_change_reader.go:675-713 | with nobody closing the reader or ending its context, the k-th call of a list that passes returns its k-th entry, and io.EOF after the last; a list that does not pass ends in its own fault |
| ReaderOutcome.NeverFarAhead | ingest/checkpoint_change_reader.go:197 | at most 50000 entries are buffered, so that the producer is at most 50001 ahead |
| CheckpointReader.PlanIsStream | ingest/checkpoint_change_reader.go:267-350 | bucket by bucket the producer sends exactly what streaming the list yields |
| CheckpointReader.EofDeliversReplay | ingest/checkpoint_change_reader.go:244-350 | over every interleaving, for buckets of the records read, a consumer that reaches io.EOF has received exactly the replayed state, each key once |
| BucketReader.StreamBucket | ingest/checkpoint_change_reader.go:622-671 | opens, reads through retries, streams and checks a bucket over an archive that may serve anything: a verdict of success means the records are those of content with the expected digest, and a good archive gets that verdict |
| BucketReader.StreamBucketList | ingest/checkpoint_change_reader.go:335-349 | streams the buckets in order until one fails; if none does, all were streamed with one visited set and are committed to by their hashes; and none fails if the archive serves every bucket without errors and the list has no record error |
| BucketReader.HoldsUnique | xdr/xdrstream.go:202-246 | a content holds one sequence of records, up to its end or first empty frame |
| BucketReader.EofDeliversCommitted | ingest/checkpoint_change_reader.go:211-222 | with validation on, over every interleaving and whatever the openings served, io.EOF means the consumer has received exactly the replay of the committed buckets, each key once |
| BucketReader.VerifyBucketList | ingest/checkpoint_change_reader.go:223-238 | accepts exactly the states whose bucket list hash is the expected one |
| BucketReader.LevelDigestAt | historyarchive/history_archive_state.go:159-179 | the list's hash covers the levels in order, and of each level curr before snap |
| BucketReader.HashWidth | historyarchive/history_archive_state.go:159-179 | from protocol 23 on the hash is the digest of the live and the hot archive list's hashes, in that order |
| BucketReader.CollectBuckets | ingest/checkpoint_change_reader.go:289-304 | the loop lists the specified bucket hashes |
| BucketReader.BucketsAreSlots | ingest/checkpoint_change_reader.go:289-304 | these are exactly the non-zero hashes among curr and snap of level 0, curr and snap of level 1, and so on, in that order |
| BucketReader.HeaderDetermines | historyarchive/history_archive_state.go:159-179 | the bucket list hash determines the bucket hashes of the lists it covers, and the unhashed protocol flag, unless a live list has two levels |
| BucketReader.TrustedHeader | ingest/checkpoint_change_reader.go:211-238 | from a verified bucket list hash to io.EOF: the consumer has the state of the bucket list the header was made from, read from curr of level 0 as the newest to snap of the last level as the oldest |
| Changes.PairLoop | ingest/change.go:143-203 | the loop makes the specified pairs and panics if and only if there is an unknown type, or an update or removal that does not directly follow a state or restoration |
| Changes.LessMeans | ingest/change.go:232-235 | keys compare as bytes: by the first byte that differs, or a proper prefix first |
| Changes.PairingKeepsMeaning | ingest/change.go:126-203 | applying the pairs of consistent meta has the effect of applying the raw changes in order |
| Changes.SortableChanges.Swap | ingest/change.go:237-240 | exchanges two changes together with their keys |
| Changes.SortableChanges.Sort | ingest/change.go:242-250 | leaves the slices ordered by key with the changes of each key in their old order |
| Changes.StableSortUnique | ingest/change.go:242-250 | there is only one such arrangement, so the sorting algorithm does not matter |
| Changes.StableSortPermutes | ingest/change.go:242-250 | it is a permutation |
| Changes.StableSortKeepsMeaning | ingest/change.go:242-250 | sorting stably by key changes nothing about the effect, for any marshalling of keys |
| Changes.GetChangesFromLedgerEntryChanges | ingest/change.go:143-203 | pairs and sorts, or panics exactly on the malformed lists |
| Changes.GroupingKeepsMeaning | ingest/change.go:126-250 | applying the result gives the state of applying the raw list in order |
| Changes.GroupingUnique | ingest/change.go:242-250 | the result is determined by the raw list |
| Changes.StableSortKeepsHistory | ingest/change.go:242-250 | a stable sort of a history that is legal step by step is legal step by step, with the same final ledger |
| Changes.GroupingKeepsHistory | ingest/change.go:143-250 | so the compactor accepts the sorted changes wherever it accepts the pairs |
| RawHistory.PairIsBeforeAndAfter | ingest/change.go:126-203 | from meta whose states are the entries the ledger then held, every pair holds as Pre its key's entry from just before the raw change and as Post the one from just after, and has the kind of that difference |
| RawHistory.PairsInOrder | ingest/change.go:143-203 | the pairs are those of the changes other than states, one each, in order |
| RawHistory.PairsAreLegal | ingest/change.go:126-203 | they are a history the compactor accepts, and lead where the raw changes lead |
| ChangeReader.TransactionReader.StoreTransactions | ingest/ledger_transaction_reader.go:125-150 | the table maps exactly the hashes of the ledger's envelopes to envelopes with that hash, and fails exactly on an unhashable envelope or too old meta |
| ChangeReader.TransactionReader.Read | ingest/ledger_transaction_reader.go:76-106 | returns the next meta with an envelope of its hash, or the unknown-hash error, advancing either way; then EOF |
| ChangeReader.TransactionReader.Seek | ingest/ledger_transaction_reader.go:114-121 | moves the cursor for indices in range and leaves it alone otherwise |
| ChangeReader.TransactionReader.Rewind | ingest/ledger_transaction_reader.go:109-111 | leaves the cursor at the first transaction, on empty ledgers too |
| ChangeReader.LedgerChangeReader.Read | ingest/ledger_change_reader.go:134-205 | terminates; each call delivers the head of the outcomes to come, errors included, and EOF for ever after the last |
| ChangeReader.LedgerChangeReader.constructor | ingest/ledger_change_reader.go:67-77 | the outcomes to come are all fee, then meta, then post-apply, then upgrade changes |
| ChangeReader.ErrorFreeYieldsChanges | ingest/ledger_change_reader.go:134-205 | an error-free ledger yields exactly its changes in that order and no error |
| ChangeReader.CompactingReader.Compact | ingest/ledger_change_reader.go:86-103 | drains the input into a compactor; lists the resulting cache, or stops at the first failure of either |
| ChangeReader.CompactingReader.Read | ingest/ledger_change_reader.go:105-117 | compacts once, then delivers the compacted changes one by one and EOF |
| ChangeReader.CompactedLedger | ingest/ledger_change_reader.go:86-117 | on an error-free ledger with a legal history the compacting reader does not fail, and applying its changes once gives the effect of all of them; with suppression, exactly when the store held no key restored and removed again |
| Pipeline.GroupsKeepHistory | ingest/change.go:143-250 | sorting every group of a ledger on its own keeps a legal history of the whole ledger legal, with the same outcome |
| Pipeline.LedgerGrouped | ingest/ledger_transaction.go:50-160 | the reader's changes are the sorted groups of fees, metas, refunds and upgrades, in that order |
| Pipeline.PairedLedgerCompacted | ingest/ledger_change_reader.go:86-205 | if the pairs of a ledger are a legal history, reading, sorting and compacting it has the effect of that history |
| Pipeline.GroupsAreLegal | ingest/change.go:126-203 | the pairs of raw meta that tells what happened to the ledger, group by group, are a legal history |
| Pipeline.RawLedgerCompacted | ingest/ledger_change_reader.go:86-205 | from raw meta to the store: if the raw changes tell what happened to the ledger, the compacting reader does not fail, and applying its result leaves every key as the raw changes left it, TTL entries at their highest; with suppression, if and only if the store held no key restored and removed again |
| Compactor.ChangeCompactor.AddChange | ingest/change_compactor.go:97-112 | the cache moves as the transition tables say and stays as it was on error |
| Compactor.ChangeCompactor.AddCreated | ingest/change_compactor.go:114-151 | the CREATED table |
| Compactor.ChangeCompactor.AddUpdated | ingest/change_compactor.go:167-217 | the UPDATED table, TTL entries keeping the maximum |
| Compactor.ChangeCompactor.AddRemoved | ingest/change_compactor.go:219-268 | the REMOVED table, with and without suppression |
| Compactor.ChangeCompactor.AddRestored | ingest/change_compactor.go:270-287 | the RESTORED table |
| Compactor.ChangeCompactor.GetChanges | ingest/change_compactor.go:289-298 | lists the cache, one change per key, in some order |
| Compactor.Add | ingest/change_compactor.go:97-287 | every transition keeps one well-formed change per key |
| Compactor.AddKeepsInv | ingest/change_compactor.go:97-287 | a legal change is never refused and the squashed change keeps relating the start to now |
| Compactor.AddAllKeepsInv | ingest/change_compactor.go:97-287 | the same over any legal sequence |
| Compactor.CompactionPreservesEffect | ingest/change_compactor.go:10-67 | applying the results once in any order equals applying all changes in turn; with suppression if and only if the store held none of the keys restored and removed again |
| Compactor.ResultsCarryPre | ingest/change_compactor.go:10-67 | UPDATED and REMOVED results carry the entry from before the ledger, unless the key was restored |
| Compactor.AddRefusesExactly | ingest/change_compactor.go:97-287 | what is refused, and as what: creating a touched key that is live, updating or removing one that is gone, restoring one in the cache |
| SquashedPost.CachedPostIsFinal | ingest/change_compactor.go:166-217 | the Post of a squashed change is the last version of the entry, and of a TTL entry that version with the highest LiveUntilLedgerSeq since it was last created or restored: at least every one, and equal to one |
| SquashedPost.FinalUnique | ingest/change_compactor.go:166-217 | that entry is determined by the changes |
| Compactor.SuppressionCanLose | ingest/change_compactor.go:10-67 | a store that holds a key restored and removed again keeps it under suppression |
| Price.MulFractionRoundDown | price/main.go:184-206 | the exact floor of x·n/d, overflow exactly when it exceeds int64, and the error cases in order |
| Price.MulFractionRoundUp | price/main.go:208-232 | the exact ceiling, likewise |
| Price.CorrectionBounds | price/main.go:136-182 | the rounding correction exists for 0 < n <= d, lies within the offer, and keeps its value in whole buying units |
| Price.ConvertIsExact | price/main.go:136-182 | takes what is needed, or what the offer can sell if less: its amount for n > d, and otherwise exactly ceil(floor(amount·n/d)·d/n); pays the exact ceiling, never overflows for n <= d and otherwise exactly when the payment does not fit |
| Price.ConvertRefuses | price/main.go:156-182 | every other input is refused, with a division by zero exactly when the zero divisor is met first |
| Price.CorrectionIdempotent | price/main.go:136-182 | correcting a corrected offer changes nothing |
| ContinuedFraction.NextKeepsInv | price/main.go:83-114 | each step keeps the determinant ±1 and the price as a combination of the last two convergents, with a falling denominator |
| ContinuedFraction.Approximate | price/main.go:55-121 | succeeds exactly for 1/MaxInt32 <= x <= MaxInt32; N and D are coprime int32 within 1/D² of x, the best for denominators up to D, x itself whenever x fits, and best within int32 exactly when the loop ended balanced |
| ContinuedFraction.BestExactly | price/main.go:36-121 | the condition for the best approximation within int32, both ways |
| ContinuedFraction.NotBestWithinInt32 | price/main.go:36-54 | the string 1.0000000004 is the price 10000000004/10000000000, which is answered by 1/1 although a nearer int32 fraction exists |
| ContinuedFraction.Parse | price/main.go:36-121 | the errors for signs, formats and unreadable decimals, and for every accepted string all that Approximate says of its value |
| ContinuedFraction.DecimalValue | price/main.go:55-66 | digits before and after a dot mean the whole part and the fraction over a power of ten |
| StrKey.UnbaseBase | strkey/main.go:66-67 | decoding base32 of any bytes gives them back, with clean unused bits |
| StrKey.BaseUnbase | strkey/main.go:296-339 | encoding what a canonical string decodes to gives the string back |
| StrKey.Alphabet | strkey/main.go:66-67 | the letters of RFC 4648, in order |
| StrKey.TailIsLowBits | strkey/main.go:319-332 | the mask test on the last character holds exactly when the unused bits are zero |
| StrKey.CheckSignedPayloadScan | strkey/main.go:178-197 | accepts exactly key, length 1 to 64, content and zero padding laid end to end |
| StrKey.PayloadExactly | strkey/main.go:151-171 | checkPayloadLength accepts exactly the layouts SEP-23 prescribes, all of which fit the maximum size |
| StrKey.DecodeStringScan | strkey/main.go:296-339 | the scanning decoder equals its specification, and what it accepts re-encodes to the input |
| StrKey.DecodeStringExactly | strkey/main.go:296-339 | decodeString accepts exactly the encodings of 3 to 103 bytes and inverts them |
| StrKey.DecodeAnyExactly | strkey/main.go:72-101 | DecodeAny returns (v, p) if and only if p is a legal payload of v and Encode(v, p) is the string, for any checksum |
| StrKey.PackLayout | strkey/main.go:210-241 | version byte, payload and the checksum with its low byte first |
| StrKey.DecodeIsDecodeAny | strkey/main.go:107-145 | Decode accepts exactly what DecodeAny accepts with the expected version |
| StrKey.EncodeThenDecode | strkey/main.go:210-241 | an encoded legal payload decodes to itself; an encoded illegal one does not decode |
| StrKey.EmptyAccountEncodes | strkey/main.go:210-241 | an account id without payload encodes and does not decode |
| StrKey.KeyLetter | strkey/main.go:20-52 | encoded keys of all ten kinds begin with the letter of their kind, whose index is the high five bits of the version byte, the low three being zero |
| TxHash.V0Conversion | network/main.go:101-117 | encoding the V1 conversion of any V0 transaction gives four zero bytes and the V0 encoding |
| TxHash.ConditionsEncode | xdr/preconditions.go:5-12 | preconditions made of optional time bounds encode as the optional time bounds |
| TxHash.PayloadEncodes | network/main.go:128-148 | the bytes the decoding path hashes: network id, tag and transaction, for all three envelope types |
| TxHash.PreimageTag | network/main.go:101-148 | the preimage is network id, then 0 0 0 2 for both transaction envelopes or 0 0 0 5 for fee bumps |
| TxHash.TransactionViewHasher.Sum | network/transaction_view.go:52-62 | the digest is of network id, tag and parts whatever earlier calls left in the reused buffers |
| TxHash.TransactionViewHasher.Hash | network/transaction_view.go:76-103 | the object computes the specified view hash, errors included |
| TxHash.PartsOfEncoding | network/transaction_view.go:86-101 | on an encoded envelope the view slices are exactly the transaction's encoding, with the key-type prefix for V0 |
| TxHash.ViewHashIsDecodedHash | network/transaction_view.go:64-103 | hashing wire bytes equals hashing the decoded envelope, for every envelope, trailing bytes and passphrase |
| TxHash.ValidBytesHash | network/transaction_view.go:64-103 | on bytes that pass full validation the view hasher cannot fail and gives the hash of the one envelope they carry |
| Challenge.FindSigners | txnbuild/transaction.go:1451-1491 | the nested loops compute the specified greedy matching and list, or fail on an unparsable signer |
| Challenge.MatchSigners | txnbuild/transaction.go:1458-1480 | the signers that consume a signature are those of the specified picks |
| Challenge.Consume | txnbuild/transaction.go:1466-1479 | the first unused signature that fits, or none |
| Challenge.ListFound | txnbuild/transaction.go:1482-1490 | the found signers, each once, in the order given |
| Challenge.Deduplicate | txnbuild/transaction.go:1366-1392 | the verifiable client signers without the server, each once |
| Challenge.RemoveServer | txnbuild/transaction.go:1408-1418 | drops the server and says whether it was there |
| Challenge.VerifyChallengeTxSigners | txnbuild/transaction.go:1353-1437 | the whole verification equals its specification, errors in order |
| Challenge.PicksInjective | txnbuild/transaction.go:1458-1480 | no signature is consumed twice |
| Challenge.SuccessAccountsForAll | txnbuild/transaction.go:1353-1437 | on success the signatures are in bijection with the server and the returned signers, which are distinct, given, and never the server |
| Challenge.ParseInjective | keypair/from_address.go:23-33 | an address is the only one of its key |
| Challenge.VerifyExactly | txnbuild/transaction.go:1353-1437 | when a signature fits at most one key, verification succeeds if and only if all consulted signers are addresses and the signatures belong to distinct consulted signers, the server and at least one client among them |
| Challenge.RefusalsAreTrue | txnbuild/transaction.go:1353-1437 | what a refusal says is true: no signature of the server, of any client, no client to consult, or more signatures than signers found |
| Challenge.AddressesAreConsulted | txnbuild/transaction.go:1366-1392 | of the valid keys other than the server's exactly the account addresses are consulted |
| Challenge.GreedyCanMiss | txnbuild/transaction.go:1458-1480 | with a signature fitting two keys the greedy search misses a matching that exists |
| GreedyMatching.AlwaysUsesAllExactly | txnbuild/transaction.go:1458-1480 | the search uses every signature in every order of signers and signatures, if and only if there is no signature whose signers could all be given other signatures |
| GreedyMatching.MissIsElsewhere | txnbuild/transaction.go:1458-1480 | a signature left over means all its signers signed elsewhere |
| GreedyMatching.ElsewhereIsMiss | txnbuild/transaction.go:1458-1480 | and if they can, some order leaves it over |
| Challenge.VerifyChallengeTxThreshold | txnbuild/transaction.go:1308-1331 | equals its specification for some order of the summary's keys, with int32 addition |
| Challenge.ThresholdMeans | txnbuild/transaction.go:1308-1331 | success means every signature is accounted for and, if the summed weight fits an int32, it reaches the threshold |
| Challenge.ThresholdExactly | txnbuild/transaction.go:1308-1331 | a verified set whose weight fits an int32 passes if and only if it reaches the threshold |
| Challenge.WeightVerdict | txnbuild/transaction.go:1319-1326 | the verdict is right for every threshold exactly when the sum fits or wraps harmlessly |
| Challenge.LedgerWeightsFit | txnbuild/transaction.go:1319-1326 | weights of 0 to 255 sum to at most 255 per signer found |
| Challenge.WeightsCanWrap | txnbuild/transaction.go:1319-1326 | concrete weights for which the wrapped sum refuses enough or accepts too little |
| Checkpoints.IsCheckpointExact | historyarchive/range.go:39-41 | right below the last ledger number; there exactly when the frequency divides 2^32 |
| Checkpoints.PrevCheckpointExact | historyarchive/range.go:44-50 | the checkpoint at or before a ledger, the first one before it, and what happens at the last ledger number |
| Checkpoints.NextCheckpointExact | historyarchive/range.go:53-62 | the checkpoint at or after a ledger, or the last ledger number when there is none |
| Checkpoints.CheckpointRangeHolds | historyarchive/range.go:70-81 | the range ends at the ledger's checkpoint, is one frequency long without ledger 0, and holds the ledger |
| Checkpoints.CheckpointRangesPartition | historyarchive/range.go:70-81 | the ranges group the ledgers by checkpoint, if and only if the checkpoint was not cut short by the last ledger number |
| Checkpoints.GenerateCheckpoints | historyarchive/range.go:101-110 | sends every frequency-th number of the range, in order |
| Checkpoints.GridIsCheckpoints | historyarchive/range.go:101-114 | from a checkpoint these are exactly the checkpoints of the range, each once, as many as SizeInCheckPoints says |
| Checkpoints.WrongAtTheEnd | historyarchive/range.go:39-81 | with a checkpoint every three ledgers, the last ledger number is taken for one and its range overlaps the one before |
| Checkpoints.MakeRangeCovers | historyarchive/range.go:83-95 | a made range generates the checkpoint of every ledger asked for, and starts at a checkpoint exactly when it does not start at the last ledger number or the frequency divides 2^32 |
| Checkpoints.MakeRangeExact | historyarchive/range.go:83-95 | and generates no checkpoint a frequency or more away from what was asked for |
| Checkpoints.ClampExact | historyarchive/range.go:91-95 | a clamped range generates exactly the checkpoints around what both ranges have in common |
| Checkpoints.CollapseRanges | historyarchive/range.go:132-156 | the collapsed ranges expand to exactly the sorted list, and no two neighbours could be joined |
| ArchiveScan.RangePaths | historyarchive/dirprefix.go:43-62 | every number of the range lies below exactly one of the directories, and each directory has one |
| ArchiveScan.Archive.ScanCheckpointsSlow | historyarchive/scan.go:43-103 | in any order of requests, notes the existence of every scanned file of the range and nothing else, counts exactly the files that fail verification, and succeeds when that count is zero in 32 bits |
| ArchiveScan.Archive.ScanCheckpointsFast | historyarchive/scan.go:105-167 | in any interleaving of listings and notes, whatever listings fail, notes only files that are there; with no error counted, all of them and all verified; on a faultless backend no error |
| ArchiveScan.Archive.ScanCheckpoints | historyarchive/scan.go:27-41 | scans the clamped range; from cleared notes and without errors the files reported missing do not depend on whether the backend can list |
| ArchiveScan.StaleNoteKept | historyarchive/scan.go:105-167 | a note left from before makes the two scans disagree |
| ArchiveScan.Archive.CheckCheckpointFilesMissing | historyarchive/scan.go:366-380 | per category, the generated checkpoints not noted as present, in order |
| ArchiveScan.ScansAgree | historyarchive/scan.go:43-167 | both scans lead to the same missing files if and only if no stale note of an absent file was there before |
| ArchiveScan.MissingExactly | historyarchive/scan.go:366-380 | from cleared notes both report exactly the checkpoints without a file, and all of them for a skipped category |
| ArchiveMirror.CopyPathMeans | historyarchive/util.go:37-57 | success without dry run means the path is in the destination; no other path changes |
| ArchiveMirror.StepKeepsSound | historyarchive/mirror.go:45-92 | a worker step either counts an error or keeps every received checkpoint held or complete and every claimed bucket copied or being copied |
| ArchiveMirror.BucketsCopiedOnce | historyarchive/mirror.go:63-76 | no bucket is copied twice, under any schedule and any failures |
| MirrorPromise.MirrorReturnsNil | historyarchive/mirror.go:17-118 | under the exact condition, nil without dry run means every checkpoint of the clamped range has its required files and all its buckets in the destination |
| MirrorPromise.ErrorsBounded | historyarchive/mirror.go:45-117 | no schedule and no failure of the backends counts more than one error for each required file of each checkpoint and one for each bucket |
| MirrorPromise.NilMeansNoErrorExactly | historyarchive/mirror.go:94-117 | nil means that no counted call failed, over every schedule, if and only if there is no worker or four errors a checkpoint, one a bucket and one for the root stay below 2^32 |
| MirrorPromise.MirrorExactly | historyarchive/mirror.go:17-118 | every run that ends with nil leaves every checkpoint mirrored, if and only if all was there and nothing can overwrite it, or there is a worker and the errors that can be counted stay below 2^32 |
| MirrorPromise.Drive | historyarchive/mirror.go:45-92 | any total of errors between the copies of a needed path and the most there can be is reached by a schedule that leaves the path out |
| MirrorPromise.ArchivesFit | historyarchive/history_archive_state.go:108-127 | archives of up to 61356675 checkpoints with the eleven levels of two lists stay within the bound |
| MirrorPromise.ErrorsCanWrap | historyarchive/mirror.go:17-118 | over a checkpoint at every ledger from 63 on, runs of any number of workers that return nil with a file missing |
| MirrorPromise.NoWorkersNoMirror | historyarchive/mirror.go:43-46 | with no workers nil is returned and nothing copied |
| MirrorPromise.OptionalMirrored | historyarchive/mirror.go:78-91 | when no call fails nil is returned with the optional files copied too |
| MirrorPromise.SkippedUntouched | historyarchive/mirror.go:78-91 | optional files that are skipped are left as they were |
| ArchiveMirror.RunsAreBounded | historyarchive/mirror.go:45-94 | every schedule is finite, and one that cannot go on has all workers gone |

## Left out

- Network and storage access, compression, caches and clocks: files are byte sequences, maps or sets, and what a backend answers is an input.
- SHA-256, CRC16 and ed25519 themselves; they are arbitrary functions. Where a digest must identify content, the assumption is stated: nothing else has the digest of the committed bytes.
- XdrSchema.Encode: variable lengths above MaxInt32 are not values of the model, because the views refuse every such length and count.
- Typedef resolution, names and Go source text in the generator: the model starts from resolved types and gives the meaning of the emitted functions. Default arms of unions are not in the schema type.
- XdrMinSize.Accepted: schemas whose element types can encode to nothing, or whose fixed sizes leave uint32, are outside, as the generator refuses or never produces them.
- BucketList.Filters: a filter that looks at more than the key has no counterpart in the replay, so agreement is proved for no filter and for key-only filters.
- ReaderProtocol.EofMeansComplete: the end of each bucket is an input here; BucketReader computes it and joins the two.
- CheckpointReader.EofDeliversReplay: the records read are an input here; BucketReader reads them from an arbitrary archive and joins the two.
- ReaderProtocol.Do: the progress percentage and the sleep between retries are not part of the state.
- BucketReader.StreamBucket: offsets are bounded as an int64 bounds them.
- BucketReader.BucketListHash: hashes are bytes; hex decoding and its errors are not modelled.
- BucketStream.Source: compressed bytes and the record-size override are not modelled; the record limit is the default one.
- Compactor.Add: the reason, transaction and operation fields of a change are not carried.
- Compactor.ChangeCompactor.AddUpdated: the TTL update that writes through a pointer is a new value, so aliasing of the caller's entry is not captured.
- Changes.SortableChanges.Sort: the standard library's block merge is not modelled, only insertion through Less and Swap; uniqueness makes the results equal.
- Changes.Raw: an entry whose ledger key cannot be formed, which would panic, is not a value of the model.
- ChangeReader.LedgerChangeReader.Read: reading after Close is not modelled.
- StrKey.Encode: the fixed-size scratch arrays are values; the base32 decoder of the standard library is specified on canonical input only.
- TxHash.TxSchema: the memo, operation, signature and Soroban types are arbitrary types of the schema.
- Challenge.VerifySigners: reading the challenge transaction (time bounds, operations, home domains) is a given outcome.
- ArchiveScan.Archive: bucket scans and what file verification computes are not modelled; which files fail is an input.
- ArchiveMirror.Step: copyPath is one step of a worker; no other worker ever touches the same path. Malformed bucket hashes in an archive state, which panic, are not modelled.
- Progress reports, statistics, logging, mocks, command-line options, per-operation builders and the remaining accessors of the SDK.
