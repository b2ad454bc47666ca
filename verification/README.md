# bison-db: a verified model of the log, the codec and the indexes

bison-db keeps documents in one append-only file. Every write appends a framed,
checksummed record; opening replays the records; compaction rewrites the live ones
into a second file and renames it over the first; secondary indexes live in memory
and follow every write. This project models that stack in Dafny and proves what it
promises, in three layers:

1. **Functions and laws.** `Codec` and `CodecLaws` (printer and parser), `Crc32c`,
   `Words` and `Bits` (checksum), `ValueOrder` (the order on values), `Log` and
   `LogState` (frames, the replay scan, what a run of records means), `Contents` and
   `Maintenance` (documents and indexes), `Store` (every operation as a function on the
   store's state), `Compaction`. `Format` and `Utf8` say what the bytes are: the
   documented layout and the text the validity predicate accepts.
2. **Code proved to compute those functions.** `Documents.DocumentBuilder`,
   `CodecMachine` (encoders that push, a cursor that advances), `Crc32c.Checksum`,
   `ValueOrder.CmpSlices`, `SecondaryIndexes.SecondaryIndex`, and `Database.Db`, an
   object over a file, an index, a tail and index objects. `Db.View()` is its state as
   a `Store.Store`; each method's contract says which function of `Store` it applies.
   `Sessions` runs whole sessions against those contracts alone.
3. **Crashes.** `CrashMachine` is the store as a system in which power fails or the
   process dies between writes, inside them and at every step of a compaction, and in
   which a power failure may undo a rename whose directory was not yet forced.
   `CrashProof` shows that each of its steps is a step of a small client view (the
   history of operations, exactly how many are certain to survive, and what a crash
   may fall back to), `Enabled` that it leaves no failure out and never blocks an
   operation; `Guarantees` draws the conclusions for whole runs,
   `Identifiers` those about the ids handed out. `BitRot` is about bytes that change
   under an open store.

The main results: a crash costs a client only a suffix of what was not yet forced to
the device (`CrashProof.Refines`, `Guarantees.DurableForever`); in any state, the first
n operations stay whatever happens if and only if they are certain in every file the
store's name may stand for (`Guarantees.StaysIff`), so that a write under `Always` is
kept whatever happens if and only if no rename was pending when it was called
(`Guarantees.WriteStaysIff`); a crash inside a compaction leaves the old log's prefix
or the complete new file (`Guarantees.CompactionIsAtomic`); index and tail are always
what replay would compute (`Guarantees.ReachableStore`); compaction preserves meaning in
every visiting order (`Compaction.CompactionPreserves`); ids keep rising exactly as long
as every reopening remembers those handed out (`Identifiers.IdsRiseIff`); the checksum
catches every burst within 32 bits and every odd number of flips
(`Crc32c.BitBurstDetected`, `Crc32c.OddFlipsDetected`, `Log.BitDamageIsCaught`); parsing
undoes printing whatever follows (`Codec.RoundTripDoc`), and the printed bytes are the
documented ones (`Format`); the value order is total (`ValueOrder.CmpAntisymmetric`,
`ValueOrder.CmpTransitive`) and is the documented one (`ValueOrder.ScalarOrder`,
`ValueOrder.VariantOrder`); indexed queries answer
as scans do, but for exactly the ids whose last update was rejected for its size
(`Guarantees.ReachableQueriesAgree`, `Guarantees.GapsComeFromRejections`).

Where the code does not do what its documentation suggests, the model follows the code
and the exact condition is proved:

- An update rejected for its size has already taken the old document out of the
  indexes, so indexed queries then miss it (`Maintenance.UpdateKeepsIndexesIff`, with a
  concrete case in `Maintenance.RejectedUpdateLosesEntry`).
- Ids are described as monotonically increasing. In a run every insert's id is larger
  than all handed out before it if and only if at every reopening the history still
  shows each of them, as an operation on it or a later one since the file was last
  written afresh, or as live, it or a later one, when it was (`Identifiers.IdsRiseIff`).
  A reopening forgets an id only if a crash dropped its insert or a compaction came
  when it and all later ones were gone (`Identifiers.ForgottenOnlyIf`); without either
  ids always rise (`Identifiers.IdsRise`). Each way has an input:
  `Identifiers.LostInsertGivesIdAgain` and `Identifiers.DeletedIdComesBack`.
- The next id exceeds every id in the file unless a record carries 2^64-1, where the
  release build's increment wraps (`LogState.NextIdExceedsAll`, with a file of one such
  record in `Store.LargestIdWraps`).
- Power failing while a new store writes its header leaves a file that no longer
  opens, unless none or all of the header was kept (`Guarantees.CreationCrashIff`).
- Damage to a record's length field ends replay without an error, and cuts that
  record and all after it from the file, exactly when the new length is out of range
  or past the end of the file, or names exactly the end of the file and the checksum
  fails there; a new length that names an earlier end where the checksum fails is
  reported (`Log.LengthDamageIsSilentIff`, `Store.LengthDamageCutsFileIff`, with a
  concrete file in `Store.ZeroedLengthLosesBoth`).
- Under `Always` a write is described as durable when it returns. A compaction syncs
  the directory after its rename, but opening an existing file does not, so if the
  process dies between the two, a later power failure can undo the rename and with it
  every write made since. A write that took effect is kept whatever happens if and only
  if no rename was pending when it was called (`Guarantees.WriteStaysIff`); after a
  flush, everything is if and only if every file a pending rename may lead back to
  holds it all on the device (`Guarantees.FlushStaysIff`); after a compaction,
  everything is (`Guarantees.CompactionStays`). `Guarantees.UndoneRenameLosesWrite` is
  a run in which a write is lost, `Guarantees.WriteSurvivesIff` says which power
  failures do it.
- The checksum is described as re-checked on read, so that bit-rot is detected rather
  than misread, and compaction as failing on a record that cannot be read back. Only
  replay checks it: over a file damaged after it was opened, `get` reports damage if and
  only if the bytes no longer decode (`BitRot.FetchTrustsBytes`), and compaction never
  does, but stamps what it reads with fresh checksums (`BitRot.CompactionTrustsBytes`).
  `BitRot.RotIsMisread` and `BitRot.FlippedFlagIsMisread` show damage that replay would
  report misread.

Conventions and environment. Bytes are integers below 256, lengths and offsets are
unbounded naturals, ids are 64-bit and wrap as in a release build. A string is its
UTF-8 bytes with a validity predicate after section 4 of RFC 3629; a float is its
64-bit pattern, ordered by section 5.10 of IEEE 754-2008. Positional reads and writes,
`fsync` and rename succeed. A crash keeps a byte prefix of a file, no shorter than what
was last forced to the device; a rename not yet followed by a directory sync may or may
not survive it. Hash maps are visited in an arbitrary order. Documents passed to the
machine of layer 3 have distinct keys and valid text at every level, which the source's
types guarantee, and inserts stop before the id space is exhausted.

## Model

| member | source | states |
|---|---|---|
| `Guarantees.ReachableStore` | src/store.rs:341-359 | in every state of every run with crashes, reopenings and compactions: index and tail are what replaying the current bytes gives, the documents are the fold of the client's history, ids are fresh, live records are disjoint and fit, indexes are in step |
| `CrashProof.Refines` | src/store.rs:1112-1242 | every run of the crash machine is matched, event by event, by a run of the client view, in which a crash keeps a prefix of the issued operations no shorter than what was certain in the file the name then leads to |
| `CrashProof.Simulate` | src/store.rs:834-890 | the one-step form: each step of the system, compaction steps included, is one step of the client view |
| `CrashProof.CutIsRecoverable` | src/store.rs:1181-1242 | cutting a recoverable file, torn or whole, at any byte past its forced part leaves a recoverable file and loses only trailing operations that were not certain, one for each record |
| `CrashProof.CutToCertain` | src/store.rs:1112-1152 | what is not certain can be lost: some allowed cut leaves exactly the certain operations |
| `CrashProof.SimulateFall` | src/store.rs:883-885 | a power failure that leads the name to any of the files it may stand for keeps a prefix of what that file held |
| `CrashProof.SimulateRename` | src/store.rs:882-889 | at the rename the compacted file serves the client with every operation on the device, and the old file is what a crash may fall back to |
| `CrashProof.SimulateInterrupt` | src/store.rs:1131-1151 | power failing inside a write keeps a prefix of the history with that write issued |
| `CrashProof.SimulateDeath` | src/store.rs:1131-1151 | the process dying inside a write, with its frame partly in the file and nothing of it forced, leaves the operations before it and at most that one |
| `CrashProof.SimulateReopen` | src/store.rs:428-462 | every stopped store opens and holds exactly what the client expects |
| `CrashProof.CopyStep` | src/store.rs:850-874 | each turn of the compaction loop keeps the temporary file and the new index equal to the compacted log of the ids visited so far |
| `Guarantees.DurableForever` | src/store.rs:717-741 | what was certain to survive at one point of a run is still the front of the history at every later point, as long as no power failure undoes a rename |
| `Guarantees.SureForever` | src/store.rs:717-741 | what was certain in every file the name may fall back to survives crashes of every kind |
| `Guarantees.ReturnedSurvives` | src/store.rs:1148-1150 | in a run, once a write under `Always`, a flush or a compaction has returned, all operations so far stay in the history and in the store through every later crash that undoes no rename |
| `Guarantees.SettledWithNothingPending` | src/store.rs:804-806 | with no rename pending when the call returns, as after every finished compaction, the same through crashes of every kind |
| `Guarantees.StaysIff` | src/store.rs:194-202 | in any state, the first n operations are in every continuation's history if and only if they are certain in every file the store's name may stand for |
| `Guarantees.WriteStaysIff` | src/store.rs:194-197 | a write that took effect under `Always` stays whatever happens if and only if no rename was pending when it was called |
| `Guarantees.FlushStaysIff` | src/store.rs:717-741 | after a flush every operation stays whatever happens if and only if every file a pending rename may lead back to holds them all on the device |
| `Guarantees.CompactionStays` | src/store.rs:804-806 | after a compaction every operation stays whatever happens |
| `Guarantees.WriteSurvivesIff` | src/store.rs:194-197 | a write that returned under `Always` stays in the history of a run if and only if no power failure leads the name back to a file replaced before the write |
| `Guarantees.UndoneRenameLosesWrite` | src/store.rs:452-460 | there is a run in which it does: death after the rename, reopening, an insert under `Always`, a power failure, and the insert is gone |
| `Guarantees.FreshStoreKeepsWrites` | src/store.rs:452-456 | `ReturnedSurvives` in any run from a freshly created store |
| `Guarantees.ReachableAlwaysOpens` | src/store.rs:457-460 | recovery never fails in a reachable state |
| `Guarantees.CompactionIsAtomic` | src/store.rs:798-806 | a power failure at any point of a compaction opens to a whole-record prefix of one of the files the name has stood for: the original, or from the rename on exactly the documents compacted |
| `Guarantees.CompactionSurvivesDeath` | src/store.rs:798-802 | the process dying at any point of a compaction leaves a file that opens to exactly the documents compacted |
| `Guarantees.ReachableQueriesAgree` | src/store.rs:985-991 | in every state of every run an index answers equality and range queries with the scan's ids less exactly those in its gap, ranges in order |
| `Guarantees.GapsComeFromRejections` | src/store.rs:583-588 | an index leaves an id out if and only if an oversized update of it was rejected and since then no write of the id took effect and the index was not dropped or lost to a reopening |
| `Guarantees.NothingGoesMissing` | src/store.rs:583-588 | a run without oversized updates leaves no gap in any index |
| `Guarantees.OpenedStoreRelates` | src/store.rs:457-461 | a run may start from any file that opens, whose live bodies decode and whose ids stay below 2^64-1 |
| `Enabled.PowerLossIff` | src/store.rs:452-462 | between operations and at every step of a compaction the machine allows exactly what a power failure may leave: any part, at least the forced one, of any file the name may stand for |
| `Enabled.InterruptIff` | src/store.rs:1112-1152 | inside a write, under either policy: any part, at least what was forced before it, of the file with the record at its end, or of a former one |
| `Enabled.DeathIff` | src/store.rs:1131-1151 | the process dying inside a write, under either policy: the file with any part of the record behind it, nothing more forced |
| `Enabled.KillIff` | src/store.rs:798-806 | the process dying anywhere else: exactly the file the name stands for, as far forced as it was, anything under the temporary's name |
| `Enabled.CompactionCompletes` | src/store.rs:834-890 | from any valid store and for every visiting order a run of the compaction's steps leads to the compacted store, with no rename pending: no step can block |
| `Enabled.InsertsInTurn` | src/store.rs:511-518 | any documents that fit, up to the last id, can be inserted into a new store in one run, which then holds exactly these under the ids 1, 2, 3, … |
| `Enabled.ServesAgain` | src/store.rs:428-462 | from every related state, compactions included, the process can die and the store be opened under either policy with every operation of the history in it |
| `Enabled.RunningTakesCalls` | src/store.rs:579-741 | a running store takes every call in any state |
| `Guarantees.CreationCrashIff` | src/store.rs:452-456 | after a crash while the header is written the store opens if and only if none or all 16 bytes were kept; otherwise `BadMagic` |
| `Identifiers.ReopenedNext` | src/store.rs:1230-1232 | in any reachable state, reopening gives exactly the next id the client's history implies |
| `Identifiers.NextRemembers` | src/store.rs:1230-1232 | that id is past exactly the ids the history still shows since the file was last written afresh |
| `Identifiers.IdsRiseIff` | src/store.rs:85-87 | in a run every id handed out is below every later one if and only if at each reopening the history still remembers it |
| `Identifiers.IdsRise` | src/store.rs:85-87 | in a run whose power failures lose no operation and undo no rename, and whose compactions find the newest document live, ids always rise |
| `Identifiers.ForgottenOnlyIf` | src/store.rs:850-874 | in a run from a new store an id is forgotten only if a crash dropped its insert or a compaction came when it and all later ones were gone |
| `Identifiers.RenameForgetsIff` | src/store.rs:850-874 | a compaction lowers the id a reopening gives if and only if the newest document is gone |
| `Identifiers.LostInsertGivesIdAgain` | src/store.rs:198-202 | a run without compaction in which an insert, lost to a power failure, has its id handed out again |
| `Identifiers.IdComesBackIff` | src/store.rs:1230-1232 | after compaction and reopening an insert is given an id handed out before if and only if the newest document is gone |
| `Identifiers.DeletedIdComesBack` | src/store.rs:850-874 | a store whose log is one insert of id 1 and its delete: after compaction and reopening the next insert is given id 1 |
| `Compaction.CompactionPreserves` | src/store.rs:845-889 | for every visiting order: same documents, same next id kept fresh, the new file replays to the new index and tail, indexes stay as good as they were |
| `Compaction.CompactionSpace` | src/store.rs:788-806 | header plus live records never exceed the tail, and equal it after compaction, so compaction never grows the file |
| `Compaction.SecondCompactionKeepsSize` | src/store.rs:834-890 | the size after compaction does not depend on the order, and a second compaction changes no size |
| `Compaction.CompactionKeepsNextIdIff` | src/store.rs:1230-1232 | reopening a compacted store restores the next id if and only if the newest id handed out is still live |
| `Maintenance.UpdateKeepsIndexesIff` | src/store.rs:579-590 | an update leaves complete indexes complete if and only if it is not an oversized update of a live, indexed document |
| `Maintenance.RejectedUpdateLosesEntry` | src/store.rs:583-587 | there is a store, an id and a document for which the update loses the entry |
| `Maintenance.InsertInStep` | src/store.rs:511-517 | an insert keeps every index exact but for its gaps |
| `Maintenance.UpdateInStep` | src/store.rs:579-590 | a successful update lists exactly the new value, closing any gap of the id; a rejected one leaves the indexes exact but for that id |
| `Maintenance.DeleteInStep` | src/store.rs:618-628 | a delete takes out exactly the deleted document's entries and any gap of the id |
| `Maintenance.CreateIndexInStep` | src/store.rs:927-941 | a new index is sound and complete, whatever the others leave out |
| `Contents.IndexAnswersAsScan` | src/store.rs:1016-1080 | an index that is exact but for a gap answers equality and range queries with the ids a scan finds less exactly the gap, ranges in order of value and id |
| `Store.FetchIsLookup` | src/store.rs:543-548 | `get` is a lookup in the map of documents the log holds, decode errors included |
| `Store.FetchMeaning` | src/store.rs:543-548 | `get` returns the document held, the error of one that cannot be read, and nothing exactly for an id that is not live |
| `Store.ReadsBack` | src/store.rs:488-628 | what was inserted or updated is read back, what was deleted is gone, and no other id is disturbed |
| `Store.InsertSpec` | src/store.rs:511-517 | an insert is rejected exactly when the record would exceed the limit and then changes nothing; otherwise it adds the document under an id not in use |
| `Store.UpdateSpec` | src/store.rs:579-590 | what each outcome of an update does to the documents and the log, and when it fails |
| `Store.DeleteSpec` | src/store.rs:618-628 | what each outcome of a delete does; a tombstone is never too large |
| `Store.AppendKeepsValid` | src/store.rs:1112-1152 | appending a record keeps file, index and tail in step and acts on the documents as the record says |
| `Store.OpenIsValid` | src/store.rs:428-462 | a store that opens is in step with its file, and its next id is fresh if and only if no record has the largest id |
| `Store.OpenRefusesIff` | src/store.rs:1163-1177 | a non-empty file is refused with `BadMagic` exactly when it is shorter than 16 bytes or does not begin with the magic, with `UnsupportedVersion` exactly when it does and its version is above 1 |
| `Store.MagicDamageIsCaught` | src/store.rs:1169-1171 | changing any byte of the magic makes the next open fail with `BadMagic` |
| `Store.ReopenIsStable` | src/store.rs:1236-1240 | a second open recovers the same state and cuts nothing |
| `Store.ValidReopens` | src/store.rs:457-461 | the file of a store in step opens, uncut, to the same index, records and documents |
| `Store.LengthDamageCutsFileIff` | src/store.rs:1193-1201 | when opening a file with a damaged length field succeeds with exactly the records before it, cutting the rest from the file |
| `Store.ZeroedLengthLosesBoth` | src/store.rs:1236-1239 | a concrete file of two documents, its first length zeroed, opens without an error, empty, cut to its header |
| `LogState.LogResolves` | src/store.rs:1219-1227 | every index entry of a clean log points at the live body of its id |
| `LogState.ResolvesAppend` | src/store.rs:1131-1146 | appending a record disturbs no earlier live body |
| `LogState.NextIdExceedsAll` | src/store.rs:1230-1232 | replay's next id exceeds every id in the file if and only if none is 2^64-1 |
| `Store.LargestIdWraps` | src/store.rs:1230-1232 | a file whose only record carries 2^64-1 opens to a next id of 0 |
| `LogState.NextIdIsTight` | src/store.rs:1230-1232 | the next id is 1 or one more than some id in the file |
| `LogState.LiveSizeBound` | src/store.rs:779-786 | live records with their frames never take more than the log |
| `LogState.LiveRecordsDisjoint` | src/store.rs:1133-1141 | live records lie inside the log and never overlap |
| `Log.ScanSound` | src/store.rs:1181-1242 | every record the scan returns is in the file byte for byte, and the scan stops where no record can be read |
| `Log.ScanComplete` | src/store.rs:1181-1242 | records that are in the file are found, whatever follows them |
| `Log.CleanScan` | src/store.rs:1185-1241 | replaying a clean log gives back exactly its records and its length |
| `Log.LogIsUnique` | src/store.rs:1185-1241 | a file is a log in at most one way |
| `Log.TornScan` | src/store.rs:1193-1202 | cutting a clean log anywhere loses the record cut and those after it, nothing else |
| `Log.IntactPrefix` | src/store.rs:1185-1241 | whatever is appended to a clean log, replay fails or keeps all original records in front |
| `Log.RescanIsStable` | src/store.rs:1236-1240 | what a scan accepted is a clean log |
| `Log.DamageIsCaught` | src/store.rs:1203-1211 | payload damage within four bytes is `Corrupt` when the record is not last and drops exactly that record when it is |
| `Log.BitDamageIsCaught` | src/store.rs:1203-1211 | the same for payload damage within any 32 consecutive bits and for any odd number of flipped bits |
| `Log.MismatchIsCaught` | src/store.rs:1205-1211 | the same for any checksum mismatch at a legal length |
| `Log.UnknownOpIsReported` | src/store.rs:1213-1229 | a sound record with another operation is `Corrupt`, wherever it stands |
| `Log.ScanFailures` | src/store.rs:1181-1242 | replay fails for a checksum or an operation, and for nothing else |
| `Log.ChecksumDamageIsCaught` | src/store.rs:1205-1211 | any change of a checksum field is `Corrupt` when the record is not last and drops exactly that record when it is |
| `Log.ScanEndsQuietlyIff` | src/store.rs:1186-1209 | when the scan of a clean log followed by any bytes ends right after the log without an error, and when it reports a mismatch there |
| `Log.LengthDamageIsSilentIff` | src/store.rs:1193-1211 | the same for a record whose length field was overwritten, in terms of the new length and the checksum of the window it names |
| `Log.FreshHeaderVerifies` | src/store.rs:1163-1177 | a file that starts with a fresh header passes the header check |
| `Format.HeaderLayout` | docs/FORMAT.md:49-62 | the sixteen bytes of a header |
| `Format.FrameLayout` | docs/FORMAT.md:64-101 | every byte of a record: length, checksum, operation, id, body |
| `Format.RecordLimits` | docs/FORMAT.md:64-101 | a record is 1 or 2 with a payload of at most 64 MiB |
| `Format.StoredRecords` | docs/FORMAT.md:85-101 | a put carries the encoded document if it fits; a delete has nine bytes of payload |
| `Format.ValueLayout` | docs/FORMAT.md:102-129 | the tag of each variant and what follows it |
| `Format.SequenceLayout` | docs/FORMAT.md:102-129 | fields and elements follow one another with nothing between |
| `Bytes.LEAt` | docs/FORMAT.md:32-33 | integers are stored least significant byte first |
| `Utf8.ValidIffText` | src/codec.rs:167-168 | text is accepted exactly when it is the UTF-8 encoding of scalar values, after RFC 3629 |
| `Codec.RoundTripDoc` | src/codec.rs:90-174 | parsing an encoding followed by any bytes returns the document and leaves exactly those bytes |
| `Codec.RoundTripValue` | src/codec.rs:101-206 | the same for values, by mutual induction over arrays and objects |
| `Codec.EncodingIsPrefixFree` | src/codec.rs:90-98 | encoding is injective and no encoding is a prefix of another |
| `Codec.DecodeOfEncode` | src/codec.rs:148-159 | what was stored is what is read back |
| `Codec.TruncationIsRejected` | src/codec.rs:230-242 | every strict prefix of a valid encoding is rejected as ending too soon |
| `Codec.TrailingIsRejected` | src/codec.rs:155-157 | bytes after a valid encoding are rejected as trailing |
| `Codec.ReadDocShort` | src/codec.rs:162-206 | a parse that more input would complete fails for want of it, whatever is nested where |
| `Codec.DecodeSetsInTurn` | src/codec.rs:162-174 | fields with repeated keys decode to the document of setting them in turn |
| `Codec.DecodeRefuses` | src/codec.rs:162-205 | bad text in a key, bad text in a string and an unknown tag are each refused as such; any nonzero bool byte is true |
| `Codec.ReadDocExtends` | src/codec.rs:162-174 | more input never changes a successful parse |
| `CodecLaws.DecodeNormalises` | src/codec.rs:152-206 | any successful decode gives distinct keys and valid text at every level, re-encodes in no more room to something that decodes to the same document, and nests at most a fifth of the input's length |
| `Documents.DepthOfItem` | src/value.rs:34-52 | the depth bounded there: a container is deeper than anything in it |
| `Documents.DepthOfField` | src/value.rs:34-52 | and an object deeper than every value of its fields |
| `CodecLaws.SmallDocFits` | src/codec.rs:141-146 | a document whose encoding is below 4 GiB has no length that overflows its field |
| `CodecMachine.EncodeDocumentInto` | src/codec.rs:90-98 | the encoder appends exactly the encoding, and fails exactly when a length does not fit, after appending only a prefix of it |
| `CodecMachine.EncodeValueInto` | src/codec.rs:101-139 | the same for one value |
| `CodecMachine.WriteLen` | src/codec.rs:142-146 | a length is appended in four bytes or rejected |
| `CodecMachine.Reader.Take` | src/codec.rs:230-242 | the next bytes and the rest, or an error if too few remain |
| `CodecMachine.Reader.ReadValue` | src/codec.rs:177-206 | the cursor returns and leaves what the parsing function does, or its error |
| `CodecMachine.Reader.ReadDocument` | src/codec.rs:162-174 | the same for a document |
| `CodecMachine.DecodeDocument` | src/codec.rs:152-159 | decoding a whole body is the function `Decode` |
| `Crc32c.BuildTable` | src/codec.rs:38-56 | entry i of the table is the eight-step shift of i |
| `Crc32c.Checksum` | src/codec.rs:75-84 | the table-driven loop computes the bit-at-a-time checksum |
| `Crc32c.CheckValue` | src/codec.rs:75-84 | which is CRC-32C: the published check value of "123456789" |
| `Crc32c.Residue` | src/codec.rs:75-84 | the register after any data and its checksum, lowest byte first, is the constant 0xB798B438 |
| `Crc32c.LeadingZeroCounts` | src/codec.rs:76 | one more zero byte in front always changes the checksum |
| `Crc32c.EmptyChecksum` | src/codec.rs:75-84 | the checksum of nothing is 0 |
| `Crc32c.TableStep` | src/codec.rs:80-81 | a lookup on the low byte and a shift replace eight steps |
| `Crc32c.BitBurstDetected` | src/codec.rs:60-72 | two strings of one length that differ only within 32 consecutive bits, wherever they start, have different checksums |
| `Crc32c.OddFlipsDetected` | src/codec.rs:60-72 | so have two that differ in an odd number of bits |
| `Crc32c.FlipsAreCounted` | src/codec.rs:60-72 | where the number of flipped bits is the number of positions that differ |
| `Crc32c.RegisterTakesBits` | src/codec.rs:75-84 | the register after a byte string is the one after its bits, lowest first |
| `Crc32c.BurstDetected` | src/codec.rs:60-72 | two strings of one length that differ only within four consecutive bytes have different checksums |
| `Crc32c.StepIsReflectedDivision` | src/codec.rs:45-49 | each step is a step of division by the polynomial of section 12.1 of RFC 3720, bit-reversed |
| `ValueOrder.CmpAntisymmetric` | src/index.rs:37-89 | swapping the operands flips the answer, and `Equal` means identical, through arrays and documents |
| `ValueOrder.CmpTransitive` | src/index.rs:37-89 | the order is transitive, across variants and through nesting |
| `ValueOrder.BytesOrder` | src/index.rs:43-44 | byte strings compare by their first different byte |
| `ValueOrder.ItemsOrder` | src/index.rs:65-74 | arrays compare by their first different element, then by length |
| `ValueOrder.DocsOrder` | src/index.rs:76-89 | documents compare by their first different field, key before value, then by length |
| `ValueOrder.FieldsOrder` | src/index.rs:76-89 | fields compare by key, and by value when the keys are the same |
| `ValueOrder.ScalarOrder` | src/index.rs:40-42 | integers by size, false before true, floats by sign and then pattern, downwards when negative |
| `ValueOrder.VariantOrder` | src/index.rs:17-19 | values of different variants in the documented order; strings, byte strings, arrays and documents by the first difference in their contents |
| `ValueOrder.TotalCmpValue` | src/index.rs:37-49 | the recursive comparison computes the order |
| `ValueOrder.CmpSlices` | src/index.rs:66-74 | the loop over two slices computes the order on arrays |
| `ValueOrder.CmpDocuments` | src/index.rs:77-89 | the loop over two documents computes the order on documents |
| `SecondaryIndexes.EmptyRangeIsEmpty` | src/index.rs:190-207 | a range reported empty has no value in bounds; any other may be asked of the ordered map |
| `SecondaryIndexes.BoundsMeaning` | src/index.rs:209-222 | an excluded bound admits what lies strictly beyond it, an included one also itself, no bound refuses nothing, and each restricts on its own |
| `SecondaryIndexes.NumberRange` | src/index.rs:209-222 | a value in a range between two integers is an integer between them, each end as stated |
| `SecondaryIndexes.NumberRangeMembers` | src/store.rs:1518-1531 | an indexed range between two integers returns exactly the ids listed under integers between them |
| `Contents.NumberScan` | src/store.rs:1066-1080 | so does a scan |
| `SecondaryIndexes.RangeMembers` | src/index.rs:164-178 | a range query returns exactly the ids whose key is in bounds |
| `SecondaryIndexes.RangeIsOrdered` | src/index.rs:164-166 | in order of value, then id, without repeats |
| `SecondaryIndexes.SecondaryIndex.Add` | src/index.rs:136-142 | adds one association and nothing else |
| `SecondaryIndexes.SecondaryIndex.Remove` | src/index.rs:146-154 | removes one association, and the key with its last id |
| `SecondaryIndexes.SecondaryIndex.Equal` | src/index.rs:157-162 | the ids under a value, ascending |
| `SecondaryIndexes.SecondaryIndex.Range` | src/index.rs:167-178 | the ids of the keys in bounds, by key and then id |
| `Documents.SetShape` | src/value.rs:382-394 | `set` keeps positions and keys, and appends exactly when the key is new |
| `Documents.GetAfterSet` | src/value.rs:382-410 | reading after `set` |
| `Documents.GetAfterRemove` | src/value.rs:463-466 | reading after `remove`; keys stay distinct |
| `Documents.RemoveTakesFirst` | src/value.rs:450-466 | `remove` takes out the first field with the key and closes the gap; without the key it does nothing |
| `Documents.GetAfterSetAll` | src/value.rs:581-595 | collecting pairs keeps the last value of every key, and no key that is in no pair |
| `Documents.SetAllKeepsOrder` | src/value.rs:581-595 | and the keys once each, in order of first appearance |
| `Documents.SetAllKeepsDistinct` | src/value.rs:588-595 | setting pairs into any document never repeats a key |
| `Documents.DocumentBuilder.SetField` | src/value.rs:382-394 | the in-place loop computes `Set` |
| `Documents.DocumentBuilder.GetField` | src/value.rs:408-410 | the search finds what `Get` says |
| `Documents.DocumentBuilder.RemoveField` | src/value.rs:463-466 | the in-place removal computes `Remove` and returns the old value |
| `Documents.DocumentBuilder.FromPairs` | src/value.rs:588-595 | pairs set in turn, later duplicates winning |
| `Database.Db.Append` | src/store.rs:1112-1152 | one frame at the tail, index repointed, forced under `Always`; a document too large changes nothing |
| `Database.Db.Insert` | src/store.rs:511-517 | the object does what `Store.Insert` says, and stays in step with its file |
| `Database.Db.Fetch` | src/store.rs:543-548 | the lookup in the documents held |
| `Database.Db.Update` | src/store.rs:579-590 | the object does what `Store.Update` says |
| `Database.Db.Delete` | src/store.rs:618-628 | the object does what `Store.Delete` says |
| `Database.Db.Flush` | src/store.rs:738-741 | everything written is on the device |
| `Database.Db.TakeStats` | src/store.rs:779-786 | the sum of live lengths, with the space bound |
| `Database.Db.Compact` | src/store.rs:834-890 | the object becomes `Compacted` for the order in which the ids came, over a fresh file |
| `Database.Db.CreateIndex` | src/store.rs:927-941 | the new index is a fresh object, the rebuild over all documents; or nothing changes and the error is that of a document that cannot be read |
| `Database.Db.DropIndex` | src/store.rs:959-961 | one index gone, and whether it existed |
| `Database.Db.Find` | src/store.rs:1016-1031 | the index's ids ascending, or by scan each matching id once, failing exactly when a live body does not decode |
| `Database.Db.Range` | src/store.rs:1066-1080 | the same for ranges |
| `Database.Db.IndexAdd` | src/store.rs:1090-1096 | one document listed in every index, in any field order |
| `Database.Db.IndexRemove` | src/store.rs:1099-1105 | one document taken out of every index |
| `Database.Db.ReadTurn` | src/store.rs:1186-1234 | one turn of replay is the function `ReadRecord` |
| `Database.Db.Replay` | src/store.rs:1181-1242 | the loop rebuilds index, next id and tail from the scan and cuts a torn tail |
| `Database.CheckHeader` | src/store.rs:1163-1177 | length, magic and version, each with its error |
| `Database.OpenInner` | src/store.rs:428-462 | opening or creating a store is the function `Open`, and returns a fresh object without indexes; a file that is refused is left as it was; a leftover temporary is removed |
| `BitRot.FetchTrustsBytes` | src/codec.rs:67-70 | over a file damaged after the open, `get` fails if and only if the bytes no longer decode, and else returns what they decode to |
| `BitRot.CompactionTrustsBytes` | src/store.rs:807-810 | over such a file compaction never fails; the file it writes opens to the same answers |
| `BitRot.RotIsMisread` | src/codec.rs:67-70 | a live record overwritten within four bytes by another document's: replay would report it, `get` returns the other document |
| `BitRot.FlippedFlagIsMisread` | src/codec.rs:67-70 | there is such a store and file |
| `Sessions.CompactReopenFetch` | src/store.rs:1697-1720 | for any store and id, `get` answers the same before a compaction and after it and a reopening |
| `Sessions.InsertReopenInsert` | src/store.rs:1416-1427 | what was inserted is read back after reopening, and the next insert is given the next id |

## Left out

- I/O failures: a short write, a failed `fsync`, rename or reopen leaves memory and file out of step in ways not modelled.
- Out-of-order sector persistence: a crash keeps a byte prefix; arbitrary tails are covered only by `Log.IntactPrefix`.
- A cut that recovery made but had not forced when power fails again: the machine takes it to have reached the device.
- Database.Db.CreateIndex: does not say which of several unreadable documents is reported, because it depends on the visiting order; `Find` and `Range` are the same.
- src/sys.rs, paths, permissions and platform differences: files are byte sequences under two names.
- src/serde_support.rs: depends on serialisation formats outside the repository.
- Error messages, `DocId` and `DbOptions` wrappers, `Value` accessors and conversions: they would only add easy members.
- Thread concurrency: exclusivity comes from Rust borrows; there is no protocol in the code.
- The internals of the standard ordered and hash maps, of UTF-8 validation and of vector capacity.
- 32-bit targets, where a position plus a length could overflow the cursor's check.
- Benchmarks and examples.
