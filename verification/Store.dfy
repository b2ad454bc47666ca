/** The store as a value and its operations as functions on it: what each leaves
    in the file, in the index and in the secondary indexes, and the invariants
    every one of them keeps. */
module Store {
  import opened Bytes
  import opened Documents
  import opened Errors
  import opened Codec
  import opened CodecLaws
  import opened Log
  import opened LogState
  import opened Contents
  import Crc32c

  datatype SyncPolicy = Always | Manual

  /** The file's bytes, how many of them have been forced to the device, and the
      state kept in memory. */
  datatype Store = Store(file: seq<byte>, synced: nat,
                         index: Index, tail: nat, nextId: u64,
                         indexes: Indexes, policy: SyncPolicy)

  // ---- Invariant -----------------------------------------------------------------------

  /** The records replay would find in the file now. */
  ghost function LogOf(s: Store): seq<Record> {
    match ScanFrom(s.file, HEADER_LEN)
    case Scanned(log, _) => log
    case Broken(_) => []
  }

  /** The file is a clean log, and index and tail are what replaying it would
      compute. */
  ghost predicate Matches(s: Store, log: seq<Record>) {
    && VerifyHeader(s.file) == Success(Unit)
    && IsLog(s.file, log)
    && s.index == IndexOf(log)
    && s.tail == |s.file|
    && s.synced <= |s.file|
  }

  ghost predicate Valid(s: Store) {
    Matches(s, LogOf(s))
  }

  lemma MatchesIsValid(s: Store, log: seq<Record>)
    requires Matches(s, log)
    ensures Valid(s) && LogOf(s) == log
  {
    CleanScan(s.file, log);
  }

  /** The documents the store holds. */
  ghost function Held(s: Store): Docs {
    DocsOf(LogOf(s))
  }

  /** Every record's id is below the next one. */
  ghost predicate FreshIds(s: Store) {
    IdsBelow(LogOf(s), s.nextId)
  }

  // ---- Reading ---------------------------------------------------------------------------

  function ReadBody(file: seq<byte>, loc: BodyLoc): Result<Document> {
    if loc.offset + loc.len > |file| then Failure(Io)
    else Decode(file[loc.offset..loc.offset + loc.len])
  }

  function Fetch(s: Store, id: u64): Result<Option<Document>> {
    if id in s.index then
      match ReadBody(s.file, s.index[id])
      case Failure(e) => Failure(e)
      case Success(doc) => Success(Some(doc))
    else Success(None)
  }

  /** What a map lookup would answer. */
  function Lookup(c: Docs, id: u64): Result<Option<Document>> {
    if id in c then
      match c[id]
      case Failure(e) => Failure(e)
      case Success(doc) => Success(Some(doc))
    else Success(None)
  }

  lemma ResolvedBodiesDecode(file: seq<byte>, index: Index, bodies: Bodies)
    requires Resolves(file, index, bodies)
    ensures index.Keys == DecodeAll(bodies).Keys
    ensures forall id :: id in index ==> ReadBody(file, index[id]) == DecodeAll(bodies)[id]
  {
    hide Decode;
  }

  lemma IndexMatchesHeld(s: Store)
    requires Valid(s)
    ensures s.index.Keys == Held(s).Keys
    ensures forall id :: id in s.index ==> ReadBody(s.file, s.index[id]) == Held(s)[id]
  {
    LogResolves(s.file, LogOf(s));
    ResolvedBodiesDecode(s.file, s.index, BodiesOf(LogOf(s)));
    hide IndexOf, BodiesOf, DecodeAll, ReadBody, LogOf, Resolves, IsLog, VerifyHeader;
  }

  /** The live ids are those of the log's bodies. */
  lemma LiveKeys(s: Store)
    requires Valid(s)
    ensures s.index.Keys == BodiesOf(LogOf(s)).Keys
  {
    hide IndexOf, BodiesOf, LogOf, IsLog, VerifyHeader;
    LogResolves(s.file, LogOf(s));
  }

  /** A live id's entry spans its body. */
  lemma LiveBody(s: Store, id: u64)
    requires Valid(s) && id in s.index
    ensures id in BodiesOf(LogOf(s))
    ensures s.index[id].offset + s.index[id].len <= |s.file|
    ensures s.file[s.index[id].offset..s.index[id].offset + s.index[id].len] == BodiesOf(LogOf(s))[id]
    ensures s.index[id].len == |BodiesOf(LogOf(s))[id]|
  {
    hide IndexOf, BodiesOf, LogOf, IsLog, VerifyHeader;
    LogResolves(s.file, LogOf(s));
  }

  /** `get` is a lookup in the documents the log holds. */
  lemma FetchIsLookup(s: Store, id: u64)
    requires Valid(s)
    ensures Fetch(s, id) == Lookup(Held(s), id)
  {
    IndexMatchesHeld(s);
    hide Held, ReadBody, Valid;
  }

  /** What a get returns: the document held, the error of one that cannot be read, and
      nothing exactly for an id that is not live. */
  lemma FetchMeaning(s: Store, id: u64)
    requires Valid(s)
    ensures Fetch(s, id) == Success(None) <==> id !in Held(s)
    ensures forall doc :: Fetch(s, id) == Success(Some(doc)) <==> id in Held(s) && Held(s)[id] == Success(doc)
    ensures forall e :: Fetch(s, id) == Failure(e) <==> id in Held(s) && Held(s)[id] == Failure(e)
  {
    FetchIsLookup(s, id);
    hide Held, Valid, Fetch;
  }

  // ---- Writing ---------------------------------------------------------------------------

  /** The append accepts a document of this size. */
  predicate Accepts(doc: Document) {
    MIN_PAYLOAD + |EncodeDoc(doc)| <= MAX_RECORD_BYTES
  }

  function PutRecord(id: u64, doc: Document): Record {
    Record(OP_PUT, id, EncodeDoc(doc))
  }

  function DeleteRecord(id: u64): Record {
    Record(OP_DELETE, id, [])
  }

  function AppendRecord(s: Store, r: Record): Store {
    var file := s.file + Frame(r);
    s.(file := file,
       synced := if s.policy == Always then |file| else s.synced,
       index := ApplyToIndex(s.index, r, s.tail),
       tail := s.tail + |Frame(r)|)
  }

  function Insert(s: Store, doc: Document): (Store, Result<u64>) {
    if !Accepts(doc) then (s, Failure(ValueTooLarge))
    else
      var id := s.nextId;
      (AppendRecord(s, PutRecord(id, doc)).(nextId := Successor(id), indexes := AddAll(s.indexes, id, doc)),
       Success(id))
  }

  /** Updates and deletes read the old document only to unlist it. */
  function Unlist(s: Store, id: u64): Result<Indexes>
    requires id in s.index
  {
    if s.indexes == map[] then Success(s.indexes)
    else
      match ReadBody(s.file, s.index[id])
      case Failure(e) => Failure(e)
      case Success(before) => Success(RemoveAll(s.indexes, id, before))
  }

  function Update(s: Store, id: u64, doc: Document): (Store, Result<bool>) {
    if id !in s.index then (s, Success(false))
    else
      match Unlist(s, id)
      case Failure(e) => (s, Failure(e))
      case Success(ix) =>
        if !Accepts(doc) then (s.(indexes := ix), Failure(ValueTooLarge))
        else (AppendRecord(s, PutRecord(id, doc)).(indexes := AddAll(ix, id, doc)), Success(true))
  }

  function Delete(s: Store, id: u64): (Store, Result<bool>) {
    if id !in s.index then (s, Success(false))
    else
      match Unlist(s, id)
      case Failure(e) => (s, Failure(e))
      case Success(ix) => (AppendRecord(s, DeleteRecord(id)).(indexes := ix), Success(true))
  }

  function Flush(s: Store): Store {
    s.(synced := |s.file|)
  }

  /** Building an index succeeds when every live document can be read. */
  ghost function CreateIndex(s: Store, field: seq<byte>): Store {
    if field in s.indexes || !Healthy(Held(s)) then s
    else s.(indexes := s.indexes[field := BuildIndex(Held(s), field)])
  }

  function DropIndex(s: Store, field: seq<byte>): Store {
    s.(indexes := s.indexes - {field})
  }

  // ---- Opening ---------------------------------------------------------------------------

  function Min(a: nat, b: nat): nat { if a < b then a else b }

  /** Opening a file of which `synced` bytes are known to be on the device. */
  function Open(file: seq<byte>, synced: nat, policy: SyncPolicy): Result<Store> {
    if file == [] then
      Success(Store(FreshHeader(), HEADER_LEN, map[], HEADER_LEN, 1, map[], policy))
    else
      var _ :- VerifyHeader(file);
      match ScanFrom(file, HEADER_LEN)
      case Broken(e) => Failure(e)
      case Scanned(log, end) =>
        Success(Recovered(file, synced, policy, log, end))
  }

  /** The state replay leaves: torn bytes cut off, everything else rebuilt. */
  function Recovered(file: seq<byte>, synced: nat, policy: SyncPolicy, log: seq<Record>, end: nat): Store {
    Store(file[..Min(end, |file|)], Min(synced, end), IndexOf(log), end, NextIdOf(log), map[], policy)
  }

  lemma HeaderOfPrefix(file: seq<byte>, more: seq<byte>)
    requires |file| >= HEADER_LEN
    ensures VerifyHeader(file + more) == VerifyHeader(file)
  {
    assert (file + more)[..8] == file[..8] && (file + more)[8..10] == file[8..10];
  }

  lemma NewStoreIsValid(policy: SyncPolicy)
    ensures var s := Open([], 0, policy).value;
            Valid(s) && LogOf(s) == [] && s.nextId == NextIdOf([])
  {
    var s := Open([], 0, policy).value;
    FreshHeaderVerifies([]);
    assert FreshHeader() + [] == FreshHeader();
    hide FreshHeader, VerifyHeader;
    assert IsLog(s.file, []);
    MatchesIsValid(s, []);
  }

  lemma OpenExisting(file: seq<byte>, synced: nat, policy: SyncPolicy)
    requires file != [] && Open(file, synced, policy).Success?
    ensures var s := Open(file, synced, policy).value;
            && Valid(s)
            && ScanFrom(file, HEADER_LEN) == Scanned(LogOf(s), s.tail)
            && s.tail <= |file| && s.file == file[..s.tail]
            && s.nextId == NextIdOf(LogOf(s))
  {
    HeaderLength(file);
    RescanIsStable(file);
    var scan := ScanFrom(file, HEADER_LEN);
    hide VerifyHeader, IsLog, ScanFrom, Recovered, Valid;
    RecoveredMatches(file, synced, policy, scan.log, scan.end);
    MatchesIsValid(Recovered(file, synced, policy, scan.log, scan.end), scan.log);
  }

  lemma RecoveredMatches(file: seq<byte>, synced: nat, policy: SyncPolicy, log: seq<Record>, end: nat)
    requires HEADER_LEN <= end <= |file| && VerifyHeader(file) == Success(Unit)
    requires IsLog(file[..end], log)
    ensures var s := Recovered(file, synced, policy, log, end);
            Matches(s, log) && s.file == file[..end] && s.tail == end && s.nextId == NextIdOf(log)
  {
    hide VerifyHeader, IsLog, IndexOf, NextIdOf;
    HeaderOfPrefix(file[..end], file[end..]);
    assert file == file[..end] + file[end..];
  }

  /** A store that opens is in step with its file, holds the records the scan
      found, and has its ids below the next one unless some record carries the
      largest id there is. */
  lemma OpenIsValid(file: seq<byte>, synced: nat, policy: SyncPolicy)
    requires Open(file, synced, policy).Success?
    ensures var s := Open(file, synced, policy).value;
            && Valid(s)
            && s.nextId == NextIdOf(LogOf(s))
            && (FreshIds(s) <==> forall i :: 0 <= i < |LogOf(s)| ==> LogOf(s)[i].id != MAX_ID)
            && (file != [] ==> ScanFrom(file, HEADER_LEN) == Scanned(LogOf(s), s.tail))
            && (file != [] ==> s.tail <= |file| && s.file == file[..s.tail])
  {
    var s := Open(file, synced, policy).value;
    if file == [] {
      NewStoreIsValid(policy);
    } else {
      OpenExisting(file, synced, policy);
    }
    NextIdExceedsAll(LogOf(s));
    hide Open, Valid, ScanFrom, LogOf, NextIdOf;
  }

  lemma EmptyStore()
    ensures Open([], 0, Manual).Success?
    ensures var s := Open([], 0, Manual).value;
            && Valid(s) && FreshIds(s) && s.nextId == 1 && LogOf(s) == [] && Held(s) == map[] && s.indexes == map[]
  {
    NewStoreIsValid(Manual);
    OpenIsValid([], 0, Manual);
  }

  lemma HeaderLength(file: seq<byte>)
    requires VerifyHeader(file).Success?
    ensures |file| >= HEADER_LEN
  {}

  /** A second open recovers the same state and cuts nothing. */
  lemma ReopenIsStable(file: seq<byte>, synced: nat, policy: SyncPolicy)
    requires Open(file, synced, policy).Success?
    ensures var s := Open(file, synced, policy).value;
            Open(s.file, s.synced, policy) == Success(s)
  {
    hide LogOf, ScanFrom, IndexOf, NextIdOf, VerifyHeader, IsLog, FreshHeader;
    OpenIsValid(file, synced, policy);
    NewStoreIsValid(policy);
    var s := Open(file, synced, policy).value;
    CleanScan(s.file, LogOf(s));
    HeaderLength(s.file);
    assert s.file[..|s.file|] == s.file;
  }

  /** The file of a store in step opens, uncut, to the same records and documents. */
  lemma ValidReopens(s: Store, synced: nat, policy: SyncPolicy)
    requires Valid(s)
    ensures Open(s.file, synced, policy).Success?
    ensures var t := Open(s.file, synced, policy).value;
            && t.file == s.file && t.index == s.index && t.tail == s.tail && t.nextId == NextIdOf(LogOf(s))
            && LogOf(t) == LogOf(s) && Held(t) == Held(s)
  {
    hide VerifyHeader, ScanFrom, IndexOf, NextIdOf, IsLog;
    CleanScan(s.file, LogOf(s));
    HeaderLength(s.file);
    assert s.file[..|s.file|] == s.file;
    SameHeld(s, Open(s.file, synced, policy).value);
  }

  // ---- What an open refuses -------------------------------------------------------------------

  /** ASCII "BISONDB1". */
  ghost predicate HasMagic(file: seq<byte>) {
    |file| >= 16 && file[..8] == [0x42, 0x49, 0x53, 0x4F, 0x4E, 0x44, 0x42, 0x31]
  }

  /** Opening a non-empty file fails with `BadMagic` exactly when it is shorter than
      the 16 bytes of a header or does not begin with the magic, and with
      `UnsupportedVersion` exactly when it does and its version field is above 1. */
  lemma OpenRefusesIff(file: seq<byte>, synced: nat, policy: SyncPolicy, v: nat)
    requires file != []
    ensures Open(file, synced, policy) == Failure(BadMagic) <==> !HasMagic(file)
    ensures Open(file, synced, policy) == Failure(UnsupportedVersion(v)) <==>
            HasMagic(file) && v > 1 && v == file[8] + 0x100 * file[9] as int
  {
    if |file| >= 16 {
      TwoBytes(file[8..10]);
    }
    hide ScanFrom, FromLE, Recovered;
    if VerifyHeader(file).Success? && ScanFrom(file, HEADER_LEN).Broken? {
      ScanFailures(file, HEADER_LEN);
    }
  }

  lemma TwoBytes(s: seq<byte>)
    requires |s| == 2
    ensures FromLE(s) == s[0] + 0x100 * s[1] as int
  {
    assert s[1..][1..] == [];
    assert FromLE(s[1..]) == s[1];
  }

  /** Changing any byte of the magic makes the next open fail with `BadMagic`. */
  lemma MagicDamageIsCaught(s: Store, i: nat, b: byte, policy: SyncPolicy)
    requires Valid(s) && i < 8 && i < |s.file| && b != s.file[i]
    ensures Open(s.file[i := b], |s.file|, policy) == Failure(BadMagic)
  {
    var damaged := s.file[i := b];
    HeaderLength(s.file);
    assert damaged[..8][i] == b && s.file[..8][i] == s.file[i];
    assert damaged[..8] != s.file[..8];
    OpenRefusesIff(damaged, |s.file|, policy, 0);
  }

  // ---- Opening a damaged file ----------------------------------------------------------------

  /** Opening cuts a file back to `before` exactly when the scan ends there. */
  lemma OpensToIff(header: seq<byte>, before: seq<Record>, rest: seq<byte>, synced: nat, policy: SyncPolicy)
    requires |header| == HEADER_LEN && VerifyHeader(header) == Success(Unit)
    ensures var file := header + Frames(before) + rest;
            var o := Open(file, synced, policy);
            o.Success? && LogOf(o.value) == before && o.value.file == header + Frames(before) <==>
            ScanFrom(file, HEADER_LEN) == Scanned(before, HEADER_LEN + |Frames(before)|)
  {
    hide VerifyHeader, ScanFrom, IndexOf, NextIdOf, Frames, LogOf, Valid;
    var prefix := header + Frames(before);
    var file := prefix + rest;
    HeaderOfPrefix(header, Frames(before) + rest);
    assert header + (Frames(before) + rest) == file;
    assert file[..|prefix|] == prefix;
    if Open(file, synced, policy).Success? {
      OpenIsValid(file, synced, policy);
      ScanSound(file, HEADER_LEN);
    }
  }

  /** A damaged length field, as an open sees it: the damaged record and every
      record after it are cut from the file, without an error, exactly when the new
      length is out of range or past the end, or names exactly the end and the
      checksum fails there. */
  lemma LengthDamageCutsFileIff(header: seq<byte>, before: seq<Record>, r: Record, field: seq<byte>, after: seq<Record>,
                                synced: nat, policy: SyncPolicy)
    requires |header| == HEADER_LEN && VerifyHeader(header) == Success(Unit) && WfLog(before) && |field| == 4
    ensures var rest := Relengthed(r, field) + Frames(after);
            var len := FromLE(field);
            var o := Open(header + Frames(before) + rest, synced, policy);
            && |rest| == |Frame(r)| + |Frames(after)|
            && (o.Success? && LogOf(o.value) == before && o.value.file == header + Frames(before) <==>
                || len < MIN_PAYLOAD || len > MAX_RECORD_BYTES || FRAME_LEN + len > |rest|
                || (FRAME_LEN + len == |rest| && Crc32c.Crc(rest[FRAME_LEN..]) != Crc32c.Crc(Payload(r))))
  {
    hide VerifyHeader, ScanFrom, Frames, Frame, LogOf, Open, WfLog, Payload, Crc32c.Crc, FromLE;
    LengthDamageIsSilentIff(header, before, r, field, after);
    OpensToIff(header, before, Relengthed(r, field) + Frames(after), synced, policy);
  }

  /** Two documents, the first record's length overwritten with zeros: the file
      opens, holds nothing, and is cut back to its header. */
  lemma ZeroedLengthLosesBoth()
    ensures var file := FreshHeader() + (Relengthed(PutRecord(1, []), [0, 0, 0, 0]) + Frames([PutRecord(2, [])]));
            var o := Open(file, |file|, Manual);
            o.Success? && LogOf(o.value) == [] && o.value.file == FreshHeader()
  {
    FreshHeaderVerifies([]);
    assert FreshHeader() + [] == FreshHeader();
    assert FromLE([0, 0, 0, 0]) == 0 by { ZeroFromLE(); }
    NoFrames();
    hide FreshHeader, VerifyHeader, ScanFrom, Frame, Frames, PutRecord, LogOf, Open, Payload, Crc32c.Crc, FromLE;
    var rest := Relengthed(PutRecord(1, []), [0, 0, 0, 0]) + Frames([PutRecord(2, [])]);
    LengthDamageCutsFileIff(FreshHeader(), [], PutRecord(1, []), [0, 0, 0, 0], [PutRecord(2, [])],
                            |FreshHeader() + rest|, Manual);
    assert FreshHeader() + [] + rest == FreshHeader() + rest;
  }

  lemma ZeroFromLE()
    ensures FromLE([0, 0, 0, 0]) == 0
  {
    assert FromLE([0, 0]) == 0 by { assert [0, 0][1..] == [0]; }
    assert [0, 0, 0, 0][1..] == [0, 0, 0] && [0, 0, 0][1..] == [0, 0];
  }

  /** A file whose only record carries the largest id opens to a next id of 0, which
      is below that record's. */
  lemma LargestIdWraps(doc: Document, policy: SyncPolicy)
    requires Accepts(doc)
    ensures var file := FreshHeader() + Frame(PutRecord(MAX_ID, doc));
            && Open(file, |file|, policy).Success?
            && var s := Open(file, |file|, policy).value;
               LogOf(s) == [PutRecord(MAX_ID, doc)] && s.nextId == 0 && !FreshIds(s)
  {
    hide FreshHeader, VerifyHeader, ScanFrom, Frame, Accepts, EncodeDoc, LogOf, IndexOf, Valid, WfDoc;
    var r := PutRecord(MAX_ID, doc);
    var file := FreshHeader() + Frame(r);
    PutIsWellFormed(MAX_ID, doc);
    FreshHeaderVerifies(Frame(r));
    NoFrames();
    LogExtends(FreshHeader(), [], r);
    assert [] + [r] == [r];
    CleanScan(file, [r]);
    OpenIsValid(file, |file|, policy);
    assert [r][..0] == [];
    assert NextIdOf([r]) == Advance(NextIdOf([]), MAX_ID);
    assert LogOf(Open(file, |file|, policy).value) == [r];
    assert [r][0].id == MAX_ID;
  }

  // ---- What one append does ----------------------------------------------------------------

  lemma AppendKeepsValid(s: Store, r: Record)
    requires Valid(s) && WfRecord(r)
    ensures Valid(AppendRecord(s, r))
    ensures LogOf(AppendRecord(s, r)) == LogOf(s) + [r]
    ensures Held(AppendRecord(s, r)) == ApplyToDocs(Held(s), r)
  {
    var log := LogOf(s);
    LogExtends(s.file, log, r);
    HeaderOfPrefix(s.file, Frame(r));
    StateSnoc(log, r);
    DocsSnoc(log, r);
    hide Frame, VerifyHeader, IsLog, LogOf, DocsOf, ApplyToIndex, ApplyToDocs, IndexOf;
    MatchesIsValid(AppendRecord(s, r), log + [r]);
  }

  /** The secondary indexes and the next id do not enter the file. */
  lemma MemoryOnly(s: Store, ix: Indexes, next: u64)
    requires Valid(s)
    ensures Valid(s.(indexes := ix, nextId := next))
    ensures LogOf(s.(indexes := ix, nextId := next)) == LogOf(s)
  {}

  lemma PutIsWellFormed(id: u64, doc: Document)
    requires Accepts(doc)
    ensures WfRecord(PutRecord(id, doc))
    ensures WfDoc(doc) ==> Decode(PutRecord(id, doc).body) == Success(doc)
  {
    SmallDocFits(doc);
    hide EncodeDoc, Decode, WfDoc;
    if WfDoc(doc) {
      DecodeOfEncode(doc);
    }
  }

  /** Appending the same documents as a fresh record `r` keeps ids below `next`. */
  lemma IdsBelowSnoc(log: seq<Record>, r: Record, next: nat, next': nat)
    requires IdsBelow(log, next) && next <= next' && r.id < next'
    ensures IdsBelow(log + [r], next')
  {}

  // ---- Every operation keeps file, index and tail in step -------------------------------------

  lemma AppendIgnoresIndexes(s: Store, ix: Indexes, r: Record)
    ensures AppendRecord(s.(indexes := ix), r) == AppendRecord(s, r).(indexes := ix)
  {}

  lemma FlushKeepsValid(s: Store)
    requires Valid(s)
    ensures Valid(Flush(s)) && LogOf(Flush(s)) == LogOf(s)
  {
    hide LogOf, IsLog, VerifyHeader, IndexOf;
    SameHeld(s, Flush(s));
  }

  lemma InsertKeepsValid(s: Store, doc: Document)
    requires Valid(s)
    ensures Valid(Insert(s, doc).0)
  {
    hide EncodeDoc, Held, Accepts, LogOf, Frame, Valid, WfDoc, AddAll;
    if Accepts(doc) {
      var r := PutRecord(s.nextId, doc);
      PutIsWellFormed(s.nextId, doc);
      AppendKeepsValid(s, r);
      MemoryOnly(AppendRecord(s, r), AddAll(s.indexes, s.nextId, doc), Successor(s.nextId));
    }
  }

  lemma UpdateKeepsValid(s: Store, id: u64, doc: Document)
    requires Valid(s)
    ensures Valid(Update(s, id, doc).0)
  {
    hide EncodeDoc, Held, Accepts, LogOf, Frame, Valid, WfDoc, AddAll, Unlist;
    if id in s.index && Unlist(s, id).Success? {
      var ix := Unlist(s, id).value;
      MemoryOnly(s, ix, s.nextId);
      if Accepts(doc) {
        PutIsWellFormed(id, doc);
        AppendKeepsValid(s, PutRecord(id, doc));
        MemoryOnly(AppendRecord(s, PutRecord(id, doc)), AddAll(ix, id, doc), s.nextId);
      }
    }
  }

  lemma DeleteKeepsValid(s: Store, id: u64)
    requires Valid(s)
    ensures Valid(Delete(s, id).0)
  {
    hide Held, LogOf, Frame, Valid, Unlist;
    if id in s.index && Unlist(s, id).Success? {
      AppendKeepsValid(s, DeleteRecord(id));
      MemoryOnly(AppendRecord(s, DeleteRecord(id)), Unlist(s, id).value, s.nextId);
    }
  }

  // ---- Operations against the map of documents -----------------------------------------------

  /** An insert either is rejected and changes nothing, or adds the document under
      an id that was not in use. */
  lemma InsertSpec(s: Store, doc: Document)
    requires Valid(s) && FreshIds(s) && WfDoc(doc) && s.nextId != MAX_ID
    ensures var (s', r) := Insert(s, doc);
            && Valid(s') && FreshIds(s')
            && (r.Success? <==> Accepts(doc))
            && (r.Failure? ==> s' == s)
            && (r.Success? ==> r.value == s.nextId && r.value !in Held(s)
                               && Held(s') == Held(s)[r.value := Success(doc)]
                               && LogOf(s') == LogOf(s) + [PutRecord(r.value, doc)])
  {
    if Accepts(doc) {
      var id := s.nextId;
      var r := PutRecord(id, doc);
      PutIsWellFormed(id, doc);
      hide EncodeDoc, Decode, Held, Accepts, LogOf, Frame;
      AppendKeepsValid(s, r);
      MemoryOnly(AppendRecord(s, r), AddAll(s.indexes, id, doc), Successor(id));
      IdsBelowSnoc(LogOf(s), r, s.nextId, Successor(id));
      FreshIdIsUnused(s);
      SameHeld(AppendRecord(s, r), Insert(s, doc).0);
    }
  }

  lemma SameHeld(s: Store, t: Store)
    requires s.file == t.file
    ensures Held(s) == Held(t) && LogOf(s) == LogOf(t)
  {}

  lemma FreshIdIsUnused(s: Store)
    requires FreshIds(s)
    ensures s.nextId !in Held(s)
  {
    if s.nextId in Held(s) {
      BodiesComeFromRecords(LogOf(s), s.nextId);
    }
  }

  /** An update of a live id replaces the document, unless the old one cannot be
      read for unlisting or the new one is too large. */
  lemma UpdateSpec(s: Store, id: u64, doc: Document)
    requires Valid(s) && WfDoc(doc)
    ensures var (s', r) := Update(s, id, doc);
            && Valid(s')
            && (r == Success(true) ==> id in Held(s) && Held(s') == Held(s)[id := Success(doc)]
                                       && LogOf(s') == LogOf(s) + [PutRecord(id, doc)])
            && (r != Success(true) ==> s'.file == s.file && Held(s') == Held(s) && LogOf(s') == LogOf(s))
            && (r == Success(false) <==> id !in Held(s))
            && (r.Success? ==> r.value == (id in Held(s)))
            && (Healthy(Held(s)) ==> (r.Failure? <==> id in Held(s) && !Accepts(doc)))
            && s'.nextId == s.nextId && s'.policy == s.policy
  {
    IndexMatchesHeld(s);
    if id in s.index && Unlist(s, id).Success? {
      var ix := Unlist(s, id).value;
      hide Held, Accepts, LogOf, Frame, ReadBody, EncodeDoc;
      if Accepts(doc) {
        PutIsWellFormed(id, doc);
        AppendKeepsValid(s, PutRecord(id, doc));
        MemoryOnly(AppendRecord(s, PutRecord(id, doc)), AddAll(ix, id, doc), s.nextId);
        SameHeld(AppendRecord(s, PutRecord(id, doc)), Update(s, id, doc).0);
      } else {
        MemoryOnly(s, ix, s.nextId);
        SameHeld(s, Update(s, id, doc).0);
      }
    }
  }

  /** Unlisting fails only on a document that cannot be read. */
  lemma UnlistFailure(s: Store, id: u64)
    requires Valid(s)
    ensures id in s.index && Unlist(s, id).Failure? ==> !Healthy(Held(s))
  {
    hide Held, ReadBody, Valid, RemoveAll;
    IndexMatchesHeld(s);
  }

  /** A delete of a live id removes it, unless its document cannot be read for
      unlisting; a tombstone is never too large. */
  lemma DeleteSpec(s: Store, id: u64)
    requires Valid(s)
    ensures var (s', r) := Delete(s, id);
            && Valid(s')
            && (r == Success(true) ==> id in Held(s) && Held(s') == Held(s) - {id}
                                       && LogOf(s') == LogOf(s) + [DeleteRecord(id)])
            && (r != Success(true) ==> s' == s)
            && (r.Success? ==> r.value == (id in Held(s)))
            && (Healthy(Held(s)) ==> r.Success?)
            && s'.nextId == s.nextId && s'.policy == s.policy
  {
    hide Held, LogOf, ReadBody, Valid, Frame, ApplyToIndex, Unlist, Healthy;
    IndexMatchesHeld(s);
    UnlistFailure(s, id);
    if id in s.index && Unlist(s, id).Success? {
      var ix := Unlist(s, id).value;
      AppendKeepsValid(s, DeleteRecord(id));
      MemoryOnly(AppendRecord(s, DeleteRecord(id)), ix, s.nextId);
      SameHeld(AppendRecord(s, DeleteRecord(id)), Delete(s, id).0);
    }
  }

  /** Reading back: what was just inserted or updated is returned, what was just
      deleted is not there, and no other id is disturbed. */
  lemma ReadsBack(s: Store, id: u64, doc: Document, other: u64)
    requires Valid(s) && WfDoc(doc)
    ensures FreshIds(s) && s.nextId != MAX_ID && Insert(s, doc).1 == Success(id) ==>
              Fetch(Insert(s, doc).0, other) == if other == id then Success(Some(doc)) else Fetch(s, other)
    ensures Update(s, id, doc).1 == Success(true) ==>
              Fetch(Update(s, id, doc).0, other) == if other == id then Success(Some(doc)) else Fetch(s, other)
    ensures Delete(s, id).1 == Success(true) ==>
              Fetch(Delete(s, id).0, other) == if other == id then Success(None) else Fetch(s, other)
  {
    hide Held, Valid, Insert, Update, Delete, Fetch, LogOf, WfDoc, FreshIds, PutRecord, DeleteRecord, Healthy;
    FetchIsLookup(s, other);
    if FreshIds(s) && s.nextId != MAX_ID {
      InsertSpec(s, doc);
      FetchIsLookup(Insert(s, doc).0, other);
    }
    UpdateSpec(s, id, doc);
    FetchIsLookup(Update(s, id, doc).0, other);
    DeleteSpec(s, id);
    FetchIsLookup(Delete(s, id).0, other);
  }

  /** Updates and deletes touch only ids that some record already carries. */
  lemma LiveIdIsBelow(s: Store, id: u64)
    requires FreshIds(s) && id in Held(s)
    ensures id < s.nextId
  {
    BodiesComeFromRecords(LogOf(s), id);
  }
}
