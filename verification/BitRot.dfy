/** Bytes that change in the file while a store has it open: what is noticed, and
    when. The checksum is checked by replay alone. */
module BitRot {
  import opened Bytes
  import opened Documents
  import opened Errors
  import opened Codec
  import opened Log
  import opened LogState
  import opened Contents
  import opened Store
  import opened Compaction
  import Crc32c

  /** What the index points at in a file of the same length, whatever its bytes. */
  ghost function BodiesIn(file: seq<byte>, index: Index): Bodies
    requires InFile(index, |file|)
  {
    map id | id in index :: file[index[id].offset..index[id].offset + index[id].len]
  }

  /** Every entry lies in the file and is short enough for a record. */
  ghost predicate InFile(index: Index, len: nat) {
    forall id :: id in index ==>
      index[id].offset + index[id].len <= len && MIN_PAYLOAD + index[id].len <= MAX_RECORD_BYTES
  }

  lemma ValidIndexIsWithin(s: Store)
    requires Valid(s)
    ensures InFile(s.index, |s.file|)
  {
    hide LogOf, Valid, BodiesOf;
    forall id | id in s.index
      ensures s.index[id].offset + s.index[id].len <= |s.file| && MIN_PAYLOAD + s.index[id].len <= MAX_RECORD_BYTES
    {
      LiveBody(s, id);
      BodiesComeFromRecords(LogOf(s), id);
      LogIsWellFormed(s);
    }
  }

  lemma LogIsWellFormed(s: Store)
    requires Valid(s)
    ensures forall i :: 0 <= i < |LogOf(s)| ==> MIN_PAYLOAD + |LogOf(s)[i].body| <= MAX_RECORD_BYTES
  {
    hide LogOf;
    assert forall i :: 0 <= i < |LogOf(s)| ==> WfRecord(LogOf(s)[i]);
  }

  /** `get` notices damage exactly when the bytes no longer decode; otherwise it
      returns whatever they decode to. */
  lemma FetchTrustsBytes(s: Store, file: seq<byte>, id: u64)
    requires Valid(s) && |file| == |s.file|
    ensures InFile(s.index, |file|)
    ensures Fetch(s.(file := file), id) == Lookup(DecodeAll(BodiesIn(file, s.index)), id)
    ensures Fetch(s.(file := file), id).Failure? <==>
            id in s.index && Decode(BodiesIn(file, s.index)[id]).Failure?
  {
    hide Decode, Valid;
    ValidIndexIsWithin(s);
  }

  /** Compaction notices no damage at all: it stamps what it reads with fresh
      checksums, and the file it writes opens to the same answers, wrong ones
      included. */
  lemma CompactionTrustsBytes(s: Store, file: seq<byte>, order: seq<u64>, policy: SyncPolicy)
    requires Valid(s) && |file| == |s.file| && IsOrder(order, s.index.Keys)
    ensures InFile(s.index, |file|) && forall id :: id in order ==> id in s.index
    ensures var out := CompactFile(BodiesIn(file, s.index), order);
            && Open(out, |out|, policy).Success?
            && forall id :: Fetch(Open(out, |out|, policy).value, id) == Fetch(s.(file := file), id)
  {
    hide Decode, Valid, Open, CompactFile, CompactLog, BodiesOf, LogOf, Frames, FreshHeader, Restrict, Fetch, Held,
         DecodeAll, Lookup;
    ValidIndexIsWithin(s);
    var bodies := BodiesIn(file, s.index);
    OrderCovers(bodies, order);
    var log := CompactLog(bodies, order);
    ReadLogIsWellFormed(bodies, order);
    CompactFileIs(bodies, order);
    RewrittenMatches(s, log);
    CompactBodies(bodies, order);
    var out := CompactFile(bodies, order);
    var t := s.(file := out, synced := |out|, index := IndexOf(log), tail := |out|);
    ValidReopens(t, |out|, policy);
    OpenIsValid(out, |out|, policy);
    HeldIsDecoded(t);
    forall id
      ensures Fetch(Open(out, |out|, policy).value, id) == Fetch(s.(file := file), id)
    {
      FetchIsLookup(Open(out, |out|, policy).value, id);
      FetchTrustsBytes(s, file, id);
    }
  }

  lemma HeldIsDecoded(s: Store)
    ensures Held(s) == DecodeAll(BodiesOf(LogOf(s)))
  {}

  lemma ReadLogIsWellFormed(bodies: Bodies, order: seq<u64>)
    requires forall id :: id in order ==> id in bodies && MIN_PAYLOAD + |bodies[id]| <= MAX_RECORD_BYTES
    ensures WfLog(CompactLog(bodies, order))
  {
    CompactLogAt(bodies, order);
    hide CompactLog;
    forall i | 0 <= i < |order|
      ensures WfRecord(CompactLog(bodies, order)[i])
    {
      assert order[i] in order;
    }
  }

  // ---- Damage that replay reports and nothing else does ---------------------------------------

  /** A file in which the record of `id`, put with `doc`, was overwritten with the
      bytes of `other`. */
  function Overwritten(header: seq<byte>, before: seq<Record>, id: u64, doc: Document, other: Document, after: seq<Record>)
    : seq<byte>
  {
    header + Frames(before) + DamagedFrame(PutRecord(id, doc), Payload(PutRecord(id, other))) + Frames(after)
  }

  /** One body replaced by another that decodes, within four bytes: replay reports
      it, `get` on the open store returns the other document. */
  lemma RotIsMisread(s: Store, before: seq<Record>, id: u64, doc: Document, other: Document, after: seq<Record>, at: nat,
                     policy: SyncPolicy)
    requires Valid(s) && LogOf(s) == before + [PutRecord(id, doc)] + after && after != []
    requires id in s.index
             && s.index[id] == BodyLoc(HEADER_LEN + |Frames(before)| + FRAME_LEN + MIN_PAYLOAD, |EncodeDoc(doc)|)
    requires WfDoc(doc) && Accepts(doc) && WfDoc(other) && Accepts(other) && doc != other
    requires Crc32c.DifferWithin(Payload(PutRecord(id, doc)), Payload(PutRecord(id, other)), at)
    requires at <= |Payload(PutRecord(id, doc))|
    ensures |s.file| >= HEADER_LEN
    ensures var file := Overwritten(s.file[..HEADER_LEN], before, id, doc, other, after);
            && |file| == |s.file|
            && Open(file, |file|, policy) == Failure(Corrupt(CrcMismatch))
            && Fetch(s.(file := file), id) == Success(Some(other))
  {
    hide EncodeDoc, Decode, WfDoc, Accepts, Crc32c.DifferWithin, Crc32c.Crc, Valid, LogOf, Frames, ScanFrom, VerifyHeader,
         LE;
    ValidFile(s);
    var header, r, q := s.file[..HEADER_LEN], PutRecord(id, doc), PutRecord(id, other);
    PutIsWellFormed(id, doc);
    PutIsWellFormed(id, other);
    SameLength(Payload(r), Payload(q), at);
    FramesAround(before, r, after);
    var damaged := DamagedFrame(r, Payload(q));
    PayloadsDiffer(id, doc, other);
    DamageIsCaught(header, before, r, Payload(q), at, Frames(after));
    SomeFrames(after);
    var file := header + Frames(before) + damaged + Frames(after);
    assert file == header + (Frames(before) + damaged + Frames(after));
    HeaderOfPrefix(header, s.file[HEADER_LEN..]);
    assert header + s.file[HEADER_LEN..] == s.file;
    HeaderOfPrefix(header, Frames(before) + damaged + Frames(after));
    var offset := |header + Frames(before)| + FRAME_LEN + MIN_PAYLOAD;
    BodyOfDamaged(header + Frames(before), r, q, Frames(after));
    assert file[offset..offset + |q.body|] == q.body;
  }

  lemma ValidFile(s: Store)
    requires Valid(s)
    ensures |s.file| == HEADER_LEN + |Frames(LogOf(s))| && VerifyHeader(s.file) == Success(Unit) && WfLog(LogOf(s))
  {}

  lemma FramesAround(before: seq<Record>, r: Record, after: seq<Record>)
    requires WfLog(before + [r] + after)
    ensures WfLog(before)
    ensures |Frames(before + [r] + after)| == |Frames(before)| + |Frame(r)| + |Frames(after)|
  {
    hide Frames, Frame;
    FramesConcat(before + [r], after);
    FramesSnoc(before, r);
    assert forall i :: 0 <= i < |before| ==> (before + [r] + after)[i] == before[i];
  }

  lemma PayloadsDiffer(id: u64, doc: Document, other: Document)
    requires WfDoc(doc) && Accepts(doc) && WfDoc(other) && Accepts(other) && doc != other
    ensures Payload(PutRecord(id, doc)) != Payload(PutRecord(id, other))
  {
    PutIsWellFormed(id, doc);
    PutIsWellFormed(id, other);
    PayloadParts(PutRecord(id, doc));
    PayloadParts(PutRecord(id, other));
    hide Payload, Decode, WfDoc, Accepts;
  }

  lemma SomeFrames(log: seq<Record>)
    requires log != []
    ensures Frames(log) != []
  {
    hide Frame;
    assert |Frame(log[0])| > 0;
  }

  lemma BodyOfDamaged(front: seq<byte>, r: Record, q: Record, back: seq<byte>)
    requires |Payload(r)| == |Payload(q)|
    ensures var file := front + DamagedFrame(r, Payload(q)) + back;
            var offset := |front| + FRAME_LEN + MIN_PAYLOAD;
            |file| == |front| + |Frame(r)| + |back| && file[offset..offset + |q.body|] == q.body
  {
    PayloadParts(q);
    var d := DamagedFrame(r, Payload(q));
    var file, offset := front + d + back, |front| + FRAME_LEN + MIN_PAYLOAD;
    hide Payload, Frame;
    assert d[FRAME_LEN..] == Payload(q);
    SliceOfSlice(file, |front|, |front| + |d|, FRAME_LEN + MIN_PAYLOAD, |d|);
    assert file[|front|..|front| + |d|] == d;
    assert d[FRAME_LEN + MIN_PAYLOAD..|d|] == d[FRAME_LEN..][MIN_PAYLOAD..];
  }

  function Flag(b: bool): Document {
    [Field([], Bool(b))]
  }

  /** Two documents with a flag; one bit of the first is flipped on the disk. `get`
      returns the flipped flag. */
  lemma FlippedFlagIsMisread()
    ensures exists s: Store, file ::
              && Valid(s) && |file| == |s.file| && Fetch(s, 1) == Success(Some(Flag(false)))
              && Open(file, |file|, Manual) == Failure(Corrupt(CrcMismatch))
              && Fetch(s.(file := file), 1) == Success(Some(Flag(true)))
  {
    hide Flag, WfDoc, Accepts, Valid, LogOf, Fetch, Open, Overwritten, Payload, EncodeDoc, Frames, Crc32c.DifferWithin,
         Held, PutRecord;
    var s := TwoFlags();
    FlagsAreClose();
    var no, yes := Flag(false), Flag(true);
    RotIsMisread(s, [], 1, no, yes, [PutRecord(2, no)], |Payload(PutRecord(1, no))| - 1, Manual);
  }

  lemma FlagsAreClose()
    ensures WfDoc(Flag(false)) && Accepts(Flag(false)) && WfDoc(Flag(true)) && Accepts(Flag(true))
    ensures Flag(false) != Flag(true)
    ensures var p := Payload(PutRecord(1, Flag(false)));
            |p| >= 1 && Crc32c.DifferWithin(p, Payload(PutRecord(1, Flag(true))), |p| - 1)
  {
    FlagBytes(false);
    FlagBytes(true);
    hide EncodeDoc, LE;
  }

  lemma FlagBytes(b: bool)
    ensures WfDoc(Flag(b)) && Accepts(Flag(b))
    ensures EncodeDoc(Flag(b)) == LE(1, 4) + LE(0, 4) + [1, if b then 1 else 0]
  {
    var d := Flag(b);
    assert d[1..] == [];
    assert EncodeFields(d) == EncodeField(d[0]) + EncodeFields([]);
    hide LE;
    assert EncodeField(d[0]) == LE(0, 4) + [1, if b then 1 else 0];
    assert ValidUtf8([]);
  }

  lemma TwoFlags() returns (s: Store)
    ensures Valid(s) && LogOf(s) == [] + [PutRecord(1, Flag(false))] + [PutRecord(2, Flag(false))]
    ensures 1 in s.index
    ensures s.index[1] == BodyLoc(HEADER_LEN + |Frames([])| + FRAME_LEN + MIN_PAYLOAD, |EncodeDoc(Flag(false))|)
    ensures Fetch(s, 1) == Success(Some(Flag(false)))
  {
    EmptyStore();
    FlagsAreClose();
    NoFrames();
    hide Flag, WfDoc, Accepts, Valid, LogOf, Fetch, Open, Frame, EncodeDoc, Frames, Held, AddAll, FreshIds;
    var s0, no := Open([], 0, Manual).value, Flag(false);
    EmptyIndex();
    InsertSpec(s0, no);
    var s1 := Insert(s0, no).0;
    InsertSpec(s1, no);
    s := Insert(s1, no).0;
    FetchIsLookup(s, 1);
  }

  lemma EmptyIndex()
    ensures Open([], 0, Manual).Success?
    ensures var s := Open([], 0, Manual).value; s.index == map[] && s.tail == HEADER_LEN && s.policy == Manual
  {
    hide FreshHeader;
  }
}
