/** The record log as bytes: framing, the scan that recovers records from a file,
    and the laws that make recovery deterministic. */
module Log {
  import opened Bytes
  import opened Errors
  import Crc32c

  const HEADER_LEN: nat := 16
  const FRAME_LEN: nat := 8
  const MIN_PAYLOAD: nat := 9
  const MAX_RECORD_BYTES: nat := 64 * 1024 * 1024
  const MAX_ID: u64 := 0xFFFF_FFFF_FFFF_FFFF

  /** "BISONDB1" */
  const MAGIC: seq<byte> := [0x42, 0x49, 0x53, 0x4F, 0x4E, 0x44, 0x42, 0x31]
  const FORMAT_VERSION: nat := 1

  const OP_PUT: byte := 1
  const OP_DELETE: byte := 2

  /** One log record; a delete normally has no body. */
  datatype Record = Record(op: byte, id: u64, body: seq<byte>)

  predicate WfRecord(r: Record) {
    (r.op == OP_PUT || r.op == OP_DELETE) && MIN_PAYLOAD + |r.body| <= MAX_RECORD_BYTES
  }

  ghost predicate WfLog(log: seq<Record>) {
    forall i :: 0 <= i < |log| ==> WfRecord(log[i])
  }

  // ---- Bytes of a log -----------------------------------------------------------------

  function FreshHeader(): (h: seq<byte>)
    ensures |h| == HEADER_LEN
  {
    MAGIC + LE(FORMAT_VERSION, 2) + [0, 0, 0, 0, 0, 0]
  }

  function Payload(r: Record): (p: seq<byte>)
    ensures |p| == MIN_PAYLOAD + |r.body|
  {
    [r.op] + LE(r.id, 8) + r.body
  }

  function FrameOf(payload: seq<byte>): (f: seq<byte>)
    ensures |f| == FRAME_LEN + |payload|
  {
    LE(|payload|, 4) + LE(Crc32c.Crc(payload), 4) + payload
  }

  function Frame(r: Record): (f: seq<byte>)
    ensures |f| == FRAME_LEN + MIN_PAYLOAD + |r.body|
  {
    FrameOf(Payload(r))
  }

  function Frames(log: seq<Record>): seq<byte> {
    if log == [] then [] else Frame(log[0]) + Frames(log[1..])
  }

  lemma {:induction false} FramesConcat(a: seq<Record>, b: seq<Record>)
    ensures Frames(a + b) == Frames(a) + Frames(b)
    decreases |a|
  {
    hide Frame;
    if a == [] {
      assert a + b == b;
    } else {
      assert (a + b)[1..] == a[1..] + b;
      FramesConcat(a[1..], b);
    }
  }

  lemma NoFrames()
    ensures Frames([]) == []
  {}

  lemma FramesSplit(log: seq<Record>)
    requires log != []
    ensures Frames(log) == Frame(log[0]) + Frames(log[1..])
  {}

  lemma FramesOne(r: Record)
    ensures Frames([r]) == Frame(r)
  {
    assert [r][1..] == [];
    assert Frames([r]) == Frame(r) + Frames([]);
  }

  lemma FramesSnoc(log: seq<Record>, r: Record)
    ensures Frames(log + [r]) == Frames(log) + Frame(r)
  {
    FramesConcat(log, [r]);
    FramesOne(r);
  }

  // ---- Recovery -----------------------------------------------------------------------

  function VerifyHeader(file: seq<byte>): Result<Unit> {
    if |file| < HEADER_LEN then Failure(BadMagic)
    else if file[..8] != MAGIC then Failure(BadMagic)
    else if FromLE(file[8..10]) > FORMAT_VERSION then Failure(UnsupportedVersion(FromLE(file[8..10])))
    else Success(Unit)
  }

  lemma FreshHeaderVerifies(rest: seq<byte>)
    ensures VerifyHeader(FreshHeader() + rest) == Success(Unit)
  {
    var f := FreshHeader() + rest;
    assert f[..8] == MAGIC;
    assert f[8..10] == LE(FORMAT_VERSION, 2);
    assert Pow256(2) == 65536;
    FromLEOfLE(FORMAT_VERSION, 2);
  }

  /** One turn of the replay loop. */
  datatype Turn = Stop | Fail(error: Error) | Next(r: Record, end: nat)

  function ReadRecord(file: seq<byte>, offset: nat): (t: Turn)
    ensures t.Next? ==> offset < t.end <= |file|
  {
    if offset + FRAME_LEN > |file| then Stop
    else
      var len := FromLE(file[offset..offset + 4]);
      var crc := FromLE(file[offset + 4..offset + 8]);
      var end := offset + FRAME_LEN + len;
      if len < MIN_PAYLOAD || len > MAX_RECORD_BYTES then Stop
      else if end > |file| then Stop
      else ReadPayload(file[offset + FRAME_LEN..end], crc, end, |file|)
  }

  function ReadPayload(payload: seq<byte>, crc: nat, end: nat, fileLen: nat): Turn
    requires |payload| >= MIN_PAYLOAD
  {
    if Crc32c.Crc(payload) != crc then
      if end == fileLen then Stop else Fail(Corrupt(CrcMismatch))
    else if payload[0] == OP_PUT || payload[0] == OP_DELETE then
      FromLE64Bound(payload[1..9]);
      Next(Record(payload[0], FromLE(payload[1..9]), payload[9..]), end)
    else Fail(Corrupt(UnknownOp))
  }

  datatype Scan = Scanned(log: seq<Record>, end: nat) | Broken(error: Error)

  function Prepend(log: seq<Record>, s: Scan): Scan {
    match s
    case Scanned(tail, end) => Scanned(log + tail, end)
    case Broken(e) => Broken(e)
  }

  /** Every record from `offset` on. */
  function ScanFrom(file: seq<byte>, offset: nat): Scan
    decreases |file| - offset
  {
    hide ReadRecord;
    match ReadRecord(file, offset)
    case Stop => Scanned([], offset)
    case Fail(e) => Broken(e)
    case Next(r, end) => Prepend([r], ScanFrom(file, end))
  }

  // ---- One record ---------------------------------------------------------------------

  lemma PayloadParts(r: Record)
    ensures Payload(r)[0] == r.op && FromLE(Payload(r)[1..9]) == r.id && Payload(r)[9..] == r.body
  {
    assert Payload(r)[1..9] == LE(r.id, 8);
    LE64RoundTrip(r.id);
  }

  lemma PayloadFromParts(payload: seq<byte>)
    requires |payload| >= MIN_PAYLOAD
    ensures FromLE(payload[1..9]) < U64_LIMIT
    ensures Payload(Record(payload[0], FromLE(payload[1..9]), payload[9..])) == payload
  {
    FromLE64Bound(payload[1..9]);
    assert [payload[0]] + payload[1..9] + payload[9..] == payload;
  }

  lemma FrameParts(payload: seq<byte>)
    requires |payload| < U32_LIMIT
    ensures FromLE(FrameOf(payload)[..4]) == |payload|
    ensures FromLE(FrameOf(payload)[4..8]) == Crc32c.Crc(payload)
    ensures FrameOf(payload)[8..] == payload
  {
    hide Crc32c.Crc;
    var f := FrameOf(payload);
    assert f[..4] == LE(|payload|, 4);
    assert f[4..8] == LE(Crc32c.Crc(payload), 4);
    LE32RoundTrip(|payload|);
    LE32RoundTrip(Crc32c.Crc(payload));
  }

  /** A record the scan accepts is in the file byte for byte. */
  lemma ReadRecordSound(file: seq<byte>, offset: nat)
    requires ReadRecord(file, offset).Next?
    ensures var t := ReadRecord(file, offset);
            && WfRecord(t.r) && t.end == offset + |Frame(t.r)| <= |file|
            && file[offset..t.end] == Frame(t.r)
  {
    hide Crc32c.Crc, FromLE;
    var t := ReadRecord(file, offset);
    var payload := file[offset + 8..t.end];
    PayloadFromParts(payload);
    FromLE32Bound(file[offset..offset + 4]);
    FromLE32Bound(file[offset + 4..offset + 8]);
    assert file[offset..t.end] ==
           file[offset..offset + 4] + file[offset + 4..offset + 8] + payload;
  }

  /** A frame that is in the file is accepted, whatever follows it. */
  lemma ReadRecordComplete(file: seq<byte>, offset: nat, r: Record)
    requires WfRecord(r) && offset + |Frame(r)| <= |file|
    requires file[offset..offset + |Frame(r)|] == Frame(r)
    ensures ReadRecord(file, offset) == Next(r, offset + |Frame(r)|)
  {
    hide Crc32c.Crc, FromLE;
    var end := offset + |Frame(r)|;
    FrameParts(Payload(r));
    PayloadParts(r);
    FrameSlices(file, offset, end);
    assert file[offset + FRAME_LEN..end] == Payload(r);
    assert ReadRecord(file, offset) == ReadPayload(Payload(r), Crc32c.Crc(Payload(r)), end, |file|);
  }

  lemma SliceOfSlice(data: seq<byte>, lo: nat, hi: nat, i: nat, j: nat)
    requires lo <= hi <= |data| && i <= j <= hi - lo
    ensures data[lo..hi][i..j] == data[lo + i..lo + j]
  {
    var part := data[lo..hi];
    forall k | 0 <= k < j - i
      ensures part[i..j][k] == data[lo + i..lo + j][k]
    {
      assert part[i..j][k] == part[i + k];
    }
  }

  /** What a slice that starts with `front` holds, in two parts. */
  lemma SplitSlice(data: seq<byte>, lo: nat, hi: nat, front: seq<byte>, back: seq<byte>)
    requires lo <= hi <= |data| && |front| <= hi - lo <= |front| + |back|
    requires data[lo..hi] == (front + back)[..hi - lo]
    ensures data[lo..lo + |front|] == front
    ensures data[lo + |front|..hi] == back[..hi - lo - |front|]
  {
    var n := hi - lo;
    SliceOfSlice(data, lo, hi, 0, |front|);
    SliceOfSlice(data, lo, hi, |front|, n);
    assert (front + back)[..n] == front + back[..n - |front|];
  }

  /** The parts of a frame are slices of the file. */
  lemma FrameSlices(file: seq<byte>, offset: nat, end: nat)
    requires offset + FRAME_LEN <= end <= |file|
    ensures file[offset..offset + 4] == file[offset..end][..4]
    ensures file[offset + 4..offset + FRAME_LEN] == file[offset..end][4..FRAME_LEN]
    ensures file[offset + FRAME_LEN..end] == file[offset..end][FRAME_LEN..]
  {
    SliceOfSlice(file, offset, end, 0, 4);
    SliceOfSlice(file, offset, end, 4, FRAME_LEN);
    SliceOfSlice(file, offset, end, FRAME_LEN, end - offset);
  }

  /** A frame cut short by the end of the file stops the scan quietly. */
  lemma PartialFrameStops(file: seq<byte>, offset: nat, r: Record)
    requires WfRecord(r) && offset <= |file| < offset + |Frame(r)|
    requires file[offset..] == Frame(r)[..|file| - offset]
    ensures ReadRecord(file, offset) == Stop
  {
    hide Crc32c.Crc, FromLE;
    if offset + FRAME_LEN <= |file| {
      FrameParts(Payload(r));
      assert file[offset..offset + 4] == file[offset..][..4] == Frame(r)[..4];
    }
  }

  // ---- Whole logs -----------------------------------------------------------------------

  lemma PrependTwice(a: seq<Record>, b: seq<Record>, s: Scan)
    ensures Prepend(a, Prepend(b, s)) == Prepend(a + b, s)
    ensures Prepend([], s) == s
  {
    if s.Scanned? {
      assert a + (b + s.log) == a + b + s.log;
      assert [] + s.log == s.log;
    }
  }

  /** What a scan returns is what the bytes say. */
  lemma {:induction false} ScanSound(file: seq<byte>, offset: nat)
    requires offset <= |file| && ScanFrom(file, offset).Scanned?
    ensures var s := ScanFrom(file, offset);
            && WfLog(s.log) && s.end == offset + |Frames(s.log)| <= |file|
            && file[offset..s.end] == Frames(s.log)
            && ReadRecord(file, s.end) == Stop
    decreases |file| - offset
  {
    hide ReadRecord, Frame;
    var t := ReadRecord(file, offset);
    if t.Next? {
      ReadRecordSound(file, offset);
      ScanSound(file, t.end);
      var tail := ScanFrom(file, t.end);
      var log := ScanFrom(file, offset).log;
      assert log[0] == t.r && log[1..] == tail.log;
      assert Frames(log) == Frame(t.r) + Frames(tail.log);
      assert file[offset..tail.end] == file[offset..t.end] + file[t.end..tail.end];
    }
  }

  /** Records that are in the file are found, and the scan goes on after them. */
  lemma {:induction false} ScanComplete(file: seq<byte>, offset: nat, log: seq<Record>)
    requires WfLog(log) && offset + |Frames(log)| <= |file|
    requires file[offset..offset + |Frames(log)|] == Frames(log)
    ensures ScanFrom(file, offset) == Prepend(log, ScanFrom(file, offset + |Frames(log)|))
    decreases |log|
  {
    hide Frame, Frames, ReadRecord;
    if log == [] {
      NoFrames();
      PrependTwice([], [], ScanFrom(file, offset));
    } else {
      var r, tail := log[0], log[1..];
      var mid, end := offset + |Frame(r)|, offset + |Frames(log)|;
      FramesSplit(log);
      assert Frames(log)[..end - offset] == Frames(log);
      SplitSlice(file, offset, end, Frame(r), Frames(tail));
      assert Frames(tail)[..end - mid] == Frames(tail);
      ReadRecordComplete(file, offset, r);
      ScanComplete(file, mid, tail);
      PrependTwice([r], tail, ScanFrom(file, end));
      assert [r] + tail == log;
    }
  }

  lemma ScanAtEnd(file: seq<byte>)
    ensures ScanFrom(file, |file|) == Scanned([], |file|)
  {
    assert ReadRecord(file, |file|) == Stop;
    hide ReadRecord;
  }

  /** A file that is a header and a run of frames. */
  ghost predicate IsLog(file: seq<byte>, log: seq<Record>) {
    && WfLog(log)
    && |file| == HEADER_LEN + |Frames(log)|
    && file[HEADER_LEN..] == Frames(log)
  }

  /** Replaying a clean log gives back exactly its records and its length. */
  lemma CleanScan(file: seq<byte>, log: seq<Record>)
    requires IsLog(file, log)
    ensures ScanFrom(file, HEADER_LEN) == Scanned(log, |file|)
  {
    hide Frames, WfLog, ScanFrom;
    assert file[HEADER_LEN..HEADER_LEN + |Frames(log)|] == file[HEADER_LEN..];
    ScanComplete(file, HEADER_LEN, log);
    ScanAtEnd(file);
    assert log + [] == log;
  }

  /** Hence a file is a log in at most one way. */
  lemma LogIsUnique(file: seq<byte>, a: seq<Record>, b: seq<Record>)
    requires IsLog(file, a) && IsLog(file, b)
    ensures a == b
  {
    CleanScan(file, a);
    CleanScan(file, b);
  }

  /** How many leading records fit whole into `n` bytes. */
  function Whole(log: seq<Record>, n: nat): (k: nat)
    ensures k <= |log|
  {
    if log == [] || |Frame(log[0])| > n then 0
    else 1 + Whole(log[1..], n - |Frame(log[0])|)
  }

  lemma {:induction false} WholeFits(log: seq<Record>, n: nat)
    ensures |Frames(log[..Whole(log, n)])| <= n
    ensures Whole(log, n) < |log| ==> |Frames(log[..Whole(log, n) + 1])| > n
    decreases |log|
  {
    hide Frame;
    if log == [] {
    } else if |Frame(log[0])| > n {
      assert log[..1] == [log[0]];
      FramesOne(log[0]);
    } else {
      var k := Whole(log[1..], n - |Frame(log[0])|);
      WholeFits(log[1..], n - |Frame(log[0])|);
      assert log[..k + 1][0] == log[0] && log[..k + 1][1..] == log[1..][..k];
      if k + 1 < |log| {
        assert log[..k + 2][0] == log[0] && log[..k + 2][1..] == log[1..][..k + 1];
      }
    }
  }

  lemma {:induction false} TornScanFrom(file: seq<byte>, offset: nat, log: seq<Record>)
    requires WfLog(log) && offset <= |file| <= offset + |Frames(log)|
    requires file[offset..] == Frames(log)[..|file| - offset]
    ensures var k := Whole(log, |file| - offset);
            ScanFrom(file, offset) == Scanned(log[..k], offset + |Frames(log[..k])|)
    decreases |log|
  {
    hide Frame, Frames, ReadRecord;
    NoFrames();
    var n := |file| - offset;
    if log == [] {
      ScanAtEnd(file);
      assert log[..0] == [];
    } else if |Frame(log[0])| > n {
      FramesSplit(log);
      assert file[offset..] == Frame(log[0])[..n];
      PartialFrameStops(file, offset, log[0]);
      assert log[..0] == [];
    } else {
      var r, tail := log[0], log[1..];
      var mid := offset + |Frame(r)|;
      FramesSplit(log);
      SplitSlice(file, offset, |file|, Frame(r), Frames(tail));
      ReadRecordComplete(file, offset, r);
      TornScanFrom(file, mid, tail);
      var k := Whole(tail, |file| - mid);
      assert log[..k + 1] == [r] + tail[..k];
      assert log[..k + 1][1..] == tail[..k];
      FramesSplit(log[..k + 1]);
    }
  }

  /** Cutting a clean log anywhere after its header loses the record that was cut
      and those after it, and nothing else. */
  lemma TornScan(file: seq<byte>, log: seq<Record>, cut: nat)
    requires IsLog(file, log) && HEADER_LEN <= cut <= |file|
    ensures var k := Whole(log, cut - HEADER_LEN);
            ScanFrom(file[..cut], HEADER_LEN) == Scanned(log[..k], HEADER_LEN + |Frames(log[..k])|)
  {
    hide Whole, ScanFrom, Frames, WfLog;
    assert file[..cut][HEADER_LEN..] == file[HEADER_LEN..][..cut - HEADER_LEN];
    TornScanFrom(file[..cut], HEADER_LEN, log);
  }

  /** Whatever is appended to a clean log, replay fails or keeps every original
      record, in order, in front. */
  lemma IntactPrefix(file: seq<byte>, log: seq<Record>, junk: seq<byte>)
    requires IsLog(file, log)
    ensures ScanFrom(file + junk, HEADER_LEN) == Prepend(log, ScanFrom(file + junk, |file|))
    ensures var s := ScanFrom(file + junk, HEADER_LEN);
            s.Scanned? ==> log <= s.log
  {
    assert (file + junk)[HEADER_LEN..|file|] == file[HEADER_LEN..];
    ScanComplete(file + junk, HEADER_LEN, log);
  }

  /** The part of a file that a scan accepted is a clean log: scanning it again
      finds the same records and nothing to cut. */
  lemma RescanIsStable(file: seq<byte>)
    requires |file| >= HEADER_LEN && ScanFrom(file, HEADER_LEN).Scanned?
    ensures var s := ScanFrom(file, HEADER_LEN);
            && HEADER_LEN <= s.end <= |file|
            && IsLog(file[..s.end], s.log)
            && ScanFrom(file[..s.end], HEADER_LEN) == s
  {
    ScanSound(file, HEADER_LEN);
    var s := ScanFrom(file, HEADER_LEN);
    assert file[..s.end][HEADER_LEN..] == file[HEADER_LEN..s.end];
    CleanScan(file[..s.end], s.log);
  }

  lemma LogExtends(file: seq<byte>, log: seq<Record>, r: Record)
    requires IsLog(file, log) && WfRecord(r)
    ensures IsLog(file + Frame(r), log + [r])
  {
    hide Frame;
    FramesSnoc(log, r);
    assert (file + Frame(r))[HEADER_LEN..] == file[HEADER_LEN..] + Frame(r);
  }

  // ---- Damage -----------------------------------------------------------------------------

  /** A frame of a legal length whose checksum field is not its payload's. */
  ghost predicate Mismatched(frame: seq<byte>) {
    && FRAME_LEN + MIN_PAYLOAD <= |frame| <= FRAME_LEN + MAX_RECORD_BYTES
    && FromLE(frame[..4]) == |frame| - FRAME_LEN
    && FromLE(frame[4..8]) != Crc32c.Crc(frame[8..])
  }

  lemma MismatchedRecord(file: seq<byte>, offset: nat, frame: seq<byte>)
    requires Mismatched(frame) && offset + |frame| <= |file| && file[offset..offset + |frame|] == frame
    ensures ReadRecord(file, offset) ==
            if offset + |frame| == |file| then Stop else Fail(Corrupt(CrcMismatch))
  {
    hide Crc32c.Crc, FromLE;
    FrameSlices(file, offset, offset + |frame|);
  }

  /** A record that fails its checksum: reported as corruption when it is not the
      last, and exactly that record dropped when it is. */
  lemma MismatchIsCaught(header: seq<byte>, before: seq<Record>, frame: seq<byte>, after: seq<byte>)
    requires |header| == HEADER_LEN && WfLog(before) && Mismatched(frame)
    ensures ScanFrom(header + Frames(before) + frame + after, HEADER_LEN) ==
            if after == [] then Scanned(before, HEADER_LEN + |Frames(before)|)
            else Broken(Corrupt(CrcMismatch))
  {
    hide ReadRecord, Frames, WfLog, Mismatched;
    var file := header + Frames(before) + frame + after;
    var mid := HEADER_LEN + |Frames(before)|;
    assert file[HEADER_LEN..mid] == Frames(before);
    ScanComplete(file, HEADER_LEN, before);
    assert file[mid..mid + |frame|] == frame;
    MismatchedRecord(file, mid, frame);
    assert before + [] == before;
  }

  /** A scan fails for one of two reasons only. */
  lemma {:induction false} ScanFailures(file: seq<byte>, offset: nat)
    requires ScanFrom(file, offset).Broken?
    ensures ScanFrom(file, offset).error in {Corrupt(CrcMismatch), Corrupt(UnknownOp)}
    decreases |file| - offset
  {
    match ReadRecord(file, offset) {
      case Stop =>
      case Fail(_) =>
      case Next(_, end) =>
        hide ReadRecord;
        ScanFailures(file, end);
    }
  }

  /** A sound record with an operation other than put and delete is reported,
      wherever it stands. */
  lemma UnknownOpIsReported(header: seq<byte>, before: seq<Record>, payload: seq<byte>, after: seq<byte>)
    requires |header| == HEADER_LEN && WfLog(before)
    requires MIN_PAYLOAD <= |payload| <= MAX_RECORD_BYTES && payload[0] != OP_PUT && payload[0] != OP_DELETE
    ensures ScanFrom(header + Frames(before) + FrameOf(payload) + after, HEADER_LEN) == Broken(Corrupt(UnknownOp))
  {
    hide FrameOf, Frames, WfLog, ReadRecord;
    var file := header + Frames(before) + FrameOf(payload) + after;
    var mid := HEADER_LEN + |Frames(before)|;
    assert file[HEADER_LEN..mid] == Frames(before);
    ScanComplete(file, HEADER_LEN, before);
    assert file[mid..mid + |FrameOf(payload)|] == FrameOf(payload);
    UnknownOpRecord(file, mid, payload);
  }

  lemma UnknownOpRecord(file: seq<byte>, offset: nat, payload: seq<byte>)
    requires MIN_PAYLOAD <= |payload| <= MAX_RECORD_BYTES && payload[0] != OP_PUT && payload[0] != OP_DELETE
    requires offset + |FrameOf(payload)| <= |file|
    requires file[offset..offset + |FrameOf(payload)|] == FrameOf(payload)
    ensures ReadRecord(file, offset) == Fail(Corrupt(UnknownOp))
  {
    hide Crc32c.Crc, FromLE;
    FrameParts(payload);
    FrameSlices(file, offset, offset + |FrameOf(payload)|);
  }

  /** The frame of `r` with its payload overwritten by `payload`. */
  function DamagedFrame(r: Record, payload: seq<byte>): seq<byte> {
    Frame(r)[..FRAME_LEN] + payload
  }

  /** A payload of the same length with another checksum makes such a mismatch. */
  lemma DamageMismatches(r: Record, payload: seq<byte>)
    requires WfRecord(r) && |payload| == |Payload(r)| && Crc32c.Crc(payload) != Crc32c.Crc(Payload(r))
    ensures Mismatched(DamagedFrame(r, payload))
  {
    hide Crc32c.Crc, FromLE, LE, Payload;
    FrameParts(Payload(r));
    var d := DamagedFrame(r, payload);
    assert d[..4] == Frame(r)[..4] && d[4..8] == Frame(r)[4..8] && d[8..] == payload;
  }

  lemma SameLength(a: seq<byte>, b: seq<byte>, at: nat)
    requires Crc32c.DifferWithin(a, b, at)
    ensures |a| == |b|
  {}

  /** So is any change of the checksum field itself. */
  lemma FieldDamageMismatches(r: Record, field: seq<byte>)
    requires WfRecord(r) && |field| == 4 && field != Frame(r)[4..8]
    ensures Mismatched(Frame(r)[..4] + field + Frame(r)[8..])
  {
    hide Crc32c.Crc, FromLE, LE, Payload;
    FrameParts(Payload(r));
    FromLE32Bound(field);
    FromLE32Bound(Frame(r)[4..8]);
    var d := Frame(r)[..4] + field + Frame(r)[8..];
    assert d[..4] == Frame(r)[..4] && d[4..8] == field && d[8..] == Frame(r)[8..];
  }

  /** Damage within four consecutive payload bytes of one record is reported as
      corruption when the record is not the last, and drops exactly that record
      when it is. */
  lemma DamageIsCaught(header: seq<byte>, before: seq<Record>, r: Record, payload: seq<byte>, at: nat,
                       after: seq<byte>)
    requires |header| == HEADER_LEN && WfLog(before) && WfRecord(r)
    requires Crc32c.DifferWithin(Payload(r), payload, at) && at <= |payload|
    requires payload != Payload(r)
    ensures ScanFrom(header + Frames(before) + DamagedFrame(r, payload) + after, HEADER_LEN) ==
            if after == [] then Scanned(before, HEADER_LEN + |Frames(before)|)
            else Broken(Corrupt(CrcMismatch))
  {
    hide DamagedFrame, Crc32c.DifferWithin, Crc32c.Crc, Mismatched, ScanFrom, Frames, WfLog, Payload;
    SameLength(Payload(r), payload, at);
    Crc32c.BurstDetected(Payload(r), payload, at);
    DamageMismatches(r, payload);
    MismatchIsCaught(header, before, DamagedFrame(r, payload), after);
  }

  /** So is payload damage within any 32 consecutive bits, and any that flips an odd
      number of bits. */
  lemma BitDamageIsCaught(header: seq<byte>, before: seq<Record>, r: Record, payload: seq<byte>, at: nat,
                          after: seq<byte>)
    requires |header| == HEADER_LEN && WfLog(before) && WfRecord(r)
    requires |payload| == |Payload(r)| && payload != Payload(r)
    requires || (Crc32c.DifferWithinBits(Payload(r), payload, at) && at <= 8 * |payload|)
             || Crc32c.Flips(Crc32c.BitsOf(Payload(r)), Crc32c.BitsOf(payload)) % 2 == 1
    ensures ScanFrom(header + Frames(before) + DamagedFrame(r, payload) + after, HEADER_LEN) ==
            if after == [] then Scanned(before, HEADER_LEN + |Frames(before)|)
            else Broken(Corrupt(CrcMismatch))
  {
    hide DamagedFrame, Crc32c.DifferWithinBits, Crc32c.Crc, Crc32c.Flips, Crc32c.BitsOf, Mismatched, ScanFrom, Frames,
         WfLog, Payload;
    if Crc32c.DifferWithinBits(Payload(r), payload, at) && at <= 8 * |payload| {
      Crc32c.BitBurstDetected(Payload(r), payload, at);
    } else {
      Crc32c.OddFlipsDetected(Payload(r), payload);
    }
    DamageMismatches(r, payload);
    MismatchIsCaught(header, before, DamagedFrame(r, payload), after);
  }

  /** Any change of a record's checksum field is reported as corruption when the
      record is not the last, and drops exactly that record when it is. */
  lemma ChecksumDamageIsCaught(header: seq<byte>, before: seq<Record>, r: Record, field: seq<byte>, after: seq<byte>)
    requires |header| == HEADER_LEN && WfLog(before) && WfRecord(r)
    requires |field| == 4 && field != Frame(r)[4..8]
    ensures ScanFrom(header + Frames(before) + (Frame(r)[..4] + field + Frame(r)[8..]) + after, HEADER_LEN) ==
            if after == [] then Scanned(before, HEADER_LEN + |Frames(before)|)
            else Broken(Corrupt(CrcMismatch))
  {
    hide Mismatched, ScanFrom, Frames, WfLog, Frame;
    FieldDamageMismatches(r, field);
    MismatchIsCaught(header, before, Frame(r)[..4] + field + Frame(r)[8..], after);
  }

  /** The window a frame at the front of `rest` announces: between its prefix and
      the end its length field names. */
  ghost predicate LegalWindow(rest: seq<byte>) {
    && FRAME_LEN <= |rest|
    && MIN_PAYLOAD <= FromLE(rest[..4]) <= MAX_RECORD_BYTES
    && FRAME_LEN + FromLE(rest[..4]) <= |rest|
  }

  /** The window's checksum is not the one in the prefix. */
  ghost predicate WindowMismatches(rest: seq<byte>)
    requires LegalWindow(rest)
  {
    Crc32c.Crc(rest[FRAME_LEN..FRAME_LEN + FromLE(rest[..4])]) != FromLE(rest[4..8])
  }

  lemma ReadAfter(prefix: seq<byte>, rest: seq<byte>)
    ensures ReadRecord(prefix + rest, |prefix|) == Stop <==>
            !LegalWindow(rest) || (FRAME_LEN + FromLE(rest[..4]) == |rest| && WindowMismatches(rest))
    ensures LegalWindow(rest) && FRAME_LEN + FromLE(rest[..4]) < |rest| && WindowMismatches(rest) ==>
              ReadRecord(prefix + rest, |prefix|) == Fail(Corrupt(CrcMismatch))
  {
    hide FromLE, Crc32c.Crc;
    var file, at := prefix + rest, |prefix|;
    if |rest| >= FRAME_LEN {
      assert file[at..at + 4] == rest[..4];
      assert file[at + 4..at + 8] == rest[4..8];
      if LegalWindow(rest) {
        var end := FRAME_LEN + FromLE(rest[..4]);
        assert file[at + FRAME_LEN..at + end] == rest[FRAME_LEN..end];
      }
    }
  }

  /** When a scan ends quietly after `before`, whatever follows: the length there is
      out of range or names an end past the file's, or the window ends exactly with
      the file and fails its checksum. A length still in range whose window ends
      earlier and fails its checksum is reported. */
  lemma ScanEndsQuietlyIff(header: seq<byte>, before: seq<Record>, rest: seq<byte>)
    requires |header| == HEADER_LEN && WfLog(before)
    ensures ScanFrom(header + Frames(before) + rest, HEADER_LEN) == Scanned(before, HEADER_LEN + |Frames(before)|) <==>
            !LegalWindow(rest) || (FRAME_LEN + FromLE(rest[..4]) == |rest| && WindowMismatches(rest))
    ensures LegalWindow(rest) && FRAME_LEN + FromLE(rest[..4]) < |rest| && WindowMismatches(rest) ==>
              ScanFrom(header + Frames(before) + rest, HEADER_LEN) == Broken(Corrupt(CrcMismatch))
  {
    hide ReadRecord, Frames, WfLog, LegalWindow, WindowMismatches, FromLE;
    var prefix := header + Frames(before);
    var file := prefix + rest;
    assert file[HEADER_LEN..|prefix|] == Frames(before);
    ScanComplete(file, HEADER_LEN, before);
    ReadAfter(prefix, rest);
    assert before + [] == before;
    NextIsMore(file, |prefix|);
  }

  lemma NextIsMore(file: seq<byte>, offset: nat)
    ensures ReadRecord(file, offset).Next? && ScanFrom(file, offset).Scanned? ==> ScanFrom(file, offset).log != []
  {
    hide ReadRecord;
  }

  /** The frame of `r` with its length field overwritten. */
  function Relengthed(r: Record, field: seq<byte>): seq<byte> {
    field + Frame(r)[4..]
  }

  /** A record whose length field is damaged, with any records after it: the scan
      drops it and all of them without an error exactly when the new length is out
      of range or past the end of the file, or when it happens to name exactly the
      end of the file and the checksum fails there. A new length that names an
      earlier end, where the checksum fails, is reported. */
  lemma LengthDamageIsSilentIff(header: seq<byte>, before: seq<Record>, r: Record, field: seq<byte>, after: seq<Record>)
    requires |header| == HEADER_LEN && WfLog(before) && |field| == 4
    ensures var rest := Relengthed(r, field) + Frames(after);
            var len := FromLE(field);
            && |rest| == |Frame(r)| + |Frames(after)|
            && (ScanFrom(header + Frames(before) + rest, HEADER_LEN) == Scanned(before, HEADER_LEN + |Frames(before)|) <==>
                || len < MIN_PAYLOAD || len > MAX_RECORD_BYTES || FRAME_LEN + len > |rest|
                || (FRAME_LEN + len == |rest| && Crc32c.Crc(rest[FRAME_LEN..]) != Crc32c.Crc(Payload(r))))
            && (MIN_PAYLOAD <= len <= MAX_RECORD_BYTES && FRAME_LEN + len < |rest|
                && Crc32c.Crc(rest[FRAME_LEN..FRAME_LEN + len]) != Crc32c.Crc(Payload(r)) ==>
                  ScanFrom(header + Frames(before) + rest, HEADER_LEN) == Broken(Corrupt(CrcMismatch)))
  {
    hide FromLE, ScanFrom, Frames, WfLog, Crc32c.Crc, LE, Payload;
    var rest := Relengthed(r, field) + Frames(after);
    ScanEndsQuietlyIff(header, before, rest);
    assert rest[..4] == field;
    FrameChecksum(r);
    assert rest[4..8] == Frame(r)[4..8];
    if FRAME_LEN + FromLE(field) == |rest| {
      assert rest[FRAME_LEN..FRAME_LEN + FromLE(field)] == rest[FRAME_LEN..];
    }
  }

  lemma FrameChecksum(r: Record)
    ensures FromLE(Frame(r)[4..8]) == Crc32c.Crc(Payload(r))
  {
    hide Crc32c.Crc, Payload;
    var p := Payload(r);
    assert Frame(r)[4..8] == LE(Crc32c.Crc(p), 4);
    LE32RoundTrip(Crc32c.Crc(p));
  }
}
