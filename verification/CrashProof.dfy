/** Every run of the crash machine is a run a client can account for: each step of
    the system is a step of the client's view, whatever crashes do. */
module CrashProof {
  import opened Bytes
  import opened Documents
  import opened Errors
  import opened Log
  import opened LogState
  import opened Contents
  import opened Store
  import opened Compaction
  import opened CrashMachine
  import Maintenance

  // ---- Following the history ------------------------------------------------------------------

  lemma PrefixFrames(log: seq<Record>, k: nat)
    requires k <= |log|
    ensures |Frames(log[..k])| <= |Frames(log)|
  {
    hide Frames;
    FramesConcat(log[..k], log[k..]);
    assert log[..k] + log[k..] == log;
  }

  lemma PrefixesNest(log: seq<Record>, j: nat, k: nat)
    requires j <= k <= |log|
    ensures |Frames(log[..j])| <= |Frames(log[..k])|
  {
    hide Frames;
    PrefixFrames(log[..k], j);
    assert log[..k][..j] == log[..j];
  }

  lemma TracksAppend(log: seq<Record>, synced: nat, hist: seq<Op>, durable: nat, origin: Origin, r: Record, op: Op)
    requires Tracks(log, synced, hist, durable, origin) && synced <= HEADER_LEN + |Frames(log)|
    requires Tells(log + [r], hist + [op], origin)
    ensures Tracks(log + [r], synced, hist + [op], durable, origin)
  {
    hide Tells, Frames, TracksLast, Loseable;
    var log', hist' := log + [r], hist + [op];
    forall t: nat | Loseable(log', synced, t)
      ensures TracksLast(log', hist', durable, origin, t)
    {
      if t == 0 {
        NothingLost(log', hist', durable, origin);
      } else {
        TracksAppendAt(log, synced, hist, durable, origin, r, op, t);
      }
    }
    AppendedIsLoseable(log, synced, r, |hist| - durable);
  }

  lemma NothingLost(log: seq<Record>, hist: seq<Op>, durable: nat, origin: Origin)
    requires Tells(log, hist, origin) && durable <= |hist|
    ensures TracksLast(log, hist, durable, origin, 0)
  {
    hide Tells;
    assert log[..|log|] == log && hist[..|hist|] == hist;
  }

  lemma TracksAppendAt(log: seq<Record>, synced: nat, hist: seq<Op>, durable: nat, origin: Origin, r: Record, op: Op,
                       t: nat)
    requires Tracks(log, synced, hist, durable, origin) && t > 0 && Loseable(log + [r], synced, t)
    ensures TracksLast(log + [r], hist + [op], durable, origin, t)
  {
    hide Tells, Frames;
    PrefixOfSnoc(log, r, |log| + 1 - t);
    if t > 1 {
      PrefixOfSnoc(log, r, |log| + 2 - t);
    }
    assert Loseable(log, synced, t - 1);
    assert TracksLast(log, hist, durable, origin, t - 1);
    PrefixOfSnoc(hist, op, |hist| + 1 - t);
  }

  lemma PrefixOfSnoc<T>(s: seq<T>, x: T, k: nat)
    requires k <= |s|
    ensures (s + [x])[..k] == s[..k]
  {}

  /** A record past the forced part can be lost, with those that already could. */
  lemma AppendedIsLoseable(log: seq<Record>, synced: nat, r: Record, t: nat)
    requires Loseable(log, synced, t) && synced <= HEADER_LEN + |Frames(log)|
    ensures Loseable(log + [r], synced, t + 1)
  {
    hide Frames, Frame;
    var log' := log + [r];
    if t == 0 {
      assert log'[..|log'|] == log';
      FramesSnoc(log, r);
      FrameIsLong(r);
    } else {
      assert log'[..|log'| - t] == log[..|log| - t + 1];
    }
  }

  lemma FrameIsLong(r: Record)
    ensures |Frame(r)| > 0
  {}

  lemma TracksForced(log: seq<Record>, synced: nat, hist: seq<Op>, origin: Origin)
    requires Tells(log, hist, origin) && HEADER_LEN + |Frames(log)| <= synced
    ensures Tracks(log, synced, hist, |hist|, origin)
  {
    hide Tells, Frames;
    forall t: nat | Loseable(log, synced, t)
      ensures TracksLast(log, hist, |hist|, origin, t)
    {
      if t > 0 {
        PrefixFrames(log, |log| - t + 1);
      }
      assert log[..|log|] == log && hist[..|hist|] == hist;
    }
  }

  lemma TracksNow(log: seq<Record>, synced: nat, hist: seq<Op>, durable: nat, origin: Origin)
    requires Tracks(log, synced, hist, durable, origin)
    ensures durable <= |hist| && Tells(log, hist, origin)
  {
    hide Tells, Frames;
    assert Loseable(log, synced, 0);
    assert TracksLast(log, hist, durable, origin, 0);
    assert log[..|log|] == log && hist[..|hist|] == hist;
  }

  /** Losing the last `t` records, which the cut allowed, loses as many operations
      and none that was certain. */
  lemma TracksCut(log: seq<Record>, synced: nat, hist: seq<Op>, durable: nat, origin: Origin, t: nat)
    requires Tracks(log, synced, hist, durable, origin) && Loseable(log, synced, t)
    ensures t <= |log| && durable <= |hist| - t
    ensures Tracks(log[..|log| - t], synced, hist[..|hist| - t], durable, origin)
    ensures Tells(log[..|log| - t], hist[..|hist| - t], origin)
  {
    hide Tells, Frames;
    assert TracksLast(log, hist, durable, origin, t);
    var log', hist' := log[..|log| - t], hist[..|hist| - t];
    forall u: nat | Loseable(log', synced, u)
      ensures TracksLast(log', hist', durable, origin, u)
    {
      assert log'[..|log'| - u] == log[..|log| - (t + u)];
      if u > 0 {
        assert log'[..|log'| - u + 1] == log[..|log| - (t + u) + 1];
      }
      assert Loseable(log, synced, t + u);
      assert TracksLast(log, hist, durable, origin, t + u);
      assert hist'[..|hist'| - u] == hist[..|hist| - (t + u)];
    }
    var all := |hist| - durable;
    if all > t {
      assert log'[..|log'| - (all - t) + 1] == log[..|log| - all + 1];
    }
  }

  lemma MapSnoc(hist: seq<Op>, op: Op)
    ensures MapOf(hist + [op]) == Apply(MapOf(hist), op)
  {
    assert (hist + [op])[..|hist|] == hist;
  }

  lemma ReadAfterPut(m: map<u64, Document>, id: u64, doc: Document)
    ensures AllRead(m[id := doc]) == AllRead(m)[id := Success(doc)]
  {}

  lemma ReadAfterDelete(m: map<u64, Document>, id: u64)
    ensures AllRead(m - {id}) == AllRead(m) - {id}
  {}

  lemma ReadKeys(m: map<u64, Document>)
    ensures AllRead(m).Keys == m.Keys && Healthy(AllRead(m))
  {}

  // ---- Operations --------------------------------------------------------------------------------

  /** A write's effect on file and log, next to its effect on the history. */
  ghost predicate Grew(s: Store, s': Store, a: Client, hist: seq<Op>) {
    && Valid(s') && FreshIds(s') && s'.nextId >= 1 && s'.policy == s.policy
    && s.file <= s'.file && HEADER_LEN <= s.synced <= s'.synced
    && s'.synced == (if hist != a.hist && s.policy == Always then |s'.file| else s.synced)
    && Tracks(LogOf(s'), s.synced, hist, a.durable, a.origin)
    && LogOf(s) <= LogOf(s') && a.hist <= hist
    && |LogOf(s')| - |LogOf(s)| == |hist| - |a.hist|
    && (s.nextId == NextIdOf(LogOf(s)) ==> s'.nextId == NextIdOf(LogOf(s')))
  }

  lemma NothingWritten(s: Store, s': Store, a: Client)
    requires Running(s, a) && Valid(s') && s'.file == s.file && s'.synced == s.synced
    requires s'.nextId == s.nextId && s'.policy == s.policy
    ensures Grew(s, s', a, a.hist)
  {
    SameHeld(s, s');
    hide Valid, LogOf, Held, Tracks, NextIdOf;
  }

  lemma OneWritten(s: Store, s': Store, a: Client, r: Record, op: Op)
    requires Running(s, a) && Valid(s') && FreshIds(s') && s'.nextId >= s.nextId && s'.policy == s.policy
    requires s'.file == AppendRecord(s, r).file && s'.synced == AppendRecord(s, r).synced
    requires LogOf(s') == LogOf(s) + [r]
    requires DocsOf(LogOf(s')) == AllRead(Apply(MapOf(a.hist), op)) && r.id == op.id != MAX_ID
    requires s.nextId == NextIdOf(LogOf(s)) ==> s'.nextId == Advance(s.nextId, r.id)
    ensures Grew(s, s', a, a.hist + [op])
  {
    hide LogOf, Frame, DocsOf, AllRead, MapOf, Tracks, NextIdOf, IndexOf, BodiesOf, Maintenance.InStep, FreshIds,
         AppendRecord, IsLog, VerifyHeader;
    assert |a.hist + [op]| == |a.hist| + 1;
    TracksNow(LogOf(s), s.synced, a.hist, a.durable, a.origin);
    TellsSnoc(LogOf(s), a.hist, a.origin, r, op);
    StateSnoc(LogOf(s), r);
    AppendGrows(s, r);
    SyncedWithin(s);
    TracksAppend(LogOf(s), s.synced, a.hist, a.durable, a.origin, r, op);
  }

  /** One more record tells of one more operation. */
  lemma TellsSnoc(log: seq<Record>, hist: seq<Op>, origin: Origin, r: Record, op: Op)
    requires Tells(log, hist, origin) && r.id == op.id != MAX_ID
    requires DocsOf(log + [r]) == AllRead(Apply(MapOf(hist), op))
    ensures Tells(log + [r], hist + [op], origin)
  {
    hide DocsOf, AllRead;
    MapSnoc(hist, op);
    StateSnoc(log, r);
    assert (hist + [op])[..|hist|] == hist;
    hide MapOf, NextIdOf, IndexOf, BodiesOf;
  }

  lemma AppendGrows(s: Store, r: Record)
    requires s.synced <= |s.file|
    ensures var t := AppendRecord(s, r);
            && s.file <= t.file && s.synced <= t.synced
            && t.synced == if s.policy == Always then |t.file| else s.synced
  {
    hide Frame;
  }

  lemma SyncedWithin(s: Store)
    requires Valid(s)
    ensures s.synced <= |s.file| && s.tail == |s.file|
    ensures |s.file| == HEADER_LEN + |Frames(LogOf(s))|
    ensures IsLog(s.file, LogOf(s)) && VerifyHeader(s.file) == Success(Unit)
  {}

  /** The client's documents are the store's. */
  lemma ClientHolds(s: Store, a: Client)
    requires Running(s, a)
    ensures Held(s) == AllRead(MapOf(a.hist)) && a.durable <= |a.hist|
    ensures Healthy(Held(s)) && Held(s).Keys == MapOf(a.hist).Keys
  {
    TracksNow(LogOf(s), s.synced, a.hist, a.durable, a.origin);
    ReadKeys(MapOf(a.hist));
    hide MapOf, DocsOf, LogOf, Valid, Tracks;
  }

  lemma InsertTracks(s: Store, a: Client, doc: Document) returns (hist: seq<Op>)
    requires Running(s, a) && WfDoc(doc) && s.nextId != MAX_ID
    ensures Writes(a, Insertion(doc), hist) && Grew(s, Insert(s, doc).0, a, hist)
  {
    hide Accepts, MapOf, Valid, LogOf, AllRead, Tracks, NextIdOf, Maintenance.InStep, WfDoc, Held, Grew, FreshIds,
         Healthy;
    ClientHolds(s, a);
    InsertSpec(s, doc);
    if Accepts(doc) {
      hist := a.hist + [Put(s.nextId, doc)];
      InsertionTracks(s, a, doc);
      NextIsAssigned(s, a);
    } else {
      hist := a.hist;
      NothingWritten(s, Insert(s, doc).0, a);
    }
  }

  lemma NextIsAssigned(s: Store, a: Client)
    requires Running(s, a) && s.nextId != MAX_ID
    ensures Assigns(a, s.nextId)
  {
    hide Valid, LogOf, DocsOf, AllRead, MapOf, Maintenance.InStep, NextIdOf, Held, Healthy, NextAfter;
    ClientHolds(s, a);
    FreshIdIsUnused(s);
    FreshHasNoMax(s);
    TracksNow(LogOf(s), s.synced, a.hist, a.durable, a.origin);
    NextIdBelow(LogOf(s), s.nextId);
  }

  lemma NextIdBelow(log: seq<Record>, next: u64)
    requires NoMaxId(log) && IdsBelow(log, next) && next >= 1
    ensures NextIdOf(log) <= next
  {
    NextIdIsTight(log);
    hide NextIdOf;
    if NextIdOf(log) != 1 {
      var i :| 0 <= i < |log| && log[i].id == NextIdOf(log) - 1;
      assert log[i].id < next;
    }
  }

  lemma InsertionTracks(s: Store, a: Client, doc: Document)
    requires Running(s, a) && WfDoc(doc) && s.nextId != MAX_ID && Accepts(doc)
    ensures Grew(s, Insert(s, doc).0, a, a.hist + [Put(s.nextId, doc)])
  {
    hide Accepts, MapOf, Valid, LogOf, AllRead, Tracks, NextIdOf, Maintenance.InStep, WfDoc, Held, Grew, PutRecord,
         FreshIds,
         Frame, ApplyToIndex, Healthy;
    ClientHolds(s, a);
    InsertSpec(s, doc);
    var s' := Insert(s, doc).0;
    ReadAfterPut(MapOf(a.hist), s.nextId, doc);
    HeldIsDocs(s');
    PutCarriesId(s.nextId, doc);
    OneWritten(s, s', a, PutRecord(s.nextId, doc), Put(s.nextId, doc));
  }

  lemma PutCarriesId(id: u64, doc: Document)
    ensures PutRecord(id, doc).id == id && DeleteRecord(id).id == id
  {}

  lemma HeldIsDocs(s: Store)
    ensures Held(s) == DocsOf(LogOf(s))
  {}

  lemma UpdateTracks(s: Store, a: Client, id: u64, doc: Document) returns (hist: seq<Op>)
    requires Running(s, a) && WfDoc(doc)
    ensures Writes(a, Replacement(id, doc), hist) && Grew(s, Update(s, id, doc).0, a, hist)
  {
    hide Accepts, MapOf, Valid, LogOf, AllRead, Tracks, NextIdOf, Maintenance.InStep, WfDoc, Held, Grew, PutRecord,
         Update, FreshIds, Healthy;
    ClientHolds(s, a);
    UpdateSpec(s, id, doc);
    if id in MapOf(a.hist) && Accepts(doc) {
      hist := a.hist + [Put(id, doc)];
      ReplacementTracks(s, a, id, doc);
    } else {
      hist := a.hist;
      UpdateFile(s, id, doc);
      NothingWritten(s, Update(s, id, doc).0, a);
    }
  }

  lemma ReplacementTracks(s: Store, a: Client, id: u64, doc: Document)
    requires Running(s, a) && WfDoc(doc) && Update(s, id, doc).1 == Success(true)
    ensures Grew(s, Update(s, id, doc).0, a, a.hist + [Put(id, doc)])
  {
    hide Accepts, MapOf, Valid, LogOf, AllRead, Tracks, NextIdOf, Maintenance.InStep, WfDoc, Held, Grew, PutRecord,
         Update, FreshIds, Healthy, AppendRecord;
    ClientHolds(s, a);
    UpdateSpec(s, id, doc);
    UpdateFile(s, id, doc);
    PutCarriesId(id, doc);
    var s' := Update(s, id, doc).0;
    ReadAfterPut(MapOf(a.hist), id, doc);
    LiveIdIsBelow(s, id);
    HeldIsDocs(s');
    StillFresh(s, s', PutRecord(id, doc));
    OneWritten(s, s', a, PutRecord(id, doc), Put(id, doc));
  }

  lemma StillFresh(s: Store, s': Store, r: Record)
    requires FreshIds(s) && LogOf(s') == LogOf(s) + [r] && r.id < s.nextId == s'.nextId
    ensures FreshIds(s')
  {
    hide LogOf;
    IdsBelowSnoc(LogOf(s), r, s.nextId, s.nextId);
  }

  lemma UpdateFile(s: Store, id: u64, doc: Document)
    ensures var (s', r) := Update(s, id, doc);
            if r == Success(true)
            then s'.file == AppendRecord(s, PutRecord(id, doc)).file && s'.synced == AppendRecord(s, PutRecord(id, doc)).synced
            else s'.file == s.file && s'.synced == s.synced
  {
    hide Accepts, Unlist, PutRecord, AppendRecord, AddAll;
  }

  lemma DeleteTracks(s: Store, a: Client, id: u64) returns (hist: seq<Op>)
    requires Running(s, a)
    ensures Writes(a, Deletion(id), hist) && Grew(s, Delete(s, id).0, a, hist)
  {
    hide MapOf, Valid, LogOf, AllRead, Tracks, NextIdOf, Maintenance.InStep, Held, Grew, Delete, FreshIds;
    ClientHolds(s, a);
    DeleteSpec(s, id);
    if id in MapOf(a.hist) {
      hist := a.hist + [Del(id)];
      DeletionTracks(s, a, id);
    } else {
      hist := a.hist;
      NothingWritten(s, s, a);
    }
  }

  lemma DeletionTracks(s: Store, a: Client, id: u64)
    requires Running(s, a) && Delete(s, id).1 == Success(true)
    ensures Grew(s, Delete(s, id).0, a, a.hist + [Del(id)])
  {
    hide MapOf, Valid, LogOf, AllRead, Tracks, NextIdOf, Maintenance.InStep, Held, Grew, Delete, FreshIds, DeleteRecord,
         AppendRecord;
    ClientHolds(s, a);
    DeleteSpec(s, id);
    DeleteFile(s, id);
    PutCarriesId(id, []);
    var s' := Delete(s, id).0;
    ReadAfterDelete(MapOf(a.hist), id);
    LiveIdIsBelow(s, id);
    HeldIsDocs(s');
    StillFresh(s, s', DeleteRecord(id));
    OneWritten(s, s', a, DeleteRecord(id), Del(id));
  }

  lemma DeleteFile(s: Store, id: u64)
    ensures var (s', r) := Delete(s, id);
            r == Success(true) ==>
              s'.file == AppendRecord(s, DeleteRecord(id)).file && s'.synced == AppendRecord(s, DeleteRecord(id)).synced
  {
    hide Unlist, AppendRecord;
  }

  lemma WriteTracks(s: Store, a: Client, w: Write) returns (hist: seq<Op>)
    requires Running(s, a) && Callable(s, w)
    ensures Writes(a, w, hist) && Grew(s, Perform(s, w), a, hist)
  {
    hide Running, Writes, Grew, Insert, Update, Delete;
    match w {
      case Insertion(doc) => hist := InsertTracks(s, a, doc);
      case Replacement(id, doc) => hist := UpdateTracks(s, a, id, doc);
      case Deletion(id) => hist := DeleteTracks(s, a, id);
    }
  }

  // ---- Steps of a running store ----------------------------------------------------------------

  /** The id the client sees in its history is the one the store gave. */
  lemma InsertedId(s: Store, a: Client, doc: Document, hist: seq<Op>)
    requires Writes(a, Insertion(doc), hist) && Accepts(doc)
    requires Held(s) == AllRead(MapOf(a.hist)) && Held(Insert(s, doc).0) == AllRead(MapOf(hist))
    requires Held(Insert(s, doc).0) == Held(s)[s.nextId := Success(doc)]
    ensures |hist| == |a.hist| + 1 && hist[|a.hist|].id == s.nextId
  {
    hide Accepts, Insert, Held, NextAfter;
    var id :| Assigns(a, id) && hist == a.hist + [Put(id, doc)];
    MapSnoc(a.hist, Put(id, doc));
    assert id in AllRead(MapOf(hist));
  }

  lemma WriteInStep(s: Store, a: Client, w: Write, hist: seq<Op>)
    requires Running(s, a) && Callable(s, w)
    requires Writes(a, w, hist) && Grew(s, Perform(s, w), a, hist)
    ensures Maintenance.InStep(Perform(s, w), GapsAfter(a, w, hist))
  {
    hide Valid, LogOf, Tracks, NextIdOf, Maintenance.InStep, Held, FreshIds, Insert, Update, Delete, Accepts, WfDoc,
         GapsWith, GapsWithout, MapOf, AllRead, Healthy, NextAfter, DocsOf;
    ClientHolds(s, a);
    match w {
      case Insertion(doc) =>
        InsertSpec(s, doc);
        Maintenance.InsertInStep(s, doc, a.gaps);
        if Accepts(doc) {
          var s' := Perform(s, w);
          TracksNow(LogOf(s'), s.synced, hist, a.durable, a.origin);
          HeldIsDocs(s');
          InsertedId(s, a, doc, hist);
        }
      case Replacement(id, doc) =>
        UpdateSpec(s, id, doc);
        Maintenance.UpdateInStep(s, id, doc, a.gaps);
      case Deletion(id) =>
        DeleteSpec(s, id);
        Maintenance.DeleteInStep(s, id, a.gaps);
    }
  }

  lemma SimulateWrite(s: Store, a: Client, w: Write) returns (a': Client)
    requires Running(s, a) && Callable(s, w)
    ensures ClientStep(a, Do(w), a') && Running(Perform(s, w), a')
    ensures a.hist <= a'.hist
  {
    hide Valid, LogOf, Tracks, NextIdOf, Maintenance.InStep, FreshIds, Perform, Writes, GapsAfter, Callable, Frames,
         DocsOf, MapOf, AllRead;
    var s' := Perform(s, w);
    var hist := WriteTracks(s, a, w);
    WriteInStep(s, a, w, hist);
    var durable := if hist != a.hist && a.policy == Always then |hist| else a.durable;
    a' := a.(hist := hist, durable := durable, gaps := GapsAfter(a, w, hist));
    if hist != a.hist && a.policy == Always {
      TracksNow(LogOf(s'), s.synced, hist, a.durable, a.origin);
      SyncedWithin(s');
      TracksForced(LogOf(s'), s'.synced, hist, a.origin);
    }
  }

  lemma SimulateFlush(s: Store, a: Client)
    requires Running(s, a)
    ensures Running(Flush(s), a.(durable := |a.hist|))
  {
    hide LogOf, Tracks, NextIdOf, IndexesAgree, IsLog, IndexOf, VerifyHeader, DocsOf, MapOf, AllRead, Frames;
    SyncedWithin(s);
    SameHeld(s, Flush(s));
    TracksNow(LogOf(s), s.synced, a.hist, a.durable, a.origin);
    TracksForced(LogOf(s), |s.file|, a.hist, a.origin);
  }

  lemma SimulateIndexing(s: Store, a: Client, field: seq<byte>)
    requires Running(s, a)
    ensures Running(CreateIndex(s, field), a.(gaps := Maintenance.GapsIndexed(a.gaps, field)))
    ensures Running(DropIndex(s, field), a.(gaps := a.gaps - {field}))
  {
    ClientHolds(s, a);
    Maintenance.CreateIndexInStep(s, field, a.gaps);
    Maintenance.DropIndexInStep(s, field, a.gaps);
    SameHeld(s, CreateIndex(s, field));
    SameHeld(s, DropIndex(s, field));
    hide LogOf, Tracks, NextIdOf, IndexesAgree, Valid, Held, BuildIndex, Maintenance.InStep, Healthy,
         Maintenance.GapsIndexed;
  }

  // ---- Steps of a compaction ---------------------------------------------------------------------

  lemma OrderOfBodies(s: Store, order: seq<u64>)
    requires Valid(s) && IsOrder(order, s.index.Keys)
    ensures IsOrder(order, BodiesOf(LogOf(s)).Keys)
  {
    hide Valid, BodiesOf, LogOf, IsOrder;
    LiveKeys(s);
  }

  lemma NothingCopied(s: Store, order: seq<u64>)
    requires IsOrder(order, BodiesOf(LogOf(s)).Keys)
    ensures Copied(s, order, Created, [], map[])
    ensures Copied(s, order, Writing(0), FreshHeader(), map[])
  {
    hide BodiesOf, LogOf, FreshHeader;
    assert order[..0] == [];
    assert FreshHeader() + Frames([]) == FreshHeader();
  }

  lemma CopyStep(c: System, c': System)
    requires c.Compacting? && Valid(c.s) && Copied(c.s, c.order, c.stage, c.temp, c.newIndex) && CopyOne(c, c')
    ensures c'.Compacting? && c'.s == c.s && c'.order == c.order
    ensures Copied(c'.s, c'.order, c'.stage, c'.temp, c'.newIndex)
  {
    hide IndexOf, BodiesOf, LogOf, IsLog, VerifyHeader, CompactFile, CompactLog, Frame, Valid, FreshHeader;
    LiveBody(c.s, c.order[c.stage.k]);
    var k, bodies := c.stage.k, BodiesOf(LogOf(c.s));
    var id := c.order[k];
    assert c.order[..k + 1] == c.order[..k] + [id];
    assert forall j :: j in c.order[..k + 1] ==> j in c.order;
    CompactFileSnoc(bodies, c.order[..k], id);
  }

  lemma SimulateCopy(c: System, a: Client, c': System)
    requires Related(c, a) && CopyOne(c, c')
    ensures Related(c', a)
  {
    hide Running, Copied, FormersReach;
    RunningIsValid(c.s, a);
    CopyStep(c, c');
  }

  lemma AllCopied(s: Store, order: seq<u64>, temp: seq<byte>, newIndex: Index)
    requires Copied(s, order, Writing(|order|), temp, newIndex)
    ensures Copied(s, order, Forced, temp, newIndex)
  {
    hide IndexOf, BodiesOf, LogOf, CompactFile, CompactLog, FreshHeader;
    assert order[..|order|] == order;
  }

  lemma CopiedReplaces(s: Store, order: seq<u64>, temp: seq<byte>, newIndex: Index, formers: seq<Image>)
    requires Valid(s) && Copied(s, order, Forced, temp, newIndex)
    ensures Replaced(s, order, temp, newIndex, [Image(s.file, s.synced)] + formers)
  {
    hide IndexOf, BodiesOf, LogOf, CompactLog, FreshHeader, Valid;
  }

  lemma {:induction false} NextOverLaws(ids: set<u64>)
    ensures NextOver(ids) >= 1 && forall id :: id in ids ==> id < NextOver(ids)
    ensures NextOver(ids) == 1 || NextOver(ids) - 1 in ids
    decreases |ids|
  {
    if ids != {} {
      var pick :| pick in ids && NextOver(ids) == Rise(NextOver(ids - {pick}), pick);
      NextOverLaws(ids - {pick});
      hide NextOver;
      var m := NextOver(ids - {pick});
      assert NextOver(ids) == Rise(m, pick) >= m;
      forall id | id in ids
        ensures id < NextOver(ids)
      {
        if id != pick {
          assert id in ids - {pick};
        }
      }
    }
  }

  /** What replaying a log with these ids, each once, gives as the next one. */
  lemma NextIdIsOver(log: seq<Record>, ids: set<u64>)
    requires NoMaxId(log)
    requires forall i :: 0 <= i < |log| ==> log[i].id in ids
    requires forall id :: id in ids ==> exists i :: 0 <= i < |log| && log[i].id == id
    ensures NextIdOf(log) == NextOver(ids)
  {
    NextIdExceedsAll(log);
    NextIdIsTight(log);
    NextOverLaws(ids);
    hide NextIdOf, NextOver;
    var n, m := NextIdOf(log), NextOver(ids);
    if n != 1 {
      var i :| 0 <= i < |log| && log[i].id == n - 1;
      assert n - 1 < m;
    }
    if m != 1 {
      var i :| 0 <= i < |log| && log[i].id == m - 1;
      assert m - 1 < n;
    }
  }

  lemma CompactedNext(s: Store, order: seq<u64>)
    requires Valid(s) && FreshIds(s) && IsOrder(order, BodiesOf(LogOf(s)).Keys)
    ensures NextIdOf(LogOf(Compacted(s, order))) == NextOver(Held(s).Keys)
  {
    HeldKeys(s);
    OrderCovers(BodiesOf(LogOf(s)), order);
    hide Valid, LogOf, BodiesOf, CompactLog, Compacted, Held, NextIdOf, NextOver, Maintenance.InStep, FreshIds, IdsBelow;
    CompactionPreserves(s, order);
    FreshHasNoMax(Compacted(s, order));
    CompactLogAt(BodiesOf(LogOf(s)), order);
    CompactedNextOf(LogOf(Compacted(s, order)), BodiesOf(LogOf(s)).Keys, order);
  }

  lemma CompactedNextOf(log: seq<Record>, ids: set<u64>, order: seq<u64>)
    requires NoMaxId(log) && IsOrder(order, ids) && IdsAre(log, order)
    ensures NextIdOf(log) == NextOver(ids)
  {
    hide NextIdOf, NextOver;
    forall i | 0 <= i < |log|
      ensures log[i].id in ids
    {
      assert order[i] in order;
    }
    forall id | id in ids
      ensures exists i :: 0 <= i < |log| && log[i].id == id
    {
      var i :| 0 <= i < |order| && order[i] == id;
      assert log[i].id == id;
    }
    NextIdIsOver(log, ids);
  }

  /** What the client knows once a compaction has its file under the store's name. */
  ghost function Rewritten(a: Client): Client {
    a.(durable := |a.hist|, origin := Origin(|a.hist|, NextOver(MapOf(a.hist).Keys)))
  }

  /** The compacted store under the old one's name serves the client as well, with
      every operation on the device. */
  lemma CompactedRuns(s: Store, a: Client, order: seq<u64>)
    requires Running(s, a) && IsOrder(order, BodiesOf(LogOf(s)).Keys)
    ensures Running(Compacted(s, order), Rewritten(a).(compacted := true))
  {
    hide BodiesOf, LogOf, CompactLog, FreshHeader, Valid, IndexOf, FreshIds, Tracks, Maintenance.InStep, NextIdOf,
         DocsOf, MapOf, AllRead, Frames, IsOrder, Held, NextOver, Healthy;
    CompactionPreserves(s, order);
    CompactedFields(s, order);
    CompactedNext(s, order);
    var t := Compacted(s, order);
    ClientHolds(s, a);
    HeldIsDocs(t);
    SyncedWithin(t);
    TracksForced(LogOf(t), t.synced, a.hist, Rewritten(a).origin);
  }

  lemma RunningIgnoresFormers(s: Store, a: Client, b: Client)
    requires Running(s, a) && b == a.(formers := b.formers)
    ensures Running(s, b)
  {
    hide LogOf, Valid, Tracks, FreshIds, Maintenance.InStep, NextIdOf;
  }

  /** The rename: the old file joins those a crash may fall back to. */
  lemma SimulateRename(c: System, a: Client, c': System) returns (a': Client)
    requires c.Compacting? && Related(c, a) && Step(c, CompactRename, c')
    ensures ClientStep(a, CompactRename, a') && Related(c', a')
  {
    hide Running, Compacted, Recoverable, IndexOf, BodiesOf, LogOf, CompactLog, FreshHeader, Frames, IsOrder, Valid;
    var s, order := c.s, c.order;
    a' := Rewritten(a).(formers := [Reach(a.durable, |a.hist|, a.origin)] + a.formers);
    RunningIsValid(s, a);
    CopiedOrder(s, order, Forced, c.temp, c.newIndex);
    CopiedReplaces(s, order, c.temp, c.newIndex, c.formers);
    CompactedRuns(s, a, order);
    RunningIgnoresFormers(Swapped(s, c.temp, c.newIndex), Rewritten(a).(compacted := true),
                          a'.(compacted := true));
    RunningRecovers(s, a);
    assert a.hist[..|a.hist|] == a.hist;
    assert Replaced(c'.s, order, c'.file, c'.newIndex, c'.formers);
  }

  lemma CompactedFields(s: Store, order: seq<u64>)
    requires IsOrder(order, BodiesOf(LogOf(s)).Keys)
    ensures var t := Compacted(s, order);
            && t == s.(file := t.file, synced := |t.file|, index := t.index, tail := |t.file|)
            && |t.file| >= HEADER_LEN
  {
    hide BodiesOf, LogOf, CompactLog, IndexOf, IsOrder;
  }

  // ---- Crashes -------------------------------------------------------------------------------------

  /** What the scan of a log cut off somewhere finds. */
  lemma TornLogScan(file: seq<byte>, full: seq<Record>)
    requires TornLog(file, full)
    ensures var k := Whole(full, |file| - HEADER_LEN);
            ScanFrom(file, HEADER_LEN) == Scanned(full[..k], HEADER_LEN + |Frames(full[..k])|)
  {
    hide ScanFrom, Frames, WfLog, Whole, NoMaxId;
    TornScanFrom(file, HEADER_LEN, full);
  }

  lemma CleanIsTorn(file: seq<byte>, log: seq<Record>)
    requires IsLog(file, log) && NoMaxId(log)
    ensures TornLog(file, log)
  {
    hide Frames, WfLog, NoMaxId;
    assert Frames(log)[..|file| - HEADER_LEN] == Frames(log);
  }

  lemma TornAgain(file: seq<byte>, full: seq<Record>, keep: nat)
    requires TornLog(file, full) && HEADER_LEN <= keep <= |file|
    ensures TornLog(file[..keep], full)
  {
    hide Frames, WfLog, NoMaxId;
    assert file[..keep][HEADER_LEN..] == file[HEADER_LEN..][..keep - HEADER_LEN];
  }

  lemma WholeIsMonotone(full: seq<Record>, n: nat, m: nat)
    requires n <= m
    ensures Whole(full, n) <= Whole(full, m)
  {
    hide Whole, Frames;
    WholeFits(full, n);
    WholeFits(full, m);
    var j, k := Whole(full, n), Whole(full, m);
    if j > k {
      PrefixesNest(full, k + 1, j);
    }
  }

  /** A cut past the forced part may lose the records it cuts. */
  lemma CutIsLoseable(full: seq<Record>, n: nat, m: nat, synced: nat)
    requires n <= m && synced <= HEADER_LEN + n
    ensures Whole(full, n) <= Whole(full, m)
    ensures Loseable(full[..Whole(full, m)], synced, Whole(full, m) - Whole(full, n))
  {
    hide Whole, Frames;
    WholeIsMonotone(full, n, m);
    var j, k := Whole(full, n), Whole(full, m);
    WholeFits(full, n);
    if j < k {
      assert full[..k][..j + 1] == full[..j + 1];
    }
  }

  /** Cutting a recoverable file past its forced part leaves a recoverable file, and
      costs the client a suffix of what was not certain to survive. */
  lemma CutIsRecoverable(file: seq<byte>, synced: nat, hist: seq<Op>, durable: nat, origin: Origin, keep: nat)
    returns (kept: nat)
    requires Recoverable(file, synced, hist, durable, origin) && KeepsForced(keep, synced, |file|)
    ensures durable <= kept <= |hist| && Recoverable(file[..keep], keep, hist[..kept], kept, origin)
    ensures |hist| - kept == |ScanFrom(file, HEADER_LEN).log| - |ScanFrom(file[..keep], HEADER_LEN).log|
  {
    hide VerifyHeader, ScanFrom, TornLog, Tracks, Whole, Frames, DocsOf, AllRead, MapOf, Loseable;
    var full :| TornLog(file, full);
    LongEnough(file, full);
    TornLogScan(file, full);
    TornAgain(file, full, keep);
    TornLogScan(file[..keep], full);
    HeaderOfPrefix(file[..keep], file[keep..]);
    assert file[..keep] + file[keep..] == file;
    var n, m := keep - HEADER_LEN, |file| - HEADER_LEN;
    var j, k := Whole(full, n), Whole(full, m);
    var from := Min(synced, ScanFrom(file, HEADER_LEN).end);
    CutIsLoseable(full, n, m, from);
    TracksCut(full[..k], from, hist, durable, origin, k - j);
    assert full[..k][..j] == full[..j];
    kept := |hist| - (k - j);
    WholeFits(full, n);
    TracksForced(full[..j], HEADER_LEN + |Frames(full[..j])|, hist[..kept], origin);
  }

  lemma WholeIs(full: seq<Record>, n: nat, g: nat)
    requires g <= |full| && |Frames(full[..g])| <= n
    requires g < |full| ==> |Frames(full[..g + 1])| > n
    ensures Whole(full, n) == g
  {
    hide Whole, Frames;
    WholeFits(full, n);
    var j := Whole(full, n);
    if j < g {
      PrefixesNest(full, j + 1, g);
    } else if j > g {
      PrefixesNest(full, g + 1, j);
    }
  }

  /** What is not certain can be lost: some cut leaves exactly the certain part. */
  lemma CutToCertain(file: seq<byte>, synced: nat, hist: seq<Op>, durable: nat, origin: Origin) returns (keep: nat)
    requires Recoverable(file, synced, hist, durable, origin)
    ensures KeepsForced(keep, synced, |file|) && durable <= |hist|
    ensures Recoverable(file[..keep], keep, hist[..durable], durable, origin)
  {
    hide VerifyHeader, ScanFrom, TornLog, Tells, Whole, Frames;
    var full :| TornLog(file, full);
    LongEnough(file, full);
    TornLogScan(file, full);
    var m := |file| - HEADER_LEN;
    WholeFits(full, m);
    var log, t := full[..Whole(full, m)], |hist| - durable;
    var g := |log| - t;
    if t == 0 {
      keep := |file|;
      assert file[..keep] == file;
    } else {
      assert log[..g] == full[..g] && log[..g + 1] == full[..g + 1];
      PrefixesNest(full, g + 1, |log|);
      PrefixesNest(full, g, g + 1);
      var end := HEADER_LEN + |Frames(full[..g])|;
      keep := if synced < end then end else synced;
      FrameAfter(full, g);
      TornAgain(file, full, keep);
      TornLogScan(file[..keep], full);
      WholeIs(full, keep - HEADER_LEN, g);
    }
    var kept := CutIsRecoverable(file, synced, hist, durable, origin, keep);
    assert kept == durable;
  }

  lemma FrameAfter(full: seq<Record>, g: nat)
    requires g < |full|
    ensures |Frames(full[..g])| < |Frames(full[..g + 1])|
  {
    hide Frames, Frame;
    FramesSnoc(full[..g], full[g]);
    FrameIsLong(full[g]);
    assert full[..g] + [full[g]] == full[..g + 1];
  }

  lemma LongEnough(file: seq<byte>, full: seq<Record>)
    requires TornLog(file, full)
    ensures |file| >= HEADER_LEN
  {}

  /** Power failing leads the name to one of the files it may stand for and cuts
      it; the client loses operations from the end. */
  lemma SimulateFall(images: seq<Image>, a: Client, keep: nat, name: nat, leftover: Option<seq<byte>>, c': System)
    returns (a': Client)
    requires images != [] && Recoverable(images[0].file, images[0].synced, a.hist, a.durable, a.origin)
    requires FormersReach(images[1..], a.hist, a.formers)
    requires Cut(images, keep, name, leftover, c')
    ensures Falls(a, name, a') && Related(c', a')
  {
    hide Recoverable, Running, Copied, Replaced;
    var image := images[name];
    var r := Window(a, name);
    assert a.hist[..|a.hist|] == a.hist;
    if name > 0 {
      assert Reaches(images[1..][name - 1], a.hist, r);
    }
    var kept := CutIsRecoverable(image.file, image.synced, a.hist[..r.issued], r.certain, r.origin, keep);
    assert a.hist[..r.issued][..kept] == a.hist[..kept];
    a' := a.(hist := a.hist[..kept], durable := kept, origin := r.origin, formers := []);
  }

  /** The store's file, as it stands, would be recovered whole. */
  lemma RunningRecovers(s: Store, a: Client)
    requires Running(s, a)
    ensures Recoverable(s.file, s.synced, a.hist, a.durable, a.origin)
  {
    hide Valid, Tracks, NextIdOf, Maintenance.InStep, FreshIds, NoMaxId, IsLog, VerifyHeader, LogOf, ScanFrom,
         TornLog, Frames;
    SyncedWithin(s);
    FreshHasNoMax(s);
    CleanScan(s.file, LogOf(s));
    CleanIsTorn(s.file, LogOf(s));
  }

  lemma FreshHasNoMax(s: Store)
    requires FreshIds(s)
    ensures NoMaxId(LogOf(s))
  {
    hide LogOf;
  }

  lemma WrittenRecovers(s: Store, a: Client, w: Write, len: nat) returns (hist: seq<Op>, reached: seq<Op>)
    requires Running(s, a) && Callable(s, w) && |s.file| <= len <= |Perform(s, w).file|
    ensures Writes(a, w, hist) && a.hist <= reached <= hist
    ensures len == |Perform(s, w).file| ==> reached == hist
    ensures Recoverable(Perform(s, w).file[..len], s.synced, reached, a.durable, a.origin)
  {
    hide Valid, LogOf, Tracks, NextIdOf, Maintenance.InStep, FreshIds, NoMaxId, IsLog, VerifyHeader, ScanFrom, TornLog,
         Perform, Callable, Writes, Whole, Frames, DocsOf, AllRead, MapOf;
    var s' := Perform(s, w);
    hist := WriteTracks(s, a, w);
    SyncedWithin(s);
    SyncedWithin(s');
    FreshHasNoMax(s');
    reached := TornWrite(s', LogOf(s), s.synced, hist, a.durable, a.origin, len);
    assert reached == hist[..|reached|];
    assert a.hist == hist[..|a.hist|];
  }

  /** A file that stops inside its last record still holds everything before it. */
  lemma TornWrite(s: Store, before: seq<Record>, synced: nat, hist: seq<Op>, durable: nat, origin: Origin, len: nat)
    returns (reached: seq<Op>)
    requires IsLog(s.file, LogOf(s)) && NoMaxId(LogOf(s)) && VerifyHeader(s.file) == Success(Unit)
    requires before <= LogOf(s) && HEADER_LEN <= synced <= HEADER_LEN + |Frames(before)| <= len <= |s.file|
    requires Tracks(LogOf(s), synced, hist, durable, origin)
    ensures reached <= hist && |hist| - |reached| <= |LogOf(s)| - |before|
    ensures len == |s.file| ==> reached == hist
    ensures Recoverable(s.file[..len], synced, reached, durable, origin)
  {
    hide LogOf, Tracks, NoMaxId, IsLog, VerifyHeader, ScanFrom, TornLog, Whole, Frames, DocsOf, AllRead, MapOf;
    var log, file := LogOf(s), s.file[..len];
    CleanIsTorn(s.file, log);
    TornAgain(s.file, log, len);
    TornLogScan(file, log);
    HeaderOfPrefix(file, s.file[len..]);
    assert file + s.file[len..] == s.file;
    var n, m := len - HEADER_LEN, |s.file| - HEADER_LEN;
    var j := Whole(log, n);
    WholeOfClean(s.file, log);
    WholeReaches(log, before, n);
    CutIsLoseable(log, n, m, synced);
    assert log[..|log|] == log;
    TracksCut(log, synced, hist, durable, origin, |log| - j);
    reached := hist[..|hist| - (|log| - j)];
    BeforeFits(log, before, j);
  }

  lemma WholeOfClean(file: seq<byte>, log: seq<Record>)
    requires IsLog(file, log)
    ensures Whole(log, |file| - HEADER_LEN) == |log|
  {
    hide Whole, Frames, WfLog;
    WholeReaches(log, log, |file| - HEADER_LEN);
  }

  lemma WholeReaches(log: seq<Record>, before: seq<Record>, n: nat)
    requires before <= log && |Frames(before)| <= n
    ensures Whole(log, n) >= |before|
  {
    hide Whole, Frames;
    WholeFits(log, n);
    assert log[..|before|] == before;
    var j := Whole(log, n);
    if j < |before| {
      PrefixesNest(log, j + 1, |before|);
    }
  }

  lemma BeforeFits(log: seq<Record>, before: seq<Record>, j: nat)
    requires before <= log && |before| <= j <= |log|
    ensures |Frames(before)| <= |Frames(log[..j])|
  {
    hide Frames;
    assert log[..|before|] == before;
    PrefixesNest(log, |before|, j);
  }

  /** Power failing inside a write keeps what was certain, and of the rest a prefix
      that may or may not end in the operation being written. */
  lemma SimulateInterrupt(c: System, a: Client, w: Write, keep: nat, name: nat, c': System) returns (a': Client)
    requires Related(c, a) && Step(c, Interrupt(w, keep, name), c')
    ensures ClientStep(a, Interrupt(w, keep, name), a') && Related(c', a')
  {
    hide Recoverable, Running, Perform, Callable, Writes, Cut, Falls;
    var file := Perform(c.s, w).file;
    WriteOnlyGrows(c.s, a, w);
    var hist, reached := WrittenRecovers(c.s, a, w, |file|);
    assert file[..|file|] == file;
    FormersReachLonger(c.formers, a.hist, hist, a.formers);
    var images := [Image(file, c.s.synced)] + c.formers;
    assert images[1..] == c.formers;
    a' := SimulateFall(images, a.(hist := hist), keep, name, None, c');
  }

  lemma WriteOnlyGrows(s: Store, a: Client, w: Write)
    requires Running(s, a) && Callable(s, w)
    ensures |s.file| <= |Perform(s, w).file|
  {
    hide Running, Callable, Writes, Perform;
    var hist := WriteTracks(s, a, w);
  }

  /** The process dying inside a write leaves the operations before it and, if its
      record was complete, that one. */
  lemma SimulateDeath(c: System, a: Client, w: Write, len: nat, c': System) returns (a': Client)
    requires Related(c, a) && Step(c, Die(w, len), c')
    ensures ClientStep(a, Die(w, len), a') && Related(c', a')
  {
    hide Recoverable, Running, Perform, Callable, Writes;
    var hist, reached := WrittenRecovers(c.s, a, w, len);
    FormersReachLonger(c.formers, a.hist, reached, a.formers);
    a' := a.(hist := reached);
  }

  lemma FormersReachLonger(formers: seq<Image>, hist: seq<Op>, longer: seq<Op>, reaches: seq<Reach>)
    requires FormersReach(formers, hist, reaches) && hist <= longer
    ensures FormersReach(formers, longer, reaches)
  {
    hide Recoverable;
    forall k | 0 <= k < |formers|
      ensures Reaches(formers[k], longer, reaches[k])
    {
      assert Reaches(formers[k], hist, reaches[k]);
      assert longer[..reaches[k].issued] == hist[..reaches[k].issued];
    }
  }

  lemma SimulateKill(c: System, a: Client, leftover: Option<seq<byte>>, c': System)
    requires Related(c, a) && Step(c, Kill(leftover), c')
    ensures Related(c', a)
  {
    hide Running, Recoverable, FormersReach, Copied, Replaced;
    if c.Renamed? {
      RunningRecovers(Swapped(c.s, c.file, c.newIndex), a.(compacted := true));
    } else {
      RunningRecovers(c.s, a);
    }
  }

  /** A stopped store always opens, and holds what the client expects. */
  lemma SimulateReopen(file: seq<byte>, synced: nat, a: Client, policy: SyncPolicy)
    requires Recoverable(file, synced, a.hist, a.durable, a.origin)
    ensures file != [] && Open(file, synced, policy).Success?
    ensures Running(Open(file, synced, policy).value, a.(policy := policy, gaps := map[], compacted := false))
  {
    RecoverableOpens(file, synced, a.hist, a.durable, a.origin, policy);
    RecoveredHasNoMax(file, synced, a.hist, a.durable, a.origin);
    hide VerifyHeader, ScanFrom, IsLog, Tracks, Open, LogOf, Valid, NextIdOf, Frames, TornLog;
    var s := Open(file, synced, policy).value;
    OpenIsValid(file, synced, policy);
    ScanSound(file, HEADER_LEN);
    NextIdIsTight(LogOf(s));
    Maintenance.NoIndexesAgree(Held(s));
  }

  lemma RecoveredHasNoMax(file: seq<byte>, synced: nat, hist: seq<Op>, durable: nat, origin: Origin)
    requires Recoverable(file, synced, hist, durable, origin)
    ensures NoMaxId(ScanFrom(file, HEADER_LEN).log)
  {
    hide VerifyHeader, ScanFrom, WfLog, Tracks, Frames, Whole;
    var full :| TornLog(file, full);
    TornLogScan(file, full);
  }

  lemma RecoverableOpens(file: seq<byte>, synced: nat, hist: seq<Op>, durable: nat, origin: Origin, policy: SyncPolicy)
    requires Recoverable(file, synced, hist, durable, origin)
    ensures var r := Open(file, synced, policy);
            && file != [] && r.Success? && r.value.policy == policy && r.value.indexes == map[]
            && r.value.synced == Min(synced, ScanFrom(file, HEADER_LEN).end)
  {
    hide VerifyHeader, ScanFrom, IsLog, Tracks, NextIdOf, IndexOf, TornLog;
  }

  // ---- Whole runs ------------------------------------------------------------------------------------

  lemma RelatedRecovers(c: System, a: Client)
    requires Related(c, a)
    ensures Images(c) != [] && Images(c)[1..] == c.formers
    ensures Recoverable(Images(c)[0].file, Images(c)[0].synced, a.hist, a.durable, a.origin)
  {
    hide Running, Recoverable, FormersReach, Copied, Replaced;
    match c {
      case Up(s, _) => RunningRecovers(s, a);
      case Compacting(s, _, _, _, _, _) => RunningRecovers(s, a);
      case Renamed(s, file, newIndex, _) => RunningRecovers(Swapped(s, file, newIndex), a.(compacted := true));
      case Down(_, _, _, _) =>
    }
  }

  /** One step of the system is one step of the client's view. */
  lemma Simulate(c: System, e: Event, c': System, a: Client) returns (a': Client)
    requires Related(c, a) && Step(c, e, c')
    ensures ClientStep(a, e, a') && Related(c', a')
  {
    hide Running, Recoverable, Copied, Replaced, Perform, Callable, Writes, Open, CreateIndex, DropIndex, Flush,
         Compacted,
         BodiesOf, LogOf, Falls, IsOrder, FormersReach, FreshHeader, GapsAfter, Cut, CopyOne, Images, Maintenance.GapsIndexed;
    match e {
      case Do(w) =>
        a' := SimulateWrite(c.s, a, w);
        FormersReachLonger(c.formers, a.hist, a'.hist, a.formers);
      case FlushAll =>
        SimulateFlush(c.s, a);
        a' := a.(durable := |a.hist|);
      case AddIndex(field) =>
        SimulateIndexing(c.s, a, field);
        a' := a.(gaps := Maintenance.GapsIndexed(a.gaps, field));
      case RemoveIndex(field) =>
        SimulateIndexing(c.s, a, field);
        a' := a.(gaps := a.gaps - {field});
      case CompactCreate(order) =>
        RunningIsValid(c.s, a);
        OrderOfBodies(c.s, order);
        NothingCopied(c.s, order);
        a' := a;
      case CompactHeader =>
        CopiedOrder(c.s, c.order, c.stage, c.temp, c.newIndex);
        NothingCopied(c.s, c.order);
        a' := a;
      case CompactWrite =>
        SimulateCopy(c, a, c');
        a' := a;
      case CompactForce =>
        AllCopied(c.s, c.order, c.temp, c.newIndex);
        a' := a;
      case CompactRename =>
        a' := SimulateRename(c, a, c');
      case CompactFinish =>
        a' := a.(formers := [], compacted := true);
        RunningIgnoresFormers(c'.s, a.(compacted := true), a');
        NoFormers(a.hist);
      case PowerLoss(keep, name, leftover) =>
        RelatedRecovers(c, a);
        a' := SimulateFall(Images(c), a, keep, name, leftover, c');
      case Interrupt(w, keep, name) =>
        a' := SimulateInterrupt(c, a, w, keep, name, c');
      case Kill(leftover) =>
        SimulateKill(c, a, leftover, c');
        a' := a;
      case Die(w, len) =>
        a' := SimulateDeath(c, a, w, len, c');
      case Close =>
        a' := SimulateClose(c.s, a);
      case Reopen(policy) =>
        SimulateReopen(c.file, c.synced, a, policy);
        a' := a.(policy := policy, gaps := map[], compacted := false);
    }
  }

  lemma NoFormers(hist: seq<Op>)
    ensures FormersReach([], hist, [])
  {}

  lemma RunningIsValid(s: Store, a: Client)
    requires Running(s, a)
    ensures Valid(s)
  {}

  lemma CopiedOrder(s: Store, order: seq<u64>, stage: Stage, temp: seq<byte>, newIndex: Index)
    requires Copied(s, order, stage, temp, newIndex)
    ensures IsOrder(order, BodiesOf(LogOf(s)).Keys)
    ensures stage == Created ==> newIndex == map[]
  {
    hide BodiesOf, LogOf, CompactFile, CompactLog, IndexOf, IsOrder;
  }

  lemma SimulateClose(s: Store, a: Client) returns (a': Client)
    requires Running(s, a)
    ensures ClientStep(a, Close, a')
    ensures Recoverable(s.file, if s.policy == Manual then |s.file| else s.synced, a.hist, a'.durable, a.origin)
  {
    hide Valid, LogOf, Tracks, NextIdOf, Maintenance.InStep, FreshIds, Recoverable;
    if s.policy == Manual {
      a' := a.(durable := |a.hist|);
      SimulateFlush(s, a);
      RunningRecovers(Flush(s), a');
    } else {
      a' := a;
      RunningRecovers(s, a);
    }
  }

  ghost predicate IsRun(run: seq<System>, events: seq<Event>) {
    && |run| == |events| + 1
    && forall i :: 0 <= i < |events| ==> Step(run[i], events[i], run[i + 1])
  }

  ghost predicate IsClientRun(views: seq<Client>, events: seq<Event>) {
    && |views| == |events| + 1
    && forall i :: 0 <= i < |events| ==> ClientStep(views[i], events[i], views[i + 1])
  }

  ghost predicate AllRelated(run: seq<System>, views: seq<Client>) {
    |run| == |views| && forall i :: 0 <= i < |run| ==> Related(run[i], views[i])
  }

  lemma {:induction false} Refines(run: seq<System>, events: seq<Event>, first: Client) returns (views: seq<Client>)
    requires IsRun(run, events) && Related(run[0], first)
    ensures IsClientRun(views, events) && AllRelated(run, views) && views[0] == first
    decreases |events|
  {
    hide Related, Step, ClientStep;
    if events == [] {
      views := [first];
    } else {
      var n := |events| - 1;
      var before := Refines(run[..n + 1], events[..n], first);
      assert run[..n + 1][n] == run[n];
      var last := Simulate(run[n], events[n], run[n + 1], before[n]);
      views := before + [last];
      forall i | 0 <= i < |events|
        ensures ClientStep(views[i], events[i], views[i + 1])
      {
        if i < n {
          assert ClientStep(before[i], events[..n][i], before[i + 1]);
        }
      }
      forall i | 0 <= i < |run|
        ensures Related(run[i], views[i])
      {
        if i <= n {
          assert Related(run[..n + 1][i], before[i]);
        }
      }
    }
  }

  /** A freshly created store, as a client sees it. */
  function NewClient(policy: SyncPolicy): Client {
    Client([], 0, Origin(0, 1), [], policy, map[], false)
  }

  function NewSystem(policy: SyncPolicy): System {
    Up(Open([], 0, policy).value, [])
  }

  lemma NewStoreRelates(policy: SyncPolicy)
    ensures Related(NewSystem(policy), NewClient(policy))
  {
    var s := Open([], 0, policy).value;
    NewStoreIsValid(policy);
    OpenIsValid([], 0, policy);
    assert DocsOf([]) == map[] && AllRead(MapOf([])) == map[];
    hide Valid, LogOf, Open;
    TracksForced([], s.synced, [], Origin(0, 1));
  }
}
