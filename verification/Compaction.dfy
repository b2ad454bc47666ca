/** Compaction as a function of the order in which the live ids happen to be
    visited, and the laws that hold for every such order. */
module Compaction {
  import opened Bytes
  import opened Log
  import opened LogState
  import opened Contents
  import opened Store
  import opened Maintenance

  /** A visiting order: every id once. */
  ghost predicate IsOrder(order: seq<u64>, ids: set<u64>) {
    && (forall i, j :: 0 <= i < j < |order| ==> order[i] != order[j])
    && (forall id :: id in order <==> id in ids)
  }

  /** The records written for the ids visited, in turn. */
  function CompactLog(bodies: Bodies, order: seq<u64>): (log: seq<Record>)
    requires forall id :: id in order ==> id in bodies
    ensures |log| == |order|
    decreases |order|
  {
    if order == [] then []
    else
      var n := |order| - 1;
      CompactLog(bodies, order[..n]) + [Record(OP_PUT, order[n], bodies[order[n]])]
  }

  function CompactFile(bodies: Bodies, order: seq<u64>): seq<byte>
    requires forall id :: id in order ==> id in bodies
  {
    FreshHeader() + Frames(CompactLog(bodies, order))
  }

  lemma CompactFileSnoc(bodies: Bodies, order: seq<u64>, id: u64)
    requires forall j :: j in order + [id] ==> j in bodies
    ensures forall j :: j in order ==> j in bodies
    ensures CompactFile(bodies, order + [id]) ==
            CompactFile(bodies, order) + Frame(Record(OP_PUT, id, bodies[id]))
    ensures IndexOf(CompactLog(bodies, order + [id])) ==
            IndexOf(CompactLog(bodies, order))
              [id := BodyLoc(|CompactFile(bodies, order)| + FRAME_LEN + MIN_PAYLOAD, |bodies[id]|)]
  {
    hide Frame;
    assert forall j :: j in order ==> j in order + [id];
    assert (order + [id])[|order|] == id && (order + [id])[..|order|] == order;
    FramesSnoc(CompactLog(bodies, order), Record(OP_PUT, id, bodies[id]));
    StateSnoc(CompactLog(bodies, order), Record(OP_PUT, id, bodies[id]));
  }

  /** The records of the new log, one by one. */
  lemma {:induction false} CompactLogAt(bodies: Bodies, order: seq<u64>)
    requires forall id :: id in order ==> id in bodies
    ensures forall i :: 0 <= i < |order| ==>
              CompactLog(bodies, order)[i] == Record(OP_PUT, order[i], bodies[order[i]])
    decreases |order|
  {
    if order != [] {
      var n := |order| - 1;
      CompactLogAt(bodies, order[..n]);
      assert forall i :: 0 <= i < n ==> order[..n][i] == order[i];
    }
  }

  ghost function Restrict(bodies: Bodies, ids: seq<u64>): Bodies {
    map id | id in bodies && id in ids :: bodies[id]
  }

  lemma RestrictSnoc(bodies: Bodies, ids: seq<u64>, id: u64)
    requires id in bodies
    ensures Restrict(bodies, ids + [id]) == Restrict(bodies, ids)[id := bodies[id]]
  {}

  /** The new log holds exactly the bodies visited. */
  lemma {:induction false} CompactBodies(bodies: Bodies, order: seq<u64>)
    requires forall id :: id in order ==> id in bodies
    ensures BodiesOf(CompactLog(bodies, order)) == Restrict(bodies, order)
    decreases |order|
  {
    if order != [] {
      var n := |order| - 1;
      var init, id := order[..n], order[n];
      assert order == init + [id];
      hide IndexOf, NextIdOf, BodiesOf, Frames, Restrict;
      assert id in order;
      CompactBodies(bodies, init);
      StateSnoc(CompactLog(bodies, init), Record(OP_PUT, id, bodies[id]));
      RestrictSnoc(bodies, init, id);
    }
  }

  /** With each id written once, nothing in the new log is dead. */
  lemma {:induction false} CompactIsDense(bodies: Bodies, order: seq<u64>)
    requires forall id :: id in order ==> id in bodies
    requires forall i, j :: 0 <= i < j < |order| ==> order[i] != order[j]
    ensures LiveSize(IndexOf(CompactLog(bodies, order))) == |Frames(CompactLog(bodies, order))|
    decreases |order|
  {
    hide LiveSize, Frame;
    if order == [] {
      NothingLive();
    } else {
      var n := |order| - 1;
      var init, id := order[..n], order[n];
      assert order == init + [id];
      CompactIsDense(bodies, init);
      var log, r := CompactLog(bodies, init), Record(OP_PUT, id, bodies[id]);
      StateSnoc(log, r);
      FramesSnoc(log, r);
      CompactBodies(bodies, init);
      IndexResolves(FreshHeader(), log);
      assert id !in init;
      assert id !in IndexOf(log);
      LiveSizeApply(IndexOf(log), r, HEADER_LEN + |Frames(log)|);
    }
  }

  // ---- The compacted store -----------------------------------------------------------------

  /** What a completed compaction leaves. */
  ghost function Compacted(s: Store, order: seq<u64>): Store
    requires IsOrder(order, BodiesOf(LogOf(s)).Keys)
  {
    var log := CompactLog(BodiesOf(LogOf(s)), order);
    var file := FreshHeader() + Frames(log);
    s.(file := file, synced := |file|, index := IndexOf(log), tail := |file|)
  }

  lemma CompactFileIs(bodies: Bodies, order: seq<u64>)
    requires forall id :: id in order ==> id in bodies
    ensures CompactFile(bodies, order) == FreshHeader() + Frames(CompactLog(bodies, order))
  {}

  lemma CompactedIs(s: Store, order: seq<u64>)
    requires IsOrder(order, BodiesOf(LogOf(s)).Keys)
    ensures forall id :: id in order ==> id in BodiesOf(LogOf(s))
    ensures var file := CompactFile(BodiesOf(LogOf(s)), order);
            Compacted(s, order) ==
            s.(file := file, synced := |file|, index := IndexOf(CompactLog(BodiesOf(LogOf(s)), order)), tail := |file|)
  {
    hide BodiesOf, LogOf, CompactLog, IndexOf, FreshHeader, Frames;
  }

  lemma CompactLogIsWellFormed(log: seq<Record>, order: seq<u64>)
    requires WfLog(log) && IsOrder(order, BodiesOf(log).Keys)
    ensures WfLog(CompactLog(BodiesOf(log), order))
    ensures forall next :: IdsBelow(log, next) ==> IdsBelow(CompactLog(BodiesOf(log), order), next)
  {
    var bodies := BodiesOf(log);
    hide BodiesOf;
    CompactLogAt(bodies, order);
    forall i | 0 <= i < |order|
      ensures WfRecord(CompactLog(bodies, order)[i])
      ensures forall next :: IdsBelow(log, next) ==> CompactLog(bodies, order)[i].id < next
    {
      assert order[i] in order;
      BodiesComeFromRecords(log, order[i]);
    }
  }

  lemma RewrittenMatches(s: Store, log: seq<Record>)
    requires WfLog(log)
    ensures var file := FreshHeader() + Frames(log);
            var t := s.(file := file, synced := |file|, index := IndexOf(log), tail := |file|);
            Valid(t) && LogOf(t) == log
  {
    hide VerifyHeader, LogOf, IndexOf, Frames, FreshHeader, WfLog, Valid;
    FreshHeaderVerifies(Frames(log));
    var file := FreshHeader() + Frames(log);
    var t := s.(file := file, synced := |file|, index := IndexOf(log), tail := |file|);
    assert file[HEADER_LEN..] == Frames(log);
    MatchesIsValid(t, log);
  }

  lemma ValidLogIsWellFormed(s: Store)
    requires Valid(s)
    ensures WfLog(LogOf(s))
  {}

  lemma OrderCovers(bodies: Bodies, order: seq<u64>)
    requires IsOrder(order, bodies.Keys)
    ensures forall id :: id in order ==> id in bodies
    ensures Restrict(bodies, order) == bodies
  {}

  lemma CompactedLog(s: Store, order: seq<u64>)
    requires Valid(s) && IsOrder(order, BodiesOf(LogOf(s)).Keys)
    ensures var t := Compacted(s, order);
            && Valid(t) && t.synced == t.tail
            && LogOf(t) == CompactLog(BodiesOf(LogOf(s)), order)
            && BodiesOf(LogOf(t)) == BodiesOf(LogOf(s))
            && (forall next :: IdsBelow(LogOf(s), next) ==> IdsBelow(LogOf(t), next))
  {
    hide BodiesOf, IndexOf, Valid, LogOf, IdsBelow, WfLog, CompactLog, FreshHeader, Frames, Restrict, IsOrder,
         Compacted, CompactFile;
    ValidLogIsWellFormed(s);
    CompactedIs(s, order);
    var log, bodies := LogOf(s), BodiesOf(LogOf(s));
    OrderCovers(bodies, order);
    CompactLogIsWellFormed(log, order);
    CompactFileIs(bodies, order);
    RewrittenMatches(s, CompactLog(bodies, order));
    CompactBodies(bodies, order);
  }

  /** Compaction in any order preserves the meaning of the store: same documents
      and same next id; the new file is a clean log that replays to the new index
      and tail; secondary indexes stay as good as they were. */
  lemma CompactionPreserves(s: Store, order: seq<u64>)
    requires Valid(s) && IsOrder(order, BodiesOf(LogOf(s)).Keys)
    ensures var t := Compacted(s, order);
            && Valid(t) && t.synced == t.tail
            && LogOf(t) == CompactLog(BodiesOf(LogOf(s)), order)
            && BodiesOf(LogOf(t)) == BodiesOf(LogOf(s))
            && Held(t) == Held(s)
            && (FreshIds(s) ==> FreshIds(t))
            && (forall gaps :: InStep(s, gaps) ==> InStep(t, gaps))
  {
    hide BodiesOf, IndexOf, Valid, LogOf, IndexesAgree, DecodeAll, IdsBelow, CompactLog, FreshHeader, Frames, IsOrder;
    CompactedLog(s, order);
  }

  /** Live records and the header never take more than the file; after compaction
      they take exactly the file. So compaction never grows a store, and a second
      one changes no size. */
  lemma CompactionSpace(s: Store, order: seq<u64>)
    requires Valid(s) && IsOrder(order, BodiesOf(LogOf(s)).Keys)
    ensures HEADER_LEN + LiveSize(s.index) <= s.tail
    ensures Compacted(s, order).tail == HEADER_LEN + LiveSize(s.index) <= s.tail
    ensures LiveSize(Compacted(s, order).index) == LiveSize(s.index)
  {
    var t, log, bodies := Compacted(s, order), LogOf(s), BodiesOf(LogOf(s));
    LiveSizeBound(log);
    CompactIsDense(bodies, order);
    CompactionPreserves(s, order);
    LogResolves(s.file, log);
    LogResolves(t.file, LogOf(t));
    hide BodiesOf, IndexOf, VerifyHeader, LogOf, LiveSize, Frames, CompactLog, FreshHeader, WfLog;
    SameBodiesSameSize(s.file, s.index, t.file, t.index, bodies);
  }

  lemma SameBodiesSameSize(f: seq<byte>, a: Index, g: seq<byte>, b: Index, bodies: Bodies)
    requires Resolves(f, a, bodies) && Resolves(g, b, bodies)
    ensures LiveSize(a) == LiveSize(b)
  {
    forall id | id in a
      ensures a[id].len == b[id].len
    {
      assert id in b;
      assert |bodies[id]| == a[id].len;
      assert |bodies[id]| == b[id].len;
    }
    SameLengthsSameSize(a, b);
  }

  lemma SecondCompactionKeepsSize(s: Store, first: seq<u64>, second: seq<u64>)
    requires Valid(s) && IsOrder(first, BodiesOf(LogOf(s)).Keys)
    requires IsOrder(second, BodiesOf(LogOf(s)).Keys)
    ensures Compacted(s, first).tail == Compacted(s, second).tail
    ensures IsOrder(second, BodiesOf(LogOf(Compacted(s, first))).Keys)
    ensures Compacted(Compacted(s, first), second).tail == Compacted(s, first).tail
  {
    CompactionPreserves(s, first);
    CompactionSpace(s, first);
    CompactionSpace(s, second);
    var t := Compacted(s, first);
    hide Compacted, BodiesOf, LogOf, Valid, IsOrder, LiveSize;
    CompactionSpace(t, second);
  }

  // ---- Ids after compaction ------------------------------------------------------------------

  ghost predicate IdsAre(log: seq<Record>, ids: seq<u64>) {
    |log| == |ids| && forall i :: 0 <= i < |ids| ==> log[i].id == ids[i]
  }

  lemma NextIdOfIds(log: seq<Record>, ids: seq<u64>, next: u64)
    requires IdsAre(log, ids) && IdsBelow(log, next) && next >= 1
    ensures NextIdOf(log) <= next
    ensures NextIdOf(log) == next <==> next == 1 || next - 1 in ids
  {
    NextIdExceedsAll(log);
    NextIdIsTight(log);
    hide NextIdOf;
    if next - 1 in ids {
      var i :| 0 <= i < |ids| && ids[i] == next - 1;
      assert log[i].id == next - 1;
    }
  }

  lemma HeldKeys(s: Store)
    ensures Held(s).Keys == BodiesOf(LogOf(s)).Keys
  {}

  lemma OrderIds(ids: set<u64>, order: seq<u64>, id: u64)
    requires IsOrder(order, ids)
    ensures id in order <==> id in ids
  {}

  /** The new log carries the ids in the order visited, all below the next id. */
  lemma CompactedIds(s: Store, order: seq<u64>)
    requires Valid(s) && FreshIds(s) && IsOrder(order, BodiesOf(LogOf(s)).Keys)
    ensures IdsAre(LogOf(Compacted(s, order)), order) && IdsBelow(LogOf(Compacted(s, order)), s.nextId)
  {
    CompactionPreserves(s, order);
    hide BodiesOf, LogOf, Valid, CompactLog, Held, IdsBelow, IsOrder, InStep;
    OrderCovers(BodiesOf(LogOf(s)), order);
    CompactLogAt(BodiesOf(LogOf(s)), order);
  }

  /** Reopening a compacted store assigns the same next id if and only if the
      document with the last id handed out is still live (or none ever was). */
  lemma CompactionKeepsNextIdIff(s: Store, order: seq<u64>)
    requires Valid(s) && FreshIds(s) && IsOrder(order, BodiesOf(LogOf(s)).Keys) && s.nextId >= 1
    ensures NextIdOf(LogOf(Compacted(s, order))) <= s.nextId
    ensures NextIdOf(LogOf(Compacted(s, order))) == s.nextId <==>
            s.nextId == 1 || s.nextId - 1 in Held(s)
  {
    HeldKeys(s);
    hide BodiesOf, LogOf, Valid, Held, NextIdOf, IdsBelow, IsOrder, Compacted, FreshIds, IdsAre;
    OrderIds(BodiesOf(LogOf(s)).Keys, order, s.nextId - 1);
    CompactedIds(s, order);
    NextIdOfIds(LogOf(Compacted(s, order)), order, s.nextId);
  }
}
