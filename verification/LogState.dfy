/** What a run of records means: the index replay builds, the bodies it resolves
    to, the next id, and the room the live records take. */
module LogState {
  import opened Bytes
  import opened Log
  import Crc32c

  datatype BodyLoc = BodyLoc(offset: nat, len: nat)

  type Index = map<u64, BodyLoc>
  type Bodies = map<u64, seq<byte>>

  function ApplyToIndex(index: Index, r: Record, start: nat): Index {
    if r.op == OP_PUT then index[r.id := BodyLoc(start + FRAME_LEN + MIN_PAYLOAD, |r.body|)]
    else index - {r.id}
  }

  function ApplyToBodies(bodies: Bodies, r: Record): Bodies {
    if r.op == OP_PUT then bodies[r.id := r.body] else bodies - {r.id}
  }

  /** `id + 1` in 64 bits, where the source's release build wraps. */
  function Successor(id: u64): u64 {
    if id == MAX_ID then 0 else id + 1
  }

  function Advance(next: u64, id: u64): u64 {
    if id >= next then Successor(id) else next
  }

  function IndexOf(log: seq<Record>): Index {
    if log == [] then map[]
    else
      var n := |log| - 1;
      ApplyToIndex(IndexOf(log[..n]), log[n], HEADER_LEN + |Frames(log[..n])|)
  }

  function BodiesOf(log: seq<Record>): Bodies {
    if log == [] then map[]
    else ApplyToBodies(BodiesOf(log[..|log| - 1]), log[|log| - 1])
  }

  function NextIdOf(log: seq<Record>): u64 {
    if log == [] then 1 else Advance(NextIdOf(log[..|log| - 1]), log[|log| - 1].id)
  }

  lemma StateSnoc(log: seq<Record>, r: Record)
    ensures IndexOf(log + [r]) == ApplyToIndex(IndexOf(log), r, HEADER_LEN + |Frames(log)|)
    ensures BodiesOf(log + [r]) == ApplyToBodies(BodiesOf(log), r)
    ensures NextIdOf(log + [r]) == Advance(NextIdOf(log), r.id)
  {
    hide Frames;
    assert (log + [r])[..|log|] == log;
  }

  // ---- The index resolves to the bodies ---------------------------------------------------

  ghost predicate Resolves(file: seq<byte>, index: Index, bodies: Bodies) {
    && index.Keys == bodies.Keys
    && forall id :: id in index ==>
         && index[id].offset + index[id].len <= |file|
         && file[index[id].offset..index[id].offset + index[id].len] == bodies[id]
  }

  lemma ResolvesExtends(file: seq<byte>, more: seq<byte>, index: Index, bodies: Bodies)
    requires Resolves(file, index, bodies)
    ensures Resolves(file + more, index, bodies)
  {
    forall id | id in index
      ensures (file + more)[index[id].offset..index[id].offset + index[id].len] == bodies[id]
    {
      assert (file + more)[index[id].offset..index[id].offset + index[id].len] ==
             file[index[id].offset..index[id].offset + index[id].len];
    }
  }

  /** Appending a record leaves every earlier live body where it was. */
  lemma ResolvesAppend(file: seq<byte>, index: Index, bodies: Bodies, r: Record)
    requires Resolves(file, index, bodies)
    ensures Resolves(file + Frame(r), ApplyToIndex(index, r, |file|), ApplyToBodies(bodies, r))
  {
    hide Frame;
    ResolvesExtends(file, Frame(r), index, bodies);
    var at := |file| + FRAME_LEN + MIN_PAYLOAD;
    assert (file + Frame(r))[at..at + |r.body|] == r.body by {
      FrameEndsInBody(r);
      assert (file + Frame(r))[at..at + |r.body|] == Frame(r)[FRAME_LEN + MIN_PAYLOAD..];
    }
  }

  lemma FrameEndsInBody(r: Record)
    ensures Frame(r)[FRAME_LEN + MIN_PAYLOAD..] == r.body
  {
    hide LE, Crc32c.Crc;
    assert Frame(r)[FRAME_LEN..] == Payload(r);
    assert Frame(r)[FRAME_LEN + MIN_PAYLOAD..] == Frame(r)[FRAME_LEN..][MIN_PAYLOAD..];
  }

  lemma {:induction false} IndexResolves(header: seq<byte>, log: seq<Record>)
    requires |header| == HEADER_LEN
    ensures Resolves(header + Frames(log), IndexOf(log), BodiesOf(log))
    decreases |log|
  {
    hide Frame, Frames, Resolves, ApplyToIndex, ApplyToBodies;
    if log == [] {
      NoRecordsResolve(header);
    } else {
      var init, r := log[..|log| - 1], log[|log| - 1];
      assert log == init + [r];
      IndexResolves(header, init);
      ResolvesAppend(header + Frames(init), IndexOf(init), BodiesOf(init), r);
      FramesSnoc(init, r);
      assert header + Frames(log) == header + Frames(init) + Frame(r);
    }
  }

  lemma NoRecordsResolve(header: seq<byte>)
    ensures Resolves(header + Frames([]), IndexOf([]), BodiesOf([]))
  {}

  /** Every index entry of a clean log points at the live body of its id. */
  lemma LogResolves(file: seq<byte>, log: seq<Record>)
    requires IsLog(file, log)
    ensures Resolves(file, IndexOf(log), BodiesOf(log))
  {
    IndexResolves(file[..HEADER_LEN], log);
    hide Frames, IndexOf, BodiesOf, Resolves;
    assert file == file[..HEADER_LEN] + file[HEADER_LEN..];
  }

  ghost predicate Written(log: seq<Record>, id: u64, body: seq<byte>) {
    exists i :: 0 <= i < |log| && log[i].id == id && log[i].body == body
  }

  /** The body of every live id is the body of some record of that id. */
  lemma {:induction false} BodiesComeFromRecords(log: seq<Record>, id: u64)
    requires id in BodiesOf(log)
    ensures Written(log, id, BodiesOf(log)[id])
    decreases |log|
  {
    var n := |log| - 1;
    if log[n].op == OP_PUT && id == log[n].id {
      assert log[n].body == BodiesOf(log)[id];
    } else {
      BodiesComeFromRecords(log[..n], id);
      var i :| 0 <= i < n && log[..n][i].id == id && log[..n][i].body == BodiesOf(log)[id];
      assert log[i] == log[..n][i];
    }
  }

  // ---- Ids ----------------------------------------------------------------------------------

  /** Every id a record carries, tombstones included, is below `next`. */
  ghost predicate IdsBelow(log: seq<Record>, next: nat) {
    forall i :: 0 <= i < |log| ==> log[i].id < next
  }

  /** Replay's next id exceeds every id in the file exactly when no record carries
      the largest 64-bit id; otherwise the increment wraps. */
  lemma {:induction false} NextIdExceedsAll(log: seq<Record>)
    ensures IdsBelow(log, NextIdOf(log)) <==> forall i :: 0 <= i < |log| ==> log[i].id != MAX_ID
    decreases |log|
  {
    if log != [] {
      var n := |log| - 1;
      NextIdExceedsAll(log[..n]);
      if forall i :: 0 <= i < |log| ==> log[i].id != MAX_ID {
        assert forall i :: 0 <= i < n ==> log[..n][i].id != MAX_ID;
        forall i | 0 <= i < |log|
          ensures log[i].id < NextIdOf(log)
        {
          if i < n {
            assert log[..n][i].id < NextIdOf(log[..n]);
          }
        }
      }
    }
  }

  /** The next id is 1 or one more than an id in the file. */
  lemma {:induction false} NextIdIsTight(log: seq<Record>)
    requires forall i :: 0 <= i < |log| ==> log[i].id != MAX_ID
    ensures NextIdOf(log) >= 1
    ensures NextIdOf(log) == 1 || exists i :: 0 <= i < |log| && log[i].id == NextIdOf(log) - 1
    decreases |log|
  {
    if log != [] {
      var n := |log| - 1;
      assert forall i :: 0 <= i < n ==> log[..n][i] == log[i];
      NextIdIsTight(log[..n]);
      if log[n].id < NextIdOf(log[..n]) && NextIdOf(log) != 1 {
        var i :| 0 <= i < n && log[..n][i].id == NextIdOf(log[..n]) - 1;
        assert log[i].id == NextIdOf(log) - 1;
      } else if log[n].id >= NextIdOf(log[..n]) {
        assert log[n].id == NextIdOf(log) - 1;
      }
    }
  }

  /** A record under a fresh id makes the id after it the next one. */
  lemma NextIdAfterFresh(log: seq<Record>, r: Record)
    requires IdsBelow(log, r.id) && r.id != MAX_ID
    ensures NextIdOf(log + [r]) == r.id + 1
  {
    StateSnoc(log, r);
    NextIdIsTight(log);
    hide NextIdOf;
    if NextIdOf(log) != 1 {
      var i :| 0 <= i < |log| && log[i].id == NextIdOf(log) - 1;
      assert log[i].id < r.id;
    }
  }

  // ---- Space ----------------------------------------------------------------------------------

  /** Bytes of live bodies. */
  ghost function LiveBytes(index: Index): nat
    decreases |index|
  {
    if index == map[] then 0
    else
      var id :| id in index;
      index[id].len + LiveBytes(index - {id})
  }

  /** Bytes of live records, frames included. */
  ghost function LiveSize(index: Index): nat {
    (FRAME_LEN + MIN_PAYLOAD) * |index| + LiveBytes(index)
  }

  lemma {:induction false} LiveBytesWithout(index: Index, id: u64)
    requires id in index
    ensures LiveBytes(index) == index[id].len + LiveBytes(index - {id})
    decreases |index|
  {
    var pick :| pick in index && LiveBytes(index) == index[pick].len + LiveBytes(index - {pick});
    if pick != id {
      LiveBytesWithout(index - {pick}, id);
      LiveBytesWithout(index - {id}, pick);
      assert index - {pick} - {id} == index - {id} - {pick};
    }
  }

  lemma LiveSizeWithout(index: Index, id: u64)
    requires id in index
    ensures LiveSize(index) == FRAME_LEN + MIN_PAYLOAD + index[id].len + LiveSize(index - {id})
  {
    LiveBytesWithout(index, id);
    assert (index - {id}).Keys == index.Keys - {id};
    assert |index.Keys - {id}| == |index.Keys| - 1;
  }

  lemma LiveSizeApply(index: Index, r: Record, start: nat)
    ensures LiveSize(ApplyToIndex(index, r, start)) <= LiveSize(index) + |Frame(r)|
    ensures r.op == OP_PUT && r.id !in index ==>
              LiveSize(ApplyToIndex(index, r, start)) == LiveSize(index) + |Frame(r)|
  {
    hide LiveSize;
    var after := ApplyToIndex(index, r, start);
    if r.id in index {
      LiveSizeWithout(index, r.id);
    } else {
      assert index - {r.id} == index;
    }
    if r.op == OP_PUT {
      LiveSizeWithout(after, r.id);
      assert after - {r.id} == index - {r.id};
    }
  }

  /** Live records never take more room than the log does. */
  lemma {:induction false} LiveSizeBound(log: seq<Record>)
    ensures LiveSize(IndexOf(log)) <= |Frames(log)|
    decreases |log|
  {
    hide Frame, LiveSize, ApplyToIndex;
    if log == [] {
      NothingLive();
    } else {
      var n := |log| - 1;
      LiveSizeBound(log[..n]);
      LiveSizeApply(IndexOf(log[..n]), log[n], HEADER_LEN + |Frames(log[..n])|);
      FramesSnoc(log[..n], log[n]);
      assert log[..n] + [log[n]] == log;
    }
  }

  lemma NothingLive()
    ensures LiveSize(map[]) == 0
  {}

  /** Live size depends on the lengths alone. */
  lemma {:induction false} SameLengthsSameSize(a: Index, b: Index)
    requires a.Keys == b.Keys && forall id :: id in a ==> a[id].len == b[id].len
    ensures LiveSize(a) == LiveSize(b)
    decreases |a|
  {
    if a != map[] {
      var id :| id in a;
      assert id in b;
      SameLengthsSameSize(a - {id}, b - {id});
      LiveSizeWithout(a, id);
      LiveSizeWithout(b, id);
    } else {
      assert b == map[];
    }
  }

  /** The bytes of a live record: its frame, tag, id and body. */
  ghost predicate Apart(a: BodyLoc, b: BodyLoc) {
    a.offset + a.len + FRAME_LEN + MIN_PAYLOAD <= b.offset ||
    b.offset + b.len + FRAME_LEN + MIN_PAYLOAD <= a.offset
  }

  ghost predicate DisjointWithin(index: Index, end: nat) {
    && (forall id :: id in index ==>
          HEADER_LEN + FRAME_LEN + MIN_PAYLOAD <= index[id].offset && index[id].offset + index[id].len <= end)
    && (forall i, j :: i in index && j in index && i != j ==> Apart(index[i], index[j]))
  }

  /** Live records lie inside the log and never overlap. */
  lemma {:induction false} LiveRecordsDisjoint(log: seq<Record>)
    ensures DisjointWithin(IndexOf(log), HEADER_LEN + |Frames(log)|)
    decreases |log|
  {
    hide Frame, Frames;
    if log != [] {
      var n := |log| - 1;
      LiveRecordsDisjoint(log[..n]);
      FramesSnoc(log[..n], log[n]);
      assert log[..n] + [log[n]] == log;
    }
  }
}
