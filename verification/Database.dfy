/** The database as it runs: an object that keeps a file, an index, a tail and
    secondary indexes in step. Its state is viewed as a `Store.Store`, and every
    method does to that view what the operation of `Store` says. */
module Database {
  import opened Bytes
  import opened Documents
  import opened Errors
  import opened Codec
  import opened CodecLaws
  import opened CodecMachine
  import opened ValueOrder
  import opened SecondaryIndexes
  import opened Log
  import opened LogState
  import opened Contents
  import opened FileSystem
  import Crc32c
  import Compaction
  import Maintenance
  import S = Store

  /** Point-in-time sizes. */
  datatype Stats = Stats(liveDocuments: nat, fileBytes: nat, liveBytes: nat)

  class Db {
    const folder: Folder
    const sync: S.SyncPolicy
    const crcTable: array<bv32>
    const scratch: ByteVec
    var file: File
    var index: Index
    var tail: nat
    var nextId: u64
    var indexes: map<seq<byte>, SecondaryIndex>

    ghost function IndexObjects(): set<SecondaryIndex>
      reads this`indexes
    {
      set f | f in indexes :: indexes[f]
    }

    /** The parts are in place: the file is the one under the store's name, the
        checksum table is right, and no two fields share an index. */
    ghost predicate Wired()
      reads this, folder, crcTable
    {
      && folder.store == file
      && Crc32c.IsTable(crcTable[..])
      && forall f, g :: f in indexes && g in indexes && f != g ==> indexes[f] != indexes[g]
    }

    ghost function Listing(): Indexes
      reads this`indexes, IndexObjects()
    {
      map f | f in indexes :: indexes[f].entries
    }

    /** The state as a value. */
    ghost function View(): S.Store
      reads this, file, IndexObjects()
    {
      S.Store(file.data, file.synced, index, tail, nextId, Listing(), sync)
    }

    ghost predicate Valid()
      reads this, folder, crcTable, file, IndexObjects()
    {
      Wired() && S.Valid(View())
    }

    constructor (folder: Folder, file: File, sync: S.SyncPolicy, crcTable: array<bv32>)
      requires folder.store == file && Crc32c.IsTable(crcTable[..])
      ensures Wired() && fresh(scratch)
      ensures this.folder == folder && this.file == file && this.sync == sync && this.crcTable == crcTable
      ensures index == map[] && tail == HEADER_LEN && nextId == 1 && indexes == map[]
    {
      this.folder, this.file, this.sync, this.crcTable := folder, file, sync, crcTable;
      scratch := new ByteVec();
      index, tail, nextId, indexes := map[], HEADER_LEN, 1, map[];
    }

    // ---- Appending ----------------------------------------------------------------------

    /** The first half of an append: build the frame in `scratch`. A document too
        large to frame is rejected and leaves only the scratch buffer changed. */
    method FrameRecord(op: byte, id: u64, doc: Option<Document>) returns (r: Result<nat>)
      requires Crc32c.IsTable(crcTable[..])
      modifies scratch
      ensures var rec := RecordFor(op, id, doc);
              if doc.None? || S.Accepts(doc.value)
              then r == Success(|Payload(rec)|) && scratch.data == Frame(rec)
              else r == Failure(ValueTooLarge)
    {
      hide EncodeDoc, LE, Crc32c.Crc, FrameOf, Crc32c.IsTable;
      ghost var rec := RecordFor(op, id, doc);
      scratch.Clear();
      scratch.Extend([0, 0, 0, 0, 0, 0, 0, 0]);
      scratch.Push(op);
      scratch.Extend(LE(id, 8));
      if doc.Some? {
        OversizedLength(doc.value);
        var _ :- EncodeDocumentInto(scratch, doc.value);
      }
      ghost var blank := scratch.data;
      assert blank[FRAME_LEN..] == Payload(rec);
      var payloadLen := |scratch.data| - FRAME_LEN;
      if payloadLen > MAX_RECORD_BYTES {
        return Failure(ValueTooLarge);
      }
      Backfill(payloadLen);
      return Success(payloadLen);
    }

    /** Fill in the length and the checksum before the payload in `scratch`. */
    method Backfill(payloadLen: nat)
      requires Crc32c.IsTable(crcTable[..]) && |scratch.data| == FRAME_LEN + payloadLen
      modifies scratch
      ensures scratch.data == FrameOf(old(scratch.data)[FRAME_LEN..])
    {
      hide LE, Crc32c.Crc, FrameOf, Crc32c.IsTable;
      ghost var blank := scratch.data;
      var crc := Crc32c.Checksum(crcTable, scratch.data[FRAME_LEN..]);
      scratch.Fill(0, LE(payloadLen, 4));
      scratch.Fill(4, LE(crc, 4));
      BackfilledFrame(blank, LE(payloadLen, 4), LE(crc, 4));
    }

    /** Append one framed record; a document too large to frame changes nothing. */
    method Append(op: byte, id: u64, doc: Option<Document>) returns (r: Result<Unit>)
      requires Valid()
      requires (op == OP_PUT && doc.Some?) || (op == OP_DELETE && doc.None?)
      modifies `index, `tail, file, scratch
      ensures Wired()
      ensures if doc.None? || S.Accepts(doc.value)
              then r == Success(Unit) && View() == S.AppendRecord(old(View()), RecordFor(op, id, doc))
              else r == Failure(ValueTooLarge) && View() == old(View())
    {
      hide S.Valid, S.LogOf, S.Accepts, EncodeDoc, Crc32c.IsTable, Frame, Payload, Overwritten, WfDoc, AddAll;
      TailIsEnd(View());
      var payloadLen :- FrameRecord(op, id, doc);
      WrittenAtEnd(file.data, scratch.data);
      Publish(op, id, payloadLen, scratch.data);
      if sync == S.Always {
        file.SyncAll();
      }
      return Success(Unit);
    }

    /** The second half: write the frame at the tail and repoint the index. */
    method Publish(op: byte, id: u64, payloadLen: nat, frame: seq<byte>)
      requires payloadLen >= MIN_PAYLOAD && (op == OP_PUT || op == OP_DELETE)
      modifies `index, `tail, file
      ensures file.data == Overwritten(old(file.data), frame, old(tail))
      ensures file.synced == if old(tail) < old(file.synced) then old(tail) else old(file.synced)
      ensures tail == old(tail) + FRAME_LEN + payloadLen
      ensures index == if op == OP_PUT
                       then old(index)[id := BodyLoc(old(tail) + FRAME_LEN + MIN_PAYLOAD, payloadLen - MIN_PAYLOAD)]
                       else old(index) - {id}
    {
      hide Overwritten;
      file.WriteAllAt(frame, tail);
      var recordStart := tail;
      tail := tail + FRAME_LEN + payloadLen;
      if op == OP_PUT {
        index := index[id := BodyLoc(recordStart + FRAME_LEN + MIN_PAYLOAD, payloadLen - MIN_PAYLOAD)];
      } else {
        index := index - {id};
      }
    }

    // ---- Secondary indexes ----------------------------------------------------------------

    /** List `doc` in every index, fields in whatever order they come. */
    method IndexAdd(id: u64, doc: Document)
      requires Wired()
      modifies IndexObjects()
      ensures Listing() == AddAll(old(Listing()), id, doc)
    {
      hide AddTo, Get;
      var todo := indexes.Keys;
      while todo != {}
        invariant todo <= indexes.Keys
        invariant forall f :: f in todo ==> indexes[f].entries == old(indexes[f].entries)
        invariant forall f :: f in indexes && f !in todo ==>
                    indexes[f].entries == AddEntry(old(indexes[f].entries), f, id, doc)
        decreases |todo|
      {
        var field :| field in todo;
        var value := Get(doc, field);
        if value.Some? {
          indexes[field].Add(value.value, id);
        }
        todo := todo - {field};
      }
    }

    /** Take `doc` out of every index. */
    method IndexRemove(id: u64, doc: Document)
      requires Wired()
      modifies IndexObjects()
      ensures Listing() == RemoveAll(old(Listing()), id, doc)
    {
      hide RemoveFrom, Get;
      var todo := indexes.Keys;
      while todo != {}
        invariant todo <= indexes.Keys
        invariant forall f :: f in todo ==> indexes[f].entries == old(indexes[f].entries)
        invariant forall f :: f in indexes && f !in todo ==>
                    indexes[f].entries == RemoveEntry(old(indexes[f].entries), f, id, doc)
        decreases |todo|
      {
        var field :| field in todo;
        var value := Get(doc, field);
        if value.Some? {
          indexes[field].Remove(value.value, id);
        }
        todo := todo - {field};
      }
    }

    // ---- Operations -----------------------------------------------------------------------

    method ReadBody(loc: BodyLoc) returns (r: Result<Document>)
      ensures r == S.ReadBody(file.data, loc)
    {
      hide Decode;
      var buf :- file.ReadExactAt(loc.offset, loc.len);
      r := DecodeDocument(buf);
    }

    /** Read back the document under `id`: the lookup in the documents held. */
    method Fetch(id: u64) returns (r: Result<Option<Document>>)
      requires Valid()
      ensures r == S.Lookup(S.Held(View()), id)
    {
      hide S.Held, S.ReadBody, S.Valid, S.LogOf;
      ghost var before := View();
      S.FetchIsLookup(before, id);
      if id !in index {
        return Success(None);
      }
      var body := ReadBody(index[id]);
      assert View() == before;
      match body {
        case Failure(e) => return Failure(e);
        case Success(doc) => return Success(Some(doc));
      }
    }

    method Insert(doc: Document) returns (r: Result<u64>)
      requires Valid()
      modifies `index, `tail, `nextId, file, scratch, IndexObjects()
      ensures Valid() && (View(), r) == S.Insert(old(View()), doc)
    {
      hide S.Valid, S.LogOf, S.Accepts, AddAll, EncodeDoc, S.AppendRecord, Crc32c.IsTable, WfDoc, Frame, Payload;
      S.InsertKeepsValid(View(), doc);
      var id := nextId;
      var _ :- Append(OP_PUT, id, Some(doc));
      nextId := Successor(id);
      IndexAdd(id, doc);
      return Success(id);
    }

    method Update(id: u64, doc: Document) returns (r: Result<bool>)
      requires Valid()
      modifies `index, `tail, file, scratch, IndexObjects()
      ensures Valid() && (View(), r) == S.Update(old(View()), id, doc)
    {
      hide S.Valid, S.LogOf, S.Accepts, AddAll, RemoveAll, EncodeDoc, S.AppendRecord, S.ReadBody;
      S.UpdateKeepsValid(View(), id, doc);
      if id !in index {
        return Success(false);
      }
      var _ :- Unlist(id);
      S.AppendIgnoresIndexes(old(View()), Listing(), S.PutRecord(id, doc));
      var _ :- Append(OP_PUT, id, Some(doc));
      IndexAdd(id, doc);
      return Success(true);
    }

    method Delete(id: u64) returns (r: Result<bool>)
      requires Valid()
      modifies `index, `tail, file, scratch, IndexObjects()
      ensures Valid() && (View(), r) == S.Delete(old(View()), id)
    {
      hide S.Valid, S.LogOf, RemoveAll, S.AppendRecord, S.ReadBody;
      S.DeleteKeepsValid(View(), id);
      if id !in index {
        return Success(false);
      }
      var _ :- Unlist(id);
      S.AppendIgnoresIndexes(old(View()), Listing(), S.DeleteRecord(id));
      var appended := Append(OP_DELETE, id, None);
      assert appended.Success?;
      return Success(true);
    }

    /** Take the stored document out of the indexes, if there are any. */
    method Unlist(id: u64) returns (r: Result<Unit>)
      requires Valid() && id in index
      modifies IndexObjects()
      ensures Valid()
      ensures match S.Unlist(old(View()), id)
              case Success(ix) => r == Success(Unit) && View() == old(View()).(indexes := ix)
              case Failure(e) => r == Failure(e) && View() == old(View())
    {
      hide S.Valid, S.LogOf, RemoveAll, S.ReadBody;
      ghost var before := View();
      assert indexes == map[] <==> Listing() == map[] by {
        assert Listing().Keys == indexes.Keys;
      }
      if indexes != map[] {
        var doc :- ReadBody(index[id]);
        IndexRemove(id, doc);
        S.MemoryOnly(before, Listing(), nextId);
      }
      return Success(Unit);
    }

    method Flush()
      requires Valid()
      modifies file
      ensures Valid() && View() == S.Flush(old(View()))
    {
      hide S.Valid, S.LogOf;
      S.FlushKeepsValid(View());
      file.SyncAll();
      assert View() == S.Flush(old(View()));
    }

    // ---- Queries ----------------------------------------------------------------------------

    /** Ids whose `field` equals `value`: a point lookup when the field is indexed,
        a scan of every live document otherwise. */
    method Find(field: seq<byte>, value: Value) returns (r: Result<seq<u64>>)
      requires Valid()
      ensures field in indexes ==> r == Success(SortedIds(IdsAt(indexes[field].entries, value)))
      ensures field !in indexes ==> (r.Success? <==> Healthy(S.Held(View())))
      ensures r.Failure? ==> Reported(S.Held(View()), r.error)
      ensures field !in indexes && r.Success? ==> Lists(r.value, Matching(S.Held(View()), field, value))
    {
      hide Reported, S.Held, S.Valid, S.LogOf, Get, Cmp, Matching, Lists, SortedIds, IdsAt, Healthy;
      if field in indexes {
        var ids := indexes[field].Equal(value);
        return Success(ids);
      }
      ghost var c := S.Held(View());
      S.IndexMatchesHeld(View());
      var out: seq<u64> := [];
      var todo := index.Keys;
      NothingListed(c, field, value);
      while todo != {}
        invariant todo <= index.Keys && View() == old(View())
        invariant forall id :: id in index && id !in todo ==> c[id].Success?
        invariant Lists(out, Matching(c, field, value) - todo)
        decreases |todo|
      {
        var id :| id in todo;
        OneUnreadable(c, id);
        var doc :- ReadLive(id);
        var v := Get(doc, field);
        MatchingOne(c, field, value, id);
        ListsStep(out, Matching(c, field, value), todo, id);
        if v.Some? && Cmp(v.value, value) == Equal {
          out := out + [id];
        }
        todo := todo - {id};
      }
      AllReadable(c);
      assert Matching(c, field, value) - {} == Matching(c, field, value);
      return Success(out);
    }

    /** Ids whose `field` lies within the bounds: in order of value and id when the
        field is indexed, a scan otherwise. */
    method Range(field: seq<byte>, lo: Bound, hi: Bound) returns (r: Result<seq<u64>>)
      requires Valid()
      ensures field in indexes ==> r == Success(RangeOf(indexes[field].entries, lo, hi))
      ensures field !in indexes ==> (r.Success? <==> Healthy(S.Held(View())))
      ensures r.Failure? ==> Reported(S.Held(View()), r.error)
      ensures field !in indexes && r.Success? ==> Lists(r.value, Within(S.Held(View()), field, lo, hi))
    {
      hide Reported, S.Held, S.Valid, S.LogOf, Get, Cmp, Within, Lists, InBounds, RangeOf, Healthy;
      if field in indexes {
        var ids := indexes[field].Range(lo, hi);
        return Success(ids);
      }
      ghost var c := S.Held(View());
      S.IndexMatchesHeld(View());
      var out: seq<u64> := [];
      var todo := index.Keys;
      NothingWithin(c, field, lo, hi);
      while todo != {}
        invariant todo <= index.Keys && View() == old(View())
        invariant forall id :: id in index && id !in todo ==> c[id].Success?
        invariant Lists(out, Within(c, field, lo, hi) - todo)
        decreases |todo|
      {
        var id :| id in todo;
        OneUnreadable(c, id);
        var doc :- ReadLive(id);
        var v := Get(doc, field);
        WithinOne(c, field, lo, hi, id);
        ListsStep(out, Within(c, field, lo, hi), todo, id);
        if v.Some? && InBounds(v.value, lo, hi) {
          out := out + [id];
        }
        todo := todo - {id};
      }
      AllReadable(c);
      assert Within(c, field, lo, hi) - {} == Within(c, field, lo, hi);
      return Success(out);
    }

    /** The document a live id resolves to. */
    method ReadLive(id: u64) returns (r: Result<Document>)
      requires Valid() && id in index
      ensures View() == old(View())
      ensures id in S.Held(View()) && r == S.Held(View())[id]
    {
      hide S.Held, S.Valid, S.LogOf, S.ReadBody;
      ghost var before := View();
      S.IndexMatchesHeld(before);
      r := ReadBody(index[id]);
      assert View() == before;
    }

    /** Build an index over `field` by reading every live document once; any that
        cannot be read makes it fail and leaves the store as it was. */
    method CreateIndex(field: seq<byte>) returns (r: Result<Unit>)
      requires Valid()
      modifies `indexes
      ensures Valid()
      ensures fresh(IndexObjects() - old(IndexObjects()))
      ensures if field in old(indexes) || Healthy(S.Held(old(View())))
              then r == Success(Unit) && View() == S.CreateIndex(old(View()), field)
              else r.Failure? && Reported(S.Held(old(View())), r.error) && View() == old(View())
    {
      hide Reported, S.Held, S.Valid, S.LogOf, Healthy, BuildIndex;
      if field in indexes {
        assert field in Listing();
        return Success(Unit);
      }
      ghost var before := View();
      var built :- BuildOver(field);
      Attach(field, built, before);
      return Success(Unit);
    }

    /** The loop of an index build. */
    method BuildOver(field: seq<byte>) returns (r: Result<SecondaryIndex>)
      requires Valid()
      ensures View() == old(View())
      ensures r.Success? <==> Healthy(S.Held(View()))
      ensures r.Failure? ==> Reported(S.Held(View()), r.error)
      ensures r.Success? ==> fresh(r.value) && r.value.entries == BuildIndex(S.Held(View()), field)
    {
      hide Reported, S.Held, S.Valid, S.LogOf, Get, Healthy, Indexed, BuildIndex, AddTo, Crc32c.IsTable;
      ghost var before := View();
      ghost var c := S.Held(before);
      S.IndexMatchesHeld(before);
      var built := new SecondaryIndex();
      var todo := index.Keys;
      NothingIndexed(c, field);
      while todo != {}
        invariant todo <= index.Keys && View() == before && Wired() && fresh(built) && built !in IndexObjects()
        invariant forall id :: id in index && id !in todo ==> c[id].Success?
        invariant Indexed(built.entries, c, field, todo)
        decreases |todo|
      {
        var id :| id in todo;
        OneUnreadable(c, id);
        var doc :- ReadLive(id);
        var v := Get(doc, field);
        IndexedStep(built.entries, c, field, todo, id);
        if v.Some? {
          AddBuilt(built, v.value, id);
        }
        todo := todo - {id};
      }
      AllReadable(c);
      AllIndexed(built.entries, c, field);
      return Success(built);
    }

    /** Adding to an index that is not attached changes nothing of the store. */
    method AddBuilt(built: SecondaryIndex, v: Value, id: u64)
      requires Wired() && built !in IndexObjects()
      modifies built
      ensures View() == old(View()) && Wired()
      ensures built.entries == AddTo(old(built.entries), v, id)
    {
      ghost var before := View();
      built.Add(v, id);
      assert Listing() == before.indexes;
    }

    /** Put a finished index in place. */
    method Attach(field: seq<byte>, built: SecondaryIndex, ghost before: S.Store)
      requires Valid() && View() == before && field !in indexes && built !in IndexObjects()
      modifies `indexes
      ensures Valid() && View() == before.(indexes := before.indexes[field := built.entries])
      ensures IndexObjects() <= old(IndexObjects()) + {built}
    {
      hide S.Valid, S.LogOf;
      S.MemoryOnly(before, before.indexes[field := built.entries], nextId);
      indexes := indexes[field := built];
      assert Listing() == before.indexes[field := built.entries];
    }

    method DropIndex(field: seq<byte>) returns (existed: bool)
      requires Valid()
      modifies `indexes
      ensures Valid() && View() == S.DropIndex(old(View()), field) && existed == (field in old(indexes))
      ensures IndexObjects() <= old(IndexObjects())
    {
      hide S.Valid, S.LogOf;
      ghost var before := View();
      existed := field in indexes;
      S.MemoryOnly(before, before.indexes - {field}, nextId);
      indexes := indexes - {field};
      assert Listing() == before.indexes - {field};
    }

    /** Sizes now; with the frames of the live documents they never exceed the file. */
    method TakeStats() returns (r: Stats)
      requires Valid()
      ensures r == Stats(|index|, |file.data|, LiveBytes(index))
      ensures HEADER_LEN + (FRAME_LEN + MIN_PAYLOAD) * r.liveDocuments + r.liveBytes <= r.fileBytes
    {
      hide S.LogOf, IndexOf, VerifyHeader, IsLog;
      LiveSizeBound(S.LogOf(View()));
      ViewLength(View());
      var live := 0;
      var rest := index;
      while rest != map[]
        invariant live + LiveBytes(rest) == LiveBytes(index)
        decreases |rest|
      {
        var id :| id in rest;
        LiveBytesWithout(rest, id);
        live := live + rest[id].len;
        rest := rest - {id};
      }
      return Stats(|index|, tail, live);
    }

    // ---- Compaction ---------------------------------------------------------------------------

    /** Rewrite the live records, in whatever order the ids come, into a new file
        and put it under the store's name. `order` is the order they came in. */
    method Compact() returns (r: Result<Unit>, ghost order: seq<u64>)
      requires Valid()
      modifies `file, `index, `tail, folder
      ensures Valid() && fresh(file) && r == Success(Unit) && folder.temp == null
      ensures Compaction.IsOrder(order, BodiesOf(S.LogOf(old(View()))).Keys)
      ensures View() == Compaction.Compacted(old(View()), order)
    {
      hide S.Valid, S.LogOf, BodiesOf, Compaction.IsOrder, Maintenance.InStep, FreshHeader, Compaction.CompactLog,
           Compaction.Compacted, Compaction.CompactFile, IndexOf, S.Held;
      ghost var before := View();
      folder.temp := null;
      var temp := new File();
      folder.temp := temp;
      assert View() == before;
      assert Wired();
      var newIndex, newTail;
      newIndex, newTail, order := Rewrite(temp);
      Compaction.CompactedIs(before, order);
      Compaction.CompactionPreserves(before, order);
      Swap(temp, newIndex, newTail, before);
      r := Success(Unit);
    }

    /** Force the finished file, give it the store's name, and take up its state. */
    method Swap(temp: File, newIndex: Index, newTail: nat, ghost before: S.Store)
      requires Wired() && View() == before && folder.temp == temp
      requires S.Valid(before.(file := temp.data, synced := |temp.data|, index := newIndex, tail := newTail))
      modifies `file, `index, `tail, folder, temp
      ensures Valid() && file == temp && folder.temp == null
      ensures View() == before.(file := temp.data, synced := |temp.data|, index := newIndex, tail := newTail)
      ensures temp.data == old(temp.data)
    {
      hide S.Valid, S.LogOf, Crc32c.IsTable;
      temp.SyncAll();
      file := temp;
      folder.store, folder.temp := temp, null;
      index, tail := newIndex, newTail;
      assert Listing() == before.indexes;
    }

    /** The loop of a compaction: one current record per live id. */
    method Rewrite(temp: File) returns (newIndex: Index, newTail: nat, ghost order: seq<u64>)
      requires Valid() && temp != file && temp.data == []
      modifies temp
      ensures View() == old(View())
      ensures Compaction.IsOrder(order, BodiesOf(S.LogOf(View())).Keys)
      ensures forall id :: id in order ==> id in BodiesOf(S.LogOf(View()))
      ensures temp.data == Compaction.CompactFile(BodiesOf(S.LogOf(View())), order)
      ensures newIndex == IndexOf(Compaction.CompactLog(BodiesOf(S.LogOf(View())), order))
      ensures newTail == |temp.data|
    {
      hide S.Valid, S.LogOf, BodiesOf, FreshHeader, Compaction.CompactLog, Compaction.CompactFile, IndexOf, Frame,
           Overwritten, Compaction.IsOrder;
      ghost var before := View();
      ghost var bodies := BodiesOf(S.LogOf(before));
      S.LiveKeys(before);
      WrittenAtEnd([], FreshHeader());
      temp.WriteAllAt(FreshHeader(), 0);
      newIndex, newTail, order := map[], HEADER_LEN, [];
      var todo := index.Keys;
      NothingRewritten(bodies);
      while todo != {}
        invariant todo <= index.Keys && View() == before && Wired()
        invariant Compaction.IsOrder(order, index.Keys - todo)
        invariant forall id :: id in order ==> id in bodies
        invariant temp.data == Compaction.CompactFile(bodies, order) && newTail == |temp.data|
        invariant newIndex == IndexOf(Compaction.CompactLog(bodies, order))
        decreases |todo|
      {
        var id :| id in todo;
        RewriteStep(bodies, order, index.Keys, todo, id);
        var len := CopyRecord(id, temp, newTail);
        newIndex := newIndex[id := BodyLoc(newTail + FRAME_LEN + MIN_PAYLOAD, len)];
        newTail := newTail + FRAME_LEN + MIN_PAYLOAD + len;
        order := order + [id];
        todo := todo - {id};
      }
      assert index.Keys - {} == index.Keys;
    }

    /** One turn of the loop: frame the body of a live id and append it. */
    method CopyRecord(id: u64, temp: File, newTail: nat) returns (len: nat)
      requires Valid() && id in index && temp != file && newTail == |temp.data|
      modifies temp
      ensures View() == old(View()) && Wired()
      ensures id in BodiesOf(S.LogOf(View()))
      ensures var body := BodiesOf(S.LogOf(View()))[id];
              temp.data == old(temp.data) + Frame(Record(OP_PUT, id, body)) && len == |body|
    {
      hide S.Valid, S.LogOf, BodiesOf, LE, Crc32c.Crc, Crc32c.IsTable, Overwritten;
      ghost var before := View();
      S.LiveBody(before, id);
      var loc := index[id];
      var body := file.ReadExactAt(loc.offset, loc.len);
      assert body.Success?;
      var payload := [OP_PUT] + LE(id, 8) + body.value;
      var crc := Crc32c.Checksum(crcTable, payload);
      var frame := LE(|payload|, 4) + LE(crc, 4) + payload;
      WrittenAtEnd(temp.data, frame);
      temp.WriteAllAt(frame, newTail);
      len := loc.len;
      assert View() == before;
    }

    // ---- Opening ------------------------------------------------------------------------------

    /** One turn of the replay loop. */
    method ReadTurn(offset: nat, fileLen: nat) returns (t: Turn)
      requires fileLen == |file.data| && Crc32c.IsTable(crcTable[..])
      ensures t == ReadRecord(file.data, offset)
    {
      hide FromLE, Crc32c.Crc, Crc32c.IsTable;
      if offset + FRAME_LEN > fileLen {
        return Stop;
      }
      ghost var data := file.data;
      var frame := file.ReadExactAt(offset, FRAME_LEN);
      assert frame == Success(data[offset..offset + FRAME_LEN]);
      assert frame.value[..4] == data[offset..offset + 4];
      assert frame.value[4..8] == data[offset + 4..offset + 8];
      var payloadLen := FromLE(frame.value[..4]);
      var expectedCrc := FromLE(frame.value[4..8]);
      if !(MIN_PAYLOAD <= payloadLen <= MAX_RECORD_BYTES) {
        return Stop;
      }
      var recordEnd := offset + FRAME_LEN + payloadLen;
      if recordEnd > fileLen {
        return Stop;
      }
      var payload := file.ReadExactAt(offset + FRAME_LEN, payloadLen);
      assert payload == Success(data[offset + FRAME_LEN..recordEnd]);
      var crc := Crc32c.Checksum(crcTable, payload.value);
      assert ReadRecord(data, offset) == ReadPayload(payload.value, expectedCrc, recordEnd, fileLen);
      if crc != expectedCrc {
        return if recordEnd == fileLen then Stop else Fail(Corrupt(CrcMismatch));
      }
      var op := payload.value[0];
      FromLE64Bound(payload.value[1..9]);
      var id := FromLE(payload.value[1..9]);
      if op != OP_PUT && op != OP_DELETE {
        return Fail(Corrupt(UnknownOp));
      }
      return Next(Record(op, id, payload.value[9..]), recordEnd);
    }

    /** Scan the records after the header, rebuild the index, cut a torn tail. */
    method Replay(fileLen: nat) returns (r: Result<Unit>)
      requires Crc32c.IsTable(crcTable[..]) && HEADER_LEN <= fileLen == |file.data| && file.synced <= fileLen
      requires index == map[] && nextId == 1
      modifies `index, `tail, `nextId, file
      ensures match ScanFrom(old(file.data), HEADER_LEN)
              case Broken(e) => r == Failure(e) && file.data == old(file.data) && file.synced == old(file.synced)
              case Scanned(log, end) =>
                && r == Success(Unit) && end <= |old(file.data)|
                && file.data == old(file.data)[..end] && file.synced == S.Min(old(file.synced), end)
                && index == IndexOf(log) && tail == end && nextId == NextIdOf(log)
    {
      hide ReadRecord, IndexOf, NextIdOf, Frames, Crc32c.IsTable, Frame, BodiesOf, WfLog;
      ghost var data := file.data;
      ghost var log: seq<Record> := [];
      var offset := HEADER_LEN;
      NothingReplayed(data);
      while true
        invariant HEADER_LEN <= offset <= fileLen && file.data == data && file.synced == old(file.synced)
        invariant offset == HEADER_LEN + |Frames(log)|
        invariant ScanFrom(data, HEADER_LEN) == Prepend(log, ScanFrom(data, offset))
        invariant index == IndexOf(log) && nextId == NextIdOf(log)
        decreases fileLen - offset
      {
        var t := ReadTurn(offset, fileLen);
        match t {
          case Stop =>
            assert ScanFrom(data, offset) == Scanned([], offset);
            break;
          case Fail(e) =>
            return Failure(e);
          case Next(rec, end) =>
            ReadRecordSound(data, offset);
            StateSnoc(log, rec);
            FramesSnoc(log, rec);
            PrependTwice(log, [rec], ScanFrom(data, end));
            if rec.op == OP_PUT {
              index := index[rec.id := BodyLoc(offset + FRAME_LEN + MIN_PAYLOAD, |rec.body|)];
            } else {
              index := index - {rec.id};
            }
            if rec.id >= nextId {
              nextId := Successor(rec.id);
            }
            offset := end;
            log := log + [rec];
        }
      }
      assert log + [] == log;
      if offset < fileLen {
        file.SetLen(offset);
      } else {
        assert data[..offset] == data;
      }
      tail := offset;
      return Success(Unit);
    }
  }

  /** Open the store in `folder`, creating it if need be. */
  method OpenInner(folder: Folder, sync: S.SyncPolicy) returns (r: Result<Db>)
    requires folder.store != null ==> folder.store.synced <= |folder.store.data|
    modifies folder, if folder.store == null then {} else {folder.store}
    ensures folder.temp == null
    ensures var bytes := if old(folder.store) == null then [] else old(folder.store.data);
            var synced := if old(folder.store) == null then 0 else old(folder.store.synced);
            match S.Open(bytes, synced, sync)
            case Failure(e) => r == Failure(e) && folder.store == old(folder.store) != null
                               && folder.store.data == bytes && folder.store.synced == synced
            case Success(s) => r.Success? && r.value.Valid() && r.value.View() == s && r.value.folder == folder
    ensures r.Success? ==>
              && fresh(r.value) && fresh(r.value.scratch) && r.value.IndexObjects() == {}
              && r.value.file == folder.store
              && if old(folder.store) == null then fresh(r.value.file) else r.value.file == old(folder.store)
  {
    hide VerifyHeader, ScanFrom, IndexOf, NextIdOf, S.Valid, S.LogOf, Crc32c.IsTable, FreshHeader, Overwritten;
    folder.temp := null;
    if folder.store == null {
      folder.store := new File();
    }
    var file := folder.store;
    ghost var bytes, synced := file.data, file.synced;
    var table := Crc32c.BuildTable();
    var db := new Db(folder, file, sync, table);
    if |file.data| == 0 {
      S.NewStoreIsValid(sync);
      WrittenAtEnd([], FreshHeader());
      file.WriteAllAt(FreshHeader(), 0);
      file.SyncAll();
      assert bytes == [] && db.Listing() == map[];
      assert db.View() == S.Open([], 0, sync).value;
      return Success(db);
    }
    if S.Open(bytes, synced, sync).Success? {
      S.OpenIsValid(bytes, synced, sync);
    }
    var _ :- CheckHeader(file);
    HeaderIsLong(file.data);
    var _ :- db.Replay(|file.data|);
    assert db.Listing() == map[];
    return Success(db);
  }

  method CheckHeader(file: File) returns (r: Result<Unit>)
    ensures r == VerifyHeader(file.data)
  {
    if |file.data| < HEADER_LEN {
      return Failure(BadMagic);
    }
    var header := file.ReadExactAt(0, HEADER_LEN);
    assert header.value[..8] == file.data[..8] && header.value[8..10] == file.data[8..10];
    if header.value[..8] != MAGIC {
      return Failure(BadMagic);
    }
    var version := FromLE(header.value[8..10]);
    if version > FORMAT_VERSION {
      return Failure(UnsupportedVersion(version));
    }
    return Success(Unit);
  }

  lemma HeaderIsLong(data: seq<byte>)
    ensures VerifyHeader(data).Success? ==> |data| >= HEADER_LEN
  {}

  lemma NothingReplayed(data: seq<byte>)
    ensures ScanFrom(data, HEADER_LEN) == Prepend([], ScanFrom(data, HEADER_LEN))
    ensures IndexOf([]) == map[] && NextIdOf([]) == 1 && |Frames([])| == 0
  {
    PrependTwice([], [], ScanFrom(data, HEADER_LEN));
  }

  lemma ViewLength(s: S.Store)
    requires S.Valid(s)
    ensures |s.file| == HEADER_LEN + |Frames(S.LogOf(s))| == s.tail && s.index == IndexOf(S.LogOf(s))
  {}

  lemma NothingRewritten(bodies: Bodies)
    ensures Compaction.CompactFile(bodies, []) == FreshHeader()
    ensures IndexOf(Compaction.CompactLog(bodies, [])) == map[]
    ensures forall ids :: Compaction.IsOrder([], ids - ids)
  {
    hide FreshHeader;
    assert FreshHeader() + Frames([]) == FreshHeader();
  }

  lemma RewriteStep(bodies: Bodies, order: seq<u64>, ids: set<u64>, todo: set<u64>, id: u64)
    requires Compaction.IsOrder(order, ids - todo) && id in todo && todo <= ids <= bodies.Keys
    requires forall j :: j in order ==> j in bodies
    ensures Compaction.IsOrder(order + [id], ids - (todo - {id}))
    ensures forall j :: j in order + [id] ==> j in bodies
    ensures Compaction.CompactFile(bodies, order + [id]) ==
            Compaction.CompactFile(bodies, order) + Frame(Record(OP_PUT, id, bodies[id]))
    ensures IndexOf(Compaction.CompactLog(bodies, order + [id])) ==
            IndexOf(Compaction.CompactLog(bodies, order))
              [id := BodyLoc(|Compaction.CompactFile(bodies, order)| + FRAME_LEN + MIN_PAYLOAD, |bodies[id]|)]
  {
    hide Compaction.CompactFile, Compaction.CompactLog, IndexOf, Frame, Compaction.IsOrder;
    OrderGrows(order, ids, todo, id);
    Compaction.CompactFileSnoc(bodies, order, id);
  }

  lemma OrderGrows(order: seq<u64>, ids: set<u64>, todo: set<u64>, id: u64)
    requires Compaction.IsOrder(order, ids - todo) && id in todo && todo <= ids
    ensures Compaction.IsOrder(order + [id], ids - (todo - {id}))
  {}

  lemma NothingIndexed(c: Docs, field: seq<byte>)
    ensures Indexed(map[], c, field, c.Keys)
  {}

  lemma IndexedStep(m: Entries, c: Docs, field: seq<byte>, todo: set<u64>, id: u64)
    requires Indexed(m, c, field, todo) && id in todo && id in c && c[id].Success?
    ensures match Get(c[id].value, field)
            case None => Indexed(m, c, field, todo - {id})
            case Some(v) => Indexed(AddTo(m, v, id), c, field, todo - {id})
  {
    hide Get;
  }

  lemma AllIndexed(m: Entries, c: Docs, field: seq<byte>)
    requires Indexed(m, c, field, {})
    ensures m == BuildIndex(c, field)
  {
    BuiltIndexAgrees(c, field);
    EntriesDetermined(m, BuildIndex(c, field));
  }

  /** The error is what reading some live document reports. */
  ghost predicate Reported(c: Docs, e: Error) {
    exists id :: id in c && c[id] == Failure(e)
  }

  lemma OneUnreadable(c: Docs, id: u64)
    ensures id in c && c[id].Failure? ==> !Healthy(c) && Reported(c, c[id].error)
  {}

  lemma AllReadable(c: Docs)
    ensures (forall id :: id in c ==> c[id].Success?) ==> Healthy(c)
  {}

  lemma NothingListed(c: Docs, field: seq<byte>, v: Value)
    ensures Lists([], Matching(c, field, v) - c.Keys)
  {}

  lemma NothingWithin(c: Docs, field: seq<byte>, lo: Bound, hi: Bound)
    ensures Lists([], Within(c, field, lo, hi) - c.Keys)
  {}

  lemma MatchingOne(c: Docs, field: seq<byte>, v: Value, id: u64)
    requires id in c && c[id].Success?
    ensures id in Matching(c, field, v) <==>
            Get(c[id].value, field).Some? && Cmp(Get(c[id].value, field).value, v) == Equal
  {
    if Get(c[id].value, field).Some? {
      CmpAntisymmetric(Get(c[id].value, field).value, v);
    }
  }

  lemma WithinOne(c: Docs, field: seq<byte>, lo: Bound, hi: Bound, id: u64)
    requires id in c && c[id].Success?
    ensures id in Within(c, field, lo, hi) <==>
            Get(c[id].value, field).Some? && InBounds(Get(c[id].value, field).value, lo, hi)
  {}

  lemma ListsStep(out: seq<u64>, s: set<u64>, todo: set<u64>, id: u64)
    requires Lists(out, s - todo) && id in todo
    ensures id in s ==> Lists(out + [id], s - (todo - {id}))
    ensures id !in s ==> Lists(out, s - (todo - {id}))
  {}

  /** The list names each id of the set once, in any order. */
  ghost predicate Lists(ids: seq<u64>, s: set<u64>) {
    && (forall i, j :: 0 <= i < j < |ids| ==> ids[i] != ids[j])
    && (forall id :: id in ids <==> id in s)
  }

  /** The record an append writes. */
  function RecordFor(op: byte, id: u64, doc: Option<Document>): Record {
    Record(op, id, if doc.Some? then EncodeDoc(doc.value) else [])
  }

  lemma WrittenAtEnd(data: seq<byte>, bytes: seq<byte>)
    ensures Overwritten(data, bytes, |data|) == data + bytes
  {
    assert data[..|data|] == data;
  }

  lemma BackfilledFrame(blank: seq<byte>, len: seq<byte>, crc: seq<byte>)
    requires FRAME_LEN <= |blank| && len == LE(|blank| - FRAME_LEN, 4) && crc == LE(Crc32c.Crc(blank[FRAME_LEN..]), 4)
    ensures var once := blank[..0] + len + blank[4..];
            once[..4] + crc + once[8..] == FrameOf(blank[FRAME_LEN..])
  {
    hide LE, Crc32c.Crc;
    var once := blank[..0] + len + blank[4..];
    assert once[..4] == len;
    assert once[8..] == blank[FRAME_LEN..];
  }

  lemma TailIsEnd(s: S.Store)
    requires S.Valid(s)
    ensures s.tail == |s.file| && s.synced <= |s.file|
  {}

  /** A document with a length that does not fit its field is too large anyway. */
  lemma OversizedLength(doc: Document)
    ensures S.Accepts(doc) ==> FitsDoc(doc)
  {
    if S.Accepts(doc) {
      SmallDocFits(doc);
    }
  }
}
