/** Whole sessions with a database object: what one process leaves, the next finds. */
module Sessions {
  import opened Bytes
  import opened Documents
  import opened Errors
  import opened Log
  import opened LogState
  import opened Database
  import Compaction
  import Maintenance
  import S = Store

  /** Compacting and reopening changes no answer, whatever the store held. */
  method CompactReopenFetch(db: Db, sync: S.SyncPolicy, id: u64)
    returns (before: Result<Option<Document>>, after: Result<Option<Document>>)
    requires db.Valid()
    modifies db, db.folder, db.file
    ensures before == S.Lookup(S.Held(old(db.View())), id)
    ensures after == before
  {
    hide S.Valid, S.LogOf, S.Held, S.Lookup, S.Open, Compaction.Compacted, Compaction.IsOrder, BodiesOf;
    ghost var was := db.View();
    before := db.Fetch(id);
    assert db.View() == was;
    var _, order := db.Compact();
    CompactedAnswers(was, order, sync);
    var again := OpenInner(db.folder, sync);
    after := again.value.Fetch(id);
  }

  lemma CompactedAnswers(s: S.Store, order: seq<u64>, sync: S.SyncPolicy)
    requires S.Valid(s) && Compaction.IsOrder(order, BodiesOf(S.LogOf(s)).Keys)
    ensures var t := Compaction.Compacted(s, order);
            && t.synced <= |t.file|
            && S.Open(t.file, t.synced, sync).Success?
            && S.Held(S.Open(t.file, t.synced, sync).value) == S.Held(s)
  {
    hide S.Valid, S.LogOf, S.Held, S.Open, Compaction.Compacted, Compaction.IsOrder, BodiesOf, Maintenance.InStep;
    var t := Compaction.Compacted(s, order);
    Compaction.CompactionPreserves(s, order);
    TailIsEnd(t);
    S.ValidReopens(t, t.synced, sync);
  }

  /** What was inserted is read back after reopening, and the next insert is given
      the next id, as long as neither id is the last there is. */
  method InsertReopenInsert(db: Db, sync: S.SyncPolicy, doc: Document, other: Document)
    returns (first: Result<u64>, found: Result<Option<Document>>, second: Result<u64>)
    requires db.Valid() && S.FreshIds(db.View()) && db.nextId < MAX_ID - 1
    requires WfDoc(doc) && S.Accepts(doc) && WfDoc(other) && S.Accepts(other)
    modifies db, db.folder, db.file, db.scratch, db.IndexObjects()
    ensures first == Success(old(db.nextId)) && second == Success(old(db.nextId) + 1)
    ensures found == Success(Some(doc))
  {
    hide S.Valid, S.LogOf, S.Held, S.Open, S.Accepts, S.Insert, WfDoc, S.FreshIds, S.Lookup;
    InsertedIsFound(db.View(), doc, other, sync);
    first := db.Insert(doc);
    var again := OpenInner(db.folder, sync);
    ghost var back := again.value.View();
    found := again.value.Fetch(first.value);
    assert again.value.View() == back;
    second := again.value.Insert(other);
  }

  lemma InsertedIsFound(s: S.Store, doc: Document, other: Document, sync: S.SyncPolicy)
    requires S.Valid(s) && S.FreshIds(s) && s.nextId < MAX_ID - 1
    requires WfDoc(doc) && S.Accepts(doc) && WfDoc(other) && S.Accepts(other)
    ensures var (now, r) := S.Insert(s, doc);
            && r == Success(s.nextId) && S.Valid(now) && now.synced <= |now.file|
            && var o := S.Open(now.file, now.synced, sync);
               && o.Success?
               && S.Lookup(S.Held(o.value), s.nextId) == Success(Some(doc))
               && S.Insert(o.value, other).1 == Success(s.nextId + 1)
  {
    S.InsertSpec(s, doc);
    hide S.Valid, S.LogOf, S.Held, S.Open, S.Accepts, WfDoc, NextIdOf, S.AppendRecord, S.PutRecord, S.FreshIds;
    var now := S.Insert(s, doc).0;
    TailIsEnd(now);
    S.ValidReopens(now, now.synced, sync);
    FreshNext(s, S.PutRecord(s.nextId, doc));
  }

  lemma FreshNext(s: S.Store, r: Record)
    requires S.FreshIds(s) && r.id == s.nextId != MAX_ID
    ensures NextIdOf(S.LogOf(s) + [r]) == s.nextId + 1
  {
    hide S.LogOf;
    NextIdAfterFresh(S.LogOf(s), r);
  }
}
