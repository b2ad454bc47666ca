/** Secondary indexes across the operations of the store: what stays in step, and
    the one way they fall out of it. */
module Maintenance {
  import opened Bytes
  import opened Documents
  import opened Errors
  import opened Log
  import opened Contents
  import opened Store

  /** Every index lists exactly the live documents it should, but for its gaps. */
  ghost predicate InStep(s: Store, gaps: Gaps) {
    IndexesAgree(s.indexes, Held(s), gaps)
  }

  lemma InsertInStep(s: Store, doc: Document, gaps: Gaps)
    requires Valid(s) && FreshIds(s) && WfDoc(doc) && s.nextId != MAX_ID && InStep(s, gaps)
    ensures var (s', r) := Insert(s, doc);
            InStep(s', if r.Success? then GapsWithout(gaps, s.nextId) else gaps)
  {
    InsertSpec(s, doc);
    hide Held, AddAll, Accepts, IndexesAgree, AppendRecord, PutRecord;
    if Accepts(doc) {
      AddAllAgrees(s.indexes, Held(s), gaps, s.nextId, doc);
    }
  }

  /** What a delete or update read back before unlisting. */
  lemma UnlistReads(s: Store, id: u64)
    requires Valid(s) && id in s.index
    ensures id in Held(s)
    ensures s.indexes == map[] ==> Unlist(s, id) == Success(map[])
    ensures s.indexes != map[] && Held(s)[id].Success? ==>
              Unlist(s, id) == Success(RemoveAll(s.indexes, id, Held(s)[id].value))
    ensures s.indexes != map[] && Held(s)[id].Failure? ==> Unlist(s, id).Failure?
  {
    IndexMatchesHeld(s);
    hide Held, ReadBody, RemoveAll, Valid;
  }

  lemma NoIndexesAgree(c: Docs)
    ensures IndexesAgree(map[], c, map[])
    ensures forall gaps :: IndexesAgree(map[], c, gaps) <==> gaps == map[]
    ensures forall id, doc :: AddAll(map[], id, doc) == map[]
    ensures forall id :: GapsWith(map[], id) == map[] && GapsWithout(map[], id) == map[]
  {}

  /** A document that cannot be read is in no index, so leaving it out is no gap. */
  lemma UnreadableIsNoGap(ix: Indexes, c: Docs, gaps: Gaps, id: u64)
    requires IndexesAgree(ix, c, gaps) && id in c && c[id].Failure?
    ensures IndexesAgree(ix, c, GapsWith(gaps, id))
  {
    forall f | f in ix
      ensures Indexed(ix[f], c, f, gaps[f] + {id})
    {
      assert Indexed(ix[f], c, f, gaps[f]);
      assert forall v :: !Carries(c, f, v, id);
    }
  }

  /** A successful update closes the gaps of its id; one that is rejected opens
      one in every index. */
  lemma UpdateInStep(s: Store, id: u64, doc: Document, gaps: Gaps)
    requires Valid(s) && WfDoc(doc) && InStep(s, gaps)
    ensures var (s', r) := Update(s, id, doc);
            && (r == Success(true) ==> InStep(s', GapsWithout(gaps, id)))
            && (r == Success(false) ==> InStep(s', gaps))
            && (r.Failure? ==> InStep(s', GapsWith(gaps, id)))
  {
    UpdateSpec(s, id, doc);
    IndexMatchesHeld(s);
    hide Held, AddAll, RemoveAll, Accepts, Unlist, IndexesAgree, AppendRecord, PutRecord, Valid, ReadBody, WfDoc,
         GapsWith,
         GapsWithout;
    if id in s.index {
      UnlistReads(s, id);
      var c := Held(s);
      if s.indexes == map[] {
        NoIndexesAgree(c);
        NoIndexesAgree(Held(Update(s, id, doc).0));
      } else if c[id].Success? {
        ReplaceAgrees(s.indexes, c, gaps, id, c[id].value, doc);
        RemoveAllAgrees(s.indexes, c, gaps, id, c[id].value);
      } else {
        UnreadableIsNoGap(s.indexes, c, gaps, id);
      }
    }
  }

  lemma DeleteInStep(s: Store, id: u64, gaps: Gaps)
    requires Valid(s) && InStep(s, gaps)
    ensures var (s', r) := Delete(s, id);
            InStep(s', if r == Success(true) then GapsWithout(gaps, id) else gaps)
  {
    DeleteSpec(s, id);
    IndexMatchesHeld(s);
    hide Held, RemoveAll, Unlist, IndexesAgree, AppendRecord, DeleteRecord, Valid, ReadBody, GapsWithout;
    if id in s.index {
      UnlistReads(s, id);
      var c := Held(s);
      if s.indexes == map[] {
        NoIndexesAgree(c);
        NoIndexesAgree(Held(Delete(s, id).0));
      } else if c[id].Success? {
        RemoveAllAgrees(s.indexes, c, gaps, id, c[id].value);
      }
    }
  }

  /** What indexing `field` does to the gaps: none for a new index, nothing for one
      that exists. */
  function GapsIndexed(gaps: Gaps, field: seq<byte>): Gaps {
    if field in gaps then gaps else gaps[field := {}]
  }

  /** A new index is complete, whatever the others leave out. */
  lemma CreateIndexInStep(s: Store, field: seq<byte>, gaps: Gaps)
    requires Valid(s) && InStep(s, gaps)
    ensures InStep(CreateIndex(s, field), if Healthy(Held(s)) then GapsIndexed(gaps, field) else gaps)
    ensures Held(CreateIndex(s, field)) == Held(s) && Valid(CreateIndex(s, field))
  {
    hide Held, BuildIndex, Indexed, Valid, LogOf, Healthy;
    BuiltIndexAgrees(Held(s), field);
    MemoryOnly(s, CreateIndex(s, field).indexes, s.nextId);
    SameHeld(s, CreateIndex(s, field));
  }

  lemma DropIndexInStep(s: Store, field: seq<byte>, gaps: Gaps)
    requires Valid(s) && InStep(s, gaps)
    ensures InStep(DropIndex(s, field), gaps - {field})
    ensures Held(DropIndex(s, field)) == Held(s) && Valid(DropIndex(s, field))
  {
    hide Held, Indexed, Valid, LogOf;
    MemoryOnly(s, DropIndex(s, field).indexes, s.nextId);
    SameHeld(s, DropIndex(s, field));
  }

  // ---- The exact condition on updates ----------------------------------------------------

  /** Some index lists the document now stored under `id`. */
  ghost predicate Listed(s: Store, id: u64) {
    exists f :: f in s.indexes && HasField(Held(s), f, id)
  }

  /** With every index complete, an update leaves them complete if and only if it
      is not a live, listed document's update by one too large to store. */
  lemma UpdateKeepsIndexesIff(s: Store, id: u64, doc: Document, gaps: Gaps)
    requires Valid(s) && Healthy(Held(s)) && WfDoc(doc) && InStep(s, gaps) && NoGaps(gaps)
    ensures InStep(Update(s, id, doc).0, gaps) <==> !(id in Held(s) && Listed(s, id) && !Accepts(doc))
  {
    UpdateSpec(s, id, doc);
    UpdateInStep(s, id, doc, gaps);
    NoGapsWithout(gaps, id);
    if id in Held(s) && !Accepts(doc) {
      SameHeld(s, Update(s, id, doc).0);
      hide Held, Accepts, Valid, Update, IndexesAgree, HasField, LogOf;
      IndexMatchesHeld(s);
      UpdateKeepsFields(s, id, doc);
      GapIsHarmlessIff(Update(s, id, doc).0.indexes, Held(s), gaps, id);
    }
  }

  lemma NoGapsWithout(gaps: Gaps, id: u64)
    requires NoGaps(gaps)
    ensures GapsWithout(gaps, id) == gaps
  {
    assert forall f :: f in gaps ==> gaps[f] - {id} == gaps[f];
  }

  lemma UpdateKeepsFields(s: Store, id: u64, doc: Document)
    ensures Update(s, id, doc).0.indexes.Keys == s.indexes.Keys
  {
    hide Accepts, ReadBody, AppendRecord;
  }

  /** Indexes that leave `id` out are complete if and only if no indexed field is
      one its document has. */
  lemma GapIsHarmlessIff(ix: Indexes, c: Docs, gaps: Gaps, id: u64)
    requires NoGaps(gaps) && IndexesAgree(ix, c, GapsWith(gaps, id))
    ensures IndexesAgree(ix, c, gaps) <==> !exists f :: f in ix && HasField(c, f, id)
  {
    hide Get;
    if f :| f in ix && HasField(c, f, id) {
      assert Indexed(ix[f], c, f, gaps[f] + {id});
      assert Carries(c, f, FieldOf(c, f, id), id);
    } else {
      forall f | f in ix
        ensures Indexed(ix[f], c, f, gaps[f])
      {
        assert Indexed(ix[f], c, f, gaps[f] + {id});
        assert !HasField(c, f, id);
        assert forall v :: !Carries(c, f, v, id);
      }
    }
  }

  /** A document no record can hold. */
  function Oversized(): Document {
    [Field([], Blob(seq(MAX_RECORD_BYTES, _ => 0)))]
  }

  lemma OversizedIsRejected()
    ensures WfDoc(Oversized()) && !Accepts(Oversized())
  {
    var v := Oversized()[0].value;
    assert |Codec.EncodeValue(v)| > MAX_RECORD_BYTES;
    assert |Codec.EncodeFields(Oversized())| >= |Codec.EncodeField(Oversized()[0])|;
  }

  /** The failure is real: an indexed field, one document that has it, and an update
      of that document by one too large to store. */
  lemma RejectedUpdateLosesEntry()
    ensures exists s: Store, gaps, id, doc ::
              && Valid(s) && Healthy(Held(s)) && WfDoc(doc) && NoGaps(gaps)
              && InStep(s, gaps) && !InStep(Update(s, id, doc).0, gaps)
  {
    hide Oversized, Accepts, Valid, Held, InStep, WfDoc, Update, Healthy;
    var s, gaps := IndexedStore();
    OversizedIsRejected();
    UpdateKeepsIndexesIff(s, 1, Oversized(), gaps);
  }

  /** A store with an index on "k" and one document, under id 1, that has the field. */
  lemma IndexedStore() returns (s: Store, gaps: Gaps)
    ensures Valid(s) && Healthy(Held(s)) && NoGaps(gaps) && InStep(s, gaps) && 1 in Held(s) && Listed(s, 1)
  {
    hide Accepts, Valid, WfDoc, LogOf, FreshIds, BuildIndex, AddAll, Insert, CreateIndex, IndexesAgree;
    var key: seq<byte> := [0x6B];
    var small := [Field(key, Null)];
    EmptyStore();
    var s0 := Open([], 0, Manual).value;
    NoIndexesAgree(Held(s0));
    CreateIndexInStep(s0, key, map[]);
    CreatedOnEmpty(s0, key);
    var s1 := CreateIndex(s0, key);
    SmallAccepted(key);
    InsertSpec(s1, small);
    gaps := map[key := {}];
    InsertInStep(s1, small, gaps);
    NoGapsWithout(gaps, s1.nextId);
    InsertKeepsFields(s1, small);
    s := Insert(s1, small).0;
    HasSmall(Held(s), key, 1);
    assert key in s.indexes;
  }

  lemma HasSmall(c: Docs, key: seq<byte>, id: u64)
    requires c == map[id := Success([Field(key, Null)])]
    ensures Healthy(c) && HasField(c, key, id)
  {}

  lemma CreatedOnEmpty(s: Store, key: seq<byte>)
    requires Held(s) == map[] && s.indexes == map[]
    ensures key in CreateIndex(s, key).indexes
    ensures CreateIndex(s, key).nextId == s.nextId
    ensures FreshIds(s) ==> FreshIds(CreateIndex(s, key))
  {
    hide Held, BuildIndex, LogOf;
    SameHeld(s, CreateIndex(s, key));
  }

  lemma InsertKeepsFields(s: Store, doc: Document)
    ensures Insert(s, doc).0.indexes.Keys == s.indexes.Keys
  {
    hide Accepts;
  }

  lemma SmallAccepted(key: seq<byte>)
    requires |key| == 1 && key[0] == 0x6B
    ensures WfDoc([Field(key, Null)]) && Accepts([Field(key, Null)])
  {
    var d := [Field(key, Null)];
    assert Utf8Width(key) == 1 && key[1..] == [];
    assert ValidUtf8(key);
    assert d[1..] == [];
    assert |Codec.EncodeFields(d)| == |Codec.EncodeField(d[0])| + |Codec.EncodeFields([])|;
  }
}
