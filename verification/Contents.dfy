/** The documents a store holds, as a map from ids, and what it means for a
    secondary index to agree with it. */
module Contents {
  import opened Bytes
  import opened Documents
  import opened Errors
  import opened Codec
  import opened SecondaryIndexes
  import opened Log
  import opened LogState

  /** Each live id and what reading it back gives; a file written by something
      else may hold a body that does not decode. */
  type Docs = map<u64, Result<Document>>

  function DecodeAll(bodies: Bodies): Docs {
    map id | id in bodies :: Decode(bodies[id])
  }

  function DocsOf(log: seq<Record>): Docs {
    DecodeAll(BodiesOf(log))
  }

  predicate Healthy(c: Docs) {
    forall id :: id in c ==> c[id].Success?
  }

  /** One record's effect on the documents. */
  function ApplyToDocs(c: Docs, r: Record): Docs {
    if r.op == OP_PUT then c[r.id := Decode(r.body)] else c - {r.id}
  }

  lemma DocsSnoc(log: seq<Record>, r: Record)
    ensures DocsOf(log + [r]) == ApplyToDocs(DocsOf(log), r)
  {
    hide BodiesOf, IndexOf, NextIdOf, Frames, Decode;
    StateSnoc(log, r);
  }

  // ---- Queries over the documents --------------------------------------------------------

  /** Live document `id` has value `v` in field `field`. */
  predicate Carries(c: Docs, field: seq<byte>, v: Value, id: u64) {
    id in c && c[id].Success? && Get(c[id].value, field) == Some(v)
  }

  /** The answer to an equality query. */
  ghost function Matching(c: Docs, field: seq<byte>, v: Value): set<u64> {
    set id | id in c && Carries(c, field, v, id)
  }

  predicate InRange(c: Docs, field: seq<byte>, lo: Bound, hi: Bound, id: u64) {
    && id in c && c[id].Success?
    && Get(c[id].value, field).Some?
    && InBounds(Get(c[id].value, field).value, lo, hi)
  }

  /** The answer to a range query. */
  ghost function Within(c: Docs, field: seq<byte>, lo: Bound, hi: Bound): set<u64> {
    set id | id in c && InRange(c, field, lo, hi, id)
  }

  /** A scan between two numbers finds the documents whose field is a number between
      them. */
  lemma NumberScan(c: Docs, field: seq<byte>, a: i64, b: i64, id: u64)
    ensures id in Within(c, field, Included(Int(a)), Included(Int(b))) <==>
            exists n: i64 :: a <= n <= b && Carries(c, field, Int(n), id)
    ensures id in Within(c, field, Included(Int(a)), Excluded(Int(b))) <==>
            exists n: i64 :: a <= n < b && Carries(c, field, Int(n), id)
  {
    hide Get, InBounds;
    if id in c && c[id].Success? && Get(c[id].value, field).Some? {
      var v := Get(c[id].value, field).value;
      NumberRange(v, a, b);
      assert v.Int? ==> Carries(c, field, Int(v.n), id);
    }
  }

  // ---- Index invariants --------------------------------------------------------------------

  type Indexes = map<seq<byte>, Entries>

  /** For each indexed field, the ids its index leaves out. */
  type Gaps = map<seq<byte>, set<u64>>

  function GapsWith(gaps: Gaps, id: u64): Gaps {
    map f | f in gaps :: gaps[f] + {id}
  }

  function GapsWithout(gaps: Gaps, id: u64): Gaps {
    map f | f in gaps :: gaps[f] - {id}
  }

  ghost predicate NoGaps(gaps: Gaps) {
    forall f :: f in gaps ==> gaps[f] == {}
  }

  lemma GapsWithoutTwice(gaps: Gaps, id: u64)
    ensures GapsWithout(GapsWithout(gaps, id), id) == GapsWithout(gaps, id)
  {
    var once := GapsWithout(gaps, id);
    assert forall f :: f in once ==> once[f] - {id} == once[f];
  }

  /** No key is empty, and the index lists under each value exactly the live
      documents that carry it, but for the ids in `missing`. */
  ghost predicate Indexed(m: Entries, c: Docs, field: seq<byte>, missing: set<u64>) {
    && NoEmptySets(m)
    && forall v, id :: Holds(m, v, id) <==> Carries(c, field, v, id) && id !in missing
  }

  ghost predicate IndexesAgree(ix: Indexes, c: Docs, gaps: Gaps) {
    ix.Keys == gaps.Keys && forall f :: f in ix ==> Indexed(ix[f], c, f, gaps[f])
  }

  lemma IndexedIsFunctional(m: Entries, c: Docs, field: seq<byte>, missing: set<u64>)
    requires Indexed(m, c, field, missing)
    ensures Functional(m)
  {
    forall v, w, id | Holds(m, v, id) && Holds(m, w, id)
      ensures v == w
    {
      assert Carries(c, field, v, id) && Carries(c, field, w, id);
    }
  }

  /** An index answers both kinds of query as a scan does, but for exactly the ids
      it leaves out; a range comes in order of value and id. */
  lemma IndexAnswersAsScan(ix: Indexes, c: Docs, gaps: Gaps, field: seq<byte>, v: Value, lo: Bound, hi: Bound)
    requires IndexesAgree(ix, c, gaps) && field in ix
    ensures IdsAt(ix[field], v) == Matching(c, field, v) - gaps[field]
    ensures forall id :: id in RangeOf(ix[field], lo, hi) <==> id in Within(c, field, lo, hi) - gaps[field]
    ensures OrderedByValueThenId(ix[field], RangeOf(ix[field], lo, hi))
  {
    hide InBounds, Get;
    var m, missing := ix[field], gaps[field];
    forall id
      ensures id in IdsAt(m, v) <==> id in Matching(c, field, v) - missing
    {
      assert Holds(m, v, id) <==> Carries(c, field, v, id) && id !in missing;
    }
    forall id
      ensures id in RangeOf(m, lo, hi) <==> id in Within(c, field, lo, hi) - missing
    {
      RangeMembers(m, lo, hi, id);
      if k :| Holds(m, k, id) && InBounds(k, lo, hi) {
        assert Carries(c, field, k, id);
      }
      if InRange(c, field, lo, hi, id) {
        assert Carries(c, field, Get(c[id].value, field).value, id);
      }
    }
    IndexedIsFunctional(m, c, field, missing);
    RangeIsOrdered(m, lo, hi);
  }

  // ---- Index maintenance -----------------------------------------------------------------

  function AddEntry(m: Entries, field: seq<byte>, id: u64, doc: Document): Entries {
    match Get(doc, field)
    case None => m
    case Some(v) => AddTo(m, v, id)
  }

  function RemoveEntry(m: Entries, field: seq<byte>, id: u64, doc: Document): Entries {
    match Get(doc, field)
    case None => m
    case Some(v) => RemoveFrom(m, v, id)
  }

  function AddAll(ix: Indexes, id: u64, doc: Document): Indexes {
    map f | f in ix :: AddEntry(ix[f], f, id, doc)
  }

  function RemoveAll(ix: Indexes, id: u64, doc: Document): Indexes {
    map f | f in ix :: RemoveEntry(ix[f], f, id, doc)
  }

  /** Taking a live document's entries out leaves every other id alone. */
  lemma RemoveAllAgrees(ix: Indexes, c: Docs, gaps: Gaps, id: u64, doc: Document)
    requires IndexesAgree(ix, c, gaps) && id in c && c[id] == Success(doc)
    ensures IndexesAgree(RemoveAll(ix, id, doc), c, GapsWith(gaps, id))
    ensures IndexesAgree(RemoveAll(ix, id, doc), c - {id}, GapsWithout(gaps, id))
  {
    hide Indexed, RemoveEntry;
    var out := RemoveAll(ix, id, doc);
    forall f | f in out
      ensures Indexed(out[f], c, f, gaps[f] + {id})
      ensures Indexed(out[f], c - {id}, f, gaps[f] - {id})
    {
      RemoveEntryAgrees(ix[f], c, f, gaps[f], id, doc);
    }
  }

  lemma RemoveEntryAgrees(m: Entries, c: Docs, f: seq<byte>, missing: set<u64>, id: u64, doc: Document)
    requires Indexed(m, c, f, missing) && id in c && c[id] == Success(doc)
    ensures Indexed(RemoveEntry(m, f, id, doc), c, f, missing + {id})
    ensures Indexed(RemoveEntry(m, f, id, doc), c - {id}, f, missing - {id})
  {
    hide Get;
    var out := RemoveEntry(m, f, id, doc);
    forall v, j
      ensures Holds(out, v, j) <==> Holds(m, v, j) && j != id
    {
      if Holds(m, v, id) {
        assert Carries(c, f, v, id);
      }
    }
    forall v, j
      ensures Carries(c - {id}, f, v, j) <==> Carries(c, f, v, j) && j != id
    {}
  }

  /** Adding a document's entries under an id that had none. */
  lemma AddAllAgrees(ix: Indexes, c: Docs, gaps: Gaps, id: u64, doc: Document)
    requires IndexesAgree(ix, c, gaps) && id !in c
    ensures IndexesAgree(AddAll(ix, id, doc), c[id := Success(doc)], GapsWithout(gaps, id))
  {
    hide Indexed, AddEntry;
    var out := AddAll(ix, id, doc);
    forall f | f in out
      ensures Indexed(out[f], c[id := Success(doc)], f, gaps[f] - {id})
    {
      AddEntryAgrees(ix[f], c, f, gaps[f], id, doc);
    }
  }

  lemma AddEntryAgrees(m: Entries, c: Docs, f: seq<byte>, missing: set<u64>, id: u64, doc: Document)
    requires Indexed(m, c, f, missing) && id !in c
    ensures Indexed(AddEntry(m, f, id, doc), c[id := Success(doc)], f, missing - {id})
  {
    hide Get;
    var out, d := AddEntry(m, f, id, doc), c[id := Success(doc)];
    forall v, j
      ensures Holds(out, v, j) <==> Holds(m, v, j) || (j == id && Get(doc, f) == Some(v))
    {}
    forall v, j
      ensures Carries(d, f, v, j) <==> Carries(c, f, v, j) || (j == id && Get(doc, f) == Some(v))
    {}
  }

  /** Replacing a live document: old entries out, new entries in. */
  lemma ReplaceAgrees(ix: Indexes, c: Docs, gaps: Gaps, id: u64, before: Document, after: Document)
    requires IndexesAgree(ix, c, gaps) && id in c && c[id] == Success(before)
    ensures IndexesAgree(AddAll(RemoveAll(ix, id, before), id, after), c[id := Success(after)], GapsWithout(gaps, id))
  {
    hide IndexesAgree, AddAll, RemoveAll;
    RemoveAllAgrees(ix, c, gaps, id, before);
    AddAllAgrees(RemoveAll(ix, id, before), c - {id}, GapsWithout(gaps, id), id, after);
    assert (c - {id})[id := Success(after)] == c[id := Success(after)];
    GapsWithoutTwice(gaps, id);
  }

  predicate HasField(c: Docs, field: seq<byte>, id: u64) {
    id in c && c[id].Success? && Get(c[id].value, field).Some?
  }

  function FieldOf(c: Docs, field: seq<byte>, id: u64): Value
    requires HasField(c, field, id)
  {
    Get(c[id].value, field).value
  }

  ghost function FieldValues(c: Docs, field: seq<byte>): set<Value> {
    set id | id in c && HasField(c, field, id) :: FieldOf(c, field, id)
  }

  /** The index a rebuild over all documents produces. */
  ghost function BuildIndex(c: Docs, field: seq<byte>): Entries {
    map v | v in FieldValues(c, field) :: Matching(c, field, v)
  }

  lemma BuiltIndexAgrees(c: Docs, field: seq<byte>)
    ensures Indexed(BuildIndex(c, field), c, field, {})
  {
    hide Get;
    var m := BuildIndex(c, field);
    forall v | v in m
      ensures m[v] != {}
    {
      var id :| id in c && HasField(c, field, id) && FieldOf(c, field, id) == v;
      assert Carries(c, field, v, id);
      assert id in m[v];
    }
    forall v, id | Carries(c, field, v, id)
      ensures Holds(m, v, id)
    {
      assert HasField(c, field, id) && FieldOf(c, field, id) == v;
    }
  }
}
