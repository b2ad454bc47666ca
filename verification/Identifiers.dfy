/** The ids inserts are given, over whole runs: what a reopening gives next, exactly
    when ids keep rising, and the two ways they come back. */
module Identifiers {
  import opened Bytes
  import opened Documents
  import opened Errors
  import opened Log
  import opened LogState
  import opened Contents
  import opened Store
  import opened Compaction
  import opened CrashMachine
  import opened CrashProof
  import opened Guarantees
  import Maintenance

  // ---- What a reopening gives ---------------------------------------------------------------

  /** The history still shows that `id` or a later one was handed out: an operation
      on such an id since the file's records begin, or its origin. */
  ghost predicate Remembers(a: Client, id: u64) {
    id < a.origin.next || exists p :: a.origin.at <= p < |a.hist| && a.hist[p].id >= id
  }

  /** The next id is past exactly the ids the history remembers. */
  lemma {:induction false} NextRemembers(hist: seq<Op>, a: Client, id: u64)
    requires hist <= a.hist && a.origin.at <= |hist|
    ensures id < NextAfter(hist, a.origin) <==>
            id < a.origin.next || exists p :: a.origin.at <= p < |hist| && a.hist[p].id >= id
    decreases |hist|
  {
    if |hist| > a.origin.at {
      var init, last := hist[..|hist| - 1], hist[|hist| - 1].id;
      NextRemembers(init, a, id);
      assert a.hist[|hist| - 1].id == last;
    }
  }

  lemma NextIff(a: Client, id: u64)
    requires a.origin.at <= |a.hist|
    ensures id < NextGiven(a) <==> Remembers(a, id)
  {
    NextRemembers(a.hist, a, id);
    hide NextAfter;
  }

  lemma RelatedOrigin(c: System, a: Client)
    requires Related(c, a)
    ensures a.origin.at <= |a.hist|
  {
    hide Running, Recoverable, Copied, Replaced, Images, FormersReach, NextAfter;
    RelatedRecovers(c, a);
    RecoveredTells(Images(c)[0].file, Images(c)[0].synced, a.hist, a.durable, a.origin);
  }

  lemma RecoveredTells(file: seq<byte>, synced: nat, hist: seq<Op>, durable: nat, origin: Origin)
    requires Recoverable(file, synced, hist, durable, origin)
    ensures origin.at <= |hist| && NextIdOf(ScanFrom(file, HEADER_LEN).log) == NextAfter(hist, origin)
  {
    hide VerifyHeader, ScanFrom, TornLog, Tracks, NextAfter, NextIdOf, DocsOf, AllRead, MapOf;
    TracksNow(ScanFrom(file, HEADER_LEN).log, Min(synced, ScanFrom(file, HEADER_LEN).end), hist, durable, origin);
  }

  /** Reopening gives the next id the history implies, no more and no less. */
  lemma ReopenedNext(c: System, a: Client, policy: SyncPolicy, c': System)
    requires Related(c, a) && Step(c, Reopen(policy), c')
    ensures c'.Up? && c'.s.nextId == NextGiven(a)
  {
    hide VerifyHeader, ScanFrom, TornLog, Tracks, NextAfter, NextIdOf, DocsOf, AllRead, MapOf, Open, Recoverable, LogOf,
         Valid, FormersReach, FreshIds;
    RecoveredTells(c.file, c.synced, a.hist, a.durable, a.origin);
    SimulateReopen(c.file, c.synced, a, policy);
    OpenIsValid(c.file, c.synced, policy);
  }

  // ---- When ids keep rising -------------------------------------------------------------------

  /** The step is an insert that returns `id`. */
  ghost predicate Returns(c: System, e: Event, id: u64) {
    c.Up? && e.Do? && e.w.Insertion? && Insert(c.s, e.w.doc).1 == Success(id)
  }

  /** Were the store to insert now, the id would be larger than `id`. */
  ghost predicate Past(c: System, id: u64) {
    !c.Down? ==> id < c.s.nextId
  }

  lemma MemoryRises(c: System, e: Event, c': System, a: Client, id: u64)
    requires Related(c, a) && Step(c, e, c') && !c'.Down? && !e.Reopen?
    ensures !c.Down? && c.s.nextId <= c'.s.nextId
    ensures Returns(c, e, id) ==> id < c'.s.nextId
  {
    hide Running, Recoverable, FormersReach, Copied, Replaced, Perform, Callable, Insert, IsOrder, Healthy, BuildIndex,
         Open, Images, LogOf;
    if e.Do? {
      WriteRises(c.s, e.w);
    }
  }

  lemma WriteRises(s: Store, w: Write)
    requires Callable(s, w)
    ensures s.nextId <= Perform(s, w).nextId
    ensures w.Insertion? && Insert(s, w.doc).1.Success? ==> Insert(s, w.doc).1.value < Perform(s, w).nextId
  {
    hide Accepts, Unlist, Frame, ApplyToIndex, AddAll, WfDoc;
  }

  /** In a run, every id an insert returned is below every id handed out later, and
      would be at any time, if and only if at every reopening the history still
      remembered every id returned before it. */
  lemma IdsRiseIff(run: seq<System>, events: seq<Event>, views: seq<Client>, j: nat)
    requires IsRun(run, events) && IsClientRun(views, events) && AllRelated(run, views) && j < |run|
    ensures (forall i, m, id :: 0 <= i < m <= j && Returns(run[i], events[i], id) ==> Past(run[m], id)) <==>
            (forall i, r, id :: 0 <= i < r < j && Returns(run[i], events[i], id) && events[r].Reopen? ==>
               Remembers(views[r], id))
  {
    hide Related, Step, ClientStep, Returns, Remembers, Past;
    if forall i, r, id :: 0 <= i < r < j && Returns(run[i], events[i], id) && events[r].Reopen? ==> Remembers(views[r], id) {
      forall i, m, id | 0 <= i < m <= j && Returns(run[i], events[i], id)
        ensures Past(run[m], id)
      {
        StaysPast(run, events, views, i, m, id);
      }
    }
    if forall i, m, id :: 0 <= i < m <= j && Returns(run[i], events[i], id) ==> Past(run[m], id) {
      forall i, r, id | 0 <= i < r < j && Returns(run[i], events[i], id) && events[r].Reopen?
        ensures Remembers(views[r], id)
      {
        assert Past(run[r + 1], id);
        assert Related(run[r], views[r]) && Step(run[r], events[r], run[r + 1]);
        ReopensPastIff(run[r], views[r], events[r], run[r + 1], id);
      }
    }
  }

  lemma ReopensPastIff(c: System, a: Client, e: Event, c': System, id: u64)
    requires Related(c, a) && Step(c, e, c') && e.Reopen?
    ensures Past(c', id) <==> Remembers(a, id)
  {
    hide Related, Step, Remembers, NextAfter;
    ReopenedNext(c, a, e.policy, c');
    RelatedOrigin(c, a);
    NextIff(a, id);
  }

  lemma {:induction false} StaysPast(run: seq<System>, events: seq<Event>, views: seq<Client>, i: nat, m: nat, id: u64)
    requires IsRun(run, events) && AllRelated(run, views) && i < m < |run| && Returns(run[i], events[i], id)
    requires forall r :: i < r < m && events[r].Reopen? ==> Remembers(views[r], id)
    ensures Past(run[m], id)
    decreases m
  {
    hide Related, Step, Returns, Remembers;
    var c, e, c' := run[m - 1], events[m - 1], run[m];
    assert Related(c, views[m - 1]) && Step(c, e, c');
    if e.Reopen? && m - 1 > i {
      ReopensPastIff(c, views[m - 1], e, c', id);
    } else if !c'.Down? {
      if m - 1 > i {
        StaysPast(run, events, views, i, m - 1, id);
      } else {
        ReturnsIsInsert(c, e, id);
      }
      MemoryRises(c, e, c', views[m - 1], id);
    }
  }

  lemma ReturnsIsInsert(c: System, e: Event, id: u64)
    requires Returns(c, e, id)
    ensures !e.Reopen?
  {}

  // ---- What makes them fall ---------------------------------------------------------------------

  /** The largest id the history remembers is that of a live document, or there is
      none. */
  ghost predicate NewestLives(a: Client) {
    NextGiven(a) == 1 || exists id :: id in MapOf(a.hist) && id as int == NextGiven(a) - 1
  }

  /** A compaction makes a later reopening give a smaller id if and only if the
      newest document is gone. */
  lemma RenameForgetsIff(c: System, a: Client, c': System, a': Client)
    requires Related(c, a) && Step(c, CompactRename, c') && ClientStep(a, CompactRename, a')
    ensures NextGiven(a') <= NextGiven(a)
    ensures NextGiven(a') == NextGiven(a) <==> NewestLives(a)
  {
    hide Related, Step, NextAfter, NextOver, MapOf;
    LiveIdsAreRemembered(c, a, c');
    NextOverLaws(MapOf(a.hist).Keys);
    RewrittenNext(a, a');
  }

  lemma RewrittenNext(a: Client, a': Client)
    requires ClientStep(a, CompactRename, a')
    ensures NextGiven(a') == NextOver(MapOf(a.hist).Keys)
  {
    hide NextOver, MapOf;
  }

  lemma LiveIdsAreRemembered(c: System, a: Client, c': System)
    requires Related(c, a) && Step(c, CompactRename, c')
    ensures NextGiven(a) >= 1 && forall id :: id in MapOf(a.hist) ==> id < NextGiven(a)
  {
    hide Copied, FormersReach, NextAfter, MapOf, AllRead, Tracks, LogOf, Valid, NextIdOf, Maintenance.InStep, Held,
         BodiesOf, DocsOf, Healthy;
    var s := c.s;
    ClientHolds(s, a);
    TracksNow(LogOf(s), s.synced, a.hist, a.durable, a.origin);
    FreshHasNoMax(s);
    NextIdExceedsAll(LogOf(s));
    NextIdIsTight(LogOf(s));
    forall id | id in MapOf(a.hist)
      ensures id < NextGiven(a)
    {
      HeldIsWritten(s, id);
    }
  }

  lemma HeldIsWritten(s: Store, id: u64)
    requires id in Held(s)
    ensures exists i :: 0 <= i < |LogOf(s)| && LogOf(s)[i].id == id
  {
    BodiesComeFromRecords(LogOf(s), id);
  }

  /** Nothing that could make ids fall: a power failure that loses an operation or
      undoes a rename, or a compaction with the newest document gone. */
  ghost predicate Harmless(a: Client, e: Event, a': Client) {
    && (PowerFails(e) ==> !Reverts(e) && a.hist <= a'.hist)
    && (e.CompactRename? ==> NewestLives(a))
  }

  lemma HarmlessKeepsNext(c: System, e: Event, c': System, a: Client, a': Client)
    requires Related(c, a) && Step(c, e, c') && ClientStep(a, e, a') && Harmless(a, e, a')
    ensures NextGiven(a) <= NextGiven(a')
  {
    hide Related, Step, NewestLives, NextOver, MapOf, NextAfter, Writes, GapsAfter, Maintenance.GapsIndexed, PowerFails;
    if e.CompactRename? {
      RenameForgetsIff(c, a, c', a');
    } else {
      RelatedOrigin(c, a);
      SameOrigin(a, e, a');
      LongerRemembersMore(a.hist, a'.hist, a.origin);
    }
  }

  lemma SameOrigin(a: Client, e: Event, a': Client)
    requires ClientStep(a, e, a') && Harmless(a, e, a') && !e.CompactRename?
    ensures a.hist <= a'.hist && a'.origin == a.origin
  {
    hide NewestLives, NextOver, MapOf, NextAfter, Writes, GapsAfter, Maintenance.GapsIndexed;
    match e {
      case Do(w) => WritesExtend(a, w, a'.hist);
      case _ =>
    }
  }

  lemma {:induction false} LongerRemembersMore(hist: seq<Op>, longer: seq<Op>, origin: Origin)
    requires hist <= longer && origin.at <= |hist|
    ensures NextAfter(hist, origin) <= NextAfter(longer, origin)
    decreases |longer|
  {
    if |longer| > |hist| {
      LongerRemembersMore(hist, longer[..|longer| - 1], origin);
    } else {
      assert longer == hist;
    }
  }

  /** An insert's id is remembered right after it. */
  lemma InsertIsRemembered(c: System, e: Event, c': System, a: Client, a': Client, id: u64)
    requires Related(c, a) && Step(c, e, c') && ClientStep(a, e, a') && Related(c', a') && Returns(c, e, id)
    ensures id < NextGiven(a')
  {
    hide FormersReach, NextAfter, MapOf, AllRead, Tracks, LogOf, Valid, NextIdOf, Maintenance.InStep, Held, BodiesOf,
         DocsOf, Healthy, Writes, GapsAfter, Accepts, WfDoc, FreshIds;
    var s, s' := c.s, c'.s;
    InsertSpec(s, e.w.doc);
    TracksNow(LogOf(s'), s'.synced, a'.hist, a'.durable, a'.origin);
    FreshHasNoMax(s');
    NextIdExceedsAll(LogOf(s'));
    LastIsBelow(LogOf(s), PutRecord(id, e.w.doc), NextIdOf(LogOf(s')));
  }

  lemma LastIsBelow(log: seq<Record>, r: Record, next: nat)
    requires IdsBelow(log + [r], next)
    ensures r.id < next
  {
    assert (log + [r])[|log|] == r;
  }

  /** In a run without any of that, every insert is given a larger id than all
      before it. */
  lemma IdsRise(run: seq<System>, events: seq<Event>, views: seq<Client>, j: nat)
    requires IsRun(run, events) && IsClientRun(views, events) && AllRelated(run, views) && j < |run|
    requires forall m :: 0 <= m < j ==> Harmless(views[m], events[m], views[m + 1])
    ensures forall i, m, id :: 0 <= i < m <= j && Returns(run[i], events[i], id) ==> Past(run[m], id)
  {
    hide Related, Step, ClientStep, Returns, Remembers, Past, Harmless;
    forall i, r, id | 0 <= i < r < j && Returns(run[i], events[i], id) && events[r].Reopen?
      ensures Remembers(views[r], id)
    {
      StaysRemembered(run, events, views, i, r, id);
      RelatedOrigin(run[r], views[r]);
      NextIff(views[r], id);
    }
    IdsRiseIff(run, events, views, j);
  }

  lemma {:induction false} StaysRemembered(run: seq<System>, events: seq<Event>, views: seq<Client>, i: nat, r: nat, id: u64)
    requires IsRun(run, events) && IsClientRun(views, events) && AllRelated(run, views)
    requires i < r < |run| && Returns(run[i], events[i], id)
    requires forall m :: i <= m < r ==> Harmless(views[m], events[m], views[m + 1])
    ensures id < NextGiven(views[r])
    decreases r
  {
    hide Related, Step, ClientStep, Returns, Harmless, NextAfter;
    assert Related(run[r - 1], views[r - 1]) && Related(run[r], views[r]);
    assert Step(run[r - 1], events[r - 1], run[r]) && ClientStep(views[r - 1], events[r - 1], views[r]);
    if r - 1 == i {
      InsertIsRemembered(run[i], events[i], run[r], views[i], views[r], id);
    } else {
      StaysRemembered(run, events, views, i, r - 1, id);
      HarmlessKeepsNext(run[r - 1], events[r - 1], run[r], views[r - 1], views[r]);
    }
  }

  // ---- Why they fall ------------------------------------------------------------------------------

  /** The origin knows the documents live when the file was last written afresh, and
      nothing else. */
  ghost predicate OriginLive(hist: seq<Op>, origin: Origin) {
    origin.at <= |hist| && origin.next == NextOver(MapOf(hist[..origin.at]).Keys)
  }

  ghost predicate OriginsLive(a: Client) {
    OriginLive(a.hist, a.origin) && forall r :: r in a.formers ==> OriginLive(a.hist, r.origin)
  }

  lemma SamePrefix(hist: seq<Op>, other: seq<Op>, origin: Origin)
    requires OriginLive(hist, origin) && origin.at <= |other| && (hist <= other || other <= hist)
    ensures OriginLive(other, origin)
  {
    hide NextOver, MapOf;
    assert hist[..origin.at] == other[..origin.at];
  }

  lemma OriginsStep(a: Client, e: Event, a': Client)
    requires OriginsLive(a) && ClientStep(a, e, a') && a'.origin.at <= |a'.hist| && Certain(a)
    ensures OriginsLive(a')
  {
    hide MapOf, NextOver, NextAfter, Writes, GapsAfter, Maintenance.GapsIndexed, OriginLive;
    OriginsFrom(a, e, a');
    if e.CompactRename? {
      assert a.hist[..|a.hist|] == a.hist;
      FreshOrigin(a.hist);
    } else {
      SamePrefix(a.hist, a'.hist, a'.origin);
      forall r | r in a'.formers
        ensures OriginLive(a'.hist, r.origin)
      {
        OriginAt(a.hist, r.origin);
        SamePrefix(a.hist, a'.hist, r.origin);
      }
    }
  }

  lemma FreshOrigin(hist: seq<Op>)
    ensures OriginLive(hist, Origin(|hist|, NextOver(MapOf(hist).Keys)))
  {
    hide NextOver, MapOf;
    assert hist[..|hist|] == hist;
  }

  lemma OriginAt(hist: seq<Op>, origin: Origin)
    requires OriginLive(hist, origin)
    ensures origin.at <= |hist|
  {}

  /** A step keeps origins, drops some, or is a rename; histories stay comparable. */
  lemma OriginsFrom(a: Client, e: Event, a': Client)
    requires OriginsLive(a) && ClientStep(a, e, a') && Certain(a)
    ensures a.hist <= a'.hist || a'.hist <= a.hist
    ensures a'.formers != [] ==> a.hist <= a'.hist
    ensures e.CompactRename? ==> a'.hist == a.hist && a'.origin == Origin(|a.hist|, NextOver(MapOf(a.hist).Keys))
    ensures !e.CompactRename? ==> OriginLive(a.hist, a'.origin)
    ensures forall r :: r in a'.formers ==> OriginLive(a.hist, r.origin)
  {
    hide MapOf, NextOver, NextAfter, GapsAfter, Maintenance.GapsIndexed, Accepts, OriginLive;
    match e {
      case Do(w) => WritesExtend(a, w, a'.hist);
      case PowerLoss(_, name, _) =>
        assert name > 0 ==> a.formers[name - 1] in a.formers;
      case Interrupt(w, _, name) =>
        var hist :| Writes(a, w, hist) && Falls(a.(hist := hist), name, a');
        WritesExtend(a, w, hist);
        assert name > 0 ==> a.formers[name - 1] in a.formers;
      case _ =>
    }
  }

  lemma {:induction false} OriginsOn(run: seq<System>, events: seq<Event>, views: seq<Client>, j: nat)
    requires IsRun(run, events) && IsClientRun(views, events) && AllRelated(run, views) && j < |run|
    requires OriginsLive(views[0])
    ensures OriginsLive(views[j])
    decreases j
  {
    hide Related, Step, ClientStep, OriginsLive, Certain;
    if j > 0 {
      OriginsOn(run, events, views, j - 1);
      assert Related(run[j - 1], views[j - 1]) && Related(run[j], views[j]);
      assert ClientStep(views[j - 1], events[j - 1], views[j]);
      RelatedIsCertain(run[j - 1], views[j - 1]);
      RelatedOrigin(run[j], views[j]);
      OriginsStep(views[j - 1], events[j - 1], views[j]);
    }
  }

  /** In a run from a new store a reopening forgets an id it had returned only if a
      crash dropped the insert, or if a compaction came after it at a time when the
      document and all later ones were gone. */
  lemma ForgottenOnlyIf(run: seq<System>, events: seq<Event>, views: seq<Client>, policy: SyncPolicy,
                        i: nat, r: nat, id: u64)
    requires IsRun(run, events) && IsClientRun(views, events) && AllRelated(run, views)
    requires views[0] == NewClient(policy) && i < r < |run| && Returns(run[i], events[i], id)
    ensures views[r].origin.at <= |views[r].hist|
    ensures !Remembers(views[r], id) ==>
              || !(views[i + 1].hist <= views[r].hist)
              || (views[r].origin.at > |views[i].hist|
                  && forall live :: live in MapOf(views[r].hist[..views[r].origin.at]) ==> live < id)
  {
    hide Related, Step, ClientStep, Returns, MapOf, NextOver, Certain;
    NewIsLive(policy);
    OriginsOn(run, events, views, r);
    assert Related(run[i], views[i]) && Related(run[i + 1], views[i + 1]);
    assert Step(run[i], events[i], run[i + 1]) && ClientStep(views[i], events[i], views[i + 1]);
    InsertedOp(run[i], events[i], run[i + 1], views[i], views[i + 1], id);
    var a, p := views[r], |views[i].hist|;
    if !Remembers(a, id) && views[i + 1].hist <= a.hist {
      assert a.hist[p].id == id;
      NextOverLaws(MapOf(a.hist[..a.origin.at]).Keys);
    }
  }

  lemma NewIsLive(policy: SyncPolicy)
    ensures OriginsLive(NewClient(policy))
  {
    assert MapOf([]).Keys == {};
  }

  lemma InsertedOp(c: System, e: Event, c': System, a: Client, a': Client, id: u64)
    requires Related(c, a) && Step(c, e, c') && ClientStep(a, e, a') && Related(c', a') && Returns(c, e, id)
    ensures |a'.hist| == |a.hist| + 1 && a'.hist[|a.hist|].id == id
  {
    hide FormersReach, NextAfter, MapOf, AllRead, Tracks, LogOf, Valid, NextIdOf, Maintenance.InStep, Held, BodiesOf,
         DocsOf, Healthy, GapsAfter, Accepts, WfDoc, FreshIds, Writes;
    InsertSpec(c.s, e.w.doc);
    ClientHolds(c.s, a);
    ClientHolds(c'.s, a');
    InsertedId(c.s, a, e.w.doc, a'.hist);
  }

  // ---- The two ways ids come back ---------------------------------------------------------------

  /** Under `Manual`: an insert returns 1, power fails before it was forced, and the
      next insert after reopening returns 1 again. */
  lemma LostInsertGivesIdAgain()
    ensures exists run: seq<System>, events: seq<Event> ::
              && IsRun(run, events) && |events| == 3 && run[0] == NewSystem(Manual)
              && Returns(run[0], events[0], 1)
              && run[3].Up? && Insert(run[3].s, []).1 == Success(1)
  {
    var s0, s1 := FirstInsert();
    hide Step, Insert, FreshHeader;
    var h := FreshHeader();
    var run := [Up(s0, []), Up(s1, []), System.Down(h, HEADER_LEN, None, []), Up(s0, [])];
    var events := [Do(Insertion([])), PowerLoss(HEADER_LEN, 0, None), Reopen(Manual)];
    LosesInsert(s0, s1);
    assert IsRun(run, events);
  }

  lemma FirstInsert() returns (s0: Store, s1: Store)
    ensures Open([], 0, Manual) == Success(s0) && Open(FreshHeader(), HEADER_LEN, Manual) == Success(s0)
    ensures s0.file == FreshHeader() && s0.synced == HEADER_LEN && s0.policy == Manual && s0.nextId == 1
    ensures WfDoc([]) && Insert(s0, []) == (s1, Success(1))
    ensures s1.synced == HEADER_LEN && s0.file <= s1.file
  {
    EmptyStore();
    s0 := Open([], 0, Manual).value;
    ReopenIsStable([], 0, Manual);
    EmptyDocAccepted();
    s1 := Insert(s0, []).0;
  }

  lemma LosesInsert(s: Store, t: Store)
    requires s.nextId == 1 && WfDoc([]) && Insert(s, []).0 == t
    requires s.file == FreshHeader() && t.synced == HEADER_LEN && s.file <= t.file
    requires Open(FreshHeader(), HEADER_LEN, Manual) == Success(s)
    ensures Step(Up(s, []), Do(Insertion([])), Up(t, []))
    ensures Step(Up(t, []), PowerLoss(HEADER_LEN, 0, None), System.Down(FreshHeader(), HEADER_LEN, None, []))
    ensures Step(System.Down(FreshHeader(), HEADER_LEN, None, []), Reopen(Manual), Up(s, []))
  {
    hide FreshHeader, Insert, Open, WfDoc;
    assert t.file[..HEADER_LEN] == FreshHeader();
  }

  /** After a compaction and a reopening, an insert is given an id that had been
      handed out before if and only if the newest document is gone. */
  lemma IdComesBackIff(s: Store, order: seq<u64>, doc: Document, policy: SyncPolicy)
    requires Valid(s) && FreshIds(s) && s.nextId >= 1 && IsOrder(order, BodiesOf(LogOf(s)).Keys) && Accepts(doc)
    ensures var file := Compacted(s, order).file;
            && Open(file, |file|, policy).Success?
            && Insert(Open(file, |file|, policy).value, doc).1.Success?
            && (Insert(Open(file, |file|, policy).value, doc).1.value < s.nextId <==>
                s.nextId != 1 && s.nextId - 1 !in Held(s))
  {
    hide Valid, LogOf, Open, Held, FreshIds, BodiesOf, NextIdOf, Compacted, IsOrder, Accepts;
    CompactionKeepsNextIdIff(s, order);
    ReopenCompacted(s, order, policy);
  }

  /** A store that inserted one document and deleted it: after a compaction and a
      reopening the next insert is given the deleted document's id. */
  lemma DeletedIdComesBack(doc: Document)
    requires WfDoc(doc) && Accepts(doc)
    ensures exists s: Store, order ::
              && Valid(s) && FreshIds(s) && LogOf(s) == [PutRecord(1, doc), DeleteRecord(1)] && s.nextId == 2
              && IsOrder(order, BodiesOf(LogOf(s)).Keys)
              && Open(Compacted(s, order).file, |Compacted(s, order).file|, Manual).Success?
              && Insert(Open(Compacted(s, order).file, |Compacted(s, order).file|, Manual).value, doc).1 == Success(1)
  {
    hide Valid, LogOf, Open, Delete, WfDoc, Accepts, Held, FreshIds, BodiesOf, NextIdOf, Compacted, IsOrder, PutRecord,
         DeleteRecord, AppendRecord;
    var s := InsertThenDelete(doc);
    HeldKeys(s);
    NoIds(BodiesOf(LogOf(s)).Keys);
    CompactionKeepsNextIdIff(s, []);
    ReopenCompacted(s, [], Manual);
    CompactionPreserves(s, []);
    NextIdPositive(LogOf(Compacted(s, [])));
  }

  lemma NoIds(ids: set<u64>)
    requires ids == {}
    ensures IsOrder([], ids)
  {}

  lemma InsertThenDelete(doc: Document) returns (s: Store)
    requires WfDoc(doc) && Accepts(doc)
    ensures Valid(s) && FreshIds(s) && s.nextId == 2 && Held(s) == map[]
    ensures LogOf(s) == [PutRecord(1, doc), DeleteRecord(1)]
  {
    hide Valid, LogOf, Open, Insert, Delete, WfDoc, Accepts, FreshIds, Held, Healthy, PutRecord, DeleteRecord;
    EmptyStore();
    var s0 := Open([], 0, Manual).value;
    InsertSpec(s0, doc);
    var s1 := Insert(s0, doc).0;
    DeleteSpec(s1, 1);
    InsertMemory(s0, doc);
    assert Healthy(Held(s1)) by { OneHealthy(Held(s1), 1, doc); }
    s := Delete(s1, 1).0;
    PutCarriesId(1, doc);
    StillFresh(s1, s, DeleteRecord(1));
  }

  lemma OneHealthy(c: Docs, id: u64, doc: Document)
    requires c == map[id := Success(doc)]
    ensures Healthy(c)
  {}

  lemma InsertMemory(s: Store, doc: Document)
    requires Accepts(doc)
    ensures Insert(s, doc).0.nextId == Successor(s.nextId)
  {}

  lemma ReopenCompacted(s: Store, order: seq<u64>, policy: SyncPolicy)
    requires Valid(s) && IsOrder(order, BodiesOf(LogOf(s)).Keys)
    ensures var file := Compacted(s, order).file;
            && Open(file, |file|, policy).Success?
            && Open(file, |file|, policy).value.nextId == NextIdOf(LogOf(Compacted(s, order)))
  {
    hide LogOf, BodiesOf, IsOrder, Valid, NextIdOf, Maintenance.InStep, Open, Compacted, Held;
    CompactionPreserves(s, order);
    ValidReopens(Compacted(s, order), |Compacted(s, order).file|, policy);
  }
}
