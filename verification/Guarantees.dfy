/** What the crash machine promises its clients, over whole runs from a freshly
    created store or from any file that opens soundly. */
module Guarantees {
  import opened Bytes
  import opened Documents
  import opened Errors
  import opened SecondaryIndexes
  import opened Log
  import opened LogState
  import opened Contents
  import opened Store
  import opened Compaction
  import opened CrashMachine
  import opened CrashProof
  import Maintenance

  // ---- Durability ---------------------------------------------------------------------------

  /** A power failure that leads the store's name back to a file a compaction had
      already replaced. */
  predicate Reverts(e: Event) {
    (e.PowerLoss? || e.Interrupt?) && e.name > 0
  }

  predicate PowerFails(e: Event) {
    e.PowerLoss? || e.Interrupt?
  }

  /** Each count is within the history it counts. */
  ghost predicate Certain(a: Client) {
    a.durable <= |a.hist| && forall r :: r in a.formers ==> r.certain <= r.issued <= |a.hist|
  }

  /** The first `n` operations survive whatever file a crash leads the name to. */
  ghost predicate Sure(a: Client, n: nat) {
    n <= a.durable && forall r :: r in a.formers ==> n <= r.certain
  }

  /** Every file a crash may fall back to was replaced before operation `hi`, and so
      reaches no further than `lo`, or after it, and so holds the first `hi`. */
  ghost predicate Straddles(a: Client, lo: nat, hi: nat) {
    hi <= a.durable && forall r :: r in a.formers ==> r.issued <= lo || hi <= r.certain
  }

  lemma WritesExtend(a: Client, w: Write, hist: seq<Op>)
    requires Writes(a, w, hist)
    ensures a.hist <= hist && |hist| <= |a.hist| + 1
  {
    hide MapOf, Accepts;
  }

  lemma RelatedIsCertain(c: System, a: Client)
    requires Related(c, a)
    ensures Certain(a)
  {
    hide Running, Recoverable, Copied, Replaced, Images;
    RelatedRecovers(c, a);
    RecoverableIsCertain(Images(c)[0].file, Images(c)[0].synced, a.hist, a.durable, a.origin);
    forall r | r in a.formers
      ensures r.certain <= r.issued <= |a.hist|
    {
      var k :| 0 <= k < |a.formers| && a.formers[k] == r;
      assert Reaches(c.formers[k], a.hist, a.formers[k]);
      RecoverableIsCertain(c.formers[k].file, c.formers[k].synced, a.hist[..r.issued], r.certain, r.origin);
    }
  }

  lemma RecoverableIsCertain(file: seq<byte>, synced: nat, hist: seq<Op>, durable: nat, origin: Origin)
    requires Recoverable(file, synced, hist, durable, origin)
    ensures durable <= |hist|
  {
    hide VerifyHeader, ScanFrom, TornLog, Tracks;
    TracksNow(ScanFrom(file, HEADER_LEN).log, Min(synced, ScanFrom(file, HEADER_LEN).end), hist, durable, origin);
  }

  /** What one step may do to the history and to the counts. */
  lemma DurableStep(a: Client, e: Event, a': Client)
    requires Certain(a) && ClientStep(a, e, a')
    ensures Certain(a')
    ensures !PowerFails(e) ==> a.hist <= a'.hist
    ensures !Reverts(e) ==> a.durable <= a'.durable && a'.hist[..a.durable] == a.hist[..a.durable]
  {
    hide MapOf, Accepts, GapsAfter, NextAfter, NextOver, Maintenance.GapsIndexed;
    match e {
      case Do(w) =>
        WritesExtend(a, w, a'.hist);
      case Interrupt(w, _, name) =>
        var hist :| Writes(a, w, hist) && Falls(a.(hist := hist), name, a');
        WritesExtend(a, w, hist);
      case _ =>
    }
  }

  /** What survives every crash before a step survives every crash after it. */
  lemma SureStep(a: Client, e: Event, a': Client, n: nat)
    requires Certain(a) && Sure(a, n) && ClientStep(a, e, a')
    ensures Sure(a', n) && a'.hist[..n] == a.hist[..n]
  {
    hide MapOf, Accepts, GapsAfter, NextAfter, NextOver, Maintenance.GapsIndexed;
    DurableStep(a, e, a');
    if Reverts(e) {
      FallsBack(a, e, a');
      assert a.formers[e.name - 1] in a.formers;
    } else {
      assert a'.hist[..n] == a'.hist[..a.durable][..n] == a.hist[..a.durable][..n];
    }
  }

  /** A power failure that undoes a rename leaves what the former file holds. */
  lemma FallsBack(a: Client, e: Event, a': Client)
    requires Certain(a) && Reverts(e) && ClientStep(a, e, a')
    ensures e.name <= |a.formers| && a'.formers == []
    ensures var r := a.formers[e.name - 1];
            && r.certain <= |a'.hist| <= r.issued <= |a.hist|
            && a'.hist == a.hist[..|a'.hist|] && a'.durable == |a'.hist|
  {
    hide MapOf, Accepts;
    if e.Interrupt? {
      var hist :| Writes(a, e.w, hist) && Falls(a.(hist := hist), e.name, a');
      WritesExtend(a, e.w, hist);
      assert a.formers[e.name - 1] in a.formers;
      assert hist[..|a'.hist|] == a.hist[..|a'.hist|];
    }
  }

  /** Through any number of later operations, crashes and reopenings that lead the
      name to no file already replaced, what was certain to survive does survive, in
      order, at the front of the history. */
  lemma {:induction false} DurableForever(views: seq<Client>, events: seq<Event>, i: nat, j: nat)
    requires IsClientRun(views, events) && i <= j < |views| && Certain(views[i])
    requires forall k :: i <= k < j ==> !Reverts(events[k])
    ensures Certain(views[j]) && views[i].durable <= views[j].durable
    ensures views[j].hist[..views[i].durable] == views[i].hist[..views[i].durable]
    decreases j
  {
    hide ClientStep, Certain;
    if i < j {
      DurableForever(views, events, i, j - 1);
      DurableStep(views[j - 1], events[j - 1], views[j]);
      CertainBounds(views[j - 1]);
      CertainBounds(views[j]);
      var d := views[i].durable;
      assert views[j].hist[..d] == views[j].hist[..views[j - 1].durable][..d];
      assert views[j - 1].hist[..d] == views[j - 1].hist[..views[j - 1].durable][..d];
    }
  }

  lemma CertainBounds(a: Client)
    requires Certain(a)
    ensures a.durable <= |a.hist|
  {}

  /** And what was certain in every file the name may fall back to survives crashes
      of every kind. */
  lemma {:induction false} SureForever(views: seq<Client>, events: seq<Event>, i: nat, j: nat, n: nat)
    requires IsClientRun(views, events) && i <= j < |views| && Certain(views[i]) && Sure(views[i], n)
    ensures Certain(views[j]) && Sure(views[j], n) && n <= |views[i].hist| && n <= |views[j].hist|
    ensures views[j].hist[..n] == views[i].hist[..n]
    decreases j
  {
    hide ClientStep;
    if i < j {
      SureForever(views, events, i, j - 1, n);
      DurableStep(views[j - 1], events[j - 1], views[j]);
      SureStep(views[j - 1], events[j - 1], views[j], n);
    }
  }

  // ---- What returned survives ---------------------------------------------------------------

  /** The calls whose return makes everything before them certain: a write under
      `Always` that took effect, a flush, and a compaction. */
  ghost predicate Settles(c: System, a: Client, e: Event, a': Client) {
    || (e.Do? && c.Up? && c.s.policy == Always && a'.hist != a.hist)
    || e.FlushAll?
    || e.CompactFinish?
  }

  lemma SettledIsDurable(a: Client, e: Event, a': Client)
    requires ClientStep(a, e, a') && Certain(a)
    requires || (e.Do? && a.policy == Always && a'.hist != a.hist)
             || e.FlushAll?
             || (e.CompactFinish? && a.durable == |a.hist|)
    ensures a'.durable == |a'.hist| && Certain(a')
    ensures a'.formers == (if e.CompactFinish? then [] else a.formers)
  {
    hide Writes, GapsAfter, Accepts;
    DurableStep(a, e, a');
  }

  /** In a run, once a write under `Always`, a flush or a compaction has returned,
      every operation so far is in the store and in its history at every later
      point, through every crash that leads the name to no file already replaced. */
  lemma ReturnedSurvives(run: seq<System>, events: seq<Event>, first: Client, i: nat, j: nat)
    returns (views: seq<Client>)
    requires IsRun(run, events) && Related(run[0], first)
    requires i < j < |run| && run[j].Up?
    requires forall k :: i < k < j ==> !Reverts(events[k])
    ensures IsClientRun(views, events) && views[0] == first
    ensures Settles(run[i], views[i], events[i], views[i + 1]) ==>
              views[i + 1].hist <= views[j].hist && Held(run[j].s) == AllRead(MapOf(views[j].hist))
  {
    hide Related, ClientStep, Step, Held, AllRead, MapOf, Settles, Certain, Running;
    views := Refines(run, events, first);
    if Settles(run[i], views[i], events[i], views[i + 1]) {
      SettledInRun(run, events, views, i);
      DurableForever(views, events, i + 1, j);
      assert views[i + 1].hist[..|views[i + 1].hist|] == views[i + 1].hist;
      CertainBounds(views[j]);
      UpHolds(run[j], views[j]);
    }
  }

  lemma UpHolds(c: System, a: Client)
    requires c.Up? && Related(c, a)
    ensures Running(c.s, a) && Held(c.s) == AllRead(MapOf(a.hist))
  {
    hide Held, AllRead, MapOf, Valid, Tracks, FormersReach;
    ClientHolds(c.s, a);
  }

  lemma SettledInRun(run: seq<System>, events: seq<Event>, views: seq<Client>, i: nat)
    requires IsRun(run, events) && IsClientRun(views, events) && AllRelated(run, views)
    requires i < |events| && Settles(run[i], views[i], events[i], views[i + 1])
    ensures Certain(views[i]) && Certain(views[i + 1])
    ensures views[i + 1].durable == |views[i + 1].hist|
    ensures views[i + 1].formers == (if events[i].CompactFinish? then [] else views[i].formers)
  {
    hide Related, ClientStep, Step, Certain;
    assert Step(run[i], events[i], run[i + 1]);
    assert Related(run[i], views[i]);
    RelatedIsCertain(run[i], views[i]);
    RelatedPolicy(run[i], events[i], run[i + 1], views[i]);
    SettledIsDurable(views[i], events[i], views[i + 1]);
  }

  /** The client knows the policy; and between its rename and its return a
      compaction has everything on the device. */
  lemma RelatedPolicy(c: System, e: Event, c': System, a: Client)
    requires Related(c, a) && Step(c, e, c')
    ensures c.Up? ==> c.s.policy == a.policy
    ensures e.CompactFinish? ==> a.durable == |a.hist|
  {
    hide Valid, Tracks, LogOf, FormersReach, Replaced, FreshIds, Maintenance.InStep, NextIdOf;
  }

  /** With no rename pending when the call returns, as after every compaction that
      returned, what returned survives crashes of every kind. */
  lemma SettledWithNothingPending(run: seq<System>, events: seq<Event>, first: Client, i: nat, j: nat)
    returns (views: seq<Client>)
    requires IsRun(run, events) && Related(run[0], first)
    requires i < j < |run| && run[j].Up? && run[i + 1].formers == []
    ensures IsClientRun(views, events) && views[0] == first
    ensures Settles(run[i], views[i], events[i], views[i + 1]) ==>
              views[i + 1].hist <= views[j].hist && Held(run[j].s) == AllRead(MapOf(views[j].hist))
  {
    hide Related, ClientStep, Step, Held, AllRead, MapOf, Settles, Certain, Running;
    views := Refines(run, events, first);
    if Settles(run[i], views[i], events[i], views[i + 1]) {
      SettledInRun(run, events, views, i);
      NonePending(run[i + 1], views[i + 1]);
      SureForever(views, events, i + 1, j, |views[i + 1].hist|);
      assert views[i + 1].hist[..|views[i + 1].hist|] == views[i + 1].hist;
      UpHolds(run[j], views[j]);
    }
  }

  lemma NonePending(c: System, a: Client)
    requires Related(c, a) && c.formers == []
    ensures a.formers == []
  {}

  /** The power failure leads the name back to a file that was replaced before it
      held `n` operations. */
  ghost predicate Undoes(a: Client, e: Event, n: nat) {
    Reverts(e) && e.name <= |a.formers| && a.formers[e.name - 1].issued < n
  }

  /** Exactly when a write that returned under `Always` stays in the history: as long
      as no power failure leads the name back to a file replaced before the write. */
  lemma {:induction false} WriteSurvivesIff(run: seq<System>, events: seq<Event>, views: seq<Client>, i: nat, j: nat)
    requires IsRun(run, events) && IsClientRun(views, events) && AllRelated(run, views)
    requires i < j < |run| && events[i].Do? && run[i].Up? && run[i].s.policy == Always
    requires views[i + 1].hist != views[i].hist
    ensures (forall m :: i < m <= j ==> views[i + 1].hist <= views[m].hist) <==>
            (forall m :: i < m < j ==> !Undoes(views[m], events[m], |views[i + 1].hist|))
    decreases j
  {
    hide Related, Step, ClientStep, Straddles, Certain, Undoes;
    if j > i + 1 {
      WriteSurvivesIff(run, events, views, i, j - 1);
      var lo, hi := |views[i].hist|, |views[i + 1].hist|;
      if forall m :: i < m < j - 1 ==> !Undoes(views[m], events[m], hi) {
        SettledInRun(run, events, views, i);
        assert Related(run[i], views[i]) && Step(run[i], events[i], run[i + 1]);
        RelatedPolicy(run[i], events[i], run[i + 1], views[i]);
        WriteStraddles(views[i], events[i], views[i + 1]);
        StraddlesOn(views, events, i + 1, j - 1, lo, hi);
        assert views[j - 1].hist[..hi] == views[i + 1].hist;
        SurvivesStepIff(views[j - 1], events[j - 1], views[j], lo, hi);
        PrefixIff(views[i + 1].hist, views[j - 1].hist, views[j].hist);
      }
    }
  }

  lemma PrefixIff(first: seq<Op>, before: seq<Op>, after: seq<Op>)
    requires |first| <= |before| && before[..|first|] == first
    ensures first <= after <==> |first| <= |after| && after[..|first|] == before[..|first|]
  {}

  lemma SurvivesStepIff(a: Client, e: Event, a': Client, lo: nat, hi: nat)
    requires Certain(a) && Straddles(a, lo, hi) && lo < hi && ClientStep(a, e, a')
    ensures hi <= |a.hist| && (hi <= |a'.hist| && a'.hist[..hi] == a.hist[..hi] <==> !Undoes(a, e, hi))
    ensures !Undoes(a, e, hi) ==> Certain(a') && Straddles(a', lo, hi)
  {
    hide MapOf, Accepts, GapsAfter, NextAfter, NextOver, Maintenance.GapsIndexed, Writes;
    DurableStep(a, e, a');
    if Reverts(e) {
      FallsBack(a, e, a');
      assert a.formers[e.name - 1] in a.formers;
    } else {
      assert a'.hist[..hi] == a'.hist[..a.durable][..hi];
      assert a.hist[..hi] == a.hist[..a.durable][..hi];
    }
  }

  lemma WriteStraddles(a: Client, e: Event, a': Client)
    requires ClientStep(a, e, a') && e.Do? && Certain(a) && a'.hist != a.hist && a.policy == Always
    ensures Straddles(a', |a.hist|, |a'.hist|) && |a'.hist| == |a.hist| + 1
  {
    hide Writes, GapsAfter, Accepts;
    WritesExtend(a, e.w, a'.hist);
  }

  lemma {:induction false} StraddlesOn(views: seq<Client>, events: seq<Event>, i: nat, j: nat, lo: nat, hi: nat)
    requires IsClientRun(views, events) && i <= j < |views|
    requires lo < hi && Certain(views[i]) && Straddles(views[i], lo, hi)
    requires forall k :: i <= k < j ==> !Undoes(views[k], events[k], hi)
    ensures Certain(views[j]) && Straddles(views[j], lo, hi)
    ensures hi <= |views[i].hist| && hi <= |views[j].hist| && views[j].hist[..hi] == views[i].hist[..hi]
    decreases j
  {
    hide ClientStep, Undoes;
    if i < j {
      StraddlesOn(views, events, i, j - 1, lo, hi);
      SurvivesStepIff(views[j - 1], events[j - 1], views[j], lo, hi);
    }
  }

  // ---- The exact condition -----------------------------------------------------------------

  /** A run from `c`, with the client's views of it from `a`. */
  ghost predicate Continues(run: seq<System>, events: seq<Event>, views: seq<Client>, c: System, a: Client) {
    && IsRun(run, events) && IsClientRun(views, events) && AllRelated(run, views)
    && run[0] == c && views[0] == a
  }

  /** Whatever happens from here, the first `n` operations stay in the history. */
  ghost predicate Stays(c: System, a: Client, n: nat)
    requires n <= |a.hist|
  {
    forall run, events, views: seq<Client> ::
      Continues(run, events, views, c, a) ==> a.hist[..n] <= views[|events|].hist
  }

  /** In any state, the first `n` operations stay whatever happens if and only if
      they are certain in every file the store's name may stand for. */
  lemma StaysIff(c: System, a: Client, n: nat)
    requires Related(c, a) && n <= |a.hist|
    ensures Stays(c, a, n) <==> Sure(a, n)
  {
    hide Related, Step, ClientStep;
    RelatedIsCertain(c, a);
    if Sure(a, n) {
      forall run, events, views: seq<Client> | Continues(run, events, views, c, a)
        ensures a.hist[..n] <= views[|events|].hist
      {
        SureForever(views, events, 0, |events|, n);
      }
    } else {
      var name := Weakest(a, n);
      var e, c', a' := FallsToCertain(c, a, name);
      OneStepContinues(c, e, c', a, a');
      assert !(a.hist[..n] <= [a, a'][|[e]|].hist);
    }
  }

  /** A file in which fewer than `n` operations are certain. */
  lemma Weakest(a: Client, n: nat) returns (name: nat)
    requires !Sure(a, n)
    ensures name <= |a.formers| && Window(a, name).certain < n
  {
    if n > a.durable {
      name := 0;
    } else {
      var r :| r in a.formers && n > r.certain;
      var k :| 0 <= k < |a.formers| && a.formers[k] == r;
      name := k + 1;
    }
  }

  /** A power failure may lead the name to any of its files and leave no more of it
      than is certain. */
  lemma FallsToCertain(c: System, a: Client, name: nat) returns (e: Event, c': System, a': Client)
    requires Related(c, a) && name <= |a.formers|
    ensures Step(c, e, c') && ClientStep(a, e, a') && Related(c', a')
    ensures |a'.hist| == Window(a, name).certain
  {
    hide Recoverable, Running, Copied, Replaced, Images;
    RelatedRecovers(c, a);
    ImageRecovers(c, a, name);
    var image, r := Images(c)[name], Window(a, name);
    var keep := CutToCertain(image.file, image.synced, a.hist[..r.issued], r.certain, r.origin);
    e := PowerLoss(keep, name, None);
    c' := System.Down(image.file[..keep], keep, None, []);
    assert a.hist[..r.issued][..r.certain] == a.hist[..r.certain];
    a' := a.(hist := a.hist[..r.certain], durable := r.certain, origin := r.origin, formers := []);
  }

  lemma OneStepContinues(c: System, e: Event, c': System, a: Client, a': Client)
    requires Related(c, a) && Step(c, e, c') && ClientStep(a, e, a') && Related(c', a')
    ensures Continues([c, c'], [e], [a, a'], c, a)
  {
    hide Related, Step, ClientStep;
  }

  /** A write that took effect under `Always` stays whatever happens if and only if
      no rename was pending when it was called. */
  lemma WriteStaysIff(c: System, a: Client, w: Write, c': System, a': Client)
    requires Related(c, a) && c.Up? && c.s.policy == Always && Step(c, Do(w), c')
    requires ClientStep(a, Do(w), a') && Related(c', a') && a'.hist != a.hist
    ensures Stays(c', a', |a'.hist|) <==> c.formers == []
  {
    hide Related, Stays, Step, ClientStep, Certain;
    StaysIff(c', a', |a'.hist|);
    RelatedIsCertain(c, a);
    RelatedPolicy(c, Do(w), c', a);
    SameFormers(c, a);
    WrittenFormers(a, w, a');
    if c.formers != [] {
      assert a.formers[0] in a.formers;
      FormersAreShort(a);
    }
  }

  lemma SameFormers(c: System, a: Client)
    requires Related(c, a)
    ensures |c.formers| == |a.formers|
  {
    hide Running, Recoverable, Copied, Replaced;
  }

  lemma WrittenFormers(a: Client, w: Write, a': Client)
    requires ClientStep(a, Do(w), a') && a'.hist != a.hist
    ensures a'.formers == a.formers && |a'.hist| == |a.hist| + 1
    ensures a.policy == Always ==> a'.durable == |a'.hist|
  {
    hide Writes, GapsAfter;
    WritesExtend(a, w, a'.hist);
  }

  lemma FormersAreShort(a: Client)
    requires Certain(a)
    ensures forall r :: r in a.formers ==> r.certain <= |a.hist|
  {}

  /** After a flush, every operation so far stays whatever happens if and only if
      every file a pending rename may lead back to holds them all on the device:
      none is pending, or nothing was written since and everything before was
      forced. */
  lemma FlushStaysIff(c: System, a: Client, c': System, a': Client)
    requires Related(c, a) && Step(c, FlushAll, c') && ClientStep(a, FlushAll, a') && Related(c', a')
    ensures Stays(c', a', |a'.hist|) <==> forall r :: r in a.formers ==> r.certain == |a.hist|
    ensures c.formers == [] ==> Stays(c', a', |a'.hist|)
  {
    hide Related, Stays, Certain;
    RelatedIsCertain(c, a);
    FormersAreShort(a);
    SameFormers(c, a);
    StaysIff(c', a', |a'.hist|);
  }

  /** After a compaction has returned, every operation so far stays whatever
      happens. */
  lemma CompactionStays(c: System, a: Client, c': System, a': Client)
    requires Related(c, a) && Step(c, CompactFinish, c') && ClientStep(a, CompactFinish, a') && Related(c', a')
    ensures Stays(c', a', |a'.hist|)
  {
    hide Related, Stays;
    RelatedPolicy(c, CompactFinish, c', a);
    StaysIff(c', a', |a'.hist|);
  }

  /** So it is in any run from a freshly created store. */
  lemma FreshStoreKeepsWrites(run: seq<System>, events: seq<Event>, policy: SyncPolicy, i: nat, j: nat)
    returns (views: seq<Client>)
    requires IsRun(run, events) && run[0] == NewSystem(policy)
    requires i < j < |run| && run[j].Up?
    requires forall k :: i < k < j ==> !Reverts(events[k])
    ensures IsClientRun(views, events) && views[0] == NewClient(policy)
    ensures Settles(run[i], views[i], events[i], views[i + 1]) ==>
              views[i + 1].hist <= views[j].hist && Held(run[j].s) == AllRead(MapOf(views[j].hist))
  {
    hide Related, ClientStep, Step, Held, AllRead, MapOf, Settles, NewSystem, NewClient;
    NewStoreRelates(policy);
    views := ReturnedSurvives(run, events, NewClient(policy), i, j);
  }

  // ---- An undone rename -----------------------------------------------------------------------

  /** The environment can make it fail: the process dies between the rename and the
      directory's sync, the store is opened again, a write returns under `Always`,
      and a power failure undoes the rename. The write is gone. */
  lemma UndoneRenameLosesWrite()
    ensures exists run: seq<System>, events: seq<Event> ::
              && IsRun(run, events) && |events| == 9 && run[0] == NewSystem(Always)
              && events[6] == Do(Insertion([])) && run[6].Up? && run[6].s.policy == Always
              && Insert(run[6].s, []).1 == Success(1) && 1 in Held(run[7].s)
              && run[9].Up? && Held(run[9].s) == map[]
  {
    var s0, s1 := UndoneStores();
    hide Step, Held, LogOf, Insert, IsOrder, FreshHeader;
    var h := FreshHeader();
    var was := [Image(h, HEADER_LEN)];
    var run := [Up(s0, []), Compacting(s0, [], Created, [], map[], []),
                Compacting(s0, [], Writing(0), h, map[], []), Compacting(s0, [], Forced, h, map[], []),
                Renamed(s0, h, map[], was), Down(h, HEADER_LEN, None, was), Up(s0, was), Up(s1, was),
                Down(h, HEADER_LEN, None, []), Up(s0, [])];
    var events := [CompactCreate([]), CompactHeader, CompactForce, CompactRename, Kill(None), Reopen(Always),
                   Do(Insertion([])), PowerLoss(HEADER_LEN, 1, None), Reopen(Always)];
    CompactsNothing(s0);
    DiesAndReopens(s0, h, was);
    WritesAndLoses(s0, s1, was[0]);
    assert IsRun(run, events);
  }

  lemma UndoneStores() returns (s0: Store, s1: Store)
    ensures Open([], 0, Always) == Success(s0) && Open(FreshHeader(), HEADER_LEN, Always) == Success(s0)
    ensures s0.file == FreshHeader() && s0.synced == HEADER_LEN && s0.policy == Always && s0.nextId == 1
    ensures s0.index == map[] && Held(s0) == map[]
    ensures WfDoc([]) && Insert(s0, []) == (s1, Success(1)) && 1 in Held(s1)
  {
    s0 := Open([], 0, Always).value;
    NewStoreIsValid(Always);
    OpenIsValid([], 0, Always);
    ReopenIsStable([], 0, Always);
    EmptyDocAccepted();
    assert FreshIds(s0) by { assert LogOf(s0) == []; }
    InsertSpec(s0, []);
    s1 := Insert(s0, []).0;
  }

  lemma EmptyDocAccepted()
    ensures WfDoc([]) && Accepts([])
  {
    assert |Codec.EncodeFields([])| == 0;
  }

  /** Compacting an empty store, up to the rename. */
  lemma CompactsNothing(s: Store)
    requires s.index == map[]
    ensures Step(Up(s, []), CompactCreate([]), Compacting(s, [], Created, [], map[], []))
    ensures Step(Compacting(s, [], Created, [], map[], []), CompactHeader,
                 Compacting(s, [], Writing(0), FreshHeader(), map[], []))
    ensures Step(Compacting(s, [], Writing(0), FreshHeader(), map[], []), CompactForce,
                 Compacting(s, [], Forced, FreshHeader(), map[], []))
    ensures Step(Compacting(s, [], Forced, FreshHeader(), map[], []), CompactRename,
                 Renamed(s, FreshHeader(), map[], [Image(s.file, s.synced)]))
  {
    hide FreshHeader;
    assert [Image(s.file, s.synced)] + [] == [Image(s.file, s.synced)];
    assert IsOrder([], s.index.Keys);
  }

  lemma DiesAndReopens(s: Store, h: seq<byte>, was: seq<Image>)
    requires Open(h, |h|, Always) == Success(s)
    ensures Step(Renamed(s, h, map[], was), Kill(None), Down(h, |h|, None, was))
    ensures Step(Down(h, |h|, None, was), Reopen(Always), Up(s, if h == [] then [] else was))
  {
    hide Open;
  }

  lemma WritesAndLoses(s: Store, t: Store, was: Image)
    requires Callable(s, Insertion([])) && Insert(s, []).0 == t && was.synced == |was.file|
    requires Open(was.file, |was.file|, Always) == Success(s)
    ensures Step(Up(s, [was]), Do(Insertion([])), Up(t, [was]))
    ensures Step(Up(t, [was]), PowerLoss(|was.file|, 1, None), Down(was.file, |was.file|, None, []))
    ensures Step(Down(was.file, |was.file|, None, []), Reopen(Always), Up(s, []))
  {
    hide Open, Insert, Callable;
    assert was.file[..|was.file|] == was.file;
  }

  // ---- Where runs start -----------------------------------------------------------------------

  /** Any documents are the outcome of some history. */
  lemma {:induction false} HistoryFor(m: map<u64, Document>) returns (hist: seq<Op>)
    ensures MapOf(hist) == m
    decreases |m|
  {
    if m == map[] {
      hist := [];
    } else {
      var id :| id in m;
      var before := HistoryFor(m - {id});
      hist := before + [Put(id, m[id])];
      MapSnoc(before, Put(id, m[id]));
    }
  }

  /** A run may start by opening any file on the device, whoever wrote it, as long
      as its live documents decode and no record carries the largest id. */
  lemma OpenedStoreRelates(file: seq<byte>, policy: SyncPolicy) returns (first: Client)
    requires file != [] && Open(file, |file|, policy).Success?
    requires var s := Open(file, |file|, policy).value; Healthy(Held(s)) && NoMaxId(LogOf(s))
    ensures Related(Up(Open(file, |file|, policy).value, []), first)
    ensures first.durable == |first.hist| && first.gaps == map[] && !first.compacted
  {
    hide Open, LogOf, ScanFrom, VerifyHeader, NextIdOf, MapOf, Valid, NoMaxId, Held, AllRead, Frames, DocsOf;
    OpenIsValid(file, |file|, policy);
    var s := Open(file, |file|, policy).value;
    var hist := HistoryFor(map id | id in Held(s) :: Held(s)[id].value);
    first := Client(hist, |hist|, Origin(|hist|, NextIdOf(LogOf(s))), [], policy, map[], false);
    ReadBack(Held(s), MapOf(hist));
    HeldIsDocs(s);
    SyncedWithin(s);
    OpenedFields(file, |file|, policy);
    FreshUnlessMax(s);
    NextIdPositive(LogOf(s));
    TracksForced(LogOf(s), s.synced, hist, first.origin);
    Maintenance.NoIndexesAgree(Held(s));
  }

  lemma ReadBack(c: Docs, m: map<u64, Document>)
    requires Healthy(c) && m == map id | id in c :: c[id].value
    ensures c == AllRead(m)
  {}

  lemma FreshUnlessMax(s: Store)
    requires NoMaxId(LogOf(s)) && (FreshIds(s) <==> forall i :: 0 <= i < |LogOf(s)| ==> LogOf(s)[i].id != MAX_ID)
    ensures FreshIds(s)
  {
    hide LogOf, FreshIds;
  }

  lemma OpenedFields(file: seq<byte>, synced: nat, policy: SyncPolicy)
    requires file != [] && Open(file, synced, policy).Success? && synced >= |file|
    ensures var s := Open(file, synced, policy).value;
            s.synced == s.tail == |s.file| && s.policy == policy && s.indexes == map[]
  {
    hide LogOf, VerifyHeader, IsLog, IndexOf, NextIdOf, ScanFrom;
    OpenIsValid(file, synced, policy);
  }

  // ---- Reachable stores -----------------------------------------------------------------------

  /** In every state of every run the store in use is in step with its file: index
      and tail are what replay would compute, the documents are those of the
      history, ids are fresh, and space is accounted for. */
  lemma ReachableStore(run: seq<System>, events: seq<Event>, first: Client, i: nat) returns (views: seq<Client>)
    requires IsRun(run, events) && Related(run[0], first)
    requires i < |run| && run[i].Up?
    ensures IsClientRun(views, events) && views[0] == first
    ensures var (s, a) := (run[i].s, views[i]);
            && Certain(a)
            && ScanFrom(s.file, HEADER_LEN) == Scanned(LogOf(s), s.tail)
            && s.tail == |s.file| && s.index == IndexOf(LogOf(s))
            && Held(s) == AllRead(MapOf(a.hist))
            && IdsBelow(LogOf(s), s.nextId) && s.nextId !in Held(s)
            && (!a.compacted ==> s.nextId == NextIdOf(LogOf(s)))
            && HEADER_LEN + LiveSize(s.index) <= s.tail
            && DisjointWithin(s.index, s.tail)
            && Maintenance.InStep(s, a.gaps)
  {
    hide Related, IsRun, IsClientRun, MapOf, AllRead, Running, Certain;
    views := Refines(run, events, first);
    assert Related(run[i], views[i]);
    UpHolds(run[i], views[i]);
    RelatedIsCertain(run[i], views[i]);
    StoreIsAccounted(run[i].s, views[i]);
  }

  lemma StoreIsAccounted(s: Store, a: Client)
    requires Running(s, a)
    ensures Held(s) == AllRead(MapOf(a.hist))
    ensures ScanFrom(s.file, HEADER_LEN) == Scanned(LogOf(s), s.tail)
    ensures s.tail == |s.file| && s.index == IndexOf(LogOf(s))
    ensures IdsBelow(LogOf(s), s.nextId) && s.nextId !in Held(s)
    ensures !a.compacted ==> s.nextId == NextIdOf(LogOf(s))
    ensures HEADER_LEN + LiveSize(s.index) <= s.tail && DisjointWithin(s.index, s.tail)
    ensures Maintenance.InStep(s, a.gaps)
  {
    hide MapOf, AllRead, Held, LogOf, IndexOf, NextIdOf, LiveSize, DisjointWithin, Tracks, IsLog, VerifyHeader,
         Maintenance.InStep, ScanFrom;
    ClientHolds(s, a);
    SyncedWithin(s);
    CleanScan(s.file, LogOf(s));
    FreshIdIsUnused(s);
    LiveSizeBound(LogOf(s));
    LiveRecordsDisjoint(LogOf(s));
  }

  /** In every state of every run, a stopped store can be opened. */
  lemma ReachableAlwaysOpens(run: seq<System>, events: seq<Event>, first: Client, i: nat, policy: SyncPolicy)
    requires IsRun(run, events) && Related(run[0], first)
    requires i < |run| && run[i].Down?
    ensures Open(run[i].file, run[i].synced, policy).Success?
  {
    hide IsRun, Recoverable, Open, Running, FormersReach;
    var views := Refines(run, events, first);
    assert Related(run[i], views[i]);
    RecoverableOpens(run[i].file, run[i].synced, views[i].hist, views[i].durable, views[i].origin, policy);
  }

  /** In every state of every run an index answers equality and range queries as a
      scan does, but for exactly the ids in its gap. */
  lemma ReachableQueriesAgree(run: seq<System>, events: seq<Event>, first: Client, i: nat,
                              field: seq<byte>, v: Value, lo: Bound, hi: Bound) returns (views: seq<Client>)
    requires IsRun(run, events) && Related(run[0], first)
    requires i < |run| && run[i].Up? && field in run[i].s.indexes
    ensures IsClientRun(views, events) && views[0] == first
    ensures field in views[i].gaps
    ensures var (m, c, gap) := (run[i].s.indexes[field], Held(run[i].s), views[i].gaps[field]);
            && IdsAt(m, v) == Matching(c, field, v) - gap
            && (forall id :: id in RangeOf(m, lo, hi) <==> id in Within(c, field, lo, hi) - gap)
            && OrderedByValueThenId(m, RangeOf(m, lo, hi))
  {
    hide Related, IsRun, IsClientRun, Running, Held, Matching, Within, IdsAt, RangeOf, Indexed, OrderedByValueThenId;
    views := Refines(run, events, first);
    var s, a := run[i].s, views[i];
    assert Related(run[i], a);
    UpHolds(run[i], a);
    StoreIsAccounted(s, a);
    IndexAnswersAsScan(s.indexes, Held(s), a.gaps, field, v, lo, hi);
  }

  /** The event is an update of `id`, live, by a document too large to store. */
  ghost predicate OpensGap(a: Client, e: Event, id: u64) {
    e.Do? && e.w.Replacement? && e.w.id == id && id in MapOf(a.hist) && !Accepts(e.w.doc)
  }

  /** The event is a write of `id` that takes effect, or one after which `field` has
      no index. */
  ghost predicate ClosesGap(e: Event, a': Client, field: seq<byte>, id: u64, a: Client) {
    || (e.Do? && a'.hist != a.hist && a'.hist != [] && a'.hist[|a'.hist| - 1].id == id)
    || field !in a'.gaps
  }

  ghost predicate InGap(a: Client, field: seq<byte>, id: u64) {
    field in a.gaps && id in a.gaps[field]
  }

  lemma GapStep(a: Client, e: Event, a': Client, field: seq<byte>, id: u64)
    requires ClientStep(a, e, a')
    ensures InGap(a', field, id) <==>
            !ClosesGap(e, a', field, id, a) && (InGap(a, field, id) || (field in a.gaps && OpensGap(a, e, id)))
  {
    hide MapOf, Accepts;
    match e {
      case Do(w) => WritesExtend(a, w, a'.hist);
      case _ =>
    }
  }

  /** Step `k` of the run opened a gap in `field`'s index that was still open at `j`. */
  ghost predicate GapOpenSince(views: seq<Client>, events: seq<Event>, field: seq<byte>, id: u64, k: nat, j: nat)
    requires |views| == |events| + 1 && j < |views|
  {
    && k < j && field in views[k].gaps && OpensGap(views[k], events[k], id)
    && forall l :: k <= l < j ==> !ClosesGap(events[l], views[l + 1], field, id, views[l])
  }

  /** Where gaps come from: an index leaves an id out exactly when some oversized
      update of it was rejected and since then no write of the id took effect and
      the index was neither dropped nor lost to a reopening. */
  lemma {:induction false} GapsComeFromRejections(views: seq<Client>, events: seq<Event>,
                                                  field: seq<byte>, id: u64, j: nat)
    requires IsClientRun(views, events) && j < |views| && views[0].gaps == map[]
    ensures InGap(views[j], field, id) <==> exists k: nat :: GapOpenSince(views, events, field, id, k, j)
    decreases j
  {
    hide ClientStep, ClosesGap, OpensGap, InGap;
    if j == 0 {
      NoGapAtFirst(views[0], field, id);
    } else {
      GapsComeFromRejections(views, events, field, id, j - 1);
      assert ClientStep(views[j - 1], events[j - 1], views[j]);
      GapStep(views[j - 1], events[j - 1], views[j], field, id);
      if InGap(views[j], field, id) {
        if InGap(views[j - 1], field, id) {
          var k: nat :| GapOpenSince(views, events, field, id, k, j - 1);
          assert GapOpenSince(views, events, field, id, k, j);
        } else {
          assert GapOpenSince(views, events, field, id, j - 1, j);
        }
      }
      if k: nat :| GapOpenSince(views, events, field, id, k, j) {
        if k < j - 1 {
          assert GapOpenSince(views, events, field, id, k, j - 1);
        }
      }
    }
  }

  /** The event is an update too large to store. */
  ghost predicate Oversized(e: Event) {
    e.Do? && e.w.Replacement? && !Accepts(e.w.doc)
  }

  /** A run without oversized updates leaves no index a gap. */
  lemma NothingGoesMissing(views: seq<Client>, events: seq<Event>, j: nat)
    requires IsClientRun(views, events) && j < |views| && views[0].gaps == map[]
    requires forall k :: 0 <= k < j ==> !Oversized(events[k])
    ensures NoGaps(views[j].gaps)
  {
    hide ClientStep, ClosesGap, Accepts;
    forall field, id
      ensures !InGap(views[j], field, id)
    {
      GapsComeFromRejections(views, events, field, id, j);
    }
    NowhereInGap(views[j]);
  }

  lemma NowhereInGap(a: Client)
    requires forall field, id :: !InGap(a, field, id)
    ensures NoGaps(a.gaps)
  {
    forall f | f in a.gaps
      ensures a.gaps[f] == {}
    {
      forall id
        ensures id !in a.gaps[f]
      {
        assert !InGap(a, f, id);
      }
    }
  }

  lemma NoGapAtFirst(a: Client, field: seq<byte>, id: u64)
    requires a.gaps == map[]
    ensures !InGap(a, field, id)
  {}

  // ---- Compaction ---------------------------------------------------------------------------------

  /** The records in a file. */
  ghost function RecordsIn(file: seq<byte>): seq<Record> {
    match ScanFrom(file, HEADER_LEN)
    case Scanned(log, _) => log
    case Broken(_) => []
  }

  /** Power failing at any point of a compaction leaves a file that opens to a
      whole-record prefix of one of the files its name has stood for; while the
      temporary is written the file in use is still the original, and from the
      rename on it is the compacted one, complete, or else the original. */
  lemma CompactionIsAtomic(c: System, a: Client, keep: nat, name: nat, leftover: Option<seq<byte>>, c': System,
                           policy: SyncPolicy)
    requires Related(c, a) && (c.Compacting? || c.Renamed?)
    requires Step(c, PowerLoss(keep, name, leftover), c')
    ensures c'.Down? && name < |Images(c)| && keep >= HEADER_LEN
    ensures Open(c'.file, c'.synced, policy).Success?
    ensures var o := Open(c'.file, c'.synced, policy).value;
            var was := RecordsIn(Images(c)[name].file);
            && LogOf(o) == was[..Whole(was, keep - HEADER_LEN)]
            && (c.Renamed? && name == 0 ==> Held(o) == Held(c.s))
    ensures (c.Compacting? && name == 0) || (c.Renamed? && name == 1) ==> Images(c)[name].file == c.s.file
  {
    hide Recoverable, Open, Running, Copied, LogOf, Compacted, BodiesOf, Whole, Frames, Held, ScanFrom, Falls,
         RecordsIn,
         IsOrder, Valid;
    RelatedRecovers(c, a);
    var a' := SimulateFall(Images(c), a, keep, name, leftover, c');
    RecoverableOpens(c'.file, c'.synced, a'.hist, a'.durable, a'.origin, policy);
    ImageRecovers(c, a, name);
    var r := Window(a, name);
    OpensToPrefix(Images(c)[name], a.hist[..r.issued], r.certain, r.origin, keep, policy);
    if c.Renamed? && name == 0 {
      var order :| Replaced(c.s, order, c.file, c.newIndex, c.formers);
      assert c.file[..keep] == c.file;
      OpensToSame(c.s, order, c.file, c.newIndex, policy);
    }
  }

  /** And the process dying at any point of a compaction leaves a file that opens to
      exactly the documents compacted, which are the client's. */
  lemma CompactionSurvivesDeath(c: System, a: Client, leftover: Option<seq<byte>>, c': System, policy: SyncPolicy)
    requires Related(c, a) && (c.Compacting? || c.Renamed?)
    requires Step(c, Kill(leftover), c')
    ensures c'.Down? && Open(c'.file, c'.synced, policy).Success?
    ensures Held(Open(c'.file, c'.synced, policy).value) == Held(c.s) == AllRead(MapOf(a.hist))
  {
    hide Recoverable, Open, Running, Copied, FormersReach, LogOf, BodiesOf, Held, AllRead, MapOf, IsOrder, Valid, Compacted,
         Maintenance.InStep, Healthy, CompactLog;
    SimulateKill(c, a, leftover, c');
    SimulateReopen(c'.file, c'.synced, a, policy);
    ClientHolds(Open(c'.file, c'.synced, policy).value, a.(policy := policy, gaps := map[], compacted := false));
    if c.Renamed? {
      var order :| Replaced(c.s, order, c.file, c.newIndex, c.formers);
      CompactionPreserves(c.s, order);
      ClientHolds(Swapped(c.s, c.file, c.newIndex), a.(compacted := true));
    } else {
      ClientHolds(c.s, a);
    }
  }

  lemma ImageRecovers(c: System, a: Client, name: nat)
    requires Related(c, a) && name < |Images(c)|
    ensures name <= |a.formers|
    ensures var r := Window(a, name);
            && r.issued <= |a.hist|
            && Recoverable(Images(c)[name].file, Images(c)[name].synced, a.hist[..r.issued], r.certain, r.origin)
  {
    hide Recoverable, Running, Copied, Replaced, Images;
    RelatedRecovers(c, a);
    if name == 0 {
      assert a.hist[..|a.hist|] == a.hist;
    } else {
      assert Images(c)[name] == Images(c)[1..][name - 1] == c.formers[name - 1];
      assert Reaches(c.formers[name - 1], a.hist, a.formers[name - 1]);
    }
  }

  lemma OpensToPrefix(image: Image, hist: seq<Op>, durable: nat, origin: Origin, keep: nat, policy: SyncPolicy)
    requires Recoverable(image.file, image.synced, hist, durable, origin) && KeepsForced(keep, image.synced, |image.file|)
    requires Open(image.file[..keep], keep, policy).Success?
    ensures keep >= HEADER_LEN
    ensures var was := RecordsIn(image.file);
            LogOf(Open(image.file[..keep], keep, policy).value) == was[..Whole(was, keep - HEADER_LEN)]
  {
    hide Open, LogOf, Whole, Frames, TornLog, ScanFrom, VerifyHeader, Tracks;
    var file := image.file;
    var full :| TornLog(file, full);
    LongEnough(file, full);
    TornLogScan(file, full);
    TornAgain(file, full, keep);
    TornLogScan(file[..keep], full);
    var n, m := keep - HEADER_LEN, |file| - HEADER_LEN;
    WholeOfWhole(full, n, m);
    assert full[..Whole(full, m)][..Whole(full, n)] == full[..Whole(full, n)];
    OpenIsValid(file[..keep], keep, policy);
  }

  /** Cutting twice is cutting once. */
  lemma WholeOfWhole(full: seq<Record>, n: nat, m: nat)
    requires n <= m
    ensures Whole(full, n) <= Whole(full, m)
    ensures Whole(full[..Whole(full, m)], n) == Whole(full, n)
  {
    hide Whole, Frames;
    WholeIsMonotone(full, n, m);
    var part, j := full[..Whole(full, m)], Whole(full, n);
    WholeFits(full, n);
    WholeFits(part, n);
    var k := Whole(part, n);
    assert part[..k] == full[..k];
    if k < j {
      assert part[..k + 1] == full[..k + 1];
      PrefixesNest(full, k + 1, j);
    } else if k > j {
      PrefixesNest(full, j + 1, k);
    }
  }

  lemma OpensToSame(s: Store, order: seq<u64>, file: seq<byte>, newIndex: Index, policy: SyncPolicy)
    requires Valid(s) && IsOrder(order, BodiesOf(LogOf(s)).Keys) && Swapped(s, file, newIndex) == Compacted(s, order)
    requires Open(file, |file|, policy).Success?
    ensures Held(Open(file, |file|, policy).value) == Held(s)
  {
    hide Open, LogOf, BodiesOf, IsLog, ScanFrom, VerifyHeader, IsOrder, CompactLog, Frames, FreshHeader,
         Maintenance.InStep;
    CompactionPreserves(s, order);
    var t := Compacted(s, order);
    CompactedFields(s, order);
    CleanScan(file, LogOf(t));
    OpenIsValid(file, |file|, policy);
  }

  // ---- Where the promises stop -----------------------------------------------------------------------

  /** Power failing while a new store writes its header: the next open succeeds if
      and only if none of the header or all of it was kept. */
  lemma CreationCrashIff(keep: nat, policy: SyncPolicy)
    requires keep <= HEADER_LEN
    ensures Open(FreshHeader()[..keep], keep, policy).Success? <==> keep == 0 || keep == HEADER_LEN
    ensures 0 < keep < HEADER_LEN ==> Open(FreshHeader()[..keep], keep, policy) == Failure(BadMagic)
  {
    FreshHeaderVerifies([]);
    assert FreshHeader() + [] == FreshHeader();
    assert FreshHeader()[..HEADER_LEN] == FreshHeader();
    hide FreshHeader;
    if keep == HEADER_LEN {
      ScanAtEnd(FreshHeader());
    }
  }

  lemma NextIdPositive(log: seq<Record>)
    ensures log == [] ==> NextIdOf(log) == 1
    ensures NextIdOf(log) < 2 && NoMaxId(log) ==> NextIdOf(log) == 1
    ensures NoMaxId(log) ==> NextIdOf(log) >= 1
  {
    if NoMaxId(log) {
      NextIdIsTight(log);
    }
  }
}
