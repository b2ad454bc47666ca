/** The crash machine leaves nothing out: which systems each failure may leave, said
    of the bytes alone, and runs that carry whole operations to their end. */
module Enabled {
  import opened Bytes
  import opened Documents
  import opened Errors
  import opened Log
  import opened LogState
  import opened Contents
  import opened Store
  import opened Compaction
  import opened CrashMachine
  import opened CrashProof

  // ---- Failures ----------------------------------------------------------------------------

  /** `c` has stopped and its file is a part of the image that holds what of it was
      on the device; nothing of the directory is pending. */
  ghost predicate LeftOf(image: Image, c: System) {
    && c.Down? && image.synced <= |c.file| && c.file <= image.file
    && c == Down(c.file, |c.file|, c.leftover, [])
  }

  lemma CutIff(images: seq<Image>, leftover: Option<seq<byte>>, c': System)
    ensures (exists keep, name :: Cut(images, keep, name, leftover, c'))
            <==> c'.Down? && c'.leftover == leftover && exists i :: 0 <= i < |images| && LeftOf(images[i], c')
  {
    if c'.Down? && c'.leftover == leftover && exists i :: 0 <= i < |images| && LeftOf(images[i], c') {
      var i :| 0 <= i < |images| && LeftOf(images[i], c');
      assert Cut(images, |c'.file|, i, leftover, c');
    }
    if keep: nat, name: nat :| Cut(images, keep, name, leftover, c') {
      assert LeftOf(images[name], c');
    }
  }

  /** Power failing between operations, or anywhere inside a compaction, may leave
      any part, at least what was forced, of any file the name may stand for, and
      anything under the temporary's name. */
  lemma PowerLossIff(c: System, c': System)
    ensures (exists keep, name, leftover :: Step(c, PowerLoss(keep, name, leftover), c'))
            <==> c'.Down? && exists i :: 0 <= i < |Images(c)| && LeftOf(Images(c)[i], c')
  {
    if c'.Down? {
      CutIff(Images(c), c'.leftover, c');
      if exists i :: 0 <= i < |Images(c)| && LeftOf(Images(c)[i], c') {
        var keep, name :| Cut(Images(c), keep, name, c'.leftover, c');
        assert Step(c, PowerLoss(keep, name, c'.leftover), c');
      }
    }
    if keep: nat, name: nat, leftover :| Step(c, PowerLoss(keep, name, leftover), c') {
      assert Cut(Images(c), keep, name, leftover, c');
      CutIff(Images(c), leftover, c');
    }
  }

  /** A write leaves the file as it is or puts one record at its end. */
  lemma WriteAppends(s: Store, w: Write)
    ensures Perform(s, w).file == s.file || exists r :: Perform(s, w).file == s.file + Frame(r)
  {
    hide Frame, PutRecord, DeleteRecord, Accepts, Unlist, AddAll;
    match w
    case Insertion(doc) =>
      if Insert(s, doc).1.Success? {
        assert Perform(s, w).file == s.file + Frame(PutRecord(s.nextId, doc));
      }
    case Replacement(id, doc) =>
      UpdateFile(s, id, doc);
      if Update(s, id, doc).1 == Success(true) {
        assert Perform(s, w).file == s.file + Frame(PutRecord(id, doc));
      }
    case Deletion(id) =>
      if Delete(s, id).1 == Success(true) {
        DeleteFile(s, id);
        assert Perform(s, w).file == s.file + Frame(DeleteRecord(id));
      }
  }

  /** Power failing inside a write, under either policy, may leave any part, at
      least what was forced before, of the file with the record at its end, or of a
      former one. */
  lemma InterruptIff(s: Store, formers: seq<Image>, w: Write, c': System)
    ensures (exists keep, name :: Step(Up(s, formers), Interrupt(w, keep, name), c'))
            <==> Callable(s, w) && c'.Down? && c'.leftover == None
                 && (LeftOf(Image(Perform(s, w).file, s.synced), c')
                     || exists i :: 0 <= i < |formers| && LeftOf(formers[i], c'))
  {
    hide Perform, Callable;
    var images := [Image(Perform(s, w).file, s.synced)] + formers;
    CutIff(images, None, c');
    if keep: nat, name: nat :| Step(Up(s, formers), Interrupt(w, keep, name), c') {
      assert Cut(images, keep, name, None, c');
      var i :| 0 <= i < |images| && LeftOf(images[i], c');
      assert i > 0 ==> images[i] == formers[i - 1];
    }
    if c'.Down? && c'.leftover == None && Callable(s, w)
       && (LeftOf(images[0], c') || exists i :: 0 <= i < |formers| && LeftOf(formers[i], c')) {
      if i :| 0 <= i < |formers| && LeftOf(formers[i], c') {
        assert LeftOf(images[i + 1], c');
      }
      var keep, name :| Cut(images, keep, name, None, c');
      assert Step(Up(s, formers), Interrupt(w, keep, name), c');
    }
  }

  /** The process dying inside a write, under either policy, may leave any part of
      its record behind the file; nothing more of it is on the device. */
  lemma DeathIff(s: Store, formers: seq<Image>, w: Write, c': System)
    ensures (exists len :: Step(Up(s, formers), Die(w, len), c'))
            <==> Callable(s, w) && c'.Down? && s.file <= c'.file <= Perform(s, w).file
                 && c' == Down(c'.file, s.synced, None, formers)
  {
    WriteAppends(s, w);
    hide Perform, Callable, Frame;
    if Callable(s, w) && c'.Down? && s.file <= c'.file <= Perform(s, w).file
       && c' == Down(c'.file, s.synced, None, formers) {
      assert Step(Up(s, formers), Die(w, |c'.file|), c');
    }
    if len: nat :| Step(Up(s, formers), Die(w, len), c') {
      assert s.file <= Perform(s, w).file;
    }
  }

  /** The process dying between operations or inside a compaction leaves the file
      the name stands for. Nothing but a stopped store withstands it. */
  lemma KillIff(c: System, c': System)
    ensures (exists leftover :: Step(c, Kill(leftover), c'))
            <==> !c.Down? && c'.Down?
                 && c'.file == (if c.Renamed? then c.file else c.s.file)
                 && c'.synced == (if c.Renamed? then |c.file| else c.s.synced)
                 && c'.formers == c.formers
  {
    if !c.Down? && c'.Down? && c' == Down(Images(c)[0].file, Images(c)[0].synced, c'.leftover, c.formers) {
      assert Step(c, Kill(c'.leftover), c');
    }
  }

  // ---- Whole operations ------------------------------------------------------------------------

  lemma OneMore(run: seq<System>, events: seq<Event>, e: Event, c: System)
    requires IsRun(run, events) && Step(run[|events|], e, c)
    ensures IsRun(run + [c], events + [e])
  {
    hide Step;
    var longer, more := run + [c], events + [e];
    forall i | 0 <= i < |more|
      ensures Step(longer[i], more[i], longer[i + 1])
    {
      assert i < |events| ==> Step(run[i], events[i], run[i + 1]);
    }
  }

  /** The first `k` turns of a compaction's loop. */
  lemma {:induction false} CopiesInTurn(s: Store, order: seq<u64>, formers: seq<Image>, k: nat)
      returns (run: seq<System>, events: seq<Event>)
    requires Valid(s) && IsOrder(order, s.index.Keys) && k <= |order|
    ensures IsRun(run, events) && |run| == |events| + 1 && run[0] == Up(s, formers)
    ensures var c := run[|events|];
            && c.Compacting?
            && c == Compacting(s, order, Writing(k), c.temp, c.newIndex, formers)
            && Copied(s, order, Writing(k), c.temp, c.newIndex)
  {
    hide Valid, IsOrder, Copied, FreshHeader;
    hide IsRun, Step;
    if k == 0 {
      OrderOfBodies(s, order);
      NothingCopied(s, order);
      run, events := Begins(s, order, formers);
    } else {
      run, events := CopiesInTurn(s, order, formers, k - 1);
      var c' := CopyTurn(run[|events|]);
      CopyIsStep(run[|events|], c');
      run, events := Then(run, events, CompactWrite, c');
    }
  }

  lemma Begins(s: Store, order: seq<u64>, formers: seq<Image>) returns (run: seq<System>, events: seq<Event>)
    requires IsOrder(order, s.index.Keys)
    ensures IsRun(run, events) && |run| == |events| + 1 && run[0] == Up(s, formers)
    ensures run[|events|] == Compacting(s, order, Writing(0), FreshHeader(), map[], formers)
  {
    hide IsOrder, FreshHeader;
    var begun := Compacting(s, order, Created, [], map[], formers);
    var ready := begun.(stage := Writing(0), temp := FreshHeader());
    run, events := [Up(s, formers), begun, ready], [CompactCreate(order), CompactHeader];
  }

  lemma CopyIsStep(c: System, c': System)
    requires CopyOne(c, c')
    ensures Step(c, CompactWrite, c')
  {}

  /** A live body can always be read, and so copied. */
  lemma CopyTurn(c: System) returns (c': System)
    requires c.Compacting? && Valid(c.s) && IsOrder(c.order, c.s.index.Keys)
    requires c.stage.Writing? && c.stage.k < |c.order| && Copied(c.s, c.order, c.stage, c.temp, c.newIndex)
    ensures CopyOne(c, c')
    ensures c' == Compacting(c.s, c.order, Writing(c.stage.k + 1), c'.temp, c'.newIndex, c.formers)
    ensures Copied(c'.s, c'.order, c'.stage, c'.temp, c'.newIndex)
  {
    hide Valid, IsOrder, Copied, Frame;
    var id := c.order[c.stage.k];
    BodyFits(c.s, c.order, c.stage.k);
    var loc := c.s.index[id];
    c' := c.(stage := Writing(c.stage.k + 1),
             temp := c.temp + Frame(Record(OP_PUT, id, c.s.file[loc.offset..loc.offset + loc.len])),
             newIndex := c.newIndex[id := BodyLoc(|c.temp| + FRAME_LEN + MIN_PAYLOAD, loc.len)]);
    CopyStep(c, c');
  }

  lemma BodyFits(s: Store, order: seq<u64>, k: nat)
    requires Valid(s) && IsOrder(order, s.index.Keys) && k < |order|
    ensures order[k] in s.index && s.index[order[k]].offset + s.index[order[k]].len <= |s.file|
  {
    hide Valid, LogOf, BodiesOf;
    assert order[k] in order;
    LiveBody(s, order[k]);
  }

  /** No step of a compaction can be stuck: whatever order the live ids are visited
      in, a run takes any sound store to the compacted one, with no rename pending. */
  lemma CompactionCompletes(s: Store, order: seq<u64>, formers: seq<Image>)
      returns (run: seq<System>, events: seq<Event>)
    requires Valid(s) && IsOrder(order, s.index.Keys)
    ensures IsOrder(order, BodiesOf(LogOf(s)).Keys)
    ensures IsRun(run, events) && |run| == |events| + 1
    ensures run[0] == Up(s, formers) && run[|events|] == Up(Compacted(s, order), [])
  {
    hide Valid, IsOrder, Copied, IsRun, Compacted;
    run, events := CopiesInTurn(s, order, formers, |order|);
    OrderOfBodies(s, order);
    var c := run[|events|];
    AllCopied(s, order, c.temp, c.newIndex);
    CopiedReplaces(s, order, c.temp, c.newIndex, formers);
    run, events := Finishes(run, events);
  }

  /** From the last copy on: force, rename, force the directory. */
  lemma Finishes(run: seq<System>, events: seq<Event>) returns (longer: seq<System>, more: seq<Event>)
    requires IsRun(run, events) && |run| == |events| + 1
    requires var c := run[|events|]; c.Compacting? && c.stage == Writing(|c.order|)
    ensures IsRun(longer, more) && |longer| == |more| + 1 && longer[0] == run[0]
    ensures var c := run[|events|]; longer[|more|] == Up(Swapped(c.s, c.temp, c.newIndex), [])
  {
    hide IsRun, Swapped;
    var c := run[|events|];
    longer, more := Then(run, events, CompactForce, c.(stage := Forced));
    longer, more := Then(longer, more, CompactRename,
                         Renamed(c.s, c.temp, c.newIndex, [Image(c.s.file, c.s.synced)] + c.formers));
    longer, more := Then(longer, more, CompactFinish, Up(Swapped(c.s, c.temp, c.newIndex), []));
  }

  lemma Then(run: seq<System>, events: seq<Event>, e: Event, c: System)
      returns (longer: seq<System>, more: seq<Event>)
    requires IsRun(run, events) && |run| == |events| + 1 && Step(run[|events|], e, c)
    ensures IsRun(longer, more) && |longer| == |more| + 1
    ensures longer == run + [c] && more == events + [e]
  {
    hide Step;
    OneMore(run, events, e, c);
    longer, more := run + [c], events + [e];
  }

  /** The documents are `docs`, numbered from 1. */
  ghost predicate Numbered(c: Docs, docs: seq<Document>) {
    forall id :: (id in c <==> 1 <= id <= |docs|) && (id in c ==> c[id] == Success(docs[id - 1]))
  }

  ghost predicate Inserts(events: seq<Event>, docs: seq<Document>) {
    |events| == |docs| && forall i :: 0 <= i < |docs| ==> events[i] == Do(Insertion(docs[i]))
  }

  /** Documents that fit can always be inserted, up to the last id: a run inserts
      them into a new store, which then holds each under its number. */
  lemma {:induction false} InsertsInTurn(docs: seq<Document>, policy: SyncPolicy)
      returns (run: seq<System>, events: seq<Event>)
    requires |docs| < MAX_ID && forall i :: 0 <= i < |docs| ==> WfDoc(docs[i]) && Accepts(docs[i])
    ensures IsRun(run, events) && Inserts(events, docs) && |run| == |docs| + 1
    ensures run[0] == NewSystem(policy) && run[|docs|].Up? && Counts(run[|docs|].s, docs)
  {
    hide WfDoc, Accepts, Counts, Step, IsRun, NewSystem, Numbered;
    var n := |docs|;
    if n == 0 {
      run, events := [NewSystem(policy)], [];
      NewIsEmpty(policy, docs);
      NoSteps(run);
    } else {
      run, events := InsertsInTurn(docs[..n - 1], policy);
      var c := run[n - 1];
      var c' := InsertOne(c, docs);
      run, events := Then(run, events, Do(Insertion(docs[n - 1])), c');
    }
  }

  lemma NoSteps(run: seq<System>)
    requires |run| == 1
    ensures IsRun(run, [])
  {}

  /** The store holds `docs`, numbered from 1, and nothing else. */
  ghost predicate Counts(s: Store, docs: seq<Document>) {
    Valid(s) && FreshIds(s) && s.nextId == |docs| + 1 && Numbered(Held(s), docs)
  }

  lemma InsertOne(c: System, docs: seq<Document>) returns (c': System)
    requires 0 < |docs| < MAX_ID && WfDoc(docs[|docs| - 1]) && Accepts(docs[|docs| - 1])
    requires c.Up? && Counts(c.s, docs[..|docs| - 1])
    ensures Step(c, Do(Insertion(docs[|docs| - 1])), c') && c'.Up? && Counts(c'.s, docs)
  {
    hide Valid, FreshIds, Held, WfDoc, Accepts, Insert, Step, Numbered;
    var doc := docs[|docs| - 1];
    InsertSpec(c.s, doc);
    InsertCounts(c.s, doc);
    NumberedSnoc(Held(c.s), docs);
    c' := Up(Insert(c.s, doc).0, c.formers);
    InsertIsStep(c, doc);
  }

  lemma InsertIsStep(c: System, doc: Document)
    requires c.Up? && WfDoc(doc) && c.s.nextId < MAX_ID
    ensures Step(c, Do(Insertion(doc)), Up(Insert(c.s, doc).0, c.formers))
  {
    hide WfDoc, Insert;
  }

  lemma NumberedSnoc(c: Docs, docs: seq<Document>)
    requires 0 < |docs| < MAX_ID && Numbered(c, docs[..|docs| - 1])
    ensures Numbered(c[|docs| := Success(docs[|docs| - 1])], docs)
  {}

  lemma InsertCounts(s: Store, doc: Document)
    requires s.nextId != MAX_ID && Accepts(doc)
    ensures Insert(s, doc).0.nextId == s.nextId + 1
  {
    hide Accepts;
  }

  lemma NewIsEmpty(policy: SyncPolicy, docs: seq<Document>)
    requires docs == []
    ensures NewSystem(policy).Up? && Counts(NewSystem(policy).s, docs)
  {
    NewStoreIsValid(policy);
    OpenIsValid([], 0, policy);
  }

  /** A running store takes every call, whatever state it is in. */
  lemma RunningTakesCalls(s: Store, formers: seq<Image>, field: seq<byte>, id: u64, doc: Document)
    ensures exists c' :: Step(Up(s, formers), FlushAll, c')
    ensures exists c' :: Step(Up(s, formers), AddIndex(field), c')
    ensures exists c' :: Step(Up(s, formers), RemoveIndex(field), c')
    ensures exists c' :: Step(Up(s, formers), Close, c')
    ensures exists c' :: Step(Up(s, formers), Do(Deletion(id)), c')
    ensures WfDoc(doc) ==> exists c' :: Step(Up(s, formers), Do(Replacement(id, doc)), c')
  {
    hide WfDoc, Flush, CreateIndex, DropIndex, Perform;
    var c := Up(s, formers);
    assert Step(c, FlushAll, Up(Flush(s), formers));
    assert Step(c, AddIndex(field), Up(CreateIndex(s, field), formers));
    assert Step(c, RemoveIndex(field), Up(DropIndex(s, field), formers));
    assert Step(c, Close, Down(s.file, if s.policy == Manual then |s.file| else s.synced, None, formers));
    assert Step(c, Do(Deletion(id)), Up(Perform(s, Deletion(id)), formers));
    if WfDoc(doc) {
      assert Step(c, Do(Replacement(id, doc)), Up(Perform(s, Replacement(id, doc)), formers));
    }
  }

  /** From any related state, in the middle of a compaction too, the process can die
      and the store can be opened again under either policy, with no operation lost. */
  lemma ServesAgain(c: System, a: Client, policy: SyncPolicy) returns (run: seq<System>, events: seq<Event>)
    requires Related(c, a)
    ensures IsRun(run, events) && |run| == |events| + 1 && run[0] == c
    ensures var last := run[|events|];
            last.Up? && last.s.policy == policy && Held(last.s) == AllRead(MapOf(a.hist))
  {
    hide IsRun, Step, Related, Held, AllRead, MapOf;
    run, events := [c], [];
    NoSteps(run);
    var down := c;
    if !c.Down? {
      down := Down(Images(c)[0].file, Images(c)[0].synced, None, c.formers);
      KillIsStep(c, down);
      SimulateKill(c, a, None, down);
      run, events := Then(run, events, Kill(None), down);
    }
    var up := ReopenIsStep(down, a, policy);
    run, events := Then(run, events, Reopen(policy), up);
  }

  lemma KillIsStep(c: System, c': System)
    requires !c.Down? && c' == Down(Images(c)[0].file, Images(c)[0].synced, None, c.formers)
    ensures Step(c, Kill(None), c')
  {}

  lemma ReopenIsStep(c: System, a: Client, policy: SyncPolicy) returns (c': System)
    requires c.Down? && Related(c, a)
    ensures Step(c, Reopen(policy), c')
    ensures c'.Up? && c'.s.policy == policy && Held(c'.s) == AllRead(MapOf(a.hist))
  {
    hide Open, Held, AllRead, MapOf, Recoverable, Running;
    SimulateReopen(c.file, c.synced, a, policy);
    var s := Open(c.file, c.synced, policy).value;
    c' := Up(s, c.formers);
    ReopenedServes(s, a.(policy := policy, gaps := map[], compacted := false));
  }

  lemma ReopenedServes(s: Store, a: Client)
    requires Running(s, a)
    ensures s.policy == a.policy && Held(s) == AllRead(MapOf(a.hist))
  {
    hide Tracks, Valid, Held, AllRead, MapOf;
    ClientHolds(s, a);
  }
}
