/** The store as a system that can lose power: the steps it takes between
    operations, inside an append and inside a compaction, and what a crash leaves
    for the next open. A crash keeps a prefix of the file no shorter than what was
    last forced to the device, and may undo a rename whose directory was not. */
module CrashMachine {
  import opened Bytes
  import opened Documents
  import opened Errors
  import opened Log
  import opened LogState
  import opened Contents
  import opened Store
  import opened Compaction
  import Maintenance

  /** The calls that append a record. */
  datatype Write = Insertion(doc: Document) | Replacement(id: u64, doc: Document) | Deletion(id: u64)

  function Perform(s: Store, w: Write): Store {
    match w
    case Insertion(doc) => Insert(s, doc).0
    case Replacement(id, doc) => Update(s, id, doc).0
    case Deletion(id) => Delete(s, id).0
  }

  /** What the source's types and the width of ids demand of a call. */
  ghost predicate Callable(s: Store, w: Write) {
    match w
    case Insertion(doc) => WfDoc(doc) && s.nextId != MAX_ID
    case Replacement(_, doc) => WfDoc(doc)
    case Deletion(_) => true
  }

  /** How far a compaction has come with its temporary file. */
  datatype Stage = Created | Writing(k: nat) | Forced

  /** A file's bytes and how many of them are on the device. */
  datatype Image = Image(file: seq<byte>, synced: nat)

  /** `formers` are the files the store's name stood for before renames that may
      not have reached the disk, the latest first. */
  datatype System =
    | Up(s: Store, formers: seq<Image>)
    | Compacting(s: Store, order: seq<u64>, stage: Stage, temp: seq<byte>, newIndex: Index, formers: seq<Image>)
    /** Renamed over the old name; the directory not yet forced. */
    | Renamed(s: Store, file: seq<byte>, newIndex: Index, formers: seq<Image>)
    /** Nothing runs; a temporary may lie beside the store's file. */
    | Down(file: seq<byte>, synced: nat, leftover: Option<seq<byte>>, formers: seq<Image>)

  datatype Event =
    | Do(w: Write)
    | FlushAll
    | AddIndex(field: seq<byte>)
    | RemoveIndex(field: seq<byte>)
    | CompactCreate(order: seq<u64>)
    | CompactHeader
    | CompactWrite
    | CompactForce
    | CompactRename
    | CompactFinish
    /** Power fails. The store's name leads to the file it stood for, or, if `name`
        is not 0, to the `name`-th of the former ones; `keep` bytes of that file are
        left, and anything at all under the temporary's name. */
    | PowerLoss(keep: nat, name: nat, leftover: Option<seq<byte>>)
    /** Power fails inside a write, before it could be forced. */
    | Interrupt(w: Write, keep: nat, name: nat)
    /** The process dies between operations or inside a compaction; the operating
        system does not. */
    | Kill(leftover: Option<seq<byte>>)
    /** The process dies inside a write that has made the file `len` bytes long. */
    | Die(w: Write, len: nat)
    /** A clean shutdown. */
    | Close
    | Reopen(policy: SyncPolicy)

  predicate KeepsForced(keep: nat, synced: nat, len: nat) {
    synced <= keep <= len
  }

  /** The files the store's name may lead to after a power failure. */
  function Images(c: System): seq<Image> {
    match c
    case Up(s, formers) => [Image(s.file, s.synced)] + formers
    case Compacting(s, _, _, _, _, formers) => [Image(s.file, s.synced)] + formers
    case Renamed(_, file, _, formers) => [Image(file, |file|)] + formers
    case Down(file, synced, _, formers) => [Image(file, synced)] + formers
  }

  /** The state a compaction takes up once the new file has the store's name. */
  function Swapped(s: Store, file: seq<byte>, newIndex: Index): Store {
    s.(file := file, synced := |file|, index := newIndex, tail := |file|)
  }

  ghost predicate Step(c: System, e: Event, c': System) {
    match e
    case Do(w) => c.Up? && Callable(c.s, w) && c' == Up(Perform(c.s, w), c.formers)
    case FlushAll => c.Up? && c' == Up(Flush(c.s), c.formers)
    case AddIndex(field) => c.Up? && c' == Up(CreateIndex(c.s, field), c.formers)
    case RemoveIndex(field) => c.Up? && c' == Up(DropIndex(c.s, field), c.formers)
    case CompactCreate(order) =>
      c.Up? && IsOrder(order, c.s.index.Keys) && c' == Compacting(c.s, order, Created, [], map[], c.formers)
    case CompactHeader =>
      c.Compacting? && c.stage == Created && c' == c.(stage := Writing(0), temp := FreshHeader())
    case CompactWrite => CopyOne(c, c')
    case CompactForce =>
      c.Compacting? && c.stage == Writing(|c.order|) && c' == c.(stage := Forced)
    case CompactRename =>
      c.Compacting? && c.stage == Forced &&
      c' == Renamed(c.s, c.temp, c.newIndex, [Image(c.s.file, c.s.synced)] + c.formers)
    case CompactFinish =>
      c.Renamed? && c' == Up(Swapped(c.s, c.file, c.newIndex), [])
    case PowerLoss(keep, name, leftover) => Cut(Images(c), keep, name, leftover, c')
    case Interrupt(w, keep, name) =>
      c.Up? && Callable(c.s, w) && Cut([Image(Perform(c.s, w).file, c.s.synced)] + c.formers, keep, name, None, c')
    case Kill(leftover) =>
      !c.Down? && c' == Down(Images(c)[0].file, Images(c)[0].synced, leftover, c.formers)
    case Die(w, len) =>
      c.Up? && Callable(c.s, w) && |c.s.file| <= len <= |Perform(c.s, w).file| &&
      c' == Down(Perform(c.s, w).file[..len], c.s.synced, None, c.formers)
    case Close =>
      c.Up? && c' == Down(c.s.file, if c.s.policy == Manual then |c.s.file| else c.s.synced, None, c.formers)
    case Reopen(policy) =>
      c.Down? && Open(c.file, c.synced, policy).Success? &&
      c' == Up(Open(c.file, c.synced, policy).value, if c.file == [] then [] else c.formers)
  }

  /** One turn of the compaction loop: read a live body, frame it, append it. */
  ghost predicate CopyOne(c: System, c': System) {
    && c.Compacting? && c.stage.Writing? && c.stage.k < |c.order|
    && c.order[c.stage.k] in c.s.index
    && var id := c.order[c.stage.k];
       var loc := c.s.index[id];
       && loc.offset + loc.len <= |c.s.file|
       && c' == c.(stage := Writing(c.stage.k + 1),
                   temp := c.temp + Frame(Record(OP_PUT, id, c.s.file[loc.offset..loc.offset + loc.len])),
                   newIndex := c.newIndex[id := BodyLoc(|c.temp| + FRAME_LEN + MIN_PAYLOAD, loc.len)])
  }

  /** What a power failure leaves: a prefix of one of the files, no shorter than
      what of it was on the device, and a directory with nothing pending. */
  ghost predicate Cut(images: seq<Image>, keep: nat, name: nat, leftover: Option<seq<byte>>, c': System) {
    && name < |images|
    && KeepsForced(keep, images[name].synced, |images[name].file|)
    && c' == Down(images[name].file[..keep], keep, leftover, [])
  }

  // ---- What a client sees -------------------------------------------------------------------

  datatype Op = Put(id: u64, doc: Document) | Del(id: u64)

  function Apply(m: map<u64, Document>, op: Op): map<u64, Document> {
    match op
    case Put(id, doc) => m[id := doc]
    case Del(id) => m - {id}
  }

  /** The documents after a history of operations. */
  function MapOf(hist: seq<Op>): map<u64, Document> {
    if hist == [] then map[] else Apply(MapOf(hist[..|hist| - 1]), hist[|hist| - 1])
  }

  /** Where a file's records begin: it was last written out afresh after the first
      `at` operations, when a reopening would have given `next` as the next id. */
  datatype Origin = Origin(at: nat, next: nat)

  /** One more than the largest of the ids, at least 1. */
  ghost function NextOver(ids: set<u64>): nat
    decreases |ids|
  {
    if ids == {} then 1
    else
      var id :| id in ids;
      Rise(NextOver(ids - {id}), id)
  }

  function Rise(next: nat, id: u64): nat {
    if id >= next then id + 1 else next
  }

  /** The next id a reopening gives: past every id an operation since the origin
      carries and past what the origin implied. */
  function NextAfter(hist: seq<Op>, origin: Origin): nat {
    if |hist| <= origin.at then origin.next
    else Rise(NextAfter(hist[..|hist| - 1], origin), hist[|hist| - 1].id)
  }

  /** What a file the name may fall back to holds: the first `issued` operations,
      of which exactly the first `certain` cannot be lost. */
  datatype Reach = Reach(certain: nat, issued: nat, origin: Origin)

  /** The client's view: the operations that took effect, how many of them survive
      a crash that undoes no rename, where the file's records begin, what the crash
      may fall back to if it does undo one, the policy in force, the ids each index
      leaves out, and whether a compaction has run since the last open. */
  datatype Client = Client(hist: seq<Op>, durable: nat, origin: Origin, formers: seq<Reach>, policy: SyncPolicy,
                           gaps: Gaps, compacted: bool)

  /** The next id a reopening gives as things stand. */
  function NextGiven(a: Client): nat {
    NextAfter(a.hist, a.origin)
  }

  /** What a write does to the history: nothing, or one operation at its end. An
      insert is given an id no live document has, and no record of the file: the one
      a reopening would give, unless a compaction has run since the last. */
  ghost predicate Writes(a: Client, w: Write, hist: seq<Op>) {
    var m := MapOf(a.hist);
    match w
    case Insertion(doc) =>
      if Accepts(doc) then exists id :: Assigns(a, id) && hist == a.hist + [Put(id, doc)] else hist == a.hist
    case Replacement(id, doc) =>
      if id in m && Accepts(doc) then hist == a.hist + [Put(id, doc)] else hist == a.hist
    case Deletion(id) =>
      if id in m then hist == a.hist + [Del(id)] else hist == a.hist
  }

  ghost predicate Assigns(a: Client, id: u64) {
    && id !in MapOf(a.hist) && id != MAX_ID
    && NextGiven(a) <= id && (!a.compacted ==> id == NextGiven(a))
  }

  /** What a write does to the gaps: one that takes effect closes those of its id;
      a live document's update by one too large opens one in every index. */
  function GapsAfter(a: Client, w: Write, hist: seq<Op>): Gaps {
    if |hist| > |a.hist| then GapsWithout(a.gaps, hist[|hist| - 1].id)
    else if w.Replacement? && w.id in MapOf(a.hist) then GapsWith(a.gaps, w.id)
    else a.gaps
  }

  /** What is left after a crash that leads the name to one of the files. */
  function Window(a: Client, name: nat): Reach
    requires name <= |a.formers|
  {
    if name == 0 then Reach(a.durable, |a.hist|, a.origin) else a.formers[name - 1]
  }

  /** A power failure loses operations from the end, but none that was certain in
      the file the name then leads to. */
  ghost predicate Falls(a: Client, name: nat, a': Client) {
    && name <= |a.formers|
    && Window(a, name).certain <= |a'.hist| <= Window(a, name).issued <= |a.hist|
    && a' == a.(hist := a.hist[..|a'.hist|], durable := |a'.hist|, origin := Window(a, name).origin, formers := [])
  }

  ghost predicate ClientStep(a: Client, e: Event, a': Client) {
    match e
    case Do(w) =>
      && Writes(a, w, a'.hist)
      && a' == a.(hist := a'.hist,
                  durable := if a'.hist != a.hist && a.policy == Always then |a'.hist| else a.durable,
                  gaps := GapsAfter(a, w, a'.hist))
    case FlushAll => a' == a.(durable := |a.hist|)
    case AddIndex(field) => a' == a.(gaps := Maintenance.GapsIndexed(a.gaps, field))
    case RemoveIndex(field) => a' == a.(gaps := a.gaps - {field})
    case CompactRename =>
      a' == a.(durable := |a.hist|, origin := Origin(|a.hist|, NextOver(MapOf(a.hist).Keys)),
               formers := [Reach(a.durable, |a.hist|, a.origin)] + a.formers)
    case CompactFinish => a' == a.(formers := [], compacted := true)
    case PowerLoss(_, name, _) => Falls(a, name, a')
    case Interrupt(w, _, name) => exists hist :: Writes(a, w, hist) && Falls(a.(hist := hist), name, a')
    case Die(w, _) => exists hist :: Writes(a, w, hist) && a.hist <= a'.hist <= hist && a' == a.(hist := a'.hist)
    case Close => a' == a.(durable := if a.policy == Manual then |a.hist| else a.durable)
    case Reopen(policy) => a' == a.(policy := policy, gaps := map[], compacted := false)
    case _ => a' == a
  }

  function AllRead(m: map<u64, Document>): Docs {
    map id | id in m :: Success(m[id])
  }

  // ---- How the two are related ----------------------------------------------------------------

  /** A crash could lose the last `t` records of the log. */
  ghost predicate Loseable(log: seq<Record>, synced: nat, t: nat) {
    t <= |log| && (t == 0 || HEADER_LEN + |Frames(log[..|log| - t + 1])| > synced)
  }

  /** Documents and next id of the log are those of the history. */
  ghost predicate Tells(log: seq<Record>, hist: seq<Op>, origin: Origin) {
    && DocsOf(log) == AllRead(MapOf(hist))
    && origin.at <= |hist| && NextIdOf(log) == NextAfter(hist, origin)
  }

  /** Losing the last `t` records is losing the last `t` operations. */
  ghost predicate TracksLast(log: seq<Record>, hist: seq<Op>, durable: nat, origin: Origin, t: nat) {
    && t <= |log| && durable + t <= |hist|
    && Tells(log[..|log| - t], hist[..|hist| - t], origin)
  }

  /** The records a crash could lose are the operations past the first `durable`. */
  ghost predicate Tracks(log: seq<Record>, synced: nat, hist: seq<Op>, durable: nat, origin: Origin) {
    && (forall t :: Loseable(log, synced, t) ==> TracksLast(log, hist, durable, origin, t))
    && durable <= |hist| && Loseable(log, synced, |hist| - durable)
  }

  ghost predicate NoMaxId(log: seq<Record>) {
    forall i :: 0 <= i < |log| ==> log[i].id != MAX_ID
  }

  ghost predicate Running(s: Store, a: Client) {
    && Valid(s) && FreshIds(s) && s.nextId >= 1
    && HEADER_LEN <= s.synced && s.policy == a.policy
    && Tracks(LogOf(s), s.synced, a.hist, a.durable, a.origin)
    && Maintenance.InStep(s, a.gaps)
    && (!a.compacted ==> s.nextId == NextIdOf(LogOf(s)))
  }

  /** The file is a clean log, `full`, cut off somewhere after its header. */
  ghost predicate TornLog(file: seq<byte>, full: seq<Record>) {
    && WfLog(full) && NoMaxId(full)
    && HEADER_LEN <= |file| <= HEADER_LEN + |Frames(full)|
    && file[HEADER_LEN..] == Frames(full)[..|file| - HEADER_LEN]
  }

  /** A file the next open recovers: a clean log cut off somewhere, holding the
      operations of `hist`, of which the first `durable` cannot be lost. */
  ghost predicate Recoverable(file: seq<byte>, synced: nat, hist: seq<Op>, durable: nat, origin: Origin) {
    && VerifyHeader(file) == Success(Unit) && HEADER_LEN <= synced <= |file|
    && (exists full :: TornLog(file, full))
    && ScanFrom(file, HEADER_LEN).Scanned?
    && Tracks(ScanFrom(file, HEADER_LEN).log, Min(synced, ScanFrom(file, HEADER_LEN).end), hist, durable, origin)
  }

  ghost predicate Reaches(image: Image, hist: seq<Op>, r: Reach) {
    r.issued <= |hist| && Recoverable(image.file, image.synced, hist[..r.issued], r.certain, r.origin)
  }

  /** Each former file holds what the client expects to fall back to. */
  ghost predicate FormersReach(formers: seq<Image>, hist: seq<Op>, reaches: seq<Reach>) {
    |formers| == |reaches| && forall k :: 0 <= k < |formers| ==> Reaches(formers[k], hist, reaches[k])
  }

  /** The temporary file and the new index after `k` ids. */
  ghost predicate Copied(s: Store, order: seq<u64>, stage: Stage, temp: seq<byte>, newIndex: Index) {
    && IsOrder(order, BodiesOf(LogOf(s)).Keys)
    && match stage
       case Created => temp == [] && newIndex == map[]
       case Writing(k) =>
         && k <= |order| && (forall id :: id in order[..k] ==> id in BodiesOf(LogOf(s)))
         && temp == CompactFile(BodiesOf(LogOf(s)), order[..k])
         && newIndex == IndexOf(CompactLog(BodiesOf(LogOf(s)), order[..k]))
       case Forced =>
         && temp == CompactFile(BodiesOf(LogOf(s)), order)
         && newIndex == IndexOf(CompactLog(BodiesOf(LogOf(s)), order))
  }

  /** The new file under the store's name is the complete compacted one, and a
      crash may still lead the name to the old one. */
  ghost predicate Replaced(s: Store, order: seq<u64>, file: seq<byte>, newIndex: Index, formers: seq<Image>) {
    && Valid(s) && IsOrder(order, BodiesOf(LogOf(s)).Keys)
    && Swapped(s, file, newIndex) == Compacted(s, order)
    && formers != [] && formers[0] == Image(s.file, s.synced)
  }

  ghost predicate Related(c: System, a: Client) {
    && FormersReach(c.formers, a.hist, a.formers)
    && match c
       case Up(s, _) => Running(s, a)
       case Compacting(s, order, stage, temp, newIndex, _) => Running(s, a) && Copied(s, order, stage, temp, newIndex)
       case Renamed(s, file, newIndex, formers) =>
         && Running(Swapped(s, file, newIndex), a.(compacted := true)) && a.durable == |a.hist|
         && exists order :: Replaced(s, order, file, newIndex, formers)
       case Down(file, synced, _, _) => Recoverable(file, synced, a.hist, a.durable, a.origin)
  }
}
