/** The whole life of a segment: opening, writing, sealing, crashing, recovering, archiving,
    retention, rehydration, eviction and import, as a machine whose steps may stop anywhere. */
module Lifecycle {
  import opened Text
  import opened Events
  import opened SegmentIds
  import opened SegmentCatalog
  import opened DataDir
  import opened Slots
  import opened RetentionPolicy

  datatype Config = Config(window: int, grace: int, pq: Parquet, policy: Policy)

  predicate ValidConfig(cfg: Config) {
    cfg.window > 0 && cfg.window % MINUTE == 0 && cfg.grace > 0
  }

  /** flushed is the history of rows written to an id; up tells a running process from one that
      crashed and has not finished recovering. */
  datatype World = World(slots: map<string, Slot>, flushed: map<string, File>, clock: int, up: bool)

  function At(w: World, id: string): Slot {
    if id in w.slots then w.slots[id] else EMPTY_SLOT
  }

  function Flushed(w: World, id: string): File {
    if id in w.flushed then w.flushed[id] else []
  }

  function With(w: World, id: string, s: Slot): World {
    w.(slots := w.slots[id := s])
  }

  /** What the manifest uploaded with an imported file says of it, and when it is to go. */
  datatype Uploaded = Uploaded(timeStart: int, timeEnd: int, rowCount: int, sizeBytes: int, parquetSha: string,
                               evictAfter: Option<int>)

  datatype Op =
    | Tick(now: int)
    | Open(steps: nat)
    | Write(id: string, rows: File)
    | Seal(id: string, steps: nat, torn: File, crash: bool)
    | Crashed
    | Repair(id: string)
    | Start
    | Archive(id: string, steps: nat, u: ArchiveUpdate)
    | ArchiveThenDelete(id: string, steps: nat, u: ArchiveUpdate)
    | Drop(id: string, steps: nat)
    | Rehydrate(id: string, steps: nat, fetched: RehydrateUpdate)
    | Evict(id: string, steps: nat)
    | Import(id: string, rows: File, steps: nat, uploaded: Uploaded, refused: bool)

  // ----------------------------------------------------------- steps on one slot

  function RowUpdated(s: Slot, r: Row): Slot {
    s.(row := Some(r))
  }

  const STORED := 1
  const COMMITTED := 2
  const ARCHIVED := 3

  /** The remote copy is complete, then its manifest commits it, then the row says so. */
  function ArchivePrefix(s: Slot, steps: nat, u: ArchiveUpdate, now: int): Slot
    requires s.row.Some?
  {
    if steps == 0 then s
    else if steps == STORED then s.(remote := s.sealed)
    else if steps == COMMITTED then s.(remote := s.sealed, committed := true)
    else RowUpdated(s.(remote := s.sealed, committed := true), ArchivedRow(s.row.value, u, now))
  }

  function RemoveLocal(s: Slot): Slot
    requires s.row.Some?
  {
    match s.row.value.localPath
    case Some(InSealed(_)) => s.(sealed := None)
    case Some(InRehydrated(_)) => s.(rehydrated := None)
    case Some(InActive(_)) => s.(active := None)
    case Some(InTmp(_)) => s.(tmp := None)
    case Some(InOrphans(_)) => s.(orphan := None)
    case None => s
  }

  /** Removing the local file, then clearing the row's path. */
  function DropPrefix(s: Slot, steps: nat, next: State): Slot
    requires s.row.Some?
  {
    if steps == 0 then s
    else if steps == 1 then RemoveLocal(s)
    else RowUpdated(RemoveLocal(s), ClearedRow(s.row.value, next))
  }

  function ArchiveThenDeletePrefix(s: Slot, steps: nat, u: ArchiveUpdate, now: int): Slot
    requires s.row.Some?
  {
    if steps <= ARCHIVED then ArchivePrefix(s, steps, u, now)
    else DropPrefix(ArchivePrefix(s, ARCHIVED, u, now), steps - ARCHIVED, Archived)
  }

  /** A rehydrated segment whose file is there only gets a new expiry; any other is fetched, and then
      its row is updated from the manifest. */
  function RehydratePrefix(s: Slot, id: string, steps: nat, u: RehydrateUpdate, now: int): Slot
    requires s.row.Some? && s.remote.Some?
  {
    if steps == 0 then s
    else if s.row.value.state == Rehydrated && LocalFile(s).Some? then
      RowUpdated(s, s.row.value.(evictAfter := u.evictAfter))
    else if steps == 1 then s.(rehydrated := s.remote)
    else RowUpdated(s.(rehydrated := s.remote), RehydratedRow(s.row.value, u, now))
  }

  /** Eviction falls back to the archive when there is one. */
  function EvictPrefix(s: Slot, steps: nat): Slot
    requires s.row.Some?
  {
    DropPrefix(s, steps, if s.row.value.Referenced() then Archived else Lost)
  }

  /** The uploaded file is moved in, then its row is inserted; if the catalog refuses, the file is
      removed again. */
  function ImportPrefix(s: Slot, id: string, rows: File, steps: nat, u: Uploaded, refused: bool, now: int): Slot {
    if steps == 0 then s
    else if steps == 1 then s.(rehydrated := Some(rows))
    else if refused then s.(rehydrated := None)
    else
      s.(rehydrated := Some(rows),
         row := Some(ImportedRow(u.timeStart, u.timeEnd, u.rowCount, u.sizeBytes, InRehydrated(id), u.parquetSha,
                                 u.evictAfter, now)))
  }

  /** What a finished import leaves: the file, and a row with what its manifest says and no reference. */
  lemma ImportRecords(s: Slot, id: string, rows: File, steps: nat, u: Uploaded, now: int)
    requires steps >= 2
    ensures var t := ImportPrefix(s, id, rows, steps, u, false, now);
            t == s.(rehydrated := Some(rows), row := t.row) && t.row.Some? &&
            var r := t.row.value;
            r.state == Rehydrated && !r.Referenced() && r.localPath == Some(InRehydrated(id)) &&
            r.timeStart == u.timeStart && r.timeEnd == u.timeEnd && r.rowCount == u.rowCount &&
            r.sizeBytes == u.sizeBytes && (u.parquetSha != "" ==> r.parquetSha == Some(u.parquetSha)) &&
            r.rehydratedAt == Some(now) && r.evictAfter == u.evictAfter
  {
  }

  // --------------------------------------------------------------- the machine

  /** The window of the id ended at least the grace period ago. */
  predicate Closed(cfg: Config, id: string, clock: int) {
    ParseSegmentID(id).Some? && ParseSegmentID(id).value + cfg.window <= clock - cfg.grace
  }

  function CurrentID(cfg: Config, clock: int): string
    requires cfg.window > 0
  {
    SegmentID(clock, cfg.window)
  }

  predicate Settled(w: World) {
    forall id | id in w.slots && ParseSegmentID(id).Some? :: NextRemedy(w.slots[id]) == NothingToDo
  }

  /** When each operation is taken. The clock does not go back, file removals succeed (a seal that
      got as far as the catalog update either removes the active file or the process dies), and a
      dead process does nothing but recover. */
  predicate Legal(cfg: Config, w: World, op: Op) {
    ValidConfig(cfg) &&
    match op
    case Tick(now) => now >= w.clock
    case Open(_) => w.up && InCalendar(WindowStart(w.clock, cfg.window))
    case Write(id, _) => w.up && At(w, id).open
    case Seal(id, steps, _, crash) => w.up && At(w, id).open && Closed(cfg, id, w.clock) && (steps == MARKED ==> crash)
    case Crashed => true
    case Repair(id) => !w.up && ParseSegmentID(id).Some?
    case Start => !w.up && Settled(w)
    case Archive(id, _, _) => w.up && Archivable(At(w, id), id)
    case ArchiveThenDelete(id, _, _) =>
      w.up && Archivable(At(w, id), id) && Decide(cfg.policy, At(w, id).row.value).0 == ArchiveFirst
    case Drop(id, _) => w.up && Local(At(w, id)) && Decide(cfg.policy, At(w, id).row.value).0 == Delete
    case Rehydrate(id, _, u) =>
      w.up && At(w, id).row.Some? && At(w, id).remote.Some? && At(w, id).committed && u.localPath == InRehydrated(id)
    case Evict(id, _) => w.up && At(w, id).row.Some? && At(w, id).row.value.state == Rehydrated
    case Import(id, _, _, _, _) => w.up && At(w, id).row.None?
  }

  predicate Archivable(s: Slot, id: string) {
    s.row.Some? && s.row.value.state == Sealed && s.row.value.localPath == Some(InSealed(id)) && s.sealed.Some?
  }

  predicate Local(s: Slot) {
    s.row.Some? && s.row.value.localPath.Some? && s.row.value.state in {Sealed, Archived, Rehydrated}
  }

  function Die(w: World): World {
    w.(slots := map id | id in w.slots :: Crash(w.slots[id]), up := false)
  }

  function Boot(w: World): World {
    w.(slots := map id | id in w.slots ::
         w.slots[id].(open := ParseSegmentID(id).Some? && w.slots[id].active.Some?), up := true)
  }

  function Apply(cfg: Config, w: World, op: Op): World
    requires Legal(cfg, w, op)
  {
    match op
    case Tick(now) => w.(clock := now)
    case Open(steps) =>
      IdReadsBack(w.clock, cfg.window);
      var id := CurrentID(cfg, w.clock);
      With(w, id, OpenPrefix(At(w, id), id, cfg.window, steps))
    case Write(id, rows) => With(w, id, WriteSlot(At(w, id), rows)).(flushed := w.flushed[id := Flushed(w, id) + rows])
    case Seal(id, steps, torn, crash) =>
      var s := At(w, id);
      var sealed := With(w, id, if s.active.Some? then SealPrefix(s, id, cfg.pq, steps, torn, w.clock) else s);
      if crash then Die(sealed) else sealed
    case Crashed => Die(w)
    case Repair(id) => With(w, id, RecoverStep(At(w, id), id, cfg.window, cfg.pq, w.clock))
    case Start => Boot(w)
    case Archive(id, steps, u) => With(w, id, ArchivePrefix(At(w, id), steps, u, w.clock))
    case ArchiveThenDelete(id, steps, u) => With(w, id, ArchiveThenDeletePrefix(At(w, id), steps, u, w.clock))
    case Drop(id, steps) => With(w, id, DropPrefix(At(w, id), steps, Decide(cfg.policy, At(w, id).row.value).1))
    case Rehydrate(id, steps, u) => With(w, id, RehydratePrefix(At(w, id), id, steps, u, w.clock))
    case Evict(id, steps) => With(w, id, EvictPrefix(At(w, id), steps))
    case Import(id, rows, steps, u, refused) =>
      With(w, id, ImportPrefix(At(w, id), id, rows, steps, u, refused, w.clock))
  }

  /** A run that keeps to the rules. */
  predicate LegalRun(cfg: Config, w: World, ops: seq<Op>)
    decreases |ops|
  {
    ops == [] || (Legal(cfg, w, ops[0]) && LegalRun(cfg, Apply(cfg, w, ops[0]), ops[1..]))
  }

  function RunOps(cfg: Config, w: World, ops: seq<Op>): World
    requires LegalRun(cfg, w, ops)
    decreases |ops|
  {
    if ops == [] then w else RunOps(cfg, Apply(cfg, w, ops[0]), ops[1..])
  }

  const FRESH := World(map[], map[], 0, true)

  // ------------------------------------------------------------- the invariant

  predicate RowInv(s: Slot, id: string, closed: bool, up: bool) {
    (s.open ==> s.row.Some?) &&
    (s.row.Some? ==>
      var r := s.row.value;
      (r.Referenced() ==> r.state in {Archived, Rehydrated} && s.remote.Some? && s.committed) &&
      (r.state == Sealed ==> closed && !s.open && (s.active.Some? ==> !up && s.sealed.Some?)) &&
      (r.state in {Sealed, Archived} ==> r.localPath in {None, Some(InSealed(id))}) &&
      (r.state == Rehydrated ==> r.localPath in {None, Some(InRehydrated(id))}) &&
      (r.state == Archived && r.localPath.Some? ==> s.remote.Some? && s.committed))
  }

  /** Every active, sealed, orphaned or remote copy of a segment holds exactly the rows written to
      it; finished copies exist only for closed windows that are not open, and a remote one only
      beside no active file. */
  predicate FileInv(s: Slot, id: string, f: File, closed: bool, up: bool) {
    (s.active.Some? ==> SameRows(s.active, f) && ParseSegmentID(id).Some?) &&
    (s.sealed.Some? ==> SameRows(s.sealed, f) && closed && !s.open) &&
    (s.orphan.Some? ==> SameRows(s.orphan, f) && closed && s.active.None?) &&
    (s.remote.Some? ==> SameRows(s.remote, f) && closed && !s.open && s.active.None?) &&
    (s.committed ==> s.remote.Some?) &&
    (s.open ==> s.active.Some? && up) &&
    (f != [] && !closed ==> s.active.Some?)
  }

  /** The file a referenced row was rehydrated to holds what was archived; the file of an imported
      segment is whatever was uploaded. */
  predicate FetchedInv(s: Slot, id: string, f: File) {
    s.row.Some? && s.row.value.Referenced() && s.row.value.localPath == Some(InRehydrated(id)) && s.rehydrated.Some? ==>
      SameRows(s.rehydrated, f)
  }

  /** The hash recorded for a sealed segment, if any, is that of its file. */
  predicate HashInv(pq: Parquet, s: Slot) {
    s.row.Some? && s.row.value.state == Sealed && s.sealed.Some? ==>
      s.row.value.parquetSha in {None, Some(pq.sum(pq.encode(s.sealed.value)))}
  }

  /** With archive-before-delete and a backend, nothing written is ever without a copy. */
  predicate KeptInv(cfg: Config, s: Slot, f: File) {
    cfg.policy.archiveBeforeDelete && cfg.policy.backendActive && f != [] ==>
      s.active.Some? || s.sealed.Some? || (s.remote.Some? && s.committed)
  }

  predicate SlotInv(cfg: Config, s: Slot, id: string, f: File, clock: int, up: bool) {
    RowInv(s, id, Closed(cfg, id, clock), up) && FileInv(s, id, f, Closed(cfg, id, clock), up) &&
    FetchedInv(s, id, f) && HashInv(cfg.pq, s) && KeptInv(cfg, s, f)
  }

  /** An archive reference recorded in the row is still there. */
  predicate ReferencesKept(s: Slot, t: Slot) {
    s.row.Some? && s.row.value.Referenced() ==> t.row.Some? && KeepsReference(s.row.value, t.row.value)
  }

  ghost predicate Inv(cfg: Config, w: World) {
    forall id :: SlotInv(cfg, At(w, id), id, Flushed(w, id), w.clock, w.up)
  }

  // --------------------------------------------------------- every step keeps it

  lemma TickKeeps(cfg: Config, s: Slot, id: string, f: File, clock: int, now: int, up: bool)
    requires SlotInv(cfg, s, id, f, clock, up) && now >= clock
    ensures SlotInv(cfg, s, id, f, now, up)
  {
    hide SameRows, ParseSegmentID;
  }

  lemma OpenKeeps(cfg: Config, s: Slot, f: File, clock: int, steps: nat)
    requires ValidConfig(cfg) && InCalendar(WindowStart(clock, cfg.window))
    requires ParseSegmentID(CurrentID(cfg, clock)).Some?
    requires SlotInv(cfg, s, CurrentID(cfg, clock), f, clock, true)
    ensures SlotInv(cfg, OpenPrefix(s, CurrentID(cfg, clock), cfg.window, steps), CurrentID(cfg, clock), f, clock, true)
    ensures ReferencesKept(s, OpenPrefix(s, CurrentID(cfg, clock), cfg.window, steps))
  {
    hide ParseSegmentID, SegmentID, InCalendar;
    IdReadsBack(clock, cfg.window);
    assert !Closed(cfg, CurrentID(cfg, clock), clock);
  }

  lemma WriteKeeps(cfg: Config, s: Slot, id: string, f: File, clock: int, rows: File)
    requires SlotInv(cfg, s, id, f, clock, true) && s.open
    ensures SlotInv(cfg, WriteSlot(s, rows), id, f + rows, clock, true)
    ensures ReferencesKept(s, WriteSlot(s, rows))
  {
    hide ParseSegmentID;
  }

  lemma SealKeeps(cfg: Config, s: Slot, id: string, f: File, clock: int, steps: nat, torn: File, up: bool)
    requires SlotInv(cfg, s, id, f, clock, true) && s.open && Closed(cfg, id, clock)
    requires steps == MARKED ==> !up
    ensures SlotInv(cfg, SealPrefix(s, id, cfg.pq, steps, torn, clock), id, f, clock, up)
    ensures ReferencesKept(s, SealPrefix(s, id, cfg.pq, steps, torn, clock))
  {
    hide ParseSegmentID, Closed, SameRows, Export, SealUpdate;
    OpenHasFile(cfg, s, id, f, clock);
    ExportHasRows(s.active.value, f);
    if s.active.value != [] {
      SealedRowIs(s, id, cfg.pq, clock);
    }
  }

  lemma ExportHasRows(rows: File, f: File)
    requires SameRows(Some(rows), f)
    ensures SameRows(Some(Export(rows)), f) && (rows == [] <==> f == [])
  {
    ExportKeepsRows(rows);
    SameRowsEmpty(rows, f);
  }

  lemma SealedRowIs(s: Slot, id: string, pq: Parquet, now: int)
    requires s.active.Some? && s.active.value != []
    ensures SealUpdate(s.active.value, id, pq).localPath == InSealed(id)
    ensures SealUpdate(s.active.value, id, pq).parquetSha == pq.sum(pq.encode(Export(s.active.value)))
  {
    hide MinTime, MaxTime, Export;
  }

  lemma SameRowsEmpty(a: File, b: File)
    requires multiset(a) == multiset(b)
    ensures a == [] <==> b == []
  {
    if a != [] {
      assert a[0] in multiset(b);
    }
    if b != [] {
      assert b[0] in multiset(a);
    }
  }

  lemma CrashKeeps(cfg: Config, s: Slot, id: string, f: File, clock: int, up: bool)
    requires SlotInv(cfg, s, id, f, clock, up)
    ensures SlotInv(cfg, Crash(s), id, f, clock, false)
  {
    hide SameRows, Closed, ParseSegmentID;
  }

  lemma RepairKeeps(cfg: Config, s: Slot, id: string, f: File, clock: int)
    requires SlotInv(cfg, s, id, f, clock, false) && ParseSegmentID(id).Some?
    ensures SlotInv(cfg, RecoverStep(s, id, cfg.window, cfg.pq, clock), id, f, clock, false)
    ensures ReferencesKept(s, RecoverStep(s, id, cfg.window, cfg.pq, clock))
  {
    hide SameRows, Closed, ParseSegmentID, MinTime, MaxTime;
  }

  lemma StartKeeps(cfg: Config, s: Slot, id: string, f: File, clock: int)
    requires SlotInv(cfg, s, id, f, clock, false) && (ParseSegmentID(id).Some? ==> NextRemedy(s) == NothingToDo)
    ensures SlotInv(cfg, s.(open := ParseSegmentID(id).Some? && s.active.Some?), id, f, clock, true)
  {
    hide SameRows, Closed, ParseSegmentID;
  }

  lemma ArchiveKeeps(cfg: Config, s: Slot, id: string, f: File, clock: int, steps: nat, u: ArchiveUpdate)
    requires SlotInv(cfg, s, id, f, clock, true) && Archivable(s, id)
    ensures SlotInv(cfg, ArchivePrefix(s, steps, u, clock), id, f, clock, true)
    ensures SlotInv(cfg, ArchiveThenDeletePrefix(s, steps, u, clock), id, f, clock, true)
    ensures ReferencesKept(s, ArchivePrefix(s, steps, u, clock))
    ensures ReferencesKept(s, ArchiveThenDeletePrefix(s, steps, u, clock))
  {
    hide SameRows, Closed, ParseSegmentID;
  }

  lemma DropKeeps(cfg: Config, s: Slot, id: string, f: File, clock: int, steps: nat)
    requires SlotInv(cfg, s, id, f, clock, true) && Local(s) && Decide(cfg.policy, s.row.value).0 == Delete
    ensures SlotInv(cfg, DropPrefix(s, steps, Decide(cfg.policy, s.row.value).1), id, f, clock, true)
    ensures ReferencesKept(s, DropPrefix(s, steps, Decide(cfg.policy, s.row.value).1))
  {
    hide ParseSegmentID, KeptInv;
    if s.row.value.state == Sealed {
      DropSealedKeeps(cfg, s, id, f, clock, steps);
    } else {
      CopiesOutlast(cfg, s, id, f, clock, steps);
    }
  }

  /** A sealed segment is dropped without an archive only if the policy says so. */
  lemma DropSealedKeeps(cfg: Config, s: Slot, id: string, f: File, clock: int, steps: nat)
    requires SlotInv(cfg, s, id, f, clock, true) && Local(s) && s.row.value.state == Sealed &&
             Decide(cfg.policy, s.row.value).0 == Delete
    ensures SlotInv(cfg, DropPrefix(s, steps, Lost), id, f, clock, true)
  {
    hide SameRows, Closed, ParseSegmentID;
  }

  lemma CopiesOutlast(cfg: Config, s: Slot, id: string, f: File, clock: int, steps: nat)
    requires SlotInv(cfg, s, id, f, clock, true) && Local(s) && s.row.value.state in {Archived, Rehydrated}
    ensures SlotInv(cfg, DropPrefix(s, steps, Archived), id, f, clock, true)
  {
    hide SameRows, Closed, ParseSegmentID;
  }

  lemma RehydrateKeeps(cfg: Config, s: Slot, id: string, f: File, clock: int, steps: nat, u: RehydrateUpdate)
    requires SlotInv(cfg, s, id, f, clock, true) && s.row.Some? && s.remote.Some? && s.committed &&
             u.localPath == InRehydrated(id)
    ensures SlotInv(cfg, RehydratePrefix(s, id, steps, u, clock), id, f, clock, true)
    ensures ReferencesKept(s, RehydratePrefix(s, id, steps, u, clock))
  {
    hide SameRows, Closed, ParseSegmentID;
  }

  lemma EvictKeeps(cfg: Config, s: Slot, id: string, f: File, clock: int, steps: nat)
    requires SlotInv(cfg, s, id, f, clock, true) && s.row.Some? && s.row.value.state == Rehydrated
    ensures SlotInv(cfg, EvictPrefix(s, steps), id, f, clock, true)
    ensures ReferencesKept(s, EvictPrefix(s, steps))
  {
    hide SameRows, Closed, ParseSegmentID;
  }

  lemma ImportKeeps(cfg: Config, s: Slot, id: string, f: File, clock: int, rows: File, steps: nat, u: Uploaded,
                    refused: bool)
    requires SlotInv(cfg, s, id, f, clock, true) && s.row.None?
    ensures SlotInv(cfg, ImportPrefix(s, id, rows, steps, u, refused, clock), id, f, clock, true)
    ensures ReferencesKept(s, ImportPrefix(s, id, rows, steps, u, refused, clock))
  {
    hide SameRows, Closed, ParseSegmentID, MinTime, MaxTime;
  }

  /** The invariant survives every legal operation. */
  lemma StepKeeps(cfg: Config, w: World, op: Op)
    requires Legal(cfg, w, op) && Inv(cfg, w)
    ensures Inv(cfg, Apply(cfg, w, op))
  {
    hide SlotInv, ParseSegmentID, SegmentID, InCalendar, OpenPrefix, SealPrefix, RecoverStep, ArchivePrefix,
         ArchiveThenDeletePrefix, DropPrefix, RehydratePrefix, EvictPrefix, ImportPrefix, NextRemedy, Decide, WriteSlot;
    var v := Apply(cfg, w, op);
    forall id ensures SlotInv(cfg, At(v, id), id, Flushed(v, id), v.clock, v.up) {
      assert SlotInv(cfg, At(w, id), id, Flushed(w, id), w.clock, w.up);
      SlotStepKeeps(cfg, w, op, id);
    }
  }

  lemma SlotStepKeeps(cfg: Config, w: World, op: Op, id: string)
    requires Legal(cfg, w, op) && SlotInv(cfg, At(w, id), id, Flushed(w, id), w.clock, w.up)
    ensures var v := Apply(cfg, w, op); SlotInv(cfg, At(v, id), id, Flushed(v, id), v.clock, v.up)
    ensures ReferencesKept(At(w, id), At(Apply(cfg, w, op), id))
  {
    hide SlotInv, ParseSegmentID, SegmentID, InCalendar, OpenPrefix, SealPrefix, RecoverStep, ArchivePrefix,
         ArchiveThenDeletePrefix, DropPrefix, RehydratePrefix, EvictPrefix, ImportPrefix, NextRemedy, Decide, WriteSlot;
    var s, f := At(w, id), Flushed(w, id);
    match op
    case Tick(now) => TickKeeps(cfg, s, id, f, w.clock, now, w.up);
    case Open(steps) =>
      IdReadsBack(w.clock, cfg.window);
      if id == CurrentID(cfg, w.clock) {
        OpenKeeps(cfg, s, f, w.clock, steps);
      }
    case Write(id', rows) =>
      if id == id' {
        WriteKeeps(cfg, s, id, f, w.clock, rows);
      }
    case Seal(id', steps, torn, crash) => SealStepKeeps(cfg, w, id', steps, torn, crash, id);
    case Crashed => DeathKeeps(cfg, w, id);
    case Repair(id') =>
      if id == id' {
        RepairKeeps(cfg, s, id, f, w.clock);
      }
    case Start =>
      if id in w.slots {
        StartKeeps(cfg, s, id, f, w.clock);
      } else {
        EmptyKeeps(cfg, id, f, w.clock, false, true);
      }
    case Archive(id', steps, u) =>
      if id == id' {
        ArchiveKeeps(cfg, s, id, f, w.clock, steps, u);
      }
    case ArchiveThenDelete(id', steps, u) =>
      if id == id' {
        ArchiveKeeps(cfg, s, id, f, w.clock, steps, u);
      }
    case Drop(id', steps) =>
      if id == id' {
        DropKeeps(cfg, s, id, f, w.clock, steps);
      }
    case Rehydrate(id', steps, u) =>
      if id == id' {
        RehydrateKeeps(cfg, s, id, f, w.clock, steps, u);
      }
    case Evict(id', steps) =>
      if id == id' {
        EvictKeeps(cfg, s, id, f, w.clock, steps);
      }
    case Import(id', rows, steps, u, refused) =>
      if id == id' {
        ImportKeeps(cfg, s, id, f, w.clock, rows, steps, u, refused);
      }
  }

  lemma EmptyKeeps(cfg: Config, id: string, f: File, clock: int, up: bool, up': bool)
    requires SlotInv(cfg, EMPTY_SLOT, id, f, clock, up)
    ensures SlotInv(cfg, EMPTY_SLOT, id, f, clock, up')
  {
    hide ParseSegmentID;
  }

  lemma DeathKeeps(cfg: Config, w: World, id: string)
    requires SlotInv(cfg, At(w, id), id, Flushed(w, id), w.clock, w.up)
    ensures SlotInv(cfg, At(Die(w), id), id, Flushed(w, id), w.clock, false)
  {
    hide SlotInv;
    CrashKeeps(cfg, At(w, id), id, Flushed(w, id), w.clock, w.up);
  }

  lemma SealStepKeeps(cfg: Config, w: World, target: string, steps: nat, torn: File, crash: bool, id: string)
    requires Legal(cfg, w, Seal(target, steps, torn, crash)) &&
             SlotInv(cfg, At(w, id), id, Flushed(w, id), w.clock, w.up)
    ensures var v := Apply(cfg, w, Seal(target, steps, torn, crash));
            SlotInv(cfg, At(v, id), id, Flushed(v, id), v.clock, v.up)
    ensures ReferencesKept(At(w, id), At(Apply(cfg, w, Seal(target, steps, torn, crash)), id))
  {
    hide SlotInv, ParseSegmentID, SealPrefix;
    var s, f := At(w, id), Flushed(w, id);
    if id == target {
      OpenHasFile(cfg, s, id, f, w.clock);
      SealKeeps(cfg, s, id, f, w.clock, steps, torn, !crash);
      if crash {
        CrashKeeps(cfg, SealPrefix(s, id, cfg.pq, steps, torn, w.clock), id, f, w.clock, false);
      }
    } else if crash {
      CrashKeeps(cfg, s, id, f, w.clock, w.up);
    }
  }

  lemma OpenHasFile(cfg: Config, s: Slot, id: string, f: File, clock: int)
    requires SlotInv(cfg, s, id, f, clock, true) && s.open
    ensures s.active.Some?
  {
    hide SameRows, Closed, ParseSegmentID;
  }

  lemma {:induction false} RunKeeps(cfg: Config, w: World, ops: seq<Op>)
    requires LegalRun(cfg, w, ops) && Inv(cfg, w)
    ensures Inv(cfg, RunOps(cfg, w, ops))
    decreases |ops|
  {
    hide Inv, Legal, Apply;
    if ops != [] {
      StepKeeps(cfg, w, ops[0]);
      RunKeeps(cfg, Apply(cfg, w, ops[0]), ops[1..]);
    }
  }

  lemma FreshIsFine(cfg: Config)
    ensures Inv(cfg, FRESH)
  {
    hide ParseSegmentID;
  }

  // -------------------------------------------------------------- main theorems

  /** Over every run: every active, sealed, orphaned or remote copy of a segment is whole; a row that
      points at an archive is archived or rehydrated, never lost, with all rows ever written in the
      committed remote copy; and the file it was rehydrated to is whole or gone. */
  lemma CopiesAreWhole(cfg: Config, ops: seq<Op>, id: string)
    requires LegalRun(cfg, FRESH, ops)
    ensures var w := RunOps(cfg, FRESH, ops); var s := At(w, id); var f := Flushed(w, id);
            (s.active.Some? ==> SameRows(s.active, f)) && (s.sealed.Some? ==> SameRows(s.sealed, f)) &&
            (s.orphan.Some? ==> SameRows(s.orphan, f)) && (s.remote.Some? ==> SameRows(s.remote, f)) &&
            (s.row.Some? && s.row.value.Referenced() ==>
              s.row.value.state in {Archived, Rehydrated} && SameRows(s.remote, f) && s.committed &&
              (s.row.value.localPath == Some(InRehydrated(id)) ==> s.rehydrated.None? || SameRows(s.rehydrated, f)))
  {
    hide ParseSegmentID, RunOps, LegalRun;
    FreshIsFine(cfg);
    RunKeeps(cfg, FRESH, ops);
    assert SlotInv(cfg, At(RunOps(cfg, FRESH, ops), id), id, Flushed(RunOps(cfg, FRESH, ops), id),
                   RunOps(cfg, FRESH, ops).clock, RunOps(cfg, FRESH, ops).up);
  }

  /** Over every run: what is recorded for a sealed segment is the hash of its file, so archiving it
      always has an honest hash to compare with. */
  lemma SealedHashesAreHonest(cfg: Config, ops: seq<Op>, id: string)
    requires LegalRun(cfg, FRESH, ops)
    ensures var s := At(RunOps(cfg, FRESH, ops), id);
            s.row.Some? && s.row.value.state == Sealed && s.row.value.localPath.Some? ==>
              s.row.value.localPath == Some(InSealed(id)) && HashInv(cfg.pq, s)
  {
    hide ParseSegmentID, RunOps, LegalRun, HashInv;
    FreshIsFine(cfg);
    RunKeeps(cfg, FRESH, ops);
    var w := RunOps(cfg, FRESH, ops);
    assert SlotInv(cfg, At(w, id), id, Flushed(w, id), w.clock, w.up);
  }

  /** Over every run with archive-before-delete and a working backend: all rows written to a
      segment stay in its active file, its sealed file or the archive. */
  lemma NothingWrittenIsLost(cfg: Config, ops: seq<Op>, id: string)
    requires LegalRun(cfg, FRESH, ops) && cfg.policy.archiveBeforeDelete && cfg.policy.backendActive
    requires Flushed(RunOps(cfg, FRESH, ops), id) != []
    ensures var w := RunOps(cfg, FRESH, ops); var s := At(w, id);
            SameRows(s.active, Flushed(w, id)) || SameRows(s.sealed, Flushed(w, id)) ||
            (SameRows(s.remote, Flushed(w, id)) && s.committed)
  {
    hide ParseSegmentID, RunOps, LegalRun;
    FreshIsFine(cfg);
    RunKeeps(cfg, FRESH, ops);
    assert SlotInv(cfg, At(RunOps(cfg, FRESH, ops), id), id, Flushed(RunOps(cfg, FRESH, ops), id),
                   RunOps(cfg, FRESH, ops).clock, RunOps(cfg, FRESH, ops).up);
  }

  /** Over every run from a reachable state, a reference once recorded stays. */
  lemma {:induction false} ReferencesStay(cfg: Config, w: World, ops: seq<Op>, id: string)
    requires LegalRun(cfg, w, ops) && Inv(cfg, w) && At(w, id).row.Some? && At(w, id).row.value.Referenced()
    ensures var after := At(RunOps(cfg, w, ops), id).row;
            after.Some? && KeepsReference(At(w, id).row.value, after.value) &&
            after.value.state in {Archived, Rehydrated}
    decreases |ops|
  {
    hide Legal, Apply, ParseSegmentID;
    if ops != [] {
      StepKeeps(cfg, w, ops[0]);
      assert SlotInv(cfg, At(w, id), id, Flushed(w, id), w.clock, w.up);
      SlotStepKeeps(cfg, w, ops[0], id);
      ReferencesStay(cfg, Apply(cfg, w, ops[0]), ops[1..], id);
    } else {
      assert SlotInv(cfg, At(w, id), id, Flushed(w, id), w.clock, w.up);
    }
  }

  // --------------------------------------------------------- runs that get there

  lemma OneMoreOp(cfg: Config, w: World, op: Op, rest: seq<Op>)
    requires Legal(cfg, w, op) && LegalRun(cfg, Apply(cfg, w, op), rest)
    ensures LegalRun(cfg, w, [op] + rest) && RunOps(cfg, w, [op] + rest) == RunOps(cfg, Apply(cfg, w, op), rest)
  {
    hide Legal, Apply;
    assert ([op] + rest)[1..] == rest;
  }

  lemma SealedAfterWriting(s: Slot, id: string, w: int, pq: Parquet, ev: Event, now: int)
    requires ParseSegmentID(id).Some? && s == WriteSlot(OpenPrefix(EMPTY_SLOT, id, w, OPENED), [ev])
    ensures s.open && s.active == Some([ev])
    ensures var t := SealPrefix(s, id, pq, SEALED, [], now);
            Archivable(t, id) && SameRows(t.sealed, [ev]) && t.remote.None?
  {
    hide ParseSegmentID, MinTime, MaxTime, Export;
    assert [] + [ev] == [ev];
    ExportKeepsRows([ev]);
  }

  /** The rules leave room for the intended course: an event flushed to a fresh segment reaches the
      archive, where the remote copy holds it and the row points at it. */
  lemma AnEventReachesTheArchive(cfg: Config, ev: Event, u: ArchiveUpdate) returns (ops: seq<Op>, id: string)
    requires ValidConfig(cfg) && u.s3Url != ""
    ensures LegalRun(cfg, FRESH, ops)
    ensures var w := RunOps(cfg, FRESH, ops); var s := At(w, id);
            Flushed(w, id) == [ev] && s.row.Some? && s.row.value.Referenced() && s.row.value.state == Archived &&
            SameRows(s.remote, [ev]) && s.committed
  {
    hide ParseSegmentID, SegmentID, LegalRun, RunOps, OpenPrefix, SealPrefix, WriteSlot, SameRows;
    id := CurrentID(cfg, 0);
    assert WindowStart(0, cfg.window) == 0 && InCalendar(0);
    IdReadsBack(0, cfg.window);
    var later := cfg.window + cfg.grace;
    var w1 := Apply(cfg, FRESH, Open(OPENED));
    SealedAfterWriting(WriteSlot(At(w1, id), [ev]), id, cfg.window, cfg.pq, ev, later);
    OpenedForWriting(id, cfg.window);
    var w2 := Apply(cfg, w1, Write(id, [ev]));
    var w3 := Apply(cfg, w2, Tick(later));
    var w4 := Apply(cfg, w3, Seal(id, SEALED, [], false));
    NoMoreOps(cfg, Apply(cfg, w4, Archive(id, ARCHIVED, u)));
    ops := [Archive(id, ARCHIVED, u)] + [];
    OneMoreOp(cfg, w4, Archive(id, ARCHIVED, u), []);
    OneMoreOp(cfg, w3, Seal(id, SEALED, [], false), ops);
    ops := [Seal(id, SEALED, [], false)] + ops;
    OneMoreOp(cfg, w2, Tick(later), ops);
    ops := [Tick(later)] + ops;
    OneMoreOp(cfg, w1, Write(id, [ev]), ops);
    ops := [Write(id, [ev])] + ops;
    OneMoreOp(cfg, FRESH, Open(OPENED), ops);
    ops := [Open(OPENED)] + ops;
    assert [] + [ev] == [ev];
  }

  lemma OpenedForWriting(id: string, w: int)
    requires ParseSegmentID(id).Some?
    ensures OpenPrefix(EMPTY_SLOT, id, w, OPENED).open
  {
    hide ParseSegmentID;
  }

  lemma NoMoreOps(cfg: Config, w: World)
    ensures LegalRun(cfg, w, []) && RunOps(cfg, w, []) == w
  {
  }

  // ----------------------------------------- why the rules of a run are needed

  /** If the clock went back into a window that was sealed and archived, the next seal would
      replace the sealed file by the new rows alone, and the row, sealed again but still pointing
      at the archive, would become lost the next time retention selects it. */
  lemma ReopeningAClosedWindowIsUnsafe(cfg: Config, s: Slot, id: string, rows: File, now: int)
    requires ParseSegmentID(id).Some? && rows != []
    requires s.sealed.Some? && s.active.None? && !s.open && s.row.Some? && s.row.value.state == Archived &&
             s.row.value.Referenced()
    ensures var reopened := WriteSlot(OpenPrefix(s, id, cfg.window, OPENED), rows);
            reopened.active.Some? &&
            var resealed := SealPrefix(reopened, id, cfg.pq, SEALED, [], now);
            SameRows(resealed.sealed, rows) && resealed.active.None? && resealed.orphan == s.orphan &&
            resealed.row.value.Referenced() && Decide(cfg.policy, resealed.row.value) == (Delete, Lost)
  {
    hide ParseSegmentID, MinTime, MaxTime;
    ExportKeepsRows(rows);
    assert [] + rows == rows;
  }

  /** If removing the active file at the end of a seal failed and the process lived on, then after
      archiving, retention and a restart the stale file would be opened and sealed again, with the
      same end. */
  lemma AStaleActiveFileIsUnsafe(cfg: Config, s: Slot, id: string, u: ArchiveUpdate, now: int)
    requires ParseSegmentID(id).Some? && Healthy(s) && s.active.value != [] && u.s3Url != ""
    ensures var marked := SealPrefix(s, id, cfg.pq, MARKED, [], now);
            var archived := ArchivePrefix(marked, ARCHIVED, u, now);
            Decide(cfg.policy, archived.row.value) == (Delete, Archived) &&
            var restarted := RecoverSlot(Crash(DropPrefix(archived, 2, Archived)), id, cfg.window, cfg.pq, now);
            restarted.open && restarted.active == s.active &&
            var resealed := SealPrefix(restarted, id, cfg.pq, SEALED, [], now);
            resealed.row.value.Referenced() && Decide(cfg.policy, resealed.row.value) == (Delete, Lost)
  {
    hide ParseSegmentID, Export, MinTime, MaxTime;
  }
}
