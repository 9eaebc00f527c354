/** Everything the system keeps for one segment id, and what sealing, crashing and recovering
    do to it, one durable step at a time. */
module Slots {
  import opened Text
  import opened Events
  import opened SegmentIds
  import opened SegmentCatalog
  import opened DataDir

  /** Encoding rows as a Parquet file and hashing its bytes. */
  datatype Parquet = Parquet(encode: File -> seq<int>, sum: seq<int> -> string)

  /** The files, the remote copy and the catalog row of one id, and whether the manager has it open.
      A remote copy is committed by its manifest. */
  datatype Slot = Slot(
    active: Option<File>,
    tmp: Option<File>,
    sealed: Option<File>,
    orphan: Option<File>,
    rehydrated: Option<File>,
    remote: Option<File>,
    committed: bool,
    row: Option<Row>,
    open: bool)

  const EMPTY_SLOT := Slot(None, None, None, None, None, None, false, None, false)

  /** What a catalog and a data directory hold for an id. */
  function SlotFrom(rows: map<string, Row>, files: map<Path, File>, id: string, open: bool): Slot {
    Slot(Look(files, InActive(id)), Look(files, InTmp(id)), Look(files, InSealed(id)), Look(files, InOrphans(id)),
         Look(files, InRehydrated(id)), None, false, Look(rows, id), open)
  }

  /** The slot of an id depends on nothing that belongs to another. */
  lemma OtherSlot(rows: map<string, Row>, files: map<Path, File>, rows': map<string, Row>, files': map<Path, File>,
                  id: string, open: bool)
    requires Look(rows, id) == Look(rows', id) && forall p: Path | p.id == id :: Look(files, p) == Look(files', p)
    ensures SlotFrom(rows, files, id, open) == SlotFrom(rows', files', id, open)
  {
    assert InActive(id).id == InTmp(id).id == InSealed(id).id == InOrphans(id).id == InRehydrated(id).id == id;
  }

  /** The file the row of a slot points at. */
  function LocalFile(s: Slot): Option<File> {
    if s.row.None? || s.row.value.localPath.None? then None
    else match s.row.value.localPath.value
      case InActive(_) => s.active
      case InTmp(_) => s.tmp
      case InSealed(_) => s.sealed
      case InOrphans(_) => s.orphan
      case InRehydrated(_) => s.rehydrated
  }

  // ------------------------------------------------------------------ file content

  function InsertByTime(ev: Event, rows: File): File {
    if rows == [] || ev.timestamp <= rows[0].timestamp then [ev] + rows else [rows[0]] + InsertByTime(ev, rows[1..])
  }

  /** What the export writes: the same rows by time. */
  function Export(rows: File): File {
    if rows == [] then [] else InsertByTime(rows[0], Export(rows[1..]))
  }

  ghost predicate ByTime(rows: File) {
    forall i, j | 0 <= i < j < |rows| :: rows[i].timestamp <= rows[j].timestamp
  }

  lemma {:induction false} InsertByTimeBag(ev: Event, rows: File)
    ensures multiset(InsertByTime(ev, rows)) == multiset{ev} + multiset(rows)
    ensures forall x <- InsertByTime(ev, rows) :: x == ev || x in rows
  {
    if rows != [] && ev.timestamp > rows[0].timestamp {
      InsertByTimeBag(ev, rows[1..]);
      assert rows == [rows[0]] + rows[1..];
    }
  }

  lemma {:induction false} InsertByTimeOrders(ev: Event, rows: File)
    requires ByTime(rows)
    ensures ByTime(InsertByTime(ev, rows))
  {
    if rows != [] && ev.timestamp > rows[0].timestamp {
      var rest := InsertByTime(ev, rows[1..]);
      InsertByTimeOrders(ev, rows[1..]);
      InsertByTimeBag(ev, rows[1..]);
      forall j | 0 <= j < |rest| ensures rows[0].timestamp <= rest[j].timestamp {
        if rest[j] != ev {
          assert rest[j] in rows[1..];
        }
      }
    }
  }

  /** The export neither adds nor drops rows. */
  lemma {:induction false} ExportKeepsRows(rows: File)
    ensures ByTime(Export(rows)) && multiset(Export(rows)) == multiset(rows) && |Export(rows)| == |rows|
  {
    if rows != [] {
      ExportKeepsRows(rows[1..]);
      InsertByTimeBag(rows[0], Export(rows[1..]));
      InsertByTimeOrders(rows[0], Export(rows[1..]));
      assert rows == [rows[0]] + rows[1..];
      assert |multiset(Export(rows))| == |multiset(rows)|;
    }
  }

  predicate SameRows(a: Option<File>, rows: File) {
    a.Some? && multiset(a.value) == multiset(rows)
  }

  function MinTime(rows: File): int
    requires rows != []
  {
    if |rows| == 1 || rows[0].timestamp <= MinTime(rows[1..]) then rows[0].timestamp else MinTime(rows[1..])
  }

  function MaxTime(rows: File): int
    requires rows != []
  {
    if |rows| == 1 || rows[0].timestamp >= MaxTime(rows[1..]) then rows[0].timestamp else MaxTime(rows[1..])
  }

  lemma {:induction false} TimesCover(rows: File)
    requires rows != []
    ensures forall ev <- rows :: MinTime(rows) <= ev.timestamp <= MaxTime(rows)
  {
    if |rows| > 1 {
      TimesCover(rows[1..]);
      assert rows == [rows[0]] + rows[1..];
    }
  }

  /** From the earliest row to the latest: all rows lie in the range, and one on each end of it. */
  ghost predicate TightRange(rows: File, lo: int, hi: int) {
    (forall ev <- rows :: lo <= ev.timestamp <= hi) &&
    (exists ev <- rows :: ev.timestamp == lo) && exists ev <- rows :: ev.timestamp == hi
  }

  lemma {:induction false} TimesAreTight(rows: File)
    requires rows != []
    ensures TightRange(rows, MinTime(rows), MaxTime(rows))
  {
    TimesCover(rows);
    TimesAttained(rows);
  }

  lemma {:induction false} TimesAttained(rows: File)
    requires rows != []
    ensures (exists ev <- rows :: ev.timestamp == MinTime(rows)) && exists ev <- rows :: ev.timestamp == MaxTime(rows)
  {
    assert rows[0] in rows;
    if |rows| > 1 {
      TimesAttained(rows[1..]);
      assert forall ev <- rows[1..] :: ev in rows;
    }
  }

  lemma TightIsUnique(rows: File, lo: int, hi: int, lo': int, hi': int)
    requires TightRange(rows, lo, hi) && TightRange(rows, lo', hi')
    ensures lo == lo' && hi == hi'
  {
  }

  /** A row of the catalog describes a Parquet file: its size, count and hash, and its time range, where
      an end that is not set is that of the window. */
  ghost predicate Describes(r: Row, rows: File, id: string, w: int, pq: Parquet)
    requires ParseSegmentID(id).Some?
  {
    var start := ParseSegmentID(id).value;
    r.rowCount == |rows| && r.sizeBytes == |pq.encode(rows)| && r.parquetSha == Some(pq.sum(pq.encode(rows))) &&
    r.localPath == Some(InSealed(id)) && (rows == [] ==> r.timeStart == start && r.timeEnd == start + w) &&
    (forall lo, hi | TightRange(rows, lo, hi) ::
       r.timeStart == (if lo == ZERO_TIME then start else lo) &&
       r.timeEnd == (if hi == ZERO_TIME then start + w else hi))
  }

  lemma FoundRowDescribes(rows: File, id: string, w: int, pq: Parquet, now: int)
    requires ParseSegmentID(id).Some?
    ensures Describes(FoundRow(rows, id, w, pq, now), rows, id, w, pq) && FoundRow(rows, id, w, pq, now).state == Sealed
    ensures rows != [] ==> exists lo, hi :: TightRange(rows, lo, hi)
  {
    hide ParseSegmentID, MinTime, MaxTime, TightRange;
    if rows != [] {
      TimesAreTight(rows);
      forall lo, hi | TightRange(rows, lo, hi) ensures lo == MinTime(rows) && hi == MaxTime(rows) {
        TightIsUnique(rows, lo, hi, MinTime(rows), MaxTime(rows));
      }
    } else {
      NoRange();
    }
  }

  lemma NoRange()
    ensures forall lo, hi :: !TightRange([], lo, hi)
  {
  }

  // ----------------------------------------------------------------------- writing

  /** Opening an id creates its file and its row where they are missing. */
  function OpenSlot(s: Slot, id: string, w: int): Slot
    requires ParseSegmentID(id).Some?
  {
    if s.open then s
    else s.(active := if s.active.Some? then s.active else Some([]),
            row := if s.row.Some? then s.row else Some(WindowRow(id, w)),
            open := true)
  }

  const OPENED := 3

  /** Opening creates the file, then the row, then registers the id. */
  function OpenPrefix(s: Slot, id: string, w: int, steps: nat): Slot
    requires ParseSegmentID(id).Some?
  {
    var full := OpenSlot(s, id, w);
    if s.open || steps == 0 then s
    else if steps == 1 then s.(active := full.active)
    else if steps < OPENED then full.(open := false)
    else full
  }

  function WriteSlot(s: Slot, rows: File): Slot {
    if s.active.Some? then s.(active := Some(s.active.value + rows)) else s
  }

  // ----------------------------------------------------------------------- sealing

  function SealUpdate(rows: File, id: string, pq: Parquet): SealedUpdate
    requires rows != []
  {
    var bytes := pq.encode(Export(rows));
    SealedUpdate(|rows|, |bytes|, InSealed(id), pq.sum(bytes), MinTime(rows), MaxTime(rows))
  }

  /** The number of durable steps a seal makes, and the ones after which something is peculiar. */
  const EXPORTED := 3
  const RENAMED := 4
  const MARKED := 5
  const SEALED := 6

  /** The slot after the first steps of sealing: drop an old temporary file, start writing the new
      one (torn is what a half-done export leaves), finish it, rename it into place, mark the row,
      remove the active file. An empty segment loses its file, then its row. */
  function SealPrefix(s: Slot, id: string, pq: Parquet, steps: nat, torn: File, now: int): Slot
    requires s.active.Some?
  {
    var rows := s.active.value;
    var s0 := s.(open := false);
    if rows == [] then
      if steps == 0 then s0 else if steps == 1 then s0.(active := None) else s0.(active := None, row := None)
    else if steps == 0 then s0
    else if steps == 1 then s0.(tmp := None)
    else if steps == 2 then s0.(tmp := Some(torn))
    else if steps == EXPORTED then s0.(tmp := Some(Export(rows)))
    else
      var s4 := s0.(tmp := None, sealed := Some(Export(rows)));
      if steps == RENAMED then s4
      else
        var s5 := s4.(row := if s.row.Some? then Some(SealedRow(s.row.value, SealUpdate(rows, id, pq), now)) else None);
        if steps == MARKED then s5 else s5.(active := None)
  }

  // --------------------------------------------------------------------- recovery

  function Crash(s: Slot): Slot {
    s.(open := false)
  }

  function WindowRow(id: string, w: int): Row
    requires ParseSegmentID(id).Some?
  {
    var start := ParseSegmentID(id).value;
    NewActiveRow(start, start + w, InActive(id))
  }

  /** The row for a Parquet file the catalog does not know: its own time range when it has one. */
  function FoundRow(rows: File, id: string, w: int, pq: Parquet, now: int): Row
    requires ParseSegmentID(id).Some?
  {
    var start := ParseSegmentID(id).value;
    var lo := if rows == [] || MinTime(rows) == ZERO_TIME then start else MinTime(rows);
    var hi := if rows == [] || MaxTime(rows) == ZERO_TIME then start + w else MaxTime(rows);
    var bytes := pq.encode(rows);
    Row(Sealed, lo, hi, |rows|, |bytes|, Some(InSealed(id)), None, None, None, Some(pq.sum(bytes)), Some(now), None,
        None, None)
  }

  datatype Remedy = OrphanActive | RegisterActive | RegisterSealed | MarkLost | NothingToDo

  /** What recovery does next for an id. */
  function NextRemedy(s: Slot): Remedy {
    if s.active.Some? && s.sealed.Some? then OrphanActive
    else if s.row.None? then
      (if s.active.Some? then RegisterActive else if s.sealed.Some? then RegisterSealed else NothingToDo)
    else if (s.row.value.state == Active && s.active.None?) || (s.row.value.state == Sealed && s.sealed.None?) then
      MarkLost
    else NothingToDo
  }

  /** One durable step of recovery. */
  function RecoverStep(s: Slot, id: string, w: int, pq: Parquet, now: int): Slot
    requires ParseSegmentID(id).Some?
  {
    match NextRemedy(s)
    case OrphanActive => s.(orphan := s.active, active := None)
    case RegisterActive => s.(row := Some(WindowRow(id, w)))
    case RegisterSealed => s.(row := Some(FoundRow(s.sealed.value, id, w, pq, now)))
    case MarkLost => s.(row := Some(WithState(s.row.value, Lost, now)))
    case NothingToDo => s
  }

  /** Opening an id for the first time, or finding an active file without a row, makes a row that spans
      the window and claims nothing else. */
  lemma NewRowIsEmpty(s: Slot, id: string, w: int, pq: Parquet, now: int)
    requires ParseSegmentID(id).Some? && s.row.None?
    requires !s.open || NextRemedy(s) == RegisterActive
    ensures var t := if NextRemedy(s) == RegisterActive then RecoverStep(s, id, w, pq, now) else OpenSlot(s, id, w);
            t.row.Some? &&
            var r, start := t.row.value, ParseSegmentID(id).value;
            r.state == Active && r.timeStart == start && r.timeEnd == start + w && r.rowCount == 0 &&
            r.sizeBytes == 0 && r.localPath == Some(InActive(id)) && !r.Referenced() && r.manifestSha.None? &&
            r.parquetSha.None? && r.sealedAt.None? && r.archivedAt.None? && r.rehydratedAt.None? && r.evictAfter.None?
  {
    hide ParseSegmentID;
  }

  /** Marking a segment lost changes nothing else in its row. */
  lemma LostKeepsRow(s: Slot, id: string, w: int, pq: Parquet, now: int)
    requires ParseSegmentID(id).Some? && NextRemedy(s) == MarkLost
    ensures RecoverStep(s, id, w, pq, now) == s.(row := Some(s.row.value.(state := Lost)))
  {
    hide ParseSegmentID;
  }

  /** A whole recovery: at most two repairs, then every surviving active file is opened. */
  function RecoverSlot(s: Slot, id: string, w: int, pq: Parquet, now: int): Slot
    requires ParseSegmentID(id).Some?
  {
    var done := RecoverStep(RecoverStep(s, id, w, pq, now), id, w, pq, now);
    done.(open := s.open || done.active.Some?)
  }

  predicate Queryable(s: Slot, id: string) {
    s.row.Some? &&
    match s.row.value.state
    case Active => s.open && s.active.Some?
    case Lost => false
    case _ => s.row.value.localPath == Some(InSealed(id)) && s.sealed.Some?
  }

  /** Whatever the disk and the catalog looked like, a recovery leaves the two consistent. */
  lemma RecoveryIsConsistent(s: Slot, id: string, w: int, pq: Parquet, now: int)
    requires ParseSegmentID(id).Some? && !s.open
    ensures var r := RecoverSlot(s, id, w, pq, now);
            NextRemedy(r) == NothingToDo &&
            !(r.active.Some? && r.sealed.Some?) &&
            (r.active.Some? || r.sealed.Some? ==> r.row.Some?) &&
            (r.open <==> r.active.Some?) &&
            (r.row.Some? && r.row.value.state == Active ==> r.open && r.active.Some?) &&
            (r.row.Some? && r.row.value.state == Sealed ==> r.sealed.Some?)
  {
  }

  lemma TwoRemediesSettle(s: Slot, id: string, w: int, pq: Parquet, now: int)
    requires ParseSegmentID(id).Some?
    ensures NextRemedy(RecoverStep(RecoverStep(s, id, w, pq, now), id, w, pq, now)) == NothingToDo
  {
    hide ParseSegmentID;
  }

  lemma SettledStays(s: Slot, id: string, w: int, pq: Parquet, now: int)
    requires ParseSegmentID(id).Some? && NextRemedy(s) == NothingToDo
    ensures RecoverSlot(s, id, w, pq, now) == s.(open := s.open || s.active.Some?)
  {
    hide ParseSegmentID, NextRemedy;
  }

  /** A second recovery finds nothing to do and changes nothing. */
  lemma RecoveryIsIdempotent(s: Slot, id: string, w: int, pq: Parquet, now: int, later: int)
    requires ParseSegmentID(id).Some?
    ensures var r := RecoverSlot(s, id, w, pq, now);
            NextRemedy(Crash(r)) == NothingToDo && RecoverSlot(r, id, w, pq, later) == r &&
            RecoverSlot(Crash(r), id, w, pq, later) == r.(open := r.active.Some?)
  {
    hide ParseSegmentID, RecoverStep;
    TwoRemediesSettle(s, id, w, pq, now);
    var r := RecoverSlot(s, id, w, pq, now);
    SettledStays(r, id, w, pq, later);
    SettledStays(Crash(r), id, w, pq, later);
  }

  /** An active segment in order: its file holds what was written and nothing else exists yet. */
  predicate Healthy(s: Slot) {
    s.active.Some? && s.sealed.None? && s.orphan.None? && s.row.Some? && s.row.value.state == Active
  }

  predicate SomewhereWhole(s: Slot, rows: File) {
    SameRows(s.active, rows) || SameRows(s.sealed, rows) || SameRows(s.orphan, rows)
  }

  /** Sealing may stop after any step, with any half-written export, and the process may crash
      there and recover: the rows are still whole in one place. They can be queried again exactly
      when the crash did not fall between the rename and the catalog update; there, the row is
      marked lost although the sealed file holds everything. */
  lemma SealingSurvivesCrashes(s: Slot, id: string, w: int, pq: Parquet, steps: nat, torn: File, now: int, later: int)
    requires ParseSegmentID(id).Some? && Healthy(s) && s.active.value != []
    ensures var cut := SealPrefix(s, id, pq, steps, torn, now);
            var back := RecoverSlot(Crash(cut), id, w, pq, later);
            SomewhereWhole(cut, s.active.value) && SomewhereWhole(back, s.active.value) &&
            (Queryable(back, id) <==> steps != RENAMED) &&
            (steps == RENAMED ==>
               back.row.value.state == Lost && SameRows(back.sealed, s.active.value) &&
               SameRows(back.orphan, s.active.value))
  {
    hide Export, SealedRow, SealUpdate, FoundRow, WindowRow, ParseSegmentID, SealPrefix, RecoverSlot;
    ExportKeepsRows(s.active.value);
    if steps < RENAMED {
      CrashBeforeRename(s, id, w, pq, steps, torn, now, later);
    } else if steps == RENAMED {
      CrashAfterRename(s, id, w, pq, torn, now, later);
    } else {
      CrashAfterMark(s, id, w, pq, steps, torn, now, later);
    }
  }

  lemma CrashBeforeRename(s: Slot, id: string, w: int, pq: Parquet, steps: nat, torn: File, now: int, later: int)
    requires ParseSegmentID(id).Some? && Healthy(s) && s.active.value != [] && steps < RENAMED
    ensures var cut := SealPrefix(s, id, pq, steps, torn, now);
            var back := RecoverSlot(Crash(cut), id, w, pq, later);
            cut.active == s.active == back.active && back.open && back.row == s.row
  {
    hide Export, ParseSegmentID;
  }

  lemma CrashAfterRename(s: Slot, id: string, w: int, pq: Parquet, torn: File, now: int, later: int)
    requires ParseSegmentID(id).Some? && Healthy(s) && s.active.value != []
    ensures var cut := SealPrefix(s, id, pq, RENAMED, torn, now);
            var back := RecoverSlot(Crash(cut), id, w, pq, later);
            cut.active == s.active == back.orphan && back.sealed == Some(Export(s.active.value)) && back.row.Some? &&
            back.row.value.state == Lost
  {
    hide Export, ParseSegmentID;
  }

  lemma CrashAfterMark(s: Slot, id: string, w: int, pq: Parquet, steps: nat, torn: File, now: int, later: int)
    requires ParseSegmentID(id).Some? && Healthy(s) && s.active.value != [] && steps > RENAMED
    ensures var cut := SealPrefix(s, id, pq, steps, torn, now);
            var back := RecoverSlot(Crash(cut), id, w, pq, later);
            cut.sealed == back.sealed == Some(Export(s.active.value)) &&
            back.row.Some? && back.row.value.state == Sealed && back.row.value.localPath == Some(InSealed(id))
  {
    hide Export, ParseSegmentID, MinTime, MaxTime;
  }

  /** A completed seal leaves one copy, with a row whose range and count describe it. */
  lemma SealingDescribesTheFile(s: Slot, id: string, pq: Parquet, now: int)
    requires Healthy(s) && s.active.value != []
    ensures var done := SealPrefix(s, id, pq, SEALED, [], now);
            done.active.None? && SameRows(done.sealed, s.active.value) && ByTime(done.sealed.value) &&
            done.row.value.state == Sealed && done.row.value.rowCount == |done.sealed.value| &&
            done.row.value.parquetSha == NonEmpty(pq.sum(pq.encode(done.sealed.value))) &&
            done.row.value.sizeBytes == |pq.encode(done.sealed.value)| &&
            done.row.value.sealedAt == Some(now) && done.row.value.localPath == Some(InSealed(id)) &&
            done.row.value.evictAfter == s.row.value.evictAfter &&
            done.row.value.s3Url == s.row.value.s3Url && done.row.value.archiveRef == s.row.value.archiveRef &&
            TightRange(done.sealed.value, done.row.value.timeStart, done.row.value.timeEnd) &&
            forall ev <- done.sealed.value :: done.row.value.timeStart <= ev.timestamp <= done.row.value.timeEnd
  {
    hide MinTime, MaxTime, TightRange, Export;
    ExportKeepsRows(s.active.value);
    TimesAreTight(s.active.value);
    SameRange(s.active.value, Export(s.active.value), MinTime(s.active.value), MaxTime(s.active.value));
    TightCovers(Export(s.active.value), MinTime(s.active.value), MaxTime(s.active.value));
  }

  lemma SameRange(a: File, b: File, lo: int, hi: int)
    requires multiset(a) == multiset(b) && TightRange(a, lo, hi)
    ensures TightRange(b, lo, hi)
  {
    forall ev: Event ensures ev in a <==> ev in b {
      assert ev in multiset(a) <==> ev in multiset(b);
    }
  }

  lemma TightCovers(rows: File, lo: int, hi: int)
    requires TightRange(rows, lo, hi)
    ensures forall ev <- rows :: lo <= ev.timestamp <= hi
  {
  }
}
