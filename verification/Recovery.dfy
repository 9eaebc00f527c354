/** Reconciling the data directory with the catalog at start-up. */
module Recovery {
  import opened Text
  import opened SegmentIds
  import opened SegmentCatalog
  import opened DataDir
  import opened Slots
  import opened Manager

  datatype Result = Result(activeRegistered: set<string>, sealedRegistered: set<string>, orphansMoved: set<string>,
                           lostMarked: set<string>)

  /** Only files whose name holds a segment id are looked at. */
  predicate IsId(id: string) {
    ParseSegmentID(id).Some?
  }

  /** One kind of remedy, where it is due. */
  function Phase(s: Slot, kind: Remedy, id: string, w: int, pq: Parquet, now: int): Slot
    requires IsId(id)
  {
    if NextRemedy(s) == kind then RecoverStep(s, id, w, pq, now) else s
  }

  /** Doing the remedies kind by kind over all ids does what repairing each id does. */
  lemma PhasesCompose(s: Slot, id: string, w: int, pq: Parquet, now: int)
    requires IsId(id)
    ensures var s1 := Phase(s, OrphanActive, id, w, pq, now);
            var s2 := Phase(s1, RegisterActive, id, w, pq, now);
            var s3 := Phase(s2, RegisterSealed, id, w, pq, now);
            var s4 := Phase(s3, MarkLost, id, w, pq, now);
            s4.(open := s.open || s4.active.Some?) == RecoverSlot(s, id, w, pq, now)
  {
    hide ParseSegmentID, WindowRow, FoundRow;
    if NextRemedy(s) == OrphanActive {
      RemediesEnd(RecoverStep(s, id, w, pq, now), id, w, pq, now);
    } else {
      RemediesEnd(s, id, w, pq, now);
    }
  }

  lemma RemediesEnd(s: Slot, id: string, w: int, pq: Parquet, now: int)
    requires IsId(id) && NextRemedy(s) != OrphanActive
    ensures NextRemedy(RecoverStep(s, id, w, pq, now)) == NothingToDo
  {
    hide ParseSegmentID;
  }

  function ScanActive(files: map<Path, File>): set<string> {
    set p | p in files && p.InActive? && IsId(p.id) :: p.id
  }

  function ScanSealed(files: map<Path, File>): set<string> {
    set p | p in files && p.InSealed? && IsId(p.id) :: p.id
  }

  lemma Scans(files: map<Path, File>, id: string)
    ensures id in ScanActive(files) <==> IsId(id) && InActive(id) in files
    ensures id in ScanSealed(files) <==> IsId(id) && InSealed(id) in files
  {
    assert InActive(id).InActive? && InSealed(id).InSealed?;
  }

  /** An active file whose sealed file exists goes to the orphans. */
  method OrphanDuplicates(m: Manager, now: int) returns (moved: set<string>)
    requires m.Valid() && m.open == map[]
    modifies m.disk
    ensures m.Valid()
    ensures forall id ::
              m.View(id) == if IsId(id) then Phase(old(m.View(id)), OrphanActive, id, m.window, m.pq, now)
              else old(m.View(id))
    ensures forall id :: id in moved <==> IsId(id) && NextRemedy(old(m.View(id))) == OrphanActive
  {
    hide IsId, ParseSegmentID, ScanActive, ScanSealed;
    forall id {
      Scans(m.disk.files, id);
    }
    var both := ScanActive(m.disk.files) * ScanSealed(m.disk.files);
    moved := both;
    var pending := both;
    while pending != {}
      invariant pending <= both
      invariant forall id :: m.View(id) ==
                  var s := old(m.View(id));
                  if id in both && id !in pending then s.(orphan := s.active, active := None) else s
    {
      var id :| id in pending;
      assert m.View(id).active.Some?;
      MoveToOrphans(m, id);
      pending := pending - {id};
    }
  }

  method MoveToOrphans(m: Manager, id: string)
    requires InActive(id) in m.disk.files
    modifies m.disk
    ensures m.View(id) == old(m.View(id)).(orphan := old(m.View(id)).active, active := None)
    ensures m.OthersUnchanged(id)
  {
    m.disk.Rename(InActive(id), InOrphans(id));
  }

  /** Inserting rows for the given unknown ids. */
  method InsertRows(m: Manager, ids: set<string>, kind: Remedy, now: int)
    requires m.Valid() && kind in {RegisterActive, RegisterSealed}
    requires forall id | id in ids :: IsId(id)
    requires forall id | id in ids :: NextRemedy(m.View(id)) == kind
    modifies m.catalog
    ensures forall id :: m.View(id) ==
              if id in ids && IsId(id) then RecoverStep(old(m.View(id)), id, m.window, m.pq, now) else old(m.View(id))
  {
    hide ParseSegmentID, FoundRow, WindowRow;
    var pending := ids;
    while pending != {}
      invariant pending <= ids
      invariant forall id :: m.View(id) ==
                  if id in ids && id !in pending && IsId(id) then RecoverStep(old(m.View(id)), id, m.window, m.pq, now)
                  else old(m.View(id))
    {
      var id :| id in pending;
      InsertRow(m, id, kind, now);
      pending := pending - {id};
    }
  }

  method InsertRow(m: Manager, id: string, kind: Remedy, now: int)
    requires kind in {RegisterActive, RegisterSealed} && IsId(id) && NextRemedy(m.View(id)) == kind
    modifies m.catalog
    ensures m.View(id) == RecoverStep(old(m.View(id)), id, m.window, m.pq, now)
    ensures m.OthersUnchanged(id)
  {
    hide ParseSegmentID, FoundRow, WindowRow;
    if kind == RegisterActive {
      var ok := m.catalog.Insert(id, WindowRow(id, m.window));
    } else {
      var ok := m.catalog.Insert(id, FoundRow(m.disk.files[InSealed(id)], id, m.window, m.pq, now));
    }
  }

  /** Rows whose file is gone, from a listing of the catalog. */
  function Missing(rows: map<string, Row>, active: set<string>, sealed: set<string>): set<string> {
    set id | id in rows && ((rows[id].state == Active && id !in active) || (rows[id].state == Sealed && id !in sealed))
  }

  method MarkMissing(m: Manager, now: int) returns (lost: set<string>)
    requires m.Valid()
    requires forall id | IsId(id) :: NextRemedy(m.View(id)) in {MarkLost, NothingToDo}
    modifies m.catalog
    ensures forall id | IsId(id) :: m.View(id) == Phase(old(m.View(id)), MarkLost, id, m.window, m.pq, now)
    ensures forall id :: id in lost <==>
              if IsId(id) then NextRemedy(old(m.View(id))) == MarkLost
              else old(m.View(id)).row.Some? && old(m.View(id)).row.value.state in {Active, Sealed}
    ensures forall id | !IsId(id) ::
              m.View(id) ==
              if id in lost then old(m.View(id)).(row := Some(WithState(old(m.View(id)).row.value, Lost, now)))
              else old(m.View(id))
  {
    hide IsId, ParseSegmentID, ScanActive, ScanSealed, WithState;
    forall id {
      Scans(m.disk.files, id);
    }
    lost := Missing(m.catalog.rows, ScanActive(m.disk.files), ScanSealed(m.disk.files));
    MarkAll(m, lost, now);
  }

  method MarkAll(m: Manager, ids: set<string>, now: int)
    requires forall id | id in ids :: id in m.catalog.rows
    modifies m.catalog
    ensures forall id :: m.View(id) ==
              if id in ids then old(m.View(id)).(row := Some(WithState(old(m.View(id)).row.value, Lost, now)))
              else old(m.View(id))
  {
    hide WithState;
    var pending := ids;
    while pending != {}
      invariant pending <= ids && m.catalog.rows.Keys == old(m.catalog.rows.Keys)
      invariant forall id :: m.View(id) ==
                  if id in ids && id !in pending
                  then old(m.View(id)).(row := Some(WithState(old(m.View(id)).row.value, Lost, now)))
                  else old(m.View(id))
    {
      var id :| id in pending;
      var ok := m.catalog.UpdateState(id, Lost, now);
      pending := pending - {id};
    }
  }

  /** Surviving active files are opened. */
  method ReopenActive(m: Manager)
    requires m.Valid() && !m.closing
    requires forall id | IsId(id) && m.View(id).active.Some? :: m.View(id).row.Some?
    modifies m, m.catalog, m.disk
    ensures m.Valid() && m.closing == old(m.closing)
    ensures forall id | IsId(id) ::
              m.View(id) == old(m.View(id)).(open := old(m.View(id)).open || old(m.View(id)).active.Some?)
    ensures forall id | !IsId(id) :: m.View(id) == old(m.View(id))
  {
    hide IsId, SlotFrom;
    var found := FindActive(m);
    var pending := found;
    while pending != {}
      invariant m.Valid() && !m.closing && pending <= found
      invariant forall id ::
                  m.View(id) == if id in found && id !in pending then old(m.View(id)).(open := true)
                  else old(m.View(id))
    {
      var id :| id in pending;
      assert m.View(id) == old(m.View(id));
      ReopenOne(m, id);
      pending := pending - {id};
    }
  }

  method FindActive(m: Manager) returns (found: set<string>)
    ensures forall id :: id in found <==> IsId(id) && m.View(id).active.Some?
  {
    hide IsId, ScanActive;
    forall id {
      Scans(m.disk.files, id);
    }
    found := ScanActive(m.disk.files);
  }

  method ReopenOne(m: Manager, id: string)
    requires m.Valid() && !m.closing && IsId(id) && m.View(id).active.Some? && m.View(id).row.Some?
    modifies m, m.catalog, m.disk
    ensures m.Valid() && m.closing == old(m.closing)
    ensures m.View(id) == old(m.View(id)).(open := true) && m.OthersUnchanged(id)
  {
    hide ParseSegmentID, WindowRow, SlotFrom;
    var ok := m.OpenOrCreate(id, OPENED);
  }

  /** Files the catalog has no row for. */
  method Unknown(m: Manager, kind: Remedy) returns (ids: set<string>)
    requires kind in {RegisterActive, RegisterSealed}
    requires forall id | IsId(id) :: NextRemedy(m.View(id)) != OrphanActive
    ensures forall id :: id in ids <==> IsId(id) && NextRemedy(m.View(id)) == kind
  {
    hide IsId, ParseSegmentID, ScanActive, ScanSealed;
    forall id {
      Scans(m.disk.files, id);
    }
    if kind == RegisterActive {
      ids := ScanActive(m.disk.files) - m.catalog.rows.Keys;
    } else {
      ids := ScanSealed(m.disk.files) - m.catalog.rows.Keys;
    }
  }

  /** Files without a row get one. */
  method RegisterUnknown(m: Manager, kind: Remedy, now: int) returns (ids: set<string>)
    requires m.Valid() && kind in {RegisterActive, RegisterSealed}
    requires forall id | IsId(id) :: NextRemedy(m.View(id)) != OrphanActive
    modifies m.catalog
    ensures m.Valid()
    ensures forall id | IsId(id) :: m.View(id) == Phase(old(m.View(id)), kind, id, m.window, m.pq, now)
    ensures forall id | !IsId(id) :: m.View(id) == old(m.View(id))
    ensures forall id :: id in ids <==> IsId(id) && NextRemedy(old(m.View(id))) == kind
  {
    hide IsId, ParseSegmentID, RecoverStep, NextRemedy;
    ids := Unknown(m, kind);
    InsertRows(m, ids, kind, now);
  }

  function Registered(s: Slot, id: string, w: int, pq: Parquet, now: int): Slot
    requires IsId(id)
  {
    Phase(Phase(Phase(s, OrphanActive, id, w, pq, now), RegisterActive, id, w, pq, now), RegisterSealed, id, w, pq, now)
  }

  lemma OnlyLostRemain(s: Slot, id: string, w: int, pq: Parquet, now: int)
    requires IsId(id)
    ensures NextRemedy(Phase(s, OrphanActive, id, w, pq, now)) != OrphanActive
    ensures var t := Phase(Phase(s, OrphanActive, id, w, pq, now), RegisterActive, id, w, pq, now);
            NextRemedy(t) !in {OrphanActive, RegisterActive}
    ensures NextRemedy(Registered(s, id, w, pq, now)) in {MarkLost, NothingToDo}
    ensures var done := Phase(Registered(s, id, w, pq, now), MarkLost, id, w, pq, now);
            done.active.Some? ==> done.row.Some?
  {
    hide IsId, ParseSegmentID, WindowRow, FoundRow;
  }

  lemma NothingDue(s: Slot, id: string, w: int, pq: Parquet, now: int)
    requires IsId(id) && NextRemedy(s) == NothingToDo
    ensures Phase(s, OrphanActive, id, w, pq, now) == s && Phase(s, RegisterActive, id, w, pq, now) == s &&
            Phase(s, RegisterSealed, id, w, pq, now) == s
  {
  }

  /** Recovery repairs every id on its own: orphan, register, mark lost, reopen. */
  method Recover(m: Manager, now: int) returns (r: Result)
    requires m.Valid() && !m.closing && m.open == map[]
    modifies m, m.catalog, m.disk
    ensures m.Valid() && !m.closing
    ensures forall id | IsId(id) :: m.View(id) == RecoverSlot(old(m.View(id)), id, m.window, m.pq, now)
    ensures forall id | IsId(id) :: id in r.orphansMoved <==> NextRemedy(old(m.View(id))) == OrphanActive
    ensures forall id | IsId(id) :: id in r.activeRegistered <==>
              NextRemedy(Phase(old(m.View(id)), OrphanActive, id, m.window, m.pq, now)) == RegisterActive
    ensures forall id | IsId(id) :: id in r.sealedRegistered <==>
              NextRemedy(Phase(Phase(old(m.View(id)), OrphanActive, id, m.window, m.pq, now), RegisterActive, id,
                               m.window, m.pq, now)) == RegisterSealed
    ensures forall id | IsId(id) :: id in r.lostMarked <==>
              NextRemedy(Registered(old(m.View(id)), id, m.window, m.pq, now)) == MarkLost
    ensures (forall id | IsId(id) :: NextRemedy(old(m.View(id))) == NothingToDo) ==>
              r.activeRegistered == {} && r.sealedRegistered == {} && r.orphansMoved == {} &&
              forall id | IsId(id) :: id !in r.lostMarked
  {
    hide ParseSegmentID, RecoverStep, NextRemedy, RecoverSlot, Phase;
    var moved := OrphanDuplicates(m, now);
    forall id | IsId(id) ensures NextRemedy(m.View(id)) != OrphanActive {
      OnlyLostRemain(old(m.View(id)), id, m.window, m.pq, now);
    }
    label Orphaned:
    var active := RegisterUnknown(m, RegisterActive, now);
    forall id | IsId(id) ensures NextRemedy(m.View(id)) != OrphanActive {
      OnlyLostRemain(old(m.View(id)), id, m.window, m.pq, now);
    }
    label Actives:
    var sealed := RegisterUnknown(m, RegisterSealed, now);
    label Sealeds:
    forall id | IsId(id) ensures NextRemedy(m.View(id)) in {MarkLost, NothingToDo} {
      OnlyLostRemain(old(m.View(id)), id, m.window, m.pq, now);
    }
    var lost := MarkMissing(m, now);
    label Marked:
    forall id | IsId(id) ensures m.View(id).active.Some? ==> m.View(id).row.Some? {
      OnlyLostRemain(old(m.View(id)), id, m.window, m.pq, now);
    }
    ReopenActive(m);
    forall id | IsId(id) ensures m.View(id) == RecoverSlot(old(m.View(id)), id, m.window, m.pq, now) {
      PhasesCompose(old(m.View(id)), id, m.window, m.pq, now);
    }
    forall id | IsId(id) && NextRemedy(old(m.View(id))) == NothingToDo
      ensures id !in active && id !in sealed && id !in moved && id !in lost
    {
      NothingDue(old(m.View(id)), id, m.window, m.pq, now);
    }
    r := Result(active, sealed, moved, lost);
  }
}
