/** The segment manager: routing flushed events to open windows, sealing closed ones and
    reconciling disk and catalog after a crash. */
module Manager {
  import opened Text
  import opened Events
  import opened SegmentIds
  import opened SegmentCatalog
  import opened DataDir
  import opened Slots

  datatype Window = Window(timeStart: int, timeEnd: int)

  // ---------------------------------------------------------------------- routing

  /** The mark on an event that missed its window; other attributes stay. */
  function AnnotateLate(ev: Event, intended: string): Event {
    ev.(attributes := ev.attributes["logpond_late" := "true"]["logpond_intended_segment" := intended])
  }

  /** An event goes unmarked to its own window if that is open, else marked to the current one. */
  function Route(open: set<string>, current: string, w: int, ev: Event): (string, Event)
    requires w > 0
  {
    var id := SegmentID(ev.timestamp, w);
    if id in open then (id, ev) else (current, AnnotateLate(ev, id))
  }

  lemma RouteTarget(open: set<string>, current: string, w: int, ev: Event)
    requires w > 0
    ensures Route(open, current, w, ev).0 in open || Route(open, current, w, ev).0 == current
  {
  }

  /** The part of a batch that goes to one id, in order. */
  function Share(open: set<string>, current: string, w: int, events: seq<Event>, id: string): File
    requires w > 0
  {
    if events == [] then []
    else
      var n := |events| - 1;
      var r := Route(open, current, w, events[n]);
      Share(open, current, w, events[..n], id) + (if r.0 == id then [r.1] else [])
  }

  /** The segments a batch goes to. */
  function Targets(open: set<string>, current: string, w: int, events: seq<Event>): set<string>
    requires w > 0
  {
    set i | 0 <= i < |events| :: Route(open, current, w, events[i]).0
  }

  lemma NoShares(open: set<string>, current: string, w: int, events: seq<Event>)
    requires w > 0
    ensures forall id :: Share(open, current, w, events[..0], id) == []
  {
  }

  lemma OneMoreShare(open: set<string>, current: string, w: int, events: seq<Event>, i: nat, id: string)
    requires w > 0 && i < |events|
    ensures var r := Route(open, current, w, events[i]);
            Share(open, current, w, events[..i + 1], id) ==
              Share(open, current, w, events[..i], id) + (if r.0 == id then [r.1] else [])
  {
    hide Route;
    assert events[..i + 1][..i] == events[..i];
  }

  lemma NoTargets(open: set<string>, current: string, w: int, events: seq<Event>)
    requires w > 0
    ensures Targets(open, current, w, events[..0]) == {}
  {
  }

  lemma OneMoreTarget(open: set<string>, current: string, w: int, events: seq<Event>, i: nat)
    requires w > 0 && i < |events|
    ensures Targets(open, current, w, events[..i + 1]) ==
              Targets(open, current, w, events[..i]) + {Route(open, current, w, events[i]).0}
  {
    hide Route;
    var before, after := events[..i], events[..i + 1];
    forall id | id in Targets(open, current, w, after)
      ensures id in Targets(open, current, w, before) + {Route(open, current, w, events[i]).0}
    {
      var k :| 0 <= k < |after| && id == Route(open, current, w, after[k]).0;
      if k < i {
        assert before[k] == after[k];
      }
    }
    forall id | id in Targets(open, current, w, before) ensures id in Targets(open, current, w, after) {
      var k :| 0 <= k < |before| && id == Route(open, current, w, before[k]).0;
      assert before[k] == after[k];
    }
    assert after[i] == events[i];
  }

  function Routed(open: set<string>, current: string, w: int, events: seq<Event>): seq<(string, Event)>
    requires w > 0
  {
    seq(|events|, i requires 0 <= i < |events| => Route(open, current, w, events[i]))
  }

  /** A flush writes each event exactly once: the copies a segment gains of a row are the times
      the batch routes that row there. */
  lemma {:induction false} SharesConserve(open: set<string>, current: string, w: int, events: seq<Event>, id: string,
                                          ev: Event)
    requires w > 0
    ensures multiset(Share(open, current, w, events, id))[ev] == multiset(Routed(open, current, w, events))[(id, ev)]
  {
    hide Route, Routed, Share;
    if events == [] {
      assert events[..0] == events;
      NoShares(open, current, w, events);
      NothingRouted(open, current, w);
    } else {
      var n := |events| - 1;
      assert events[..n + 1] == events;
      SharesConserve(open, current, w, events[..n], id, ev);
      OneMoreShare(open, current, w, events, n, id);
      OneMoreRouted(open, current, w, events);
    }
  }

  lemma NothingRouted(open: set<string>, current: string, w: int)
    requires w > 0
    ensures Routed(open, current, w, []) == []
  {
  }

  lemma OneMoreRouted(open: set<string>, current: string, w: int, events: seq<Event>)
    requires w > 0 && events != []
    ensures Routed(open, current, w, events) ==
              Routed(open, current, w, events[..|events| - 1]) + [Route(open, current, w, events[|events| - 1])]
  {
    hide Route;
  }

  /** What routing promises: an unmarked event lies in the window of the segment it goes to, a
      marked one carries the id of its true window, which is not open and reads back to that
      window's start, and nothing else about an event changes. */
  lemma RoutingIsFaithful(open: set<string>, current: string, w: int, ev: Event)
    requires w > 0 && w % MINUTE == 0 && current in open
    requires InCalendar(WindowStart(ev.timestamp, w))
    ensures var r := Route(open, current, w, ev);
            var start := WindowStart(ev.timestamp, w);
            r.0 in open && start <= ev.timestamp < start + w &&
            (SegmentID(ev.timestamp, w) in open ==> r.1 == ev && ParseSegmentID(r.0) == Some(start)) &&
            (SegmentID(ev.timestamp, w) !in open ==>
              r.0 == current && r.1.attributes["logpond_late"] == "true" &&
              ParseSegmentID(r.1.attributes["logpond_intended_segment"]) == Some(start) &&
              r.1.(attributes := ev.attributes) == ev &&
              forall k | k in ev.attributes && k != "logpond_late" && k != "logpond_intended_segment" ::
                k in r.1.attributes && r.1.attributes[k] == ev.attributes[k])
  {
    hide ParseSegmentID, SegmentID, InCalendar;
    IdReadsBack(ev.timestamp, w);
  }

  function WithFile(files: map<Path, File>, id: string): map<Path, File> {
    if InActive(id) in files then files else files[InActive(id) := []]
  }

  function WithRow(rows: map<string, Row>, id: string, start: int, w: int): map<string, Row> {
    if id in rows then rows else rows[id := NewActiveRow(start, start + w, InActive(id))]
  }

  /** Creating the file, then the row, of an id opens its slot step by step and leaves every other
      one alone. */
  lemma CreatedIsOpened(rows: map<string, Row>, files: map<Path, File>, id: string, start: int, w: int)
    requires ParseSegmentID(id) == Some(start)
    ensures var s := SlotFrom(rows, files, id, false);
            SlotFrom(rows, WithFile(files, id), id, false) == OpenPrefix(s, id, w, 1) &&
            SlotFrom(WithRow(rows, id, start, w), WithFile(files, id), id, false) == OpenPrefix(s, id, w, 2) &&
            SlotFrom(WithRow(rows, id, start, w), WithFile(files, id), id, true) == OpenPrefix(s, id, w, OPENED)
    ensures forall other, open | other != id ::
              SlotFrom(rows, WithFile(files, id), other, open) == SlotFrom(rows, files, other, open) &&
              SlotFrom(WithRow(rows, id, start, w), WithFile(files, id), other, open) ==
                SlotFrom(rows, files, other, open)
  {
    hide ParseSegmentID;
  }

  function SealedFiles(files: map<Path, File>, id: string, steps: nat, torn: File): map<Path, File>
    requires InActive(id) in files
  {
    if steps == 0 then files
    else if steps == 1 then files - {InTmp(id)}
    else if steps == 2 then files[InTmp(id) := torn]
    else if steps == EXPORTED then files[InTmp(id) := Export(files[InActive(id)])]
    else
      var renamed := files[InSealed(id) := Export(files[InActive(id)])] - {InTmp(id)};
      if steps <= MARKED then renamed else renamed - {InActive(id)}
  }

  function SealedRows(rows: map<string, Row>, files: map<Path, File>, id: string, pq: Parquet, steps: nat,
                      now: int): map<string, Row>
    requires InActive(id) in files && files[InActive(id)] != []
  {
    if steps > RENAMED && id in rows then rows[id := SealedRow(rows[id], SealUpdate(files[InActive(id)], id, pq), now)]
    else rows
  }

  /** Exporting, renaming, marking and removing seal the slot of an id step by step and leave every
      other one alone. */
  lemma SealedStepByStep(rows: map<string, Row>, files: map<Path, File>, id: string, pq: Parquet, steps: nat,
                         torn: File, now: int)
    requires InActive(id) in files && files[InActive(id)] != []
    ensures SlotFrom(SealedRows(rows, files, id, pq, steps, now), SealedFiles(files, id, steps, torn), id, false) ==
            SealPrefix(SlotFrom(rows, files, id, false), id, pq, steps, torn, now)
    ensures forall other, open | other != id ::
              SlotFrom(SealedRows(rows, files, id, pq, steps, now), SealedFiles(files, id, steps, torn), other, open) ==
                SlotFrom(rows, files, other, open)
  {
    hide Export, SealUpdate, SealedRow;
  }

  /** What an insert that fails has written. */
  function FirstRows(rows: File, n: nat): File {
    if n <= |rows| then rows[..n] else rows
  }

  // ---------------------------------------------------------------------- manager

  class Manager {
    const window: int
    const grace: int
    const pq: Parquet
    const catalog: Catalog
    const disk: Disk
    var open: map<string, Window>
    var closing: bool

    constructor (window: int, grace: int, pq: Parquet, catalog: Catalog, disk: Disk)
      requires window > 0
      ensures this.window == window && this.pq == pq && this.catalog == catalog && this.disk == disk
      ensures this.grace == if grace <= 0 then MINUTE else grace
      ensures open == map[] && !closing && Valid()
    {
      this.window, this.pq, this.catalog, this.disk := window, pq, catalog, disk;
      this.grace := if grace <= 0 then MINUTE else grace;
      this.open, this.closing := map[], false;
    }

    /** Open segments have a file and their window's bounds. */
    ghost predicate Valid()
      reads this, disk
    {
      window > 0 &&
      forall id | id in open ::
        InActive(id) in disk.files && ParseSegmentID(id).Some? &&
        open[id] == Window(ParseSegmentID(id).value, ParseSegmentID(id).value + window)
    }

    /** Everything kept for one id. */
    ghost function View(id: string): Slot
      reads this, catalog, disk
    {
      SlotFrom(catalog.rows, disk.files, id, id in open)
    }

    twostate predicate OthersUnchanged(id: string)
      reads this, catalog, disk
    {
      forall other | other != id :: View(other) == old(View(other))
    }

    method EnsureFile(id: string)
      modifies disk
      ensures disk.files == WithFile(old(disk.files), id)
    {
      if InActive(id) !in disk.files {
        disk.Write(InActive(id), []);
      }
    }

    method EnsureCatalogRow(id: string, start: int)
      modifies catalog
      ensures catalog.rows == WithRow(old(catalog.rows), id, start, window)
    {
      if id !in catalog.rows {
        var inserted := catalog.Insert(id, NewActiveRow(start, start + window, InActive(id)));
      }
    }

    lemma OpenStaysOpen(id: string, steps: nat)
      requires Valid() && id in open
      ensures ParseSegmentID(id).Some? && OpenPrefix(View(id), id, window, steps) == View(id)
    {
      hide ParseSegmentID;
    }

    /** Opening an id, cut off after a number of durable steps when one of them fails. */
    method OpenOrCreate(id: string, steps: nat) returns (ok: bool)
      requires Valid()
      modifies this, catalog, disk
      ensures Valid() && closing == old(closing)
      ensures ok <==> !old(closing) && (id in old(open) || (ParseSegmentID(id).Some? && steps >= OPENED))
      ensures View(id) == if old(closing) || ParseSegmentID(id).None? then old(View(id))
              else OpenPrefix(old(View(id)), id, window, steps)
      ensures OthersUnchanged(id)
      ensures open.Keys == old(open.Keys) + (if ok then {id} else {})
    {
      hide ParseSegmentID, SlotFrom, WithRow, OpenSlot;
      if closing {
        return false;
      }
      if id in open {
        assert open.Keys == open.Keys + {id};
        OpenStaysOpen(id, steps);
        return true;
      }
      var start := ParseSegmentID(id);
      if start.None? || steps == 0 {
        return false;
      }
      CreatedIsOpened(catalog.rows, disk.files, id, start.value, window);
      EnsureFile(id);
      if steps == 1 {
        return false;
      }
      EnsureCatalogRow(id, start.value);
      if steps < OPENED {
        return false;
      }
      open := open[id := Window(start.value, start.value + window)];
      ok := true;
    }

    method InsertBatch(id: string, batch: File)
      requires Valid() && id in open
      modifies disk
      ensures Valid()
      ensures View(id) == WriteSlot(old(View(id)), batch)
      ensures OthersUnchanged(id)
    {
      hide ParseSegmentID;
      disk.Write(InActive(id), disk.files[InActive(id)] + batch);
    }

    /** Sorting a batch into groups by target. */
    method Group(current: string, events: seq<Event>) returns (groups: map<string, File>)
      requires window > 0
      ensures groups.Keys == Targets(open.Keys, current, window, events)
      ensures forall id ::
                Share(open.Keys, current, window, events, id) == if id in groups then groups[id] else []
      ensures forall id | id in groups :: id in open || id == current
    {
      hide Route, Targets, Share;
      groups := map[];
      NoTargets(open.Keys, current, window, events);
      NoShares(open.Keys, current, window, events);
      for i := 0 to |events|
        invariant groups.Keys == Targets(open.Keys, current, window, events[..i])
        invariant forall id ::
                    Share(open.Keys, current, window, events[..i], id) == if id in groups then groups[id] else []
        invariant forall id | id in groups :: id in open || id == current
      {
        var r := Route(open.Keys, current, window, events[i]);
        RouteTarget(open.Keys, current, window, events[i]);
        OneMoreTarget(open.Keys, current, window, events, i);
        forall id ensures Share(open.Keys, current, window, events[..i + 1], id) ==
                          Share(open.Keys, current, window, events[..i], id) + (if r.0 == id then [r.1] else [])
        {
          OneMoreShare(open.Keys, current, window, events, i, id);
        }
        groups := groups[r.0 := (if r.0 in groups then groups[r.0] else []) + [r.1]];
      }
      assert events[..|events|] == events;
    }

    /** Flushing opens the current segment, then writes each targeted segment its whole share, and
        nothing else. When a step of the opening or a batch insert fails, the flush stops there: some
        targets have their share, the one whose insert failed has the first rows of it, the others
        none. */
    method Flush(events: seq<Event>, now: int, steps: nat, writes: nat, torn: nat)
      returns (ok: bool, ghost done: set<string>, ghost cut: Option<string>)
      requires Valid()
      modifies this, catalog, disk
      ensures Valid() && closing == old(closing)
      ensures var current := SegmentID(now, window);
              var opens := !old(closing) &&
                (current in old(open) || (ParseSegmentID(current).Some? && steps >= OPENED));
              var targets := Targets(old(open.Keys) + {current}, current, window, events);
              (ok <==> events == [] || (opens && |targets| <= writes)) && done <= targets && (ok ==> done == targets) &&
              (!opens ==> done == {} && cut.None?) && (cut.Some? ==> !ok && cut.value in targets - done) &&
              (opens && !ok ==> cut.Some?)
      ensures var current := SegmentID(now, window);
              forall id :: View(id) ==
                var s := if events == [] || id != current || old(closing) || ParseSegmentID(current).None?
                         then old(View(id))
                         else OpenPrefix(old(View(id)), id, window, steps);
                var share := Share(old(open.Keys) + {current}, current, window, events, id);
                if id in done then WriteSlot(s, share)
                else if cut == Some(id) then WriteSlot(s, FirstRows(share, torn))
                else s
    {
      hide ParseSegmentID, SegmentID, Share, OpenPrefix, SlotFrom, WriteSlot, FirstRows;
      done, cut := {}, None;
      if events == [] {
        NoTargets(open.Keys + {SegmentID(now, window)}, SegmentID(now, window), window, events);
        assert events[..0] == events;
        return true, {}, None;
      }
      var current := SegmentID(now, window);
      ok := OpenOrCreate(current, steps);
      if !ok {
        return;
      }
      label Opened:
      var groups := Group(current, events);
      ok, done, cut := WriteGroups(groups, writes, torn);
      forall id | id != current ensures old@Opened(View(id)) == old(View(id)) {
      }
    }

    method WriteGroup(id: string, batch: File)
      requires Valid() && !closing && id in open
      modifies this, catalog, disk
      ensures Valid() && closing == old(closing) && open.Keys == old(open.Keys)
      ensures View(id) == WriteSlot(old(View(id)), batch)
      ensures OthersUnchanged(id)
    {
      hide ParseSegmentID, WriteSlot, SlotFrom, OpenPrefix;
      OpenStaysOpen(id, OPENED);
      label Before:
      var again := OpenOrCreate(id, OPENED);
      assert View(id) == old@Before(View(id));
      InsertBatch(id, batch);
    }

    /** Batch inserts in any order, until one fails after its first rows. */
    method WriteGroups(groups: map<string, File>, writes: nat, torn: nat)
      returns (ok: bool, ghost done: set<string>, ghost cut: Option<string>)
      requires Valid() && !closing && forall id | id in groups :: id in open
      modifies this, catalog, disk
      ensures Valid() && closing == old(closing) && open.Keys == old(open.Keys)
      ensures done <= groups.Keys && (ok <==> |groups.Keys| <= writes) && (ok ==> done == groups.Keys)
      ensures (cut.Some? <==> !ok) && (cut.Some? ==> cut.value in groups.Keys - done)
      ensures forall id :: View(id) ==
                if id in done then WriteSlot(old(View(id)), groups[id])
                else if cut == Some(id) then WriteSlot(old(View(id)), FirstRows(groups[id], torn))
                else old(View(id))
    {
      hide WriteSlot, Split, View, Valid, FirstRows;
      cut := None;
      StartSplit(groups.Keys);
      var pending := groups.Keys;
      var left := writes;
      done := {};
      while pending != {}
        invariant Valid() && !closing && open.Keys == old(open.Keys)
        invariant Split(pending, done, groups.Keys) && done <= groups.Keys && 0 <= left == writes - |done|
        invariant forall id :: View(id) == if id in done then WriteSlot(old(View(id)), groups[id]) else old(View(id))
      {
        var id :| id in pending;
        OneMoreDone(pending, done, groups.Keys, id);
        if left == 0 {
          WriteGroup(id, FirstRows(groups[id], torn));
          return false, done, Some(id);
        }
        WriteGroup(id, groups[id]);
        pending := pending - {id};
        done := done + {id};
        left := left - 1;
      }
      AllDone(done, groups.Keys);
      ok := true;
    }

    lemma OpenHasFile(id: string)
      requires Valid() && id in open
      ensures View(id).active.Some?
    {
      hide ParseSegmentID;
    }

    // -------------------------------------------------------------------- sealing

    /** The open ids whose window ended at least the grace period ago. */
    ghost predicate Sealable(id: string, now: int)
      reads this
    {
      id in open && open[id].timeEnd <= now - grace
    }

    method SealableNow(now: int) returns (ids: seq<string>)
      ensures forall id :: id in ids <==> Sealable(id, now)
      ensures forall i, j | 0 <= i < j < |ids| :: Less(ids[i], ids[j])
    {
      ids := [];
      var pending := open.Keys;
      while pending != {}
        invariant pending <= open.Keys
        invariant forall id :: id in ids <==> Sealable(id, now) && id !in pending
        invariant forall i, j | 0 <= i < j < |ids| :: Less(ids[i], ids[j])
      {
        var id :| id in pending;
        pending := pending - {id};
        if open[id].timeEnd <= now - grace {
          ids := InsertId(id, ids);
        }
      }
    }

    /** The file half of sealing: export to a temporary file, then rename. */
    method ExportFile(id: string, rows: File, steps: nat, torn: File)
      requires 0 < steps
      modifies disk
      ensures disk.files == (
        if steps == 1 then old(disk.files) - {InTmp(id)}
        else if steps == 2 then old(disk.files)[InTmp(id) := torn]
        else if steps == EXPORTED then old(disk.files)[InTmp(id) := Export(rows)]
        else old(disk.files)[InSealed(id) := Export(rows)] - {InTmp(id)})
    {
      disk.Remove(InTmp(id));
      if steps == 1 {
        return;
      }
      disk.Write(InTmp(id), torn);
      if steps == 2 {
        return;
      }
      disk.Write(InTmp(id), Export(rows));
      if steps == EXPORTED {
        return;
      }
      disk.Rename(InTmp(id), InSealed(id));
    }

    /** An empty segment loses its file, then its row. */
    method DropEmpty(id: string, steps: nat)
      requires Valid() && id !in open && InActive(id) in disk.files && disk.files[InActive(id)] == []
      modifies catalog, disk
      ensures Valid() && OthersUnchanged(id)
      ensures View(id) == SealPrefix(old(View(id)), id, pq, steps, [], 0)
    {
      hide ParseSegmentID, Export, SealUpdate, SealedRow;
      if steps == 0 {
        return;
      }
      disk.Remove(InActive(id));
      if steps > 1 {
        catalog.Delete(id);
      }
    }

    method SealRows(id: string, steps: nat, torn: File, now: int)
      requires Valid() && id !in open && InActive(id) in disk.files && disk.files[InActive(id)] != []
      modifies catalog, disk
      ensures Valid() && OthersUnchanged(id)
      ensures View(id) == SealPrefix(old(View(id)), id, pq, steps, torn, now)
    {
      hide ParseSegmentID, Export, SealUpdate, SealedRow, SlotFrom, SealPrefix;
      var rows := disk.files[InActive(id)];
      SealedStepByStep(catalog.rows, disk.files, id, pq, steps, torn, now);
      if steps == 0 {
        return;
      }
      ExportFile(id, rows, steps, torn);
      if steps > RENAMED {
        Commit(id, rows, steps == MARKED, now);
      }
    }

    /** The catalog learns of the sealed file before the active one goes. */
    method Commit(id: string, rows: File, stop: bool, now: int)
      requires rows != []
      modifies catalog, disk
      ensures catalog.rows ==
              if id !in old(catalog.rows) then old(catalog.rows)
              else old(catalog.rows)[id := SealedRow(old(catalog.rows)[id], SealUpdate(rows, id, pq), now)]
      ensures disk.files == if stop then old(disk.files) else old(disk.files) - {InActive(id)}
    {
      hide SealUpdate, SealedRow;
      catalog.MarkSealed(id, SealUpdate(rows, id, pq), now);
      if !stop {
        disk.Remove(InActive(id));
      }
    }

    /** Sealing one segment, cut off after a number of durable steps. */
    method SealOne(id: string, steps: nat, torn: File, now: int)
      requires Valid()
      modifies this, catalog, disk
      ensures Valid() && closing == old(closing) && open == old(open) - {id}
      ensures id !in old(open) ==> View(id) == old(View(id))
      ensures id in old(open) ==> View(id) == SealPrefix(old(View(id)), id, pq, steps, torn, now)
      ensures OthersUnchanged(id)
    {
      hide ParseSegmentID, Export, SealUpdate, SealedRow;
      if id !in open {
        assert open - {id} == open;
        return;
      }
      open := open - {id};
      label Taken:
      if disk.files[InActive(id)] == [] {
        DropEmpty(id, steps);
      } else {
        SealRows(id, steps, torn, now);
      }
      forall other | other != id ensures View(other) == old(View(other)) {
        assert old@Taken(View(other)) == old(View(other));
      }
      assert old@Taken(View(id)) == old(View(id)).(open := false);
    }

    /** One pass of the sealing loop without interruption. */
    method SealOnce(now: int) returns (ids: seq<string>)
      requires Valid()
      modifies this, catalog, disk
      ensures Valid() && closing == old(closing)
      ensures forall id :: id in ids <==> old(Sealable(id, now))
      ensures forall id :: View(id) ==
                if old(Sealable(id, now)) then SealPrefix(old(View(id)), id, pq, SEALED, [], now) else old(View(id))
    {
      hide ParseSegmentID, SealPrefix, Less, SlotFrom, View, Valid;
      ids := SealableNow(now);
      forall id | id in ids ensures View(id).active.Some? && id in open {
        OpenHasFile(id);
      }
      var i := 0;
      while i < |ids|
        invariant 0 <= i <= |ids| && Valid() && closing == old(closing)
        invariant forall id :: id in open <==> id in old(open) && id !in ids[..i]
        invariant forall id | id in ids :: old(View(id)).active.Some? && id in old(open)
        invariant forall id :: View(id) ==
                    if id in ids[..i] then SealPrefix(old(View(id)), id, pq, SEALED, [], now) else old(View(id))
      {
        assert ids[i] !in ids[..i] by {
          if k :| 0 <= k < i && ids[k] == ids[i] {
            LessTrichotomy(ids[k], ids[i]);
          }
        }
        SealOne(ids[i], SEALED, [], now);
        assert ids[..i + 1] == ids[..i] + [ids[i]];
        i := i + 1;
      }
      assert ids[..|ids|] == ids;
    }
  }

  /** The ids still to do and those done are all of them, and no id is both. */
  ghost predicate Split(pending: set<string>, done: set<string>, all: set<string>) {
    pending + done == all && pending !! done
  }

  lemma StartSplit(all: set<string>)
    ensures Split(all, {}, all)
  {
  }

  lemma OneMoreDone(pending: set<string>, done: set<string>, all: set<string>, id: string)
    requires Split(pending, done, all) && id in pending
    ensures Split(pending - {id}, done + {id}, all) && |done + {id}| == |done| + 1 && |done| < |all| && id !in done &&
            id in all
    ensures done <= all
  {
    assert |pending + done| == |pending| + |done|;
  }

  lemma AllDone(done: set<string>, all: set<string>)
    requires Split({}, done, all)
    ensures done == all
  {
  }

  /** Keeping a list of ids sorted. */
  method InsertId(id: string, ids: seq<string>) returns (out: seq<string>)
    requires id !in ids && forall i, j | 0 <= i < j < |ids| :: Less(ids[i], ids[j])
    ensures forall i, j | 0 <= i < j < |out| :: Less(out[i], out[j])
    ensures forall x :: x in out <==> x == id || x in ids
  {
    hide Less;
    var k := 0;
    while k < |ids| && Less(ids[k], id)
      invariant 0 <= k <= |ids|
      invariant forall i | 0 <= i < k :: Less(ids[i], id)
    {
      k := k + 1;
    }
    out := ids[..k] + [id] + ids[k..];
    assert ids == ids[..k] + ids[k..];
    forall j | k <= j < |ids| ensures Less(id, ids[j]) {
      LessTrichotomy(ids[k], id);
      if j > k {
        LessTransitive(id, ids[k], ids[j]);
      }
    }
  }
}
