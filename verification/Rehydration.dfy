/** Fetching archived segments back and evicting them when their time is up. */
module Rehydration {
  import opened Text
  import opened SegmentCatalog
  import opened DataDir
  import opened RetentionPolicy
  import opened Slots
  import Lifecycle
  import Retention
  import S3

  /** A rehydrated segment that is due; persistent ones have no expiry. */
  predicate Expired(r: Row, now: int) {
    r.state == Rehydrated && r.evictAfter.Some? && r.evictAfter.value <= now
  }

  /** Eviction falls back to the archive copy when the row points at one. */
  function EvictedRow(r: Row): Row {
    ClearedRow(r, if r.Referenced() then Archived else Lost)
  }

  /** What a finished item of a job leaves: a rehydrated row with the asked-for expiry and every
      reference it had, and a local file of its own. */
  predicate Fetched(rows: map<string, Row>, files: map<Path, File>, id: string, before: Row, evictAfter: Option<int>) {
    id in rows && rows[id].state == Rehydrated && rows[id].evictAfter == evictAfter &&
    KeepsReference(before, rows[id]) &&
    rows[id].localPath.Some? && rows[id].localPath.value.id == id && rows[id].localPath.value in files
  }

  lemma AgreeKeepsFetched(id: string, rows: map<string, Row>, files: map<Path, File>, rows': map<string, Row>,
                          files': map<Path, File>, before: Row, evictAfter: Option<int>)
    requires Fetched(rows, files, id, before, evictAfter) && Retention.Agree(id, rows', files', rows, files)
    ensures Fetched(rows', files', id, before, evictAfter)
  {
    assert Look(rows', id) == Look(rows, id);
    assert Look(files', rows[id].localPath.value) == Look(files, rows[id].localPath.value);
  }

  /** The row is rehydrated and its file is there. */
  predicate AlreadyLocal(r: Row, files: map<Path, File>) {
    r.state == Rehydrated && r.localPath.Some? && r.localPath.value in files
  }

  /** How far one item gets when every call to the store is answered and stop local steps succeed:
      the file is in its place (1) before its hash is compared, and then the row says so (2). */
  function Reached(stop: nat, downloads: bool, mismatched: bool): nat {
    if stop == 0 || !downloads then 0 else if stop == 1 || mismatched then 1 else 2
  }

  /** A local item has only its row to update; any other needs the store's file and manifest to be
      there and to match. */
  predicate Succeeds(local: bool, stop: nat, downloads: bool, mismatched: bool) {
    if local then stop >= 1 else Reached(stop, downloads, mismatched) == 2
  }

  /** The slot with the rows the store has under the segment's name. */
  function Offered(rows: map<string, Row>, files: map<Path, File>, id: string, open: bool, copy: File): Slot {
    Retention.WithCopy(SlotFrom(rows, files, id, open), Some(copy), true)
  }

  lemma LocalInSlot(rows: map<string, Row>, files: map<Path, File>, id: string, open: bool, copy: File)
    requires id in rows && (rows[id].localPath.Some? ==> rows[id].localPath.value.id == id)
    ensures var s := Offered(rows, files, id, open, copy);
            s.row == Some(rows[id]) && s.remote == Some(copy) &&
            (AlreadyLocal(rows[id], files) <==> rows[id].state == Rehydrated && LocalFile(s).Some?)
  {
    if rows[id].localPath.Some? {
      var path := rows[id].localPath.value;
      assert path in {InActive(id), InTmp(id), InSealed(id), InOrphans(id), InRehydrated(id)};
    }
  }

  /** The catalog and the data directory after the given step of fetching an id. */
  ghost predicate FetchedTo(done: nat, rows: map<string, Row>, files: map<Path, File>, rows0: map<string, Row>,
                            files0: map<Path, File>, id: string, u: RehydrateUpdate, now: int, copy: File)
    requires id in rows0
  {
    if AlreadyLocal(rows0[id], files0) then
      done <= 1 && files == files0 && rows == if done == 1 then rows0[id := rows0[id].(evictAfter := u.evictAfter)]
      else rows0
    else
      done <= 2 && files == (if done == 0 then files0 else files0[InRehydrated(id) := copy]) &&
      rows == if done == 2 then rows0[id := RehydratedRow(rows0[id], u, now)] else rows0
  }

  /** What a fetch leaves is what the steps of rehydrating the slot leave. */
  lemma FetchedStepByStep(done: nat, rows: map<string, Row>, files: map<Path, File>, rows0: map<string, Row>,
                          files0: map<Path, File>, id: string, u: RehydrateUpdate, now: int, copy: File)
    requires id in rows0 && (rows0[id].localPath.Some? ==> rows0[id].localPath.value.id == id) &&
             u.localPath == InRehydrated(id)
    requires FetchedTo(done, rows, files, rows0, files0, id, u, now, copy)
    ensures forall open ::
              Offered(rows, files, id, open, copy) ==
                Lifecycle.RehydratePrefix(Offered(rows0, files0, id, open, copy), id, done, u, now)
  {
    hide LocalFile, RehydratedRow;
    forall open {
      LocalInSlot(rows0, files0, id, open, copy);
    }
  }

  lemma FetchedElsewhere(done: nat, rows: map<string, Row>, files: map<Path, File>, rows0: map<string, Row>,
                         files0: map<Path, File>, id: string, u: RehydrateUpdate, now: int, copy: File)
    requires id in rows0 && (rows0[id].localPath.Some? ==> rows0[id].localPath.value.id == id) &&
             u.localPath == InRehydrated(id)
    requires FetchedTo(done, rows, files, rows0, files0, id, u, now, copy)
    ensures forall other | other != id :: Retention.Agree(other, rows, files, rows0, files0)
    ensures done == (if AlreadyLocal(rows0[id], files0) then 1 else 2) ==>
              Fetched(rows, files, id, rows0[id], u.evictAfter)
  {
  }

  /** The row and the files of an id are as before, but for a file that was left. */
  ghost predicate LeftBehind(id: string, rows: map<string, Row>, files: map<Path, File>, rows0: map<string, Row>,
                             files0: map<Path, File>, left: Option<File>) {
    Look(rows, id) == Look(rows0, id) &&
    (forall p: Path | p.id == id && p != InRehydrated(id) :: Look(files, p) == Look(files0, p)) &&
    Look(files, InRehydrated(id)) == if left.Some? then left else Look(files0, InRehydrated(id))
  }

  lemma LeftBehindSince(id: string, rows: map<string, Row>, files: map<Path, File>, rows1: map<string, Row>,
                        files1: map<Path, File>, rows0: map<string, Row>, files0: map<Path, File>, left: Option<File>)
    requires rows == rows1 && Retention.Agree(id, rows1, files1, rows0, files0)
    requires files == if left.Some? then files1[InRehydrated(id) := left.value] else files1
    ensures LeftBehind(id, rows, files, rows0, files0, left)
  {
    assert InRehydrated(id).id == id;
  }

  lemma SameLocal(id: string, r: Row, rows: map<string, Row>, files: map<Path, File>, rows0: map<string, Row>,
                  files0: map<Path, File>)
    requires Retention.Agree(id, rows, files, rows0, files0) && (r.localPath.Some? ==> r.localPath.value.id == id)
    ensures AlreadyLocal(r, files) <==> AlreadyLocal(r, files0)
  {
    if r.localPath.Some? {
      assert Look(files, r.localPath.value) == Look(files0, r.localPath.value);
    }
  }

  /** Soonest expiry first, those without one last. */
  predicate Sooner(r: Row, s: Row) {
    s.evictAfter.None? || (r.evictAfter.Some? && r.evictAfter.value <= s.evictAfter.value)
  }

  ghost predicate SoonestFirst(segs: seq<Listed>) {
    forall i, j | 0 <= i < j < |segs| :: Sooner(segs[i].row, segs[j].row)
  }

  /** The catalog's listing of rehydrated segments. */
  method ListRehydrated(catalog: Catalog) returns (segs: seq<Listed>)
    ensures SoonestFirst(segs) && DistinctIds(segs)
    ensures forall s <- segs :: s.id in catalog.rows && catalog.rows[s.id] == s.row && s.row.state == Rehydrated
    ensures forall id | id in catalog.rows && catalog.rows[id].state == Rehydrated ::
              Listed(id, catalog.rows[id]) in segs
  {
    segs := [];
    var pending := catalog.rows.Keys;
    while pending != {}
      invariant pending <= catalog.rows.Keys && SoonestFirst(segs) && DistinctIds(segs)
      invariant forall s <- segs ::
                  s.id in catalog.rows && s.id !in pending && catalog.rows[s.id] == s.row && s.row.state == Rehydrated
      invariant forall id | id in catalog.rows && id !in pending && catalog.rows[id].state == Rehydrated ::
                  Listed(id, catalog.rows[id]) in segs
    {
      var id :| id in pending;
      pending := pending - {id};
      if catalog.rows[id].state == Rehydrated {
        segs := InsertSoonest(Listed(id, catalog.rows[id]), segs);
      }
    }
  }

  method InsertSoonest(s: Listed, segs: seq<Listed>) returns (out: seq<Listed>)
    requires SoonestFirst(segs) && DistinctIds(segs) && forall t <- segs :: t.id != s.id
    ensures SoonestFirst(out) && DistinctIds(out) && forall t :: t in out <==> t == s || t in segs
  {
    var k := 0;
    while k < |segs| && Sooner(segs[k].row, s.row)
      invariant 0 <= k <= |segs|
      invariant forall i | 0 <= i < k :: Sooner(segs[i].row, s.row)
    {
      k := k + 1;
    }
    out := Retention.Placed(s, segs, k);
    PlacedSoonest(s, segs, k);
    Retention.PlacedDistinct(s, segs, k);
    Retention.PlacedMembers(s, segs, k);
  }

  lemma PlacedSoonest(s: Listed, segs: seq<Listed>, k: nat)
    requires k <= |segs| && SoonestFirst(segs)
    requires (forall i | 0 <= i < k :: Sooner(segs[i].row, s.row)) && (k < |segs| ==> !Sooner(segs[k].row, s.row))
    ensures SoonestFirst(Retention.Placed(s, segs, k))
  {
    assert forall i | k < i < |segs| :: Sooner(segs[k].row, segs[i].row);
  }

  /** Removing a row's file, and then clearing the row, are the steps of evicting its slot. */
  ghost predicate EvictedInSteps(rows: map<string, Row>, files: map<Path, File>, id: string, open: bool)
    requires id in rows
  {
    var s := SlotFrom(rows, files, id, open);
    s.row.Some? && s == Lifecycle.EvictPrefix(s, 0) &&
    SlotFrom(rows, Retention.WithoutLocal(files, rows[id]), id, open) == Lifecycle.EvictPrefix(s, 1) &&
    SlotFrom(rows[id := EvictedRow(rows[id])], Retention.WithoutLocal(files, rows[id]), id, open) ==
      Lifecycle.EvictPrefix(s, 2)
  }

  lemma EvictedOnce(rows: map<string, Row>, files: map<Path, File>, id: string, open: bool)
    requires id in rows && (rows[id].localPath.Some? ==> rows[id].localPath.value.id == id)
    ensures EvictedInSteps(rows, files, id, open)
  {
    Retention.RemovedIsDropped(rows, files, id, if rows[id].Referenced() then Archived else Lost, open);
  }

  lemma EvictedStepByStep(rows: map<string, Row>, files: map<Path, File>, id: string)
    requires id in rows && (rows[id].localPath.Some? ==> rows[id].localPath.value.id == id)
    ensures forall open :: SlotFrom(rows, files, id, open).row.Some?
    ensures forall open :: SlotFrom(rows, files, id, open) == Lifecycle.EvictPrefix(SlotFrom(rows, files, id, open), 0)
    ensures forall open ::
              SlotFrom(rows, Retention.WithoutLocal(files, rows[id]), id, open) ==
                Lifecycle.EvictPrefix(SlotFrom(rows, files, id, open), 1)
    ensures forall open ::
              SlotFrom(rows[id := EvictedRow(rows[id])], Retention.WithoutLocal(files, rows[id]), id, open) ==
              Lifecycle.EvictPrefix(SlotFrom(rows, files, id, open), 2)
  {
    hide SlotFrom, Lifecycle.EvictPrefix;
    forall open ensures SlotFrom(rows, files, id, open).row.Some? && EvictedInSteps(rows, files, id, open) {
      EvictedOnce(rows, files, id, open);
    }
  }

  /** Due to go and read by no query. */
  predicate Due(rows: map<string, Row>, id: string, now: int, busy: set<string>) {
    id in rows && Expired(rows[id], now) && id !in busy
  }

  /** The file was that of a due segment of these, and its removal did not fail. */
  ghost predicate RemovedBy(done: set<string>, p: Path, rows: map<string, Row>, now: int, busy: set<string>,
                            stop: string -> nat) {
    exists id | id in rows :: id in done && Due(rows, id, now, busy) && stop(id) >= 1 && rows[id].localPath == Some(p)
  }

  /** What sweeping these ids does to the catalog and the data directory. */
  ghost predicate Swept(done: set<string>, rows: map<string, Row>, files: map<Path, File>, rows': map<string, Row>,
                        files': map<Path, File>, now: int, busy: set<string>, stop: string -> nat) {
    rows'.Keys == rows.Keys &&
    (forall id | id in rows ::
       rows'[id] == if id in done && Due(rows, id, now, busy) && stop(id) >= 2 then EvictedRow(rows[id])
       else rows[id]) &&
    (forall p: Path | p in files' :: p in files && files'[p] == files[p]) &&
    forall p: Path | p in files :: p !in files' <==> RemovedBy(done, p, rows, now, busy, stop)
  }

  lemma SweptMore(done: set<string>, id: string, rows: map<string, Row>, files: map<Path, File>,
                  rows1: map<string, Row>, files1: map<Path, File>, rows2: map<string, Row>, files2: map<Path, File>,
                  now: int, busy: set<string>, stop: string -> nat)
    requires Swept(done, rows, files, rows1, files1, now, busy, stop) && id in rows && id !in done
    requires rows2 == if Due(rows, id, now, busy) && stop(id) >= 2 then rows1[id := EvictedRow(rows[id])] else rows1
    requires files2 == if Due(rows, id, now, busy) && stop(id) >= 1 then Retention.WithoutLocal(files1, rows[id])
             else files1
    ensures Swept(done + {id}, rows, files, rows2, files2, now, busy, stop)
  {
    hide EvictedRow, Due;
    forall p: Path | p in files
      ensures RemovedBy(done + {id}, p, rows, now, busy, stop) <==>
              RemovedBy(done, p, rows, now, busy, stop) ||
              (Due(rows, id, now, busy) && stop(id) >= 1 && rows[id].localPath == Some(p))
    {
    }
  }

  /** The columns that fetching a segment back rewrites: what the manifest leaves open stays. */
  function Refetched(r: Row, m: S3.Manifest, id: string, evictAfter: Option<int>, now: int): Row {
    r.(state := Rehydrated, localPath := Some(InRehydrated(id)), evictAfter := evictAfter, rehydratedAt := Some(now),
       rowCount := if m.rowCount > 0 then m.rowCount else r.rowCount,
       sizeBytes := if m.sizeBytes > 0 then m.sizeBytes else r.sizeBytes,
       parquetSha := if m.sha != "" then Some(m.sha) else r.parquetSha)
  }

  lemma RefetchedColumns(r: Row, m: S3.Manifest, id: string, evictAfter: Option<int>, now: int)
    ensures RehydratedRow(r, RehydrateUpdate(InRehydrated(id), m.rowCount, m.sizeBytes, m.sha, evictAfter), now) ==
            Refetched(r, m, id, evictAfter, now)
  {
  }

  class Rehydrator {
    const catalog: Catalog
    const disk: Disk
    const backend: S3.Backend
    const pq: Parquet
    const parse: seq<int> -> File

    constructor (catalog: Catalog, disk: Disk, backend: S3.Backend, pq: Parquet, parse: seq<int> -> File)
      ensures this.catalog == catalog && this.disk == disk && this.backend == backend && this.pq == pq &&
              this.parse == parse
    {
      this.catalog, this.disk, this.backend, this.pq, this.parse := catalog, disk, backend, pq, parse;
    }

    // ------------------------------------------------------------------- eviction

    /** Removing the file, then clearing the row, cut off after the given number of steps when one of
        them fails. */
    method Evict(id: string, stop: nat) returns (ok: bool)
      requires id in catalog.rows
      modifies catalog, disk
      ensures ok <==> stop >= 2
      ensures catalog.rows == if ok then old(catalog.rows)[id := EvictedRow(old(catalog.rows)[id])]
              else old(catalog.rows)
      ensures ok ==>
                var r := old(catalog.rows)[id];
                catalog.rows[id] ==
                r.(state := if r.s3Url.Some? || r.archiveRef.Some? then Archived else Lost, localPath := None,
                   evictAfter := None)
      ensures disk.files == if stop == 0 then old(disk.files)
              else Retention.WithoutLocal(old(disk.files), old(catalog.rows)[id])
      ensures (old(catalog.rows)[id].localPath.Some? ==> old(catalog.rows)[id].localPath.value.id == id) ==>
                forall open :: SlotFrom(catalog.rows, disk.files, id, open) ==
                               Lifecycle.EvictPrefix(SlotFrom(old(catalog.rows), old(disk.files), id, open),
                                                     if stop < 2 then stop else 2)
    {
      hide SlotFrom, Lifecycle.EvictPrefix;
      var r := catalog.rows[id];
      if r.localPath.Some? ==> r.localPath.value.id == id {
        EvictedStepByStep(catalog.rows, disk.files, id);
      }
      if stop == 0 {
        return false;
      }
      if r.localPath.Some? {
        disk.Remove(r.localPath.value);
      }
      if stop == 1 {
        return false;
      }
      ok := catalog.ClearLocalFile(id, if r.Referenced() then Archived else Lost);
    }

    /** Of those that cannot be evicted, one that expires first. */
    ghost predicate FirstStuck(err: string, rows: map<string, Row>, now: int, busy: set<string>, stop: string -> nat) {
      Due(rows, err, now, busy) && stop(err) < 2 &&
      forall id | Due(rows, id, now, busy) && stop(id) < 2 ::
        rows[err].evictAfter.value <= rows[id].evictAfter.value
    }

    /** One sweep evicts exactly the expired segments that no query is reading, except those whose
        file removal or catalog update fails: it goes on past them and reports the first. Every other
        row is as before, and a row that points at an archive comes out archived. */
    method Sweep(now: int, busy: set<string>, stop: string -> nat) returns (evicted: nat, firstErr: Option<string>)
      modifies catalog, disk
      ensures Swept(old(catalog.rows.Keys), old(catalog.rows), old(disk.files), catalog.rows, disk.files, now, busy,
                    stop)
      ensures evicted == |set id | id in old(catalog.rows) && Due(old(catalog.rows), id, now, busy) && stop(id) >= 2|
      ensures firstErr.None? ==> forall id | Due(old(catalog.rows), id, now, busy) :: stop(id) >= 2
      ensures firstErr.Some? ==> FirstStuck(firstErr.value, old(catalog.rows), now, busy, stop)
    {
      hide Swept, Due, SoonestFirst, DistinctIds, FirstStuck, FirstAt, Reported, Evicted, IdsOf;
      ghost var rows, files := catalog.rows, disk.files;
      var segs := ListRehydrated(catalog);
      evicted, firstErr := 0, None;
      NothingSwept(segs, rows, files, now, busy, stop);
      var i := 0;
      while i < |segs|
        invariant 0 <= i <= |segs| && Swept(IdsOf(segs[..i]), rows, files, catalog.rows, disk.files, now, busy, stop)
        invariant evicted == |Evicted(IdsOf(segs[..i]), rows, now, busy, stop)|
        invariant Reported(segs, i, firstErr, rows, now, busy, stop)
      {
        var s := segs[i];
        NextSwept(segs, i);
        var due, ok := SweepNext(s, now, busy, stop(s.id), IdsOf(segs[..i]), rows, files, stop);
        EvictedMore(IdsOf(segs[..i]), s.id, rows, now, busy, stop);
        ReportedMore(segs, i, firstErr, rows, now, busy, stop);
        if due && ok {
          evicted := evicted + 1;
        } else if due && firstErr.None? {
          firstErr := Some(s.id);
        }
        i := i + 1;
      }
      assert segs[..i] == segs;
      AllSwept(segs, rows, files, catalog.rows, disk.files, now, busy, stop);
      AllReported(segs, firstErr, rows, now, busy, stop);
    }

    ghost function Evicted(done: set<string>, rows: map<string, Row>, now: int, busy: set<string>,
                           stop: string -> nat): set<string> {
      set id | id in done && Due(rows, id, now, busy) && stop(id) >= 2
    }

    lemma EvictedMore(done: set<string>, id: string, rows: map<string, Row>, now: int, busy: set<string>,
                      stop: string -> nat)
      requires id !in done
      ensures |Evicted(done + {id}, rows, now, busy, stop)| ==
              |Evicted(done, rows, now, busy, stop)| + (if Due(rows, id, now, busy) && stop(id) >= 2 then 1 else 0)
    {
      hide Due;
      var before, after := Evicted(done, rows, now, busy, stop), Evicted(done + {id}, rows, now, busy, stop);
      if Due(rows, id, now, busy) && stop(id) >= 2 {
        assert after == before + {id} && id !in before;
      } else {
        assert after == before;
      }
    }

    /** The error reported is that of the first stuck one of the list so far. */
    ghost predicate Reported(segs: seq<Listed>, i: nat, err: Option<string>, rows: map<string, Row>, now: int,
                             busy: set<string>, stop: string -> nat)
      requires i <= |segs|
    {
      match err
      case None => forall k | 0 <= k < i && Due(rows, segs[k].id, now, busy) :: stop(segs[k].id) >= 2
      case Some(id) => exists at | 0 <= at < i :: FirstAt(segs, at, id, rows, now, busy, stop)
    }

    lemma ReportedMore(segs: seq<Listed>, i: nat, err: Option<string>, rows: map<string, Row>, now: int,
                       busy: set<string>, stop: string -> nat)
      requires i < |segs| && Reported(segs, i, err, rows, now, busy, stop)
      ensures var id := segs[i].id;
              Reported(segs, i + 1, if err.None? && Due(rows, id, now, busy) && stop(id) < 2 then Some(id) else err,
                       rows, now, busy, stop)
    {
      hide Due;
      if err.None? && Due(rows, segs[i].id, now, busy) && stop(segs[i].id) < 2 {
        assert FirstAt(segs, i, segs[i].id, rows, now, busy, stop);
      } else if err.Some? {
        var at :| 0 <= at < i && FirstAt(segs, at, err.value, rows, now, busy, stop);
        assert 0 <= at < i + 1;
      }
    }

    method EvictIfDue(s: Listed, now: int, busy: set<string>, stop: nat) returns (due: bool, ok: bool)
      requires s.id in catalog.rows && catalog.rows[s.id] == s.row && s.row.state == Rehydrated
      modifies catalog, disk
      ensures due <==> Expired(s.row, now) && s.id !in busy
      ensures ok <==> due && stop >= 2
      ensures catalog.rows == if ok then old(catalog.rows)[s.id := EvictedRow(s.row)] else old(catalog.rows)
      ensures disk.files == if due && stop >= 1 then Retention.WithoutLocal(old(disk.files), s.row) else old(disk.files)
    {
      hide EvictedRow, SlotFrom, Lifecycle.EvictPrefix;
      ok := false;
      due := s.row.evictAfter.Some? && s.row.evictAfter.value <= now && s.id !in busy;
      if due {
        ok := Evict(s.id, stop);
      }
    }

    method SweepNext(s: Listed, now: int, busy: set<string>, stop: nat, ghost done: set<string>,
                     ghost rows: map<string, Row>, ghost files: map<Path, File>, ghost stops: string -> nat)
                     returns (due: bool, ok: bool)
      requires Swept(done, rows, files, catalog.rows, disk.files, now, busy, stops) && s.id !in done &&
               stop == stops(s.id)
      requires s.id in rows && rows[s.id] == s.row && s.row.state == Rehydrated
      modifies catalog, disk
      ensures Swept(done + {s.id}, rows, files, catalog.rows, disk.files, now, busy, stops)
      ensures due <==> Due(rows, s.id, now, busy)
      ensures ok <==> due && stop >= 2
    {
      hide Swept, Due, Expired, EvictedRow, Retention.WithoutLocal;
      ghost var rows1, files1 := catalog.rows, disk.files;
      SweptHas(done, s.id, rows, files, rows1, files1, now, busy, stops);
      DueIs(rows, s.id, now, busy);
      due, ok := EvictIfDue(s, now, busy, stop);
      SweptMore(done, s.id, rows, files, rows1, files1, catalog.rows, disk.files, now, busy, stops);
    }

    lemma NextSwept(segs: seq<Listed>, i: nat)
      requires i < |segs| && DistinctIds(segs)
      ensures segs[i] in segs && segs[i].id !in IdsOf(segs[..i]) &&
              IdsOf(segs[..i + 1]) == IdsOf(segs[..i]) + {segs[i].id}
    {
      NotYetDone(segs, i);
      assert segs[..i + 1] == segs[..i] + [segs[i]];
      IdsOfSplit(segs[..i], segs[i]);
    }

    /** The element that is the first stuck one of the list. */
    ghost predicate FirstAt(segs: seq<Listed>, at: nat, err: string, rows: map<string, Row>, now: int,
                            busy: set<string>, stop: string -> nat) {
      at < |segs| && segs[at].id == err && Due(rows, err, now, busy) && stop(err) < 2 &&
      forall k | 0 <= k < at && Due(rows, segs[k].id, now, busy) :: stop(segs[k].id) >= 2
    }

    lemma DueIs(rows: map<string, Row>, id: string, now: int, busy: set<string>)
      ensures Due(rows, id, now, busy) <==> id in rows && Expired(rows[id], now) && id !in busy
      ensures Due(rows, id, now, busy) ==> rows[id].state == Rehydrated && rows[id].evictAfter.Some?
    {
    }

    lemma NothingSwept(segs: seq<Listed>, rows: map<string, Row>, files: map<Path, File>, now: int, busy: set<string>,
                       stop: string -> nat)
      ensures IdsOf(segs[..0]) == {} && Swept({}, rows, files, rows, files, now, busy, stop)
      ensures Evicted({}, rows, now, busy, stop) == {} && Reported(segs, 0, None, rows, now, busy, stop)
    {
    }

    lemma SweptHas(done: set<string>, id: string, rows: map<string, Row>, files: map<Path, File>,
                   rows': map<string, Row>, files': map<Path, File>, now: int, busy: set<string>, stop: string -> nat)
      requires Swept(done, rows, files, rows', files', now, busy, stop) && id in rows && id !in done
      ensures id in rows' && rows'[id] == rows[id]
    {
      hide Due, RemovedBy;
    }

    lemma DueAreListed(segs: seq<Listed>, rows: map<string, Row>, now: int, busy: set<string>)
      requires forall id | id in rows && rows[id].state == Rehydrated :: Listed(id, rows[id]) in segs
      ensures forall id | Due(rows, id, now, busy) :: id in rows && Listed(id, rows[id]) in segs && id in IdsOf(segs)
    {
    }

    lemma AllSwept(segs: seq<Listed>, rows: map<string, Row>, files: map<Path, File>, rows': map<string, Row>,
                   files': map<Path, File>, now: int, busy: set<string>, stop: string -> nat)
      requires Swept(IdsOf(segs), rows, files, rows', files', now, busy, stop)
      requires forall id | id in rows && rows[id].state == Rehydrated :: Listed(id, rows[id]) in segs
      ensures Swept(rows.Keys, rows, files, rows', files', now, busy, stop)
      ensures Evicted(IdsOf(segs), rows, now, busy, stop) ==
                set id | id in rows && Due(rows, id, now, busy) && stop(id) >= 2
    {
      hide Due, IdsOf;
      DueAreListed(segs, rows, now, busy);
      forall id | Due(rows, id, now, busy) ensures id in rows {
        DueIs(rows, id, now, busy);
      }
      forall p: Path | p in files
        ensures RemovedBy(IdsOf(segs), p, rows, now, busy, stop) <==> RemovedBy(rows.Keys, p, rows, now, busy, stop)
      {
      }
    }

    lemma AllReported(segs: seq<Listed>, err: Option<string>, rows: map<string, Row>, now: int, busy: set<string>,
                      stop: string -> nat)
      requires Reported(segs, |segs|, err, rows, now, busy, stop) && SoonestFirst(segs)
      requires forall s <- segs :: s.id in rows && rows[s.id] == s.row
      requires forall id | id in rows && rows[id].state == Rehydrated :: Listed(id, rows[id]) in segs
      ensures err.None? ==> forall id | Due(rows, id, now, busy) :: stop(id) >= 2
      ensures err.Some? ==> FirstStuck(err.value, rows, now, busy, stop)
    {
      hide Due, FirstAt, FirstStuck, SoonestFirst;
      DueAreListed(segs, rows, now, busy);
      if err.Some? {
        var at :| 0 <= at < |segs| && FirstAt(segs, at, err.value, rows, now, busy, stop);
        FirstIsSoonest(segs, at, err.value, rows, now, busy, stop);
      } else {
        forall id | Due(rows, id, now, busy) ensures stop(id) >= 2 {
          var k :| 0 <= k < |segs| && segs[k] == Listed(id, rows[id]);
        }
      }
    }

    lemma FirstIsSoonest(segs: seq<Listed>, at: nat, err: string, rows: map<string, Row>, now: int, busy: set<string>,
                         stop: string -> nat)
      requires SoonestFirst(segs) && FirstAt(segs, at, err, rows, now, busy, stop)
      requires forall s <- segs :: s.id in rows && rows[s.id] == s.row
      requires forall id | Due(rows, id, now, busy) :: Listed(id, rows[id]) in segs
      ensures FirstStuck(err, rows, now, busy, stop)
    {
      assert segs[at] in segs;
      forall id | Due(rows, id, now, busy) && stop(id) < 2
        ensures rows[err].evictAfter.value <= rows[id].evictAfter.value
      {
        var k :| 0 <= k < |segs| && segs[k] == Listed(id, rows[id]);
      }
    }

    // ---------------------------------------------------------------- rehydration

    /** The rows of the file object the store has for a listed segment. */
    function Copy(s: Listed): File
      requires S3.ParquetKeyOf(Retention.RefOf(s.id, s.row)) in backend.store.objects
      reads backend.store`objects
    {
      parse(backend.store.objects[S3.ParquetKeyOf(Retention.RefOf(s.id, s.row))].body)
    }

    predicate Downloads(s: Listed)
      reads backend.store`objects
    {
      S3.Downloads(backend.fmt, backend.store.objects, Retention.RefOf(s.id, s.row))
    }

    predicate Mismatched(s: Listed)
      reads backend.store`objects
    {
      S3.Mismatched(backend.fmt, backend.store.objects, Retention.RefOf(s.id, s.row))
    }

    /** Fetch one segment: a rehydrated one whose file is there only gets the new expiry. The file
        comes before its hash is compared and before the row says so, so a failure leaves the disk as
        it was unless the file was downloaded and either did not match or could not be recorded; when
        the store answers every call, how far it gets is settled by that alone. */
    method FetchOne(s: Listed, evictAfter: Option<int>, now: int, stop: nat)
      returns (ok: bool, ghost done: nat, ghost u: RehydrateUpdate)
      requires s.id in catalog.rows && catalog.rows[s.id] == s.row && S3.LawfulFormat(backend.fmt)
      requires s.row.localPath.Some? ==> s.row.localPath.value.id == s.id
      modifies catalog, disk, backend.store`fates
      ensures u.localPath == InRehydrated(s.id) && u.evictAfter == evictAfter
      ensures ok ==> Fetched(catalog.rows, disk.files, s.id, s.row, evictAfter)
      ensures !ok ==> catalog.rows == old(catalog.rows)
      ensures forall id | id != s.id ::
                Retention.Agree(id, catalog.rows, disk.files, old(catalog.rows), old(disk.files))
      ensures AlreadyLocal(s.row, old(disk.files)) ==>
                (ok <==> stop >= 1) && done == (if ok then 1 else 0) && disk.files == old(disk.files) &&
                catalog.rows == if ok then old(catalog.rows)[s.id := s.row.(evictAfter := evictAfter)]
                else old(catalog.rows)
      ensures !AlreadyLocal(s.row, old(disk.files)) ==>
                (ok <==> done == 2) && (done > 0 ==> Downloads(s)) &&
                disk.files == if done == 0 then old(disk.files) else old(disk.files)[InRehydrated(s.id) := Copy(s)]
      ensures !AlreadyLocal(s.row, old(disk.files)) ==>
                done == Reached(stop, Downloads(s), Mismatched(s)) || (done == 0 && old(backend.store.fates) != [])
      ensures Downloads(s) ==>
                forall open ::
                  Offered(catalog.rows, disk.files, s.id, open, Copy(s)) ==
                  Lifecycle.RehydratePrefix(Offered(old(catalog.rows), old(disk.files), s.id, open, Copy(s)), s.id,
                                            done, u, now)
      ensures ok && !AlreadyLocal(s.row, old(disk.files)) ==>
                var m := S3.ManifestKeyOf(Retention.RefOf(s.id, s.row));
                m in backend.store.objects && backend.fmt.decode(backend.store.objects[m].body).Some? &&
                catalog.rows[s.id] ==
                Refetched(s.row, backend.fmt.decode(backend.store.objects[m].body).value, s.id, evictAfter, now)
      ensures ok && !AlreadyLocal(s.row, old(disk.files)) ==>
                forall bytes | S3.HonestRef(backend.fmt, Retention.RefOf(s.id, s.row), bytes) &&
                               S3.Committed(backend.fmt, backend.store.objects, Retention.RefOf(s.id, s.row), bytes) ::
                  Look(disk.files, InRehydrated(s.id)) == Some(parse(bytes))
      ensures old(backend.store.fates) == [] ==> backend.store.fates == []
    {
      hide S3.LawfulFormat, S3.HonestRef, S3.Committed, S3.Mismatched, SlotFrom, Offered, Lifecycle.RehydratePrefix,
           Retention.Agree, Fetched, RehydratedRow;
      ghost var rows, files := catalog.rows, disk.files;
      ok, done, u := false, 0, RehydrateUpdate(InRehydrated(s.id), 0, 0, "", evictAfter);
      if s.row.state == Rehydrated && s.row.localPath.Some? && s.row.localPath.value in disk.files {
        if stop > 0 {
          ok := catalog.SetEvictAfter(s.id, evictAfter);
          done := 1;
        }
      } else {
        var got, left := backend.Retrieve(Retention.RefOf(s.id, s.row));
        if left.Some? && stop > 0 {
          disk.Write(InRehydrated(s.id), parse(left.value));
          done := 1;
          if got.Retrieved? && stop > 1 {
            var m := got.manifest;
            var update := RehydrateUpdate(InRehydrated(s.id), m.rowCount, m.sizeBytes, m.sha, evictAfter);
            RefetchedColumns(s.row, m, s.id, evictAfter, now);
            ok := catalog.MarkRehydrated(s.id, update, now);
            done, u := 2, update;
          }
        }
      }
      ghost var copy := if Downloads(s) then Copy(s) else [];
      FetchedElsewhere(done, catalog.rows, disk.files, rows, files, s.id, u, now, copy);
      if Downloads(s) {
        FetchedStepByStep(done, catalog.rows, disk.files, rows, files, s.id, u, now, Copy(s));
      }
    }

    /** What one item needs for its part of the job to succeed. */
    predicate ItemSucceeds(s: Listed, files: map<Path, File>, stop: nat)
      reads backend.store`objects
    {
      Succeeds(AlreadyLocal(s.row, files), stop, Downloads(s), Mismatched(s))
    }

    /** The row of an item that failed is as it was, and so are its files, but for one downloaded
        that did not match or could not be recorded. */
    ghost predicate FailedItem(s: Listed, stop: nat, rows: map<string, Row>, files: map<Path, File>)
      reads catalog, disk, backend.store`objects
    {
      LeftBehind(s.id, catalog.rows, disk.files, rows, files, None) ||
      (Downloads(s) && (Mismatched(s) || stop == 1) &&
       LeftBehind(s.id, catalog.rows, disk.files, rows, files, Some(Copy(s))))
    }

    /** The job works through its list and stops at the first failure: a prefix is rehydrated, the
        next item may have left a downloaded file, the rest is untouched. When the store answers every
        call, the job stops exactly at the first item that cannot succeed. */
    method RunJob(segs: seq<Listed>, evictAfter: Option<int>, now: int, stop: string -> nat) returns (completed: nat)
      requires DistinctIds(segs) && S3.LawfulFormat(backend.fmt)
      requires forall s <- segs :: s.id in catalog.rows && catalog.rows[s.id] == s.row
      requires forall s <- segs :: s.row.localPath.Some? ==> s.row.localPath.value.id == s.id
      modifies catalog, disk, backend.store`fates
      ensures completed <= |segs|
      ensures forall k | 0 <= k < completed :: Fetched(catalog.rows, disk.files, segs[k].id, segs[k].row, evictAfter)
      ensures forall id | id !in IdsOf(segs[..completed]) && (completed == |segs| || id != segs[completed].id) ::
                Retention.Agree(id, catalog.rows, disk.files, old(catalog.rows), old(disk.files))
      ensures completed < |segs| ==>
                FailedItem(segs[completed], stop(segs[completed].id), old(catalog.rows), old(disk.files))
      ensures old(backend.store.fates) == [] ==>
                (forall k | 0 <= k < completed :: ItemSucceeds(segs[k], old(disk.files), stop(segs[k].id))) &&
                (completed < |segs| ==> !ItemSucceeds(segs[completed], old(disk.files), stop(segs[completed].id)))
    {
      hide S3.HonestRef, S3.Committed, S3.LawfulFormat, Retention.Agree, Fetched, FailedItem, ItemSucceeds, DistinctIds,
           IdsOf;
      ghost var rows, files := catalog.rows, disk.files;
      completed := 0;
      Retention.AgreeItself(rows, files);
      while completed < |segs|
        invariant completed <= |segs|
        invariant forall k | 0 <= k < completed ::
                    Fetched(catalog.rows, disk.files, segs[k].id, segs[k].row, evictAfter)
        invariant forall id | id !in IdsOf(segs[..completed]) ::
                    Retention.Agree(id, catalog.rows, disk.files, rows, files)
        invariant old(backend.store.fates) == [] ==>
                    backend.store.fates == [] &&
                    forall k | 0 <= k < completed :: ItemSucceeds(segs[k], files, stop(segs[k].id))
      {
        var s := segs[completed];
        NextSwept(segs, completed);
        ghost var rows1, files1 := catalog.rows, disk.files;
        var ok := JobItem(s, evictAfter, now, stop(s.id), rows, files);
        forall id | id != s.id && Retention.Agree(id, rows1, files1, rows, files)
          ensures Retention.Agree(id, catalog.rows, disk.files, rows, files)
        {
          Retention.AgreeChains(id, catalog.rows, disk.files, rows1, files1, rows, files);
        }
        forall k | 0 <= k < completed ensures Fetched(catalog.rows, disk.files, segs[k].id, segs[k].row, evictAfter) {
          OtherItem(segs, k, completed);
          AgreeKeepsFetched(segs[k].id, rows1, files1, catalog.rows, disk.files, segs[k].row, evictAfter);
        }
        if !ok {
          return;
        }
        completed := completed + 1;
      }
    }

    lemma OtherItem(segs: seq<Listed>, k: nat, i: nat)
      requires k < i < |segs| && DistinctIds(segs)
      ensures segs[k].id != segs[i].id
    {
    }

    method JobItem(s: Listed, evictAfter: Option<int>, now: int, stop: nat, ghost rows: map<string, Row>,
                   ghost files: map<Path, File>)
      returns (ok: bool)
      requires S3.LawfulFormat(backend.fmt) && Retention.Agree(s.id, catalog.rows, disk.files, rows, files)
      requires s.id in rows && rows[s.id] == s.row && (s.row.localPath.Some? ==> s.row.localPath.value.id == s.id)
      modifies catalog, disk, backend.store`fates
      ensures ok ==> Fetched(catalog.rows, disk.files, s.id, s.row, evictAfter)
      ensures !ok ==> FailedItem(s, stop, rows, files)
      ensures forall id | id != s.id ::
                Retention.Agree(id, catalog.rows, disk.files, old(catalog.rows), old(disk.files))
      ensures old(backend.store.fates) == [] ==> backend.store.fates == [] && (ok <==> ItemSucceeds(s, files, stop))
    {
      hide S3.HonestRef, S3.Committed, S3.LawfulFormat, Retention.Agree, Fetched, SlotFrom, Offered,
           Lifecycle.RehydratePrefix, AlreadyLocal, S3.Downloads, S3.Mismatched, LeftBehind, RehydratedRow;
      ghost var rows1, files1 := catalog.rows, disk.files;
      Retention.SameRow(s.id, rows1, files1, rows, files);
      SameLocal(s.id, s.row, rows1, files1, rows, files);
      ghost var done, u;
      ok, done, u := FetchOne(s, evictAfter, now, stop);
      if !ok {
        if done == 0 {
          LeftBehindSince(s.id, catalog.rows, disk.files, rows1, files1, rows, files, None);
        } else {
          CopyIsThere(s);
          LeftBehindSince(s.id, catalog.rows, disk.files, rows1, files1, rows, files, Some(Copy(s)));
        }
      }
    }

    lemma CopyIsThere(s: Listed)
      requires Downloads(s)
      ensures S3.ParquetKeyOf(Retention.RefOf(s.id, s.row)) in backend.store.objects
    {
    }
  }

  function IdsOf(segs: seq<Listed>): set<string> {
    set s <- segs :: s.id
  }

  lemma IdsOfSplit(segs: seq<Listed>, s: Listed)
    ensures IdsOf(segs + [s]) == IdsOf(segs) + {s.id}
  {
    assert s in segs + [s];
    assert forall t :: t in segs + [s] <==> t in segs || t == s;
  }

  lemma NotYetDone(segs: seq<Listed>, k: nat)
    requires DistinctIds(segs) && k < |segs|
    ensures segs[k].id !in IdsOf(segs[..k])
    ensures forall i | 0 <= i < k :: segs[i].id != segs[k].id
  {
  }

  /** A file that does not match is served after all: when the file of a rehydrated segment is gone
      and its archive copy does not match its manifest, a job fails but leaves the file where the row
      points, and the next job finds it there and only renews the expiry. */
  method MismatchIsServed(r: Rehydrator, s: Listed, evictAfter: Option<int>, now: int)
    returns (first: bool, second: bool)
    requires s.id in r.catalog.rows && r.catalog.rows[s.id] == s.row && S3.LawfulFormat(r.backend.fmt) &&
             r.backend.store.fates == []
    requires s.row.state == Rehydrated && s.row.localPath == Some(InRehydrated(s.id)) &&
             InRehydrated(s.id) !in r.disk.files
    requires r.Mismatched(s)
    modifies r.catalog, r.disk, r.backend.store`fates
    ensures !first && second
    ensures r.catalog.rows == old(r.catalog.rows)[s.id := s.row.(evictAfter := evictAfter)]
    ensures r.Mismatched(s) && Look(r.disk.files, InRehydrated(s.id)) == Some(r.Copy(s))
  {
    hide SlotFrom, Offered, Lifecycle.RehydratePrefix, S3.LawfulFormat, S3.HonestRef, S3.Committed;
    ghost var done, u;
    first, done, u := r.FetchOne(s, evictAfter, now, 2);
    second, done, u := r.FetchOne(s, evictAfter, now, 2);
  }
}
