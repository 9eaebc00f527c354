/** Carrying out the retention plan: deleting local files, archiving first where the policy asks
    for it. */
module Retention {
  import opened Text
  import opened SegmentCatalog
  import opened DataDir
  import opened RetentionPolicy
  import opened Slots
  import Lifecycle
  import S3

  predicate IsLocal(r: Row) {
    r.localPath.Some? && r.state in {Sealed, Archived, Rehydrated}
  }

  lemma LocalMeans(r: Row)
    ensures IsLocal(r) <==> r.localPath.Some? && r.state != Active && r.state != Lost
  {
  }

  /** The catalog's listing of local segments, oldest first. */
  method ListLocal(catalog: Catalog) returns (segs: seq<Listed>)
    ensures OldestFirst(segs) && DistinctIds(segs)
    ensures forall s <- segs :: s.id in catalog.rows && catalog.rows[s.id] == s.row && IsLocal(s.row)
    ensures forall id | id in catalog.rows && IsLocal(catalog.rows[id]) :: Listed(id, catalog.rows[id]) in segs
    ensures forall r: Row :: IsLocal(r) <==> r.localPath.Some? && r.state != Active && r.state != Lost
  {
    hide IsLocal;
    forall r: Row ensures IsLocal(r) <==> r.localPath.Some? && r.state != Active && r.state != Lost {
      LocalMeans(r);
    }
    segs := [];
    var pending := catalog.rows.Keys;
    while pending != {}
      invariant pending <= catalog.rows.Keys && OldestFirst(segs) && DistinctIds(segs)
      invariant forall s <- segs ::
                  s.id in catalog.rows && s.id !in pending && catalog.rows[s.id] == s.row && IsLocal(s.row)
      invariant forall id | id in catalog.rows && id !in pending && IsLocal(catalog.rows[id]) ::
                  Listed(id, catalog.rows[id]) in segs
    {
      var id :| id in pending;
      pending := pending - {id};
      if IsLocal(catalog.rows[id]) {
        segs := InsertListed(Listed(id, catalog.rows[id]), segs);
      }
    }
  }

  method InsertListed(s: Listed, segs: seq<Listed>) returns (out: seq<Listed>)
    requires OldestFirst(segs) && DistinctIds(segs) && forall t <- segs :: t.id != s.id
    ensures OldestFirst(out) && DistinctIds(out) && forall t :: t in out <==> t == s || t in segs
  {
    var k := 0;
    while k < |segs| && segs[k].row.timeEnd < s.row.timeEnd
      invariant 0 <= k <= |segs|
      invariant forall i | 0 <= i < k :: segs[i].row.timeEnd < s.row.timeEnd
    {
      k := k + 1;
    }
    out := Placed(s, segs, k);
    PlacedInOrder(s, segs, k);
    PlacedDistinct(s, segs, k);
    PlacedMembers(s, segs, k);
  }

  function Placed(s: Listed, segs: seq<Listed>, k: nat): seq<Listed>
    requires k <= |segs|
  {
    segs[..k] + [s] + segs[k..]
  }

  lemma PlacedInOrder(s: Listed, segs: seq<Listed>, k: nat)
    requires k <= |segs| && OldestFirst(segs)
    requires (forall i | 0 <= i < k :: segs[i].row.timeEnd <= s.row.timeEnd) &&
             (k < |segs| ==> s.row.timeEnd <= segs[k].row.timeEnd)
    ensures OldestFirst(Placed(s, segs, k))
  {
  }

  lemma PlacedDistinct(s: Listed, segs: seq<Listed>, k: nat)
    requires k <= |segs| && DistinctIds(segs) && forall t <- segs :: t.id != s.id
    ensures DistinctIds(Placed(s, segs, k))
  {
    forall i | 0 <= i < |segs| ensures segs[i].id != s.id {
      assert segs[i] in segs;
    }
  }

  lemma PlacedMembers(s: Listed, segs: seq<Listed>, k: nat)
    requires k <= |segs|
    ensures forall t :: t in Placed(s, segs, k) <==> t == s || t in segs
  {
    assert segs == segs[..k] + segs[k..];
  }

  function ShaText(r: Row): string {
    if r.parquetSha.Some? then r.parquetSha.value else ""
  }

  function RefOf(id: string, r: Row): S3.SegmentRef {
    S3.SegmentRef(id, r.timeStart, r.timeEnd, r.rowCount, r.sizeBytes, ShaText(r), false)
  }

  function UrlOf(key: S3.Key): string {
    "s3://segments/" + key.id
  }

  /** Objects of other segments are left alone. */
  ghost predicate KeepsOthers(id: string, before: map<S3.Key, S3.Object>, after: map<S3.Key, S3.Object>) {
    forall k: S3.Key | k.id != id :: S3.Same(before, after, k)
  }

  /** Planned actions are for distinct listed segments, each with the verb its row calls for. */
  lemma {:induction false} ActionsDecide(p: Policy, now: int, segs: seq<Listed>)
    requires DistinctIds(segs)
    ensures forall a <- Actions(p, now, segs) ::
              exists s <- segs :: s.id == a.id && (a.verb, a.next) == Decide(p, s.row)
    ensures forall i, j | 0 <= i < j < |Actions(p, now, segs)| ::
              Actions(p, now, segs)[i].id != Actions(p, now, segs)[j].id
  {
    hide Decide, Protected;
    if segs != [] {
      var n := |segs| - 1;
      ActionsDecide(p, now, segs[..n]);
      forall a | a in Actions(p, now, segs)
        ensures exists s <- segs :: s.id == a.id && (a.verb, a.next) == Decide(p, s.row)
      {
        if a in Actions(p, now, segs[..n]) {
          var s :| s in segs[..n] && s.id == a.id && (a.verb, a.next) == Decide(p, s.row);
          assert s in segs;
        } else {
          assert segs[n] in segs;
        }
      }
      forall a | a in Actions(p, now, segs[..n]) ensures a.id != segs[n].id {
        var s :| s in segs[..n] && s.id == a.id && (a.verb, a.next) == Decide(p, s.row);
      }
    }
  }

  function WithoutLocal(files: map<Path, File>, r: Row): map<Path, File> {
    if r.localPath.Some? then files - {r.localPath.value} else files
  }

  /** Rows point at files named after them. */
  ghost predicate OwnPaths(rows: map<string, Row>) {
    forall id | id in rows && rows[id].localPath.Some? :: rows[id].localPath.value.id == id
  }

  /** The local file of an id exists. */
  predicate LocalFileIn(id: string, rows: map<string, Row>, files: map<Path, File>) {
    id in rows && rows[id].localPath.Some? && rows[id].localPath.value in files
  }

  /** Two snapshots agree on the row of an id and on every file named after it. */
  ghost predicate Agree(id: string, rows: map<string, Row>, files: map<Path, File>, rows': map<string, Row>,
                        files': map<Path, File>) {
    Look(rows, id) == Look(rows', id) && forall p: Path | p.id == id :: Look(files, p) == Look(files', p)
  }

  lemma AgreeItself(rows: map<string, Row>, files: map<Path, File>)
    ensures forall id :: Agree(id, rows, files, rows, files)
  {
  }

  lemma AgreeChains(id: string, rows: map<string, Row>, files: map<Path, File>, rows': map<string, Row>,
                    files': map<Path, File>, rows'': map<string, Row>, files'': map<Path, File>)
    requires Agree(id, rows, files, rows', files') && Agree(id, rows', files', rows'', files'')
    ensures Agree(id, rows, files, rows'', files'')
  {
  }

  lemma SameRow(id: string, rows: map<string, Row>, files: map<Path, File>, rows': map<string, Row>,
                files': map<Path, File>)
    requires Agree(id, rows, files, rows', files') && id in rows'
    ensures id in rows && rows[id] == rows'[id]
  {
  }

  lemma SameFile(id: string, r: Row, rows: map<string, Row>, files: map<Path, File>, rows': map<string, Row>,
                 files': map<Path, File>)
    requires Agree(id, rows, files, rows', files') && r.localPath.Some? && r.localPath.value.id == id
    ensures Look(files, r.localPath.value) == Look(files', r.localPath.value)
  {
  }

  /** What carrying out an action leaves for its id: the local file gone and the row cleared to the
      decided state, or archived with its address. */
  ghost predicate Carried(a: Action, rows: map<string, Row>, files: map<Path, File>, rows0: map<string, Row>,
                          files0: map<Path, File>) {
    a.id in rows0 &&
    match a.verb
    case Delete =>
      SlotFrom(rows, files, a.id, false) == Lifecycle.DropPrefix(SlotFrom(rows0, files0, a.id, false), 2, a.next)
    case ArchiveFirst =>
      rows0[a.id].localPath.Some? && rows0[a.id].localPath.value !in files &&
      a.id in rows && rows[a.id].state == Archived && rows[a.id].s3Url.Some? && rows[a.id].localPath.None?
  }

  lemma CarriedStays(a: Action, rows: map<string, Row>, files: map<Path, File>, rows': map<string, Row>,
                     files': map<Path, File>, rows0: map<string, Row>, files0: map<Path, File>)
    requires Carried(a, rows, files, rows0, files0) && Agree(a.id, rows', files', rows, files)
    requires a.id in rows0 && (rows0[a.id].localPath.Some? ==> rows0[a.id].localPath.value.id == a.id)
    ensures Carried(a, rows', files', rows0, files0)
  {
    hide SlotFrom, Lifecycle.DropPrefix;
    OtherSlot(rows', files', rows, files, a.id, false);
    if a.verb == ArchiveFirst {
      assert Look(files', rows0[a.id].localPath.value) == Look(files, rows0[a.id].localPath.value);
      assert Look(rows', a.id) == Look(rows, a.id);
    }
  }

  lemma CarriedKnows(a: Action, rows: map<string, Row>, files: map<Path, File>, rows0: map<string, Row>,
                     files0: map<Path, File>)
    requires Carried(a, rows, files, rows0, files0)
    ensures a.id in rows0
  {
  }

  /** The same measured from an earlier snapshot in which the id was the same. */
  lemma CarriedFromSnapshot(a: Action, rows: map<string, Row>, files: map<Path, File>, rows1: map<string, Row>,
                            files1: map<Path, File>, rows0: map<string, Row>, files0: map<Path, File>)
    requires Carried(a, rows, files, rows1, files1) && Agree(a.id, rows1, files1, rows0, files0) && a.id in rows0
    ensures Carried(a, rows, files, rows0, files0)
  {
    hide SlotFrom, Lifecycle.DropPrefix;
    OtherSlot(rows1, files1, rows0, files0, a.id, false);
    assert Look(rows1, a.id) == Look(rows0, a.id);
  }

  /** Removing a row's local file, and then clearing the row, are the steps of dropping its slot. */
  lemma RemovedIsDropped(rows: map<string, Row>, files: map<Path, File>, id: string, next: State, open: bool)
    requires id in rows && (rows[id].localPath.Some? ==> rows[id].localPath.value.id == id)
    ensures SlotFrom(rows, WithoutLocal(files, rows[id]), id, open) ==
              Lifecycle.DropPrefix(SlotFrom(rows, files, id, open), 1, next)
    ensures SlotFrom(rows[id := ClearedRow(rows[id], next)], WithoutLocal(files, rows[id]), id, open)
         == Lifecycle.DropPrefix(SlotFrom(rows, files, id, open), 2, next)
  {
    if rows[id].localPath.Some? {
      var path := rows[id].localPath.value;
      assert path in {InActive(id), InTmp(id), InSealed(id), InOrphans(id), InRehydrated(id)};
    }
  }

  /** The slot of an id with its copy in the store. */
  function WithCopy(s: Slot, copy: Option<File>, committed: bool): Slot {
    s.(remote := copy, committed := committed)
  }

  /** Marking, removing and clearing after the store has the whole file and its manifest are the
      remaining steps of archiving and deleting the slot of a sealed segment. */
  lemma ArchivedStepByStep(rows: map<string, Row>, files: map<Path, File>, id: string, u: ArchiveUpdate, now: int,
                           open: bool, copy: Option<File>, committed: bool)
    requires id in rows && rows[id].localPath == Some(InSealed(id))
    ensures var s := WithCopy(SlotFrom(rows, files, id, open), copy, committed);
            var file := Look(files, InSealed(id));
            var marked := ArchivedRow(rows[id], u, now);
            WithCopy(SlotFrom(rows, files, id, open), file, true) == Lifecycle.ArchiveThenDeletePrefix(s, 2, u, now) &&
            WithCopy(SlotFrom(rows[id := marked], files, id, open), file, true) ==
              Lifecycle.ArchiveThenDeletePrefix(s, 3, u, now) &&
            WithCopy(SlotFrom(rows[id := marked], files - {InSealed(id)}, id, open), file, true)
              == Lifecycle.ArchiveThenDeletePrefix(s, 4, u, now) &&
            WithCopy(SlotFrom(rows[id := ClearedRow(marked, Archived)], files - {InSealed(id)}, id, open), file, true)
              == Lifecycle.ArchiveThenDeletePrefix(s, 5, u, now)
  {
  }

  /** Where a run of the lifecycle has come to, every sealed row has an honest reference, provided the
      store hashes as sealing does. */
  lemma ReachedRowsAreHonest(cfg: Lifecycle.Config, ops: seq<Lifecycle.Op>, id: string, rows: map<string, Row>,
                             files: map<Path, File>, open: bool, fmt: S3.Format)
    requires Lifecycle.LegalRun(cfg, Lifecycle.FRESH, ops) && forall b :: cfg.pq.sum(b) == fmt.hash(b)
    requires var s := Lifecycle.At(Lifecycle.RunOps(cfg, Lifecycle.FRESH, ops), id);
             s == WithCopy(SlotFrom(rows, files, id, open), s.remote, s.committed)
    requires LocalFileIn(id, rows, files) && rows[id].state == Sealed
    ensures S3.HonestRef(fmt, RefOf(id, rows[id]), cfg.pq.encode(files[rows[id].localPath.value]))
  {
    hide Lifecycle.LegalRun, Lifecycle.RunOps;
    Lifecycle.SealedHashesAreHonest(cfg, ops, id);
  }

  function IdsOf(actions: seq<Action>): set<string> {
    set a <- actions :: a.id
  }

  lemma IdsOfMore(before: seq<Action>, a: Action)
    ensures IdsOf(before + [a]) == IdsOf(before) + {a.id}
  {
    assert a in before + [a];
    assert forall b :: b in before + [a] <==> b in before || b == a;
  }

  lemma NotBefore(actions: seq<Action>, i: nat)
    requires i < |actions| && forall j, k | 0 <= j < k < |actions| :: actions[j].id != actions[k].id
    ensures actions[i].id !in IdsOf(actions[..i]) && forall a <- actions[..i] :: a.id != actions[i].id
  {
  }

  /** Only planned actions were executed; a deletion no step of which fails was, and so was, with a
      store that answers, every archive-first action whose file exists. */
  ghost predicate Attempted(actions: seq<Action>, executed: set<string>, stop: string -> nat, rows: map<string, Row>,
                            files: map<Path, File>, calm: bool) {
    executed <= IdsOf(actions) &&
    (forall a <- actions | a.verb == Delete && stop(a.id) >= 2 :: a.id in executed) &&
    (calm ==> forall a <- actions | a.verb == ArchiveFirst && stop(a.id) >= 5 && LocalFileIn(a.id, rows, files) ::
       a.id in executed)
  }

  lemma NothingAttempted(stop: string -> nat, rows: map<string, Row>, files: map<Path, File>, calm: bool)
    ensures Attempted([], {}, stop, rows, files, calm)
  {
  }

  lemma OneMoreAttempt(before: seq<Action>, a: Action, ok: bool, executed: set<string>, stop: string -> nat,
                       rows: map<string, Row>, files: map<Path, File>, calm: bool)
    requires Attempted(before, executed, stop, rows, files, calm)
    requires a.verb == Delete && stop(a.id) >= 2 ==> ok
    requires calm && a.verb == ArchiveFirst && stop(a.id) >= 5 && LocalFileIn(a.id, rows, files) ==> ok
    ensures Attempted(before + [a], if ok then executed + {a.id} else executed, stop, rows, files, calm)
  {
    IdsOfMore(before, a);
    assert forall b :: b in before + [a] <==> b in before || b == a;
  }

  /** The catalog and the data directory after the given step of archiving and deleting an id. */
  ghost predicate FinishedTo(done: nat, rows: map<string, Row>, files: map<Path, File>, rows0: map<string, Row>,
                             files0: map<Path, File>, id: string, u: ArchiveUpdate, now: int)
    requires id in rows0
  {
    var marked := ArchivedRow(rows0[id], u, now);
    rows == (if done < 3 then rows0 else rows0[id := if done < 5 then marked else ClearedRow(marked, Archived)]) &&
    files == (if done < 4 then files0 else WithoutLocal(files0, rows0[id]))
  }

  lemma FinishedStepByStep(done: nat, rows: map<string, Row>, files: map<Path, File>, rows0: map<string, Row>,
                           files0: map<Path, File>, id: string, u: ArchiveUpdate, now: int, open: bool,
                           copy: Option<File>, committed: bool)
    requires id in rows0 && FinishedTo(done, rows, files, rows0, files0, id, u, now) && 2 <= done <= 5
    requires rows0[id].localPath == Some(InSealed(id))
    ensures WithCopy(SlotFrom(rows, files, id, open), Look(files0, InSealed(id)), true) ==
            Lifecycle.ArchiveThenDeletePrefix(WithCopy(SlotFrom(rows0, files0, id, open), copy, committed), done, u,
                                              now)
  {
    hide SlotFrom, Lifecycle.ArchiveThenDeletePrefix, ArchivedRow, ClearedRow;
    ArchivedStepByStep(rows0, files0, id, u, now, open, copy, committed);
  }

  lemma FinishedElsewhere(done: nat, rows: map<string, Row>, files: map<Path, File>, rows0: map<string, Row>,
                          files0: map<Path, File>, id: string, u: ArchiveUpdate, now: int)
    requires id in rows0 && FinishedTo(done, rows, files, rows0, files0, id, u, now) && OwnPaths(rows0)
    ensures forall other | other != id :: Agree(other, rows, files, rows0, files0)
    ensures OwnPaths(rows)
    ensures done < 4 ==> files == files0
  {
  }

  /** The columns that archiving and then dropping a segment rewrites. */
  lemma ArchivedColumns(r: Row, u: ArchiveUpdate, now: int)
    requires u.s3Url != "" && u.archiveRef == "" && u.manifestSha != "" && u.parquetSha != ""
    ensures ClearedRow(ArchivedRow(r, u, now), Archived) ==
            r.(state := Archived, localPath := None, evictAfter := None, archivedAt := Some(now),
               s3Url := Some(u.s3Url), manifestSha := Some(u.manifestSha), parquetSha := Some(u.parquetSha))
  {
  }

  lemma HashesAreSet(fmt: S3.Format, a: S3.Bytes, b: S3.Bytes)
    requires S3.LawfulFormat(fmt)
    ensures fmt.hash(a) != "" && fmt.hash(b) != ""
  {
  }

  /** Archiving a sealed segment gives it a manifest with its own time range, count, size and hash. */
  lemma ManifestDescribesSegment(s: Slot, id: string, pq: Parquet, now: int, fmt: S3.Format,
                                 objects: map<S3.Key, S3.Object>)
    requires Healthy(s) && s.active.value != [] && S3.LawfulFormat(fmt) && forall b :: pq.sum(b) == fmt.hash(b)
    requires var done := SealPrefix(s, id, pq, SEALED, [], now);
             done.row.Some? && done.sealed.Some? &&
             S3.Committed(fmt, objects, RefOf(id, done.row.value), pq.encode(done.sealed.value))
    ensures var done := SealPrefix(s, id, pq, SEALED, [], now);
            var key := S3.ManifestKeyOf(RefOf(id, done.row.value));
            key in objects && fmt.decode(objects[key].body).Some? &&
            var m := fmt.decode(objects[key].body).value;
            m.id == id && m.rowCount == |done.sealed.value| && TightRange(done.sealed.value, m.timeStart, m.timeEnd) &&
            m.sizeBytes == m.sizeCompressed == |pq.encode(done.sealed.value)| &&
            m.sha == fmt.hash(pq.encode(done.sealed.value))
  {
    hide SealPrefix, TightRange, S3.LawfulFormat, SameRows, ByTime;
    var done := SealPrefix(s, id, pq, SEALED, [], now);
    SealingDescribesTheFile(s, id, pq, now);
    var ref, bytes := RefOf(id, done.row.value), pq.encode(done.sealed.value);
    HashesAreSet(fmt, bytes, bytes);
    S3.CommittedManifest(fmt, objects, ref, bytes);
  }

  class Evaluator {
    const policy: Policy
    const catalog: Catalog
    const disk: Disk
    const backend: S3.Backend?
    const pq: Parquet

    constructor (policy: Policy, catalog: Catalog, disk: Disk, backend: S3.Backend?, pq: Parquet)
      ensures this.policy == policy && this.catalog == catalog && this.disk == disk && this.backend == backend &&
              this.pq == pq
    {
      this.policy, this.catalog, this.disk, this.backend, this.pq := policy, catalog, disk, backend, pq;
    }

    ghost function Footprint(): set<object> {
      {catalog, disk} + (if backend == null then {} else {backend.store})
    }

    function BytesAt(p: Path): S3.Bytes
      requires p in disk.files
      reads disk
    {
      pq.encode(disk.files[p])
    }

    /** The policy asks for an archive copy before this row's file may go. */
    predicate NeedsArchive(r: Row) {
      policy.archiveBeforeDelete && policy.backendActive && r.state == Sealed && !r.Referenced()
    }

    /** The hash recorded for an id, if any, is that of its local file, if any. */
    ghost predicate Honest(id: string)
      reads Footprint()
    {
      backend != null && LocalFileIn(id, catalog.rows, disk.files) ==>
        S3.HonestRef(backend.fmt, RefOf(id, catalog.rows[id]), BytesAt(catalog.rows[id].localPath.value))
    }

    /** Rows point at their own files, the store's segment objects were written by the backend, and
        the hashes recorded for the segments still to be archived are those of their files; what is
        recorded for any other segment does not matter. */
    ghost predicate Valid()
      reads Footprint()
    {
      OwnPaths(catalog.rows) &&
      (backend != null ==>
        backend.partSize > 0 && S3.LawfulFormat(backend.fmt) && S3.Tagged(backend.fmt, backend.store.objects) &&
        forall id | id in catalog.rows && NeedsArchive(catalog.rows[id]) :: Honest(id))
    }

    /** The row of an id and every file named after it are as in a snapshot. */
    ghost predicate Untouched(id: string, rows: map<string, Row>, files: map<Path, File>)
      reads catalog, disk
    {
      Agree(id, catalog.rows, disk.files, rows, files)
    }

    /** The store holds the complete bytes the file of a row had, and its manifest. */
    ghost predicate SafelyStored(id: string, rows: map<string, Row>, files: map<Path, File>)
      reads Footprint()
    {
      backend != null && id in rows && rows[id].localPath.Some? && rows[id].localPath.value in files &&
      S3.Committed(backend.fmt, backend.store.objects, RefOf(id, rows[id]), pq.encode(files[rows[id].localPath.value]))
    }

    /** Removing the local file, then clearing its row, cut off after the given number of steps when
        one of them fails. A missing row is an error. */
    method Execute(a: Action, stop: nat) returns (ok: bool)
      requires Valid()
      modifies catalog, disk
      ensures Valid()
      ensures ok <==> a.id in old(catalog.rows) && stop >= 2
      ensures ok ==>
                var r := old(catalog.rows)[a.id];
                catalog.rows == old(catalog.rows)[a.id := r.(state := a.next, localPath := None, evictAfter := None)] &&
                (r.localPath.Some? ==> disk.files == old(disk.files) - {r.localPath.value})
      ensures a.id in old(catalog.rows) ==> forall open ::
                SlotFrom(catalog.rows, disk.files, a.id, open) ==
                Lifecycle.DropPrefix(SlotFrom(old(catalog.rows), old(disk.files), a.id, open),
                                     if stop < 2 then stop else 2, a.next)
      ensures a.id !in old(catalog.rows) ==> Untouched(a.id, old(catalog.rows), old(disk.files))
      ensures forall id | id != a.id :: Untouched(id, old(catalog.rows), old(disk.files))
    {
      hide S3.LawfulFormat, S3.Tagged, S3.HonestRef, SlotFrom;
      if a.id !in catalog.rows || stop == 0 {
        return false;
      }
      var r := catalog.rows[a.id];
      forall open {
        RemovedIsDropped(catalog.rows, disk.files, a.id, a.next, open);
      }
      if r.localPath.Some? {
        disk.Remove(r.localPath.value);
      }
      assert disk.files == WithoutLocal(old(disk.files), r);
      if stop == 1 {
        return false;
      }
      ok := catalog.ClearLocalFile(a.id, a.next);
    }

    /** The local file of an id is still what it was. */
    ghost predicate HasFile(id: string, rows: map<string, Row>, files: map<Path, File>)
      reads disk
    {
      id in rows && rows[id].localPath.Some? &&
      Look(disk.files, rows[id].localPath.value) == Look(files, rows[id].localPath.value)
    }

    /** Archive, record it, and only then remove the local file and clear its row. However far it
        gets, the file is there or the store holds all of it with its manifest; before the store
        does, nothing local has changed; and each step taken is the next one of the slot. */
    method ArchiveThenDelete(a: Action, now: int, stop: nat) returns (ok: bool, ghost done: nat, ghost u: ArchiveUpdate)
      requires Valid() && backend != null && Honest(a.id)
      modifies catalog, disk, backend.store
      ensures Valid()
      ensures done in {0, 2, 3, 4, 5} && (ok <==> done == 5)
      ensures done <= 2 ==> catalog.rows == old(catalog.rows) && disk.files == old(disk.files)
      ensures done >= 2 ==> SafelyStored(a.id, old(catalog.rows), old(disk.files)) && u.s3Url != ""
      ensures LocalFileIn(a.id, old(catalog.rows), old(disk.files)) ==>
                HasFile(a.id, old(catalog.rows), old(disk.files)) ||
                SafelyStored(a.id, old(catalog.rows), old(disk.files))
      ensures done >= 2 && old(catalog.rows)[a.id].localPath == Some(InSealed(a.id)) ==>
                forall open, copy, committed ::
                  WithCopy(SlotFrom(catalog.rows, disk.files, a.id, open), Look(old(disk.files), InSealed(a.id)),
                           true) ==
                  Lifecycle.ArchiveThenDeletePrefix(WithCopy(SlotFrom(old(catalog.rows), old(disk.files), a.id, open),
                                                             copy, committed), done, u, now)
      ensures ok ==>
                catalog.rows ==
                  old(catalog.rows)[a.id := ClearedRow(ArchivedRow(old(catalog.rows)[a.id], u, now), Archived)] &&
                     disk.files == WithoutLocal(old(disk.files), old(catalog.rows)[a.id])
      ensures ok ==>
                var r := old(catalog.rows)[a.id];
                var file := pq.encode(old(disk.files)[r.localPath.value]);
                var key := S3.ManifestKeyOf(RefOf(a.id, r));
                key in backend.store.objects &&
                catalog.rows[a.id] ==
                r.(state := Archived, localPath := None, evictAfter := None, archivedAt := Some(now),
                   s3Url := Some(UrlOf(S3.ParquetKeyOf(RefOf(a.id, r)))),
                   manifestSha := Some(backend.fmt.hash(backend.store.objects[key].body)),
                   parquetSha := Some(backend.fmt.hash(file)))
      ensures old(backend.store.fates) == [] && LocalFileIn(a.id, old(catalog.rows), old(disk.files)) && stop >= 5 ==>
                ok
      ensures old(backend.store.fates) == [] ==> backend.store.fates == []
      ensures forall id | id != a.id :: Untouched(id, old(catalog.rows), old(disk.files))
      ensures KeepsOthers(a.id, old(backend.store.objects), backend.store.objects)
    {
      hide S3.LawfulFormat, S3.Committed, S3.Tagged, SlotFrom, Lifecycle.ArchiveThenDeletePrefix, OwnPaths, Agree;
      AgreeItself(catalog.rows, disk.files);
      done, u := 0, ArchiveUpdate("", "", "", "");
      if a.id !in catalog.rows {
        return false, 0, u;
      }
      var r := catalog.rows[a.id];
      if r.localPath.None? || r.localPath.value !in disk.files {
        return false, 0, u;
      }
      var bytes := pq.encode(disk.files[r.localPath.value]);
      var stored := backend.Archive(RefOf(a.id, r), bytes);
      if !stored.Stored? {
        return false, 0, u;
      }
      var update := ArchiveUpdate(UrlOf(stored.s3Key), "", stored.manifestSha, stored.parquetSha);
      u, done := update, 2;
      ArchivedColumns(r, update, now) by {
        HashesAreSet(backend.fmt, bytes, backend.store.objects[S3.ManifestKeyOf(RefOf(a.id, r))].body);
      }
      ghost var rows, files := catalog.rows, disk.files;
      var got := FinishLocally(a.id, update, now, stop);
      done := got;
      ok := got == 5;
      if r.localPath == Some(InSealed(a.id)) {
        forall open, copy, committed {
          FinishedStepByStep(done, catalog.rows, disk.files, rows, files, a.id, u, now, open, copy, committed);
        }
      }
      FinishedElsewhere(done, catalog.rows, disk.files, rows, files, a.id, u, now);
    }

    /** What remains after the store has everything: mark the row, remove the file, clear the row. */
    method FinishLocally(id: string, u: ArchiveUpdate, now: int, stop: nat) returns (done: nat)
      requires id in catalog.rows && catalog.rows[id].localPath.Some?
      modifies catalog, disk
      ensures done == if stop < 2 then 2 else if stop > 5 then 5 else stop
      ensures FinishedTo(done, catalog.rows, disk.files, old(catalog.rows), old(disk.files), id, u, now)
    {
      done := 2;
      if stop < 3 {
        return;
      }
      var path := catalog.rows[id].localPath.value;
      var marked := catalog.MarkArchived(id, u, now);
      done := 3;
      if stop < 4 {
        return;
      }
      disk.Remove(path);
      done := 4;
      if stop < 5 {
        return;
      }
      var cleared := catalog.ClearLocalFile(id, Archived);
      done := 5;
    }

    lemma OthersStayStored(a: string, id: string, before: map<S3.Key, S3.Object>, rows: map<string, Row>,
                           bytes: S3.Bytes)
      requires backend != null && id != a && KeepsOthers(a, before, backend.store.objects)
      requires id in rows && S3.Committed(backend.fmt, before, RefOf(id, rows[id]), bytes)
      ensures S3.Committed(backend.fmt, backend.store.objects, RefOf(id, rows[id]), bytes)
    {
      assert S3.ParquetKeyOf(RefOf(id, rows[id])).id == id && S3.ManifestKeyOf(RefOf(id, rows[id])).id == id;
    }

    /** One planned action, cut off when a step fails. */
    method Perform(a: Action, r: Row, now: int, stop: nat) returns (ok: bool)
      requires Valid() && a.id in catalog.rows && catalog.rows[a.id] == r && (a.verb, a.next) == Decide(policy, r)
      modifies Footprint()
      ensures Valid()
      ensures forall id | id != a.id :: Untouched(id, old(catalog.rows), old(disk.files))
      ensures NeedsArchive(r) ==>
                Untouched(a.id, old(catalog.rows), old(disk.files)) ||
                SafelyStored(a.id, old(catalog.rows), old(disk.files))
      ensures backend != null ==> KeepsOthers(a.id, old(backend.store.objects), backend.store.objects)
      ensures ok ==> Carried(a, catalog.rows, disk.files, old(catalog.rows), old(disk.files))
      ensures a.verb == Delete && stop >= 2 ==> ok
      ensures backend != null && old(backend.store.fates) == [] ==>
                backend.store.fates == [] &&
                (a.verb == ArchiveFirst && stop >= 5 && r.localPath.Some? && r.localPath.value in old(disk.files) ==>
                   ok)
    {
      hide S3.LawfulFormat, S3.Committed, S3.Tagged, S3.HonestRef, SlotFrom, Lifecycle.DropPrefix,
           Lifecycle.ArchiveThenDeletePrefix;
      ok := false;
      if a.verb == Delete {
        ok := Execute(a, stop);
      } else if backend != null {
        ghost var done, u;
        ok, done, u := ArchiveThenDelete(a, now, stop);
      }
    }

    /** Each id is as in the snapshot, or was acted on; and one that needs an archive copy is as in
        the snapshot or safely stored. */
    ghost predicate Progress(done: set<string>, rows: map<string, Row>, files: map<Path, File>)
      reads Footprint()
    {
      (forall id | id !in done :: Untouched(id, rows, files)) &&
      forall id | id in done && id in rows && NeedsArchive(rows[id]) ::
        Untouched(id, rows, files) || SafelyStored(id, rows, files)
    }

    /** Executed actions have been carried out. */
    ghost predicate AllCarried(done: seq<Action>, executed: set<string>, rows: map<string, Row>, files: map<Path, File>)
      reads catalog, disk
    {
      forall a <- done | a.id in executed :: Carried(a, catalog.rows, disk.files, rows, files)
    }

    method PerformNext(a: Action, now: int, stop: nat, ghost done: set<string>, ghost rows: map<string, Row>,
                       ghost files: map<Path, File>)
      returns (ok: bool)
      requires Valid() && Progress(done, rows, files) && a.id !in done && OwnPaths(rows)
      requires a.id in rows && (a.verb, a.next) == Decide(policy, rows[a.id])
      modifies Footprint()
      ensures Valid() && Progress(done + {a.id}, rows, files)
      ensures forall id | id != a.id :: Untouched(id, old(catalog.rows), old(disk.files))
      ensures ok ==> Carried(a, catalog.rows, disk.files, rows, files)
      ensures a.verb == Delete && stop >= 2 ==> ok
      ensures backend != null && old(backend.store.fates) == [] ==>
                backend.store.fates == [] &&
                (a.verb == ArchiveFirst && stop >= 5 && LocalFileIn(a.id, rows, files) ==> ok)
    {
      hide Decide, Agree, NeedsArchive, Carried, S3.Committed, S3.LawfulFormat, S3.Tagged, S3.HonestRef;
      assert Untouched(a.id, rows, files);
      SameRow(a.id, catalog.rows, disk.files, rows, files);
      ghost var rows1, files1 := catalog.rows, disk.files;
      if rows[a.id].localPath.Some? {
        SameFile(a.id, rows[a.id], rows1, files1, rows, files);
      }
      label Before:
      ok := Perform(a, catalog.rows[a.id], now, stop);
      if ok {
        CarriedFromSnapshot(a, catalog.rows, disk.files, rows1, files1, rows, files);
      }
      forall id | id != a.id && Agree(id, rows1, files1, rows, files) ensures Untouched(id, rows, files) {
        assert Untouched(id, rows1, files1);
        AgreeChains(id, catalog.rows, disk.files, rows1, files1, rows, files);
      }
      forall id | id in done && id in rows && NeedsArchive(rows[id])
        ensures Untouched(id, rows, files) || SafelyStored(id, rows, files)
      {
        if !Agree(id, rows1, files1, rows, files) {
          assert old@Before(SafelyStored(id, rows, files));
          OthersStayStored(a.id, id, old@Before(backend.store.objects), rows,
                           pq.encode(files[rows[id].localPath.value]));
        }
      }
      if NeedsArchive(rows[a.id]) && Untouched(a.id, rows1, files1) {
        AgreeChains(a.id, catalog.rows, disk.files, rows1, files1, rows, files);
      }
    }

    /** One retention run: the plan made for the current listing, carried out action by action, each
        as far as stop says before a step fails. With archive-before-delete and a backend, every
        sealed, unarchived segment keeps its row and file until the store holds the whole file and its
        manifest. A dry run changes nothing. */
    method Run(now: int, dryRun: bool, stop: string -> nat)
      returns (actions: seq<Action>, executed: set<string>, ghost segs: seq<Listed>, ghost cut: nat)
      requires Valid()
      modifies Footprint()
      ensures Valid()
      ensures OldestFirst(segs) && DistinctIds(segs)
      ensures forall id, r :: Listed(id, r) in segs <==>
              id in old(catalog.rows) && old(catalog.rows)[id] == r && r.localPath.Some? && r.state != Active &&
              r.state != Lost
      ensures ExactPlan(policy, now, segs, actions, cut)
      ensures dryRun ==> executed == {} && forall id :: Untouched(id, old(catalog.rows), old(disk.files))
      ensures AllCarried(actions, executed, old(catalog.rows), old(disk.files))
      ensures !dryRun ==>
                Attempted(actions, executed, stop, old(catalog.rows), old(disk.files),
                          backend != null && old(backend.store.fates) == [])
      ensures Progress(IdsOf(actions), old(catalog.rows), old(disk.files))
    {
      hide Valid, ExactPlan, ActionFor, SafelyStored, Untouched, NeedsArchive, Carried, IsLocal, OldestFirst,
           DistinctIds, Decide, Attempted;
      ghost var rows, files := catalog.rows, disk.files;
      var listed := ListLocal(catalog);
      segs := listed;
      actions, cut := Plan(policy, now, listed);
      PlannedIsListed(policy, now, segs, actions, cut);
      executed := {};
      NothingYet(rows, files);
      ValidOwnPaths();
      if dryRun {
        return;
      }
      executed := RunActions(actions, now, stop, rows, files);
    }

    method RunActions(actions: seq<Action>, now: int, stop: string -> nat, ghost rows: map<string, Row>,
                      ghost files: map<Path, File>)
      returns (executed: set<string>)
      requires Valid() && rows == catalog.rows && files == disk.files && OwnPaths(rows)
      requires forall a <- actions :: a.id in rows && (a.verb, a.next) == Decide(policy, rows[a.id])
      requires forall i, j | 0 <= i < j < |actions| :: actions[i].id != actions[j].id
      modifies Footprint()
      ensures Valid() && Progress(IdsOf(actions), rows, files) && AllCarried(actions, executed, rows, files)
      ensures Attempted(actions, executed, stop, rows, files, backend != null && old(backend.store.fates) == [])
    {
      hide Valid, SafelyStored, Untouched, NeedsArchive, Carried, Decide, Attempted, OwnPaths;
      ghost var calm := backend != null && backend.store.fates == [];
      executed := {};
      NothingYet(rows, files);
      NothingAttempted(stop, rows, files, calm);
      var i := 0;
      while i < |actions|
        invariant 0 <= i <= |actions| && Valid() && Progress(IdsOf(actions[..i]), rows, files)
        invariant AllCarried(actions[..i], executed, rows, files) && executed <= IdsOf(actions[..i])
        invariant Attempted(actions[..i], executed, stop, rows, files, calm)
        invariant calm ==> backend.store.fates == []
      {
        ghost var before := actions[..i];
        var a := actions[i];
        assert actions[..i + 1] == before + [a] && a in actions;
        NotBefore(actions, i);
        IdsOfMore(before, a);
        ghost var rows1, files1 := catalog.rows, disk.files;
        var ok := PerformNext(a, now, stop(a.id), IdsOf(before), rows, files);
        StillCarried(before, executed, a.id, rows1, files1, rows, files);
        OneMoreAttempt(before, a, ok, executed, stop, rows, files, calm);
        if ok {
          executed := executed + {a.id};
        }
        assert AllCarried(before + [a], executed, rows, files) by {
          MoreCarried(before, a, executed, ok, rows, files);
        }
        i := i + 1;
      }
      assert actions[..i] == actions;
    }

    lemma MoreCarried(before: seq<Action>, a: Action, executed: set<string>, ok: bool, rows: map<string, Row>,
                      files: map<Path, File>)
      requires AllCarried(before, executed - {a.id}, rows, files) &&
               (ok ==> Carried(a, catalog.rows, disk.files, rows, files))
      requires (a.id in executed ==> ok) && forall b <- before :: b.id != a.id
      ensures AllCarried(before + [a], executed, rows, files)
    {
      hide Carried;
    }

    lemma ValidOwnPaths()
      requires Valid()
      ensures OwnPaths(catalog.rows)
    {
    }

    /** Acting on one id undoes nothing done for another. */
    lemma StillCarried(before: seq<Action>, executed: set<string>, id: string, rows1: map<string, Row>,
                       files1: map<Path, File>, rows: map<string, Row>, files: map<Path, File>)
      requires OwnPaths(rows) && forall a <- before :: a.id != id
      requires forall a <- before | a.id in executed :: Carried(a, rows1, files1, rows, files)
      requires forall other | other != id :: Untouched(other, rows1, files1)
      ensures AllCarried(before, executed, rows, files)
    {
      hide Carried, Agree;
      forall a | a in before && a.id in executed ensures Carried(a, catalog.rows, disk.files, rows, files) {
        assert Untouched(a.id, rows1, files1);
        CarriedKnows(a, rows1, files1, rows, files);
        CarriedStays(a, rows1, files1, catalog.rows, disk.files, rows, files);
      }
    }

    lemma NothingYet(rows: map<string, Row>, files: map<Path, File>)
      requires rows == catalog.rows && files == disk.files
      ensures forall id :: Untouched(id, rows, files)
      ensures forall done: set<string> :: Progress(done, rows, files)
    {
    }
  }

  lemma PlannedIsListed(p: Policy, now: int, segs: seq<Listed>, actions: seq<Action>, cut: nat)
    requires DistinctIds(segs) && ExactPlan(p, now, segs, actions, cut)
    ensures forall a <- actions :: exists s <- segs :: s.id == a.id && (a.verb, a.next) == Decide(p, s.row)
    ensures forall i, j | 0 <= i < j < |actions| :: actions[i].id != actions[j].id
  {
    hide Decide, Actions;
    ActionsDecide(p, now, segs[..cut]);
    forall a | a in actions ensures exists s <- segs :: s.id == a.id && (a.verb, a.next) == Decide(p, s.row) {
      var s :| s in segs[..cut] && s.id == a.id && (a.verb, a.next) == Decide(p, s.row);
      assert s in segs;
    }
  }
}
