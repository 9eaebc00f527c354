/** The catalog of segments: rows and the transitions the catalog's methods make. */
module SegmentCatalog {
  import opened Text

  datatype State = Active | Sealed | Archived | Rehydrated | Lost

  /** A file in one of the data directories. */
  datatype Path =
    | InActive(id: string)
    | InTmp(id: string)
    | InSealed(id: string)
    | InOrphans(id: string)
    | InRehydrated(id: string)

  datatype Row = Row(
    state: State,
    timeStart: int,
    timeEnd: int,
    rowCount: int,
    sizeBytes: int,
    localPath: Option<Path>,
    s3Url: Option<string>,
    archiveRef: Option<string>,
    manifestSha: Option<string>,
    parquetSha: Option<string>,
    sealedAt: Option<int>,
    archivedAt: Option<int>,
    rehydratedAt: Option<int>,
    evictAfter: Option<int>)
  {
    /** The row points at an archive copy. */
    predicate Referenced() {
      s3Url.Some? || archiveRef.Some?
    }
  }

  datatype SealedUpdate = SealedUpdate(rowCount: int, sizeBytes: int, localPath: Path, parquetSha: string,
                                       timeStart: int, timeEnd: int)

  datatype ArchiveUpdate = ArchiveUpdate(s3Url: string, archiveRef: string, manifestSha: string, parquetSha: string)

  datatype RehydrateUpdate = RehydrateUpdate(localPath: Path, rowCount: int, sizeBytes: int, parquetSha: string,
                                             evictAfter: Option<int>)

  /** A column that an update rewrites only when it has something to write. */
  function Rewritten(old_: Option<string>, text: string): Option<string> {
    if text != "" then Some(text) else old_
  }

  function NonEmpty(text: string): Option<string> {
    if text != "" then Some(text) else None
  }

  function NewActiveRow(timeStart: int, timeEnd: int, path: Path): Row {
    Row(Active, timeStart, timeEnd, 0, 0, Some(path), None, None, None, None, None, None, None, None)
  }

  /** A state change stamps the column that belongs to the new state. */
  function WithState(r: Row, state: State, now: int): Row {
    r.(state := state,
       sealedAt := if state == Sealed then Some(now) else r.sealedAt,
       archivedAt := if state == Archived then Some(now) else r.archivedAt,
       rehydratedAt := if state == Rehydrated then Some(now) else r.rehydratedAt)
  }

  function SealedRow(r: Row, u: SealedUpdate, now: int): Row {
    r.(state := Sealed, timeStart := u.timeStart, timeEnd := u.timeEnd, rowCount := u.rowCount,
       sizeBytes := u.sizeBytes, localPath := Some(u.localPath), parquetSha := NonEmpty(u.parquetSha),
       sealedAt := Some(now))
  }

  function ArchivedRow(r: Row, u: ArchiveUpdate, now: int): Row {
    r.(state := Archived, archivedAt := Some(now), s3Url := Rewritten(r.s3Url, u.s3Url),
       archiveRef := Rewritten(r.archiveRef, u.archiveRef),
       manifestSha := Rewritten(r.manifestSha, u.manifestSha), parquetSha := Rewritten(r.parquetSha, u.parquetSha))
  }

  function RehydratedRow(r: Row, u: RehydrateUpdate, now: int): Row {
    r.(state := Rehydrated, rehydratedAt := Some(now), localPath := Some(u.localPath), evictAfter := u.evictAfter,
       rowCount := if u.rowCount > 0 then u.rowCount else r.rowCount,
       sizeBytes := if u.sizeBytes > 0 then u.sizeBytes else r.sizeBytes,
       parquetSha := Rewritten(r.parquetSha, u.parquetSha))
  }

  function ClearedRow(r: Row, next: State): Row {
    r.(state := next, localPath := None, evictAfter := None)
  }

  function ImportedRow(timeStart: int, timeEnd: int, rowCount: int, sizeBytes: int, path: Path, parquetSha: string,
                       evictAfter: Option<int>, now: int): Row {
    Row(Rehydrated, timeStart, timeEnd, rowCount, sizeBytes, Some(path), None, None, None, NonEmpty(parquetSha), None,
        None, Some(now), evictAfter)
  }

  /** No transition takes an archive reference away. */
  predicate KeepsReference(r: Row, s: Row) {
    (r.s3Url.Some? ==> s.s3Url.Some?) && (r.archiveRef.Some? ==> s.archiveRef.Some?)
  }

  /** The rows of the segments table. An update of a missing row fails, except that marking one
      sealed or deleting it silently does nothing. */
  class Catalog {
    var rows: map<string, Row>

    constructor ()
      ensures rows == map[]
    {
      rows := map[];
    }

    method Insert(id: string, r: Row) returns (ok: bool)
      modifies this
      ensures ok <==> id !in old(rows)
      ensures rows == if ok then old(rows)[id := r] else old(rows)
    {
      ok := id !in rows;
      if ok {
        rows := rows[id := r];
      }
    }

    method UpdateState(id: string, state: State, now: int) returns (ok: bool)
      modifies this
      ensures ok <==> id in old(rows)
      ensures rows == if ok then old(rows)[id := WithState(old(rows)[id], state, now)] else old(rows)
    {
      ok := id in rows;
      if ok {
        rows := rows[id := WithState(rows[id], state, now)];
      }
    }

    method MarkSealed(id: string, u: SealedUpdate, now: int)
      modifies this
      ensures rows == if id in old(rows) then old(rows)[id := SealedRow(old(rows)[id], u, now)] else old(rows)
    {
      if id in rows {
        rows := rows[id := SealedRow(rows[id], u, now)];
      }
    }

    method Delete(id: string)
      modifies this
      ensures rows == old(rows) - {id}
    {
      rows := rows - {id};
    }

    method MarkArchived(id: string, u: ArchiveUpdate, now: int) returns (ok: bool)
      modifies this
      ensures ok <==> id in old(rows)
      ensures rows == if ok then old(rows)[id := ArchivedRow(old(rows)[id], u, now)] else old(rows)
    {
      ok := id in rows;
      if ok {
        rows := rows[id := ArchivedRow(rows[id], u, now)];
      }
    }

    method MarkRehydrated(id: string, u: RehydrateUpdate, now: int) returns (ok: bool)
      modifies this
      ensures ok <==> id in old(rows)
      ensures rows == if ok then old(rows)[id := RehydratedRow(old(rows)[id], u, now)] else old(rows)
    {
      ok := id in rows;
      if ok {
        rows := rows[id := RehydratedRow(rows[id], u, now)];
      }
    }

    method SetEvictAfter(id: string, evictAfter: Option<int>) returns (ok: bool)
      modifies this
      ensures ok <==> id in old(rows)
      ensures rows == if ok then old(rows)[id := old(rows)[id].(evictAfter := evictAfter)] else old(rows)
    {
      ok := id in rows;
      if ok {
        rows := rows[id := rows[id].(evictAfter := evictAfter)];
      }
    }

    method ClearLocalFile(id: string, next: State) returns (ok: bool)
      modifies this
      ensures ok <==> id in old(rows)
      ensures rows == if ok then old(rows)[id := ClearedRow(old(rows)[id], next)] else old(rows)
    {
      ok := id in rows;
      if ok {
        rows := rows[id := ClearedRow(rows[id], next)];
      }
    }
  }
}
