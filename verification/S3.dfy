/** The object-store backend: archiving a file with a manifest as commit marker, and retrieving it. */
module S3 {
  import opened Text
  import SegmentIds

  type Bytes = seq<int>

  datatype SegmentRef = SegmentRef(id: string, timeStart: int, timeEnd: int, rowCount: int, sizeBytes: int, sha: string,
                                   persistent: bool)

  datatype Manifest = Manifest(id: string, timeStart: int, timeEnd: int, rowCount: int, sizeBytes: int,
                               sizeCompressed: int, sha: string, persistent: bool)

  /** Hashing, its case-insensitive comparison, and the manifest's encoding. */
  datatype Format = Format(
    hash: Bytes -> string,
    fold: string -> string,
    encode: Manifest -> Bytes,
    decode: Bytes -> Option<Manifest>)

  /** Hashes are not empty and, up to letter case, tell contents apart; manifests read back. */
  ghost predicate LawfulFormat(fmt: Format) {
    (forall b: Bytes :: fmt.hash(b) != "") &&
    (forall a: Bytes, b: Bytes :: fmt.fold(fmt.hash(a)) == fmt.fold(fmt.hash(b)) ==> a == b) &&
    (forall m: Manifest :: fmt.decode(fmt.encode(m)) == Some(m))
  }

  /** Object names: a directory per hour, then the segment's file or its manifest. */
  datatype Key = ParquetKey(hour: int, id: string) | ManifestKey(hour: int, id: string)

  datatype Object = Object(body: Bytes, sha: string)

  datatype Upload = Upload(key: Key, sha: string, parts: map<int, Bytes>)

  /** A call works, fails without effect, or takes effect but reports failure. */
  datatype Fate = Works | FailsBefore | FailsAfter

  datatype Found = Present(sha: string) | Absent | HeadFailed

  /** The parts in the order listed. */
  function Assembled(parts: map<int, Bytes>, order: seq<int>): Bytes
    requires forall i | 0 <= i < |order| :: order[i] in parts
  {
    if order == [] then [] else Assembled(parts, order[..|order| - 1]) + parts[order[|order| - 1]]
  }

  predicate Numbered(parts: map<int, Bytes>, order: seq<int>) {
    forall i | 0 <= i < |order| :: order[i] in parts && 1 <= order[i] <= |order|
  }

  lemma {:induction false} AssembledStays(parts: map<int, Bytes>, order: seq<int>, n: int, body: Bytes)
    requires (forall i | 0 <= i < |order| :: order[i] in parts) && n !in order
    ensures Assembled(parts[n := body], order) == Assembled(parts, order)
  {
    if order != [] {
      AssembledStays(parts, order[..|order| - 1], n, body);
    }
  }

  /** The remote service; what each call does is settled by the fates still to come. */
  class Store {
    var objects: map<Key, Object>
    var uploads: map<int, Upload>
    var nextUpload: int
    var fates: seq<Fate>

    constructor (fates: seq<Fate>)
      ensures objects == map[] && this.fates == fates
    {
      this.objects, this.uploads, this.nextUpload, this.fates := map[], map[], 0, fates;
    }

    method Draw() returns (f: Fate)
      modifies this`fates
      ensures old(fates) == [] ==> f == Works && fates == []
      ensures old(fates) != [] ==> f == old(fates)[0] && fates == old(fates)[1..]
    {
      if fates == [] {
        return Works;
      }
      f, fates := fates[0], fates[1..];
    }

    method Head(key: Key) returns (r: Found)
      modifies this`fates
      ensures r == HeadFailed || r == if key in objects then Present(objects[key].sha) else Absent
      ensures old(fates) == [] ==> r != HeadFailed && fates == []
      ensures old(fates) != [] ==> fates == old(fates)[1..] && (old(fates)[0] == Works ==> r != HeadFailed)
    {
      var f := Draw();
      if f != Works {
        return HeadFailed;
      }
      r := if key in objects then Present(objects[key].sha) else Absent;
    }

    method Put(key: Key, body: Bytes, sha: string) returns (ok: bool)
      modifies this`fates, this`objects
      ensures objects == old(objects) || objects == old(objects)[key := Object(body, sha)]
      ensures ok ==> objects == old(objects)[key := Object(body, sha)]
      ensures old(fates) == [] ==> ok && fates == []
      ensures old(fates) != [] ==> fates == old(fates)[1..] && (old(fates)[0] == Works ==> ok)
      ensures old(fates) != [] && old(fates)[0] == FailsBefore ==> !ok && objects == old(objects)
    {
      var f := Draw();
      if f != FailsBefore {
        objects := objects[key := Object(body, sha)];
      }
      ok := f == Works;
    }

    method CreateUpload(key: Key, sha: string) returns (ok: bool, id: int)
      modifies this`fates, this`uploads, this`nextUpload
      ensures ok ==> id in uploads && uploads[id] == Upload(key, sha, map[])
      ensures old(fates) == [] ==> ok && fates == []
    {
      var f := Draw();
      id := nextUpload;
      if f != FailsBefore {
        uploads := uploads[id := Upload(key, sha, map[])];
        nextUpload := nextUpload + 1;
      }
      ok := f == Works;
    }

    method UploadPart(id: int, number: int, body: Bytes) returns (ok: bool)
      modifies this`fates, this`uploads
      ensures ok ==>
                id in old(uploads) &&
                uploads == old(uploads)[id := old(uploads)[id].(parts := old(uploads)[id].parts[number := body])]
      ensures old(fates) == [] && id in old(uploads) ==> ok && fates == []
    {
      var f := Draw();
      if f != FailsBefore && id in uploads {
        uploads := uploads[id := uploads[id].(parts := uploads[id].parts[number := body])];
      }
      ok := f == Works && id in uploads;
    }

    method Abort(id: int)
      modifies this`fates, this`uploads
      ensures old(fates) == [] ==> fates == []
    {
      var f := Draw();
      if f != FailsBefore {
        uploads := uploads - {id};
      }
    }

    /** The object appears as a whole or not at all. */
    method Complete(id: int, order: seq<int>) returns (ok: bool)
      modifies this`fates, this`uploads, this`objects
      ensures objects == old(objects) ||
              (id in old(uploads) && (forall i | 0 <= i < |order| :: order[i] in old(uploads)[id].parts) &&
               var u := old(uploads)[id];
               objects == old(objects)[u.key := Object(Assembled(u.parts, order), u.sha)])
      ensures ok ==> id in old(uploads) && (forall i | 0 <= i < |order| :: order[i] in old(uploads)[id].parts)
      ensures ok ==>
                var u := old(uploads)[id];
                objects == old(objects)[u.key := Object(Assembled(u.parts, order), u.sha)]
      ensures (old(fates) == [] && id in old(uploads) &&
               forall i | 0 <= i < |order| :: order[i] in old(uploads)[id].parts) ==>
                ok && fates == []
    {
      var f := Draw();
      var known := id in uploads && forall i | 0 <= i < |order| :: order[i] in uploads[id].parts;
      if f != FailsBefore && known {
        objects := objects[uploads[id].key := Object(Assembled(uploads[id].parts, order), uploads[id].sha)];
        uploads := uploads - {id};
      }
      ok := f == Works && known;
    }

    method Get(key: Key) returns (r: Option<Object>)
      modifies this`fates
      ensures r.Some? ==> key in objects && r.value == objects[key]
      ensures old(fates) == [] ==> r == (if key in objects then Some(objects[key]) else None) && fates == []
    {
      var f := Draw();
      r := if f == Works && key in objects then Some(objects[key]) else None;
    }
  }

  function ParquetKeyOf(ref: SegmentRef): Key {
    ParquetKey(ref.timeStart / SegmentIds.HOUR, ref.id)
  }

  function ManifestKeyOf(ref: SegmentRef): Key {
    ManifestKey(ref.timeStart / SegmentIds.HOUR, ref.id)
  }

  function ShaOf(fmt: Format, ref: SegmentRef, file: Bytes): string {
    if ref.sha == "" then fmt.hash(file) else ref.sha
  }

  function ManifestFor(fmt: Format, ref: SegmentRef, file: Bytes): Manifest {
    Manifest(ref.id, ref.timeStart, ref.timeEnd, ref.rowCount, ref.sizeBytes, |file|, ShaOf(fmt, ref, file),
             ref.persistent)
  }

  /** The hash the catalog recorded, if any, is the file's. */
  predicate HonestRef(fmt: Format, ref: SegmentRef, file: Bytes) {
    ref.sha == "" || ref.sha == fmt.hash(file)
  }

  /** Segment objects carry the hash of their content: they are written by this backend only. */
  ghost predicate Tagged(fmt: Format, objects: map<Key, Object>) {
    forall k | k in objects && k.ParquetKey? :: objects[k].sha == fmt.hash(objects[k].body)
  }

  /** The store holds the complete file and the manifest that commits it. */
  predicate Committed(fmt: Format, objects: map<Key, Object>, ref: SegmentRef, file: Bytes) {
    ParquetKeyOf(ref) in objects && objects[ParquetKeyOf(ref)].body == file &&
    ManifestKeyOf(ref) in objects && objects[ManifestKeyOf(ref)].body == fmt.encode(ManifestFor(fmt, ref, file))
  }

  /** What the manifest of a committed segment says: the reference it was archived under, with the size
      and the hash of the very file beside it. Both objects sit in the directory of the hour in which
      the segment starts. */
  lemma CommittedManifest(fmt: Format, objects: map<Key, Object>, ref: SegmentRef, file: Bytes)
    requires LawfulFormat(fmt) && HonestRef(fmt, ref, file) && Committed(fmt, objects, ref, file)
    ensures var hour := ref.timeStart / (60 * 60_000_000_000);
            ParquetKey(hour, ref.id) in objects && objects[ParquetKey(hour, ref.id)].body == file &&
            ManifestKey(hour, ref.id) in objects &&
            fmt.decode(objects[ManifestKey(hour, ref.id)].body) ==
            Some(Manifest(ref.id, ref.timeStart, ref.timeEnd, ref.rowCount, ref.sizeBytes, |file|, fmt.hash(file),
                          ref.persistent))
  {
    assert fmt.decode(fmt.encode(ManifestFor(fmt, ref, file))) == Some(ManifestFor(fmt, ref, file));
  }

  /** The file object and a readable manifest are there. */
  predicate Downloads(fmt: Format, objects: map<Key, Object>, ref: SegmentRef) {
    ParquetKeyOf(ref) in objects && ManifestKeyOf(ref) in objects && fmt.decode(objects[ManifestKeyOf(ref)].body).Some?
  }

  /** Both are there, and the file object does not have the hash the manifest gives. */
  predicate Mismatched(fmt: Format, objects: map<Key, Object>, ref: SegmentRef) {
    Downloads(fmt, objects, ref) &&
    var m := fmt.decode(objects[ManifestKeyOf(ref)].body).value;
    fmt.fold(fmt.hash(objects[ParquetKeyOf(ref)].body)) != fmt.fold(m.sha)
  }

  /** The store lost nothing but possibly an older object under the segment's own names; its file
      object is as before or complete, and its manifest changed only if the file is complete. */
  ghost predicate OnlyCommits(before: map<Key, Object>, after: map<Key, Object>, ref: SegmentRef, file: Bytes,
                              sha: string) {
    (forall k | k != ParquetKeyOf(ref) && k != ManifestKeyOf(ref) ::
       (k in before <==> k in after) && (k in before ==> after[k] == before[k])) &&
    (Same(before, after, ParquetKeyOf(ref)) ||
     (ParquetKeyOf(ref) in after && after[ParquetKeyOf(ref)] == Object(file, sha))) &&
    (Same(before, after, ManifestKeyOf(ref)) || (ParquetKeyOf(ref) in after && after[ParquetKeyOf(ref)].body == file))
  }

  predicate Same(before: map<Key, Object>, after: map<Key, Object>, k: Key) {
    (k in before <==> k in after) && (k in before ==> before[k] == after[k])
  }

  datatype ArchiveResult = Stored(s3Key: Key, manifestSha: string, parquetSha: string, alreadyPresent: bool)
    | ArchiveFailed

  datatype RetrieveResult = Retrieved(file: Bytes, manifest: Manifest) | RetrieveFailed

  class Backend {
    const store: Store
    const fmt: Format
    const threshold: nat
    const partSize: nat

    constructor (store: Store, fmt: Format, threshold: int, partSize: int)
      ensures this.store == store && this.fmt == fmt && this.partSize > 0
      ensures this.threshold == if threshold <= 0 then 64 * 1024 * 1024 else threshold
    {
      this.store, this.fmt := store, fmt;
      this.threshold := if threshold <= 0 then 64 * 1024 * 1024 else threshold;
      this.partSize := if partSize <= 0 then 16 * 1024 * 1024 else partSize;
    }

    /** One more part under the next number. */
    method SendPart(id: int, order: seq<int>, chunk: Bytes) returns (ok: bool)
      requires id in store.uploads && Numbered(store.uploads[id].parts, order)
      modifies store`fates, store`uploads
      ensures ok ==>
                id in store.uploads && store.uploads[id].key == old(store.uploads)[id].key &&
                store.uploads[id].sha == old(store.uploads)[id].sha
      ensures ok ==> Numbered(store.uploads[id].parts, order + [|order| + 1])
      ensures ok ==>
                Assembled(store.uploads[id].parts, order + [|order| + 1]) ==
                  Assembled(old(store.uploads)[id].parts, order) + chunk
      ensures old(store.fates) == [] ==> ok && store.fates == []
    {
      var number := |order| + 1;
      AssembledStays(store.uploads[id].parts, order, number, chunk);
      ok := store.UploadPart(id, number, chunk);
      assert (order + [number])[..|order|] == order;
    }

    /** The parts sent, in order, are the file. */
    method UploadMultipart(key: Key, file: Bytes, sha: string) returns (ok: bool)
      requires partSize > 0
      modifies store
      ensures store.objects == old(store.objects) || store.objects == old(store.objects)[key := Object(file, sha)]
      ensures ok ==> file != [] && store.objects == old(store.objects)[key := Object(file, sha)]
      ensures old(store.fates) == [] ==> (ok <==> file != []) && store.fates == []
    {
      var created, id := store.CreateUpload(key, sha);
      if !created {
        return false;
      }
      var order: seq<int> := [];
      var pos := 0;
      while true
        invariant store.objects == old(store.objects) && 0 <= pos <= |file|
        invariant id in store.uploads && store.uploads[id].key == key && store.uploads[id].sha == sha
        invariant Numbered(store.uploads[id].parts, order)
        invariant Assembled(store.uploads[id].parts, order) == file[..pos]
        invariant order == [] <==> pos == 0
        invariant old(store.fates) == [] ==> store.fates == []
        decreases |file| - pos
      {
        var n := if |file| - pos < partSize then |file| - pos else partSize;
        if n > 0 {
          var sent := SendPart(id, order, file[pos..pos + n]);
          if !sent {
            store.Abort(id);
            return false;
          }
          order := order + [|order| + 1];
          assert file[..pos + n] == file[..pos] + file[pos..pos + n];
        }
        pos := pos + n;
        if n < partSize {
          break;
        }
      }
      assert pos == |file| ==> file[..pos] == file;
      if order == [] {
        store.Abort(id);
        return false;
      }
      ok := store.Complete(id, order);
    }

    method UploadFile(key: Key, file: Bytes, sha: string) returns (ok: bool)
      requires partSize > 0
      modifies store
      ensures store.objects == old(store.objects) || store.objects == old(store.objects)[key := Object(file, sha)]
      ensures ok ==> store.objects == old(store.objects)[key := Object(file, sha)]
      ensures old(store.fates) == [] ==> ok && store.fates == []
      ensures |file| <= threshold && old(store.fates) != [] && old(store.fates)[0] == Works ==>
                ok && store.fates == old(store.fates)[1..]
    {
      if |file| > threshold {
        ok := UploadMultipart(key, file, sha);
      } else {
        ok := store.Put(key, file, sha);
      }
    }

    /** Bringing the file object into place: kept if it is already there with the right hash, else
        uploaded and checked. */
    method EnsureFile(key: Key, file: Bytes, sha: string) returns (ok: bool, present: bool)
      requires partSize > 0 && LawfulFormat(fmt) && key.ParquetKey? && sha == fmt.hash(file) &&
               Tagged(fmt, store.objects)
      modifies store
      ensures Tagged(fmt, store.objects)
      ensures store.objects == old(store.objects) || store.objects == old(store.objects)[key := Object(file, sha)]
      ensures ok ==> key in store.objects && store.objects[key].body == file
      ensures old(store.fates) == [] ==> ok && store.fates == []
      ensures [Works, Works, Works] <= old(store.fates) && |file| <= threshold && key in old(store.objects) &&
              old(store.objects)[key].body != file ==>
                ok && store.objects == old(store.objects)[key := Object(file, sha)] &&
                store.fates == old(store.fates)[3..]
    {
      var head := store.Head(key);
      if head == HeadFailed {
        return false, false;
      }
      present := head.Present? && (head.sha == "" || fmt.fold(head.sha) == fmt.fold(sha));
      if present {
        return true, true;
      }
      ok := UploadFile(key, file, sha);
      if !ok {
        return;
      }
      var check := store.Head(key);
      ok := check.Present? && (check.sha == "" || fmt.fold(check.sha) == fmt.fold(sha));
    }

    /** Archiving: the file object first, the manifest last. */
    method Archive(ref: SegmentRef, file: Bytes) returns (r: ArchiveResult)
      requires partSize > 0 && LawfulFormat(fmt) && HonestRef(fmt, ref, file) && Tagged(fmt, store.objects)
      modifies store
      ensures Tagged(fmt, store.objects)
      ensures OnlyCommits(old(store.objects), store.objects, ref, file, fmt.hash(file))
      ensures r.Stored? ==>
                Committed(fmt, store.objects, ref, file) && r.s3Key == ParquetKeyOf(ref) &&
                r.parquetSha == fmt.hash(file) && r.manifestSha == fmt.hash(store.objects[ManifestKeyOf(ref)].body)
      ensures old(store.fates) == [] ==> r.Stored? && store.fates == []
      ensures old(store.fates) == [Works, Works, Works, FailsBefore] && |file| <= threshold &&
              ParquetKeyOf(ref) in old(store.objects) && old(store.objects)[ParquetKeyOf(ref)].body != file ==>
                r.ArchiveFailed? &&
                store.objects == old(store.objects)[ParquetKeyOf(ref) := Object(file, fmt.hash(file))]
    {
      var sha := ShaOf(fmt, ref, file);
      var ok, present := EnsureFile(ParquetKeyOf(ref), file, sha);
      if !ok {
        return ArchiveFailed;
      }
      var body := fmt.encode(ManifestFor(fmt, ref, file));
      var put := store.Put(ManifestKeyOf(ref), body, sha);
      if !put {
        return ArchiveFailed;
      }
      r := Stored(ParquetKeyOf(ref), fmt.hash(body), sha, present);
    }

    /** What comes back is what the manifest describes; a committed segment comes back unchanged. The
        file is downloaded to its final place before its hash is compared, so left is what stays there
        even when the comparison fails. */
    method Retrieve(ref: SegmentRef) returns (r: RetrieveResult, left: Option<Bytes>)
      requires LawfulFormat(fmt)
      modifies store`fates
      ensures r.Retrieved? ==> fmt.fold(fmt.hash(r.file)) == fmt.fold(r.manifest.sha) && left == Some(r.file)
      ensures r.Retrieved? ==>
                Downloads(fmt, store.objects, ref) &&
                fmt.decode(store.objects[ManifestKeyOf(ref)].body) == Some(r.manifest)
      ensures left.Some? ==> Downloads(fmt, store.objects, ref) && left.value == store.objects[ParquetKeyOf(ref)].body
      ensures left.Some? ==> (r.RetrieveFailed? <==> Mismatched(fmt, store.objects, ref))
      ensures old(store.fates) == [] ==> (left.Some? <==> Downloads(fmt, store.objects, ref)) && store.fates == []
      ensures forall file: Bytes | HonestRef(fmt, ref, file) && Committed(fmt, store.objects, ref, file) ::
                !Mismatched(fmt, store.objects, ref) &&
                (r.Retrieved? ==> r.file == file && r.manifest == ManifestFor(fmt, ref, file)) &&
                (old(store.fates) == [] ==> r.Retrieved?)
    {
      left := None;
      var m := store.Get(ManifestKeyOf(ref));
      if m.None? {
        return RetrieveFailed, left;
      }
      var manifest := fmt.decode(m.value.body);
      if manifest.None? {
        return RetrieveFailed, left;
      }
      var p := store.Get(ParquetKeyOf(ref));
      if p.None? {
        return RetrieveFailed, left;
      }
      left := Some(p.value.body);
      if fmt.fold(fmt.hash(p.value.body)) != fmt.fold(manifest.value.sha) {
        return RetrieveFailed, left;
      }
      r := Retrieved(p.value.body, manifest.value);
    }
  }

  /** A file object was replaced while the manifest still describes the one before. */
  lemma ReplacedFileMismatches(fmt: Format, before: map<Key, Object>, ref: SegmentRef, file: Bytes, other: Bytes)
    requires LawfulFormat(fmt) && HonestRef(fmt, ref, file) && Committed(fmt, before, ref, file) && other != file
    ensures var after := before[ParquetKeyOf(ref) := Object(other, fmt.hash(other))];
            OnlyCommits(before, after, ref, other, fmt.hash(other)) && Mismatched(fmt, after, ref)
  {
    assert fmt.decode(fmt.encode(ManifestFor(fmt, ref, file))) == Some(ManifestFor(fmt, ref, file));
  }

  /** That this happens: archiving other content under the same name, with only the last call, the
      manifest's, failing. */
  method ReplaceWithoutManifest(b: Backend, ref: SegmentRef, file: Bytes, again: SegmentRef, other: Bytes)
    returns (r: ArchiveResult)
    requires b.partSize > 0 && LawfulFormat(b.fmt) && Tagged(b.fmt, b.store.objects) && |other| <= b.threshold &&
             other != file
    requires HonestRef(b.fmt, ref, file) && Committed(b.fmt, b.store.objects, ref, file)
    requires HonestRef(b.fmt, again, other) && again.id == ref.id && again.timeStart == ref.timeStart
    requires b.store.fates == [Works, Works, Works, FailsBefore]
    modifies b.store
    ensures r.ArchiveFailed? && Tagged(b.fmt, b.store.objects) && Mismatched(b.fmt, b.store.objects, ref)
  {
    hide Tagged;
    ReplacedFileMismatches(b.fmt, b.store.objects, ref, file, other);
    r := b.Archive(again, other);
  }
}
