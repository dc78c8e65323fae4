/**
 * `ManifestStore`, as the tables it keeps rather than the SQL that keeps them: the segment table
 * (id to path), the doc map ((segment id, doc id) to file id), doc tombstones and file tombstones.
 * Every `MERGE ... KEY(...)` is an insert-or-overwrite on the key, every `DELETE ... WHERE` a
 * removal of the matching rows.
 */
module ManifestStore {
  import opened JavaInts
  import opened Wrappers

  type DocKey = (string, int32)

  datatype Manifest = Manifest(
    segments: map<string, string>,
    docmap: map<DocKey, string>,
    tombstones: set<DocKey>,
    fileTombstones: set<string>)

  /** A fresh database: every table empty. */
  const Empty := Manifest(map[], map[], {}, {})

  /** `upsert(id, path)`: the segment row for `id` now holds `path`; other rows are kept. */
  function Upsert(m: Manifest, id: string, path: string): (r: Manifest)
    ensures r.segments.Keys == m.segments.Keys + {id} && r.segments[id] == path
    ensures forall o :: o in m.segments && o != id ==> r.segments[o] == m.segments[o]
    ensures r.docmap == m.docmap && r.tombstones == m.tombstones && r.fileTombstones == m.fileTombstones
  {
    m.(segments := m.segments[id := path])
  }

  /** `listIds()`: the ids in the segment table; the query fixes no order, so this is a set. */
  function ListIds(m: Manifest): set<string> {
    m.segments.Keys
  }

  /** `remove(id)`: the segment row for `id` is gone; other rows are kept. */
  function Remove(m: Manifest, id: string): (r: Manifest)
    ensures r.segments.Keys == m.segments.Keys - {id}
    ensures forall o :: o in r.segments ==> r.segments[o] == m.segments[o]
    ensures r.docmap == m.docmap && r.tombstones == m.tombstones && r.fileTombstones == m.fileTombstones
  {
    m.(segments := m.segments - {id})
  }

  /**
   * `mapDoc(segId, docId, fileId)`: the doc map row for the key now names `fileId`.
   * `upsertDocmap` runs the same `MERGE` on the same key and is this function too.
   */
  function MapDoc(m: Manifest, segId: string, docId: int32, fileId: string): (r: Manifest)
    ensures ResolveFileId(r, segId, docId) == Some(fileId)
    ensures forall s: string, d: int32 :: (s, d) != (segId, docId) ==> ResolveFileId(r, s, d) == ResolveFileId(m, s, d)
    ensures r.segments == m.segments && r.tombstones == m.tombstones && r.fileTombstones == m.fileTombstones
  {
    m.(docmap := m.docmap[(segId, docId) := fileId])
  }

  /** `findDocsByFileId(fileId)`: the keys whose row names `fileId`, in no particular order. */
  function FindDocsByFileId(m: Manifest, fileId: string): (r: set<DocKey>)
    ensures forall k :: k in r <==> ResolveFileId(m, k.0, k.1) == Some(fileId)
  {
    set k | k in m.docmap && m.docmap[k] == fileId
  }

  /** `resolveFileId(segId, docId)`: the file id of the row, or `null` (here `None`) without one. */
  function ResolveFileId(m: Manifest, segId: string, docId: int32): Option<string> {
    if (segId, docId) in m.docmap then Some(m.docmap[(segId, docId)]) else None
  }

  /** `addTombstone(segId, docId)`. */
  function AddTombstone(m: Manifest, segId: string, docId: int32): (r: Manifest)
    ensures forall s: string, d: int32 :: IsTombstoned(r, s, d) <==> (s, d) == (segId, docId) || IsTombstoned(m, s, d)
    ensures r.segments == m.segments && r.docmap == m.docmap && r.fileTombstones == m.fileTombstones
  {
    m.(tombstones := m.tombstones + {(segId, docId)})
  }

  /** `isTombstoned(segId, docId)`: a row counts when `COUNT(*)` is positive. */
  predicate IsTombstoned(m: Manifest, segId: string, docId: int32) {
    (segId, docId) in m.tombstones
  }

  /** `addTombstoneByFileId(fileId)`. */
  function AddTombstoneByFileId(m: Manifest, fileId: string): (r: Manifest)
    ensures forall f :: IsTombstonedFileId(r, f) <==> f == fileId || IsTombstonedFileId(m, f)
    ensures r.segments == m.segments && r.docmap == m.docmap && r.tombstones == m.tombstones
  {
    m.(fileTombstones := m.fileTombstones + {fileId})
  }

  /** `isTombstonedFileId(fileId)`. */
  predicate IsTombstonedFileId(m: Manifest, fileId: string) {
    fileId in m.fileTombstones
  }

  /** `deleteDocmapBySegment(segId)`: every doc map row of `segId` is gone, every other row kept. */
  function DeleteDocmapBySegment(m: Manifest, segId: string): (r: Manifest)
    ensures forall s: string, d: int32 :: ResolveFileId(r, s, d) == (if s == segId then None else ResolveFileId(m, s, d))
    ensures r.segments == m.segments && r.tombstones == m.tombstones && r.fileTombstones == m.fileTombstones
  {
    m.(docmap := map k | k in m.docmap && k.0 != segId :: m.docmap[k])
  }

  // ---------------------------------------------------------------- properties across operations

  /** Writing the same row twice is writing it once (the `MERGE` statements are idempotent). */
  lemma WritesIdempotent(m: Manifest, id: string, path: string, segId: string, docId: int32, fileId: string)
    ensures Upsert(Upsert(m, id, path), id, path) == Upsert(m, id, path)
    ensures MapDoc(MapDoc(m, segId, docId, fileId), segId, docId, fileId) == MapDoc(m, segId, docId, fileId)
    ensures AddTombstone(AddTombstone(m, segId, docId), segId, docId) == AddTombstone(m, segId, docId)
    ensures AddTombstoneByFileId(AddTombstoneByFileId(m, fileId), fileId) == AddTombstoneByFileId(m, fileId)
  {
  }

  /** A later `upsert` of the same id wins; a `remove` after an `upsert` leaves no row for the id. */
  lemma UpsertThenRemove(m: Manifest, id: string, p1: string, p2: string)
    ensures Upsert(Upsert(m, id, p1), id, p2) == Upsert(m, id, p2)
    ensures id !in ListIds(Remove(Upsert(m, id, p1), id))
    ensures ListIds(Upsert(m, id, p1)) == ListIds(m) + {id}
  {
  }

  /** A mapped doc is found by its file id and by no other, until its segment's rows are deleted. */
  lemma MapDocThenFind(m: Manifest, segId: string, docId: int32, fileId: string, other: string)
    requires other != fileId
    ensures (segId, docId) in FindDocsByFileId(MapDoc(m, segId, docId, fileId), fileId)
    ensures (segId, docId) !in FindDocsByFileId(MapDoc(m, segId, docId, fileId), other)
    ensures (segId, docId) !in FindDocsByFileId(DeleteDocmapBySegment(MapDoc(m, segId, docId, fileId), segId), fileId)
  {
    var after := MapDoc(m, segId, docId, fileId);
    assert ResolveFileId(DeleteDocmapBySegment(after, segId), segId, docId) == None;
  }

  /** Deleting a segment's doc map rows twice is deleting them once, and it leaves no row of it. */
  lemma DeleteDocmapBySegmentIdempotent(m: Manifest, segId: string)
    ensures DeleteDocmapBySegment(DeleteDocmapBySegment(m, segId), segId) == DeleteDocmapBySegment(m, segId)
    ensures forall k :: k in DeleteDocmapBySegment(m, segId).docmap ==> k.0 != segId
  {
  }
}
