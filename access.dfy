/** The read endpoints download_file, preview and thumb: the shared guard
    (missing or not ready, then another owner), then the checks on the
    content store. */
module Access {
  import opened Common
  import opened Models
  import opened Keys
  import opened Content

  /** A FileResponse: the bytes sent, the media type and the download name. */
  datatype Response = Response(content: seq<byte>, mediaType: string, filename: string)

  /** `f` exists and is in state "ready". */
  predicate ReadyAt(rows: map<nat, FileRecord>, id: int) {
    id >= 0 && id in rows && rows[id].state == Ready
  }

  predicate IsImage(mime: string) {
    "image/" <= mime
  }

  /** The guard shared by the three read endpoints. */
  function Readable(table: FileTable, id: int, caller: nat): (r: Result<FileRecord>)
    reads table
    ensures !ReadyAt(table.rows, id) ==> r == Err(Failure(404, "File not found"))
    ensures ReadyAt(table.rows, id) && table.rows[id].ownerId != caller ==> r == Err(Failure(403, "Forbidden"))
    ensures ReadyAt(table.rows, id) && table.rows[id].ownerId == caller ==> r == Ok(table.rows[id])
  {
    match table.Get(id)
    case None => Err(Failure(404, "File not found"))
    case Some(f) =>
      if f.state != Ready then Err(Failure(404, "File not found"))
      else if f.ownerId != caller then Err(Failure(403, "Forbidden"))
      else Ok(f)
  }

  /** download_file: the stored bytes under the record's mime and name. */
  function Download(table: FileTable, disk: ContentStore, id: int, caller: nat): (r: Result<Response>)
    reads table, disk
    ensures Readable(table, id, caller).Err? ==> r == Err(Readable(table, id, caller).failure)
    ensures Readable(table, id, caller).Ok? ==>
      var f := table.rows[id];
      if f.key in disk.blobs then r == Ok(Response(disk.blobs[f.key], f.mime, f.name))
      else r == Err(Failure(410, "File missing on disk"))
  {
    match Readable(table, id, caller)
    case Err(e) => Err(e)
    case Ok(f) =>
      if f.key !in disk.blobs then Err(Failure(410, "File missing on disk"))
      else Ok(Response(disk.blobs[f.key], f.mime, f.name))
  }

  /** preview: as download, for image types only. */
  function Preview(table: FileTable, disk: ContentStore, id: int, caller: nat): (r: Result<Response>)
    reads table, disk
    ensures Readable(table, id, caller).Err? ==> r == Err(Readable(table, id, caller).failure)
    ensures Readable(table, id, caller).Ok? ==>
      var f := table.rows[id];
      if f.key !in disk.blobs then r == Err(Failure(410, "Missing"))
      else if IsImage(f.mime) then r == Ok(Response(disk.blobs[f.key], f.mime, f.name))
      else r == Err(Failure(415, "Preview not supported"))
  {
    match Readable(table, id, caller)
    case Err(e) => Err(e)
    case Ok(f) =>
      if f.key !in disk.blobs then Err(Failure(410, "Missing"))
      else if IsImage(f.mime) then Ok(Response(disk.blobs[f.key], f.mime, f.name))
      else Err(Failure(415, "Preview not supported"))
  }

  /** thumb: the derived PNG, named after the record. */
  function Thumb(table: FileTable, disk: ContentStore, id: int, caller: nat): (r: Result<Response>)
    reads table, disk
    ensures Readable(table, id, caller).Err? ==> r == Err(Readable(table, id, caller).failure)
    ensures Readable(table, id, caller).Ok? ==>
      var f := table.rows[id];
      if ThumbKey(f.key) in disk.blobs
      then r == Ok(Response(disk.blobs[ThumbKey(f.key)], "image/png", f.name + ".thumb.png"))
      else r == Err(Failure(404, "No thumb"))
  {
    match Readable(table, id, caller)
    case Err(e) => Err(e)
    case Ok(f) =>
      var tk := ThumbKey(f.key);
      if tk !in disk.blobs then Err(Failure(404, "No thumb"))
      else Ok(Response(disk.blobs[tk], "image/png", f.name + ".thumb.png"))
  }

  // ---------------------------------------------------------------- lemmas

  /** Nothing is served but a ready record of the caller's. */
  lemma ServedOnlyToOwner(table: FileTable, disk: ContentStore, id: int, caller: nat)
    ensures Download(table, disk, id, caller).Ok? || Preview(table, disk, id, caller).Ok?
         || Thumb(table, disk, id, caller).Ok?
        ==> ReadyAt(table.rows, id) && table.rows[id].ownerId == caller
  {
  }

  /** The guard order: a record that is missing or soft-deleted gives 404
      to everyone, its owner included, whatever is on disk; the 403 for a
      ready record of another user comes before any look at the disk. */
  lemma GuardOrder(table: FileTable, disk: ContentStore, id: int, caller: nat)
    ensures !ReadyAt(table.rows, id) ==>
      && Download(table, disk, id, caller) == Err(Failure(404, "File not found"))
      && Preview(table, disk, id, caller) == Err(Failure(404, "File not found"))
      && Thumb(table, disk, id, caller) == Err(Failure(404, "File not found"))
    ensures ReadyAt(table.rows, id) && table.rows[id].ownerId != caller ==>
      && Download(table, disk, id, caller) == Err(Failure(403, "Forbidden"))
      && Preview(table, disk, id, caller) == Err(Failure(403, "Forbidden"))
      && Thumb(table, disk, id, caller) == Err(Failure(403, "Forbidden"))
  {
  }

  /** A preview is exactly the download of an image. */
  lemma PreviewIsImageDownload(table: FileTable, disk: ContentStore, id: int, caller: nat)
    ensures Preview(table, disk, id, caller).Ok?
        <==> Download(table, disk, id, caller).Ok? && IsImage(table.rows[id].mime)
    ensures Preview(table, disk, id, caller).Ok? ==>
      Preview(table, disk, id, caller) == Download(table, disk, id, caller)
  {
  }

  /** The thumbnail is looked up on its own key: it is served even when the
      original blob is gone, and withheld when only the original exists. */
  lemma ThumbIndependentOfOriginal(table: FileTable, disk: ContentStore, id: int, caller: nat)
    requires ReadyAt(table.rows, id) && table.rows[id].ownerId == caller
    ensures Thumb(table, disk, id, caller).Ok? <==> ThumbKey(table.rows[id].key) in disk.blobs
    ensures Download(table, disk, id, caller).Ok? <==> table.rows[id].key in disk.blobs
  {
  }
}
