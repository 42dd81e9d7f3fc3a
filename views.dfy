/** to_file_out: the record view every handler returns. */
module Views {
  import opened Common
  import opened Models
  import opened Keys
  import opened Json

  /** The exposed record. Times stay abstract instants rather than ISO text. */
  datatype FileOut = FileOut(
    id: nat,
    name: string,
    mime: string,
    size: nat,
    tags: seq<string>,
    isPublic: bool,
    state: string,
    createdAt: nat,
    updatedAt: nat,
    path: string,
    thumbAvailable: bool)

  function StateName(s: FileState): (r: string)
    ensures r == "ready" || r == "deleted"
    ensures (r == "deleted") <==> s == Deleted
  {
    match s
    case Ready => "ready"
    case Deleted => "deleted"
  }

  /** The view of one row: tags decoded by json_load, the key without its
      owner prefix as the path, and whether the thumbnail exists. */
  function View(f: FileRecord, loads: string -> Option<seq<string>>,
                blobs: map<string, seq<byte>>): FileOut
  {
    FileOut(f.id, f.name, f.mime, f.size, JsonLoad(loads, f.tags), f.isPublic,
            StateName(f.state), f.createdAt, f.updatedAt, RelativePath(f.key),
            ThumbKey(f.key) in blobs)
  }

  /** The path a view shows for a key the upload built is the folder part
      and the timestamped name: the owner's id never appears in it. */
  lemma ViewPathOfStorageKey(f: FileRecord, loads: string -> Option<seq<string>>,
                             blobs: map<string, seq<byte>>,
                             folder: Option<string>, ts: nat, filename: string)
    requires f.key == StorageKey(f.ownerId, folder, ts, filename)
    ensures View(f, loads, blobs).path == FolderPart(folder) + SafeName(ts, filename)
  {
    RelativePathOfKey(f.ownerId, folder, ts, filename);
  }
}
