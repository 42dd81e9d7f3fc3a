/** upload_file: the MIME check against the configured allow-list, the
    storage key, the size-limited write, tag normalisation, the record
    insert and the optional thumbnail. */
module Upload {
  import opened Common
  import opened Models
  import opened Content
  import opened Keys
  import opened Json
  import opened Views
  import opened Access

  /** The settings upload_file reads: MAX_UPLOAD_MB and ALLOWED_MIME. */
  datatype Settings = Settings(maxUploadMb: int, allowedMime: string)

  /** The values backend/config.py declares. */
  const DefaultSettings := Settings(50, "image/jpeg,image/png,image/webp,application/pdf,text/plain")

  /** max_bytes = MAX_UPLOAD_MB * 1024 * 1024. */
  function MaxBytes(s: Settings): int {
    s.maxUploadMb * 1024 * 1024
  }

  // ---------------------------------------------------------------- allow-list

  /** Some piece of `parts` strips to `m`. */
  predicate StripsTo(parts: seq<string>, m: string) {
    exists i | 0 <= i < |parts| :: Strip(parts[i]) == m
  }

  lemma StripsToCons(parts: seq<string>, m: string)
    requires parts != []
    ensures StripsTo(parts, m) <==> Strip(parts[0]) == m || StripsTo(parts[1..], m)
  {
    if StripsTo(parts[1..], m) {
      var i :| 0 <= i < |parts[1..]| && Strip(parts[1..][i]) == m;
      assert parts[i + 1] == parts[1..][i];
    }
    if StripsTo(parts, m) && Strip(parts[0]) != m {
      var i :| 0 <= i < |parts| && Strip(parts[i]) == m;
      assert parts[1..][i - 1] == parts[i];
    }
  }

  /** [m.strip() for m in parts if m.strip()]. */
  function NonEmptyStripped(parts: seq<string>): (r: seq<string>)
    ensures forall m :: m in r <==> m != "" && StripsTo(parts, m)
    decreases |parts|
  {
    if parts == [] then []
    else
      var rest := NonEmptyStripped(parts[1..]);
      var s := Strip(parts[0]);
      assert forall m :: StripsTo(parts, m) <==> s == m || StripsTo(parts[1..], m) by {
        forall m
          ensures StripsTo(parts, m) <==> s == m || StripsTo(parts[1..], m)
        {
          StripsToCons(parts, m);
        }
      }
      if s != "" then [s] + rest else rest
  }

  /** The parsed ALLOWED_MIME setting. */
  function AllowList(setting: string): seq<string> {
    NonEmptyStripped(Split(setting, ','))
  }

  /** An empty allow-list admits every type. */
  predicate MimeAllowed(allowed: seq<string>, mime: string) {
    allowed == [] || mime in allowed
  }

  lemma StripWithin(s: string)
    ensures forall c :: c in Strip(s) ==> c in s
  {
    var t := TrimStart(s, IsSpace);
    assert forall c :: c in TrimEnd(t, IsSpace) ==> c in t;
    assert forall c :: c in t ==> c in s;
  }

  /** The allow-list is exactly the comma-separated entries of the setting,
      trimmed, with blank entries dropped; no entry holds a comma or is
      padded with white space. */
  lemma AllowListEntries(setting: string, m: string)
    ensures m in AllowList(setting) <==> m != "" && StripsTo(Split(setting, ','), m)
    ensures m in AllowList(setting) ==> ',' !in m && !IsSpace(m[0]) && !IsSpace(m[|m| - 1])
  {
    var parts := Split(setting, ',');
    if m in AllowList(setting) {
      var i :| 0 <= i < |parts| && Strip(parts[i]) == m;
      StripWithin(parts[i]);
    }
  }

  /** An empty setting allows every type. */
  lemma EmptySettingAllowsAll(mime: string)
    ensures MimeAllowed(AllowList(""), mime)
  {
    assert Split("", ',') == [""];
    assert Strip("") == "";
    assert [""][1..] == [];
    assert NonEmptyStripped([]) == [];
  }

  /** The type the upload is checked and stored under:
      `file.content_type or (guess_type(filename or "file")[0] or
      "application/octet-stream")`. Guessing by file name belongs to a
      library outside the model and is the parameter `guess`. */
  function ResolveMime(contentType: Option<string>, guess: string -> Option<string>,
                       filename: Option<string>): (r: string)
    ensures r != ""
    ensures Given(contentType) ==> r == contentType.value
    ensures !Given(contentType) && Given(guess(FileName(filename))) ==> r == guess(FileName(filename)).value
    ensures !Given(contentType) && !Given(guess(FileName(filename))) ==> r == "application/octet-stream"
  {
    if Given(contentType) then contentType.value
    else if Given(guess(FileName(filename))) then guess(FileName(filename)).value
    else "application/octet-stream"
  }

  // ---------------------------------------------------------------- the handler

  /** The key the upload writes to. */
  function UploadKey(owner: nat, folder: Option<string>, ts: nat, filename: Option<string>): string {
    StorageKey(owner, folder, ts, FileName(filename))
  }

  /** The row upload_file inserts; id, created_at and updated_at are the
      database's. */
  function UploadRow(owner: nat, key: string, filename: Option<string>, mime: string,
                     size: nat, tags: string): FileInsert {
    FileInsert(owner, key, FileName(filename), mime, Some(size), Some(tags), None, Some(Ready))
  }

  /** POST /files/upload. `chunks` are the successive reads of the request
      body, `ts` the millisecond clock, `now` the database clock, and
      `thumbnail` what the image library produces from the stored image
      (None when it fails). */
  method UploadFile(table: FileTable, disk: ContentStore, settings: Settings,
                    loads: string -> Option<seq<string>>, guess: string -> Option<string>,
                    owner: nat, filename: Option<string>, contentType: Option<string>,
                    tags: Option<string>, folder: Option<string>, chunks: seq<seq<byte>>,
                    ts: nat, now: nat, thumbnail: Option<seq<byte>>)
    returns (r: Result<FileOut>)
    requires table.Valid()
    modifies table, disk
    ensures table.Valid()
    ensures
      var mime := ResolveMime(contentType, guess, filename);
      var key := UploadKey(owner, folder, ts, filename);
      var data := Concat(Received(chunks));
      var stored := old(disk.blobs)[key := data];
      var row := UploadRow(owner, key, filename, mime, Total(Received(chunks)), NormalizeTags(loads, tags));
      && (!MimeAllowed(AllowList(settings.allowedMime), mime) ==>
            && r == Err(Failure(415, "Mime not allowed: " + mime))
            && table.rows == old(table.rows) && disk.blobs == old(disk.blobs))
      && (MimeAllowed(AllowList(settings.allowedMime), mime) && !Fits(chunks, MaxBytes(settings)) ==>
            && r == Err(Failure(413, "File too large"))
            && table.rows == old(table.rows) && disk.blobs == old(disk.blobs) - {key})
      && (MimeAllowed(AllowList(settings.allowedMime), mime) && Fits(chunks, MaxBytes(settings))
          && old(table.KeyTaken(key)) ==>
            && r == Err(Failure(500, "Internal Server Error"))
            && table.rows == old(table.rows) && disk.blobs == stored)
      && (MimeAllowed(AllowList(settings.allowedMime), mime) && Fits(chunks, MaxBytes(settings))
          && !old(table.KeyTaken(key)) ==>
            && r.Ok?
            && r.value.id !in old(table.rows)
            && table.rows == old(table.rows)[r.value.id := WithDefaults(row, r.value.id, now)]
            && disk.blobs == (if IsImage(mime) && thumbnail.Some?
                              then stored[ThumbKey(key) := thumbnail.value] else stored)
            && r.value == View(table.rows[r.value.id], loads, disk.blobs))
    ensures old(table.Lifecycle()) ==> table.Lifecycle()
    ensures old(table.AllPrivate()) ==> table.AllPrivate()
    ensures old(table.TagsSerialised()) ==> table.TagsSerialised()
  {
    var allowed := AllowList(settings.allowedMime);
    var mime := ResolveMime(contentType, guess, filename);
    if !MimeAllowed(allowed, mime) {
      return Err(Failure(415, "Mime not allowed: " + mime));
    }
    var name := FileName(filename);
    var key := StorageKey(owner, folder, ts, name);
    var ok, size, consumed := disk.WriteLimited(key, chunks, MaxBytes(settings));
    if !ok {
      return Err(Failure(413, "File too large"));
    }
    var tagStr := NormalizeTags(loads, tags);
    NormalizedTagsSerialised(loads, tags);
    r := Record(table, disk, loads, UploadRow(owner, key, filename, mime, size, tagStr), now, thumbnail);
  }

  /** The end of upload_file once the body is stored: the insert, which
      fails on a key already in the table, and the thumbnail of an image. */
  method Record(table: FileTable, disk: ContentStore, loads: string -> Option<seq<string>>,
                row: FileInsert, now: nat, thumbnail: Option<seq<byte>>)
    returns (r: Result<FileOut>)
    requires table.Valid()
    modifies table, disk
    ensures table.Valid()
    ensures old(table.KeyTaken(row.key)) ==>
      && r == Err(Failure(500, "Internal Server Error"))
      && table.rows == old(table.rows) && disk.blobs == old(disk.blobs)
    ensures !old(table.KeyTaken(row.key)) ==>
      && r.Ok?
      && r.value.id !in old(table.rows)
      && table.rows == old(table.rows)[r.value.id := WithDefaults(row, r.value.id, now)]
      && disk.blobs == (if IsImage(row.mime) && thumbnail.Some?
                        then old(disk.blobs)[ThumbKey(row.key) := thumbnail.value] else old(disk.blobs))
      && r.value == View(table.rows[r.value.id], loads, disk.blobs)
    ensures old(table.Lifecycle()) && row.state != Some(Deleted) ==> table.Lifecycle()
    ensures old(table.AllPrivate()) && row.isPublic != Some(true) ==> table.AllPrivate()
    ensures old(table.TagsSerialised()) && (row.tags.None? || IsDumps(row.tags.value)) ==> table.TagsSerialised()
  {
    var id := table.Insert(row, now);
    if id.None? {
      return Err(Failure(500, "Internal Server Error"));
    }
    if IsImage(row.mime) && thumbnail.Some? {
      disk.Put(ThumbKey(row.key), thumbnail.value);
    }
    r := Ok(View(table.rows[id.value], loads, disk.blobs));
  }

  // ---------------------------------------------------------------- lemmas

  /** The inserted row is ready, private, not soft-deleted, and records the
      received byte count and the normalised tags. */
  lemma UploadedRowShape(owner: nat, key: string, filename: Option<string>, mime: string,
                         size: nat, tags: string, id: nat, now: nat)
    ensures var f := WithDefaults(UploadRow(owner, key, filename, mime, size, tags), id, now);
      && f.state == Ready && !f.isPublic && f.deletedAt == None && Coherent(f)
      && f.size == size && f.tags == tags && f.name == FileName(filename)
      && f.ownerId == owner && f.key == key && f.createdAt == now
  {
  }

  /** With the default limit of 50 MB, a body of at most 52428800 bytes is
      stored and one byte more is refused. */
  lemma DefaultLimit(chunks: seq<seq<byte>>)
    ensures MaxBytes(DefaultSettings) == 52428800
    ensures Fits(chunks, MaxBytes(DefaultSettings)) <==> Total(Received(chunks)) <= 52428800
  {
    FitsWithinLimit(chunks, MaxBytes(DefaultSettings));
  }

  /** The thumbnail, when one is made, sits under a different key than the
      upload itself, so the stored bytes are the body as received. */
  lemma ThumbBesideBlob(stored: map<string, seq<byte>>, key: string, thumb: seq<byte>)
    requires key in stored
    ensures stored[ThumbKey(key) := thumb][key] == stored[key]
  {
    assert ThumbKey(key) != key;
  }
}
