/** The mutating endpoints soft_delete, restore, visibility and patch_meta:
    each looks the row up, checks owner and state, changes fields of the
    row and commits it. */
module Lifecycle {
  import opened Common
  import opened Models
  import opened Json
  import opened Views
  import opened Access
  import opened Content

  // ---------------------------------------------------------------- records

  /** A commit of a changed row. `after` carries the old updated_at; the
      database moves updated_at to `now` (its onupdate) only when an UPDATE
      is issued, which happens only when some column value changed. */
  function Commit(before: FileRecord, after: FileRecord, now: nat): (r: FileRecord)
    requires after.updatedAt == before.updatedAt
    ensures after == before ==> r == before
    ensures after != before ==> r == after.(updatedAt := now)
  {
    if after == before then before else after.(updatedAt := now)
  }

  /** soft_delete's field changes: state "deleted" and a deletion time. */
  function MarkDeleted(f: FileRecord, now: nat): FileRecord {
    Commit(f, f.(state := Deleted, deletedAt := Some(now)), now)
  }

  /** restore's field changes: state "ready" and no deletion time. */
  function MarkRestored(f: FileRecord, now: nat): FileRecord {
    Commit(f, f.(state := Ready, deletedAt := None), now)
  }

  /** visibility's field change: a public row becomes private; a private
      row is left alone and not committed. */
  function MadePrivate(f: FileRecord, now: nat): FileRecord {
    if f.isPublic then f.(isPublic := false, updatedAt := now) else f
  }

  /** The name patch_meta keeps: the stripped new name when it is not blank. */
  function PatchedName(f: FileRecord, name: Option<string>): string {
    if name.Some? && Strip(name.value) != "" then Strip(name.value) else f.name
  }

  /** The tags text patch_meta keeps: the new list serialised when given. */
  function PatchedTags(f: FileRecord, tags: Option<seq<string>>): string {
    if tags.Some? then Dumps(tags.value) else f.tags
  }

  /** patch_meta's field changes. */
  function Patched(f: FileRecord, name: Option<string>, tags: Option<seq<string>>, now: nat): FileRecord {
    Commit(f, f.(name := PatchedName(f, name), tags := PatchedTags(f, tags)), now)
  }

  // ---------------------------------------------------------------- guards

  predicate OwnedAt(rows: map<nat, FileRecord>, id: int, caller: nat) {
    id >= 0 && id in rows && rows[id].ownerId == caller
  }

  predicate CanDelete(rows: map<nat, FileRecord>, id: int, caller: nat) {
    OwnedAt(rows, id, caller) && rows[id].state != Deleted
  }

  predicate CanRestore(rows: map<nat, FileRecord>, id: int, caller: nat) {
    OwnedAt(rows, id, caller) && rows[id].state == Deleted
  }

  predicate CanSetVisibility(rows: map<nat, FileRecord>, id: int, caller: nat) {
    OwnedAt(rows, id, caller) && rows[id].state == Ready
  }

  // ---------------------------------------------------------------- handlers

  /** DELETE /files/{id}. */
  method SoftDelete(table: FileTable, id: int, caller: nat, now: nat) returns (r: Result<()>)
    requires table.Valid()
    modifies table
    ensures table.Valid() && table.nextId == old(table.nextId)
    ensures r.Ok? <==> CanDelete(old(table.rows), id, caller)
    ensures r.Err? ==> r.failure == Failure(404, "Not found") && table.rows == old(table.rows)
    ensures r.Ok? ==> table.rows == old(table.rows)[id := MarkDeleted(old(table.rows)[id], now)]
    ensures old(table.Lifecycle()) ==> table.Lifecycle()
    ensures old(table.AllPrivate()) ==> table.AllPrivate()
    ensures old(table.TagsSerialised()) ==> table.TagsSerialised()
  {
    var found := table.Get(id);
    if found.None? || found.value.ownerId != caller || found.value.state == Deleted {
      return Err(Failure(404, "Not found"));
    }
    var f := found.value;
    MarkDeletedCoherent(f, now);
    table.Save(MarkDeleted(f, now));
    r := Ok(());
  }

  /** POST /files/{id}/restore. */
  method Restore(table: FileTable, id: int, caller: nat, now: nat) returns (r: Result<()>)
    requires table.Valid()
    modifies table
    ensures table.Valid() && table.nextId == old(table.nextId)
    ensures r.Ok? <==> CanRestore(old(table.rows), id, caller)
    ensures r.Err? ==> r.failure == Failure(404, "Not found") && table.rows == old(table.rows)
    ensures r.Ok? ==> table.rows == old(table.rows)[id := MarkRestored(old(table.rows)[id], now)]
    ensures old(table.Lifecycle()) ==> table.Lifecycle()
    ensures old(table.AllPrivate()) ==> table.AllPrivate()
    ensures old(table.TagsSerialised()) ==> table.TagsSerialised()
  {
    var found := table.Get(id);
    if found.None? || found.value.ownerId != caller || found.value.state != Deleted {
      return Err(Failure(404, "Not found"));
    }
    var f := found.value;
    MarkRestoredCoherent(f, now);
    table.Save(MarkRestored(f, now));
    r := Ok(());
  }

  /** POST /files/{id}/visibility: whatever the body asks for, the row ends
      up private. */
  method SetVisibility(table: FileTable, disk: ContentStore, loads: string -> Option<seq<string>>,
                       id: int, caller: nat, requested: bool, now: nat) returns (r: Result<FileOut>)
    requires table.Valid()
    modifies table
    ensures table.Valid() && table.nextId == old(table.nextId)
    ensures r.Ok? <==> CanSetVisibility(old(table.rows), id, caller)
    ensures r.Err? ==> r.failure == Failure(404, "Not found") && table.rows == old(table.rows)
    ensures r.Ok? ==> table.rows == old(table.rows)[id := MadePrivate(old(table.rows)[id], now)]
    ensures r.Ok? ==> r.value == View(table.rows[id], loads, disk.blobs) && !r.value.isPublic
    ensures old(table.Lifecycle()) ==> table.Lifecycle()
    ensures r.Ok? && old(table.AllPrivate()) ==> table.rows == old(table.rows)
    ensures old(table.AllPrivate()) ==> table.AllPrivate()
    ensures old(table.TagsSerialised()) ==> table.TagsSerialised()
  {
    var found := table.Get(id);
    if found.None? || found.value.ownerId != caller || found.value.state != Ready {
      return Err(Failure(404, "Not found"));
    }
    var f := found.value;
    if f.isPublic {
      f := MadePrivate(f, now);
      table.Save(f);
    }
    r := Ok(View(f, loads, disk.blobs));
  }

  /** PATCH /files/{id}: any owned row, whatever its state. */
  method PatchMeta(table: FileTable, disk: ContentStore, loads: string -> Option<seq<string>>,
                   id: int, caller: nat, name: Option<string>, tags: Option<seq<string>>, now: nat)
    returns (r: Result<FileOut>)
    requires table.Valid()
    modifies table
    ensures table.Valid() && table.nextId == old(table.nextId)
    ensures r.Ok? <==> OwnedAt(old(table.rows), id, caller)
    ensures r.Err? ==> r.failure == Failure(404, "Not found") && table.rows == old(table.rows)
    ensures r.Ok? ==> table.rows == old(table.rows)[id := Patched(old(table.rows)[id], name, tags, now)]
    ensures r.Ok? ==> r.value == View(table.rows[id], loads, disk.blobs)
    ensures old(table.Lifecycle()) ==> table.Lifecycle()
    ensures old(table.AllPrivate()) ==> table.AllPrivate()
    ensures old(table.TagsSerialised()) ==> table.TagsSerialised()
  {
    var found := table.Get(id);
    if found.None? || found.value.ownerId != caller {
      return Err(Failure(404, "Not found"));
    }
    var f := found.value;
    var g := Patched(f, name, tags, now);
    PatchedKeepsColumns(f, name, tags, now);
    // commit only when a field was assigned; saving an unchanged row
    // leaves the table as it was
    table.Save(g);
    r := Ok(View(g, loads, disk.blobs));
  }

  // ---------------------------------------------------------------- lemmas

  lemma MarkDeletedCoherent(f: FileRecord, now: nat)
    ensures Coherent(MarkDeleted(f, now)) && MarkDeleted(f, now).state == Deleted
  {
  }

  lemma MarkRestoredCoherent(f: FileRecord, now: nat)
    ensures Coherent(MarkRestored(f, now)) && MarkRestored(f, now).state == Ready
  {
  }

  /** Soft delete of a ready row changes only state, deleted_at and
      updated_at. */
  lemma MarkDeletedFields(f: FileRecord, now: nat)
    requires f.state == Ready
    ensures var g := MarkDeleted(f, now);
      g.state == Deleted && g.deletedAt == Some(now) && g.updatedAt == now
      && g.(state := f.state, deletedAt := f.deletedAt, updatedAt := f.updatedAt) == f
  {
  }

  /** Delete followed by restore gives the row back; only updated_at shows
      that anything happened. */
  lemma DeleteThenRestore(f: FileRecord, t1: nat, t2: nat)
    requires f.state == Ready && f.deletedAt == None
    ensures MarkRestored(MarkDeleted(f, t1), t2) == f.(updatedAt := t2)
  {
  }

  /** Visibility always leaves the row private, does nothing to a private
      row, and a second call changes nothing. */
  lemma MadePrivateIdempotent(f: FileRecord, t1: nat, t2: nat)
    ensures !MadePrivate(f, t1).isPublic
    ensures !f.isPublic ==> MadePrivate(f, t1) == f
    ensures MadePrivate(MadePrivate(f, t1), t2) == MadePrivate(f, t1)
    ensures MadePrivate(f, t1).(isPublic := f.isPublic, updatedAt := f.updatedAt) == f
  {
  }

  /** Patching sets the name to the stripped new name only when that is not
      blank, replaces the tags only when given, and leaves everything else
      (id, owner, key, mime, size, visibility, state, times) as it was. */
  lemma PatchedFields(f: FileRecord, name: Option<string>, tags: Option<seq<string>>, now: nat)
    ensures var g := Patched(f, name, tags, now);
      && (name.Some? && Strip(name.value) != "" ==> g.name == Strip(name.value))
      && (name.None? || Strip(name.value) == "" ==> g.name == f.name)
      && (tags.Some? ==> g.tags == Dumps(tags.value))
      && (tags.None? ==> g.tags == f.tags)
      && g.(name := f.name, tags := f.tags, updatedAt := f.updatedAt) == f
      && (g.updatedAt == f.updatedAt || g.updatedAt == now)
  {
    var after := f.(name := PatchedName(f, name), tags := PatchedTags(f, tags));
    if after != f {
      assert Patched(f, name, tags, now) == after.(updatedAt := now);
    }
  }

  /** The columns the table's invariants speak of are not touched by a
      patch. */
  lemma PatchedKeepsColumns(f: FileRecord, name: Option<string>, tags: Option<seq<string>>, now: nat)
    ensures var g := Patched(f, name, tags, now);
      && g.id == f.id && g.key == f.key && g.ownerId == f.ownerId
      && g.isPublic == f.isPublic && g.state == f.state && g.deletedAt == f.deletedAt
  {
    PatchedFields(f, name, tags, now);
  }

  /** An empty patch changes nothing, not even updated_at. */
  lemma EmptyPatchUnchanged(f: FileRecord, blank: string, now: nat)
    requires Strip(blank) == ""
    ensures Patched(f, None, None, now) == f
    ensures Patched(f, Some(blank), None, now) == f
  {
  }

  /** Applying the same patch twice is the same as applying it once. */
  lemma PatchIdempotent(f: FileRecord, name: Option<string>, tags: Option<seq<string>>, t1: nat, t2: nat)
    ensures Patched(Patched(f, name, tags, t1), name, tags, t2) == Patched(f, name, tags, t1)
  {
    var g := Patched(f, name, tags, t1);
    assert PatchedName(g, name) == g.name;
    assert PatchedTags(g, tags) == g.tags;
    assert g.(name := PatchedName(g, name), tags := PatchedTags(g, tags)) == g;
  }

  /** After a patch that sends a tag list, the view reads back exactly
      that list. */
  lemma PatchedTagsReadBack(loads: string -> Option<seq<string>>, blobs: map<string, seq<byte>>,
                            f: FileRecord, name: Option<string>, tags: seq<string>, now: nat)
    requires ReadsDumps(loads)
    ensures View(Patched(f, name, Some(tags), now), loads, blobs).tags == tags
  {
    assert loads(Dumps(tags)) == Some(tags);
  }

  /** For a row the caller owns, exactly one of delete and restore applies;
      visibility needs a ready row, patch needs nothing more than ownership. */
  lemma GuardsByState(rows: map<nat, FileRecord>, id: int, caller: nat)
    requires OwnedAt(rows, id, caller)
    ensures CanDelete(rows, id, caller) <==> !CanRestore(rows, id, caller)
    ensures CanSetVisibility(rows, id, caller) <==> CanDelete(rows, id, caller)
  {
  }

  /** A ready row of another user is answered 403 by the read endpoints but
      404 by every mutating one, which hides that it exists. */
  lemma CrossOwnerAnswers(table: FileTable, disk: ContentStore, id: int, caller: nat)
    requires ReadyAt(table.rows, id) && table.rows[id].ownerId != caller
    ensures Download(table, disk, id, caller) == Err(Failure(403, "Forbidden"))
    ensures !CanDelete(table.rows, id, caller) && !CanRestore(table.rows, id, caller)
    ensures !CanSetVisibility(table.rows, id, caller) && !OwnedAt(table.rows, id, caller)
  {
  }
}
