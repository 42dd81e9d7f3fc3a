/** The two tables of backend/models.py: the record shapes, the column
    defaults, and the identity and uniqueness constraints the database
    enforces on them. The tables are objects whose rows the handlers change
    in place; timestamps are passed in by the caller. */
module Models {
  import opened Common
  import opened Json

  /** The `state` column. Only "ready" and "deleted" are ever written. */
  datatype FileState = Ready | Deleted

  /** One row of the `files` table. Times are abstract instants. */
  datatype FileRecord = FileRecord(
    id: nat,
    ownerId: nat,
    key: string,
    name: string,
    mime: string,
    size: nat,
    tags: string,          // JSON text of the tag list
    isPublic: bool,
    state: FileState,
    deletedAt: Option<nat>,
    createdAt: nat,
    updatedAt: nat)

  /** The columns a `File(...)` constructor call supplies; an absent
      column takes the default the model declares. */
  datatype FileInsert = FileInsert(
    ownerId: nat,
    key: string,
    name: string,
    mime: string,
    size: Option<nat>,
    tags: Option<string>,
    isPublic: Option<bool>,
    state: Option<FileState>)

  /** The row the database stores for an insert: the auto-increment id,
      the declared column defaults, a null `deleted_at`, and `created_at`
      and `updated_at` both taken from the server clock. */
  function WithDefaults(row: FileInsert, id: nat, now: nat): (f: FileRecord)
    ensures f.id == id && f.ownerId == row.ownerId && f.key == row.key
    ensures f.name == row.name && f.mime == row.mime
    ensures f.size == (if row.size.Some? then row.size.value else 0)
    ensures f.tags == (if row.tags.Some? then row.tags.value else "[]")
    ensures f.isPublic == (row.isPublic.Some? && row.isPublic.value)
    ensures f.state == (if row.state.Some? then row.state.value else Ready)
    ensures f.deletedAt == None && f.createdAt == now && f.updatedAt == now
  {
    FileRecord(id, row.ownerId, row.key, row.name, row.mime, row.size.GetOr(0),
               row.tags.GetOr("[]"), row.isPublic.GetOr(false), row.state.GetOr(Ready),
               None, now, now)
  }

  /** An insert that names only the required columns gets the declared
      defaults for all the others. */
  lemma BareInsertDefaults(owner: nat, key: string, name: string, mime: string, id: nat, now: nat)
    ensures var f := WithDefaults(FileInsert(owner, key, name, mime, None, None, None, None), id, now);
      f.size == 0 && f.tags == "[]" && !f.isPublic && f.state == Ready && f.deletedAt == None
  {
  }

  /** The soft-delete timestamp is present exactly on deleted rows. */
  predicate Coherent(f: FileRecord) {
    (f.state == Deleted) <==> f.deletedAt.Some?
  }

  /** The `files` table: rows by primary key and the next auto-increment
      value. Rows are never physically removed. */
  class FileTable {
    var rows: map<nat, FileRecord>
    var nextId: nat

    /** Primary keys are 1, 2, ... below the counter and agree with each
        row's `id`; the `key` column is unique. */
    ghost predicate Valid()
      reads this
    {
      && nextId >= 1
      && (forall id :: id in rows ==> 1 <= id < nextId && rows[id].id == id)
      && (forall i, j :: i in rows && j in rows && i != j ==> rows[i].key != rows[j].key)
    }

    /** Every row's state agrees with its `deleted_at`. The model's handlers
        keep this; the table itself does not require it. */
    ghost predicate Lifecycle()
      reads this
    {
      forall id :: id in rows ==> Coherent(rows[id])
    }

    /** No row is public. */
    ghost predicate AllPrivate()
      reads this
    {
      forall id :: id in rows ==> !rows[id].isPublic
    }

    /** Every row's `tags` text is a json.dumps output, as the handlers
        write it. */
    ghost predicate TagsSerialised()
      reads this
    {
      forall id :: id in rows ==> IsDumps(rows[id].tags)
    }

    constructor ()
      ensures Valid() && Lifecycle() && AllPrivate() && TagsSerialised()
      ensures rows == map[] && nextId == 1
    {
      rows := map[];
      nextId := 1;
    }

    predicate KeyTaken(key: string)
      reads this
    {
      exists id :: id in rows && rows[id].key == key
    }

    /** db.get(File, id). */
    function Get(id: int): (r: Option<FileRecord>)
      reads this
      ensures r.Some? <==> id >= 0 && id in rows
      ensures r.Some? ==> r.value == rows[id]
    {
      if id >= 0 && id in rows then Some(rows[id]) else None
    }

    /** db.add(File(...)); db.commit(): fails on a duplicate `key`;
        otherwise the row gets a fresh id no existing row has. */
    method Insert(row: FileInsert, now: nat) returns (id: Option<nat>)
      requires Valid()
      modifies this
      ensures Valid()
      ensures id.None? <==> old(KeyTaken(row.key))
      ensures id.None? ==> rows == old(rows) && nextId == old(nextId)
      ensures id.Some? ==> id.value !in old(rows)
      ensures id.Some? ==> rows == old(rows)[id.value := WithDefaults(row, id.value, now)]
      ensures old(Lifecycle()) && row.state != Some(Deleted) ==> Lifecycle()
      ensures old(AllPrivate()) && row.isPublic != Some(true) ==> AllPrivate()
      ensures old(TagsSerialised()) && (row.tags.None? || IsDumps(row.tags.value)) ==> TagsSerialised()
    {
      EmptyListIsDumps();
      if exists i :: i in rows && rows[i].key == row.key {
        id := None;
      } else {
        var f := WithDefaults(row, nextId, now);
        rows := rows[nextId := f];
        id := Some(nextId);
        nextId := nextId + 1;
      }
    }

    /** db.add(f); db.commit() for a row the handler changed in place: the
        id and the storage key stay as they are. */
    method Save(f: FileRecord)
      requires Valid() && f.id in rows && f.key == rows[f.id].key
      modifies this
      ensures Valid()
      ensures rows == old(rows)[f.id := f] && nextId == old(nextId)
      ensures old(TagsSerialised()) && IsDumps(f.tags) ==> TagsSerialised()
    {
      rows := rows[f.id := f];
    }
  }

  /** One row of the `users` table. The password hash comes from a hashing
      library outside the model. */
  datatype User = User(id: nat, email: string, passHash: string)

  /** The `users` table; `email` is unique. */
  class UserTable {
    var users: map<nat, User>
    var nextId: nat

    ghost predicate Valid()
      reads this
    {
      && nextId >= 1
      && (forall id :: id in users ==> 1 <= id < nextId && users[id].id == id)
      && (forall i, j :: i in users && j in users && i != j ==> users[i].email != users[j].email)
    }

    constructor ()
      ensures Valid() && users == map[] && nextId == 1
    {
      users := map[];
      nextId := 1;
    }

    predicate EmailTaken(email: string)
      reads this
    {
      exists id :: id in users && users[id].email == email
    }

    /** db.add(User(...)); db.commit(): fails on a duplicate `email`. */
    method Insert(email: string, passHash: string) returns (id: Option<nat>)
      requires Valid()
      modifies this
      ensures Valid()
      ensures id.None? <==> old(EmailTaken(email))
      ensures id.None? ==> users == old(users) && nextId == old(nextId)
      ensures id.Some? ==> id.value !in old(users)
      ensures id.Some? ==> users == old(users)[id.value := User(id.value, email, passHash)]
    {
      if exists i :: i in users && users[i].email == email {
        id := None;
      } else {
        users := users[nextId := User(nextId, email, passHash)];
        id := Some(nextId);
        nextId := nextId + 1;
      }
    }
  }
}
