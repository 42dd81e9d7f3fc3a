/** list_files: the caller's rows, filtered by state mode, name substring
    and tag text, ordered newest first, then one page of them. The LIKE
    filters are plain substring tests. */
module Listing {
  import opened Common
  import opened Models
  import opened Json
  import opened Views
  import opened Content

  /** The table's rows in ascending id order, ids below n. */
  function RowsInIdOrder(rows: map<nat, FileRecord>, n: nat): (r: seq<FileRecord>)
    ensures forall f :: f in r ==> f in rows.Values
    ensures forall id :: id in rows && id < n ==> rows[id] in r
    decreases n
  {
    if n == 0 then []
    else RowsInIdOrder(rows, n - 1) + (if n - 1 in rows then [rows[n - 1]] else [])
  }

  /** The `state` query parameter: "active" hides deleted rows, "deleted"
      shows only them, and any other value shows everything. */
  predicate ModeAdmits(mode: string, s: FileState) {
    if mode == "active" then s != Deleted
    else if mode == "deleted" then s == Deleted
    else true
  }

  /** The WHERE clause of list_files. */
  predicate Matches(f: FileRecord, caller: nat, mode: string, q: Option<string>, tag: Option<string>) {
    && f.ownerId == caller
    && ModeAdmits(mode, f.state)
    && (Given(q) ==> Contains(f.name, q.value))
    && (Given(tag) ==> Contains(f.tags, TagPattern(tag.value)))
  }

  function Select(s: seq<FileRecord>, caller: nat, mode: string, q: Option<string>, tag: Option<string>)
    : (r: seq<FileRecord>)
    ensures |r| <= |s|
    ensures forall f :: f in r <==> f in s && Matches(f, caller, mode, q, tag)
    decreases |s|
  {
    if s == [] then []
    else
      assert s == [s[0]] + s[1..];
      (if Matches(s[0], caller, mode, q, tag) then [s[0]] else []) + Select(s[1..], caller, mode, q, tag)
  }

  /** ORDER BY created_at DESC. */
  predicate NewestFirst(s: seq<FileRecord>) {
    forall i, j :: 0 <= i < j < |s| ==> s[i].createdAt >= s[j].createdAt
  }

  lemma HeadIsNewest(s: seq<FileRecord>)
    requires NewestFirst(s) && s != []
    ensures forall y :: y in multiset(s[1..]) ==> y.createdAt <= s[0].createdAt
  {
    forall y | y in multiset(s[1..])
      ensures y.createdAt <= s[0].createdAt
    {
      var j :| 0 <= j < |s[1..]| && s[1..][j] == y;
      assert s[j + 1] == y;
    }
  }

  lemma PrependNewest(x: FileRecord, s: seq<FileRecord>)
    requires NewestFirst(s)
    requires forall y :: y in multiset(s) ==> y.createdAt <= x.createdAt
    ensures NewestFirst([x] + s)
  {
    forall j | 1 <= j < |[x] + s|
      ensures ([x] + s)[j].createdAt <= x.createdAt
    {
      assert ([x] + s)[j] == s[j - 1];
      assert s[j - 1] in multiset(s);
    }
  }

  /** A row at least as new as the head goes in front. */
  lemma InsertInFront(f: FileRecord, s: seq<FileRecord>)
    requires NewestFirst(s) && (s == [] || s[0].createdAt <= f.createdAt)
    ensures NewestFirst([f] + s)
  {
    if s != [] {
      HeadIsNewest(s);
      assert s == [s[0]] + s[1..];
    }
    PrependNewest(f, s);
  }

  /** An older row goes behind the head. */
  lemma InsertBehindHead(f: FileRecord, s: seq<FileRecord>, rest: seq<FileRecord>)
    requires NewestFirst(s) && s != [] && f.createdAt < s[0].createdAt
    requires NewestFirst(rest) && multiset(rest) == multiset(s[1..]) + multiset{f}
    ensures NewestFirst([s[0]] + rest)
    ensures multiset([s[0]] + rest) == multiset(s) + multiset{f}
  {
    assert s == [s[0]] + s[1..];
    HeadIsNewest(s);
    PrependNewest(s[0], rest);
  }

  function InsertNewest(f: FileRecord, s: seq<FileRecord>): (r: seq<FileRecord>)
    requires NewestFirst(s)
    ensures NewestFirst(r) && multiset(r) == multiset(s) + multiset{f}
    decreases |s|
  {
    if s == [] || s[0].createdAt <= f.createdAt then
      InsertInFront(f, s);
      [f] + s
    else
      var rest := InsertNewest(f, s[1..]);
      InsertBehindHead(f, s, rest);
      [s[0]] + rest
  }

  /** A stable insertion sort, newest first; rows with equal creation times
      keep ascending id order, one of the orders the database may return. */
  function SortNewestFirst(s: seq<FileRecord>): (r: seq<FileRecord>)
    ensures NewestFirst(r) && multiset(r) == multiset(s)
    decreases |s|
  {
    if s == [] then []
    else
      assert s == [s[0]] + s[1..];
      InsertNewest(s[0], SortNewestFirst(s[1..]))
  }

  /** OFFSET (page - 1) * page_size LIMIT page_size. */
  function Page<T>(s: seq<T>, page: int, pageSize: int): (r: seq<T>)
    requires page >= 1 && pageSize >= 1
    ensures |r| <= pageSize
    ensures forall k :: 0 <= k < |r| ==> (page - 1) * pageSize + k < |s| && r[k] == s[(page - 1) * pageSize + k]
    ensures var off := (page - 1) * pageSize;
      |r| == (if off >= |s| then 0 else if |s| - off < pageSize then |s| - off else pageSize)
  {
    var off := (page - 1) * pageSize;
    if off >= |s| then []
    else if |s| - off < pageSize then s[off..]
    else s[off..off + pageSize]
  }

  /** The matching rows in result order, before pagination. */
  function Ordered(rows: map<nat, FileRecord>, nextId: nat, caller: nat, mode: string,
                   q: Option<string>, tag: Option<string>): seq<FileRecord>
  {
    SortNewestFirst(Select(RowsInIdOrder(rows, nextId), caller, mode, q, tag))
  }

  datatype FileList = FileList(items: seq<FileOut>, total: nat, page: int, pageSize: int)

  /** page must be at least 1 and page_size within 1..100, or the request
      is refused before the query runs. */
  predicate PagingValid(page: int, pageSize: int) {
    page >= 1 && 1 <= pageSize <= 100
  }

  /** The view of each row, in order. */
  function ViewAll(rs: seq<FileRecord>, loads: string -> Option<seq<string>>,
                   blobs: map<string, seq<byte>>): (r: seq<FileOut>)
    ensures |r| == |rs| && forall k :: 0 <= k < |rs| ==> r[k] == View(rs[k], loads, blobs)
  {
    seq(|rs|, k requires 0 <= k < |rs| => View(rs[k], loads, blobs))
  }

  /** list_files on the current table and content store. */
  function ListFiles(table: FileTable, disk: ContentStore, loads: string -> Option<seq<string>>,
                     caller: nat, q: Option<string>, tag: Option<string>,
                     page: int, pageSize: int, mode: string): (r: Result<FileList>)
    reads table, disk
    ensures r.Err? <==> !PagingValid(page, pageSize)
    ensures r.Err? ==> r.failure.status == 422
    ensures r.Ok? ==> r.value.page == page && r.value.pageSize == pageSize
    ensures r.Ok? ==> r.value.total == |Ordered(table.rows, table.nextId, caller, mode, q, tag)|
    ensures r.Ok? ==>
      var items := Page(Ordered(table.rows, table.nextId, caller, mode, q, tag), page, pageSize);
      |r.value.items| == |items| &&
      forall k :: 0 <= k < |items| ==> r.value.items[k] == View(items[k], loads, disk.blobs)
  {
    if !PagingValid(page, pageSize) then Err(Failure(422, "Unprocessable Entity"))
    else
      var ordered := Ordered(table.rows, table.nextId, caller, mode, q, tag);
      var items := Page(ordered, page, pageSize);
      Ok(FileList(ViewAll(items, loads, disk.blobs), |ordered|, page, pageSize))
  }

  // ---------------------------------------------------------------- lemmas

  /** Everything listed is one of the caller's rows that passes the filters. */
  lemma ListedRowsMatch(rows: map<nat, FileRecord>, nextId: nat, caller: nat, mode: string,
                        q: Option<string>, tag: Option<string>, page: int, pageSize: int, f: FileRecord)
    requires page >= 1 && pageSize >= 1
    requires f in Page(Ordered(rows, nextId, caller, mode, q, tag), page, pageSize)
    ensures f in rows.Values && Matches(f, caller, mode, q, tag)
  {
    var ordered := Ordered(rows, nextId, caller, mode, q, tag);
    var items := Page(ordered, page, pageSize);
    var k :| 0 <= k < |items| && items[k] == f;
    assert f in ordered;
    assert f in multiset(ordered);
  }

  /** Conversely, every matching row of a well-formed table is counted. */
  lemma MatchingRowsCounted(rows: map<nat, FileRecord>, nextId: nat, caller: nat, mode: string,
                            q: Option<string>, tag: Option<string>, id: nat)
    requires forall i :: i in rows ==> i < nextId
    requires id in rows && Matches(rows[id], caller, mode, q, tag)
    ensures rows[id] in Ordered(rows, nextId, caller, mode, q, tag)
  {
    var sel := Select(RowsInIdOrder(rows, nextId), caller, mode, q, tag);
    assert rows[id] in sel;
    assert rows[id] in multiset(SortNewestFirst(sel));
  }

  /** Every row is filed under its own id, as FileTable.Valid demands. */
  predicate KeyedById(rows: map<nat, FileRecord>) {
    forall id :: id in rows ==> rows[id].id == id
  }

  /** Strictly ascending ids, so no row appears twice. */
  predicate IdsAscending(s: seq<FileRecord>) {
    forall i, j :: 0 <= i < j < |s| ==> s[i].id < s[j].id
  }

  /** The ids of a sequence of rows. */
  function IdSet(s: seq<FileRecord>): (r: set<nat>)
    ensures forall id :: id in r <==> exists k :: 0 <= k < |s| && s[k].id == id
    decreases |s|
  {
    if s == [] then {}
    else
      var rest := IdSet(s[1..]);
      assert forall k :: 0 < k < |s| ==> s[k] == s[1..][k - 1];
      {s[0].id} + rest
  }

  lemma AscendingTail(s: seq<FileRecord>)
    requires IdsAscending(s) && s != []
    ensures IdsAscending(s[1..])
  {
    forall i, j | 0 <= i < j < |s[1..]|
      ensures s[1..][i].id < s[1..][j].id
    {
      assert s[1..][i] == s[i + 1] && s[1..][j] == s[j + 1];
    }
  }

  /** On a keyed table the scan visits each row once, in ascending id order. */
  lemma {:induction false} RowsInIdOrderAscending(rows: map<nat, FileRecord>, n: nat)
    requires KeyedById(rows)
    ensures var r := RowsInIdOrder(rows, n);
      IdsAscending(r) && forall k :: 0 <= k < |r| ==> r[k].id < n
    decreases n
  {
    if n > 0 {
      RowsInIdOrderAscending(rows, n - 1);
      var p := RowsInIdOrder(rows, n - 1);
      if n - 1 in rows {
        var r := p + [rows[n - 1]];
        assert forall k :: 0 <= k < |p| ==> r[k] == p[k];
        assert r[|p|].id == n - 1;
      }
    }
  }

  lemma HeadBelowTail(s: seq<FileRecord>)
    requires IdsAscending(s) && s != []
    ensures forall f :: f in s[1..] ==> s[0].id < f.id
  {
    forall f | f in s[1..]
      ensures s[0].id < f.id
    {
      var m :| 0 <= m < |s[1..]| && s[1..][m] == f;
      assert s[m + 1] == f;
    }
  }

  lemma ConsAscending(x: FileRecord, rest: seq<FileRecord>, s: seq<FileRecord>)
    requires IdsAscending(rest) && forall f :: f in rest ==> f in s
    requires forall f :: f in s ==> x.id < f.id
    ensures IdsAscending([x] + rest)
  {
    var r := [x] + rest;
    forall i, j | 0 <= i < j < |r|
      ensures r[i].id < r[j].id
    {
      assert r[j] == rest[j - 1];
      if i > 0 {
        assert r[i] == rest[i - 1];
      } else {
        assert rest[j - 1] in s;
      }
    }
  }

  /** Filtering keeps the order of what it keeps. */
  lemma {:induction false} SelectKeepsAscending(s: seq<FileRecord>, caller: nat, mode: string,
                                                q: Option<string>, tag: Option<string>)
    requires IdsAscending(s)
    ensures IdsAscending(Select(s, caller, mode, q, tag))
    decreases |s|
  {
    if s != [] {
      AscendingTail(s);
      SelectKeepsAscending(s[1..], caller, mode, q, tag);
      if Matches(s[0], caller, mode, q, tag) {
        HeadBelowTail(s);
        ConsAscending(s[0], Select(s[1..], caller, mode, q, tag), s[1..]);
      }
    }
  }

  /** Rows with distinct ids are as many as their ids. */
  lemma {:induction false} AscendingCount(s: seq<FileRecord>)
    requires IdsAscending(s)
    ensures |IdSet(s)| == |s|
    decreases |s|
  {
    if s != [] {
      AscendingTail(s);
      AscendingCount(s[1..]);
      forall k | 0 <= k < |s[1..]|
        ensures s[1..][k].id != s[0].id
      {
        assert s[1..][k] == s[k + 1];
      }
    }
  }

  /** A selection of a keyed table that holds exactly the rows of `want`
      has `want` for its ids. */
  lemma SelectionIds(rows: map<nat, FileRecord>, sel: seq<FileRecord>, want: set<nat>)
    requires KeyedById(rows)
    requires forall f :: f in sel ==> f in rows.Values && f.id in want
    requires forall id :: id in want ==> id in rows && rows[id] in sel
    ensures IdSet(sel) == want
  {
    forall id | id in want
      ensures id in IdSet(sel)
    {
      var k :| 0 <= k < |sel| && sel[k] == rows[id];
    }
    forall id | id in IdSet(sel)
      ensures id in want
    {
      var k :| 0 <= k < |sel| && sel[k].id == id;
      assert sel[k] in sel;
    }
  }

  /** The ids of the rows that pass the WHERE clause. */
  function MatchingIds(rows: map<nat, FileRecord>, caller: nat, mode: string,
                       q: Option<string>, tag: Option<string>): set<nat>
  {
    set id | id in rows && Matches(rows[id], caller, mode, q, tag)
  }

  lemma SortedLength(s: seq<FileRecord>)
    ensures |SortNewestFirst(s)| == |s|
  {
    assert |multiset(SortNewestFirst(s))| == |multiset(s)|;
  }

  /** On a well-formed table the result holds each matching row exactly
      once: its length is the number of matching ids. */
  lemma OrderedCount(rows: map<nat, FileRecord>, nextId: nat, caller: nat, mode: string,
                     q: Option<string>, tag: Option<string>)
    requires KeyedById(rows) && forall id :: id in rows ==> id < nextId
    ensures |Ordered(rows, nextId, caller, mode, q, tag)| == |MatchingIds(rows, caller, mode, q, tag)|
  {
    var all := RowsInIdOrder(rows, nextId);
    RowsInIdOrderAscending(rows, nextId);
    var sel := Select(all, caller, mode, q, tag);
    SelectKeepsAscending(all, caller, mode, q, tag);
    AscendingCount(sel);
    SelectionIds(rows, sel, MatchingIds(rows, caller, mode, q, tag));
    SortedLength(sel);
  }

  /** The total list_files reports counts each matching row of a well-formed
      table once. */
  lemma ListFilesTotal(table: FileTable, disk: ContentStore, loads: string -> Option<seq<string>>,
                       caller: nat, q: Option<string>, tag: Option<string>,
                       page: int, pageSize: int, mode: string)
    requires table.Valid() && PagingValid(page, pageSize)
    ensures ListFiles(table, disk, loads, caller, q, tag, page, pageSize, mode).value.total
         == |MatchingIds(table.rows, caller, mode, q, tag)|
  {
    OrderedCount(table.rows, table.nextId, caller, mode, q, tag);
  }

  /** "active" never lists a deleted row and "deleted" lists nothing else. */
  lemma ModesSeparateStates(rows: map<nat, FileRecord>, nextId: nat, caller: nat,
                            q: Option<string>, tag: Option<string>, page: int, pageSize: int, f: FileRecord)
    requires page >= 1 && pageSize >= 1
    ensures f in Page(Ordered(rows, nextId, caller, "active", q, tag), page, pageSize) ==> f.state != Deleted
    ensures f in Page(Ordered(rows, nextId, caller, "deleted", q, tag), page, pageSize) ==> f.state == Deleted
  {
    if f in Page(Ordered(rows, nextId, caller, "active", q, tag), page, pageSize) {
      ListedRowsMatch(rows, nextId, caller, "active", q, tag, page, pageSize, f);
    }
    if f in Page(Ordered(rows, nextId, caller, "deleted", q, tag), page, pageSize) {
      ListedRowsMatch(rows, nextId, caller, "deleted", q, tag, page, pageSize, f);
    }
  }

  /** The "all" count is the "active" count plus the "deleted" count. */
  lemma {:induction false} ModeCountsAdd(s: seq<FileRecord>, caller: nat, q: Option<string>, tag: Option<string>)
    ensures |Select(s, caller, "all", q, tag)|
         == |Select(s, caller, "active", q, tag)| + |Select(s, caller, "deleted", q, tag)|
    decreases |s|
  {
    if s != [] {
      ModeCountsAdd(s[1..], caller, q, tag);
    }
  }

  /** A state value other than "active" or "deleted" behaves like "all". */
  lemma {:induction false} UnknownModeListsAll(s: seq<FileRecord>, caller: nat, mode: string,
                                               q: Option<string>, tag: Option<string>)
    requires mode != "active" && mode != "deleted"
    ensures Select(s, caller, mode, q, tag) == Select(s, caller, "all", q, tag)
    decreases |s|
  {
    if s != [] {
      UnknownModeListsAll(s[1..], caller, mode, q, tag);
    }
  }

  /** The total does not depend on which page is asked for. */
  lemma TotalIgnoresPage(table: FileTable, disk: ContentStore, loads: string -> Option<seq<string>>,
                         caller: nat, q: Option<string>, tag: Option<string>,
                         p1: int, p2: int, pageSize: int, mode: string)
    requires PagingValid(p1, pageSize) && PagingValid(p2, pageSize)
    ensures ListFiles(table, disk, loads, caller, q, tag, p1, pageSize, mode).value.total
         == ListFiles(table, disk, loads, caller, q, tag, p2, pageSize, mode).value.total
  {
  }

  /** Every result row is on exactly the page its position says. */
  lemma RowOnItsPage<T>(s: seq<T>, pageSize: int, k: nat)
    requires pageSize >= 1 && k < |s|
    ensures var r := Page(s, k / pageSize + 1, pageSize);
      k % pageSize < |r| && r[k % pageSize] == s[k]
  {
    var off := (k / pageSize + 1 - 1) * pageSize;
    assert off == (k / pageSize) * pageSize;
    assert off + k % pageSize == k;
  }

  /** Five matches, two per page: the second page holds the third and fourth. */
  lemma SecondPageOfFive<T>(s: seq<T>)
    requires |s| == 5
    ensures Page(s, 2, 2) == [s[2], s[3]]
  {
  }

  /** When every stored tag text is a json.dumps output, filtering by a tag
      with a character outside ' '..'~' lists nothing. */
  lemma {:induction false} NonPrintableTagListsNothing(s: seq<FileRecord>, caller: nat, mode: string,
                                                       q: Option<string>, tag: string, k: nat)
    requires forall i :: 0 <= i < |s| ==> IsDumps(s[i].tags)
    requires k < |tag| && !Printable(tag[k])
    ensures Select(s, caller, mode, q, Some(tag)) == []
    decreases |s|
  {
    if s != [] {
      var xs :| s[0].tags == Dumps(xs);
      NonPrintableTagNeverMatches(xs, tag, k);
      NonPrintableTagListsNothing(s[1..], caller, mode, q, tag, k);
    }
  }

  /** On a table whose tag texts are all json.dumps outputs, as every
      handler keeps it, a tag filter with a character outside ' '..'~'
      matches no row. */
  lemma TaggedListingEmpty(table: FileTable, caller: nat, mode: string, q: Option<string>,
                           tag: string, k: nat)
    requires table.TagsSerialised() && k < |tag| && !Printable(tag[k])
    ensures Ordered(table.rows, table.nextId, caller, mode, q, Some(tag)) == []
  {
    var all := RowsInIdOrder(table.rows, table.nextId);
    forall i | 0 <= i < |all|
      ensures IsDumps(all[i].tags)
    {
      assert all[i] in all;
    }
    NonPrintableTagListsNothing(all, caller, mode, q, tag, k);
  }
}
