# File storage service: a Dafny model of the file lifecycle

This project models the server of a per-user file storage service written in
Python (FastAPI with SQLAlchemy over SQLite). Users upload files. Each file
is streamed to a content store under a storage key derived from the owner,
an optional folder, a millisecond timestamp and the file name. The upload is
indexed by one row of a `files` table. Users can then list, download,
preview, thumbnail, soft-delete, restore, re-tag, rename and un-publish
their files.

The model follows the program's structure, one module per concern:

- `Common` (common.dfy): Option/Result, bytes, and the Python string operations the handlers use: `strip`, `split`, `str(int)`, `in` on strings.
- `Models` (models.dfy): the `File` and `User` rows and their column defaults; the tables as classes enforcing the auto-increment id and the unique `key` and `email`.
- `Content` (content.dfy): the content store as a class holding a map from key to bytes; the size-limited streaming write loop.
- `Keys` (keys.dfy): `sanitize_folder`, the single-pass `replace("..", ".")`, the storage key, the thumbnail key, the path shown in views.
- `Json` (json.dfy): `json.dumps` of a list of strings with its default ASCII escaping; `json_load`; tag normalisation; the quoted-substring tag filter.
- `Views` (views.dfy): `to_file_out`.
- `Listing` (listing.dfy): `list_files`: owner, state mode, name and tag filters, newest-first order, pagination.
- `Access` (access.dfy): the guards of `download_file`, `preview`, `thumb`.
- `Lifecycle` (lifecycle.dfy): `soft_delete`, `restore`, `visibility`, `patch_meta` as methods on the table, plus the field changes they make as functions.
- `Upload` (upload.dfy): the MIME allow-list, the upload handler from MIME check to thumbnail.
- `Accounts` (accounts.dfy): `validate_password` and the order of checks in `register`.

Handlers that change state are methods with `modifies` clauses over the
`FileTable`, `UserTable` and `ContentStore` objects. Their pure parts are
functions with lemmas about them. Read-only handlers (`list_files`, the
three read endpoints) are functions that read the objects.

The clocks, authentication and foreign libraries are inputs:

- the clocks are parameters: `ts` is the millisecond clock of the key, `now` the database clock;
- the authenticated user is a `caller: nat`;
- `json.loads` is a parameter `loads: string -> Option<seq<string>>`, and the round-trip lemmas assume it reads back what `json.dumps` writes (`Json.ReadsDumps`);
- `mimetypes.guess_type` is a parameter `guess`;
- the image library's thumbnail is a parameter `thumbnail: Option<seq<byte>>`, where None means it failed.

What the code does that a reader might not expect, each proved as a lemma:

- The filename's `..` clean-up is a single left-to-right pass. A name holding `...` keeps `..` in the key (`Keys.KeyNameDoubleDot`), and `/.../.../x` is stored two directories up (`Keys.TraversalNameSurvives`). The single-pass clean-up does not neutralise traversal sequences in file names.
- The tag filter is a substring match of `"tag"` on the stored JSON text, not list membership:
  - a pattern can span two tags (`Json.SpanningPatternMatches`);
  - a tag holding a quote is never found (`Json.QuotedMemberMisses`);
  - a tag with a character outside `' '..'~'` is never found, because `json.dumps` escapes it (`Listing.TaggedListingEmpty`).
- The listing orders by `created_at` only, with no id tie-break. The order of ties is left to the database. The model picks one such order: a stable sort over ascending id. No lemma depends on how ties fall.
- A `state` value other than `active` or `deleted` lists everything (`Listing.UnknownModeListsAll`).
- `patch_meta` edits soft-deleted rows too (`Lifecycle.PatchMeta`, `Lifecycle.GuardsByState`).
- A ready row of another user is answered 403 by the read endpoints but 404 by the mutating ones (`Lifecycle.CrossOwnerAnswers`).
- Two uploads can have the same key: same owner, folder and name in the same millisecond, or names that collapse under the `..` replacement (`Keys.NamesCollapse`). Then the second write truncates and overwrites the first blob before the unique key makes the insert fail. The result is a 500, and the earlier row's key now holds the second upload's bytes, while its size, mime and name still describe the first upload (third case of `Upload.UploadFile`).
- The request schema accepts passwords of 6 characters or more, but the password rules need 8 (`Accounts.SchemaAndRulesDisagree`).

## Model

| member | source | states |
|---|---|---|
| Common.Strip | backend/app.py:42 | `str.strip()` leaves no white-space character (Python's `isspace` set) at either end |
| Common.StripIsInfix | backend/app.py:42 | the stripped text is a contiguous piece of the input, and everything before and after that piece is white space |
| Common.Decimal | backend/app.py:115-117 | `str(n)` of a natural number is a non-empty string of ASCII digits |
| Common.DecimalReadsBack | backend/app.py:115-117 | the digits of `str(n)` read back as n |
| Common.DecimalInjective | backend/app.py:115-117 | distinct numbers have distinct decimal texts |
| Common.DecimalsDiverge | backend/app.py:115-117 | two different numbers each followed by the same non-digit separator never produce the same text, whatever follows |
| Common.Split | backend/app.py:109 | `s.split(",")` has at least one piece and no piece contains the separator |
| Common.JoinSplit | backend/app.py:109 | joining the split pieces with the separator gives the setting back: nothing is lost |
| Models.WithDefaults | backend/models.py:16-27 | an inserted row takes the given id, every supplied column, and otherwise size 0, tags "[]", private, state ready, no deletion time; created and updated times are the insert time |
| Models.BareInsertDefaults | backend/models.py:21-25 | a row naming only the required columns is ready, private, untagged ("[]"), empty, and has a null deleted_at |
| Models.FileTable.Get | backend/app.py:178 | `db.get(File, id)` finds a row exactly when the id is a stored primary key, and returns that row |
| Models.FileTable.Insert | backend/models.py:16-18 | an insert fails exactly when the key is already used; otherwise it adds one row under an id no row had, keeps ids and keys unique, and keeps the ready/deleted coherence, all-private and serialised-tags invariants |
| Models.FileTable.Save | backend/app.py:211 | committing a changed row replaces exactly that row and keeps the table's identity and uniqueness invariant, and the serialised-tags invariant when the new tags are a `json.dumps` output |
| Models.UserTable.Insert | backend/models.py:9 | a user insert fails exactly when the e-mail is taken; otherwise it adds the user under a fresh id |
| Content.Concat | backend/app.py:121-133 | the bytes written are as long as the sum of the chunk lengths |
| Content.Received | backend/app.py:124-127 | the chunks the read loop consumes: a prefix of the stream with no empty chunk, stopped by an empty chunk when one comes |
| Content.Fits | backend/app.py:127-128 | definition without a contract of its own: the write succeeds when nothing was received or the received total is within the limit; `FitsWithinLimit` and `ContentStore.WriteLimited` carry its meaning |
| Content.EndOfStream | backend/app.py:125-126 | the read loop stops at the first empty read: every earlier chunk is non-empty |
| Content.TotalMonotone | backend/app.py:127 | the running size never decreases as chunks are read |
| Content.AllNonEmptyReceived | backend/app.py:124-126 | a stream of non-empty chunks is read in full |
| Content.FitsWithinLimit | backend/app.py:128 | with a non-negative limit, the write succeeds exactly when the received total is at most the limit |
| Content.ContentStore.WriteLimited | backend/app.py:121-133 | the write succeeds exactly when the received total fits the limit. On success the file holds the concatenation of the received chunks and `size` is their total. On overflow the crossing chunk is the first whose running total exceeds the limit, it is not written, and the file is removed. No other key changes |
| Content.ContentStore.Put | backend/app.py:146-149 | saving the thumbnail adds or replaces that one key |
| Keys.ReplaceDotDot | backend/app.py:116 | the single-pass `replace("..", ".")` never lengthens the name and keeps its first character |
| Keys.ReplaceKeepsDotFree | backend/app.py:116 | a name without dots is unchanged |
| Keys.ReplaceSkipsDotFree | backend/app.py:116 | a dot-free prefix passes through the replacement untouched |
| Keys.ReplaceLeavesDoubleDot | backend/app.py:116 | the result holds ".." exactly when the input held "..." |
| Keys.ReplaceSplits | backend/app.py:116 | the replacement treats two halves separately when the first does not end in a dot |
| Keys.KeepFolderChars | backend/app.py:43 | the regex substitution keeps only characters of `[A-Za-z0-9_\-/ ]` |
| Keys.KeepFolderCharsOne | backend/app.py:43 | one character passes when it is in the class and is deleted otherwise; with KeepFolderCharsAppend this fixes the filter on every string |
| Keys.KeepFolderCharsMembers | backend/app.py:43 | a character is in the output exactly when it is in the input and in the class |
| Keys.KeepFolderCharsAppend | backend/app.py:43 | the character filter works piecewise over concatenation |
| Keys.KeepFolderCharsKeeps | backend/app.py:43 | a string already made of allowed characters passes the filter unchanged |
| Keys.SanitizeFolder | backend/app.py:41-44 | the cleaned folder has only allow-list characters, no dot at all, and neither starts nor ends with `/` |
| Keys.FilterAbsorbsReplace | backend/app.py:42-43 | the dot replacement before the filter makes no difference, because the filter drops every dot |
| Keys.SanitizeWithoutReplace | backend/app.py:41-44 | sanitize_folder equals strip, filter, then strip of slashes |
| Keys.SanitizeKeepsCleanFolder | backend/app.py:41-44 | a folder of allowed characters with no slash or space at either end is kept as it is |
| Keys.SanitizeMergesFolders | backend/app.py:41-44 | for non-empty pieces a and b of allowed characters, with no slash or space at the outer ends, the folders "a.b" and "ab" both clean to "ab" |
| Keys.FileName | backend/app.py:113 | the stored name is the upload's file name, or "file" when it is absent or empty |
| Keys.FolderPart | backend/app.py:114-117 | definition without a contract of its own: the cleaned folder followed by `/`, or nothing when it cleans to empty; `FolderPartDotFree` holds of it |
| Keys.SafeName | backend/app.py:116 | definition without a contract of its own: the replacement applied to the timestamp, `_` and the file name; `SafeNameShape` and `KeyNameDoubleDot` state what it yields |
| Keys.StorageKey | backend/app.py:117 | definition without a contract of its own: owner id, `/`, folder part and safe name; `KeyStartsWithOwner`, `KeysDifferByTimestamp`, `KeysDifferByOwner` and `NamesCollapse` state its properties |
| Keys.SafeNameShape | backend/app.py:116 | the part of the key after the folder part is the timestamp, `_`, then the file name with its `..` replaced; the timestamp prefix holds no dot, so the replacement touches only the name |
| Keys.FolderPartDotFree | backend/app.py:114-117 | the folder part of the key never contains a dot |
| Keys.DecimalDotFree | backend/app.py:117 | the owner and timestamp texts never contain a dot |
| Keys.KeyStartsWithOwner | backend/app.py:117 | every key begins with the owner id and `/` |
| Keys.KeysDifferByTimestamp | backend/app.py:115-117 | for the same owner, folder and file name, different timestamps give different keys |
| Keys.KeysDifferByOwner | backend/app.py:117 | different owners never share a key, whatever their folders, timestamps and names |
| Keys.KeyNameDoubleDot | backend/app.py:116 | the name segment of a key contains ".." exactly when the file name contained "..." |
| Keys.TraversalNameSurvives | backend/app.py:116-118 | for any dot-free x, the file name "/.../.../x" yields the key `{owner}/{ts}_/../../x` |
| Keys.TraversalNameReplaced | backend/app.py:116 | the replacement turns "/.../.../x" into "/../../x" for any dot-free x |
| Keys.NamesCollapse | backend/app.py:116-117 | for a dot-free a and a b not starting with a dot, the names a + ".." + b and a + "." + b uploaded in the same millisecond get the same key |
| Keys.DoubleDotCollapses | backend/app.py:116 | a + ".." + b and a + "." + b are replaced to the same name |
| Keys.ThumbKey | backend/app.py:147 | the thumbnail key extends the file's key |
| Keys.FirstIndex | backend/app.py:64 | the position of the first `/` in the key |
| Keys.RelativePath | backend/app.py:64 | definition without a contract of its own: everything after the first `/`, or the whole key without one; `RelativePathAfterOwner` and `RelativePathOfKey` state what it gives |
| Keys.RelativePathOfKey | backend/app.py:64 | the path in a view of an uploaded file is the folder part and the name segment, without the owner |
| Keys.RelativePathAfterOwner | backend/app.py:64 | `split("/", 1)[1]` after an all-digit prefix and `/` is the rest of the key |
| Json.HexDigit | backend/app.py:139 | a lowercase hexadecimal digit is printable ASCII |
| Json.Hex4 | backend/app.py:139 | the four-digit `\u` escape is four printable characters |
| Json.EscapeChar | backend/app.py:139 | the `json.dumps` escape of any character is non-empty printable ASCII |
| Json.Hex4Reads | backend/app.py:139 | the four hexadecimal digits of a `\u` escape read back as the number formatted |
| Json.EscapeCharMeaning | backend/app.py:139 | printable characters other than `"` and `\` stand for themselves; those two get a backslash; other characters up to U+FFFF without a short escape are `\u` and four digits reading back as the code point; characters above U+FFFF are two `\u` escapes, a high surrogate then a low surrogate, which combine back to the code point |
| Json.Escape | backend/app.py:139 | an escaped string is printable ASCII |
| Json.Quote | backend/app.py:139 | a JSON string literal is printable ASCII |
| Json.Items | backend/app.py:139 | the list items are printable ASCII |
| Json.Dumps | backend/app.py:139 | the stored tag text is always printable ASCII |
| Json.JsonLoad | backend/app.py:46-50 | definition without a contract of its own: the decoded list, or [] when `json.loads` fails or gives no list; `NormalizeRoundTrip` and `Lifecycle.PatchedTagsReadBack` state what it reads back |
| Json.NormalizeTags | backend/app.py:135-141 | definition without a contract of its own: the form field or "[]", re-serialised when it decodes to a list; `NormalizedIsDumps`, `AbsentTagsStoreEmptyList`, `InvalidTagsStoreEmptyList` and `NormalizeRoundTrip` state its behaviour |
| Json.EmptyListIsDumps | backend/models.py:22 | the column default "[]" is what `json.dumps([])` writes |
| Json.NormalizedTagsSerialised | backend/app.py:135-141 | the tags upload stores are always some `json.dumps` output |
| Json.NormalizedIsDumps | backend/app.py:135-141 | the stored tags are the serialisation of what `json_load` reads from the input, or from "[]" when the input is absent or empty |
| Json.AbsentTagsStoreEmptyList | backend/app.py:135 | absent or empty tags are stored as "[]" |
| Json.InvalidTagsStoreEmptyList | backend/app.py:136-141 | tags that are not JSON, or not a list, are stored as "[]" |
| Json.NormalizeRoundTrip | backend/app.py:46-51 | the view reads back the list the upload decoded, and normalising stored tags again changes nothing |
| Json.EscapePlain | backend/app.py:139 | a string of printable characters other than quote and backslash is written unescaped |
| Json.QuoteInItems | backend/app.py:139 | every element's literal occurs in the serialised list |
| Json.PlainMemberMatches | backend/app.py:171 | a listed tag of plain characters is found by the tag filter |
| Json.NonPrintableTagNeverMatches | backend/app.py:171 | a tag with a character outside `' '..'~'` never matches any stored tag text |
| Json.QuotedMemberMisses | backend/app.py:171 | the tag `a"b` is in the list `["a\"b"]` but the filter does not find it |
| Json.SpanningPatternMatches | backend/app.py:171 | the filter for `a", "b` matches the list `["a", "b"]`, which does not contain it |
| Views.StateName | backend/app.py:61 | the view's state is "ready" or "deleted", and "deleted" exactly for deleted rows |
| Views.View | backend/app.py:53-66 | definition without a contract of its own: `to_file_out` field by field; `ViewPathOfStorageKey` states its path, `Lifecycle.PatchedTagsReadBack` its tags |
| Views.ViewPathOfStorageKey | backend/app.py:53-66 | the view of an uploaded row shows the folder part and the name segment as its path, without the owner prefix |
| Listing.RowsInIdOrder | backend/app.py:163 | the scan returns only table rows and every row whose id is below the counter |
| Listing.RowsInIdOrderAscending | backend/app.py:163 | on a table whose rows sit under their own ids, the scan has strictly ascending ids below the counter, so it holds each row once |
| Listing.ModeAdmits | backend/app.py:164-167 | definition without a contract of its own: `active` hides deleted rows, `deleted` keeps only them, anything else keeps all; `ModesSeparateStates` and `UnknownModeListsAll` state this |
| Listing.Matches | backend/app.py:163-171 | definition without a contract of its own: the WHERE clause: the caller's rows, the state mode, and the name and tag substring filters when given; `Select` and `ListedRowsMatch` state it |
| Listing.Ordered | backend/app.py:163-173 | definition without a contract of its own: the scan, the filter and the newest-first sort; `OrderedCount`, `ListedRowsMatch` and `MatchingRowsCounted` state what it holds |
| Listing.Select | backend/app.py:163-171 | a row is kept exactly when it is the caller's, its state passes the mode, its name contains q (when q is given) and its tag text contains the quoted tag (when tag is given) |
| Listing.SelectKeepsAscending | backend/app.py:163-171 | the filters keep the order of the rows they keep, so they never repeat a row |
| Listing.AscendingCount | backend/app.py:172 | rows with strictly ascending ids are as many as their ids |
| Listing.InsertNewest | backend/app.py:173 | inserting a row into a newest-first sequence keeps it newest first and adds exactly that row |
| Listing.SortNewestFirst | backend/app.py:173 | the result is ordered by created_at descending and is a permutation of the matches |
| Listing.Page | backend/app.py:173 | the page is the slice from `(page-1)*page_size`, at most page_size long, and as long as the remaining rows allow |
| Listing.ListFiles | backend/app.py:153-174 | a page below 1 or a page size outside 1..100 is refused with 422. Otherwise the total is the match count before pagination, and the items are the views of the requested page of newest-first matches |
| Listing.OrderedCount | backend/app.py:163-172 | on such a table the ordered matches are exactly as many as the ids of the rows passing the WHERE clause |
| Listing.ListFilesTotal | backend/app.py:172 | on a valid table the reported total is the number of rows that pass the WHERE clause, each counted once |
| Listing.ListedRowsMatch | backend/app.py:163-173 | every listed row is a table row of the caller's that passes every filter |
| Listing.MatchingRowsCounted | backend/app.py:163-172 | every matching row of the table is among the ordered matches, so it is counted in the total |
| Listing.ModesSeparateStates | backend/app.py:164-167 | "active" never lists a deleted row, and "deleted" lists only deleted rows |
| Listing.ModeCountsAdd | backend/app.py:164-172 | the "all" total is the "active" total plus the "deleted" total |
| Listing.UnknownModeListsAll | backend/app.py:164-167 | any other state value gives the same rows as "all" |
| Listing.TotalIgnoresPage | backend/app.py:172 | the total does not depend on the page asked for |
| Listing.RowOnItsPage | backend/app.py:173 | the k-th match is on page `k / page_size + 1` at position `k % page_size` |
| Listing.SecondPageOfFive | backend/app.py:173 | of five matches with two per page, page 2 holds the third and fourth |
| Listing.NonPrintableTagListsNothing | backend/app.py:170-171 | when every stored tag text came from json.dumps, filtering by a tag with a non-ASCII or control character lists nothing |
| Listing.TaggedListingEmpty | backend/app.py:170-171 | on a table whose tags are all `json.dumps` outputs, which every handler keeps, a tag with a non-ASCII or control character matches no row |
| Access.Readable | backend/app.py:178-180 | the read guard answers 404 "File not found" for a missing or non-ready row, then 403 "Forbidden" for another user's row, and otherwise yields the row |
| Access.Download | backend/app.py:176-183 | after the guard, 410 "File missing on disk" when the blob is absent; otherwise the blob's bytes under the row's mime type and name |
| Access.Preview | backend/app.py:185-194 | after the guard, 410 "Missing" when the blob is absent, then 415 "Preview not supported" unless the mime type starts with `image/`; otherwise the blob as download would send it |
| Access.Thumb | backend/app.py:196-203 | after the guard, 404 "No thumb" when the thumbnail is absent; otherwise the PNG named after the row with `.thumb.png` appended |
| Access.ServedOnlyToOwner | backend/app.py:176-203 | nothing is served except a ready row of the caller's |
| Access.GuardOrder | backend/app.py:176-203 | a missing or soft-deleted row gives 404 to everyone, its owner included; another user's ready row gives 403 before the disk is looked at |
| Access.PreviewIsImageDownload | backend/app.py:183-194 | a preview succeeds exactly when the download succeeds and the type is an image, and then sends the same response |
| Access.ThumbIndependentOfOriginal | backend/app.py:181-202 | for the owner, the thumbnail is served exactly when the thumbnail key is stored, and the download exactly when the blob is stored |
| Lifecycle.Commit | backend/models.py:27 | a commit that changes no column leaves the row, updated_at included; otherwise updated_at becomes the commit time |
| Lifecycle.MarkDeleted | backend/app.py:210-211 | definition without a contract of its own: state deleted with a deletion time, committed; `MarkDeletedCoherent` and `MarkDeletedFields` state it |
| Lifecycle.MarkRestored | backend/app.py:217-218 | definition without a contract of its own: state ready with no deletion time, committed; `MarkRestoredCoherent` and `DeleteThenRestore` state it |
| Lifecycle.MadePrivate | backend/app.py:225-227 | definition without a contract of its own: a public row turns private and is committed, a private row is left alone; `MadePrivateIdempotent` states it |
| Lifecycle.PatchedName | backend/app.py:235-236 | definition without a contract of its own: the stripped name when it is not blank, else the old name; `PatchedFields` states it |
| Lifecycle.PatchedTags | backend/app.py:237-238 | definition without a contract of its own: the serialised list when given, else the old text; `PatchedFields` states it |
| Lifecycle.Patched | backend/app.py:234-239 | definition without a contract of its own: both field changes, committed; `PatchedFields`, `PatchedKeepsColumns`, `EmptyPatchUnchanged` and `PatchIdempotent` state its properties |
| Lifecycle.SoftDelete | backend/app.py:205-211 | succeeds exactly for an owned, non-deleted row and then sets state deleted and a deletion time; otherwise 404 "Not found" and nothing changes; keeps the table invariants |
| Lifecycle.Restore | backend/app.py:213-218 | succeeds exactly for an owned, deleted row and then sets state ready and clears the deletion time; otherwise 404 "Not found"; keeps the table invariants |
| Lifecycle.SetVisibility | backend/app.py:220-228 | succeeds exactly for an owned, ready row and leaves it private whatever was asked; private tables are left unchanged; otherwise 404 "Not found" |
| Lifecycle.PatchMeta | backend/app.py:230-240 | succeeds for any owned row whatever its state; replaces the row by its patched form and returns its view; otherwise 404 "Not found" |
| Lifecycle.MarkDeletedCoherent | backend/app.py:210 | a soft-deleted row is deleted and has a deletion time |
| Lifecycle.MarkRestoredCoherent | backend/app.py:217 | a restored row is ready and has no deletion time |
| Lifecycle.MarkDeletedFields | backend/app.py:210 | soft delete of a ready row changes only state, deleted_at and updated_at |
| Lifecycle.DeleteThenRestore | backend/app.py:205-218 | delete followed by restore gives back the ready row with every field except updated_at unchanged |
| Lifecycle.MadePrivateIdempotent | backend/app.py:222-228 | after visibility the row is private, a private row is untouched, a second call changes nothing, and no other field changes |
| Lifecycle.PatchedFields | backend/app.py:234-238 | the name becomes the stripped new name only when that is not blank; tags are replaced by the serialised list only when given; no other column changes |
| Lifecycle.PatchedKeepsColumns | backend/app.py:234-238 | a patch keeps the id, key, owner, visibility, state and deletion time |
| Lifecycle.EmptyPatchUnchanged | backend/app.py:234-239 | a patch with no name (or a blank one) and no tags changes nothing, not even updated_at |
| Lifecycle.PatchIdempotent | backend/app.py:230-240 | applying the same patch twice is the same as once |
| Lifecycle.PatchedTagsReadBack | backend/app.py:237-240 | the view after a tag patch reads back exactly the list sent |
| Lifecycle.GuardsByState | backend/app.py:208-224 | for an owned row exactly one of delete and restore applies, and visibility applies exactly when delete does |
| Lifecycle.CrossOwnerAnswers | backend/app.py:180-224 | another user's ready row gets 403 from download but fails every mutating guard, which answers 404 |
| Upload.NonEmptyStripped | backend/app.py:109 | an entry is kept exactly when it is non-empty and some piece strips to it |
| Upload.AllowList | backend/app.py:109 | definition without a contract of its own: the comma-separated entries of the setting, stripped, blanks dropped; `AllowListEntries` states it |
| Upload.MimeAllowed | backend/app.py:111 | definition without a contract of its own: an empty allow-list admits everything, otherwise the type must be listed; `EmptySettingAllowsAll` and `Upload.UploadFile` use it |
| Upload.AllowListEntries | backend/app.py:109 | the allow-list is exactly the non-blank trimmed comma-separated entries, and none holds a comma or surrounding space |
| Upload.EmptySettingAllowsAll | backend/app.py:109-111 | an empty setting gives an empty allow-list, which admits every type |
| Upload.ResolveMime | backend/app.py:110 | the MIME type is never empty: the declared type, else the guess from the file name, else application/octet-stream |
| Upload.UploadKey | backend/app.py:113-117 | definition without a contract of its own: the storage key built from the owner, the folder, the clock and the stored file name; the Keys lemmas state its properties |
| Upload.UploadRow | backend/app.py:143 | definition without a contract of its own: the insert upload_file makes; `UploadedRowShape` states the row it becomes |
| Upload.UploadFile | backend/app.py:101-151 | a MIME type outside a non-empty allow-list gives 415 and changes nothing. An oversized body gives 413, creates no row and removes the file. A key already in use gives 500 after the blob was overwritten. Otherwise one row with a fresh id records the received size, the normalised tags and state ready; the blob holds the received bytes; an image gets its thumbnail when one was made; the result is the row's view. The table invariants are kept |
| Upload.Record | backend/app.py:143-151 | the insert fails with 500 and changes nothing when the key is in use; otherwise one row with a fresh id is added, an image gets its thumbnail when one was made, and the result is the row's view |
| Upload.UploadedRowShape | backend/app.py:143 | the uploaded row is ready, private, not deleted, and records the size, tags, name, owner and key |
| Upload.DefaultLimit | backend/config.py:16 | with the default 50 MB, a body of at most 52428800 bytes is stored and one byte more is refused |
| Upload.ThumbBesideBlob | backend/app.py:147-149 | storing the thumbnail leaves the uploaded bytes as they were |
| Accounts.ValidatePassword | backend/app.py:30-39 | a password is accepted exactly when it has 8 or more characters, an ASCII letter and a digit; otherwise the first failing rule's message is returned |
| Accounts.AcceptedStaysAccepted | backend/app.py:30-39 | appending characters to an accepted password keeps it accepted |
| Accounts.ValidatePasswordExamples | backend/app.py:30-39 | "abcd1234" passes, "abcdefgh" lacks a digit, "12345678" lacks a letter, "abc123" is too short |
| Accounts.Register | backend/app.py:78-88 | a password under the schema's 6 characters gives 422. Then a taken e-mail gives 409. Then a bad password gives 400 with the rule's message. Otherwise exactly one user is added under a fresh id |
| Accounts.SchemaAndRulesDisagree | backend/schemas.py:9 | passwords of 6 or 7 characters pass the schema but are refused with the length message |

## Left out

- Authentication, JWT tokens, bcrypt hashing and `login`/`me` (backend/auth.py, backend/security.py): foreign cryptographic libraries. The caller is a `nat` and the password hash is an input.
- Pydantic validation of e-mail addresses (`EmailStr`) and of request bodies beyond the password length: library behaviour outside the model.
- SQL `LIKE` details: case-insensitive ASCII matching and `%`/`_` wildcards inside `q` and `tag` are not modelled; the filters are plain substring tests.
- Listing.SortNewestFirst: ties in created_at come out in ascending id order, one order the database may return. The source leaves the order of ties to the database.
- Lifecycle.DeleteThenRestore: every field but updated_at comes back. updated_at is an onupdate column and takes the restore's commit time.
- Accounts.ValidatePassword: `\d` is taken as the ASCII digits. Python's `re` also matches other Unicode decimal digits, and the Unicode database is not part of this model.
- `json.loads` is not implemented: it is the parameter `loads`. Lists holding non-string values are outside the `seq<string>` type.
- `make_thumbnail` (PIL decoding, resizing to 256 pixels, PNG encoding) is the parameter `thumbnail`. Its bytes are not related to the image.
- `mimetypes.guess_type` is the parameter `guess`.
- Clocks (`time.time()`, `datetime.now()`, the database's `now()`) are parameters. `created_at`, `updated_at` and `deleted_at` are plain numbers, and the views do not format them as ISO text.
- Listing.ListFiles and the `/files/{file_id}` endpoints: integers are unbounded. SQLite's INTEGER is 64-bit, so an offset `(page-1)*page_size` or a `file_id` above 2^63-1 makes the source fail with a 500 (the driver's OverflowError) or a validation error, where the model returns an empty page or a 404.
- The file system: the model does not cover STORAGE_DIR path joining, `..` resolving to other directories, `os.makedirs`, or file handles. The content store is a map from key to bytes, so a key that walks out of the owner's directory is only shown as a string (`Keys.TraversalNameSurvives`).
- The 413 path removes the partial file. The model does not cover a failed removal (swallowed by `except Exception: pass`) or other I/O errors.
- Request parsing, FastAPI routing and CORS; concurrency between requests.
- Listing.ListFiles and Accounts.Register: the 422 answer carries the placeholder detail "Unprocessable Entity". FastAPI's real body is a list of validation errors, which the model does not build.
- The query defaults of list_files (page 1, page_size 20, state "active", backend/app.py:157-159) are not modelled: the caller passes every parameter.
- Lifecycle.SoftDelete: one `now` gives both deleted_at and updated_at. The source takes deleted_at from Python's clock (backend/app.py:210) and updated_at from the database's `now()` (backend/models.py:27), which may differ.
- The front end (frontend/app.js) and the launcher (run_oneclick.py): they are clients and tooling, not server logic.
