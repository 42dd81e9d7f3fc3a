/** Storage-key derivation of upload_file: the folder clean-up of
    sanitize_folder, the one-pass `replace("..", ".")` on the file name, and
    the key `{owner}/{folder/}{ms}_{filename}`. Also the two key-derived
    strings of to_file_out: the owner-relative path and the thumbnail key. */
module Keys {
  import opened Common

  // ---------------------------------------------------------------- replace

  /** Python's s.replace("..", "."): one left-to-right pass over
      non-overlapping occurrences, so a run of three dots becomes two. */
  function ReplaceDotDot(s: string): (r: string)
    ensures |r| <= |s|
    ensures |s| > 0 ==> |r| > 0 && r[0] == s[0]
    decreases |s|
  {
    if |s| < 2 then s
    else if s[0] == '.' && s[1] == '.' then "." + ReplaceDotDot(s[2..])
    else [s[0]] + ReplaceDotDot(s[1..])
  }

  /** The pass copies a dot-free prefix unchanged. */
  lemma {:induction false} ReplaceSkipsDotFree(a: string, b: string)
    requires '.' !in a
    ensures ReplaceDotDot(a + b) == a + ReplaceDotDot(b)
    decreases |a|
  {
    if a != [] {
      var c, t := a[0], a[1..];
      assert a == [c] + t;
      assert c in a;
      assert '.' !in t by {
        assert forall i :: 0 <= i < |t| ==> t[i] == a[i + 1];
      }
      assert a + b == [c] + (t + b);
      ReplaceSkipsDotFree(t, b);
      ReplaceCons(c, t + b);
    } else {
      assert a + b == b;
    }
  }

  lemma ReplaceCons(c: char, s: string)
    requires c != '.'
    ensures ReplaceDotDot([c] + s) == [c] + ReplaceDotDot(s)
  {
    if s != [] {
      assert ([c] + s)[1..] == s;
    }
  }

  /** A string without dots is left as it is. */
  lemma ReplaceKeepsDotFree(s: string)
    requires '.' !in s
    ensures ReplaceDotDot(s) == s
  {
    ReplaceSkipsDotFree(s, "");
    assert s + "" == s;
  }

  /** The result still holds ".." exactly when the input held "...": the
      replacement does not remove parent-directory segments from a name. */
  lemma {:induction false} ReplaceLeavesDoubleDot(s: string)
    ensures Contains(ReplaceDotDot(s), "..") <==> Contains(s, "...")
    decreases |s|
  {
    var r := ReplaceDotDot(s);
    ContainsUnfold(r, "..");
    ContainsUnfold(s, "...");
    if |s| == 1 {
      ContainsUnfold(s[1..], "...");
    } else if |s| < 2 {
    } else if s[0] == '.' && s[1] == '.' {
      var t := s[2..];
      ReplaceLeavesDoubleDot(t);
      assert r[1..] == ReplaceDotDot(t);
      ContainsUnfold(s[1..], "...");
      assert s[1..][1..] == t;
    } else {
      ReplaceLeavesDoubleDot(s[1..]);
      assert r[1..] == ReplaceDotDot(s[1..]);
    }
  }

  // ---------------------------------------------------------------- folders

  /** The characters the pattern `[^A-Za-z0-9_\-\/ ]+` does not remove. */
  predicate FolderChar(c: char) {
    || 'A' <= c <= 'Z' || 'a' <= c <= 'z' || '0' <= c <= '9'
    || c == '_' || c == '-' || c == '/' || c == ' '
  }

  predicate IsSlash(c: char) {
    c == '/'
  }

  /** re.sub(r'[^A-Za-z0-9_\-\/ ]+', '', s): removing every run of other
      characters is removing each of them. */
  function KeepFolderChars(s: string): (r: string)
    ensures |r| <= |s|
    ensures forall i :: 0 <= i < |r| ==> FolderChar(r[i])
    decreases |s|
  {
    if s == [] then [] else (if FolderChar(s[0]) then [s[0]] else []) + KeepFolderChars(s[1..])
  }

  /** On one character the filter keeps it exactly when it is allowed; with
      KeepFolderCharsAppend this pins the filter down on every string. */
  lemma KeepFolderCharsOne(c: char)
    ensures FolderChar(c) ==> KeepFolderChars([c]) == [c]
    ensures !FolderChar(c) ==> KeepFolderChars([c]) == []
  {
    assert [c][1..] == [];
  }

  /** The filter keeps exactly the allowed characters of its input. */
  lemma {:induction false} KeepFolderCharsMembers(s: string)
    ensures forall c :: c in KeepFolderChars(s) <==> c in s && FolderChar(c)
    decreases |s|
  {
    if s != [] {
      KeepFolderCharsMembers(s[1..]);
      assert s == [s[0]] + s[1..];
    }
  }

  lemma {:induction false} KeepFolderCharsAppend(a: string, b: string)
    ensures KeepFolderChars(a + b) == KeepFolderChars(a) + KeepFolderChars(b)
    decreases |a|
  {
    if a != [] {
      var c, t := a[0], a[1..];
      assert a == [c] + t;
      assert a + b == [c] + (t + b);
      KeepFolderCharsAppend(t, b);
      var h := if FolderChar(c) then [c] else [];
      assert KeepFolderChars(a) == h + KeepFolderChars(t);
      assert KeepFolderChars(a + b) == h + KeepFolderChars(t + b);
    } else {
      assert a + b == b;
    }
  }

  /** A string of allowed characters passes the filter unchanged. */
  lemma {:induction false} KeepFolderCharsKeeps(s: string)
    requires forall i :: 0 <= i < |s| ==> FolderChar(s[i])
    ensures KeepFolderChars(s) == s
    decreases |s|
  {
    if s != [] {
      KeepFolderCharsKeeps(s[1..]);
    }
  }

  lemma FolderCharsSlice(s: string, lo: nat, hi: nat)
    requires lo <= hi <= |s|
    requires forall i :: 0 <= i < |s| ==> FolderChar(s[i])
    ensures forall i :: 0 <= i < hi - lo ==> FolderChar(s[lo..hi][i])
  {
    forall i | 0 <= i < hi - lo
      ensures FolderChar(s[lo..hi][i])
    {
      assert s[lo..hi][i] == s[lo + i];
    }
  }

  /** sanitize_folder: strip whitespace, replace "..", keep the allowed
      characters, strip '/' from both ends. */
  function SanitizeFolder(folder: string): (r: string)
    ensures forall i :: 0 <= i < |r| ==> FolderChar(r[i])
    ensures '.' !in r
    ensures r == [] || (r[0] != '/' && r[|r| - 1] != '/')
  {
    var kept := KeepFolderChars(ReplaceDotDot(Strip(folder)));
    TrimSlashesShape(kept);
    TrimEnd(TrimStart(kept, IsSlash), IsSlash)
  }

  /** `strip('/')` of a string of allowed characters. */
  lemma TrimSlashesShape(kept: string)
    requires forall i :: 0 <= i < |kept| ==> FolderChar(kept[i])
    ensures var r := TrimEnd(TrimStart(kept, IsSlash), IsSlash);
      && (forall i :: 0 <= i < |r| ==> FolderChar(r[i]))
      && '.' !in r
      && (r == [] || (r[0] != '/' && r[|r| - 1] != '/'))
  {
    var t := TrimStart(kept, IsSlash);
    FolderCharsSlice(kept, |kept| - |t|, |kept|);
    var r := TrimEnd(t, IsSlash);
    FolderCharsSlice(t, 0, |r|);
    FolderCharsDotFree(r);
    assert r == [] || r[0] == t[0];
  }

  lemma FolderCharsDotFree(s: string)
    requires forall i :: 0 <= i < |s| ==> FolderChar(s[i])
    ensures '.' !in s
  {
    assert forall i :: 0 <= i < |s| ==> s[i] != '.';
  }

  /** The dot replacement is invisible once the filter has removed every dot. */
  lemma {:induction false} FilterAbsorbsReplace(s: string)
    ensures KeepFolderChars(ReplaceDotDot(s)) == KeepFolderChars(s)
    decreases |s|
  {
    if |s| >= 2 {
      if s[0] == '.' && s[1] == '.' {
        FilterAbsorbsReplace(s[2..]);
        KeepFolderCharsAppend(".", ReplaceDotDot(s[2..]));
        assert s[1..][1..] == s[2..];
      } else {
        FilterAbsorbsReplace(s[1..]);
        KeepFolderCharsAppend([s[0]], ReplaceDotDot(s[1..]));
      }
    }
  }

  /** So sanitize_folder equals the same clean-up without the replace step. */
  lemma SanitizeWithoutReplace(folder: string)
    ensures SanitizeFolder(folder)
         == TrimEnd(TrimStart(KeepFolderChars(Strip(folder)), IsSlash), IsSlash)
  {
    FilterAbsorbsReplace(Strip(folder));
  }

  /** A folder already made of allowed characters, not starting or ending
      with a slash or a space, is kept as it is. */
  lemma SanitizeKeepsCleanFolder(folder: string)
    requires forall i :: 0 <= i < |folder| ==> FolderChar(folder[i])
    requires folder != [] ==> folder[0] != '/' && folder[0] != ' '
    requires folder != [] ==> folder[|folder| - 1] != '/' && folder[|folder| - 1] != ' '
    ensures SanitizeFolder(folder) == folder
  {
    TrimStartKeeps(folder, IsSpace);
    TrimEndKeeps(folder, IsSpace);
    assert Strip(folder) == folder;
    assert forall i :: 0 <= i < |folder| ==> folder[i] != '.';
    ReplaceKeepsDotFree(folder);
    KeepFolderCharsKeeps(folder);
    TrimStartKeeps(folder, IsSlash);
    TrimEndKeeps(folder, IsSlash);
  }

  /** Folders that differ only in a removed dot share a directory: "a.b"
      and "ab" both clean to "ab". */
  lemma SanitizeMergesFolders(a: string, b: string)
    requires a != [] && b != []
    requires forall i :: 0 <= i < |a| ==> FolderChar(a[i])
    requires forall i :: 0 <= i < |b| ==> FolderChar(b[i])
    requires a[0] != '/' && a[0] != ' ' && b[|b| - 1] != '/' && b[|b| - 1] != ' '
    ensures SanitizeFolder(a + "." + b) == SanitizeFolder(a + b) == a + b
  {
    var s := a + "." + b;
    var ab := a + b;
    assert s[0] == a[0] && s[|s| - 1] == b[|b| - 1];
    assert ab[0] == a[0] && ab[|ab| - 1] == b[|b| - 1];
    StripKeeps(s);
    SanitizeWithoutReplace(s);
    FilterDropsDot(a, b);
    FolderCharsConcat(a, b);
    TrimStartKeeps(ab, IsSlash);
    TrimEndKeeps(ab, IsSlash);
    SanitizeKeepsCleanFolder(ab);
  }

  lemma StripKeeps(s: string)
    requires s != [] && !IsSpace(s[0]) && !IsSpace(s[|s| - 1])
    ensures Strip(s) == s
  {
    TrimStartKeeps(s, IsSpace);
    TrimEndKeeps(s, IsSpace);
  }

  lemma FilterDropsDot(a: string, b: string)
    requires forall i :: 0 <= i < |a| ==> FolderChar(a[i])
    requires forall i :: 0 <= i < |b| ==> FolderChar(b[i])
    ensures KeepFolderChars(a + "." + b) == a + b
  {
    KeepFolderCharsAppend(a + ".", b);
    KeepFolderCharsAppend(a, ".");
    KeepFolderCharsKeeps(a);
    KeepFolderCharsKeeps(b);
    assert "."[1..] == [];
    assert !FolderChar('.');
    assert a + [] == a;
  }

  lemma FolderCharsConcat(a: string, b: string)
    requires forall i :: 0 <= i < |a| ==> FolderChar(a[i])
    requires forall i :: 0 <= i < |b| ==> FolderChar(b[i])
    ensures forall i :: 0 <= i < |a + b| ==> FolderChar((a + b)[i])
  {
    forall i | 0 <= i < |a + b|
      ensures FolderChar((a + b)[i])
    {
      if i < |a| {
        assert (a + b)[i] == a[i];
      } else {
        assert (a + b)[i] == b[i - |a|];
      }
    }
  }

  // ---------------------------------------------------------------- keys

  /** `file.filename or "file"`. */
  function FileName(filename: Option<string>): (r: string)
    ensures r != ""
    ensures Given(filename) ==> r == filename.value
  {
    if Given(filename) then filename.value else "file"
  }

  /** `sanitize_folder(folder) if folder else ""`, then `sub + "/" if sub`. */
  function FolderPart(folder: Option<string>): string {
    var sub := if Given(folder) then SanitizeFolder(folder.value) else "";
    if sub == "" then "" else sub + "/"
  }

  /** f"{ts}_{filename}".replace("..", "."). */
  function SafeName(ts: nat, filename: string): string {
    ReplaceDotDot(Decimal(ts) + "_" + filename)
  }

  /** rel_key = f"{current.id}/" + (sub + "/" if sub else "") + safe. */
  function StorageKey(owner: nat, folder: Option<string>, ts: nat, filename: string): string {
    Decimal(owner) + "/" + FolderPart(folder) + SafeName(ts, filename)
  }

  /** The thumbnail is stored beside the blob. */
  function ThumbKey(key: string): (r: string)
    ensures |r| > |key| && r[..|key|] == key
  {
    key + ".thumb.png"
  }

  lemma DecimalDotFree(n: nat)
    ensures '.' !in Decimal(n)
  {
    var d := Decimal(n);
    assert forall i :: 0 <= i < |d| ==> d[i] != '.';
  }

  /** The timestamp and underscore pass through the replacement untouched. */
  lemma SafeNameShape(ts: nat, filename: string)
    ensures SafeName(ts, filename) == Decimal(ts) + "_" + ReplaceDotDot(filename)
  {
    DecimalDotFree(ts);
    var p := Decimal(ts) + "_";
    assert '.' !in p;
    ReplaceSkipsDotFree(p, filename);
  }

  lemma FolderPartDotFree(folder: Option<string>)
    ensures '.' !in FolderPart(folder)
  {
  }

  /** Every key starts with the owner's id and a slash. */
  lemma KeyStartsWithOwner(owner: nat, folder: Option<string>, ts: nat, filename: string)
    ensures Decimal(owner) + "/" <= StorageKey(owner, folder, ts, filename)
  {
    KeySplit(owner, folder, ts, filename);
  }

  /** The key is the owner's digits, a slash, and the owner-relative rest. */
  lemma KeySplit(owner: nat, folder: Option<string>, ts: nat, filename: string)
    ensures StorageKey(owner, folder, ts, filename)
         == Decimal(owner) + ['/'] + (FolderPart(folder) + SafeName(ts, filename))
  {
    ConcatAssoc(Decimal(owner), "/", FolderPart(folder), SafeName(ts, filename));
  }

  lemma ConcatAssoc3(a: string, b: string, c: string)
    ensures a + b + c == a + (b + c)
  {
  }

  lemma ConcatAssoc(a: string, b: string, c: string, d: string)
    ensures a + b + c + d == a + b + (c + d)
  {
  }

  /** Same owner, folder and name at two different milliseconds: two keys. */
  lemma KeysDifferByTimestamp(owner: nat, folder: Option<string>, filename: string, ts1: nat, ts2: nat)
    requires ts1 != ts2
    ensures StorageKey(owner, folder, ts1, filename) != StorageKey(owner, folder, ts2, filename)
  {
    SafeNameShape(ts1, filename);
    SafeNameShape(ts2, filename);
    DecimalsDiverge(ts1, ts2, '_', ReplaceDotDot(filename), ReplaceDotDot(filename));
    var p := Decimal(owner) + "/" + FolderPart(folder);
    var s1, s2 := SafeName(ts1, filename), SafeName(ts2, filename);
    assert StorageKey(owner, folder, ts1, filename) == p + s1;
    assert StorageKey(owner, folder, ts2, filename) == p + s2;
    PrefixCancels(p, s1, s2);
  }

  lemma PrefixCancels(p: string, x: string, y: string)
    requires x != y
    ensures p + x != p + y
  {
    assert (p + x)[|p|..] == x;
    assert (p + y)[|p|..] == y;
  }

  /** Keys of two different owners never meet, whatever the other inputs. */
  lemma KeysDifferByOwner(o1: nat, o2: nat, f1: Option<string>, f2: Option<string>,
                          ts1: nat, ts2: nat, n1: string, n2: string)
    requires o1 != o2
    ensures StorageKey(o1, f1, ts1, n1) != StorageKey(o2, f2, ts2, n2)
  {
    KeySplit(o1, f1, ts1, n1);
    KeySplit(o2, f2, ts2, n2);
    DecimalsDiverge(o1, o2, '/', FolderPart(f1) + SafeName(ts1, n1), FolderPart(f2) + SafeName(ts2, n2));
  }

  /** The name part of a key has a ".." exactly when the uploaded file name
      has "...": the replacement does not neutralise such names. */
  lemma KeyNameDoubleDot(ts: nat, filename: string)
    ensures Contains(SafeName(ts, filename), "..") <==> Contains(filename, "...")
  {
    SafeNameShape(ts, filename);
    ReplaceLeavesDoubleDot(filename);
    DecimalDotFree(ts);
    DotFreePrefixContains(Decimal(ts) + "_", ReplaceDotDot(filename));
  }

  /** A prefix without dots adds no ".." occurrence. */
  lemma {:induction false} DotFreePrefixContains(a: string, b: string)
    requires '.' !in a
    ensures Contains(a + b, "..") <==> Contains(b, "..")
    decreases |a|
  {
    if a != [] {
      var c, t := a[0], a[1..];
      assert a == [c] + t;
      assert c in a;
      assert '.' !in t by {
        assert forall i :: 0 <= i < |t| ==> t[i] == a[i + 1];
      }
      assert a + b == [c] + (t + b);
      ContainsUnfold([c] + (t + b), "..");
      assert ([c] + (t + b))[1..] == t + b;
      DotFreePrefixContains(t, b);
    } else {
      assert a + b == b;
    }
  }

  /** The pass treats the two halves separately when the first does not
      end in a dot. */
  lemma {:induction false} ReplaceSplits(a: string, b: string)
    requires a == [] || a[|a| - 1] != '.'
    ensures ReplaceDotDot(a + b) == ReplaceDotDot(a) + ReplaceDotDot(b)
    decreases |a|
  {
    if a == [] {
      assert a + b == b;
    } else if |a| == 1 {
      ReplaceCons(a[0], b);
      assert a + b == [a[0]] + b;
    } else if a[0] == '.' && a[1] == '.' {
      PairStep(a, b);
      ReplaceSplits(a[2..], b);
      ConcatAssoc3(".", ReplaceDotDot(a[2..]), ReplaceDotDot(b));
    } else {
      CopyStep(a, b);
      ReplaceSplits(a[1..], b);
      ConcatAssoc3([a[0]], ReplaceDotDot(a[1..]), ReplaceDotDot(b));
    }
  }

  lemma PairStep(a: string, b: string)
    requires |a| >= 2 && a[0] == '.' && a[1] == '.'
    ensures ReplaceDotDot(a + b) == "." + ReplaceDotDot(a[2..] + b)
    ensures ReplaceDotDot(a) == "." + ReplaceDotDot(a[2..])
  {
    assert (a + b)[2..] == a[2..] + b;
  }

  lemma CopyStep(a: string, b: string)
    requires |a| >= 2 && !(a[0] == '.' && a[1] == '.')
    ensures ReplaceDotDot(a + b) == [a[0]] + ReplaceDotDot(a[1..] + b)
    ensures ReplaceDotDot(a) == [a[0]] + ReplaceDotDot(a[1..])
  {
    assert (a + b)[1..] == a[1..] + b;
  }

  /** A name "/.../.../x" is stored two directories above the timestamped
      entry, outside the owner's directory. */
  lemma TraversalNameSurvives(owner: nat, ts: nat, x: string)
    requires '.' !in x
    ensures StorageKey(owner, None, ts, "/" + (".../" + (".../" + x)))
         == Decimal(owner) + "/" + (Decimal(ts) + "_" + ("/" + ("../" + ("../" + x))))
  {
    var name := "/" + (".../" + (".../" + x));
    KeySplit(owner, None, ts, name);
    SafeNameShape(ts, name);
    TraversalNameReplaced(x);
  }

  lemma TraversalNameReplaced(x: string)
    requires '.' !in x
    ensures ReplaceDotDot("/" + (".../" + (".../" + x))) == "/" + ("../" + ("../" + x))
  {
    var y := ".../" + x;
    ReplaceKeepsDotFree(x);
    ReplaceSplits(".../", x);
    ReplaceSplits(".../", y);
    ReplaceSplits("/", ".../" + y);
    ThreeDotsSlash();
  }

  lemma ThreeDotsSlash()
    ensures ReplaceDotDot(".../") == "../"
  {
    PairStep(".../", "");
    assert ".../"[2..] == "./";
    CopyStep("./", "");
    assert "./"[1..] == "/";
  }

  /** Two different names collapse to one key at the same millisecond:
      "a..b" and "a.b", for instance. */
  lemma NamesCollapse(owner: nat, folder: Option<string>, ts: nat, a: string, b: string)
    requires '.' !in a && (b == [] || b[0] != '.')
    ensures StorageKey(owner, folder, ts, a + ".." + b) == StorageKey(owner, folder, ts, a + "." + b)
  {
    SafeNameShape(ts, a + ".." + b);
    SafeNameShape(ts, a + "." + b);
    DoubleDotCollapses(a, b);
  }

  lemma DoubleDotCollapses(a: string, b: string)
    requires '.' !in a && (b == [] || b[0] != '.')
    ensures ReplaceDotDot(a + ".." + b) == ReplaceDotDot(a + "." + b)
  {
    assert a + ".." + b == a + (".." + b);
    assert a + "." + b == a + ("." + b);
    ReplaceSkipsDotFree(a, ".." + b);
    ReplaceSkipsDotFree(a, "." + b);
    PairStep("..", b);
    assert ".."[2..] + b == b;
    LoneDot(b);
  }

  /** A dot not followed by another is copied. */
  lemma LoneDot(b: string)
    requires b == [] || b[0] != '.'
    ensures ReplaceDotDot("." + b) == "." + ReplaceDotDot(b)
  {
    if b != [] {
      assert ("." + b)[1..] == b;
    }
  }

  // ---------------------------------------------------------------- paths

  /** Index of the first occurrence of c. */
  function FirstIndex(s: string, c: char): (i: nat)
    requires c in s
    ensures i < |s| && s[i] == c && c !in s[..i]
    decreases |s|
  {
    if s[0] == c then 0 else 1 + FirstIndex(s[1..], c)
  }

  lemma {:induction false} FirstIndexAt(s: string, c: char, j: nat)
    requires j < |s| && s[j] == c && c !in s[..j]
    ensures FirstIndex(s, c) == j
    decreases j
  {
    if j > 0 {
      assert s[0] in s[..j];
      assert s[1..][..j - 1] == s[1..j];
      assert forall i :: 0 <= i < j - 1 ==> s[1..j][i] == s[..j][i + 1];
      FirstIndexAt(s[1..], c, j - 1);
    }
  }

  /** `f.key.split("/", 1)[1] if "/" in f.key else f.key`. */
  function RelativePath(key: string): string {
    if '/' in key then key[FirstIndex(key, '/') + 1..] else key
  }

  /** The path shown to the owner is the key without the owner's prefix. */
  lemma RelativePathOfKey(owner: nat, folder: Option<string>, ts: nat, filename: string)
    ensures RelativePath(StorageKey(owner, folder, ts, filename))
         == FolderPart(folder) + SafeName(ts, filename)
  {
    KeySplit(owner, folder, ts, filename);
    RelativePathAfterOwner(Decimal(owner), FolderPart(folder) + SafeName(ts, filename));
  }

  lemma RelativePathAfterOwner(d: string, rest: string)
    requires forall i :: 0 <= i < |d| ==> IsDigit(d[i])
    ensures RelativePath(d + "/" + rest) == rest
  {
    var k := d + "/" + rest;
    assert k[|d|] == '/';
    assert k[..|d|] == d;
    assert forall i :: 0 <= i < |d| ==> d[i] != '/';
    FirstIndexAt(k, '/', |d|);
    assert k[|d| + 1..] == rest;
  }
}
