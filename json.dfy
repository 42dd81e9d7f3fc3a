/** The JSON text of the `tags` column. Writing is Python's json.dumps on a
    list of strings with its defaults (", " between items, every character
    outside ' '..'~' escaped as \uXXXX, surrogate pairs above U+FFFF).
    Reading is json.loads, which belongs to a library outside the model and
    is a parameter: `loads(s)` is the list s denotes, or None when s is not
    JSON or not a list. */
module Json {
  import opened Common

  /** The characters json.dumps writes as themselves (apart from '"' and '\'). */
  predicate Printable(c: char) {
    ' ' <= c <= '~'
  }

  function HexDigit(d: nat): (c: char)
    requires d < 16
    ensures Printable(c)
  {
    if d < 10 then ('0' as int + d) as char else ('a' as int + d - 10) as char
  }

  /** '{0:04x}'.format(n). */
  function Hex4(n: nat): (r: string)
    requires n < 0x10000
    ensures |r| == 4 && forall i :: 0 <= i < 4 ==> Printable(r[i])
  {
    [HexDigit(n / 4096), HexDigit(n / 256 % 16), HexDigit(n / 16 % 16), HexDigit(n % 16)]
  }

  /** The control characters json.dumps writes with a two-character escape. */
  predicate ShortEscape(c: char) {
    var n := c as int;
    n == 0x08 || n == 0x0C || c == '\n' || c == '\r' || c == '\t'
  }

  /** The escape of one character by json.dumps with ensure_ascii. */
  function EscapeChar(c: char): (r: string)
    ensures |r| > 0 && forall i :: 0 <= i < |r| ==> Printable(r[i])
  {
    var n := c as int;
    if c == '\\' then "\\\\"
    else if c == '"' then "\\\""
    else if n == 0x08 then "\\b"
    else if n == 0x0C then "\\f"
    else if c == '\n' then "\\n"
    else if c == '\r' then "\\r"
    else if c == '\t' then "\\t"
    else if Printable(c) then [c]
    else if n < 0x10000 then "\\u" + Hex4(n)
    else
      var v := n - 0x10000;
      "\\u" + Hex4(0xD800 + v / 1024) + "\\u" + Hex4(0xDC00 + v % 1024)
  }

  /** The value of a hexadecimal digit, as int(d, 16) reads it. */
  function DigitValue(d: char): int {
    if '0' <= d <= '9' then d as int - '0' as int
    else if 'a' <= d <= 'f' then d as int - 'a' as int + 10
    else -1
  }

  /** int(r, 16) on a four-digit hexadecimal string. */
  function Hex4Value(r: string): int
    requires |r| == 4
  {
    4096 * DigitValue(r[0]) + 256 * DigitValue(r[1]) + 16 * DigitValue(r[2]) + DigitValue(r[3])
  }

  lemma DigitReads(d: nat)
    requires d < 16
    ensures DigitValue(HexDigit(d)) == d
  {
  }

  /** Reading the four digits back gives the number that was formatted. */
  lemma Hex4Reads(n: nat)
    requires n < 0x10000
    ensures Hex4Value(Hex4(n)) == n
  {
    var a, b, c, d := n / 4096, n / 256 % 16, n / 16 % 16, n % 16;
    DigitReads(a);
    DigitReads(b);
    DigitReads(c);
    DigitReads(d);
    assert n / 256 == 16 * a + b;
    assert n / 16 == 16 * (n / 256) + c;
    assert n == 16 * (n / 16) + d;
  }

  /** What each escape says: printable characters other than the quote and
      the backslash stand for themselves; those two get a backslash;
      backspace, form feed, newline, carriage return and tab get their
      two-character escapes; the other characters of the Basic Multilingual Plane without a short
      escape are `\u` and their four-digit code; characters above U+FFFF are
      the twelve-character pair of `\u` escapes of their UTF-16 surrogates. */
  lemma EscapeCharMeaning(c: char)
    ensures Printable(c) && c != '"' && c != '\\' ==> EscapeChar(c) == [c]
    ensures c == '"' || c == '\\' ==> EscapeChar(c) == ['\\', c]
    ensures c as int == 0x08 ==> EscapeChar(c) == "\\b"
    ensures c as int == 0x0C ==> EscapeChar(c) == "\\f"
    ensures c == '\n' ==> EscapeChar(c) == "\\n"
    ensures c == '\r' ==> EscapeChar(c) == "\\r"
    ensures c == '\t' ==> EscapeChar(c) == "\\t"
    ensures !Printable(c) && c as int < 0x10000 && !ShortEscape(c) ==>
      var r := EscapeChar(c);
      |r| == 6 && r[..2] == "\\u" && Hex4Value(r[2..]) == c as int
    ensures c as int >= 0x10000 ==>
      var r := EscapeChar(c);
      && |r| == 12 && r[..2] == "\\u" && r[6..8] == "\\u"
      && var hi, lo := Hex4Value(r[2..6]), Hex4Value(r[8..]);
      && 0xD800 <= hi < 0xDC00 && 0xDC00 <= lo < 0xE000
      && 0x10000 + (hi - 0xD800) * 1024 + (lo - 0xDC00) == c as int
  {
    var n := c as int;
    if !Printable(c) && n < 0x10000 && !ShortEscape(c) {
      var r := EscapeChar(c);
      assert r == "\\u" + Hex4(n);
      assert r[2..] == Hex4(n);
      Hex4Reads(n);
    } else if n >= 0x10000 {
      var v := n - 0x10000;
      var h, l := 0xD800 + v / 1024, 0xDC00 + v % 1024;
      var r := EscapeChar(c);
      assert r == "\\u" + Hex4(h) + "\\u" + Hex4(l);
      assert r[2..6] == Hex4(h);
      assert r[8..] == Hex4(l);
      Hex4Reads(h);
      Hex4Reads(l);
    }
  }

  function Escape(s: string): (r: string)
    ensures forall i :: 0 <= i < |r| ==> Printable(r[i])
    decreases |s|
  {
    if s == [] then "" else EscapeChar(s[0]) + Escape(s[1..])
  }

  /** A JSON string literal. */
  function Quote(s: string): (r: string)
    ensures forall i :: 0 <= i < |r| ==> Printable(r[i])
  {
    "\"" + Escape(s) + "\""
  }

  function Items(xs: seq<string>): (r: string)
    ensures forall i :: 0 <= i < |r| ==> Printable(r[i])
    decreases |xs|
  {
    if xs == [] then ""
    else if |xs| == 1 then Quote(xs[0])
    else Quote(xs[0]) + ", " + Items(xs[1..])
  }

  /** json.dumps(list_of_strings): the text is pure printable ASCII. */
  function Dumps(xs: seq<string>): (r: string)
    ensures forall i :: 0 <= i < |r| ==> Printable(r[i])
  {
    "[" + Items(xs) + "]"
  }

  /** A text that json.dumps wrote for some list of strings. */
  ghost predicate IsDumps(t: string) {
    exists xs :: t == Dumps(xs)
  }

  /** The column default "[]" is the serialisation of the empty list. */
  lemma EmptyListIsDumps()
    ensures Dumps([]) == "[]" && IsDumps("[]")
  {
    assert Dumps([]) == "[]";
  }

  /** json_load (backend/app.py): the decoded list, or [] for anything else. */
  function JsonLoad(loads: string -> Option<seq<string>>, s: string): seq<string> {
    loads(s).GetOr([])
  }

  /** What json.loads is taken to satisfy: it reads back what json.dumps
      writes. */
  ghost predicate ReadsDumps(loads: string -> Option<seq<string>>) {
    forall xs :: loads(Dumps(xs)) == Some(xs)
  }

  /** The `tags` column written by upload_file: the form field, "[]" when it
      is absent or empty, re-serialised when it decodes to a list and "[]"
      otherwise. */
  function NormalizeTags(loads: string -> Option<seq<string>>, tags: Option<string>): string {
    var tagStr := if Given(tags) then tags.value else "[]";
    match loads(tagStr)
    case Some(t) => Dumps(t)
    case None => "[]"
  }

  /** The stored text is always the serialisation of what json_load reads
      from the input, so it is never anything but a JSON list. */
  lemma NormalizedIsDumps(loads: string -> Option<seq<string>>, tags: Option<string>)
    ensures NormalizeTags(loads, tags)
         == Dumps(JsonLoad(loads, if Given(tags) then tags.value else "[]"))
  {
    assert Items([]) == "";
  }

  lemma NormalizedTagsSerialised(loads: string -> Option<seq<string>>, tags: Option<string>)
    ensures IsDumps(NormalizeTags(loads, tags))
  {
    NormalizedIsDumps(loads, tags);
  }

  /** Absent or empty input stores "[]". */
  lemma AbsentTagsStoreEmptyList(loads: string -> Option<seq<string>>, tags: Option<string>)
    requires loads("[]") == Some([])
    requires !Given(tags)
    ensures NormalizeTags(loads, tags) == "[]"
  {
    assert Items([]) == "";
  }

  /** Input that is not JSON or not a list stores "[]". */
  lemma InvalidTagsStoreEmptyList(loads: string -> Option<seq<string>>, tags: Option<string>)
    requires Given(tags) && loads(tags.value) == None
    ensures NormalizeTags(loads, tags) == "[]"
  {
  }

  /** The record view reads back exactly the list the upload decoded, and
      normalising stored tags again changes nothing. */
  lemma NormalizeRoundTrip(loads: string -> Option<seq<string>>, tags: Option<string>)
    requires ReadsDumps(loads)
    ensures JsonLoad(loads, NormalizeTags(loads, tags))
         == JsonLoad(loads, if Given(tags) then tags.value else "[]")
    ensures NormalizeTags(loads, Some(NormalizeTags(loads, tags))) == NormalizeTags(loads, tags)
  {
    var xs := JsonLoad(loads, if Given(tags) then tags.value else "[]");
    NormalizedIsDumps(loads, tags);
    assert loads(Dumps(xs)) == Some(xs);
    assert Dumps(xs) != "";
  }

  // ---------------------------------------------------------------- tag filter

  /** The LIKE pattern of list_files: the tag between double quotes. */
  function TagPattern(tag: string): string {
    "\"" + tag + "\""
  }

  /** Characters json.dumps writes unescaped. */
  predicate Plain(s: string) {
    forall i :: 0 <= i < |s| ==> Printable(s[i]) && s[i] != '"' && s[i] != '\\'
  }

  lemma {:induction false} EscapePlain(s: string)
    requires Plain(s)
    ensures Escape(s) == s
    decreases |s|
  {
    if s != [] {
      EscapePlain(s[1..]);
      assert s == [s[0]] + s[1..];
    }
  }

  /** Every element's literal occurs in the item list. */
  lemma {:induction false} QuoteInItems(xs: seq<string>, k: nat)
    requires k < |xs|
    ensures Contains(Items(xs), Quote(xs[k]))
    decreases |xs|
  {
    var it := Items(xs);
    if k == 0 {
      assert Quote(xs[0]) <= it[0..];
    } else {
      QuoteInItems(xs[1..], k - 1);
      var pre := Quote(xs[0]) + ", ";
      assert it == pre + Items(xs[1..]);
      var i :| 0 <= i <= |Items(xs[1..])| && Quote(xs[k]) <= Items(xs[1..])[i..];
      assert it[|pre| + i..] == Items(xs[1..])[i..];
    }
  }

  /** A tag of plain characters that is in the list is found by the filter. */
  lemma PlainMemberMatches(xs: seq<string>, tag: string)
    requires Plain(tag) && tag in xs
    ensures Contains(Dumps(xs), TagPattern(tag))
  {
    var k :| 0 <= k < |xs| && xs[k] == tag;
    EscapePlain(tag);
    QuoteInItems(xs, k);
    var it := Items(xs);
    var i :| 0 <= i <= |it| && TagPattern(tag) <= it[i..];
    assert Dumps(xs)[1 + i..] == it[i..] + "]";
  }

  /** A tag with any character outside ' '..'~' (Cyrillic, accented letters,
      a tab) is never found, because the stored text holds only escapes. */
  lemma NonPrintableTagNeverMatches(xs: seq<string>, tag: string, k: nat)
    requires k < |tag| && !Printable(tag[k])
    ensures !Contains(Dumps(xs), TagPattern(tag))
  {
    var p := TagPattern(tag);
    assert p[k + 1] == tag[k];
    ContainsOnlyFrom(Dumps(xs), p, Printable, k + 1);
  }

  /** A tag holding a quote is not found even when it is in the list. */
  lemma QuotedMemberMisses()
    ensures "a\"b" in ["a\"b"] && !Contains(Dumps(["a\"b"]), TagPattern("a\"b"))
  {
    var d := Dumps(["a\"b"]);
    assert Escape("b") == "b";
    assert Escape("\"b") == "\\\"b";
    assert Escape("a\"b") == "a\\\"b";
    assert d == "[\"a\\\"b\"]";
    var p := TagPattern("a\"b");
    forall i | 0 <= i <= |d|
      ensures !(p <= d[i..])
    {
      if i + 5 <= |d| {
        assert d[i + 1] != 'a' || d[i + 2] != '"';
        assert d[i..][1] == d[i + 1] && d[i..][2] == d[i + 2];
        assert p[1] == 'a' && p[2] == '"';
      }
    }
  }

  /** Substring matching is not membership: a pattern can span two items. */
  lemma SpanningPatternMatches()
    ensures "a\", \"b" !in ["a", "b"] && Contains(Dumps(["a", "b"]), TagPattern("a\", \"b"))
  {
    assert Escape("a") == "a" && Escape("b") == "b";
    assert Dumps(["a", "b"]) == "[\"a\", \"b\"]";
    assert TagPattern("a\", \"b") <= Dumps(["a", "b"])[1..];
  }
}
