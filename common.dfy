/** Values shared by every part of the service: optional values, the HTTP
    failures the handlers raise, bytes, and the few Python string operations
    (str.strip, str.split, str(int), the `in` test on strings) the handlers use. */
module Common {

  datatype Option<+T> = None | Some(value: T) {
    function GetOr(default: T): T {
      match this
      case Some(v) => v
      case None => default
    }
  }

  /** An HTTPException: status code and detail text. */
  datatype Failure = Failure(status: int, detail: string)

  datatype Result<+T> = Ok(value: T) | Err(failure: Failure)

  newtype byte = b: int | 0 <= b < 256

  /** Python truthiness of an optional string: present and not empty. */
  predicate Given(s: Option<string>) {
    s.Some? && s.value != ""
  }

  // ---------------------------------------------------------------- whitespace

  /** Python's str.isspace on one character. */
  predicate IsSpace(c: char) {
    var n := c as int;
    n == 0x20 || 0x09 <= n <= 0x0D || 0x1C <= n <= 0x1F || n == 0x85 || n == 0xA0 ||
    n == 0x1680 || 0x2000 <= n <= 0x200A || n == 0x2028 || n == 0x2029 ||
    n == 0x202F || n == 0x205F || n == 0x3000
  }

  /** Drops the longest prefix whose characters all satisfy `drop`. */
  function TrimStart(s: string, drop: char -> bool): (r: string)
    ensures |r| <= |s| && r == s[|s| - |r|..]
    ensures forall i :: 0 <= i < |s| - |r| ==> drop(s[i])
    ensures r == [] || !drop(r[0])
    decreases |s|
  {
    if |s| > 0 && drop(s[0]) then TrimStart(s[1..], drop) else s
  }

  /** Drops the longest suffix whose characters all satisfy `drop`. */
  function TrimEnd(s: string, drop: char -> bool): (r: string)
    ensures |r| <= |s| && r == s[..|r|]
    ensures forall i :: |r| <= i < |s| ==> drop(s[i])
    ensures r == [] || !drop(r[|r| - 1])
    decreases |s|
  {
    if |s| > 0 && drop(s[|s| - 1]) then TrimEnd(s[..|s| - 1], drop) else s
  }

  /** `r` sits in `s` at offset `i`, and every character of `s` before or
      after it satisfies `drop`. */
  predicate Around(s: string, r: string, i: int, drop: char -> bool) {
    && 0 <= i && i + |r| <= |s| && r == s[i..i + |r|]
    && (forall k :: 0 <= k < i ==> drop(s[k]))
    && (forall k :: i + |r| <= k < |s| ==> drop(s[k]))
  }

  /** Neither end of the trimmed string satisfies `drop`. */
  lemma TrimBothEnds(s: string, drop: char -> bool)
    ensures var r := TrimEnd(TrimStart(s, drop), drop);
      r == [] || (!drop(r[0]) && !drop(r[|r| - 1]))
  {
    var t := TrimStart(s, drop);
    var r := TrimEnd(t, drop);
    if r != [] {
      assert r[0] == t[0];
    }
  }

  lemma AroundOfTrims(s: string, t: string, r: string, drop: char -> bool)
    requires |t| <= |s| && t == s[|s| - |t|..]
    requires forall k :: 0 <= k < |s| - |t| ==> drop(s[k])
    requires |r| <= |t| && r == t[..|r|]
    requires forall k :: |r| <= k < |t| ==> drop(t[k])
    ensures Around(s, r, |s| - |t|, drop)
  {
    var i := |s| - |t|;
    assert r == s[i..i + |r|];
    forall k | i + |r| <= k < |s|
      ensures drop(s[k])
    {
      assert s[k] == t[k - i];
    }
  }

  /** str.strip() with no argument: `s` without its leading and trailing
      white space. */
  function Strip(s: string): (r: string)
    ensures r == [] || (!IsSpace(r[0]) && !IsSpace(r[|r| - 1]))
  {
    TrimBothEnds(s, IsSpace);
    TrimEnd(TrimStart(s, IsSpace), IsSpace)
  }

  /** What Strip removes: the result is a contiguous piece of `s`, and
      everything before and after it is white space. */
  lemma StripIsInfix(s: string)
    ensures exists i :: Around(s, Strip(s), i, IsSpace)
  {
    var t := TrimStart(s, IsSpace);
    var r := TrimEnd(t, IsSpace);
    assert Around(s, r, |s| - |t|, IsSpace) by {
      AroundOfTrims(s, t, r, IsSpace);
    }
    assert r == Strip(s);
  }

  lemma {:induction false} TrimStartKeeps(s: string, drop: char -> bool)
    requires s == [] || !drop(s[0])
    ensures TrimStart(s, drop) == s
  {
  }

  lemma {:induction false} TrimEndKeeps(s: string, drop: char -> bool)
    requires s == [] || !drop(s[|s| - 1])
    ensures TrimEnd(s, drop) == s
  {
  }

  // ---------------------------------------------------------------- substrings

  /** Python's `p in s` for strings: p occurs somewhere in s. */
  predicate Contains(s: string, p: string) {
    exists i | 0 <= i <= |s| :: p <= s[i..]
  }

  /** The one-step unfolding of Contains that the proofs use. */
  lemma ContainsUnfold(s: string, p: string)
    ensures Contains(s, p) <==> (p <= s || (|s| > 0 && Contains(s[1..], p)))
  {
    if Contains(s, p) && !(p <= s) {
      var i :| 0 <= i <= |s| && p <= s[i..];
      assert i > 0;
      assert s[1..][i - 1..] == s[i..];
    }
    if |s| > 0 && Contains(s[1..], p) {
      var i :| 0 <= i <= |s[1..]| && p <= s[1..][i..];
      assert s[1..][i..] == s[i + 1..];
    }
    if p <= s {
      assert s[0..] == s;
    }
  }

  /** A string made only of characters from a set never contains one that
      has a character outside it. */
  lemma ContainsOnlyFrom(s: string, p: string, ok: char -> bool, k: nat)
    requires forall i :: 0 <= i < |s| ==> ok(s[i])
    requires k < |p| && !ok(p[k])
    ensures !Contains(s, p)
  {
    forall i | 0 <= i <= |s|
      ensures !(p <= s[i..])
    {
      if i + k < |s| {
        assert s[i..][k] == s[i + k];
      }
    }
  }

  // ---------------------------------------------------------------- str(int)

  predicate IsDigit(c: char) {
    '0' as int <= c as int <= '9' as int
  }

  function DigitChar(d: nat): (c: char)
    requires d < 10
    ensures IsDigit(c) && c as int - '0' as int == d
  {
    ('0' as int + d) as char
  }

  /** Python's str(n) for a non-negative int: decimal, no leading zeros. */
  function Decimal(n: nat): (r: string)
    ensures |r| > 0
    ensures forall i :: 0 <= i < |r| ==> IsDigit(r[i])
    decreases n
  {
    if n < 10 then [DigitChar(n)] else Decimal(n / 10) + [DigitChar(n % 10)]
  }

  /** Reads a string of decimal digits back as a number. */
  function DigitsValue(s: string): nat
    requires forall i :: 0 <= i < |s| ==> IsDigit(s[i])
    decreases |s|
  {
    if s == [] then 0
    else
      assert IsDigit(s[|s| - 1]);
      DigitsValue(s[..|s| - 1]) * 10 + (s[|s| - 1] as int - '0' as int)
  }

  lemma {:induction false} DecimalReadsBack(n: nat)
    ensures DigitsValue(Decimal(n)) == n
    decreases n
  {
    if n >= 10 {
      var d := Decimal(n);
      assert d[..|d| - 1] == Decimal(n / 10);
      DecimalReadsBack(n / 10);
    }
  }

  lemma DecimalInjective(a: nat, b: nat)
    requires Decimal(a) == Decimal(b)
    ensures a == b
  {
    DecimalReadsBack(a);
    DecimalReadsBack(b);
  }

  /** Two different numbers written in front of the same non-digit separator
      give different strings, whatever follows: neither can be read as the
      other, even when one decimal is a prefix of the other. */
  lemma DecimalsDiverge(a: nat, b: nat, sep: char, x: string, y: string)
    requires a != b && !IsDigit(sep)
    ensures Decimal(a) + [sep] + x != Decimal(b) + [sep] + y
  {
    var da, db := Decimal(a), Decimal(b);
    var u, v := da + [sep] + x, db + [sep] + y;
    if |da| == |db| {
      if da == db {
        DecimalInjective(a, b);
      }
      var i :| 0 <= i < |da| && da[i] != db[i];
      assert u[i] == da[i] && v[i] == db[i];
    } else if |da| < |db| {
      assert u[|da|] == sep && v[|da|] == db[|da|];
    } else {
      assert v[|db|] == sep && u[|db|] == da[|db|];
    }
  }

  // ---------------------------------------------------------------- str.split

  /** Python's s.split(sep) with a one-character separator: never empty,
      and an empty string splits into one empty piece. */
  function Split(s: string, sep: char): (r: seq<string>)
    ensures |r| >= 1
    ensures forall k :: 0 <= k < |r| ==> sep !in r[k]
    decreases |s|
  {
    if s == [] then [""]
    else if s[0] == sep then [""] + Split(s[1..], sep)
    else
      var rest := Split(s[1..], sep);
      [[s[0]] + rest[0]] + rest[1..]
  }

  /** sep.join(parts). */
  function Join(parts: seq<string>, sep: char): string
    decreases |parts|
  {
    if |parts| <= 1 then (if parts == [] then "" else parts[0])
    else parts[0] + [sep] + Join(parts[1..], sep)
  }

  /** Splitting loses nothing: joining the pieces gives the string back. */
  lemma {:induction false} JoinSplit(s: string, sep: char)
    ensures Join(Split(s, sep), sep) == s
    decreases |s|
  {
    if s != [] {
      JoinSplit(s[1..], sep);
      var rest := Split(s[1..], sep);
      if s[0] == sep {
        assert Split(s, sep)[1..] == rest;
      } else {
        var r := Split(s, sep);
        assert r[1..] == rest[1..];
        if |rest| > 1 {
          assert Join(rest, sep) == rest[0] + [sep] + Join(rest[1..], sep);
        }
      }
    }
  }
}
