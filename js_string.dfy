/**
 * The JavaScript string built-ins the calculator relies on, over `seq<char>`:
 * `startsWith`, `indexOf`, `slice`,
 * `Array.prototype.join`, the whitespace trimming done by `Number(...)`, and the
 * line terminators that `.` in a regular expression refuses.
 *
 * A Dafny `char` is a Unicode scalar value, whereas a JavaScript string is a
 * sequence of UTF-16 code units: a character above U+FFFF is one `char` here
 * and a surrogate pair there, and a lone surrogate cannot be written at all.
 * `IsCodeUnit` picks out the characters that are one code unit in JavaScript too.
 */
module JsString {

  /** A character JavaScript stores as one UTF-16 code unit (the Basic Multilingual Plane). */
  predicate IsCodeUnit(c: char) {
    c <= '\U{FFFF}'
  }

  /** ECMAScript LineTerminator: LF, CR, LINE SEPARATOR and PARAGRAPH SEPARATOR. */
  predicate IsLineTerminator(c: char) {
    c == '\n' || c == '\r' || c == '\U{2028}' || c == '\U{2029}'
  }

  predicate NoLineTerminator(s: string) {
    forall i :: 0 <= i < |s| ==> !IsLineTerminator(s[i])
  }

  /** Unicode category Zs (space separators). */
  predicate IsSpaceSeparator(c: char) {
    || c == ' ' || c == '\U{00A0}' || c == '\U{1680}'
    || ('\U{2000}' <= c <= '\U{200A}')
    || c == '\U{202F}' || c == '\U{205F}' || c == '\U{3000}'
  }

  /** ECMAScript StrWhiteSpaceChar: WhiteSpace or LineTerminator. */
  predicate IsWhiteSpace(c: char) {
    || c == '\t' || c == '\U{000B}' || c == '\U{000C}' || c == '\U{FEFF}'
    || IsSpaceSeparator(c) || IsLineTerminator(c)
  }

  /** `s.startsWith(prefix)` */
  predicate StartsWith(s: string, prefix: string) {
    prefix <= s
  }

  /** Index of the first line terminator of `s` at or after `from`, or `|s|` when there is none. */
  function FirstLineTerminator(s: string, from: nat): (r: nat)
    requires from <= |s|
    ensures from <= r <= |s|
    ensures r < |s| ==> IsLineTerminator(s[r])
    ensures NoLineTerminator(s[from..r])
    decreases |s| - from
  {
    if from == |s| || IsLineTerminator(s[from]) then from else FirstLineTerminator(s, from + 1)
  }

  /** The first line terminator at or after `from` is the one at `m` when none comes before it. */
  lemma {:induction false} FirstLineTerminatorAt(s: string, from: nat, m: nat)
    requires from <= m < |s| && NoLineTerminator(s[from..m]) && IsLineTerminator(s[m])
    ensures FirstLineTerminator(s, from) == m
    decreases m - from
  {
    if from < m {
      assert s[from] == s[from..m][0];
      assert s[from + 1..m] == s[from..m][1..];
      FirstLineTerminatorAt(s, from + 1, m);
    }
  }

  /** `s.indexOf(c)` for a one-character needle: the first position of `c`, or -1. */
  function IndexOf(s: string, c: char): (r: int)
    ensures -1 <= r < |s|
    ensures r == -1 <==> c !in s
    ensures 0 <= r ==> s[r] == c && c !in s[..r]
  {
    if |s| == 0 then -1
    else if s[0] == c then 0
    else
      var k := IndexOf(s[1..], c);
      assert s[1..][..k + 1] == s[1..k + 2] by { if k >= 0 { assert k + 2 <= |s|; } }
      if k < 0 then -1 else k + 1
  }

  /** `indexOf` finds the first occurrence. */
  lemma {:induction false} IndexOfFirst(d: string, c: char, rest: string)
    requires c !in d
    ensures IndexOf(d + [c] + rest, c) == |d|
    decreases |d|
  {
    var t := d + [c] + rest;
    if |d| > 0 {
      assert d[0] != c;
      assert t[1..] == d[1..] + [c] + rest;
      IndexOfFirst(d[1..], c, rest);
    }
  }

  /** How `slice` reads a position: negative counts back from the end, and it is clamped to `[0, len]`. */
  function RelativeIndex(i: int, len: nat): (r: nat)
    ensures r <= len
  {
    if i < 0 then (if len + i < 0 then 0 else len + i) else (if i > len then len else i)
  }

  /** `s.slice(start, end)` */
  function Slice(s: string, start: int, end: int): (r: string)
    ensures |r| <= |s|
    ensures 0 <= start <= end <= |s| ==> r == s[start..end]
    ensures 0 <= start <= |s| + end <= |s| && end < 0 ==> r == s[start..|s| + end]
  {
    var from := RelativeIndex(start, |s|);
    var to := RelativeIndex(end, |s|);
    if from < to then s[from..to] else ""
  }

  /** `parts.join(sep)` */
  function Join(parts: seq<string>, sep: string): string
  {
    if |parts| == 0 then ""
    else if |parts| == 1 then parts[0]
    else parts[0] + sep + Join(parts[1..], sep)
  }

  /** Leading StrWhiteSpaceChar removed. */
  function TrimStart(s: string): (r: string)
    ensures |r| == 0 || !IsWhiteSpace(r[0])
    ensures |r| <= |s|
  {
    if |s| > 0 && IsWhiteSpace(s[0]) then TrimStart(s[1..]) else s
  }

  /** Trailing StrWhiteSpaceChar removed. */
  function TrimEnd(s: string): (r: string)
    ensures |r| == 0 || !IsWhiteSpace(r[|r| - 1])
    ensures |r| <= |s|
  {
    if |s| > 0 && IsWhiteSpace(s[|s| - 1]) then TrimEnd(s[..|s| - 1]) else s
  }

  /** StrWhiteSpace removed at both ends, as `Number(...)` does before it reads a numeral. */
  function Trim(s: string): (r: string)
    ensures |r| == 0 || (!IsWhiteSpace(r[0]) && !IsWhiteSpace(r[|r| - 1]))
    ensures exists i, j :: 0 <= i <= j <= |s| && r == s[i..j] && OnlyWhiteSpaceOutside(s, i, j)
  {
    var t := TrimStart(s);
    TrimEndDropsWhiteSpace(t);
    TrimSlice(s);
    TrimEnd(t)
  }

  /** Trimming both ends keeps a slice of `s` and cuts only whitespace around it. */
  lemma {:induction false} TrimSlice(s: string)
    ensures var r := TrimEnd(TrimStart(s));
      exists i, j :: 0 <= i <= j <= |s| && r == s[i..j] && OnlyWhiteSpaceOutside(s, i, j)
  {
    var t := TrimStart(s);
    TrimStartDropsWhiteSpace(s);
    TrimEndDropsWhiteSpace(t);
    var r := TrimEnd(t);
    var i := |s| - |t|;
    assert r == s[i..i + |r|];
    forall k | i + |r| <= k < |s| ensures IsWhiteSpace(s[k]) {
      assert s[k] == t[k - i];
    }
    assert OnlyWhiteSpaceOutside(s, i, i + |r|);
  }

  /** Every character of `s` before index `i` or from index `j` on is StrWhiteSpace. */
  predicate OnlyWhiteSpaceOutside(s: string, i: int, j: int) {
    forall k :: 0 <= k < |s| && (k < i || j <= k) ==> IsWhiteSpace(s[k])
  }

  /** A string already free of whitespace at its ends is left as it is. */
  lemma {:induction false} TrimUnchanged(s: string)
    requires |s| == 0 || (!IsWhiteSpace(s[0]) && !IsWhiteSpace(s[|s| - 1]))
    ensures Trim(s) == s
  {
  }

  /** TrimStart drops a run of whitespace from the front and keeps the rest. */
  lemma {:induction false} TrimStartDropsWhiteSpace(s: string)
    ensures var r := TrimStart(s);
            r == s[|s| - |r|..] && forall i :: 0 <= i < |s| - |r| ==> IsWhiteSpace(s[i])
    decreases |s|
  {
    if |s| > 0 && IsWhiteSpace(s[0]) {
      TrimStartDropsWhiteSpace(s[1..]);
    }
  }

  /** TrimEnd drops a run of whitespace from the back and keeps the rest. */
  lemma {:induction false} TrimEndDropsWhiteSpace(s: string)
    ensures var r := TrimEnd(s);
            r == s[..|r|] && forall i :: |r| <= i < |s| ==> IsWhiteSpace(s[i])
    decreases |s|
  {
    if |s| > 0 && IsWhiteSpace(s[|s| - 1]) {
      TrimEndDropsWhiteSpace(s[..|s| - 1]);
    }
  }
}
