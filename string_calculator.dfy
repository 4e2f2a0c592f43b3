/**
 * The string calculator kata: `add(input)` sums the numbers of a delimited
 * string. An optional header `//<delimiter spec>\n` chooses the delimiters; the
 * default ones are `,` and `\n`. Negative numbers make it throw an Error that
 * lists them all; numbers above 1000 are left out of the sum.
 */
module StringCalculator {
  import opened Wrappers
  import opened JsString
  import opened JsRegExp
  import opened JsNumber

  /** How a call of `add` completes: it returns a number or throws an Error with a message. */
  datatype Completion = Returned(value: int) | Threw(message: string)

  const NEGATIVES_MESSAGE_PREFIX: string := "negatives not allowed: "
  const MAX_VALID_NUMBER: int := 1000

  /** The regular expression literal /,|\n/. */
  const DEFAULT_DELIMITERS: Regex := Alternation([",", "\n"])

  predicate IsEmpty(s: string) {
    |s| == 0
  }

  predicate IsValidNumber(n: int) {
    n <= MAX_VALID_NUMBER
  }

  predicate IsCustomDelimiter(input: string) {
    StartsWith(input, "//")
  }

  // ---------------------------------------------------------------------------
  // escapeRegex, and why the escaped delimiters match only their own text

  /** `s.replace(/[.*+?^${}()|[\]\\]/g, "\\$&")`: a backslash before every syntax character. */
  function EscapeRegex(s: string): string
  {
    if |s| == 0 then ""
    else (if IsSyntaxCharacter(s[0]) then ['\\', s[0]] else [s[0]]) + EscapeRegex(s[1..])
  }

  /** Each backslash dropped and the character after it kept as it is: how a pattern reads an escape. */
  function Unescape(t: string): string
    decreases |t|
  {
    if |t| == 0 then ""
    else if t[0] == '\\' && |t| >= 2 then [t[1]] + Unescape(t[2..])
    else [t[0]] + Unescape(t[1..])
  }

  /**
   * Reading the escapes back gives the original text: escapeRegex only puts a
   * backslash in front of characters, at most one each.
   */
  lemma {:induction false} EscapeRegexRoundTrip(s: string)
    ensures Unescape(EscapeRegex(s)) == s
    ensures |s| <= |EscapeRegex(s)| <= 2 * |s|
    decreases |s|
  {
    if |s| > 0 {
      var rest := EscapeRegex(s[1..]);
      var r := EscapeRegex(s);
      EscapeRegexRoundTrip(s[1..]);
      assert s == [s[0]] + s[1..];
      if IsSyntaxCharacter(s[0]) {
        assert r == ['\\', s[0]] + rest;
        assert r[2..] == rest;
      } else {
        assert s[0] != '\\';
        assert r == [s[0]] + rest;
        assert r[1..] == rest;
      }
    }
  }

  /** `delimiters.map(escapeRegex)` */
  function EscapeAll(delimiters: seq<string>): (r: seq<string>)
    ensures |r| == |delimiters|
  {
    if |delimiters| == 0 then [] else [EscapeRegex(delimiters[0])] + EscapeAll(delimiters[1..])
  }

  /** Text `t` put in front of the first alternative of a parse. */
  function PrependText(t: string, r: Option<seq<string>>): Option<seq<string>>
    requires r.Some? ==> |r.value| >= 1
  {
    match r
    case None => None
    case Some(alts) => Some([t + alts[0]] + alts[1..])
  }

  lemma {:induction false} ExtendPrepend(c: char, t: string, r: Option<seq<string>>)
    requires r.Some? ==> |r.value| >= 1
    ensures Extend(c, PrependText(t, r)) == PrependText([c] + t, r)
  {
    match r
    case None =>
    case Some(alts) => assert [c] + (t + alts[0]) == ([c] + t) + alts[0];
  }

  /** One character of escaped text: its escape parses as the character itself. */
  lemma {:induction false} EscapedCharParses(c: char, s: string, tail: string)
    requires |s| >= 1 && s[0] == c
    ensures ParseAlternatives(EscapeRegex(s) + tail) == Extend(c, ParseAlternatives(EscapeRegex(s[1..]) + tail))
  {
    var next := EscapeRegex(s[1..]) + tail;
    if IsSyntaxCharacter(c) {
      assert EscapeRegex(s) + tail == ['\\', c] + next;
      assert (['\\', c] + next)[2..] == next;
    } else {
      assert c != '|' && c != '\\';
      assert EscapeRegex(s) + tail == [c] + next;
      assert ([c] + next)[1..] == next;
    }
  }

  /** An escaped text parses as that very text, whatever follows it in the pattern source. */
  lemma {:induction false} EscapedTextParses(s: string, rest: string)
    ensures ParseAlternatives(EscapeRegex(s) + rest) == PrependText(s, ParseAlternatives(rest))
    decreases |s|
  {
    if |s| == 0 {
      assert EscapeRegex(s) + rest == rest;
      match ParseAlternatives(rest)
      case None =>
      case Some(alts) =>
        assert s + alts[0] == alts[0];
        assert [alts[0]] + alts[1..] == alts;
    } else {
      EscapedTextParses(s[1..], rest);
      EscapedCharParses(s[0], s, rest);
      ExtendPrepend(s[0], s[1..], ParseAlternatives(rest));
      assert [s[0]] + s[1..] == s;
    }
  }

  /** An escaped delimiter and a `|` in front of a parsed alternation add that delimiter as its first alternative. */
  lemma {:induction false} EscapedAlternativeParses(d: string, tail: string, rest: seq<string>)
    requires ParseAlternatives(tail) == Some(rest)
    ensures ParseAlternatives(EscapeRegex(d) + ("|" + tail)) == Some([d] + rest)
  {
    assert ("|" + tail)[1..] == tail;
    assert ParseAlternatives("|" + tail) == Some([""] + rest);
    EscapedTextParses(d, "|" + tail);
    assert ([""] + rest)[1..] == rest;
    assert d + "" == d;
  }

  /** A single escaped delimiter parses as that delimiter alone. */
  lemma {:induction false} EscapedSingleParses(d: string)
    ensures ParseAlternatives(Join(EscapeAll([d]), "|")) == Some([d])
  {
    assert [d][1..] == [];
    assert EscapeAll([d]) == [EscapeRegex(d)];
    assert Join(EscapeAll([d]), "|") == EscapeRegex(d) + "";
    EscapedTextParses(d, "");
    assert PrependText(d, Some([""])) == Some([d]) by {
      assert d + "" == d && [""][1..] == [];
      assert [d + [""][0]] + [""][1..] == [d];
    }
  }

  lemma {:induction false} EscapedAlternationParses(delimiters: seq<string>)
    requires |delimiters| >= 1
    ensures ParseAlternatives(Join(EscapeAll(delimiters), "|")) == Some(delimiters)
    decreases |delimiters|
  {
    var d := delimiters[0];
    if |delimiters| == 1 {
      EscapedSingleParses(d);
      assert [d] == delimiters;
    } else {
      var escaped := EscapeAll(delimiters[1..]);
      EscapedAlternationParses(delimiters[1..]);
      assert EscapeAll(delimiters) == [EscapeRegex(d)] + escaped;
      JoinCons(EscapeRegex(d), escaped, "|");
      assert EscapeRegex(d) + "|" + Join(escaped, "|") == EscapeRegex(d) + ("|" + Join(escaped, "|"));
      EscapedAlternativeParses(d, Join(escaped, "|"), delimiters[1..]);
      assert [d] + delimiters[1..] == delimiters;
    }
  }

  /**
   * `new RegExp(delimiters.map(escapeRegex).join("|"))` is the alternation of the
   * delimiters' literal texts, in order; with no delimiter it is the empty pattern.
   */
  lemma {:induction false} CompileEscapedAlternation(delimiters: seq<string>)
    ensures Compile(Join(EscapeAll(delimiters), "|"))
            == Some(Alternation(if |delimiters| == 0 then [""] else delimiters))
  {
    if |delimiters| > 0 {
      EscapedAlternationParses(delimiters);
    }
  }

  /** `new RegExp(escapeRegex(d))` matches the literal text `d` and nothing else. */
  lemma {:induction false} CompileEscaped(d: string)
    ensures Compile(EscapeRegex(d)) == Some(Alternation([d]))
  {
    EscapedAlternationParses([d]);
    assert Join(EscapeAll([d]), "|") == EscapeRegex(d);
  }

  // ---------------------------------------------------------------------------
  // extractDelimiters

  /**
   * The matches of /\[([^\]]+)\]/g in `s`, left to right: `[`, one or more
   * characters other than `]`, then `]`; the scan resumes after each match.
   */
  function BracketMatches(s: string): (r: seq<string>)
    ensures forall i :: 0 <= i < |r| ==> IsBracketMatch(r[i])
    decreases |s|
  {
    if |s| < 2 then []
    else
      var close := IndexOf(s[1..], ']');
      if s[0] == '[' && close >= 1 then
        BracketMatchShape(s, close);
        [s[..close + 2]] + BracketMatches(s[close + 2..])
      else BracketMatches(s[1..])
  }

  /** A match of /\[([^\]]+)\]/: `[`, at least one character other than `]`, then `]`. */
  predicate IsBracketMatch(m: string) {
    |m| >= 3 && m[0] == '[' && m[|m| - 1] == ']' && ']' !in m[1..|m| - 1]
  }

  /** A `[` and the text up to the next `]`, which is not right after it, form one bracket match. */
  lemma {:induction false} BracketMatchShape(s: string, close: int)
    requires |s| >= 2 && s[0] == '[' && 1 <= close && close == IndexOf(s[1..], ']')
    ensures IsBracketMatch(s[..close + 2])
  {
    var m := s[..close + 2];
    assert m[1..|m| - 1] == s[1..][..close];
    assert m[|m| - 1] == s[1..][close];
  }

  /** `matches.map(d => d.slice(1, -1))` */
  function Unbracket(matches: seq<string>): (r: seq<string>)
    ensures |r| == |matches|
    ensures forall i :: 0 <= i < |r| && |matches[i]| >= 2 ==> r[i] == matches[i][1..|matches[i]| - 1]
  {
    if |matches| == 0 then [] else [Slice(matches[0], 1, -1)] + Unbracket(matches[1..])
  }

  /**
   * `input.slice(2, input.indexOf("\n")).match(/\[([^\]]+)\]/g)`, each match
   * without its brackets; none when there is no match.
   */
  function ExtractDelimiters(input: string): (r: seq<string>)
    ensures forall i :: 0 <= i < |r| ==> |r[i]| > 0 && ']' !in r[i]
  {
    var matches := BracketMatches(Slice(input, 2, IndexOf(input, '\n')));
    Unbracket(matches)
  }

  /** A group `[d]` at the front is the first match, and the scan goes on right after it. */
  lemma {:induction false} BracketMatchesFront(d: string, rest: string)
    requires |d| > 0 && ']' !in d
    ensures BracketMatches("[" + d + "]" + rest) == ["[" + d + "]"] + BracketMatches(rest)
  {
    var s := "[" + d + "]" + rest;
    assert s[1..] == d + "]" + rest;
    IndexOfFirst(d, ']', rest);
    assert s[..|d| + 2] == "[" + d + "]";
    assert s[|d| + 2..] == rest;
  }

  /** Text without `[` starts no match: the scan passes over it. */
  lemma {:induction false} BracketMatchesSkip(j: string, rest: string)
    requires '[' !in j
    ensures BracketMatches(j + rest) == BracketMatches(rest)
    decreases |j|
  {
    var s := j + rest;
    if |s| < 2 {
      assert |rest| < 2;
    } else if |j| > 0 {
      assert s[0] == j[0] && s[0] != '[';
      assert BracketMatches(s) == BracketMatches(s[1..]);
      assert s[1..] == j[1..] + rest;
      assert '[' !in j[1..] by {
        forall k | 0 <= k < |j[1..]| ensures j[1..][k] != '[' {
          assert j[1..][k] == j[k + 1];
        }
      }
      BracketMatchesSkip(j[1..], rest);
    } else {
      assert s == rest;
    }
  }

  /** Unbracketing a group `[d]` in front gives `d` in front. */
  lemma {:induction false} UnbracketFront(d: string, matches: seq<string>)
    ensures Unbracket(["[" + d + "]"] + matches) == [d] + Unbracket(matches)
  {
    var ms := ["[" + d + "]"] + matches;
    assert ms[1..] == matches;
    assert ("[" + d + "]")[1..|d| + 1] == d;
  }

  /** Text without `[`, then a group `[d]`: that group is the next match. */
  lemma {:induction false} BracketMatchesGroup(j: string, d: string, rest: string)
    requires '[' !in j && |d| > 0 && ']' !in d
    ensures BracketMatches(j + "[" + d + "]" + rest) == ["[" + d + "]"] + BracketMatches(rest)
  {
    assert j + "[" + d + "]" + rest == j + ("[" + d + "]" + rest);
    BracketMatchesSkip(j, "[" + d + "]" + rest);
    BracketMatchesFront(d, rest);
  }

  /** `g0[d0]g1[d1]...gn`: the groups, with the gaps between them. */
  function Grouped(gaps: seq<string>, delimiters: seq<string>): string
    requires |gaps| == |delimiters| + 1
    decreases |delimiters|
  {
    if |delimiters| == 0 then gaps[0]
    else gaps[0] + "[" + delimiters[0] + "]" + Grouped(gaps[1..], delimiters[1..])
  }

  /**
   * Groups `[d]` of non-empty, `]`-free delimiters, with any text free of `[`
   * before, between and after them: the scan finds exactly those delimiters,
   * left to right.
   */
  lemma {:induction false} BracketMatchesOfGrouped(gaps: seq<string>, delimiters: seq<string>)
    requires |gaps| == |delimiters| + 1
    requires forall i :: 0 <= i < |gaps| ==> '[' !in gaps[i]
    requires forall i :: 0 <= i < |delimiters| ==> |delimiters[i]| > 0 && ']' !in delimiters[i]
    ensures Unbracket(BracketMatches(Grouped(gaps, delimiters))) == delimiters
    decreases |delimiters|
  {
    if |delimiters| == 0 {
      assert gaps[0] + "" == gaps[0];
      BracketMatchesSkip(gaps[0], "");
    } else {
      var d := delimiters[0];
      var rest := Grouped(gaps[1..], delimiters[1..]);
      BracketMatchesGroup(gaps[0], d, rest);
      BracketMatchesOfGrouped(gaps[1..], delimiters[1..]);
      UnbracketFront(d, BracketMatches(rest));
    }
  }

  /** `[d0][d1]...` */
  function Bracketed(delimiters: seq<string>): string
  {
    if |delimiters| == 0 then "" else "[" + delimiters[0] + "]" + Bracketed(delimiters[1..])
  }

  /** `[d0][d1]...` is the grouping with every gap empty. */
  lemma {:induction false} BracketedIsGrouped(delimiters: seq<string>)
    ensures Bracketed(delimiters) == Grouped(Repeat("", |delimiters| + 1), delimiters)
    decreases |delimiters|
  {
    var gaps := Repeat("", |delimiters| + 1);
    if |delimiters| == 0 {
      assert gaps[0] == "";
    } else {
      BracketedIsGrouped(delimiters[1..]);
      assert gaps[1..] == Repeat("", |delimiters|);
      assert gaps[0] + "[" + delimiters[0] + "]" == "[" + delimiters[0] + "]";
    }
  }

  /** The bracket matches of `[d0][d1]...` give back the delimiters, when none is empty or holds `]`. */
  lemma {:induction false} BracketMatchesOfBracketed(delimiters: seq<string>)
    requires forall i :: 0 <= i < |delimiters| ==> |delimiters[i]| > 0 && ']' !in delimiters[i]
    ensures Unbracket(BracketMatches(Bracketed(delimiters))) == delimiters
  {
    BracketedIsGrouped(delimiters);
    BracketMatchesOfGrouped(Repeat("", |delimiters| + 1), delimiters);
  }

  // ---------------------------------------------------------------------------
  // PATTERNS

  /**
   * What the three header patterns share: `^\/\/ BODY \n(.*)$`, where BODY only
   * ever matches text free of line terminators (`.` refuses them and `[`, `]`
   * are none). So the `\n` is the first line terminator at or after index 2,
   * and `(.*)$` (no `m` flag) must take everything after it, which then holds
   * no line terminator. Gives the text BODY has to match and the `(.*)` capture.
   */
  function HeaderAndRest(input: string): (r: Option<(string, string)>)
    ensures r.Some? ==> input == "//" + r.value.0 + "\n" + r.value.1
                        && NoLineTerminator(r.value.0) && NoLineTerminator(r.value.1)
  {
    if !StartsWith(input, "//") then None
    else
      var p := FirstLineTerminator(input, 2);
      if p < |input| && input[p] == '\n' && NoLineTerminator(input[p + 1..]) then
        assert input == input[..2] + input[2..p] + "\n" + input[p + 1..];
        Some((input[2..p], input[p + 1..]))
      else None
  }

  /** Every split of the input of that shape is the one HeaderAndRest finds. */
  lemma {:induction false} HeaderAndRestComplete(header: string, rest: string)
    requires NoLineTerminator(header) && NoLineTerminator(rest)
    ensures HeaderAndRest("//" + header + "\n" + rest) == Some((header, rest))
  {
    var input := "//" + header + "\n" + rest;
    assert input[2 + |header|] == '\n';
    assert input[2..2 + |header|] == header;
    FirstLineTerminatorAt(input, 2, 2 + |header|);
    assert input[3 + |header|..] == rest;
  }

  /**
   * `h` matches `(\[.+?\])+` in full: a group `[`, one or more characters, `]`,
   * followed by further groups or by the end.
   */
  predicate BracketGroups(h: string)
    decreases |h|
  {
    && |h| >= 3 && h[0] == '['
    && exists k :: 2 <= k < |h| && h[k] == ']' && (k == |h| - 1 || BracketGroups(h[k + 1..]))
  }

  /** The body of `\[(.+)\]`: one bracket pair around at least one character. */
  predicate OneBracketGroup(h: string) {
    |h| >= 3 && h[0] == '[' && h[|h| - 1] == ']'
  }

  /** Any sequence of lazy groups is one bracket pair around its inside, and conversely. */
  lemma {:induction false} BracketGroupsIsOneGroup(h: string)
    ensures BracketGroups(h) <==> OneBracketGroup(h)
    decreases |h|
  {
    if OneBracketGroup(h) {
      var k := |h| - 1;
      assert 2 <= k < |h| && h[k] == ']' && k == |h| - 1;
    }
    if BracketGroups(h) {
      var k :| 2 <= k < |h| && h[k] == ']' && (k == |h| - 1 || BracketGroups(h[k + 1..]));
      if k < |h| - 1 {
        BracketGroupsIsOneGroup(h[k + 1..]);
        assert h[k + 1..][|h| - k - 2] == h[|h| - 1];
      }
    }
  }

  /** PATTERNS.MULTIPLE_DELIMITERS = /^\/\/(\[.+?\])+\n(.*)$/; the `(.*)` capture. */
  function MatchMultipleDelimiters(input: string): (r: Option<string>)
    ensures r.Some? ==> HeaderAndRest(input).Some?
    ensures r.Some? ==>
      var h := HeaderAndRest(input).value.0;
      input == "//" + h + "\n" + r.value && BracketGroups(h) && NoLineTerminator(h) && NoLineTerminator(r.value)
  {
    match HeaderAndRest(input)
    case None => None
    case Some((h, rest)) => if BracketGroups(h) then Some(rest) else None
  }

  /** PATTERNS.BRACKET_DELIMITER = /^\/\/\[(.+)\]\n(.*)$/; the `(.+)` and `(.*)` captures. */
  function MatchBracketDelimiter(input: string): (r: Option<(string, string)>)
    ensures r.Some? ==>
      input == "//[" + r.value.0 + "]\n" + r.value.1 && |r.value.0| >= 1
      && NoLineTerminator(r.value.0) && NoLineTerminator(r.value.1)
  {
    match HeaderAndRest(input)
    case None => None
    case Some((h, rest)) => if OneBracketGroup(h) then Some((h[1..|h| - 1], rest)) else None
  }

  /** PATTERNS.SIMPLE_DELIMITER = /^\/\/(.)\n(.*)$/; the `(.)` and `(.*)` captures. */
  function MatchSimpleDelimiter(input: string): (r: Option<(char, string)>)
    ensures r.Some? ==>
      input == "//" + [r.value.0] + "\n" + r.value.1 && IsCodeUnit(r.value.0)
      && !IsLineTerminator(r.value.0) && NoLineTerminator(r.value.1)
  {
    match HeaderAndRest(input)
    case None => None
    case Some((h, rest)) => if |h| == 1 && IsCodeUnit(h[0]) then Some((h[0], rest)) else None
  }

  /**
   * The single-bracket pattern accepts exactly what the multi-bracket one does,
   * so parseDelimiterPattern, which tries the multi-bracket one first, never
   * reaches handleBracketDelimiter.
   */
  lemma {:induction false} BracketPatternSubsumed(input: string)
    ensures MatchBracketDelimiter(input).Some? ==> MatchMultipleDelimiters(input).Some?
    ensures MatchMultipleDelimiters(input).Some? ==> MatchBracketDelimiter(input).Some?
  {
    match HeaderAndRest(input)
    case None =>
    case Some((h, rest)) => BracketGroupsIsOneGroup(h);
  }

  // ---------------------------------------------------------------------------
  // The three handlers and parseDelimiterPattern

  /** When a header matched, `input.indexOf("\n")` is where the header ends. */
  lemma {:induction false} ExtractDelimitersOfHeader(input: string)
    requires HeaderAndRest(input).Some?
    ensures ExtractDelimiters(input) == Unbracket(BracketMatches(HeaderAndRest(input).value.0))
  {
    var (h, rest) := HeaderAndRest(input).value;
    IndexOfFirst("//" + h, '\n', rest);
    assert "//" + h + "\n" + rest == ("//" + h) + ['\n'] + rest;
    assert input[2..|h| + 2] == h;
  }

  function HandleMultipleDelimiters(input: string): (r: (Regex, string))
    requires MatchMultipleDelimiters(input).Some?
    ensures r.1 == MatchMultipleDelimiters(input).value
    ensures var ds := ExtractDelimiters(input);
            r.0 == Alternation(if |ds| == 0 then [""] else ds)
  {
    var rest := MatchMultipleDelimiters(input).value;
    var delimiters := ExtractDelimiters(input);
    var source := Join(EscapeAll(delimiters), "|");
    CompileEscapedAlternation(delimiters);
    (Compile(source).value, rest)
  }

  function HandleBracketDelimiter(input: string): (r: (Regex, string))
    requires MatchBracketDelimiter(input).Some?
    ensures r == (Alternation([MatchBracketDelimiter(input).value.0]), MatchBracketDelimiter(input).value.1)
  {
    var (delimiter, rest) := MatchBracketDelimiter(input).value;
    CompileEscaped(delimiter);
    (Compile(EscapeRegex(delimiter)).value, rest)
  }

  function HandleSimpleDelimiter(input: string): (r: (Regex, string))
    requires MatchSimpleDelimiter(input).Some?
    ensures r == (Alternation([[MatchSimpleDelimiter(input).value.0]]), MatchSimpleDelimiter(input).value.1)
  {
    var (delimiter, rest) := MatchSimpleDelimiter(input).value;
    CompileEscaped([delimiter]);
    (Compile(EscapeRegex([delimiter])).value, rest)
  }

  /**
   * The header forms in order: multi-bracket, single bracket, one character;
   * else the defaults. A one-character header is never a bracket header, so
   * only the multi-bracket form is tried before it.
   */
  function ParseDelimiterPattern(input: string): (r: (Regex, string))
    ensures MatchMultipleDelimiters(input).Some? ==>
      var ds := ExtractDelimiters(input);
      r == (Alternation(if |ds| == 0 then [""] else ds), MatchMultipleDelimiters(input).value)
    ensures MatchMultipleDelimiters(input).None? && MatchBracketDelimiter(input).Some? ==>
      r == (Alternation([MatchBracketDelimiter(input).value.0]), MatchBracketDelimiter(input).value.1)
    ensures MatchMultipleDelimiters(input).None? && MatchSimpleDelimiter(input).Some? ==>
      r == (Alternation([[MatchSimpleDelimiter(input).value.0]]), MatchSimpleDelimiter(input).value.1)
    ensures MatchMultipleDelimiters(input).None? && MatchBracketDelimiter(input).None? &&
            MatchSimpleDelimiter(input).None? ==>
      r == (DEFAULT_DELIMITERS, input)
  {
    if MatchMultipleDelimiters(input).Some? then HandleMultipleDelimiters(input)
    else if MatchBracketDelimiter(input).Some? then HandleBracketDelimiter(input)
    else if MatchSimpleDelimiter(input).Some? then HandleSimpleDelimiter(input)
    else (DEFAULT_DELIMITERS, input)
  }

  /**
   * Since the single-bracket form is never taken, parseDelimiterPattern has
   * three outcomes: the multi-bracket delimiters, the one character, or the
   * defaults on the whole input.
   */
  lemma {:induction false} ParseDelimiterPatternCases(input: string)
    ensures MatchMultipleDelimiters(input).None? && MatchSimpleDelimiter(input).None? ==>
      ParseDelimiterPattern(input) == (DEFAULT_DELIMITERS, input)
  {
    BracketPatternSubsumed(input);
  }

  // ---------------------------------------------------------------------------
  // parseNumbers, validateNumbers, sumValidNumbers, add

  /** `tokens.map(Number)` */
  function ToNumbers(tokens: seq<string>): (r: seq<Option<int>>)
    ensures |r| == |tokens| && forall i :: 0 <= i < |r| ==> r[i] == ToNumber(tokens[i])
  {
    seq(|tokens|, i requires 0 <= i < |tokens| => ToNumber(tokens[i]))
  }

  /** `.filter(n => !isNaN(n))` */
  function DropNaN(xs: seq<Option<int>>): (r: seq<int>)
    ensures |r| <= |xs|
  {
    if |xs| == 0 then []
    else match xs[0]
      case None => DropNaN(xs[1..])
      case Some(n) => [n] + DropNaN(xs[1..])
  }

  /** The numbers kept are exactly those present, as `Some`, among the conversions. */
  lemma {:induction false} DropNaNMembers(xs: seq<Option<int>>)
    ensures forall n :: n in DropNaN(xs) <==> Some(n) in xs
    decreases |xs|
  {
    if |xs| > 0 {
      DropNaNMembers(xs[1..]);
      assert xs == [xs[0]] + xs[1..];
    }
  }

  /** `input.split(pattern).map(Number).filter(n => !isNaN(n))` */
  function ParseNumbers(input: string, pattern: Regex): (r: seq<int>)
    ensures var pieces := Split(input, pattern);
      |r| <= |pieces| &&
      forall n :: n in r <==> exists k :: 0 <= k < |pieces| && ToNumber(pieces[k]) == Some(n)
  {
    DropNaNMembers(ToNumbers(Split(input, pattern)));
    DropNaN(ToNumbers(Split(input, pattern)))
  }

  /** `numbers.filter(n => n < 0)` */
  function Negatives(numbers: seq<int>): (r: seq<int>)
    ensures forall i :: 0 <= i < |r| ==> r[i] < 0
    ensures |r| == 0 <==> forall i :: 0 <= i < |numbers| ==> numbers[i] >= 0
  {
    if |numbers| == 0 then []
    else (if numbers[0] < 0 then [numbers[0]] else []) + Negatives(numbers[1..])
  }

  /** `numbers.map(String)` */
  function DecimalStrings(numbers: seq<int>): (r: seq<string>)
    ensures |r| == |numbers| && forall i :: 0 <= i < |r| ==> r[i] == ToDecimalString(numbers[i])
  {
    seq(|numbers|, i requires 0 <= i < |numbers| => ToDecimalString(numbers[i]))
  }

  /** `negatives not allowed: ${negativeNumbers.join(", ")}` */
  function NegativesMessage(negatives: seq<int>): string
  {
    NEGATIVES_MESSAGE_PREFIX + Join(DecimalStrings(negatives), ", ")
  }

  /** validateNumbers, with its `throw` as a failing outcome carrying the message. */
  function ValidateNumbers(numbers: seq<int>): (r: Outcome<string>)
    ensures r.Fail? <==> exists i :: 0 <= i < |numbers| && numbers[i] < 0
  {
    var negativeNumbers := Negatives(numbers);
    if |negativeNumbers| > 0 then Fail(NegativesMessage(negativeNumbers)) else Pass
  }

  /** `numbers.filter(isValidNumber)` */
  function ValidNumbers(numbers: seq<int>): (r: seq<int>)
    ensures forall i :: 0 <= i < |r| ==> IsValidNumber(r[i])
  {
    if |numbers| == 0 then []
    else (if IsValidNumber(numbers[0]) then [numbers[0]] else []) + ValidNumbers(numbers[1..])
  }

  /** `.reduce((sum, n) => sum + n, 0)` */
  function Sum(numbers: seq<int>): int
  {
    if |numbers| == 0 then 0 else numbers[0] + Sum(numbers[1..])
  }

  function SumValidNumbers(numbers: seq<int>): (r: int)
    ensures (forall i :: 0 <= i < |numbers| ==> numbers[i] >= 0) ==> 0 <= r <= MAX_VALID_NUMBER * |numbers|
  {
    SumValidBound(numbers);
    Sum(ValidNumbers(numbers))
  }

  lemma {:induction false} SumValidBound(numbers: seq<int>)
    ensures (forall i :: 0 <= i < |numbers| ==> numbers[i] >= 0) ==>
              0 <= Sum(ValidNumbers(numbers)) <= MAX_VALID_NUMBER * |numbers|
    decreases |numbers|
  {
    if |numbers| > 0 {
      SumValidBound(numbers[1..]);
      var head := if IsValidNumber(numbers[0]) then [numbers[0]] else [];
      SumAppend(head, ValidNumbers(numbers[1..]));
    }
  }

  lemma {:induction false} SumAppend(a: seq<int>, b: seq<int>)
    ensures Sum(a + b) == Sum(a) + Sum(b)
    decreases |a|
  {
    if |a| > 0 {
      assert (a + b)[1..] == a[1..] + b;
      SumAppend(a[1..], b);
    } else {
      assert a + b == b;
    }
  }

  /** The integers `add` reads from a non-empty input: header (if any) chosen, payload split and converted. */
  function ParsedNumbers(input: string): seq<int>
  {
    var (delimiterPattern, numbersPart) :=
      if IsCustomDelimiter(input) then ParseDelimiterPattern(input) else (DEFAULT_DELIMITERS, input);
    ParseNumbers(numbersPart, delimiterPattern)
  }

  /** `validateNumbers(numbers)`, then `sumValidNumbers(numbers)`: the answer for parsed numbers. */
  function Expected(numbers: seq<int>): Completion
  {
    match ValidateNumbers(numbers)
    case Fail(message) => Threw(message)
    case Pass => Returned(SumValidNumbers(numbers))
  }

  /** `add(input)` */
  function Add(input: string): (r: Completion)
    ensures IsEmpty(input) ==> r == Returned(0)
    ensures !IsEmpty(input) ==>
      (r.Threw? <==> exists i :: 0 <= i < |ParsedNumbers(input)| && ParsedNumbers(input)[i] < 0)
    ensures r.Threw? ==> r.message == NegativesMessage(Negatives(ParsedNumbers(input)))
    ensures r.Threw? ==> StartsWith(r.message, NEGATIVES_MESSAGE_PREFIX)
    ensures r.Returned? && !IsEmpty(input) ==> r.value == SumValidNumbers(ParsedNumbers(input))
    ensures r.Returned? ==> r.value >= 0
  {
    if IsEmpty(input) then Returned(0) else Expected(ParsedNumbers(input))
  }

  // ---------------------------------------------------------------------------
  // What parseNumbers, validateNumbers and sumValidNumbers promise

  lemma {:induction false} DropNaNAppend(xs: seq<Option<int>>, ys: seq<Option<int>>)
    ensures DropNaN(xs + ys) == DropNaN(xs) + DropNaN(ys)
    decreases |xs|
  {
    if |xs| == 0 {
      assert xs + ys == ys;
    } else {
      assert (xs + ys)[1..] == xs[1..] + ys;
      DropNaNAppend(xs[1..], ys);
    }
  }

  /**
   * Converting tokens keeps their order and drops exactly those that are `NaN`:
   * the conversion of a concatenation is the concatenation of the conversions,
   * and one token gives its number, or nothing when it is `NaN`.
   */
  lemma {:induction false} ConvertTokens(a: seq<string>, b: seq<string>, t: string)
    ensures DropNaN(ToNumbers(a + b)) == DropNaN(ToNumbers(a)) + DropNaN(ToNumbers(b))
    ensures DropNaN(ToNumbers([t])) == (match ToNumber(t) case None => [] case Some(n) => [n])
  {
    assert ToNumbers(a + b) == ToNumbers(a) + ToNumbers(b);
    DropNaNAppend(ToNumbers(a), ToNumbers(b));
    assert ToNumbers([t]) == [ToNumber(t)];
  }

  /** The texts of integers convert back to those integers, all of them, in order. */
  lemma {:induction false} ConvertDecimalStrings(numbers: seq<int>)
    ensures DropNaN(ToNumbers(DecimalStrings(numbers))) == numbers
    decreases |numbers|
  {
    if |numbers| > 0 {
      var tokens := DecimalStrings(numbers);
      assert tokens == [tokens[0]] + DecimalStrings(numbers[1..]);
      ConvertTokens([tokens[0]], DecimalStrings(numbers[1..]), tokens[0]);
      ToNumberOfDecimalString(numbers[0]);
      ConvertDecimalStrings(numbers[1..]);
    }
  }

  /** A single number is kept exactly when it is negative, and then as itself. */
  lemma {:induction false} NegativesOne(x: int)
    ensures Negatives([x]) == (if x < 0 then [x] else [])
  {
    assert [x][1..] == [];
  }

  /** The negatives of a concatenation are those of each part, in order. */
  lemma {:induction false} NegativesAppend(a: seq<int>, b: seq<int>)
    ensures Negatives(a + b) == Negatives(a) + Negatives(b)
    decreases |a|
  {
    if |a| == 0 {
      assert a + b == b;
    } else {
      assert (a + b)[1..] == a[1..] + b;
      NegativesAppend(a[1..], b);
    }
  }

  lemma {:induction false} ValidNumbersAppend(a: seq<int>, b: seq<int>)
    ensures ValidNumbers(a + b) == ValidNumbers(a) + ValidNumbers(b)
    decreases |a|
  {
    if |a| == 0 {
      assert a + b == b;
    } else {
      assert (a + b)[1..] == a[1..] + b;
      ValidNumbersAppend(a[1..], b);
    }
  }

  /** The bounded sum adds up over a concatenation. */
  lemma {:induction false} SumValidAppend(a: seq<int>, b: seq<int>)
    ensures SumValidNumbers(a + b) == SumValidNumbers(a) + SumValidNumbers(b)
  {
    ValidNumbersAppend(a, b);
    SumAppend(ValidNumbers(a), ValidNumbers(b));
  }

  /** A number above 1000 contributes nothing to the sum wherever it stands. */
  lemma {:induction false} AboveLimitIgnored(a: seq<int>, x: int, b: seq<int>)
    requires x > MAX_VALID_NUMBER
    ensures SumValidNumbers(a + [x] + b) == SumValidNumbers(a + b)
  {
    SumValidAppend(a + [x], b);
    SumValidAppend(a, [x]);
    SumValidAppend(a, b);
    assert ValidNumbers([x]) == [];
  }

  /** When every number is at most 1000, the bounded sum is the plain sum. */
  lemma {:induction false} SumValidOfValid(numbers: seq<int>)
    requires forall i :: 0 <= i < |numbers| ==> IsValidNumber(numbers[i])
    ensures SumValidNumbers(numbers) == Sum(numbers)
    decreases |numbers|
  {
    if |numbers| > 0 {
      SumValidOfValid(numbers[1..]);
      SumAppend([numbers[0]], ValidNumbers(numbers[1..]));
    }
  }

  /** Text that is only digits and minus signs. */
  predicate IsNumeral(t: string) {
    forall i :: 0 <= i < |t| ==> IsDigit(t[i]) || t[i] == '-'
  }

  lemma {:induction false} DecimalStringsAreNumerals(numbers: seq<int>)
    ensures forall i :: 0 <= i < |numbers| ==> IsNumeral(DecimalStrings(numbers)[i])
  {
  }

  /**
   * The error message lists every negative, in order: after the fixed prefix,
   * splitting on ", " and converting gives back exactly the negatives passed in.
   */
  lemma {:induction false} NegativesMessageLists(negatives: seq<int>)
    requires |negatives| >= 1
    ensures StartsWith(NegativesMessage(negatives), NEGATIVES_MESSAGE_PREFIX)
    ensures var body := NegativesMessage(negatives)[|NEGATIVES_MESSAGE_PREFIX|..];
            ParseNumbers(body, Alternation([", "])) == negatives
  {
    var pieces := DecimalStrings(negatives);
    var body := Join(pieces, ", ");
    assert NegativesMessage(negatives)[|NEGATIVES_MESSAGE_PREFIX|..] == body;
    JoinIsInterleave(pieces, ", ");
    DecimalStringsAreNumerals(negatives);
    forall i | 0 <= i < |pieces| ensures AvoidsHeads(pieces[i], [", "]) {
      assert IsNumeral(pieces[i]);
    }
    SplitOfInterleaved(pieces, Repeat(", ", |pieces| - 1), [", "]);
    ConvertDecimalStrings(negatives);
  }
}
