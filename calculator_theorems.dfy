/**
 * What `add` computes on inputs built from a list of integers: the default
 * delimiters, a one-character header and a bracketed header all lead to the
 * same answer, decided by the integers alone. Then the kata's examples.
 */
module CalculatorTheorems {
  import opened Wrappers
  import opened JsString
  import opened JsRegExp
  import opened JsNumber
  import opened StringCalculator

  /** Once the numbers are parsed, `add` answers what Expected says. */
  lemma {:induction false} AddOfParsed(input: string, pattern: Regex, payload: string, numbers: seq<int>)
    requires !IsEmpty(input)
    requires (if IsCustomDelimiter(input) then ParseDelimiterPattern(input) else (DEFAULT_DELIMITERS, input))
             == (pattern, payload)
    requires ParseNumbers(payload, pattern) == numbers
    ensures Add(input) == Expected(numbers)
  {
  }

  /**
   * Without a header that the multi-bracket or the one-character pattern
   * accepts (the single-bracket one then accepts none either), the whole input,
   * any `//` included, is split on `,` and `\n`.
   */
  lemma {:induction false} AddFallsBack(input: string)
    requires !IsEmpty(input)
    requires MatchMultipleDelimiters(input).None? && MatchSimpleDelimiter(input).None?
    ensures ParseDelimiterPattern(input) == (DEFAULT_DELIMITERS, input)
    ensures Add(input) == Expected(ParseNumbers(input, DEFAULT_DELIMITERS))
  {
    BracketPatternSubsumed(input);
    AddOfParsed(input, DEFAULT_DELIMITERS, input, ParseNumbers(input, DEFAULT_DELIMITERS));
  }

  lemma {:induction false} InterleaveStartsWith(pieces: seq<string>, seps: seq<string>)
    requires |pieces| == |seps| + 1
    ensures pieces[0] <= Interleave(pieces, seps)
  {
    if |seps| > 0 {
      assert Interleave(pieces, seps) == pieces[0] + (seps[0] + Interleave(pieces[1..], seps[1..]));
    }
  }

  lemma {:induction false} InterleaveNoLineTerminator(pieces: seq<string>, seps: seq<string>)
    requires |pieces| == |seps| + 1
    requires forall i :: 0 <= i < |pieces| ==> NoLineTerminator(pieces[i])
    requires forall i :: 0 <= i < |seps| ==> NoLineTerminator(seps[i])
    ensures NoLineTerminator(Interleave(pieces, seps))
    decreases |seps|
  {
    if |seps| > 0 {
      InterleaveNoLineTerminator(pieces[1..], seps[1..]);
      var rest := Interleave(pieces[1..], seps[1..]);
      var t := pieces[0] + seps[0] + rest;
      forall i | 0 <= i < |t| ensures !IsLineTerminator(t[i]) {
        if i < |pieces[0]| {
          assert t[i] == pieces[0][i];
        } else if i < |pieces[0]| + |seps[0]| {
          assert t[i] == seps[0][i - |pieces[0]|];
        } else {
          assert t[i] == rest[i - |pieces[0]| - |seps[0]|];
        }
      }
    }
  }

  lemma {:induction false} NumeralsNoLineTerminator(numbers: seq<int>)
    ensures forall i :: 0 <= i < |numbers| ==> NoLineTerminator(DecimalStrings(numbers)[i])
  {
    DecimalStringsAreNumerals(numbers);
  }

  /**
   * Integers written out and joined by delimiters that begin with distinct
   * characters, none a digit or a minus sign, split and convert back to those
   * integers.
   */
  lemma {:induction false} ParseInterleavedNumerals(numbers: seq<int>, seps: seq<string>, alts: seq<string>)
    requires |numbers| == |seps| + 1
    requires DistinctHeads(alts)
    requires forall i :: 0 <= i < |alts| ==> !IsDigit(alts[i][0]) && alts[i][0] != '-'
    requires forall i :: 0 <= i < |seps| ==> seps[i] in alts
    ensures ParseNumbers(Interleave(DecimalStrings(numbers), seps), Alternation(alts)) == numbers
  {
    var pieces := DecimalStrings(numbers);
    DecimalStringsAreNumerals(numbers);
    forall i | 0 <= i < |pieces| ensures AvoidsHeads(pieces[i], alts) {
      assert IsNumeral(pieces[i]);
    }
    SplitOfInterleaved(pieces, seps, alts);
    ConvertDecimalStrings(numbers);
  }

  /** Text that begins with a numeral is not empty and has no header. */
  lemma {:induction false} NumeralFirst(numbers: seq<int>, seps: seq<string>)
    requires |numbers| == |seps| + 1
    ensures var input := Interleave(DecimalStrings(numbers), seps);
            !IsEmpty(input) && !IsCustomDelimiter(input)
  {
    var pieces := DecimalStrings(numbers);
    InterleaveStartsWith(pieces, seps);
    assert IsNumeral(pieces[0]) by { DecimalStringsAreNumerals(numbers); }
    assert Interleave(pieces, seps)[0] == pieces[0][0];
  }

  /** Each separator is one of the default delimiters. */
  predicate DefaultSeparators(seps: seq<string>) {
    forall i :: 0 <= i < |seps| ==> seps[i] == "," || seps[i] == "\n"
  }

  /**
   * Integers written out and separated by `,` or `\n` in any mix: `add` gives
   * their bounded sum, or rejects them listing the negatives.
   */
  lemma {:induction false} AddOfDefaultDelimited(numbers: seq<int>, seps: seq<string>)
    requires |numbers| == |seps| + 1
    requires DefaultSeparators(seps)
    ensures Add(Interleave(DecimalStrings(numbers), seps)) == Expected(numbers)
  {
    var input := Interleave(DecimalStrings(numbers), seps);
    NumeralFirst(numbers, seps);
    DefaultNumbers(numbers, seps);
    AddOfParsed(input, DEFAULT_DELIMITERS, input, numbers);
  }

  /** Integers written out and joined by commas: `add` gives the answer for those integers. */
  lemma {:induction false} AddOfCommaSeparated(numbers: seq<int>)
    requires |numbers| >= 1
    ensures Add(Join(DecimalStrings(numbers), ",")) == Expected(numbers)
  {
    var pieces := DecimalStrings(numbers);
    JoinIsInterleave(pieces, ",");
    AddOfDefaultDelimited(numbers, Repeat(",", |pieces| - 1));
  }

  lemma {:induction false} DefaultNumbers(numbers: seq<int>, seps: seq<string>)
    requires |numbers| == |seps| + 1
    requires DefaultSeparators(seps)
    ensures ParseNumbers(Interleave(DecimalStrings(numbers), seps), DEFAULT_DELIMITERS) == numbers
  {
    var alts := DEFAULT_DELIMITERS.alternatives;
    assert alts == [",", "\n"];
    assert DistinctHeads(alts);
    forall i | 0 <= i < |seps| ensures seps[i] in alts {
    }
    ParseInterleavedNumerals(numbers, seps, alts);
  }

  /**
   * `//c\n` followed by integers joined with `c`, for a one-code-unit character
   * `c` that is not part of a numeral and not a line terminator: `add` gives
   * the answer for those integers.
   */
  lemma {:induction false} AddOfSimpleHeader(c: char, numbers: seq<int>)
    requires !IsLineTerminator(c) && !IsDigit(c) && c != '-' && IsCodeUnit(c)
    requires |numbers| >= 1
    ensures Add("//" + [c] + "\n" + Join(DecimalStrings(numbers), [c])) == Expected(numbers)
  {
    var pieces := DecimalStrings(numbers);
    var seps := Repeat([c], |pieces| - 1);
    var payload := Join(pieces, [c]);
    var input := "//" + [c] + "\n" + payload;
    JoinIsInterleave(pieces, [c]);
    NumeralsNoLineTerminator(numbers);
    InterleaveNoLineTerminator(pieces, seps);
    SimpleHeaderPattern(input, c, payload);
    forall i | 0 <= i < |seps| ensures seps[i] in [[c]] {
    }
    ParseInterleavedNumerals(numbers, seps, [[c]]);
    AddOfParsed(input, Alternation([[c]]), payload, numbers);
  }

  /** `//c\n` before a payload without line terminators selects the one-character delimiter `c`. */
  lemma {:induction false} SimpleHeaderPattern(input: string, c: char, payload: string)
    requires input == "//" + [c] + "\n" + payload
    requires !IsLineTerminator(c) && IsCodeUnit(c) && NoLineTerminator(payload)
    ensures IsCustomDelimiter(input)
    ensures ParseDelimiterPattern(input) == (Alternation([[c]]), payload)
  {
    HeaderAndRestComplete([c], payload);
    assert input[..2] == "//";
    assert MatchSimpleDelimiter(input) == Some((c, payload));
  }

  /**
   * A character above U+FFFF is two code units, which `(.)` cannot take as one:
   * such a header is not a header, and the whole input is split on `,` and `\n`.
   */
  lemma {:induction false} AstralHeaderFallsBack(input: string, c: char, payload: string)
    requires input == "//" + [c] + "\n" + payload
    requires !IsCodeUnit(c) && NoLineTerminator(payload)
    ensures ParseDelimiterPattern(input) == (DEFAULT_DELIMITERS, input)
    ensures Add(input) == Expected(ParseNumbers(input, DEFAULT_DELIMITERS))
  {
    HeaderAndRestComplete([c], payload);
    assert input[..2] == "//";
    assert HeaderAndRest(input) == Some(([c], payload));
    BracketGroupsIsOneGroup([c]);
    AddFallsBack(input);
  }

  lemma {:induction false} BracketedShape(delimiters: seq<string>)
    requires |delimiters| >= 1
    requires forall i :: 0 <= i < |delimiters| ==> |delimiters[i]| > 0 && NoLineTerminator(delimiters[i])
    ensures OneBracketGroup(Bracketed(delimiters))
    ensures NoLineTerminator(Bracketed(delimiters))
    decreases |delimiters|
  {
    var d := delimiters[0];
    var rest := Bracketed(delimiters[1..]);
    var h := Bracketed(delimiters);
    assert h == "[" + d + "]" + rest;
    if |delimiters| > 1 {
      BracketedShape(delimiters[1..]);
      assert h[|h| - 1] == rest[|rest| - 1];
    } else {
      assert rest == "";
    }
    forall i | 0 <= i < |h| ensures !IsLineTerminator(h[i]) {
      if 1 <= i < |d| + 1 {
        assert h[i] == d[i - 1];
      } else if i >= |d| + 2 {
        assert h[i] == rest[i - |d| - 2];
      }
    }
  }

  /**
   * Delimiters a bracket header can declare so that integers separated by them
   * read back: at least one, non-empty, free of `]` and of line terminators,
   * beginning with distinct characters, none of them a digit or a minus sign.
   */
  predicate UsableDelimiters(delimiters: seq<string>) {
    |delimiters| >= 1 && DistinctHeads(delimiters)
    && forall i :: 0 <= i < |delimiters| ==>
         ']' !in delimiters[i] && NoLineTerminator(delimiters[i])
         && !IsDigit(delimiters[i][0]) && delimiters[i][0] != '-'
  }

  predicate SeparatorsAmong(seps: seq<string>, delimiters: seq<string>) {
    forall i :: 0 <= i < |seps| ==> seps[i] in delimiters
  }

  /**
   * `//[d0][d1]...\n` followed by integers separated by any of those delimiters:
   * `add` gives the answer for those integers.
   */
  lemma {:induction false} AddOfBracketHeader(input: string, delimiters: seq<string>, numbers: seq<int>, seps: seq<string>)
    requires UsableDelimiters(delimiters)
    requires |numbers| == |seps| + 1 && SeparatorsAmong(seps, delimiters)
    requires input == "//" + Bracketed(delimiters) + "\n" + Interleave(DecimalStrings(numbers), seps)
    ensures Add(input) == Expected(numbers)
  {
    var pieces := DecimalStrings(numbers);
    var header := Bracketed(delimiters);
    var payload := Interleave(pieces, seps);
    BracketedShape(delimiters);
    NumeralsNoLineTerminator(numbers);
    forall i | 0 <= i < |seps| ensures NoLineTerminator(seps[i]) {
      var j :| 0 <= j < |delimiters| && delimiters[j] == seps[i];
    }
    InterleaveNoLineTerminator(pieces, seps);
    HeaderAndRestComplete(header, payload);
    assert input[..2] == "//";
    BracketGroupsIsOneGroup(header);
    assert MatchMultipleDelimiters(input) == Some(payload);
    ExtractDelimitersOfHeader(input);
    BracketMatchesOfBracketed(delimiters);
    assert ParseDelimiterPattern(input) == (Alternation(delimiters), payload);
    ParseInterleavedNumerals(numbers, seps, delimiters);
    AddOfParsed(input, Alternation(delimiters), payload, numbers);
  }

  /**
   * A header followed by a payload that itself holds a line terminator matches
   * none of the three patterns (their `.` stops at line terminators and `$` is
   * not multi-line), so the whole input, header included, is split on the defaults.
   */
  lemma {:induction false} HeaderWithBrokenPayload(input: string, h: string, rest: string)
    requires input == "//" + h + "\n" + rest
    requires NoLineTerminator(h) && !NoLineTerminator(rest)
    ensures ParseDelimiterPattern(input) == (DEFAULT_DELIMITERS, input)
    ensures Add(input) == Expected(ParseNumbers(input, DEFAULT_DELIMITERS))
  {
    assert input[2 + |h|] == '\n';
    assert input[2..2 + |h|] == h;
    FirstLineTerminatorAt(input, 2, 2 + |h|);
    assert input[3 + |h|..] == rest;
    assert HeaderAndRest(input) == None;
    AddOfParsed(input, DEFAULT_DELIMITERS, input, ParseNumbers(input, DEFAULT_DELIMITERS));
  }

  /**
   * A bracket header in which no `[...]` group has a `]`-free inside gives
   * `new RegExp("")`, and the payload is read one character at a time.
   */
  lemma {:induction false} EmptyDelimiterHeader(input: string, h: string, payload: string)
    requires input == "//" + h + "\n" + payload
    requires NoLineTerminator(h) && NoLineTerminator(payload)
    requires OneBracketGroup(h) && BracketMatches(h) == []
    ensures ParseDelimiterPattern(input) == (Alternation([""]), payload)
    ensures Add(input) == Expected(DropNaN(ToNumbers(Characters(payload))))
  {
    HeaderAndRestComplete(h, payload);
    BracketGroupsIsOneGroup(h);
    assert MatchMultipleDelimiters(input) == Some(payload);
    ExtractDelimitersOfHeader(input);
    SplitIntoCharacters(payload);
    assert input[..2] == "//";
    AddOfParsed(input, Alternation([""]), payload, DropNaN(ToNumbers(Characters(payload))));
  }
}
