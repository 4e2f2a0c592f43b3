/**
 * The kata's examples, and corner cases of the header patterns and of `Number`.
 * Each example is split in two: a lemma that works out the literal pieces, and
 * one that puts them through a general theorem.
 */
module CalculatorExamples {
  import opened Wrappers
  import opened JsString
  import opened JsRegExp
  import opened JsNumber
  import opened StringCalculator
  import opened CalculatorTheorems

  lemma {:induction false} OneDigitNumerals()
    ensures NatToString(1) == "1" && NatToString(2) == "2" && NatToString(3) == "3"
    ensures NatToString(4) == "4" && NatToString(5) == "5"
  {
  }

  // add("1") == 1, add("1,2") == 3

  lemma {:induction false} OneText()
    ensures Join(DecimalStrings([1]), ",") == "1"
  {
    OneDigitNumerals();
    assert DecimalStrings([1]) == ["1"];
  }

  lemma {:induction false} AddOne()
    ensures Add("1") == Returned(1)
  {
    OneText();
    assert Expected([1]) == Returned(1);
    AddOfCommaSeparated([1]);
  }

  lemma {:induction false} OneTwoText()
    ensures Join(DecimalStrings([1, 2]), ",") == "1,2"
  {
    OneDigitNumerals();
    assert DecimalStrings([1, 2]) == ["1", "2"];
  }

  lemma {:induction false} OneTwoSum()
    ensures Expected([1, 2]) == Returned(3)
  {
  }

  lemma {:induction false} AddOneTwo()
    ensures Add("1,2") == Returned(3)
  {
    OneTwoText();
    OneTwoSum();
    AddOfCommaSeparated([1, 2]);
  }

  // add("1,2,3") == 6, add("1,2,3,4") == 10, add("1,2,3,4,5") == 15

  lemma {:induction false} OneToThreeNumerals()
    ensures DecimalStrings([1, 2, 3]) == ["1", "2", "3"]
  {
    OneDigitNumerals();
  }

  lemma {:induction false} OneToThreeText()
    ensures Join(DecimalStrings([1, 2, 3]), ",") == "1,2,3"
  {
    OneToThreeNumerals();
  }

  lemma {:induction false} OneToThreeSum()
    ensures Expected([1, 2, 3]) == Returned(6)
  {
  }

  lemma {:induction false} AddOneToThree()
    ensures Add("1,2,3") == Returned(6)
  {
    OneToThreeText();
    OneToThreeSum();
    AddOfCommaSeparated([1, 2, 3]);
  }

  lemma {:induction false} OneToFourText()
    ensures Join(DecimalStrings([1, 2, 3, 4]), ",") == "1,2,3,4"
  {
    OneDigitNumerals();
    assert DecimalStrings([1, 2, 3, 4]) == ["1", "2", "3", "4"];
  }

  lemma {:induction false} OneToFourSum()
    ensures Expected([1, 2, 3, 4]) == Returned(10)
  {
  }

  lemma {:induction false} AddOneToFour()
    ensures Add("1,2,3,4") == Returned(10)
  {
    OneToFourText();
    OneToFourSum();
    AddOfCommaSeparated([1, 2, 3, 4]);
  }

  lemma {:induction false} OneToFiveText()
    ensures Join(DecimalStrings([1, 2, 3, 4, 5]), ",") == "1,2,3,4,5"
  {
    OneDigitNumerals();
    assert DecimalStrings([1, 2, 3, 4, 5]) == ["1", "2", "3", "4", "5"];
  }

  lemma {:induction false} OneToFiveSum()
    ensures Expected([1, 2, 3, 4, 5]) == Returned(15)
  {
  }

  lemma {:induction false} AddOneToFive()
    ensures Add("1,2,3,4,5") == Returned(15)
  {
    OneToFiveText();
    OneToFiveSum();
    AddOfCommaSeparated([1, 2, 3, 4, 5]);
  }

  // add("1\n2,3") == 6: the newline is a default delimiter too

  lemma {:induction false} NewlineAndCommaText()
    ensures Interleave(DecimalStrings([1, 2, 3]), ["\n", ","]) == "1\n2,3"
  {
    OneToThreeNumerals();
  }

  lemma {:induction false} NewlineAndCommaSeparators()
    ensures DefaultSeparators(["\n", ","])
  {
  }

  lemma {:induction false} AddNewlineAndComma()
    ensures Add("1\n2,3") == Returned(6)
  {
    NewlineAndCommaText();
    NewlineAndCommaSeparators();
    OneToThreeSum();
    AddOfDefaultDelimited([1, 2, 3], ["\n", ","]);
  }

  // add("2,1001") == 2: 1001 is parsed and left out of the sum, without an error

  lemma {:induction false} ThousandAndOneNumeral()
    ensures ToDecimalString(1001) == "1001"
  {
    assert NatToString(1) == "1";
    assert NatToString(10) == "10";
    assert NatToString(100) == "100";
  }

  lemma {:induction false} AboveLimitText()
    ensures Join(DecimalStrings([2, 1001]), ",") == "2,1001"
  {
    OneDigitNumerals();
    ThousandAndOneNumeral();
    assert DecimalStrings([2, 1001]) == ["2", "1001"];
  }

  lemma {:induction false} AboveLimitSum()
    ensures Expected([2, 1001]) == Returned(2)
  {
  }

  lemma {:induction false} AddAboveLimit()
    ensures Add("2,1001") == Returned(2)
  {
    AboveLimitText();
    AboveLimitSum();
    AddOfCommaSeparated([2, 1001]);
  }

  // add("1,-2,3,-4") throws "negatives not allowed: -2, -4"

  lemma {:induction false} NegativeNumerals()
    ensures ToDecimalString(-2) == "-2" && ToDecimalString(-4) == "-4"
  {
    OneDigitNumerals();
  }

  lemma {:induction false} NegativesText()
    ensures Join(DecimalStrings([1, -2, 3, -4]), ",") == "1,-2,3,-4"
  {
    OneDigitNumerals();
    NegativeNumerals();
    assert DecimalStrings([1, -2, 3, -4]) == ["1", "-2", "3", "-4"];
  }

  lemma {:induction false} NegativesListed()
    ensures Negatives([1, -2, 3, -4]) == [-2, -4]
  {
  }

  lemma {:induction false} NegativesText2()
    ensures NegativesMessage([-2, -4]) == "negatives not allowed: -2, -4"
  {
    NegativeNumerals();
    assert DecimalStrings([-2, -4]) == ["-2", "-4"];
  }

  lemma {:induction false} NegativesRejected()
    ensures Expected([1, -2, 3, -4]) == Threw("negatives not allowed: -2, -4")
  {
    NegativesListed();
    NegativesText2();
  }

  lemma {:induction false} AddNegatives()
    ensures Add("1,-2,3,-4") == Threw("negatives not allowed: -2, -4")
  {
    NegativesText();
    NegativesRejected();
    AddOfCommaSeparated([1, -2, 3, -4]);
  }

  // Custom headers: add("//;\n1;2") == 3, add("//[***]\n1***2***3") == 6, add("//[*][%]\n1*2%3") == 6

  lemma {:induction false} SemicolonText()
    ensures "//" + [';'] + "\n" + Join(DecimalStrings([1, 2]), [';']) == "//;\n1;2"
  {
    OneDigitNumerals();
    assert DecimalStrings([1, 2]) == ["1", "2"];
  }

  lemma {:induction false} AddSemicolonHeader()
    ensures Add("//;\n1;2") == Returned(3)
  {
    SemicolonText();
    OneTwoSum();
    AddOfSimpleHeader(';', [1, 2]);
  }

  lemma {:induction false} LongDelimiterHeader()
    ensures Bracketed(["***"]) == "[***]"
  {
    assert Bracketed(["***"][1..]) == "";
  }

  lemma {:induction false} LongDelimiterPayload()
    ensures Interleave(DecimalStrings([1, 2, 3]), ["***", "***"]) == "1***2***3"
  {
    OneToThreeNumerals();
  }

  lemma {:induction false} LongDelimiterText()
    ensures "//" + Bracketed(["***"]) + "\n" + Interleave(DecimalStrings([1, 2, 3]), ["***", "***"])
            == "//[***]\n1***2***3"
  {
    LongDelimiterHeader();
    LongDelimiterPayload();
  }

  lemma {:induction false} LongDelimiterUsable()
    ensures UsableDelimiters(["***"]) && SeparatorsAmong(["***", "***"], ["***"])
  {
  }

  lemma {:induction false} AddLongDelimiter()
    ensures Add("//[***]\n1***2***3") == Returned(6)
  {
    LongDelimiterText();
    LongDelimiterUsable();
    OneToThreeSum();
    AddOfBracketHeader("//[***]\n1***2***3", ["***"], [1, 2, 3], ["***", "***"]);
  }

  lemma {:induction false} TwoDelimitersHeader()
    ensures Bracketed(["*", "%"]) == "[*][%]"
  {
    assert ["*", "%"][1..] == ["%"];
    assert Bracketed(["%"][1..]) == "";
  }

  lemma {:induction false} TwoDelimitersPayload()
    ensures Interleave(DecimalStrings([1, 2, 3]), ["*", "%"]) == "1*2%3"
  {
    OneToThreeNumerals();
  }

  lemma {:induction false} TwoDelimitersText()
    ensures "//" + Bracketed(["*", "%"]) + "\n" + Interleave(DecimalStrings([1, 2, 3]), ["*", "%"])
            == "//[*][%]\n1*2%3"
  {
    TwoDelimitersHeader();
    TwoDelimitersPayload();
  }

  lemma {:induction false} TwoDelimitersUsable()
    ensures UsableDelimiters(["*", "%"]) && SeparatorsAmong(["*", "%"], ["*", "%"])
  {
  }

  lemma {:induction false} AddTwoDelimiters()
    ensures Add("//[*][%]\n1*2%3") == Returned(6)
  {
    TwoDelimitersText();
    TwoDelimitersUsable();
    OneToThreeSum();
    AddOfBracketHeader("//[*][%]\n1*2%3", ["*", "%"], [1, 2, 3], ["*", "%"]);
  }

  // ---------------------------------------------------------------------------
  // Corner cases

  lemma {:induction false} SmallNumerals()
    ensures ToNumber("1") == Some(1) && ToNumber("2") == Some(2) && ToNumber("3") == Some(3)
  {
    OneDigitNumerals();
    ToNumberOfDecimalString(1);
    ToNumberOfDecimalString(2);
    ToNumberOfDecimalString(3);
  }

  /** An empty token is `Number("") == 0`: it is kept, not dropped. */
  lemma {:induction false} EmptyTokenSplit()
    ensures Split("1,,2", DEFAULT_DELIMITERS) == ["1", "", "2"]
  {
    assert Interleave(["1", "", "2"], [",", ","]) == "1,,2";
    SplitOfInterleaved(["1", "", "2"], [",", ","], [",", "\n"]);
  }

  lemma {:induction false} EmptyTokenConverted()
    ensures ToNumbers(["1", "", "2"]) == [Some(1), Some(0), Some(2)]
  {
    SmallNumerals();
  }

  lemma {:induction false} EmptyTokenParts()
    ensures ParseNumbers("1,,2", DEFAULT_DELIMITERS) == [1, 0, 2]
  {
    EmptyTokenSplit();
    EmptyTokenConverted();
    assert DropNaN([Some(1), Some(0), Some(2)]) == [1, 0, 2];
  }

  lemma {:induction false} EmptyTokenSum()
    ensures Expected([1, 0, 2]) == Returned(3)
  {
    assert SumValidNumbers([1, 0, 2]) == 3;
  }

  lemma {:induction false} EmptyTokenText()
    ensures !IsEmpty("1,,2") && !IsCustomDelimiter("1,,2")
  {
    assert "1,,2"[0] != '/';
  }

  lemma {:induction false} AddEmptyToken()
    ensures Add("1,,2") == Returned(3)
  {
    EmptyTokenText();
    EmptyTokenParts();
    EmptyTokenSum();
    AddOfParsed("1,,2", DEFAULT_DELIMITERS, "1,,2", [1, 0, 2]);
  }

  /** A header with nothing after it leaves one empty token, so the sum is 0. */
  lemma {:induction false} HeaderOnlyParts()
    ensures ParseDelimiterPattern("//;\n") == (Alternation([";"]), "")
    ensures ParseNumbers("", Alternation([";"])) == [0]
  {
    HeaderAndRestComplete(";", "");
    assert "//" + ";" + "\n" + "" == "//;\n";
    assert MatchSimpleDelimiter("//;\n") == Some((';', ""));
    assert !(";" <= ""[0..]);
    assert Split("", Alternation([";"])) == [""];
  }

  lemma {:induction false} AddHeaderOnly()
    ensures Add("//;\n") == Returned(0)
  {
    HeaderOnlyParts();
    assert Expected([0]) == Returned(0);
    AddOfParsed("//;\n", Alternation([";"]), "", [0]);
  }

  /**
   * A newline in the payload defeats every header pattern, so the header is
   * ignored and the whole input, `//` included, is split on the defaults.
   */
  lemma {:induction false} BrokenPayloadSplit()
    ensures Split("//;\n1;2\n3", DEFAULT_DELIMITERS) == ["//;", "1;2", "3"]
  {
    assert Interleave(["//;", "1;2", "3"], ["\n", "\n"]) == "//;\n1;2\n3";
    SplitOfInterleaved(["//;", "1;2", "3"], ["\n", "\n"], [",", "\n"]);
  }

  lemma {:induction false} BrokenPayloadShape()
    ensures "//;\n1;2\n3" == "//" + ";" + "\n" + "1;2\n3"
    ensures NoLineTerminator(";") && !NoLineTerminator("1;2\n3")
  {
    assert IsLineTerminator("1;2\n3"[3]);
  }

  lemma {:induction false} BrokenPayloadFallsBack()
    ensures ParseDelimiterPattern("//;\n1;2\n3") == (DEFAULT_DELIMITERS, "//;\n1;2\n3")
    ensures Add("//;\n1;2\n3") == Expected(DropNaN(ToNumbers(["//;", "1;2", "3"])))
  {
    BrokenPayloadShape();
    HeaderWithBrokenPayload("//;\n1;2\n3", ";", "1;2\n3");
    BrokenPayloadSplit();
  }

  /**
   * An emoji is two UTF-16 code units, so `(.)` does not take `//😀` as a
   * header: the input is split on the defaults and neither token is a number.
   */
  lemma {:induction false} AstralHeaderSplit()
    ensures Split("//\U{1F600}\n1\U{1F600}2", DEFAULT_DELIMITERS) == ["//\U{1F600}", "1\U{1F600}2"]
  {
    assert Interleave(["//\U{1F600}", "1\U{1F600}2"], ["\n"]) == "//\U{1F600}\n1\U{1F600}2";
    SplitOfInterleaved(["//\U{1F600}", "1\U{1F600}2"], ["\n"], [",", "\n"]);
  }

  lemma {:induction false} AstralHeaderFirstToken()
    ensures ToNumber("//\U{1F600}") == None
  {
    TrimUnchanged("//\U{1F600}");
    NotANumeral("//\U{1F600}", 0);
  }

  lemma {:induction false} AstralHeaderSecondToken()
    ensures ToNumber("1\U{1F600}2") == None
  {
    TrimUnchanged("1\U{1F600}2");
    NotANumeral("1\U{1F600}2", 1);
  }

  lemma {:induction false} AstralHeaderTokens()
    ensures DropNaN(ToNumbers(["//\U{1F600}", "1\U{1F600}2"])) == []
  {
    AstralHeaderFirstToken();
    AstralHeaderSecondToken();
    assert ToNumbers(["//\U{1F600}", "1\U{1F600}2"]) == [None, None];
  }

  lemma {:induction false} AddAstralHeader()
    ensures Add("//\U{1F600}\n1\U{1F600}2") == Returned(0)
  {
    assert "//\U{1F600}\n1\U{1F600}2" == "//" + ['\U{1F600}'] + "\n" + "1\U{1F600}2";
    assert NoLineTerminator("1\U{1F600}2");
    AstralHeaderFallsBack("//\U{1F600}\n1\U{1F600}2", '\U{1F600}', "1\U{1F600}2");
    AstralHeaderSplit();
    AstralHeaderTokens();
    assert Expected([]) == Returned(0);
  }

  /**
   * `//[a]b]` is accepted by the multi-bracket pattern as one lazy group, but
   * extractDelimiters stops at the first `]`, so the only delimiter is `a`.
   */
  lemma {:induction false} InnerBracketMatches()
    ensures BracketMatches("[a]b]") == ["[a]"]
  {
    var s := "[a]b]";
    IndexOfFirst("a", ']', "b]");
    assert s[1..] == "a" + "]" + "b]";
    assert s[..3] == "[a]";
    assert s[3..] == "b]";
    assert BracketMatches("b]") == BracketMatches("]") == [];
  }

  lemma {:induction false} InnerBracketHeader()
    ensures HeaderAndRest("//[a]b]\n1a2") == Some(("[a]b]", "1a2"))
  {
    HeaderAndRestComplete("[a]b]", "1a2");
    assert "//[a]b]\n1a2" == "//" + "[a]b]" + "\n" + "1a2";
  }

  lemma {:induction false} InnerBracketMultiple()
    ensures MatchMultipleDelimiters("//[a]b]\n1a2") == Some("1a2")
  {
    InnerBracketHeader();
    BracketGroupsIsOneGroup("[a]b]");
  }

  lemma {:induction false} InnerBracketHeaderDelimiters()
    ensures ExtractDelimiters("//[a]b]\n1a2") == Unbracket(BracketMatches("[a]b]"))
  {
    InnerBracketHeader();
    ExtractDelimitersOfHeader("//[a]b]\n1a2");
  }

  lemma {:induction false} InnerBracketUnbracketed()
    ensures Unbracket(["[a]"]) == ["a"]
  {
    var u := Unbracket(["[a]"]);
    assert |u| == 1 && u[0] == "[a]"[1..2];
    assert "[a]"[1..2] == "a";
  }

  lemma {:induction false} InnerBracketDelimiters()
    ensures ExtractDelimiters("//[a]b]\n1a2") == ["a"]
  {
    InnerBracketHeaderDelimiters();
    InnerBracketMatches();
    InnerBracketUnbracketed();
  }

  lemma {:induction false} InnerBracketPattern()
    ensures ParseDelimiterPattern("//[a]b]\n1a2") == (Alternation(["a"]), "1a2")
  {
    InnerBracketMultiple();
    InnerBracketDelimiters();
  }

  lemma {:induction false} InnerBracketSplit()
    ensures Split("1a2", Alternation(["a"])) == ["1", "2"]
  {
    assert Interleave(["1", "2"], ["a"]) == "1a2";
    SplitOfInterleaved(["1", "2"], ["a"], ["a"]);
  }

  lemma {:induction false} OneTwoConverted()
    ensures ToNumbers(["1", "2"]) == [Some(1), Some(2)]
  {
    SmallNumerals();
  }

  lemma {:induction false} InnerBracketNumbers()
    ensures ParseNumbers("1a2", Alternation(["a"])) == [1, 2]
  {
    InnerBracketSplit();
    OneTwoConverted();
    assert DropNaN([Some(1), Some(2)]) == [1, 2];
  }

  lemma {:induction false} AddInnerBracket()
    ensures Add("//[a]b]\n1a2") == Returned(3)
  {
    InnerBracketPattern();
    InnerBracketNumbers();
    OneTwoSum();
    AddOfParsed("//[a]b]\n1a2", Alternation(["a"]), "1a2", [1, 2]);
  }

  /**
   * `//[]]` has no `[...]` group with a non-`]` inside, so the pattern is
   * `new RegExp("")`, which cuts the payload into single characters.
   */
  lemma {:induction false} EmptyPatternMatches()
    ensures BracketMatches("[]]") == []
  {
    assert IndexOf("]]", ']') == 0;
    assert BracketMatches("]]") == BracketMatches("]") == [];
  }

  lemma {:induction false} EmptyPatternNumbers()
    ensures DropNaN(ToNumbers(Characters("12"))) == [1, 2]
  {
    assert Characters("12") == ["1", "2"];
    OneTwoConverted();
    assert DropNaN([Some(1), Some(2)]) == [1, 2];
  }

  lemma {:induction false} EmptyPatternHeader()
    ensures "//[]]\n12" == "//" + "[]]" + "\n" + "12"
    ensures NoLineTerminator("[]]") && NoLineTerminator("12") && OneBracketGroup("[]]")
  {
  }

  lemma {:induction false} AddEmptyPattern()
    ensures Add("//[]]\n12") == Returned(3)
  {
    EmptyPatternMatches();
    EmptyPatternNumbers();
    EmptyPatternHeader();
    EmptyDelimiterHeader("//[]]\n12", "[]]", "12");
    OneTwoSum();
  }
}
