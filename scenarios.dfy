/**
 * Worked lines for both scanners with the marker "sent:" and the threshold
 * 89 that the two scripts' demonstrations use, including the lines on which
 * the two scanners disagree.
 *
 * Each lemma takes its line as a parameter fixed by a `requires` rather than
 * writing the literal in its contract: a literal argument lets the verifier
 * unfold every function applied to it at once, which costs far more than the
 * step-by-step helpers below.
 */
module Scenarios {
  import opened LogText
  import RegexScan
  import WordScan

  const Marker: string := "sent:"

  /** Two markers on one line: the regex scanner captures both. */
  lemma RegexTwoOnOneLine(line: string)
    requires line == "sent:118 sent:9999"
    ensures RegexScan.FindAll(line, Marker) == [118, 9999]
  {
    var h1, h2 := RegexScan.Hit(0, 5, 8, 118), RegexScan.Hit(9, 14, 18, 9999);
    TwoOnOneLineSecond(line);
    TwoOnOneLineFirst(line);
    assert RegexScan.Hits(line, Marker, 0) == [h1, h2];
    assert RegexScan.Values([h2]) == [9999] by {
      assert [h2][1..] == [];
    }
    assert RegexScan.Values([h1, h2]) == [118] + RegexScan.Values([h2]) by {
      assert [h1, h2][1..] == [h2];
    }
  }

  /** With the minimum 89 both values are kept: two of them, averaging 5058.5. */
  lemma RegexTwoOnOneLineSummary(line: string)
    requires line == "sent:118 sent:9999"
    ensures RegexScan.Analysis(Some([line]), Marker, Some(89))
      == RegexScan.Summary(5058.5, 2, [118, 9999])
  {
    var numbers := [118, 9999];
    assert RegexScan.FileNumbers([line], Marker, Some(89)) == numbers by {
      RegexTwoOnOneLine(line);
      KeptBoth(numbers);
      assert [line][..0] == [];
    }
    RegexScan.AnalysisOfLines([line], Marker, Some(89));
    SummaryOfBoth(numbers);
  }

  /** Both values reach the minimum 89. */
  lemma KeptBoth(numbers: seq<int>)
    requires numbers == [118, 9999]
    ensures RegexScan.Kept(numbers, Some(89)) == numbers
  {
    assert numbers[..1] == [118];
    assert [118][..0] == [];
  }

  /** Their sum is 10117, so the average is 5058.5. */
  lemma SummaryOfBoth(numbers: seq<int>)
    requires numbers == [118, 9999]
    ensures RegexScan.Summarize(numbers) == RegexScan.Summary(5058.5, 2, numbers)
  {
    assert Sum(numbers) == 10117 by {
      assert numbers[..1] == [118];
      assert [118][..0] == [];
    }
  }

  /** The second marker of that line is matched up to the end of the line. */
  lemma TwoOnOneLineSecond(line: string)
    requires line == "sent:118 sent:9999"
    ensures RegexScan.Hits(line, Marker, 9) == [RegexScan.Hit(9, 14, 18, 9999)]
  {
    Numerals();
    assert line == "sent:118 " + Marker + ShowInt(9999) + [];
    RegexScan.MatchAtNumber("sent:118 ", Marker, 9999, []);
    assert RegexScan.Hits(line, Marker, 18) == [];
  }

  /** The first match ends before the space, and the search resumes there. */
  lemma TwoOnOneLineFirst(line: string)
    requires line == "sent:118 sent:9999"
    ensures RegexScan.Hits(line, Marker, 0)
      == [RegexScan.Hit(0, 5, 8, 118)] + RegexScan.Hits(line, Marker, 9)
  {
    Numerals();
    assert line == [] + Marker + ShowInt(118) + " sent:9999";
    RegexScan.MatchAtNumber([], Marker, 118, " sent:9999");
    assert RegexScan.MatchAt(line, Marker, 8).None?;
  }

  /** Two markers on one line: the word scanner stops at the first. */
  lemma WordTwoOnOneLine(line: string)
    requires line == "sent:118 sent:9999"
    ensures WordScan.LineNumbers(line, 89) == [118]
  {
    var ws := ["sent:118", "sent:9999"];
    WordScan.WordsJoin(ws);
    assert WordScan.Join(ws, ' ') == line;
    assert ShowInt(118) == "118";
    assert ws[0] == WordScan.SentPrefix + ShowInt(118) + [];
    WordScan.SentWordValue(118, []);
    assert WordScan.FirstSent(WordScan.Words(line)) == Some(118);
  }

  /**
   * The first parsed value ends the line even when it is below the
   * threshold: the word scanner reports nothing for this line.
   */
  lemma WordBreakBelowThreshold(line: string)
    requires line == "sent:50 sent:118"
    ensures WordScan.LineNumbers(line, 89) == []
  {
    var ws := ["sent:50", "sent:118"];
    WordScan.WordsJoin(ws);
    assert WordScan.Join(ws, ' ') == line;
    assert ShowInt(50) == "50";
    assert ws[0] == WordScan.SentPrefix + ShowInt(50) + [];
    WordScan.SentWordValue(50, []);
    assert WordScan.FirstSent(WordScan.Words(line)) == Some(50);
  }

  /** A "sent:" word that does not parse is passed over, and the next one is used. */
  lemma WordSkipsUnparsable(line: string)
    requires line == "sent:abc sent:120"
    ensures WordScan.LineNumbers(line, 89) == [120]
  {
    var ws := ["sent:abc", "sent:120"];
    assert WordScan.Words(line) == ws by {
      WordScan.WordsJoin(ws);
      assert WordScan.Join(ws, ' ') == line;
    }
    UnparsableWord(ws[0]);
    SentWord120(ws[1]);
    assert WordScan.FirstSent(ws) == Some(120);
  }

  /** "sent:abc" has the field "abc", which `int()` refuses. */
  lemma UnparsableWord(word: string)
    requires word == "sent:abc"
    ensures WordScan.SentValue(word).None?
  {
    WordScan.SentValueField(word);
    WordScan.SplitNoSeparator("abc", ':');
    assert word[5..] == "abc";
    WordScan.ParseIntNeedsDigit("abc");
  }

  /** Only the field between the first and second colon is read. */
  lemma WordSecondColonField()
    ensures WordScan.SentValue("sent:12:34") == Some(12)
  {
    assert ShowInt(12) == "12";
    assert "sent:12:34" == WordScan.SentPrefix + ShowInt(12) + ":34";
    WordScan.SentWordValue(12, ":34");
  }

  /** "audioSent:0" does not start with "sent:", so only the last word counts. */
  lemma WordIgnoresOtherPrefixes(line: string)
    requires line == "audioSent:0 packet errors:0 sent:115"
    ensures WordScan.LineNumbers(line, 89) == [115]
  {
    var ws := PrefixesWords(line);
    PrefixesFirstSent(ws);
  }

  /** The words of the line with several colon-suffixed words. */
  lemma PrefixesWords(line: string) returns (ws: seq<string>)
    requires line == "audioSent:0 packet errors:0 sent:115"
    ensures ws == ["audioSent:0", "packet", "errors:0", "sent:115"]
    ensures WordScan.Words(line) == ws
  {
    ws := ["audioSent:0", "packet", "errors:0", "sent:115"];
    PrefixesJoin(line, ws);
    PrefixesNoSpace(ws);
    WordScan.WordsJoin(ws);
  }

  /** The line is its words joined by single spaces. */
  lemma PrefixesJoin(line: string, ws: seq<string>)
    requires line == "audioSent:0 packet errors:0 sent:115"
    requires ws == ["audioSent:0", "packet", "errors:0", "sent:115"]
    ensures WordScan.Join(ws, ' ') == line
  {
    assert line == ws[0] + [' '] + ws[1] + [' '] + ws[2] + [' '] + ws[3];
    assert ws[1..][1..][1..] == [ws[3]];
    assert WordScan.Join(ws[1..][1..], ' ') == ws[2] + [' '] + ws[3];
  }

  /** None of those words is empty or holds whitespace. */
  lemma PrefixesNoSpace(ws: seq<string>)
    requires ws == ["audioSent:0", "packet", "errors:0", "sent:115"]
    ensures forall k :: 0 <= k < |ws| ==> |ws[k]| > 0 && WordScan.NoSpace(ws[k])
  {
  }

  /** Of those words only the last starts with "sent:". */
  lemma PrefixesFirstSent(ws: seq<string>)
    requires ws == ["audioSent:0", "packet", "errors:0", "sent:115"]
    ensures WordScan.FirstSent(ws) == Some(115)
  {
    assert ws[0][0] == 'a' && ws[1][0] == 'p' && ws[2][0] == 'e';
    assert forall j :: 0 <= j < 3 ==> !WordScan.StartsWith(ws[j], WordScan.SentPrefix);
    WordScan.FirstSentSkips(ws, 3);
    SentWord115(ws[3]);
  }

  /** The regex scanner skips "audioSent:0" as well: the marker is matched literally. */
  lemma RegexIgnoresOtherWords(line: string)
    requires line == "audioSent:0 packet errors:0 sent:115"
    ensures RegexScan.FindAll(line, Marker) == [115]
  {
    OtherWordsTail(line);
    OtherWordsMiddle(line);
    OtherWordsHead(line);
    var h := RegexScan.Hit(28, 33, 36, 115);
    assert RegexScan.Hits(line, Marker, 0) == [h];
    assert RegexScan.Values([h]) == [115] by {
      assert [h][1..] == [];
    }
  }

  /** Nothing before the 's' of "errors:0" starts a match. */
  lemma OtherWordsHead(line: string)
    requires line == "audioSent:0 packet errors:0 sent:115"
    ensures RegexScan.Hits(line, Marker, 0) == RegexScan.Hits(line, Marker, 24)
  {
    assert line[0..24] == "audioSent:0 packet error";
    RegexScan.HitsSkip(line, Marker, 0, 24);
  }

  /** The last word of that line is the one match. */
  lemma OtherWordsTail(line: string)
    requires line == "audioSent:0 packet errors:0 sent:115"
    ensures RegexScan.Hits(line, Marker, 28) == [RegexScan.Hit(28, 33, 36, 115)]
  {
    Numerals();
    assert line == "audioSent:0 packet errors:0 " + Marker + ShowInt(115) + [];
    RegexScan.MatchAtNumber("audioSent:0 packet errors:0 ", Marker, 115, []);
    assert RegexScan.Hits(line, Marker, 36) == [];
  }

  /** The 's' of "errors:0" does not start a match. */
  lemma OtherWordsMiddle(line: string)
    requires line == "audioSent:0 packet errors:0 sent:115"
    ensures RegexScan.Hits(line, Marker, 24) == RegexScan.Hits(line, Marker, 28)
  {
    assert RegexScan.MatchAt(line, Marker, 24).None?;
    assert line[25..28] == ":0 ";
    RegexScan.HitsSkip(line, Marker, 25, 28);
  }

  /** A marker glued to a preceding word character is not at a word boundary. */
  lemma RegexNeedsWordBoundary()
    ensures RegexScan.FindAll("xsent:5", Marker) == []
  {
    var line := "xsent:5";
    assert RegexScan.MatchAt(line, Marker, 1).None?;
    assert line[2..7] == "ent:5";
    RegexScan.HitsSkip(line, Marker, 2, 7);
    assert RegexScan.Hits(line, Marker, 7) == [];
    assert RegexScan.MatchAt(line, Marker, 0).None?;
  }

  /**
   * An indented line ending in a newline, as the file iterator yields it:
   * `split()` drops the indentation and the newline and collapses the run of
   * spaces, so the line holds the same two words as above.
   */
  lemma WordIndentedLine(line: string)
    requires line == "    sent:118   sent:9999\n"
    ensures WordScan.LineNumbers(line, 89) == [118]
  {
    var ws := IndentedWords(line);
    assert ShowNat(118) == "118";
    SentWord(ws[0], 118);
    WordScan.LineNumbersFirst(line, 89, 0, 118);
  }

  /** The words of the indented line. */
  lemma IndentedWords(line: string) returns (ws: seq<string>)
    requires line == "    sent:118   sent:9999\n"
    ensures ws == ["sent:118", "sent:9999"]
    ensures WordScan.Words(line) == ws
  {
    ws := ["sent:118", "sent:9999"];
    var gaps := ["    ", "   ", "\n"];
    IndentedLayout(line, gaps, ws);
    IndentedParts(gaps, ws);
    WordScan.WordsSpaced(gaps, ws);
  }

  /** The indented line is its two words laid out with those whitespace runs. */
  lemma IndentedLayout(line: string, gaps: seq<string>, ws: seq<string>)
    requires line == "    sent:118   sent:9999\n"
    requires gaps == ["    ", "   ", "\n"] && ws == ["sent:118", "sent:9999"]
    ensures WordScan.Spaced(gaps, ws) == line
  {
    assert gaps[1..][1..] == ["\n"] && ws[1..][1..] == [];
    assert WordScan.Spaced(gaps[1..], ws[1..]) == "   " + ("sent:9999" + "\n");
  }

  /** Those runs are whitespace, the inner one non-empty, and the words hold none. */
  lemma IndentedParts(gaps: seq<string>, ws: seq<string>)
    requires gaps == ["    ", "   ", "\n"] && ws == ["sent:118", "sent:9999"]
    ensures forall k :: 0 <= k < |gaps| ==> WordScan.AllSpace(gaps[k])
    ensures forall k :: 0 < k < |ws| ==> |gaps[k]| > 0
    ensures forall k :: 0 <= k < |ws| ==> |ws[k]| > 0 && WordScan.NoSpace(ws[k])
  {
  }

  /**
   * With the default threshold 0 a first value of 0 is dropped, and it still
   * ends the line: nothing is found.
   */
  lemma WordDefaultThreshold(line: string)
    requires line == "sent:0 sent:7"
    ensures WordScan.Analysis(Some([line])) == WordScan.NothingAbove
  {
    var ws := ["sent:0", "sent:7"];
    assert WordScan.Words(line) == ws by {
      WordScan.WordsJoin(ws);
      assert WordScan.Join(ws, ' ') == line;
    }
    assert ws[0] == WordScan.SentPrefix + ShowInt(0) + [];
    WordScan.SentWordValue(0, []);
    WordScan.LineNumbersFirst(line, 0, 0, 0);
    assert [line][..0] == [];
  }

  /** With no minimum, the default, a negative number is kept. */
  lemma RegexNoMinimumByDefault(line: string)
    requires line == "sent:-3"
    ensures RegexScan.Analysis(Some([line]), Marker) == RegexScan.Summary(-3.0, 1, [-3])
  {
    var numbers := [-3];
    assert RegexScan.FileNumbers([line], Marker, None) == numbers by {
      RegexNegative(line);
      RegexScan.KeptExactly(numbers, None);
      assert [line][..0] == [];
    }
    RegexScan.AnalysisOfLines([line], Marker, None);
    SummaryOfOne(numbers);
  }

  /** A single number is its own average. */
  lemma SummaryOfOne(numbers: seq<int>)
    requires numbers == [-3]
    ensures RegexScan.Summarize(numbers) == RegexScan.Summary(-3.0, 1, numbers)
  {
    assert Sum(numbers) == -3 by {
      assert numbers[..0] == [];
    }
  }

  /** "sent:-3" captures -3: the group takes the minus sign. */
  lemma RegexNegative(line: string)
    requires line == "sent:-3"
    ensures RegexScan.FindAll(line, Marker) == [-3]
  {
    var h := RegexScan.Hit(0, 5, 7, -3);
    assert RegexScan.Hits(line, Marker, 0) == [h] by {
      assert ShowInt(-3) == "-3";
      assert line == [] + Marker + ShowInt(-3) + [];
      RegexScan.MatchAtNumber([], Marker, -3, []);
      assert RegexScan.Hits(line, Marker, 7) == [];
    }
    assert RegexScan.Values([h]) == [-3] by {
      assert [h][1..] == [];
    }
  }

  /** A word written "sent:" followed by the numeral of `n` yields `n`. */
  lemma SentWord(word: string, n: nat)
    requires word == WordScan.SentPrefix + ShowNat(n)
    ensures WordScan.SentValue(word) == Some(n)
  {
    assert word == WordScan.SentPrefix + ShowInt(n) + [];
    WordScan.SentWordValue(n, []);
  }

  /** "sent:115" yields 115. */
  lemma SentWord115(word: string)
    requires word == "sent:115"
    ensures WordScan.SentValue(word) == Some(115)
  {
    assert ShowNat(115) == "115";
    SentWord(word, 115);
  }

  /** The numerals of the values the worked lines use. */
  lemma Numerals()
    ensures ShowInt(12) == "12" && ShowInt(50) == "50"
    ensures ShowInt(115) == "115" && ShowInt(118) == "118"
    ensures ShowInt(120) == "120" && ShowInt(9999) == "9999"
  {
  }

  /** "sent:120" yields 120. */
  lemma SentWord120(word: string)
    requires word == "sent:120"
    ensures WordScan.SentValue(word) == Some(120)
  {
    assert ShowNat(120) == "120";
    SentWord(word, 120);
  }
}
