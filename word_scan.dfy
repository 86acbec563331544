/**
 * `analyze_log_file` of average1.py: each line is split into
 * whitespace-separated words; the first word that starts with "sent:" and
 * whose text between the first and second colon parses as an integer ends
 * the scan of that line, and its value is collected when it is greater than
 * the threshold. The collected numbers are reported as count, sum and
 * average, or as "could not find" when there are none.
 */
module WordScan {
  import opened LogText

  /** The prefix a word must start with. */
  const SentPrefix: string := "sent:"

  /** End of the run of non-whitespace characters from `i` on. */
  function WordEnd(s: string, i: nat): (e: nat)
    requires i <= |s|
    ensures i <= e <= |s|
    ensures forall p :: i <= p < e ==> !IsSpace(s[p])
    ensures e == |s| || IsSpace(s[e])
    decreases |s| - i
  {
    if i < |s| && !IsSpace(s[i]) then WordEnd(s, i + 1) else i
  }

  predicate NoSpace(w: string) {
    forall k :: 0 <= k < |w| ==> !IsSpace(w[k])
  }

  /** The words of `s[i..]`: maximal runs of non-whitespace, in order. */
  function WordsFrom(s: string, i: nat): (ws: seq<string>)
    requires i <= |s|
    ensures forall k :: 0 <= k < |ws| ==> |ws[k]| > 0 && NoSpace(ws[k])
    decreases |s| - i
  {
    if i == |s| then []
    else if IsSpace(s[i]) then WordsFrom(s, i + 1)
    else
      var e := WordEnd(s, i);
      [s[i..e]] + WordsFrom(s, e)
  }

  /** Python's `line.split()`. */
  function Words(line: string): seq<string> {
    WordsFrom(line, 0)
  }

  /** The words of a text do not depend on what stands before the position the split starts from. */
  lemma {:induction false} WordsFromShift(p: string, r: string, i: nat)
    requires i <= |r|
    ensures WordsFrom(p + r, |p| + i) == WordsFrom(r, i)
    decreases |r| - i
  {
    var s := p + r;
    if i < |r| {
      assert s[|p| + i] == r[i];
      if IsSpace(r[i]) {
        WordsFromShift(p, r, i + 1);
      } else {
        var e := WordEnd(r, i);
        WordEndShift(p, r, i);
        assert s[|p| + i..|p| + e] == r[i..e];
        WordsFromShift(p, r, e);
      }
    }
  }

  /** A word ends at the same place whatever stands before the text. */
  lemma {:induction false} WordEndShift(p: string, r: string, i: nat)
    requires i <= |r|
    ensures WordEnd(p + r, |p| + i) == |p| + WordEnd(r, i)
    decreases |r| - i
  {
    if i < |r| {
      assert (p + r)[|p| + i] == r[i];
      WordEndShift(p, r, i + 1);
    }
  }

  /** A word without whitespace, followed by whitespace or nothing, ends where it ends. */
  lemma {:induction false} WordEndOfWord(w: string, rest: string, i: nat)
    requires i <= |w| && NoSpace(w)
    requires rest == [] || IsSpace(rest[0])
    ensures WordEnd(w + rest, i) == |w|
    decreases |w| - i
  {
    if i < |w| {
      assert (w + rest)[i] == w[i];
      WordEndOfWord(w, rest, i + 1);
    } else if rest != [] {
      assert (w + rest)[i] == rest[0];
    }
  }

  /** Words joined by single spaces split back into the same words. */
  lemma {:induction false} WordsJoin(ws: seq<string>)
    requires |ws| > 0
    requires forall k :: 0 <= k < |ws| ==> |ws[k]| > 0 && NoSpace(ws[k])
    ensures Words(Join(ws, ' ')) == ws
    decreases |ws|
  {
    var w := ws[0];
    var s := Join(ws, ' ');
    if |ws| == 1 {
      WordEndOfWord(w, [], 0);
      assert s == w + [];
    } else {
      WordEndOfWord(w, [' '] + Join(ws[1..], ' '), 0);
      assert s == w + ([' '] + Join(ws[1..], ' '));
    }
    assert s[0..|w|] == w;
    if |ws| == 1 {
      assert WordsFrom(s, |w|) == [];
    } else {
      var rest := Join(ws[1..], ' ');
      assert s == (w + [' ']) + rest;
      WordsJoin(ws[1..]);
      WordsFromShift(w + [' '], rest, 0);
      assert WordsFrom(s, |w|) == WordsFrom(s, |w| + 1);
    }
  }

  /** Every character of `g` is whitespace; an empty `g` is too. */
  predicate AllSpace(g: string) {
    forall k :: 0 <= k < |g| ==> IsSpace(g[k])
  }

  /** The words `ws` laid out with the whitespace runs `gaps` before, between and after them. */
  function Spaced(gaps: seq<string>, ws: seq<string>): string
    requires |gaps| == |ws| + 1
    decreases |ws|
  {
    if ws == [] then gaps[0] else gaps[0] + (ws[0] + Spaced(gaps[1..], ws[1..]))
  }

  /** Leading whitespace is passed over. */
  lemma {:induction false} WordsFromSpaces(g: string, r: string, i: nat)
    requires i <= |g| && AllSpace(g)
    ensures WordsFrom(g + r, i) == WordsFrom(r, 0)
    decreases |g| - i
  {
    if i < |g| {
      assert (g + r)[i] == g[i];
      WordsFromSpaces(g, r, i + 1);
    } else {
      WordsFromShift(g, r, 0);
    }
  }

  /** A word followed by whitespace or by nothing is split off whole. */
  lemma WordsFromWord(w: string, r: string)
    requires |w| > 0 && NoSpace(w)
    requires r == [] || IsSpace(r[0])
    ensures WordsFrom(w + r, 0) == [w] + WordsFrom(r, 0)
  {
    WordEndOfWord(w, r, 0);
    assert (w + r)[0] == w[0];
    assert (w + r)[0..|w|] == w;
    WordsFromShift(w, r, 0);
  }

  /**
   * `split()` gives back the words however the line lays them out: any
   * non-empty run of whitespace between two words, and any run, empty or
   * not, before the first word (indentation) and after the last (the line's
   * trailing newline).
   */
  lemma {:induction false} WordsSpaced(gaps: seq<string>, ws: seq<string>)
    requires |gaps| == |ws| + 1
    requires forall k :: 0 <= k < |gaps| ==> AllSpace(gaps[k])
    requires forall k :: 0 < k < |ws| ==> |gaps[k]| > 0
    requires forall k :: 0 <= k < |ws| ==> |ws[k]| > 0 && NoSpace(ws[k])
    ensures Words(Spaced(gaps, ws)) == ws
    decreases |ws|
  {
    if ws == [] {
      WordsFromSpaces(gaps[0], [], 0);
      assert gaps[0] + [] == gaps[0];
    } else {
      var rest := Spaced(gaps[1..], ws[1..]);
      WordsFromSpaces(gaps[0], ws[0] + rest, 0);
      WordsSpaced(gaps[1..], ws[1..]);
      if |ws| > 1 {
        assert rest[0] == gaps[1][0];
      } else {
        assert rest == gaps[1];
      }
      WordsFromWord(ws[0], rest);
    }
  }

  /** Python's `s.split(sep)`: the pieces between the separators, empty ones included. */
  function Split(s: string, sep: char): (parts: seq<string>)
    ensures |parts| > 0
    ensures forall k :: 0 <= k < |parts| ==> sep !in parts[k]
    decreases |s|
  {
    if s == [] then [[]]
    else
      var rest := Split(s[1..], sep);
      if s[0] == sep then [[]] + rest else [[s[0]] + rest[0]] + rest[1..]
  }

  /** The pieces joined back with the separator between them. */
  function Join(parts: seq<string>, sep: char): string
    requires |parts| > 0
    decreases |parts|
  {
    if |parts| == 1 then parts[0] else parts[0] + [sep] + Join(parts[1..], sep)
  }

  /** Splitting loses nothing: joining the pieces gives back the text. */
  lemma {:induction false} SplitJoin(s: string, sep: char)
    ensures Join(Split(s, sep), sep) == s
    decreases |s|
  {
    if s != [] {
      var rest := Split(s[1..], sep);
      SplitJoin(s[1..], sep);
      if s[0] == sep {
        assert Split(s, sep)[1..] == rest;
      } else {
        var parts := Split(s, sep);
        assert parts[0] == [s[0]] + rest[0];
        if |rest| == 1 {
          assert parts == [[s[0]] + rest[0]];
        } else {
          assert parts[1..] == rest[1..];
          assert Join(rest, sep) == rest[0] + [sep] + Join(rest[1..], sep);
        }
      }
    }
  }

  /** Text without the separator, then the separator: that text is the first piece. */
  lemma {:induction false} SplitAfterFirst(head: string, rest: string, sep: char)
    requires sep !in head
    ensures Split(head + [sep] + rest, sep) == [head] + Split(rest, sep)
    decreases |head|
  {
    var s := head + [sep] + rest;
    if head == [] {
      assert s[1..] == rest;
    } else {
      assert s[1..] == head[1..] + [sep] + rest;
      SplitAfterFirst(head[1..], rest, sep);
      assert [head[0]] + head[1..] == head;
    }
  }

  /** The first piece is the text up to the first separator, or all of it when there is none. */
  lemma {:induction false} SplitFirst(s: string, sep: char)
    ensures var first := Split(s, sep)[0];
      first <= s && (|first| == |s| || s[|first|] == sep)
    decreases |s|
  {
    if s != [] && s[0] != sep {
      SplitFirst(s[1..], sep);
    }
  }

  /** `s.startswith(prefix)`. */
  predicate StartsWith(s: string, prefix: string) {
    prefix <= s
  }

  /**
   * An unsigned run of decimal digits in which single underscores may stand
   * between two digits, as `int()` accepts.
   */
  predicate IsDigitGroups(s: string) {
    && |s| > 0 && IsDigit(s[0]) && IsDigit(s[|s| - 1])
    && (forall k :: 0 <= k < |s| ==> IsDigit(s[k]) || s[k] == '_')
    && (forall k :: 0 <= k < |s| - 1 ==> IsDigit(s[k]) || IsDigit(s[k + 1]))
  }

  /** The digits of `s` with the underscores taken out. */
  function DropUnderscores(s: string): (r: string)
    ensures (forall k :: 0 <= k < |s| ==> IsDigit(s[k]) || s[k] == '_') ==> AllDigits(r)
    ensures |r| <= |s|
    decreases |s|
  {
    if s == [] then []
    else (if s[0] == '_' then [] else [s[0]]) + DropUnderscores(s[1..])
  }

  /**
   * Python's `int(text)` on text without whitespace: an optional sign '+' or
   * '-', then decimal digit groups; None stands for the `ValueError`.
   */
  function ParseInt(text: string): (r: Option<int>)
    ensures r.Some? ==> |text| > 0
  {
    var signed := |text| > 0 && (text[0] == '-' || text[0] == '+');
    var body := if signed then text[1..] else text;
    if IsDigitGroups(body) then
      var n := DigitsValue(DropUnderscores(body));
      Some(if signed && text[0] == '-' then -(n as int) else n)
    else None
  }

  /** `int()` reads back every integer's decimal text. */
  lemma ParseIntShowInt(n: int)
    ensures ParseInt(ShowInt(n)) == Some(n)
  {
    var m := if n < 0 then -n else n;
    var digits := ShowNat(m);
    DropUnderscoresDigits(digits);
    ShowNatRoundTrip(m);
    if n < 0 {
      assert ShowInt(n)[1..] == digits;
    }
  }

  /**
   * On text of the shape `-?\d+`, the only shape the regex scanner captures,
   * `int()` gives that numeral's value: both scanners read numbers alike.
   */
  lemma ParseIntNumeral(s: string)
    requires IsNumeral(s)
    ensures ParseInt(s) == Some(NumeralValue(s))
  {
    if s[0] == '-' {
      DropUnderscoresDigits(s[1..]);
    } else {
      DropUnderscoresDigits(s);
    }
  }

  /** Text without a single digit is refused. */
  lemma ParseIntNeedsDigit(text: string)
    requires forall k :: 0 <= k < |text| ==> !IsDigit(text[k])
    ensures ParseInt(text).None?
  {
    if |text| > 0 && (text[0] == '-' || text[0] == '+') {
      assert forall k :: 0 <= k < |text[1..]| ==> text[1..][k] == text[k + 1];
    }
  }

  /** Digits without underscores are left as they are. */
  lemma {:induction false} DropUnderscoresDigits(s: string)
    requires AllDigits(s)
    ensures DropUnderscores(s) == s
    decreases |s|
  {
    if s != [] {
      DropUnderscoresDigits(s[1..]);
    }
  }

  /**
   * The body of the `try` block: `parts = word.split(':')` and
   * `int(parts[1])`; None stands for the `IndexError` or `ValueError` it
   * swallows.
   */
  function ColonValue(word: string): Option<int> {
    var parts := Split(word, ':');
    if |parts| < 2 then None else ParseInt(parts[1])
  }

  /** What a word yields: a value only for a "sent:" word whose second colon field parses. */
  function SentValue(word: string): Option<int> {
    if StartsWith(word, SentPrefix) then ColonValue(word) else None
  }

  /**
   * A "sent:" word yields the integer written between its first and second
   * colon (or the end of the word); no `IndexError` can arise.
   */
  lemma SentValueField(word: string)
    requires StartsWith(word, SentPrefix)
    ensures var rest := word[|SentPrefix|..];
      var field := Split(rest, ':')[0];
      && field <= rest && ':' !in field
      && (|field| == |rest| || rest[|field|] == ':')
      && SentValue(word) == ParseInt(field)
  {
    var rest := word[|SentPrefix|..];
    assert word == "sent" + [':'] + rest;
    SplitAfterFirst("sent", rest, ':');
    SplitFirst(rest, ':');
  }

  /** Text without the separator is a single piece. */
  lemma {:induction false} SplitNoSeparator(s: string, sep: char)
    requires sep !in s
    ensures Split(s, sep) == [s]
    decreases |s|
  {
    if s != [] {
      SplitNoSeparator(s[1..], sep);
      assert [s[0]] + s[1..] == s;
    }
  }

  /**
   * A "sent:" word carrying the decimal text of `n`, alone or followed by a
   * further colon field, yields `n`.
   */
  lemma SentWordValue(n: int, tail: string)
    requires tail == [] || tail[0] == ':'
    ensures SentValue(SentPrefix + ShowInt(n) + tail) == Some(n)
  {
    var text := ShowInt(n);
    var word := SentPrefix + text + tail;
    assert word[|SentPrefix|..] == text + tail;
    SentValueField(word);
    NumeralHasNoColon(n);
    FirstFieldOf(text, tail);
    ParseIntShowInt(n);
  }

  /** Text without a colon, followed by nothing or by a colon field, is the first field. */
  lemma FirstFieldOf(text: string, tail: string)
    requires ':' !in text
    requires tail == [] || tail[0] == ':'
    ensures Split(text + tail, ':')[0] == text
  {
    if tail == [] {
      assert text + tail == text;
      SplitNoSeparator(text, ':');
    } else {
      assert text + tail == text + [':'] + tail[1..];
      SplitAfterFirst(text, tail[1..], ':');
    }
  }

  /** The decimal text of an integer holds no colon. */
  lemma NumeralHasNoColon(n: int)
    ensures ':' !in ShowInt(n)
  {
    var digits := ShowNat(if n < 0 then -n else n);
    assert ShowInt(n) == digits || ShowInt(n) == "-" + digits;
    assert forall k :: 0 <= k < |digits| ==> IsDigit(digits[k]);
  }

  /** The first word of `words` that yields a value, as the `for word` loop finds it. */
  function FirstSent(words: seq<string>): Option<int>
    decreases |words|
  {
    if words == [] then None
    else if SentValue(words[0]).Some? then SentValue(words[0])
    else FirstSent(words[1..])
  }

  /** Word `k` is the first of `words` that yields a value. */
  predicate FirstYield(words: seq<string>, k: nat) {
    k < |words| && SentValue(words[k]).Some? &&
    forall j :: 0 <= j < k ==> SentValue(words[j]).None?
  }

  /** Words that yield nothing are passed over. */
  lemma {:induction false} FirstSentSkips(words: seq<string>, k: nat)
    requires k <= |words|
    requires forall j :: 0 <= j < k ==> SentValue(words[j]).None?
    ensures FirstSent(words) == FirstSent(words[k..])
    decreases k
  {
    if k > 0 {
      assert forall j :: 0 <= j < k - 1 ==> words[1..][j] == words[j + 1];
      FirstSentSkips(words[1..], k - 1);
      assert words[1..][k - 1..] == words[k..];
    }
  }

  /** When the line has a value, some word is the first to yield one. */
  lemma {:induction false} FirstSentFound(words: seq<string>)
    requires FirstSent(words).Some?
    ensures exists k: nat :: FirstYield(words, k) && SentValue(words[k]) == FirstSent(words)
    decreases |words|
  {
    if SentValue(words[0]).Some? {
      assert FirstYield(words, 0);
    } else {
      FirstSentFound(words[1..]);
      var k: nat :| FirstYield(words[1..], k) && SentValue(words[1..][k]) == FirstSent(words[1..]);
      assert forall j :: 0 < j <= k ==> words[j] == words[1..][j - 1];
      assert FirstYield(words, k + 1);
    }
  }

  /**
   * The line's value is that of the first word that yields one: every word
   * before it yields nothing (a "sent:" word that does not parse is passed
   * over, and the scan goes on to the next word).
   */
  lemma {:induction false} FirstSentExactly(words: seq<string>, v: int)
    ensures FirstSent(words) == Some(v) <==> exists k: nat :: FirstYield(words, k) && SentValue(words[k]) == Some(v)
  {
    if k: nat :| FirstYield(words, k) && SentValue(words[k]) == Some(v) {
      FirstSentSkips(words, k);
      assert words[k..][0] == words[k];
    }
    if FirstSent(words) == Some(v) {
      FirstSentFound(words);
    }
  }

  /** A line yields no value exactly when none of its words does. */
  lemma {:induction false} FirstSentNone(words: seq<string>)
    ensures FirstSent(words).None? <==> forall k :: 0 <= k < |words| ==> SentValue(words[k]).None?
    decreases |words|
  {
    if FirstSent(words).Some? {
      FirstSentFound(words);
    } else if words != [] {
      FirstSentNone(words[1..]);
      assert forall k :: 0 < k < |words| ==> words[k] == words[1..][k - 1];
    }
  }

  /** The search from word `j` either stops at it or goes on from the next word. */
  lemma FirstSentStep(words: seq<string>, j: nat)
    requires j < |words|
    ensures FirstSent(words[j..]) ==
      if SentValue(words[j]).Some? then SentValue(words[j]) else FirstSent(words[j + 1..])
  {
    assert words[j..][1..] == words[j + 1..];
  }

  /** What a line contributes: its first value when that is above the threshold, else nothing. */
  function LineNumbers(line: string, minThreshold: int): (r: seq<int>)
    ensures |r| <= 1
    ensures forall x :: x in r ==> x > minThreshold
  {
    match FirstSent(Words(line))
    case Some(n) => if n > minThreshold then [n] else []
    case None => []
  }

  /**
   * A line contributes the value of its first yielding word when that value
   * is above the threshold, and nothing otherwise: a first value at or below
   * the threshold ends the line, whatever the later words hold.
   */
  lemma LineNumbersFirst(line: string, minThreshold: int, k: nat, v: int)
    requires FirstYield(Words(line), k) && SentValue(Words(line)[k]) == Some(v)
    ensures LineNumbers(line, minThreshold) == if v > minThreshold then [v] else []
  {
    FirstSentExactly(Words(line), v);
  }

  /** A line none of whose words yields a value contributes nothing. */
  lemma LineNumbersNone(line: string, minThreshold: int)
    requires forall k :: 0 <= k < |Words(line)| ==> SentValue(Words(line)[k]).None?
    ensures LineNumbers(line, minThreshold) == []
  {
    FirstSentNone(Words(line));
  }

  /** The list `sent_numbers`: the lines' contributions in file order. */
  function FileNumbers(lines: seq<string>, minThreshold: int): (r: seq<int>)
    ensures |r| <= |lines|
    ensures forall x :: x in r ==> x > minThreshold
    decreases |lines|
  {
    if lines == [] then []
    else FileNumbers(lines[..|lines| - 1], minThreshold) + LineNumbers(lines[|lines| - 1], minThreshold)
  }

  /** Lines contribute in file order: the numbers of a file are those of its parts, concatenated. */
  lemma {:induction false} FileNumbersConcat(a: seq<string>, b: seq<string>, minThreshold: int)
    ensures FileNumbers(a + b, minThreshold) == FileNumbers(a, minThreshold) + FileNumbers(b, minThreshold)
    decreases |b|
  {
    if b == [] {
      assert a + b == a;
    } else {
      assert (a + b)[..|a + b| - 1] == a + b[..|b| - 1];
      FileNumbersConcat(a, b[..|b| - 1], minThreshold);
    }
  }

  /** What `analyze_log_file` reports. */
  datatype Report =
    | FileNotFound
    | NothingAbove
    | Found(count: nat, total: int, average: real)

  /** The report on the collected numbers: count, sum and average, or "could not find". */
  function Summarize(numbers: seq<int>): (r: Report)
    ensures r.NothingAbove? <==> numbers == []
    ensures numbers != [] ==> r.Found?
    ensures r.Found? ==> r.count == |numbers| && r.total == Sum(numbers)
    ensures r.Found? ==> r.count as real * r.average == r.total as real
  {
    if numbers == [] then NothingAbove else Found(|numbers|, Sum(numbers), Mean(numbers))
  }

  /** The report of `analyze_log_file`; a missing file is `None`. */
  function Analysis(file: Option<seq<string>>, minThreshold: int := 0): (r: Report)
    ensures r.FileNotFound? <==> file.None?
    ensures file.Some? ==> r == Summarize(FileNumbers(file.value, minThreshold))
  {
    match file
    case None => FileNotFound
    case Some(lines) => Summarize(FileNumbers(lines, minThreshold))
  }

  /**
   * `analyze_log_file`: for every line, scan the words; at the first "sent:"
   * word whose colon field parses, append its value when it is above the
   * threshold and leave the line; then report.
   */
  method AnalyzeLogFile(file: Option<seq<string>>, minThreshold: int := 0)
    returns (sentNumbers: seq<int>, report: Report)
    ensures sentNumbers == if file.None? then [] else FileNumbers(file.value, minThreshold)
    ensures report == Analysis(file, minThreshold)
  {
    sentNumbers := [];
    if file.None? {
      report := FileNotFound;
      return;
    }
    var lines := file.value;
    for i := 0 to |lines|
      invariant sentNumbers == FileNumbers(lines[..i], minThreshold)
    {
      var words := Words(lines[i]);
      var before := sentNumbers;
      var j := 0;
      while j < |words|
        invariant j <= |words|
        invariant FirstSent(words[j..]) == FirstSent(words)
        invariant sentNumbers == before
      {
        var word := words[j];
        FirstSentStep(words, j);
        if StartsWith(word, SentPrefix) {
          var number := ColonValue(word);
          if number.Some? {
            if number.value > minThreshold {
              sentNumbers := sentNumbers + [number.value];
            }
            assert sentNumbers == before + LineNumbers(lines[i], minThreshold);
            break;
          }
        }
        j := j + 1;
      }
      if j == |words| {
        assert sentNumbers == before + LineNumbers(lines[i], minThreshold);
      }
      assert lines[..i + 1][..i] == lines[..i];
    }
    assert lines[..|lines|] == lines;
    if sentNumbers != [] {
      report := Found(|sentNumbers|, Sum(sentNumbers), Mean(sentNumbers));
    } else {
      report := NothingAbove;
    }
  }
}
