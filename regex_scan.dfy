/**
 * `analyze_log` of average2.py: on every line, every non-overlapping match of
 * the pattern `\b` + marker + `\s*(-?\d+)`, left to right; the captured
 * integers that reach `min_value` (all of them when there is no minimum) are
 * summarised as (average, count, numbers), or (0, 0, []) when none survive
 * or the file does not exist.
 */
module RegexScan {
  import opened LogText

  /**
   * The markers modelled: non-empty, and starting with a word character, so
   * that `\b` in front of the marker means "at the start of the line, or
   * after a character that is not a word character".
   */
  predicate ValidMarker(marker: string) {
    |marker| > 0 && IsWordChar(marker[0])
  }

  /**
   * One match of the pattern: the whole match spans [start, end), the
   * captured group `-?\d+` spans [numStart, end), and `value` is `int()` of
   * the captured text.
   */
  datatype Hit = Hit(start: nat, numStart: nat, end: nat, value: int)

  /** `\b` in front of a marker whose first character is a word character. */
  predicate BoundaryBefore(line: string, i: nat)
    requires i <= |line|
  {
    i == 0 || !IsWordChar(line[i - 1])
  }

  /** The marker occurs literally at position `i` (the effect of `re.escape`). */
  predicate MarkerAt(line: string, marker: string, i: nat) {
    i + |marker| <= |line| && line[i..i + |marker|] == marker
  }

  /**
   * Declarative reading of the pattern: `h` is the match that begins at
   * `h.start`. A word boundary, the marker, whitespace up to the captured
   * group, the group `-?\d+` whose digit run cannot be extended (`\d+` is
   * greedy), and the group's integer as value.
   */
  predicate IsMatch(line: string, marker: string, h: Hit) {
    && h.start + |marker| <= h.numStart < h.end <= |line|
    && BoundaryBefore(line, h.start)
    && MarkerAt(line, marker, h.start)
    && (forall p :: h.start + |marker| <= p < h.numStart ==> IsSpace(line[p]))
    && IsNumeral(line[h.numStart..h.end])
    && (h.end == |line| || !IsDigit(line[h.end]))
    && h.value == NumeralValue(line[h.numStart..h.end])
  }

  /** End of the longest run of whitespace from `j` on (greedy `\s*`). */
  function SpacesEnd(line: string, j: nat): (k: nat)
    requires j <= |line|
    ensures j <= k <= |line|
    decreases |line| - j
  {
    if j < |line| && IsSpace(line[j]) then SpacesEnd(line, j + 1) else j
  }

  /** `\s*` takes whitespace only, and all of it. */
  lemma {:induction false} SpacesEndMaximal(line: string, j: nat)
    requires j <= |line|
    ensures forall p :: j <= p < SpacesEnd(line, j) ==> IsSpace(line[p])
    ensures SpacesEnd(line, j) == |line| || !IsSpace(line[SpacesEnd(line, j)])
    decreases |line| - j
  {
    if j < |line| && IsSpace(line[j]) {
      SpacesEndMaximal(line, j + 1);
    }
  }

  /** End of the longest run of digits from `j` on (greedy `\d+`). */
  function DigitsEnd(line: string, j: nat): (k: nat)
    requires j <= |line|
    ensures j <= k <= |line|
    decreases |line| - j
  {
    if j < |line| && IsDigit(line[j]) then DigitsEnd(line, j + 1) else j
  }

  /** `\d+` takes digits only, and all of them. */
  lemma {:induction false} DigitsEndMaximal(line: string, j: nat)
    requires j <= |line|
    ensures AllDigits(line[j..DigitsEnd(line, j)])
    ensures DigitsEnd(line, j) == |line| || !IsDigit(line[DigitsEnd(line, j)])
    decreases |line| - j
  {
    if j < |line| && IsDigit(line[j]) {
      DigitsEndMaximal(line, j + 1);
      assert line[j..DigitsEnd(line, j)] == [line[j]] + line[j + 1..DigitsEnd(line, j)];
    }
  }

  /**
   * The part of the pattern after the marker, tried at `m`: `\s*`, then the
   * captured group `-?\d+`. The match would begin at `i`.
   */
  function NumberAfter(line: string, i: nat, m: nat): (r: Option<Hit>)
    requires i < m <= |line|
    ensures r.Some? ==> r.value.start == i && m <= r.value.numStart < r.value.end <= |line|
  {
    var j := SpacesEnd(line, m);
    var d := if j < |line| && line[j] == '-' then j + 1 else j;
    var e := DigitsEnd(line, d);
    if d < e then
      DigitsEndMaximal(line, d);
      assert line[j..e][1..] == line[d..e] || line[j..e] == line[d..e];
      Some(Hit(i, j, e, NumeralValue(line[j..e])))
    else None
  }

  /**
   * One attempt of the regex engine at position `i`: the match found there,
   * or None when the pattern does not match at `i`.
   */
  function MatchAt(line: string, marker: string, i: nat): (r: Option<Hit>)
    requires ValidMarker(marker) && i <= |line|
    ensures r.Some? ==> r.value.start == i && i + |marker| <= r.value.numStart < r.value.end <= |line|
  {
    if BoundaryBefore(line, i) && MarkerAt(line, marker, i) then NumberAfter(line, i, i + |marker|)
    else None
  }

  /** The whitespace run ending at a non-space character `n` is the one `\s*` takes. */
  lemma SpacesEndAt(line: string, j: nat, n: nat)
    requires j <= n < |line| && !IsSpace(line[n])
    requires forall p :: j <= p < n ==> IsSpace(line[p])
    ensures SpacesEnd(line, j) == n
  {
    SpacesEndMaximal(line, j);
  }

  /** A digit run that cannot be extended is the one `\d+` takes. */
  lemma DigitsEndAt(line: string, d: nat, e: nat)
    requires d <= e <= |line| && AllDigits(line[d..e])
    requires e == |line| || !IsDigit(line[e])
    ensures DigitsEnd(line, d) == e
  {
    DigitsEndMaximal(line, d);
  }

  /**
   * The pattern matches at `i` exactly when the declarative reading says so,
   * and the match is then unique: a marker after a word character, or not
   * followed by whitespace, an optional '-' and a digit, yields nothing.
   */
  lemma MatchAtExactly(line: string, marker: string, i: nat, h: Hit)
    requires ValidMarker(marker) && i <= |line|
    ensures MatchAt(line, marker, i) == Some(h) <==> h.start == i && IsMatch(line, marker, h)
  {
    if MatchAt(line, marker, i) == Some(h) {
      MatchAtSound(line, marker, i);
    }
    if h.start == i && IsMatch(line, marker, h) {
      MatchAtComplete(line, marker, h);
    }
  }

  /** What the engine returns at `i` is a match beginning at `i`. */
  lemma MatchAtSound(line: string, marker: string, i: nat)
    requires ValidMarker(marker) && i <= |line|
    ensures MatchAt(line, marker, i).Some? ==>
      MatchAt(line, marker, i).value.start == i && IsMatch(line, marker, MatchAt(line, marker, i).value)
  {
    if MatchAt(line, marker, i).Some? {
      var m := i + |marker|;
      SpacesEndMaximal(line, m);
      var j := SpacesEnd(line, m);
      var d := if j < |line| && line[j] == '-' then j + 1 else j;
      DigitsEndMaximal(line, d);
    }
  }

  /** A match beginning at `h.start` is what the engine returns there. */
  lemma MatchAtComplete(line: string, marker: string, h: Hit)
    requires ValidMarker(marker) && IsMatch(line, marker, h)
    ensures MatchAt(line, marker, h.start) == Some(h)
  {
    var s := line[h.numStart..h.end];
    assert s[0] == line[h.numStart];
    SpacesEndAt(line, h.start + |marker|, h.numStart);
    var d := if line[h.numStart] == '-' then h.numStart + 1 else h.numStart;
    assert line[d..h.end] == if d == h.numStart then s else s[1..];
    DigitsEndAt(line, d, h.end);
  }

  /** The decimal text of `n` has the shape `-?\d+` and reads back as `n`. */
  lemma NumeralShowInt(n: int)
    ensures IsNumeral(ShowInt(n)) && NumeralValue(ShowInt(n)) == n
  {
    var text := ShowInt(n);
    if n < 0 {
      ShowNatRoundTrip(-n);
      assert text[1..] == ShowNat(-n);
    } else {
      ShowNatRoundTrip(n);
    }
  }

  /**
   * The marker at a word boundary, directly followed by the decimal text of
   * `n` that no further digit extends, is a match whose value is `n`.
   */
  lemma MatchAtNumber(pre: string, marker: string, n: int, post: string)
    requires ValidMarker(marker)
    requires pre == [] || !IsWordChar(pre[|pre| - 1])
    requires post == [] || !IsDigit(post[0])
    ensures var line := pre + marker + ShowInt(n) + post;
      var m := |pre| + |marker|;
      MatchAt(line, marker, |pre|) == Some(Hit(|pre|, m, m + |ShowInt(n)|, n))
  {
    var text := ShowInt(n);
    var line := pre + marker + text + post;
    var m := |pre| + |marker|;
    var h := Hit(|pre|, m, m + |text|, n);
    assert line[|pre|..m] == marker;
    assert line[m..h.end] == text;
    assert pre != [] ==> line[|pre| - 1] == pre[|pre| - 1];
    assert post != [] ==> line[h.end] == post[0];
    NumeralShowInt(n);
    assert IsMatch(line, marker, h);
    MatchAtComplete(line, marker, h);
  }

  /**
   * `re.findall` from position `i`: try to match at each position in turn;
   * after a match resume at its end, after a failure at the next position.
   */
  function Hits(line: string, marker: string, i: nat): seq<Hit>
    requires ValidMarker(marker) && i <= |line|
    decreases |line| - i
  {
    match MatchAt(line, marker, i)
    case Some(h) => [h] + Hits(line, marker, h.end)
    case None => if i == |line| then [] else Hits(line, marker, i + 1)
  }

  /**
   * `re.findall` returns matches in increasing order and without overlap:
   * each search resumes where the previous match ended.
   */
  lemma {:induction false} HitsOrdered(line: string, marker: string, i: nat)
    requires ValidMarker(marker) && i <= |line|
    ensures forall k :: 0 <= k < |Hits(line, marker, i)| ==>
      i <= Hits(line, marker, i)[k].start < Hits(line, marker, i)[k].end <= |line|
    ensures forall k :: 0 <= k < |Hits(line, marker, i)| - 1 ==>
      Hits(line, marker, i)[k].end <= Hits(line, marker, i)[k + 1].start
    decreases |line| - i
  {
    var hs := Hits(line, marker, i);
    match MatchAt(line, marker, i)
    case Some(h) =>
      var rest := Hits(line, marker, h.end);
      HitsOrdered(line, marker, h.end);
      assert hs == [h] + rest;
      forall k | 0 <= k < |hs| - 1
        ensures hs[k].end <= hs[k + 1].start
      {
        assert hs[k + 1] == rest[k];
        if k > 0 {
          assert hs[k] == rest[k - 1];
        }
      }
    case None =>
      if i < |line| {
        assert hs == Hits(line, marker, i + 1);
        HitsOrdered(line, marker, i + 1);
      }
  }

  /** Everything `re.findall` returns from `i` on is a match of the pattern there. */
  lemma {:induction false} HitsAreMatches(line: string, marker: string, i: nat)
    requires ValidMarker(marker) && i <= |line|
    ensures forall h :: h in Hits(line, marker, i) ==> i <= h.start && IsMatch(line, marker, h)
    decreases |line| - i
  {
    var hs := Hits(line, marker, i);
    match MatchAt(line, marker, i)
    case Some(h) =>
      MatchAtSound(line, marker, i);
      HitsAreMatches(line, marker, h.end);
      assert hs == [h] + Hits(line, marker, h.end);
    case None =>
      if i < |line| {
        assert hs == Hits(line, marker, i + 1);
        HitsAreMatches(line, marker, i + 1);
      }
  }

  /** Positions that do not hold the marker's first character are passed over one by one. */
  lemma {:induction false} HitsSkip(line: string, marker: string, i: nat, j: nat)
    requires ValidMarker(marker) && i <= j <= |line|
    requires marker[0] !in line[i..j]
    ensures Hits(line, marker, i) == Hits(line, marker, j)
    decreases j - i
  {
    if i < j {
      assert line[i] == line[i..j][0];
      assert MatchAt(line, marker, i).None?;
      assert line[i + 1..j] == line[i..j][1..];
      HitsSkip(line, marker, i + 1, j);
    }
  }

  /** Position `p` lies inside one of the matches `hs`. */
  predicate Covers(hs: seq<Hit>, p: nat) {
    exists k :: 0 <= k < |hs| && hs[k].start <= p < hs[k].end
  }

  /**
   * `re.findall` leaves out no match: every position from `i` on where the
   * pattern matches lies inside one of the matches it returns.
   */
  lemma {:induction false} HitsComplete(line: string, marker: string, i: nat)
    requires ValidMarker(marker) && i <= |line|
    ensures forall p :: i <= p <= |line| && MatchAt(line, marker, p).Some? ==> Covers(Hits(line, marker, i), p)
    decreases |line| - i
  {
    var hs := Hits(line, marker, i);
    match MatchAt(line, marker, i)
    case None =>
      if i < |line| {
        assert hs == Hits(line, marker, i + 1);
        HitsComplete(line, marker, i + 1);
        forall p | i <= p <= |line| && MatchAt(line, marker, p).Some?
          ensures Covers(hs, p)
        {
          assert p != i;
        }
      }
    case Some(h) =>
      var rest := Hits(line, marker, h.end);
      HitsComplete(line, marker, h.end);
      assert hs == [h] + rest;
      forall p | i <= p <= |line| && MatchAt(line, marker, p).Some?
        ensures Covers(hs, p)
      {
        if p < h.end {
          assert hs[0].start <= p < hs[0].end;
        } else {
          var k :| 0 <= k < |rest| && rest[k].start <= p < rest[k].end;
          assert hs[k + 1] == rest[k];
        }
      }
  }

  /** The captured integers of the matches, in order. */
  function Values(hs: seq<Hit>): seq<int>
    decreases |hs|
  {
    if hs == [] then [] else [hs[0].value] + Values(hs[1..])
  }

  /** `re.findall(pattern, line)` followed by `int()` of each captured group. */
  function FindAll(line: string, marker: string): seq<int>
    requires ValidMarker(marker)
  {
    Values(Hits(line, marker, 0))
  }

  /** The filter of average2.py:50: no minimum keeps everything, otherwise `num >= min_value`. */
  predicate Passes(x: int, minValue: Option<int>) {
    minValue.None? || x >= minValue.value
  }

  /** The numbers of `xs` that pass the filter, in their order. */
  function Kept(xs: seq<int>, minValue: Option<int>): seq<int>
    decreases |xs|
  {
    if xs == [] then []
    else
      var x := xs[|xs| - 1];
      Kept(xs[..|xs| - 1], minValue) + (if Passes(x, minValue) then [x] else [])
  }

  /** A number survives the filter exactly when it occurs and passes; without a minimum nothing is dropped. */
  lemma {:induction false} KeptExactly(xs: seq<int>, minValue: Option<int>)
    ensures forall x :: x in Kept(xs, minValue) <==> x in xs && Passes(x, minValue)
    ensures minValue.None? ==> Kept(xs, minValue) == xs
    decreases |xs|
  {
    if xs != [] {
      var init := xs[..|xs| - 1];
      KeptExactly(init, minValue);
      assert xs == init + [xs[|xs| - 1]];
    }
  }

  /** Filtering a concatenation is concatenating the filtered parts. */
  lemma {:induction false} KeptConcat(a: seq<int>, b: seq<int>, minValue: Option<int>)
    ensures Kept(a + b, minValue) == Kept(a, minValue) + Kept(b, minValue)
    decreases |b|
  {
    if b == [] {
      assert a + b == a;
    } else {
      assert (a + b)[..|a + b| - 1] == a + b[..|b| - 1];
      KeptConcat(a, b[..|b| - 1], minValue);
    }
  }

  /** Every captured number of the file, line after line, left to right within a line. */
  function FileMatches(lines: seq<string>, marker: string): seq<int>
    requires ValidMarker(marker)
  {
    ConcatMap(lines, line requires ValidMarker(marker) => FindAll(line, marker))
  }

  /** The numbers `analyze_log` collects: per line, the captured numbers that pass the filter. */
  function FileNumbers(lines: seq<string>, marker: string, minValue: Option<int>): seq<int>
    requires ValidMarker(marker)
    decreases |lines|
  {
    if lines == [] then []
    else
      FileNumbers(lines[..|lines| - 1], marker, minValue)
        + Kept(FindAll(lines[|lines| - 1], marker), minValue)
  }

  /** Lines contribute in file order: the matches of a file are those of its parts, concatenated. */
  lemma FileMatchesConcat(a: seq<string>, b: seq<string>, marker: string)
    requires ValidMarker(marker)
    ensures FileMatches(a + b, marker) == FileMatches(a, marker) + FileMatches(b, marker)
  {
    ConcatMapConcat(a, b, line requires ValidMarker(marker) => FindAll(line, marker));
  }

  /** Filtering line by line is filtering all the file's matches at once. */
  lemma {:induction false} FileNumbersKept(lines: seq<string>, marker: string, minValue: Option<int>)
    requires ValidMarker(marker)
    ensures FileNumbers(lines, marker, minValue) == Kept(FileMatches(lines, marker), minValue)
    decreases |lines|
  {
    if lines != [] {
      var init := lines[..|lines| - 1];
      FileNumbersKept(init, marker, minValue);
      KeptConcat(FileMatches(init, marker), FindAll(lines[|lines| - 1], marker), minValue);
    }
  }

  /** The filter over one more number of a list. */
  lemma KeptStep(xs: seq<int>, k: nat, minValue: Option<int>)
    requires k < |xs|
    ensures Kept(xs[..k + 1], minValue)
      == Kept(xs[..k], minValue) + (if Passes(xs[k], minValue) then [xs[k]] else [])
  {
    assert xs[..k + 1][..k] == xs[..k];
  }

  /** The numbers of one more line of a file. */
  lemma FileNumbersStep(lines: seq<string>, i: nat, marker: string, minValue: Option<int>)
    requires ValidMarker(marker) && i < |lines|
    ensures FileNumbers(lines[..i + 1], marker, minValue)
      == FileNumbers(lines[..i], marker, minValue) + Kept(FindAll(lines[i], marker), minValue)
  {
    assert lines[..i + 1][..i] == lines[..i];
  }

  /** The tuple `analyze_log` returns. */
  datatype Summary = Summary(average: real, count: nat, numbers: seq<int>)

  /**
   * The aggregation at the end of `analyze_log`: the average, count and list
   * of the collected numbers, or (0, 0, []) when there are none.
   */
  function Summarize(numbers: seq<int>): (r: Summary)
    ensures r.numbers == numbers && r.count == |numbers|
    ensures r.count > 0 ==> r.count as real * r.average == Sum(numbers) as real
    ensures r.count == 0 ==> r == Summary(0.0, 0, [])
  {
    if numbers == [] then Summary(0.0, 0, []) else Summary(Mean(numbers), |numbers|, numbers)
  }

  /** The result of `analyze_log`; a missing file is `None`. */
  function Analysis(file: Option<seq<string>>, marker: string, minValue: Option<int> := None): (r: Summary)
    requires ValidMarker(marker)
    ensures file.None? ==> r == Summary(0.0, 0, [])
    ensures file.Some? ==> r == Summarize(Kept(FileMatches(file.value, marker), minValue))
  {
    match file
    case None => Summary(0.0, 0, [])
    case Some(lines) =>
      FileNumbersKept(lines, marker, minValue);
      Summarize(FileNumbers(lines, marker, minValue))
  }

  /** The result for an existing file summarizes what its lines contribute. */
  lemma AnalysisOfLines(lines: seq<string>, marker: string, minValue: Option<int>)
    requires ValidMarker(marker)
    ensures Analysis(Some(lines), marker, minValue) == Summarize(FileNumbers(lines, marker, minValue))
  {
    FileNumbersKept(lines, marker, minValue);
  }

  /**
   * A number is reported exactly when the file exists, the number is captured
   * somewhere in it, and it reaches `min_value`; with no minimum, every
   * captured number is reported, in file order.
   */
  lemma AnalysisReportsExactly(file: Option<seq<string>>, marker: string, minValue: Option<int>)
    requires ValidMarker(marker)
    ensures forall x :: x in Analysis(file, marker, minValue).numbers <==>
      file.Some? && x in FileMatches(file.value, marker) && Passes(x, minValue)
    ensures file.Some? && minValue.None? ==> Analysis(file, marker, minValue).numbers == FileMatches(file.value, marker)
  {
    if file.Some? {
      KeptExactly(FileMatches(file.value, marker), minValue);
    }
  }

  /**
   * `analyze_log`: for every line, every captured number that passes the
   * filter is appended to `numbers`; then the summary or (0, 0, []).
   */
  method AnalyzeLog(file: Option<seq<string>>, searchString: string, minValue: Option<int> := None)
    returns (average: real, count: nat, numbers: seq<int>)
    requires ValidMarker(searchString)
    ensures Summary(average, count, numbers) == Analysis(file, searchString, minValue)
  {
    if file.None? {
      return 0.0, 0, [];
    }
    var lines := file.value;
    var allNumbers: seq<int> := [];
    for i := 0 to |lines|
      invariant allNumbers == FileNumbers(lines[..i], searchString, minValue)
    {
      var found := FindAll(lines[i], searchString);
      ghost var before := allNumbers;
      for k := 0 to |found|
        invariant allNumbers == before + Kept(found[..k], minValue)
      {
        var num := found[k];
        KeptStep(found, k, minValue);
        if minValue.None? || num >= minValue.value {
          allNumbers := allNumbers + [num];
        }
      }
      assert found[..|found|] == found;
      FileNumbersStep(lines, i, searchString, minValue);
    }
    assert lines[..|lines|] == lines;
    AnalysisOfLines(lines, searchString, minValue);
    if allNumbers != [] {
      average, count, numbers := Mean(allNumbers), |allNumbers|, allNumbers;
    } else {
      average, count, numbers := 0.0, 0, [];
    }
  }
}
