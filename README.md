# Log number extraction: a Dafny model

This project models the two log analyzers of the repository. Each scans a log
file line by line, picks out the integers that follow the marker `sent:`,
filters them by a threshold and reports how many there are, their sum or their
average.

- `analyze_log` (average2.py) is the regex variant. On every line it searches
  for `\b` + the escaped marker + `\s*(-?\d+)` with `re.findall`. It keeps
  each captured integer that is `>= min_value`, or all of them when there is no
  minimum. It returns `(average, count, numbers)`, or `(0, 0, [])` when nothing
  survives or the file does not exist.
- `analyze_log_file` (average1.py) is the word variant. It splits every line
  into whitespace-separated words. The first word that starts with `sent:` and
  whose field between the first and second colon parses with `int()` ends the
  scan of the line. Its value is collected when it is `> min_threshold`. A
  field that does not parse is skipped. The result is reported as count, sum
  and average, or as "could not find".

Both functions loop over the file and grow a list, so each is a Dafny
`method` with loops and invariants. Each method is proved equal to a pure
specification: `RegexScan.Analysis` and `WordScan.Analysis`. The properties
the scripts promise are proved as lemmas about those specifications.

Files:

- `log_text.dfy` (module `LogText`): character classes (ASCII `\d`, `\w`,
  whitespace), decimal numerals, `sum`, the mean, and the line-by-line
  concatenation `ConcatMap`.
- `regex_scan.dfy` (module `RegexScan`):
  - the pattern, read declaratively as `IsMatch`;
  - one attempt of the regex engine, `MatchAt`;
  - `re.findall`, as `Hits` and `FindAll`;
  - the filter, `Kept`;
  - the summary, `Summarize`;
  - the method `AnalyzeLog`.
- `word_scan.dfy` (module `WordScan`):
  - `str.split()` as `Words`, and `str.split(sep)` as `Split`;
  - `int()` as `ParseInt`;
  - the per-word value `SentValue`;
  - the per-line search `FirstSent` and `LineNumbers`;
  - the report, `Report` and `Summarize`;
  - the method `AnalyzeLogFile`.
- `scenarios.dfy` (module `Scenarios`): worked lines that show where the two
  scanners agree and where they differ.

The file is modelled as `Option<seq<string>>`: `None` means the file does not
exist, and `Some(lines)` holds its lines.

Rules of the scripts the model keeps as written:

- `analyze_log` keeps a number that is `>= min_value` (average2.py:50), so a
  number equal to the minimum is kept. `analyze_log_file` keeps a number that
  is `> min_threshold` (average1.py:34).
- `analyze_log` captures every occurrence on a line. `analyze_log_file` takes
  at most one value per line: the first parsed value ends the line
  (average1.py:38), even when it fails the threshold.
- The `\b` in front of the marker treats `_` as a word character, so an
  underscore right before the marker also blocks the match.
- The defaults are kept: `min_threshold` is 0 (average1.py:3) and `min_value`
  is `None`, meaning no minimum (average2.py:4).

## Model

| member | source | states |
|---|---|---|
| `LogText.Mean` | average2.py:59-61 | the average times the count is the sum |
| `LogText.SumConcat` | average1.py:46 | the sum of two lists one after the other is the sum of their sums |
| `LogText.ConcatMapConcat` | average2.py:33 | per-line results of a file split in two are those of the two parts, concatenated in line order |
| `RegexScan.SpacesEndMaximal` | average2.py:42 | `\s*` takes only whitespace, and all of it |
| `RegexScan.DigitsEndMaximal` | average2.py:42 | `\d+` takes only digits and stops only at a non-digit or at the end of the line (greedy) |
| `RegexScan.NumberAfter` | average2.py:42 | a captured group begins at or after the end of the marker and ends inside the line |
| `RegexScan.MatchAt` | average2.py:42-43 | a match found at `i` begins at `i`; its group begins after the marker, is non-empty and ends inside the line |
| `RegexScan.MatchAtSound` | average2.py:42-43 | whatever one attempt returns satisfies the pattern: word boundary, literal marker, whitespace, `-?\d+` with a maximal digit run, and value `int()` of the group |
| `RegexScan.MatchAtComplete` | average2.py:42-43 | every match of the pattern that begins at `p` is exactly what the attempt at `p` returns |
| `RegexScan.MatchAtExactly` | average2.py:42-43 | an attempt at `i` returns `h` if and only if `h` begins at `i` and matches the pattern, so the match at a position is unique |
| `RegexScan.NumeralShowInt` | average2.py:48 | the decimal text of every integer has the shape `-?\d+`, and `int()` reads it back as the same integer |
| `RegexScan.MatchAtNumber` | average2.py:42-43 | the marker after a non-word character (or at the line start), then the decimal text of `n` with no further digit, is a match whose value is `n` |
| `RegexScan.HitsOrdered` | average2.py:43 | `findall` returns matches inside the line, in increasing order, each beginning at or after the end of the previous one (no overlap) |
| `RegexScan.HitsAreMatches` | average2.py:43 | every match `findall` returns satisfies the pattern |
| `RegexScan.HitsSkip` | average2.py:42-43 | positions that do not hold the marker's first character contribute nothing |
| `RegexScan.HitsComplete` | average2.py:43 | every position where the pattern matches lies inside one of the returned matches: `findall` misses nothing it could have taken |
| `RegexScan.KeptExactly` | average2.py:47-51 | a number survives the filter if and only if it occurs and passes `min_value is None or num >= min_value`; with no minimum the list is unchanged |
| `RegexScan.KeptConcat` | average2.py:47-51 | filtering two lists one after the other is filtering each, concatenated |
| `RegexScan.FileMatchesConcat` | average2.py:33-47 | the captured numbers of a file are those of its parts, in line order |
| `RegexScan.FileNumbersKept` | average2.py:33-51 | filtering line by line gives the same list as filtering all the file's captured numbers at once |
| `RegexScan.Summarize` | average2.py:57-65 | the list is returned unchanged and the count is its length; a non-empty list has count times average equal to its sum; an empty one gives `(0, 0, [])` |
| `RegexScan.Analysis` | average2.py:4-27 | a missing file gives `(0, 0, [])`; otherwise the result summarizes the file's captured numbers that pass the filter; `min_value` defaults to no minimum |
| `RegexScan.AnalysisReportsExactly` | average2.py:47-65 | a number is reported if and only if the file exists, it is captured somewhere, and it passes the filter; with no minimum, every captured number is reported in file order |
| `RegexScan.AnalyzeLog` | average2.py:4-65 | the method's `(average, count, numbers)` equals the specification `Analysis` for every file, marker and minimum; `min_value` defaults to no minimum |
| `WordScan.WordsFrom` | average1.py:22 | every word of `split()` is non-empty and holds no whitespace |
| `WordScan.WordsSpaced` | average1.py:22 | `split()` gives back the words however they are laid out: any non-empty whitespace run between two words, and any whitespace, or none, before the first word (indentation) and after the last (the trailing newline) |
| `WordScan.WordsJoin` | average1.py:22 | the special case of single spaces and no whitespace at either end: words joined by single spaces split back into the same words |
| `WordScan.Split` | average1.py:29 | `split(':')` gives at least one piece, and no piece holds a colon |
| `WordScan.SplitJoin` | average1.py:29 | joining the pieces of `split(':')` with colons gives back the word |
| `WordScan.SplitAfterFirst` | average1.py:29 | text without a colon, then a colon, is the first piece, and the rest splits on its own |
| `WordScan.SplitFirst` | average1.py:29 | the first piece is a prefix of the word that ends at the first colon or at the word's end |
| `WordScan.SplitNoSeparator` | average1.py:29 | a word without a colon is a single piece |
| `WordScan.ParseInt` | average1.py:31 | `int()` succeeds only on non-empty text |
| `WordScan.ParseIntNeedsDigit` | average1.py:31 | `int()` refuses text that holds no digit, as in `sent:abc` |
| `WordScan.ParseIntNumeral` | average2.py:48 | on text of the shape `-?\d+`, the only shape the regex group captures, `int()` as the word scanner reads it gives the same value as the regex scanner's reading |
| `WordScan.ParseIntShowInt` | average1.py:31 | `int()` reads back the decimal text of every integer |
| `WordScan.SentValueField` | average1.py:26-31 | for a word that starts with `sent:`, the value read is `int()` of the text between the first colon and the next colon or the word's end; `parts[1]` always exists, so no `IndexError` |
| `WordScan.SentWordValue` | average1.py:26-31 | `sent:` followed by the decimal text of `n`, alone or followed by a further colon field, yields `n` |
| `WordScan.FirstSentSkips` | average1.py:24-41 | words that yield no value are passed over, including `sent:` words whose field does not parse |
| `WordScan.FirstSentFound` | average1.py:24-38 | when a line yields a value, some word is the first to yield one and gives that value |
| `WordScan.FirstSentExactly` | average1.py:24-41 | a line yields `v` if and only if some word yields `v` and every word before it yields nothing |
| `WordScan.FirstSentNone` | average1.py:24-41 | a line yields nothing if and only if none of its words yields a value |
| `WordScan.LineNumbers` | average1.py:24-38 | a line contributes at most one number, and only one greater than the threshold |
| `WordScan.LineNumbersFirst` | average1.py:24-38 | when word `k` is the first to yield a value `v`, the line contributes `[v]` if `v > min_threshold` and nothing otherwise, whatever the later words hold: a first value at or below the threshold ends the line with nothing |
| `WordScan.LineNumbersNone` | average1.py:24-41 | a line none of whose words yields a value contributes nothing |
| `WordScan.FileNumbers` | average1.py:15-41 | the collected list has at most one number per line, each greater than the threshold |
| `WordScan.FileNumbersConcat` | average1.py:20-41 | the collected numbers of a file are those of its parts, in line order |
| `WordScan.Summarize` | average1.py:44-55 | "could not find" if and only if nothing was collected; otherwise the count is the list's length, the total its sum, and count times average equals the total |
| `WordScan.Analysis` | average1.py:3-58 | "file not found" if and only if the file is missing; otherwise the report summarizes the collected numbers; `min_threshold` defaults to 0 |
| `WordScan.AnalyzeLogFile` | average1.py:3-58 | the method's list equals `FileNumbers` (empty for a missing file), and its report equals the specification `Analysis`; `min_threshold` defaults to 0 |
| `Scenarios.RegexTwoOnOneLine` | average2.py:42-47 | on `sent:118 sent:9999` the regex scanner captures `[118, 9999]` |
| `Scenarios.RegexTwoOnOneLineSummary` | average2.py:47-65 | that line with minimum 89 gives count 2, numbers `[118, 9999]` and average 5058.5 |
| `Scenarios.WordTwoOnOneLine` | average1.py:24-38 | on the same line the word scanner collects only `[118]` |
| `Scenarios.WordBreakBelowThreshold` | average1.py:34-38 | on `sent:50 sent:118` with threshold 89 the first value ends the line although it fails the threshold, so nothing is collected |
| `Scenarios.WordSkipsUnparsable` | average1.py:27-41 | on `sent:abc sent:120` the unparsable word is skipped and 120 is collected |
| `Scenarios.WordSecondColonField` | average1.py:29-31 | `sent:12:34` yields 12: only the field between the first and second colon is read |
| `Scenarios.WordIgnoresOtherPrefixes` | average1.py:26 | on `audioSent:0 packet errors:0 sent:115` only the last word counts |
| `Scenarios.RegexIgnoresOtherWords` | average2.py:38-43 | the regex scanner also captures only 115 on that line |
| `Scenarios.WordIndentedLine` | average1.py:20-38 | an indented line with a run of spaces between its words and a trailing newline, `    sent:118   sent:9999\n`, still yields `[118]` with threshold 89 |
| `Scenarios.WordDefaultThreshold` | average1.py:3-38 | with the default threshold 0, `sent:0 sent:7` gives "could not find": 0 is dropped, and it still ends the line |
| `Scenarios.RegexNoMinimumByDefault` | average2.py:4-65 | with no minimum, the default, `sent:-3` gives count 1, numbers `[-3]` and average -3 |
| `Scenarios.RegexNeedsWordBoundary` | average2.py:38-42 | `xsent:5` yields nothing: the marker right after a word character is not at a word boundary |

## Left out

- File I/O is not modelled. A file is `Option<seq<string>>`, and `None` stands for a missing file (`os.path.exists` in average2.py:25, `FileNotFoundError` in average1.py:57).
- How the file iterator splits text into lines is not modelled, and neither is the `errors='ignore'` decoding. The model takes the lines as given.
- The `except Exception` branches are not modelled (average2.py:53-55, average1.py:59-60). Both react to I/O failures, which the model does not have. average1.py:59-60 also catches a decoding error and the float overflow of the average described below. average2.py:53-55 also catches the digit limit of `int()` described in the next line but one; in average1.py that limit is caught at 39-41 instead.
- `WordScan.ParseInt` accepts numerals of any length. Since CPython 3.11, and in the security releases 3.7.14, 3.8.14, 3.9.14 and 3.10.7, `int()` raises `ValueError` on more than 4300 digits by default, and `sys.set_int_max_str_digits` can change that limit. average1.py:39-41 would swallow that error and go on to the next word, whereas the model collects the value and ends the line.
- `RegexScan.AnalyzeLog` does not model that limit either. A captured group of more than 4300 digits makes `int()` at average2.py:48 raise, and average2.py:53-55 then returns `(0, 0, [])` for the whole file, whereas the method keeps the number.
- `RegexScan.Analysis` does not model that limit: for a file with a captured group of more than 4300 digits it summarizes the captured numbers, where `analyze_log` returns `(0, 0, [])`.
- The `print` calls and the two-decimal formatting of the average are not modelled. `WordScan.AnalyzeLogFile` returns the list and the report that the script prints; `analyze_log_file` itself returns nothing.
- Averages are exact rationals (`real`), not binary floating point. The empty result's integer `0` is written `0.0`.
- `WordScan.Summarize` and `RegexScan.Summarize` do not model the overflow of the average. `total_sum / len(...)` divides two integers into a float and raises `OverflowError` when the quotient exceeds the float range (about 1.8e308), for example for a single value of 310 digits. In average1.py that happens at line 48, inside the outer `try`: lines 59-60 print an error and no summary, whereas the model reports `Found`. In average2.py it happens at line 61, outside the `try`, so `analyze_log` raises, whereas the model returns a `Summary`.
- Character classes are ASCII only. `\d`, `\w`, `\s`, `str.split()` and `int()` in Python 3 also accept Unicode digits, letters and whitespace.
- `RegexScan.AnalyzeLog` requires a non-empty marker whose first character is a word character, as `sent:` is. For other markers, `\b` in front of the marker means something else. A marker starting with a non-word character needs a word character before it. An empty marker puts the boundary directly before the whitespace, `-` or digit, so `-5` at the start of a line yields `5`, because there is no boundary between the line start and `-`. `findall` advances the same way for every marker, since a match always holds a digit and is never empty.
- `WordScan.ParseInt` does not model `int()` stripping surrounding whitespace, because a word from `split()` holds none.
- The `__main__` demonstrations are not modelled (average2.py:68-114, average1.py:62-73). Their threshold 89 is used by the worked lines in `Scenarios`.
