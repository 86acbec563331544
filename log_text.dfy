/**
 * Character classes, decimal numerals and aggregation shared by the two log
 * scanners (average1.py and average2.py).
 *
 * Characters are modelled over ASCII only: a digit is '0'..'9', a word
 * character is an ASCII letter, digit or '_', and whitespace is the ASCII
 * subset of what Python's `str.split()` and the regex class `\s` treat as
 * whitespace.
 */
module LogText {

  datatype Option<T> = None | Some(value: T)

  /** An ASCII decimal digit: the model's reading of `\d` and of the digits `int()` accepts. */
  predicate IsDigit(c: char) {
    '0' <= c <= '9'
  }

  /** An ASCII word character: the model's reading of `\w`. */
  predicate IsWordChar(c: char) {
    ('a' <= c <= 'z') || ('A' <= c <= 'Z') || IsDigit(c) || c == '_'
  }

  /**
   * ASCII whitespace as Python sees it: tab, line feed, vertical tab, form
   * feed and carriage return (9..13), the separators 0x1C..0x1F, and space.
   */
  predicate IsSpace(c: char) {
    (9 <= c as int <= 13) || (28 <= c as int <= 32)
  }

  predicate AllDigits(s: string) {
    forall k :: 0 <= k < |s| ==> IsDigit(s[k])
  }

  function DigitValue(c: char): (d: nat)
    requires IsDigit(c)
    ensures d < 10
  {
    c as int - '0' as int
  }

  function DigitChar(d: nat): (c: char)
    requires d < 10
    ensures IsDigit(c) && DigitValue(c) == d
  {
    ('0' as int + d) as char
  }

  /** The value of a numeral of decimal digits, most significant first; the empty numeral is 0. */
  function DigitsValue(s: string): nat
    requires AllDigits(s)
    decreases |s|
  {
    if s == [] then 0 else DigitsValue(s[..|s| - 1]) * 10 + DigitValue(s[|s| - 1])
  }

  /** Text of the shape `-?\d+`. */
  predicate IsNumeral(s: string) {
    |s| > 0 &&
    if s[0] == '-' then |s| > 1 && AllDigits(s[1..]) else AllDigits(s)
  }

  /** `int()` of a numeral of the shape `-?\d+`. */
  function NumeralValue(s: string): int
    requires IsNumeral(s)
  {
    if s[0] == '-' then -(DigitsValue(s[1..]) as int) else DigitsValue(s)
  }

  /** The shortest decimal numeral of `n` (no leading zeros). */
  function ShowNat(n: nat): (s: string)
    ensures |s| > 0 && AllDigits(s)
    decreases n
  {
    if n < 10 then [DigitChar(n)] else ShowNat(n / 10) + [DigitChar(n % 10)]
  }

  /** The decimal numeral of `n`, with a leading '-' when negative (Python's `str(n)`). */
  function ShowInt(n: int): (s: string)
    ensures |s| > 0
  {
    if n < 0 then "-" + ShowNat(-n) else ShowNat(n)
  }

  /** Reading back the numeral of `n` gives `n`. */
  lemma {:induction false} ShowNatRoundTrip(n: nat)
    ensures DigitsValue(ShowNat(n)) == n
  {
    var s := ShowNat(n);
    if n < 10 {
      assert s[..|s| - 1] == [];
    } else {
      assert s[..|s| - 1] == ShowNat(n / 10);
      ShowNatRoundTrip(n / 10);
    }
  }

  /** The lists `f(line)` of all the lines, one after the other in line order. */
  function ConcatMap(lines: seq<string>, f: string --> seq<int>): seq<int>
    requires forall line :: f.requires(line)
    decreases |lines|
  {
    if lines == [] then [] else ConcatMap(lines[..|lines| - 1], f) + f(lines[|lines| - 1])
  }

  /** The lists of a file are those of its parts, concatenated. */
  lemma {:induction false} ConcatMapConcat(a: seq<string>, b: seq<string>, f: string --> seq<int>)
    requires forall line :: f.requires(line)
    ensures ConcatMap(a + b, f) == ConcatMap(a, f) + ConcatMap(b, f)
    decreases |b|
  {
    if b == [] {
      assert a + b == a;
    } else {
      assert (a + b)[..|a + b| - 1] == a + b[..|b| - 1];
      ConcatMapConcat(a, b[..|b| - 1], f);
    }
  }

  /** Python's `sum(xs)`, adding from left to right. */
  function Sum(xs: seq<int>): int
    decreases |xs|
  {
    if xs == [] then 0 else Sum(xs[..|xs| - 1]) + xs[|xs| - 1]
  }

  /** `sum(xs) / len(xs)`, as an exact rational rather than a float. */
  function Mean(xs: seq<int>): (m: real)
    requires |xs| > 0
    ensures |xs| as real * m == Sum(xs) as real
  {
    Sum(xs) as real / |xs| as real
  }

  /** Adding list after list is adding their concatenation. */
  lemma {:induction false} SumConcat(a: seq<int>, b: seq<int>)
    ensures Sum(a + b) == Sum(a) + Sum(b)
    decreases |b|
  {
    if b == [] {
      assert a + b == a;
    } else {
      assert (a + b)[..|a + b| - 1] == a + b[..|b| - 1];
      SumConcat(a, b[..|b| - 1]);
    }
  }
}
