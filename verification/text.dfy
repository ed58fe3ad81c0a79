/**
 Python string primitives the scripts rely on, restricted to ASCII:
 `str.strip()`, `str.strip(chars)`, `str.upper()`, `str.lower()`,
 decimal digit strings and their values.
 */
module Text {

  /** `\d` and `str.isdigit()` on ASCII. */
  predicate IsDigit(c: char) {
    '0' <= c <= '9'
  }

  /** Python's `str.isspace()` (and the regex class `\s`) on ASCII:
      tab, line feed, vertical tab, form feed, carriage return,
      the four separators 0x1C..0x1F, and space. */
  predicate IsSpace(c: char) {
    c == ' ' || (9 <= c as int <= 13) || (28 <= c as int <= 31)
  }

  predicate IsSlash(c: char) {
    c == '/'
  }

  predicate AllDigits(s: string) {
    forall i :: 0 <= i < |s| ==> IsDigit(s[i])
  }

  predicate AllSpace(s: string) {
    forall i :: 0 <= i < |s| ==> IsSpace(s[i])
  }

  /** Length of the longest prefix of `s` whose characters all satisfy `p`. */
  function LeadingRun(s: string, p: char -> bool): (n: nat)
    ensures n <= |s|
    ensures forall i :: 0 <= i < n ==> p(s[i])
    ensures n == |s| || !p(s[n])
  {
    if s == [] || !p(s[0]) then 0 else 1 + LeadingRun(s[1..], p)
  }

  /** Length of the longest suffix of `s` whose characters all satisfy `p`. */
  function TrailingRun(s: string, p: char -> bool): (n: nat)
    ensures n <= |s|
    ensures forall i :: |s| - n <= i < |s| ==> p(s[i])
    ensures n == |s| || !p(s[|s| - n - 1])
  {
    if s == [] || !p(s[|s| - 1]) then 0 else 1 + TrailingRun(s[..|s| - 1], p)
  }

  /** Python's `s.strip(chars)`: drop every leading and trailing character in the class `p`.
      The result is the middle of `s`; what was dropped on either side is all `p`,
      and the result neither starts nor ends with a `p` character. */
  function StripWhere(s: string, p: char -> bool): (r: string)
    ensures |r| <= |s|
    ensures var lo := LeadingRun(s, p);
            lo + |r| <= |s| && r == s[lo..lo + |r|]
            && (forall i :: lo + |r| <= i < |s| ==> p(s[i]))
    ensures r == [] || (!p(r[0]) && !p(r[|r| - 1]))
    ensures r == [] <==> forall i :: 0 <= i < |s| ==> p(s[i])
  {
    var lo := LeadingRun(s, p);
    var rest := s[lo..];
    rest[..|rest| - TrailingRun(rest, p)]
  }

  /** A run of `p` characters followed by a character outside `p` (or nothing) is exactly the leading run. */
  lemma {:induction false} LeadingRunOfConcat(a: string, b: string, p: char -> bool)
    requires forall i :: 0 <= i < |a| ==> p(a[i])
    requires b == [] || !p(b[0])
    ensures LeadingRun(a + b, p) == |a|
    decreases |a|
  {
    if a == [] {
      assert a + b == b;
    } else {
      assert (a + b)[0] == a[0];
      assert (a + b)[1..] == a[1..] + b;
      LeadingRunOfConcat(a[1..], b, p);
    }
  }

  /** `s` cut after its leading run of `p` characters. */
  function SplitRun(s: string, p: char -> bool): (r: (string, string))
    ensures r.0 + r.1 == s
    ensures forall i :: 0 <= i < |r.0| ==> p(r.0[i])
    ensures r.1 == [] || !p(r.1[0])
  {
    var n := LeadingRun(s, p);
    assert s[..n] + s[n..] == s;
    (s[..n], s[n..])
  }

  lemma SplitRunOfConcat(a: string, b: string, p: char -> bool)
    requires forall i :: 0 <= i < |a| ==> p(a[i])
    requires b == [] || !p(b[0])
    ensures SplitRun(a + b, p) == (a, b)
  {
    LeadingRunOfConcat(a, b, p);
    assert (a + b)[..|a|] == a;
    assert (a + b)[|a|..] == b;
  }

  /** Python's `s.strip()` with no argument. */
  function Strip(s: string): string {
    StripWhere(s, IsSpace)
  }

  /** A string that neither starts nor ends with whitespace is left alone by `strip()`. */
  lemma StripUntrimmed(s: string)
    requires s == [] || (!IsSpace(s[0]) && !IsSpace(s[|s| - 1]))
    ensures Strip(s) == s
  {
    assert LeadingRun(s, IsSpace) == 0;
    assert s[0..] == s;
    assert TrailingRun(s, IsSpace) == 0;
  }

  /** `strip()` is idempotent. */
  lemma StripIdempotent(s: string)
    ensures Strip(Strip(s)) == Strip(s)
  {
    StripUntrimmed(Strip(s));
  }

  function UpperChar(c: char): char {
    if 'a' <= c <= 'z' then (c as int - 32) as char else c
  }

  function LowerChar(c: char): char {
    if 'A' <= c <= 'Z' then (c as int + 32) as char else c
  }

  /** Python's `s.upper()` on ASCII letters; every other character is kept. */
  function Upper(s: string): (r: string)
    ensures |r| == |s|
    ensures forall i :: 0 <= i < |s| ==> r[i] == UpperChar(s[i])
  {
    seq(|s|, i requires 0 <= i < |s| => UpperChar(s[i]))
  }

  /** Python's `s.lower()` on ASCII letters; every other character is kept. */
  function Lower(s: string): (r: string)
    ensures |r| == |s|
    ensures forall i :: 0 <= i < |s| ==> r[i] == LowerChar(s[i])
  {
    seq(|s|, i requires 0 <= i < |s| => LowerChar(s[i]))
  }

  predicate NoLowercase(s: string) {
    forall i :: 0 <= i < |s| ==> !('a' <= s[i] <= 'z')
  }

  /** `upper()` leaves a string without lower-case letters unchanged. */
  lemma UpperUnchanged(s: string)
    requires NoLowercase(s)
    ensures Upper(s) == s
  {
  }

  /** Upper-casing twice is upper-casing once. */
  lemma UpperIdempotent(s: string)
    ensures Upper(Upper(s)) == Upper(s)
  {
  }

  /** Upper-casing never turns a space into a non-space or back, so it commutes with `strip()`. */
  lemma {:induction false} StripUpperCommute(s: string)
    ensures Strip(Upper(s)) == Upper(Strip(s))
  {
    var lo := LeadingRun(s, IsSpace);
    LeadingRunUpper(s);
    UpperSuffix(s, lo);
    var rest := s[lo..];
    TrailingRunUpper(rest);
    var hi := |rest| - TrailingRun(rest, IsSpace);
    UpperPrefix(rest, hi);
    assert Strip(s) == rest[..hi];
    assert Strip(Upper(s)) == Upper(rest)[..hi];
  }

  lemma UpperSuffix(s: string, lo: nat)
    requires lo <= |s|
    ensures Upper(s)[lo..] == Upper(s[lo..])
  {
  }

  lemma UpperPrefix(s: string, hi: nat)
    requires hi <= |s|
    ensures Upper(s)[..hi] == Upper(s[..hi])
  {
  }

  lemma {:induction false} LeadingRunUpper(s: string)
    ensures LeadingRun(Upper(s), IsSpace) == LeadingRun(s, IsSpace)
    decreases |s|
  {
    if s != [] && IsSpace(s[0]) {
      assert Upper(s)[1..] == Upper(s[1..]);
      LeadingRunUpper(s[1..]);
    }
  }

  lemma {:induction false} TrailingRunUpper(s: string)
    ensures TrailingRun(Upper(s), IsSpace) == TrailingRun(s, IsSpace)
    decreases |s|
  {
    if s != [] && IsSpace(s[|s| - 1]) {
      assert Upper(s)[..|s| - 1] == Upper(s[..|s| - 1]);
      TrailingRunUpper(s[..|s| - 1]);
    }
  }

  function DigitValue(c: char): nat
    requires IsDigit(c)
  {
    c as int - '0' as int
  }

  function Pow10(k: nat): (r: nat)
    ensures r >= 1
  {
    if k == 0 then 1 else 10 * Pow10(k - 1)
  }

  /** The number a string of decimal digits denotes, most significant digit first. */
  function DigitsValue(ds: string): nat
    requires AllDigits(ds)
  {
    if ds == [] then 0 else 10 * DigitsValue(ds[..|ds| - 1]) + DigitValue(ds[|ds| - 1])
  }

  /** Python's `str(n)` for a natural number: the shortest decimal digit string of `n`. */
  function ShowNat(n: nat): (ds: string)
    ensures |ds| >= 1 && AllDigits(ds)
    ensures |ds| > 1 ==> ds[0] != '0'
    ensures DigitsValue(ds) == n
  {
    var last := ['0' + (n % 10) as char];
    assert DigitValue(last[0]) == n % 10;
    if n < 10 then last
    else
      var front := ShowNat(n / 10);
      var ds := front + last;
      assert ds[..|ds| - 1] == front;
      ds
  }

  /** Appending one digit to a digit string multiplies the value by ten and adds the digit. */
  lemma {:induction false} DigitsValueAppend(a: string, b: string)
    requires AllDigits(a) && AllDigits(b)
    ensures AllDigits(a + b)
    ensures DigitsValue(a + b) == DigitsValue(a) * Pow10(|b|) + DigitsValue(b)
    decreases |b|
  {
    if b != [] {
      var b' := b[..|b| - 1];
      var d := DigitValue(b[|b| - 1]);
      assert (a + b)[..|a + b| - 1] == a + b';
      DigitsValueAppend(a, b');
      var x, p, v := DigitsValue(a), Pow10(|b'|), DigitsValue(b');
      assert DigitsValue(a + b) == 10 * DigitsValue(a + b') + d;
      assert DigitsValue(b) == 10 * v + d;
      assert Pow10(|b|) == 10 * p;
      ShiftDigit(x, p, v, d);
    } else {
      assert a + b == a;
    }
  }

  /** The arithmetic of appending a digit: `10 * (x * p + v) + d == x * (10 * p) + (10 * v + d)`. */
  lemma ShiftDigit(x: int, p: int, v: int, d: int)
    ensures 10 * (x * p + v) + d == x * (10 * p) + (10 * v + d)
  {
    assert 10 * (x * p) == x * (10 * p);
  }
}
