/**
 `parse_file_size` (move_items.py and move_items_docker.py, identical copies):
 a size such as "200MB", "1.5g" or "500 K" becomes a byte count, or `None`.

 The input is stripped and upper-cased, then matched against
 `^(\d+(?:\.\d+)?)\s*([KMGT]?B?)$`. The language of that pattern is modelled as
 the set of renderings of well-formed `SizeLiteral`s; `Scan` is a deterministic
 matcher proved to accept exactly that language and to recover the groups.
 Units are binary (K = 1024 ... T = 1024^4). The number is taken as an exact
 decimal and the result is floor(value * multiplier).
 */
module SizeParse {
  import opened Base
  import opened Text

  /** The letters `[KMGT]` and the power of 1024 each stands for. */
  function PrefixExponent(c: char): Option<nat> {
    if c == 'K' then Some(1)
    else if c == 'M' then Some(2)
    else if c == 'G' then Some(3)
    else if c == 'T' then Some(4)
    else None
  }

  /** The strings the regex group `([KMGT]?B?)` can capture. */
  predicate IsUnitCapture(u: string) {
    || |u| == 0
    || (|u| == 1 && (PrefixExponent(u[0]).Some? || u[0] == 'B'))
    || (|u| == 2 && PrefixExponent(u[0]).Some? && u[1] == 'B')
  }

  function Power1024(e: nat): (r: nat)
    ensures r >= 1
  {
    if e == 0 then 1 else 1024 * Power1024(e - 1)
  }

  /** The binary multiplier a captured unit denotes: its prefix letter's power of 1024,
      or 1 (bytes) when it has no prefix letter. */
  function Multiplier(u: string): (m: nat)
    requires IsUnitCapture(u)
    ensures m >= 1
  {
    if |u| >= 1 && PrefixExponent(u[0]).Some? then Power1024(PrefixExponent(u[0]).value) else 1
  }

  /** The `units` dictionary, key by key. */
  function UnitTable(key: string): Option<nat> {
    if key == "B" then Some(1)
    else if key == "KB" then Some(1024)
    else if key == "K" then Some(1024)
    else if key == "MB" then Some(1024 * 1024)
    else if key == "M" then Some(1024 * 1024)
    else if key == "GB" then Some(1024 * 1024 * 1024)
    else if key == "G" then Some(1024 * 1024 * 1024)
    else if key == "TB" then Some(1024 * 1024 * 1024 * 1024)
    else if key == "T" then Some(1024 * 1024 * 1024 * 1024)
    else None
  }

  /** `match.group(2) or 'B'`: an empty capture means bytes. */
  function UnitKey(u: string): string {
    if u == "" then "B" else u
  }

  /** Every capture of `([KMGT]?B?)`, after the `or 'B'` default, is a key of the table,
      and the table gives it its binary multiplier. So the `unit not in units` branch
      can never be taken. */
  lemma {:induction false} EveryCaptureIsAUnit(u: string)
    requires IsUnitCapture(u)
    ensures UnitTable(UnitKey(u)) == Some(Multiplier(u))
  {
    if |u| == 1 {
      assert u == [u[0]];
    } else if |u| == 2 {
      assert u == [u[0], 'B'];
    }
  }

  /** The pieces of a string the pattern matches: the integer digits, the optional
      fractional digits (after a '.'), the whitespace between number and unit, the unit. */
  datatype SizeLiteral = SizeLiteral(whole: string, fraction: Option<string>, gap: string, unit: string)

  predicate WellFormed(lit: SizeLiteral) {
    && |lit.whole| >= 1 && AllDigits(lit.whole)
    && (lit.fraction.Some? ==> |lit.fraction.value| >= 1 && AllDigits(lit.fraction.value))
    && AllSpace(lit.gap)
    && IsUnitCapture(lit.unit)
  }

  function FractionText(f: Option<string>): string {
    match f
    case None => ""
    case Some(ds) => "." + ds
  }

  /** The text a literal stands for; the pattern's language is exactly
      the set of `Render(lit)` with `WellFormed(lit)`. */
  function Render(lit: SizeLiteral): string {
    lit.whole + FractionText(lit.fraction) + lit.gap + lit.unit
  }

  ghost predicate MatchesSizePattern(t: string) {
    exists lit :: WellFormed(lit) && Render(lit) == t
  }

  /** The optional `(?:\.\d+)` group, given the text after the integer digits: it is taken
      when a point is followed by at least one digit, and then takes every digit after it. */
  function ScanFraction(rest: string): (r: (Option<string>, string))
    requires rest == [] || !IsDigit(rest[0])
    ensures FractionText(r.0) + r.1 == rest
    ensures r.0.Some? ==> |r.0.value| >= 1 && AllDigits(r.0.value)
    ensures r.1 == [] || !IsDigit(r.1[0])
  {
    if 2 <= |rest| && rest[0] == '.' && IsDigit(rest[1]) then
      var digits := rest[1..];
      var (ds, after) := SplitRun(digits, IsDigit);
      assert IsDigit(digits[0]);
      assert |ds| >= 1;
      assert FractionText(Some(ds)) + after == "." + (ds + after);
      assert rest == "." + digits;
      (Some(ds), after)
    else
      (None, rest)
  }

  /** The regex match as a left-to-right scan: maximal digits, then `.digits` when a
      digit follows the point, then maximal whitespace; what remains must be a unit. */
  function Scan(t: string): (r: Option<SizeLiteral>)
    ensures r.Some? ==> WellFormed(r.value) && Render(r.value) == t
  {
    var number := SplitRun(t, IsDigit);
    if number.0 == [] then None
    else
      var fraction := ScanFraction(number.1);
      var tail := SplitRun(fraction.1, IsSpace);
      if IsUnitCapture(tail.1) then
        var lit := SizeLiteral(number.0, fraction.0, tail.0, tail.1);
        ScanPieces(t, number, fraction, tail);
        Some(lit)
      else None
  }

  lemma ScanPieces(t: string, number: (string, string), fraction: (Option<string>, string), tail: (string, string))
    requires number.0 + number.1 == t && |number.0| >= 1 && AllDigits(number.0)
    requires FractionText(fraction.0) + fraction.1 == number.1
    requires fraction.0.Some? ==> |fraction.0.value| >= 1 && AllDigits(fraction.0.value)
    requires tail.0 + tail.1 == fraction.1 && AllSpace(tail.0) && IsUnitCapture(tail.1)
    ensures var lit := SizeLiteral(number.0, fraction.0, tail.0, tail.1);
            WellFormed(lit) && Render(lit) == t
  {
  }

  lemma ScanFractionRender(f: Option<string>, after: string)
    requires f.Some? ==> |f.value| >= 1 && AllDigits(f.value)
    requires after == [] || (!IsDigit(after[0]) && after[0] != '.')
    ensures var rest := FractionText(f) + after;
            (rest == [] || !IsDigit(rest[0])) && ScanFraction(rest) == (f, after)
  {
    match f
    case None =>
      assert FractionText(f) + after == after;
    case Some(ds) =>
      var rest := FractionText(f) + after;
      assert rest[1..] == ds + after;
      SplitRunOfConcat(ds, after, IsDigit);
  }

  /** The scanner accepts every rendering of a well-formed literal and recovers its pieces. */
  lemma ScanRender(lit: SizeLiteral)
    requires WellFormed(lit)
    ensures Scan(Render(lit)) == Some(lit)
  {
    var afterNumber := lit.gap + lit.unit;
    var tail := FractionText(lit.fraction) + afterNumber;
    WholeDigitsRender(lit);
    UnitAfterGap(lit);
    ScanFractionRender(lit.fraction, afterNumber);
  }

  /** The integer digits of a rendering are its leading digit run. */
  lemma WholeDigitsRender(lit: SizeLiteral)
    requires WellFormed(lit)
    ensures var tail := FractionText(lit.fraction) + (lit.gap + lit.unit);
            (tail == [] || !IsDigit(tail[0])) && SplitRun(Render(lit), IsDigit) == (lit.whole, tail)
  {
    var afterNumber := lit.gap + lit.unit;
    var tail := FractionText(lit.fraction) + afterNumber;
    assert Render(lit) == lit.whole + tail;
    AfterNumberStart(lit);
    if lit.fraction.Some? {
      assert tail[0] == '.';
    } else {
      assert tail == afterNumber;
    }
    SplitRunOfConcat(lit.whole, tail, IsDigit);
  }

  /** What follows the number starts with whitespace or a unit letter, if anything. */
  lemma AfterNumberStart(lit: SizeLiteral)
    requires WellFormed(lit)
    ensures var afterNumber := lit.gap + lit.unit;
            afterNumber == [] || (!IsDigit(afterNumber[0]) && afterNumber[0] != '.')
  {
    var afterNumber := lit.gap + lit.unit;
    if lit.gap != [] {
      assert afterNumber[0] == lit.gap[0];
    } else if lit.unit != [] {
      assert afterNumber[0] == lit.unit[0];
    }
  }

  /** The whitespace before the unit is the leading whitespace run of what follows the number. */
  lemma UnitAfterGap(lit: SizeLiteral)
    requires WellFormed(lit)
    ensures SplitRun(lit.gap + lit.unit, IsSpace) == (lit.gap, lit.unit)
  {
    assert lit.unit == [] || !IsSpace(lit.unit[0]);
    SplitRunOfConcat(lit.gap, lit.unit, IsSpace);
  }

  /** The scanner decides the pattern: it succeeds exactly on the strings the regex matches. */
  lemma ScanDecidesPattern(t: string)
    ensures Scan(t).Some? <==> MatchesSizePattern(t)
  {
    if MatchesSizePattern(t) {
      var lit :| WellFormed(lit) && Render(lit) == t;
      ScanRender(lit);
    }
  }

  /** The digits of group 1 with the point removed, and the number of fractional digits:
      the group's value is `DigitsValue(Mantissa(lit)) / 10^FractionDigits(lit)`. */
  function Mantissa(lit: SizeLiteral): string {
    lit.whole + lit.fraction.GetOr("")
  }

  function FractionDigits(lit: SizeLiteral): nat {
    |lit.fraction.GetOr("")|
  }

  /** The value of the digits of group 1 with the point removed. */
  function MantissaValue(lit: SizeLiteral): nat
    requires WellFormed(lit)
  {
    MantissaDigits(lit);
    DigitsValue(Mantissa(lit))
  }

  lemma MantissaDigits(lit: SizeLiteral)
    requires WellFormed(lit)
    ensures AllDigits(Mantissa(lit))
  {
  }

  /** `int(float(group1) * multiplier)` with the number read as an exact decimal. */
  function Bytes(lit: SizeLiteral, m: nat): nat
    requires WellFormed(lit)
  {
    NatQuotient(NatProduct(MantissaValue(lit), m), Pow10(FractionDigits(lit)))
  }

  function NatProduct(a: nat, b: nat): (p: nat) {
    a * b
  }

  function NatQuotient(a: nat, d: nat): (q: nat)
    requires d >= 1
  {
    a / d
  }

  /** The byte count is floor(value * m): the largest n with n * 10^k <= mantissa * m,
      where k is the number of fractional digits. */
  lemma BytesIsFloor(lit: SizeLiteral, m: nat)
    requires WellFormed(lit)
    ensures var n := Bytes(lit, m);
            n * Pow10(FractionDigits(lit)) <= MantissaValue(lit) * m < (n + 1) * Pow10(FractionDigits(lit))
  {
    var num, den := MantissaValue(lit) * m, Pow10(FractionDigits(lit));
    var n := num / den;
    assert num == n * den + num % den;
  }

  /** `size_str.strip().upper()`. */
  function Normalize(s: string): string {
    Upper(Strip(s))
  }

  /** `parse_file_size(size_str)`. */
  function ParseFileSize(s: string): (r: Option<nat>)
    ensures r.None? <==> Scan(Normalize(s)).None?
    ensures r.Some? ==> var lit := Scan(Normalize(s)).value;
                        r.value == Bytes(lit, Multiplier(lit.unit))
  {
    match Scan(Normalize(s))
    case None => None
    case Some(lit) =>
      EveryCaptureIsAUnit(lit.unit);
      match UnitTable(UnitKey(lit.unit))
      case None => None
      case Some(m) => Some(Bytes(lit, m))
  }

  /** `None` is returned exactly when the normalised input does not match the pattern. */
  lemma NoneIffNoMatch(s: string)
    ensures ParseFileSize(s).None? <==> !MatchesSizePattern(Normalize(s))
  {
    ScanDecidesPattern(Normalize(s));
  }

  /** What the pattern matches contains digits, '.', whitespace and unit letters only. */
  lemma RenderHasNoLowercase(lit: SizeLiteral)
    requires WellFormed(lit)
    ensures NoLowercase(Render(lit))
  {
    var t := Render(lit);
    var a := lit.whole + FractionText(lit.fraction);
    var b := lit.gap + lit.unit;
    assert t == a + b;
    forall i | 0 <= i < |t|
      ensures !('a' <= t[i] <= 'z')
    {
      if i < |lit.whole| {
        assert t[i] == lit.whole[i];
      } else if i < |a| {
        assert t[i] == FractionText(lit.fraction)[i - |lit.whole|];
      } else if i < |a| + |lit.gap| {
        assert t[i] == lit.gap[i - |a|];
      } else {
        assert t[i] == lit.unit[i - |a| - |lit.gap|];
      }
    }
  }

  /** What the pattern matches ends in a unit letter or a digit, so it has no
      trailing whitespace unless the unit is empty. */
  lemma RenderUntrimmed(lit: SizeLiteral)
    requires WellFormed(lit)
    requires lit.unit != "" || lit.gap == ""
    ensures var t := Render(lit); !IsSpace(t[0]) && !IsSpace(t[|t| - 1])
  {
    var t := Render(lit);
    var front := lit.whole + FractionText(lit.fraction);
    assert t == front + (lit.gap + lit.unit);
    assert t[0] == lit.whole[0];
    if lit.unit != "" {
      assert t[|t| - 1] == lit.unit[|lit.unit| - 1];
    } else {
      assert t == front;
      match lit.fraction
      case None =>
        assert t[|t| - 1] == lit.whole[|lit.whole| - 1];
      case Some(ds) =>
        assert t[|t| - 1] == ds[|ds| - 1];
    }
  }

  /** Every well-formed literal without trailing whitespace, written in upper case, parses
      to floor(value * multiplier). */
  lemma {:induction false} ParseRendered(lit: SizeLiteral)
    requires WellFormed(lit)
    requires lit.unit != "" || lit.gap == ""
    ensures ParseFileSize(Render(lit)) == Some(Bytes(lit, Multiplier(lit.unit)))
  {
    var t := Render(lit);
    RenderUntrimmed(lit);
    StripUntrimmed(t);
    RenderHasNoLowercase(lit);
    UpperUnchanged(t);
    ScanRender(lit);
  }

  /** Lower-case units are accepted: the parser reads `s` and `s.upper()` alike. */
  lemma CaseInsensitive(s: string)
    ensures ParseFileSize(s) == ParseFileSize(Upper(s))
  {
    StripUpperCommute(s);
    UpperIdempotent(Strip(s));
  }

  /** A whole number followed directly by a unit parses to the number times the unit. */
  lemma WholeNumberWithUnit(n: nat, u: string)
    requires IsUnitCapture(u)
    ensures ParseFileSize(ShowNat(n) + u) == Some(n * Multiplier(u))
  {
    assert ShowNat(n) + "" == ShowNat(n);
    WholeNumberSpacedUnit(n, "", u);
  }

  /** A whole number, whitespace, then a unit letter parses to the number times the unit. */
  lemma WholeNumberSpacedUnit(n: nat, gap: string, u: string)
    requires AllSpace(gap) && IsUnitCapture(u) && (u != "" || gap == "")
    ensures ParseFileSize(ShowNat(n) + gap + u) == Some(n * Multiplier(u))
  {
    var lit := SizeLiteral(ShowNat(n), None, gap, u);
    var t := ShowNat(n) + gap + u;
    assert Render(lit) == t by {
      assert FractionText(None) == "";
      assert ShowNat(n) + "" == ShowNat(n);
    }
    ParseRendered(lit);
    BytesOfWhole(lit, Multiplier(u));
    assert DigitsValue(lit.whole) == n;
  }

  /** Without a fraction the value is exact: no rounding happens. */
  lemma BytesOfWhole(lit: SizeLiteral, m: nat)
    requires WellFormed(lit) && lit.fraction.None?
    ensures Bytes(lit, m) == DigitsValue(lit.whole) * m
  {
    assert Mantissa(lit) == lit.whole;
    assert Pow10(FractionDigits(lit)) == 1;
  }

  /** The default minimum size of the container, "200MB", is 209715200 bytes. */
  lemma DefaultMinimumSize()
    ensures ParseFileSize("200MB") == Some(209715200)
  {
    ShowHundreds(2);
    assert ShowNat(200) + "" + "MB" == "200MB";
    WholeNumberSpacedUnit(200, "", "MB");
    PrefixMultipliers();
  }

  /** `str(100 * k)` for a single non-zero digit `k`. */
  lemma ShowHundreds(k: nat)
    requires 1 <= k <= 9
    ensures ShowNat(100 * k) == ShowNat(k) + "00"
    ensures |ShowNat(k)| == 1 && ShowNat(k)[0] == '0' + k as char
  {
    ShowTimesTen(k);
    ShowTimesTen(10 * k);
    assert ShowNat(k) + "0" + "0" == ShowNat(k) + "00";
  }

  /** Appending a zero digit multiplies by ten. */
  lemma ShowTimesTen(m: nat)
    requires m >= 1
    ensures ShowNat(10 * m) == ShowNat(m) + "0"
  {
    var n := 10 * m;
    assert n / 10 == m && n % 10 == 0;
    assert ['0' + (n % 10) as char] == "0";
  }

  /** The multipliers of the prefix letters. */
  lemma PrefixMultipliers()
    ensures Multiplier("K") == 1024 && Multiplier("MB") == 1048576
  {
    assert Power1024(1) == 1024 * Power1024(0);
    assert Power1024(2) == 1024 * Power1024(1);
  }

  /** A lower-case unit with a fraction: "1.5g" is 1.5 * 1024^3 bytes. */
  lemma FractionalGigabytes()
    ensures ParseFileSize("1.5g") == Some(1610612736)
  {
    var lit := SizeLiteral("1", Some("5"), "", "G");
    OneAndAHalfGigabytes(lit);
    UpperCaseOf("1.5g", Render(lit));
    CaseInsensitive("1.5g");
    ParseRendered(lit);
  }

  lemma UpperCaseOf(s: string, t: string)
    requires |s| == |t| && forall i :: 0 <= i < |s| ==> UpperChar(s[i]) == t[i]
    ensures Upper(s) == t
  {
  }

  lemma OneAndAHalfGigabytes(lit: SizeLiteral)
    requires lit == SizeLiteral("1", Some("5"), "", "G")
    ensures WellFormed(lit) && Render(lit) == "1.5G"
    ensures Bytes(lit, Multiplier(lit.unit)) == 1610612736
  {
    assert Mantissa(lit) == "15" && FractionDigits(lit) == 1 && Pow10(1) == 10;
    assert DigitsValue("15") == 15 by {
      assert "15"[..1] == "1";
      assert "1"[..0] == "";
    }
    assert Multiplier("G") == 1073741824 by {
      assert Power1024(3) == 1024 * Power1024(2);
      assert Power1024(2) == 1024 * Power1024(1);
      assert Power1024(1) == 1024 * Power1024(0);
    }
    assert MantissaValue(lit) == 15;
  }

  /** Whitespace between number and unit is allowed: "500 K" is 512000 bytes. */
  lemma SpacedKilobytes()
    ensures ParseFileSize("500 K") == Some(512000)
  {
    ShowHundreds(5);
    assert ShowNat(500) + " " + "K" == "500 K";
    WholeNumberSpacedUnit(500, " ", "K");
    PrefixMultipliers();
  }
}
