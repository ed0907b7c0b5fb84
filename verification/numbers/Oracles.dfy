/** The rounding oracles that judge formatted numbers, and what they accept. */
module Oracles {
  import opened Wrappers
  import opened Rounding
  import opened Digits
  import opened Displays

  // ---------------------------------------------------------------------------
  // Decimals as text
  // ---------------------------------------------------------------------------

  /** `units` in units of 10^-places, written without an exponent. */
  function Fixed(units: nat, places: nat): string { Plain(WholePart(units, places), Padded(units, places)) }

  /** `str` of a decimal with the given coefficient and exponent -places. */
  function StrDecimal(units: nat, places: nat): string {
    var digits := Render(units);
    var left := |digits| - places;
    if left <= -6 then
      digits[..1] + (if |digits| == 1 then "" else "." + digits[1..]) + "E-" + Render(1 - left)
    else if left <= 0 then "0." + Zeros(-left) + digits
    else if places == 0 then digits
    else digits[..left] + "." + digits[left..]
  }

  /** Above the point where `str` switches to an exponent, it writes all places. */
  lemma {:induction false} StrIsFixed(units: nat, places: nat)
    requires |Render(units)| - places > -6
    ensures StrDecimal(units, places) == Fixed(units, places)
  {
    hide Render;
    hide Padded;
    hide WholePart;
    if |Render(units)| - places <= 0 {
      ZeroFilled(units, places);
      RenderZero();
    } else {
      CutDigits(units, places);
      assert places == 0 ==> Padded(units, places) == "" && Render(units)[..|Render(units)|] == Render(units);
    }
  }

  lemma {:induction false} RenderZero()
    ensures Render(0) == "0"
  {
  }

  lemma {:induction false} ExponentIsNotFixed(units: nat, places: nat, other: nat)
    requires |Render(units)| - places <= -6
    ensures StrDecimal(units, places) != Fixed(other, places)
  {
    var s, f := StrDecimal(units, places), Fixed(other, places);
    var digits := Render(units);
    var head := digits[..1] + if |digits| == 1 then "" else "." + digits[1..];
    assert s[|head|] == 'E';
    assert forall c | c in f :: IsDigit(c) || c == '.';
    assert s[|head|] in s;
  }

  lemma {:induction false} RenderSmall()
    ensures Render(0) == "0" && Render(1) == "1" && Render(7) == "7" && Render(12) == "12"
  {
    assert Render(12) == Render(1) + [DigitChar(2)];
  }

  /** With an exponent the first digit stands before the dot, and the exponent says where the dot belongs. */
  lemma {:induction false} StrOfTinyValues()
    ensures StrDecimal(1, 7) == "1E-7" && StrDecimal(12, 8) == "1.2E-7" && StrDecimal(0, 7) == "0E-7"
  {
    hide Render;
    hide Zeros;
    RenderSmall();
  }

  lemma {:induction false} WithoutDotAllDigits(s: string, part: string)
    requires (forall c | c in s :: Numeric(c)) && (forall c | c in part :: c in s) && '.' !in part
    ensures AllDigits(part)
  {
  }

  /** Digits with at most one dot, and at least one digit. */
  function ParseDecimal(s: string): Option<Decimal>
    requires forall c | c in s :: Numeric(c)
  {
    if '.' !in s then
      WithoutDotAllDigits(s, s);
      if s == "" then None else Some(Decimal(ValueOf(s), 0))
    else
      var i := FirstDot(s);
      var whole, fraction := s[..i], s[i + 1..];
      if '.' in fraction || whole + fraction == "" then None
      else
        assert forall c | c in whole + fraction :: c in s;
        WithoutDotAllDigits(s, whole + fraction);
        Some(Decimal(ValueOf(whole + fraction), |fraction|))
  }

  function FirstDot(s: string): (i: nat)
    requires '.' in s
    ensures i < |s| && s[i] == '.' && forall k | 0 <= k < i :: s[k] != '.'
  {
    if s[0] == '.' then 0 else 1 + FirstDot(s[1..])
  }

  /** The value that a plain display writes. */
  function Written(whole: nat, fraction: string): Decimal
    requires AllDigits(fraction)
  {
    Decimal(whole * Pow10(|fraction|) + ValueOf(fraction), |fraction|)
  }

  lemma {:induction false} FirstDotAfter(front: string, tail: string)
    requires '.' !in front
    ensures FirstDot(front + "." + tail) == |front|
  {
    var s := front + "." + tail;
    assert s[|front|] == '.';
    assert forall k | 0 <= k < |front| :: s[k] == front[k] && front[k] in front;
  }

  lemma {:induction false} ParseOfPlain(whole: nat, fraction: string)
    requires AllDigits(fraction)
    ensures forall c | c in Plain(whole, fraction) :: Numeric(c)
    ensures ParseDecimal(Plain(whole, fraction)) == Some(Written(whole, fraction))
  {
    hide Render;
    var digits, s := Render(whole), Plain(whole, fraction);
    RenderValue(whole);
    if fraction == "" {
      assert s == digits;
      assert Pow10(0) == 1;
      assert ParseDecimal(s) == Some(Decimal(ValueOf(digits), 0));
    } else {
      FirstDotAfter(digits, fraction);
      assert s == digits + "." + fraction;
      assert s[..|digits|] == digits && s[|digits| + 1..] == fraction;
      ValueOfJoined(digits, fraction);
    }
  }

  // ---------------------------------------------------------------------------
  // The oracle of the number fuzzer
  // ---------------------------------------------------------------------------

  datatype Verdict = Skipped | Accepted | Violation

  /** `abs(v)` quantized, in units of 10^-precision. `abs` keeps 28 digits, so a longer value is rounded twice. */
  function Rounded(v: Decimal, precision: nat): nat { Abs(Quantize(ContextAbs(v), precision)) }

  /** The rounded magnitude; `None` when it has more digits than the context keeps, which is an error. */
  function Expected(v: Decimal, precision: nat): Option<nat> {
    if Rounded(v, precision) >= Pow10(CONTEXT_PRECISION) then None else Some(Rounded(v, precision))
  }

  lemma {:induction false} RoundedIsQuantized(v: Decimal, precision: nat)
    ensures Rounded(v, precision) == Quantize(ContextAbs(v), precision)
    ensures Abs(v.coefficient) < Pow10(CONTEXT_PRECISION) ==> Rounded(v, precision) == Abs(Quantize(v, precision))
    ensures Rounded(v, precision) < Pow10(CONTEXT_PRECISION) ==>
              (Rounded(v, precision) == Abs(Quantize(v, precision)) <==> !SecondRoundingErrs(v, precision))
  {
    hide Quantize;
    hide SecondRoundingErrs;
    QuantizeOfMagnitude(ContextAbs(v), precision);
    MagnitudeOfQuantized(v, precision);
    if Abs(v.coefficient) < Pow10(CONTEXT_PRECISION) {
      ShortValuesAreRoundedOnce(v, precision);
    }
    if Rounded(v, precision) < Pow10(CONTEXT_PRECISION) {
      RoundingTwice(v, precision);
    }
  }

  lemma {:induction false} QuantizeOfMagnitude(v: Decimal, precision: nat)
    requires v.coefficient >= 0
    ensures Quantize(v, precision) >= 0
  {
    MagnitudeOfQuantized(v, precision);
  }

  /** The verdict on a formatted number; the value is finite. */
  ghost function JudgeByValue(formatted: string, v: Decimal, precision: nat, l: Locale): Verdict {
    var expected, digits := Expected(v, precision), ExtractOracleDigits(formatted, l);
    if expected.None? || digits.None? then Skipped
    else
      ExtractedIsNumeric(formatted, l);
      var actual := ParseDecimal(digits.value);
      if actual.None? then Skipped
      else if SameValue(actual.value, Decimal(expected.value, precision)) then Accepted
      else Violation
  }

  lemma {:induction false} EachYields(s: string, f: char -> string, c: char)
    requires c in Each(s, f)
    ensures exists x :: x in s && c in f(x)
  {
    var n := |s| - 1;
    if c !in f(s[n]) {
      EachYields(s[..n], f, c);
    } else {
      assert s[n] in s;
    }
  }

  lemma {:induction false} ExtractedIsNumeric(formatted: string, l: Locale)
    ensures forall c | c in Extracted(formatted, l) :: Numeric(c)
  {
    var inner := ReplaceAll(RemoveAll(formatted, l.group), l.decimal, '.');
    forall c | c in Extracted(formatted, l) ensures Numeric(c) {
      EachYields(inner, NumericOnly(), c);
    }
  }

  class NumbersMetrics {
    var oracleChecks: nat
    var oracleViolations: nat
    var findings: nat

    constructor ()
      ensures oracleChecks == oracleViolations == findings == 0
    {
      oracleChecks, oracleViolations, findings := 0, 0, 0;
    }

    /** Whether a violation is raised. */
    method RunOracle(formatted: string, v: Decimal, precision: nat, l: Locale) returns (raised: bool)
      modifies this
      ensures raised <==> JudgeByValue(formatted, v, precision, l) == Violation
      ensures oracleChecks == old(oracleChecks) + if JudgeByValue(formatted, v, precision, l) == Skipped then 0 else 1
      ensures oracleViolations == old(oracleViolations) + if raised then 1 else 0
      ensures findings == old(findings) + if raised then 1 else 0
    {
      var expected := Expected(v, precision);
      if expected.None? {
        return false;
      }
      var digits := ExtractOracleDigits(formatted, l);
      if digits.None? {
        return false;
      }
      ExtractedIsNumeric(formatted, l);
      var actual := ParseDecimal(digits.value);
      if actual.None? {
        return false;
      }
      oracleChecks := oracleChecks + 1;
      if !SameValue(actual.value, Decimal(expected.value, precision)) {
        oracleViolations := oracleViolations + 1;
        findings := findings + 1;
        return true;
      }
      return false;
    }
  }

  /**
   A shown number is accepted exactly when the magnitude it writes is the rounded one. For a value of at most 28 digits
   that is the half-even rounding of the value.
   */
  lemma {:induction false} JudgeByValueOfShow(prefix: string, whole: nat, grouping: bool, fraction: string, suffix: string,
                                              l: Locale, v: Decimal, precision: nat)
    requires ProperLocale(l) && AllDigits(fraction) && Affix(prefix, l) && Affix(suffix, l)
    ensures JudgeByValue(Show(prefix, whole, grouping, fraction, suffix, l), v, precision, l) ==
            if Rounded(v, precision) >= Pow10(28) then Skipped
            else if SameValue(Written(whole, fraction), Decimal(Rounded(v, precision), precision)) then Accepted
            else Violation
    ensures Abs(v.coefficient) < Pow10(28) ==> Rounded(v, precision) == Abs(Quantize(v, precision))
  {
    hide Show;
    hide Extracted;
    hide Rounded;
    hide Plain;
    hide ParseDecimal;
    hide SameValue;
    ExtractionUndoesShow(prefix, whole, grouping, fraction, suffix, l);
    ParseOfPlain(whole, fraction);
    RoundedIsQuantized(v, precision);
  }

  // ---------------------------------------------------------------------------
  // Formatting
  // ---------------------------------------------------------------------------

  const MAX_FORMAT_DIGITS := 100

  function Repeat(c: char, n: nat): (s: string)
    ensures |s| == n
  {
    seq(n, _ => c)
  }

  /** The number pattern for the limits, or the one given; digits outside 0 to 100 are an error in any case. */
  function FormatPattern(minimum: int, maximum: int, useGrouping: bool, given: Option<string>): Option<string> {
    if !(0 <= minimum <= MAX_FORMAT_DIGITS && 0 <= maximum <= MAX_FORMAT_DIGITS) then None
    else if given.Some? then given
    else
      var m := if maximum < minimum then minimum else maximum;
      var integerPart := if useGrouping then "#,##0" else "0";
      if m == 0 then Some(integerPart)
      else if minimum == m then Some(integerPart + "." + Repeat('0', minimum))
      else Some(integerPart + "." + (Repeat('0', minimum) + Repeat('#', m - minimum)))
  }

  ghost function Count(s: string, c: char): nat { multiset(s)[c] }

  /** The fraction digits that a pattern demands, and those it allows. */
  ghost function FractionLimits(pattern: string): (nat, nat) {
    if '.' !in pattern then (0, 0)
    else
      var fraction := pattern[FirstDot(pattern) + 1..];
      (Count(fraction, '0'), Count(fraction, '0') + Count(fraction, '#'))
  }

  lemma {:induction false} RepeatCount(c: char, n: nat, x: char)
    ensures Count(Repeat(c, n), x) == if c == x then n else 0
  {
    if n > 0 {
      RepeatCount(c, n - 1, x);
      assert Repeat(c, n) == Repeat(c, n - 1) + [c];
    }
  }

  /** Whatever branch builds it, the pattern asks for the minimum and allows the clamped maximum, unless one is given. */
  lemma {:induction false} PatternStatesLimits(minimum: int, maximum: int, useGrouping: bool, given: Option<string>)
    ensures var p := FormatPattern(minimum, maximum, useGrouping, given);
            && (p.Some? <==> 0 <= minimum <= 100 && 0 <= maximum <= 100)
            && (p.Some? && given.Some? ==> p == given)
            && (p.Some? && given.None? ==> FractionLimits(p.value) == (minimum, ClampMax(minimum, maximum)))
            && (p.Some? && given.None? ==> (',' in p.value <==> useGrouping))
  {
    hide FractionLimits;
    if 0 <= minimum <= MAX_FORMAT_DIGITS && 0 <= maximum <= MAX_FORMAT_DIGITS {
      var m := ClampMax(minimum, maximum);
      var integerPart := if useGrouping then "#,##0" else "0";
      if m == 0 {
        NoFraction(integerPart);
      } else {
        LimitsOfPattern(integerPart, minimum, m - minimum);
        assert m == minimum ==> Repeat('0', minimum) + Repeat('#', m - minimum) == Repeat('0', minimum);
      }
    }
  }

  /** One form for all branches: the integer part, and behind a dot the demanded digits before the optional ones. */
  lemma {:induction false} PatternText(minimum: nat, maximum: nat, useGrouping: bool)
    requires minimum <= 100 && maximum <= 100
    ensures var m := if maximum < minimum then minimum else maximum;
            FormatPattern(minimum, maximum, useGrouping, None) ==
            Some((if useGrouping then "#,##0" else "0") +
                 if m == 0 then "" else "." + (Repeat('0', minimum) + Repeat('#', m - minimum)))
  {
    var m := if maximum < minimum then minimum else maximum;
    var integerPart, tail := if useGrouping then "#,##0" else "0", Repeat('0', minimum) + Repeat('#', m - minimum);
    assert integerPart + "" == integerPart && integerPart + "." + tail == integerPart + ("." + tail);
    assert m == minimum ==> tail == Repeat('0', minimum);
  }

  lemma {:induction false} NoFraction(integerPart: string)
    requires '.' !in integerPart
    ensures FractionLimits(integerPart) == (0, 0)
  {
  }

  lemma {:induction false} LimitsOfPattern(integerPart: string, demanded: nat, optional: nat)
    requires '.' !in integerPart
    ensures FractionLimits(integerPart + "." + (Repeat('0', demanded) + Repeat('#', optional))) ==
            (demanded, demanded + optional)
  {
    hide Repeat;
    hide FirstDot;
    var fraction := Repeat('0', demanded) + Repeat('#', optional);
    RepeatCount('0', demanded, '0');
    RepeatCount('0', demanded, '#');
    RepeatCount('#', optional, '0');
    RepeatCount('#', optional, '#');
    FirstDotAfter(integerPart, fraction);
    var p := integerPart + "." + fraction;
    assert p[|integerPart|] == '.';
    assert p[|integerPart| + 1..] == fraction;
  }

  /** A value shown within limits: rounded half-even at the maximum, zeros trimmed down to the minimum. */
  function Format(v: Decimal, minimum: nat, maximum: nat, grouping: bool, prefix: string, suffix: string, l: Locale)
    : string
  {
    var (units, visible) := VisibleForm(v, minimum, maximum);
    Show(prefix, WholePart(units, visible), grouping, Padded(units, visible), suffix, l)
  }

  lemma {:induction false} WrittenParts(units: nat, visible: nat)
    ensures Written(WholePart(units, visible), Padded(units, visible)) == Decimal(units, visible)
  {
    PartsMakeWhole(units, visible);
  }

  lemma {:induction false} SameUnits(a: int, b: int, precision: nat)
    ensures SameValue(Decimal(a, precision), Decimal(b, precision)) <==> a == b
  {
    CompareProducts(a, b, Pow10(precision));
  }

  /**
   The oracle at the maximum precision accepts a correctly formatted number exactly when keeping 28 digits first makes no
   difference to the rounding; so it never objects to a value of at most 28 digits.
   */
  lemma {:induction false} WhenCorrectFormatIsAccepted(v: Decimal, minimum: nat, maximum: nat, grouping: bool,
                                                       prefix: string, suffix: string, l: Locale)
    requires ProperLocale(l) && Affix(prefix, l) && Affix(suffix, l)
    ensures var m := ClampMax(minimum, maximum);
            && JudgeByValue(Format(v, minimum, maximum, grouping, prefix, suffix, l), v, m, l) ==
               (if Rounded(v, m) >= Pow10(28) then Skipped
                else if SecondRoundingErrs(v, m) then Violation
                else Accepted)
            && (Abs(v.coefficient) < Pow10(28) ==> !SecondRoundingErrs(v, m))
  {
    hide Quantize;
    hide Rounded;
    hide SecondRoundingErrs;
    hide Show;
    hide JudgeByValue;
    hide WholePart;
    hide Padded;
    var m := ClampMax(minimum, maximum);
    var (units, visible) := VisibleForm(v, minimum, maximum);
    var all := Abs(Quantize(v, m));
    JudgeByValueOfShow(prefix, WholePart(units, visible), grouping, Padded(units, visible), suffix, l, v, m);
    WrittenParts(units, visible);
    TrimmedIsSame(all, m, minimum);
    RoundedIsQuantized(v, m);
    SameUnits(all, Rounded(v, m), m);
    SameValueMoves(Decimal(units, visible), Decimal(all, m), Decimal(Rounded(v, m), m));
    if Abs(v.coefficient) < Pow10(CONTEXT_PRECISION) {
      ShortValuesAreRoundedOnce(v, m);
    }
  }

  lemma {:induction false} TrimmedIsSame(all: nat, m: nat, minimum: nat)
    requires minimum <= m
    ensures var (units, visible) := Trim(all, m, minimum); SameValue(Decimal(units, visible), Decimal(all, m))
  {
    TrimKeepsValue(all, m, minimum);
    var (units, visible) := Trim(all, m, minimum);
    Pow10Adds(m - visible, visible);
    Product3(units, Pow10(m - visible), Pow10(visible));
  }

  lemma {:induction false} SameValueMoves(a: Decimal, b: Decimal, c: Decimal)
    requires SameValue(a, b)
    ensures SameValue(a, c) <==> SameValue(b, c)
  {
    if SameValue(a, c) {
      SameValueIsTransitive(b, a, c);
    }
    if SameValue(b, c) {
      SameValueIsTransitive(a, b, c);
    }
  }

  // ---------------------------------------------------------------------------
  // The oracle of the builtins fuzzer
  // ---------------------------------------------------------------------------

  /** The verdict by comparing texts at the visible precision. */
  function JudgeByText(formatted: string, v: Decimal, precision: nat, l: Locale): Verdict {
    var expected, digits := Expected(v, precision), ExtractOracleDigits(formatted, l);
    if expected.None? || digits.None? then Skipped
    else if digits.value == StrDecimal(expected.value, precision) then Accepted
    else Violation
  }

  /** A display with digits of another script, or a locale with one symbol for both separators, is not judged. */
  lemma {:induction false} UnreadableIsSkipped(formatted: string, v: Decimal, precision: nat, l: Locale, i: nat)
    requires (i < |formatted| && l.foreignDigit(formatted[i])) || l.group == l.decimal
    ensures JudgeByValue(formatted, v, precision, l) == Skipped
    ensures JudgeByText(formatted, v, precision, l) == Skipped
  {
  }

  /**
   A shown number is accepted by its text exactly when, in plain form, it is the text of the rounded magnitude; and then it
   writes that magnitude, with as many fraction digits as asked for.
   */
  lemma {:induction false} JudgeByTextOfShow(prefix: string, whole: nat, grouping: bool, fraction: string, suffix: string,
                                             l: Locale, v: Decimal, precision: nat)
    requires ProperLocale(l) && AllDigits(fraction) && Affix(prefix, l) && Affix(suffix, l)
    ensures var verdict := JudgeByText(Show(prefix, whole, grouping, fraction, suffix, l), v, precision, l);
            && verdict == (if Rounded(v, precision) >= Pow10(28) then Skipped
                           else if Plain(whole, fraction) == StrDecimal(Rounded(v, precision), precision) then Accepted
                           else Violation)
            && (verdict == Accepted ==> Written(whole, fraction) == Decimal(Rounded(v, precision), precision))
  {
    hide Show;
    hide Extracted;
    hide Rounded;
    hide Plain;
    hide StrDecimal;
    hide ParseDecimal;
    ExtractionUndoesShow(prefix, whole, grouping, fraction, suffix, l);
    if Plain(whole, fraction) == StrDecimal(Rounded(v, precision), precision) {
      PlainIsNoExponent(whole, fraction, Rounded(v, precision), precision);
    }
  }

  lemma {:induction false} PlainIsNoExponent(whole: nat, fraction: string, units: nat, places: nat)
    requires AllDigits(fraction) && Plain(whole, fraction) == StrDecimal(units, places)
    ensures Written(whole, fraction) == Decimal(units, places)
  {
    hide Plain;
    hide StrDecimal;
    hide ParseDecimal;
    hide Render;
    ParseOfPlain(whole, fraction);
    if |Render(units)| - places > -6 {
      StrIsFixed(units, places);
      ParseOfPlain(WholePart(units, places), Padded(units, places));
      WrittenParts(units, places);
      FixedIsPlain(units, places);
    } else {
      ExponentIsNotPlain(units, places, whole, fraction);
    }
  }

  lemma {:induction false} FixedIsPlain(units: nat, places: nat)
    ensures Fixed(units, places) == Plain(WholePart(units, places), Padded(units, places))
  {
  }

  lemma {:induction false} ExponentIsNotPlain(units: nat, places: nat, whole: nat, fraction: string)
    requires |Render(units)| - places <= -6 && AllDigits(fraction)
    ensures StrDecimal(units, places) != Plain(whole, fraction)
  {
    hide Render;
    var s, f := StrDecimal(units, places), Plain(whole, fraction);
    var digits := Render(units);
    var head := digits[..1] + if |digits| == 1 then "" else "." + digits[1..];
    assert s[|head|] == 'E';
    assert forall c | c in f :: IsDigit(c) || c == '.';
    assert s[|head|] in s;
  }

  /** The text of a decimal is the shown number exactly when both are the same and the text has no exponent. */
  lemma {:induction false} TextIsShown(expected: nat, units: nat, places: nat)
    ensures StrDecimal(expected, places) == Fixed(units, places) <==>
            expected == units && |Render(units)| - places > -6
  {
    hide StrDecimal;
    hide Render;
    hide Fixed;
    if |Render(expected)| - places > -6 {
      StrIsFixed(expected, places);
      FixedIsInjective(expected, units, places);
    } else {
      ExponentIsNotFixed(expected, places, units);
    }
  }

  lemma {:induction false} FixedIsInjective(a: nat, b: nat, places: nat)
    ensures Fixed(a, places) == Fixed(b, places) <==> a == b
  {
    hide Plain;
    hide ParseDecimal;
    ParseOfPlain(WholePart(a, places), Padded(a, places));
    ParseOfPlain(WholePart(b, places), Padded(b, places));
    WrittenParts(a, places);
    WrittenParts(b, places);
  }

  /**
   The visible precision of a correctly formatted number is the number of its shown fraction digits. Comparing texts
   accepts it exactly when `str` writes no exponent and keeping 28 digits first makes no difference to the rounding.
   */
  lemma {:induction false} WhenCorrectFormatMatches(v: Decimal, minimum: nat, maximum: nat, grouping: bool,
                                                    prefix: string, suffix: string, l: Locale)
    requires ProperLocale(l) && Affix(prefix, l) && Affix(suffix, l)
    ensures var formatted := Format(v, minimum, maximum, grouping, prefix, suffix, l);
            var (units, visible) := VisibleForm(v, minimum, maximum);
            && VisiblePrecision(formatted, l, None) == visible
            && JudgeByText(formatted, v, visible, l) ==
               (if Rounded(v, visible) >= Pow10(28) then Skipped
                else if |Render(units)| - visible > -6 && !SecondRoundingErrs(v, visible) then Accepted
                else Violation)
            && (Abs(v.coefficient) < Pow10(28) ==>
                Rounded(v, visible) == units && !SecondRoundingErrs(v, visible))
  {
    hide Quantize;
    hide Rounded;
    hide SecondRoundingErrs;
    hide Show;
    hide Extracted;
    hide StrDecimal;
    hide WholePart;
    hide Padded;
    hide Render;
    var (units, visible) := VisibleForm(v, minimum, maximum);
    var whole, fraction := WholePart(units, visible), Padded(units, visible);
    PrecisionOfShow(prefix, whole, grouping, fraction, suffix, l, None);
    ExtractionUndoesShow(prefix, whole, grouping, fraction, suffix, l);
    RoundThenTrimIsRound(v, minimum, maximum);
    MagnitudeOfQuantized(v, visible);
    RoundedIsQuantized(v, visible);
    TextIsShown(Rounded(v, visible), units, visible);
    if Abs(v.coefficient) < Pow10(CONTEXT_PRECISION) {
      ShortValuesAreRoundedOnce(v, visible);
    }
  }

  /** One ten-millionth, shown in full, is the smallest such case: `str` writes it with an exponent. */
  lemma {:induction false} TinyValueIsRejected(l: Locale)
    requires ProperLocale(l)
    ensures JudgeByText(Format(Decimal(1, 7), 0, 10, false, "", "", l), Decimal(1, 7), 7, l) == Violation
  {
    var v := Decimal(1, 7);
    TinyForm();
    LargePowers();
    hide *;
    WhenCorrectFormatMatches(v, 0, 10, false, "", "", l);
    NoAffix(l);
    OneDigit();
  }

  lemma {:induction false} TinyForm()
    ensures VisibleForm(Decimal(1, 7), 0, 10) == (1, 7)
  {
    assert Pow10(4) == 10_000;
    assert Pow10(7) == 1000 * Pow10(4) && Pow10(10) == 1000 * Pow10(7);
    RoundsToNearestEven(Pow10(10), Pow10(7), 1000);
    assert Trim(1000, 10, 0) == Trim(100, 9, 0) == Trim(10, 8, 0) == (1, 7);
  }

  lemma {:induction false} NoAffix(l: Locale)
    ensures Affix("", l)
  {
  }

  lemma {:induction false} OneDigit()
    ensures |Render(1)| == 1 && Abs(1) == 1
  {
  }

  lemma {:induction false} LargePowers()
    ensures Pow10(CONTEXT_PRECISION) > 2
  {
    Pow10Grows(1, CONTEXT_PRECISION);
    assert Pow10(1) == 10;
  }

  /** 1.4 followed by 29 nines: 28 digits of it are 1.5, which rounds to 2. */
  const LONG_VALUE := Decimal(15 * Pow10(29) - 1, 30)

  lemma {:induction false} PowersUsed()
    ensures Pow10(29) == 1000 * Pow10(26) && Pow10(26) >= 10
    ensures Pow10(30) == 10 * Pow10(29) && Pow10(31) == 100 * Pow10(29)
    ensures Pow10(0) == 1 && Pow10(3) == 1000
  {
    assert Pow10(3) == 1000;
    assert Pow10(30) == 10 * Pow10(29) && Pow10(31) == 10 * Pow10(30);
    assert Pow10(1) == 10;
    hide Pow10;
    Pow10Adds(3, 26);
    Pow10Grows(1, 26);
  }

  lemma {:induction false} LongIsKept(n: nat)
    requires n == 15 * Pow10(29) - 1
    ensures Kept(n) == n + 1
  {
    hide Pow10;
    hide DigitCount;
    PowersUsed();
    DigitCountBounds(n, 30);
    DigitCountBounds(n, 31);
    assert Excess(n) == 3;
    hide RoundHalfEvenMagnitude;
    RoundsToNearestEven(n, 1000, 15 * Pow10(26));
  }

  lemma {:induction false} LongValueFacts()
    ensures Quantize(LONG_VALUE, 0) == 1 && Rounded(LONG_VALUE, 0) == 2
  {
    hide Pow10;
    hide Kept;
    hide RoundHalfEven;
    var p, n := Pow10(29), LONG_VALUE.coefficient;
    PowersUsed();
    LongIsKept(n);
    RoundsToNearestEven(n, 10 * p, 1);
    RoundsToNearestEven(15 * p, 10 * p, 2);
    assert n * 1 == n && (n + 1) * 1 == 15 * p;
  }

  /** Its correct display "1" is rejected, and "2" is accepted. */
  lemma {:induction false} LongValueIsMisjudged(l: Locale)
    requires ProperLocale(l)
    ensures JudgeByValue(Show("", 1, false, "", "", l), LONG_VALUE, 0, l) == Violation
    ensures JudgeByValue(Show("", 2, false, "", "", l), LONG_VALUE, 0, l) == Accepted
  {
    LongValueFacts();
    LargePowers();
    NoAffix(l);
    WholeNumber(1);
    WholeNumber(2);
    SameUnits(1, 2, 0);
    hide *;
    JudgeByValueOfShow("", 1, false, "", "", l, LONG_VALUE, 0);
    JudgeByValueOfShow("", 2, false, "", "", l, LONG_VALUE, 0);
    SameUnits(2, 2, 0);
  }

  lemma {:induction false} WholeNumber(n: nat)
    ensures AllDigits("") && Written(n, "") == Decimal(n, 0)
  {
    assert Pow10(0) == 1;
  }
}
