/** Numbers as locales show them, and the digits that an oracle reads back from them. */
module Displays {
  import opened Wrappers
  import opened Digits
  import Rounding

  // ---------------------------------------------------------------------------
  // Filters over text
  // ---------------------------------------------------------------------------

  /** Each character replaced by a text of its own. */
  function Each(s: string, f: char -> string): string {
    if s == "" then "" else Each(s[..|s| - 1], f) + f(s[|s| - 1])
  }

  lemma {:induction false} EachLast(s: string, f: char -> string)
    requires s != ""
    ensures Each(s, f) == Each(s[..|s| - 1], f) + f(s[|s| - 1])
  {
  }

  lemma {:induction false} EachDistributes(a: string, b: string, f: char -> string)
    ensures Each(a + b, f) == Each(a, f) + Each(b, f)
  {
    if b == "" {
      assert a + b == a;
    } else {
      hide Each;
      var n := |b| - 1;
      EachDistributes(a, b[..n], f);
      EachLast(b, f);
      EachLast(a + b, f);
      assert (a + b)[..|a| + n] == a + b[..n] && (a + b)[|a| + n] == b[n];
      assert (Each(a, f) + Each(b[..n], f)) + f(b[n]) == Each(a, f) + (Each(b[..n], f) + f(b[n]));
    }
  }

  lemma {:induction false} EachOfOne(c: char, f: char -> string)
    ensures Each([c], f) == f(c)
  {
    assert [c][..0] == "";
  }

  lemma {:induction false} EachLeaves(s: string, f: char -> string)
    requires forall c | c in s :: f(c) == [c]
    ensures Each(s, f) == s
  {
    if s != "" {
      var front, last := s[..|s| - 1], s[|s| - 1];
      assert s == front + [last] && last in s && forall c | c in front :: c in s;
      EachLeaves(front, f);
      EachLast(s, f);
    }
  }

  predicate Numeric(c: char) { IsDigit(c) || c == '.' }

  function Without(c: char): char -> string { x => if x == c then "" else [x] }

  function Replacing(c: char, y: char): char -> string { x => [if x == c then y else x] }

  function NumericOnly(): char -> string { x => if Numeric(x) then [x] else "" }

  /** `s.replace(c, "")` */
  function RemoveAll(s: string, c: char): string { Each(s, Without(c)) }

  /** `s.replace(c, y)` */
  function ReplaceAll(s: string, c: char, y: char): string { Each(s, Replacing(c, y)) }

  /** The characters of `s` other than digits and dots, taken out. */
  function KeepNumeric(s: string): string { Each(s, NumericOnly()) }

  // ---------------------------------------------------------------------------
  // Grouping in threes
  // ---------------------------------------------------------------------------

  function Grouped(digits: string, sep: char): string {
    if |digits| <= 3 then digits else Grouped(digits[..|digits| - 3], sep) + [sep] + digits[|digits| - 3..]
  }

  /** Separators stand exactly before every third character from the right. */
  lemma {:induction false} GroupedShape(digits: string, sep: char, j: nat)
    requires sep !in digits && j < |Grouped(digits, sep)|
    ensures Grouped(digits, sep)[|Grouped(digits, sep)| - 1 - j] == sep <==> j % 4 == 3
  {
    if |digits| > 3 {
      var n := |digits| - 3;
      var f, tail := Grouped(digits[..n], sep), digits[n..];
      assert sep !in digits[..n] && sep !in tail;
      if j >= 4 {
        GroupedShape(digits[..n], sep, j - 4);
      }
      assert Grouped(digits, sep) == f + [sep] + tail;
      hide Grouped;
      FromTheRight(f, sep, tail, j);
    }
  }

  lemma {:induction false} FromTheRight(f: string, sep: char, tail: string, j: nat)
    requires |tail| == 3 && j < |f| + 4 && sep !in tail
    ensures var g := f + [sep] + tail;
            if j < 3 then g[|g| - 1 - j] != sep
            else if j == 3 then g[|g| - 1 - j] == sep
            else g[|g| - 1 - j] == f[|f| - 1 - (j - 4)]
  {
    var g := f + [sep] + tail;
    if j < 3 {
      assert g[|g| - 1 - j] == tail[2 - j];
    }
  }

  /** Taking the separators out leaves the digits. */
  lemma {:induction false} UngroupedIsDigits(digits: string, sep: char)
    requires sep !in digits
    ensures RemoveAll(Grouped(digits, sep), sep) == digits
  {
    hide Each;
    if |digits| <= 3 {
      EachLeaves(digits, Without(sep));
    } else {
      var n := |digits| - 3;
      var f := Grouped(digits[..n], sep);
      UngroupedIsDigits(digits[..n], sep);
      EachDistributes(f + [sep], digits[n..], Without(sep));
      EachDistributes(f, [sep], Without(sep));
      EachOfOne(sep, Without(sep));
      EachLeaves(digits[n..], Without(sep));
      assert digits == digits[..n] + digits[n..];
    }
  }

  /** The groups from last to first, joined from first to last. */
  function JoinReversed(groups: seq<string>, sep: char): string {
    if groups == [] then ""
    else if |groups| == 1 then groups[0]
    else JoinReversed(groups[1..], sep) + [sep] + groups[0]
  }

  lemma {:induction false} JoinOneMore(groups: seq<string>, sep: char, g: string)
    requires groups != []
    ensures JoinReversed(groups + [g], sep) == g + [sep] + JoinReversed(groups, sep)
  {
    var more := groups + [g];
    if |groups| == 1 {
      assert more[1..] == [g];
    } else {
      JoinOneMore(groups[1..], sep, g);
      assert more[1..] == groups[1..] + [g];
    }
  }

  method GroupAsciiThousands(value: int) returns (r: string)
    ensures r == (if value < 0 then "-" else "") + Grouped(Render(Rounding.Abs(value)), ',')
  {
    hide Render;
    ghost var all := Render(Rounding.Abs(value));
    var digits := Render(Rounding.Abs(value));
    var groups: seq<string> := [];
    while digits != ""
      invariant groups == [] ==> digits == all
      invariant groups != [] ==>
                  Grouped(all, ',') == (if digits == "" then "" else Grouped(digits, ',') + ",") + JoinReversed(groups, ',')
      decreases |digits|
    {
      var cut := if |digits| > 3 then |digits| - 3 else 0;
      if groups != [] {
        JoinOneMore(groups, ',', digits[cut..]);
      }
      groups := groups + [digits[cut..]];
      digits := digits[..cut];
    }
    var grouped := JoinReversed(groups, ',');
    r := if value < 0 then "-" + grouped else grouped;
  }

  // ---------------------------------------------------------------------------
  // Extraction
  // ---------------------------------------------------------------------------

  /** The separators of a locale, and which characters are digits of other scripts. */
  datatype Locale = Locale(group: char, decimal: char, foreignDigit: char -> bool)

  predicate HasForeignDigit(s: string, foreignDigit: char -> bool) {
    exists i :: 0 <= i < |s| && foreignDigit(s[i])
  }

  function Extracted(s: string, l: Locale): string {
    KeepNumeric(ReplaceAll(RemoveAll(s, l.group), l.decimal, '.'))
  }

  /** The other order of the two replacements. */
  function ExtractedDecimalFirst(s: string, l: Locale): string {
    KeepNumeric(RemoveAll(ReplaceAll(s, l.decimal, '.'), l.group))
  }

  function ExtractOracleDigits(formatted: string, l: Locale): Option<string> {
    if HasForeignDigit(formatted, l.foreignDigit) || l.decimal == l.group then None
    else
      var digits := Extracted(formatted, l);
      if digits == "" then None else Some(digits)
  }

  ghost predicate ProperLocale(l: Locale) {
    && l.group != l.decimal && !IsDigit(l.group) && !IsDigit(l.decimal)
    && !l.foreignDigit(l.group) && !l.foreignDigit(l.decimal)
    && forall c | IsDigit(c) :: !l.foreignDigit(c)
  }

  /** Text that extraction drops. */
  ghost predicate Affix(s: string, l: Locale) {
    forall c | c in s :: !l.foreignDigit(c) && (c == l.group || (c != l.decimal && !Numeric(c)))
  }

  function IntegerText(whole: nat, grouping: bool, l: Locale): string {
    if grouping then Grouped(Render(whole), l.group) else Render(whole)
  }

  /** A number with affixes; a decimal separator is shown only before fraction digits. */
  function Show(prefix: string, whole: nat, grouping: bool, fraction: string, suffix: string, l: Locale): string {
    prefix + IntegerText(whole, grouping, l) + (if fraction == "" then "" else [l.decimal] + fraction) + suffix
  }

  function Plain(whole: nat, fraction: string): string {
    Render(whole) + if fraction == "" then "" else "." + fraction
  }

  lemma {:induction false} ExtractedDistributes(a: string, b: string, l: Locale)
    ensures Extracted(a + b, l) == Extracted(a, l) + Extracted(b, l)
    ensures ExtractedDecimalFirst(a + b, l) == ExtractedDecimalFirst(a, l) + ExtractedDecimalFirst(b, l)
  {
    var g, d, n := Without(l.group), Replacing(l.decimal, '.'), NumericOnly();
    EachDistributes(a, b, g);
    EachDistributes(Each(a, g), Each(b, g), d);
    EachDistributes(Each(Each(a, g), d), Each(Each(b, g), d), n);
    EachDistributes(a, b, d);
    EachDistributes(Each(a, d), Each(b, d), g);
    EachDistributes(Each(Each(a, d), g), Each(Each(b, d), g), n);
  }

  lemma {:induction false} ExtractedChar(c: char, l: Locale)
    ensures Extracted([c], l) ==
            if c == l.group then "" else if c == l.decimal then "." else if Numeric(c) then [c] else ""
    ensures ExtractedDecimalFirst([c], l) ==
            var x := if c == l.decimal then '.' else c;
            if x == l.group || !Numeric(x) then "" else [x]
  {
    var g, d, n := Without(l.group), Replacing(l.decimal, '.'), NumericOnly();
    var x := if c == l.decimal then '.' else c;
    EachOfOne(c, g);
    EachOfOne(c, d);
    EachOfOne(x, g);
    EachOfOne(x, n);
  }

  lemma {:induction false} NothingExtracted(l: Locale)
    ensures Extracted("", l) == "" && ExtractedDecimalFirst("", l) == ""
  {
  }

  lemma {:induction false} ExtractedAffix(s: string, l: Locale)
    requires Affix(s, l)
    ensures Extracted(s, l) == "" && (l.group != l.decimal ==> ExtractedDecimalFirst(s, l) == "")
  {
    hide Extracted;
    hide ExtractedDecimalFirst;
    if s == "" {
      NothingExtracted(l);
    } else {
      var n := |s| - 1;
      ExtractedAffix(s[..n], l);
      ExtractedDistributes(s[..n], [s[n]], l);
      ExtractedChar(s[n], l);
      assert s == s[..n] + [s[n]] && s[n] in s;
    }
  }

  lemma {:induction false} ExtractedDigits(s: string, l: Locale)
    requires AllDigits(s) && ProperLocale(l)
    ensures Extracted(s, l) == s && ExtractedDecimalFirst(s, l) == s
  {
    EachLeaves(s, Without(l.group));
    EachLeaves(s, Replacing(l.decimal, '.'));
    EachLeaves(s, NumericOnly());
  }

  lemma {:induction false} ExtractedGrouped(digits: string, l: Locale)
    requires AllDigits(digits) && ProperLocale(l)
    ensures Extracted(Grouped(digits, l.group), l) == digits
    ensures ExtractedDecimalFirst(Grouped(digits, l.group), l) == digits
  {
    GroupedCharacters(digits, l.group);
    EachLeaves(Grouped(digits, l.group), Replacing(l.decimal, '.'));
    UngroupedIsDigits(digits, l.group);
    EachLeaves(digits, Replacing(l.decimal, '.'));
    EachLeaves(digits, NumericOnly());
  }

  /** Extraction undoes grouping, the decimal separator and the affixes, also when groups are separated by '.'. */
  lemma {:induction false} ExtractionUndoesShow(prefix: string, whole: nat, grouping: bool, fraction: string,
                                                suffix: string, l: Locale)
    requires ProperLocale(l) && AllDigits(fraction) && Affix(prefix, l) && Affix(suffix, l)
    ensures ExtractOracleDigits(Show(prefix, whole, grouping, fraction, suffix, l), l) == Some(Plain(whole, fraction))
  {
    ShowHasNoForeignDigit(prefix, whole, grouping, fraction, suffix, l);
    ExtractedShow(prefix, IntegerText(whole, grouping, l), fraction, suffix, l);
    ExtractedGrouped(Render(whole), l);
    ExtractedDigits(Render(whole), l);
    assert "" + Render(whole) == Render(whole);
    assert Plain(whole, fraction) != "";
  }

  lemma {:induction false} ExtractedShow(prefix: string, grouped: string, fraction: string, suffix: string, l: Locale)
    requires ProperLocale(l) && AllDigits(fraction) && Affix(prefix, l) && Affix(suffix, l)
    ensures Extracted(prefix + grouped + (if fraction == "" then "" else [l.decimal] + fraction) + suffix, l) ==
            Extracted(grouped, l) + if fraction == "" then "" else "." + fraction
    ensures ExtractedDecimalFirst(prefix + grouped + (if fraction == "" then "" else [l.decimal] + fraction) + suffix, l) ==
            ExtractedDecimalFirst(grouped, l) +
            if fraction == "" then "" else (if l.group == '.' then "" else ".") + fraction
  {
    hide Extracted;
    hide ExtractedDecimalFirst;
    hide Affix;
    var point := if fraction == "" then "" else [l.decimal] + fraction;
    ExtractedDistributes(prefix + grouped + point, suffix, l);
    ExtractedDistributes(prefix + grouped, point, l);
    ExtractedDistributes(prefix, grouped, l);
    ExtractedAffix(prefix, l);
    ExtractedAffix(suffix, l);
    ExtractedPoint(fraction, l);
    hide *;
    assert "" + Extracted(grouped, l) == Extracted(grouped, l);
    assert Extracted(grouped, l) + Extracted(point, l) + "" == Extracted(grouped, l) + Extracted(point, l);
    var other := ExtractedDecimalFirst(grouped, l);
    assert "" + other == other;
    assert other + ExtractedDecimalFirst(point, l) + "" == other + ExtractedDecimalFirst(point, l);
  }

  lemma {:induction false} ExtractedPoint(fraction: string, l: Locale)
    requires ProperLocale(l) && AllDigits(fraction)
    ensures Extracted("", l) == "" && Extracted([l.decimal] + fraction, l) == "." + fraction
    ensures ExtractedDecimalFirst("", l) == ""
    ensures ExtractedDecimalFirst([l.decimal] + fraction, l) == (if l.group == '.' then "" else ".") + fraction
  {
    ExtractedDistributes([l.decimal], fraction, l);
    ExtractedChar(l.decimal, l);
    ExtractedDigits(fraction, l);
  }

  lemma {:induction false} GroupedCharacters(digits: string, sep: char)
    ensures forall c | c in Grouped(digits, sep) :: c == sep || c in digits
  {
    if |digits| > 3 {
      GroupedCharacters(digits[..|digits| - 3], sep);
    }
  }

  lemma {:induction false} ShowHasNoForeignDigit(prefix: string, whole: nat, grouping: bool, fraction: string,
                                                 suffix: string, l: Locale)
    requires ProperLocale(l) && AllDigits(fraction) && Affix(prefix, l) && Affix(suffix, l)
    ensures !HasForeignDigit(Show(prefix, whole, grouping, fraction, suffix, l), l.foreignDigit)
  {
    hide Grouped;
    hide Render;
    GroupedCharacters(Render(whole), l.group);
    var s := Show(prefix, whole, grouping, fraction, suffix, l);
    forall i | 0 <= i < |s| ensures !l.foreignDigit(s[i]) {
      var c := s[i];
      assert c in prefix || c in suffix || c in IntegerText(whole, grouping, l) || c == l.decimal || c in fraction;
    }
  }

  /**
   The other order of the two replacements loses the decimal separator of a shown number exactly when groups are
   separated by '.', so it gives the number back exactly when there is no fraction or groups are separated otherwise.
   */
  lemma {:induction false} OrderMattersForDotGroups(prefix: string, whole: nat, grouping: bool, fraction: string,
                                                    suffix: string, l: Locale)
    requires ProperLocale(l) && AllDigits(fraction) && Affix(prefix, l) && Affix(suffix, l)
    ensures var other := ExtractedDecimalFirst(Show(prefix, whole, grouping, fraction, suffix, l), l);
            && other == Render(whole) +
                        (if fraction == "" then "" else (if l.group == '.' then "" else ".") + fraction)
            && (other == Plain(whole, fraction) <==> fraction == "" || l.group != '.')
  {
    hide ExtractedDecimalFirst;
    hide Render;
    hide Grouped;
    ExtractedShow(prefix, IntegerText(whole, grouping, l), fraction, suffix, l);
    ExtractedGrouped(Render(whole), l);
    ExtractedDigits(Render(whole), l);
    if l.group == '.' && fraction != "" {
      assert "" + fraction == fraction;
      assert |Render(whole) + fraction| + 1 == |Plain(whole, fraction)|;
    }
  }

  // ---------------------------------------------------------------------------
  // Visible precision
  // ---------------------------------------------------------------------------

  predicate AnyDigit(c: char, l: Locale) { IsDigit(c) || l.foreignDigit(c) }

  /** `formatted.rsplit(symbol, 1)[1]`, for a symbol that occurs. */
  function AfterLast(s: string, symbol: char): string
    requires symbol in s
  {
    if s[|s| - 1] == symbol then "" else AfterLast(s[..|s| - 1], symbol) + [s[|s| - 1]]
  }

  method ComputeVisiblePrecision(formatted: string, l: Locale, maxFractionDigits: Option<nat>) returns (count: nat)
    ensures count == VisiblePrecision(formatted, l, maxFractionDigits)
  {
    if l.decimal !in formatted {
      return 0;
    }
    var fractionPart := AfterLast(formatted, l.decimal);
    count := 0;
    while count < |fractionPart| && AnyDigit(fractionPart[count], l)
      invariant count <= |fractionPart|
      invariant LeadingDigits(fractionPart, l) == count + LeadingDigits(fractionPart[count..], l)
    {
      assert fractionPart[count..][1..] == fractionPart[count + 1..];
      count := count + 1;
    }
    if maxFractionDigits.Some? && count > maxFractionDigits.value {
      count := maxFractionDigits.value;
    }
  }

  ghost function LeadingDigits(s: string, l: Locale): nat {
    if s == "" || !AnyDigit(s[0], l) then 0 else 1 + LeadingDigits(s[1..], l)
  }

  ghost function VisiblePrecision(formatted: string, l: Locale, maxFractionDigits: Option<nat>): nat {
    if l.decimal !in formatted then 0
    else
      var count := LeadingDigits(AfterLast(formatted, l.decimal), l);
      if maxFractionDigits.Some? && count > maxFractionDigits.value then maxFractionDigits.value else count
  }

  lemma {:induction false} AfterLastOf(front: string, symbol: char, tail: string)
    requires symbol !in tail
    ensures AfterLast(front + [symbol] + tail, symbol) == tail
  {
    var s := front + [symbol] + tail;
    if tail != "" {
      AfterLastOf(front, symbol, tail[..|tail| - 1]);
      assert s[..|s| - 1] == front + [symbol] + tail[..|tail| - 1];
    }
  }

  lemma {:induction false} LeadingDigitsOf(digits: string, tail: string, l: Locale)
    requires AllDigits(digits) && (tail != "" ==> !AnyDigit(tail[0], l))
    ensures LeadingDigits(digits + tail, l) == |digits|
  {
    if digits == "" {
      assert digits + tail == tail;
    } else {
      assert digits[0] in digits;
      LeadingDigitsOf(digits[1..], tail, l);
      assert (digits + tail)[1..] == digits[1..] + tail;
    }
  }

  lemma {:induction false} LeadingRun(digits: string, tail: string, l: Locale)
    requires forall c | c in digits :: IsDigit(c) || l.foreignDigit(c)
    requires tail != "" ==> !IsDigit(tail[0]) && !l.foreignDigit(tail[0])
    ensures LeadingDigits(digits + tail, l) == |digits|
  {
    if digits == "" {
      assert digits + tail == tail;
    } else {
      assert digits[0] in digits;
      LeadingRun(digits[1..], tail, l);
      assert (digits + tail)[1..] == digits[1..] + tail;
    }
  }

  /** In any script: the digits between the last decimal symbol and what is no digit are counted, up to the maximum. */
  lemma {:induction false} PrecisionOfDigits(front: string, fraction: string, suffix: string, l: Locale,
                                             maximum: Option<nat>)
    requires !IsDigit(l.decimal) && !l.foreignDigit(l.decimal)
    requires forall c | c in fraction :: IsDigit(c) || l.foreignDigit(c)
    requires l.decimal !in suffix && (suffix != "" ==> !IsDigit(suffix[0]) && !l.foreignDigit(suffix[0]))
    ensures VisiblePrecision(front + [l.decimal] + (fraction + suffix), l, maximum) ==
            if maximum.Some? && |fraction| > maximum.value then maximum.value else |fraction|
  {
    hide LeadingDigits;
    hide AfterLast;
    var s := front + [l.decimal] + (fraction + suffix);
    assert s[|front|] == l.decimal;
    AfterLastOf(front, l.decimal, fraction + suffix);
    LeadingRun(fraction, suffix, l);
  }

  /** Without the decimal symbol nothing counts as fraction. */
  lemma {:induction false} NoPrecisionWithoutSymbol(s: string, l: Locale, maximum: Option<nat>)
    requires l.decimal !in s
    ensures VisiblePrecision(s, l, maximum) == 0
  {
  }

  /** The visible precision of a shown number is the number of its fraction digits, up to the given maximum. */
  lemma {:induction false} PrecisionOfShow(prefix: string, whole: nat, grouping: bool, fraction: string, suffix: string,
                                           l: Locale, maximum: Option<nat>)
    requires ProperLocale(l) && AllDigits(fraction) && Affix(prefix, l) && Affix(suffix, l)
    ensures VisiblePrecision(Show(prefix, whole, grouping, fraction, suffix, l), l, maximum) ==
            if maximum.Some? && |fraction| > maximum.value then maximum.value else |fraction|
  {
    hide LeadingDigits;
    hide AfterLast;
    hide Grouped;
    hide Render;
    var text, s := IntegerText(whole, grouping, l), Show(prefix, whole, grouping, fraction, suffix, l);
    GroupedCharacters(Render(whole), l.group);
    assert forall c | c in suffix :: c in suffix ==> c != l.decimal;
    if fraction == "" {
      assert l.decimal !in prefix && l.decimal !in text && l.decimal !in suffix;
    } else {
      var front := prefix + text;
      assert s == front + [l.decimal] + (fraction + suffix);
      assert l.decimal in s;
      AfterLastOf(front, l.decimal, fraction + suffix);
      LeadingDigitsOf(fraction, suffix, l);
    }
  }
}
