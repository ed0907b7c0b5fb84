/** What the inference answers for shown numbers. */
module InferenceTheorems {
  import opened Wrappers
  import opened Rounding
  import opened Digits
  import opened Displays
  import opened Inference
  import opened Readings
  import Oracles

  // ---------------------------------------------------------------------------
  // Separators in front of the number
  // ---------------------------------------------------------------------------

  lemma {:induction false} EachOfFront(front: string, decimal: Option<char>)
    requires Separators(front)
    ensures var done := Each(front, UnderSeparator(decimal));
            && (forall c | c in done :: c == '.')
            && (done == "" <==> decimal.None? || decimal.value !in front)
  {
    if front != "" {
      var n := |front| - 1;
      assert front == front[..n] + [front[n]];
      assert front[n] in front && forall c | c in front[..n] :: c in front;
      EachOfFront(front[..n], decimal);
      assert !IsDigit(front[n]);
    }
  }

  /** A separator that is not among those in front makes of the number what it makes of it alone, but for the sign. */
  lemma {:induction false} FrontIsDropped(s: Display, front: string, decimal: Option<char>, sc: Scripts)
    requires s.Proper(sc) && Front(front) && (decimal.None? || (Separates(decimal.value) && decimal.value !in front))
    ensures s.style != Parentheses || front == "" ==>
              ParsedSegment(s.Behind(front), decimal, sc) == ParsedSegment(s.Text(), decimal, sc)
    ensures s.style == Parentheses && front != "" ==>
              var parsed := ParsedSegment(s.Behind(front), decimal, sc);
              !parsed.Failed? && (parsed.Read? ==> parsed.value.coefficient >= 0)
  {
    hide Each;
    hide ParsedSegment;
    hide Oracles.ParseDecimal;
    hide Enclosed;
    hide Body;
    hide Front;
    hide Display.Body;
    var number := Each(s.Body(), UnderSeparator(decimal));
    FrontSeparates(front);
    EachOfFront(front, decimal);
    BodyIsNumeric(s, decimal, sc);
    BodyShape(s, sc);
    SeparatorIsNoParenthesis(decimal);
    assert "" + number == number;
    ParsedEnclosed(front, s.style, s.Body(), decimal, "", number, sc);
    ParsedDisplay(s, decimal, number, sc);
    ParsedNotNegative(number);
  }

  lemma {:induction false} FrontSeparates(front: string)
    requires Front(front)
    ensures Separators(front)
  {
  }

  lemma {:induction false} ParsedNotNegative(number: string)
    requires AllNumeric(number)
    ensures var v := Oracles.ParseDecimal(number); v.Some? ==> v.value.coefficient >= 0
  {
  }

  /** A text that starts with a dot is no number, or one with all its digits behind the dot. */
  lemma {:induction false} DotsThenDigits(dots: string, rest: string, digits: string)
    requires dots != "" && (forall c | c in dots :: c == '.') && AllNumeric(rest)
    requires '.' !in rest ==> rest == digits
    ensures AllNumeric(dots + rest)
    ensures var v := Oracles.ParseDecimal(dots + rest);
            v.Some? ==> AllDigits(digits) && v == Some(Decimal(ValueOf(digits), |digits|))
  {
    var s := dots + rest;
    assert dots[0] in dots && s[0] == '.' && s[0] in s;
    FirstDotAtStart(s);
    if '.' !in s[1..] {
      if |dots| > 1 {
        DotsGoOn(dots, rest);
      }
      assert s[1..] == rest;
      assert s[..0] + s[1..] == rest;
      assert forall c | c in rest :: c != '.';
    }
  }

  lemma {:induction false} DotsGoOn(dots: string, rest: string)
    requires |dots| > 1 && forall c | c in dots :: c == '.'
    ensures '.' in (dots + rest)[1..]
  {
    assert dots[1] in dots && (dots + rest)[1..][0] == dots[1];
  }

  lemma {:induction false} FirstDotAtStart(s: string)
    requires s != "" && s[0] == '.' && '.' in s
    ensures Oracles.FirstDot(s) == 0
  {
  }

  lemma {:induction false} DotlessBody(s: Display, decimal: Option<char>, sc: Scripts)
    requires s.Proper(sc)
    ensures var rest := Each(s.Body(), UnderSeparator(decimal));
            AllNumeric(rest) && ('.' !in rest ==> rest == Render(s.whole) + s.fraction)
  {
    hide Render;
    hide Each;
    BodyIsNumeric(s, decimal, sc);
    ReadingOfBody(s, decimal, sc);
    var digits := Render(s.whole);
    assert |digits| > 3 ==> '.' in Grouped(digits, '.') by {
      if |digits| > 3 {
        assert Grouped(digits, '.')[|Grouped(digits[..|digits| - 3], '.')|] == '.';
      }
    }
    assert |digits| <= 3 ==> Grouped(digits, '.') == digits;
    hide Grouped;
    assert digits + "" == digits;
    assert "." + s.fraction != "" && ("." + s.fraction)[0] == '.';
  }

  /** A separator that stands in front does not read the display as its value, unless that is zero. */
  lemma {:induction false} FrontSpoilsReading(s: Display, front: string, decimal: char, sc: Scripts)
    requires s.Proper(sc) && Front(front) && decimal in front && Separates(decimal)
    requires s.Magnitude().coefficient != 0
    ensures var parsed := ParsedSegment(s.Behind(front), Some(decimal), sc);
            !parsed.Failed? && (parsed.Read? ==> !SameValue(parsed.value, s.Value()))
  {
    hide *;
    hide Display.Body;
    hide Display.Magnitude;
    var f, digits := UnderSeparator(Some(decimal)), Render(s.whole) + s.fraction;
    var done, rest := Each(front, f), Each(s.Body(), f);
    FrontSeparates(front);
    ProperFraction(s, sc);
    EachOfFront(front, Some(decimal));
    DotlessBody(s, Some(decimal), sc);
    BodyShape(s, sc);
    SeparatorIsNoParenthesis(Some(decimal));
    DotsThenDigits(done, rest, digits);
    ParsedEnclosed(front, s.style, s.Body(), Some(decimal), done, done + rest, sc);
    SensedBehind(front, done, s.style);
    ShownCoefficient(s);
    ReadOtherwise(s.style, ValueOf(digits), |digits|, |s.fraction|);
    ValueInStyle(s);
    BehindFront(s, front);
  }

  lemma {:induction false} BehindFront(s: Display, front: string)
    ensures s.Behind(front) == Enclosed(front, s.style, s.Body())
  {
  }

  lemma {:induction false} ProperFraction(s: Display, sc: Scripts)
    requires s.Proper(sc)
    ensures ProperScripts(sc) && AllDigits(s.fraction) && AllDigits(Render(s.whole) + s.fraction)
    ensures |Render(s.whole) + s.fraction| > |s.fraction|
  {
    hide Render;
  }

  lemma {:induction false} SensedBehind(front: string, done: string, style: Style)
    requires front != "" && done != ""
    ensures forall v :: Sensed(front, done, style, v) == v
  {
  }

  /** Whether separators in front of a number keep it from being read. */
  predicate Spoils(front: string, s: Display) {
    front != "" && (s.style == Parentheses || (s.fraction != "" && s.l.decimal in front))
  }

  /** With a zero, no separator in front may be taken for the decimal one, and nothing stand before a parenthesis. */
  predicate Readable(front: string, s: Display)
    requires AllDigits(s.fraction)
  {
    s.Magnitude().coefficient == 0 && front != "" ==>
      s.style != Parentheses && forall c | c in front :: c !in DECIMAL_SEPARATORS
  }

  lemma {:induction false} Mismatch(s: Display, segment: string, value: Decimal, decimal: Option<char>, sc: Scripts)
    requires AllDigits(s.fraction) && SameValue(s.Value(), value)
    requires var parsed := ParsedSegment(segment, decimal, sc);
             !parsed.Failed? && (parsed.Read? ==> !SameValue(parsed.value, s.Value()))
    ensures !Matches(value, segment, decimal, sc)
  {
    hide ParsedSegment;
    hide SameValue;
    hide Display.Value;
    var parsed := ParsedSegment(segment, decimal, sc);
    if parsed.Read? && SameValue(parsed.value, value) {
      SameValueIsSymmetric(s.Value(), value);
      SameValueIsTransitive(parsed.value, value, s.Value());
    }
  }

  lemma {:induction false} SameValueIsSymmetric(a: Decimal, b: Decimal)
    requires SameValue(a, b)
    ensures SameValue(b, a)
  {
  }

  lemma {:induction false} PositiveIsNotShown(s: Display, v: Decimal)
    requires AllDigits(s.fraction) && Negative(s.style) && s.Magnitude().coefficient != 0 && v.coefficient >= 0
    ensures !SameValue(v, s.Value())
  {
    hide Render;
    hide SameValue;
    ShownCoefficient(s);
    var n := s.Magnitude().coefficient;
    var m := StyledCoefficient(s.style, n, |s.fraction|);
    SignsDiffer(v.coefficient, m, v.scale, |s.fraction|);
  }

  /** Behind anything at all, a parenthesis does not make a number negative. */
  lemma {:induction false} ParenthesisInside(s: Display, front: string, value: Decimal, decimal: Option<char>, sc: Scripts)
    requires s.Proper(sc) && Front(front) && SameValue(s.Value(), value)
    requires s.style == Parentheses && front != "" && s.Magnitude().coefficient != 0
    requires decimal.None? || (Separates(decimal.value) && decimal.value !in front)
    ensures var segment := s.Behind(front);
            !Matches(value, segment, decimal, sc) && !ParsedSegment(segment, decimal, sc).Failed?
  {
    hide ParsedSegment;
    hide Matches;
    hide SameValue;
    hide Front;
    hide Display.Behind;
    hide Display.Value;
    hide Display.Magnitude;
    FrontIsDropped(s, front, decimal, sc);
    var parsed := ParsedSegment(s.Behind(front), decimal, sc);
    if parsed.Read? {
      PositiveIsNotShown(s, parsed.value);
    }
    Mismatch(s, s.Behind(front), value, decimal, sc);
  }

  /** No symbol but the decimal one of the display reads it as its value. */
  lemma {:induction false} OthersDoNotMatch(s: Display, front: string, value: Decimal, c: char, sc: Scripts)
    requires s.Proper(sc) && Front(front) && SameValue(s.Value(), value) && Readable(front, s)
    requires c in SeparatorsOf(s.Behind(front)) && (c != s.l.decimal || s.fraction == "" || Spoils(front, s))
    ensures var segment := s.Behind(front);
            !Matches(value, segment, Some(c), sc) && !ParsedSegment(segment, Some(c), sc).Failed?
  {
    hide ParsedSegment;
    hide Matches;
    hide SameValue;
    hide SeparatorsOf;
    hide Front;
    hide Render;
    hide Display.Behind;
    hide Display.Value;
    hide Display.Magnitude;
    SeparatorsBehind(s, front, c, sc);
    if c in front {
      FrontSpoilsReading(s, front, c, sc);
      Mismatch(s, s.Behind(front), value, Some(c), sc);
    } else if s.style == Parentheses && front != "" {
      ParenthesisInside(s, front, value, Some(c), sc);
    } else {
      FrontIsDropped(s, front, Some(c), sc);
      WrongReading(s, sc);
      Mismatch(s, s.Behind(front), value, Some(c), sc);
    }
  }

  /** Without any decimal separator a number that is kept from being read is another one. */
  lemma {:induction false} NoneDoesNotMatch(s: Display, front: string, value: Decimal, sc: Scripts)
    requires s.Proper(sc) && Front(front) && SameValue(s.Value(), value) && Readable(front, s) && Spoils(front, s)
    ensures var segment := s.Behind(front);
            !Matches(value, segment, None, sc) && !ParsedSegment(segment, None, sc).Failed?
  {
    hide ParsedSegment;
    hide Matches;
    hide SameValue;
    hide Front;
    hide Display.Behind;
    hide Display.Value;
    hide Display.Magnitude;
    if s.style == Parentheses {
      ParenthesisInside(s, front, value, None, sc);
    } else {
      FrontIsDropped(s, front, None, sc);
      WithoutPoint(s, sc);
      Mismatch(s, s.Behind(front), value, None, sc);
    }
  }

  lemma {:induction false} WithoutPoint(s: Display, sc: Scripts)
    requires s.Proper(sc) && s.fraction != "" && s.Magnitude().coefficient != 0
    ensures var parsed := ParsedSegment(s.Text(), None, sc);
            !parsed.Failed? && (parsed.Read? ==> !SameValue(parsed.value, s.Value()))
  {
    hide *;
    hide Display.Body;
    hide Display.Text;
    hide Display.Magnitude;
    var digits := Render(s.whole) + s.fraction;
    DigitsWithoutPoint(s, sc);
    ParsedDisplay(s, None, digits, sc);
    ShownCoefficient(s);
    StyledPointMoved(s.style, ValueOf(digits), |s.fraction|, 0);
    ValueInStyle(s);
    assert |s.fraction| + 0 == |s.fraction|;
  }

  lemma {:induction false} DigitsWithoutPoint(s: Display, sc: Scripts)
    requires s.Proper(sc) && s.fraction != ""
    ensures var digits := Render(s.whole) + s.fraction;
            && AllDigits(digits) && AllNumeric(digits) && digits != "" && AllDigits(s.fraction)
            && Each(s.Body(), UnderSeparator(None)) == digits
            && Oracles.ParseDecimal(digits) == Some(Decimal(ValueOf(digits), 0))
  {
    hide Render;
    hide Each;
    hide ValueOf;
    ReadingOfBody(s, None, sc);
    var digits := Render(s.whole) + s.fraction;
    assert forall c | c in digits :: c in Render(s.whole) || c in s.fraction;
    assert '.' !in digits;
  }

  lemma {:induction false} DecimalMatches(s: Display, front: string, value: Decimal, sc: Scripts)
    requires s.Proper(sc) && Front(front) && SameValue(s.Value(), value) && !Spoils(front, s)
    ensures Matches(value, s.Behind(front), if s.fraction == "" then None else Some(s.l.decimal), sc)
    ensures !ParsedSegment(s.Behind(front), if s.fraction == "" then None else Some(s.l.decimal), sc).Failed?
  {
    hide ParsedSegment;
    hide SameValue;
    hide Front;
    hide Display.Behind;
    hide Display.Text;
    hide Display.Value;
    var decimal := if s.fraction == "" then None else Some(s.l.decimal);
    FrontIsDropped(s, front, decimal, sc);
    RightReading(s, decimal, sc);
  }

  lemma {:induction false} InferredBehind(s: Display, front: string, value: Decimal, more: seq<string>, sc: Scripts)
    requires s.Proper(sc) && Front(front) && SameValue(s.Value(), value) && Readable(front, s)
    ensures InferredFrom(value, [s.Behind(front)] + more, sc) ==
            if Spoils(front, s) then InferredFrom(value, more, sc) else Some(|s.fraction|)
  {
    hide ParsedSegment;
    hide VisiblePrecision;
    hide FirstMatch;
    hide Matches;
    hide SameValue;
    hide SeparatorsOf;
    hide Front;
    hide Display.Behind;
    hide Display.Value;
    hide Readable;
    var core, separators := s.Behind(front), SeparatorsOf(s.Behind(front));
    var right := if Spoils(front, s) || s.fraction == "" then ' ' else s.l.decimal;
    assert ([core] + more)[0] == core && ([core] + more)[1..] == more;
    SeparatorsOccur(core);
    forall c | c in separators && c != right
      ensures !Matches(value, core, Some(c), sc) && !ParsedSegment(core, Some(c), sc).Failed?
    {
      OthersDoNotMatch(s, front, value, c, sc);
    }
    if Spoils(front, s) {
      NoneDoesNotMatch(s, front, value, sc);
    } else {
      DecimalMatches(s, front, value, sc);
      if s.fraction != "" {
        PrecisionBehind(s, front, sc);
      }
    }
    FirstMatchIs(value, core, separators, right, sc);
  }

  // ---------------------------------------------------------------------------
  // Text around the number
  // ---------------------------------------------------------------------------

  /**
   What may surround a shown number: separators directly in front of it, blanks, and beyond those text outside any
   segment, without digits in front.
   */
  datatype Around = Around(before: string, lead: string, front: string, trail: string, rest: string) {
    ghost predicate Proper(sc: Scripts) {
      && Front(front)
      && (forall c | c in lead || c in trail :: c in BLANKS)
      && (forall c | c in before :: !AnyScriptDigit(c, sc))
      && (before != "" ==> !InSegment(before[|before| - 1], sc))
      && (rest != "" ==> !InSegment(rest[0], sc))
    }

    function Text(s: Display): string { before + (lead + s.Behind(front) + trail + rest) }

    /** The segments of the text behind the number. */
    ghost function Later(sc: Scripts): seq<string> { if rest == "" then [] else SegmentsAfter("", rest[1..], sc) }
  }

  /** The characters that numbers are made of, besides digits. */
  lemma {:induction false} NumberCharacters(c: char, sc: Scripts)
    ensures InSegment(c, sc) <==>
            IsDigit(c) || c in sc.decimals || c in sc.others ||
            c in {' ', '\'', ',', '.', '_', '\U{00A0}', '\U{066B}', '\U{066C}', '\U{202F}', '(', ')', '+', '-'}
  {
  }

  lemma {:induction false} BehindEnds(s: Display, front: string, sc: Scripts)
    requires s.Proper(sc) && Front(front)
    ensures var core := s.Behind(front);
            && core != "" && core[0] !in BLANKS && core[|core| - 1] !in BLANKS
            && HasDigit(core, sc) && forall c | c in core :: InSegment(c, sc)
  {
    hide Enclosed;
    hide Display.Body;
    BodyShape(s, sc);
    EnclosedEnds(front, s.style, s.Body(), sc);
  }

  lemma {:induction false} EnclosedEnds(front: string, style: Style, body: string, sc: Scripts)
    requires Body(body) && Front(front)
    ensures var core := Enclosed(front, style, body);
            && core != "" && core[0] !in BLANKS && core[|core| - 1] !in BLANKS
            && HasDigit(core, sc) && forall c | c in core :: InSegment(c, sc)
  {
    hide HasDigit;
    var core, opening := Enclosed(front, style, body), Opening(style);
    assert body[0] in body && (front != "" ==> front[0] in front);
    assert core[|core| - 1] == if style.Parentheses? then ')' else body[|body| - 1];
    assert core[0] == if front != "" then front[0] else if style.NoSign? then body[0] else opening[0];
    DigitAt(|front| + |opening| + |body| - 1, core, sc);
    forall c | c in core ensures InSegment(c, sc) {
      assert c in front || c in opening || c in body || c in Closing(style);
    }
  }

  lemma {:induction false} DigitAt(i: nat, s: string, sc: Scripts)
    requires i < |s| && IsDigit(s[i])
    ensures HasDigit(s, sc)
  {
    assert AnyScriptDigit(s[i], sc);
  }

  lemma {:induction false} RunOf(lead: string, core: string, trail: string, sc: Scripts)
    requires core != "" && core[0] !in BLANKS && core[|core| - 1] !in BLANKS
    requires HasDigit(core, sc) && forall c | c in core :: InSegment(c, sc)
    requires forall c | c in lead || c in trail :: c in BLANKS
    ensures var run := lead + core + trail;
            (forall c | c in run :: InSegment(c, sc)) && Flushed(run, sc) == [core]
  {
    hide Strip;
    var run := lead + core + trail;
    StripBlanks(lead, core, trail);
    var i :| 0 <= i < |core| && AnyScriptDigit(core[i], sc);
    assert run[|lead| + i] == core[i];
    forall c | c in run ensures InSegment(c, sc) {
      assert c in lead || c in core || c in trail;
    }
  }

  lemma {:induction false} SegmentsAround(s: Display, around: Around, sc: Scripts)
    requires s.Proper(sc) && around.Proper(sc)
    ensures SegmentsAfter("", around.Text(s), sc) == [s.Behind(around.front)] + around.Later(sc)
  {
    hide SegmentsAfter;
    hide Flushed;
    hide HasDigit;
    hide InSegment;
    hide Display.Behind;
    hide Front;
    var core := s.Behind(around.front);
    var run := around.lead + core + around.trail;
    BehindEnds(s, around.front, sc);
    RunOf(around.lead, core, around.trail, sc);
    NoDigitYet(sc);
    SegmentsAfterText("", around.before, run + around.rest, sc);
    SegmentsOfRun("", run, around.rest, sc);
    assert "" + run == run;
  }

  lemma {:induction false} NoSegments(current: string, s: string, sc: Scripts)
    requires !HasDigit(current, sc) && forall c | c in s :: !AnyScriptDigit(c, sc)
    ensures SegmentsAfter(current, s, sc) == []
    decreases |s|
  {
    hide HasDigit;
    if s != "" {
      assert s[0] in s && forall c | c in s[1..] :: c in s;
      DigitSeen(current, s[0], sc);
      NoDigitYet(sc);
      NoSegments(if InSegment(s[0], sc) then current + [s[0]] else "", s[1..], sc);
    }
  }

  lemma {:induction false} NothingLater(around: Around, sc: Scripts)
    requires forall c | c in around.rest :: !AnyScriptDigit(c, sc)
    ensures around.Later(sc) == []
  {
    if around.rest != "" {
      assert forall c | c in around.rest[1..] :: c in around.rest;
      NoDigitYet(sc);
      NoSegments("", around.rest[1..], sc);
    }
  }

  /**
   A number shown with any of the known separators, with or without grouping and fraction, without a sign, behind a plus
   or minus or in parentheses, between blanks and text that is no part of a number. What looks like a fraction, as in
   "1,000", is told apart from groups by the value. The inferred precision is the number of fraction digits, unless what
   stands directly in front spoils the reading: the decimal separator, when there is a fraction, or anything at all in
   front of a parenthesis. Then the rest of the text decides, and if it has no digits, the value's own scale.
   */
  lemma {:induction false} InferredIsShown(s: Display, around: Around, value: Decimal, sc: Scripts)
    requires s.Proper(sc) && around.Proper(sc) && SameValue(s.Value(), value) && Readable(around.front, s)
    ensures !Spoils(around.front, s) ==> Inferred(value, around.Text(s), sc) == Some(|s.fraction|)
    ensures Spoils(around.front, s) ==> Inferred(value, around.Text(s), sc) == InferredFrom(value, around.Later(sc), sc)
    ensures (forall c | c in around.rest :: !AnyScriptDigit(c, sc)) ==>
              (Inferred(value, around.Text(s), sc) == Some(|s.fraction|) <==>
               !Spoils(around.front, s) || value.scale == |s.fraction|)
  {
    hide Spoils;
    hide Readable;
    hide SegmentsAfter;
    hide AnyScriptDigit;
    hide Front;
    hide SameValue;
    hide Display.Behind;
    hide Display.Value;
    hide Around.Text;
    hide Around.Later;
    SegmentsAround(s, around, sc);
    InferredBehind(s, around.front, value, around.Later(sc), sc);
    if forall c | c in around.rest :: !AnyScriptDigit(c, sc) {
      NothingLater(around, sc);
    }
  }

  const ASCII := Scripts(map[], {})
  const ALONE := Around("", "", "", "", "")
  const POINT_GROUPS := Locale('.', ',', Symbols('.', ASCII).foreignDigit)
  const COMMA_GROUPS := Locale(',', '.', Symbols('.', ASCII).foreignDigit)

  lemma {:induction false} AloneIsText(s: Display)
    requires s.style == NoSign
    ensures ALONE.Text(s) == s.Body() && ALONE.Proper(ASCII) && ProperScripts(ASCII)
  {
    hide Display.Body;
    BehindNothing(s.Body());
    AloneIsProper();
  }

  lemma {:induction false} BehindNothing(body: string)
    ensures "" + ("" + ("" + ("" + (body + ""))) + "" + "") == body
  {
  }

  lemma {:induction false} AloneIsProper()
    ensures ALONE.Proper(ASCII) && ProperScripts(ASCII)
  {
  }

  /** The same text has precision 3 for the value one and precision 0 for the value one thousand. */
  lemma {:induction false} ValueDecides()
    ensures Inferred(Decimal(1, 0), "1,000", ASCII) == Some(3) && Inferred(Decimal(1000, 0), "1,000", ASCII) == Some(0)
  {
    hide Inferred;
    var one, thousand := Display(NoSign, 1, false, "000", POINT_GROUPS), Display(NoSign, 1000, true, "", COMMA_GROUPS);
    AloneIsText(one);
    AloneIsText(thousand);
    OneWithThousandths();
    OneThousand();
    InferredIsShown(one, ALONE, Decimal(1, 0), ASCII);
    InferredIsShown(thousand, ALONE, Decimal(1000, 0), ASCII);
  }

  lemma {:induction false} OneWithThousandths()
    ensures var s := Display(NoSign, 1, false, "000", POINT_GROUPS);
            && s.Proper(ASCII) && s.Body() == "1,000" && s.Value() == Decimal(1000, 3)
            && SameValue(s.Value(), Decimal(1, 0))
  {
    assert Render(1) == "1";
    assert "000"[..2] == "00" && "00"[..1] == "0" && "0"[..0] == "";
    assert ValueOf("0") == 0 && ValueOf("00") == 0 && ValueOf("000") == 0;
    assert Pow10(3) == 1000 && Pow10(0) == 1;
  }

  lemma {:induction false} RenderThousand()
    ensures Render(1000) == "1000" && Grouped("1000", ',') == "1,000" && Grouped("1000", '.') == "1.000"
  {
    assert Render(10) == "10" && Render(100) == "100";
    assert "1000"[..1] == "1" && "1000"[1..] == "000";
    assert Grouped("1", ',') == "1" && Grouped("1", '.') == "1";
  }

  lemma {:induction false} OneThousand()
    ensures var s := Display(NoSign, 1000, true, "", COMMA_GROUPS);
            s.Proper(ASCII) && s.Body() == "1,000" && s.Value() == Decimal(1000, 0)
  {
    RenderThousand();
    assert Pow10(0) == 1;
  }

  // ---------------------------------------------------------------------------
  // Text that joins the number
  // ---------------------------------------------------------------------------

  const RUPEES := Around("Rs", "", ". ", "", "")

  lemma {:induction false} RupeesAreProper()
    ensures RUPEES.Proper(ASCII)
  {
    assert RUPEES.before[1] == 's';
    assert forall c | c in ". " :: c == '.' || c == ' ';
    assert forall c | c in "Rs" :: c == 'R' || c == 's';
  }

  lemma {:induction false} ThousandAndHalf()
    ensures var s := Display(NoSign, 1000, true, "50", COMMA_GROUPS);
            && s.Proper(ASCII) && s.Body() == "1,000.50" && s.Magnitude() == Decimal(100050, 2)
            && SameValue(s.Value(), Decimal(10005, 1))
  {
    RenderThousand();
    assert "50"[..1] == "5" && "5"[..0] == "";
    assert ValueOf("5") == 5 && ValueOf("50") == 50;
    assert Pow10(1) == 10 && Pow10(2) == 100;
    assert "1,000" + ([','][..0] + "." + "50") == "1,000.50";
  }

  lemma {:induction false} RupeesText(s: Display)
    requires s.style == NoSign && s.Body() == "1,000.50"
    ensures RUPEES.Text(s) == "Rs. 1,000.50"
  {
    assert s.Behind(". ") == ". 1,000.50";
    assert "Rs" + ("" + ". 1,000.50" + "" + "") == "Rs. 1,000.50";
  }

  /** A dot in front of the number makes it unreadable: "Rs. 1,000.50" is taken to show one fraction digit of 1000.5. */
  lemma {:induction false} DotInFrontMisleads()
    ensures Inferred(Decimal(10005, 1), "Rs. 1,000.50", ASCII) == Some(1)
  {
    hide Inferred;
    hide InferredFrom;
    var s := Display(NoSign, 1000, true, "50", COMMA_GROUPS);
    ThousandAndHalf();
    RupeesAreProper();
    RupeesText(s);
    InferredIsShown(s, RUPEES, Decimal(10005, 1), ASCII);
    NothingInferred(Decimal(10005, 1));
    assert RUPEES.Later(ASCII) == [];
    assert ". "[0] == '.';
  }

  lemma {:induction false} NothingInferred(value: Decimal)
    ensures InferredFrom(value, [], ASCII) == Some(value.scale)
  {
  }

  // ---------------------------------------------------------------------------
  // More than one reading
  // ---------------------------------------------------------------------------

  /** The candidates are tried in the order in which they first occur. */
  lemma {:induction false} SeparatorsInOrder(segment: string, i: nat, j: nat, k: nat)
    requires i < j < |SeparatorsOf(segment)| && k < |segment| && segment[k] == SeparatorsOf(segment)[j]
    ensures exists m :: 0 <= m < k && segment[m] == SeparatorsOf(segment)[i]
  {
    var n := |segment| - 1;
    var front, before := segment[..n], SeparatorsOf(segment[..n]);
    assert forall m | 0 <= m < n :: front[m] == segment[m];
    if j < |before| {
      if k < n {
        SeparatorsInOrder(front, i, j, k);
      } else {
        SeparatorOccurs(front, i);
      }
    } else {
      SeparatorsOccur(front);
      assert k == n;
      SeparatorOccurs(front, i);
    }
  }

  lemma {:induction false} SeparatorOccurs(segment: string, i: nat)
    requires i < |SeparatorsOf(segment)|
    ensures exists m :: 0 <= m < |segment| && segment[m] == SeparatorsOf(segment)[i]
  {
    SeparatorsOccur(segment);
    assert SeparatorsOf(segment)[i] in SeparatorsOf(segment);
  }

  lemma {:induction false} MatchAt(value: Decimal, segment: string, separators: seq<char>, i: nat, sc: Scripts)
    requires i < |separators| && Matches(value, segment, Some(separators[i]), sc)
    requires forall k | 0 <= k < i ::
               !Matches(value, segment, Some(separators[k]), sc) && !ParsedSegment(segment, Some(separators[k]), sc).Failed?
    ensures FirstMatch(value, segment, separators, sc) ==
            Read(VisiblePrecision(segment, Symbols(separators[i], sc), None))
  {
    hide VisiblePrecision;
    if i > 0 {
      MatchAt(value, segment, separators[1..], i - 1, sc);
    }
  }

  /** If several separators read a segment as the value, the first of them decides, whatever comes after the segment. */
  lemma {:induction false} FirstSeparatorDecides(value: Decimal, segment: string, more: seq<string>, i: nat, sc: Scripts)
    requires i < |SeparatorsOf(segment)| && Matches(value, segment, Some(SeparatorsOf(segment)[i]), sc)
    requires forall k | 0 <= k < i ::
               && !Matches(value, segment, Some(SeparatorsOf(segment)[k]), sc)
               && !ParsedSegment(segment, Some(SeparatorsOf(segment)[k]), sc).Failed?
    ensures InferredFrom(value, [segment] + more, sc) ==
            Some(VisiblePrecision(segment, Symbols(SeparatorsOf(segment)[i], sc), None))
  {
    hide VisiblePrecision;
    hide SeparatorsOf;
    hide Matches;
    hide ParsedSegment;
    MatchAt(value, segment, SeparatorsOf(segment), i, sc);
    assert ([segment] + more)[0] == segment;
  }
}
