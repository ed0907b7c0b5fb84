/** What a separator makes of a shown number: the readings that the inference compares with the value. */
module Readings {
  import opened Wrappers
  import opened Rounding
  import opened Digits
  import opened Displays
  import opened Inference
  import Oracles

  // ---------------------------------------------------------------------------
  // Displays come back as one segment
  // ---------------------------------------------------------------------------

  lemma {:induction false} SegmentsOfRun(current: string, run: string, tail: string, sc: Scripts)
    requires (forall c | c in run :: InSegment(c, sc)) && (tail != "" ==> !InSegment(tail[0], sc))
    ensures SegmentsAfter(current, run + tail, sc) ==
            Flushed(current + run, sc) + if tail == "" then [] else SegmentsAfter("", tail[1..], sc)
    decreases |run|
  {
    if run == "" {
      assert run + tail == tail && current + run == current;
    } else {
      assert run[0] in run;
      SegmentsOfRun(current + [run[0]], run[1..], tail, sc);
      assert (run + tail)[1..] == run[1..] + tail && current + [run[0]] + run[1..] == current + run;
    }
  }

  lemma {:induction false} StripLeftBlanks(blanks: string, s: string)
    requires (forall c | c in blanks :: c in BLANKS) && (s != "" ==> s[0] !in BLANKS)
    ensures StripLeft(blanks + s) == s
  {
    if blanks == "" {
      assert blanks + s == s;
    } else {
      assert blanks[0] in blanks;
      StripLeftBlanks(blanks[1..], s);
      assert (blanks + s)[1..] == blanks[1..] + s;
    }
  }

  lemma {:induction false} StripRightStep(s: string)
    ensures s == "" || s[|s| - 1] !in BLANKS ==> StripRight(s) == s
    ensures s != "" && s[|s| - 1] in BLANKS ==> StripRight(s) == StripRight(s[..|s| - 1])
  {
  }

  lemma {:induction false} StripRightBlanks(s: string, blanks: string)
    requires (forall c | c in blanks :: c in BLANKS) && (s != "" ==> s[|s| - 1] !in BLANKS)
    ensures StripRight(s + blanks) == s
  {
    hide *;
    StripRightStep(s + blanks);
    if blanks == "" {
      assert s + blanks == s;
    } else {
      var n := |blanks| - 1;
      assert blanks[n] in blanks && (s + blanks)[|s| + n] == blanks[n];
      StripRightBlanks(s, blanks[..n]);
      assert (s + blanks)[..|s| + n] == s + blanks[..n];
    }
  }

  lemma {:induction false} StripBlanks(lead: string, core: string, blanks: string)
    requires core != "" && core[0] !in BLANKS && core[|core| - 1] !in BLANKS
    requires (forall c | c in lead :: c in BLANKS) && (forall c | c in blanks :: c in BLANKS)
    ensures Strip(lead + core + blanks) == core
  {
    assert lead + core + blanks == lead + (core + blanks);
    StripLeftBlanks(lead, core + blanks);
    StripRightBlanks(core, blanks);
  }

  /** Text without digits that ends outside any segment yields no segments. */
  lemma {:induction false} SegmentsAfterText(current: string, before: string, s: string, sc: Scripts)
    requires !HasDigit(current, sc) && (before == "" ==> current == "")
    requires (forall c | c in before :: !AnyScriptDigit(c, sc))
    requires before != "" ==> !InSegment(before[|before| - 1], sc)
    ensures SegmentsAfter(current, before + s, sc) == SegmentsAfter("", s, sc)
    decreases |before|
  {
    if before == "" {
      assert before + s == s;
    } else {
      hide HasDigit;
      var c, more := before[0], before[1..];
      assert c in before;
      assert (before + s)[0] == c && (before + s)[1..] == more + s;
      DigitSeen(current, c, sc);
      NoDigitYet(sc);
      if more == "" {
        assert c == before[|before| - 1] && more + s == s;
      } else {
        assert more[|more| - 1] == before[|before| - 1];
        SegmentsAfterText(if InSegment(c, sc) then current + [c] else "", more, s, sc);
      }
    }
  }

  // ---------------------------------------------------------------------------
  // What a separator makes of a display
  // ---------------------------------------------------------------------------

  function UnderSeparator(decimal: Option<char>): char -> string {
    c => if IsDigit(c) then [c] else if decimal == Some(c) then "." else ""
  }

  predicate Separates(c: char) { c in GROUPING_SEPARATORS || c in DECIMAL_SEPARATORS }

  predicate Unsigned(s: string) { forall c | c in s :: IsDigit(c) || Separates(c) }

  predicate Separators(s: string) { forall c | c in s :: Separates(c) }

  lemma {:induction false} NormalizedStep(done: string, sawSign: bool, s: string, decimal: Option<char>, sc: Scripts)
    requires s != "" && (IsDigit(s[0]) || Separates(s[0])) && ProperScripts(sc)
    ensures NormalizedAfter(done, sawSign, s, decimal, sc) ==
            NormalizedAfter(done + UnderSeparator(decimal)(s[0]), sawSign, s[1..], decimal, sc)
  {
    assert done + "" == done;
  }

  /** Digits and separators, whatever follows them. */
  lemma {:induction false} NormalizedThrough(done: string, sawSign: bool, s: string, rest: string, decimal: Option<char>,
                                             sc: Scripts)
    requires Unsigned(s) && ProperScripts(sc)
    ensures NormalizedAfter(done, sawSign, s + rest, decimal, sc) ==
            NormalizedAfter(done + Each(s, UnderSeparator(decimal)), sawSign, rest, decimal, sc)
    decreases |s|
  {
    hide *;
    var f := UnderSeparator(decimal);
    if s == "" {
      EachOfNone(f);
      assert s + rest == rest && done + "" == done;
    } else {
      FirstUnsigned(s);
      assert (s + rest)[0] == s[0] && (s + rest)[1..] == s[1..] + rest;
      NormalizedStep(done, sawSign, s + rest, decimal, sc);
      UnsignedRest(s);
      EachFirst(done, s, f);
      NormalizedThrough(done + f(s[0]), sawSign, s[1..], rest, decimal, sc);
    }
  }

  lemma {:induction false} FirstUnsigned(s: string)
    requires Unsigned(s) && s != ""
    ensures IsDigit(s[0]) || Separates(s[0])
  {
    assert s[0] in s;
  }

  lemma {:induction false} EachOfNone(f: char -> string)
    ensures Each("", f) == ""
  {
  }

  lemma {:induction false} EachFirst(done: string, s: string, f: char -> string)
    requires s != ""
    ensures (done + f(s[0])) + Each(s[1..], f) == done + Each(s, f)
  {
    EachDistributes([s[0]], s[1..], f);
    EachOfOne(s[0], f);
    hide *;
    assert [s[0]] + s[1..] == s;
  }

  lemma {:induction false} UnsignedRest(s: string)
    requires Unsigned(s) && s != ""
    ensures Unsigned(s[1..]) && s == [s[0]] + s[1..]
  {
    assert forall c | c in s[1..] :: c in s;
  }

  // ---------------------------------------------------------------------------
  // Signs
  // ---------------------------------------------------------------------------

  /** How the sign of a number is shown; a number in parentheses is negative. */
  datatype Style = NoSign | Plus | Minus | Parentheses

  function Opening(style: Style): string {
    match style
    case NoSign => ""
    case Plus => "+"
    case Minus => "-"
    case Parentheses => "("
  }

  function Closing(style: Style): string { if style.Parentheses? then ")" else "" }

  /** The value that a magnitude is read back with; negating one in parentheses keeps 28 digits. */
  function InStyle(style: Style, v: Decimal): Decimal {
    match style
    case NoSign => v
    case Plus => v
    case Minus => Negated(v)
    case Parentheses => ContextNegated(v)
  }

  function Enclosed(front: string, style: Style, body: string): string {
    front + (Opening(style) + (body + Closing(style)))
  }

  /** What the sign becomes behind `done`, the text that was normalised in front of it. */
  function SignAfter(done: string, style: Style): string { if Signed(style) && done == "" then Opening(style) else "" }

  predicate Signed(style: Style) { style.Minus? || style.Plus? }

  predicate Negative(style: Style) { style.Minus? || style.Parentheses? }

  predicate NoParenthesis(decimal: Option<char>) { decimal != Some('(') && decimal != Some(')') }

  lemma {:induction false} OpeningStep(done: string, style: Style, rest: string, decimal: Option<char>, sc: Scripts)
    requires ProperScripts(sc) && NoParenthesis(decimal)
    ensures NormalizedAfter(done, false, Opening(style) + rest, decimal, sc) ==
            NormalizedAfter(SignAfter(done, style) + done, Signed(style) && done == "", rest, decimal, sc) ||
            (Signed(style) && done != "" &&
             NormalizedAfter(done, false, Opening(style) + rest, decimal, sc) ==
             NormalizedAfter(done, false, rest, decimal, sc))
  {
    var s := Opening(style) + rest;
    if style.NoSign? {
      assert s == rest && "" + done == done;
    } else {
      assert s[1..] == rest;
      assert done == "" ==> Opening(style) + done == Opening(style);
      assert "" + done == done;
    }
  }

  lemma {:induction false} ClosingStep(done: string, sawSign: bool, style: Style, decimal: Option<char>, sc: Scripts)
    requires ProperScripts(sc) && NoParenthesis(decimal)
    ensures NormalizedAfter(done, sawSign, Closing(style), decimal, sc) == Read(done)
  {
  }

  lemma {:induction false} NormalizedEnclosed(front: string, style: Style, body: string, decimal: Option<char>, sc: Scripts)
    requires ProperScripts(sc) && NoParenthesis(decimal) && Unsigned(front) && Unsigned(body)
    ensures var f := UnderSeparator(decimal);
            NormalizedAfter("", false, Enclosed(front, style, body), decimal, sc) ==
            Read(SignAfter(Each(front, f), style) + (Each(front, f) + Each(body, f)))
  {
    hide NormalizedAfter;
    hide Each;
    hide ProperScripts;
    hide Unsigned;
    hide UnderSeparator;
    var f := UnderSeparator(decimal);
    var done := Each(front, f);
    var sign := SignAfter(done, style);
    NormalizedThrough("", false, front, Opening(style) + (body + Closing(style)), decimal, sc);
    assert "" + done == done;
    OpeningStep(done, style, body + Closing(style), decimal, sc);
    NormalizedThrough(sign + done, Signed(style) && done == "", body, Closing(style), decimal, sc);
    ClosingStep(sign + done + Each(body, f), Signed(style) && done == "", style, decimal, sc);
    assert sign + done + Each(body, f) == sign + (done + Each(body, f));
  }

  /** How a magnitude counts when the sign stands behind `front`, of which `done` remains. */
  function Sensed(front: string, done: string, style: Style, v: Decimal): Decimal {
    if (style.Minus? && done != "") || (style.Parentheses? && front != "") then v else InStyle(style, v)
  }

  /** No blanks at its ends, and no sign or parenthesis in it. */
  predicate Body(body: string) { Unsigned(body) && body != "" && body[0] !in BLANKS && IsDigit(body[|body| - 1]) }

  predicate Front(front: string) { Separators(front) && (front != "" ==> front[0] !in BLANKS) }

  lemma {:induction false} UnwrappedEnclosed(front: string, style: Style, body: string)
    requires Body(body) && Front(front)
    ensures Unwrapped(Enclosed(front, style, body)) ==
            if style.Parentheses? && front == "" then (body, true) else (Enclosed(front, style, body), false)
  {
    hide Strip;
    var s := Enclosed(front, style, body);
    assert body[0] in body && (front != "" ==> front[0] in front);
    assert s[|s| - 1] == if style.Parentheses? then ')' else body[|body| - 1];
    assert s[0] == if front != "" then front[0] else if style.NoSign? then body[0] else Opening(style)[0];
    StripAlone(s);
    StripAlone(body);
    assert style.Parentheses? && front == "" ==> s[1..|s| - 1] == body;
  }

  lemma {:induction false} StripAlone(s: string)
    requires s != "" && s[0] !in BLANKS && s[|s| - 1] !in BLANKS
    ensures Strip(s) == s
  {
    hide Strip;
    StripBlanks("", s, "");
    assert "" + s + "" == s;
  }

  lemma {:induction false} ParsedMagnitude(sign: string, number: string)
    requires AllNumeric(number) && (sign == "" || sign == "-" || sign == "+")
    ensures ParseSigned(sign + number) ==
            match Oracles.ParseDecimal(number)
            case None => None
            case Some(v) => Some(if sign == "-" then Negated(v) else v)
  {
    hide Oracles.ParseDecimal;
    var text := sign + number;
    if sign == "" {
      assert text == number;
      assert number != "" ==> number[0] in number;
    } else {
      assert text[1..] == number;
    }
  }

  /** A text of separators, sign and digits reads as what the separator makes of it. */
  lemma {:induction false} ParsedEnclosed(front: string, style: Style, body: string, decimal: Option<char>,
                                          done: string, number: string, sc: Scripts)
    requires ProperScripts(sc) && NoParenthesis(decimal) && Body(body) && Front(front)
    requires done == Each(front, UnderSeparator(decimal))
    requires number == done + Each(body, UnderSeparator(decimal)) && AllNumeric(number)
    ensures ParsedSegment(Enclosed(front, style, body), decimal, sc) ==
            match Oracles.ParseDecimal(number)
            case None => NoNumber
            case Some(v) => Read(Sensed(front, done, style, v))
  {
    hide Each;
    hide Oracles.ParseDecimal;
    hide NormalizedAfter;
    hide Unwrapped;
    hide ParseSigned;
    var f := UnderSeparator(decimal);
    assert Unsigned(front);
    UnwrappedEnclosed(front, style, body);
    if style.Parentheses? && front == "" {
      NormalizedEnclosed("", NoSign, body, decimal, sc);
      EachOfNone(f);
      assert Enclosed("", NoSign, body) == body;
      ParsedMagnitude("", number);
    } else {
      NormalizedEnclosed(front, style, body, decimal, sc);
      ParsedMagnitude(SignAfter(done, style), number);
    }
    assert "" + number == number;
    assert number != "" ==> number[0] in number;
  }

  lemma {:induction false} DigitsStay(digits: string, decimal: Option<char>)
    requires AllDigits(digits)
    ensures Each(digits, UnderSeparator(decimal)) == digits
  {
    hide Each;
    EachLeaves(digits, UnderSeparator(decimal));
  }

  lemma {:induction false} SeparatorBecomes(c: char, decimal: Option<char>)
    requires !IsDigit(c)
    ensures Each([c], UnderSeparator(decimal)) == if decimal == Some(c) then "." else ""
  {
    hide Each;
    EachOfOne(c, UnderSeparator(decimal));
  }

  lemma {:induction false} ReadingOfGrouped(digits: string, sep: char, decimal: Option<char>)
    requires AllDigits(digits) && !IsDigit(sep)
    ensures Each(Grouped(digits, sep), UnderSeparator(decimal)) ==
            if decimal == Some(sep) then Grouped(digits, '.') else digits
  {
    hide Each;
    hide UnderSeparator;
    var f := UnderSeparator(decimal);
    if |digits| <= 3 {
      DigitsStay(digits, decimal);
    } else {
      var n := |digits| - 3;
      var front := Grouped(digits[..n], sep);
      ReadingOfGrouped(digits[..n], sep, decimal);
      EachDistributes(front + [sep], digits[n..], f);
      EachDistributes(front, [sep], f);
      SeparatorBecomes(sep, decimal);
      DigitsStay(digits[n..], decimal);
      assert digits == digits[..n] + digits[n..];
    }
  }

  /** With the group separator taken for the decimal one, a grouped number reads as something else, or not at all. */
  lemma {:induction false} GroupTakenForDecimal(digits: string, fraction: string)
    requires AllDigits(digits) && AllDigits(fraction) && |digits| > 3
    ensures AllNumeric(Grouped(digits, '.') + fraction)
    ensures Oracles.ParseDecimal(Grouped(digits, '.') + fraction) ==
            if |digits| > 6 then None else Some(Decimal(ValueOf(digits + fraction), 3 + |fraction|))
  {
    var n := |digits| - 3;
    var front, tail := Grouped(digits[..n], '.'), digits[n..] + fraction;
    var s := Grouped(digits, '.') + fraction;
    GroupedCharacters(digits, '.');
    assert s == front + "." + tail;
    if n <= 3 {
      assert AllDigits(front) && AllDigits(tail) && !IsDigit('.');
      assert front + tail == digits + fraction;
      OneDot(front, tail);
    } else {
      var m := n - 3;
      var first := Grouped(digits[..n][..m], '.');
      assert front == first + "." + digits[..n][m..];
      TwoDots(first, digits[..n][m..], tail);
      assert s == first + "." + digits[..n][m..] + "." + tail;
    }
  }

  lemma {:induction false} OneDot(front: string, tail: string)
    requires AllDigits(front) && AllDigits(tail) && front + tail != ""
    ensures forall c | c in front + "." + tail :: Numeric(c)
    ensures Oracles.ParseDecimal(front + "." + tail) == Some(Decimal(ValueOf(front + tail), |tail|))
  {
    var s := front + "." + tail;
    assert !IsDigit('.');
    Oracles.FirstDotAfter(front, tail);
    assert s == front + ("." + tail);
    assert s[..|front|] == front;
    assert s[|front| + 1..] == tail;
    assert s[|front|] == '.' && s[|front|] in s;
  }

  lemma {:induction false} TwoDots(first: string, middle: string, tail: string)
    requires forall c | c in first + "." + middle + "." + tail :: Numeric(c)
    ensures Oracles.ParseDecimal(first + "." + middle + "." + tail) == None
  {
    var s := first + "." + middle + "." + tail;
    var k := |first| + 1 + |middle|;
    assert s[|first|] == '.' && s[k] == '.' && s[k] in s;
    var i := Oracles.FirstDot(s);
    assert i <= |first|;
    assert s[i + 1..][k - i - 1] == s[k];
  }

  // ---------------------------------------------------------------------------
  // The precision of a display
  // ---------------------------------------------------------------------------

  /** A number shown in a style: a separator before the fraction, and group separators if it is grouped. */
  datatype Display = Display(style: Style, whole: nat, grouping: bool, fraction: string, l: Locale) {
    ghost predicate Proper(sc: Scripts) {
      && AllDigits(fraction) && ProperScripts(sc) && ProperLocale(l) && l.foreignDigit == Symbols('.', sc).foreignDigit
      && l.group in {' ', '\'', ',', '.', '_', '\U{00A0}', '\U{066C}', '\U{202F}'}
      && l.decimal in {'.', ',', '\U{066B}'}
    }

    function Point(): string { if fraction == "" then "" else [l.decimal] + fraction }

    function Body(): string { IntegerText(whole, grouping, l) + Point() }

    /** The number behind some separators. */
    function Behind(front: string): string { Enclosed(front, style, Body()) }

    function Text(): string { Behind("") }

    function Magnitude(): Decimal
      requires AllDigits(fraction)
    {
      Oracles.Written(whole, fraction)
    }

    function Value(): Decimal
      requires AllDigits(fraction)
    {
      InStyle(style, Magnitude())
    }
  }

  lemma {:induction false} BodyShape(s: Display, sc: Scripts)
    requires s.Proper(sc)
    ensures var b := s.Body();
            Body(b)
  {
    hide Render;
    var digits, b := Render(s.whole), s.Body();
    GroupedCharacters(digits, s.l.group);
    GroupedEnds(digits, s.l.group);
    var text := IntegerText(s.whole, s.grouping, s.l);
    assert digits[0] in digits && digits[|digits| - 1] in digits;
    assert b[0] == text[0];
    if s.fraction == "" {
      assert b == text;
    } else {
      assert b[|b| - 1] == s.fraction[|s.fraction| - 1] && s.fraction[|s.fraction| - 1] in s.fraction;
    }
    forall c | c in b ensures IsDigit(c) || Separates(c) {
      assert c in text || c == s.l.decimal || c in s.fraction;
    }
  }

  lemma {:induction false} GroupedEnds(digits: string, sep: char)
    requires digits != ""
    ensures var g := Grouped(digits, sep); g != "" && g[0] == digits[0] && g[|g| - 1] == digits[|digits| - 1]
  {
    if |digits| > 3 {
      GroupedEnds(digits[..|digits| - 3], sep);
    }
  }

  /** What a separator makes of the body of a display. */
  lemma {:induction false} ReadingOfBody(s: Display, decimal: Option<char>, sc: Scripts)
    requires s.Proper(sc)
    ensures Each(s.Body(), UnderSeparator(decimal)) ==
            (if s.grouping && decimal == Some(s.l.group) then Grouped(Render(s.whole), '.') else Render(s.whole)) +
            (if s.fraction == "" then ""
             else if decimal == Some(s.l.decimal) then "." + s.fraction
             else s.fraction)
  {
    hide Render;
    hide Each;
    hide Grouped;
    var f, digits := UnderSeparator(decimal), Render(s.whole);
    var text := IntegerText(s.whole, s.grouping, s.l);
    EachDistributes(text, s.Point(), f);
    ReadingOfGrouped(digits, s.l.group, decimal);
    EachLeaves(digits, f);
    EachDistributes([s.l.decimal], s.fraction, f);
    EachOfOne(s.l.decimal, f);
    EachLeaves(s.fraction, f);
    assert "" + s.fraction == s.fraction;
  }

  lemma {:induction false} BodyIsNumeric(s: Display, decimal: Option<char>, sc: Scripts)
    requires s.Proper(sc)
    ensures AllNumeric(Each(s.Body(), UnderSeparator(decimal)))
  {
    hide Render;
    hide Each;
    hide Grouped;
    ReadingOfBody(s, decimal, sc);
    GroupedCharacters(Render(s.whole), '.');
  }

  lemma {:induction false} SeparatorIsNoParenthesis(decimal: Option<char>)
    requires decimal.None? || Separates(decimal.value)
    ensures NoParenthesis(decimal)
  {
  }

  /** The number as it reads without anything in front. */
  lemma {:induction false} ParsedDisplay(s: Display, decimal: Option<char>, number: string, sc: Scripts)
    requires s.Proper(sc) && (decimal.None? || Separates(decimal.value))
    requires number == Each(s.Body(), UnderSeparator(decimal)) && AllNumeric(number)
    ensures ParsedSegment(s.Text(), decimal, sc) ==
            match Oracles.ParseDecimal(number)
            case None => NoNumber
            case Some(v) => Read(InStyle(s.style, v))
  {
    hide Each;
    hide ParsedSegment;
    hide Oracles.ParseDecimal;
    hide InStyle;
    hide Enclosed;
    hide Body;
    BodyShape(s, sc);
    EachOfNone(UnderSeparator(decimal));
    SeparatorIsNoParenthesis(decimal);
    assert "" + number == number;
    ParsedEnclosed("", s.style, s.Body(), decimal, "", number, sc);
  }

  /** The decimal separator, or none when there is no fraction, reads the display as its value. */
  lemma {:induction false} RightReading(s: Display, decimal: Option<char>, sc: Scripts)
    requires s.Proper(sc)
    requires if s.fraction == "" then decimal == None else decimal == Some(s.l.decimal)
    ensures ParsedSegment(s.Text(), decimal, sc) == Read(s.Value())
  {
    hide Each;
    hide Render;
    hide ParsedSegment;
    hide Oracles.ParseDecimal;
    hide InStyle;
    ReadingOfBody(s, decimal, sc);
    Oracles.ParseOfPlain(s.whole, s.fraction);
    ParsedDisplay(s, decimal, Plain(s.whole, s.fraction), sc);
  }

  /** Moving the decimal point changes every value but zero. */
  lemma {:induction false} PointMoved(n: int, places: nat, scale: nat)
    requires n != 0 && places > 0
    ensures !SameValue(Decimal(n, places + scale), Decimal(n, scale))
    ensures !SameValue(Decimal(n, scale), Decimal(n, places + scale))
  {
    Pow10Adds(places, scale);
    var p, t := Pow10(scale), Pow10(places);
    assert t > 1 by {
      assert t == 10 * Pow10(places - 1);
    }
    ProductNotZero(n, p);
    assert n * (t * p) == t * (n * p);
    var m := n * p;
    assert t * m - m == (t - 1) * m;
    ProductNotZero(t - 1, m);
  }

  lemma {:induction false} ProductNotZero(a: int, b: int)
    requires a != 0 && b != 0
    ensures a * b != 0
  {
  }

  /** A positive number is no negative one. */
  lemma {:induction false} SignsDiffer(n: nat, m: nat, a: nat, b: nat)
    requires m > 0
    ensures !SameValue(Decimal(n, a), Decimal(0 - m, b))
  {
    ProductSign(n, Pow10(b));
    ProductSign(m, Pow10(a));
    ProductNotZero(m, Pow10(a));
    assert (0 - m) * Pow10(a) == 0 - m * Pow10(a);
  }

  lemma {:induction false} ProductSign(a: nat, b: nat)
    ensures a * b >= 0
  {
  }

  lemma {:induction false} KeptIsPositive(n: nat)
    requires n > 0
    ensures Kept(n) > 0
  {
    var e := Excess(n);
    if e == 0 {
      assert Pow10(0) == 1;
    } else {
      DigitCountBounds(n, e);
    }
    ProductNotZero(RoundHalfEvenMagnitude(n, Pow10(e)), Pow10(e));
  }

  /** The coefficient of a shown number, read in a style, is not zero, and it is negative when a sign is shown. */
  lemma {:induction false} StyledCoefficient(style: Style, n: nat, scale: nat) returns (m: nat)
    requires n > 0
    ensures m > 0 && InStyle(style, Decimal(n, scale)) == Decimal(if Negative(style) then 0 - m else n, scale)
  {
    KeptIsPositive(n);
    m := if style.Parentheses? then Kept(n) else n;
  }

  lemma {:induction false} StyledPointMoved(style: Style, n: nat, places: nat, scale: nat)
    requires n > 0 && places > 0
    ensures !SameValue(InStyle(style, Decimal(n, places + scale)), InStyle(style, Decimal(n, scale)))
    ensures !SameValue(InStyle(style, Decimal(n, scale)), InStyle(style, Decimal(n, places + scale)))
  {
    KeptIsPositive(n);
    PointMoved(n, places, scale);
    PointMoved(0 - n, places, scale);
    PointMoved(0 - Kept(n), places, scale);
  }

  /** Read as a number without sign and with more decimal places, or none, a shown number is another one. */
  lemma {:induction false} ReadOtherwise(style: Style, n: nat, more: nat, scale: nat)
    requires n > 0
    ensures Negative(style) ==> !SameValue(Decimal(n, more), InStyle(style, Decimal(n, scale)))
    ensures !Negative(style) && more > scale ==> !SameValue(Decimal(n, more), InStyle(style, Decimal(n, scale)))
  {
    if !Negative(style) {
      if more > scale {
        PointMoved(n, more - scale, scale);
      }
    } else {
      var m := StyledCoefficient(style, n, scale);
      SignsDiffer(n, m, more, scale);
    }
  }

  lemma {:induction false} ShownCoefficient(s: Display)
    requires AllDigits(s.fraction)
    ensures var n := ValueOf(Render(s.whole) + s.fraction);
            && s.Magnitude() == Decimal(n, |s.fraction|)
            && (|Render(s.whole)| > 3 ==> n != 0)
  {
    hide Render;
    ValueOfJoined(Render(s.whole), s.fraction);
    RenderValue(s.whole);
    ZeroIsShort(s.whole);
    assert s.whole > 0 ==> s.whole * Pow10(|s.fraction|) > 0;
  }

  /** The group separator, where it occurs, does not read the display as its value. */
  lemma {:induction false} WrongReading(s: Display, sc: Scripts)
    requires s.Proper(sc) && s.grouping && |Render(s.whole)| > 3
    ensures var parsed := ParsedSegment(s.Text(), Some(s.l.group), sc);
            !parsed.Failed? && (parsed.Read? ==> !SameValue(parsed.value, s.Value()))
  {
    hide *;
    hide Display.Body;
    hide Display.Text;
    hide Display.Magnitude;
    var digits, f := Render(s.whole), s.fraction;
    UnderGroup(s, sc);
    GroupTakenForDecimal(digits, f);
    ShownCoefficient(s);
    ParsedDisplay(s, Some(s.l.group), Grouped(digits, '.') + f, sc);
    StyledPointMoved(s.style, ValueOf(digits + f), 3, |f|);
    ValueInStyle(s);
  }

  lemma {:induction false} ValueInStyle(s: Display)
    requires AllDigits(s.fraction)
    ensures s.Value() == InStyle(s.style, s.Magnitude())
  {
  }

  lemma {:induction false} UnderGroup(s: Display, sc: Scripts)
    requires s.Proper(sc) && s.grouping
    ensures AllDigits(Render(s.whole)) && AllDigits(s.fraction) && AllDigits(Render(s.whole) + s.fraction)
    ensures Separates(s.l.group)
    ensures Each(s.Body(), UnderSeparator(Some(s.l.group))) == Grouped(Render(s.whole), '.') + s.fraction
  {
    ReadingOfBody(s, Some(s.l.group), sc);
    hide Each;
    hide Render;
    hide Grouped;
    assert Grouped(Render(s.whole), '.') + "" == Grouped(Render(s.whole), '.');
  }

  /** A number in parentheses keeps its value exactly when 28 digits hold it, and so whenever it has no more digits. */
  lemma {:induction false} ParenthesesKeepValue(s: Display)
    requires AllDigits(s.fraction) && s.style == Parentheses
    ensures var n := s.Magnitude().coefficient;
            && (SameValue(s.Value(), Negated(s.Magnitude())) <==> Kept(n) == n)
            && (n < Pow10(CONTEXT_PRECISION) ==> Kept(n) == n)
  {
    hide Kept;
    var n, p := s.Magnitude().coefficient, Pow10(|s.fraction|);
    if n < Pow10(CONTEXT_PRECISION) {
      ShortIsKept(n);
    }
    assert p > 0;
    assert (0 - Kept(n)) * p - (0 - n) * p == (n - Kept(n)) * p;
    if Kept(n) != n {
      ProductNotZero(n - Kept(n), p);
    }
  }

  lemma {:induction false} ZeroIsShort(n: nat)
    ensures |Render(n)| > 3 ==> n > 0
  {
  }

  lemma {:induction false} SeparatorsOccur(segment: string)
    ensures forall c :: c in SeparatorsOf(segment) <==> c in DECIMAL_SEPARATORS && c in segment
  {
    if segment != "" {
      SeparatorsOccur(segment[..|segment| - 1]);
      assert segment == segment[..|segment| - 1] + [segment[|segment| - 1]];
    }
  }

  /** The first match is the decimal separator if it is among the candidates and no other candidate matches. */
  lemma {:induction false} FirstMatchIs(value: Decimal, segment: string, separators: seq<char>, right: char, sc: Scripts)
    requires forall c | c in separators && c != right ::
               !Matches(value, segment, Some(c), sc) && !ParsedSegment(segment, Some(c), sc).Failed?
    requires right in separators ==> Matches(value, segment, Some(right), sc)
    ensures FirstMatch(value, segment, separators, sc) ==
            if right in separators then Read(VisiblePrecision(segment, Symbols(right, sc), None)) else NoNumber
  {
    hide VisiblePrecision;
    if separators != [] {
      assert separators[0] in separators;
      assert forall c | c in separators[1..] :: c in separators;
      FirstMatchIs(value, segment, separators[1..], right, sc);
    }
  }

  /** The precision under the decimal separator is the fraction's, when that separator is not among those in front. */
  lemma {:induction false} PrecisionBehind(s: Display, front: string, sc: Scripts)
    requires s.Proper(sc) && s.fraction != ""
    ensures s.l.decimal in s.Behind(front)
    ensures VisiblePrecision(s.Behind(front), Symbols(s.l.decimal, sc), None) == |s.fraction|
  {
    hide Render;
    hide Grouped;
    hide AfterLast;
    hide LeadingDigits;
    var d, closing := s.l.decimal, Closing(s.style);
    var before := front + (Opening(s.style) + IntegerText(s.whole, s.grouping, s.l));
    var tail := s.fraction + closing;
    assert s.Behind(front) == before + [d] + tail;
    assert (before + [d] + tail)[|before|] == d;
    assert d != ')' && !IsDigit(d) && !AnyDigit(')', Symbols(d, sc));
    AfterLastOf(before, d, tail);
    LeadingDigitsOf(s.fraction, closing, Symbols(d, sc));
  }

  /** The only decimal separators in a display are its own two symbols, each where it is used. */
  lemma {:induction false} SeparatorsBehind(s: Display, front: string, c: char, sc: Scripts)
    requires s.Proper(sc) && c in SeparatorsOf(s.Behind(front))
    ensures c in DECIMAL_SEPARATORS
    ensures c in front || (c == s.l.decimal && s.fraction != "") ||
            (c == s.l.group && s.grouping && |Render(s.whole)| > 3)
  {
    hide Render;
    SeparatorsOccur(s.Behind(front));
    GroupedCharacters(Render(s.whole), s.l.group);
    var text := IntegerText(s.whole, s.grouping, s.l);
    assert c in front || c in Opening(s.style) || c in text || c == s.l.decimal || c in s.fraction || c in Closing(s.style);
    assert c in DECIMAL_SEPARATORS && !IsDigit(c) && c != '-' && c != '(' && c != ')';
    assert c !in Render(s.whole) && c !in s.fraction;
  }
}
