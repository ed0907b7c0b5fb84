/** Digits of other scripts: those with a value read as ASCII digits, and those without one are an error. */
module ScriptTheorems {
  import opened Wrappers
  import opened Rounding
  import opened Digits
  import opened Displays
  import opened Inference
  import opened Readings
  import opened InferenceTheorems
  import Oracles

  // ---------------------------------------------------------------------------
  // Writing digits in ASCII
  // ---------------------------------------------------------------------------

  function Ascii(c: char, sc: Scripts): char { if c in sc.decimals then sc.decimals[c] else c }

  function InAscii(s: string, sc: Scripts): (r: string)
    ensures |r| == |s| && forall i | 0 <= i < |s| :: r[i] == Ascii(s[i], sc)
  {
    seq(|s|, i requires 0 <= i < |s| => Ascii(s[i], sc))
  }

  function AllInAscii(segments: seq<string>, sc: Scripts): (r: seq<string>)
    ensures |r| == |segments| && forall i | 0 <= i < |segments| :: r[i] == InAscii(segments[i], sc)
  {
    seq(|segments|, i requires 0 <= i < |segments| => InAscii(segments[i], sc))
  }

  /** Writing a digit in ASCII makes no difference to what kind of character it is. */
  lemma {:induction false} SameKind(c: char, sc: Scripts)
    requires ProperScripts(sc)
    ensures var a := Ascii(c, sc);
            && (AnyScriptDigit(a, sc) <==> AnyScriptDigit(c, sc)) && (InSegment(a, sc) <==> InSegment(c, sc))
            && (a in SEGMENT_CHARS <==> c in SEGMENT_CHARS) && (c in SEGMENT_CHARS ==> a == c)
            && (c in sc.decimals ==> IsDigit(a)) && (c !in sc.decimals ==> a == c)
            && (a in BLANKS <==> c in BLANKS)
            && (IsDigit(a) || a in sc.others <==> IsDigit(c) || c in sc.decimals || c in sc.others)
  {
  }

  lemma {:induction false} AsciiOfSum(a: string, b: string, sc: Scripts)
    ensures InAscii(a + b, sc) == InAscii(a, sc) + InAscii(b, sc)
  {
  }

  lemma {:induction false} AsciiOfRest(s: string, sc: Scripts)
    requires s != ""
    ensures InAscii(s, sc)[1..] == InAscii(s[1..], sc) && InAscii(s, sc)[..|s| - 1] == InAscii(s[..|s| - 1], sc)
  {
  }

  lemma {:induction false} SameDigits(s: string, sc: Scripts)
    requires ProperScripts(sc)
    ensures HasDigit(InAscii(s, sc), sc) <==> HasDigit(s, sc)
  {
    forall i | 0 <= i < |s| ensures AnyScriptDigit(InAscii(s, sc)[i], sc) <==> AnyScriptDigit(s[i], sc) {
      SameKind(s[i], sc);
    }
  }

  // ---------------------------------------------------------------------------
  // The same segments
  // ---------------------------------------------------------------------------

  lemma {:induction false} SameLeftStrip(s: string, sc: Scripts)
    requires ProperScripts(sc)
    ensures StripLeft(InAscii(s, sc)) == InAscii(StripLeft(s), sc)
  {
    hide ProperScripts;
    hide InAscii;
    if s != "" {
      SameKind(s[0], sc);
      AsciiOfRest(s, sc);
      SameLeftStrip(s[1..], sc);
    }
  }

  lemma {:induction false} SameRightStrip(s: string, sc: Scripts)
    requires ProperScripts(sc)
    ensures StripRight(InAscii(s, sc)) == InAscii(StripRight(s), sc)
  {
    hide ProperScripts;
    hide InAscii;
    if s != "" {
      SameKind(s[|s| - 1], sc);
      AsciiOfRest(s, sc);
      SameRightStrip(s[..|s| - 1], sc);
    }
  }

  lemma {:induction false} SameStrip(s: string, sc: Scripts)
    requires ProperScripts(sc)
    ensures Strip(InAscii(s, sc)) == InAscii(Strip(s), sc)
  {
    hide ProperScripts;
    hide StripLeft;
    hide StripRight;
    SameLeftStrip(s, sc);
    SameRightStrip(StripLeft(s), sc);
  }

  lemma {:induction false} SameFlush(current: string, sc: Scripts)
    requires ProperScripts(sc)
    ensures Flushed(InAscii(current, sc), sc) == AllInAscii(Flushed(current, sc), sc)
  {
    hide ProperScripts;
    hide HasDigit;
    hide Strip;
    SameDigits(current, sc);
    SameStrip(current, sc);
  }

  lemma {:induction false} SameSegments(current: string, rest: string, sc: Scripts)
    requires ProperScripts(sc)
    ensures SegmentsAfter(InAscii(current, sc), InAscii(rest, sc), sc) == AllInAscii(SegmentsAfter(current, rest, sc), sc)
    decreases |rest|
  {
    hide *;
    var c, r := InAscii(current, sc), InAscii(rest, sc);
    SegmentStep(current, rest, sc);
    SegmentStep(c, r, sc);
    SameFlush(current, sc);
    if rest != "" {
      SameKind(rest[0], sc);
      AsciiOfRest(rest, sc);
      AsciiOfSum(current, [rest[0]], sc);
      assert InAscii([rest[0]], sc) == [r[0]];
      assert InAscii("", sc) == "";
      SameSegments(current + [rest[0]], rest[1..], sc);
      SameSegments("", rest[1..], sc);
    }
  }

  // ---------------------------------------------------------------------------
  // The same readings
  // ---------------------------------------------------------------------------

  lemma {:induction false} SameNormalized(done: string, sawSign: bool, rest: string, decimal: Option<char>, sc: Scripts)
    requires ProperScripts(sc) && (decimal.None? || Separates(decimal.value))
    ensures NormalizedAfter(done, sawSign, InAscii(rest, sc), decimal, sc) ==
            NormalizedAfter(done, sawSign, rest, decimal, sc)
    decreases |rest|
  {
    hide InAscii;
    if rest != "" {
      var c := rest[0];
      SameKind(c, sc);
      AsciiOfRest(rest, sc);
      NormalizedFirst(done, sawSign, rest, decimal, sc);
      NormalizedFirst(done, sawSign, InAscii(rest, sc), decimal, sc);
      hide NormalizedAfter;
      SameNormalized(done + [Ascii(c, sc)], sawSign, rest[1..], decimal, sc);
      SameNormalized(done, sawSign, rest[1..], decimal, sc);
      SameNormalized([c], true, rest[1..], decimal, sc);
      SameNormalized(done + ".", sawSign, rest[1..], decimal, sc);
    }
  }

  lemma {:induction false} NormalizedFirst(done: string, sawSign: bool, rest: string, decimal: Option<char>, sc: Scripts)
    requires rest != "" && ProperScripts(sc) && (decimal.None? || Separates(decimal.value))
    ensures var c, more, r := rest[0], rest[1..], NormalizedAfter(done, sawSign, rest, decimal, sc);
            && (IsDigit(c) ==> r == NormalizedAfter(done + [c], sawSign, more, decimal, sc))
            && (c in sc.decimals ==> r == NormalizedAfter(done + [sc.decimals[c]], sawSign, more, decimal, sc))
            && (!IsDigit(c) && c !in sc.decimals && c in sc.others ==> r == Failed)
  {
  }

  lemma {:induction false} SameEnds(s: string, c: char, sc: Scripts)
    requires ProperScripts(sc) && s != "" && c in SEGMENT_CHARS
    ensures InAscii(s, sc)[0] == c <==> s[0] == c
    ensures InAscii(s, sc)[|s| - 1] == c <==> s[|s| - 1] == c
  {
    SameKind(s[0], sc);
    SameKind(s[|s| - 1], sc);
  }

  lemma {:induction false} SameUnwrapped(segment: string, sc: Scripts)
    requires ProperScripts(sc)
    ensures var (s, negative) := Unwrapped(segment); Unwrapped(InAscii(segment, sc)) == (InAscii(s, sc), negative)
  {
    hide ProperScripts;
    hide Strip;
    hide InAscii;
    var s := Strip(segment);
    SameStrip(segment, sc);
    if s != "" {
      SameEnds(s, '(', sc);
      SameEnds(s, ')', sc);
      if |s| >= 2 {
        MiddleInAscii(s, sc);
        SameStrip(s[1..|s| - 1], sc);
      } else {
        SameStrip("", sc);
        assert InAscii("", sc) == "";
      }
    }
  }

  lemma {:induction false} MiddleInAscii(s: string, sc: Scripts)
    requires |s| >= 2
    ensures InAscii(s, sc)[1..|s| - 1] == InAscii(s[1..|s| - 1], sc)
  {
  }

  lemma {:induction false} SameParsed(segment: string, decimal: Option<char>, sc: Scripts)
    requires ProperScripts(sc) && (decimal.None? || Separates(decimal.value))
    ensures ParsedSegment(InAscii(segment, sc), decimal, sc) == ParsedSegment(segment, decimal, sc)
  {
    hide ProperScripts;
    hide Unwrapped;
    hide NormalizedAfter;
    hide ParseSigned;
    hide InAscii;
    SameUnwrapped(segment, sc);
    SameNormalized("", false, Unwrapped(segment).0, decimal, sc);
  }

  lemma {:induction false} SameSeparators(segment: string, sc: Scripts)
    requires ProperScripts(sc)
    ensures SeparatorsOf(InAscii(segment, sc)) == SeparatorsOf(segment)
  {
    hide InAscii;
    if segment != "" {
      SameKind(segment[|segment| - 1], sc);
      AsciiOfRest(segment, sc);
      SameSeparators(segment[..|segment| - 1], sc);
      DecimalsSeparate();
    }
  }

  lemma {:induction false} DecimalsSeparate()
    ensures forall c | c in DECIMAL_SEPARATORS :: Separates(c) && c in SEGMENT_CHARS && !IsDigit(c)
  {
  }

  lemma {:induction false} SameOccurrence(s: string, c: char, sc: Scripts)
    requires ProperScripts(sc) && c in SEGMENT_CHARS
    ensures c in InAscii(s, sc) <==> c in s
  {
    forall i | 0 <= i < |s| ensures InAscii(s, sc)[i] == c <==> s[i] == c {
      SameKind(s[i], sc);
    }
  }

  lemma {:induction false} SameAfterLast(s: string, c: char, sc: Scripts)
    requires ProperScripts(sc) && c in SEGMENT_CHARS && c in s
    ensures c in InAscii(s, sc) && AfterLast(InAscii(s, sc), c) == InAscii(AfterLast(s, c), sc)
  {
    hide ProperScripts;
    hide InAscii;
    SameOccurrence(s, c, sc);
    SameEnds(s, c, sc);
    AsciiOfRest(s, sc);
    if s[|s| - 1] == c {
      assert InAscii("", sc) == "";
    } else {
      assert c in s[..|s| - 1];
      SameAfterLast(s[..|s| - 1], c, sc);
      AsciiOfSum(AfterLast(s[..|s| - 1], c), [s[|s| - 1]], sc);
      assert InAscii([s[|s| - 1]], sc) == [InAscii(s, sc)[|s| - 1]];
    }
  }

  lemma {:induction false} SameLeadingDigits(s: string, d: char, sc: Scripts)
    requires ProperScripts(sc)
    ensures LeadingDigits(InAscii(s, sc), Symbols(d, sc)) == LeadingDigits(s, Symbols(d, sc))
  {
    if s != "" {
      SameKind(s[0], sc);
      AsciiOfRest(s, sc);
      SameLeadingDigits(s[1..], d, sc);
    }
  }

  lemma {:induction false} SamePrecision(s: string, d: char, sc: Scripts)
    requires ProperScripts(sc) && d in DECIMAL_SEPARATORS
    ensures VisiblePrecision(InAscii(s, sc), Symbols(d, sc), None) == VisiblePrecision(s, Symbols(d, sc), None)
  {
    hide ProperScripts;
    hide AfterLast;
    hide LeadingDigits;
    hide InAscii;
    DecimalsSeparate();
    SameOccurrence(s, d, sc);
    if d in s {
      SameAfterLast(s, d, sc);
      SameLeadingDigits(AfterLast(s, d), d, sc);
    }
  }

  lemma {:induction false} SameFirstMatch(value: Decimal, segment: string, separators: seq<char>, sc: Scripts)
    requires ProperScripts(sc) && forall c | c in separators :: c in DECIMAL_SEPARATORS
    ensures FirstMatch(value, InAscii(segment, sc), separators, sc) == FirstMatch(value, segment, separators, sc)
  {
    hide ProperScripts;
    hide ParsedSegment;
    hide VisiblePrecision;
    hide InAscii;
    if separators != [] {
      assert separators[0] in separators && forall c | c in separators[1..] :: c in separators;
      DecimalsSeparate();
      SameParsed(segment, Some(separators[0]), sc);
      SamePrecision(segment, separators[0], sc);
      SameFirstMatch(value, segment, separators[1..], sc);
    }
  }

  lemma {:induction false} SameInferredFrom(value: Decimal, segments: seq<string>, sc: Scripts)
    requires ProperScripts(sc)
    ensures InferredFrom(value, AllInAscii(segments, sc), sc) == InferredFrom(value, segments, sc)
  {
    hide ProperScripts;
    hide ParsedSegment;
    hide FirstMatch;
    hide SeparatorsOf;
    hide InAscii;
    if segments != [] {
      var s := segments[0];
      SeparatorsOccur(s);
      SameSeparators(s, sc);
      SameFirstMatch(value, s, SeparatorsOf(s), sc);
      SameParsed(s, None, sc);
      SameInferredFrom(value, segments[1..], sc);
      assert AllInAscii(segments, sc)[1..] == AllInAscii(segments[1..], sc);
    }
  }

  /** For any text at all: the inferred precision is that of the text with its digits written in ASCII. */
  lemma {:induction false} ScriptMakesNoDifference(value: Decimal, formatted: string, sc: Scripts)
    requires ProperScripts(sc)
    ensures Inferred(value, formatted, sc) == Inferred(value, InAscii(formatted, sc), sc)
  {
    hide ProperScripts;
    hide InferredFrom;
    hide SegmentsAfter;
    hide InAscii;
    SameSegments("", formatted, sc);
    assert InAscii("", sc) == "";
    SameInferredFrom(value, SegmentsAfter("", formatted, sc), sc);
  }

  /** So a number shown with the digits of any script has the precision of its fraction. */
  lemma {:induction false} InferredInAnyScript(s: Display, around: Around, value: Decimal, formatted: string, sc: Scripts)
    requires s.Proper(sc) && around.Proper(sc) && SameValue(s.Value(), value) && Readable(around.front, s)
    requires InAscii(formatted, sc) == around.Text(s) && !Spoils(around.front, s)
    ensures Inferred(value, formatted, sc) == Some(|s.fraction|)
  {
    hide *;
    ProperDisplay(s, sc);
    ScriptMakesNoDifference(value, formatted, sc);
    InferredIsShown(s, around, value, sc);
  }

  lemma {:induction false} ProperDisplay(s: Display, sc: Scripts)
    requires s.Proper(sc)
    ensures ProperScripts(sc)
  {
  }

  const ARABIC := Scripts(map['\U{0660}' := '0', '\U{0661}' := '1', '\U{0665}' := '5'], {})
  const ARABIC_SYMBOLS := Locale('\U{066C}', '\U{066B}', Symbols('.', ARABIC).foreignDigit)

  lemma {:induction false} OneAndHalf()
    ensures var s := Display(NoSign, 1, false, "50", ARABIC_SYMBOLS);
            && s.Proper(ARABIC) && s.Body() == "1\U{066B}50" && s.Magnitude() == Decimal(150, 2)
            && SameValue(s.Value(), Decimal(15, 1))
  {
    OneAndHalfValue();
    hide ValueOf;
    hide Pow10;
    assert Render(1) == "1";
  }

  lemma {:induction false} OneAndHalfValue()
    ensures AllDigits("50") && Oracles.Written(1, "50") == Decimal(150, 2) && SameValue(Decimal(150, 2), Decimal(15, 1))
  {
    assert "50"[..1] == "5" && "5"[..0] == "";
    assert ValueOf("5") == 5 && ValueOf("50") == 50;
    assert Pow10(1) == 10 && Pow10(2) == 100;
  }

  lemma {:induction false} ArabicInAscii()
    ensures InAscii("\U{0661}\U{066B}\U{0665}\U{0660}", ARABIC) == "1\U{066B}50"
  {
  }

  lemma {:induction false} AloneIsBody(s: Display)
    requires s.style == NoSign
    ensures ALONE.Text(s) == s.Body()
  {
    hide Display.Body;
    BehindNothing(s.Body());
  }

  lemma {:induction false} AloneIsProperIn(sc: Scripts)
    ensures ALONE.Proper(sc)
  {
  }

  /** One and a half in Arabic-Indic digits shows two fraction digits. */
  lemma {:induction false} ArabicDigitsCount()
    ensures Inferred(Decimal(15, 1), "\U{0661}\U{066B}\U{0665}\U{0660}", ARABIC) == Some(2)
  {
    hide Inferred;
    hide InAscii;
    var s := Display(NoSign, 1, false, "50", ARABIC_SYMBOLS);
    OneAndHalf();
    ArabicInAscii();
    AloneIsBody(s);
    AloneIsProperIn(ARABIC);
    InferredInAnyScript(s, ALONE, Decimal(15, 1), "\U{0661}\U{066B}\U{0665}\U{0660}", ARABIC);
  }

  // ---------------------------------------------------------------------------
  // Digits without a value
  // ---------------------------------------------------------------------------

  /** A digit that cannot be converted, such as a superscript. */
  predicate Inconvertible(c: char, sc: Scripts) { c in sc.others && c !in sc.decimals }

  ghost predicate HasInconvertible(s: string, sc: Scripts) { exists c :: c in s && Inconvertible(c, sc) }

  ghost predicate AllInSegment(s: string, sc: Scripts) { forall c | c in s :: InSegment(c, sc) }

  lemma {:induction false} NormalizingFails(done: string, sawSign: bool, s: string, decimal: Option<char>, sc: Scripts)
    requires ProperScripts(sc) && AllInSegment(s, sc) && HasInconvertible(s, sc)
    requires decimal.None? || Separates(decimal.value)
    ensures NormalizedAfter(done, sawSign, s, decimal, sc) == Failed
    decreases |s|
  {
    var bad :| bad in s && Inconvertible(bad, sc);
    var c, more := s[0], s[1..];
    assert c in s && forall x | x in more :: x in s;
    if !Inconvertible(c, sc) {
      assert bad in more;
      NormalizingFails(done + [c], sawSign, more, decimal, sc);
      if c in sc.decimals {
        NormalizingFails(done + [sc.decimals[c]], sawSign, more, decimal, sc);
      }
      NormalizingFails(done, sawSign, more, decimal, sc);
      NormalizingFails([c], true, more, decimal, sc);
      NormalizingFails(done + ".", sawSign, more, decimal, sc);
    }
  }

  lemma {:induction false} StripKeeps(s: string, sc: Scripts)
    requires ProperScripts(sc) && AllInSegment(s, sc) && HasInconvertible(s, sc)
    ensures AllInSegment(Strip(s), sc) && HasInconvertible(Strip(s), sc)
  {
    hide AllInSegment;
    hide HasInconvertible;
    LeftStripKeeps(s, sc);
    RightStripKeeps(StripLeft(s), sc);
  }

  lemma {:induction false} DropBlank(s: string, t: string, blank: char, sc: Scripts)
    requires ProperScripts(sc) && AllInSegment(s, sc) && HasInconvertible(s, sc)
    requires (forall c | c in t :: c in s) && (forall c | c in s :: c in t || c == blank) && blank in SEGMENT_CHARS
    ensures AllInSegment(t, sc) && HasInconvertible(t, sc)
  {
    var c :| c in s && Inconvertible(c, sc);
    assert c in t;
  }

  lemma {:induction false} LeftStripKeeps(s: string, sc: Scripts)
    requires ProperScripts(sc) && AllInSegment(s, sc) && HasInconvertible(s, sc)
    ensures AllInSegment(StripLeft(s), sc) && HasInconvertible(StripLeft(s), sc)
  {
    hide AllInSegment;
    hide HasInconvertible;
    hide ProperScripts;
    if s != "" && s[0] in BLANKS {
      assert s == [s[0]] + s[1..];
      DropBlank(s, s[1..], s[0], sc);
      LeftStripKeeps(s[1..], sc);
    }
  }

  lemma {:induction false} RightStripKeeps(s: string, sc: Scripts)
    requires ProperScripts(sc) && AllInSegment(s, sc) && HasInconvertible(s, sc)
    ensures AllInSegment(StripRight(s), sc) && HasInconvertible(StripRight(s), sc)
  {
    hide AllInSegment;
    hide HasInconvertible;
    hide ProperScripts;
    if s != "" && s[|s| - 1] in BLANKS {
      assert s == s[..|s| - 1] + [s[|s| - 1]];
      DropBlank(s, s[..|s| - 1], s[|s| - 1], sc);
      RightStripKeeps(s[..|s| - 1], sc);
    }
  }

  lemma {:induction false} UnwrappedKeeps(s: string, sc: Scripts)
    requires ProperScripts(sc) && AllInSegment(s, sc) && HasInconvertible(s, sc)
    ensures AllInSegment(Unwrapped(s).0, sc) && HasInconvertible(Unwrapped(s).0, sc)
  {
    hide Strip;
    hide InSegment;
    StripKeeps(s, sc);
    var t := Strip(s);
    if t != "" && t[0] == '(' && t[|t| - 1] == ')' {
      var bad :| bad in t && Inconvertible(bad, sc);
      var inner := if |t| >= 2 then t[1..|t| - 1] else "";
      assert t == [t[0]] + inner + [t[|t| - 1]];
      assert bad in inner;
      assert forall c | c in inner :: c in t;
      StripKeeps(inner, sc);
    }
  }

  lemma {:induction false} ReadingFails(segment: string, decimal: Option<char>, sc: Scripts)
    requires ProperScripts(sc) && AllInSegment(segment, sc) && HasInconvertible(segment, sc)
    requires decimal.None? || Separates(decimal.value)
    ensures ParsedSegment(segment, decimal, sc) == Failed
  {
    hide Unwrapped;
    hide NormalizedAfter;
    hide AllInSegment;
    hide HasInconvertible;
    UnwrappedKeeps(segment, sc);
    NormalizingFails("", false, Unwrapped(segment).0, decimal, sc);
  }

  /** A number with a digit that has no value makes the inference fail, whatever the value. */
  lemma {:induction false} InconvertibleDigitFails(value: Decimal, segment: string, sc: Scripts)
    requires ProperScripts(sc) && AllInSegment(segment, sc) && HasInconvertible(segment, sc)
    ensures Inferred(value, segment, sc) == None
  {
    hide ParsedSegment;
    hide SegmentsAfter;
    hide SeparatorsOf;
    hide Strip;
    OneSegment(segment, sc);
    var s := Strip(segment);
    StripKeeps(segment, sc);
    SeparatorsOccur(s);
    DecimalsSeparate();
    ReadingFails(s, None, sc);
    if SeparatorsOf(s) != [] {
      assert SeparatorsOf(s)[0] in SeparatorsOf(s);
      ReadingFails(s, Some(SeparatorsOf(s)[0]), sc);
    }
  }

  lemma {:induction false} OneSegment(segment: string, sc: Scripts)
    requires ProperScripts(sc) && AllInSegment(segment, sc) && HasInconvertible(segment, sc)
    ensures SegmentsAfter("", segment, sc) == [Strip(segment)]
  {
    hide SegmentsAfter;
    hide Strip;
    SegmentsOfRun("", segment, "", sc);
    assert segment + "" == segment && "" + segment == segment;
    var bad :| bad in segment && Inconvertible(bad, sc);
    var i :| 0 <= i < |segment| && segment[i] == bad;
    assert AnyScriptDigit(segment[i], sc);
  }
}
