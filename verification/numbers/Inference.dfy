/** Reading the visible precision off a formatted number of unknown locale, by comparing it with the number's value. */
module Inference {
  import opened Wrappers
  import opened Rounding
  import opened Digits
  import opened Displays
  import Oracles

  const DECIMAL_SEPARATORS := {'.', ',', '\U{066B}'}
  const GROUPING_SEPARATORS := {' ', '\'', ',', '.', '_', '\U{00A0}', '\U{066C}', '\U{202F}'}
  const SEGMENT_CHARS := GROUPING_SEPARATORS + {'(', ')', '+', '-', '\U{066B}'}
  const BLANKS := {' ', '\U{00A0}', '\U{202F}'}

  /**
   Digits of other scripts: those with a decimal value, with the ASCII digit of that value, and those without one, such
   as superscripts, which cannot be converted.
   */
  datatype Scripts = Scripts(decimals: map<char, char>, others: set<char>)

  predicate Foreign(c: char, sc: Scripts) { c in sc.decimals || c in sc.others }

  predicate AnyScriptDigit(c: char, sc: Scripts) { IsDigit(c) || Foreign(c, sc) }

  /** Digits of other scripts are no ASCII digits and none of the symbols that numbers are written with. */
  ghost predicate ProperScripts(sc: Scripts) {
    && (forall c | Foreign(c, sc) :: !IsDigit(c) && c !in SEGMENT_CHARS)
    && (forall c | c in sc.decimals :: IsDigit(sc.decimals[c]))
  }

  // ---------------------------------------------------------------------------
  // Segments
  // ---------------------------------------------------------------------------

  predicate InSegment(c: char, sc: Scripts) { AnyScriptDigit(c, sc) || c in SEGMENT_CHARS }

  predicate HasDigit(s: string, sc: Scripts) { exists i :: 0 <= i < |s| && AnyScriptDigit(s[i], sc) }

  function StripLeft(s: string): string { if s != "" && s[0] in BLANKS then StripLeft(s[1..]) else s }

  function StripRight(s: string): string {
    if s != "" && s[|s| - 1] in BLANKS then StripRight(s[..|s| - 1]) else s
  }

  /** `s.strip()`, for text of segment characters. */
  function Strip(s: string): string { StripRight(StripLeft(s)) }

  function Flushed(current: string, sc: Scripts): seq<string> { if HasDigit(current, sc) then [Strip(current)] else [] }

  /** The segments of `rest`, when `current` is the segment begun before it. */
  ghost function SegmentsAfter(current: string, rest: string, sc: Scripts): seq<string>
    decreases |rest|
  {
    if rest == "" then Flushed(current, sc)
    else if InSegment(rest[0], sc) then SegmentsAfter(current + [rest[0]], rest[1..], sc)
    else Flushed(current, sc) + SegmentsAfter("", rest[1..], sc)
  }

  lemma {:induction false} NoDigitYet(sc: Scripts)
    ensures !HasDigit("", sc)
  {
  }

  lemma {:induction false} DigitSeen(current: string, c: char, sc: Scripts)
    ensures HasDigit(current + [c], sc) <==> HasDigit(current, sc) || AnyScriptDigit(c, sc)
  {
    assert forall k | 0 <= k < |current| :: (current + [c])[k] == current[k];
    assert (current + [c])[|current|] == c;
  }

  lemma {:induction false} SegmentStep(current: string, rest: string, sc: Scripts)
    ensures SegmentsAfter(current, rest, sc) ==
            if rest == "" then Flushed(current, sc)
            else if InSegment(rest[0], sc) then SegmentsAfter(current + [rest[0]], rest[1..], sc)
            else Flushed(current, sc) + SegmentsAfter("", rest[1..], sc)
  {
  }

  lemma {:induction false} FlushedIf(current: string, sc: Scripts)
    ensures Flushed(current, sc) == if HasDigit(current, sc) then [Strip(current)] else []
  {
  }

  method IterNumericSegments(formatted: string, sc: Scripts) returns (segments: seq<string>)
    ensures segments == SegmentsAfter("", formatted, sc)
  {
    hide *;
    segments := [];
    var current, sawDigit := "", false;
    NoDigitYet(sc);
    for i := 0 to |formatted|
      invariant sawDigit <==> HasDigit(current, sc)
      invariant segments + SegmentsAfter(current, formatted[i..], sc) == SegmentsAfter("", formatted, sc)
    {
      var c := formatted[i];
      assert formatted[i..][0] == c && formatted[i..][1..] == formatted[i + 1..];
      SegmentStep(current, formatted[i..], sc);
      FlushedIf(current, sc);
      if InSegment(c, sc) {
        DigitSeen(current, c, sc);
        current, sawDigit := current + [c], sawDigit || AnyScriptDigit(c, sc);
      } else {
        ghost var rest := SegmentsAfter("", formatted[i + 1..], sc);
        ghost var before := segments;
        if sawDigit {
          segments := segments + [Strip(current)];
        }
        assert before + (Flushed(current, sc) + rest) == segments + rest;
        current, sawDigit := "", false;
      }
    }
    assert formatted[|formatted|..] == "";
    SegmentStep(current, "", sc);
    FlushedIf(current, sc);
    if sawDigit {
      segments := segments + [Strip(current)];
    }
  }

  // ---------------------------------------------------------------------------
  // Parsing a segment
  // ---------------------------------------------------------------------------

  function Unwrapped(segment: string): (string, bool) {
    var s := Strip(segment);
    if s != "" && s[0] == '(' && s[|s| - 1] == ')' then (Strip(if |s| >= 2 then s[1..|s| - 1] else ""), true)
    else (s, false)
  }

  /** A reading of a text: a result, no number, or the error of a digit that cannot be converted. */
  datatype Reading<+T> = Read(value: T) | NoNumber | Failed

  /** What the rest of a segment adds to the text normalised so far. */
  ghost function NormalizedAfter(done: string, sawSign: bool, rest: string, decimal: Option<char>, sc: Scripts)
    : Reading<string>
    decreases |rest|
  {
    if rest == "" then Read(done)
    else
      var c, more := rest[0], rest[1..];
      if IsDigit(c) then NormalizedAfter(done + [c], sawSign, more, decimal, sc)
      else if c in sc.decimals then NormalizedAfter(done + [sc.decimals[c]], sawSign, more, decimal, sc)
      else if c in sc.others then Failed
      else if c == '+' || c == '-' then
        if done != "" || sawSign then NormalizedAfter(done, sawSign, more, decimal, sc)
        else NormalizedAfter([c], true, more, decimal, sc)
      else if decimal == Some(c) then NormalizedAfter(done + ".", sawSign, more, decimal, sc)
      else if c in GROUPING_SEPARATORS || c in DECIMAL_SEPARATORS then
        NormalizedAfter(done, sawSign, more, decimal, sc)
      else if c == '(' || c == ')' then NormalizedAfter(done, sawSign, more, decimal, sc)
      else NoNumber
  }

  method NormalizeNumericText(segment: string, decimal: Option<char>, sc: Scripts) returns (r: Reading<string>)
    ensures r == NormalizedAfter("", false, segment, decimal, sc)
  {
    var normalized, sawSign := "", false;
    for i := 0 to |segment|
      invariant NormalizedAfter(normalized, sawSign, segment[i..], decimal, sc) ==
                NormalizedAfter("", false, segment, decimal, sc)
    {
      var c := segment[i];
      assert segment[i..][0] == c && segment[i..][1..] == segment[i + 1..];
      if IsDigit(c) {
        normalized := normalized + [c];
      } else if c in sc.decimals {
        normalized := normalized + [sc.decimals[c]];
      } else if c in sc.others {
        return Failed;
      } else if c == '+' || c == '-' {
        if normalized == "" && !sawSign {
          normalized, sawSign := [c], true;
        }
      } else if decimal == Some(c) {
        normalized := normalized + ".";
      } else if c in GROUPING_SEPARATORS || c in DECIMAL_SEPARATORS || c == '(' || c == ')' {
      } else {
        return NoNumber;
      }
    }
    assert segment[|segment|..] == "";
    return Read(normalized);
  }

  predicate AllNumeric(s: string) { forall c | c in s :: Numeric(c) }

  function Negated(v: Decimal): Decimal { Decimal(-v.coefficient, v.scale) }

  /** `Decimal(text)`, where there may be a sign in front. */
  function ParseSigned(text: string): Option<Decimal> {
    var signed := text != "" && (text[0] == '-' || text[0] == '+');
    var body := if signed then text[1..] else text;
    if !AllNumeric(body) then None
    else
      match Oracles.ParseDecimal(body)
      case None => None
      case Some(v) => Some(if signed && text[0] == '-' then Negated(v) else v)
  }

  /** The number that a segment reads as. Negating a parenthesised one keeps 28 digits. */
  ghost function ParsedSegment(segment: string, decimal: Option<char>, sc: Scripts): Reading<Decimal> {
    var (stripped, negative) := Unwrapped(segment);
    match NormalizedAfter("", false, stripped, decimal, sc)
    case Failed => Failed
    case NoNumber => NoNumber
    case Read(text) =>
      match ParseSigned(text)
      case None => NoNumber
      case Some(v) => Read(if negative && (text == "" || text[0] != '-') then ContextNegated(v) else v)
  }

  method ParseNumericSegment(segment: string, decimal: Option<char>, sc: Scripts) returns (r: Reading<Decimal>)
    ensures r == ParsedSegment(segment, decimal, sc)
  {
    var (stripped, negative) := Unwrapped(segment);
    var text := NormalizeNumericText(stripped, decimal, sc);
    if text.Failed? {
      return Failed;
    }
    if text.NoNumber? {
      return NoNumber;
    }
    var parsed := ParseSigned(text.value);
    if parsed.None? {
      return NoNumber;
    }
    r := Read(if negative && (text.value == "" || text.value[0] != '-') then ContextNegated(parsed.value)
              else parsed.value);
  }

  // ---------------------------------------------------------------------------
  // Inference
  // ---------------------------------------------------------------------------

  function Symbols(decimal: char, sc: Scripts): Locale { Locale(decimal, decimal, c => Foreign(c, sc)) }

  /** The decimal separators of a segment, in the order they first occur. */
  ghost function SeparatorsOf(segment: string): seq<char> {
    if segment == "" then []
    else
      var before, c := SeparatorsOf(segment[..|segment| - 1]), segment[|segment| - 1];
      if c in DECIMAL_SEPARATORS && c !in before then before + [c] else before
  }

  ghost predicate Matches(value: Decimal, segment: string, decimal: Option<char>, sc: Scripts) {
    var parsed := ParsedSegment(segment, decimal, sc);
    parsed.Read? && SameValue(parsed.value, value)
  }

  /** The precision under the first separator that makes the segment read as the value. */
  ghost function FirstMatch(value: Decimal, segment: string, separators: seq<char>, sc: Scripts): Reading<nat> {
    if separators == [] then NoNumber
    else if ParsedSegment(segment, Some(separators[0]), sc).Failed? then Failed
    else if Matches(value, segment, Some(separators[0]), sc) then
      Read(VisiblePrecision(segment, Symbols(separators[0], sc), None))
    else FirstMatch(value, segment, separators[1..], sc)
  }

  /** The inferred precision; `None` when a digit cannot be converted, which is an error. */
  ghost function InferredFrom(value: Decimal, segments: seq<string>, sc: Scripts): Option<nat> {
    if segments == [] then Some(value.scale)
    else
      match FirstMatch(value, segments[0], SeparatorsOf(segments[0]), sc)
      case Failed => None
      case Read(p) => Some(p)
      case NoNumber =>
        if ParsedSegment(segments[0], None, sc).Failed? then None
        else if Matches(value, segments[0], None, sc) then Some(0)
        else InferredFrom(value, segments[1..], sc)
  }

  ghost function Inferred(value: Decimal, formatted: string, sc: Scripts): Option<nat> {
    InferredFrom(value, SegmentsAfter("", formatted, sc), sc)
  }

  method InferVisiblePrecision(value: Decimal, formatted: string, sc: Scripts) returns (precision: Option<nat>)
    ensures precision == Inferred(value, formatted, sc)
  {
    hide ParsedSegment;
    hide VisiblePrecision;
    hide SegmentsAfter;
    var segments := IterNumericSegments(formatted, sc);
    for i := 0 to |segments|
      invariant InferredFrom(value, segments[i..], sc) == Inferred(value, formatted, sc)
    {
      var segment := segments[i];
      assert segments[i..][0] == segment && segments[i..][1..] == segments[i + 1..];
      var separators := CollectSeparators(segment);
      for k := 0 to |separators|
        invariant FirstMatch(value, segment, separators[k..], sc) == FirstMatch(value, segment, separators, sc)
      {
        assert separators[k..][0] == separators[k] && separators[k..][1..] == separators[k + 1..];
        var parsed := ParseNumericSegment(segment, Some(separators[k]), sc);
        if parsed.Failed? {
          return None;
        }
        if parsed.Read? && SameValue(parsed.value, value) {
          var shown := ComputeVisiblePrecision(segment, Symbols(separators[k], sc), None);
          return Some(shown);
        }
      }
      assert separators[|separators|..] == [];
      var parsed := ParseNumericSegment(segment, None, sc);
      if parsed.Failed? {
        return None;
      }
      if parsed.Read? && SameValue(parsed.value, value) {
        return Some(0);
      }
    }
    assert segments[|segments|..] == [];
    return Some(value.scale);
  }

  method CollectSeparators(segment: string) returns (separators: seq<char>)
    ensures separators == SeparatorsOf(segment)
  {
    separators := [];
    for k := 0 to |segment|
      invariant separators == SeparatorsOf(segment[..k])
    {
      assert segment[..k + 1][..k] == segment[..k];
      if segment[k] in DECIMAL_SEPARATORS && segment[k] !in separators {
        separators := separators + [segment[k]];
      }
    }
    assert segment[..|segment|] == segment;
  }
}
