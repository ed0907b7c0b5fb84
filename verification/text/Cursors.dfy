/** Positions in a text: scanning, line navigation, and lines and columns by counting or by a line index. */
module Cursors {
  import opened Wrappers
  import opened Digits

  // ---------------------------------------------------------------------------
  // Searching for newlines
  // ---------------------------------------------------------------------------

  /** `s.count("\n", 0, upto)` */
  function CountNewlines(s: string, upto: nat): nat
    requires upto <= |s|
  {
    if upto == 0 then 0 else CountNewlines(s, upto - 1) + if s[upto - 1] == '\n' then 1 else 0
  }

  /** `s.find("\n", from)` */
  function FindNewline(s: string, from: nat): (r: Option<nat>)
    requires from <= |s|
    ensures r.Some? ==> from <= r.value < |s| && s[r.value] == '\n' && forall i | from <= i < r.value :: s[i] != '\n'
    ensures r.None? ==> forall i | from <= i < |s| :: s[i] != '\n'
    decreases |s| - from
  {
    if from == |s| then None else if s[from] == '\n' then Some(from) else FindNewline(s, from + 1)
  }

  /** `s.rfind("\n", 0, upto)` */
  function LastNewline(s: string, upto: nat): (r: Option<nat>)
    requires upto <= |s|
    ensures r.Some? ==> r.value < upto && s[r.value] == '\n' && forall i | r.value < i < upto :: s[i] != '\n'
    ensures r.None? ==> forall i | 0 <= i < upto :: s[i] != '\n'
  {
    if upto == 0 then None else if s[upto - 1] == '\n' then Some(upto - 1) else LastNewline(s, upto - 1)
  }

  lemma {:induction false} CountGrows(s: string, a: nat, b: nat)
    requires a <= b <= |s|
    ensures CountNewlines(s, a) <= CountNewlines(s, b)
    ensures CountNewlines(s, a) == CountNewlines(s, b) <==> forall i | a <= i < b :: s[i] != '\n'
  {
    if a < b {
      CountGrows(s, a, b - 1);
    }
  }

  // ---------------------------------------------------------------------------
  // Cursors
  // ---------------------------------------------------------------------------

  datatype Cursor = Cursor(source: string, pos: nat) {
    ghost predicate Valid() { pos <= |source| }

    /** `e` is where the run of characters from `chars` that starts at the cursor ends. */
    ghost predicate RunEnds(chars: set<char>, e: nat) {
      && pos <= e <= |source|
      && (forall i | pos <= i < e :: source[i] in chars)
      && (e < |source| ==> source[e] !in chars)
    }

    method SkipSpaces() returns (c: Cursor)
      requires Valid()
      ensures c.Valid() && c.source == source && RunEnds({' '}, c.pos)
    {
      var p := pos;
      while p < |source| && source[p] == ' '
        invariant pos <= p <= |source| && forall i | pos <= i < p :: source[i] == ' '
      {
        p := p + 1;
      }
      c := if p == pos then this else Cursor(source, p);
    }

    method SkipWhitespace() returns (c: Cursor)
      requires Valid()
      ensures c.Valid() && c.source == source && RunEnds({' ', '\n'}, c.pos)
    {
      var p := pos;
      while p < |source| && source[p] in {' ', '\n'}
        invariant pos <= p <= |source| && forall i | pos <= i < p :: source[i] in {' ', '\n'}
      {
        p := p + 1;
      }
      c := if p == pos then this else Cursor(source, p);
    }

    function SkipToLineEnd(): (c: Cursor)
      requires Valid()
      ensures c.Valid() && c.source == source
    {
      match FindNewline(source, pos)
      case None => Cursor(source, |source|)
      case Some(p) => Cursor(source, p)
    }

    function SkipLineEnd(): (c: Cursor)
      requires Valid()
      ensures c.Valid() && c.source == source
    {
      if pos < |source| && source[pos] == '\n' then Cursor(source, pos + 1) else this
    }

    function ComputeLineCol(): (nat, nat)
      requires Valid()
    {
      var line := CountNewlines(source, pos) + 1;
      match LastNewline(source, pos)
      case None => (line, pos + 1)
      case Some(last) => (line, pos - last)
    }
  }

  datatype PositionError = NegativePosition

  /** There is one end of a run, so scanning by hand and by cursor agree. */
  lemma {:induction false} RunEndsOnce(c: Cursor, chars: set<char>, a: nat, b: nat)
    requires c.RunEnds(chars, a) && c.RunEnds(chars, b)
    ensures a == b
  {
    assert a == |c.source| || c.source[a] !in chars;
    assert b == |c.source| || c.source[b] !in chars;
  }

  method ManualSkipSpaces(source: string, start: nat) returns (pos: nat)
    requires start <= |source|
    ensures Cursor(source, start).RunEnds({' '}, pos)
  {
    pos := start;
    while pos < |source| && source[pos] == ' '
      invariant start <= pos <= |source| && forall i | start <= i < pos :: source[i] == ' '
    {
      pos := pos + 1;
    }
  }

  method ManualSkipWhitespace(source: string, start: nat) returns (pos: nat)
    requires start <= |source|
    ensures Cursor(source, start).RunEnds({' ', '\n'}, pos)
  {
    pos := start;
    while pos < |source| && source[pos] in {' ', '\n'}
      invariant start <= pos <= |source| && forall i | start <= i < pos :: source[i] in {' ', '\n'}
    {
      pos := pos + 1;
    }
  }

  method SkipsAgree(source: string, start: nat, lines: bool) returns (byHand: nat, byCursor: nat)
    requires start <= |source|
    ensures byHand == byCursor && Cursor(source, start).RunEnds(if lines then {' ', '\n'} else {' '}, byCursor)
  {
    var c := Cursor(source, start);
    if lines {
      byHand := ManualSkipWhitespace(source, start);
      c := c.SkipWhitespace();
      RunEndsOnce(Cursor(source, start), {' ', '\n'}, byHand, c.pos);
    } else {
      byHand := ManualSkipSpaces(source, start);
      c := c.SkipSpaces();
      RunEndsOnce(Cursor(source, start), {' '}, byHand, c.pos);
    }
    byCursor := c.pos;
  }

  // ---------------------------------------------------------------------------
  // The line index
  // ---------------------------------------------------------------------------

  /** The offsets at which lines start: as many newlines lie before the k-th as its index says. */
  ghost predicate IsLineIndex(source: string, offsets: seq<nat>) {
    && offsets != [] && offsets[0] == 0
    && (forall k | 0 <= k < |offsets| :: offsets[k] <= |source| && CountNewlines(source, offsets[k]) == k)
    && (forall k | 0 < k < |offsets| :: offsets[k] > 0 && source[offsets[k] - 1] == '\n')
    && CountNewlines(source, |source|) == |offsets| - 1
  }

  function Clamp(pos: int, length: nat): (p: nat)
    ensures p <= length
  {
    if pos < 0 then 0 else if pos > length then length else pos
  }

  /** A position's line is the last one that starts at or before it; its column counts from there. */
  lemma {:induction false} LineStart(source: string, offsets: seq<nat>, pos: nat, k: nat)
    requires IsLineIndex(source, offsets) && pos <= |source| && k < |offsets| && offsets[k] <= pos
    requires k + 1 < |offsets| ==> pos < offsets[k + 1]
    ensures Cursor(source, pos).ComputeLineCol() == (k + 1, pos - offsets[k] + 1)
  {
    CountGrows(source, offsets[k], pos);
    if k + 1 < |offsets| {
      CountGrows(source, pos, offsets[k + 1] - 1);
    } else {
      CountGrows(source, pos, |source|);
    }
    var last := LastNewline(source, pos);
    assert k > 0 ==> last.Some? && last.value == offsets[k] - 1;
  }

  lemma {:induction false} IndexIncreases(source: string, offsets: seq<nat>, j: nat, k: nat)
    requires IsLineIndex(source, offsets) && j < k < |offsets|
    ensures offsets[j] < offsets[k]
  {
    if offsets[j] >= offsets[k] {
      CountGrows(source, offsets[k], offsets[j]);
    }
  }

  class LineOffsetCache {
    const offsets: seq<nat>
    const sourceLen: nat
    ghost const source: string

    ghost predicate Valid() { sourceLen == |source| && IsLineIndex(source, offsets) }

    constructor (text: string)
      ensures source == text && Valid()
    {
      var starts: seq<nat> := [0];
      var pos := 0;
      var newline := FindNewline(text, pos);
      while newline.Some?
        invariant 0 <= pos <= |text| && newline == FindNewline(text, pos)
        invariant starts != [] && starts[0] == 0 && starts[|starts| - 1] == pos
        invariant forall k | 0 <= k < |starts| :: starts[k] <= |text| && CountNewlines(text, starts[k]) == k
        invariant forall k | 0 < k < |starts| :: starts[k] > 0 && text[starts[k] - 1] == '\n'
        decreases |text| - pos
      {
        CountGrows(text, pos, newline.value);
        starts := starts + [newline.value + 1];
        pos := newline.value + 1;
        newline := FindNewline(text, pos);
      }
      CountGrows(text, pos, |text|);
      offsets, sourceLen, source := starts, |text|, text;
    }

    /** What counting newlines gives, at the nearest position in the text; the line's start leads back to it. */
    method GetLineCol(position: int) returns (line: nat, col: nat)
      requires Valid()
      ensures (line, col) == Cursor(source, Clamp(position, |source|)).ComputeLineCol()
      ensures 1 <= line <= |offsets| && offsets[line - 1] + col - 1 == Clamp(position, |source|)
    {
      var pos := position;
      if pos < 0 {
        pos := 0;
      } else if pos > sourceLen {
        pos := sourceLen;
      }
      var left, right := 0, |offsets| - 1;
      while left < right
        invariant 0 <= left <= right < |offsets| && offsets[left] <= pos
        invariant forall k | right < k < |offsets| :: offsets[k] > pos
        decreases right - left
      {
        var mid := (left + right + 1) / 2;
        if offsets[mid] <= pos {
          left := mid;
        } else {
          LaterLinesStartLater(source, offsets, mid, pos);
          right := mid - 1;
        }
      }
      LineStart(source, offsets, pos, left);
      line, col := left + 1, pos - offsets[left] + 1;
    }
  }

  lemma {:induction false} LaterLinesStartLater(source: string, offsets: seq<nat>, mid: nat, pos: int)
    requires IsLineIndex(source, offsets) && mid < |offsets| && offsets[mid] > pos
    ensures forall k | mid <= k < |offsets| :: offsets[k] > pos
  {
    forall k | mid <= k < |offsets| ensures offsets[k] > pos {
      if k > mid {
        IndexIncreases(source, offsets, mid, k);
      }
    }
  }

  /** Going to the end of a line and past it leads from anywhere in a line to the next one, and from the last to the end. */
  lemma {:induction false} NavigationFollowsIndex(source: string, offsets: seq<nat>, pos: nat, k: nat)
    requires IsLineIndex(source, offsets) && pos <= |source| && k < |offsets| && offsets[k] <= pos
    requires k + 1 < |offsets| ==> pos < offsets[k + 1]
    ensures Cursor(source, pos).SkipToLineEnd().SkipLineEnd().pos ==
            if k + 1 < |offsets| then offsets[k + 1] else |source|
  {
    var found := FindNewline(source, pos);
    CountGrows(source, offsets[k], pos);
    if k + 1 < |offsets| {
      var next := offsets[k + 1];
      CountGrows(source, pos, next - 1);
      assert found.Some? && found.value == next - 1;
    } else {
      CountGrows(source, pos, |source|);
    }
  }

  // ---------------------------------------------------------------------------
  // Position helpers
  // ---------------------------------------------------------------------------

  function LineOffset(source: string, pos: int): Result<nat, PositionError> {
    if pos < 0 then Failure(NegativePosition) else Success(CountNewlines(source, Clamp(pos, |source|)))
  }

  function ColumnOffset(source: string, pos: int): Result<nat, PositionError> {
    if pos < 0 then Failure(NegativePosition)
    else
      var p := Clamp(pos, |source|);
      match LastNewline(source, p)
      case None => Success(p)
      case Some(start) => Success(p - start - 1)
  }

  function FormatPosition(source: string, pos: int, zeroBased: bool): Result<string, PositionError> {
    var line, col := LineOffset(source, pos), ColumnOffset(source, pos);
    if line.Failure? then Failure(line.error)
    else if col.Failure? then Failure(col.error)
    else
      var one := if zeroBased then 0 else 1;
      Success(Render(line.value + one) + ":" + Render(col.value + one))
  }

  /**
   The formatted position shows what the cursor computes, each number one less when counting from zero; a negative position
   is an error here, unlike in the index.
   */
  lemma {:induction false} FormatPositionAgrees(source: string, pos: int, zeroBased: bool)
    ensures FormatPosition(source, pos, zeroBased) ==
            if pos < 0 then Failure(NegativePosition)
            else
              var (line, col) := Cursor(source, Clamp(pos, |source|)).ComputeLineCol();
              if zeroBased then Success(Render(line - 1) + ":" + Render(col - 1))
              else Success(Render(line) + ":" + Render(col))
  {
    if pos >= 0 {
      var p := Clamp(pos, |source|);
      var last := LastNewline(source, p);
      assert ColumnOffset(source, pos) == Success(if last.Some? then p - last.value - 1 else p);
    }
  }

  /** Counted from zero, the text shows the number of the line and the offset in it. */
  lemma {:induction false} FormatPositionInLine(source: string, offsets: seq<nat>, pos: nat, k: nat)
    requires IsLineIndex(source, offsets) && pos <= |source| && k < |offsets| && offsets[k] <= pos
    requires k + 1 < |offsets| ==> pos < offsets[k + 1]
    ensures FormatPosition(source, pos, true) == Success(Render(k) + ":" + Render(pos - offsets[k]))
    ensures FormatPosition(source, pos, false) == Success(Render(k + 1) + ":" + Render(pos - offsets[k] + 1))
  {
    hide IsLineIndex;
    hide FormatPosition;
    LineStart(source, offsets, pos, k);
    FormatPositionAgrees(source, pos, true);
    FormatPositionAgrees(source, pos, false);
  }

  /** Different positions in a text have different lines or columns. */
  lemma {:induction false} LineColIsInjective(source: string, a: nat, b: nat)
    requires a < b <= |source|
    ensures Cursor(source, a).ComputeLineCol() != Cursor(source, b).ComputeLineCol()
  {
    CountGrows(source, a, b);
    var la, lb := LastNewline(source, a), LastNewline(source, b);
    if CountNewlines(source, a) == CountNewlines(source, b) {
      assert la == lb;
    }
  }
}
