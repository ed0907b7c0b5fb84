/** Line endings brought to LF. */
module LineEndings {
  /** `s.replace("\r\n", "\n")` */
  function ReplaceCrLf(s: string): string {
    if s == "" then ""
    else if |s| >= 2 && s[0] == '\r' && s[1] == '\n' then "\n" + ReplaceCrLf(s[2..])
    else [s[0]] + ReplaceCrLf(s[1..])
  }

  /** `s.replace("\r", "\n")` */
  function ReplaceCr(s: string): (r: string)
    ensures |r| == |s| && forall i | 0 <= i < |s| :: r[i] == if s[i] == '\r' then '\n' else s[i]
  {
    if s == "" then "" else [if s[0] == '\r' then '\n' else s[0]] + ReplaceCr(s[1..])
  }

  function NormalizeSource(source: string): string { ReplaceCr(ReplaceCrLf(source)) }

  /** One pass over the text: a CR makes a line feed and swallows a line feed after it. */
  ghost function OnePass(s: string, afterCr: bool): string {
    if s == "" then ""
    else if s[0] == '\r' then "\n" + OnePass(s[1..], true)
    else if s[0] == '\n' && afterCr then OnePass(s[1..], false)
    else [s[0]] + OnePass(s[1..], false)
  }

  /** The two replacements together do what one pass does. */
  lemma {:induction false} TwoPassesAreOne(s: string)
    ensures NormalizeSource(s) == OnePass(s, false)
    decreases |s|
  {
    if s != "" {
      if |s| >= 2 && s[0] == '\r' && s[1] == '\n' {
        TwoPassesAreOne(s[2..]);
        assert s[1..][1..] == s[2..];
        assert ReplaceCrLf(s)[1..] == ReplaceCrLf(s[2..]);
      } else {
        TwoPassesAreOne(s[1..]);
        assert ReplaceCrLf(s)[1..] == ReplaceCrLf(s[1..]);
        if s[0] == '\r' {
          SwallowsNothing(s[1..]);
        }
      }
    }
  }

  lemma {:induction false} SwallowsNothing(s: string)
    requires s == "" || s[0] != '\n'
    ensures OnePass(s, true) == OnePass(s, false)
  {
  }

  lemma {:induction false} NoCrLeft(source: string)
    ensures '\r' !in NormalizeSource(source)
  {
  }

  lemma {:induction false} CrFreeIsFixed(s: string)
    requires '\r' !in s
    ensures NormalizeSource(s) == s
  {
    CrLfKeeps(s);
  }

  lemma {:induction false} CrLfKeeps(s: string)
    requires '\r' !in s
    ensures ReplaceCrLf(s) == s
  {
    if s != "" {
      assert s[0] in s;
      assert forall c | c in s[1..] :: c in s;
      CrLfKeeps(s[1..]);
    }
  }

  lemma {:induction false} NormalizeIsIdempotent(source: string)
    ensures NormalizeSource(NormalizeSource(source)) == NormalizeSource(source)
  {
    NoCrLeft(source);
    CrFreeIsFixed(NormalizeSource(source));
  }

  /** Text is left alone exactly when it has no CR. */
  lemma {:induction false} UnchangedExactlyWithoutCr(source: string)
    ensures NormalizeSource(source) == source <==> '\r' !in source
  {
    NoCrLeft(source);
    if '\r' !in source {
      CrFreeIsFixed(source);
    }
  }

  /** The lines of a text, ended by a CR and LF together, a CR alone or an LF alone. */
  datatype Ending = CrLf | Cr | Lf

  function TextOf(e: Ending): string {
    match e
    case CrLf => "\r\n"
    case Cr => "\r"
    case Lf => "\n"
  }

  /** Lines with their endings, and what follows the last. */
  function Written(lines: seq<(string, Ending)>, last: string): string {
    if lines == [] then last else lines[0].0 + (TextOf(lines[0].1) + Written(lines[1..], last))
  }

  ghost predicate Unbroken(s: string) { forall c | c in s :: c != '\r' && c != '\n' }

  /** No CR alone is followed by an empty line that ends in LF: the two would read as one ending. */
  ghost predicate Unambiguous(lines: seq<(string, Ending)>) {
    && (forall i | 0 <= i < |lines| :: Unbroken(lines[i].0))
    && forall i | 0 <= i < |lines| - 1 :: !(lines[i].1 == Cr && lines[i + 1] == ("", Lf))
  }

  lemma {:induction false} OnePassOverLine(line: string, rest: string)
    requires Unbroken(line)
    ensures OnePass(line + rest, false) == line + OnePass(rest, false)
  {
    if line == "" {
      assert line + rest == rest;
    } else {
      assert line[0] in line && forall c | c in line[1..] :: c in line;
      assert (line + rest)[1..] == line[1..] + rest;
      OnePassOverLine(line[1..], rest);
    }
  }

  lemma {:induction false} FirstOfWritten(lines: seq<(string, Ending)>, last: string)
    requires Unbroken(last) && forall i | 0 <= i < |lines| :: Unbroken(lines[i].0)
    ensures var w := Written(lines, last);
            w != "" && w[0] == '\n' ==> lines != [] && lines[0] == ("", Lf)
  {
    if lines == [] {
      assert last != "" ==> last[0] in last;
    } else if lines[0].0 != "" {
      assert lines[0].0[0] in lines[0].0;
    }
  }

  lemma {:induction false} OnePassOverEnding(e: Ending, rest: string)
    requires e == Cr && rest != "" ==> rest[0] != '\n'
    ensures OnePass(TextOf(e) + rest, false) == "\n" + OnePass(rest, false)
  {
    var s := TextOf(e) + rest;
    if e == CrLf {
      assert s[1..] == "\n" + rest && s[1..][1..] == rest;
    } else {
      assert s[1..] == rest;
    }
  }

  /** Every line is kept, and every ending becomes one line feed. */
  lemma {:induction false} EachEndingIsOneLineFeed(lines: seq<(string, Ending)>, last: string)
    requires Unambiguous(lines) && Unbroken(last)
    ensures NormalizeSource(Written(lines, last)) ==
            Written(seq(|lines|, i requires 0 <= i < |lines| => (lines[i].0, Lf)), last)
  {
    TwoPassesAreOne(Written(lines, last));
    LinesInOnePass(lines, last);
  }

  lemma {:induction false} LinesInOnePass(lines: seq<(string, Ending)>, last: string)
    requires Unambiguous(lines) && Unbroken(last)
    ensures OnePass(Written(lines, last), false) ==
            Written(seq(|lines|, i requires 0 <= i < |lines| => (lines[i].0, Lf)), last)
  {
    hide OnePass;
    var fed := seq(|lines|, i requires 0 <= i < |lines| => (lines[i].0, Lf));
    if lines == [] {
      OnePassOverLine(last, "");
      NothingToPass();
      assert last + "" == last;
    } else {
      var rest := lines[1..];
      assert fed[1..] == seq(|rest|, i requires 0 <= i < |rest| => (rest[i].0, Lf));
      LinesInOnePass(rest, last);
      FirstOfWritten(rest, last);
      OnePassOverLine(lines[0].0, TextOf(lines[0].1) + Written(rest, last));
      OnePassOverEnding(lines[0].1, Written(rest, last));
    }
  }

  lemma {:induction false} NothingToPass()
    ensures OnePass("", false) == ""
  {
  }
}
