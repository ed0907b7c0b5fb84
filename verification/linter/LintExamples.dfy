/** Two small resources, and what linting them yields. */
module LintExamples {
  import opened Wrappers
  import opened Ast
  import opened LintSpec
  import opened Linter

  function NameOf(name: string): Node { Identifier(name, None) }

  /** A message with one piece of text, `m = x`. */
  const TEXT := TextElement("x", None)
  const VALUE := Pattern([TEXT], None)
  const MESSAGE := Message(NameOf("m"), Some(VALUE), [], None, None)
  const SHORT := Resource([MESSAGE])

  lemma {:induction false} ShortText()
    ensures Typed(TEXT) && Height(TEXT) == 1
  {
    VisitedUnder(TEXT);
    assert Visited(TEXT) == [];
  }

  lemma {:induction false} OnlyChild(n: Node, c: Node)
    requires Typed(n) && Visited(n) == [c]
    ensures Under(Visited(n), n) && c < n && Typed(c)
    ensures Height(n) == 1 + Height(c)
    ensures forall location, room ::
              LeftAtOf(Visited(n), location, room, n) ==
              if Height(c) > room then LeftAt(c, location, room) else location
  {
    hide Visited;
    hide Typed;
    hide Height;
    hide LeftAt;
    VisitedUnder(n);
    assert c in Visited(n) && [c][1..] == [] && c == [c][0];
    HeightOfTree(n);
    HeightOfList([c], n);
    NoIssuesOfNone(None, n, Defined({}, {}));
  }

  lemma {:induction false} ShortValue()
    ensures Typed(VALUE) && Height(VALUE) == 2
  {
    hide Typed;
    assert Children(VALUE) == [TEXT] && Visited(VALUE) == [TEXT];
    assert Typed(VALUE) by {
      ShortText();
      TypedBelow(VALUE);
    }
    ShortText();
    OnlyChild(VALUE, TEXT);
  }

  lemma {:induction false} TypedBelow(n: Node)
    requires Shaped(n) && forall c | c in Children(n) :: Typed(c)
    ensures Typed(n)
  {
  }

  lemma {:induction false} ShortMessage()
    ensures Typed(MESSAGE) && Height(MESSAGE) == 3 && LeftAt(MESSAGE, None, 1) == Some("m")
  {
    hide Typed;
    hide Height;
    var name := NameOf("m");
    assert Typed(name) by {
      assert Children(name) == [];
      TypedBelow(name);
    }
    ShortValue();
    assert Children(MESSAGE) == [name, VALUE];
    TypedBelow(MESSAGE);
    assert Visited(MESSAGE) == [VALUE] + [] == [VALUE];
    OnlyChild(MESSAGE, VALUE);
    hide Visited;
    LeftAtTree(MESSAGE, None, 1);
    hide LeftAtOf;
    LeftAtInner(VALUE, Some("m"), 0);
  }

  lemma {:induction false} ShortResource()
    ensures Typed(SHORT) && Height(SHORT) == 4 && LeftAt(SHORT, None, 2) == Some("m")
  {
    hide Typed;
    hide Height;
    ShortMessage();
    assert Children(SHORT) == [MESSAGE] && Visited(SHORT) == [MESSAGE];
    TypedBelow(SHORT);
    OnlyChild(SHORT, MESSAGE);
    hide Visited;
    LeftAtTree(SHORT, None, 2);
  }

  /** Linting even `m = x` under a limit of two levels fails and leaves the location at the message. */
  method LocationAfterDepthError() returns (ok: bool, location: Option<string>)
    ensures !ok && location == Some("m")
  {
    ShortResource();
    var linter := new FTLLinterVisitor(2);
    ok := linter.VisitRoot(SHORT);
    location := linter.currentLocation;
  }

  // ---------------------------------------------------------------------------
  // A reference to a message that is not there
  // ---------------------------------------------------------------------------

  /** `m = { missing }` */
  const REFERENCE := MessageReference(NameOf("missing"), None, None)
  const PLACEABLE := Placeable(REFERENCE, None)
  const PATTERN := Pattern([PLACEABLE], None)
  const REFERRING := Message(NameOf("m"), Some(PATTERN), [], None, None)
  const DANGLING := Resource([REFERRING])

  const NOTHING := Defined({}, {})
  const ONLY_M := Defined({"m"}, {})

  /** A node with one visited child: how deep it is, and what it reports. */
  lemma {:induction false} WithOnlyChild(n: Node, c: Node, location: Option<string>, defined: Defined)
    requires Typed(n) && Visited(n) == [c]
    ensures c < n && Typed(c) && Under([c], n) && Height(n) == 1 + Height(c)
    ensures Issues(n, location, defined) ==
            Own(n, Inside(n, location), defined) + Issues(c, Inside(n, location), defined)
    ensures IssuesOf([c], location, n, defined) == Issues(c, location, defined)
  {
    hide Visited;
    hide Typed;
    hide Height;
    hide Issues;
    hide IssuesOf;
    OnlyChild(n, c);
    VisitedUnder(n);
    IssuesOfTree(n, location, defined);
    TypedIsShaped(n);
    IssuesOfOne(n, c, Inside(n, location), defined);
    IssuesOfOne(n, c, location, defined);
  }

  lemma {:induction false} TypedIsShaped(n: Node)
    requires Typed(n)
    ensures Shaped(n)
  {
  }

  lemma {:induction false} IssuesOfOne(n: Node, c: Node, location: Option<string>, defined: Defined)
    requires Under([c], n) && Typed(c)
    ensures IssuesOf([c], location, n, defined) == Issues(c, location, defined)
  {
    hide Issues;
    assert [c][1..] == [] && [c][0] == c;
    IssuesOfList([c], location, n, defined);
    NoIssuesOfNone(location, n, defined);
  }

  lemma {:induction false} NameIsLeaf(name: string, location: Option<string>, defined: Defined)
    ensures Typed(NameOf(name)) && Height(NameOf(name)) == 1 && Issues(NameOf(name), location, defined) == []
  {
    hide Issues;
    var n := NameOf(name);
    assert Children(n) == [] && Visited(n) == [];
    TypedBelow(n);
    HeightOfTree(n);
    NoIssuesOfNone(location, n, defined);
    IssuesOfTree(n, location, defined);
  }

  lemma {:induction false} ReferenceIssues()
    ensures Typed(REFERENCE) && Height(REFERENCE) == 2
    ensures Issues(REFERENCE, Some("m"), ONLY_M) ==
            [LintIssue("error", "undefined-reference", "Reference to undefined message: missing", "m")]
  {
    hide Typed;
    hide Height;
    hide Issues;
    var name := NameOf("missing");
    NameIsLeaf("missing", Some("m"), ONLY_M);
    assert Children(REFERENCE) == [name] && Visited(REFERENCE) == [name];
    TypedBelow(REFERENCE);
    WithOnlyChild(REFERENCE, name, Some("m"), ONLY_M);
    OwnOfReference();
    var own := Own(REFERENCE, Some("m"), ONLY_M);
    assert own + [] == own;
  }

  lemma {:induction false} OwnOfReference()
    ensures Shaped(REFERENCE) && Inside(REFERENCE, Some("m")) == Some("m")
    ensures Own(REFERENCE, Some("m"), ONLY_M) ==
            [LintIssue("error", "undefined-reference", "Reference to undefined message: missing", "m")]
  {
    assert |"missing"| == 7 && |"m"| == 1;
    assert "Reference to undefined message: " + "missing" == "Reference to undefined message: missing";
  }

  lemma {:induction false} PatternIssues()
    ensures Typed(PATTERN) && Typed(REFERENCE) && Height(PATTERN) == 4
    ensures Issues(PATTERN, Some("m"), ONLY_M) == Issues(REFERENCE, Some("m"), ONLY_M)
  {
    hide Typed;
    hide Height;
    hide Issues;
    ReferenceIssues();
    assert Children(PLACEABLE) == [REFERENCE] && Visited(PLACEABLE) == [REFERENCE];
    TypedBelow(PLACEABLE);
    WithOnlyChild(PLACEABLE, REFERENCE, Some("m"), ONLY_M);
    assert Children(PATTERN) == [PLACEABLE] && Visited(PATTERN) == [PLACEABLE];
    TypedBelow(PATTERN);
    WithOnlyChild(PATTERN, PLACEABLE, Some("m"), ONLY_M);
  }

  lemma {:induction false} ReferringIssues()
    ensures Typed(REFERRING) && Typed(REFERENCE) && Height(REFERRING) == 5
    ensures Issues(REFERRING, None, ONLY_M) == Issues(REFERENCE, Some("m"), ONLY_M)
  {
    hide Typed;
    hide Height;
    hide Issues;
    NameIsLeaf("m", None, ONLY_M);
    PatternIssues();
    assert Children(REFERRING) == [NameOf("m"), PATTERN];
    TypedBelow(REFERRING);
    assert Visited(REFERRING) == [PATTERN] + [] == [PATTERN];
    WithOnlyChild(REFERRING, PATTERN, None, ONLY_M);
  }

  lemma {:induction false} DanglingIssues()
    ensures Typed(DANGLING) && Height(DANGLING) == 6
    ensures ResourceIssues(DANGLING, None, NOTHING) ==
            [LintIssue("error", "undefined-reference", "Reference to undefined message: missing", "m")]
  {
    hide Typed;
    hide Height;
    hide Issues;
    hide IssuesOf;
    ReferringIssues();
    ReferenceIssues();
    assert Children(DANGLING) == [REFERRING] && Visited(DANGLING) == [REFERRING];
    TypedBelow(DANGLING);
    WithOnlyChild(DANGLING, REFERRING, None, ONLY_M);
    CollectedFromOne();
  }

  lemma {:induction false} CollectedFromOne()
    ensures AllShaped(DANGLING.entries)
    ensures Collected(DANGLING.entries, NOTHING) == ONLY_M && Duplicates(DANGLING.entries, NOTHING) == []
  {
    var front := [REFERRING][..0];
    assert front == [];
    assert Collected(front, NOTHING) == NOTHING && Duplicates(front, NOTHING) == [];
    assert {} + {"m"} == {"m"};
  }

  /** Linting `m = { missing }` reports the reference, located at the message it is in. */
  method LintDanglingReference() returns (result: Option<seq<LintIssue>>)
    ensures result ==
            Some([LintIssue("error", "undefined-reference", "Reference to undefined message: missing", "m")])
  {
    DanglingIssues();
    result := LintResource(DANGLING);
  }
}
