/** What linting a tree reports: the issues of its sites, in the order they are visited. */
module LintSpec {
  import opened Wrappers
  import opened Ast

  datatype LintIssue = LintIssue(severity: string, rule: string, message: string, location: string)

  /** The identifiers that a resource defines. */
  datatype Defined = Defined(messages: set<string>, terms: set<string>)

  const KNOWN_FUNCTIONS := {"NUMBER", "DATETIME", "CURRENCY"}

  predicate HasExplicitValue(value: Option<Node>) {
    value.Some? && value.value.Pattern? && value.value.elements != []
  }

  /** The location to report; a missing or empty one is unknown. */
  function Tag(location: Option<string>): string {
    if location.None? || location.value == "" then "unknown" else location.value
  }

  /** The location in force inside a node. */
  function Inside(n: Node, location: Option<string>): Option<string>
    requires Shaped(n)
  {
    match n
    case Message(id, _, _, _, _) => Some(id.name)
    case Term(id, _, _, _, _) => Some("-" + id.name)
    case Attribute(id, _, _) => Some(Tag(location) + "." + id.name)
    case _ => location
  }

  /** The children that linting goes on to. */
  function Visited(n: Node): (children: seq<Node>)
    ensures forall c | c in children :: c < n && c in Children(n)
  {
    match n
    case Message(_, value, attributes, _, _) => (if HasExplicitValue(value) then [value.value] else []) + attributes
    case Term(_, pattern, attributes, _, _) => (if HasExplicitValue(Some(pattern)) then [pattern] else []) + attributes
    case Attribute(_, pattern, _) => if HasExplicitValue(Some(pattern)) then [pattern] else []
    case _ => Children(n)
  }

  /** Typed nodes below a parent. */
  ghost predicate Under(nodes: seq<Node>, parent: Node) {
    forall i | 0 <= i < |nodes| :: nodes[i] < parent && Typed(nodes[i])
  }

  ghost predicate AllShaped(nodes: seq<Node>) { forall i | 0 <= i < |nodes| :: Shaped(nodes[i]) }

  lemma {:induction false} VisitedUnder(n: Node)
    requires Typed(n)
    ensures Under(Visited(n), n)
  {
    hide Visited;
    forall i | 0 <= i < |Visited(n)| ensures Visited(n)[i] < n && Typed(Visited(n)[i]) {
      assert Visited(n)[i] in Visited(n);
    }
  }

  // ---------------------------------------------------------------------------
  // Sites
  // ---------------------------------------------------------------------------

  /** The nodes visited below and including a node, each with the location in force there. */
  ghost function Sites(n: Node, location: Option<string>): seq<(Node, Option<string>)>
    requires Typed(n)
    decreases n, 1, 0
  {
    var inside := Inside(n, location);
    VisitedUnder(n);
    [(n, inside)] + SitesOf(Visited(n), inside, n)
  }

  ghost function SitesOf(nodes: seq<Node>, location: Option<string>, parent: Node): seq<(Node, Option<string>)>
    requires Under(nodes, parent)
    decreases parent, 0, |nodes|
  {
    if nodes == [] then [] else Sites(nodes[0], location) + SitesOf(nodes[1..], location, parent)
  }

  /** How deep linting nests. */
  ghost function Height(n: Node): nat
    requires Typed(n)
    decreases n, 1, 0
  {
    VisitedUnder(n);
    1 + HeightOf(Visited(n), n)
  }

  ghost function HeightOf(nodes: seq<Node>, parent: Node): nat
    requires Under(nodes, parent)
    decreases parent, 0, |nodes|
  {
    if nodes == [] then 0
    else
      var first, rest := Height(nodes[0]), HeightOf(nodes[1..], parent);
      if first > rest then first else rest
  }

  /** Where the location is left when linting is cut short by the depth limit, `room` levels further down. */
  ghost function LeftAt(n: Node, location: Option<string>, room: int): Option<string>
    requires Typed(n)
    decreases n, 1, 0
  {
    VisitedUnder(n);
    if room <= 0 then location else LeftAtOf(Visited(n), Inside(n, location), room - 1, n)
  }

  /** The first of the nodes that does not fit cuts the walk. */
  ghost function LeftAtOf(nodes: seq<Node>, location: Option<string>, room: int, parent: Node): Option<string>
    requires Under(nodes, parent)
    decreases parent, 0, |nodes|
  {
    if nodes == [] then location
    else if Height(nodes[0]) > room then LeftAt(nodes[0], location, room)
    else LeftAtOf(nodes[1..], location, room, parent)
  }

  // ---------------------------------------------------------------------------
  // Issues
  // ---------------------------------------------------------------------------

  function NoValue(name: string): LintIssue {
    LintIssue("warning", "no-value", "Message '" + name + "' has no value", name)
  }

  function UnknownFunction(name: string, location: string): LintIssue {
    LintIssue("warning", "unknown-function", "Unknown function: " + name, location)
  }

  function UndefinedReference(name: string, location: string): LintIssue {
    LintIssue("error", "undefined-reference", "Reference to undefined message: " + name, location)
  }

  function UndefinedTerm(name: string, location: string): LintIssue {
    LintIssue("error", "undefined-term", "Reference to undefined term: -" + name, location)
  }

  function DuplicateId(name: string): LintIssue {
    LintIssue("error", "duplicate-id", "Duplicate message ID: " + name, name)
  }

  /** The issue of one node, if it has one. */
  function Own(n: Node, location: Option<string>, defined: Defined): seq<LintIssue>
    requires Shaped(n)
  {
    match n
    case Message(id, value, _, _, _) => if HasExplicitValue(value) then [] else [NoValue(id.name)]
    case FunctionReference(id, _, _) =>
      if id.name in KNOWN_FUNCTIONS then [] else [UnknownFunction(id.name, Tag(location))]
    case MessageReference(id, _, _) =>
      if id.name in defined.messages then [] else [UndefinedReference(id.name, Tag(location))]
    case TermReference(id, _, _, _) =>
      if id.name in defined.terms then [] else [UndefinedTerm(id.name, Tag(location))]
    case _ => []
  }

  ghost predicate Lintable(sites: seq<(Node, Option<string>)>) { forall s | s in sites :: Shaped(s.0) }

  ghost function IssuesAt(sites: seq<(Node, Option<string>)>, defined: Defined): seq<LintIssue>
    requires Lintable(sites)
  {
    if sites == [] then [] else Own(sites[0].0, sites[0].1, defined) + IssuesAt(sites[1..], defined)
  }

  lemma {:induction false} SitesLintable(n: Node, location: Option<string>)
    requires Typed(n)
    ensures Lintable(Sites(n, location))
    decreases n, 1, 0
  {
    VisitedUnder(n);
    SitesOfLintable(Visited(n), Inside(n, location), n);
  }

  lemma {:induction false} SitesOfLintable(nodes: seq<Node>, location: Option<string>, parent: Node)
    requires Under(nodes, parent)
    ensures Lintable(SitesOf(nodes, location, parent))
    decreases parent, 0, |nodes|
  {
    if nodes != [] {
      SitesLintable(nodes[0], location);
      SitesOfLintable(nodes[1..], location, parent);
    }
  }

  lemma {:induction false} IssuesDistribute(a: seq<(Node, Option<string>)>, b: seq<(Node, Option<string>)>, defined: Defined)
    requires Lintable(a) && Lintable(b)
    ensures Lintable(a + b) && IssuesAt(a + b, defined) == IssuesAt(a, defined) + IssuesAt(b, defined)
  {
    hide Own;
    hide Shaped;
    if a == [] {
      assert a + b == b;
    } else {
      IssuesDistribute(a[1..], b, defined);
      assert (a + b)[1..] == a[1..] + b;
    }
  }

  /** The issues of a tree. */
  ghost function Issues(n: Node, location: Option<string>, defined: Defined): seq<LintIssue>
    requires Typed(n)
  {
    SitesLintable(n, location);
    IssuesAt(Sites(n, location), defined)
  }

  ghost function IssuesOf(nodes: seq<Node>, location: Option<string>, parent: Node, defined: Defined): seq<LintIssue>
    requires Under(nodes, parent)
  {
    SitesOfLintable(nodes, location, parent);
    IssuesAt(SitesOf(nodes, location, parent), defined)
  }

  lemma {:induction false} IssuesOfTree(n: Node, location: Option<string>, defined: Defined)
    requires Typed(n)
    ensures Under(Visited(n), n)
    ensures Issues(n, location, defined) ==
            Own(n, Inside(n, location), defined) + IssuesOf(Visited(n), Inside(n, location), n, defined)
  {
    SitesLintable(n, location);
    VisitedUnder(n);
    SitesOfLintable(Visited(n), Inside(n, location), n);
    var sites := Sites(n, location);
    assert sites[1..] == SitesOf(Visited(n), Inside(n, location), n);
  }

  lemma {:induction false} IssuesOfList(nodes: seq<Node>, location: Option<string>, parent: Node, defined: Defined)
    requires nodes != [] && Under(nodes, parent)
    ensures IssuesOf(nodes, location, parent, defined) ==
            Issues(nodes[0], location, defined) + IssuesOf(nodes[1..], location, parent, defined)
  {
    SitesLintable(nodes[0], location);
    SitesOfLintable(nodes[1..], location, parent);
    IssuesDistribute(Sites(nodes[0], location), SitesOf(nodes[1..], location, parent), defined);
  }

  // ---------------------------------------------------------------------------
  // Definitions
  // ---------------------------------------------------------------------------

  /** The identifiers added by the first pass. */
  ghost function Collected(entries: seq<Node>, before: Defined): Defined
    requires AllShaped(entries)
  {
    if entries == [] then before
    else
      var d, e := Collected(entries[..|entries| - 1], before), entries[|entries| - 1];
      if e.Message? then d.(messages := d.messages + {e.id.name})
      else if e.Term? then d.(terms := d.terms + {e.id.name})
      else d
  }

  /** One issue for each message whose identifier came before. */
  ghost function Duplicates(entries: seq<Node>, before: Defined): seq<LintIssue>
    requires AllShaped(entries)
  {
    if entries == [] then []
    else
      var front, e := entries[..|entries| - 1], entries[|entries| - 1];
      Duplicates(front, before) +
      if e.Message? && e.id.name in Collected(front, before).messages then [DuplicateId(e.id.name)] else []
  }

  /** The issues of a resource: duplicates first, then those of its entries against all its definitions. */
  ghost function ResourceIssues(resource: Node, location: Option<string>, before: Defined): seq<LintIssue>
    requires Typed(resource) && resource.Resource?
  {
    assert Under(resource.entries, resource) by {
      VisitedUnder(resource);
    }
    Duplicates(resource.entries, before) +
    IssuesOf(resource.entries, location, resource, Collected(resource.entries, before))
  }
}
