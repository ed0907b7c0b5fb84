/** What the issue list says about a resource. */
module LintTheorems {
  import opened Wrappers
  import opened Ast
  import opened LintSpec
  import opened LintTrees

  // ---------------------------------------------------------------------------
  // Exactly one issue for each offending occurrence
  // ---------------------------------------------------------------------------

  /** What an issue can be about: a use of a name, or a message without a value. */
  datatype Kind = UseOfMessage | UseOfTerm | UseOfFunction | ValuelessMessage

  ghost function Allowed(kind: Kind, defined: Defined): set<string> {
    match kind
    case UseOfMessage => defined.messages
    case UseOfTerm => defined.terms
    case UseOfFunction => {"NUMBER", "DATETIME", "CURRENCY"}
    case ValuelessMessage => {}
  }

  ghost function IssueOf(kind: Kind, name: string, location: string): LintIssue {
    match kind
    case UseOfMessage =>
      LintIssue("error", "undefined-reference", "Reference to undefined message: " + name, location)
    case UseOfTerm => LintIssue("error", "undefined-term", "Reference to undefined term: -" + name, location)
    case UseOfFunction => LintIssue("warning", "unknown-function", "Unknown function: " + name, location)
    case ValuelessMessage => LintIssue("warning", "no-value", "Message '" + name + "' has no value", name)
  }

  ghost predicate OccursAt(site: (Node, Option<string>), kind: Kind, name: string, location: string)
    requires Shaped(site.0)
  {
    match kind
    case UseOfMessage => site.0.MessageReference? && site.0.id.name == name && Tag(site.1) == location
    case UseOfTerm => site.0.TermReference? && site.0.id.name == name && Tag(site.1) == location
    case UseOfFunction => site.0.FunctionReference? && site.0.id.name == name && Tag(site.1) == location
    case ValuelessMessage => site.0.Message? && site.0.id.name == name && !HasExplicitValue(site.0.value)
  }

  ghost function Occurrences(sites: seq<(Node, Option<string>)>, kind: Kind, name: string, location: string): nat
    requires Lintable(sites)
  {
    if sites == [] then 0
    else (if OccursAt(sites[0], kind, name, location) then 1 else 0) + Occurrences(sites[1..], kind, name, location)
  }

  /** The same in terms of the tree alone: what a node is, which name it has, and in which definition or attribute it is. */
  ghost predicate OccursIn(site: PlacedSite, kind: Kind, name: string, location: string)
    requires Shaped(site.0)
  {
    match kind
    case UseOfMessage => site.0.MessageReference? && site.0.id.name == name && Written(site.1) == location
    case UseOfTerm => site.0.TermReference? && site.0.id.name == name && Written(site.1) == location
    case UseOfFunction => site.0.FunctionReference? && site.0.id.name == name && Written(site.1) == location
    case ValuelessMessage =>
      site.0.Message? && site.0.id.name == name && (site.0.value.None? || site.0.value.value.elements == [])
  }

  ghost predicate AllShapedAt(sites: seq<PlacedSite>) { forall s | s in sites :: Shaped(s.0) }

  ghost function OccurrencesIn(sites: seq<PlacedSite>, kind: Kind, name: string, location: string): nat
    requires AllShapedAt(sites)
  {
    if sites == [] then 0
    else (if OccursIn(sites[0], kind, name, location) then 1 else 0) + OccurrencesIn(sites[1..], kind, name, location)
  }

  lemma {:induction false} SameOccurrence(site: PlacedSite, kind: Kind, name: string, location: string)
    requires Shaped(site.0)
    ensures OccursIn(site, kind, name, location) <==> OccursAt((site.0, LocationOf(site.1)), kind, name, location)
  {
    hide Written;
    hide LocationOf;
    TagOfPlace(site.1);
  }

  lemma {:induction false} SameOccurrences(sites: seq<PlacedSite>, kind: Kind, name: string, location: string)
    requires Lintable(Located(sites))
    ensures AllShapedAt(sites)
    ensures OccurrencesIn(sites, kind, name, location) == Occurrences(Located(sites), kind, name, location)
  {
    hide Shaped;
    hide OccursIn;
    hide OccursAt;
    hide LocationOf;
    forall s | s in sites ensures Shaped(s.0) {
      var i :| 0 <= i < |sites| && sites[i] == s;
      assert Located(sites)[i] in Located(sites);
    }
    if sites != [] {
      assert Located(sites)[1..] == Located(sites[1..]);
      SameOccurrence(sites[0], kind, name, location);
      SameOccurrences(sites[1..], kind, name, location);
    }
  }

  lemma {:induction false} SameTail(prefix: string, a: string, b: string)
    requires prefix + a == prefix + b
    ensures a == b
  {
    assert a == (prefix + a)[|prefix|..] && b == (prefix + b)[|prefix|..];
  }

  lemma {:induction false} IssuesTellApart(j: Kind, a: string, there: string, k: Kind, b: string, here: string)
    ensures IssueOf(j, a, there) == IssueOf(k, b, here) ==>
              j == k && a == b && (j != ValuelessMessage ==> there == here)
    ensures IssueOf(j, a, there) != DuplicateId(b)
  {
    RulesDiffer(a, there, b, here);
    RulesDiffer(b, here, a, there);
    if IssueOf(j, a, there) == IssueOf(k, b, here) {
      match j
      case UseOfMessage => SameTail("Reference to undefined message: ", a, b);
      case UseOfTerm => SameTail("Reference to undefined term: -", a, b);
      case UseOfFunction => SameTail("Unknown function: ", a, b);
      case ValuelessMessage =>
    }
  }

  lemma {:induction false} RulesDiffer(a: string, there: string, b: string, here: string)
    ensures UndefinedReference(a, there) != UndefinedTerm(b, here)
    ensures NoValue(a) != UndefinedReference(b, here) && NoValue(a) != UndefinedTerm(b, here)
    ensures NoValue(a) != UnknownFunction(b, here)
    ensures UnknownFunction(a, there) != UndefinedReference(b, here)
    ensures UnknownFunction(a, there) != UndefinedTerm(b, here)
    ensures DuplicateId(a) != NoValue(b) && DuplicateId(a) != UnknownFunction(b, here)
    ensures DuplicateId(a) != UndefinedReference(b, here) && DuplicateId(a) != UndefinedTerm(b, here)
  {
    assert NoValue(a).rule[0] == 'n' && DuplicateId(a).rule[0] == 'd' && NoValue(b).rule[0] == 'n';
    assert UndefinedReference(b, here).rule[0] == 'u' && UndefinedTerm(b, here).rule[0] == 'u';
    assert UnknownFunction(a, there).rule[2] == 'k' && UnknownFunction(b, here).rule[0] == 'u';
    assert UndefinedReference(b, here).rule[2] == 'd' && UndefinedTerm(b, here).rule[2] == 'd';
    assert |UndefinedReference(a, there).rule| == 19 && |UndefinedTerm(b, here).rule| == 14;
  }

  /** The kind of issue that a node can have of its own. */
  ghost function OwnKind(n: Node): Kind
    requires n.Message? || n.MessageReference? || n.TermReference? || n.FunctionReference?
  {
    if n.Message? then ValuelessMessage
    else if n.MessageReference? then UseOfMessage
    else if n.TermReference? then UseOfTerm
    else UseOfFunction
  }

  lemma {:induction false} OwnIssueCount(site: (Node, Option<string>), defined: Defined, kind: Kind, name: string,
                                         location: string)
    requires Shaped(site.0)
    ensures multiset(Own(site.0, site.1, defined))[IssueOf(kind, name, location)] ==
            if OccursAt(site, kind, name, location) && name !in Allowed(kind, defined) then 1 else 0
  {
    var n := site.0;
    if n.Message? || n.MessageReference? || n.TermReference? || n.FunctionReference? {
      IssuesTellApart(OwnKind(n), n.id.name, Tag(site.1), kind, name, location);
    }
  }

  /** For every kind, name and location: one issue for each occurrence of a name that is not allowed, and no more. */
  lemma {:induction false} OneIssuePerOccurrence(sites: seq<(Node, Option<string>)>, defined: Defined, kind: Kind,
                                                 name: string, location: string)
    requires Lintable(sites)
    ensures multiset(IssuesAt(sites, defined))[IssueOf(kind, name, location)] ==
            if name in Allowed(kind, defined) then 0 else Occurrences(sites, kind, name, location)
  {
    hide Own;
    hide Shaped;
    hide IssueOf;
    hide OccursAt;
    hide Allowed;
    if sites != [] {
      OwnIssueCount(sites[0], defined, kind, name, location);
      OneIssuePerOccurrence(sites[1..], defined, kind, name, location);
    }
  }

  // ---------------------------------------------------------------------------
  // Definitions anywhere in the resource
  // ---------------------------------------------------------------------------

  /** Forward references are fine: what counts is being defined anywhere among the entries. */
  lemma {:induction false} CollectedEverywhere(entries: seq<Node>, before: Defined, name: string)
    requires AllShaped(entries)
    ensures name in Collected(entries, before).messages <==>
            name in before.messages ||
            exists i :: 0 <= i < |entries| && entries[i].Message? && entries[i].id.name == name
    ensures name in Collected(entries, before).terms <==>
            name in before.terms || exists i :: 0 <= i < |entries| && entries[i].Term? && entries[i].id.name == name
  {
    hide Shaped;
    if entries != [] {
      var front := entries[..|entries| - 1];
      CollectedEverywhere(front, before, name);
      assert forall i | 0 <= i < |front| :: front[i] == entries[i];
    }
  }

  ghost function DefinitionsOf(entries: seq<Node>, name: string): nat
    requires AllShaped(entries)
  {
    if entries == [] then 0
    else
      var front, e := entries[..|entries| - 1], entries[|entries| - 1];
      DefinitionsOf(front, name) + if e.Message? && e.id.name == name then 1 else 0
  }

  /** A message defined n times is reported as duplicate n - 1 times. */
  lemma {:induction false} DuplicatesCount(entries: seq<Node>, name: string)
    requires AllShaped(entries)
    ensures var d, n := Duplicates(entries, Defined({}, {})), DefinitionsOf(entries, name);
            && multiset(d)[LintIssue("error", "duplicate-id", "Duplicate message ID: " + name, name)] ==
               (if n == 0 then 0 else n - 1)
            && (n > 0 <==> name in Collected(entries, Defined({}, {})).messages)
  {
    if entries != [] {
      var front, e := entries[..|entries| - 1], entries[|entries| - 1];
      DuplicatesCount(front, name);
      if e.Message? && DuplicateId(e.id.name) == DuplicateId(name) {
        SameTail("Duplicate message ID: ", e.id.name, name);
      }
    }
  }

  lemma {:induction false} DuplicatesAreOtherIssues(entries: seq<Node>, before: Defined, kind: Kind, name: string,
                                                    location: string)
    requires AllShaped(entries)
    ensures multiset(Duplicates(entries, before))[IssueOf(kind, name, location)] == 0
  {
    hide DuplicateId;
    hide IssueOf;
    if entries != [] {
      var front, e := entries[..|entries| - 1], entries[|entries| - 1];
      DuplicatesAreOtherIssues(front, before, kind, name, location);
      if e.Message? {
        IssuesTellApart(kind, name, location, kind, e.id.name, location);
      }
    }
  }

  lemma {:induction false} OnlyRelevantOccur(sites: seq<Site>, kind: Kind, name: string, location: string)
    requires Lintable(sites)
    ensures Lintable(RelevantOf(sites))
    ensures Occurrences(sites, kind, name, location) == Occurrences(RelevantOf(sites), kind, name, location)
  {
    hide Shaped;
    if sites != [] {
      var s, rest := sites[0], RelevantOf(sites[1..]);
      OnlyRelevantOccur(sites[1..], kind, name, location);
      assert Relevant(s.0) ==> ([s] + rest)[1..] == rest;
      assert [] + rest == rest;
    }
  }

  /** The visited nodes hold as many occurrences as the whole tree. */
  lemma {:induction false} AllOccurrencesAreVisited(resource: Node, kind: Kind, name: string, location: string)
    requires Typed(resource) && resource.Resource?
    ensures Under(resource.entries, resource)
    ensures var visited, all := SitesOf(resource.entries, None, resource), TreeSites(resource, None);
            && Lintable(visited) && Lintable(all)
            && Occurrences(visited, kind, name, location) == Occurrences(all, kind, name, location)
  {
    hide Shaped;
    hide OccursAt;
    hide Occurrences;
    hide TreeSites;
    VisitedUnder(resource);
    SitesOfLintable(resource.entries, None, resource);
    TreeSitesLintable(resource, None);
    NothingRelevantIsMissed(resource, None);
    var all := Sites(resource, None);
    assert all[0].0 == resource && all[1..] == SitesOf(resource.entries, None, resource);
    assert [] + RelevantOf(all[1..]) == RelevantOf(all[1..]);
    OnlyRelevantOccur(SitesOf(resource.entries, None, resource), kind, name, location);
    OnlyRelevantOccur(TreeSites(resource, None), kind, name, location);
  }

  /** The occurrences in the tree are as many as those the linter can come across, by location. */
  lemma {:induction false} AllPlacesAreVisited(resource: Node, kind: Kind, name: string, location: string)
    requires Typed(resource) && resource.Resource?
    ensures Under(resource.entries, resource)
    ensures var visited, all := SitesOf(resource.entries, None, resource), PlacedSites(resource, Nowhere);
            && Lintable(visited) && AllShapedAt(all)
            && Occurrences(visited, kind, name, location) == OccurrencesIn(all, kind, name, location)
  {
    hide *;
    AllOccurrencesAreVisited(resource, kind, name, location);
    PlacesAreLocations(resource, Nowhere);
    NowhereIsNone();
    SameOccurrences(PlacedSites(resource, Nowhere), kind, name, location);
  }

  lemma {:induction false} NowhereIsNone()
    ensures LocationOf(Nowhere) == None
  {
  }

  /**
   The issue list of a resource holds, for every name and location, exactly one undefined-reference issue for each
   reference anywhere in the tree, at the message, term or attribute it is in, if the resource defines no such message
   anywhere, and none otherwise; and so for terms, for unknown functions, and for messages without a value.
   */
  lemma {:induction false} ExactlyOncePerOccurrence(resource: Node, kind: Kind, name: string, location: string)
    requires Typed(resource) && resource.Resource?
    ensures Under(resource.entries, resource)
    ensures var issues, all := ResourceIssues(resource, None, Defined({}, {})), PlacedSites(resource, Nowhere);
            && AllShapedAt(all)
            && multiset(issues)[IssueOf(kind, name, location)] ==
               if name in Allowed(kind, Collected(resource.entries, Defined({}, {}))) then 0
               else OccurrencesIn(all, kind, name, location)
  {
    hide Shaped;
    hide IssueOf;
    hide Allowed;
    hide OccursAt;
    hide OccursIn;
    hide Occurrences;
    hide OccurrencesIn;
    hide PlacedSites;
    AllPlacesAreVisited(resource, kind, name, location);
    DuplicatesAreOtherIssues(resource.entries, Defined({}, {}), kind, name, location);
    OneIssuePerOccurrence(SitesOf(resource.entries, None, resource), Collected(resource.entries, Defined({}, {})),
                          kind, name, location);
  }

  // ---------------------------------------------------------------------------
  // Locations
  // ---------------------------------------------------------------------------

  /** Nothing inside a pattern changes the location. */
  lemma {:induction false} InnerSitesShareLocation(n: Node, location: Option<string>)
    requires Typed(n) && IsInner(n)
    ensures forall s | s in Sites(n, location) :: s.1 == location
    decreases n, 1, 0
  {
    VisitedUnder(n);
    InnerHasInnerChildren(n);
    assert forall i | 0 <= i < |Visited(n)| :: Visited(n)[i] in Children(n);
    InnerSitesOfShareLocation(Visited(n), location, n);
  }

  lemma {:induction false} InnerSitesOfShareLocation(nodes: seq<Node>, location: Option<string>, parent: Node)
    requires Under(nodes, parent) && forall i | 0 <= i < |nodes| :: IsInner(nodes[i])
    ensures forall s | s in SitesOf(nodes, location, parent) :: s.1 == location
    decreases parent, 0, |nodes|
  {
    if nodes != [] {
      InnerSitesShareLocation(nodes[0], location);
      InnerSitesOfShareLocation(nodes[1..], location, parent);
    }
  }

  /** Everything in an attribute is located at the attribute of the definition it belongs to. */
  lemma {:induction false} AttributeSites(a: Node, location: Option<string>)
    requires Typed(a) && a.Attribute?
    ensures forall s | s in Sites(a, location) :: s.1 == Some(Tag(location) + "." + a.id.name)
  {
    VisitedUnder(a);
    InnerSitesOfShareLocation(Visited(a), Inside(a, location), a);
  }

  lemma {:induction false} RelevantIsAmong(sites: seq<Site>)
    ensures forall s | s in RelevantOf(sites) :: s in sites
  {
    if sites != [] {
      RelevantIsAmong(sites[1..]);
    }
  }

  /**
   Everything visited in a definition, and every reference in it, is located at the definition or at one of its
   attributes.
   */
  lemma {:induction false} DefinitionSites(n: Node, location: Option<string>, attributes: seq<Node>)
    requires Typed(n) && ((n.Message? && n.attributes == attributes) || (n.Term? && n.attributes == attributes))
    ensures forall i | 0 <= i < |attributes| :: attributes[i].Attribute? && attributes[i].id.Identifier?
    ensures var here := if n.Message? then n.id.name else "-" + n.id.name;
            forall s | s in Sites(n, location) || s in RelevantOf(TreeSites(n, location)) ::
              s.1 == Some(here) ||
              exists i :: 0 <= i < |attributes| && s.1 == Some(Tag(Some(here)) + "." + attributes[i].id.name)
  {
    var here := Inside(n, location);
    VisitedUnder(n);
    forall i | 0 <= i < |attributes| ensures attributes[i].Attribute? && attributes[i].id.Identifier? {
      assert attributes[i] in attributes && attributes[i] in Children(n);
      assert Shaped(attributes[i]);
    }
    forall i | 0 <= i < |Visited(n)|
      ensures forall s | s in Sites(Visited(n)[i], here) ::
                s.1 == here || exists k :: 0 <= k < |attributes| && s.1 == Some(Tag(here) + "." + attributes[k].id.name)
    {
      var c := Visited(n)[i];
      if c.Attribute? {
        AttributeSites(c, here);
        assert c in attributes;
      } else {
        InnerSitesShareLocation(c, here);
      }
    }
    SitesOfEach(Visited(n), here, n);
    NothingRelevantIsMissed(n, location);
    RelevantIsAmong(Sites(n, location));
  }

  lemma {:induction false} SitesOfEach(nodes: seq<Node>, location: Option<string>, parent: Node)
    requires Under(nodes, parent)
    ensures forall s | s in SitesOf(nodes, location, parent) ::
              exists i :: 0 <= i < |nodes| && s in Sites(nodes[i], location)
  {
    if nodes != [] {
      SitesOfEach(nodes[1..], location, parent);
      assert forall i | 0 <= i < |nodes[1..]| :: nodes[1..][i] == nodes[i + 1];
    }
  }

  // ---------------------------------------------------------------------------
  // Where issues are located
  // ---------------------------------------------------------------------------

  lemma {:induction false} IssueHasSite(sites: seq<Site>, defined: Defined, issue: LintIssue)
    requires Lintable(sites) && issue in IssuesAt(sites, defined)
    ensures exists s :: s in sites && issue in Own(s.0, s.1, defined)
  {
    hide Own;
    hide Shaped;
    if issue !in Own(sites[0].0, sites[0].1, defined) {
      IssueHasSite(sites[1..], defined, issue);
      var s :| s in sites[1..] && issue in Own(s.0, s.1, defined);
      assert s in sites;
    } else {
      assert sites[0] in sites;
    }
  }

  lemma {:induction false} OwnLocation(n: Node, location: Option<string>, defined: Defined, issue: LintIssue)
    requires Shaped(n) && issue in Own(n, location, defined)
    ensures issue.location == Tag(location) || (n.Message? && issue == NoValue(n.id.name))
  {
  }

  lemma {:induction false} OnlyOneMessage(n: Node, location: Option<string>, s: Site)
    requires Typed(n) && (n.Message? || n.Term?) && s in Sites(n, location) && s.0.Message?
    ensures s.0 == n
  {
    if s.0 != n {
      VisitedUnder(n);
      VisitedAreNoMessages(n);
      NoMessagesIn(Visited(n), Inside(n, location), n, s);
    }
  }

  lemma {:induction false} ChildrenAreNoMessages(n: Node)
    requires Shaped(n) && !n.Resource?
    ensures forall c | c in Children(n) :: !c.Message? && !c.Term? && !c.Resource?
  {
  }

  lemma {:induction false} VisitedAreNoMessages(n: Node)
    requires Typed(n) && !n.Resource?
    ensures forall i | 0 <= i < |Visited(n)| :: !Visited(n)[i].Message? && !Visited(n)[i].Term? && !Visited(n)[i].Resource?
  {
    hide Visited;
    hide Children;
    hide Shaped;
    ChildrenAreNoMessages(n);
    assert forall i | 0 <= i < |Visited(n)| :: Visited(n)[i] in Visited(n);
  }

  lemma {:induction false} NoMessagesBelow(n: Node, location: Option<string>, s: Site)
    requires Typed(n) && !n.Message? && !n.Term? && !n.Resource? && s in Sites(n, location)
    ensures !s.0.Message?
    decreases n, 1, 0
  {
    VisitedUnder(n);
    VisitedAreNoMessages(n);
    if s != (n, Inside(n, location)) {
      NoMessagesIn(Visited(n), Inside(n, location), n, s);
    }
  }

  lemma {:induction false} NoMessagesIn(nodes: seq<Node>, location: Option<string>, parent: Node, s: Site)
    requires Under(nodes, parent) && s in SitesOf(nodes, location, parent)
    requires forall i | 0 <= i < |nodes| :: !nodes[i].Message? && !nodes[i].Term? && !nodes[i].Resource?
    ensures !s.0.Message?
    decreases parent, 0, |nodes|
  {
    if s in Sites(nodes[0], location) {
      NoMessagesBelow(nodes[0], location, s);
    } else {
      NoMessagesIn(nodes[1..], location, parent, s);
    }
  }

  /**
   Every issue of a message or term, but for its missing value, is located at its name, with a dash for a term, or at that
   name and one of its attributes'.
   */
  lemma {:induction false} IssuesOfDefinition(n: Node, location: Option<string>, defined: Defined, issue: LintIssue,
                                              attributes: seq<Node>)
    requires Typed(n) && ((n.Message? && n.attributes == attributes) || (n.Term? && n.attributes == attributes))
    requires issue in Issues(n, location, defined)
    ensures forall i | 0 <= i < |attributes| :: attributes[i].Attribute? && attributes[i].id.Identifier?
    ensures var here := if n.Term? then "-" + n.id.name else if n.id.name == "" then "unknown" else n.id.name;
            || (n.Message? && issue == NoValue(n.id.name))
            || issue.location == here
            || exists i :: 0 <= i < |attributes| && issue.location == here + "." + attributes[i].id.name
  {
    hide Own;
    hide Sites;
    SitesLintable(n, location);
    IssueHasSite(Sites(n, location), defined, issue);
    var s :| s in Sites(n, location) && issue in Own(s.0, s.1, defined);
    OwnLocation(s.0, s.1, defined, issue);
    DefinitionSites(n, location, attributes);
    if s.0.Message? {
      OnlyOneMessage(n, location, s);
    }
    var name := if n.Message? then n.id.name else "-" + n.id.name;
    TagOfLocation(name);
    forall i | 0 <= i < |attributes| && s.1 == Some(Tag(Some(name)) + "." + attributes[i].id.name)
      ensures Tag(s.1) == Tag(Some(name)) + "." + attributes[i].id.name
    {
      TagOfLocation(s.1.value);
      assert |Tag(Some(name)) + "." + attributes[i].id.name| > 0;
    }
  }
}
