/** All nodes of a tree, whether the linter visits them or not, and what the linter misses of them. */
module LintTrees {
  import opened Wrappers
  import opened Ast
  import opened LintSpec

  type Site = (Node, Option<string>)

  lemma {:induction false} ChildrenUnder(n: Node)
    requires Typed(n)
    ensures Under(Children(n), n)
  {
    hide Children;
    forall i | 0 <= i < |Children(n)| ensures Children(n)[i] < n && Typed(Children(n)[i]) {
      assert Children(n)[i] in Children(n);
    }
  }

  /** The nodes below and including a node, through every field, each with the definition or attribute it is in. */
  ghost function TreeSites(n: Node, location: Option<string>): seq<Site>
    requires Typed(n)
    decreases n, 1, 0
  {
    var inside := Inside(n, location);
    ChildrenUnder(n);
    [(n, inside)] + TreeSitesOf(Children(n), inside, n)
  }

  ghost function TreeSitesOf(nodes: seq<Node>, location: Option<string>, parent: Node): seq<Site>
    requires Under(nodes, parent)
    decreases parent, 0, |nodes|
  {
    if nodes == [] then [] else TreeSites(nodes[0], location) + TreeSitesOf(nodes[1..], location, parent)
  }

  lemma {:induction false} TreeSitesLintable(n: Node, location: Option<string>)
    requires Typed(n)
    ensures Lintable(TreeSites(n, location))
    decreases n, 1, 0
  {
    ChildrenUnder(n);
    TreeSitesOfLintable(Children(n), Inside(n, location), n);
  }

  lemma {:induction false} TreeSitesOfLintable(nodes: seq<Node>, location: Option<string>, parent: Node)
    requires Under(nodes, parent)
    ensures Lintable(TreeSitesOf(nodes, location, parent))
    decreases parent, 0, |nodes|
  {
    if nodes != [] {
      TreeSitesLintable(nodes[0], location);
      TreeSitesOfLintable(nodes[1..], location, parent);
    }
  }

  /** The nodes that an issue can be about. */
  predicate Relevant(n: Node) { n.Message? || n.MessageReference? || n.TermReference? || n.FunctionReference? }

  ghost function RelevantOf(sites: seq<Site>): seq<Site> {
    if sites == [] then []
    else (if Relevant(sites[0].0) then [sites[0]] else []) + RelevantOf(sites[1..])
  }

  lemma {:induction false} RelevantStep(s: Site, rest: seq<Site>)
    ensures RelevantOf([s] + rest) == (if Relevant(s.0) then [s] else []) + RelevantOf(rest)
  {
    assert ([s] + rest)[0] == s && ([s] + rest)[1..] == rest;
  }

  lemma {:induction false} RelevantDistributes(a: seq<Site>, b: seq<Site>)
    ensures RelevantOf(a + b) == RelevantOf(a) + RelevantOf(b)
  {
    if a == [] {
      assert a + b == b;
    } else {
      var rest := a[1..];
      RelevantDistributes(rest, b);
      RelevantStep(a[0], rest);
      RelevantStep(a[0], rest + b);
      hide *;
      assert [a[0]] + rest == a && [a[0]] + (rest + b) == a + b;
    }
  }

  /** What is relevant among the nodes of a list. */
  ghost function RelevantIn(nodes: seq<Node>, location: Option<string>, parent: Node): seq<Site>
    requires Under(nodes, parent)
  {
    RelevantOf(TreeSitesOf(nodes, location, parent))
  }

  lemma {:induction false} RelevantInList(a: seq<Node>, b: seq<Node>, location: Option<string>, parent: Node)
    requires Under(a, parent) && Under(b, parent)
    ensures Under(a + b, parent)
    ensures RelevantIn(a + b, location, parent) == RelevantIn(a, location, parent) + RelevantIn(b, location, parent)
    decreases |a|
  {
    hide RelevantIn;
    if a == [] {
      assert a + b == b;
      RelevantInNone(location, parent);
    } else {
      var rest := a[1..];
      RelevantInList(rest, b, location, parent);
      assert a + b == [a[0]] + (rest + b);
      RelevantInFirst(a[0], rest, location, parent);
      RelevantInFirst(a[0], rest + b, location, parent);
      assert a == [a[0]] + rest;
    }
  }

  lemma {:induction false} RelevantInNone(location: Option<string>, parent: Node)
    ensures RelevantIn([], location, parent) == []
  {
  }

  lemma {:induction false} RelevantInFirst(first: Node, rest: seq<Node>, location: Option<string>, parent: Node)
    requires Typed(first) && first < parent && Under(rest, parent)
    ensures Under([first] + rest, parent)
    ensures RelevantIn([first] + rest, location, parent) ==
            RelevantOf(TreeSites(first, location)) + RelevantIn(rest, location, parent)
  {
    hide Typed;
    hide TreeSites;
    hide RelevantOf;
    RelevantDistributes(TreeSites(first, location), TreeSitesOf(rest, location, parent));
    var all := [first] + rest;
    assert all[0] == first && all[1..] == rest;
  }

  // ---------------------------------------------------------------------------
  // What the linter leaves out
  // ---------------------------------------------------------------------------

  /** Nodes without anything but spans below them. */
  predicate Bare(n: Node) { n.Identifier? || n.Comment? || n.Span? || (n.Pattern? && n.elements == []) }

  lemma {:induction false} NothingInBare(n: Node, location: Option<string>)
    requires Typed(n) && Bare(n)
    ensures RelevantOf(TreeSites(n, location)) == []
    decreases n, 1, 0
  {
    ChildrenUnder(n);
    var inside := Inside(n, location);
    NothingInBareList(Children(n), inside, n);
    assert TreeSites(n, location)[1..] == TreeSitesOf(Children(n), inside, n);
  }

  lemma {:induction false} NothingInBareList(nodes: seq<Node>, location: Option<string>, parent: Node)
    requires Under(nodes, parent) && forall i | 0 <= i < |nodes| :: Bare(nodes[i])
    ensures RelevantIn(nodes, location, parent) == []
    decreases parent, 0, |nodes|
  {
    if nodes != [] {
      NothingInBare(nodes[0], location);
      NothingInBareList(nodes[1..], location, parent);
      RelevantDistributes(TreeSites(nodes[0], location), TreeSitesOf(nodes[1..], location, parent));
    }
  }

  /** Bare nodes before and after a part of a list add nothing to it. */
  lemma {:induction false} OnlyTheMiddle(all: seq<Node>, front: seq<Node>, middle: seq<Node>, back: seq<Node>,
                                         location: Option<string>, parent: Node)
    requires Under(all, parent) && all == front + middle + back
    requires (forall i | 0 <= i < |front| :: Bare(front[i])) && (forall i | 0 <= i < |back| :: Bare(back[i]))
    ensures Under(middle, parent) && RelevantIn(all, location, parent) == RelevantIn(middle, location, parent)
  {
    hide Typed;
    hide RelevantIn;
    hide Bare;
    assert Under(front, parent) && Under(middle, parent) && Under(back, parent) by {
      assert forall i | 0 <= i < |front| :: all[i] == front[i];
      assert forall i | 0 <= i < |middle| :: all[|front| + i] == middle[i];
      assert forall i | 0 <= i < |back| :: all[|front| + |middle| + i] == back[i];
    }
    RelevantInList(front, middle, location, parent);
    RelevantInList(front + middle, back, location, parent);
    NothingInBareList(front, location, parent);
    NothingInBareList(back, location, parent);
  }

  predicate AllBare(nodes: seq<Node>) { forall i | 0 <= i < |nodes| :: Bare(nodes[i]) }

  /** The parts of a definition or attribute that `Visited` drops, before and after what it keeps. */
  function Front(id: Node, value: Option<Node>): seq<Node> {
    [id] + if HasExplicitValue(value) then [] else Optional(value)
  }

  function Kept(value: Option<Node>): seq<Node> { if HasExplicitValue(value) then [value.value] else [] }

  lemma {:induction false} FrontIsBare(id: Node, value: Option<Node>)
    requires id.Identifier? && (value.Some? ==> value.value.Pattern?)
    ensures AllBare(Front(id, value))
    ensures [id] + Optional(value) == Front(id, value) + Kept(value)
  {
  }

  lemma {:induction false} BackIsBare(comment: Option<Node>, span: Option<Node>)
    requires (comment.Some? ==> comment.value.Comment?) && (span.Some? ==> span.value.Span?)
    ensures AllBare(Optional(comment) + Optional(span)) && AllBare(Optional(span))
  {
  }

  lemma {:induction false} MessageParts(n: Node)
    requires n.Message?
    ensures Children(n) == [n.id] + Optional(n.value) + n.attributes + Optional(n.comment) + Optional(n.span)
    ensures Visited(n) == Kept(n.value) + n.attributes
  {
    hide HasExplicitValue;
    hide Optional;
  }

  lemma {:induction false} TermParts(n: Node)
    requires n.Term?
    ensures Children(n) == [n.id] + Optional(Some(n.pattern)) + n.attributes + Optional(n.comment) + Optional(n.span)
    ensures Visited(n) == Kept(Some(n.pattern)) + n.attributes
  {
    hide HasExplicitValue;
    assert [n.id, n.pattern] == [n.id] + Optional(Some(n.pattern));
  }

  lemma {:induction false} AttributeParts(n: Node)
    requires n.Attribute?
    ensures Children(n) == [n.id] + Optional(Some(n.pattern)) + [] + Optional(None) + Optional(n.span)
    ensures Visited(n) == Kept(Some(n.pattern)) + []
  {
    hide HasExplicitValue;
    assert [n.id, n.pattern] == [n.id] + Optional(Some(n.pattern));
  }

  /** What `Visited` drops of the children is bare. */
  lemma {:induction false} VisitedIsTheRest(n: Node) returns (front: seq<Node>, back: seq<Node>)
    requires Shaped(n) && (n.Message? || n.Term? || n.Attribute?)
    ensures Children(n) == front + Visited(n) + back && AllBare(front) && AllBare(back)
  {
    var (value, attributes, comment) :=
      if n.Message? then (n.value, n.attributes, n.comment)
      else if n.Term? then (Some(n.pattern), n.attributes, n.comment)
      else (Some(n.pattern), [], None);
    FrontIsBare(n.id, value);
    BackIsBare(comment, n.span);
    if n.Message? {
      MessageParts(n);
    } else if n.Term? {
      TermParts(n);
    } else {
      AttributeParts(n);
    }
    front, back := Front(n.id, value), Optional(comment) + Optional(n.span);
    hide *;
    Regroup([n.id] + Optional(value), front, Kept(value), attributes, Optional(comment), Optional(n.span));
  }

  lemma {:induction false} Regroup(all: seq<Node>, front: seq<Node>, kept: seq<Node>, more: seq<Node>, c: seq<Node>,
                                   d: seq<Node>)
    requires all == front + kept
    ensures all + more + c + d == front + (kept + more) + (c + d)
  {
  }

  /** Nothing relevant is missed, or seen twice, or located elsewhere: linting visits all that matters, in order. */
  lemma {:induction false} NothingRelevantIsMissed(n: Node, location: Option<string>)
    requires Typed(n)
    ensures RelevantOf(TreeSites(n, location)) == RelevantOf(Sites(n, location))
    decreases n, 1, 0
  {
    hide Children;
    hide Visited;
    hide Inside;
    var inside := Inside(n, location);
    ChildrenUnder(n);
    VisitedUnder(n);
    NothingRelevantIsMissedIn(Visited(n), inside, n);
    VisitedIsEnough(n, inside);
    RelevantDistributes([(n, inside)], TreeSitesOf(Children(n), inside, n));
    RelevantDistributes([(n, inside)], SitesOf(Visited(n), inside, n));
  }

  lemma {:induction false} VisitedIsEnough(n: Node, location: Option<string>)
    requires Typed(n)
    ensures Under(Children(n), n) && Under(Visited(n), n)
    ensures RelevantIn(Children(n), location, n) == RelevantIn(Visited(n), location, n)
  {
    ChildrenUnder(n);
    VisitedUnder(n);
    if n.Message? || n.Term? || n.Attribute? {
      hide Visited;
      hide Children;
      hide Bare;
      var front, back := VisitedIsTheRest(n);
      OnlyTheMiddle(Children(n), front, Visited(n), back, location, n);
    }
  }

  lemma {:induction false} NothingRelevantIsMissedIn(nodes: seq<Node>, location: Option<string>, parent: Node)
    requires Under(nodes, parent)
    ensures RelevantIn(nodes, location, parent) == RelevantOf(SitesOf(nodes, location, parent))
    decreases parent, 0, |nodes|
  {
    hide Typed;
    hide TreeSites;
    hide Sites;
    if nodes != [] {
      NothingRelevantIsMissed(nodes[0], location);
      NothingRelevantIsMissedIn(nodes[1..], location, parent);
      RelevantDistributes(TreeSites(nodes[0], location), TreeSitesOf(nodes[1..], location, parent));
      RelevantDistributes(Sites(nodes[0], location), SitesOf(nodes[1..], location, parent));
    }
  }

  // ---------------------------------------------------------------------------
  // Places
  // ---------------------------------------------------------------------------

  /** Where in a resource a node is: in a message, a term, or an attribute of one. */
  datatype Place = Nowhere | OfMessage(name: string) | OfTerm(name: string) | OfAttribute(owner: Place, name: string)

  type PlacedSite = (Node, Place)

  /** How an issue shows a place; without a name it is unknown. */
  function Written(place: Place): string {
    match place
    case Nowhere => "unknown"
    case OfMessage(name) => if name == "" then "unknown" else name
    case OfTerm(name) => "-" + name
    case OfAttribute(owner, name) => Written(owner) + "." + name
  }

  function Within(n: Node, place: Place): Place
    requires Shaped(n)
  {
    match n
    case Message(id, _, _, _, _) => OfMessage(id.name)
    case Term(id, _, _, _, _) => OfTerm(id.name)
    case Attribute(id, _, _) => OfAttribute(place, id.name)
    case _ => place
  }

  /** All nodes of a tree, through every field, each with the message, term or attribute it is in. */
  ghost function PlacedSites(n: Node, place: Place): seq<PlacedSite>
    requires Typed(n)
    decreases n, 1, 0
  {
    ChildrenUnder(n);
    [(n, Within(n, place))] + PlacedSitesOf(Children(n), Within(n, place), n)
  }

  ghost function PlacedSitesOf(nodes: seq<Node>, place: Place, parent: Node): seq<PlacedSite>
    requires Under(nodes, parent)
    decreases parent, 0, |nodes|
  {
    if nodes == [] then [] else PlacedSites(nodes[0], place) + PlacedSitesOf(nodes[1..], place, parent)
  }

  /** The linter's location in a place. */
  function LocationOf(place: Place): Option<string> {
    match place
    case Nowhere => None
    case OfMessage(name) => Some(name)
    case OfTerm(name) => Some("-" + name)
    case OfAttribute(owner, name) => Some(Written(owner) + "." + name)
  }

  /** Only a missing or empty location is shown as unknown. */
  lemma {:induction false} TagOfLocation(location: string)
    ensures Tag(None) == "unknown" && Tag(Some("")) == "unknown"
    ensures location != "" ==> Tag(Some(location)) == location
  {
  }

  lemma {:induction false} TagOfPlace(place: Place)
    ensures Tag(LocationOf(place)) == Written(place)
  {
    if place.OfAttribute? {
      assert |Written(place.owner) + "." + place.name| > 0;
    }
  }

  lemma {:induction false} LocationWithin(n: Node, place: Place)
    requires Shaped(n)
    ensures Inside(n, LocationOf(place)) == LocationOf(Within(n, place))
  {
    TagOfPlace(place);
  }

  ghost function Located(sites: seq<PlacedSite>): (r: seq<Site>)
    ensures |r| == |sites| && forall i | 0 <= i < |sites| :: r[i] == (sites[i].0, LocationOf(sites[i].1))
  {
    seq(|sites|, i requires 0 <= i < |sites| => (sites[i].0, LocationOf(sites[i].1)))
  }

  lemma {:induction false} LocatedDistributes(a: seq<PlacedSite>, b: seq<PlacedSite>)
    ensures Located(a + b) == Located(a) + Located(b)
  {
  }

  /** Places are what the linter's locations stand for. */
  lemma {:induction false} PlacesAreLocations(n: Node, place: Place)
    requires Typed(n)
    ensures Located(PlacedSites(n, place)) == TreeSites(n, LocationOf(place))
    decreases n, 1, 0
  {
    hide Children;
    hide Inside;
    hide Within;
    hide LocationOf;
    var within := Within(n, place);
    ChildrenUnder(n);
    LocationWithin(n, place);
    PlacesAreLocationsIn(Children(n), within, n);
    LocatedDistributes([(n, within)], PlacedSitesOf(Children(n), within, n));
    assert Located([(n, within)]) == [(n, LocationOf(within))];
  }

  lemma {:induction false} PlacesAreLocationsIn(nodes: seq<Node>, place: Place, parent: Node)
    requires Under(nodes, parent)
    ensures Located(PlacedSitesOf(nodes, place, parent)) == TreeSitesOf(nodes, LocationOf(place), parent)
    decreases parent, 0, |nodes|
  {
    hide Typed;
    hide TreeSites;
    hide PlacedSites;
    hide LocationOf;
    if nodes != [] {
      PlacesAreLocations(nodes[0], place);
      PlacesAreLocationsIn(nodes[1..], place, parent);
      LocatedDistributes(PlacedSites(nodes[0], place), PlacedSitesOf(nodes[1..], place, parent));
    } else {
      assert Located([]) == [];
    }
  }
}
