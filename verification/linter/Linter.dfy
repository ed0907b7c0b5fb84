/** The lint visitor: a depth-guarded walk over a tree that collects issues. */
module Linter {
  import opened Wrappers
  import opened Ast
  import opened LintSpec

  class FTLLinterVisitor {
    var issues: seq<LintIssue>
    var messageIds: set<string>
    var termIds: set<string>
    var currentLocation: Option<string>
    var currentDepth: nat
    const maxDepth: int

    constructor (limit: int)
      ensures maxDepth == limit && currentDepth == 0
      ensures issues == [] && messageIds == {} && termIds == {} && currentLocation == None
    {
      maxDepth, currentDepth := limit, 0;
      issues, messageIds, termIds, currentLocation := [], {}, {}, None;
    }

    function Ids(): Defined
      reads this
    {
      Defined(messageIds, termIds)
    }

    /**
     The walk succeeds exactly when the tree fits what is left of the depth limit. Then it has reported the issues of
     the tree and restored the location; otherwise it has reported some of them, in order, and the location stays where
     the limit was hit. A message or term at the top gets the location back only if it succeeds or is not entered.
     */
    method Visit(n: Node) returns (ok: bool)
      requires Typed(n) && !n.Resource?
      modifies this`issues, this`currentLocation, this`currentDepth
      ensures currentDepth == old(currentDepth)
      ensures ok <==> currentDepth + Height(n) <= maxDepth
      ensures Reported(old(issues), issues, ok, Issues(n, old(currentLocation), Ids()))
      ensures currentLocation == if ok then old(currentLocation)
                                 else LeftAt(n, old(currentLocation), maxDepth - currentDepth)
      ensures (n.Message? || n.Term?) && old(currentLocation) == None ==>
                (currentLocation == None <==> ok || currentDepth >= maxDepth)
      ensures IsInner(n) ==> currentLocation == old(currentLocation)
      decreases n, 4, 0
    {
      hide Own;
      hide Reported;
      hide Typed;
      hide Issues;
      hide IssuesOf;
      hide Height;
      hide HeightOf;
      hide LeftAt;
      hide LeftAtOf;
      hide Visited;
      hide Inside;
      HeightOfTree(n);
      LeftAtTree(n, currentLocation, maxDepth - currentDepth);
      ReportedNothing(issues, Issues(n, currentLocation, Ids()));
      if currentDepth >= maxDepth {
        return false;
      }
      currentDepth := currentDepth + 1;
      IssuesOfTree(n, currentLocation, Ids());
      ok := Dispatch(n);
      currentDepth := currentDepth - 1;
    }

    /** The method for the node's type, inside the depth guard. */
    method Dispatch(n: Node) returns (ok: bool)
      requires Typed(n) && !n.Resource? && currentDepth <= maxDepth
      modifies this`issues, this`currentLocation, this`currentDepth
      ensures currentDepth == old(currentDepth)
      ensures ok <==> currentDepth + HeightOf(Visited(n), n) <= maxDepth
      ensures var inside := Inside(n, old(currentLocation));
              Reported(old(issues), issues, ok, Own(n, inside, Ids()) + IssuesOf(Visited(n), inside, n, Ids()))
      ensures Under(Visited(n), n)
      ensures currentLocation == if ok then old(currentLocation)
                                 else LeftAtOf(Visited(n), Inside(n, old(currentLocation)), maxDepth - currentDepth, n)
      decreases n, 3, 0
    {
      hide Own;
      hide Reported;
      hide Typed;
      hide IssuesOf;
      hide HeightOf;
      hide LeftAtOf;
      hide Visited;
      hide Inside;
      if IsInner(n) {
        LeftInside(n, currentLocation, maxDepth - currentDepth);
      }
      match n {
      case Resource(_) => assert false;
      case Message(_, _, _, _, _) => ok := VisitMessage(n);
      case Term(_, _, _, _, _) => ok := VisitTerm(n);
      case Attribute(_, _, _) => ok := VisitAttribute(n);
      case VariableReference(_, _) =>
        NothingOfItsOwn(n, currentLocation, Ids());
        ok := GenericVisit(n);
      case FunctionReference(_, _, _) => ok := VisitFunctionReference(n);
      case MessageReference(_, _, _) => ok := VisitMessageReference(n);
      case TermReference(_, _, _, _) => ok := VisitTermReference(n);
      case _ =>
        NothingOfItsOwn(n, currentLocation, Ids());
        ok := GenericVisit(n);
      }
    }

    method VisitMessage(n: Node) returns (ok: bool)
      requires Typed(n) && n.Message? && currentDepth <= maxDepth
      modifies this`issues, this`currentLocation, this`currentDepth
      ensures currentDepth == old(currentDepth)
      ensures ok <==> currentDepth + HeightOf(Visited(n), n) <= maxDepth
      ensures var inside := Inside(n, old(currentLocation));
              Reported(old(issues), issues, ok, Own(n, inside, Ids()) + IssuesOf(Visited(n), inside, n, Ids()))
      ensures Under(Visited(n), n)
      ensures currentLocation == if ok then old(currentLocation)
                                 else LeftAtOf(Visited(n), Inside(n, old(currentLocation)), maxDepth - currentDepth, n)
      decreases n, 2, 0
    {
      hide Issues;
      hide IssuesOf;
      hide HeightOf;
      hide LeftAt;
      hide LeftAtOf;
      hide Height;
      hide Reported;
      hide Visited;
      var previousLocation := currentLocation;
      currentLocation := Some(n.id.name);
      ghost var before, inside := issues, currentLocation;
      ghost var own, rest := Own(n, inside, Ids()), IssuesOf(n.attributes, inside, n, Ids());
      PatternThenAttributes(n, n.value, n.attributes, inside, Ids());
      if !HasExplicitValue(n.value) {
        issues := issues + [NoValue(n.id.name)];
        ReportedOne(before, NoValue(n.id.name));
        ok := VisitAll(n.attributes, n);
        ReportedThen(before, before + own, issues, ok, own, rest);
      } else {
        ok := Visit(n.value.value);
        ghost var mid, first := issues, Issues(n.value.value, inside, Ids());
        assert own + (first + rest) == first + rest;
        if !ok {
          ReportedCut(before, mid, first, rest);
          return;
        }
        ok := VisitAll(n.attributes, n);
        ReportedThen(before, mid, issues, ok, first, rest);
      }
      if ok {
        currentLocation := previousLocation;
      }
    }

    method VisitTerm(n: Node) returns (ok: bool)
      requires Typed(n) && n.Term? && currentDepth <= maxDepth
      modifies this`issues, this`currentLocation, this`currentDepth
      ensures currentDepth == old(currentDepth)
      ensures ok <==> currentDepth + HeightOf(Visited(n), n) <= maxDepth
      ensures var inside := Inside(n, old(currentLocation));
              Reported(old(issues), issues, ok, Own(n, inside, Ids()) + IssuesOf(Visited(n), inside, n, Ids()))
      ensures Under(Visited(n), n)
      ensures currentLocation == if ok then old(currentLocation)
                                 else LeftAtOf(Visited(n), Inside(n, old(currentLocation)), maxDepth - currentDepth, n)
      decreases n, 2, 0
    {
      hide Issues;
      hide IssuesOf;
      hide HeightOf;
      hide LeftAt;
      hide LeftAtOf;
      hide Height;
      hide Reported;
      hide Visited;
      var previousLocation := currentLocation;
      currentLocation := Some("-" + n.id.name);
      ghost var before, inside := issues, currentLocation;
      ghost var own, rest := Own(n, inside, Ids()), IssuesOf(n.attributes, inside, n, Ids());
      PatternThenAttributes(n, Some(n.pattern), n.attributes, inside, Ids());
      if HasExplicitValue(Some(n.pattern)) {
        ok := Visit(n.pattern);
        ghost var mid, first := issues, Issues(n.pattern, inside, Ids());
        assert own + (first + rest) == first + rest;
        if !ok {
          ReportedCut(before, mid, first, rest);
          return;
        }
        ok := VisitAll(n.attributes, n);
        ReportedThen(before, mid, issues, ok, first, rest);
      } else {
        assert own + rest == rest;
        ok := VisitAll(n.attributes, n);
      }
      if ok {
        currentLocation := previousLocation;
      }
    }

    method VisitAttribute(n: Node) returns (ok: bool)
      requires Typed(n) && n.Attribute? && currentDepth <= maxDepth
      modifies this`issues, this`currentLocation, this`currentDepth
      ensures currentDepth == old(currentDepth)
      ensures ok <==> currentDepth + HeightOf(Visited(n), n) <= maxDepth
      ensures var inside := Inside(n, old(currentLocation));
              Reported(old(issues), issues, ok, Own(n, inside, Ids()) + IssuesOf(Visited(n), inside, n, Ids()))
      ensures Under(Visited(n), n)
      ensures currentLocation == if ok then old(currentLocation)
                                 else LeftAtOf(Visited(n), Inside(n, old(currentLocation)), maxDepth - currentDepth, n)
      decreases n, 2, 0
    {
      hide Issues;
      hide IssuesOf;
      hide HeightOf;
      hide LeftAt;
      hide LeftAtOf;
      hide Height;
      hide Reported;
      hide Visited;
      var previousLocation := currentLocation;
      var baseLocation := Tag(previousLocation);
      currentLocation := Some(baseLocation + "." + n.id.name);
      PatternOfAttribute(n, currentLocation, Ids());
      ReportedNothing(issues, []);
      ok := true;
      if HasExplicitValue(Some(n.pattern)) {
        ok := Visit(n.pattern);
      }
      if ok {
        currentLocation := previousLocation;
      }
    }

    method VisitFunctionReference(n: Node) returns (ok: bool)
      requires Typed(n) && n.FunctionReference? && currentDepth <= maxDepth
      modifies this`issues, this`currentLocation, this`currentDepth
      ensures currentDepth == old(currentDepth)
      ensures ok <==> currentDepth + HeightOf(Visited(n), n) <= maxDepth
      ensures var inside := Inside(n, old(currentLocation));
              Reported(old(issues), issues, ok, Own(n, inside, Ids()) + IssuesOf(Visited(n), inside, n, Ids()))
      ensures currentLocation == old(currentLocation)
      decreases n, 2, 0
    {
      hide Issues;
      hide IssuesOf;
      hide HeightOf;
      hide LeftAt;
      hide LeftAtOf;
      hide Reported;
      hide Visited;
      ghost var before, own := issues, Own(n, currentLocation, Ids());
      ghost var rest := RestOf(n, currentLocation, Ids());
      ReportedNothing(before, []);
      if n.id.name !in KNOWN_FUNCTIONS {
        ReportedOne(before, UnknownFunction(n.id.name, Tag(currentLocation)));
        issues := issues + [UnknownFunction(n.id.name, Tag(currentLocation))];
      }
      ghost var mid := issues;
      ok := GenericVisit(n);
      ReportedThen(before, mid, issues, ok, own, rest);
    }

    method VisitMessageReference(n: Node) returns (ok: bool)
      requires Typed(n) && n.MessageReference? && currentDepth <= maxDepth
      modifies this`issues, this`currentLocation, this`currentDepth
      ensures currentDepth == old(currentDepth)
      ensures ok <==> currentDepth + HeightOf(Visited(n), n) <= maxDepth
      ensures var inside := Inside(n, old(currentLocation));
              Reported(old(issues), issues, ok, Own(n, inside, Ids()) + IssuesOf(Visited(n), inside, n, Ids()))
      ensures currentLocation == old(currentLocation)
      decreases n, 2, 0
    {
      hide Issues;
      hide IssuesOf;
      hide HeightOf;
      hide LeftAt;
      hide LeftAtOf;
      hide Reported;
      hide Visited;
      ghost var before, own := issues, Own(n, currentLocation, Ids());
      ghost var rest := RestOf(n, currentLocation, Ids());
      ReportedNothing(before, []);
      if n.id.name !in messageIds {
        ReportedOne(before, UndefinedReference(n.id.name, Tag(currentLocation)));
        issues := issues + [UndefinedReference(n.id.name, Tag(currentLocation))];
      }
      ghost var mid := issues;
      ok := GenericVisit(n);
      ReportedThen(before, mid, issues, ok, own, rest);
    }

    method VisitTermReference(n: Node) returns (ok: bool)
      requires Typed(n) && n.TermReference? && currentDepth <= maxDepth
      modifies this`issues, this`currentLocation, this`currentDepth
      ensures currentDepth == old(currentDepth)
      ensures ok <==> currentDepth + HeightOf(Visited(n), n) <= maxDepth
      ensures var inside := Inside(n, old(currentLocation));
              Reported(old(issues), issues, ok, Own(n, inside, Ids()) + IssuesOf(Visited(n), inside, n, Ids()))
      ensures currentLocation == old(currentLocation)
      decreases n, 2, 0
    {
      hide Issues;
      hide IssuesOf;
      hide HeightOf;
      hide LeftAt;
      hide LeftAtOf;
      hide Reported;
      hide Visited;
      ghost var before, own := issues, Own(n, currentLocation, Ids());
      ghost var rest := RestOf(n, currentLocation, Ids());
      ReportedNothing(before, []);
      if n.id.name !in termIds {
        ReportedOne(before, UndefinedTerm(n.id.name, Tag(currentLocation)));
        issues := issues + [UndefinedTerm(n.id.name, Tag(currentLocation))];
      }
      ghost var mid := issues;
      ok := GenericVisit(n);
      ReportedThen(before, mid, issues, ok, own, rest);
    }

    /** Every child of a node below the definitions. */
    method GenericVisit(n: Node) returns (ok: bool)
      requires Typed(n) && IsInner(n) && currentDepth <= maxDepth
      modifies this`issues, this`currentLocation, this`currentDepth
      ensures Under(Visited(n), n)
      ensures currentDepth == old(currentDepth)
      ensures ok <==> currentDepth + HeightOf(Visited(n), n) <= maxDepth
      ensures Reported(old(issues), issues, ok, IssuesOf(Visited(n), old(currentLocation), n, Ids()))
      ensures currentLocation == old(currentLocation)
      decreases n, 1, 0
    {
      LeftInside(n, currentLocation, maxDepth - currentDepth);
      ChildrenOfInner(n);
      hide *;
      ok := VisitAll(Children(n), n);
    }

    /** Each of the nodes in turn, up to the first that does not fit. */
    method VisitAll(nodes: seq<Node>, ghost parent: Node) returns (ok: bool)
      requires Under(nodes, parent) && forall i | 0 <= i < |nodes| :: !nodes[i].Resource?
      requires currentDepth <= maxDepth
      modifies this`issues, this`currentLocation, this`currentDepth
      ensures currentDepth == old(currentDepth)
      ensures ok <==> currentDepth + HeightOf(nodes, parent) <= maxDepth
      ensures Reported(old(issues), issues, ok, IssuesOf(nodes, old(currentLocation), parent, Ids()))
      ensures currentLocation == if ok then old(currentLocation)
                                 else LeftAtOf(nodes, old(currentLocation), maxDepth - currentDepth, parent)
      decreases parent, 0, |nodes|
    {
      hide Typed;
      hide Issues;
      hide IssuesOf;
      hide Height;
      hide HeightOf;
      hide LeftAt;
      hide LeftAtOf;
      hide Reported;
      hide Children;
      ghost var before, location, all := issues, currentLocation, IssuesOf(nodes, currentLocation, parent, Ids());
      ghost var done := [];
      NoIssuesOfNone(currentLocation, parent, Ids());
      ReportedNothing(before, all);
      for i := 0 to |nodes|
        invariant currentDepth == old(currentDepth) && currentLocation == location
        invariant Under(nodes[i..], parent)
        invariant done + IssuesOf(nodes[i..], location, parent, Ids()) == all && Reported(before, issues, true, done)
        invariant currentDepth + HeightOf(nodes[i..], parent) <= maxDepth <==>
                  currentDepth + HeightOf(nodes, parent) <= maxDepth
        invariant LeftAtOf(nodes[i..], location, maxDepth - currentDepth, parent) ==
                  LeftAtOf(nodes, location, maxDepth - currentDepth, parent)
      {
        assert nodes[i..][0] == nodes[i] && nodes[i..][1..] == nodes[i + 1..];
        IssuesOfList(nodes[i..], location, parent, Ids());
        HeightOfList(nodes[i..], parent);
        LeftAtOfList(nodes[i..], location, maxDepth - currentDepth, parent);
        ghost var mid, here := issues, Issues(nodes[i], location, Ids());
        ghost var rest := IssuesOf(nodes[i + 1..], location, parent, Ids());
        assert done + (here + rest) == (done + here) + rest;
        ok := Visit(nodes[i]);
        ReportedThen(before, mid, issues, ok, done, here);
        if !ok {
          ReportedCut(before, issues, done + here, rest);
          return;
        }
        done := done + here;
      }
      assert nodes[|nodes|..] == [] && done + [] == done;
      return true;
    }

    /** The first pass: all identifiers, and an issue for each message whose identifier is known already. */
    method CollectIds(entries: seq<Node>)
      requires AllShaped(entries)
      modifies this`issues, this`messageIds, this`termIds
      ensures Ids() == Collected(entries, old(Ids()))
      ensures issues == old(issues) + Duplicates(entries, old(Ids()))
    {
      hide DuplicateId;
      ghost var before := Ids();
      for i := 0 to |entries|
        invariant Ids() == Collected(entries[..i], before)
        invariant issues == old(issues) + Duplicates(entries[..i], before)
      {
        var entry := entries[i];
        assert entries[..i + 1][..i] == entries[..i];
        if entry.Message? {
          if entry.id.name in messageIds {
            issues := issues + [DuplicateId(entry.id.name)];
          }
          messageIds := messageIds + {entry.id.name};
        } else if entry.Term? {
          termIds := termIds + {entry.id.name};
        }
      }
      assert entries[..|entries|] == entries;
    }

    method VisitResource(n: Node) returns (ok: bool)
      requires Typed(n) && n.Resource? && currentDepth <= maxDepth
      modifies this
      ensures Under(n.entries, n)
      ensures currentDepth == old(currentDepth)
      ensures Ids() == Collected(n.entries, old(Ids()))
      ensures ok <==> currentDepth + HeightOf(n.entries, n) <= maxDepth
      ensures Reported(old(issues), issues, ok, ResourceIssues(n, old(currentLocation), old(Ids())))
      ensures currentLocation == if ok then old(currentLocation)
                                 else LeftAtOf(n.entries, old(currentLocation), maxDepth - currentDepth, n)
    {
      hide IssuesOf;
      hide HeightOf;
      hide LeftAt;
      hide LeftAtOf;
      hide Collected;
      hide Duplicates;
      hide Reported;
      VisitedUnder(n);
      ghost var before, known := issues, Ids();
      CollectIds(n.entries);
      ghost var mid := issues;
      assert forall i | 0 <= i < |n.entries| :: n.entries[i] in n.entries;
      ok := VisitAll(n.entries, n);
      ReportedAll(before, Duplicates(n.entries, known));
      ReportedThen(before, mid, issues, ok, Duplicates(n.entries, known),
                   IssuesOf(n.entries, old(currentLocation), n, Collected(n.entries, known)));
    }

    /** `visit` on a resource. */
    method VisitRoot(n: Node) returns (ok: bool)
      requires Typed(n) && n.Resource?
      modifies this
      ensures currentDepth == old(currentDepth)
      ensures ok <==> currentDepth + Height(n) <= maxDepth
      ensures Reported(old(issues), issues, ok, ResourceIssues(n, old(currentLocation), old(Ids())))
      ensures currentLocation == if ok then old(currentLocation)
                                 else LeftAt(n, old(currentLocation), maxDepth - currentDepth)
    {
      hide ResourceIssues;
      hide HeightOf;
      hide LeftAt;
      hide LeftAtOf;
      hide Height;
      hide Reported;
      HeightOfTree(n);
      LeftAtTree(n, currentLocation, maxDepth - currentDepth);
      ReportedNothing(issues, ResourceIssues(n, currentLocation, Ids()));
      if currentDepth >= maxDepth {
        return false;
      }
      currentDepth := currentDepth + 1;
      ok := VisitResource(n);
      currentDepth := currentDepth - 1;
    }
  }

  const MAX_DEPTH := 100

  /** The issues of a parsed resource; `None` when it nests too deep. */
  method LintResource(resource: Node) returns (result: Option<seq<LintIssue>>)
    requires Typed(resource) && resource.Resource?
    ensures result == if Height(resource) <= 100 then Some(ResourceIssues(resource, None, Defined({}, {}))) else None
  {
    var linter := new FTLLinterVisitor(MAX_DEPTH);
    var ok := linter.VisitRoot(resource);
    assert [] + ResourceIssues(resource, None, Defined({}, {})) == ResourceIssues(resource, None, Defined({}, {}));
    result := if ok then Some(linter.issues) else None;
  }

  lemma {:induction false} NothingOfItsOwn(n: Node, location: Option<string>, defined: Defined)
    requires Typed(n) && IsInner(n) && !n.FunctionReference? && !n.MessageReference? && !n.TermReference?
    ensures Under(Visited(n), n) && Inside(n, location) == location
    ensures Own(n, location, defined) + IssuesOf(Visited(n), location, n, defined) ==
            IssuesOf(Visited(n), location, n, defined)
  {
    VisitedUnder(n);
  }

  ghost predicate Defines(n: Node, value: Option<Node>, attributes: seq<Node>) {
    (n.Message? && n.value == value && n.attributes == attributes) ||
    (n.Term? && Some(n.pattern) == value && n.attributes == attributes)
  }

  lemma {:induction false} VisitedOfDefinition(n: Node, value: Option<Node>, attributes: seq<Node>)
    requires Typed(n) && Defines(n, value, attributes)
    ensures forall i | 0 <= i < |attributes| :: !attributes[i].Resource?
    ensures HasExplicitValue(value) ==> Visited(n) == [value.value] + attributes
    ensures !HasExplicitValue(value) ==> Visited(n) == attributes
  {
    assert forall i | 0 <= i < |attributes| :: attributes[i] in attributes;
    assert [] + attributes == attributes;
  }

  lemma {:induction false} PatternOfAttribute(n: Node, location: Option<string>, defined: Defined)
    requires Typed(n) && n.Attribute?
    ensures Under(Visited(n), n) && n.pattern < n && Typed(n.pattern) && IsInner(n.pattern)
    ensures HasExplicitValue(Some(n.pattern)) ==>
              && Own(n, location, defined) + IssuesOf(Visited(n), location, n, defined) ==
                 Issues(n.pattern, location, defined)
              && HeightOf(Visited(n), n) == Height(n.pattern)
              && forall room :: LeftAtOf(Visited(n), location, room, n) == location
    ensures !HasExplicitValue(Some(n.pattern)) ==>
              Own(n, location, defined) + IssuesOf(Visited(n), location, n, defined) == [] && HeightOf(Visited(n), n) == 0
  {
    hide Height;
    hide Issues;
    hide IssuesOf;
    hide LeftAt;
    VisitedUnder(n);
    assert n.pattern in Children(n);
    NoIssuesOfNone(location, n, defined);
    if HasExplicitValue(Some(n.pattern)) {
      assert Visited(n) == [n.pattern] && [n.pattern][1..] == [];
      IssuesOfList([n.pattern], location, n, defined);
      HeightOfList([n.pattern], n);
      forall room ensures LeftAtOf(Visited(n), location, room, n) == location {
        LeftAtInner(n.pattern, location, room);
      }
    }
  }

  /** A definition's pattern, if it has elements, comes before its attributes. */
  lemma {:induction false} PatternThenAttributes(n: Node, value: Option<Node>, attributes: seq<Node>,
                                                 location: Option<string>, defined: Defined)
    requires Typed(n) && Defines(n, value, attributes)
    ensures Under(Visited(n), n) && Under(attributes, n)
    ensures forall i | 0 <= i < |attributes| :: !attributes[i].Resource?
    ensures HasExplicitValue(value) ==>
              && value.value < n && Typed(value.value)
              && IssuesOf(Visited(n), location, n, defined) ==
                 Issues(value.value, location, defined) + IssuesOf(attributes, location, n, defined)
              && HeightOf(Visited(n), n) == Higher(Height(value.value), HeightOf(attributes, n))
              && forall room :: LeftAtOf(Visited(n), location, room, n) ==
                                if Height(value.value) > room then location else LeftAtOf(attributes, location, room, n)
    ensures !HasExplicitValue(value) ==> Visited(n) == attributes
  {
    hide Visited;
    hide Typed;
    hide Height;
    hide IssuesOf;
    hide Issues;
    VisitedUnder(n);
    VisitedOfDefinition(n, value, attributes);
    if HasExplicitValue(value) {
      var all := Visited(n);
      assert all[0] == value.value && all[1..] == attributes;
      assert Under(all[1..], n);
      IssuesOfList(all, location, n, defined);
      forall room
        ensures LeftAtOf(all, location, room, n) ==
                if Height(value.value) > room then location else LeftAtOf(attributes, location, room, n)
      {
        LeftAtInner(value.value, location, room);
      }
    }
  }

  lemma {:induction false} ChildrenOfInner(n: Node)
    requires Typed(n) && IsInner(n)
    ensures Visited(n) == Children(n) && forall i | 0 <= i < |Children(n)| :: !Children(n)[i].Resource?
  {
    InnerHasInnerChildren(n);
    assert forall i | 0 <= i < |Children(n)| :: Children(n)[i] in Children(n);
  }

  /** Nothing inside a pattern moves the location, wherever the limit is hit. */
  lemma {:induction false} LeftAtInner(n: Node, location: Option<string>, room: int)
    requires Typed(n) && IsInner(n)
    ensures LeftAt(n, location, room) == location
    decreases n, 2, 0
  {
    LeftInside(n, location, room - 1);
  }

  lemma {:induction false} LeftInside(n: Node, location: Option<string>, room: int)
    requires Typed(n) && IsInner(n)
    ensures Under(Visited(n), n) && Inside(n, location) == location
    ensures LeftAtOf(Visited(n), location, room, n) == location
    decreases n, 1, 0
  {
    VisitedUnder(n);
    InnerHasInnerChildren(n);
    assert forall i | 0 <= i < |Visited(n)| :: Visited(n)[i] in Children(n);
    LeftAtOfInner(Visited(n), location, room, n);
  }

  lemma {:induction false} LeftAtOfInner(nodes: seq<Node>, location: Option<string>, room: int, parent: Node)
    requires Under(nodes, parent) && forall i | 0 <= i < |nodes| :: IsInner(nodes[i])
    ensures LeftAtOf(nodes, location, room, parent) == location
    decreases parent, 0, |nodes|
  {
    if nodes != [] {
      LeftAtInner(nodes[0], location, room);
      LeftAtOfInner(nodes[1..], location, room, parent);
    }
  }

  /** Once there is a location, the limit never takes it away. */
  lemma {:induction false} LocationIsKept(n: Node, location: Option<string>, room: int)
    requires Typed(n) && location.Some?
    ensures LeftAt(n, location, room).Some?
    decreases n, 1, 0
  {
    VisitedUnder(n);
    LocationIsKeptIn(Visited(n), Inside(n, location), room - 1, n);
  }

  lemma {:induction false} LocationIsKeptIn(nodes: seq<Node>, location: Option<string>, room: int, parent: Node)
    requires Under(nodes, parent) && location.Some?
    ensures LeftAtOf(nodes, location, room, parent).Some?
    decreases parent, 0, |nodes|
  {
    if nodes != [] {
      LocationIsKept(nodes[0], location, room);
      LocationIsKeptIn(nodes[1..], location, room, parent);
    }
  }

  lemma {:induction false} LeftAtTree(n: Node, location: Option<string>, room: int)
    requires Typed(n)
    ensures Under(Visited(n), n)
    ensures LeftAt(n, location, room) ==
            if room <= 0 then location else LeftAtOf(Visited(n), Inside(n, location), room - 1, n)
    ensures (n.Message? || n.Term?) && room > 0 ==> LeftAt(n, location, room).Some?
    ensures IsInner(n) ==> LeftAt(n, location, room) == location
  {
    hide Visited;
    VisitedUnder(n);
    if IsInner(n) {
      LeftAtInner(n, location, room);
    }
    if n.Message? || n.Term? {
      LocationIsKeptIn(Visited(n), Inside(n, location), room - 1, n);
    }
  }

  /** Where a definition that is cut short leaves the location: at itself, or at the attribute that is too deep. */
  lemma {:induction false} LeftAtDefinition(n: Node, location: Option<string>, room: int, value: Option<Node>,
                                            attributes: seq<Node>, k: nat)
    requires Typed(n) && Defines(n, value, attributes) && room > 0
    requires HasExplicitValue(value) ==> value.value < n && Typed(value.value)
    requires Under(attributes, n) && k <= |attributes| && forall i | 0 <= i < k :: Height(attributes[i]) < room
    requires if k < |attributes| then Height(attributes[k]) >= room
             else HasExplicitValue(value) && Height(value.value) >= room
    ensures if room == 1 || (HasExplicitValue(value) && Height(value.value) >= room) then
              LeftAt(n, location, room) == Inside(n, location)
            else
              && k < |attributes| && attributes[k].Attribute? && attributes[k].id.Identifier?
              && LeftAt(n, location, room) == Some(Tag(Inside(n, location)) + "." + attributes[k].id.name)
  {
    hide Visited;
    hide Height;
    hide HeightOf;
    hide Issues;
    hide IssuesOf;
    hide LeftAt;
    hide LeftAtOf;
    var here := Inside(n, location);
    hide Typed;
    PatternThenAttributes(n, value, attributes, here, Defined({}, {}));
    LeftAtTree(n, location, room);
    AttributesOfDefinition(n, value, attributes);
    if k < |attributes| {
      LeftAtAttribute(attributes, here, room - 1, n, k);
    }
  }

  lemma {:induction false} AttributesOfDefinition(n: Node, value: Option<Node>, attributes: seq<Node>)
    requires Typed(n) && Defines(n, value, attributes)
    ensures forall i | 0 <= i < |attributes| :: attributes[i].Attribute?
  {
    assert forall i | 0 <= i < |attributes| :: attributes[i] in attributes;
  }

  lemma {:induction false} LeftAtAttribute(attributes: seq<Node>, here: Option<string>, room: int, n: Node, k: nat)
    requires Under(attributes, n) && forall i | 0 <= i < |attributes| :: attributes[i].Attribute?
    requires k < |attributes| && Height(attributes[k]) > room && forall i | 0 <= i < k :: Height(attributes[i]) <= room
    ensures attributes[k].id.Identifier?
    ensures LeftAtOf(attributes, here, room, n) ==
            if room <= 0 then here else Some(Tag(here) + "." + attributes[k].id.name)
    decreases k
  {
    if k == 0 {
      var a := attributes[0];
      VisitedUnder(a);
      LeftAtOfInner(Visited(a), Inside(a, here), room - 1, a);
    } else {
      LeftAtAttribute(attributes[1..], here, room, n, k - 1);
    }
  }

  lemma {:induction false} LeftAtOfList(nodes: seq<Node>, location: Option<string>, room: int, parent: Node)
    requires nodes != [] && Under(nodes, parent)
    ensures LeftAtOf(nodes, location, room, parent) ==
            if Height(nodes[0]) > room then LeftAt(nodes[0], location, room)
            else LeftAtOf(nodes[1..], location, room, parent)
  {
  }

  lemma {:induction false} HeightOfTree(n: Node)
    requires Typed(n)
    ensures Under(Visited(n), n) && Height(n) == 1 + HeightOf(Visited(n), n)
  {
    VisitedUnder(n);
  }

  lemma {:induction false} HeightOfList(nodes: seq<Node>, parent: Node)
    requires nodes != [] && Under(nodes, parent)
    ensures HeightOf(nodes, parent) == Higher(Height(nodes[0]), HeightOf(nodes[1..], parent))
  {
  }

  ghost function RestOf(n: Node, location: Option<string>, defined: Defined): seq<LintIssue>
    requires Typed(n)
  {
    VisitedUnder(n);
    IssuesOf(Visited(n), location, n, defined)
  }

  lemma {:induction false} NoIssuesOfNone(location: Option<string>, parent: Node, defined: Defined)
    ensures IssuesOf([], location, parent, defined) == [] && HeightOf([], parent) == 0
  {
  }

  function Higher(a: nat, b: nat): nat { if a > b then a else b }

  /** Everything expected is reported, or, when the walk is cut short, a first part of it. */
  ghost predicate Reported(before: seq<LintIssue>, after: seq<LintIssue>, ok: bool, expected: seq<LintIssue>) {
    && before <= after <= before + expected
    && (ok ==> after == before + expected)
  }

  lemma {:induction false} ReportedNothing(before: seq<LintIssue>, expected: seq<LintIssue>)
    ensures Reported(before, before, false, expected) && Reported(before, before, true, [])
  {
    assert before + [] == before;
  }

  lemma {:induction false} ReportedOne(before: seq<LintIssue>, issue: LintIssue)
    ensures Reported(before, before + [issue], true, [issue])
  {
  }

  lemma {:induction false} ReportedAll(before: seq<LintIssue>, expected: seq<LintIssue>)
    ensures Reported(before, before + expected, true, expected)
  {
  }

  lemma {:induction false} ReportedThen(a: seq<LintIssue>, b: seq<LintIssue>, c: seq<LintIssue>, ok: bool,
                                        first: seq<LintIssue>, second: seq<LintIssue>)
    requires Reported(a, b, true, first) && Reported(b, c, ok, second)
    ensures Reported(a, c, ok, first + second)
  {
    assert a + (first + second) == (a + first) + second;
  }

  lemma {:induction false} ReportedCut(a: seq<LintIssue>, b: seq<LintIssue>, first: seq<LintIssue>, second: seq<LintIssue>)
    requires Reported(a, b, false, first)
    ensures Reported(a, b, false, first + second)
  {
    assert a + (first + second) == (a + first) + second;
  }
}
