/** The syntax tree of a Fluent resource, and the children of a node in the order of its fields. */
module Ast {
  import opened Wrappers

  datatype Node =
    | Resource(entries: seq<Node>)
    | Message(id: Node, value: Option<Node>, attributes: seq<Node>, comment: Option<Node>, span: Option<Node>)
    | Term(id: Node, pattern: Node, attributes: seq<Node>, comment: Option<Node>, span: Option<Node>)
    | Attribute(id: Node, pattern: Node, span: Option<Node>)
    | Comment(content: string, span: Option<Node>)
    | Junk(content: string, annotations: seq<Node>, span: Option<Node>)
    | Annotation(code: string, text: string, span: Option<Node>)
    | Pattern(elements: seq<Node>, span: Option<Node>)
    | TextElement(text: string, span: Option<Node>)
    | Placeable(expression: Node, span: Option<Node>)
    | SelectExpression(selector: Node, variants: seq<Node>, span: Option<Node>)
    | Variant(key: Node, pattern: Node, default: bool, span: Option<Node>)
    | StringLiteral(text: string, span: Option<Node>)
    | NumberLiteral(raw: string, span: Option<Node>)
    | VariableReference(id: Node, span: Option<Node>)
    | MessageReference(id: Node, attribute: Option<Node>, span: Option<Node>)
    | TermReference(id: Node, attribute: Option<Node>, arguments: Option<Node>, span: Option<Node>)
    | FunctionReference(id: Node, call: Node, span: Option<Node>)
    | CallArguments(positional: seq<Node>, named: seq<Node>, span: Option<Node>)
    | NamedArgument(id: Node, literal: Node, span: Option<Node>)
    | Identifier(name: string, span: Option<Node>)
    | Span(start: int, end: int)

  function Optional(o: Option<Node>): seq<Node> {
    match o
    case None => []
    case Some(n) => [n]
  }

  /** Every field that holds nodes, in order. */
  function Children(n: Node): (children: seq<Node>)
    ensures forall c | c in children :: c < n
  {
    match n
    case Resource(entries) => entries
    case Message(id, value, attributes, comment, span) =>
      [id] + Optional(value) + attributes + Optional(comment) + Optional(span)
    case Term(id, pattern, attributes, comment, span) => [id, pattern] + attributes + Optional(comment) + Optional(span)
    case Attribute(id, pattern, span) => [id, pattern] + Optional(span)
    case Comment(_, span) => Optional(span)
    case Junk(_, annotations, span) => annotations + Optional(span)
    case Annotation(_, _, span) => Optional(span)
    case _ => Parts(n)
  }

  /** The children of what patterns are made of. */
  function Parts(n: Node): (children: seq<Node>)
    ensures forall c | c in children :: c < n
  {
    match n
    case Pattern(elements, span) => elements + Optional(span)
    case TextElement(_, span) => Optional(span)
    case Placeable(expression, span) => [expression] + Optional(span)
    case SelectExpression(selector, variants, span) => [selector] + variants + Optional(span)
    case Variant(key, pattern, _, span) => [key, pattern] + Optional(span)
    case StringLiteral(_, span) => Optional(span)
    case NumberLiteral(_, span) => Optional(span)
    case VariableReference(id, span) => [id] + Optional(span)
    case MessageReference(id, attribute, span) => [id] + Optional(attribute) + Optional(span)
    case TermReference(id, attribute, arguments, span) => [id] + Optional(attribute) + Optional(arguments) + Optional(span)
    case FunctionReference(id, call, span) => [id, call] + Optional(span)
    case CallArguments(positional, named, span) => positional + named + Optional(span)
    case NamedArgument(id, literal, span) => [id, literal] + Optional(span)
    case Identifier(_, span) => Optional(span)
    case _ => []
  }

  predicate IsEntry(n: Node) { n.Message? || n.Term? || n.Comment? || n.Junk? }

  predicate IsInline(n: Node) {
    n.StringLiteral? || n.NumberLiteral? || n.VariableReference? || n.MessageReference? || n.TermReference? ||
    n.FunctionReference? || n.Placeable?
  }

  /** The declared types of a node's fields. */
  ghost predicate Shaped(n: Node) {
    && (n.Span? || n.Resource? || (n.span.Some? ==> n.span.value.Span?))
    && match n
       case Resource(entries) => forall c | c in entries :: IsEntry(c)
       case Message(id, value, attributes, comment, _) =>
         id.Identifier? && (value.Some? ==> value.value.Pattern?) && (forall c | c in attributes :: c.Attribute?)
         && (comment.Some? ==> comment.value.Comment?) && (value.Some? || attributes != [])
       case Term(id, pattern, attributes, comment, _) =>
         id.Identifier? && pattern.Pattern? && (forall c | c in attributes :: c.Attribute?)
         && (comment.Some? ==> comment.value.Comment?)
       case Attribute(id, pattern, _) => id.Identifier? && pattern.Pattern?
       case Junk(_, annotations, _) => forall c | c in annotations :: c.Annotation?
       case Pattern(elements, _) => forall c | c in elements :: c.TextElement? || c.Placeable?
       case Placeable(expression, _) => expression.SelectExpression? || IsInline(expression)
       case SelectExpression(selector, variants, _) =>
         IsInline(selector) && !selector.Placeable? && variants != [] && (forall c | c in variants :: c.Variant?)
       case Variant(key, pattern, _, _) => (key.Identifier? || key.NumberLiteral?) && pattern.Pattern?
       case VariableReference(id, _) => id.Identifier?
       case MessageReference(id, attribute, _) => id.Identifier? && (attribute.Some? ==> attribute.value.Identifier?)
       case TermReference(id, attribute, arguments, _) =>
         id.Identifier? && (attribute.Some? ==> attribute.value.Identifier?) && (arguments.Some? ==> arguments.value.CallArguments?)
       case FunctionReference(id, call, _) => id.Identifier? && call.CallArguments?
       case CallArguments(positional, named, _) =>
         (forall c | c in positional :: IsInline(c)) && (forall c | c in named :: c.NamedArgument?)
       case NamedArgument(id, literal, _) => id.Identifier? && (literal.StringLiteral? || literal.NumberLiteral?)
       case _ => true
  }

  ghost predicate Typed(n: Node) { Shaped(n) && forall c | c in Children(n) :: Typed(c) }

  /** Nodes inside a pattern, a comment or junk: neither the resource nor one of its definitions. */
  predicate IsInner(n: Node) { !n.Resource? && !n.Message? && !n.Term? && !n.Attribute? }

  lemma {:induction false} InnerHasInnerChildren(n: Node)
    requires Shaped(n) && IsInner(n)
    ensures forall c | c in Children(n) :: IsInner(c)
  {
  }
}
