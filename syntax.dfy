/**
 * The syntax tree and semantic values the annotation resolver works on.
 *
 * Syntax trees are immutable values. A node's identity (what a PSI tree gives
 * by object identity) is its `id`, which keys the binding trace.
 */
module Syntax {

  datatype Option<+T> = None | Some(value: T)

  /** Identity of a syntax node: the key under which the binding trace records results. */
  type NodeId = nat

  /** A lexical scope. The resolver never inspects one; it only passes it on. */
  datatype Scope = Scope(token: nat)

  /** A type: a concrete class type, or an error type carrying a debug message. */
  datatype JetType = ClassType(fqName: string) | ErrorType(debugMessage: string)

  /** The sentinel type given to an annotation whose constructor call did not resolve. */
  const UnresolvedAnnotationType: JetType := ErrorType("Unresolved annotation type")

  /** A folded compile-time value; the resolver passes it through unchanged. */
  datatype CompileTimeConstant =
    | IntValue(i: int)
    | LongValue(l: int)
    | BooleanValue(b: bool)
    | CharValue(c: char)
    | StringValue(s: string)
    | NullValue

  /** One `@Name(args...)` occurrence: its type reference and its argument expressions. */
  datatype AnnotationEntry = AnnotationEntry(id: NodeId, typeReference: string, valueArguments: seq<Element>)

  /** The modifier list of a declaration, as far as annotations go. */
  datatype ModifierList = ModifierList(annotationEntries: seq<AnnotationEntry>)

  /**
   * A syntax node, by the kinds the resolver tells apart. Declarations, classes and
   * every other kind of expression or element are only traversed, so they carry
   * their children and nothing else.
   */
  datatype Element =
    | ConstantExpression(id: NodeId)
    | StringTemplateExpression(id: NodeId, entries: seq<Element>)
    | ParenthesizedExpression(id: NodeId, expression: Option<Element>)
    | AnnotatedExpression(id: NodeId, attributes: seq<AnnotationEntry>, baseExpression: Element)
    | DeclarationWithBody(id: NodeId, children: seq<Element>)
    | PropertyDeclaration(id: NodeId, children: seq<Element>)
    | OtherElement(id: NodeId, children: seq<Element>)

  /** The node categories a skip set can name. */
  datatype Category = DeclarationsWithBody | Properties

  /** The skip set used when scanning a class or object declaration. */
  const ClassLevelSkips: set<Category> := {DeclarationsWithBody, Properties}

  /** One parameter of the resolved call with the argument expressions bound to it. */
  datatype ParameterBinding = ParameterBinding(parameterType: JetType, argumentExpressions: seq<Element>)

  /**
   * What overload resolution reports: whether it succeeded, the return type of the
   * resulting (best-candidate) descriptor, and the resulting call's parameter-to-arguments
   * binding in its iteration order.
   */
  datatype OverloadResolutionResults =
    OverloadResolutionResults(success: bool, returnType: JetType, valueArguments: seq<ParameterBinding>)

  /** Overload resolution of the synthetic call built from an annotation entry, in a scope. */
  type CallResolver = (Scope, AnnotationEntry) -> OverloadResolutionResults

  /** The inner scope of a function: its declaring scope extended by its own parameters. */
  type InnerScopeProvider = (Scope, NodeId) -> Scope
}
