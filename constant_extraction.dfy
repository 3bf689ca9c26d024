/**
 * Classification of one annotation argument expression into its folded compile-time
 * value, or None when the expression is not a compile-time constant.
 */
module ConstantExtraction {
  import opened Syntax

  /** The value the binding trace holds for a node in its compile-time value slice. */
  function CompileTimeValueOf(compileTimeValue: map<NodeId, CompileTimeConstant>, id: NodeId): (r: Option<CompileTimeConstant>)
    ensures r.Some? <==> id in compileTimeValue
    ensures r.Some? ==> r.value == compileTimeValue[id]
  {
    if id in compileTimeValue then Some(compileTimeValue[id]) else None
  }

  /**
   * A literal and a string template give the value folded for that very node; a
   * parenthesized expression gives what its inner expression gives, and None when it
   * is empty; every other node gives None. The expected type only drives literal
   * coercion during type-checking, whose outcome is already in `compileTimeValue`.
   */
  function ResolveAnnotationArgument(expression: Element, expectedType: JetType,
                                     compileTimeValue: map<NodeId, CompileTimeConstant>): (r: Option<CompileTimeConstant>)
    ensures r.Some? ==> r.value in compileTimeValue.Values
    ensures expression.ConstantExpression? ==> r == CompileTimeValueOf(compileTimeValue, expression.id)
    ensures expression.StringTemplateExpression? ==> r == CompileTimeValueOf(compileTimeValue, expression.id)
    ensures expression.ParenthesizedExpression? && expression.expression.None? ==> r == None
    ensures !(expression.ConstantExpression? || expression.StringTemplateExpression? || expression.ParenthesizedExpression?)
            ==> r == None
    decreases expression
  {
    match expression
    case ConstantExpression(id) => CompileTimeValueOf(compileTimeValue, id)
    case StringTemplateExpression(id, _) => CompileTimeValueOf(compileTimeValue, id)
    case ParenthesizedExpression(_, inner) =>
      if inner.None? then None else ResolveAnnotationArgument(inner.value, expectedType, compileTimeValue)
    case _ => None
  }

  /** Reference definition: the expression left after peeling every layer of parentheses. */
  function Unparenthesized(expression: Element): (r: Option<Element>)
    ensures r.Some? ==> !r.value.ParenthesizedExpression?
    decreases expression
  {
    match expression
    case ParenthesizedExpression(_, inner) => if inner.None? then None else Unparenthesized(inner.value)
    case _ => Some(expression)
  }

  /** Reference definition: is this, with no parentheses around it, a folded node kind. */
  predicate IsFoldedKind(e: Element) {
    e.ConstantExpression? || e.StringTemplateExpression?
  }

  /**
   * The extractor equals "peel all parentheses, then look up the node when it is a
   * literal or a string template, else None".
   */
  lemma {:induction false} ArgumentIsFoldedValueOfUnparenthesized(expression: Element, expectedType: JetType,
                                                                  compileTimeValue: map<NodeId, CompileTimeConstant>)
    ensures ResolveAnnotationArgument(expression, expectedType, compileTimeValue)
            == match Unparenthesized(expression)
               case None => None
               case Some(e) => if IsFoldedKind(e) then CompileTimeValueOf(compileTimeValue, e.id) else None
    decreases expression
  {
    match expression
    case ParenthesizedExpression(_, inner) =>
      if inner.Some? {
        ArgumentIsFoldedValueOfUnparenthesized(inner.value, expectedType, compileTimeValue);
      }
    case _ =>
  }

  /** `expression` wrapped in one pair of parentheses per id in `ids`, innermost last. */
  function Parenthesize(expression: Element, ids: seq<NodeId>): (r: Element)
    ensures |ids| > 0 ==> r.ParenthesizedExpression?
  {
    if ids == [] then expression
    else ParenthesizedExpression(ids[0], Some(Parenthesize(expression, ids[1..])))
  }

  /** Parentheses are transparent at any depth: `((1))` gives what `1` gives. */
  lemma {:induction false} ParenthesesAreTransparent(expression: Element, ids: seq<NodeId>, expectedType: JetType,
                                                     compileTimeValue: map<NodeId, CompileTimeConstant>)
    ensures ResolveAnnotationArgument(Parenthesize(expression, ids), expectedType, compileTimeValue)
            == ResolveAnnotationArgument(expression, expectedType, compileTimeValue)
    decreases |ids|
  {
    if ids != [] {
      ParenthesesAreTransparent(expression, ids[1..], expectedType, compileTimeValue);
    }
  }

  /** Empty parentheses at any depth give None. */
  lemma {:induction false} EmptyParenthesesAreNotConstant(id: NodeId, ids: seq<NodeId>, expectedType: JetType,
                                                          compileTimeValue: map<NodeId, CompileTimeConstant>)
    ensures ResolveAnnotationArgument(Parenthesize(ParenthesizedExpression(id, None), ids), expectedType, compileTimeValue) == None
  {
    ParenthesesAreTransparent(ParenthesizedExpression(id, None), ids, expectedType, compileTimeValue);
  }

  /**
   * The expected type never changes the result: a literal gives what the table holds for
   * it whatever type-checking against the expected type returned.
   */
  lemma {:induction false} ArgumentIgnoresExpectedType(expression: Element, t1: JetType, t2: JetType,
                                                       compileTimeValue: map<NodeId, CompileTimeConstant>)
    ensures ResolveAnnotationArgument(expression, t1, compileTimeValue)
            == ResolveAnnotationArgument(expression, t2, compileTimeValue)
    decreases expression
  {
    match expression
    case ParenthesizedExpression(_, inner) =>
      if inner.Some? {
        ArgumentIgnoresExpectedType(inner.value, t1, t2, compileTimeValue);
      }
    case _ =>
  }

  /**
   * The result depends only on the table entry of the node left after peeling parentheses;
   * when nothing is left (empty parentheses), on no entry at all.
   */
  lemma {:induction false} ArgumentDependsOnlyOnItsOwnNode(expression: Element, expectedType: JetType,
                                                           v1: map<NodeId, CompileTimeConstant>,
                                                           v2: map<NodeId, CompileTimeConstant>)
    requires Unparenthesized(expression).Some? ==>
               var e := Unparenthesized(expression).value;
               CompileTimeValueOf(v1, e.id) == CompileTimeValueOf(v2, e.id)
    ensures ResolveAnnotationArgument(expression, expectedType, v1)
            == ResolveAnnotationArgument(expression, expectedType, v2)
    decreases expression
  {
    match expression
    case ParenthesizedExpression(_, inner) =>
      if inner.Some? {
        ArgumentDependsOnlyOnItsOwnNode(inner.value, expectedType, v1, v2);
      }
    case _ =>
  }
}
