/**
 * The constant list an annotation gets from its resolved call: every argument expression
 * of every parameter binding, extracted against that parameter's type, flattened in
 * binding order and then in expression order within one parameter.
 */
module ArgumentBinding {
  import opened Syntax
  import opened ConstantExtraction

  /** The constants of the expressions bound to one parameter, in expression order. */
  function BindingConstants(binding: ParameterBinding, compileTimeValue: map<NodeId, CompileTimeConstant>)
    : (r: seq<Option<CompileTimeConstant>>)
    ensures |r| == |binding.argumentExpressions|
    ensures forall k :: 0 <= k < |r| ==>
              r[k] == ResolveAnnotationArgument(binding.argumentExpressions[k], binding.parameterType, compileTimeValue)
  {
    seq(|binding.argumentExpressions|,
        k requires 0 <= k < |binding.argumentExpressions| =>
          ResolveAnnotationArgument(binding.argumentExpressions[k], binding.parameterType, compileTimeValue))
  }

  /** The constants of a whole binding, built the way the binder appends them. */
  function BoundConstants(bindings: seq<ParameterBinding>, compileTimeValue: map<NodeId, CompileTimeConstant>)
    : seq<Option<CompileTimeConstant>>
  {
    if bindings == [] then []
    else BoundConstants(bindings[..|bindings| - 1], compileTimeValue)
         + BindingConstants(bindings[|bindings| - 1], compileTimeValue)
  }

  /** The number of argument expressions across all parameter bindings. */
  function ArgumentCount(bindings: seq<ParameterBinding>): nat {
    if bindings == [] then 0
    else ArgumentCount(bindings[..|bindings| - 1]) + |bindings[|bindings| - 1].argumentExpressions|
  }

  /** One constant per bound argument expression: no expression dropped, none added. */
  lemma {:induction false} BoundConstantsLength(bindings: seq<ParameterBinding>,
                                                compileTimeValue: map<NodeId, CompileTimeConstant>)
    ensures |BoundConstants(bindings, compileTimeValue)| == ArgumentCount(bindings)
    decreases |bindings|
  {
    if bindings != [] {
      BoundConstantsLength(bindings[..|bindings| - 1], compileTimeValue);
    }
  }

  /** The counts of a prefix never exceed the count of the whole. */
  lemma {:induction false} ArgumentCountOfPrefix(bindings: seq<ParameterBinding>, p: nat)
    requires p < |bindings|
    ensures ArgumentCount(bindings[..p]) + |bindings[p].argumentExpressions| <= ArgumentCount(bindings)
    decreases |bindings|
  {
    var last := |bindings| - 1;
    assert bindings[..|bindings|][..last] == bindings[..last];
    if p < last {
      assert bindings[..last][..p] == bindings[..p];
      ArgumentCountOfPrefix(bindings[..last], p);
    } else {
      assert bindings[..p] == bindings[..last];
    }
  }

  /**
   * Ordering: the k-th expression bound to the p-th parameter sits at position
   * (number of expressions bound to the parameters before p) + k, and is extracted
   * against the p-th parameter's type.
   */
  lemma {:induction false} BoundConstantAt(bindings: seq<ParameterBinding>,
                                           compileTimeValue: map<NodeId, CompileTimeConstant>, p: nat, k: nat)
    requires p < |bindings| && k < |bindings[p].argumentExpressions|
    ensures ArgumentCount(bindings[..p]) + k < |BoundConstants(bindings, compileTimeValue)|
    ensures BoundConstants(bindings, compileTimeValue)[ArgumentCount(bindings[..p]) + k]
            == ResolveAnnotationArgument(bindings[p].argumentExpressions[k], bindings[p].parameterType, compileTimeValue)
    decreases |bindings|
  {
    var last := |bindings| - 1;
    var front := bindings[..last];
    BoundConstantsLength(bindings, compileTimeValue);
    BoundConstantsLength(front, compileTimeValue);
    ArgumentCountOfPrefix(bindings, p);
    if p < last {
      assert front[..p] == bindings[..p];
      BoundConstantAt(front, compileTimeValue, p, k);
    } else {
      assert bindings[..p] == front;
    }
  }
}
