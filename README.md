# Annotation resolution in the Kotlin front end, modelled in Dafny

This project models `AnnotationResolver`, the pass of the Kotlin compiler front end that
turns annotation syntax (`@Name(args…)` entries) into `AnnotationDescriptor`s. Each descriptor
holds an annotation type and an ordered list of compile-time constants. The pass records the
descriptors in the node-keyed binding trace. The pass has five parts, and the model keeps them:

- **The declaration walker** (`process`) scans every class and object declaration with the
  class-level skip set {declaration with body, property}. It scans every property initializer
  in its declaring scope, every parameter default value in its function's declaring scope, and
  every function body in the function's inner scope. These three kinds of scan skip nothing.
- **The skip-bounded scanner** (`resolveAnnotationExpressions`) never enters a node whose
  category is in the skip set. At every annotated expression it meets, it resolves the entries,
  records the descriptor list under that expression, and then goes on into the children.
  Nested annotation layers are therefore resolved as well.
- **The entry resolver** (`resolveAnnotations`, `resolveAnnotationStub`, `resolveType`) makes
  one fresh descriptor per entry, in entry order. The type is the resulting candidate's return
  type when overload resolution succeeded, and the "Unresolved annotation type" error type
  otherwise.
- **The argument binder** (`resolveArguments`) always runs. It flattens the resulting call's
  parameter-to-argument-expressions binding into one constant list: parameter by parameter,
  then expression by expression.
- **The constant extractor** (`resolveAnnotationArgument`) and **the stub creator**
  (`createAnnotationStubs`). A literal or a string template gives the folded value the trace
  holds for that very node. Parentheses are peeled. Anything else gives no constant. The stub
  creator allocates one empty descriptor per entry and records that same object under the
  entry.

Files and modules:

- `syntax.dfy` (`Syntax`): the syntax tree as an immutable datatype.
  - A node's PSI identity is its `id`.
  - Scopes are tokens.
  - Overload resolution and inner-scope construction are function-typed oracles.
- `constant_extraction.dfy` (`ConstantExtraction`): the extractor, as a pure function.
- `argument_binding.dfy` (`ArgumentBinding`): the constant list the binder builds, as a function.
- `traversal.dfy` (`Traversal`): what the scanner visits, compared against a reference
  definition based on reachability.
- `resolution_spec.dfy` (`ResolutionSpec`): values that specify the resolver.
  - What an entry resolves to.
  - The table one scan records.
  - The list of scans the walker performs.
- `resolver.dfy` (`Resolver`): the imperative part.
  - `AnnotationDescriptor` is a class filled in place through its setters.
  - `BindingTrace` is a class whose maps the record calls update.
  - `AnnotationResolver` is a class whose methods carry the loops and the recursion of the
    source.

The binding trace keeps a ghost log of the keys of its annotated-expression records, one per
record call. Two facts together show that one scan records every annotated expression exactly
once: the scanner's log equals the ids of `Traversal.Visits`, and those ids are distinct in a
well-formed tree.

A function body is scanned with an empty skip set
(`AnnotationResolver.java` line 113). So local declarations inside a body are resolved during
the scan of the enclosing function's body, in that function's inner scope; see
`ResolutionSpec.ProcessSkipSets` and `ResolutionSpec.FunctionScopes`.

## Model

| member | source | states |
|---|---|---|
| ConstantExtraction.ResolveAnnotationArgument | compiler/frontend/src/org/jetbrains/jet/lang/resolve/AnnotationResolver.java:195-240 | a literal and a string template give the folded value of that same node; empty parentheses give no constant; every other kind of node gives no constant; any constant given is one of the folded values |
| ConstantExtraction.ArgumentIsFoldedValueOfUnparenthesized | compiler/frontend/src/org/jetbrains/jet/lang/resolve/AnnotationResolver.java:219-237 | the extractor equals the reference definition: peel every layer of parentheses, then look up the node if it is a literal or a string template, otherwise no constant |
| ConstantExtraction.ParenthesesAreTransparent | compiler/frontend/src/org/jetbrains/jet/lang/resolve/AnnotationResolver.java:220-224 | any number of parentheses around an expression gives what the expression gives, so `((1))` gives what `1` gives |
| ConstantExtraction.EmptyParenthesesAreNotConstant | compiler/frontend/src/org/jetbrains/jet/lang/resolve/AnnotationResolver.java:221-222 | empty parentheses, at any depth of further parentheses, give no constant |
| ConstantExtraction.ArgumentIgnoresExpectedType | compiler/frontend/src/org/jetbrains/jet/lang/resolve/AnnotationResolver.java:199-206 | what the type check of a literal returns is discarded: the result is the folded-value table's entry for that literal node, whatever the expected type, given the table the type check leaves behind (fixed in this model) |
| ConstantExtraction.ArgumentDependsOnlyOnItsOwnNode | compiler/frontend/src/org/jetbrains/jet/lang/resolve/AnnotationResolver.java:196-240 | two folded-value tables that agree on the node left after peeling parentheses give the same result; when only empty parentheses are left, any two tables give the same result |
| ArgumentBinding.BoundConstantsLength | compiler/frontend/src/org/jetbrains/jet/lang/resolve/AnnotationResolver.java:182-192 | the constant list has exactly as many elements as there are argument expressions across all parameter bindings |
| ArgumentBinding.BoundConstantAt | compiler/frontend/src/org/jetbrains/jet/lang/resolve/AnnotationResolver.java:183-191 | the k-th expression of the p-th parameter lands at position (number of expressions of the parameters before p) + k, extracted against the p-th parameter's type |
| Traversal.VisitsAreUnskippedAnnotated | compiler/frontend/src/org/jetbrains/jet/lang/resolve/AnnotationResolver.java:121-135 | the scanner visits a node if and only if it is an annotated expression reachable from the root through nodes none of which is skipped; nested annotated expressions are included |
| Traversal.SkippedSubtreeIsNeverVisited | compiler/frontend/src/org/jetbrains/jet/lang/resolve/AnnotationResolver.java:122-126 | in a well-formed tree, no node the scanner records lies inside a subtree whose root is skipped |
| Traversal.VisitsAreDistinct | compiler/frontend/src/org/jetbrains/jet/lang/resolve/AnnotationResolver.java:130-134 | in a well-formed tree, one scan records no node twice |
| Traversal.SiblingIdsDisjoint | compiler/frontend/src/org/jetbrains/jet/lang/resolve/AnnotationResolver.java:127 | in a well-formed tree, the subtrees of two different children share no node |
| ResolutionSpec.TableKeys | compiler/frontend/src/org/jetbrains/jet/lang/resolve/AnnotationResolver.java:133 | the table a scan leaves has exactly the visited ids as keys |
| ResolutionSpec.TableConcat | compiler/frontend/src/org/jetbrains/jet/lang/resolve/AnnotationResolver.java:133 | recording the visits of `a` and then those of `b` leaves the union of the two tables, later records overriding earlier ones |
| ResolutionSpec.TableAt | compiler/frontend/src/org/jetbrains/jet/lang/resolve/AnnotationResolver.java:130-133 | when no id is visited twice, every visited expression is recorded with its own entries and the scan's scope |
| ResolutionSpec.ScanTableOfWellFormedTree | compiler/frontend/src/org/jetbrains/jet/lang/resolve/AnnotationResolver.java:118-137 | in a well-formed tree, every node one scan visits is an annotated expression and is recorded with its own entries in the scan's scope |
| ResolutionSpec.RecordAllAt | compiler/frontend/src/org/jetbrains/jet/lang/resolve/AnnotationResolver.java:253-257 | for distinct entries, the object recorded under the i-th entry is the i-th object returned |
| ResolutionSpec.RecordAllKeys | compiler/frontend/src/org/jetbrains/jet/lang/resolve/AnnotationResolver.java:256 | the stub records have exactly the entries' ids as keys |
| ResolutionSpec.ClassUnits | compiler/frontend/src/org/jetbrains/jet/lang/resolve/AnnotationResolver.java:76-87 | one scan per class or object declaration, in table order, rooted at the declaration, in its scope for initializers, with the class-level skip set |
| ResolutionSpec.PropertyUnitsAreUnbounded | compiler/frontend/src/org/jetbrains/jet/lang/resolve/AnnotationResolver.java:88-95 | every property-initializer scan has an empty skip set |
| ResolutionSpec.PropertyScopes | compiler/frontend/src/org/jetbrains/jet/lang/resolve/AnnotationResolver.java:88-95 | a present property initializer is scanned in that property's declaring scope, with nothing skipped |
| ResolutionSpec.ParameterUnitsAreUnbounded | compiler/frontend/src/org/jetbrains/jet/lang/resolve/AnnotationResolver.java:103-108 | every default-value scan has an empty skip set and the declaring scope |
| ResolutionSpec.ParameterUnitScanned | compiler/frontend/src/org/jetbrains/jet/lang/resolve/AnnotationResolver.java:103-108 | every present default value is scanned in the declaring scope with nothing skipped |
| ResolutionSpec.FunctionUnitsAreUnbounded | compiler/frontend/src/org/jetbrains/jet/lang/resolve/AnnotationResolver.java:97-115 | every scan made for a function has an empty skip set |
| ResolutionSpec.ProcessSkipSets | compiler/frontend/src/org/jetbrains/jet/lang/resolve/AnnotationResolver.java:69-115 | the walker's class and object scans come first and use the class-level skip set; every later scan uses an empty one |
| ResolutionSpec.FunctionScopes | compiler/frontend/src/org/jetbrains/jet/lang/resolve/AnnotationResolver.java:97-115 | a present function body is scanned in the function's inner scope, and every present parameter default value in its declaring scope |
| Resolver.BindingTrace.RecordAnnotationExpression | compiler/frontend/src/org/jetbrains/jet/lang/resolve/AnnotationResolver.java:133 | the annotated-expression slice gains or replaces one key, the log gains that key, and the entry slice is unchanged |
| Resolver.BindingTrace.RecordAnnotation | compiler/frontend/src/org/jetbrains/jet/lang/resolve/AnnotationResolver.java:256 | the entry slice gains or replaces one key, and the annotated-expression slice is unchanged |
| Resolver.AnnotationResolver.Process | compiler/frontend/src/org/jetbrains/jet/lang/resolve/AnnotationResolver.java:69-116 | afterwards the trace holds exactly what the walker's scans (`ProcessUnits`) record, in order: the log extended by their visits, each recorded key holding the resolution of its entries in its scan's scope, every other key and the entry slice untouched |
| Resolver.AnnotationResolver.ResolveDeclarations | compiler/frontend/src/org/jetbrains/jet/lang/resolve/AnnotationResolver.java:76-87 | the trace gains the records of one class-level scan per declaration, in order |
| Resolver.AnnotationResolver.ResolveProperties | compiler/frontend/src/org/jetbrains/jet/lang/resolve/AnnotationResolver.java:88-95 | the trace gains the records of a scan of every present initializer in its declaring scope, in order |
| Resolver.AnnotationResolver.ResolveFunctions | compiler/frontend/src/org/jetbrains/jet/lang/resolve/AnnotationResolver.java:97-115 | the trace gains, function by function, the records of the default-value scans and then of the body scan |
| Resolver.AnnotationResolver.ResolveFunction | compiler/frontend/src/org/jetbrains/jet/lang/resolve/AnnotationResolver.java:98-114 | the trace gains the records of the parameters' default-value scans and then of the body scan in the inner scope |
| Resolver.AnnotationResolver.ResolveParameters | compiler/frontend/src/org/jetbrains/jet/lang/resolve/AnnotationResolver.java:103-108 | the trace gains the records of a scan of each present default value, in parameter order |
| Resolver.AnnotationResolver.ResolveOptional | compiler/frontend/src/org/jetbrains/jet/lang/resolve/AnnotationResolver.java:91-94 | a present expression adds the records of one unbounded scan; an absent one leaves the trace as it was |
| Resolver.AnnotationResolver.ResolveUnit | compiler/frontend/src/org/jetbrains/jet/lang/resolve/AnnotationResolver.java:118-119 | one more scan on a trace holding earlier scans: its visits are appended to the log and its table is laid over the earlier one, and the earlier descriptors keep their content |
| Resolver.AnnotationResolver.ResolveAnnotationExpressions | compiler/frontend/src/org/jetbrains/jet/lang/resolve/AnnotationResolver.java:118-137 | the scan appends to the log exactly the ids of `Visits` and records under each visited id descriptors holding the resolution of its entries in the scan's scope; nothing else in the trace changes |
| Resolver.AnnotationResolver.ResolveInChildren | compiler/frontend/src/org/jetbrains/jet/lang/resolve/AnnotationResolver.java:121-128 | scanning a node's children one after the other adds exactly the visits of the whole node |
| Resolver.AnnotationResolver.ResolveChild | compiler/frontend/src/org/jetbrains/jet/lang/resolve/AnnotationResolver.java:127 | the scan of the next child extends what the children before it recorded by that child's visits |
| Resolver.AnnotationResolver.ResolveModifierListAnnotations | compiler/frontend/src/org/jetbrains/jet/lang/resolve/AnnotationResolver.java:140-146 | an absent modifier list gives the empty list; a present one gives fresh, pairwise distinct descriptors holding its entries' resolutions |
| Resolver.AnnotationResolver.ResolveAnnotations | compiler/frontend/src/org/jetbrains/jet/lang/resolve/AnnotationResolver.java:148-158 | one fresh descriptor per entry, pairwise distinct and in entry order, each holding its entry's resolution; an empty entry list gives the empty list; the trace is not written |
| Resolver.AnnotationResolver.ResolveAnnotationStub | compiler/frontend/src/org/jetbrains/jet/lang/resolve/AnnotationResolver.java:160-164 | the descriptor ends up holding the entry's resolution: the type from `resolveType` and the constant list from the binding |
| Resolver.AnnotationResolver.ResolveType | compiler/frontend/src/org/jetbrains/jet/lang/resolve/AnnotationResolver.java:166-178 | the type is always set: the return type on success, the "Unresolved annotation type" error type otherwise; the results returned are the oracle's, and the constant list is untouched |
| Resolver.AnnotationResolver.ResolveArguments | compiler/frontend/src/org/jetbrains/jet/lang/resolve/AnnotationResolver.java:180-193 | the constant list becomes the flattened binding constants, whether or not resolution succeeded; the type is untouched |
| Resolver.AnnotationResolver.CreateModifierListStubs | compiler/frontend/src/org/jetbrains/jet/lang/resolve/AnnotationResolver.java:242-248 | an absent modifier list gives no stubs and records nothing; a present one gives fresh, empty, pairwise distinct stubs, one per entry, each recorded under its entry |
| Resolver.AnnotationResolver.CreateAnnotationStubs | compiler/frontend/src/org/jetbrains/jet/lang/resolve/AnnotationResolver.java:250-259 | one fresh, empty, pairwise distinct descriptor per entry, recorded under the entry's id, so the recorded object is the returned one; the annotated-expression slice is untouched |
| Resolver.AnnotationResolver.CreateAndFillStub | compiler/frontend/src/org/jetbrains/jet/lang/resolve/AnnotationResolver.java:250-259 | a stub recorded for an entry and then filled by `resolveAnnotationStub` (lines 160-164) is still the object recorded under that entry, and it now holds the entry's resolution; the other stubs stay empty |

## Left out

- `compiler/tests/org/jetbrains/jet/test/Tmpdir.java` is not part of this model. It is a test fixture doing file-system I/O and holds no resolution logic.
- Overload resolution (`CallResolver.resolveCall`, `CallMaker`) is a function-typed oracle from a scope and an entry to the results. Its own writes to the trace are not modelled.
- Building a function's inner scope (`FunctionDescriptorUtil.getFunctionInnerScope`) is also an oracle, and `DataFlowInfo` is dropped.
- Scopes are opaque tokens that are only passed on. A class's scope for initializers is given with its declaration.
- ConstantExtraction.ResolveAnnotationArgument: literal coercion by expression typing against the expected type is not modelled. The folded values are a table fixed before the pass, not values the type check adds to the trace during it.
- `Class.isAssignableFrom` on PSI classes is not modelled. It is replaced by a category tag on the two node kinds a skip set can name.
- The order of Java `HashMap` iteration is given as a sequence. This covers the class, object, property and function tables and `getValueArguments()`.
- Java `null` for modifier lists, initializers, default values, bodies and inner expressions is an `Option`.
- The dependency-injection setters (lines 54-67) are replaced by a constructor that takes the collaborators.
- The commented-out visitor methods (lines 209-217) are left out.
- The diagnostic TODOs (lines 202-203, 234-235) report nothing and are left out.
- `AnnotationDescriptor.java` is not part of this model. The descriptor is modelled as starting with no type and no arguments, with two setters.
- Resolver.AnnotationResolver.Process: the `assert declaringScope != null` of lines 90 and 101 becomes the precondition that every property and function has a declaring scope.
- Resolver.AnnotationResolver.Process: a declaration nested in a class is scanned twice if it also appears in a table. The contract covers this: a later scan's records override an earlier one's, and the log keeps both.
- The walker's single method is split into one method per kind of scan. The order of the scans and their arguments are unchanged.
