/**
 * The annotation resolver itself: descriptors filled in place, the binding trace the
 * results are recorded in, and the resolver's operations over them.
 */
module Resolver {
  import opened Syntax
  import opened ConstantExtraction
  import opened ArgumentBinding
  import opened Traversal
  import opened ResolutionSpec

  /** A resolved annotation, allocated empty and then filled in place: type first, then arguments. */
  class AnnotationDescriptor {
    var annotationType: Option<JetType>
    var valueArguments: seq<Option<CompileTimeConstant>>

    constructor ()
      ensures annotationType == None && valueArguments == []
    {
      annotationType := None;
      valueArguments := [];
    }

    method SetAnnotationType(t: JetType)
      modifies this
      ensures annotationType == Some(t) && valueArguments == old(valueArguments)
    {
      annotationType := Some(t);
    }

    method SetValueArguments(arguments: seq<Option<CompileTimeConstant>>)
      modifies this
      ensures valueArguments == arguments && annotationType == old(annotationType)
    {
      valueArguments := arguments;
    }
  }

  /** The descriptor holds exactly the resolved content `r`. */
  ghost predicate Holds(d: AnnotationDescriptor, r: Resolved)
    reads d
  {
    d.annotationType == Some(r.annotationType) && d.valueArguments == r.valueArguments
  }

  /** The descriptors hold, one by one, the resolved contents `rs`. */
  ghost predicate HoldAll(ds: seq<AnnotationDescriptor>, rs: seq<Resolved>)
    reads set i | 0 <= i < |ds| :: ds[i]
  {
    |ds| == |rs| && forall i :: 0 <= i < |ds| ==> Holds(ds[i], rs[i])
  }

  /**
   * The node-keyed result table, with the three slices this pass touches: compile-time
   * values (folded by expression typing before the resolver reads them), descriptor lists
   * of annotated expressions, and descriptors of annotation entries.
   */
  class BindingTrace {
    const compileTimeValue: map<NodeId, CompileTimeConstant>
    var annotationExpression: map<NodeId, seq<AnnotationDescriptor>>
    var annotation: map<NodeId, AnnotationDescriptor>
    /** The keys of the annotated-expression slice, one per record call, in call order. */
    ghost var annotationExpressionLog: seq<NodeId>

    constructor (compileTimeValue: map<NodeId, CompileTimeConstant>)
      ensures this.compileTimeValue == compileTimeValue
      ensures annotationExpression == map[] && annotation == map[] && annotationExpressionLog == []
    {
      this.compileTimeValue := compileTimeValue;
      annotationExpression := map[];
      annotation := map[];
      annotationExpressionLog := [];
    }

    method RecordAnnotationExpression(expression: NodeId, descriptors: seq<AnnotationDescriptor>)
      modifies this
      ensures annotationExpression == old(annotationExpression)[expression := descriptors]
      ensures annotationExpressionLog == old(annotationExpressionLog) + [expression]
      ensures annotation == old(annotation)
    {
      annotationExpression := annotationExpression[expression := descriptors];
      annotationExpressionLog := annotationExpressionLog + [expression];
    }

    method RecordAnnotation(entry: NodeId, descriptor: AnnotationDescriptor)
      modifies this
      ensures annotation == old(annotation)[entry := descriptor]
      ensures annotationExpression == old(annotationExpression)
      ensures annotationExpressionLog == old(annotationExpressionLog)
    {
      annotation := annotation[entry := descriptor];
    }
  }

  /** Every descriptor the annotated-expression slice refers to. */
  ghost function RecordedDescriptors(trace: BindingTrace): set<AnnotationDescriptor>
    reads trace
  {
    set k, i | k in trace.annotationExpression && 0 <= i < |trace.annotationExpression[k]| :: trace.annotationExpression[k][i]
  }

  /**
   * Relative to a starting state (`log0`, `table0`, `annotation0`), the trace holds what
   * scans with record keys `ids` and result table `t` record: the keys appended to the
   * log, the table laid over the old one with every other key untouched, each recorded
   * descriptor list holding its table entry, and the entry slice unchanged.
   */
  ghost predicate Recorded(trace: BindingTrace, resolveCall: CallResolver, log0: seq<NodeId>,
                           table0: map<NodeId, seq<AnnotationDescriptor>>,
                           annotation0: map<NodeId, AnnotationDescriptor>, ids: seq<NodeId>, t: map<NodeId, Site>)
    reads trace, RecordedDescriptors(trace)
  {
    && trace.annotationExpressionLog == log0 + ids
    && trace.annotationExpression.Keys == table0.Keys + t.Keys
    && (forall k :: k in table0 && k !in t ==> trace.annotationExpression[k] == table0[k])
    && (forall k :: k in t ==>
          HoldAll(trace.annotationExpression[k],
                  ResolvedEntries(resolveCall, trace.compileTimeValue, t[k].scope, t[k].entries)))
    && trace.annotation == annotation0
  }

  /** The analysis context: the shared trace and the declaration tables. */
  datatype TopDownAnalysisContext = TopDownAnalysisContext(trace: BindingTrace, declarations: Declarations)

  class AnnotationResolver {
    /** Overload resolution of annotation constructor calls. */
    const callResolver: CallResolver
    /** Construction of a function's inner scope. */
    const functionInnerScope: InnerScopeProvider
    const context: TopDownAnalysisContext

    constructor (callResolver: CallResolver, functionInnerScope: InnerScopeProvider, context: TopDownAnalysisContext)
      ensures this.callResolver == callResolver && this.functionInnerScope == functionInnerScope
      ensures this.context == context
    {
      this.callResolver := callResolver;
      this.functionInnerScope := functionInnerScope;
      this.context := context;
    }

    /** Relative to a starting state, the trace holds what the scans `units` record. */
    ghost predicate Walked(trace: BindingTrace, log0: seq<NodeId>, table0: map<NodeId, seq<AnnotationDescriptor>>,
                           annotation0: map<NodeId, AnnotationDescriptor>, units: seq<ScanUnit>)
      reads trace, RecordedDescriptors(trace)
    {
      Recorded(trace, callResolver, log0, table0, annotation0, Ids(UnitsVisits(units)),
               UnitsTable(units))
    }

    /**
     * The declaration walker: every class and object declaration is scanned with the
     * class-level skip set, every property initializer with an empty one in its declaring
     * scope, every parameter default value in its function's declaring scope and every
     * function body in the function's inner scope.
     */
    method Process()
      requires ScopesKnown(context.declarations)
      modifies context.trace
      ensures Walked(context.trace, old(context.trace.annotationExpressionLog), old(context.trace.annotationExpression),
                     old(context.trace.annotation), ProcessUnits(context.declarations, functionInnerScope))
    {
      var trace := context.trace;
      var d := context.declarations;
      ghost var log0 := trace.annotationExpressionLog;
      ghost var table0 := trace.annotationExpression;
      ghost var annotation0 := trace.annotation;
      assert log0 + [] == log0;
      ghost var classUnits := ClassUnits(d.classes);
      ghost var objectUnits := ClassUnits(d.objects);
      ghost var propertyUnits := PropertyUnits(d.properties, d.declaringScopes);
      assert [] + classUnits == classUnits;
      ResolveDeclarations(trace, d.classes, log0, table0, annotation0, []);
      ResolveDeclarations(trace, d.objects, log0, table0, annotation0, classUnits);
      ResolveProperties(trace, d.properties, d.declaringScopes, log0, table0, annotation0, classUnits + objectUnits);
      ResolveFunctions(trace, d.functions, d.declaringScopes, log0, table0, annotation0,
                       classUnits + objectUnits + propertyUnits);
    }

    /** The class (or object) declarations in order, each scanned with the class-level skip set. */
    method ResolveDeclarations(trace: BindingTrace, declarations: seq<ClassEntry>,
                               ghost log0: seq<NodeId>, ghost table0: map<NodeId, seq<AnnotationDescriptor>>,
                               ghost annotation0: map<NodeId, AnnotationDescriptor>, ghost units: seq<ScanUnit>)
      requires Walked(trace, log0, table0, annotation0, units)
      modifies trace
      ensures Walked(trace, log0, table0, annotation0, units + ClassUnits(declarations))
    {
      var classLevelSkips := ClassLevelSkips;
      ghost var done := units;
      assert units + ClassUnits(declarations[..0]) == units;
      var i := 0;
      while i < |declarations|
        invariant 0 <= i <= |declarations|
        invariant done == units + ClassUnits(declarations[..i])
        invariant Walked(trace, log0, table0, annotation0, done)
      {
        var entry := declarations[i];
        ghost var u := ScanUnit(entry.declaration, entry.scopeForInitializers, classLevelSkips);
        ResolveUnit(trace, log0, table0, annotation0, Ids(UnitsVisits(done)),
                    UnitsTable(done),
                    entry.declaration, entry.scopeForInitializers, classLevelSkips);
        UnitsSnoc(done, u);
        assert declarations[..i + 1][..i] == declarations[..i];
        AppendAssociates(units, ClassUnits(declarations[..i]), [u]);
        done := done + [u];
        assert done == units + ClassUnits(declarations[..i + 1]);
        i := i + 1;
      }
      assert declarations[..i] == declarations;
    }

    /** The properties in order: each present initializer scanned in its declaring scope, nothing skipped. */
    method ResolveProperties(trace: BindingTrace, properties: seq<PropertyEntry>, declaringScopes: map<NodeId, Scope>,
                             ghost log0: seq<NodeId>, ghost table0: map<NodeId, seq<AnnotationDescriptor>>,
                             ghost annotation0: map<NodeId, AnnotationDescriptor>, ghost units: seq<ScanUnit>)
      requires forall p :: p in properties ==> p.id in declaringScopes
      requires Walked(trace, log0, table0, annotation0, units)
      modifies trace
      ensures Walked(trace, log0, table0, annotation0, units + PropertyUnits(properties, declaringScopes))
    {
      ghost var done := units;
      assert units + [] == units;
      var i := 0;
      while i < |properties|
        invariant 0 <= i <= |properties|
        invariant done == units + PropertyUnits(properties[..i], declaringScopes)
        invariant Walked(trace, log0, table0, annotation0, done)
      {
        var declaration := properties[i];
        var declaringScope := declaringScopes[declaration.id];
        ghost var present := OptionalUnit(declaration.initializer, declaringScope);
        ResolveOptional(trace, declaration.initializer, declaringScope, log0, table0, annotation0, done);
        assert properties[..i + 1][..i] == properties[..i];
        AppendAssociates(units, PropertyUnits(properties[..i], declaringScopes), present);
        done := done + present;
        i := i + 1;
      }
      assert properties[..i] == properties;
    }

    /**
     * The functions in order: for each, its parameters' present default values in the
     * declaring scope, then its present body in the function's inner scope.
     */
    method ResolveFunctions(trace: BindingTrace, functions: seq<FunctionEntry>, declaringScopes: map<NodeId, Scope>,
                            ghost log0: seq<NodeId>, ghost table0: map<NodeId, seq<AnnotationDescriptor>>,
                            ghost annotation0: map<NodeId, AnnotationDescriptor>, ghost units: seq<ScanUnit>)
      requires forall f :: f in functions ==> f.id in declaringScopes
      requires Walked(trace, log0, table0, annotation0, units)
      modifies trace
      ensures Walked(trace, log0, table0, annotation0, units + FunctionUnits(functions, declaringScopes, functionInnerScope))
    {
      ghost var done := units;
      assert units + [] == units;
      var i := 0;
      while i < |functions|
        invariant 0 <= i <= |functions|
        invariant done == units + FunctionUnits(functions[..i], declaringScopes, functionInnerScope)
        invariant Walked(trace, log0, table0, annotation0, done)
      {
        var declaration := functions[i];
        var declaringScope := declaringScopes[declaration.id];
        ghost var present := FunctionUnit(declaration, declaringScope, functionInnerScope);
        ResolveFunction(trace, declaration, declaringScope, log0, table0, annotation0, done);
        assert functions[..i + 1][..i] == functions[..i];
        AppendAssociates(units, FunctionUnits(functions[..i], declaringScopes, functionInnerScope), present);
        done := done + present;
        i := i + 1;
      }
      assert functions[..i] == functions;
    }

    /** One function: its parameters' present default values in the declaring scope, then its present body in its inner scope. */
    method ResolveFunction(trace: BindingTrace, declaration: FunctionEntry, declaringScope: Scope,
                           ghost log0: seq<NodeId>, ghost table0: map<NodeId, seq<AnnotationDescriptor>>,
                           ghost annotation0: map<NodeId, AnnotationDescriptor>, ghost units: seq<ScanUnit>)
      requires Walked(trace, log0, table0, annotation0, units)
      modifies trace
      ensures Walked(trace, log0, table0, annotation0, units + FunctionUnit(declaration, declaringScope, functionInnerScope))
    {
      ghost var parameterUnits := ParameterUnits(declaration.valueParameters, declaringScope);
      ghost var bodyUnits := BodyUnits(declaration, declaringScope, functionInnerScope);
      ResolveParameters(trace, declaration.valueParameters, declaringScope, log0, table0, annotation0, units);
      var expression := declaration.bodyExpression;
      if expression.Some? {
        var innerScope := functionInnerScope(declaringScope, declaration.id);
        ResolveOptional(trace, expression, innerScope, log0, table0, annotation0, units + parameterUnits);
      } else {
        assert units + parameterUnits + bodyUnits == units + parameterUnits;
      }
      AppendAssociates(units, parameterUnits, bodyUnits);
    }

    /** A function's parameters in order, each present default value scanned in the declaring scope. */
    method ResolveParameters(trace: BindingTrace, parameters: seq<Parameter>, declaringScope: Scope,
                             ghost log0: seq<NodeId>, ghost table0: map<NodeId, seq<AnnotationDescriptor>>,
                             ghost annotation0: map<NodeId, AnnotationDescriptor>, ghost units: seq<ScanUnit>)
      requires Walked(trace, log0, table0, annotation0, units)
      modifies trace
      ensures Walked(trace, log0, table0, annotation0, units + ParameterUnits(parameters, declaringScope))
    {
      ghost var done := units;
      assert units + [] == units;
      var j := 0;
      while j < |parameters|
        invariant 0 <= j <= |parameters|
        invariant done == units + ParameterUnits(parameters[..j], declaringScope)
        invariant Walked(trace, log0, table0, annotation0, done)
      {
        ghost var present := OptionalUnit(parameters[j].defaultValue, declaringScope);
        ResolveOptional(trace, parameters[j].defaultValue, declaringScope, log0, table0, annotation0, done);
        assert parameters[..j + 1][..j] == parameters[..j];
        AppendAssociates(units, ParameterUnits(parameters[..j], declaringScope), present);
        done := done + present;
        j := j + 1;
      }
      assert parameters[..j] == parameters;
    }

    /** `if (expression != null)` scan it with nothing skipped: one scan when present, none when absent. */
    method ResolveOptional(trace: BindingTrace, expression: Option<Element>, scope: Scope,
                           ghost log0: seq<NodeId>, ghost table0: map<NodeId, seq<AnnotationDescriptor>>,
                           ghost annotation0: map<NodeId, AnnotationDescriptor>, ghost units: seq<ScanUnit>)
      requires Walked(trace, log0, table0, annotation0, units)
      modifies trace
      ensures Walked(trace, log0, table0, annotation0, units + OptionalUnit(expression, scope))
    {
      if expression.Some? {
        ResolveUnit(trace, log0, table0, annotation0, Ids(UnitsVisits(units)), UnitsTable(units),
                    expression.value, scope, {});
        UnitsSnoc(units, ScanUnit(expression.value, scope, {}));
      } else {
        assert units + [] == units;
      }
    }

    /**
     * One scan in a trace that already holds earlier scans (`ids`, `t`): afterwards it
     * holds those and this one, the later scan's records overriding the earlier ones.
     */
    method ResolveUnit(trace: BindingTrace, ghost log0: seq<NodeId>, ghost table0: map<NodeId, seq<AnnotationDescriptor>>,
                       ghost annotation0: map<NodeId, AnnotationDescriptor>,
                       ghost ids: seq<NodeId>, ghost t: map<NodeId, Site>,
                       root: Element, scope: Scope, skip: set<Category>)
      requires Recorded(trace, callResolver, log0, table0, annotation0, ids, t)
      modifies trace
      ensures var visits := Visits(root, skip);
              Recorded(trace, callResolver, log0, table0, annotation0, ids + Ids(visits),
                       t + Table(scope, visits))
      decreases root, 3
    {
      ghost var visits := Visits(root, skip);
      ghost var tr := Table(scope, visits);
      ghost var log1 := trace.annotationExpressionLog;
      ghost var table1 := trace.annotationExpression;
      label Before:
      ResolveAnnotationExpressions(trace, root, scope, skip);
      assert trace.annotationExpressionLog == log0 + (ids + Ids(visits)) by {
        assert log1 == log0 + ids;
        AppendAssociates(log0, ids, Ids(visits));
      }
      assert trace.annotationExpression.Keys == table0.Keys + (t + tr).Keys by {
        assert (t + tr).Keys == t.Keys + tr.Keys;
      }
      forall k | k in t + tr
        ensures HoldAll(trace.annotationExpression[k],
                        ResolvedEntries(callResolver, trace.compileTimeValue, (t + tr)[k].scope, (t + tr)[k].entries))
      {
        if k !in tr {
          assert trace.annotationExpression[k] == table1[k];
          assert old@Before(HoldAll(table1[k], ResolvedEntries(callResolver, trace.compileTimeValue, t[k].scope, t[k].entries)));
        }
      }
    }

    /**
     * The skip-bounded scanner. Every annotated expression reached without entering a
     * skipped node gets its resolved descriptor list recorded under its own id, and the
     * scan goes on below it so nested annotation layers are resolved too.
     */
    method ResolveAnnotationExpressions(trace: BindingTrace, expression: Element, scope: Scope, skip: set<Category>)
      modifies trace
      ensures var visits := Visits(expression, skip);
              Recorded(trace, callResolver, old(trace.annotationExpressionLog), old(trace.annotationExpression),
                       old(trace.annotation), Ids(visits), Table(scope, visits))
      decreases expression, 2
    {
      ghost var log0 := trace.annotationExpressionLog;
      ghost var table0 := trace.annotationExpression;
      ghost var annotation0 := trace.annotation;
      if Skipped(expression, skip) {
        assert log0 + [] == log0;
        return;
      }
      assert log0 + [] == log0;
      if expression.AnnotatedExpression? {
        var resolved := ResolveAnnotations(scope, expression.attributes, trace);
        trace.RecordAnnotationExpression(expression.id, resolved);
        assert Table(scope, [expression])
               == map[expression.id := Site(scope, expression.attributes)];
      }
      VisitsUpToEnds(expression, skip);
      ResolveInChildren(trace, expression, scope, skip, log0, table0, annotation0);
    }

    /**
     * The scan below a node that is not skipped: the children one after the other, in
     * order, each scanned in the same scope with the same skip set.
     */
    method ResolveInChildren(trace: BindingTrace, expression: Element, scope: Scope, skip: set<Category>,
                             ghost log0: seq<NodeId>, ghost table0: map<NodeId, seq<AnnotationDescriptor>>,
                             ghost annotation0: map<NodeId, AnnotationDescriptor>)
      requires var visits := VisitsUpTo(expression, 0, skip);
               Recorded(trace, callResolver, log0, table0, annotation0, Ids(visits), Table(scope, visits))
      modifies trace
      ensures var visits := VisitsUpTo(expression, |Children(expression)|, skip);
              Recorded(trace, callResolver, log0, table0, annotation0, Ids(visits), Table(scope, visits))
      decreases expression, 1
    {
      var i := 0;
      while i < |Children(expression)|
        invariant 0 <= i <= |Children(expression)|
        invariant var visits := VisitsUpTo(expression, i, skip);
                  Recorded(trace, callResolver, log0, table0, annotation0, Ids(visits), Table(scope, visits))
      {
        ResolveChild(trace, expression, i, scope, skip, log0, table0, annotation0);
        i := i + 1;
      }
    }

    /** The scan of the `i`-th child, after the scans of the children before it. */
    method ResolveChild(trace: BindingTrace, expression: Element, i: nat, scope: Scope, skip: set<Category>,
                        ghost log0: seq<NodeId>, ghost table0: map<NodeId, seq<AnnotationDescriptor>>,
                        ghost annotation0: map<NodeId, AnnotationDescriptor>)
      requires i < |Children(expression)|
      requires var visits := VisitsUpTo(expression, i, skip);
               Recorded(trace, callResolver, log0, table0, annotation0, Ids(visits), Table(scope, visits))
      modifies trace
      ensures var visits := VisitsUpTo(expression, i + 1, skip);
              Recorded(trace, callResolver, log0, table0, annotation0, Ids(visits), Table(scope, visits))
      decreases expression, 0
    {
      var child := Children(expression)[i];
      ghost var visited := VisitsUpTo(expression, i, skip);
      ghost var vc := Visits(child, skip);
      ResolveUnit(trace, log0, table0, annotation0, Ids(visited), Table(scope, visited), child, scope, skip);
      VisitsUpToStep(expression, i, skip);
      IdsConcat(visited, vc);
      TableConcat(scope, visited, vc);
    }

    /** Resolving the annotations of an absent modifier list gives nothing. */
    method ResolveModifierListAnnotations(scope: Scope, modifierList: Option<ModifierList>, trace: BindingTrace)
      returns (result: seq<AnnotationDescriptor>)
      ensures modifierList.None? ==> result == []
      ensures modifierList.Some? ==>
                HoldAll(result, ResolvedEntries(callResolver, trace.compileTimeValue, scope, modifierList.value.annotationEntries))
      ensures forall i :: 0 <= i < |result| ==> fresh(result[i])
      ensures forall i, j :: 0 <= i < j < |result| ==> result[i] != result[j]
    {
      if modifierList.None? {
        return [];
      }
      result := ResolveAnnotations(scope, modifierList.value.annotationEntries, trace);
    }

    /**
     * One freshly allocated descriptor per entry, in entry order, each holding that
     * entry's resolution. Nothing is recorded in the trace.
     */
    method ResolveAnnotations(scope: Scope, annotationEntryElements: seq<AnnotationEntry>, trace: BindingTrace)
      returns (result: seq<AnnotationDescriptor>)
      ensures HoldAll(result, ResolvedEntries(callResolver, trace.compileTimeValue, scope, annotationEntryElements))
      ensures forall i :: 0 <= i < |result| ==> fresh(result[i])
      ensures forall i, j :: 0 <= i < j < |result| ==> result[i] != result[j]
    {
      if annotationEntryElements == [] {
        return [];
      }
      result := [];
      var i := 0;
      while i < |annotationEntryElements|
        invariant 0 <= i <= |annotationEntryElements|
        invariant HoldAll(result, ResolvedEntries(callResolver, trace.compileTimeValue, scope, annotationEntryElements[..i]))
        invariant forall k :: 0 <= k < |result| ==> fresh(result[k])
        invariant forall k, l :: 0 <= k < l < |result| ==> result[k] != result[l]
      {
        var descriptor := new AnnotationDescriptor();
        ResolveAnnotationStub(scope, annotationEntryElements[i], descriptor, trace);
        result := result + [descriptor];
        i := i + 1;
      }
      assert annotationEntryElements[..i] == annotationEntryElements;
    }

    /** Fills `descriptor` in place with the resolution of `entryElement`. */
    method ResolveAnnotationStub(scope: Scope, entryElement: AnnotationEntry, descriptor: AnnotationDescriptor,
                                 trace: BindingTrace)
      modifies descriptor
      ensures Holds(descriptor, ResolvedEntry(callResolver, trace.compileTimeValue, scope, entryElement))
    {
      var results := ResolveType(scope, entryElement, descriptor, trace);
      ResolveArguments(results, descriptor, trace);
    }

    /**
     * Sets the annotation type: the resulting descriptor's return type when resolution
     * succeeded, the "Unresolved annotation type" error type otherwise.
     */
    method ResolveType(scope: Scope, entryElement: AnnotationEntry, descriptor: AnnotationDescriptor, trace: BindingTrace)
      returns (results: OverloadResolutionResults)
      modifies descriptor
      ensures results == callResolver(scope, entryElement)
      ensures results.success ==> descriptor.annotationType == Some(results.returnType)
      ensures !results.success ==> descriptor.annotationType == Some(UnresolvedAnnotationType)
      ensures descriptor.valueArguments == old(descriptor.valueArguments)
    {
      results := callResolver(scope, entryElement);
      var annotationType := results.returnType;
      if results.success {
        descriptor.SetAnnotationType(annotationType);
      } else {
        descriptor.SetAnnotationType(UnresolvedAnnotationType);
      }
    }

    /**
     * Sets the constant list: one constant per argument expression of the resulting call,
     * parameter by parameter and expression by expression.
     */
    method ResolveArguments(results: OverloadResolutionResults, descriptor: AnnotationDescriptor, trace: BindingTrace)
      modifies descriptor
      ensures descriptor.valueArguments == BoundConstants(results.valueArguments, trace.compileTimeValue)
      ensures descriptor.annotationType == old(descriptor.annotationType)
    {
      var bindings := results.valueArguments;
      var arguments: seq<Option<CompileTimeConstant>> := [];
      var p := 0;
      while p < |bindings|
        invariant 0 <= p <= |bindings|
        invariant arguments == BoundConstants(bindings[..p], trace.compileTimeValue)
      {
        var argumentExpressions := bindings[p].argumentExpressions;
        var parameterType := bindings[p].parameterType;
        var j := 0;
        while j < |argumentExpressions|
          invariant 0 <= j <= |argumentExpressions|
          invariant arguments == BoundConstants(bindings[..p], trace.compileTimeValue)
                                 + BindingConstants(ParameterBinding(parameterType, argumentExpressions[..j]), trace.compileTimeValue)
        {
          arguments := arguments + [ResolveAnnotationArgument(argumentExpressions[j], parameterType, trace.compileTimeValue)];
          j := j + 1;
        }
        assert argumentExpressions[..j] == argumentExpressions;
        assert bindings[..p + 1][..p] == bindings[..p];
        p := p + 1;
      }
      assert bindings[..p] == bindings;
      descriptor.SetValueArguments(arguments);
    }

    /** Stubs for an absent modifier list: none, and nothing recorded. */
    method CreateModifierListStubs(modifierList: Option<ModifierList>, trace: BindingTrace)
      returns (result: seq<AnnotationDescriptor>)
      modifies trace
      ensures modifierList.None? ==> result == [] && trace.annotation == old(trace.annotation)
      ensures modifierList.Some? ==>
                |result| == |modifierList.value.annotationEntries| &&
                trace.annotation == old(trace.annotation) + RecordAll(EntryIds(modifierList.value.annotationEntries), result)
      ensures forall i :: 0 <= i < |result| ==> fresh(result[i])
      ensures forall i, j :: 0 <= i < j < |result| ==> result[i] != result[j]
      ensures forall i :: 0 <= i < |result| ==> result[i].annotationType == None && result[i].valueArguments == []
      ensures trace.annotationExpression == old(trace.annotationExpression)
      ensures trace.annotationExpressionLog == old(trace.annotationExpressionLog)
    {
      if modifierList.None? {
        return [];
      }
      result := CreateAnnotationStubs(modifierList.value.annotationEntries, trace);
    }

    /**
     * One new, empty descriptor per entry, each recorded under its entry's id: the object
     * recorded is the very object returned.
     */
    method CreateAnnotationStubs(annotations: seq<AnnotationEntry>, trace: BindingTrace)
      returns (result: seq<AnnotationDescriptor>)
      modifies trace
      ensures |result| == |annotations|
      ensures trace.annotation == old(trace.annotation) + RecordAll(EntryIds(annotations), result)
      ensures forall i :: 0 <= i < |result| ==> fresh(result[i])
      ensures forall i, j :: 0 <= i < j < |result| ==> result[i] != result[j]
      ensures forall i :: 0 <= i < |result| ==> result[i].annotationType == None && result[i].valueArguments == []
      ensures trace.annotationExpression == old(trace.annotationExpression)
      ensures trace.annotationExpressionLog == old(trace.annotationExpressionLog)
    {
      result := [];
      var i := 0;
      while i < |annotations|
        invariant 0 <= i <= |annotations|
        invariant |result| == i
        invariant trace.annotation == old(trace.annotation) + RecordAll(EntryIds(annotations[..i]), result)
        invariant forall k :: 0 <= k < |result| ==> fresh(result[k])
        invariant forall k, l :: 0 <= k < l < |result| ==> result[k] != result[l]
        invariant forall k :: 0 <= k < |result| ==> result[k].annotationType == None && result[k].valueArguments == []
        invariant trace.annotationExpression == old(trace.annotationExpression)
        invariant trace.annotationExpressionLog == old(trace.annotationExpressionLog)
      {
        var annotationDescriptor := new AnnotationDescriptor();
        RecordAllSnoc(annotations, result, i, annotationDescriptor);
        UnionUpdate(old(trace.annotation), RecordAll(EntryIds(annotations[..i]), result), annotations[i].id, annotationDescriptor);
        result := result + [annotationDescriptor];
        trace.RecordAnnotation(annotations[i].id, annotationDescriptor);
        i := i + 1;
      }
      assert annotations[..i] == annotations;
    }

    /**
     * A stub is created empty and filled later, in place: after `createAnnotationStubs`
     * and `resolveAnnotationStub` on the i-th stub, the entry slice still records that
     * very object under the i-th entry, and the object now holds the entry's resolution.
     */
    method CreateAndFillStub(annotations: seq<AnnotationEntry>, i: nat, scope: Scope, trace: BindingTrace)
      returns (stubs: seq<AnnotationDescriptor>)
      requires i < |annotations| && Distinct(EntryIds(annotations))
      modifies trace
      ensures |stubs| == |annotations|
      ensures annotations[i].id in trace.annotation && trace.annotation[annotations[i].id] == stubs[i]
      ensures Holds(stubs[i], ResolvedEntry(callResolver, trace.compileTimeValue, scope, annotations[i]))
      ensures forall j :: 0 <= j < |stubs| && j != i ==> stubs[j].annotationType == None && stubs[j].valueArguments == []
    {
      stubs := CreateAnnotationStubs(annotations, trace);
      RecordAllAt(EntryIds(annotations), stubs, i);
      ResolveAnnotationStub(scope, annotations[i], stubs[i], trace);
    }
  }
}
