/**
 * What resolution produces, as values: the content one annotation entry's descriptor gets,
 * the table one scan records, and the list of scans the declaration walker performs.
 */
module ResolutionSpec {
  import opened Syntax
  import opened ConstantExtraction
  import opened ArgumentBinding
  import opened Traversal

  /** The content of a resolved descriptor: its annotation type and its constant list. */
  datatype Resolved = Resolved(annotationType: JetType, valueArguments: seq<Option<CompileTimeConstant>>)

  /** The annotation type resolution settles on: the candidate's type only on success. */
  function AnnotationTypeOf(results: OverloadResolutionResults): JetType {
    if results.success then results.returnType else UnresolvedAnnotationType
  }

  /**
   * What one entry resolves to in a scope. The constant list comes from the resulting
   * call's binding whether or not resolution succeeded.
   */
  function ResolvedEntry(resolveCall: CallResolver, compileTimeValue: map<NodeId, CompileTimeConstant>,
                         scope: Scope, entry: AnnotationEntry): Resolved
  {
    var results := resolveCall(scope, entry);
    Resolved(AnnotationTypeOf(results), BoundConstants(results.valueArguments, compileTimeValue))
  }

  /** What a list of entries resolves to: one result per entry, in entry order. */
  function ResolvedEntries(resolveCall: CallResolver, compileTimeValue: map<NodeId, CompileTimeConstant>,
                           scope: Scope, entries: seq<AnnotationEntry>): (r: seq<Resolved>)
    ensures |r| == |entries|
    ensures forall i :: 0 <= i < |r| ==> r[i] == ResolvedEntry(resolveCall, compileTimeValue, scope, entries[i])
  {
    seq(|entries|, i requires 0 <= i < |entries| => ResolvedEntry(resolveCall, compileTimeValue, scope, entries[i]))
  }

  /** The entries an annotated expression carries; other nodes carry none. */
  function AttributesOf(e: Element): seq<AnnotationEntry> {
    if e.AnnotatedExpression? then e.attributes else []
  }

  /** The entries an annotated expression carries, with the scope they are resolved in. */
  datatype Site = Site(scope: Scope, entries: seq<AnnotationEntry>)

  /**
   * The table a scan leaves behind: each visited annotated expression's id mapped to its
   * entries in the scan's scope, a later visit of the same id overriding an earlier one.
   */
  function Table(scope: Scope, visits: seq<Element>): map<NodeId, Site> {
    if visits == [] then map[]
    else
      var last := visits[|visits| - 1];
      Table(scope, visits[..|visits| - 1])[last.id := Site(scope, AttributesOf(last))]
  }

  /** The table of a sequence of visits is keyed by exactly the visited ids. */
  lemma {:induction false} TableKeys(scope: Scope, visits: seq<Element>)
    ensures forall k :: k in Table(scope, visits) <==> k in Ids(visits)
    decreases |visits|
  {
    if visits != [] {
      var front := visits[..|visits| - 1];
      TableKeys(scope, front);
      assert Ids(visits) == Ids(front) + [visits[|visits| - 1].id];
    }
  }

  /** Scanning `a` and then `b` leaves the union of the two tables, `b` winning. */
  lemma {:induction false} TableConcat(scope: Scope, a: seq<Element>, b: seq<Element>)
    ensures Table(scope, a + b) == Table(scope, a) + Table(scope, b)
    decreases |b|
  {
    if b != [] {
      var front := b[..|b| - 1];
      var last := b[|b| - 1];
      assert (a + b)[..|a + b| - 1] == a + front;
      assert (a + b)[|a + b| - 1] == last;
      TableConcat(scope, a, front);
      var site := Site(scope, AttributesOf(last));
      var ta: map<NodeId, Site> := Table(scope, a);
      var tf: map<NodeId, Site> := Table(scope, front);
      assert (ta + tf)[last.id := site] == ta + tf[last.id := site];
    } else {
      assert a + b == a;
    }
  }

  /** When no id is visited twice, every visited expression keeps its own entries. */
  lemma {:induction false} TableAt(scope: Scope, visits: seq<Element>, i: nat)
    requires Distinct(Ids(visits)) && i < |visits|
    ensures visits[i].id in Table(scope, visits)
    ensures Table(scope, visits)[visits[i].id] == Site(scope, AttributesOf(visits[i]))
    decreases |visits|
  {
    var n := |visits| - 1;
    var front := visits[..n];
    if i < n {
      assert Ids(front) == Ids(visits)[..n];
      assert visits[i].id != visits[n].id;
      TableAt(scope, front, i);
    }
  }

  /**
   * One scan over a well-formed tree records, for every annotated expression it reaches,
   * that expression's own entries in the scan's scope.
   */
  lemma ScanTableOfWellFormedTree(scope: Scope, e: Element, skip: set<Category>, v: Element)
    requires UniqueIds(e) && v in Visits(e, skip)
    ensures v.AnnotatedExpression?
    ensures v.id in Table(scope, Visits(e, skip))
    ensures Table(scope, Visits(e, skip))[v.id] == Site(scope, v.attributes)
  {
    VisitsAreDistinct(e, skip);
    VisitsAreUnskippedAnnotated(e, skip, v);
    var i :| 0 <= i < |Visits(e, skip)| && Visits(e, skip)[i] == v;
    TableAt(scope, Visits(e, skip), i);
  }

  /** The map an in-order list of `record(key, value)` calls leaves, later keys overriding. */
  function RecordAll<T>(keys: seq<NodeId>, values: seq<T>): map<NodeId, T>
    requires |keys| == |values|
  {
    if keys == [] then map[]
    else RecordAll(keys[..|keys| - 1], values[..|values| - 1])[keys[|keys| - 1] := values[|values| - 1]]
  }

  /**
   * With distinct keys, what is recorded under the i-th key is the i-th value itself, and
   * nothing is recorded under any other key.
   */
  lemma {:induction false} RecordAllAt<T>(keys: seq<NodeId>, values: seq<T>, i: nat)
    requires |keys| == |values| && Distinct(keys) && i < |keys|
    ensures keys[i] in RecordAll(keys, values) && RecordAll(keys, values)[keys[i]] == values[i]
    decreases |keys|
  {
    var n := |keys| - 1;
    if i < n {
      assert keys[i] != keys[n];
      RecordAllAt(keys[..n], values[..n], i);
    }
  }

  lemma {:induction false} RecordAllKeys<T>(keys: seq<NodeId>, values: seq<T>)
    requires |keys| == |values|
    ensures forall k :: k in RecordAll(keys, values) <==> k in keys
    decreases |keys|
  {
    if keys != [] {
      var n := |keys| - 1;
      RecordAllKeys(keys[..n], values[..n]);
      assert keys == keys[..n] + [keys[n]];
    }
  }

  /** Recording one more key after a list records it on top of what the list recorded. */
  lemma RecordAllSnoc<T>(entries: seq<AnnotationEntry>, values: seq<T>, i: nat, v: T)
    requires i < |entries| && |values| == i
    ensures RecordAll(EntryIds(entries[..i + 1]), values + [v])
            == RecordAll(EntryIds(entries[..i]), values)[entries[i].id := v]
  {
    var keys := EntryIds(entries[..i + 1]);
    assert keys[..i] == EntryIds(entries[..i]);
    assert (values + [v])[..i] == values;
  }

  /** Updating a union means updating its right-hand side. */
  lemma UnionUpdate<T>(m: map<NodeId, T>, r: map<NodeId, T>, k: NodeId, v: T)
    ensures (m + r)[k := v] == m + r[k := v]
  {
  }

  /** The ids of a list of annotation entries. */
  function EntryIds(entries: seq<AnnotationEntry>): (r: seq<NodeId>)
    ensures |r| == |entries|
    ensures forall i :: 0 <= i < |r| ==> r[i] == entries[i].id
  {
    seq(|entries|, i requires 0 <= i < |entries| => entries[i].id)
  }

  // ---- The declaration tables and the scans the walker makes over them ----

  /** A class or object declaration with the scope its initializers resolve in. */
  datatype ClassEntry = ClassEntry(declaration: Element, scopeForInitializers: Scope)

  /** A property declaration and its initializer expression, if any. */
  datatype PropertyEntry = PropertyEntry(id: NodeId, initializer: Option<Element>)

  /** A value parameter and its default value expression, if any. */
  datatype Parameter = Parameter(defaultValue: Option<Element>)

  /** A named function: its value parameters and its body expression, if any. */
  datatype FunctionEntry = FunctionEntry(id: NodeId, valueParameters: seq<Parameter>, bodyExpression: Option<Element>)

  /**
   * The tables the previous analysis phase grouped the declarations into, each in its
   * iteration order, and the declaring scope of every property and function.
   */
  datatype Declarations = Declarations(classes: seq<ClassEntry>, objects: seq<ClassEntry>,
                                       properties: seq<PropertyEntry>, functions: seq<FunctionEntry>,
                                       declaringScopes: map<NodeId, Scope>)

  /** Every property and function has a declaring scope. */
  predicate ScopesKnown(d: Declarations) {
    (forall p :: p in d.properties ==> p.id in d.declaringScopes) &&
    (forall f :: f in d.functions ==> f.id in d.declaringScopes)
  }

  /** One call of the scanner: a root, the scope to resolve in, and the skip set. */
  datatype ScanUnit = ScanUnit(root: Element, scope: Scope, skip: set<Category>)

  function ClassUnits(classes: seq<ClassEntry>): (r: seq<ScanUnit>)
    ensures |r| == |classes|
    ensures forall i :: 0 <= i < |r| ==>
              r[i] == ScanUnit(classes[i].declaration, classes[i].scopeForInitializers, ClassLevelSkips)
  {
    if classes == [] then []
    else
      var c := classes[|classes| - 1];
      ClassUnits(classes[..|classes| - 1]) + [ScanUnit(c.declaration, c.scopeForInitializers, ClassLevelSkips)]
  }

  /** The scan a nullable expression gets: one with nothing skipped when present, none when absent. */
  function OptionalUnit(expression: Option<Element>, scope: Scope): seq<ScanUnit> {
    if expression.Some? then [ScanUnit(expression.value, scope, {})] else []
  }

  function PropertyUnits(properties: seq<PropertyEntry>, declaringScopes: map<NodeId, Scope>): seq<ScanUnit>
    requires forall p :: p in properties ==> p.id in declaringScopes
  {
    if properties == [] then []
    else
      var p := properties[|properties| - 1];
      PropertyUnits(properties[..|properties| - 1], declaringScopes) + OptionalUnit(p.initializer, declaringScopes[p.id])
  }

  function ParameterUnits(parameters: seq<Parameter>, declaringScope: Scope): seq<ScanUnit> {
    if parameters == [] then []
    else
      var p := parameters[|parameters| - 1];
      ParameterUnits(parameters[..|parameters| - 1], declaringScope) + OptionalUnit(p.defaultValue, declaringScope)
  }

  function BodyUnits(f: FunctionEntry, declaringScope: Scope, innerScope: InnerScopeProvider): seq<ScanUnit> {
    OptionalUnit(f.bodyExpression, innerScope(declaringScope, f.id))
  }

  /** The scans one function gets: its parameters' default values, then its body. */
  function FunctionUnit(f: FunctionEntry, declaringScope: Scope, innerScope: InnerScopeProvider): seq<ScanUnit> {
    ParameterUnits(f.valueParameters, declaringScope) + BodyUnits(f, declaringScope, innerScope)
  }

  function FunctionUnits(functions: seq<FunctionEntry>, declaringScopes: map<NodeId, Scope>,
                         innerScope: InnerScopeProvider): seq<ScanUnit>
    requires forall f :: f in functions ==> f.id in declaringScopes
  {
    if functions == [] then []
    else
      var f := functions[|functions| - 1];
      FunctionUnits(functions[..|functions| - 1], declaringScopes, innerScope)
      + FunctionUnit(f, declaringScopes[f.id], innerScope)
  }

  /** The scans the declaration walker makes, in the order it makes them. */
  function ProcessUnits(d: Declarations, innerScope: InnerScopeProvider): seq<ScanUnit>
    requires ScopesKnown(d)
  {
    ClassUnits(d.classes) + ClassUnits(d.objects)
    + PropertyUnits(d.properties, d.declaringScopes)
    + FunctionUnits(d.functions, d.declaringScopes, innerScope)
  }

  /** Every annotated expression the scans of `units` meet, scan after scan. */
  function UnitsVisits(units: seq<ScanUnit>): seq<Element> {
    if units == [] then []
    else
      var u := units[|units| - 1];
      UnitsVisits(units[..|units| - 1]) + Visits(u.root, u.skip)
  }

  /** The table the scans of `units` leave, a later scan overriding an earlier one. */
  function UnitsTable(units: seq<ScanUnit>): map<NodeId, Site> {
    if units == [] then map[]
    else
      var u := units[|units| - 1];
      UnitsTable(units[..|units| - 1]) + Table(u.scope, Visits(u.root, u.skip))
  }

  /** One more scan appends its visits and lays its table over the earlier ones. */
  lemma UnitsSnoc(units: seq<ScanUnit>, u: ScanUnit)
    ensures UnitsVisits(units + [u]) == UnitsVisits(units) + Visits(u.root, u.skip)
    ensures Ids(UnitsVisits(units + [u])) == Ids(UnitsVisits(units)) + Ids(Visits(u.root, u.skip))
    ensures UnitsTable(units + [u]) == UnitsTable(units) + Table(u.scope, Visits(u.root, u.skip))
  {
    assert (units + [u])[..|units|] == units;
    IdsConcat(UnitsVisits(units), Visits(u.root, u.skip));
  }

  // ---- What the walker's scans are ----

  lemma {:induction false} PropertyUnitsAreUnbounded(properties: seq<PropertyEntry>, declaringScopes: map<NodeId, Scope>)
    requires forall p :: p in properties ==> p.id in declaringScopes
    ensures forall u :: u in PropertyUnits(properties, declaringScopes) ==> u.skip == {}
    decreases |properties|
  {
    if properties != [] {
      var front := properties[..|properties| - 1];
      assert forall p :: p in front ==> p in properties;
      PropertyUnitsAreUnbounded(front, declaringScopes);
    }
  }

  /** A present property initializer is scanned in the property's declaring scope, with nothing skipped. */
  lemma {:induction false} PropertyScopes(properties: seq<PropertyEntry>, declaringScopes: map<NodeId, Scope>, i: nat)
    requires forall p :: p in properties ==> p.id in declaringScopes
    requires i < |properties|
    ensures var p := properties[i];
            p.initializer.Some? ==>
              ScanUnit(p.initializer.value, declaringScopes[p.id], {}) in PropertyUnits(properties, declaringScopes)
    decreases |properties|
  {
    var n := |properties| - 1;
    var front := properties[..n];
    assert forall p :: p in front ==> p in properties;
    if i < n {
      PropertyScopes(front, declaringScopes, i);
      assert front[i] == properties[i];
    }
  }

  lemma {:induction false} ParameterUnitsAreUnbounded(parameters: seq<Parameter>, declaringScope: Scope)
    ensures forall u :: u in ParameterUnits(parameters, declaringScope) ==> u.skip == {} && u.scope == declaringScope
    decreases |parameters|
  {
    if parameters != [] {
      ParameterUnitsAreUnbounded(parameters[..|parameters| - 1], declaringScope);
    }
  }

  lemma {:induction false} FunctionUnitsAreUnbounded(functions: seq<FunctionEntry>, declaringScopes: map<NodeId, Scope>,
                                                     innerScope: InnerScopeProvider)
    requires forall f :: f in functions ==> f.id in declaringScopes
    ensures forall u :: u in FunctionUnits(functions, declaringScopes, innerScope) ==> u.skip == {}
    decreases |functions|
  {
    if functions != [] {
      var front := functions[..|functions| - 1];
      var f := functions[|functions| - 1];
      assert forall g :: g in front ==> g in functions;
      FunctionUnitsAreUnbounded(front, declaringScopes, innerScope);
      ParameterUnitsAreUnbounded(f.valueParameters, declaringScopes[f.id]);
    }
  }

  /**
   * Only class and object declarations are scanned with the class-level skip set; every
   * property initializer, parameter default value and function body is scanned with an
   * empty one.
   */
  lemma ProcessSkipSets(d: Declarations, innerScope: InnerScopeProvider)
    requires ScopesKnown(d)
    ensures var units := ProcessUnits(d, innerScope);
            var n := |d.classes| + |d.objects|;
            n <= |units| &&
            (forall i :: 0 <= i < n ==> units[i].skip == ClassLevelSkips) &&
            (forall i :: n <= i < |units| ==> units[i].skip == {})
  {
    var units := ProcessUnits(d, innerScope);
    var declarationUnits := ClassUnits(d.classes) + ClassUnits(d.objects);
    var propertyUnits := PropertyUnits(d.properties, d.declaringScopes);
    var functionUnits := FunctionUnits(d.functions, d.declaringScopes, innerScope);
    var rest := propertyUnits + functionUnits;
    var n := |declarationUnits|;
    AppendAssociates(declarationUnits, propertyUnits, functionUnits);
    PropertyUnitsAreUnbounded(d.properties, d.declaringScopes);
    FunctionUnitsAreUnbounded(d.functions, d.declaringScopes, innerScope);
    forall i | 0 <= i < n ensures units[i].skip == ClassLevelSkips {
      assert units[i] == declarationUnits[i];
    }
    forall i | n <= i < |units| ensures units[i].skip == {} {
      assert units[i] == rest[i - n];
      assert rest[i - n] in rest;
    }
  }

  /**
   * A function's body is scanned in the function's inner scope, each present default value
   * in its declaring scope.
   */
  lemma {:induction false} FunctionScopes(functions: seq<FunctionEntry>, declaringScopes: map<NodeId, Scope>,
                                          innerScope: InnerScopeProvider, i: nat)
    requires forall f :: f in functions ==> f.id in declaringScopes
    requires i < |functions|
    ensures var f := functions[i];
            var units := FunctionUnits(functions, declaringScopes, innerScope);
            (f.bodyExpression.Some? ==>
               ScanUnit(f.bodyExpression.value, innerScope(declaringScopes[f.id], f.id), {}) in units) &&
            (forall p :: p in f.valueParameters && p.defaultValue.Some? ==>
               ScanUnit(p.defaultValue.value, declaringScopes[f.id], {}) in units)
    decreases |functions|
  {
    var n := |functions| - 1;
    var front := functions[..n];
    var f := functions[i];
    assert forall g :: g in front ==> g in functions;
    var units := FunctionUnits(functions, declaringScopes, innerScope);
    var earlier := FunctionUnits(front, declaringScopes, innerScope);
    var own := FunctionUnit(functions[n], declaringScopes[functions[n].id], innerScope);
    assert units == earlier + own;
    if i < n {
      FunctionScopes(front, declaringScopes, innerScope, i);
      assert front[i] == f;
      forall u | u in earlier ensures u in units {
      }
    } else {
      var scope := declaringScopes[f.id];
      var parameterUnits := ParameterUnits(f.valueParameters, scope);
      assert own == parameterUnits + BodyUnits(f, scope, innerScope);
      forall p | p in f.valueParameters && p.defaultValue.Some?
        ensures ScanUnit(p.defaultValue.value, scope, {}) in units
      {
        ParameterUnitScanned(f.valueParameters, scope, p);
        assert ScanUnit(p.defaultValue.value, scope, {}) in own;
      }
      if f.bodyExpression.Some? {
        assert ScanUnit(f.bodyExpression.value, innerScope(scope, f.id), {}) in own;
      }
    }
  }

  lemma {:induction false} ParameterUnitScanned(parameters: seq<Parameter>, declaringScope: Scope, p: Parameter)
    requires p in parameters && p.defaultValue.Some?
    ensures ScanUnit(p.defaultValue.value, declaringScope, {}) in ParameterUnits(parameters, declaringScope)
    decreases |parameters|
  {
    var n := |parameters| - 1;
    if parameters[n] != p {
      assert parameters == parameters[..n] + [parameters[n]];
      ParameterUnitScanned(parameters[..n], declaringScope, p);
    }
  }
}
