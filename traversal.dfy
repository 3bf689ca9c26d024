/**
 * What the skip-bounded scanner visits: the annotated expressions of a subtree, in the
 * order a depth-first, children-in-order visit meets them, never entering a node whose
 * category is in the skip set.
 */
module Traversal {
  import opened Syntax

  /** A node is skipped when its category is in the skip set; the root is checked too. */
  predicate Skipped(e: Element, skip: set<Category>) {
    match e
    case DeclarationWithBody(_, _) => DeclarationsWithBody in skip
    case PropertyDeclaration(_, _) => Properties in skip
    case _ => false
  }

  /** The argument expressions of a list of annotation entries, entry by entry. */
  function EntryArguments(entries: seq<AnnotationEntry>): (r: seq<Element>)
    ensures forall c :: c in r ==> exists entry :: entry in entries && c in entry.valueArguments
  {
    if entries == [] then []
    else
      assert forall entry :: entry in entries[1..] ==> entry in entries;
      entries[0].valueArguments + EntryArguments(entries[1..])
  }

  /**
   * The children of a node in tree order. An annotated expression's children are its
   * annotation entries' argument expressions, then the expression it wraps.
   */
  function Children(e: Element): (cs: seq<Element>)
    ensures forall k :: 0 <= k < |cs| ==> cs[k] < e
  {
    match e
    case ConstantExpression(_) => []
    case StringTemplateExpression(_, entries) => entries
    case ParenthesizedExpression(_, inner) => if inner.Some? then [inner.value] else []
    case AnnotatedExpression(_, attributes, base) =>
      var args := EntryArguments(attributes);
      assert forall k :: 0 <= k < |args| ==> args[k] < e by {
        forall k | 0 <= k < |args| ensures args[k] < e {
          assert args[k] in args;
          var entry :| entry in attributes && args[k] in entry.valueArguments;
        }
      }
      args + [base]
    case DeclarationWithBody(_, cs) => cs
    case PropertyDeclaration(_, cs) => cs
    case OtherElement(_, cs) => cs
  }

  /** The annotated expressions the scanner meets below `e`, in visiting order. */
  function Visits(e: Element, skip: set<Category>): seq<Element>
    decreases e, 1
  {
    if Skipped(e, skip) then []
    else (if e.AnnotatedExpression? then [e] else []) + VisitsAll(e, Children(e), skip)
  }

  /** The visits of a list of siblings below `parent`, one sibling after the other. */
  function VisitsAll(parent: Element, cs: seq<Element>, skip: set<Category>): seq<Element>
    requires forall k :: 0 <= k < |cs| ==> cs[k] < parent
    decreases parent, 0, |cs|
  {
    if cs == [] then []
    else
      Visits(cs[0], skip) + VisitsAll(parent, cs[1..], skip)
  }

  /** The node ids of a list of nodes. */
  function Ids(es: seq<Element>): (r: seq<NodeId>)
    ensures |r| == |es|
    ensures forall i :: 0 <= i < |es| ==> r[i] == es[i].id
  {
    seq(|es|, i requires 0 <= i < |es| => es[i].id)
  }

  /** Visiting one more sibling appends its visits. */
  lemma {:induction false} VisitsAllSnoc(parent: Element, cs: seq<Element>, i: nat, skip: set<Category>)
    requires forall k :: 0 <= k < |cs| ==> cs[k] < parent
    requires i < |cs|
    ensures VisitsAll(parent, cs[..i + 1], skip) == VisitsAll(parent, cs[..i], skip) + Visits(cs[i], skip)
    decreases i
  {
    if i == 0 {
      assert cs[..1] == [cs[0]];
      assert cs[..1][1..] == [];
    } else {
      assert cs[..i + 1][1..] == cs[1..][..i];
      assert cs[..i][1..] == cs[1..][..i - 1];
      VisitsAllSnoc(parent, cs[1..], i - 1, skip);
    }
  }

  /** What the scanner has met at `e` once it has gone through the first `n` children. */
  function VisitsUpTo(e: Element, n: nat, skip: set<Category>): seq<Element>
    requires n <= |Children(e)|
  {
    (if e.AnnotatedExpression? then [e] else []) + VisitsAll(e, Children(e)[..n], skip)
  }

  /** Going through one more child appends that child's visits. */
  lemma VisitsUpToStep(e: Element, n: nat, skip: set<Category>)
    requires n < |Children(e)|
    ensures VisitsUpTo(e, n + 1, skip) == VisitsUpTo(e, n, skip) + Visits(Children(e)[n], skip)
  {
    var own := if e.AnnotatedExpression? then [e] else [];
    VisitsAllSnoc(e, Children(e), n, skip);
    AppendAssociates(own, VisitsAll(e, Children(e)[..n], skip), Visits(Children(e)[n], skip));
  }

  /** Before any child only the node itself is met; after all of them, all of its visits. */
  lemma VisitsUpToEnds(e: Element, skip: set<Category>)
    ensures VisitsUpTo(e, 0, skip) == if e.AnnotatedExpression? then [e] else []
    ensures !Skipped(e, skip) ==> VisitsUpTo(e, |Children(e)|, skip) == Visits(e, skip)
  {
    assert Children(e)[..0] == [];
    assert Children(e)[..|Children(e)|] == Children(e);
  }

  /**
   * Reference definition: `m` is reached from `root` along a path of parent-child
   * steps none of whose nodes (ends included) is skipped.
   */
  ghost predicate ReachableAvoiding(root: Element, m: Element, skip: set<Category>)
    decreases root
  {
    !Skipped(root, skip) &&
    (m == root || exists k :: 0 <= k < |Children(root)| && ReachableAvoiding(Children(root)[k], m, skip))
  }

  lemma {:induction false} InVisitsAll(parent: Element, cs: seq<Element>, skip: set<Category>, m: Element)
    requires forall k :: 0 <= k < |cs| ==> cs[k] < parent
    ensures m in VisitsAll(parent, cs, skip) <==> exists k :: 0 <= k < |cs| && m in Visits(cs[k], skip)
    decreases |cs|
  {
    if cs != [] {
      var rest := cs[1..];
      InVisitsAll(parent, rest, skip, m);
      if m in VisitsAll(parent, cs, skip) {
        if m !in Visits(cs[0], skip) {
          var k :| 0 <= k < |rest| && m in Visits(rest[k], skip);
          assert cs[k + 1] == rest[k];
        }
      }
      if exists k :: 0 <= k < |cs| && m in Visits(cs[k], skip) {
        var k :| 0 <= k < |cs| && m in Visits(cs[k], skip);
        if k > 0 {
          assert rest[k - 1] == cs[k];
        }
      }
    }
  }

  /**
   * The scanner meets exactly the annotated expressions reachable without entering a
   * skipped node; nested annotation layers included, since the wrapped expression of an
   * annotated expression is one of its children.
   */
  lemma {:induction false} VisitsAreUnskippedAnnotated(e: Element, skip: set<Category>, m: Element)
    ensures m in Visits(e, skip) <==> m.AnnotatedExpression? && ReachableAvoiding(e, m, skip)
    decreases e
  {
    if !Skipped(e, skip) {
      InVisitsAll(e, Children(e), skip, m);
      forall k | 0 <= k < |Children(e)| {
        VisitsAreUnskippedAnnotated(Children(e)[k], skip, m);
      }
    }
  }

  /** Every node id of a subtree, in pre-order. */
  function AllIds(e: Element): seq<NodeId>
    decreases e, 1
  {
    [e.id] + AllIdsAll(e, Children(e))
  }

  function AllIdsAll(parent: Element, cs: seq<Element>): seq<NodeId>
    requires forall k :: 0 <= k < |cs| ==> cs[k] < parent
    decreases parent, 0, |cs|
  {
    if cs == [] then []
    else
      AllIds(cs[0]) + AllIdsAll(parent, cs[1..])
  }

  /** No id occurs twice in the sequence. */
  predicate Distinct(s: seq<NodeId>) {
    forall i, j :: 0 <= i < j < |s| ==> s[i] != s[j]
  }

  /** A well-formed tree: distinct nodes carry distinct ids, as PSI nodes have distinct identities. */
  predicate UniqueIds(e: Element) {
    Distinct(AllIds(e))
  }

  lemma DistinctConcat(a: seq<NodeId>, b: seq<NodeId>)
    ensures Distinct(a + b) <==> Distinct(a) && Distinct(b) && forall x :: x in a ==> x !in b
  {
    var ab := a + b;
    assert forall i :: 0 <= i < |a| ==> ab[i] == a[i];
    assert forall j :: 0 <= j < |b| ==> ab[|a| + j] == b[j];
    if Distinct(ab) {
      forall i, j | 0 <= i < |a| && 0 <= j < |b| ensures a[i] != b[j] {
        assert ab[i] != ab[|a| + j];
      }
      assert Distinct(a) by {
        forall i, j | 0 <= i < j < |a| ensures a[i] != a[j] { assert ab[i] != ab[j]; }
      }
      assert Distinct(b) by {
        forall i, j | 0 <= i < j < |b| ensures b[i] != b[j] { assert ab[|a| + i] != ab[|a| + j]; }
      }
    }
    if Distinct(a) && Distinct(b) && forall x :: x in a ==> x !in b {
      forall i, j | 0 <= i < j < |ab| ensures ab[i] != ab[j] {
        if j < |a| {
          assert a[i] != a[j];
        } else if i >= |a| {
          assert b[i - |a|] != b[j - |a|];
        } else {
          assert a[i] in a;
        }
      }
    }
  }

  /** Concatenation regroups freely. */
  lemma AppendAssociates<T>(a: seq<T>, b: seq<T>, c: seq<T>)
    ensures (a + b) + c == a + (b + c)
  {
  }

  lemma IdsConcat(a: seq<Element>, b: seq<Element>)
    ensures Ids(a + b) == Ids(a) + Ids(b)
  {
  }

  /** The ids the scanner records below `e` are ids of `e`'s subtree. */
  lemma {:induction false} VisitIdsWithin(e: Element, skip: set<Category>)
    ensures forall x :: x in Ids(Visits(e, skip)) ==> x in AllIds(e)
    decreases e, 1
  {
    if !Skipped(e, skip) {
      VisitAllIdsWithin(e, Children(e), skip);
      var own: seq<Element> := if e.AnnotatedExpression? then [e] else [];
      var tail := VisitsAll(e, Children(e), skip);
      IdsConcat(own, tail);
      assert Ids(own) == if e.AnnotatedExpression? then [e.id] else [];
    }
  }

  lemma {:induction false} VisitAllIdsWithin(parent: Element, cs: seq<Element>, skip: set<Category>)
    requires forall k :: 0 <= k < |cs| ==> cs[k] < parent
    ensures forall x :: x in Ids(VisitsAll(parent, cs, skip)) ==> x in AllIdsAll(parent, cs)
    decreases parent, 0, |cs|
  {
    if cs != [] {
      VisitIdsWithin(cs[0], skip);
      VisitAllIdsWithin(parent, cs[1..], skip);
      IdsConcat(Visits(cs[0], skip), VisitsAll(parent, cs[1..], skip));
    }
  }

  /**
   * In a well-formed tree the scanner records every node at most once: the log of one
   * scan holds no id twice.
   */
  lemma {:induction false} VisitsAreDistinct(e: Element, skip: set<Category>)
    requires UniqueIds(e)
    ensures Distinct(Ids(Visits(e, skip)))
    decreases e, 1
  {
    if !Skipped(e, skip) {
      var rest := AllIdsAll(e, Children(e));
      DistinctConcat([e.id], rest);
      VisitsAllAreDistinct(e, Children(e), skip);
      VisitAllIdsWithin(e, Children(e), skip);
      var own: seq<Element> := if e.AnnotatedExpression? then [e] else [];
      var tail := VisitsAll(e, Children(e), skip);
      IdsConcat(own, tail);
      assert Ids(own) == if e.AnnotatedExpression? then [e.id] else [];
      DistinctConcat(Ids(own), Ids(tail));
    }
  }

  lemma {:induction false} VisitsAllAreDistinct(parent: Element, cs: seq<Element>, skip: set<Category>)
    requires forall k :: 0 <= k < |cs| ==> cs[k] < parent
    requires Distinct(AllIdsAll(parent, cs))
    ensures Distinct(Ids(VisitsAll(parent, cs, skip)))
    decreases parent, 0, |cs|
  {
    if cs != [] {
      DistinctConcat(AllIds(cs[0]), AllIdsAll(parent, cs[1..]));
      VisitsAreDistinct(cs[0], skip);
      VisitsAllAreDistinct(parent, cs[1..], skip);
      VisitIdsWithin(cs[0], skip);
      VisitAllIdsWithin(parent, cs[1..], skip);
      var a := Visits(cs[0], skip);
      var b := VisitsAll(parent, cs[1..], skip);
      IdsConcat(a, b);
      DistinctConcat(Ids(a), Ids(b));
    }
  }

  /** `s` is `e` or a node somewhere below it. */
  ghost predicate Occurs(e: Element, s: Element)
    decreases e
  {
    s == e || exists k :: 0 <= k < |Children(e)| && Occurs(Children(e)[k], s)
  }

  /** The ids of one sibling are among the ids of the sibling list; the list being distinct, so is the sibling. */
  lemma {:induction false} ChildIdsWithin(parent: Element, cs: seq<Element>, k: nat)
    requires forall i :: 0 <= i < |cs| ==> cs[i] < parent
    requires k < |cs|
    ensures forall x :: x in AllIds(cs[k]) ==> x in AllIdsAll(parent, cs)
    ensures Distinct(AllIdsAll(parent, cs)) ==> Distinct(AllIds(cs[k]))
    decreases |cs|
  {
    DistinctConcat(AllIds(cs[0]), AllIdsAll(parent, cs[1..]));
    if k > 0 {
      ChildIdsWithin(parent, cs[1..], k - 1);
    }
  }

  /** In a distinct sibling list, the first sibling shares no id with any later one. */
  lemma FirstSiblingIdsDisjoint(parent: Element, cs: seq<Element>, k: nat)
    requires forall i :: 0 <= i < |cs| ==> cs[i] < parent
    requires 0 < k < |cs|
    requires Distinct(AllIdsAll(parent, cs))
    ensures forall x :: x in AllIds(cs[0]) ==> x !in AllIds(cs[k])
  {
    var rest := cs[1..];
    assert AllIdsAll(parent, cs) == AllIds(cs[0]) + AllIdsAll(parent, rest);
    DistinctConcat(AllIds(cs[0]), AllIdsAll(parent, rest));
    ChildIdsWithin(parent, rest, k - 1);
    assert rest[k - 1] == cs[k];
  }

  /** In a distinct sibling list, two different siblings share no id. */
  lemma {:induction false} SiblingIdsDisjoint(parent: Element, cs: seq<Element>, j: nat, k: nat)
    requires forall i :: 0 <= i < |cs| ==> cs[i] < parent
    requires j < |cs| && k < |cs| && j != k
    requires Distinct(AllIdsAll(parent, cs))
    ensures forall x :: x in AllIds(cs[j]) ==> x !in AllIds(cs[k])
    decreases |cs|
  {
    if j == 0 {
      FirstSiblingIdsDisjoint(parent, cs, k);
    } else if k == 0 {
      FirstSiblingIdsDisjoint(parent, cs, j);
    } else {
      var rest := cs[1..];
      assert AllIdsAll(parent, cs) == AllIds(cs[0]) + AllIdsAll(parent, rest);
      DistinctConcat(AllIds(cs[0]), AllIdsAll(parent, rest));
      SiblingIdsDisjoint(parent, rest, j - 1, k - 1);
      assert rest[j - 1] == cs[j] && rest[k - 1] == cs[k];
    }
  }

  /** The ids of a node below `e` are ids of `e`'s subtree. */
  lemma {:induction false} OccursIdsWithin(e: Element, s: Element)
    requires Occurs(e, s)
    ensures forall x :: x in AllIds(s) ==> x in AllIds(e)
    decreases e
  {
    if s != e {
      var k :| 0 <= k < |Children(e)| && Occurs(Children(e)[k], s);
      OccursIdsWithin(Children(e)[k], s);
      ChildIdsWithin(e, Children(e), k);
    }
  }

  /**
   * Skip-set exclusion: in a well-formed tree, nothing the scanner records lies inside a
   * subtree whose root is skipped; that subtree belongs to another resolution unit.
   */
  lemma {:induction false} SkippedSubtreeIsNeverVisited(e: Element, skip: set<Category>, s: Element)
    requires UniqueIds(e) && Occurs(e, s) && Skipped(s, skip)
    ensures forall m :: m in Visits(e, skip) ==> m.id !in AllIds(s)
    decreases e
  {
    if !Skipped(e, skip) {
      var cs := Children(e);
      var rest := AllIdsAll(e, cs);
      DistinctConcat([e.id], rest);
      var k :| 0 <= k < |cs| && Occurs(cs[k], s);
      OccursIdsWithin(cs[k], s);
      ChildIdsWithin(e, cs, k);
      SkippedSubtreeIsNeverVisited(cs[k], skip, s);
      forall m | m in Visits(e, skip) ensures m.id !in AllIds(s) {
        InVisitsAll(e, cs, skip, m);
        if m in VisitsAll(e, cs, skip) {
          var j :| 0 <= j < |cs| && m in Visits(cs[j], skip);
          if j != k {
            VisitIdsWithin(cs[j], skip);
            assert m.id in Ids(Visits(cs[j], skip));
            SiblingIdsDisjoint(e, cs, j, k);
          }
        } else {
          assert m == e;
        }
      }
    }
  }
}
