/**
 * Generic facts about a forest of `EmployeeNode`s: the ids it holds in preorder,
 * agreement of its expansion flags with an id list, and setting every flag at once.
 */
module Forest {
  import opened Types

  /** The ids of the forest in preorder (a node before its subordinates, siblings in order). */
  function Ids(nodes: seq<EmployeeNode>): seq<int>
    decreases nodes
  {
    if nodes == [] then []
    else
      var last := nodes[|nodes| - 1];
      Ids(nodes[..|nodes| - 1]) + [last.id] + Ids(last.subordinates)
  }

  /** Every node of the forest is expanded exactly when its id is in `xs`. */
  predicate FlagsMatch(nodes: seq<EmployeeNode>, xs: seq<int>)
    decreases nodes
  {
    forall i :: 0 <= i < |nodes| ==>
      nodes[i].isExpanded == (nodes[i].id in xs) && FlagsMatch(nodes[i].subordinates, xs)
  }

  /** Every node of the forest with its expansion flag set to `b`, nothing else changed. */
  function SetAll(nodes: seq<EmployeeNode>, b: bool): (r: seq<EmployeeNode>)
    ensures |r| == |nodes|
    decreases nodes
  {
    seq(|nodes|, i requires 0 <= i < |nodes| =>
      nodes[i].(isExpanded := b, subordinates := SetAll(nodes[i].subordinates, b)))
  }

  /** Two forests of the same shape: equal once every flag is cleared. */
  predicate SameShape(a: seq<EmployeeNode>, b: seq<EmployeeNode>)
  {
    SetAll(a, false) == SetAll(b, false)
  }

  /** Preorder of a concatenation is the concatenation of the preorders. */
  lemma {:induction false} IdsConcat(a: seq<EmployeeNode>, b: seq<EmployeeNode>)
    ensures Ids(a + b) == Ids(a) + Ids(b)
    decreases |b|
  {
    if b == [] {
      assert a + b == a;
    } else {
      var front, last := b[..|b| - 1], b[|b| - 1];
      calc {
        Ids(a + b);
        { assert (a + b)[..|a + b| - 1] == a + front; assert (a + b)[|a + b| - 1] == last; }
        Ids(a + front) + [last.id] + Ids(last.subordinates);
        { IdsConcat(a, front); }
        Ids(a) + Ids(front) + [last.id] + Ids(last.subordinates);
        Ids(a) + Ids(b);
      }
    }
  }

  /** An id is in the preorder iff it is a node's own id or one of its subordinates' ids. */
  lemma {:induction false} IdsMembers(nodes: seq<EmployeeNode>, id: int)
    ensures id in Ids(nodes) <==>
      exists i :: 0 <= i < |nodes| && (nodes[i].id == id || id in Ids(nodes[i].subordinates))
    decreases |nodes|
  {
    if nodes != [] {
      var n := |nodes|;
      var front := nodes[..n - 1];
      IdsMembers(front, id);
      if id in Ids(front) {
        var i :| 0 <= i < |front| && (front[i].id == id || id in Ids(front[i].subordinates));
        assert nodes[i] == front[i];
      }
      if exists i :: 0 <= i < n && (nodes[i].id == id || id in Ids(nodes[i].subordinates)) {
        var i :| 0 <= i < n && (nodes[i].id == id || id in Ids(nodes[i].subordinates));
        if i < n - 1 {
          assert front[i] == nodes[i];
        }
      }
    }
  }

  /** Setting the flags changes no id and no position. */
  lemma {:induction false} SetAllIds(nodes: seq<EmployeeNode>, b: bool)
    ensures Ids(SetAll(nodes, b)) == Ids(nodes)
    decreases nodes
  {
    if nodes != [] {
      var n := |nodes|;
      var front := nodes[..n - 1];
      SetAllIds(front, b);
      SetAllIds(nodes[n - 1].subordinates, b);
      assert SetAll(nodes, b)[..n - 1] == SetAll(front, b);
    }
  }

  /** Setting the flags twice is setting them once, to the second value. */
  lemma {:induction false} SetAllTwice(nodes: seq<EmployeeNode>, a: bool, b: bool)
    ensures SetAll(SetAll(nodes, a), b) == SetAll(nodes, b)
    decreases nodes
  {
    forall i | 0 <= i < |nodes| ensures SetAll(SetAll(nodes, a), b)[i] == SetAll(nodes, b)[i] {
      SetAllTwice(nodes[i].subordinates, a, b);
    }
  }

  /** With every flag set, the flags agree with any list holding every id of the forest. */
  lemma {:induction false} ExpandedFlagsMatch(nodes: seq<EmployeeNode>, xs: seq<int>)
    requires forall id :: id in Ids(nodes) ==> id in xs
    ensures FlagsMatch(SetAll(nodes, true), xs)
    decreases nodes
  {
    forall i | 0 <= i < |nodes|
      ensures SetAll(nodes, true)[i].isExpanded == (SetAll(nodes, true)[i].id in xs)
      ensures FlagsMatch(SetAll(nodes, true)[i].subordinates, xs)
    {
      IdsMembers(nodes, nodes[i].id);
      forall id | id in Ids(nodes[i].subordinates) ensures id in xs {
        IdsMembers(nodes, id);
      }
      ExpandedFlagsMatch(nodes[i].subordinates, xs);
    }
  }

  /** With every flag cleared, the flags agree with any list holding no id of the forest. */
  lemma {:induction false} CollapsedFlagsMatch(nodes: seq<EmployeeNode>, xs: seq<int>)
    requires forall id :: id in Ids(nodes) ==> id !in xs
    ensures FlagsMatch(SetAll(nodes, false), xs)
    decreases nodes
  {
    forall i | 0 <= i < |nodes|
      ensures SetAll(nodes, false)[i].isExpanded == (SetAll(nodes, false)[i].id in xs)
      ensures FlagsMatch(SetAll(nodes, false)[i].subordinates, xs)
    {
      IdsMembers(nodes, nodes[i].id);
      forall id | id in Ids(nodes[i].subordinates) ensures id !in xs {
        IdsMembers(nodes, id);
      }
      CollapsedFlagsMatch(nodes[i].subordinates, xs);
    }
  }

  /**
   * A forest is determined by its shape and the set of expanded ids: two forests of the same
   * shape whose flags agree with lists holding the same ids are equal.
   */
  lemma {:induction false} ShapeAndFlagsDetermine(a: seq<EmployeeNode>, b: seq<EmployeeNode>, xs: seq<int>, ys: seq<int>)
    requires SameShape(a, b)
    requires FlagsMatch(a, xs) && FlagsMatch(b, ys)
    requires forall id :: id in xs <==> id in ys
    ensures a == b
    decreases a
  {
    assert |a| == |SetAll(a, false)| == |SetAll(b, false)| == |b|;
    forall i | 0 <= i < |a| ensures a[i] == b[i] {
      assert SetAll(a, false)[i] == SetAll(b, false)[i];
      ShapeAndFlagsDetermine(a[i].subordinates, b[i].subordinates, xs, ys);
    }
  }

  /** Flags agreement depends only on which of the forest's own ids the list holds. */
  lemma {:induction false} FlagsMatchFrame(nodes: seq<EmployeeNode>, xs: seq<int>, ys: seq<int>)
    requires FlagsMatch(nodes, xs)
    requires forall id :: id in Ids(nodes) ==> (id in xs <==> id in ys)
    ensures FlagsMatch(nodes, ys)
    decreases nodes
  {
    forall i | 0 <= i < |nodes| ensures nodes[i].isExpanded == (nodes[i].id in ys) && FlagsMatch(nodes[i].subordinates, ys) {
      IdsMembers(nodes, nodes[i].id);
      forall id | id in Ids(nodes[i].subordinates) ensures id in xs <==> id in ys {
        IdsMembers(nodes, id);
      }
      FlagsMatchFrame(nodes[i].subordinates, xs, ys);
    }
  }

  /** Forests of the same shape have the same ids in the same order. */
  lemma SameShapeIds(a: seq<EmployeeNode>, b: seq<EmployeeNode>)
    requires SameShape(a, b)
    ensures Ids(a) == Ids(b)
  {
    SetAllIds(a, false);
    SetAllIds(b, false);
  }
}
