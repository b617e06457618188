/**
 * The traversals of the expansion reducers in src/store/slices/employeeSlice.ts, read as
 * functions from the forest and the `expandedNodes` list before the traversal to the two
 * after it: `toggleExpansion` flips the node with the given id and stops descending there,
 * `expandAll` sets every flag and appends every missing id in preorder, `collapseAll` clears
 * every flag (the reducer then empties the list).
 */
module Expansion {
  import opened Types
  import opened IdLists
  import opened Forest

  /** `toggleExpansion(nodes)` for `nodeId == id`: the forest and the list after it. */
  function Toggle(nodes: seq<EmployeeNode>, id: int, xs: seq<int>): (seq<EmployeeNode>, seq<int>)
    decreases nodes
  {
    if nodes == [] then ([], xs)
    else
      var front, last := nodes[..|nodes| - 1], nodes[|nodes| - 1];
      var (front', xs1) := Toggle(front, id, xs);
      if last.id == id then
        var b := !last.isExpanded;
        (front' + [last.(isExpanded := b)], if b then Including(xs1, id) else Without(xs1, id))
      else
        var (subs', xs2) := Toggle(last.subordinates, id, xs1);
        (front' + [last.(subordinates := subs')], xs2)
  }

  /** `expandAll(nodes)`: the forest and the list after it. */
  function ExpandAll(nodes: seq<EmployeeNode>, xs: seq<int>): (seq<EmployeeNode>, seq<int>)
    decreases nodes
  {
    if nodes == [] then ([], xs)
    else
      var front, last := nodes[..|nodes| - 1], nodes[|nodes| - 1];
      var (front', xs1) := ExpandAll(front, xs);
      var (subs', xs2) := ExpandAll(last.subordinates, Including(xs1, last.id));
      (front' + [last.(isExpanded := true, subordinates := subs')], xs2)
  }

  /** `collapseAll(nodes)`: every flag cleared. */
  function CollapseAll(nodes: seq<EmployeeNode>): seq<EmployeeNode>
  {
    SetAll(nodes, false)
  }

  /** The last node of a non-empty forest, split off. */
  lemma SplitLast(nodes: seq<EmployeeNode>)
    requires nodes != []
    ensures nodes == nodes[..|nodes| - 1] + [nodes[|nodes| - 1]]
    ensures Ids(nodes) == Ids(nodes[..|nodes| - 1]) + [nodes[|nodes| - 1].id] + Ids(nodes[|nodes| - 1].subordinates)
  {
  }

  /** Replacing the last node keeps the front's flags-cleared image. */
  lemma SetAllSnoc(front: seq<EmployeeNode>, front': seq<EmployeeNode>, last: EmployeeNode, last': EmployeeNode)
    requires SameShape(front, front')
    requires last.(isExpanded := false, subordinates := SetAll(last.subordinates, false)) ==
             last'.(isExpanded := false, subordinates := SetAll(last'.subordinates, false))
    ensures SameShape(front + [last], front' + [last'])
  {
    var a, b := SetAll(front + [last], false), SetAll(front' + [last'], false);
    assert |SetAll(front, false)| == |SetAll(front', false)|;
    forall i | 0 <= i < |a| ensures a[i] == b[i] {
      if i < |front| {
        assert SetAll(front, false)[i] == SetAll(front', false)[i];
      }
    }
  }

  /** Toggling an id that is not in the forest changes neither the forest nor the list. */
  lemma {:induction false} ToggleAbsent(nodes: seq<EmployeeNode>, id: int, xs: seq<int>)
    requires id !in Ids(nodes)
    ensures Toggle(nodes, id, xs) == (nodes, xs)
    decreases nodes
  {
    if nodes != [] {
      SplitLast(nodes);
      var front, last := nodes[..|nodes| - 1], nodes[|nodes| - 1];
      ToggleAbsent(front, id, xs);
      ToggleAbsent(last.subordinates, id, xs);
    }
  }

  /**
   * With distinct ids and flags agreeing with a duplicate-free list, toggling an id in the
   * forest removes it from the list if present and appends it if absent; the forest keeps its
   * shape and its flags agree with the new list, so the node with that id, and only it, flips.
   */
  lemma {:induction false} ToggleSpec(nodes: seq<EmployeeNode>, id: int, xs: seq<int>)
    requires NoDup(Ids(nodes)) && FlagsMatch(nodes, xs) && NoDup(xs)
    ensures id in Ids(nodes) ==> Toggle(nodes, id, xs).1 == if id in xs then Without(xs, id) else Including(xs, id)
    ensures id !in Ids(nodes) ==> Toggle(nodes, id, xs) == (nodes, xs)
    ensures SameShape(Toggle(nodes, id, xs).0, nodes)
    ensures FlagsMatch(Toggle(nodes, id, xs).0, Toggle(nodes, id, xs).1)
    ensures NoDup(Toggle(nodes, id, xs).1)
    decreases nodes, 1
  {
    if id !in Ids(nodes) {
      ToggleAbsent(nodes, id, xs);
      SetAllIds(nodes, false);
    } else {
      SplitLast(nodes);
      if nodes[|nodes| - 1].id == id {
        ToggleHere(nodes, id, xs);
      } else if id in Ids(nodes[..|nodes| - 1]) {
        ToggleInFront(nodes, id, xs);
      } else {
        ToggleBelow(nodes, id, xs);
      }
    }
  }

  /** `ToggleSpec` when the id is the last root's: only that root flips. */
  lemma ToggleHere(nodes: seq<EmployeeNode>, id: int, xs: seq<int>)
    requires NoDup(Ids(nodes)) && FlagsMatch(nodes, xs) && NoDup(xs)
    requires nodes != [] && nodes[|nodes| - 1].id == id
    ensures Toggle(nodes, id, xs).1 == if id in xs then Without(xs, id) else Including(xs, id)
    ensures SameShape(Toggle(nodes, id, xs).0, nodes)
    ensures FlagsMatch(Toggle(nodes, id, xs).0, Toggle(nodes, id, xs).1)
    ensures NoDup(Toggle(nodes, id, xs).1)
  {
    SplitLast(nodes);
    var front, last := nodes[..|nodes| - 1], nodes[|nodes| - 1];
    NoDupParts(Ids(front), [last.id], Ids(last.subordinates));
    assert FlagsMatch(front, xs) by {
      forall i | 0 <= i < |front| ensures front[i] == nodes[i] { }
    }
    assert id !in Ids(front) && id !in Ids(last.subordinates);
    ToggleAbsent(front, id, xs);
    var flip := if id in xs then Without(xs, id) else Including(xs, id);
    WithoutMembers(xs, id);
    IncludingSpec(xs, id);
    WithoutNoDup(xs, id);
    assert last.isExpanded == (id in xs);
    FlagsMatchFrame(front, xs, flip);
    FlagsMatchFrame(last.subordinates, xs, flip);
    assert Toggle(nodes, id, xs) == (front + [last.(isExpanded := !last.isExpanded)], flip);
    SetAllSnoc(front, front, last, last.(isExpanded := !last.isExpanded));
  }

  /** `ToggleSpec` when the id is in the front of the forest: the last tree is left alone. */
  lemma {:induction false} ToggleInFront(nodes: seq<EmployeeNode>, id: int, xs: seq<int>)
    requires NoDup(Ids(nodes)) && FlagsMatch(nodes, xs) && NoDup(xs)
    requires nodes != [] && id in Ids(nodes[..|nodes| - 1])
    ensures Toggle(nodes, id, xs).1 == if id in xs then Without(xs, id) else Including(xs, id)
    ensures SameShape(Toggle(nodes, id, xs).0, nodes)
    ensures FlagsMatch(Toggle(nodes, id, xs).0, Toggle(nodes, id, xs).1)
    ensures NoDup(Toggle(nodes, id, xs).1)
    decreases nodes, 0
  {
    SplitLast(nodes);
    var front, last := nodes[..|nodes| - 1], nodes[|nodes| - 1];
    NoDupParts(Ids(front), [last.id], Ids(last.subordinates));
    assert FlagsMatch(front, xs) by {
      forall i | 0 <= i < |front| ensures front[i] == nodes[i] { }
    }
    ToggleSpec(front, id, xs);
    var (front', xs1) := Toggle(front, id, xs);
    WithoutMembers(xs, id);
    IncludingSpec(xs, id);
    assert id != last.id && id !in Ids(last.subordinates);
    ToggleAbsent(last.subordinates, id, xs1);
    assert Toggle(nodes, id, xs) == (front' + [last], xs1);
    FlagsMatchFrame(last.subordinates, xs, xs1);
    SetAllSnoc(front, front', last, last);
  }

  /** `ToggleSpec` when the id is below the last root: the front is left alone. */
  lemma {:induction false} ToggleBelow(nodes: seq<EmployeeNode>, id: int, xs: seq<int>)
    requires NoDup(Ids(nodes)) && FlagsMatch(nodes, xs) && NoDup(xs)
    requires nodes != [] && id in Ids(nodes[|nodes| - 1].subordinates)
    ensures Toggle(nodes, id, xs).1 == if id in xs then Without(xs, id) else Including(xs, id)
    ensures SameShape(Toggle(nodes, id, xs).0, nodes)
    ensures FlagsMatch(Toggle(nodes, id, xs).0, Toggle(nodes, id, xs).1)
    ensures NoDup(Toggle(nodes, id, xs).1)
    decreases nodes, 0
  {
    SplitLast(nodes);
    var front, last := nodes[..|nodes| - 1], nodes[|nodes| - 1];
    NoDupParts(Ids(front), [last.id], Ids(last.subordinates));
    assert FlagsMatch(front, xs) by {
      forall i | 0 <= i < |front| ensures front[i] == nodes[i] { }
    }
    assert id != last.id && id !in Ids(front);
    ToggleAbsent(front, id, xs);
    ToggleSpec(last.subordinates, id, xs);
    var (subs', xs2) := Toggle(last.subordinates, id, xs);
    WithoutMembers(xs, id);
    IncludingSpec(xs, id);
    var last' := last.(subordinates := subs');
    assert Toggle(nodes, id, xs) == (front + [last'], xs2);
    FlagsMatchFrame(front, xs, xs2);
    assert last'.isExpanded == (last'.id in xs2);
    FlagsMatchSnoc(front, last', xs2);
    SetAllSnoc(front, front, last, last');
  }

  /** Flags agree with a list on a forest when they agree on its front and on its last tree. */
  lemma FlagsMatchSnoc(front: seq<EmployeeNode>, last: EmployeeNode, xs: seq<int>)
    requires FlagsMatch(front, xs) && last.isExpanded == (last.id in xs) && FlagsMatch(last.subordinates, xs)
    ensures FlagsMatch(front + [last], xs)
  {
    var nodes := front + [last];
    forall i | 0 <= i < |nodes| ensures nodes[i].isExpanded == (nodes[i].id in xs) && FlagsMatch(nodes[i].subordinates, xs) {
      if i < |front| {
        assert nodes[i] == front[i];
      }
    }
  }

  /** Toggling the same id twice restores the forest, and restores the list as a set; exactly when the node started collapsed. */
  lemma ToggleTwice(nodes: seq<EmployeeNode>, id: int, xs: seq<int>)
    requires NoDup(Ids(nodes)) && FlagsMatch(nodes, xs) && NoDup(xs)
    ensures var (t1, xs1) := Toggle(nodes, id, xs);
      var (t2, xs2) := Toggle(t1, id, xs1);
      t2 == nodes && (forall k :: k in xs2 <==> k in xs) && multiset(xs2) == multiset(xs) &&
      (id !in xs ==> xs2 == xs)
  {
    var (t1, xs1) := Toggle(nodes, id, xs);
    ToggleSpec(nodes, id, xs);
    SameShapeIds(t1, nodes);
    ToggleSpec(t1, id, xs1);
    var (t2, xs2) := Toggle(t1, id, xs1);
    SameShapeIds(t2, t1);
    WithoutMembers(xs, id);
    IncludingSpec(xs, id);
    if id in Ids(nodes) {
      if id in xs {
        assert xs1 == Without(xs, id);
        PushAfterWithout(xs, id);
        assert xs2 == Including(xs1, id);
      } else {
        assert xs1 == xs + [id];
        WithoutAfterPush(xs, id);
      }
    }
    ShapeAndFlagsDetermine(t2, nodes, xs2, xs);
  }

  /** Expanding everything sets every flag and appends, in preorder, every id of the forest not yet in the list. */
  lemma {:induction false} ExpandAllSpec(nodes: seq<EmployeeNode>, xs: seq<int>)
    ensures ExpandAll(nodes, xs).0 == SetAll(nodes, true)
    ensures ExpandAll(nodes, xs).1 == IncludingAll(xs, Ids(nodes))
    decreases nodes
  {
    if nodes != [] {
      SplitLast(nodes);
      var front, last := nodes[..|nodes| - 1], nodes[|nodes| - 1];
      ExpandAllSpec(front, xs);
      var xs1 := IncludingAll(xs, Ids(front));
      ExpandAllSpec(last.subordinates, Including(xs1, last.id));
      assert [last.id][..0] == [];
      assert IncludingAll(xs1, [last.id]) == Including(xs1, last.id);
      IncludingAllConcat(xs, Ids(front), [last.id]);
      IncludingAllConcat(xs, Ids(front) + [last.id], Ids(last.subordinates));
      var r := SetAll(nodes, true);
      forall i | 0 <= i < |front| ensures r[i] == SetAll(front, true)[i] { }
      assert r == SetAll(front, true) + [r[|nodes| - 1]];
    }
  }

  /**
   * After expanding everything the flags agree with the new list, the shape is unchanged, the
   * old list is a prefix of the new one (ids outside the forest are kept), the new list holds
   * exactly the old ids and the forest's ids, and it has no duplicates if the old one had none.
   */
  lemma ExpandAllInvariant(nodes: seq<EmployeeNode>, xs: seq<int>)
    ensures var (t, ys) := ExpandAll(nodes, xs);
      FlagsMatch(t, ys) && SameShape(t, nodes) && xs <= ys &&
      (forall k :: k in ys <==> k in xs || k in Ids(nodes)) &&
      (NoDup(xs) ==> NoDup(ys))
  {
    ExpandAllSpec(nodes, xs);
    IncludingAllSpec(xs, Ids(nodes));
    ExpandedFlagsMatch(nodes, IncludingAll(xs, Ids(nodes)));
    SetAllTwice(nodes, true, false);
  }

  /** Collapsing everything keeps the shape and leaves flags that agree with the empty list. */
  lemma CollapseAllSpec(nodes: seq<EmployeeNode>)
    ensures SameShape(CollapseAll(nodes), nodes) && Ids(CollapseAll(nodes)) == Ids(nodes)
    ensures FlagsMatch(CollapseAll(nodes), [])
  {
    SetAllTwice(nodes, false, false);
    SetAllIds(nodes, false);
    CollapsedFlagsMatch(nodes, []);
  }

  /** Collapsing then expanding leaves every node expanded and exactly the forest's ids, once each, in the list. */
  lemma CollapseThenExpand(nodes: seq<EmployeeNode>)
    ensures var (t, ys) := ExpandAll(CollapseAll(nodes), []);
      t == SetAll(nodes, true) && (forall k :: k in ys <==> k in Ids(nodes)) && NoDup(ys)
  {
    var c := CollapseAll(nodes);
    ExpandAllSpec(c, []);
    SetAllTwice(nodes, false, true);
    SetAllIds(nodes, false);
    IncludingAllSpec([], Ids(nodes));
  }
}
