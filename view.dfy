/**
 * What the `EmployeeTree` component (src/components/employee/EmployeeTree.tsx) shows for a
 * state: the nodes `renderEmployeeNode` reaches, the highlight rule, the "Total Employees"
 * and "Expanded Nodes" figures, and which of loading, error, empty or tree it renders.
 */
module TreeView {
  import opened Wrappers
  import opened Types
  import opened Text
  import opened IdLists
  import opened Forest
  import opened Search

  /** The ids `renderEmployeeNode` renders, in render order: a node, then its subordinates only when it is expanded and has some. */
  function VisibleIds(nodes: seq<EmployeeNode>): seq<int>
    decreases nodes
  {
    if nodes == [] then []
    else
      var front, last := nodes[..|nodes| - 1], nodes[|nodes| - 1];
      VisibleIds(front) + [last.id] +
      (if last.isExpanded && |last.subordinates| > 0 then VisibleIds(last.subordinates) else [])
  }

  /** `isHighlighted`: the search query is non-empty and the lower-cased name contains the lower-cased query. */
  predicate Highlighted(n: EmployeeNode, searchQuery: string)
  {
    searchQuery != "" && Contains(Lower(n.name), Lower(searchQuery))
  }

  /** The ids of the forest's nodes the highlight rule marks, whether or not they are rendered. */
  function HighlightedIds(nodes: seq<EmployeeNode>, searchQuery: string): set<int>
    decreases nodes
  {
    if nodes == [] then {}
    else
      var front, last := nodes[..|nodes| - 1], nodes[|nodes| - 1];
      HighlightedIds(front, searchQuery) + (if Highlighted(last, searchQuery) then {last.id} else {}) +
      HighlightedIds(last.subordinates, searchQuery)
  }

  /** `countSubordinates(node)`: the node itself plus everyone below it. */
  function CountSubordinates(n: EmployeeNode): nat
    decreases n, 1
  {
    1 + SumCounts(n.subordinates)
  }

  /** `nodes.reduce((sum, sub) => sum + countSubordinates(sub), 0)`. */
  function SumCounts(nodes: seq<EmployeeNode>): nat
    decreases nodes, 0
  {
    if nodes == [] then 0 else SumCounts(nodes[..|nodes| - 1]) + CountSubordinates(nodes[|nodes| - 1])
  }

  /** The "Total Employees" figure. */
  function TotalEmployees(tree: seq<EmployeeNode>): nat
  {
    if |tree| > 0 then SumCounts(tree) else 0
  }

  /** What the component renders, in priority order. */
  datatype Display = Loading | ErrorAlert(message: string) | NoEmployees | Chart

  /** The early returns: loading first, then a truthy (non-empty) error, then an empty forest, then the chart. */
  function DisplayOf(isLoading: bool, error: Option<string>, tree: seq<EmployeeNode>): Display
  {
    if isLoading then Loading
    else if error.Some? && error.value != "" then ErrorAlert(error.value)
    else if |tree| == 0 then NoEmployees
    else Chart
  }

  /** The number of expanded nodes in the forest. */
  function ExpandedCount(nodes: seq<EmployeeNode>): nat
    decreases nodes
  {
    if nodes == [] then 0
    else
      var last := nodes[|nodes| - 1];
      ExpandedCount(nodes[..|nodes| - 1]) + (if last.isExpanded then 1 else 0) + ExpandedCount(last.subordinates)
  }

  /** The ids of the expanded nodes, in preorder. */
  function ExpandedIds(nodes: seq<EmployeeNode>): (r: seq<int>)
    ensures |r| == ExpandedCount(nodes)
    decreases nodes
  {
    if nodes == [] then []
    else
      var last := nodes[|nodes| - 1];
      ExpandedIds(nodes[..|nodes| - 1]) + (if last.isExpanded then [last.id] else []) + ExpandedIds(last.subordinates)
  }

  /** "Total Employees" counts every node reachable in the forest: the length of its preorder. */
  lemma {:induction false} TotalIsNodeCount(tree: seq<EmployeeNode>)
    ensures TotalEmployees(tree) == |Ids(tree)|
  {
    SumCountsIsSize(tree);
  }

  /**
   * The early returns in priority order: the spinner while loading, otherwise the alert for a
   * non-empty error, otherwise "No employees found" for an empty forest, otherwise the chart,
   * whose "Total Employees" is then at least the number of top-level nodes.
   */
  lemma DisplayPriority(isLoading: bool, error: Option<string>, tree: seq<EmployeeNode>)
    ensures DisplayOf(isLoading, error, tree) == Loading <==> isLoading
    ensures DisplayOf(isLoading, error, tree).ErrorAlert? <==> !isLoading && error.Some? && error.value != ""
    ensures DisplayOf(isLoading, error, tree).ErrorAlert? ==> DisplayOf(isLoading, error, tree).message == error.value
    ensures DisplayOf(isLoading, error, tree) == NoEmployees <==>
      !isLoading && (error.None? || error.value == "") && tree == []
    ensures DisplayOf(isLoading, error, tree) == Chart ==> TotalEmployees(tree) >= |tree| > 0
  {
    TotalIsNodeCount(tree);
    IdsAtLeastRoots(tree);
  }

  /** A forest's preorder lists at least its top-level nodes. */
  lemma {:induction false} IdsAtLeastRoots(nodes: seq<EmployeeNode>)
    ensures |Ids(nodes)| >= |nodes|
    decreases nodes
  {
    if nodes != [] {
      IdsAtLeastRoots(nodes[..|nodes| - 1]);
    }
  }

  /** The sum of the counts of a forest is the number of its nodes. */
  lemma {:induction false} SumCountsIsSize(nodes: seq<EmployeeNode>)
    ensures SumCounts(nodes) == |Ids(nodes)|
    decreases nodes
  {
    if nodes != [] {
      var front, last := nodes[..|nodes| - 1], nodes[|nodes| - 1];
      SumCountsIsSize(front);
      SumCountsIsSize(last.subordinates);
    }
  }

  /** A node is rendered iff it is a top-level node, or it sits below a rendered expanded node. */
  lemma {:induction false} VisibleMembers(nodes: seq<EmployeeNode>, id: int)
    ensures id in VisibleIds(nodes) <==>
      exists i :: 0 <= i < |nodes| && (nodes[i].id == id || (nodes[i].isExpanded && id in VisibleIds(nodes[i].subordinates)))
    decreases |nodes|
  {
    if nodes != [] {
      var n := |nodes|;
      var front := nodes[..n - 1];
      VisibleMembers(front, id);
      if id in VisibleIds(front) {
        var i :| 0 <= i < |front| && (front[i].id == id || (front[i].isExpanded && id in VisibleIds(front[i].subordinates)));
        assert nodes[i] == front[i];
      }
      if exists i :: 0 <= i < n && (nodes[i].id == id || (nodes[i].isExpanded && id in VisibleIds(nodes[i].subordinates))) {
        var i :| 0 <= i < n && (nodes[i].id == id || (nodes[i].isExpanded && id in VisibleIds(nodes[i].subordinates)));
        if i < n - 1 {
          assert front[i] == nodes[i];
        } else if nodes[i].id != id {
          assert VisibleIds(nodes[i].subordinates) != [];
          assert |nodes[i].subordinates| > 0;
        }
      }
    }
  }

  /** Only nodes of the forest are rendered. */
  lemma {:induction false} VisibleAreNodes(nodes: seq<EmployeeNode>)
    ensures forall id :: id in VisibleIds(nodes) ==> id in Ids(nodes)
    decreases nodes
  {
    if nodes != [] {
      var front, last := nodes[..|nodes| - 1], nodes[|nodes| - 1];
      VisibleAreNodes(front);
      VisibleAreNodes(last.subordinates);
    }
  }

  /** With every node expanded the whole forest is rendered, in preorder. */
  lemma {:induction false} AllExpandedAllVisible(nodes: seq<EmployeeNode>)
    ensures VisibleIds(SetAll(nodes, true)) == Ids(nodes)
    decreases nodes
  {
    if nodes != [] {
      var n := |nodes|;
      var front, last := nodes[..n - 1], nodes[n - 1];
      AllExpandedAllVisible(front);
      AllExpandedAllVisible(last.subordinates);
      assert SetAll(nodes, true)[..n - 1] == SetAll(front, true);
      if |last.subordinates| == 0 {
        assert Ids(last.subordinates) == [];
      }
    }
  }

  /** With every node collapsed only the top-level nodes are rendered. */
  lemma {:induction false} AllCollapsedRootsVisible(nodes: seq<EmployeeNode>)
    ensures VisibleIds(SetAll(nodes, false)) == seq(|nodes|, i requires 0 <= i < |nodes| => nodes[i].id)
    decreases |nodes|
  {
    if nodes != [] {
      var n := |nodes|;
      AllCollapsedRootsVisible(nodes[..n - 1]);
      assert SetAll(nodes, false)[..n - 1] == SetAll(nodes[..n - 1], false);
    }
  }

  /**
   * A node is highlighted exactly when the query is non-empty and the node passes the name test
   * `searchAndExpandToEmployee` applies with the lower-cased query; an empty query highlights
   * nothing, and lower-casing the query first changes nothing.
   */
  lemma HighlightIsNameMatch(n: EmployeeNode, searchQuery: string)
    ensures Highlighted(n, searchQuery) <==> searchQuery != "" && NameMatches(n, Lower(searchQuery))
    ensures !Highlighted(n, "")
    ensures Highlighted(n, Lower(searchQuery)) == Highlighted(n, searchQuery)
  {
    LowerIdempotent(searchQuery);
  }

  /**
   * Over a whole forest, the highlighted ids are the ids the search matches with the lower-cased
   * query, and none for an empty query.
   */
  lemma {:induction false} HighlightedAreMatches(nodes: seq<EmployeeNode>, searchQuery: string)
    ensures searchQuery != "" ==> HighlightedIds(nodes, searchQuery) == MatchingIds(nodes, Lower(searchQuery))
    ensures searchQuery == "" ==> HighlightedIds(nodes, searchQuery) == {}
    decreases nodes
  {
    if nodes != [] {
      var front, last := nodes[..|nodes| - 1], nodes[|nodes| - 1];
      HighlightedAreMatches(front, searchQuery);
      HighlightedAreMatches(last.subordinates, searchQuery);
      HighlightIsNameMatch(last, searchQuery);
    }
  }

  /** The ids of the expanded nodes are ids of the forest, so distinct when the forest's are. */
  lemma {:induction false} ExpandedIdsDistinct(nodes: seq<EmployeeNode>)
    requires NoDup(Ids(nodes))
    ensures NoDup(ExpandedIds(nodes))
    ensures forall id :: id in ExpandedIds(nodes) ==> id in Ids(nodes)
    decreases nodes
  {
    if nodes != [] {
      var front, last := nodes[..|nodes| - 1], nodes[|nodes| - 1];
      SplitIds(front, last);
      NoDupParts(Ids(front), [last.id], Ids(last.subordinates));
      ExpandedIdsDistinct(front);
      ExpandedIdsDistinct(last.subordinates);
      var mid: seq<int> := if last.isExpanded then [last.id] else [];
      assert nodes == front + [last];
      var a, c := ExpandedIds(front), ExpandedIds(last.subordinates);
      forall x, y | x in a && y in mid + c ensures x != y {
        assert x in Ids(front);
        assert y in [last.id] + Ids(last.subordinates);
      }
      forall x, y | x in mid && y in c ensures x != y {
        assert x in [last.id];
        assert y in Ids(last.subordinates);
      }
      JoinNoDup(ExpandedIds(front), mid, ExpandedIds(last.subordinates));
    }
  }

  /** The preorder of a forest with its last node split off. */
  lemma SplitIds(front: seq<EmployeeNode>, last: EmployeeNode)
    ensures Ids(front + [last]) == Ids(front) + [last.id] + Ids(last.subordinates)
  {
    assert (front + [last])[..|front|] == front;
  }

  /** A duplicate-free sequence all of whose elements are in another is no longer than its set of elements. */
  lemma {:induction false} NoDupIncludedShorter(s: seq<int>, xs: seq<int>)
    requires NoDup(s) && forall v :: v in s ==> v in xs
    ensures |s| <= |set v | v in xs|
    decreases |s|
  {
    if s != [] {
      var last := s[|s| - 1];
      var front := s[..|s| - 1];
      assert forall a :: 0 <= a < |front| ==> front[a] != last;
      WithoutMembers(xs, last);
      NoDupIncludedShorter(front, Without(xs, last));
      RemoveOne(xs, last);
    }
  }

  /** Removing a present value drops exactly one element from the set of elements. */
  lemma RemoveOne(xs: seq<int>, v: int)
    requires v in xs
    ensures |set y | y in Without(xs, v)| + 1 == |set y | y in xs|
  {
    WithoutMembers(xs, v);
    var a := set y | y in Without(xs, v);
    var b := set y | y in xs;
    assert forall y :: y in b <==> y in a || y == v;
    assert b == a + {v};
    assert v !in a;
  }

  /** With distinct ids and flags agreeing with the list, the tree never has more expanded nodes than the list has ids. */
  lemma ExpandedCountBound(tree: seq<EmployeeNode>, xs: seq<int>)
    requires NoDup(Ids(tree)) && FlagsMatch(tree, xs)
    ensures ExpandedCount(tree) <= |xs|
  {
    ExpandedIdsDistinct(tree);
    ExpandedIdsInList(tree, xs);
    NoDupIncludedShorter(ExpandedIds(tree), xs);
    SetOfSeqShorter(xs);
  }

  /** Expanded nodes have their ids in the list the flags agree with. */
  lemma {:induction false} ExpandedIdsInList(nodes: seq<EmployeeNode>, xs: seq<int>)
    requires FlagsMatch(nodes, xs)
    ensures forall id :: id in ExpandedIds(nodes) ==> id in xs
    decreases nodes
  {
    if nodes != [] {
      var n := |nodes|;
      var front, last := nodes[..n - 1], nodes[n - 1];
      assert FlagsMatch(front, xs) by {
        forall i | 0 <= i < |front| ensures front[i] == nodes[i] { }
      }
      ExpandedIdsInList(front, xs);
      ExpandedIdsInList(last.subordinates, xs);
    }
  }

  /** A sequence has at most as many distinct elements as it has elements. */
  lemma {:induction false} SetOfSeqShorter(xs: seq<int>)
    ensures |set v | v in xs| <= |xs|
    decreases |xs|
  {
    if xs != [] {
      var front := xs[..|xs| - 1];
      SetOfSeqShorter(front);
      assert (set v | v in xs) == (set v | v in front) + {xs[|xs| - 1]};
    }
  }
}
