/**
 * Properties of the tree `buildEmployeeTree` returns: its flags agree with `expandedNodes`,
 * no record appears twice, every record whose manager chain reaches the top appears exactly
 * once (so dangling and cyclic records vanish), roots and subordinates come in list order,
 * and levels are one more than the manager's when managers precede their subordinates.
 */
module TreeFacts {
  import opened Wrappers
  import opened Types
  import opened IdLists
  import opened Forest
  import opened Hierarchy

  /** The node graph `NodeGraph` describes is shaped as the unfolding requires. */
  lemma GraphShaped(es: seq<Employee>, xs: seq<int>)
    ensures Shaped(es, NodeGraph(es, xs))
  {
  }

  /** How one unfolded node looks: record `c`'s fields, its unfolded subordinates, its slot's flag and level. */
  lemma UnfoldedAt(es: seq<Employee>, xs: seq<int>, cs: seq<nat>, p: seq<nat>, i: nat)
    requires UniqueIds(es) && IsChain(es, p) && |p| <= |es| && AttachedBelow(es, cs, p) && i < |cs|
    ensures IsChain(es, p + [cs[i]]) && |p + [cs[i]]| <= |es| && AttachedBelow(es, ChildIndices(es, cs[i]), p + [cs[i]])
    ensures var node := UnfoldAll(es, NodeGraph(es, xs), cs, p)[i];
      node.Record() == es[cs[i]] &&
      node.isExpanded == (es[cs[i]].id in xs) &&
      node.level == LevelAt(es, cs[i]) &&
      node.subordinates == UnfoldAll(es, NodeGraph(es, xs), ChildIndices(es, cs[i]), p + [cs[i]])
  {
    ChainStep(es, p, cs[i]);
    ChildrenAttached(es, p + [cs[i]]);
  }

  /** Unfolding a prefix of the indices gives the prefix of the nodes. */
  lemma UnfoldPrefix(es: seq<Employee>, xs: seq<int>, cs: seq<nat>, p: seq<nat>, n: nat)
    requires UniqueIds(es) && IsChain(es, p) && |p| <= |es| && AttachedBelow(es, cs, p) && n <= |cs|
    ensures AttachedBelow(es, cs[..n], p)
    ensures UnfoldAll(es, NodeGraph(es, xs), cs, p)[..n] == UnfoldAll(es, NodeGraph(es, xs), cs[..n], p)
  {
  }

  /** Every node of an unfolded forest is expanded exactly when its id is in `xs`. */
  lemma {:induction false} UnfoldFlagsMatch(es: seq<Employee>, xs: seq<int>, cs: seq<nat>, p: seq<nat>)
    requires UniqueIds(es) && IsChain(es, p) && |p| <= |es| && AttachedBelow(es, cs, p)
    ensures FlagsMatch(UnfoldAll(es, NodeGraph(es, xs), cs, p), xs)
    decreases |es| - |p|
  {
    var r := UnfoldAll(es, NodeGraph(es, xs), cs, p);
    forall i | 0 <= i < |cs| ensures r[i].isExpanded == (r[i].id in xs) && FlagsMatch(r[i].subordinates, xs) {
      UnfoldedAt(es, xs, cs, p, i);
      UnfoldFlagsMatch(es, xs, ChildIndices(es, cs[i]), p + [cs[i]]);
    }
  }

  /** Each built node has `isExpanded == expandedNodes.includes(id)`. */
  lemma TreeFlagsMatch(es: seq<Employee>, xs: seq<int>)
    requires UniqueIds(es)
    ensures FlagsMatch(EmployeeTree(es, xs), xs)
  {
    RootsAttached(es);
    UnfoldFlagsMatch(es, xs, RootIndices(es), []);
  }

  /** The unfolded forest's shape does not depend on the expanded list. */
  lemma {:induction false} UnfoldShape(es: seq<Employee>, xs: seq<int>, ys: seq<int>, cs: seq<nat>, p: seq<nat>)
    requires UniqueIds(es) && IsChain(es, p) && |p| <= |es| && AttachedBelow(es, cs, p)
    ensures SameShape(UnfoldAll(es, NodeGraph(es, xs), cs, p), UnfoldAll(es, NodeGraph(es, ys), cs, p))
    decreases |es| - |p|
  {
    var a := UnfoldAll(es, NodeGraph(es, xs), cs, p);
    var b := UnfoldAll(es, NodeGraph(es, ys), cs, p);
    forall i | 0 <= i < |cs| ensures SetAll(a, false)[i] == SetAll(b, false)[i] {
      UnfoldedAt(es, xs, cs, p, i);
      UnfoldedAt(es, ys, cs, p, i);
      UnfoldShape(es, xs, ys, ChildIndices(es, cs[i]), p + [cs[i]]);
    }
  }

  /** Rebuilding with a different expanded list changes flags only. */
  lemma TreeShape(es: seq<Employee>, xs: seq<int>, ys: seq<int>)
    requires UniqueIds(es)
    ensures SameShape(EmployeeTree(es, xs), EmployeeTree(es, ys))
  {
    RootsAttached(es);
    UnfoldShape(es, xs, ys, RootIndices(es), []);
  }

  /** How many times `id` occurs in a forest's preorder. */
  function Occurrences(nodes: seq<EmployeeNode>, id: int): nat
  {
    multiset(Ids(nodes))[id]
  }

  /** Occurrences in `ids` of the manager of record `j`, or 0 when the Map does not hold it. */
  function ParentCount(es: seq<Employee>, ids: seq<int>, j: nat): nat
    requires j < |es|
  {
    match ParentIndex(es, j)
    case None => 0
    case Some(m) => multiset(ids)[es[m].id]
  }

  /** The manager found for `j` is record `c` exactly when `j` names `c`'s id. */
  lemma ParentIndexIff(es: seq<Employee>, j: nat, c: nat)
    requires UniqueIds(es) && j < |es| && c < |es|
    ensures ParentIndex(es, j) == Some(c) <==> es[j].managerId == Some(es[c].id)
  {
    IdIndexOfUnique(es, c);
  }

  /** The preorder of an unfolded forest: the forest without its last root, that root, then its subordinates. */
  lemma IdsSnoc(es: seq<Employee>, xs: seq<int>, cs: seq<nat>, p: seq<nat>)
    requires UniqueIds(es) && IsChain(es, p) && |p| <= |es| && AttachedBelow(es, cs, p) && |cs| > 0
    ensures AttachedBelow(es, cs[..|cs| - 1], p)
    ensures IsChain(es, p + [cs[|cs| - 1]]) && |p + [cs[|cs| - 1]]| <= |es|
    ensures AttachedBelow(es, ChildIndices(es, cs[|cs| - 1]), p + [cs[|cs| - 1]])
    ensures var c := cs[|cs| - 1];
      Ids(UnfoldAll(es, NodeGraph(es, xs), cs, p)) ==
      Ids(UnfoldAll(es, NodeGraph(es, xs), cs[..|cs| - 1], p)) + [es[c].id] +
      Ids(UnfoldAll(es, NodeGraph(es, xs), ChildIndices(es, c), p + [c]))
  {
    var n := |cs|;
    UnfoldPrefix(es, xs, cs, p, n - 1);
    UnfoldedAt(es, xs, cs, p, n - 1);
  }

  /**
   * Record `j` occurs in an unfolded forest once for each time it is one of the forest's own
   * indices, plus once for each occurrence of its manager.
   */
  lemma {:induction false} IdMultiplicity(es: seq<Employee>, xs: seq<int>, cs: seq<nat>, p: seq<nat>, j: nat)
    requires UniqueIds(es) && IsChain(es, p) && |p| <= |es| && AttachedBelow(es, cs, p) && j < |es|
    ensures var r := UnfoldAll(es, NodeGraph(es, xs), cs, p);
      Occurrences(r, es[j].id) == multiset(cs)[j] + ParentCount(es, Ids(r), j)
    decreases |es| - |p|, |cs|
  {
    if cs != [] {
      var g := NodeGraph(es, xs);
      var n := |cs|;
      var front, c := cs[..n - 1], cs[n - 1];
      var r := UnfoldAll(es, g, cs, p);
      IdsSnoc(es, xs, cs, p);
      var rf := UnfoldAll(es, g, front, p);
      var subs := UnfoldAll(es, g, ChildIndices(es, c), p + [c]);
      IdMultiplicity(es, xs, front, p, j);
      IdMultiplicity(es, xs, ChildIndices(es, c), p + [c], j);
      ReportingCount(es, Some(es[c].id), |es|, j);
      ParentIndexIff(es, j, c);
      MultiplicityStep(es, j, cs, ChildIndices(es, c), Ids(r), Ids(rf), Ids(subs));
    }
  }

  /** The counting step of `IdMultiplicity`, free of the unfolding. */
  lemma MultiplicityStep(es: seq<Employee>, j: nat, cs: seq<nat>, children: seq<nat>,
                         ids: seq<int>, front: seq<int>, subs: seq<int>)
    requires UniqueIds(es) && j < |es| && |cs| > 0 && cs[|cs| - 1] < |es|
    requires ids == front + [es[cs[|cs| - 1]].id] + subs
    requires multiset(front)[es[j].id] == multiset(cs[..|cs| - 1])[j] + ParentCount(es, front, j)
    requires multiset(subs)[es[j].id] == multiset(children)[j] + ParentCount(es, subs, j)
    requires multiset(children)[j] == if ParentIndex(es, j) == Some(cs[|cs| - 1]) then 1 else 0
    ensures multiset(ids)[es[j].id] == multiset(cs)[j] + ParentCount(es, ids, j)
  {
    var c := cs[|cs| - 1];
    CountSnoc(cs, j);
    SplitOccurrences(front, es[c].id, subs, es[j].id);
    assert (es[j].id == es[c].id) == (j == c);
    match ParentIndex(es, j)
    case None =>
    case Some(m) =>
      SplitOccurrences(front, es[c].id, subs, es[m].id);
      assert (es[m].id == es[c].id) == (m == c);
  }

  /** Counting in a sequence of indices, last element split off. */
  lemma CountSnoc(cs: seq<nat>, j: nat)
    requires |cs| > 0
    ensures multiset(cs)[j] == multiset(cs[..|cs| - 1])[j] + (if cs[|cs| - 1] == j then 1 else 0)
  {
    assert cs == cs[..|cs| - 1] + [cs[|cs| - 1]];
    assert multiset(cs) == multiset(cs[..|cs| - 1]) + multiset([cs[|cs| - 1]]);
  }

  /** Counting in `a + [x] + b`. */
  lemma SplitOccurrences(a: seq<int>, x: int, b: seq<int>, id: int)
    ensures multiset(a + [x] + b)[id] == multiset(a)[id] + (if id == x then 1 else 0) + multiset(b)[id]
  {
    assert multiset(a + [x] + b) == multiset(a) + multiset([x]) + multiset(b);
  }

  /** Record `j`'s manager chain reaches a top-level record within `fuel` steps. */
  ghost predicate ReachesTop(es: seq<Employee>, j: nat, fuel: nat)
    requires j < |es|
    decreases fuel
  {
    es[j].managerId.None? ||
    (fuel > 0 && ParentIndex(es, j).Some? && ReachesTop(es, ParentIndex(es, j).value, fuel - 1))
  }

  /** More fuel never hurts. */
  lemma {:induction false} ReachesTopMonotone(es: seq<Employee>, j: nat, f: nat, g: nat)
    requires j < |es| && f <= g && ReachesTop(es, j, f)
    ensures ReachesTop(es, j, g)
    decreases f
  {
    if es[j].managerId.Some? {
      ReachesTopMonotone(es, ParentIndex(es, j).value, f - 1, g - 1);
    }
  }

  /** The end of a chain reaches the chain's start. */
  lemma {:induction false} ChainReachesTop(es: seq<Employee>, q: seq<nat>)
    requires UniqueIds(es) && IsChain(es, q) && |q| > 0
    ensures ReachesTop(es, q[|q| - 1], |q| - 1)
    decreases |q|
  {
    if |q| > 1 {
      var front := q[..|q| - 1];
      assert IsChain(es, front);
      ChainReachesTop(es, front);
      ParentIndexIff(es, q[|q| - 1], q[|q| - 2]);
    }
  }

  /** Records that never reach the top (dangling or cyclic) occur nowhere in an unfolded forest. */
  lemma {:induction false} UnrootedAbsent(es: seq<Employee>, xs: seq<int>, cs: seq<nat>, p: seq<nat>, j: nat)
    requires UniqueIds(es) && IsChain(es, p) && |p| <= |es| && AttachedBelow(es, cs, p) && j < |es|
    requires !ReachesTop(es, j, |es|)
    ensures Occurrences(UnfoldAll(es, NodeGraph(es, xs), cs, p), es[j].id) == 0
    decreases |es| - |p|, |cs|
  {
    if cs != [] {
      var g := NodeGraph(es, xs);
      var n := |cs|;
      var front, c := cs[..n - 1], cs[n - 1];
      var r := UnfoldAll(es, g, cs, p);
      IdsSnoc(es, xs, cs, p);
      var rf := UnfoldAll(es, g, front, p);
      var subs := UnfoldAll(es, g, ChildIndices(es, c), p + [c]);
      UnrootedAbsent(es, xs, front, p, j);
      UnrootedAbsent(es, xs, ChildIndices(es, c), p + [c], j);
      ChainEndNotUnrooted(es, p, c, j);
      SplitOccurrences(Ids(rf), es[c].id, Ids(subs), es[j].id);
    }
  }

  /** The record at the end of a chain reaches the top, so it is not a record that never does. */
  lemma ChainEndNotUnrooted(es: seq<Employee>, p: seq<nat>, c: nat, j: nat)
    requires UniqueIds(es) && IsChain(es, p + [c]) && |p + [c]| <= |es| && c < |es| && j < |es|
    requires !ReachesTop(es, j, |es|)
    ensures es[c].id != es[j].id
  {
    ChainReachesTop(es, p + [c]);
    assert (p + [c])[|p|] == c;
    ReachesTopMonotone(es, c, |p|, |es|);
    assert c != j;
  }

  /** Ids that belong to no record occur nowhere in an unfolded forest. */
  lemma {:induction false} ForeignAbsent(es: seq<Employee>, xs: seq<int>, cs: seq<nat>, p: seq<nat>, id: int)
    requires UniqueIds(es) && IsChain(es, p) && |p| <= |es| && AttachedBelow(es, cs, p)
    requires forall k :: 0 <= k < |es| ==> es[k].id != id
    ensures Occurrences(UnfoldAll(es, NodeGraph(es, xs), cs, p), id) == 0
    decreases |es| - |p|, |cs|
  {
    if cs != [] {
      var g := NodeGraph(es, xs);
      var n := |cs|;
      var front, c := cs[..n - 1], cs[n - 1];
      var r := UnfoldAll(es, g, cs, p);
      IdsSnoc(es, xs, cs, p);
      var rf := UnfoldAll(es, g, front, p);
      var subs := UnfoldAll(es, g, ChildIndices(es, c), p + [c]);
      ForeignAbsent(es, xs, front, p, id);
      ForeignAbsent(es, xs, ChildIndices(es, c), p + [c], id);
      SplitOccurrences(Ids(rf), es[c].id, Ids(subs), id);
    }
  }

  /** Record `j` occurs in the built tree once for being a root, plus once per occurrence of its manager. */
  lemma TreeMultiplicity(es: seq<Employee>, xs: seq<int>, j: nat)
    requires UniqueIds(es) && j < |es|
    ensures var t := EmployeeTree(es, xs);
      Occurrences(t, es[j].id) == (if es[j].managerId.None? then 1 else 0) + ParentCount(es, Ids(t), j)
  {
    RootsAttached(es);
    IdMultiplicity(es, xs, RootIndices(es), [], j);
    ReportingCount(es, None, |es|, j);
  }

  /** A record whose manager chain reaches the top occurs in the built tree exactly once. */
  lemma {:induction false} RootedOnce(es: seq<Employee>, xs: seq<int>, j: nat, fuel: nat)
    requires UniqueIds(es) && j < |es| && ReachesTop(es, j, fuel)
    ensures Occurrences(EmployeeTree(es, xs), es[j].id) == 1
    decreases fuel
  {
    TreeMultiplicity(es, xs, j);
    if es[j].managerId.Some? {
      RootedOnce(es, xs, ParentIndex(es, j).value, fuel - 1);
    }
  }

  /** No id occurs twice in the built tree: no two records share a node. */
  lemma TreeIdsDistinct(es: seq<Employee>, xs: seq<int>)
    requires UniqueIds(es)
    ensures NoDup(Ids(EmployeeTree(es, xs)))
  {
    var t := EmployeeTree(es, xs);
    RootsAttached(es);
    forall id ensures multiset(Ids(t))[id] <= 1 {
      if k :| 0 <= k < |es| && es[k].id == id {
        if ReachesTop(es, k, |es|) {
          RootedOnce(es, xs, k, |es|);
        } else {
          UnrootedAbsent(es, xs, RootIndices(es), [], k);
        }
      } else {
        ForeignAbsent(es, xs, RootIndices(es), [], id);
      }
    }
    NoDupIffCountsAtMostOne(Ids(t));
  }

  /** A record whose `managerId` names no record in the list (a dangling reference) is nowhere in the tree. */
  lemma DanglingDropped(es: seq<Employee>, xs: seq<int>, j: nat)
    requires UniqueIds(es) && j < |es|
    requires es[j].managerId.Some? && forall k :: 0 <= k < |es| ==> es[k].id != es[j].managerId.value
    ensures es[j].id !in Ids(EmployeeTree(es, xs))
  {
    TreeMultiplicity(es, xs, j);
  }

  /** Every record's manager chain reaches a top-level record: no dangling reference and no cycle. */
  ghost predicate WellFormed(es: seq<Employee>)
  {
    forall j :: 0 <= j < |es| ==> ReachesTop(es, j, |es|)
  }

  /** The ids of the flat list, in list order. */
  function RecordIds(es: seq<Employee>): (r: seq<int>)
    ensures |r| == |es|
  {
    seq(|es|, k requires 0 <= k < |es| => es[k].id)
  }

  /** With unique ids, each record's id occurs once in the list of ids. */
  lemma {:induction false} RecordIdsCount(es: seq<Employee>, j: nat)
    requires UniqueIds(es) && j < |es|
    ensures multiset(RecordIds(es))[es[j].id] == 1
    decreases |es|
  {
    var n := |es|;
    var front := es[..n - 1];
    assert RecordIds(es) == RecordIds(front) + [es[n - 1].id];
    if j < n - 1 {
      RecordIdsCount(front, j);
    } else {
      assert es[j].id !in RecordIds(front);
    }
  }

  /**
   * For acyclic input without dangling references the tree holds every record exactly once:
   * its preorder ids are a permutation of the list's ids, so it has as many nodes as the list.
   */
  lemma TreeHoldsEveryRecord(es: seq<Employee>, xs: seq<int>)
    requires UniqueIds(es) && WellFormed(es)
    ensures multiset(Ids(EmployeeTree(es, xs))) == multiset(RecordIds(es))
    ensures |Ids(EmployeeTree(es, xs))| == |es|
  {
    var t := EmployeeTree(es, xs);
    RootsAttached(es);
    forall id ensures multiset(Ids(t))[id] == multiset(RecordIds(es))[id] {
      if k :| 0 <= k < |es| && es[k].id == id {
        RootedOnce(es, xs, k, |es|);
        RecordIdsCount(es, k);
      } else {
        ForeignAbsent(es, xs, RootIndices(es), [], id);
        assert id !in RecordIds(es);
      }
    }
    assert multiset(Ids(t)) == multiset(RecordIds(es));
    assert |Ids(t)| == |multiset(Ids(t))| == |multiset(RecordIds(es))| == |es|;
  }

  /** The records of a forest's top-level nodes, in order. */
  function Records(nodes: seq<EmployeeNode>): seq<Employee>
  {
    seq(|nodes|, i requires 0 <= i < |nodes| => nodes[i].Record())
  }

  /** The records whose `managerId` is `mgr`, in list order. */
  function WithManager(es: seq<Employee>, mgr: Option<int>): seq<Employee>
    decreases |es|
  {
    if es == [] then []
    else WithManager(es[..|es| - 1], mgr) + (if es[|es| - 1].managerId == mgr then [es[|es| - 1]] else [])
  }

  /** Each node's subordinates are exactly the records naming it as manager, in list order. */
  ghost predicate SubordinatesInOrder(es: seq<Employee>, nodes: seq<EmployeeNode>)
    decreases nodes
  {
    forall i :: 0 <= i < |nodes| ==>
      Records(nodes[i].subordinates) == WithManager(es, Some(nodes[i].id)) &&
      SubordinatesInOrder(es, nodes[i].subordinates)
  }

  /** The records at some indices. */
  function Pick(es: seq<Employee>, ks: seq<nat>): seq<Employee>
    requires forall t :: 0 <= t < |ks| ==> ks[t] < |es|
  {
    seq(|ks|, t requires 0 <= t < |ks| => es[ks[t]])
  }

  /** The indices `Reporting` collects pick out exactly the records with that manager. */
  lemma {:induction false} PickReporting(es: seq<Employee>, mgr: Option<int>, n: nat)
    requires n <= |es|
    ensures forall t :: 0 <= t < |Reporting(es, mgr, n)| ==> Reporting(es, mgr, n)[t] < n
    ensures Pick(es, Reporting(es, mgr, n)) == WithManager(es[..n], mgr)
    decreases n
  {
    var ks := Reporting(es, mgr, n);
    ReportingBelow(es, mgr, n);
    if n > 0 {
      PickReporting(es, mgr, n - 1);
      var front := Reporting(es, mgr, n - 1);
      var tail: seq<nat> := if es[n - 1].managerId == mgr then [n - 1] else [];
      assert ks == front + tail;
      PickConcat(es, front, tail);
      assert Pick(es, tail) == if es[n - 1].managerId == mgr then [es[n - 1]] else [];
      assert es[..n][..n - 1] == es[..n - 1];
      assert WithManager(es[..n], mgr) == WithManager(es[..n - 1], mgr) + Pick(es, tail);
    }
  }

  /** Every index `Reporting` collects is below its bound. */
  lemma {:induction false} ReportingBelow(es: seq<Employee>, mgr: Option<int>, n: nat)
    requires n <= |es|
    ensures forall t :: 0 <= t < |Reporting(es, mgr, n)| ==> Reporting(es, mgr, n)[t] < n
    decreases n
  {
    if n > 0 {
      ReportingBelow(es, mgr, n - 1);
      var front := Reporting(es, mgr, n - 1);
      var tail: seq<nat> := if es[n - 1].managerId == mgr then [n - 1] else [];
      var ks := Reporting(es, mgr, n);
      assert ks == front + tail;
      forall t | 0 <= t < |ks| ensures ks[t] < n {
        if t < |front| {
          assert ks[t] == front[t];
        }
      }
    }
  }

  /** `Pick` of a concatenation. */
  lemma PickConcat(es: seq<Employee>, a: seq<nat>, b: seq<nat>)
    requires forall t :: 0 <= t < |a| ==> a[t] < |es|
    requires forall t :: 0 <= t < |b| ==> b[t] < |es|
    ensures forall t :: 0 <= t < |a + b| ==> (a + b)[t] < |es|
    ensures Pick(es, a + b) == Pick(es, a) + Pick(es, b)
  {
  }

  /** An unfolded forest holds the records of its indices, each with its subordinates in list order. */
  lemma {:induction false} UnfoldStructure(es: seq<Employee>, xs: seq<int>, cs: seq<nat>, p: seq<nat>)
    requires UniqueIds(es) && IsChain(es, p) && |p| <= |es| && AttachedBelow(es, cs, p)
    ensures Records(UnfoldAll(es, NodeGraph(es, xs), cs, p)) == Pick(es, cs)
    ensures SubordinatesInOrder(es, UnfoldAll(es, NodeGraph(es, xs), cs, p))
    decreases |es| - |p|
  {
    var r := UnfoldAll(es, NodeGraph(es, xs), cs, p);
    forall i | 0 <= i < |cs|
      ensures r[i].Record() == es[cs[i]]
      ensures Records(r[i].subordinates) == WithManager(es, Some(r[i].id))
      ensures SubordinatesInOrder(es, r[i].subordinates)
    {
      UnfoldedAt(es, xs, cs, p, i);
      UnfoldStructure(es, xs, ChildIndices(es, cs[i]), p + [cs[i]]);
      PickReporting(es, Some(es[cs[i]].id), |es|);
      assert es[..|es|] == es;
    }
  }

  /**
   * The roots are the records with a null `managerId`, in list order, and each node's
   * subordinates are the records whose `managerId` is its id, in list order.
   */
  lemma TreeStructure(es: seq<Employee>, xs: seq<int>)
    requires UniqueIds(es)
    ensures Records(EmployeeTree(es, xs)) == WithManager(es, None)
    ensures SubordinatesInOrder(es, EmployeeTree(es, xs))
  {
    RootsAttached(es);
    UnfoldStructure(es, xs, RootIndices(es), []);
    PickReporting(es, None, |es|);
    assert es[..|es|] == es;
  }

  /** Every manager comes before the records that name it. */
  ghost predicate ManagersPrecede(es: seq<Employee>)
  {
    forall i, j :: 0 <= i < |es| && 0 <= j < |es| && es[j].managerId == Some(es[i].id) ==> i < j
  }

  /** Every node of the forest has level `d` and its subordinates level `d + 1`, and so on down. */
  ghost predicate LevelsFrom(nodes: seq<EmployeeNode>, d: int)
    decreases nodes
  {
    forall i :: 0 <= i < |nodes| ==> nodes[i].level == d && LevelsFrom(nodes[i].subordinates, d + 1)
  }

  /** With managers first, a node reached along a chain has level one less than the chain's length. */
  lemma {:induction false} UnfoldLevels(es: seq<Employee>, xs: seq<int>, cs: seq<nat>, p: seq<nat>)
    requires UniqueIds(es) && ManagersPrecede(es) && IsChain(es, p) && |p| <= |es| && AttachedBelow(es, cs, p)
    requires |p| > 0 ==> LevelAt(es, p[|p| - 1]) == |p| - 1
    ensures LevelsFrom(UnfoldAll(es, NodeGraph(es, xs), cs, p), |p|)
    decreases |es| - |p|
  {
    var r := UnfoldAll(es, NodeGraph(es, xs), cs, p);
    forall i | 0 <= i < |cs| ensures r[i].level == |p| && LevelsFrom(r[i].subordinates, |p| + 1) {
      UnfoldedAt(es, xs, cs, p, i);
      if |p| > 0 {
        ParentIndexIff(es, cs[i], p[|p| - 1]);
      }
      UnfoldLevels(es, xs, ChildIndices(es, cs[i]), p + [cs[i]]);
    }
  }

  /** When every manager precedes its subordinates, roots have level 0 and each subordinate one more than its manager. */
  lemma TreeLevels(es: seq<Employee>, xs: seq<int>)
    requires UniqueIds(es) && ManagersPrecede(es)
    ensures LevelsFrom(EmployeeTree(es, xs), 0)
  {
    RootsAttached(es);
    UnfoldLevels(es, xs, RootIndices(es), []);
  }

  /** The chain A (id 1) <- B (id 2) <- C (id 3), listed bottom-up. */
  function BottomUpChain(): seq<Employee>
  {
    [Employee(3, "C", "r", "d", Some(2)), Employee(2, "B", "r", "d", Some(1)), Employee(1, "A", "r", "d", None)]
  }

  /** Listed bottom-up, C is found under B and B under A, yet both get level 1: each manager still had level 0. */
  lemma LevelWhenManagerFollows()
    ensures var es := BottomUpChain();
      UniqueIds(es) && ParentIndex(es, 0) == Some(1) && ParentIndex(es, 1) == Some(2) && ParentIndex(es, 2) == None &&
      LevelAt(es, 2) == 0 && LevelAt(es, 1) == 1 && LevelAt(es, 0) == 1
  {
    var es := BottomUpChain();
    IdIndexOfUnique(es, 0);
    IdIndexOfUnique(es, 1);
    IdIndexOfUnique(es, 2);
  }

  /** In the bottom-up chain A is the only root, B A's only subordinate, C B's only one, and C has none. */
  lemma BottomUpIndices()
    ensures UniqueIds(BottomUpChain())
    ensures RootIndices(BottomUpChain()) == [2]
    ensures ChildIndices(BottomUpChain(), 2) == [1] && ChildIndices(BottomUpChain(), 1) == [0]
    ensures ChildIndices(BottomUpChain(), 0) == []
  {
    var es := BottomUpChain();
    assert Reporting(es, None, 2) == [];
    assert Reporting(es, Some(1), 2) == [1];
    assert Reporting(es, Some(2), 1) == [0];
    assert Reporting(es, Some(3), 3) == [];
  }

  /** A single index unfolds to one node: its record's fields, its unfolded subordinates, its flag and its level. */
  lemma UnfoldOne(es: seq<Employee>, xs: seq<int>, c: nat, p: seq<nat>)
    requires UniqueIds(es) && IsChain(es, p) && |p| <= |es| && c < |es| && AttachedBelow(es, [c], p)
    ensures IsChain(es, p + [c]) && |p + [c]| <= |es| && AttachedBelow(es, ChildIndices(es, c), p + [c])
    ensures UnfoldAll(es, NodeGraph(es, xs), [c], p) ==
      [EmployeeNode(es[c].id, es[c].name, es[c].role, es[c].department, es[c].managerId,
        UnfoldAll(es, NodeGraph(es, xs), ChildIndices(es, c), p + [c]), es[c].id in xs, LevelAt(es, c))]
  {
    UnfoldedAt(es, xs, [c], p, 0);
  }

  /** An index with no subordinates unfolds to a single leaf. */
  lemma UnfoldLeaf(es: seq<Employee>, xs: seq<int>, c: nat, p: seq<nat>)
    requires UniqueIds(es) && IsChain(es, p) && |p| <= |es| && c < |es| && AttachedBelow(es, [c], p)
    requires ChildIndices(es, c) == []
    ensures UnfoldAll(es, NodeGraph(es, xs), [c], p) ==
      [EmployeeNode(es[c].id, es[c].name, es[c].role, es[c].department, es[c].managerId, [], es[c].id in xs, LevelAt(es, c))]
  {
    UnfoldOne(es, xs, c, p);
  }

  /** Below A and B, the bottom-up chain's C unfolds to a leaf with level 1. */
  lemma BottomUpLeaf()
    ensures UnfoldAll(BottomUpChain(), NodeGraph(BottomUpChain(), []), [0], [2, 1]) ==
      [EmployeeNode(3, "C", "r", "d", Some(2), [], false, 1)]
  {
    var es := BottomUpChain();
    LevelWhenManagerFollows();
    BottomUpIndices();
    assert IsChain(es, [2, 1]);
    assert AttachedBelow(es, [0], [2, 1]);
    UnfoldLeaf(es, [], 0, [2, 1]);
  }

  /** Below A, the bottom-up chain's B unfolds to a node holding C, with level 1. */
  lemma BottomUpMiddle()
    ensures UnfoldAll(BottomUpChain(), NodeGraph(BottomUpChain(), []), [1], [2]) ==
      [EmployeeNode(2, "B", "r", "d", Some(1), [EmployeeNode(3, "C", "r", "d", Some(2), [], false, 1)], false, 1)]
  {
    var es := BottomUpChain();
    BottomUpIndices();
    assert IsChain(es, [2]);
    assert AttachedBelow(es, [1], [2]);
    UnfoldOne(es, [], 1, [2]);
    assert [2] + [1] == [2, 1];
    BottomUpLeaf();
    LevelWhenManagerFollows();
  }

  /** The built tree of the bottom-up chain, nothing expanded: A, under it B, under it C with level 1. */
  lemma BottomUpTree()
    ensures UniqueIds(BottomUpChain())
    ensures EmployeeTree(BottomUpChain(), []) ==
      [EmployeeNode(1, "A", "r", "d", None,
        [EmployeeNode(2, "B", "r", "d", Some(1),
          [EmployeeNode(3, "C", "r", "d", Some(2), [], false, 1)],
          false, 1)],
        false, 0)]
  {
    var es := BottomUpChain();
    LevelWhenManagerFollows();
    BottomUpIndices();
    RootsAttached(es);
    UnfoldOne(es, [], 2, []);
    assert [] + [2] == [2];
    BottomUpMiddle();
  }

  /** So levels are not depths when managers come later: C sits at depth 2 with level 1. */
  lemma TreeLevelWhenManagerFollows()
    ensures UniqueIds(BottomUpChain()) && !LevelsFrom(EmployeeTree(BottomUpChain(), []), 0)
  {
    BottomUpTree();
    var t := EmployeeTree(BottomUpChain(), []);
    var c := [EmployeeNode(3, "C", "r", "d", Some(2), [], false, 1)];
    var b := [EmployeeNode(2, "B", "r", "d", Some(1), c, false, 1)];
    assert t[0].subordinates == b;
    assert c[0].level != 2;
    assert !LevelsFrom(c, 2);
    assert b[0].subordinates == c;
    assert !LevelsFrom(b, 1);
  }
}
