/**
 * What `buildEmployeeTree` (src/store/slices/employeeSlice.ts) computes, stated over record
 * indices. The first pass fills a Map from id to a fresh node; the second pass appends each
 * node to the root list or to its manager's `subordinates` and sets its level from the
 * manager's level at that moment. The nodes are shared objects, so the result is a graph
 * with one slot per record (`NodeSlot`, subordinates given as record indices); the returned
 * root array, read as a value, is that graph unfolded from its roots (`EmployeeTree`).
 */
module Hierarchy {
  import opened Wrappers
  import opened Types
  import opened IdLists
  import opened Forest

  /** No two records share an id. */
  ghost predicate UniqueIds(es: seq<Employee>)
  {
    forall i, j :: 0 <= i < |es| && 0 <= j < |es| && i != j ==> es[i].id != es[j].id
  }

  /** The id-to-node Map after the first pass: a later record with the same id overwrites an earlier one. */
  function IdIndex(es: seq<Employee>): map<int, nat>
    decreases |es|
  {
    if es == [] then map[] else IdIndex(es[..|es| - 1])[es[|es| - 1].id := |es| - 1]
  }

  /** The Map holds every record's id, each sent to the last record with that id. */
  lemma {:induction false} IdIndexSpec(es: seq<Employee>)
    ensures forall k :: 0 <= k < |es| ==> es[k].id in IdIndex(es)
    ensures forall id :: id in IdIndex(es) ==> IdIndex(es)[id] < |es| && es[IdIndex(es)[id]].id == id
    ensures forall id, k :: id in IdIndex(es) && IdIndex(es)[id] < k < |es| ==> es[k].id != id
    decreases |es|
  {
    if es != [] {
      IdIndexSpec(es[..|es| - 1]);
    }
  }

  /** With unique ids the Map sends every record's id to that record. */
  lemma IdIndexOfUnique(es: seq<Employee>, k: nat)
    requires UniqueIds(es) && k < |es|
    ensures es[k].id in IdIndex(es) && IdIndex(es)[es[k].id] == k
  {
    IdIndexSpec(es);
  }

  /** The record the second pass finds as this record's manager, if the Map has its `managerId`. */
  function ParentIndex(es: seq<Employee>, j: nat): (r: Option<nat>)
    requires j < |es|
    ensures r.Some? ==> r.value < |es| && es[j].managerId == Some(es[r.value].id)
    ensures r.None? && es[j].managerId.Some? ==> forall k :: 0 <= k < |es| ==> es[k].id != es[j].managerId.value
  {
    IdIndexSpec(es);
    match es[j].managerId
    case None => None
    case Some(mid) => if mid in IdIndex(es) then Some(IdIndex(es)[mid]) else None
  }

  /** The indices below `n` whose `managerId` is `mgr`, in list order. */
  function Reporting(es: seq<Employee>, mgr: Option<int>, n: nat): seq<nat>
    requires n <= |es|
    decreases n
  {
    if n == 0 then []
    else Reporting(es, mgr, n - 1) + (if es[n - 1].managerId == mgr then [n - 1] else [])
  }

  /** The records pushed onto the root list: those whose `managerId` is null. */
  function RootIndices(es: seq<Employee>): seq<nat>
  {
    Reporting(es, None, |es|)
  }

  /** The records pushed onto record `k`'s `subordinates`. */
  function ChildIndices(es: seq<Employee>, k: nat): seq<nat>
    requires k < |es|
  {
    Reporting(es, Some(es[k].id), |es|)
  }

  /**
   * The level record `i` ends with: 0 unless its manager is found, and otherwise one more than
   * the manager's level at the moment record `i` is processed, which is the manager's final
   * level if the manager comes earlier in the list and 0 if it does not.
   */
  function LevelAt(es: seq<Employee>, i: nat): int
    requires i < |es|
    decreases i
  {
    match ParentIndex(es, i)
    case None => 0
    case Some(m) => 1 + (if m < i then LevelAt(es, m) else 0)
  }

  /** One node object of the graph the builder produces; `subordinates` holds record indices. */
  datatype NodeSlot = NodeSlot(employee: Employee, subordinates: seq<nat>, isExpanded: bool, level: int)

  /** The node graph after both passes: one slot per record. */
  function NodeGraph(es: seq<Employee>, expandedNodes: seq<int>): (slots: seq<NodeSlot>)
    ensures |slots| == |es|
  {
    seq(|es|, k requires 0 <= k < |es| =>
      NodeSlot(es[k], ChildIndices(es, k), es[k].id in expandedNodes, LevelAt(es, k)))
  }

  /** Slot `k` holds record `k` and the subordinates the second pass gives it. */
  ghost predicate Shaped(es: seq<Employee>, slots: seq<NodeSlot>)
  {
    |slots| == |es| &&
    forall k :: 0 <= k < |es| ==> slots[k].employee == es[k] && slots[k].subordinates == ChildIndices(es, k)
  }

  /** A path from a top-level record down through manager links. */
  ghost predicate IsChain(es: seq<Employee>, p: seq<nat>)
  {
    (forall t :: 0 <= t < |p| ==> p[t] < |es|) &&
    (|p| > 0 ==> es[p[0]].managerId.None?) &&
    (forall t :: 0 < t < |p| ==> es[p[t]].managerId == Some(es[p[t - 1]].id))
  }

  /** The `managerId` a record needs to be attached below the end of `p`. */
  ghost function ManagerBelow(es: seq<Employee>, p: seq<nat>): Option<int>
    requires IsChain(es, p)
  {
    if p == [] then None else Some(es[p[|p| - 1]].id)
  }

  /** Every index of `cs` is a record attached below the end of `p`. */
  ghost predicate AttachedBelow(es: seq<Employee>, cs: seq<nat>, p: seq<nat>)
    requires IsChain(es, p)
  {
    forall t :: 0 <= t < |cs| ==> cs[t] < |es| && es[cs[t]].managerId == ManagerBelow(es, p)
  }

  /** `Reporting` holds exactly the indices with that manager, in strictly increasing order. */
  lemma {:induction false} ReportingMembers(es: seq<Employee>, mgr: Option<int>, n: nat)
    requires n <= |es|
    ensures forall j :: j in Reporting(es, mgr, n) <==> 0 <= j < n && es[j].managerId == mgr
    ensures forall a, b :: 0 <= a < b < |Reporting(es, mgr, n)| ==> Reporting(es, mgr, n)[a] < Reporting(es, mgr, n)[b]
    decreases n
  {
    if n > 0 {
      ReportingMembers(es, mgr, n - 1);
      var front := Reporting(es, mgr, n - 1);
      var tail: seq<nat> := if es[n - 1].managerId == mgr then [n - 1] else [];
      var r := Reporting(es, mgr, n);
      assert r == front + tail;
      forall a | 0 <= a < |front|
        ensures front[a] < n - 1
      {
        assert front[a] in front;
      }
      forall a, b | 0 <= a < b < |r|
        ensures r[a] < r[b]
      {
        if b < |front| {
          assert r[a] == front[a] && r[b] == front[b];
        } else {
          assert r[a] == front[a] && r[b] == n - 1;
        }
      }
    }
  }

  /** Each index with that manager occurs in `Reporting` exactly once. */
  lemma {:induction false} ReportingCount(es: seq<Employee>, mgr: Option<int>, n: nat, j: nat)
    requires n <= |es|
    ensures multiset(Reporting(es, mgr, n))[j] == if j < n && es[j].managerId == mgr then 1 else 0
    decreases n
  {
    if n > 0 {
      ReportingCount(es, mgr, n - 1, j);
      var front := Reporting(es, mgr, n - 1);
      var tail: seq<nat> := if es[n - 1].managerId == mgr then [n - 1] else [];
      assert Reporting(es, mgr, n) == front + tail;
      assert multiset(Reporting(es, mgr, n)) == multiset(front) + multiset(tail);
      assert multiset(tail)[j] == if j == n - 1 && es[n - 1].managerId == mgr then 1 else 0;
    }
  }

  /** Along a chain no record repeats. */
  lemma {:induction false} ChainNoRepeat(es: seq<Employee>, p: seq<nat>, a: nat, b: nat)
    requires UniqueIds(es) && IsChain(es, p) && a < b < |p|
    ensures p[a] != p[b]
    decreases a
  {
    if a > 0 {
      ChainNoRepeat(es, p, a - 1, b - 1);
      assert es[p[a - 1]].id != es[p[b - 1]].id;
    }
  }

  /** A list of distinct naturals below `n` has at most `n` elements. */
  lemma {:induction false} DistinctBounded(p: seq<nat>, n: nat)
    requires forall t :: 0 <= t < |p| ==> p[t] < n
    requires forall a, b :: 0 <= a < b < |p| ==> p[a] != p[b]
    ensures |p| <= n
    decreases n
  {
    if p != [] {
      assert p[0] < n;
      if t :| 0 <= t < |p| && p[t] == n - 1 {
        var q := p[..t] + p[t + 1..];
        assert forall s :: 0 <= s < |q| ==> q[s] == if s < t then p[s] else p[s + 1];
        DistinctBounded(q, n - 1);
      } else {
        DistinctBounded(p, n - 1);
      }
    }
  }

  /** A chain visits each record at most once, so it is no longer than the list. */
  lemma ChainBounded(es: seq<Employee>, p: seq<nat>)
    requires UniqueIds(es) && IsChain(es, p)
    ensures |p| <= |es|
  {
    forall a, b | 0 <= a < b < |p| ensures p[a] != p[b] {
      ChainNoRepeat(es, p, a, b);
    }
    DistinctBounded(p, |es|);
  }

  /** Attaching a record below the end of a chain gives a chain, still no longer than the list. */
  lemma ChainStep(es: seq<Employee>, p: seq<nat>, c: nat)
    requires UniqueIds(es) && IsChain(es, p)
    requires c < |es| && es[c].managerId == ManagerBelow(es, p)
    ensures IsChain(es, p + [c]) && |p| + 1 <= |es|
  {
    ChainBounded(es, p + [c]);
  }

  /** The subordinates of the end of a chain are attached below it. */
  lemma ChildrenAttached(es: seq<Employee>, p: seq<nat>)
    requires IsChain(es, p) && |p| > 0
    ensures AttachedBelow(es, ChildIndices(es, p[|p| - 1]), p)
  {
    var cs := ChildIndices(es, p[|p| - 1]);
    ReportingMembers(es, Some(es[p[|p| - 1]].id), |es|);
    assert forall t :: 0 <= t < |cs| ==> cs[t] in cs;
  }

  /** The roots are attached below the empty chain. */
  lemma RootsAttached(es: seq<Employee>)
    ensures AttachedBelow(es, RootIndices(es), [])
  {
    var cs := RootIndices(es);
    ReportingMembers(es, None, |es|);
    assert forall t :: 0 <= t < |cs| ==> cs[t] in cs;
  }

  /** The node of slot `k`, reached along `path`, with its subordinates unfolded. */
  function UnfoldNode(ghost es: seq<Employee>, slots: seq<NodeSlot>, k: nat, ghost path: seq<nat>): EmployeeNode
    requires UniqueIds(es) && Shaped(es, slots)
    requires IsChain(es, path) && |path| > 0 && path[|path| - 1] == k
    decreases |es| - |path|, 1
  {
    ChainBounded(es, path);
    ChildrenAttached(es, path);
    var s := slots[k];
    EmployeeNode(s.employee.id, s.employee.name, s.employee.role, s.employee.department, s.employee.managerId,
                 UnfoldAll(es, slots, s.subordinates, path), s.isExpanded, s.level)
  }

  /** The nodes of the slots `cs`, all attached below the end of `path`, unfolded. */
  function UnfoldAll(ghost es: seq<Employee>, slots: seq<NodeSlot>, cs: seq<nat>, ghost path: seq<nat>): (r: seq<EmployeeNode>)
    requires UniqueIds(es) && Shaped(es, slots)
    requires IsChain(es, path) && |path| <= |es| && AttachedBelow(es, cs, path)
    ensures |r| == |cs|
    decreases |es| - |path|, 0
  {
    seq(|cs|, i requires 0 <= i < |cs| =>
      ChainStep(es, path, cs[i]);
      UnfoldNode(es, slots, cs[i], path + [cs[i]]))
  }

  /** `buildEmployeeTree(employees, expandedNodes)`: the graph unfolded from its roots. */
  function EmployeeTree(es: seq<Employee>, expandedNodes: seq<int>): seq<EmployeeNode>
    requires UniqueIds(es)
  {
    RootsAttached(es);
    UnfoldAll(es, NodeGraph(es, expandedNodes), RootIndices(es), [])
  }
}
