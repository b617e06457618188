/**
 * `buildEmployeeTree` as the source writes it: a first pass that creates one node per record
 * and registers it in a Map by id, and a second pass that appends each node to the root list
 * or to its manager's `subordinates` and sets its level from the manager's current level.
 * The node objects are the slots of a sequence; a reference to a node is its index.
 */
module TreeBuilder {
  import opened Wrappers
  import opened Types
  import opened Hierarchy

  /** The nodes right after the first pass: no subordinates, level 0, flag from `expandedNodes`. */
  function FreshSlots(es: seq<Employee>, expandedNodes: seq<int>): (slots: seq<NodeSlot>)
    ensures |slots| == |es|
  {
    seq(|es|, k requires 0 <= k < |es| => NodeSlot(es[k], [], es[k].id in expandedNodes, 0))
  }

  /** The first pass: one created node per record, registered in the Map under its id. */
  method CreateNodes(es: seq<Employee>, expandedNodes: seq<int>) returns (index: map<int, nat>, slots: seq<NodeSlot>)
    ensures index == IdIndex(es)
    ensures slots == FreshSlots(es, expandedNodes)
  {
    index := map[];
    slots := [];
    for i := 0 to |es|
      invariant index == IdIndex(es[..i])
      invariant slots == FreshSlots(es, expandedNodes)[..i]
    {
      IdIndexSnoc(es, i);
      index := index[es[i].id := i];
      slots := slots + [NodeSlot(es[i], [], es[i].id in expandedNodes, 0)];
      assert FreshSlots(es, expandedNodes)[..i + 1] == FreshSlots(es, expandedNodes)[..i] + [FreshSlots(es, expandedNodes)[i]];
    }
    assert es[..|es|] == es;
  }

  /** The nodes after the second pass has handled the first `i` records. */
  function LinkedSlots(es: seq<Employee>, expandedNodes: seq<int>, i: nat): (slots: seq<NodeSlot>)
    requires i <= |es|
    ensures |slots| == |es|
  {
    seq(|es|, k requires 0 <= k < |es| =>
      NodeSlot(es[k], Reporting(es, Some(es[k].id), i), es[k].id in expandedNodes, if k < i then LevelAt(es, k) else 0))
  }

  /** Record `i` with no manager found changes no node. */
  lemma LinkUnattached(es: seq<Employee>, expandedNodes: seq<int>, i: nat)
    requires UniqueIds(es) && i < |es| && ParentIndex(es, i).None?
    ensures LinkedSlots(es, expandedNodes, i) == LinkedSlots(es, expandedNodes, i + 1)
  {
    var before, after := LinkedSlots(es, expandedNodes, i), LinkedSlots(es, expandedNodes, i + 1);
    forall k | 0 <= k < |es| ensures before[k] == after[k] {
      if es[i].managerId.Some? {
        assert es[i].managerId.value !in IdIndex(es);
        assert es[k].id != es[i].managerId.value;
      }
    }
  }

  /** The slots after record `i`'s node is appended to `m`'s subordinates and given `m`'s level plus one. */
  function Attached(slots: seq<NodeSlot>, i: nat, m: nat): seq<NodeSlot>
    requires i < |slots| && m < |slots|
  {
    var pushed := slots[m := slots[m].(subordinates := slots[m].subordinates + [i])];
    pushed[i := pushed[i].(level := pushed[m].level + 1)]
  }

  /** Slot `k` after attaching record `i` below `m`. */
  lemma LinkAttachedAt(es: seq<Employee>, expandedNodes: seq<int>, i: nat, m: nat, k: nat)
    requires UniqueIds(es) && i < |es| && ParentIndex(es, i) == Some(m) && k < |es|
    ensures Attached(LinkedSlots(es, expandedNodes, i), i, m)[k] == LinkedSlots(es, expandedNodes, i + 1)[k]
  {
    IdIndexOfUnique(es, m);
    var before, after := LinkedSlots(es, expandedNodes, i), LinkedSlots(es, expandedNodes, i + 1);
    var linked := Attached(before, i, m);
    assert es[i].managerId == Some(es[m].id);
    assert after[k].subordinates == Reporting(es, Some(es[k].id), i) + (if es[i].managerId == Some(es[k].id) then [i] else []);
    if k != m {
      assert es[k].id != es[m].id;
    }
    assert linked[k].subordinates == after[k].subordinates;
    assert LevelAt(es, i) == 1 + if m < i then LevelAt(es, m) else 0;
    assert linked[k].level == after[k].level;
  }

  /** Record `i` with manager `m` found: `i` is appended to `m`'s subordinates and gets `m`'s current level plus one. */
  lemma LinkAttached(es: seq<Employee>, expandedNodes: seq<int>, i: nat, m: nat)
    requires UniqueIds(es) && i < |es| && ParentIndex(es, i) == Some(m)
    ensures Attached(LinkedSlots(es, expandedNodes, i), i, m) == LinkedSlots(es, expandedNodes, i + 1)
  {
    forall k | 0 <= k < |es|
      ensures Attached(LinkedSlots(es, expandedNodes, i), i, m)[k] == LinkedSlots(es, expandedNodes, i + 1)[k]
    {
      LinkAttachedAt(es, expandedNodes, i, m, k);
    }
  }

  /** `IdIndex` grows one record at a time. */
  lemma IdIndexSnoc(es: seq<Employee>, i: nat)
    requires i < |es|
    ensures IdIndex(es[..i + 1]) == IdIndex(es[..i])[es[i].id := i]
  {
    assert es[..i + 1][..i] == es[..i];
  }

  /** One call of the second pass's callback: attach record `i`'s node and set its level. */
  method AttachNode(es: seq<Employee>, expandedNodes: seq<int>, index: map<int, nat>, i: nat,
                    slots: seq<NodeSlot>, roots: seq<nat>)
    returns (slots': seq<NodeSlot>, roots': seq<nat>)
    requires UniqueIds(es) && index == IdIndex(es) && i < |es|
    requires slots == LinkedSlots(es, expandedNodes, i) && roots == Reporting(es, None, i)
    ensures slots' == LinkedSlots(es, expandedNodes, i + 1) && roots' == Reporting(es, None, i + 1)
  {
    IdIndexOfUnique(es, i);
    var node := index[es[i].id];
    slots', roots' := slots, roots;
    match es[i].managerId {
      case None =>
        roots' := roots + [node];
        LinkUnattached(es, expandedNodes, i);
      case Some(mid) =>
        if mid in index {
          var m := index[mid];
          assert node == i && ParentIndex(es, i) == Some(m);
          LinkAttached(es, expandedNodes, i, m);
          slots' := slots'[m := slots'[m].(subordinates := slots'[m].subordinates + [node])];
          slots' := slots'[node := slots'[node].(level := slots'[m].level + 1)];
          assert slots' == Attached(slots, i, m);
        } else {
          LinkUnattached(es, expandedNodes, i);
        }
    }
  }

  /** The second pass: attach every node to the root list or to its manager, and set its level. */
  method LinkNodes(es: seq<Employee>, expandedNodes: seq<int>, index: map<int, nat>, created: seq<NodeSlot>)
    returns (slots: seq<NodeSlot>, roots: seq<nat>)
    requires UniqueIds(es) && index == IdIndex(es) && created == FreshSlots(es, expandedNodes)
    ensures slots == NodeGraph(es, expandedNodes)
    ensures roots == RootIndices(es)
  {
    slots := created;
    roots := [];
    assert slots == LinkedSlots(es, expandedNodes, 0);
    for i := 0 to |es|
      invariant slots == LinkedSlots(es, expandedNodes, i)
      invariant roots == Reporting(es, None, i)
    {
      slots, roots := AttachNode(es, expandedNodes, index, i, slots, roots);
    }
  }

  /** `buildEmployeeTree(employees, expandedNodes)`: both passes, then the root list read as nested values. */
  method BuildEmployeeTree(es: seq<Employee>, expandedNodes: seq<int>) returns (tree: seq<EmployeeNode>)
    requires UniqueIds(es)
    ensures tree == EmployeeTree(es, expandedNodes)
  {
    var index, created := CreateNodes(es, expandedNodes);
    var slots, roots := LinkNodes(es, expandedNodes, index, created);
    RootsAttached(es);
    tree := UnfoldAll(es, slots, roots, []);
  }
}
