/**
 * The `employees` slice as the store runs it: one mutable `EmployeeState` whose reducers update
 * their fields in place, the expansion reducers through recursive traversals that flip node flags
 * and push to or filter `expandedNodes` as they go. Node objects are values here, so a traversal
 * returns the updated forest and the reducer stores it. Each method is proved to leave the state
 * the `EmployeeSlice` reducer function computes.
 */
module Store {
  import opened Wrappers
  import opened Types
  import opened Text
  import opened IdLists
  import opened Forest
  import opened Hierarchy
  import opened Filtering
  import Expansion
  import opened Search
  import opened TreeBuilder
  import opened EmployeeSlice

  class EmployeeStore {
    var employees: seq<Employee>
    var employeeTree: seq<EmployeeNode>
    var isLoading: bool
    var error: Option<string>
    var searchQuery: string
    var selectedRole: string
    var selectedDepartment: string
    var expandedNodes: seq<int>

    /** The state the fields hold. */
    function State(): EmployeeState
      reads this
    {
      EmployeeState(employees, employeeTree, isLoading, error, searchQuery, selectedRole, selectedDepartment, expandedNodes)
    }

    /** The store starts from `initialState`. */
    constructor ()
      ensures State() == InitialState()
    {
      employees := [];
      employeeTree := [];
      isLoading := false;
      error := None;
      searchQuery := "";
      selectedRole := "";
      selectedDepartment := "";
      expandedNodes := [];
    }

    /** `setSearchFilters`. */
    method SetSearchFilters(filters: SearchFilters)
      requires UniqueIds(employees)
      modifies this
      ensures State() == EmployeeSlice.SetSearchFilters(old(State()), filters)
    {
      searchQuery := filters.name;
      selectedRole := filters.role;
      selectedDepartment := filters.department;
      var filteredEmployees := FilterEmployees(employees, filters);
      FilterUniqueIds(employees, filters);
      employeeTree := BuildEmployeeTree(filteredEmployees, expandedNodes);
    }

    /** `toggleExpansion(nodes)`: flip the node with the id and stop there, else descend; the list is updated as it goes. */
    method ToggleExpansion(nodes: seq<EmployeeNode>, nodeId: int) returns (updated: seq<EmployeeNode>)
      modifies this
      ensures (updated, expandedNodes) == Expansion.Toggle(nodes, nodeId, old(expandedNodes))
      ensures State() == old(State()).(expandedNodes := expandedNodes)
      decreases nodes
    {
      ghost var xs0 := expandedNodes;
      updated := [];
      for i := 0 to |nodes|
        invariant (updated, expandedNodes) == Expansion.Toggle(nodes[..i], nodeId, xs0)
        invariant State() == old(State()).(expandedNodes := expandedNodes)
      {
        var node := nodes[i];
        assert nodes[..i + 1][..i] == nodes[..i];
        if node.id == nodeId {
          var expanded := !node.isExpanded;
          if expanded {
            if nodeId !in expandedNodes {
              expandedNodes := expandedNodes + [nodeId];
            }
          } else {
            expandedNodes := Without(expandedNodes, nodeId);
          }
          updated := updated + [node.(isExpanded := expanded)];
        } else {
          var subordinates := ToggleExpansion(node.subordinates, nodeId);
          updated := updated + [node.(subordinates := subordinates)];
        }
      }
      assert nodes[..|nodes|] == nodes;
    }

    /** `toggleNodeExpansion`. */
    method ToggleNodeExpansion(nodeId: int)
      modifies this
      ensures State() == EmployeeSlice.ToggleNodeExpansion(old(State()), nodeId)
    {
      employeeTree := ToggleExpansion(employeeTree, nodeId);
    }

    /** `expandAll(nodes)`: set every flag and push every missing id, in preorder. */
    method ExpandAll(nodes: seq<EmployeeNode>) returns (updated: seq<EmployeeNode>)
      modifies this
      ensures (updated, expandedNodes) == Expansion.ExpandAll(nodes, old(expandedNodes))
      ensures State() == old(State()).(expandedNodes := expandedNodes)
      decreases nodes
    {
      ghost var xs0 := expandedNodes;
      updated := [];
      for i := 0 to |nodes|
        invariant (updated, expandedNodes) == Expansion.ExpandAll(nodes[..i], xs0)
        invariant State() == old(State()).(expandedNodes := expandedNodes)
      {
        var node := nodes[i];
        assert nodes[..i + 1][..i] == nodes[..i];
        if node.id !in expandedNodes {
          expandedNodes := expandedNodes + [node.id];
        }
        var subordinates := ExpandAll(node.subordinates);
        updated := updated + [node.(isExpanded := true, subordinates := subordinates)];
      }
      assert nodes[..|nodes|] == nodes;
    }

    /** `expandAllNodes`. */
    method ExpandAllNodes()
      modifies this
      ensures State() == EmployeeSlice.ExpandAllNodes(old(State()))
    {
      employeeTree := ExpandAll(employeeTree);
    }

    /** `collapseAll(nodes)`: clear every flag. */
    method CollapseAll(nodes: seq<EmployeeNode>) returns (updated: seq<EmployeeNode>)
      ensures updated == Expansion.CollapseAll(nodes)
      decreases nodes
    {
      updated := [];
      for i := 0 to |nodes|
        invariant |updated| == i
        invariant forall k :: 0 <= k < i ==> updated[k] == SetAll(nodes, false)[k]
      {
        var node := nodes[i];
        var subordinates := CollapseAll(node.subordinates);
        updated := updated + [node.(isExpanded := false, subordinates := subordinates)];
      }
    }

    /** `collapseAllNodes`. */
    method CollapseAllNodes()
      modifies this
      ensures State() == EmployeeSlice.CollapseAllNodes(old(State()))
    {
      employeeTree := CollapseAll(employeeTree);
      expandedNodes := [];
    }

    /** `clearSearch`. */
    method ClearSearch()
      requires UniqueIds(employees)
      modifies this
      ensures State() == EmployeeSlice.ClearSearch(old(State()))
    {
      searchQuery := "";
      selectedRole := "";
      selectedDepartment := "";
      employeeTree := BuildEmployeeTree(employees, expandedNodes);
    }

    /** `clearError`. */
    method ClearError()
      modifies this
      ensures State() == EmployeeSlice.ClearError(old(State()))
    {
      error := None;
    }

    /** `path.slice(0, -1).forEach(...)`: push each of the ids not yet in the list. */
    method ExpandPath(ancestors: seq<int>)
      modifies this
      ensures expandedNodes == IncludingAll(old(expandedNodes), ancestors)
      ensures State() == old(State()).(expandedNodes := expandedNodes)
    {
      ghost var xs0 := expandedNodes;
      for j := 0 to |ancestors|
        invariant expandedNodes == IncludingAll(xs0, ancestors[..j])
        invariant State() == old(State()).(expandedNodes := expandedNodes)
      {
        var nodeId := ancestors[j];
        assert ancestors[..j + 1][..j] == ancestors[..j];
        if nodeId !in expandedNodes {
          expandedNodes := expandedNodes + [nodeId];
        }
      }
      assert ancestors[..|ancestors|] == ancestors;
    }

    /** `matchingPaths.forEach(...)`: expand the ancestors along each path in turn. */
    method ExpandPaths(matchingPaths: seq<seq<int>>)
      modifies this
      ensures expandedNodes == IncludingAll(old(expandedNodes), RevealIds(matchingPaths))
      ensures State() == old(State()).(expandedNodes := expandedNodes)
    {
      ghost var xs0 := expandedNodes;
      for i := 0 to |matchingPaths|
        invariant expandedNodes == IncludingAll(xs0, RevealIds(matchingPaths[..i]))
        invariant State() == old(State()).(expandedNodes := expandedNodes)
      {
        var path := matchingPaths[i];
        var ancestors := if |path| > 0 then path[..|path| - 1] else [];
        ExpandPath(ancestors);
        IncludingAllConcat(xs0, RevealIds(matchingPaths[..i]), ancestors);
        assert matchingPaths[..i + 1][..i] == matchingPaths[..i];
      }
      assert matchingPaths[..|matchingPaths|] == matchingPaths;
    }

    /** `searchAndExpandToEmployee`: expand the ancestors of every match of the current tree, then rebuild from the full list. */
    method SearchAndExpandToEmployee(query: string)
      requires UniqueIds(employees)
      modifies this
      ensures State() == EmployeeSlice.SearchAndExpandToEmployee(old(State()), query)
    {
      var q := Lower(query);
      if q == "" {
        return;
      }
      var matchingPaths := FindMatches(employeeTree, [], q);
      ExpandPaths(matchingPaths);
      employeeTree := BuildEmployeeTree(employees, expandedNodes);
    }

    /** `fetchEmployees.pending`. */
    method FetchPending()
      modifies this
      ensures State() == EmployeeSlice.FetchPending(old(State()))
    {
      isLoading := true;
      error := None;
    }

    /** `fetchEmployees.fulfilled`. */
    method FetchFulfilled(payload: seq<Employee>)
      requires UniqueIds(payload)
      modifies this
      ensures State() == EmployeeSlice.FetchFulfilled(old(State()), payload)
    {
      isLoading := false;
      employees := payload;
      employeeTree := BuildEmployeeTree(payload, expandedNodes);
      error := None;
    }

    /** `fetchEmployees.rejected`. */
    method FetchRejected(message: string)
      modifies this
      ensures State() == EmployeeSlice.FetchRejected(old(State()), message)
    {
      isLoading := false;
      error := Some(message);
    }

    /** The slice reducer: run the action's case. */
    method Dispatch(action: Action)
      requires UniqueIds(employees) && PayloadUnique(action)
      modifies this
      ensures State() == Reduce(old(State()), action)
    {
      match action
      case SetSearchFiltersAction(f) => SetSearchFilters(f);
      case ToggleNodeExpansionAction(id) => ToggleNodeExpansion(id);
      case ExpandAllNodesAction => ExpandAllNodes();
      case CollapseAllNodesAction => CollapseAllNodes();
      case ClearSearchAction => ClearSearch();
      case ClearErrorAction => ClearError();
      case SearchAndExpandToEmployeeAction(q) => SearchAndExpandToEmployee(q);
      case FetchPendingAction => FetchPending();
      case FetchFulfilledAction(payload) => FetchFulfilled(payload);
      case FetchRejectedAction(m) => FetchRejected(m);
    }
  }
}
