/**
 * The `employees` slice (src/store/slices/employeeSlice.ts): the `EmployeeState` record, its
 * initial value and every reducer, written as functions from the state before an action to the
 * state after it. The in-place traversals of the expansion reducers are the `Expansion`
 * functions; the rebuilds are `EmployeeTree`.
 */
module EmployeeSlice {
  import opened Wrappers
  import opened Types
  import opened Text
  import opened IdLists
  import opened Forest
  import opened Hierarchy
  import opened TreeFacts
  import opened Filtering
  import Expansion
  import opened Search
  import opened TreeView

  /** `EmployeeState` (src/types/index.ts); `error == None` is `null`. */
  datatype EmployeeState = EmployeeState(
    employees: seq<Employee>,
    employeeTree: seq<EmployeeNode>,
    isLoading: bool,
    error: Option<string>,
    searchQuery: string,
    selectedRole: string,
    selectedDepartment: string,
    expandedNodes: seq<int>)

  /** The actions the slice handles; the last three are the outcomes of `fetchEmployees`. */
  datatype Action =
    | SetSearchFiltersAction(filters: SearchFilters)
    | ToggleNodeExpansionAction(nodeId: int)
    | ExpandAllNodesAction
    | CollapseAllNodesAction
    | ClearSearchAction
    | ClearErrorAction
    | SearchAndExpandToEmployeeAction(query: string)
    | FetchPendingAction
    | FetchFulfilledAction(payload: seq<Employee>)
    | FetchRejectedAction(message: string)

  /** The value `rejectWithValue` passes when the fetch fails. */
  const FetchFailureMessage: string := "Failed to fetch employees"

  /** Filters with no constraint. */
  function NoFilter(): SearchFilters
  {
    SearchFilters("", "", "")
  }

  /** `initialState`: nothing loaded, no error, no filters, nothing expanded. */
  function InitialState(): EmployeeState
  {
    EmployeeState([], [], false, None, "", "", "", [])
  }

  /** `setSearchFilters`: store the three filters and rebuild the tree from the records that pass them. */
  function SetSearchFilters(s: EmployeeState, f: SearchFilters): EmployeeState
    requires UniqueIds(s.employees)
  {
    FilterUniqueIds(s.employees, f);
    s.(searchQuery := f.name, selectedRole := f.role, selectedDepartment := f.department,
       employeeTree := EmployeeTree(FilterEmployees(s.employees, f), s.expandedNodes))
  }

  /** `toggleNodeExpansion`: the in-place toggle traversal of the current tree. */
  function ToggleNodeExpansion(s: EmployeeState, nodeId: int): EmployeeState
  {
    var (t, xs) := Expansion.Toggle(s.employeeTree, nodeId, s.expandedNodes);
    s.(employeeTree := t, expandedNodes := xs)
  }

  /** `expandAllNodes`: the in-place expand-all traversal of the current tree. */
  function ExpandAllNodes(s: EmployeeState): EmployeeState
  {
    var (t, xs) := Expansion.ExpandAll(s.employeeTree, s.expandedNodes);
    s.(employeeTree := t, expandedNodes := xs)
  }

  /** `collapseAllNodes`: clear every flag of the current tree, then empty the list. */
  function CollapseAllNodes(s: EmployeeState): EmployeeState
  {
    s.(employeeTree := Expansion.CollapseAll(s.employeeTree), expandedNodes := [])
  }

  /** `clearSearch`: empty the three filters and rebuild from the full list. */
  function ClearSearch(s: EmployeeState): EmployeeState
    requires UniqueIds(s.employees)
  {
    s.(searchQuery := "", selectedRole := "", selectedDepartment := "",
       employeeTree := EmployeeTree(s.employees, s.expandedNodes))
  }

  /** `clearError`. */
  function ClearError(s: EmployeeState): EmployeeState
  {
    s.(error := None)
  }

  /**
   * `searchAndExpandToEmployee`: nothing for an empty query; otherwise append every id but the
   * last of each matching path of the current tree, then rebuild from the full list.
   */
  function SearchAndExpandToEmployee(s: EmployeeState, query: string): EmployeeState
    requires UniqueIds(s.employees)
  {
    var q := Lower(query);
    if q == "" then s
    else
      var xs := IncludingAll(s.expandedNodes, RevealIds(FindMatches(s.employeeTree, [], q)));
      s.(expandedNodes := xs, employeeTree := EmployeeTree(s.employees, xs))
  }

  /** `fetchEmployees.pending`. */
  function FetchPending(s: EmployeeState): EmployeeState
  {
    s.(isLoading := true, error := None)
  }

  /** `fetchEmployees.fulfilled`: store the payload and build it with the current expanded list. */
  function FetchFulfilled(s: EmployeeState, payload: seq<Employee>): EmployeeState
    requires UniqueIds(payload)
  {
    s.(isLoading := false, employees := payload, employeeTree := EmployeeTree(payload, s.expandedNodes), error := None)
  }

  /** `fetchEmployees.rejected`: the list and the tree are kept. */
  function FetchRejected(s: EmployeeState, message: string): EmployeeState
  {
    s.(isLoading := false, error := Some(message))
  }

  /** A fulfilled fetch carries records with unique ids. */
  ghost predicate PayloadUnique(a: Action)
  {
    a.FetchFulfilledAction? ==> UniqueIds(a.payload)
  }

  /** The slice's reducer. */
  function Reduce(s: EmployeeState, a: Action): EmployeeState
    requires UniqueIds(s.employees) && PayloadUnique(a)
  {
    match a
    case SetSearchFiltersAction(f) => SetSearchFilters(s, f)
    case ToggleNodeExpansionAction(id) => ToggleNodeExpansion(s, id)
    case ExpandAllNodesAction => ExpandAllNodes(s)
    case CollapseAllNodesAction => CollapseAllNodes(s)
    case ClearSearchAction => ClearSearch(s)
    case ClearErrorAction => ClearError(s)
    case SearchAndExpandToEmployeeAction(q) => SearchAndExpandToEmployee(s, q)
    case FetchPendingAction => FetchPending(s)
    case FetchFulfilledAction(payload) => FetchFulfilled(s, payload)
    case FetchRejectedAction(m) => FetchRejected(s, m)
  }

  /** What the component displays for a state. */
  function Display(s: EmployeeState): TreeView.Display
  {
    DisplayOf(s.isLoading, s.error, s.employeeTree)
  }

  // ---------------------------------------------------------------------------------------
  // The invariant

  /**
   * The invariant every reachable state keeps: unique record ids, a duplicate-free expanded
   * list, a tree with no id twice, and flags that agree with the list.
   */
  ghost predicate Valid(s: EmployeeState)
  {
    UniqueIds(s.employees) && NoDup(s.expandedNodes) &&
    NoDup(Ids(s.employeeTree)) && FlagsMatch(s.employeeTree, s.expandedNodes)
  }

  /**
   * The tree is the build, under the current expanded list, of the records that pass filters `f`
   * (a witness: after a search the stored filters no longer describe the tree).
   */
  ghost predicate BuiltFrom(s: EmployeeState, f: SearchFilters)
  {
    UniqueIds(s.employees) && NoDup(s.expandedNodes) &&
    (FilterUniqueIds(s.employees, f);
     s.employeeTree == EmployeeTree(FilterEmployees(s.employees, f), s.expandedNodes))
  }

  /** The filters an action leaves the tree built from. */
  function NextFilter(a: Action, f: SearchFilters): SearchFilters
  {
    match a
    case SetSearchFiltersAction(g) => g
    case ClearSearchAction => NoFilter()
    case SearchAndExpandToEmployeeAction(q) => if Lower(q) == "" then f else NoFilter()
    case FetchFulfilledAction(_) => NoFilter()
    case _ => f
  }

  /** The initial state is valid, built from the unfiltered (empty) list, and shows "No employees found". */
  lemma InitialStateSpec()
    ensures Valid(InitialState()) && BuiltFrom(InitialState(), NoFilter())
    ensures Display(InitialState()) == NoEmployees && TotalEmployees(InitialState().employeeTree) == 0
  {
    var s := InitialState();
    FilterNoConstraint(s.employees);
    assert RootIndices([]) == [];
  }

  /** A built state is valid: the build has no id twice and its flags agree with the list. */
  lemma BuiltIsValid(s: EmployeeState, f: SearchFilters)
    requires BuiltFrom(s, f)
    ensures Valid(s)
  {
    FilterUniqueIds(s.employees, f);
    var src := FilterEmployees(s.employees, f);
    TreeIdsDistinct(src, s.expandedNodes);
    TreeFlagsMatch(src, s.expandedNodes);
  }

  /** Every reducer keeps the invariant. */
  lemma ReducePreservesValid(s: EmployeeState, a: Action)
    requires Valid(s) && PayloadUnique(a)
    ensures Valid(Reduce(s, a))
  {
    var xs := s.expandedNodes;
    match a
    case SetSearchFiltersAction(f) =>
      FilterUniqueIds(s.employees, f);
      TreeIdsDistinct(FilterEmployees(s.employees, f), xs);
      TreeFlagsMatch(FilterEmployees(s.employees, f), xs);
    case ToggleNodeExpansionAction(id) =>
      Expansion.ToggleSpec(s.employeeTree, id, xs);
      SameShapeIds(Expansion.Toggle(s.employeeTree, id, xs).0, s.employeeTree);
    case ExpandAllNodesAction =>
      Expansion.ExpandAllInvariant(s.employeeTree, xs);
      SameShapeIds(Expansion.ExpandAll(s.employeeTree, xs).0, s.employeeTree);
    case CollapseAllNodesAction =>
      Expansion.CollapseAllSpec(s.employeeTree);
    case ClearSearchAction =>
      TreeIdsDistinct(s.employees, xs);
      TreeFlagsMatch(s.employees, xs);
    case ClearErrorAction =>
    case SearchAndExpandToEmployeeAction(query) =>
      var q := Lower(query);
      if q != "" {
        var ys := IncludingAll(xs, RevealIds(FindMatches(s.employeeTree, [], q)));
        IncludingAllSpec(xs, RevealIds(FindMatches(s.employeeTree, [], q)));
        TreeIdsDistinct(s.employees, ys);
        TreeFlagsMatch(s.employees, ys);
      }
    case FetchPendingAction =>
    case FetchFulfilledAction(payload) =>
      TreeIdsDistinct(payload, xs);
      TreeFlagsMatch(payload, xs);
    case FetchRejectedAction(m) =>
  }

  /**
   * The in-place traversals agree with rebuilding: a tree built from `src` under `xs`, toggled,
   * expanded or collapsed in place, is the tree built from `src` under the list that results.
   */
  lemma InPlaceIsRebuild(src: seq<Employee>, xs: seq<int>, id: int)
    requires UniqueIds(src) && NoDup(xs)
    ensures var (t, ys) := Expansion.Toggle(EmployeeTree(src, xs), id, xs); t == EmployeeTree(src, ys)
    ensures var (t, ys) := Expansion.ExpandAll(EmployeeTree(src, xs), xs); t == EmployeeTree(src, ys)
    ensures Expansion.CollapseAll(EmployeeTree(src, xs)) == EmployeeTree(src, [])
  {
    var tree := EmployeeTree(src, xs);
    TreeIdsDistinct(src, xs);
    TreeFlagsMatch(src, xs);
    var (t1, ys1) := Expansion.Toggle(tree, id, xs);
    Expansion.ToggleSpec(tree, id, xs);
    SameAsRebuild(src, xs, t1, ys1);
    var (t2, ys2) := Expansion.ExpandAll(tree, xs);
    Expansion.ExpandAllInvariant(tree, xs);
    SameAsRebuild(src, xs, t2, ys2);
    Expansion.CollapseAllSpec(tree);
    SameAsRebuild(src, xs, Expansion.CollapseAll(tree), []);
  }

  /** A forest shaped like the build from `src` whose flags agree with `ys` is the build under `ys`. */
  lemma SameAsRebuild(src: seq<Employee>, xs: seq<int>, t: seq<EmployeeNode>, ys: seq<int>)
    requires UniqueIds(src)
    requires SameShape(t, EmployeeTree(src, xs)) && FlagsMatch(t, ys)
    ensures t == EmployeeTree(src, ys)
  {
    TreeShape(src, xs, ys);
    TreeFlagsMatch(src, ys);
    ShapeAndFlagsDetermine(t, EmployeeTree(src, ys), ys, ys);
  }

  /**
   * Every reducer keeps the tree the build of a filtering of the record list under the current
   * expanded list: `setSearchFilters` switches to its filters, `clearSearch`, a non-empty search
   * and a fulfilled fetch to no filter at all, every other action keeps the filters it found.
   */
  lemma ReduceKeepsBuilt(s: EmployeeState, a: Action, f: SearchFilters)
    requires BuiltFrom(s, f) && PayloadUnique(a)
    ensures BuiltFrom(Reduce(s, a), NextFilter(a, f))
  {
    var xs := s.expandedNodes;
    FilterUniqueIds(s.employees, f);
    var src := FilterEmployees(s.employees, f);
    match a
    case SetSearchFiltersAction(g) =>
    case ToggleNodeExpansionAction(id) =>
      InPlaceIsRebuild(src, xs, id);
      BuiltIsValid(s, f);
      Expansion.ToggleSpec(s.employeeTree, id, xs);
    case ExpandAllNodesAction =>
      InPlaceIsRebuild(src, xs, 0);
      Expansion.ExpandAllInvariant(s.employeeTree, xs);
    case CollapseAllNodesAction =>
      InPlaceIsRebuild(src, xs, 0);
    case ClearSearchAction =>
      FilterNoConstraint(s.employees);
    case ClearErrorAction =>
    case SearchAndExpandToEmployeeAction(query) =>
      if Lower(query) != "" {
        FilterNoConstraint(s.employees);
        IncludingAllSpec(xs, RevealIds(FindMatches(s.employeeTree, [], Lower(query))));
      }
    case FetchPendingAction =>
    case FetchFulfilledAction(payload) =>
      FilterNoConstraint(payload);
    case FetchRejectedAction(m) =>
  }

  // ---------------------------------------------------------------------------------------
  // Each reducer

  /** Every id in a built tree is the id of some record of the list it was built from. */
  lemma TreeIdsAreRecordIds(es: seq<Employee>, xs: seq<int>)
    requires UniqueIds(es)
    ensures forall id :: id in Ids(EmployeeTree(es, xs)) ==> exists k :: 0 <= k < |es| && es[k].id == id
  {
    RootsAttached(es);
    forall id | forall k :: 0 <= k < |es| ==> es[k].id != id
      ensures id !in Ids(EmployeeTree(es, xs))
    {
      ForeignAbsent(es, xs, RootIndices(es), [], id);
    }
  }

  /**
   * `setSearchFilters` stores the filters and keeps the records, the expanded list, the loading
   * flag and the error; the new tree's top-level nodes are the records that pass the filters and
   * have no manager, in list order, and every node in it is a record that passes the filters.
   */
  lemma SetSearchFiltersSpec(s: EmployeeState, f: SearchFilters)
    requires UniqueIds(s.employees)
    ensures var r := SetSearchFilters(s, f);
      r.searchQuery == f.name && r.selectedRole == f.role && r.selectedDepartment == f.department &&
      r.employees == s.employees && r.expandedNodes == s.expandedNodes &&
      r.isLoading == s.isLoading && r.error == s.error &&
      Records(r.employeeTree) == WithManager(FilterEmployees(s.employees, f), None) &&
      FlagsMatch(r.employeeTree, s.expandedNodes) &&
      forall id :: id in Ids(r.employeeTree) ==> exists e :: e in s.employees && e.id == id && Matches(e, f)
  {
    FilterUniqueIds(s.employees, f);
    var src := FilterEmployees(s.employees, f);
    TreeStructure(src, s.expandedNodes);
    TreeFlagsMatch(src, s.expandedNodes);
    TreeIdsAreRecordIds(src, s.expandedNodes);
    forall k | 0 <= k < |src| ensures src[k] in s.employees && Matches(src[k], f) {
      FilterMembers(s.employees, f, src[k]);
    }
  }

  /**
   * `toggleNodeExpansion(id)` in a valid state: if a node of the tree has that id, the id leaves
   * the list when it is there and is appended otherwise; no other id changes membership; the
   * tree keeps its shape and its flags agree with the new list, so that node, and only it,
   * flips. An id not in the tree changes nothing. The other fields are kept.
   */
  lemma ToggleNodeExpansionSpec(s: EmployeeState, id: int)
    requires Valid(s)
    ensures var r := ToggleNodeExpansion(s, id);
      r.employees == s.employees && r.isLoading == s.isLoading && r.error == s.error &&
      r.searchQuery == s.searchQuery && r.selectedRole == s.selectedRole && r.selectedDepartment == s.selectedDepartment &&
      (id in Ids(s.employeeTree) ==>
        r.expandedNodes == (if id in s.expandedNodes then Without(s.expandedNodes, id) else Including(s.expandedNodes, id)) &&
        (id in r.expandedNodes <==> id !in s.expandedNodes)) &&
      (id !in Ids(s.employeeTree) ==> r == s) &&
      (forall k :: k != id ==> (k in r.expandedNodes <==> k in s.expandedNodes)) &&
      SameShape(r.employeeTree, s.employeeTree) && FlagsMatch(r.employeeTree, r.expandedNodes) &&
      Valid(r)
  {
    Expansion.ToggleSpec(s.employeeTree, id, s.expandedNodes);
    WithoutMembers(s.expandedNodes, id);
    IncludingSpec(s.expandedNodes, id);
    ReducePreservesValid(s, ToggleNodeExpansionAction(id));
  }

  /** Toggling the same id twice restores the tree, and the expanded list as a set; exactly when the node started collapsed. */
  lemma ToggleTwiceRestores(s: EmployeeState, id: int)
    requires Valid(s)
    ensures var r := ToggleNodeExpansion(ToggleNodeExpansion(s, id), id);
      r.employeeTree == s.employeeTree && (forall k :: k in r.expandedNodes <==> k in s.expandedNodes) &&
      (id !in s.expandedNodes ==> r == s)
  {
    Expansion.ToggleTwice(s.employeeTree, id, s.expandedNodes);
  }

  /**
   * `expandAllNodes` expands every node of the current tree, so all of it is rendered; it appends,
   * in preorder, the tree's ids not yet in the list, keeps the ids already there (including ids of
   * nodes filtered out of the tree) and adds no duplicate.
   */
  lemma ExpandAllNodesSpec(s: EmployeeState)
    ensures var r := ExpandAllNodes(s);
      r.employeeTree == SetAll(s.employeeTree, true) &&
      r.expandedNodes == IncludingAll(s.expandedNodes, Ids(s.employeeTree)) &&
      s.expandedNodes <= r.expandedNodes &&
      (forall k :: k in r.expandedNodes <==> k in s.expandedNodes || k in Ids(s.employeeTree)) &&
      (NoDup(s.expandedNodes) ==> NoDup(r.expandedNodes)) &&
      SameShape(r.employeeTree, s.employeeTree) && FlagsMatch(r.employeeTree, r.expandedNodes) &&
      VisibleIds(r.employeeTree) == Ids(s.employeeTree) &&
      r.employees == s.employees && r.error == s.error && r.isLoading == s.isLoading
  {
    Expansion.ExpandAllSpec(s.employeeTree, s.expandedNodes);
    Expansion.ExpandAllInvariant(s.employeeTree, s.expandedNodes);
    AllExpandedAllVisible(s.employeeTree);
  }

  /** `collapseAllNodes` collapses every node, so only the top-level nodes are rendered, and empties the list. */
  lemma CollapseAllNodesSpec(s: EmployeeState)
    ensures var r := CollapseAllNodes(s);
      r.expandedNodes == [] && r.employeeTree == SetAll(s.employeeTree, false) &&
      SameShape(r.employeeTree, s.employeeTree) && FlagsMatch(r.employeeTree, []) &&
      VisibleIds(r.employeeTree) == seq(|s.employeeTree|, i requires 0 <= i < |s.employeeTree| => s.employeeTree[i].id) &&
      r.employees == s.employees && r.error == s.error && r.isLoading == s.isLoading
  {
    Expansion.CollapseAllSpec(s.employeeTree);
    AllCollapsedRootsVisible(s.employeeTree);
  }

  /**
   * `clearSearch` empties the filters and rebuilds from the full list, undoing any earlier
   * `setSearchFilters`; the top-level nodes are then every record without a manager, and for
   * acyclic input without dangling references "Total Employees" is the number of records.
   */
  lemma ClearSearchSpec(s: EmployeeState, f: SearchFilters)
    requires UniqueIds(s.employees)
    ensures var r := ClearSearch(s);
      r.searchQuery == "" && r.selectedRole == "" && r.selectedDepartment == "" &&
      r.employees == s.employees && r.expandedNodes == s.expandedNodes &&
      r.isLoading == s.isLoading && r.error == s.error &&
      (NoDup(s.expandedNodes) ==> BuiltFrom(r, NoFilter())) &&
      ClearSearch(SetSearchFilters(s, f)) == r &&
      Records(r.employeeTree) == WithManager(s.employees, None) &&
      (WellFormed(s.employees) ==> TotalEmployees(r.employeeTree) == |s.employees|)
  {
    FilterNoConstraint(s.employees);
    TreeStructure(s.employees, s.expandedNodes);
    TotalIsNodeCount(ClearSearch(s).employeeTree);
    if WellFormed(s.employees) {
      TreeHoldsEveryRecord(s.employees, s.expandedNodes);
    }
  }

  /** `clearError` drops the error and nothing else, so no error is displayed. */
  lemma ClearErrorSpec(s: EmployeeState)
    ensures var r := ClearError(s);
      r.error == None && r.(error := s.error) == s && !Display(r).ErrorAlert?
  {
  }

  /**
   * `searchAndExpandToEmployee(query)`: an empty query changes nothing. Otherwise the expanded
   * list only grows, by appending, keeps having no duplicates, and gains exactly the strict
   * ancestors, in the current tree, of every node whose lower-cased name contains the
   * lower-cased query; the tree is then rebuilt from the full list.
   */
  lemma SearchAndExpandSpec(s: EmployeeState, query: string)
    requires UniqueIds(s.employees)
    ensures var r := SearchAndExpandToEmployee(s, query);
      (query == "" ==> r == s) &&
      (query != "" ==>
        s.expandedNodes <= r.expandedNodes &&
        (NoDup(s.expandedNodes) ==> NoDup(r.expandedNodes)) &&
        (forall k :: k in r.expandedNodes <==>
          k in s.expandedNodes || k in AncestorsOfMatches(s.employeeTree, Lower(query))) &&
        BuiltFrom(r, NoFilter()) == NoDup(r.expandedNodes)) &&
      r.employees == s.employees && r.isLoading == s.isLoading && r.error == s.error &&
      r.searchQuery == s.searchQuery && r.selectedRole == s.selectedRole && r.selectedDepartment == s.selectedDepartment
  {
    var q := Lower(query);
    assert q == "" <==> query == "";
    if q != "" {
      var paths := FindMatches(s.employeeTree, [], q);
      IncludingAllSpec(s.expandedNodes, RevealIds(paths));
      RevealedAreAncestors(s.employeeTree, q);
      FilterNoConstraint(s.employees);
    }
  }

  /**
   * A matching node is rendered once every strict ancestor of every match is expanded: a
   * forest whose flags agree with a list holding those ancestors renders all its matches.
   */
  lemma {:induction false} MatchesVisible(nodes: seq<EmployeeNode>, q: string, ys: seq<int>)
    requires FlagsMatch(nodes, ys)
    requires forall k :: k in AncestorsOfMatches(nodes, q) ==> k in ys
    ensures forall k :: k in MatchingIds(nodes, q) ==> k in VisibleIds(nodes)
    decreases nodes
  {
    if nodes != [] {
      var n := |nodes|;
      var front, last := nodes[..n - 1], nodes[n - 1];
      assert FlagsMatch(front, ys) by {
        forall i | 0 <= i < |front| ensures front[i] == nodes[i] { }
      }
      MatchesVisible(front, q, ys);
      MatchesVisible(last.subordinates, q, ys);
      if MatchingIds(last.subordinates, q) != {} {
        assert last.id in ys;
        assert |last.subordinates| > 0;
      }
    }
  }

  /**
   * Searching a tree built from the full list reveals what it finds: afterwards every node whose
   * name matches is rendered, and the same nodes match as before.
   */
  lemma SearchRevealsMatches(s: EmployeeState, query: string)
    requires BuiltFrom(s, NoFilter()) && query != ""
    ensures var r := SearchAndExpandToEmployee(s, query);
      MatchingIds(r.employeeTree, Lower(query)) == MatchingIds(s.employeeTree, Lower(query)) &&
      forall k :: k in MatchingIds(r.employeeTree, Lower(query)) ==> k in VisibleIds(r.employeeTree)
  {
    var q := Lower(query);
    var r := SearchAndExpandToEmployee(s, query);
    SearchAndExpandSpec(s, query);
    FilterNoConstraint(s.employees);
    TreeShape(s.employees, s.expandedNodes, r.expandedNodes);
    SameShapeMatches(s.employeeTree, r.employeeTree, q);
    TreeFlagsMatch(s.employees, r.expandedNodes);
    MatchesVisible(r.employeeTree, q, r.expandedNodes);
  }

  /** `fetchEmployees.pending` shows the loading state and keeps the data and the filters. */
  lemma FetchPendingSpec(s: EmployeeState)
    ensures var r := FetchPending(s);
      Display(r) == Loading && r.error == None &&
      r.employees == s.employees && r.employeeTree == s.employeeTree && r.expandedNodes == s.expandedNodes &&
      r.searchQuery == s.searchQuery && r.selectedRole == s.selectedRole && r.selectedDepartment == s.selectedDepartment
  {
  }

  /**
   * `fetchEmployees.fulfilled` stores the payload and builds it under the current expanded list:
   * the chart shows exactly when some record has no manager, and for acyclic input without
   * dangling references "Total Employees" is the number of records.
   */
  lemma FetchFulfilledSpec(s: EmployeeState, payload: seq<Employee>)
    requires UniqueIds(payload)
    ensures var r := FetchFulfilled(s, payload);
      r.employees == payload && !r.isLoading && r.error == None && r.expandedNodes == s.expandedNodes &&
      r.searchQuery == s.searchQuery && r.selectedRole == s.selectedRole && r.selectedDepartment == s.selectedDepartment &&
      Records(r.employeeTree) == WithManager(payload, None) &&
      Display(r) == (if WithManager(payload, None) == [] then NoEmployees else Chart) &&
      (WellFormed(payload) ==> TotalEmployees(r.employeeTree) == |payload|)
  {
    var r := FetchFulfilled(s, payload);
    TreeStructure(payload, s.expandedNodes);
    assert |Records(r.employeeTree)| == |r.employeeTree|;
    TotalIsNodeCount(r.employeeTree);
    if WellFormed(payload) {
      TreeHoldsEveryRecord(payload, s.expandedNodes);
    }
  }

  /**
   * `fetchEmployees.rejected` keeps the records, the tree, the list and the filters, stops loading and stores
   * the message, which is displayed when it is non-empty (the thunk's own message always is).
   */
  lemma FetchRejectedSpec(s: EmployeeState, message: string)
    ensures var r := FetchRejected(s, message);
      r.employees == s.employees && r.employeeTree == s.employeeTree && r.expandedNodes == s.expandedNodes &&
      r.searchQuery == s.searchQuery && r.selectedRole == s.selectedRole && r.selectedDepartment == s.selectedDepartment &&
      !r.isLoading && r.error == Some(message) &&
      Display(r) == (if message != "" then ErrorAlert(message) else if s.employeeTree == [] then NoEmployees else Chart)
    ensures Display(FetchRejected(s, FetchFailureMessage)) == ErrorAlert(FetchFailureMessage)
  {
  }

  /** In a valid state the tree never has more expanded nodes than "Expanded Nodes" shows. */
  lemma ExpandedLabelBound(s: EmployeeState)
    requires Valid(s)
    ensures ExpandedCount(s.employeeTree) <= |s.expandedNodes|
  {
    ExpandedCountBound(s.employeeTree, s.expandedNodes);
  }

  // ---------------------------------------------------------------------------------------
  // Worked scenarios

  /** A single record whose manager (99) is not in the list: after the fetch the forest is empty. */
  lemma DanglingRecordDropped()
    ensures var r := FetchFulfilled(InitialState(), [Employee(1, "A", "r", "d", Some(99))]);
      r.employeeTree == [] && Display(r) == NoEmployees
  {
    var payload := [Employee(1, "A", "r", "d", Some(99))];
    FetchFulfilledSpec(InitialState(), payload);
    assert WithManager(payload, None) == [];
    assert |Records(FetchFulfilled(InitialState(), payload).employeeTree)| == 0;
  }

  /** The chain A (1) -> B (2) -> C (3), fetched with nothing expanded. */
  function ChainLoaded(): EmployeeState
  {
    BottomUpIndices();
    FetchFulfilled(InitialState(), BottomUpChain())
  }

  /** The forest of the chain with nothing expanded. */
  function ChainTree(): seq<EmployeeNode>
  {
    [EmployeeNode(1, "A", "r", "d", None,
      [EmployeeNode(2, "B", "r", "d", Some(1),
        [EmployeeNode(3, "C", "r", "d", Some(2), [], false, 1)],
        false, 1)],
      false, 0)]
  }

  /** The loaded chain is built from the full list and its tree is A over B over C, all collapsed. */
  lemma ChainLoadedTree()
    ensures BuiltFrom(ChainLoaded(), NoFilter())
    ensures ChainLoaded().employeeTree == ChainTree()
    ensures ChainLoaded().expandedNodes == [] && ChainLoaded().employees == BottomUpChain()
  {
    BottomUpTree();
    InitialStateSpec();
    ReduceKeepsBuilt(InitialState(), FetchFulfilledAction(BottomUpChain()), NoFilter());
  }

  /** In the chain's forest only C's name contains "c", found along the path A, B, C; the preorder is A, B, C. */
  lemma ChainTreeFacts()
    ensures FindMatches(ChainTree(), [], "c") == [[1, 2, 3]]
    ensures 3 in MatchingIds(ChainTree(), "c")
    ensures Ids(ChainTree()) == [1, 2, 3]
  {
    var cNode := EmployeeNode(3, "C", "r", "d", Some(2), [], false, 1);
    var bNode := EmployeeNode(2, "B", "r", "d", Some(1), [cNode], false, 1);
    var aNode := EmployeeNode(1, "A", "r", "d", None, [bNode], false, 0);
    assert ChainTree() == [aNode];
    assert Lower("C") == "c";
    assert Lower("A") == "a" && Lower("B") == "b";
    assert "a"[1..] == "" && "b"[1..] == "" && "c"[0] != "a"[0] && "c"[0] != "b"[0];
    assert NameMatches(cNode, "c") && !NameMatches(bNode, "c") && !NameMatches(aNode, "c");
    assert [cNode][..0] == [] && [bNode][..0] == [] && [aNode][..0] == [];
    assert [1, 2] + [3] == [1, 2, 3] && [1] + [2] == [1, 2] && [] + [1] == [1];
    assert FindMatches([cNode], [1, 2], "c") == [] + [[1, 2, 3]] + [];
    assert FindMatches([bNode], [1], "c") == [] + [] + FindMatches([cNode], [1, 2], "c");
    assert FindMatches([aNode], [], "c") == [] + [] + FindMatches([bNode], [1], "c");
    assert MatchingIds([cNode], "c") == {3};
    assert Ids([cNode]) == [3];
    assert Ids([bNode]) == [2, 3];
  }

  /** Appending the distinct ids 1, 2 and 3 to an empty list, one guarded push at a time. */
  lemma PushOneTwoThree()
    ensures IncludingAll([], [1, 2]) == [1, 2]
    ensures IncludingAll([], [1, 2, 3]) == [1, 2, 3]
  {
    var one: seq<int> := [1];
    var two: seq<int> := [1, 2];
    var three: seq<int> := [1, 2, 3];
    assert one[..0] == [] && two[..1] == one && three[..2] == two;
    assert IncludingAll([], one) == Including([], 1) == [1];
    assert IncludingAll([], two) == Including([1], 2) == [1, 2];
    assert IncludingAll([], three) == Including([1, 2], 3) == [1, 2, 3];
  }

  /** The ids the chain's search for "c" reveals, and the ids expanding it all appends, starting from an empty list. */
  lemma ChainLists()
    ensures IncludingAll([], RevealIds(FindMatches(ChainTree(), [], "c"))) == [1, 2]
    ensures IncludingAll([], Ids(ChainTree())) == [1, 2, 3]
  {
    ChainTreeFacts();
    PushOneTwoThree();
    var paths: seq<seq<int>> := [[1, 2, 3]];
    assert paths[..0] == [];
    assert RevealIds(paths) == [1, 2];
  }

  /**
   * Searching the collapsed chain for "C" expands A and B, not C itself, and C is then rendered
   * (the loaded chain is such a state: `ChainLoadedTree`).
   */
  lemma SearchChainExample(s: EmployeeState)
    requires BuiltFrom(s, NoFilter()) && s.employeeTree == ChainTree() && s.expandedNodes == []
    ensures var r := SearchAndExpandToEmployee(s, "C");
      r.expandedNodes == [1, 2] && 3 in VisibleIds(r.employeeTree)
  {
    ChainTreeFacts();
    ChainLists();
    assert Lower("C") == "c";
    SearchRevealsMatches(s, "C");
  }

  /** Expanding the whole loaded chain lists its three ids in preorder. */
  lemma ChainExpandAll()
    ensures ExpandAllNodes(ChainLoaded()).expandedNodes == [1, 2, 3]
    ensures ExpandAllNodes(ChainLoaded()).employees == BottomUpChain()
  {
    ChainLoadedTree();
    ChainLists();
    ExpandAllNodesSpec(ChainLoaded());
  }

  /** Filters that no record passes leave nothing. */
  lemma {:induction false} NothingPasses(es: seq<Employee>, f: SearchFilters)
    requires forall k :: 0 <= k < |es| ==> !Matches(es[k], f)
    ensures FilterEmployees(es, f) == []
    decreases |es|
  {
    if es != [] {
      NothingPasses(es[..|es| - 1], f);
    }
  }

  /**
   * "Expanded Nodes" can exceed the expanded nodes shown: once the whole chain is expanded (the state
   * `ChainExpandAll` reaches), filtering on a role nobody has empties the tree but the list still holds
   * three ids.
   */
  lemma ExpandedLabelExceedsTree(s: EmployeeState)
    requires s.employees == BottomUpChain() && s.expandedNodes == [1, 2, 3]
    ensures var r := SetSearchFilters(s, SearchFilters("", "x", ""));
      r.employeeTree == [] && ExpandedCount(r.employeeTree) == 0 && |r.expandedNodes| == 3
  {
    BottomUpIndices();
    NothingPasses(BottomUpChain(), SearchFilters("", "x", ""));
    assert RootIndices([]) == [];
  }
}
