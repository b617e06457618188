/**
 * What the search bar dispatches once its debounce fires (src/components/employee/SearchBar.tsx):
 * `setSearchFilters(filters)`, then `searchAndExpandToEmployee(filters.name)` when the name is
 * non-empty. The timer itself is not modelled; one call is one fired debounce.
 */
module SearchBarFlow {
  import opened Wrappers
  import opened Types
  import opened Text
  import opened IdLists
  import opened Forest
  import opened Hierarchy
  import opened TreeFacts
  import opened Filtering
  import opened Search
  import opened TreeView
  import opened EmployeeSlice

  /** The two dispatches of the debounced search, in order. */
  function DebouncedSearch(s: EmployeeState, filters: SearchFilters): EmployeeState
    requires UniqueIds(s.employees)
  {
    var filtered := SetSearchFilters(s, filters);
    if filters.name != "" then SearchAndExpandToEmployee(filtered, filters.name) else filtered
  }

  /**
   * The three filters are stored either way. With an empty name the tree is the filtered build.
   * With a name, the ids gained are the ancestors of the matches in the FILTERED tree, and the
   * tree is then rebuilt from the full list, so the stored role and department filters no
   * longer apply to it.
   */
  lemma DebouncedSearchSpec(s: EmployeeState, filters: SearchFilters)
    requires UniqueIds(s.employees) && NoDup(s.expandedNodes)
    ensures var r := DebouncedSearch(s, filters);
      r.searchQuery == filters.name && r.selectedRole == filters.role && r.selectedDepartment == filters.department &&
      r.employees == s.employees &&
      (filters.name == "" ==> BuiltFrom(r, filters) && r.expandedNodes == s.expandedNodes) &&
      (filters.name != "" ==>
        BuiltFrom(r, NoFilter()) &&
        s.expandedNodes <= r.expandedNodes &&
        forall k :: k in r.expandedNodes <==>
          k in s.expandedNodes || k in AncestorsOfMatches(SetSearchFilters(s, filters).employeeTree, Lower(filters.name)))
  {
    var filtered := SetSearchFilters(s, filters);
    SetSearchFiltersSpec(s, filters);
    if filters.name != "" {
      SearchAndExpandSpec(filtered, filters.name);
    }
  }

  /** Alice heads the list; Bob reports to Alice. */
  function AliceAndBob(): seq<Employee>
  {
    [Employee(1, "Alice", "Lead", "Eng", None), Employee(2, "Bob", "Dev", "Eng", Some(1))]
  }

  /** The two records have distinct ids; Alice is the only top-level record and Bob the only one reporting to Alice. */
  lemma AliceAndBobShape()
    ensures UniqueIds(AliceAndBob())
    ensures WithManager(AliceAndBob(), None) == [AliceAndBob()[0]]
    ensures WithManager(AliceAndBob(), Some(1)) == [AliceAndBob()[1]]
  {
    var es := AliceAndBob();
    assert es[..1][..0] == [] && es[..1] == [es[0]];
  }

  /** Only Bob's name contains "bob"; Alice's does not. */
  lemma BobFilter()
    ensures FilterEmployees(AliceAndBob(), SearchFilters("bob", "", "")) == [AliceAndBob()[1]]
    ensures Contains(Lower("Bob"), "bob")
  {
    var es := AliceAndBob();
    assert Lower("Alice") == "alice" && Lower("Bob") == "bob" && Lower("bob") == "bob";
    assert "bob" <= "bob";
    if Contains("alice", "bob") {
      ContainedFirstChar("alice", "bob");
    }
    assert !Contains("alice", "bob");
    assert !Matches(es[0], SearchFilters("bob", "", ""));
    assert es[..1][..0] == [] && es[..1] == [es[0]];
  }

  /**
   * As written, searching for "bob" hides Bob: the filter keeps Bob but not Bob's manager, so the
   * filtered tree is empty (Bob's manager reference dangles), the search there reveals nothing,
   * and the tree rebuilt from the full list shows Alice collapsed with Bob, who matches and is
   * highlighted, unseen.
   */
  lemma HiddenMatchExample(s: EmployeeState)
    requires s.employees == AliceAndBob() && s.expandedNodes == []
    ensures UniqueIds(s.employees)
    ensures var r := DebouncedSearch(s, SearchFilters("bob", "", ""));
      r.expandedNodes == [] && 2 in MatchingIds(r.employeeTree, "bob") && 2 !in VisibleIds(r.employeeTree) &&
      r.searchQuery == "bob" && 2 in HighlightedIds(r.employeeTree, r.searchQuery)
  {
    var f := SearchFilters("bob", "", "");
    AliceAndBobShape();
    BobFilter();
    var es := AliceAndBob();
    var filtered := SetSearchFilters(s, f);
    var bobOnly := [es[1]];
    assert UniqueIds(bobOnly);
    assert RootIndices(bobOnly) == [];
    assert filtered.employeeTree == [];
    assert Lower("bob") == "bob";
    var r := DebouncedSearch(s, f);
    assert r.expandedNodes == [];
    var t := r.employeeTree;
    assert t == EmployeeTree(es, []);
    TreeStructure(es, []);
    TreeFlagsMatch(es, []);
    assert |Records(t)| == 1;
    assert t[0].Record() == es[0] && !t[0].isExpanded;
    assert Records(t[0].subordinates) == [es[1]];
    var bob := t[0].subordinates[0];
    assert bob.Record() == es[1] && NameMatches(bob, "bob");
    assert t[..0] == [] && t[0].subordinates[..0] == [];
    assert 2 in MatchingIds(t[0].subordinates, "bob");
    assert t == [t[0]];
    assert VisibleIds(t) == [1];
    HighlightedAreMatches(t, "bob");
  }

  /** The search as evidently intended: walk the tree of the full list (not the filtered one), then rebuild from it. */
  function SearchFullTree(s: EmployeeState, filters: SearchFilters): EmployeeState
    requires UniqueIds(s.employees)
  {
    var filtered := SetSearchFilters(s, filters);
    if filters.name != "" then
      SearchAndExpandToEmployee(filtered.(employeeTree := EmployeeTree(s.employees, s.expandedNodes)), filters.name)
    else filtered
  }

  /** Walking the full tree, a non-empty name search leaves every matching, hence every highlighted, node rendered. */
  lemma SearchFullTreeReveals(s: EmployeeState, filters: SearchFilters)
    requires UniqueIds(s.employees) && NoDup(s.expandedNodes) && filters.name != ""
    ensures var r := SearchFullTree(s, filters);
      r.searchQuery == filters.name && r.selectedRole == filters.role && r.selectedDepartment == filters.department &&
      (forall k :: k in MatchingIds(r.employeeTree, Lower(filters.name)) ==> k in VisibleIds(r.employeeTree)) &&
      forall k :: k in HighlightedIds(r.employeeTree, r.searchQuery) ==> k in VisibleIds(r.employeeTree)
  {
    var filtered := SetSearchFilters(s, filters);
    var full := filtered.(employeeTree := EmployeeTree(s.employees, s.expandedNodes));
    FilterNoConstraint(s.employees);
    assert BuiltFrom(full, NoFilter());
    SearchRevealsMatches(full, filters.name);
    var r := SearchFullTree(s, filters);
    HighlightedAreMatches(r.employeeTree, r.searchQuery);
  }
}
