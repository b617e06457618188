# Employee hierarchy state, modelled and proved in Dafny

This project models the `employees` slice of an organisational-chart web application, and the
parts of its tree view and search bar that decide what the slice's state shows. The slice holds
the flat list of employee records and the forest of nodes built from it. It also holds a loading
flag, an error message, the three search filters and the `expandedNodes` list of expanded ids.

The model covers these parts of the slice:

- **The tree builder** (`buildEmployeeTree`). It makes two passes over the records: one creates a
  node per record in an id-keyed Map, the other attaches each node to the root list or to its
  manager's `subordinates` and sets its `level`.
- **The record filter** (`filterEmployees`).
- **The reducers** `setSearchFilters`, `toggleNodeExpansion`, `expandAllNodes`, `collapseAllNodes`,
  `clearSearch`, `clearError` and `searchAndExpandToEmployee`.
- **The pending / fulfilled / rejected outcomes** of the employee fetch.

The model also covers these parts of the view and the search bar:

- **The tree view's rules**: which nodes are rendered, which are highlighted, the "Total
  Employees" and "Expanded Nodes" figures, and the loading / error / empty / chart priority.
- **The search bar's debounced action**: `setSearchFilters` followed by
  `searchAndExpandToEmployee` when the name is non-empty.

## Layout

The modules follow the program.

| file | contents |
|---|---|
| `types.dfy`, `wrappers.dfy` | The `Employee`, `EmployeeNode` and `SearchFilters` records, and `Option`. |
| `text.dfy` | `toLowerCase` (ASCII) and `includes`. |
| `idlists.dfy` | The guarded `push` and the removing `filter` the reducers apply to `expandedNodes`. |
| `hierarchy.dfy` | What `buildEmployeeTree` computes, stated over record indices. |
| `builder.dfy` | `buildEmployeeTree` itself, as imperative methods (see below). |
| `tree_facts.dfy` | What the built forest is. |
| `forest.dfy` | Preorder ids, flag agreement and setting every flag. |
| `filter.dfy` | `filterEmployees`. |
| `expansion.dfy` | The three recursive traversals of the expansion reducers, read as functions. |
| `search.dfy` | `findMatchingEmployees` and the ancestor ids its paths reveal. |
| `view.dfy` | The tree view's rules. |
| `slice.dfy` | The state, the reducers as functions, the store invariant and the per-reducer contracts. |
| `store.dfy` | A class `EmployeeStore` whose methods update its fields in place. |
| `searchbar.dfy` | The search bar's composite action. |

Two modules need more explanation.

- **`builder.dfy`** is written as imperative methods.
  - The first pass is a loop filling a `map`.
  - The second pass is a loop that appends to manager slots and sets levels.
  - The shared JavaScript node objects are modelled as an array of slots indexed by record.
  - The result is proved equal to `Hierarchy.EmployeeTree`. That function unfolds the slots from
    the roots, along a root-to-node chain of record indices.
- **`store.dfy`**: each method of `EmployeeStore` is proved to leave the state the matching
  reducer function computes. The traversals are recursive methods with loops, as in the source.

## Model

| member | source | states |
|---|---|---|
| TreeBuilder.CreateNodes | src/store/slices/employeeSlice.ts:26-37 | The first pass leaves the Map as `IdIndex`, where a later record with the same id wins. It creates one node per record, with no subordinates, level 0 and `isExpanded == expandedNodes.includes(id)`. |
| TreeBuilder.AttachNode | src/store/slices/employeeSlice.ts:40-53 | One call of the second pass's callback has one of three effects. A record with a null `managerId` is pushed to the root list. A record whose manager is found is appended to that manager's subordinates and given the manager's current level plus one. Any other record changes nothing. |
| TreeBuilder.LinkNodes | src/store/slices/employeeSlice.ts:39-54 | After the second pass the node graph is `NodeGraph` and the root list holds the records with a null `managerId`, in list order. |
| TreeBuilder.BuildEmployeeTree | src/store/slices/employeeSlice.ts:25-57 | The forest returned is `EmployeeTree(employees, expandedNodes)`, so two builds with the same arguments are equal. |
| Hierarchy.ReportingMembers | src/store/slices/employeeSlice.ts:43-50 | The indices pushed for a manager (or for the root list) are exactly the records naming it, in strictly increasing list order. |
| TreeFacts.UnfoldedAt | src/store/slices/employeeSlice.ts:29-52 | Every built node carries its record's fields, the flag `id ∈ expandedNodes` and the level `LevelAt`. That level is 0 without a found manager; otherwise it is 1 plus the manager's level if the manager comes earlier in the list, and 1 if it does not. |
| TreeFacts.TreeStructure | src/store/slices/employeeSlice.ts:40-54 | The top-level nodes are the records with a null `managerId`, in list order. Every node's subordinates are exactly the records whose `managerId` is its id, in list order. |
| TreeFacts.TreeFlagsMatch | src/store/slices/employeeSlice.ts:34 | Every node of the built forest has `isExpanded == (id in expandedNodes)`. |
| TreeFacts.TreeShape | src/store/slices/employeeSlice.ts:25-57 | Building under another expanded list changes the flags only. |
| TreeFacts.TreeMultiplicity | src/store/slices/employeeSlice.ts:40-54 | A record's id occurs in the forest once if its `managerId` is null, plus once per occurrence of its found manager. |
| TreeFacts.TreeIdsDistinct | src/store/slices/employeeSlice.ts:40-54 | With unique ids, no id occurs twice in the built forest. |
| TreeFacts.DanglingDropped | src/store/slices/employeeSlice.ts:48-49 | A record whose `managerId` names no record in the list is neither a root nor attached. |
| TreeFacts.UnrootedAbsent | src/store/slices/employeeSlice.ts:43-53 | Records whose manager chain never reaches a top-level record, whether through a dangling reference or a cycle, occur nowhere in the forest. |
| TreeFacts.TreeHoldsEveryRecord | src/store/slices/employeeSlice.ts:25-57 | For acyclic input without dangling references, the forest's preorder ids are a permutation of the records' ids. |
| TreeFacts.TreeLevels | src/store/slices/employeeSlice.ts:51 | When every manager precedes its subordinates in the list, roots have level 0 and each subordinate has its manager's level plus one. |
| TreeFacts.TreeLevelWhenManagerFollows | src/store/slices/employeeSlice.ts:51 | Listing the chain A, B, C bottom-up gives C level 1 at depth 2, so levels are not depths in general. |
| TreeFacts.LevelWhenManagerFollows | src/store/slices/employeeSlice.ts:51 | In the bottom-up chain, B and C each find their manager and both get level 1. |
| TreeFacts.BottomUpTree | src/store/slices/employeeSlice.ts:25-57 | The whole forest built from the bottom-up chain: A, with B below it and C below B. |
| Filtering.FilterMembers | src/store/slices/employeeSlice.ts:60-69 | A record is kept iff it is in the list and passes all three criteria. |
| Filtering.FilterConcat | src/store/slices/employeeSlice.ts:61 | Filtering distributes over concatenation, so kept records keep their list order. |
| Filtering.FilterCounts | src/store/slices/employeeSlice.ts:61-68 | A passing record is kept as often as it occurs; a failing one is dropped. |
| Filtering.FilterSingle | src/store/slices/employeeSlice.ts:61-68 | A one-record list is kept exactly when the record passes. |
| Filtering.FilterNoConstraint | src/store/slices/employeeSlice.ts:62-65 | All-empty filters return the list unchanged. |
| Filtering.FilterIdempotent | src/store/slices/employeeSlice.ts:60-69 | Filtering twice with the same filters is filtering once. |
| Filtering.NameFilterCaseInsensitive | src/store/slices/employeeSlice.ts:62-63 | Lower-casing the name filter first does not change the outcome. |
| Filtering.FilterUniqueIds | src/store/slices/employeeSlice.ts:60-69 | Filtering keeps ids unique. |
| Filtering.FilterExample | src/store/slices/employeeSlice.ts:62-63 | The name filter "ali" keeps "Alice Smith" and drops "bob". |
| Text.ContainsIffOccurs | src/store/slices/employeeSlice.ts:63 | `includes` holds iff the needle occurs at some offset. |
| Text.EmptyIsContained | src/store/slices/employeeSlice.ts:63 | The empty string is contained in every string. |
| Text.LowerIdempotent | src/store/slices/employeeSlice.ts:63 | Lower-casing twice is lower-casing once. |
| IdLists.IncludingSpec | src/store/slices/employeeSlice.ts:104-106 | The guarded push keeps the old list as a prefix, adds exactly the id, and never duplicates. |
| IdLists.WithoutSpec | src/store/slices/employeeSlice.ts:108 | The removing `filter` drops every copy of the id and keeps every other id as often as before. An absent id changes nothing. |
| IdLists.WithoutNoDup | src/store/slices/employeeSlice.ts:108 | Removing an id keeps a duplicate-free list duplicate-free. |
| IdLists.IncludingAllSpec | src/store/slices/employeeSlice.ts:182-186 | Guarded pushes of several ids keep the old list as a prefix, add exactly those ids and keep the list duplicate-free. |
| IdLists.IncludingAllConcat | src/store/slices/employeeSlice.ts:180-187 | Pushing the ids of two paths in turn is pushing their concatenation. |
| IdLists.WithoutAfterPush | src/store/slices/employeeSlice.ts:104-108 | Pushing an absent id and then removing it restores the list. |
| IdLists.PushAfterWithout | src/store/slices/employeeSlice.ts:104-108 | Removing a present id and pushing it back yields the same ids with that one moved to the end. |
| Expansion.ToggleSpec | src/store/slices/employeeSlice.ts:99-114 | Toggle, for an id in the forest (distinct ids, flags agreeing with a duplicate-free list): the id leaves the list if present and is appended if absent, and the list stays duplicate-free. The forest keeps its shape and its flags agree with the new list, so only that node flips. An id not in the forest changes nothing. |
| Expansion.ToggleAbsent | src/store/slices/employeeSlice.ts:99-114 | Toggling an id that is not in the forest changes neither the forest nor the list. |
| Expansion.ToggleTwice | src/store/slices/employeeSlice.ts:99-114 | Toggling twice restores the forest, and restores the list as a set and as a multiset. The list comes back exactly when the node started collapsed. |
| Expansion.ExpandAllSpec | src/store/slices/employeeSlice.ts:119-127 | Every flag is set, and the forest's ids not yet in the list are appended in preorder. |
| Expansion.ExpandAllInvariant | src/store/slices/employeeSlice.ts:119-127 | Expand-all keeps the shape and keeps the old list as a prefix. It adds exactly the forest's ids, leaves flags agreeing with the new list and adds no duplicate. |
| Expansion.CollapseAllSpec | src/store/slices/employeeSlice.ts:132-137 | Collapse-all keeps the shape and the ids, and its flags agree with the empty list. |
| Expansion.CollapseThenExpand | src/store/slices/employeeSlice.ts:118-141 | Collapsing and then expanding leaves every node expanded and the forest's ids, each once, in the list. |
| Search.FindMatchesEnds | src/store/slices/employeeSlice.ts:156-175 | The recorded paths end exactly at the nodes whose lower-cased name contains the query. |
| Search.FindMatchesExtend | src/store/slices/employeeSlice.ts:156-175 | Every recorded path extends the path the walk started from. |
| Search.RevealSpec | src/store/slices/employeeSlice.ts:156-187 | The ids the paths reveal are the starting path (when anything matches) plus the strict ancestors of every match. |
| Search.RevealedAreAncestors | src/store/slices/employeeSlice.ts:177-187 | From the top of the tree, the revealed ids are exactly the strict ancestors of the matches. |
| Search.SameShapeMatches | src/store/slices/employeeSlice.ts:156-175 | The walk, the matches and their ancestors do not depend on the expansion flags. |
| TreeView.VisibleMembers | src/components/employee/EmployeeTree.tsx:72-78 | A node is rendered iff it is a top-level node, or it sits below a rendered expanded node. |
| TreeView.VisibleAreNodes | src/components/employee/EmployeeTree.tsx:72-78 | Only nodes of the forest are rendered. |
| TreeView.AllExpandedAllVisible | src/components/employee/EmployeeTree.tsx:72-78 | With every node expanded, the whole forest is rendered in preorder. |
| TreeView.AllCollapsedRootsVisible | src/components/employee/EmployeeTree.tsx:150 | With every node collapsed, exactly the top-level nodes are rendered. |
| TreeView.HighlightIsNameMatch | src/components/employee/EmployeeTree.tsx:58-59 | A node is highlighted iff the query is non-empty and the node passes the name test the search applies with the lower-cased query. An empty query highlights nothing, and lower-casing the query first changes nothing. |
| TreeView.HighlightedAreMatches | src/components/employee/EmployeeTree.tsx:58-59 | For a non-empty query, the ids of the highlighted nodes of a forest are exactly the ids the search matches with the lower-cased query. For an empty query no node is highlighted. |
| TreeView.TotalIsNodeCount | src/components/employee/EmployeeTree.tsx:156-162 | "Total Employees" is the number of nodes reachable in the forest, and 0 for an empty forest. |
| TreeView.DisplayPriority | src/components/employee/EmployeeTree.tsx:83-120 | The order is: loading first, then a non-empty error, then "No employees found" for an empty forest, then the chart, whose total is at least the number of top-level nodes. |
| TreeView.ExpandedCountBound | src/components/employee/EmployeeTree.tsx:164 | When ids are distinct and flags agree with the list, the expanded nodes are at most `expandedNodes.length`. |
| EmployeeSlice.InitialStateSpec | src/store/slices/employeeSlice.ts:71-80 | The initial state satisfies the invariant, is built from the (empty) list and shows "No employees found" with total 0. |
| EmployeeSlice.BuiltIsValid | src/store/slices/employeeSlice.ts:25-57 | A state whose tree is the build of a filtering of its records satisfies the invariant. |
| EmployeeSlice.ReducePreservesValid | src/store/slices/employeeSlice.ts:86-208 | Every reducer keeps the invariant: unique record ids, a duplicate-free `expandedNodes`, distinct tree ids and every `isExpanded == (id in expandedNodes)`. |
| EmployeeSlice.ReduceKeepsBuilt | src/store/slices/employeeSlice.ts:86-208 | Every reducer keeps the tree equal to the build of a filtering of the records under the current list. `setSearchFilters` switches to its filters; `clearSearch`, a non-empty search and a fulfilled fetch switch to no filter; every other action keeps the filters it found. |
| EmployeeSlice.InPlaceIsRebuild | src/store/slices/employeeSlice.ts:95-141 | Toggling, expanding or collapsing a built tree in place gives the tree built under the resulting list. |
| EmployeeSlice.SameAsRebuild | src/store/slices/employeeSlice.ts:25-57 | A forest shaped like a build whose flags agree with a list is the build under that list. |
| EmployeeSlice.TreeIdsAreRecordIds | src/store/slices/employeeSlice.ts:25-57 | Every id in a built tree is some record's id. |
| EmployeeSlice.SetSearchFiltersSpec | src/store/slices/employeeSlice.ts:86-94 | The filters are stored, and the records, list, loading flag and error are kept. The new tree's top-level nodes are the passing records without a manager, in list order, and every node is a passing record. |
| EmployeeSlice.ToggleNodeExpansionSpec | src/store/slices/employeeSlice.ts:95-117 | An id in the tree leaves the list when present and is appended otherwise; no other id changes membership; only that node flips. An id not in the tree changes nothing. The other fields are kept. |
| EmployeeSlice.ToggleTwiceRestores | src/store/slices/employeeSlice.ts:95-117 | Toggling twice restores the tree and the list as a set; it restores the list exactly when the node started collapsed. |
| EmployeeSlice.ExpandAllNodesSpec | src/store/slices/employeeSlice.ts:118-130 | Every node is expanded and the whole tree is rendered. The tree's missing ids are appended in preorder, ids of filtered-out nodes are kept, and no duplicate is added. |
| EmployeeSlice.CollapseAllNodesSpec | src/store/slices/employeeSlice.ts:131-141 | Every node is collapsed, only the top-level nodes are rendered, and the list is emptied. |
| EmployeeSlice.ClearSearchSpec | src/store/slices/employeeSlice.ts:142-147 | The filters are emptied and the tree is rebuilt from the full list, undoing any filter. For acyclic, non-dangling input, "Total Employees" is the number of records. |
| EmployeeSlice.ClearErrorSpec | src/store/slices/employeeSlice.ts:148-150 | The error is dropped and nothing else changes, so no error is displayed. |
| EmployeeSlice.SearchAndExpandSpec | src/store/slices/employeeSlice.ts:151-191 | An empty lower-cased query changes nothing. Otherwise the list only grows by appending and stays duplicate-free. It gains exactly the strict ancestors, in the current tree, of every match, and the tree is rebuilt from the full list. |
| EmployeeSlice.MatchesVisible | src/components/employee/EmployeeTree.tsx:72-78 | Once every strict ancestor of every match is expanded, every match is rendered. |
| EmployeeSlice.SearchRevealsMatches | src/store/slices/employeeSlice.ts:151-191 | Searching a tree built from the full list leaves every match rendered, and the same nodes match. |
| EmployeeSlice.SearchChainExample | src/store/slices/employeeSlice.ts:151-191 | Searching the collapsed chain A, B, C for "C" expands A and B, not C, and C is then rendered. |
| EmployeeSlice.ChainLoadedTree | src/store/slices/employeeSlice.ts:199-204 | Fetching the chain with nothing expanded gives the forest A over B over C, all collapsed. |
| EmployeeSlice.ChainExpandAll | src/store/slices/employeeSlice.ts:118-130 | Expanding the loaded chain lists 1, 2, 3. |
| EmployeeSlice.FetchPendingSpec | src/store/slices/employeeSlice.ts:195-198 | Loading is set and the error is cleared. Records, tree, list and the three filters are kept, and the spinner is shown. |
| EmployeeSlice.FetchFulfilledSpec | src/store/slices/employeeSlice.ts:199-204 | The payload is stored and built under the current list, and loading and error are cleared. The chart shows exactly when some record has no manager. For acyclic, non-dangling input, the total is the number of records. |
| EmployeeSlice.FetchRejectedSpec | src/store/slices/employeeSlice.ts:205-208 | Loading is cleared and the message is stored. Records, tree, list and the three filters are kept. A non-empty message is displayed, as the thunk's own message is. |
| EmployeeSlice.DanglingRecordDropped | src/store/slices/employeeSlice.ts:48-53 | Fetching `[{id: 1, managerId: 99}]` gives an empty forest and "No employees found". |
| EmployeeSlice.ExpandedLabelBound | src/components/employee/EmployeeTree.tsx:164 | In every state satisfying the invariant, which every reducer preserves, the tree has no more expanded nodes than "Expanded Nodes" shows. |
| EmployeeSlice.ExpandedLabelExceedsTree | src/components/employee/EmployeeTree.tsx:164 | "Expanded Nodes" can exceed the expanded nodes shown. After expanding the whole chain, a role filter nobody passes empties the tree while the list keeps 3 ids. |
| EmployeeSlice.NothingPasses | src/store/slices/employeeSlice.ts:60-69 | Filters that no record passes leave nothing. |
| Store.EmployeeStore.constructor | src/store/slices/employeeSlice.ts:71-80 | The store starts in `initialState`. |
| Store.EmployeeStore.SetSearchFilters | src/store/slices/employeeSlice.ts:86-94 | The fields become the `SetSearchFilters` state. |
| Store.EmployeeStore.ToggleExpansion | src/store/slices/employeeSlice.ts:99-114 | The recursive traversal returns the flipped forest and leaves `expandedNodes` as `Expansion.Toggle` says; nothing else changes. |
| Store.EmployeeStore.ToggleNodeExpansion | src/store/slices/employeeSlice.ts:95-117 | The fields become the `ToggleNodeExpansion` state. |
| Store.EmployeeStore.ExpandAll | src/store/slices/employeeSlice.ts:119-127 | The recursive traversal returns the expanded forest and leaves `expandedNodes` as `Expansion.ExpandAll` says; nothing else changes. |
| Store.EmployeeStore.ExpandAllNodes | src/store/slices/employeeSlice.ts:118-130 | The fields become the `ExpandAllNodes` state. |
| Store.EmployeeStore.CollapseAll | src/store/slices/employeeSlice.ts:132-137 | The recursive traversal returns the forest with every flag cleared. |
| Store.EmployeeStore.CollapseAllNodes | src/store/slices/employeeSlice.ts:131-141 | The fields become the `CollapseAllNodes` state. |
| Store.EmployeeStore.ClearSearch | src/store/slices/employeeSlice.ts:142-147 | The fields become the `ClearSearch` state. |
| Store.EmployeeStore.ClearError | src/store/slices/employeeSlice.ts:148-150 | The fields become the `ClearError` state. |
| Store.EmployeeStore.ExpandPath | src/store/slices/employeeSlice.ts:182-186 | The ids of one path but its last are pushed, each only if absent. |
| Store.EmployeeStore.ExpandPaths | src/store/slices/employeeSlice.ts:180-187 | `expandedNodes` becomes the old list with every revealed id pushed in order. |
| Store.EmployeeStore.SearchAndExpandToEmployee | src/store/slices/employeeSlice.ts:151-191 | The fields become the `SearchAndExpandToEmployee` state. |
| Store.EmployeeStore.FetchPending | src/store/slices/employeeSlice.ts:195-198 | The fields become the `FetchPending` state. |
| Store.EmployeeStore.FetchFulfilled | src/store/slices/employeeSlice.ts:199-204 | The fields become the `FetchFulfilled` state. |
| Store.EmployeeStore.FetchRejected | src/store/slices/employeeSlice.ts:205-208 | The fields become the `FetchRejected` state. |
| Store.EmployeeStore.Dispatch | src/store/slices/employeeSlice.ts:82-210 | Dispatching an action leaves the state `Reduce` computes, whose invariants are proved in `EmployeeSlice`. |
| SearchBarFlow.DebouncedSearchSpec | src/components/employee/SearchBar.tsx:43-48 | The filters are stored. With an empty name the tree is the filtered build. With a name, the ids gained are the ancestors of the matches in the filtered tree, and the tree is then rebuilt from the full list. |
| SearchBarFlow.HiddenMatchExample | src/components/employee/SearchBar.tsx:43-48 | As written, searching "bob" in Alice over Bob expands nothing. Bob matches and is highlighted under the stored query, but is not rendered. |
| SearchBarFlow.SearchFullTreeReveals | src/components/employee/SearchBar.tsx:43-48 | Searching the tree of the full list leaves every match rendered, so every node highlighted under the stored query is rendered too. |

## Where the code and the design description disagree

The model follows the code in each case.

- **Levels.** The design says a node's level is its depth whatever the list order.
  - In the code, a node's level is read from its manager when the node is processed. It is
    therefore the depth only when every manager precedes its subordinates (`TreeFacts.TreeLevels`).
  - Listed bottom-up, A over B over C gives C level 1 at depth 2
    (`TreeFacts.TreeLevelWhenManagerFollows`).
- **Toggling twice.** The design says toggling twice restores the expansion state.
  - The code restores the tree, and restores `expandedNodes` as a set.
  - When the node started expanded, its id moves to the end of the list
    (`Expansion.ToggleTwice`, `IdLists.PushAfterWithout`).
- **Which tree the search walks.** The design says search-and-reveal walks the unfiltered forest.
  - The reducer walks the current tree.
  - The search bar dispatches `setSearchFilters` first, so the current tree is the filtered one
    (see Findings).

## Left out

- The body of the fetch thunk is left out: its one-second delay and its dynamic import of the JSON data file. Only the three outcome reducers are modelled, with the payload and the rejection message as inputs. `FetchFailureMessage` is the message the thunk rejects with.
- The 300 ms debounce timer is left out, along with the coalescing of keystrokes it performs. One call of `SearchBarFlow.DebouncedSearch` is one fired debounce.
- The following are not part of this model; they hold no hierarchy logic:
  - authentication (keycloak wrappers, login components, routing);
  - local storage and cookie persistence;
  - the theme slice;
  - the layout and common components;
  - the card styling.
- Scrolling the highlighted node into view is a DOM side effect and is left out.
- The card shows its toggle button only for nodes with subordinates. The reducer accepts any id, so the model does too.
- Lower-casing maps only ASCII `A`–`Z`; the case mapping for other Unicode letters is not modelled.
- Immer's in-place mutation of node objects is modelled as traversals that return the updated forest, which the reducer method then stores. A node is therefore never shared between two places in the forest.
- The builder, and every reducer that rebuilds the tree, requires unique record ids (`Hierarchy.UniqueIds`).
  - With duplicate ids the source's Map keeps the last node per id, so one record's node can end up in its own subtree.
  - The source then builds a cyclic object graph that the expansion traversals never leave; a nested value cannot represent that.
  - For the same reason, `EmployeeSlice.FetchFulfilled` requires a payload with unique ids.
- Cyclic `managerId` chains among records with unique ids are modelled. Such records never reach a top-level record and are absent from the forest (`TreeFacts.UnrootedAbsent`), as in the source.

## Findings

| source | as written | input that shows it | evidently intended | confidence | as-written member | corrected member |
|---|---|---|---|---|---|---|
| src/components/employee/SearchBar.tsx:43-48 | `setSearchFilters` runs before `searchAndExpandToEmployee`, so the search walks the tree of the records that pass the name filter. A matching employee whose manager does not pass has no path from a root there, so none of its ancestors is expanded; the tree is then rebuilt from the full list, where the match stays hidden. | Records Alice (id 1, no manager) and Bob (id 2, manager 1), nothing expanded, name filter "bob": nothing is expanded and Bob, who matches, is not rendered. | Walk the tree of the full list, so that every match is revealed. | medium, not executed | SearchBarFlow.HiddenMatchExample | SearchBarFlow.SearchFullTreeReveals |
