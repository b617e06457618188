/**
 * `findMatchingEmployees` and the path expansion of `searchAndExpandToEmployee`
 * (src/store/slices/employeeSlice.ts): a depth-first walk that records the root-to-node id
 * path of every node whose lower-cased name contains the (already lower-cased) query, and the
 * ids those paths reveal, that is every path id but the last.
 */
module Search {
  import opened Types
  import opened Text
  import opened Forest

  /** The node's lower-cased name contains the lower-cased query. */
  predicate NameMatches(n: EmployeeNode, q: string)
  {
    Contains(Lower(n.name), q)
  }

  /** `findMatchingEmployees(nodes, path)`: the matching paths, in the order the walk finds them. */
  function FindMatches(nodes: seq<EmployeeNode>, path: seq<int>, q: string): seq<seq<int>>
    decreases nodes
  {
    if nodes == [] then []
    else
      var front, last := nodes[..|nodes| - 1], nodes[|nodes| - 1];
      var current := path + [last.id];
      FindMatches(front, path, q) +
      (if NameMatches(last, q) then [current] else []) +
      (if |last.subordinates| > 0 then FindMatches(last.subordinates, current, q) else [])
  }

  /** The ids `path.slice(0, -1)` yields for each path, concatenated in order. */
  function RevealIds(paths: seq<seq<int>>): seq<int>
    decreases |paths|
  {
    if paths == [] then []
    else
      var last := paths[|paths| - 1];
      RevealIds(paths[..|paths| - 1]) + (if |last| > 0 then last[..|last| - 1] else [])
  }

  /** The ids of the nodes whose name matches. */
  function MatchingIds(nodes: seq<EmployeeNode>, q: string): set<int>
    decreases nodes
  {
    if nodes == [] then {}
    else
      var front, last := nodes[..|nodes| - 1], nodes[|nodes| - 1];
      MatchingIds(front, q) + (if NameMatches(last, q) then {last.id} else {}) + MatchingIds(last.subordinates, q)
  }

  /** The ids of the nodes with a matching node strictly below them: the strict ancestors of the matches. */
  function AncestorsOfMatches(nodes: seq<EmployeeNode>, q: string): set<int>
    decreases nodes
  {
    if nodes == [] then {}
    else
      var front, last := nodes[..|nodes| - 1], nodes[|nodes| - 1];
      AncestorsOfMatches(front, q) + (if MatchingIds(last.subordinates, q) != {} then {last.id} else {}) +
      AncestorsOfMatches(last.subordinates, q)
  }

  /** The elements of a sequence, as a set. */
  function Elems(s: seq<int>): set<int>
  {
    set x | x in s
  }

  /** The last id of each non-empty path: the node each path leads to. */
  function Ends(paths: seq<seq<int>>): set<int>
    decreases |paths|
  {
    if paths == [] then {}
    else
      var last := paths[|paths| - 1];
      Ends(paths[..|paths| - 1]) + (if |last| > 0 then {last[|last| - 1]} else {})
  }

  /** `Elems` of a concatenation. */
  lemma ElemsConcat(a: seq<int>, b: seq<int>)
    ensures Elems(a + b) == Elems(a) + Elems(b)
  {
  }

  /** `RevealIds` of a concatenation is the concatenation of the parts' `RevealIds`. */
  lemma {:induction false} RevealIdsConcat(a: seq<seq<int>>, b: seq<seq<int>>)
    ensures RevealIds(a + b) == RevealIds(a) + RevealIds(b)
    decreases |b|
  {
    if b == [] {
      assert a + b == a;
    } else {
      assert (a + b)[..|a + b| - 1] == a + b[..|b| - 1];
      RevealIdsConcat(a, b[..|b| - 1]);
    }
  }

  /** `Ends` of a concatenation is the union of the parts' `Ends`. */
  lemma {:induction false} EndsConcat(a: seq<seq<int>>, b: seq<seq<int>>)
    ensures Ends(a + b) == Ends(a) + Ends(b)
    decreases |b|
  {
    if b == [] {
      assert a + b == a;
    } else {
      assert (a + b)[..|a + b| - 1] == a + b[..|b| - 1];
      EndsConcat(a, b[..|b| - 1]);
    }
  }

  /** One step of the walk: the paths before the last node, the last node's own path, and those below it. */
  lemma FindMatchesSnoc(nodes: seq<EmployeeNode>, path: seq<int>, q: string)
    requires nodes != []
    ensures var last := nodes[|nodes| - 1];
      var current := path + [last.id];
      FindMatches(nodes, path, q) ==
        FindMatches(nodes[..|nodes| - 1], path, q) + (if NameMatches(last, q) then [current] else []) +
        FindMatches(last.subordinates, current, q)
  {
  }

  /** Every path the walk records extends `path` by at least one id. */
  lemma {:induction false} FindMatchesExtend(nodes: seq<EmployeeNode>, path: seq<int>, q: string)
    ensures forall p :: p in FindMatches(nodes, path, q) ==> |p| > |path| && p[..|path|] == path
    decreases nodes
  {
    if nodes != [] {
      var front, last := nodes[..|nodes| - 1], nodes[|nodes| - 1];
      var current := path + [last.id];
      FindMatchesExtend(front, path, q);
      FindMatchesExtend(last.subordinates, current, q);
      FindMatchesSnoc(nodes, path, q);
      forall p | p in FindMatches(last.subordinates, current, q) ensures |p| > |path| && p[..|path|] == path {
        assert p[..|current|][..|path|] == p[..|path|];
      }
    }
  }

  /** The paths the walk records end exactly at the matching nodes. */
  lemma {:induction false} FindMatchesEnds(nodes: seq<EmployeeNode>, path: seq<int>, q: string)
    ensures Ends(FindMatches(nodes, path, q)) == MatchingIds(nodes, q)
    decreases nodes
  {
    if nodes != [] {
      var front, last := nodes[..|nodes| - 1], nodes[|nodes| - 1];
      var current := path + [last.id];
      FindMatchesEnds(front, path, q);
      FindMatchesEnds(last.subordinates, current, q);
      FindMatchesSnoc(nodes, path, q);
      var a := FindMatches(front, path, q);
      var b: seq<seq<int>> := if NameMatches(last, q) then [current] else [];
      var c := FindMatches(last.subordinates, current, q);
      EndsConcat(a + b, c);
      EndsConcat(a, b);
      assert [current][..0] == [];
    }
  }

  /**
   * The ids the matching paths reveal are the ids of `path` when anything matches, plus the
   * strict ancestors, within the forest, of every matching node.
   */
  lemma {:induction false} RevealSpec(nodes: seq<EmployeeNode>, path: seq<int>, q: string)
    ensures Elems(RevealIds(FindMatches(nodes, path, q))) ==
      (if MatchingIds(nodes, q) != {} then Elems(path) else {}) + AncestorsOfMatches(nodes, q)
    decreases nodes
  {
    if nodes != [] {
      var front, last := nodes[..|nodes| - 1], nodes[|nodes| - 1];
      var current := path + [last.id];
      var here := NameMatches(last, q);
      var below := MatchingIds(last.subordinates, q) != {};
      RevealSpec(front, path, q);
      RevealSpec(last.subordinates, current, q);
      var ra, rb, rc := RevealStep(nodes, path, q);
      ElemsConcat(path, [last.id]);
      CombineReveal(Elems(path), last.id, MatchingIds(front, q) != {}, here, below,
        AncestorsOfMatches(front, q), AncestorsOfMatches(last.subordinates, q), ra, rb, rc);
      SearchSetsSnoc(nodes, q);
    }
  }

  /** The revealed ids of one step of the walk, split into the three parts `FindMatches` concatenates. */
  lemma RevealStep(nodes: seq<EmployeeNode>, path: seq<int>, q: string) returns (ra: set<int>, rb: set<int>, rc: set<int>)
    requires nodes != []
    ensures var last := nodes[|nodes| - 1];
      ra == Elems(RevealIds(FindMatches(nodes[..|nodes| - 1], path, q))) &&
      rb == (if NameMatches(last, q) then Elems(path) else {}) &&
      rc == Elems(RevealIds(FindMatches(last.subordinates, path + [last.id], q))) &&
      Elems(RevealIds(FindMatches(nodes, path, q))) == ra + rb + rc
  {
    var front, last := nodes[..|nodes| - 1], nodes[|nodes| - 1];
    var current := path + [last.id];
    FindMatchesSnoc(nodes, path, q);
    var a := FindMatches(front, path, q);
    var b: seq<seq<int>> := if NameMatches(last, q) then [current] else [];
    var c := FindMatches(last.subordinates, current, q);
    RevealIdsConcat(a + b, c);
    RevealIdsConcat(a, b);
    assert [current][..0] == [];
    assert RevealIds(b) == if NameMatches(last, q) then path else [];
    ElemsConcat(RevealIds(a) + RevealIds(b), RevealIds(c));
    ElemsConcat(RevealIds(a), RevealIds(b));
    ra, rb, rc := Elems(RevealIds(a)), Elems(RevealIds(b)), Elems(RevealIds(c));
  }

  /** `MatchingIds` and `AncestorsOfMatches` of a forest, from its front and its last tree. */
  lemma SearchSetsSnoc(nodes: seq<EmployeeNode>, q: string)
    requires nodes != []
    ensures var front, last := nodes[..|nodes| - 1], nodes[|nodes| - 1];
      (MatchingIds(nodes, q) != {} <==>
        MatchingIds(front, q) != {} || NameMatches(last, q) || MatchingIds(last.subordinates, q) != {}) &&
      AncestorsOfMatches(nodes, q) == AncestorsOfMatches(front, q) +
        (if MatchingIds(last.subordinates, q) != {} then {last.id} else {}) + AncestorsOfMatches(last.subordinates, q)
  {
  }

  /** The set algebra of one step of `RevealSpec`. */
  lemma CombineReveal(path: set<int>, id: int, front: bool, here: bool, below: bool,
                      ancFront: set<int>, ancBelow: set<int>, ra: set<int>, rb: set<int>, rc: set<int>)
    requires ra == (if front then path else {}) + ancFront
    requires rb == (if here then path else {})
    requires rc == (if below then path + {id} else {}) + ancBelow
    ensures ra + rb + rc == (if front || here || below then path else {}) + (ancFront + (if below then {id} else {}) + ancBelow)
  {
  }

  /** The revealed ids of a whole tree walk are exactly the strict ancestors of the matches. */
  lemma RevealedAreAncestors(nodes: seq<EmployeeNode>, q: string)
    ensures Elems(RevealIds(FindMatches(nodes, [], q))) == AncestorsOfMatches(nodes, q)
  {
    RevealSpec(nodes, [], q);
  }

  /** Which nodes match and which are ancestors of matches does not depend on the flags. */
  lemma {:induction false} MatchesIgnoreFlags(nodes: seq<EmployeeNode>, q: string)
    ensures MatchingIds(SetAll(nodes, false), q) == MatchingIds(nodes, q)
    ensures AncestorsOfMatches(SetAll(nodes, false), q) == AncestorsOfMatches(nodes, q)
    ensures FindMatches(SetAll(nodes, false), [], q) == FindMatches(nodes, [], q)
    decreases nodes
  {
    if nodes != [] {
      var n := |nodes|;
      var front, last := nodes[..n - 1], nodes[n - 1];
      MatchesIgnoreFlagsAt(front, [], q);
      MatchesIgnoreFlags(front, q);
      MatchesIgnoreFlags(last.subordinates, q);
      assert SetAll(nodes, false)[..n - 1] == SetAll(front, false);
      MatchesIgnoreFlagsAt(nodes, [], q);
    }
  }

  /** The walk from any path does not depend on the flags. */
  lemma {:induction false} MatchesIgnoreFlagsAt(nodes: seq<EmployeeNode>, path: seq<int>, q: string)
    ensures FindMatches(SetAll(nodes, false), path, q) == FindMatches(nodes, path, q)
    decreases nodes
  {
    if nodes != [] {
      var n := |nodes|;
      var front, last := nodes[..n - 1], nodes[n - 1];
      MatchesIgnoreFlagsAt(front, path, q);
      MatchesIgnoreFlagsAt(last.subordinates, path + [last.id], q);
      assert SetAll(nodes, false)[..n - 1] == SetAll(front, false);
    }
  }

  /** Forests of the same shape have the same matches, ancestors of matches and matching paths. */
  lemma SameShapeMatches(a: seq<EmployeeNode>, b: seq<EmployeeNode>, q: string)
    requires SameShape(a, b)
    ensures MatchingIds(a, q) == MatchingIds(b, q) && AncestorsOfMatches(a, q) == AncestorsOfMatches(b, q)
    ensures FindMatches(a, [], q) == FindMatches(b, [], q)
  {
    MatchesIgnoreFlags(a, q);
    MatchesIgnoreFlags(b, q);
  }
}
