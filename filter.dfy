/**
 * `filterEmployees` (src/store/slices/employeeSlice.ts): keep the records whose name contains
 * the name filter case-insensitively and whose role and department equal the role and
 * department filters, an empty filter string meaning no constraint.
 */
module Filtering {
  import opened Wrappers
  import opened Types
  import opened Text
  import opened Hierarchy

  /** The callback of `employees.filter`: all three criteria hold. */
  predicate Matches(e: Employee, f: SearchFilters)
  {
    (f.name == "" || Contains(Lower(e.name), Lower(f.name))) &&
    (f.role == "" || e.role == f.role) &&
    (f.department == "" || e.department == f.department)
  }

  /** `filterEmployees(employees, filters)`. */
  function FilterEmployees(es: seq<Employee>, f: SearchFilters): seq<Employee>
    decreases |es|
  {
    if es == [] then []
    else FilterEmployees(es[..|es| - 1], f) + (if Matches(es[|es| - 1], f) then [es[|es| - 1]] else [])
  }

  /** Filtering a concatenation filters each part, so the kept records stay in list order. */
  lemma {:induction false} FilterConcat(a: seq<Employee>, b: seq<Employee>, f: SearchFilters)
    ensures FilterEmployees(a + b, f) == FilterEmployees(a, f) + FilterEmployees(b, f)
    decreases |b|
  {
    if b == [] {
      assert a + b == a;
    } else {
      var front := b[..|b| - 1];
      assert (a + b)[..|a + b| - 1] == a + front;
      FilterConcat(a, front, f);
    }
  }

  /** A single record is kept exactly when it matches. */
  lemma FilterSingle(e: Employee, f: SearchFilters)
    ensures FilterEmployees([e], f) == if Matches(e, f) then [e] else []
  {
    assert [e][..0] == [];
  }

  /** Each record is kept as often as it occurs in the list when it matches, and dropped when it does not. */
  lemma {:induction false} FilterCounts(es: seq<Employee>, f: SearchFilters, e: Employee)
    ensures multiset(FilterEmployees(es, f))[e] == if Matches(e, f) then multiset(es)[e] else 0
    decreases |es|
  {
    if es != [] {
      var front, last := es[..|es| - 1], es[|es| - 1];
      FilterCounts(front, f, e);
      assert es == front + [last];
      var kept := if Matches(last, f) then [last] else [];
      assert multiset(FilterEmployees(es, f)) == multiset(FilterEmployees(front, f)) + multiset(kept);
      assert multiset(es) == multiset(front) + multiset([last]);
    }
  }

  /** A record is in the result exactly when it is in the list and matches. */
  lemma FilterMembers(es: seq<Employee>, f: SearchFilters, e: Employee)
    ensures e in FilterEmployees(es, f) <==> e in es && Matches(e, f)
  {
    FilterCounts(es, f, e);
  }

  /** With all three filters empty the list comes back unchanged. */
  lemma {:induction false} FilterNoConstraint(es: seq<Employee>)
    ensures FilterEmployees(es, SearchFilters("", "", "")) == es
    decreases |es|
  {
    if es != [] {
      FilterNoConstraint(es[..|es| - 1]);
    }
  }

  /** Filtering twice with the same filters is filtering once. */
  lemma {:induction false} FilterIdempotent(es: seq<Employee>, f: SearchFilters)
    ensures FilterEmployees(FilterEmployees(es, f), f) == FilterEmployees(es, f)
    decreases |es|
  {
    if es != [] {
      var front, last := es[..|es| - 1], es[|es| - 1];
      FilterIdempotent(front, f);
      var kept := if Matches(last, f) then [last] else [];
      FilterConcat(FilterEmployees(front, f), kept, f);
      if Matches(last, f) {
        FilterSingle(last, f);
      }
    }
  }

  /** Lower-casing the name filter first changes nothing: the match is case-insensitive in the filter. */
  lemma NameFilterCaseInsensitive(e: Employee, f: SearchFilters)
    ensures Matches(e, f.(name := Lower(f.name))) == Matches(e, f)
  {
    LowerIdempotent(f.name);
  }

  /** Filtering keeps ids unique. */
  lemma {:induction false} FilterUniqueIds(es: seq<Employee>, f: SearchFilters)
    requires UniqueIds(es)
    ensures UniqueIds(FilterEmployees(es, f))
    decreases |es|
  {
    if es != [] {
      var front, last := es[..|es| - 1], es[|es| - 1];
      FilterUniqueIds(front, f);
      var r := FilterEmployees(es, f);
      var rf := FilterEmployees(front, f);
      forall t | 0 <= t < |rf| ensures rf[t].id != last.id {
        FilterMembers(front, f, rf[t]);
        var k :| 0 <= k < |front| && front[k] == rf[t];
        assert es[k] == front[k];
      }
    }
  }

  /** "ali" keeps "Alice Smith" and drops "bob". */
  lemma FilterExample()
    ensures var alice := Employee(1, "Alice Smith", "Engineer", "Engineering", None);
      var bob := Employee(2, "bob", "Engineer", "Engineering", None);
      FilterEmployees([alice, bob], SearchFilters("ali", "", "")) == [alice]
  {
    var alice := Employee(1, "Alice Smith", "Engineer", "Engineering", None);
    var bob := Employee(2, "bob", "Engineer", "Engineering", None);
    var f := SearchFilters("ali", "", "");
    assert Lower("ali") == "ali";
    assert Lower("Alice Smith")[..3] == "ali";
    assert Matches(alice, f);
    assert Lower("bob") == "bob";
    assert !Contains("", "ali");
    assert "b"[1..] == "";
    assert !Contains("b", "ali");
    assert "ob"[1..] == "b";
    assert !Contains("ob", "ali");
    assert "bob"[1..] == "ob";
    assert "bob"[0] != "ali"[0];
    assert !Contains("bob", "ali");
    assert !Matches(bob, f);
    assert [alice, bob][..1] == [alice];
    FilterSingle(alice, f);
  }
}
