/**
 * The operations the employee slice performs on its `expandedNodes: number[]` list:
 * the guarded `push` and the `filter` that removes an id.
 */
module IdLists {

  /** No id occurs twice. */
  predicate NoDup(s: seq<int>)
  {
    forall a, b :: 0 <= a < b < |s| ==> s[a] != s[b]
  }

  /** `if (!xs.includes(v)) xs.push(v)` */
  function Including(xs: seq<int>, v: int): seq<int>
  {
    if v in xs then xs else xs + [v]
  }

  /** `xs.filter(id => id !== v)` */
  function Without(xs: seq<int>, v: int): seq<int>
    decreases |xs|
  {
    if xs == [] then []
    else Without(xs[..|xs| - 1], v) + (if xs[|xs| - 1] == v then [] else [xs[|xs| - 1]])
  }

  /** The guarded push applied to each of `vs` in turn. */
  function IncludingAll(xs: seq<int>, vs: seq<int>): seq<int>
    decreases |vs|
  {
    if vs == [] then xs else Including(IncludingAll(xs, vs[..|vs| - 1]), vs[|vs| - 1])
  }

  /** The guarded push keeps the old list as a prefix, adds exactly `v` and never duplicates. */
  lemma IncludingSpec(xs: seq<int>, v: int)
    ensures xs <= Including(xs, v)
    ensures forall y :: y in Including(xs, v) <==> y in xs || y == v
    ensures NoDup(xs) ==> NoDup(Including(xs, v))
  {
  }

  /** Removing `v` keeps every other occurrence, in order, and removes every occurrence of `v`. */
  lemma {:induction false} WithoutSpec(xs: seq<int>, v: int)
    ensures forall y :: multiset(Without(xs, v))[y] == if y == v then 0 else multiset(xs)[y]
    ensures v !in xs ==> Without(xs, v) == xs
    decreases |xs|
  {
    if xs != [] {
      var front := xs[..|xs| - 1];
      WithoutSpec(front, v);
      assert xs == front + [xs[|xs| - 1]];
      assert v !in xs ==> v !in front;
    }
  }

  /** Membership in `Without`, derived from the counts. */
  lemma WithoutMembers(xs: seq<int>, v: int)
    ensures forall y :: y in Without(xs, v) <==> y in xs && y != v
  {
    WithoutSpec(xs, v);
    forall y ensures y in Without(xs, v) <==> y in xs && y != v {
      assert y in Without(xs, v) <==> multiset(Without(xs, v))[y] > 0;
      assert y in xs <==> multiset(xs)[y] > 0;
    }
  }

  /** A list without repeated ids is one whose counts are all at most one. */
  lemma {:induction false} NoDupIffCountsAtMostOne(s: seq<int>)
    ensures NoDup(s) <==> forall y :: multiset(s)[y] <= 1
    decreases |s|
  {
    if s != [] {
      var front, last := s[..|s| - 1], s[|s| - 1];
      assert s == front + [last];
      NoDupIffCountsAtMostOne(front);
      if NoDup(s) {
        assert NoDup(front);
        assert last !in front;
      } else {
        var a, b :| 0 <= a < b < |s| && s[a] == s[b];
        if b < |s| - 1 {
          assert front[a] == front[b];
          assert !NoDup(front);
          var y :| multiset(front)[y] > 1;
          assert multiset(s)[y] == multiset(front)[y] + multiset([last])[y];
        } else {
          assert front[a] == last;
          assert multiset(s)[last] == multiset(front)[last] + 1;
        }
      }
    }
  }

  /** Removal keeps a list free of repeats. */
  lemma WithoutNoDup(xs: seq<int>, v: int)
    requires NoDup(xs)
    ensures NoDup(Without(xs, v))
  {
    WithoutSpec(xs, v);
    NoDupIffCountsAtMostOne(xs);
    NoDupIffCountsAtMostOne(Without(xs, v));
  }

  /**
   * Pushing each of `vs` when absent keeps the old list as a prefix, adds exactly the ids of `vs`,
   * and keeps a list without repeats free of repeats.
   */
  lemma {:induction false} IncludingAllSpec(xs: seq<int>, vs: seq<int>)
    ensures xs <= IncludingAll(xs, vs)
    ensures forall y :: y in IncludingAll(xs, vs) <==> y in xs || y in vs
    ensures NoDup(xs) ==> NoDup(IncludingAll(xs, vs))
    decreases |vs|
  {
    if vs != [] {
      var front := vs[..|vs| - 1];
      IncludingAllSpec(xs, front);
      IncludingSpec(IncludingAll(xs, front), vs[|vs| - 1]);
      assert vs == front + [vs[|vs| - 1]];
    }
  }

  /** Pushing `a` and then `b` is pushing `a + b`. */
  lemma {:induction false} IncludingAllConcat(xs: seq<int>, a: seq<int>, b: seq<int>)
    ensures IncludingAll(IncludingAll(xs, a), b) == IncludingAll(xs, a + b)
    decreases |b|
  {
    if b != [] {
      IncludingAllConcat(xs, a, b[..|b| - 1]);
      assert (a + b)[..|a + b| - 1] == a + b[..|b| - 1];
    } else {
      assert a + b == a;
    }
  }

  /** Pushing an id that is absent and then removing it gives back the original list. */
  lemma {:induction false} WithoutAfterPush(xs: seq<int>, v: int)
    requires v !in xs
    ensures Without(Including(xs, v), v) == xs
  {
    WithoutSpec(xs, v);
    assert (xs + [v])[..|xs|] == xs;
  }

  /** Removing an id that is present and pushing it back keeps the same ids, each once, at the end of the list. */
  lemma {:induction false} PushAfterWithout(xs: seq<int>, v: int)
    requires NoDup(xs) && v in xs
    ensures Including(Without(xs, v), v) == Without(xs, v) + [v]
    ensures multiset(Including(Without(xs, v), v)) == multiset(xs)
  {
    WithoutSpec(xs, v);
    WithoutMembers(xs, v);
    NoDupIffCountsAtMostOne(xs);
    var w := Without(xs, v);
    assert v !in w;
    assert multiset(w + [v]) == multiset(w) + multiset{v};
    forall y ensures multiset(w + [v])[y] == multiset(xs)[y] {
      if y == v {
        assert v in multiset(xs);
      }
    }
  }

  /** The parts of a duplicate-free concatenation are duplicate-free and disjoint. */
  lemma NoDupParts(a: seq<int>, b: seq<int>, c: seq<int>)
    requires NoDup(a + b + c)
    ensures NoDup(a) && NoDup(b) && NoDup(c)
    ensures forall x, y :: x in a && y in b + c ==> x != y
    ensures forall x, y :: x in b && y in c ==> x != y
    ensures forall v :: v in a ==> v !in b && v !in c
    ensures forall v :: v in b ==> v !in c
  {
    var s := a + b + c;
    forall x, y | 0 <= x < y < |a| ensures a[x] != a[y] {
      assert s[x] == a[x] && s[y] == a[y];
    }
    forall x, y | 0 <= x < y < |b| ensures b[x] != b[y] {
      assert s[|a| + x] == b[x] && s[|a| + y] == b[y];
    }
    forall x, y | 0 <= x < y < |c| ensures c[x] != c[y] {
      assert s[|a| + |b| + x] == c[x] && s[|a| + |b| + y] == c[y];
    }
    forall x, y | 0 <= x < |a| && 0 <= y < |b + c| ensures a[x] != (b + c)[y] {
      assert s[x] == a[x] && s[|a| + y] == (b + c)[y];
    }
    forall x, y | 0 <= x < |b| && 0 <= y < |c| ensures b[x] != c[y] {
      assert s[|a| + x] == b[x] && s[|a| + |b| + y] == c[y];
    }
    forall v | v in a ensures v !in b && v !in c {
      assert v in b ==> v in b + c;
      assert v in c ==> v in b + c;
    }
  }

  /** Joining duplicate-free, pairwise disjoint parts gives a duplicate-free sequence. */
  lemma JoinNoDup(a: seq<int>, b: seq<int>, c: seq<int>)
    requires NoDup(a) && NoDup(b) && NoDup(c)
    requires forall x, y :: x in a && y in b + c ==> x != y
    requires forall x, y :: x in b && y in c ==> x != y
    ensures NoDup(a + b + c)
  {
    var s := a + b + c;
    forall x, y | 0 <= x < y < |s| ensures s[x] != s[y] {
      if y < |a| {
        assert s[x] == a[x] && s[y] == a[y];
      } else if x < |a| {
        assert s[x] == a[x] && s[y] == (b + c)[y - |a|];
        assert s[x] in a && s[y] in b + c;
      } else if y < |a| + |b| {
        assert s[x] == b[x - |a|] && s[y] == b[y - |a|];
      } else if x < |a| + |b| {
        assert s[x] == b[x - |a|] && s[y] == c[y - |a| - |b|];
        assert s[x] in b && s[y] in c;
      } else {
        assert s[x] == c[x - |a| - |b|] && s[y] == c[y - |a| - |b|];
      }
    }
  }
}
