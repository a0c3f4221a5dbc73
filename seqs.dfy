/** Optional values. */
module Options {
  datatype Option<T> = None | Some(value: T)
}

/** Sequence helpers: filtering (JavaScript Array.filter, Python list
    comprehensions with a condition), de-duplication in first-seen order
    (JavaScript Map/Set insertion order) and sorting a set of integers
    (JavaScript sort with a numeric comparator, Python sorted). */
module Seqs {

  /** No element occurs twice. */
  predicate NoDup<T(==)>(s: seq<T>) {
    forall i, j | 0 <= i < j < |s| :: s[i] != s[j]
  }

  predicate StrictlyIncreasing(s: seq<int>) {
    forall i, j | 0 <= i < j < |s| :: s[i] < s[j]
  }

  /** The elements of s[..i] satisfying f, in their order in s: what a
      filtering loop has collected after its first i steps. */
  function FilterTo<T>(s: seq<T>, f: T -> bool, i: nat): seq<T>
    requires i <= |s|
  {
    if i == 0 then [] else FilterTo(s, f, i - 1) + if f(s[i - 1]) then [s[i - 1]] else []
  }

  lemma {:induction false} FilterToFacts<T>(s: seq<T>, f: T -> bool, i: nat)
    requires i <= |s|
    ensures |FilterTo(s, f, i)| <= i
    ensures forall x | x in FilterTo(s, f, i) :: f(x) && exists k :: 0 <= k < i && s[k] == x
    ensures forall k | 0 <= k < i && f(s[k]) :: s[k] in FilterTo(s, f, i)
  {
    if i > 0 {
      FilterToFacts(s, f, i - 1);
    }
  }

  /** The elements of s satisfying f, in their order in s. */
  function Filter<T>(s: seq<T>, f: T -> bool): (r: seq<T>)
    ensures |r| <= |s|
    ensures forall x | x in r :: x in s && f(x)
    ensures forall x | x in s && f(x) :: x in r
  {
    FilterToFacts(s, f, |s|);
    FilterTo(s, f, |s|)
  }

  /** FilterTo looks only at the first i elements. */
  lemma {:induction false} FilterToPrefix<T>(s: seq<T>, t: seq<T>, f: T -> bool, i: nat)
    requires i <= |s| && i <= |t| && s[..i] == t[..i]
    ensures FilterTo(s, f, i) == FilterTo(t, f, i)
  {
    if i > 0 {
      assert s[i - 1] == s[..i][i - 1] == t[..i][i - 1] == t[i - 1];
      assert s[..i - 1] == s[..i][..i - 1] == t[..i][..i - 1] == t[..i - 1];
      FilterToPrefix(s, t, f, i - 1);
    }
  }

  /** Filtering one more element at the end. */
  lemma FilterAppend<T>(s: seq<T>, x: T, f: T -> bool)
    ensures Filter(s + [x], f) == Filter(s, f) + if f(x) then [x] else []
  {
    assert (s + [x])[..|s|] == s[..|s|];
    FilterToPrefix(s + [x], s, f, |s|);
  }

  /** Nothing passes the filter when no element satisfies it. */
  lemma FilterNone<T>(s: seq<T>, f: T -> bool)
    requires forall x | x in s :: !f(x)
    ensures Filter(s, f) == []
  {
    FilterToNone(s, f, |s|);
  }

  lemma {:induction false} FilterToNone<T>(s: seq<T>, f: T -> bool, i: nat)
    requires i <= |s| && forall x | x in s :: !f(x)
    ensures FilterTo(s, f, i) == []
  {
    if i > 0 {
      assert s[i - 1] in s;
      FilterToNone(s, f, i - 1);
    }
  }

  lemma {:induction false} FilterToNoDup<T>(s: seq<T>, f: T -> bool, i: nat)
    requires i <= |s| && NoDup(s)
    ensures NoDup(FilterTo(s, f, i))
  {
    if i > 0 {
      FilterToNoDup(s, f, i - 1);
      FilterToFacts(s, f, i - 1);
      var r := FilterTo(s, f, i - 1);
      forall x | x in r ensures x != s[i - 1] {
        var k :| 0 <= k < i - 1 && s[k] == x;
      }
    }
  }

  lemma FilterNoDup<T>(s: seq<T>, f: T -> bool)
    requires NoDup(s)
    ensures NoDup(Filter(s, f))
  {
    FilterToNoDup(s, f, |s|);
  }

  /** The elements of s in first-seen order, each once. */
  function Dedup<T(==)>(s: seq<T>): (r: seq<T>)
    ensures NoDup(r)
    ensures forall x | x in r :: x in s
    ensures forall x | x in s :: x in r
  {
    if s == [] then []
    else
      var r0 := Dedup(s[..|s| - 1]);
      if s[|s| - 1] in r0 then r0 else r0 + [s[|s| - 1]]
  }

  lemma DedupStep<T>(s: seq<T>, i: nat)
    requires i < |s|
    ensures Dedup(s[..i + 1]) == if s[i] in Dedup(s[..i]) then Dedup(s[..i]) else Dedup(s[..i]) + [s[i]]
  {
    assert s[..i + 1][..i] == s[..i];
  }

  lemma NoElementsEmpty(s: set<int>)
    requires forall x :: x !in s
    ensures s == {}
  {
    assert forall x :: (x in s) == (x in {});
  }

  lemma HasElement(s: set<int>)
    requires s != {}
    ensures exists x :: x in s
  {
    if forall x :: x !in s {
      NoElementsEmpty(s);
      assert false;
    }
  }

  /** A least element of a non-empty set of integers exists. */
  lemma {:induction false} LeastExists(s: set<int>)
    requires s != {}
    ensures exists m :: m in s && forall y | y in s :: m <= y
  {
    HasElement(s);
    var x :| x in s;
    if s - {x} != {} {
      LeastExists(s - {x});
      var m :| m in s - {x} && forall y | y in s - {x} :: m <= y;
      var k := if x < m then x else m;
      forall y | y in s ensures k <= y {
        if y != x { assert y in s - {x}; }
      }
    } else {
      forall y | y in s ensures x <= y {
        assert y !in s - {x};
      }
    }
  }

  /** The least element of a non-empty set of integers. */
  function Least(s: set<int>): (m: int)
    requires s != {}
    ensures m in s && forall y | y in s :: m <= y
  {
    LeastExists(s);
    var m :| m in s && forall y | y in s :: m <= y;
    m
  }

  /** The elements of a set of integers in ascending order. */
  function SortSet(s: set<int>): (r: seq<int>)
    ensures StrictlyIncreasing(r)
    ensures forall x :: x in r <==> x in s
    ensures |r| == |s|
    decreases s
  {
    if s == {} then []
    else
      var m := Least(s);
      var rest := SortSet(s - {m});
      SortedCons(m, rest);
      [m] + rest
  }

  lemma SortedCons(m: int, rest: seq<int>)
    requires StrictlyIncreasing(rest)
    requires forall i | 0 <= i < |rest| :: m < rest[i]
    ensures StrictlyIncreasing([m] + rest)
  {
    var r := [m] + rest;
    forall i, j | 0 <= i < j < |r| ensures r[i] < r[j] {
      assert r[j] == rest[j - 1];
      if i > 0 {
        assert r[i] == rest[i - 1];
      }
    }
  }

  /** Joining two duplicate-free sequences with no common element. */
  lemma NoDupConcat<T>(a: seq<T>, b: seq<T>)
    requires NoDup(a) && NoDup(b)
    requires forall x | x in a :: x !in b
    ensures NoDup(a + b)
  {
    var c := a + b;
    forall i, j | 0 <= i < j < |c| ensures c[i] != c[j] {
      if i < |a| && j >= |a| {
        assert c[i] == a[i] && c[j] == b[j - |a|];
        assert a[i] in a;
      } else if i >= |a| {
        assert c[i] == b[i - |a|] && c[j] == b[j - |a|];
      } else {
        assert c[i] == a[i] && c[j] == a[j];
      }
    }
  }

  /** A sequence without duplicates has as many elements as its set. */
  lemma {:induction false} NoDupCard<T>(s: seq<T>)
    requires NoDup(s)
    ensures |set x | x in s| == |s|
  {
    if s != [] {
      var init := s[..|s| - 1];
      assert NoDup(init) by {
        forall i, j | 0 <= i < j < |init| ensures init[i] != init[j] {
          assert init[i] == s[i] && init[j] == s[j];
        }
      }
      NoDupCard(init);
      assert s[|s| - 1] !in init;
      assert (set x | x in s) == (set x | x in init) + {s[|s| - 1]} by {
        assert s == init + [s[|s| - 1]];
      }
    }
  }
}
