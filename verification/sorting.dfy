/** Python's `list.sort()` on lists of numbers, as an insertion sort over a
    comparison `le`.  For numbers, equal elements are identical, so every
    correct sort gives the same list and the one modelled here will do. */
module Sorting {

  /** `le` is a total preorder: any two elements are comparable, and the
      comparison is transitive. */
  ghost predicate TotalOrder<T(!new)>(le: (T, T) -> bool) {
    && (forall x, y :: le(x, y) || le(y, x))
    && (forall x, y, z :: le(x, y) && le(y, z) ==> le(x, z))
  }

  predicate Ascending<T>(s: seq<T>, le: (T, T) -> bool) {
    forall i, j :: 0 <= i < j < |s| ==> le(s[i], s[j])
  }

  /** No element occurs twice. */
  predicate Distinct<T(==)>(s: seq<T>) {
    forall i, j :: 0 <= i < j < |s| ==> s[i] != s[j]
  }

  /** Ascending and without repeats. */
  predicate StrictlyAscending<T(==)>(s: seq<T>, le: (T, T) -> bool) {
    Ascending(s, le) && Distinct(s)
  }

  /** Puts `x` into a list in front of the first element it does not
      exceed; in an ascending list that keeps the list ascending. */
  function Insert<T>(x: T, s: seq<T>, le: (T, T) -> bool): seq<T> {
    if s == [] then [x]
    else if le(x, s[0]) then [x] + s
    else [s[0]] + Insert(x, s[1..], le)
  }

  /** Insertion adds exactly one occurrence of `x`. */
  lemma {:induction false} InsertPermutes<T>(x: T, s: seq<T>, le: (T, T) -> bool)
    ensures multiset(Insert(x, s, le)) == multiset(s) + multiset{x}
  {
    if s != [] && !le(x, s[0]) {
      InsertPermutes(x, s[1..], le);
      assert s == [s[0]] + s[1..];
    }
  }

  lemma {:induction false} InsertAscending<T(!new)>(x: T, s: seq<T>, le: (T, T) -> bool)
    requires TotalOrder(le) && Ascending(s, le)
    ensures Ascending(Insert(x, s, le), le)
  {
    if s == [] {
    } else if le(x, s[0]) {
      AscendingCons(x, s, le);
    } else {
      var rest := Insert(x, s[1..], le);
      InsertAscending(x, s[1..], le);
      InsertPermutes(x, s[1..], le);
      forall k | 0 <= k < |rest|
        ensures le(s[0], rest[k])
      {
        assert rest[k] in multiset(rest);
        if rest[k] != x {
          assert rest[k] in multiset(s[1..]);
        }
      }
      AscendingCons(s[0], rest, le);
    }
  }

  /** An element no greater than every element of an ascending list can be
      put in front of it. */
  lemma AscendingCons<T(!new)>(x: T, s: seq<T>, le: (T, T) -> bool)
    requires TotalOrder(le) && Ascending(s, le)
    requires s != [] ==> le(x, s[0]) || forall k :: 0 <= k < |s| ==> le(x, s[k])
    ensures Ascending([x] + s, le)
  {
    var r := [x] + s;
    forall i, j | 0 <= i < j < |r|
      ensures le(r[i], r[j])
    {
      if i == 0 {
        assert r[j] == s[j - 1];
        assert le(x, s[0]) ==> j == 1 || le(s[0], s[j - 1]);
      } else {
        assert r[i] == s[i - 1] && r[j] == s[j - 1];
      }
    }
  }

  /** `list.sort()`: insertion of each element in turn. */
  function Sort<T>(s: seq<T>, le: (T, T) -> bool): seq<T>
    decreases |s|
  {
    if s == [] then []
    else Insert(s[|s| - 1], Sort(s[..|s| - 1], le), le)
  }

  /** Sorting rearranges the list: every element keeps its number of
      occurrences. */
  lemma {:induction false} SortPermutes<T>(s: seq<T>, le: (T, T) -> bool)
    ensures multiset(Sort(s, le)) == multiset(s)
    decreases |s|
  {
    if s != [] {
      SortPermutes(s[..|s| - 1], le);
      InsertPermutes(s[|s| - 1], Sort(s[..|s| - 1], le), le);
      assert s == s[..|s| - 1] + [s[|s| - 1]];
    }
  }

  lemma {:induction false} SortAscending<T(!new)>(s: seq<T>, le: (T, T) -> bool)
    requires TotalOrder(le)
    ensures Ascending(Sort(s, le), le)
    decreases |s|
  {
    if s != [] {
      SortAscending(s[..|s| - 1], le);
      InsertAscending(s[|s| - 1], Sort(s[..|s| - 1], le), le);
    }
  }

  /** A list and any rearrangement of it have the same elements and the
      same length; a repeat in one is a repeat in the other. */
  lemma DistinctPermutation<T>(s: seq<T>, r: seq<T>)
    requires multiset(r) == multiset(s) && Distinct(s)
    ensures Distinct(r)
    ensures forall x :: x in r <==> x in s
  {
    forall x
      ensures x in r <==> x in s
    {
      assert x in r <==> x in multiset(r);
      assert x in s <==> x in multiset(s);
    }
    forall i, j | 0 <= i < j < |r|
      ensures r[i] != r[j]
    {
      if r[i] == r[j] {
        CountAtLeastTwo(r, i, j);
        DistinctCountsOne(s, r[i]);
      }
    }
  }

  lemma {:induction false} CountAtLeastTwo<T>(s: seq<T>, i: nat, j: nat)
    requires i < j < |s| && s[i] == s[j]
    ensures multiset(s)[s[i]] >= 2
  {
    assert s == s[..j] + [s[j]] + s[j + 1..];
    assert s[i] in s[..j];
    assert multiset(s) == multiset(s[..j]) + multiset{s[j]} + multiset(s[j + 1..]);
  }

  lemma {:induction false} DistinctCountsOne<T>(s: seq<T>, x: T)
    requires Distinct(s)
    ensures multiset(s)[x] <= 1
    decreases |s|
  {
    if s != [] {
      var p := s[..|s| - 1];
      assert s == p + [s[|s| - 1]];
      assert Distinct(p);
      DistinctCountsOne(p, x);
      if x == s[|s| - 1] {
        assert x !in p;
      }
    }
  }

  /** Sorting a list without repeats gives a strictly ascending list of the
      same elements. */
  lemma SortDistinct<T(!new)>(s: seq<T>, le: (T, T) -> bool)
    requires TotalOrder(le) && Distinct(s)
    ensures StrictlyAscending(Sort(s, le), le)
    ensures |Sort(s, le)| == |s|
    ensures forall x :: x in Sort(s, le) <==> x in s
  {
    SortAscending(s, le);
    SortPermutes(s, le);
    DistinctPermutation(s, Sort(s, le));
    assert |multiset(Sort(s, le))| == |multiset(s)|;
  }

  /** `<=` on integers and on reals. */
  predicate IntLe(x: int, y: int) {
    x <= y
  }

  predicate RealLe(x: real, y: real) {
    x <= y
  }

  lemma NumberOrders()
    ensures TotalOrder(IntLe) && TotalOrder(RealLe)
  {
  }

  /** For numbers, strictly ascending means each element is below the next. */
  lemma StrictlyAscendingInts(s: seq<int>)
    requires StrictlyAscending(s, IntLe)
    ensures forall i, j :: 0 <= i < j < |s| ==> s[i] < s[j]
  {
  }

  lemma StrictlyAscendingReals(s: seq<real>)
    requires StrictlyAscending(s, RealLe)
    ensures forall i, j :: 0 <= i < j < |s| ==> s[i] < s[j]
  {
  }
}
