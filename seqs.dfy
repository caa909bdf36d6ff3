/** Sequence operations the stores and pages rely on: `Array.prototype.filter`
    and the stable `Array.prototype.sort` with a comparator. */
module Seqs {

  /** `s.filter(p)`: the elements of `s` that satisfy `p`, in their original order. */
  function Filter<T(!new)>(s: seq<T>, p: T -> bool): (r: seq<T>)
    ensures |r| <= |s|
    ensures forall i :: 0 <= i < |r| ==> p(r[i])
    ensures forall x :: x in r <==> x in s && p(x)
  {
    if s == [] then [] else (if p(s[0]) then [s[0]] else []) + Filter(s[1..], p)
  }

  /** `r` is `s` with some elements left out and the rest in their original order. */
  ghost predicate IsSubsequence<T(!new)>(r: seq<T>, s: seq<T>)
    decreases |s|
  {
    if r == [] then true
    else if s == [] then false
    else (r[0] == s[0] && IsSubsequence(r[1..], s[1..])) || IsSubsequence(r, s[1..])
  }

  lemma {:induction false} FilterIsSubsequence<T(!new)>(s: seq<T>, p: T -> bool)
    ensures IsSubsequence(Filter(s, p), s)
  {
    if s != [] {
      FilterIsSubsequence(s[1..], p);
      var r := Filter(s, p);
      if p(s[0]) {
        assert r[0] == s[0] && r[1..] == Filter(s[1..], p);
      } else {
        assert r == Filter(s[1..], p);
      }
    }
  }

  /** Filtering keeps each element that passes as many times as it occurs, and drops the others. */
  lemma {:induction false} FilterCount<T(!new)>(s: seq<T>, p: T -> bool, x: T)
    ensures multiset(Filter(s, p))[x] == if p(x) then multiset(s)[x] else 0
  {
    if s != [] {
      FilterCount(s[1..], p, x);
      assert s == [s[0]] + s[1..];
    }
  }

  lemma {:induction false} FilterAppend<T(!new)>(a: seq<T>, b: seq<T>, p: T -> bool)
    ensures Filter(a + b, p) == Filter(a, p) + Filter(b, p)
  {
    if a != [] {
      FilterAppend(a[1..], b, p);
      assert (a + b)[0] == a[0] && (a + b)[1..] == a[1..] + b;
    } else {
      assert a + b == b;
    }
  }

  /** A filter that every element passes returns its input. */
  lemma {:induction false} FilterKeepsAll<T(!new)>(s: seq<T>, p: T -> bool)
    requires forall i :: 0 <= i < |s| ==> p(s[i])
    ensures Filter(s, p) == s
  {
    if s != [] {
      FilterKeepsAll(s[1..], p);
      assert s == [s[0]] + s[1..];
    }
  }

  /** A filter that no element passes returns the empty sequence. */
  lemma {:induction false} FilterDropsAll<T(!new)>(s: seq<T>, p: T -> bool)
    requires forall i :: 0 <= i < |s| ==> !p(s[i])
    ensures Filter(s, p) == []
  {
    if s != [] {
      FilterDropsAll(s[1..], p);
    }
  }

  /** Filters by two predicates that agree everywhere give the same result. */
  lemma {:induction false} FilterExtensional<T(!new)>(s: seq<T>, p: T -> bool, q: T -> bool)
    requires forall x :: p(x) == q(x)
    ensures Filter(s, p) == Filter(s, q)
  {
    if s != [] {
      FilterExtensional(s[1..], p, q);
    }
  }

  /** Filtering by `p` and then by `q` is filtering once by their conjunction. */
  lemma {:induction false} FilterFuse<T(!new)>(s: seq<T>, p: T -> bool, q: T -> bool, pq: T -> bool)
    requires forall x :: pq(x) == (p(x) && q(x))
    ensures Filter(Filter(s, p), q) == Filter(s, pq)
  {
    if s != [] {
      FilterFuse(s[1..], p, q, pq);
      var head := if p(s[0]) then [s[0]] else [];
      FilterAppend(head, Filter(s[1..], p), q);
      if p(s[0]) {
        assert Filter(head, q) == (if q(s[0]) then [s[0]] else []) by {
          assert head[1..] == [];
        }
      }
    }
  }

  /** Filtering twice by the same predicate is filtering once. */
  lemma FilterIdempotent<T(!new)>(s: seq<T>, p: T -> bool)
    ensures Filter(Filter(s, p), p) == Filter(s, p)
  {
    FilterKeepsAll(Filter(s, p), p);
  }

  function IsNot<T(==)>(x: T): T -> bool {
    (y: T) => y != x
  }

  /** `s.filter(y => y !== x)`: every occurrence of `x` dropped, everything else kept as often as before
      and in order. */
  function Without<T(==,!new)>(s: seq<T>, x: T): (r: seq<T>)
    ensures x !in r && IsSubsequence(r, s)
    ensures forall y :: y != x ==> multiset(r)[y] == multiset(s)[y]
    ensures x !in s ==> r == s
  {
    FilterIsSubsequence(s, IsNot(x));
    assert forall y :: y != x ==> multiset(Filter(s, IsNot(x)))[y] == multiset(s)[y] by {
      forall y | y != x {
        FilterCount(s, IsNot(x), y);
      }
    }
    assert x !in s ==> Filter(s, IsNot(x)) == s by {
      if x !in s {
        FilterKeepsAll(s, IsNot(x));
      }
    }
    Filter(s, IsNot(x))
  }

  /** Dropping a value that was just appended to a sequence without it gives the sequence back. */
  lemma WithoutAppended<T(!new)>(s: seq<T>, x: T)
    requires x !in s
    ensures Without(s + [x], x) == s
  {
    FilterAppend(s, [x], IsNot(x));
    FilterKeepsAll(s, IsNot(x));
    assert Filter([x], IsNot(x)) == [] by {
      assert [x][1..] == [];
    }
  }

  /** `le` orders every pair of values, transitively. */
  ghost predicate TotalPreorder<T(!new)>(le: (T, T) -> bool) {
    && (forall x, y :: le(x, y) || le(y, x))
    && (forall x, y, z :: le(x, y) && le(y, z) ==> le(x, z))
  }

  ghost predicate SortedBy<T(!new)>(s: seq<T>, le: (T, T) -> bool) {
    forall i, j :: 0 <= i < j < |s| ==> le(s[i], s[j])
  }

  /** The values `le` cannot tell apart from `x`. */
  function TiedWith<T(!new)>(x: T, le: (T, T) -> bool): T -> bool {
    y => le(x, y) && le(y, x)
  }

  /** Inserts `x` in front of the first element it may precede. */
  function Insert<T(!new)>(x: T, s: seq<T>, le: (T, T) -> bool): (r: seq<T>)
    ensures multiset(r) == multiset(s) + multiset{x}
    ensures forall y :: y in r <==> y == x || y in s
  {
    if s == [] then [x]
    else if le(x, s[0]) then [x] + s
    else
      assert s == [s[0]] + s[1..];
      [s[0]] + Insert(x, s[1..], le)
  }

  /** `Array.prototype.sort` with a consistent comparator, which ECMAScript requires to be stable:
      each element is inserted into the sorted rest of the sequence that follows it. */
  function InsertionSort<T(!new)>(s: seq<T>, le: (T, T) -> bool): (r: seq<T>)
    ensures multiset(r) == multiset(s)
  {
    if s == [] then []
    else
      assert s == [s[0]] + s[1..];
      Insert(s[0], InsertionSort(s[1..], le), le)
  }

  lemma {:induction false} InsertSorted<T(!new)>(x: T, s: seq<T>, le: (T, T) -> bool)
    requires TotalPreorder(le) && SortedBy(s, le)
    ensures SortedBy(Insert(x, s, le), le)
  {
    if s != [] && !le(x, s[0]) {
      var t := Insert(x, s[1..], le);
      assert SortedBy(s[1..], le);
      InsertSorted(x, s[1..], le);
      assert le(s[0], x);
      forall y | y in t ensures le(s[0], y) {
        if y != x {
          var k :| 0 <= k < |s[1..]| && s[1..][k] == y;
          assert s[k + 1] == y;
        }
      }
      var r := [s[0]] + t;
      forall i, j | 0 <= i < j < |r| ensures le(r[i], r[j]) {
        if i == 0 {
          assert r[j] in t;
        } else {
          assert r[i] == t[i - 1] && r[j] == t[j - 1];
        }
      }
    }
  }

  /** The result of the sort is ordered by `le`. */
  lemma {:induction false} InsertionSortSorted<T(!new)>(s: seq<T>, le: (T, T) -> bool)
    requires TotalPreorder(le)
    ensures SortedBy(InsertionSort(s, le), le)
  {
    if s != [] {
      InsertionSortSorted(s[1..], le);
      InsertSorted(s[0], InsertionSort(s[1..], le), le);
    }
  }

  /** Filtering a sequence with one element in front decides that element first. */
  lemma FilterCons<T(!new)>(a: T, t: seq<T>, p: T -> bool)
    ensures Filter([a] + t, p) == (if p(a) then [a] else []) + Filter(t, p)
  {
    assert ([a] + t)[0] == a && ([a] + t)[1..] == t;
  }

  /** Inserting `y` passes over only elements strictly below it, so it lands in front of every element tied with it. */
  lemma {:induction false} InsertTies<T(!new)>(y: T, s: seq<T>, le: (T, T) -> bool, x: T)
    requires TotalPreorder(le)
    ensures Filter(Insert(y, s, le), TiedWith(x, le))
            == (if TiedWith(x, le)(y) then [y] else []) + Filter(s, TiedWith(x, le))
  {
    var tied := TiedWith(x, le);
    if s == [] {
      FilterCons(y, s, tied);
      assert [y] + s == [y];
    } else if le(y, s[0]) {
      FilterCons(y, s, tied);
    } else {
      InsertTies(y, s[1..], le, x);
      FilterCons(s[0], Insert(y, s[1..], le), tied);
      assert s == [s[0]] + s[1..];
      FilterCons(s[0], s[1..], tied);
      if tied(y) {
        assert !tied(s[0]);
      }
    }
  }

  /** Stability: the elements tied with any `x` keep their relative order. */
  lemma {:induction false} InsertionSortStable<T(!new)>(s: seq<T>, le: (T, T) -> bool, x: T)
    requires TotalPreorder(le)
    ensures Filter(InsertionSort(s, le), TiedWith(x, le)) == Filter(s, TiedWith(x, le))
  {
    if s != [] {
      InsertionSortStable(s[1..], le, x);
      InsertTies(s[0], InsertionSort(s[1..], le), le, x);
    }
  }
}
