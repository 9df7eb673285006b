/** Sequence helpers for materialised query results: id ranges, row filters and `ORDER BY`. */
module Seqs {

  /** The ids 0, 1, ..., n - 1 of an autoincrement table, in ascending order. */
  function Range(n: nat): (r: seq<nat>)
    ensures |r| == n
    ensures forall i :: 0 <= i < n ==> r[i] == i
    ensures forall x: nat :: x in r <==> x < n
  {
    if n == 0 then [] else Range(n - 1) + [n - 1]
  }

  /** Ids in strictly ascending order. */
  ghost predicate Increasing(s: seq<nat>) {
    forall i, j :: 0 <= i < j < |s| ==> Id(s, i) < Id(s, j)
  }

  /** The `i`-th id of `s`, the term that instantiates `Increasing`. */
  function Id(s: seq<nat>, i: nat): nat
    requires i < |s|
  {
    s[i]
  }

  ghost predicate NoDuplicates<T>(s: seq<T>) {
    forall i, j :: 0 <= i < j < |s| ==> s[i] != s[j]
  }

  /** The rows of `s` that satisfy the `WHERE` condition `p`, in their original order. */
  function Filter<T(!new)>(s: seq<T>, p: T -> bool): (r: seq<T>)
    ensures |r| <= |s|
  {
    if s == [] then [] else (if p(s[0]) then [s[0]] else []) + Filter(s[1..], p)
  }

  /** The rows kept are exactly the rows of `s` that satisfy `p`. */
  lemma {:induction false} FilterMembers<T(!new)>(s: seq<T>, p: T -> bool)
    ensures forall x :: x in Filter(s, p) <==> x in s && p(x)
    ensures forall k :: 0 <= k < |Filter(s, p)| ==> p(Filter(s, p)[k])
  {
    if s != [] {
      FilterMembers(s[1..], p);
      var head := if p(s[0]) then [s[0]] else [];
      assert Filter(s, p) == head + Filter(s[1..], p);
      forall x ensures x in s <==> x == s[0] || x in s[1..] {
        if x in s && x != s[0] {
          var k :| 0 <= k < |s| && s[k] == x;
          assert s[1..][k - 1] == x;
        }
      }
    }
  }

  lemma HeadNotInTail<T>(s: seq<T>)
    requires s != [] && NoDuplicates(s)
    ensures s[0] !in s[1..]
  {
    forall k | 0 <= k < |s| - 1 ensures s[1..][k] != s[0] {
      assert s[1..][k] == s[k + 1];
    }
  }

  lemma {:induction false} FilterIncreasing(s: seq<nat>, p: nat -> bool)
    requires Increasing(s)
    ensures Increasing(Filter(s, p))
  {
    if s != [] {
      IncreasingTail(s);
      FilterIncreasing(s[1..], p);
      FilterMembers(s[1..], p);
      var rest := Filter(s[1..], p);
      assert forall x :: x in rest ==> s[0] < x by {
        forall x | x in rest ensures s[0] < x {
          var k :| 0 <= k < |s[1..]| && s[1..][k] == x;
          assert Id(s, 0) < Id(s, k + 1);
        }
      }
      var head := if p(s[0]) then [s[0]] else [];
      assert Filter(s, p) == head + rest;
      forall i, j | 0 <= i < j < |head + rest| ensures Id(head + rest, i) < Id(head + rest, j) {
        if i < |head| {
          assert (head + rest)[j] in rest;
        } else {
          assert Id(rest, i - |head|) < Id(rest, j - |head|);
          assert (head + rest)[i] == rest[i - |head|] && (head + rest)[j] == rest[j - |head|];
        }
      }
    }
  }

  /** Two increasing sequences with the same elements are equal: a query result in id order
      is determined by its set of rows. */
  lemma {:induction false} IncreasingUnique(a: seq<nat>, b: seq<nat>)
    requires Increasing(a) && Increasing(b)
    requires forall x :: x in a <==> x in b
    ensures a == b
  {
    assert a != [] ==> a[0] in b;
    assert b != [] ==> b[0] in a;
    if a != [] && b != [] {
      var i :| 0 <= i < |b| && b[i] == a[0];
      var j :| 0 <= j < |a| && a[j] == b[0];
      assert Id(a, 0) <= Id(a, j) && Id(b, 0) <= Id(b, i);
      forall x ensures x in a[1..] <==> x in b[1..] {
        TailElements(a, x);
        TailElements(b, x);
      }
      IncreasingTail(a);
      IncreasingTail(b);
      IncreasingUnique(a[1..], b[1..]);
      assert a == [a[0]] + a[1..] && b == [b[0]] + b[1..];
    }
  }

  lemma IncreasingTail(s: seq<nat>)
    requires Increasing(s) && s != []
    ensures Increasing(s[1..])
  {
    forall i, j | 0 <= i < j < |s| - 1 ensures Id(s[1..], i) < Id(s[1..], j) {
      assert Id(s, i + 1) < Id(s, j + 1);
    }
  }

  lemma TailElements(s: seq<nat>, x: nat)
    requires Increasing(s) && s != []
    ensures x in s[1..] <==> x in s && x != s[0]
  {
    if x in s[1..] {
      var k :| 0 <= k < |s[1..]| && s[1..][k] == x;
      assert Id(s, 0) < Id(s, k + 1);
    }
    if x in s && x != s[0] {
      var k :| 0 <= k < |s| && s[k] == x;
      assert s[1..][k - 1] == x;
    }
  }

  lemma RangeIncreasing(n: nat)
    ensures Increasing(Range(n))
  {
    forall i, j | 0 <= i < j < n ensures Id(Range(n), i) < Id(Range(n), j) {
    }
  }

  lemma IncreasingNoDuplicates(s: seq<nat>)
    requires Increasing(s)
    ensures NoDuplicates(s)
  {
    forall i, j | 0 <= i < j < |s| ensures s[i] != s[j] {
      assert Id(s, i) < Id(s, j);
    }
  }

  /** `le(a, b)`: `a` may come before `b` in the requested order. */
  ghost predicate TotalPreorder<T(!new)>(le: (T, T) -> bool) {
    && (forall a, b :: le(a, b) || le(b, a))
    && (forall a, b, c :: le(a, b) && le(b, c) ==> le(a, c))
  }

  ghost predicate SortedBy<T>(s: seq<T>, le: (T, T) -> bool) {
    forall i, j :: 0 <= i < j < |s| ==> le(s[i], s[j])
  }

  /** Puts `x` before the first element it may precede, so equal keys keep their order. */
  function Insert<T>(x: T, s: seq<T>, le: (T, T) -> bool): (r: seq<T>)
    ensures multiset(r) == multiset(s) + multiset{x}
  {
    if s == [] then [x]
    else if le(x, s[0]) then [x] + s
    else assert s == [s[0]] + s[1..]; [s[0]] + Insert(x, s[1..], le)
  }

  /** A stable sort: the `ORDER BY` of a query, ties left in the input's order. */
  function Sort<T>(s: seq<T>, le: (T, T) -> bool): (r: seq<T>)
    ensures multiset(r) == multiset(s)
  {
    if s == [] then []
    else assert s == [s[0]] + s[1..]; Insert(s[0], Sort(s[1..], le), le)
  }

  lemma {:induction false} InsertSorted<T(!new)>(x: T, s: seq<T>, le: (T, T) -> bool)
    requires TotalPreorder(le) && SortedBy(s, le)
    ensures SortedBy(Insert(x, s, le), le)
  {
    if s != [] && !le(x, s[0]) {
      InsertSorted(x, s[1..], le);
      var tail := Insert(x, s[1..], le);
      assert forall y :: y in tail ==> le(s[0], y) by {
        forall y | y in tail ensures le(s[0], y) {
          assert y in multiset(tail);
          if y != x {
            assert y in multiset(s[1..]);
            var k :| 0 <= k < |s[1..]| && s[1..][k] == y;
            assert s[k + 1] == y;
          }
        }
      }
      assert SortedBy([s[0]] + tail, le) by {
        forall i, j | 0 <= i < j < |[s[0]] + tail| ensures le(([s[0]] + tail)[i], ([s[0]] + tail)[j]) {
          if i == 0 {
            assert ([s[0]] + tail)[j] in tail;
          } else {
            assert ([s[0]] + tail)[i] == tail[i - 1] && ([s[0]] + tail)[j] == tail[j - 1];
          }
        }
      }
    }
  }

  /** The result of `Sort` is in the requested order. */
  lemma {:induction false} SortSorted<T(!new)>(s: seq<T>, le: (T, T) -> bool)
    requires TotalPreorder(le)
    ensures SortedBy(Sort(s, le), le)
  {
    if s != [] {
      SortSorted(s[1..], le);
      InsertSorted(s[0], Sort(s[1..], le), le);
    }
  }

  lemma {:induction false} InsertNoDuplicates<T>(x: T, s: seq<T>, le: (T, T) -> bool)
    requires NoDuplicates(s) && x !in s
    ensures NoDuplicates(Insert(x, s, le))
  {
    if s != [] && !le(x, s[0]) {
      HeadNotInTail(s);
      InsertNoDuplicates(x, s[1..], le);
      var tail := Insert(x, s[1..], le);
      assert s[0] !in multiset(tail);
      assert s[0] !in tail;
      assert NoDuplicates([s[0]] + tail) by {
        forall i, j | 0 <= i < j < |[s[0]] + tail| ensures ([s[0]] + tail)[i] != ([s[0]] + tail)[j] {
          if i == 0 {
            assert ([s[0]] + tail)[j] in tail;
          } else {
            assert ([s[0]] + tail)[i] == tail[i - 1] && ([s[0]] + tail)[j] == tail[j - 1];
          }
        }
      }
    }
  }

  /** Sorting a duplicate-free sequence yields a duplicate-free sequence. */
  lemma {:induction false} SortNoDuplicates<T>(s: seq<T>, le: (T, T) -> bool)
    requires NoDuplicates(s)
    ensures NoDuplicates(Sort(s, le))
  {
    if s != [] {
      assert NoDuplicates(s[1..]);
      SortNoDuplicates(s[1..], le);
      HeadNotInTail(s);
      assert s[0] !in multiset(Sort(s[1..], le));
      InsertNoDuplicates(s[0], Sort(s[1..], le), le);
    }
  }

  /** Sorting keeps exactly the elements of the input. */
  lemma SortSameElements<T(!new)>(s: seq<T>, le: (T, T) -> bool)
    ensures forall x :: x in Sort(s, le) <==> x in s
  {
    forall x ensures x in Sort(s, le) <==> x in s {
      assert x in Sort(s, le) <==> x in multiset(Sort(s, le));
      assert x in s <==> x in multiset(s);
    }
  }
}
