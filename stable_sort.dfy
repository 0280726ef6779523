/**
 * The stable sort behind `Array.prototype.sort` with a comparator. For a
 * consistent comparator every stable sort produces the same order, so the
 * model uses insertion sort: each element is inserted after the last earlier
 * element that does not compare greater than it.
 */
module StableSort {

  /**
   * A consistent comparator: its sign is antisymmetric and "does not come
   * after" is transitive, so it is a total preorder.
   */
  ghost predicate IsComparator<T(!new)>(cmp: (T, T) -> int) {
    && (forall x, y :: cmp(x, y) < 0 <==> cmp(y, x) > 0)
    && (forall x, y, z :: cmp(x, y) <= 0 && cmp(y, z) <= 0 ==> cmp(x, z) <= 0)
  }

  /** No element of `s` compares greater than a later one. */
  ghost predicate Sorted<T>(cmp: (T, T) -> int, s: seq<T>) {
    forall i, j :: 0 <= i < j < |s| ==> cmp(s[i], s[j]) <= 0
  }

  /** Inserts `x` after the last element of `t` that does not compare greater than `x`. */
  function Insert<T>(cmp: (T, T) -> int, t: seq<T>, x: T): seq<T> {
    if t == [] || cmp(t[|t| - 1], x) <= 0 then t + [x]
    else Insert(cmp, t[..|t| - 1], x) + [t[|t| - 1]]
  }

  /** The stably sorted `s`: each element in turn inserted into the sorted prefix. */
  function Sort<T>(cmp: (T, T) -> int, s: seq<T>): seq<T> {
    if s == [] then [] else Insert(cmp, Sort(cmp, s[..|s| - 1]), s[|s| - 1])
  }

  /** Sorts `a` in place. */
  method InsertionSort<T>(a: array<T>, cmp: (T, T) -> int)
    modifies a
    ensures a[..] == Sort(cmp, old(a[..]))
  {
    ghost var input := a[..];
    for i := 0 to a.Length
      invariant a[..i] == Sort(cmp, input[..i])
      invariant a[i..] == input[i..]
    {
      InsertInPlace(a, i, cmp);
      assert input[..i + 1][..i] == input[..i];
    }
    assert input[..a.Length] == input;
  }

  /** Moves `a[i]` into place within the sorted prefix `a[..i]`, shifting greater elements right. */
  method InsertInPlace<T>(a: array<T>, i: nat, cmp: (T, T) -> int)
    requires i < a.Length
    modifies a
    ensures a[..i + 1] == Insert(cmp, old(a[..i]), old(a[i]))
    ensures a[i + 1..] == old(a[i + 1..])
  {
    ghost var sorted := a[..i];
    var x := a[i];
    var j := i;
    while j > 0 && cmp(a[j - 1], x) > 0
      invariant 0 <= j <= i
      invariant forall k :: 0 <= k < j ==> a[k] == sorted[k]
      invariant forall k :: j < k <= i ==> a[k] == sorted[k - 1]
      invariant forall k :: i < k < a.Length ==> a[k] == old(a[k])
      invariant forall k :: j <= k < i ==> cmp(sorted[k], x) > 0
    {
      a[j] := a[j - 1];
      j := j - 1;
    }
    a[j] := x;
    InsertAt(cmp, sorted, x, j);
    Placed(a[..i + 1], sorted, x, j);
  }

  /**
   * `x` goes right after the last element that does not compare greater
   * than it: position `j` when everything from `j` on compares greater.
   */
  lemma {:induction false} InsertAt<T>(cmp: (T, T) -> int, sorted: seq<T>, x: T, j: nat)
    requires j <= |sorted|
    requires j == 0 || cmp(sorted[j - 1], x) <= 0
    requires forall k :: j <= k < |sorted| ==> cmp(sorted[k], x) > 0
    ensures Insert(cmp, sorted, x) == sorted[..j] + [x] + sorted[j..]
    decreases |sorted|
  {
    if j < |sorted| {
      var n := |sorted| - 1;
      InsertAt(cmp, sorted[..n], x, j);
      assert sorted[..n][..j] == sorted[..j];
      assert sorted[..n][j..] + [sorted[n]] == sorted[j..];
    }
  }

  /** The array after the shifting loop holds the prefix, then `x`, then the shifted rest. */
  lemma Placed<T>(r: seq<T>, sorted: seq<T>, x: T, j: nat)
    requires j <= |sorted| && |r| == |sorted| + 1
    requires forall k :: 0 <= k < j ==> r[k] == sorted[k]
    requires r[j] == x
    requires forall k :: j < k < |r| ==> r[k] == sorted[k - 1]
    ensures r == sorted[..j] + [x] + sorted[j..]
  {
  }

  // ---------------------------------------------------------------------------
  // Properties of the sort

  lemma {:induction false} InsertPermutes<T>(cmp: (T, T) -> int, t: seq<T>, x: T)
    ensures multiset(Insert(cmp, t, x)) == multiset(t) + multiset{x}
  {
    if t != [] && cmp(t[|t| - 1], x) > 0 {
      var n := |t| - 1;
      InsertPermutes(cmp, t[..n], x);
      assert t == t[..n] + [t[n]];
    }
  }

  /** The sorted sequence is a permutation of the input. */
  lemma {:induction false} SortPermutes<T>(cmp: (T, T) -> int, s: seq<T>)
    ensures multiset(Sort(cmp, s)) == multiset(s)
  {
    if s != [] {
      var n := |s| - 1;
      SortPermutes(cmp, s[..n]);
      InsertPermutes(cmp, Sort(cmp, s[..n]), s[n]);
      assert s == s[..n] + [s[n]];
    }
  }

  /** Appending an element that no element of a sorted sequence compares greater than keeps it sorted. */
  lemma AppendSorted<T(!new)>(cmp: (T, T) -> int, t: seq<T>, x: T)
    requires IsComparator(cmp) && Sorted(cmp, t)
    requires t == [] || cmp(t[|t| - 1], x) <= 0
    ensures Sorted(cmp, t + [x])
  {
    var r := t + [x];
    forall i, j | 0 <= i < j < |r| ensures cmp(r[i], r[j]) <= 0 {
      if j == |t| && i < |t| - 1 {
        assert cmp(t[i], t[|t| - 1]) <= 0;
      }
    }
  }

  /** Appending a greatest element to a sorted sequence keeps it sorted. */
  lemma AppendGreatest<T(!new)>(cmp: (T, T) -> int, front: seq<T>, last: T)
    requires Sorted(cmp, front)
    requires forall k :: 0 <= k < |front| ==> cmp(front[k], last) <= 0
    ensures Sorted(cmp, front + [last])
  {
    var r := front + [last];
    forall i, j | 0 <= i < j < |r| ensures cmp(r[i], r[j]) <= 0 {
      if j < |front| {
        assert r[i] == front[i] && r[j] == front[j];
      }
    }
  }

  lemma {:induction false} InsertSorted<T(!new)>(cmp: (T, T) -> int, t: seq<T>, x: T)
    requires IsComparator(cmp) && Sorted(cmp, t)
    ensures Sorted(cmp, Insert(cmp, t, x))
  {
    if t == [] || cmp(t[|t| - 1], x) <= 0 {
      AppendSorted(cmp, t, x);
    } else {
      var n := |t| - 1;
      var last := t[n];
      assert Sorted(cmp, t[..n]);
      InsertSorted(cmp, t[..n], x);
      InsertPermutes(cmp, t[..n], x);
      var front := Insert(cmp, t[..n], x);
      forall k | 0 <= k < |front| ensures cmp(front[k], last) <= 0 {
        var e := front[k];
        assert e in multiset(front);
        if e == x {
          assert cmp(x, last) < 0;
        } else {
          var m :| 0 <= m < n && t[..n][m] == e;
          assert t[m] == e;
        }
      }
      AppendGreatest(cmp, front, last);
    }
  }

  /** The sorted sequence is in order. */
  lemma {:induction false} SortSorted<T(!new)>(cmp: (T, T) -> int, s: seq<T>)
    requires IsComparator(cmp)
    ensures Sorted(cmp, Sort(cmp, s))
  {
    if s != [] {
      var n := |s| - 1;
      SortSorted(cmp, s[..n]);
      InsertSorted(cmp, Sort(cmp, s[..n]), s[n]);
    }
  }

  /** A sequence already in order is left as it is. */
  lemma {:induction false} SortOfSorted<T>(cmp: (T, T) -> int, s: seq<T>)
    requires Sorted(cmp, s)
    ensures Sort(cmp, s) == s
  {
    if s != [] {
      var n := |s| - 1;
      assert Sorted(cmp, s[..n]);
      SortOfSorted(cmp, s[..n]);
      assert s == s[..n] + [s[n]];
    }
  }

  /** `s` read backwards. */
  function Reverse<T>(s: seq<T>): (r: seq<T>)
    ensures |r| == |s| && forall k :: 0 <= k < |s| ==> r[k] == s[|s| - 1 - k]
  {
    if s == [] then [] else [s[|s| - 1]] + Reverse(s[..|s| - 1])
  }

  /** An element that every element of `t` compares greater than goes in front. */
  lemma {:induction false} InsertFront<T>(cmp: (T, T) -> int, t: seq<T>, x: T)
    requires forall k :: 0 <= k < |t| ==> cmp(t[k], x) > 0
    ensures Insert(cmp, t, x) == [x] + t
  {
    if t != [] {
      var n := |t| - 1;
      InsertFront(cmp, t[..n], x);
      assert t == t[..n] + [t[n]];
    }
  }

  /** A sequence in strictly decreasing order comes out reversed. */
  lemma {:induction false} SortOfDecreasing<T>(cmp: (T, T) -> int, s: seq<T>)
    requires forall i, j :: 0 <= i < j < |s| ==> cmp(s[i], s[j]) > 0
    ensures Sort(cmp, s) == Reverse(s)
  {
    if s != [] {
      var n := |s| - 1;
      SortOfDecreasing(cmp, s[..n]);
      var r := Reverse(s[..n]);
      forall k | 0 <= k < |r| ensures cmp(r[k], s[n]) > 0 {
        assert r[k] == s[n - 1 - k];
      }
      InsertFront(cmp, r, s[n]);
    }
  }

  /**
   * Ties keep their input order: with `pos` strictly increasing along the
   * input (the original index, say), equivalent elements come out in
   * increasing `pos`.
   */
  ghost predicate TiesOrdered<T>(cmp: (T, T) -> int, pos: T -> int, s: seq<T>) {
    forall i, j :: 0 <= i < j < |s| && cmp(s[i], s[j]) == 0 ==> pos(s[i]) < pos(s[j])
  }

  lemma {:induction false} InsertStable<T(!new)>(cmp: (T, T) -> int, pos: T -> int, t: seq<T>, x: T)
    requires IsComparator(cmp) && TiesOrdered(cmp, pos, t)
    requires forall k :: 0 <= k < |t| ==> pos(t[k]) < pos(x)
    ensures TiesOrdered(cmp, pos, Insert(cmp, t, x))
  {
    if t != [] && cmp(t[|t| - 1], x) > 0 {
      var n := |t| - 1;
      var front := Insert(cmp, t[..n], x);
      var r := front + [t[n]];
      assert TiesOrdered(cmp, pos, t[..n]);
      InsertStable(cmp, pos, t[..n], x);
      InsertPermutes(cmp, t[..n], x);
      forall i, j | 0 <= i < j < |r| && cmp(r[i], r[j]) == 0 ensures pos(r[i]) < pos(r[j]) {
        if j == |front| {
          var e := front[i];
          assert e in multiset(front);
          if e != x {
            var k :| 0 <= k < n && t[..n][k] == e;
            assert t[k] == e;
          }
        } else {
          assert r[i] == front[i] && r[j] == front[j];
        }
      }
    }
  }

  /** The sort is stable. */
  lemma {:induction false} SortStable<T(!new)>(cmp: (T, T) -> int, pos: T -> int, s: seq<T>)
    requires IsComparator(cmp)
    requires forall i, j :: 0 <= i < j < |s| ==> pos(s[i]) < pos(s[j])
    ensures TiesOrdered(cmp, pos, Sort(cmp, s))
  {
    if s != [] {
      var n := |s| - 1;
      var t := Sort(cmp, s[..n]);
      SortStable(cmp, pos, s[..n]);
      SortPermutes(cmp, s[..n]);
      forall k | 0 <= k < |t| ensures pos(t[k]) < pos(s[n]) {
        assert t[k] in multiset(s[..n]);
        var m :| 0 <= m < n && s[..n][m] == t[k];
      }
      InsertStable(cmp, pos, t, s[n]);
    }
  }
}
