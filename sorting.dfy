/**
 * A stable sort driven by a JavaScript-style comparator (negative: the
 * first argument goes first; zero: keep their order; positive: the second
 * goes first). `Array.prototype.sort` is stable, and for a comparator that
 * is a consistent total preorder every stable sort yields the same array,
 * so a stable insertion sort stands for it.
 */
module Sorting {

  /** Insert `x` behind every element of `s` that does not compare greater than it. */
  function Insert<T>(s: seq<T>, x: T, cmp: (T, T) -> int): (r: seq<T>)
    ensures |r| == |s| + 1
  {
    if s == [] then [x]
    else if cmp(s[|s| - 1], x) > 0 then Insert(s[..|s| - 1], x, cmp) + [s[|s| - 1]]
    else s + [x]
  }

  lemma {:induction false} InsertPermutes<T>(s: seq<T>, x: T, cmp: (T, T) -> int)
    ensures multiset(Insert(s, x, cmp)) == multiset(s) + multiset{x}
  {
    if s != [] && cmp(s[|s| - 1], x) > 0 {
      InsertPermutes(s[..|s| - 1], x, cmp);
      assert s == s[..|s| - 1] + [s[|s| - 1]];
    }
  }

  /** The array a stable sort under `cmp` yields. */
  function SortedBy<T>(s: seq<T>, cmp: (T, T) -> int): (r: seq<T>)
    ensures |r| == |s|
  {
    if s == [] then [] else Insert(SortedBy(s[..|s| - 1], cmp), s[|s| - 1], cmp)
  }

  /** In-place stable insertion sort: `array.sort(cmp)`. */
  method SortInPlace<T>(a: array<T>, cmp: (T, T) -> int)
    modifies a
    ensures a[..] == SortedBy(old(a[..]), cmp)
  {
    ghost var s := a[..];
    var i := 0;
    while i < a.Length
      invariant 0 <= i <= a.Length
      invariant a[..i] == SortedBy(s[..i], cmp)
      invariant forall k :: i <= k < a.Length ==> a[k] == s[k]
    {
      InsertInPlace(a, i, cmp);
      SortedBySnoc(s, i, cmp);
      i := i + 1;
    }
    assert a[..] == a[..a.Length] && s == s[..a.Length];
  }

  /** Moves `a[i]` into the sorted prefix `a[..i]`, shifting the greater elements up by one. */
  method InsertInPlace<T>(a: array<T>, i: nat, cmp: (T, T) -> int)
    requires i < a.Length
    modifies a
    ensures a[..i + 1] == Insert(old(a[..i]), old(a[i]), cmp)
    ensures forall k :: i < k < a.Length ==> a[k] == old(a[k])
  {
    ghost var sorted := a[..i];
    var x := a[i];
    var j := ShiftGreater(a, i, x, cmp, sorted);
    a[j] := x;
    Assemble(a[..], sorted, j, x);
  }

  /**
   * The inner loop of the insertion: every element of the sorted prefix
   * that compares greater than `x` moves up one slot, leaving slot `j`
   * free for `x`.
   */
  method ShiftGreater<T>(a: array<T>, i: nat, x: T, cmp: (T, T) -> int, ghost sorted: seq<T>) returns (j: nat)
    requires i < a.Length && sorted == a[..i]
    modifies a
    ensures j <= i
    ensures forall k :: 0 <= k < j ==> a[k] == sorted[k]
    ensures forall k :: j < k <= i ==> a[k] == sorted[k - 1]
    ensures forall k :: i < k < a.Length ==> a[k] == old(a[k])
    ensures Insert(sorted, x, cmp) == sorted[..j] + [x] + sorted[j..]
  {
    j := i;
    while j > 0 && cmp(a[j - 1], x) > 0
      invariant 0 <= j <= i
      invariant forall k :: 0 <= k < j ==> a[k] == sorted[k]
      invariant forall k :: j < k <= i ==> a[k] == sorted[k - 1]
      invariant forall k :: i < k < a.Length ==> a[k] == old(a[k])
      invariant forall k :: j <= k < i ==> cmp(sorted[k], x) > 0
    {
      a[j] := a[j - 1];
      j := j - 1;
    }
    InsertAt(sorted, j, x, cmp);
  }

  /** A slot `j` holding `x`, with the prefix of `sorted` before it and the rest of `sorted` after it. */
  lemma Assemble<T>(b: seq<T>, sorted: seq<T>, j: nat, x: T)
    requires j <= |sorted| < |b|
    requires forall k :: 0 <= k < j ==> b[k] == sorted[k]
    requires b[j] == x
    requires forall k :: j < k <= |sorted| ==> b[k] == sorted[k - 1]
    ensures b[..|sorted| + 1] == sorted[..j] + [x] + sorted[j..]
  {
  }

  lemma SortedBySnoc<T>(s: seq<T>, i: nat, cmp: (T, T) -> int)
    requires i < |s|
    ensures SortedBy(s[..i + 1], cmp) == Insert(SortedBy(s[..i], cmp), s[i], cmp)
  {
    assert s[..i + 1][..i] == s[..i];
  }

  /**
   * `x` lands at `j` when the element before `j` does not compare greater
   * than it and every element from `j` on does.
   */
  lemma {:induction false} InsertAt<T>(sorted: seq<T>, j: nat, x: T, cmp: (T, T) -> int)
    requires j <= |sorted|
    requires j == 0 || cmp(sorted[j - 1], x) <= 0
    requires forall k :: j <= k < |sorted| ==> cmp(sorted[k], x) > 0
    ensures Insert(sorted, x, cmp) == sorted[..j] + [x] + sorted[j..]
    decreases |sorted|
  {
    if j == |sorted| {
      assert sorted[..j] == sorted && sorted[j..] == [];
    } else {
      var init, last := sorted[..|sorted| - 1], sorted[|sorted| - 1];
      assert cmp(last, x) > 0;
      assert Insert(sorted, x, cmp) == Insert(init, x, cmp) + [last];
      assert j == 0 || init[j - 1] == sorted[j - 1];
      assert forall k :: j <= k < |init| ==> init[k] == sorted[k];
      InsertAt(init, j, x, cmp);
      assert init[..j] == sorted[..j];
      assert sorted[j..] == init[j..] + [last];
      Assoc(sorted[..j] + [x], init[j..], [last]);
    }
  }

  lemma Assoc<T>(p: seq<T>, q: seq<T>, t: seq<T>)
    ensures p + q + t == p + (q + t)
  {
  }

  /** The sort only rearranges its input. */
  lemma {:induction false} SortedByPermutes<T>(s: seq<T>, cmp: (T, T) -> int)
    ensures multiset(SortedBy(s, cmp)) == multiset(s)
  {
    if s != [] {
      SortedByPermutes(s[..|s| - 1], cmp);
      InsertPermutes(SortedBy(s[..|s| - 1], cmp), s[|s| - 1], cmp);
      assert s == s[..|s| - 1] + [s[|s| - 1]];
    }
  }

  /** Neither of `a` and `b` goes after the other: the comparator leaves them in their order. */
  predicate Tied<T>(cmp: (T, T) -> int, a: T, b: T) {
    cmp(a, b) <= 0 && cmp(b, a) <= 0
  }

  /** The elements of `s` tied with `x`, in the order of `s`. */
  function TiedWith<T>(s: seq<T>, x: T, cmp: (T, T) -> int): (t: seq<T>)
    ensures |t| <= |s|
  {
    if s == [] then []
    else TiedWith(s[..|s| - 1], x, cmp) + (if Tied(cmp, s[|s| - 1], x) then [s[|s| - 1]] else [])
  }

  lemma TiedWithSnoc<T>(s: seq<T>, y: T, x: T, cmp: (T, T) -> int)
    ensures TiedWith(s + [y], x, cmp) == TiedWith(s, x, cmp) + (if Tied(cmp, y, x) then [y] else [])
  {
    assert (s + [y])[..|s|] == s;
  }

  /**
   * Inserting `y` adds it behind the elements already tied with `x`: an
   * element that `y` is moved in front of is strictly greater than `y`, so
   * it cannot be tied with `x` when `y` is.
   */
  lemma {:induction false} InsertTied<T>(s: seq<T>, y: T, x: T, cmp: (T, T) -> int, u: set<T>)
    requires ConsistentOn(cmp, u) && Within(s, u) && y in u && x in u
    ensures TiedWith(Insert(s, y, cmp), x, cmp) == TiedWith(s, x, cmp) + (if Tied(cmp, y, x) then [y] else [])
  {
    if s == [] {
      assert Insert(s, y, cmp) == [] + [y];
      TiedWithSnoc([], y, x, cmp);
    } else {
      var init, last := s[..|s| - 1], s[|s| - 1];
      assert s == init + [last];
      TiedWithSnoc(init, last, x, cmp);
      if cmp(last, y) > 0 {
        assert Within(init, u) && last in u;
        InsertTied(init, y, x, cmp, u);
        assert cmp(last, x) <= 0 && cmp(x, y) <= 0 ==> cmp(last, y) <= 0;
        InsertTiedBehind(init, last, y, x, cmp);
      } else {
        TiedWithSnoc(s, y, x, cmp);
      }
    }
  }

  /** The step of `InsertTied` where `y` moves in front of `last`, which is not tied with `x` when `y` is. */
  lemma InsertTiedBehind<T>(init: seq<T>, last: T, y: T, x: T, cmp: (T, T) -> int)
    requires cmp(last, y) > 0 && !(Tied(cmp, y, x) && Tied(cmp, last, x))
    requires TiedWith(Insert(init, y, cmp), x, cmp) == TiedWith(init, x, cmp) + (if Tied(cmp, y, x) then [y] else [])
    ensures TiedWith(Insert(init + [last], y, cmp), x, cmp)
      == TiedWith(init + [last], x, cmp) + (if Tied(cmp, y, x) then [y] else [])
  {
    var s := init + [last];
    assert s[..|s| - 1] == init && s[|s| - 1] == last;
    var r := Insert(init, y, cmp);
    assert Insert(s, y, cmp) == r + [last];
    TiedWithSnoc(r, last, x, cmp);
    TiedWithSnoc(init, last, x, cmp);
  }

  /**
   * Stability: the elements tied with any `x` come out of the sort in the
   * order they went in.
   */
  lemma {:induction false} SortedByStable<T>(s: seq<T>, x: T, cmp: (T, T) -> int, u: set<T>)
    requires ConsistentOn(cmp, u) && Within(s, u) && x in u
    ensures TiedWith(SortedBy(s, cmp), x, cmp) == TiedWith(s, x, cmp)
  {
    if s != [] {
      var init, last := s[..|s| - 1], s[|s| - 1];
      assert Within(init, u) && last in u;
      SortedByStable(init, x, cmp, u);
      SortedBySorted(init, cmp, u);
      InsertTied(SortedBy(init, cmp), last, x, cmp, u);
    }
  }

  /** Records with equal keys keep their input order: (2,0) stays ahead of (2,2). */
  lemma StableExample()
    ensures SortedBy([(2, 0), (1, 1), (2, 2)], (a: (int, int), b: (int, int)) => a.0 - b.0) == [(1, 1), (2, 0), (2, 2)]
  {
    var cmp := (a: (int, int), b: (int, int)) => a.0 - b.0;
    var s := [(2, 0), (1, 1), (2, 2)];
    assert s[..1] == [(2, 0)] && s[..2] == [(2, 0), (1, 1)];
    assert SortedBy(s[..1], cmp) == [(2, 0)];
    assert Insert([(2, 0)], (1, 1), cmp) == [(1, 1), (2, 0)];
    assert SortedBy(s[..2], cmp) == [(1, 1), (2, 0)];
    assert Insert([(1, 1), (2, 0)], (2, 2), cmp) == [(1, 1), (2, 0), (2, 2)];
  }

  /** A comparator that never says "positive" leaves the input untouched. */
  lemma {:induction false} SortedByKeepsOrder<T>(s: seq<T>, cmp: (T, T) -> int)
    requires forall i, j :: 0 <= i < j < |s| ==> cmp(s[i], s[j]) <= 0
    ensures SortedBy(s, cmp) == s
  {
    if s != [] {
      var init := s[..|s| - 1];
      SortedByKeepsOrder(init, cmp);
      if init != [] {
        assert cmp(init[|init| - 1], s[|s| - 1]) <= 0;
      }
      assert s == init + [s[|s| - 1]];
    }
  }

  /** `cmp` read over the elements of `u` is a total preorder: any two compare, and "not after" is transitive. */
  ghost predicate ConsistentOn<T>(cmp: (T, T) -> int, u: set<T>) {
    && (forall a, b :: a in u && b in u ==> cmp(a, b) <= 0 || cmp(b, a) <= 0)
    && (forall a, b, c :: a in u && b in u && c in u && cmp(a, b) <= 0 && cmp(b, c) <= 0 ==> cmp(a, c) <= 0)
  }

  ghost predicate Sorted<T>(s: seq<T>, cmp: (T, T) -> int) {
    forall i, j :: 0 <= i < j < |s| ==> cmp(s[i], s[j]) <= 0
  }

  ghost predicate Within<T>(s: seq<T>, u: set<T>) {
    forall i :: 0 <= i < |s| ==> s[i] in u
  }

  /** Every element of an insertion result is the inserted one or came from `s`. */
  lemma {:induction false} InsertElements<T>(s: seq<T>, x: T, cmp: (T, T) -> int, u: set<T>)
    requires Within(s, u) && x in u
    ensures Within(Insert(s, x, cmp), u)
    ensures forall k :: 0 <= k < |Insert(s, x, cmp)| ==>
      Insert(s, x, cmp)[k] == x || exists m :: 0 <= m < |s| && s[m] == Insert(s, x, cmp)[k]
  {
    if s != [] && cmp(s[|s| - 1], x) > 0 {
      var init := s[..|s| - 1];
      InsertElements(init, x, cmp, u);
      var r := Insert(init, x, cmp);
      assert Insert(s, x, cmp) == r + [s[|s| - 1]];
      forall k | 0 <= k < |r| && r[k] != x ensures exists m :: 0 <= m < |s| && s[m] == r[k] {
        var m :| 0 <= m < |init| && init[m] == r[k];
        assert s[m] == r[k];
      }
    }
  }

  lemma SortedAppend<T>(r: seq<T>, y: T, cmp: (T, T) -> int)
    requires Sorted(r, cmp)
    requires forall k :: 0 <= k < |r| ==> cmp(r[k], y) <= 0
    ensures Sorted(r + [y], cmp)
  {
  }

  lemma {:induction false} InsertSorted<T>(s: seq<T>, x: T, cmp: (T, T) -> int, u: set<T>)
    requires ConsistentOn(cmp, u) && Within(s, u) && x in u
    requires Sorted(s, cmp)
    ensures Sorted(Insert(s, x, cmp), cmp)
    ensures Within(Insert(s, x, cmp), u)
  {
    InsertElements(s, x, cmp, u);
    if s != [] {
      var init, last := s[..|s| - 1], s[|s| - 1];
      assert Within(init, u) && last in u;
      if cmp(last, x) > 0 {
        assert Sorted(init, cmp);
        InsertSorted(init, x, cmp, u);
        InsertElements(init, x, cmp, u);
        var r := Insert(init, x, cmp);
        assert cmp(x, last) <= 0;
        forall k | 0 <= k < |r| ensures cmp(r[k], last) <= 0 {
          if r[k] != x {
            var m :| 0 <= m < |init| && init[m] == r[k];
            assert s[m] == r[k];
          }
        }
        SortedAppend(r, last, cmp);
        assert Insert(s, x, cmp) == r + [last];
      } else {
        forall k | 0 <= k < |s| ensures cmp(s[k], x) <= 0 {
          if k < |s| - 1 {
            assert cmp(s[k], last) <= 0;
            assert s[k] in u;
          }
        }
        SortedAppend(s, x, cmp);
      }
    }
  }

  /** Under a consistent comparator the result is in order. */
  lemma {:induction false} SortedBySorted<T>(s: seq<T>, cmp: (T, T) -> int, u: set<T>)
    requires ConsistentOn(cmp, u) && Within(s, u)
    ensures Sorted(SortedBy(s, cmp), cmp)
    ensures Within(SortedBy(s, cmp), u)
  {
    if s != [] {
      SortedBySorted(s[..|s| - 1], cmp, u);
      InsertSorted(SortedBy(s[..|s| - 1], cmp), s[|s| - 1], cmp, u);
    }
  }
}
