/** The three bubble sorts, in place, and what they count. */
module BubbleSort {

  ghost predicate Sorted(s: seq<int>) {
    forall k, l :: 0 <= k < l < |s| ==> s[k] <= s[l]
  }

  /** How many elements of s are smaller than x. */
  function Smaller(s: seq<int>, x: int): nat {
    if s == [] then 0 else (if s[0] < x then 1 else 0) + Smaller(s[1..], x)
  }

  /** The pairs of positions whose elements are out of order. */
  function Inversions(s: seq<int>): nat {
    if s == [] then 0 else Smaller(s[1..], s[0]) + Inversions(s[1..])
  }

  function Swapped(s: seq<int>, j: nat): seq<int>
    requires j + 1 < |s|
  {
    s[j := s[j + 1]][j + 1 := s[j]]
  }

  lemma {:induction false} SwapSmaller(s: seq<int>, j: nat, x: int)
    requires j + 1 < |s|
    ensures Smaller(Swapped(s, j), x) == Smaller(s, x)
  {
    var t := Swapped(s, j);
    if j == 0 {
      assert t[1..][1..] == s[1..][1..];
      assert t[0] == s[1] && t[1..][0] == s[0] && s[1..][0] == s[1];
    } else {
      assert t[1..] == Swapped(s[1..], j - 1) && t[0] == s[0];
      SwapSmaller(s[1..], j - 1, x);
    }
  }

  /** Swapping two neighbours that are out of order removes exactly one inversion. */
  lemma {:induction false} SwapRemovesOne(s: seq<int>, j: nat)
    requires j + 1 < |s| && s[j] > s[j + 1]
    ensures Inversions(Swapped(s, j)) == Inversions(s) - 1
  {
    var t := Swapped(s, j);
    if j == 0 {
      assert t[1..][1..] == s[1..][1..];
      assert t[0] == s[1] && t[1..][0] == s[0] && s[1..][0] == s[1];
    } else {
      assert t[1..] == Swapped(s[1..], j - 1) && t[0] == s[0];
      SwapSmaller(s[1..], j - 1, s[0]);
      SwapRemovesOne(s[1..], j - 1);
    }
  }

  lemma {:induction false} NoneSmaller(s: seq<int>, x: int)
    requires forall k :: 0 <= k < |s| ==> x <= s[k]
    ensures Smaller(s, x) == 0
  {
    if s != [] {
      NoneSmaller(s[1..], x);
    }
  }

  /** A sequence is sorted exactly when it has no inversions. */
  lemma {:induction false} SortedHasNone(s: seq<int>)
    ensures Sorted(s) <==> Inversions(s) == 0
  {
    if s != [] {
      SortedHasNone(s[1..]);
      if Sorted(s) {
        NoneSmaller(s[1..], s[0]);
      }
      if Inversions(s) == 0 {
        SmallerNone(s[1..], s[0]);
        assert s == [s[0]] + s[1..];
      }
    }
  }

  lemma {:induction false} SmallerNone(s: seq<int>, x: int)
    requires Smaller(s, x) == 0
    ensures forall k :: 0 <= k < |s| ==> x <= s[k]
  {
    if s != [] {
      SmallerNone(s[1..], x);
      assert forall k :: 0 < k < |s| ==> s[k] == s[1..][k - 1];
    }
  }

  /** There is only one sorted arrangement, so all three sorts leave the same array. */
  lemma {:induction false} SortedIsUnique(s: seq<int>, t: seq<int>)
    requires Sorted(s) && Sorted(t) && multiset(s) == multiset(t)
    ensures s == t
  {
    assert |multiset(s)| == |s| && |multiset(t)| == |t|;
    if s != [] {
      HeadIsLeast(s, t);
      HeadIsLeast(t, s);
      WithoutHead(s);
      WithoutHead(t);
      SortedIsUnique(s[1..], t[1..]);
    }
  }

  lemma HeadIsLeast(s: seq<int>, t: seq<int>)
    requires s != [] && t != [] && Sorted(s) && multiset(s) == multiset(t)
    ensures s[0] <= t[0]
  {
    assert t[0] in multiset(s);
  }

  lemma WithoutHead(s: seq<int>)
    requires s != []
    ensures multiset(s[1..]) == multiset(s) - multiset{s[0]} && (Sorted(s) ==> Sorted(s[1..]))
  {
    assert s == [s[0]] + s[1..];
  }

  // ----- The invariant of the two nested loops -----

  /** The elements above i are in place, and position j holds the greatest seen in this pass. */
  ghost predicate Sifting(was: seq<int>, now: seq<int>, i: int, j: nat) {
    && |now| == |was| && multiset(now) == multiset(was) && i < |now| && (now == [] || j <= i)
    && (forall k, l :: 0 <= k < l < |now| && i < l ==> now[k] <= now[l])
    && forall k :: 0 <= k < j < |now| ==> now[k] <= now[j]
  }

  lemma SiftStart(was: seq<int>)
    ensures Sifting(was, was, |was| - 1, 0)
  {
  }

  lemma SiftStep(was: seq<int>, now: seq<int>, i: nat, j: nat)
    requires Sifting(was, now, i, j) && j < i
    ensures now[j] > now[j + 1] ==> Sifting(was, Swapped(now, j), i, j + 1)
    ensures now[j] <= now[j + 1] ==> Sifting(was, now, i, j + 1)
  {
    if now[j] > now[j + 1] {
      var t := Swapped(now, j);
      assert multiset(t) == multiset(now) by { SwapIsPermutation(now, j); }
      assert forall l :: i < l < |t| ==> t[l] == now[l];
    }
  }

  lemma SwapIsPermutation(s: seq<int>, j: nat)
    requires j + 1 < |s|
    ensures multiset(Swapped(s, j)) == multiset(s)
  {
    assert s == s[..j] + [s[j], s[j + 1]] + s[j + 2..];
    assert Swapped(s, j) == s[..j] + [s[j + 1], s[j]] + s[j + 2..];
  }

  lemma PassEnd(was: seq<int>, now: seq<int>, i: nat)
    requires Sifting(was, now, i, i) && i > 0
    ensures Sifting(was, now, i - 1, 0)
  {
  }

  lemma SiftEnd(was: seq<int>, now: seq<int>, i: int)
    requires Sifting(was, now, i, 0) && i <= 0
    ensures Sorted(now) && multiset(now) == multiset(was)
  {
  }

  /** Every swap so far paid for one inversion. */
  ghost predicate Counted(was: seq<int>, now: seq<int>, swaps: nat) {
    swaps + Inversions(now) == Inversions(was)
  }

  lemma CountStart(was: seq<int>)
    ensures Counted(was, was, 0)
  {
  }

  lemma CountStep(was: seq<int>, now: seq<int>, swaps: nat, j: nat)
    requires Counted(was, now, swaps) && j + 1 < |now| && now[j] > now[j + 1]
    ensures Counted(was, Swapped(now, j), swaps + 1)
  {
    SwapRemovesOne(now, j);
  }

  lemma CountEnd(was: seq<int>, now: seq<int>, swaps: nat)
    requires Counted(was, now, swaps) && Sorted(now)
    ensures swaps == Inversions(was)
  {
    SortedHasNone(now);
  }

  /** 0 + 1 + ... + (n - 1) */
  function Triangle(n: nat): nat {
    if n == 0 then 0 else Triangle(n - 1) + n - 1
  }

  /** The number of comparisons is n(n-1)/2. */
  lemma {:induction false} TriangleIs(n: nat)
    ensures 2 * Triangle(n) == n * (n - 1)
  {
    if n > 0 {
      TriangleIs(n - 1);
    }
  }

  lemma TriangleNext(i: nat)
    ensures Triangle(i + 1) == Triangle(i) + i && Triangle(0) == 0
  {
  }

  // ----- The sorts -----

  /** The part of the array the sorts work on. */
  ghost function Front(a: array<int>, n: nat): seq<int>
    requires n <= a.Length
    reads a
  {
    a[..n]
  }

  ghost function Back(a: array<int>, n: nat): seq<int>
    requires n <= a.Length
    reads a
  {
    a[n..]
  }

  lemma WholeArray(a: array<int>, n: nat)
    requires n <= a.Length
    ensures Front(a, n) == a[..n] && Back(a, n) == a[n..]
  {
  }

  /** Stores two values at j and j + 1. */
  method Store(a: array<int>, j: nat, x: int, y: int, ghost n: nat)
    requires j + 1 < n <= a.Length
    modifies a
    ensures Front(a, n) == old(Front(a, n))[j := x][j + 1 := y] && Back(a, n) == old(Back(a, n))
  {
    a[j] := x;
    a[j + 1] := y;
  }

  lemma FrontAt(a: array<int>, n: nat, j: nat)
    requires j < n <= a.Length
    ensures |Front(a, n)| == n && a[j] == Front(a, n)[j]
  {
  }

  method Bubble1(a: array<int>, n: nat)
    requires n <= a.Length
    modifies a
    ensures Sorted(a[..n]) && multiset(a[..n]) == multiset(old(a[..n]))
    ensures a[n..] == old(a[n..])
  {
    hide Sifting, Sorted, Front, Back;
    WholeArray(a, n);
    ghost var was, rest := Front(a, n), Back(a, n);
    SiftStart(was);
    var i := n - 1;
    while i > 0
      invariant -1 <= i < n && (n > 0 ==> i >= 0) && Sifting(was, Front(a, n), i, 0) && Back(a, n) == rest
    {
      var j := 0;
      while j < i
        invariant j <= i && Sifting(was, Front(a, n), i, j) && Back(a, n) == rest
      {
        FrontAt(a, n, j);
        FrontAt(a, n, j + 1);
        SiftStep(was, Front(a, n), i, j);
        if a[j] > a[j + 1] {
          var t := a[j];
          Store(a, j, a[j + 1], t, n);
        }
        j := j + 1;
      }
      PassEnd(was, Front(a, n), i);
      i := i - 1;
    }
    SiftEnd(was, Front(a, n), i);
    WholeArray(a, n);
  }

  /** Writes both elements back every time, with no branch around the stores. */
  method Bubble2(a: array<int>, n: nat)
    requires n <= a.Length
    modifies a
    ensures Sorted(a[..n]) && multiset(a[..n]) == multiset(old(a[..n]))
    ensures a[n..] == old(a[n..])
  {
    hide Sifting, Sorted, Front, Back;
    WholeArray(a, n);
    ghost var was, rest := Front(a, n), Back(a, n);
    SiftStart(was);
    var i := n - 1;
    while i > 0
      invariant -1 <= i < n && (n > 0 ==> i >= 0) && Sifting(was, Front(a, n), i, 0) && Back(a, n) == rest
    {
      var j := 0;
      while j < i
        invariant j <= i && Sifting(was, Front(a, n), i, j) && Back(a, n) == rest
      {
        FrontAt(a, n, j);
        FrontAt(a, n, j + 1);
        SiftStep(was, Front(a, n), i, j);
        SwappedOrNot(Front(a, n), j);
        var naj := if a[j] > a[j + 1] then a[j + 1] else a[j];
        var naj1 := if a[j] > a[j + 1] then a[j] else a[j + 1];
        Store(a, j, naj, naj1, n);
        j := j + 1;
      }
      PassEnd(was, Front(a, n), i);
      i := i - 1;
    }
    SiftEnd(was, Front(a, n), i);
    WholeArray(a, n);
  }

  lemma SwappedOrNot(s: seq<int>, j: nat)
    requires j + 1 < |s|
    ensures s[j := s[j]][j + 1 := s[j + 1]] == s
  {
  }

  /** Makes exactly as many swaps as the array had inversions, and n(n-1)/2 comparisons. The swap
      count, which the code prints, is returned as well. */
  method BubbleCount(a: array<int>, n: nat) returns (comparisons: nat, swaps: nat)
    requires n <= a.Length
    modifies a
    ensures Sorted(a[..n]) && multiset(a[..n]) == multiset(old(a[..n]))
    ensures a[n..] == old(a[n..])
    ensures swaps == Inversions(old(a[..n])) && comparisons == Triangle(n)
  {
    hide Sifting, Sorted, Inversions, Triangle, Counted, Front, Back;
    WholeArray(a, n);
    ghost var was, rest := Front(a, n), Back(a, n);
    comparisons, swaps := 0, 0;
    CountStart(was);
    SiftStart(was);
    var i := n - 1;
    while i > 0
      invariant -1 <= i < n && (n > 0 ==> i >= 0) && Sifting(was, Front(a, n), i, 0) && Back(a, n) == rest
      invariant Counted(was, Front(a, n), swaps)
      invariant comparisons + Triangle(i + 1) == Triangle(n)
    {
      TriangleNext(i);
      var j := 0;
      while j < i
        invariant j <= i && Sifting(was, Front(a, n), i, j) && Back(a, n) == rest
        invariant Counted(was, Front(a, n), swaps)
        invariant comparisons + Triangle(i + 1) == Triangle(n) + j
      {
        FrontAt(a, n, j);
        FrontAt(a, n, j + 1);
        SiftStep(was, Front(a, n), i, j);
        comparisons := comparisons + 1;
        if a[j] > a[j + 1] {
          CountStep(was, Front(a, n), swaps, j);
          var t := a[j];
          Store(a, j, a[j + 1], t, n);
          swaps := swaps + 1;
        }
        j := j + 1;
      }
      PassEnd(was, Front(a, n), i);
      i := i - 1;
    }
    SiftEnd(was, Front(a, n), i);
    WholeArray(a, n);
    CountEnd(was, Front(a, n), swaps);
    TriangleNext(0);
  }
}
