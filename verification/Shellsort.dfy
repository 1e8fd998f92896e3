/**
 Shellsort with gaps size/2, size/4, ..., 1, in place on a prefix of an array.

 One pass sorts every gap-th element.  The theorem behind the algorithm is that a pass does not undo
 the passes before it: an array that was g-sorted is still g-sorted after the pass with another gap.
 */
module Shellsort {

  /** Elements `gap` apart, within the first `size`, are in order. */
  ghost predicate GapSorted(s: seq<int>, size: nat, gap: nat)
    requires size <= |s|
  {
    forall k, m :: 0 <= k && m == k + gap && m < size ==> s[k] <= s[m]
  }

  /** How many of s[lo], s[lo + gap], s[lo + 2 * gap], ..., within the first `size`, are at most `t`. */
  ghost function AtMost(s: seq<int>, size: nat, lo: nat, gap: nat, t: int): nat
    requires size <= |s| && gap > 0
    decreases size - lo
  {
    if lo >= size then 0 else (if s[lo] <= t then 1 else 0) + AtMost(s, size, lo + gap, gap, t)
  }

  /** In each residue class modulo `gap`, `a` and `b` hold the same elements, equally often. */
  ghost predicate SameClasses(a: seq<int>, b: seq<int>, size: nat, gap: nat)
    requires size <= |a| == |b| && gap > 0
  {
    forall c: nat, t :: c < gap ==> AtMost(a, size, c, gap, t) == AtMost(b, size, c, gap, t)
  }

  // ---------- Counting in a sorted class ----------

  lemma {:induction false} ClassSorted(s: seq<int>, size: nat, lo: nat, gap: nat, n: nat)
    requires size <= |s| && gap > 0 && GapSorted(s, size, gap)
    requires lo + n * gap < size
    ensures lo < size && s[lo] <= s[lo + n * gap]
    decreases n
  {
    if n > 0 {
      assert lo + gap + (n - 1) * gap == lo + n * gap;
      ClassSorted(s, size, lo + gap, gap, n - 1);
    }
  }

  lemma {:induction false} CountFromBelow(s: seq<int>, size: nat, lo: nat, gap: nat, n: nat)
    requires size <= |s| && gap > 0 && GapSorted(s, size, gap)
    requires lo + n * gap < size
    ensures AtMost(s, size, lo, gap, s[lo + n * gap]) >= n + 1
    decreases n
  {
    ClassSorted(s, size, lo, gap, n);
    if n > 0 {
      assert lo + gap + (n - 1) * gap == lo + n * gap;
      CountFromBelow(s, size, lo + gap, gap, n - 1);
    }
  }

  lemma {:induction false} CountNone(s: seq<int>, size: nat, lo: nat, gap: nat, t: int)
    requires size <= |s| && gap > 0 && GapSorted(s, size, gap)
    requires lo < size ==> s[lo] > t
    ensures AtMost(s, size, lo, gap, t) == 0
    decreases size - lo
  {
    if lo < size {
      CountNone(s, size, lo + gap, gap, t);
    }
  }

  lemma {:induction false} CountFromAbove(s: seq<int>, size: nat, lo: nat, gap: nat, n: nat, t: int)
    requires size <= |s| && gap > 0 && GapSorted(s, size, gap)
    requires lo + n * gap < size && s[lo + n * gap] > t
    ensures AtMost(s, size, lo, gap, t) <= n
    decreases n
  {
    if n == 0 {
      CountNone(s, size, lo, gap, t);
    } else {
      assert lo + gap + (n - 1) * gap == lo + n * gap;
      CountFromAbove(s, size, lo + gap, gap, n - 1, t);
    }
  }

  lemma {:induction false} CountSkip(s: seq<int>, size: nat, lo: nat, gap: nat, n: nat, t: int)
    requires size <= |s| && gap > 0
    ensures AtMost(s, size, lo, gap, t) <= n + AtMost(s, size, lo + n * gap, gap, t)
    decreases n
  {
    if n > 0 {
      assert lo + gap + (n - 1) * gap == lo + n * gap;
      CountSkip(s, size, lo + gap, gap, n - 1, t);
    }
  }

  // When `s` is g-sorted, a class shifted up by g has no more small elements than the class itself.
  lemma {:induction false} CountShifted(s: seq<int>, size: nat, lo: nat, gap: nat, g: nat, t: int)
    requires size <= |s| && gap > 0 && GapSorted(s, size, g)
    ensures AtMost(s, size, lo + g, gap, t) <= AtMost(s, size, lo, gap, t)
    decreases size - lo
  {
    if lo < size {
      assert lo + g < size ==> s[lo] <= s[lo + g];
      CountShifted(s, size, lo + gap, gap, g, t);
    }
  }

  // ---------- A pass keeps the array sorted for every gap it was sorted for ----------

  lemma ClassPositions(k: nat, g: nat, gap: nat) returns (c: nat, n: nat, d: nat, s: nat)
    requires gap > 0
    ensures c < gap && k == c + n * gap
    ensures d < gap && c + g == d + s * gap
    ensures k + g == d + (s + n) * gap
  {
    c, n := k % gap, k / gap;
    d, s := (c + g) % gap, (c + g) / gap;
    assert (s + n) * gap == s * gap + n * gap;
  }

  lemma StaysSortedAt(a: seq<int>, b: seq<int>, size: nat, gap: nat, g: nat, k: nat)
    requires size <= |a| == |b| && gap > 0
    requires SameClasses(a, b, size, gap) && GapSorted(b, size, gap)
    requires GapSorted(a, size, g) && k + g < size
    ensures b[k] <= b[k + g]
  {
    var c, n, d, s := ClassPositions(k, g, gap);
    var t := b[k + g];
    CountFromBelow(b, size, d, gap, s + n);
    CountSkip(a, size, d, gap, s, t);
    CountShifted(a, size, c, gap, g, t);
    if b[k] > t {
      CountFromAbove(b, size, c, gap, n, t);
      assert false;
    }
  }

  lemma StaysSorted(a: seq<int>, b: seq<int>, size: nat, gap: nat, g: nat)
    requires size <= |a| == |b| && gap > 0
    requires SameClasses(a, b, size, gap) && GapSorted(b, size, gap)
    requires GapSorted(a, size, g)
    ensures GapSorted(b, size, g)
  {
    forall k, m | 0 <= k && m == k + g && m < size
      ensures b[k] <= b[m]
    {
      StaysSortedAt(a, b, size, gap, g, k);
    }
  }

  // ---------- Exchanging neighbours in a class ----------

  lemma {:induction false} CountSwapped(a: seq<int>, b: seq<int>, size: nat, j: nat, gap: nat, lo: nat, t: int)
    requires gap > 0 && j + gap < size <= |a|
    requires b == a[j := a[j + gap]][j + gap := a[j]]
    requires lo != j + gap
    ensures AtMost(a, size, lo, gap, t) == AtMost(b, size, lo, gap, t)
    decreases size - lo
  {
    if lo == j {
      CountSwapped(a, b, size, j, gap, lo + gap + gap, t);
    } else if lo < size {
      CountSwapped(a, b, size, j, gap, lo + gap, t);
    }
  }

  /** `b` is `a` with elements exchanged inside residue classes of the first `size` places. */
  ghost predicate Rearranged(a: seq<int>, b: seq<int>, size: nat, gap: nat) {
    && size <= |a| == |b| && gap > 0
    && SameClasses(a, b, size, gap)
    && multiset(a) == multiset(b)
    && a[size..] == b[size..]
  }

  function Swapped(a: seq<int>, j: nat, gap: nat): seq<int>
    requires j + gap < |a|
  {
    a[j := a[j + gap]][j + gap := a[j]]
  }

  lemma SwapRearranges(z: seq<int>, a: seq<int>, size: nat, j: nat, gap: nat)
    requires gap > 0 && j + gap < size <= |a|
    requires Rearranged(z, a, size, gap)
    ensures Rearranged(z, Swapped(a, j, gap), size, gap)
  {
    var b := Swapped(a, j, gap);
    forall c: nat, t | c < gap
      ensures AtMost(z, size, c, gap, t) == AtMost(b, size, c, gap, t)
    {
      CountSwapped(a, b, size, j, gap, c, t);
    }
  }

  // Everything up to `i` is in order but for the element at j + gap, which may have to sink further.
  ghost predicate Sinking(s: seq<int>, gap: nat, i: nat, j: int) {
    && i < |s| && 0 <= j + gap <= i
    && (forall k, m :: 0 <= k && k != j && m == k + gap && m <= i ==> s[k] <= s[m])
    && (j >= 0 && j + gap + gap <= i ==> s[j] <= s[j + gap + gap])
  }

  lemma SinkStep(s: seq<int>, gap: nat, i: nat, j: nat)
    requires gap > 0 && Sinking(s, gap, i, j) && s[j] > s[j + gap]
    ensures Sinking(Swapped(s, j, gap), gap, i, j - gap)
  {
  }

  // ---------- The program ----------

  // The innermost loop: a[i] sinks through its class to its place.
  method Sink(a: array<int>, size: nat, gap: nat, i: nat)
    requires 0 < gap <= i < size <= a.Length
    requires GapSorted(a[..], i, gap)
    modifies a
    ensures GapSorted(a[..], i + 1, gap)
    ensures Rearranged(old(a[..]), a[..], size, gap)
  {
    hide *;
    ghost var was := a[..];
    ghost var now := was;
    var j: int := i - gap;
    StartSinking(was, size, gap, i);
    while j >= 0 && a[j] > a[j + gap]
      invariant 0 <= j + gap <= i && a[..] == now
      invariant Sinking(now, gap, i, j) && Rearranged(was, now, size, gap)
    {
      assert a[j] == now[j] && a[j + gap] == now[j + gap];
      SinkStep(now, gap, i, j);
      SwapRearranges(was, now, size, j, gap);
      Exchange(a, j, gap);
      now := Swapped(now, j, gap);
      j := j - gap;
    }
    assert j >= 0 ==> a[j] == now[j] && a[j + gap] == now[j + gap];
    Sunk(now, gap, i, j);
  }

  lemma StartSinking(s: seq<int>, size: nat, gap: nat, i: nat)
    requires 0 < gap <= i < size <= |s| && GapSorted(s, i, gap)
    ensures Sinking(s, gap, i, i - gap) && Rearranged(s, s, size, gap)
  {
  }

  lemma Sunk(s: seq<int>, gap: nat, i: nat, j: int)
    requires gap > 0 && Sinking(s, gap, i, j) && (j >= 0 ==> s[j] <= s[j + gap])
    ensures GapSorted(s, i + 1, gap)
  {
  }

  method Exchange(a: array<int>, j: nat, gap: nat)
    requires j + gap < a.Length
    modifies a
    ensures a[..] == Swapped(old(a[..]), j, gap)
  {
    var temp := a[j];
    a[j] := a[j + gap];
    a[j + gap] := temp;
  }

  /** One pass: sorts for `gap` and keeps whatever order there was for any other gap. */
  method GapPass(a: array<int>, size: nat, gap: nat)
    requires 0 < gap <= size <= a.Length
    modifies a
    ensures GapSorted(a[..], size, gap)
    ensures Rearranged(old(a[..]), a[..], size, gap)
    ensures forall g: nat :: GapSorted(old(a[..]), size, g) ==> GapSorted(a[..], size, g)
  {
    ghost var was := a[..];
    var i: nat := gap;
    while i < size
      invariant gap <= i <= size
      invariant GapSorted(a[..], i, gap)
      invariant Rearranged(was, a[..], size, gap)
    {
      Sink(a, size, gap, i);
      i := i + 1;
    }
    forall g: nat | GapSorted(was, size, g)
      ensures GapSorted(a[..], size, g)
    {
      StaysSorted(was, a[..], size, gap, g);
    }
  }

  /** The gaps of the passes from the one with `gap` on: gap, gap / 2, ..., 1. */
  ghost function Gaps(gap: nat): set<nat> {
    if gap == 0 then {} else {gap} + Gaps(gap / 2)
  }

  method Sort(a: array<int>, size: nat)
    requires size <= a.Length
    modifies a
    ensures forall i, j :: 0 <= i < j < size ==> a[i] <= a[j]
    ensures multiset(a[..]) == multiset(old(a[..])) && a[size..] == old(a[size..])
  {
    var gap: nat := size / 2;
    ghost var gaps := Gaps(gap);
    while gap > 0
      invariant gap <= size
      invariant Gaps(gap) <= gaps
      invariant forall g :: g in gaps - Gaps(gap) ==> GapSorted(a[..], size, g)
      invariant multiset(a[..]) == multiset(old(a[..])) && a[size..] == old(a[size..])
    {
      GapPass(a, size, gap);
      gap := gap / 2;
    }
    if size > 1 {
      OneIsAGap(size / 2);
      OneSorted(a[..], size);
    }
  }

  lemma {:induction false} OneIsAGap(gap: nat)
    requires gap > 0
    ensures 1 in Gaps(gap)
  {
    if gap > 1 {
      OneIsAGap(gap / 2);
    }
  }

  lemma OneSorted(s: seq<int>, size: nat)
    requires size <= |s| && GapSorted(s, size, 1)
    ensures forall i, j :: 0 <= i < j < size ==> s[i] <= s[j]
  {
    forall i, j | 0 <= i < j < size
      ensures s[i] <= s[j]
    {
      ClassSorted(s, size, i, 1, j - i);
    }
  }
}
