/** qsort.c, which is a comb sort: it ends, and leaves a sorted permutation. */
module CombSort {

  /** A comparison that orders all elements, some of them perhaps equally. */
  ghost predicate TotalPreorder<T(!new)>(cmp: (T, T) -> int) {
    && (forall x, y :: cmp(x, y) <= 0 || cmp(y, x) <= 0)
    && (forall x, y, z :: cmp(x, y) <= 0 && cmp(y, z) <= 0 ==> cmp(x, z) <= 0)
  }

  ghost predicate Sorted<T>(s: seq<T>, cmp: (T, T) -> int) {
    forall i, j :: 0 <= i < j < |s| ==> cmp(s[i], s[j]) <= 0
  }

  // ---------------------------------------------------------------- the gap

  function NewGap(gap: nat): nat {
    var g := gap * 10 / 13;
    if g == 9 || g == 10 then 11 else if g < 1 then 1 else g
  }

  /** The gap falls until it is 1, and stays within the array: to 11 from 12 up to 15, to ten thirteenths from any other. */
  lemma GapFalls(gap: nat)
    requires gap > 0
    ensures 1 <= NewGap(gap) <= gap && (gap > 1 ==> NewGap(gap) < gap)
    ensures NewGap(gap) == 11 <==> 12 <= gap <= 15
    ensures gap > 1 && !(12 <= gap <= 15) ==> 13 * NewGap(gap) <= 10 * gap < 13 * (NewGap(gap) + 1)
  {}

  // ---------------------------------------------------------------- inversions

  /** How many elements of s must come before x. */
  ghost function Smaller<T>(s: seq<T>, x: T, cmp: (T, T) -> int): nat {
    if s == [] then 0 else (if cmp(x, s[0]) > 0 then 1 else 0) + Smaller(s[1..], x, cmp)
  }

  /** How many pairs are in the wrong order. */
  ghost function Inversions<T>(s: seq<T>, cmp: (T, T) -> int): nat {
    if s == [] then 0 else Smaller(s[1..], s[0], cmp) + Inversions(s[1..], cmp)
  }

  function Swapped<T>(s: seq<T>, i: nat, j: nat): seq<T>
    requires i < |s| && j < |s|
  {
    s[i := s[j]][j := s[i]]
  }

  lemma SwapTail<T>(s: seq<T>, i: nat)
    requires 0 < i && i + 1 < |s|
    ensures Swapped(s, i, i + 1)[1..] == Swapped(s[1..], i - 1, i) && Swapped(s, i, i + 1)[0] == s[0]
  {}

  lemma SwapHead<T>(s: seq<T>)
    requires |s| > 1
    ensures Swapped(s, 0, 1)[0] == s[1] && Swapped(s, 0, 1)[1..][0] == s[0] && Swapped(s, 0, 1)[1..][1..] == s[1..][1..]
  {}

  lemma {:induction false} SmallerSwap<T>(s: seq<T>, i: nat, x: T, cmp: (T, T) -> int)
    requires i + 1 < |s|
    ensures Smaller(Swapped(s, i, i + 1), x, cmp) == Smaller(s, x, cmp)
  {
    if i > 0 {
      SwapTail(s, i);
      SmallerSwap(s[1..], i - 1, x, cmp);
    } else {
      SwapHead(s);
    }
  }

  /** Exchanging neighbours in the wrong order takes one inversion away. */
  lemma {:induction false} SwapNeighbours<T(!new)>(s: seq<T>, i: nat, cmp: (T, T) -> int)
    requires TotalPreorder(cmp) && i + 1 < |s| && cmp(s[i], s[i + 1]) > 0
    ensures Inversions(Swapped(s, i, i + 1), cmp) + 1 == Inversions(s, cmp)
  {
    if i > 0 {
      SwapTail(s, i);
      SwapNeighbours(s[1..], i - 1, cmp);
      SmallerSwap(s[1..], i - 1, s[0], cmp);
    } else {
      SwapHead(s);
      assert cmp(s[1], s[0]) <= 0;
    }
  }

  lemma SwapMultiset<T>(s: seq<T>, i: nat, j: nat)
    requires i < |s| && j < |s|
    ensures multiset(Swapped(s, i, j)) == multiset(s)
  {}

  // ---------------------------------------------------------------- the sort

  lemma {:induction false} NeighboursSorted<T(!new)>(s: seq<T>, cmp: (T, T) -> int, i: nat, j: nat)
    requires TotalPreorder(cmp) && i < j < |s| && forall k :: 0 <= k < |s| - 1 ==> cmp(s[k], s[k + 1]) <= 0
    ensures cmp(s[i], s[j]) <= 0
    decreases j - i
  {
    assert cmp(s[i], s[i + 1]) <= 0;
    if i + 1 < j { NeighboursSorted(s, cmp, i + 1, j); }
  }

  /** Two elements in the wrong order are exchanged. */
  method Exchange<T(!new)>(a: array<T>, i: nat, j: nat, cmp: (T, T) -> int)
    requires TotalPreorder(cmp) && i < j < a.Length && cmp(a[i], a[j]) > 0
    modifies a
    ensures multiset(a[..]) == multiset(old(a[..])) && a[..] == Swapped(old(a[..]), i, j)
    ensures j == i + 1 ==> Inversions(a[..], cmp) + 1 == Inversions(old(a[..]), cmp)
  {
    ghost var s := a[..];
    SwapMultiset(s, i, j);
    if j == i + 1 { SwapNeighbours(s, i, cmp); }
    a[i], a[j] := a[j], a[i];
    assert a[..] == Swapped(s, i, j);
  }

  /** One pass: elements gap apart that are in the wrong order are exchanged. */
  method Pass<T(!new)>(a: array<T>, gap: nat, cmp: (T, T) -> int) returns (swapped: bool)
    requires TotalPreorder(cmp) && 1 <= gap <= a.Length
    modifies a
    ensures multiset(a[..]) == multiset(old(a[..]))
    ensures !swapped ==> a[..] == old(a[..]) && forall i :: 0 <= i < a.Length - gap ==> cmp(a[i], a[i + gap]) <= 0
    ensures swapped && gap == 1 ==> Inversions(a[..], cmp) < Inversions(old(a[..]), cmp)
  {
    swapped := false;
    var i := 0;
    while i < a.Length - gap
      invariant i <= a.Length - gap && multiset(a[..]) == multiset(old(a[..]))
      invariant !swapped ==> a[..] == old(a[..]) && forall k :: 0 <= k < i ==> cmp(a[k], a[k + gap]) <= 0
      invariant gap == 1 ==>
        Inversions(a[..], cmp) <= Inversions(old(a[..]), cmp) - if swapped then 1 else 0
    {
      var j := i + gap;
      if cmp(a[i], a[j]) > 0 {
        Exchange(a, i, j, cmp);
        swapped := true;
      }
      i := i + 1;
    }
  }

  /** qsort: a sorted permutation, for every comparison that orders all elements. */
  method Sort<T(!new)>(a: array<T>, cmp: (T, T) -> int)
    requires TotalPreorder(cmp)
    modifies a
    ensures Sorted(a[..], cmp) && multiset(a[..]) == multiset(old(a[..]))
  {
    if a.Length == 0 { return; }
    var gap, again := a.Length, true;
    while again
      invariant 1 <= gap <= a.Length && multiset(a[..]) == multiset(old(a[..]))
      invariant !again ==> gap == 1 && forall i :: 0 <= i < a.Length - 1 ==> cmp(a[i], a[i + 1]) <= 0
      decreases gap, Inversions(a[..], cmp), again
    {
      GapFalls(gap);
      gap := NewGap(gap);
      var swapped := Pass(a, gap, cmp);
      again := gap > 1 || swapped;
    }
    forall i, j | 0 <= i < j < a.Length ensures cmp(a[..][i], a[..][j]) <= 0 { NeighboursSorted(a[..], cmp, i, j); }
  }
}
