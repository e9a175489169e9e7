/**
 * The cocktail shaker sort of lab 2 (lab2/lab_2.py, `shake_sort`): passes that
 * alternate forward over `range(len(arr) - 1)` and backward over its reverse,
 * exchanging neighbours that are out of order, until a pass exchanges nothing.
 *
 * Elements are compared through `key`, so that stability can be stated; the
 * program sorts numbers, which is the identity key.
 */
module ShakerSort {

  /** `s` with positions i and i + 1 exchanged. */
  function SwapAdjacent<T>(s: seq<T>, i: nat): seq<T>
    requires i + 1 < |s|
  {
    s[i := s[i + 1]][i + 1 := s[i]]
  }

  /** Non-decreasing by key. */
  ghost predicate SortedBy<T>(key: T -> real, s: seq<T>)
  {
    forall p, q :: 0 <= p < q < |s| ==> key(s[p]) <= key(s[q])
  }

  /** How many elements of `s` have a smaller key than `x`. */
  function CountBelow<T>(key: T -> real, x: T, s: seq<T>): nat
  {
    if s == [] then 0
    else (if key(x) > key(s[0]) then 1 else 0) + CountBelow(key, x, s[1..])
  }

  /** The number of pairs p < q with key(s[p]) > key(s[q]). */
  function Inversions<T>(key: T -> real, s: seq<T>): nat
  {
    if s == [] then 0
    else CountBelow(key, s[0], s[1..]) + Inversions(key, s[1..])
  }

  /** The elements of `s` whose key is k, in their order in `s`. */
  function WithKey<T>(key: T -> real, s: seq<T>, k: real): seq<T>
  {
    if s == [] then []
    else (if key(s[0]) == k then [s[0]] else []) + WithKey(key, s[1..], k)
  }

  /** Stability: elements of equal key appear in the same relative order in s and t. */
  ghost predicate SameKeyOrder<T>(key: T -> real, s: seq<T>, t: seq<T>)
  {
    forall k :: WithKey(key, s, k) == WithKey(key, t, k)
  }

  /** Exchanging two neighbours does not change how many elements lie below x. */
  lemma {:induction false} CountBelowSwap<T>(key: T -> real, x: T, s: seq<T>, i: nat)
    requires i + 1 < |s|
    ensures CountBelow(key, x, SwapAdjacent(s, i)) == CountBelow(key, x, s)
    decreases i
  {
    var t := SwapAdjacent(s, i);
    if i == 0 {
      assert t[1..][1..] == s[1..][1..];
      assert t[0] == s[1] && t[1..][0] == s[0];
    } else {
      assert t[0] == s[0];
      assert t[1..] == SwapAdjacent(s[1..], i - 1);
      CountBelowSwap(key, x, s[1..], i - 1);
    }
  }

  /** Exchanging an out-of-order pair of neighbours removes exactly one inversion. */
  lemma {:induction false} SwapRemovesOneInversion<T>(key: T -> real, s: seq<T>, i: nat)
    requires i + 1 < |s| && key(s[i]) > key(s[i + 1])
    ensures Inversions(key, SwapAdjacent(s, i)) == Inversions(key, s) - 1
    decreases i
  {
    var t := SwapAdjacent(s, i);
    if i == 0 {
      var r := s[2..];
      assert s[1..] == [s[1]] + r && s[1..][1..] == r;
      assert t[1..] == [s[0]] + r && t[1..][1..] == r;
      assert CountBelow(key, s[0], s[1..]) == 1 + CountBelow(key, s[0], r);
      assert CountBelow(key, s[1], t[1..]) == CountBelow(key, s[1], r);
    } else {
      assert t[0] == s[0];
      assert t[1..] == SwapAdjacent(s[1..], i - 1);
      CountBelowSwap(key, s[0], s[1..], i - 1);
      SwapRemovesOneInversion(key, s[1..], i - 1);
    }
  }

  /** Exchanging two neighbours of different keys keeps the order within every key. */
  lemma {:induction false} SwapKeepsKeyOrder<T>(key: T -> real, s: seq<T>, i: nat, k: real)
    requires i + 1 < |s| && key(s[i]) != key(s[i + 1])
    ensures WithKey(key, SwapAdjacent(s, i), k) == WithKey(key, s, k)
    decreases i
  {
    var t := SwapAdjacent(s, i);
    if i == 0 {
      var r := s[2..];
      assert s[1..] == [s[1]] + r && s[1..][1..] == r;
      assert t[1..] == [s[0]] + r && t[1..][1..] == r;
    } else {
      assert t[0] == s[0];
      assert t[1..] == SwapAdjacent(s[1..], i - 1);
      SwapKeepsKeyOrder(key, s[1..], i - 1, k);
    }
  }

  /** No element of s lies below x exactly when x is at most every element. */
  lemma {:induction false} CountBelowZero<T>(key: T -> real, x: T, s: seq<T>)
    ensures CountBelow(key, x, s) == 0 <==> forall j :: 0 <= j < |s| ==> key(x) <= key(s[j])
  {
    if s != [] {
      CountBelowZero(key, x, s[1..]);
      assert forall j :: 1 <= j < |s| ==> s[j] == s[1..][j - 1];
    }
  }

  /** A sequence is sorted exactly when it has no inversion. */
  lemma {:induction false} SortedIffNoInversions<T>(key: T -> real, s: seq<T>)
    ensures SortedBy(key, s) <==> Inversions(key, s) == 0
  {
    if s != [] {
      SortedIffNoInversions(key, s[1..]);
      CountBelowZero(key, s[0], s[1..]);
      assert forall j :: 1 <= j < |s| ==> s[j] == s[1..][j - 1];
      if Inversions(key, s) == 0 {
        forall p, q | 0 <= p < q < |s|
          ensures key(s[p]) <= key(s[q])
        {
          if p > 0 {
            assert s[1..][p - 1] == s[p] && s[1..][q - 1] == s[q];
          }
        }
      }
    }
  }

  /** s[i] has the greatest key of s[..i+1]. */
  ghost predicate MaxUpTo<T>(key: T -> real, s: seq<T>, i: nat)
    requires i < |s|
  {
    forall p :: 0 <= p <= i ==> key(s[p]) <= key(s[i])
  }

  /** s[i] has the least key of s[i..]. */
  ghost predicate MinFrom<T>(key: T -> real, s: seq<T>, i: nat)
    requires i < |s|
  {
    forall p :: i <= p < |s| ==> key(s[i]) <= key(s[p])
  }

  /** A compare-and-exchange at i carries the greatest key of s[..i+2] to position i + 1. */
  lemma CarryMaxStep<T>(key: T -> real, s: seq<T>, t: seq<T>, i: nat)
    requires i + 1 < |s| && MaxUpTo(key, s, i)
    requires t == if key(s[i]) > key(s[i + 1]) then SwapAdjacent(s, i) else s
    ensures MaxUpTo(key, t, i + 1)
  {
  }

  /** A compare-and-exchange at i carries the least key of s[i..] to position i. */
  lemma CarryMinStep<T>(key: T -> real, s: seq<T>, t: seq<T>, i: nat)
    requires i + 1 < |s| && MinFrom(key, s, i + 1)
    requires t == if key(s[i]) > key(s[i + 1]) then SwapAdjacent(s, i) else s
    ensures MinFrom(key, t, i)
  {
  }

  /** `arr[i], arr[i+1] = arr[i+1], arr[i]` on an out-of-order pair. */
  method ExchangeOutOfOrder<T>(a: array<T>, key: T -> real, i: nat)
    requires i + 1 < a.Length && key(a[i]) > key(a[i + 1])
    modifies a
    ensures a[..] == SwapAdjacent(old(a[..]), i)
    ensures multiset(a[..]) == multiset(old(a[..]))
    ensures SameKeyOrder(key, a[..], old(a[..]))
    ensures Inversions(key, a[..]) == Inversions(key, old(a[..])) - 1
  {
    ghost var before := a[..];
    SwapRemovesOneInversion(key, before, i);
    forall k {
      SwapKeepsKeyOrder(key, before, i, k);
    }
    a[i], a[i + 1] := a[i + 1], a[i];
    assert a[..] == SwapAdjacent(before, i);
  }

  /**
   * One forward pass `for i in range(len(arr) - 1)`: it swaps exactly when the
   * array was not sorted, and then removes at least one inversion; a pass
   * that swaps nothing leaves the array as it was. Either way it carries an
   * element of greatest key to the last position.
   */
  method ForwardPass<T>(a: array<T>, key: T -> real) returns (swapped: bool)
    modifies a
    ensures multiset(a[..]) == multiset(old(a[..]))
    ensures SameKeyOrder(key, a[..], old(a[..]))
    ensures swapped <==> !SortedBy(key, old(a[..]))
    ensures swapped ==> Inversions(key, a[..]) < Inversions(key, old(a[..]))
    ensures !swapped ==> a[..] == old(a[..])
    ensures a.Length > 0 ==> forall p :: 0 <= p < a.Length ==> key(a[p]) <= key(a[a.Length - 1])
  {
    swapped := false;
    var i := 0;
    while i + 1 < a.Length
      invariant i == 0 || i < a.Length
      invariant multiset(a[..]) == multiset(old(a[..]))
      invariant SameKeyOrder(key, a[..], old(a[..]))
      invariant Inversions(key, a[..]) <= Inversions(key, old(a[..]))
      invariant swapped ==> Inversions(key, a[..]) < Inversions(key, old(a[..]))
      invariant !swapped ==> a[..] == old(a[..])
      invariant !swapped ==> forall p, q :: 0 <= p < q <= i && q < a.Length ==> key(a[p]) <= key(a[q])
      invariant i < a.Length ==> MaxUpTo(key, a[..], i)
    {
      ghost var before := a[..];
      if key(a[i]) > key(a[i + 1]) {
        ExchangeOutOfOrder(a, key, i);
        swapped := true;
      }
      CarryMaxStep(key, before, a[..], i);
      i := i + 1;
    }
    SortedIffNoInversions(key, old(a[..]));
  }

  /**
   * One backward pass `for i in reversed(range(len(arr) - 1))`, with the same
   * guarantees as the forward pass, except that it carries an element of
   * least key to the first position.
   */
  method BackwardPass<T>(a: array<T>, key: T -> real) returns (swapped: bool)
    modifies a
    ensures multiset(a[..]) == multiset(old(a[..]))
    ensures SameKeyOrder(key, a[..], old(a[..]))
    ensures swapped <==> !SortedBy(key, old(a[..]))
    ensures swapped ==> Inversions(key, a[..]) < Inversions(key, old(a[..]))
    ensures !swapped ==> a[..] == old(a[..])
    ensures a.Length > 0 ==> forall p :: 0 <= p < a.Length ==> key(a[0]) <= key(a[p])
  {
    swapped := false;
    var i := if a.Length == 0 then 0 else a.Length - 1;
    while i > 0
      invariant 0 <= i && (i == 0 || i < a.Length)
      invariant multiset(a[..]) == multiset(old(a[..]))
      invariant SameKeyOrder(key, a[..], old(a[..]))
      invariant Inversions(key, a[..]) <= Inversions(key, old(a[..]))
      invariant swapped ==> Inversions(key, a[..]) < Inversions(key, old(a[..]))
      invariant !swapped ==> a[..] == old(a[..])
      invariant !swapped ==> forall p, q :: i <= p < q < a.Length ==> key(a[p]) <= key(a[q])
      invariant i < a.Length ==> MinFrom(key, a[..], i)
    {
      i := i - 1;
      ghost var before := a[..];
      if key(a[i]) > key(a[i + 1]) {
        ExchangeOutOfOrder(a, key, i);
        swapped := true;
      }
      CarryMinStep(key, before, a[..], i);
    }
    SortedIffNoInversions(key, old(a[..]));
  }

  /**
   * shake_sort: alternate forward and backward passes until one of them swaps
   * nothing. The result is sorted, a permutation of the input, and stable; a
   * sorted input (in particular one of length 0 or 1) is left as it is after
   * the first forward pass. Every pass that goes on to the next one removed
   * at least one inversion, which bounds the number of rounds.
   */
  method ShakeSort<T>(a: array<T>, key: T -> real)
    modifies a
    ensures SortedBy(key, a[..])
    ensures multiset(a[..]) == multiset(old(a[..]))
    ensures SameKeyOrder(key, a[..], old(a[..]))
    ensures SortedBy(key, old(a[..])) ==> a[..] == old(a[..])
  {
    while true
      invariant multiset(a[..]) == multiset(old(a[..]))
      invariant SameKeyOrder(key, a[..], old(a[..]))
      invariant SortedBy(key, old(a[..])) ==> a[..] == old(a[..])
      decreases Inversions(key, a[..])
    {
      var swapped := ForwardPass(a, key);
      if !swapped {
        return;
      }
      swapped := BackwardPass(a, key);
      if !swapped {
        return;
      }
    }
  }
}
