/** The indirect Combsort11 of integers (`csorte`, `ipsorti`): it orders indices, not the
    list. */
module Combsort {
  import opened Words

  // ----- The gap -----

  /** One step of the gap: divided by 1.3, at least 1, and 11 in place of 9 and 10. */
  function NextGap(gap: nat): (next: nat)
    ensures next >= 1
  {
    var shrunk := (gap as real / 1.3).Floor;
    if shrunk == 0 then 1 else if shrunk == 9 || shrunk == 10 then 11 else Positive(shrunk)
  }

  function Positive(x: int): nat
  {
    if x < 1 then 1 else x
  }

  lemma ShrunkIs(gap: nat)
    ensures (gap as real / 1.3).Floor == 10 * gap / 13
  {
    var q := 10 * gap / 13;
    assert 13 * q <= 10 * gap < 13 * q + 13;
    var x := gap as real / 1.3;
    assert 1.3 * x == gap as real;
    assert q as real <= x < (q + 1) as real;
  }

  /** The gap decreases until it is 1, the 9 and 10 rule notwithstanding, and then stays. */
  lemma GapDecreases(gap: nat)
    ensures gap >= 2 ==> 1 <= NextGap(gap) < gap
    ensures gap <= 1 ==> NextGap(gap) == 1
  {
    ShrunkIs(gap);
  }

  /** In whole numbers: ten thirteenths of the gap, but 11 for gaps from 12 to 14 and 1 below 2. */
  lemma GapIs(gap: nat)
    ensures NextGap(gap) == if gap < 2 then 1 else if 12 <= gap <= 14 then 11 else 10 * gap / 13
  {
    ShrunkIs(gap);
  }

  // ----- Inversions -----

  /** Elements of s below x. */
  function CountBelow(s: seq<int>, x: int): nat
  {
    if s == [] then 0 else (if s[0] < x then 1 else 0) + CountBelow(s[1..], x)
  }

  function Inversions(s: seq<int>): nat
  {
    if s == [] then 0 else CountBelow(s[1..], s[0]) + Inversions(s[1..])
  }

  function Swapped(s: seq<int>, i: nat, j: nat): seq<int>
    requires i < |s| && j < |s|
  {
    s[i := s[j]][j := s[i]]
  }

  lemma {:induction false} CountSwapped(s: seq<int>, i: nat, x: int)
    requires i + 1 < |s|
    ensures CountBelow(Swapped(s, i, i + 1), x) == CountBelow(s, x)
  {
    var t := Swapped(s, i, i + 1);
    if i == 0 {
      assert t[1..][1..] == s[1..][1..];
    } else {
      CountSwapped(s[1..], i - 1, x);
      assert t[1..] == Swapped(s[1..], i - 1, i);
    }
  }

  /** Exchanging neighbours that are out of order removes one inversion. */
  lemma {:induction false} InversionRemoved(s: seq<int>, i: nat)
    requires i + 1 < |s| && s[i] > s[i + 1]
    ensures Inversions(Swapped(s, i, i + 1)) + 1 == Inversions(s)
  {
    var t := Swapped(s, i, i + 1);
    if i == 0 {
      assert t[1..][1..] == s[1..][1..];
    } else {
      InversionRemoved(s[1..], i - 1);
      CountSwapped(s[1..], i - 1, s[0]);
      assert t[1..] == Swapped(s[1..], i - 1, i);
    }
  }

  // ----- Indices -----

  /** The numbers from 1 to n. */
  function Iota(n: nat): (s: seq<int>)
    ensures |s| == n && forall k | 0 <= k < n :: s[k] == k + 1
  {
    seq(n, k => k + 1)
  }

  ghost predicate IsPermutation(s: seq<int>)
  {
    multiset(s) == multiset(Iota(|s|))
  }

  lemma PermutationRange(s: seq<int>)
    requires IsPermutation(s)
    ensures forall k | 0 <= k < |s| :: 1 <= s[k] <= |s|
  {
    forall k | 0 <= k < |s| ensures 1 <= s[k] <= |s| {
      assert s[k] in multiset(s);
      assert s[k] in Iota(|s|);
    }
  }

  lemma PermutationSwapped(s: seq<int>, i: nat, j: nat)
    requires IsPermutation(s) && i < |s| && j < |s|
    ensures IsPermutation(Swapped(s, i, j))
  {
    assert multiset(Swapped(s, i, j)) == multiset(s);
  }

  function KeyOf(list: seq<int>, x: int): int
  {
    if 1 <= x <= |list| then list[x - 1] else 0
  }

  /** The values in the order of the indices. */
  ghost function Keys(list: seq<int>, s: seq<int>): (keys: seq<int>)
    ensures |keys| == |s| && forall k | 0 <= k < |s| :: keys[k] == KeyOf(list, s[k])
  {
    seq(|s|, k requires 0 <= k < |s| => KeyOf(list, s[k]))
  }

  /** No pair at that distance is out of order, up to position n. */
  ghost predicate InOrder(keys: seq<int>, gap: nat, n: int)
  {
    forall k: nat | k < n && k + gap < |keys| :: keys[k] <= keys[k + gap]
  }

  ghost predicate Sorted(keys: seq<int>)
  {
    forall a, b | 0 <= a < b < |keys| :: keys[a] <= keys[b]
  }

  lemma {:induction false} SortedByNeighbours(keys: seq<int>, a: nat, b: nat)
    requires a < b < |keys| && forall k | 0 <= k < |keys| - 1 :: keys[k] <= keys[k + 1]
    ensures keys[a] <= keys[b]
    decreases b
  {
    if a + 1 < b {
      SortedByNeighbours(keys, a, b - 1);
      assert keys[b - 1] <= keys[b - 1 + 1];
    } else {
      assert keys[a] <= keys[a + 1];
    }
  }

  /** The exchange by three exclusive ors. */
  method SwapIndices(index: array<int>, i: nat, j: nat)
    requires i < index.Length && j < index.Length && i != j && index[i] >= 0 && index[j] >= 0
    modifies index
    ensures index[..] == Swapped(old(index[..]), i, j)
  {
    hide Xor;
    XorCancels(index[i], index[j]);
    index[i] := Xor(index[i], index[j]);
    index[j] := Xor(index[i], index[j]);
    XorCommutes(index[i], index[j]);
    index[i] := Xor(index[i], index[j]);
  }

  /** Exchanges of neighbours count as inversions removed. */
  ghost predicate InversionsLeft(list: seq<int>, before: seq<int>, after: seq<int>, gap: nat, switches: nat)
  {
    gap == 1 ==> Inversions(Keys(list, after)) + switches == Inversions(Keys(list, before))
  }

  lemma OneRemoved(list: seq<int>, first: seq<int>, s: seq<int>, i: nat, gap: nat, switches: nat)
    requires gap >= 1 && i + gap < |s| && KeyOf(list, s[i]) > KeyOf(list, s[i + gap])
    requires InversionsLeft(list, first, s, gap, switches)
    ensures InversionsLeft(list, first, Swapped(s, i, i + gap), gap, switches + 1)
  {
    if gap == 1 {
      InversionRemoved(Keys(list, s), i);
      assert Keys(list, Swapped(s, i, i + 1)) == Swapped(Keys(list, s), i, i + 1);
    }
  }

  /** One pass with a gap: the number of exchanges.  A pass without any leaves no pair at that
      distance out of order; a pass with gap 1 removes an inversion an exchange. */
  method Pass(list: array<int>, index: array<int>, size: nat, gap: nat) returns (switches: nat)
    requires list != index && size <= index.Length && size <= list.Length && gap >= 1 && IsPermutation(index[..size])
    modifies index
    ensures IsPermutation(index[..size]) && index[size..] == old(index[size..])
    ensures switches == 0 ==> InOrder(Keys(list[..], index[..size]), gap, size)
    ensures size <= gap ==> switches == 0
    ensures InversionsLeft(list[..], old(index[..size]), index[..size], gap, switches)
  {
    hide IsPermutation, Inversions, Swapped;
    PermutationRange(index[..size]);
    switches := 0;
    var top := size as int - gap;
    var i := 0;
    while i < top
      invariant 0 <= i && (i <= top || i == 0) && (i == 0 ==> switches == 0) && IsPermutation(index[..size])
      invariant index[size..] == old(index[size..])
      invariant forall k | 0 <= k < size :: 1 <= index[k] <= size
      invariant switches == 0 ==> InOrder(Keys(list[..], index[..size]), gap, i)
      invariant InversionsLeft(list[..], old(index[..size]), index[..size], gap, switches)
    {
      var j := i + gap;
      if list[index[i] - 1] > list[index[j] - 1] {
        Exchange(list, index, size, i, gap, switches, old(index[..size]));
        switches := switches + 1;
      }
      i := i + 1;
    }
  }

  method Exchange(list: array<int>, index: array<int>, size: nat, i: nat, gap: nat, ghost switches: nat,
                  ghost first: seq<int>)
    requires list != index && size <= index.Length && size <= list.Length && gap >= 1 && i + gap < size
    requires IsPermutation(index[..size]) && forall k | 0 <= k < size :: 1 <= index[k] <= size
    requires list[index[i] - 1] > list[index[i + gap] - 1]
    requires InversionsLeft(list[..], first, index[..size], gap, switches)
    modifies index
    ensures IsPermutation(index[..size]) && index[size..] == old(index[size..])
    ensures forall k | 0 <= k < size :: 1 <= index[k] <= size
    ensures InversionsLeft(list[..], first, index[..size], gap, switches + 1)
  {
    hide IsPermutation, Inversions, InversionsLeft;
    ghost var before := index[..size];
    PermutationSwapped(before, i, i + gap);
    OneRemoved(list[..], first, before, i, gap, switches);
    SwapIndices(index, i, i + gap);
    assert index[..size] == Swapped(before, i, i + gap);
    PermutationRange(index[..size]);
  }

  /** `csorte`: orders the indices, that it first sets to 1, 2, ... when the first one is not
      positive. */
  method Csorte(list: array<int>, index: array<int>, size: nat)
    requires list != index && 1 <= index.Length && size <= index.Length && size <= list.Length
    requires index[0] <= 0 || IsPermutation(index[..size])
    modifies index
    ensures IsPermutation(index[..size]) && Sorted(Keys(list[..], index[..size])) && index[size..] == old(index[size..])
  {
    hide IsPermutation, Inversions, InOrder, NextGap;
    if index[0] <= 0 { Initialize(index, size); }
    var gap, go := size, true;
    while go
      invariant IsPermutation(index[..size]) && index[size..] == old(index[size..])
      invariant gap == 0 ==> size == 0
      invariant !go ==> Sorted(Keys(list[..], index[..size]))
      decreases go, gap, Inversions(Keys(list[..], index[..size]))
    {
      ghost var before := index[..size];
      GapDecreases(gap);
      gap := NextGap(gap);
      var switches := Pass(list, index, size, gap);
      SortedAtLast(Keys(list[..], index[..size]));
      assert gap == 1 ==> InversionsLeft(list[..], before, index[..size], 1, switches);
      go := switches != 0 || gap > 1;
    }
  }

  /** `ipsorti` */
  method Ipsorti(index: array<int>, list: array<int>, size: nat)
    requires list != index && 1 <= index.Length && size <= index.Length && size <= list.Length
    modifies index
    ensures IsPermutation(index[..size]) && Sorted(Keys(list[..], index[..size]))
  {
    index[0] := -1;
    Csorte(list, index, size);
  }

  method Initialize(index: array<int>, size: nat)
    requires size <= index.Length
    modifies index
    ensures IsPermutation(index[..size]) && index[size..] == old(index[size..])
  {
    for i := 0 to size
      invariant forall k | 0 <= k < i :: index[k] == k + 1
      invariant index[size..] == old(index[size..])
    {
      index[i] := i + 1;
    }
    assert index[..size] == Iota(size);
  }

  lemma SortedAtLast(keys: seq<int>)
    ensures InOrder(keys, 1, |keys|) ==> Sorted(keys)
  {
    if InOrder(keys, 1, |keys|) {
      assert forall k: nat | k < |keys| - 1 :: keys[k] <= keys[k + 1];
      forall a, b | 0 <= a < b < |keys| ensures keys[a] <= keys[b] {
        SortedByNeighbours(keys, a, b);
      }
    }
  }
}
