/** The in-place quicksort that puts the buffer addresses in order. */
module QuickSort {

  predicate SortedFrom(s: seq<nat>, lo: nat, hi: nat)
    requires hi <= |s|
  {
    forall a, b :: lo <= a < b < hi ==> s[a] <= s[b]
  }

  /** `t` rearranges the elements of `s` from `lo` up to `hi`, and agrees with it elsewhere. */
  ghost predicate Rearranged(s: seq<nat>, t: seq<nat>, lo: nat, hi: nat) {
    && lo <= hi <= |s| == |t|
    && s[..lo] == t[..lo] && s[hi..] == t[hi..]
    && multiset(s[lo..hi]) == multiset(t[lo..hi])
  }

  lemma RearrangedTrans(s: seq<nat>, t: seq<nat>, u: seq<nat>, lo: nat, hi: nat)
    requires Rearranged(s, t, lo, hi) && Rearranged(t, u, lo, hi)
    ensures Rearranged(s, u, lo, hi)
  {
  }

  lemma SliceOfSlice(s: seq<nat>, left: nat, right: nat, lo: nat, hi: nat)
    requires left <= lo <= hi <= right <= |s|
    ensures s[left..right][lo - left..hi - left] == s[lo..hi]
  {
    var middle := s[left..right];
    forall k | 0 <= k < hi - lo ensures middle[lo - left..hi - left][k] == s[lo..hi][k] {
      assert middle[lo - left + k] == s[lo + k];
    }
  }

  /** A part of a sequence, cut at two points inside it. */
  lemma SliceParts(s: seq<nat>, lo: nat, hi: nat, left: nat, right: nat)
    requires left <= lo <= hi <= right <= |s|
    ensures s[left..right] == s[..lo][left..] + s[lo..hi] + s[hi..][..right - hi]
    ensures s[..left] == s[..lo][..left] && s[right..] == s[hi..][right - hi..]
  {
    var middle := s[left..right];
    SliceOfSlice(s, left, right, lo, hi);
    assert middle == middle[..lo - left] + middle[lo - left..hi - left] + middle[hi - left..];
    assert s[..lo][left..] == middle[..lo - left];
    assert s[hi..][..right - hi] == middle[hi - left..];
  }

  /** Rearranging a part rearranges the whole. */
  lemma RearrangedWiden(s: seq<nat>, t: seq<nat>, lo: nat, hi: nat, left: nat, right: nat)
    requires Rearranged(s, t, lo, hi) && left <= lo && hi <= right <= |s|
    ensures Rearranged(s, t, left, right)
  {
    SliceParts(s, lo, hi, left, right);
    SliceParts(t, lo, hi, left, right);
    var below, above := s[..lo][left..], s[hi..][..right - hi];
    MultisetOfThree(below, s[lo..hi], above);
    MultisetOfThree(below, t[lo..hi], above);
  }

  lemma MultisetOfThree(a: seq<nat>, b: seq<nat>, c: seq<nat>)
    ensures multiset(a + b + c) == multiset(a) + multiset(b) + multiset(c)
  {
  }

  lemma SwapRearranges(s: seq<nat>, i: nat, j: nat, lo: nat, hi: nat)
    requires lo <= i <= j < hi <= |s|
    ensures Rearranged(s, s[i := s[j]][j := s[i]], lo, hi)
  {
    var t := s[i := s[j]][j := s[i]];
    assert t[lo..hi] == s[lo..hi][i - lo := s[j]][j - lo := s[i]];
  }

  lemma RearrangedRefl(s: seq<nat>, lo: nat, hi: nat)
    requires lo <= hi <= |s|
    ensures Rearranged(s, s, lo, hi)
  {
  }

  lemma RearrangedOutside(s: seq<nat>, t: seq<nat>, lo: nat, hi: nat)
    requires Rearranged(s, t, lo, hi)
    ensures |s| == |t| && forall k :: 0 <= k < lo || hi <= k < |s| ==> s[k] == t[k]
  {
    assert forall k :: 0 <= k < lo ==> s[k] == s[..lo][k] && t[k] == t[..lo][k];
    assert forall k :: hi <= k < |s| ==> s[k] == s[hi..][k - hi] && t[k] == t[hi..][k - hi];
  }

  predicate AtMost(s: seq<nat>, lo: nat, hi: int, bound: nat)
    requires hi <= |s|
  {
    forall k :: lo <= k < hi ==> s[k] <= bound
  }

  predicate AtLeast(s: seq<nat>, lo: int, hi: nat, bound: nat)
    requires 0 <= lo && hi <= |s|
  {
    forall k :: lo <= k < hi ==> bound <= s[k]
  }

  /** Bounds on all elements of a part survive rearranging it. */
  lemma BoundsSurvive(s: seq<nat>, t: seq<nat>, lo: nat, hi: nat, bound: nat)
    requires Rearranged(s, t, lo, hi)
    ensures AtMost(s, lo, hi, bound) ==> AtMost(t, lo, hi, bound)
    ensures AtLeast(s, lo, hi, bound) ==> AtLeast(t, lo, hi, bound)
  {
    forall k | lo <= k < hi ensures t[k] in s[lo..hi] {
      assert t[lo..hi][k - lo] in multiset(t[lo..hi]);
    }
  }

  /** After the left side is sorted, the bounds of the partition still hold. */
  lemma BoundsAfterLeft(parted: seq<nat>, lower: seq<nat>, left: nat, i: nat, j: int, right: nat, pivot: nat)
    requires left < i <= right + 1 <= |parted| && left - 1 <= j < right && j < i
    requires AtMost(parted, left, i, pivot) && AtLeast(parted, j + 1, right + 1, pivot)
    requires Rearranged(parted, lower, left, j + 1)
    ensures |lower| == |parted|
    ensures AtMost(lower, left, i, pivot) && AtLeast(lower, j + 1, right + 1, pivot)
  {
    hide Rearranged;
    RearrangedOutside(parted, lower, left, j + 1);
    BoundsSurvive(parted, lower, left, j + 1, pivot);
    assert forall k :: j < k < |parted| ==> lower[k] == parted[k];
  }

  /** Likewise after the right side is sorted. */
  lemma BoundsAfterRight(lower: seq<nat>, sorted: seq<nat>, left: nat, i: nat, j: int, right: nat, pivot: nat)
    requires left < i <= right + 1 <= |lower| && left - 1 <= j < right && j < i
    requires AtMost(lower, left, i, pivot) && AtLeast(lower, j + 1, right + 1, pivot)
    requires Rearranged(lower, sorted, i, right + 1)
    ensures |sorted| == |lower| && forall k :: 0 <= k < i ==> sorted[k] == lower[k]
    ensures AtMost(sorted, left, i, pivot) && AtLeast(sorted, j + 1, right + 1, pivot)
  {
    hide Rearranged;
    RearrangedOutside(lower, sorted, i, right + 1);
    BoundsSurvive(lower, sorted, i, right + 1, pivot);
  }

  /** Sorting both sides of a partition sorts the whole. */
  lemma SidesMakeWhole(parted: seq<nat>, lower: seq<nat>, sorted: seq<nat>,
                       left: nat, i: nat, j: int, right: nat, pivot: nat)
    requires left < i <= right + 1 <= |parted| && left - 1 <= j < right && j < i
    requires AtMost(parted, left, i, pivot) && AtLeast(parted, j + 1, right + 1, pivot)
    requires Rearranged(parted, lower, left, j + 1) && SortedFrom(lower, left, j + 1)
    requires Rearranged(lower, sorted, i, right + 1) && SortedFrom(sorted, i, right + 1)
    ensures Rearranged(parted, sorted, left, right + 1) && SortedFrom(sorted, left, right + 1)
  {
    hide Rearranged;
    RearrangedWiden(parted, lower, left, j + 1, left, right + 1);
    RearrangedWiden(lower, sorted, i, right + 1, left, right + 1);
    RearrangedTrans(parted, lower, sorted, left, right + 1);
    BoundsAfterLeft(parted, lower, left, i, j, right, pivot);
    BoundsAfterRight(lower, sorted, left, i, j, right, pivot);
    SortedSides(lower, sorted, left, i, j, right, pivot);
  }

  lemma SortedSides(lower: seq<nat>, sorted: seq<nat>, left: nat, i: nat, j: int, right: nat, pivot: nat)
    requires left < i <= right + 1 <= |lower| == |sorted| && left - 1 <= j < right && j < i
    requires SortedFrom(lower, left, j + 1) && SortedFrom(sorted, i, right + 1)
    requires forall k :: 0 <= k < i ==> sorted[k] == lower[k]
    requires AtMost(sorted, left, i, pivot) && AtLeast(sorted, j + 1, right + 1, pivot)
    ensures SortedFrom(sorted, left, right + 1)
  {
    forall a, b | left <= a < b < right + 1 ensures sorted[a] <= sorted[b] {
      if b <= j {
        assert sorted[a] == lower[a] && sorted[b] == lower[b];
      } else if a < i {
        assert sorted[a] <= pivot <= sorted[b];
      }
    }
  }

  /** Swaps two elements of the part from `lo` to before `hi`, which stays a rearrangement of `start`. */
  method Swap(arr: array<nat>, i: nat, j: nat, ghost lo: nat, ghost hi: nat, ghost start: seq<nat>)
    requires lo <= i <= j < hi <= arr.Length && |start| == arr.Length && Rearranged(start, arr[..], lo, hi)
    modifies arr
    ensures arr[i] == old(arr[j]) && arr[j] == old(arr[i])
    ensures forall k :: 0 <= k < arr.Length && k != i && k != j ==> arr[k] == old(arr[k])
    ensures Rearranged(start, arr[..], lo, hi)
  {
    ghost var before := arr[..];
    SwapRearranges(before, i, j, lo, hi);
    hide Rearranged;
    arr[i], arr[j] := arr[j], arr[i];
    assert arr[..] == before[i := before[j]][j := before[i]];
    RearrangedTrans(start, before, arr[..], lo, hi);
  }

  /** The partition loop: on return everything up to `j` is at most the pivot, everything from `i` on is at
      least the pivot, and what lies between is the pivot. No index ever leaves the part. */
  method Partition(arr: array<nat>, left: nat, right: nat) returns (i: int, j: int, ghost pivot: nat)
    requires left <= right < arr.Length
    modifies arr
    ensures left < i <= right + 1 && left - 1 <= j < right && j < i
    ensures Rearranged(old(arr[..]), arr[..], left, right + 1)
    ensures AtMost(arr[..], left, i, pivot) && AtLeast(arr[..], j + 1, right + 1, pivot)
  {
    hide Rearranged;
    i, j := left, right;
    var mid := (left + right) / 2;
    var p := arr[mid];
    pivot := p;
    ghost var start := arr[..];
    RearrangedRefl(start, left, right + 1);
    while i <= j
      invariant left <= i <= right + 1 && left - 1 <= j <= right
      invariant (i == left && j == right && arr[mid] == p) || (left < i && j < right)
      invariant Rearranged(start, arr[..], left, right + 1)
      invariant forall k :: left <= k < i ==> arr[k] <= p
      invariant forall k :: j < k <= right ==> p <= arr[k]
      decreases j - i
    {
      // An element that stops each scan.
      ghost var high := if i == left then mid else j + 1;
      ghost var low := if i == left then mid else i - 1;
      ghost var i0, j0 := i, j;
      while arr[i] < p
        invariant i0 <= i <= high
        invariant forall k :: left <= k < i ==> arr[k] <= p
        decreases high - i
      {
        i := i + 1;
      }
      while arr[j] > p
        invariant low <= j <= j0
        invariant forall k :: j < k <= right ==> p <= arr[k]
        decreases j - low
      {
        j := j - 1;
      }
      if i <= j {
        Swap(arr, i, j, left, right + 1, start);
        i := i + 1;
        j := j - 1;
      }
    }
  }

  /** Sorts the array from `left` to `right`, both included, by rearranging it. */
  method QuickSort(arr: array<nat>, left: nat, right: nat)
    requires left <= right < arr.Length
    modifies arr
    ensures Rearranged(old(arr[..]), arr[..], left, right + 1)
    ensures SortedFrom(arr[..], left, right + 1)
    decreases right - left
  {
    hide Rearranged;
    ghost var start := arr[..];
    var i, j, pivot := Partition(arr, left, right);
    ghost var parted := arr[..];
    RearrangedRefl(parted, left, j + 1);
    if left < j {
      QuickSort(arr, left, j);
    }
    ghost var lower := arr[..];
    RearrangedRefl(lower, i, right + 1);
    if i < right {
      QuickSort(arr, i, right);
    }
    SidesMakeWhole(parted, lower, arr[..], left, i, j, right, pivot);
    RearrangedTrans(start, parted, arr[..], left, right + 1);
  }
}
