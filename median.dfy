/** Median of two sorted arrays: a binary search for the partition of the
    shorter array (correct version) and a linear scan without the swap
    (defective twin). Python numbers become `real`: an odd total returns the
    middle element, an even total the exact mean of the two middle ones. */
module MedianOfTwoSortedArrays {
  import opened PyBase

  // ---------------------------------------------------------------------
  // The specification: rank statistics by counting
  // ---------------------------------------------------------------------

  predicate Below(y: int, x: int, strict: bool) {
    if strict then y < x else y <= x
  }

  /** #{k : s[k] < x}, or #{k : s[k] <= x} when not strict. */
  function CountBelow(s: seq<int>, x: int, strict: bool): nat
    decreases |s|
  {
    if |s| == 0 then 0 else (if Below(s[0], x, strict) then 1 else 0) + CountBelow(s[1..], x, strict)
  }

  /** x is the k-th smallest element (from 0) of s: at most k elements lie
      below x and more than k lie at or below it. */
  predicate IsKth(s: seq<int>, k: int, x: int) {
    CountBelow(s, x, true) <= k < CountBelow(s, x, false)
  }

  /** v is the median of s: the middle element for an odd length, the mean
      of the two middle elements for an even one. */
  ghost predicate IsMedian(s: seq<int>, v: real) {
    if |s| % 2 == 1 then KthIs(s, |s| / 2, v) else MeanIs(s, |s| / 2 - 1, |s| / 2, v)
  }

  /** Python's int-to-float promotion; ints are exact here. */
  function AsReal(x: int): real { x as real }

  /** v is (the real value of) the k-th smallest element of s. */
  ghost predicate KthIs(s: seq<int>, k: int, v: real) {
    exists x: int :: IsKth(s, k, x) && v == AsReal(x)
  }

  /** v is the mean of the k1-th and the k2-th smallest elements of s. */
  ghost predicate MeanIs(s: seq<int>, k1: int, k2: int, v: real) {
    exists x: int :: IsKth(s, k1, x) && exists y: int :: IsKth(s, k2, y) && v == AsReal(x + y) / 2.0
  }

  lemma {:induction false} CountBelowAppend(a: seq<int>, b: seq<int>, x: int, strict: bool)
    ensures CountBelow(a + b, x, strict) == CountBelow(a, x, strict) + CountBelow(b, x, strict)
    decreases |a|
  {
    if |a| == 0 {
      assert a + b == b;
    } else {
      assert (a + b)[1..] == a[1..] + b;
      CountBelowAppend(a[1..], b, x, strict);
    }
  }

  lemma {:induction false} CountBelowAtMost(s: seq<int>, x: int, strict: bool)
    ensures CountBelow(s, x, strict) <= |s|
    decreases |s|
  {
    if |s| > 0 {
      CountBelowAtMost(s[1..], x, strict);
    }
  }

  /** When every element is counted, the count is the length. */
  lemma {:induction false} CountBelowAll(s: seq<int>, x: int, strict: bool)
    requires forall k :: 0 <= k < |s| ==> Below(s[k], x, strict)
    ensures CountBelow(s, x, strict) == |s|
    decreases |s|
  {
    if |s| > 0 {
      assert forall k :: 0 <= k < |s| - 1 ==> s[1..][k] == s[k + 1];
      CountBelowAll(s[1..], x, strict);
    }
  }

  /** When no element is counted, the count is 0. */
  lemma {:induction false} CountBelowNone(s: seq<int>, x: int, strict: bool)
    requires forall k :: 0 <= k < |s| ==> !Below(s[k], x, strict)
    ensures CountBelow(s, x, strict) == 0
    decreases |s|
  {
    if |s| > 0 {
      assert forall k :: 0 <= k < |s| - 1 ==> s[1..][k] == s[k + 1];
      CountBelowNone(s[1..], x, strict);
    }
  }

  /** The k-th smallest element is unique. */
  lemma KthUnique(s: seq<int>, k: int, x: int, y: int)
    requires IsKth(s, k, x) && IsKth(s, k, y)
    ensures x == y
  {
    if x < y {
      CountBelowMonotone(s, x, y);
    } else if y < x {
      CountBelowMonotone(s, y, x);
    }
  }

  /** Whatever is at most x is below any y > x. */
  lemma {:induction false} CountBelowMonotone(s: seq<int>, x: int, y: int)
    requires x < y
    ensures CountBelow(s, x, false) <= CountBelow(s, y, true)
    decreases |s|
  {
    if |s| > 0 {
      CountBelowMonotone(s[1..], x, y);
    }
  }

  /** In a sorted sequence the k-th smallest element is the one at index k. */
  lemma SortedKth(c: seq<int>, k: int)
    requires Sorted(c) && 0 <= k < |c|
    ensures IsKth(c, k, c[k])
  {
    assert c == c[..k] + c[k..];
    RankUpper(c[..k], c[k..], k, 0, c[k]);
    assert c[..k] + c[k..] == c[..k + 1] + c[k + 1..];
    RankLower(c[..k + 1], c[k + 1..], k + 1, 0, c[k]);
  }

  /** Counting does not depend on which of the two arrays comes first. */
  lemma CountBelowSwap(a: seq<int>, b: seq<int>, x: int, strict: bool)
    ensures CountBelow(a + b, x, strict) == CountBelow(b + a, x, strict)
  {
    CountBelowAppend(a, b, x, strict);
    CountBelowAppend(b, a, x, strict);
  }

  lemma MedianSwap(a: seq<int>, b: seq<int>, v: real)
    requires IsMedian(b + a, v)
    ensures IsMedian(a + b, v)
  {
    var s, t := a + b, b + a;
    if |s| % 2 == 1 {
      var k := |t| / 2;
      var x: int :| IsKth(t, k, x) && v == AsReal(x);
      CountBelowSwap(a, b, x, true);
      CountBelowSwap(a, b, x, false);
      assert IsKth(s, |s| / 2, x);
    } else {
      var k1, k2 := |t| / 2 - 1, |t| / 2;
      var x: int :| IsKth(t, k1, x) && exists y: int :: IsKth(t, k2, y) && v == AsReal(x + y) / 2.0;
      var y: int :| IsKth(t, k2, y) && v == AsReal(x + y) / 2.0;
      CountBelowSwap(a, b, x, true);
      CountBelowSwap(a, b, x, false);
      CountBelowSwap(a, b, y, true);
      CountBelowSwap(a, b, y, false);
      assert IsKth(s, |s| / 2 - 1, x) && IsKth(s, |s| / 2, y);
    }
  }

  // ---------------------------------------------------------------------
  // The partition the binary search looks for
  // ---------------------------------------------------------------------

  /** i is too small: the element b[j-1] left of B's cut exceeds a[i]. */
  predicate TooSmall(a: seq<int>, b: seq<int>, half: int, i: int)
    requires 0 <= i <= |a| && 0 <= half - i <= |b|
  {
    i < |a| && half - i > 0 && b[half - i - 1] > a[i]
  }

  /** i is too big: a[i-1] left of A's cut exceeds b[j]. */
  predicate TooBig(a: seq<int>, b: seq<int>, half: int, i: int)
    requires 0 <= i <= |a| && 0 <= half - i <= |b|
  {
    i > 0 && half - i < |b| && a[i - 1] > b[half - i]
  }

  /** Everything left of the cuts at i and j is at most x, so at least
      i + j elements of a + b are at most x. */
  lemma RankLower(a: seq<int>, b: seq<int>, i: int, j: int, x: int)
    requires 0 <= i <= |a| && 0 <= j <= |b|
    requires forall k :: 0 <= k < i ==> a[k] <= x
    requires forall k :: 0 <= k < j ==> b[k] <= x
    ensures CountBelow(a + b, x, false) >= i + j
  {
    assert a == a[..i] + a[i..] && b == b[..j] + b[j..];
    CountBelowAppend(a, b, x, false);
    CountBelowAppend(a[..i], a[i..], x, false);
    CountBelowAppend(b[..j], b[j..], x, false);
    CountBelowAll(a[..i], x, false);
    CountBelowAll(b[..j], x, false);
  }

  /** Everything right of the cuts at i and j is at least x, so at most
      i + j elements of a + b are below x. */
  lemma RankUpper(a: seq<int>, b: seq<int>, i: int, j: int, x: int)
    requires 0 <= i <= |a| && 0 <= j <= |b|
    requires forall k :: i <= k < |a| ==> a[k] >= x
    requires forall k :: j <= k < |b| ==> b[k] >= x
    ensures CountBelow(a + b, x, true) <= i + j
  {
    assert a == a[..i] + a[i..] && b == b[..j] + b[j..];
    CountBelowAppend(a, b, x, true);
    CountBelowAppend(a[..i], a[i..], x, true);
    CountBelowAppend(b[..j], b[j..], x, true);
    CountBelowAtMost(a[..i], x, true);
    CountBelowAtMost(b[..j], x, true);
    assert forall k :: 0 <= k < |a| - i ==> a[i..][k] == a[i + k];
    assert forall k :: 0 <= k < |b| - j ==> b[j..][k] == b[j + k];
    CountBelowNone(a[i..], x, true);
    CountBelowNone(b[j..], x, true);
  }

  /** With sorted arrays, bounds on the last elements left of the cuts
      bound everything left of them. */
  lemma SortedRankLower(a: seq<int>, b: seq<int>, i: int, j: int, x: int)
    requires Sorted(a) && Sorted(b) && 0 <= i <= |a| && 0 <= j <= |b|
    requires i > 0 ==> a[i - 1] <= x
    requires j > 0 ==> b[j - 1] <= x
    ensures CountBelow(a + b, x, false) >= i + j
  {
    forall k | 0 <= k < i ensures a[k] <= x { assert a[k] <= a[i - 1]; }
    forall k | 0 <= k < j ensures b[k] <= x { assert b[k] <= b[j - 1]; }
    RankLower(a, b, i, j, x);
  }

  /** With sorted arrays, bounds on the first elements right of the cuts
      bound everything right of them. */
  lemma SortedRankUpper(a: seq<int>, b: seq<int>, i: int, j: int, x: int)
    requires Sorted(a) && Sorted(b) && 0 <= i <= |a| && 0 <= j <= |b|
    requires i < |a| ==> a[i] >= x
    requires j < |b| ==> b[j] >= x
    ensures CountBelow(a + b, x, true) <= i + j
  {
    forall k | i <= k < |a| ensures a[k] >= x { assert a[i] <= a[k]; }
    forall k | j <= k < |b| ensures b[k] >= x { assert b[j] <= b[k]; }
    RankUpper(a, b, i, j, x);
  }

  /** At a cut that is neither too small nor too big, max_of_left is the
      (i+j-1)-th smallest element of a + b. */
  lemma MaxOfLeftIsKth(a: seq<int>, b: seq<int>, i: int, j: int, x: int)
    requires Sorted(a) && Sorted(b) && 0 <= i <= |a| && 0 <= j <= |b| && i + j > 0
    requires i == |a| || j == 0 || b[j - 1] <= a[i]
    requires i == 0 || j == |b| || a[i - 1] <= b[j]
    requires x == MaxOfLeft(a, b, i, j)
    ensures IsKth(a + b, i + j - 1, x)
  {
    SortedRankLower(a, b, i, j, x);
    if i > 0 && x == a[i - 1] {
      if i < |a| {
        assert a[i - 1] <= a[i];
      }
      SortedRankUpper(a, b, i - 1, j, x);
    } else {
      if j < |b| {
        assert b[j - 1] <= b[j];
      }
      SortedRankUpper(a, b, i, j - 1, x);
    }
  }

  /** At such a cut, min_of_right is the (i+j)-th smallest element. */
  lemma MinOfRightIsKth(a: seq<int>, b: seq<int>, i: int, j: int, y: int)
    requires Sorted(a) && Sorted(b) && 0 <= i <= |a| && 0 <= j <= |b| && i + j < |a| + |b|
    requires i == |a| || j == 0 || b[j - 1] <= a[i]
    requires i == 0 || j == |b| || a[i - 1] <= b[j]
    requires y == MinOfRight(a, b, i, j)
    ensures IsKth(a + b, i + j, y)
  {
    SortedRankUpper(a, b, i, j, y);
    if i < |a| && y == a[i] {
      if i > 0 {
        assert a[i - 1] <= a[i];
      }
      SortedRankLower(a, b, i + 1, j, y);
    } else {
      if j > 0 {
        assert b[j - 1] <= b[j];
      }
      SortedRankLower(a, b, i, j + 1, y);
    }
  }

  /** max_of_left: the largest element left of the cuts. */
  function MaxOfLeft(a: seq<int>, b: seq<int>, i: int, j: int): int
    requires 0 <= i <= |a| && 0 <= j <= |b| && i + j > 0
  {
    if i == 0 then b[j - 1] else if j == 0 then a[i - 1] else Max(a[i - 1], b[j - 1])
  }

  /** min_of_right: the smallest element right of the cuts. */
  function MinOfRight(a: seq<int>, b: seq<int>, i: int, j: int): int
    requires 0 <= i <= |a| && 0 <= j <= |b| && i + j < |a| + |b|
  {
    if i == |a| then b[j] else if j == |b| then a[i] else Min(a[i], b[j])
  }

  /** What the search returns once it has found its cut: max_of_left for an
      odd total, else the mean of max_of_left and min_of_right. */
  function CutValue(a: seq<int>, b: seq<int>, i: int, j: int): real
    requires 0 <= i <= |a| && 0 <= j <= |b| && i + j > 0
    requires (|a| + |b|) % 2 == 0 ==> i + j < |a| + |b|
  {
    if (|a| + |b|) % 2 == 1 then AsReal(MaxOfLeft(a, b, i, j))
    else AsReal(MaxOfLeft(a, b, i, j) + MinOfRight(a, b, i, j)) / 2.0
  }

  /** On sorted arrays the value at a cut that is neither too small nor too
      big, with i + j = (m + n + 1) / 2, is the median of the two arrays. */
  lemma CutValueIsMedian(nums1: seq<int>, nums2: seq<int>, a: seq<int>, b: seq<int>, i: int, j: int)
    requires (a, b) == (nums1, nums2) || (a, b) == (nums2, nums1)
    requires Sorted(a) && Sorted(b)
    requires 0 <= i <= |a| && 0 <= j <= |b| && i + j == (|a| + |b| + 1) / 2 && |a| + |b| > 0
    requires i == |a| || j == 0 || b[j - 1] <= a[i]
    requires i == 0 || j == |b| || a[i - 1] <= b[j]
    ensures IsMedian(nums1 + nums2, CutValue(a, b, i, j))
  {
    if (|a| + |b|) % 2 == 1 {
      var x := MaxOfLeft(a, b, i, j);
      MaxOfLeftIsKth(a, b, i, j, x);
      OddMedian(nums1, nums2, a, b, x);
    } else {
      EvenCutIsMedian(nums1, nums2, a, b, i, j);
    }
  }

  /** The even case: the mean of the largest value left of the cut and the
      smallest right of it. */
  lemma EvenCutIsMedian(nums1: seq<int>, nums2: seq<int>, a: seq<int>, b: seq<int>, i: int, j: int)
    requires (a, b) == (nums1, nums2) || (a, b) == (nums2, nums1)
    requires Sorted(a) && Sorted(b) && (|a| + |b|) % 2 == 0
    requires 0 <= i <= |a| && 0 <= j <= |b| && i + j == (|a| + |b|) / 2 && |a| + |b| > 0
    requires i == |a| || j == 0 || b[j - 1] <= a[i]
    requires i == 0 || j == |b| || a[i - 1] <= b[j]
    ensures IsMedian(nums1 + nums2, AsReal(MaxOfLeft(a, b, i, j) + MinOfRight(a, b, i, j)) / 2.0)
  {
    var x := MaxOfLeft(a, b, i, j);
    MaxOfLeftIsKth(a, b, i, j, x);
    var y := MinOfRight(a, b, i, j);
    MinOfRightIsKth(a, b, i, j, y);
    EvenMedian(nums1, nums2, a, b, x, y);
  }

  /** The median is unique. */
  lemma MedianUnique(s: seq<int>, v: real, w: real)
    requires IsMedian(s, v) && IsMedian(s, w)
    ensures v == w
  {
    var k := |s| / 2;
    if |s| % 2 == 1 {
      var x: int :| IsKth(s, k, x) && v == AsReal(x);
      var x': int :| IsKth(s, k, x') && w == AsReal(x');
      KthUnique(s, k, x, x');
    } else {
      var x: int :| IsKth(s, k - 1, x) && exists y: int :: IsKth(s, k, y) && v == AsReal(x + y) / 2.0;
      var y: int :| IsKth(s, k, y) && v == AsReal(x + y) / 2.0;
      var x': int :| IsKth(s, k - 1, x') && exists y': int :: IsKth(s, k, y') && w == AsReal(x' + y') / 2.0;
      var y': int :| IsKth(s, k, y') && w == AsReal(x' + y') / 2.0;
      KthUnique(s, k - 1, x, x');
      KthUnique(s, k, y, y');
    }
  }

  /** For sorted arrays, a cut that is too small forces every smaller cut to
      be too small. */
  lemma TooSmallBelow(a: seq<int>, b: seq<int>, half: int, i: int)
    requires Sorted(a) && Sorted(b) && 0 <= i <= |a| && 0 <= half - i && half <= |b|
    requires TooSmall(a, b, half, i)
    ensures forall k :: 0 <= k <= i ==> TooSmall(a, b, half, k)
  {
    forall k | 0 <= k <= i
      ensures TooSmall(a, b, half, k)
    {
      assert b[half - i - 1] <= b[half - k - 1];
      assert a[k] <= a[i];
    }
  }

  /** A cut that is too big forces every larger cut to be too big. */
  lemma TooBigAbove(a: seq<int>, b: seq<int>, half: int, i: int)
    requires Sorted(a) && Sorted(b) && 0 <= i <= |a| && 0 <= half - |a| && half - i <= |b|
    requires TooBig(a, b, half, i)
    ensures forall k :: i <= k <= |a| ==> TooBig(a, b, half, k)
  {
    forall k | i <= k <= |a|
      ensures TooBig(a, b, half, k)
    {
      assert b[half - k] <= b[half - i];
      assert a[i - 1] <= a[k - 1];
    }
  }

  /** Cut i too small says b[j-1] > a[i]; cut i + 1 too big says
      a[i] > b[j-1]. So no cut is followed by a too-big one after a too-small
      one, the first cut is never too big and the last never too small. */
  lemma NoFlipBetweenCuts(a: seq<int>, b: seq<int>, half: int, i: int)
    requires 0 <= i < |a| && 0 <= half - i - 1 && half - i <= |b|
    ensures !(TooSmall(a, b, half, i) && TooBig(a, b, half, i + 1))
  {
  }

  /** When the binary search runs dry, the inputs were not sorted: on sorted
      inputs every cut below imin is too small and every cut from imin on is
      too big, which the cut at the boundary contradicts. */
  lemma ExhaustedMeansUnsorted(a: seq<int>, b: seq<int>, half: int, imin: int)
    requires |a| <= |b| && 0 <= half - |a| && half <= |b|
    requires 0 <= imin <= |a| + 1
    requires Sorted(a) && Sorted(b) ==> forall k :: 0 <= k < imin ==> TooSmall(a, b, half, k)
    requires Sorted(a) && Sorted(b) ==> forall k :: imin <= k <= |a| ==> TooBig(a, b, half, k)
    ensures !(Sorted(a) && Sorted(b))
  {
    if imin == 0 {
      assert !TooBig(a, b, half, 0);
    } else if imin == |a| + 1 {
      assert !TooSmall(a, b, half, |a|);
    } else {
      NoFlipBetweenCuts(a, b, half, imin - 1);
    }
  }

  // ---------------------------------------------------------------------
  // The two functions of the source
  // ---------------------------------------------------------------------

  /** median_two_sorted_arrays_correct. The result is `None` when the loop
      falls through, which happens only for unsorted input. */
  method MedianCorrect(nums1: seq<int>, nums2: seq<int>) returns (r: Result<Option<real>>)
    ensures r.Failure? <==> |nums1| + |nums2| == 0
    ensures r.Failure? ==> r.error == ValueError
    ensures Sorted(nums1) && Sorted(nums2) && |nums1| + |nums2| > 0 ==>
              r.Success? && r.value.Some? && IsMedian(nums1 + nums2, r.value.value)
  {
    var a, b := nums1, nums2;
    var m, n := |a|, |b|;
    if m > n {
      a, b, m, n := b, a, n, m;
    }
    if n == 0 {
      return Failure(ValueError);
    }
    ghost var sorted := Sorted(a) && Sorted(b);
    var imin, imax, half := 0, m, (m + n + 1) / 2;
    while imin <= imax
      invariant 0 <= imin <= imax + 1 <= m + 1
      invariant sorted ==> forall k :: 0 <= k < imin ==> TooSmall(a, b, half, k)
      invariant sorted ==> forall k :: imax < k <= m ==> TooBig(a, b, half, k)
      decreases imax - imin
    {
      var i := (imin + imax) / 2;
      var j := half - i;
      if i < m && b[j - 1] > a[i] {
        if sorted {
          TooSmallBelow(a, b, half, i);
        }
        imin := i + 1;
      } else if i > 0 && a[i - 1] > b[j] {
        if sorted {
          TooBigAbove(a, b, half, i);
        }
        imax := i - 1;
      } else {
        if sorted {
          CutValueIsMedian(nums1, nums2, a, b, i, j);
        }
        return Success(Some(CutValue(a, b, i, j)));
      }
    }
    ExhaustedMeansUnsorted(a, b, half, imin);
    r := Success(None);
  }

  /** For an odd total the (total/2)-th smallest element of the possibly
      swapped pair is the median of the inputs. */
  lemma OddMedian(nums1: seq<int>, nums2: seq<int>, a: seq<int>, b: seq<int>, x: int)
    requires (a, b) == (nums1, nums2) || (a, b) == (nums2, nums1)
    requires |a + b| % 2 == 1 && IsKth(a + b, |a + b| / 2, x)
    ensures IsMedian(nums1 + nums2, AsReal(x))
  {
    assert KthIs(a + b, |a + b| / 2, AsReal(x));
    ResultIsMedianOfInputs(nums1, nums2, a, b, AsReal(x));
  }

  /** For an even total the mean of the two middle elements of the possibly
      swapped pair is the median of the inputs. */
  lemma EvenMedian(nums1: seq<int>, nums2: seq<int>, a: seq<int>, b: seq<int>, x: int, y: int)
    requires (a, b) == (nums1, nums2) || (a, b) == (nums2, nums1)
    requires |a + b| % 2 == 0 && IsKth(a + b, |a + b| / 2 - 1, x) && IsKth(a + b, |a + b| / 2, y)
    ensures IsMedian(nums1 + nums2, AsReal(x + y) / 2.0)
  {
    assert MeanIs(a + b, |a + b| / 2 - 1, |a + b| / 2, AsReal(x + y) / 2.0);
    ResultIsMedianOfInputs(nums1, nums2, a, b, AsReal(x + y) / 2.0);
  }

  /** A median of the possibly swapped pair is a median of the inputs. */
  lemma ResultIsMedianOfInputs(nums1: seq<int>, nums2: seq<int>, a: seq<int>, b: seq<int>, v: real)
    requires (a, b) == (nums1, nums2) || (a, b) == (nums2, nums1)
    requires IsMedian(a + b, v)
    ensures IsMedian(nums1 + nums2, v)
  {
    if (a, b) != (nums1, nums2) {
      MedianSwap(nums1, nums2, v);
    }
  }

  /** The end of the defective scan: the same reads, but b is indexed the
      Python way, so a negative j wraps around and a j past the end raises. */
  function BuggyCutValue(a: seq<int>, b: seq<int>, i: int, j: int): (r: Result<real>)
    requires 0 <= i <= |a|
    ensures r.Failure? ==> r.error == IndexError
  {
    var left :=
      if i == 0 then PyIndex(b, j - 1)
      else if j == 0 then Success(a[i - 1])
      else match PyIndex(b, j - 1)
        case Success(y) => Success(Max(a[i - 1], y))
        case Failure(e) => Failure(e);
    if left.Failure? then Failure(left.error)
    else if (|a| + |b|) % 2 == 1 then Success(AsReal(left.value))
    else
      var right :=
        if i == |a| then PyIndex(b, j)
        else if j == |b| then Success(a[i])
        else match PyIndex(b, j)
          case Success(y) => Success(Min(a[i], y))
          case Failure(e) => Failure(e);
      if right.Failure? then Failure(right.error)
      else Success(AsReal(left.value + right.value) / 2.0)
  }

  /** When nums1 is no longer than a non-empty nums2, every read of the
      defective end computation is in range and it agrees with the correct one. */
  lemma BuggyCutAgrees(a: seq<int>, b: seq<int>, i: int)
    requires |a| <= |b| && |b| > 0 && 0 <= i <= |a|
    ensures BuggyCutValue(a, b, i, (|a| + |b| + 1) / 2 - i)
         == Success(CutValue(a, b, i, (|a| + |b| + 1) / 2 - i))
  {
  }

  /** A cut that is neither too small nor too big exists on sorted arrays:
      the first cut that is not too small (the last cut never is) follows a
      too-small one or is the first cut, so it is not too big either. */
  lemma {:induction false} CutExistsFrom(a: seq<int>, b: seq<int>, half: int, k: int)
    requires |a| <= |b| && 0 <= half - |a| && half <= |b|
    requires 0 <= k <= |a|
    requires k == 0 || TooSmall(a, b, half, k - 1)
    ensures exists c :: k <= c <= |a| && !TooSmall(a, b, half, c) && !TooBig(a, b, half, c)
    decreases |a| - k
  {
    if k > 0 {
      NoFlipBetweenCuts(a, b, half, k - 1);
    }
    if TooSmall(a, b, half, k) {
      CutExistsFrom(a, b, half, k + 1);
    } else {
      assert !TooSmall(a, b, half, k) && !TooBig(a, b, half, k);
    }
  }

  /** When the linear scan finds no cut, the inputs were not sorted. */
  lemma ScanExhaustedMeansUnsorted(a: seq<int>, b: seq<int>, half: int)
    requires |a| <= |b| && 0 <= half - |a| && half <= |b|
    requires Sorted(a) && Sorted(b) ==>
               forall k :: 0 <= k <= |a| ==> TooSmall(a, b, half, k) || TooBig(a, b, half, k)
    ensures !(Sorted(a) && Sorted(b))
  {
    CutExistsFrom(a, b, half, 0);
  }

  /** median_two_sorted_arrays_buggy: an empty nums2 returns the element at
      len(nums1) // 2; otherwise the cuts of nums1 are scanned in order
      without first swapping the shorter array into nums1. */
  method MedianBuggy(nums1: seq<int>, nums2: seq<int>) returns (r: Result<Option<real>>)
    ensures |nums2| == 0 ==>
              r == if |nums1| == 0 then Failure(IndexError) else Success(Some(AsReal(nums1[|nums1| / 2])))
    ensures r.Failure? ==> r.error == IndexError
    ensures 0 < |nums2| && |nums1| <= |nums2| ==> r.Success?
    ensures 0 < |nums2| < |nums1| ==> r == Failure(IndexError)
    ensures 0 < |nums2| && |nums1| <= |nums2| && Sorted(nums1) && Sorted(nums2) ==>
              r.value.Some? && IsMedian(nums1 + nums2, r.value.value)
  {
    var a, b := nums1, nums2;
    var m, n := |a|, |b|;
    if n == 0 {
      var x := PyIndex(a, m / 2);
      if x.Failure? {
        return Failure(x.error);
      }
      return Success(Some(AsReal(x.value)));
    }
    ghost var shorter := m <= n;
    ghost var sorted := shorter && Sorted(a) && Sorted(b);
    var half := (m + n + 1) / 2;
    for i := 0 to m + 1
      invariant sorted ==> forall k :: 0 <= k < i ==> TooSmall(a, b, half, k) || TooBig(a, b, half, k)
      invariant n < m ==> i == 0
    {
      var j := half - i;
      if i < m && j > 0 {
        var y := PyIndex(b, j - 1);
        if y.Failure? {
          return Failure(y.error);
        }
        if y.value > a[i] {
          continue;
        }
      }
      // past the first cut nums2 is the longer list, so j and the
      // indices the cut value reads are in range
      if i > 0 && j < n {
        var y := PyIndex(b, j);
        assert y.Success?;
        if a[i - 1] > y.value {
          continue;
        }
      }
      var v := BuggyCutValue(a, b, i, j);
      assert v.Success?;
      if shorter {
        BuggyCutAgrees(a, b, i);
        if sorted {
          CutValueIsMedian(nums1, nums2, a, b, i, j);
        }
      }
      return Success(Some(v.value));
    }
    if shorter {
      ScanExhaustedMeansUnsorted(a, b, half);
    }
    r := Success(None);
  }

  /** With nums2 empty the defective version returns the upper middle
      element, which for [1, 2] is 2 where the median is 1.5. */
  lemma BuggyEmptySecondMissesEvenMedian()
    ensures IsMedian([1, 2] + [], 1.5)
    ensures !IsMedian([1, 2] + [], AsReal([1, 2][2 / 2]))
  {
    var s := [1, 2];
    assert s + [] == s;
    assert Sorted(s);
    SortedKth(s, 0);
    SortedKth(s, 1);
    assert IsKth(s, 1, 2) && AsReal(1 + 2) / 2.0 == 1.5;
    assert MeanIs(s, 0, 1, 1.5);
    if IsMedian(s, AsReal(s[1])) {
      MedianUnique(s, 1.5, AsReal(s[1]));
      assert false;
    }
  }
}
