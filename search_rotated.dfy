/** Binary search for a target in a sorted array that has been rotated:
    at each step one of the two halves around `mid` is in order, and the
    search keeps the half that can hold the target. A defective version
    uses different tests to pick the half. */
module SearchRotated {
  import opened PyBase

  /** s is a strictly increasing array rotated so that its smallest element
      sits at index k: two pairs are out of order exactly when they straddle k. */
  ghost predicate RotatedAt(s: seq<int>, k: int) {
    0 <= k <= |s| &&
    forall i, j :: 0 <= i < j < |s| ==> if i < k <= j then s[j] < s[i] else s[i] < s[j]
  }

  ghost predicate Rotated(s: seq<int>) {
    exists k :: RotatedAt(s, k)
  }

  /** `arr[pivot:] + arr[:pivot]` of a strictly increasing array is such a rotation. */
  lemma RotationIsRotated(a: seq<int>, p: int)
    requires StrictlyIncreasing(a) && 0 <= p <= |a|
    ensures RotatedAt(a[p..] + a[..p], |a| - p)
  {
    var s := a[p..] + a[..p];
    var k := |a| - p;
    forall i, j | 0 <= i < j < |s|
      ensures if i < k <= j then s[j] < s[i] else s[i] < s[j]
    {
      if j < k {
        assert s[i] == a[p + i] && s[j] == a[p + j];
      } else if k <= i {
        assert s[i] == a[i - k] && s[j] == a[j - k];
      } else {
        assert s[i] == a[p + i] && s[j] == a[j - k];
      }
    }
  }

  /** The target is at none of the indices outside [left, right]. */
  predicate OnlyBetween(s: seq<int>, t: int, left: int, right: int) {
    forall x :: 0 <= x < |s| && (x < left || right < x) ==> s[x] != t
  }

  /** `nums[left] <= nums[mid]` and `nums[left] <= target < nums[mid]`:
      the target is not at mid or to its right. */
  lemma LeftRunHolds(s: seq<int>, k: int, t: int, left: int, mid: int, right: int)
    requires RotatedAt(s, k) && 0 <= left <= mid <= right < |s|
    requires s[left] <= s[mid] && s[left] <= t < s[mid]
    ensures forall x :: mid <= x <= right ==> s[x] != t
  {
    forall x | mid < x <= right
      ensures s[x] != t
    {
      if mid < k <= x {
        assert s[x] < s[left];
      } else {
        assert s[mid] < s[x];
      }
    }
  }

  /** `nums[left] <= nums[mid]` but the target is outside [nums[left], nums[mid]):
      [left, mid] is in order, so the target is not there. */
  lemma LeftRunMisses(s: seq<int>, k: int, t: int, left: int, mid: int)
    requires RotatedAt(s, k) && 0 <= left <= mid < |s|
    requires s[left] <= s[mid] && !(s[left] <= t < s[mid]) && s[mid] != t
    ensures forall x :: left <= x <= mid ==> s[x] != t
  {
    assert !(left < k <= mid);
    forall x | left < x < mid
      ensures s[left] < s[x] < s[mid]
    {
    }
  }

  /** `nums[left] > nums[mid]` and `nums[mid] < target <= nums[right]`:
      the target is not at mid or to its left. */
  lemma RightRunHolds(s: seq<int>, k: int, t: int, left: int, mid: int, right: int)
    requires RotatedAt(s, k) && 0 <= left <= mid <= right < |s|
    requires s[left] > s[mid] && s[mid] < t <= s[right]
    ensures forall x :: left <= x <= mid ==> s[x] != t
  {
    assert left < k <= mid;
    forall x | left <= x < mid
      ensures s[x] != t
    {
      if x < k {
        assert s[right] < s[x];
      } else {
        assert s[x] < s[mid];
      }
    }
  }

  /** `nums[left] > nums[mid]` but the target is outside (nums[mid], nums[right]]:
      [mid, right] is in order, so the target is not there. */
  lemma RightRunMisses(s: seq<int>, k: int, t: int, left: int, mid: int, right: int)
    requires RotatedAt(s, k) && 0 <= left <= mid <= right < |s|
    requires s[left] > s[mid] && !(s[mid] < t <= s[right]) && s[mid] != t
    ensures forall x :: mid <= x <= right ==> s[x] != t
  {
    assert left < k <= mid;
    forall x | mid < x < right
      ensures s[mid] < s[x] < s[right]
    {
    }
  }

  /** search_rotated_correct: an index holding the target, or -1; on a
      rotated strictly increasing array, -1 only when the target is absent. */
  method SearchRotatedCorrect(nums: seq<int>, target: int) returns (idx: int)
    ensures idx == -1 || (0 <= idx < |nums| && nums[idx] == target)
    ensures Rotated(nums) && target in nums ==> idx != -1
  {
    ghost var rotated := Rotated(nums);
    ghost var k: int := 0;
    if rotated {
      k :| RotatedAt(nums, k);
    }
    var left, right := 0, |nums| - 1;
    while left <= right
      invariant 0 <= left <= right + 1 <= |nums|
      invariant rotated ==> RotatedAt(nums, k) && OnlyBetween(nums, target, left, right)
      decreases right - left
    {
      var mid := (left + right) / 2;
      if nums[mid] == target {
        return mid;
      }
      if nums[left] <= nums[mid] {
        if nums[left] <= target < nums[mid] {
          if rotated {
            LeftRunHolds(nums, k, target, left, mid, right);
          }
          right := mid - 1;
        } else {
          if rotated {
            LeftRunMisses(nums, k, target, left, mid);
          }
          left := mid + 1;
        }
      } else {
        if nums[mid] < target <= nums[right] {
          if rotated {
            RightRunHolds(nums, k, target, left, mid, right);
          }
          left := mid + 1;
        } else {
          if rotated {
            RightRunMisses(nums, k, target, left, mid, right);
          }
          right := mid - 1;
        }
      }
    }
    return -1;
  }

  /** The probes of search_rotated_buggy from the window [left, right] on. */
  function BuggyProbe(nums: seq<int>, target: int, left: int, right: int): int
    requires 0 <= left && right < |nums|
    decreases right - left
  {
    if left > right then -1
    else
      var mid := (left + right) / 2;
      if nums[mid] == target then mid
      else if nums[left] < nums[mid] then
        if nums[left] <= target <= nums[mid] then BuggyProbe(nums, target, left, mid - 1)
        else BuggyProbe(nums, target, mid + 1, right)
      else
        if nums[mid] <= target < nums[right] then BuggyProbe(nums, target, mid + 1, right)
        else BuggyProbe(nums, target, left, mid - 1)
  }

  /** The defective search is as sound as the correct one: it only reports
      an index that holds the target. */
  lemma {:induction false} BuggyProbeSound(nums: seq<int>, target: int, left: int, right: int)
    requires 0 <= left && right < |nums|
    ensures var r := BuggyProbe(nums, target, left, right);
            r == -1 || (left <= r <= right && nums[r] == target)
    decreases right - left
  {
    if left <= right {
      var mid := (left + right) / 2;
      if nums[mid] != target {
        BuggyProbeSound(nums, target, left, mid - 1);
        BuggyProbeSound(nums, target, mid + 1, right);
      }
    }
  }

  /** [3, 1] is [1, 3] rotated by one; the defective search misses the 1,
      because with left == mid the strict test sends it to the right-half
      branch, whose test `3 <= 1` fails. */
  lemma BuggyMissesInRotation()
    ensures Rotated([3, 1]) && 1 in [3, 1]
    ensures BuggyProbe([3, 1], 1, 0, 1) == -1
  {
    RotationIsRotated([1, 3], 1);
    assert [1, 3][1..] + [1, 3][..1] == [3, 1];
  }

  /** search_rotated_buggy: runs the probes of BuggyProbe, so it returns an
      index holding the target or -1, but may miss a target that is there. */
  method SearchRotatedBuggy(nums: seq<int>, target: int) returns (idx: int)
    ensures idx == BuggyProbe(nums, target, 0, |nums| - 1)
    ensures idx == -1 || (0 <= idx < |nums| && nums[idx] == target)
  {
    var left, right := 0, |nums| - 1;
    BuggyProbeSound(nums, target, left, right);
    while left <= right
      invariant 0 <= left && right < |nums|
      invariant BuggyProbe(nums, target, left, right) == BuggyProbe(nums, target, 0, |nums| - 1)
      decreases right - left
    {
      var mid := (left + right) / 2;
      if nums[mid] == target {
        return mid;
      }
      if nums[left] < nums[mid] {
        if nums[left] <= target <= nums[mid] {
          right := mid - 1;
        } else {
          left := mid + 1;
        }
      } else {
        if nums[mid] <= target < nums[right] {
          left := mid + 1;
        } else {
          right := mid - 1;
        }
      }
    }
    return -1;
  }
}
