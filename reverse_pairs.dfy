/** Reverse pairs: count the pairs i < j with nums[i] > 2 * nums[j] by a
    merge sort that counts across the two sorted halves before merging them.
    The defective twin uses nums[i] >= 2 * nums[j] in the counting step. */
module ReversePairs {
  import opened PyBase

  /** The comparison a pair (x, y) = (nums[i], nums[j]) is counted by. */
  datatype PairTest =
    | Greater         // x > 2 * y, the correct version
    | GreaterOrEqual  // x >= 2 * y, the defective twin
    | Equal           // x == 2 * y, the pairs on which the two differ

  predicate Holds(t: PairTest, x: int, y: int) {
    match t
    case Greater => x > 2 * y
    case GreaterOrEqual => x >= 2 * y
    case Equal => x == 2 * y
  }

  // ---------------------------------------------------------------------
  // Sums over a sequence
  // ---------------------------------------------------------------------

  /** The sum of f over the elements of s. */
  function SumOf(s: seq<int>, f: int -> nat): nat
    decreases |s|
  {
    if |s| == 0 then 0 else SumOf(s[..|s| - 1], f) + f(s[|s| - 1])
  }

  lemma {:induction false} SumOfAppend(a: seq<int>, b: seq<int>, f: int -> nat)
    ensures SumOf(a + b, f) == SumOf(a, f) + SumOf(b, f)
    decreases |b|
  {
    if |b| == 0 {
      assert a + b == a;
    } else {
      var b' := b[..|b| - 1];
      SumOfAppend(a, b', f);
      assert (a + b)[..|a + b| - 1] == a + b';
    }
  }

  /** A sum depends only on the multiset of the summed elements. */
  lemma {:induction false} SumOfPermutation(a: seq<int>, b: seq<int>, f: int -> nat)
    requires multiset(a) == multiset(b)
    ensures SumOf(a, f) == SumOf(b, f)
    decreases |a|
  {
    if |a| == 0 {
      assert |b| == |multiset(b)| == 0;
    } else {
      var x := a[|a| - 1];
      var a' := a[..|a| - 1];
      assert a == a' + [x];
      assert x in multiset(b);
      var k :| 0 <= k < |b| && b[k] == x;
      var b' := b[..k] + b[k + 1..];
      RemoveAt(b, k, f);
      assert multiset(a') == multiset(a) - multiset{x};
      SumOfPermutation(a', b', f);
    }
  }

  /** Taking out the element at k takes it out of the multiset and its
      term out of the sum. */
  lemma RemoveAt(b: seq<int>, k: nat, f: int -> nat)
    requires k < |b|
    ensures multiset(b[..k] + b[k + 1..]) == multiset(b) - multiset{b[k]}
    ensures SumOf(b, f) == SumOf(b[..k] + b[k + 1..], f) + f(b[k])
  {
    RemoveAtMultiset(b, k);
    RemoveAtSum(b, k, f);
  }

  lemma RemoveAtMultiset(b: seq<int>, k: nat)
    requires k < |b|
    ensures multiset(b[..k] + b[k + 1..]) == multiset(b) - multiset{b[k]}
  {
    assert b == b[..k] + [b[k]] + b[k + 1..];
  }

  lemma RemoveAtSum(b: seq<int>, k: nat, f: int -> nat)
    requires k < |b|
    ensures SumOf(b, f) == SumOf(b[..k] + b[k + 1..], f) + f(b[k])
  {
    var front, x, back := b[..k], b[k], b[k + 1..];
    assert b == (front + [x]) + back;
    SumOfAppend(front + [x], back, f);
    SumOfAppend(front, back, f);
    assert (front + [x])[..|front + [x]| - 1] == front;
  }

  /** Two functions that agree on the elements of s have the same sum over s. */
  lemma {:induction false} SumOfPointwise(s: seq<int>, f: int -> nat, g: int -> nat)
    requires forall i :: 0 <= i < |s| ==> f(s[i]) == g(s[i])
    ensures SumOf(s, f) == SumOf(s, g)
    decreases |s|
  {
    if |s| > 0 {
      var s' := s[..|s| - 1];
      assert forall i :: 0 <= i < |s'| ==> s'[i] == s[i];
      SumOfPointwise(s', f, g);
      assert SumOf(s, f) == SumOf(s', f) + f(s[|s| - 1]);
      assert SumOf(s, g) == SumOf(s', g) + g(s[|s| - 1]);
    } else {
      assert SumOf(s, f) == 0 == SumOf(s, g);
    }
  }

  // ---------------------------------------------------------------------
  // The specification: the number of counted pairs
  // ---------------------------------------------------------------------

  /** 1 when (x, y) is counted, else 0, as a function of y. */
  function Indicator(x: int, t: PairTest): int -> nat {
    y => if Holds(t, x, y) then 1 else 0
  }

  /** #{y in r : Holds(t, x, y)}. */
  function CountBeaten(x: int, r: seq<int>, t: PairTest): nat {
    SumOf(r, Indicator(x, t))
  }

  function BeatenCounter(r: seq<int>, t: PairTest): int -> nat {
    x => CountBeaten(x, r, t)
  }

  /** The number of counted pairs (x, y) with x from l and y from r. */
  function CrossCount(l: seq<int>, r: seq<int>, t: PairTest): nat {
    SumOf(l, BeatenCounter(r, t))
  }

  /** The number of index pairs i < j of s with Holds(t, s[i], s[j]),
      grouped by the first index. */
  function PairCount(s: seq<int>, t: PairTest): nat
    decreases |s|
  {
    if |s| == 0 then 0 else CountBeaten(s[0], s[1..], t) + PairCount(s[1..], t)
  }

  lemma SumOfSingleton(x: int, f: int -> nat)
    ensures SumOf([x], f) == f(x)
  {
    assert [x][..0] == [];
  }

  /** The pairs of l + r are those inside l, those inside r, and those across. */
  lemma {:induction false} PairCountSplit(l: seq<int>, r: seq<int>, t: PairTest)
    ensures PairCount(l + r, t) == PairCount(l, t) + PairCount(r, t) + CrossCount(l, r, t)
    decreases |l|
  {
    if |l| == 0 {
      assert l + r == r;
    } else {
      PairCountSplit(l[1..], r, t);
      assert (l + r)[0] == l[0] && (l + r)[1..] == l[1..] + r;
      SumOfAppend(l[1..], r, Indicator(l[0], t));
      CrossCountFront(l, r, t);
    }
  }

  lemma CrossCountFront(l: seq<int>, r: seq<int>, t: PairTest)
    requires |l| > 0
    ensures CrossCount(l, r, t) == CountBeaten(l[0], r, t) + CrossCount(l[1..], r, t)
  {
    assert [l[0]] + l[1..] == l;
    SumOfAppend([l[0]], l[1..], BeatenCounter(r, t));
    SumOfSingleton(l[0], BeatenCounter(r, t));
  }

  /** The cross count depends only on the multisets of the two sides, so it
      may be taken over the sorted halves. */
  lemma CrossCountPermutation(l: seq<int>, r: seq<int>, l': seq<int>, r': seq<int>, t: PairTest)
    requires multiset(l) == multiset(l') && multiset(r) == multiset(r')
    ensures CrossCount(l, r, t) == CrossCount(l', r', t)
  {
    SumOfPermutation(l, l', BeatenCounter(r, t));
    forall i | 0 <= i < |l'|
      ensures BeatenCounter(r, t)(l'[i]) == BeatenCounter(r', t)(l'[i])
    {
      SumOfPermutation(r, r', Indicator(l'[i], t));
    }
    SumOfPointwise(l', BeatenCounter(r, t), BeatenCounter(r', t));
  }

  /** When exactly the first j elements of r are beaten by x, x beats j of them. */
  lemma {:induction false} CountBeatenPrefix(x: int, r: seq<int>, j: nat, t: PairTest)
    requires j <= |r|
    requires forall k :: 0 <= k < |r| ==> (Holds(t, x, r[k]) <==> k < j)
    ensures CountBeaten(x, r, t) == j
    decreases |r|
  {
    if |r| > 0 {
      var r' := r[..|r| - 1];
      if j == |r| {
        CountBeatenPrefix(x, r', j - 1, t);
      } else {
        CountBeatenPrefix(x, r', j, t);
      }
    }
  }

  lemma {:induction false} CountBeatenAtMost(x: int, r: seq<int>, t: PairTest)
    ensures CountBeaten(x, r, t) <= |r|
    decreases |r|
  {
    if |r| > 0 {
      CountBeatenAtMost(x, r[..|r| - 1], t);
    }
  }

  /** Both counts lie in [0, n(n-1)/2]. */
  lemma {:induction false} PairCountBound(s: seq<int>, t: PairTest)
    ensures 2 * PairCount(s, t) <= |s| * (|s| - 1)
    decreases |s|
  {
    if |s| > 0 {
      var n := |s|;
      PairCountBound(s[1..], t);
      CountBeatenAtMost(s[0], s[1..], t);
      assert (n - 1) * (n - 2) + 2 * (n - 1) == n * (n - 1);
    }
  }

  lemma {:induction false} CountBeatenPositive(x: int, r: seq<int>, t: PairTest)
    ensures CountBeaten(x, r, t) > 0 <==> exists k :: 0 <= k < |r| && Holds(t, x, r[k])
    decreases |r|
  {
    if |r| > 0 {
      var r' := r[..|r| - 1];
      CountBeatenPositive(x, r', t);
      if exists k :: 0 <= k < |r| && Holds(t, x, r[k]) {
        var k :| 0 <= k < |r| && Holds(t, x, r[k]);
        if k < |r| - 1 {
          assert Holds(t, x, r'[k]);
        }
      }
    }
  }

  /** Some pair is counted exactly when the count is positive. */
  lemma {:induction false} PairCountPositive(s: seq<int>, t: PairTest)
    ensures PairCount(s, t) > 0 <==> exists i, j :: 0 <= i < j < |s| && Holds(t, s[i], s[j])
    decreases |s|
  {
    if |s| > 0 {
      var s' := s[1..];
      PairCountPositive(s', t);
      CountBeatenPositive(s[0], s', t);
      if exists i, j :: 0 <= i < j < |s| && Holds(t, s[i], s[j]) {
        var i, j :| 0 <= i < j < |s| && Holds(t, s[i], s[j]);
        if i == 0 {
          assert Holds(t, s[0], s'[j - 1]);
        } else {
          assert Holds(t, s'[i - 1], s'[j - 1]);
        }
      }
      if PairCount(s, t) > 0 {
        PairFromPositive(s, t);
      }
    }
  }

  /** The converse half of PairCountPositive's step: a positive count at the
      front or in the tail names a pair of s. */
  lemma PairFromPositive(s: seq<int>, t: PairTest)
    requires |s| > 0
    requires CountBeaten(s[0], s[1..], t) > 0 ==> exists k :: 0 <= k < |s[1..]| && Holds(t, s[0], s[1..][k])
    requires PairCount(s[1..], t) > 0 ==> exists i, j :: 0 <= i < j < |s[1..]| && Holds(t, s[1..][i], s[1..][j])
    requires PairCount(s, t) > 0
    ensures exists i, j :: 0 <= i < j < |s| && Holds(t, s[i], s[j])
  {
    var s' := s[1..];
    if CountBeaten(s[0], s', t) > 0 {
      var k :| 0 <= k < |s'| && Holds(t, s[0], s'[k]);
      assert Holds(t, s[0], s[k + 1]);
    } else {
      var i, j :| 0 <= i < j < |s'| && Holds(t, s'[i], s'[j]);
      assert Holds(t, s[i + 1], s[j + 1]);
    }
  }

  lemma {:induction false} CountBeatenSplitsOnEquality(x: int, r: seq<int>)
    ensures CountBeaten(x, r, GreaterOrEqual) == CountBeaten(x, r, Greater) + CountBeaten(x, r, Equal)
    decreases |r|
  {
    if |r| > 0 {
      CountBeatenSplitsOnEquality(x, r[..|r| - 1]);
    }
  }

  /** The defective twin counts the correct pairs plus the pairs with
      nums[i] == 2 * nums[j]. */
  lemma {:induction false} BuggyCountsEqualPairsToo(s: seq<int>)
    ensures PairCount(s, GreaterOrEqual) == PairCount(s, Greater) + PairCount(s, Equal)
    decreases |s|
  {
    if |s| > 0 {
      BuggyCountsEqualPairsToo(s[1..]);
      CountBeatenSplitsOnEquality(s[0], s[1..]);
    }
  }

  /** So the twin never counts fewer pairs than the correct version, and
      counts more exactly when some pair has nums[i] == 2 * nums[j]
      (for instance [0, 0]). */
  lemma BuggyDiffersExactlyOnDoubledPairs(s: seq<int>)
    ensures PairCount(s, Greater) <= PairCount(s, GreaterOrEqual)
    ensures PairCount(s, Greater) < PairCount(s, GreaterOrEqual)
        <==> exists i, j :: 0 <= i < j < |s| && s[i] == 2 * s[j]
  {
    BuggyCountsEqualPairsToo(s);
    PairCountPositive(s, Equal);
    if exists i, j :: 0 <= i < j < |s| && s[i] == 2 * s[j] {
      var i, j :| 0 <= i < j < |s| && s[i] == 2 * s[j];
      assert Holds(Equal, s[i], s[j]);
    }
  }

  // ---------------------------------------------------------------------
  // The algorithm
  // ---------------------------------------------------------------------

  /** The counting step: for each element of the sorted left half, advance j
      over the right-half elements it beats and add j. */
  method CountCrossPairs(left: seq<int>, right: seq<int>, t: PairTest) returns (count: nat)
    requires t != Equal
    requires Sorted(left) && Sorted(right)
    ensures count == CrossCount(left, right, t)
  {
    count := 0;
    var j := 0;
    for i := 0 to |left|
      invariant 0 <= j <= |right|
      invariant count == CrossCount(left[..i], right, t)
      invariant i == 0 ==> j == 0
      invariant i > 0 ==> forall k :: 0 <= k < j ==> Holds(t, left[i - 1], right[k])
    {
      forall k | 0 <= k < j
        ensures Holds(t, left[i], right[k])
      {
        assert left[i - 1] <= left[i];
      }
      while j < |right| && Holds(t, left[i], right[j])
        invariant j <= |right|
        invariant forall k :: 0 <= k < j ==> Holds(t, left[i], right[k])
      {
        j := j + 1;
      }
      forall k | j <= k < |right|
        ensures !Holds(t, left[i], right[k])
      {
        assert right[j] <= right[k];
      }
      CountBeatenPrefix(left[i], right, j, t);
      assert left[..i + 1][..i] == left[..i];
      count := count + j;
    }
    assert left[..|left|] == left;
  }

  /** The merge loop's invariant: merged is sorted, holds exactly the taken
      heads, and its last element is no larger than either next head. */
  predicate MergeInvariant(merged: seq<int>, left: seq<int>, i: int, right: seq<int>, j: int) {
    0 <= i <= |left| && 0 <= j <= |right|
    && Sorted(merged)
    && multiset(merged) == multiset(left[..i]) + multiset(right[..j])
    && (|merged| > 0 && i < |left| ==> merged[|merged| - 1] <= left[i])
    && (|merged| > 0 && j < |right| ==> merged[|merged| - 1] <= right[j])
  }

  /** The merge step: repeatedly take the smaller head, then append the rest. */
  method Merge(left: seq<int>, right: seq<int>) returns (merged: seq<int>)
    requires Sorted(left) && Sorted(right)
    ensures Sorted(merged)
    ensures multiset(merged) == multiset(left) + multiset(right)
  {
    merged := [];
    var i, j := 0, 0;
    while i < |left| && j < |right|
      invariant MergeInvariant(merged, left, i, right, j)
      decreases |left| - i + |right| - j
    {
      if left[i] <= right[j] {
        TakeLeft(merged, left, i, right, j);
        merged := merged + [left[i]];
        i := i + 1;
      } else {
        TakeLeft(merged, right, j, left, i);
        merged := merged + [right[j]];
        j := j + 1;
      }
    }
    MergeTail(merged, left, i, right, j);
    merged := merged + left[i..];
    merged := merged + right[j..];
  }

  /** Taking the smaller head (here from the first half) keeps the invariant.
      The invariant is symmetric, so this covers both branches. */
  lemma TakeLeft(merged: seq<int>, left: seq<int>, i: int, right: seq<int>, j: int)
    requires Sorted(left) && Sorted(right)
    requires MergeInvariant(merged, left, i, right, j) || MergeInvariant(merged, right, j, left, i)
    requires i < |left| && j < |right| && left[i] <= right[j]
    ensures MergeInvariant(merged + [left[i]], left, i + 1, right, j)
    ensures MergeInvariant(merged + [left[i]], right, j, left, i + 1)
  {
    SortedSnoc(merged, left[i]);
    assert left[..i + 1] == left[..i] + [left[i]];
    if i + 1 < |left| {
      assert left[i] <= left[i + 1];
    }
  }

  /** After the loop one of the halves is used up, and what is left of the
      other follows the merged prefix in order. */
  lemma MergeTail(merged: seq<int>, left: seq<int>, i: int, right: seq<int>, j: int)
    requires Sorted(left) && Sorted(right)
    requires MergeInvariant(merged, left, i, right, j)
    requires i == |left| || j == |right|
    ensures Sorted(merged + left[i..] + right[j..])
    ensures multiset(merged + left[i..] + right[j..]) == multiset(left) + multiset(right)
  {
    MergeTailSorted(merged, left, i, right, j);
    assert multiset(merged + left[i..] + right[j..]) == multiset(merged) + multiset(left[i..]) + multiset(right[j..]);
    assert multiset(left) == multiset(left[..i]) + multiset(left[i..]) by {
      assert left == left[..i] + left[i..];
    }
    assert multiset(right) == multiset(right[..j]) + multiset(right[j..]) by {
      assert right == right[..j] + right[j..];
    }
  }

  lemma MergeTailSorted(merged: seq<int>, left: seq<int>, i: int, right: seq<int>, j: int)
    requires Sorted(left) && Sorted(right)
    requires MergeInvariant(merged, left, i, right, j)
    requires i == |left| || j == |right|
    ensures Sorted(merged + left[i..] + right[j..])
  {
    if i == |left| {
      assert merged + left[i..] + right[j..] == merged + right[j..];
      SortedSuffix(right, j);
      AppendSorted(merged, right[j..]);
    } else {
      assert merged + left[i..] + right[j..] == merged + left[i..];
      SortedSuffix(left, i);
      AppendSorted(merged, left[i..]);
    }
  }

  lemma SortedSnoc(s: seq<int>, x: int)
    requires Sorted(s)
    requires |s| > 0 ==> s[|s| - 1] <= x
    ensures Sorted(s + [x])
  {
    forall i, j | 0 <= i < j < |s| + 1
      ensures (s + [x])[i] <= (s + [x])[j]
    {
      if j == |s| {
        assert s[i] <= s[|s| - 1];
      }
    }
  }

  lemma SortedSuffix(s: seq<int>, i: nat)
    requires Sorted(s) && i <= |s|
    ensures Sorted(s[i..])
  {
    forall a, b | 0 <= a < b < |s| - i
      ensures s[i..][a] <= s[i..][b]
    {
      assert s[i..][a] == s[i + a] && s[i..][b] == s[i + b];
    }
  }

  lemma AppendSorted(a: seq<int>, b: seq<int>)
    requires Sorted(a) && Sorted(b)
    requires |a| > 0 && |b| > 0 ==> a[|a| - 1] <= b[0]
    ensures Sorted(a + b)
  {
    forall i, j | 0 <= i < j < |a + b|
      ensures (a + b)[i] <= (a + b)[j]
    {
      if i < |a| && j >= |a| {
        assert a[i] <= a[|a| - 1];
        assert b[0] <= b[j - |a|];
      }
    }
  }

  /** The inner merge_sort: a sorted permutation of arr and the number of
      pairs of arr counted by t. */
  method MergeSort(arr: seq<int>, t: PairTest) returns (sorted: seq<int>, count: nat)
    requires t != Equal
    ensures Sorted(sorted) && multiset(sorted) == multiset(arr)
    ensures count == PairCount(arr, t)
    decreases |arr|
  {
    if |arr| <= 1 {
      return arr, 0;
    }
    var mid := |arr| / 2;
    var left, countLeft := MergeSort(arr[..mid], t);
    var right, countRight := MergeSort(arr[mid..], t);
    count := countLeft + countRight;
    var cross := CountCrossPairs(left, right, t);
    count := count + cross;
    sorted := Merge(left, right);
    assert arr == arr[..mid] + arr[mid..];
    PairCountSplit(arr[..mid], arr[mid..], t);
    CrossCountPermutation(arr[..mid], arr[mid..], left, right, t);
  }

  /** reverse_pairs_correct. */
  method ReversePairsCorrect(nums: seq<int>) returns (count: nat)
    ensures count == PairCount(nums, Greater)
    ensures 2 * count <= |nums| * (|nums| - 1)
  {
    var _, c := MergeSort(nums, Greater);
    PairCountBound(nums, Greater);
    count := c;
  }

  /** reverse_pairs_buggy. */
  method ReversePairsBuggy(nums: seq<int>) returns (count: nat)
    ensures count == PairCount(nums, GreaterOrEqual)
    ensures 2 * count <= |nums| * (|nums| - 1)
  {
    var _, c := MergeSort(nums, GreaterOrEqual);
    PairCountBound(nums, GreaterOrEqual);
    count := c;
  }

  /** [0, 0]: the one pair has 0 == 2 * 0, so the twin reports 1 where the
      correct version reports 0. */
  lemma BuggyCountsZeroPair()
    ensures PairCount([0, 0], Greater) == 0 && PairCount([0, 0], GreaterOrEqual) == 1
  {
  }
}
