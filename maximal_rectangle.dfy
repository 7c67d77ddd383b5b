/** The largest rectangle made only of "1" cells in a matrix of strings:
    each row turns the matrix into a histogram of runs of "1"s ending at
    that row, and a stack of column indices finds the largest rectangle
    under each histogram. A defective version leaves the stack unflushed
    after the last column. */
module MaximalRectangle {
  import opened PyBase

  // ---------------------------------------------------------------------
  // Histograms

  predicate NonNeg(h: seq<int>) {
    forall c :: 0 <= c < |h| ==> h[c] >= 0
  }

  /** A rectangle of height v fits over columns [lo, hi) of the histogram. */
  predicate Fits(h: seq<int>, lo: int, hi: int, v: int) {
    forall c :: lo <= c < hi ==> 0 <= c < |h| && h[c] >= v
  }

  /** Python's `heights[k]` for k in [-len, len). */
  function PyAt(h: seq<int>, k: int): int
    requires -|h| <= k < |h|
  {
    if k < 0 then h[|h| + k] else h[k]
  }

  /** The stack of column indices, with the -1 marker at the bottom:
      indices increase upward, their heights never decrease upward, and
      each column between two neighbouring entries is at least as tall as
      the upper one. */
  ghost predicate StackOk(h: seq<int>, st: seq<int>, i: int) {
    0 <= i <= |h| && |st| >= 1 && st[0] == -1 &&
    (forall a :: 1 <= a < |st| ==> 0 <= st[a] < i) &&
    (forall a, b :: 0 <= a < b < |st| ==> st[a] < st[b]) &&
    (forall a, b :: 1 <= a < b < |st| ==> h[st[a]] <= h[st[b]]) &&
    (forall a :: 1 <= a < |st| ==> Fits(h, st[a - 1] + 1, st[a], h[st[a]]))
  }

  /** While column i pops the stack: every column between the top and i is
      taller than column i and at least as tall as the top. */
  ghost predicate Settled(h: seq<int>, st: seq<int>, i: int)
    requires StackOk(h, st, i) && i < |h|
  {
    var top := st[|st| - 1];
    Fits(h, top + 1, i, h[i] + 1) && (top >= 0 ==> Fits(h, top + 1, i, h[top]))
  }

  /** While column i pops the stack: a rectangle over [lo, i) too tall to
      continue into column i is counted, or its left end is still on the
      stack. */
  ghost predicate Pending(h: seq<int>, st: seq<int>, i: int, best: int)
    requires |st| >= 1 && 0 <= i < |h|
  {
    forall lo, v :: 0 <= lo <= i && Fits(h, lo, i, v) && h[i] < v ==>
      v * (i - lo) <= best || lo <= st[|st| - 1]
  }

  /** Every rectangle that a lower column j < i stops on the right is counted. */
  ghost predicate Done(h: seq<int>, i: int, best: int)
    requires i <= |h|
  {
    forall lo, j, v :: 0 <= lo <= j < i && Fits(h, lo, j, v) && h[j] < v ==> v * (j - lo) <= best
  }

  /** Every rectangle over columns [0, n) is counted. */
  ghost predicate Covers(h: seq<int>, n: int, best: int) {
    forall lo, hi, v :: 0 <= lo <= hi <= n && Fits(h, lo, hi, v) ==> v * (hi - lo) <= best
  }

  /** best is the starting value or the area of a rectangle over columns
      [lo, hi) within [0, n) whose right neighbour hi is a lower column. */
  ghost predicate Found(h: seq<int>, n: int, best0: int, best: int) {
    best == best0 ||
    exists lo, hi, v :: 0 <= lo <= hi <= n && hi < |h| && 0 <= v && Fits(h, lo, hi, v) && h[hi] < v &&
                        best == v * (hi - lo)
  }

  lemma MulMono(a: int, b: int, x: int, y: int)
    requires 0 <= a <= b && 0 <= x <= y
    ensures a * x <= b * y
  {
    assert a * x <= b * x;
    assert b * x <= b * y;
  }

  /** Popping keeps the stack's shape and what holds between its top and i. */
  lemma PopKeepsShape(h: seq<int>, st: seq<int>, i: int)
    requires NonNeg(h) && 0 <= i < |h|
    requires StackOk(h, st, i) && Settled(h, st, i)
    requires |st| >= 2 && h[i] < h[st[|st| - 1]]
    ensures StackOk(h, st[..|st| - 1], i) && Settled(h, st[..|st| - 1], i)
    ensures Fits(h, st[|st| - 2] + 1, i, h[st[|st| - 1]])
  {
    var p, t := st[|st| - 1], st[|st| - 2];
    assert Fits(h, t + 1, p, h[p]);
    assert t >= 0 ==> h[t] <= h[p];
    assert Fits(h, t + 1, i, h[p]);
  }

  /** The rectangle recorded when the top is popped settles every pending
      rectangle whose left end lies above the new top. */
  lemma PopKeepsPending(h: seq<int>, st: seq<int>, i: int, best: int, best': int)
    requires NonNeg(h) && 0 <= i < |h|
    requires StackOk(h, st, i) && Settled(h, st, i) && Pending(h, st, i, best)
    requires |st| >= 2 && h[i] < h[st[|st| - 1]]
    requires best' == Max(best, h[st[|st| - 1]] * (i - st[|st| - 2] - 1))
    ensures Pending(h, st[..|st| - 1], i, best')
  {
    var p, t := st[|st| - 1], st[|st| - 2];
    forall lo, v | 0 <= lo <= i && Fits(h, lo, i, v) && h[i] < v
      ensures v * (i - lo) <= best' || lo <= t
    {
      if t < lo <= p {
        assert h[p] >= v;
        MulMono(v, h[p], i - lo, i - t - 1);
      }
    }
  }

  /** Recording the popped rectangle keeps best a found area. */
  lemma PopKeepsFound(h: seq<int>, n: int, best0: int, best: int, lo: int, hi: int, v: int)
    requires Found(h, n, best0, best)
    requires 0 <= lo <= hi <= n && hi < |h| && 0 <= v && Fits(h, lo, hi, v) && h[hi] < v
    ensures Found(h, n, best0, Max(best, v * (hi - lo)))
  {
  }

  lemma DoneMono(h: seq<int>, i: int, best: int, best': int)
    requires i <= |h| && Done(h, i, best) && best <= best'
    ensures Done(h, i, best')
  {
  }

  /** Pushing column i once the pops are over keeps the stack's shape. */
  lemma PushKeepsShape(h: seq<int>, st: seq<int>, i: int)
    requires NonNeg(h) && 0 <= i < |h|
    requires StackOk(h, st, i) && Settled(h, st, i)
    requires st[|st| - 1] >= 0 ==> h[st[|st| - 1]] <= h[i]
    ensures StackOk(h, st + [i], i + 1)
  {
    var top := st[|st| - 1];
    var st' := st + [i];
    forall a | 1 <= a < |st'|
      ensures 0 <= st'[a] < i + 1
    {
      if a < |st| {
        assert st'[a] == st[a];
      }
    }
    forall a, b | 0 <= a < b < |st'|
      ensures st'[a] < st'[b]
    {
      assert st'[a] == st[a];
      if b < |st| {
        assert st'[b] == st[b];
      }
    }
    forall a, b | 1 <= a < b < |st'|
      ensures h[st'[a]] <= h[st'[b]]
    {
      assert st'[a] == st[a];
      if b < |st| {
        assert st'[b] == st[b];
      } else if a < |st| - 1 {
        assert h[st[a]] <= h[top];
      }
    }
    forall a | 1 <= a < |st'|
      ensures Fits(h, st'[a - 1] + 1, st'[a], h[st'[a]])
    {
      assert st'[a - 1] == st[a - 1];
      if a < |st| {
        assert st'[a] == st[a];
      } else {
        assert Fits(h, top + 1, i, h[i] + 1);
      }
    }
  }

  /** Once the pops are over, no pending rectangle is left: every rectangle
      that column i stops is counted. */
  lemma PushKeepsDone(h: seq<int>, st: seq<int>, i: int, best: int)
    requires 0 <= i < |h| && |st| >= 1 && st[|st| - 1] < i
    requires Pending(h, st, i, best) && Done(h, i, best)
    requires st[|st| - 1] >= 0 ==> h[st[|st| - 1]] <= h[i]
    ensures Done(h, i + 1, best)
  {
    var top := st[|st| - 1];
    forall lo, j, v | 0 <= lo <= j < i + 1 && Fits(h, lo, j, v) && h[j] < v
      ensures v * (j - lo) <= best
    {
      if j == i && lo <= top {
        assert false;
      }
    }
  }

  /** A rectangle of height v > h[n] over [lo, hi) runs on to the first
      column that is lower than v. */
  lemma {:induction false} RunsToDrop(h: seq<int>, lo: int, hi: int, v: int, n: int)
    requires 0 <= lo <= hi <= n < |h| && h[n] < v && Fits(h, lo, hi, v)
    ensures exists j :: hi <= j <= n && Fits(h, lo, j, v) && h[j] < v
    decreases n - hi
  {
    if h[hi] >= v {
      RunsToDrop(h, lo, hi + 1, v, n);
    }
  }

  /** With a zero sentinel at column n, counting every rectangle stopped by
      a lower column counts every rectangle over [0, n). */
  lemma SentinelCoversAll(h: seq<int>, n: int, best: int)
    requires 0 <= n && |h| == n + 1 && h[n] == 0 && Done(h, n + 1, best) && 0 <= best
    ensures Covers(h, n, best)
  {
    forall lo, hi, v | 0 <= lo <= hi <= n && Fits(h, lo, hi, v)
      ensures v * (hi - lo) <= best
    {
      if v > 0 {
        RunsToDrop(h, lo, hi, v, n);
        var j :| hi <= j <= n && Fits(h, lo, j, v) && h[j] < v;
        MulMono(v, v, hi - lo, j - lo);
      } else {
        assert v * (hi - lo) <= 0 * (hi - lo);
      }
    }
  }

  /** Between two columns: the stack is in shape, its top is the last
      column pushed, and best is a found area counting every rectangle
      stopped by a lower column before i. */
  ghost predicate Scanned(h: seq<int>, st: seq<int>, i: int, n: int, best0: int, best: int) {
    NonNeg(h) && 0 <= best0 <= best &&
    StackOk(h, st, i) && st[|st| - 1] == i - 1 && Found(h, n, best0, best) && Done(h, i, best)
  }

  /** While column i pops the stack. */
  ghost predicate Popping(h: seq<int>, st: seq<int>, i: int, n: int, best0: int, best: int) {
    NonNeg(h) && 0 <= best0 <= best && i <= n && i < |h| &&
    StackOk(h, st, i) && Settled(h, st, i) && Pending(h, st, i, best) &&
    Found(h, n, best0, best) && Done(h, i, best)
  }

  lemma StartPops(h: seq<int>, st: seq<int>, i: int, n: int, best0: int, best: int)
    requires Scanned(h, st, i, n, best0, best) && i < |h| && i <= n
    ensures Popping(h, st, i, n, best0, best)
  {
  }

  /** Popping the top records the rectangle between the new top and i. */
  lemma PopStep(h: seq<int>, st: seq<int>, i: int, n: int, best0: int, best: int)
    requires Popping(h, st, i, n, best0, best)
    requires |st| >= 2 && h[i] < h[st[|st| - 1]]
    ensures Popping(h, st[..|st| - 1], i, n, best0,
                    Max(best, h[st[|st| - 1]] * (i - st[|st| - 2] - 1)))
  {
    var p, t := st[|st| - 1], st[|st| - 2];
    var best' := Max(best, h[p] * (i - t - 1));
    PopKeepsShape(h, st, i);
    PopKeepsPending(h, st, i, best, best');
    PopKeepsFound(h, n, best0, best, t + 1, i, h[p]);
    DoneMono(h, i, best, best');
  }

  /** Pushing i once no top is taller than column i. */
  lemma PushStep(h: seq<int>, st: seq<int>, i: int, n: int, best0: int, best: int)
    requires Popping(h, st, i, n, best0, best)
    requires st[|st| - 1] >= 0 ==> h[st[|st| - 1]] <= h[i]
    ensures Scanned(h, st + [i], i + 1, n, best0, best)
  {
    PushKeepsShape(h, st, i);
    PushKeepsDone(h, st, i, best);
  }

  /** The inner `for` loop of maximal_rectangle_correct over one histogram,
      whose last entry is the zero sentinel: the new maximum is the larger of
      the old one and the largest rectangle under the histogram. */
  method ScanCorrect(heights: seq<int>, maxArea: int) returns (best: int)
    requires |heights| >= 1 && heights[|heights| - 1] == 0 && NonNeg(heights) && 0 <= maxArea
    ensures maxArea <= best
    ensures Found(heights, |heights| - 1, maxArea, best)
    ensures Covers(heights, |heights| - 1, best)
  {
    var h, n := heights, |heights| - 1;
    var stack := [-1];
    best := maxArea;
    for i := 0 to n + 1
      invariant Scanned(h, stack, i, n, maxArea, best)
    {
      StartPops(h, stack, i, n, maxArea, best);
      while h[i] < PyAt(h, stack[|stack| - 1])
        invariant Popping(h, stack, i, n, maxArea, best)
        decreases |stack|
      {
        PopStep(h, stack, i, n, maxArea, best);
        var p := stack[|stack| - 1];
        stack := stack[..|stack| - 1];
        var height := h[p];
        var w := i - stack[|stack| - 1] - 1;
        best := Max(best, height * w);
      }
      PushStep(h, stack, i, n, maxArea, best);
      stack := stack + [i];
    }
    SentinelCoversAll(h, n, best);
  }

  /** full is the stack st with the -1 marker slid under it. */
  predicate Marked(full: seq<int>, st: seq<int>) {
    |full| == |st| + 1 && full[0] == -1 && forall a :: 1 <= a < |full| ==> full[a] == st[a - 1]
  }

  /** The `while` loop of maximal_rectangle_buggy at column i: pops every
      taller column off the stack, with no marker under it. */
  method PopTallerBuggy(h: seq<int>, stack: seq<int>, i: int, n: int, maxArea: int, best: int, ghost full: seq<int>)
    returns (stack': seq<int>, best': int, ghost full': seq<int>)
    requires 0 <= i < |h| && i <= n
    requires Marked(full, stack) && Scanned(h, full, i, n, maxArea, best)
    ensures Marked(full', stack') && Popping(h, full', i, n, maxArea, best')
    ensures full'[|full'| - 1] >= 0 ==> h[full'[|full'| - 1]] <= h[i]
    ensures Sorted(h) ==> best' == best
  {
    StartPops(h, full, i, n, maxArea, best);
    stack', best', full' := stack, best, full;
    while |stack'| > 0 && h[i] < h[stack'[|stack'| - 1]]
      invariant Marked(full', stack') && Popping(h, full', i, n, maxArea, best')
      invariant Sorted(h) ==> best' == best && full'[|full'| - 1] == i - 1
      decreases |stack'|
    {
      PopStep(h, full', i, n, maxArea, best');
      var p := stack'[|stack'| - 1];
      stack' := stack'[..|stack'| - 1];
      full' := full'[..|full'| - 1];
      var height := h[p];
      var w := if |stack'| == 0 then i else i - stack'[|stack'| - 1] - 1;
      best' := Max(best', height * w);
    }
  }

  /** The inner `for` loop of maximal_rectangle_buggy: no marker under the
      stack, no sentinel column, and what is left on the stack after the
      last column is never measured. The result is the larger of maxArea and
      the largest rectangle whose right neighbour is a lower column; on a
      histogram that never decreases nothing is popped at all. */
  method ScanBuggy(heights: seq<int>, maxArea: int) returns (best: int)
    requires NonNeg(heights) && 0 <= maxArea
    ensures maxArea <= best
    ensures Found(heights, |heights|, maxArea, best)
    ensures Done(heights, |heights|, best)
    ensures Sorted(heights) ==> best == maxArea
  {
    var h, n := heights, |heights|;
    var stack: seq<int> := [];
    ghost var full := [-1];
    best := maxArea;
    for i := 0 to n
      invariant Marked(full, stack) && Scanned(h, full, i, n, maxArea, best)
      invariant Sorted(h) ==> best == maxArea
    {
      stack, best, full := PopTallerBuggy(h, stack, i, n, maxArea, best, full);
      PushStep(h, full, i, n, maxArea, best);
      stack := stack + [i];
      full := full + [i];
    }
  }

  // ---------------------------------------------------------------------
  // Matrices

  /** `len(matrix[0])`, the width every row is read up to. */
  function NCols(m: seq<seq<string>>): nat {
    if |m| == 0 then 0 else |m[0]|
  }

  /** No row is shorter than the first; otherwise `row[i]` raises IndexError. */
  predicate RowsLongEnough(m: seq<seq<string>>) {
    forall r :: 0 <= r < |m| ==> |m[r]| >= NCols(m)
  }

  predicate IsOne(m: seq<seq<string>>, r: int, c: int) {
    0 <= r < |m| && 0 <= c < |m[r]| && m[r][c] == "1"
  }

  /** Rows [r1, r2) of column c hold only "1". */
  predicate ColumnOnes(m: seq<seq<string>>, c: int, r1: int, r2: int) {
    forall r :: r1 <= r < r2 ==> IsOne(m, r, c)
  }

  /** Rows [r1, r2) and columns [c1, c2) hold only "1". */
  ghost predicate OnesRect(m: seq<seq<string>>, r1: int, r2: int, c1: int, c2: int) {
    0 <= r1 <= r2 <= |m| && 0 <= c1 <= c2 <= NCols(m) &&
    forall c :: c1 <= c < c2 ==> ColumnOnes(m, c, r1, r2)
  }

  /** a is the area of a rectangle of "1"s that ends by row k. */
  ghost predicate AreaUpTo(m: seq<seq<string>>, k: int, a: int) {
    exists r1, r2, c1, c2 :: OnesRect(m, r1, r2, c1, c2) && r2 <= k && a == (r2 - r1) * (c2 - c1)
  }

  /** No rectangle of "1"s that ends by row k has an area above a. */
  ghost predicate BoundUpTo(m: seq<seq<string>>, k: int, a: int) {
    forall r1, r2, c1, c2 :: OnesRect(m, r1, r2, c1, c2) && r2 <= k ==> (r2 - r1) * (c2 - c1) <= a
  }

  /** a is the area of the largest rectangle of "1"s in the matrix. */
  ghost predicate IsLargestRect(m: seq<seq<string>>, a: int) {
    AreaUpTo(m, |m|, a) && BoundUpTo(m, |m|, a)
  }

  /** a is 0 or the area of a rectangle of "1"s that ends by row k and
      whose right neighbour column c2 is not all "1" over its rows. */
  ghost predicate StoppedAreaUpTo(m: seq<seq<string>>, k: int, a: int) {
    a == 0 ||
    exists r1, r2, c1, c2 :: OnesRect(m, r1, r2, c1, c2) && r2 <= k && c2 < NCols(m) &&
                             !ColumnOnes(m, c2, r1, r2) && a == (r2 - r1) * (c2 - c1)
  }

  /** No rectangle of "1"s that ends by row k and has a column c right of it
      that is not all "1" over its rows has an area above a. */
  ghost predicate StoppedBoundUpTo(m: seq<seq<string>>, k: int, a: int) {
    forall r1, r2, c1, c2, c ::
      OnesRect(m, r1, r2, c1, c2) && r2 <= k && c2 <= c < NCols(m) && !ColumnOnes(m, c, r1, r2) ==>
        (r2 - r1) * (c2 - c1) <= a
  }

  /** `heights[c]` after rows [0, k): the run of "1"s in column c ending at row k - 1. */
  function Run(m: seq<seq<string>>, k: nat, c: int): (r: nat)
    requires k <= |m|
    ensures r <= k
  {
    if k == 0 then 0 else if IsOne(m, k - 1, c) then Run(m, k - 1, c) + 1 else 0
  }

  /** The run in column c reaches v rows up from row k exactly when those
      v cells are all "1". */
  lemma {:induction false} RunReaches(m: seq<seq<string>>, k: nat, c: int, v: int)
    requires k <= |m| && 0 <= v <= k
    ensures Run(m, k, c) >= v <==> ColumnOnes(m, c, k - v, k)
  {
    if v > 0 {
      RunReaches(m, k - 1, c, v - 1);
    }
  }

  lemma EmptyRectAnywhere(m: seq<seq<string>>, k: int)
    requires 0 <= k <= |m|
    ensures AreaUpTo(m, k, 0) && BoundUpTo(m, 0, 0)
  {
    assert OnesRect(m, 0, 0, 0, 0);
  }

  /** A rectangle found under the histogram of row k is a rectangle of "1"s
      whose bottom row is k. */
  lemma RowStepFound(m: seq<seq<string>>, k: nat, h: seq<int>, best0: int, best: int)
    requires k < |m| && |h| >= NCols(m)
    requires forall c :: 0 <= c < NCols(m) ==> h[c] == Run(m, k + 1, c)
    requires AreaUpTo(m, k, best0) && Found(h, NCols(m), best0, best)
    ensures AreaUpTo(m, k + 1, best)
  {
    if best != best0 {
      var lo, hi, v :| 0 <= lo <= hi <= NCols(m) && hi < |h| && 0 <= v && Fits(h, lo, hi, v) && h[hi] < v &&
                       best == v * (hi - lo);
      if lo == hi {
        EmptyRectAnywhere(m, k + 1);
      } else {
        assert v <= k + 1 by {
          assert h[lo] == Run(m, k + 1, lo);
        }
        var r1, r2 := k + 1 - v, k + 1;
        forall c | lo <= c < hi
          ensures ColumnOnes(m, c, r1, r2)
        {
          assert h[c] >= v && h[c] == Run(m, r2, c);
          RunReaches(m, r2, c, v);
        }
        assert OnesRect(m, r1, r2, lo, hi);
      }
    }
  }

  /** Every rectangle of "1"s whose bottom row is k fits under the histogram
      of row k. */
  lemma RowStepBound(m: seq<seq<string>>, k: nat, h: seq<int>, best0: int, best: int)
    requires k < |m| && |h| >= NCols(m)
    requires forall c :: 0 <= c < NCols(m) ==> h[c] == Run(m, k + 1, c)
    requires BoundUpTo(m, k, best0) && best0 <= best && Covers(h, NCols(m), best)
    ensures BoundUpTo(m, k + 1, best)
  {
    forall r1, r2, c1, c2 | OnesRect(m, r1, r2, c1, c2) && r2 <= k + 1
      ensures (r2 - r1) * (c2 - c1) <= best
    {
      if r2 == k + 1 {
        forall c | c1 <= c < c2
          ensures h[c] >= r2 - r1
        {
          RunReaches(m, k + 1, c, r2 - r1);
        }
        assert Fits(h, c1, c2, r2 - r1);
      }
    }
  }

  /** An area the defective scan finds in the histogram of row k is that of
      a rectangle of "1"s ending at row k whose right neighbour column is
      lower. */
  lemma RowStepStoppedFound(m: seq<seq<string>>, k: nat, h: seq<int>, best0: int, best: int)
    requires k < |m| && |h| == NCols(m)
    requires forall c :: 0 <= c < NCols(m) ==> h[c] == Run(m, k + 1, c)
    requires StoppedAreaUpTo(m, k, best0) && Found(h, NCols(m), best0, best)
    ensures StoppedAreaUpTo(m, k + 1, best)
  {
    if best != best0 {
      var lo, hi, v :| 0 <= lo <= hi <= NCols(m) && hi < |h| && 0 <= v && Fits(h, lo, hi, v) && h[hi] < v &&
                       best == v * (hi - lo);
      if lo < hi {
        assert v <= k + 1 by {
          assert h[lo] == Run(m, k + 1, lo);
        }
        var r1, r2 := k + 1 - v, k + 1;
        forall c | lo <= c < hi
          ensures ColumnOnes(m, c, r1, r2)
        {
          assert h[c] >= v && h[c] == Run(m, r2, c);
          RunReaches(m, r2, c, v);
        }
        RunReaches(m, r2, hi, v);
        assert OnesRect(m, r1, r2, lo, hi) && !ColumnOnes(m, hi, r1, r2);
      }
    }
  }

  /** Once the defective scan has counted every rectangle under the histogram
      of row k that a lower column stops, it has counted every rectangle of
      "1"s ending at row k with a column right of it that is not all "1". */
  lemma RowStepStoppedBound(m: seq<seq<string>>, k: nat, h: seq<int>, best0: int, best: int)
    requires k < |m| && |h| == NCols(m)
    requires forall c :: 0 <= c < NCols(m) ==> h[c] == Run(m, k + 1, c)
    requires StoppedBoundUpTo(m, k, best0) && best0 <= best && Done(h, |h|, best)
    ensures StoppedBoundUpTo(m, k + 1, best)
  {
    forall r1, r2, c1, c2, c | OnesRect(m, r1, r2, c1, c2) && r2 <= k + 1 && c2 <= c < NCols(m) &&
                               !ColumnOnes(m, c, r1, r2)
      ensures (r2 - r1) * (c2 - c1) <= best
    {
      if r2 == k + 1 {
        var v := r2 - r1;
        forall q | c1 <= q < c2
          ensures h[q] >= v
        {
          RunReaches(m, k + 1, q, v);
        }
        RunReaches(m, k + 1, c, v);
        RunsToDrop(h, c1, c2, v, c);
        var j :| c2 <= j <= c && Fits(h, c1, j, v) && h[j] < v;
        MulMono(v, v, c2 - c1, j - c1);
      }
    }
  }

  /** The `heights[i] = heights[i] + 1 if row[i] == "1" else 0` loop; false
      when the row is too short and `row[i]` raises IndexError. */
  method UpdateHeights(heights: array<int>, row: seq<string>, nCols: int) returns (ok: bool)
    requires 0 <= nCols <= heights.Length
    modifies heights
    ensures ok <==> |row| >= nCols
    ensures ok ==> forall c :: 0 <= c < nCols ==>
                     heights[c] == if row[c] == "1" then old(heights[c]) + 1 else 0
    ensures ok ==> heights[nCols..] == old(heights[nCols..])
  {
    for i := 0 to nCols
      invariant i <= |row|
      invariant forall c :: 0 <= c < i ==> heights[c] == if row[c] == "1" then old(heights[c]) + 1 else 0
      invariant heights[i..] == old(heights[i..])
    {
      if i >= |row| {
        return false;
      }
      assert heights[i] == old(heights[i]) by {
        assert heights[i..][0] == old(heights[i..])[0];
      }
      heights[i] := if row[i] == "1" then heights[i] + 1 else 0;
      assert heights[i + 1..] == old(heights[i + 1..]) by {
        assert heights[i + 1..] == old(heights[i..])[1..];
      }
    }
    assert heights[nCols..] == old(heights[nCols..]);
    return true;
  }

  /** The histogram update turns the runs after row k into the runs after row k + 1. */
  lemma NextRuns(m: seq<seq<string>>, k: nat, before: seq<int>, after: seq<int>)
    requires k < |m| && |m[k]| >= NCols(m) && |before| >= NCols(m) && |after| >= NCols(m)
    requires forall c :: 0 <= c < NCols(m) ==> before[c] == Run(m, k, c)
    requires forall c :: 0 <= c < NCols(m) ==> after[c] == if m[k][c] == "1" then before[c] + 1 else 0
    ensures forall c :: 0 <= c < NCols(m) ==> after[c] == Run(m, k + 1, c)
  {
  }

  /** maximal_rectangle_correct: the area of the largest rectangle of "1"s,
      or IndexError when a row is shorter than the first. */
  method MaximalRectangleCorrect(matrix: seq<seq<string>>) returns (r: Result<int>)
    ensures |matrix| == 0 ==> r == Success(0)
    ensures r.Failure? <==> !RowsLongEnough(matrix)
    ensures r.Failure? ==> r.error == IndexError
    ensures r.Success? ==> IsLargestRect(matrix, r.value)
  {
    if |matrix| == 0 {
      EmptyRectAnywhere(matrix, 0);
      return Success(0);
    }
    var nCols := |matrix[0]|;
    var heights := new int[nCols + 1](_ => 0);
    var maxArea := 0;
    EmptyRectAnywhere(matrix, 0);
    for k := 0 to |matrix|
      invariant heights.Length == nCols + 1 && heights[nCols] == 0
      invariant forall c :: 0 <= c < nCols ==> heights[c] == Run(matrix, k, c)
      invariant forall q :: 0 <= q < k ==> |matrix[q]| >= nCols
      invariant 0 <= maxArea && AreaUpTo(matrix, k, maxArea) && BoundUpTo(matrix, k, maxArea)
    {
      ghost var before := heights[..];
      var ok := UpdateHeights(heights, matrix[k], nCols);
      if !ok {
        return Failure(IndexError);
      }
      assert heights[nCols] == heights[nCols..][0];
      NextRuns(matrix, k, before, heights[..]);
      var best := ScanCorrect(heights[..], maxArea);
      RowStepFound(matrix, k, heights[..], maxArea, best);
      RowStepBound(matrix, k, heights[..], maxArea, best);
      maxArea := best;
    }
    return Success(maxArea);
  }

  predicate AllOnes(m: seq<seq<string>>) {
    forall r, c :: 0 <= r < |m| && 0 <= c < |m[r]| ==> m[r][c] == "1"
  }

  /** maximal_rectangle_buggy: IndexError exactly as the correct version;
      otherwise the largest area of a rectangle of "1"s whose right
      neighbour column is not all "1" over its rows, or 0 when there is
      none. So 0 on a matrix of "1"s, whose histograms never decrease. */
  method MaximalRectangleBuggy(matrix: seq<seq<string>>) returns (r: Result<int>)
    ensures |matrix| == 0 ==> r == Success(0)
    ensures r.Failure? <==> !RowsLongEnough(matrix)
    ensures r.Failure? ==> r.error == IndexError
    ensures r.Success? ==> AreaUpTo(matrix, |matrix|, r.value)
    ensures r.Success? ==> StoppedAreaUpTo(matrix, |matrix|, r.value) && StoppedBoundUpTo(matrix, |matrix|, r.value)
    ensures AllOnes(matrix) && r.Success? ==> r.value == 0
  {
    if |matrix| == 0 {
      EmptyRectAnywhere(matrix, 0);
      return Success(0);
    }
    var nCols := |matrix[0]|;
    var heights := new int[nCols](_ => 0);
    var maxArea := 0;
    EmptyRectAnywhere(matrix, 0);
    for k := 0 to |matrix|
      invariant heights.Length == nCols
      invariant forall c :: 0 <= c < nCols ==> heights[c] == Run(matrix, k, c)
      invariant forall q :: 0 <= q < k ==> |matrix[q]| >= nCols
      invariant 0 <= maxArea && AreaUpTo(matrix, k, maxArea)
      invariant StoppedAreaUpTo(matrix, k, maxArea) && StoppedBoundUpTo(matrix, k, maxArea)
      invariant AllOnes(matrix) ==> maxArea == 0
    {
      ghost var before := heights[..];
      var ok := UpdateHeights(heights, matrix[k], nCols);
      if !ok {
        return Failure(IndexError);
      }
      NextRuns(matrix, k, before, heights[..]);
      if AllOnes(matrix) {
        AllOnesRunsLevel(matrix, k + 1, heights[..]);
      }
      var best := ScanBuggy(heights[..], maxArea);
      RowStepFound(matrix, k, heights[..], maxArea, best);
      RowStepStoppedFound(matrix, k, heights[..], maxArea, best);
      RowStepStoppedBound(matrix, k, heights[..], maxArea, best);
      maxArea := best;
    }
    return Success(maxArea);
  }

  /** In a matrix of "1"s every run after k rows is k, so the histogram is level. */
  lemma AllOnesRunsLevel(m: seq<seq<string>>, k: nat, h: seq<int>)
    requires AllOnes(m) && 0 < k <= |m| && |h| == NCols(m)
    requires forall q :: 0 <= q < k ==> |m[q]| >= NCols(m)
    requires forall c :: 0 <= c < NCols(m) ==> h[c] == Run(m, k, c)
    ensures Sorted(h)
  {
    forall c | 0 <= c < NCols(m)
      ensures h[c] == k
    {
      RunOfOnes(m, k, c);
    }
  }

  lemma {:induction false} RunOfOnes(m: seq<seq<string>>, k: nat, c: int)
    requires AllOnes(m) && k <= |m| && 0 <= c < NCols(m)
    requires forall q :: 0 <= q < k ==> |m[q]| >= NCols(m)
    ensures Run(m, k, c) == k
  {
    if k > 0 {
      RunOfOnes(m, k - 1, c);
    }
  }

  /** Any rectangle's area lies in [0, rows * cols], so both versions'
      results do. */
  lemma AreaBounded(m: seq<seq<string>>, a: int)
    requires AreaUpTo(m, |m|, a)
    ensures 0 <= a <= |m| * NCols(m)
  {
    var r1, r2, c1, c2 :| OnesRect(m, r1, r2, c1, c2) && r2 <= |m| && a == (r2 - r1) * (c2 - c1);
    MulMono(0, r2 - r1, 0, c2 - c1);
    MulMono(r2 - r1, |m|, c2 - c1, NCols(m));
  }

  /** A matrix of "1"s is its own largest rectangle; the defective version
      returns 0 on it. */
  lemma AllOnesLargest(m: seq<seq<string>>)
    requires AllOnes(m) && RowsLongEnough(m)
    ensures IsLargestRect(m, |m| * NCols(m))
  {
    assert OnesRect(m, 0, |m|, 0, NCols(m));
    forall r1, r2, c1, c2 | OnesRect(m, r1, r2, c1, c2)
      ensures (r2 - r1) * (c2 - c1) <= |m| * NCols(m)
    {
      MulMono(r2 - r1, |m|, c2 - c1, NCols(m));
    }
  }
}
