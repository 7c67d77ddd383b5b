/** Random input generators, one per problem, and the dispatcher that draws
    n input tuples for a named problem. Every `random.*` call is a choice
    the model leaves open (`:|`), so each contract holds for every outcome
    of the random draws, whatever their probabilities. */
module RandomGenerator {
  import opened PyBase
  import opened Genes
  import DecodeWays
  import MaximalRectangle

  predicate Lowercase(s: string) {
    forall i :: 0 <= i < |s| ==> 'a' <= s[i] <= 'z'
  }

  /** `''.join(random.choices(letters, k=k))`. */
  method RandomLetters(k: nat) returns (s: string)
    ensures |s| == k && Lowercase(s)
  {
    s := [];
    for i := 0 to k
      invariant |s| == i && Lowercase(s)
    {
      var c :| 'a' <= c <= 'z';
      s := s + [c];
    }
  }

  /** `[random.randint(lo, hi) for _ in range(k)]`. */
  method RandomInts(k: nat, lo: int, hi: int) returns (s: seq<int>)
    requires lo <= hi
    ensures |s| == k && Within(s, lo, hi)
  {
    s := [];
    for i := 0 to k
      invariant |s| == i && Within(s, lo, hi)
    {
      var x :| lo <= x <= hi;
      s := s + [x];
    }
  }

  /** random_input_test_branch. */
  method RandomInputTestBranch() returns (x: int)
    ensures 1 <= x <= 100
  {
    x :| 1 <= x <= 100;
  }

  predicate EditDistanceInput(s1: string, s2: string) {
    |s1| <= 5 && |s2| <= 5 && Lowercase(s1) && Lowercase(s2)
  }

  /** random_input_edit_distance: two lowercase words of the drawn lengths
      n1 and n2, each at most five; when linked, one letter of the first has
      been copied into one position of the second. */
  method RandomInputEditDistance() returns (s1: string, s2: string, n1: nat, n2: nat, linked: bool)
    ensures EditDistanceInput(s1, s2)
    ensures n1 <= 5 && n2 <= 5 && |s1| == n1 && |s2| == n2
    ensures linked ==> n1 > 0 && n2 > 0 && exists i, j :: 0 <= i < |s1| && 0 <= j < |s2| && s2[j] == s1[i]
  {
    n1 :| 0 <= n1 <= 5;
    s1 := RandomLetters(n1);
    n2 :| 0 <= n2 <= 5;
    s2 := RandomLetters(n2);
    var link: bool :| true;
    linked := link && |s1| > 0 && |s2| > 0;
    if linked {
      var idx1 :| 0 <= idx1 < |s1|;
      var idx2 :| 0 <= idx2 < |s2|;
      s2 := s2[..idx2] + [s1[idx1]] + s2[idx2 + 1..];
      assert s2[idx2] == s1[idx1];
    }
  }

  /** Every row is empty or holds `cols` cells "0" or "1". */
  predicate Grid(m: seq<seq<string>>, cols: int) {
    forall r :: 0 <= r < |m| ==>
      m[r] == [] || (|m[r]| == cols && forall c :: 0 <= c < cols ==> m[r][c] == "0" || m[r][c] == "1")
  }

  predicate MatrixInput(m: seq<seq<string>>) {
    |m| <= 5 && exists cols :: 0 <= cols <= 5 && Grid(m, cols)
  }

  /** random_input_maximal_rectangle: up to five rows, each either empty or
      `cols` random cells, the same `cols` for every row. */
  method RandomInputMaximalRectangle() returns (matrix: seq<seq<string>>)
    ensures MatrixInput(matrix)
  {
    var rows :| 0 <= rows <= 5;
    var cols :| 0 <= cols <= 5;
    matrix := [];
    for r := 0 to rows
      invariant |matrix| == r && Grid(matrix, cols)
    {
      var empty: bool :| true;
      if empty {
        matrix := matrix + [[]];
      } else {
        var row: seq<string> := [];
        for c := 0 to cols
          invariant |row| == c && forall j :: 0 <= j < c ==> row[j] == "0" || row[j] == "1"
        {
          var one: bool :| true;
          row := row + [if one then "1" else "0"];
        }
        matrix := matrix + [row];
      }
    }
  }

  /** The generated matrices make maximal_rectangle_correct raise IndexError
      exactly when the first row is full and a later row is empty: rows are
      either all as long as the first, or empty. */
  lemma RaggedMatrices(m: seq<seq<string>>, cols: int)
    requires Grid(m, cols) && 0 <= cols
    ensures !MaximalRectangle.RowsLongEnough(m) <==>
            |m| > 0 && |m[0]| > 0 && exists r :: 0 <= r < |m| && m[r] == []
  {
    if |m| > 0 && |m[0]| > 0 && exists r :: 0 <= r < |m| && m[r] == [] {
      var r :| 0 <= r < |m| && m[r] == [];
      assert |m[r]| < MaximalRectangle.NCols(m);
    }
  }

  predicate ReversePairsInput(nums: seq<int>) {
    |nums| <= 13 && Within(nums, -20, 20)
  }

  /** random_input_reverse_pairs: n integers in [-20, 20] for a drawn
      n <= 12, maybe one repeated at the end, maybe sorted either way, maybe
      all reset to n zeros. The draw and the zero choice are returned too. */
  method RandomInputReversePairs() returns (nums: seq<int>, n: nat, zeroed: bool)
    ensures ReversePairsInput(nums)
    ensures n <= 12 && n <= |nums| <= n + 1 && (|nums| == n + 1 ==> n > 0)
    ensures zeroed ==> nums == seq(n, _ => 0)
  {
    n :| 0 <= n <= 12;
    nums := RandomInts(n, -20, 20);
    var repeat: bool :| true;
    if |nums| > 0 && repeat {
      var i :| 0 <= i < |nums|;
      nums := nums + [nums[i]];
    }
    nums := MaybeSort(nums, -20, 20);
    var zeros: bool :| true;
    zeroed := zeros;
    if zeros {
      nums := seq(n, _ => 0);
    }
  }

  /** The two optional sorts of random_input_reverse_pairs: descending, then
      ascending. Either reorders the list, so its length and bounds stay. */
  method MaybeSort(nums: seq<int>, lo: int, hi: int) returns (r: seq<int>)
    requires Within(nums, lo, hi)
    ensures |r| == |nums| && Within(r, lo, hi)
  {
    r := nums;
    var descending: bool :| true;
    if descending {
      WithinPermutation(r, SortDesc(r), lo, hi);
      assert |multiset(SortDesc(r))| == |multiset(r)|;
      r := SortDesc(r);
    }
    var ascending: bool :| true;
    if ascending {
      WithinPermutation(r, SortAsc(r), lo, hi);
      assert |multiset(SortAsc(r))| == |multiset(r)|;
      r := SortAsc(r);
    }
  }

  /** Sorted, or a sorted list with a copy of one of its items appended. */
  predicate SortedOrRepeated(a: seq<int>) {
    Sorted(a) || (|a| >= 2 && Sorted(a[..|a| - 1]) && a[|a| - 1] in a[..|a| - 1])
  }

  predicate MedianInput(a: seq<int>, b: seq<int>) {
    |a| <= 7 && |b| <= 7 && Within(a, -25, 24) && Within(b, -25, 24) &&
    SortedOrRepeated(a) && SortedOrRepeated(b)
  }

  /** random_input_median_two_arrays: two sorted lists of up to six values
      from range(-25, 25); sometimes one is emptied, sometimes each gets a copy
      of one of its items appended, and sometimes both are redrawn with the
      longer length. */
  method RandomInputMedianTwoArrays() returns (arr1: seq<int>, arr2: seq<int>)
    ensures MedianInput(arr1, arr2)
  {
    var len1 :| 0 <= len1 <= 6;
    var len2 :| 0 <= len2 <= 6;
    arr1 := SortedDraw(len1);
    arr2 := SortedDraw(len2);
    var emptyOne: bool :| true;
    if emptyOne {
      var first: bool :| true;
      if first {
        arr1 := [];
      } else {
        arr2 := [];
      }
    }
    var repeat: bool :| true;
    if repeat {
      arr1 := AppendCopy(arr1);
      arr2 := AppendCopy(arr2);
    }
    var redraw: bool :| true;
    if redraw {
      var maxLen := Max(len1, len2);
      arr1 := SortedDraw(maxLen);
      arr2 := SortedDraw(maxLen);
    }
  }

  /** `sorted(random.choices(range(-25, 25), k=k))`. */
  method SortedDraw(k: nat) returns (a: seq<int>)
    ensures |a| == k && Within(a, -25, 24) && Sorted(a)
  {
    var drawn := RandomInts(k, -25, 24);
    WithinPermutation(drawn, SortAsc(drawn), -25, 24);
    assert |multiset(SortAsc(drawn))| == |multiset(drawn)|;
    a := SortAsc(drawn);
  }

  /** `if arr: arr.append(random.choice(arr))`. */
  method AppendCopy(a: seq<int>) returns (b: seq<int>)
    requires Sorted(a)
    ensures b == a || (|b| == |a| + 1 && b[..|a|] == a && b[|a|] in a)
    ensures SortedOrRepeated(b) && |b| <= |a| + 1
    ensures forall lo, hi :: Within(a, lo, hi) ==> Within(b, lo, hi)
  {
    b := a;
    if |a| > 0 {
      var i :| 0 <= i < |a|;
      b := a + [a[i]];
    }
  }

  /** The appended copy can leave the list unsorted: [1, 2] may become
      [1, 2, 1], which is outside what the median solvers are written for. */
  lemma RepeatCanUnsort()
    ensures Sorted([1, 2]) && SortedOrRepeated([1, 2, 1]) && !Sorted([1, 2, 1])
  {
    assert [1, 2, 1][..2] == [1, 2];
    assert [1, 2, 1][1] > [1, 2, 1][2];
  }

  /** arr is a non-decreasing list rotated: some rotation of it is sorted. */
  predicate RotatedSorted(arr: seq<int>) {
    exists k :: 0 <= k <= |arr| && Sorted(arr[k..] + arr[..k])
  }

  predicate SearchRotatedInput(arr: seq<int>, target: int) {
    |arr| <= 23 && Within(arr, -50, 50) && RotatedSorted(arr) &&
    (arr == [] ==> -50 <= target <= 50) &&
    (arr != [] ==> target in arr || (-100 <= target <= 100 && target !in arr))
  }

  /** `arr.insert(pos, arr[pos])` keeps a sorted list sorted. */
  lemma DuplicateKeepsSorted(a: seq<int>, pos: int)
    requires Sorted(a) && 0 <= pos < |a|
    ensures Sorted(a[..pos] + [a[pos]] + a[pos..])
  {
    var b := a[..pos] + [a[pos]] + a[pos..];
    forall i, j | 0 <= i < j < |b|
      ensures b[i] <= b[j]
    {
      var i' := if i <= pos then i else i - 1;
      var j' := if j <= pos then j else j - 1;
      assert b[i] == a[i'] && b[j] == a[j'];
    }
  }

  /** Rotating a sorted list by pivot gives a list that un-rotates to it. */
  lemma RotationUndoes(a: seq<int>, pivot: int)
    requires Sorted(a) && 0 <= pivot <= |a|
    ensures RotatedSorted(a[pivot..] + a[..pivot])
  {
    var arr := a[pivot..] + a[..pivot];
    var k := |a| - pivot;
    assert arr[k..] == a[..pivot];
    assert arr[..k] == a[pivot..];
    assert arr[k..] + arr[..k] == a;
  }

  /** random_input_search_rotated: sometimes an empty list; otherwise up to
      twenty sorted values in [-50, 50], maybe with up to three adjacent
      duplicates, maybe all one value, rotated at a pivot; the target is an
      item of the list (sometimes the one next to the pivot) or a value in
      [-100, 100] the list does not hold. */
  method RandomInputSearchRotated() returns (arr: seq<int>, target: int)
    ensures SearchRotatedInput(arr, target)
  {
    var empty: bool :| true;
    if empty {
      target :| -50 <= target <= 50;
      arr := [];
      assert arr[0..] + arr[..0] == [];
      return;
    }
    var base := SortedBase();
    var pivot;
    arr, pivot := Rotate(base);
    WithinPermutation(base, arr, -50, 50);
    target := PickTarget(arr, pivot);
  }

  /** The sorted list before rotation: 1 to 20 draws from [-50, 50], sorted,
      maybe with up to three duplicates inserted, maybe replaced by n copies
      of one value from [-10, 10]. */
  method SortedBase() returns (arr: seq<int>)
    ensures 1 <= |arr| <= 23 && Sorted(arr) && Within(arr, -50, 50)
  {
    var n :| 1 <= n <= 20;
    var drawn := RandomInts(n, -50, 50);
    WithinPermutation(drawn, SortAsc(drawn), -50, 50);
    assert |multiset(SortAsc(drawn))| == n;
    arr := SortAsc(drawn);
    var inject: bool :| true;
    if inject {
      var times :| 1 <= times <= 3;
      for round := 0 to times
        invariant 1 <= |arr| <= n + round && Sorted(arr) && Within(arr, -50, 50)
      {
        var pos :| 0 <= pos < |arr|;
        DuplicateKeepsSorted(arr, pos);
        arr := arr[..pos] + [arr[pos]] + arr[pos..];
      }
    }
    var flat: bool :| true;
    if flat {
      var v :| -10 <= v <= 10;
      arr := seq(n, _ => v);
    }
  }

  /** `arr[pivot:] + arr[:pivot]` at a pivot chosen among 0, 1, the middle and
      the last index, or anywhere; a list of one item is left alone. */
  method Rotate(base: seq<int>) returns (arr: seq<int>, pivot: int)
    requires Sorted(base)
    ensures |arr| == |base| && multiset(arr) == multiset(base) && RotatedSorted(arr)
    ensures 0 <= pivot < |arr| || (|arr| <= 1 && pivot == 0)
  {
    pivot := 0;
    if |base| > 1 {
      var strategic: bool :| true;
      if strategic {
        pivot :| pivot in [0, 1, |base| / 2, |base| - 1];
      } else {
        pivot :| 0 <= pivot < |base|;
      }
    }
    RotationUndoes(base, pivot);
    assert base == base[..pivot] + base[pivot..];
    arr := base[pivot..] + base[..pivot];
  }

  /** The target: an item of the list, sometimes the one next to the pivot
      (wrapping around), or else a value in [-100, 100] that the list lacks;
      the source redraws until it finds one, the model picks one outright. */
  method PickTarget(arr: seq<int>, pivot: int) returns (target: int)
    requires 1 <= |arr| <= 23 && 0 <= pivot < |arr|
    ensures target in arr || (-100 <= target <= 100 && target !in arr)
  {
    var hit: bool :| true;
    if hit {
      var i :| 0 <= i < |arr|;
      target := arr[i];
      var nearPivot: bool :| true;
      if nearPivot && |arr| > 1 {
        var left: bool :| true;
        var step := if left then -1 else 1;
        target := arr[(pivot + step) % |arr|];
      }
    } else {
      Unused(arr, -100, 101);
      target :| -100 <= target <= 100 && target !in arr;
    }
  }

  predicate DecodeWaysInput(s: string) {
    |s| <= 13 && DecodeWays.AllDigits(s)
  }

  /** random_input_decode_ways: up to twelve random digits, sometimes with a
      leading zero forced, sometimes a zero placed at a random position, and
      sometimes (from two digits on) a "1" put in front. */
  method RandomInputDecodeWays() returns (s: string)
    ensures DecodeWaysInput(s)
  {
    var length :| 0 <= length <= 12;
    s := [];
    for i := 0 to length
      invariant |s| == i && DecodeWays.AllDigits(s)
    {
      var d :| 0 <= d <= 9;
      s := s + [('0' as int + d) as char];
    }
    var leadingZero: bool :| true;
    if leadingZero && length > 0 {
      s := PutDigit(s, 0, '0');
    }
    var zero: bool :| true;
    if zero && length > 0 {
      var pos :| 0 <= pos < length;
      s := PutDigit(s, pos, '0');
    }
    var one: bool :| true;
    if one && length >= 2 {
      s := "1" + s;
    }
  }

  /** `s[:pos] + d + s[pos+1:]`: the digit d replaces the one at pos. */
  function PutDigit(s: string, pos: int, d: char): (r: string)
    requires DecodeWays.AllDigits(s) && 0 <= pos < |s| && DecodeWays.IsDigit(d)
    ensures |r| == |s| && DecodeWays.AllDigits(r) && r[pos] == d
  {
    var r := s[..pos] + [d] + s[pos + 1..];
    assert forall k :: 0 <= k < |r| ==> r[k] == (if k == pos then d else s[k]);
    r
  }

  // Input tuples as Python values.

  function IntsValue(xs: seq<int>): Value {
    List(seq(|xs|, i requires 0 <= i < |xs| => Int(xs[i])))
  }

  function RowsValue(m: seq<seq<string>>): Value {
    List(seq(|m|, i requires 0 <= i < |m| => List(seq(|m[i]|, j requires 0 <= j < |m[i]| => Str(m[i][j])))))
  }

  predicate IsInts(v: Value) {
    v.List? && forall i :: 0 <= i < |v.items| ==> v.items[i].Int?
  }

  function IntsOf(v: Value): seq<int>
    requires IsInts(v)
  {
    seq(|v.items|, i requires 0 <= i < |v.items| => v.items[i].i)
  }

  predicate IsRows(v: Value) {
    v.List? &&
    forall i :: 0 <= i < |v.items| ==>
      v.items[i].List? && forall j :: 0 <= j < |v.items[i].items| ==> v.items[i].items[j].Str?
  }

  function RowsOf(v: Value): seq<seq<string>>
    requires IsRows(v)
  {
    seq(|v.items|, i requires 0 <= i < |v.items| =>
      seq(|v.items[i].items|, j requires 0 <= j < |v.items[i].items| => v.items[i].items[j].s))
  }

  lemma IntsRoundTrip(xs: seq<int>)
    ensures IsInts(IntsValue(xs)) && IntsOf(IntsValue(xs)) == xs
  {
  }

  lemma RowsRoundTrip(m: seq<seq<string>>)
    ensures IsRows(RowsValue(m)) && RowsOf(RowsValue(m)) == m
  {
    assert forall i :: 0 <= i < |m| ==> RowsOf(RowsValue(m))[i] == m[i];
  }

  const ProblemNames: set<string> := {"test_branch", "edit_distance", "maximal_rectangle",
    "reverse_pairs", "median_two_arrays", "search_rotated", "decode_ways"}

  /** args is an input tuple the generator of the named problem can return. */
  predicate Generated(name: string, args: seq<Value>) {
    match name
    case "test_branch" => |args| == 1 && args[0].Int? && 1 <= args[0].i <= 100
    case "edit_distance" =>
      |args| == 2 && args[0].Str? && args[1].Str? && EditDistanceInput(args[0].s, args[1].s)
    case "maximal_rectangle" => |args| == 1 && IsRows(args[0]) && MatrixInput(RowsOf(args[0]))
    case "reverse_pairs" => |args| == 1 && IsInts(args[0]) && ReversePairsInput(IntsOf(args[0]))
    case "median_two_arrays" =>
      |args| == 2 && IsInts(args[0]) && IsInts(args[1]) && MedianInput(IntsOf(args[0]), IntsOf(args[1]))
    case "search_rotated" =>
      |args| == 2 && IsInts(args[0]) && args[1].Int? && SearchRotatedInput(IntsOf(args[0]), args[1].i)
    case "decode_ways" => |args| == 1 && args[0].Str? && DecodeWaysInput(args[0].s)
    case _ => false
  }

  /** One input tuple for a known problem. */
  method RandomInput(name: string) returns (args: seq<Value>)
    requires name in ProblemNames
    ensures Generated(name, args)
  {
    if name == "test_branch" {
      var x := RandomInputTestBranch();
      args := [Int(x)];
    } else if name == "edit_distance" {
      var s1, s2, _, _, _ := RandomInputEditDistance();
      args := [Str(s1), Str(s2)];
    } else if name == "maximal_rectangle" {
      var matrix := RandomInputMaximalRectangle();
      RowsRoundTrip(matrix);
      args := [RowsValue(matrix)];
    } else if name == "reverse_pairs" {
      var nums, _, _ := RandomInputReversePairs();
      IntsRoundTrip(nums);
      args := [IntsValue(nums)];
    } else if name == "median_two_arrays" {
      var nums1, nums2 := RandomInputMedianTwoArrays();
      IntsRoundTrip(nums1);
      IntsRoundTrip(nums2);
      args := [IntsValue(nums1), IntsValue(nums2)];
    } else if name == "search_rotated" {
      var nums, target := RandomInputSearchRotated();
      IntsRoundTrip(nums);
      args := [IntsValue(nums), Int(target)];
    } else {
      var s := RandomInputDecodeWays();
      args := [Str(s)];
    }
  }

  /** generate_random_inputs: n input tuples for a known problem (none when
      n is not positive); an unknown name raises ValueError, but only once the
      loop has run, so never for n <= 0. */
  method GenerateRandomInputs(name: string, n: int) returns (r: Result<seq<seq<Value>>>)
    ensures name in ProblemNames ==> r.Success? && |r.value| == Max(n, 0)
    ensures r.Success? ==> forall i :: 0 <= i < |r.value| ==> Generated(name, r.value[i])
    ensures name !in ProblemNames ==> (r.Failure? <==> n > 0)
    ensures name !in ProblemNames && r.Success? ==> r.value == []
    ensures r.Failure? ==> r.error == ValueError
  {
    var inputs: seq<seq<Value>> := [];
    for i := 0 to Max(n, 0)
      invariant |inputs| == i && forall j :: 0 <= j < i ==> Generated(name, inputs[j])
      invariant name !in ProblemNames ==> i == 0
    {
      if name !in ProblemNames {
        return Failure(ValueError);
      }
      var args := RandomInput(name);
      inputs := inputs + [args];
    }
    return Success(inputs);
  }
}
