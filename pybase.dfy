/** Values and failure results shared by every module of the model.
    A Python exception that the modelled code lets escape becomes a
    `Failure` carrying the exception's class. */
module PyBase {

  datatype Option<+T> = None | Some(value: T) {
    /** `x or 0` and `dict.get(key, default)` both fall back to a default. */
    function GetOr(default: T): T {
      match this
      case Some(v) => v
      case None => default
    }
  }

  /** The Python exception classes that the modelled code can raise. */
  datatype Error = ValueError | IndexError | KeyError | TypeError

  datatype Result<+T> = Success(value: T) | Failure(error: Error)

  /** Python's `s[k]` on a list: negative indices count from the end. */
  function PyIndex<T>(s: seq<T>, k: int): (r: Result<T>)
    ensures r.Success? <==> -|s| <= k < |s|
    ensures 0 <= k < |s| ==> r == Success(s[k])
    ensures -|s| <= k < 0 ==> r == Success(s[|s| + k])
  {
    if 0 <= k < |s| then Success(s[k])
    else if -|s| <= k < 0 then Success(s[|s| + k])
    else Failure(IndexError)
  }

  /** Python's built-in `max` and `min` on two integers. */
  function Max(x: int, y: int): int { if x >= y then x else y }
  function Min(x: int, y: int): int { if x <= y then x else y }

  predicate Sorted(s: seq<int>) {
    forall i, j :: 0 <= i < j < |s| ==> s[i] <= s[j]
  }

  predicate StrictlyIncreasing(s: seq<int>) {
    forall i, j :: 0 <= i < j < |s| ==> s[i] < s[j]
  }

  predicate SortedDescending(s: seq<int>) {
    forall i, j :: 0 <= i < j < |s| ==> s[i] >= s[j]
  }

  /** How many items the slice `xs[:n]` keeps of a list of length len. */
  function SliceLen(len: nat, n: int): (r: nat)
    ensures r <= len
    ensures 0 <= n ==> r == Min(n, len)
    ensures n < 0 ==> r + Min(-n, len) == len
  {
    if n >= 0 then Min(n, len) else Max(len + n, 0)
  }

  /** s with every occurrence of v removed. */
  function Drop(s: seq<int>, v: int): (r: seq<int>)
    ensures forall x :: x in r <==> x in s && x != v
    ensures |r| <= |s| && (v in s ==> |r| < |s|)
  {
    if |s| == 0 then []
    else (if s[0] == v then [] else [s[0]]) + Drop(s[1..], v)
  }

  /** Pigeonhole: a list shorter than the range [lo, hi) misses one of its values. */
  lemma {:induction false} Unused(s: seq<int>, lo: int, hi: int)
    requires |s| < hi - lo
    ensures exists x :: lo <= x < hi && x !in s
    decreases hi - lo
  {
    if hi - 1 !in s {
      assert lo <= hi - 1 < hi;
    } else {
      var rest := Drop(s, hi - 1);
      Unused(rest, lo, hi - 1);
      var x :| lo <= x < hi - 1 && x !in rest;
      assert x !in s;
    }
  }

  /** Puts x into a sorted list after the items smaller than it. */
  function InsertSorted(x: int, s: seq<int>): (r: seq<int>)
    requires Sorted(s)
    ensures Sorted(r) && multiset(r) == multiset(s) + multiset{x}
  {
    if |s| == 0 then [x]
    else if x <= s[0] then [x] + s
    else
      assert s == [s[0]] + s[1..];
      var rest := InsertSorted(x, s[1..]);
      SortedCons(s[0], rest, s[1..], x);
      [s[0]] + rest
  }

  /** A sorted list whose items come from a sorted tail or x, all at least
      h, stays sorted with h in front. */
  lemma SortedCons(h: int, rest: seq<int>, tail: seq<int>, x: int)
    requires Sorted(rest) && Sorted([h] + tail) && h < x
    requires multiset(rest) == multiset(tail) + multiset{x}
    ensures Sorted([h] + rest)
  {
    forall i | 0 <= i < |rest|
      ensures h <= rest[i]
    {
      assert rest[i] in multiset(rest);
      if rest[i] != x {
        assert rest[i] in multiset(tail);
        var k :| 0 <= k < |tail| && tail[k] == rest[i];
        assert ([h] + tail)[0] == h && ([h] + tail)[k + 1] == rest[i];
      }
    }
  }

  /** Python's `sorted` on a list of integers (and `list.sort()`). */
  function SortAsc(s: seq<int>): (r: seq<int>)
    ensures Sorted(r) && multiset(r) == multiset(s)
  {
    if |s| == 0 then []
    else
      assert s == s[..|s| - 1] + [s[|s| - 1]];
      InsertSorted(s[|s| - 1], SortAsc(s[..|s| - 1]))
  }

  function Reverse(s: seq<int>): (r: seq<int>)
    ensures |r| == |s| && forall i :: 0 <= i < |s| ==> r[i] == s[|s| - 1 - i]
    ensures multiset(r) == multiset(s)
  {
    if |s| == 0 then []
    else
      assert s == s[..|s| - 1] + [s[|s| - 1]];
      [s[|s| - 1]] + Reverse(s[..|s| - 1])
  }

  /** `list.sort(reverse=True)` on integers: equal integers cannot be told
      apart, so this is the ascending sort read backwards. */
  function SortDesc(s: seq<int>): (r: seq<int>)
    ensures SortedDescending(r) && multiset(r) == multiset(s)
  {
    Reverse(SortAsc(s))
  }

  predicate Within(s: seq<int>, lo: int, hi: int) {
    forall i :: 0 <= i < |s| ==> lo <= s[i] <= hi
  }

  /** Reordering a list keeps its items within the bounds they were in. */
  lemma WithinPermutation(s: seq<int>, t: seq<int>, lo: int, hi: int)
    requires Within(s, lo, hi) && multiset(t) == multiset(s)
    ensures Within(t, lo, hi)
  {
    forall i | 0 <= i < |t|
      ensures lo <= t[i] <= hi
    {
      assert t[i] in multiset(s);
    }
  }
}
