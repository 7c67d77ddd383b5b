/** Decode ways: count the ways a digit string splits into letter codes
    ("1".."9" for A..I, "10".."26" for J..Z), with a lenient twin that also
    accepts a lone "0" and the two-digit codes "01".."30". */
module DecodeWays {
  import opened PyBase

  predicate IsDigit(c: char) { '0' <= c <= '9' }

  function DigitValue(c: char): (v: int)
    requires IsDigit(c)
    ensures 0 <= v <= 9
  {
    c as int - '0' as int
  }

  /** The ASCII characters that `str.isspace` accepts, which `int()` strips. */
  predicate IsSpace(c: char) {
    c == ' ' || ('\t' <= c <= '\r') || ('\U{1C}' <= c <= '\U{1F}')
  }

  predicate AllDigits(s: string) {
    forall k :: 0 <= k < |s| ==> IsDigit(s[k])
  }

  // ---------------------------------------------------------------------
  // Python's int() on the one- and two-character slices the loop parses
  // ---------------------------------------------------------------------

  /** `int(c)` for a one-character string: only a decimal digit parses. */
  function IntOfChar(c: char): (r: Option<int>)
    ensures r.Some? <==> IsDigit(c)
    ensures r.Some? ==> 0 <= r.value <= 9
  {
    if IsDigit(c) then Some(DigitValue(c)) else None
  }

  /** `int(c0 + c1)`: two digits, or one digit with a sign or surrounding
      white space, which `int()` tolerates. */
  function IntOfPair(c0: char, c1: char): (r: Option<int>)
    ensures IsDigit(c0) && IsDigit(c1) ==> r == Some(10 * DigitValue(c0) + DigitValue(c1))
    ensures !IsDigit(c0) && !IsDigit(c1) ==> r == None
    ensures r.Some? ==> -9 <= r.value <= 99
  {
    if IsDigit(c0) && IsDigit(c1) then Some(10 * DigitValue(c0) + DigitValue(c1))
    else if IsDigit(c1) && c0 == '+' then Some(DigitValue(c1))
    else if IsDigit(c1) && c0 == '-' then Some(-DigitValue(c1))
    else if IsDigit(c1) && IsSpace(c0) then Some(DigitValue(c1))
    else if IsDigit(c0) && IsSpace(c1) then Some(DigitValue(c0))
    else None
  }

  /** Both `int()` calls of loop round k succeed. */
  predicate RoundParses(s: string, k: int)
    requires 2 <= k <= |s|
  {
    IntOfChar(s[k - 1]).Some? && IntOfPair(s[k - 2], s[k - 1]).Some?
  }

  /** Every `int()` call made by loop rounds 2..i succeeds. */
  predicate ParsesUpTo(s: string, i: nat)
    requires i <= |s|
  {
    forall k :: 2 <= k <= i ==> RoundParses(s, k)
  }

  // ---------------------------------------------------------------------
  // The table the loop fills
  // ---------------------------------------------------------------------

  /** The test on `one`: 1..9, or 0..9 in the lenient twin. */
  predicate OneOk(v: int, lenient: bool) {
    if lenient then 0 <= v <= 9 else 1 <= v <= 9
  }

  /** The test on `two`: 10..26, or 1..30 in the lenient twin. */
  predicate TwoOk(v: int, lenient: bool) {
    if lenient then 1 <= v <= 30 else 10 <= v <= 26
  }

  /** dp[i] of the source: dp[0] = dp[1] = 1, then the two guarded additions.
      Where an `int()` call of round i fails, the source raises instead, and
      that round adds nothing here. */
  function Table(s: string, i: nat, lenient: bool): nat
    requires i <= |s|
  {
    if i <= 1 then 1
    else
      var one, two := IntOfChar(s[i - 1]), IntOfPair(s[i - 2], s[i - 1]);
      (if one.Some? && OneOk(one.value, lenient) then Table(s, i - 1, lenient) else 0)
      + (if two.Some? && TwoOk(two.value, lenient) then Table(s, i - 2, lenient) else 0)
  }

  // ---------------------------------------------------------------------
  // The specification: splits of a string into code tokens
  // ---------------------------------------------------------------------

  /** A one-character code: "1".."9" ("0".."9" when lenient). */
  predicate SingleToken(c: char, lenient: bool) {
    IsDigit(c) && OneOk(DigitValue(c), lenient)
  }

  /** A two-character code: "10".."26" ("01".."30" when lenient). */
  predicate PairToken(c0: char, c1: char, lenient: bool) {
    IsDigit(c0) && IsDigit(c1) && TwoOk(10 * DigitValue(c0) + DigitValue(c1), lenient)
  }

  /** The number of ways to write s as a concatenation of code tokens,
      choosing the first token and splitting the rest. */
  function Decodings(s: string, lenient: bool): nat
    decreases |s|
  {
    if |s| == 0 then 1
    else
      (if SingleToken(s[0], lenient) then Decodings(s[1..], lenient) else 0)
      + (if |s| >= 2 && PairToken(s[0], s[1], lenient) then Decodings(s[2..], lenient) else 0)
  }

  /** The right-hand side of DecodingsByLastToken: the splits of s counted
      by their last token. */
  function DecodingsFromEnd(s: string, lenient: bool): nat
    requires |s| >= 1
  {
    (if SingleToken(s[|s| - 1], lenient) then Decodings(s[..|s| - 1], lenient) else 0)
    + (if |s| >= 2 && PairToken(s[|s| - 2], s[|s| - 1], lenient) then Decodings(s[..|s| - 2], lenient) else 0)
  }

  /** Splitting off the last token instead of the first counts the same splits. */
  lemma {:induction false} DecodingsByLastToken(s: string, lenient: bool)
    requires |s| >= 1
    ensures Decodings(s, lenient) == DecodingsFromEnd(s, lenient)
    decreases |s|
  {
    var n := |s|;
    if n == 1 {
      assert s[..0] == [] && s[1..] == [];
    } else if n == 2 {
      assert s[1..][1..] == [] && s[2..] == [] && s[..1][1..] == [] && s[..0] == [];
      assert s[1..][0] == s[1] && s[..1][0] == s[0];
    } else {
      DecodingsByLastToken(s[1..], lenient);
      DecodingsByLastToken(s[2..], lenient);
      SwapFirstAndLastToken(s, lenient);
    }
  }

  /** The inductive step of DecodingsByLastToken: given the claim for s[1..]
      and s[2..], the first-token and last-token splits of s commute. */
  lemma SwapFirstAndLastToken(s: string, lenient: bool)
    requires |s| >= 3
    requires Decodings(s[1..], lenient) == DecodingsFromEnd(s[1..], lenient)
    requires Decodings(s[2..], lenient) == DecodingsFromEnd(s[2..], lenient)
    ensures Decodings(s, lenient) == DecodingsFromEnd(s, lenient)
  {
    var n := |s|;
    TailsByLastToken(s, lenient);
    HeadsByFirstToken(s, lenient);
    var sFirst, pFirst := SingleToken(s[0], lenient), PairToken(s[0], s[1], lenient);
    var sLast, pLast := SingleToken(s[n - 1], lenient), PairToken(s[n - 2], s[n - 1], lenient);
    assert Decodings(s, lenient) ==
      (if sFirst then Decodings(s[1..], lenient) else 0) + (if pFirst then Decodings(s[2..], lenient) else 0);
    assert DecodingsFromEnd(s, lenient) ==
      (if sLast then Decodings(s[..n - 1], lenient) else 0) + (if pLast then Decodings(s[..n - 2], lenient) else 0);
  }

  /** The splits of s[1..] and s[2..] by their last token, in terms of the
      pieces of s without its first and last tokens. */
  lemma TailsByLastToken(s: string, lenient: bool)
    requires |s| >= 3
    requires Decodings(s[1..], lenient) == DecodingsFromEnd(s[1..], lenient)
    requires Decodings(s[2..], lenient) == DecodingsFromEnd(s[2..], lenient)
    ensures var n := |s|;
      Decodings(s[1..], lenient) ==
        (if SingleToken(s[n - 1], lenient) then Decodings(s[1..n - 1], lenient) else 0) +
        (if PairToken(s[n - 2], s[n - 1], lenient) then Decodings(s[1..n - 2], lenient) else 0)
    ensures var n := |s|;
      Decodings(s[2..], lenient) ==
        (if SingleToken(s[n - 1], lenient) then Decodings(s[2..n - 1], lenient) else 0) +
        (if n >= 4 && PairToken(s[n - 2], s[n - 1], lenient) then Decodings(s[2..n - 2], lenient) else 0)
  {
    var n := |s|;
    var t1, t2 := s[1..], s[2..];
    assert t1[|t1| - 1] == s[n - 1] && t1[|t1| - 2] == s[n - 2];
    assert t1[..|t1| - 1] == s[1..n - 1] && t1[..|t1| - 2] == s[1..n - 2];
    assert t2[|t2| - 1] == s[n - 1] && t2[..|t2| - 1] == s[2..n - 1];
    if n >= 4 {
      assert t2[|t2| - 2] == s[n - 2] && t2[..|t2| - 2] == s[2..n - 2];
    }
  }

  /** The splits of s[..n - 1] and s[..n - 2] by their first token, in terms
      of the pieces of s without its first and last tokens. */
  lemma HeadsByFirstToken(s: string, lenient: bool)
    requires |s| >= 3
    ensures var n := |s|;
      Decodings(s[..n - 1], lenient) ==
        (if SingleToken(s[0], lenient) then Decodings(s[1..n - 1], lenient) else 0) +
        (if PairToken(s[0], s[1], lenient) then Decodings(s[2..n - 1], lenient) else 0)
    ensures var n := |s|;
      Decodings(s[..n - 2], lenient) ==
        (if SingleToken(s[0], lenient) then Decodings(s[1..n - 2], lenient) else 0) +
        (if n >= 4 && PairToken(s[0], s[1], lenient) then Decodings(s[2..n - 2], lenient) else 0)
  {
    var n := |s|;
    var a, b := s[..n - 1], s[..n - 2];
    assert a[0] == s[0] && a[1] == s[1] && a[1..] == s[1..n - 1] && a[2..] == s[2..n - 1];
    assert b[0] == s[0] && b[1..] == s[1..n - 2];
    if n >= 4 {
      assert b[1] == s[1] && b[2..] == s[2..n - 2];
    }
  }

  /** The table entry dp[i] counts the splits of the prefix s[..i]. */
  lemma {:induction false} TableCountsPrefixSplits(s: string, i: nat, lenient: bool)
    requires 1 <= i <= |s| && AllDigits(s) && SingleToken(s[0], lenient)
    ensures ParsesUpTo(s, i)
    ensures Table(s, i, lenient) == Decodings(s[..i], lenient)
    decreases i
  {
    if i == 1 {
      assert s[..1][1..] == [];
    } else {
      TableCountsPrefixSplits(s, i - 1, lenient);
      if i > 2 {
        TableCountsPrefixSplits(s, i - 2, lenient);
      } else {
        assert s[..0] == [];
      }
      PrefixStep(s, i, lenient);
    }
  }

  /** A prefix of a prefix is a prefix. */
  lemma PrefixOfPrefix(s: string, i: nat, k: nat)
    requires k <= i <= |s|
    ensures s[..i][..k] == s[..k]
  {
  }

  /** One step of the table: dp[i] counts the splits of s[..i] by their last
      token, given that dp[i - 1] and dp[i - 2] count theirs. */
  lemma PrefixStep(s: string, i: nat, lenient: bool)
    requires 2 <= i <= |s| && AllDigits(s) && SingleToken(s[0], lenient)
    requires ParsesUpTo(s, i - 1) && Table(s, i - 1, lenient) == Decodings(s[..i - 1], lenient)
    requires Table(s, i - 2, lenient) == Decodings(s[..i - 2], lenient)
    ensures ParsesUpTo(s, i)
    ensures Table(s, i, lenient) == Decodings(s[..i], lenient)
  {
    TableStep(s, i, lenient);
    PrefixByLastToken(s, i, lenient);
  }

  /** Round i of the loop on a digit string: both `int()` calls succeed and
      dp[i] adds dp[i - 1] for a one-character code and dp[i - 2] for a
      two-character one. */
  lemma TableStep(s: string, i: nat, lenient: bool)
    requires 2 <= i <= |s| && AllDigits(s)
    ensures RoundParses(s, i)
    ensures Table(s, i, lenient) ==
      (if SingleToken(s[i - 1], lenient) then Table(s, i - 1, lenient) else 0)
      + (if PairToken(s[i - 2], s[i - 1], lenient) then Table(s, i - 2, lenient) else 0)
  {
    assert IsDigit(s[i - 1]) && IsDigit(s[i - 2]);
  }

  /** The splits of s[..i], counted by their last token. */
  lemma PrefixByLastToken(s: string, i: nat, lenient: bool)
    requires 2 <= i <= |s|
    ensures Decodings(s[..i], lenient) ==
      (if SingleToken(s[i - 1], lenient) then Decodings(s[..i - 1], lenient) else 0)
      + (if PairToken(s[i - 2], s[i - 1], lenient) then Decodings(s[..i - 2], lenient) else 0)
  {
    var p := s[..i];
    DecodingsByLastToken(p, lenient);
    PrefixOfPrefix(s, i, i - 1);
    PrefixOfPrefix(s, i, i - 2);
    assert p[i - 1] == s[i - 1] && p[i - 2] == s[i - 2];
  }

  /** Every strict code is also a lenient one, so the lenient count never
      falls below the strict one. */
  lemma {:induction false} LenientCountsMore(s: string)
    ensures Decodings(s, false) <= Decodings(s, true)
    decreases |s|
  {
    if |s| >= 1 {
      LenientCountsMore(s[1..]);
    }
    if |s| >= 2 {
      LenientCountsMore(s[2..]);
    }
  }

  // ---------------------------------------------------------------------
  // The two functions of the source
  // ---------------------------------------------------------------------

  /** decode_ways_correct. */
  method DecodeWaysCorrect(s: string) returns (r: Result<nat>)
    ensures s == [] || s[0] == '0' ==> r == Success(0)
    ensures s != [] && s[0] != '0' ==> (r.Success? <==> ParsesUpTo(s, |s|))
    ensures r.Failure? ==> r.error == ValueError
    ensures s != [] && s[0] != '0' && r.Success? ==> r.value == Table(s, |s|, false)
    ensures AllDigits(s) ==> r == Success(if s == [] then 0 else Decodings(s, false))
  {
    if |s| == 0 || s[0] == '0' {
      return Success(0);
    }
    r := FillTable(s, false);
    if AllDigits(s) && SingleToken(s[0], false) {
      TableCountsPrefixSplits(s, |s|, false);
      assert s[..|s|] == s;
    }
  }

  /** decode_ways_buggy: no leading-zero check, lenient token tests. */
  method DecodeWaysBuggy(s: string) returns (r: Result<nat>)
    ensures s == [] ==> r == Success(0)
    ensures s != [] ==> (r.Success? <==> ParsesUpTo(s, |s|))
    ensures r.Failure? ==> r.error == ValueError
    ensures s != [] && r.Success? ==> r.value == Table(s, |s|, true)
    ensures AllDigits(s) ==> r == Success(if s == [] then 0 else Decodings(s, true))
  {
    if |s| == 0 {
      return Success(0);
    }
    r := FillTable(s, true);
    if AllDigits(s) {
      TableCountsPrefixSplits(s, |s|, true);
      assert s[..|s|] == s;
    }
  }

  /** The dp loop shared by both functions: dp = [0] * (n + 1), dp[0] = dp[1] = 1,
      then for i in 2..n parse one and two and add the admitted entries. */
  method FillTable(s: string, lenient: bool) returns (r: Result<nat>)
    requires |s| >= 1
    ensures r.Success? <==> ParsesUpTo(s, |s|)
    ensures r.Failure? ==> r.error == ValueError
    ensures r.Success? ==> r.value == Table(s, |s|, lenient)
  {
    var n := |s|;
    var dp := new nat[n + 1](_ => 0);
    dp[0] := 1;
    dp[1] := 1;
    var i := 2;
    while i <= n
      invariant 2 <= i <= n + 1
      invariant ParsesUpTo(s, i - 1)
      invariant forall k {:trigger dp[k]} :: 0 <= k < i ==> dp[k] == Table(s, k, lenient)
      invariant forall k :: i <= k <= n ==> dp[k] == 0
    {
      var one := IntOfChar(s[i - 1]);
      if one.None? {
        assert !RoundParses(s, i);
        return Failure(ValueError);
      }
      var two := IntOfPair(s[i - 2], s[i - 1]);
      if two.None? {
        assert !RoundParses(s, i);
        return Failure(ValueError);
      }
      assert ParsesUpTo(s, i);
      if OneOk(one.value, lenient) {
        dp[i] := dp[i] + dp[i - 1];
      }
      if TwoOk(two.value, lenient) {
        dp[i] := dp[i] + dp[i - 2];
      }
      i := i + 1;
    }
    r := Success(dp[n]);
  }

  /** On digit strings the lenient twin never reports fewer decodings. */
  lemma BuggyNeverBelowCorrect(s: string)
    requires AllDigits(s)
    ensures (if s == [] || s[0] == '0' then 0 else Decodings(s, false))
         <= (if s == [] then 0 else Decodings(s, true))
  {
    LenientCountsMore(s);
  }

  /** "0": it cannot be decoded, yet the twin accepts the lone 0 and counts
      one decoding. */
  lemma BuggyDecodesLoneZero()
    ensures Decodings("0", false) == 0 && Decodings("0", true) == 1
  {
  }
}
