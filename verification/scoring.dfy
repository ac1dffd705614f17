/**
  The scores a typing test reports: the mistake count (a character-by-character
  comparison of the input against the target), the accuracy percentage and the
  words-per-minute rate. Both rates are rounded the way JavaScript's Math.round
  rounds a non-negative number, to the nearest integer with halves going up;
  the model does that in exact integer arithmetic.
 */
module Scoring {

  /** True when position `i` of the input does not match the target: either the
      target has no character there (over-typing) or the characters differ. */
  predicate Mismatch(input: string, target: string, i: int): (b: bool)
    requires 0 <= i < |input|
    ensures i >= |target| ==> b
    ensures !b ==> input[i] == target[i]
  {
    i >= |target| || input[i] != target[i]
  }

  /** The mistake count, defined by scanning the input from its last character. */
  function Mistakes(input: string, target: string): (m: nat)
    ensures m <= |input|
  {
    if |input| == 0 then 0
    else Mistakes(input[..|input| - 1], target) + (if Mismatch(input, target, |input| - 1) then 1 else 0)
  }

  /** The positions of the input that are scored as mistakes. */
  ghost function MismatchIndices(input: string, target: string): set<int>
  {
    set i | 0 <= i < |input| && Mismatch(input, target, i)
  }

  /** Whether a position is a mistake depends only on that position, so it is
      the same in the input and in any prefix that contains it. */
  lemma MismatchOfPrefix(input: string, target: string, k: int, i: int)
    requires 0 <= i < k <= |input|
    ensures Mismatch(input[..k], target, i) == Mismatch(input, target, i)
  {
  }

  /** The mistake count is the number of mismatching positions. */
  lemma {:induction false} MistakesCountsMismatches(input: string, target: string)
    ensures Mistakes(input, target) == |MismatchIndices(input, target)|
  {
    if |input| > 0 {
      var n := |input| - 1;
      var prefix := input[..n];
      MistakesCountsMismatches(prefix, target);
      var before := MismatchIndices(prefix, target);
      forall i | 0 <= i < n
        ensures Mismatch(prefix, target, i) == Mismatch(input, target, i)
      {
        MismatchOfPrefix(input, target, n, i);
      }
      if Mismatch(input, target, n) {
        assert MismatchIndices(input, target) == before + {n};
      } else {
        assert MismatchIndices(input, target) == before;
      }
    }
  }

  /** Counts the mistakes by one pass over the input, comparing each character
      with the target character at the same index. */
  method CountMistakes(input: string, target: string) returns (m: nat)
    ensures m == Mistakes(input, target)
    ensures m == |MismatchIndices(input, target)|
  {
    m := 0;
    var i := 0;
    while i < |input|
      invariant 0 <= i <= |input|
      invariant m == Mistakes(input[..i], target)
    {
      assert input[..i + 1][..i] == input[..i];
      if i >= |target| || input[i] != target[i] {
        m := m + 1;
      }
      i := i + 1;
    }
    assert input[..|input|] == input;
    MistakesCountsMismatches(input, target);
  }

  /** A prefix of the input never has more mistakes than the whole input. */
  lemma {:induction false} MistakesOfPrefix(input: string, target: string, k: int)
    requires 0 <= k <= |input|
    ensures Mistakes(input[..k], target) <= Mistakes(input, target)
  {
    if k < |input| {
      var n := |input| - 1;
      assert input[..n][..k] == input[..k];
      MistakesOfPrefix(input[..n], target, k);
    } else {
      assert input[..k] == input;
    }
  }

  /** Appending characters to the input, without editing what is already
      there, never lowers the mistake count. */
  lemma MistakesAppend(input: string, extra: string, target: string)
    ensures Mistakes(input, target) <= Mistakes(input + extra, target)
  {
    assert (input + extra)[..|input|] == input;
    MistakesOfPrefix(input + extra, target, |input|);
  }

  /** No mistakes exactly when the input is a prefix of the target. */
  lemma {:induction false} MistakesZeroIff(input: string, target: string)
    ensures Mistakes(input, target) == 0 <==> |input| <= |target| && input == target[..|input|]
  {
    if |input| > 0 {
      var n := |input| - 1;
      MistakesZeroIff(input[..n], target);
      if |input| <= |target| && input == target[..|input|] {
        assert input[..n] == target[..n];
      }
      if Mistakes(input, target) == 0 {
        assert input == input[..n] + [input[n]];
        assert target[..|input|] == target[..n] + [target[n]];
      }
    }
  }

  /** Every character typed beyond the end of the target is one mistake. */
  lemma {:induction false} MistakesBeyondTarget(input: string, target: string)
    requires |input| >= |target|
    ensures Mistakes(input, target) == Mistakes(input[..|target|], target) + (|input| - |target|)
  {
    if |input| == |target| {
      assert input[..|target|] == input;
    } else {
      var n := |input| - 1;
      MistakesBeyondTarget(input[..n], target);
      assert input[..n][..|target|] == input[..|target|];
    }
  }

  /** `r` is num / den rounded to the nearest integer, halves going up:
      r - 1/2 <= num / den < r + 1/2. */
  ghost predicate IsRoundHalfUp(num: int, den: int, r: int)
    requires den > 0
  {
    2 * den * r - den <= 2 * num < 2 * den * r + den
  }

  /** Math.round(num / den) for a positive denominator: floor(num / den + 1/2). */
  function RoundHalfUp(num: int, den: int): (r: int)
    requires den > 0
    ensures IsRoundHalfUp(num, den, r)
  {
    var q := (2 * num + den) / (2 * den);
    assert 2 * num + den == (2 * den) * q + (2 * num + den) % (2 * den);
    q
  }

  /** A positive factor preserves "at least one". */
  lemma MulAtLeastFactor(d: int, k: int)
    requires d > 0 && k >= 1
    ensures d * k >= d
  {
  }

  /** The rounding windows of two fractions with one denominator are ordered
      like the fractions: the window of x starts no later than that of y. */
  lemma WindowOrder(den: int, r: int, q: int, x: int, y: int)
    requires den > 0 && x <= y
    requires 2 * den * r - den <= 2 * x
    requires 2 * y < 2 * den * q + den
    ensures r <= q
  {
    if r > q {
      var k := r - q;
      MulAtLeastFactor(den, k);
    }
  }

  /** At most one integer is the rounded value of a fraction. */
  lemma RoundHalfUpUnique(num: int, den: int, r: int)
    requires den > 0
    requires IsRoundHalfUp(num, den, r)
    ensures r == RoundHalfUp(num, den)
  {
    var q := RoundHalfUp(num, den);
    WindowOrder(den, r, q, num, num);
    WindowOrder(den, q, r, num, num);
  }

  /** Rounding a fraction does not depend on how it is written. */
  lemma RoundHalfUpScale(num: int, den: int, c: int)
    requires den > 0 && c > 0
    ensures RoundHalfUp(c * num, c * den) == RoundHalfUp(num, den)
  {
    var r := RoundHalfUp(num, den);
    assert c * (2 * den * r - den) <= c * (2 * num) < c * (2 * den * r + den);
    assert IsRoundHalfUp(c * num, c * den, r);
    RoundHalfUpUnique(c * num, c * den, r);
  }

  /** Rounding keeps the order of fractions with the same denominator. */
  lemma RoundHalfUpMonotone(a: int, b: int, den: int)
    requires den > 0 && a <= b
    ensures RoundHalfUp(a, den) <= RoundHalfUp(b, den)
  {
    WindowOrder(den, RoundHalfUp(a, den), RoundHalfUp(b, den), a, b);
  }

  function Max(a: int, b: int): int
  {
    if a < b then b else a
  }

  function Min(a: int, b: int): int
  {
    if a < b then a else b
  }

  /** The accuracy percentage of `typed` characters of which `mistakes` are wrong:
      the share of correct characters times 100, rounded, and floored at 0. */
  function AccuracyPercent(typed: nat, mistakes: nat): (a: int)
    requires 0 < typed && mistakes <= typed
    ensures 0 <= a <= 100
    ensures IsRoundHalfUp(100 * (typed - mistakes), typed, a)
    ensures mistakes == 0 ==> a == 100
  {
    var r := RoundHalfUp(100 * (typed - mistakes), typed);
    RoundHalfUpMonotone(0, 100 * (typed - mistakes), typed);
    RoundHalfUpMonotone(100 * (typed - mistakes), 100 * typed, typed);
    RoundHalfUpUnique(0, typed, 0);
    RoundHalfUpUnique(100 * typed, typed, 100);
    Max(0, r)
  }

  /** More mistakes over the same number of characters never raise the accuracy. */
  lemma AccuracyAntitone(typed: nat, m1: nat, m2: nat)
    requires 0 < typed && m1 <= m2 <= typed
    ensures AccuracyPercent(typed, m2) <= AccuracyPercent(typed, m1)
  {
    RoundHalfUpMonotone(100 * (typed - m2), 100 * (typed - m1), typed);
  }

  /** The accuracy shows a full 100 exactly when at most one character in 200
      is wrong; a single mistake in fewer than 200 characters already costs a point. */
  lemma AccuracyFullIff(typed: nat, mistakes: nat)
    requires 0 < typed && mistakes <= typed
    ensures AccuracyPercent(typed, mistakes) == 100 <==> 200 * mistakes <= typed
  {
    var num := 100 * (typed - mistakes);
    if 200 * mistakes <= typed {
      RoundHalfUpUnique(num, typed, 100);
    } else {
      WindowOrder(typed, RoundHalfUp(num, typed), 99, num, num);
    }
  }

  /** Words per minute after `elapsed` seconds with `typed` characters, taking a
      word to be five characters: (typed / 5) / (elapsed / 60), rounded. */
  function Wpm(typed: nat, elapsed: int): (w: int)
    requires elapsed > 0
    ensures w >= 0
    ensures IsRoundHalfUp(60 * typed, 5 * elapsed, w)
  {
    RoundHalfUpScale(12 * typed, elapsed, 5);
    assert 5 * (12 * typed) == 60 * typed;
    RoundHalfUpMonotone(0, 12 * typed, elapsed);
    RoundHalfUpUnique(0, elapsed, 0);
    RoundHalfUp(12 * typed, elapsed)
  }

  /** The worked examples: "cop" against "cat" has two mistakes and 33% accuracy;
      150 characters in 30 seconds is 60 words per minute. */
  lemma Examples()
    ensures Mistakes("cat", "cat") == 0 && AccuracyPercent(3, 0) == 100
    ensures Mistakes("cop", "cat") == 2 && AccuracyPercent(3, 2) == 33
    ensures Wpm(150, 30) == 60
  {
    MistakesZeroIff("cat", "cat");
    assert "cop"[..2] == "co" && "co"[..1] == "c" && "c"[..0] == "";
  }
}
