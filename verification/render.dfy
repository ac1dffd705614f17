/**
  The colouring of the target text: every target position is shown as typed
  correctly, typed incorrectly, or still pending, by comparing it with the
  input at the same index.
 */
module Render {
  import opened Scoring

  datatype CharState = Correct | Incorrect | Pending

  /** The state of target position `i` given what has been typed so far. */
  function CharStatus(target: string, input: string, i: int): (c: CharState)
    requires 0 <= i < |target|
    ensures c == Pending <==> |input| <= i
    ensures c == Incorrect <==> i < |input| && Mismatch(input, target, i)
  {
    if i < |input| then (if input[i] == target[i] then Correct else Incorrect)
    else Pending
  }

  /** The states of all target positions, in order. */
  function RenderText(target: string, input: string): (r: seq<CharState>)
    ensures |r| == |target|
  {
    seq(|target|, i requires 0 <= i < |target| => CharStatus(target, input, i))
  }

  /** How many entries of `xs` are in state `c`. */
  function CountState(xs: seq<CharState>, c: CharState): (n: nat)
    ensures n <= |xs|
  {
    if |xs| == 0 then 0
    else CountState(xs[..|xs| - 1], c) + (if xs[|xs| - 1] == c then 1 else 0)
  }

  /** Over the first `k` target positions, the incorrect ones are the mistakes of
      the input typed over them, and the pending ones are those not reached yet. */
  lemma {:induction false} CountsUpTo(target: string, input: string, k: int)
    requires 0 <= k <= |target|
    ensures CountState(RenderText(target, input)[..k], Incorrect) == Mistakes(input[..Min(k, |input|)], target)
    ensures CountState(RenderText(target, input)[..k], Pending) == k - Min(k, |input|)
  {
    if k > 0 {
      CountsUpTo(target, input, k - 1);
      var r := RenderText(target, input);
      assert r[..k][..k - 1] == r[..k - 1];
      if k - 1 < |input| {
        assert input[..k][..k - 1] == input[..k - 1];
      }
    }
  }

  /** Exactly min(|input|, |target|) positions are coloured; the rest are pending. */
  lemma NonPendingCount(target: string, input: string)
    ensures |target| - CountState(RenderText(target, input), Pending) == Min(|input|, |target|)
  {
    CountsUpTo(target, input, |target|);
    assert RenderText(target, input)[..|target|] == RenderText(target, input);
  }

  /** The red positions plus the characters typed past the end of the target
      make up the mistake count; with no over-typing the two are equal. */
  lemma IncorrectCountIsMistakes(target: string, input: string)
    ensures CountState(RenderText(target, input), Incorrect) + Max(0, |input| - |target|) == Mistakes(input, target)
    ensures |input| <= |target| ==> CountState(RenderText(target, input), Incorrect) == Mistakes(input, target)
  {
    CountsUpTo(target, input, |target|);
    assert RenderText(target, input)[..|target|] == RenderText(target, input);
    if |input| <= |target| {
      assert input[..|input|] == input;
    } else {
      MistakesBeyondTarget(input, target);
    }
  }
}
