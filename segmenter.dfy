/**
 * The learning phase of `BackgroundSustractor` (main.py): a frame counter
 * capped at 30 decides whether the background model is still learning and
 * which learning rate `get_mask` hands to it.  The statistical model
 * itself (OpenCV's MOG2) and the mask post-processing calls are not part
 * of this module; the threshold and hole-filling steps are in HoleFilling.
 */
module Segmenter {
  import opened Grids

  /** `_learning_frames`: the number of frames the model learns from. */
  const LearningFrames: nat := 30

  /** MOG2's "choose automatically" learning rate, passed while learning. */
  const AutoRate: int := -1

  /** Learning rate 0: the background model is frozen. */
  const FrozenRate: int := 0

  /** The counter after one `get_mask` call: it counts up to the cap and stays there. */
  function Advance(n: nat): nat {
    if n < LearningFrames then n + 1 else n
  }

  /** The learning rate `get_mask` chooses when the counter reads `n`. */
  function LearningRate(n: nat): int {
    if n < LearningFrames then AutoRate else FrozenRate
  }

  /** The counter after `k` consecutive `get_mask` calls starting from `n`. */
  function AfterCalls(n: nat, k: nat): nat
    decreases k
  {
    if k == 0 then n else Advance(AfterCalls(n, k - 1))
  }

  /** From any count within the cap, `k` calls move the counter to `min(n + k, 30)`. */
  lemma {:induction false} AfterCallsSaturates(n: nat, k: nat)
    requires n <= LearningFrames
    ensures AfterCalls(n, k) == Min(n + k, LearningFrames)
    decreases k
  {
    if k > 0 {
      AfterCallsSaturates(n, k - 1);
    }
  }

  /** The counter never passes the cap, however many calls are made. */
  lemma {:induction false} CounterBounded(n: nat, k: nat)
    requires n <= LearningFrames
    ensures AfterCalls(n, k) <= LearningFrames
    decreases k
  {
    if k > 0 {
      CounterBounded(n, k - 1);
    }
  }

  /**
   * From a fresh or re-armed counter, the model is still learning after
   * 29 calls, stops after the 30th, and stays stopped.
   */
  lemma LearningLastsThirtyFrames(k: nat)
    ensures AfterCalls(0, 29) < LearningFrames
    ensures AfterCalls(0, 30) == LearningFrames
    ensures k >= 30 ==> AfterCalls(0, k) == LearningFrames
  {
    AfterCallsSaturates(0, 29);
    AfterCallsSaturates(0, 30);
    AfterCallsSaturates(0, k);
  }

  /** The learning rate is the automatic one exactly while the counter is below the cap. */
  lemma RateWhileLearning(n: nat, k: nat)
    requires n <= LearningFrames
    ensures LearningRate(AfterCalls(n, k)) == AutoRate <==> n + k < LearningFrames
    ensures LearningRate(AfterCalls(n, k)) == FrozenRate <==> n + k >= LearningFrames
  {
    AfterCallsSaturates(n, k);
  }

  class BackgroundSubtractor {
    /** `_learning_frames`. */
    const learningFrames: nat
    /** `_framenum`: frames seen since construction or the last `forget_mask`. */
    var frameNum: nat
    /** `blur_mask`: whether the webcam frame is blurred before segmentation. */
    var blurMask: bool

    ghost predicate Valid()
      reads this
    {
      learningFrames == LearningFrames && frameNum <= learningFrames
    }

    constructor ()
      ensures Valid()
      ensures frameNum == 0 && blurMask
    {
      learningFrames := LearningFrames;
      frameNum := 0;
      blurMask := true;
    }

    /** Re-arms learning, whatever the counter read before. */
    method ForgetMask()
      requires Valid()
      modifies this
      ensures Valid()
      ensures frameNum == 0 && IsLearning()
      ensures blurMask == old(blurMask)
    {
      frameNum := 0;
    }

    predicate IsLearning()
      reads this
    {
      frameNum < learningFrames
    }

    /**
     * The counter step of `get_mask`: advance the counter while learning
     * and report the learning rate chosen for this frame.
     */
    method GetMask() returns (learningRate: int)
      requires Valid()
      modifies this
      ensures Valid()
      ensures frameNum == Advance(old(frameNum))
      ensures old(IsLearning()) ==> frameNum == old(frameNum) + 1 && learningRate == AutoRate
      ensures !old(IsLearning()) ==> frameNum == old(frameNum) && learningRate == FrozenRate
      ensures blurMask == old(blurMask)
    {
      if frameNum < learningFrames {
        frameNum := frameNum + 1;
        learningRate := AutoRate;
      } else {
        learningRate := FrozenRate;
      }
    }
  }
}
