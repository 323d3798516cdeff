/** The image carousel beside the chat (src/components/chat/ImagePanel.tsx):
    one index into the images, moved by wrap-around "previous" and "next"
    buttons and set directly by a thumbnail. */
module ImagePanel {

  /** `handlePrevious`: one back, from the first to the last. */
  function PreviousIndex(i: int, count: nat): (r: int)
    ensures 0 <= i < count ==> 0 <= r < count && (r + 1) % count == i
  {
    if i > 0 then i - 1 else count - 1
  }

  /** `handleNext`: one on, from the last to the first. */
  function NextIndex(i: int, count: nat): (r: int)
    ensures 0 <= i < count ==> r == (i + 1) % count
  {
    if i < count - 1 then i + 1 else 0
  }

  /** Both buttons keep an index in range, wrapping at the ends. */
  lemma StepsStayInRange(i: int, count: nat)
    requires 0 <= i < count
    ensures 0 <= PreviousIndex(i, count) < count && 0 <= NextIndex(i, count) < count
    ensures i == count - 1 ==> NextIndex(i, count) == 0
    ensures i == 0 ==> PreviousIndex(i, count) == count - 1
  {
  }

  /** "Previous" undoes "next" and "next" undoes "previous". */
  lemma StepsAreInverse(i: int, count: nat)
    requires 0 <= i < count
    ensures PreviousIndex(NextIndex(i, count), count) == i
    ensures NextIndex(PreviousIndex(i, count), count) == i
  {
  }

  /** `k` presses of "next". */
  function NextTimes(i: int, count: nat, k: nat): int
    decreases k
  {
    if k == 0 then i else NextIndex(NextTimes(i, count, k - 1), count)
  }

  /** Short of the last image, `k` presses of "next" move `k` places on. */
  lemma {:induction false} NextTimesAdvances(i: int, count: nat, k: nat)
    requires 0 <= i && i + k < count
    ensures NextTimes(i, count, k) == i + k
    decreases k
  {
    if k > 0 {
      NextTimesAdvances(i, count, k - 1);
    }
  }

  /** Pressing `a` times and then `b` times is pressing `a + b` times. */
  lemma {:induction false} NextTimesSplit(i: int, count: nat, a: nat, b: nat)
    ensures NextTimes(i, count, a + b) == NextTimes(NextTimes(i, count, a), count, b)
    decreases b
  {
    if b > 0 {
      NextTimesSplit(i, count, a, b - 1);
    }
  }

  /** Pressing "next" once per image comes back to the start. */
  lemma FullRoundReturns(i: int, count: nat)
    requires 0 <= i < count
    ensures NextTimes(i, count, count) == i
  {
    var toLast := count - 1 - i;
    NextTimesAdvances(i, count, toLast);
    NextTimesSplit(i, count, toLast, 1);
    assert NextTimes(i, count, toLast + 1) == 0;
    NextTimesSplit(i, count, toLast + 1, i);
    NextTimesAdvances(0, count, i);
  }

  /** The carousel's state. */
  class Carousel {
    var currentIndex: int

    constructor ()
      ensures currentIndex == 0
    {
      currentIndex := 0;
    }

    method Previous(count: nat)
      modifies this
      ensures currentIndex == PreviousIndex(old(currentIndex), count)
    {
      currentIndex := if currentIndex > 0 then currentIndex - 1 else count - 1;
    }

    method Next(count: nat)
      modifies this
      ensures currentIndex == NextIndex(old(currentIndex), count)
    {
      currentIndex := if currentIndex < count - 1 then currentIndex + 1 else 0;
    }

    /** A thumbnail click jumps straight to its image. */
    method SelectThumbnail(index: nat)
      modifies this
      ensures currentIndex == index
    {
      currentIndex := index;
    }
  }
}
