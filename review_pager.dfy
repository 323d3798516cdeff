/** Paging through the OCR pages awaiting review (src/pages/Review.tsx): an
    index clamped at both ends, and the approval of every pending page. */
module ReviewPager {
  import opened Seqs

  /** A page in the review queue; the queue holds the pending pages only. */
  datatype QueuedPage = QueuedPage(id: string, content: string)

  /** `handlePrevious`: one back, never below 0. */
  function PreviousIndex(i: int): (r: int)
    ensures r >= 0 && r >= i - 1 && (r == 0 || r == i - 1)
  {
    if 0 > i - 1 then 0 else i - 1
  }

  /** `handleNext`: one on, never past the last page. */
  function NextIndex(i: int, count: nat): (r: int)
    ensures r <= count - 1 && r <= i + 1 && (r == count - 1 || r == i + 1)
  {
    if count - 1 < i + 1 then count - 1 else i + 1
  }

  /** With at least one page both buttons keep the index in range; the
      first page stays first and the last stays last, without wrapping. */
  lemma StepsClamp(i: int, count: nat)
    requires 0 <= i < count
    ensures 0 <= PreviousIndex(i) < count && 0 <= NextIndex(i, count) < count
    ensures i == 0 ==> PreviousIndex(i) == 0
    ensures i == count - 1 ==> NextIndex(i, count) == count - 1
    ensures i > 0 ==> NextIndex(PreviousIndex(i), count) == i
    ensures i < count - 1 ==> PreviousIndex(NextIndex(i, count)) == i
  {
  }

  /** With no pages, "next" moves the index to -1. */
  lemma NextOnEmptyQueue(i: int)
    requires 0 <= i
    ensures NextIndex(i, 0) == -1
  {
  }

  /** `k` presses of "next". */
  function NextTimes(i: int, count: nat, k: nat): int
    decreases k
  {
    if k == 0 then i else NextIndex(NextTimes(i, count, k - 1), count)
  }

  /** Pressing "next" `k` times moves `k` pages on, stopping at the last. */
  lemma {:induction false} NextTimesStopsAtLast(i: int, count: nat, k: nat)
    requires 0 <= i < count
    ensures NextTimes(i, count, k) == if i + k < count then i + k else count - 1
    decreases k
  {
    if k > 0 {
      NextTimesStopsAtLast(i, count, k - 1);
    }
  }

  /** `handleApproveAll`: the ids of all queued pages, in queue order. */
  function ApproveAllIds(pages: seq<QueuedPage>): (ids: seq<string>)
    ensures |ids| == |pages|
    ensures forall k :: 0 <= k < |pages| ==> ids[k] == pages[k].id
  {
    Map(pages, (p: QueuedPage) => p.id)
  }

  /** The pager's state. */
  class Pager {
    var currentIndex: int

    constructor ()
      ensures currentIndex == 0
    {
      currentIndex := 0;
    }

    method Previous()
      modifies this
      ensures currentIndex == PreviousIndex(old(currentIndex))
    {
      currentIndex := if 0 > currentIndex - 1 then 0 else currentIndex - 1;
    }

    method Next(pageCount: nat)
      modifies this
      ensures currentIndex == NextIndex(old(currentIndex), pageCount)
    {
      currentIndex := if pageCount - 1 < currentIndex + 1 then pageCount - 1 else currentIndex + 1;
    }
  }
}
