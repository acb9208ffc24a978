/**
 * The scroll-until-stable loop (main.py:83-92). The page is scrolled to the
 * bottom again and again; after each scroll the document height is read,
 * and the loop ends at the first read that equals the height read before
 * it. The browser is abstracted into the sequence of heights it reports:
 * `first` is the height read before the loop, `heights[i]` the height read
 * after the (i+1)-th scroll.
 */
module Scroll {

  /**
   * How the loop ends on a finite run of observed heights: it settled after
   * `rounds` scrolls at `height`, or every observed read still differed from
   * the one before it, so the source's `while True` would keep scrolling.
   */
  datatype ScrollEnd = Settled(rounds: nat, height: int) | StillGrowing

  /** The value of `last_height` when the i-th read (0-based) is compared. */
  function Previous(first: int, heights: seq<int>, i: nat): int
    requires i <= |heights|
  {
    if i == 0 then first else heights[i - 1]
  }

  /** The i-th read repeats the height before it: the loop's exit test holds there. */
  predicate StableAt(first: int, heights: seq<int>, i: nat)
  {
    i < |heights| && heights[i] == Previous(first, heights, i)
  }

  /**
   * The loop as written: it stops at the first stable read, and otherwise
   * moves `last_height` on to the new height.
   */
  method ScrollUntilStable(first: int, heights: seq<int>) returns (r: ScrollEnd)
    ensures r.Settled? ==> 1 <= r.rounds <= |heights| && StableAt(first, heights, r.rounds - 1)
    ensures r.Settled? ==> r.height == heights[r.rounds - 1] == Previous(first, heights, r.rounds - 1)
    ensures r.Settled? ==> forall j :: 0 <= j < r.rounds - 1 ==> !StableAt(first, heights, j)
    ensures r.StillGrowing? <==> forall j :: 0 <= j < |heights| ==> !StableAt(first, heights, j)
  {
    var last := first;
    var i := 0;
    while i < |heights|
      invariant 0 <= i <= |heights|
      invariant last == Previous(first, heights, i)
      invariant forall j :: 0 <= j < i ==> !StableAt(first, heights, j)
    {
      var newHeight := heights[i];
      if newHeight == last {
        assert StableAt(first, heights, i);
        return Settled(i + 1, newHeight);
      }
      last := newHeight;
      i := i + 1;
    }
    return StillGrowing;
  }
}
