/**
 * One class run, `scrape_class_images` (main.py:58-165): wait for the
 * results page, scroll until the page stops growing, collect candidate
 * URLs from the thumbnails, then download until enough images are saved.
 */
module Scrape {
  import opened Scroll
  import opened Collection
  import opened Downloads

  /** Whether the results page showed a thumbnail within the wait (main.py:74-79). */
  datatype PageLoad = Ready | TimedOut

  /**
   * How a class run ends. `LoadTimedOut`: the function returned right after
   * the failed wait. `StillScrolling`: no observed scroll height repeated,
   * so the source's scroll loop has not ended yet. `Finished`: both phases
   * ran; `visited` is how many thumbnails were handled, `order` the order in
   * which the collected set was iterated.
   */
  datatype RunResult =
    | LoadTimedOut
    | StillScrolling
    | Finished(urls: set<string>, visited: nat, order: seq<string>, saved: seq<SavedFile>,
               attempted: nat, shortfall: bool)

  /** `order` lists every element of `s` exactly once. */
  predicate IsEnumeration(order: seq<string>, s: set<string>)
  {
    && (forall i, j :: 0 <= i < j < |order| ==> order[i] != order[j])
    && (forall u :: u in s ==> u in order)
    && (forall i :: 0 <= i < |order| ==> order[i] in s)
  }

  /**
   * Python's iteration over a set (main.py:144): some order, each element
   * once. Which order is left open.
   */
  method Enumerate(s: set<string>) returns (order: seq<string>)
    ensures IsEnumeration(order, s)
    ensures |order| == |s|
  {
    order := [];
    var rest := s;
    while rest != {}
      invariant forall u :: u in s <==> u in rest || u in order
      invariant forall u :: u in rest ==> u !in order
      invariant forall i, j :: 0 <= i < j < |order| ==> order[i] != order[j]
      invariant |order| + |rest| == |s|
      decreases |rest|
    {
      var u :| u in rest;
      order := order + [u];
      rest := rest - {u};
    }
  }

  /**
   * The whole class run. Browser, network and image decoding are the
   * inputs: the outcome of the page wait, the observed scroll heights, the
   * thumbnail outcomes and the download oracle `ok`.
   */
  method ScrapeClass(needed: nat, fetch: nat, page: PageLoad, firstHeight: int, heights: seq<int>,
                     thumbs: seq<Thumb>, ok: string -> bool)
    returns (r: RunResult)
    ensures page == TimedOut <==> r == LoadTimedOut
    ensures r == StillScrolling <==>
              page == Ready && forall j :: 0 <= j < |heights| ==> !StableAt(firstHeight, heights, j)
    ensures r.Finished? ==> |r.urls| <= fetch && forall u :: u in r.urls ==> IsWebUrl(u)
    ensures r.Finished? ==> r.visited <= |thumbs| && r.urls == Accepted(thumbs[..r.visited])
    ensures r.Finished? && r.visited < |thumbs| ==> |r.urls| == fetch
    ensures r.Finished? ==> forall j :: 0 <= j < r.visited ==> |Accepted(thumbs[..j])| < fetch
    ensures r.Finished? ==> r.urls <= Accepted(thumbs)
    ensures r.Finished? && |r.urls| < fetch ==> r.urls == Accepted(thumbs)
    ensures r.Finished? ==> IsEnumeration(r.order, r.urls)
    ensures r.Finished? ==> r.attempted <= |r.order|
    ensures r.Finished? ==> NumberedFrom(r.saved, Successes(r.order[..r.attempted], ok))
    ensures r.Finished? && r.attempted < |r.order| ==> |r.saved| == needed
    ensures r.Finished? && r.attempted > 0 ==> |Successes(r.order[..r.attempted - 1], ok)| < needed
    ensures r.Finished? ==> |r.saved| == Min(needed, |Successes(r.order, ok)|)
    ensures r.Finished? ==> NumberedFrom(r.saved, Successes(r.order, ok)[..|r.saved|])
    ensures r.Finished? ==> (r.shortfall <==> |r.saved| < needed)
    ensures r.Finished? && r.shortfall ==> r.attempted == |r.order|
  {
    if page == TimedOut {
      return LoadTimedOut;
    }
    var scrolled := ScrollUntilStable(firstHeight, heights);
    if scrolled.StillGrowing? {
      return StillScrolling;
    }
    var urls, visited := CollectUrls(fetch, thumbs);
    AcceptedGrows(thumbs, visited, |thumbs|);
    assert thumbs[..|thumbs|] == thumbs;
    var order := Enumerate(urls);
    var saved, attempted, shortfall := DownloadAll(needed, order, ok);
    return Finished(urls, visited, order, saved, attempted, shortfall);
  }
}
