/**
 * The download loop (main.py:141-165). The collected URLs are tried one
 * after another; each success is saved under the next zero-padded name
 * and advances `success_count` by one, a failure advances nothing, and the
 * loop stops before the next attempt once `num_images_needed` images are
 * saved. A shortfall is reported when fewer were saved.
 *
 * `download_image` (fetch, decode, write) is the oracle `ok`: `ok(u)` is
 * whether downloading `u` succeeds. Python's iteration order over the set
 * is the sequence `order`.
 */
module Downloads {
  import opened FileNames

  /** One saved image: where it came from and the file name it got. */
  datatype SavedFile = SavedFile(url: string, name: string)

  /** Reference definition: the URLs of `urls` whose download succeeds, in order. */
  function Successes(urls: seq<string>, ok: string -> bool): (s: seq<string>)
    ensures |s| <= |urls|
  {
    if |urls| == 0 then []
    else Successes(urls[..|urls| - 1], ok) + (if ok(urls[|urls| - 1]) then [urls[|urls| - 1]] else [])
  }

  function Min(a: nat, b: nat): nat {
    if a <= b then a else b
  }

  /** The k-th saved file (0-based) is the k-th success, named FileName(k). */
  predicate NumberedFrom(saved: seq<SavedFile>, wins: seq<string>)
  {
    && |saved| == |wins|
    && forall k :: 0 <= k < |saved| ==> saved[k] == SavedFile(wins[k], FileName(k))
  }

  /**
   * The loop as written. `attempted` is how many URLs of `order` were
   * handed to `download_image`; `shortfall` is the warning of main.py:164.
   */
  method DownloadAll(needed: nat, order: seq<string>, ok: string -> bool)
    returns (saved: seq<SavedFile>, attempted: nat, shortfall: bool)
    ensures attempted <= |order|
    ensures NumberedFrom(saved, Successes(order[..attempted], ok))
    ensures |saved| <= needed
    ensures attempted < |order| ==> |saved| == needed
    ensures attempted > 0 ==> |Successes(order[..attempted - 1], ok)| < needed
    ensures |saved| == Min(needed, |Successes(order, ok)|)
    ensures NumberedFrom(saved, Successes(order, ok)[..|saved|])
    ensures shortfall <==> |saved| < needed
    ensures shortfall ==> attempted == |order|
  {
    saved := [];
    attempted := 0;
    var successCount: nat := 0;
    while attempted < |order|
      invariant attempted <= |order|
      invariant successCount == |saved|
      invariant NumberedFrom(saved, Successes(order[..attempted], ok))
      invariant successCount <= needed
      invariant attempted > 0 ==> |Successes(order[..attempted - 1], ok)| < needed
    {
      if successCount >= needed {
        break;
      }
      var filename := FileName(successCount);
      var url := order[attempted];
      RecordAttempt(order, ok, attempted, saved);
      if ok(url) {
        saved := saved + [SavedFile(url, filename)];
        successCount := successCount + 1;
      }
      attempted := attempted + 1;
    }
    FinalCount(needed, order, ok, attempted, saved);
    shortfall := successCount < needed;
  }

  /** One attempt of the loop: a success is appended under the next file name. */
  lemma RecordAttempt(order: seq<string>, ok: string -> bool, attempted: nat, saved: seq<SavedFile>)
    requires attempted < |order|
    requires NumberedFrom(saved, Successes(order[..attempted], ok))
    ensures ok(order[attempted]) ==>
              NumberedFrom(saved + [SavedFile(order[attempted], FileName(|saved|))], Successes(order[..attempted + 1], ok))
    ensures !ok(order[attempted]) ==> NumberedFrom(saved, Successes(order[..attempted + 1], ok))
  {
    assert order[..attempted + 1][..attempted] == order[..attempted];
  }

  /** What the loop's exit state says about all of `order`. */
  lemma FinalCount(needed: nat, order: seq<string>, ok: string -> bool, attempted: nat, saved: seq<SavedFile>)
    requires attempted <= |order|
    requires NumberedFrom(saved, Successes(order[..attempted], ok))
    requires |saved| <= needed
    requires attempted < |order| ==> |saved| == needed
    ensures |saved| == Min(needed, |Successes(order, ok)|)
    ensures NumberedFrom(saved, Successes(order, ok)[..|saved|])
  {
    SuccessesOfPrefix(order, ok, attempted);
    if attempted == |order| {
      assert order[..attempted] == order;
    }
  }

  /** Successes of a prefix of the order are a prefix of the successes of the whole order. */
  lemma {:induction false} SuccessesOfPrefix(urls: seq<string>, ok: string -> bool, i: nat)
    requires i <= |urls|
    ensures Successes(urls[..i], ok) <= Successes(urls, ok)
    decreases |urls| - i
  {
    if i < |urls| {
      var n := |urls|;
      SuccessesOfPrefix(urls[..n - 1], ok, i);
      assert urls[..n - 1][..i] == urls[..i];
      var whole := Successes(urls, ok);
      var front := Successes(urls[..n - 1], ok);
      assert whole[..|front|] == front;
      var part := Successes(urls[..i], ok);
      assert front[..|part|] == part;
      assert |part| <= |front| <= |whole|;
      assert whole[..|part|] == part;
    } else {
      assert urls[..i] == urls;
    }
  }

  /** The successes are exactly the candidates whose download succeeds. */
  lemma {:induction false} SuccessesMembers(urls: seq<string>, ok: string -> bool)
    ensures forall u :: u in Successes(urls, ok) <==> u in urls && ok(u)
    decreases |urls|
  {
    if |urls| > 0 {
      var front := urls[..|urls| - 1];
      SuccessesMembers(front, ok);
      assert urls == front + [urls[|urls| - 1]];
    }
  }

  /** The saved files have pairwise distinct names. */
  lemma SavedNamesDistinct(saved: seq<SavedFile>, wins: seq<string>)
    requires NumberedFrom(saved, wins)
    ensures forall i, j :: 0 <= i < j < |saved| ==> saved[i].name != saved[j].name
  {
    forall i, j | 0 <= i < j < |saved|
      ensures saved[i].name != saved[j].name
    {
      FileNameInjective(i, j);
    }
  }

  /** A failed download leaves the successes as they were; a success adds exactly that URL. */
  lemma SuccessesStep(urls: seq<string>, u: string, ok: string -> bool)
    ensures !ok(u) ==> Successes(urls + [u], ok) == Successes(urls, ok)
    ensures ok(u) ==> Successes(urls + [u], ok) == Successes(urls, ok) + [u]
  {
  }
}
