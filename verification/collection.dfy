/**
 * The candidate-URL collection loop (main.py:98-134). Every thumbnail is
 * clicked in turn; the `src` of the opened full-size image is added to a
 * set when it is a non-empty string starting with "http://" or "https://".
 * Before each thumbnail the loop stops if the set already holds
 * `num_images_to_fetch` entries. A thumbnail whose handling raises is
 * skipped and the loop goes on with the next one.
 */
module Collection {
  import opened Wrappers

  /**
   * What handling one thumbnail yields. `Failed`: an exception was raised
   * before the `src` attribute was read (scrolling into view, the click, the
   * wait for the detail panel). `Src(src)`: the attribute was read, `None`
   * when it is absent. An exception while closing the panel afterwards
   * (main.py:125) is caught and ignored, so it also counts as `Src`.
   */
  datatype Thumb = Failed | Src(src: Option<string>)

  /** The acceptance test of main.py:120: a non-empty http or https address. */
  predicate IsWebUrl(u: string) {
    |u| > 0 && ("http://" <= u || "https://" <= u)
  }

  /**
   * Handling one thumbnail (main.py:118-121): the set gains the `src` when
   * it is a web URL, and nothing otherwise.
   */
  function Handle(found: set<string>, t: Thumb): (r: set<string>)
    ensures found <= r
    ensures |r| <= |found| + 1
    ensures forall u :: u in r ==> u in found || Gives(t, u)
  {
    match t
    case Failed => found
    case Src(src) => if src.Some? && IsWebUrl(src.value) then found + {src.value} else found
  }

  /** The set after handling the thumbnails `ts` in order, starting from the empty set. */
  function Accepted(ts: seq<Thumb>): set<string>
  {
    if |ts| == 0 then {} else Handle(Accepted(ts[..|ts| - 1]), ts[|ts| - 1])
  }

  /**
   * The loop as written. `visited` is the number of thumbnails it handled
   * before it stopped (by the size test or by running out of thumbnails).
   */
  method CollectUrls(fetch: nat, thumbs: seq<Thumb>) returns (urls: set<string>, visited: nat)
    ensures visited <= |thumbs|
    ensures urls == Accepted(thumbs[..visited])
    ensures |urls| <= fetch
    ensures forall u :: u in urls ==> IsWebUrl(u)
    ensures visited < |thumbs| ==> |urls| == fetch
    ensures forall j :: 0 <= j < visited ==> |Accepted(thumbs[..j])| < fetch
    ensures |urls| < fetch ==> visited == |thumbs| && urls == Accepted(thumbs)
  {
    urls := {};
    visited := 0;
    while visited < |thumbs|
      invariant visited <= |thumbs|
      invariant urls == Accepted(thumbs[..visited])
      invariant |urls| <= fetch
      invariant forall u :: u in urls ==> IsWebUrl(u)
      invariant visited > 0 ==> |Accepted(thumbs[..visited - 1])| < fetch
    {
      if |urls| >= fetch {
        break;
      }
      AcceptStep(thumbs, visited);
      match thumbs[visited] {
        case Failed =>
          // the exception is swallowed and the next thumbnail is tried
        case Src(src) =>
          if src.Some? && IsWebUrl(src.value) {
            urls := urls + {src.value};
          }
      }
      visited := visited + 1;
    }
    NeverStoppedEarly(fetch, thumbs, visited);
    if visited == |thumbs| {
      assert thumbs[..visited] == thumbs;
    }
  }

  /** The last size test passed, so every earlier one did too: the set only grows. */
  lemma NeverStoppedEarly(fetch: nat, ts: seq<Thumb>, visited: nat)
    requires visited <= |ts|
    requires visited > 0 ==> |Accepted(ts[..visited - 1])| < fetch
    ensures forall j :: 0 <= j < visited ==> |Accepted(ts[..j])| < fetch
  {
    forall j | 0 <= j < visited
      ensures |Accepted(ts[..j])| < fetch
    {
      AcceptedGrows(ts, j, visited - 1);
      SubsetSize(Accepted(ts[..j]), Accepted(ts[..visited - 1]));
    }
  }

  lemma SubsetSize(a: set<string>, b: set<string>)
    requires a <= b
    ensures |a| <= |b|
  {
    assert b == a + (b - a);
  }

  /** The set after one more thumbnail is the set before it, handled once more. */
  lemma AcceptStep(ts: seq<Thumb>, i: nat)
    requires i < |ts|
    ensures Accepted(ts[..i + 1]) == Handle(Accepted(ts[..i]), ts[i])
  {
    assert ts[..i + 1][..i] == ts[..i];
  }

  /** A thumbnail that fails leaves the collected set as it was. */
  lemma FailureAddsNothing(ts: seq<Thumb>)
    ensures Accepted(ts + [Failed]) == Accepted(ts)
  {
  }

  /** A URL that is already collected leaves the set as it was when it is found again. */
  lemma DuplicateAddsNothing(ts: seq<Thumb>, u: string)
    requires u in Accepted(ts)
    ensures Accepted(ts + [Src(Some(u))]) == Accepted(ts)
  {
  }

  /** The collected set only grows as more thumbnails are handled. */
  lemma {:induction false} AcceptedGrows(ts: seq<Thumb>, i: nat, j: nat)
    requires i <= j <= |ts|
    ensures Accepted(ts[..i]) <= Accepted(ts[..j])
    decreases j - i
  {
    if i < j {
      assert ts[..j][..j - 1] == ts[..j - 1];
      AcceptedGrows(ts, i, j - 1);
    }
  }

  /**
   * A failing thumbnail anywhere in the sequence does not change which URLs
   * the thumbnails after it contribute.
   */
  lemma {:induction false} FailureIsSkipped(pre: seq<Thumb>, post: seq<Thumb>)
    ensures Accepted(pre + [Failed] + post) == Accepted(pre + post)
    decreases |post|
  {
    if |post| == 0 {
      assert pre + [Failed] + post == pre + [Failed];
      assert pre + post == pre;
      FailureAddsNothing(pre);
    } else {
      var front := post[..|post| - 1];
      var last := post[|post| - 1];
      FailureIsSkipped(pre, front);
      assert post == front + [last];
      assert pre + [Failed] + post == (pre + [Failed] + front) + [last];
      assert pre + post == (pre + front) + [last];
      AppendOne(pre + [Failed] + front, last);
      AppendOne(pre + front, last);
    }
  }

  /** Handling one more thumbnail, stated on an appended sequence. */
  lemma AppendOne(ts: seq<Thumb>, t: Thumb)
    ensures Accepted(ts + [t]) == Handle(Accepted(ts), t)
  {
    assert (ts + [t])[..|ts|] == ts;
  }

  /** Thumbnail `t` yields the acceptable source `u`. */
  predicate Gives(t: Thumb, u: string)
  {
    t == Src(Some(u)) && IsWebUrl(u)
  }

  lemma HandleOf(found: set<string>, t: Thumb, u: string)
    ensures u in Handle(found, t) <==> u in found || Gives(t, u)
  {
  }

  /**
   * After handling the first `n` thumbnails, the set holds exactly the
   * acceptable sources among them.
   */
  lemma PrefixFromSources(ts: seq<Thumb>, n: nat)
    requires n <= |ts|
    ensures forall u :: u in Accepted(ts[..n]) <==> exists i :: 0 <= i < n && Gives(ts[i], u)
  {
    forall u
      ensures u in Accepted(ts[..n]) <==> exists i :: 0 <= i < n && Gives(ts[i], u)
    {
      AcceptedFromSources(ts[..n], u);
      if u in Accepted(ts[..n]) {
        var i :| 0 <= i < n && Gives(ts[..n][i], u);
        assert Gives(ts[i], u);
      } else {
        forall i | 0 <= i < n
          ensures !Gives(ts[i], u)
        {
          assert ts[..n][i] == ts[i];
        }
      }
    }
  }

  /** A URL is collected exactly when some handled thumbnail yields it as an acceptable source. */
  lemma {:induction false} AcceptedFromSources(ts: seq<Thumb>, u: string)
    ensures u in Accepted(ts) <==> exists i :: 0 <= i < |ts| && Gives(ts[i], u)
    decreases |ts|
  {
    if |ts| > 0 {
      var n := |ts| - 1;
      var front := ts[..n];
      AcceptedFromSources(front, u);
      HandleOf(Accepted(front), ts[n], u);
      if u in Accepted(ts) {
        if u in Accepted(front) {
          var i :| 0 <= i < |front| && Gives(front[i], u);
          assert ts[i] == front[i];
        } else {
          assert Gives(ts[n], u);
        }
      } else {
        forall i | 0 <= i < |ts|
          ensures !Gives(ts[i], u)
        {
          if i < n {
            assert ts[i] == front[i];
          }
        }
      }
    }
  }
}
