/** `fetch_images_urls`: request listing pages 1, 2, 3, ... and collect their
    media files until a page says it has no successor. A page that cannot be
    fetched or decoded ends the run (the code unwraps it). */
module Pagination {
  import opened Wrappers
  import opened Failures
  import opened Media

  /** The loop goes on after a page exactly when it decoded and has a next one. */
  predicate Continues(page: Result<Root, Failure>) {
    page.Ok? && page.value.hasNext
  }

  /** With `fetch` answering page numbers, the loop requests exactly pages
      1 to `k`: all pages before `k` continue and page `k` does not. */
  ghost predicate StopsAt(fetch: nat -> Result<Root, Failure>, k: nat) {
    k >= 1 && (forall p :: 1 <= p < k ==> Continues(fetch(p))) && !Continues(fetch(k))
  }

  /** The album ends: some page stops the loop. */
  ghost predicate Paginates(fetch: nat -> Result<Root, Failure>) {
    exists k :: StopsAt(fetch, k)
  }

  /** There is only one page the loop can stop at. */
  lemma StopsAtUnique(fetch: nat -> Result<Root, Failure>, k1: nat, k2: nat)
    requires StopsAt(fetch, k1) && StopsAt(fetch, k2)
    ensures k1 == k2
  {
  }

  /** `m` is listed on page `p`. */
  predicate ListedOn(fetch: nat -> Result<Root, Failure>, p: nat, m: MediaFile) {
    fetch(p).Ok? && m in fetch(p).value.mediaFiles
  }

  /** Media files of pages 1 to `n`, in page order: nothing that is not listed
      on one of those pages. */
  function Collected(fetch: nat -> Result<Root, Failure>, n: nat): (r: seq<MediaFile>)
    ensures forall m :: m in r ==> exists p :: 1 <= p <= n && ListedOn(fetch, p, m)
  {
    if n == 0 then []
    else
      var last := if fetch(n).Ok? then fetch(n).value.mediaFiles else [];
      assert forall m :: m in last ==> ListedOn(fetch, n, m);
      Collected(fetch, n - 1) + last
  }

  /** What the loop returns when it stops after page `k`: the failure of page
      `k`, or everything collected up to and including it. */
  function Outcome(fetch: nat -> Result<Root, Failure>, k: nat): (r: Result<seq<MediaFile>, Failure>)
    ensures r.Err? <==> fetch(k).Err?
    ensures r.Err? ==> r.error == fetch(k).error
    ensures r.Ok? && k >= 1 ==> var last := fetch(k).value.mediaFiles;
      |last| <= |r.value| && r.value[|r.value| - |last|..] == last
  {
    if fetch(k).Err? then Err(fetch(k).error) else Ok(Collected(fetch, k))
  }

  /** Everything the album lists, or the failure that ended the run. */
  ghost function AllMedia(fetch: nat -> Result<Root, Failure>): (r: Result<seq<MediaFile>, Failure>)
    requires Paginates(fetch)
    ensures exists k :: StopsAt(fetch, k) && r == Outcome(fetch, k)
  {
    var k :| StopsAt(fetch, k);
    Outcome(fetch, k)
  }

  /** `AllMedia` is the outcome at the one page the loop stops at. */
  lemma AllMediaIs(fetch: nat -> Result<Root, Failure>, k: nat)
    requires StopsAt(fetch, k)
    ensures Paginates(fetch) && AllMedia(fetch) == Outcome(fetch, k)
  {
    var j :| StopsAt(fetch, j) && AllMedia(fetch) == Outcome(fetch, j);
    StopsAtUnique(fetch, j, k);
  }

  /** Every media file of a page that continues the loop ends up in the
      result, at its place after the files of the earlier pages. */
  lemma {:induction false} CollectedHasEveryPage(fetch: nat -> Result<Root, Failure>, n: nat, p: nat)
    requires 1 <= p <= n && fetch(p).Ok?
    ensures |Collected(fetch, p)| <= |Collected(fetch, n)|
    ensures Collected(fetch, p - 1) + fetch(p).value.mediaFiles == Collected(fetch, n)[..|Collected(fetch, p)|]
  {
    if p < n {
      CollectedHasEveryPage(fetch, n - 1, p);
      var pre := Collected(fetch, n - 1);
      var c := |Collected(fetch, p)|;
      assert Collected(fetch, n)[..c] == pre[..c];
    } else {
      assert Collected(fetch, n)[..|Collected(fetch, p)|] == Collected(fetch, n);
    }
  }

  /** The paging loop of `fetch_images_urls`. `requested` records the page
      numbers asked for, in order. */
  method FetchImagesUrls(fetch: nat -> Result<Root, Failure>) returns (r: Result<seq<MediaFile>, Failure>, requested: seq<nat>)
    requires Paginates(fetch)
    ensures StopsAt(fetch, |requested|)
    ensures forall i :: 0 <= i < |requested| ==> requested[i] == i + 1
    ensures r == Outcome(fetch, |requested|)
    ensures r == AllMedia(fetch)
  {
    ghost var k: nat :| StopsAt(fetch, k);
    var hasImages := true;
    var page: nat := 1;
    var mediaUrls: seq<MediaFile> := [];
    requested := [];
    while hasImages
      invariant 1 <= page <= k + 1
      invariant |requested| == page - 1
      invariant forall i :: 0 <= i < |requested| ==> requested[i] == i + 1
      invariant mediaUrls == Collected(fetch, page - 1)
      invariant hasImages ==> forall p :: 1 <= p < page ==> Continues(fetch(p))
      invariant hasImages ==> page <= k
      invariant !hasImages ==> StopsAt(fetch, page - 1) && fetch(page - 1).Ok?
      decreases k + 1 - page
    {
      var model := fetch(page);
      requested := requested + [page];
      if model.Err? {
        r := Err(model.error);
        AllMediaIs(fetch, page);
        return;
      }
      mediaUrls := mediaUrls + model.value.mediaFiles;
      hasImages := model.value.hasNext;
      page := page + 1;
    }
    r := Ok(mediaUrls);
    AllMediaIs(fetch, page - 1);
  }

  /** Two pages: the first says there is more, the second that there is not. */
  lemma TwoPages(fetch: nat -> Result<Root, Failure>, a: MediaFile, b: MediaFile, c: MediaFile)
    requires fetch(1) == Ok(Root(true, false, 1, [a, b]))
    requires fetch(2) == Ok(Root(false, true, 2, [c]))
    ensures Paginates(fetch) && AllMedia(fetch) == Ok([a, b, c])
  {
    assert StopsAt(fetch, 2);
    AllMediaIs(fetch, 2);
    assert Collected(fetch, 1) == [] + [a, b];
    assert Collected(fetch, 2) == [a, b] + [c] == [a, b, c];
    assert Outcome(fetch, 2) == Ok([a, b, c]);
  }

  /** A page that fails after a page that continued ends the run with that
      page's failure: nothing collected is returned. */
  lemma FailureDiscardsCollected(fetch: nat -> Result<Root, Failure>, e: Failure)
    requires Continues(fetch(1)) && fetch(2) == Err(e)
    ensures Paginates(fetch) && AllMedia(fetch) == Err(e)
  {
    assert StopsAt(fetch, 2);
    AllMediaIs(fetch, 2);
  }
}
