/**
  The chapter-range driver: download_comic_image walks the 50-entry catalogue
  pages that cover a range of chapter numbers, and handle_chapters_results picks
  out of each returned page the chapters whose number lies in the range.
  The catalogue is a parameter: `catalogue(p)` is what get_chapters returns for
  page `p` (`None` when the request or the JSON decoding failed).
 */
module Pagination {
  import opened Wrappers
  import opened Paging

  /** One entry of a chapter list. */
  datatype ChapterEntry = ChapterEntry(name: string, uuid: string)

  /** The parts of a chapter-list response that the download path reads: `code`, `results.offset` (absent: 0) and `results.list`. */
  datatype ChapterListing = ChapterListing(code: int, offset: Option<int>, items: seq<ChapterEntry>)

  /** One pass of the driver loop: the page requested and the value `start` had when it was requested. */
  datatype PageRequest = PageRequest(page: int, start: int)

  /** The numbers `offset + 1 .. offset + n` of a listing that lie within `lo .. hi`, in listing order. */
  function Window(offset: int, n: nat, lo: int, hi: int): (w: seq<int>)
    ensures forall i :: i in w <==> offset < i <= offset + n && lo <= i <= hi
    ensures forall a :: 0 <= a < |w| ==> offset < w[a] <= offset + n
    ensures forall a, b :: 0 <= a < b < |w| ==> w[a] < w[b]
    decreases n
  {
    if n == 0 then []
    else
      var index := ItemIndex(offset, n - 1);
      Window(offset, n - 1, lo, hi) + (if lo <= index <= hi then [index] else [])
  }

  /**
    handle_chapters_results: the numbers of the chapters it goes on to download
    from one chapter-list response, in list order. A missing response or a code
    other than 200 selects nothing.
   */
  function SelectChapters(results: Option<ChapterListing>, startNum: int, endNum: int): (sel: seq<int>)
    ensures forall i :: i in sel ==> startNum <= i <= endNum
    ensures results.None? || results.value.code != 200 ==> sel == []
    ensures results.Some? && results.value.code == 200 ==>
      var offset := results.value.offset.GetOr(0);
      forall i :: i in sel <==> offset < i <= offset + |results.value.items| && startNum <= i <= endNum
    ensures forall a, b :: 0 <= a < b < |sel| ==> sel[a] < sel[b]
  {
    match results
    case None => []
    case Some(listing) =>
      if listing.code != 200 then []
      else Window(listing.offset.GetOr(0), |listing.items|, startNum, endNum)
  }

  /** The chapters a sequence of page requests downloads, request by request. */
  function Gathered(catalogue: int -> Option<ChapterListing>, requests: seq<PageRequest>, endNum: int): seq<int>
  {
    if |requests| == 0 then []
    else
      var last := requests[|requests| - 1];
      Gathered(catalogue, requests[..|requests| - 1], endNum) + SelectChapters(catalogue(last.page), last.start, endNum)
  }

  /** Request `r` selects chapter `i`. */
  predicate Selects(catalogue: int -> Option<ChapterListing>, r: PageRequest, endNum: int, i: int) {
    i in SelectChapters(catalogue(r.page), r.start, endNum)
  }

  /** Whatever one request selects is gathered. */
  lemma {:induction false} SelectedIsGathered(catalogue: int -> Option<ChapterListing>, requests: seq<PageRequest>, endNum: int, k: nat, i: int)
    requires k < |requests| && Selects(catalogue, requests[k], endNum, i)
    ensures i in Gathered(catalogue, requests, endNum)
    decreases |requests|
  {
    var prefix := requests[..|requests| - 1];
    var last := requests[|requests| - 1];
    assert Gathered(catalogue, requests, endNum) == Gathered(catalogue, prefix, endNum) + SelectChapters(catalogue(last.page), last.start, endNum);
    if k < |prefix| {
      assert prefix[k] == requests[k];
      SelectedIsGathered(catalogue, prefix, endNum, k, i);
    }
  }

  /** Whatever is gathered was selected by some request. */
  lemma {:induction false} GatheredIsSelected(catalogue: int -> Option<ChapterListing>, requests: seq<PageRequest>, endNum: int, i: int)
    returns (k: nat)
    requires i in Gathered(catalogue, requests, endNum)
    ensures k < |requests| && Selects(catalogue, requests[k], endNum, i)
    decreases |requests|
  {
    var prefix := requests[..|requests| - 1];
    var last := requests[|requests| - 1];
    assert Gathered(catalogue, requests, endNum) == Gathered(catalogue, prefix, endNum) + SelectChapters(catalogue(last.page), last.start, endNum);
    if i in Gathered(catalogue, prefix, endNum) {
      k := GatheredIsSelected(catalogue, prefix, endNum, i);
      assert prefix[k] == requests[k];
    } else {
      k := |requests| - 1;
    }
  }

  /**
    The pages the driver loop requests: PageOf(startNum), then one page further
    on each pass, stopping after the first page whose last entry number
    (`page * 50`) lies beyond `endNum`.
   */
  predicate ConsecutivePages(startNum: int, endNum: int, requests: seq<PageRequest>) {
    && |requests| >= 1
    && (forall k :: 0 <= k < |requests| ==> requests[k].page == PageOf(startNum) + k)
    && (forall k :: 0 <= k < |requests| - 1 ==> requests[k].page * ChapterPageSize <= endNum)
    && requests[|requests| - 1].page * ChapterPageSize > endNum
  }

  /** As written, `start` moves on by 50 on every pass. */
  predicate StartsAdvanceBy50(startNum: int, requests: seq<PageRequest>) {
    forall k :: 0 <= k < |requests| ==> requests[k].start == startNum + ChapterPageSize * k
  }

  /** Corrected, `start` is the first entry of each page after the first. */
  predicate StartsAtPageBoundary(startNum: int, requests: seq<PageRequest>) {
    && (|requests| > 0 ==> requests[0].start == startNum)
    && (forall k :: 1 <= k < |requests| ==> requests[k].start == Offset(requests[k].page, ChapterPageSize) + 1)
  }

  /** With a non-empty range the loop's last request is page endNum / 50 + 1, so an `endNum` on a page boundary costs one more request. */
  lemma LastPage(startNum: int, endNum: int, requests: seq<PageRequest>)
    requires startNum >= 1
    requires ConsecutivePages(startNum, endNum, requests)
    ensures startNum <= endNum ==> requests[|requests| - 1].page == endNum / ChapterPageSize + 1
    ensures startNum > endNum ==> |requests| == 1
  {
    var n := |requests|;
    if n >= 2 {
      assert requests[n - 2].page * ChapterPageSize <= endNum;
      assert requests[n - 2].page + 1 == requests[n - 1].page;
    }
  }

  /**
    download_comic_image as written (a `while True` loop): request page
    PageOf(start), hand the response to handle_chapters_results, stop once
    `page * 50 > end`, otherwise advance `start` by 50.
   */
  method DownloadRange(startNum: int, endNum: int, catalogue: int -> Option<ChapterListing>)
    returns (requests: seq<PageRequest>, chapters: seq<int>)
    requires startNum >= 1
    ensures ConsecutivePages(startNum, endNum, requests)
    ensures StartsAdvanceBy50(startNum, requests)
    ensures startNum <= endNum ==> requests[|requests| - 1].page == endNum / ChapterPageSize + 1
    ensures startNum > endNum ==> |requests| == 1
    ensures chapters == Gathered(catalogue, requests, endNum)
  {
    var start := startNum;
    requests := [];
    chapters := [];
    while true
      invariant start == startNum + ChapterPageSize * |requests|
      invariant forall k :: 0 <= k < |requests| ==> requests[k] == PageRequest(PageOf(startNum) + k, startNum + ChapterPageSize * k)
      invariant forall k :: 0 <= k < |requests| ==> requests[k].page * ChapterPageSize <= endNum
      invariant PageOf(start) == PageOf(startNum) + |requests|
      invariant chapters == Gathered(catalogue, requests, endNum)
      decreases endNum - ChapterPageSize * |requests|
    {
      var page := PageOf(start);
      var results := catalogue(page);
      var request := PageRequest(page, start);
      assert (requests + [request])[..|requests|] == requests;
      requests := requests + [request];
      chapters := chapters + SelectChapters(results, start, endNum);
      if page * ChapterPageSize > endNum {
        break;
      }
      PageOfStep(start);
      start := start + ChapterPageSize;
    }
    LastPage(startNum, endNum, requests);
  }

  /**
    The corrected driver: identical, except that after a page `start` moves to
    that page's successor's first entry, `page * 50 + 1`.
   */
  method DownloadRangeCorrected(startNum: int, endNum: int, catalogue: int -> Option<ChapterListing>)
    returns (requests: seq<PageRequest>, chapters: seq<int>)
    requires startNum >= 1
    ensures ConsecutivePages(startNum, endNum, requests)
    ensures StartsAtPageBoundary(startNum, requests)
    ensures chapters == Gathered(catalogue, requests, endNum)
  {
    var start := startNum;
    requests := [];
    chapters := [];
    while true
      invariant |requests| == 0 ==> start == startNum
      invariant |requests| > 0 ==> start == Offset(PageOf(startNum) + |requests|, ChapterPageSize) + 1
      invariant forall k :: 0 <= k < |requests| ==> requests[k].page == PageOf(startNum) + k
      invariant StartsAtPageBoundary(startNum, requests)
      invariant forall k :: 0 <= k < |requests| ==> requests[k].page * ChapterPageSize <= endNum
      invariant PageOf(start) == PageOf(startNum) + |requests|
      invariant chapters == Gathered(catalogue, requests, endNum)
      decreases endNum - ChapterPageSize * |requests|
    {
      var page := PageOf(start);
      var results := catalogue(page);
      var request := PageRequest(page, start);
      assert (requests + [request])[..|requests|] == requests;
      requests := requests + [request];
      chapters := chapters + SelectChapters(results, start, endNum);
      if page * ChapterPageSize > endNum {
        break;
      }
      PageOfItem(page + 1, 0);
      assert ItemIndex(ChapterOffset(page + 1), 0) == page * ChapterPageSize + 1;
      start := page * ChapterPageSize + 1;
    }
  }

  /** How many entries page `p` of a catalogue of `total` chapters holds. */
  function PageFill(total: int, p: int): nat {
    var rest := total - Offset(p, ChapterPageSize);
    if rest <= 0 then 0 else if rest >= ChapterPageSize then ChapterPageSize else rest
  }

  /** A catalogue that answers every page with code 200 and the entries of chapters 1..total, 50 to a page. */
  ghost predicate ServesChapters(catalogue: int -> Option<ChapterListing>, total: int) {
    forall p :: p >= 1 ==>
      && catalogue(p).Some?
      && catalogue(p).value.code == 200
      && catalogue(p).value.offset == Some(Offset(p, ChapterPageSize))
      && |catalogue(p).value.items| == PageFill(total, p)
  }

  lemma ServedPageMembers(catalogue: int -> Option<ChapterListing>, total: int, p: int, lo: int, hi: int, i: int)
    requires ServesChapters(catalogue, total) && p >= 1
    ensures i in SelectChapters(catalogue(p), lo, hi) <==>
      Offset(p, ChapterPageSize) < i <= p * ChapterPageSize && i <= total && lo <= i <= hi
  {
    assert catalogue(p).Some?;
  }

  lemma DivMod50(x: int, m: int)
    requires ChapterPageSize * m <= x < ChapterPageSize * m + ChapterPageSize
    ensures x / ChapterPageSize == m
    ensures x % ChapterPageSize == x - ChapterPageSize * m
  {
  }

  /**
    The chapters the as-written driver downloads: those of the range, present in
    the catalogue, whose position on their page is not before the position of
    `startNum` on its page.
   */
  predicate AsWrittenSelects(startNum: int, endNum: int, total: int, i: int) {
    startNum <= i <= endNum && i <= total && (i - 1) % ChapterPageSize >= (startNum - 1) % ChapterPageSize
  }

  lemma AsWrittenCoverage(catalogue: int -> Option<ChapterListing>, total: int, startNum: int, endNum: int, requests: seq<PageRequest>)
    requires startNum >= 1
    requires ServesChapters(catalogue, total)
    requires ConsecutivePages(startNum, endNum, requests)
    requires StartsAdvanceBy50(startNum, requests)
    ensures forall i :: i in Gathered(catalogue, requests, endNum) <==> AsWrittenSelects(startNum, endNum, total, i)
  {
    forall i
      ensures i in Gathered(catalogue, requests, endNum) <==> AsWrittenSelects(startNum, endNum, total, i)
    {
      if i in Gathered(catalogue, requests, endNum) {
        AsWrittenOnlySelects(catalogue, total, startNum, endNum, requests, i);
      }
      if AsWrittenSelects(startNum, endNum, total, i) {
        AsWrittenGathers(catalogue, total, startNum, endNum, requests, i);
      }
    }
  }

  lemma AsWrittenOnlySelects(catalogue: int -> Option<ChapterListing>, total: int, startNum: int, endNum: int, requests: seq<PageRequest>, i: int)
    requires startNum >= 1
    requires ServesChapters(catalogue, total)
    requires ConsecutivePages(startNum, endNum, requests)
    requires StartsAdvanceBy50(startNum, requests)
    requires i in Gathered(catalogue, requests, endNum)
    ensures AsWrittenSelects(startNum, endNum, total, i)
  {
    var k := GatheredIsSelected(catalogue, requests, endNum, i);
    var r := requests[k];
    var first := PageOf(startNum);
    assert r.page == first + k && r.start == startNum + ChapterPageSize * k;
    ServedPageMembers(catalogue, total, r.page, r.start, endNum, i);
    PositionNotBefore(startNum, first, k, i);
  }

  /** A chapter on the k-th page after startNum's, at or after startNum + 50k, sits no earlier on its page than startNum on its own. */
  lemma PositionNotBefore(startNum: int, first: int, k: nat, i: int)
    requires Offset(first, ChapterPageSize) < startNum <= first * ChapterPageSize
    requires Offset(first + k, ChapterPageSize) < i <= (first + k) * ChapterPageSize
    requires startNum + ChapterPageSize * k <= i
    ensures (i - 1) % ChapterPageSize >= (startNum - 1) % ChapterPageSize
  {
    DivMod50(startNum - 1, first - 1);
    DivMod50(i - 1, first - 1 + k);
  }

  lemma AsWrittenGathers(catalogue: int -> Option<ChapterListing>, total: int, startNum: int, endNum: int, requests: seq<PageRequest>, i: int)
    requires startNum >= 1
    requires ServesChapters(catalogue, total)
    requires ConsecutivePages(startNum, endNum, requests)
    requires StartsAdvanceBy50(startNum, requests)
    requires AsWrittenSelects(startNum, endNum, total, i)
    ensures i in Gathered(catalogue, requests, endNum)
  {
    var q := (startNum - 1) / ChapterPageSize;
    DivMod50(startNum - 1, q);
    var m := (i - 1) / ChapterPageSize;
    DivMod50(i - 1, m);
    var k := m - q;
    var last := |requests| - 1;
    assert requests[last].page == q + 1 + last;
    assert k <= last;
    var page := requests[k].page;
    assert page == q + 1 + k;
    assert requests[k].start == startNum + ChapterPageSize * k;
    ServedPageMembers(catalogue, total, page, requests[k].start, endNum, i);
    SelectedIsGathered(catalogue, requests, endNum, k, i);
  }

  /**
    Finding: with `start += 50` a range that crosses a page boundary loses the
    top of the later page. Chapters 372..420 of a 420-chapter catalogue yield
    372..400 only: 401..420 are never downloaded.
   */
  lemma AsWrittenSkipsChapters(catalogue: int -> Option<ChapterListing>, requests: seq<PageRequest>)
    requires ServesChapters(catalogue, 420)
    requires ConsecutivePages(372, 420, requests)
    requires StartsAdvanceBy50(372, requests)
    ensures 372 in Gathered(catalogue, requests, 420)
    ensures 400 in Gathered(catalogue, requests, 420)
    ensures forall i :: 401 <= i <= 420 ==> i !in Gathered(catalogue, requests, 420)
  {
    DivMod50(371, 7);
    DivMod50(399, 7);
    AsWrittenGathers(catalogue, 420, 372, 420, requests, 372);
    AsWrittenGathers(catalogue, 420, 372, 420, requests, 400);
    forall i | 401 <= i <= 420
      ensures i !in Gathered(catalogue, requests, 420)
    {
      DivMod50(i - 1, 8);
      if i in Gathered(catalogue, requests, 420) {
        AsWrittenOnlySelects(catalogue, 420, 372, 420, requests, i);
      }
    }
  }

  /** When `endNum` is a multiple of 50, the last page requested begins after `endNum`: a request that selects nothing. */
  lemma AlignedEndWastesRequest(catalogue: int -> Option<ChapterListing>, total: int, startNum: int, endNum: int, requests: seq<PageRequest>)
    requires 1 <= startNum <= endNum && endNum % ChapterPageSize == 0
    requires ServesChapters(catalogue, total)
    requires ConsecutivePages(startNum, endNum, requests)
    ensures |requests| >= 2
    ensures Offset(requests[|requests| - 1].page, ChapterPageSize) == endNum
    ensures SelectChapters(catalogue(requests[|requests| - 1].page), requests[|requests| - 1].start, endNum) == []
  {
    LastPage(startNum, endNum, requests);
    var last := requests[|requests| - 1];
    var sel := SelectChapters(catalogue(last.page), last.start, endNum);
    if sel != [] {
      ServedPageMembers(catalogue, total, last.page, last.start, endNum, sel[0]);
    }
  }

  /** The corrected driver downloads every chapter of the range that the catalogue holds, and nothing else. */
  lemma CorrectedCoverage(catalogue: int -> Option<ChapterListing>, total: int, startNum: int, endNum: int, requests: seq<PageRequest>)
    requires startNum >= 1
    requires ServesChapters(catalogue, total)
    requires ConsecutivePages(startNum, endNum, requests)
    requires StartsAtPageBoundary(startNum, requests)
    ensures forall i :: i in Gathered(catalogue, requests, endNum) <==> startNum <= i <= endNum && i <= total
  {
    forall i
      ensures i in Gathered(catalogue, requests, endNum) <==> startNum <= i <= endNum && i <= total
    {
      if i in Gathered(catalogue, requests, endNum) {
        var k := GatheredIsSelected(catalogue, requests, endNum, i);
        CorrectedOnlySelects(catalogue, total, startNum, endNum, requests, k, i);
      }
      if startNum <= i <= endNum && i <= total {
        CorrectedGathers(catalogue, total, startNum, endNum, requests, i);
      }
    }
  }

  lemma CorrectedOnlySelects(catalogue: int -> Option<ChapterListing>, total: int, startNum: int, endNum: int, requests: seq<PageRequest>, k: nat, i: int)
    requires startNum >= 1
    requires ServesChapters(catalogue, total)
    requires ConsecutivePages(startNum, endNum, requests)
    requires StartsAtPageBoundary(startNum, requests)
    requires k < |requests| && Selects(catalogue, requests[k], endNum, i)
    ensures startNum <= i <= endNum && i <= total
  {
    var page := requests[k].page;
    assert page == PageOf(startNum) + k;
    ServedPageMembers(catalogue, total, page, requests[k].start, endNum, i);
  }

  lemma CorrectedGathers(catalogue: int -> Option<ChapterListing>, total: int, startNum: int, endNum: int, requests: seq<PageRequest>, i: int)
    requires startNum >= 1
    requires ServesChapters(catalogue, total)
    requires ConsecutivePages(startNum, endNum, requests)
    requires StartsAtPageBoundary(startNum, requests)
    requires startNum <= i <= endNum && i <= total
    ensures i in Gathered(catalogue, requests, endNum)
  {
    var q := (startNum - 1) / ChapterPageSize;
    DivMod50(startNum - 1, q);
    assert PageOf(startNum) == q + 1;
    var m := (i - 1) / ChapterPageSize;
    DivMod50(i - 1, m);
    var k := m - q;
    var last := |requests| - 1;
    assert requests[last].page == q + 1 + last;
    assert k <= last;
    var page := requests[k].page;
    assert page == q + 1 + k;
    ServedPageMembers(catalogue, total, page, requests[k].start, endNum, i);
    SelectedIsGathered(catalogue, requests, endNum, k, i);
  }
}
