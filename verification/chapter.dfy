/**
  Downloading one chapter (the body of the selection loop in
  handle_chapters_results): every page of the chapter's `words` list goes
  through the retry loop, `success_count` and `failed_pages` are kept, and the
  PDF step runs afterwards when the switch is on. The chapter-detail response
  and the network behaviour of every page are inputs.
 */
module Chapter {
  import opened Wrappers
  import opened Retry
  import opened Naming
  import opened Settings

  /** The fields of a chapter-detail response the download reads. */
  datatype ChapterDetail = ChapterDetail(comicName: string, chapterName: string, contents: seq<string>, words: seq<int>)

  /** The network supplies, for each of `count` pages, how each of its attempts would end. */
  predicate Covers(net: seq<seq<Attempt>>, count: nat) {
    |net| == count && forall i :: 0 <= i < |net| ==> |net[i]| >= MaxRetries
  }

  /** Reference: the page numbers among 1 .. upTo whose image is saved, in page order. */
  function Saved(words: seq<int>, contentsLen: nat, net: seq<seq<Attempt>>, upTo: nat): seq<nat>
    requires upTo <= |words| && Covers(net, |words|)
  {
    if upTo == 0 then []
    else
      Saved(words, contentsLen, net, upTo - 1) +
      (if PageSucceeds(words[upTo - 1], contentsLen, net[upTo - 1]) then [upTo] else [])
  }

  /** Reference: what pages 1 .. upTo add to `failed_pages`, in page order. */
  function Marks(words: seq<int>, contentsLen: nat, net: seq<seq<Attempt>>, upTo: nat): seq<int>
    requires upTo <= |words| && Covers(net, |words|)
  {
    if upTo == 0 then []
    else
      Marks(words, contentsLen, net, upTo - 1) +
      (if PageSucceeds(words[upTo - 1], contentsLen, net[upTo - 1]) then [] else [upTo, upTo])
  }

  /** The saved pages are exactly the pages that succeed, each once, in increasing order. */
  lemma {:induction false} SavedMembers(words: seq<int>, contentsLen: nat, net: seq<seq<Attempt>>, upTo: nat)
    requires upTo <= |words| && Covers(net, |words|)
    ensures forall p :: p in Saved(words, contentsLen, net, upTo) <==>
      1 <= p <= upTo && PageSucceeds(words[p - 1], contentsLen, net[p - 1])
    ensures forall a :: 0 <= a < |Saved(words, contentsLen, net, upTo)| ==> 1 <= Saved(words, contentsLen, net, upTo)[a] <= upTo
    ensures forall a, b :: 0 <= a < b < |Saved(words, contentsLen, net, upTo)| ==>
      Saved(words, contentsLen, net, upTo)[a] < Saved(words, contentsLen, net, upTo)[b]
    ensures |Saved(words, contentsLen, net, upTo)| <= upTo
    decreases upTo
  {
    if upTo > 0 {
      SavedMembers(words, contentsLen, net, upTo - 1);
    }
  }

  /** How many times `x` occurs in `s`. */
  function Occurrences(s: seq<int>, x: int): nat {
    if |s| == 0 then 0 else Occurrences(s[..|s| - 1], x) + (if s[|s| - 1] == x then 1 else 0)
  }

  lemma {:induction false} OccurrencesAppend(a: seq<int>, b: seq<int>, x: int)
    ensures Occurrences(a + b, x) == Occurrences(a, x) + Occurrences(b, x)
    decreases |b|
  {
    if |b| > 0 {
      assert (a + b)[..|a + b| - 1] == a + b[..|b| - 1];
      OccurrencesAppend(a, b[..|b| - 1], x);
    } else {
      assert a + b == a;
    }
  }

  /** A page that fails is in `failed_pages` exactly twice; a page that succeeds, and any other number, not at all. */
  lemma {:induction false} FailedTwice(words: seq<int>, contentsLen: nat, net: seq<seq<Attempt>>, upTo: nat, p: int)
    requires upTo <= |words| && Covers(net, |words|)
    ensures Occurrences(Marks(words, contentsLen, net, upTo), p) ==
      (if 1 <= p <= upTo && !PageSucceeds(words[p - 1], contentsLen, net[p - 1]) then 2 else 0)
    decreases upTo
  {
    if upTo > 0 {
      FailedTwice(words, contentsLen, net, upTo - 1, p);
      var prev := Marks(words, contentsLen, net, upTo - 1);
      var ok := PageSucceeds(words[upTo - 1], contentsLen, net[upTo - 1]);
      var last: seq<int> := if ok then [] else [upTo, upTo];
      assert Marks(words, contentsLen, net, upTo) == prev + last;
      OccurrencesAppend(prev, last, p);
      var pair: seq<int> := [upTo, upTo];
      assert pair[..1] == [upTo] && [upTo][..0] == [];
      assert Occurrences([upTo], p) == if p == upTo then 1 else 0;
      assert Occurrences(pair, p) == Occurrences([upTo], p) + (if p == upTo then 1 else 0);
    }
  }

  /** Every page is accounted for once: either one saved image or two entries in `failed_pages`. */
  lemma {:induction false} EveryPageAccounted(words: seq<int>, contentsLen: nat, net: seq<seq<Attempt>>, upTo: nat)
    requires upTo <= |words| && Covers(net, |words|)
    ensures 2 * |Saved(words, contentsLen, net, upTo)| + |Marks(words, contentsLen, net, upTo)| == 2 * upTo
    decreases upTo
  {
    if upTo > 0 {
      EveryPageAccounted(words, contentsLen, net, upTo - 1);
    }
  }

  /** The pages of a chapter in manifest order, each through the retry loop. */
  method DownloadPages(words: seq<int>, contentsLen: nat, net: seq<seq<Attempt>>)
    returns (successCount: nat, failedPages: seq<int>, saved: seq<nat>)
    requires Covers(net, |words|)
    ensures saved == Saved(words, contentsLen, net, |words|)
    ensures failedPages == Marks(words, contentsLen, net, |words|)
    ensures successCount == |saved| <= |words|
  {
    successCount := 0;
    failedPages := [];
    saved := [];
    var i := 0;
    while i < |words|
      invariant i <= |words|
      invariant saved == Saved(words, contentsLen, net, i)
      invariant failedPages == Marks(words, contentsLen, net, i)
      invariant successCount == |saved|
    {
      var pageNum := i + 1;
      var success, retries, marks := FetchPage(pageNum, words[i], contentsLen, net[i]);
      if success {
        successCount := successCount + 1;
        saved := saved + [pageNum];
      }
      failedPages := failedPages + marks;
      i := i + 1;
    }
    EveryPageAccounted(words, contentsLen, net, |words|);
  }

  /** Distinct saved pages were written to distinct files. */
  lemma SavedFilesDistinct(words: seq<int>, contentsLen: nat, net: seq<seq<Attempt>>, a: nat, b: nat)
    requires Covers(net, |words|)
    requires a < b < |Saved(words, contentsLen, net, |words|)|
    ensures PageFileName(Saved(words, contentsLen, net, |words|)[a]) != PageFileName(Saved(words, contentsLen, net, |words|)[b])
  {
    var saved := Saved(words, contentsLen, net, |words|);
    SavedMembers(words, contentsLen, net, |words|);
    assert saved[a] in saved;
    PageFileNamesDistinct(saved[a], saved[b]);
  }

  /** The call handle_chapters_results makes to make_pdf. */
  datatype PdfCall = PdfCall(dir: string, number: int, password: Option<string>)

  /** How one chapter's download ends. */
  datatype ChapterRun =
    | Crashed  // no chapter detail: `data["results"]` raises and nothing handles it
    | Finished(dir: string, successCount: nat, failedPages: seq<int>, saved: seq<nat>, pdf: Option<PdfCall>)

  /**
    One selected chapter: fetch its detail, download every page, then call
    make_pdf with the page count `len(contents)` when `pdf_switch == 1`,
    whatever failed.
   */
  method HandleChapter(detail: Option<ChapterDetail>, net: seq<seq<Attempt>>, settings: PdfSettings)
    returns (run: ChapterRun)
    requires detail.Some? ==> Covers(net, |detail.value.words|)
    ensures run.Crashed? <==> detail.None?
    ensures run.Finished? ==> run.dir == ChapterDir(detail.value.comicName, detail.value.chapterName)
    ensures run.Finished? ==> run.saved == Saved(detail.value.words, |detail.value.contents|, net, |detail.value.words|)
    ensures run.Finished? ==> run.failedPages == Marks(detail.value.words, |detail.value.contents|, net, |detail.value.words|)
    ensures run.Finished? ==> run.successCount == |run.saved| <= |detail.value.words|
    ensures run.Finished? ==> (run.pdf.Some? <==> settings.switch == 1)
    ensures run.Finished? && run.pdf.Some? ==>
      run.pdf.value == PdfCall(run.dir, |detail.value.contents|, settings.password)
  {
    if detail.None? {
      return Crashed;
    }
    var d := detail.value;
    var dir := ChapterDir(d.comicName, d.chapterName);
    var successCount, failedPages, saved := DownloadPages(d.words, |d.contents|, net);
    var pdf := None;
    if settings.switch == 1 {
      // Both branches on `pdf_password is None` pass the password through unchanged.
      pdf := Some(PdfCall(dir, |d.contents|, settings.password));
    }
    run := Finished(dir, successCount, failedPages, saved, pdf);
  }
}
