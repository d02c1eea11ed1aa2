/**
  Where a chapter's pages go on disk: `./out/<comic>/<chapter>/NNN.jpg` with
  NNN the page number written by `"%03d"`, and which of those names the PDF
  step goes looking for.
 */
module Naming {
  import opened Wrappers
  import opened Text

  /** Whether `os.path.join` treats `b` as absolute under POSIX rules. */
  predicate IsAbsolute(b: string) {
    |b| > 0 && b[0] == '/'
  }

  /**
    `os.path.join(a, b)` under POSIX rules: an absolute `b` replaces `a`;
    otherwise `b` follows `a`, with a '/' between them unless `a` is empty or
    already ends in one.
   */
  function Join(a: string, b: string): (p: string)
    ensures IsAbsolute(b) ==> p == b
    ensures !IsAbsolute(b) ==> |a| <= |p| && p[..|a|] == a && |p| >= |b| && p[|p| - |b|..] == b
    ensures !IsAbsolute(b) ==> (|p| == |a| + |b| <==> a == [] || a[|a| - 1] == '/')
    ensures !IsAbsolute(b) && |p| != |a| + |b| ==> |p| == |a| + 1 + |b| && p[|a|] == '/'
  {
    if IsAbsolute(b) then b
    else if a == [] || a[|a| - 1] == '/' then a + b
    else a + "/" + b
  }

  /** Two relative names joined onto the same directory give the same path only for the same name. */
  lemma JoinInjective(dir: string, a: string, b: string)
    requires !IsAbsolute(a) && !IsAbsolute(b)
    requires Join(dir, a) == Join(dir, b)
    ensures a == b
  {
    var pa := Join(dir, a);
    var prefix := pa[..|pa| - |a|];
    assert Join(dir, b)[..|pa| - |b|] == prefix;
  }

  /** The output directory of a chapter: under `./out`, the comic's name, then the chapter's. */
  function ChapterDir(comicName: string, chapterName: string): (dir: string)
    ensures |dir| == 7 + |comicName| + |chapterName|
    ensures dir[..6] == "./out/" && dir[6..6 + |comicName|] == comicName
    ensures dir[6 + |comicName|] == '/' && dir[7 + |comicName|..] == chapterName
  {
    "./out/" + comicName + "/" + chapterName
  }

  /** Chapters of comics whose names hold no '/' get distinct directories. */
  lemma ChapterDirInjective(comic1: string, chapter1: string, comic2: string, chapter2: string)
    requires forall j :: 0 <= j < |comic1| ==> comic1[j] != '/'
    requires forall j :: 0 <= j < |comic2| ==> comic2[j] != '/'
    requires ChapterDir(comic1, chapter1) == ChapterDir(comic2, chapter2)
    ensures comic1 == comic2 && chapter1 == chapter2
  {
  }

  /** The file page `pageNum` is saved as: `f"{page_num:03d}.jpg"`. */
  function PageFileName(pageNum: nat): (name: string)
    ensures |name| >= 7
    ensures name[|name| - 4..] == ".jpg"
  {
    Pad3(pageNum) + ".jpg"
  }

  /** Reads a page number back from a `NNN.jpg` name. */
  function ParsePageFileName(name: string): Option<nat> {
    if |name| > 4 && name[|name| - 4..] == ".jpg" && AllDigits(name[..|name| - 4])
    then Some(ValueOf(name[..|name| - 4]))
    else None
  }

  /** Reading a page file name gives back its page number. */
  lemma PageFileNameRoundTrip(pageNum: nat)
    ensures ParsePageFileName(PageFileName(pageNum)) == Some(pageNum)
  {
    var name := PageFileName(pageNum);
    assert name[..|name| - 4] == Pad3(pageNum);
    Pad3RoundTrip(pageNum);
  }

  /** Distinct pages are saved under distinct names, so no page overwrites another. */
  lemma PageFileNamesDistinct(a: nat, b: nat)
    requires a != b
    ensures PageFileName(a) != PageFileName(b)
  {
    PageFileNameRoundTrip(a);
    PageFileNameRoundTrip(b);
  }

  /** `f` applied to the page numbers 1 .. last, in page order. */
  function Pages<T>(f: nat -> T, last: nat): (xs: seq<T>)
    ensures |xs| == last
    ensures forall k :: 0 <= k < last ==> xs[k] == f(k + 1)
  {
    if last == 0 then [] else Pages(f, last - 1) + [f(last)]
  }

  /** The file names of pages 1 .. last, in page order. */
  function PageNamesUpTo(last: int): (names: seq<string>)
    ensures |names| == if last >= 0 then last else 0
    ensures forall k :: 0 <= k < |names| ==> names[k] == PageFileName(k + 1)
  {
    if last <= 0 then [] else Pages(PageFileName, last)
  }

  /** A page's name is among the names of pages 1 .. last exactly when 1 <= page <= last. */
  lemma PageNamesUpToMembers(last: int, pageNum: nat)
    ensures PageFileName(pageNum) in PageNamesUpTo(last) <==> 1 <= pageNum <= last
  {
    var names := PageNamesUpTo(last);
    if PageFileName(pageNum) in names {
      var k :| 0 <= k < |names| && names[k] == PageFileName(pageNum);
      if k + 1 != pageNum {
        PageFileNamesDistinct(k + 1, pageNum);
      }
    }
    if 1 <= pageNum <= last {
      assert names[pageNum - 1] == PageFileName(pageNum);
    }
  }

  /** images_to_pdf as written: `for i in range(1, number)`, i.e. the names of pages 1 .. number - 1. */
  function PdfPageNamesAsWritten(number: int): (names: seq<string>)
    ensures |names| == if number >= 1 then number - 1 else 0
  {
    PageNamesUpTo(number - 1)
  }

  /**
    Finding: called with the chapter's page count, images_to_pdf never looks for
    the last page: a 3-page chapter yields a PDF of 001.jpg and 002.jpg only.
   */
  lemma AsWrittenOmitsLastPage(number: nat)
    requires number >= 1
    ensures PageFileName(number) !in PdfPageNamesAsWritten(number)
    ensures forall p: nat :: 1 <= p < number ==> PageFileName(p) in PdfPageNamesAsWritten(number)
  {
    var names := PdfPageNamesAsWritten(number);
    assert names == PageNamesUpTo(number - 1);
    PageNamesUpToMembers(number - 1, number);
    forall p: nat | 1 <= p < number
      ensures PageFileName(p) in PdfPageNamesAsWritten(number)
    {
      PageNamesUpToMembers(number - 1, p);
    }
  }

  /** The corrected page list, `range(1, number + 1)`: the names of pages 1 .. number. */
  function PdfPageNames(number: int): (names: seq<string>)
    ensures |names| == if number >= 0 then number else 0
  {
    PageNamesUpTo(number)
  }

  /** The corrected page list holds the name of every page 1 .. number and of no other page. */
  lemma PdfPageNamesComplete(number: nat)
    ensures forall p: nat :: PageFileName(p) in PdfPageNames(number) <==> 1 <= p <= number
  {
    forall p: nat
      ensures PageFileName(p) in PdfPageNames(number) <==> 1 <= p <= number
    {
      PageNamesUpToMembers(number, p);
    }
  }
}
