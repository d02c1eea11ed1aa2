/**
  Offset and page-number arithmetic of the catalogue requests: the search
  endpoint is asked for 5 comics per page, the chapter list for 50 chapters
  per page, and the page number is shown back from the offset the server echoes.
 */
module Paging {
  import opened Wrappers

  /** Comics per search page. */
  const SearchPageSize: int := 5

  /** Chapters per chapter-list page. */
  const ChapterPageSize: int := 50

  /** The request offset for a 1-based page: `(page_num - 1) * limit`. */
  function Offset(pageNum: int, limit: int): int {
    (pageNum - 1) * limit
  }

  /** Python's `a // b`: the quotient rounded toward negative infinity. */
  function FloorDiv(a: int, b: int): (q: int)
    requires b != 0
    ensures b > 0 ==> q * b <= a < q * b + b
    ensures b < 0 ==> q * b + b < a <= q * b
  {
    if b > 0 then a / b else (-a) / (-b)
  }

  /** The page number printed for a listing: `offset // limit + 1`; `None` where Python raises ZeroDivisionError. */
  function ShownPage(offset: int, limit: int): (r: Option<int>)
    ensures r.None? <==> limit == 0
  {
    if limit == 0 then None else Some(FloorDiv(offset, limit) + 1)
  }

  lemma MulAtLeastOnce(k: int, c: int)
    requires c > 0 && k >= 1
    ensures k * c >= c
  {
    var j := k - 1;
    assert k * c == j * c + c;
  }

  /** Dividing an exact multiple by a positive divisor gives the multiplier back. */
  lemma DivOfMultiple(m: int, c: int)
    requires c > 0
    ensures (m * c) / c == m
  {
    var q := (m * c) / c;
    var r := (m * c) % c;
    assert m * c == q * c + r;
    var d := m - q;
    assert d * c == m * c - q * c;
    assert d * c == r;
    if d >= 1 {
      MulAtLeastOnce(d, c);
    } else if d <= -1 {
      MulAtLeastOnce(-d, c);
    }
  }

  /** For any positive page size, the page printed for a requested offset is the page that was asked for. */
  lemma OffsetRoundTrip(pageNum: int, limit: int)
    requires limit > 0
    ensures ShownPage(Offset(pageNum, limit), limit) == Some(pageNum)
  {
    DivOfMultiple(pageNum - 1, limit);
  }

  /** The search request for a page: its offset is non-negative exactly for pages 1, 2, ... and reads back as that page. */
  function SearchOffset(pageNum: int): (offset: int)
    ensures offset >= 0 <==> pageNum >= 1
    ensures ShownPage(offset, SearchPageSize) == Some(pageNum)
  {
    OffsetRoundTrip(pageNum, SearchPageSize);
    Offset(pageNum, SearchPageSize)
  }

  /** The chapter-list request for a page: its offset is non-negative exactly for pages 1, 2, ... and reads back as that page. */
  function ChapterOffset(pageNum: int): (offset: int)
    ensures offset >= 0 <==> pageNum >= 1
    ensures ShownPage(offset, ChapterPageSize) == Some(pageNum)
  {
    OffsetRoundTrip(pageNum, ChapterPageSize);
    Offset(pageNum, ChapterPageSize)
  }

  /** The number printed before the k-th entry of a listing: `enumerate(..., start=offset + 1)`. */
  function ItemIndex(offset: int, k: nat): int {
    offset + 1 + k
  }

  /** Python's `int(x)` applied to the exact quotient a / b with b > 0: truncation toward zero. */
  function TruncDiv(a: int, b: int): int
    requires b > 0
  {
    if a >= 0 then a / b else -((-a) / b)
  }

  /**
    The catalogue page that download_comic_image requests for a range starting
    at chapter `start`: `int((start - 1) / 50 + 1)`, i.e. the quotient
    (start + 49) / 50 truncated toward zero. For a valid chapter number it is
    the page whose 50 entries contain that chapter.
   */
  function PageOf(start: int): (page: int)
    ensures start >= 1 ==> page >= 1
    ensures start >= 1 ==> Offset(page, ChapterPageSize) < start <= page * ChapterPageSize
  {
    TruncDiv(start + 49, ChapterPageSize)
  }

  /** Every entry of a chapter-list page maps back to that page. */
  lemma PageOfItem(pageNum: int, k: nat)
    requires pageNum >= 1 && k < ChapterPageSize
    ensures PageOf(ItemIndex(ChapterOffset(pageNum), k)) == pageNum
  {
    var i := ItemIndex(ChapterOffset(pageNum), k);
    assert i + 49 == 50 * pageNum + k;
  }

  /** Moving the range start on by one page size moves the requested page on by one. */
  lemma PageOfStep(start: int)
    requires start >= 1
    ensures PageOf(start + ChapterPageSize) == PageOf(start) + 1
  {
  }
}
