# mkk_comic download core, modelled in Dafny

`app.py` is a terminal client for a comic catalogue. It searches comics, lists a
comic's chapters 50 at a time, and downloads a range of chapters page image by
page image into `./out/<comic>/<chapter>/NNN.jpg`. After each chapter it can
bind the pages into a PDF. Most of the file is HTTP, printing and prompting.
This project models the deterministic logic underneath:

- the chapter-range driver `download_comic_image`, which walks the 50-entry
  catalogue pages (`Pagination`);
- the per-page window of `handle_chapters_results` (`Pagination`);
- the bounded retry loop of one page (`Retry`);
- the per-chapter `success_count` / `failed_pages` accounting and the PDF
  invocation (`Chapter`);
- the `"%03d.jpg"` page names and the page range `images_to_pdf` looks for
  (`Naming`, on top of `Text`);
- the extension filter, output path and encryption choice of `make_pdf` (`Pdf`);
- the `pdf_switch` / `pdf_password` settings screen (`Settings`);
- the offset and page-number arithmetic of the listings (`Paging`);
- the menu-choice and chapter-range input checks (`Menu`).

Every network, file-system and clock effect is a parameter:

- `catalogue(p)` is what `get_chapters` returns for page `p`;
- a `ChapterDetail` or `None` is what `get_comic_image` returns;
- `outcomes[k]` is how the k-th request for a page image ends;
- typed lines are sequences of strings;
- a directory listing is a sequence of `DirEntry`.

Downloads are strictly sequential. A failed page is appended to
`failed_pages` twice. `make_pdf` runs whenever `pdf_switch == 1`, whether or
not every page was saved.

## Model

| member | source | states |
|---|---|---|
| `Text.Show` | app.py:449 | `str(n)` is a non-empty digit string with no leading zero unless n is 0 |
| `Text.ShowRoundTrip` | app.py:542 | `int(str(n)) == n` |
| `Text.ShowLength` | app.py:449 | `str(n)` has 1, 2 or 3 characters below 10, 100 or 1000, and more from 1000 on |
| `Text.Pad3` | app.py:449 | `"%03d"` is all digits, exactly three of them below 1000, and plain `str(n)` from 1000 on |
| `Text.Pad3RoundTrip` | app.py:449 | reading a `"%03d"` field gives the page number back |
| `Text.LeadingZerosIgnored` | app.py:449 | leading zeros do not change the value `int` reads |
| `Text.Lower` | app.py:617 | `lower()` keeps the length and lower-cases each ASCII letter in place |
| `Text.YesAnswers` | app.py:574 | `answer.lower() == "y"` holds exactly for "y" and "Y" |
| `Paging.FloorDiv` | app.py:166 | Python `//` gives the quotient rounded toward negative infinity, for either sign of divisor |
| `Paging.ShownPage` | app.py:286 | the shown page is undefined (ZeroDivisionError) exactly when the echoed limit is 0 |
| `Paging.OffsetRoundTrip` | app.py:283-286 | for every page number and positive limit, `((p-1)*limit) // limit + 1 == p` |
| `Paging.SearchOffset` | app.py:122-123 | the search offset is non-negative iff page ≥ 1 and reads back as the same page with limit 5 |
| `Paging.ChapterOffset` | app.py:247-248 | the chapter-list offset is non-negative iff page ≥ 1 and reads back as the same page with limit 50 |
| `Paging.PageOf` | app.py:516 | for start ≥ 1 the requested page is ≥ 1 and its 50 entries contain chapter `start` |
| `Paging.PageOfItem` | app.py:287 | every entry `offset+1+k` of chapter page p maps back to page p |
| `Paging.PageOfStep` | app.py:516-521 | advancing `start` by 50 advances the requested page by exactly 1 |
| `Pagination.Window` | app.py:429-430 | entry numbers `offset+1..offset+n` that lie in `lo..hi`, all of them and only them, strictly increasing |
| `Pagination.SelectChapters` | app.py:411-431 | a missing or non-200 response selects nothing; otherwise exactly the listed numbers in `start..end`, in order |
| `Pagination.LastPage` | app.py:516-521 | for start ≤ end the last page requested is `end // 50 + 1`; for start > end exactly one page is requested |
| `Pagination.DownloadRange` | app.py:512-521 | pages requested are consecutive from PageOf(start), all but the last end at or before `end`, the last one beyond it; `start` grows by 50 per pass; the chapters handled are the per-page windows concatenated |
| `Pagination.AsWrittenCoverage` | app.py:516-521 | against a full catalogue of `total` chapters, chapter i is handled iff start ≤ i ≤ end, i ≤ total and its position on its page is not before start's position |
| `Pagination.AsWrittenSkipsChapters` | app.py:519-521 | range 372..420 handles 372 and 400 but none of 401..420 |
| `Pagination.AlignedEndWastesRequest` | app.py:519-520 | when `end` is a multiple of 50, at least two pages are requested and the last one starts after `end` and selects nothing |
| `Pagination.DownloadRangeCorrected` | app.py:512-521 | the same page sequence with `start` reset to each later page's first entry |
| `Pagination.CorrectedCoverage` | app.py:512-521 | the corrected driver handles exactly the chapters start..end that the catalogue holds |
| `Retry.Observed` | app.py:457 | an attempt succeeds iff the word index is in Python range `-len..len-1` and the server answered 200 |
| `Retry.FetchPage` | app.py:451-501 | at most 5 retries; success iff the index is in range and one of the first 5 answers is 200; on success the loop stopped at the first 200; an out-of-range index always fails 5 times; a failed page is marked twice |
| `Chapter.SavedMembers` | app.py:460-466 | the saved pages are exactly the succeeding page numbers 1..n, strictly increasing |
| `Chapter.FailedTwice` | app.py:472-501 | a failing page occurs in `failed_pages` exactly twice, any other number never |
| `Chapter.EveryPageAccounted` | app.py:445-501 | twice the saved count plus the length of `failed_pages` is twice the page count |
| `Chapter.DownloadPages` | app.py:444-502 | the pages in manifest order: saved pages and failure marks match the reference, `success_count` is the saved count and at most `len(words)` |
| `Chapter.SavedFilesDistinct` | app.py:447-450 | two saved pages are written to two different file names |
| `Chapter.HandleChapter` | app.py:431-510 | a missing detail crashes; otherwise pages go to `./out/<comic>/<chapter>`, and make_pdf is called with `len(contents)` and the password iff `pdf_switch == 1`, whatever failed |
| `Naming.Join` | app.py:450 | POSIX `os.path.join`: an absolute name replaces the directory; otherwise the path is the directory, one '/' unless the directory is empty or already ends in '/', then the name |
| `Naming.JoinInjective` | app.py:450 | joining two relative names onto one directory gives one path only for one name |
| `Naming.ChapterDir` | app.py:436 | the chapter directory is "./out/", the comic name, '/', the chapter name |
| `Naming.ChapterDirInjective` | app.py:436 | for comic names without '/', two chapters share a directory only if comic and chapter names agree |
| `Naming.PageFileName` | app.py:449 | a page file name is at least 7 characters long and ends in ".jpg" |
| `Naming.PageFileNameRoundTrip` | app.py:449 | parsing a page file name gives back its page number |
| `Naming.PageFileNamesDistinct` | app.py:447-450 | distinct page numbers get distinct file names |
| `Naming.PageNamesUpTo` | app.py:330-331 | the names of pages 1..last in order, `max(last, 0)` of them |
| `Naming.PageNamesUpToMembers` | app.py:330-331 | page p's name is listed iff 1 ≤ p ≤ last |
| `Naming.PdfPageNamesAsWritten` | app.py:330 | `range(1, number)` looks for `number - 1` names |
| `Naming.AsWrittenOmitsLastPage` | app.py:330 | with `number` pages, page `number` is never looked for; all earlier pages are |
| `Naming.PdfPageNames` | app.py:330 | the corrected range looks for `number` names |
| `Naming.PdfPageNamesComplete` | app.py:330 | the corrected range lists page p's name iff 1 ≤ p ≤ number |
| `Pdf.LastDot` | app.py:398 | the position of the last '.', with none after it; None iff the name has no '.' |
| `Pdf.Extension` | app.py:398 | `splitext` extension: a suffix, empty or one leading '.' and no other, preceded by a non-dot character |
| `Pdf.ExtensionOf` | app.py:398 | a stem with a non-dot character plus ".x" (x dotless) has extension ".x" |
| `Pdf.IsImageName` | app.py:396-399 | a name passing the filter has a '.'-led extension of 4 or 5 characters after a stem that is not all dots |
| `Pdf.UpperCaseExtensionIsImage` | app.py:398-399 | the extension is lower-cased before the test, so "NNN.JPG" passes |
| `Pdf.PageFilesAreImages` | app.py:392-400 | every downloaded page file passes the image-extension filter |
| `Pdf.DotFileIsNotImage` | app.py:398 | a file named ".jpg" has no extension and is not counted as an image |
| `Pdf.Encryption` | app.py:326-328 | the PDF is encrypted iff the password is present and non-empty |
| `Pdf.MakePdf` | app.py:361-409 | renders iff both directories exist and some regular file has an image extension; the output is `<parent>/<name>.pdf`; a missing directory is reported first |
| `Pdf.DownloadedPageRenders` | app.py:392-404 | a chapter directory holding one downloaded page is always rendered |
| `Settings.SetPdf` | app.py:607-636 | "y"/"Y" flips a 0/1 switch and anything else keeps it; the password changes only when the switch ends on and the answer is y, "None" clearing it and any other text stored as typed |
| `Settings.SwitchStaysBinary` | app.py:617-623 | from a 0/1 switch, any sequence of visits keeps it 0/1 |
| `Settings.ReachableSettingsAreBinary` | app.py:10-11 | from the start-up values every reachable switch is 0 or 1 |
| `Settings.ToggleTwice` | app.py:617-623 | toggling twice without a password change restores the settings |
| `Menu.MenuChoice` | app.py:539-547 | a line is accepted iff it is all digits and its value lies in 1..6, and the choice is that value (so "03" selects 3) |
| `Menu.MenuAcceptsEveryOption` | app.py:542-547 | typing any of 1..6 selects that option |
| `Menu.MainMenu` | app.py:536-547 | returns the first accepted line's value in 1..6; every earlier line was refused; with no accepted line all were read |
| `Menu.CheckStart` | app.py:584-592 | a line is accepted iff it is all digits valued within 1..total, and the start is `int(line)` |
| `Menu.CheckEnd` | app.py:593-600 | a line is accepted iff it is all digits valued within start..total, and the end is `int(line)` |
| `Menu.RangeAcceptedExactly` | app.py:584-600 | typed as numbers, a range passes both checks iff 1 ≤ start ≤ end ≤ total |
| `Menu.DownloadPrompts` | app.py:581-603 | every range passed to download_comic_image satisfies 1 ≤ start ≤ end ≤ total |

## Left out

- The HTTP and JSON wrappers `search_copy_manga`, `get_comic`, `get_chapters` and `get_comic_image` are not modelled. Their results are inputs: an absent response stands for Python's `None`, and also for an empty dict.
- All printing is left out. This covers `print_search_results`, `print_comic_results`, `print_full_json`, the listing loops and every progress message; only their arithmetic is modelled.
- Terminal styling is left out: ANSI colours, `clear_terminal`, the terminal width and the float-stepped gradient title.
- Control flow that only dispatches or loops is left out. This covers `select_function`, `window_main`, `instructions_function`, `search_comic_function`, `view_comic_detail_function` and `git_action_main`.
- The browsing loop at the start of `download_comic_function` only prints further listings. The model takes `total` as an input, as the code does from the first listing.
- File writes, `os.makedirs`, `time.sleep` delays and the 30-second request timeout are I/O or timing. A failed write surfaces as an `OtherError` attempt.
- Rendering in `images_to_pdf` is not modelled: scaling, drawing and skipping missing files use floats, PIL, reportlab and the file system. Only the list of names it looks for is modelled.
- `make_pdf` uses the platform's `abspath`, `basename` and `dirname`, which are not modelled. The parent directory and the directory name are inputs, and only the POSIX join is modelled.
- `Paging.PageOf`: the quotient `(start-1)/50` is taken as exact. Python's float division could round differently for starts beyond 2^53, which a chapter number never reaches.
- `Pagination.DownloadRange`: it returns the chapters selected but does not run their downloads. The crash at app.py:433, when a chapter detail is missing, is therefore modelled only in `Chapter.HandleChapter`. That crash would end the whole run at that chapter.
- `Retry.FetchPage`: the network must supply at least five outcomes per page, one for every attempt the loop can make.
- `Menu.MenuChoice`: only ASCII digits are modelled. Python's `isdigit` also accepts other Unicode digits; some of them `int` then reads and some make it raise.
- `Menu.CheckStart`: only ASCII digits are modelled. A line such as "²" passes `isdigit`, and `int` then raises an uncaught error at app.py:589.
- `Menu.CheckEnd`: only ASCII digits are modelled. A line such as "²" passes `isdigit`, and `int` then raises an uncaught error at app.py:597.
- `Text.Lower`: only ASCII letters are lower-cased. Python's `lower` also folds other scripts, which never matters for the answer "y" or for the extension list.
- `Menu.DownloadPrompts`: the contract states only that every range it passes on is valid. It does not state which typed lines produce which range.

## Findings

| source | as written | input that shows it | evidently intended | confidence | as-written member | corrected member |
|---|---|---|---|---|---|---|
| app.py:521 | `start += 50` keeps start's position within the page, so every later page is entered part-way | chapters 372..420 of a 420-chapter comic: 401..420 are never downloaded | move `start` to the next page's first entry, `page * 50 + 1`, so every chapter of the range is downloaded | high; not executed | `Pagination.DownloadRange`, `Pagination.AsWrittenSkipsChapters` | `Pagination.DownloadRangeCorrected`, `Pagination.CorrectedCoverage` |
| app.py:330 | `range(1, number)` stops before page `number`, where `number` is the chapter's page count | a chapter of 3 pages: the PDF holds 001.jpg and 002.jpg, and 003.jpg is left out | `range(1, number + 1)`: all pages of the chapter | high; not executed | `Naming.PdfPageNamesAsWritten`, `Naming.AsWrittenOmitsLastPage` | `Naming.PdfPageNames`, `Naming.PdfPageNamesComplete` |
