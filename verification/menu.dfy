/**
  The input checks of the interactive front end: the main-menu choice
  (print_main_menu) and the chapter range asked for before a download
  (download_comic_function). Typed lines are inputs; when the lines run out
  the model stops where the program would keep prompting.
 */
module Menu {
  import opened Wrappers
  import opened Text

  /** print_main_menu's test of one typed line: digits only, and a value from 1 to 6. */
  function MenuChoice(line: string): (r: Option<int>)
    ensures r.Some? <==> IsDigits(line) && 1 <= ValueOf(line) <= 6
    ensures r.Some? ==> r.value == ValueOf(line)
  {
    if !IsDigits(line) then None
    else
      var n := ValueOf(line);
      if n < 1 || n > 6 then None else Some(n)
  }

  /** Typing any of the six option numbers selects it. */
  lemma MenuAcceptsEveryOption(n: nat)
    requires 1 <= n <= 6
    ensures MenuChoice(Show(n)) == Some(n)
  {
    ShowRoundTrip(n);
  }

  /** print_main_menu: prompt until a line passes; `used` is how many lines were read. */
  method MainMenu(lines: seq<string>) returns (choice: Option<int>, used: nat)
    ensures used <= |lines|
    ensures choice.Some? ==> 1 <= choice.value <= 6
    ensures choice.Some? ==> used >= 1 && MenuChoice(lines[used - 1]) == choice
    ensures forall k :: 0 <= k < used && (choice.None? || k < used - 1) ==> MenuChoice(lines[k]).None?
    ensures choice.None? ==> used == |lines|
  {
    used := 0;
    choice := None;
    while used < |lines|
      invariant used <= |lines|
      invariant forall k :: 0 <= k < used ==> MenuChoice(lines[k]).None?
    {
      var r := MenuChoice(lines[used]);
      used := used + 1;
      if r.Some? {
        choice := r;
        return;
      }
    }
  }

  /** The first check of download_comic_function: the start chapter must be digits and within 1..total. */
  function CheckStart(line: string, total: int): (r: Option<int>)
    ensures r.Some? <==> IsDigits(line) && 1 <= ValueOf(line) <= total
    ensures r.Some? ==> r.value == ValueOf(line)
  {
    if !IsDigits(line) then None
    else
      var startNum := ValueOf(line);
      if startNum > total || startNum < 1 then None else Some(startNum)
  }

  /** The second check: the end chapter must be digits, not beyond total and not before the start. */
  function CheckEnd(line: string, startNum: int, total: int): (r: Option<int>)
    ensures r.Some? <==> IsDigits(line) && startNum <= ValueOf(line) <= total
    ensures r.Some? ==> r.value == ValueOf(line)
  {
    if !IsDigits(line) then None
    else
      var endNum := ValueOf(line);
      if endNum > total || endNum < startNum then None else Some(endNum)
  }

  /** Typed as plain numbers, a range passes both checks exactly when 1 <= start <= end <= total. */
  lemma RangeAcceptedExactly(startNum: nat, endNum: nat, total: int)
    ensures CheckStart(Show(startNum), total) == Some(startNum) && CheckEnd(Show(endNum), startNum, total) == Some(endNum)
      <==> 1 <= startNum <= endNum <= total
  {
    ShowRoundTrip(startNum);
    ShowRoundTrip(endNum);
  }

  /** A range handed to download_comic_image. */
  datatype ChapterRange = ChapterRange(startNum: int, endNum: int)

  /**
    The download loop of download_comic_function: read a yes/no answer; on
    "y" read and check the start, then read and check the end, and on success
    download that range; on "n" stop; any other answer asks again.
   */
  method DownloadPrompts(lines: seq<string>, total: int) returns (ranges: seq<ChapterRange>)
    ensures forall k :: 0 <= k < |ranges| ==> 1 <= ranges[k].startNum <= ranges[k].endNum <= total
  {
    ranges := [];
    var pos := 0;
    while pos < |lines|
      invariant pos <= |lines|
      invariant forall k :: 0 <= k < |ranges| ==> 1 <= ranges[k].startNum <= ranges[k].endNum <= total
      decreases |lines| - pos
    {
      var answer := Lower(lines[pos]);
      pos := pos + 1;
      if answer == "y" {
        if pos == |lines| {
          break;
        }
        var startNum := CheckStart(lines[pos], total);
        pos := pos + 1;
        if startNum.None? {
          continue;
        }
        if pos == |lines| {
          break;
        }
        var endNum := CheckEnd(lines[pos], startNum.value, total);
        pos := pos + 1;
        if endNum.None? {
          continue;
        }
        ranges := ranges + [ChapterRange(startNum.value, endNum.value)];
      } else if answer == "n" {
        break;
      }
    }
  }
}
