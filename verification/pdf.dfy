/**
  make_pdf's decisions before any rendering: where the PDF goes, whether the
  directories exist, whether the directory holds an image file (judged by its
  extension, case-insensitively), and whether the PDF is encrypted. The
  directory listing and the existence checks are inputs; the rendering itself
  is left out.
 */
module Pdf {
  import opened Wrappers
  import opened Text
  import opened Naming

  /** The extensions make_pdf accepts, compared after lower-casing. */
  const ImageExtensions: seq<string> := [".jpg", ".jpeg", ".png", ".bmp", ".gif", ".tiff", ".webp"]

  /** One entry of `os.listdir(path)`, with whether `os.path.isfile` holds of it. */
  datatype DirEntry = DirEntry(name: string, isFile: bool)

  /** The index of the last '.' in `s`, if there is one. */
  function LastDot(s: string): (r: Option<nat>)
    ensures r.Some? ==> r.value < |s| && s[r.value] == '.'
    ensures r.Some? ==> forall j :: r.value < j < |s| ==> s[j] != '.'
    ensures r.None? ==> forall j :: 0 <= j < |s| ==> s[j] != '.'
  {
    if |s| == 0 then None
    else if s[|s| - 1] == '.' then Some(|s| - 1)
    else LastDot(s[..|s| - 1])
  }

  predicate HasNonDot(s: string) {
    exists j :: 0 <= j < |s| && s[j] != '.'
  }

  /**
    `os.path.splitext(name)[1]` for a name without separators: from the last
    '.' on, unless everything before that dot is dots (".jpg" has no extension).
   */
  function Extension(name: string): (ext: string)
    ensures |ext| <= |name| && ext == name[|name| - |ext|..]
    ensures ext != [] ==> ext[0] == '.' && forall j :: 0 < j < |ext| ==> ext[j] != '.'
    ensures ext != [] ==> HasNonDot(name[..|name| - |ext|])
  {
    match LastDot(name)
    case None => []
    case Some(d) => if HasNonDot(name[..d]) then name[d..] else []
  }

  /** A stem holding some character other than '.' followed by a dotless suffix has exactly that suffix as its extension. */
  lemma ExtensionOf(stem: string, suffix: string)
    requires HasNonDot(stem)
    requires |suffix| >= 1 && suffix[0] == '.'
    requires forall j :: 0 < j < |suffix| ==> suffix[j] != '.'
    ensures Extension(stem + suffix) == suffix
  {
    var name := stem + suffix;
    var d := LastDot(name);
    assert name[|stem|] == '.';
    assert d.Some? && d.value == |stem|;
    assert name[..|stem|] == stem;
    assert name[|stem|..] == suffix;
  }

  /**
    The test make_pdf applies to a directory entry's name. A passing name has
    an extension of four or five characters after a stem that is not all dots.
   */
  function IsImageName(name: string): (b: bool)
    ensures b ==> 4 <= |Extension(name)| <= 5 && |name| >= |Extension(name)| + 1
    ensures b ==> name[|name| - |Extension(name)|] == '.'
  {
    Lower(Extension(name)) in ImageExtensions
  }

  /** The test ignores case: a page saved as "NNN.JPG" would pass as well. */
  lemma UpperCaseExtensionIsImage(pageNum: nat)
    ensures IsImageName(Pad3(pageNum) + ".JPG")
  {
    var digits := Pad3(pageNum);
    assert digits[0] != '.';
    ExtensionOf(digits, ".JPG");
    assert Lower(".JPG") == ".jpg";
  }

  /** Every page file the download writes passes the image test. */
  lemma PageFilesAreImages(pageNum: nat)
    ensures IsImageName(PageFileName(pageNum))
  {
    var digits := Pad3(pageNum);
    assert digits[0] != '.';
    ExtensionOf(digits, ".jpg");
    assert Lower(".jpg") == ".jpg";
  }

  /** A dot file named after an extension has no extension, so it is not an image. */
  lemma DotFileIsNotImage()
    ensures !IsImageName(".jpg")
  {
    var name := ".jpg";
    assert name[0] == '.' && name[1] == 'j' && name[2] == 'p' && name[3] == 'g';
    assert LastDot(name) == Some(0);
    assert Extension(name) == [];
  }

  /** How a make_pdf call ends. */
  datatype PdfOutcome =
    | MissingDir
    | MissingParent
    | NoImages
    | Render(output: string, number: int, encryptWith: Option<string>)

  /** The PDF is encrypted only with a non-empty password: `if password:` treats "" like None. */
  function Encryption(password: Option<string>): (r: Option<string>)
    ensures r.Some? <==> password.Some? && password.value != ""
    ensures r.Some? ==> r == password
  {
    match password
    case Some(p) => if p == "" then None else Some(p)
    case None => None
  }

  /** Whether some regular file of the listing passes the image test. */
  predicate HasImageFile(entries: seq<DirEntry>) {
    exists e :: e in entries && e.isFile && IsImageName(e.name)
  }

  /**
    make_pdf(path, number, password): `parent` and `dirName` are the parent
    directory and the last component of the absolute `path`. It gives up when
    the directory or its parent is missing or when no regular file has an image
    extension; otherwise it renders `<parent>/<dirName>.pdf`.
   */
  function MakePdf(dirExists: bool, parentExists: bool, parent: string, dirName: string,
                   entries: seq<DirEntry>, number: int, password: Option<string>): (r: PdfOutcome)
    ensures r.Render? <==> dirExists && parentExists && HasImageFile(entries)
    ensures r.MissingDir? <==> !dirExists
    ensures r.Render? ==> r.output == Join(parent, dirName + ".pdf") && r.number == number
    ensures r.Render? ==> r.encryptWith == Encryption(password)
  {
    if !dirExists then MissingDir
    else if !parentExists then MissingParent
    else if !HasImageFile(entries) then NoImages
    else Render(Join(parent, dirName + ".pdf"), number, Encryption(password))
  }

  /** A chapter directory that holds at least one downloaded page is always rendered (given both directories exist). */
  lemma DownloadedPageRenders(parent: string, dirName: string, entries: seq<DirEntry>, pageNum: nat, number: int, password: Option<string>)
    requires DirEntry(PageFileName(pageNum), true) in entries
    ensures MakePdf(true, true, parent, dirName, entries, number, password).Render?
  {
    PageFilesAreImages(pageNum);
  }
}
