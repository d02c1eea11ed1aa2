/**
  The PDF settings (`pdf_switch`, `pdf_password`) and the settings screen,
  pdf_set_function. The answers typed at its three prompts are inputs; an
  answer whose prompt is not reached is ignored.
 */
module Settings {
  import opened Wrappers
  import opened Text

  /** `pdf_switch` (1: make a PDF after each chapter) and `pdf_password` (None: no password). */
  datatype PdfSettings = PdfSettings(switch: int, password: Option<string>)

  /** The values the program starts with. */
  const Initial: PdfSettings := PdfSettings(1, None)

  predicate Binary(s: PdfSettings) {
    s.switch == 0 || s.switch == 1
  }

  /** The answers given on one visit to the settings screen. */
  datatype Visit = Visit(toggle: string, changePassword: string, entered: string)

  /**
    pdf_set_function: "y"/"Y" at the first prompt flips the switch; then, if the
    switch is on, "y"/"Y" at the second prompt replaces the password with the
    entered text, where the literal "None" means no password.
   */
  function SetPdf(s: PdfSettings, v: Visit): (r: PdfSettings)
    ensures Binary(s) ==> Binary(r)
    ensures Binary(s) && Lower(v.toggle) == "y" ==> r.switch == 1 - s.switch
    ensures Lower(v.toggle) != "y" ==> r.switch == s.switch
    ensures r.switch != 1 || Lower(v.changePassword) != "y" ==> r.password == s.password
    ensures r.switch == 1 && Lower(v.changePassword) == "y" && v.entered == "None" ==> r.password == None
    ensures r.switch == 1 && Lower(v.changePassword) == "y" && v.entered != "None" ==> r.password == Some(v.entered)
  {
    var switch := if Lower(v.toggle) == "y" then (if s.switch == 0 then 1 else 0) else s.switch;
    var password :=
      if switch == 1 && Lower(v.changePassword) == "y" then
        (if v.entered == "None" then None else Some(v.entered))
      else s.password;
    PdfSettings(switch, password)
  }

  /** The settings after a sequence of visits to the settings screen. */
  function Replay(s: PdfSettings, visits: seq<Visit>): PdfSettings
    decreases |visits|
  {
    if |visits| == 0 then s else Replay(SetPdf(s, visits[0]), visits[1..])
  }

  /** Whatever is typed, the switch the program starts with stays 0 or 1. */
  lemma {:induction false} SwitchStaysBinary(s: PdfSettings, visits: seq<Visit>)
    requires Binary(s)
    ensures Binary(Replay(s, visits))
    decreases |visits|
  {
    if |visits| > 0 {
      SwitchStaysBinary(SetPdf(s, visits[0]), visits[1..]);
    }
  }

  /** From the start-up values every reachable setting has its switch at 0 or 1. */
  lemma ReachableSettingsAreBinary(visits: seq<Visit>)
    ensures Binary(Replay(Initial, visits))
  {
    SwitchStaysBinary(Initial, visits);
  }

  /** Toggling twice without touching the password restores the settings. */
  lemma ToggleTwice(s: PdfSettings, entered: string)
    requires Binary(s)
    ensures SetPdf(SetPdf(s, Visit("y", "n", entered)), Visit("y", "n", entered)) == s
  {
    assert Lower("y") == "y";
    assert Lower("n") == "n";
  }
}
