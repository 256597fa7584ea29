/** The land-registry record (`Ksiega`) and the fixed browser workflow run
    for each record: fill in the search form of the registry's web viewer,
    submit it, give up when the results page says the book was not found,
    otherwise open the book's detail page and read its HTML. */
module Registry {
  import opened Results
  import opened Session
  import Text

  /** `Ksiega`: court code, zero-padded registry number, check digit. */
  datatype Ksiega = Ksiega(kodSadu: string, numer: string, cyfraKontrolna: string)

  const SearchUrl := "https://przegladarka-ekw.ms.gov.pl/eukw_prz/KsiegiWieczyste/wyszukiwanieKW"
  const CourtField := "#kodWydzialuInput"
  /** The phrase of the results page that means "the book was not found". */
  const NotFoundMarker := "nie została odnaleziona"

  /** Load the search form and type the court code into its first field,
      confirming the type-ahead suggestion. */
  function CourtSteps(kw: Ksiega): (s: seq<Action>)
    ensures |s| == 13
  {
    [ Navigate(SearchUrl),
      WaitVisible(CourtField),
      Pause(300, 700),
      Click(CourtField),
      Pause(200, 400),
      KeyEvent(SelectAll),
      KeyEvent(Backspace),
      SendKeys(CourtField, kw.kodSadu),
      Pause(300, 700),
      KeyEvent(ArrowDown),
      Pause(200, 400),
      KeyEvent(Enter),
      Pause(1000, 2000) ]
  }

  /** Refocus the court field, tab to the number and check-digit fields,
      type them and submit the form. */
  function NumberSteps(kw: Ksiega): (s: seq<Action>)
    ensures |s| == 11
  {
    [ Click(CourtField),
      Pause(300, 600),
      KeyEvent(Tab),
      Pause(200, 400),
      KeyEvent(Chars(kw.numer)),
      Pause(200, 400),
      KeyEvent(Tab),
      Pause(200, 400),
      KeyEvent(Chars(kw.cyfraKontrolna)),
      KeyEvent(Enter),
      Pause(300, 600) ]
  }

  /** Read the results page and abort when it reports the book missing. */
  const CheckSteps := [Evaluate(SearchResults), RequireAbsent(NotFoundMarker)]

  /** Tab nine times to the control that opens the book, press it and wait. */
  const DetailSteps := [
      KeyEvent(Tab), Pause(10, 30), KeyEvent(Tab), Pause(10, 30),
      KeyEvent(Tab), Pause(10, 30), KeyEvent(Tab), Pause(10, 30),
      KeyEvent(Tab), Pause(10, 30), KeyEvent(Tab), Pause(10, 30),
      KeyEvent(Tab), Pause(10, 30), KeyEvent(Tab), Pause(200, 400),
      KeyEvent(Tab),
      Pause(1000, 2000),
      KeyEvent(Enter),
      Pause(2000, 3000) ]

  /** The whole session for one record, as handed to `chromedp.Run`; the
      last action reads the detail page into `htmlContent`. */
  function SessionSteps(kw: Ksiega): (s: seq<Action>)
    ensures |s| == 47
  {
    CourtSteps(kw) + NumberSteps(kw) + CheckSteps + DetailSteps + [Evaluate(Html)]
  }

  /** Positions of the three actions that touch the session variables. */
  const ReadResultsAt := 24
  const NotFoundCheckAt := 25
  const ReadDetailAt := 46

  /** The directory `os.MkdirAll` creates for the output files. */
  const OutputDir := "output"

  /** The output file of a record: `output/<court>_<number>_<digit>.html`. */
  function FileName(kw: Ksiega): string {
    OutputDir + "/" + kw.kodSadu + "_" + kw.numer + "_" + kw.cyfraKontrolna + ".html"
  }

  /** Where each part of the record sits in its file name. */
  lemma FileNameParts(kw: Ksiega)
    ensures var f := FileName(kw); var c := |kw.kodSadu|; var n := |kw.numer|;
      && |f| == 14 + c + n + |kw.cyfraKontrolna|
      && f[..7] == "output/"
      && f[7..7 + c] == kw.kodSadu
      && f[8 + c..8 + c + n] == kw.numer
      && f[9 + c + n..9 + c + n + |kw.cyfraKontrolna|] == kw.cyfraKontrolna
      && f[|f| - 5..] == ".html"
  {
  }

  /** Records of one court whose numbers have the same width but differ are
      written to different files, so no record overwrites another. */
  lemma FileNamesDiffer(k1: Ksiega, k2: Ksiega)
    requires k1.kodSadu == k2.kodSadu && |k1.numer| == |k2.numer|
    requires k1.numer != k2.numer
    ensures FileName(k1) != FileName(k2)
  {
    FileNameParts(k1);
    FileNameParts(k2);
  }

  /** The layout of the workflow that its outcome depends on: passive
      actions everywhere except the results read, the not-found check and the
      final read of the detail page. */
  ghost predicate Shaped(s: seq<Action>) {
    && |s| == 47
    && (forall j | 0 <= j < ReadResultsAt :: Passive(s[j]))
    && s[ReadResultsAt] == Evaluate(SearchResults)
    && s[NotFoundCheckAt] == RequireAbsent(NotFoundMarker)
    && (forall j | NotFoundCheckAt < j < ReadDetailAt :: Passive(s[j]))
    && s[ReadDetailAt] == Evaluate(Html)
  }

  lemma SessionStepsShaped(kw: Ksiega)
    ensures Shaped(SessionSteps(kw))
  {
    var s := SessionSteps(kw);
    assert s[..13] == CourtSteps(kw);
    assert s[13..24] == NumberSteps(kw);
    assert s[26..46] == DetailSteps;
  }

  /** What one session against the browser `b` ends in, phase by phase: a
      rejected form action, a failed read of the results, the not-found
      abort, a rejected detail-navigation action, a failed read of the
      detail page, or the detail page's HTML. */
  ghost function Expected(s: seq<Action>, b: Browser): RunResult
    requires Shaped(s)
  {
    var results := b(ReadResultsAt, s[ReadResultsAt]);
    var detail := b(ReadDetailAt, s[ReadDetailAt]);
    match FirstRejected(s, b, 0, ReadResultsAt)
    case Some(j) => RunResult(Initial, Some(Remote(b(j, s[j]).reason)), j + 1)
    case None =>
      if results.Failed? then RunResult(Initial, Some(Remote(results.reason)), ReadResultsAt + 1)
      else if Text.Contains(results.text, NotFoundMarker) then
        RunResult(Vars(results.text, ""), Some(NotFound), NotFoundCheckAt + 1)
      else match FirstRejected(s, b, NotFoundCheckAt + 1, ReadDetailAt)
        case Some(j) => RunResult(Vars(results.text, ""), Some(Remote(b(j, s[j]).reason)), j + 1)
        case None =>
          if detail.Failed? then RunResult(Vars(results.text, ""), Some(Remote(detail.reason)), ReadDetailAt + 1)
          else RunResult(Vars(results.text, detail.text), None, |s|)
  }

  /** From the results read on: the read, then the not-found check. */
  lemma CheckPhase(s: seq<Action>, b: Browser)
    requires Shaped(s)
    ensures var results := b(ReadResultsAt, s[ReadResultsAt]);
      RunFrom(s, b, ReadResultsAt, Initial)
      == if results.Failed? then RunResult(Initial, Some(Remote(results.reason)), ReadResultsAt + 1)
         else if Text.Contains(results.text, NotFoundMarker) then
           RunResult(Vars(results.text, ""), Some(NotFound), NotFoundCheckAt + 1)
         else RunFrom(s, b, NotFoundCheckAt + 1, Vars(results.text, ""))
  {
    var results := b(ReadResultsAt, s[ReadResultsAt]);
    if results.Done? {
      var v := Vars(results.text, "");
      assert Step(b, ReadResultsAt, s[ReadResultsAt], Initial) == Ok(v);
      assert RunFrom(s, b, ReadResultsAt, Initial) == RunFrom(s, b, NotFoundCheckAt, v);
    }
  }

  /** From the detail navigation on: passive actions, then the final read. */
  lemma DetailPhase(s: seq<Action>, b: Browser, v: Vars)
    requires Shaped(s) && v.html == ""
    ensures var detail := b(ReadDetailAt, s[ReadDetailAt]);
      RunFrom(s, b, NotFoundCheckAt + 1, v)
      == match FirstRejected(s, b, NotFoundCheckAt + 1, ReadDetailAt)
         case Some(j) => RunResult(v, Some(Remote(b(j, s[j]).reason)), j + 1)
         case None =>
           if detail.Failed? then RunResult(v, Some(Remote(detail.reason)), ReadDetailAt + 1)
           else RunResult(v.(html := detail.text), None, |s|)
  {
    PassiveStretch(s, b, NotFoundCheckAt + 1, ReadDetailAt, v);
    var detail := b(ReadDetailAt, s[ReadDetailAt]);
    if detail.Done? {
      assert Step(b, ReadDetailAt, s[ReadDetailAt], v) == Ok(v.(html := detail.text));
      assert RunFrom(s, b, ReadDetailAt + 1, v.(html := detail.text)) == RunResult(v.(html := detail.text), None, |s|);
    }
  }

  /** Running a workflow of this layout gives the phase-by-phase outcome. */
  lemma SessionPhases(s: seq<Action>, b: Browser)
    requires Shaped(s)
    ensures RunAll(s, b) == Expected(s, b)
  {
    PassiveStretch(s, b, 0, ReadResultsAt, Initial);
    CheckPhase(s, b);
    var results := b(ReadResultsAt, s[ReadResultsAt]);
    if results.Done? {
      DetailPhase(s, b, Vars(results.text, ""));
    }
  }

  /** The session aborts as "not found" exactly when every form action went
      through, the results page was read, and it contains the marker. */
  lemma NotFoundExactly(kw: Ksiega, b: Browser)
    ensures var s := SessionSteps(kw);
      RunAll(s, b).error == Some(NotFound)
      <==> (forall j | 0 <= j < ReadResultsAt :: Accepted(b, j, s[j]))
           && b(ReadResultsAt, s[ReadResultsAt]).Done?
           && Text.Contains(b(ReadResultsAt, s[ReadResultsAt]).text, NotFoundMarker)
  {
    var s := SessionSteps(kw);
    SessionStepsShaped(kw);
    SessionPhases(s, b);
  }

  /** After the not-found abort none of the detail-navigation or extraction
      actions is sent: the run stops right after the check, `htmlContent` is
      still empty, and whatever the browser would answer to the later actions
      makes no difference. */
  lemma NotFoundSkipsDetail(kw: Ksiega, b: Browser, b': Browser)
    requires RunAll(SessionSteps(kw), b).error == Some(NotFound)
    requires forall j | 0 <= j <= NotFoundCheckAt :: b(j, SessionSteps(kw)[j]) == b'(j, SessionSteps(kw)[j])
    ensures RunAll(SessionSteps(kw), b).executed == NotFoundCheckAt + 1
    ensures RunAll(SessionSteps(kw), b).vars.html == ""
    ensures RunAll(SessionSteps(kw), b') == RunAll(SessionSteps(kw), b)
  {
    SessionStepsShaped(kw);
    SessionPhases(SessionSteps(kw), b);
    OnlyBegunActionsMatter(SessionSteps(kw), b, b', 0, Initial);
  }

  /** The session succeeds exactly when no action fails and the results page
      lacks the marker; `htmlContent` is then the text read from the detail page. */
  lemma FoundExactly(kw: Ksiega, b: Browser)
    ensures var s := SessionSteps(kw); var r := RunAll(s, b);
      && (r.error.None?
          <==> (forall j | 0 <= j < ReadResultsAt :: Accepted(b, j, s[j]))
               && b(ReadResultsAt, s[ReadResultsAt]).Done?
               && !Text.Contains(b(ReadResultsAt, s[ReadResultsAt]).text, NotFoundMarker)
               && (forall j | NotFoundCheckAt < j < ReadDetailAt :: Accepted(b, j, s[j]))
               && b(ReadDetailAt, s[ReadDetailAt]).Done?)
      && (r.error.None? ==> r.vars.html == b(ReadDetailAt, s[ReadDetailAt]).text && r.executed == |s|)
  {
    var s := SessionSteps(kw);
    SessionStepsShaped(kw);
    SessionPhases(s, b);
  }
}
