/** The enumeration loop of `main`: for every serial of the fixed range, in
    ascending order, render it as eight digits, compute its check digit for
    the fixed court code (skipping the serial when that fails), count it,
    run one browser session for the record, and route the outcome: a failed
    session (the not-found abort included) earns a 10-second cooldown and no
    file; a successful one is written under a name derived from the record,
    followed by a pause of 1 to 3 seconds.

    Everything outside the program is a parameter (`Env`): the check-digit
    function, the browser, the two file-system calls and `rand.Intn(3)`,
    each answering per serial, since each serial is processed once. */
module Scraper {
  import opened Results
  import opened Decimal
  import opened Session
  import opened Registry

  const CourtCode := "OL1O"
  const FirstSerial := 104
  const LastSerial := 140450
  /** Seconds slept after a failed session. */
  const ErrorCooldown := 10

  /** A value `rand.Intn(3)` can return. */
  type Below3 = x: nat | x < 3

  datatype Env = Env(
    /** `ObliczCyfreKontrolna(court, number)`: a check digit or an error message */
    checkDigit: (string, string) -> Result<string, string>,
    /** the browser, as each record's session sees it */
    browser: Ksiega -> Browser,
    /** whether `os.MkdirAll("output", 0755)` succeeds in the iteration of a serial */
    mkdirAll: nat -> bool,
    /** whether `os.WriteFile` succeeds in the iteration of a serial */
    writeFile: nat -> bool,
    /** what `rand.Intn(3)` returns in the iteration of a serial */
    intn3: nat -> Below3)

  /** What happens after a session. */
  datatype After =
    | Cooldown(seconds: nat)
    | NoOutputDir
    | Saved(fileName: string, payload: string, written: bool, pauseSeconds: nat)

  /** One iteration of the loop. */
  datatype Event =
    | Skipped(serial: nat, reason: string)
    | Dispatched(serial: nat, record: Ksiega, session: RunResult, after: After)

  /** The routing of a finished session of the record `kw` for serial `n`. */
  function Route(env: Env, n: nat, kw: Ksiega, r: RunResult): After {
    if r.error.Some? then Cooldown(ErrorCooldown)
    else if !env.mkdirAll(n) then NoOutputDir
    else Saved(FileName(kw), r.vars.html, env.writeFile(n), 1 + env.intn3(n))
  }

  /** The iteration for serial `n`. */
  function Iteration(env: Env, n: nat): Event {
    var numer := Format08(n);
    match env.checkDigit(CourtCode, numer)
    case Err(reason) => Skipped(n, reason)
    case Ok(digit) =>
      var kw := Ksiega(CourtCode, numer, digit);
      var r := RunAll(SessionSteps(kw), env.browser(kw));
      Dispatched(n, kw, r, Route(env, n, kw, r))
  }

  /** The iterations for the serials `lo` to `hi`, in the order they run. */
  function Trace(env: Env, lo: nat, hi: int): seq<Event>
    decreases hi - lo
  {
    if hi < lo then [] else Trace(env, lo, hi - 1) + [Iteration(env, hi)]
  }

  /** How many events dispatched a record. */
  function Dispatches(events: seq<Event>): nat {
    if events == [] then 0
    else Dispatches(events[..|events| - 1]) + if events[|events| - 1].Dispatched? then 1 else 0
  }

  /** The serials whose check digit can be computed. */
  ghost function ValidSerials(env: Env, lo: nat, hi: int): set<nat> {
    set n: nat | lo <= n <= hi && env.checkDigit(CourtCode, Format08(n)).Ok?
  }

  /** Seconds slept after an event before the next serial. */
  function PauseAfter(e: Event): nat {
    match e
    case Skipped(_, _) => 0
    case Dispatched(_, _, _, Cooldown(s)) => s
    case Dispatched(_, _, _, NoOutputDir) => 0
    case Dispatched(_, _, _, Saved(_, _, _, s)) => s
  }

  /** The serials whose HTML was handed to `os.WriteFile`, in order. */
  function Stored(events: seq<Event>): seq<nat> {
    if events == [] then []
    else
      var e := events[|events| - 1];
      Stored(events[..|events| - 1]) + if e.Dispatched? && e.after.Saved? then [e.serial] else []
  }

  /** One pass of the loop body of `main` for the serial `start`: the
      counter as it stands after the pass, and what the pass did. Each early
      return is one of the source's `continue`s. */
  method Iterate(env: Env, start: nat, licznik: nat) returns (counter: nat, e: Event)
    ensures e == Iteration(env, start)
    ensures counter == licznik + if e.Dispatched? then 1 else 0
  {
    counter := licznik;
    var numerFormatted := Format08(start);
    var cyfraKontrolna := env.checkDigit(CourtCode, numerFormatted);
    if cyfraKontrolna.Err? {
      return counter, Skipped(start, cyfraKontrolna.error);
    }
    var kw := Ksiega(CourtCode, numerFormatted, cyfraKontrolna.value);
    counter := counter + 1;
    var r := Run(SessionSteps(kw), env.browser(kw));
    if r.error.Some? {
      return counter, Dispatched(start, kw, r, Cooldown(ErrorCooldown));
    }
    var filename := FileName(kw);
    if !env.mkdirAll(start) {
      return counter, Dispatched(start, kw, r, NoOutputDir);
    }
    var written := env.writeFile(start);
    var wait := 1 + env.intn3(start);
    e := Dispatched(start, kw, r, Saved(filename, r.vars.html, written, wait));
  }

  /** The loop of `main`; `licznik` is its progress counter and `events`
      records what each iteration did. */
  method Scrape(env: Env) returns (licznik: nat, events: seq<Event>)
    ensures events == Trace(env, FirstSerial, LastSerial)
    ensures licznik == Dispatches(events)
    ensures licznik == |ValidSerials(env, FirstSerial, LastSerial)|
    ensures licznik <= LastSerial - FirstSerial + 1
  {
    licznik := 0;
    events := [];
    for start := FirstSerial to LastSerial + 1
      invariant events == Trace(env, FirstSerial, start - 1)
      invariant licznik == Dispatches(events)
    {
      var e;
      licznik, e := Iterate(env, start, licznik);
      TraceSnoc(env, FirstSerial, start);
      DispatchesSnoc(events, e);
      events := events + [e];
    }
    CounterCountsValid(env, FirstSerial, LastSerial);
  }

  /** The events of consecutive serials starting at `lo`. */
  ghost predicate SerialRun(t: seq<Event>, lo: nat) {
    forall i | 0 <= i < |t| :: t[i].serial == lo + i
  }

  lemma IterationSerial(env: Env, n: nat)
    ensures Iteration(env, n).serial == n
  {
  }

  lemma TraceSnoc(env: Env, lo: nat, hi: int)
    requires lo <= hi
    ensures Trace(env, lo, hi) == Trace(env, lo, hi - 1) + [Iteration(env, hi)]
  {
  }

  /** The loop visits every serial of the range exactly once, in ascending
      order: the `i`-th iteration is the one for serial `lo + i`. */
  lemma {:induction false} TraceVisitsEachSerial(env: Env, lo: nat, hi: int)
    requires lo <= hi + 1
    ensures |Trace(env, lo, hi)| == hi - lo + 1
    ensures forall i | 0 <= i < |Trace(env, lo, hi)| :: Trace(env, lo, hi)[i] == Iteration(env, lo + i)
    ensures SerialRun(Trace(env, lo, hi), lo)
    decreases hi - lo
  {
    if lo <= hi {
      TraceVisitsEachSerial(env, lo, hi - 1);
      TraceSnoc(env, lo, hi);
      IterationSerial(env, hi);
    }
  }

  /** A serial is skipped exactly when its check digit cannot be computed: it
      then gets no record and no session. Otherwise its record carries the
      court code, the eight-digit rendering of the serial (which parses back
      to the serial) and the computed digit. */
  lemma IterationRecord(env: Env, n: nat)
    requires n < Pow10(8)
    ensures var e := Iteration(env, n); var cd := env.checkDigit(CourtCode, Format08(n));
      && e.serial == n
      && (e.Skipped? <==> cd.Err?)
      && (e.Skipped? ==> e.reason == cd.error)
      && (e.Dispatched? ==>
            && e.record == Ksiega("OL1O", Format08(n), cd.value)
            && |e.record.numer| == 8
            && AllDigits(e.record.numer)
            && ParseDecimal(e.record.numer) == n
            && e.session == RunAll(SessionSteps(e.record), env.browser(e.record)))
  {
    Format08Spec(n);
  }

  /** An iteration dispatches a record exactly when its check digit was computed. */
  lemma DispatchedIff(env: Env, n: nat)
    ensures Iteration(env, n).Dispatched? <==> env.checkDigit(CourtCode, Format08(n)).Ok?
  {
  }

  lemma DispatchesSnoc(events: seq<Event>, e: Event)
    ensures Dispatches(events + [e]) == Dispatches(events) + if e.Dispatched? then 1 else 0
  {
    assert (events + [e])[..|events|] == events;
  }

  lemma ValidSerialsSnoc(env: Env, lo: nat, hi: int)
    requires lo <= hi
    ensures ValidSerials(env, lo, hi)
      == ValidSerials(env, lo, hi - 1) + if env.checkDigit(CourtCode, Format08(hi)).Ok? then {hi} else {}
    ensures hi !in ValidSerials(env, lo, hi - 1)
  {
  }

  /** After the iterations for `lo` to `hi`, the counter equals the number of
      serials among them whose check digit was computed, which is at most the
      number of iterations. */
  lemma {:induction false} CounterCountsValid(env: Env, lo: nat, hi: int)
    requires lo <= hi + 1
    ensures Dispatches(Trace(env, lo, hi)) == |ValidSerials(env, lo, hi)|
    ensures Dispatches(Trace(env, lo, hi)) <= hi - lo + 1
    decreases hi - lo
  {
    if lo <= hi {
      CounterCountsValid(env, lo, hi - 1);
      TraceSnoc(env, lo, hi);
      DispatchesSnoc(Trace(env, lo, hi - 1), Iteration(env, hi));
      DispatchedIff(env, hi);
      ValidSerialsSnoc(env, lo, hi);
    }
  }

  /** Routing of a session's outcome: any error, the not-found abort
      included, gives a 10-second cooldown and no file; a successful session
      with no output directory gives neither file nor pause; otherwise the
      detail-page HTML goes to `output/<court>_<number>_<digit>.html` and is
      followed by a pause of 1, 2 or 3 seconds. */
  lemma Routing(env: Env, n: nat)
    requires Iteration(env, n).Dispatched?
    ensures var e := Iteration(env, n); var kw := e.record;
      && (e.session.error.Some? <==> e.after == Cooldown(10))
      && (e.session.error.Some? ==> PauseAfter(e) == 10)
      && (e.after == NoOutputDir <==> e.session.error.None? && !env.mkdirAll(n))
      && (e.after == NoOutputDir ==> PauseAfter(e) == 0)
      && (e.after.Saved? <==> e.session.error.None? && env.mkdirAll(n))
      && (e.after.Saved? ==>
            && e.after.fileName == "output/" + kw.kodSadu + "_" + kw.numer + "_" + kw.cyfraKontrolna + ".html"
            && e.after.payload == e.session.vars.html
            && e.after.written == env.writeFile(n)
            && 1 <= PauseAfter(e) <= 3)
  {
  }

  /** A serial whose results page reports the book missing is never opened
      in detail and never written: its session stops right after the check
      and it gets the 10-second cooldown. */
  lemma NotFoundRouting(env: Env, n: nat)
    requires Iteration(env, n).Dispatched?
    requires Iteration(env, n).session.error == Some(NotFound)
    ensures Iteration(env, n).session.executed == NotFoundCheckAt + 1
    ensures Iteration(env, n).session.vars.html == ""
    ensures Iteration(env, n).after == Cooldown(ErrorCooldown)
  {
    var kw := Iteration(env, n).record;
    NotFoundSkipsDetail(kw, env.browser(kw), env.browser(kw));
  }

  lemma StoredSnoc(events: seq<Event>, e: Event)
    ensures Stored(events + [e]) == Stored(events) + if e.Dispatched? && e.after.Saved? then [e.serial] else []
  {
    assert (events + [e])[..|events|] == events;
  }

  /** An iteration attempts a write exactly when its session succeeded and
      the output directory could be created. */
  lemma IterationSaved(env: Env, n: nat)
    ensures Iteration(env, n).Dispatched? && Iteration(env, n).after.Saved?
      <==> Iteration(env, n).Dispatched? && Iteration(env, n).session.error.None? && env.mkdirAll(n)
  {
  }

  /** In events of consecutive serials, the written serials lie in the range
      and strictly increase. */
  lemma {:induction false} StoredOfSerialRun(t: seq<Event>, lo: nat)
    requires SerialRun(t, lo)
    ensures forall i | 0 <= i < |Stored(t)| :: lo <= Stored(t)[i] < lo + |t|
    ensures forall i, j | 0 <= i < j < |Stored(t)| :: Stored(t)[i] < Stored(t)[j]
    decreases |t|
  {
    if t != [] {
      var p := t[..|t| - 1];
      assert t == p + [t[|t| - 1]];
      assert SerialRun(p, lo);
      StoredOfSerialRun(p, lo);
      StoredSnoc(p, t[|t| - 1]);
    }
  }

  /** In events of consecutive serials that all write, every serial is
      written once, in order. */
  lemma {:induction false} StoredOfAllSaved(t: seq<Event>, lo: nat)
    requires SerialRun(t, lo)
    requires forall i | 0 <= i < |t| :: t[i].Dispatched? && t[i].after.Saved?
    ensures Stored(t) == seq(|t|, i => lo + i)
    decreases |t|
  {
    if t != [] {
      var p := t[..|t| - 1];
      assert t == p + [t[|t| - 1]];
      assert SerialRun(p, lo);
      StoredOfAllSaved(p, lo);
      StoredSnoc(p, t[|t| - 1]);
      assert seq(|t|, i => lo + i) == seq(|p|, i => lo + i) + [lo + |p|];
    }
  }

  /** Files are written in strictly increasing serial order, and only for
      serials of the range. */
  lemma {:induction false} StoredAscending(env: Env, lo: nat, hi: int)
    requires lo <= hi + 1
    ensures var w := Stored(Trace(env, lo, hi));
      && (forall i | 0 <= i < |w| :: lo <= w[i] <= hi)
      && (forall i, j | 0 <= i < j < |w| :: w[i] < w[j])
  {
    TraceVisitsEachSerial(env, lo, hi);
    StoredOfSerialRun(Trace(env, lo, hi), lo);
  }

  /** When every serial of the range has a check digit, a successful
      session and an output directory, one file is written per serial, in
      ascending order. */
  lemma {:induction false} AllFoundAllStored(env: Env, lo: nat, hi: int)
    requires lo <= hi + 1
    requires forall n: nat | lo <= n <= hi ::
      && Iteration(env, n).Dispatched?
      && Iteration(env, n).session.error.None?
      && env.mkdirAll(n)
    ensures Stored(Trace(env, lo, hi)) == seq(hi - lo + 1, i => lo + i)
  {
    var t := Trace(env, lo, hi);
    TraceVisitsEachSerial(env, lo, hi);
    forall i | 0 <= i < |t| ensures t[i].Dispatched? && t[i].after.Saved? {
      IterationSaved(env, lo + i);
    }
    StoredOfAllSaved(t, lo);
  }

  /** The file an iteration writes is named after its record, whose number
      is the serial's rendering. */
  lemma SavedFileName(env: Env, n: nat)
    requires Iteration(env, n).Dispatched? && Iteration(env, n).after.Saved?
    ensures Iteration(env, n).after.fileName == FileName(Iteration(env, n).record)
    ensures Iteration(env, n).record.kodSadu == CourtCode
    ensures Iteration(env, n).record.numer == Format08(n)
  {
  }

  /** No two iterations of a range below `10^8` write the same file. */
  lemma FileNamesUnique(env: Env, lo: nat, hi: int, i: nat, j: nat)
    requires lo <= hi + 1 && hi < Pow10(8)
    ensures var t := Trace(env, lo, hi);
      i < j < |t| && t[i].Dispatched? && t[i].after.Saved? && t[j].Dispatched? && t[j].after.Saved?
      ==> t[i].after.fileName != t[j].after.fileName
  {
    TraceVisitsEachSerial(env, lo, hi);
    if i < j < |Trace(env, lo, hi)| {
      var ei, ej := Iteration(env, lo + i), Iteration(env, lo + j);
      if ei.Dispatched? && ei.after.Saved? && ej.Dispatched? && ej.after.Saved? {
        SavedFileName(env, lo + i);
        SavedFileName(env, lo + j);
        Format08Spec(lo + i);
        Format08Spec(lo + j);
        Format08Injective(lo + i, lo + j);
        FileNamesDiffer(ei.record, ej.record);
      }
    }
  }

  /** The range of the loop fits the eight-digit field. */
  lemma RangeFits()
    ensures FirstSerial <= LastSerial < Pow10(8)
  {
  }
}
