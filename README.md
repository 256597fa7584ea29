# kwscrap: the enumeration and session-routing core, in Dafny

`kwscrap` walks the land-registry book numbers ("księgi wieczyste") of one
court, `OL1O`, through the public web viewer of the Polish registry. Its main
loop takes every serial from 104 to 140450 in ascending order. For each one it:

- renders the serial as eight zero-padded digits;
- computes the check digit of court code plus number, and skips the serial if
  that fails;
- builds the immutable `Ksiega` record and counts it;
- drives one browser session: fill in the search form, submit it, abort when
  the results page says *nie została odnaleziona* ("was not found"), otherwise
  open the detail page and read its HTML;
- routes the outcome. A failed session is followed by a 10-second cooldown. A
  successful one is written to `output/<court>_<number>_<digit>.html` and
  followed by a pause of 1 to 3 seconds.

The model has five modules, one per concern of `main.go`:

- `Decimal` (`decimal.dfy`): `fmt.Sprintf("%08d", n)` and its inverse.
- `Text` (`text.dfy`): `strings.Contains`.
- `Session` (`session.dfy`): `chromedp.Run`. The actions run in order against a
  browser oracle and the run stops at the first error. The method `Run` fills
  `searchResultsHTML` and `htmlContent` in place, as the source does.
- `Registry` (`registry.dfy`): the `Ksiega` record, the fixed 47-action
  workflow of one session, and the output file name.
- `Scraper` (`scraper.dfy`): the `for` loop of `main` as the method `Scrape`,
  proved against the function `Trace`, which lists what each iteration does.

`Results` (`results.dfy`) holds the `Option` and `Result` datatypes.

Everything outside the program is a parameter of the datatype `Scraper.Env`:

- the check-digit function `ObliczCyfreKontrolna`;
- the browser, which answers each action of a record's session with text or an
  error;
- the outcomes of `os.MkdirAll` and `os.WriteFile`;
- the value `rand.Intn(3)` returns.

Each of these answers per serial or per action position. Every serial is
processed once, so this loses no generality.

Points where the code behaves other than one might expect; the model follows
the code:

- The not-found abort is an ordinary error (`fmt.Errorf("not found")`). It
  gets the same 10-second cooldown as a real failure.
- After a failed session, or after `os.MkdirAll` fails, the loop moves on with
  no jittered pause. The 1–3 s pause follows only a write attempt, whether or
  not the write succeeded.
- The 300-second deadline of `context.WithTimeout` (main.go:75) is set once,
  before the loop, so it bounds the whole run rather than each session. In the
  model this is one of the ways the browser can fail an action.
- Each identifier gets exactly one attempt. There is no retry.

## Model

| member | source | states |
|---|---|---|
| `Decimal.ZeroPadSpec` | main.go:83 | the `%0<width>d` rendering is all digits, at least `width` long, exactly `width` long when the number is below `10^width`, and parses back to the number |
| `Decimal.Format08Spec` | main.go:83 | each serial below `10^8` renders as exactly eight decimal digits that parse back to the serial |
| `Decimal.Format08Injective` | main.go:83 | distinct serials have distinct renderings |
| `Decimal.Format08Onto` | main.go:83 | every eight-digit string is the rendering of the serial it parses to, and that serial is below `10^8` |
| `Decimal.DigitsRoundTrip` | main.go:83 | the unpadded decimal form of `n` is a non-empty digit string that parses back to `n` |
| `Decimal.StripLeadingZeros` | main.go:83 | any non-empty digit string is the shortest form of its value preceded by zeros |
| `Text.ContainsSpec` | main.go:151 | `strings.Contains(s, sub)` is true exactly when `sub` occurs in `s` at some position |
| `Session.Run` | main.go:98-184 | `chromedp.Run` over the action list starts with both variables empty and returns exactly the stop-at-first-error result `RunAll` |
| `Session.RunStops` | main.go:101-184 | the run begins between 1 and all of the actions; without an error it has begun all of them; with an error, the last action begun is the one whose step fails with that error |
| `Session.OnlyBegunActionsMatter` | main.go:101-184 | nothing after the failing action reaches the browser: browsers that agree on the actions begun give the same run |
| `Session.PassiveStretch` | main.go:101-148 | over form-filling actions the variables are unchanged; the run gets through the whole stretch or stops at the first action the browser rejects, with that action's error |
| `Registry.SessionSteps` | main.go:101-184 | the session has the 47 actions of the source; the body lists them in source order, and `SessionStepsShaped` fixes where the three state-touching ones sit |
| `Registry.SessionStepsShaped` | main.go:101-184 | in that workflow, every action is passive except the results read (position 24), the not-found check (25) and the detail read (46) |
| `Registry.SessionPhases` | main.go:101-184 | a session ends phase by phase: a rejected form action, a failed results read, the not-found abort, a rejected detail action, a failed detail read, or success carrying the detail page |
| `Registry.NotFoundExactly` | main.go:149-156 | the session aborts as not found exactly when all form actions were accepted, the results page was read, and it contains `nie została odnaleziona` |
| `Registry.NotFoundSkipsDetail` | main.go:149-183 | after the not-found abort the run stops right after the check, `htmlContent` is still empty, and the browser's answers to the detail actions make no difference |
| `Registry.FoundExactly` | main.go:101-184 | the session succeeds exactly when every action is accepted and the results page lacks the marker; `htmlContent` is then the detail page's text |
| `Registry.FileNameParts` | main.go:193 | the file name is `output/`, the court code, `_`, the number, `_`, the digit and `.html`, each part at its fixed position |
| `Registry.FileNamesDiffer` | main.go:193 | records of one court whose numbers have equal width but differ get different file names |
| `Scraper.Scrape` | main.go:81-209 | the loop's events are `Trace(env, 104, 140450)`; the counter equals the number of dispatched records, which is the number of serials with a computable check digit, and is at most the number of iterations |
| `Scraper.Iterate` | main.go:82-208 | one pass of the loop body does exactly what `Iteration` says for its serial, and the counter rises by one exactly when a record is dispatched |
| `Scraper.TraceVisitsEachSerial` | main.go:82 | the loop runs once per serial from `lo` to `hi`, and iteration `i` handles serial `lo + i`: ascending, each serial once |
| `Scraper.IterationRecord` | main.go:83-94 | a serial is skipped exactly when its check digit fails, with that error; otherwise its record is `{"OL1O", eight-digit number, digit}`, the number parses back to the serial, and the record drives its session |
| `Scraper.DispatchedIff` | main.go:84-88 | an iteration dispatches a record exactly when the check digit was computed |
| `Scraper.CounterCountsValid` | main.go:85-96 | after the iterations `lo..hi`, the counter equals the size of the set of serials whose check digit was computed, and is at most `hi - lo + 1` |
| `Scraper.Routing` | main.go:186-208 | any session error gives a 10 s cooldown and no file. Success without an output directory gives no file and no pause. Otherwise the detail HTML goes to `output/<court>_<number>_<digit>.html`, with the write's outcome recorded, then a pause of 1, 2 or 3 s |
| `Scraper.NotFoundRouting` | main.go:149-190 | a not-found serial is never opened in detail and never written, and gets the 10 s cooldown |
| `Scraper.IterationSaved` | main.go:186-200 | an iteration attempts a write exactly when its session succeeded and the output directory exists |
| `Scraper.StoredOfSerialRun` | main.go:82-204 | whenever the events are those of consecutive serials from `lo`, the written serials lie among them and strictly increase |
| `Scraper.StoredOfAllSaved` | main.go:82-204 | whenever the events are those of consecutive serials from `lo` and each attempts a write, every serial is written once, in order |
| `Scraper.StoredAscending` | main.go:82-204 | the serials whose HTML is handed to `os.WriteFile` lie in the range and strictly increase |
| `Scraper.AllFoundAllStored` | main.go:82-204 | when every serial dispatches, succeeds and has an output directory, exactly one write per serial happens, in ascending order |
| `Scraper.SavedFileName` | main.go:83-193 | a written file is named after the iteration's record, whose court is `OL1O` and whose number is the serial's eight-digit rendering |
| `Scraper.FileNamesUnique` | main.go:82-200 | no two iterations of a range below `10^8` write the same file |
| `Scraper.RangeFits` | main.go:82-83 | the loop's range 104..140450 lies below `10^8`, so every serial fits the eight-digit field |

## Left out

- Browser automation: the allocator flags, user agent and webdriver-hiding script (main.go:42-72), with its `log.Fatal`, are not modelled. The chromedp actions are data, and the browser is an oracle that answers each action with text or an error. Which page or element an action reaches is not modelled.
- `randomSleep` and every `time.Sleep` (main.go:26-32, 188, 208): only the bounds of each pause, and the number of seconds chosen after a session, are recorded. No time passes in the model.
- The 300-second context deadline (main.go:75): wall-clock behaviour. It shows up only as browser errors.
- `rand.Seed` (main.go:35): randomness is the oracle `Env.intn3`, whose values lie in {0, 1, 2}.
- `os.MkdirAll` and `os.WriteFile` (main.go:195-204): the file system is an oracle that says whether each call succeeds. File permissions and file contents on disk are not modelled; the name and the payload handed to the write are.
- The check-digit algorithm `ObliczCyfreKontrolna`, with its weights and character table, is not part of this model. It is a parameter that returns a digit string or an error.
- The channel-based generator `GeneratorKW` of the same package is not part of this model: `main` does not call it.
- Logging and progress output (`fmt`, `log`), including the progress denominator `140450-104`: printing only. That value is one less than the 140347 iterations, and the model does not treat it as a total.
- The commented-out sample record list (main.go:37-39): dead code.
- `Text.ContainsSpec`: works on Unicode code points, where Go compares UTF-8 bytes. The answers agree for valid UTF-8 text.
