/** One browser session as `chromedp.Run` executes it: a list of actions run
    in order against the remote browser, stopping at the first action that
    returns an error. The browser is an oracle: for the action at position
    `i` it answers either with the text the action produced or with an error
    (an element that never became visible, a lost connection, the run's
    deadline having passed). Pauses never fail and the `RequireAbsent`
    action is evaluated locally on the page text read earlier. */
module Session {
  import opened Results
  import Text

  /** Keyboard input sent by `chromedp.KeyEvent`. */
  datatype Key = Chars(text: string) | Tab | Enter | ArrowDown | Backspace | SelectAll

  /** Which of the session's two string variables an `Evaluate` fills. */
  datatype Target = SearchResults | Html

  datatype Action =
    | Navigate(url: string)
    | WaitVisible(selector: string)
    | Click(selector: string)
    | KeyEvent(key: Key)
    | SendKeys(selector: string, text: string)
      /** `randomSleep(min, max)`, bounds in milliseconds; only its bounds are modelled */
    | Pause(minMillis: nat, maxMillis: nat)
      /** `chromedp.Evaluate("document.documentElement.outerHTML", &target)` */
    | Evaluate(target: Target)
      /** the closure that fails when the search results contain `marker` */
    | RequireAbsent(marker: string)

  /** The browser's answer to one action. */
  datatype Reply = Done(text: string) | Failed(reason: string)

  /** The browser as seen from one session: the answer to the action at each position. */
  type Browser = (nat, Action) -> Reply

  datatype SessionError = NotFound | Remote(reason: string)

  /** `searchResultsHTML` and `htmlContent`. */
  datatype Vars = Vars(searchResults: string, html: string)

  const Initial := Vars("", "")

  /** The variables at the point the run stopped, the error it stopped on if
      any, and how many actions were begun (the failing one included). */
  datatype RunResult = RunResult(vars: Vars, error: Option<SessionError>, executed: nat)

  /** An action that neither reads nor writes the session variables. */
  predicate Passive(a: Action) {
    !a.Evaluate? && !a.RequireAbsent?
  }

  /** A passive action succeeds when it is a pause or the browser accepts it. */
  predicate Accepted(b: Browser, i: nat, a: Action) {
    a.Pause? || b(i, a).Done?
  }

  /** The effect of the action `a` at position `i` on the variables `v`. */
  function Step(b: Browser, i: nat, a: Action, v: Vars): Result<Vars, SessionError> {
    match a
    case Pause(_, _) => Ok(v)
    case RequireAbsent(marker) =>
      if Text.Contains(v.searchResults, marker) then Err(NotFound) else Ok(v)
    case Evaluate(target) =>
      (match b(i, a)
       case Failed(reason) => Err(Remote(reason))
       case Done(text) =>
         Ok(if target == SearchResults then v.(searchResults := text) else v.(html := text)))
    case _ =>
      (match b(i, a)
       case Failed(reason) => Err(Remote(reason))
       case Done(_) => Ok(v))
  }

  /** Runs `steps[i..]` from the variables `v`. */
  function RunFrom(steps: seq<Action>, b: Browser, i: nat, v: Vars): RunResult
    decreases |steps| - i
  {
    if i >= |steps| then RunResult(v, None, |steps|)
    else
      match Step(b, i, steps[i], v)
      case Err(e) => RunResult(v, Some(e), i + 1)
      case Ok(v') => RunFrom(steps, b, i + 1, v')
  }

  /** `chromedp.Run(ctx, steps...)` with both variables initially empty. */
  function RunAll(steps: seq<Action>, b: Browser): RunResult {
    RunFrom(steps, b, 0, Initial)
  }

  /** `chromedp.Run`: executes the actions in order, filling the two
      variables in place, and returns at the first error. */
  method Run(steps: seq<Action>, b: Browser) returns (r: RunResult)
    ensures r == RunAll(steps, b)
  {
    var searchResults, html := "", "";
    var i := 0;
    while i < |steps|
      invariant 0 <= i <= |steps|
      invariant RunFrom(steps, b, i, Vars(searchResults, html)) == RunAll(steps, b)
    {
      var a := steps[i];
      var failure: Option<SessionError> := None;
      match a {
        case Pause(_, _) =>
        case RequireAbsent(marker) =>
          if Text.Contains(searchResults, marker) {
            failure := Some(NotFound);
          }
        case Evaluate(target) =>
          var reply := b(i, a);
          if reply.Failed? {
            failure := Some(Remote(reply.reason));
          } else if target == SearchResults {
            searchResults := reply.text;
          } else {
            html := reply.text;
          }
        case _ =>
          var reply := b(i, a);
          if reply.Failed? {
            failure := Some(Remote(reply.reason));
          }
      }
      if failure.Some? {
        return RunResult(Vars(searchResults, html), failure, i + 1);
      }
      i := i + 1;
    }
    r := RunResult(Vars(searchResults, html), None, |steps|);
  }

  /** The run stops at the first error: it begins at least one more action
      and never more than there are; with no error it has begun all of them,
      and with an error the last action begun is the one that failed, on the
      variables the run reports. */
  lemma {:induction false} RunStops(steps: seq<Action>, b: Browser, i: nat, v: Vars)
    requires i <= |steps|
    ensures var r := RunFrom(steps, b, i, v);
      && i <= r.executed <= |steps|
      && (r.error.None? ==> r.executed == |steps|)
      && (r.error.Some? ==>
            i < r.executed
            && Step(b, r.executed - 1, steps[r.executed - 1], r.vars) == Err(r.error.value))
    decreases |steps| - i
  {
    if i < |steps| {
      match Step(b, i, steps[i], v)
      case Err(e) =>
      case Ok(v') => RunStops(steps, b, i + 1, v');
    }
  }

  /** Nothing after the failing action is sent to the browser: two browsers
      that answer alike up to the point where the run stopped give the same
      run. */
  lemma {:induction false} OnlyBegunActionsMatter(steps: seq<Action>, b1: Browser, b2: Browser, i: nat, v: Vars)
    requires forall j | i <= j < RunFrom(steps, b1, i, v).executed && j < |steps| :: b1(j, steps[j]) == b2(j, steps[j])
    ensures RunFrom(steps, b2, i, v) == RunFrom(steps, b1, i, v)
    decreases |steps| - i
  {
    if i < |steps| {
      assert b1(i, steps[i]) == b2(i, steps[i]) by { RunStops(steps, b1, i, v); }
      assert Step(b1, i, steps[i], v) == Step(b2, i, steps[i], v);
      match Step(b1, i, steps[i], v)
      case Err(e) =>
      case Ok(v') => OnlyBegunActionsMatter(steps, b1, b2, i + 1, v');
    }
  }

  /** The first passive action in `steps[i..k]` that the browser rejects. */
  function FirstRejected(steps: seq<Action>, b: Browser, i: nat, k: nat): (j: Option<nat>)
    requires i <= k <= |steps|
    ensures j.Some? ==> i <= j.value < k && !Accepted(b, j.value, steps[j.value])
    ensures j.Some? ==> forall m | i <= m < j.value :: Accepted(b, m, steps[m])
    ensures j.None? ==> forall m | i <= m < k :: Accepted(b, m, steps[m])
    decreases k - i
  {
    if i == k then None
    else if !Accepted(b, i, steps[i]) then Some(i)
    else FirstRejected(steps, b, i + 1, k)
  }

  /** Over a stretch of passive actions the variables do not change; the run
      either gets through the whole stretch or stops at the first action the
      browser rejects, with that action's error. */
  lemma {:induction false} PassiveStretch(steps: seq<Action>, b: Browser, i: nat, k: nat, v: Vars)
    requires i <= k <= |steps|
    requires forall j | i <= j < k :: Passive(steps[j])
    ensures match FirstRejected(steps, b, i, k)
      case None =>
        RunFrom(steps, b, i, v) == RunFrom(steps, b, k, v)
      case Some(j) =>
        RunFrom(steps, b, i, v) == RunResult(v, Some(Remote(b(j, steps[j]).reason)), j + 1)
    decreases k - i
  {
    if i < k && Accepted(b, i, steps[i]) {
      assert Step(b, i, steps[i], v) == Ok(v);
      PassiveStretch(steps, b, i + 1, k, v);
    }
  }
}
