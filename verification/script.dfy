/** The script as a whole (apply.js lines 7-102), as the sequence of effects
    it has on the browser: launch, load the cookies, visit the home page, set
    the cookies, open the opportunities page, run the View/Apply/Close loop,
    close the browser. */
module Script {
  import opened Wrappers
  import opened Cookies
  import Driver

  datatype Effect =
    | LaunchBrowser                      // lines 12-16
    | GotoHome                           // line 31
    | SetCookies(cookies: seq<Record>)   // line 32
    | GotoOpportunities                  // line 33
    | Item(action: Driver.Action)        // lines 76-97
    | CloseBrowser                       // line 101

  /** How the script ends: it prints the Apply count and closes the browser,
      it throws while loading the cookies, or (in the model only) the
      observations ran out before the loop reached its `break`. */
  datatype Ending = Finished(applied: nat) | Threw(error: CookieError) | Unfinished

  datatype Outcome = Outcome(effects: seq<Effect>, ending: Ending)

  /** One observation per loop iteration, read off the page through the
      three XPath queries. */
  function Observations(pages: seq<Driver.Snapshot>): (obs: seq<Driver.Observation>)
    ensures |obs| == |pages|
    ensures forall i :: 0 <= i < |pages| ==> obs[i] == Driver.Observe(pages[i])
  {
    seq(|pages|, i requires 0 <= i < |pages| => Driver.Observe(pages[i]))
  }

  /** The loop's actions as browser effects, in the same order. */
  function Lift(t: seq<Driver.Action>): (effects: seq<Effect>)
    ensures |effects| == |t|
    ensures forall i :: 0 <= i < |t| ==> effects[i] == Item(t[i])
  {
    seq(|t|, i requires 0 <= i < |t| => Item(t[i]))
  }

  /** Lines 7-102: `env` is INSTAHYRE_COOKIES, `parse` is JSON.parse, and
      `pages` are what the page shows on each pass of the loop. */
  function RunScript(env: Option<string>, parse: string -> Parsed, pages: seq<Driver.Snapshot>): (r: Outcome)
    ensures |r.effects| > 0 && r.effects[0] == LaunchBrowser
    ensures r.ending.Threw? <==> LoadCookies(env, parse).Failure?
    ensures r.ending.Threw? ==> r.effects == [LaunchBrowser] && r.ending.error == LoadCookies(env, parse).error
    ensures CloseBrowser in r.effects <==> r.ending.Finished?
  {
    match LoadCookies(env, parse)
    case Failure(e) => Outcome([LaunchBrowser], Threw(e))
    case Success(cs) =>
      var run := Driver.Drive(Observations(pages));
      var effects := [LaunchBrowser, GotoHome, SetCookies(cs), GotoOpportunities] + Lift(run.final.trace);
      LiftNeverCloses(run.final.trace);
      assert CloseBrowser !in effects;
      if run.Exited? then Outcome(effects + [CloseBrowser], Finished(run.final.applied))
      else Outcome(effects, Unfinished)
  }

  /** The loop's effects never close the browser. */
  lemma LiftNeverCloses(t: seq<Driver.Action>)
    ensures CloseBrowser !in Lift(t)
  {
    forall i | 0 <= i < |t|
      ensures Lift(t)[i] != CloseBrowser
    {
    }
  }

  predicate SetsCookies(effects: seq<Effect>) {
    exists i :: 0 <= i < |effects| && effects[i].SetCookies?
  }

  /** Lines 19-20: an unset or empty INSTAHYRE_COOKIES stops the script
      after the browser was launched and before any page is visited or any
      cookie set, and the browser is never closed on that path. */
  lemma MissingCookiesStopEarly(env: Option<string>, parse: string -> Parsed, pages: seq<Driver.Snapshot>)
    requires env == None || env == Some("")
    ensures RunScript(env, parse, pages) == Outcome([LaunchBrowser], Threw(MissingEnv))
    ensures !SetsCookies(RunScript(env, parse, pages).effects)
    ensures CloseBrowser !in RunScript(env, parse, pages).effects
  {
  }

  /** Lines 21-33: when the script gets past loading, the cookies it sets
      are the parsed records normalised one by one, all of them ready for the
      browser, and they are set after the home page and before the
      opportunities page is visited. */
  lemma CookiesSetAreNormalized(env: Option<string>, parse: string -> Parsed, pages: seq<Driver.Snapshot>)
    requires LoadCookies(env, parse).Success?
    ensures env.Some? && parse(env.value).Array?
    ensures var effects := RunScript(env, parse, pages).effects;
      && |effects| >= 4
      && effects[..4] == [LaunchBrowser, GotoHome, SetCookies(NormalizeAll(parse(env.value).records)), GotoOpportunities]
    ensures forall c :: c in NormalizeAll(parse(env.value).records) ==> Normalized(c)
  {
    var cs := NormalizeAll(parse(env.value).records);
    var run := Driver.Drive(Observations(pages));
    assert RunScript(env, parse, pages).effects[..4] == [LaunchBrowser, GotoHome, SetCookies(cs), GotoOpportunities];
    NormalizeAllSound(parse(env.value).records);
  }

  /** Lines 33-101: when loading succeeds, the loop's clicks and key presses
      are the browser effects right after the opportunities page is opened,
      in the order the loop issues them; the browser is closed after them
      exactly when the loop reached its `break`, and the script then reports
      the loop's Apply count. */
  lemma LoopActionsAreEffects(env: Option<string>, parse: string -> Parsed, pages: seq<Driver.Snapshot>)
    requires LoadCookies(env, parse).Success?
    ensures var r := RunScript(env, parse, pages);
      var run := Driver.Drive(Observations(pages));
      var t := run.final.trace;
      && |r.effects| == 4 + |t| + (if run.Exited? then 1 else 0)
      && r.effects[4..4 + |t|] == Lift(t)
      && (run.Exited? ==> r.effects[4 + |t|] == CloseBrowser && r.ending == Finished(run.final.applied))
      && (run.OutOfObservations? ==> r.ending == Unfinished)
  {
    var cs := LoadCookies(env, parse).value;
    var run := Driver.Drive(Observations(pages));
    var t := run.final.trace;
    var head := [LaunchBrowser, GotoHome, SetCookies(cs), GotoOpportunities];
    var closing: seq<Effect> := if run.Exited? then [CloseBrowser] else [];
    assert RunScript(env, parse, pages).effects == head + Lift(t) + closing;
    assert (head + Lift(t) + closing)[4..4 + |t|] == Lift(t);
  }

  /** Line 100: when loading succeeds and the loop reaches its `break`, the
      count the script reports is the number of Apply clicks it
      made, which is at most the number of items it opened; the browser is
      closed last. */
  lemma ReportedCountIsApplyClicks(env: Option<string>, parse: string -> Parsed, pages: seq<Driver.Snapshot>)
    requires LoadCookies(env, parse).Success? && Driver.Drive(Observations(pages)).Exited?
    ensures var o := RunScript(env, parse, pages);
      && o.effects[|o.effects| - 1] == CloseBrowser
      && o.ending.applied == Driver.Tally(Driver.Drive(Observations(pages)).final.trace, Driver.ApplyKind)
      && o.ending.applied <= Driver.Tally(Driver.Drive(Observations(pages)).final.trace, Driver.OpenKind)
  {
    Driver.DriveTrace(Observations(pages));
    Driver.DriveCounters(Observations(pages));
  }
}
