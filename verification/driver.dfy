/** The main View/Apply/Close loop of apply.js (lines 60-98).  The page is
    replaced by one observation per iteration: how many View buttons the
    re-query found, whether an Apply button was anywhere on the page once
    the item was open, and whether a Close/Cancel/Back button was anywhere on
    the page when the item was dismissed.  The source loop is `for (;;)`; the model runs over a
    finite sequence of observations and reports when it runs out. */
module Driver {
  import opened Wrappers
  import Labels

  datatype Observation = Observation(viewCount: nat, hasApply: bool, hasClose: bool)

  /** What the loop does to the page. `Open(i)` clicks the i-th View button. */
  datatype Action = Open(item: nat) | ClickApply | ClickClose | PressEscape

  /** The loop's counters and the actions issued so far. */
  datatype State = State(index: nat, applied: nat, trace: seq<Action>)

  /** `Exited`: the loop reached its `break`. `OutOfObservations`: the
      observations ran out while the loop was still going. */
  datatype Run = Exited(final: State) | OutOfObservations(final: State)

  /** Lines 60-61: both counters start at zero. */
  const Start: State := State(0, 0, [])

  predicate IsDismissal(a: Action) {
    a.ClickClose? || a.PressEscape?
  }

  /** Lines 90-97: the first Close/Cancel/Back button if there is one, else Escape. */
  function Dismissal(o: Observation): (a: Action)
    ensures IsDismissal(a)
    ensures a == ClickClose <==> o.hasClose
  {
    if o.hasClose then ClickClose else PressEscape
  }

  /** The actions of one iteration that opens item `index`. */
  function ItemActions(index: nat, o: Observation): seq<Action> {
    [Open(index)] + (if o.hasApply then [ClickApply] else []) + [Dismissal(o)]
  }

  /** The grammar of a well-formed action trace: items opened in order from
      `next`, each followed by at most one Apply click and then exactly one
      dismissal. */
  predicate WellFormed(t: seq<Action>, next: nat)
    decreases |t|
  {
    if |t| == 0 then true
    else if |t| >= 2 && t[0] == Open(next) && IsDismissal(t[1]) then WellFormed(t[2..], next + 1)
    else if |t| >= 3 && t[0] == Open(next) && t[1] == ClickApply && IsDismissal(t[2]) then WellFormed(t[3..], next + 1)
    else false
  }

  /** One pass of the loop body: break when `index >= viewButtons.length`,
      otherwise open item `index`, apply if possible, and dismiss. */
  function Step(s: State, o: Observation): (r: Option<State>)
    ensures r.None? <==> s.index >= o.viewCount
    ensures r.Some? ==> r.value.index == s.index + 1
    ensures r.Some? ==> s.applied <= r.value.applied <= s.applied + 1
    ensures r.Some? ==> (r.value.applied == s.applied + 1 <==> o.hasApply)
    ensures r.Some? ==> |s.trace| < |r.value.trace|
    ensures r.Some? ==> r.value.trace[..|s.trace|] == s.trace
    ensures r.Some? ==> WellFormed(r.value.trace[|s.trace|..], s.index)
    ensures r.Some? ==> |r.value.trace| - |s.trace| == (if o.hasApply then 3 else 2)
    ensures r.Some? ==> r.value.trace[|s.trace|] == Open(s.index)
    ensures r.Some? ==> (ClickApply in r.value.trace[|s.trace|..] <==> o.hasApply)
    ensures r.Some? ==> r.value.trace[|r.value.trace| - 1] == Dismissal(o)
  {
    if s.index >= o.viewCount then None
    else
      var block := ItemActions(s.index, o);
      ItemThenRest(s.index, o, []);
      assert block + [] == block;
      assert (s.trace + block)[|s.trace|..] == block;
      Some(State(s.index + 1, s.applied + (if o.hasApply then 1 else 0), s.trace + block))
  }

  /** The loop from state `s`, one observation per iteration. */
  function DriveFrom(s: State, obs: seq<Observation>): Run
    decreases |obs|
  {
    if |obs| == 0 then OutOfObservations(s)
    else match Step(s, obs[0])
      case None => Exited(s)
      case Some(s') => DriveFrom(s', obs[1..])
  }

  /** The whole loop from lines 60-61 onwards. */
  function Drive(obs: seq<Observation>): (r: Run)
    ensures r.final.index <= |obs|
    ensures r.final.applied <= r.final.index
    ensures WellFormed(r.final.trace, 0)
  {
    DriveFromFacts(Start, obs);
    var k := DriveFrom(Start, obs).final.index;
    TranscriptFacts(obs[..k], 0);
    assert Start.trace + Transcript(obs[..k], 0) == Transcript(obs[..k], 0);
    WellFormedCounts(Transcript(obs[..k], 0), 0);
    DriveFrom(Start, obs)
  }

  /** Reference account of the loop: the actions of items `start`,
      `start + 1`, ... for the given observations, one block after another. */
  function Transcript(obs: seq<Observation>, start: nat): seq<Action>
    decreases |obs|
  {
    if |obs| == 0 then [] else ItemActions(start, obs[0]) + Transcript(obs[1..], start + 1)
  }

  /** How many observations saw an Apply button. */
  function ApplyObserved(obs: seq<Observation>): nat
    decreases |obs|
  {
    if |obs| == 0 then 0 else (if obs[0].hasApply then 1 else 0) + ApplyObserved(obs[1..])
  }

  /** How many observations saw a Close/Cancel/Back button. */
  function CloseObserved(obs: seq<Observation>): nat
    decreases |obs|
  {
    if |obs| == 0 then 0 else (if obs[0].hasClose then 1 else 0) + CloseObserved(obs[1..])
  }

  datatype Kind = OpenKind | ApplyKind | CloseKind | EscapeKind

  function KindOf(a: Action): Kind {
    match a
    case Open(_) => OpenKind
    case ClickApply => ApplyKind
    case ClickClose => CloseKind
    case PressEscape => EscapeKind
  }

  /** Number of actions of kind `k` in `t`. */
  function Tally(t: seq<Action>, k: Kind): nat
    decreases |t|
  {
    if |t| == 0 then 0 else (if KindOf(t[0]) == k then 1 else 0) + Tally(t[1..], k)
  }

  /** 1 when `a` is of kind `k`, else 0. */
  function Unit(a: Action, k: Kind): nat {
    if KindOf(a) == k then 1 else 0
  }

  lemma TallyTwo(t: seq<Action>, k: Kind)
    requires |t| >= 2
    ensures Tally(t, k) == Unit(t[0], k) + Unit(t[1], k) + Tally(t[2..], k)
  {
    assert t[1..][1..] == t[2..];
  }

  lemma TallyThree(t: seq<Action>, k: Kind)
    requires |t| >= 3
    ensures Tally(t, k) == Unit(t[0], k) + Unit(t[1], k) + Unit(t[2], k) + Tally(t[3..], k)
  {
    TallyTwo(t, k);
    assert t[2..][1..] == t[3..];
  }

  lemma {:induction false} TallyAppend(a: seq<Action>, b: seq<Action>, k: Kind)
    ensures Tally(a + b, k) == Tally(a, k) + Tally(b, k)
    decreases |a|
  {
    if |a| > 0 {
      assert (a + b)[1..] == a[1..] + b;
      TallyAppend(a[1..], b, k);
    } else {
      assert a + b == b;
    }
  }

  /** A well-formed trace gives every opened item exactly one dismissal, and
      at most one Apply click. */
  lemma {:induction false} WellFormedCounts(t: seq<Action>, next: nat)
    requires WellFormed(t, next)
    ensures Tally(t, OpenKind) == Tally(t, CloseKind) + Tally(t, EscapeKind)
    ensures Tally(t, ApplyKind) <= Tally(t, OpenKind)
    decreases |t|
  {
    if |t| > 0 {
      if IsDismissal(t[1]) {
        WellFormedCounts(t[2..], next + 1);
        TallyTwo(t, OpenKind);
        TallyTwo(t, ApplyKind);
        TallyTwo(t, CloseKind);
        TallyTwo(t, EscapeKind);
      } else {
        WellFormedCounts(t[3..], next + 1);
        TallyThree(t, OpenKind);
        TallyThree(t, ApplyKind);
        TallyThree(t, CloseKind);
        TallyThree(t, EscapeKind);
      }
    }
  }

  /** One item's block opens once, applies as observed and dismisses once. */
  lemma BlockTally(index: nat, o: Observation)
    ensures Tally(ItemActions(index, o), OpenKind) == 1
    ensures Tally(ItemActions(index, o), ApplyKind) == (if o.hasApply then 1 else 0)
    ensures Tally(ItemActions(index, o), CloseKind) == (if o.hasClose then 1 else 0)
    ensures Tally(ItemActions(index, o), EscapeKind) == (if o.hasClose then 0 else 1)
  {
    var b := ItemActions(index, o);
    if o.hasApply {
      assert b[3..] == [];
      TallyThree(b, OpenKind);
      TallyThree(b, ApplyKind);
      TallyThree(b, CloseKind);
      TallyThree(b, EscapeKind);
    } else {
      assert b[2..] == [];
      TallyTwo(b, OpenKind);
      TallyTwo(b, ApplyKind);
      TallyTwo(b, CloseKind);
      TallyTwo(b, EscapeKind);
    }
  }

  /** One item's block followed by a well-formed rest is well formed. */
  lemma ItemThenRest(index: nat, o: Observation, rest: seq<Action>)
    requires WellFormed(rest, index + 1)
    ensures WellFormed(ItemActions(index, o) + rest, index)
  {
    var t := ItemActions(index, o) + rest;
    if o.hasApply {
      assert t[3..] == rest;
    } else {
      assert t[2..] == rest;
    }
  }

  /** The reference transcript is well formed, and its action counts are
      exactly what the observations dictate. */
  lemma {:induction false} TranscriptFacts(obs: seq<Observation>, start: nat)
    ensures WellFormed(Transcript(obs, start), start)
    ensures Tally(Transcript(obs, start), OpenKind) == |obs|
    ensures Tally(Transcript(obs, start), ApplyKind) == ApplyObserved(obs)
    ensures Tally(Transcript(obs, start), CloseKind) == CloseObserved(obs)
    ensures Tally(Transcript(obs, start), EscapeKind) == |obs| - CloseObserved(obs)
    decreases |obs|
  {
    if |obs| > 0 {
      var block := ItemActions(start, obs[0]);
      var rest := Transcript(obs[1..], start + 1);
      TranscriptFacts(obs[1..], start + 1);
      ItemThenRest(start, obs[0], rest);
      BlockTally(start, obs[0]);
      TallyAppend(block, rest, OpenKind);
      TallyAppend(block, rest, ApplyKind);
      TallyAppend(block, rest, CloseKind);
      TallyAppend(block, rest, EscapeKind);
    }
  }

  /** The loop from `s` ended in `r` as the observations dictate: with `n`
      the number of iterations it completed, every one of them saw more View
      buttons than its index, it reached its `break` exactly when the next
      observation showed no more than `index` View buttons, and the counters
      and trace grew by exactly the reference account of those n
      observations. */
  ghost predicate Accounts(s: State, obs: seq<Observation>, r: Run) {
    var n := r.final.index - s.index;
    && s.index <= r.final.index <= s.index + |obs|
    && (forall j :: 0 <= j < n ==> s.index + j < obs[j].viewCount)
    && (r.Exited? ==> n < |obs| && obs[n].viewCount <= r.final.index)
    && (r.OutOfObservations? ==> n == |obs|)
    && r.final.applied == s.applied + ApplyObserved(obs[..n])
    && r.final.trace == s.trace + Transcript(obs[..n], s.index)
  }

  /** An iteration that does not break appends the item's actions. */
  lemma StepIsItem(s: State, o: Observation)
    requires s.index < o.viewCount
    ensures Step(s, o) == Some(State(s.index + 1, s.applied + (if o.hasApply then 1 else 0), s.trace + ItemActions(s.index, o)))
  {
  }

  /** Accounting for one completed iteration in front of the rest. */
  lemma AccountsStep(s: State, obs: seq<Observation>, r: Run)
    requires |obs| > 0 && Step(s, obs[0]).Some?
    requires Accounts(Step(s, obs[0]).value, obs[1..], r)
    ensures Accounts(s, obs, r)
  {
    StepIsItem(s, obs[0]);
    var m := r.final.index - (s.index + 1);
    var done := obs[..m + 1];
    assert done[0] == obs[0];
    assert done[1..] == obs[1..][..m];
    assert forall j :: 0 < j < m + 1 ==> obs[j] == obs[1..][j - 1];
  }

  /** The whole loop, accounted from the start. */
  lemma DriveAccounts(obs: seq<Observation>)
    ensures Accounts(Start, obs, Drive(obs))
  {
    DriveFromFacts(Start, obs);
    assert Drive(obs) == DriveFrom(Start, obs);
  }

  lemma {:induction false} DriveFromFacts(s: State, obs: seq<Observation>)
    ensures Accounts(s, obs, DriveFrom(s, obs))
    decreases |obs|
  {
    assert obs[..0] == [];
    if |obs| > 0 && Step(s, obs[0]).Some? {
      DriveFromFacts(Step(s, obs[0]).value, obs[1..]);
      AccountsStep(s, obs, DriveFrom(Step(s, obs[0]).value, obs[1..]));
    }
  }

  /** Lines 72-78: `index` counts the completed iterations, every completed
      iteration saw more View buttons than its index, and the loop breaks
      exactly at the first observation whose View count is at most `index`. */
  lemma DriveExitRule(obs: seq<Observation>)
    ensures Drive(obs).final.index <= |obs|
    ensures forall j :: 0 <= j < Drive(obs).final.index ==> j < obs[j].viewCount
    ensures Drive(obs).Exited? <==>
      Drive(obs).final.index < |obs| && obs[Drive(obs).final.index].viewCount <= Drive(obs).final.index
  {
    DriveAccounts(obs);
    assert Start.index == 0;
  }

  /** Lines 82-87: `applied` is the number of completed iterations that saw an
      Apply button, so it never exceeds `index`. */
  lemma DriveCounters(obs: seq<Observation>)
    ensures Drive(obs).final.index <= |obs|
    ensures Drive(obs).final.applied == ApplyObserved(obs[..Drive(obs).final.index])
    ensures Drive(obs).final.applied <= Drive(obs).final.index
  {
    DriveAccounts(obs);
    var r := Drive(obs);
    var k := r.final.index;
    assert r.final.applied == ApplyObserved(obs[..k]);
  }

  /** Lines 76-97: the actions issued are well formed, one Open per completed
      iteration, one Apply click per Apply observed, and a Close click for
      each iteration that saw a Close/Cancel/Back button, an Escape press for
      every other one. */
  lemma DriveTrace(obs: seq<Observation>)
    ensures Drive(obs).final.index <= |obs|
    ensures WellFormed(Drive(obs).final.trace, 0)
    ensures Tally(Drive(obs).final.trace, OpenKind) == Drive(obs).final.index
    ensures Tally(Drive(obs).final.trace, ApplyKind) == Drive(obs).final.applied
    ensures Tally(Drive(obs).final.trace, CloseKind) == CloseObserved(obs[..Drive(obs).final.index])
    ensures Tally(Drive(obs).final.trace, EscapeKind)
         == Drive(obs).final.index - CloseObserved(obs[..Drive(obs).final.index])
  {
    DriveAccounts(obs);
    var r := Drive(obs);
    var k := r.final.index;
    assert Start.trace + Transcript(obs[..k], 0) == Transcript(obs[..k], 0);
    assert r.final.trace == Transcript(obs[..k], 0);
    assert r.final.applied == ApplyObserved(obs[..k]);
    TranscriptFacts(obs[..k], 0);
  }

  /** One unfolding of the loop at observation `k`: it breaks, or it steps
      and goes on with the observations after `k`. */
  lemma DriveFromUnfold(s: State, obs: seq<Observation>, k: nat)
    requires k < |obs|
    ensures s.index >= obs[k].viewCount ==> DriveFrom(s, obs[k..]) == Exited(s)
    ensures s.index < obs[k].viewCount ==> DriveFrom(s, obs[k..]) == DriveFrom(Step(s, obs[k]).value, obs[k + 1..])
  {
    assert obs[k..][0] == obs[k];
    assert obs[k..][1..] == obs[k + 1..];
  }

  /** Lines 76-97, one pass of the loop body that does not break: open the
      item, click Apply if there is one, then dismiss the panel. */
  method RunItem(s: State, o: Observation) returns (next: State)
    requires s.index < o.viewCount
    ensures Step(s, o) == Some(next)
  {
    var block := [Open(s.index)];
    var applied := s.applied;
    if o.hasApply {
      block := block + [ClickApply];
      applied := applied + 1;
    }
    if o.hasClose {
      block := block + [ClickClose];
    } else {
      block := block + [PressEscape];
    }
    assert block == ItemActions(s.index, o);
    next := State(s.index + 1, applied, s.trace + block);
  }

  /** The loop as written, over a finite supply of observations. */
  method RunLoop(obs: seq<Observation>) returns (index: nat, applied: nat, trace: seq<Action>, exited: bool)
    ensures exited <==> Drive(obs).Exited?
    ensures State(index, applied, trace) == Drive(obs).final
  {
    index, applied, trace, exited := 0, 0, [], false;
    while index < |obs|
      invariant index <= |obs|
      invariant DriveFrom(State(index, applied, trace), obs[index..]) == Drive(obs)
      decreases |obs| - index
    {
      DriveFromUnfold(State(index, applied, trace), obs, index);
      if index >= obs[index].viewCount {
        exited := true;
        return;
      }
      var next := RunItem(State(index, applied, trace), obs[index]);
      index, applied, trace := next.index, next.applied, next.trace;
    }
    assert obs[index..] == [];
  }

  /** The page, as seen by the three queries of one iteration, each time as
      the text of every button of the whole document in document order: after
      the re-scroll (line 72), after the item was opened (line 82), and just
      before it is dismissed (line 90). */
  datatype Snapshot = Snapshot(listing: seq<string>, afterOpen: seq<string>, beforeDismiss: seq<string>)

  /** What one iteration learns from the page through the XPath queries. */
  function Observe(p: Snapshot): (o: Observation)
    ensures o.viewCount == |Labels.Select(p.listing, Labels.View)|
    ensures o.viewCount > 0 <==> exists i :: 0 <= i < |p.listing| && Labels.Matches(p.listing[i], Labels.View)
    ensures o.hasApply <==> exists i :: 0 <= i < |p.afterOpen| && Labels.Matches(p.afterOpen[i], Labels.Apply)
    ensures o.hasClose <==> exists i :: 0 <= i < |p.beforeDismiss| && Labels.Matches(p.beforeDismiss[i], Labels.Close)
  {
    Labels.SelectNonEmpty(p.listing, Labels.View);
    Labels.SelectNonEmpty(p.afterOpen, Labels.Apply);
    Labels.SelectNonEmpty(p.beforeDismiss, Labels.Close);
    Observation(
      |Labels.Select(p.listing, Labels.View)|,
      |Labels.Select(p.afterOpen, Labels.Apply)| > 0,
      |Labels.Select(p.beforeDismiss, Labels.Close)| > 0)
  }

  /** Line 76: the button clicked to open item `index` is the index-th View
      button of the listing, which is a View button. */
  function OpenedButton(listing: seq<string>, index: nat): (b: nat)
    requires index < |Labels.Select(listing, Labels.View)|
    ensures b < |listing| && Labels.Matches(listing[b], Labels.View)
    ensures forall j :: 0 <= j < index ==> Labels.Select(listing, Labels.View)[j] < b
    ensures forall p :: 0 <= p < b && Labels.Matches(listing[p], Labels.View) ==>
      p in Labels.Select(listing, Labels.View)[..index]
  {
    Labels.Select(listing, Labels.View)[index]
  }
}
