/**
 * The phase engine of a mission: every driver picks the first unfinished phase, reports on it through one result
 * function or puts it on hold, and the process row is recomputed. One mission; only drivers change its phases.
 */
module Phases {
  import opened PyText

  datatype Status = Pending | Ready | Running | Waiting | Blocked | Passed | Completed | Skipped | Failed | Cancelled
  datatype Phase = Phase(status: Status, progress: real)
  datatype Life = Complete | Failure | Wait | Block | Run | Earlier(name: string)

  /** The mission row, its process row and its phases in ordinal order. */
  datatype State = State(phases: seq<Phase>, current: Option<nat>, progress: real, life: Life)

  const FINISHED: set<Status> := {Passed, Completed, Skipped, Cancelled}
  const ACTIVE: set<Status> := {Running, Waiting, Blocked}
  const QUEUED: set<Status> := {Pending, Ready}

  /** The first phase from `i` on whose status is in the set, or the number of phases. */
  function FirstIn(phases: seq<Phase>, statuses: set<Status>, i: nat): (k: nat)
    requires i <= |phases|
    ensures i <= k <= |phases|
    ensures k < |phases| ==> phases[k].status in statuses
    ensures forall j | i <= j < k :: phases[j].status !in statuses
    decreases |phases| - i
  {
    if i == |phases| || phases[i].status in statuses then i else FirstIn(phases, statuses, i + 1)
  }

  /** The shared selector: the first phase that is not finished. */
  function FirstOpen(phases: seq<Phase>, i: nat): (k: nat)
    requires i <= |phases|
    ensures i <= k <= |phases|
    ensures k < |phases| ==> phases[k].status !in FINISHED
    ensures forall j | i <= j < k :: phases[j].status in FINISHED
    decreases |phases| - i
  {
    if i == |phases| || phases[i].status !in FINISHED then i else FirstOpen(phases, i + 1)
  }

  function Sum(phases: seq<Phase>, n: nat): real
    requires n <= |phases|
  {
    if n == 0 then 0.0 else Sum(phases, n - 1) + phases[n - 1].progress
  }

  function Overall(phases: seq<Phase>): real {
    Sum(phases, |phases|) / (if |phases| == 0 then 1.0 else |phases| as real)
  }

  // --- the two shared functions ---

  /** `_recompute_process` */
  function Recomputed(s: State): State {
    var overall := Overall(s.phases);
    var active := FirstIn(s.phases, ACTIVE, 0);
    if active < |s.phases| then s.(current := Some(active), progress := overall)
    else
      var next := FirstIn(s.phases, QUEUED, 0);
      if next < |s.phases|
      then s.(phases := s.phases[next := s.phases[next].(status := Running)], current := Some(next), progress := overall)
      else s.(current := None, progress := overall)
  }

  function LifeOf(current: Option<nat>, status: Status): Life {
    if current == None && status in {Passed, Completed, Skipped} then Complete
    else if status == Failed then Failure
    else if status == Waiting then Wait
    else if status == Blocked then Block
    else Run
  }

  /** `_driver_phase_result` */
  function Reported(s: State, i: nat, status: Status): State
    requires i < |s.phases|
  {
    var progress := if status in {Passed, Completed, Skipped} then 100.0 else 0.0;
    var r := Recomputed(s.(phases := s.phases[i := Phase(status, progress)]));
    r.(life := LifeOf(r.current, status))
  }

  /** The writes of `_generic_wait` and `_cooperative_wait` to the phase row. */
  function Held(s: State, i: nat, status: Status): State
    requires i < |s.phases|
  {
    s.(phases := s.phases[i := s.phases[i].(status := status)])
  }

  // --- the drivers ---

  /** What one driver pass can do to the phase it selects. */
  datatype Event =
    | Idle                      // the pass returns before it writes a phase
    | Report(status: Status)    // a phase result
    | PassAndReselect           // a pass of the cooperative driver that was waiting: it recomputes once more
    | Hold(status: Status)      // a wait; an unchanged wait writes nothing and is Idle
    | PassTerminal              // the self-hosted driver passes its readiness phase and closes the mission
    | PassNativeZero            // the native route passes the first phase, without the shared selector

  /** The results and waits the drivers give. */
  predicate Driven(e: Event) {
    match e
    case Report(status) => status in {Passed, Waiting, Blocked}
    case Hold(status) => status in {Waiting, Blocked}
    case _ => true
  }

  /** `terminal` is the place of the readiness phase of a self-hosted mission, if it has one. */
  function Step(s: State, e: Event, terminal: Option<nat>): State {
    var k := FirstOpen(s.phases, 0);
    if e == Idle then s
    else if e == PassNativeZero then
      if |s.phases| > 0 && s.phases[0].status in {Pending, Running, Waiting} then Reported(s, 0, Passed) else s
    else if k == |s.phases| then s.(life := Complete)
    else match e
      case Report(status) => Reported(s, k, status)
      case PassAndReselect => Recomputed(Reported(s, k, Passed))
      case Hold(status) => Held(s, k, status)
      case PassTerminal => if terminal == Some(k) then Reported(s, k, Passed).(life := Complete) else s
      case _ => s
  }

  function RunOf(s: State, events: seq<Event>, terminal: Option<nat>): State {
    if events == [] then s else Step(RunOf(s, events[..|events| - 1], terminal), events[|events| - 1], terminal)
  }

  class Mission {
    var phases: seq<Phase>
    var current: Option<nat>
    var progress: real
    var life: Life

    constructor (s: State)
      ensures View() == s
    {
      phases, current, progress, life := s.phases, s.current, s.progress, s.life;
    }

    function View(): State
      reads this
    {
      State(phases, current, progress, life)
    }

    method Recompute()
      modifies this
      ensures View() == Recomputed(old(View()))
    {
      var sum := 0.0;
      for i := 0 to |phases|
        invariant sum == Sum(phases, i) && View() == old(View())
      {
        sum := sum + phases[i].progress;
      }
      var overall := sum / (if |phases| == 0 then 1.0 else |phases| as real);
      var at := Find(ACTIVE);
      if at < |phases| {
        current := Some(at);
      } else {
        at := Find(QUEUED);
        current := if at < |phases| then Some(at) else None;
        if at < |phases| { phases := phases[at := phases[at].(status := Running)]; }
      }
      progress := overall;
    }

    method Find(statuses: set<Status>) returns (k: nat)
      ensures k == FirstIn(phases, statuses, 0)
    {
      k := 0;
      while k < |phases| && phases[k].status !in statuses
        invariant k <= |phases| && FirstIn(phases, statuses, 0) == FirstIn(phases, statuses, k)
      {
        k := k + 1;
      }
    }

    method Select() returns (k: nat)
      ensures k == FirstOpen(phases, 0)
    {
      k := 0;
      while k < |phases| && phases[k].status in FINISHED
        invariant k <= |phases| && FirstOpen(phases, 0) == FirstOpen(phases, k)
      {
        k := k + 1;
      }
    }

    method PhaseResult(i: nat, status: Status)
      requires i < |phases|
      modifies this
      ensures View() == Reported(old(View()), i, status)
    {
      phases := phases[i := Phase(status, if status in {Passed, Completed, Skipped} then 100.0 else 0.0)];
      Recompute();
      life := LifeOf(current, status);
    }

    method Drive(e: Event, terminal: Option<nat>)
      modifies this
      ensures View() == Step(old(View()), e, terminal)
    {
      if e == Idle { return; }
      if e == PassNativeZero {
        if |phases| > 0 && phases[0].status in {Pending, Running, Waiting} { PhaseResult(0, Passed); }
        return;
      }
      var k := Select();
      if k == |phases| { life := Complete; return; }
      match e
      case Report(status) => PhaseResult(k, status);
      case PassAndReselect => PhaseResult(k, Passed); Recompute();
      case Hold(status) => phases := phases[k := phases[k].(status := status)];
      case PassTerminal => if terminal == Some(k) { PhaseResult(k, Passed); life := Complete; }
      case _ =>
    }
  }

  // --- what every run of the drivers keeps ---

  function Ratio(k: nat, n: nat): real { if n == 0 then 0.0 else 100.0 * (k as real) / (n as real) }

  /** `k` passed phases, then one open phase, then untouched ones; progress is exact. */
  ghost predicate Prefix(s: State, k: nat) {
    && k <= |s.phases|
    && (forall i | 0 <= i < k :: s.phases[i] == Phase(Passed, 100.0))
    && (forall i | k < i < |s.phases| :: s.phases[i] == Phase(Pending, 0.0))
    && (k < |s.phases| ==> s.phases[k].status in ACTIVE + QUEUED && s.phases[k].progress == 0.0)
    && s.progress == Ratio(k, |s.phases|)
  }

  /** The invariant of driver runs; `k` is the number of passed phases. */
  ghost predicate Inv(s: State, k: nat) {
    Prefix(s, k) && (s.life == Complete <==> k == |s.phases|)
  }

  /** A mission as it is created, or with its first phase already marked running. */
  ghost predicate Fresh(s: State) {
    && |s.phases| > 0 && s.progress == 0.0 && s.life != Complete
    && s.phases[0].progress == 0.0 && s.phases[0].status in {Pending, Running}
    && forall i | 0 < i < |s.phases| :: s.phases[i] == Phase(Pending, 0.0)
  }

  lemma {:induction false} SumOfPrefix(phases: seq<Phase>, k: nat, n: nat)
    requires k <= |phases| && n <= |phases|
    requires forall i | 0 <= i < k :: phases[i].progress == 100.0
    requires forall i | k <= i < |phases| :: phases[i].progress == 0.0
    ensures Sum(phases, n) == 100.0 * (if n < k then n else k) as real
  {
    if n > 0 { SumOfPrefix(phases, k, n - 1); }
  }

  lemma OpenIsNext(s: State, k: nat)
    requires Prefix(s, k)
    ensures FirstOpen(s.phases, 0) == k
  {}

  /** Recomputing keeps the prefix, makes the open phase current and marks it running if it was queued. */
  lemma RecomputeKeeps(s: State, k: nat)
    requires Prefix(s.(progress := Ratio(k, |s.phases|)), k)
    ensures Prefix(Recomputed(s), k)
    ensures Recomputed(s).current == if k < |s.phases| then Some(k) else None
  {
    SumOfPrefix(s.phases, k, |s.phases|);
    if |s.phases| > 0 { assert Overall(s.phases) == Ratio(k, |s.phases|); }
    if k < |s.phases| && s.phases[k].status in QUEUED {
      assert FirstIn(s.phases, ACTIVE, 0) == |s.phases|;
      assert FirstIn(s.phases, QUEUED, 0) == k;
    } else if k < |s.phases| {
      assert FirstIn(s.phases, ACTIVE, 0) == k;
    } else {
      assert FirstIn(s.phases, ACTIVE, 0) == |s.phases| && FirstIn(s.phases, QUEUED, 0) == |s.phases|;
    }
  }

  lemma PassAdvances(s: State, k: nat)
    requires Prefix(s, k) && k < |s.phases|
    ensures Prefix(Reported(s, k, Passed), k + 1)
    ensures Reported(s, k, Passed).current == if k + 1 < |s.phases| then Some(k + 1) else None
    ensures |Reported(s, k, Passed).phases| == |s.phases|
    ensures Reported(s, k, Passed).life == if k + 1 == |s.phases| then Complete else Run
    ensures Reported(s, k, Passed).life == Complete <==> k + 1 == |s.phases|
  {
    var mid := s.(phases := s.phases[k := Phase(Passed, 100.0)]);
    RecomputeKeeps(mid, k + 1);
  }

  lemma WaitStays(s: State, k: nat, status: Status)
    requires Prefix(s, k) && k < |s.phases| && status in {Waiting, Blocked}
    ensures Inv(Reported(s, k, status), k) && Reported(s, k, status).current == Some(k)
    ensures |Reported(s, k, status).phases| == |s.phases|
    ensures Reported(s, k, status).life == if status == Waiting then Wait else Block
  {
    var mid := s.(phases := s.phases[k := Phase(status, 0.0)]);
    RecomputeKeeps(mid, k);
  }

  /** One driver pass keeps the invariant and passes at most one more phase. */
  lemma StepKeeps(s: State, e: Event, terminal: Option<nat>, k: nat) returns (next: nat)
    requires |s.phases| > 0 && Inv(s, k) && Driven(e)
    requires terminal.None? || terminal.value + 1 == |s.phases|
    ensures Inv(Step(s, e, terminal), next) && k <= next <= k + 1 && |Step(s, e, terminal).phases| == |s.phases|
  {
    hide Recomputed, Reported, Prefix, Held;
    OpenIsNext(s, k);
    LifeApart(s, k);
    next := k;
    if e == PassNativeZero {
      if s.phases[0].status in {Pending, Running, Waiting} { PassAdvances(s, 0); next := 1; }
    } else if k < |s.phases| && e != Idle {
      match e
      case Report(status) =>
        if status == Passed { PassAdvances(s, k); next := k + 1; } else { WaitStays(s, k, status); }
      case PassAndReselect =>
        PassAdvances(s, k);
        RecomputeAgain(Reported(s, k, Passed), k + 1);
        next := k + 1;
      case Hold(status) => HoldStays(s, k, status);
      case PassTerminal =>
        if terminal == Some(k) { PassAdvances(s, k); LifeApart(Reported(s, k, Passed), k + 1); next := k + 1; }
      case _ =>
    }
  }

  lemma LifeApart(s: State, k: nat)
    requires Prefix(s, k)
    ensures Prefix(s.(life := Complete), k)
  {}

  lemma RecomputeAgain(s: State, k: nat)
    requires Prefix(s, k)
    ensures Prefix(Recomputed(s), k) && Recomputed(s).life == s.life && |Recomputed(s).phases| == |s.phases|
  {
    RecomputeKeeps(s, k);
  }

  lemma HoldStays(s: State, k: nat, status: Status)
    requires Inv(s, k) && k < |s.phases| && status in {Waiting, Blocked}
    ensures Inv(Held(s, k, status), k) && |Held(s, k, status).phases| == |s.phases|
    ensures var h := Held(s, k, status);
      && h.current == s.current && h.progress == s.progress && h.life == s.life
      && h.phases[k] == Phase(status, 0.0) && forall j | 0 <= j < |s.phases| && j != k :: h.phases[j] == s.phases[j]
  {}

  ghost predicate AllDriven(events: seq<Event>) { forall e | e in events :: Driven(e) }

  lemma {:induction false} RunKeeps(s: State, events: seq<Event>, terminal: Option<nat>) returns (k: nat)
    requires Fresh(s) && AllDriven(events) && (terminal.None? || terminal.value + 1 == |s.phases|)
    ensures Inv(RunOf(s, events, terminal), k) && |RunOf(s, events, terminal).phases| == |s.phases|
  {
    if events == [] {
      k := 0;
    } else {
      k := RunKeeps(s, events[..|events| - 1], terminal);
      k := StepKeeps(RunOf(s, events[..|events| - 1], terminal), events[|events| - 1], terminal, k);
    }
  }

  lemma RatioGrows(a: nat, b: nat, n: nat)
    requires a <= b
    ensures Ratio(a, n) <= Ratio(b, n)
  {
    if n > 0 {
      var x, y, d := 100.0 * (a as real), 100.0 * (b as real), n as real;
      assert y / d - x / d == (y - x) / d >= 0.0;
    }
  }

  /** Progress never falls from an earlier point of a run to a later one. */
  lemma {:induction false} ProgressNeverFalls(s: State, events: seq<Event>, terminal: Option<nat>, i: nat) returns (a: nat, b: nat)
    requires Fresh(s) && AllDriven(events) && i <= |events| && (terminal.None? || terminal.value + 1 == |s.phases|)
    ensures Inv(RunOf(s, events[..i], terminal), a) && Inv(RunOf(s, events, terminal), b) && a <= b
    ensures RunOf(s, events[..i], terminal).progress <= RunOf(s, events, terminal).progress
    ensures |RunOf(s, events[..i], terminal).phases| == |RunOf(s, events, terminal).phases| == |s.phases|
    decreases |events|
  {
    if i == |events| {
      assert events[..i] == events;
      a := RunKeeps(s, events, terminal);
      b := a;
    } else {
      var rest := events[..|events| - 1];
      assert rest[..i] == events[..i];
      a, b := ProgressNeverFalls(s, rest, terminal, i);
      b := StepKeeps(RunOf(s, rest, terminal), events[|events| - 1], terminal, b);
      RatioGrows(a, b, |s.phases|);
    }
  }

  // --- a readiness phase that is not the last one ---

  lemma FreshPrefix(s: State)
    requires Fresh(s)
    ensures Prefix(s, 0)
  {}

  lemma {:induction false} PassRun(s: State, n: nat, terminal: Option<nat>) returns (events: seq<Event>)
    requires Fresh(s) && n <= |s.phases|
    ensures AllDriven(events) && Prefix(RunOf(s, events, terminal), n) && |RunOf(s, events, terminal).phases| == |s.phases|
  {
    hide Prefix, Reported, FirstOpen;
    events := [];
    if n == 0 {
      FreshPrefix(s);
    } else {
      var rest := PassRun(s, n - 1, terminal);
      events := rest + [Report(Passed)];
      assert events[..|events| - 1] == rest;
      OpenIsNext(RunOf(s, rest, terminal), n - 1);
      PassAdvances(RunOf(s, rest, terminal), n - 1);
    }
  }

  /**
   * The mission is complete exactly when all its phases passed, in every run, if and only if the readiness phase, when
   * there is one, comes last: otherwise passing it closes the mission while a later phase is open.
   */
  lemma TerminalMustBeLast(s: State, t: nat) returns (events: seq<Event>)
    requires Fresh(s) && t + 1 < |s.phases|
    ensures AllDriven(events)
    ensures RunOf(s, events, Some(t)).life == Complete
    ensures Prefix(RunOf(s, events, Some(t)), t + 1) && |RunOf(s, events, Some(t)).phases| == |s.phases|
  {
    hide Prefix, Reported, FirstOpen;
    var rest := PassRun(s, t, Some(t));
    events := rest + [PassTerminal];
    assert events[..|events| - 1] == rest;
    OpenIsNext(RunOf(s, rest, Some(t)), t);
    PassAdvances(RunOf(s, rest, Some(t)), t);
    LifeApart(Reported(RunOf(s, rest, Some(t)), t, Passed), t + 1);
  }
}
