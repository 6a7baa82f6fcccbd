/**
 * The local assignment worker: claim one assignment, record the intent and the send attempt of a model call, call the
 * model, record what came of it, send a receipt. Any control call may fail, with or without having been carried out.
 */
module Worker {
  import opened PyText

  datatype CallState = SendAttempt | SendUnknown | SendConfirmed | FailedCall | ResponseReconciled

  /** What the worker asks of others, in order; `acked` tells whether a control call returned. */
  datatype Event =
    | Claim(assignment: string, acked: bool)
    | Intent(call: string, acked: bool)
    | Transition(call: string, state: CallState, digest: Option<string>, acked: bool)
    | Invoke(call: string, digest: Option<string>)  // the model call; no digest when it raises
    | DualResponse(acked: bool)
    | Receipt(assignment: string, pass: bool, digest: Option<string>, acked: bool)

  type Log = seq<Event>

  // --- what the protocol promises, about any log ---

  predicate AckedClaim(e: Event) { e.Claim? && e.acked }

  ghost predicate OneClaim(log: Log) {
    forall i, j | 0 <= i < j < |log| :: !(AckedClaim(log[i]) && AckedClaim(log[j]))
  }

  ghost predicate OneInvocation(log: Log) {
    forall i, j | 0 <= i < j < |log| :: !(log[i].Invoke? && log[j].Invoke?)
  }

  /** Two events stand before a place, in this order. */
  ghost predicate Preceded(log: Log, first: Event, second: Event, i: nat) {
    exists j, k | 0 <= j < k < i && i <= |log| :: log[j] == first && log[k] == second
  }

  /** The model is called only after the intent and the send attempt of that call were acknowledged. */
  ghost predicate InvokedAfterRecord(log: Log) {
    forall i | 0 <= i < |log| && log[i].Invoke? ::
      Preceded(log, Intent(log[i].call, true), Transition(log[i].call, SendAttempt, None, true), i)
  }

  /** The model answered with this digest, and then that was confirmed and acknowledged. */
  ghost predicate Confirmed(log: Log, call: string, digest: Option<string>, i: nat) {
    Preceded(log, Invoke(call, digest), Transition(call, SendConfirmed, digest, true), i)
  }

  /** A PASS receipt carries the digest of the model's answer, whose confirmation was acknowledged. */
  ghost predicate PassAfterConfirmation(log: Log) {
    forall i | 0 <= i < |log| && log[i].Receipt? && log[i].pass ::
      log[i].digest.Some? && exists call :: Confirmed(log, call, log[i].digest, i)
  }

  /** A call whose invocation raised is never reported as failed: it may have been carried out. */
  ghost predicate RaiseIsNotFailure(log: Log) {
    forall i, j | 0 <= i < |log| && 0 <= j < |log| && log[i].Invoke? && log[i].digest.None? ::
      !(log[j].Transition? && log[j].state == FailedCall)
  }

  ghost predicate ReceiptsForClaim(log: Log) {
    forall i | 0 <= i < |log| && log[i].Receipt? :: exists j | 0 <= j < i :: log[j] == Claim(log[i].assignment, true)
  }

  ghost predicate Safe(log: Log) {
    && OneClaim(log) && OneInvocation(log) && InvokedAfterRecord(log)
    && PassAfterConfirmation(log) && RaiseIsNotFailure(log) && ReceiptsForClaim(log)
  }

  // --- a monitor that watches the log ---

  datatype Monitor = Monitor(claimed: Option<string>, call: Option<string>, attempted: bool,
                             invoked: Option<Option<string>>, confirmed: Option<string>, failed: bool)

  const FRESH := Monitor(None, None, false, None, None, false)

  function Next(m: Monitor, e: Event): Monitor {
    match e
    case Claim(a, acked) => if acked then m.(claimed := Some(a)) else m
    case Intent(c, acked) => if acked then m.(call := Some(c)) else m
    case Transition(c, state, d, acked) =>
      if state == FailedCall then m.(failed := true)
      else if state == SendAttempt && acked then m.(attempted := true)
      else if state == SendConfirmed && acked then m.(confirmed := d)
      else m
    case Invoke(c, d) => m.(invoked := Some(d))
    case _ => m
  }

  predicate Allowed(m: Monitor, e: Event) {
    match e
    case Claim(_, _) => m.claimed.None?
    case Intent(_, _) => m.claimed.Some? && m.call.None?
    case Transition(c, state, d, _) =>
      && m.call == Some(c)
      && (state == SendAttempt ==> d.None? && m.invoked.None?)
      && (state == SendConfirmed ==> d.Some? && m.invoked == Some(d))
      && (state == FailedCall ==> m.invoked != Some(None))
    case Invoke(c, _) => m.call == Some(c) && m.attempted && m.invoked.None? && !m.failed
    case DualResponse(_) => m.confirmed.Some?
    case Receipt(a, pass, d, _) => m.claimed == Some(a) && (pass ==> d.Some? && m.confirmed == d)
  }

  function After(log: Log): Monitor {
    if log == [] then FRESH else Next(After(log[..|log| - 1]), log[|log| - 1])
  }

  ghost predicate Accepted(log: Log) {
    log == [] || (Accepted(log[..|log| - 1]) && Allowed(After(log[..|log| - 1]), log[|log| - 1]))
  }

  lemma Push(log: Log, e: Event)
    ensures After(log + [e]) == Next(After(log), e)
    ensures Accepted(log + [e]) <==> Accepted(log) && Allowed(After(log), e)
  {
    assert (log + [e])[..|log|] == log;
  }

  /** What the monitor remembers is in the log. */
  ghost predicate Remembers(log: Log, m: Monitor) {
    && (m.claimed.Some? ==> exists j | 0 <= j < |log| :: log[j] == Claim(m.claimed.value, true))
    && (m.claimed.None? ==> forall j | 0 <= j < |log| :: !AckedClaim(log[j]))
    && (m.call.Some? ==> exists j | 0 <= j < |log| :: log[j] == Intent(m.call.value, true))
    && (m.attempted || m.confirmed.Some? ==> m.call.Some?)
    && (m.attempted ==> Preceded(log, Intent(m.call.value, true), Transition(m.call.value, SendAttempt, None, true), |log|))
    && (m.invoked.None? ==> forall j | 0 <= j < |log| :: !log[j].Invoke?)
    && (m.invoked.Some? ==> m.call.Some? && exists j | 0 <= j < |log| :: log[j] == Invoke(m.call.value, m.invoked.value))
    && (m.confirmed.Some? ==> Confirmed(log, m.call.value, m.confirmed, |log|))
    && (m.invoked == Some(None) ==> !m.failed)
    && (m.invoked.Some? && m.invoked.value.Some? ==> forall j | 0 <= j < |log| && log[j].Invoke? :: log[j].digest.Some?)
    && (!m.failed ==> forall j | 0 <= j < |log| :: !(log[j].Transition? && log[j].state == FailedCall))
  }

  lemma PrecededLater(log: Log, e: Event, first: Event, second: Event, i: nat)
    requires Preceded(log, first, second, i)
    ensures Preceded(log + [e], first, second, i)
    ensures Preceded(log + [e], first, second, |log|) && Preceded(log + [e], first, second, |log| + 1)
  {
    var j, k :| 0 <= j < k < i && i <= |log| && log[j] == first && log[k] == second;
    var t := log + [e];
    assert t[j] == first && t[k] == second;
  }

  lemma PrecededNow(log: Log, first: Event, e: Event, j: nat)
    requires j < |log| && log[j] == first
    ensures Preceded(log + [e], first, e, |log| + 1)
  {
    var t := log + [e];
    assert t[j] == first && t[|log|] == e;
  }

  lemma RemembersNext(log: Log, m: Monitor, e: Event)
    requires Remembers(log, m) && Allowed(m, e)
    ensures Remembers(log + [e], Next(m, e))
  {
    hide Preceded;
    var t, n := log + [e], Next(m, e);
    assert forall j | 0 <= j < |log| :: t[j] == log[j];
    assert t[|log|] == e;
    if m.attempted {
      PrecededLater(log, e, Intent(m.call.value, true), Transition(m.call.value, SendAttempt, None, true), |log|);
    }
    if m.confirmed.Some? {
      PrecededLater(log, e, Invoke(m.call.value, m.confirmed), Transition(m.call.value, SendConfirmed, m.confirmed, true), |log|);
    }
    if e.Transition? && e.acked && e.state == SendAttempt {
      var j :| 0 <= j < |log| && log[j] == Intent(m.call.value, true);
      PrecededNow(log, Intent(m.call.value, true), e, j);
    }
    if e.Transition? && e.acked && e.state == SendConfirmed {
      var j :| 0 <= j < |log| && log[j] == Invoke(m.call.value, m.invoked.value);
      PrecededNow(log, Invoke(m.call.value, m.invoked.value), e, j);
    }
  }

  lemma SafeNext(log: Log, m: Monitor, e: Event)
    requires Safe(log) && Remembers(log, m) && Allowed(m, e)
    ensures Safe(log + [e])
  {
    hide Preceded;
    var t := log + [e];
    assert forall j | 0 <= j < |log| :: t[j] == log[j];
    assert t[|log|] == e;
    forall i | 0 <= i < |t| && t[i].Invoke?
      ensures Preceded(t, Intent(t[i].call, true), Transition(t[i].call, SendAttempt, None, true), i)
    {
      var at := if i < |log| then i else |log|;
      PrecededLater(log, e, Intent(t[i].call, true), Transition(t[i].call, SendAttempt, None, true), at);
    }
    forall i | 0 <= i < |t| && t[i].Receipt? && t[i].pass
      ensures t[i].digest.Some? && exists call :: Confirmed(t, call, t[i].digest, i)
    {
      if i < |log| {
        var call :| Confirmed(log, call, t[i].digest, i);
        PrecededLater(log, e, Invoke(call, t[i].digest), Transition(call, SendConfirmed, t[i].digest, true), i);
        assert Confirmed(t, call, t[i].digest, i);
      } else {
        PrecededLater(log, e, Invoke(m.call.value, e.digest), Transition(m.call.value, SendConfirmed, e.digest, true), |log|);
        assert Confirmed(t, m.call.value, e.digest, i);
      }
    }
  }

  /** A log the monitor accepts keeps every promise. */
  lemma {:induction false} AcceptedIsSafe(log: Log)
    requires Accepted(log)
    ensures Safe(log) && Remembers(log, After(log))
  {
    if log != [] {
      var rest, e := log[..|log| - 1], log[|log| - 1];
      AcceptedIsSafe(rest);
      assert log == rest + [e];
      SafeNext(rest, After(rest), e);
      RemembersNext(rest, After(rest), e);
    }
  }

  // --- the worker ---

  /** An assignment row; `fit` tells whether its claimed payload passes the checks before the intent. */
  datatype Row = Row(assignment: string, drone: string, call: string, fit: bool, dual: bool)

  /** The worker's own `model_state`. */
  datatype ModelState = NoCall | IntentDurable | Attempted | Unknown | Sent | Failed | Reconciled

  function FirstFor(pending: seq<Row>, drone: string, i: nat): (k: nat)
    requires i <= |pending|
    ensures i <= k <= |pending| && (k < |pending| ==> pending[k].drone == drone)
    decreases |pending| - i
  {
    if i == |pending| || pending[i].drone == drone then i else FirstFor(pending, drone, i + 1)
  }

  /** How a pass in which no call fails ends, when the model would answer `answer`. */
  ghost predicate EndsWell(log: Log, row: Row, answer: Option<string>, sha: string -> string) {
    if row.fit && answer.Some? && answer.value != ""
    then Ends(log, Receipt(row.assignment, true, Some(sha(answer.value)), true),
              Transition(row.call, ResponseReconciled, Some(sha(answer.value)), true))
    else log != [] && log[|log| - 1] == Receipt(row.assignment, false, None, true)
  }

  ghost predicate Ends(log: Log, a: Event, b: Event) {
    |log| >= 2 && log[|log| - 2] == a && log[|log| - 1] == b
  }

  class Pass {
    var log: Log
    ghost var monitor: Monitor
    const reliable: bool  // whether every control call returns; otherwise each may fail

    constructor (reliable: bool)
      ensures log == [] && Valid() && monitor == FRESH && this.reliable == reliable
    {
      log, monitor, this.reliable := [], FRESH, reliable;
    }

    ghost predicate Valid()
      reads this
    {
      Accepted(log) && After(log) == monitor
    }

    method Returns() returns (acked: bool)
      ensures reliable ==> acked
    {
      var fault: bool := *;
      acked := reliable || !fault;
    }

    method Emit(e: Event)
      requires Valid() && Allowed(monitor, e)
      modifies this
      ensures Valid() && log == old(log) + [e] && monitor == Next(old(monitor), e)
    {
      Push(log, e);
      log, monitor := log + [e], Next(monitor, e);
    }

    method Move(call: string, state: CallState, digest: Option<string>) returns (acked: bool)
      requires Valid() && Allowed(monitor, Transition(call, state, digest, true))
      modifies this
      ensures Valid() && monitor == Next(old(monitor), Transition(call, state, digest, acked))
      ensures log == old(log) + [Transition(call, state, digest, acked)]
      ensures reliable ==> acked
    {
      acked := Returns();
      Emit(Transition(call, state, digest, acked));
    }

    /** Record the intent and the attempt; only then may the model be called. */
    method Announce(row: Row) returns (state: ModelState)
      requires Valid() && monitor == FRESH.(claimed := Some(row.assignment))
      modifies this
      ensures Valid() && state in {NoCall, IntentDurable, Attempted}
      ensures monitor == FRESH.(claimed := Some(row.assignment),
        call := if state == NoCall then None else Some(row.call), attempted := state == Attempted)
      ensures reliable ==> state == Attempted
    {
      hide Accepted, After;
      state := NoCall;
      var acked := Returns();
      Emit(Intent(row.call, acked));
      if !acked { return; }
      state := IntentDurable;
      acked := Move(row.call, SendAttempt, None);
      if acked { state := Attempted; }
    }

    /** Call the model and record what is known of the call. */
    method Call(row: Row, answer: Option<string>, sha: string -> string) returns (state: ModelState)
      requires Valid() && monitor == FRESH.(claimed := Some(row.assignment), call := Some(row.call), attempted := true)
      modifies this
      ensures Valid() && monitor.claimed == Some(row.assignment) && monitor.call == Some(row.call) && !monitor.failed
      ensures state in {Attempted, Unknown, Sent}
      ensures state == Sent ==> answer.Some? && monitor.confirmed == Some(sha(answer.value)) && monitor.invoked == Some(monitor.confirmed)
      ensures reliable && answer.Some? ==> state == Sent
      ensures answer.None? ==> log == old(log) + [Invoke(row.call, None), Transition(row.call, SendUnknown, None, state == Unknown)]
      ensures answer.Some? ==> var d := Some(sha(answer.value));
        log == old(log) + [Invoke(row.call, d), Transition(row.call, SendConfirmed, d, state == Sent)]
    {
      hide Accepted, After;
      state := Attempted;
      if answer.None? {
        Emit(Invoke(row.call, None));
        var noted := Move(row.call, SendUnknown, None);
        if noted { state := Unknown; }
        return;
      }
      Emit(Invoke(row.call, Some(sha(answer.value))));
      var acked := Move(row.call, SendConfirmed, Some(sha(answer.value)));
      if acked { state := Sent; }
    }

    /** Deliver a confirmed answer; an empty one is reported as failed. */
    method Deliver(row: Row, answer: string, sha: string -> string) returns (state: ModelState)
      requires Valid() && monitor.claimed == Some(row.assignment) && monitor.call == Some(row.call)
      requires monitor.confirmed == Some(sha(answer)) && monitor.invoked == Some(monitor.confirmed)
      modifies this
      ensures Valid() && monitor.claimed == Some(row.assignment) && monitor.call == Some(row.call)
      ensures monitor.invoked == Some(Some(sha(answer))) && state in {Sent, Failed, Reconciled}
      ensures state == Reconciled ==> Ends(log, Receipt(row.assignment, true, Some(sha(answer)), true),
        Transition(row.call, ResponseReconciled, Some(sha(answer)), true))
      ensures state == Reconciled ==>
        var d := Some(sha(answer));
        var dual := if row.dual then [DualResponse(true)] else [];
        log == old(log) + dual + [Receipt(row.assignment, true, d, true), Transition(row.call, ResponseReconciled, d, true)]
      ensures reliable && answer != "" ==> state == Reconciled
      ensures answer == "" ==> state != Reconciled
      ensures state == Failed ==> answer == "" && log == old(log) + [Transition(row.call, FailedCall, Some(sha(answer)), true)]
      ensures reliable && answer == "" ==> state == Failed
    {
      hide Accepted, After;
      state := Sent;
      var d := Some(sha(answer));
      var acked := Returns();
      if !acked { return; }
      if answer == "" {
        acked := Move(row.call, FailedCall, d);
        if acked { state := Failed; }
        return;
      }
      if row.dual {
        acked := Returns();
        Emit(DualResponse(acked));
        if !acked { return; }
      }
      acked := Returns();
      Emit(Receipt(row.assignment, true, d, acked));
      if !acked { return; }
      acked := Move(row.call, ResponseReconciled, d);
      if acked { state := Reconciled; }
    }

    /** The failure handler: FAILED is sent from the intent and from the confirmed state only, then a FAIL receipt. */
    method GiveUp(row: Row, state: ModelState) returns (told: bool, acked: bool)
      requires Valid() && monitor.claimed == Some(row.assignment)
      requires state in {IntentDurable, Sent} ==> monitor.call == Some(row.call) && monitor.invoked != Some(None)
      modifies this
      ensures Valid() && (reliable ==> acked)
      ensures log == old(log)
        + (if state in {IntentDurable, Sent} then [Transition(row.call, FailedCall, Some("error"), told)] else [])
        + [Receipt(row.assignment, false, None, acked)]
    {
      hide Accepted, After;
      told := false;
      if state == IntentDurable || state == Sent { told := Move(row.call, FailedCall, Some("error")); }
      acked := Returns();
      Emit(Receipt(row.assignment, false, None, acked));
    }

    /** What follows an acknowledged claim. */
    method Serve(row: Row, answer: Option<string>, sha: string -> string)
      requires Valid() && monitor == FRESH.(claimed := Some(row.assignment))
      modifies this
      ensures Valid()
      ensures reliable ==> EndsWell(log, row, answer, sha)
    {
      hide Accepted, After;
      var state := NoCall;
      if row.fit {
        state := Announce(row);
        if state == Attempted {
          state := Call(row, answer, sha);
          if state == Sent { state := Deliver(row, answer.value, sha); }
        }
      }
      if state != Reconciled { var told, acked := GiveUp(row, state); }
    }

    /** `local_assignment_worker_once`: the first row that can be claimed ends the pass, whatever becomes of it. */
    method Once(pending: seq<Row>, drone: string, model: string -> Option<string>, sha: string -> string)
      requires log == [] && Valid() && monitor == FRESH
      modifies this
      ensures Valid() && Safe(log)
      ensures FirstFor(pending, drone, 0) == |pending| ==> log == []
      ensures reliable && FirstFor(pending, drone, 0) < |pending| ==>
        var row := pending[FirstFor(pending, drone, 0)]; EndsWell(log, row, model(row.assignment), sha)
    {
      hide Accepted, After, Safe;
      for i := 0 to |pending|
        invariant Valid() && monitor == FRESH
        invariant FirstFor(pending, drone, 0) == |pending| ==> log == []
        invariant reliable || log == [] ==> FirstFor(pending, drone, 0) == FirstFor(pending, drone, i)
      {
        var row := pending[i];
        if row.drone == drone {
          var acked := Returns();
          Emit(Claim(row.assignment, acked));
          if acked {
            Serve(row, model(row.assignment), sha);
            AcceptedIsSafe(log);
            return;
          }
        }
      }
      AcceptedIsSafe(log);
    }
  }
}
