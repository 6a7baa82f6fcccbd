/**
 * The runtime lease of the thread store: one row shared by all processes, claimed when a store opens, renewed by a
 * heartbeat thread, deleted on close. Each process has its own owner id and a fixed lease length.
 */
module Lease {
  import opened PyText

  type Owner = string
  datatype Row = Row(owner: Owner, expires: real)

  /** A span of time a successful write promised to its owner; closing ends it early. */
  datatype Span = Span(owner: Owner, from: real, until: real)

  /** `open` holds the owners whose heartbeat thread runs, `lost` those whose `_lease_lost` is set. */
  datatype State = State(now: real, row: Option<Row>, open: set<Owner>, seen: set<Owner>, lost: set<Owner>, spans: seq<Span>)

  datatype Event =
    | Elapse(delay: real)
    | Claim(owner: Owner)
    | Heartbeat(owner: Owner)
    | Fault(owner: Owner)      // a heartbeat that fails for a reason of its own
    | Close(owner: Owner)

  /** `max(5,int(lease_seconds))` */
  function Length(seconds: int): (l: real)
    ensures l >= 5.0 && l >= seconds as real && (l == 5.0 || l == seconds as real)
  {
    if seconds < 5 then 5.0 else seconds as real
  }

  predicate HeldByOther(s: State, o: Owner) {
    s.row.Some? && s.row.value.owner != o && s.row.value.expires > s.now
  }

  predicate Mine(s: State, o: Owner) { s.row.Some? && s.row.value.owner == o }

  function Granted(s: State, o: Owner, seconds: int): State {
    var until := s.now + Length(seconds);
    s.(row := Some(Row(o, until)), spans := s.spans + [Span(o, s.now, until)])
  }

  function Cut(spans: seq<Span>, o: Owner, at: real): seq<Span> {
    seq(|spans|, i requires 0 <= i < |spans| =>
      if spans[i].owner == o && spans[i].until > at then spans[i].(until := at) else spans[i])
  }

  function Step(s: State, e: Event, seconds: Owner -> int): State {
    match e
    case Elapse(delay) => if delay < 0.0 then s else s.(now := s.now + delay)
    case Claim(o) =>
      if o in s.seen then s
      else if HeldByOther(s, o) then s.(seen := s.seen + {o})
      else Granted(s, o, seconds(o)).(seen := s.seen + {o}, open := s.open + {o})
    case Heartbeat(o) =>
      if o !in s.open then s
      else if Mine(s, o) then Granted(s, o, seconds(o))
      else s.(open := s.open - {o}, lost := s.lost + {o})
    case Fault(o) => if o !in s.open then s else s.(open := s.open - {o}, lost := s.lost + {o})
    case Close(o) =>
      if Mine(s, o) then s.(row := None, open := s.open - {o}, spans := Cut(s.spans, o, s.now))
      else s.(open := s.open - {o})
  }

  function Run(s: State, events: seq<Event>, seconds: Owner -> int): State {
    if events == [] then s else Step(Run(s, events[..|events| - 1], seconds), events[|events| - 1], seconds)
  }

  const START := State(0.0, None, {}, {}, {}, [])

  /** A store call is refused exactly when its owner is known to have lost the lease. */
  predicate CallAllowed(s: State, o: Owner) { o !in s.lost }

  // --- the operations on the shared row ---

  class Board {
    var now: real
    var row: Option<Row>
    var open: set<Owner>
    var seen: set<Owner>
    var lost: set<Owner>
    ghost var spans: seq<Span>

    constructor ()
      ensures View() == START
    {
      now, row, open, seen, lost, spans := 0.0, None, {}, {}, {}, [];
    }

    ghost function View(): State
      reads this
    {
      State(now, row, open, seen, lost, spans)
    }

    /** `_lease_write` of one owner, inside its immediate transaction. */
    method LeaseWrite(o: Owner, claim: bool, seconds: int) returns (ok: bool)
      modifies this
      ensures ok <==> if claim then !HeldByOther(old(View()), o) else Mine(old(View()), o)
      ensures View() == if ok then Granted(old(View()), o, seconds) else old(View())
    {
      if claim {
        if row.Some? && row.value.owner != o && row.value.expires > now { return false; }
      } else if !(row.Some? && row.value.owner == o) { return false; }
      row := Some(Row(o, now + Length(seconds)));
      spans := spans + [Span(o, now, now + Length(seconds))];
      ok := true;
    }

    /** Opening a store claims the lease; only a claim that succeeds starts the heartbeat thread. */
    method Open(o: Owner, seconds: int) returns (ok: bool)
      requires o !in seen
      modifies this
      ensures ok <==> !HeldByOther(old(View()), o)
      ensures View() == Step(old(View()), Claim(o), x => seconds)
    {
      ok := LeaseWrite(o, true, seconds);
      seen := seen + {o};
      if ok { open := open + {o}; }
    }

    /** One turn of the heartbeat loop; any error stops it for good. */
    method Beat(o: Owner, seconds: int, fault: bool)
      requires o in open
      modifies this
      ensures View() == Step(old(View()), if fault then Fault(o) else Heartbeat(o), x => seconds)
    {
      var ok := false;
      if !fault { ok := LeaseWrite(o, false, seconds); }
      if !ok {
        lost := lost + {o};
        open := open - {o};
      }
    }

    method Pass(delay: real, seconds: int)
      requires delay >= 0.0
      modifies this`now
      ensures View() == Step(old(View()), Elapse(delay), x => seconds)
    {
      now := now + delay;
    }

    method CloseStore(o: Owner, seconds: int)
      modifies this
      ensures View() == Step(old(View()), Close(o), x => seconds)
    {
      open := open - {o};
      if row.Some? && row.value.owner == o {
        row := None;
        spans := Cut(spans, o, now);
      }
    }
  }

  // --- no two owners are ever promised the same moment ---

  ghost predicate Apart(a: Span, b: Span) { a.until <= b.from || b.until <= a.from }

  ghost predicate Disjoint(spans: seq<Span>) {
    forall i, j | 0 <= i < |spans| && 0 <= j < |spans| && spans[i].owner != spans[j].owner :: Apart(spans[i], spans[j])
  }

  ghost predicate Sound(s: State, seconds: Owner -> int) {
    forall i | 0 <= i < |s.spans| ::
      s.spans[i].from <= s.now && s.spans[i].from <= s.spans[i].until <= s.spans[i].from + Length(seconds(s.spans[i].owner))
  }

  /** Spans that may still be running belong to the row's owner and end no later than the row says. */
  ghost predicate Settled(s: State) {
    forall i | 0 <= i < |s.spans| ::
      s.spans[i].until <= if Mine(s, s.spans[i].owner) then s.row.value.expires else s.now
  }

  ghost predicate Backed(s: State) {
    s.row.Some? ==> exists i | 0 <= i < |s.spans| ::
      s.spans[i].owner == s.row.value.owner && s.spans[i].until == s.row.value.expires
  }

  ghost predicate Inv(s: State, seconds: Owner -> int) {
    Disjoint(s.spans) && Sound(s, seconds) && Settled(s) && Backed(s)
  }

  lemma GrantKeeps(s: State, o: Owner, seconds: Owner -> int)
    requires Inv(s, seconds) && !HeldByOther(s, o)
    ensures Inv(Granted(s, o, seconds(o)), seconds)
  {
    var t := Granted(s, o, seconds(o));
    forall i | 0 <= i < |s.spans| && s.spans[i].owner != o ensures s.spans[i].until <= s.now {}
    assert t.spans[|s.spans|] == Span(o, s.now, s.now + Length(seconds(o)));
    forall i, j | 0 <= i < |t.spans| && 0 <= j < |t.spans| && t.spans[i].owner != t.spans[j].owner
      ensures Apart(t.spans[i], t.spans[j])
    {
      if i < |s.spans| && j < |s.spans| { assert Apart(s.spans[i], s.spans[j]); }
    }
  }

  lemma CloseKeeps(s: State, o: Owner, seconds: Owner -> int)
    requires Inv(s, seconds) && Mine(s, o)
    ensures Inv(s.(row := None, open := s.open - {o}, spans := Cut(s.spans, o, s.now)), seconds)
  {
    var c := Cut(s.spans, o, s.now);
    forall i, j | 0 <= i < |c| && 0 <= j < |c| && c[i].owner != c[j].owner ensures Apart(c[i], c[j]) {
      assert Apart(s.spans[i], s.spans[j]);
    }
  }

  lemma StepKeeps(s: State, e: Event, seconds: Owner -> int)
    requires Inv(s, seconds)
    ensures Inv(Step(s, e, seconds), seconds)
  {
    hide Disjoint, Backed;
    match e
    case Claim(o) =>
      if o !in s.seen && !HeldByOther(s, o) {
        GrantKeeps(s, o, seconds);
        SameSpans(Granted(s, o, seconds(o)), Step(s, e, seconds));
      } else {
        SameSpans(s, Step(s, e, seconds));
      }
    case Heartbeat(o) =>
      if o in s.open && Mine(s, o) { GrantKeeps(s, o, seconds); } else { SameSpans(s, Step(s, e, seconds)); }
    case Close(o) =>
      if Mine(s, o) { CloseKeeps(s, o, seconds); } else { SameSpans(s, Step(s, e, seconds)); }
    case _ => SameSpans(s, Step(s, e, seconds));
  }

  lemma SameSpans(s: State, t: State)
    requires t.spans == s.spans && t.row == s.row
    ensures Disjoint(s.spans) ==> Disjoint(t.spans)
    ensures Backed(s) ==> Backed(t)
  {}

  lemma {:induction false} RunKeeps(events: seq<Event>, seconds: Owner -> int)
    ensures Inv(Run(START, events, seconds), seconds)
  {
    if events != [] {
      RunKeeps(events[..|events| - 1], seconds);
      StepKeeps(Run(START, events[..|events| - 1], seconds), events[|events| - 1], seconds);
    }
  }

  /** In every run, the spans promised to two different owners never overlap. */
  lemma SpansNeverOverlap(events: seq<Event>, seconds: Owner -> int, i: nat, j: nat)
    requires i < |Run(START, events, seconds).spans| && j < |Run(START, events, seconds).spans|
    requires Run(START, events, seconds).spans[i].owner != Run(START, events, seconds).spans[j].owner
    ensures Apart(Run(START, events, seconds).spans[i], Run(START, events, seconds).spans[j])
  {
    RunKeeps(events, seconds);
  }

  ghost predicate Covers(p: Span, t: real) { p.from <= t < p.until }

  /** A claim is refused exactly when a promise to another owner is still running. */
  lemma RefusedIffPromised(events: seq<Event>, seconds: Owner -> int, o: Owner)
    ensures var s := Run(START, events, seconds);
      HeldByOther(s, o) <==> exists p | p in s.spans :: p.owner != o && Covers(p, s.now)
  {
    RunKeeps(events, seconds);
    var s := Run(START, events, seconds);
    if HeldByOther(s, o) {
      var i :| 0 <= i < |s.spans| && s.spans[i].owner == s.row.value.owner && s.spans[i].until == s.row.value.expires;
      assert s.spans[i] in s.spans && Covers(s.spans[i], s.now);
    }
  }

  // --- an owner that was displaced ---

  ghost predicate Only(events: seq<Event>, o: Owner) {
    forall e | e in events :: e == Heartbeat(o) || e == Fault(o) || e == Close(o)
  }

  /** Whatever a displaced owner still does, the row of its successor stays as it is. */
  lemma {:induction false} DisplacedIsHarmless(s: State, events: seq<Event>, o: Owner, seconds: Owner -> int)
    requires s.row.Some? && s.row.value.owner != o && Only(events, o)
    ensures Run(s, events, seconds).row == s.row && Run(s, events, seconds).spans == s.spans
  {
    if events != [] {
      var rest := events[..|events| - 1];
      assert forall e | e in rest :: e in events;
      DisplacedIsHarmless(s, rest, o, seconds);
      assert events[|events| - 1] in events;
    }
  }

  /** The event that sets the lost mark: a heartbeat of an open store that fails, or that finds the row not its own. */
  ghost predicate Loses(s: State, e: Event, o: Owner) {
    o in s.open && (e == Fault(o) || (e == Heartbeat(o) && !Mine(s, o)))
  }

  ghost predicate LosesAt(events: seq<Event>, i: nat, o: Owner, seconds: Owner -> int) {
    i < |events| && Loses(Run(START, events[..i], seconds), events[i], o)
  }

  lemma MarkSetIffLoses(s: State, e: Event, o: Owner, seconds: Owner -> int)
    ensures o in Step(s, e, seconds).lost <==> o in s.lost || Loses(s, e, o)
  {}

  lemma LosesEarlier(events: seq<Event>, n: nat, i: nat, o: Owner, seconds: Owner -> int)
    requires i < n <= |events|
    ensures LosesAt(events, i, o, seconds) <==> LosesAt(events[..n], i, o, seconds)
  {
    assert events[..n][..i] == events[..i];
  }

  /** In every run an owner is refused if and only if a heartbeat of its open store once failed or found the row lost. */
  lemma {:induction false} RefusedIffHeartbeatFailed(events: seq<Event>, o: Owner, seconds: Owner -> int)
    ensures !CallAllowed(Run(START, events, seconds), o) <==> exists i: nat :: LosesAt(events, i, o, seconds)
  {
    hide LosesAt, Step, Loses;
    if events == [] {
      NoLoss(o, seconds);
    } else {
      var n := |events| - 1;
      RefusedIffHeartbeatFailed(events[..n], o, seconds);
      MarkSetIffLoses(Run(START, events[..n], seconds), events[n], o, seconds);
      forall i: nat ensures LosesAt(events, i, o, seconds) <==>
        (i < n && LosesAt(events[..n], i, o, seconds)) || (i == n && Loses(Run(START, events[..n], seconds), events[n], o))
      {
        LossIsLastOrEarlier(events, i, o, seconds);
      }
      forall i: nat | LosesAt(events[..n], i, o, seconds) ensures i < n { InRange(events[..n], i, o, seconds); }
      assert LosesAt(events, n, o, seconds) <==> Loses(Run(START, events[..n], seconds), events[n], o);
    }
  }

  lemma NoLoss(o: Owner, seconds: Owner -> int)
    ensures forall i: nat :: !LosesAt([], i, o, seconds)
  {}

  lemma InRange(events: seq<Event>, i: nat, o: Owner, seconds: Owner -> int)
    requires LosesAt(events, i, o, seconds)
    ensures i < |events|
  {}

  lemma LossIsLastOrEarlier(events: seq<Event>, i: nat, o: Owner, seconds: Owner -> int)
    requires events != []
    ensures var n := |events| - 1; LosesAt(events, i, o, seconds) <==>
      (i < n && LosesAt(events[..n], i, o, seconds)) || (i == n && Loses(Run(START, events[..n], seconds), events[n], o))
  {
    var n := |events| - 1;
    if i < n { LosesEarlier(events, n, i, o, seconds); }
  }

  /** A heartbeat or a fault of the owner that no close of its own comes before. */
  ghost predicate BeatsFirst(events: seq<Event>, o: Owner, i: nat) {
    && i < |events| && (events[i] == Heartbeat(o) || events[i] == Fault(o))
    && forall j | 0 <= j < i :: events[j] != Close(o)
  }

  /** A store that is closed without the mark is never refused, whoever holds the lease now. */
  lemma {:induction false} ClosedNeverRefused(s: State, events: seq<Event>, o: Owner, seconds: Owner -> int)
    requires o in s.seen && o !in s.open && CallAllowed(s, o)
    ensures var t := Run(s, events, seconds); o in t.seen && o !in t.open && CallAllowed(t, o)
  {
    if events != [] { ClosedNeverRefused(s, events[..|events| - 1], o, seconds); }
  }

  /** A displaced owner stays displaced: it has claimed already, so the row can never be its own again. */
  lemma {:induction false} StaysDisplaced(s: State, events: seq<Event>, o: Owner, seconds: Owner -> int)
    requires o in s.seen && !Mine(s, o)
    ensures var t := Run(s, events, seconds); o in t.seen && !Mine(t, o)
  {
    if events != [] { StaysDisplaced(s, events[..|events| - 1], o, seconds); }
  }

  /**
   * From the moment it is displaced, an owner with an open store is refused if and only if a heartbeat of its own comes,
   * failing or not, before it closes the store.
   */
  lemma {:induction false} DisplacedRefusedIff(s: State, events: seq<Event>, o: Owner, seconds: Owner -> int)
    requires o in s.seen && o in s.open && !Mine(s, o) && CallAllowed(s, o)
    ensures var t := Run(s, events, seconds);
      && (!CallAllowed(t, o) <==> exists i: nat :: BeatsFirst(events, o, i))
      && (o in t.open <==> (forall j | 0 <= j < |events| :: events[j] !in {Close(o), Heartbeat(o), Fault(o)}))
  {
    if events != [] {
      var n := |events| - 1;
      var rest, e := events[..n], events[n];
      DisplacedRefusedIff(s, rest, o, seconds);
      StaysDisplaced(s, rest, o, seconds);
      assert forall j | 0 <= j < n :: rest[j] == events[j];
      assert forall i: nat | i < n :: BeatsFirst(events, o, i) <==> BeatsFirst(rest, o, i);
      if BeatsFirst(events, o, n) && !(exists i: nat :: BeatsFirst(rest, o, i)) {
        OpenUntilBeat(rest, o);
      }
    }
  }

  lemma OpenUntilBeat(events: seq<Event>, o: Owner)
    requires forall j | 0 <= j < |events| :: events[j] != Close(o)
    requires forall i: nat :: !BeatsFirst(events, o, i)
    ensures forall j | 0 <= j < |events| :: events[j] !in {Close(o), Heartbeat(o), Fault(o)}
  {
    forall j | 0 <= j < |events| ensures events[j] !in {Close(o), Heartbeat(o), Fault(o)} {
      assert !BeatsFirst(events, o, j);
    }
  }

  /** The lost mark stays: every later call of that owner is refused. */
  lemma {:induction false} LostForever(s: State, events: seq<Event>, o: Owner, seconds: Owner -> int)
    requires o in s.lost
    ensures !CallAllowed(Run(s, events, seconds), o)
  {
    if events != [] { LostForever(s, events[..|events| - 1], o, seconds); }
  }

  lemma RunOfThree(a: Event, b: Event, c: Event, seconds: Owner -> int)
    ensures Run(START, [a, b, c], seconds) == Step(Step(Step(START, a, seconds), b, seconds), c, seconds)
  {
    assert [a, b, c][..2] == [a, b] && [a, b][..1] == [a] && [a][..0] == [];
    assert Run(START, [], seconds) == START;
    assert Run(START, [a], seconds) == Step(START, a, seconds);
    assert Run(START, [a, b], seconds) == Step(Step(START, a, seconds), b, seconds);
  }

  /** For any two owners there is a run in which the second holds the lease and the first, open, is not refused yet. */
  lemma DisplacedNotYetRefused(a: Owner, b: Owner, seconds: Owner -> int) returns (events: seq<Event>)
    requires a != b
    ensures var s := Run(START, events, seconds);
      Mine(s, b) && a in s.open && CallAllowed(s, a) && exists p | p in s.spans :: p.owner == b && Covers(p, s.now)
  {
    var l := Length(seconds(a));
    events := [Claim(a), Elapse(l), Claim(b)];
    RunOfThree(Claim(a), Elapse(l), Claim(b), seconds);
    var s := Run(START, events, seconds);
    assert s.spans[1].owner == b && Covers(s.spans[1], s.now);
  }

  /** And a run after which the first, closed, is never refused whatever follows. */
  lemma ClosedServedBesideSuccessor(a: Owner, b: Owner, seconds: Owner -> int, later: seq<Event>)
    requires a != b
    ensures var s := Run(START, [Claim(a), Close(a), Claim(b)], seconds);
      Mine(s, b) && CallAllowed(Run(s, later, seconds), a)
  {
    RunOfThree(Claim(a), Close(a), Claim(b), seconds);
    ClosedNeverRefused(Run(START, [Claim(a), Close(a), Claim(b)], seconds), later, a, seconds);
  }
}
