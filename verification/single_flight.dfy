/**
 * Single flight of the recent-missions projection: the first caller of a view reads it, callers that come meanwhile
 * wait for the same future. Each step is what one thread does under the lock or on its own between two locks.
 */
module SingleFlight {
  import opened PyText

  type Thread = nat
  type FutureId = nat

  /** Where a thread is: outside, reading as leader, leader with the result set, or waiting for a result. */
  datatype Place =
    | Outside
    | Reading(view: string, future: FutureId)
    | Finished(view: string, future: FutureId)
    | Waiting(view: string, future: FutureId)

  /** A future: the thread that made it, and its value once it is set. */
  datatype Future = Future(maker: Thread, value: Option<string>)

  /** Futures are numbered as they are made. */
  datatype State = State(pending: map<string, FutureId>, futures: seq<Future>, threads: map<Thread, Place>)

  datatype Event =
    | Enter(thread: Thread, view: string)
    | SetResult(thread: Thread, outcome: string)  // the value read, or the error raised
    | Pop(thread: Thread)
    | Return(thread: Thread)

  function At(s: State, t: Thread): Place { if t in s.threads then s.threads[t] else Outside }

  function Step(s: State, e: Event): State {
    var p := At(s, e.thread);
    match e
    case Enter(t, v) =>
      if !p.Outside? then s
      else if v in s.pending then s.(threads := s.threads[t := Waiting(v, s.pending[v])])
      else State(s.pending[v := |s.futures|], s.futures + [Future(t, None)], s.threads[t := Reading(v, |s.futures|)])
    case SetResult(t, outcome) =>
      if p.Reading? && p.future < |s.futures|
      then s.(futures := s.futures[p.future := s.futures[p.future].(value := Some(outcome))], threads := s.threads[t := Finished(p.view, p.future)]) else s
    case Pop(t) =>
      if p.Finished? then s.(pending := s.pending - {p.view}, threads := s.threads[t := Waiting(p.view, p.future)]) else s
    case Return(t) =>
      if p.Waiting? && p.future < |s.futures| && s.futures[p.future].value.Some? then s.(threads := s.threads[t := Outside]) else s
  }

  function Run(s: State, events: seq<Event>): State {
    if events == [] then s else Step(Run(s, events[..|events| - 1]), events[|events| - 1])
  }

  const START := State(map[], [], map[])

  /** The shared map, the futures and the callers. */
  class Projection {
    var pending: map<string, FutureId>
    var futures: seq<Future>
    var threads: map<Thread, Place>

    constructor ()
      ensures View() == START
    {
      pending, futures, threads := map[], [], map[];
    }

    function View(): State
      reads this
    {
      State(pending, futures, threads)
    }

    /** The block under the lock that chooses the leader. */
    method EnterView(t: Thread, v: string) returns (leader: bool)
      requires At(View(), t).Outside?
      modifies this
      ensures View() == Step(old(View()), Enter(t, v))
      ensures leader <==> v !in old(pending)
    {
      leader := v !in pending;
      if leader {
        pending := pending[v := |futures|];
        futures := futures + [Future(t, None)];
        threads := threads[t := Reading(v, pending[v])];
      } else {
        threads := threads[t := Waiting(v, pending[v])];
      }
    }

    /** The leader's read ends, with a value or an error. */
    method Complete(t: Thread, outcome: string)
      requires At(View(), t).Reading? && At(View(), t).future < |futures|
      modifies this
      ensures View() == Step(old(View()), SetResult(t, outcome))
    {
      var p := threads[t];
      futures := futures[p.future := futures[p.future].(value := Some(outcome))];
      threads := threads[t := Finished(p.view, p.future)];
    }

    /** The leader's `finally` block. */
    method Remove(t: Thread)
      requires At(View(), t).Finished?
      modifies this
      ensures View() == Step(old(View()), Pop(t))
    {
      var p := threads[t];
      pending := pending - {p.view};
      threads := threads[t := Waiting(p.view, p.future)];
    }
  }

  // --- what every interleaving keeps ---

  predicate Leads(p: Place, v: string, f: FutureId) { p == Reading(v, f) || p == Finished(v, f) }

  /** A leader made its future, which is the pending one of its view and is set exactly when the read has ended. */
  ghost predicate LeaderSound(s: State, t: Thread) {
    var p := At(s, t);
    (p.Reading? || p.Finished?) ==>
      && p.view in s.pending && s.pending[p.view] == p.future && p.future < |s.futures|
      && s.futures[p.future].maker == t && (s.futures[p.future].value.Some? <==> p.Finished?)
  }

  /** The maker of a pending future is still leading its view. */
  ghost predicate EntrySound(s: State, v: string) {
    v in s.pending ==> s.pending[v] < |s.futures| && Leads(At(s, s.futures[s.pending[v]].maker), v, s.pending[v])
  }

  /** A waiting thread waits for a future that is set or whose maker is still reading. */
  ghost predicate WaiterSound(s: State, t: Thread) {
    var p := At(s, t);
    p.Waiting? ==>
      && p.future < |s.futures|
      && (s.futures[p.future].value.Some? || At(s, s.futures[p.future].maker) == Reading(p.view, p.future))
  }

  ghost predicate Inv(s: State) {
    (forall t :: LeaderSound(s, t)) && (forall v :: EntrySound(s, v)) && (forall t :: WaiterSound(s, t))
  }

  lemma LeaderStep(s: State, e: Event, u: Thread)
    requires LeaderSound(s, u) && LeaderSound(s, e.thread)
    ensures LeaderSound(Step(s, e), u)
  {}

  lemma EntryStep(s: State, e: Event, v: string)
    requires EntrySound(s, v) && LeaderSound(s, e.thread)
    ensures EntrySound(Step(s, e), v)
  {}

  lemma WaiterStep(s: State, e: Event, u: Thread)
    requires WaiterSound(s, u) && LeaderSound(s, e.thread)
    requires e.Enter? ==> EntrySound(s, e.view)
    requires e.Enter? && e.view in s.pending && s.pending[e.view] < |s.futures| ==>
      LeaderSound(s, s.futures[s.pending[e.view]].maker)
    ensures WaiterSound(Step(s, e), u)
  {}

  lemma StepKeeps(s: State, e: Event)
    requires Inv(s)
    ensures Inv(Step(s, e))
  {
    hide LeaderSound, EntrySound, WaiterSound, Step;
    forall u ensures LeaderSound(Step(s, e), u) { LeaderStep(s, e, u); }
    forall v ensures EntrySound(Step(s, e), v) { EntryStep(s, e, v); }
    forall u ensures WaiterSound(Step(s, e), u) { WaiterStep(s, e, u); }
  }

  lemma {:induction false} RunKeeps(events: seq<Event>)
    ensures Inv(Run(START, events))
  {
    if events != [] {
      RunKeeps(events[..|events| - 1]);
      StepKeeps(Run(START, events[..|events| - 1]), events[|events| - 1]);
    }
  }

  predicate Leading(p: Place, v: string) { (p.Reading? || p.Finished?) && p.view == v }

  /** A view has at most one leader, so at most one read of it is in flight. */
  lemma OneLeader(events: seq<Event>, v: string, t: Thread, u: Thread)
    requires Leading(At(Run(START, events), t), v) && Leading(At(Run(START, events), u), v)
    ensures t == u
  {
    RunKeeps(events);
    var s := Run(START, events);
    assert LeaderSound(s, t) && LeaderSound(s, u);
  }

  /** A view has a pending entry exactly while a leader of it has not yet removed it. */
  lemma PendingIffLed(events: seq<Event>, v: string)
    ensures var s := Run(START, events);
      v in s.pending <==> exists t :: Leading(At(s, t), v)
  {
    RunKeeps(events);
    var s := Run(START, events);
    if v in s.pending {
      assert EntrySound(s, v);
    }
    if t :| Leading(At(s, t), v) {
      assert LeaderSound(s, t);
    }
  }

  /** No thread is stranded: its result is there, or one step of a reading leader makes it so. */
  lemma NobodyStranded(events: seq<Event>, t: Thread, outcome: string)
    requires At(Run(START, events), t).Waiting?
    ensures var s := Run(START, events);
      || At(Step(s, Return(t)), t) == Outside
      || exists l :: At(Step(Step(s, SetResult(l, outcome)), Return(t)), t) == Outside
  {
    RunKeeps(events);
    var s := Run(START, events);
    var p := At(s, t);
    assert WaiterSound(s, t);
    if s.futures[p.future].value.None? {
      var l := s.futures[p.future].maker;
      assert LeaderSound(s, l);
      var n := Step(s, SetResult(l, outcome));
      assert n.futures[p.future].value == Some(outcome) && At(n, t) == p;
      assert At(Step(n, Return(t)), t) == Outside;
    }
  }

  /** A caller joins a read that has already ended exactly when it comes between the leader's result and its removal. */
  lemma JoinsEndedRead(events: seq<Event>, v: string)
    requires v in Run(START, events).pending
    ensures var s := Run(START, events);
      && s.pending[v] < |s.futures|
      && (s.futures[s.pending[v]].value.Some? <==> exists t :: At(s, t) == Finished(v, s.pending[v]))
  {
    RunKeeps(events);
    var s := Run(START, events);
    assert EntrySound(s, v);
    assert LeaderSound(s, s.futures[s.pending[v]].maker);
    if u :| At(s, u) == Finished(v, s.pending[v]) { assert LeaderSound(s, u); }
  }

  /** And such a caller exists: the second of any two threads, entering after the first has set its result. */
  lemma JoinAfterResult(t: Thread, u: Thread, v: string, outcome: string)
    requires t != u
    ensures var s := Run(START, [Enter(t, v), SetResult(t, outcome), Enter(u, v)]);
      && At(s, u) == Waiting(v, 0) && At(s, t) == Finished(v, 0)
      && s.futures == [Future(t, Some(outcome))] && At(Step(s, Return(u)), u) == Outside
  {
    var a, b, c := Enter(t, v), SetResult(t, outcome), Enter(u, v);
    assert [a, b, c][..2] == [a, b] && [a, b][..1] == [a] && [a][..0] == [];
    assert Run(START, []) == START;
    assert Run(START, [a]) == Step(START, a);
    assert Run(START, [a, b]) == Step(Step(START, a), b);
  }
}
