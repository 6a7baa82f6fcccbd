/**
 * Lifecycle normalisation: two obsolete missions are superseded in one transaction, with one receipt each, and are
 * read-only history from then on.
 */
module Lifecycle {
  import opened PyText

  type Id = string
  datatype Mission = Mission(adapter: string, state: string, runtime: string, digest: string, error: string)
  datatype Process = Process(authority: string, phase: Option<string>, progress: real)
  datatype Driver = Driver(state: string, lease: Option<string>, phase: Option<string>, next: string)

  /** What a receipt says of a mission before or after. */
  datatype Picture = Picture(state: string, runtime: string, authority: string, driver: Option<string>, progress: real,
                             phase: Option<string>)
  datatype Receipt = Receipt(mission: Id, before: Picture, after: Picture, successor: Id, head: string, tree: string, reason: string)

  /** `busy` holds missions with a claimed assignment, a command in flight, an active lease or a running attempt;
      `current` the source identities a mission has proved current. */
  datatype Db = Db(missions: map<Id, Mission>, processes: map<Id, Process>, drivers: map<Id, Driver>, busy: set<Id>,
                   current: set<(Id, string, string)>, receipts: seq<Receipt>)

  datatype Request = Request(first: Id, firstDigest: string, second: Id, secondDigest: string, successor: Id,
                             head: string, tree: string)

  predicate StartsWith(s: string, prefix: string) { |prefix| <= |s| && s[..|prefix|] == prefix }

  const SUPERSEDED := "SUPERSEDED"

  // --- classification and capabilities ---

  function UpperChar(c: char): char {
    if 'a' <= c <= 'z' then ((c as int) - 32) as char else c
  }

  function Upper(s: string): string { seq(|s|, i requires 0 <= i < |s| => UpperChar(s[i])) }

  datatype Class = LegacyHistory | Superseded | CurrentExecutable | CurrentTerminal | CurrentNonexecuting | UnknownClass

  /** `mission_lifecycle_classification` */
  function Classify(m: Mission, p: Option<Process>, d: Option<Driver>): Class {
    var state := Upper(if m.state == "" then "UNKNOWN" else m.state);
    var authority := if p.Some? then p.value.authority else "";
    var driver := if d.Some? then d.value.state else "";
    if StartsWith(m.adapter, "LEGACY_OBSERVATION:") then LegacyHistory
    else if state == SUPERSEDED || StartsWith(Upper(authority), SUPERSEDED) then Superseded
    else if authority in {"EXPLICIT_USER_ACTIVATION", "EXPLICIT_EXACT_DIGEST_ACTIVATION"}
      && driver in {"ACTIVE", "WAITING", "BLOCKED"} then CurrentExecutable
    else if state in {"COMPLETE", "COMPLETED", "STOPPED", "FAILED", "FAIL", "CANCELLED"} then CurrentTerminal
    else if state in {"REGISTERED", "AUTHORIZED", "RUNNING", "WAITING", "BLOCKED", "PAUSED", "CONVERGING"}
    then CurrentNonexecuting
    else UnknownClass
  }

  /** What each class means; the conditions of one line shut out those of the lines after it. */
  lemma ClassesMean(m: Mission, p: Option<Process>, d: Option<Driver>)
    ensures var c := Classify(m, p, d);
      var state := Upper(m.state);
      var legacy := "LEGACY_OBSERVATION:" <= m.adapter;
      var gone := state == "SUPERSEDED" || (p.Some? && "SUPERSEDED" <= Upper(p.value.authority));
      var running := p.Some? && p.value.authority in {"EXPLICIT_USER_ACTIVATION", "EXPLICIT_EXACT_DIGEST_ACTIVATION"}
        && d.Some? && d.value.state in {"ACTIVE", "WAITING", "BLOCKED"};
      var ended := state in {"COMPLETE", "COMPLETED", "STOPPED", "FAILED", "FAIL", "CANCELLED"};
      var listed := state in {"REGISTERED", "AUTHORIZED", "RUNNING", "WAITING", "BLOCKED", "PAUSED", "CONVERGING"};
      && (c == LegacyHistory <==> legacy)
      && (c == Superseded <==> !legacy && gone)
      && (c == CurrentExecutable <==> !legacy && !gone && running)
      && (c == CurrentTerminal <==> !legacy && !gone && !running && ended)
      && (c == CurrentNonexecuting <==> !legacy && !gone && !running && !ended && listed)
      && (c == UnknownClass <==> !legacy && !gone && !running && !ended && !listed)
  {
    var u := "UNKNOWN";
    if m.state == "" {
      assert Upper(u)[0] == 'U' && |Upper(u)| == 7;
      assert Upper("") == "";
    }
    assert p.None? ==> Upper("") == "";
  }

  /** Upper case by code points: the small letters move down by 32 and nothing else moves. */
  lemma UpperCodes(c: char)
    ensures UpperChar(c) as int == if 97 <= c as int <= 122 then c as int - 32 else c as int
  {
  }

  predicate Historical(c: Class) { c == LegacyHistory || c == Superseded }

  datatype Action = Refresh | Audit | Validate | Restart | Pause | Resume | Stop | StartComponent | AddComponent | Redesign
                  | ActivateRevision | Rollback
  datatype Support = Supported | Denied | Bounded | DriverControl | AdapterRequired | Draft | DigestRequired | PlanOnly

  const EPOCH3 := "EPOCH3-CLOSURE-DOCS-FEDERATION-GITHUB-R1"

  /** `capabilities` */
  function Capability(c: Class, adapter: string, id: Id, current: Id, rebound: string, a: Action): Support {
    if a in {Refresh, Audit, Validate} then Supported
    else if Historical(c) then Denied
    else
      match a
      case Restart =>
        if (id == current && adapter == "MISSION64_K3S") || id == EPOCH3 || adapter == rebound then Bounded else AdapterRequired
      case StartComponent => if adapter == rebound then Bounded else AdapterRequired
      case Pause => if adapter == rebound then DriverControl else AdapterRequired
      case Resume => if adapter == rebound then DriverControl else AdapterRequired
      case Stop => if adapter == rebound then DriverControl else AdapterRequired
      case ActivateRevision => DigestRequired
      case Rollback => PlanOnly
      case _ => Draft
  }

  /** Which operations act on a mission at all, and which need a revision first. */
  lemma ActsExactly(c: Class, adapter: string, id: Id, current: Id, rebound: string, a: Action)
    ensures var s := Capability(c, adapter, id, current, rebound, a);
      var past := c in {LegacyHistory, Superseded};
      var own := id == "EPOCH3-CLOSURE-DOCS-FEDERATION-GITHUB-R1" || (id == current && adapter == "MISSION64_K3S");
      && (s == Supported <==> a in {Refresh, Audit, Validate})
      && (s == Bounded <==> !past && ((a in {Restart, StartComponent} && adapter == rebound) || (a == Restart && own)))
      && (s == DriverControl <==> !past && a in {Pause, Resume, Stop} && adapter == rebound)
      && (s == Denied <==> past && a !in {Refresh, Audit, Validate})
      && (s == Draft <==> !past && a in {AddComponent, Redesign})
      && (s == DigestRequired <==> !past && a == ActivateRevision)
      && (s == PlanOnly <==> !past && a == Rollback)
  {
  }

  function ClassOf(db: Db, id: Id): Class
    requires id in db.missions
  {
    Classify(db.missions[id], if id in db.processes then Some(db.processes[id]) else None,
             if id in db.drivers then Some(db.drivers[id]) else None)
  }

  // --- normalisation ---

  predicate Settled(db: Db, id: Id, digest: string) {
    id in db.missions && db.missions[id].digest == digest && id !in db.busy && id in db.processes
  }

  predicate SuccessorComplete(db: Db, r: Request) {
    && r.successor in db.missions && db.missions[r.successor].state == "COMPLETE"
    && db.missions[r.successor].runtime == "DRIVER_COMPLETE"
    && r.successor in db.drivers && db.drivers[r.successor].state == "COMPLETE"
    && (r.successor, r.head, r.tree) in db.current
  }

  predicate Checked(db: Db, r: Request) {
    && SuccessorComplete(db, r) && Settled(db, r.first, r.firstDigest) && Settled(db, r.second, r.secondDigest)
    && r.first in db.drivers && db.drivers[r.first].state in {"STOPPED", SUPERSEDED} && r.second !in db.drivers
  }

  /** The targets are superseded already. */
  ghost predicate Already(db: Db, r: Request) {
    && Checked(db, r)
    && (forall id | id in {r.first, r.second} ::
        db.missions[id].state == "SUPERSEDED" && "SUPERSEDED" <= db.processes[id].authority)
    && db.drivers[r.first].state == "SUPERSEDED"
  }

  datatype Outcome = Committed | AlreadyNormalised | Refused

  /** The state in which the two targets are superseded. */
  predicate Due(db: Db, r: Request) {
    && Checked(db, r) && db.missions[r.first].state == "WAITING" && db.drivers[r.first].state == "STOPPED"
    && db.processes[r.second].authority == "SUPERSEDED_BY_EXACT_LPCL" && db.missions[r.second].state == "RUNNING"
  }

  function PictureOf(db: Db, id: Id): Picture
    requires id in db.missions && id in db.processes
  {
    Picture(db.missions[id].state, db.missions[id].runtime, db.processes[id].authority,
            if id in db.drivers then Some(db.drivers[id].state) else None, db.processes[id].progress, db.processes[id].phase)
  }

  /** The tables after the targets are superseded; receipts apart. */
  function Tables(db: Db, r: Request): Db
    requires Due(db, r)
  {
    db.(missions := db.missions[r.first := db.missions[r.first].(state := SUPERSEDED, runtime := "SUPERSEDED_BY:" + r.successor)]
                               [r.second := db.missions[r.second].(state := SUPERSEDED, runtime := "HISTORICAL_SUPERSEDED")],
        processes := db.processes[r.first := db.processes[r.first].(authority := "SUPERSEDED_BY_CURRENT_CONTROL_PLANE", phase := None)]
                                 [r.second := db.processes[r.second].(phase := None)],
        drivers := db.drivers[r.first := Driver(SUPERSEDED, None, None, "NONE_SUPERSEDED")])
  }

  const FIXED_POINT := "NEWER_CANONICAL_CONTROL_PLANE_FIXED_POINT"
  const ABSENT := "PROCESS_AUTHORITY_ALREADY_SUPERSEDED_AND_DRIVER_ABSENT"

  function Normalised(db: Db, r: Request): Db
    requires Due(db, r)
  {
    var t := Tables(db, r);
    t.(receipts := db.receipts
      + [Receipt(r.first, PictureOf(db, r.first), PictureOf(t, r.first), r.successor, r.head, r.tree, FIXED_POINT)]
      + [Receipt(r.second, PictureOf(db, r.second), PictureOf(t, r.second), r.successor, r.head, r.tree, ABSENT)])
  }

  class Store {
    var db: Db
    const reliable: bool  // whether every statement succeeds; otherwise each may fail

    constructor (db: Db, reliable: bool)
      ensures this.db == db && this.reliable == reliable
    {
      this.db, this.reliable := db, reliable;
    }

    method Statement() returns (ok: bool)
      ensures reliable ==> ok
    {
      var fault: bool := *;
      ok := reliable || !fault;
    }

    method Supersede(r: Request) returns (ok: bool)
      requires Due(db, r) && r.first != r.second
      modifies this
      ensures ok ==> db == Normalised(old(db), r)
      ensures reliable ==> ok
    {
      var before1, before2 := PictureOf(db, r.first), PictureOf(db, r.second);
      ok := Statement();
      if !ok { return; }
      var m := db.missions[r.first];
      db := db.(missions := db.missions[r.first := m.(state := SUPERSEDED, runtime := "SUPERSEDED_BY:" + r.successor)]);
      var p := db.processes[r.first];
      db := db.(processes := db.processes[r.first := p.(authority := "SUPERSEDED_BY_CURRENT_CONTROL_PLANE", phase := None)]);
      db := db.(drivers := db.drivers[r.first := Driver(SUPERSEDED, None, None, "NONE_SUPERSEDED")]);
      ok := Statement();
      if !ok { return; }
      db := db.(receipts := db.receipts + [Receipt(r.first, before1, PictureOf(db, r.first), r.successor, r.head, r.tree, FIXED_POINT)]);
      m := db.missions[r.second];
      db := db.(missions := db.missions[r.second := m.(state := SUPERSEDED, runtime := "HISTORICAL_SUPERSEDED")]);
      p := db.processes[r.second];
      db := db.(processes := db.processes[r.second := p.(phase := None)]);
      ok := Statement();
      if !ok { return; }
      db := db.(receipts := db.receipts + [Receipt(r.second, before2, PictureOf(db, r.second), r.successor, r.head, r.tree, ABSENT)]);
    }

    /** The checks of one target: there, unchanged, and nothing of it in flight. */
    method TargetClear(id: Id, digest: string) returns (ok: bool)
      ensures ok <==> id in db.missions && db.missions[id].digest == digest && id !in db.busy
    {
      ok := id in db.missions && db.missions[id].digest == digest;
      if id in db.busy { ok := false; }
    }

    /** `normalize_epoch3_terminal_lifecycle` */
    method Normalise(r: Request) returns (outcome: Outcome)
      modifies this
      ensures outcome.Committed? ==> Due(old(db), r) && db == Normalised(old(db), r)
      ensures !outcome.Committed? ==> db == old(db)
      ensures outcome.AlreadyNormalised? ==> Already(db, r)
      ensures reliable ==> (outcome.Committed? <==> Due(old(db), r)) && (outcome.AlreadyNormalised? <==> Already(old(db), r))
    {
      outcome := Refused;
      var ok := Statement();
      if !ok { return; }
      if r.successor !in db.missions { return; }
      var s := db.missions[r.successor];
      if s.state != "COMPLETE" || s.runtime != "DRIVER_COMPLETE" { return; }
      if r.successor !in db.drivers || db.drivers[r.successor].state != "COMPLETE" { return; }
      if (r.successor, r.head, r.tree) !in db.current { return; }
      ok := TargetClear(r.first, r.firstDigest);
      if !ok { return; }
      ok := TargetClear(r.second, r.secondDigest);
      if !ok { return; }
      if r.first !in db.drivers || db.drivers[r.first].state !in {"STOPPED", SUPERSEDED} { return; }
      if r.second in db.drivers { return; }
      if r.first !in db.processes || r.second !in db.processes { return; }
      var m1, m2, p1, p2 := db.missions[r.first], db.missions[r.second], db.processes[r.first], db.processes[r.second];
      if m1.state == SUPERSEDED && StartsWith(p1.authority, SUPERSEDED) && db.drivers[r.first].state == SUPERSEDED
        && m2.state == SUPERSEDED && StartsWith(p2.authority, SUPERSEDED)
      {
        StatesDiffer();
        return AlreadyNormalised;
      }
      if m1.state != "WAITING" || db.drivers[r.first].state != "STOPPED" { return; }
      if p2.authority != "SUPERSEDED_BY_EXACT_LPCL" || m2.state != "RUNNING" { return; }
      var saved := db;
      ok := Supersede(r);
      if !ok { db := saved; return; }
      ok := Statement();
      if !ok { db := saved; return; }
      outcome := Committed;
    }
  }

  lemma StatesDiffer()
    ensures "WAITING" != SUPERSEDED && "RUNNING" != SUPERSEDED
  {
    assert "WAITING"[0] != SUPERSEDED[0] && "RUNNING"[0] != SUPERSEDED[0];
  }

  /** What the two receipts of a normalisation say. */
  lemma ReceiptsTell(db: Db, r: Request)
    requires Due(db, r) && r.first != r.second
    ensures var n, rs := |db.receipts|, Normalised(db, r).receipts;
      && |rs| == n + 2 && rs[..n] == db.receipts
      && rs[n].mission == r.first && rs[n + 1].mission == r.second
      && (forall i | n <= i < n + 2 :: rs[i].successor == r.successor && rs[i].head == r.head && rs[i].tree == r.tree)
      && rs[n].before == Picture("WAITING", db.missions[r.first].runtime, db.processes[r.first].authority, Some("STOPPED"),
                                 db.processes[r.first].progress, db.processes[r.first].phase)
      && rs[n].after == Picture("SUPERSEDED", "SUPERSEDED_BY:" + r.successor, "SUPERSEDED_BY_CURRENT_CONTROL_PLANE",
                                Some("SUPERSEDED"), db.processes[r.first].progress, None)
      && rs[n + 1].before == Picture("RUNNING", db.missions[r.second].runtime, "SUPERSEDED_BY_EXACT_LPCL", None,
                                     db.processes[r.second].progress, db.processes[r.second].phase)
      && rs[n + 1].after == Picture("SUPERSEDED", "HISTORICAL_SUPERSEDED", "SUPERSEDED_BY_EXACT_LPCL", None,
                                    db.processes[r.second].progress, None)
  {}

  // --- what is so in every run ---

  /** One call, whatever becomes of it: nothing changes, or a due request is carried out. */
  /** A request that was carried out is due no more; the same request again finds its work done. */
  lemma RepeatIsAlready(db: Db, r: Request)
    requires Due(db, r)
    ensures Already(Normalised(db, r), r) && !Due(Normalised(db, r), r)
  {
    StatesDiffer();
    assert r.first != r.second && r.successor != r.first && r.successor != r.second by {
      assert "WAITING"[0] != "RUNNING"[0] && "WAITING"[0] != "COMPLETE"[0] && "RUNNING"[0] != "COMPLETE"[0];
    }
    assert SUPERSEDED <= "SUPERSEDED_BY_CURRENT_CONTROL_PLANE" && SUPERSEDED <= "SUPERSEDED_BY_EXACT_LPCL";
  }

  datatype Call = Call(request: Request, committed: bool)

  function Step(db: Db, c: Call): Db {
    if c.committed && Due(db, c.request) then Normalised(db, c.request) else db
  }

  function Run(db: Db, calls: seq<Call>): Db {
    if calls == [] then db else Step(Run(db, calls[..|calls| - 1]), calls[|calls| - 1])
  }

  function Count(receipts: seq<Receipt>, id: Id): nat {
    if receipts == [] then 0 else Count(receipts[..|receipts| - 1], id) + if receipts[|receipts| - 1].mission == id then 1 else 0
  }

  /** A mission has a receipt only once it is superseded, and then one. */
  ghost predicate Inv(db: Db) { forall id :: InvFor(db, id) }

  ghost predicate InvFor(db: Db, id: Id) {
    Count(db.receipts, id) <= 1 && (Count(db.receipts, id) == 1 ==> Gone(db, id))
  }

  predicate Gone(db: Db, id: Id) { id in db.missions && db.missions[id].state == SUPERSEDED }

  lemma {:induction false} CountPlaces(receipts: seq<Receipt>, i: nat, j: nat)
    requires i < j < |receipts| && receipts[i].mission == receipts[j].mission
    ensures Count(receipts, receipts[i].mission) >= 2
  {
    var n := |receipts| - 1;
    if j < n { CountPlaces(receipts[..n], i, j); } else { CountPlace(receipts[..n], i); }
  }

  lemma {:induction false} CountPlace(receipts: seq<Receipt>, i: nat)
    requires i < |receipts|
    ensures Count(receipts, receipts[i].mission) >= 1
  {
    var n := |receipts| - 1;
    if i < n { CountPlace(receipts[..n], i); }
  }

  /** In every run from a database without receipts no two receipts are of one mission, and each mission that has one is
      superseded. */
  lemma OneReceiptEach(db: Db, calls: seq<Call>)
    requires db.receipts == []
    ensures var end := Run(db, calls);
      && (forall i, j | 0 <= i < j < |end.receipts| :: end.receipts[i].mission != end.receipts[j].mission)
      && forall i | 0 <= i < |end.receipts| :: Gone(end, end.receipts[i].mission)
  {
    hide Run, Gone;
    assert Inv(db);
    RunKeeps(db, calls);
    var end := Run(db, calls);
    forall i, j | 0 <= i < j < |end.receipts| ensures end.receipts[i].mission != end.receipts[j].mission {
      assert InvFor(end, end.receipts[i].mission);
      if end.receipts[i].mission == end.receipts[j].mission { CountPlaces(end.receipts, i, j); }
    }
    forall i | 0 <= i < |end.receipts| ensures Gone(end, end.receipts[i].mission) {
      assert InvFor(end, end.receipts[i].mission);
      CountPlace(end.receipts, i);
    }
  }

  lemma CountNext(receipts: seq<Receipt>, r: Receipt, id: Id)
    ensures Count(receipts + [r], id) == Count(receipts, id) + if r.mission == id then 1 else 0
  {
    assert (receipts + [r])[..|receipts|] == receipts;
  }

  /** A normalisation adds one receipt for each of the two targets and touches no other mission. */
  lemma AddsTwoReceipts(db: Db, r: Request, id: Id)
    requires Due(db, r)
    ensures r.first != r.second
    ensures Count(Normalised(db, r).receipts, id) == Count(db.receipts, id) + if id == r.first || id == r.second then 1 else 0
    ensures id != r.first && id != r.second && id in db.missions ==>
      id in Normalised(db, r).missions && Normalised(db, r).missions[id] == db.missions[id]
  {
    var t := Tables(db, r);
    var a := Receipt(r.first, PictureOf(db, r.first), PictureOf(t, r.first), r.successor, r.head, r.tree, FIXED_POINT);
    var b := Receipt(r.second, PictureOf(db, r.second), PictureOf(t, r.second), r.successor, r.head, r.tree, ABSENT);
    CountNext(db.receipts, a, id);
    CountNext(db.receipts + [a], b, id);
  }

  lemma Closes(db: Db, r: Request)
    requires Due(db, r)
    ensures Gone(Normalised(db, r), r.first) && Gone(Normalised(db, r), r.second)
    ensures !Gone(db, r.first) && !Gone(db, r.second)
  {
    assert "WAITING"[0] != SUPERSEDED[0] && "RUNNING"[0] != SUPERSEDED[0];
  }

  lemma StepKeepsFor(db: Db, c: Call, id: Id)
    requires InvFor(db, id)
    ensures InvFor(Step(db, c), id) && (Gone(db, id) ==> Gone(Step(db, c), id))
  {
    if c.committed && Due(db, c.request) {
      hide Normalised, Due, Count;
      Closes(db, c.request);
      AddsTwoReceipts(db, c.request, id);
    }
  }

  lemma StepKeeps(db: Db, c: Call)
    requires Inv(db)
    ensures Inv(Step(db, c)) && forall id | Gone(db, id) :: Gone(Step(db, c), id)
  {
    hide Step, InvFor, Gone;
    forall id ensures InvFor(Step(db, c), id) && (Gone(db, id) ==> Gone(Step(db, c), id)) { StepKeepsFor(db, c, id); }
  }

  /** In every run of calls, with any arguments, a mission is normalised at most once. */
  lemma {:induction false} RunKeeps(db: Db, calls: seq<Call>)
    requires Inv(db)
    ensures Inv(Run(db, calls)) && forall id | Gone(db, id) :: Gone(Run(db, calls), id)
  {
    if calls != [] {
      RunKeeps(db, calls[..|calls| - 1]);
      StepKeeps(Run(db, calls[..|calls| - 1]), calls[|calls| - 1]);
    }
  }

  /** A request that names a superseded mission changes nothing. */
  lemma SupersededNotDue(db: Db, r: Request)
    requires Gone(db, r.first) || Gone(db, r.second)
    ensures !Due(db, r)
  {
    assert "WAITING"[0] != SUPERSEDED[0] && "RUNNING"[0] != SUPERSEDED[0];
  }

  ghost predicate Names(c: Call, r: Request) {
    c.request.first in {r.first, r.second} || c.request.second in {r.first, r.second}
  }

  /** After a normalisation, any number of calls that name one of its targets leave the whole database as it is. */
  lemma {:induction false} LaterCallsChangeNothing(db: Db, r: Request, calls: seq<Call>)
    requires Due(db, r) && forall c | c in calls :: Names(c, r)
    ensures Run(Normalised(db, r), calls) == Normalised(db, r)
  {
    hide Normalised;
    if calls != [] {
      var rest, c := calls[..|calls| - 1], calls[|calls| - 1];
      assert forall x | x in rest :: x in calls;
      LaterCallsChangeNothing(db, r, rest);
      assert c in calls;
      Closes(db, r);
      SupersededNotDue(Normalised(db, r), c.request);
    }
  }

  lemma UpperSuperseded()
    ensures Upper(SUPERSEDED) == SUPERSEDED
  {
    forall i | 0 <= i < |SUPERSEDED| ensures UpperChar(SUPERSEDED[i]) == SUPERSEDED[i] {}
  }

  /** A superseded mission is history: everything but refresh, audit and validate is denied. */
  lemma SupersededIsReadOnly(db: Db, id: Id, current: Id, rebound: string, a: Action)
    requires Gone(db, id)
    ensures Historical(ClassOf(db, id))
    ensures Capability(ClassOf(db, id), db.missions[id].adapter, id, current, rebound, a)
      == if a in {Refresh, Audit, Validate} then Supported else Denied
  {
    UpperSuperseded();
  }

  /** Both targets are read-only history after a normalisation and after whatever calls follow. */
  lemma TargetsStayReadOnly(db: Db, r: Request, calls: seq<Call>, id: Id, current: Id, rebound: string, a: Action)
    requires Inv(db) && Due(db, r) && (id == r.first || id == r.second)
    ensures var end := Run(Normalised(db, r), calls);
      && id in end.missions && Historical(ClassOf(end, id))
      && Capability(ClassOf(end, id), end.missions[id].adapter, id, current, rebound, a)
        == (if a in {Refresh, Audit, Validate} then Supported else Denied)
  {
    hide Due, Normalised, Capability, Classify;
    Closes(db, r);
    StepKeeps(db, Call(r, true));
    RunKeeps(Normalised(db, r), calls);
    SupersededIsReadOnly(Run(Normalised(db, r), calls), id, current, rebound, a);
  }
}
