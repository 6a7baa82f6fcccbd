/**
 * The mailbox of a material drone: tasks may be redelivered and the worker may crash and restart between any two
 * steps; a file of seen task ids, one per line, is to keep each task from running twice.
 */
module Mailbox {
  import opened PyText

  // --- the seen file ---

  /** The characters at which `str.splitlines` breaks lines. */
  predicate IsBreak(c: char) {
    c in {'\n', '\r', '\U{000B}', '\U{000C}', '\U{001C}', '\U{001D}', '\U{001E}', '\U{0085}', '\U{2028}', '\U{2029}'}
  }

  /** Line feed to carriage return, the three information separators, next line, and the two Unicode separators. */
  lemma BreakCodes(c: char)
    ensures IsBreak(c) <==> (c as int) in {10, 11, 12, 13, 28, 29, 30, 133, 8232, 8233}
  {
    assert (c as int) == 133 ==> c == 133 as char;
  }

  predicate BreakFree(s: string) { forall c | c in s :: !IsBreak(c) }

  function After(s: string, i: nat): nat
    requires i < |s|
  {
    if s[i] == '\r' && i + 1 < |s| && s[i + 1] == '\n' then i + 2 else i + 1
  }

  /** The lines from a line start, scanning on from `i`; newline translation on reading changes none of them. */
  function LinesFrom(s: string, start: nat, i: nat): seq<string>
    requires start <= i <= |s|
    decreases |s| - i
  {
    if i == |s| then (if start == i then [] else [s[start..]])
    else if IsBreak(s[i]) then [s[start..i]] + LinesFrom(s, After(s, i), After(s, i))
    else LinesFrom(s, start, i + 1)
  }

  function Lines(s: string): seq<string> { LinesFrom(s, 0, 0) }

  lemma {:induction false} LinesBreakFree(s: string, start: nat, i: nat)
    requires start <= i <= |s| && forall k | start <= k < i :: !IsBreak(s[k])
    ensures forall l | l in LinesFrom(s, start, i) :: BreakFree(l)
    decreases |s| - i
  {
    if i < |s| {
      if IsBreak(s[i]) { LinesBreakFree(s, After(s, i), After(s, i)); } else { LinesBreakFree(s, start, i + 1); }
    }
  }

  lemma {:induction false} LinesShift(a: string, b: string, start: nat, i: nat)
    requires start <= i <= |b|
    ensures LinesFrom(a + b, |a| + start, |a| + i) == LinesFrom(b, start, i)
    decreases |b| - i
  {
    var s := a + b;
    if i == |b| {
      assert s[|a| + start..] == b[start..];
    } else if IsBreak(b[i]) {
      assert s[|a| + i] == b[i] && s[|a| + start..|a| + i] == b[start..i];
      assert After(s, |a| + i) == |a| + After(b, i);
      LinesShift(a, b, After(b, i), After(b, i));
    } else {
      assert s[|a| + i] == b[i];
      LinesShift(a, b, start, i + 1);
    }
  }

  /** A line ends at its first break; a carriage return and the line feed behind it are one break, any other is its own. */
  lemma {:induction false} LinesUnfold(line: string, end: string, rest: string)
    requires BreakFree(line)
    requires end == "\r\n" || (|end| == 1 && IsBreak(end[0]) && !(end == "\r" && "\n" <= rest))
    ensures Lines(line + end + rest) == [line] + Lines(rest)
    ensures Lines(line) == if line == "" then [] else [line]
  {
    ScanLine(line, end + rest, 0);
    ScanLine(line, "", 0);
    assert line + (end + rest) == line + end + rest && line + "" == line;
    var s, n := line + end + rest, |line| + |end|;
    assert s[|line|] == end[0] && s[..|line|] == line;
    assert After(s, |line|) == n by {
      if end == "\r\n" { assert s[|line| + 1] == '\n'; }
      if |end| == 1 && rest != "" { assert s[n] == rest[0]; }
    }
    LinesShift(line + end, rest, 0, 0);
  }

  lemma {:induction false} ScanLine(line: string, more: string, i: nat)
    requires BreakFree(line) && i <= |line|
    ensures LinesFrom(line + more, 0, i) == LinesFrom(line + more, 0, |line|)
    decreases |line| - i
  {
    if i < |line| {
      assert (line + more)[i] == line[i] && line[i] in line;
      ScanLine(line, more, i + 1);
    }
  }

  /** The file is empty or its last line is ended. */
  predicate Ended(s: string) { s == "" || s[|s| - 1] == '\n' }

  lemma {:induction false} LinesSplit(a: string, b: string, start: nat, i: nat)
    requires Ended(a) && start <= i <= |a| && (i == |a| ==> start == i)
    ensures LinesFrom(a + b, start, i) == LinesFrom(a, start, i) + Lines(b)
    decreases |a| - i
  {
    var s := a + b;
    if i == |a| {
      LinesShift(a, b, 0, 0);
    } else if IsBreak(a[i]) {
      assert s[i] == a[i] && s[start..i] == a[start..i];
      assert After(s, i) == After(a, i) by { if i + 1 < |a| { assert s[i + 1] == a[i + 1]; } }
      LinesSplit(a, b, After(a, i), After(a, i));
    } else {
      assert s[i] == a[i] && i + 1 < |a|;
      LinesSplit(a, b, start, i + 1);
    }
  }

  lemma {:induction false} OneLine(t: string, i: nat)
    requires BreakFree(t) && i <= |t|
    ensures LinesFrom(t + "\n", 0, i) == [t]
    decreases |t| - i
  {
    var s := t + "\n";
    if i == |t| {
      assert s[..i] == t && After(s, i) == |s|;
      assert LinesFrom(s, |s|, |s|) == [];
    } else {
      assert s[i] == t[i] && t[i] in t;
      OneLine(t, i + 1);
    }
  }

  /** Appending an id keeps every line there was and adds the id exactly when it holds no line break. */
  lemma AppendedLines(file: string, id: string)
    requires Ended(file)
    ensures Lines(file + (id + "\n")) == Lines(file) + Lines(id + "\n") && Ended(file + (id + "\n"))
    ensures BreakFree(id) ==> Lines(id + "\n") == [id]
    ensures !BreakFree(id) ==> id !in Lines(file + (id + "\n"))
  {
    LinesSplit(file, id + "\n", 0, 0);
    if BreakFree(id) {
      OneLine(id, 0);
    } else {
      LinesBreakFree(file + (id + "\n"), 0, 0);
    }
  }

  // --- the worker ---

  datatype Control =
    | Down
    | Idle(seen: set<string>)
    | Noted(seen: set<string>, id: string)     // added to the set in memory, not yet to the file
    | Recorded(seen: set<string>, id: string)  // appended to the file, not yet executed

  datatype State = State(control: Control, file: string, runs: seq<string>)

  datatype Event =
    | Start            // a new process reads the seen file
    | Crash
    | Take(id: string) // any task file, new or delivered again
    | AppendFails
    | Append
    | Execute

  function Ids(file: string): set<string> { set l | l in Lines(file) }

  function Step(s: State, e: Event): State {
    match e
    case Start => if s.control.Down? then s.(control := Idle(Ids(s.file))) else s
    case Crash => s.(control := Down)
    case Take(id) =>
      if s.control.Idle? && id !in s.control.seen then s.(control := Noted(s.control.seen + {id}, id)) else s
    case AppendFails => if s.control.Noted? then s.(control := Idle(s.control.seen)) else s
    case Append =>
      if s.control.Noted?
      then s.(control := Recorded(s.control.seen, s.control.id), file := s.file + (s.control.id + "\n")) else s
    case Execute =>
      if s.control.Recorded? then s.(control := Idle(s.control.seen), runs := s.runs + [s.control.id]) else s
  }

  function Run(s: State, events: seq<Event>): State {
    if events == [] then s else Step(Run(s, events[..|events| - 1]), events[|events| - 1])
  }

  const START := State(Down, "", [])

  function Count(runs: seq<string>, id: string): nat {
    if runs == [] then 0 else Count(runs[..|runs| - 1], id) + if runs[|runs| - 1] == id then 1 else 0
  }

  /** The steps of one turn over a task: it is taken, and then refused, or noted and recorded and run as far as it goes. */
  ghost predicate Turn(trace: seq<Event>, id: string) {
    || trace == [Take(id)] || trace == [Take(id), Crash] || trace == [Take(id), AppendFails]
    || trace == [Take(id), Append, Crash] || trace == [Take(id), Append, Execute]
  }

  /** The worker process, its seen file and the tasks it has run. */
  class Drone {
    var seen: set<string>
    var file: string
    var runs: seq<string>
    var up: bool
    const steady: bool  // whether no turn crashes and no append fails; otherwise each may

    constructor (steady: bool)
      ensures View() == START && this.steady == steady
    {
      seen, file, runs, up, this.steady := {}, "", [], false, steady;
    }

    function View(): State
      reads this
    {
      State(if up then Idle(seen) else Down, file, runs)
    }

    method Boot()
      modifies this
      ensures View() == Step(Step(old(View()), Crash), Start)
    {
      up, seen := true, Ids(file);
    }

    /** One turn of the main loop over a task; the process may die after any step, and the append may fail. */
    method Handle(id: string) returns (ghost trace: seq<Event>)
      requires up
      modifies this
      ensures View() == Run(old(View()), trace) && Turn(trace, id)
      ensures |trace| == 1 <==> id in old(seen)
      ensures steady && id !in old(seen) ==> trace == [Take(id), Append, Execute]
    {
      trace := [Take(id)];
      Unfold(View(), [], Take(id));
      if id in seen { return; }
      seen := seen + {id};
      var die: bool := *;
      if die && !steady {
        Unfold(old(View()), trace, Crash);
        trace := trace + [Crash];
        up := false;
        return;
      }
      var fails: bool := *;
      if fails && !steady {
        Unfold(old(View()), trace, AppendFails);
        trace := trace + [AppendFails];
        return;
      }
      file := file + (id + "\n");
      Unfold(old(View()), trace, Append);
      trace := trace + [Append];
      die := *;
      if die && !steady {
        Unfold(old(View()), trace, Crash);
        trace := trace + [Crash];
        up := false;
        return;
      }
      runs := runs + [id];
      Unfold(old(View()), trace, Execute);
      trace := trace + [Execute];
    }
  }

  lemma Unfold(s: State, events: seq<Event>, e: Event)
    ensures Run(s, events + [e]) == Step(Run(s, events), e)
    ensures Run(s, []) == s
    ensures [] + [e] == [e]
  {
    assert (events + [e])[..|events|] == events;
  }

  // --- at most once ---

  predicate Up(s: State) { !s.control.Down? }

  /** What holds of one break-free id: once recorded it stays recorded, in the file and in memory. */
  ghost predicate Inv(s: State, id: string) {
    && Ended(s.file)
    && (s.control.Noted? || s.control.Recorded? ==> s.control.id in s.control.seen)
    && (s.control.Noted? && s.control.id == id ==> Count(s.runs, id) == 0)
    && (s.control.Recorded? && s.control.id == id ==> id in Lines(s.file) && Count(s.runs, id) == 0)
    && (Count(s.runs, id) > 0 ==> id in Lines(s.file) && (Up(s) ==> id in s.control.seen))
    && Count(s.runs, id) <= 1
  }

  lemma CountNext(runs: seq<string>, x: string, id: string)
    ensures Count(runs + [x], id) == Count(runs, id) + if x == id then 1 else 0
  {
    assert (runs + [x])[..|runs|] == runs;
  }

  lemma AppendKeeps(s: State, id: string)
    requires Inv(s, id) && BreakFree(id) && s.control.Noted?
    ensures Inv(Step(s, Append), id)
  {
    hide Lines, Count, BreakFree, Ended;
    AppendedLines(s.file, s.control.id);
  }

  lemma StepKeeps(s: State, e: Event, id: string)
    requires Inv(s, id) && BreakFree(id)
    ensures Inv(Step(s, e), id)
  {
    hide Lines, Count, BreakFree, Ended;
    match e
    case Append => if s.control.Noted? { AppendKeeps(s, id); }
    case Execute => if s.control.Recorded? { CountNext(s.runs, s.control.id, id); }
    case _ =>
  }

  lemma {:induction false} RunKeeps(events: seq<Event>, id: string)
    requires BreakFree(id)
    ensures Inv(Run(START, events), id)
  {
    if events != [] {
      RunKeeps(events[..|events| - 1], id);
      StepKeeps(Run(START, events[..|events| - 1]), events[|events| - 1], id);
    }
  }

  /** In every run of crashes, restarts and redeliveries, a task id without a line break is executed at most once. */
  lemma AtMostOnce(events: seq<Event>, id: string)
    requires BreakFree(id)
    ensures Count(Run(START, events).runs, id) <= 1
  {
    RunKeeps(events, id);
  }

  function Attempt(s: State, id: string): State {
    Step(Step(Step(Step(Step(s, Crash), Start), Take(id)), Append), Execute)
  }

  function AttemptEvents(id: string): seq<Event> { [Crash, Start, Take(id), Append, Execute] }

  lemma AttemptRuns(s: State, before: seq<Event>, id: string)
    requires Run(START, before) == s
    ensures Run(START, before + AttemptEvents(id)) == Attempt(s, id)
  {
    hide Step, Run;
    var b1 := before + [Crash];
    var b2 := b1 + [Start];
    var b3 := b2 + [Take(id)];
    var b4 := b3 + [Append];
    Unfold(START, before, Crash);
    Unfold(START, b1, Start);
    Unfold(START, b2, Take(id));
    Unfold(START, b3, Append);
    Unfold(START, b4, Execute);
    assert before + AttemptEvents(id) == b4 + [Execute];
  }

  lemma AttemptExecutes(s: State, id: string)
    requires Ended(s.file) && !BreakFree(id) && id !in Lines(s.file)
    ensures Attempt(s, id).runs == s.runs + [id] && Attempt(s, id).file == s.file + (id + "\n")
    ensures Ended(Attempt(s, id).file) && id !in Lines(Attempt(s, id).file)
  {
    hide Lines;
    AppendedLines(s.file, id);
  }

  /** An id that holds a line break is forgotten by a restart: it runs again when it is delivered again. */
  lemma BreakRunsTwice(id: string) returns (events: seq<Event>)
    requires !BreakFree(id)
    ensures Count(Run(START, events).runs, id) == 2
  {
    hide Lines, Attempt, AttemptEvents, Count, BreakFree;
    var none: seq<Event> := [];
    NoLines();
    AttemptExecutes(START, id);
    var once := Attempt(START, id);
    AttemptRuns(START, none, id);
    AttemptExecutes(once, id);
    AttemptRuns(once, none + AttemptEvents(id), id);
    events := none + AttemptEvents(id) + AttemptEvents(id);
    assert START.runs + [id] + [id] == [] + [id] + [id];
    CountNext([], id, id);
    CountNext([] + [id], id, id);
    NoRuns(id);
  }

  lemma NoLines()
    ensures Lines("") == [] && Ended("")
  {}

  lemma NoRuns(id: string)
    ensures Count([], id) == 0
  {}

  // --- receipts ---

  datatype Json = Text(s: string) | Number(n: int) | Object(fields: map<string, Json>) | List(items: seq<Json>)

  const FIELDS: set<string> := {
    "task_id", "drone_id", "runtime_identity", "role", "input_digest", "result_digest", "started_at", "completed_at",
    "status", "authority_effect", "result", "receipt_digest"
  }

  /** The fields of a receipt that the task does not fix. */
  datatype Facts = Facts(task: string, drone: string, runtime: string, role: string, input: string, started: string,
                         completed: string, passed: bool, result: Json)

  function Payload(f: Facts, digest: Json -> string): map<string, Json> {
    map["task_id" := Text(f.task), "drone_id" := Text(f.drone), "runtime_identity" := Text(f.runtime),
        "role" := Text(f.role), "input_digest" := Text(f.input), "result_digest" := Text(digest(f.result)),
        "started_at" := Text(f.started), "completed_at" := Text(f.completed),
        "status" := Text(if f.passed then "PASS" else "DENY"), "authority_effect" := Text("NONE"), "result" := f.result]
  }

  /** The receipt the worker writes, for executed and for denied tasks alike. */
  function Receipt(f: Facts, digest: Json -> string): Json {
    Object(Payload(f, digest)["receipt_digest" := Text(digest(Object(Payload(f, digest))))])
  }

  /** The broker's `_intrinsic` check. */
  predicate Intrinsic(rec: Json, digest: Json -> string) {
    && rec.Object? && "authority_effect" in rec.fields && rec.fields["authority_effect"] == Text("NONE")
    && "receipt_digest" in rec.fields
    && rec.fields["receipt_digest"] == Text(digest(Object(rec.fields - {"receipt_digest"})))
    && "result" in rec.fields && "result_digest" in rec.fields
    && rec.fields["result_digest"] == Text(digest(rec.fields["result"]))
  }

  /** The validators' `validate_receipt_object`. */
  predicate ValidReceipt(rec: Json, digest: Json -> string) {
    && rec.Object? && rec.fields.Keys == FIELDS && rec.fields["authority_effect"] == Text("NONE")
    && Text(digest(Object(rec.fields - {"receipt_digest"}))) == rec.fields["receipt_digest"]
    && Text(digest(rec.fields["result"])) == rec.fields["result_digest"]
  }

  /** The two checks differ in the field set alone. */
  lemma ValidIffIntrinsic(rec: Json, digest: Json -> string)
    ensures ValidReceipt(rec, digest) <==> Intrinsic(rec, digest) && rec.fields.Keys == FIELDS
  {}

  lemma PayloadKeys(f: Facts, digest: Json -> string)
    ensures Payload(f, digest).Keys + {"receipt_digest"} == FIELDS && "receipt_digest" !in Payload(f, digest)
  {}

  lemma PayloadValues(f: Facts, digest: Json -> string)
    ensures "result" in Payload(f, digest) && Payload(f, digest)["result"] == f.result
    ensures "result_digest" in Payload(f, digest) && Payload(f, digest)["result_digest"] == Text(digest(f.result))
    ensures "authority_effect" in Payload(f, digest) && Payload(f, digest)["authority_effect"] == Text("NONE")
  {}

  /** Each field of a receipt says what it is named for. */
  lemma ReceiptTells(f: Facts, digest: Json -> string)
    ensures var p := Payload(f, digest);
      && p.Keys == FIELDS - {"receipt_digest"}
      && p["task_id"] == Text(f.task) && p["drone_id"] == Text(f.drone) && p["runtime_identity"] == Text(f.runtime)
      && p["role"] == Text(f.role) && p["input_digest"] == Text(f.input) && p["started_at"] == Text(f.started)
      && p["completed_at"] == Text(f.completed) && p["status"] == Text(if f.passed then "PASS" else "DENY")
  {
    PayloadKeys(f, digest);
  }

  /** Every receipt the worker writes passes both checks. */
  lemma ReceiptAccepted(f: Facts, digest: Json -> string)
    ensures ValidReceipt(Receipt(f, digest), digest) && Intrinsic(Receipt(f, digest), digest)
  {
    var p := Payload(f, digest);
    PayloadKeys(f, digest);
    PayloadValues(f, digest);
    hide Payload;
    var r := Receipt(f, digest).fields;
    assert r - {"receipt_digest"} == p;
    assert r.Keys == FIELDS;
    Labels();
    assert r["result"] == p["result"] && r["result_digest"] == p["result_digest"];
    assert r["authority_effect"] == p["authority_effect"];
  }

  lemma Labels()
    ensures "result" != "receipt_digest" && "result_digest" != "receipt_digest" && "authority_effect" != "receipt_digest"
  {
    assert "result"[2] != "receipt_digest"[2];
  }

  /** No accepted receipt can be changed under its digest: the digest fixes every other field. */
  lemma DigestFixesReceipt(a: Json, b: Json, digest: Json -> string)
    requires forall x, y | digest(x) == digest(y) :: x == y
    requires Intrinsic(a, digest) && Intrinsic(b, digest) && a.fields["receipt_digest"] == b.fields["receipt_digest"]
    ensures a == b
  {
    var x, y := a.fields - {"receipt_digest"}, b.fields - {"receipt_digest"};
    assert digest(Object(x)) == digest(Object(y));
    assert Object(x).fields == Object(y).fields;
    forall k ensures (k in a.fields <==> k in b.fields) && (k in a.fields ==> a.fields[k] == b.fields[k]) {
      if k != "receipt_digest" { assert (k in x <==> k in a.fields) && (k in y <==> k in b.fields); }
    }
    assert a.fields == b.fields;
  }
}
