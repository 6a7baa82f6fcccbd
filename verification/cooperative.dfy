/**
 * The cooperative worker adapter: claim an assignment, check that the claim is bound to the offered row and to this
 * worker, hand it to the admitted writer or read the artifact back, and send one receipt.
 */
module Cooperative {
  import opened PyText

  datatype Value = Null | Num(n: int) | Text(s: string)
  type Fields = map<string, Value>

  function Get(f: Fields, k: string): Value { if k in f then f[k] else Null }

  const WRITE_KIND := "COOPERATIVE_ARTIFACT_WRITE"
  const VERIFY_KIND := "COOPERATIVE_ARTIFACT_VERIFY"
  const BINDING: seq<string> := ["assignment_id", "mission_id", "material_drone_id", "lease_generation"]

  /** The surroundings of one pass: decoding of times and inputs, and the checks of the artifact module. */
  datatype World = World(deadline: string -> Option<int>, input: Fields -> Option<Fields>, writable: Fields -> bool,
                         admitted: bool)

  /** `_claim_payload`; a refusal is no payload. */
  method ClaimPayload(w: World, row: Fields, claimed: Fields, worker: string, kind: string, now: int)
      returns (payload: Option<Fields>)
    ensures payload.Some? <==> Claimable(w, row, claimed, worker, kind, now)
    ensures payload.Some? ==> Bound(w, row, claimed, payload.value, worker, kind, now) && payload.value == Payload(w, claimed)
  {
    for i := 0 to 4
      invariant forall k | 0 <= k < i :: BINDING[k] in row && Get(claimed, BINDING[k]) == row[BINDING[k]]
    {
      if BINDING[i] !in row || Get(claimed, BINDING[i]) != row[BINDING[i]] { return None; }
    }
    if Get(claimed, "material_drone_id") != Text(worker) || Get(claimed, "state") != Text("CLAIMED") { return None; }
    var generation := Get(claimed, "lease_generation");
    if !generation.Num? || generation.n < 1 { return None; }
    var expires := Get(claimed, "lease_expires_at");
    if !expires.Text? { return None; }
    var deadline := w.deadline(expires.s);
    if deadline.None? || now >= deadline.value { return None; }
    var input := w.input(claimed);
    if input.None? { return None; }
    var p := input.value;
    if Get(p, "kind") != Text(kind) || Get(p, "mission_id") != Get(claimed, "mission_id") { return None; }
    if Get(p, "generation") != generation { return None; }
    if "assignment_id" in p && p["assignment_id"] != Get(claimed, "assignment_id") { return None; }
    payload := Some(p["assignment_id" := Get(claimed, "assignment_id")]);
    WithAssignment(p, Get(claimed, "assignment_id"));
    assert BINDING[0] == "assignment_id";
  }

  /** Setting the assignment changes nothing else. */
  lemma WithAssignment(p: Fields, v: Value)
    ensures var q := p["assignment_id" := v];
      && Get(q, "kind") == Get(p, "kind") && Get(q, "mission_id") == Get(p, "mission_id")
      && Get(q, "generation") == Get(p, "generation") && Get(q, "assignment_id") == v
      && q - {"assignment_id"} == p - {"assignment_id"}
  {
    assert "assignment_id"[0] != "kind"[0] && "assignment_id"[0] != "mission_id"[0] && "assignment_id"[0] != "generation"[0];
  }

  /** A claim of this row by this worker that has not expired. */
  ghost predicate LiveClaim(w: World, row: Fields, claimed: Fields, worker: string, now: int) {
    && (forall k | 0 <= k < 4 :: BINDING[k] in row && Get(claimed, BINDING[k]) == row[BINDING[k]])
    && Get(claimed, "material_drone_id") == Text(worker) && Get(claimed, "state") == Text("CLAIMED")
    && Get(claimed, "lease_generation").Num? && Get(claimed, "lease_generation").n >= 1
    && Get(claimed, "lease_expires_at").Text?
    && w.deadline(Get(claimed, "lease_expires_at").s).Some? && now < w.deadline(Get(claimed, "lease_expires_at").s).value
  }

  /** The payload speaks of the same mission, generation and assignment as the claim. */
  ghost predicate Bound(w: World, row: Fields, claimed: Fields, payload: Fields, worker: string, kind: string, now: int) {
    && LiveClaim(w, row, claimed, worker, now)
    && Get(payload, "kind") == Text(kind) && Get(payload, "mission_id") == Get(claimed, "mission_id")
    && Get(payload, "generation") == Get(claimed, "lease_generation")
    && Get(payload, "assignment_id") == Get(claimed, "assignment_id") == Get(row, "assignment_id")
    && w.input(claimed).Some? && payload - {"assignment_id"} == w.input(claimed).value - {"assignment_id"}
  }

  /** The input of the claim, with the assignment of the claim. */
  ghost function Payload(w: World, claimed: Fields): Fields
    requires w.input(claimed).Some?
  {
    w.input(claimed).value["assignment_id" := Get(claimed, "assignment_id")]
  }

  ghost predicate Claimable(w: World, row: Fields, claimed: Fields, worker: string, kind: string, now: int) {
    && LiveClaim(w, row, claimed, worker, now) && w.input(claimed).Some?
    && var p := w.input(claimed).value;
    && Get(p, "kind") == Text(kind) && Get(p, "mission_id") == Get(claimed, "mission_id")
    && Get(p, "generation") == Get(claimed, "lease_generation")
    && ("assignment_id" in p ==> p["assignment_id"] == Get(claimed, "assignment_id"))
  }

  // --- one pass ---

  /** What the admitted writer returned, if it returned: whether all expected fields match, and the effect digest. */
  datatype Answer = Raised | Wrote(matches: bool, effect: Value)

  datatype Event =
    | Refused(assignment: string)
    | Claim(assignment: string, claimed: Fields, at: int)
    | Write(payload: Fields, answer: Answer)
    | Verify(payload: Fields, holds: bool)
    | Receipt(assignment: string, generation: Value, pass: bool, effect: Value, acked: bool)

  predicate Hex64(v: Value) {
    v.Text? && |v.s| == 64 && forall c | c in v.s :: c in "0123456789abcdef"
  }

  function Kind(w: World, row: Fields): string {
    var input := w.input(row);
    if input.Some? && Get(input.value, "kind").Text? then Get(input.value, "kind").s else ""
  }

  predicate Offered(w: World, row: Fields, worker: string) {
    && Get(row, "material_drone_id") == Text(worker) && Kind(w, row) in {WRITE_KIND, VERIFY_KIND}
    && Get(row, "assignment_id").Text? && Get(row, "assignment_id").s != ""
  }

  /** What a claimed row leads to: at most one operation, made exactly on a bound claim, then one receipt, and no more. */
  ghost predicate Session(w: World, row: Fields, worker: string, s: seq<Event>) {
    && Offered(w, row, worker) && 2 <= |s| <= 3
    && var a, last := Get(row, "assignment_id").s, s[|s| - 1];
    && s[0].Claim? && s[0].assignment == a
    && last.Receipt? && last.assignment == a && last.generation == Get(s[0].claimed, "lease_generation")
    && (|s| == 3 <==> Operable(w, row, s[0].claimed, worker, s[0].at))
    && (|s| == 3 ==> Operated(w, row, s[0].claimed, worker, s[0].at, s[1]))
    && (last.pass <==> |s| == 3 && Confirmed(s[1]))
    && last.effect == if |s| == 3 && s[1].Write? && s[1].answer.Wrote? && s[1].answer.matches then s[1].answer.effect else Null
  }

  /** The claim is bound to the offered row, and a write is well formed and has an admitted writer. */
  ghost predicate Operable(w: World, row: Fields, claimed: Fields, worker: string, at: int) {
    && w.input(row).Some? && Get(w.input(row).value, "kind").Text?
    && var kind := Get(w.input(row).value, "kind").s;
    && Claimable(w, row, claimed, worker, kind, at)
    && (kind == WRITE_KIND ==> w.admitted && w.writable(Payload(w, claimed)))
  }

  ghost predicate Operated(w: World, row: Fields, claimed: Fields, worker: string, at: int, e: Event) {
    && w.input(row).Some?
    && match e
       case Write(payload, _) =>
         Get(w.input(row).value, "kind") == Text(WRITE_KIND) && Bound(w, row, claimed, payload, worker, WRITE_KIND, at)
       case Verify(payload, _) =>
         Get(w.input(row).value, "kind") == Text(VERIFY_KIND) && Bound(w, row, claimed, payload, worker, VERIFY_KIND, at)
       case _ => false
  }

  ghost predicate Digest(v: Value) {
    v.Text? && |v.s| == 64 && forall c | c in v.s :: '0' <= c <= '9' || 'a' <= c <= 'f'
  }

  /** A write that returned what was expected with a digest of 64 hexadecimal digits, or a readback that holds. */
  ghost predicate Confirmed(e: Event) {
    || (e.Write? && e.answer.Wrote? && e.answer.matches && Digest(e.answer.effect))
    || (e.Verify? && e.holds)
  }

  lemma {:induction false} HexCodes(c: char)
    ensures c in "0123456789abcdef" <==> '0' <= c <= '9' || 'a' <= c <= 'f'
  {
    var h := "0123456789abcdef";
    if '0' <= c <= '9' { assert h[(c as int) - ('0' as int)] == c; }
    if 'a' <= c <= 'f' { assert h[(c as int) - ('a' as int) + 10] == c; }
  }

  lemma HexMeans(v: Value)
    ensures Hex64(v) <==> Digest(v)
  {
    if v.Text? {
      forall c | c in v.s ensures c in "0123456789abcdef" <==> '0' <= c <= '9' || 'a' <= c <= 'f' { HexCodes(c); }
    }
  }

  /** The operation and the receipt that follow an acknowledged claim. */
  method Serve(w: World, row: Fields, worker: string, kind: string, a: string, claimed: Fields) returns (s: seq<Event>)
    requires Offered(w, row, worker) && kind == Kind(w, row) && a == Get(row, "assignment_id").s
    ensures Session(w, row, worker, s)
  {
    var now: int := *;
    hide Digest, Hex64;
    s := [Claim(a, claimed, now)];
    KindsDiffer();
    var effect, pass := Null, false;
    var payload := ClaimPayload(w, row, claimed, worker, kind, now);
    if payload.Some? {
      if kind == WRITE_KIND {
        if w.writable(payload.value) && w.admitted {
          var answer: Answer := *;
          s := s + [Write(payload.value, answer)];
          if answer.Wrote? && answer.matches {
            effect := answer.effect;
            pass := Hex64(effect);
            HexMeans(effect);
          }
        }
      } else {
        var holds: bool := *;
        s := s + [Verify(payload.value, holds)];
        pass := holds;
      }
    }
    var acked: bool := *;
    s := s + [Receipt(a, Get(claimed, "lease_generation"), pass, effect, acked)];
  }

  /** The refused claims of the offered rows among the first `n`, one for each and in their order. */
  ghost function Refusals(w: World, pending: seq<Fields>, worker: string, n: nat): seq<Event>
    requires n <= |pending|
  {
    if n == 0 then []
    else
      var row := pending[n - 1];
      var refused := if Offered(w, row, worker) then [Refused(Get(row, "assignment_id").s)] else [];
      Refusals(w, pending, worker, n - 1) + refused
  }

  lemma {:induction false} RefusalsUnclaimed(w: World, pending: seq<Fields>, worker: string, n: nat)
    requires n <= |pending|
    ensures Unclaimed(Refusals(w, pending, worker, n))
  {
    hide Offered;
    if n > 0 { RefusalsUnclaimed(w, pending, worker, n - 1); }
  }

  ghost predicate Unclaimed(log: seq<Event>) { forall e | e in log :: e.Refused? }

  /**
   * `cooperative_assignment_once`: every offered row is tried in turn until a claim is acknowledged, at row `at`; that
   * row's session ends the pass.
   */
  method Once(w: World, pending: seq<Fields>, worker: string) returns (log: seq<Event>, n: nat, at: nat)
    ensures n <= |log| && at <= |pending| && Unclaimed(log[..n])
    ensures log[..n] == Refusals(w, pending, worker, at)
    ensures n == |log| ==> at == |pending|
    ensures n < |log| ==> at < |pending| && Session(w, pending[at], worker, log[n..])
  {
    hide Session;
    log, n, at := [], 0, 0;
    for i := 0 to |pending|
      invariant n == |log| && at == i && log == Refusals(w, pending, worker, i)
    {
      var row := pending[i];
      var offered := false;
      var kind, a := "", "";
      if Get(row, "material_drone_id") == Text(worker) {
        var input := w.input(row);
        if input.Some? && Get(input.value, "kind").Text? {
          kind := Get(input.value, "kind").s;
          if kind == WRITE_KIND || kind == VERIFY_KIND {
            var id := Get(row, "assignment_id");
            if id.Text? && id.s != "" { offered, a := true, id.s; }
          }
        }
      }
      KindsDiffer();
      assert offered <==> Offered(w, row, worker);
      if offered {
        var acked: bool := *;
        if acked {
          var claimed: Fields := *;
          var s := Serve(w, row, worker, kind, a, claimed);
          RefusalsUnclaimed(w, pending, worker, i);
          assert (log + s)[..n] == log && (log + s)[n..] == s;
          assert |s| > 0 by { SessionNotEmpty(w, row, worker, s); }
          log := log + s;
          return;
        }
        log := log + [Refused(a)];
        n := n + 1;
      }
      at := i + 1;
    }
    RefusalsUnclaimed(w, pending, worker, |pending|);
    assert log[..n] == log;
  }

  lemma KindsDiffer()
    ensures WRITE_KIND != "" && VERIFY_KIND != "" && WRITE_KIND != VERIFY_KIND
  {
    assert |WRITE_KIND| != |VERIFY_KIND|;
  }

  lemma SessionNotEmpty(w: World, row: Fields, worker: string, s: seq<Event>)
    requires Session(w, row, worker, s)
    ensures |s| > 0
  {}

  /** In a whole pass there is at most one acknowledged claim, one write and one receipt, in this order. */
  lemma OneReceiptPerPass(w: World, row: Fields, worker: string, log: seq<Event>, n: nat)
    requires n <= |log| && Unclaimed(log[..n]) && (n < |log| ==> Session(w, row, worker, log[n..]))
    ensures forall i, j | 0 <= i < j < |log| :: !(log[i].Receipt? && log[j].Receipt?)
    ensures forall i, j | 0 <= i < j < |log| :: !(log[i].Write? && log[j].Write?)
    ensures forall i, j | 0 <= i < j < |log| :: !(log[i].Claim? && log[j].Claim?)
    ensures forall i | 0 <= i < |log| && log[i].Receipt? :: i == |log| - 1
    ensures forall i | 0 <= i < |log| && log[i].Write? :: 0 < i && log[i - 1].Claim?
  {
    forall i | 0 <= i < n ensures log[i].Refused? { assert log[i] in log[..n]; }
    var s := log[n..];
    forall i | n <= i < |log| ensures log[i] == s[i - n] {}
  }
}
