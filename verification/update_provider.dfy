/**
 * The broker update provider: compare-and-swap of one file with a backup named by digest and second, an atomic
 * replacement and a receipt. Requests run one after another; a fault may strike after any step.
 */
module UpdateProvider {
  import opened PyText

  type Content = string
  type Sha = Content -> string

  datatype BackupName = BackupName(digest: string, stamp: int)

  /** `was` is the content that was replaced. */
  datatype Receipt = Receipt(expected: string, replacement: string, backup: BackupName, was: Content)

  /** `held` is every content the target has had. */
  datatype State = State(target: Content, backups: map<BackupName, Content>, receipts: seq<Receipt>, held: seq<Content>)

  datatype Request = Request(expected: string, raw: Content, replacement: string, compiles: bool)

  datatype Fault =
    | NoFault
    | BeforeBackup
    | TornBackup(left: Content)  // the backup is left with other content, and the digest check or the fault stops the update
    | AfterBackup
    | AfterReplace

  datatype Event = Apply(request: Request, stamp: int, fault: Fault)

  /** `validate_common` */
  predicate Accepted(s: State, r: Request, sha: Sha) {
    sha(r.raw) == r.replacement && sha(s.target) == r.expected && r.compiles
  }

  function Step(s: State, e: Event, sha: Sha): State {
    var r := e.request;
    var name := BackupName(r.expected, e.stamp);
    if !Accepted(s, r, sha) || e.fault.BeforeBackup? then s
    else if e.fault.TornBackup? then s.(backups := s.backups[name := e.fault.left])
    else
      var saved := s.(backups := s.backups[name := s.target]);
      if e.fault.AfterBackup? then saved
      else
        var replaced := saved.(target := r.raw, held := s.held + [r.raw]);
        if e.fault.AfterReplace? then replaced
        else replaced.(receipts := s.receipts + [Receipt(r.expected, r.replacement, name, s.target)])
  }

  function Run(s: State, events: seq<Event>, sha: Sha): State {
    if events == [] then s else Step(Run(s, events[..|events| - 1], sha), events[|events| - 1], sha)
  }

  function Start(content: Content): State { State(content, map[], [], [content]) }

  class Provider {
    var target: Content
    var backups: map<BackupName, Content>
    var receipts: seq<Receipt>
    ghost var held: seq<Content>
    const reliable: bool  // whether every step succeeds; otherwise each may fail

    constructor (content: Content, reliable: bool)
      ensures View() == Start(content) && this.reliable == reliable
    {
      this.reliable := reliable;
      target, backups, receipts, held := content, map[], [], [content];
    }

    ghost function View(): State
      reads this
    {
      State(target, backups, receipts, held)
    }

    /** Whether the next step fails. */
    method Strikes() returns (strikes: bool)
      ensures reliable ==> !strikes
    {
      strikes := *;
      if reliable { strikes := false; }
    }

    /** `apply_update` */
    method ApplyUpdate(r: Request, stamp: int, sha: Sha) returns (ok: bool, ghost fault: Fault)
      modifies this
      ensures View() == Step(old(View()), Apply(r, stamp, fault), sha)
      ensures ok <==> fault.NoFault? && Accepted(old(View()), r, sha)
      ensures reliable && Accepted(old(View()), r, sha) ==> ok
    {
      ok, fault := false, BeforeBackup;
      if sha(r.raw) != r.replacement || sha(target) != r.expected || !r.compiles { return; }
      var strikes := Strikes();
      if strikes { return; }
      var name := BackupName(r.expected, stamp);
      var written: Content := *;
      strikes := Strikes();
      if strikes {
        backups, fault := backups[name := written], TornBackup(written);
        return;
      }
      backups := backups[name := target];
      fault := AfterBackup;
      if sha(backups[name]) != r.expected { return; }
      strikes := Strikes();
      if strikes { return; }
      var was := target;
      target, held := r.raw, held + [r.raw];
      fault := AfterReplace;
      strikes := Strikes();
      if strikes || sha(target) != r.replacement { return; }
      receipts := receipts + [Receipt(r.expected, r.replacement, name, was)];
      ok, fault := true, NoFault;
    }
  }

  // --- no content is lost ---

  ghost predicate Injective(sha: Sha) { forall x, y | sha(x) == sha(y) :: x == y }

  ghost predicate Kept(s: State, x: Content, sha: Sha) {
    x == s.target || exists n | n in s.backups :: n.digest == sha(x) && s.backups[n] == x
  }

  /** Every content the target ever held is current or in a backup labelled with its digest. */
  ghost predicate NothingLost(s: State, sha: Sha) { forall x | x in s.held :: Kept(s, x, sha) }

  lemma KeptStep(s: State, e: Event, sha: Sha, x: Content)
    requires Injective(sha) && Kept(s, x, sha)
    ensures Kept(Step(s, e, sha), x, sha)
  {
    var t, name := Step(s, e, sha), BackupName(e.request.expected, e.stamp);
    if x == s.target {
      if t.target != s.target { assert name in t.backups && t.backups[name] == x; }
    } else {
      var n :| n in s.backups && n.digest == sha(x) && s.backups[n] == x;
      if Accepted(s, e.request, sha) { assert n != name; }
      assert n in t.backups && t.backups[n] == x;
    }
  }

  lemma {:induction false} RunLosesNothing(content: Content, events: seq<Event>, sha: Sha)
    requires Injective(sha)
    ensures NothingLost(Run(Start(content), events, sha), sha)
  {
    if events != [] {
      var s, e := Run(Start(content), events[..|events| - 1], sha), events[|events| - 1];
      RunLosesNothing(content, events[..|events| - 1], sha);
      forall x | x in Step(s, e, sha).held ensures Kept(Step(s, e, sha), x, sha) {
        if x in s.held { KeptStep(s, e, sha, x); }
      }
    }
  }

  // --- receipts and their backups ---

  ghost predicate Intact(s: State, r: Receipt, sha: Sha) {
    r.backup in s.backups && s.backups[r.backup] == r.was && r.backup.digest == r.expected == sha(r.was)
  }

  /** Every receipt names a backup that has exactly the content it replaced. */
  ghost predicate ReceiptsIntact(s: State, sha: Sha) { forall r | r in s.receipts :: Intact(s, r, sha) }

  ghost predicate Cited(s: State, n: BackupName) { exists r | r in s.receipts :: r.backup == n }

  /** An update damages a receipt exactly when its backup is torn under a name that a receipt already cites. */
  lemma DamageIffTornCited(s: State, e: Event, sha: Sha)
    requires Injective(sha) && ReceiptsIntact(s, sha)
    ensures ReceiptsIntact(Step(s, e, sha), sha) <==>
      !(Accepted(s, e.request, sha) && e.fault.TornBackup? && e.fault.left != s.target
        && Cited(s, BackupName(e.request.expected, e.stamp)))
  {
    var t, name := Step(s, e, sha), BackupName(e.request.expected, e.stamp);
    if Accepted(s, e.request, sha) && e.fault.TornBackup? && Cited(s, name) {
      var r :| r in s.receipts && r.backup == name;
      assert Intact(s, r, sha);
      assert r.was == s.target;
      assert t.backups[name] == e.fault.left && r in t.receipts;
      if e.fault.left != s.target { assert !Intact(t, r, sha); }
    }
    if !(Accepted(s, e.request, sha) && e.fault.TornBackup? && e.fault.left != s.target && Cited(s, name)) {
      forall r | r in t.receipts ensures Intact(t, r, sha) {
        if r in s.receipts { assert Intact(s, r, sha); }
      }
    }
  }

  /** Each request comes in a later second than the ones before. */
  ghost predicate Increasing(events: seq<Event>) {
    forall i, j | 0 <= i < j < |events| :: events[i].stamp < events[j].stamp
  }

  ghost predicate StampsBelow(s: State, stamp: int) {
    && (forall n | n in s.backups :: n.stamp < stamp)
    && (forall r | r in s.receipts :: r.backup.stamp < stamp)
  }

  lemma {:induction false} RunStamps(content: Content, events: seq<Event>, sha: Sha, stamp: int)
    requires forall e | e in events :: e.stamp < stamp
    ensures StampsBelow(Run(Start(content), events, sha), stamp)
  {
    if events != [] {
      assert events[|events| - 1] in events;
      assert forall e | e in events[..|events| - 1] :: e in events;
      RunStamps(content, events[..|events| - 1], sha, stamp);
    }
  }

  /** With a new second for each request, every receipt's backup stays intact, whatever faults strike. */
  lemma {:induction false} LaterSecondsKeepReceipts(content: Content, events: seq<Event>, sha: Sha)
    requires Injective(sha) && Increasing(events)
    ensures ReceiptsIntact(Run(Start(content), events, sha), sha)
  {
    if events != [] {
      var rest, e := events[..|events| - 1], events[|events| - 1];
      LaterSecondsKeepReceipts(content, rest, sha);
      RunStamps(content, rest, sha, e.stamp);
      DamageIffTornCited(Run(Start(content), rest, sha), e, sha);
    }
  }

  /** Within one second, an update there and back and a torn third one leave a receipt without its content. */
  lemma TornInSameSecond(a: Content, b: Content, torn: Content, stamp: int, sha: Sha) returns (events: seq<Event>)
    requires Injective(sha) && a != b && torn != a
    ensures !ReceiptsIntact(Run(Start(a), events, sha), sha)
    ensures Run(Start(a), events, sha).target == a
  {
    var e1 := Apply(Request(sha(a), b, sha(b), true), stamp, NoFault);
    var e2 := Apply(Request(sha(b), a, sha(a), true), stamp, NoFault);
    var e3 := Apply(Request(sha(a), b, sha(b), true), stamp, TornBackup(torn));
    events := [e1, e2, e3];
    assert events[..2] == [e1, e2] && [e1, e2][..1] == [e1] && [e1][..0] == [];
    var s1 := Step(Start(a), e1, sha);
    var s2 := Step(s1, e2, sha);
    assert Run(Start(a), [], sha) == Start(a);
    assert Run(Start(a), [e1], sha) == s1;
    assert Run(Start(a), [e1, e2], sha) == s2;
    var r := Receipt(sha(a), sha(b), BackupName(sha(a), stamp), a);
    assert s1.receipts == [r];
    assert s2.receipts[0] == r && r in s2.receipts;
    assert Run(Start(a), events, sha) == Step(s2, e3, sha);
    assert !Intact(Step(s2, e3, sha), r, sha);
  }
}
