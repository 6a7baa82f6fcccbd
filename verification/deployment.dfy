/**
 * Transactional deployment by the effect admission broker: back up, copy a package and unit files, verify,
 * and restore everything when any step fails. Every file operation and every external call may fail.
 */
module Deployment {
  import opened PyText

  datatype UnitName = DropIn | OperatorUnit

  /** The files a deployment can touch; directories of different roots do not overlap. */
  datatype Path =
    | Live(name: string)
    | Stage(name: string)
    | UnitFile(unitName: UnitName)
    | Backup(request: string, name: string)
    | BackupUnit(request: string, unitName: UnitName)
    | NewDropIn(request: string)
    | Receipt(request: string)
    | RollbackNote(request: string)
    | Other(path: string)

  type Content = string
  type Files = map<Path, Content>

  /** The package names are the keys of the table of pinned digests. */
  ghost predicate Distinct(names: seq<string>) { forall i, j | 0 <= i < j < |names| :: names[i] != names[j] }

  /** Files that belong to one request and to nothing else. */
  predicate OwnedBy(p: Path, req: string) {
    match p
    case Backup(r, _) => r == req
    case BackupUnit(r, _) => r == req
    case NewDropIn(r) => r == req
    case Receipt(r) => r == req
    case RollbackNote(r) => r == req
    case _ => false
  }

  /** A path has the same content, or is absent in both. */
  predicate Same(a: Files, b: Files, p: Path) {
    (p in a <==> p in b) && (p in a ==> a[p] == b[p])
  }

  lemma SameTrans(a: Files, b: Files, c: Files)
    ensures forall p {:trigger Same(a, c, p)} :: Same(a, b, p) && Same(b, c, p) ==> Same(a, c, p)
  {}

  /** Nothing changes outside what the request owns. */
  ghost predicate SameOutside(a: Files, b: Files, req: string) {
    forall p: Path | !OwnedBy(p, req) :: Same(a, b, p)
  }

  /** Nothing changes outside what the request owns and the files it deploys. */
  ghost predicate Confined(a: Files, b: Files, req: string, names: seq<string>) {
    forall p: Path | !OwnedBy(p, req) && !p.UnitFile? && !(p.Live? && p.name in names) :: Same(a, b, p)
  }

  /** What the guarded body of a deployment leaves alone; its backups are part of that. */
  ghost predicate BodyFrame(a: Files, b: Files, req: string, names: seq<string>) {
    forall p: Path | !(p.Live? && p.name in names) && !p.UnitFile? && p != NewDropIn(req) && p != Receipt(req) :: Same(a, b, p)
  }

  /** What a rollback leaves alone. */
  ghost predicate RollbackFrame(a: Files, b: Files, req: string, existed: set<string>, withUnit: bool) {
    forall p: Path | !(p.Live? && p.name in existed) && p != UnitFile(DropIn) && p != RollbackNote(req)
      && !(p == UnitFile(OperatorUnit) && withUnit) :: Same(a, b, p)
  }

  /** `existed` records which live files there were, and a backup holds each of them. */
  ghost predicate BackedUp(orig: Files, now: Files, req: string, existed: map<string, bool>) {
    forall n | n in existed ::
      && existed[n] == (Live(n) in orig)
      && (existed[n] ==> Backup(req, n) in now && now[Backup(req, n)] == orig[Live(n)])
  }

  ghost predicate UnitBackedUp(orig: Files, now: Files, req: string, u: UnitName, existed: bool) {
    && existed == (UnitFile(u) in orig)
    && (existed ==> BackupUnit(req, u) in now && now[BackupUnit(req, u)] == orig[UnitFile(u)])
  }

  /** The target is again what its backup says it was. */
  predicate Restored(a: Files, b: Files, backup: Path, target: Path, existed: bool) {
    if existed then backup in a && target in b && b[target] == a[backup] else target !in b
  }

  ghost predicate PackageRestored(a: Files, b: Files, req: string, existed: map<string, bool>, errors: set<string>) {
    forall n | n in existed && n !in errors :: Restored(a, b, Backup(req, n), Live(n), existed[n])
  }

  function At(staged: bool, name: string): Path { if staged then Stage(name) else Live(name) }

  ghost predicate Staged(f: Files, names: seq<string>, sha: Content -> string, pinned: map<string, string>) {
    forall n | n in names :: Stage(n) in f && n in pinned && sha(f[Stage(n)]) == pinned[n]
  }

  /** Every live package file is the staged one and has its pinned digest. */
  ghost predicate Installed(f: Files, names: seq<string>, sha: Content -> string, pinned: map<string, string>) {
    forall n | n in names ::
      && Stage(n) in f && Live(n) in f && f[Live(n)] == f[Stage(n)]
      && n in pinned && sha(f[Live(n)]) == pinned[n]
  }

  /** Which restores a rollback reported as failed. */
  datatype Report = Report(package: set<string>, dropIn: bool, unit: bool, service: bool) {
    predicate Clean() { package == {} && !dropIn && !unit && !service }
  }

  datatype Outcome = Refused | Deployed | RolledBack(report: Report)

  /** Each file whose own restore reported no failure is back to its old content or absence. */
  ghost predicate Recovered(a: Files, b: Files, names: seq<string>, report: Report) {
    && (forall n | n in names && n !in report.package :: Same(a, b, Live(n)))
    && (!report.dropIn ==> Same(a, b, UnitFile(DropIn)))
    && (!report.unit ==> Same(a, b, UnitFile(OperatorUnit)))
  }

  /** The old live files are still held by the backup of the request. */
  ghost predicate Recoverable(a: Files, b: Files, names: seq<string>, req: string) {
    forall n | n in names && Live(n) in a :: Backup(req, n) in b && b[Backup(req, n)] == a[Live(n)]
  }

  /** With no reported failure the whole file system is as before, apart from what the request owns. */
  lemma CleanRollback(a: Files, b: Files, names: seq<string>, req: string, report: Report)
    requires Confined(a, b, req, names) && Recovered(a, b, names, report) && report.Clean()
    ensures SameOutside(a, b, req)
  {
    forall p | !OwnedBy(p, req) ensures Same(a, b, p) {
      if p.UnitFile? { assert p.unitName.DropIn? || p.unitName.OperatorUnit?; }
    }
  }

  /** Calls into the service manager, the health probes, the database and the request's envelope. */
  datatype Call = Envelope | DatabaseBefore | Secrets | StageReadback | IsEnabled | IsActive
                | Reload | Enable | RestartOperator | OperatorHealth | RestartMission | MissionHealth | DatabaseAfter | Locator
                | UndoStop | UndoReload | UndoRestartMission | UndoRestartOperator

  class Host {
    var files: Files
    var requests: set<string>  // the requests that already have a backup directory

    const reliable: bool       // whether every file step before a rollback succeeds; otherwise each may fail
    const sure: set<Path>      // the files whose restoring succeeds; that of any other may fail
    const failing: set<Call>   // the calls into other services that fail
    const active: bool         // whether the mission service runs when it is asked for

    constructor (files: Files, reliable: bool, sure: set<Path>, failing: set<Call>, active: bool)
      ensures this.files == files && this.requests == {}
      ensures this.reliable == reliable && this.sure == sure && this.failing == failing && this.active == active
    {
      this.files, this.requests, this.reliable, this.sure := files, {}, reliable, sure;
      this.failing, this.active := failing, active;
    }

    /** `_atomic_copy_file`: write a temporary file, then rename; a fault may strike before or after the rename. */
    method AtomicCopy(src: Path, dst: Path, certain: bool) returns (ok: bool)
      modifies this`files
      ensures ok ==> src in old(files) && files == old(files)[dst := old(files)[src]]
      ensures certain && src in old(files) ==> ok
      ensures forall p: Path | p != dst :: Same(old(files), files, p)
    {
      var early: bool := *;
      if (early && !certain) || src !in files { return false; }
      files := files[dst := files[src]];
      var late: bool := *;
      ok := certain || !late;
    }

    /** Write a file in place; a failed write may leave any content behind. */
    method Write(p: Path, content: Content) returns (ok: bool)
      modifies this`files
      ensures ok ==> files == old(files)[p := content]
      ensures reliable ==> ok
      ensures forall q: Path | q != p :: Same(old(files), files, q)
    {
      var fault: bool := *;
      ok := reliable || !fault;
      var torn: Content := *;
      files := files[p := if ok then content else torn];
    }

    /** `Path.unlink` */
    method Unlink(p: Path, certain: bool) returns (ok: bool)
      modifies this`files
      ensures ok ==> files == old(files) - {p}
      ensures certain ==> ok
      ensures forall q: Path | q != p :: Same(old(files), files, q)
    {
      var fault: bool := *;
      ok := certain || !fault;
      if ok { files := files - {p}; }
    }

    /** Calls into other services, made in order until one fails. */
    method AskAll(calls: seq<Call>) returns (ok: bool)
      ensures ok <==> forall c | c in calls :: c !in failing
    {
      for i := 0 to |calls|
        invariant forall k | 0 <= k < i :: calls[k] !in failing
      {
        if calls[i] in failing { return false; }
      }
      ok := true;
    }

    /** `_backup_optional` */
    method BackupOptional(src: Path, dst: Path) returns (ok: bool, existed: bool)
      requires src != dst
      modifies this`files
      ensures forall p: Path | p != dst :: Same(old(files), files, p)
      ensures ok ==> existed == (src in old(files))
      ensures ok && existed ==> dst in files && files[dst] == old(files)[src]
      ensures reliable ==> ok
    {
      existed := src in files;
      ok := true;
      if existed { ok := Write(dst, files[src]); }
    }

    /** Nothing keeps a target from being restored. */
    ghost predicate Restorable(f: Files, backup: Path, target: Path, existed: bool) {
      target in sure && (existed ==> backup in f)
    }

    lemma StillRestorable(a: Files, b: Files, backup: Path, target: Path, existed: bool)
      requires Same(a, b, backup)
      ensures Restorable(a, backup, target, existed) <==> Restorable(b, backup, target, existed)
    {}

    /** `_restore_optional` */
    method RestoreOptional(backup: Path, target: Path, existed: bool) returns (ok: bool)
      requires backup != target
      modifies this`files
      ensures forall p: Path | p != target :: Same(old(files), files, p)
      ensures ok ==> Restored(old(files), files, backup, target, existed)
      ensures Restorable(old(files), backup, target, existed) ==> ok
    {
      ok := true;
      if existed {
        ok := AtomicCopy(backup, target, target in sure);
      } else if target in files {
        ok := Unlink(target, target in sure);
      }
    }

    /** The backup loop: record and save every live package file. */
    method BackupPackage(names: seq<string>, req: string) returns (ok: bool, existed: map<string, bool>)
      requires Distinct(names)
      modifies this`files
      ensures SameOutside(old(files), files, req)
      ensures existed.Keys <= set n | n in names
      ensures BackedUp(old(files), files, req, existed)
      ensures ok ==> existed.Keys == set n | n in names
      ensures reliable ==> ok
    {
      existed, ok := map[], true;
      for i := 0 to |names|
        invariant SameOutside(old(files), files, req) && BackedUp(old(files), files, req, existed)
        invariant existed.Keys == set k | 0 <= k < i :: names[k]
      {
        var n := names[i];
        var had: bool;
        ghost var before := files;
        ok, had := BackupOptional(Live(n), Backup(req, n));
        SameTrans(old(files), before, files);
        assert Same(old(files), before, Live(n));
        assert n !in existed && forall m | m in existed :: Same(before, files, Backup(req, m));
        if !ok { return; }
        existed := existed[n := had];
      }
    }

    /** The copy loop: put every staged file in place. */
    method CopyPackage(names: seq<string>) returns (ok: bool)
      modifies this`files
      ensures forall p: Path | !(p.Live? && p.name in names) :: Same(old(files), files, p)
      ensures ok ==> forall n | n in names :: Stage(n) in files && Live(n) in files && files[Live(n)] == files[Stage(n)]
      ensures reliable && (forall n | n in names :: Stage(n) in old(files)) ==> ok
    {
      ok := true;
      for i := 0 to |names|
        invariant forall p: Path | !(p.Live? && p.name in names) :: Same(old(files), files, p)
        invariant forall k | 0 <= k < i ::
          Stage(names[k]) in files && Live(names[k]) in files && files[Live(names[k])] == files[Stage(names[k])]
      {
        ghost var before := files;
        ok := AtomicCopy(Stage(names[i]), Live(names[i]), reliable);
        SameTrans(old(files), before, files);
        assert Same(old(files), before, Stage(names[i]));
        if !ok { return; }
      }
    }

    /** `mission_control_v3_package_identity_at`: every file under the root is there with its pinned digest. */
    method Identity(staged: bool, names: seq<string>, sha: Content -> string, pinned: map<string, string>) returns (ok: bool)
      ensures ok <==> forall n | n in names :: At(staged, n) in files && n in pinned && sha(files[At(staged, n)]) == pinned[n]
    {
      for i := 0 to |names|
        invariant forall n | n in names[..i] :: At(staged, n) in files && n in pinned && sha(files[At(staged, n)]) == pinned[n]
      {
        assert names[..i + 1] == names[..i] + [names[i]];
        var n := names[i];
        if At(staged, n) !in files || n !in pinned || sha(files[At(staged, n)]) != pinned[n] { return false; }
      }
      assert names[..|names|] == names;
      return true;
    }

    /** The rollback loop: restore or remove every recorded file, noting the names that could not be restored. */
    method RestorePackage(names: seq<string>, req: string, existed: map<string, bool>) returns (errors: set<string>)
      requires existed.Keys <= set n | n in names
      modifies this`files
      ensures forall p: Path | !(p.Live? && p.name in existed) :: Same(old(files), files, p)
      ensures PackageRestored(old(files), files, req, existed, errors)
      ensures errors <= existed.Keys
      ensures forall n | n in existed && Restorable(old(files), Backup(req, n), Live(n), existed[n]) :: n !in errors
    {
      hide RestoredSoFar, Restorable, Restored;
      errors := {};
      var done: set<string> := {};
      NoneRestored(files, req, existed);
      for i := 0 to |names|
        invariant forall k | 0 <= k < i && names[k] in existed :: names[k] in done
        invariant RestoredSoFar(old(files), files, req, existed, done, errors)
      {
        var n := names[i];
        if n in existed && n !in done {
          ghost var before := files;
          BackupsUnchanged(old(files), before, req, existed, done, errors, n);
          var ok := RestoreOptional(Backup(req, n), Live(n), existed[n]);
          RestoreNext(old(files), before, files, req, existed, done, errors, n, ok);
          if !ok { errors := errors + {n}; }
          done := done + {n};
        }
      }
      AllRestored(old(files), files, req, existed, done, errors);
    }

    /** The state of the loop: the files in `done` have been tried and no other live file was touched. */
    ghost predicate RestoredSoFar(a: Files, b: Files, req: string, existed: map<string, bool>, done: set<string>, errors: set<string>) {
      && errors <= done <= existed.Keys
      && (forall p: Path | !(p.Live? && p.name in done) :: Same(a, b, p))
      && (forall n | n in done && n !in errors :: Restored(a, b, Backup(req, n), Live(n), existed[n]))
      && (forall n | n in done && Restorable(a, Backup(req, n), Live(n), existed[n]) :: n !in errors)
    }

    lemma NoneRestored(a: Files, req: string, existed: map<string, bool>)
      ensures RestoredSoFar(a, a, req, existed, {}, {})
    {}

    lemma BackupsUnchanged(a: Files, b: Files, req: string, existed: map<string, bool>, done: set<string>, errors: set<string>, n: string)
      requires RestoredSoFar(a, b, req, existed, done, errors) && n in existed
      ensures Restorable(a, Backup(req, n), Live(n), existed[n]) <==> Restorable(b, Backup(req, n), Live(n), existed[n])
    {
      assert Same(a, b, Backup(req, n));
    }

    lemma RestoreNext(a: Files, b: Files, c: Files, req: string, existed: map<string, bool>, done: set<string>,
                      errors: set<string>, n: string, ok: bool)
      requires RestoredSoFar(a, b, req, existed, done, errors) && n in existed && n !in done
      requires forall p: Path | p != Live(n) :: Same(b, c, p)
      requires ok ==> Restored(b, c, Backup(req, n), Live(n), existed[n])
      requires Restorable(b, Backup(req, n), Live(n), existed[n]) ==> ok
      ensures RestoredSoFar(a, c, req, existed, done + {n}, if ok then errors else errors + {n})
    {
      hide Restorable;
      BackupsUnchanged(a, b, req, existed, done, errors, n);
      assert Same(a, b, Backup(req, n));
      forall p: Path | !(p.Live? && p.name in done + {n}) ensures Same(a, c, p) { assert Same(a, b, p) && Same(b, c, p); }
      forall m | m in done && m !in errors ensures Restored(a, c, Backup(req, m), Live(m), existed[m]) {
        assert Same(b, c, Live(m));
      }
    }

    lemma AllRestored(a: Files, b: Files, req: string, existed: map<string, bool>, done: set<string>, errors: set<string>)
      requires RestoredSoFar(a, b, req, existed, done, errors) && existed.Keys <= done
      ensures forall p: Path | !(p.Live? && p.name in existed) :: Same(a, b, p)
      ensures PackageRestored(a, b, req, existed, errors) && errors <= existed.Keys
      ensures forall n | n in existed && Restorable(a, Backup(req, n), Live(n), existed[n]) :: n !in errors
    {
      hide Restored, Restorable;
      assert done == existed.Keys;
    }

    /** Write the new drop-in beside the backup and copy it in place. */
    method InstallDropIn(text: Content, req: string) returns (ok: bool)
      modifies this`files
      ensures forall p: Path | p != NewDropIn(req) && p != UnitFile(DropIn) :: Same(old(files), files, p)
      ensures ok ==> UnitFile(DropIn) in files && files[UnitFile(DropIn)] == text
      ensures reliable ==> ok
    {
      ok := Write(NewDropIn(req), text);
      if !ok { return; }
      ghost var before := files;
      ok := AtomicCopy(NewDropIn(req), UnitFile(DropIn), reliable);
      SameTrans(old(files), before, files);
    }

    method StagedIdentity(names: seq<string>, sha: Content -> string, pinned: map<string, string>) returns (ok: bool)
      ensures ok <==> Staged(files, names, sha, pinned)
    {
      ok := Identity(true, names, sha, pinned);
    }

    /** Copy the package and check its identity: what both deployers begin with. */
    method PlacePackage(names: seq<string>, sha: Content -> string, pinned: map<string, string>) returns (ok: bool)
      modifies this`files
      ensures forall p: Path | !(p.Live? && p.name in names) :: Same(old(files), files, p)
      ensures ok ==> Installed(files, names, sha, pinned)
      ensures reliable && Staged(old(files), names, sha, pinned) ==> ok
    {
      ok := CopyPackage(names);
      if !ok { return; }
      assert forall n | n in names :: Same(old(files), files, Stage(n));
      ok := Identity(false, names, sha, pinned);
    }

    /** What the guarded bodies ask of other services. */
    ghost predicate OperatorServed() { MissionServed() && failing !! {Enable, RestartOperator, OperatorHealth} }

    ghost predicate MissionServed() { failing !! {Reload, RestartMission, MissionHealth, DatabaseAfter, Locator} }

    /** What the deployers ask before they change anything. */
    ghost predicate OperatorChecked() { failing !! {Envelope, DatabaseBefore, Secrets, IsEnabled} }

    ghost predicate InstallChecked() { failing !! {Envelope, StageReadback, IsActive} }

    /** The guarded body of `operator_intervention_deploy`. */
    method OperatorBody(names: seq<string>, sha: Content -> string, pinned: map<string, string>, unitRel: string,
                        dropIn: Content, req: string) returns (ok: bool)
      requires unitRel in names
      modifies this`files
      ensures BodyFrame(old(files), files, req, names)
      ensures ok ==> Installed(files, names, sha, pinned)
      ensures ok ==> Live(unitRel) in files
      ensures ok ==> UnitFile(OperatorUnit) in files && files[UnitFile(OperatorUnit)] == files[Live(unitRel)]
      ensures ok ==> UnitFile(DropIn) in files && files[UnitFile(DropIn)] == dropIn
      ensures ok ==> Receipt(req) in files && OperatorServed()
      ensures reliable && OperatorServed() && Staged(old(files), names, sha, pinned) ==> ok
    {
      hide Staged, OperatorServed;
      ok := PlacePackage(names, sha, pinned);
      if !ok { return; }
      ghost var f1 := files;
      assert Live(unitRel) in files;
      ok := OperatorUnits(names, sha, pinned, unitRel, dropIn, req);
      SameTrans(old(files), f1, files);
    }

    /** The services, then the receipt. */
    method ServeOperator(req: string) returns (ok: bool)
      modifies this`files
      ensures forall p: Path | p != Receipt(req) :: Same(old(files), files, p)
      ensures ok ==> Receipt(req) in files && OperatorServed()
      ensures reliable && OperatorServed() ==> ok
    {
      ok := AskAll([Reload, Enable, RestartOperator, OperatorHealth, RestartMission, MissionHealth, DatabaseAfter, Locator]);
      if !ok { return; }
      var receipt: Content := *;
      ok := Write(Receipt(req), receipt);
    }

    /** The unit, the drop-in, the services and the receipt, once the package is in place. */
    method OperatorUnits(names: seq<string>, sha: Content -> string, pinned: map<string, string>, unitRel: string,
                         dropIn: Content, req: string) returns (ok: bool)
      requires unitRel in names && Live(unitRel) in files && Installed(files, names, sha, pinned)
      modifies this`files
      ensures forall p: Path | !p.UnitFile? && p != NewDropIn(req) && p != Receipt(req) :: Same(old(files), files, p)
      ensures ok ==> Installed(files, names, sha, pinned) && Live(unitRel) in files
      ensures ok ==> UnitFile(OperatorUnit) in files && files[UnitFile(OperatorUnit)] == files[Live(unitRel)]
      ensures ok ==> UnitFile(DropIn) in files && files[UnitFile(DropIn)] == dropIn
      ensures ok ==> Receipt(req) in files && OperatorServed()
      ensures reliable && OperatorServed() ==> ok
    {
      hide Installed, OperatorServed;
      ghost var f1 := files;
      ok := AtomicCopy(Live(unitRel), UnitFile(OperatorUnit), reliable);
      ghost var f2 := files;
      SameTrans(old(files), f1, f2);
      if !ok { return; }
      StillInstalled(f1, f2, names, sha, pinned);
      ok := InstallDropIn(dropIn, req);
      ghost var f3 := files;
      SameTrans(old(files), f2, f3);
      if !ok { return; }
      StillInstalled(f2, f3, names, sha, pinned);
      assert Same(f2, f3, UnitFile(OperatorUnit)) && Same(f2, f3, Live(unitRel));
      ok := ServeOperator(req);
      SameTrans(old(files), f3, files);
      StillInstalled(f3, files, names, sha, pinned);
      assert Same(f3, files, UnitFile(OperatorUnit)) && Same(f3, files, Live(unitRel)) && Same(f3, files, UnitFile(DropIn));
    }

    ghost predicate Calm() { failing !! {UndoStop, UndoReload, UndoRestartMission, UndoRestartOperator} }

    /** A restore that nothing keeps from succeeding is not reported as failed. */
    ghost predicate Tried(f: Files, req: string, existed: map<string, bool>, dropInExisted: bool, unitExisted: Option<bool>,
                          report: Report) {
      && report.package <= existed.Keys && (Calm() ==> !report.service)
      && (forall n | n in existed && Restorable(f, Backup(req, n), Live(n), existed[n]) :: n !in report.package)
      && (Restorable(f, BackupUnit(req, DropIn), UnitFile(DropIn), dropInExisted) ==> !report.dropIn)
      && (unitExisted.None? || Restorable(f, BackupUnit(req, OperatorUnit), UnitFile(OperatorUnit), unitExisted.value)
          ==> !report.unit)
    }

    /** With the backups in place, that means every restore was tried. */
    lemma TriedMeansAll(orig: Files, f: Files, names: seq<string>, req: string, existed: map<string, bool>,
                        dropInExisted: bool, unitExisted: Option<bool>, report: Report)
      requires Tried(f, req, existed, dropInExisted, unitExisted, report) && existed.Keys <= set n | n in names
      requires BackedUp(orig, f, req, existed)
      requires dropInExisted ==> BackupUnit(req, DropIn) in f
      requires unitExisted == Some(true) ==> BackupUnit(req, OperatorUnit) in f
      ensures AllTried(names, report)
      ensures unitExisted.None? || UnitFile(OperatorUnit) in sure ==> !report.unit
      ensures Undisturbed(names) ==> report.Clean()
    {}

    /** No service call of a rollback fails: the operator deployer's stop and restarts, or those of the installer. */
    ghost predicate ServicesBack(unitExisted: Option<bool>, wasActive: bool) {
      && UndoReload !in failing && (unitExisted.Some? ==> UndoStop !in failing)
      && (unitExisted.Some? || wasActive ==> UndoRestartMission !in failing)
      && (unitExisted == Some(true) ==> UndoRestartOperator !in failing)
    }

    method StopOperator(unitExisted: Option<bool>) returns (stopped: bool)
      ensures stopped <==> (unitExisted.Some? ==> UndoStop !in failing)
    {
      stopped := true;
      if unitExisted.Some? { stopped := AskAll([UndoStop]); }
    }

    method RestartServices(unitExisted: Option<bool>, wasActive: bool, stopped: bool) returns (ok: bool)
      requires stopped <==> (unitExisted.Some? ==> UndoStop !in failing)
      ensures ok <==> ServicesBack(unitExisted, wasActive)
      ensures Calm() ==> ok
    {
      var reloaded := AskAll([UndoReload]);
      var mission, operator := true, true;
      if unitExisted.Some? || wasActive { mission := AskAll([UndoRestartMission]); }
      if unitExisted == Some(true) { operator := AskAll([UndoRestartOperator]); }
      ok := stopped && reloaded && mission && operator;
    }

    /** The drop-in, and for the operator deployer its unit. */
    method RestoreUnits(req: string, dropInExisted: bool, unitExisted: Option<bool>) returns (dropInOk: bool, unitOk: bool)
      modifies this`files
      ensures forall p: Path | p != UnitFile(DropIn) && !(p == UnitFile(OperatorUnit) && unitExisted.Some?) :: Same(old(files), files, p)
      ensures unitExisted.None? ==> unitOk
      ensures dropInOk ==> Restored(old(files), files, BackupUnit(req, DropIn), UnitFile(DropIn), dropInExisted)
      ensures unitExisted.Some? && unitOk ==>
        Restored(old(files), files, BackupUnit(req, OperatorUnit), UnitFile(OperatorUnit), unitExisted.value)
      ensures Restorable(old(files), BackupUnit(req, DropIn), UnitFile(DropIn), dropInExisted) ==> dropInOk
      ensures unitExisted.Some? && Restorable(old(files), BackupUnit(req, OperatorUnit), UnitFile(OperatorUnit), unitExisted.value)
        ==> unitOk
    {
      hide Restorable;
      ghost var f1 := files;
      dropInOk := RestoreOptional(BackupUnit(req, DropIn), UnitFile(DropIn), dropInExisted);
      ghost var f2 := files;
      unitOk := true;
      if unitExisted.Some? {
        StillRestorable(f1, f2, BackupUnit(req, OperatorUnit), UnitFile(OperatorUnit), unitExisted.value);
        unitOk := RestoreOptional(BackupUnit(req, OperatorUnit), UnitFile(OperatorUnit), unitExisted.value);
      }
      SameTrans(f1, f2, files);
      assert Same(f1, f2, BackupUnit(req, OperatorUnit)) && Same(f2, files, UnitFile(DropIn));
    }

    /** The failure handler shared by both deployers; each restore is attempted whatever became of the others. */
    method Rollback(names: seq<string>, req: string, existed: map<string, bool>, dropInExisted: bool,
                    unitExisted: Option<bool>, wasActive: bool) returns (report: Report)
      requires existed.Keys <= set n | n in names
      modifies this`files
      ensures RollbackFrame(old(files), files, req, existed.Keys, unitExisted.Some?)
      ensures PackageRestored(old(files), files, req, existed, report.package)
      ensures !report.dropIn ==> Restored(old(files), files, BackupUnit(req, DropIn), UnitFile(DropIn), dropInExisted)
      ensures unitExisted.Some? && !report.unit ==>
        Restored(old(files), files, BackupUnit(req, OperatorUnit), UnitFile(OperatorUnit), unitExisted.value)
      ensures Tried(old(files), req, existed, dropInExisted, unitExisted, report)
      ensures report.service <==> !ServicesBack(unitExisted, wasActive)
      ensures reliable ==> RollbackNote(req) in files
    {
      hide ServicesBack, Restorable;
      var stopped := StopOperator(unitExisted);
      var errors := RestorePackage(names, req, existed);
      ghost var f1 := files;
      StillRestorable(old(files), f1, BackupUnit(req, DropIn), UnitFile(DropIn), dropInExisted);
      if unitExisted.Some? {
        StillRestorable(old(files), f1, BackupUnit(req, OperatorUnit), UnitFile(OperatorUnit), unitExisted.value);
      }
      var dropInOk, unitOk := RestoreUnits(req, dropInExisted, unitExisted);
      ghost var f3 := files;
      SameTrans(old(files), f1, f3);
      var restarted := RestartServices(unitExisted, wasActive, stopped);
      report := Report(errors, !dropInOk, !unitOk, !restarted);
      var note: Content := *;
      var noted := Write(RollbackNote(req), note);
      SameTrans(old(files), f3, files);
      assert Same(old(files), f1, BackupUnit(req, DropIn)) && Same(old(files), f1, BackupUnit(req, OperatorUnit));
      assert Same(f3, files, UnitFile(DropIn)) && Same(f3, files, UnitFile(OperatorUnit));
      forall n | n in existed && n !in errors ensures Restored(old(files), files, Backup(req, n), Live(n), existed[n]) {
        assert Same(f1, f3, Live(n)) && Same(f3, files, Live(n));
      }
    }

    /** Every restore was tried: one that can only succeed is not reported, whatever became of the others. */
    ghost predicate AllTried(names: seq<string>, report: Report) {
      && (forall n | n in names && Live(n) in sure :: n !in report.package)
      && (UnitFile(DropIn) in sure ==> !report.dropIn)
      && (Calm() ==> !report.service) && report.package <= set n | n in names
    }

    /** No step of a rollback fails. */
    ghost predicate Undisturbed(names: seq<string>) {
      Calm() && UnitFile(DropIn) in sure && UnitFile(OperatorUnit) in sure && forall n | n in names :: Live(n) in sure
    }

    /** `operator_intervention_deploy`: it backs up before the guarded body, so its rollback covers every later fault. */
    method OperatorDeploy(names: seq<string>, sha: Content -> string, pinned: map<string, string>, unitRel: string,
                          dropIn: Content, req: string) returns (o: Outcome)
      requires Distinct(names)
      modifies this
      ensures Confined(old(files), files, req, names)
      ensures req in old(requests) ==> o == Refused && files == old(files)
      ensures o == Refused ==> SameOutside(old(files), files, req)
      ensures requests <= old(requests) + {req} && old(requests) <= requests && (o != Refused ==> req in requests)
      ensures o == Deployed ==> OperatorServed() && OperatorChecked()
      ensures reliable && OperatorServed() && OperatorChecked() && Staged(old(files), names, sha, pinned) && unitRel in names ==>
        (req !in old(requests) ==> o == Deployed)
      ensures o == Deployed ==> Installed(files, names, sha, pinned) && Receipt(req) in files
      ensures o == Deployed ==> UnitFile(DropIn) in files && files[UnitFile(DropIn)] == dropIn
      ensures o == Deployed ==> unitRel in names && Live(unitRel) in files
      ensures o == Deployed ==> UnitFile(OperatorUnit) in files && files[UnitFile(OperatorUnit)] == files[Live(unitRel)]
      ensures o != Refused ==> Recoverable(old(files), files, names, req)
      ensures o.RolledBack? ==> Recovered(old(files), files, names, o.report)
      ensures o.RolledBack? && o.report.Clean() ==> SameOutside(old(files), files, req)
      ensures o.RolledBack? ==> AllTried(names, o.report) && (UnitFile(OperatorUnit) in sure ==> !o.report.unit)
      ensures o.RolledBack? && Undisturbed(names) ==> o.report.Clean() && SameOutside(old(files), files, req)
      ensures o.RolledBack? && reliable ==> RollbackNote(req) in files
      ensures o.RolledBack? ==> (o.report.service <==> !ServicesBack(Some(UnitFile(OperatorUnit) in old(files)), true))
    {
      hide OperatorServed, ServicesBack, Tried, AllTried, Undisturbed, UnitBackedUp, Staged, Same;
      hide Restored, Installed, SameOutside, Confined, BodyFrame, RollbackFrame, Recoverable, BackedUp, PackageRestored;
      var ok := AskAll([Envelope]);
      var staged := StagedIdentity(names, sha, pinned);
      var checked := AskAll([DatabaseBefore, Secrets]);
      if !ok || !staged || unitRel !in names || !checked || req in requests {
        OwnedIsConfined(files, files, req, names);
        return Refused;
      }
      var existed, dropInExisted, unitExisted;
      ok, existed, dropInExisted, unitExisted := OperatorBackup(names, req);
      ghost var saved := files;
      OwnedIsConfined(old(files), saved, req, names);
      StillStaged(old(files), saved, names, sha, pinned);
      if !ok { return Refused; }
      ok := OperatorBody(names, sha, pinned, unitRel, dropIn, req);
      ghost var fault := files;
      AfterBody(old(files), saved, fault, names, req, existed);
      if ok { return Deployed; }
      assert unitExisted == (UnitFile(OperatorUnit) in old(files)) by { KnewUnit(old(files), saved, req, OperatorUnit, unitExisted); }
      var report := Rollback(names, req, existed, dropInExisted, Some(unitExisted), true);
      AfterRollback(old(files), fault, files, names, req, existed, report, true);
      RestoredUnit(old(files), saved, fault, files, names, req, DropIn, dropInExisted);
      RestoredUnit(old(files), saved, fault, files, names, req, OperatorUnit, unitExisted);
      BackupsStay(old(files), saved, fault, names, req, dropInExisted, Some(unitExisted));
      TriedMeansAll(old(files), fault, names, req, existed, dropInExisted, Some(unitExisted), report);
      o := RolledBack(report);
      if report.Clean() { CleanRollback(old(files), files, names, req, report); }
    }

    /** The backups of `operator_intervention_deploy`, taken before its guarded body. */
    method OperatorBackup(names: seq<string>, req: string)
        returns (ok: bool, existed: map<string, bool>, dropInExisted: bool, unitExisted: bool)
      requires Distinct(names)
      modifies this
      ensures SameOutside(old(files), files, req) && requests <= old(requests) + {req} && old(requests) <= requests
      ensures ok ==> existed.Keys == set n | n in names
      ensures reliable && IsEnabled !in failing ==> ok
      ensures ok ==> BackedUp(old(files), files, req, existed)
      ensures ok ==> UnitBackedUp(old(files), files, req, DropIn, dropInExisted)
      ensures ok ==> UnitBackedUp(old(files), files, req, OperatorUnit, unitExisted)
      ensures ok ==> req in requests && IsEnabled !in failing
    {
      hide Distinct;
      existed, dropInExisted, unitExisted := map[], false, false;
      var made: bool := *;
      ok := reliable || made;
      if !ok { return; }
      requests := requests + {req};
      ok, existed := BackupPackage(names, req);
      if !ok { return; }
      ghost var f1 := files;
      ok, dropInExisted := BackupOptional(UnitFile(DropIn), BackupUnit(req, DropIn));
      ghost var f2 := files;
      SameTrans(old(files), f1, f2);
      if !ok { return; }
      ok, unitExisted := BackupOptional(UnitFile(OperatorUnit), BackupUnit(req, OperatorUnit));
      SameTrans(old(files), f2, files);
      if !ok { return; }
      ok := AskAll([IsEnabled]);
      assert Same(old(files), f1, UnitFile(DropIn)) && Same(old(files), f2, UnitFile(OperatorUnit));
      assert Same(f2, files, BackupUnit(req, DropIn));
      assert forall n | n in existed :: Same(f1, f2, Backup(req, n)) && Same(f2, files, Backup(req, n));
    }

    /** The backups of `mission_control_v3_install`, taken inside its guarded body: they may stop half way. */
    method InstallBackup(names: seq<string>, req: string)
        returns (ok: bool, existed: map<string, bool>, dropInExisted: bool, wasActive: bool)
      requires Distinct(names)
      modifies this`files
      ensures SameOutside(old(files), files, req)
      ensures existed.Keys <= set n | n in names
      ensures ok ==> existed.Keys == set n | n in names
      ensures wasActive <==> active && IsActive !in failing
      ensures ok ==> IsActive !in failing
      ensures reliable && IsActive !in failing ==> ok
      ensures BackedUp(old(files), files, req, existed)
      ensures ok ==> UnitBackedUp(old(files), files, req, DropIn, dropInExisted)
      ensures !ok ==> !dropInExisted
    {
      existed, dropInExisted, wasActive := map[], false, false;
      ok := AskAll([IsActive]);
      if !ok { assert SameOutside(files, files, req); return; }
      wasActive := active;
      ok, existed := BackupPackage(names, req);
      if !ok { return; }
      ghost var f1 := files;
      var had;
      ok, had := BackupOptional(UnitFile(DropIn), BackupUnit(req, DropIn));
      SameTrans(old(files), f1, files);
      assert Same(old(files), f1, UnitFile(DropIn));
      assert forall n | n in existed :: Same(f1, files, Backup(req, n));
      if ok { dropInExisted := had; }
    }

    /** The guarded body of `mission_control_v3_install` once its backups are complete. */
    method InstallBody(names: seq<string>, sha: Content -> string, pinned: map<string, string>, dropIn: Content, req: string)
        returns (ok: bool)
      modifies this`files
      ensures BodyFrame(old(files), files, req, names)
      ensures Same(old(files), files, UnitFile(OperatorUnit))
      ensures ok ==> Installed(files, names, sha, pinned)
      ensures ok ==> UnitFile(DropIn) in files && files[UnitFile(DropIn)] == dropIn
      ensures ok ==> Receipt(req) in files && MissionServed()
      ensures reliable && MissionServed() && Staged(old(files), names, sha, pinned) ==> ok
    {
      hide Staged;
      ok := PlacePackage(names, sha, pinned);
      if !ok { return; }
      ghost var f1 := files;
      ok := InstallDropIn(dropIn, req);
      ghost var f2 := files;
      SameTrans(old(files), f1, f2);
      if !ok { return; }
      StillInstalled(f1, f2, names, sha, pinned);
      ok := AskAll([Reload, RestartMission, MissionHealth, Locator, DatabaseAfter]);
      if !ok { return; }
      var receipt: Content := *;
      ok := Write(Receipt(req), receipt);
      SameTrans(old(files), f2, files);
      StillInstalled(f2, files, names, sha, pinned);
      assert Same(f2, files, UnitFile(DropIn));
    }

    /**
     * `mission_control_v3_install`: `saved` tells whether the fault, if any, struck after the backups were complete.
     * The package always comes back; the drop-in comes back unless it existed and the fault struck earlier.
     */
    method Install(names: seq<string>, sha: Content -> string, pinned: map<string, string>, dropIn: Content, req: string)
        returns (o: Outcome, saved: bool)
      requires Distinct(names)
      modifies this
      ensures Confined(old(files), files, req, names)
      ensures Same(old(files), files, UnitFile(OperatorUnit))
      ensures req in old(requests) ==> o == Refused && files == old(files)
      ensures o == Refused ==> SameOutside(old(files), files, req)
      ensures requests <= old(requests) + {req} && old(requests) <= requests && (o != Refused ==> req in requests)
      ensures o == Deployed ==> MissionServed() && InstallChecked()
      ensures reliable && MissionServed() && InstallChecked() && Staged(old(files), names, sha, pinned) ==>
        (req !in old(requests) ==> o == Deployed)
      ensures o == Deployed ==> Installed(files, names, sha, pinned) && Receipt(req) in files
      ensures o == Deployed ==> UnitFile(DropIn) in files && files[UnitFile(DropIn)] == dropIn
      ensures o != Refused && saved ==> Recoverable(old(files), files, names, req)
      ensures o.RolledBack? ==> forall n | n in names && n !in o.report.package :: Same(old(files), files, Live(n))
      ensures o.RolledBack? && !o.report.dropIn ==>
        (Same(old(files), files, UnitFile(DropIn)) <==> saved || UnitFile(DropIn) !in old(files))
      ensures o.RolledBack? && o.report.Clean() ==>
        (SameOutside(old(files), files, req) <==> saved || UnitFile(DropIn) !in old(files))
      ensures o.RolledBack? ==> AllTried(names, o.report) && !o.report.unit && (Undisturbed(names) ==> o.report.Clean())
      ensures o.RolledBack? && reliable ==> RollbackNote(req) in files
      ensures o.RolledBack? ==> (o.report.service <==> !ServicesBack(None, active && IsActive !in failing))
    {
      hide MissionServed, ServicesBack, Tried, AllTried, Undisturbed, UnitBackedUp, Staged, Restored;
      hide Installed, SameOutside, Confined, BodyFrame, RollbackFrame, Recoverable, BackedUp, PackageRestored;
      saved := false;
      OwnedIsConfined(files, files, req, names);
      var ok := AskAll([Envelope, StageReadback]);
      var staged := StagedIdentity(names, sha, pinned);
      if !ok || !staged || req in requests { return Refused, saved; }
      var made: bool := *;
      ok := reliable || made;
      if !ok { return Refused, saved; }
      requests := requests + {req};
      var existed, dropInExisted, wasActive;
      saved, existed, dropInExisted, wasActive := InstallBackup(names, req);
      ghost var backed := files;
      OwnedIsConfined(old(files), backed, req, names);
      StillStaged(old(files), backed, names, sha, pinned);
      UnitUntouched(old(files), backed, req);
      ok := saved;
      if saved { ok := InstallBody(names, sha, pinned, dropIn, req); } else { NoBody(old(files), backed, names, req); }
      ghost var fault := files;
      AfterBody(old(files), backed, fault, names, req, existed);
      if ok { return Deployed, saved; }
      var report := Rollback(names, req, existed, dropInExisted, None, wasActive);
      AfterRollback(old(files), fault, files, names, req, existed, report, false);
      RollbackKeepsUnit(fault, files, req, existed.Keys);
      DropInAfter(old(files), backed, fault, files, names, req, saved, dropInExisted);
      if saved { BackupsStay(old(files), backed, fault, names, req, dropInExisted, None); }
      TriedMeansAll(old(files), fault, names, req, existed, dropInExisted, None, report);
      o := RolledBack(report);
      if report.Clean() { CleanOrNot(old(files), files, names, req, report); }
    }
  }

  lemma KnewUnit(orig: Files, now: Files, req: string, u: UnitName, existed: bool)
    requires UnitBackedUp(orig, now, req, u, existed)
    ensures existed == (UnitFile(u) in orig)
  {}

  lemma OwnedIsConfined(a: Files, b: Files, req: string, names: seq<string>)
    ensures SameOutside(a, a, req)
    ensures SameOutside(a, b, req) ==> Confined(a, b, req, names) && forall n :: Same(a, b, Stage(n))
  {}

  /** The guarded body keeps the backups it may need. */
  lemma AfterBody(orig: Files, saved: Files, fault: Files, names: seq<string>, req: string, existed: map<string, bool>)
    requires SameOutside(orig, saved, req) && BackedUp(orig, saved, req, existed) && BodyFrame(saved, fault, req, names)
    ensures Confined(orig, fault, req, names) && BackedUp(orig, fault, req, existed)
    ensures existed.Keys == (set n | n in names) ==> Recoverable(orig, fault, names, req)
  {
    SameTrans(orig, saved, fault);
    assert forall n | n in existed :: Same(saved, fault, Backup(req, n));
  }

  lemma AfterRollback(orig: Files, fault: Files, end: Files, names: seq<string>, req: string,
                      existed: map<string, bool>, report: Report, withUnit: bool)
    requires Confined(orig, fault, req, names) && BackedUp(orig, fault, req, existed)
    requires existed.Keys <= set n | n in names
    requires forall n | n in names && n !in existed :: Same(orig, fault, Live(n))
    requires RollbackFrame(fault, end, req, existed.Keys, withUnit)
    requires PackageRestored(fault, end, req, existed, report.package)
    ensures Confined(orig, end, req, names)
    ensures existed.Keys == (set n | n in names) ==> Recoverable(orig, end, names, req)
    ensures forall n | n in names && n !in report.package :: Same(orig, end, Live(n))
  {
    SameTrans(orig, fault, end);
    assert forall n | n in existed :: Same(fault, end, Backup(req, n));
    forall n | n in names && n !in report.package ensures Same(orig, end, Live(n)) {
      if n in existed { assert Restored(fault, end, Backup(req, n), Live(n), existed[n]); }
    }
  }

  lemma RestoredUnit(orig: Files, saved: Files, fault: Files, end: Files, names: seq<string>, req: string, u: UnitName,
                     existed: bool)
    requires UnitBackedUp(orig, saved, req, u, existed) && BodyFrame(saved, fault, req, names)
    ensures Restored(fault, end, BackupUnit(req, u), UnitFile(u), existed) ==> Same(orig, end, UnitFile(u))
  {
    assert Same(saved, fault, BackupUnit(req, u));
  }

  lemma BackupsStay(orig: Files, saved: Files, fault: Files, names: seq<string>, req: string, dropInExisted: bool,
                    unitExisted: Option<bool>)
    requires BodyFrame(saved, fault, req, names) && UnitBackedUp(orig, saved, req, DropIn, dropInExisted)
    requires unitExisted.Some? ==> UnitBackedUp(orig, saved, req, OperatorUnit, unitExisted.value)
    ensures dropInExisted ==> BackupUnit(req, DropIn) in fault
    ensures unitExisted == Some(true) ==> BackupUnit(req, OperatorUnit) in fault
  {
    assert Same(saved, fault, BackupUnit(req, DropIn)) && Same(saved, fault, BackupUnit(req, OperatorUnit));
  }

  lemma UnitUntouched(orig: Files, backed: Files, req: string)
    requires SameOutside(orig, backed, req)
    ensures Same(orig, backed, UnitFile(OperatorUnit))
  {}

  lemma NoBody(orig: Files, backed: Files, names: seq<string>, req: string)
    requires SameOutside(orig, backed, req)
    ensures BodyFrame(backed, backed, req, names) && forall n | n in names :: Same(orig, backed, Live(n))
  {}

  lemma RollbackKeepsUnit(fault: Files, end: Files, req: string, existed: set<string>)
    requires RollbackFrame(fault, end, req, existed, false)
    ensures Same(fault, end, UnitFile(OperatorUnit))
  {}

  /** An incomplete backup pass leaves `dropin_existed` false, so the restore removes whatever drop-in there was. */
  lemma DropInAfter(orig: Files, backed: Files, fault: Files, end: Files, names: seq<string>, req: string, saved: bool,
                    existed: bool)
    requires saved ==> UnitBackedUp(orig, backed, req, DropIn, existed)
    requires !saved ==> !existed
    requires BodyFrame(backed, fault, req, names)
    ensures Restored(fault, end, BackupUnit(req, DropIn), UnitFile(DropIn), existed) ==>
      (Same(orig, end, UnitFile(DropIn)) <==> saved || UnitFile(DropIn) !in orig)
  {
    if saved { RestoredUnit(orig, backed, fault, end, names, req, DropIn, existed); }
  }

  lemma CleanOrNot(orig: Files, end: Files, names: seq<string>, req: string, report: Report)
    requires Confined(orig, end, req, names) && report.Clean()
    requires forall n | n in names && n !in report.package :: Same(orig, end, Live(n))
    requires Same(orig, end, UnitFile(OperatorUnit))
    ensures SameOutside(orig, end, req) <==> Same(orig, end, UnitFile(DropIn))
  {
    if Same(orig, end, UnitFile(DropIn)) { CleanRollback(orig, end, names, req, report); }
  }

  lemma StillStaged(a: Files, b: Files, names: seq<string>, sha: Content -> string, pinned: map<string, string>)
    requires forall n :: Same(a, b, Stage(n))
    ensures Staged(a, names, sha, pinned) ==> Staged(b, names, sha, pinned)
  {}

  lemma StillInstalled(a: Files, b: Files, names: seq<string>, sha: Content -> string, pinned: map<string, string>)
    requires Installed(a, names, sha, pinned)
    requires forall n | n in names :: Same(a, b, Live(n)) && Same(a, b, Stage(n))
    ensures Installed(b, names, sha, pinned)
  {}

}
