/**
 * The offline mission reset: select rows by the discovered plan, archive them, delete exactly them and commit, or leave
 * the database as it was. References declare no cascading actions and there are no triggers.
 */
module Reset {
  import opened PyText
  import opened ResetPlan

  type Selection = map<string, set<RowId>>

  predicate Picked(sel: Selection, t: string, id: RowId) { t in sel && id in sel[t] }

  function SelectedIn(db: Db, t: string, p: Pred): set<RowId>
    requires t in db
  {
    set id | id in db[t] && Holds(db, db[t][id], p)
  }

  /** The rows every predicate of the plan holds of, all judged on the same database. */
  function Selected(db: Db, plan: Plan): Selection
    requires plan.Keys <= db.Keys
  {
    map t | t in plan :: SelectedIn(db, t, plan[t])
  }

  lemma SelectionWithin(db: Db, plan: Plan)
    requires plan.Keys <= db.Keys
    ensures forall t | t in Selected(db, plan) :: t in db && Selected(db, plan)[t] <= db[t].Keys
  {}

  function Counts(sel: Selection): map<string, nat> { map t | t in sel :: |sel[t]| }

  function Without(db: Db, sel: Selection): Db {
    map t | t in db :: if t in sel then db[t] - sel[t] else db[t]
  }

  lemma WithoutKeys(db: Db, sel: Selection)
    ensures Without(db, sel).Keys == db.Keys
  {}

  lemma Minus(m: Table, a: set<RowId>, id: RowId)
    ensures (m - a) - {id} == m - (a + {id}) && (m - a).Keys == m.Keys - a
  {}

  lemma OneMore(db: Db, done: Selection, t: string, ids: set<RowId>)
    requires t in db && t !in done
    ensures Without(db, done)[t := Without(db, done)[t] - ids] == Without(db, done[t := ids])
  {}

  // --- referential integrity ---

  function KeyOf(schema: Schema, i: nat, name: string): seq<string>
    requires i <= |schema|
    decreases |schema| - i
  {
    if i == |schema| then [] else if schema[i].name == name then schema[i].key else KeyOf(schema, i + 1, name)
  }

  function Target(schema: Schema, fk: ForeignKey, i: nat): string
    requires i < |fk.columns|
  {
    var key := KeyOf(schema, 0, fk.parent);
    if fk.columns[i].1 != "" then fk.columns[i].1 else if i < |key| then key[i] else ""
  }

  /** An explicit target is taken as it is; an implicit one is the parent's primary key column in the same place. */
  lemma {:induction false} TargetIs(schema: Schema, fk: ForeignKey, i: nat, j: nat)
    requires i < |fk.columns| && j < |schema| && schema[j].name == fk.parent
    requires forall k | 0 <= k < j :: schema[k].name != fk.parent
    ensures fk.columns[i].1 != "" ==> Target(schema, fk, i) == fk.columns[i].1
    ensures fk.columns[i].1 == "" && i < |schema[j].key| ==> Target(schema, fk, i) == schema[j].key[i]
  {
    KeyOfIs(schema, 0, j);
  }

  lemma {:induction false} KeyOfIs(schema: Schema, from: nat, j: nat)
    requires from <= j < |schema| && forall k | from <= k < j :: schema[k].name != schema[j].name
    ensures KeyOf(schema, from, schema[j].name) == schema[j].key
    decreases j - from
  {
    if from < j { KeyOfIs(schema, from + 1, j); }
  }

  predicate Matches(schema: Schema, fk: ForeignKey, row: Row, parent: Row) {
    forall i | 0 <= i < |fk.columns| :: Column(parent, Target(schema, fk, i)) == Column(row, fk.columns[i].0)
  }

  /** A row refers through a key when none of its columns is null. */
  predicate Referring(fk: ForeignKey, row: Row) {
    forall i | 0 <= i < |fk.columns| :: Column(row, fk.columns[i].0) != Null
  }

  predicate Dangles(schema: Schema, db: Db, fk: ForeignKey, row: Row) {
    Referring(fk, row) && !(fk.parent in db && exists id | id in db[fk.parent] :: Matches(schema, fk, row, db[fk.parent][id]))
  }

  predicate Whole(schema: Schema, db: Db, def: TableDef) {
    def.name in db ==> forall id | id in db[def.name] ::
      forall k | 0 <= k < |def.references| :: !Dangles(schema, db, def.references[k], db[def.name][id])
  }

  /** What `PRAGMA foreign_key_check` reports nothing for. */
  predicate Integrity(schema: Schema, db: Db) {
    forall i | 0 <= i < |schema| :: Whole(schema, db, schema[i])
  }

  /** Parent keys are unique: a row matches at most one parent row through each of its references. */
  ghost predicate UniqueParents(schema: Schema, db: Db) {
    forall i, k, id, p, q |
      && 0 <= i < |schema| && 0 <= k < |schema[i].references| && schema[i].name in db && id in db[schema[i].name]
      && schema[i].references[k].parent in db
      && p in db[schema[i].references[k].parent] && q in db[schema[i].references[k].parent]
      && Matches(schema, schema[i].references[k], db[schema[i].name][id], db[schema[i].references[k].parent][p])
      && Matches(schema, schema[i].references[k], db[schema[i].name][id], db[schema[i].references[k].parent][q])
      :: p == q
  }

  /** No row that stays references a row that goes. */
  ghost predicate ReferenceClosed(schema: Schema, db: Db, sel: Selection) {
    forall i, k, id, p |
      && 0 <= i < |schema| && 0 <= k < |schema[i].references| && schema[i].name in db && id in db[schema[i].name]
      && schema[i].references[k].parent in db && p in db[schema[i].references[k].parent]
      && Referring(schema[i].references[k], db[schema[i].name][id])
      && Matches(schema, schema[i].references[k], db[schema[i].name][id], db[schema[i].references[k].parent][p])
      && Picked(sel, schema[i].references[k].parent, p)
      :: Picked(sel, schema[i].name, id)
  }

  /** Deleting a selection from a sound database leaves a sound one exactly when the selection is closed. */
  lemma IntegrityIffClosed(schema: Schema, db: Db, sel: Selection)
    requires Integrity(schema, db) && UniqueParents(schema, db)
    ensures Integrity(schema, Without(db, sel)) <==> ReferenceClosed(schema, db, sel)
  {
    if ReferenceClosed(schema, db, sel) { ClosedKeepsIntegrity(schema, db, sel); }
    if Integrity(schema, Without(db, sel)) { IntegrityMeansClosed(schema, db, sel); }
  }

  lemma ClosedKeepsIntegrity(schema: Schema, db: Db, sel: Selection)
    requires Integrity(schema, db) && ReferenceClosed(schema, db, sel)
    ensures Integrity(schema, Without(db, sel))
  {
    hide Matches, Referring;
    var after := Without(db, sel);
    forall i | 0 <= i < |schema| ensures Whole(schema, after, schema[i]) {
      var def := schema[i];
      if def.name in after {
        forall id, k | id in after[def.name] && 0 <= k < |def.references|
          ensures !Dangles(schema, after, def.references[k], after[def.name][id])
        {
          var fk := def.references[k];
          assert Whole(schema, db, def);
          assert !Dangles(schema, db, fk, db[def.name][id]);
          if Referring(fk, db[def.name][id]) {
            var p :| p in db[fk.parent] && Matches(schema, fk, db[def.name][id], db[fk.parent][p]);
            assert !Picked(sel, def.name, id);
            assert p in after[fk.parent];
          }
        }
      }
    }
  }

  lemma IntegrityMeansClosed(schema: Schema, db: Db, sel: Selection)
    requires UniqueParents(schema, db) && Integrity(schema, Without(db, sel))
    ensures ReferenceClosed(schema, db, sel)
  {
    hide Matches, Referring;
    var after := Without(db, sel);
    forall i, k, id, p |
      && 0 <= i < |schema| && 0 <= k < |schema[i].references| && schema[i].name in db && id in db[schema[i].name]
      && schema[i].references[k].parent in db && p in db[schema[i].references[k].parent]
      && Referring(schema[i].references[k], db[schema[i].name][id])
      && Matches(schema, schema[i].references[k], db[schema[i].name][id], db[schema[i].references[k].parent][p])
      && Picked(sel, schema[i].references[k].parent, p)
      ensures Picked(sel, schema[i].name, id)
    {
      var def, fk := schema[i], schema[i].references[k];
      assert Whole(schema, after, def);
      if id in after[def.name] {
        assert !Dangles(schema, after, fk, after[def.name][id]);
        var q :| q in after[fk.parent] && Matches(schema, fk, after[def.name][id], after[fk.parent][q]);
        assert false;
      }
    }
  }

  // --- the archive ---

  type Archive = map<string, Table>

  const TOKEN := "response_token"
  const TOKEN_DIGEST := "response_token_sha256"

  /** Only a text token can be digested; anything else makes the reset fail. */
  predicate Digestible(row: Row) { TOKEN in row ==> row[TOKEN].Text? }

  function Redact(row: Row, sha: string -> string): Row
    requires Digestible(row)
  {
    if TOKEN in row then (row - {TOKEN})[TOKEN_DIGEST := Text(sha(row[TOKEN].s))] else row
  }

  /** A redacted row holds the digest in place of the token, and all other columns as they were. */
  lemma RedactedRowIs(row: Row, sha: string -> string)
    requires Digestible(row)
    ensures "response_token" !in Redact(row, sha)
    ensures "response_token" in row ==>
      "response_token_sha256" in Redact(row, sha) && Redact(row, sha)["response_token_sha256"] == Text(sha(row["response_token"].s))
    ensures "response_token" !in row ==> Redact(row, sha) == row
    ensures forall c | c != "response_token" && c != "response_token_sha256" ::
      (c in Redact(row, sha) <==> c in row) && (c in row ==> Redact(row, sha)[c] == row[c])
  {
    assert |TOKEN| != |TOKEN_DIGEST|;
  }

  /** Redaction loses nothing but the token itself: two rows with one redaction are the same row. */
  lemma RedactionIsInjective(a: Row, b: Row, sha: string -> string)
    requires forall x, y | sha(x) == sha(y) :: x == y
    requires Digestible(a) && Digestible(b) && TOKEN_DIGEST !in a && TOKEN_DIGEST !in b
    requires Redact(a, sha) == Redact(b, sha)
    ensures a == b
  {
    var r, q := Redact(a, sha), Redact(b, sha);
    assert TOKEN in a <==> TOKEN_DIGEST in r;
    assert TOKEN in b <==> TOKEN_DIGEST in q;
    assert TOKEN in a ==> sha(a[TOKEN].s) == sha(b[TOKEN].s);
    forall c ensures (c in a <==> c in b) && (c in a ==> a[c] == b[c]) {
      if c != TOKEN && c != TOKEN_DIGEST {
        assert (c in a <==> c in r) && (c in b <==> c in q);
        assert c in a ==> r[c] == a[c];
        assert c in b ==> q[c] == b[c];
      }
    }
  }

  ghost predicate Redactable(db: Db, sel: Selection) {
    forall t, id | t in sel && t in db && id in sel[t] && id in db[t] :: Digestible(db[t][id])
  }

  /** The archive holds exactly the selected rows, redacted. */
  ghost predicate Archived(db: Db, sel: Selection, archive: Archive, sha: string -> string) {
    && archive.Keys == sel.Keys
    && forall t | t in sel :: archive[t].Keys == sel[t] && forall id | id in sel[t] ::
        t in db && id in db[t] && Digestible(db[t][id]) && archive[t][id] == Redact(db[t][id], sha)
  }

  function RedactedRows(db: Db, t: string, ids: set<RowId>, sha: string -> string): Table
    requires t in db && ids <= db[t].Keys && forall id | id in ids :: Digestible(db[t][id])
  {
    map id | id in ids :: Redact(db[t][id], sha)
  }

  lemma ArchivedNone(db: Db, sha: string -> string)
    ensures Archived(db, map[], map[], sha)
  {}

  lemma ArchivedRedactable(db: Db, sel: Selection, archive: Archive, sha: string -> string)
    requires Archived(db, sel, archive, sha)
    ensures Redactable(db, sel)
  {
    hide Redact, Digestible;
  }

  lemma ArchivedNext(db: Db, sel: Selection, archive: Archive, sha: string -> string, t: string, ids: set<RowId>)
    requires Archived(db, sel, archive, sha) && t in db && ids <= db[t].Keys && forall id | id in ids :: Digestible(db[t][id])
    ensures Archived(db, sel[t := ids], archive[t := RedactedRows(db, t, ids, sha)], sha)
  {
    hide Redact, Digestible;
  }

  // --- the database after a reset ---

  const META := "mission_meta"
  const SCHEDULER := "mission_scheduler_state"
  const FOCUS := Text("focus_mission_id")
  const MARKER := Text("runtime_mission_reset")

  function Unmarked(meta: Table): Table {
    map id | id in meta && Column(meta[id], "key") != FOCUS && Column(meta[id], "key") != MARKER :: meta[id]
  }

  function MarkerRow(stamp: string): Row { map["key" := MARKER, "value" := Text("1"), "updated_at" := Text(stamp)] }

  function Paused(row: Row): Row {
    row["state" := Text("PAUSED")]["queue_depth" := Num(0)]["active_run_count" := Num(0)]["last_error" := Null]
  }

  function PausedTable(t: Table): Table { map id | id in t :: Paused(t[id]) }

  /** The selected rows gone, the reset marked under row id `marker`, the scheduler paused; nothing else changed. */
  function Final(db: Db, sel: Selection, marker: RowId, stamp: string): Db
    requires META in db && SCHEDULER in db
  {
    var kept := Without(db, sel);
    kept[META := Unmarked(kept[META])[marker := MarkerRow(stamp)]][SCHEDULER := PausedTable(kept[SCHEDULER])]
  }

  /** After a reset one row marks it, no row holds a focus, and every scheduler row is paused and otherwise as it was. */
  lemma MarkedAndPaused(db: Db, sel: Selection, marker: RowId, stamp: string)
    requires META in db && SCHEDULER in db && marker !in Unmarked(Without(db, sel)[META])
    ensures var end := Final(db, sel, marker, stamp);
      && "mission_meta" in end && "mission_scheduler_state" in end
      && MetaMarked(end["mission_meta"], marker, stamp)
      && end["mission_scheduler_state"].Keys == Without(db, sel)["mission_scheduler_state"].Keys
      && forall id | id in end["mission_scheduler_state"] ::
          SchedulerPaused(Without(db, sel)["mission_scheduler_state"][id], end["mission_scheduler_state"][id])
  {
    hide Without, Unmarked, Paused, MarkerRow;
    WithoutKeys(db, sel);
    assert META != SCHEDULER by { assert META[8] != SCHEDULER[8]; }
    UnmarkedIs(Without(db, sel)[META]);
    MarkerIs(stamp);
    forall row: Row ensures SchedulerPaused(row, Paused(row)) { PausedIs(row); }
  }

  ghost predicate MetaMarked(meta: Table, marker: RowId, stamp: string) {
    && marker in meta && Column(meta[marker], "key") == Text("runtime_mission_reset")
    && Column(meta[marker], "value") == Text("1") && Column(meta[marker], "updated_at") == Text(stamp)
    && forall id | id in meta ::
        Column(meta[id], "key") != Text("focus_mission_id")
        && (Column(meta[id], "key") == Text("runtime_mission_reset") ==> id == marker)
  }

  ghost predicate SchedulerPaused(before: Row, after: Row) {
    && Column(after, "state") == Text("PAUSED") && Column(after, "queue_depth") == Num(0)
    && Column(after, "active_run_count") == Num(0) && Column(after, "last_error") == Null
    && forall c | c !in {"state", "queue_depth", "active_run_count", "last_error"} :: Column(after, c) == Column(before, c)
  }

  lemma UnmarkedIs(meta: Table)
    ensures forall id | id in Unmarked(meta) ::
      Column(Unmarked(meta)[id], "key") !in {Text("focus_mission_id"), Text("runtime_mission_reset")}
  {}

  lemma MarkerIs(stamp: string)
    ensures var r := MarkerRow(stamp);
      && Column(r, "key") == Text("runtime_mission_reset") && Column(r, "value") == Text("1")
      && Column(r, "updated_at") == Text(stamp) && Text("runtime_mission_reset") != Text("focus_mission_id")
  {
    assert |"key"| == 3 && |"value"| == 5 && |"updated_at"| == 10;
    assert |"runtime_mission_reset"| != |"focus_mission_id"|;
  }

  lemma PausedIs(row: Row)
    ensures SchedulerPaused(row, Paused(row))
  {
    assert |"state"| == 5 && |"queue_depth"| == 11 && |"active_run_count"| == 16 && |"last_error"| == 10;
  }

  const MISSIONS := "missions"

  predicate Acceptable(schema: Schema, db: Db) {
    MISSIONS in db && db[MISSIONS] == map[] && Integrity(schema, db)
  }

  predicate DispatchPaused(db: Db) {
    META in db && exists id | id in db[META] ::
      Column(db[META][id], "key") == Text("mission_dispatch_paused") && Column(db[META][id], "value") == Text("1")
  }

  /** The row with which an operator pauses dispatch. */
  ghost predicate PauseRow(row: Row) {
    && "key" in row && row["key"] == Text("mission_dispatch_paused")
    && "value" in row && row["value"] == Text("1")
  }

  ghost predicate Planned(schema: Schema, db: Db) {
    && "mission_meta" in db && SCHEDULER in db
    && (exists id | id in db["mission_meta"] :: PauseRow(db["mission_meta"][id]))
    && Discovered(schema).Ok? && Discovered(schema).value.Keys <= db.Keys
  }

  /** The rows a reset of this database is about. */
  ghost function Rows(schema: Schema, db: Db): Selection
    requires Planned(schema, db)
  {
    Selected(db, Discovered(schema).value)
  }

  ghost predicate Ready(schema: Schema, db: Db) {
    Planned(schema, db) && Redactable(db, Rows(schema, db))
  }

  /** The database after a committed reset, with its archive. */
  ghost predicate Committed(schema: Schema, before: Db, after: Db, archive: Option<Archive>, marker: RowId, stamp: string,
                            sha: string -> string)
    requires Ready(schema, before)
  {
    var sel := Rows(schema, before);
    && archive.Some? && Archived(before, sel, archive.value, sha)
    && marker !in Unmarked(Without(before, sel)[META])
    && after == Final(before, sel, marker, stamp) && Acceptable(schema, after)
  }

  /** What becomes of a row that stays: the focus and an old marker go, the scheduler is paused, all else is kept. */
  ghost predicate Survives(end: Db, t: string, id: RowId, row: Row)
    requires t in end
  {
    if t == META then
      if Column(row, "key") in {FOCUS, MARKER} then id in end[t] ==> Column(end[t][id], "key") == MARKER
      else id in end[t] && end[t][id] == row
    else id in end[t] && end[t][id] == if t == SCHEDULER then Paused(row) else row
  }

  /** Every original row either stays as it should or is archived, redacted, and gone; never both or neither. */
  lemma Conservation(db: Db, sel: Selection, archive: Archive, sha: string -> string, marker: RowId, stamp: string,
                     t: string, id: RowId)
    requires META in db && SCHEDULER in db && Archived(db, sel, archive, sha)
    requires marker !in Unmarked(Without(db, sel)[META])
    requires t in db && id in db[t]
    ensures t in Final(db, sel, marker, stamp)
    ensures if t in archive && id in archive[t]
      then Digestible(db[t][id]) && archive[t][id] == Redact(db[t][id], sha)
        && (id in Final(db, sel, marker, stamp)[t] ==> t == META && id == marker)
      else Survives(Final(db, sel, marker, stamp), t, id, db[t][id])
  {
    hide Redact, Digestible;
    assert META != SCHEDULER by { assert META[8] != SCHEDULER[8]; }
    assert MarkerRow(stamp)["key"] == MARKER;
    var kept := Without(db, sel);
    assert id in kept[t] <==> !(t in archive && id in archive[t]);
  }

  /** The number of selected missions is the number of missions there were. */
  lemma AllMissionsSelected(db: Db, sel: Selection, marker: RowId, stamp: string)
    requires META in db && SCHEDULER in db && MISSIONS in db && Final(db, sel, marker, stamp)[MISSIONS] == map[]
    requires forall t | t in sel :: t in db && sel[t] <= db[t].Keys
    ensures (if MISSIONS in sel then |sel[MISSIONS]| else 0) == |db[MISSIONS]|
  {
    assert MISSIONS != META && MISSIONS != SCHEDULER by { assert MISSIONS[7] == 's' && SCHEDULER[7] == '_' && META[7] == '_'; }
    assert Without(db, sel)[MISSIONS] == map[];
    if MISSIONS in sel {
      Minus(db[MISSIONS], sel[MISSIONS], 0);
      assert db[MISSIONS].Keys - sel[MISSIONS] == {};
      assert sel[MISSIONS] == db[MISSIONS].Keys;
      assert |db[MISSIONS].Keys| == |db[MISSIONS]|;
    }
  }

  /** What a successful reset reports. */
  lemma Reported(schema: Schema, db: Db, plan: Plan, marker: RowId, stamp: string)
    requires META in db && SCHEDULER in db && plan.Keys <= db.Keys
    requires Acceptable(schema, Final(db, Selected(db, plan), marker, stamp))
    ensures MISSIONS in db
    ensures |db[MISSIONS]| == if MISSIONS in Selected(db, plan) then |Selected(db, plan)[MISSIONS]| else 0
  {
    hide Integrity, Holds;
    SelectionWithin(db, plan);
    AllMissionsSelected(db, Selected(db, plan), marker, stamp);
  }

  datatype Outcome =
    | Returned(missionsBefore: nat, deleted: map<string, nat>)
    | Raised(committed: bool)

  class Store {
    var db: Db
    var backup: Option<Db>
    var archive: Option<Archive>
    const reliable: bool  // whether every external step succeeds; otherwise each may fail

    constructor (db: Db, reliable: bool)
      ensures this.db == db && backup == None && archive == None && this.reliable == reliable
    {
      this.db, backup, archive, this.reliable := db, None, None, reliable;
    }

    method Step() returns (ok: bool)
      ensures reliable ==> ok
    {
      var fault: bool := *;
      ok := reliable || !fault;
    }

    /** Materialise the identities and the redacted copies of the selected rows, table by table. */
    method Materialise(plan: Plan, sha: string -> string) returns (ok: bool, sel: Selection, rows: Archive)
      requires plan.Keys <= db.Keys
      ensures ok <==> Redactable(db, Selected(db, plan))
      ensures ok ==> sel.Keys == plan.Keys && sel == Selected(db, plan) && Archived(db, sel, rows, sha)
    {
      hide Holds, Redact, Archived, Digestible;
      sel, rows := map[], map[];
      ArchivedNone(db, sha);
      var left := plan.Keys;
      while left != {}
        invariant left <= plan.Keys && sel.Keys == plan.Keys - left
        invariant forall t | t in sel :: sel[t] == SelectedIn(db, t, plan[t])
        invariant Archived(db, sel, rows, sha)
      {
        var t :| t in left;
        var ids := SelectedIn(db, t, plan[t]);
        if id :| id in ids && !Digestible(db[t][id]) {
          assert t in Selected(db, plan) && id in Selected(db, plan)[t];
          return false, sel, rows;
        }
        ArchivedNext(db, sel, rows, sha, t, ids);
        sel := sel[t := ids];
        rows := rows[t := RedactedRows(db, t, ids, sha)];
        left := left - {t};
      }
      assert sel == Selected(db, plan);
      ArchivedRedactable(db, sel, rows, sha);
      ok := true;
    }

    /** Delete rows of one table by row id, in any order. */
    method DeleteFrom(t: string, ids: set<RowId>)
      requires t in db
      modifies this`db
      ensures db == old(db)[t := old(db)[t] - ids]
    {
      var left := ids;
      ghost var table := db[t];
      assert table - (ids - left) == table;
      while exists id :: id in left
        invariant left <= ids && db == old(db)[t := table - (ids - left)]
        decreases left
      {
        var id :| id in left;
        Minus(table, ids - left, id);
        assert ids - (left - {id}) == (ids - left) + {id};
        db := db[t := db[t] - {id}];
        left := left - {id};
      }
      assert ids - left == ids;
    }

    /** Delete the selected rows, in any order of tables. */
    method DeleteRows(sel: Selection)
      requires sel.Keys <= db.Keys
      modifies this`db
      ensures db == Without(old(db), sel)
    {
      var left := sel.Keys;
      ghost var done: Selection := map[];
      assert db == Without(db, done);
      while left != {}
        invariant left <= sel.Keys && done == map t | t in sel && t !in left :: sel[t]
        invariant db == Without(old(db), done)
      {
        var t :| t in left;
        DeleteFrom(t, sel[t]);
        OneMore(old(db), done, t, sel[t]);
        done := done[t := sel[t]];
        left := left - {t};
      }
      assert done == sel;
    }

    /** A row id that is free in a table. */
    method NewRowId(table: Table) returns (id: RowId)
      ensures id !in table
    {
      id := 1;
      var left := table.Keys;
      while exists k :: k in left
        invariant left <= table.Keys && forall k | k in table && k !in left :: k < id
        decreases left
      {
        var k :| k in left;
        if k >= id { id := k + 1; }
        left := left - {k};
      }
    }

    /** The writes and the checks inside the transaction, from the materialised rows on. */
    method Apply(schema: Schema, sel: Selection, stamp: string) returns (ok: bool, marker: RowId)
      requires META in db && SCHEDULER in db && sel.Keys <= db.Keys
      modifies this`db
      ensures ok ==> db == Final(old(db), sel, marker, stamp) && Acceptable(schema, db)
      ensures ok ==> marker !in Unmarked(Without(old(db), sel)[META])
      ensures !ok ==> db == old(db)
      ensures reliable ==> (ok <==> Acceptable(schema, Final(old(db), sel, marker, stamp)))
    {
      hide Unmarked, PausedTable, Without, MarkerRow, Integrity;
      marker := 0;
      var saved := db;
      DeleteRows(sel);
      WithoutKeys(saved, sel);
      marker := NewRowId(Unmarked(db[META]));
      ok := Step();
      if !ok { db := saved; return; }
      db := db[META := Unmarked(db[META])[marker := MarkerRow(stamp)]][SCHEDULER := PausedTable(db[SCHEDULER])];
      assert db == Final(old(db), sel, marker, stamp);
      ok := Step();
      ok := ok && MISSIONS in db && db[MISSIONS] == map[] && Integrity(schema, db);
      if !ok { db := saved; }
    }

    /** `reset_offline`: `marker` is the row id the database gives the marker row. */
    method ResetOffline(schema: Schema, stamp: string, sha: string -> string) returns (o: Outcome, marker: RowId)
      modifies this
      ensures o == Raised(false) ==> db == old(db)
      ensures o != Raised(false) ==>
        Ready(schema, old(db)) && backup == Some(old(db)) && Committed(schema, old(db), db, archive, marker, stamp, sha)
      ensures o.Returned? ==> MISSIONS in old(db) && o.missionsBefore == |old(db)[MISSIONS]|
      ensures o.Returned? ==> o.deleted == Counts(Rows(schema, old(db)))
      ensures old(backup).Some? || old(archive).Some? ==>
        o == Raised(false) && backup == old(backup) && archive == old(archive)
      ensures reliable && old(backup).None? && old(archive).None? && Ready(schema, old(db)) ==>
        (o.Returned? <==> Acceptable(schema, Final(old(db), Rows(schema, old(db)), marker, stamp)))
    {
      hide Integrity, Redactable, Archived, Discovered, Final, Selected, DispatchPaused, Acceptable, Counts;
      marker := 0;
      o := Raised(false);
      if backup.Some? || archive.Some? { return; }
      var plan := Prepare(schema);
      if plan.None? { return; }
      backup := Some(db);
      var ok, sel, rows := Materialise(plan.value, sha);
      if !ok { return; }
      ok := Step();
      if !ok { return; }
      archive := Some(rows);
      ok, marker := Apply(schema, sel, stamp);
      if !ok { return; }
      ok := Step();
      if !ok { return Raised(true), marker; }
      Reported(schema, old(db), plan.value, marker, stamp);
      o := Returned(if MISSIONS in sel then |sel[MISSIONS]| else 0, Counts(sel));
    }

    /** The checks before the transaction, and the plan. */
    method Prepare(schema: Schema) returns (plan: Option<Plan>)
      ensures plan.Some? ==> Planned(schema, db) && plan.value == Discovered(schema).value
      ensures reliable && Planned(schema, db) ==> plan.Some?
    {
      var ok := Step();
      if !ok || !DispatchPaused(db) { return None; }
      var found := Discover(schema);
      ok := Step();
      if !ok || found.Err? || !(found.value.Keys <= db.Keys) || SCHEDULER !in db { return None; }
      plan := Some(found.value);
    }
  }
}
