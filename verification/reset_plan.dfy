/**
 * The plan of the offline mission reset: which tables, and which of their rows, belong to missions. Tables are found by
 * a fixpoint over declared references; a planned table keeps the row predicate it was first given.
 */
module ResetPlan {
  import opened PyText

  datatype Value = Null | Num(n: int) | Text(s: string)
  type RowId = int
  type Row = map<string, Value>
  type Table = map<RowId, Row>
  type Db = map<string, Table>

  /** A declared foreign key; an empty target column stands for the parent's primary key. */
  datatype ForeignKey = ForeignKey(parent: string, columns: seq<(string, string)>)
  datatype TableDef = TableDef(name: string, columns: seq<string>, key: seq<string>, references: seq<ForeignKey>)
  type Schema = seq<TableDef>

  /** The row predicates, as trees: a clause holds the parent's predicate as it was when the clause was written. */
  datatype Pred = Tagged(columns: seq<string>) | Refs(clauses: seq<Clause>)
  datatype Clause = In(from: string, to: string, parent: string, pred: Pred)
  type Plan = map<string, Pred>

  datatype PlanError = CompositeKey(table: string) | ImplicitKey(table: string)
  datatype Result<+T> = Ok(value: T) | Err(error: PlanError)

  const MISSION_COLUMNS: set<string> := {"mission_id", "root_mission_id", "parent_mission_id"}

  function Names(schema: Schema): set<string> { set i | 0 <= i < |schema| :: schema[i].name }

  // --- discovery ---

  function MissionFields(columns: seq<string>): seq<string> {
    if columns == [] then []
    else (if columns[0] in MISSION_COLUMNS then [columns[0]] else []) + MissionFields(columns[1..])
  }

  function SeedsTo(schema: Schema, n: nat): Plan
    requires n <= |schema|
  {
    if n == 0 then map[]
    else
      var fields := MissionFields(schema[n - 1].columns);
      if fields == [] then SeedsTo(schema, n - 1) else SeedsTo(schema, n - 1)[schema[n - 1].name := Tagged(fields)]
  }

  /** One clause for each reference into a planned table; only single, explicit keys are accepted. */
  function Clauses(def: TableDef, i: nat, plan: Plan): Result<seq<Clause>>
    requires i <= |def.references|
    decreases |def.references| - i
  {
    if i == |def.references| then Ok([])
    else
      var fk := def.references[i];
      if fk.parent !in plan then Clauses(def, i + 1, plan)
      else if |fk.columns| != 1 then Err(CompositeKey(def.name))
      else if fk.columns[0].1 == "" then Err(ImplicitKey(def.name))
      else match Clauses(def, i + 1, plan)
        case Err(e) => Err(e)
        case Ok(rest) => Ok([In(fk.columns[0].0, fk.columns[0].1, fk.parent, plan[fk.parent])] + rest)
  }

  /** One pass over the tables from position `i`. */
  function Pass(schema: Schema, i: nat, plan: Plan): (r: Result<Plan>)
    requires i <= |schema|
    ensures r.Ok? ==> plan.Keys <= r.value.Keys
    decreases |schema| - i
  {
    if i == |schema| then Ok(plan)
    else if schema[i].name in plan then Pass(schema, i + 1, plan)
    else match Clauses(schema[i], 0, plan)
      case Err(e) => Err(e)
      case Ok(clauses) =>
        if clauses == [] then Pass(schema, i + 1, plan)
        else Pass(schema, i + 1, plan[schema[i].name := Refs(clauses)])
  }

  function Missing(schema: Schema, plan: Plan): nat { |Names(schema) - plan.Keys| }

  /** A pass that plans something leaves fewer tables unplanned. */
  lemma {:induction false} PassAdds(schema: Schema, i: nat, plan: Plan)
    requires i <= |schema| && Pass(schema, i, plan).Ok?
    ensures Pass(schema, i, plan).value.Keys <= plan.Keys + Names(schema)
    ensures Pass(schema, i, plan).value.Keys != plan.Keys ==> Missing(schema, Pass(schema, i, plan).value) < Missing(schema, plan)
    decreases |schema| - i
  {
    PassWithin(schema, i, plan, plan.Keys + Names(schema));
    var p := Pass(schema, i, plan).value;
    if p.Keys != plan.Keys {
      assert !(p.Keys <= plan.Keys);
      var t :| t in p.Keys && t !in plan.Keys;
      FewerLeft(Names(schema), plan.Keys, p.Keys, t);
    }
  }

  lemma FewerLeft(all: set<string>, a: set<string>, b: set<string>, t: string)
    requires a <= b && t in b && t !in a && t in all
    ensures |all - b| < |all - a|
  {
    assert all - b <= (all - a) - {t};
    SubsetSize(all - b, (all - a) - {t});
  }

  lemma {:induction false} SubsetSize(a: set<string>, b: set<string>)
    requires a <= b
    ensures |a| <= |b|
  {
    if a != {} {
      var x :| x in a;
      SubsetSize(a - {x}, b - {x});
    }
  }

  /** The repeated passes of the `while changed` loop. */
  function Fix(schema: Schema, plan: Plan): Result<Plan>
    decreases Missing(schema, plan)
  {
    match Pass(schema, 0, plan)
    case Err(e) => Err(e)
    case Ok(next) =>
      if next.Keys == plan.Keys then Ok(next)
      else
        PassAdds(schema, 0, plan);
        Fix(schema, next)
  }

  datatype Logical = Logical(child: string, parent: string, key: string)

  const LOGICAL: seq<Logical> := [
    Logical("saas_broker_receipts", "saas_handoff_requests", "request_id"),
    Logical("mission_dual_receipts", "mission_dual_evaluations", "request_id")
  ]

  function WithLogical(names: set<string>, plan: Plan, l: Logical): Plan {
    if l.child in names && l.parent in plan && l.child !in plan
    then plan[l.child := Refs([In(l.key, l.key, l.parent, plan[l.parent])])]
    else plan
  }

  function Discovered(schema: Schema): Result<Plan> {
    match Fix(schema, SeedsTo(schema, |schema|))
    case Err(e) => Err(e)
    case Ok(plan) => Ok(WithLogical(Names(schema), WithLogical(Names(schema), plan, LOGICAL[0]), LOGICAL[1]))
  }

  /** `discover`, with its loops. */
  method Discover(schema: Schema) returns (r: Result<Plan>)
    ensures r == Discovered(schema)
  {
    var tables: Plan := map[];
    for i := 0 to |schema|
      invariant tables == SeedsTo(schema, i)
    {
      var fields := MissionFields(schema[i].columns);
      if fields != [] { tables := tables[schema[i].name := Tagged(fields)]; }
    }
    var changed := true;
    while changed
      invariant Fix(schema, SeedsTo(schema, |schema|)) == if changed then Fix(schema, tables) else Ok(tables)
      decreases Missing(schema, tables), changed
    {
      changed := false;
      ghost var start := tables;
      for i := 0 to |schema|
        invariant Pass(schema, 0, start) == Pass(schema, i, tables)
        invariant start.Keys <= tables.Keys && (changed <==> tables.Keys != start.Keys)
      {
        var def := schema[i];
        if def.name !in tables {
          var clauses := ReadClauses(def, tables);
          if clauses.Err? { return Err(clauses.error); }
          if clauses.value != [] {
            tables := tables[def.name := Refs(clauses.value)];
            changed := true;
          }
        }
      }
      PassAdds(schema, 0, start);
    }
    for k := 0 to 2
      invariant Fix(schema, SeedsTo(schema, |schema|)).Ok?
      invariant var p := Fix(schema, SeedsTo(schema, |schema|)).value;
        tables == if k == 0 then p else if k == 1 then WithLogical(Names(schema), p, LOGICAL[0])
          else WithLogical(Names(schema), WithLogical(Names(schema), p, LOGICAL[0]), LOGICAL[1])
    {
      tables := WithLogical(Names(schema), tables, LOGICAL[k]);
    }
    return Ok(tables);
  }

  function Prepend(clauses: seq<Clause>, r: Result<seq<Clause>>): Result<seq<Clause>> {
    match r
    case Err(e) => Err(e)
    case Ok(rest) => Ok(clauses + rest)
  }

  /** The inner loop over the foreign keys of one table. */
  method ReadClauses(def: TableDef, plan: Plan) returns (r: Result<seq<Clause>>)
    ensures r == Clauses(def, 0, plan)
  {
    var clauses: seq<Clause> := [];
    assert Clauses(def, 0, plan) == Prepend([], Clauses(def, 0, plan)) by {
      if Clauses(def, 0, plan).Ok? { assert [] + Clauses(def, 0, plan).value == Clauses(def, 0, plan).value; }
    }
    for i := 0 to |def.references|
      invariant Clauses(def, 0, plan) == Prepend(clauses, Clauses(def, i, plan))
    {
      var fk := def.references[i];
      if fk.parent in plan {
        if |fk.columns| != 1 { return Err(CompositeKey(def.name)); }
        if fk.columns[0].1 == "" { return Err(ImplicitKey(def.name)); }
        var c := In(fk.columns[0].0, fk.columns[0].1, fk.parent, plan[fk.parent]);
        if Clauses(def, i + 1, plan).Ok? {
          assert clauses + ([c] + Clauses(def, i + 1, plan).value) == (clauses + [c]) + Clauses(def, i + 1, plan).value;
        }
        clauses := clauses + [c];
      }
    }
    assert clauses + [] == clauses;
    return Ok(clauses);
  }

  // --- which tables are planned ---

  ghost predicate References(def: TableDef, parents: set<string>) {
    exists fk | fk in def.references :: fk.parent in parents
  }

  /** Holds the tables with a mission column and every table that references one of its members. */
  ghost predicate Closed(schema: Schema, tables: set<string>) {
    forall i | 0 <= i < |schema| ::
      HasMissionColumn(schema[i]) || References(schema[i], tables) ==> schema[i].name in tables
  }

  ghost predicate HasMissionColumn(def: TableDef) {
    "mission_id" in def.columns || "root_mission_id" in def.columns || "parent_mission_id" in def.columns
  }

  /** The mission columns of a table, all of them. */
  lemma {:induction false} FieldsExact(columns: seq<string>, c: string)
    ensures c in MissionFields(columns) <==> c in columns && (c == "mission_id" || c == "root_mission_id" || c == "parent_mission_id")
  {
    if columns != [] { FieldsExact(columns[1..], c); }
  }

  lemma SeedIffMissionColumn(def: TableDef)
    ensures MissionFields(def.columns) != [] <==> HasMissionColumn(def)
  {
    FieldsExact(def.columns, "mission_id");
    FieldsExact(def.columns, "root_mission_id");
    FieldsExact(def.columns, "parent_mission_id");
    if MissionFields(def.columns) != [] { FieldsExact(def.columns, MissionFields(def.columns)[0]); }
  }

  lemma {:induction false} NoClauses(def: TableDef, i: nat, plan: Plan)
    requires i <= |def.references|
    ensures Clauses(def, i, plan) == Ok([]) <==> forall k | i <= k < |def.references| :: def.references[k].parent !in plan
    decreases |def.references| - i
  {
    if i < |def.references| { NoClauses(def, i + 1, plan); }
  }

  lemma NoReference(def: TableDef, plan: Plan)
    ensures Clauses(def, 0, plan) == Ok([]) <==> !References(def, plan.Keys)
  {
    NoClauses(def, 0, plan);
  }

  lemma {:induction false} PassWithin(schema: Schema, i: nat, plan: Plan, bound: set<string>)
    requires i <= |schema| && Pass(schema, i, plan).Ok? && plan.Keys <= bound
    requires forall k | i <= k < |schema| && References(schema[k], bound) :: schema[k].name in bound
    ensures Pass(schema, i, plan).value.Keys <= bound
    decreases |schema| - i
  {
    if i < |schema| {
      NoReference(schema[i], plan);
      if schema[i].name in plan || Clauses(schema[i], 0, plan) == Ok([]) {
        PassWithin(schema, i + 1, plan, bound);
      } else {
        PassWithin(schema, i + 1, plan[schema[i].name := Refs(Clauses(schema[i], 0, plan).value)], bound);
      }
    }
  }

  lemma {:induction false} PassStable(schema: Schema, i: nat, plan: Plan)
    requires i <= |schema| && Pass(schema, i, plan).Ok? && Pass(schema, i, plan).value.Keys == plan.Keys
    ensures Pass(schema, i, plan).value == plan
    ensures forall k | i <= k < |schema| && References(schema[k], plan.Keys) :: schema[k].name in plan
    decreases |schema| - i
  {
    if i < |schema| {
      NoReference(schema[i], plan);
      PassStable(schema, i + 1, plan);
    }
  }

  lemma {:induction false} FixLeast(schema: Schema, plan: Plan, bound: set<string>)
    requires Fix(schema, plan).Ok?
    ensures plan.Keys <= Fix(schema, plan).value.Keys
    ensures forall k | 0 <= k < |schema| && References(schema[k], Fix(schema, plan).value.Keys) ::
      schema[k].name in Fix(schema, plan).value
    ensures plan.Keys <= bound && Closed(schema, bound) ==> Fix(schema, plan).value.Keys <= bound
    decreases Missing(schema, plan)
  {
    var next := Pass(schema, 0, plan).value;
    if plan.Keys <= bound && Closed(schema, bound) { PassWithin(schema, 0, plan, bound); }
    if next.Keys == plan.Keys {
      PassStable(schema, 0, plan);
    } else {
      PassAdds(schema, 0, plan);
      FixLeast(schema, next, bound);
    }
  }

  lemma {:induction false} SeedsAre(schema: Schema, n: nat)
    requires n <= |schema|
    ensures SeedsTo(schema, n).Keys == set i | 0 <= i < n && HasMissionColumn(schema[i]) :: schema[i].name
  {
    hide HasMissionColumn, MissionFields;
    if n > 0 { SeedIffMissionColumn(schema[n - 1]); }
    if n > 0 { SeedsAre(schema, n - 1); }
  }

  /** The tables planned before the logical extras are the least closed set. */
  lemma PlannedIsLeast(schema: Schema)
    requires Fix(schema, SeedsTo(schema, |schema|)).Ok?
    ensures var planned := Fix(schema, SeedsTo(schema, |schema|)).value.Keys;
      Closed(schema, planned) && forall s | Closed(schema, s) :: planned <= s
  {
    var seeds := SeedsTo(schema, |schema|);
    SeedsAre(schema, |schema|);
    FixLeast(schema, seeds, {});
    forall s | Closed(schema, s) ensures Fix(schema, seeds).value.Keys <= s {
      FixLeast(schema, seeds, s);
    }
  }

  // --- which rows are selected ---

  /** The meaning of a row predicate; a missing or null column equals nothing. */
  predicate Holds(db: Db, row: Row, p: Pred)
    decreases p
  {
    match p
    case Tagged(columns) => exists i | 0 <= i < |columns| :: Column(row, columns[i]) != Null
    case Refs(clauses) => exists i | 0 <= i < |clauses| :: HoldsIn(db, row, clauses[i])
  }

  predicate HoldsIn(db: Db, row: Row, c: Clause)
    decreases c
  {
    && Column(row, c.from) != Null && c.parent in db
    && exists id | id in db[c.parent] ::
      Column(db[c.parent][id], c.to) == Column(row, c.from) && Holds(db, db[c.parent][id], c.pred)
  }

  function Column(row: Row, c: string): Value { if c in row then row[c] else Null }

  /** A declared or logical reference from a column of one table to a column of another. */
  ghost predicate Link(schema: Schema, child: string, from: string, parent: string, to: string) {
    || (exists i | 0 <= i < |schema| ::
        schema[i].name == child && ForeignKey(parent, [(from, to)]) in schema[i].references)
    || (from == to && Logical(child, parent, from) in LOGICAL)
  }

  /** The row carries a mission identity itself. */
  ghost predicate MissionRow(row: Row) {
    exists c | c in MISSION_COLUMNS :: Column(row, c) != Null
  }

  /** A predicate is built only from references of the schema, ending in mission columns. */
  ghost predicate Grounded(schema: Schema, t: string, p: Pred)
    decreases p
  {
    match p
    case Tagged(columns) => forall i | 0 <= i < |columns| :: columns[i] in MISSION_COLUMNS
    case Refs(clauses) => forall i | 0 <= i < |clauses| :: GroundedIn(schema, t, clauses[i])
  }

  ghost predicate GroundedIn(schema: Schema, t: string, c: Clause)
    decreases c
  {
    Link(schema, t, c.from, c.parent, c.to) && Grounded(schema, c.parent, c.pred)
  }

  ghost predicate GroundedPlan(schema: Schema, plan: Plan) {
    forall t | t in plan :: Grounded(schema, t, plan[t])
  }

  lemma {:induction false} FieldsAreMission(columns: seq<string>)
    ensures forall c | c in MissionFields(columns) :: c in MISSION_COLUMNS
  {
    if columns != [] { FieldsAreMission(columns[1..]); }
  }

  lemma {:induction false} SeedsGrounded(schema: Schema, n: nat)
    requires n <= |schema|
    ensures GroundedPlan(schema, SeedsTo(schema, n))
  {
    if n > 0 {
      SeedsGrounded(schema, n - 1);
      FieldsAreMission(schema[n - 1].columns);
      assert Grounded(schema, schema[n - 1].name, Tagged(MissionFields(schema[n - 1].columns)));
    }
  }

  lemma {:induction false} ClausesGrounded(schema: Schema, t: nat, i: nat, plan: Plan)
    requires t < |schema| && i <= |schema[t].references| && GroundedPlan(schema, plan)
    requires Clauses(schema[t], i, plan).Ok?
    ensures forall c | c in Clauses(schema[t], i, plan).value :: GroundedIn(schema, schema[t].name, c)
    decreases |schema[t].references| - i
  {
    if i < |schema[t].references| {
      ClausesGrounded(schema, t, i + 1, plan);
      var fk := schema[t].references[i];
      if fk.parent in plan {
        assert fk == ForeignKey(fk.parent, [(fk.columns[0].0, fk.columns[0].1)]) && fk in schema[t].references;
        assert Grounded(schema, fk.parent, plan[fk.parent]);
        var c := In(fk.columns[0].0, fk.columns[0].1, fk.parent, plan[fk.parent]);
        assert Link(schema, schema[t].name, c.from, c.parent, c.to);
        assert GroundedIn(schema, schema[t].name, c);
        assert Clauses(schema[t], i, plan).value == [c] + Clauses(schema[t], i + 1, plan).value;
      }
    }
  }

  lemma {:induction false} PassGrounded(schema: Schema, i: nat, plan: Plan)
    requires i <= |schema| && GroundedPlan(schema, plan) && Pass(schema, i, plan).Ok?
    ensures GroundedPlan(schema, Pass(schema, i, plan).value)
    decreases |schema| - i
  {
    if i < |schema| {
      if schema[i].name in plan || Clauses(schema[i], 0, plan) == Ok([]) {
        PassGrounded(schema, i + 1, plan);
      } else {
        ClausesGrounded(schema, i, 0, plan);
        assert Grounded(schema, schema[i].name, Refs(Clauses(schema[i], 0, plan).value));
        PassGrounded(schema, i + 1, plan[schema[i].name := Refs(Clauses(schema[i], 0, plan).value)]);
      }
    }
  }

  lemma {:induction false} FixGrounded(schema: Schema, plan: Plan)
    requires GroundedPlan(schema, plan) && Fix(schema, plan).Ok?
    ensures GroundedPlan(schema, Fix(schema, plan).value)
    decreases Missing(schema, plan)
  {
    PassGrounded(schema, 0, plan);
    if Pass(schema, 0, plan).value.Keys != plan.Keys {
      PassAdds(schema, 0, plan);
      FixGrounded(schema, Pass(schema, 0, plan).value);
    }
  }

  lemma LogicalGrounded(schema: Schema, plan: Plan, l: Logical)
    requires GroundedPlan(schema, plan) && l in LOGICAL
    ensures GroundedPlan(schema, WithLogical(Names(schema), plan, l))
  {
    if l.parent in plan {
      assert GroundedIn(schema, l.child, In(l.key, l.key, l.parent, plan[l.parent]));
    }
  }

  lemma DiscoveredGrounded(schema: Schema)
    requires Discovered(schema).Ok?
    ensures GroundedPlan(schema, Discovered(schema).value)
  {
    SeedsGrounded(schema, |schema|);
    FixGrounded(schema, SeedsTo(schema, |schema|));
    var plan := Fix(schema, SeedsTo(schema, |schema|)).value;
    LogicalGrounded(schema, plan, LOGICAL[0]);
    LogicalGrounded(schema, WithLogical(Names(schema), plan, LOGICAL[0]), LOGICAL[1]);
  }

  datatype Place = Place(table: string, id: RowId)

  ghost predicate Exists(db: Db, p: Place) { p.table in db && p.id in db[p.table] }

  /** The first row references the second one. */
  ghost predicate Refers(schema: Schema, db: Db, a: Place, b: Place) {
    && Exists(db, a) && Exists(db, b)
    && exists from, to | Link(schema, a.table, from, b.table, to) ::
      Column(db[a.table][a.id], from) == Column(db[b.table][b.id], to) != Null
  }

  /** A chain of references that ends in a row with a mission identity. */
  ghost predicate Chain(schema: Schema, db: Db, path: seq<Place>) {
    && path != []
    && (forall i | 0 < i < |path| :: Refers(schema, db, path[i - 1], path[i]))
    && Exists(db, path[|path| - 1]) && MissionRow(db[path[|path| - 1].table][path[|path| - 1].id])
  }

  lemma {:induction false} SelectedReachesMission(schema: Schema, db: Db, at: Place, p: Pred) returns (path: seq<Place>)
    requires Grounded(schema, at.table, p) && Exists(db, at) && Holds(db, db[at.table][at.id], p)
    ensures path != [] && path[0] == at && Chain(schema, db, path)
    decreases p
  {
    match p
    case Tagged(columns) =>
      path := [at];
    case Refs(clauses) =>
      var row := db[at.table][at.id];
      var i :| 0 <= i < |clauses| && HoldsIn(db, row, clauses[i]);
      var c := clauses[i];
      assert GroundedIn(schema, at.table, c);
      var id :| id in db[c.parent] && Column(db[c.parent][id], c.to) == Column(row, c.from)
        && Holds(db, db[c.parent][id], c.pred);
      var rest := SelectedReachesMission(schema, db, Place(c.parent, id), c.pred);
      assert Refers(schema, db, at, rest[0]);
      path := [at] + rest;
      ExtendChain(schema, db, at, rest);
  }

  lemma ExtendChain(schema: Schema, db: Db, at: Place, rest: seq<Place>)
    requires Chain(schema, db, rest) && Refers(schema, db, at, rest[0])
    ensures Chain(schema, db, [at] + rest)
  {
    var path := [at] + rest;
    forall i | 0 < i < |path| ensures Refers(schema, db, path[i - 1], path[i]) {
      if i > 1 { assert path[i - 1] == rest[i - 2] && path[i] == rest[i - 1]; }
    }
  }

  /** Every row the discovered plan selects reaches a mission row by references. */
  lemma PlanReachesMission(schema: Schema, db: Db, at: Place) returns (path: seq<Place>)
    requires Discovered(schema).Ok? && at.table in Discovered(schema).value
    requires Exists(db, at) && Holds(db, db[at.table][at.id], Discovered(schema).value[at.table])
    ensures path != [] && path[0] == at && Chain(schema, db, path)
  {
    DiscoveredGrounded(schema);
    path := SelectedReachesMission(schema, db, at, Discovered(schema).value[at.table]);
  }

  // --- the logical extras ---

  /** Plans agree on the tables of the first one. */
  ghost predicate Extends(a: Plan, b: Plan) { a.Keys <= b.Keys && forall t | t in a :: b[t] == a[t] }

  /** A child of a logical pair that is in the schema and whose parent is planned. */
  ghost predicate ExtraChild(schema: Schema, planned: set<string>, t: string) {
    && t in Names(schema)
    && ((t == "saas_broker_receipts" && "saas_handoff_requests" in planned)
        || (t == "mission_dual_receipts" && "mission_dual_evaluations" in planned))
  }

  /** The parent of such a child. */
  ghost function ParentOf(t: string): string {
    if t == "saas_broker_receipts" then "saas_handoff_requests" else "mission_dual_evaluations"
  }

  lemma PairsApart()
    ensures "saas_broker_receipts" != "mission_dual_receipts" && "saas_broker_receipts" != "mission_dual_evaluations"
    ensures "mission_dual_receipts" != "saas_handoff_requests" && "saas_broker_receipts" != "saas_handoff_requests"
    ensures "mission_dual_receipts" != "mission_dual_evaluations"
  {
    assert "saas_broker_receipts"[0] == 's' && "mission_dual_receipts"[0] == 'm' && "mission_dual_evaluations"[0] == 'm';
    assert "saas_handoff_requests"[5] == 'h' && "saas_broker_receipts"[5] == 'b' && "saas_handoff_requests"[0] == 's';
    assert "mission_dual_receipts"[13] == 'r' && "mission_dual_evaluations"[13] == 'e';
  }

  /** What one pair adds to a plan, and what it leaves. */
  ghost predicate Adds(names: set<string>, a: Plan, b: Plan, l: Logical) {
    && Extends(a, b)
    && (forall t :: t in b <==> t in a || (t == l.child && l.child in names && l.parent in a))
    && (l.child in b && l.child !in a ==> l.parent in b && b[l.child] == Refs([In(l.key, l.key, l.parent, b[l.parent])]))
  }

  lemma LogicalAddsOne(names: set<string>, plan: Plan, l: Logical)
    requires l.child != l.parent
    ensures Adds(names, plan, WithLogical(names, plan, l), l)
  {}

  /** The planned tables are the fixpoint's and, of the two pairs, the children in the schema with a planned parent. */
  lemma LogicalExtras(schema: Schema)
    requires Discovered(schema).Ok?
    ensures Fix(schema, SeedsTo(schema, |schema|)).Ok?
    ensures var fixed, plan := Fix(schema, SeedsTo(schema, |schema|)).value, Discovered(schema).value;
      && Extends(fixed, plan)
      && (forall t :: t in plan <==> t in fixed || ExtraChild(schema, fixed.Keys, t))
      && forall t | t in plan && t !in fixed :: ExtraPlanned(plan, t)
  {
    hide Fix, SeedsTo, Names, WithLogical;
    PairsApart();
    var names, fixed := Names(schema), Fix(schema, SeedsTo(schema, |schema|)).value;
    var one := WithLogical(names, fixed, LOGICAL[0]);
    LogicalAddsOne(names, fixed, LOGICAL[0]);
    LogicalAddsOne(names, one, LOGICAL[1]);
    BothPairs(schema, fixed, one, Discovered(schema).value);
  }

  ghost predicate ExtraPlanned(plan: Plan, t: string) {
    t in plan && ParentOf(t) in plan && plan[t] == Refs([In("request_id", "request_id", ParentOf(t), plan[ParentOf(t)])])
  }

  lemma BothPairs(schema: Schema, fixed: Plan, one: Plan, plan: Plan)
    requires Adds(Names(schema), fixed, one, Logical("saas_broker_receipts", "saas_handoff_requests", "request_id"))
    requires Adds(Names(schema), one, plan, Logical("mission_dual_receipts", "mission_dual_evaluations", "request_id"))
    ensures Extends(fixed, plan)
    ensures forall t :: t in plan <==> t in fixed || ExtraChild(schema, fixed.Keys, t)
    ensures forall t | t in plan && t !in fixed :: ExtraPlanned(plan, t)
  {
    hide Names;
    PairsApart();
  }

  /** A child in the schema with a planned parent is planned. */
  lemma LogicalChildrenPlanned(schema: Schema, t: string)
    requires Discovered(schema).Ok? && ExtraChild(schema, Discovered(schema).value.Keys, t)
    ensures t in Discovered(schema).value
  {
    hide Fix, SeedsTo, Names;
    LogicalExtras(schema);
    PairsApart();
  }

  /** The planned tables are the least closed set and those children; nothing else. */
  lemma PlannedExactly(schema: Schema, least: set<string>)
    requires Discovered(schema).Ok? && Closed(schema, least) && forall s | Closed(schema, s) :: least <= s
    ensures forall t :: t in Discovered(schema).value <==> t in least || ExtraChild(schema, least, t)
  {
    hide Fix, SeedsTo, Names, Discovered, Closed, ExtraChild;
    LogicalExtras(schema);
    PlannedIsLeast(schema);
    assert least == Fix(schema, SeedsTo(schema, |schema|)).value.Keys;
  }

  /** A row of a child planned as an extra is selected exactly when its request is that of a selected parent row. */
  lemma LogicalRows(schema: Schema, db: Db, t: string, row: Row)
    requires Discovered(schema).Ok? && t in Discovered(schema).value && t !in Fix(schema, SeedsTo(schema, |schema|)).value
    requires ParentOf(t) in db
    ensures ParentOf(t) in Discovered(schema).value
    ensures Holds(db, row, Discovered(schema).value[t]) <==>
      && Column(row, "request_id") != Null
      && exists id | id in db[ParentOf(t)] ::
        Column(db[ParentOf(t)][id], "request_id") == Column(row, "request_id")
        && Holds(db, db[ParentOf(t)][id], Discovered(schema).value[ParentOf(t)])
  {
    hide Fix, SeedsTo, Names, Discovered;
    LogicalExtras(schema);
    var plan := Discovered(schema).value;
    assert ExtraPlanned(plan, t);
    var c := In("request_id", "request_id", ParentOf(t), plan[ParentOf(t)]);
    assert Refs([c]).clauses[0] == c;
    assert Holds(db, row, plan[t]) <==> HoldsIn(db, row, c);
  }

  // --- the rows of mission tables ---

  lemma {:induction false} SeedsHold(schema: Schema, n: nat, i: nat)
    requires i < n <= |schema| && HasMissionColumn(schema[i]) && forall j | 0 <= j < |schema| && j != i :: schema[j].name != schema[i].name
    ensures schema[i].name in SeedsTo(schema, n) && SeedsTo(schema, n)[schema[i].name] == Tagged(MissionFields(schema[i].columns))
  {
    hide HasMissionColumn, MissionFields;
    if i < n - 1 { SeedsHold(schema, n - 1, i); } else { SeedIffMissionColumn(schema[i]); }
  }

  lemma {:induction false} PassExtends(schema: Schema, i: nat, plan: Plan)
    requires i <= |schema| && Pass(schema, i, plan).Ok?
    ensures Extends(plan, Pass(schema, i, plan).value)
    decreases |schema| - i
  {
    if i < |schema| {
      if schema[i].name in plan || Clauses(schema[i], 0, plan) == Ok([]) {
        PassExtends(schema, i + 1, plan);
      } else {
        PassExtends(schema, i + 1, plan[schema[i].name := Refs(Clauses(schema[i], 0, plan).value)]);
      }
    }
  }

  lemma {:induction false} FixExtends(schema: Schema, plan: Plan)
    requires Fix(schema, plan).Ok?
    ensures Extends(plan, Fix(schema, plan).value)
    decreases Missing(schema, plan)
  {
    PassExtends(schema, 0, plan);
    if Pass(schema, 0, plan).value.Keys != plan.Keys {
      PassAdds(schema, 0, plan);
      FixExtends(schema, Pass(schema, 0, plan).value);
    }
  }

  /** A row of a table with mission columns is selected exactly when one of those columns is not null. */
  lemma MissionRows(schema: Schema, db: Db, i: nat, row: Row)
    requires Discovered(schema).Ok? && i < |schema| && HasMissionColumn(schema[i])
    requires forall j | 0 <= j < |schema| && j != i :: schema[j].name != schema[i].name
    ensures schema[i].name in Discovered(schema).value
    ensures Holds(db, row, Discovered(schema).value[schema[i].name]) <==>
      exists c | c in schema[i].columns && c in {"mission_id", "root_mission_id", "parent_mission_id"} :: Column(row, c) != Null
  {
    hide Fix, SeedsTo, Discovered, HasMissionColumn, MissionFields;
    SeedsHold(schema, |schema|, i);
    LogicalExtras(schema);
    FixExtends(schema, SeedsTo(schema, |schema|));
    var fields := MissionFields(schema[i].columns);
    assert Discovered(schema).value[schema[i].name] == Tagged(fields);
    forall c ensures c in fields <==> c in schema[i].columns && c in {"mission_id", "root_mission_id", "parent_mission_id"} {
      FieldsExact(schema[i].columns, c);
    }
    TaggedHolds(db, row, fields);
  }

  lemma TaggedHolds(db: Db, row: Row, columns: seq<string>)
    ensures Holds(db, row, Tagged(columns)) <==> exists c | c in columns :: Column(row, c) != Null
  {
    if c :| c in columns && Column(row, c) != Null {
      var i :| 0 <= i < |columns| && columns[i] == c;
    }
  }

  // --- when discovery refuses ---

  /** A reference into the set that needs review before the table can be planned. */
  ghost predicate NeedsReview(def: TableDef, parents: set<string>) {
    exists k | 0 <= k < |def.references| ::
      def.references[k].parent in parents && (|def.references[k].columns| != 1 || def.references[k].columns[0].1 == "")
  }

  lemma {:induction false} ClausesRefuse(def: TableDef, i: nat, plan: Plan)
    requires i <= |def.references| && Clauses(def, i, plan).Err?
    ensures NeedsReview(def, plan.Keys)
    ensures var e := Clauses(def, i, plan).error; e == CompositeKey(def.name) || e == ImplicitKey(def.name)
    decreases |def.references| - i
  {
    var fk := def.references[i];
    if !(fk.parent in plan && (|fk.columns| != 1 || fk.columns[0].1 == "")) { ClausesRefuse(def, i + 1, plan); }
  }

  lemma {:induction false} PassRefuses(schema: Schema, i: nat, plan: Plan, bound: set<string>) returns (k: nat)
    requires i <= |schema| && Pass(schema, i, plan).Err? && plan.Keys <= bound && Closed(schema, bound)
    ensures k < |schema| && schema[k].name == Pass(schema, i, plan).error.table
    ensures schema[k].name !in plan && NeedsReview(schema[k], bound)
    decreases |schema| - i
  {
    NoReference(schema[i], plan);
    if schema[i].name in plan || Clauses(schema[i], 0, plan) == Ok([]) {
      k := PassRefuses(schema, i + 1, plan, bound);
    } else if Clauses(schema[i], 0, plan).Err? {
      ClausesRefuse(schema[i], 0, plan);
      k := i;
    } else {
      k := PassRefuses(schema, i + 1, plan[schema[i].name := Refs(Clauses(schema[i], 0, plan).value)], bound);
    }
  }

  lemma {:induction false} FixRefuses(schema: Schema, plan: Plan, bound: set<string>) returns (k: nat)
    requires Fix(schema, plan).Err? && plan.Keys <= bound && Closed(schema, bound)
    ensures k < |schema| && schema[k].name == Fix(schema, plan).error.table
    ensures schema[k].name !in plan && NeedsReview(schema[k], bound)
    decreases Missing(schema, plan)
  {
    if Pass(schema, 0, plan).Err? {
      k := PassRefuses(schema, 0, plan, bound);
    } else {
      PassWithin(schema, 0, plan, bound);
      PassAdds(schema, 0, plan);
      k := FixRefuses(schema, Pass(schema, 0, plan).value, bound);
    }
  }

  /**
   * A refusal names a table without a mission column that has a composite or implicit reference into every closed set,
   * so into the mission tables and their descendants.
   */
  lemma RefusalNamesTable(schema: Schema, bound: set<string>) returns (k: nat)
    requires Discovered(schema).Err? && Closed(schema, bound)
    ensures k < |schema| && schema[k].name == Discovered(schema).error.table
    ensures !HasMissionColumn(schema[k]) && NeedsReview(schema[k], bound)
  {
    hide HasMissionColumn;
    SeedsAre(schema, |schema|);
    k := FixRefuses(schema, SeedsTo(schema, |schema|), bound);
  }

  // --- a planned table is not planned again for a parent found later ---

  /** A leaf table that references a mission table and a descendant of it, and comes before that descendant. */
  ghost predicate LateFamily(leaf: TableDef, late: TableDef, root: TableDef, a: string, i: string, u: string, k: string) {
    && leaf.name != late.name && leaf.name != root.name && late.name != root.name && i != "" && k != ""
    && MissionFields(leaf.columns) == [] && MissionFields(late.columns) == [] && MissionFields(root.columns) != []
    && leaf.references == [ForeignKey(late.name, [(u, k)]), ForeignKey(root.name, [(a, i)])]
    && late.references == [ForeignKey(root.name, [(a, i)])]
  }

  function LateClause(root: TableDef, a: string, i: string): Clause {
    In(a, i, root.name, Tagged(MissionFields(root.columns)))
  }

  lemma LateSeeds(leaf: TableDef, late: TableDef, root: TableDef, a: string, i: string, u: string, k: string)
    requires LateFamily(leaf, late, root, a, i, u, k)
    ensures SeedsTo([leaf, late, root], 3) == map[root.name := Tagged(MissionFields(root.columns))]
  {
    var s := [leaf, late, root];
    assert SeedsTo(s, 1) == SeedsTo(s, 0);
    assert SeedsTo(s, 2) == SeedsTo(s, 1);
  }

  lemma LateClauses(leaf: TableDef, late: TableDef, root: TableDef, a: string, i: string, u: string, k: string, plan: Plan)
    requires LateFamily(leaf, late, root, a, i, u, k)
    requires late.name !in plan && root.name in plan && plan[root.name] == Tagged(MissionFields(root.columns))
    ensures Clauses(leaf, 0, plan) == Ok([LateClause(root, a, i)]) && Clauses(late, 0, plan) == Ok([LateClause(root, a, i)])
  {
    assert Clauses(leaf, 2, plan) == Ok([]) && Clauses(late, 1, plan) == Ok([]);
    assert leaf.references[1] == late.references[0] == ForeignKey(root.name, [(a, i)]);
    assert [LateClause(root, a, i)] + [] == [LateClause(root, a, i)];
    assert Clauses(leaf, 1, plan) == Ok([LateClause(root, a, i)]);
  }

  lemma LatePasses(s: Schema, p0: Plan, p1: Plan, p2: Plan, refs: Pred)
    requires |s| == 3 && s[0].name !in p0 && s[1].name !in p0 && s[2].name in p0 && s[0].name != s[1].name
    requires refs.Refs? && refs.clauses != [] && p1 == p0[s[0].name := refs] && p2 == p1[s[1].name := refs]
    requires Clauses(s[0], 0, p0) == Ok(refs.clauses) && Clauses(s[1], 0, p1) == Ok(refs.clauses)
    ensures Fix(s, p0) == Ok(p2)
  {
    assert Pass(s, 2, p2) == Pass(s, 3, p2) == Ok(p2);
    assert Pass(s, 1, p1) == Ok(p2);
    assert Pass(s, 0, p0) == Ok(p2);
    assert Pass(s, 0, p2) == Pass(s, 1, p2) == Ok(p2);
    assert Fix(s, p2) == Ok(p2);
    assert s[0].name in p2;
    PassAdds(s, 0, p0);
  }

  lemma LatePlan(leaf: TableDef, late: TableDef, root: TableDef, a: string, i: string, u: string, k: string)
    requires LateFamily(leaf, late, root, a, i, u, k)
    ensures Discovered([leaf, late, root]) == Ok(map[root.name := Tagged(MissionFields(root.columns)),
      leaf.name := Refs([LateClause(root, a, i)]), late.name := Refs([LateClause(root, a, i)])])
  {
    hide Clauses, Fix, SeedsTo, Names;
    var s := [leaf, late, root];
    LateSeeds(leaf, late, root, a, i, u, k);
    var p0: Plan := map[root.name := Tagged(MissionFields(root.columns))];
    var refs := Refs([LateClause(root, a, i)]);
    var p1 := p0[leaf.name := refs];
    var p2 := p1[late.name := refs];
    LateClauses(leaf, late, root, a, i, u, k, p0);
    LateClauses(leaf, late, root, a, i, u, k, p1);
    LatePasses(s, p0, p1, p2, refs);
    LogicalAdds(Names(s), p2, LOGICAL[0], root.name, leaf.name, late.name) by { NamesOfThree(leaf, late, root); }
    LogicalAdds(Names(s), p2, LOGICAL[1], root.name, leaf.name, late.name) by { NamesOfThree(leaf, late, root); }
    assert p2 == map[root.name := Tagged(MissionFields(root.columns)), leaf.name := refs, late.name := refs];
  }

  lemma NamesOfThree(x: TableDef, y: TableDef, z: TableDef)
    ensures Names([x, y, z]) == {x.name, y.name, z.name}
  {
    var s := [x, y, z];
    assert s[0].name in Names(s) && s[1].name in Names(s) && s[2].name in Names(s);
  }

  lemma LogicalAdds(names: set<string>, plan: Plan, l: Logical, x: string, y: string, z: string)
    requires names == {x, y, z} && x in plan && y in plan && z in plan
    ensures WithLogical(names, plan, l) == plan
  {}

  /**
   * In that family a leaf row whose own mission reference is null stays unselected, although its table is planned and
   * it references a selected row.
   */
  lemma LaterParentMissed(leaf: TableDef, late: TableDef, root: TableDef, a: string, i: string, u: string, k: string,
                          db: Db, leafId: RowId, lateId: RowId)
    requires LateFamily(leaf, late, root, a, i, u, k)
    requires Exists(db, Place(leaf.name, leafId)) && Exists(db, Place(late.name, lateId))
    requires Column(db[leaf.name][leafId], a) == Null
    requires Column(db[leaf.name][leafId], u) == Column(db[late.name][lateId], k) != Null
    ensures Refers([leaf, late, root], db, Place(leaf.name, leafId), Place(late.name, lateId))
    ensures Discovered([leaf, late, root]).Ok? && Discovered([leaf, late, root]).value.Keys == {leaf.name, late.name, root.name}
    ensures !Holds(db, db[leaf.name][leafId], Discovered([leaf, late, root]).value[leaf.name])
  {
    hide Discovered;
    LatePlan(leaf, late, root, a, i, u, k);
    var s := [leaf, late, root];
    assert s[0].name == leaf.name && ForeignKey(late.name, [(u, k)]) in s[0].references;
    assert Link(s, leaf.name, u, late.name, k);
    assert !HoldsIn(db, db[leaf.name][leafId], LateClause(root, a, i));
  }
}
