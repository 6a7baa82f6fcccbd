/**
 * When the discovered plan selects every row that references a selected one. The answer is read off the plan: each
 * reference into a planned table has to be covered by the row predicate of its own table.
 */
module ResetCover {
  import opened PyText
  import opened ResetPlan
  import opened Reset

  /** A column of a table. */
  datatype Cell = Cell(table: string, column: string)

  /** The columns in whose selected values a clause of the predicate looks for the value of `from`. */
  function Supplied(p: Pred, from: string): set<Cell> {
    match p
    case Tagged(_) => {}
    case Refs(clauses) => set i | 0 <= i < |clauses| && clauses[i].from == from :: Cell(clauses[i].parent, clauses[i].to)
  }

  /** A value in column `k` of a selected row of `t` is always found in one of the columns of `s`. */
  predicate Entails(t: string, k: string, p: Pred, s: set<Cell>)
    decreases p
  {
    Cell(t, k) in s
    || (p.Refs? && forall i | 0 <= i < |p.clauses| ::
          p.clauses[i].from == k && EntailsIn(p.clauses[i], s))
  }

  predicate EntailsIn(c: Clause, s: set<Cell>)
    decreases c
  {
    Entails(c.parent, c.to, c.pred, s)
  }

  /** A clause of the parent hands the value of a referenced column on to where the child's predicate looks. */
  predicate HandsOn(schema: Schema, child: Pred, fk: ForeignKey, c: Clause) {
    exists i | 0 <= i < |fk.columns| ::
      c.from == Target(schema, fk, i) && EntailsIn(c, Supplied(child, fk.columns[i].0))
  }

  predicate CoveredRef(schema: Schema, plan: Plan, child: string, fk: ForeignKey)
    requires fk.parent in plan
  {
    && child in plan
    && match plan[child]
       case Tagged(columns) => exists i | 0 <= i < |fk.columns| :: fk.columns[i].0 in columns
       case Refs(_) =>
         || (exists i | 0 <= i < |fk.columns| ::
             Cell(fk.parent, Target(schema, fk, i)) in Supplied(plan[child], fk.columns[i].0))
         || (plan[fk.parent].Refs? && forall j | 0 <= j < |plan[fk.parent].clauses| ::
             HandsOn(schema, plan[child], fk, plan[fk.parent].clauses[j]))
  }

  /** Every declared reference into a planned table is covered. */
  predicate Covered(schema: Schema, plan: Plan) {
    forall i, k | 0 <= i < |schema| && 0 <= k < |schema[i].references| && schema[i].references[k].parent in plan ::
      CoveredRef(schema, plan, schema[i].name, schema[i].references[k])
  }

  // --- what every discovered plan is like ---

  /** A predicate that some row meets: mission columns or clauses at every level. */
  ghost predicate Solid(p: Pred)
    decreases p
  {
    match p
    case Tagged(columns) => columns != []
    case Refs(clauses) => clauses != [] && forall i | 0 <= i < |clauses| :: SolidIn(clauses[i])
  }

  ghost predicate SolidIn(c: Clause)
    decreases c
  {
    Solid(c.pred)
  }

  /** A clause embeds the predicate of another planned table as the plan has it. */
  ghost predicate LayeredAt(plan: Plan, t: string)
    requires t in plan
  {
    && Solid(plan[t])
    && (plan[t].Refs? ==> forall i | 0 <= i < |plan[t].clauses| :: LayeredClause(plan, t, plan[t].clauses[i]))
  }

  ghost predicate LayeredClause(plan: Plan, t: string, c: Clause) {
    c.parent in plan && c.parent != t && c.pred == plan[c.parent]
  }

  ghost predicate Layered(plan: Plan) { forall t | t in plan :: LayeredAt(plan, t) }

  lemma {:induction false} SeedsLayered(schema: Schema, n: nat)
    requires n <= |schema|
    ensures Layered(SeedsTo(schema, n)) && forall t | t in SeedsTo(schema, n) :: SeedsTo(schema, n)[t].Tagged?
  {
    if n > 0 { SeedsLayered(schema, n - 1); }
  }

  lemma {:induction false} ClausesLayered(def: TableDef, i: nat, plan: Plan)
    requires i <= |def.references| && Layered(plan) && def.name !in plan && Clauses(def, i, plan).Ok?
    ensures forall c | c in Clauses(def, i, plan).value :: LayeredClause(plan, def.name, c) && SolidIn(c)
    decreases |def.references| - i
  {
    if i < |def.references| {
      ClausesLayered(def, i + 1, plan);
      if def.references[i].parent in plan { assert LayeredAt(plan, def.references[i].parent); }
    }
  }

  /** Planning one more table with such clauses keeps the plan layered. */
  lemma LayeredNext(plan: Plan, t: string, clauses: seq<Clause>)
    requires Layered(plan) && t !in plan && clauses != []
    requires forall c | c in clauses :: LayeredClause(plan, t, c) && SolidIn(c)
    ensures Layered(plan[t := Refs(clauses)])
  {
    hide Solid;
    var next := plan[t := Refs(clauses)];
    SolidRefs(clauses);
    forall u | u in next ensures LayeredAt(next, u) {
      if u != t { assert LayeredAt(plan, u); }
    }
  }

  lemma SolidRefs(clauses: seq<Clause>)
    requires clauses != [] && forall c | c in clauses :: SolidIn(c)
    ensures Solid(Refs(clauses))
  {}

  lemma {:induction false} PassLayered(schema: Schema, i: nat, plan: Plan)
    requires i <= |schema| && Layered(plan) && Pass(schema, i, plan).Ok?
    ensures Layered(Pass(schema, i, plan).value)
    decreases |schema| - i
  {
    hide Layered;
    if i < |schema| {
      if schema[i].name in plan || Clauses(schema[i], 0, plan) == Ok([]) {
        PassLayered(schema, i + 1, plan);
      } else {
        var clauses := Clauses(schema[i], 0, plan).value;
        ClausesLayered(schema[i], 0, plan);
        LayeredNext(plan, schema[i].name, clauses);
        PassLayered(schema, i + 1, plan[schema[i].name := Refs(clauses)]);
      }
    }
  }

  lemma {:induction false} FixLayered(schema: Schema, plan: Plan)
    requires Layered(plan) && Fix(schema, plan).Ok?
    ensures Layered(Fix(schema, plan).value)
    decreases Missing(schema, plan)
  {
    hide Layered;
    PassLayered(schema, 0, plan);
    if Pass(schema, 0, plan).value.Keys != plan.Keys {
      PassAdds(schema, 0, plan);
      FixLayered(schema, Pass(schema, 0, plan).value);
    }
  }

  lemma LogicalLayered(names: set<string>, plan: Plan, l: Logical)
    requires Layered(plan)
    ensures Layered(WithLogical(names, plan, l))
  {
    if l.child in names && l.parent in plan && l.child !in plan {
      assert LayeredAt(plan, l.parent);
      LayeredNext(plan, l.child, [In(l.key, l.key, l.parent, plan[l.parent])]);
    }
  }

  lemma DiscoveredLayered(schema: Schema)
    requires Discovered(schema).Ok?
    ensures Layered(Discovered(schema).value)
  {
    hide Layered;
    SeedsLayered(schema, |schema|);
    FixLayered(schema, SeedsTo(schema, |schema|));
    var plan := Fix(schema, SeedsTo(schema, |schema|)).value;
    LogicalLayered(Names(schema), plan, LOGICAL[0]);
    LogicalLayered(Names(schema), WithLogical(Names(schema), plan, LOGICAL[0]), LOGICAL[1]);
  }

  // --- a covered plan selects what references a selected row ---

  /** A clause of the child's predicate finds the value of `from`. */
  lemma Found(db: Db, row: Row, child: Pred, from: string, at: Cell, plan: Plan, t: string, id: RowId)
    requires Layered(plan) && t in plan && plan[t] == child
    requires at in Supplied(child, from) && Column(row, from) != Null
    requires at.table in plan && at.table in db && id in db[at.table]
    requires Column(db[at.table][id], at.column) == Column(row, from) && Holds(db, db[at.table][id], plan[at.table])
    ensures Holds(db, row, child)
  {
    assert LayeredAt(plan, t);
    var i :| 0 <= i < |child.clauses| && child.clauses[i].from == from
      && Cell(child.clauses[i].parent, child.clauses[i].to) == at;
    assert LayeredClause(plan, t, child.clauses[i]);
    assert HoldsIn(db, row, child.clauses[i]);
  }

  lemma {:induction false} EntailedIsFound(db: Db, row: Row, plan: Plan, c: string, from: string, t: string, k: string, id: RowId)
    requires Layered(plan) && c in plan && t in plan && plan[c].Refs?
    requires Entails(t, k, plan[t], Supplied(plan[c], from)) && Column(row, from) != Null
    requires t in db && id in db[t] && Column(db[t][id], k) == Column(row, from) && Holds(db, db[t][id], plan[t])
    ensures Holds(db, row, plan[c])
    decreases plan[t]
  {
    var s := Supplied(plan[c], from);
    if Cell(t, k) in s {
      Found(db, row, plan[c], from, Cell(t, k), plan, c, id);
    } else {
      var i :| 0 <= i < |plan[t].clauses| && HoldsIn(db, db[t][id], plan[t].clauses[i]);
      var cl := plan[t].clauses[i];
      assert cl.from == k && EntailsIn(cl, s);
      assert LayeredAt(plan, t) && LayeredClause(plan, t, cl);
      var up :| up in db[cl.parent] && Column(db[cl.parent][up], cl.to) == Column(db[t][id], cl.from)
        && Holds(db, db[cl.parent][up], cl.pred);
      EntailedIsFound(db, row, plan, c, from, cl.parent, cl.to, up);
    }
  }

  /** A row that refers through a covered reference to a selected row is selected. */
  lemma CoveredSelects(schema: Schema, db: Db, plan: Plan, c: string, fk: ForeignKey, row: Row, p: RowId)
    requires Layered(plan) && fk.parent in plan && CoveredRef(schema, plan, c, fk)
    requires fk.parent in db && p in db[fk.parent] && Holds(db, db[fk.parent][p], plan[fk.parent])
    requires Referring(fk, row) && Matches(schema, fk, row, db[fk.parent][p])
    ensures Holds(db, row, plan[c])
  {
    hide Layered;
    match plan[c]
    case Tagged(columns) =>
      var i :| 0 <= i < |fk.columns| && fk.columns[i].0 in columns;
      var j :| 0 <= j < |columns| && columns[j] == fk.columns[i].0;
      assert Column(row, columns[j]) != Null;
    case Refs(_) =>
      if i :| 0 <= i < |fk.columns| && Cell(fk.parent, Target(schema, fk, i)) in Supplied(plan[c], fk.columns[i].0) {
        Found(db, row, plan[c], fk.columns[i].0, Cell(fk.parent, Target(schema, fk, i)), plan, c, p);
      } else {
        HandedOn(schema, db, plan, c, fk, row, p);
      }
  }

  lemma HandedOn(schema: Schema, db: Db, plan: Plan, c: string, fk: ForeignKey, row: Row, p: RowId)
    requires Layered(plan) && fk.parent in plan && c in plan && plan[c].Refs? && plan[fk.parent].Refs?
    requires forall j | 0 <= j < |plan[fk.parent].clauses| :: HandsOn(schema, plan[c], fk, plan[fk.parent].clauses[j])
    requires fk.parent in db && p in db[fk.parent] && Holds(db, db[fk.parent][p], plan[fk.parent])
    requires Referring(fk, row) && Matches(schema, fk, row, db[fk.parent][p])
    ensures Holds(db, row, plan[c])
  {
    var parent := db[fk.parent][p];
    var j :| 0 <= j < |plan[fk.parent].clauses| && HoldsIn(db, parent, plan[fk.parent].clauses[j]);
    var cl := plan[fk.parent].clauses[j];
    assert HandsOn(schema, plan[c], fk, cl);
    var i :| 0 <= i < |fk.columns| && cl.from == Target(schema, fk, i) && EntailsIn(cl, Supplied(plan[c], fk.columns[i].0));
    var up :| up in db[cl.parent] && Column(db[cl.parent][up], cl.to) == Column(parent, cl.from)
      && Holds(db, db[cl.parent][up], cl.pred);
    assert LayeredAt(plan, fk.parent) && LayeredClause(plan, fk.parent, cl);
    EntailedIsFound(db, row, plan, c, fk.columns[i].0, cl.parent, cl.to, up);
  }

  /** The selection of a covered plan is closed under references, in every database. */
  lemma CoveredIsClosed(schema: Schema, db: Db, plan: Plan)
    requires Layered(plan) && Covered(schema, plan) && plan.Keys <= db.Keys
    ensures ReferenceClosed(schema, db, Selected(db, plan))
  {
    hide Layered, Holds, Matches, Referring;
    var sel := Selected(db, plan);
    forall i, k, id, p |
      && 0 <= i < |schema| && 0 <= k < |schema[i].references| && schema[i].name in db && id in db[schema[i].name]
      && schema[i].references[k].parent in db && p in db[schema[i].references[k].parent]
      && Referring(schema[i].references[k], db[schema[i].name][id])
      && Matches(schema, schema[i].references[k], db[schema[i].name][id], db[schema[i].references[k].parent][p])
      && Picked(sel, schema[i].references[k].parent, p)
      ensures Picked(sel, schema[i].name, id)
    {
      var fk := schema[i].references[k];
      assert CoveredRef(schema, plan, schema[i].name, fk);
      CoveredSelects(schema, db, plan, schema[i].name, fk, db[schema[i].name][id], p);
    }
  }

  // --- a plan that is not covered misses a row of some database ---

  datatype Entry = Entry(table: string, row: Row)

  ghost predicate Has(db: Db, rows: seq<Entry>) {
    forall e | e in rows :: e.table in db && exists id | id in db[e.table] :: db[e.table][id] == e.row
  }

  /** The first row meets the predicate in every database that has all of the rows. */
  ghost predicate Selects(rows: seq<Entry>, p: Pred) {
    rows != [] && forall db: Db | Has(db, rows) :: Holds(db, rows[0].row, p)
  }

  const SPARE := Num(0)

  ghost predicate Only(rows: seq<Entry>, v: Value) {
    forall e, c | e in rows :: Column(e.row, c) in {Null, SPARE, v}
  }

  /** Where the rows have the value, the columns in `s` do not. */
  ghost predicate Avoids(rows: seq<Entry>, s: set<Cell>, v: Value) {
    forall e, c | e in rows && Column(e.row, c) == v :: Cell(e.table, c) !in s
  }

  /** A row that meets a clause through the first of the other rows. */
  lemma SelectsThrough(e: Entry, rest: seq<Entry>, p: Pred, i: nat)
    requires p.Refs? && i < |p.clauses| && Selects(rest, p.clauses[i].pred) && rest[0].table == p.clauses[i].parent
    requires Column(rest[0].row, p.clauses[i].to) == Column(e.row, p.clauses[i].from) != Null
    ensures Selects([e] + rest, p)
  {
    var c := p.clauses[i];
    forall db: Db | Has(db, [e] + rest) ensures Holds(db, e.row, p) {
      assert forall x | x in rest :: x in [e] + rest;
      assert Has(db, rest) && rest[0] in rest;
      var id :| id in db[c.parent] && db[c.parent][id] == rest[0].row;
      assert HoldsIn(db, e.row, c);
    }
  }

  lemma SelectsTagged(e: Entry, columns: seq<string>)
    requires columns != [] && Column(e.row, columns[0]) != Null
    ensures Selects([e], Tagged(columns))
  {}

  /** Some selected row has the spare value in a column. */
  lemma {:induction false} SpareRows(t: string, k: string, p: Pred) returns (rows: seq<Entry>)
    requires Solid(p)
    ensures Selects(rows, p) && rows[0].table == t && Column(rows[0].row, k) == SPARE && Only(rows, SPARE)
    decreases p
  {
    match p
    case Tagged(columns) =>
      var e := Entry(t, map[k := SPARE, columns[0] := SPARE]);
      SelectsTagged(e, columns);
      rows := [e];
    case Refs(clauses) =>
      var c := clauses[0];
      assert SolidIn(c);
      var rest := SpareRows(c.parent, c.to, c.pred);
      var e := Entry(t, map[k := SPARE, c.from := SPARE]);
      SelectsThrough(e, rest, p, 0);
      rows := [e] + rest;
  }

  /** When nothing entails it, some selected row has a value that the columns in `s` lack. */
  lemma {:induction false} AvoidingRows(t: string, k: string, p: Pred, s: set<Cell>, v: Value) returns (rows: seq<Entry>)
    requires Solid(p) && !Entails(t, k, p, s) && v != Null && v != SPARE
    ensures Selects(rows, p) && rows[0].table == t && Column(rows[0].row, k) == v && Only(rows, v) && Avoids(rows, s, v)
    decreases p
  {
    match p
    case Tagged(columns) =>
      var e := Entry(t, map[columns[0] := SPARE][k := v]);
      SelectsTagged(e, columns);
      rows := [e];
    case Refs(clauses) =>
      var i :| 0 <= i < |clauses| && !(clauses[i].from == k && EntailsIn(clauses[i], s));
      var c := clauses[i];
      assert SolidIn(c);
      var e := Entry(t, map[c.from := SPARE][k := v]);
      var rest;
      if c.from == k {
        rest := AvoidingRows(c.parent, c.to, c.pred, s, v);
      } else {
        rest := SpareRows(c.parent, c.to, c.pred);
      }
      SelectsThrough(e, rest, p, i);
      rows := [e] + rest;
  }

  lemma {:induction false} NothingEntailed(t: string, k: string, p: Pred)
    requires Solid(p)
    ensures !Entails(t, k, p, {})
    decreases p
  {
    if p.Refs? {
      var c := p.clauses[0];
      assert SolidIn(c);
      NothingEntailed(c.parent, c.to, c.pred);
    }
  }

  /** The columns where the child's predicate looks for the value of its i-th referencing column. */
  ghost function Looks(plan: Plan, child: string, fk: ForeignKey, i: nat): set<Cell>
    requires i < |fk.columns|
  {
    if child in plan then Supplied(plan[child], fk.columns[i].0) else {}
  }

  /** No column is named twice. */
  ghost predicate DistinctColumns(schema: Schema, fk: ForeignKey) {
    forall i, j | 0 <= i < j < |fk.columns| ::
      fk.columns[i].0 != fk.columns[j].0 && Target(schema, fk, i) != Target(schema, fk, j)
  }

  function Mark(i: nat): Value { Num(i + 1) }

  /** A row with mark `i` in the i-th of the columns. */
  ghost function Marked(columns: seq<string>, n: nat): Row
    requires n <= |columns|
  {
    if n == 0 then map[] else Marked(columns, n - 1)[columns[n - 1] := Mark(n - 1)]
  }

  lemma {:induction false} MarkedAt(columns: seq<string>, n: nat)
    requires n <= |columns| && forall i, j | 0 <= i < j < |columns| :: columns[i] != columns[j]
    ensures forall i | 0 <= i < n :: columns[i] in Marked(columns, n) && Marked(columns, n)[columns[i]] == Mark(i)
    ensures forall c | c in Marked(columns, n) :: exists i | 0 <= i < n :: columns[i] == c
  {
    if n > 0 { MarkedAt(columns, n - 1); }
  }

  ghost function Targets(schema: Schema, fk: ForeignKey): (r: seq<string>)
    ensures |r| == |fk.columns| && forall i | 0 <= i < |r| :: r[i] == Target(schema, fk, i)
  {
    seq(|fk.columns|, i requires 0 <= i < |fk.columns| => Target(schema, fk, i))
  }

  ghost function Froms(fk: ForeignKey): (r: seq<string>)
    ensures |r| == |fk.columns| && forall i | 0 <= i < |r| :: r[i] == fk.columns[i].0
  {
    seq(|fk.columns|, i requires 0 <= i < |fk.columns| => fk.columns[i].0)
  }

  ghost function ChildRow(fk: ForeignKey): Row { Marked(Froms(fk), |fk.columns|) }

  lemma ChildMarked(schema: Schema, fk: ForeignKey)
    requires DistinctColumns(schema, fk)
    ensures forall i | 0 <= i < |fk.columns| :: Column(ChildRow(fk), fk.columns[i].0) == Mark(i)
    ensures forall c :: Column(ChildRow(fk), c) == Null || c in Froms(fk)
  {
    hide Target;
    MarkedAt(Froms(fk), |fk.columns|);
  }

  /** Where the rows have a mark, the child's predicate does not look for it. */
  ghost predicate Unseen(plan: Plan, child: string, fk: ForeignKey, rows: seq<Entry>) {
    forall e, c, i | e in rows && 0 <= i < |fk.columns| && Column(e.row, c) == Mark(i) ::
      Cell(e.table, c) !in Looks(plan, child, fk, i)
  }

  ghost predicate HitAt(schema: Schema, plan: Plan, child: string, fk: ForeignKey, i: nat)
    requires i < |fk.columns|
  {
    Cell(fk.parent, Target(schema, fk, i)) in Looks(plan, child, fk, i)
  }

  ghost predicate PassesOn(schema: Schema, plan: Plan, child: string, fk: ForeignKey, c: Clause) {
    exists i | 0 <= i < |fk.columns| :: c.from == Target(schema, fk, i) && EntailsIn(c, Looks(plan, child, fk, i))
  }

  /** What an uncovered reference comes down to. */
  lemma UncoveredMeans(schema: Schema, plan: Plan, child: string, fk: ForeignKey)
    requires Layered(plan) && fk.parent in plan && !CoveredRef(schema, plan, child, fk)
    ensures forall i | 0 <= i < |fk.columns| :: !HitAt(schema, plan, child, fk, i)
    ensures plan[fk.parent].Refs? ==>
      exists j | 0 <= j < |plan[fk.parent].clauses| :: !PassesOn(schema, plan, child, fk, plan[fk.parent].clauses[j])
  {
    hide Target, Solid;
    assert LayeredAt(plan, fk.parent);
    if plan[fk.parent].Refs? {
      if child in plan && plan[child].Refs? {
        var j :| 0 <= j < |plan[fk.parent].clauses| && !HandsOn(schema, plan[child], fk, plan[fk.parent].clauses[j]);
        assert !PassesOn(schema, plan, child, fk, plan[fk.parent].clauses[j]);
      } else {
        NotEmpty(plan[fk.parent]);
        var c := plan[fk.parent].clauses[0];
        NothingEntailed(c.parent, c.to, c.pred);
        assert forall i | 0 <= i < |fk.columns| :: Looks(plan, child, fk, i) == {};
        assert !PassesOn(schema, plan, child, fk, c);
      }
    }
  }

  lemma NotEmpty(p: Pred)
    requires Solid(p) && p.Refs?
    ensures p.clauses != [] && Solid(p.clauses[0].pred)
  {
    assert SolidIn(p.clauses[0]);
  }

  lemma WithSpare(schema: Schema, plan: Plan, child: string, fk: ForeignKey, column: string) returns (e: Entry)
    requires DistinctColumns(schema, fk) && forall i | 0 <= i < |fk.columns| :: !HitAt(schema, plan, child, fk, i)
    ensures e.table == fk.parent && Unseen(plan, child, fk, [e]) && Column(e.row, column) != Null
    ensures forall i | 0 <= i < |fk.columns| :: Column(e.row, Target(schema, fk, i)) == Mark(i)
    ensures column !in Targets(schema, fk) ==> Column(e.row, column) == SPARE
  {
    hide Target, Looks;
    var names := Targets(schema, fk);
    var row := Marked(names, |names|);
    MarkedAt(names, |names|);
    e := Entry(fk.parent, if column in row then row else row[column := SPARE]);
    MarksUnseen(schema, plan, child, fk, e);
  }

  lemma MarksUnseen(schema: Schema, plan: Plan, child: string, fk: ForeignKey, e: Entry)
    requires e.table == fk.parent && forall i | 0 <= i < |fk.columns| :: !HitAt(schema, plan, child, fk, i)
    requires forall c | c in e.row && e.row[c] != SPARE ::
      exists j | 0 <= j < |fk.columns| :: Targets(schema, fk)[j] == c && e.row[c] == Mark(j)
    ensures Unseen(plan, child, fk, [e])
  {
    hide Target, Looks;
    forall c, i | 0 <= i < |fk.columns| && Column(e.row, c) == Mark(i) ensures Cell(e.table, c) !in Looks(plan, child, fk, i) {
      assert !HitAt(schema, plan, child, fk, i);
    }
  }

  /** A selected parent row with a mark in every referenced column, none of which the child's predicate sees. */
  lemma ParentRows(schema: Schema, plan: Plan, child: string, fk: ForeignKey) returns (rows: seq<Entry>)
    requires Layered(plan) && fk.parent in plan && !CoveredRef(schema, plan, child, fk) && DistinctColumns(schema, fk)
    ensures Selects(rows, plan[fk.parent]) && rows[0].table == fk.parent && Unseen(plan, child, fk, rows)
    ensures forall i | 0 <= i < |fk.columns| :: Column(rows[0].row, Target(schema, fk, i)) == Mark(i)
  {
    hide Target, Entails, CoveredRef;
    UncoveredMeans(schema, plan, child, fk);
    assert LayeredAt(plan, fk.parent);
    match plan[fk.parent]
    case Tagged(columns) =>
      var e := WithSpare(schema, plan, child, fk, columns[0]);
      SelectsTagged(e, columns);
      rows := [e];
    case Refs(clauses) =>
      var j :| 0 <= j < |clauses| && !PassesOn(schema, plan, child, fk, clauses[j]);
      rows := ThroughClause(schema, plan, child, fk, j);
  }

  lemma ThroughClause(schema: Schema, plan: Plan, child: string, fk: ForeignKey, j: nat) returns (rows: seq<Entry>)
    requires fk.parent in plan && plan[fk.parent].Refs? && Solid(plan[fk.parent]) && DistinctColumns(schema, fk)
    requires j < |plan[fk.parent].clauses| && !PassesOn(schema, plan, child, fk, plan[fk.parent].clauses[j])
    requires forall i | 0 <= i < |fk.columns| :: !HitAt(schema, plan, child, fk, i)
    ensures Selects(rows, plan[fk.parent]) && rows[0].table == fk.parent && Unseen(plan, child, fk, rows)
    ensures forall i | 0 <= i < |fk.columns| :: Column(rows[0].row, Target(schema, fk, i)) == Mark(i)
  {
    hide Target, Entails, Selects;
    var c := plan[fk.parent].clauses[j];
    assert SolidIn(c);
    var e := WithSpare(schema, plan, child, fk, c.from);
    var rest;
    if c.from in Targets(schema, fk) {
      var i :| 0 <= i < |fk.columns| && Targets(schema, fk)[i] == c.from;
      rest := AvoidingRows(c.parent, c.to, c.pred, Looks(plan, child, fk, i), Mark(i));
      OneMarkUnseen(plan, child, fk, rest, i);
    } else {
      rest := SpareRows(c.parent, c.to, c.pred);
      NoMarkUnseen(plan, child, fk, rest);
    }
    SelectsThrough(e, rest, plan[fk.parent], j);
    rows := [e] + rest;
    assert forall x | x in rows :: x in [e] || x in rest;
  }

  lemma OneMarkUnseen(plan: Plan, child: string, fk: ForeignKey, rows: seq<Entry>, i: nat)
    requires i < |fk.columns| && Only(rows, Mark(i)) && Avoids(rows, Looks(plan, child, fk, i), Mark(i))
    ensures Unseen(plan, child, fk, rows)
  {
    forall e, c, k | e in rows && 0 <= k < |fk.columns| && Column(e.row, c) == Mark(k)
      ensures Cell(e.table, c) !in Looks(plan, child, fk, k)
    {
      assert Column(e.row, c) in {Null, SPARE, Mark(i)};
      assert k == i;
    }
  }

  lemma NoMarkUnseen(plan: Plan, child: string, fk: ForeignKey, rows: seq<Entry>)
    requires Only(rows, SPARE)
    ensures Unseen(plan, child, fk, rows)
  {
    forall e, c, k | e in rows && 0 <= k < |fk.columns| ensures Column(e.row, c) != Mark(k) {
      assert Column(e.row, c) in {Null, SPARE, SPARE};
    }
  }

  ghost function DbOf(rows: seq<Entry>, tables: set<string>): Db {
    map t | t in tables :: map i: int | 0 <= i < |rows| && rows[i].table == t :: rows[i].row
  }

  lemma DbHas(rows: seq<Entry>, tables: set<string>)
    requires forall e | e in rows :: e.table in tables
    ensures Has(DbOf(rows, tables), rows)
  {
    var db := DbOf(rows, tables);
    forall e | e in rows ensures e.table in db && exists id | id in db[e.table] :: db[e.table][id] == e.row {
      var i: int :| 0 <= i < |rows| && rows[i] == e;
      assert i in db[e.table] && db[e.table][i] == e.row;
    }
  }

  /** The child row is not selected: nothing its predicate looks at has its marks. */
  lemma ChildUnselected(schema: Schema, plan: Plan, child: string, fk: ForeignKey, parents: seq<Entry>, tables: set<string>)
    requires Layered(plan) && fk.parent in plan && !CoveredRef(schema, plan, child, fk) && DistinctColumns(schema, fk)
    requires Unseen(plan, child, fk, parents) && child in plan
    ensures var e := Entry(child, ChildRow(fk)); !Holds(DbOf(parents + [e], tables), e.row, plan[child])
  {
    hide Target, Entails, Unseen, Layered, HandsOn, DbOf, ChildRow, HoldsIn;
    ChildMarked(schema, fk);
    var row := ChildRow(fk);
    match plan[child]
    case Tagged(columns) =>
      FromsApart(fk, columns);
      assert forall j | 0 <= j < |columns| :: Column(row, columns[j]) == Null;
    case Refs(clauses) =>
      forall j | 0 <= j < |clauses| ensures !HoldsIn(DbOf(parents + [Entry(child, row)], tables), row, clauses[j]) {
        ClauseMisses(schema, plan, child, fk, parents, tables, j);
      }
  }

  lemma FromsApart(fk: ForeignKey, columns: seq<string>)
    requires forall i | 0 <= i < |fk.columns| :: fk.columns[i].0 !in columns
    ensures forall j | 0 <= j < |columns| :: columns[j] !in Froms(fk)
  {}

  lemma ClauseMisses(schema: Schema, plan: Plan, child: string, fk: ForeignKey, parents: seq<Entry>, tables: set<string>, j: nat)
    requires Layered(plan) && child in plan && plan[child].Refs? && j < |plan[child].clauses|
    requires Unseen(plan, child, fk, parents) && DistinctColumns(schema, fk)
    ensures var e := Entry(child, ChildRow(fk)); !HoldsIn(DbOf(parents + [e], tables), e.row, plan[child].clauses[j])
  {
    hide ChildRow, Holds, DistinctColumns, Target;
    ChildMarked(schema, fk);
    var c, e := plan[child].clauses[j], Entry(child, ChildRow(fk));
    var all := parents + [e];
    var db := DbOf(all, tables);
    assert LayeredAt(plan, child) && LayeredClause(plan, child, c);
    if Column(e.row, c.from) != Null && c.parent in db {
      var i :| 0 <= i < |fk.columns| && Froms(fk)[i] == c.from;
      assert Cell(c.parent, c.to) in Looks(plan, child, fk, i);
      forall id | id in db[c.parent] ensures Column(db[c.parent][id], c.to) != Mark(i) {
        assert all[id].table == c.parent && all[id] != e;
        assert all[id] in parents;
      }
    }
  }

  /** An uncovered reference has a database in which a selected row is referenced by one that stays. */
  lemma UncoveredMisses(schema: Schema, plan: Plan, i: nat, k: nat) returns (db: Db)
    requires Layered(plan) && i < |schema| && k < |schema[i].references| && schema[i].references[k].parent in plan
    requires !CoveredRef(schema, plan, schema[i].name, schema[i].references[k])
    requires DistinctColumns(schema, schema[i].references[k])
    ensures plan.Keys <= db.Keys && !ReferenceClosed(schema, db, Selected(db, plan))
  {
    hide Layered, CoveredRef, Target, Holds, DbOf, ChildRow;
    var child, fk := schema[i].name, schema[i].references[k];
    var parents := ParentRows(schema, plan, child, fk);
    var e := Entry(child, ChildRow(fk));
    var all := parents + [e];
    var tables := plan.Keys + set x | x in all :: x.table;
    db := DbOf(all, tables);
    DbHas(all, tables);
    assert forall x | x in parents :: x in all;
    assert Has(db, parents);
    assert Holds(db, parents[0].row, plan[fk.parent]);
    if child in plan { ChildUnselected(schema, plan, child, fk, parents, tables); }
    ChildMarked(schema, fk);
    InDb(all, tables, 0);
    InDb(all, tables, |parents|);
    assert Referring(fk, e.row) && Matches(schema, fk, e.row, parents[0].row);
    NotClosed(schema, db, plan, i, k, |parents|, 0);
  }

  lemma InDb(rows: seq<Entry>, tables: set<string>, i: nat)
    requires i < |rows| && rows[i].table in tables
    ensures DbOf(rows, tables).Keys == tables
    ensures i in DbOf(rows, tables)[rows[i].table] && DbOf(rows, tables)[rows[i].table][i] == rows[i].row
  {}

  lemma NotClosed(schema: Schema, db: Db, plan: Plan, i: nat, k: nat, id: RowId, p: RowId)
    requires i < |schema| && k < |schema[i].references| && plan.Keys <= db.Keys
    requires schema[i].name in db && id in db[schema[i].name]
    requires var fk := schema[i].references[k];
      && fk.parent in plan && p in db[fk.parent] && Holds(db, db[fk.parent][p], plan[fk.parent])
      && Referring(fk, db[schema[i].name][id]) && Matches(schema, fk, db[schema[i].name][id], db[fk.parent][p])
    requires schema[i].name in plan ==> !Holds(db, db[schema[i].name][id], plan[schema[i].name])
    ensures !ReferenceClosed(schema, db, Selected(db, plan))
  {
    hide Holds, Referring, Matches;
    var sel := Selected(db, plan);
    assert Picked(sel, schema[i].references[k].parent, p) && !Picked(sel, schema[i].name, id);
  }

  ghost predicate ColumnsDistinct(schema: Schema) {
    forall i, k | 0 <= i < |schema| && 0 <= k < |schema[i].references| :: DistinctColumns(schema, schema[i].references[k])
  }

  /** The selection is closed under references in every database if and only if the plan covers every reference. */
  lemma ClosedIffCovered(schema: Schema)
    requires Discovered(schema).Ok? && ColumnsDistinct(schema)
    ensures var plan := Discovered(schema).value;
      Covered(schema, plan) <==>
      forall db: Db | plan.Keys <= db.Keys :: ReferenceClosed(schema, db, Selected(db, plan))
  {
    hide Layered, CoveredRef, DistinctColumns, ReferenceClosed, Selected, Discovered;
    var plan := Discovered(schema).value;
    DiscoveredLayered(schema);
    if Covered(schema, plan) {
      forall db: Db | plan.Keys <= db.Keys ensures ReferenceClosed(schema, db, Selected(db, plan)) {
        CoveredIsClosed(schema, db, plan);
      }
    } else {
      var i, k :| 0 <= i < |schema| && 0 <= k < |schema[i].references| && schema[i].references[k].parent in plan
        && !CoveredRef(schema, plan, schema[i].name, schema[i].references[k]);
      var db := UncoveredMisses(schema, plan, i, k);
    }
  }

  // --- when a reset succeeds ---

  /** The two tables a reset also edits take no part in declared references. */
  ghost predicate Aside(schema: Schema) {
    forall i, k | 0 <= i < |schema| && 0 <= k < |schema[i].references| ::
      schema[i].name !in {META, SCHEDULER} && schema[i].references[k].parent !in {META, SCHEDULER}
  }

  lemma EditsAside(schema: Schema, db: Db, sel: Selection, marker: RowId, stamp: string)
    requires META in db && SCHEDULER in db && Aside(schema) && Integrity(schema, Without(db, sel))
    ensures Integrity(schema, Final(db, sel, marker, stamp))
  {
    hide Matches, Referring, Unmarked, PausedTable, MarkerRow;
    var kept, end := Without(db, sel), Final(db, sel, marker, stamp);
    forall i | 0 <= i < |schema| ensures Whole(schema, end, schema[i]) {
      assert Whole(schema, kept, schema[i]);
      var def := schema[i];
      if def.name in end && def.references != [] {
        assert def.name !in {META, SCHEDULER} by { assert def.references[0].parent !in {META, SCHEDULER}; }
        assert end[def.name] == kept[def.name];
        forall id, k | id in end[def.name] && 0 <= k < |def.references|
          ensures !Dangles(schema, end, def.references[k], end[def.name][id])
        {
          var fk := schema[i].references[k];
          assert fk.parent !in {META, SCHEDULER};
          assert !Dangles(schema, kept, fk, kept[def.name][id]);
          assert fk.parent in kept ==> end[fk.parent] == kept[fk.parent];
        }
      }
    }
  }

  /** Every row of the missions table meets its predicate. */
  ghost predicate EveryMission(db: Db, plan: Plan) {
    MISSIONS in db && forall id | id in db[MISSIONS] :: MISSIONS in plan && Holds(db, db[MISSIONS][id], plan[MISSIONS])
  }

  lemma MissionsGone(db: Db, plan: Plan, marker: RowId, stamp: string)
    requires META in db && SCHEDULER in db && plan.Keys <= db.Keys && EveryMission(db, plan)
    ensures MISSIONS in Final(db, Selected(db, plan), marker, stamp)
    ensures Final(db, Selected(db, plan), marker, stamp)[MISSIONS] == map[]
  {
    hide Holds, Unmarked, PausedTable, MarkerRow;
    assert MISSIONS != META && MISSIONS != SCHEDULER by { assert MISSIONS[7] == 's' && SCHEDULER[7] == '_' && META[7] == '_'; }
    var sel := Selected(db, plan);
    if MISSIONS in plan {
      assert sel[MISSIONS] == SelectedIn(db, MISSIONS, plan[MISSIONS]);
      assert forall id | id in db[MISSIONS] :: id in sel[MISSIONS];
      assert db[MISSIONS] - sel[MISSIONS] == map[];
    } else {
      assert forall id :: id !in db[MISSIONS];
      assert db[MISSIONS] == map[];
    }
  }

  /**
   * On a sound database with unique parent keys, a covered plan that selects every mission gives an acceptable result;
   * the reset itself returns exactly then, unless a step fails.
   */
  lemma CoveredResetSucceeds(schema: Schema, db: Db, marker: RowId, stamp: string)
    requires Planned(schema, db) && Aside(schema) && Integrity(schema, db) && UniqueParents(schema, db)
    requires Covered(schema, Discovered(schema).value) && EveryMission(db, Discovered(schema).value)
    ensures Acceptable(schema, Final(db, Rows(schema, db), marker, stamp))
  {
    hide Integrity, UniqueParents, Covered, Holds, Final, Discovered, Without, Aside, ReferenceClosed;
    var plan := Discovered(schema).value;
    DiscoveredLayered(schema);
    CoveredIsClosed(schema, db, plan);
    IntegrityIffClosed(schema, db, Selected(db, plan));
    EditsAside(schema, db, Selected(db, plan), marker, stamp);
    MissionsGone(db, plan, marker, stamp);
  }
}
