/**
 * The branch census: for every remote branch its position against the default branch in the commit graph, a
 * classification, and the classification carried over from the previous census when the branch has not moved.
 */
module Census {
  import opened PyText

  type Commit = nat

  /** The parents of each commit, which come before it: one graph holds all commits there will ever be. */
  type Dag = seq<seq<Commit>>

  ghost predicate Acyclic(dag: Dag) {
    forall c, i | 0 <= c < |dag| && 0 <= i < |dag[c]| :: dag[c][i] < c
  }

  function Ancestors(dag: Dag, c: Commit): set<Commit>
    requires Acyclic(dag) && c < |dag|
    decreases c
  {
    {c} + set i, a | 0 <= i < |dag[c]| && a in Ancestors(dag, dag[c][i]) :: a
  }

  lemma {:induction false} AncestorsTransitive(dag: Dag, a: Commit, b: Commit, c: Commit)
    requires Acyclic(dag) && b < |dag| && c < |dag| && a in Ancestors(dag, b) && b in Ancestors(dag, c)
    ensures a in Ancestors(dag, c)
    decreases c
  {
    if b != c {
      var i :| 0 <= i < |dag[c]| && b in Ancestors(dag, dag[c][i]);
      AncestorsTransitive(dag, a, b, dag[c][i]);
    }
  }

  /** A way from a commit back to an ancestor, from parent to parent. */
  ghost predicate Descends(dag: Dag, path: seq<Commit>) {
    && path != [] && (forall i | 0 <= i < |path| :: path[i] < |dag|)
    && forall i | 0 < i < |path| :: path[i] in dag[path[i - 1]]
  }

  /** The ancestors are the commits to which such a way leads, over any of the parents. */
  lemma {:induction false} AncestorHasWay(dag: Dag, a: Commit, c: Commit) returns (path: seq<Commit>)
    requires Acyclic(dag) && c < |dag| && a in Ancestors(dag, c)
    ensures Descends(dag, path) && path[0] == c && path[|path| - 1] == a
    decreases c
  {
    if a == c {
      path := [c];
    } else {
      var i :| 0 <= i < |dag[c]| && a in Ancestors(dag, dag[c][i]);
      var rest := AncestorHasWay(dag, a, dag[c][i]);
      path := [c] + rest;
    }
  }

  lemma {:induction false} WayLeadsToAncestor(dag: Dag, path: seq<Commit>)
    requires Acyclic(dag) && Descends(dag, path)
    ensures path[|path| - 1] in Ancestors(dag, path[0])
    decreases |path|
  {
    if |path| > 1 {
      var rest := path[1..];
      assert forall i | 0 < i < |rest| :: rest[i] == path[i + 1] && rest[i - 1] == path[i];
      WayLeadsToAncestor(dag, rest);
      var i :| 0 <= i < |dag[path[0]]| && dag[path[0]][i] == path[1];
    }
  }

  lemma AncestorsInclude(dag: Dag, b: Commit, c: Commit)
    requires Acyclic(dag) && b < |dag| && c < |dag|
    ensures b in Ancestors(dag, c) <==> Ancestors(dag, b) <= Ancestors(dag, c)
  {
    if b in Ancestors(dag, c) {
      forall a | a in Ancestors(dag, b) ensures a in Ancestors(dag, c) { AncestorsTransitive(dag, a, b, c); }
    } else {
      assert b in Ancestors(dag, b);
    }
  }

  /** The commits of one tip that the other does not have. */
  function Beyond(dag: Dag, tip: Commit, base: Commit): nat
    requires Acyclic(dag) && tip < |dag| && base < |dag|
  {
    |Ancestors(dag, tip) - Ancestors(dag, base)|
  }

  /** The counts agree with reachability: nothing beyond the base exactly when the tip is reachable from it. */
  lemma BeyondIffUnreachable(dag: Dag, tip: Commit, base: Commit)
    requires Acyclic(dag) && tip < |dag| && base < |dag|
    ensures Beyond(dag, tip, base) == 0 <==> tip in Ancestors(dag, base)
  {
    AncestorsInclude(dag, tip, base);
    var rest := Ancestors(dag, tip) - Ancestors(dag, base);
    assert rest == {} <==> Ancestors(dag, tip) <= Ancestors(dag, base);
  }

  // --- classification ---

  datatype Class = Active | HistoricalEvidence | DeleteEligible | UnmergedUnique | Unknown | Superseded

  predicate Carried(previous: Option<Class>) {
    previous.Some? && previous.value != Unknown && previous.value != Active
  }

  function Classify(dag: Dag, base: Commit, head: Commit, referenced: bool, previous: Option<Class>): Class
    requires Acyclic(dag) && head < |dag| && base < |dag|
  {
    var ahead, behind := Beyond(dag, head, base), Beyond(dag, base, head);
    if Carried(previous) then previous.value
    else if head == base || (head in Ancestors(dag, base) && ahead == 0) then
      if referenced then HistoricalEvidence else DeleteEligible
    else if base in Ancestors(dag, head) && ahead > 0 && behind == 0 then UnmergedUnique
    else if ahead > 0 then Unknown
    else Superseded
  }

  ghost predicate Merged(dag: Dag, base: Commit, head: Commit)
    requires Acyclic(dag) && head < |dag| && base < |dag|
  {
    head in Ancestors(dag, base)
  }

  ghost predicate Diverged(dag: Dag, base: Commit, head: Commit)
    requires Acyclic(dag) && head < |dag| && base < |dag|
  {
    head !in Ancestors(dag, base) && base !in Ancestors(dag, head)
  }

  /** Without a classification to carry over, each class has its meaning in the graph. */
  lemma FirstClassification(dag: Dag, base: Commit, head: Commit, referenced: bool, previous: Option<Class>)
    requires Acyclic(dag) && head < |dag| && base < |dag| && !Carried(previous)
    ensures var c := Classify(dag, base, head, referenced, previous);
      && (c == DeleteEligible <==> Merged(dag, base, head) && !referenced)
      && (c == HistoricalEvidence <==> Merged(dag, base, head) && referenced)
      && (c == UnmergedUnique <==> !Merged(dag, base, head) && base in Ancestors(dag, head))
      && (c == Unknown <==> Diverged(dag, base, head))
      && c != Superseded && c != Active
  {
    BeyondIffUnreachable(dag, head, base);
    BeyondIffUnreachable(dag, base, head);
    assert head in Ancestors(dag, head);
  }

  /** A branch the default branch refers to is called deletable exactly when the carried class says so. */
  lemma DeletableThoughReferenced(dag: Dag, base: Commit, head: Commit, previous: Option<Class>)
    requires Acyclic(dag) && head < |dag| && base < |dag|
    ensures Classify(dag, base, head, true, previous) == DeleteEligible <==> previous == Some(DeleteEligible)
  {
    if !Carried(previous) { FirstClassification(dag, base, head, true, previous); }
  }

  // --- one census ---

  datatype Ref = Ref(branch: string, head: Commit)

  /** A repository as observed: its default branch, the head the baseline pins, its remote branches, and the names of
      branches the default branch mentions. */
  datatype Repo = Repo(name: string, branch: string, head: Commit, refs: seq<Ref>, mentioned: set<string>)

  datatype Row = Row(repo: string, branch: string, head: Commit, ahead: nat, behind: nat, category: Class)
  datatype Key = Key(repo: string, branch: string, head: Commit)

  type Dags = map<string, Dag>

  ghost predicate Known(dags: Dags, r: Repo) {
    && r.name in dags && Acyclic(dags[r.name]) && r.head < |dags[r.name]|
    && forall f | f in r.refs :: f.head < |dags[r.name]|
  }

  ghost predicate AllKnown(dags: Dags, repos: seq<Repo>) { forall r | r in repos :: Known(dags, r) }

  function KeyOf(r: Row): Key { Key(r.repo, r.branch, r.head) }

  /** The dictionary of previous rows: the last row of a key wins. */
  function Previous(rows: seq<Row>): map<Key, Row> {
    if rows == [] then map[] else Previous(rows[..|rows| - 1])[KeyOf(rows[|rows| - 1]) := rows[|rows| - 1]]
  }

  function ClassAt(previous: map<Key, Row>, k: Key): Option<Class> {
    if k in previous then Some(previous[k].category) else None
  }

  function RowFor(dag: Dag, r: Repo, f: Ref, previous: map<Key, Row>): Row
    requires Acyclic(dag) && r.head < |dag| && f.head < |dag|
  {
    if f.branch == r.branch then Row(r.name, f.branch, f.head, 0, 0, Active)
    else
      var category := Classify(dag, r.head, f.head, f.branch in r.mentioned,
                               ClassAt(previous, Key(r.name, f.branch, f.head)));
      Row(r.name, f.branch, f.head, Beyond(dag, f.head, r.head), Beyond(dag, r.head, f.head), category)
  }

  const SYMBOLIC := "HEAD"

  function RowsTo(dag: Dag, r: Repo, n: nat, previous: map<Key, Row>): seq<Row>
    requires Acyclic(dag) && r.head < |dag| && n <= |r.refs| && forall f | f in r.refs :: f.head < |dag|
  {
    if n == 0 then []
    else
      var row := if r.refs[n - 1].branch == SYMBOLIC then [] else [RowFor(dag, r, r.refs[n - 1], previous)];
      RowsTo(dag, r, n - 1, previous) + row
  }

  /** The default branch is still at the pinned head. */
  predicate Pinned(r: Repo) { Ref(r.branch, r.head) in r.refs }

  function CensusTo(dags: Dags, repos: seq<Repo>, n: nat, previous: map<Key, Row>): Option<seq<Row>>
    requires AllKnown(dags, repos) && n <= |repos|
  {
    if n == 0 then Some([])
    else match CensusTo(dags, repos, n - 1, previous)
      case None => None
      case Some(rows) =>
        var r := repos[n - 1];
        assert Known(dags, r);
        if Pinned(r) then Some(rows + RowsTo(dags[r.name], r, |r.refs|, previous)) else None
  }

  /** The rows of a census; none when a default branch has drifted. */
  function CensusRows(dags: Dags, repos: seq<Repo>, previous: seq<Row>): Option<seq<Row>>
    requires AllKnown(dags, repos)
  {
    CensusTo(dags, repos, |repos|, Previous(previous))
  }

  function Count(rows: seq<Row>, c: Class): nat {
    if rows == [] then 0 else Count(rows[..|rows| - 1], c) + if rows[|rows| - 1].category == c then 1 else 0
  }

  /** `branch_census`, with its loops. */
  method BranchCensus(dags: Dags, repos: seq<Repo>, previous: seq<Row>)
      returns (rows: Option<seq<Row>>, counts: map<Class, nat>)
    requires AllKnown(dags, repos)
    ensures rows == CensusRows(dags, repos, previous)
    ensures rows.Some? ==> forall c: Class :: Count(rows.value, c) == if c in counts then counts[c] else 0
    ensures rows.Some? ==> forall c | c in counts :: counts[c] > 0
  {
    hide RowsTo, Previous, Count;
    counts := map[];
    var known := PreviousRows(previous);
    var all: seq<Row> := [];
    for n := 0 to |repos|
      invariant CensusTo(dags, repos, n, known) == Some(all)
    {
      var r := repos[n];
      assert Known(dags, r);
      if !Pinned(r) {
        DriftStops(dags, repos, n + 1, known);
        return None, counts;
      }
      var more := RepoRows(dags[r.name], r, known);
      all := all + more;
    }
    counts := CountRows(all);
    rows := Some(all);
  }

  method PreviousRows(previous: seq<Row>) returns (known: map<Key, Row>)
    ensures known == Previous(previous)
  {
    known := map[];
    for i := 0 to |previous|
      invariant known == Previous(previous[..i])
    {
      assert previous[..i + 1][..i] == previous[..i];
      known := known[KeyOf(previous[i]) := previous[i]];
    }
    assert previous[..|previous|] == previous;
  }

  lemma {:induction false} DriftStops(dags: Dags, repos: seq<Repo>, n: nat, previous: map<Key, Row>)
    requires AllKnown(dags, repos) && n <= |repos| && CensusTo(dags, repos, n, previous).None?
    ensures CensusTo(dags, repos, |repos|, previous).None?
    decreases |repos| - n
  {
    if n < |repos| { DriftStops(dags, repos, n + 1, previous); }
  }

  method RepoRows(dag: Dag, r: Repo, previous: map<Key, Row>) returns (rows: seq<Row>)
    requires Acyclic(dag) && r.head < |dag| && forall f | f in r.refs :: f.head < |dag|
    ensures rows == RowsTo(dag, r, |r.refs|, previous)
  {
    rows := [];
    for i := 0 to |r.refs|
      invariant rows == RowsTo(dag, r, i, previous)
    {
      if r.refs[i].branch != SYMBOLIC { rows := rows + [RowFor(dag, r, r.refs[i], previous)]; }
    }
  }

  method CountRows(rows: seq<Row>) returns (counts: map<Class, nat>)
    ensures forall c: Class :: Count(rows, c) == if c in counts then counts[c] else 0
    ensures forall c | c in counts :: counts[c] > 0
  {
    counts := map[];
    for i := 0 to |rows|
      invariant forall c: Class :: Count(rows[..i], c) == if c in counts then counts[c] else 0
      invariant forall c | c in counts :: counts[c] > 0
    {
      assert rows[..i + 1][..i] == rows[..i];
      var c := rows[i].category;
      counts := counts[c := (if c in counts then counts[c] else 0) + 1];
    }
    assert rows[..|rows|] == rows;
  }

  /** The six counts add up to the number of rows. */
  lemma {:induction false} CountsAddUp(rows: seq<Row>)
    ensures Count(rows, Active) + Count(rows, HistoricalEvidence) + Count(rows, DeleteEligible)
      + Count(rows, UnmergedUnique) + Count(rows, Unknown) + Count(rows, Superseded) == |rows|
  {
    if rows != [] { CountsAddUp(rows[..|rows| - 1]); }
  }

  // --- chains of censuses ---

  /** What a census may say of a branch: its distances in commits; deletable or historical only if merged, unknown only if diverged, never superseded. */
  ghost predicate RowHolds(dags: Dags, r: Repo, row: Row)
    requires Known(dags, r)
  {
    && row.repo == r.name && row.head < |dags[r.name]|
    && (row.category in {DeleteEligible, HistoricalEvidence} ==> Merged(dags[r.name], r.head, row.head))
    && (row.category == Unknown ==> Diverged(dags[r.name], r.head, row.head))
    && row.category != Superseded
    && (row.branch == r.branch <==> row.category == Active)
    && (row.branch == r.branch ==> row.ahead == 0 && row.behind == 0)
    && (row.branch != r.branch ==>
        && row.ahead == |Ancestors(dags[r.name], row.head) - Ancestors(dags[r.name], r.head)|
        && row.behind == |Ancestors(dags[r.name], r.head) - Ancestors(dags[r.name], row.head)|)
  }

  ghost predicate RowsHold(dags: Dags, repos: seq<Repo>, rows: seq<Row>)
    requires AllKnown(dags, repos)
  {
    forall row | row in rows :: exists r | r in repos :: RowHolds(dags, r, row)
  }

  ghost predicate DistinctRepos(repos: seq<Repo>) {
    forall i, j | 0 <= i < |repos| && 0 <= j < |repos| && repos[i].name == repos[j].name :: i == j
  }

  /** Default branches only fast-forward from one observation to the next. */
  ghost predicate FastForward(dags: Dags, before: seq<Repo>, after: seq<Repo>)
    requires AllKnown(dags, before) && AllKnown(dags, after)
  {
    forall r, q | r in before && q in after && r.name == q.name :: Merged(dags[r.name], q.head, r.head)
  }

  lemma {:induction false} PreviousFrom(rows: seq<Row>, k: Key)
    requires k in Previous(rows)
    ensures Previous(rows)[k] in rows && KeyOf(Previous(rows)[k]) == k
  {
    if KeyOf(rows[|rows| - 1]) != k { PreviousFrom(rows[..|rows| - 1], k); }
  }

  lemma RowForHolds(dags: Dags, before: seq<Repo>, earlier: seq<Row>, r: Repo, f: Ref)
    requires AllKnown(dags, before) && RowsHold(dags, before, earlier) && Known(dags, r) && f in r.refs
    requires forall q | q in before && q.name == r.name :: Merged(dags[r.name], r.head, q.head)
    ensures RowHolds(dags, r, RowFor(dags[r.name], r, f, Previous(earlier)))
  {
    hide Ancestors;
    var dag := dags[r.name];
    var k := Key(r.name, f.branch, f.head);
    var p := ClassAt(Previous(earlier), k);
    if f.branch != r.branch {
      if !Carried(p) {
        FirstClassification(dag, r.head, f.head, f.branch in r.mentioned, p);
      } else {
        PreviousFrom(earlier, k);
        var q :| q in before && RowHolds(dags, q, Previous(earlier)[k]);
        if p.value in {DeleteEligible, HistoricalEvidence} { AncestorsTransitive(dag, f.head, q.head, r.head); }
      }
    }
  }

  lemma {:induction false} RepoHolds(dags: Dags, before: seq<Repo>, earlier: seq<Row>, r: Repo, n: nat)
    requires AllKnown(dags, before) && RowsHold(dags, before, earlier) && Known(dags, r) && n <= |r.refs|
    requires forall q | q in before && q.name == r.name :: Merged(dags[r.name], r.head, q.head)
    ensures forall row | row in RowsTo(dags[r.name], r, n, Previous(earlier)) :: RowHolds(dags, r, row)
  {
    hide RowHolds, RowsHold, RowFor, Merged;
    if n > 0 {
      RepoHolds(dags, before, earlier, r, n - 1);
      RowForHolds(dags, before, earlier, r, r.refs[n - 1]);
    }
  }

  lemma RowsHoldJoin(dags: Dags, repos: seq<Repo>, a: seq<Row>, b: seq<Row>, r: Repo)
    requires AllKnown(dags, repos) && RowsHold(dags, repos, a) && r in repos && Known(dags, r)
    requires forall row | row in b :: RowHolds(dags, r, row)
    ensures RowsHold(dags, repos, a + b)
  {
    hide RowHolds;
  }

  lemma ForwardTo(dags: Dags, before: seq<Repo>, repos: seq<Repo>, r: Repo)
    requires AllKnown(dags, before) && AllKnown(dags, repos) && FastForward(dags, before, repos) && r in repos
    ensures Known(dags, r) && forall q | q in before && q.name == r.name :: Known(dags, q) && Merged(dags[r.name], r.head, q.head)
  {
    hide Merged;
    assert forall q | q in before :: Known(dags, q);
  }

  lemma {:induction false} CensusHolds(dags: Dags, before: seq<Repo>, earlier: seq<Row>, repos: seq<Repo>, n: nat)
    requires AllKnown(dags, before) && AllKnown(dags, repos) && RowsHold(dags, before, earlier) && n <= |repos|
    requires FastForward(dags, before, repos) && CensusTo(dags, repos, n, Previous(earlier)).Some?
    ensures RowsHold(dags, repos, CensusTo(dags, repos, n, Previous(earlier)).value)
  {
    hide RowsTo, RowHolds, FastForward, Merged, Previous;
    if n > 0 {
      CensusHolds(dags, before, earlier, repos, n - 1);
      var r := repos[n - 1];
      ForwardTo(dags, before, repos, r);
      RepoHolds(dags, before, earlier, r, |r.refs|);
      RowsHoldJoin(dags, repos, CensusTo(dags, repos, n - 1, Previous(earlier)).value,
                   RowsTo(dags[r.name], r, |r.refs|, Previous(earlier)), r);
    }
  }

  /** The rows a census of a chain is fed. */
  ghost function Fed(censuses: seq<seq<Row>>, i: nat): seq<Row>
    requires i <= |censuses|
  {
    if i == 0 then [] else censuses[i - 1]
  }

  /** One census of a chain: it is fed the rows of the one before, and default branches have fast-forwarded since. */
  ghost predicate Follows(dags: Dags, snapshots: seq<seq<Repo>>, censuses: seq<seq<Row>>, i: nat) {
    && i < |snapshots| == |censuses| && AllKnown(dags, snapshots[i])
    && CensusRows(dags, snapshots[i], Fed(censuses, i)) == Some(censuses[i])
    && (i > 0 ==> AllKnown(dags, snapshots[i - 1]) && FastForward(dags, snapshots[i - 1], snapshots[i]))
  }

  ghost predicate Chain(dags: Dags, snapshots: seq<seq<Repo>>, censuses: seq<seq<Row>>) {
    |censuses| == |snapshots| && forall i: nat | i < |snapshots| :: Follows(dags, snapshots, censuses, i)
  }

  lemma {:induction false} ChainHolds(dags: Dags, snapshots: seq<seq<Repo>>, censuses: seq<seq<Row>>, i: nat)
    requires Chain(dags, snapshots, censuses) && i < |snapshots|
    ensures AllKnown(dags, snapshots[i]) && RowsHold(dags, snapshots[i], censuses[i])
  {
    hide CensusRows, RowsHold, FastForward;
    assert Follows(dags, snapshots, censuses, i);
    if i == 0 {
      FirstCensusHolds(dags, snapshots[0], censuses[0]);
    } else {
      ChainHolds(dags, snapshots, censuses, i - 1);
      NextCensusHolds(dags, snapshots[i - 1], censuses[i - 1], snapshots[i], censuses[i]);
    }
  }

  lemma NextCensusHolds(dags: Dags, before: seq<Repo>, earlier: seq<Row>, repos: seq<Repo>, rows: seq<Row>)
    requires AllKnown(dags, before) && AllKnown(dags, repos) && RowsHold(dags, before, earlier)
    requires FastForward(dags, before, repos) && CensusRows(dags, repos, earlier) == Some(rows)
    ensures RowsHold(dags, repos, rows)
  {
    hide RowsHold, FastForward, CensusTo;
    CensusHolds(dags, before, earlier, repos, |repos|);
  }

  lemma FirstCensusHolds(dags: Dags, repos: seq<Repo>, rows: seq<Row>)
    requires AllKnown(dags, repos) && CensusRows(dags, repos, []) == Some(rows)
    ensures RowsHold(dags, repos, rows)
  {
    hide RowHolds, CensusRows;
    NextCensusHolds(dags, [], [], repos, rows);
  }

  /** In every chain, a branch called deletable holds no commit that its default branch cannot reach. */
  lemma DeletableIsReachable(dags: Dags, snapshots: seq<seq<Repo>>, censuses: seq<seq<Row>>, i: nat, r: Repo, row: Row)
    requires Chain(dags, snapshots, censuses) && i < |snapshots| && r in snapshots[i] && row in censuses[i]
    requires DistinctRepos(snapshots[i]) && row.repo == r.name && row.category == DeleteEligible && Known(dags, r)
    ensures row.head < |dags[r.name]| && Ancestors(dags[r.name], row.head) <= Ancestors(dags[r.name], r.head)
  {
    ChainHolds(dags, snapshots, censuses, i);
    var q :| q in snapshots[i] && RowHolds(dags, q, row);
    assert q == r;
    AncestorsInclude(dags[r.name], row.head, r.head);
  }

  // --- the class a branch was first given stays with it ---

  lemma {:induction false} RowsAre(dag: Dag, r: Repo, n: nat, previous: map<Key, Row>, row: Row)
    requires Acyclic(dag) && r.head < |dag| && n <= |r.refs| && forall f | f in r.refs :: f.head < |dag|
    ensures row in RowsTo(dag, r, n, previous) <==>
      exists i | 0 <= i < n :: r.refs[i].branch != SYMBOLIC && row == RowFor(dag, r, r.refs[i], previous)
  {
    hide RowFor;
    if n > 0 { RowsAre(dag, r, n - 1, previous, row); }
  }

  /** The rows of a census are the rows of its repositories' branches. */
  ghost predicate Listed(dags: Dags, repos: seq<Repo>, n: nat, previous: map<Key, Row>, row: Row)
    requires AllKnown(dags, repos) && n <= |repos|
  {
    exists i | 0 <= i < n :: Known(dags, repos[i]) && row in RowsTo(dags[repos[i].name], repos[i], |repos[i].refs|, previous)
  }

  lemma {:induction false} CensusLists(dags: Dags, repos: seq<Repo>, n: nat, previous: map<Key, Row>, row: Row)
    requires AllKnown(dags, repos) && n <= |repos| && CensusTo(dags, repos, n, previous).Some?
    ensures row in CensusTo(dags, repos, n, previous).value <==> Listed(dags, repos, n, previous, row)
  {
    hide RowsTo;
    if n > 0 {
      CensusLists(dags, repos, n - 1, previous, row);
      assert Known(dags, repos[n - 1]);
    }
  }

  /** Each branch has one row, so the dictionary of a census holds it. */
  lemma RowOfBranch(dags: Dags, repos: seq<Repo>, previous: seq<Row>, rows: seq<Row>, r: Repo, f: Ref)
    requires AllKnown(dags, repos) && CensusRows(dags, repos, previous) == Some(rows)
    requires r in repos && f in r.refs && f.branch != SYMBOLIC && Known(dags, r)
    ensures RowFor(dags[r.name], r, f, Previous(previous)) in rows
  {
    hide RowFor;
    var i :| 0 <= i < |repos| && repos[i] == r;
    var k :| 0 <= k < |r.refs| && r.refs[k] == f;
    var row := RowFor(dags[r.name], r, f, Previous(previous));
    RowsAre(dags[r.name], r, |r.refs|, Previous(previous), row);
    CensusLists(dags, repos, |repos|, Previous(previous), row);
  }

  lemma OneRowPerKey(dags: Dags, repos: seq<Repo>, previous: seq<Row>, rows: seq<Row>, a: Row, b: Row)
    requires AllKnown(dags, repos) && CensusRows(dags, repos, previous) == Some(rows) && DistinctRepos(repos)
    requires a in rows && b in rows && KeyOf(a) == KeyOf(b)
    ensures a == b
  {
    hide RowFor, RowsTo, CensusTo, Previous;
    var p := Previous(previous);
    var i, f := RowComesFrom(dags, repos, previous, rows, a);
    var j, g := RowComesFrom(dags, repos, previous, rows, b);
    assert repos[i].name == repos[j].name;
  }

  lemma RowComesFrom(dags: Dags, repos: seq<Repo>, previous: seq<Row>, rows: seq<Row>, a: Row) returns (i: nat, f: Ref)
    requires AllKnown(dags, repos) && CensusRows(dags, repos, previous) == Some(rows) && a in rows
    ensures i < |repos| && Known(dags, repos[i]) && f in repos[i].refs
    ensures a == RowFor(dags[repos[i].name], repos[i], f, Previous(previous)) && KeyOf(a) == Key(repos[i].name, f.branch, f.head)
  {
    hide RowsTo, CensusTo, Previous, Classify, Beyond;
    var p := Previous(previous);
    CensusLists(dags, repos, |repos|, p, a);
    i :| 0 <= i < |repos| && Known(dags, repos[i]) && a in RowsTo(dags[repos[i].name], repos[i], |repos[i].refs|, p);
    RowsAre(dags[repos[i].name], repos[i], |repos[i].refs|, p, a);
    var k :| 0 <= k < |repos[i].refs| && repos[i].refs[k].branch != SYMBOLIC
      && a == RowFor(dags[repos[i].name], repos[i], repos[i].refs[k], p);
    f := repos[i].refs[k];
  }

  lemma {:induction false} PreviousHas(rows: seq<Row>, row: Row)
    requires row in rows
    ensures KeyOf(row) in Previous(rows)
  {
    var last := rows[|rows| - 1];
    if row != last {
      assert rows == rows[..|rows| - 1] + [last];
      PreviousHas(rows[..|rows| - 1], row);
    }
  }

  /** There is no census exactly when some default branch is not at its pinned head. */
  lemma {:induction false} DriftedTo(dags: Dags, repos: seq<Repo>, n: nat, previous: map<Key, Row>)
    requires AllKnown(dags, repos) && n <= |repos|
    ensures CensusTo(dags, repos, n, previous).None? <==> exists i | 0 <= i < n :: Ref(repos[i].branch, repos[i].head) !in repos[i].refs
  {
    hide RowsTo;
    if n > 0 {
      DriftedTo(dags, repos, n - 1, previous);
      assert Known(dags, repos[n - 1]);
    }
  }

  lemma RefusedIffDrifted(dags: Dags, repos: seq<Repo>, previous: seq<Row>)
    requires AllKnown(dags, repos)
    ensures CensusRows(dags, repos, previous).None? <==> exists r | r in repos :: Ref(r.branch, r.head) !in r.refs
  {
    DriftedTo(dags, repos, |repos|, Previous(previous));
    if i :| 0 <= i < |repos| && Ref(repos[i].branch, repos[i].head) !in repos[i].refs { assert repos[i] in repos; }
  }

  /** While repository, branch and head stay, a class other than active and unknown goes over to the next census. */
  lemma ClassStays(dags: Dags, snapshots: seq<seq<Repo>>, censuses: seq<seq<Row>>, i: nat, row: Row, r: Repo)
    requires Chain(dags, snapshots, censuses) && i + 1 < |snapshots| && DistinctRepos(snapshots[i]) && row in censuses[i]
    requires r in snapshots[i + 1] && r.name == row.repo && r.branch != row.branch && row.branch != SYMBOLIC
    requires Ref(row.branch, row.head) in r.refs && Carried(Some(row.category))
    ensures exists next | next in censuses[i + 1] :: KeyOf(next) == KeyOf(row) && next.category == row.category
  {
    hide CensusRows, Beyond;
    var f := Ref(row.branch, row.head);
    assert Follows(dags, snapshots, censuses, i) && Follows(dags, snapshots, censuses, i + 1);
    assert Known(dags, r);
    PreviousHas(censuses[i], row);
    PreviousFrom(censuses[i], KeyOf(row));
    OneRowPerKey(dags, snapshots[i], Fed(censuses, i), censuses[i], row, Previous(censuses[i])[KeyOf(row)]);
    RowOfBranch(dags, snapshots[i + 1], censuses[i], censuses[i + 1], r, f);
    var next := RowFor(dags[r.name], r, f, Previous(censuses[i]));
    assert KeyOf(next) == KeyOf(row) && next.category == row.category;
  }

  // --- two censuses of one repository ---

  ghost function Observed(name: string, main: string, base: Commit, branch: string, head: Commit, mentioned: set<string>): Repo {
    Repo(name, main, base, [Ref(main, base), Ref(branch, head)], mentioned)
  }

  lemma CensusOfOne(dags: Dags, r: Repo, previous: seq<Row>)
    requires AllKnown(dags, [r]) && Known(dags, r) && |r.refs| == 2 && r.refs[0] == Ref(r.branch, r.head)
    requires r.branch != SYMBOLIC && r.refs[1].branch != SYMBOLIC && r.refs[1].branch != r.branch
    ensures CensusRows(dags, [r], previous).Some?
    ensures RowFor(dags[r.name], r, r.refs[1], Previous(previous)) in CensusRows(dags, [r], previous).value
  {
    hide RowFor;
    assert CensusTo(dags, [r], 0, Previous(previous)) == Some([]);
    assert Pinned(r);
    assert r.refs[1] in r.refs;
    assert CensusRows(dags, [r], previous).Some?;
    RowOfBranch(dags, [r], previous, CensusRows(dags, [r], previous).value, r, r.refs[1]);
  }

  /**
   * A chain of two censuses between which the default branch fast-forwards and its text changes: the branch has in the
   * second the class it had in the first, if that is one that is carried over.
   */
  lemma TwoCensuses(dag: Dag, name: string, main: string, branch: string, base: Commit, later: Commit, head: Commit,
                    mentioned: set<string>) returns (snapshots: seq<seq<Repo>>, censuses: seq<seq<Row>>, row: Row)
    requires Acyclic(dag) && base < |dag| && later < |dag| && head < |dag| && Merged(dag, later, base)
    requires main != SYMBOLIC && branch != SYMBOLIC && main != branch
    requires Carried(Some(Classify(dag, base, head, false, None)))
    ensures Chain(map[name := dag], snapshots, censuses) && |snapshots| == 2
    ensures snapshots[1] == [Observed(name, main, later, branch, head, mentioned)]
    ensures row in censuses[1] && row.repo == name && row.branch == branch && row.head == head
    ensures row.category == Classify(dag, base, head, false, None)
  {
    hide Classify, Ancestors, Beyond, CensusRows;
    var dags := map[name := dag];
    var r, q := Observed(name, main, base, branch, head, {}), Observed(name, main, later, branch, head, mentioned);
    assert Known(dags, r) && Known(dags, q);
    CensusOfOne(dags, r, []);
    var first := CensusRows(dags, [r], []).value;
    CensusOfOne(dags, q, first);
    var second := CensusRows(dags, [q], first).value;
    snapshots, censuses := [[r], [q]], [first, second];
    assert Previous([]) == map[];
    var was := RowFor(dag, r, r.refs[1], map[]);
    assert was in first && was.category == Classify(dag, base, head, false, None);
    assert Ref(was.branch, was.head) == q.refs[1];
    ClassStays(dags, snapshots, censuses, 0, was, q);
    row :| row in second && KeyOf(row) == KeyOf(was) && row.category == was.category;
  }

  /** There is such a chain in which a branch that the default branch mentions is called deletable. */
  lemma MentionedYetDeletable(dag: Dag, name: string, main: string, branch: string, base: Commit, head: Commit)
      returns (snapshots: seq<seq<Repo>>, censuses: seq<seq<Row>>, row: Row)
    requires Acyclic(dag) && base < |dag| && head < |dag| && Merged(dag, base, head)
    requires main != SYMBOLIC && branch != SYMBOLIC && main != branch
    ensures Chain(map[name := dag], snapshots, censuses) && |snapshots| == 2
    ensures row in censuses[1] && row.branch == branch && row.category == DeleteEligible
    ensures forall r | r in snapshots[1] :: branch in r.mentioned
  {
    hide Classify;
    FirstClassification(dag, base, head, false, None);
    snapshots, censuses, row := TwoCensuses(dag, name, main, branch, base, base, head, {branch});
  }

  /** And one in which a branch is called unmerged although the default branch has meanwhile merged it. */
  lemma MergedYetUnmerged(dag: Dag, name: string, main: string, branch: string, base: Commit, later: Commit, head: Commit)
      returns (snapshots: seq<seq<Repo>>, censuses: seq<seq<Row>>, row: Row)
    requires Acyclic(dag) && base < |dag| && later < |dag| && head < |dag|
    requires !Merged(dag, base, head) && base in Ancestors(dag, head) && Merged(dag, later, head)
    requires main != SYMBOLIC && branch != SYMBOLIC && main != branch
    ensures Chain(map[name := dag], snapshots, censuses) && |snapshots| == 2
    ensures snapshots[1] == [Observed(name, main, later, branch, head, {})]
    ensures row in censuses[1] && row.branch == branch && row.head == head && row.category == UnmergedUnique
  {
    hide Classify;
    FirstClassification(dag, base, head, false, None);
    AncestorsTransitive(dag, base, head, later);
    snapshots, censuses, row := TwoCensuses(dag, name, main, branch, base, later, head, {});
  }
}
