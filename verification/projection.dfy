/**
 * The federated architecture projection: census, role matrix, dependency graph, document graph and reconciliation of a
 * snapshot of repositories. The order of the snapshot, and of each file list, does not show in any of them.
 */
module Projection {
  import opened PyText
  import opened Sorting

  datatype Declared = Declared(path: string, kind: string, currentness: string)
  datatype Knowledge = Knowledge(artifacts: seq<Declared>, dependencies: seq<string>, owner: string, entry: string)
  datatype File = File(path: string, blob: string)

  /** `profile` stands for the manifest fields the role matrix copies; `sound` for the checks of single fields. */
  datatype Repo = Repo(id: string, branch: string, head: string, tree: string, manifest: string, profile: string,
                       knowledge: Option<Knowledge>, files: seq<File>, groups: seq<string>, sound: bool)
  type Snapshot = seq<Repo>

  const OWNER := "DonkeyJJLove/ai_platform"

  const META: set<string> := {
    "LION/architecture/v1_5/REPOSITORY_CONTENT_CENSUS.json",
    "LION/architecture/v1_5/BRANCH_RECONCILIATION_R1.json",
    "LION/architecture/v1_5/TEST_CENSUS.json",
    "LION/architecture/v1_5/WORKFLOW_CENSUS.json"
  }

  function ById(): (Repo, Repo) -> bool { (a: Repo, b: Repo) => StrLeq(a.id, b.id) }
  function ByPath(): (File, File) -> bool { (a: File, b: File) => StrLeq(a.path, b.path) }
  function ByName(): (string, string) -> bool { (a: string, b: string) => StrLeq(a, b) }
  function ByRow(): (Edge, Edge) -> bool { (a: Edge, b: Edge) => LexLeq(Columns(a), Columns(b)) }

  // --- validation ---

  predicate StartsWith(s: string, prefix: string) { |prefix| <= |s| && s[..|prefix|] == prefix }

  predicate RepoSound(r: Repo) {
    && r.sound
    && (forall f | f in r.files :: f.path != "")
    && (forall f, g | f in r.files && g in r.groups :: !StartsWith(f.path, g))
  }

  predicate Valid(s: Snapshot) {
    && |s| == 10 && (forall r | r in s :: RepoSound(r))
    && |Ids(s)| == |s|
  }

  // --- identity and role matrix ---

  datatype Identity = Identity(id: string, branch: string, head: string, tree: string, manifest: string)
  datatype Role = Role(id: string, branch: string, head: string, tree: string, profile: string, owner: string)

  function IdentityOf(): Repo -> seq<Identity> { (r: Repo) => [Identity(r.id, r.branch, r.head, r.tree, r.manifest)] }

  function RoleOf(): Repo -> seq<Role> {
    (r: Repo) => [Role(r.id, r.branch, r.head, r.tree, r.profile, if r.knowledge.Some? then r.knowledge.value.owner else "")]
  }

  // --- census ---

  datatype Artifact = Artifact(repo: string, head: string, tree: string, path: string, blob: string, kind: string,
                               currentness: string, hint: string, declared: bool)

  function Artifacts(r: Repo): seq<Declared> { if r.knowledge.Some? then r.knowledge.value.artifacts else [] }

  /** The dictionary of declared artifacts: the last declaration of a path wins. */
  function DeclaredAt(items: seq<Declared>, path: string): Option<Declared> {
    if items == [] then None
    else if items[|items| - 1].path == path then Some(items[|items| - 1])
    else DeclaredAt(items[..|items| - 1], path)
  }

  const HUMAN := "HUMAN_ARCHITECTURE_DOCUMENT"
  const MACHINE := "MACHINE_READABLE_ARCHITECTURE"
  const GENERATED := "GENERATED_DOCUMENTATION"

  function DeclaredClass(kind: string): Option<string> {
    if kind == "HUMAN_ARCHITECTURE_DOCUMENT" || kind == "RESEARCH_ARCHITECTURE" then Some(HUMAN)
    else if kind == "MACHINE_READABLE_ARCHITECTURE" || kind == "CONTRACT" || kind == "SCHEMA" then Some(MACHINE)
    else if kind == "ROADMAP" then Some("ROADMAP")
    else if kind == "PROCESS_GUARD" then Some("PROCESS_CONTRACT")
    else if kind == "GENERATED_PROJECTION" then Some(GENERATED)
    else None
  }

  function ClassOf(path: string, declared: Option<Declared>, classify: string -> Option<string>): string {
    var byPath := classify(path);
    var chosen := if declared.Some? && DeclaredClass(declared.value.kind).Some?
      then DeclaredClass(declared.value.kind) else byPath;
    if chosen.Some? then chosen.value else HUMAN
  }

  predicate SkippedAt(id: string, items: seq<Declared>, path: string, classify: string -> Option<string>) {
    (id == OWNER && path in META) || (classify(path).None? && DeclaredAt(items, path).None?)
  }

  predicate Skipped(r: Repo, path: string, classify: string -> Option<string>) {
    SkippedAt(r.id, Artifacts(r), path, classify)
  }

  function ArtifactOf(r: Repo, f: File, classify: string -> Option<string>): Artifact {
    var declared := DeclaredAt(Artifacts(r), f.path);
    var kind := ClassOf(f.path, declared, classify);
    var hint := if declared.Some? then declared.value.currentness else "SOURCE_BOUND";
    Artifact(r.id, r.head, r.tree, f.path, if kind == GENERATED then "GENERATOR_OWNED" else f.blob, kind,
             if hint == "HISTORICAL" || hint == "VERSIONED_STATIC" then hint else "CURRENT", hint, declared.Some?)
  }

  function FileArtifacts(r: Repo, files: seq<File>, classify: string -> Option<string>): seq<Artifact> {
    if files == [] then []
    else
      var last := files[|files| - 1];
      FileArtifacts(r, files[..|files| - 1], classify)
        + (if Skipped(r, last.path, classify) then [] else [ArtifactOf(r, last, classify)])
  }

  function CensusOf(classify: string -> Option<string>): Repo -> seq<Artifact> {
    (r: Repo) => FileArtifacts(r, Sort(ByPath(), r.files), classify)
  }

  // --- dependency graph ---

  datatype Edge = Edge(source: string, target: string, relation: string, evidence: string)

  function Columns(e: Edge): seq<string> { [e.source, e.target, e.relation, e.evidence] }

  const MANIFEST := "cyber-lion.repository.json"

  function DependencyEdge(source: string, target: string): Edge {
    Edge(source, target, "DEPENDS_ON", source + ":" + MANIFEST + "#architecture_knowledge.repository_dependencies")
  }

  function DependencyEdges(source: string, targets: seq<string>): seq<Edge> {
    if targets == [] then [] else DependencyEdges(source, targets[..|targets| - 1]) + [DependencyEdge(source, targets[|targets| - 1])]
  }

  function OwnerEdge(source: string, owner: string): seq<Edge> {
    if owner == "" || owner == source then []
    else [Edge(source, owner, "GLOBAL_ARCHITECTURE_OWNER", source + ":" + MANIFEST + "#architecture_knowledge.global_owner")]
  }

  function DependenciesOf(): Repo -> seq<Edge> {
    (r: Repo) =>
      if r.knowledge.None? then []
      else DependencyEdges(r.id, Sort(ByName(), r.knowledge.value.dependencies)) + OwnerEdge(r.id, r.knowledge.value.owner)
  }

  /** The dictionary keyed by source, target and relation, which determine the evidence. */
  function Distinct(edges: seq<Edge>): seq<Edge> {
    if edges == [] then []
    else
      var rest := Distinct(edges[..|edges| - 1]);
      if edges[|edges| - 1] in rest then rest else rest + [edges[|edges| - 1]]
  }

  function Ids(s: Snapshot): set<string> { set r | r in s :: r.id }

  function DependencyGraph(s: Snapshot): Option<seq<Edge>> {
    var edges := Flat(DependenciesOf(), Sort(ById(), s));
    if exists e | e in edges :: e.target !in Ids(s) then None else Some(Sort(ByRow(), Distinct(edges)))
  }

  // --- document graph ---

  /** The last artifact of a repository and path. */
  function DocAt(census: seq<Artifact>, repo: string, path: string): Option<Artifact> {
    if census == [] then None
    else
      var last := census[|census| - 1];
      if last.repo == repo && last.path == path then Some(last) else DocAt(census[..|census| - 1], repo, path)
  }

  function ArtifactId(a: Artifact): string { a.repo + ":" + a.path }

  function Ref(source: Option<Artifact>, target: Option<Artifact>, relation: string, evidence: string): seq<Edge> {
    if source.Some? && target.Some? then [Edge(ArtifactId(source.value), ArtifactId(target.value), relation, evidence)] else []
  }

  function RefOther(source: Option<Artifact>, target: Option<Artifact>, relation: string, evidence: string): seq<Edge> {
    if source.Some? && target.Some? && ArtifactId(source.value) == ArtifactId(target.value) then []
    else Ref(source, target, relation, evidence)
  }

  const VECTOR_PATH := "LION/architecture/v1_4/federation_current_vector.json"
  const V15_PATH := "LION/architecture/v1_5/README.md"

  function OwnerRefs(census: seq<Artifact>): seq<Edge> {
    var v15 := DocAt(census, OWNER, V15_PATH);
    var public, project := DocAt(census, OWNER, "README.md"), DocAt(census, OWNER, "LION/README.md");
    RefOther(public, project, "REFERENCES", OWNER + ":README.md")
      + RefOther(public, v15, "REFERENCES", OWNER + ":README.md")
      + RefOther(project, v15, "REFERENCES", OWNER + ":LION/README.md")
  }

  function ProjectRefs(census: seq<Artifact>, r: Repo, items: seq<Declared>): seq<Edge> {
    if items == [] then []
    else
      ProjectRefs(census, r, items[..|items| - 1])
        + RefOther(DocAt(census, r.id, MANIFEST), DocAt(census, r.id, items[|items| - 1].path), "PROJECTS", r.id + ":" + MANIFEST)
  }

  function RepoRefs(census: seq<Artifact>, r: Repo): seq<Edge> {
    var manifest, agents := DocAt(census, r.id, MANIFEST), DocAt(census, r.id, "AGENTS.md");
    Ref(agents, manifest, "ROUTED_BY", r.id + ":AGENTS.md")
      + (if r.id == OWNER then []
         else Ref(manifest, DocAt(census, OWNER, VECTOR_PATH), "REFERENCES", r.id + ":" + MANIFEST)
              + Ref(agents, DocAt(census, OWNER, V15_PATH), "DISCOVERED_FROM", r.id + ":AGENTS.md"))
      + ProjectRefs(census, r, Artifacts(r))
  }

  function RefsOf(census: seq<Artifact>): Repo -> seq<Edge> { (r: Repo) => RepoRefs(census, r) }

  /** The repositories are visited in the order of the snapshot; only the edges are sorted. */
  function DocumentGraph(s: Snapshot, census: seq<Artifact>): seq<Edge> {
    Sort(ByRow(), OwnerRefs(census) + Flat(RefsOf(census), s))
  }

  // --- reconciliation ---

  datatype Finding = Finding(repo: string, concept: string, state: string)
  datatype Reconciliation = Reconciliation(results: seq<Finding>, contradictions: seq<Finding>, unknowns: seq<Finding>)

  function DeclaredState(census: seq<Artifact>, r: Repo, d: Declared): string {
    if DocAt(census, r.id, d.path).None? then "DOCUMENTATION_STALE"
    else if d.currentness == "HISTORICAL" then "ALIGNED_HISTORICAL"
    else if d.currentness == "VERSIONED_STATIC" then "ALIGNED_VERSIONED_STATIC"
    else "ALIGNED_CURRENT"
  }

  function DeclaredFindings(census: seq<Artifact>, r: Repo, items: seq<Declared>, staleOnly: bool): seq<Finding> {
    if items == [] then []
    else
      var d := items[|items| - 1];
      var state := DeclaredState(census, r, d);
      DeclaredFindings(census, r, items[..|items| - 1], staleOnly)
        + (if staleOnly && state != "DOCUMENTATION_STALE" then [] else [Finding(r.id, d.path, state)])
  }

  function ResultsOf(census: seq<Artifact>): Repo -> seq<Finding> {
    (r: Repo) =>
      if r.knowledge.None? then [Finding(r.id, "architecture_knowledge", "CODE_UNDOCUMENTED")]
      else DeclaredFindings(census, r, r.knowledge.value.artifacts, false)
  }

  function ContradictionsOf(census: seq<Artifact>): Repo -> seq<Finding> {
    (r: Repo) =>
      if r.knowledge.None? then []
      else DeclaredFindings(census, r, r.knowledge.value.artifacts, true) + EntryFinding(census, r.id, r.knowledge.value.entry)
  }

  function EntryFinding(census: seq<Artifact>, id: string, entry: string): seq<Finding> {
    if entry != "" && DocAt(census, id, entry).None? then [Finding(id, entry, "DISCOVERABILITY_MISSING")] else []
  }

  /** The first repository with the identity, in the order of the snapshot. */
  function Find(s: Snapshot, id: string): Option<Repo> {
    if s == [] then None else if s[0].id == id then Some(s[0]) else Find(s[1..], id)
  }

  const CODE := "CODE_DERIVED_ARCHITECTURE.json"
  const CODE_PATH := "LION/architecture/v1_5/CODE_DERIVED_ARCHITECTURE.json"
  const CODE_TREE := "CODE_DERIVED_ARCHITECTURE.json#projection_input_tree"

  /** A supplied code projection: whether it is well formed, and the tree it was made from. */
  datatype CodeProjection = CodeProjection(wellFormed: bool, tree: string)

  function Reconcile(s: Snapshot, census: seq<Artifact>, code: Option<CodeProjection>): Option<Reconciliation> {
    var results := Flat(ResultsOf(census), Sort(ById(), s));
    var contradictions := Flat(ContradictionsOf(census), Sort(ById(), s));
    match Find(s, OWNER)
    case None => None
    case Some(owner) =>
      if code.None? then Some(Reconciliation(results, contradictions, [Finding(OWNER, CODE, "CODE_PROJECTION_UNBOUND")]))
      else if !code.value.wellFormed then None
      else if code.value.tree == owner.tree
      then Some(Reconciliation(results + [Finding(OWNER, CODE_TREE, "ALIGNED_CURRENT")], contradictions, []))
      else Some(Reconciliation(results + [Finding(OWNER, CODE_TREE, "CODE_PROJECTION_STALE")],
                               contradictions + [Finding(OWNER, CODE_PATH, "CODE_PROJECTION_STALE")], []))
  }

  // --- the whole projection ---

  datatype Outputs = Outputs(identity: seq<Identity>, census: seq<Artifact>, matrix: seq<Role>, dependencies: seq<Edge>,
                             documents: seq<Edge>, reconciliation: Reconciliation)

  function Project(s: Snapshot, classify: string -> Option<string>, code: Option<CodeProjection>): Option<Outputs> {
    if !Valid(s) then None
    else
      var sorted := Sort(ById(), s);
      var census := Flat(CensusOf(classify), sorted);
      var dependencies, reconciliation := DependencyGraph(s), Reconcile(s, census, code);
      if dependencies.None? || reconciliation.None? then None
      else Some(Outputs(Flat(IdentityOf(), sorted), census, Flat(RoleOf(), sorted), dependencies.value,
                        DocumentGraph(s, census), reconciliation.value))
  }

  // --- the builders, with their loops ---

  method BuildCensus(s: Snapshot, classify: string -> Option<string>) returns (rows: seq<Artifact>)
    ensures rows == Flat(CensusOf(classify), Sort(ById(), s))
  {
    hide Flat, Sort;
    rows := [];
    var sorted := Sort(ById(), s);
    FlatNone(CensusOf(classify), sorted);
    for i := 0 to |sorted|
      invariant rows == Flat(CensusOf(classify), sorted[..i])
    {
      var r := sorted[i];
      var files := Sort(ByPath(), r.files);
      ghost var before := rows;
      for k := 0 to |files|
        invariant rows == before + FileArtifacts(r, files[..k], classify)
      {
        assert files[..k + 1][..k] == files[..k];
        if !Skipped(r, files[k].path, classify) { rows := rows + [ArtifactOf(r, files[k], classify)]; }
      }
      assert files[..|files|] == files;
      FlatNext(CensusOf(classify), sorted, i);
    }
    assert sorted[..|sorted|] == sorted;
  }

  lemma FlatNone<S, T>(f: S -> seq<T>, s: seq<S>)
    ensures Flat(f, s[..0]) == []
  {}

  method BuildRoleMatrix(s: Snapshot) returns (rows: seq<Role>)
    ensures rows == Flat(RoleOf(), Sort(ById(), s))
  {
    hide Flat, Sort;
    rows := [];
    var sorted := Sort(ById(), s);
    FlatNone(RoleOf(), sorted);
    for i := 0 to |sorted|
      invariant rows == Flat(RoleOf(), sorted[..i])
    {
      FlatNext(RoleOf(), sorted, i);
      rows := rows + RoleOf()(sorted[i]);
    }
    assert sorted[..|sorted|] == sorted;
  }

  method BuildDependencyGraph(s: Snapshot) returns (graph: Option<seq<Edge>>)
    ensures graph == DependencyGraph(s)
  {
    hide Flat, Sort, Distinct;
    var edges: seq<Edge> := [];
    var known, sorted := Ids(s), Sort(ById(), s);
    FlatNone(DependenciesOf(), sorted);
    for i := 0 to |sorted|
      invariant edges == Flat(DependenciesOf(), sorted[..i])
      invariant forall e | e in edges :: e.target in known
    {
      FlatNext(DependenciesOf(), sorted, i);
      var more := DependenciesOf()(sorted[i]);
      if e :| e in more && e.target !in known {
        FlatPart(DependenciesOf(), sorted, i, e);
        return None;
      }
      edges := edges + more;
    }
    assert sorted[..|sorted|] == sorted;
    graph := Some(Sort(ByRow(), Distinct(edges)));
  }

  lemma FlatPart<S, T>(f: S -> seq<T>, s: seq<S>, i: nat, x: T)
    requires i < |s| && x in f(s[i])
    ensures x in Flat(f, s)
  {
    FlatNext(f, s, i);
    FlatSplit(f, s[..i + 1], s[i + 1..]);
    assert s == s[..i + 1] + s[i + 1..];
  }

  method BuildDocumentGraph(s: Snapshot, census: seq<Artifact>) returns (rows: seq<Edge>)
    ensures rows == DocumentGraph(s, census)
  {
    hide Flat, Sort, OwnerRefs, RepoRefs;
    var edges := OwnerRefs(census);
    FlatNone(RefsOf(census), s);
    for i := 0 to |s|
      invariant edges == OwnerRefs(census) + Flat(RefsOf(census), s[..i])
    {
      FlatNext(RefsOf(census), s, i);
      edges := edges + RepoRefs(census, s[i]);
    }
    assert s[..|s|] == s;
    rows := Sort(ByRow(), edges);
  }

  method BuildReconciliation(s: Snapshot, census: seq<Artifact>, code: Option<CodeProjection>)
      returns (r: Option<Reconciliation>)
    ensures r == Reconcile(s, census, code)
  {
    hide Flat, Sort, DeclaredFindings, DocAt;
    var results, contradictions: seq<Finding> := [], [];
    var sorted := Sort(ById(), s);
    FlatNone(ResultsOf(census), sorted);
    FlatNone(ContradictionsOf(census), sorted);
    for i := 0 to |sorted|
      invariant results == Flat(ResultsOf(census), sorted[..i])
      invariant contradictions == Flat(ContradictionsOf(census), sorted[..i])
    {
      FlatNext(ResultsOf(census), sorted, i);
      FlatNext(ContradictionsOf(census), sorted, i);
      results := results + ResultsOf(census)(sorted[i]);
      contradictions := contradictions + ContradictionsOf(census)(sorted[i]);
    }
    assert sorted[..|sorted|] == sorted;
    var owner := Find(s, OWNER);
    if owner.None? { return None; }
    var unknowns: seq<Finding> := [];
    if code.None? {
      unknowns := [Finding(OWNER, CODE, "CODE_PROJECTION_UNBOUND")];
    } else if !code.value.wellFormed {
      return None;
    } else if code.value.tree == owner.value.tree {
      results := results + [Finding(OWNER, CODE_TREE, "ALIGNED_CURRENT")];
    } else {
      results := results + [Finding(OWNER, CODE_TREE, "CODE_PROJECTION_STALE")];
      contradictions := contradictions + [Finding(OWNER, CODE_PATH, "CODE_PROJECTION_STALE")];
    }
    r := Some(Reconciliation(results, contradictions, unknowns));
  }

  // --- the order of the input does not matter ---

  type Classifier = string -> Option<string>

  /** A path shows the blobs of its files unless it is skipped or generated. */
  predicate Shows(id: string, items: seq<Declared>, path: string, classify: Classifier) {
    !SkippedAt(id, items, path, classify) && ClassOf(path, DeclaredAt(items, path), classify) != GENERATED
  }

  /** A file without the blob that does not show. */
  function Veil(id: string, items: seq<Declared>, classify: Classifier): File -> File {
    (f: File) => if Shows(id, items, f.path, classify) then f else f.(blob := "")
  }

  /** The files as the census sees them, in path order. */
  function Veiled(r: Repo, classify: Classifier): seq<File> {
    Sort(ByPath(), Map(Veil(r.id, Artifacts(r), classify), r.files))
  }

  /** A repository with its files in path order, hidden blobs left out: all that the projection sees of it. */
  function Canon(r: Repo, classify: Classifier): Repo { r.(files := Veiled(r, classify)) }

  function Canonical(classify: Classifier): Repo -> Repo { (r: Repo) => Canon(r, classify) }

  lemma IdOrder()
    ensures Order(ById())
  {
    forall a: Repo, b: Repo ensures ById()(a, b) || ById()(b, a) { StrTotal(a.id, b.id); }
    forall a: Repo, b: Repo, c: Repo | ById()(a, b) && ById()(b, c) ensures ById()(a, c) { StrTransitive(a.id, b.id, c.id); }
  }

  lemma PathOrder()
    ensures Order(ByPath())
  {
    forall a: File, b: File ensures ByPath()(a, b) || ByPath()(b, a) { StrTotal(a.path, b.path); }
    forall a: File, b: File, c: File | ByPath()(a, b) && ByPath()(b, c) ensures ByPath()(a, c) {
      StrTransitive(a.path, b.path, c.path);
    }
  }

  lemma RowOrder(edges: seq<Edge>)
    ensures Order(ByRow()) && Keyed(ByRow(), edges)
  {
    forall a: Edge, b: Edge ensures (ByRow()(a, b) || ByRow()(b, a)) && (ByRow()(a, b) && ByRow()(b, a) ==> a == b) {
      LexTotal(Columns(a), Columns(b));
      if Columns(a) == Columns(b) { SameColumns(a, b); }
    }
    forall a: Edge, b: Edge, c: Edge | ByRow()(a, b) && ByRow()(b, c) ensures ByRow()(a, c) {
      LexTransitive(Columns(a), Columns(b), Columns(c));
    }
  }

  lemma SameColumns(a: Edge, b: Edge)
    requires Columns(a) == Columns(b)
    ensures a == b
  {
    assert Columns(a)[0] == Columns(b)[0] && Columns(a)[1] == Columns(b)[1];
    assert Columns(a)[2] == Columns(b)[2] && Columns(a)[3] == Columns(b)[3];
  }

  lemma {:induction false} AtMostOneIdEach(s: Snapshot)
    ensures |Ids(s)| <= |s|
  {
    if s != [] {
      AtMostOneIdEach(s[1..]);
      assert Ids(s) == {s[0].id} + Ids(s[1..]) by { assert s == [s[0]] + s[1..]; }
    }
  }

  lemma RepeatedId(s: Snapshot, i: nat, j: nat)
    requires i < j < |s| && s[i].id == s[j].id
    ensures |Ids(s)| < |s|
  {
    var rest := s[..j] + s[j + 1..];
    AtMostOneIdEach(rest);
    assert rest[i] == s[i];
    forall r | r in s ensures r.id in Ids(rest) {
      var k :| 0 <= k < |s| && s[k] == r;
      if k < j { assert rest[k] == r; } else if k > j { assert rest[k - 1] == r; }
    }
    assert forall r | r in rest :: r in s;
    assert Ids(s) == Ids(rest);
  }

  lemma DistinctIds(s: Snapshot, i: nat, j: nat)
    requires |Ids(s)| == |s| && i < j < |s|
    ensures s[i].id != s[j].id
  {
    if s[i].id == s[j].id { RepeatedId(s, i, j); }
  }

  lemma DistinctIdsKeyed(s: Snapshot)
    requires |Ids(s)| == |s|
    ensures Keyed(ById(), s)
  {
    forall a, b | a in s && b in s && ById()(a, b) && ById()(b, a) ensures a == b {
      StrTotal(a.id, b.id);
      var i :| 0 <= i < |s| && s[i] == a;
      var j :| 0 <= j < |s| && s[j] == b;
      if i < j { DistinctIds(s, i, j); }
      if j < i { DistinctIds(s, j, i); }
    }
  }

  ghost predicate PathsAgree(files: seq<File>) {
    forall f, g | f in files && g in files && f.path == g.path :: f == g
  }

  /** Two files of one path that shows have the same blob; in particular when paths are unique. */
  ghost predicate BlobsAgree(r: Repo, classify: Classifier) {
    forall f, g | f in r.files && g in r.files && f.path == g.path && Shows(r.id, Artifacts(r), f.path, classify) ::
      f.blob == g.blob
  }

  lemma FileOrderForgotten(a: seq<File>, b: seq<File>)
    requires multiset(a) == multiset(b) && PathsAgree(a)
    ensures Sort(ByPath(), a) == Sort(ByPath(), b)
  {
    PathOrder();
    forall f, g | f in a && g in a && ByPath()(f, g) && ByPath()(g, f) ensures f == g { StrTotal(f.path, g.path); }
    SortForgetsOrder(ByPath(), a, b);
  }

  /** Rearranging files whose showing blobs agree leaves what is seen of them. */
  lemma VeiledForgetsOrder(r: Repo, files: seq<File>, classify: Classifier)
    requires BlobsAgree(r, classify) && multiset(r.files) == multiset(files)
    ensures Canon(r, classify) == Canon(r.(files := files), classify)
  {
    hide Shows, Sort;
    var f := Veil(r.id, Artifacts(r), classify);
    MapForgetsOrder(f, r.files, files);
    var a := Map(f, r.files);
    forall x, y | x in a && y in a && x.path == y.path ensures x == y {
      var i :| 0 <= i < |a| && a[i] == x;
      var j :| 0 <= j < |a| && a[j] == y;
      assert r.files[i] in r.files && r.files[j] in r.files;
      assert x == f(r.files[i]) && y == f(r.files[j]);
    }
    FileOrderForgotten(a, Map(f, files));
  }

  /** The second snapshot is the first with its repositories, and then each file list, rearranged. */
  ghost predicate Rearranged(a: Snapshot, mid: Snapshot, b: Snapshot) {
    && multiset(a) == multiset(mid) && |mid| == |b|
    && forall i | 0 <= i < |mid| ::
        multiset(mid[i].files) == multiset(b[i].files) && b[i] == mid[i].(files := b[i].files)
  }

  ghost predicate AllBlobsAgree(s: Snapshot, classify: Classifier) { forall r | r in s :: BlobsAgree(r, classify) }

  ghost predicate Alike(a: Snapshot, b: Snapshot, classify: Classifier) {
    |a| == |b| && forall i | 0 <= i < |a| :: Canon(a[i], classify) == Canon(b[i], classify)
  }

  lemma RearrangedAlike(a: Snapshot, mid: Snapshot, b: Snapshot, classify: Classifier)
    requires Rearranged(a, mid, b) && AllBlobsAgree(a, classify)
    ensures Alike(mid, b, classify)
  {
    hide BlobsAgree, Canon;
    SameElements(a, mid);
    forall i | 0 <= i < |mid| ensures Canon(mid[i], classify) == Canon(b[i], classify) {
      assert mid[i] in a;
      VeiledForgetsOrder(mid[i], b[i].files, classify);
    }
  }

  /** Snapshots that are alike stay so, place by place, when sorted. */
  lemma SortedAlike(a: Snapshot, b: Snapshot, classify: Classifier)
    requires Alike(a, b, classify)
    ensures Alike(Sort(ById(), a), Sort(ById(), b), classify)
  {
    hide Veiled;
    var f := Canonical(classify);
    assert forall x, y :: ById()(f(x), f(y)) == ById()(x, y);
    assert Map(f, a) == Map(f, b);
    SortMap(ById(), f, a);
    SortMap(ById(), f, b);
    var x, y := Sort(ById(), a), Sort(ById(), b);
    assert Map(f, x) == Map(f, y);
    assert |x| == |Map(f, x)| == |y|;
    forall i | 0 <= i < |x| ensures Canon(x[i], classify) == Canon(y[i], classify) { assert Map(f, x)[i] == Map(f, y)[i]; }
  }

  /** A stage sees a repository only through its canonical form. */
  ghost predicate Sees<T(!new)>(f: Repo -> seq<T>, classify: Classifier) {
    forall r, q | Canon(r, classify) == Canon(q, classify) :: f(r) == f(q)
  }

  lemma FilesApart(r: Repo, q: Repo, classify: Classifier)
    requires Canon(r, classify) == Canon(q, classify)
    ensures q == r.(files := q.files) && Veiled(r, classify) == Veiled(q, classify)
  {
    hide Veiled;
    assert Canon(r, classify).files == Canon(q, classify).files;
  }

  lemma {:induction false} FileArtifactsApart(r: Repo, q: Repo, files: seq<File>, classify: Classifier)
    requires q == r.(files := q.files)
    ensures FileArtifacts(r, files, classify) == FileArtifacts(q, files, classify)
  {
    if files != [] { FileArtifactsApart(r, q, files[..|files| - 1], classify); }
  }

  lemma MapFront<S, T>(f: S -> T, s: seq<S>)
    requires s != []
    ensures |Map(f, s)| == |s| && Map(f, s)[..|s| - 1] == Map(f, s[..|s| - 1]) && Map(f, s)[|s| - 1] == f(s[|s| - 1])
  {}

  /** The census rows of a list of files are those of the veiled list. */
  lemma {:induction false} VeiledArtifacts(r: Repo, files: seq<File>, classify: Classifier)
    ensures FileArtifacts(r, files, classify) == FileArtifacts(r, Map(Veil(r.id, Artifacts(r), classify), files), classify)
  {
    hide ClassOf, DeclaredAt, Skipped, Veil, ArtifactOf;
    var f := Veil(r.id, Artifacts(r), classify);
    if files != [] {
      var rest, last := files[..|files| - 1], files[|files| - 1];
      VeiledArtifacts(r, rest, classify);
      MapFront(f, files);
      VeiledArtifact(r, last, classify);
    }
  }

  lemma VeiledArtifact(r: Repo, file: File, classify: Classifier)
    ensures var v := Veil(r.id, Artifacts(r), classify)(file);
      v.path == file.path && (!Skipped(r, file.path, classify) ==> ArtifactOf(r, v, classify) == ArtifactOf(r, file, classify))
  {
    hide ClassOf, DeclaredAt, SkippedAt;
  }

  /** The census of a repository is that of its canonical files. */
  lemma CensusOfVeiled(r: Repo, classify: Classifier)
    ensures CensusOf(classify)(r) == FileArtifacts(r, Veiled(r, classify), classify)
  {
    hide FileArtifacts, Shows;
    var f := Veil(r.id, Artifacts(r), classify);
    assert forall x: File, y: File :: ByPath()(f(x), f(y)) == ByPath()(x, y);
    SortMap(ByPath(), f, r.files);
    VeiledArtifacts(r, Sort(ByPath(), r.files), classify);
  }

  lemma CensusSees(classify: Classifier)
    ensures Sees(CensusOf(classify), classify)
  {
    hide FileArtifacts, Veiled;
    forall r, q | Canon(r, classify) == Canon(q, classify) ensures CensusOf(classify)(r) == CensusOf(classify)(q) {
      FilesApart(r, q, classify);
      CensusOfVeiled(r, classify);
      CensusOfVeiled(q, classify);
      FileArtifactsApart(r, q, Veiled(r, classify), classify);
    }
  }

  lemma {:induction false} FindingsApart(census: seq<Artifact>, r: Repo, q: Repo, items: seq<Declared>, staleOnly: bool)
    requires r.id == q.id
    ensures DeclaredFindings(census, r, items, staleOnly) == DeclaredFindings(census, q, items, staleOnly)
    ensures ProjectRefs(census, r, items) == ProjectRefs(census, q, items)
  {
    if items != [] { FindingsApart(census, r, q, items[..|items| - 1], staleOnly); }
  }

  lemma ReconciliationSees(census: seq<Artifact>, classify: Classifier)
    ensures Sees(ResultsOf(census), classify) && Sees(ContradictionsOf(census), classify)
  {
    hide DeclaredFindings, ProjectRefs, EntryFinding;
    forall r, q | Canon(r, classify) == Canon(q, classify)
      ensures ResultsOf(census)(r) == ResultsOf(census)(q) && ContradictionsOf(census)(r) == ContradictionsOf(census)(q)
    {
      FilesApart(r, q, classify);
      FindingsApart(census, r, q, Artifacts(r), false);
      FindingsApart(census, r, q, Artifacts(r), true);
    }
  }

  lemma RefsSee(census: seq<Artifact>, classify: Classifier)
    ensures Sees(RefsOf(census), classify)
  {
    hide DeclaredFindings, ProjectRefs, Ref, DocAt;
    forall r, q | Canon(r, classify) == Canon(q, classify) ensures RefsOf(census)(r) == RefsOf(census)(q) {
      FilesApart(r, q, classify);
      FindingsApart(census, r, q, Artifacts(r), false);
    }
  }

  lemma ManifestSees(classify: Classifier)
    ensures Sees(IdentityOf(), classify) && Sees(RoleOf(), classify) && Sees(DependenciesOf(), classify)
  {
    forall r, q | Canon(r, classify) == Canon(q, classify)
      ensures IdentityOf()(r) == IdentityOf()(q) && RoleOf()(r) == RoleOf()(q) && DependenciesOf()(r) == DependenciesOf()(q)
    {
      FilesApart(r, q, classify);
    }
  }

  lemma SeesAlike<T(!new)>(f: Repo -> seq<T>, a: Snapshot, b: Snapshot, classify: Classifier)
    requires Sees(f, classify) && Alike(a, b, classify)
    ensures Flat(f, a) == Flat(f, b)
  {
    FlatAlike(f, a, b);
  }

  // rearranging repositories

  lemma {:induction false} FindIs(s: Snapshot, id: string)
    ensures Find(s, id).Some? <==> id in Ids(s)
    ensures Find(s, id).Some? ==> Find(s, id).value in s && Find(s, id).value.id == id
  {
    if s != [] && s[0].id != id {
      FindIs(s[1..], id);
      assert s == [s[0]] + s[1..];
    } else if s != [] {
      assert s[0] in s;
    }
  }

  lemma PermutedIds(a: Snapshot, b: Snapshot)
    requires multiset(a) == multiset(b)
    ensures Ids(a) == Ids(b) && (Valid(a) <==> Valid(b))
  {
    hide RepoSound;
    SameElements(a, b);
  }

  lemma SameId(s: Snapshot, r: Repo, q: Repo)
    requires |Ids(s)| == |s| && r in s && q in s && r.id == q.id
    ensures r == q
  {
    DistinctIdsKeyed(s);
    StrTotal(r.id, q.id);
  }

  lemma PermutedFind(a: Snapshot, b: Snapshot, id: string)
    requires multiset(a) == multiset(b) && |Ids(a)| == |a|
    ensures Find(a, id) == Find(b, id)
  {
    hide Find, Valid;
    SameElements(a, b);
    PermutedIds(a, b);
    FindIs(a, id);
    FindIs(b, id);
    if Find(a, id).Some? {
      var r, q := Find(a, id).value, Find(b, id).value;
      assert r in a && q in a && r.id == q.id;
      SameId(a, r, q);
    }
  }

  lemma PermutedSort(a: Snapshot, b: Snapshot)
    requires multiset(a) == multiset(b) && |Ids(a)| == |a|
    ensures Sort(ById(), a) == Sort(ById(), b)
  {
    IdOrder();
    DistinctIdsKeyed(a);
    SortForgetsOrder(ById(), a, b);
  }

  lemma PermutedDocuments(a: Snapshot, b: Snapshot, census: seq<Artifact>)
    requires multiset(a) == multiset(b)
    ensures DocumentGraph(a, census) == DocumentGraph(b, census)
  {
    hide OwnerRefs, Sort;
    var f := RefsOf(census);
    FlatForgetsOrder(f, a, b);
    var x, y := OwnerRefs(census) + Flat(f, a), OwnerRefs(census) + Flat(f, b);
    RowOrder(x);
    SortForgetsOrder(ByRow(), x, y);
  }

  lemma RepositoryOrderForgotten(a: Snapshot, b: Snapshot, classify: string -> Option<string>, code: Option<CodeProjection>)
    requires multiset(a) == multiset(b)
    ensures Project(a, classify, code) == Project(b, classify, code)
  {
    hide Flat, Sort, DocumentGraph, Ids, Find, Distinct;
    PermutedIds(a, b);
    if Valid(a) {
      PermutedSort(a, b);
      PermutedFind(a, b, OWNER);
      PermutedDocuments(a, b, Flat(CensusOf(classify), Sort(ById(), a)));
    }
  }

  // rearranging files

  ghost function Paths(files: seq<File>): set<string> { set f | f in files :: f.path }

  lemma SoundByPaths(r: Repo)
    ensures RepoSound(r) <==>
      r.sound && "" !in Paths(r.files) && forall p, g | p in Paths(r.files) && g in r.groups :: !StartsWith(p, g)
  {
    if RepoSound(r) {
      forall p, g | p in Paths(r.files) && g in r.groups ensures !StartsWith(p, g) {
        var f :| f in r.files && f.path == p;
      }
    } else if r.sound && "" !in Paths(r.files) {
      assert forall f | f in r.files :: f.path in Paths(r.files);
    }
  }

  lemma VeiledPaths(files: seq<File>, f: File -> File)
    requires forall x :: f(x).path == x.path
    ensures Paths(Sort(ByPath(), Map(f, files))) == Paths(files)
  {
    hide Sort;
    var m := Map(f, files);
    SortPermutes(ByPath(), m);
    SameElements(Sort(ByPath(), m), m);
    forall p ensures p in Paths(m) <==> p in Paths(files) {
      if p in Paths(files) {
        var i :| 0 <= i < |files| && files[i].path == p;
        assert m[i] in m && m[i].path == p;
      }
      if p in Paths(m) {
        var i :| 0 <= i < |m| && m[i].path == p;
        assert files[i] in files;
      }
    }
  }

  lemma AlikeRepo(r: Repo, q: Repo, classify: Classifier)
    requires Canon(r, classify) == Canon(q, classify)
    ensures RepoSound(r) <==> RepoSound(q)
  {
    hide Shows, RepoSound, Paths;
    FilesApart(r, q, classify);
    VeiledPaths(r.files, Veil(r.id, Artifacts(r), classify));
    VeiledPaths(q.files, Veil(q.id, Artifacts(q), classify));
    SoundByPaths(r);
    SoundByPaths(q);
  }

  lemma AlikeIds(a: Snapshot, b: Snapshot, classify: Classifier)
    requires Alike(a, b, classify)
    ensures Ids(a) == Ids(b) && (Valid(a) <==> Valid(b))
  {
    hide RepoSound, Canon;
    forall i | 0 <= i < |a| ensures a[i].id == b[i].id && (RepoSound(a[i]) <==> RepoSound(b[i])) {
      AlikeRepo(a[i], b[i], classify);
      FilesApart(a[i], b[i], classify);
    }
    assert forall i | 0 <= i < |a| :: a[i] in a && b[i] in b;
  }

  lemma {:induction false} AlikeFind(a: Snapshot, b: Snapshot, id: string, classify: Classifier)
    requires Alike(a, b, classify)
    ensures Find(a, id).Some? <==> Find(b, id).Some?
    ensures Find(a, id).Some? ==> Find(a, id).value.tree == Find(b, id).value.tree
  {
    if a != [] {
      assert Canon(a[0], classify) == Canon(b[0], classify);
      FilesApart(a[0], b[0], classify);
      assert forall i | 0 <= i < |a[1..]| :: a[1..][i] == a[i + 1] && b[1..][i] == b[i + 1];
      AlikeFind(a[1..], b[1..], id, classify);
    }
  }

  lemma AlikeReconcile(a: Snapshot, b: Snapshot, census: seq<Artifact>, code: Option<CodeProjection>, classify: Classifier)
    requires Alike(a, b, classify) && Alike(Sort(ById(), a), Sort(ById(), b), classify)
    ensures Reconcile(a, census, code) == Reconcile(b, census, code)
  {
    hide Flat, Sort, Find, Alike, Sees;
    AlikeFind(a, b, OWNER, classify);
    ReconciliationSees(census, classify);
    SeesAlike(ResultsOf(census), Sort(ById(), a), Sort(ById(), b), classify);
    SeesAlike(ContradictionsOf(census), Sort(ById(), a), Sort(ById(), b), classify);
  }

  lemma AlikeProjected(a: Snapshot, b: Snapshot, classify: string -> Option<string>, code: Option<CodeProjection>)
    requires Alike(a, b, classify)
    ensures Project(a, classify, code) == Project(b, classify, code)
  {
    hide Flat, Sort, Ids, Alike, Sees, Reconcile, Distinct, Valid;
    AlikeIds(a, b, classify);
    SortedAlike(a, b, classify);
    var x, y := Sort(ById(), a), Sort(ById(), b);
    ManifestSees(classify);
    CensusSees(classify);
    SeesAlike(IdentityOf(), x, y, classify);
    SeesAlike(RoleOf(), x, y, classify);
    SeesAlike(DependenciesOf(), x, y, classify);
    SeesAlike(CensusOf(classify), x, y, classify);
    var census := Flat(CensusOf(classify), x);
    RefsSee(census, classify);
    SeesAlike(RefsOf(census), a, b, classify);
    AlikeReconcile(a, b, census, code, classify);
  }

  /**
   * Every output is unchanged by any rearrangement of the repositories and of each repository's files, as long as
   * files of one path that shows agree on its blob.
   */
  lemma OrderForgotten(a: Snapshot, mid: Snapshot, b: Snapshot, classify: string -> Option<string>, code: Option<CodeProjection>)
    requires Rearranged(a, mid, b) && AllBlobsAgree(a, classify)
    ensures Project(a, classify, code) == Project(b, classify, code)
  {
    RepositoryOrderForgotten(a, mid, classify, code);
    RearrangedAlike(a, mid, b, classify);
    AlikeProjected(mid, b, classify, code);
  }

  // --- when the order of the files shows ---

  /** The blobs of the files, and of the census rows, of one path in their order. */
  function FileBlobs(files: seq<File>, p: string): seq<string> {
    if files == [] then []
    else FileBlobs(files[..|files| - 1], p) + (if files[|files| - 1].path == p then [files[|files| - 1].blob] else [])
  }

  function RowBlobs(rows: seq<Artifact>, p: string): seq<string> {
    if rows == [] then []
    else RowBlobs(rows[..|rows| - 1], p) + (if rows[|rows| - 1].path == p then [rows[|rows| - 1].blob] else [])
  }

  lemma RowBlobsNext(rows: seq<Artifact>, a: Artifact, p: string)
    ensures RowBlobs(rows + [a], p) == RowBlobs(rows, p) + (if a.path == p then [a.blob] else [])
  {
    assert (rows + [a])[..|rows|] == rows;
  }

  /** A path that shows has its blobs in the census, in the order of the files. */
  lemma {:induction false} BlobsInRows(r: Repo, files: seq<File>, classify: Classifier, p: string)
    requires Shows(r.id, Artifacts(r), p, classify)
    ensures RowBlobs(FileArtifacts(r, files, classify), p) == FileBlobs(files, p)
  {
    hide ClassOf, DeclaredAt, SkippedAt, RowBlobs;
    if files == [] {
      NoBlobs(p);
    } else {
      var rest, last := files[..|files| - 1], files[|files| - 1];
      BlobsInRows(r, rest, classify, p);
      var rows := FileArtifacts(r, rest, classify);
      RowBlobsNext(rows, ArtifactOf(r, last, classify), p);
      assert rows + [] == rows && FileBlobs(rest, p) + [] == FileBlobs(rest, p);
    }
  }

  lemma NoBlobs(p: string)
    ensures RowBlobs([], p) == [] && FileBlobs([], p) == []
  {}

  lemma {:induction false} FileBlobsFirst(x: File, s: seq<File>, p: string)
    ensures FileBlobs([x] + s, p) == (if x.path == p then [x.blob] else []) + FileBlobs(s, p)
  {
    var all := [x] + s;
    if s == [] {
      assert all[..0] == [];
    } else {
      FileBlobsFirst(x, s[..|s| - 1], p);
      assert all[..|all| - 1] == [x] + s[..|s| - 1];
    }
  }

  /** Sorting by path is stable: it keeps the order of the files of one path. */
  lemma {:induction false} InsertStable(x: File, s: seq<File>, p: string)
    ensures FileBlobs(Insert(ByPath(), x, s), p) == FileBlobs([x] + s, p)
  {
    hide FileBlobs;
    if s != [] && !ByPath()(x, s[0]) {
      var t := Insert(ByPath(), x, s[1..]);
      InsertStable(x, s[1..], p);
      StrTotal(x.path, x.path);
      FileBlobsFirst(s[0], t, p);
      FileBlobsFirst(x, s[1..], p);
      FileBlobsFirst(s[0], s[1..], p);
      FileBlobsFirst(x, s, p);
      assert s == [s[0]] + s[1..];
    }
  }

  lemma {:induction false} SortStable(s: seq<File>, p: string)
    ensures FileBlobs(Sort(ByPath(), s), p) == FileBlobs(s, p)
  {
    hide FileBlobs;
    if s != [] {
      SortStable(s[1..], p);
      var t := Sort(ByPath(), s[1..]);
      InsertStable(s[0], t, p);
      FileBlobsFirst(s[0], t, p);
      FileBlobsFirst(s[0], s[1..], p);
      assert s == [s[0]] + s[1..];
    }
  }

  lemma CensusBlobs(r: Repo, classify: Classifier, p: string)
    requires Shows(r.id, Artifacts(r), p, classify)
    ensures RowBlobs(CensusOf(classify)(r), p) == FileBlobs(r.files, p)
  {
    hide FileArtifacts, RowBlobs, FileBlobs, Shows, Sort;
    BlobsInRows(r, Sort(ByPath(), r.files), classify, p);
    SortStable(r.files, p);
  }

  /** Two files of one path that shows, with different blobs, show which of them comes first. */
  lemma RepeatedPathShows(r: Repo, f: File, g: File, rest: seq<File>, classify: Classifier)
    requires f.path == g.path && f.blob != g.blob && Shows(r.id, Artifacts(r), f.path, classify)
    ensures CensusOf(classify)(r.(files := [f] + ([g] + rest))) != CensusOf(classify)(r.(files := [g] + ([f] + rest)))
  {
    hide RowBlobs, FileBlobs, Shows;
    var p := f.path;
    CensusBlobs(r.(files := [f] + ([g] + rest)), classify, p);
    CensusBlobs(r.(files := [g] + ([f] + rest)), classify, p);
    FileBlobsFirst(f, [g] + rest, p);
    FileBlobsFirst(g, [f] + rest, p);
    assert FileBlobs([f] + ([g] + rest), p)[0] == f.blob && FileBlobs([g] + ([f] + rest), p)[0] == g.blob;
  }

  /** Two different elements of a list can be brought to its front, in either order. */
  lemma BroughtToFront(s: seq<File>, f: File, g: File) returns (rest: seq<File>)
    requires f in s && g in s && f != g
    ensures multiset([f] + ([g] + rest)) == multiset(s) && multiset([g] + ([f] + rest)) == multiset(s)
  {
    var i :| 0 <= i < |s| && s[i] == f;
    RemoveAt(s, i);
    var t := s[..i] + s[i + 1..];
    assert g in t by { assert g in multiset(t); }
    var j :| 0 <= j < |t| && t[j] == g;
    RemoveAt(t, j);
    rest := t[..j] + t[j + 1..];
    FrontPair(f, g, rest);
  }

  lemma FrontPair(f: File, g: File, rest: seq<File>)
    ensures multiset([f] + ([g] + rest)) == multiset{f} + (multiset{g} + multiset(rest)) == multiset([g] + ([f] + rest))
  {}

  /** The census is the same for every order of the files if and only if the blobs that show agree path by path. */
  lemma FileOrderIff(r: Repo, classify: Classifier)
    ensures (forall files | multiset(files) == multiset(r.files) :: CensusOf(classify)(r.(files := files)) == CensusOf(classify)(r))
      <==> BlobsAgree(r, classify)
  {
    hide CensusOf, Shows, Canon;
    if BlobsAgree(r, classify) {
      CensusSees(classify);
      forall files | multiset(files) == multiset(r.files)
        ensures CensusOf(classify)(r.(files := files)) == CensusOf(classify)(r)
      {
        VeiledForgetsOrder(r, files, classify);
      }
    } else {
      var f, g :| f in r.files && g in r.files && f.path == g.path && Shows(r.id, Artifacts(r), f.path, classify)
        && f.blob != g.blob;
      var rest := BroughtToFront(r.files, f, g);
      RepeatedPathShows(r, f, g, rest, classify);
    }
  }

  // --- what the dependency graph holds ---

  lemma {:induction false} DistinctHolds(edges: seq<Edge>)
    ensures forall e :: e in Distinct(edges) <==> e in edges
    ensures forall i, j | 0 <= i < j < |Distinct(edges)| :: Distinct(edges)[i] != Distinct(edges)[j]
  {
    if edges != [] {
      DistinctHolds(edges[..|edges| - 1]);
      assert edges == edges[..|edges| - 1] + [edges[|edges| - 1]];
    }
  }

  lemma {:induction false} DependencyEdgesAre(source: string, targets: seq<string>)
    ensures forall e :: e in DependencyEdges(source, targets) <==> exists t | t in targets :: e == DependencyEdge(source, t)
  {
    if targets != [] {
      var rest, last := targets[..|targets| - 1], targets[|targets| - 1];
      DependencyEdgesAre(source, rest);
      assert targets == rest + [last];
    }
  }

  /** An edge some manifest declares: a dependency, or another repository as global owner. */
  ghost predicate Declares(r: Repo, e: Edge) {
    r.knowledge.Some? &&
    ((exists t | t in r.knowledge.value.dependencies ::
        e == Edge(r.id, t, "DEPENDS_ON",
                  r.id + ":" + "cyber-lion.repository.json" + "#architecture_knowledge.repository_dependencies"))
     || (r.knowledge.value.owner != "" && r.knowledge.value.owner != r.id
         && e == Edge(r.id, r.knowledge.value.owner, "GLOBAL_ARCHITECTURE_OWNER",
                      r.id + ":" + "cyber-lion.repository.json" + "#architecture_knowledge.global_owner")))
  }

  lemma RepoDeclares(r: Repo, e: Edge)
    ensures e in DependenciesOf()(r) <==> Declares(r, e)
  {
    if r.knowledge.Some? {
      var deps := r.knowledge.value.dependencies;
      SortPermutes(ByName(), deps);
      SameElements(Sort(ByName(), deps), deps);
      DependencyEdgesAre(r.id, Sort(ByName(), deps));
    }
  }

  lemma {:induction false} FlatDeclares(s: Snapshot, e: Edge)
    ensures e in Flat(DependenciesOf(), s) <==> exists r | r in s :: Declares(r, e)
  {
    hide Declares;
    if s != [] {
      RepoDeclares(s[0], e);
      FlatDeclares(s[1..], e);
      assert s == [s[0]] + s[1..];
      assert Flat(DependenciesOf(), s) == DependenciesOf()(s[0]) + Flat(DependenciesOf(), s[1..]);
    }
  }

  /** The graph holds each declared edge once, in row order, and nothing else; it is refused if one leaves the federation. */
  lemma DependencyGraphExact(s: Snapshot)
    ensures DependencyGraph(s).Some? <==> forall r, e | r in s && Declares(r, e) :: e.target in Ids(s)
    ensures DependencyGraph(s).Some? ==> var rows := DependencyGraph(s).value;
      && (forall e :: e in rows <==> exists r | r in s :: Declares(r, e))
      && (forall i, j | 0 <= i < j < |rows| :: RowLeq(rows[i], rows[j]) && rows[i] != rows[j])
  {
    hide Declares, Distinct, Sort, Flat;
    var edges := Flat(DependenciesOf(), Sort(ById(), s));
    SortPermutes(ById(), s);
    SameElements(Sort(ById(), s), s);
    forall e ensures e in edges <==> exists r | r in s :: Declares(r, e) { FlatDeclares(Sort(ById(), s), e); }
    DistinctHolds(edges);
    SortDistinct(Distinct(edges));
  }

  /** Edges in the order of source, target, relation and evidence. */
  ghost predicate RowLeq(a: Edge, b: Edge) {
    LexLeq([a.source, a.target, a.relation, a.evidence], [b.source, b.target, b.relation, b.evidence])
  }

  lemma SortDistinct(edges: seq<Edge>)
    requires forall i, j | 0 <= i < j < |edges| :: edges[i] != edges[j]
    ensures var rows := Sort(ByRow(), edges);
      && (forall e :: e in rows <==> e in edges)
      && (forall i, j | 0 <= i < j < |rows| :: ByRow()(rows[i], rows[j]) && rows[i] != rows[j])
  {
    hide Sort;
    var rows := Sort(ByRow(), edges);
    RowOrder(edges);
    SortSorts(ByRow(), edges);
    SortPermutes(ByRow(), edges);
    SameElements(rows, edges);
    NoRepeats(edges, rows);
  }

  lemma NoRepeats<T>(a: seq<T>, b: seq<T>)
    requires multiset(a) == multiset(b) && forall i, j | 0 <= i < j < |a| :: a[i] != a[j]
    ensures forall i, j | 0 <= i < j < |b| :: b[i] != b[j]
  {
    forall i, j | 0 <= i < j < |b| ensures b[i] != b[j] {
      if b[i] == b[j] {
        Twice(b, i, j);
        Once(a, b[i]);
      }
    }
  }

  lemma Twice<T>(s: seq<T>, i: nat, j: nat)
    requires i < j < |s| && s[i] == s[j]
    ensures multiset(s)[s[i]] >= 2
  {
    assert s == s[..i] + ([s[i]] + (s[i + 1..j] + ([s[j]] + s[j + 1..])));
  }

  lemma {:induction false} Once<T>(s: seq<T>, x: T)
    requires forall i, j | 0 <= i < j < |s| :: s[i] != s[j]
    ensures multiset(s)[x] <= 1
  {
    if s != [] {
      Once(s[1..], x);
      assert s == [s[0]] + s[1..];
      if s[0] == x { assert x !in s[1..]; }
    }
  }
}
