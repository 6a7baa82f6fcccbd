/** What each output of the architecture projection holds, stated on the snapshot. */
module ProjectionExact {
  import opened PyText
  import opened Sorting
  import opened Projection

  /** An element of what is gathered comes from one of the parts. */
  lemma {:induction false} InFlat<S, T>(f: S -> seq<T>, s: seq<S>, x: T)
    ensures x in Flat(f, s) <==> exists r | r in s :: x in f(r)
  {
    if s != [] {
      InFlat(f, s[1..], x);
      assert s == [s[0]] + s[1..];
    }
  }

  lemma SortedHas(s: Snapshot)
    ensures forall r :: r in Sort(ById(), s) <==> r in s
  {
    SortPermutes(ById(), s);
    SameElements(Sort(ById(), s), s);
  }

  // --- role matrix and identity ---

  /** The rows are the repositories in the order of their identities, one row each, with their own fields. */
  ghost predicate MatrixOf(rows: seq<Role>, s: Snapshot, ordered: Snapshot) {
    && multiset(ordered) == multiset(s) && |rows| == |ordered|
    && (forall i, j | 0 <= i < j < |ordered| :: StrLeq(ordered[i].id, ordered[j].id))
    && forall i | 0 <= i < |rows| ::
        && rows[i].id == ordered[i].id && rows[i].branch == ordered[i].branch && rows[i].head == ordered[i].head
        && rows[i].tree == ordered[i].tree && rows[i].profile == ordered[i].profile
        && (ordered[i].knowledge.None? ==> rows[i].owner == "")
        && (ordered[i].knowledge.Some? ==> rows[i].owner == ordered[i].knowledge.value.owner)
  }

  lemma {:induction false} FlatOfOne<S, T>(f: S -> seq<T>, s: seq<S>)
    requires forall r | r in s :: |f(r)| == 1
    ensures |Flat(f, s)| == |s| && forall i | 0 <= i < |s| :: Flat(f, s)[i] == f(s[i])[0]
  {
    if s != [] {
      assert s == [s[0]] + s[1..];
      FlatOfOne(f, s[1..]);
    }
  }

  lemma InIdOrder(s: Snapshot)
    ensures var o := Sort(ById(), s);
      multiset(o) == multiset(s) && forall i, j | 0 <= i < j < |o| :: StrLeq(o[i].id, o[j].id)
  {
    hide Sort;
    IdOrder();
    SortPermutes(ById(), s);
    SortSorts(ById(), s);
    var o := Sort(ById(), s);
    assert forall i, j | 0 <= i < j < |o| :: ById()(o[i], o[j]);
  }

  lemma RoleMatrixExact(s: Snapshot)
    ensures MatrixOf(Flat(RoleOf(), Sort(ById(), s)), s, Sort(ById(), s))
  {
    InIdOrder(s);
    FlatOfOne(RoleOf(), Sort(ById(), s));
  }

  lemma IdentityExact(s: Snapshot)
    ensures var rows, o := Flat(IdentityOf(), Sort(ById(), s)), Sort(ById(), s);
      && multiset(o) == multiset(s) && |rows| == |o|
      && forall i | 0 <= i < |rows| ::
          && rows[i].id == o[i].id && rows[i].branch == o[i].branch && rows[i].head == o[i].head
          && rows[i].tree == o[i].tree && rows[i].manifest == o[i].manifest
  {
    InIdOrder(s);
    FlatOfOne(IdentityOf(), Sort(ById(), s));
  }

  // --- census ---

  /** The last declaration of a path. */
  ghost predicate LastDeclared(items: seq<Declared>, path: string, d: Declared) {
    exists k | 0 <= k < |items| :: items[k] == d && d.path == path && forall j | k < j < |items| :: items[j].path != path
  }

  lemma {:induction false} DeclaredAtIs(items: seq<Declared>, path: string)
    ensures DeclaredAt(items, path).None? <==> forall d | d in items :: d.path != path
    ensures DeclaredAt(items, path).Some? ==> LastDeclared(items, path, DeclaredAt(items, path).value)
  {
    if items != [] {
      var rest, last := items[..|items| - 1], items[|items| - 1];
      DeclaredAtIs(rest, path);
      assert items == rest + [last];
      if last.path == path {
        assert items[|items| - 1] == last;
      } else if DeclaredAt(rest, path).Some? {
        var d := DeclaredAt(rest, path).value;
        var k :| 0 <= k < |rest| && rest[k] == d && forall j | k < j < |rest| :: rest[j].path != path;
        assert items[k] == d;
      }
    }
  }

  /** The classes a declaration may give, and what they become. */
  const CLASSES: map<string, string> := map[
    "HUMAN_ARCHITECTURE_DOCUMENT" := "HUMAN_ARCHITECTURE_DOCUMENT",
    "MACHINE_READABLE_ARCHITECTURE" := "MACHINE_READABLE_ARCHITECTURE",
    "CONTRACT" := "MACHINE_READABLE_ARCHITECTURE",
    "SCHEMA" := "MACHINE_READABLE_ARCHITECTURE",
    "ROADMAP" := "ROADMAP",
    "PROCESS_GUARD" := "PROCESS_CONTRACT",
    "RESEARCH_ARCHITECTURE" := "HUMAN_ARCHITECTURE_DOCUMENT",
    "GENERATED_PROJECTION" := "GENERATED_DOCUMENTATION"
  ]

  lemma ClassesAre(kind: string)
    ensures DeclaredClass(kind) == if kind in CLASSES then Some(CLASSES[kind]) else None
  {}

  /** The class of a file: the declared one if it is known, else that of its path, else a human document. */
  ghost predicate ClassIs(items: seq<Declared>, path: string, classify: Classifier, kind: string) {
    if exists d :: LastDeclared(items, path, d) && d.kind in CLASSES
    then exists d :: LastDeclared(items, path, d) && d.kind in CLASSES && kind == CLASSES[d.kind]
    else if classify(path).Some? then kind == classify(path).value
    else kind == "HUMAN_ARCHITECTURE_DOCUMENT"
  }

  lemma LastIsOne(items: seq<Declared>, path: string, a: Declared, b: Declared)
    requires LastDeclared(items, path, a) && LastDeclared(items, path, b)
    ensures a == b
  {
    var i :| 0 <= i < |items| && items[i] == a && a.path == path && forall j | i < j < |items| :: items[j].path != path;
    var k :| 0 <= k < |items| && items[k] == b && b.path == path && forall j | k < j < |items| :: items[j].path != path;
    assert !(i < k) && !(k < i);
  }

  lemma ClassOfIs(items: seq<Declared>, path: string, classify: Classifier)
    ensures ClassIs(items, path, classify, ClassOf(path, DeclaredAt(items, path), classify))
  {
    hide LastDeclared, DeclaredClass;
    DeclaredAtIs(items, path);
    var at := DeclaredAt(items, path);
    if at.Some? { ClassesAre(at.value.kind); }
    forall d | LastDeclared(items, path, d) ensures at == Some(d) {
      DeclaredMember(items, path, d);
      LastIsOne(items, path, at.value, d);
    }
  }

  lemma DeclaredMember(items: seq<Declared>, path: string, d: Declared)
    requires LastDeclared(items, path, d)
    ensures d in items && d.path == path
  {}

  /** The census row of a file. */
  ghost predicate RowOf(r: Repo, f: File, classify: Classifier, a: Artifact) {
    && a.repo == r.id && a.head == r.head && a.tree == r.tree && a.path == f.path
    && ClassIs(Artifacts(r), f.path, classify, a.kind)
    && a.blob == (if a.kind == "GENERATED_DOCUMENTATION" then "GENERATOR_OWNED" else f.blob)
    && (a.declared <==> exists d | d in Artifacts(r) :: d.path == f.path)
    && (!a.declared ==> a.hint == "SOURCE_BOUND")
    && (a.declared ==> exists d :: LastDeclared(Artifacts(r), f.path, d) && a.hint == d.currentness)
    && a.currentness == (if a.hint == "HISTORICAL" then "HISTORICAL" else if a.hint == "VERSIONED_STATIC" then "VERSIONED_STATIC"
                         else "CURRENT")
  }

  /** A file that the census lists: classified or declared, and not one of the global owner's own censuses. */
  ghost predicate Counted(r: Repo, path: string, classify: Classifier) {
    && !(r.id == "DonkeyJJLove/ai_platform" && path in META)
    && (classify(path).Some? || exists d | d in Artifacts(r) :: d.path == path)
  }

  lemma RowOfFile(r: Repo, f: File, classify: Classifier)
    ensures RowOf(r, f, classify, ArtifactOf(r, f, classify)) && (Skipped(r, f.path, classify) <==> !Counted(r, f.path, classify))
  {
    hide ClassOf, ClassIs, LastDeclared;
    DeclaredAtIs(Artifacts(r), f.path);
    ClassOfIs(Artifacts(r), f.path, classify);
  }

  lemma {:induction false} FileRows(r: Repo, files: seq<File>, classify: Classifier, a: Artifact)
    ensures a in FileArtifacts(r, files, classify) <==>
      exists f | f in files :: Counted(r, f.path, classify) && a == ArtifactOf(r, f, classify)
  {
    hide Counted, Skipped, ArtifactOf;
    if files != [] {
      var rest, last := files[..|files| - 1], files[|files| - 1];
      FileRows(r, rest, classify, a);
      assert files == rest + [last];
      RowOfFile(r, last, classify);
    }
  }

  /** A row is in the census exactly when it is the row of a listed file of some repository. */
  lemma CensusExact(s: Snapshot, classify: Classifier, a: Artifact)
    ensures a in Flat(CensusOf(classify), Sort(ById(), s)) <==>
      exists r, f | r in s && f in r.files :: Counted(r, f.path, classify) && a == ArtifactOf(r, f, classify)
    ensures a in Flat(CensusOf(classify), Sort(ById(), s)) ==>
      exists r, f | r in s && f in r.files :: Counted(r, f.path, classify) && RowOf(r, f, classify, a)
  {
    hide Counted, RowOf, ArtifactOf, Sort;
    SortedHas(s);
    InFlat(CensusOf(classify), Sort(ById(), s), a);
    forall r ensures a in CensusOf(classify)(r) <==> exists f | f in r.files :: Counted(r, f.path, classify) && a == ArtifactOf(r, f, classify) {
      FileRows(r, Sort(ByPath(), r.files), classify, a);
      SortPermutes(ByPath(), r.files);
      SameElements(Sort(ByPath(), r.files), r.files);
    }
    if r, f :| r in s && f in r.files && Counted(r, f.path, classify) && a == ArtifactOf(r, f, classify) {
      RowOfFile(r, f, classify);
    }
  }

  /** Rows stand in the order of their repositories and, within one, of their paths. */
  ghost predicate InOrder(rows: seq<Artifact>) {
    forall i, j | 0 <= i < j < |rows| ::
      StrLeq(rows[i].repo, rows[j].repo) && (rows[i].repo == rows[j].repo ==> StrLeq(rows[i].path, rows[j].path))
  }

  ghost predicate PathsOrdered(files: seq<File>) {
    forall i, j | 0 <= i < j < |files| :: StrLeq(files[i].path, files[j].path)
  }

  /** All rows are of one repository and of paths among the files. */
  ghost predicate RowsAmong(rows: seq<Artifact>, id: string, files: seq<File>) {
    forall a | a in rows :: a.repo == id && exists f | f in files :: f.path == a.path
  }

  lemma {:induction false} FileRowsInOrder(r: Repo, files: seq<File>, classify: Classifier)
    requires PathsOrdered(files)
    ensures InOrder(FileArtifacts(r, files, classify)) && RowsAmong(FileArtifacts(r, files, classify), r.id, files)
  {
    hide Skipped, ArtifactOf, InOrder, RowsAmong;
    if files == [] {
      NoneInOrder();
      NoRowsAmong(r.id);
    } else {
      var rest, last := files[..|files| - 1], files[|files| - 1];
      assert files == rest + [last];
      FileRowsInOrder(r, rest, classify);
      var rows := FileArtifacts(r, rest, classify);
      OneMoreRow(rows, ArtifactOf(r, last, classify), r.id, rest, last) by { ArtifactNames(r, last, classify); }
      assert rows + [] == rows;
      StillAmong(rows, r.id, rest, last);
    }
  }

  lemma ArtifactNames(r: Repo, f: File, classify: Classifier)
    ensures ArtifactOf(r, f, classify).repo == r.id && ArtifactOf(r, f, classify).path == f.path
  {}

  lemma NoRowsAmong(id: string)
    ensures RowsAmong([], id, [])
  {}

  lemma StillAmong(rows: seq<Artifact>, id: string, files: seq<File>, f: File)
    requires RowsAmong(rows, id, files)
    ensures RowsAmong(rows, id, files + [f])
  {}

  lemma OneMoreRow(rows: seq<Artifact>, a: Artifact, id: string, files: seq<File>, f: File)
    requires InOrder(rows) && RowsAmong(rows, id, files) && PathsOrdered(files + [f]) && a.repo == id && a.path == f.path
    ensures InOrder(rows + [a]) && RowsAmong(rows + [a], id, files + [f])
  {
    StrTotal(id, id);
    var all := files + [f];
    assert all[|files|] == f;
    forall i | 0 <= i < |rows| ensures StrLeq(rows[i].path, a.path) && rows[i].repo == id {
      assert rows[i] in rows;
      var g :| g in files && g.path == rows[i].path;
      var k :| 0 <= k < |files| && files[k] == g;
      assert all[k] == g;
    }
  }

  lemma JoinInOrder(a: seq<Artifact>, b: seq<Artifact>, id: string)
    requires InOrder(a) && InOrder(b) && (forall x | x in a :: x.repo == id) && (forall y | y in b :: StrLeq(id, y.repo) && y.repo != id)
    ensures InOrder(a + b)
  {
    assert forall i | 0 <= i < |a| :: a[i] in a;
    assert forall i | 0 <= i < |b| :: b[i] in b;
  }

  lemma {:induction false} FlatInOrder(s: Snapshot, classify: Classifier)
    requires forall i, j | 0 <= i < j < |s| :: StrLeq(s[i].id, s[j].id) && s[i].id != s[j].id
    ensures InOrder(Flat(CensusOf(classify), s)) && forall a | a in Flat(CensusOf(classify), s) :: exists r | r in s :: a.repo == r.id
  {
    hide InOrder, FileArtifacts, Sort, PathsOrdered;
    if s == [] {
      NoneInOrder();
    } else {
      var t := s[1..];
      assert forall i, j | 0 <= i < j < |t| :: t[i] == s[i + 1] && t[j] == s[j + 1];
      FlatInOrder(t, classify);
      var files := Sort(ByPath(), s[0].files);
      PathsInOrder(s[0].files);
      FileRowsInOrder(s[0], files, classify);
      forall a | a in Flat(CensusOf(classify), t) ensures StrLeq(s[0].id, a.repo) && a.repo != s[0].id {
        var r :| r in t && a.repo == r.id;
        var i :| 0 <= i < |t| && t[i] == r;
        assert s[i + 1] == r;
      }
      JoinInOrder(CensusOf(classify)(s[0]), Flat(CensusOf(classify), t), s[0].id);
      assert s == [s[0]] + t;
    }
  }

  lemma NoneInOrder()
    ensures InOrder([])
  {}

  lemma PathsInOrder(files: seq<File>)
    ensures PathsOrdered(Sort(ByPath(), files))
  {
    hide Sort;
    PathOrder();
    SortSorts(ByPath(), files);
    var f := Sort(ByPath(), files);
    assert forall i, j | 0 <= i < j < |f| :: ByPath()(f[i], f[j]);
  }

  /** The census of an accepted snapshot is ordered by repository and path. */
  lemma CensusOrdered(s: Snapshot, classify: Classifier)
    requires |Ids(s)| == |s|
    ensures InOrder(Flat(CensusOf(classify), Sort(ById(), s)))
  {
    hide InOrder, Sort, Flat, Ids, Valid;
    var o := Sort(ById(), s);
    InIdOrder(s);
    PermutedIds(s, o);
    assert |o| == |multiset(o)| == |s|;
    forall i, j | 0 <= i < j < |o| ensures o[i].id != o[j].id { DistinctIds(o, i, j); }
    FlatInOrder(o, classify);
  }

  // --- document graph ---

  ghost predicate Listed(census: seq<Artifact>, repo: string, path: string) {
    exists a | a in census :: a.repo == repo && a.path == path
  }

  lemma {:induction false} DocAtIs(census: seq<Artifact>, repo: string, path: string)
    ensures DocAt(census, repo, path).Some? <==> Listed(census, repo, path)
    ensures DocAt(census, repo, path).Some? ==>
      DocAt(census, repo, path).value.repo == repo && DocAt(census, repo, path).value.path == path
  {
    if census != [] {
      var rest, last := census[..|census| - 1], census[|census| - 1];
      DocAtIs(rest, repo, path);
      assert census == rest + [last];
    }
  }

  /** An edge between two listed documents. */
  ghost predicate Joins(census: seq<Artifact>, e: Edge, repo: string, path: string, toRepo: string, toPath: string,
                        relation: string, evidence: string) {
    Listed(census, repo, path) && Listed(census, toRepo, toPath)
    && e == Edge(repo + ":" + path, toRepo + ":" + toPath, relation, evidence)
  }

  lemma RefIs(census: seq<Artifact>, e: Edge, repo: string, path: string, toRepo: string, toPath: string, relation: string, evidence: string)
    ensures e in Ref(DocAt(census, repo, path), DocAt(census, toRepo, toPath), relation, evidence) <==>
      Joins(census, e, repo, path, toRepo, toPath, relation, evidence)
    ensures e in RefOther(DocAt(census, repo, path), DocAt(census, toRepo, toPath), relation, evidence) <==>
      Joins(census, e, repo, path, toRepo, toPath, relation, evidence) && repo + ":" + path != toRepo + ":" + toPath
  {
    hide Listed, DocAt;
    DocAtIs(census, repo, path);
    DocAtIs(census, toRepo, toPath);
  }

  const O := "DonkeyJJLove/ai_platform"
  const V := "LION/architecture/v1_4/federation_current_vector.json"
  const R := "LION/architecture/v1_5/README.md"
  const M := "cyber-lion.repository.json"

  /** The edges among the global owner's own readmes. */
  ghost predicate OwnerJoins(census: seq<Artifact>, e: Edge) {
    || Joins(census, e, O, "README.md", O, "LION/README.md", "REFERENCES", O + ":README.md")
    || Joins(census, e, O, "README.md", O, R, "REFERENCES", O + ":README.md")
    || Joins(census, e, O, "LION/README.md", O, R, "REFERENCES", O + ":LION/README.md")
  }

  /** The edges of one repository. */
  ghost predicate RepoJoins(census: seq<Artifact>, r: Repo, e: Edge) {
    || Joins(census, e, r.id, "AGENTS.md", r.id, M, "ROUTED_BY", r.id + ":AGENTS.md")
    || (r.id != O && Joins(census, e, r.id, M, O, V, "REFERENCES", r.id + ":" + M))
    || (r.id != O && Joins(census, e, r.id, "AGENTS.md", O, R, "DISCOVERED_FROM", r.id + ":AGENTS.md"))
    || (exists d | d in Artifacts(r) ::
        r.id + ":" + M != r.id + ":" + d.path && Joins(census, e, r.id, M, r.id, d.path, "PROJECTS", r.id + ":" + M))
  }

  lemma OwnerReadmesDiffer()
    ensures O + ":" + "README.md" != O + ":" + "LION/README.md" && O + ":" + "README.md" != O + ":" + R
    ensures O + ":" + "LION/README.md" != O + ":" + R
  {
    assert |O + ":" + "README.md"| == |O| + 10 && |O + ":" + "LION/README.md"| == |O| + 15 && |O + ":" + R| == |O| + 1 + |R|;
    assert |R| == 32;
  }

  lemma OwnerRefsAre(census: seq<Artifact>, e: Edge)
    ensures e in OwnerRefs(census) <==> OwnerJoins(census, e)
  {
    hide Joins, RefOther, DocAt;
    OwnerReadmesDiffer();
    RefIs(census, e, O, "README.md", O, "LION/README.md", "REFERENCES", O + ":README.md");
    RefIs(census, e, O, "README.md", O, R, "REFERENCES", O + ":README.md");
    RefIs(census, e, O, "LION/README.md", O, R, "REFERENCES", O + ":LION/README.md");
  }

  lemma {:induction false} ProjectRefsAre(census: seq<Artifact>, r: Repo, items: seq<Declared>, e: Edge)
    ensures e in ProjectRefs(census, r, items) <==> exists d | d in items ::
      r.id + ":" + M != r.id + ":" + d.path && Joins(census, e, r.id, M, r.id, d.path, "PROJECTS", r.id + ":" + M)
  {
    hide Joins, RefOther, DocAt;
    if items != [] {
      var rest, last := items[..|items| - 1], items[|items| - 1];
      ProjectRefsAre(census, r, rest, e);
      assert items == rest + [last];
      RefIs(census, e, r.id, M, r.id, last.path, "PROJECTS", r.id + ":" + M);
    }
  }

  lemma RepoRefsAre(census: seq<Artifact>, r: Repo, e: Edge)
    ensures e in RepoRefs(census, r) <==> RepoJoins(census, r, e)
  {
    hide Joins, Ref, DocAt, ProjectRefs;
    RefIs(census, e, r.id, "AGENTS.md", r.id, M, "ROUTED_BY", r.id + ":AGENTS.md");
    RefIs(census, e, r.id, M, O, V, "REFERENCES", r.id + ":" + M);
    RefIs(census, e, r.id, "AGENTS.md", O, R, "DISCOVERED_FROM", r.id + ":AGENTS.md");
    ProjectRefsAre(census, r, Artifacts(r), e);
  }

  /** The document graph holds exactly these edges, in row order. */
  lemma DocumentGraphExact(s: Snapshot, census: seq<Artifact>)
    ensures forall e :: e in DocumentGraph(s, census) <==> OwnerJoins(census, e) || exists r | r in s :: RepoJoins(census, r, e)
    ensures var rows := DocumentGraph(s, census); forall i, j | 0 <= i < j < |rows| :: RowLeq(rows[i], rows[j])
  {
    hide OwnerJoins, RepoJoins, OwnerRefs, RepoRefs, Sort;
    var edges := OwnerRefs(census) + Flat(RefsOf(census), s);
    RowOrder(edges);
    SortSorts(ByRow(), edges);
    SortPermutes(ByRow(), edges);
    SameElements(Sort(ByRow(), edges), edges);
    forall e ensures e in edges <==> OwnerJoins(census, e) || exists r | r in s :: RepoJoins(census, r, e) {
      OwnerRefsAre(census, e);
      InFlat(RefsOf(census), s, e);
      forall r ensures e in RefsOf(census)(r) <==> RepoJoins(census, r, e) { RepoRefsAre(census, r, e); }
    }
  }

  // --- reconciliation ---

  /** How a declared artifact stands: stale when the census has no row of it, else as its declaration says. */
  ghost predicate StateIs(census: seq<Artifact>, id: string, d: Declared, state: string) {
    if !Listed(census, id, d.path) then state == "DOCUMENTATION_STALE"
    else if d.currentness == "HISTORICAL" then state == "ALIGNED_HISTORICAL"
    else if d.currentness == "VERSIONED_STATIC" then state == "ALIGNED_VERSIONED_STATIC"
    else state == "ALIGNED_CURRENT"
  }

  lemma DeclaredStateIs(census: seq<Artifact>, r: Repo, d: Declared)
    ensures StateIs(census, r.id, d, DeclaredState(census, r, d))
    ensures DeclaredState(census, r, d) == "DOCUMENTATION_STALE" <==> !Listed(census, r.id, d.path)
  {
    hide Listed, DocAt;
    DocAtIs(census, r.id, d.path);
    assert "DOCUMENTATION_STALE"[0] != "ALIGNED_HISTORICAL"[0] && "DOCUMENTATION_STALE"[0] != "ALIGNED_CURRENT"[0];
    assert "DOCUMENTATION_STALE"[0] != "ALIGNED_VERSIONED_STATIC"[0];
  }

  /** One finding for each declared artifact, in the order of the manifest. */
  lemma {:induction false} OneFindingEach(census: seq<Artifact>, r: Repo, items: seq<Declared>)
    ensures var fs := DeclaredFindings(census, r, items, false);
      && |fs| == |items|
      && forall k | 0 <= k < |items| ::
          fs[k].repo == r.id && fs[k].concept == items[k].path && StateIs(census, r.id, items[k], fs[k].state)
  {
    hide StateIs, DeclaredState;
    if items != [] {
      OneFindingEach(census, r, items[..|items| - 1]);
      DeclaredStateIs(census, r, items[|items| - 1]);
    }
  }

  /** The places of the stale declarations, all of them and in order, are those of the contradictions. */
  ghost predicate StalePlaces(census: seq<Artifact>, id: string, items: seq<Declared>, at: seq<nat>) {
    && (forall j, k | 0 <= j < k < |at| :: at[j] < at[k])
    && forall j: nat :: j in at <==> j < |items| && !Listed(census, id, items[j].path)
  }

  lemma StaleNext(census: seq<Artifact>, id: string, items: seq<Declared>, at: seq<nat>)
    requires items != [] && StalePlaces(census, id, items[..|items| - 1], at)
    ensures var n := |items| - 1;
      && StalePlaces(census, id, items, if Listed(census, id, items[n].path) then at else at + [n])
      && forall k | 0 <= k < |at| :: at[k] < n
  {
    hide Listed;
    var n := |items| - 1;
    assert forall k | 0 <= k < |at| :: at[k] in at;
    var more := if Listed(census, id, items[n].path) then at else at + [n];
    forall j: nat ensures j in more <==> j in at || (j == n && !Listed(census, id, items[n].path)) {}
    forall j: nat | j < n ensures j in at <==> !Listed(census, id, items[j].path) { assert items[..n][j] == items[j]; }
  }

  lemma {:induction false} StaleFindings(census: seq<Artifact>, r: Repo, items: seq<Declared>) returns (at: seq<nat>)
    ensures StalePlaces(census, r.id, items, at) && forall k | 0 <= k < |at| :: at[k] < |items|
    ensures var fs := DeclaredFindings(census, r, items, true);
      |fs| == |at| && forall k | 0 <= k < |at| :: fs[k] == Finding(r.id, items[at[k]].path, "DOCUMENTATION_STALE")
  {
    hide Listed, DeclaredState, StalePlaces;
    at := [];
    if items == [] {
      NoStale(census, r.id);
    } else {
      var n := |items| - 1;
      at := StaleFindings(census, r, items[..n]);
      DeclaredStateIs(census, r, items[n]);
      StaleNext(census, r.id, items, at);
      if !Listed(census, r.id, items[n].path) { at := at + [n]; }
    }
  }

  lemma NoStale(census: seq<Artifact>, id: string)
    ensures StalePlaces(census, id, [], [])
  {
  }

  /** The findings of one repository among the results. */
  ghost predicate ResultsFor(census: seq<Artifact>, r: Repo, fs: seq<Finding>) {
    match r.knowledge
    case None => fs == [Finding(r.id, "architecture_knowledge", "CODE_UNDOCUMENTED")]
    case Some(k) =>
      |fs| == |k.artifacts| && forall i | 0 <= i < |fs| ::
        fs[i].repo == r.id && fs[i].concept == k.artifacts[i].path && StateIs(census, r.id, k.artifacts[i], fs[i].state)
  }

  /** Those among the contradictions: one for each stale declaration, and one for a missing entry point. */
  ghost predicate ContradictionsFor(census: seq<Artifact>, r: Repo, fs: seq<Finding>) {
    match r.knowledge
    case None => fs == []
    case Some(k) =>
      exists at: seq<nat> | StalePlaces(census, r.id, k.artifacts, at) ::
        var missing := if k.entry != "" && !Listed(census, r.id, k.entry) then 1 else 0;
        && |fs| == |at| + missing
        && (forall i | 0 <= i < |at| ::
            at[i] < |k.artifacts| && fs[i] == Finding(r.id, k.artifacts[at[i]].path, "DOCUMENTATION_STALE"))
        && (missing == 1 ==> fs[|at|] == Finding(r.id, k.entry, "DISCOVERABILITY_MISSING"))
  }

  lemma ResultsAre(census: seq<Artifact>, r: Repo)
    ensures ResultsFor(census, r, ResultsOf(census)(r))
  {
    hide StateIs, DeclaredFindings;
    if r.knowledge.Some? { OneFindingEach(census, r, r.knowledge.value.artifacts); }
  }

  lemma ContradictionsAre(census: seq<Artifact>, r: Repo)
    ensures ContradictionsFor(census, r, ContradictionsOf(census)(r))
  {
    hide Listed, DocAt, StalePlaces, DeclaredFindings;
    if r.knowledge.Some? {
      var k := r.knowledge.value;
      var at := StaleFindings(census, r, k.artifacts);
      DocAtIs(census, r.id, k.entry);
      var fs := DeclaredFindings(census, r, k.artifacts, true);
      assert ContradictionsOf(census)(r) == fs + EntryFinding(census, r.id, k.entry);
      assert forall i | 0 <= i < |at| :: (fs + EntryFinding(census, r.id, k.entry))[i] == fs[i];
    }
  }

  lemma RepoFindings(census: seq<Artifact>, r: Repo)
    ensures ResultsFor(census, r, ResultsOf(census)(r)) && ContradictionsFor(census, r, ContradictionsOf(census)(r))
  {
    hide ResultsFor, ContradictionsFor;
    ResultsAre(census, r);
    ContradictionsAre(census, r);
  }

  /** A list that falls into parts, one for each repository in the order of their identities. */
  ghost predicate InParts(fs: seq<Finding>, ordered: Snapshot, parts: seq<seq<Finding>>) {
    |parts| == |ordered| && fs == Concat(parts)
  }

  ghost function Concat(parts: seq<seq<Finding>>): seq<Finding> {
    if parts == [] then [] else parts[0] + Concat(parts[1..])
  }

  lemma {:induction false} FlatInParts(f: Repo -> seq<Finding>, s: Snapshot) returns (parts: seq<seq<Finding>>)
    ensures InParts(Flat(f, s), s, parts) && forall i | 0 <= i < |s| :: parts[i] == f(s[i])
  {
    parts := [];
    if s != [] {
      var rest := FlatInParts(f, s[1..]);
      parts := [f(s[0])] + rest;
      assert parts[1..] == rest;
    }
  }

  /**
   * The reconciliation: refused without the owner or on a malformed code projection; else the results of the
   * repositories in order and that of the code projection, the contradictions likewise, and the unbound projection.
   */
  ghost predicate ReconciledAs(s: Snapshot, census: seq<Artifact>, code: Option<CodeProjection>, r: Reconciliation,
                               results: seq<seq<Finding>>, contradictions: seq<seq<Finding>>, owner: Repo, ordered: Snapshot)
  {
    && multiset(ordered) == multiset(s) && (forall i, j | 0 <= i < j < |ordered| :: StrLeq(ordered[i].id, ordered[j].id))
    && owner in s && owner.id == O
    && |results| == |contradictions| == |ordered|
    && (forall i | 0 <= i < |ordered| ::
        ResultsFor(census, ordered[i], results[i]) && ContradictionsFor(census, ordered[i], contradictions[i]))
    && match code
       case None =>
         && r.results == Concat(results) && r.contradictions == Concat(contradictions)
         && r.unknowns == [Finding(O, "CODE_DERIVED_ARCHITECTURE.json", "CODE_PROJECTION_UNBOUND")]
       case Some(c) =>
         && r.results == Concat(results) + [Finding(O, "CODE_DERIVED_ARCHITECTURE.json#projection_input_tree",
                                                   if c.tree == owner.tree then "ALIGNED_CURRENT" else "CODE_PROJECTION_STALE")]
         && r.contradictions == Concat(contradictions) + (if c.tree == owner.tree then []
              else [Finding(O, "LION/architecture/v1_5/CODE_DERIVED_ARCHITECTURE.json", "CODE_PROJECTION_STALE")])
         && r.unknowns == []
  }

  lemma ReconciliationExact(s: Snapshot, census: seq<Artifact>, code: Option<CodeProjection>)
      returns (results: seq<seq<Finding>>, contradictions: seq<seq<Finding>>, owner: Repo)
    requires s != []
    ensures Reconcile(s, census, code).Some? <==> (exists r | r in s :: r.id == O) && (code.Some? ==> code.value.wellFormed)
    ensures Reconcile(s, census, code).Some? ==>
      ReconciledAs(s, census, code, Reconcile(s, census, code).value, results, contradictions, owner, Sort(ById(), s))
  {
    hide ResultsFor, ContradictionsFor, Sort, Flat, Find;
    var ordered := Sort(ById(), s);
    InIdOrder(s);
    FindIs(s, OWNER);
    results := FlatInParts(ResultsOf(census), ordered);
    contradictions := FlatInParts(ContradictionsOf(census), ordered);
    forall i | 0 <= i < |ordered|
      ensures ResultsFor(census, ordered[i], results[i]) && ContradictionsFor(census, ordered[i], contradictions[i])
    {
      RepoFindings(census, ordered[i]);
    }
    owner := if Find(s, OWNER).Some? then Find(s, OWNER).value else s[0];
  }

  // --- when there is a projection at all ---

  /** The snapshot is one that the tool accepts. */
  ghost predicate Acceptable(s: Snapshot) {
    && |s| == 10
    && (forall i, j | 0 <= i < j < |s| :: s[i].id != s[j].id)
    && (forall r | r in s :: r.sound)
    && (forall r, f | r in s && f in r.files :: f.path != "")
    && (forall r, f, g | r in s && f in r.files && g in r.groups :: !(g <= f.path))
  }

  lemma IdsOfLast(s: Snapshot)
    requires s != []
    ensures Ids(s) == Ids(s[..|s| - 1]) + {s[|s| - 1].id}
  {
    var n := |s| - 1;
    forall x | x in Ids(s) ensures x in Ids(s[..n]) + {s[n].id} {
      var r :| r in s && r.id == x;
      var i :| 0 <= i < |s| && s[i] == r;
      if i < n { assert s[..n][i] == r; }
    }
    forall x | x in Ids(s[..n]) ensures x in Ids(s) {
      var r :| r in s[..n] && r.id == x;
      assert r in s;
    }
    assert s[n] in s;
  }

  lemma {:induction false} AllIdsDiffer(s: Snapshot)
    requires forall i, j | 0 <= i < j < |s| :: s[i].id != s[j].id
    ensures |Ids(s)| == |s|
  {
    if s != [] {
      var t := s[..|s| - 1];
      AllIdsDiffer(t);
      IdsOfLast(s);
    }
  }

  lemma ValidExact(s: Snapshot)
    ensures Valid(s) <==> Acceptable(s)
  {
    if Valid(s) {
      forall i, j | 0 <= i < j < |s| ensures s[i].id != s[j].id { DistinctIds(s, i, j); }
      assert forall r | r in s :: RepoSound(r);
      forall r, f, g | r in s && f in r.files && g in r.groups ensures !(g <= f.path) { assert !StartsWith(f.path, g); }
    }
    if Acceptable(s) {
      AllIdsDiffer(s);
      forall r | r in s ensures RepoSound(r) {
        forall f, g | f in r.files && g in r.groups ensures !StartsWith(f.path, g) { assert !(g <= f.path); }
      }
    }
  }

  /** There is a projection exactly when the snapshot is accepted, no edge leaves it, it has the owner, and any code
      projection is well formed. */
  lemma ProjectedWhen(s: Snapshot, classify: Classifier, code: Option<CodeProjection>)
    ensures Project(s, classify, code).Some? <==>
      && Acceptable(s) && (forall r, e | r in s && Declares(r, e) :: e.target in Ids(s))
      && (exists r | r in s :: r.id == O) && (code.Some? ==> code.value.wellFormed)
  {
    hide Acceptable, Declares, DependencyGraph, Reconcile, Flat, Sort, DocumentGraph;
    ValidExact(s);
    if Valid(s) {
      DependencyGraphExact(s);
      var census := Flat(CensusOf(classify), Sort(ById(), s));
      var x, y, z := ReconciliationExact(s, census, code);
    }
  }
}
