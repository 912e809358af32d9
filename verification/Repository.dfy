/**
 The version-control tables as one value, each service call as a step on it, and
 what every run of calls keeps.

 Ids of branches, commits and merges are handed out by one counter, so a new id
 is larger than every earlier one. A call that raises leaves the tables as they
 were, because its caller rolls the transaction back.
 */
module Repository {
  import opened Wrappers
  import opened Hnf
  import opened CommitGraph
  import opened CommitContents
  import MergeRules

  type ProjectId = nat
  type BranchId = nat
  type MergeId = nat

  type Resolution = MergeRules.Resolution<Fields>
  type Conflict = MergeRules.Conflict<Fields>

  datatype Error =
    | Forbidden
    | ProjectNotFound
    | BranchNotFound
    | CommitNotFound
    | ParentCommitNotFound
    | ConflictNotFound
    | NameTaken
    | BadTree
    | UnreadableVersionNum
    | ConstraintBroken
    | DuplicateParent
    | BadResolution(error: MergeRules.Error)

  datatype Branch = Branch(project: ProjectId, name: string, head: Option<CommitId>)

  datatype Commit = Commit(
    project: ProjectId,
    branch: BranchId,
    parents: seq<CommitId>,
    rows: map<Path, Row>,
    tree: JsonTree,
    rootRef: Option<Path>)

  datatype Status = Conflicts | Merged

  /** A merge with its conflict rows; `ours` and `theirs` are the heads when it was opened. */
  datatype Merge = Merge(
    project: ProjectId,
    target: BranchId,
    source: BranchId,
    ours: Option<CommitId>,
    theirs: Option<CommitId>,
    status: Status,
    result: Option<CommitId>,
    conflicts: map<Path, Conflict>)

  datatype Repo = Repo(
    projects: set<ProjectId>,
    known: Known,
    branches: map<BranchId, Branch>,
    commits: map<CommitId, Commit>,
    merges: map<MergeId, Merge>,
    scenes: map<CommitId, nat>,
    announced: set<CommitId>,
    next: nat)

  datatype CommitRequest = CommitRequest(
    project: ProjectId,
    branch: BranchId,
    tree: JsonTree,
    snapshots: seq<RawSnapshot>,
    rootRef: Option<Path>,
    parents: Option<seq<CommitId>>)

  function GraphOf(r: Repo): Graph {
    map c | c in r.commits :: r.commits[c].parents
  }

  /** The state a commit stands for; `None` when reading its tree raises. */
  ghost function StateOf(c: Commit): Option<Tree> {
    StateMap(c.rows, c.tree)
  }

  /** The state of a branch head; a branch without commits is empty. */
  ghost function HeadState(r: Repo, head: Option<CommitId>): Option<Tree> {
    if head.Some? && head.value in r.commits then StateOf(r.commits[head.value]) else Some(map[])
  }

  // -------------------------------------------------------------------- steps

  predicate BranchIn(r: Repo, project: ProjectId, b: BranchId) {
    b in r.branches && r.branches[b].project == project
  }

  predicate CommitIn(r: Repo, project: ProjectId, c: CommitId) {
    c in r.commits && r.commits[c].project == project
  }

  ghost predicate NameFree(r: Repo, project: ProjectId, name: string) {
    forall b | b in r.branches :: r.branches[b].project != project || r.branches[b].name != name
  }

  ghost function CreateBranch(r: Repo, editor: bool, project: ProjectId, name: string, from: Option<CommitId>)
    : Result<(Repo, BranchId), Error>
  {
    if !editor then Err(Forbidden)
    else if project !in r.projects then Err(ProjectNotFound)
    else if from.Some? && !CommitIn(r, project, from.value) then Err(CommitNotFound)
    else if !NameFree(r, project, name) then Err(NameTaken)
    else Ok((r.(branches := r.branches[r.next := Branch(project, name, from)], next := r.next + 1), r.next))
  }

  ghost predicate DistinctIds(ids: seq<CommitId>) {
    forall i, j | 0 <= i < j < |ids| :: ids[i] != ids[j]
  }

  /** The commit a request stands for, its branch and parents already checked. */
  ghost function BuildCommit(known: Known, req: CommitRequest, parents: seq<CommitId>): Result<Commit, Error> {
    var parsed := if req.snapshots != [] then Some(ParseSnapshots(req.snapshots)) else TreeSnapshots(req.tree);
    if parsed.None? then Err(BadTree)
    else if SomeRaises(req.snapshots) then Err(UnreadableVersionNum)
    else if !DistinctPaths(parsed.value) || !AllRefer(known, parsed.value) then Err(ConstraintBroken)
    else if !DistinctIds(parents) then Err(DuplicateParent)
    else
      var root := RootOf(parsed.value, req.rootRef);
      Ok(Commit(req.project, req.branch, parents, RowsOf(parsed.value),
                CommitTree(req.tree, req.snapshots, parsed.value, root), root))
  }

  /** The requested parents, or the branch head when none are given. */
  function ParentsFor(r: Repo, req: CommitRequest): seq<CommitId>
    requires req.branch in r.branches
  {
    match req.parents
    case Some(ps) => ps
    case None => HeadParents(r.branches[req.branch].head)
  }

  function HeadParents(head: Option<CommitId>): seq<CommitId> {
    if head.Some? then [head.value] else []
  }

  /** The tables with a new commit at the head of its branch. */
  function Land(r: Repo, c: Commit): Repo
    requires c.branch in r.branches
  {
    r.(commits := r.commits[r.next := c],
       branches := r.branches[c.branch := r.branches[c.branch].(head := Some(r.next))],
       next := r.next + 1)
  }

  ghost function MakeCommit(r: Repo, editor: bool, req: CommitRequest): Result<(Repo, CommitId), Error> {
    if !editor then Err(Forbidden)
    else if req.project !in r.projects then Err(ProjectNotFound)
    else if !BranchIn(r, req.project, req.branch) then Err(BranchNotFound)
    else
      var parents := ParentsFor(r, req);
      if exists p :: p in parents && !CommitIn(r, req.project, p) then Err(ParentCommitNotFound)
      else
        var built := BuildCommit(r.known, req, parents);
        if built.Err? then Err(built.error) else Ok((Land(r, built.value), r.next))
  }

  /** The request a merge makes for its result commit. */
  ghost function MergeRequest(m: Merge, tree: Tree): CommitRequest {
    CommitRequest(m.project, m.target, map[], Payloads(tree), None, Some(HeadParents(m.ours) + HeadParents(m.theirs)))
  }

  /** Opens a merge of two heads; `base` is the state of their nearest common ancestor. */
  ghost function OpenMerge(r: Repo, editor: bool, draft: Merge, base: Tree, ours: Tree, theirs: Tree)
    : Result<(Repo, MergeId), Error>
  {
    var m := r.next;
    var row := draft.(conflicts := MergeRules.ConflictRows(base, ours, theirs));
    if row.conflicts != map[] then
      Ok((r.(merges := r.merges[m := row.(status := Conflicts)], next := m + 1), m))
    else
      var pending := r.(merges := r.merges[m := row.(status := Merged)], next := m + 1);
      var made := MakeCommit(pending, editor, MergeRequest(row, MergeRules.Joined(ours, theirs)));
      if made.Err? then Err(made.error)
      else
        var (r', c) := made.value;
        Ok((r'.(merges := r'.merges[m := row.(status := Merged, result := Some(c))]), m))
  }

  ghost function MergeBranches(r: Repo, editor: bool, project: ProjectId, target: BranchId, source: BranchId)
    : Result<(Repo, MergeId), Error>
    requires Acyclic(GraphOf(r))
  {
    if !editor then Err(Forbidden)
    else if project !in r.projects then Err(ProjectNotFound)
    else if !BranchIn(r, project, target) || !BranchIn(r, project, source) then Err(BranchNotFound)
    else
      var ours, theirs := r.branches[target].head, r.branches[source].head;
      var base := if ours.Some? && theirs.Some? then FindLca(GraphOf(r), ours.value, theirs.value) else None;
      var o, t, b := HeadState(r, ours), HeadState(r, theirs), HeadState(r, base);
      if o.None? || t.None? || b.None? then Err(BadTree)
      else
        OpenMerge(r, editor, Merge(project, target, source, ours, theirs, Merged, None, map[]),
                  b.value, o.value, t.value)
  }

  ghost predicate AllResolved(m: Merge) {
    forall p | p in m.conflicts :: m.conflicts[p].resolution.Some?
  }

  /** Completes a merge whose conflicts are all resolved, from the heads it recorded. */
  ghost function TryFinalize(r: Repo, editor: bool, m: MergeId): Result<Repo, Error>
    requires m in r.merges
  {
    var row := r.merges[m];
    if row.status.Merged? || row.conflicts == map[] || !AllResolved(row) then Ok(r)
    else
      var o, t := HeadState(r, row.ours), HeadState(r, row.theirs);
      if o.None? || t.None? then Err(BadTree)
      else
        var tree := MergeRules.FinalTree(o.value, t.value, row.conflicts);
        if tree.Err? then Err(BadResolution(tree.error))
        else
          var made := MakeCommit(r, editor, MergeRequest(row, tree.value));
          if made.Err? then Err(made.error)
          else
            var (r', c) := made.value;
            Ok(r'.(merges := r'.merges[m := row.(status := Merged, result := Some(c))]))
  }

  function Resolved(r: Repo, m: MergeId, path: Path, resolution: Resolution): Repo
    requires m in r.merges && path in r.merges[m].conflicts
  {
    var row := r.merges[m];
    var resolved := row.conflicts[path].(resolution := Some(resolution));
    r.(merges := r.merges[m := row.(conflicts := row.conflicts[path := resolved])])
  }

  ghost function ResolveConflict(r: Repo, editor: bool, project: ProjectId, m: MergeId, path: Path,
                                 resolution: Resolution): Result<Repo, Error>
  {
    if !editor then Err(Forbidden)
    else if project !in r.projects then Err(ProjectNotFound)
    else if m !in r.merges || r.merges[m].project != project || path !in r.merges[m].conflicts then
      Err(ConflictNotFound)
    else TryFinalize(Resolved(r, m, path, resolution), editor, m)
  }

  /** The recorded format: one of the known ones, else "json". */
  function SnapshotFormat(format: string): string {
    if format == "json" || format == "glb" || format == "octree+json" then format else "json"
  }

  /**
   Records a scene snapshot for a commit, once, and points the commit's tree at
   it. When an event with the snapshot's key is already in the log, publishing
   it undoes all of this, and the call still succeeds.
   */
  function SceneSnapshot(r: Repo, editor: bool, project: ProjectId, c: CommitId, format: string): Result<Repo, Error> {
    if !editor then Err(Forbidden)
    else if project !in r.projects then Err(ProjectNotFound)
    else if !CommitIn(r, project, c) then Err(CommitNotFound)
    else if c in r.scenes || c in r.announced then Ok(r)
    else
      var tree := r.commits[c].tree[SCENE_KEY := SceneRef(r.next, SnapshotFormat(format))];
      Ok(r.(scenes := r.scenes[c := r.next], announced := r.announced + {c},
            commits := r.commits[c := r.commits[c].(tree := tree)], next := r.next + 1))
  }

  /**
   A client publishes the event of a commit's scene snapshot. Commit ids are
   drawn at random, so it can only name a commit that exists.
   */
  function Announce(r: Repo, c: CommitId): Repo {
    if c in r.commits then r.(announced := r.announced + {c}) else r
  }

  /** Objects and versions are added, and never removed. */
  function Register(r: Repo, objects: set<Uuid>, versions: set<Uuid>): Repo {
    r.(known := Known(r.known.objects + objects, r.known.versions + versions))
  }

  // --------------------------------------------------------------------- runs

  /**
   One service call with its arguments; or a client publishes the event of a
   commit's scene snapshot itself, or the object service adds objects and versions.
   */
  datatype Call =
    | CallCreateBranch(editor: bool, project: ProjectId, name: string, from: Option<CommitId>)
    | CallCommit(editor: bool, req: CommitRequest)
    | CallMerge(editor: bool, project: ProjectId, target: BranchId, source: BranchId)
    | CallResolve(editor: bool, project: ProjectId, merge: MergeId, path: Path, resolution: Resolution)
    | CallScene(editor: bool, project: ProjectId, commit: CommitId, format: string)
    | CallAnnounce(commit: CommitId)
    | CallRegister(objects: set<Uuid>, versions: set<Uuid>)

  /** The tables after a call; a call that raises changes nothing. */
  ghost function Step(r: Repo, call: Call): Repo
    requires Acyclic(GraphOf(r))
  {
    match call
    case CallCreateBranch(editor, project, name, from) =>
      (match CreateBranch(r, editor, project, name, from) case Ok((r', _)) => r' case Err(_) => r)
    case CallCommit(editor, req) =>
      (match MakeCommit(r, editor, req) case Ok((r', _)) => r' case Err(_) => r)
    case CallMerge(editor, project, target, source) =>
      (match MergeBranches(r, editor, project, target, source) case Ok((r', _)) => r' case Err(_) => r)
    case CallResolve(editor, project, merge, path, resolution) =>
      (match ResolveConflict(r, editor, project, merge, path, resolution) case Ok(r') => r' case Err(_) => r)
    case CallScene(editor, project, commit, format) =>
      (match SceneSnapshot(r, editor, project, commit, format) case Ok(r') => r' case Err(_) => r)
    case CallAnnounce(commit) => Announce(r, commit)
    case CallRegister(objects, versions) => Register(r, objects, versions)
  }

  // ---------------------------------------------------------------- invariant

  ghost predicate CommitValid(r: Repo, id: CommitId) {
    id in r.commits &&
    var c := r.commits[id];
    && id < r.next
    && c.project in r.projects
    && (forall p | p in c.parents :: p < id && CommitIn(r, c.project, p))
    && DistinctIds(c.parents)
    && RowsValid(r.known, c.rows)
  }

  /** Rows are first versions, and their foreign keys hold. */
  ghost predicate RowsValid(known: Known, rows: map<Path, Row>) {
    forall p | p in rows :: rows[p].snapshotVersion == 1 && Refers(known, rows[p].objectId, rows[p].versionId)
  }

  ghost predicate HeadIn(r: Repo, project: ProjectId, head: Option<CommitId>) {
    head.Some? ==> CommitIn(r, project, head.value)
  }

  ghost predicate BranchValid(r: Repo, b: BranchId) {
    b in r.branches && b < r.next && r.branches[b].project in r.projects
      && HeadIn(r, r.branches[b].project, r.branches[b].head)
  }

  /** The conflict rows are exactly the shared paths whose values differ, with both sides recorded. */
  ghost predicate RowsMatchHeads(r: Repo, m: Merge) {
    var o, t := HeadState(r, m.ours), HeadState(r, m.theirs);
    && o.Some? && t.Some?
    && m.conflicts.Keys == MergeRules.ConflictPaths(o.value, t.value)
    && forall p | p in m.conflicts :: m.conflicts[p].ours == o.value[p] && m.conflicts[p].theirs == t.value[p]
  }

  ghost predicate StatusValid(r: Repo, m: Merge) {
    && (m.status.Merged? <==> m.result.Some?)
    && (m.status.Conflicts? ==> exists p :: p in m.conflicts && m.conflicts[p].resolution.None?)
    && (m.result.Some? ==> CommitIn(r, m.project, m.result.value)
                           && r.commits[m.result.value].parents == HeadParents(m.ours) + HeadParents(m.theirs))
  }

  ghost predicate MergeValid(r: Repo, id: MergeId) {
    id in r.merges &&
    var m := r.merges[id];
    && id < r.next
    && m.project in r.projects
    && BranchIn(r, m.project, m.target) && BranchIn(r, m.project, m.source)
    && HeadIn(r, m.project, m.ours) && HeadIn(r, m.project, m.theirs)
    && RowsMatchHeads(r, m)
    && StatusValid(r, m)
  }

  ghost predicate Valid(r: Repo) {
    && (forall c | c in r.commits :: CommitValid(r, c))
    && (forall b | b in r.branches :: BranchValid(r, b))
    && (forall m | m in r.merges :: MergeValid(r, m))
  }

  /** Tables with projects and nothing else. */
  function Empty(projects: set<ProjectId>): Repo {
    Repo(projects, Known({}, {}), map[], map[], map[], map[], {}, 0)
  }

  lemma ValidGraph(r: Repo)
    requires Valid(r)
    ensures Acyclic(GraphOf(r)) && Closed(GraphOf(r))
  {
  }

  // ---------------------------------------------------------- what never changes

  /** Commits and branches stay: a commit keeps its parents, its rows and the state it stands for. */
  ghost predicate CoreExtends(r: Repo, s: Repo) {
    && r.projects == s.projects
    && r.known.objects <= s.known.objects && r.known.versions <= s.known.versions
    && r.next <= s.next
    && (forall c | c in r.commits ::
          && c in s.commits
          && s.commits[c].project == r.commits[c].project
          && s.commits[c].parents == r.commits[c].parents
          && s.commits[c].rows == r.commits[c].rows
          && StateOf(s.commits[c]) == StateOf(r.commits[c]))
    && forall b | b in r.branches ::
         b in s.branches && s.branches[b].project == r.branches[b].project && s.branches[b].name == r.branches[b].name
  }

  /** A merge keeps its branches and recorded heads, and once it has a result keeps that too. */
  ghost predicate MergeKept(m: Merge, n: Merge) {
    && n.project == m.project && n.target == m.target && n.source == m.source
    && n.ours == m.ours && n.theirs == m.theirs
    && n.conflicts.Keys == m.conflicts.Keys
    && (m.result.Some? ==> n.result == m.result && n.status == m.status)
  }

  ghost predicate Extends(r: Repo, s: Repo) {
    CoreExtends(r, s) && forall m | m in r.merges :: m in s.merges && MergeKept(r.merges[m], s.merges[m])
  }

  ghost predicate CoreValid(r: Repo) {
    (forall c | c in r.commits :: CommitValid(r, c)) && (forall b | b in r.branches :: BranchValid(r, b))
  }

  lemma ExtendsTransitive(r: Repo, s: Repo, t: Repo)
    requires Extends(r, s) && Extends(s, t)
    ensures Extends(r, t)
  {
  }

  lemma HeadStateKept(r: Repo, s: Repo, project: ProjectId, head: Option<CommitId>)
    requires CoreExtends(r, s) && HeadIn(r, project, head)
    ensures HeadState(s, head) == HeadState(r, head) && HeadIn(s, project, head)
  {
  }

  lemma MergeStaysValid(r: Repo, s: Repo, m: MergeId)
    requires MergeValid(r, m) && CoreExtends(r, s)
    requires m in s.merges && s.merges[m] == r.merges[m]
    ensures MergeValid(s, m)
  {
    hide StateMap;
    var row := r.merges[m];
    HeadStateKept(r, s, row.project, row.ours);
    HeadStateKept(r, s, row.project, row.theirs);
  }

  lemma MergesStayValid(r: Repo, s: Repo)
    requires forall m | m in r.merges :: MergeValid(r, m)
    requires CoreExtends(r, s) && s.merges == r.merges
    ensures forall m | m in s.merges :: MergeValid(s, m)
    ensures Extends(r, s)
  {
    hide MergeValid, CoreExtends;
    forall m | m in s.merges
      ensures MergeValid(s, m)
    {
      MergeStaysValid(r, s, m);
    }
  }

  lemma BuildCommitValid(known: Known, req: CommitRequest, parents: seq<CommitId>)
    requires BuildCommit(known, req, parents).Ok?
    ensures var c := BuildCommit(known, req, parents).value;
            && c.project == req.project && c.branch == req.branch && c.parents == parents && DistinctIds(c.parents)
            && RowsValid(known, c.rows)
  {
    hide ParseSnapshots, TreeSnapshots, CommitTree;
    var parsed := if req.snapshots != [] then Some(ParseSnapshots(req.snapshots)) else TreeSnapshots(req.tree);
    RowsRefer(known, parsed.value);
  }

  lemma RowsRefer(known: Known, snaps: seq<Snapshot>)
    requires DistinctPaths(snaps) && AllRefer(known, snaps)
    ensures RowsValid(known, RowsOf(snaps))
  {
    hide DistinctPaths, RowsOf;
    RowsAt(snaps);
  }

  lemma LandKeepsCore(r: Repo, c: Commit)
    requires CoreValid(r) && BranchIn(r, c.project, c.branch)
    requires forall p | p in c.parents :: CommitIn(r, c.project, p)
    requires DistinctIds(c.parents)
    requires RowsValid(r.known, c.rows)
    ensures CoreValid(Land(r, c)) && CoreExtends(r, Land(r, c))
  {
    hide StateMap, DistinctIds;
    var s := Land(r, c);
    assert r.next !in r.commits by {
      assert r.next in r.commits ==> CommitValid(r, r.next);
    }
    assert BranchValid(r, c.branch);
    forall p | p in c.parents
      ensures p < r.next
    {
      assert CommitValid(r, p);
    }
    forall d | d in s.commits
      ensures CommitValid(s, d)
    {
      assert d != r.next ==> CommitValid(r, d);
    }
    forall b | b in s.branches
      ensures BranchValid(s, b)
    {
      assert BranchValid(r, b);
    }
  }

  lemma MakeCommitKeepsCore(r: Repo, editor: bool, req: CommitRequest)
    requires CoreValid(r) && MakeCommit(r, editor, req).Ok?
    ensures var (s, id) := MakeCommit(r, editor, req).value;
            && CoreValid(s) && CoreExtends(r, s) && s.merges == r.merges
            && id == r.next && s.next == r.next + 1 && id in s.commits && s.commits[id].project == req.project
            && s.commits[id].parents == ParentsFor(r, req)
            && s.branches == r.branches[req.branch := r.branches[req.branch].(head := Some(id))]
  {
    hide StateMap, BuildCommit;
    BuildCommitValid(r.known, req, ParentsFor(r, req));
    LandKeepsCore(r, BuildCommit(r.known, req, ParentsFor(r, req)).value);
  }

  // ------------------------------------------------------ every call keeps it

  lemma CreateBranchKeeps(r: Repo, editor: bool, project: ProjectId, name: string, from: Option<CommitId>)
    requires Valid(r) && CreateBranch(r, editor, project, name, from).Ok?
    ensures var (s, _) := CreateBranch(r, editor, project, name, from).value; Valid(s) && Extends(r, s)
  {
    hide StateMap, NameFree, MergeValid, Extends;
    var (s, b) := CreateBranch(r, editor, project, name, from).value;
    assert b !in r.branches by {
      assert b in r.branches ==> BranchValid(r, b);
    }
    forall c | c in s.commits
      ensures CommitValid(s, c)
    {
      assert CommitValid(r, c);
    }
    forall x | x in s.branches
      ensures BranchValid(s, x)
    {
      assert x != b ==> BranchValid(r, x);
    }
    MergesStayValid(r, s);
  }

  lemma CommitKeeps(r: Repo, editor: bool, req: CommitRequest)
    requires Valid(r) && MakeCommit(r, editor, req).Ok?
    ensures var (s, _) := MakeCommit(r, editor, req).value; Valid(s) && Extends(r, s)
  {
    hide MakeCommit, StateMap, MergeValid, Extends, CoreExtends, CommitValid, BranchValid;
    var (s, _) := MakeCommit(r, editor, req).value;
    MakeCommitKeepsCore(r, editor, req);
    MergesStayValid(r, s);
  }

  /** Replacing a commit's JSON tree by one that stands for the same state. */
  lemma RetreeKeepsCore(r: Repo, s: Repo, c: CommitId, tree: JsonTree)
    requires CoreValid(r) && c in r.commits
    requires StateMap(r.commits[c].rows, tree) == StateOf(r.commits[c])
    requires s.commits == r.commits[c := r.commits[c].(tree := tree)]
    requires s.projects == r.projects && s.known == r.known && s.branches == r.branches && s.next >= r.next
    ensures CoreValid(s) && CoreExtends(r, s)
  {
    hide StateMap, DistinctIds;
    assert s.commits[c] == r.commits[c].(tree := tree);
    assert StateOf(s.commits[c]) == StateOf(r.commits[c]);
    hide StateOf;
    forall d | d in s.commits
      ensures CommitValid(s, d)
    {
      assert CommitValid(r, d);
    }
    forall b | b in s.branches
      ensures BranchValid(s, b)
    {
      assert BranchValid(r, b);
    }
  }

  lemma SceneKeeps(r: Repo, editor: bool, project: ProjectId, c: CommitId, format: string)
    requires Valid(r) && SceneSnapshot(r, editor, project, c, format).Ok?
    ensures var s := SceneSnapshot(r, editor, project, c, format).value; Valid(s) && Extends(r, s)
  {
    hide StateMap, MergeValid, Extends, CoreExtends, CommitValid, BranchValid, HeadIn, SnapshotFormat;
    var s := SceneSnapshot(r, editor, project, c, format).value;
    if c in r.scenes || c in r.announced {
      ExtendsReflexive(r);
    } else {
      var commit := r.commits[c];
      SceneKeyKeepsState(commit.rows, commit.tree, SceneRef(r.next, SnapshotFormat(format)));
      RetreeKeepsCore(r, s, c, commit.tree[SCENE_KEY := SceneRef(r.next, SnapshotFormat(format))]);
      MergesStayValid(r, s);
    }
  }

  lemma AnnounceKeeps(r: Repo, c: CommitId)
    requires Valid(r)
    ensures Valid(Announce(r, c)) && Extends(r, Announce(r, c))
  {
    hide StateMap, MergeValid, Extends, CoreExtends;
    SameCore(r, Announce(r, c));
    MergesStayValid(r, Announce(r, c));
  }

  lemma RegisterKeeps(r: Repo, objects: set<Uuid>, versions: set<Uuid>)
    requires Valid(r)
    ensures Valid(Register(r, objects, versions)) && Extends(r, Register(r, objects, versions))
  {
    hide StateMap, MergeValid, Extends, DistinctIds;
    MergesStayValid(r, Register(r, objects, versions));
  }

  lemma ExtendsReflexive(r: Repo)
    ensures Extends(r, r)
  {
  }

  /** A merge row whose links and heads check out in the tables. */
  ghost predicate MergeLinked(r: Repo, m: Merge) {
    && m.project in r.projects
    && BranchIn(r, m.project, m.target) && BranchIn(r, m.project, m.source)
    && HeadIn(r, m.project, m.ours) && HeadIn(r, m.project, m.theirs)
    && RowsMatchHeads(r, m)
  }

  lemma MergeLinkedKept(r: Repo, s: Repo, m: Merge)
    requires MergeLinked(r, m) && CoreExtends(r, s)
    ensures MergeLinked(s, m)
  {
    hide StateMap;
    HeadStateKept(r, s, m.project, m.ours);
    HeadStateKept(r, s, m.project, m.theirs);
  }

  /** Writing one merge row on top of extended tables. */
  lemma PutMergeKeeps(r: Repo, s: Repo, id: MergeId, m: Merge)
    requires Valid(r) && CoreValid(s) && CoreExtends(r, s)
    requires s.merges == r.merges[id := m] && id < s.next
    requires id in r.merges ==> MergeKept(r.merges[id], m)
    requires MergeLinked(s, m) && StatusValid(s, m)
    ensures Valid(s) && Extends(r, s)
  {
    hide CoreExtends, CommitValid, BranchValid, StatusValid, RowsMatchHeads, HeadIn;
    forall n | n in s.merges
      ensures MergeValid(s, n)
    {
      if n != id {
        assert MergeValid(r, n);
        MergeStaysValid(r, s, n);
      }
    }
  }

  /** Taking ids off the counter and touching merge rows leaves commits and branches alone. */
  lemma SameCore(r: Repo, s: Repo)
    requires CoreValid(r)
    requires s.projects == r.projects && s.known == r.known
    requires s.commits == r.commits && s.branches == r.branches && s.next >= r.next
    ensures CoreValid(s) && CoreExtends(r, s)
  {
  }

  lemma CoreExtendsTransitive(r: Repo, s: Repo, t: Repo)
    requires CoreExtends(r, s) && CoreExtends(s, t)
    ensures CoreExtends(r, t)
  {
  }

  /** Landing the result commit of a merge row: the row then names it. */
  lemma ResultLands(r: Repo, editor: bool, m: Merge, tree: Tree)
    requires CoreValid(r) && MakeCommit(r, editor, MergeRequest(m, tree)).Ok?
    ensures var (s, c) := MakeCommit(r, editor, MergeRequest(m, tree)).value;
            && CoreValid(s) && CoreExtends(r, s) && s.merges == r.merges && c == r.next && s.next == r.next + 1
            && StatusValid(s, m.(status := Merged, result := Some(c)))
  {
    hide MakeCommit, StateMap, CoreExtends, CommitValid, BranchValid;
    MakeCommitKeepsCore(r, editor, MergeRequest(m, tree));
  }

  lemma ConflictRowsMatch(r: Repo, m: Merge, base: Tree, ours: Tree, theirs: Tree)
    requires HeadState(r, m.ours) == Some(ours) && HeadState(r, m.theirs) == Some(theirs)
    requires m.conflicts == MergeRules.ConflictRows(base, ours, theirs)
    ensures RowsMatchHeads(r, m)
    ensures forall p | p in m.conflicts :: m.conflicts[p].resolution.None?
  {
  }

  /** The tables once the result commit of merge `id` is in: its row says so. */
  ghost function Finished(r: Repo, editor: bool, id: MergeId, m: Merge, tree: Tree): Repo
    requires MakeCommit(r, editor, MergeRequest(m, tree)).Ok?
  {
    var (s, c) := MakeCommit(r, editor, MergeRequest(m, tree)).value;
    s.(merges := s.merges[id := m.(status := Merged, result := Some(c))])
  }

  lemma FinishKeeps(r: Repo, mid: Repo, editor: bool, id: MergeId, m: Merge, tree: Tree)
    requires Valid(r) && CoreValid(mid) && CoreExtends(r, mid)
    requires id in mid.merges && mid.merges == r.merges[id := mid.merges[id]] && id < mid.next
    requires MergeLinked(mid, m)
    requires id in r.merges ==> MergeKept(r.merges[id], m) && r.merges[id].result.None?
    requires MakeCommit(mid, editor, MergeRequest(m, tree)).Ok?
    ensures var s := Finished(mid, editor, id, m, tree); Valid(s) && Extends(r, s)
  {
    hide MakeCommit, CoreExtends, CommitValid, BranchValid, MergeValid, MergeLinked, StatusValid, RowsMatchHeads;
    ResultLands(mid, editor, m, tree);
    var (s0, c) := MakeCommit(mid, editor, MergeRequest(m, tree)).value;
    var done := m.(status := Merged, result := Some(c));
    var s := Finished(mid, editor, id, m, tree);
    SameCore(s0, s);
    CoreExtendsTransitive(r, mid, s0);
    CoreExtendsTransitive(r, s0, s);
    MergeLinkedKept(mid, s0, m);
    MergeLinkedKept(s0, s, m);
    SameLinks(s, m, done);
    SameStatus(s0, s, done);
    PutMergeKeeps(r, s, id, done);
  }

  lemma SameStatus(r: Repo, s: Repo, m: Merge)
    requires StatusValid(r, m) && s.commits == r.commits
    ensures StatusValid(s, m)
  {
  }

  lemma SameLinks(r: Repo, m: Merge, n: Merge)
    requires MergeLinked(r, m)
    requires n == m.(status := n.status, result := n.result)
    ensures MergeLinked(r, n)
  {
  }

  lemma OpenMergeKeeps(r: Repo, editor: bool, draft: Merge, base: Tree, ours: Tree, theirs: Tree)
    requires Valid(r) && OpenMerge(r, editor, draft, base, ours, theirs).Ok?
    requires draft.project in r.projects && draft.result.None?
    requires BranchIn(r, draft.project, draft.target) && BranchIn(r, draft.project, draft.source)
    requires HeadIn(r, draft.project, draft.ours) && HeadIn(r, draft.project, draft.theirs)
    requires HeadState(r, draft.ours) == Some(ours) && HeadState(r, draft.theirs) == Some(theirs)
    ensures var (s, id) := OpenMerge(r, editor, draft, base, ours, theirs).value; Valid(s) && Extends(r, s)
  {
    hide MakeCommit, HeadState, StateMap, CommitValid, BranchValid, CoreExtends, MergeRules.ConflictRows,
         RowsMatchHeads;
    var id := r.next;
    assert id !in r.merges by {
      assert id in r.merges ==> MergeValid(r, id);
    }
    hide MergeValid;
    var (s, _) := OpenMerge(r, editor, draft, base, ours, theirs).value;
    var row := draft.(conflicts := MergeRules.ConflictRows(base, ours, theirs));
    ConflictRowsMatch(r, row, base, ours, theirs);
    if row.conflicts != map[] {
      var m := row.(status := Conflicts);
      SameCore(r, s);
      SameLinks(r, row, m);
      MergeLinkedKept(r, s, m);
      assert StatusValid(s, m) by {
        var p :| p in m.conflicts;
      }
      PutMergeKeeps(r, s, id, m);
    } else {
      var pending := r.(merges := r.merges[id := row.(status := Merged)], next := id + 1);
      SameCore(r, pending);
      MergeLinkedKept(r, pending, row);
      FinishKeeps(r, pending, editor, id, row, MergeRules.Joined(ours, theirs));
    }
  }

  lemma MergeKeeps(r: Repo, editor: bool, project: ProjectId, target: BranchId, source: BranchId)
    requires Valid(r) && Acyclic(GraphOf(r)) && MergeBranches(r, editor, project, target, source).Ok?
    ensures var (s, id) := MergeBranches(r, editor, project, target, source).value; Valid(s) && Extends(r, s)
  {
    hide OpenMerge, MergeValid, CommitValid, HeadState, Extends, FindLca;
    assert BranchValid(r, target) && BranchValid(r, source);
    var ours, theirs := r.branches[target].head, r.branches[source].head;
    var base := if ours.Some? && theirs.Some? then FindLca(GraphOf(r), ours.value, theirs.value) else None;
    OpenMergeKeeps(r, editor, Merge(project, target, source, ours, theirs, Merged, None, map[]),
                   HeadState(r, base).value, HeadState(r, ours).value, HeadState(r, theirs).value);
  }

  lemma ResolvedRow(r: Repo, m: MergeId, path: Path, resolution: Resolution)
    requires MergeValid(r, m) && path in r.merges[m].conflicts
    ensures var row := Resolved(r, m, path, resolution).merges[m];
            && MergeLinked(r, row) && MergeKept(r.merges[m], row) && row.status == r.merges[m].status
            && (row.status.Merged? || !AllResolved(row) ==> StatusValid(r, row))
  {
    hide StateMap;
  }

  lemma ResolveKeeps(r: Repo, editor: bool, project: ProjectId, m: MergeId, path: Path, resolution: Resolution)
    requires Valid(r) && ResolveConflict(r, editor, project, m, path, resolution).Ok?
    ensures var s := ResolveConflict(r, editor, project, m, path, resolution).value; Valid(s) && Extends(r, s)
  {
    hide MakeCommit, HeadState, StateMap, CommitValid, BranchValid, CoreExtends, RowsMatchHeads, StatusValid,
         MergeLinked, Extends;
    assert MergeValid(r, m);
    var r1 := Resolved(r, m, path, resolution);
    var row := r1.merges[m];
    ResolvedRow(r, m, path, resolution);
    SameCore(r, r1);
    MergeLinkedKept(r, r1, row);
    if row.status.Merged? || !AllResolved(row) {
      SameStatus(r, r1, row);
      PutMergeKeeps(r, r1, m, row);
    } else {
      PendingHasNoResult(r, m);
      var tree := MergeRules.FinalTree(HeadState(r1, row.ours).value, HeadState(r1, row.theirs).value,
        row.conflicts).value;
      FinishKeeps(r, r1, editor, m, row, tree);
    }
  }

  lemma PendingHasNoResult(r: Repo, m: MergeId)
    requires MergeValid(r, m) && r.merges[m].status.Conflicts?
    ensures r.merges[m].result.None?
  {
  }

  // --------------------------------------------------------------- all calls

  /** Every call, whether it raises or not, keeps the invariant and what never changes. */
  lemma StepKeeps(r: Repo, call: Call)
    requires Valid(r) && Acyclic(GraphOf(r))
    ensures Valid(Step(r, call)) && Extends(r, Step(r, call))
  {
    hide Valid, Extends, MakeCommit, MergeBranches, ResolveConflict, SceneSnapshot, CreateBranch;
    ExtendsReflexive(r);
    match call {
      case CallCreateBranch(editor, project, name, from) =>
        if CreateBranch(r, editor, project, name, from).Ok? { CreateBranchKeeps(r, editor, project, name, from); }
      case CallCommit(editor, req) =>
        if MakeCommit(r, editor, req).Ok? { CommitKeeps(r, editor, req); }
      case CallMerge(editor, project, target, source) =>
        if MergeBranches(r, editor, project, target, source).Ok? { MergeKeeps(r, editor, project, target, source); }
      case CallResolve(editor, project, merge, path, resolution) =>
        if ResolveConflict(r, editor, project, merge, path, resolution).Ok? {
          ResolveKeeps(r, editor, project, merge, path, resolution);
        }
      case CallScene(editor, project, commit, format) =>
        if SceneSnapshot(r, editor, project, commit, format).Ok? { SceneKeeps(r, editor, project, commit, format); }
      case CallAnnounce(commit) => AnnounceKeeps(r, commit);
      case CallRegister(objects, versions) => RegisterKeeps(r, objects, versions);
    }
  }

  /** The tables after a run of calls. */
  ghost function Run(r: Repo, calls: seq<Call>): Repo
    requires Valid(r)
    decreases |calls|
  {
    if calls == [] then r
    else
      ValidGraph(r);
      StepKeeps(r, calls[0]);
      Run(Step(r, calls[0]), calls[1..])
  }

  lemma {:induction false} RunKeeps(r: Repo, calls: seq<Call>)
    requires Valid(r)
    ensures Valid(Run(r, calls)) && Extends(r, Run(r, calls))
    decreases |calls|
  {
    hide Valid, Extends, Step;
    if calls == [] {
      ExtendsReflexive(r);
    } else {
      ValidGraph(r);
      StepKeeps(r, calls[0]);
      RunKeeps(Step(r, calls[0]), calls[1..]);
      ExtendsTransitive(r, Step(r, calls[0]), Run(r, calls));
    }
  }

  /**
   In every run of calls on empty tables: a merge is merged exactly when it has
   a result; one in conflict has an unresolved row; its rows are exactly the
   shared paths whose values differ between the recorded heads; and every head
   and parent link names a commit of the same project.
   */
  lemma EveryRun(projects: set<ProjectId>, calls: seq<Call>)
    ensures Valid(Empty(projects))
    ensures var s := Run(Empty(projects), calls);
            && (forall m | m in s.merges :: MergeSound(s, s.merges[m]))
            && (forall b | b in s.branches && s.branches[b].head.Some? ::
                  CommitIn(s, s.branches[b].project, s.branches[b].head.value))
            && (forall c, p | c in s.commits && p in s.commits[c].parents ::
                 p < c && CommitIn(s, s.commits[c].project, p))
  {
    hide StateMap, HeadState, Run, Extends;
    RunKeeps(Empty(projects), calls);
    ValidMeans(Run(Empty(projects), calls));
  }

  lemma ValidMeans(s: Repo)
    requires Valid(s)
    ensures forall m | m in s.merges :: MergeSound(s, s.merges[m])
    ensures forall b | b in s.branches && s.branches[b].head.Some? ::
              CommitIn(s, s.branches[b].project, s.branches[b].head.value)
    ensures forall c, p | c in s.commits && p in s.commits[c].parents :: p < c && CommitIn(s, s.commits[c].project, p)
  {
  }

  /** Status, result and conflict rows of a merge fit together and fit the recorded heads. */
  ghost predicate MergeSound(s: Repo, row: Merge) {
    && (row.status.Merged? <==> row.result.Some?)
    && (row.status.Conflicts? ==> exists p :: p in row.conflicts && row.conflicts[p].resolution.None?)
    && HeadState(s, row.ours).Some? && HeadState(s, row.theirs).Some?
    && row.conflicts.Keys == MergeRules.ConflictPaths(HeadState(s, row.ours).value, HeadState(s, row.theirs).value)
  }

  /** Once a merge has a result, no later call changes it, its status or the state of any commit. */
  lemma ResultIsFinal(r: Repo, calls: seq<Call>, m: MergeId)
    requires Valid(r) && m in r.merges && r.merges[m].result.Some?
    ensures var s := Run(r, calls);
            && m in s.merges && s.merges[m].result == r.merges[m].result && s.merges[m].status == Merged
            && forall c | c in r.commits :: c in s.commits && StateOf(s.commits[c]) == StateOf(r.commits[c])
  {
    hide StateMap;
    assert MergeValid(r, m);
    RunKeeps(r, calls);
  }

  // ----------------------------------------------- branches and scene snapshots

  /** The same branches with the same names; heads may have moved. */
  ghost predicate SameBranches(r: Repo, s: Repo) {
    && s.branches.Keys == r.branches.Keys
    && forall b | b in r.branches ::
         s.branches[b].project == r.branches[b].project && s.branches[b].name == r.branches[b].name
  }

  /** The same scene snapshots and the same known ids, and every commit there as it was. */
  ghost predicate ScenesSame(r: Repo, s: Repo) {
    && s.scenes == r.scenes && s.announced == r.announced && s.known == r.known
    && forall c | c in r.commits :: c in s.commits && s.commits[c] == r.commits[c]
  }

  /** No commit has an id that is yet to be given out. */
  ghost predicate FreshAhead(r: Repo) {
    forall c | c in r.commits :: c < r.next
  }

  lemma ValidIsFreshAhead(r: Repo)
    requires Valid(r)
    ensures FreshAhead(r)
  {
    assert forall c | c in r.commits :: CommitValid(r, c);
  }

  lemma MakeCommitKeepsOthers(r: Repo, editor: bool, req: CommitRequest)
    requires FreshAhead(r) && MakeCommit(r, editor, req).Ok?
    ensures var s := MakeCommit(r, editor, req).value.0; SameBranches(r, s) && ScenesSame(r, s)
  {
    hide BuildCommit;
    assert BuildCommit(r.known, req, ParentsFor(r, req)).value.branch == req.branch by {
      BuildCommitValid(r.known, req, ParentsFor(r, req));
    }
  }

  lemma OpenMergeKeepsOthers(r: Repo, editor: bool, draft: Merge, base: Tree, ours: Tree, theirs: Tree)
    requires FreshAhead(r) && OpenMerge(r, editor, draft, base, ours, theirs).Ok?
    ensures var s := OpenMerge(r, editor, draft, base, ours, theirs).value.0; SameBranches(r, s) && ScenesSame(r, s)
  {
    hide MakeCommit, MergeRules.ConflictRows, MergeRules.Joined;
    var row := draft.(conflicts := MergeRules.ConflictRows(base, ours, theirs));
    if row.conflicts == map[] {
      var pending := r.(merges := r.merges[r.next := row.(status := Merged)], next := r.next + 1);
      MakeCommitKeepsOthers(pending, editor, MergeRequest(row, MergeRules.Joined(ours, theirs)));
    }
  }

  lemma FinalizeKeepsOthers(r: Repo, editor: bool, m: MergeId)
    requires FreshAhead(r) && m in r.merges && TryFinalize(r, editor, m).Ok?
    ensures var s := TryFinalize(r, editor, m).value; SameBranches(r, s) && ScenesSame(r, s)
  {
    hide MakeCommit, HeadState, MergeRules.FinalTree;
    var row := r.merges[m];
    if !row.status.Merged? && row.conflicts != map[] && AllResolved(row) {
      var o, t := HeadState(r, row.ours).value, HeadState(r, row.theirs).value;
      MakeCommitKeepsOthers(r, editor, MergeRequest(row, MergeRules.FinalTree(o, t, row.conflicts).value));
    }
  }

  /**
   Only creating a branch adds one, and only recording a scene snapshot changes
   a commit that is already there.
   */
  lemma CommitsAndMergesKeepOthers(r: Repo, call: Call)
    requires FreshAhead(r) && Acyclic(GraphOf(r)) && (call.CallCommit? || call.CallMerge? || call.CallResolve?)
    ensures SameBranches(r, Step(r, call)) && ScenesSame(r, Step(r, call))
  {
    hide MakeCommit, OpenMerge, TryFinalize, HeadState, FindLca;
    match call {
      case CallCommit(editor, req) =>
        if MakeCommit(r, editor, req).Ok? { MakeCommitKeepsOthers(r, editor, req); }
      case CallMerge(editor, project, target, source) =>
        if MergeBranches(r, editor, project, target, source).Ok? {
          var ours, theirs := r.branches[target].head, r.branches[source].head;
          var base := if ours.Some? && theirs.Some? then FindLca(GraphOf(r), ours.value, theirs.value) else None;
          OpenMergeKeepsOthers(r, editor, Merge(project, target, source, ours, theirs, Merged, None, map[]),
                               HeadState(r, base).value, HeadState(r, ours).value, HeadState(r, theirs).value);
        }
      case CallResolve(editor, project, m, path, resolution) =>
        if ResolveConflict(r, editor, project, m, path, resolution).Ok? {
          FinalizeKeepsOthers(Resolved(r, m, path, resolution), editor, m);
        }
    }
  }

  /** No two branches of a project share a name. */
  ghost predicate NamesUnique(r: Repo) {
    forall a, b | a in r.branches && b in r.branches && r.branches[a].project == r.branches[b].project
                  && r.branches[a].name == r.branches[b].name :: a == b
  }

  /** Branch names stay unique in every run. */
  lemma {:induction false} NamesStayUnique(r: Repo, calls: seq<Call>)
    requires Valid(r) && NamesUnique(r)
    ensures NamesUnique(Run(r, calls))
    decreases |calls|
  {
    hide Valid, Step;
    if calls != [] {
      ValidGraph(r);
      StepKeeps(r, calls[0]);
      ValidIsFreshAhead(r);
      StepKeepsNames(r, calls[0]);
      NamesStayUnique(Step(r, calls[0]), calls[1..]);
    }
  }

  lemma StepKeepsNames(r: Repo, call: Call)
    requires FreshAhead(r) && Acyclic(GraphOf(r)) && NamesUnique(r)
    ensures NamesUnique(Step(r, call))
  {
    if call.CallCommit? || call.CallMerge? || call.CallResolve? {
      hide Step;
      CommitsAndMergesKeepOthers(r, call);
    }
  }

  /** Every scene snapshot has its event in the log, and its commit's tree points at it. */
  ghost predicate ScenesLinked(r: Repo) {
    forall c | c in r.scenes ::
      && c in r.announced && c in r.commits && SCENE_KEY in r.commits[c].tree
      && r.commits[c].tree[SCENE_KEY].SceneRef? && r.commits[c].tree[SCENE_KEY].snapshot == r.scenes[c]
  }

  /** The scene snapshots of `r` are there in `s`, and so are the trees of their commits. */
  ghost predicate ScenesKept(r: Repo, s: Repo) {
    forall c | c in r.scenes && c in r.commits ::
      c in s.scenes && s.scenes[c] == r.scenes[c] && c in s.commits && s.commits[c].tree == r.commits[c].tree
  }

  lemma StepKeepsScenes(r: Repo, call: Call)
    requires FreshAhead(r) && Acyclic(GraphOf(r)) && ScenesLinked(r)
    ensures ScenesLinked(Step(r, call)) && ScenesKept(r, Step(r, call))
  {
    hide MakeCommit, MergeBranches, ResolveConflict, NameFree, SnapshotFormat;
    if call.CallCommit? || call.CallMerge? || call.CallResolve? {
      hide Step;
      CommitsAndMergesKeepOthers(r, call);
    }
  }

  /**
   In every run a recorded scene snapshot stays, its commit's tree keeps pointing
   at it, and later requests for the same commit, whatever the format, change nothing.
   */
  lemma {:induction false} ScenesStay(r: Repo, calls: seq<Call>)
    requires Valid(r) && ScenesLinked(r)
    ensures var s := Run(r, calls);
            && ScenesLinked(s) && ScenesKept(r, s)
            && forall c, editor, project, format | c in r.scenes && SceneSnapshot(s, editor, project, c, format).Ok? ::
                 SceneSnapshot(s, editor, project, c, format) == Ok(s)
    decreases |calls|
  {
    hide Valid, Step;
    if calls != [] {
      ValidGraph(r);
      StepKeeps(r, calls[0]);
      ValidIsFreshAhead(r);
      StepKeepsScenes(r, calls[0]);
      ScenesStay(Step(r, calls[0]), calls[1..]);
    }
  }

  /**
   After any run, a request for a scene snapshot that passes its checks takes
   effect exactly when the snapshot's event is not in the log yet.
   */
  lemma SceneTakesEffectIff(projects: set<ProjectId>, calls: seq<Call>, project: ProjectId, c: CommitId, format: string)
    ensures Valid(Empty(projects))
    ensures var r := Run(Empty(projects), calls);
            SceneSnapshot(r, true, project, c, format).Ok? ==>
              var s := SceneSnapshot(r, true, project, c, format).value;
              if c in r.announced then s == r
              else c !in r.scenes && c in s.scenes && c in s.commits && SCENE_KEY in s.commits[c].tree
                   && s.commits[c].tree[SCENE_KEY] == SceneRef(s.scenes[c], SnapshotFormat(format))
  {
    hide Run, Valid;
    EveryRun(projects, calls);
    ScenesStay(Empty(projects), calls);
  }

  /** A commit whose event a client has published without a scene snapshot never gets one. */
  lemma {:induction false} AnnouncedStaysBare(r: Repo, calls: seq<Call>, c: CommitId)
    requires Valid(r) && c in r.announced && c !in r.scenes
    ensures c !in Run(r, calls).scenes
    decreases |calls|
  {
    hide Valid, Step;
    if calls != [] {
      ValidGraph(r);
      ValidIsFreshAhead(r);
      StepKeeps(r, calls[0]);
      StepKeepsBare(r, calls[0], c);
      AnnouncedStaysBare(Step(r, calls[0]), calls[1..], c);
    }
  }

  lemma StepKeepsBare(r: Repo, call: Call, c: CommitId)
    requires FreshAhead(r) && Acyclic(GraphOf(r)) && c in r.announced && c !in r.scenes
    ensures c in Step(r, call).announced && c !in Step(r, call).scenes
  {
    if call.CallCommit? || call.CallMerge? || call.CallResolve? {
      hide Step;
      CommitsAndMergesKeepOthers(r, call);
    }
  }
}
