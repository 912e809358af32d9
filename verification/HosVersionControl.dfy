/**
 The version-control service: one object whose methods read and update the
 tables. Each method is proved to take exactly the step that `Repository`
 specifies; a method that returns an error leaves every field as it was.
 */
module HosVersionControl {
  import opened Wrappers
  import opened StringOrder
  import opened Hnf
  import opened CommitContents
  import opened Repository
  import CommitGraph
  import Diff
  import MergeRules

  type CommitId = CommitGraph.CommitId

  /** The entries of a diff of two states, with the label that tells whether rows were compared; or of two raw trees. */
  datatype CommitDiff =
    | OfStates(states: seq<Diff.Entry<Fields>>, objectSnapshots: bool)
    | OfTrees(trees: seq<Diff.Entry<TreeEntry>>)

  /** What a diff of raw trees compares: all but the service's own keys, null counting as missing. */
  function RawTree(tree: JsonTree): map<Path, TreeEntry> {
    map p | p in tree && !Claimed(p) && tree[p] != Leaf(JNull) :: tree[p]
  }

  /** What a JSON tree says at a path; null says nothing. */
  function Said(tree: JsonTree, p: Path): Option<TreeEntry> {
    if p in tree && tree[p] != Leaf(JNull) then Some(tree[p]) else None
  }

  /** A diff of raw trees has an entry exactly where they say different things, and the service's own keys aside. */
  lemma RawDiffIff(a: JsonTree, b: JsonTree, p: Path)
    ensures p in Diff.EntryPaths(Diff.DiffOf(RawTree(a), RawTree(b)))
       <==> Said(a, p) != Said(b, p) && p !in {"scene_graph_snapshot", "tree_root_ref", "_hnf_validation_warnings"}
  {
    hide Diff.DiffOf;
    Diff.DiffIsExact(RawTree(a), RawTree(b));
  }

  class HosVersionControlService {
    var projects: set<ProjectId>
    var known: Known
    var branches: map<BranchId, Branch>
    var commits: map<CommitId, Commit>
    var merges: map<MergeId, Merge>
    var scenes: map<CommitId, nat>
    var announced: set<CommitId>
    var next: nat

    function State(): Repo
      reads this
    {
      Repo(projects, known, branches, commits, merges, scenes, announced, next)
    }

    ghost predicate Valid()
      reads this
    {
      Repository.Valid(State())
    }

    constructor (projects: set<ProjectId>)
      ensures Valid() && State() == Empty(projects)
    {
      this.projects, known := projects, Known({}, {});
      branches, commits, merges, scenes, announced, next := map[], map[], map[], map[], {}, 0;
    }

    method CreateBranch(editor: bool, project: ProjectId, name: string, from: Option<CommitId>)
      returns (res: Result<BranchId, Error>)
      requires Valid()
      modifies this
      ensures Valid()
      ensures match Repository.CreateBranch(old(State()), editor, project, name, from)
              case Ok((s, b)) => State() == s && res == Ok(b)
              case Err(e) => State() == old(State()) && res == Err(e)
    {
      hide Repository.Valid;
      ghost var r := State();
      if Repository.CreateBranch(r, editor, project, name, from).Ok? {
        CreateBranchKeeps(r, editor, project, name, from);
      }
      if !editor { return Err(Forbidden); }
      if project !in projects { return Err(ProjectNotFound); }
      if from.Some? && (from.value !in commits || commits[from.value].project != project) {
        return Err(CommitNotFound);
      }
      if exists b | b in branches :: branches[b].project == project && branches[b].name == name {
        return Err(NameTaken);
      }
      branches := branches[next := Branch(project, name, from)];
      res := Ok(next);
      next := next + 1;
    }

    /** The state a commit stands for, from its rows if it has any. */
    method CommitStateMap(c: Commit) returns (state: Option<Tree>)
      ensures state == StateOf(c)
    {
      if c.rows != map[] {
        return Some(map p | p in c.rows :: DiffValue(c.rows[p]));
      }
      hide DecodeEntry, LegacyTreeValue;
      var values: Tree := map[];
      var rest := c.tree.Keys;
      while rest != {}
        invariant rest <= c.tree.Keys
        invariant forall p | IsObjectAt(c.tree, p) && p !in rest :: DecodeEntry(p, c.tree[p].fields).Some?
        invariant forall p :: p in values <==> IsObjectAt(c.tree, p) && p !in rest
        invariant forall p | p in values :: values[p] == LegacyTreeValue(DecodeEntry(p, c.tree[p].fields).value)
        decreases rest
      {
        var path :| path in rest;
        if !Reserved(path) && c.tree[path].Object? {
          var s := DecodeEntry(path, c.tree[path].fields);
          if s.None? {
            assert IsObjectAt(c.tree, path);
            return None;
          }
          values := values[path := LegacyTreeValue(s.value)];
        }
        rest := rest - {path};
      }
      assert StateOf(c).value == values;
      return Some(values);
    }

    method StateOfHead(head: Option<CommitId>) returns (state: Option<Tree>)
      ensures state == HeadState(State(), head)
    {
      if head.Some? && head.value in commits {
        state := CommitStateMap(commits[head.value]);
      } else {
        state := Some(map[]);
      }
    }

    /** The snapshots that validate, in order. */
    method ParseAll(raws: seq<RawSnapshot>) returns (snaps: seq<Snapshot>)
      ensures snaps == ParseSnapshots(raws)
    {
      snaps := [];
      NoSnapshots(raws);
      hide ValidateRaw, ParseSnapshots;
      for i := 0 to |raws|
        invariant snaps == ParseSnapshots(raws[..i])
      {
        ParseNext(raws, i);
        var s := ValidateRaw(raws[i]);
        if s.Some? {
          snaps := snaps + [s.value];
        }
      }
      assert raws[..|raws|] == raws;
    }

    /** The snapshots a JSON tree describes. */
    method SnapshotsFromTree(tree: JsonTree) returns (snaps: Option<seq<Snapshot>>)
      ensures snaps == TreeSnapshots(tree)
    {
      var paths := SortPaths(tree.Keys);
      snaps := Some([]);
      assert TreeSnapshotsOver(paths[..0], tree) == Some([]);
      hide DecodeEntry, TreeSnapshotsOver;
      for i := 0 to |paths|
        invariant snaps == TreeSnapshotsOver(paths[..i], tree)
      {
        TreeSnapshotsNext(paths, i, tree);
        var path := paths[i];
        if !Reserved(path) && tree[path].Object? {
          var s := DecodeEntry(path, tree[path].fields);
          snaps := if snaps.Some? && s.Some? then Some(snaps.value + [s.value]) else None;
        }
      }
      assert paths[..|paths|] == paths;
    }

    /** Builds the rows and the tree of a new commit. */
    method NewCommit(req: CommitRequest, parents: seq<CommitId>) returns (res: Result<Commit, Error>)
      ensures res == BuildCommit(known, req, parents)
    {
      hide ParseSnapshots, TreeSnapshots, DistinctPaths, RowsOf, CommitTree, RootOf, DumpAll, Raises, AllRefer;
      var snaps: seq<Snapshot>;
      var raws: seq<RawSnapshot>;
      if req.snapshots != [] {
        snaps := ParseAll(req.snapshots);
        raws := req.snapshots;
      } else {
        var parsed := SnapshotsFromTree(req.tree);
        if parsed.None? {
          return Err(BadTree);
        }
        snaps := parsed.value;
        raws := DumpAll(snaps);
        DumpRoundTrip(snaps);
      }
      var rows := PersistSnapshots(known, raws);
      if rows.Err? {
        return Err(if rows.error.VersionNumRaises? then UnreadableVersionNum else ConstraintBroken);
      }
      if exists i, j :: 0 <= i < j < |parents| && parents[i] == parents[j] {
        return Err(DuplicateParent);
      }
      var root := RootOf(snaps, req.rootRef);
      var tree := BuildTree(req.tree, req.snapshots, snaps, root);
      return Ok(Repository.Commit.Commit(req.project, req.branch, parents, rows.value, tree, root));
    }

    /** Commits on a branch. Also called by a merge, while its row is still being written. */
    method CommitOn(editor: bool, req: CommitRequest) returns (res: Result<CommitId, Error>)
      modifies this
      ensures match MakeCommit(old(State()), editor, req)
              case Ok((s, c)) => State() == s && res == Ok(c)
              case Err(e) => State() == old(State()) && res == Err(e)
    {
      if !editor { return Err(Forbidden); }
      if req.project !in projects { return Err(ProjectNotFound); }
      if req.branch !in branches || branches[req.branch].project != req.project { return Err(BranchNotFound); }
      hide BuildCommit;
      var parents := ParentsFor(State(), req);
      for i := 0 to |parents|
        invariant forall k | 0 <= k < i :: CommitIn(State(), req.project, parents[k])
      {
        if parents[i] !in commits || commits[parents[i]].project != req.project {
          assert parents[i] in parents && !CommitIn(State(), req.project, parents[i]);
          return Err(ParentCommitNotFound);
        }
      }
      var built := NewCommit(req, parents);
      if built.Err? {
        return Err(built.error);
      }
      BuildCommitKeepsBranch(req, parents);
      res := Ok(next);
      commits := commits[next := built.value];
      branches := branches[req.branch := branches[req.branch].(head := Some(next))];
      next := next + 1;
    }

    lemma BuildCommitKeepsBranch(req: CommitRequest, parents: seq<CommitId>)
      ensures BuildCommit(known, req, parents).Ok? ==> BuildCommit(known, req, parents).value.branch == req.branch
    {
    }

    method Commit(editor: bool, req: CommitRequest) returns (res: Result<CommitId, Error>)
      requires Valid()
      modifies this
      ensures Valid()
      ensures match MakeCommit(old(State()), editor, req)
              case Ok((s, c)) => State() == s && res == Ok(c)
              case Err(e) => State() == old(State()) && res == Err(e)
    {
      hide MakeCommit, Repository.Valid;
      if MakeCommit(State(), editor, req).Ok? {
        CommitKeeps(State(), editor, req);
      }
      res := CommitOn(editor, req);
    }

    /** The difference of the states of two commits of a project, or of their trees when both states are empty. */
    method DiffCommits(project: ProjectId, from: CommitId, to: CommitId) returns (res: Result<CommitDiff, Error>)
      ensures var r := State();
              if project !in projects then res == Err(ProjectNotFound)
              else if !CommitIn(r, project, from) || !CommitIn(r, project, to) then res == Err(CommitNotFound)
              else
                var a, b := StateOf(commits[from]), StateOf(commits[to]);
                if a.None? || b.None? then res == Err(BadTree)
                else if a.value == map[] && b.value == map[] then
                  res == Ok(OfTrees(Diff.DiffOf(RawTree(commits[from].tree), RawTree(commits[to].tree))))
                else
                  res == Ok(OfStates(Diff.DiffOf(a.value, b.value),
                                     commits[from].rows != map[] || commits[to].rows != map[]))
    {
      if project !in projects { return Err(ProjectNotFound); }
      if from !in commits || commits[from].project != project { return Err(CommitNotFound); }
      if to !in commits || commits[to].project != project { return Err(CommitNotFound); }
      var a := CommitStateMap(commits[from]);
      var b := CommitStateMap(commits[to]);
      if a.None? || b.None? { return Err(BadTree); }
      if a.value == map[] && b.value == map[] {
        var raw := Diff.ComputeDiff(RawTree(commits[from].tree), RawTree(commits[to].tree));
        return Ok(OfTrees(raw));
      }
      var entries := Diff.ComputeDiff(a.value, b.value);
      return Ok(OfStates(entries, commits[from].rows != map[] || commits[to].rows != map[]));
    }

    /** Merges the source branch into the target branch. */
    method Merge(editor: bool, project: ProjectId, target: BranchId, source: BranchId)
      returns (res: Result<MergeId, Error>)
      requires Valid()
      modifies this
      ensures Valid() && CommitGraph.Acyclic(GraphOf(old(State())))
      ensures match MergeBranches(old(State()), editor, project, target, source)
              case Ok((s, m)) => State() == s && res == Ok(m)
              case Err(e) => State() == old(State()) && res == Err(e)
    {
      hide OpenMerge, StateOf, HeadState, CommitGraph.FindLca, Repository.Valid;
      ghost var r := State();
      ValidGraph(r);
      if MergeBranches(r, editor, project, target, source).Ok? {
        MergeKeeps(r, editor, project, target, source);
      }
      if !editor { return Err(Forbidden); }
      if project !in projects { return Err(ProjectNotFound); }
      if target !in branches || branches[target].project != project { return Err(BranchNotFound); }
      if source !in branches || branches[source].project != project { return Err(BranchNotFound); }
      var ours, theirs := branches[target].head, branches[source].head;
      var baseCommit: Option<CommitId> := None;
      if ours.Some? && theirs.Some? {
        baseCommit := CommitGraph.FindLcaByWalking(GraphOf(State()), ours.value, theirs.value);
      }
      var oursTree := StateOfHead(ours);
      var theirsTree := StateOfHead(theirs);
      var baseTree := StateOfHead(baseCommit);
      if oursTree.None? || theirsTree.None? || baseTree.None? { return Err(BadTree); }

      var draft := Repository.Merge(project, target, source, ours, theirs, Merged, None, map[]);
      res := RecordMerge(editor, draft, baseTree.value, oursTree.value, theirsTree.value);
    }

    /** Classifies the two trees, writes the merge row and, when nothing conflicts, commits the result. */
    method RecordMerge(editor: bool, draft: Repository.Merge, base: Tree, ours: Tree, theirs: Tree)
      returns (res: Result<MergeId, Error>)
      modifies this
      ensures match OpenMerge(old(State()), editor, draft, base, ours, theirs)
              case Ok((s, m)) => State() == s && res == Ok(m)
              case Err(e) => State() == old(State()) && res == Err(e)
    {
      hide MakeCommit, MergeRules.Joined, MergeRules.ConflictRows, MergeRequest;
      var merged, conflicts := MergeRules.Classify(base, ours, theirs);
      var m := next;
      var row := draft.(conflicts := conflicts);
      next := m + 1;
      if conflicts != map[] {
        merges := merges[m := row.(status := Conflicts)];
        return Ok(m);
      }
      var before := merges;
      merges := merges[m := row.(status := Merged)];
      var made := CommitMerged(editor, row, merged);
      if made.Err? {
        merges, next := before, m;
        return Err(made.error);
      }
      merges := merges[m := row.(status := Merged, result := Some(made.value))];
      return Ok(m);
    }

    /** Commits a merged tree on the target branch, with the recorded heads as parents. */
    method CommitMerged(editor: bool, row: Repository.Merge, tree: Tree) returns (res: Result<CommitId, Error>)
      modifies this
      ensures match MakeCommit(old(State()), editor, MergeRequest(row, tree))
              case Ok((s, c)) => State() == s && res == Ok(c)
              case Err(e) => State() == old(State()) && res == Err(e)
    {
      hide MakeCommit, Payloads;
      var parents: seq<CommitId> := [];
      if row.ours.Some? { parents := parents + [row.ours.value]; }
      if row.theirs.Some? { parents := parents + [row.theirs.value]; }
      var raws := BuildPayloads(tree);
      assert parents == HeadParents(row.ours) + HeadParents(row.theirs);
      res := CommitOn(editor, CommitRequest(row.project, row.target, map[], raws, None, Some(parents)));
    }

    /** Completes a merge whose conflicts are all resolved. */
    method TryFinalizeMerge(editor: bool, m: MergeId) returns (res: Result<(), Error>)
      requires m in merges && RowsMatchHeads(State(), merges[m])
      modifies this
      ensures match TryFinalize(old(State()), editor, m)
              case Ok(s) => State() == s && res == Ok(())
              case Err(e) => State() == old(State()) && res == Err(e)
    {
      hide MakeCommit, StateOf, HeadState, MergeRules.FinalTree;
      var row := merges[m];
      if row.status.Merged? { return Ok(()); }
      if row.conflicts == map[] || exists p | p in row.conflicts :: row.conflicts[p].resolution.None? { return Ok(()); }
      var oursTree := StateOfHead(row.ours);
      var theirsTree := StateOfHead(row.theirs);
      var tree := MergeRules.Rebuild(oursTree.value, theirsTree.value, row.conflicts);
      if tree.Err? { return Err(BadResolution(tree.error)); }
      var made := CommitMerged(editor, row, tree.value);
      if made.Err? { return Err(made.error); }
      merges := merges[m := row.(status := Merged, result := Some(made.value))];
      return Ok(());
    }

    /** Records a resolution, and completes the merge when it was the last one. */
    method ResolveConflict(editor: bool, project: ProjectId, m: MergeId, path: Path, resolution: Resolution)
      returns (res: Result<(), Error>)
      requires Valid()
      modifies this
      ensures Valid()
      ensures match Repository.ResolveConflict(old(State()), editor, project, m, path, resolution)
              case Ok(s) => State() == s && res == Ok(())
              case Err(e) => State() == old(State()) && res == Err(e)
    {
      hide TryFinalize, StateOf, HeadState, Repository.Valid, RowsMatchHeads;
      ghost var r := State();
      if Repository.ResolveConflict(r, editor, project, m, path, resolution).Ok? {
        ResolveKeeps(r, editor, project, m, path, resolution);
      }
      if !editor { return Err(Forbidden); }
      if project !in projects { return Err(ProjectNotFound); }
      if m !in merges || merges[m].project != project || path !in merges[m].conflicts { return Err(ConflictNotFound); }
      var before := merges;
      var row := merges[m];
      ResolvedRowMatches(r, m, path, resolution);
      var resolved := row.conflicts[path].(resolution := Some(resolution));
      merges := merges[m := row.(conflicts := row.conflicts[path := resolved])];
      assert State() == Resolved(r, m, path, resolution);
      res := TryFinalizeMerge(editor, m);
      if res.Err? {
        merges := before;
      }
    }

    lemma ResolvedRowMatches(r: Repo, m: MergeId, path: Path, resolution: Resolution)
      requires Repository.Valid(r) && m in r.merges && path in r.merges[m].conflicts
      ensures var s := Resolved(r, m, path, resolution); RowsMatchHeads(s, s.merges[m])
    {
      hide StateOf;
      assert MergeValid(r, m);
      ResolvedRow(r, m, path, resolution);
    }

    /**
     Records a scene snapshot of a commit; a second call for the same commit
     changes nothing. When the snapshot's event is refused, the rollback undoes
     the snapshot while the call returns it all the same.
     */
    method CreateSceneSnapshot(editor: bool, project: ProjectId, c: CommitId, format: string)
      returns (res: Result<nat, Error>)
      requires Valid()
      modifies this
      ensures Valid()
      ensures match SceneSnapshot(old(State()), editor, project, c, format)
              case Ok(s) => State() == s && res == Ok(if c in s.scenes then s.scenes[c] else old(next))
              case Err(e) => State() == old(State()) && res == Err(e)
    {
      hide StateOf, Repository.Valid, SnapshotFormat;
      ghost var r := State();
      if SceneSnapshot(r, editor, project, c, format).Ok? {
        SceneKeeps(r, editor, project, c, format);
      }
      if !editor { return Err(Forbidden); }
      if project !in projects { return Err(ProjectNotFound); }
      if c !in commits || commits[c].project != project { return Err(CommitNotFound); }
      if c in scenes { return Ok(scenes[c]); }
      var scenesBefore, commitsBefore := scenes, commits;
      res := Ok(next);
      scenes := scenes[c := next];
      var tree := commits[c].tree;
      commits := commits[c := commits[c].(tree := tree[SCENE_KEY := SceneRef(next, SnapshotFormat(format))])];
      if c in announced {
        scenes, commits := scenesBefore, commitsBefore;
      } else {
        announced := announced + {c};
        next := next + 1;
      }
    }

    /** A client publishes the event of a commit's scene snapshot itself. */
    method Announce(c: CommitId)
      requires Valid()
      modifies this`announced
      ensures Valid() && State() == Repository.Announce(old(State()), c)
    {
      ghost var r := State();
      AnnounceKeeps(r, c);
      if c in commits {
        announced := announced + {c};
      }
    }

    /** The object service adds objects and versions. */
    method Register(objects: set<Uuid>, versions: set<Uuid>)
      requires Valid()
      modifies this`known
      ensures Valid() && State() == Repository.Register(old(State()), objects, versions)
    {
      ghost var r := State();
      RegisterKeeps(r, objects, versions);
      known := Known(known.objects + objects, known.versions + versions);
    }
  }
}
