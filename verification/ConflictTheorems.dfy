/** What becomes of the user's choices: how a row records them and what tree they stand for. */
module ConflictTheorems {
  import opened Wrappers
  import opened Hnf
  import opened CommitGraph
  import opened CommitContents
  import opened Repository
  import MergeRules

  // ------------------------------------------------------------ recording them

  /** The rows of `m` in `n`: both sides and the base as they were, and only `path` with another choice. */
  ghost predicate OnlyChoiceDiffers(m: Merge, n: Merge, path: Path, choice: Resolution) {
    && n.conflicts.Keys == m.conflicts.Keys && path in m.conflicts
    && n.conflicts[path].resolution == Some(choice)
    && n.conflicts[path].base == m.conflicts[path].base
    && n.conflicts[path].ours == m.conflicts[path].ours && n.conflicts[path].theirs == m.conflicts[path].theirs
    && forall q | q in m.conflicts && q != path :: n.conflicts[q] == m.conflicts[q]
  }

  /**
   A resolve call that succeeds comes from an editor of the merge's project and
   records the caller's choice in the row of the path; every other row, and
   every other merge, stays as it was.
   */
  lemma ResolveRecordsChoice(r: Repo, editor: bool, project: ProjectId, m: MergeId, path: Path, choice: Resolution)
    requires ResolveConflict(r, editor, project, m, path, choice).Ok?
    ensures var s := ResolveConflict(r, editor, project, m, path, choice).value;
            && editor && project in r.projects
            && s.merges.Keys == r.merges.Keys && m in r.merges && r.merges[m].project == project
            && OnlyChoiceDiffers(r.merges[m], s.merges[m], path, choice)
            && forall n | n in r.merges && n != m :: s.merges[n] == r.merges[n]
  {
    hide MakeCommit, HeadState, MergeRules.FinalTree;
    var r1 := Resolved(r, m, path, choice);
    var row := r1.merges[m];
    if !row.status.Merged? && row.conflicts != map[] && AllResolved(row) {
      var o, t := HeadState(r1, row.ours).value, HeadState(r1, row.theirs).value;
      CommitKeepsMerges(r1, editor, MergeRequest(row, MergeRules.FinalTree(o, t, row.conflicts).value));
    }
  }

  lemma CommitKeepsMerges(r: Repo, editor: bool, req: CommitRequest)
    requires MakeCommit(r, editor, req).Ok?
    ensures MakeCommit(r, editor, req).value.0.merges == r.merges
  {
    hide BuildCommit;
  }

  /** A call other than resolving leaves the merges that are there alone. */
  lemma OthersKeepMerges(r: Repo, call: Call)
    requires Valid(r) && Acyclic(GraphOf(r)) && !call.CallResolve?
    ensures forall m | m in r.merges :: m in Step(r, call).merges && Step(r, call).merges[m] == r.merges[m]
  {
    hide Valid, MakeCommit, MergeBranches, ResolveConflict, NameFree, SnapshotFormat;
    NextIsNoMerge(r);
    match call {
      case CallCommit(editor, req) =>
        if MakeCommit(r, editor, req).Ok? { CommitKeepsMerges(r, editor, req); }
      case CallMerge(editor, project, target, source) =>
        if MergeBranches(r, editor, project, target, source).Ok? {
          MergeKeepsMerges(r, editor, project, target, source);
        }
      case _ =>
    }
  }

  lemma NextIsNoMerge(r: Repo)
    requires Valid(r)
    ensures r.next !in r.merges
  {
    assert r.next in r.merges ==> MergeValid(r, r.next);
  }

  lemma MergeKeepsMerges(r: Repo, editor: bool, project: ProjectId, target: BranchId, source: BranchId)
    requires Acyclic(GraphOf(r)) && r.next !in r.merges && MergeBranches(r, editor, project, target, source).Ok?
    ensures var s := MergeBranches(r, editor, project, target, source).value.0;
            forall m | m in r.merges :: m in s.merges && s.merges[m] == r.merges[m]
  {
    hide OpenMerge, HeadState, FindLca;
    var ours, theirs := r.branches[target].head, r.branches[source].head;
    var base := if ours.Some? && theirs.Some? then FindLca(GraphOf(r), ours.value, theirs.value) else None;
    OpenMergeKeepsMerges(r, editor, Merge(project, target, source, ours, theirs, Merged, None, map[]),
                         HeadState(r, base).value, HeadState(r, ours).value, HeadState(r, theirs).value);
  }

  lemma OpenMergeKeepsMerges(r: Repo, editor: bool, draft: Merge, base: Tree, ours: Tree, theirs: Tree)
    requires r.next !in r.merges && OpenMerge(r, editor, draft, base, ours, theirs).Ok?
    ensures var s := OpenMerge(r, editor, draft, base, ours, theirs).value.0;
            forall m | m in r.merges :: m in s.merges && s.merges[m] == r.merges[m]
  {
    hide MakeCommit, MergeRules.ConflictRows, MergeRules.Joined;
    var row := draft.(conflicts := MergeRules.ConflictRows(base, ours, theirs));
    if row.conflicts == map[] {
      var pending := r.(merges := r.merges[r.next := row.(status := Merged)], next := r.next + 1);
      CommitKeepsMerges(pending, editor, MergeRequest(row, MergeRules.Joined(ours, theirs)));
    }
  }

  /** The choice of the last call of a run that resolved the path of the merge and succeeded, else `before`. */
  ghost function LastChoice(r: Repo, calls: seq<Call>, m: MergeId, path: Path, before: Option<Resolution>)
    : Option<Resolution>
    requires Valid(r)
    decreases |calls|
  {
    if calls == [] then before
    else
      var call := calls[0];
      var chosen :=
        if call.CallResolve? && call.merge == m && call.path == path
           && ResolveConflict(r, call.editor, call.project, m, path, call.resolution).Ok?
        then Some(call.resolution)
        else before;
      ValidGraph(r);
      StepKeeps(r, call);
      LastChoice(Step(r, call), calls[1..], m, path, chosen)
  }

  /** One row after one call. */
  lemma RowAfterStep(r: Repo, call: Call, m: MergeId, path: Path)
    requires Valid(r) && Acyclic(GraphOf(r)) && m in r.merges && path in r.merges[m].conflicts
    ensures var s := Step(r, call);
            && m in s.merges && path in s.merges[m].conflicts
            && s.merges[m].conflicts[path] ==
               if call.CallResolve? && call.merge == m && call.path == path
                  && ResolveConflict(r, call.editor, call.project, m, path, call.resolution).Ok?
               then r.merges[m].conflicts[path].(resolution := Some(call.resolution))
               else r.merges[m].conflicts[path]
  {
    if call.CallResolve? {
      hide ResolveConflict, Valid;
      if ResolveConflict(r, call.editor, call.project, call.merge, call.path, call.resolution).Ok? {
        ResolveRecordsChoice(r, call.editor, call.project, call.merge, call.path, call.resolution);
      }
    } else {
      hide Step;
      OthersKeepMerges(r, call);
    }
  }

  /** Over any run a conflict row keeps its base and both sides, and carries the last choice made for its path. */
  lemma {:induction false} RowAfterRun(r: Repo, calls: seq<Call>, m: MergeId, path: Path)
    requires Valid(r) && m in r.merges && path in r.merges[m].conflicts
    ensures var s := Run(r, calls);
            var row := r.merges[m].conflicts[path];
            && m in s.merges && path in s.merges[m].conflicts
            && s.merges[m].conflicts[path] == row.(resolution := LastChoice(r, calls, m, path, row.resolution))
    decreases |calls|
  {
    hide Valid, Step, ResolveConflict;
    if calls != [] {
      ValidGraph(r);
      StepKeeps(r, calls[0]);
      RowAfterStep(r, calls[0], m, path);
      RowAfterRun(Step(r, calls[0]), calls[1..], m, path);
    }
  }

  // ------------------------------------------------------- what they stand for

  /**
   The tree has the paths of both states. Where the states differ on a shared
   path it holds what the choice names: our value, their value, or the value
   given; elsewhere it holds our value if there is one, else theirs.
   */
  ghost predicate Resolves(tree: Tree, ours: Tree, theirs: Tree, choices: map<Path, Resolution>) {
    && tree.Keys == ours.Keys + theirs.Keys
    && forall p | p in tree ::
         if p in ours && p in theirs && ours[p] != theirs[p] then
           p in choices
           && match choices[p]
              case TakeOurs => tree[p] == ours[p]
              case TakeTheirs => tree[p] == theirs[p]
              case UseValue(v) => tree[p] == v
              case _ => false
         else
           tree[p] == if p in ours then ours[p] else theirs[p]
  }

  /** The choices that the rows of a merge carry. */
  function RecordedChoices(m: Merge): map<Path, Resolution> {
    map q | q in m.conflicts && m.conflicts[q].resolution.Some? :: m.conflicts[q].resolution.value
  }

  /** The choices of a merge once `choice` is made for `path`. */
  function ChoicesWith(m: Merge, path: Path, choice: Resolution): map<Path, Resolution> {
    map q | q in m.conflicts && (q == path || m.conflicts[q].resolution.Some?) ::
      if q == path then choice else m.conflicts[q].resolution.value
  }

  /** The rebuilt tree is the one that the recorded choices stand for, and there is one if they stand for any. */
  lemma FinalTreeResolves(ours: Tree, theirs: Tree, rows: map<Path, Conflict>, choices: map<Path, Resolution>)
    requires rows.Keys == MergeRules.ConflictPaths(ours, theirs)
    requires forall p | p in rows :: rows[p].ours == ours[p] && rows[p].theirs == theirs[p]
    requires forall p | p in rows && rows[p].resolution.Some? :: p in choices && rows[p].resolution == Some(choices[p])
    requires forall p | p in choices :: p in rows && rows[p].resolution == Some(choices[p])
    ensures var final := MergeRules.FinalTree(ours, theirs, rows);
            && (final.Ok? ==> Resolves(final.value, ours, theirs, choices))
            && forall tree | Resolves(tree, ours, theirs, choices) :: final == Ok(tree)
  {
    var final := MergeRules.FinalTree(ours, theirs, rows);
    forall p | p in rows
      ensures p in ours && p in theirs && ours[p] != theirs[p]
    {
      assert p in MergeRules.ConflictPaths(ours, theirs);
    }
    forall p | p in ours && p in theirs && ours[p] != theirs[p]
      ensures p in rows
    {
      assert p in MergeRules.ConflictPaths(ours, theirs);
    }
    forall tree | Resolves(tree, ours, theirs, choices)
      ensures final == Ok(tree)
    {
      forall p | p in rows
        ensures MergeRules.Choice(rows[p]) != MergeRules.NoChoice
                && MergeRules.Choice(rows[p]) != MergeRules.UseNonObject
      {
        assert p in tree;
      }
      assert final.Ok?;
      assert final.value == tree;
    }
  }
}
