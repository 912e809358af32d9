/** What merges guarantee across whole runs of calls. */
module MergeTheorems {
  import opened Wrappers
  import opened Hnf
  import opened CommitGraph
  import opened CommitContents
  import opened Repository
  import opened ConflictTheorems
  import MergeRules

  // --------------------------------------------------- committing a merged tree

  /** The commit of a merged tree reads back as what of the tree could be stored. */
  lemma MergeCommitReadsBack(r: Repo, editor: bool, m: Merge, tree: Tree)
    requires MakeCommit(r, editor, MergeRequest(m, tree)).Ok?
    ensures var (s, c) := MakeCommit(r, editor, MergeRequest(m, tree)).value;
            c in s.commits && StateOf(s.commits[c]) == Some(Stored(tree))
  {
    hide StateMap, Stored, ParseSnapshots, DistinctPaths, DistinctIds, RowsOf, CommitTree, RootOf, Payloads;
    StoredReadsBack(tree);
    NothingParsed();
  }

  lemma NothingParsed()
    ensures ParseSnapshots([]) == [] && TreeSnapshots(map[]) == Some([])
    ensures !SomeRaises([]) && forall known :: AllRefer(known, [])
  {
  }

  /** The two recorded heads are the same commit. */
  predicate SameHeads(m: Merge) {
    m.ours.Some? && m.ours == m.theirs
  }

  /** Why a merged tree is refused, the two heads being the same commit if nothing else. */
  ghost function Refusal(known: Known, tree: Tree): Error {
    if Raising(tree) then UnreadableVersionNum else if Dangling(known, tree) then ConstraintBroken else DuplicateParent
  }

  /**
   A merged tree is refused only when a version number raises, a value names an
   unknown object or version, or its two heads are the same commit.
   */
  lemma MergeCommitSucceeds(r: Repo, m: Merge, tree: Tree)
    requires m.project in r.projects && BranchIn(r, m.project, m.target)
    requires HeadIn(r, m.project, m.ours) && HeadIn(r, m.project, m.theirs)
    ensures var made := MakeCommit(r, true, MergeRequest(m, tree));
            && (made.Ok? <==> !SameHeads(m) && !Uncommittable(r.known, tree))
            && (made.Err? ==> made.error == Refusal(r.known, tree))
  {
    hide Stored, StateMap, ParseSnapshots, DistinctPaths, RowsOf, CommitTree, RootOf, Payloads, SomeRaises,
         AllRefer, Raising, Dangling;
    StoredReadsBack(tree);
    PayloadsRaiseIff(tree);
    PayloadsDangleIff(r.known, tree);
    NothingParsed();
    assert DistinctPaths([]) by { EmptyIsDistinct(); }
    var ps := HeadParents(m.ours) + HeadParents(m.theirs);
    if m.ours.Some? && m.theirs.Some? {
      assert ps[0] == m.ours.value && ps[1] == m.theirs.value;
    }
  }

  lemma EmptyIsDistinct()
    ensures DistinctPaths([])
  {
  }

  /**
   Merge `id` is complete: `m` with a result commit whose parents are the two
   recorded heads, which stands for what of `tree` could be stored, and which
   its target branch now points at.
   */
  ghost predicate Completed(s: Repo, id: MergeId, m: Merge, c: CommitId, tree: Tree) {
    && id in s.merges && s.merges[id] == m.(status := Merged, result := Some(c))
    && c in s.commits && StateOf(s.commits[c]) == Some(Stored(tree))
    && s.commits[c].parents == HeadParents(m.ours) + HeadParents(m.theirs)
    && m.target in s.branches && s.branches[m.target].head == Some(c)
  }

  lemma FinishedIsCompleted(r: Repo, editor: bool, id: MergeId, m: Merge, tree: Tree)
    requires CoreValid(r) && MakeCommit(r, editor, MergeRequest(m, tree)).Ok?
    ensures Completed(Finished(r, editor, id, m, tree), id, m, r.next, tree)
    ensures Finished(r, editor, id, m, tree).branches ==
            r.branches[m.target := r.branches[m.target].(head := Some(r.next))]
  {
    hide MakeCommit, Stored, StateMap, CommitValid, BranchValid, CoreExtends;
    MakeCommitKeepsCore(r, editor, MergeRequest(m, tree));
    MergeCommitReadsBack(r, editor, m, tree);
  }

  // ------------------------------------------------------------- finalisation

  /** A merge still in conflict and its rows, seen from the tables in which it was opened. */
  lemma OpenMergeSeenLater(r: Repo, calls: seq<Call>, m: MergeId)
    requires Valid(r) && m in r.merges
    ensures var s := Run(r, calls);
            var row := r.merges[m];
            && Valid(s) && m in s.merges && MergeKept(row, s.merges[m])
            && HeadState(s, row.ours) == HeadState(r, row.ours)
            && HeadState(s, row.theirs) == HeadState(r, row.theirs)
            && HeadState(r, row.ours).Some? && HeadState(r, row.theirs).Some?
            && s.merges[m].conflicts.Keys ==
               MergeRules.ConflictPaths(HeadState(r, row.ours).value, HeadState(r, row.theirs).value)
  {
    hide Run, HeadState, CoreExtends, CommitValid, BranchValid, StatusValid;
    RunKeeps(r, calls);
    var s := Run(r, calls);
    var row := r.merges[m];
    assert MergeValid(r, m) && MergeValid(s, m);
    HeadStateKept(r, s, row.project, row.ours);
    HeadStateKept(r, s, row.project, row.theirs);
  }

  /**
   Whatever happens between opening a merge and resolving its last conflict, the
   result is built from the two states the heads had when the merge was opened:
   on each path that differed it holds what the last choice made for that path
   names, elsewhere our value if there is one, else theirs. The result reads
   back as that tree exactly when every value in it has the keys of a
   first-version row and a plain version number.
   */
  lemma FinalisedAsOpened(r: Repo, calls: seq<Call>, editor: bool, project: ProjectId, m: MergeId, path: Path,
                          choice: Resolution) returns (tree: Tree)
    requires Valid(r) && m in r.merges
    requires m in Run(r, calls).merges && Run(r, calls).merges[m].status.Conflicts?
    requires ResolveConflict(Run(r, calls), editor, project, m, path, choice).Ok?
    requires var t := ResolveConflict(Run(r, calls), editor, project, m, path, choice).value;
             m in t.merges && t.merges[m].result.Some?
    ensures var t := ResolveConflict(Run(r, calls), editor, project, m, path, choice).value;
            var row := t.merges[m];
            var ours, theirs := HeadState(r, r.merges[m].ours), HeadState(r, r.merges[m].theirs);
            && ours.Some? && theirs.Some?
            && MergeKept(r.merges[m], row)
            && (forall q :: q in row.conflicts <==>
                  q in ours.value && q in theirs.value && ours.value[q] != theirs.value[q])
            && (forall q | q in row.conflicts ::
                  row.conflicts[q].resolution ==
                  if q == path then Some(choice) else LastChoice(r, calls, m, q, r.merges[m].conflicts[q].resolution))
            && Resolves(tree, ours.value, theirs.value, RecordedChoices(row))
            && Completed(t, m, row, row.result.value, tree)
            && (ReadsBack(t, row.result.value, tree) <==>
                  forall p | p in tree :: FromRow(tree[p]) && Plain(tree[p].versionNum))
  {
    hide Run, ResolveConflict, HeadState, Completed, FromRow, Plain, ReadsBack, Resolves, LastChoice;
    var s := Run(r, calls);
    var t := ResolveConflict(s, editor, project, m, path, choice).value;
    OpenMergeSeenLater(r, calls, m);
    tree := FinishedTree(s, editor, project, m, path, choice);
    ResolveRecordsChoice(s, editor, project, m, path, choice);
    forall q | q in t.merges[m].conflicts
      ensures t.merges[m].conflicts[q].resolution ==
              if q == path then Some(choice) else LastChoice(r, calls, m, q, r.merges[m].conflicts[q].resolution)
    {
      RowAfterRun(r, calls, m, q);
    }
    CompletedReadsBackIff(t, m, t.merges[m], tree);
  }

  /** The commit stands for exactly the tree. */
  ghost predicate ReadsBack(s: Repo, c: CommitId, tree: Tree) {
    c in s.commits && StateOf(s.commits[c]) == Some(tree)
  }

  lemma CompletedReadsBackIff(s: Repo, id: MergeId, m: Merge, tree: Tree)
    requires m.result.Some? && Completed(s, id, m, m.result.value, tree)
    ensures ReadsBack(s, m.result.value, tree) <==>
              forall p | p in tree :: FromRow(tree[p]) && Plain(tree[p].versionNum)
  {
    hide FromRow, Plain, StateMap, Stored;
    StoredIsTreeIff(tree);
  }

  /** Recording a choice leaves the rows matched with the two recorded states. */
  lemma ResolvedRowsMatch(s: Repo, m: MergeId, path: Path, choice: Resolution)
    requires MergeValid(s, m) && path in s.merges[m].conflicts
    ensures var row := Resolved(s, m, path, choice).merges[m];
            && row == s.merges[m].(conflicts := row.conflicts)
            && RowsMatch(row.conflicts, HeadState(s, row.ours), HeadState(s, row.theirs))
  {
    hide HeadState, StatusValid, MergeRules.ConflictPaths;
  }

  ghost predicate RowsMatch(rows: map<Path, Conflict>, ours: Option<Tree>, theirs: Option<Tree>) {
    && ours.Some? && theirs.Some?
    && rows.Keys == MergeRules.ConflictPaths(ours.value, theirs.value)
    && forall p | p in rows :: rows[p].ours == ours.value[p] && rows[p].theirs == theirs.value[p]
  }

  lemma FinishedRows(s: Repo, editor: bool, project: ProjectId, m: MergeId, path: Path, choice: Resolution)
    returns (tree: Tree)
    requires Valid(s) && m in s.merges && s.merges[m].status.Conflicts?
    requires ResolveConflict(s, editor, project, m, path, choice).Ok?
    requires var t := ResolveConflict(s, editor, project, m, path, choice).value;
             m in t.merges && t.merges[m].result.Some?
    ensures var t := ResolveConflict(s, editor, project, m, path, choice).value;
            var row := t.merges[m];
            var ours, theirs := HeadState(s, s.merges[m].ours), HeadState(s, s.merges[m].theirs);
            && RowsMatch(row.conflicts, ours, theirs)
            && MergeKept(s.merges[m], row)
            && MergeRules.FinalTree(ours.value, theirs.value, row.conflicts) == Ok(tree)
            && Completed(t, m, row, row.result.value, tree)
  {
    hide MakeCommit, Stored, StateMap, CommitValid, BranchValid, RowsMatchHeads, HeadIn, HeadState,
         MergeRules.FinalTree, Completed, RowsMatch;
    var s1 := Resolved(s, m, path, choice);
    var row := s1.merges[m];
    assert MergeValid(s, m);
    ResolvedRowsMatch(s, m, path, choice);
    SameCore(s, s1);
    SameHeadState(s, s1, row.ours);
    SameHeadState(s, s1, row.theirs);
    tree := MergeRules.FinalTree(HeadState(s, row.ours).value, HeadState(s, row.theirs).value, row.conflicts).value;
    FinishedIsCompleted(s1, editor, m, row, tree);
    var t := ResolveConflict(s, editor, project, m, path, choice).value;
    assert t == Finished(s1, editor, m, row, tree);
    CompletedRow(t, m, row, s1.next, tree);
  }

  /** Completing a merge commits the tree that its rows' choices stand for. */
  lemma FinishedTree(s: Repo, editor: bool, project: ProjectId, m: MergeId, path: Path, choice: Resolution)
    returns (tree: Tree)
    requires Valid(s) && m in s.merges && s.merges[m].status.Conflicts?
    requires ResolveConflict(s, editor, project, m, path, choice).Ok?
    requires var t := ResolveConflict(s, editor, project, m, path, choice).value;
             m in t.merges && t.merges[m].result.Some?
    ensures var t := ResolveConflict(s, editor, project, m, path, choice).value;
            var row := t.merges[m];
            var ours, theirs := HeadState(s, s.merges[m].ours), HeadState(s, s.merges[m].theirs);
            && ours.Some? && theirs.Some?
            && MergeKept(s.merges[m], row)
            && Resolves(tree, ours.value, theirs.value, RecordedChoices(row))
            && Completed(t, m, row, row.result.value, tree)
  {
    hide ResolveConflict, Valid, HeadState, MergeRules.ConflictPaths, MergeRules.FinalTree, Completed, Resolves;
    tree := FinishedRows(s, editor, project, m, path, choice);
    var rows := ResolveConflict(s, editor, project, m, path, choice).value.merges[m];
    FinalTreeResolves(HeadState(s, s.merges[m].ours).value, HeadState(s, s.merges[m].theirs).value, rows.conflicts,
                      RecordedChoices(rows));
  }

  lemma ResultIsNew(s: Repo, editor: bool, project: ProjectId, m: MergeId, path: Path, choice: Resolution)
    requires Valid(s) && m in s.merges && s.merges[m].status.Conflicts?
    requires ResolveConflict(s, editor, project, m, path, choice).Ok?
    requires var t := ResolveConflict(s, editor, project, m, path, choice).value;
             m in t.merges && t.merges[m].result.Some?
    ensures ResolveConflict(s, editor, project, m, path, choice).value.merges[m].result.value !in s.commits
  {
    hide MakeCommit, StateMap, HeadState, BranchValid, RowsMatchHeads, MergeRules.FinalTree;
    var s1 := Resolved(s, m, path, choice);
    var row := s1.merges[m];
    assert MergeValid(s, m);
    SameCore(s, s1);
    var tree := MergeRules.FinalTree(HeadState(s1, row.ours).value, HeadState(s1, row.theirs).value,
      row.conflicts).value;
    MakeCommitKeepsCore(s1, editor, MergeRequest(row, tree));
    assert s.next in s.commits ==> CommitValid(s, s.next);
  }

  lemma SameHeadState(r: Repo, s: Repo, head: Option<CommitId>)
    requires s.commits == r.commits
    ensures HeadState(s, head) == HeadState(r, head)
  {
  }

  lemma CompletedRow(s: Repo, id: MergeId, m: Merge, c: CommitId, tree: Tree)
    requires Completed(s, id, m, c, tree)
    ensures id in s.merges && s.merges[id] == m.(status := Merged, result := Some(c))
    ensures Completed(s, id, s.merges[id], c, tree)
  {
  }

  /**
   Resolving the last open conflict completes the merge exactly when the choices
   stand for a tree, none of whose version numbers raises and none of whose
   values names an unknown object or version; otherwise the call fails, so the
   last conflict stays open.
   */
  lemma LastResolveSucceedsIff(s: Repo, m: MergeId, path: Path, choice: Resolution)
    requires Valid(s) && m in s.merges && path in s.merges[m].conflicts && s.merges[m].status.Conflicts?
    requires forall q | q in s.merges[m].conflicts && q != path :: s.merges[m].conflicts[q].resolution.Some?
    ensures var res := ResolveConflict(s, true, s.merges[m].project, m, path, choice);
            var ours, theirs := HeadState(s, s.merges[m].ours), HeadState(s, s.merges[m].theirs);
            && ours.Some? && theirs.Some?
            && (res.Ok? <==>
                  exists tree :: Resolves(tree, ours.value, theirs.value, ChoicesWith(s.merges[m], path, choice))
                                 && !Uncommittable(s.known, tree))
            && (res.Ok? ==> m in res.value.merges && res.value.merges[m].result.Some?)
            && (res.Err? ==> res.error.BadResolution? || res.error.UnreadableVersionNum? || res.error.ConstraintBroken?)
  {
    hide TryFinalize, HeadState, StateMap, CommitValid, BranchValid, StatusValid, RowsMatchHeads, MergeRules.FinalTree,
         MergeRules.ConflictPaths, Resolves, Uncommittable, HeadIn, BranchIn, CoreExtends;
    var s1 := Resolved(s, m, path, choice);
    var row := s1.merges[m];
    assert MergeValid(s, m);
    ResolvedRow(s, m, path, choice);
    ResolvedRowsMatch(s, m, path, choice);
    SameCore(s, s1);
    MergeLinkedKept(s, s1, row);
    ConflictingHeadsDiffer(s, s.merges[m], path);
    SameHeadState(s, s1, row.ours);
    SameHeadState(s, s1, row.theirs);
    hide Valid, MergeValid, MergeLinked, CoreValid;
    ChoiceIsTree(HeadState(s, row.ours).value, HeadState(s, row.theirs).value, s.merges[m], path, choice);
    FinalizeOutcome(s1, m);
  }

  /** With all other rows resolved, the rebuilt tree exists exactly when the choices stand for one, and is that one. */
  lemma ChoiceIsTree(ours: Tree, theirs: Tree, m: Merge, path: Path, choice: Resolution)
    requires path in m.conflicts && forall q | q in m.conflicts && q != path :: m.conflicts[q].resolution.Some?
    requires RowsMatch(m.conflicts[path := m.conflicts[path].(resolution := Some(choice))], Some(ours), Some(theirs))
    ensures var rows := m.conflicts[path := m.conflicts[path].(resolution := Some(choice))];
            var final := MergeRules.FinalTree(ours, theirs, rows);
            && (final.Ok? ==> Resolves(final.value, ours, theirs, ChoicesWith(m, path, choice)))
            && forall tree | Resolves(tree, ours, theirs, ChoicesWith(m, path, choice)) :: final == Ok(tree)
  {
    hide MergeRules.FinalTree, MergeRules.ConflictPaths, Resolves;
    FinalTreeResolves(ours, theirs, m.conflicts[path := m.conflicts[path].(resolution := Some(choice))],
                      ChoicesWith(m, path, choice));
  }

  lemma FinalizeOutcome(s: Repo, m: MergeId)
    requires CoreValid(s) && m in s.merges && MergeLinked(s, s.merges[m])
    requires var row := s.merges[m];
             row.status.Conflicts? && AllResolved(row) && row.conflicts != map[] && !SameHeads(row)
    ensures var res := TryFinalize(s, true, m);
            var row := s.merges[m];
            var tree := MergeRules.FinalTree(HeadState(s, row.ours).value, HeadState(s, row.theirs).value,
                                             row.conflicts);
            && (res.Ok? <==> tree.Ok? && !Uncommittable(s.known, tree.value))
            && (res.Ok? ==> m in res.value.merges && res.value.merges[m].result.Some?)
            && (res.Err? ==> res.error.BadResolution? || res.error.UnreadableVersionNum? || res.error.ConstraintBroken?)
  {
    hide MakeCommit, HeadState, StateMap, CommitValid, BranchValid, MergeRules.FinalTree, Raising, Dangling;
    var row := s.merges[m];
    var tree := MergeRules.FinalTree(HeadState(s, row.ours).value, HeadState(s, row.theirs).value, row.conflicts);
    if tree.Ok? {
      MergeCommitSucceeds(s, row, tree.value);
    }
  }

  lemma ConflictingHeadsDiffer(s: Repo, m: Merge, path: Path)
    requires RowsMatchHeads(s, m) && path in m.conflicts
    ensures !SameHeads(m)
  {
  }

  // ------------------------------------------------------------ opening a merge

  /** A merge of two readable branches. */
  ghost predicate Mergeable(r: Repo, project: ProjectId, target: BranchId, source: BranchId)
    requires Acyclic(GraphOf(r))
  {
    && project in r.projects && BranchIn(r, project, target) && BranchIn(r, project, source)
    && HeadState(r, r.branches[target].head).Some? && HeadState(r, r.branches[source].head).Some?
    && HeadState(r, BaseOf(r, target, source)).Some?
  }

  /** The nearest common ancestor of two branch heads. */
  ghost function BaseOf(r: Repo, target: BranchId, source: BranchId): Option<CommitId>
    requires Acyclic(GraphOf(r)) && target in r.branches && source in r.branches
  {
    var ours, theirs := r.branches[target].head, r.branches[source].head;
    if ours.Some? && theirs.Some? then FindLca(GraphOf(r), ours.value, theirs.value) else None
  }

  /** What a conflict row of a merge of two heads holds for a path before anyone has chosen. */
  ghost predicate FreshRow(r: Repo, c: Conflict, p: Path, ours: Option<CommitId>, theirs: Option<CommitId>)
    requires Acyclic(GraphOf(r))
  {
    && c.resolution == None
    && HoldsAt(r, ours, p, Some(c.ours)) && HoldsAt(r, theirs, p, Some(c.theirs))
    && if ours.Some? && theirs.Some? then HoldsAt(r, FindLca(GraphOf(r), ours.value, theirs.value), p, c.base)
       else c.base == None
  }

  /** The state of the commit, if there is one, holds the value at the path; `None` when it holds none. */
  ghost predicate HoldsAt(r: Repo, head: Option<CommitId>, p: Path, value: Option<Fields>) {
    if head.Some? && head.value in r.commits && StateOf(r.commits[head.value]).Some?
       && p in StateOf(r.commits[head.value]).value
    then value == Some(StateOf(r.commits[head.value]).value[p])
    else value == None
  }

  ghost function TargetState(r: Repo, b: BranchId): Tree
    requires b in r.branches && HeadState(r, r.branches[b].head).Some?
  {
    HeadState(r, r.branches[b].head).value
  }

  /**
   Merging readable branches is clean exactly when their states agree on shared
   paths. A clean merge fails exactly when both heads are the same commit or a
   version number of the join raises or a value of it names an unknown object;
   otherwise its result commit holds what of the join could be stored. A merge
   with conflicts commits nothing and lists exactly the paths that differ, each
   with both values, the value in the nearest common ancestor, and no choice yet.
   */
  lemma MergeOutcome(r: Repo, project: ProjectId, target: BranchId, source: BranchId)
    requires Valid(r) && Acyclic(GraphOf(r)) && Mergeable(r, project, target, source)
    ensures var res := MergeBranches(r, true, project, target, source);
            var ours, theirs := TargetState(r, target), TargetState(r, source);
            var head := r.branches[target].head;
            && (res.Err? <==>
                  || (head.Some? && head == r.branches[source].head)
                  || (MergeRules.ConflictPaths(ours, theirs) == {}
                      && Uncommittable(r.known, MergeRules.Joined(ours, theirs))))
            && (res.Err? ==> res.error == Refusal(r.known, MergeRules.Joined(ours, theirs)))
            && (res.Ok? ==>
                  var (s, m) := res.value;
                  && m == r.next && m in s.merges
                  && s.merges[m].project == project
                  && s.merges[m].target == target && s.merges[m].source == source
                  && s.merges[m].ours == head && s.merges[m].theirs == r.branches[source].head
                  && s.merges[m].conflicts.Keys == MergeRules.ConflictPaths(ours, theirs)
                  && (forall p :: p in s.merges[m].conflicts <==> p in ours && p in theirs && ours[p] != theirs[p])
                  && (forall p | p in s.merges[m].conflicts ::
                        FreshRow(r, s.merges[m].conflicts[p], p, head, r.branches[source].head))
                  && (s.merges[m].status.Merged? <==> MergeRules.ConflictPaths(ours, theirs) == {})
                  && (s.merges[m].status.Conflicts? ==> s.commits == r.commits && s.branches == r.branches)
                  && (s.merges[m].status.Merged? ==>
                        && Resolves(MergeRules.Joined(ours, theirs), ours, theirs, map[])
                        && Completed(s, m, s.merges[m], m + 1, MergeRules.Joined(ours, theirs))
                        && s.branches == r.branches[target := r.branches[target].(head := Some(m + 1))]))
  {
    hide OpenMerge, StateMap, CommitValid, FindLca, HeadState, Completed, MergeValid, FreshRow, Resolves;
    assert BranchValid(r, target) && BranchValid(r, source);
    var ours, theirs := TargetState(r, target), TargetState(r, source);
    var o, t := r.branches[target].head, r.branches[source].head;
    var b := HeadState(r, BaseOf(r, target, source)).value;
    var draft := Merge(project, target, source, o, t, Merged, None, map[]);
    assert MergeBranches(r, true, project, target, source) == OpenMerge(r, true, draft, b, ours, theirs);
    assert MergeRules.ConflictRows(b, ours, theirs).Keys == MergeRules.ConflictPaths(ours, theirs);
    if MergeRules.ConflictPaths(ours, theirs) == {} {
      CleanOutcome(r, draft, b, ours, theirs);
    } else {
      ConflictedOutcome(r, draft, b, ours, theirs);
    }
    RowsAreFresh(r, target, source);
    if MergeRules.ConflictPaths(ours, theirs) == {} {
      JoinResolves(ours, theirs);
    }
  }

  lemma JoinResolves(ours: Tree, theirs: Tree)
    requires MergeRules.ConflictPaths(ours, theirs) == {}
    ensures Resolves(MergeRules.Joined(ours, theirs), ours, theirs, map[])
  {
    forall p | p in ours && p in theirs
      ensures ours[p] == theirs[p]
    {
      assert p !in MergeRules.ConflictPaths(ours, theirs);
    }
  }

  lemma RowsAreFresh(r: Repo, target: BranchId, source: BranchId)
    requires Acyclic(GraphOf(r)) && target in r.branches && source in r.branches
    requires HeadState(r, r.branches[target].head).Some? && HeadState(r, r.branches[source].head).Some?
    requires HeadState(r, BaseOf(r, target, source)).Some?
    ensures var o, t := r.branches[target].head, r.branches[source].head;
            var ours, theirs := HeadState(r, o).value, HeadState(r, t).value;
            var rows := MergeRules.ConflictRows(HeadState(r, BaseOf(r, target, source)).value, ours, theirs);
            && (forall p :: p in rows <==> p in ours && p in theirs && ours[p] != theirs[p])
            && forall p | p in rows :: FreshRow(r, rows[p], p, o, t)
  {
    hide StateMap, FindLca;
  }

  lemma ConflictedOutcome(r: Repo, draft: Merge, base: Tree, ours: Tree, theirs: Tree)
    requires MergeRules.ConflictPaths(ours, theirs) != {}
    ensures var res := OpenMerge(r, true, draft, base, ours, theirs);
            && res.Ok?
            && var (s, m) := res.value;
               && m == r.next && s == r.(merges := s.merges, next := m + 1)
               && m in s.merges
               && s.merges[m] == draft.(status := Conflicts, conflicts := MergeRules.ConflictRows(base, ours, theirs))
  {
    hide MakeCommit;
    var p :| p in MergeRules.ConflictPaths(ours, theirs);
    assert p in MergeRules.ConflictRows(base, ours, theirs);
  }

  lemma CleanOutcome(r: Repo, draft: Merge, base: Tree, ours: Tree, theirs: Tree)
    requires Valid(r) && draft.conflicts == map[] && draft.status == Merged
    requires MergeRules.ConflictRows(base, ours, theirs) == map[]
    requires draft.project in r.projects && BranchIn(r, draft.project, draft.target)
    requires HeadIn(r, draft.project, draft.ours) && HeadIn(r, draft.project, draft.theirs)
    ensures var res := OpenMerge(r, true, draft, base, ours, theirs);
            && (res.Err? <==> SameHeads(draft) || Uncommittable(r.known, MergeRules.Joined(ours, theirs)))
            && (res.Err? ==> res.error == Refusal(r.known, MergeRules.Joined(ours, theirs)))
            && (res.Ok? ==>
                  var (s, m) := res.value;
                  && m == r.next && m in s.merges && s.merges[m] == draft.(status := Merged, result := Some(m + 1))
                  && Completed(s, m, s.merges[m], m + 1, MergeRules.Joined(ours, theirs))
                  && s.branches == r.branches[draft.target := r.branches[draft.target].(head := Some(m + 1))])
  {
    hide MakeCommit, StateMap, CommitValid, BranchValid, HeadState, MergeRules.ConflictRows, Completed;
    var tree := MergeRules.Joined(ours, theirs);
    var pending := r.(merges := r.merges[r.next := draft], next := r.next + 1);
    SameCore(r, pending);
    MergeCommitSucceeds(pending, draft, tree);
    if MakeCommit(pending, true, MergeRequest(draft, tree)).Ok? {
      FinishedIsCompleted(pending, true, r.next, draft, tree);
      CompletedRow(Finished(pending, true, r.next, draft, tree), r.next, draft, pending.next, tree);
    }
  }

  // ------------------------------------------------------ symmetry, merging back

  /** Exchanging target and source: the same result state, or the same conflicts with sides exchanged. */
  lemma SwappedMerge(r: Repo, project: ProjectId, a: BranchId, b: BranchId)
    requires Valid(r) && Acyclic(GraphOf(r)) && Mergeable(r, project, a, b) && Mergeable(r, project, b, a)
    ensures var x, y := MergeBranches(r, true, project, a, b), MergeBranches(r, true, project, b, a);
            && (x.Ok? <==> y.Ok?)
            && (x.Ok? ==>
                  var (s, m) := x.value;
                  var (t, n) := y.value;
                  && m in s.merges && n in t.merges
                  && s.merges[m].status == t.merges[n].status
                  && s.merges[m].conflicts.Keys == t.merges[n].conflicts.Keys
                  && (forall p | p in s.merges[m].conflicts ::
                        s.merges[m].conflicts[p].ours == t.merges[n].conflicts[p].theirs
                        && s.merges[m].conflicts[p].theirs == t.merges[n].conflicts[p].ours)
                  && (s.merges[m].status.Merged? ==>
                        var tree := MergeRules.Joined(TargetState(r, a), TargetState(r, b));
                        Completed(s, m, s.merges[m], m + 1, tree) && Completed(t, n, t.merges[n], n + 1, tree)))
  {
    hide MergeBranches, Completed, HeadState, Valid, MergeRules.Joined, FindLca, FreshRow, Resolves, Uncommittable,
         Refusal, MergeRules.ConflictPaths, MergeRules.ConflictRows;
    MergeOutcome(r, project, a, b);
    MergeOutcome(r, project, b, a);
    MergeRules.SwapSides(map[], TargetState(r, a), TargetState(r, b));
    var x, y := MergeBranches(r, true, project, a, b), MergeBranches(r, true, project, b, a);
    if x.Ok? {
      var c, d := x.value.0.merges[x.value.1].conflicts, y.value.0.merges[y.value.1].conflicts;
      forall p | p in c
        ensures c[p].ours == d[p].theirs && c[p].theirs == d[p].ours
      {
        FreshSidesSwap(r, c[p], d[p], p, r.branches[a].head, r.branches[b].head);
      }
    }
  }

  lemma FreshSidesSwap(r: Repo, c: Conflict, d: Conflict, p: Path, a: Option<CommitId>, b: Option<CommitId>)
    requires Acyclic(GraphOf(r)) && FreshRow(r, c, p, a, b) && FreshRow(r, d, p, b, a)
    ensures c.ours == d.theirs && c.theirs == d.ours
  {
    hide StateMap, FindLca;
  }

  /** The head of a branch carries snapshot rows or no objects at all, or the branch has no commits. */
  ghost predicate RowBacked(r: Repo, head: Option<CommitId>) {
    head.Some? ==>
      && head.value in r.commits
      && (r.commits[head.value].rows != map[] || StateOf(r.commits[head.value]) == Some(map[]))
  }

  lemma HeadStateFromRows(r: Repo, head: Option<CommitId>)
    requires Valid(r) && RowBacked(r, head) && HeadState(r, head).Some?
    ensures forall p | p in HeadState(r, head).value :: FromRow(HeadState(r, head).value[p])
  {
  }

  lemma RowRefers(known: Known, p: Path, r: Row)
    requires Refers(known, r.objectId, r.versionId)
    ensures !Dangles(known, p, DiffValue(r))
  {
  }

  /** What a row-carrying head holds refers to known objects and versions only. */
  lemma HeadStateRefers(r: Repo, head: Option<CommitId>)
    requires Valid(r) && RowBacked(r, head) && HeadState(r, head).Some?
    ensures forall p | p in HeadState(r, head).value :: !Dangles(r.known, p, HeadState(r, head).value[p])
  {
    hide DiffValue, Dangles, Refers, BranchValid, MergeValid, DistinctIds;
    if head.Some? {
      var rows := r.commits[head.value].rows;
      assert CommitValid(r, head.value);
      forall p | p in rows
        ensures !Dangles(r.known, p, DiffValue(rows[p]))
      {
        RowRefers(r.known, p, rows[p]);
      }
    }
  }

  /** So a clean merge of row-carrying heads never breaks a foreign key: only a version number can make it fail. */
  lemma RowBackedMergeSucceedsIff(r: Repo, project: ProjectId, target: BranchId, source: BranchId)
    requires Valid(r) && Acyclic(GraphOf(r)) && Mergeable(r, project, target, source)
    requires RowBacked(r, r.branches[target].head) && RowBacked(r, r.branches[source].head)
    requires MergeRules.ConflictPaths(TargetState(r, target), TargetState(r, source)) == {}
    requires r.branches[target].head.Some? ==> r.branches[target].head != r.branches[source].head
    ensures var res := MergeBranches(r, true, project, target, source);
            && (res.Ok? <==> !Raising(MergeRules.Joined(TargetState(r, target), TargetState(r, source))))
            && (res.Err? ==> res.error == UnreadableVersionNum)
  {
    hide MergeBranches, HeadState, StateMap, Valid, Dangles, Raising, FindLca, MergeRules.ConflictPaths, RowBacked;
    MergeOutcome(r, project, target, source);
    HeadStateRefers(r, r.branches[target].head);
    HeadStateRefers(r, r.branches[source].head);
  }

  /**
   A clean merge reads back as exactly the join of the two states if and only if
   every value of the join is one that rows decode to, with a version number that
   is null or a whole number. Heads that carry rows meet the first part.
   What is read back drops the values with an unusable version number and turns
   integer texts into numbers.
   */
  lemma CleanMergeReadsBackIff(r: Repo, project: ProjectId, target: BranchId, source: BranchId)
    requires Valid(r) && Acyclic(GraphOf(r)) && Mergeable(r, project, target, source)
    requires MergeBranches(r, true, project, target, source).Ok?
    requires MergeRules.ConflictPaths(TargetState(r, target), TargetState(r, source)) == {}
    ensures var (s, m) := MergeBranches(r, true, project, target, source).value;
            var tree := MergeRules.Joined(TargetState(r, target), TargetState(r, source));
            && m + 1 in s.commits && target in s.branches && s.branches[target].head == Some(m + 1)
            && (ReadsBack(s, m + 1, tree) <==> forall p | p in tree :: FromRow(tree[p]) && Plain(tree[p].versionNum))
            && (RowBacked(r, r.branches[target].head) && RowBacked(r, r.branches[source].head) ==>
                  && (forall p | p in tree :: FromRow(tree[p]))
                  && ReadsBack(s, m + 1, map p | p in tree && !BadVersionNum(tree[p].versionNum) :: Coerced(tree[p])))
  {
    hide MergeBranches, HeadState, StateMap, Valid, FromRow, Stored, Plain, BadVersionNum, Coerced, FindLca,
         MergeRules.ConflictPaths;
    var tree := MergeRules.Joined(TargetState(r, target), TargetState(r, source));
    MergeOutcome(r, project, target, source);
    StoredIsTreeIff(tree);
    if RowBacked(r, r.branches[target].head) && RowBacked(r, r.branches[source].head) {
      HeadStateFromRows(r, r.branches[target].head);
      HeadStateFromRows(r, r.branches[source].head);
      StoredFromRows(tree);
    }
  }

  /** The nearest common ancestor of a commit and its merge with another is one of the merged heads. */
  lemma LcaWithOwnMerge(g: Graph, c: CommitId, theirs: CommitId)
    requires Acyclic(g) && c in g && theirs in g[c]
    ensures FindLca(g, theirs, c).Some? && FindLca(g, theirs, c).value in g[c]
  {
    var hit := (x: CommitId) => IsAncestor(g, x, theirs);
    AncestorOfSelf(g, theirs);
    if IsAncestor(g, c, theirs) {
      ReachableIsOlder(g, theirs, c);
    }
    SearchRow(g, hit, [c]);
    assert Expand(g, [c]) == g[c] by {
      assert [c][1..] == [] && Expand(g, []) == [];
    }
    SearchRow(g, hit, g[c]);
    assert hit(theirs);
  }

  /** What merging back compares, for states read from rows: the stored join conflicts on integer texts only. */
  lemma StoredMergesBack(known: Known, later: Known, ours: Tree, theirs: Tree)
    requires MergeRules.ConflictPaths(ours, theirs) == {} && !Uncommittable(known, MergeRules.Joined(ours, theirs))
    requires known.objects <= later.objects && known.versions <= later.versions
    requires forall p | p in ours :: FromRow(ours[p])
    requires forall p | p in theirs :: FromRow(theirs[p])
    ensures var kept := Stored(MergeRules.Joined(ours, theirs));
            && MergeRules.ConflictPaths(theirs, kept) == (set p | p in theirs && IntegerText(theirs[p].versionNum))
            && (MergeRules.ConflictPaths(theirs, kept) == {} ==>
                  && !Uncommittable(later, MergeRules.Joined(theirs, kept))
                  && Stored(MergeRules.Joined(theirs, kept)) == kept)
  {
    hide FromRow, StoredValue, Coerced, Payload, WarningRaises, BadVersionNum, IntegerText, Plain, Dangles;
    var join := MergeRules.Joined(ours, theirs);
    var kept := Stored(join);
    forall p | p in join
      ensures StoredValue(p, join[p]) ==
              if BadVersionNum(join[p].versionNum) then None else Some(Coerced(join[p]))
      ensures BadVersionNum(join[p].versionNum) ==> !IntegerText(join[p].versionNum)
      ensures !BadVersionNum(join[p].versionNum) ==> (Coerced(join[p]) == join[p] <==> !IntegerText(join[p].versionNum))
      ensures !BadVersionNum(join[p].versionNum) ==>
                && StoredValue(p, Coerced(join[p])) == Some(Coerced(join[p]))
                && !WarningRaises(p, Payload(Coerced(join[p])))
      ensures !Dangles(later, p, join[p])
      ensures !BadVersionNum(join[p].versionNum) ==> !Dangles(later, p, Coerced(join[p]))
    {
      assert !Dangles(known, p, join[p]);
      DanglesLess(known, later, p, join[p]);
      RowValueStored(p, join[p]);
      RowValueStoredAgain(p, join[p]);
    }
    forall p | p in theirs
      ensures p in join && join[p] == theirs[p]
    {
      assert p !in MergeRules.ConflictPaths(ours, theirs);
    }
    forall p | p in theirs
      ensures p in kept && theirs[p] != kept[p] <==> IntegerText(theirs[p].versionNum)
    {
    }
    if MergeRules.ConflictPaths(theirs, kept) == {} {
      var again := MergeRules.Joined(theirs, kept);
      forall p | p in again
        ensures again[p] == join[p] || (p in kept && again[p] == kept[p])
        ensures !WarningRaises(p, Payload(again[p])) && !Dangles(later, p, again[p])
        ensures p in Stored(again) <==> p in kept
        ensures p in kept ==> StoredValue(p, again[p]) == Some(kept[p])
      {
      }
    }
  }

  lemma DanglesLess(known: Known, later: Known, p: Path, f: Fields)
    requires FromRow(f) && !Dangles(known, p, f)
    requires known.objects <= later.objects && known.versions <= later.versions
    ensures !Dangles(later, p, f) && (!BadVersionNum(f.versionNum) ==> !Dangles(later, p, Coerced(f)))
  {
  }

  lemma RowValueStoredAgain(p: Path, f: Fields)
    requires FromRow(f)
    ensures BadVersionNum(f.versionNum) ==> !IntegerText(f.versionNum)
    ensures !BadVersionNum(f.versionNum) ==>
              && (Coerced(f) == f <==> !IntegerText(f.versionNum))
              && StoredValue(p, Coerced(f)) == Some(Coerced(f))
              && !WarningRaises(p, Payload(Coerced(f)))
  {
    hide StoredValue;
    PayloadRoundTrip(p, f);
    if !BadVersionNum(f.versionNum) {
      RowValueStored(p, f);
      StoredUnchangedIff(p, f);
      StoredUnchangedIff(p, Coerced(f));
    }
  }

  /** The merge has a row for each of the paths, and if there are none its result stands for the state. */
  ghost predicate MergedBack(s: Repo, m: MergeId, target: BranchId, state: Option<Tree>, conflicting: set<Path>) {
    && m in s.merges && s.merges[m].conflicts.Keys == conflicting
    && (conflicting == {} ==>
          && target in s.branches && s.branches[target].head == Some(m + 1)
          && m + 1 in s.commits && StateOf(s.commits[m + 1]) == state)
  }

  /**
   Merging a clean result of row-carrying heads back into the other branch always
   succeeds. It conflicts on exactly the paths at which the source's version
   number is a text that reads as an integer, because the result holds the
   number; without such a text it is clean and yields the very same state, also
   when the first merge dropped values.
   */
  lemma MergeBackIsCleanIff(r: Repo, project: ProjectId, target: BranchId, source: BranchId)
    requires Valid(r) && Acyclic(GraphOf(r)) && Mergeable(r, project, target, source) && target != source
    requires RowBacked(r, r.branches[target].head) && RowBacked(r, r.branches[source].head)
    requires MergeBranches(r, true, project, target, source).Ok?
    requires MergeRules.ConflictPaths(TargetState(r, target), TargetState(r, source)) == {}
    ensures var (s, m) := MergeBranches(r, true, project, target, source).value;
            var theirs := TargetState(r, source);
            && Acyclic(GraphOf(s)) && m + 1 in s.commits
            && var back := MergeBranches(s, true, project, source, target);
               && back.Ok?
               && MergedBack(back.value.0, back.value.1, source, StateOf(s.commits[m + 1]),
                             set p | p in theirs && IntegerText(theirs[p].versionNum))
  {
    hide MergeBranches, HeadState, MergeRules.Joined, MergeRules.ConflictPaths, FindLca, StateMap, StateOf, GraphOf,
         Stored, Uncommittable, FromRow, IntegerText, Valid, Acyclic, RowBacked;
    MergedBranches(r, project, target, source);
    MergedStates(r, project, target, source);
    assert forall p | p in TargetState(r, target) :: FromRow(TargetState(r, target)[p]) by {
      HeadStateFromRows(r, r.branches[target].head);
    }
    assert forall p | p in TargetState(r, source) :: FromRow(TargetState(r, source)[p]) by {
      HeadStateFromRows(r, r.branches[source].head);
    }
    StoredMergesBack(r.known, MergeBranches(r, true, project, target, source).value.0.known,
                     TargetState(r, target), TargetState(r, source));
    MergedStates(MergeBranches(r, true, project, target, source).value.0, project, source, target);
  }

  /** The part of a merge's outcome that concerns its rows and the state of its result. */
  lemma MergedStates(r: Repo, project: ProjectId, target: BranchId, source: BranchId)
    requires Valid(r) && Acyclic(GraphOf(r)) && Mergeable(r, project, target, source)
    ensures var res := MergeBranches(r, true, project, target, source);
            var ours, theirs := TargetState(r, target), TargetState(r, source);
            var clean := MergeRules.ConflictPaths(ours, theirs) == {};
            && (res.Err? ==> r.branches[target].head == r.branches[source].head
                             || (clean && res.error == Refusal(r.known, MergeRules.Joined(ours, theirs))
                                  && Uncommittable(r.known, MergeRules.Joined(ours, theirs))))
            && (res.Ok? ==>
                  var (s, m) := res.value;
                  && m in s.merges && s.merges[m].conflicts.Keys == MergeRules.ConflictPaths(ours, theirs)
                  && (clean ==>
                        && !Uncommittable(r.known, MergeRules.Joined(ours, theirs))
                        && target in s.branches && s.branches[target].head == Some(m + 1) && m + 1 in s.commits
                        && StateOf(s.commits[m + 1]) == Some(Stored(MergeRules.Joined(ours, theirs)))))
  {
    hide MergeBranches, HeadState, MergeRules.Joined, MergeRules.ConflictPaths, MergeRules.ConflictRows, FindLca,
         StateMap, Stored, Uncommittable, Valid;
    MergeOutcome(r, project, target, source);
  }

  /** After a clean merge the two branches can be merged the other way round: one state is old, one is the result. */
  lemma MergedBranches(r: Repo, project: ProjectId, target: BranchId, source: BranchId)
    requires Valid(r) && Acyclic(GraphOf(r)) && Mergeable(r, project, target, source) && target != source
    requires MergeBranches(r, true, project, target, source).Ok?
    requires MergeRules.ConflictPaths(TargetState(r, target), TargetState(r, source)) == {}
    ensures var (s, m) := MergeBranches(r, true, project, target, source).value;
            && Valid(s) && Acyclic(GraphOf(s)) && Mergeable(s, project, source, target)
            && r.known.objects <= s.known.objects && r.known.versions <= s.known.versions
            && s.branches[source].head == r.branches[source].head && s.branches[source].head != s.branches[target].head
            && TargetState(s, source) == TargetState(r, source)
            && TargetState(s, target) == Stored(MergeRules.Joined(TargetState(r, target), TargetState(r, source)))
  {
    hide MergeBranches, HeadState, MergeRules.Joined, MergeRules.ConflictPaths, FindLca, StateMap, CommitValid,
         MergeValid, Stored, FreshRow, Resolves, Uncommittable, Refusal;
    MergeOutcome(r, project, target, source);
    MergeKeeps(r, true, project, target, source);
    var (s, m) := MergeBranches(r, true, project, target, source).value;
    ValidGraph(s);
    var c := m + 1;
    var head := r.branches[source].head;
    if head.Some? {
      HeadIsOlder(r, source);
    }
    assert BranchValid(r, target) && BranchValid(r, source) && BranchValid(s, source) && BranchValid(s, target);
    HeadStateKept(r, s, project, r.branches[target].head);
    HeadStateKept(r, s, project, head);
    HeadOfCommit(s, c);
    if head.Some? {
      assert head.value in HeadParents(r.branches[target].head) + HeadParents(head);
      LcaWithOwnMerge(GraphOf(s), c, head.value);
    } else {
      NoHeadIsEmpty(s);
    }
  }

  lemma HeadOfCommit(r: Repo, c: CommitId)
    requires c in r.commits
    ensures HeadState(r, Some(c)) == StateOf(r.commits[c])
  {
  }

  lemma NoHeadIsEmpty(r: Repo)
    ensures HeadState(r, None) == Some(map[])
  {
  }

  lemma HeadIsOlder(r: Repo, b: BranchId)
    requires Valid(r) && b in r.branches && r.branches[b].head.Some?
    ensures r.branches[b].head.value < r.next
  {
  }
}
