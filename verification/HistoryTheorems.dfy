/** When moving a branch head keeps the history the branch had. */
module HistoryTheorems {
  import opened Wrappers
  import opened CommitGraph
  import opened CommitContents
  import opened Repository
  import MergeRules
  import MergeTheorems

  /** Every ancestor of `h` in the old tables is an ancestor of `c` in the new ones. */
  ghost predicate HistoryKept(r: Repo, s: Repo, h: CommitId, c: CommitId) {
    forall x | IsAncestor(GraphOf(r), x, h) :: IsAncestor(GraphOf(s), x, c)
  }

  /** A new commit keeps the history of `h` exactly when `h` is in the history of one of its parents. */
  lemma NewCommitKeepsHistoryIff(r: Repo, s: Repo, h: CommitId, c: CommitId)
    requires Valid(r) && CoreExtends(r, s)
    requires h in r.commits && c in s.commits && c !in r.commits
    requires forall p | p in s.commits[c].parents :: p in r.commits
    ensures HistoryKept(r, s, h, c) <==> exists p :: p in s.commits[c].parents && IsAncestor(GraphOf(r), h, p)
  {
    hide StateOf, CommitValid, BranchValid, MergeValid;
    var g, k, parents := GraphOf(r), GraphOf(s), s.commits[c].parents;
    ValidGraph(r);
    assert ParentsOf(k, c) == parents;
    forall p, x | p in parents
      ensures IsAncestor(g, x, p) <==> IsAncestor(k, x, p)
    {
      AncestorsInLargerGraph(g, k, p);
    }
    AncestorOfSelf(g, h);
    AncestorStep(k, c, h);
    forall p, x | p in parents && IsAncestor(g, h, p) && IsAncestor(g, x, h)
      ensures IsAncestor(k, x, c)
    {
      AncestorTransitive(g, x, h, p);
      ParentAncestors(k, c, p, x);
    }
  }

  /** Committing on a branch without naming parents keeps its history. */
  lemma DefaultCommitKeepsHistory(r: Repo, editor: bool, req: CommitRequest)
    requires Valid(r) && MakeCommit(r, editor, req).Ok? && req.parents.None? && r.branches[req.branch].head.Some?
    ensures var (s, c) := MakeCommit(r, editor, req).value;
            s.branches[req.branch].head == Some(c) && HistoryKept(r, s, r.branches[req.branch].head.value, c)
  {
    hide StateOf, BuildCommit, MergeValid;
    var (s, c) := MakeCommit(r, editor, req).value;
    var h := r.branches[req.branch].head.value;
    MakeCommitKeepsCore(r, editor, req);
    assert BranchValid(r, req.branch);
    assert c !in r.commits by {
      assert c in r.commits ==> CommitValid(r, c);
    }
    NewCommitKeepsHistoryIff(r, s, h, c);
    AncestorOfSelf(GraphOf(r), h);
    assert h in s.commits[c].parents;
  }

  /** A clean merge keeps the history of its target and brings in that of its source. */
  lemma CleanMergeKeepsHistory(r: Repo, project: nat, target: nat, source: nat)
    requires Valid(r) && Acyclic(GraphOf(r)) && MergeTheorems.Mergeable(r, project, target, source)
    requires MergeBranches(r, true, project, target, source).Ok?
    requires MergeRules.ConflictPaths(MergeTheorems.TargetState(r, target), MergeTheorems.TargetState(r, source)) == {}
    ensures var (s, m) := MergeBranches(r, true, project, target, source).value;
            && s.branches[target].head == Some(m + 1)
            && (r.branches[target].head.Some? ==> HistoryKept(r, s, r.branches[target].head.value, m + 1))
            && (r.branches[source].head.Some? ==> HistoryKept(r, s, r.branches[source].head.value, m + 1))
  {
    hide MergeBranches, HeadState, StateOf, MergeRules.ConflictPaths, MergeRules.Joined, Stored, MergeValid,
         HistoryKept, CoreExtends, CommitValid, Uncommittable, MergeTheorems.Refusal;
    MergeTheorems.MergeOutcome(r, project, target, source);
    MergeKeeps(r, true, project, target, source);
    var (s, m) := MergeBranches(r, true, project, target, source).value;
    assert BranchValid(r, target) && BranchValid(r, source);
    ParentKeepsHistory(r, s, r.branches[target].head, m + 1);
    ParentKeepsHistory(r, s, r.branches[source].head, m + 1);
  }

  lemma ParentKeepsHistory(r: Repo, s: Repo, head: Option<CommitId>, c: CommitId)
    requires Valid(r) && CoreExtends(r, s) && r.next <= c && c in s.commits
    requires forall p | p in s.commits[c].parents :: p in r.commits
    requires head.Some? ==> head.value in r.commits && head.value in s.commits[c].parents
    ensures head.Some? ==> HistoryKept(r, s, head.value, c)
  {
    hide StateOf, MergeValid;
    if head.Some? {
      assert c !in r.commits by {
        assert c in r.commits ==> CommitValid(r, c);
      }
      NewCommitKeepsHistoryIff(r, s, head.value, c);
      AncestorOfSelf(GraphOf(r), head.value);
    }
  }

  lemma RecordedHeadsExist(r: Repo, m: nat)
    requires Valid(r) && m in r.merges
    requires r.merges[m].target in r.branches && r.branches[r.merges[m].target].head.Some?
    ensures forall p | p in HeadParents(r.merges[m].ours) + HeadParents(r.merges[m].theirs) :: p in r.commits
    ensures r.branches[r.merges[m].target].head.value in r.commits
  {
    hide RowsMatchHeads, StatusValid;
    assert MergeValid(r, m) && BranchValid(r, r.merges[m].target);
  }

  /** `h` is one of the recorded heads of a merge or in the history of one. */
  ghost predicate InRecordedHistory(r: Repo, m: Merge, h: CommitId) {
    exists p :: p in HeadParents(m.ours) + HeadParents(m.theirs) && IsAncestor(GraphOf(r), h, p)
  }

  /**
   Completing a merge late: the target branch keeps the history it has by then
   exactly when its head is in the history of a head recorded at the opening.
   */
  lemma FinalisationKeepsHistoryIff(r: Repo, editor: bool, project: nat, m: MergeId, path: string, choice: Resolution)
    requires Valid(r) && m in r.merges && r.merges[m].status.Conflicts?
    requires ResolveConflict(r, editor, project, m, path, choice).Ok?
    requires var s := ResolveConflict(r, editor, project, m, path, choice).value;
             m in s.merges && s.merges[m].result.Some?
    requires r.merges[m].target in r.branches && r.branches[r.merges[m].target].head.Some?
    ensures var s := ResolveConflict(r, editor, project, m, path, choice).value;
            var b := r.merges[m].target;
            && b in s.branches && s.branches[b].head == s.merges[m].result
            && (HistoryKept(r, s, r.branches[b].head.value, s.merges[m].result.value)
                <==> InRecordedHistory(r, r.merges[m], r.branches[b].head.value))
  {
    hide HeadState, StateOf, Stored, MergeRules.FinalTree, ResolveConflict, MergeValid, CommitValid, BranchValid,
         HistoryKept;
    var _ := MergeTheorems.FinishedTree(r, editor, project, m, path, choice);
    ResolveKeeps(r, editor, project, m, path, choice);
    var s := ResolveConflict(r, editor, project, m, path, choice).value;
    var row := r.merges[m];
    var c := s.merges[m].result.value;
    RecordedHeadsExist(r, m);
    MergeTheorems.ResultIsNew(r, editor, project, m, path, choice);
    NewCommitKeepsHistoryIff(r, s, r.branches[row.target].head.value, c);
  }

  /**
   So a target branch that has since moved on to a newer commit loses it: no
   commit made after both recorded heads is in the history of the result.
   */
  lemma NewerHeadIsNotRecorded(r: Repo, m: Merge, h: CommitId)
    requires Valid(r)
    requires m.ours.Some? ==> m.ours.value < h
    requires m.theirs.Some? ==> m.theirs.value < h
    ensures !InRecordedHistory(r, m, h)
  {
    hide MergeValid, CommitValid, BranchValid;
    ValidGraph(r);
    forall p | p in HeadParents(m.ours) + HeadParents(m.theirs)
      ensures !IsAncestor(GraphOf(r), h, p)
    {
      if IsAncestor(GraphOf(r), h, p) {
        ReachableIsOlder(GraphOf(r), p, h);
      }
    }
  }

  /** A target branch whose head is still the one recorded at the opening keeps its history. */
  lemma UnmovedHeadIsRecorded(r: Repo, m: Merge, h: CommitId)
    requires m.ours == Some(h)
    ensures InRecordedHistory(r, m, h)
  {
    AncestorOfSelf(GraphOf(r), h);
    assert h in HeadParents(m.ours) + HeadParents(m.theirs);
  }

  // ------------------------------------------------------------------ whole runs

  /** The history of a branch: every ancestor of its head stays one when its head moves. */
  ghost predicate BranchGrows(r: Repo, s: Repo, b: BranchId)
    requires b in r.branches
  {
    r.branches[b].head.Some? ==>
      b in s.branches && s.branches[b].head.Some?
      && HistoryKept(r, s, r.branches[b].head.value, s.branches[b].head.value)
  }

  ghost predicate AllBranchesGrow(r: Repo, s: Repo) {
    forall b | b in r.branches :: BranchGrows(r, s, b)
  }

  /**
   The call keeps the history of the branch it moves: a commit names no parents
   or one in whose history the head is, and a completion happens while the
   target's head is in the history of a recorded head. Merging always does.
   */
  ghost predicate KeepsHistory(r: Repo, call: Call) {
    match call
    case CallCommit(_, req) =>
      req.branch in r.branches && r.branches[req.branch].head.Some? ==>
        exists p :: p in ParentsFor(r, req) && IsAncestor(GraphOf(r), r.branches[req.branch].head.value, p)
    case CallResolve(_, _, m, _, _) =>
      m in r.merges && r.merges[m].target in r.branches && r.branches[r.merges[m].target].head.Some? ==>
        InRecordedHistory(r, r.merges[m], r.branches[r.merges[m].target].head.value)
    case _ => true
  }

  lemma UnmovedBranchesGrow(r: Repo, s: Repo)
    requires Valid(r) && CoreExtends(r, s)
    ensures forall b | b in r.branches && b in s.branches && s.branches[b].head == r.branches[b].head ::
              BranchGrows(r, s, b)
  {
    hide StateOf, MergeValid, CommitValid;
    ValidGraph(r);
    forall b | b in r.branches && b in s.branches && s.branches[b].head == r.branches[b].head
      ensures BranchGrows(r, s, b)
    {
      if r.branches[b].head.Some? {
        assert BranchValid(r, b);
        AncestorsInLargerGraph(GraphOf(r), GraphOf(s), r.branches[b].head.value);
      }
    }
  }

  /** Moving one branch: the others grow by staying where they are. */
  lemma MovedBranchGrows(r: Repo, s: Repo, b: BranchId)
    requires Valid(r) && CoreExtends(r, s) && b in r.branches && BranchGrows(r, s, b)
    requires b in s.branches && s.branches == r.branches[b := s.branches[b]]
    ensures AllBranchesGrow(r, s)
  {
    hide Valid, CoreExtends, HistoryKept;
    UnmovedBranchesGrow(r, s);
  }

  lemma StillBranchesGrow(r: Repo, s: Repo)
    requires Valid(r) && CoreExtends(r, s)
    requires forall b | b in r.branches :: b in s.branches && s.branches[b] == r.branches[b]
    ensures AllBranchesGrow(r, s)
  {
    hide Valid, CoreExtends, HistoryKept;
    UnmovedBranchesGrow(r, s);
  }

  lemma CommitGrows(r: Repo, editor: bool, req: CommitRequest)
    requires Valid(r) && MakeCommit(r, editor, req).Ok? && KeepsHistory(r, CallCommit(editor, req))
    ensures AllBranchesGrow(r, MakeCommit(r, editor, req).value.0)
  {
    hide StateOf, BuildCommit, MergeValid;
    var (s, c) := MakeCommit(r, editor, req).value;
    MakeCommitKeepsCore(r, editor, req);
    if r.branches[req.branch].head.Some? {
      assert BranchValid(r, req.branch);
      assert c !in r.commits by {
        assert c in r.commits ==> CommitValid(r, c);
      }
      NewCommitKeepsHistoryIff(r, s, r.branches[req.branch].head.value, c);
    }
    hide Valid, HistoryKept, MakeCommit, CoreExtends;
    MovedBranchGrows(r, s, req.branch);
  }

  lemma MergeGrows(r: Repo, project: nat, target: nat, source: nat)
    requires Valid(r) && Acyclic(GraphOf(r)) && MergeBranches(r, true, project, target, source).Ok?
    ensures AllBranchesGrow(r, MergeBranches(r, true, project, target, source).value.0)
  {
    assert MergeTheorems.Mergeable(r, project, target, source) by {
      hide OpenMerge, HeadState, FindLca, Valid;
    }
    hide MergeBranches, HeadState, StateOf, MergeRules.ConflictPaths, MergeRules.Joined, Stored, MergeValid, Valid,
         HistoryKept, CoreExtends, FindLca;
    MergeTheorems.MergeOutcome(r, project, target, source);
    MergeKeeps(r, true, project, target, source);
    var s := MergeBranches(r, true, project, target, source).value.0;
    if MergeRules.ConflictPaths(MergeTheorems.TargetState(r, target), MergeTheorems.TargetState(r, source)) == {} {
      CleanMergeKeepsHistory(r, project, target, source);
      MovedBranchGrows(r, s, target);
    } else {
      StillBranchesGrow(r, s);
    }
  }

  /** A resolve call moves no branch, or completes its merge and moves the target to the result. */
  lemma ResolveMoves(r: Repo, editor: bool, project: nat, m: MergeId, path: string, choice: Resolution)
    requires Valid(r) && ResolveConflict(r, editor, project, m, path, choice).Ok?
    ensures var s := ResolveConflict(r, editor, project, m, path, choice).value;
            s.branches == r.branches
            || (m in r.merges && m in s.merges && r.merges[m].status.Conflicts? && s.merges[m].result.Some?
                && r.merges[m].target in r.branches
                && var b := r.merges[m].target;
                   s.branches == r.branches[b := r.branches[b].(head := s.merges[m].result)])
  {
    hide MakeCommit, HeadState, MergeRules.FinalTree, MergeValid, CommitValid, BranchValid;
    var s1 := Resolved(r, m, path, choice);
    var row := s1.merges[m];
    SameCore(r, s1);
    hide Valid, CoreValid;
    if row.status.Conflicts? && row.conflicts != map[] && AllResolved(row) {
      var o, t := HeadState(s1, row.ours).value, HeadState(s1, row.theirs).value;
      MakeCommitKeepsCore(s1, editor, MergeRequest(row, MergeRules.FinalTree(o, t, row.conflicts).value));
      MergeCommitOnTarget(s1, editor, row, MergeRules.FinalTree(o, t, row.conflicts).value);
    }
  }

  lemma MergeCommitOnTarget(r: Repo, editor: bool, m: Merge, tree: Tree)
    requires MakeCommit(r, editor, MergeRequest(m, tree)).Ok?
    ensures m.target in r.branches
  {
    hide BuildCommit, Payloads;
  }

  lemma ResolveGrows(r: Repo, editor: bool, project: nat, m: MergeId, path: string, choice: Resolution)
    requires Valid(r) && ResolveConflict(r, editor, project, m, path, choice).Ok?
    requires KeepsHistory(r, CallResolve(editor, project, m, path, choice))
    ensures AllBranchesGrow(r, ResolveConflict(r, editor, project, m, path, choice).value)
  {
    hide ResolveConflict, Valid, CoreExtends, HistoryKept, InRecordedHistory;
    var s := ResolveConflict(r, editor, project, m, path, choice).value;
    ResolveKeeps(r, editor, project, m, path, choice);
    ResolveMoves(r, editor, project, m, path, choice);
    if s.branches == r.branches {
      StillBranchesGrow(r, s);
    } else {
      if r.branches[r.merges[m].target].head.Some? {
        FinalisationKeepsHistoryIff(r, editor, project, m, path, choice);
      }
      MovedBranchGrows(r, s, r.merges[m].target);
    }
  }

  lemma NothingMoves(r: Repo)
    ensures AllBranchesGrow(r, r)
  {
  }

  /** The remaining calls move no branch. */
  lemma OtherCallsMoveNoBranch(r: Repo, call: Call)
    requires Valid(r) && Acyclic(GraphOf(r)) && !call.CallCommit? && !call.CallMerge? && !call.CallResolve?
    ensures forall b | b in r.branches :: b in Step(r, call).branches && Step(r, call).branches[b] == r.branches[b]
  {
    hide CommitValid, MergeValid;
    assert forall b | b in r.branches :: BranchValid(r, b);
  }

  /** A call that keeps the history of the branch it moves lets no branch lose history. */
  lemma StepGrows(r: Repo, call: Call)
    requires Valid(r) && Acyclic(GraphOf(r)) && KeepsHistory(r, call)
    ensures AllBranchesGrow(r, Step(r, call))
  {
    hide MakeCommit, MergeBranches, ResolveConflict, KeepsHistory, CoreExtends, AllBranchesGrow, Valid;
    NothingMoves(r);
    match call {
      case CallCommit(editor, req) =>
        if MakeCommit(r, editor, req).Ok? { CommitGrows(r, editor, req); }
      case CallMerge(editor, project, target, source) =>
        if MergeBranches(r, editor, project, target, source).Ok? {
          OnlyEditorsMerge(r, editor, project, target, source);
          MergeGrows(r, project, target, source);
        }
      case CallResolve(editor, project, m, path, choice) =>
        if ResolveConflict(r, editor, project, m, path, choice).Ok? {
          ResolveGrows(r, editor, project, m, path, choice);
        }
      case _ =>
        hide Step;
        StepKeeps(r, call);
        OtherCallsMoveNoBranch(r, call);
        StillBranchesGrow(r, Step(r, call));
    }
  }

  lemma OnlyEditorsMerge(r: Repo, editor: bool, project: nat, target: nat, source: nat)
    requires Acyclic(GraphOf(r)) && MergeBranches(r, editor, project, target, source).Ok?
    ensures editor
  {
  }

  /** Every call of the run keeps the history of the branch it moves. */
  ghost predicate RunKeepsHistory(r: Repo, calls: seq<Call>)
    requires Valid(r)
    decreases |calls|
  {
    calls == [] ||
    (ValidGraph(r);
     StepKeeps(r, calls[0]);
     KeepsHistory(r, calls[0]) && RunKeepsHistory(Step(r, calls[0]), calls[1..]))
  }

  /**
   The ancestor set of every branch head only grows over any run in which every
   call keeps the history of the branch it moves.
   */
  lemma {:induction false} RunGrows(r: Repo, calls: seq<Call>)
    requires Valid(r) && RunKeepsHistory(r, calls)
    ensures AllBranchesGrow(r, Run(r, calls))
    decreases |calls|
  {
    hide Valid, Step, KeepsHistory, AllBranchesGrow;
    if calls == [] {
      ExtendsReflexive(r);
      StillBranchesGrow(r, r);
    } else {
      ValidGraph(r);
      StepKeeps(r, calls[0]);
      StepGrows(r, calls[0]);
      RunGrows(Step(r, calls[0]), calls[1..]);
      GrowsTransitive(r, Step(r, calls[0]), Run(r, calls));
    }
  }

  lemma GrowsTransitive(r: Repo, s: Repo, t: Repo)
    requires AllBranchesGrow(r, s) && AllBranchesGrow(s, t)
    ensures AllBranchesGrow(r, t)
  {
  }

  /** Commits without named parents, and completions whose target has not moved since the merge, keep history. */
  lemma UsualCallsKeepHistory(r: Repo, call: Call)
    requires call.CallCommit? ==> call.req.parents.None?
    requires call.CallResolve? && call.merge in r.merges && r.merges[call.merge].target in r.branches ==>
               r.branches[r.merges[call.merge].target].head == r.merges[call.merge].ours
    ensures KeepsHistory(r, call)
  {
    if call.CallCommit? && call.req.branch in r.branches && r.branches[call.req.branch].head.Some? {
      var h := r.branches[call.req.branch].head.value;
      AncestorOfSelf(GraphOf(r), h);
      assert h in ParentsFor(r, call.req);
    }
    if call.CallResolve? && call.merge in r.merges && r.merges[call.merge].ours.Some? {
      UnmovedHeadIsRecorded(r, r.merges[call.merge], r.merges[call.merge].ours.value);
    }
  }
}
