/**
 Runs from empty tables that show where merging falls short: version numbers hidden
 in free-form properties, and a merge completed after its target has moved on.
 */
module Examples {
  import opened Wrappers
  import opened NumberText
  import opened Hnf
  import opened CommitGraph
  import opened CommitContents
  import opened Repository
  import opened ConflictTheorems
  import opened MergeTheorems
  import opened HistoryTheorems
  import MergeRules

  const MAIN: BranchId := 0
  const DEV: BranchId := 1
  const PATH := "board"

  /** A snapshot without a version number of its own, and with one among its properties. */
  function HidingSnapshot(versionNum: Json): RawSnapshot {
    RawSnapshot(Given(PATH),
                Fields(Absent, Absent, None, Absent, Given("hardware.board"), Absent, Absent, Absent,
                       Given(map[VERSION_NUM := versionNum]), Absent, map[]))
  }

  function HiddenRow(versionNum: Json): Row {
    Row(None, None, None, "hardware.board", None, [], 1, map[VERSION_NUM := versionNum])
  }

  /** The rows of a commit hold just the object with the version number. */
  ghost predicate HoldsOne(r: Repo, c: CommitId, versionNum: Json) {
    c in r.commits && r.commits[c].rows == map[PATH := HiddenRow(versionNum)]
  }

  /** A commit of that snapshot on a branch. */
  function OneObject(b: BranchId, versionNum: Json): CommitRequest {
    CommitRequest(0, b, map[], [HidingSnapshot(versionNum)], None, None)
  }

  function BranchCalls(): seq<Call> {
    [CallCreateBranch(true, 0, "main", None), CallCreateBranch(true, 0, "dev", None)]
  }

  /** Two branches, and a commit of that snapshot on the second. */
  function HidingCalls(versionNum: Json): seq<Call> {
    BranchCalls() + [CallCommit(true, OneObject(DEV, versionNum))]
  }

  /** One more call in front of a run. */
  lemma RunFrom(r: Repo, s: Repo, call: Call, calls: seq<Call>)
    requires Valid(r)
    requires Acyclic(GraphOf(r)) ==> Step(r, call) == s
    ensures Valid(s) && Run(r, [call] + calls) == Run(s, calls)
  {
    hide Valid, Step;
    ValidGraph(r);
    StepKeeps(r, call);
    assert ([call] + calls)[1..] == calls;
  }

  function TwoBranches(devHead: Option<CommitId>): map<BranchId, Branch> {
    map[MAIN := Branch(0, "main", None), DEV := Branch(0, "dev", devHead)]
  }

  /** A project with two empty branches. */
  function Start(): Repo {
    Repo({0}, Known({}, {}), TwoBranches(None), map[], map[], map[], {}, 2)
  }

  lemma StartRun(calls: seq<Call>)
    ensures Valid(Empty({0})) && Valid(Start())
    ensures Run(Empty({0}), BranchCalls() + calls) == Run(Start(), calls)
  {
    hide Valid, Run;
    var first, second := BranchCalls()[0], BranchCalls()[1];
    assert BranchCalls() + calls == [first] + ([second] + calls);
    EveryRun({0}, []);
    var r1 := Empty({0}).(branches := map[MAIN := Branch(0, "main", None)], next := 1);
    RunFrom(Empty({0}), r1, first, [second] + calls);
    RunFrom(r1, Start(), second, calls);
  }

  lemma HidingRequest(versionNum: Json)
    ensures var raws := [HidingSnapshot(versionNum)];
            var snap := Snapshot(PATH, None, None, None, None, "hardware.board", None, [],
              Some(map[VERSION_NUM := versionNum]));
            && ParseSnapshots(raws) == [snap] && !SomeRaises(raws) && DistinctPaths([snap])
            && (forall known :: AllRefer(known, [snap]))
            && RowsOf([snap]) == map[PATH := HiddenRow(versionNum)]
  {
    var raws := [HidingSnapshot(versionNum)];
    assert raws[..0] == [] && ParseSnapshots([]) == [];
    var snap := ValidateRaw(raws[0]).value;
    assert [snap][..0] == [] && RowsOf([]) == map[];
  }

  lemma BuiltOneObject(known: Known, b: BranchId, versionNum: Json, parents: seq<CommitId>)
    requires DistinctIds(parents)
    ensures var built := BuildCommit(known, OneObject(b, versionNum), parents);
            && built.Ok? && built.value.branch == b && built.value.project == 0 && built.value.parents == parents
            && built.value.rows == map[PATH := HiddenRow(versionNum)]
  {
    HidingRequest(versionNum);
    hide ParseSnapshots, SomeRaises, AllRefer, DistinctPaths, DistinctIds, RowsOf, CommitTree;
  }

  /** The tables after a commit of one object. */
  lemma CommitOneObject(r: Repo, b: BranchId, versionNum: Json)
    requires Valid(r) && 0 in r.projects && BranchIn(r, 0, b)
    ensures var made := MakeCommit(r, true, OneObject(b, versionNum));
            && made.Ok?
            && var (s, c) := made.value;
               && c == r.next && c in s.commits && s.commits == r.commits[c := s.commits[c]]
               && s.commits[c].rows == map[PATH := HiddenRow(versionNum)]
               && s.branches == r.branches[b := r.branches[b].(head := Some(c))]
               && s.merges == r.merges && s.projects == r.projects && s.next == r.next + 1
  {
    hide BuildCommit, MergeValid, CommitValid;
    assert BranchValid(r, b);
    BuiltOneObject(r.known, b, versionNum, HeadParents(r.branches[b].head));
    hide Valid;
  }

  /** The tables after these calls. */
  lemma HidingRun(versionNum: Json)
    ensures Valid(Empty({0}))
    ensures var r := Run(Empty({0}), HidingCalls(versionNum));
            && Valid(r) && r.projects == {0} && r.branches == TwoBranches(Some(2))
            && HoldsOne(r, 2, versionNum)
  {
    hide Valid, Run;
    var commit := CallCommit(true, OneObject(DEV, versionNum));
    assert [commit] == [commit] + [];
    StartRun([commit]);
    CommitOneObject(Start(), DEV, versionNum);
    hide MakeCommit;
    var made := MakeCommit(Start(), true, OneObject(DEV, versionNum)).value.0;
    RunFrom(Start(), made, commit, []);
    RunOfNone(made);
  }

  lemma RunOfNone(r: Repo)
    requires Valid(r)
    ensures Run(r, []) == r
  {
  }

  function HiddenValue(versionNum: Json): Fields {
    DiffValue(HiddenRow(versionNum))
  }

  lemma HeldState(r: Repo, c: CommitId, versionNum: Json)
    requires HoldsOne(r, c, versionNum)
    ensures HeadState(r, Some(c)) == Some(map[PATH := HiddenValue(versionNum)]) && RowBacked(r, Some(c))
    ensures HiddenValue(versionNum).versionNum == Some(versionNum)
  {
    hide DiffValue;
    assert PATH in r.commits[c].rows;
    assert HeadState(r, Some(c)).value == map[PATH := HiddenValue(versionNum)];
    HiddenVersionNum(versionNum);
  }

  lemma EmptyHeadBacked(r: Repo)
    ensures RowBacked(r, None)
  {
  }

  /** The second branch can be merged into the first, and holds the one object. */
  lemma HidingMergeable(r: Repo, versionNum: Json)
    requires Acyclic(GraphOf(r)) && r.projects == {0} && r.branches == TwoBranches(Some(2))
    requires HoldsOne(r, 2, versionNum)
    ensures Mergeable(r, 0, MAIN, DEV)
    ensures RowBacked(r, r.branches[MAIN].head) && RowBacked(r, r.branches[DEV].head)
    ensures TargetState(r, MAIN) == map[] && TargetState(r, DEV) == map[PATH := HiddenValue(versionNum)]
    ensures MergeRules.ConflictPaths(TargetState(r, MAIN), TargetState(r, DEV)) == {}
    ensures MergeRules.Joined(TargetState(r, MAIN), TargetState(r, DEV)) == map[PATH := HiddenValue(versionNum)]
  {
    hide HeadState, HiddenValue, FindLca, RowBacked;
    HeldState(r, 2, versionNum);
    NoHeadIsEmpty(r);
    assert RowBacked(r, None) by { EmptyHeadBacked(r); }
  }

  /** The tables once the second branch holds an object with such a version number. */
  ghost function Hiding(versionNum: Json): (r: Repo)
    ensures Valid(r) && Acyclic(GraphOf(r))
  {
    hide *;
    HidingRun(versionNum);
    var r := Run(Empty({0}), HidingCalls(versionNum));
    ValidGraph(r);
    r
  }

  lemma HiddenVersionNum(versionNum: Json)
    ensures HiddenValue(versionNum).versionNum == Some(versionNum)
  {
  }

  /** The outcome of merging the second branch into the first. */
  lemma HidingMerge(versionNum: Json)
    ensures var res := MergeBranches(Hiding(versionNum), true, 0, MAIN, DEV);
            var value := HiddenValue(versionNum);
            && (res.Err? <==> WarningRaises(PATH, Payload(value)))
            && (res.Err? ==> res.error == UnreadableVersionNum)
            && (res.Ok? ==> ReadsBack(res.value.0, res.value.1 + 1,
                              if BadVersionNum(Some(versionNum)) then map[] else map[PATH := Coerced(value)]))
  {
    hide Run, Valid, MergeBranches, HeadState, FromRow, HiddenValue, WarningRaises, Coerced, BadVersionNum, StateMap,
         RowBacked, Payload, Dangles, ReadsBack, MergeRules.Joined;
    HidingRun(versionNum);
    var r := Hiding(versionNum);
    HidingMergeable(r, versionNum);
    assert HiddenValue(versionNum).versionNum == Some(versionNum) by { HiddenVersionNum(versionNum); }
    RowBackedMergeSucceedsIff(r, 0, MAIN, DEV);
    var tree := MergeRules.Joined(TargetState(r, MAIN), TargetState(r, DEV));
    assert Raising(tree) <==> WarningRaises(PATH, Payload(tree[PATH]));
    if MergeBranches(r, true, 0, MAIN, DEV).Ok? {
      CleanMergeReadsBackIff(r, 0, MAIN, DEV);
      assert (map p | p in tree && !BadVersionNum(tree[p].versionNum) :: Coerced(tree[p])) ==
             if BadVersionNum(Some(versionNum)) then map[] else map[PATH := Coerced(HiddenValue(versionNum))];
    }
  }

  lemma Texts()
    ensures !IsIntegerText("abc")
    ensures IsIntegerText("7") && IntegerValue("7") == 7 && !HasPoint("7")
    ensures IsIntegerText("7.0") && HasPoint("7.0")
  {
    assert StripRight(StripLeft("abc")) == "abc" && UntilPoint("abc")[0] == 'a';
    assert StripRight(StripLeft("7")) == "7" && UntilPoint("7") == "7";
    assert DigitsValue("7") == 7 by {
      assert "7"[..0] == "";
    }
    assert StripRight(StripLeft("7.0")) == "7.0" && UntilPoint("7.0") == "7" && "7.0"[1] == '.';
  }

  /** A text that is no integer: the merge succeeds, and the object is gone from its result. */
  lemma UnusableIsDropped()
    ensures var r := Hiding(JStr("abc"));
            && DEV in r.branches && r.branches[DEV].head == Some(2) && HoldsOne(r, 2, JStr("abc"))
            && var res := MergeBranches(r, true, 0, MAIN, DEV);
               res.Ok? && ReadsBack(res.value.0, res.value.1 + 1, map[])
  {
    hide MergeBranches, ReadsBack, IsIntegerText, Run, Valid;
    Texts();
    HidingRun(JStr("abc"));
    HidingMerge(JStr("abc"));
  }

  /** An integer text: the result holds the number instead, so merging back conflicts. */
  lemma IntegerTextConflictsBack()
    ensures var res := MergeBranches(Hiding(JStr("7")), true, 0, MAIN, DEV);
            && res.Ok? && ReadsBack(res.value.0, res.value.1 + 1, map[PATH := HiddenValue(JNum(7.0))])
            && Acyclic(GraphOf(res.value.0))
            && var back := MergeBranches(res.value.0, true, 0, DEV, MAIN);
               && back.Ok? && back.value.1 in back.value.0.merges
               && back.value.0.merges[back.value.1].conflicts.Keys == {PATH}
  {
    hide Run, Valid, MergeBranches, HeadState, ReadsBack, IsIntegerText, IntegerValue;
    Texts();
    HidingMerge(JStr("7"));
    HidingRun(JStr("7"));
    HidingMergeable(Hiding(JStr("7")), JStr("7"));
    MergeBackIsCleanIff(Hiding(JStr("7")), 0, MAIN, DEV);
  }

  /** An integer text with a point passes validation but not `int()`: the branch cannot be merged at all. */
  lemma PointTextBlocksMerge()
    ensures MergeBranches(Hiding(JStr("7.0")), true, 0, MAIN, DEV) == Err(UnreadableVersionNum)
  {
    hide Hiding, MergeBranches, IsIntegerText, HasPoint;
    Texts();
    HidingMerge(JStr("7.0"));
  }

  // ---------------------------------------------------------- late completion

  /** Both branches hold the object at `PATH`, with different version numbers. */
  ghost predicate Diverged(r: Repo) {
    && r.projects == {0} && r.merges == map[] && r.next == 4
    && r.branches == map[MAIN := Branch(0, "main", Some(2)), DEV := Branch(0, "dev", Some(3))]
    && r.commits.Keys == {2, 3} && HoldsOne(r, 2, JNum(1.0)) && HoldsOne(r, 3, JNum(2.0))
  }

  /** Two branches, a commit on each, a merge, and another commit on the target. */
  function MovedCalls(): seq<Call> {
    BranchCalls() + [CallCommit(true, OneObject(MAIN, JNum(1.0))), CallCommit(true, OneObject(DEV, JNum(2.0))),
                     CallMerge(true, 0, MAIN, DEV), CallCommit(true, OneObject(MAIN, JNum(3.0)))]
  }

  lemma DivergedStates(r: Repo)
    requires Diverged(r) && Acyclic(GraphOf(r))
    ensures Mergeable(r, 0, MAIN, DEV)
    ensures MergeRules.ConflictPaths(TargetState(r, MAIN), TargetState(r, DEV)) == {PATH}
  {
    HeldState(r, 2, JNum(1.0));
    HeldState(r, 3, JNum(2.0));
    hide HeadState, HiddenValue, FindLca;
    BaseReadable(r);
  }

  /** In these tables the state of every commit can be read. */
  lemma BaseReadable(r: Repo)
    requires Diverged(r) && Acyclic(GraphOf(r))
    ensures HeadState(r, BaseOf(r, MAIN, DEV)).Some?
  {
    hide FindLca, DiffValue;
    assert PATH in r.commits[2].rows && PATH in r.commits[3].rows;
  }

  /** Merge 4 waits for its one conflict, opened at heads 2 and 3; its target is by now at commit 5. */
  ghost predicate Moved(r: Repo) {
    && 0 in r.projects && 4 in r.merges && MAIN in r.branches && r.branches[MAIN].head == Some(5)
    && r.merges[4].project == 0 && r.merges[4].target == MAIN && r.merges[4].status == Conflicts
    && r.merges[4].ours == Some(2) && r.merges[4].theirs == Some(3) && r.merges[4].conflicts.Keys == {PATH}
    && HoldsOne(r, 2, JNum(1.0)) && HoldsOne(r, 3, JNum(2.0))
  }

  /** The tables after a commit on each of the two branches, and how a run goes on from there. */
  lemma DivergedRun(calls: seq<Call>) returns (r: Repo)
    ensures Valid(Empty({0})) && Valid(r) && Acyclic(GraphOf(r)) && Diverged(r)
    ensures Run(Empty({0}), BranchCalls() + ([CallCommit(true, OneObject(MAIN, JNum(1.0)))]
                            + ([CallCommit(true, OneObject(DEV, JNum(2.0)))] + calls))) == Run(r, calls)
  {
    hide Valid, Run, MakeCommit;
    var first, second := OneObject(MAIN, JNum(1.0)), OneObject(DEV, JNum(2.0));
    StartRun([CallCommit(true, first)] + ([CallCommit(true, second)] + calls));
    CommitOneObject(Start(), MAIN, JNum(1.0));
    var s := MakeCommit(Start(), true, first).value.0;
    RunFrom(Start(), s, CallCommit(true, first), [CallCommit(true, second)] + calls);
    CommitOneObject(s, DEV, JNum(2.0));
    r := MakeCommit(s, true, second).value.0;
    RunFrom(s, r, CallCommit(true, second), calls);
    ValidGraph(r);
  }

  /** The merge of the diverged branches stays open. */
  lemma DivergedMerge(r: Repo)
    requires Valid(r) && Acyclic(GraphOf(r)) && Diverged(r)
    ensures var res := MergeBranches(r, true, 0, MAIN, DEV);
            && res.Ok?
            && var s := res.value.0;
               && 4 in s.merges && s.merges[4].status == Conflicts && s.merges[4].conflicts.Keys == {PATH}
               && s.merges[4].ours == Some(2) && s.merges[4].theirs == Some(3)
               && s.merges[4].project == 0 && s.merges[4].target == MAIN
               && s.projects == {0} && s.branches == r.branches && s.commits == r.commits && s.next == 5
  {
    DivergedStates(r);
    hide Valid, MergeRules.ConflictPaths, MergeRules.ConflictRows, HeadState, FindLca, OpenMerge;
    var ours, theirs, base := TargetState(r, MAIN), TargetState(r, DEV), HeadState(r, BaseOf(r, MAIN, DEV)).value;
    var draft := Merge(0, MAIN, DEV, Some(2), Some(3), Merged, None, map[]);
    assert MergeBranches(r, true, 0, MAIN, DEV) == OpenMerge(r, true, draft, base, ours, theirs);
    hide MergeBranches, TargetState, Mergeable;
    MergeRowsAtPaths(base, ours, theirs);
    ConflictedOutcome(r, draft, base, ours, theirs);
  }

  lemma MergeRowsAtPaths(base: Tree, ours: Tree, theirs: Tree)
    ensures MergeRules.ConflictRows(base, ours, theirs).Keys == MergeRules.ConflictPaths(ours, theirs)
  {
  }

  lemma MovedRun()
    ensures Valid(Empty({0}))
    ensures var r := Run(Empty({0}), MovedCalls()); Valid(r) && Moved(r)
  {
    hide Valid, Run, MergeBranches, MakeCommit;
    var merge, commit := CallMerge(true, 0, MAIN, DEV), CallCommit(true, OneObject(MAIN, JNum(3.0)));
    var r := DivergedRun([merge] + ([commit] + []));
    assert MovedCalls() == BranchCalls() + ([CallCommit(true, OneObject(MAIN, JNum(1.0)))]
                           + ([CallCommit(true, OneObject(DEV, JNum(2.0)))] + ([merge] + ([commit] + []))));
    DivergedMerge(r);
    var s := MergeBranches(r, true, 0, MAIN, DEV).value.0;
    RunFrom(r, s, merge, [commit] + []);
    CommitOneObject(s, MAIN, JNum(3.0));
    var t := MakeCommit(s, true, commit.req).value.0;
    RunFrom(s, t, commit, []);
    RunOfNone(t);
  }

  /** Resolving the conflict now completes the merge, and commit 5 is no longer in the history of its branch. */
  lemma LateCompletionDropsCommit()
    ensures Valid(Empty({0}))
    ensures var r := Run(Empty({0}), MovedCalls());
            && MAIN in r.branches && r.branches[MAIN].head == Some(5)
            && var res := ResolveConflict(r, true, 0, 4, PATH, MergeRules.TakeOurs);
               && res.Ok? && MAIN in res.value.branches && res.value.branches[MAIN].head.Some?
               && !HistoryKept(r, res.value, 5, res.value.branches[MAIN].head.value)
  {
    MovedRun();
    MovedCompletes(Run(Empty({0}), MovedCalls()));
  }

  lemma MovedMeans(r: Repo)
    requires Moved(r)
    ensures 4 in r.merges && r.merges[4].project == 0 && r.merges[4].status == Conflicts
    ensures r.merges[4].conflicts.Keys == {PATH}
  {
  }

  lemma MovedResolves(r: Repo)
    requires Valid(r) && Moved(r)
    ensures var res := ResolveConflict(r, true, 0, 4, PATH, MergeRules.TakeOurs);
            res.Ok? && 4 in res.value.merges && res.value.merges[4].result.Some?
  {
    hide *;
    MovedMeans(r);
    MovedIsCompletable(r);
    LastResolveSucceedsIff(r, 4, PATH, MergeRules.TakeOurs);
  }

  lemma MovedCompletes(r: Repo)
    requires Valid(r) && Moved(r)
    ensures var res := ResolveConflict(r, true, 0, 4, PATH, MergeRules.TakeOurs);
            && res.Ok? && MAIN in res.value.branches && res.value.branches[MAIN].head.Some?
            && !HistoryKept(r, res.value, 5, res.value.branches[MAIN].head.value)
  {
    MovedResolves(r);
    hide Valid, HistoryKept, ResolveConflict, HeadState, InRecordedHistory, HoldsOne;
    FinalisationKeepsHistoryIff(r, true, 0, 4, PATH, MergeRules.TakeOurs);
    NewerHeadIsNotRecorded(r, r.merges[4], 5);
  }

  /** Taking our side leaves a value of a recorded head, whose version number raises nothing. */
  lemma MovedIsCompletable(r: Repo)
    requires Valid(r) && Moved(r)
    ensures HeadState(r, r.merges[4].ours).Some? && HeadState(r, r.merges[4].theirs).Some?
    ensures exists tree :: Resolves(tree, HeadState(r, r.merges[4].ours).value, HeadState(r, r.merges[4].theirs).value,
                                    ChoicesWith(r.merges[4], PATH, MergeRules.TakeOurs))
                           && !Uncommittable(r.known, tree)
  {
    hide HeadState, HiddenValue, Valid, WarningRaises, Payload, Dangles;
    HeldState(r, 2, JNum(1.0));
    HeldState(r, 3, JNum(2.0));
    NumbersRaiseNothing(r.known, 1.0);
    var tree := map[PATH := HiddenValue(JNum(1.0))];
    assert Resolves(tree, HeadState(r, r.merges[4].ours).value, HeadState(r, r.merges[4].theirs).value,
                    ChoicesWith(r.merges[4], PATH, MergeRules.TakeOurs));
  }

  lemma NumbersRaiseNothing(known: Known, n: real)
    ensures !WarningRaises(PATH, Payload(HiddenValue(JNum(n)))) && !Dangles(known, PATH, HiddenValue(JNum(n)))
  {
  }

  // ----------------------------------------------------------- scene snapshots

  /** A commit, the event of its scene snapshot published by a client, and a request for the snapshot. */
  function AnnouncedCalls(): seq<Call> {
    BranchCalls() + [CallCommit(true, OneObject(DEV, JNull)), CallAnnounce(2), CallScene(true, 0, 2, "json")]
  }

  /** The request returns as if it had succeeded, but neither now nor later is there a snapshot. */
  lemma AnnouncedSceneIsLost(calls: seq<Call>)
    ensures Valid(Empty({0}))
    ensures var r := Run(Empty({0}), AnnouncedCalls());
            && Valid(r) && 2 in r.commits && SceneSnapshot(r, true, 0, 2, "json").Ok?
            && 2 !in r.scenes && 2 !in Run(r, calls).scenes
  {
    hide Valid, Run;
    var commit, announce := CallCommit(true, OneObject(DEV, JNull)), CallAnnounce(2);
    var scene := CallScene(true, 0, 2, "json");
    assert [commit, announce, scene] == [commit] + ([announce] + ([scene] + []));
    StartRun([commit] + ([announce] + ([scene] + [])));
    CommitOneObject(Start(), DEV, JNull);
    hide MakeCommit;
    var r := MakeCommit(Start(), true, OneObject(DEV, JNull)).value.0;
    RunFrom(Start(), r, commit, [announce] + ([scene] + []));
    var s := Repository.Announce(r, 2);
    RunFrom(r, s, announce, [scene] + []);
    RunFrom(s, s, scene, []);
    RunOfNone(s);
    AnnouncedStaysBare(s, calls, 2);
  }
}
