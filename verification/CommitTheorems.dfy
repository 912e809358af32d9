/** What branches and commits hold once they are made, and which calls are let through. */
module CommitTheorems {
  import opened Wrappers
  import opened StringOrder
  import opened Hnf
  import opened CommitGraph
  import opened CommitContents
  import opened Repository

  // ------------------------------------------------------------------ branches

  /** The commit is one of the project's. */
  ghost predicate InProject(r: Repo, project: ProjectId, c: CommitId) {
    c in r.commits && r.commits[c].project == project
  }

  /** The branch is one of the project's. */
  ghost predicate OnProject(r: Repo, project: ProjectId, b: BranchId) {
    b in r.branches && r.branches[b].project == project
  }

  /** When a branch is refused, and what is there when it is not. */
  lemma BranchIsMadeIff(r: Repo, editor: bool, project: ProjectId, name: string, from: Option<CommitId>)
    ensures var res := CreateBranch(r, editor, project, name, from);
            var found := editor && project in r.projects && (from.Some? ==> InProject(r, project, from.value));
            var taken := exists b :: OnProject(r, project, b) && r.branches[b].name == name;
            && (res == Err(Forbidden) <==> !editor)
            && (res == Err(ProjectNotFound) <==> editor && project !in r.projects)
            && (res == Err(CommitNotFound) <==>
                  editor && project in r.projects && from.Some? && !InProject(r, project, from.value))
            && (res == Err(NameTaken) <==> found && taken)
            && (res.Ok? <==> found && !taken)
            && (res.Ok? ==>
                  var (s, b) := res.value;
                  && b == r.next && b in s.branches && s.branches[b] == Branch(project, name, from)
                  && s == r.(branches := r.branches[b := s.branches[b]], next := r.next + 1))
  {
    assert NameFree(r, project, name) <==> !(exists b :: OnProject(r, project, b) && r.branches[b].name == name);
  }

  // ------------------------------------------------------------------- commits

  /** The parents a request asks for: those it names, else the head of its branch. */
  ghost predicate AsksFor(r: Repo, req: CommitRequest, parents: seq<CommitId>) {
    match req.parents
    case Some(ps) => parents == ps
    case None =>
      req.branch in r.branches
      && parents == if r.branches[req.branch].head.Some? then [r.branches[req.branch].head.value] else []
  }

  /** A commit lands at the head of its branch with the parents asked for, and nothing else changes. */
  lemma CommitLands(r: Repo, editor: bool, req: CommitRequest)
    requires MakeCommit(r, editor, req).Ok?
    ensures var (s, c) := MakeCommit(r, editor, req).value;
            && c == r.next && c in s.commits && req.branch in r.branches
            && s.commits[c].project == req.project && s.commits[c].branch == req.branch
            && AsksFor(r, req, s.commits[c].parents)
            && s == r.(commits := r.commits[c := s.commits[c]],
                       branches := r.branches[req.branch := r.branches[req.branch].(head := Some(c))],
                       next := r.next + 1)
  {
    hide ParseSnapshots, TreeSnapshots, CommitTree, RowsOf, DistinctPaths;
  }

  /** The snapshot is one that the request brings: a valid one of its list, or else an object of its bare tree. */
  ghost predicate Brings(req: CommitRequest, s: Snapshot) {
    if req.snapshots != [] then
      exists i :: 0 <= i < |req.snapshots| && ValidateRaw(req.snapshots[i]) == Some(s)
    else
      IsObjectAt(req.tree, s.path) && DecodeEntry(s.path, req.tree[s.path].fields) == Some(s)
  }

  lemma {:induction false} ParsedMembers(raws: seq<RawSnapshot>, s: Snapshot)
    ensures s in ParseSnapshots(raws) <==> exists i :: 0 <= i < |raws| && ValidateRaw(raws[i]) == Some(s)
  {
    hide ValidateRaw;
    if raws != [] {
      var n := |raws| - 1;
      ParsedMembers(raws[..n], s);
      var last := ValidateRaw(raws[n]);
      assert s in ParseSnapshots(raws) <==> s in ParseSnapshots(raws[..n]) || last == Some(s);
      assert forall i | 0 <= i < n :: raws[..n][i] == raws[i];
    }
  }

  lemma {:induction false} TreeMembers(paths: seq<Path>, tree: JsonTree, s: Snapshot)
    requires forall p | p in paths :: p in tree
    requires TreeSnapshotsOver(paths, tree).Some?
    ensures s in TreeSnapshotsOver(paths, tree).value <==>
              s.path in paths && IsObjectAt(tree, s.path) && DecodeEntry(s.path, tree[s.path].fields) == Some(s)
  {
    hide DecodeEntry;
    if paths != [] {
      var n := |paths| - 1;
      TreeMembers(paths[..n], tree, s);
      assert forall p :: p in paths <==> p in paths[..n] || p == paths[n];
      if tree[paths[n]].Object? {
        EntryKeepsPath(paths[n], tree[paths[n]].fields);
      }
    }
  }

  lemma EntryKeepsPath(p: Path, f: Fields)
    ensures DecodeEntry(p, f).Some? ==> DecodeEntry(p, f).value.path == p
  {
  }

  /** The snapshots a request is parsed into, before anything is stored. */
  ghost function Parsed(req: CommitRequest): Option<seq<Snapshot>> {
    if req.snapshots != [] then Some(ParseSnapshots(req.snapshots)) else TreeSnapshots(req.tree)
  }

  lemma ParsedBrings(req: CommitRequest)
    requires Parsed(req).Some?
    ensures forall s :: s in Parsed(req).value <==> Brings(req, s)
  {
    hide ParseSnapshots, TreeSnapshotsOver, ValidateRaw, DecodeEntry;
    forall s
      ensures s in Parsed(req).value <==> Brings(req, s)
    {
      if req.snapshots != [] {
        ParsedMembers(req.snapshots, s);
      } else {
        TreeMembers(SortedPaths(req.tree.Keys), req.tree, s);
      }
    }
  }

  /** A commit has a row for each snapshot that its request brings, as its first version, and no other row. */
  lemma CommitStoresRows(r: Repo, editor: bool, req: CommitRequest)
    requires MakeCommit(r, editor, req).Ok?
    ensures var (s, c) := MakeCommit(r, editor, req).value;
            && c in s.commits
            && (forall x | Brings(req, x) :: x.path in s.commits[c].rows && s.commits[c].rows[x.path] == ToRow(x, 1))
            && (forall p | p in s.commits[c].rows :: exists x :: Brings(req, x) && x.path == p)
            && forall x, y | Brings(req, x) && Brings(req, y) && x.path == y.path :: x == y
  {
    hide ParseSnapshots, TreeSnapshots, CommitTree, RowsOf, DistinctPaths, Brings, ToRow;
    var snaps := Parsed(req).value;
    ParsedBrings(req);
    RowsAt(snaps);
    SamePathSame(snaps);
  }

  lemma SamePathSame(snaps: seq<Snapshot>)
    requires DistinctPaths(snaps)
    ensures forall x, y | x in snaps && y in snaps && x.path == y.path :: x == y
  {
  }

  // ---------------------------------------------------------- the tree of a commit

  /** The first check of a commit that fails decides the answer; when none does, the commit is made. */
  lemma CommitIsMadeIff(r: Repo, editor: bool, req: CommitRequest, parents: seq<CommitId>)
    requires OnProject(r, req.project, req.branch) ==> AsksFor(r, req, parents)
    ensures var res := MakeCommit(r, editor, req);
            var found := editor && req.project in r.projects && OnProject(r, req.project, req.branch);
            var linked := found && forall p | p in parents :: InProject(r, req.project, p);
            var readable := linked && (req.snapshots != [] || TreeReadable(req.tree));
            var warned := readable && !VersionNumStops(req);
            var stored := warned && PathsDiffer(req) && ReferencesHold(r, req);
            && (res == Err(Forbidden) <==> !editor)
            && (res == Err(ProjectNotFound) <==> editor && req.project !in r.projects)
            && (res == Err(BranchNotFound) <==> editor && req.project in r.projects && !found)
            && (res == Err(ParentCommitNotFound) <==> found && !linked)
            && (res == Err(BadTree) <==> linked && !readable)
            && (res == Err(UnreadableVersionNum) <==> readable && !warned)
            && (res == Err(ConstraintBroken) <==> warned && !stored)
            && (res == Err(DuplicateParent) <==> stored && !AllDiffer(parents))
            && (res.Ok? <==> stored && AllDiffer(parents))
  {
    hide BuildCommit, TreeReadable, VersionNumStops, PathsDiffer, ReferencesHold, AllDiffer;
    assert OnProject(r, req.project, req.branch) <==> BranchIn(r, req.project, req.branch);
    if OnProject(r, req.project, req.branch) {
      assert ParentsFor(r, req) == parents;
      assert (exists p :: p in parents && !CommitIn(r, req.project, p)) <==>
             !(forall p | p in parents :: InProject(r, req.project, p));
      CommitIsBuiltIff(r, req, parents);
    }
  }

  lemma CommitIsBuiltIff(r: Repo, req: CommitRequest, parents: seq<CommitId>)
    ensures var res := BuildCommit(r.known, req, parents);
            var readable := req.snapshots != [] || TreeReadable(req.tree);
            var warned := readable && !VersionNumStops(req);
            var stored := warned && PathsDiffer(req) && ReferencesHold(r, req);
            && (res == Err(BadTree) <==> !readable)
            && (res == Err(UnreadableVersionNum) <==> readable && !warned)
            && (res == Err(ConstraintBroken) <==> warned && !stored)
            && (res == Err(DuplicateParent) <==> stored && !AllDiffer(parents))
            && (res.Ok? <==> stored && AllDiffer(parents))
            && (res.Err? ==> res.error in {BadTree, UnreadableVersionNum, ConstraintBroken, DuplicateParent})
  {
    hide ParseSnapshots, TreeSnapshots, CommitTree, RowsOf, DistinctPaths, RootOf, AllRefer, SomeRaises, TreeReadable,
         VersionNumStops, PathsDiffer, ReferencesHold;
    BareTreeReads(req.tree);
    RaisesIff(req);
    if Parsed(req).Some? {
      PathsDifferIff(req);
      ReferencesHoldIff(r, req);
    }
  }

  ghost predicate AllDiffer(ids: seq<CommitId>) {
    forall i, j | 0 <= i < j < |ids| :: ids[i] != ids[j]
  }

  /** A listed snapshot is valid, and its version number a text with a point. */
  ghost predicate VersionNumStops(req: CommitRequest) {
    exists i :: 0 <= i < |req.snapshots| && ValidateRaw(req.snapshots[i]).Some?
                && PointText(req.snapshots[i].fields.versionNum)
  }

  predicate PointText(v: Option<Json>) {
    v.Some? && v.value.JStr? && '.' in v.value.s
  }

  /** No two valid listed snapshots share a path. */
  ghost predicate PathsDiffer(req: CommitRequest) {
    ListDiffers(req.snapshots)
  }

  ghost predicate ListDiffers(raws: seq<RawSnapshot>) {
    forall i, j | 0 <= i < j < |raws| :: ValidateRaw(raws[i]).Some? && ValidateRaw(raws[j]).Some? ==>
      ValidateRaw(raws[i]).value.path != ValidateRaw(raws[j]).value.path
  }

  /** Every snapshot that the request brings names objects and versions that exist. */
  ghost predicate ReferencesHold(r: Repo, req: CommitRequest) {
    forall x | Brings(req, x) ::
      && (x.objectId.Some? ==> x.objectId.value in r.known.objects)
      && (x.versionId.Some? ==> x.versionId.value in r.known.versions)
  }

  lemma RaisesIff(req: CommitRequest)
    ensures SomeRaises(req.snapshots) <==> VersionNumStops(req)
  {
    hide Validate;
    forall i | 0 <= i < |req.snapshots|
      ensures Raises(req.snapshots[i]) <==>
                ValidateRaw(req.snapshots[i]).Some? && PointText(req.snapshots[i].fields.versionNum)
    {
    }
  }

  lemma ReferencesHoldIff(r: Repo, req: CommitRequest)
    requires Parsed(req).Some?
    ensures AllRefer(r.known, Parsed(req).value) <==> ReferencesHold(r, req)
  {
    hide Parsed, Brings;
    ParsedBrings(req);
  }

  lemma BareTreeReads(tree: JsonTree)
    ensures TreeSnapshots(tree).Some? <==> TreeReadable(tree)
  {
    hide DecodeEntry;
    TreeReadsOver(SortedPaths(tree.Keys), tree);
  }

  lemma {:induction false} TreeReadsOver(paths: seq<Path>, tree: JsonTree)
    requires forall p | p in paths :: p in tree
    ensures TreeSnapshotsOver(paths, tree).Some? <==>
              forall p | p in paths && IsObjectAt(tree, p) :: DecodeEntry(p, tree[p].fields).Some?
  {
    hide DecodeEntry;
    if paths != [] {
      var n := |paths| - 1;
      TreeReadsOver(paths[..n], tree);
      assert forall p :: p in paths <==> p in paths[..n] || p == paths[n];
    }
  }

  /** The snapshots of a bare tree have distinct paths; those of a list do when the list says so. */
  lemma PathsDifferIff(req: CommitRequest)
    requires Parsed(req).Some?
    ensures DistinctPaths(Parsed(req).value) <==> PathsDiffer(req)
  {
    hide ParseSnapshots, TreeSnapshotsOver, DistinctPaths, ValidateRaw;
    if req.snapshots != [] {
      ListDiffersIff(req.snapshots);
    } else {
      TreeSnapshotsDistinct(SortedPaths(req.tree.Keys), req.tree);
    }
  }

  lemma {:induction false} ListDiffersIff(raws: seq<RawSnapshot>)
    ensures DistinctPaths(ParseSnapshots(raws)) <==> ListDiffers(raws)
  {
    hide ValidateRaw, DistinctPaths, HasPath, RowsOf, ListDiffers;
    if raws == [] {
      NoSnapshots(raws);
      assert raws[..0] == raws && ListDiffers(raws) by { EmptyListDiffers(); }
    } else {
      var n := |raws| - 1;
      ListDiffersIff(raws[..n]);
      NextDiffers(raws);
      if ValidateRaw(raws[n]).Some? {
        NextSnapshot(ParseSnapshots(raws[..n]), ValidateRaw(raws[n]).value);
        PathInList(raws[..n], ValidateRaw(raws[n]).value.path);
      } else {
        assert ParseSnapshots(raws) == ParseSnapshots(raws[..n]);
      }
    }
  }

  lemma EmptyListDiffers()
    ensures ListDiffers([])
  {
  }

  lemma NextDiffers(raws: seq<RawSnapshot>)
    requires raws != []
    ensures var front, last := raws[..|raws| - 1], ValidateRaw(raws[|raws| - 1]);
            ListDiffers(raws) <==>
              ListDiffers(front)
              && (last.Some? ==> !(exists i :: 0 <= i < |front| && ValidateRaw(front[i]).Some?
                                               && ValidateRaw(front[i]).value.path == last.value.path))
  {
    hide ValidateRaw;
    var front := raws[..|raws| - 1];
    assert forall i | 0 <= i < |front| :: front[i] == raws[i];
  }

  lemma PathInList(raws: seq<RawSnapshot>, p: Path)
    ensures HasPath(ParseSnapshots(raws), p) <==>
              exists i :: 0 <= i < |raws| && ValidateRaw(raws[i]).Some? && ValidateRaw(raws[i]).value.path == p
  {
    hide ValidateRaw, ParseSnapshots;
    var snaps := ParseSnapshots(raws);
    if k :| 0 <= k < |snaps| && snaps[k].path == p {
      ParsedMembers(raws, snaps[k]);
    }
    if i :| 0 <= i < |raws| && ValidateRaw(raws[i]).Some? && ValidateRaw(raws[i]).value.path == p {
      ParsedMembers(raws, ValidateRaw(raws[i]).value);
    }
  }

  /** The root a commit names: the one requested, else the path of the first snapshot it brings, if any. */
  ghost predicate Names(req: CommitRequest, root: Option<Path>) {
    if req.rootRef.Some? && req.rootRef.value != "" then root == req.rootRef
    else if !(exists x :: Brings(req, x)) then root == None
    else if req.snapshots != [] then
      exists i :: 0 <= i < |req.snapshots| && ValidateRaw(req.snapshots[i]).Some?
                  && root == Some(ValidateRaw(req.snapshots[i]).value.path)
                  && forall k | 0 <= k < i :: ValidateRaw(req.snapshots[k]).None?
    else
      root.Some? && IsObjectAt(req.tree, root.value)
      && forall p | IsObjectAt(req.tree, p) && p != root.value :: Before(root.value, p)
  }

  ghost predicate Holds(tree: JsonTree, p: Path, entry: Option<TreeEntry>) {
    if entry.Some? then p in tree && tree[p] == entry.value else p !in tree
  }

  /** Validation had something to say about a snapshot of the request. */
  ghost predicate Warns(req: CommitRequest) {
    exists i :: 0 <= i < |req.snapshots| && Warned(req.snapshots[i])
  }

  /**
   What the tree of a commit holds at a path: the warnings when there are any,
   the root when there is one, else the snapshot brought for the path, else what
   the request's own tree has there, and nothing if it has nothing.
   */
  ghost predicate TreeAt(req: CommitRequest, tree: JsonTree, root: Option<Path>, p: Path) {
    if p == "_hnf_validation_warnings" && Warns(req) then Holds(tree, p, Some(Warnings))
    else if p == "tree_root_ref" && root.Some? && root.value != "" then Holds(tree, p, Some(RootRef(root.value)))
    else
      && (forall x | Brings(req, x) && x.path == p :: Holds(tree, p, Some(Object(LegacyTreeValue(x)))))
      && (!(exists x :: Brings(req, x) && x.path == p) ==>
            Holds(tree, p, if p in req.tree then Some(req.tree[p]) else None))
  }

  /** A commit keeps the tree it was given, under its snapshots, its root and its warnings. */
  lemma CommitKeepsTree(r: Repo, editor: bool, req: CommitRequest)
    requires MakeCommit(r, editor, req).Ok?
    ensures var (s, c) := MakeCommit(r, editor, req).value;
            && c in s.commits && Names(req, s.commits[c].rootRef)
            && forall p :: TreeAt(req, s.commits[c].tree, s.commits[c].rootRef, p)
  {
    hide ParseSnapshots, TreeSnapshots, RowsOf, DistinctPaths, CommitTree, LegacyTreeValue, Warned, Names, ToRow,
         Brings, RootOf, Holds, TreeAt;
    RootIsNamed(req);
    var root := RootOf(Parsed(req).value, req.rootRef);
    forall p
      ensures TreeAt(req, CommitTree(req.tree, req.snapshots, Parsed(req).value, root), root, p)
    {
      BuiltTreeAt(req, root, p);
    }
  }

  lemma BuiltTreeAt(req: CommitRequest, root: Option<Path>, p: Path)
    requires Parsed(req).Some? && DistinctPaths(Parsed(req).value)
    ensures TreeAt(req, CommitTree(req.tree, req.snapshots, Parsed(req).value, root), root, p)
  {
    hide DistinctPaths, LegacyTreeValue, Warned, EntriesOf, ParseSnapshots, TreeSnapshots, Brings;
    ParsedBrings(req);
    EntriesAt(Parsed(req).value);
    assert SomeWarned(req.snapshots) <==> Warns(req);
  }

  lemma RootIsNamed(req: CommitRequest)
    requires Parsed(req).Some?
    ensures Names(req, RootOf(Parsed(req).value, req.rootRef))
  {
    hide ValidateRaw, DecodeEntry;
    ParsedBrings(req);
    var snaps := Parsed(req).value;
    if snaps != [] {
      assert Brings(req, snaps[0]) by { assert snaps[0] in snaps; }
      if req.snapshots != [] {
        FirstParsed(req.snapshots);
      } else {
        FirstOfTree(SortedPaths(req.tree.Keys), req.tree);
      }
    }
  }

  lemma {:induction false} FirstParsed(raws: seq<RawSnapshot>)
    requires ParseSnapshots(raws) != []
    ensures exists i :: 0 <= i < |raws| && ValidateRaw(raws[i]).Some?
                        && ValidateRaw(raws[i]).value == ParseSnapshots(raws)[0]
                        && forall k | 0 <= k < i :: ValidateRaw(raws[k]).None?
  {
    hide ValidateRaw;
    var n := |raws| - 1;
    if ParseSnapshots(raws[..n]) != [] {
      FirstParsed(raws[..n]);
    } else {
      NoneParsed(raws[..n]);
    }
  }

  lemma {:induction false} NoneParsed(raws: seq<RawSnapshot>)
    requires ParseSnapshots(raws) == []
    ensures forall k | 0 <= k < |raws| :: ValidateRaw(raws[k]).None?
  {
    hide ValidateRaw;
    if raws != [] {
      NoneParsed(raws[..|raws| - 1]);
    }
  }

  lemma {:induction false} FirstOfTree(paths: seq<Path>, tree: JsonTree)
    requires StrictlySorted(paths) && forall p | p in paths :: p in tree
    requires TreeSnapshotsOver(paths, tree).Some? && TreeSnapshotsOver(paths, tree).value != []
    ensures var first := TreeSnapshotsOver(paths, tree).value[0].path;
            && first in paths && IsObjectAt(tree, first)
            && forall p | p in paths && IsObjectAt(tree, p) && p != first :: Before(first, p)
  {
    hide DecodeEntry;
    var n := |paths| - 1;
    var front := paths[..n];
    assert forall p :: p in paths <==> p in front || p == paths[n];
    if tree[paths[n]].Object? {
      EntryKeepsPath(paths[n], tree[paths[n]].fields);
    }
    if TreeSnapshotsOver(front, tree).value != [] {
      FirstOfTree(front, tree);
      var first := TreeSnapshotsOver(front, tree).value[0].path;
      var i :| 0 <= i < n && paths[i] == first;
    } else {
      NoneOfTree(front, tree);
    }
  }

  lemma {:induction false} NoneOfTree(paths: seq<Path>, tree: JsonTree)
    requires forall p | p in paths :: p in tree
    requires TreeSnapshotsOver(paths, tree) == Some([])
    ensures forall p | p in paths :: !IsObjectAt(tree, p)
  {
    hide DecodeEntry;
    if paths != [] {
      NoneOfTree(paths[..|paths| - 1], tree);
      assert forall p :: p in paths <==> p in paths[..|paths| - 1] || p == paths[|paths| - 1];
    }
  }

  // --------------------------------------------------------- the state of a commit

  /** An object of the request's tree that the commit's own keys do not hide. */
  ghost predicate ObjectLeft(req: CommitRequest, p: Path) {
    && p in req.tree && req.tree[p].Object?
    && p != "scene_graph_snapshot" && p != "tree_root_ref" && !(p == "_hnf_validation_warnings" && Warns(req))
  }

  /** A commit whose request brings snapshots stands for their rows. */
  lemma CommitStandsForRows(r: Repo, editor: bool, req: CommitRequest, x: Snapshot)
    requires MakeCommit(r, editor, req).Ok? && Brings(req, x)
    ensures var (s, c) := MakeCommit(r, editor, req).value;
            && c in s.commits && StateOf(s.commits[c]).Some?
            && var state := StateOf(s.commits[c]).value;
               && (forall y | Brings(req, y) :: y.path in state && state[y.path] == DiffValue(ToRow(y, 1)))
               && forall p | p in state :: exists y :: Brings(req, y) && y.path == p
  {
    CommitStoresRows(r, editor, req);
    hide MakeCommit, Brings, ToRow, DiffValue;
  }

  /**
   A commit whose request brings no snapshot, though it may list invalid ones,
   stands for the objects of the request's tree; its state cannot be read exactly
   when one of them cannot.
   */
  lemma CommitStandsForTree(r: Repo, editor: bool, req: CommitRequest)
    requires MakeCommit(r, editor, req).Ok? && !(exists x :: Brings(req, x))
    ensures var (s, c) := MakeCommit(r, editor, req).value;
            && c in s.commits
            && var state := StateOf(s.commits[c]);
               && (state.None? <==> exists p :: ObjectLeft(req, p) && DecodeEntry(p, req.tree[p].fields).None?)
               && (state.Some? ==> forall p ::
                     && (p in state.value <==> ObjectLeft(req, p))
                     && (p in state.value ==>
                           state.value[p] == LegacyTreeValue(DecodeEntry(p, req.tree[p].fields).value)))
  {
    CommitStoresRows(r, editor, req);
    CommitKeepsTree(r, editor, req);
    var (s, c) := MakeCommit(r, editor, req).value;
    hide MakeCommit, Brings, Names, DecodeEntry, LegacyTreeValue, Warns;
    var tree := s.commits[c].tree;
    forall p
      ensures IsObjectAt(tree, p) <==> ObjectLeft(req, p)
      ensures IsObjectAt(tree, p) ==> tree[p] == req.tree[p]
    {
      assert TreeAt(req, tree, s.commits[c].rootRef, p);
    }
  }

  // ----------------------------------------------------- which calls are let through

  /** A head whose state cannot be read. */
  ghost predicate Unreadable(r: Repo, head: Option<CommitId>) {
    head.Some? && head.value in r.commits && StateOf(r.commits[head.value]).None?
  }

  /** When a merge is refused before anything is compared. */
  lemma MergeIsLetThroughIff(r: Repo, editor: bool, project: ProjectId, target: BranchId, source: BranchId)
    requires Acyclic(GraphOf(r))
    ensures var res := MergeBranches(r, editor, project, target, source);
            var found := editor && project in r.projects
                         && OnProject(r, project, target) && OnProject(r, project, source);
            && (!editor ==> res == Err(Forbidden))
            && (editor && project !in r.projects ==> res == Err(ProjectNotFound))
            && (editor && project in r.projects && !found ==> res == Err(BranchNotFound))
            && (found ==>
                  var ours, theirs := r.branches[target].head, r.branches[source].head;
                  Unreadable(r, ours) || Unreadable(r, theirs)
                  || (ours.Some? && theirs.Some? && Unreadable(r, FindLca(GraphOf(r), ours.value, theirs.value)))
                  ==> res == Err(BadTree))
  {
    hide OpenMerge, StateMap, FindLca;
  }

  /**
   When a resolve call is refused, and what it does while another conflict of the
   merge is open or the merge is complete: it records the choice and nothing else.
   */
  lemma ResolveIsLetThroughIff(r: Repo, editor: bool, project: ProjectId, m: MergeId, path: Path, choice: Resolution)
    ensures var res := ResolveConflict(r, editor, project, m, path, choice);
            var found := editor && project in r.projects && m in r.merges && r.merges[m].project == project
                         && path in r.merges[m].conflicts;
            && (!editor ==> res == Err(Forbidden))
            && (editor && project !in r.projects ==> res == Err(ProjectNotFound))
            && (editor && project in r.projects && !found ==> res == Err(ConflictNotFound))
            && (found && (r.merges[m].status.Merged?
                          || exists q :: q in r.merges[m].conflicts && q != path
                                         && r.merges[m].conflicts[q].resolution.None?)
                ==>
                  && res.Ok? && m in res.value.merges
                  && res.value == r.(merges := r.merges[m := r.merges[m].(conflicts := res.value.merges[m].conflicts)]))
  {
    hide MakeCommit, HeadState;
    if m in r.merges && path in r.merges[m].conflicts {
      var row := Resolved(r, m, path, choice).merges[m];
      if q :| q in r.merges[m].conflicts && q != path && r.merges[m].conflicts[q].resolution.None? {
        assert row.conflicts[q] == r.merges[m].conflicts[q];
        assert !AllResolved(row);
      }
    }
  }

  /** When a scene snapshot is refused, and the format that is recorded when it is not. */
  lemma SceneIsLetThroughIff(r: Repo, editor: bool, project: ProjectId, c: CommitId, format: string)
    ensures var res := SceneSnapshot(r, editor, project, c, format);
            && (res == Err(Forbidden) <==> !editor)
            && (res == Err(ProjectNotFound) <==> editor && project !in r.projects)
            && (res == Err(CommitNotFound) <==> editor && project in r.projects && !InProject(r, project, c))
            && (res.Ok? <==> editor && project in r.projects && InProject(r, project, c))
            && (res.Ok? && c !in r.scenes && c !in r.announced ==>
                  && c in res.value.commits && "scene_graph_snapshot" in res.value.commits[c].tree
                  && res.value.commits[c].tree["scene_graph_snapshot"] ==
                     SceneRef(r.next, if format in {"json", "glb", "octree+json"} then format else "json")
                  && res.value == r.(scenes := r.scenes[c := r.next], announced := r.announced + {c},
                                     next := r.next + 1,
                                     commits := r.commits[c := r.commits[c].(tree := res.value.commits[c].tree)]))
  {
  }

  // ------------------------------------------------- what calls leave in the tables

  /** A request for a scene snapshot of the commit that passes its checks. */
  predicate AsksForScene(r: Repo, call: Call, c: CommitId) {
    call.CallScene? && call.editor && call.project in r.projects && call.commit == c
      && c in r.commits && r.commits[c].project == call.project
  }

  /**
   Over any call, a commit gets a scene snapshot exactly by a request for it while
   the event of the snapshot is not in the log, and the event gets there by such a
   request or by a client that publishes it.
   */
  lemma SceneIsTakenIff(r: Repo, call: Call, c: CommitId)
    requires FreshAhead(r) && Acyclic(GraphOf(r)) && ScenesLinked(r)
    ensures c in Step(r, call).scenes <==> c in r.scenes || (AsksForScene(r, call, c) && c !in r.announced)
    ensures c in Step(r, call).announced <==>
              c in r.announced || AsksForScene(r, call, c) || (call == CallAnnounce(c) && c in r.commits)
  {
    hide MakeCommit, MergeBranches, ResolveConflict, NameFree, SnapshotFormat;
    if call.CallCommit? || call.CallMerge? || call.CallResolve? {
      hide Step;
      CommitsAndMergesKeepOthers(r, call);
    }
  }

  /** A call of the run adds the object. */
  ghost predicate AddsObject(calls: seq<Call>, o: Uuid) {
    exists i :: 0 <= i < |calls| && calls[i].CallRegister? && o in calls[i].objects
  }

  /** A call of the run adds the version. */
  ghost predicate AddsVersion(calls: seq<Call>, v: Uuid) {
    exists i :: 0 <= i < |calls| && calls[i].CallRegister? && v in calls[i].versions
  }

  /** Over any run, the objects and versions that a commit may name are exactly those added so far. */
  lemma {:induction false} KnownIsRegistered(r: Repo, calls: seq<Call>)
    requires Valid(r)
    ensures forall o :: o in Run(r, calls).known.objects <==> o in r.known.objects || AddsObject(calls, o)
    ensures forall v :: v in Run(r, calls).known.versions <==> v in r.known.versions || AddsVersion(calls, v)
    decreases |calls|
  {
    hide Valid, Step, AddsObject, AddsVersion;
    AddsFirstOrLater(calls);
    if calls != [] {
      ValidGraph(r);
      ValidIsFreshAhead(r);
      StepKeeps(r, calls[0]);
      StepRegisters(r, calls[0]);
      KnownIsRegistered(Step(r, calls[0]), calls[1..]);
    }
  }

  lemma AddsFirstOrLater(calls: seq<Call>)
    ensures calls == [] ==> forall o :: !AddsObject(calls, o) && !AddsVersion(calls, o)
    ensures calls != [] ==> forall o :: AddsObject(calls, o) <==>
              (calls[0].CallRegister? && o in calls[0].objects) || AddsObject(calls[1..], o)
    ensures calls != [] ==> forall v :: AddsVersion(calls, v) <==>
              (calls[0].CallRegister? && v in calls[0].versions) || AddsVersion(calls[1..], v)
  {
    if calls != [] {
      var later := calls[1..];
      assert forall i | 0 < i < |calls| :: later[i - 1] == calls[i];
      assert forall i | 0 <= i < |later| :: later[i] == calls[i + 1];
    }
  }

  lemma StepRegisters(r: Repo, call: Call)
    requires FreshAhead(r) && Acyclic(GraphOf(r))
    ensures forall o :: o in Step(r, call).known.objects <==>
                          o in r.known.objects || (call.CallRegister? && o in call.objects)
    ensures forall v :: v in Step(r, call).known.versions <==>
                          v in r.known.versions || (call.CallRegister? && v in call.versions)
  {
    if call.CallCommit? || call.CallMerge? || call.CallResolve? {
      hide Step;
      CommitsAndMergesKeepOthers(r, call);
    }
  }
}
