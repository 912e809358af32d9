/** What a commit stores: its snapshot rows and its JSON tree, built from a request. */
module CommitContents {
  import opened Wrappers
  import opened StringOrder
  import opened Hnf
  import MergeRules

  type Tree = MergeRules.Tree<Fields>

  /** A snapshot as it arrives, before validation. */
  datatype RawSnapshot = RawSnapshot(path: Field<string>, fields: Fields)

  function ValidateRaw(raw: RawSnapshot): Option<Snapshot> {
    if raw.path.Given? then Validate(raw.path.value, raw.fields) else None
  }

  /** Whether validation has something to say, about a valid snapshot too. */
  predicate Warned(raw: RawSnapshot) {
    var s := ValidateRaw(raw);
    s.None? || s.value.path == "" || s.value.hnfType == "" || (s.value.versionNum.Some? && s.value.versionNum.value < 1)
  }

  ghost predicate SomeWarned(raws: seq<RawSnapshot>) {
    exists i :: 0 <= i < |raws| && Warned(raws[i])
  }

  /** Whether collecting the warnings about a snapshot raises. */
  predicate Raises(raw: RawSnapshot) {
    raw.path.Given? && WarningRaises(raw.path.value, raw.fields)
  }

  ghost predicate SomeRaises(raws: seq<RawSnapshot>) {
    exists i :: 0 <= i < |raws| && Raises(raws[i])
  }

  /** The objects and versions that rows may refer to. */
  datatype Known = Known(objects: set<Uuid>, versions: set<Uuid>)

  predicate Refers(known: Known, objectId: Option<Uuid>, versionId: Option<Uuid>) {
    (objectId.Some? ==> objectId.value in known.objects) && (versionId.Some? ==> versionId.value in known.versions)
  }

  /** Whether the foreign keys of a snapshot's row hold. */
  predicate RefersTo(known: Known, s: Snapshot) {
    Refers(known, s.objectId, s.versionId)
  }

  ghost predicate AllRefer(known: Known, snaps: seq<Snapshot>) {
    forall s | s in snaps :: RefersTo(known, s)
  }

  /** Why storing rows fails: a version number `int()` cannot read, or a path given twice or an unknown reference. */
  datatype StoreError = VersionNumRaises | RowRefused

  /** The snapshots that validate, in order; the others are skipped. */
  function ParseSnapshots(raws: seq<RawSnapshot>): seq<Snapshot> {
    if raws == [] then []
    else
      var s := ValidateRaw(raws[|raws| - 1]);
      ParseSnapshots(raws[..|raws| - 1]) + if s.Some? then [s.value] else []
  }

  lemma ParseNext(raws: seq<RawSnapshot>, i: nat)
    requires i < |raws|
    ensures var s := ValidateRaw(raws[i]);
            ParseSnapshots(raws[..i + 1]) == ParseSnapshots(raws[..i]) + if s.Some? then [s.value] else []
  {
    hide ValidateRaw;
    assert raws[..i + 1][..i] == raws[..i];
  }

  ghost predicate DistinctPaths(snaps: seq<Snapshot>) {
    forall i, j | 0 <= i < j < |snaps| :: snaps[i].path != snaps[j].path
  }

  /** The rows of snapshots with distinct paths; each is the first version at its path. */
  function RowsOf(snaps: seq<Snapshot>): map<Path, Row> {
    if snaps == [] then map[]
    else
      var last := snaps[|snaps| - 1];
      RowsOf(snaps[..|snaps| - 1])[last.path := ToRow(last, 1)]
  }

  function EntriesOf(snaps: seq<Snapshot>): JsonTree {
    if snaps == [] then map[]
    else
      var last := snaps[|snaps| - 1];
      EntriesOf(snaps[..|snaps| - 1])[last.path := Object(LegacyTreeValue(last))]
  }

  lemma FrontPaths(snaps: seq<Snapshot>)
    requires DistinctPaths(snaps) && snaps != []
    ensures DistinctPaths(snaps[..|snaps| - 1])
    ensures forall s | s in snaps[..|snaps| - 1] :: s.path != snaps[|snaps| - 1].path
  {
  }

  lemma {:induction false} RowsAt(snaps: seq<Snapshot>)
    requires DistinctPaths(snaps)
    ensures forall s | s in snaps :: s.path in RowsOf(snaps) && RowsOf(snaps)[s.path] == ToRow(s, 1)
    ensures forall p | p in RowsOf(snaps) :: exists s :: s in snaps && s.path == p
  {
    hide ToRow, DistinctPaths;
    if snaps != [] {
      var n := |snaps| - 1;
      var front, last := snaps[..n], snaps[n];
      FrontPaths(snaps);
      RowsAt(front);
      assert forall s :: s in snaps <==> s in front || s == last;
      assert RowsOf(snaps) == RowsOf(front)[last.path := ToRow(last, 1)];
    }
  }

  lemma {:induction false} EntriesAt(snaps: seq<Snapshot>)
    requires DistinctPaths(snaps)
    ensures forall s | s in snaps :: s.path in EntriesOf(snaps)
              && EntriesOf(snaps)[s.path] == Object(LegacyTreeValue(s))
    ensures forall p | p in EntriesOf(snaps) :: exists s :: s in snaps && s.path == p
  {
    hide LegacyTreeValue, DistinctPaths;
    if snaps != [] {
      var n := |snaps| - 1;
      var front, last := snaps[..n], snaps[n];
      FrontPaths(snaps);
      EntriesAt(front);
      assert forall s :: s in snaps <==> s in front || s == last;
      assert EntriesOf(snaps) == EntriesOf(front)[last.path := Object(LegacyTreeValue(last))];
    }
  }

  lemma {:induction false} RowsAreFirstVersions(snaps: seq<Snapshot>)
    ensures forall p | p in RowsOf(snaps) :: RowsOf(snaps)[p].snapshotVersion == 1
    ensures snaps != [] ==> RowsOf(snaps) != map[]
  {
    if snaps != [] {
      RowsAreFirstVersions(snaps[..|snaps| - 1]);
      assert snaps[|snaps| - 1].path in RowsOf(snaps);
    }
  }

  ghost predicate HasPath(snaps: seq<Snapshot>, p: Path) {
    exists k :: 0 <= k < |snaps| && snaps[k].path == p
  }

  lemma NextSnapshot(snaps: seq<Snapshot>, s: Snapshot)
    ensures DistinctPaths(snaps + [s]) <==> DistinctPaths(snaps) && !HasPath(snaps, s.path)
    ensures forall p :: HasPath(snaps + [s], p) <==> HasPath(snaps, p) || p == s.path
    ensures RowsOf(snaps + [s]) == RowsOf(snaps)[s.path := ToRow(s, 1)]
  {
    hide ToRow;
    var all := snaps + [s];
    assert all[..|snaps|] == snaps && all[|snaps|] == s;
    if DistinctPaths(all) {
      forall i, j | 0 <= i < j < |snaps|
        ensures snaps[i].path != snaps[j].path
      {
        assert all[i] == snaps[i] && all[j] == snaps[j];
      }
    }
    if k :| 0 <= k < |snaps| && snaps[k].path == s.path {
      assert all[k].path == all[|snaps|].path;
    }
    forall p
      ensures HasPath(all, p) <==> HasPath(snaps, p) || p == s.path
    {
      if k :| 0 <= k < |snaps| && snaps[k].path == p {
        assert all[k].path == p;
      }
      assert all[|snaps|].path == s.path;
    }
  }

  /** The rows of a commit, or why storing them fails. */
  ghost function StoreRows(known: Known, raws: seq<RawSnapshot>): Result<map<Path, Row>, StoreError> {
    var snaps := ParseSnapshots(raws);
    if SomeRaises(raws) then Err(VersionNumRaises)
    else if !DistinctPaths(snaps) || !AllRefer(known, snaps) then Err(RowRefused)
    else Ok(RowsOf(snaps))
  }

  /**
   The loop that stores the rows. A second row at a path or a reference to an
   unknown object or version breaks a constraint when the rows are written at the end.
   */
  method PersistSnapshots(known: Known, raws: seq<RawSnapshot>) returns (stored: Result<map<Path, Row>, StoreError>)
    ensures stored == StoreRows(known, raws)
  {
    hide ToRow, ValidateRaw, DistinctPaths, RowsOf, HasPath, ParseSnapshots, Raises, RefersTo;
    var seqByPath: map<Path, nat> := map[];
    var rows: map<Path, Row> := map[];
    var duplicate, dangling := false, false;
    ghost var snaps: seq<Snapshot> := [];
    NoSnapshots(raws);
    for i := 0 to |raws|
      invariant snaps == ParseSnapshots(raws[..i])
      invariant forall k | 0 <= k < i :: !Raises(raws[k])
      invariant duplicate <==> !DistinctPaths(snaps)
      invariant dangling <==> !AllRefer(known, snaps)
      invariant forall p :: p in seqByPath <==> HasPath(snaps, p)
      invariant !duplicate ==> rows == RowsOf(snaps) && forall p | p in seqByPath :: seqByPath[p] == 1
    {
      if Raises(raws[i]) {
        return Err(VersionNumRaises);
      }
      ParseNext(raws, i);
      var s := ValidateRaw(raws[i]);
      if s.Some? {
        NextSnapshot(snaps, s.value);
        snaps := snaps + [s.value];
        var path := s.value.path;
        var prev := if path in seqByPath then seqByPath[path] else 0;
        duplicate := duplicate || path in seqByPath;
        dangling := dangling || !RefersTo(known, s.value);
        seqByPath := seqByPath[path := prev + 1];
        rows := rows[path := ToRow(s.value, prev + 1)];
      }
    }
    assert raws[..|raws|] == raws;
    return if duplicate || dangling then Err(RowRefused) else Ok(rows);
  }

  lemma NoSnapshots(raws: seq<RawSnapshot>)
    ensures ParseSnapshots(raws[..0]) == [] && DistinctPaths([]) && RowsOf([]) == map[] && forall p :: !HasPath([], p)
  {
  }

  // -------------------------------------------------------------- JSON trees

  /** The snapshots a JSON tree describes, by path; `None` when reading an entry raises. */
  function TreeSnapshotsOver(paths: seq<Path>, tree: JsonTree): Option<seq<Snapshot>>
    requires forall p | p in paths :: p in tree
  {
    if paths == [] then Some([])
    else
      var rest := TreeSnapshotsOver(paths[..|paths| - 1], tree);
      var p := paths[|paths| - 1];
      if Reserved(p) || !tree[p].Object? then rest
      else
        var s := DecodeEntry(p, tree[p].fields);
        if rest.Some? && s.Some? then Some(rest.value + [s.value]) else None
  }

  lemma TreeSnapshotsNext(paths: seq<Path>, i: nat, tree: JsonTree)
    requires i < |paths| && forall p | p in paths :: p in tree
    ensures var before, p := TreeSnapshotsOver(paths[..i], tree), paths[i];
            TreeSnapshotsOver(paths[..i + 1], tree) ==
            if Reserved(p) || !tree[p].Object? then before
            else
              var s := DecodeEntry(p, tree[p].fields);
              if before.Some? && s.Some? then Some(before.value + [s.value]) else None
  {
    hide DecodeEntry;
    assert paths[..i + 1][..i] == paths[..i];
  }

  ghost function TreeSnapshots(tree: JsonTree): Option<seq<Snapshot>> {
    TreeSnapshotsOver(SortedPaths(tree.Keys), tree)
  }

  lemma {:induction false} TreeSnapshotsDistinct(paths: seq<Path>, tree: JsonTree)
    requires StrictlySorted(paths) && forall p | p in paths :: p in tree
    requires TreeSnapshotsOver(paths, tree).Some?
    ensures DistinctPaths(TreeSnapshotsOver(paths, tree).value)
    ensures forall s | s in TreeSnapshotsOver(paths, tree).value :: s.path in paths
    ensures forall p | p in paths && IsObjectAt(tree, p) :: DecodeEntry(p, tree[p].fields).Some?
    ensures forall p | p in paths && IsObjectAt(tree, p) ::
              DecodeEntry(p, tree[p].fields).value in TreeSnapshotsOver(paths, tree).value
  {
    if paths != [] {
      var n := |paths| - 1;
      TreeSnapshotsDistinct(paths[..n], tree);
      assert forall p :: p in paths <==> p in paths[..n] || p == paths[n];
      forall q | q in paths[..n]
        ensures q != paths[n]
      {
        Irreflexive(q);
        var i :| 0 <= i < n && paths[..n][i] == q;
        assert paths[i] == q;
      }
      var before := TreeSnapshotsOver(paths[..n], tree).value;
      forall k | 0 <= k < |before|
        ensures before[k].path in paths[..n]
      {
        assert before[k] in before;
      }
    }
  }

  /** `model_dump(mode="json")`: the payload that stores a snapshot read from a tree. */
  function Dump(s: Snapshot): RawSnapshot {
    RawSnapshot(Given(s.path),
                Fields(OrNull(s.objectId), OrNull(s.versionId),
                       Some(if s.versionNum.Some? then JNum(s.versionNum.value as real) else JNull),
                       OrNull(s.contentHash), Given(s.hnfType), Absent, OrNull(s.domain), Given(s.refs),
                       OrNull(s.properties), Absent, map[]))
  }

  function DumpAll(snaps: seq<Snapshot>): seq<RawSnapshot> {
    if snaps == [] then [] else DumpAll(snaps[..|snaps| - 1]) + [Dump(snaps[|snaps| - 1])]
  }

  lemma DumpValidates(s: Snapshot)
    ensures ValidateRaw(Dump(s)) == Some(s) && !Raises(Dump(s))
  {
  }

  /** Dumping snapshots and validating them again loses none and changes none. */
  lemma {:induction false} DumpRoundTrip(snaps: seq<Snapshot>)
    ensures ParseSnapshots(DumpAll(snaps)) == snaps && !SomeRaises(DumpAll(snaps))
  {
    hide Dump, ValidateRaw, Raises;
    if snaps != [] {
      var front, last := snaps[..|snaps| - 1], snaps[|snaps| - 1];
      DumpValidates(last);
      DumpRoundTrip(front);
      assert DumpAll(snaps)[..|DumpAll(snaps)| - 1] == DumpAll(front);
    }
  }

  /** The path a commit names as its root: the requested one, else its first snapshot's. */
  function RootOf(snaps: seq<Snapshot>, rootRef: Option<Path>): Option<Path> {
    if rootRef.Some? && rootRef.value != "" then rootRef
    else if snaps != [] then Some(snaps[0].path)
    else None
  }

  function WithRoot(tree: JsonTree, root: Option<Path>): JsonTree {
    if root.Some? && root.value != "" then tree[ROOT_KEY := RootRef(root.value)] else tree
  }

  /** The JSON tree of a commit; entries of the request that clash with a snapshot lose. */
  ghost function CommitTree(tree: JsonTree, raws: seq<RawSnapshot>, snaps: seq<Snapshot>,
                            root: Option<Path>): JsonTree
  {
    var full := tree + WithRoot(EntriesOf(snaps), root);
    if raws != [] && SomeWarned(raws) then full[WARNINGS_KEY := Warnings] else full
  }

  /** The loops that build the JSON tree of a commit. */
  method BuildTree(tree: JsonTree, raws: seq<RawSnapshot>, snaps: seq<Snapshot>, root: Option<Path>)
    returns (built: JsonTree)
    ensures built == CommitTree(tree, raws, snaps, root)
  {
    hide LegacyTreeValue, Warned;
    built := map[];
    for i := 0 to |snaps|
      invariant built == EntriesOf(snaps[..i])
    {
      assert snaps[..i + 1][..i] == snaps[..i];
      built := built[snaps[i].path := Object(LegacyTreeValue(snaps[i]))];
    }
    assert snaps[..|snaps|] == snaps;
    built := WithRoot(built, root);
    ghost var legacy := built;
    var rest := tree.Keys;
    while rest != {}
      invariant rest <= tree.Keys
      invariant built.Keys == legacy.Keys + (tree.Keys - rest)
      invariant forall p | p in built :: built[p] == if p in legacy then legacy[p] else tree[p]
      decreases rest
    {
      var k :| k in rest;
      if k !in built {
        built := built[k := tree[k]];
      }
      rest := rest - {k};
    }
    assert built == tree + legacy;
    var warned := false;
    for i := 0 to |raws|
      invariant warned <==> exists k :: 0 <= k < i && Warned(raws[k])
    {
      if Warned(raws[i]) {
        warned := true;
      }
    }
    if warned {
      built := built[WARNINGS_KEY := Warnings];
    }
  }

  // ---------------------------------------------------------- what is stored

  /** The paths at which the JSON tree of a commit may hold something else than its snapshot. */
  predicate Claimed(path: Path) {
    Reserved(path) || path == WARNINGS_KEY
  }

  /**
   In a commit built from snapshots with distinct paths, the row and the JSON
   entry at every unclaimed path decode to the same object exactly when the
   type is non-empty and the properties do not hold a version number.
   */
  lemma RepresentationsAgree(tree: JsonTree, raws: seq<RawSnapshot>, snaps: seq<Snapshot>, root: Option<Path>,
                             s: Snapshot)
    requires DistinctPaths(snaps) && s in snaps && !Claimed(s.path)
    ensures var p, rows, full := s.path, RowsOf(snaps), CommitTree(tree, raws, snaps, root);
            && p in rows && p in full && full[p].Object?
            && (RowObject(p, rows[p]) == EntryObject(p, full[p].fields)
                <==> s.hnfType != "" && VERSION_NUM !in PropsOf(s))
  {
    hide ToRow, LegacyTreeValue, RowObject, EntryObject, RowsOf, EntriesOf;
    RowsAt(snaps);
    EntriesAt(snaps);
    RowAndEntryAgree(s, 1);
  }

  /** The payloads a merge commits, one for each path of the merged tree. */
  ghost function PayloadsOver(paths: seq<Path>, tree: Tree): seq<RawSnapshot>
    requires forall p | p in paths :: p in tree
  {
    seq(|paths|, i requires 0 <= i < |paths| => RawSnapshot(Given(paths[i]), Payload(tree[paths[i]])))
  }

  ghost function Payloads(tree: Tree): seq<RawSnapshot> {
    PayloadsOver(SortedPaths(tree.Keys), tree)
  }

  lemma NextPayload(paths: seq<Path>, i: nat, tree: Tree)
    requires i < |paths| && forall p | p in paths :: p in tree
    ensures PayloadsOver(paths[..i + 1], tree) ==
            PayloadsOver(paths[..i], tree) + [RawSnapshot(Given(paths[i]), Payload(tree[paths[i]]))]
  {
  }

  method BuildPayloads(tree: Tree) returns (raws: seq<RawSnapshot>)
    ensures raws == Payloads(tree)
  {
    var paths := SortPaths(tree.Keys);
    raws := [];
    assert PayloadsOver(paths[..0], tree) == [];
    hide Payload, PayloadsOver;
    for i := 0 to |paths|
      invariant raws == PayloadsOver(paths[..i], tree)
    {
      NextPayload(paths, i, tree);
      raws := raws + [RawSnapshot(Given(paths[i]), Payload(tree[paths[i]]))];
    }
    assert paths[..|paths|] == paths;
  }

  /** What is left of a tree once its payloads are validated and stored as rows. */
  function Stored(tree: Tree): Tree {
    map p | p in tree && StoredValue(p, tree[p]).Some? :: StoredValue(p, tree[p]).value
  }

  /** Some value is valid, and its version number a text with a point: storing the tree's payloads raises. */
  ghost predicate Raising(tree: Tree) {
    exists p :: p in tree && WarningRaises(p, Payload(tree[p]))
  }

  /** The value is valid and names an unknown object or version. */
  predicate Dangles(known: Known, p: Path, f: Fields) {
    var s := Validate(p, Payload(f));
    s.Some? && !RefersTo(known, s.value)
  }

  /** Some value names an unknown object or version: storing the tree's payloads breaks a foreign key. */
  ghost predicate Dangling(known: Known, tree: Tree) {
    exists p :: p in tree && Dangles(known, p, tree[p])
  }

  ghost predicate Uncommittable(known: Known, tree: Tree) {
    Raising(tree) || Dangling(known, tree)
  }

  lemma PayloadsDangleIff(known: Known, tree: Tree)
    ensures AllRefer(known, ParseSnapshots(Payloads(tree))) <==> !Dangling(known, tree)
  {
    hide Validate, Payload, ParseSnapshots, RefersTo;
    var paths := SortedPaths(tree.Keys);
    ParsePayloads(paths, tree);
    forall p | p in tree
      ensures p in paths
    {
    }
    var snaps := ParseSnapshots(Payloads(tree));
    if AllRefer(known, snaps) {
      forall p | p in tree
        ensures !Dangles(known, p, tree[p])
      {
      }
    } else {
      var s :| s in snaps && !RefersTo(known, s);
      assert Dangles(known, s.path, tree[s.path]);
    }
  }

  lemma PayloadsRaiseIff(tree: Tree)
    ensures SomeRaises(Payloads(tree)) <==> Raising(tree)
  {
    hide Payload, WarningRaises;
    var paths, raws := SortedPaths(tree.Keys), Payloads(tree);
    if p :| p in tree && WarningRaises(p, Payload(tree[p])) {
      assert p in paths;
      var i :| 0 <= i < |paths| && paths[i] == p;
      assert Raises(raws[i]);
    }
  }

  lemma {:induction false} ParsePayloads(paths: seq<Path>, tree: Tree)
    requires StrictlySorted(paths) && forall p | p in paths :: p in tree
    ensures var snaps := ParseSnapshots(PayloadsOver(paths, tree));
            && DistinctPaths(snaps)
            && (forall s | s in snaps :: s.path in paths && Validate(s.path, Payload(tree[s.path])) == Some(s))
            && forall p | p in paths && Validate(p, Payload(tree[p])).Some? ::
                 Validate(p, Payload(tree[p])).value in snaps
  {
    hide Validate, Payload, ParseSnapshots, PayloadsOver;
    if paths == [] {
      NoPayloads(tree);
    } else {
      var n := |paths| - 1;
      var front, p := paths[..n], paths[n];
      ParsePayloads(front, tree);
      ParseLastPayload(paths, tree);
      assert forall q :: q in paths <==> q in front || q == p;
      forall q | q in front
        ensures q != p
      {
        Irreflexive(q);
        var i :| 0 <= i < n && front[i] == q;
        assert paths[i] == q;
      }
      var before := ParseSnapshots(PayloadsOver(front, tree));
      forall k | 0 <= k < |before|
        ensures before[k].path in front
      {
        assert before[k] in before;
      }
    }
  }

  lemma NoPayloads(tree: Tree)
    ensures ParseSnapshots(PayloadsOver([], tree)) == []
  {
  }

  lemma ParseLastPayload(paths: seq<Path>, tree: Tree)
    requires paths != [] && forall p | p in paths :: p in tree
    ensures var n := |paths| - 1;
            var s := Validate(paths[n], Payload(tree[paths[n]]));
            && ParseSnapshots(PayloadsOver(paths, tree)) ==
               ParseSnapshots(PayloadsOver(paths[..n], tree)) + (if s.Some? then [s.value] else [])
            && (s.Some? ==> s.value.path == paths[n])
  {
    hide Validate, Payload, ParseSnapshots;
    var n := |paths| - 1;
    var raws := PayloadsOver(paths, tree);
    assert raws[..n] == PayloadsOver(paths[..n], tree);
    assert raws[..n + 1] == raws;
    ParseNext(raws, n);
    if Validate(paths[n], Payload(tree[paths[n]])).Some? {
      ValidateKeepsPath(paths[n], Payload(tree[paths[n]]));
    }
  }

  /** The state read back from a commit of a tree's payloads. */
  lemma StoredReadsBack(tree: Tree)
    ensures var raws := Payloads(tree);
            var snaps := ParseSnapshots(raws);
            && DistinctPaths(snaps)
            && StateMap(RowsOf(snaps), CommitTree(map[], raws, snaps, RootOf(snaps, None))) == Some(Stored(tree))
  {
    hide ToRow, DiffValue, Validate, Payload, LegacyTreeValue, DecodeEntry, ParseSnapshots, StateMap, CommitTree,
         RowsOf;
    var paths := SortedPaths(tree.Keys);
    var raws := Payloads(tree);
    var snaps := ParseSnapshots(raws);
    var rows := RowsOf(snaps);
    ParsePayloads(paths, tree);
    RowsAt(snaps);
    RowsAreFirstVersions(snaps);
    forall p
      ensures p in rows <==> p in Stored(tree)
      ensures p in rows ==> DiffValue(rows[p]) == Stored(tree)[p]
    {
      if p in tree && Validate(p, Payload(tree[p])).Some? {
        assert p in paths;
        ValidateKeepsPath(p, Payload(tree[p]));
      }
    }
    if snaps == [] {
      EmptyCommitState(raws);
    }
    StateFromRows(rows, CommitTree(map[], raws, snaps, RootOf(snaps, None)), Stored(tree));
  }

  lemma EmptyCommitState(raws: seq<RawSnapshot>)
    ensures StateMap(map[], CommitTree(map[], raws, [], None)) == Some(map[])
  {
  }

  lemma StateFromRows(rows: map<Path, Row>, full: JsonTree, state: Tree)
    requires rows != map[] || StateMap(rows, full) == Some(state)
    requires forall p :: p in rows <==> p in state
    requires forall p | p in rows :: DiffValue(rows[p]) == state[p]
    ensures StateMap(rows, full) == Some(state)
  {
    hide DiffValue;
    if rows != map[] {
      assert StateMap(rows, full).value == state;
    }
  }

  lemma ValidateKeepsPath(p: Path, f: Fields)
    requires Validate(p, f).Some?
    ensures Validate(p, f).value.path == p
  {
  }

  /**
   The state read back from a commit of a tree's payloads is the tree itself
   exactly when every value is one that rows decode to and has a version number
   that is null or a whole number.
   */
  lemma StoredIsTreeIff(tree: Tree)
    ensures Stored(tree) == tree <==> forall p | p in tree :: FromRow(tree[p]) && Plain(tree[p].versionNum)
  {
    hide FromRow, StoredValue, Plain;
    forall p | p in tree
      ensures StoredValue(p, tree[p]) == Some(tree[p]) <==> FromRow(tree[p]) && Plain(tree[p].versionNum)
    {
      StoredUnchangedIff(p, tree[p]);
    }
    if Stored(tree) == tree {
      forall p | p in tree
        ensures StoredValue(p, tree[p]) == Some(tree[p])
      {
        assert p in Stored(tree);
      }
    }
  }

  /**
   For values read from snapshot rows, the entries with an unusable version
   number are dropped, those with an integer text come back with the number, and
   all others come back as they are.
   */
  lemma StoredFromRows(tree: Tree)
    requires forall p | p in tree :: FromRow(tree[p])
    ensures Stored(tree) == map p | p in tree && !BadVersionNum(tree[p].versionNum) :: Coerced(tree[p])
    ensures forall p | p in tree && Plain(tree[p].versionNum) :: Coerced(tree[p]) == tree[p]
  {
    hide FromRow, StoredValue, Coerced, BadVersionNum, Plain;
    forall p | p in tree
      ensures StoredValue(p, tree[p]) ==
              if BadVersionNum(tree[p].versionNum) then None else Some(Coerced(tree[p]))
      ensures Plain(tree[p].versionNum) ==> Coerced(tree[p]) == tree[p]
    {
      RowValueStored(p, tree[p]);
    }
  }

  lemma RowValueStored(p: Path, f: Fields)
    requires FromRow(f)
    ensures StoredValue(p, f) == if BadVersionNum(f.versionNum) then None else Some(Coerced(f))
    ensures Plain(f.versionNum) ==> Coerced(f) == f
  {
    hide FromRow, Coerced;
    PayloadRoundTrip(p, f);
  }
}
