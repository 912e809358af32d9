/**
 Versioned objects: uploads that share storage by content hash, and the audited
 lifecycle of a version. `Store` is what a transaction boundary shows; stored
 blobs are written outside the transaction and survive a rollback.
 */
module ObjectStore {
  import opened Wrappers
  import opened Lifecycle
  import opened EventLog

  newtype Byte = x: int | 0 <= x < 256

  type Content = seq<Byte>

  /** The content hash, taken to be free of collisions. */
  datatype Digest = Sha256(of: Content)

  datatype StorageKey = StorageKey(org: nat, project: nat, obj: nat, num: nat, filename: string)

  datatype HwObject = HwObject(org: nat, project: nat, deleted: bool)

  datatype Version = Version(org: nat, obj: nat, num: nat, hash: Digest, key: StorageKey, state: State)

  datatype AuditKind = VersionAudit | TransitionAudit(from: State, to: State) | DeletionAudit

  datatype Audit = Audit(obj: nat, num: nat, what: AuditKind)

  /** Objects and versions are identified by their place in the tables. */
  datatype Tables = Tables(objects: seq<HwObject>, versions: seq<Version>, audits: seq<Audit>)

  datatype Store = Store(
    projects: map<nat, nat>,
    tables: Tables,
    log: seq<Event>,
    next: nat,
    blobs: map<StorageKey, Content>)

  datatype Error =
    | ProjectNotFound
    | ObjectNotFound
    | VersionNotFound
    | DerivedFromNotFound
    | InvalidTransition
    | Forbidden

  datatype UploadRequest = UploadRequest(
    org: nat,
    project: nat,
    content: Content,
    filename: string,
    obj: Option<nat>,
    derivedFrom: Option<nat>)

  const VERSION_CREATED := "version_created"
  const LIFECYCLE_TRANSITION := "lifecycle_transition"

  // ------------------------------------------------------------------- lookups

  /** How many versions an object has. */
  function CountOf(versions: seq<Version>, o: nat): nat {
    if versions == [] then 0
    else
      var n := |versions| - 1;
      CountOf(versions[..n], o) + if versions[n].obj == o then 1 else 0
  }

  /** The largest version number of an object, 0 when it has none. */
  function MaxNum(versions: seq<Version>, o: nat): nat {
    if versions == [] then 0
    else
      var n := |versions| - 1;
      var before := MaxNum(versions[..n], o);
      if versions[n].obj == o && versions[n].num > before then versions[n].num else before
  }

  /** The first version of the organisation with the hash. */
  function FindHash(versions: seq<Version>, org: nat, hash: Digest): (r: Option<nat>)
    ensures r.Some? ==> r.value < |versions| && versions[r.value].org == org && versions[r.value].hash == hash
    ensures r.None? ==> forall i | 0 <= i < |versions| :: versions[i].org != org || versions[i].hash != hash
  {
    if versions == [] then None
    else
      var n := |versions| - 1;
      var before := FindHash(versions[..n], org, hash);
      if before.Some? then before
      else if versions[n].org == org && versions[n].hash == hash then Some(n)
      else None
  }

  predicate ObjectIn(t: Tables, org: nat, o: nat) {
    o < |t.objects| && t.objects[o].org == org
  }

  predicate VersionIn(t: Tables, org: nat, v: nat) {
    v < |t.versions| && t.versions[v].org == org
  }

  // --------------------------------------------------------------------- steps

  /** The object and number an upload is for; a new object starts at number 1. */
  function UploadTarget(t: Tables, u: UploadRequest): (nat, nat) {
    match u.obj
    case None => (|t.objects|, 1)
    case Some(o) => (o, MaxNum(t.versions, o) + 1)
  }

  /** The key of an upload: that of a version with the same content, else a new one. */
  function UploadKey(t: Tables, u: UploadRequest): StorageKey {
    var found := FindHash(t.versions, u.org, Sha256(u.content));
    var (o, num) := UploadTarget(t, u);
    if found.Some? then t.versions[found.value].key else StorageKey(u.org, u.project, o, num, u.filename)
  }

  function UploadBlobs(s: Store, u: UploadRequest): map<StorageKey, Content> {
    if FindHash(s.tables.versions, u.org, Sha256(u.content)).Some? then s.blobs
    else s.blobs[UploadKey(s.tables, u) := u.content]
  }

  function UploadTables(t: Tables, u: UploadRequest): Tables {
    var (o, num) := UploadTarget(t, u);
    Tables(
      if u.obj.None? then t.objects + [HwObject(u.org, u.project, false)] else t.objects,
      t.versions + [Version(u.org, o, num, Sha256(u.content), UploadKey(t, u), State.Draft)],
      t.audits + [Audit(o, num, VersionAudit)])
  }

  function VersionEvent(u: UploadRequest, v: nat): EventLog.Draft {
    EventLog.Draft(None, u.org, u.project, VERSION_CREATED, VersionCreated(v))
  }

  /**
   One upload. Were its event already in the log, publishing it would roll the
   upload back; `UploadTakesEffectIff` shows that it never is.
   */
  ghost function Upload(s: Store, u: UploadRequest): (Store, Result<nat, Error>) {
    var t := s.tables;
    if u.project !in s.projects || s.projects[u.project] != u.org then (s, Err(ProjectNotFound))
    else if u.obj.Some? && !ObjectIn(t, u.org, u.obj.value) then (s, Err(ObjectNotFound))
    else
      var stored := s.(blobs := UploadBlobs(s, u));
      var v := |t.versions|;
      var event := VersionEvent(u, v);
      if u.derivedFrom.Some? && !VersionIn(t, u.org, u.derivedFrom.value) then (stored, Err(DerivedFromNotFound))
      else if Clash(s.log, event) then (stored.(next := s.next + 1), Ok(v))
      else (stored.(tables := UploadTables(t, u), log := s.log + [Row(event, s.next)], next := s.next + 1), Ok(v))
  }

  function PromoteTables(t: Tables, v: nat, to: State): Tables
    requires v < |t.versions|
  {
    var version := t.versions[v];
    t.(versions := t.versions[v := version.(state := to)],
       audits := t.audits + [Audit(version.obj, version.num, TransitionAudit(version.state, to))])
  }

  function TransitionEvent(t: Tables, v: nat, from: State, to: State): EventLog.Draft
    requires v < |t.versions| && t.versions[v].obj < |t.objects|
  {
    EventLog.Draft(None, t.versions[v].org, t.objects[t.versions[v].obj].project, LIFECYCLE_TRANSITION,
                   Transition(v, from, to))
  }

  /** Whether the object of a version is visible to its organisation and not deleted. */
  predicate Live(t: Tables, v: nat) {
    v < |t.versions| && ObjectIn(t, t.versions[v].org, t.versions[v].obj) && !t.objects[t.versions[v].obj].deleted
  }

  /**
   One lifecycle step. The result is the state the version is left in: when the
   event of the step is already in the log, publishing it rolls the step back.
   */
  ghost function Promote(s: Store, org: nat, role: Role, v: nat, to: State): (Store, Result<State, Error>) {
    var t := s.tables;
    if !VersionIn(t, org, v) then (s, Err(VersionNotFound))
    else
      var from := t.versions[v].state;
      var step := ValidateTransition(from, to);
      if step.None? then (s, Err(InvalidTransition))
      else if !RoleAtLeast(role, step.value.0) then (s, Err(Forbidden))
      else if !Live(t, v) then (s.(tables := PromoteTables(t, v, to)), Ok(to))
      else
        var event := TransitionEvent(t, v, from, to);
        if Clash(s.log, event) then (s.(next := s.next + 1), Ok(from))
        else (s.(tables := PromoteTables(t, v, to), log := s.log + [Row(event, s.next)], next := s.next + 1), Ok(to))
  }

  function SoftDelete(s: Store, org: nat, role: Role, o: nat): (Store, Result<(), Error>) {
    var t := s.tables;
    if !ObjectIn(t, org, o) || t.objects[o].deleted then (s, Err(ObjectNotFound))
    else if !RoleAtLeast(role, Admin) then (s, Err(Forbidden))
    else
      (s.(tables := t.(objects := t.objects[o := t.objects[o].(deleted := true)],
                       audits := t.audits + [Audit(o, MaxNum(t.versions, o), DeletionAudit)])), Ok(()))
  }

  predicate KeyKnown(t: Tables, key: DedupeKey) {
    key.Text? || key.version < |t.versions|
  }

  predicate IdKnown(t: Tables, id: EventId) {
    id.Derived? ==> KeyKnown(t, id.key)
  }

  /** Whether the versions that an event names exist. */
  predicate Names(t: Tables, d: EventLog.Draft) {
    KeyKnown(t, d.key) && (d.id.Some? ==> IdKnown(t, d.id.value))
  }

  /**
   An event published through the events API, with any key and id. Version ids
   are drawn at random, so a client can only name versions that exist.
   */
  ghost function PublishEvent(s: Store, d: EventLog.Draft): Store {
    if Names(s.tables, d) then s.(log := PublishTo(s.log, s.next, d), next := s.next + 1) else s
  }

  datatype Call =
    | CallUpload(u: UploadRequest)
    | CallPromote(org: nat, role: Role, version: nat, to: State)
    | CallDelete(org: nat, role: Role, obj: nat)
    | CallPublish(d: EventLog.Draft)

  ghost function Step(s: Store, call: Call): Store {
    match call
    case CallUpload(u) => Upload(s, u).0
    case CallPromote(org, role, v, to) => Promote(s, org, role, v, to).0
    case CallDelete(org, role, o) => SoftDelete(s, org, role, o).0
    case CallPublish(d) => PublishEvent(s, d)
  }

  ghost function Run(s: Store, calls: seq<Call>): Store
    decreases |calls|
  {
    if calls == [] then s else Run(Step(s, calls[0]), calls[1..])
  }

  function Empty(projects: map<nat, nat>): Store {
    Store(projects, Tables([], [], []), [], 1, map[])
  }

  // ---------------------------------------------------------------- invariants

  /** The lifecycle steps the audit log records for one version of an object, in order. */
  function Trail(audits: seq<Audit>, o: nat, num: nat): seq<Edge> {
    if audits == [] then []
    else
      var n := |audits| - 1;
      Trail(audits[..n], o, num)
      + if audits[n].obj == o && audits[n].num == num && audits[n].what.TransitionAudit?
        then [(audits[n].what.from, audits[n].what.to)] else []
  }

  function TrailOf(t: Tables, v: nat): seq<Edge>
    requires v < |t.versions|
  {
    Trail(t.audits, t.versions[v].obj, t.versions[v].num)
  }

  /** The versions of every object are numbered 1, 2, 3, ... in the order they were made. */
  ghost predicate Numbered(versions: seq<Version>) {
    forall i | 0 <= i < |versions| :: versions[i].num == CountOf(versions[..i], versions[i].obj) + 1
  }

  /** The version belongs to its object's organisation, and its key still holds its bytes. */
  ghost predicate VersionStored(t: Tables, blobs: map<StorageKey, Content>, v: Version) {
    && ObjectIn(t, v.org, v.obj)
    && v.key in blobs && Sha256(blobs[v.key]) == v.hash
    && v.key.org == v.org
    && v.key.obj < |t.objects| && 1 <= v.key.num <= CountOf(t.versions, v.key.obj)
  }

  ghost predicate SharedByHash(versions: seq<Version>) {
    forall i, j | 0 <= i < |versions| && 0 <= j < |versions|
                  && versions[i].org == versions[j].org && versions[i].hash == versions[j].hash ::
      versions[i].key == versions[j].key
  }

  /** A step of the trail has its event in the log. */
  ghost predicate HasEvent(t: Tables, log: seq<Event>, v: nat, e: Edge)
    requires v < |t.versions| && t.versions[v].obj < |t.objects|
  {
    exists i :: 0 <= i < |log| && SameKey(log[i], TransitionEvent(t, v, e.0, e.1))
  }

  /** The audited steps lead from draft to the state; on a live object each has its event, and none repeats. */
  ghost predicate TrailValid(t: Tables, log: seq<Event>, v: nat)
    requires v < |t.versions| && t.versions[v].obj < |t.objects|
  {
    && IsWalk(State.Draft, TrailOf(t, v), t.versions[v].state)
    && (Live(t, v) ==>
          (forall e | e in TrailOf(t, v) :: HasEvent(t, log, v, e)) && DistinctEdges(TrailOf(t, v)))
  }

  ghost predicate AuditsValid(t: Tables) {
    forall i | 0 <= i < |t.audits| && t.audits[i].what.TransitionAudit? ::
      t.audits[i].num <= CountOf(t.versions, t.audits[i].obj)
  }

  /** The events in the log name versions that exist. */
  ghost predicate LogKnown(t: Tables, log: seq<Event>) {
    forall i | 0 <= i < |log| :: KeyKnown(t, log[i].key) && IdKnown(t, log[i].id)
  }

  ghost predicate Valid(s: Store) {
    && s.next > 0 && EventLog.Valid(s.log, s.next)
    && LogKnown(s.tables, s.log)
    && Numbered(s.tables.versions)
    && (forall i | 0 <= i < |s.tables.versions| :: VersionStored(s.tables, s.blobs, s.tables.versions[i]))
    && SharedByHash(s.tables.versions)
    && AuditsValid(s.tables)
    && forall i | 0 <= i < |s.tables.versions| :: TrailValid(s.tables, s.log, i)
  }

  /** What no call undoes: versions keep all but their state, and deleted objects stay deleted. */
  ghost predicate Extends(s: Store, r: Store) {
    && |s.tables.versions| <= |r.tables.versions|
    && (forall i | 0 <= i < |s.tables.versions| ::
          r.tables.versions[i] == s.tables.versions[i].(state := r.tables.versions[i].state))
    && |s.tables.objects| <= |r.tables.objects|
    && (forall o | 0 <= o < |s.tables.objects| ::
          && r.tables.objects[o].org == s.tables.objects[o].org
          && r.tables.objects[o].project == s.tables.objects[o].project
          && (s.tables.objects[o].deleted ==> r.tables.objects[o].deleted))
    && s.log <= r.log
    && s.tables.audits <= r.tables.audits
  }

  // ---------------------------------------------------------- counting versions

  lemma {:induction false} NumbersStayInCount(versions: seq<Version>, i: nat)
    requires Numbered(versions) && i < |versions|
    ensures 1 <= versions[i].num <= CountOf(versions, versions[i].obj)
    ensures forall j | 0 <= j < i && versions[j].obj == versions[i].obj :: versions[j].num < versions[i].num
  {
    var n := |versions| - 1;
    assert forall k | 0 <= k < n :: versions[..n][..k] == versions[..k];
    if i < n {
      NumbersStayInCount(versions[..n], i);
    } else {
      forall j | 0 <= j < n && versions[j].obj == versions[n].obj
        ensures versions[j].num < versions[n].num
      {
        NumbersStayInCount(versions[..n], j);
      }
    }
  }

  lemma {:induction false} MaxIsCount(versions: seq<Version>, o: nat)
    requires Numbered(versions)
    ensures MaxNum(versions, o) == CountOf(versions, o)
  {
    if versions != [] {
      var n := |versions| - 1;
      assert forall k | 0 <= k < n :: versions[..n][..k] == versions[..k];
      MaxIsCount(versions[..n], o);
    }
  }

  lemma {:induction false} CountIgnoresState(a: seq<Version>, b: seq<Version>, o: nat)
    requires |a| == |b| && forall i | 0 <= i < |a| :: a[i].obj == b[i].obj
    ensures CountOf(a, o) == CountOf(b, o)
  {
    if a != [] {
      CountIgnoresState(a[..|a| - 1], b[..|b| - 1], o);
    }
  }

  lemma CountAppend(versions: seq<Version>, v: Version, o: nat)
    ensures CountOf(versions + [v], o) == CountOf(versions, o) + if v.obj == o then 1 else 0
  {
  }

  lemma {:induction false} CountOfMissing(versions: seq<Version>, o: nat)
    requires forall i | 0 <= i < |versions| :: versions[i].obj != o
    ensures CountOf(versions, o) == 0
  {
    if versions != [] {
      CountOfMissing(versions[..|versions| - 1], o);
    }
  }

  lemma TrailAppend(audits: seq<Audit>, a: Audit, o: nat, num: nat)
    ensures Trail(audits + [a], o, num) ==
            Trail(audits, o, num)
            + if a.obj == o && a.num == num && a.what.TransitionAudit? then [(a.what.from, a.what.to)] else []
  {
  }

  lemma {:induction false} TrailOfMissing(audits: seq<Audit>, o: nat, num: nat)
    requires forall i | 0 <= i < |audits| && audits[i].what.TransitionAudit? ::
               !(audits[i].obj == o && audits[i].num == num)
    ensures Trail(audits, o, num) == []
  {
    if audits != [] {
      TrailOfMissing(audits[..|audits| - 1], o, num);
    }
  }

  // ------------------------------------------------------------- uploads keep it

  /** The key an upload would write is not the key of any version. */
  lemma NewKeyIsUnused(s: Store, u: UploadRequest, i: nat)
    requires Valid(s) && i < |s.tables.versions|
    requires FindHash(s.tables.versions, u.org, Sha256(u.content)).None?
    ensures s.tables.versions[i].key != UploadKey(s.tables, u)
  {
    hide TrailValid, Clash, FindHash;
    var t := s.tables;
    var key := t.versions[i].key;
    assert VersionStored(t, s.blobs, t.versions[i]);
    MaxIsCount(t.versions, key.obj);
  }

  /** Writing the blob of an upload, even one that then fails, leaves every version's bytes in place. */
  lemma BlobsKeep(s: Store, u: UploadRequest)
    requires Valid(s)
    ensures forall i | 0 <= i < |s.tables.versions| :: VersionStored(s.tables, UploadBlobs(s, u), s.tables.versions[i])
    ensures Valid(s.(blobs := UploadBlobs(s, u)))
  {
    hide TrailValid, FindHash, UploadKey;
    var t := s.tables;
    forall i | 0 <= i < |t.versions|
      ensures VersionStored(t, UploadBlobs(s, u), t.versions[i])
    {
      assert VersionStored(t, s.blobs, t.versions[i]);
      if FindHash(t.versions, u.org, Sha256(u.content)).None? {
        NewKeyIsUnused(s, u, i);
      }
    }
  }

  /** An upload continues the numbering of its object. */
  lemma UploadNumbers(s: Store, u: UploadRequest)
    requires Valid(s)
    ensures var (o, num) := UploadTarget(s.tables, u); num == CountOf(s.tables.versions, o) + 1
  {
    hide TrailValid;
    var t := s.tables;
    if u.obj.None? {
      forall i | 0 <= i < |t.versions|
        ensures t.versions[i].obj != |t.objects|
      {
        assert VersionStored(t, s.blobs, t.versions[i]);
      }
      CountOfMissing(t.versions, |t.objects|);
    } else {
      MaxIsCount(t.versions, u.obj.value);
    }
  }

  lemma UploadKeepsNumbers(s: Store, u: UploadRequest)
    requires Valid(s)
    ensures Numbered(UploadTables(s.tables, u).versions)
    ensures AuditsValid(UploadTables(s.tables, u))
  {
    hide TrailValid, VersionStored, UploadKey, SharedByHash, MaxNum, EventLog.Valid;
    var t, t' := s.tables, UploadTables(s.tables, u);
    UploadNumbers(s, u);
    assert forall i | 0 <= i <= |t.versions| :: t'.versions[..i] == t.versions[..i];
    assert t.versions[..|t.versions|] == t.versions;
    forall i | 0 <= i < |t'.audits| && t'.audits[i].what.TransitionAudit?
      ensures t'.audits[i].num <= CountOf(t'.versions, t'.audits[i].obj)
    {
      CountAppend(t.versions, t'.versions[|t.versions|], t'.audits[i].obj);
    }
  }

  lemma UploadKeepsStored(s: Store, u: UploadRequest)
    requires Valid(s)
    requires u.obj.Some? ==> ObjectIn(s.tables, u.org, u.obj.value)
    ensures var t' := UploadTables(s.tables, u);
            && (forall i | 0 <= i < |t'.versions| :: VersionStored(t', UploadBlobs(s, u), t'.versions[i]))
            && SharedByHash(t'.versions)
  {
    hide TrailValid, Numbered, MaxNum, EventLog.Valid, AuditsValid;
    var t, t' := s.tables, UploadTables(s.tables, u);
    var n := |t.versions|;
    var added := t'.versions[n];
    UploadNumbers(s, u);
    BlobsKeep(s, u);
    var found := FindHash(t.versions, u.org, Sha256(u.content));
    forall i | 0 <= i < n
      ensures VersionStored(t', UploadBlobs(s, u), t.versions[i])
    {
      assert VersionStored(t, UploadBlobs(s, u), t.versions[i]);
      CountAppend(t.versions, added, t.versions[i].key.obj);
    }
    CountAppend(t.versions, added, added.key.obj);
    if found.Some? {
      assert VersionStored(t, s.blobs, t.versions[found.value]);
    }
    assert VersionStored(t', UploadBlobs(s, u), added);
  }

  lemma OldTrailStays(s: Store, u: UploadRequest, log: seq<Event>, i: nat)
    requires Valid(s) && s.log <= log && i < |s.tables.versions|
    ensures TrailValid(UploadTables(s.tables, u), log, i)
  {
    hide SharedByHash, MaxNum, EventLog.Valid, UploadKey, Numbered, IsWalk, DistinctEdges, HasEvent, AuditsValid;
    var t, t' := s.tables, UploadTables(s.tables, u);
    var v := t.versions[i];
    TrailAppend(t.audits, t'.audits[|t.audits|], v.obj, v.num);
    assert VersionStored(t, s.blobs, v);
    assert TrailValid(t, s.log, i);
    assert TrailOf(t', i) == TrailOf(t, i);
    forall e | e in TrailOf(t, i) && Live(t', i)
      ensures HasEvent(t', log, i, e)
    {
      EventsStay(t, t', s.log, log, i, e);
    }
  }

  /** A new version starts with no lifecycle steps, in draft. */
  lemma NewTrailIsEmpty(s: Store, u: UploadRequest, log: seq<Event>)
    requires Valid(s)
    ensures var t', n := UploadTables(s.tables, u), |s.tables.versions|;
            t'.versions[n].obj < |t'.objects| ==> TrailValid(t', log, n)
  {
    hide SharedByHash, MaxNum, EventLog.Valid, UploadKey, Numbered, VersionStored, HasEvent;
    var t, t' := s.tables, UploadTables(s.tables, u);
    var v := t'.versions[|t.versions|];
    UploadNumbers(s, u);
    TrailOfMissing(t.audits, v.obj, v.num);
    TrailAppend(t.audits, t'.audits[|t.audits|], v.obj, v.num);
  }

  lemma UploadKeepsTrails(s: Store, u: UploadRequest, log: seq<Event>)
    requires Valid(s) && s.log <= log
    ensures var t' := UploadTables(s.tables, u);
            forall i | 0 <= i < |t'.versions| && t'.versions[i].obj < |t'.objects| :: TrailValid(t', log, i)
  {
    hide Valid, MaxNum, UploadKey, TrailValid;
    var t, t' := s.tables, UploadTables(s.tables, u);
    forall i | 0 <= i < |t'.versions| && t'.versions[i].obj < |t'.objects|
      ensures TrailValid(t', log, i)
    {
      if i < |t.versions| {
        OldTrailStays(s, u, log, i);
      } else {
        NewTrailIsEmpty(s, u, log);
      }
    }
  }

  lemma UploadKeeps(s: Store, u: UploadRequest)
    requires Valid(s)
    ensures Valid(Upload(s, u).0) && Extends(s, Upload(s, u).0)
  {
    hide TrailValid, VersionStored, SharedByHash, Numbered, AuditsValid, FindHash, MaxNum, UploadBlobs, Clash,
         EventLog.Valid, UploadKey, LogKnown;
    BlobsKeep(s, u);
    LogStaysKnown(s.tables, UploadTables(s.tables, u), s.log);
    LogKeeps(s, VersionEvent(u, |s.tables.versions|));
    var t := s.tables;
    if u.project in s.projects && s.projects[u.project] == u.org && (u.obj.Some? ==> ObjectIn(t, u.org, u.obj.value)) {
      var event := VersionEvent(u, |t.versions|);
      UploadKeepsNumbers(s, u);
      UploadKeepsStored(s, u);
      UploadKeepsTrails(s, u, s.log + [Row(event, s.next)]);
      VersionsHaveObjects(UploadTables(t, u), UploadBlobs(s, u));
    }
  }

  lemma VersionsHaveObjects(t: Tables, blobs: map<StorageKey, Content>)
    ensures forall i | 0 <= i < |t.versions| && VersionStored(t, blobs, t.versions[i]) ::
              t.versions[i].obj < |t.objects|
  {
  }

  /** The log keeps naming existing versions when versions are added, and an event that names existing ones. */
  lemma LogStaysKnown(t: Tables, t': Tables, log: seq<Event>)
    requires LogKnown(t, log) && |t.versions| <= |t'.versions|
    ensures LogKnown(t', log)
    ensures forall d, number | Names(t', d) :: LogKnown(t', log + [Row(d, number)])
  {
  }

  /** The log stays valid whether a draft is appended or only its number used up. */
  lemma LogKeeps(s: Store, d: EventLog.Draft)
    requires s.next > 0 && EventLog.Valid(s.log, s.next)
    ensures EventLog.Valid(s.log, s.next + 1)
    ensures !Clash(s.log, d) ==> EventLog.Valid(s.log + [Row(d, s.next)], s.next + 1)
  {
  }

  // -------------------------------------------------------- lifecycle steps keep it

  lemma PromoteKeepsCounts(t: Tables, v: nat, to: State)
    requires v < |t.versions|
    ensures forall o :: CountOf(PromoteTables(t, v, to).versions, o) == CountOf(t.versions, o)
  {
    forall o
      ensures CountOf(PromoteTables(t, v, to).versions, o) == CountOf(t.versions, o)
    {
      CountIgnoresState(PromoteTables(t, v, to).versions, t.versions, o);
    }
  }

  lemma PromoteKeepsNumbers(t: Tables, v: nat, to: State)
    requires Numbered(t.versions) && AuditsValid(t) && v < |t.versions|
    ensures Numbered(PromoteTables(t, v, to).versions) && AuditsValid(PromoteTables(t, v, to))
  {
    var t' := PromoteTables(t, v, to);
    PromoteKeepsCounts(t, v, to);
    NumbersStayInCount(t.versions, v);
    hide CountOf;
    forall i | 0 <= i < |t'.versions|
      ensures t'.versions[i].num == CountOf(t'.versions[..i], t'.versions[i].obj) + 1
    {
      CountIgnoresState(t'.versions[..i], t.versions[..i], t.versions[i].obj);
    }
  }

  lemma PromoteKeepsVersions(s: Store, v: nat, to: State)
    requires Valid(s) && v < |s.tables.versions|
    ensures var t' := PromoteTables(s.tables, v, to);
            && Numbered(t'.versions) && SharedByHash(t'.versions) && AuditsValid(t')
            && forall i | 0 <= i < |t'.versions| :: VersionStored(t', s.blobs, t'.versions[i])
  {
    hide TrailValid, EventLog.Valid, Numbered, AuditsValid, CountOf;
    var t, t' := s.tables, PromoteTables(s.tables, v, to);
    PromoteKeepsNumbers(t, v, to);
    PromoteKeepsCounts(t, v, to);
    forall i | 0 <= i < |t'.versions|
      ensures VersionStored(t', s.blobs, t'.versions[i])
    {
      assert VersionStored(t, s.blobs, t.versions[i]);
    }
  }

  /** The new step extends the trail of the version it is taken on, and no other. */
  lemma PromoteTrails(s: Store, v: nat, to: State, i: nat)
    requires Valid(s) && v < |s.tables.versions| && i < |s.tables.versions|
    ensures TrailOf(PromoteTables(s.tables, v, to), i) ==
            if i == v then TrailOf(s.tables, i) + [(s.tables.versions[v].state, to)] else TrailOf(s.tables, i)
  {
    hide TrailValid, EventLog.Valid, VersionStored, SharedByHash, AuditsValid;
    var t, t' := s.tables, PromoteTables(s.tables, v, to);
    TrailAppend(t.audits, t'.audits[|t.audits|], t.versions[i].obj, t.versions[i].num);
    NumbersStayInCount(t.versions, v);
    NumbersStayInCount(t.versions, i);
  }

  /** On a live object a step whose event is new has not been taken before. */
  lemma NewEventIsNewEdge(t: Tables, log: seq<Event>, v: nat, e: Edge)
    requires v < |t.versions| && t.versions[v].obj < |t.objects| && TrailValid(t, log, v) && Live(t, v)
    requires e in TrailOf(t, v)
    ensures Clash(log, TransitionEvent(t, v, e.0, e.1))
  {
  }

  lemma DistinctAppend(edges: seq<Edge>, e: Edge)
    requires DistinctEdges(edges) && e !in edges
    ensures DistinctEdges(edges + [e])
  {
  }

  lemma EventsStay(t: Tables, t': Tables, log: seq<Event>, log': seq<Event>, v: nat, e: Edge)
    requires v < |t.versions| && t.versions[v].obj < |t.objects| && HasEvent(t, log, v, e) && log <= log'
    requires v < |t'.versions| && t'.versions[v].obj == t.versions[v].obj && t'.versions[v].org == t.versions[v].org
    requires t.versions[v].obj < |t'.objects|
               && t'.objects[t.versions[v].obj].project == t.objects[t.versions[v].obj].project
    ensures HasEvent(t', log', v, e)
  {
  }

  lemma PromoteKeepsTrails(s: Store, v: nat, to: State, log: seq<Event>)
    requires Valid(s) && v < |s.tables.versions| && s.log <= log
    requires ValidateTransition(s.tables.versions[v].state, to).Some?
    requires s.tables.versions[v].obj < |s.tables.objects|
    requires Live(s.tables, v) ==>
               var event := TransitionEvent(s.tables, v, s.tables.versions[v].state, to);
               !Clash(s.log, event) && log == s.log + [Row(event, s.next)]
    ensures var t' := PromoteTables(s.tables, v, to);
            forall i | 0 <= i < |t'.versions| && t'.versions[i].obj < |t'.objects| :: TrailValid(t', log, i)
  {
    hide EventLog.Valid, VersionStored, SharedByHash, AuditsValid, Numbered, IsWalk, DistinctEdges, HasEvent,
         TransitionEvent, Clash;
    var t, t' := s.tables, PromoteTables(s.tables, v, to);
    var edge := (t.versions[v].state, to);
    forall i | 0 <= i < |t'.versions| && t'.versions[i].obj < |t'.objects|
      ensures TrailValid(t', log, i)
    {
      assert TrailValid(t, s.log, i);
      PromoteTrails(s, v, to, i);
      forall e | e in TrailOf(t, i) && Live(t', i)
        ensures HasEvent(t', log, i, e)
      {
        EventsStay(t, t', s.log, log, i, e);
      }
      if i == v {
        WalkAppend(State.Draft, TrailOf(t, v), edge.0, to);
        if Live(t', v) {
          if edge in TrailOf(t, v) {
            NewEventIsNewEdge(t, s.log, v, edge);
          }
          DistinctAppend(TrailOf(t, v), edge);
          LastEvent(t, t', s.log, v, edge, s.next);
        }
      }
    }
  }

  lemma LastEvent(t: Tables, t': Tables, log: seq<Event>, v: nat, e: Edge, number: nat)
    requires v < |t.versions| && t.versions[v].obj < |t.objects| && t'.objects == t.objects
    requires v < |t'.versions| && t'.versions[v].obj == t.versions[v].obj && t'.versions[v].org == t.versions[v].org
    ensures HasEvent(t', log + [Row(TransitionEvent(t, v, e.0, e.1), number)], v, e)
  {
    var log' := log + [Row(TransitionEvent(t, v, e.0, e.1), number)];
    assert SameKey(log'[|log|], TransitionEvent(t', v, e.0, e.1));
  }

  lemma PromoteKeeps(s: Store, org: nat, role: Role, v: nat, to: State)
    requires Valid(s)
    ensures Valid(Promote(s, org, role, v, to).0) && Extends(s, Promote(s, org, role, v, to).0)
  {
    hide EventLog.Valid, VersionStored, SharedByHash, AuditsValid, Numbered, TrailValid, Clash, RoleAtLeast,
         ValidateTransition, LogKnown;
    var t := s.tables;
    if VersionIn(t, org, v) {
      LogStaysKnown(t, PromoteTables(t, v, to), s.log);
      var from := t.versions[v].state;
      assert VersionStored(t, s.blobs, t.versions[v]);
      StoredHasObject(t, s.blobs, v);
      LogKeeps(s, TransitionEvent(t, v, from, to));
      PromoteKeepsVersions(s, v, to);
      if ValidateTransition(from, to).Some? {
        var event := TransitionEvent(t, v, from, to);
        if !Live(t, v) {
          PromoteKeepsTrails(s, v, to, s.log);
        } else if !Clash(s.log, event) {
          PromoteKeepsTrails(s, v, to, s.log + [Row(event, s.next)]);
        }
        VersionsHaveObjects(PromoteTables(t, v, to), s.blobs);
      }
    }
  }

  lemma StoredHasObject(t: Tables, blobs: map<StorageKey, Content>, v: nat)
    requires v < |t.versions| && VersionStored(t, blobs, t.versions[v])
    ensures t.versions[v].obj < |t.objects|
  {
  }

  lemma DeleteKeeps(s: Store, org: nat, role: Role, o: nat)
    requires Valid(s)
    ensures Valid(SoftDelete(s, org, role, o).0) && Extends(s, SoftDelete(s, org, role, o).0)
  {
    hide EventLog.Valid, Numbered, MaxNum, IsWalk, DistinctEdges, HasEvent, TrailOf, CountOf;
    var t, t' := s.tables, SoftDelete(s, org, role, o).0.tables;
    if t' != t {
      forall i | 0 <= i < |t.versions|
        ensures VersionStored(t', s.blobs, t'.versions[i]) && TrailValid(t', s.log, i)
      {
        assert VersionStored(t, s.blobs, t.versions[i]);
        assert TrailValid(t, s.log, i);
        TrailAfterDelete(t, t', i);
        forall e | e in TrailOf(t, i) && Live(t', i)
          ensures HasEvent(t', s.log, i, e)
        {
          EventsStay(t, t', s.log, s.log, i, e);
        }
      }
    }
  }

  lemma TrailAfterDelete(t: Tables, t': Tables, i: nat)
    requires i < |t.versions| && t'.versions == t.versions
    requires |t'.audits| == |t.audits| + 1 && t'.audits == t.audits + [t'.audits[|t.audits|]]
               && t'.audits[|t.audits|].what.DeletionAudit?
    ensures TrailOf(t', i) == TrailOf(t, i)
  {
  }

  lemma PublishKeeps(s: Store, d: EventLog.Draft)
    requires Valid(s)
    ensures Valid(PublishEvent(s, d)) && Extends(s, PublishEvent(s, d))
  {
    hide EventLog.Valid, Numbered, MaxNum, IsWalk, DistinctEdges, HasEvent, TrailOf, CountOf, Clash, VersionStored,
         LogKnown, Names;
    LogKeeps(s, d);
    LogStaysKnown(s.tables, s.tables, s.log);
    var t, log := s.tables, PublishEvent(s, d).log;
    forall i | 0 <= i < |t.versions|
      ensures t.versions[i].obj < |t.objects| && TrailValid(t, log, i)
    {
      StoredHasObject(t, s.blobs, i);
      assert TrailValid(t, s.log, i);
      forall e | e in TrailOf(t, i) && Live(t, i)
        ensures HasEvent(t, log, i, e)
      {
        EventsStay(t, t, s.log, log, i, e);
      }
    }
  }

  // -------------------------------------------------------------------- all runs

  lemma StepKeeps(s: Store, call: Call)
    requires Valid(s)
    ensures Valid(Step(s, call)) && Extends(s, Step(s, call))
  {
    hide Valid, Extends, Upload, Promote, SoftDelete, PublishEvent;
    match call {
      case CallUpload(u) => UploadKeeps(s, u);
      case CallPromote(org, role, v, to) => PromoteKeeps(s, org, role, v, to);
      case CallDelete(org, role, o) => DeleteKeeps(s, org, role, o);
      case CallPublish(d) => PublishKeeps(s, d);
    }
  }

  lemma ExtendsTransitive(s: Store, r: Store, q: Store)
    requires Extends(s, r) && Extends(r, q)
    ensures Extends(s, q)
  {
  }

  lemma {:induction false} RunKeeps(s: Store, calls: seq<Call>)
    requires Valid(s)
    ensures Valid(Run(s, calls)) && Extends(s, Run(s, calls))
    decreases |calls|
  {
    hide Valid, Extends, Step;
    if calls == [] {
      ExtendsReflexive(s);
    } else {
      StepKeeps(s, calls[0]);
      RunKeeps(Step(s, calls[0]), calls[1..]);
      ExtendsTransitive(s, Step(s, calls[0]), Run(s, calls));
    }
  }

  lemma ExtendsReflexive(s: Store)
    ensures Extends(s, s)
  {
  }
}
