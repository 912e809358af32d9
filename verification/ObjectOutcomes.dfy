/** Who may make which call on an object, and what is in the tables and in the log afterwards. */
module ObjectOutcomes {
  import opened Wrappers
  import opened Lifecycle
  import opened EventLog
  import opened ObjectStore
  import ObjectTheorems

  // ------------------------------------------------------------ lifecycle steps

  /** The event that a step of a version writes, with the id derived from it. */
  function StepEvent(t: Tables, v: nat, from: State, to: State, number: nat): Event
    requires v < |t.versions| && t.versions[v].obj < |t.objects|
  {
    var org, project := t.versions[v].org, t.objects[t.versions[v].obj].project;
    var key := EventLog.Transition(v, from, to);
    Event(number, Derived(org, project, "lifecycle_transition", key), org, project, "lifecycle_transition", key)
  }

  /** An event that the unique constraints of the log allow. */
  ghost predicate IsNew(log: seq<Event>, e: Event) {
    forall i | 0 <= i < |log| ::
      log[i].id != e.id && (log[i].org, log[i].project, log[i].kind, log[i].key) != (e.org, e.project, e.kind, e.key)
  }

  /** The object of the version exists in its organisation and is not deleted. */
  predicate HasLiveObject(t: Tables, v: nat)
    requires v < |t.versions|
  {
    var o := t.versions[v].obj;
    o < |t.objects| && t.objects[o].org == t.versions[v].org && !t.objects[o].deleted
  }

  /**
   A step is taken exactly when the version is one of the organisation's, the
   role may take it from the state the version is in and, on a live object, its
   event is new. Then the version has the new state, the step is audited, and on
   a live object its event is in the log; otherwise nothing changes.
   */
  lemma StepIsTakenIff(s: Store, org: nat, role: Role, v: nat, to: State)
    requires ObjectStore.Valid(s)
    ensures var (r, res) := Promote(s, org, role, v, to);
            var t := s.tables;
            if !(v < |t.versions| && t.versions[v].org == org) then res == Err(VersionNotFound) && r == s
            else
              var version := t.versions[v];
              && version.obj < |t.objects|
              && if !IsStep(version.state, to) then res == Err(InvalidTransition) && r == s
                 else if !MayStep(role, version.state, to) then res == Err(Forbidden) && r == s
                 else
                   var event := StepEvent(t, v, version.state, to, s.next);
                   if HasLiveObject(t, v) && !IsNew(s.log, event) then
                     res == Ok(version.state) && r == s.(next := s.next + 1)
                   else
                     && res == Ok(to)
                     && r.tables == Tables(t.objects, t.versions[v := version.(state := to)],
                                           t.audits + [Audit(version.obj, version.num,
                                                             TransitionAudit(version.state, to))])
                     && r.log == (if HasLiveObject(t, v) then s.log + [event] else s.log)
                     && r.projects == s.projects && r.blobs == s.blobs
  {
    hide EventLog.Valid, Numbered, SharedByHash, AuditsValid, TrailValid, MayStep, RoleAtLeast, ValidateTransition;
    if VersionIn(s.tables, org, v) {
      assert VersionStored(s.tables, s.blobs, s.tables.versions[v]);
      var from := s.tables.versions[v].state;
      TableIsMayStep(role, from, to);
      var d, event := TransitionEvent(s.tables, v, from, to), StepEvent(s.tables, v, from, to, s.next);
      assert Clash(s.log, d) <==> !IsNew(s.log, event);
    }
  }

  /** A version changes its state only by a step of its organisation that the caller's role may take. */
  lemma StateChangesByRole(s: Store, call: Call, v: nat)
    requires ObjectStore.Valid(s) && v < |s.tables.versions|
    ensures var r := Step(s, call);
            && v < |r.tables.versions|
            && (r.tables.versions[v].state != s.tables.versions[v].state ==>
                  && call.CallPromote? && call.version == v && call.org == s.tables.versions[v].org
                  && call.to == r.tables.versions[v].state
                  && MayStep(call.role, s.tables.versions[v].state, r.tables.versions[v].state))
  {
    hide ObjectStore.Valid, Promote, MayStep, FindHash, MaxNum, UploadKey, UploadBlobs, Clash;
    if call.CallPromote? {
      StepIsTakenIff(s, call.org, call.role, call.version, call.to);
    }
  }

  // ------------------------------------------------------------------- deletion

  /** An object is deleted exactly by an admin of its organisation, once; its versions stay as they are. */
  lemma ObjectIsDeletedIff(s: Store, org: nat, role: Role, o: nat)
    requires ObjectStore.Valid(s)
    ensures var (r, res) := SoftDelete(s, org, role, o);
            var t := s.tables;
            if !(o < |t.objects| && t.objects[o].org == org && !t.objects[o].deleted) then
              res == Err(ObjectNotFound) && r == s
            else if role != Admin then res == Err(Forbidden) && r == s
            else
              && res == Ok(())
              && r == s.(tables := Tables(t.objects[o := HwObject(org, t.objects[o].project, true)], t.versions,
                                          t.audits + [Audit(o, CountOf(t.versions, o), DeletionAudit)]))
  {
    hide EventLog.Valid, SharedByHash, AuditsValid, TrailValid, VersionStored;
    MaxIsCount(s.tables.versions, o);
  }

  /** No other call deletes an object, and none brings one back or moves it. */
  lemma ObjectsStay(s: Store, call: Call, o: nat)
    requires o < |s.tables.objects|
    ensures var r := Step(s, call);
            && o < |r.tables.objects|
            && r.tables.objects[o].org == s.tables.objects[o].org
            && r.tables.objects[o].project == s.tables.objects[o].project
            && (s.tables.objects[o].deleted ==> r.tables.objects[o].deleted)
            && (r.tables.objects[o].deleted && !s.tables.objects[o].deleted ==>
                  call.CallDelete? && call.obj == o && call.role == Admin && call.org == s.tables.objects[o].org)
  {
    hide FindHash, MaxNum, UploadKey, UploadBlobs, Clash, ValidateTransition;
  }

  // -------------------------------------------------------------------- uploads

  /** A version of the organisation with the same content. */
  ghost predicate HasContent(t: Tables, org: nat, content: Content) {
    exists i :: 0 <= i < |t.versions| && t.versions[i].org == org && t.versions[i].hash == Sha256(content)
  }

  /** Where an upload's content is stored: with an earlier version of the same content, else under a key of its own. */
  ghost predicate StoredAt(t: Tables, u: UploadRequest, o: nat, num: nat, key: StorageKey) {
    && (forall i | 0 <= i < |t.versions| && t.versions[i].org == u.org && t.versions[i].hash == Sha256(u.content) ::
          key == t.versions[i].key)
    && (!HasContent(t, u.org, u.content) ==> key == StorageKey(u.org, u.project, o, num, u.filename))
  }

  /** The store after an upload that passes its checks: draft version, object if new, audit row, event and blob. */
  ghost function Uploaded(s: Store, u: UploadRequest, o: nat, num: nat, key: StorageKey): Store {
    var t, v := s.tables, |s.tables.versions|;
    var event := Event(s.next, Derived(u.org, u.project, "version_created", VersionCreated(v)),
                       u.org, u.project, "version_created", VersionCreated(v));
    BlobStored(s, u, key).(
      tables := Tables(if u.obj.None? then t.objects + [HwObject(u.org, u.project, false)] else t.objects,
                       t.versions + [Version(u.org, o, num, Sha256(u.content), key, State.Draft)],
                       t.audits + [Audit(o, num, VersionAudit)]),
      log := s.log + [event],
      next := s.next + 1)
  }

  /** The store with the content written, unless it is there already. */
  ghost function BlobStored(s: Store, u: UploadRequest, key: StorageKey): Store {
    if HasContent(s.tables, u.org, u.content) then s else s.(blobs := s.blobs[key := u.content])
  }

  /**
   What an upload leaves: on success a draft version with the next number of its
   object, the object itself when it is a new one, their audit row and event, and
   the blob unless the content was there; on failure nothing, or only the blob.
   */
  lemma UploadLeaves(s: Store, u: UploadRequest) returns (key: StorageKey)
    requires ObjectStore.Valid(s)
    ensures var t := s.tables;
            var o := if u.obj.Some? then u.obj.value else |t.objects|;
            var num := CountOf(t.versions, o) + 1;
            && StoredAt(t, u, o, num, key)
            && Upload(s, u) ==
               if !(u.project in s.projects && s.projects[u.project] == u.org) then (s, Err(ProjectNotFound))
               else if u.obj.Some? && !(o < |t.objects| && t.objects[o].org == u.org) then (s, Err(ObjectNotFound))
               else if u.derivedFrom.Some?
                       && !(u.derivedFrom.value < |t.versions| && t.versions[u.derivedFrom.value].org == u.org) then
                 (BlobStored(s, u, key), Err(DerivedFromNotFound))
               else (Uploaded(s, u, o, num, key), Ok(|t.versions|))
  {
    hide EventLog.Valid, AuditsValid, TrailValid, VersionStored, LogKnown, Clash, FindHash, CountOf, MaxNum, Numbered;
    key := UploadKey(s.tables, u);
    UploadNumbers(s, u);
    ObjectTheorems.NewVersionEventIsNew(s, u);
    KeyIsStoredAt(s, u);
    NewObjectHasNoVersions(s);
  }

  lemma KeyIsStoredAt(s: Store, u: UploadRequest)
    requires ObjectStore.Valid(s)
    ensures var (o, num) := UploadTarget(s.tables, u); StoredAt(s.tables, u, o, num, UploadKey(s.tables, u))
    ensures FindHash(s.tables.versions, u.org, Sha256(u.content)).Some? <==> HasContent(s.tables, u.org, u.content)
  {
    hide EventLog.Valid, AuditsValid, TrailValid, VersionStored, LogKnown, CountOf, MaxNum, Numbered;
  }

  lemma NewObjectHasNoVersions(s: Store)
    requires ObjectStore.Valid(s)
    ensures CountOf(s.tables.versions, |s.tables.objects|) == 0
  {
    hide EventLog.Valid, AuditsValid, TrailValid, LogKnown, Numbered;
    forall i | 0 <= i < |s.tables.versions|
      ensures s.tables.versions[i].obj != |s.tables.objects|
    {
      assert VersionStored(s.tables, s.blobs, s.tables.versions[i]);
    }
    CountOfMissing(s.tables.versions, |s.tables.objects|);
  }

  // ----------------------------------------------------------------- publishing

  /** The row of an event as a client publishes it; without an id of its own it gets the one derived from its key. */
  function RowOf(d: EventLog.Draft, number: nat): Event {
    Event(number, if d.id.Some? then d.id.value else Derived(d.org, d.project, d.kind, d.key),
          d.org, d.project, d.kind, d.key)
  }

  /** Publishing appends the event exactly when its id and its organisation, project, kind and key are new. */
  lemma PublishAppendsIff(s: Store, d: EventLog.Draft)
    requires ObjectStore.Names(s.tables, d)
    ensures PublishEvent(s, d) ==
            s.(next := s.next + 1, log := if IsNew(s.log, RowOf(d, s.next)) then s.log + [RowOf(d, s.next)] else s.log)
  {
    assert Clash(s.log, d) <==> !IsNew(s.log, RowOf(d, s.next));
  }

  /** Where every id is derived, only an event of the same organisation, project, kind and key refuses another. */
  lemma DerivedIdsRefuseNothingMore(log: seq<Event>, d: EventLog.Draft)
    requires d.id.None?
    requires forall e | e in log :: e.id == Derived(e.org, e.project, e.kind, e.key)
    ensures Clash(log, d) <==>
              exists e :: e in log && e.org == d.org && e.project == d.project && e.kind == d.kind && e.key == d.key
  {
    if e :| e in log && e.org == d.org && e.project == d.project && e.kind == d.kind && e.key == d.key {
      var i :| 0 <= i < |log| && log[i] == e;
    }
  }

  // ------------------------------------------------------ steps published ahead

  /** The event of a lifecycle step of a version, as a client may publish it. */
  function StepDraft(t: Tables, v: nat, from: State, to: State): EventLog.Draft
    requires v < |t.versions| && t.versions[v].obj < |t.objects|
  {
    EventLog.Draft(None, t.versions[v].org, t.objects[t.versions[v].obj].project, "lifecycle_transition",
                   EventLog.Transition(v, from, to))
  }

  /** The event of a step is in the log, and the version has not taken the step. */
  ghost predicate Forestalled(s: Store, v: nat, from: State, to: State) {
    && v < |s.tables.versions| && s.tables.versions[v].obj < |s.tables.objects|
    && Clash(s.log, StepDraft(s.tables, v, from, to)) && (from, to) !in TrailOf(s.tables, v)
  }

  lemma ClashStays(s: Store, r: Store, v: nat, from: State, to: State)
    requires Extends(s, r) && v < |s.tables.versions| && s.tables.versions[v].obj < |s.tables.objects|
    requires Clash(s.log, StepDraft(s.tables, v, from, to))
    ensures Clash(r.log, StepDraft(r.tables, v, from, to))
  {
    var d := StepDraft(s.tables, v, from, to);
    var i :| 0 <= i < |s.log| && (s.log[i].id == EventLog.IdOf(d) || EventLog.SameKey(s.log[i], d));
    assert r.log[i] == s.log[i];
  }

  /** A call adds at most one step to a version's trail, and on a live object only one whose event is new. */
  lemma TrailAfterStep(s: Store, call: Call, v: nat, from: State, to: State)
    requires ObjectStore.Valid(s) && Live(s.tables, v) && v < |Step(s, call).tables.versions|
    requires (from, to) in TrailOf(Step(s, call).tables, v) && (from, to) !in TrailOf(s.tables, v)
    ensures !Clash(s.log, StepDraft(s.tables, v, from, to))
  {
    hide ObjectStore.Valid, Trail, Clash, FindHash, MaxNum, UploadKey, UploadBlobs, ValidateTransition, RoleAtLeast;
    var t, t' := s.tables, Step(s, call).tables;
    StepKeeps(s, call);
    var o, num := t.versions[v].obj, t.versions[v].num;
    assert t'.versions[v].obj == o && t'.versions[v].num == num;
    if |t'.audits| == |t.audits| + 1 {
      TrailAppend(t.audits, t'.audits[|t.audits|], o, num);
    }
    if call.CallPromote? && t' != t {
      PromoteTrails(s, call.version, call.to, v);
    }
  }

  lemma ForestalledStays(s: Store, call: Call, v: nat, from: State, to: State)
    requires ObjectStore.Valid(s) && Forestalled(s, v, from, to) && Live(Step(s, call).tables, v)
    ensures Forestalled(Step(s, call), v, from, to)
  {
    hide ObjectStore.Valid, Step, Clash, StepDraft, TrailOf;
    StepKeeps(s, call);
    ObjectTheorems.LiveBefore(s, Step(s, call), v);
    ClashStays(s, Step(s, call), v, from, to);
    if (from, to) in TrailOf(Step(s, call).tables, v) {
      TrailAfterStep(s, call, v, from, to);
    }
  }

  lemma {:induction false} ForestalledForGood(s: Store, calls: seq<Call>, v: nat, from: State, to: State)
    requires ObjectStore.Valid(s) && Forestalled(s, v, from, to) && Live(Run(s, calls).tables, v)
    ensures (from, to) !in TrailOf(Run(s, calls).tables, v)
    decreases |calls|
  {
    hide ObjectStore.Valid, Extends, Step, Live, TrailOf, Clash, StepDraft;
    if calls != [] {
      var next := Step(s, calls[0]);
      StepKeeps(s, calls[0]);
      RunKeeps(next, calls[1..]);
      assert v < |next.tables.versions| by { StepKeepsVersions(s, calls[0]); }
      ObjectTheorems.LiveBefore(next, Run(next, calls[1..]), v);
      ForestalledStays(s, calls[0], v, from, to);
      ForestalledForGood(next, calls[1..], v, from, to);
    }
  }

  lemma StepKeepsVersions(s: Store, call: Call)
    requires ObjectStore.Valid(s)
    ensures |s.tables.versions| <= |Step(s, call).tables.versions|
  {
    hide ObjectStore.Valid, Step;
    StepKeeps(s, call);
  }

  /**
   A step of a live object whose event a client publishes before it is taken is
   never taken: in every later run the refused event rolls it back.
   */
  lemma PublishedStepIsNeverTaken(s: Store, calls: seq<Call>, v: nat, from: State, to: State)
    requires ObjectStore.Valid(s) && v < |s.tables.versions| && s.tables.versions[v].obj < |s.tables.objects|
    requires (from, to) !in TrailOf(s.tables, v)
    ensures var r := Run(s, [CallPublish(StepDraft(s.tables, v, from, to))] + calls);
            Live(r.tables, v) ==> (from, to) !in TrailOf(r.tables, v)
  {
    hide ObjectStore.Valid, Extends, TrailOf, Live;
    var publish := CallPublish(StepDraft(s.tables, v, from, to));
    StepKeeps(s, publish);
    assert ([publish] + calls)[1..] == calls;
    var next := Step(s, publish);
    assert Forestalled(next, v, from, to) by { PublishForestalls(s, v, from, to); }
    hide Step, Forestalled;
    assert Run(s, [publish] + calls) == Run(next, calls);
    if Live(Run(next, calls).tables, v) {
      ForestalledForGood(next, calls, v, from, to);
    }
  }

  lemma PublishForestalls(s: Store, v: nat, from: State, to: State)
    requires v < |s.tables.versions| && s.tables.versions[v].obj < |s.tables.objects|
    requires (from, to) !in TrailOf(s.tables, v)
    ensures Forestalled(Step(s, CallPublish(StepDraft(s.tables, v, from, to))), v, from, to)
  {
    hide TrailOf;
    var d := StepDraft(s.tables, v, from, to);
    if !Clash(s.log, d) {
      var r := Step(s, CallPublish(d));
      assert r.log[|s.log|] == EventLog.Row(d, s.next);
    }
  }
}
