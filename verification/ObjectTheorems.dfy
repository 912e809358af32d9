/** What the object store guarantees in every run of calls. */
module ObjectTheorems {
  import opened Wrappers
  import opened Lifecycle
  import opened EventLog
  import opened ObjectStore

  lemma EmptyIsValid(projects: map<nat, nat>)
    ensures ObjectStore.Valid(Empty(projects))
  {
  }

  /**
   In every run, failed uploads included: an object's versions are numbered
   1, 2, 3, ... in the order they were made; each version's key holds the bytes
   it was uploaded with; two versions of an organisation share a key exactly
   when their hashes agree, and versions of different organisations never do.
   */
  lemma EveryRunStoresVersions(projects: map<nat, nat>, calls: seq<Call>)
    ensures var s := Run(Empty(projects), calls);
            var versions := s.tables.versions;
            && (forall i | 0 <= i < |versions| ::
                  && versions[i].num == CountOf(versions[..i], versions[i].obj) + 1
                  && versions[i].key in s.blobs && Sha256(s.blobs[versions[i].key]) == versions[i].hash)
            && forall i, j | 0 <= i < |versions| && 0 <= j < |versions| ::
                 versions[i].key == versions[j].key <==>
                   versions[i].org == versions[j].org && versions[i].hash == versions[j].hash
  {
    hide Run, TrailValid, EventLog.Valid, AuditsValid;
    EmptyIsValid(projects);
    RunKeeps(Empty(projects), calls);
    var s := Run(Empty(projects), calls);
    var versions := s.tables.versions;
    forall i, j | 0 <= i < |versions| && 0 <= j < |versions|
      ensures versions[i].key == versions[j].key <==>
                versions[i].org == versions[j].org && versions[i].hash == versions[j].hash
    {
      assert VersionStored(s.tables, s.blobs, versions[i]) && VersionStored(s.tables, s.blobs, versions[j]);
    }
  }

  /** Whether an upload passes its checks. */
  predicate UploadAllowed(s: Store, u: UploadRequest) {
    && u.project in s.projects && s.projects[u.project] == u.org
    && (u.obj.Some? ==> ObjectIn(s.tables, u.org, u.obj.value))
    && (u.derivedFrom.Some? ==> VersionIn(s.tables, u.org, u.derivedFrom.value))
  }

  /** The event of a version that is yet to be made is not in the log. */
  lemma NewVersionEventIsNew(s: Store, u: UploadRequest)
    requires ObjectStore.Valid(s)
    ensures !Clash(s.log, VersionEvent(u, |s.tables.versions|))
  {
    hide EventLog.Valid, Numbered, SharedByHash, AuditsValid, TrailValid, VersionStored;
  }

  /**
   After any run, whatever clients publish: an upload succeeds exactly when it
   passes its checks, and then its object, version, audit row and event are there.
   */
  lemma UploadTakesEffectIff(projects: map<nat, nat>, calls: seq<Call>, u: UploadRequest)
    ensures var s := Run(Empty(projects), calls);
            var (r, res) := Upload(s, u);
            && (res.Ok? <==> UploadAllowed(s, u))
            && (res.Ok? ==>
                  && res.value == |s.tables.versions| && r.tables == UploadTables(s.tables, u)
                  && r.log == s.log + [Row(VersionEvent(u, res.value), s.next)])
            && (res.Err? ==> r.tables == s.tables && r.log == s.log)
  {
    hide Run, ObjectStore.Valid, Clash, UploadTables, UploadBlobs;
    EmptyIsValid(projects);
    RunKeeps(Empty(projects), calls);
    NewVersionEventIsNew(Run(Empty(projects), calls), u);
  }

  /** An upload that succeeds makes a version that keeps its number, hash, key and bytes through every later run. */
  lemma UploadIsForGood(s: Store, u: UploadRequest, calls: seq<Call>)
    requires ObjectStore.Valid(s) && Upload(s, u).1.Ok?
    ensures var (after, v) := (Upload(s, u).0, Upload(s, u).1.value);
            var r := Run(after, calls);
            && v < |r.tables.versions|
            && r.tables.versions[v].num == UploadTarget(s.tables, u).1
            && r.tables.versions[v].obj == UploadTarget(s.tables, u).0
            && r.tables.versions[v].hash == Sha256(u.content)
            && r.tables.versions[v].key in r.blobs && r.blobs[r.tables.versions[v].key] == u.content
  {
    hide Run, TrailValid, EventLog.Valid, AuditsValid, Numbered, SharedByHash, FindHash, MaxNum, UploadKey,
         UploadBlobs, Clash;
    NewVersionEventIsNew(s, u);
    UploadKeeps(s, u);
    RunKeeps(Upload(s, u).0, calls);
    var r := Run(Upload(s, u).0, calls);
    var v := Upload(s, u).1.value;
    assert VersionStored(r.tables, r.blobs, r.tables.versions[v]);
  }

  // ----------------------------------------------------------------- lifecycle

  /** The audited steps of every version lead through the table from draft to its state. */
  lemma EveryTrailIsAWalk(s: Store, v: nat)
    requires ObjectStore.Valid(s) && v < |s.tables.versions|
    ensures IsWalk(State.Draft, TrailOf(s.tables, v), s.tables.versions[v].state)
    ensures s.tables.versions[v].state == Released || s.tables.versions[v].state == Obsolete ==>
              (InReview, Approved) in TrailOf(s.tables, v)
    ensures Live(s.tables, v) ==> |TrailOf(s.tables, v)| <= 5
  {
    hide EventLog.Valid, AuditsValid, Numbered, SharedByHash;
    assert VersionStored(s.tables, s.blobs, s.tables.versions[v]);
    assert TrailValid(s.tables, s.log, v);
    var trail, state := TrailOf(s.tables, v), s.tables.versions[v].state;
    if state == Released || state == Obsolete {
      ReleasedWasApproved(trail, state);
    }
    if Live(s.tables, v) {
      DistinctWalkIsShort(State.Draft, trail, state);
    }
  }

  /**
   A step commits its state and its audit row together, or nothing at all. One
   that takes effect is in the log exactly when the object is live; on a live
   object state, audit row and event thus stand or fall together.
   */
  lemma StepIsAllOrNothing(s: Store, org: nat, role: Role, v: nat, to: State)
    requires ObjectStore.Valid(s)
    ensures var (r, res) := Promote(s, org, role, v, to);
            || (r.tables == s.tables && r.log == s.log && res != Ok(to))
            || (&& res == Ok(to) && VersionIn(s.tables, org, v) && s.tables.versions[v].obj < |s.tables.objects|
                && r.tables == PromoteTables(s.tables, v, to)
                && r.tables.versions[v].state == to != s.tables.versions[v].state
                && var event := TransitionEvent(s.tables, v, s.tables.versions[v].state, to);
                   r.log == s.log + if Live(s.tables, v) then [Row(event, s.next)] else [])
  {
    hide EventLog.Valid, Numbered, SharedByHash, AuditsValid, TrailValid, Clash, RoleAtLeast, ValidateTransition;
    if VersionIn(s.tables, org, v) {
      assert VersionStored(s.tables, s.blobs, s.tables.versions[v]);
      if ValidateTransition(s.tables.versions[v].state, to).Some? {
        NoLoops(s.tables.versions[v].state, to);
      }
    }
  }

  lemma NoLoops(from: State, to: State)
    requires ValidateTransition(from, to).Some?
    ensures from != to
  {
  }

  /**
   A step takes effect exactly when the table allows it, the role suffices and,
   on a live object, the log does not hold its event yet.
   */
  lemma StepTakesEffectIff(s: Store, role: Role, v: nat, to: State)
    requires ObjectStore.Valid(s) && v < |s.tables.versions|
    ensures var org, from := s.tables.versions[v].org, s.tables.versions[v].state;
            Promote(s, org, role, v, to).1 == Ok(to)
            <==> ValidateTransition(from, to).Some? && RoleAtLeast(role, ValidateTransition(from, to).value.0)
                 && (Live(s.tables, v) ==> !Clash(s.log, TransitionEvent(s.tables, v, from, to)))
  {
  }

  /** No step is taken twice on a live object. */
  lemma NoSecondTime(s: Store, role: Role, v: nat, to: State)
    requires ObjectStore.Valid(s) && Live(s.tables, v)
    requires (s.tables.versions[v].state, to) in TrailOf(s.tables, v)
    ensures Promote(s, s.tables.versions[v].org, role, v, to).1 != Ok(to)
    ensures Promote(s, s.tables.versions[v].org, role, v, to).0.tables == s.tables
  {
    hide EventLog.Valid, AuditsValid, Numbered, SharedByHash, Clash, TransitionEvent;
    assert VersionStored(s.tables, s.blobs, s.tables.versions[v]);
    assert TrailValid(s.tables, s.log, v);
    NewEventIsNewEdge(s.tables, s.log, v, (s.tables.versions[v].state, to));
    EveryTrailIsAWalk(s, v);
    WalkStaysInTable(State.Draft, TrailOf(s.tables, v), s.tables.versions[v].state);
    NoLoops(s.tables.versions[v].state, to);
  }

  lemma {:induction false} TrailPrefix(a: seq<Audit>, b: seq<Audit>, o: nat, num: nat)
    requires a <= b
    ensures Trail(a, o, num) <= Trail(b, o, num)
    decreases |b|
  {
    if |a| < |b| {
      assert a <= b[..|b| - 1];
      TrailPrefix(a, b[..|b| - 1], o, num);
    } else {
      assert a == b;
    }
  }

  lemma TrailGrows(s: Store, r: Store, v: nat)
    requires ObjectStore.Extends(s, r) && v < |s.tables.versions|
    ensures forall e | e in TrailOf(s.tables, v) :: e in TrailOf(r.tables, v)
  {
    TrailPrefix(s.tables.audits, r.tables.audits, s.tables.versions[v].obj, s.tables.versions[v].num);
  }

  // ------------------------------------------------- when a step takes effect

  /** Every lifecycle step that the log names was taken. */
  ghost predicate LogFollowsTrails(s: Store) {
    forall i | 0 <= i < |s.log| :: EventFollows(s.tables, s.log[i])
  }

  ghost predicate KeyFollows(t: Tables, key: DedupeKey) {
    key.Transition? ==> key.version < |t.versions| && (key.from, key.to) in TrailOf(t, key.version)
  }

  ghost predicate EventFollows(t: Tables, e: Event) {
    KeyFollows(t, e.key) && (e.id.Derived? ==> KeyFollows(t, e.id.key))
  }

  /** Whether a client publishes an event with the key of a lifecycle step, or with the id derived from one. */
  predicate NamesStep(call: Call) {
    call.CallPublish? &&
    (call.d.key.Transition? || (call.d.id.Some? && call.d.id.value.Derived? && call.d.id.value.key.Transition?))
  }

  lemma EventStillFollows(s: Store, r: Store, e: Event)
    requires ObjectStore.Extends(s, r) && EventFollows(s.tables, e)
    ensures EventFollows(r.tables, e)
  {
    if e.key.Transition? {
      TrailGrows(s, r, e.key.version);
    }
    if e.id.Derived? && e.id.key.Transition? {
      TrailGrows(s, r, e.id.key.version);
    }
  }

  /** A call adds at most one event: of a new version, of a step just taken, or one that names no step. */
  lemma OwnEvent(s: Store, call: Call, e: Event)
    requires ObjectStore.Valid(s) && !NamesStep(call) && e in Step(s, call).log && e !in s.log
    ensures EventFollows(Step(s, call).tables, e)
  {
    hide ObjectStore.Extends, Clash, RoleAtLeast, FindHash, MaxNum, UploadKey, UploadBlobs, ValidateTransition, TrailOf;
    if call.CallPromote? {
      PromoteTrails(s, call.version, call.to, call.version);
    }
  }

  lemma OwnStepKeepsLog(s: Store, call: Call)
    requires ObjectStore.Valid(s) && LogFollowsTrails(s) && !NamesStep(call)
    ensures LogFollowsTrails(Step(s, call))
  {
    hide ObjectStore.Valid, ObjectStore.Extends, Step, EventFollows, NamesStep;
    StepKeeps(s, call);
    var r := Step(s, call);
    forall i | 0 <= i < |r.log|
      ensures EventFollows(r.tables, r.log[i])
    {
      if r.log[i] in s.log {
        EventStillFollows(s, r, r.log[i]);
      } else {
        OwnEvent(s, call, r.log[i]);
      }
    }
  }

  lemma {:induction false} OwnRunKeepsLog(s: Store, calls: seq<Call>)
    requires ObjectStore.Valid(s) && LogFollowsTrails(s) && forall c | c in calls :: !NamesStep(c)
    ensures ObjectStore.Valid(Run(s, calls)) && LogFollowsTrails(Run(s, calls))
    decreases |calls|
  {
    hide ObjectStore.Valid, ObjectStore.Extends, Step, LogFollowsTrails, NamesStep;
    if calls != [] {
      StepKeeps(s, calls[0]);
      OwnStepKeepsLog(s, calls[0]);
      OwnRunKeepsLog(Step(s, calls[0]), calls[1..]);
    }
  }

  lemma ClashIsTaken(s: Store, v: nat, from: State, to: State)
    requires ObjectStore.Valid(s) && LogFollowsTrails(s) && Live(s.tables, v)
    ensures Clash(s.log, TransitionEvent(s.tables, v, from, to)) <==> (from, to) in TrailOf(s.tables, v)
  {
    hide EventLog.Valid, Numbered, SharedByHash, AuditsValid, TrailOf;
    assert VersionStored(s.tables, s.blobs, s.tables.versions[v]) && TrailValid(s.tables, s.log, v);
    if (from, to) in TrailOf(s.tables, v) {
      NewEventIsNewEdge(s.tables, s.log, v, (from, to));
    }
    var event := TransitionEvent(s.tables, v, from, to);
    if i :| 0 <= i < |s.log| && (s.log[i].id == IdOf(event) || SameKey(s.log[i], event)) {
      assert EventFollows(s.tables, s.log[i]);
    }
  }

  /**
   After any run in which no client publishes the event of a lifecycle step: a
   step on a live object takes effect exactly when the role may take it and the
   version has not taken it before.
   */
  lemma OwnStepTakesEffectIff(projects: map<nat, nat>, calls: seq<Call>, role: Role, v: nat, to: State)
    requires forall c | c in calls :: !NamesStep(c)
    requires Live(Run(Empty(projects), calls).tables, v)
    ensures var s := Run(Empty(projects), calls);
            var org, from := s.tables.versions[v].org, s.tables.versions[v].state;
            Promote(s, org, role, v, to).1 == Ok(to)
            <==> MayStep(role, from, to) && (from, to) !in TrailOf(s.tables, v)
  {
    hide Run, ObjectStore.Valid, TrailOf, MayStep, ValidateTransition, RoleAtLeast, TransitionEvent, Clash,
         EventFollows;
    EmptyIsValid(projects);
    OwnRunKeepsLog(Empty(projects), calls);
    var s := Run(Empty(projects), calls);
    ClashIsTaken(s, v, s.tables.versions[v].state, to);
    StepTakesEffectIff(s, role, v, to);
    TableIsMayStep(role, s.tables.versions[v].state, to);
  }

  // ---------------------------------------------------------------- rejections

  /** The version was rejected and is back in draft. */
  ghost predicate Rejected(s: Store, v: nat) {
    v < |s.tables.versions| && s.tables.versions[v].state == State.Draft
      && (InReview, State.Draft) in TrailOf(s.tables, v)
  }

  lemma LiveBefore(s: Store, r: Store, v: nat)
    requires ObjectStore.Valid(s) && ObjectStore.Extends(s, r) && v < |s.tables.versions| && Live(r.tables, v)
    ensures Live(s.tables, v)
  {
  }

  /** Only a promotion of the version itself changes its state, and only along the table. */
  lemma StateChangesByPromotion(s: Store, call: Call, v: nat)
    requires v < |s.tables.versions|
    ensures var r := Step(s, call);
            && v < |r.tables.versions|
            && (r.tables.versions[v].state != s.tables.versions[v].state ==>
                  && call.CallPromote? && call.version == v && call.org == s.tables.versions[v].org
                  && ValidateTransition(s.tables.versions[v].state, call.to).Some?)
  {
    hide Clash, RoleAtLeast, FindHash, MaxNum, UploadKey, UploadBlobs, ValidateTransition;
  }

  lemma RejectedStepStays(s: Store, call: Call, v: nat)
    requires ObjectStore.Valid(s) && Rejected(s, v) && Live(Step(s, call).tables, v)
    ensures Rejected(Step(s, call), v)
  {
    hide ObjectStore.Valid, ObjectStore.Extends, TrailOf, Live;
    var r := Step(s, call);
    StepKeeps(s, call);
    LiveBefore(s, r, v);
    TrailGrows(s, r, v);
    StateChangesByPromotion(s, call, v);
    if r.tables.versions[v].state != State.Draft {
      EveryTrailIsAWalk(s, v);
      LeavingDraftIsSubmitting(TrailOf(s.tables, v), State.Draft);
      OnlySubmitLeavesDraft(call.to);
      NoSecondTime(s, call.role, v, InReview);
    }
  }

  lemma OnlySubmitLeavesDraft(to: State)
    requires ValidateTransition(State.Draft, to).Some?
    ensures to == InReview
  {
  }

  /**
   Taking the submit step again after a rejection never succeeds: a rejected
   version of a live object stays in draft through every run, because the event
   of its first submission is still in the log.
   */
  lemma {:induction false} RejectedStaysInDraft(s: Store, calls: seq<Call>, v: nat)
    requires ObjectStore.Valid(s) && Rejected(s, v) && Live(Run(s, calls).tables, v)
    ensures Run(s, calls).tables.versions[v].state == State.Draft
    decreases |calls|
  {
    hide ObjectStore.Valid, ObjectStore.Extends, Step, Live, TrailOf;
    if calls != [] {
      var next := Step(s, calls[0]);
      StepKeeps(s, calls[0]);
      RunKeeps(next, calls[1..]);
      StateChangesByPromotion(s, calls[0], v);
      LiveBefore(next, Run(next, calls[1..]), v);
      RejectedStepStays(s, calls[0], v);
      RejectedStaysInDraft(next, calls[1..], v);
    } else {
      LiveHasVersion(s.tables, v);
    }
  }

  /** Upload, submit, reject: the calls that bring a version there. */
  function RejectingCalls(): seq<Call> {
    [CallUpload(UploadRequest(0, 0, [], "board.kicad_pcb", None, None)),
     CallPromote(0, Editor, 0, InReview),
     CallPromote(0, Approver, 0, State.Draft)]
  }

  function FirstKey(): StorageKey {
    StorageKey(0, 0, 0, 1, "board.kicad_pcb")
  }

  /** The store whose one version is in the state, with the audit rows and events of the steps it took. */
  function OneVersion(state: State, edges: seq<Edge>): Store {
    Store(map[0 := 0],
          Tables([HwObject(0, 0, false)], [Version(0, 0, 1, Sha256([]), FirstKey(), state)],
                 [Audit(0, 1, VersionAudit)] + seq(|edges|, i requires 0 <= i < |edges| =>
                                                     Audit(0, 1, TransitionAudit(edges[i].0, edges[i].1)))),
          [Row(EventLog.Draft(None, 0, 0, VERSION_CREATED, VersionCreated(0)), 1)]
          + seq(|edges|, i requires 0 <= i < |edges| =>
                  Row(EventLog.Draft(None, 0, 0, LIFECYCLE_TRANSITION,
                                     EventLog.Transition(0, edges[i].0, edges[i].1)), i + 2)),
          |edges| + 2,
          map[FirstKey() := []])
  }

  lemma FirstUpload()
    ensures Step(Empty(map[0 := 0]), RejectingCalls()[0]) == OneVersion(State.Draft, [])
  {
  }

  /** A step that is not among those taken is taken. */
  lemma NextStep(edges: seq<Edge>, from: State, role: Role, to: State)
    requires (from, to) !in edges && ValidateTransition(from, to).Some?
    requires RoleAtLeast(role, ValidateTransition(from, to).value.0)
    ensures Step(OneVersion(from, edges), CallPromote(0, role, 0, to)) == OneVersion(to, edges + [(from, to)])
  {
    hide RoleAtLeast, ValidateTransition;
    var s, t := OneVersion(from, edges), OneVersion(to, edges + [(from, to)]);
    var event := TransitionEvent(s.tables, 0, from, to);
    assert !Clash(s.log, event);
    assert t.log == s.log + [Row(event, s.next)];
    assert t.tables == PromoteTables(s.tables, 0, to);
  }

  lemma RunOfThree(s: Store, a: Call, b: Call, c: Call)
    ensures Run(s, [a, b, c]) == Step(Step(Step(s, a), b), c)
  {
    hide Step;
    assert [a, b, c][1..] == [b, c] && [b, c][1..] == [c] && [c][1..] == [];
    assert Run(Step(s, a), [b, c]) == Run(Step(Step(s, a), b), [c]);
  }

  lemma RejectedRun()
    ensures Run(Empty(map[0 := 0]), RejectingCalls())
         == OneVersion(State.Draft, [(State.Draft, InReview), (InReview, State.Draft)])
  {
    hide Step, OneVersion;
    var calls := RejectingCalls();
    FirstUpload();
    NextStep([], State.Draft, Editor, InReview);
    assert [] + [(State.Draft, InReview)] == [(State.Draft, InReview)];
    NextStep([(State.Draft, InReview)], InReview, Approver, State.Draft);
    assert [(State.Draft, InReview)] + [(InReview, State.Draft)] == [(State.Draft, InReview), (InReview, State.Draft)];
    RunOfThree(Empty(map[0 := 0]), calls[0], calls[1], calls[2]);
  }

  lemma {:induction false} OneVersionTrail(state: State, edges: seq<Edge>)
    ensures TrailOf(OneVersion(state, edges).tables, 0) == edges
  {
    var audits := OneVersion(state, edges).tables.audits;
    if edges == [] {
      assert audits == [Audit(0, 1, VersionAudit)];
      assert Trail([], 0, 1) == [];
    } else {
      var n := |edges| - 1;
      OneVersionTrail(state, edges[..n]);
      assert audits[..|audits| - 1] == OneVersion(state, edges[..n]).tables.audits;
    }
  }

  /** A rejected version of a live object cannot be submitted again. */
  lemma RejectedCannotBeSubmitted(s: Store, role: Role, v: nat)
    requires ObjectStore.Valid(s) && Rejected(s, v) && Live(s.tables, v)
    ensures Promote(s, s.tables.versions[v].org, role, v, InReview).0.tables == s.tables
  {
    hide ObjectStore.Valid, TrailOf, Live;
    EveryTrailIsAWalk(s, v);
    LeavingDraftIsSubmitting(TrailOf(s.tables, v), State.Draft);
    NoSecondTime(s, role, v, InReview);
  }

  /**
   There is such a version: it is uploaded, submitted and rejected, and then,
   whatever calls follow, submitting it again takes no effect.
   */
  lemma RejectionIsReached(role: Role, calls: seq<Call>)
    ensures var s := Run(Empty(map[0 := 0]), RejectingCalls());
            && ObjectStore.Valid(s) && Rejected(s, 0) && Live(s.tables, 0)
            && var r := Run(s, calls);
               Live(r.tables, 0) ==> r.tables.versions[0].state == State.Draft
                                     && Promote(r, 0, role, 0, InReview).0.tables == r.tables
  {
    hide Run, ObjectStore.Valid, Promote;
    EmptyIsValid(map[0 := 0]);
    RunKeeps(Empty(map[0 := 0]), RejectingCalls());
    RejectedRun();
    OneVersionTrail(State.Draft, [(State.Draft, InReview), (InReview, State.Draft)]);
    var s := Run(Empty(map[0 := 0]), RejectingCalls());
    assert Rejected(s, 0);
    RunKeeps(s, calls);
    var r := Run(s, calls);
    if Live(r.tables, 0) {
      RejectedStaysInDraft(s, calls, 0);
      TrailGrows(s, r, 0);
      RejectedCannotBeSubmitted(r, role, 0);
    }
  }

  /** Upload, delete the object, submit: the step is taken and audited, and no event tells of it. */
  lemma DeletedStepIsUnlogged()
    ensures var s := Run(Empty(map[0 := 0]), [RejectingCalls()[0], CallDelete(0, Admin, 0), RejectingCalls()[1]]);
            && ObjectStore.Valid(s) && |s.tables.versions| == 1 && s.tables.versions[0].state == InReview
            && TrailOf(s.tables, 0) == [(State.Draft, InReview)]
            && forall e | e in s.log :: !e.key.Transition?
  {
    hide ObjectStore.Valid;
    var upload, delete, submit := RejectingCalls()[0], CallDelete(0, Admin, 0), RejectingCalls()[1];
    EmptyIsValid(map[0 := 0]);
    RunKeeps(Empty(map[0 := 0]), [upload, delete, submit]);
    RunOfThree(Empty(map[0 := 0]), upload, delete, submit);
    FirstUpload();
    hide Step, Run;
    StepsAfterDeletion();
  }

  lemma StepsAfterDeletion()
    ensures var s := Step(Step(OneVersion(State.Draft, []), CallDelete(0, Admin, 0)), RejectingCalls()[1]);
            && |s.tables.versions| == 1 && s.tables.versions[0].state == InReview
            && TrailOf(s.tables, 0) == [(State.Draft, InReview)]
            && forall e | e in s.log :: !e.key.Transition?
  {
    var r := OneVersion(State.Draft, []);
    var s := Step(r, CallDelete(0, Admin, 0));
    OneVersionTrail(State.Draft, []);
    assert s.log == r.log && s.tables.versions == r.tables.versions && !Live(s.tables, 0);
    assert s.tables.audits == r.tables.audits + [Audit(0, 1, DeletionAudit)];
    TrailAppend(r.tables.audits, Audit(0, 1, DeletionAudit), 0, 1);
    TrailAppend(s.tables.audits, Audit(0, 1, TransitionAudit(State.Draft, InReview)), 0, 1);
    hide Trail;
  }

  lemma LiveHasVersion(t: Tables, v: nat)
    requires Live(t, v)
    ensures v < |t.versions|
  {
  }

  /** Obsolete is final in every run. */
  lemma {:induction false} ObsoleteStays(s: Store, calls: seq<Call>, v: nat)
    requires v < |s.tables.versions| && s.tables.versions[v].state == Obsolete
    ensures v < |Run(s, calls).tables.versions| && Run(s, calls).tables.versions[v].state == Obsolete
    decreases |calls|
  {
    hide Step;
    if calls != [] {
      StateChangesByPromotion(s, calls[0], v);
      ObsoleteStays(Step(s, calls[0]), calls[1..], v);
    }
  }
}
