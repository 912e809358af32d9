/**
 The object service: methods that write rows through a database session and
 blobs to storage. Each call is one transaction; it is proved to take exactly
 the step that `ObjectStore` specifies between transaction boundaries.
 */
module ObjectService {
  import opened Wrappers
  import opened Lifecycle
  import opened EventLog
  import opened ObjectStore

  class Service {
    const session: Session<Tables>
    const projects: map<nat, nat>
    var blobs: map<StorageKey, Content>

    /** The committed tables and log, and the storage. */
    function State(): Store
      reads this, session
    {
      Store(projects, session.savedTables, session.savedLog, session.next, blobs)
    }

    /** No transaction is open. */
    ghost predicate AtBoundary()
      reads this, session
    {
      session.tables == session.savedTables && session.log == session.savedLog
    }

    constructor (projects: map<nat, nat>)
      ensures AtBoundary() && State() == Empty(projects) && fresh(session)
    {
      var s := new Session<Tables>(Tables([], [], []));
      session := s;
      this.projects := projects;
      blobs := map[];
    }

    /** `max(version_num)` over the versions of an object, 0 when there are none. */
    method MaxVersion(o: nat) returns (num: nat)
      ensures num == MaxNum(session.tables.versions, o)
    {
      var versions := session.tables.versions;
      num := 0;
      for i := 0 to |versions|
        invariant num == MaxNum(versions[..i], o)
      {
        assert versions[..i + 1][..i] == versions[..i];
        if versions[i].obj == o && versions[i].num > num {
          num := versions[i].num;
        }
      }
      assert versions[..|versions|] == versions;
    }

    /** The first version of the organisation with the same content. */
    method FindExisting(org: nat, hash: Digest) returns (found: Option<nat>)
      ensures found == FindHash(session.tables.versions, org, hash)
    {
      var versions := session.tables.versions;
      found := None;
      for i := 0 to |versions|
        invariant found == FindHash(versions[..i], org, hash)
      {
        assert versions[..i + 1][..i] == versions[..i];
        if found.None? && versions[i].org == org && versions[i].hash == hash {
          found := Some(i);
        }
      }
      assert versions[..|versions|] == versions;
    }

    method Upload(u: UploadRequest) returns (res: Result<nat, Error>)
      requires AtBoundary()
      modifies this, session
      ensures AtBoundary()
      ensures (State(), res) == ObjectStore.Upload(old(State()), u)
    {
      hide FindHash, MaxNum, Clash;
      if u.project !in projects || projects[u.project] != u.org { return Err(ProjectNotFound); }
      var t := session.tables;
      var hash := Sha256(u.content);
      var o, num := |t.objects|, 1;
      if u.obj.Some? {
        o := u.obj.value;
        if o >= |t.objects| || t.objects[o].org != u.org { return Err(ObjectNotFound); }
        var max := MaxVersion(o);
        num := max + 1;
      } else {
        session.tables := t.(objects := t.objects + [HwObject(u.org, u.project, false)]);
      }
      var existing := FindExisting(u.org, hash);
      var key := StorageKey(u.org, u.project, o, num, u.filename);
      if existing.Some? {
        key := t.versions[existing.value].key;
      } else {
        blobs := blobs[key := u.content];
      }
      if u.derivedFrom.Some? && (u.derivedFrom.value >= |t.versions| || t.versions[u.derivedFrom.value].org != u.org) {
        session.Rollback();
        return Err(DerivedFromNotFound);
      }
      var v := |t.versions|;
      session.tables := session.tables.(
        versions := t.versions + [Version(u.org, o, num, hash, key, Lifecycle.State.Draft)],
        audits := t.audits + [Audit(o, num, VersionAudit)]);
      var _ := PublishOnce(VersionEvent(u, v));
      session.Commit();
      return Ok(v);
    }

    /** Publishes the only event of a transaction: it is appended, or everything is rolled back. */
    method PublishOnce(d: EventLog.Draft) returns (created: bool)
      requires session.log == session.savedLog
      modifies session
      ensures session.next == old(session.next) + 1
      ensures session.savedTables == old(session.savedTables) && session.savedLog == old(session.savedLog)
      ensures created <==> !Clash(old(session.log), d)
      ensures created ==> session.tables == old(session.tables)
                          && session.log == old(session.log) + [EventLog.Row(d, old(session.next))]
      ensures !created ==> session.tables == session.savedTables && session.log == session.savedLog
    {
      hide Clash;
      var published := session.Publish(d);
      return published.Created?;
    }

    method Promote(org: nat, role: Role, v: nat, to: State) returns (res: Result<State, Error>)
      requires AtBoundary()
      modifies session
      ensures AtBoundary()
      ensures (State(), res) == ObjectStore.Promote(old(State()), org, role, v, to)
    {
      hide Clash, ValidateTransition, RoleAtLeast;
      var t := session.tables;
      if v >= |t.versions| || t.versions[v].org != org { return Err(VersionNotFound); }
      var version := t.versions[v];
      var from := version.state;
      var step := ValidateTransition(from, to);
      if step.None? { return Err(InvalidTransition); }
      if !RoleAtLeast(role, step.value.0) { return Err(Forbidden); }
      session.tables := t.(versions := t.versions[v := version.(state := to)],
                           audits := t.audits + [Audit(version.obj, version.num, TransitionAudit(from, to))]);
      assert session.tables == PromoteTables(t, v, to);
      hide PromoteTables, TransitionEvent;
      if version.obj < |t.objects| && t.objects[version.obj].org == org && !t.objects[version.obj].deleted {
        var created := PublishOnce(TransitionEvent(t, v, from, to));
        res := Ok(if created then to else from);
      } else {
        res := Ok(to);
      }
      session.Commit();
    }

    method SoftDelete(org: nat, role: Role, o: nat) returns (res: Result<(), Error>)
      requires AtBoundary()
      modifies session
      ensures AtBoundary()
      ensures (State(), res) == ObjectStore.SoftDelete(old(State()), org, role, o)
    {
      var t := session.tables;
      if o >= |t.objects| || t.objects[o].org != org || t.objects[o].deleted { return Err(ObjectNotFound); }
      if !RoleAtLeast(role, Admin) { return Err(Forbidden); }
      var latest := MaxVersion(o);
      session.tables := t.(objects := t.objects[o := t.objects[o].(deleted := true)],
                           audits := t.audits + [Audit(o, latest, DeletionAudit)]);
      session.Commit();
      return Ok(());
    }

    /** Publishes one event through the events API; `created` is false for an event already there. */
    method PublishEvent(d: EventLog.Draft) returns (created: bool)
      requires AtBoundary()
      modifies session
      ensures AtBoundary()
      ensures State() == ObjectStore.PublishEvent(old(State()), d)
      ensures created <==> Names(old(session.savedTables), d) && !Clash(old(session.savedLog), d)
    {
      hide Clash;
      if !Names(session.tables, d) { return false; }
      created := PublishOnce(d);
      session.Commit();
    }
  }
}
