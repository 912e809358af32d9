/** The event log: idempotent publishing inside a database session, and polling with a cursor. */
module EventLog {
  import opened Wrappers
  import Lifecycle

  /** A dedupe key: one of those the object service writes, or any other text. */
  datatype DedupeKey =
    | VersionCreated(version: nat)
    | Transition(version: nat, from: Lifecycle.State, to: Lifecycle.State)
    | Text(s: string)

  /** An event id: derived from the event's key, without collisions, or chosen by the caller. */
  datatype EventId = Derived(org: nat, project: nat, kind: string, key: DedupeKey) | Chosen(id: nat)

  datatype Event = Event(number: nat, id: EventId, org: nat, project: nat, kind: string, key: DedupeKey)

  /** An event to publish. */
  datatype Draft = Draft(id: Option<EventId>, org: nat, project: nat, kind: string, key: DedupeKey)

  function IdOf(d: Draft): EventId {
    if d.id.Some? then d.id.value else Derived(d.org, d.project, d.kind, d.key)
  }

  predicate SameKey(e: Event, d: Draft) {
    e.org == d.org && e.project == d.project && e.kind == d.kind && e.key == d.key
  }

  /** Whether the unique constraints refuse the draft. */
  ghost predicate Clash(log: seq<Event>, d: Draft) {
    exists i :: 0 <= i < |log| && (log[i].id == IdOf(d) || SameKey(log[i], d))
  }

  function Row(d: Draft, number: nat): Event {
    Event(number, IdOf(d), d.org, d.project, d.kind, d.key)
  }

  /** The committed log in order of sequence numbers, which start at 1; `next` is the next number. */
  ghost predicate Valid(log: seq<Event>, next: nat) {
    && (forall i | 0 <= i < |log| :: 0 < log[i].number < next)
    && Ordered(log)
    && forall i, j | 0 <= i < j < |log| :: Distinct(log[i], log[j])
  }

  ghost predicate Ordered(log: seq<Event>) {
    forall i, j | 0 <= i < j < |log| :: log[i].number < log[j].number
  }

  /** Two rows that the unique constraints allow side by side. */
  ghost predicate Distinct(e: Event, f: Event) {
    e.id != f.id && !(e.org == f.org && e.project == f.project && e.kind == f.kind && e.key == f.key)
  }

  datatype Published = Created(row: Event) | Existing(row: Event) | Raised

  /** The first row with the draft's id, else the first with its key. */
  ghost predicate IsLookup(log: seq<Event>, d: Draft, p: Published) {
    match p
    case Created(_) => false
    case Existing(row) =>
      row in log && (row.id == IdOf(d) || (SameKey(row, d) && forall i | 0 <= i < |log| :: log[i].id != IdOf(d)))
    case Raised => !Clash(log, d)
  }

  /** A database session: the tables as the transaction sees them, and as last committed. */
  class Session<T> {
    var tables: T
    var log: seq<Event>
    var savedTables: T
    var savedLog: seq<Event>
    var next: nat

    constructor (tables: T)
      ensures this.tables == savedTables == tables && log == savedLog == [] && next == 1
    {
      this.tables, savedTables, log, savedLog, next := tables, tables, [], [], 1;
    }

    method Commit()
      modifies this
      ensures tables == savedTables == old(tables) && log == savedLog == old(log) && next == old(next)
    {
      savedTables, savedLog := tables, log;
    }

    method Rollback()
      modifies this
      ensures tables == savedTables == old(savedTables) && log == savedLog == old(savedLog) && next == old(next)
    {
      tables, log := savedTables, savedLog;
    }

    /**
     Appends the event. When a unique constraint refuses it, the whole
     transaction is rolled back, the caller's own uncommitted writes included,
     and a committed row is looked up instead. A sequence number is used either way.
     */
    method Publish(d: Draft) returns (p: Published)
      modifies this
      ensures next == old(next) + 1 && savedTables == old(savedTables) && savedLog == old(savedLog)
      ensures !Clash(old(log), d) ==>
                tables == old(tables) && log == old(log) + [Row(d, old(next))] && p == Created(Row(d, old(next)))
      ensures Clash(old(log), d) ==> tables == savedTables && log == savedLog && IsLookup(savedLog, d, p)
    {
      var number := next;
      next := next + 1;
      var clash := false;
      for i := 0 to |log|
        invariant clash <==> exists k :: 0 <= k < i && (log[k].id == IdOf(d) || SameKey(log[k], d))
      {
        if log[i].id == IdOf(d) || SameKey(log[i], d) {
          clash := true;
        }
      }
      if !clash {
        log := log + [Row(d, number)];
        return Created(Row(d, number));
      }
      tables, log := savedTables, savedLog;
      for i := 0 to |log|
        invariant forall k | 0 <= k < i :: log[k].id != IdOf(d)
      {
        if log[i].id == IdOf(d) {
          return Existing(log[i]);
        }
      }
      for i := 0 to |log|
        invariant forall k | 0 <= k < i :: !SameKey(log[k], d)
      {
        if SameKey(log[i], d) {
          return Existing(log[i]);
        }
      }
      return Raised;
    }
  }

  // ------------------------------------------------------------------- polling

  /** The events of a project, in order. */
  function OfProject(log: seq<Event>, org: nat, project: nat): seq<Event> {
    if log == [] then []
    else
      var last := log[|log| - 1];
      OfProject(log[..|log| - 1], org, project) + if last.org == org && last.project == project then [last] else []
  }

  /** The events with a number above the cursor, in order. */
  function Above(events: seq<Event>, cursor: nat): seq<Event> {
    if events == [] then []
    else
      var last := events[|events| - 1];
      Above(events[..|events| - 1], cursor) + if last.number > cursor then [last] else []
  }

  function After(log: seq<Event>, org: nat, project: nat, cursor: nat): seq<Event> {
    Above(OfProject(log, org, project), cursor)
  }

  datatype Page = Page(data: seq<Event>, nextCursor: nat, hasMore: bool)

  function Poll(log: seq<Event>, org: nat, project: nat, cursor: nat, limit: nat): Page {
    var matching := After(log, org, project, cursor);
    var rows := if |matching| > limit + 1 then matching[..limit + 1] else matching;
    var data := if |rows| > limit then rows[..limit] else rows;
    Page(data, if data != [] then data[|data| - 1].number else cursor, |rows| > limit)
  }

  lemma AboveAppend(events: seq<Event>, e: Event, cursor: nat)
    ensures Above(events + [e], cursor) == Above(events, cursor) + if e.number > cursor then [e] else []
  {
  }

  lemma AfterAppend(log: seq<Event>, e: Event, org: nat, project: nat, cursor: nat)
    ensures After(log + [e], org, project, cursor) ==
            After(log, org, project, cursor)
            + if e.org == org && e.project == project && e.number > cursor then [e] else []
  {
    assert (log + [e])[..|log|] == log;
    AboveAppend(OfProject(log, org, project), e, cursor);
    assert OfProject(log, org, project) + [] == OfProject(log, org, project);
  }

  lemma {:induction false} OfProjectMembers(log: seq<Event>, org: nat, project: nat)
    ensures forall e :: e in OfProject(log, org, project) <==> e in log && e.org == org && e.project == project
  {
    if log != [] {
      var front, last := log[..|log| - 1], log[|log| - 1];
      OfProjectMembers(front, org, project);
      assert forall e :: e in log <==> e in front || e == last;
    }
  }

  lemma {:induction false} AboveMembers(events: seq<Event>, cursor: nat)
    ensures forall e :: e in Above(events, cursor) <==> e in events && e.number > cursor
  {
    if events != [] {
      var front, last := events[..|events| - 1], events[|events| - 1];
      AboveMembers(front, cursor);
      assert forall e :: e in events <==> e in front || e == last;
    }
  }

  lemma OrderedAppend(front: seq<Event>, last: Event)
    requires Ordered(front) && forall e | e in front :: e.number < last.number
    ensures Ordered(front + [last])
  {
  }

  lemma LastIsLargest(log: seq<Event>)
    requires Ordered(log) && log != []
    ensures forall e | e in log[..|log| - 1] :: e.number < log[|log| - 1].number
  {
  }

  lemma {:induction false} OfProjectOrdered(log: seq<Event>, org: nat, project: nat)
    requires Ordered(log)
    ensures Ordered(OfProject(log, org, project))
  {
    if log != [] {
      var front, last := log[..|log| - 1], log[|log| - 1];
      OfProjectOrdered(front, org, project);
      OfProjectMembers(front, org, project);
      LastIsLargest(log);
      OrderedAppend(OfProject(front, org, project), last);
    }
  }

  lemma {:induction false} NothingAbove(events: seq<Event>, cursor: nat)
    requires forall i | 0 <= i < |events| :: events[i].number <= cursor
    ensures Above(events, cursor) == []
  {
    if events != [] {
      NothingAbove(events[..|events| - 1], cursor);
    }
  }

  lemma {:induction false} AllAbove(events: seq<Event>, cursor: nat)
    requires forall i | 0 <= i < |events| :: events[i].number > cursor
    ensures Above(events, cursor) == events
  {
    if events != [] {
      AllAbove(events[..|events| - 1], cursor);
    }
  }

  lemma {:induction false} AboveConcat(a: seq<Event>, b: seq<Event>, cursor: nat)
    ensures Above(a + b, cursor) == Above(a, cursor) + Above(b, cursor)
  {
    if b == [] {
      assert a + b == a;
    } else {
      var n := |b| - 1;
      AboveConcat(a, b[..n], cursor);
      assert (a + b)[..|a| + n] == a + b[..n];
    }
  }

  lemma PrefixIsAtMost(events: seq<Event>, k: nat)
    requires Ordered(events) && 0 < k <= |events|
    ensures forall i | 0 <= i < k :: events[..k][i].number <= events[k - 1].number
  {
  }

  lemma SuffixIsAbove(events: seq<Event>, k: nat)
    requires Ordered(events) && 0 < k <= |events|
    ensures forall i | 0 <= i < |events| - k :: events[k..][i].number > events[k - 1].number
  {
  }

  lemma AboveSplit(a: seq<Event>, b: seq<Event>, cursor: nat)
    requires forall i | 0 <= i < |a| :: a[i].number <= cursor
    requires forall i | 0 <= i < |b| :: b[i].number > cursor
    ensures Above(a + b, cursor) == b
  {
    hide Above;
    NothingAbove(a, cursor);
    AllAbove(b, cursor);
    AboveConcat(a, b, cursor);
  }

  /** In an ordered log, what is above the k-th event is what follows it. */
  lemma AboveNumber(events: seq<Event>, k: nat)
    requires Ordered(events) && 0 < k <= |events|
    ensures Above(events, events[k - 1].number) == events[k..]
  {
    hide Above, Ordered;
    PrefixIsAtMost(events, k);
    SuffixIsAbove(events, k);
    AboveSplit(events[..k], events[k..], events[k - 1].number);
    assert events[..k] + events[k..] == events;
  }

  /** Filtering by a lower cursor first makes no difference. */
  lemma {:induction false} AboveTwice(events: seq<Event>, cursor: nat, later: nat)
    requires cursor <= later
    ensures Above(Above(events, cursor), later) == Above(events, later)
  {
    if events != [] {
      var front, last := events[..|events| - 1], events[|events| - 1];
      AboveTwice(front, cursor, later);
      AboveAppend(Above(front, cursor), last, later);
      assert Above(front, cursor) + [] == Above(front, cursor);
    }
  }

  lemma {:induction false} AboveOrdered(events: seq<Event>, cursor: nat)
    requires Ordered(events)
    ensures Ordered(Above(events, cursor))
  {
    if events != [] {
      var front, last := events[..|events| - 1], events[|events| - 1];
      AboveOrdered(front, cursor);
      AboveMembers(front, cursor);
      LastIsLargest(events);
      OrderedAppend(Above(front, cursor), last);
    }
  }

  /** Which events lie after a cursor, and in what order. */
  lemma AfterInOrder(log: seq<Event>, org: nat, project: nat, cursor: nat)
    requires Ordered(log)
    ensures Ordered(After(log, org, project, cursor))
    ensures forall e :: e in After(log, org, project, cursor) <==>
                        e in log && e.org == org && e.project == project && e.number > cursor
  {
    OfProjectMembers(log, org, project);
    OfProjectOrdered(log, org, project);
    AboveMembers(OfProject(log, org, project), cursor);
    AboveOrdered(OfProject(log, org, project), cursor);
  }

  /** Moving the cursor to the k-th matching event leaves the matching events after it. */
  lemma AfterMoved(log: seq<Event>, org: nat, project: nat, cursor: nat, k: nat)
    requires Ordered(log)
    requires 0 < k <= |After(log, org, project, cursor)|
    ensures var a := After(log, org, project, cursor);
            After(log, org, project, a[k - 1].number) == a[k..]
  {
    var a := After(log, org, project, cursor);
    AfterInOrder(log, org, project, cursor);
    assert a[k - 1] in a;
    AboveNumber(a, k);
    AboveTwice(OfProject(log, org, project), cursor, a[k - 1].number);
  }

  // ------------------------------------------------- a consumer among publishers

  /** What happens between and at the polls of one consumer; every publish is committed at once. */
  datatype Act = PublishAct(d: Draft) | PollAct(limit: nat)

  /** The log, the counter, and the consumer's cursor and deliveries. */
  datatype Feed = Feed(log: seq<Event>, next: nat, cursor: nat, delivered: seq<Event>)

  ghost function PublishTo(log: seq<Event>, next: nat, d: Draft): seq<Event> {
    if Clash(log, d) then log else log + [Row(d, next)]
  }

  ghost function FeedStep(f: Feed, org: nat, project: nat, a: Act): Feed {
    match a
    case PublishAct(d) => f.(log := PublishTo(f.log, f.next, d), next := f.next + 1)
    case PollAct(limit) =>
      var page := Poll(f.log, org, project, f.cursor, limit);
      f.(cursor := page.nextCursor, delivered := f.delivered + page.data)
  }

  ghost function FeedRun(org: nat, project: nat, acts: seq<Act>): Feed {
    if acts == [] then Feed([], 1, 0, [])
    else FeedStep(FeedRun(org, project, acts[..|acts| - 1]), org, project, acts[|acts| - 1])
  }

  lemma PublishKeepsValid(log: seq<Event>, next: nat, d: Draft)
    requires Valid(log, next) && next > 0
    ensures Valid(PublishTo(log, next, d), next + 1)
  {
  }

  ghost predicate FeedValid(f: Feed, org: nat, project: nat) {
    && f.next > 0 && Valid(f.log, f.next) && f.cursor < f.next
    && f.delivered + After(f.log, org, project, f.cursor) == After(f.log, org, project, 0)
  }

  lemma PollShape(log: seq<Event>, org: nat, project: nat, cursor: nat, limit: nat)
    ensures var page, all := Poll(log, org, project, cursor, limit), After(log, org, project, cursor);
            && page.data == all[..if |all| <= limit then |all| else limit]
            && page.nextCursor == if page.data != [] then page.data[|page.data| - 1].number else cursor
  {
    hide After;
  }

  /** A page is the first `limit` matching events, and its cursor leaves the rest. */
  lemma PageSplits(log: seq<Event>, org: nat, project: nat, cursor: nat, limit: nat)
    requires Ordered(log)
    ensures var page, all := Poll(log, org, project, cursor, limit), After(log, org, project, cursor);
            && page.data + After(log, org, project, page.nextCursor) == all
            && |page.data| == (if |all| <= limit then |all| else limit)
            && (page.data != [] ==>
                  page.data[|page.data| - 1] in log && page.nextCursor == page.data[|page.data| - 1].number)
            && (page.data == [] ==> page.nextCursor == cursor)
  {
    hide After, Ordered, Poll;
    PollShape(log, org, project, cursor, limit);
    var page := Poll(log, org, project, cursor, limit);
    var a := After(log, org, project, cursor);
    var k := |page.data|;
    assert a == a[..k] + a[k..];
    AfterInOrder(log, org, project, cursor);
    if k > 0 {
      AfterMoved(log, org, project, cursor, k);
      assert a[k - 1] in a;
    }
  }

  lemma PollKeepsFeed(f: Feed, org: nat, project: nat, limit: nat)
    requires FeedValid(f, org, project)
    ensures FeedValid(FeedStep(f, org, project, PollAct(limit)), org, project)
  {
    hide After, Poll, Ordered;
    PageSplits(f.log, org, project, f.cursor, limit);
    var page := Poll(f.log, org, project, f.cursor, limit);
    var rest := After(f.log, org, project, page.nextCursor);
    assert f.delivered + page.data + rest == f.delivered + (page.data + rest);
  }

  lemma PublishKeepsFeed(f: Feed, org: nat, project: nat, d: Draft)
    requires FeedValid(f, org, project)
    ensures FeedValid(FeedStep(f, org, project, PublishAct(d)), org, project)
  {
    hide After, Clash;
    PublishKeepsValid(f.log, f.next, d);
    if !Clash(f.log, d) {
      var e := Row(d, f.next);
      AfterAppend(f.log, e, org, project, f.cursor);
      AfterAppend(f.log, e, org, project, 0);
      assert f.delivered + (After(f.log, org, project, f.cursor) + [e]) == After(f.log, org, project, 0) + [e];
    }
  }

  lemma {:induction false} FeedStaysValid(org: nat, project: nat, acts: seq<Act>)
    ensures FeedValid(FeedRun(org, project, acts), org, project)
  {
    hide FeedStep;
    if acts != [] {
      var f, a := FeedRun(org, project, acts[..|acts| - 1]), acts[|acts| - 1];
      hide FeedValid;
      FeedStaysValid(org, project, acts[..|acts| - 1]);
      match a {
        case PollAct(limit) => PollKeepsFeed(f, org, project, limit);
        case PublishAct(d) => PublishKeepsFeed(f, org, project, d);
      }
    }
  }

  /**
   Starting from cursor 0 and feeding the cursor back, whatever is published in
   between: what was delivered is a prefix of the project's events in order of
   their numbers, so none is delivered twice, none is skipped, and the rest are
   exactly those after the cursor.
   */
  lemma DeliversEachOnceInOrder(org: nat, project: nat, acts: seq<Act>)
    ensures var f := FeedRun(org, project, acts);
            && f.delivered + After(f.log, org, project, f.cursor) == After(f.log, org, project, 0)
            && Ordered(f.delivered)
            && forall e | e in f.log && e.org == org && e.project == project ::
                 (e in f.delivered <==> e.number <= f.cursor)
  {
    hide FeedRun, After;
    FeedStaysValid(org, project, acts);
    var f := FeedRun(org, project, acts);
    var all, rest := After(f.log, org, project, 0), After(f.log, org, project, f.cursor);
    AfterInOrder(f.log, org, project, 0);
    AfterInOrder(f.log, org, project, f.cursor);
    OrderedSplit(f.delivered, rest);
    forall e | e in f.log && e.org == org && e.project == project
      ensures e in f.delivered <==> e.number <= f.cursor
    {
      var i :| 0 <= i < |f.log| && f.log[i] == e;
      assert e in all <==> e in f.delivered || e in rest;
    }
  }

  lemma OrderedSplit(a: seq<Event>, b: seq<Event>)
    requires Ordered(a + b)
    ensures Ordered(a)
    ensures forall e | e in a :: e !in b
  {
    forall i, j | 0 <= i < j < |a|
      ensures a[i].number < a[j].number
    {
      assert (a + b)[i] == a[i] && (a + b)[j] == a[j];
    }
    forall i, j | 0 <= i < |a| && 0 <= j < |b|
      ensures a[i] != b[j]
    {
      assert (a + b)[i] == a[i] && (a + b)[|a| + j] == b[j];
    }
  }

  /** A page says there is more exactly when something is left after it; and then it is full. */
  lemma HasMoreIff(log: seq<Event>, org: nat, project: nat, cursor: nat, limit: nat)
    requires Ordered(log) && limit > 0
    ensures var page := Poll(log, org, project, cursor, limit);
            && (page.hasMore <==> After(log, org, project, page.nextCursor) != [])
            && (page.hasMore ==> |page.data| == limit)
  {
    hide After;
    var page := Poll(log, org, project, cursor, limit);
    var a := After(log, org, project, cursor);
    if page.data != [] {
      AfterMoved(log, org, project, cursor, |page.data|);
      assert page.data == a[..|page.data|];
    }
  }

  lemma {:induction false} ClashPersists(org: nat, project: nat, f: Feed, d: Draft, acts: seq<Act>)
    requires Clash(f.log, d)
    ensures Clash(FeedFrom(f, org, project, acts).log, d)
  {
    if acts != [] {
      var front := acts[..|acts| - 1];
      ClashPersists(org, project, f, d, front);
      var g := FeedFrom(f, org, project, front);
      var i :| 0 <= i < |g.log| && (g.log[i].id == IdOf(d) || SameKey(g.log[i], d));
      var h := FeedFrom(f, org, project, acts);
      assert h.log[i] == g.log[i];
    }
  }

  ghost function FeedFrom(f: Feed, org: nat, project: nat, acts: seq<Act>): Feed {
    if acts == [] then f
    else FeedStep(FeedFrom(f, org, project, acts[..|acts| - 1]), org, project, acts[|acts| - 1])
  }

  /** Publishing an event again, at any later time, adds nothing to the log. */
  lemma RepublishAddsNothing(org: nat, project: nat, f: Feed, d: Draft, acts: seq<Act>)
    ensures var g := FeedFrom(FeedStep(f, org, project, PublishAct(d)), org, project, acts);
            FeedStep(g, org, project, PublishAct(d)).log == g.log
  {
    var after := FeedStep(f, org, project, PublishAct(d));
    if !Clash(f.log, d) {
      assert after.log[|f.log|] == Row(d, f.next);
    }
    ClashPersists(org, project, after, d, acts);
  }
}
