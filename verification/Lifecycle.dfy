/** The lifecycle of a version: the transition table and the walks through it. */
module Lifecycle {
  import opened Wrappers

  datatype State = Draft | InReview | Approved | Released | Obsolete | Unlisted(name: string)

  datatype Role = UnknownRole | Viewer | Editor | Approver | Admin

  datatype Action = Submit | Reject | Approve | Release | Retire

  function Rank(role: Role): int {
    match role
    case UnknownRole => -1
    case Viewer => 0
    case Editor => 1
    case Approver => 2
    case Admin => 3
  }

  predicate RoleAtLeast(role: Role, minimum: Role) {
    Rank(role) >= Rank(minimum)
  }

  /** The table: who may take which step. */
  function ValidateTransition(from: State, to: State): Option<(Role, Action)> {
    match (from, to)
    case (Draft, InReview) => Some((Editor, Submit))
    case (InReview, Draft) => Some((Approver, Reject))
    case (InReview, Approved) => Some((Approver, Approve))
    case (Approved, Released) => Some((Approver, Release))
    case (Released, Obsolete) => Some((Admin, Retire))
    case _ => None
  }

  /** Who may take which step, spelled out. */
  predicate MayStep(role: Role, from: State, to: State) {
    || (from == Draft && to == InReview && role in {Editor, Approver, Admin})
    || (from == InReview && to in {Draft, Approved} && role in {Approver, Admin})
    || (from == Approved && to == Released && role in {Approver, Admin})
    || (from == Released && to == Obsolete && role == Admin)
  }

  /** Somebody may take the step. */
  predicate IsStep(from: State, to: State) {
    exists role :: MayStep(role, from, to)
  }

  /** The table and the order of the roles let exactly these callers take exactly these steps. */
  lemma TableIsMayStep(role: Role, from: State, to: State)
    ensures ValidateTransition(from, to).Some? <==> IsStep(from, to)
    ensures ValidateTransition(from, to).Some? && RoleAtLeast(role, ValidateTransition(from, to).value.0)
       <==> MayStep(role, from, to)
    ensures ValidateTransition(from, to).Some? ==>
              ValidateTransition(from, to).value.1 ==
              if to == InReview then Submit else if to == Draft then Reject else if to == Approved then Approve
              else if to == Released then Release else Retire
  {
    if ValidateTransition(from, to).Some? {
      assert MayStep(Admin, from, to);
    }
  }

  type Edge = (State, State)

  /** The edges lead from one state to the other, each through the table. */
  ghost predicate IsWalk(from: State, edges: seq<Edge>, to: State) {
    if edges == [] then from == to
    else
      var last := edges[|edges| - 1];
      last.1 == to && ValidateTransition(last.0, last.1).Some? && IsWalk(from, edges[..|edges| - 1], last.0)
  }

  lemma WalkAppend(from: State, edges: seq<Edge>, mid: State, to: State)
    requires IsWalk(from, edges, mid) && ValidateTransition(mid, to).Some?
    ensures IsWalk(from, edges + [(mid, to)], to)
  {
  }

  /** Whatever is approved, released or obsolete has been through an approval. */
  lemma {:induction false} ReleasedWasApproved(edges: seq<Edge>, to: State)
    requires IsWalk(Draft, edges, to) && (to == Approved || to == Released || to == Obsolete)
    ensures (InReview, Approved) in edges
  {
    var last := edges[|edges| - 1];
    assert edges == edges[..|edges| - 1] + [last];
    if to != Approved {
      ReleasedWasApproved(edges[..|edges| - 1], last.0);
    }
  }

  /** Whatever left the draft state was submitted. */
  lemma {:induction false} LeavingDraftIsSubmitting(edges: seq<Edge>, to: State)
    requires IsWalk(Draft, edges, to) && (to != Draft || edges != [])
    ensures (Draft, InReview) in edges
  {
    var last := edges[|edges| - 1];
    assert edges == edges[..|edges| - 1] + [last];
    if last != (Draft, InReview) {
      LeavingDraftIsSubmitting(edges[..|edges| - 1], last.0);
    }
  }

  /** The edges of the table. */
  function Table(): set<Edge> {
    {(Draft, InReview), (InReview, Draft), (InReview, Approved), (Approved, Released), (Released, Obsolete)}
  }

  ghost predicate DistinctEdges(edges: seq<Edge>) {
    forall i, j | 0 <= i < j < |edges| :: edges[i] != edges[j]
  }

  lemma {:induction false} WalkStaysInTable(from: State, edges: seq<Edge>, to: State)
    requires IsWalk(from, edges, to)
    ensures forall e | e in edges :: e in Table()
  {
    if edges != [] {
      var last := edges[|edges| - 1];
      assert edges == edges[..|edges| - 1] + [last];
      WalkStaysInTable(from, edges[..|edges| - 1], last.0);
    }
  }

  lemma {:induction false} DistinctWithin(edges: seq<Edge>, s: set<Edge>)
    requires DistinctEdges(edges) && forall e | e in edges :: e in s
    ensures |edges| <= |s|
  {
    if edges != [] {
      var front, last := edges[..|edges| - 1], edges[|edges| - 1];
      forall e | e in front
        ensures e in s - {last}
      {
        var i :| 0 <= i < |front| && front[i] == e;
        assert edges[i] == e;
      }
      DistinctWithin(front, s - {last});
    }
  }

  /** A walk that takes no edge twice has at most five steps. */
  lemma DistinctWalkIsShort(from: State, edges: seq<Edge>, to: State)
    requires IsWalk(from, edges, to) && DistinctEdges(edges)
    ensures |edges| <= 5
  {
    WalkStaysInTable(from, edges, to);
    DistinctWithin(edges, Table());
    assert |Table()| <= 5 by {
      assert Table() == {(Draft, InReview)} + {(InReview, Draft)} + {(InReview, Approved)}
                        + {(Approved, Released)} + {(Released, Obsolete)};
    }
  }
}
