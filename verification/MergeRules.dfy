/** How a merge classifies two commit states, and how it is rebuilt from resolutions. */
module MergeRules {
  import opened Wrappers

  type Path = string

  /** A commit state: what each path holds. */
  type Tree<V> = map<Path, V>

  /** What the user chose for a conflict: the request body of a resolve call. */
  datatype Resolution<+V> = TakeOurs | TakeTheirs | UseValue(value: V) | UseNonObject | NoChoice

  /** A conflict row; its status is "resolved" exactly when a resolution was recorded. */
  datatype Conflict<+V> = Conflict(base: Option<V>, ours: V, theirs: V, resolution: Option<Resolution<V>>)

  datatype Error = InvalidResolution | NotAnObject

  /** The shared paths whose values differ. */
  function ConflictPaths<V(==)>(ours: Tree<V>, theirs: Tree<V>): set<Path> {
    set p | p in ours && p in theirs && ours[p] != theirs[p]
  }

  /** Both states joined; on a shared path our value stays. */
  function Joined<V>(ours: Tree<V>, theirs: Tree<V>): Tree<V> {
    theirs + ours
  }

  function ConflictRow<V>(base: Tree<V>, ours: Tree<V>, theirs: Tree<V>, p: Path): Conflict<V>
    requires p in ours && p in theirs
  {
    Conflict(if p in base then Some(base[p]) else None, ours[p], theirs[p], None)
  }

  /** The conflict rows of a merge, one for each conflict path. */
  function ConflictRows<V(==)>(base: Tree<V>, ours: Tree<V>, theirs: Tree<V>): map<Path, Conflict<V>> {
    map p | p in ConflictPaths(ours, theirs) :: ConflictRow(base, ours, theirs, p)
  }

  /** The classification loop of a merge. */
  method Classify<V(==)>(base: Tree<V>, ours: Tree<V>, theirs: Tree<V>)
    returns (merged: Tree<V>, conflicts: map<Path, Conflict<V>>)
    ensures merged == Joined(ours, theirs)
    ensures conflicts == ConflictRows(base, ours, theirs)
  {
    merged, conflicts := ours, map[];
    var rest := theirs.Keys;
    while rest != {}
      invariant rest <= theirs.Keys
      invariant merged.Keys == ours.Keys + (theirs.Keys - rest)
      invariant forall p | p in merged :: merged[p] == if p in ours then ours[p] else theirs[p]
      invariant forall p :: p in conflicts <==> p in ConflictPaths(ours, theirs) && p !in rest
      invariant forall p | p in conflicts :: conflicts[p] == ConflictRow(base, ours, theirs, p)
      decreases rest
    {
      var path :| path in rest;
      if path !in ours {
        merged := merged[path := theirs[path]];
      } else if ours[path] == theirs[path] {
        merged := merged[path := ours[path]];
      } else {
        conflicts := conflicts[path := ConflictRow(base, ours, theirs, path)];
      }
      rest := rest - {path};
    }
  }

  /** The resolution a conflict row carries; none counts as an empty one. */
  function Choice<V>(c: Conflict<V>): Resolution<V> {
    if c.resolution.Some? then c.resolution.value else NoChoice
  }

  /** The value a valid choice stands for. */
  function Chosen<V>(c: Conflict<V>): V
    requires !Choice(c).NoChoice? && !Choice(c).UseNonObject?
  {
    match Choice(c)
    case TakeOurs => c.ours
    case TakeTheirs => c.theirs
    case UseValue(v) => v
  }

  ghost predicate SomeChoice<V>(conflicts: map<Path, Conflict<V>>, choice: Resolution<V>) {
    exists p :: p in conflicts && Choice(conflicts[p]) == choice
  }

  /** The value of one path once every conflict has a usable choice. */
  function ValueAt<V>(ours: Tree<V>, theirs: Tree<V>, conflicts: map<Path, Conflict<V>>, p: Path): V
    requires p in ours || p in theirs
  {
    if p in conflicts && !Choice(conflicts[p]).NoChoice? && !Choice(conflicts[p]).UseNonObject? then
      Chosen(conflicts[p])
    else if p in ours then ours[p]
    else theirs[p]
  }

  /** Ours joined with theirs, overridden on the conflict paths by the chosen values. */
  ghost function FinalTree<V>(ours: Tree<V>, theirs: Tree<V>, conflicts: map<Path, Conflict<V>>)
    : Result<Tree<V>, Error>
  {
    if SomeChoice(conflicts, NoChoice) then Err(InvalidResolution)
    else if SomeChoice(conflicts, UseNonObject) then Err(NotAnObject)
    else Ok(map p | p in ours.Keys + theirs.Keys :: ValueAt(ours, theirs, conflicts, p))
  }

  /** Whether building the payloads meets a value that is not a JSON object. */
  method MeetsNonObject<V(==)>(conflicts: map<Path, Conflict<V>>) returns (found: bool)
    ensures found <==> SomeChoice(conflicts, UseNonObject)
  {
    var rest := conflicts.Keys;
    while rest != {}
      invariant rest <= conflicts.Keys
      invariant forall p | p in conflicts && p !in rest :: Choice(conflicts[p]) != UseNonObject
      decreases rest
    {
      var path :| path in rest;
      if Choice(conflicts[path]).UseNonObject? {
        return true;
      }
      rest := rest - {path};
    }
    return false;
  }

  /** The loop that rebuilds the merged tree when the last conflict is resolved. */
  method Rebuild<V(==)>(ours: Tree<V>, theirs: Tree<V>, conflicts: map<Path, Conflict<V>>)
    returns (res: Result<Tree<V>, Error>)
    requires conflicts.Keys == ConflictPaths(ours, theirs)
    ensures res == FinalTree(ours, theirs, conflicts)
  {
    var merged := ours;
    var rest := theirs.Keys;
    while rest != {}
      invariant rest <= theirs.Keys
      invariant forall p | p in conflicts && p !in rest :: Choice(conflicts[p]) != NoChoice
      invariant merged.Keys == ours.Keys + (theirs.Keys - rest)
      invariant forall p | p in merged ::
                  merged[p] == if p in rest then ours[p] else ValueAt(ours, theirs, conflicts, p)
      decreases rest
    {
      var path :| path in rest;
      if path in conflicts {
        match Choice(conflicts[path]) {
          case NoChoice => return Err(InvalidResolution);
          case UseNonObject =>
          case _ => merged := merged[path := Chosen(conflicts[path])];
        }
      } else if path !in ours {
        merged := merged[path := theirs[path]];
      }
      rest := rest - {path};
    }
    var nonObject := MeetsNonObject(conflicts);
    if nonObject {
      return Err(NotAnObject);
    }
    RebuildDone(ours, theirs, conflicts, merged);
    return Ok(merged);
  }

  lemma RebuildDone<V>(ours: Tree<V>, theirs: Tree<V>, conflicts: map<Path, Conflict<V>>, merged: Tree<V>)
    requires forall p | p in conflicts :: Choice(conflicts[p]) != NoChoice && Choice(conflicts[p]) != UseNonObject
    requires merged.Keys == ours.Keys + theirs.Keys
    requires forall p | p in merged :: merged[p] == ValueAt(ours, theirs, conflicts, p)
    ensures FinalTree(ours, theirs, conflicts) == Ok(merged)
  {
    assert !SomeChoice(conflicts, NoChoice) && !SomeChoice(conflicts, UseNonObject);
    assert merged == FinalTree(ours, theirs, conflicts).value;
  }

  // ---------------------------------------------------- symmetry

  /** Exchanging the sides exchanges the sides of every conflict and nothing else. */
  lemma SwapSides<V>(base: Tree<V>, ours: Tree<V>, theirs: Tree<V>)
    ensures ConflictPaths(theirs, ours) == ConflictPaths(ours, theirs)
    ensures forall p | p in ConflictPaths(ours, theirs) ::
              ConflictRows(base, theirs, ours)[p] ==
              var c := ConflictRows(base, ours, theirs)[p]; c.(ours := c.theirs, theirs := c.ours)
    ensures ConflictPaths(ours, theirs) == {} <==> Joined(ours, theirs) == Joined(theirs, ours)
  {
    if ConflictPaths(ours, theirs) == {} {
      forall p | p in ours && p in theirs
        ensures ours[p] == theirs[p]
      {
        assert p !in ConflictPaths(ours, theirs);
      }
    }
    if Joined(ours, theirs) == Joined(theirs, ours) {
      forall p | p in ours && p in theirs
        ensures ours[p] == theirs[p]
      {
        assert Joined(ours, theirs)[p] == ours[p] && Joined(theirs, ours)[p] == theirs[p];
      }
      assert ConflictPaths(ours, theirs) == {};
    }
  }
}
