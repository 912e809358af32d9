/**
 The commit graph and its ancestor search.

 A commit id is the commit's place in the order of creation: ids are fresh when
 a commit is made, so every parent has a smaller id than its child.
 */
module CommitGraph {
  import opened Wrappers

  type CommitId = nat

  type Graph = map<CommitId, seq<CommitId>>

  /** The parent links of `c` in parent order; no links when `c` has none recorded. */
  function ParentsOf(g: Graph, c: CommitId): seq<CommitId> {
    if c in g then g[c] else []
  }

  /** Every parent is older than its child. */
  ghost predicate Acyclic(g: Graph) {
    forall c, p | c in g && p in g[c] :: p < c
  }

  /** Every parent link names a commit of the graph. */
  ghost predicate Closed(g: Graph) {
    forall c, p | c in g && p in g[c] :: p in g
  }

  /** `to` is reached from `from` by following exactly `n` parent links. */
  ghost predicate ReachesIn(g: Graph, from: CommitId, to: CommitId, n: nat)
    decreases n
  {
    if n == 0 then from == to
    else exists p :: p in ParentsOf(g, from) && ReachesIn(g, p, to, n - 1)
  }

  /** Every commit counts as its own ancestor. */
  ghost predicate IsAncestor(g: Graph, x: CommitId, c: CommitId) {
    exists n: nat :: ReachesIn(g, c, x, n)
  }

  ghost predicate IsCommonAncestor(g: Graph, x: CommitId, a: CommitId, b: CommitId) {
    IsAncestor(g, x, a) && IsAncestor(g, x, b)
  }

  // ---------------------------------------------------------------- ancestors

  lemma AncestorOfSelf(g: Graph, c: CommitId)
    ensures IsAncestor(g, c, c)
  {
    assert ReachesIn(g, c, c, 0);
  }

  lemma ParentAncestors(g: Graph, c: CommitId, p: CommitId, x: CommitId)
    requires p in ParentsOf(g, c) && IsAncestor(g, x, p)
    ensures IsAncestor(g, x, c)
  {
    var n: nat :| ReachesIn(g, p, x, n);
    assert ReachesIn(g, c, x, n + 1);
  }

  /** An ancestor is the commit itself or an ancestor of one of its parents. */
  lemma AncestorStep(g: Graph, c: CommitId, x: CommitId)
    ensures IsAncestor(g, x, c) <==> x == c || exists p :: p in ParentsOf(g, c) && IsAncestor(g, x, p)
  {
    if IsAncestor(g, x, c) {
      var n: nat :| ReachesIn(g, c, x, n);
      if n > 0 {
        var p :| p in ParentsOf(g, c) && ReachesIn(g, p, x, n - 1);
        assert IsAncestor(g, x, p);
      }
    }
    if x == c {
      AncestorOfSelf(g, c);
    }
    forall p | p in ParentsOf(g, c) && IsAncestor(g, x, p)
      ensures IsAncestor(g, x, c)
    {
      ParentAncestors(g, c, p, x);
    }
  }

  lemma {:induction false} ReachesTransitive(g: Graph, a: CommitId, b: CommitId, c: CommitId, m: nat, n: nat)
    requires ReachesIn(g, a, b, m) && ReachesIn(g, b, c, n)
    ensures ReachesIn(g, a, c, m + n)
    decreases m
  {
    if m > 0 {
      var p :| p in ParentsOf(g, a) && ReachesIn(g, p, b, m - 1);
      ReachesTransitive(g, p, b, c, m - 1, n);
    }
  }

  lemma AncestorTransitive(g: Graph, x: CommitId, y: CommitId, z: CommitId)
    requires IsAncestor(g, x, y) && IsAncestor(g, y, z)
    ensures IsAncestor(g, x, z)
  {
    var m: nat, n: nat :| ReachesIn(g, z, y, m) && ReachesIn(g, y, x, n);
    ReachesTransitive(g, z, y, x, m, n);
  }

  /** A set closed under parents and holding `c` holds every ancestor of `c`. */
  lemma {:induction false} ClosedSetHoldsAncestors(g: Graph, s: set<CommitId>, c: CommitId, x: CommitId, n: nat)
    requires c in s && ReachesIn(g, c, x, n)
    requires forall v, p | v in s && p in ParentsOf(g, v) :: p in s
    ensures x in s
    decreases n
  {
    if n > 0 {
      var p :| p in ParentsOf(g, c) && ReachesIn(g, p, x, n - 1);
      ClosedSetHoldsAncestors(g, s, p, x, n - 1);
    }
  }

  /** Making new commits never changes what the existing ones descend from. */
  lemma {:induction false} ReachesInLargerGraph(g: Graph, h: Graph, c: CommitId, x: CommitId, n: nat)
    requires Closed(g) && c in g
    requires forall v | v in g :: v in h && h[v] == g[v]
    ensures ReachesIn(g, c, x, n) <==> ReachesIn(h, c, x, n)
    decreases n
  {
    if n > 0 {
      forall p | p in g[c]
        ensures ReachesIn(g, p, x, n - 1) <==> ReachesIn(h, p, x, n - 1)
      {
        ReachesInLargerGraph(g, h, p, x, n - 1);
      }
      assert ParentsOf(g, c) == ParentsOf(h, c);
    }
  }

  lemma AncestorsInLargerGraph(g: Graph, h: Graph, c: CommitId)
    requires Closed(g) && c in g
    requires forall v | v in g :: v in h && h[v] == g[v]
    ensures forall x :: IsAncestor(g, x, c) <==> IsAncestor(h, x, c)
  {
    forall x, n: nat
      ensures ReachesIn(g, c, x, n) <==> ReachesIn(h, c, x, n)
    {
      ReachesInLargerGraph(g, h, c, x, n);
    }
  }

  // ------------------------------------------------------ the first walk

  ghost function Nodes(g: Graph): set<CommitId> {
    g.Keys + set c, i | c in g && 0 <= i < |g[c]| :: g[c][i]
  }

  /**
   The walk that collects the ancestors of `a`. It has a visited set, so it ends
   on every finite parent relation, cyclic ones and dangling links included.
   */
  method CollectAncestors(g: Graph, a: CommitId) returns (ancestors: set<CommitId>)
    ensures forall x :: x in ancestors <==> IsAncestor(g, x, a)
  {
    ancestors := {};
    var queue := [a];
    ghost var universe := Nodes(g) + {a};
    AncestorOfSelf(g, a);
    while queue != []
      invariant ancestors <= universe
      invariant forall q | q in queue :: q in universe && IsAncestor(g, q, a)
      invariant forall v | v in ancestors :: IsAncestor(g, v, a)
      invariant a in ancestors || a in queue
      invariant forall v, p | v in ancestors && p in ParentsOf(g, v) :: p in ancestors || p in queue
      decreases universe - ancestors, |queue|
    {
      var cid, rest := queue[0], queue[1..];
      assert forall q | q in queue :: q == cid || q in rest;
      if cid in ancestors {
        queue := rest;
      } else {
        forall p | p in ParentsOf(g, cid)
          ensures p in universe && IsAncestor(g, p, a)
        {
          AncestorOfSelf(g, p);
          ParentAncestors(g, cid, p, p);
          AncestorTransitive(g, p, cid, a);
        }
        ancestors := ancestors + {cid};
        queue := rest + ParentsOf(g, cid);
      }
    }
    forall x | IsAncestor(g, x, a)
      ensures x in ancestors
    {
      var n: nat :| ReachesIn(g, a, x, n);
      ClosedSetHoldsAncestors(g, ancestors, a, x, n);
    }
  }

  // ------------------------------------------------------ the second walk

  /** How many parent paths start at `c`, the empty one included. */
  ghost function PathCount(g: Graph, c: CommitId): nat
    requires Acyclic(g)
    decreases c, |ParentsOf(g, c)| + 1
  {
    1 + ParentPaths(g, c, 0)
  }

  ghost function ParentPaths(g: Graph, c: CommitId, i: nat): nat
    requires Acyclic(g)
    requires i <= |ParentsOf(g, c)|
    decreases c, |ParentsOf(g, c)| - i
  {
    var ps := ParentsOf(g, c);
    if i == |ps| then 0 else assert ps[i] in g[c]; PathCount(g, ps[i]) + ParentPaths(g, c, i + 1)
  }

  /** Parent paths summed over a queue: what each round of the second walk lowers by one. */
  ghost function PathSum(g: Graph, queue: seq<CommitId>): nat
    requires Acyclic(g)
  {
    if queue == [] then 0 else PathCount(g, queue[0]) + PathSum(g, queue[1..])
  }

  lemma {:induction false} PathSumAppend(g: Graph, q: seq<CommitId>, r: seq<CommitId>)
    requires Acyclic(g)
    ensures PathSum(g, q + r) == PathSum(g, q) + PathSum(g, r)
  {
    if q == [] {
      assert q + r == r;
    } else {
      assert (q + r)[1..] == q[1..] + r;
      PathSumAppend(g, q[1..], r);
    }
  }

  lemma {:induction false} ParentPathsIsPathSum(g: Graph, c: CommitId, i: nat)
    requires Acyclic(g) && i <= |ParentsOf(g, c)|
    ensures ParentPaths(g, c, i) == PathSum(g, ParentsOf(g, c)[i..])
    decreases |ParentsOf(g, c)| - i
  {
    var ps := ParentsOf(g, c);
    if i < |ps| {
      assert ps[i..][1..] == ps[i + 1..];
      ParentPathsIsPathSum(g, c, i + 1);
    }
  }

  lemma QueueShrinks(g: Graph, queue: seq<CommitId>)
    requires Acyclic(g) && queue != []
    ensures PathSum(g, queue[1..] + ParentsOf(g, queue[0])) == PathSum(g, queue) - 1
  {
    PathSumAppend(g, queue[1..], ParentsOf(g, queue[0]));
    ParentPathsIsPathSum(g, queue[0], 0);
    assert ParentsOf(g, queue[0])[0..] == ParentsOf(g, queue[0]);
  }

  /** The first queued commit that has property `hit`, breadth first, without a visited set. */
  ghost function Search(g: Graph, hit: CommitId -> bool, queue: seq<CommitId>): Option<CommitId>
    requires Acyclic(g)
    decreases PathSum(g, queue)
  {
    if queue == [] then None
    else if hit(queue[0]) then Some(queue[0])
    else QueueShrinks(g, queue); Search(g, hit, queue[1..] + ParentsOf(g, queue[0]))
  }

  /** The value `find_lca` returns. */
  ghost function FindLca(g: Graph, a: CommitId, b: CommitId): Option<CommitId>
    requires Acyclic(g)
  {
    Search(g, (x: CommitId) => IsAncestor(g, x, a), [b])
  }

  method FindLcaByWalking(g: Graph, a: CommitId, b: CommitId) returns (lca: Option<CommitId>)
    requires Acyclic(g)
    ensures lca == FindLca(g, a, b)
  {
    var ancestors := CollectAncestors(g, a);
    ghost var hit := (x: CommitId) => IsAncestor(g, x, a);
    var queue := [b];
    while queue != []
      invariant Search(g, hit, queue) == FindLca(g, a, b)
      decreases PathSum(g, queue)
    {
      var cid := queue[0];
      if cid in ancestors {
        return Some(cid);
      }
      QueueShrinks(g, queue);
      queue := queue[1..] + ParentsOf(g, cid);
    }
    return None;
  }

  // ------------------------------------------------- what the search finds

  /** The parents of a row of commits, in order. */
  ghost function Expand(g: Graph, row: seq<CommitId>): seq<CommitId> {
    if row == [] then [] else ParentsOf(g, row[0]) + Expand(g, row[1..])
  }

  /** The commits `n` parent links away from a row, once per path. */
  ghost function Generation(g: Graph, row: seq<CommitId>, n: nat): seq<CommitId>
    decreases n
  {
    if n == 0 then row else Generation(g, Expand(g, row), n - 1)
  }

  ghost function FirstHit(hit: CommitId -> bool, row: seq<CommitId>): (r: Option<CommitId>)
    ensures r.None? <==> forall x | x in row :: !hit(x)
    ensures r.Some? ==> r.value in row && hit(r.value)
  {
    if row == [] then None else if hit(row[0]) then Some(row[0]) else FirstHit(hit, row[1..])
  }

  lemma {:induction false} ExpandMembers(g: Graph, row: seq<CommitId>, x: CommitId)
    ensures x in Expand(g, row) <==> exists v :: v in row && x in ParentsOf(g, v)
  {
    if row != [] {
      ExpandMembers(g, row[1..], x);
      assert forall v :: v in row <==> v == row[0] || v in row[1..];
    }
  }

  lemma {:induction false} GenerationMembers(g: Graph, row: seq<CommitId>, n: nat, x: CommitId)
    ensures x in Generation(g, row, n) <==> exists v :: v in row && ReachesIn(g, v, x, n)
    decreases n
  {
    if n > 0 {
      var next := Expand(g, row);
      GenerationMembers(g, next, n - 1, x);
      if x in Generation(g, row, n) {
        var p :| p in next && ReachesIn(g, p, x, n - 1);
        ExpandMembers(g, row, p);
      }
      if v :| v in row && ReachesIn(g, v, x, n) {
        var p :| p in ParentsOf(g, v) && ReachesIn(g, p, x, n - 1);
        ExpandMembers(g, row, p);
      }
    }
  }

  lemma {:induction false} PathSumExpand(g: Graph, row: seq<CommitId>)
    requires Acyclic(g)
    ensures PathSum(g, Expand(g, row)) == PathSum(g, row) - |row|
  {
    if row != [] {
      PathSumExpand(g, row[1..]);
      PathSumAppend(g, ParentsOf(g, row[0]), Expand(g, row[1..]));
      ParentPathsIsPathSum(g, row[0], 0);
      assert ParentsOf(g, row[0])[0..] == ParentsOf(g, row[0]);
    }
  }

  /** The queue holds the rest of one generation and what is known of the next. */
  lemma {:induction false} SearchThroughRow(g: Graph, hit: CommitId -> bool, row: seq<CommitId>, next: seq<CommitId>)
    requires Acyclic(g)
    ensures Search(g, hit, row + next) ==
            if FirstHit(hit, row).Some? then FirstHit(hit, row) else Search(g, hit, next + Expand(g, row))
    decreases |row|
  {
    if row == [] {
      assert row + next == next == next + Expand(g, row);
    } else if !hit(row[0]) {
      hide PathSum, ParentsOf;
      var ps := ParentsOf(g, row[0]);
      assert (row + next)[0] == row[0] && (row + next)[1..] + ps == row[1..] + (next + ps);
      QueueShrinks(g, row + next);
      SearchThroughRow(g, hit, row[1..], next + ps);
      assert (next + ps) + Expand(g, row[1..]) == next + (ps + Expand(g, row[1..]));
    }
  }

  lemma SearchRow(g: Graph, hit: CommitId -> bool, row: seq<CommitId>)
    requires Acyclic(g)
    ensures Search(g, hit, row) ==
            if FirstHit(hit, row).Some? then FirstHit(hit, row) else Search(g, hit, Expand(g, row))
  {
    SearchThroughRow(g, hit, row, []);
    assert row + [] == row;
    assert [] + Expand(g, row) == Expand(g, row);
  }

  lemma {:induction false} SearchMisses(g: Graph, hit: CommitId -> bool, row: seq<CommitId>, n: nat)
    requires Acyclic(g) && Search(g, hit, row).None?
    ensures forall x | x in Generation(g, row, n) :: !hit(x)
    decreases n
  {
    SearchRow(g, hit, row);
    if n > 0 {
      SearchMisses(g, hit, Expand(g, row), n - 1);
    }
  }

  lemma {:induction false} SearchHits(g: Graph, hit: CommitId -> bool, row: seq<CommitId>) returns (d: nat)
    requires Acyclic(g) && Search(g, hit, row).Some?
    ensures var r := Search(g, hit, row).value; hit(r) && r in Generation(g, row, d)
    ensures forall m: nat, x | m < d && x in Generation(g, row, m) :: !hit(x)
    decreases PathSum(g, row)
  {
    SearchRow(g, hit, row);
    if FirstHit(hit, row).Some? {
      d := 0;
    } else {
      PathSumExpand(g, row);
      var e := SearchHits(g, hit, Expand(g, row));
      d := e + 1;
      forall m: nat, x | m < d && x in Generation(g, row, m)
        ensures !hit(x)
      {
        if m > 0 {
          assert x in Generation(g, Expand(g, row), m - 1);
        }
      }
    }
  }

  /** `find_lca` returns nothing exactly when the two commits share no ancestor. */
  lemma LcaNoneIffUnrelated(g: Graph, a: CommitId, b: CommitId)
    requires Acyclic(g)
    ensures FindLca(g, a, b).None? <==> !exists x :: IsCommonAncestor(g, x, a, b)
  {
    var hit := (x: CommitId) => IsAncestor(g, x, a);
    if FindLca(g, a, b).None? {
      forall x, n: nat | ReachesIn(g, b, x, n)
        ensures !IsAncestor(g, x, a)
      {
        SearchMisses(g, hit, [b], n);
        assert b in [b];
        GenerationMembers(g, [b], n, x);
      }
    } else {
      var _ := LcaIsNearest(g, a, b);
    }
  }

  /** Otherwise it is a common ancestor, and none is fewer hops away from `b`. */
  lemma LcaIsNearest(g: Graph, a: CommitId, b: CommitId) returns (d: nat)
    requires Acyclic(g) && FindLca(g, a, b).Some?
    ensures var r := FindLca(g, a, b).value; IsCommonAncestor(g, r, a, b) && ReachesIn(g, b, r, d)
    ensures forall x, n: nat | IsAncestor(g, x, a) && ReachesIn(g, b, x, n) :: d <= n
  {
    var hit := (x: CommitId) => IsAncestor(g, x, a);
    var r := FindLca(g, a, b).value;
    d := SearchHits(g, hit, [b]);
    GenerationMembers(g, [b], d, r);
    forall x, n: nat | IsAncestor(g, x, a) && ReachesIn(g, b, x, n)
      ensures d <= n
    {
      assert b in [b];
      GenerationMembers(g, [b], n, x);
      assert hit(x);
    }
  }

  /** No commit in the history of `b` has two parents. */
  ghost predicate SingleParentHistory(g: Graph, b: CommitId) {
    forall x | IsAncestor(g, x, b) :: |ParentsOf(g, x)| <= 1
  }

  lemma {:induction false} SingleParentChain(g: Graph, b: CommitId, x: CommitId, y: CommitId, m: nat, n: nat)
    requires SingleParentHistory(g, b)
    requires ReachesIn(g, b, x, m) && ReachesIn(g, b, y, n) && m <= n
    ensures ReachesIn(g, x, y, n - m)
    decreases m
  {
    if m > 0 {
      var p :| p in ParentsOf(g, b) && ReachesIn(g, p, x, m - 1);
      var q :| q in ParentsOf(g, b) && ReachesIn(g, q, y, n - 1);
      AncestorOfSelf(g, b);
      assert p == q;
      forall z | IsAncestor(g, z, p)
        ensures IsAncestor(g, z, b)
      {
        ParentAncestors(g, b, p, z);
      }
      SingleParentChain(g, p, x, y, m - 1, n - 1);
    }
  }

  /** On a single-parent history the nearest common ancestor is the lowest one. */
  lemma LcaIsLowestOnSingleParentHistory(g: Graph, a: CommitId, b: CommitId, x: CommitId)
    requires Acyclic(g) && SingleParentHistory(g, b)
    requires IsCommonAncestor(g, x, a, b)
    ensures FindLca(g, a, b).Some? && IsAncestor(g, x, FindLca(g, a, b).value)
  {
    LcaNoneIffUnrelated(g, a, b);
    var r := FindLca(g, a, b).value;
    var d := LcaIsNearest(g, a, b);
    var n: nat :| ReachesIn(g, b, x, n);
    SingleParentChain(g, b, r, x, d, n);
  }

  /**
   On a graph with merges the nearest one need not be the lowest: below, 1 is a
   child of 0, `a` is 2, and `b` is 4, a merge of 0 and 3. The search answers 0,
   yet 1 is also a common ancestor and is not an ancestor of 0.
   */
  lemma NearestIsNotAlwaysLowest()
    ensures var g: Graph := map[0 := [], 1 := [0], 2 := [1], 3 := [1], 4 := [0, 3]];
            && Acyclic(g)
            && FindLca(g, 2, 4) == Some(0)
            && IsCommonAncestor(g, 1, 2, 4)
            && !IsAncestor(g, 1, 0)
  {
    var g: Graph := map[0 := [], 1 := [0], 2 := [1], 3 := [1], 4 := [0, 3]];
    AncestorOfSelf(g, 0);
    AncestorOfSelf(g, 1);
    assert 0 in ParentsOf(g, 1) && 1 in ParentsOf(g, 2) && 1 in ParentsOf(g, 3) && 3 in ParentsOf(g, 4);
    ParentAncestors(g, 1, 0, 0);
    ParentAncestors(g, 2, 1, 0);
    ParentAncestors(g, 2, 1, 1);
    ParentAncestors(g, 3, 1, 1);
    ParentAncestors(g, 4, 3, 1);
    AncestorStep(g, 0, 1);
    forall x | IsAncestor(g, x, 2)
      ensures x != 4
    {
      ReachableIsOlder(g, 2, x);
    }
    var hit := (x: CommitId) => IsAncestor(g, x, 2);
    SearchRow(g, hit, [4]);
    assert Expand(g, [4]) == [0, 3];
    SearchRow(g, hit, [0, 3]);
  }

  lemma ReachableIsOlder(g: Graph, c: CommitId, x: CommitId)
    requires Acyclic(g) && IsAncestor(g, x, c)
    ensures x <= c
  {
    var n: nat :| ReachesIn(g, c, x, n);
    ReachesOlder(g, c, x, n);
  }

  lemma {:induction false} ReachesOlder(g: Graph, c: CommitId, x: CommitId, n: nat)
    requires Acyclic(g) && ReachesIn(g, c, x, n)
    ensures x <= c
    decreases n
  {
    if n > 0 {
      var p :| p in ParentsOf(g, c) && ReachesIn(g, p, x, n - 1);
      assert p in g[c];
      ReachesOlder(g, p, x, n - 1);
    }
  }
}
