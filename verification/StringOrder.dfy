/** Paths in the order Python sorts strings: by code point, shorter first on a tie. */
module StringOrder {

  predicate Before(a: string, b: string) {
    if b == "" then false
    else if a == "" then true
    else if a[0] != b[0] then a[0] < b[0]
    else Before(a[1..], b[1..])
  }

  /** A string comes before another when it has the smaller character where they first differ, or ends there. */
  lemma {:induction false} BeforeIff(a: string, b: string) returns (k: nat)
    ensures k <= |a| && k <= |b| && a[..k] == b[..k] && (k < |a| && k < |b| ==> a[k] != b[k])
    ensures Before(a, b) <==> k < |b| && (k < |a| ==> a[k] < b[k])
  {
    if a == "" || b == "" || a[0] != b[0] {
      k := 0;
    } else {
      var j := BeforeIff(a[1..], b[1..]);
      k := j + 1;
      assert a[..k] == [a[0]] + a[1..][..j] && b[..k] == [b[0]] + b[1..][..j];
    }
  }

  lemma Irreflexive(a: string)
    ensures !Before(a, a)
  {
  }

  lemma {:induction false} Transitive(a: string, b: string, c: string)
    requires Before(a, b) && Before(b, c)
    ensures Before(a, c)
  {
    if a != "" && a[0] == b[0] == c[0] {
      Transitive(a[1..], b[1..], c[1..]);
    }
  }

  lemma {:induction false} Total(a: string, b: string)
    requires a != b
    ensures Before(a, b) || Before(b, a)
  {
    if a != "" && b != "" && a[0] == b[0] {
      assert a == [a[0]] + a[1..] && b == [b[0]] + b[1..];
      Total(a[1..], b[1..]);
    }
  }

  ghost predicate StrictlySorted(s: seq<string>) {
    forall i, j | 0 <= i < j < |s| :: Before(s[i], s[j])
  }

  function Insert(p: string, s: seq<string>): (r: seq<string>)
    ensures multiset(r) == multiset(s) + multiset{p}
  {
    if s == [] then [p]
    else if Before(p, s[0]) then [p] + s
    else
      assert s == [s[0]] + s[1..];
      [s[0]] + Insert(p, s[1..])
  }

  lemma {:induction false} InsertSorted(p: string, s: seq<string>)
    requires StrictlySorted(s) && p !in s
    ensures StrictlySorted(Insert(p, s))
    ensures forall x :: x in Insert(p, s) <==> x == p || x in s
  {
    if s == [] {
    } else if Before(p, s[0]) {
      forall i | 0 <= i < |s|
        ensures Before(p, s[i])
      {
        if i > 0 {
          Transitive(p, s[0], s[i]);
        }
      }
    } else {
      InsertSorted(p, s[1..]);
      Total(p, s[0]);
      assert forall x :: x in s <==> x == s[0] || x in s[1..];
      forall x | x in Insert(p, s[1..])
        ensures Before(s[0], x)
      {
        if x != p {
          var i :| 0 <= i < |s[1..]| && s[1..][i] == x;
          assert s[i + 1] == x;
        }
      }
    }
  }

  /** `sorted(paths)` for a set of paths. */
  ghost function SortedPaths(paths: set<string>): (r: seq<string>)
    ensures StrictlySorted(r)
    ensures forall x :: x in r <==> x in paths
  {
    if paths == {} then [] else
      var p :| p in paths;
      InsertSorted(p, SortedPaths(paths - {p}));
      Insert(p, SortedPaths(paths - {p}))
  }

  /** There is only one way to sort a set of paths. */
  lemma {:induction false} SortedUnique(a: seq<string>, b: seq<string>)
    requires StrictlySorted(a) && StrictlySorted(b)
    requires forall x :: x in a <==> x in b
    ensures a == b
  {
    if a != [] { assert a[0] in b; }
    if b != [] { assert b[0] in a; }
    if a != [] && b != [] {
      assert a[0] in b && b[0] in a;
      var i :| 0 <= i < |b| && b[i] == a[0];
      var j :| 0 <= j < |a| && a[j] == b[0];
      if i > 0 && j > 0 {
        Transitive(a[0], b[0], a[0]);
        Irreflexive(a[0]);
      }
      forall x
        ensures x in a[1..] <==> x in b[1..]
      {
        Irreflexive(x);
        assert x in a[1..] ==> Before(a[0], x);
        assert x in b[1..] ==> Before(b[0], x);
        assert x in a <==> x == a[0] || x in a[1..];
        assert x in b <==> x == b[0] || x in b[1..];
      }
      SortedUnique(a[1..], b[1..]);
      assert a == [a[0]] + a[1..] && b == [b[0]] + b[1..];
    }
  }

  method SortPaths(paths: set<string>) returns (r: seq<string>)
    ensures r == SortedPaths(paths)
  {
    r := [];
    var rest := paths;
    while rest != {}
      invariant rest <= paths && StrictlySorted(r)
      invariant forall x :: x in r <==> x in paths - rest
      decreases rest
    {
      var p :| p in rest;
      InsertSorted(p, r);
      r := Insert(p, r);
      rest := rest - {p};
    }
    SortedUnique(r, SortedPaths(paths));
  }
}
