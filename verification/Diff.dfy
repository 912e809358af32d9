/** The difference of two commit states: one entry per path whose value differs. */
module Diff {
  import opened Wrappers
  import opened StringOrder

  datatype Change<+V> = Added(to: V) | Removed(from: V) | Modified(from: V, to: V)

  datatype Entry<+V> = Entry(path: string, change: Change<V>)

  /** The entry of one path, if its value differs. */
  function ChangeAt<V(==)>(p: string, a: map<string, V>, b: map<string, V>): Option<Change<V>> {
    if p !in a && p in b then Some(Added(b[p]))
    else if p in a && p !in b then Some(Removed(a[p]))
    else if p in a && p in b && a[p] != b[p] then Some(Modified(a[p], b[p]))
    else None
  }

  ghost function DiffOver<V>(paths: seq<string>, a: map<string, V>, b: map<string, V>): seq<Entry<V>> {
    if paths == [] then []
    else
      var rest := DiffOver(paths[1..], a, b);
      var change := ChangeAt(paths[0], a, b);
      if change.Some? then [Entry(paths[0], change.value)] + rest else rest
  }

  ghost function DiffOf<V>(a: map<string, V>, b: map<string, V>): seq<Entry<V>> {
    DiffOver(SortedPaths(a.Keys + b.Keys), a, b)
  }

  lemma {:induction false} DiffOverAppend<V>(s: seq<string>, t: seq<string>, a: map<string, V>, b: map<string, V>)
    ensures DiffOver(s + t, a, b) == DiffOver(s, a, b) + DiffOver(t, a, b)
  {
    if s == [] {
      assert s + t == t;
    } else {
      assert (s + t)[1..] == s[1..] + t;
      DiffOverAppend(s[1..], t, a, b);
    }
  }

  lemma DiffOverNext<V>(paths: seq<string>, i: nat, a: map<string, V>, b: map<string, V>)
    requires i < |paths|
    ensures var change := ChangeAt(paths[i], a, b);
            DiffOver(paths[..i + 1], a, b) ==
            DiffOver(paths[..i], a, b) + if change.Some? then [Entry(paths[i], change.value)] else []
  {
    var last := [paths[i]];
    assert paths[..i + 1] == paths[..i] + last;
    DiffOverAppend(paths[..i], last, a, b);
    assert last[1..] == [] && DiffOver(last[1..], a, b) == [];
  }

  method ComputeDiff<V(==)>(a: map<string, V>, b: map<string, V>) returns (out: seq<Entry<V>>)
    ensures out == DiffOf(a, b)
  {
    var paths := SortPaths(a.Keys + b.Keys);
    out := [];
    for i := 0 to |paths|
      invariant out == DiffOver(paths[..i], a, b)
    {
      DiffOverNext(paths, i, a, b);
      var change := ChangeAt(paths[i], a, b);
      if change.Some? {
        out := out + [Entry(paths[i], change.value)];
      }
    }
    assert paths[..|paths|] == paths;
  }

  // ------------------------------------------------------- what a diff means

  ghost predicate DiffersAt<V>(p: string, a: map<string, V>, b: map<string, V>) {
    (p in a) != (p in b) || (p in a && p in b && a[p] != b[p])
  }

  function ApplyEntry<V>(e: Entry<V>, m: map<string, V>): map<string, V> {
    match e.change
    case Added(v) => m[e.path := v]
    case Removed(_) => m - {e.path}
    case Modified(_, v) => m[e.path := v]
  }

  function Apply<V>(entries: seq<Entry<V>>, m: map<string, V>): map<string, V> {
    if entries == [] then m else Apply(entries[1..], ApplyEntry(entries[0], m))
  }

  function Inverse<V>(c: Change<V>): Change<V> {
    match c
    case Added(v) => Removed(v)
    case Removed(v) => Added(v)
    case Modified(v, w) => Modified(w, v)
  }

  function InverseAll<V>(entries: seq<Entry<V>>): seq<Entry<V>> {
    if entries == [] then []
    else [Entry(entries[0].path, Inverse(entries[0].change))] + InverseAll(entries[1..])
  }

  ghost predicate AgreeOn<V>(m: map<string, V>, n: map<string, V>, p: string) {
    (p in m <==> p in n) && (p in m && p in n ==> m[p] == n[p])
  }

  lemma {:induction false} ApplyDiffOver<V>(paths: seq<string>, a: map<string, V>, b: map<string, V>, m: map<string, V>)
    requires StrictlySorted(paths)
    requires forall p | p in paths :: AgreeOn(m, a, p)
    ensures forall p | p in paths :: AgreeOn(Apply(DiffOver(paths, a, b), m), b, p)
    ensures forall p | p !in paths :: AgreeOn(Apply(DiffOver(paths, a, b), m), m, p)
  {
    if paths != [] {
      var p := paths[0];
      var change := ChangeAt(p, a, b);
      var m' := if change.Some? then ApplyEntry(Entry(p, change.value), m) else m;
      assert AgreeOn(m, a, p);
      assert AgreeOn(m', b, p);
      assert forall q | q != p :: AgreeOn(m', m, q);
      forall q | q in paths[1..]
        ensures q in paths && q != p
      {
        Irreflexive(q);
        var i :| 0 <= i < |paths[1..]| && paths[1..][i] == q;
        assert paths[i + 1] == q;
      }
      ApplyDiffOver(paths[1..], a, b, m');
      var out := DiffOver(paths, a, b);
      if change.Some? {
        assert out[0] == Entry(p, change.value) && out[1..] == DiffOver(paths[1..], a, b);
      }
      assert Apply(out, m) == Apply(DiffOver(paths[1..], a, b), m');
      forall q
        ensures q in paths ==> AgreeOn(Apply(out, m), b, q)
        ensures q !in paths ==> AgreeOn(Apply(out, m), m, q)
      {
        assert q in paths <==> q == p || q in paths[1..];
      }
    }
  }

  /** Applying the difference of two states to the first yields the second. */
  lemma ApplyDiff<V>(a: map<string, V>, b: map<string, V>)
    ensures Apply(DiffOf(a, b), a) == b
  {
    var paths := SortedPaths(a.Keys + b.Keys);
    ApplyDiffOver(paths, a, b, a);
    var r := Apply(DiffOf(a, b), a);
    forall p
      ensures (p in r <==> p in b) && (p in b ==> r[p] == b[p])
    {
      if p in paths {
        assert AgreeOn(r, b, p);
      } else {
        assert AgreeOn(r, a, p);
      }
    }
  }

  lemma {:induction false} InverseDiffOver<V>(paths: seq<string>, a: map<string, V>, b: map<string, V>)
    ensures DiffOver(paths, b, a) == InverseAll(DiffOver(paths, a, b))
  {
    if paths != [] {
      InverseDiffOver(paths[1..], a, b);
    }
  }

  /** Diffing the other way round exchanges added and removed and swaps the values. */
  lemma DiffIsInvertible<V>(a: map<string, V>, b: map<string, V>)
    ensures DiffOf(b, a) == InverseAll(DiffOf(a, b))
    ensures Apply(InverseAll(DiffOf(a, b)), b) == a
  {
    assert a.Keys + b.Keys == b.Keys + a.Keys;
    InverseDiffOver(SortedPaths(a.Keys + b.Keys), a, b);
    ApplyDiff(b, a);
  }

  function EntryPaths<V>(entries: seq<Entry<V>>): (r: seq<string>)
    ensures |r| == |entries| && forall i | 0 <= i < |r| :: r[i] == entries[i].path
  {
    if entries == [] then [] else [entries[0].path] + EntryPaths(entries[1..])
  }

  lemma {:induction false} DiffOverPaths<V>(paths: seq<string>, a: map<string, V>, b: map<string, V>)
    requires StrictlySorted(paths)
    ensures StrictlySorted(EntryPaths(DiffOver(paths, a, b)))
    ensures forall p :: p in EntryPaths(DiffOver(paths, a, b)) <==> p in paths && DiffersAt(p, a, b)
  {
    if paths != [] {
      DiffOverPaths(paths[1..], a, b);
      var rest := DiffOver(paths[1..], a, b);
      forall q | q in EntryPaths(rest)
        ensures Before(paths[0], q)
      {
        var i :| 0 <= i < |paths[1..]| && paths[1..][i] == q;
        assert paths[i + 1] == q;
      }
      forall q
        ensures q in paths <==> q == paths[0] || q in paths[1..]
      {
      }
    }
  }

  /** The entries are strictly sorted by path, one for each path whose value differs. */
  lemma DiffIsExact<V>(a: map<string, V>, b: map<string, V>)
    ensures StrictlySorted(EntryPaths(DiffOf(a, b)))
    ensures forall p :: p in EntryPaths(DiffOf(a, b)) <==> DiffersAt(p, a, b)
  {
    DiffOverPaths(SortedPaths(a.Keys + b.Keys), a, b);
  }
}
