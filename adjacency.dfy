/**
  The adjacency structure of a graph (the TreeMap<Node, List<Node>> of
  Graf.java) as a value: a map from node id to its successor ids in list
  order. The functions here describe what the mutators of Graf do to it, and
  define paths and reachability for the traversals.
*/
module Adjacency {
  import opened Seqs

  type Adj = map<int, seq<int>>

  /** The node with that id exists, creating it with no successors if it did not. */
  function WithNode(adj: Adj, id: int): (r: Adj)
    ensures r.Keys == adj.Keys + {id}
    ensures forall k :: k in adj ==> r[k] == adj[k]
    ensures id !in adj ==> r[id] == []
  {
    if id in adj then adj else adj[id := []]
  }

  /**
    The adjacency after the directed addEdge(u, v): both endpoints exist and
    `v` is appended to the successors of `u`, whether or not it was there.
  */
  function AddArc(adj: Adj, u: int, v: int): (r: Adj)
    ensures r.Keys == adj.Keys + {u, v}
    ensures r[u] == (if u in adj then adj[u] else []) + [v]
    ensures forall k :: k in r && k != u ==> r[k] == (if k in adj then adj[k] else [])
  {
    var a := WithNode(WithNode(adj, u), v);
    a[u := a[u] + [v]]
  }

  /**
    The adjacency after the undirected addEdge(u, v): both endpoints exist and
    `v` is appended to the successors of `u` only when it is not there yet.
  */
  function AddLink(adj: Adj, u: int, v: int): (r: Adj)
    ensures r.Keys == adj.Keys + {u, v}
    ensures u in adj && v in adj[u] ==> r[u] == adj[u]
    ensures !(u in adj && v in adj[u]) ==> r[u] == (if u in adj then adj[u] else []) + [v]
    ensures forall k :: k in r && k != u ==> r[k] == (if k in adj then adj[k] else [])
  {
    var a := WithNode(WithNode(adj, u), v);
    if v in a[u] then a else a[u := a[u] + [v]]
  }

  /** The successor lists of a set of new nodes: all empty. */
  function EmptyLists(keys: set<int>): (r: Adj)
    ensures r.Keys == keys && forall k :: k in r ==> r[k] == []
  {
    map k | k in keys :: []
  }

  /** Repeated directed addEdge(p.0, p.1) for the pairs of `ps`, in order. */
  function AddArcs(adj: Adj, ps: seq<(int, int)>): Adj
  {
    if ps == [] then adj else
    var last := ps[|ps| - 1];
    AddArc(AddArcs(adj, ps[..|ps| - 1]), last.0, last.1)
  }

  /** Adding the arcs of `ps + qs` is adding those of `ps`, then those of `qs`. */
  lemma {:induction false} AddArcsConcat(adj: Adj, ps: seq<(int, int)>, qs: seq<(int, int)>)
    ensures AddArcs(adj, ps + qs) == AddArcs(AddArcs(adj, ps), qs)
  {
    if qs != [] {
      var init, last := qs[..|qs| - 1], qs[|qs| - 1];
      assert ps + qs == (ps + init) + [last];
      calc {
        AddArcs(adj, ps + qs);
        { AddArcsSnoc(adj, ps + init, last); }
        AddArc(AddArcs(adj, ps + init), last.0, last.1);
        { AddArcsConcat(adj, ps, init); }
        AddArc(AddArcs(AddArcs(adj, ps), init), last.0, last.1);
      }
    } else {
      assert ps + qs == ps;
    }
  }

  /** Adding one more arc. */
  lemma AddArcsSnoc(adj: Adj, ps: seq<(int, int)>, p: (int, int))
    ensures AddArcs(adj, ps + [p]) == AddArc(AddArcs(adj, ps), p.0, p.1)
  {
    assert (ps + [p])[..|ps|] == ps;
  }

  /** Both endpoints of every pair. */
  function Ends(ps: seq<(int, int)>): set<int>
  {
    (set i | 0 <= i < |ps| :: ps[i].0) + (set i | 0 <= i < |ps| :: ps[i].1)
  }

  lemma {:induction false} EndsSnoc(ps: seq<(int, int)>, q: (int, int))
    ensures Ends(ps + [q]) == Ends(ps) + {q.0, q.1}
  {
    var qs := ps + [q];
    forall x | x in Ends(qs) ensures x in Ends(ps) + {q.0, q.1} {
      var i :| 0 <= i < |qs| && (qs[i].0 == x || qs[i].1 == x);
      if i < |ps| {
        assert ps[i] == qs[i];
      }
    }
    forall x | x in Ends(ps) ensures x in Ends(qs) {
      var i :| 0 <= i < |ps| && (ps[i].0 == x || ps[i].1 == x);
      assert qs[i] == ps[i];
    }
    assert qs[|ps|] == q;
    assert q.0 in Ends(qs) && q.1 in Ends(qs);
  }

  /** Adding the arcs of `ps` creates exactly the endpoints of its pairs. */
  lemma {:induction false} AddArcsKeys(adj: Adj, ps: seq<(int, int)>)
    ensures AddArcs(adj, ps).Keys == adj.Keys + Ends(ps)
  {
    if ps != [] {
      var init := ps[..|ps| - 1];
      AddArcsKeys(adj, init);
      assert ps == init + [ps[|ps| - 1]];
      EndsSnoc(init, ps[|ps| - 1]);
    }
  }

  /** Adding arcs only ever appends: every old list is a prefix of its new one. */
  lemma {:induction false} AddArcsExtends(adj: Adj, ps: seq<(int, int)>)
    ensures forall x :: x in adj ==> x in AddArcs(adj, ps) && adj[x] <= AddArcs(adj, ps)[x]
  {
    if ps != [] {
      AddArcsExtends(adj, ps[..|ps| - 1]);
      AddArcsKeys(adj, ps[..|ps| - 1]);
    }
  }

  /** After adding the arcs of `ps`, `y` follows `x` exactly when it did before or (x, y) is one of the pairs. */
  lemma {:induction false} AddArcsSuccessors(adj: Adj, ps: seq<(int, int)>, x: int, y: int)
    requires x in AddArcs(adj, ps)
    ensures y in AddArcs(adj, ps)[x] <==> (x in adj && y in adj[x]) || (x, y) in ps
  {
    if ps != [] {
      var init := ps[..|ps| - 1];
      var last := ps[|ps| - 1];
      var a := AddArcs(adj, init);
      assert ps == init + [last];
      assert (x, y) in ps <==> (x, y) in init || (x, y) == last;
      if x in a {
        AddArcsSuccessors(adj, init, x, y);
      } else {
        AddArcsKeys(adj, init);
      }
    }
  }

  /** The pairs (k, s) for the successors `s` of `k`, in list order. */
  function Arcs(k: int, succ: seq<int>): (ps: seq<(int, int)>)
    ensures |ps| == |succ| && forall i :: 0 <= i < |succ| ==> ps[i] == (k, succ[i])
  {
    if succ == [] then [] else Arcs(k, succ[..|succ| - 1]) + [(k, succ[|succ| - 1])]
  }

  /** The successor entries of the nodes `ks`, node by node, each list in order. */
  function Entries(adj: Adj, ks: seq<int>): seq<(int, int)>
    requires forall i :: 0 <= i < |ks| ==> ks[i] in adj
  {
    if ks == [] then [] else Entries(adj, ks[..|ks| - 1]) + Arcs(ks[|ks| - 1], adj[ks[|ks| - 1]])
  }

  lemma {:induction false} EntriesSpec(adj: Adj, ks: seq<int>)
    requires forall i :: 0 <= i < |ks| ==> ks[i] in adj
    ensures forall x, y :: (x, y) in Entries(adj, ks) <==> x in ks && y in adj[x]
  {
    if ks != [] {
      var init := ks[..|ks| - 1];
      var k := ks[|ks| - 1];
      EntriesSpec(adj, init);
      assert ks == init + [k];
      forall x, y ensures (x, y) in Entries(adj, ks) <==> x in ks && y in adj[x] {
        if (x, y) in Arcs(k, adj[k]) {
          var i :| 0 <= i < |adj[k]| && Arcs(k, adj[k])[i] == (x, y);
        }
        if x == k && y in adj[k] {
          var i :| 0 <= i < |adj[k]| && adj[k][i] == y;
          assert Arcs(k, adj[k])[i] == (x, y);
        }
      }
    }
  }

  /** Every pair turned around. */
  function Swapped(ps: seq<(int, int)>): (r: seq<(int, int)>)
    ensures |r| == |ps| && forall i :: 0 <= i < |ps| ==> r[i] == (ps[i].1, ps[i].0)
  {
    if ps == [] then [] else Swapped(ps[..|ps| - 1]) + [(ps[|ps| - 1].1, ps[|ps| - 1].0)]
  }

  lemma SwappedConcat(ps: seq<(int, int)>, qs: seq<(int, int)>)
    ensures Swapped(ps + qs) == Swapped(ps) + Swapped(qs)
  {
  }

  /** The entries of one more node. */
  lemma EntriesSnoc(adj: Adj, ks: seq<int>, k: int)
    requires forall j :: 0 <= j < |ks| ==> ks[j] in adj
    requires k in adj
    ensures Entries(adj, ks + [k]) == Entries(adj, ks) + Arcs(k, adj[k])
  {
    assert (ks + [k])[..|ks|] == ks;
  }

  /** A nonempty walk along successor lists. */
  ghost predicate IsPath(adj: Adj, p: seq<int>)
  {
    |p| > 0 && forall i :: 0 <= i < |p| - 1 ==> p[i] in adj && p[i + 1] in adj[p[i]]
  }

  /** `b` can be reached from `a` by following successor lists (zero or more steps). */
  ghost predicate Reaches(adj: Adj, a: int, b: int)
  {
    exists p :: IsPath(adj, p) && p[0] == a && p[|p| - 1] == b
  }

  lemma ReachesSelf(adj: Adj, a: int)
    ensures Reaches(adj, a, a)
  {
    assert IsPath(adj, [a]);
  }

  lemma ReachesStep(adj: Adj, a: int, u: int, v: int)
    requires Reaches(adj, a, u) && u in adj && v in adj[u]
    ensures Reaches(adj, a, v)
  {
    var p :| IsPath(adj, p) && p[0] == a && p[|p| - 1] == u;
    var q := p + [v];
    assert IsPath(adj, q);
  }

  /** All successors of the members of `s` that are nodes are in `s`. */
  ghost predicate ClosedUnderSuccessors(adj: Adj, s: set<int>)
  {
    forall x, y :: x in s && x in adj && y in adj[x] ==> y in s
  }

  /** A set closed under successors that holds `a` holds everything `a` reaches. */
  lemma ClosedSetHoldsReachable(adj: Adj, s: set<int>, a: int, b: int)
    requires ClosedUnderSuccessors(adj, s) && a in s && Reaches(adj, a, b)
    ensures b in s
  {
    var p :| IsPath(adj, p) && p[0] == a && p[|p| - 1] == b;
    var i := 0;
    while i < |p| - 1
      invariant 0 <= i < |p| && p[i] in s
    {
      var x, y := p[i], p[i + 1];
      assert x in s && x in adj && y in adj[x];
      assert y in s;
      i := i + 1;
    }
  }

  /** Every successor entry is itself a node. */
  ghost predicate Closed(adj: Adj)
  {
    forall k, s :: k in adj && s in adj[k] ==> s in adj
  }

  /** Every successor entry of a node reachable from `a` is itself a node. */
  ghost predicate ClosedFrom(adj: Adj, a: int)
  {
    forall k, s :: k in adj && Reaches(adj, a, k) && s in adj[k] ==> s in adj
  }

  /**
    The TreeMap walk in ascending key order: `done` holds the keys visited so
    far, in order, and `rest` those still to come.
  */
  ghost predicate Visiting(adj: Adj, done: seq<int>, rest: set<int>)
  {
    rest <= adj.Keys &&
    (forall j :: 0 <= j < |done| ==> done[j] in adj && done[j] !in rest) &&
    done + SortedSet(rest) == SortedSet(adj.Keys)
  }

  lemma VisitingStart(adj: Adj)
    ensures Visiting(adj, [], adj.Keys)
  {
  }

  /** The next key of the walk is the least one still to come. */
  lemma VisitingStep(adj: Adj, done: seq<int>, rest: set<int>)
    requires Visiting(adj, done, rest) && rest != {}
    ensures Visiting(adj, done + [SetMin(rest)], rest - {SetMin(rest)})
  {
    var m := SetMin(rest);
    WalkOrderStep(adj.Keys, done, rest);
    WalkMembersStep(adj, done, rest, m);
  }

  lemma WalkOrderStep(keys: set<int>, done: seq<int>, rest: set<int>)
    requires rest != {} && done + SortedSet(rest) == SortedSet(keys)
    ensures done + [SetMin(rest)] + SortedSet(rest - {SetMin(rest)}) == SortedSet(keys)
  {
    SortedSetFirst(rest);
    ConcatAssoc(done, [SetMin(rest)], SortedSet(rest - {SetMin(rest)}));
  }

  lemma WalkMembersStep(adj: Adj, done: seq<int>, rest: set<int>, m: int)
    requires m in rest && rest <= adj.Keys
    requires forall j :: 0 <= j < |done| ==> done[j] in adj && done[j] !in rest
    ensures forall j :: 0 <= j < |done + [m]| ==> (done + [m])[j] in adj && (done + [m])[j] !in rest - {m}
  {
  }

  lemma VisitingDone(adj: Adj, done: seq<int>)
    requires Visiting(adj, done, {})
    ensures done == SortedSet(adj.Keys)
  {
    assert SortedSet({}) == [];
    assert done + [] == done;
  }
}
