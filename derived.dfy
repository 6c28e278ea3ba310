/**
  The graphs Graf.java derives from another one, as functions of its adjacency:
  getReverse and getTransitiveClosure (decode of the successor array, then
  one round of two-step edges).
*/
module Derived {
  import opened Seqs
  import opened Adjacency
  import opened SuccessorArray

  /** Every successor entry of the graph. */
  function Targets(adj: Adj): set<int>
  {
    set k, v | k in adj && v in adj[k] :: v
  }

  lemma SwappedMember(ps: seq<(int, int)>, a: int, b: int)
    ensures (a, b) in Swapped(ps) <==> (b, a) in ps
  {
    if (a, b) in Swapped(ps) {
      var i :| 0 <= i < |ps| && Swapped(ps)[i] == (a, b);
      assert ps[i] == (b, a);
    }
    if (b, a) in ps {
      var i :| 0 <= i < |ps| && ps[i] == (b, a);
      assert Swapped(ps)[i] == (a, b);
    }
  }

  /**
    getReverse: a new graph holding every node, then addEdge(s, n) for each
    successor s of each node n, nodes in ascending order, lists in order.
  */
  function Reverse(adj: Adj): Adj
  {
    AddArcs(EmptyLists(adj.Keys), Swapped(Entries(adj, SortedSet(adj.Keys))))
  }

  /** Both ends of a pair are ends of the swapped pairs. */
  lemma SwappedEnds(es: seq<(int, int)>, k: int, t: int)
    requires (k, t) in es
    ensures k in Ends(Swapped(es)) && t in Ends(Swapped(es))
  {
    var i :| 0 <= i < |es| && es[i] == (k, t);
    assert Swapped(es)[i] == (t, k);
  }

  /** Every end of the swapped pairs is an end of some pair. */
  lemma EndsOfSwapped(es: seq<(int, int)>, x: int)
    requires x in Ends(Swapped(es))
    ensures exists k, t :: (k, t) in es && (x == k || x == t)
  {
    var ps := Swapped(es);
    var i :| 0 <= i < |ps| && (ps[i].0 == x || ps[i].1 == x);
    var k, t := es[i].0, es[i].1;
    assert ps[i] == (t, k);
    assert (k, t) in es && (x == k || x == t);
  }

  /** The reverse holds the original nodes and every successor entry, and nothing else. */
  lemma ReverseKeys(adj: Adj)
    ensures Reverse(adj).Keys == adj.Keys + Targets(adj)
  {
    var ks := SortedSet(adj.Keys);
    var es := Entries(adj, ks);
    AddArcsKeys(EmptyLists(adj.Keys), Swapped(es));
    EntriesSpec(adj, ks);
    forall x | x in Ends(Swapped(es)) ensures x in adj.Keys + Targets(adj) {
      EndsOfSwapped(es, x);
    }
    forall t | t in Targets(adj) ensures t in Ends(Swapped(es)) {
      var k :| k in adj && t in adj[k];
      SwappedEnds(es, k, t);
    }
  }

  /** `u` follows `v` in the reverse exactly when `v` follows `u` in the graph. */
  lemma ReverseSuccessors(adj: Adj, v: int, u: int)
    requires v in Reverse(adj)
    ensures u in Reverse(adj)[v] <==> u in adj && v in adj[u]
  {
    var ks := SortedSet(adj.Keys);
    var es := Entries(adj, ks);
    AddArcsSuccessors(EmptyLists(adj.Keys), Swapped(es), v, u);
    SwappedMember(es, v, u);
    EntriesSpec(adj, ks);
  }

  /** Reversing a graph whose successors are all nodes keeps exactly its nodes. */
  lemma ReverseClosedKeys(adj: Adj)
    requires Closed(adj)
    ensures Reverse(adj).Keys == adj.Keys
  {
    ReverseKeys(adj);
    assert Targets(adj) <= adj.Keys;
  }

  /** The successors of the reverse are always nodes of the reverse. */
  lemma ReverseClosed(adj: Adj)
    ensures Closed(Reverse(adj))
  {
    var r := Reverse(adj);
    ReverseKeys(adj);
    forall k, t | k in r && t in r[k] ensures t in r {
      ReverseSuccessors(adj, k, t);
    }
  }

  /** Reversing twice gives back the nodes and successor sets of a graph whose successors are all nodes. */
  lemma ReverseTwice(adj: Adj)
    requires Closed(adj)
    ensures Reverse(Reverse(adj)).Keys == adj.Keys
    ensures forall u, v :: u in adj ==> (v in Reverse(Reverse(adj))[u] <==> v in adj[u])
  {
    var r := Reverse(adj);
    ReverseClosedKeys(adj);
    ReverseClosed(adj);
    ReverseClosedKeys(r);
    forall u, v | u in adj ensures v in Reverse(r)[u] <==> v in adj[u] {
      ReverseSuccessors(r, u, v);
      if v in r {
        ReverseSuccessors(adj, v, u);
      }
    }
  }

  /** The source of every pair that ends in `u`, in order (the predecessors getTransitiveClosure collects from getInEdges). */
  function Sources(ps: seq<(int, int)>, u: int): seq<int>
  {
    if ps == [] then [] else
    var last := ps[|ps| - 1];
    Sources(ps[..|ps| - 1], u) + if last.1 == u then [last.0] else []
  }

  /** The sources are exactly the first components of the pairs ending in `u`. */
  lemma {:induction false} SourcesMembers(ps: seq<(int, int)>, u: int)
    ensures forall p :: p in Sources(ps, u) <==> (p, u) in ps
  {
    if ps != [] {
      var init := ps[..|ps| - 1];
      SourcesMembers(init, u);
      assert ps == init + [ps[|ps| - 1]];
    }
  }

  /** The sources of the pairs ending in `u` among those of one more pair. */
  lemma SourcesSnoc(ps: seq<(int, int)>, q: (int, int), u: int)
    ensures Sources(ps + [q], u) == Sources(ps, u) + if q.1 == u then [q.0] else []
  {
    assert (ps + [q])[..|ps|] == ps;
  }

  /** The closure pairs of one more node. */
  lemma ClosureArcsSnoc(lists: Adj, ps: seq<(int, int)>, ks: seq<int>, u: int)
    requires forall i :: 0 <= i < |ks| ==> ks[i] in lists
    requires u in lists
    ensures ClosureArcs(lists, ps, ks + [u]) == ClosureArcs(lists, ps, ks) + Product(Sources(ps, u), lists[u])
  {
    assert (ks + [u])[..|ks|] == ks;
  }

  /** getReverse after one more node `n`: the arcs of its list, turned around, are added last. */
  lemma ReverseStep(adj: Adj, start: Adj, done: seq<int>, n: int)
    requires forall i :: 0 <= i < |done| ==> done[i] in adj
    requires n in adj
    ensures Swapped(Entries(adj, done + [n])) == Swapped(Entries(adj, done)) + Swapped(Arcs(n, adj[n]))
    ensures AddArcs(start, Swapped(Entries(adj, done + [n]))) ==
            AddArcs(AddArcs(start, Swapped(Entries(adj, done))), Swapped(Arcs(n, adj[n])))
  {
    EntriesSnoc(adj, done, n);
    SwappedConcat(Entries(adj, done), Arcs(n, adj[n]));
    AddArcsConcat(start, Swapped(Entries(adj, done)), Swapped(Arcs(n, adj[n])));
  }

  /** getTransitiveClosure after one more node `u`: its product pairs are added last. */
  lemma ClosureStep(lists: Adj, ps: seq<(int, int)>, base: Adj, basePairs: seq<(int, int)>, done: seq<int>, u: int)
    requires forall i :: 0 <= i < |done| ==> done[i] in lists
    requires u in lists
    ensures basePairs + ClosureArcs(lists, ps, done + [u]) ==
            basePairs + ClosureArcs(lists, ps, done) + Product(Sources(ps, u), lists[u])
    ensures AddArcs(base, ClosureArcs(lists, ps, done + [u])) ==
            AddArcs(AddArcs(base, ClosureArcs(lists, ps, done)), Product(Sources(ps, u), lists[u]))
  {
    ClosureArcsSnoc(lists, ps, done, u);
    ConcatAssoc(basePairs, ClosureArcs(lists, ps, done), Product(Sources(ps, u), lists[u]));
    AddArcsConcat(base, ClosureArcs(lists, ps, done), Product(Sources(ps, u), lists[u]));
  }

  /** addEdge(p, s) for every p of `sources`, and for each, every s of `succ`. */
  function Product(sources: seq<int>, succ: seq<int>): seq<(int, int)>
  {
    if sources == [] then [] else
    Product(sources[..|sources| - 1], succ) + Arcs(sources[|sources| - 1], succ)
  }

  /** The product holds exactly the pairs of a source and a successor. */
  lemma {:induction false} ProductMembers(sources: seq<int>, succ: seq<int>)
    ensures forall p, s :: (p, s) in Product(sources, succ) <==> p in sources && s in succ
  {
    if sources != [] {
      var init := sources[..|sources| - 1];
      ProductMembers(init, succ);
      assert sources == init + [sources[|sources| - 1]];
    }
  }

  /** The edges getTransitiveClosure adds, node by node in the order of `ks`. */
  function ClosureArcs(lists: Adj, ps: seq<(int, int)>, ks: seq<int>): seq<(int, int)>
    requires forall i :: 0 <= i < |ks| ==> ks[i] in lists
  {
    if ks == [] then [] else
    var u := ks[|ks| - 1];
    ClosureArcs(lists, ps, ks[..|ks| - 1]) + Product(Sources(ps, u), lists[u])
  }

  /** (x, y) is added exactly when some node u of `ks` has an edge x -> u and y among its successors. */
  lemma {:induction false} ClosureArcsSpec(lists: Adj, ps: seq<(int, int)>, ks: seq<int>, x: int, y: int)
    requires forall i :: 0 <= i < |ks| ==> ks[i] in lists
    ensures (x, y) in ClosureArcs(lists, ps, ks) <==> exists u :: u in ks && (x, u) in ps && y in lists[u]
  {
    if ks != [] {
      var init := ks[..|ks| - 1];
      var u := ks[|ks| - 1];
      ClosureArcsSpec(lists, ps, init, x, y);
      assert ks == init + [u];
      ProductMembers(Sources(ps, u), lists[u]);
      SourcesMembers(ps, u);
      if (x, y) in Product(Sources(ps, u), lists[u]) {
        assert u in ks && (x, u) in ps && y in lists[u];
      }
      if exists w :: w in ks && (x, w) in ps && y in lists[w] {
        var w :| w in ks && (x, w) in ps && y in lists[w];
        if w != u {
          assert w in init;
        }
      }
    }
  }

  /**
    getTransitiveClosure on a graph with adjacency `adj` and edge pairs `ps`:
    the graph built from toSuccessorArray(), then addEdge(p, s) for every
    node u in ascending order, every source p of an edge into u and every
    successor s of u (already sorted by toSuccessorArray).
  */
  function ClosureAdj(adj: Adj, ps: seq<(int, int)>): Adj
  {
    AddArcs(Decode(Encode(adj)).adj, Added(adj, ps))
  }

  /** The pairs getTransitiveClosure adds, in the order it adds them. */
  function Added(adj: Adj, ps: seq<(int, int)>): seq<(int, int)>
  {
    ClosureArcs(SortedLists(adj), ps, SortedSet(adj.Keys))
  }

  /** The edge list of the closure: one per decoded entry, then one per added pair. */
  function ClosurePairs(adj: Adj, ps: seq<(int, int)>): seq<(int, int)>
  {
    Decode(Encode(adj)).pairs + Added(adj, ps)
  }

  /**
    For a graph with ids 1..n and lists without 0 (where the successor-array
    round trip keeps every successor set, duplicates or not), `y` follows `x` in the closure exactly
    when it did in the graph or some edge x -> u of the edge list leads to a
    node u that has `y` as a successor: one round of two-step paths, no
    fixpoint.
  */
  lemma ClosureSuccessors(adj: Adj, ps: seq<(int, int)>, x: int, y: int)
    requires |adj| >= 1 && Dense(adj) && ZeroFree(adj)
    requires x in ClosureAdj(adj, ps)
    ensures y in ClosureAdj(adj, ps)[x] <==>
              (x in adj && y in adj[x]) || exists u :: u in adj && (x, u) in ps && y in adj[u]
  {
    DecodedSuccessors(adj, x, y);
    AddArcsSuccessors(Decode(Encode(adj)).adj, Added(adj, ps), x, y);
    AddedSpec(adj, ps, x, y);
  }

  /** The pair (x, y) is added exactly when some edge x -> u leads to a node u with successor y. */
  lemma AddedSpec(adj: Adj, ps: seq<(int, int)>, x: int, y: int)
    ensures (x, y) in Added(adj, ps) <==> exists u :: u in adj && (x, u) in ps && y in adj[u]
  {
    var ks := SortedSet(adj.Keys);
    var sl := SortedLists(adj);
    ClosureArcsSpec(sl, ps, ks, x, y);
    if exists u :: u in ks && (x, u) in ps && y in sl[u] {
      var u :| u in ks && (x, u) in ps && y in sl[u];
      SortMember(adj[u], y);
    }
    if exists u :: u in adj && (x, u) in ps && y in adj[u] {
      var u :| u in adj && (x, u) in ps && y in adj[u];
      SortMember(adj[u], y);
      assert u in ks && y in sl[u];
    }
  }

  /** In the decoded graph `y` follows `x` exactly when it did in the graph. */
  lemma DecodedSuccessors(adj: Adj, x: int, y: int)
    requires |adj| >= 1 && Dense(adj) && ZeroFree(adj)
    ensures x in Decode(Encode(adj)).adj <==> x in adj
    ensures x in adj ==> (y in Decode(Encode(adj)).adj[x] <==> y in adj[x])
  {
    RoundTripMembers(adj);
  }

  /** Decoding the encoded graph gives back its nodes. */
  lemma DecodedKeys(adj: Adj)
    requires |adj| >= 1 && Dense(adj) && ZeroFree(adj)
    ensures Decode(Encode(adj)).adj.Keys == adj.Keys
  {
    RoundTripMembers(adj);
  }

  /** The closure keeps every node of the graph. */
  lemma ClosureKeepsNodes(adj: Adj, ps: seq<(int, int)>)
    requires |adj| >= 1 && Dense(adj) && ZeroFree(adj)
    ensures adj.Keys <= ClosureAdj(adj, ps).Keys
  {
    DecodedKeys(adj);
    AddArcsExtends(Decode(Encode(adj)).adj, Added(adj, ps));
  }

  /** On the chain 1 -> 2 -> 3 -> 4 one round adds 1 -> 3 but not 1 -> 4, though 4 is reachable from 1. */
  lemma ClosureIsOnePass(adj: Adj, ps: seq<(int, int)>)
    requires Chain(adj) && ChainEdges(ps)
    ensures 1 in ClosureAdj(adj, ps) && 3 in ClosureAdj(adj, ps)[1] && 4 !in ClosureAdj(adj, ps)[1]
    ensures Reaches(adj, 1, 4)
  {
    ChainShape(adj);
    ClosureKeepsNodes(adj, ps);
    ClosureSuccessors(adj, ps, 1, 3);
    assert 2 in adj && ps[0] == (1, 2) && 3 in adj[2];
    ClosureSuccessors(adj, ps, 1, 4);
    ChainOneStep(adj, ps);
    ChainReaches(adj);
  }

  lemma ChainReaches(adj: Adj)
    requires Chain(adj)
    ensures Reaches(adj, 1, 4)
  {
    assert IsPath(adj, [1, 2, 3, 4]);
  }

  /** The edge list of that graph. */
  ghost predicate ChainEdges(ps: seq<(int, int)>)
  {
    |ps| == 3 && ps[0] == (1, 2) && ps[1] == (2, 3) && ps[2] == (3, 4)
  }

  /** The graph 1 -> 2 -> 3 -> 4. */
  ghost predicate Chain(adj: Adj)
  {
    adj.Keys == {1, 2, 3, 4} && adj[1] == [2] && adj[2] == [3] && adj[3] == [4] && adj[4] == []
  }

  lemma ChainShape(adj: Adj)
    requires Chain(adj)
    ensures |adj| >= 1 && Dense(adj) && ZeroFree(adj)
  {
    assert |adj.Keys| == 4;
  }

  lemma ChainOneStep(adj: Adj, ps: seq<(int, int)>)
    requires Chain(adj) && ChainEdges(ps)
    ensures 4 !in adj[1] && !exists u :: u in adj && (1, u) in ps && 4 in adj[u]
  {
    forall u | (1, u) in ps ensures u == 2 {
      var i :| 0 <= i < |ps| && ps[i] == (1, u);
      assert i == 0;
    }
  }
}
