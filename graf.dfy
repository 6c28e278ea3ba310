/**
  The graph store of Graf.java and UndirectedGraf.java. A graph is an object
  holding the adjacency map (the TreeMap from node to successor list, whose
  keys are visited in ascending id order) and the flat edge list; the
  undirected subclass is the same class with `kind == Undirected`, and each
  of its overrides branches on the kind. Node objects are their ids here
  (Node equality, hashing and ordering only look at the id).
*/
module Graphs {
  import opened Wrappers
  import opened Seqs
  import opened Nodes
  import opened Edges
  import opened Adjacency
  import opened SuccessorArray
  import opened Removal
  import opened Text
  import opened Dot
  import opened Derived
  import opened Traversal

  datatype Kind = Directed | Undirected

  /** The lists of the visited keys are sorted (Collections.sort in place), the others as in `adj`. */
  ghost predicate SortedOutside(lists: Adj, adj: Adj, rest: set<int>)
  {
    lists.Keys == adj.Keys && rest <= adj.Keys &&
    (forall k :: k in rest ==> lists[k] == adj[k]) &&
    (forall k :: k in lists && k !in rest ==> lists[k] == Sort(adj[k]))
  }

  /**
    `g` after the closure edges of the nodes `done` have been added: those
    arcs joined to `base`, those pairs appended to `basePairs`.
  */
  ghost predicate ClosedOver(g: Graf, a: Adj, ps: seq<(int, int)>, base: Adj, basePairs: seq<(int, int)>, done: seq<int>)
    reads g
  {
    (forall i :: 0 <= i < |done| ==> done[i] in a) &&
    g.Valid() && g.kind == Directed &&
    g.adj == AddArcs(base, ClosureArcs(a, ps, done)) &&
    Pairs(g.edges) == basePairs + ClosureArcs(a, ps, done)
  }

  lemma ClosedOverStart(g: Graf, a: Adj, ps: seq<(int, int)>)
    requires g.Valid() && g.kind == Directed
    ensures ClosedOver(g, a, ps, g.adj, Pairs(g.edges), [])
  {
    assert Pairs(g.edges) + [] == Pairs(g.edges);
  }

  lemma SortedOutsideStep(lists: Adj, adj: Adj, rest: set<int>, k: int)
    requires SortedOutside(lists, adj, rest) && k in rest
    ensures SortedOutside(lists[k := Sort(lists[k])], adj, rest - {k})
    ensures lists[k] == adj[k]
  {
  }

  lemma SortedOutsideDone(lists: Adj, adj: Adj)
    requires SortedOutside(lists, adj, {})
    ensures lists == SortedLists(adj)
  {
    var sorted := SortedLists(adj);
    forall k | k in lists ensures lists[k] == sorted[k] {
    }
  }

  /**
    The inner loop of toAdjMatrix for node `k`: a 1 at [k - 1][s - 1] for
    each successor `s`, every other cell as it was.
  */
  method MarkRow(m: array2<int>, k: int, succ: seq<int>)
    requires succ != [] ==> 1 <= k <= m.Length0
    requires forall s :: s in succ ==> 1 <= s <= m.Length1
    modifies m
    ensures forall i, j :: 0 <= i < m.Length0 && 0 <= j < m.Length1 ==>
              m[i, j] == if i == k - 1 && j + 1 in succ then 1 else old(m[i, j])
  {
    var b := 0;
    while b < |succ|
      invariant b <= |succ|
      invariant forall i, j :: 0 <= i < m.Length0 && 0 <= j < m.Length1 ==>
                  m[i, j] == if i == k - 1 && j + 1 in succ[..b] then 1 else old(m[i, j])
    {
      assert succ[..b + 1] == succ[..b] + [succ[b]] && succ[b] in succ;
      m[k - 1, succ[b] - 1] := 1;
      b := b + 1;
    }
    assert succ[..b] == succ;
  }

  class Graf {
    const kind: Kind
    var adj: Adj
    var edges: seq<Edge>

    /** Every edge object is in the list at most once: each was created by the call that added it. */
    ghost predicate Valid()
      reads this
    {
      NoDuplicates(edges)
    }

    /** Graf() (kind Directed) and UndirectedGraf() (kind Undirected): no node, no edge. */
    constructor (kind: Kind)
      ensures this.kind == kind && adj == map[] && edges == [] && Valid()
    {
      this.kind := kind;
      adj := map[];
      edges := [];
    }

    /**
      Graf(int... sa): node 1, then one block per node of the successor array,
      the last value ignored.
    */
    constructor FromSuccessorArray(sa: seq<int>)
      ensures kind == Directed && Valid()
      ensures adj == Decode(sa).adj && Pairs(edges) == Decode(sa).pairs
    {
      kind := Directed;
      adj := map[];
      edges := [];
      new;
      ReadSuccessorArray(sa);
    }

    /**
      UndirectedGraf(int... sa): the directed decoding, then a second pass
      adding the node of each block to the list of every value it holds. The
      lists it reads must exist, so every value must be an opened node.
    */
    constructor UndirectedFromSuccessorArray(sa: seq<int>)
      requires forall i :: 0 <= i < |Body(sa)| && Body(sa)[i] != 0 ==> 1 <= Body(sa)[i] <= 1 + Zeros(Body(sa))
      ensures kind == Undirected && Valid()
      ensures adj == UndirectedDecode(sa) && Pairs(edges) == Decode(sa).pairs
    {
      kind := Undirected;
      adj := map[];
      edges := [];
      new;
      ReadSuccessorArray(sa);
      RunNodes(Body(sa));
      var from := 1;
      var i := 0;
      while i < |sa|
        invariant i <= |Body(sa)|
        invariant Mirroring(from, adj) == MirrorRun(Decode(sa).adj, Body(sa)[..i])
        invariant Pairs(edges) == Decode(sa).pairs && Valid()
      {
        if i == |sa| - 1 {
          break;
        }
        var x := sa[i];
        assert Body(sa)[..i + 1][..i] == Body(sa)[..i] && Body(sa)[i] == x;
        if x != 0 {
          if from !in adj[x] {
            adj := adj[x := adj[x] + [from]];
          }
        } else {
          from := from + 1;
        }
        i := i + 1;
      }
      assert Body(sa)[..i] == Body(sa);
    }

    /** The loop shared by both successor-array constructors. */
    method ReadSuccessorArray(sa: seq<int>)
      requires adj == map[] && edges == []
      modifies this
      ensures adj == Decode(sa).adj && Pairs(edges) == Decode(sa).pairs && Valid()
    {
      var from := 1;
      AddNode(from);
      var i := 0;
      while i < |sa|
        invariant i <= |Body(sa)|
        invariant Decoding(from, adj, Pairs(edges)) == Run(Body(sa)[..i])
        invariant Valid()
      {
        if i == |sa| - 1 {
          break;
        }
        var x := sa[i];
        assert Body(sa)[..i + 1] == Body(sa)[..i] + [x];
        RunSnoc(Body(sa)[..i], x);
        from := ReadValue(from, x);
        i := i + 1;
      }
      assert Body(sa)[..i] == Body(sa);
    }

    /** One value of the successor-array loop: an edge from `from`, or the next node on a 0. */
    method ReadValue(from: int, x: int) returns (next: int)
      requires Valid() && from in adj
      modifies this
      ensures Valid()
      ensures Decoding(next, adj, Pairs(edges)) == Step(Decoding(from, old(adj), Pairs(old(edges))), x)
    {
      next := from;
      if x != 0 {
        if x !in adj[from] {
          adj := adj[from := adj[from] + [x]];
        }
        var e := new Edge(Node(from, None), Node(x, None));
        PairsSnoc(edges, e);
        AppendEdge(e);
      } else {
        next := from + 1;
        AddNode(next);
      }
    }

    /** getNode(id): a node with that id when the graph has one, otherwise null. */
    function GetNode(id: int): (r: Option<Node>)
      reads this
      ensures r.Some? <==> id in adj
      ensures r.Some? ==> r.value.id == id
    {
      if id in adj then Some(Node(id, None)) else None
    }

    /** getSuccessors(id): the successor list, or null for a missing node. */
    function GetSuccessors(id: int): (r: Option<seq<int>>)
      reads this
      ensures r.Some? <==> id in adj
      ensures r.Some? ==> r.value == adj[id]
    {
      if id in adj then Some(adj[id]) else None
    }

    function ExistsNode(id: int): bool
      reads this
    {
      id in adj
    }

    function NbNodes(): nat
      reads this
    {
      |adj|
    }

    function NbEdges(): nat
      reads this
    {
      |edges|
    }

    /** getAllNodes: the ids of the nodes in ascending order, each once. */
    function GetAllNodes(): (r: seq<int>)
      reads this
      ensures |r| == NbNodes()
      ensures forall k :: k in r <==> ExistsNode(k)
      ensures forall i, j :: 0 <= i < j < |r| ==> r[i] < r[j]
    {
      SortedSet(adj.Keys)
    }

    /**
      getOutEdges(id): the edges leaving `id` in list order; the undirected
      override returns getIncidentEdges(id), every edge touching `id`.
    */
    function GetOutEdges(id: int): (r: seq<Edge>)
      reads this
      ensures forall i :: 0 <= i < |r| ==> r[i] in edges
      ensures forall i :: 0 <= i < |r| ==> if kind == Directed then r[i].from.id == id else Touches(r[i], id)
      ensures forall i :: 0 <= i < |edges| && kind == Directed && edges[i].from.id == id ==> edges[i] in r
      ensures forall i :: 0 <= i < |edges| && kind == Undirected && Touches(edges[i], id) ==> edges[i] in r
      ensures Subsequence(r, edges)
    {
      if kind == Directed then OutEdges(edges, id) else IncidentEdges(edges, id)
    }

    /**
      getInEdges(id): the edges entering `id` in list order; the undirected
      override returns getIncidentEdges(id).
    */
    function GetInEdges(id: int): (r: seq<Edge>)
      reads this
      ensures forall i :: 0 <= i < |r| ==> r[i] in edges
      ensures forall i :: 0 <= i < |r| ==> if kind == Directed then r[i].to.id == id else Touches(r[i], id)
      ensures forall i :: 0 <= i < |edges| && kind == Directed && edges[i].to.id == id ==> edges[i] in r
      ensures forall i :: 0 <= i < |edges| && kind == Undirected && Touches(edges[i], id) ==> edges[i] in r
      ensures Subsequence(r, edges)
    {
      if kind == Directed then InEdges(edges, id) else IncidentEdges(edges, id)
    }

    /** getIncidentEdges(id), the same in both classes: the edges with `id` at either end, in list order. */
    function GetIncidentEdges(id: int): (r: seq<Edge>)
      reads this
      ensures forall i :: 0 <= i < |r| ==> r[i] in edges && Touches(r[i], id)
      ensures forall i :: 0 <= i < |edges| && Touches(edges[i], id) ==> edges[i] in r
      ensures Subsequence(r, edges)
    {
      IncidentEdges(edges, id)
    }

    /** In an undirected graph the out- and in-edges of a node are its incident edges. */
    lemma UndirectedEdgeQueries(id: int)
      requires kind == Undirected
      ensures GetOutEdges(id) == GetIncidentEdges(id) && GetInEdges(id) == GetIncidentEdges(id)
    {
    }

    /** getEdge(from, to): the first edge from -> to of the list, or null when there is none. */
    function GetEdge(u: int, v: int): (r: Option<Edge>)
      reads this
      ensures r.None? <==> (u, v) !in Pairs(edges)
      ensures r.Some? ==> (u, v) in Pairs(edges) && r.value == edges[IndexOf(Pairs(edges), (u, v))]
      ensures r.Some? ==> r.value.from.id == u && r.value.to.id == v
    {
      FirstEdgeAt(edges, u, v);
      FirstEdge(edges, u, v)
    }

    function GetAllEdges(): seq<Edge>
      reads this
    {
      edges
    }

    /**
      inDegree(id): the number of listed edges entering `id`; the undirected
      override is the size of its successor list, which must exist.
    */
    function InDegree(id: int): (r: nat)
      reads this
      requires kind == Undirected ==> id in adj
      ensures kind == Directed ==> r == |GetInEdges(id)|
      ensures kind == Undirected ==> r == |adj[id]|
    {
      if kind == Directed then CountIn(edges, id) else |adj[id]|
    }

    /** outDegree(id): the size of the successor list, which must exist (both classes). */
    function OutDegree(id: int): (r: nat)
      reads this
      requires id in adj
    {
      |adj[id]|
    }

    /** degree(id): inDegree plus outDegree; the undirected override is the size of the successor list. */
    function Degree(id: int): (r: nat)
      reads this
      requires id in adj
    {
      if kind == Directed then InDegree(id) + OutDegree(id) else |adj[id]|
    }

    /**
      The degrees: in a directed graph degree is the number of edges entering
      plus the number of successor entries; in an undirected graph all three
      are the number of successor entries.
    */
    lemma Degrees(id: int)
      requires id in adj
      ensures kind == Directed ==> Degree(id) == |InEdges(edges, id)| + |adj[id]|
      ensures kind == Undirected ==> InDegree(id) == Degree(id) == OutDegree(id) == |adj[id]|
    {
    }

    /**
      addNode(id): the node exists with an empty successor list, even when it
      existed before; the other nodes and the edge list are untouched.
    */
    method AddNode(id: int)
      modifies this
      ensures adj == old(adj)[id := []] && edges == old(edges)
      ensures ExistsNode(id) && GetSuccessors(id) == Some([])
      ensures forall k :: k != id ==> ExistsNode(k) == old(ExistsNode(k)) && GetSuccessors(k) == old(GetSuccessors(k))
    {
      adj := adj[id := []];
    }

    /**
      adjacent(u, v): an entry u -> v or v -> u. It reads the list of `u`,
      and the list of `v` unless `v` follows `u`, so those must exist.
    */
    function Adjacent(u: int, v: int): (r: bool)
      reads this
      requires u in adj && (v in adj[u] || v in adj)
      ensures r <==> v in adj[u] || (v in adj && u in adj[v])
    {
      v in adj[u] || u in adj[v]
    }

    /** existsEdge(u, v): false for a missing node, otherwise adjacency in either direction. */
    function ExistsEdge(u: int, v: int): (r: bool)
      reads this
      ensures r ==> u in adj && v in adj
      ensures u in adj && v in adj ==> (r <==> v in adj[u] || u in adj[v])
    {
      if GetNode(u).None? || GetNode(v).None? then false else Adjacent(u, v)
    }

    /** existsEdge(u, v) does not depend on the direction asked, even in a directed graph. */
    lemma ExistsEdgeSymmetric(u: int, v: int)
      ensures ExistsEdge(u, v) == ExistsEdge(v, u)
    {
    }

    /** existsEdge(e): both ends are nodes and this very edge object is in the list. */
    function ExistsEdgeRef(e: Edge): (r: bool)
      reads this
      ensures r <==> e.from.id in adj && e.to.id in adj && e in edges
    {
      if GetNode(e.from.id).None? || GetNode(e.to.id).None? then false else e in edges
    }

    /**
      addEdge(u, v): missing endpoints are created and one new edge u -> v is
      appended. A directed graph appends `v` to the list of `u` every time; an
      undirected one only when it is not there. Its test for an equal edge
      already listed compares references to new objects, so it never finds
      one and the edge is always appended.
    */
    method AddEdge(u: int, v: int)
      requires Valid()
      modifies this
      ensures Valid()
      ensures adj == if kind == Directed then AddArc(old(adj), u, v) else AddLink(old(adj), u, v)
      ensures |edges| == |old(edges)| + 1 && edges[..|old(edges)|] == old(edges)
      ensures fresh(edges[|edges| - 1])
      ensures edges[|edges| - 1].from == Node(u, None) && edges[|edges| - 1].to == Node(v, None)
      ensures edges[|edges| - 1].weight == 0 && edges[|edges| - 1].edgeLabel == None
      ensures NbEdges() == old(NbEdges()) + 1 && ExistsEdge(u, v)
    {
      AddEnds(u, v);
      var e := new Edge(Node(u, None), Node(v, None));
      if kind == Directed {
        AppendEdge(e);
        adj := adj[u := adj[u] + [v]];
      } else {
        var probe := new Edge(Node(u, None), Node(v, None));
        var back := new Edge(Node(v, None), Node(u, None));
        if probe !in edges && back !in edges {
          AppendEdge(e);
        }
        if v !in adj[u] {
          adj := adj[u := adj[u] + [v]];
        }
      }
    }

    /** The start of addEdge(u, v): each endpoint that is not a node becomes one. */
    method AddEnds(u: int, v: int)
      modifies this
      ensures adj == WithNode(WithNode(old(adj), u), v) && edges == old(edges)
    {
      if GetNode(u).None? {
        AddNode(u);
      }
      if GetNode(v).None? {
        AddNode(v);
      }
    }

    /** edgeList.add(e) for an edge not listed yet. */
    method AppendEdge(e: Edge)
      requires Valid() && e !in edges
      modifies this
      ensures Valid() && edges == old(edges) + [e] && adj == old(adj)
    {
      edges := edges + [e];
    }

    /**
      addEdge(u, v, weight): as the directed addEdge(u, v) with that weight,
      for both kinds (the undirected class does not override it), so `v` is
      appended to the list of `u` even when it is there.
    */
    method AddWeightedEdge(u: int, v: int, weight: int)
      requires Valid()
      modifies this
      ensures Valid()
      ensures adj == AddArc(old(adj), u, v)
      ensures |edges| == |old(edges)| + 1 && edges[..|old(edges)|] == old(edges)
      ensures fresh(edges[|edges| - 1])
      ensures edges[|edges| - 1].from == Node(u, None) && edges[|edges| - 1].to == Node(v, None)
      ensures edges[|edges| - 1].weight == weight && edges[|edges| - 1].edgeLabel == None
    {
      AddEnds(u, v);
      var e := new Edge.Weighted(Node(u, None), Node(v, None), weight);
      AppendEdge(e);
      adj := adj[u := adj[u] + [v]];
    }

    /**
      removeEdge(u, v): nothing when either node is missing; otherwise the
      first `v` leaves the list of `u` and every edge u -> v leaves the edge
      list. The nodes stay.
    */
    method RemoveEdge(u: int, v: int)
      requires Valid()
      modifies this
      ensures Valid()
      ensures !(u in old(adj) && v in old(adj)) ==> adj == old(adj) && edges == old(edges)
      ensures u in old(adj) && v in old(adj) ==>
                adj == old(adj)[u := RemoveFirst(old(adj)[u], v)] &&
                edges == Filter(old(edges), (e: Edge) => !(e.from.id == u && e.to.id == v))
      ensures adj.Keys == old(adj).Keys
      ensures u in old(adj) && v in old(adj) ==>
                multiset(adj[u]) == multiset(old(adj)[u]) - multiset{v} &&
                PairCount(edges, u, v) == 0 &&
                forall e :: e in old(edges) && !(e.from.id == u && e.to.id == v) ==> e in edges
    {
      if GetNode(u).Some? && GetNode(v).Some? {
        adj := adj[u := RemoveFirst(adj[u], v)];
        edges := Filter(edges, (e: Edge) => !(e.from.id == u && e.to.id == v));
        assert (u, v) !in Pairs(edges);
        FilterNoDuplicates(old(edges), (e: Edge) => !(e.from.id == u && e.to.id == v));
      }
    }

    /**
      removeEdge(e): when the source of `e` is a node, the first copy of its
      target leaves the source's list and the object `e` leaves the edge list.
    */
    method RemoveEdgeRef(e: Edge)
      requires Valid()
      modifies this
      ensures Valid()
      ensures e.from.id in old(adj) ==>
                adj == old(adj)[e.from.id := RemoveFirst(old(adj)[e.from.id], e.to.id)] &&
                edges == RemoveFirst(old(edges), e)
      ensures e.from.id !in old(adj) ==> adj == old(adj) && edges == old(edges)
      ensures e.from.id in old(adj) ==> e !in edges
    {
      if GetSuccessors(e.from.id).Some? {
        adj := adj[e.from.id := RemoveFirst(adj[e.from.id], e.to.id)];
        RemoveFirstNoDuplicates(edges, e);
        edges := RemoveFirst(edges, e);
      }
    }

    /**
      removeNode(id): every edge touching `id` is collected into a set and
      removed with removeEdge(e) in the set's order, then the node goes and
      each remaining list loses its first copy of `id`.
    */
    method RemoveNode(id: int)
      requires Valid()
      modifies this
      ensures Valid()
      ensures adj == ListsAfterRemoveNode(old(adj), old(edges), id)
      ensures edges == EdgesAfterRemoveNode(old(edges), old(adj), id)
    {
      ghost var adj0, es0 := adj, edges;
      var toDelete := Touching(id);
      RemoveEdges(toDelete, id);
      RemovingDone(adj, edges, adj0, es0, id, toDelete);
      ghost var handled := adj;
      adj := adj - {id};
      SweepNode(id);
      SweptIsFinal(handled, adj0, es0, id);
    }

    /** The first loop of removeNode(id): the edges with `id` at either end. */
    method Touching(id: int) returns (toDelete: set<Edge>)
      ensures toDelete == set e | e in edges && Touches(e, id)
    {
      toDelete := {};
      var i := 0;
      while i < |edges|
        invariant i <= |edges|
        invariant toDelete == set e | e in edges[..i] && Touches(e, id)
      {
        assert edges[..i + 1] == edges[..i] + [edges[i]];
        if edges[i].to.id == id || edges[i].from.id == id {
          toDelete := toDelete + {edges[i]};
        }
        i := i + 1;
      }
      assert edges[..i] == edges;
    }

    /** The second loop of removeNode(id): removeEdge(e) on each collected edge, in an unspecified order. */
    method RemoveEdges(toDelete: set<Edge>, id: int)
      requires Valid() && toDelete == set e | e in edges && Touches(e, id)
      modifies this
      ensures Valid() && Removing(adj, edges, old(adj), old(edges), id, toDelete)
    {
      ghost var adj0, es0 := adj, edges;
      var rest := toDelete;
      ghost var done: set<Edge> := {};
      RemovingStart(adj, edges, id);
      while rest != {}
        invariant rest + done == toDelete && rest !! done
        invariant Valid() && Removing(adj, edges, adj0, es0, id, done)
        decreases rest
      {
        var e :| e in rest;
        ghost var adj1, es1 := adj, edges;
        RemoveEdgeRef(e);
        RemovingStep(adj1, es1, adj, edges, adj0, es0, id, done, e);
        rest := rest - {e};
        done := done + {e};
      }
    }

    /**
      The last loop of removeNode(id): every remaining list loses its first
      copy of `id`, taking the entries in ascending key order.
    */
    method SweepNode(id: int)
      modifies this
      ensures adj == SweepLists(old(adj), id) && edges == old(edges)
    {
      var start := adj;
      var lists, rest := start, start.Keys;
      while rest != {}
        invariant edges == old(edges)
        invariant Sweeping(lists, start, rest, id)
        decreases rest
      {
        var key := SetMin(rest);
        SweepingStep(lists, start, rest, id, key);
        lists := lists[key := RemoveFirst(lists[key], id)];
        rest := rest - {key};
      }
      SweepingDone(lists, start, id);
      adj := lists;
    }
  

    /** addNode(n) for each id of `ks`, into a graph with no node: the first loop of getReverse. */
    method AddNodes(ks: seq<int>)
      requires adj == map[]
      modifies this
      ensures adj == EmptyLists(set k | k in ks) && edges == old(edges)
    {
      var i := 0;
      while i < |ks|
        invariant i <= |ks| && edges == old(edges)
        invariant adj == EmptyLists(set k | k in ks[..i])
      {
        assert ks[..i + 1] == ks[..i] + [ks[i]];
        AddNode(ks[i]);
        i := i + 1;
      }
      assert ks[..i] == ks;
    }

    /**
      The directed addEdge(p.0, p.1) for each pair of `ps`, in order: the
      inner loops of getReverse and getTransitiveClosure.
    */
    method AddEdgesFor(ps: seq<(int, int)>)
      requires Valid() && kind == Directed
      modifies this
      ensures Valid() && adj == AddArcs(old(adj), ps) && Pairs(edges) == Pairs(old(edges)) + ps
    {
      var j := 0;
      while j < |ps|
        invariant j <= |ps| && Valid()
        invariant adj == AddArcs(old(adj), ps[..j])
        invariant Pairs(edges) == Pairs(old(edges)) + ps[..j]
      {
        PrefixSnoc(ps, j);
        ConcatAssoc(Pairs(old(edges)), ps[..j], [ps[j]]);
        AddArcsSnoc(old(adj), ps[..j], ps[j]);
        AddPair(ps[j]);
        j := j + 1;
      }
      assert ps[..j] == ps;
    }

    /** The directed addEdge(p.0, p.1), seen through the pairs of the edge list. */
    method AddPair(p: (int, int))
      requires Valid() && kind == Directed
      modifies this
      ensures Valid() && adj == AddArc(old(adj), p.0, p.1) && Pairs(edges) == Pairs(old(edges)) + [p]
    {
      ghost var es := edges;
      AddEdge(p.0, p.1);
      assert edges == es + [edges[|edges| - 1]];
      PairsSnoc(es, edges[|edges| - 1]);
    }

    /**
      getReverse(): a new directed graph holding every node, then addEdge(s, n)
      for each successor s of each node n, nodes in ascending order and each
      list in order. The undirected override returns the graph itself.
    */
    method GetReverse() returns (r: Graf)
      ensures kind == Undirected ==> r == this
      ensures kind == Directed ==> fresh(r) && r.kind == Directed && r.Valid()
      ensures kind == Directed ==> r.adj == Reverse(adj) && Pairs(r.edges) == Swapped(Entries(adj, SortedSet(adj.Keys)))
    {
      if kind == Undirected {
        return this;
      }
      r := new Graf(Directed);
      var ks := GetAllNodes();
      r.AddNodes(ks);
      assert (set k | k in ks) == adj.Keys;
      AddReversed(r, adj);
    }

    /** The second loop of getReverse: addEdge(s, n) for each successor s of each node n of `a`, nodes in ascending order. */
    static method AddReversed(r: Graf, a: Adj)
      requires r.Valid() && r.kind == Directed && r.edges == []
      modifies r
      ensures r.Valid() && r.kind == Directed
      ensures r.adj == AddArcs(old(r.adj), Swapped(Entries(a, SortedSet(a.Keys))))
      ensures Pairs(r.edges) == Swapped(Entries(a, SortedSet(a.Keys)))
    {
      ghost var start := r.adj;
      var rest := a.Keys;
      ghost var done: seq<int> := [];
      VisitingStart(a);
      while rest != {}
        invariant Visiting(a, done, rest)
        invariant r.Valid() && r.kind == Directed
        invariant r.adj == AddArcs(start, Swapped(Entries(a, done)))
        invariant Pairs(r.edges) == Swapped(Entries(a, done))
        decreases rest
      {
        var n := SetMin(rest);
        VisitingStep(a, done, rest);
        ReverseNode(r, a, start, done, n);
        done := done + [n];
        rest := rest - {n};
      }
      VisitingDone(a, done);
    }

    /** The body of getReverse's second loop for node `n`: addEdge(s, n) for each successor s of n. */
    static method ReverseNode(r: Graf, a: Adj, ghost start: Adj, ghost done: seq<int>, n: int)
      requires r.Valid() && r.kind == Directed
      requires forall i :: 0 <= i < |done| ==> done[i] in a
      requires n in a
      requires r.adj == AddArcs(start, Swapped(Entries(a, done))) && Pairs(r.edges) == Swapped(Entries(a, done))
      modifies r
      ensures r.Valid() && r.kind == Directed
      ensures r.adj == AddArcs(start, Swapped(Entries(a, done + [n]))) && Pairs(r.edges) == Swapped(Entries(a, done + [n]))
    {
      ReverseStep(a, start, done, n);
      r.AddEdgesFor(Swapped(Arcs(n, a[n])));
    }

    /**
      getTransitiveClosure() of a directed graph: a new graph read from
      toSuccessorArray() (which sorts every list of this graph in place),
      then for every node u in ascending order, addEdge(p, s) for each source
      p of an edge into u and each successor s of u.
    */
    method GetTransitiveClosure() returns (g: Graf)
      requires kind == Directed
      modifies this
      ensures fresh(g) && g.kind == Directed && g.Valid()
      ensures g.adj == ClosureAdj(old(adj), Pairs(edges)) && Pairs(g.edges) == ClosurePairs(old(adj), Pairs(edges))
      ensures adj == SortedLists(old(adj)) && edges == old(edges)
    {
      var sa := ToSuccessorArray();
      g := new Graf.FromSuccessorArray(sa);
      AddClosureArcs(g, adj, edges);
    }

    /**
      The loop of getTransitiveClosure, writing into `g`: for every node u in
      ascending order, addEdge(p, s) for each source p of an edge into u and
      each successor s of u.
    */
    static method AddClosureArcs(g: Graf, a: Adj, es: seq<Edge>)
      requires g.Valid() && g.kind == Directed
      modifies g
      ensures g.Valid() && g.kind == Directed
      ensures g.adj == AddArcs(old(g.adj), ClosureArcs(a, Pairs(es), SortedSet(a.Keys)))
      ensures Pairs(g.edges) == Pairs(old(g.edges)) + ClosureArcs(a, Pairs(es), SortedSet(a.Keys))
    {
      ghost var base, basePairs := g.adj, Pairs(g.edges);
      var rest := a.Keys;
      ghost var done: seq<int> := [];
      VisitingStart(a);
      ClosedOverStart(g, a, Pairs(es));
      while rest != {}
        invariant Visiting(a, done, rest)
        invariant ClosedOver(g, a, Pairs(es), base, basePairs, done)
        decreases rest
      {
        var u := SetMin(rest);
        VisitingStep(a, done, rest);
        ClosureNode(g, a, es, base, basePairs, done, u);
        done := done + [u];
        rest := rest - {u};
      }
      VisitingDone(a, done);
    }

    /** The body of getTransitiveClosure's loop for node `u`. */
    static method ClosureNode(g: Graf, a: Adj, es: seq<Edge>, ghost base: Adj, ghost basePairs: seq<(int, int)>,
                              ghost done: seq<int>, u: int)
      requires u in a && ClosedOver(g, a, Pairs(es), base, basePairs, done)
      modifies g
      ensures ClosedOver(g, a, Pairs(es), base, basePairs, done + [u])
    {
      var preds := Predecessors(es, u);
      ClosureStep(a, Pairs(es), base, basePairs, done, u);
      g.AddEdgesFor(Product(preds, a[u]));
    }

    /**
      toSuccessorArray(): for each node in ascending id order its successor
      list is sorted in place, then each successor id and a 0 are emitted.
    */
    method ToSuccessorArray() returns (sa: seq<int>)
      modifies this
      ensures sa == Encode(old(adj))
      ensures adj == SortedLists(old(adj)) && edges == old(edges)
    {
      var lists;
      lists, sa := SortAndEmit(adj);
      adj := lists;
    }

    /**
      getBFS(): the nodes are numbered in ascending id order and coloured
      white, then color[0] (the least node) turns grey and node 1 is queued;
      each poll queues the white successors of the polled node, turning them
      grey, then turns it black and outputs it. Node 1 must exist and every
      successor of a node reachable from 1 must be a node, or the lookups fail.
    */
    method GetBFS() returns (bfs: seq<int>)
      requires 1 in adj && ClosedFrom(adj, 1)
      ensures |bfs| > 0 && bfs[0] == 1 && NoDuplicates(bfs[1..])
      ensures forall x :: x in bfs ==> x in adj && Reaches(adj, 1, x)
      ensures SetMin(adj.Keys) == 1 ==> NoDuplicates(bfs) && forall x :: Reaches(adj, 1, x) ==> x in bfs
      ensures SetMin(adj.Keys) != 1 ==> SetMin(adj.Keys) !in bfs
      ensures bfs == BreadthFirst(adj)
    {
      var a := adj;
      var index, color := StartSearch(a);
      var queue := [1];
      bfs := [];
      ghost var m := SetMin(a.Keys);
      SearchingStart(a, index, color[..]);
      while queue != []
        invariant fresh(color) && IsIndex(a, index, color.Length)
        invariant Searching(a, index, color[..], m, bfs, queue) && |bfs + queue| <= |a| + 1
        invariant Following(a, index, color[..], bfs, queue)
        decreases |a| + 1 - |bfs + queue|, |queue|
      {
        bfs, queue := Poll(a, index, color, m, bfs, queue);
      }
      SearchingDone(a, index, color[..], bfs);
    }

    /**
      getDFS(): the nodes are numbered in ascending id order and coloured
      white, then dfs_visit runs from every node still white, in ascending
      id order. Every successor must be a node, or the lookups fail.
    */
    method GetDFS() returns (dfs: seq<int>)
      requires Closed(adj)
      ensures NoDuplicates(dfs) && forall x :: x in dfs <==> x in adj
      ensures PostOrdered(adj, dfs)
      ensures dfs == DepthFirst(adj)
    {
      var a := adj;
      var index, color := StartDepthFirst(a);
      dfs := [];
      var rest := a.Keys;
      ghost var done: seq<int> := [];
      RootingStart(a, index, color[..]);
      while rest != {}
        invariant fresh(color) && IsIndex(a, index, color.Length)
        invariant Rooting(a, index, color[..], dfs, done, rest)
        decreases rest
      {
        var k := SetMin(rest);
        dfs := VisitRoot(a, index, color, dfs, k, done, rest);
        done := done + [k];
        rest := rest - {k};
      }
      RootingDone(a, index, color[..], dfs, done);
    }

    /**
      toAdjMatrix(): an n x n matrix, n the number of nodes, with a 1 at
      [k - 1][s - 1] for every successor s of every node k and 0 elsewhere.
      Every node with successors and every successor must lie in 1..n, or
      the indexing fails.
    */
    method ToAdjMatrix() returns (m: array2<int>)
      requires forall k :: k in adj && adj[k] != [] ==> 1 <= k <= |adj|
      requires forall k, s :: k in adj && s in adj[k] ==> 1 <= s <= |adj|
      ensures fresh(m) && m.Length0 == |adj| && m.Length1 == |adj|
      ensures forall i, j :: 0 <= i < |adj| && 0 <= j < |adj| ==>
                m[i, j] == if i + 1 in adj && j + 1 in adj[i + 1] then 1 else 0
    {
      var n := NbNodes();
      m := new int[n, n]((i, j) => 0);
      FillMatrix(m, adj);
    }

    /**
      toDotString(): the header line, then for each node in ascending id
      order its list sorted in place and its line appended, then "}".
    */
    method ToDotString() returns (dot: string)
      modifies this
      ensures dot == DotString(old(adj), kind == Directed)
      ensures adj == SortedLists(old(adj)) && edges == old(edges)
    {
      var lists;
      lists, dot := SortAndRender(adj, kind == Directed);
      adj := lists;
    }
  }

  /** The source ids of getInEdges(u) on a directed graph, in list order: the predecessors getTransitiveClosure collects. */
  method Predecessors(es: seq<Edge>, u: int) returns (preds: seq<int>)
    ensures preds == Sources(Pairs(es), u)
  {
    var ins := InEdges(es, u);
    preds := [];
    var j := 0;
    while j < |ins|
      invariant j <= |ins|
      invariant preds == FromIds(ins[..j])
    {
      assert ins[..j + 1][..j] == ins[..j];
      preds := preds + [ins[j].from.id];
      j := j + 1;
    }
    assert ins[..j] == ins;
    SourcesOfInEdges(es, u);
  }

  /** The sources of the pairs ending in `u` are the sources of the edges into `u`, in list order. */
  lemma {:induction false} SourcesOfInEdges(es: seq<Edge>, u: int)
    ensures Sources(Pairs(es), u) == FromIds(InEdges(es, u))
  {
    if es != [] {
      var init, last := es[..|es| - 1], es[|es| - 1];
      SourcesOfInEdges(init, u);
      assert es == init + [last];
      PairsSnoc(init, last);
      SourcesSnoc(Pairs(init), (last.from.id, last.to.id), u);
      var ins := InEdges(init, u);
      if last.to.id == u {
        assert InEdges(es, u) == ins + [last];
        assert (ins + [last])[..|ins|] == ins;
      } else {
        assert InEdges(es, u) == ins;
      }
    }
  }

  /**
    The loop of toSuccessorArray over the lists of a graph: node by node in
    ascending id order, sort the list, emit its ids and a 0.
  */
  method SortAndEmit(adj: Adj) returns (lists: Adj, sa: seq<int>)
    ensures lists == SortedLists(adj) && sa == Encode(adj)
  {
    lists := adj;
    sa := [];
    var rest := adj.Keys;
    ghost var done: seq<int> := [];
    VisitingStart(adj);
    while rest != {}
      invariant Visiting(adj, done, rest)
      invariant SortedOutside(lists, adj, rest)
      invariant sa == Blocks(SortedLists(adj), done)
      decreases rest
    {
      var k := SetMin(rest);
      VisitingStep(adj, done, rest);
      SortedOutsideStep(lists, adj, rest, k);
      BlocksSnoc(SortedLists(adj), done, k);
      lists := lists[k := Sort(lists[k])];
      sa := sa + lists[k] + [0];
      done := done + [k];
      rest := rest - {k};
    }
    VisitingDone(adj, done);
    SortedOutsideDone(lists, adj);
  }

  /** The loops of toAdjMatrix: a 1 at [k - 1][s - 1] for each successor s of each node k, in a zeroed matrix. */
  method FillMatrix(m: array2<int>, adj: Adj)
    requires m.Length0 == |adj| && m.Length1 == |adj|
    requires forall i, j :: 0 <= i < m.Length0 && 0 <= j < m.Length1 ==> m[i, j] == 0
    requires forall k :: k in adj && adj[k] != [] ==> 1 <= k <= |adj|
    requires forall k, s :: k in adj && s in adj[k] ==> 1 <= s <= |adj|
    modifies m
    ensures forall i, j :: 0 <= i < |adj| && 0 <= j < |adj| ==>
              m[i, j] == if i + 1 in adj && j + 1 in adj[i + 1] then 1 else 0
  {
    var rest := adj.Keys;
    while rest != {}
      invariant rest <= adj.Keys
      invariant forall i, j :: 0 <= i < m.Length0 && 0 <= j < m.Length1 ==>
                  m[i, j] == if i + 1 in adj && i + 1 !in rest && j + 1 in adj[i + 1] then 1 else 0
      decreases rest
    {
      var k := SetMin(rest);
      MarkRow(m, k, adj[k]);
      rest := rest - {k};
    }
  }

  /**
    The loop of toDotString over the lists of a graph: the header line, then
    node by node in ascending id order, sort the list and append the line;
    then "}".
  */
  method SortAndRender(adj: Adj, directed: bool) returns (lists: Adj, dot: string)
    ensures lists == SortedLists(adj) && dot == DotString(adj, directed)
  {
    lists := adj;
    dot := Header(directed) + "\n";
    var rest := adj.Keys;
    ghost var done: seq<int> := [];
    VisitingStart(adj);
    while rest != {}
      invariant Visiting(adj, done, rest)
      invariant SortedOutside(lists, adj, rest)
      invariant dot == Header(directed) + "\n" + Terminated(LineTexts(adj, done, directed), "\n")
      decreases rest
    {
      var k := SetMin(rest);
      VisitingStep(adj, done, rest);
      SortedOutsideStep(lists, adj, rest, k);
      DocumentSnoc(adj, done, k, directed);
      ghost var succ := lists[k];
      lists := lists[k := Sort(lists[k])];
      if directed {
        dot := AppendDirectedLine(dot, k, succ, lists[k]);
      } else {
        dot := AppendUndirectedLine(dot, k, succ, lists[k]);
      }
      done := done + [k];
      rest := rest - {k};
    }
    VisitingDone(adj, done);
    SortedOutsideDone(lists, adj);
    dot := dot + "}";
  }
}
