/**
  The edge record (Edge.java) and the linear scans the graph performs over its
  edge list. Edge does not override equals, so two edges are the same edge only
  when they are the same object: it is a class whose fields never change.
*/
module Edges {
  import opened Wrappers
  import opened Nodes
  import opened Seqs

  class Edge {
    const from: Node
    const to: Node
    const weight: int
    const edgeLabel: Option<string>

    /** Edge(from, to): weight 0, no label. */
    constructor (from: Node, to: Node)
      ensures this.from == from && this.to == to
      ensures weight == 0 && edgeLabel == None
    {
      this.from := from;
      this.to := to;
      this.weight := 0;
      this.edgeLabel := None;
    }

    /** Edge(from, to, weight): no label. */
    constructor Weighted(from: Node, to: Node, weight: int)
      ensures this.from == from && this.to == to
      ensures this.weight == weight && edgeLabel == None
    {
      this.from := from;
      this.to := to;
      this.weight := weight;
      this.edgeLabel := None;
    }

    /** Edge(from, to, label): weight 0. */
    constructor Labelled(from: Node, to: Node, labelText: string)
      ensures this.from == from && this.to == to
      ensures weight == 0 && this.edgeLabel == Some(labelText)
    {
      this.from := from;
      this.to := to;
      this.weight := 0;
      this.edgeLabel := Some(labelText);
    }

    /** Edge(from, to, weight, label). */
    constructor Full(from: Node, to: Node, weight: int, labelText: string)
      ensures this.from == from && this.to == to
      ensures this.weight == weight && this.edgeLabel == Some(labelText)
    {
      this.from := from;
      this.to := to;
      this.weight := weight;
      this.edgeLabel := Some(labelText);
    }

    /**
      Edge.compareTo: 1 or -1 by the source ids, and Integer.compare on the
      target ids when the sources are equal.
    */
    function CompareTo(o: Edge): (r: int)
      ensures r == -1 || r == 0 || r == 1
      ensures r == 0 <==> from.id == o.from.id && to.id == o.to.id
      ensures r < 0 <==> from.id < o.from.id || (from.id == o.from.id && to.id < o.to.id)
    {
      if from.id > o.from.id then 1
      else if from.id == o.from.id then IntCompare(to.id, o.to.id)
      else -1
    }
  }

  /** compareTo is antisymmetric in sign and transitive: the lexicographic order on (from, to). */
  lemma CompareToLexicographic(a: Edge, b: Edge, c: Edge)
    ensures a.CompareTo(b) == -b.CompareTo(a)
    ensures a.CompareTo(b) < 0 && b.CompareTo(c) < 0 ==> a.CompareTo(c) < 0
    ensures a.CompareTo(b) == 0 && b.CompareTo(c) == 0 ==> a.CompareTo(c) == 0
  {
  }

  /** Weight and label take no part in the comparison. */
  lemma CompareToIgnoresPayload(a: Edge, b: Edge)
    requires a.from.id == b.from.id && a.to.id == b.to.id
    requires a.weight != b.weight || a.edgeLabel != b.edgeLabel
    ensures a.CompareTo(b) == 0 && a != b
  {
  }

  /** The (from id, to id) pair of every edge, in list order. */
  function Pairs(es: seq<Edge>): (ps: seq<(int, int)>)
    ensures |ps| == |es|
    ensures forall i :: 0 <= i < |es| ==> ps[i] == (es[i].from.id, es[i].to.id)
  {
    if es == [] then [] else Pairs(es[..|es| - 1]) + [(es[|es| - 1].from.id, es[|es| - 1].to.id)]
  }

  predicate Touches(e: Edge, id: int)
  {
    e.from.id == id || e.to.id == id
  }

  /** Graf.getOutEdges: the edges leaving `id`, in list order. */
  function OutEdges(es: seq<Edge>, id: int): (r: seq<Edge>)
    ensures forall i :: 0 <= i < |r| ==> r[i] in es && r[i].from.id == id
    ensures forall i :: 0 <= i < |es| && es[i].from.id == id ==> es[i] in r
    ensures Subsequence(r, es)
  {
    Filter(es, (e: Edge) => e.from.id == id)
  }

  /** Graf.getInEdges: the edges entering `id`, in list order. */
  function InEdges(es: seq<Edge>, id: int): (r: seq<Edge>)
    ensures forall i :: 0 <= i < |r| ==> r[i] in es && r[i].to.id == id
    ensures forall i :: 0 <= i < |es| && es[i].to.id == id ==> es[i] in r
    ensures Subsequence(r, es)
  {
    Filter(es, (e: Edge) => e.to.id == id)
  }

  /** Graf.getIncidentEdges: the edges with `id` at either end, in list order. */
  function IncidentEdges(es: seq<Edge>, id: int): (r: seq<Edge>)
    ensures forall i :: 0 <= i < |r| ==> r[i] in es && Touches(r[i], id)
    ensures forall i :: 0 <= i < |es| && Touches(es[i], id) ==> es[i] in r
    ensures Subsequence(r, es)
  {
    Filter(es, (e: Edge) => Touches(e, id))
  }

  /** Appending an edge appends its pair. */
  lemma PairsSnoc(es: seq<Edge>, e: Edge)
    ensures Pairs(es + [e]) == Pairs(es) + [(e.from.id, e.to.id)]
  {
    assert (es + [e])[..|es|] == es;
  }

  /** Number of edges from `u` to `v` (how many times the pair occurs). */
  function PairCount(es: seq<Edge>, u: int, v: int): nat
  {
    multiset(Pairs(es))[(u, v)]
  }

  /** Graf.getEdge: the first edge from `u` to `v`, or null. */
  function FirstEdge(es: seq<Edge>, u: int, v: int): (r: Option<Edge>)
    ensures r.Some? ==> r.value in es && r.value.from.id == u && r.value.to.id == v
    ensures r.None? <==> forall i :: 0 <= i < |es| ==> es[i].from.id != u || es[i].to.id != v
    ensures r.Some? ==> exists i :: 0 <= i < |es| && es[i] == r.value &&
                         forall j :: 0 <= j < i ==> es[j].from.id != u || es[j].to.id != v
  {
    if es == [] then None
    else if es[0].to.id == v && es[0].from.id == u then Some(es[0])
    else
      var r := FirstEdge(es[1..], u, v);
      if r.Some? then
        var i :| 0 <= i < |es[1..]| && es[1..][i] == r.value &&
                 forall j :: 0 <= j < i ==> es[1..][j].from.id != u || es[1..][j].to.id != v;
        assert es[i + 1] == r.value;
        r
      else
        r
  }

  /** Graf.inDegree: the edges entering `id`, counted along the list. */
  function CountIn(es: seq<Edge>, id: int): (n: nat)
    ensures n == |InEdges(es, id)|
  {
    if es == [] then 0 else
    CountIn(es[..|es| - 1], id) + if es[|es| - 1].to.id == id then 1 else 0
  }

  /** The first edge u -> v sits where the pair (u, v) first occurs in the pairs of the list. */
  lemma FirstEdgeAt(es: seq<Edge>, u: int, v: int)
    ensures FirstEdge(es, u, v).None? <==> (u, v) !in Pairs(es)
    ensures FirstEdge(es, u, v).Some? ==>
              (u, v) in Pairs(es) && FirstEdge(es, u, v).value == es[IndexOf(Pairs(es), (u, v))]
  {
    var r := FirstEdge(es, u, v);
    var ps := Pairs(es);
    if r.Some? {
      var i :| 0 <= i < |es| && es[i] == r.value &&
               forall j :: 0 <= j < i ==> es[j].from.id != u || es[j].to.id != v;
      assert ps[i] == (u, v);
      forall j | 0 <= j < i
        ensures ps[..i][j] != (u, v)
      {
        assert ps[j] == (es[j].from.id, es[j].to.id);
      }
      IndexOfAt(ps, (u, v), i);
    } else {
      forall i | 0 <= i < |ps|
        ensures ps[i] != (u, v)
      {
        assert ps[i] == (es[i].from.id, es[i].to.id);
      }
    }
  }

  /** The source ids of the edges, in order (the predecessors getTransitiveClosure collects). */
  function FromIds(es: seq<Edge>): (r: seq<int>)
    ensures |r| == |es| && forall i :: 0 <= i < |es| ==> r[i] == es[i].from.id
  {
    if es == [] then [] else FromIds(es[..|es| - 1]) + [es[|es| - 1].from.id]
  }
}
