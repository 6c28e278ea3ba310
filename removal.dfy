/**
  What removeNode(id) does to the adjacency and to the edge list of
  Graf.java: List.remove on each edge touching id, then the node and one copy
  of id in every other list.
*/
module Removal {
  import opened Seqs
  import opened Adjacency
  import opened Edges

  /** The edges of `es` that are not in `gone`, in their order. */
  function Without(es: seq<Edge>, gone: set<Edge>): (r: seq<Edge>)
    ensures forall i :: 0 <= i < |r| ==> r[i] in es && r[i] !in gone
    ensures forall i :: 0 <= i < |es| && es[i] !in gone ==> es[i] in r
    ensures |r| <= |es|
  {
    if es == [] then [] else
    var init := es[..|es| - 1];
    var last := es[|es| - 1];
    assert es == init + [last];
    Without(init, gone) + if last in gone then [] else [last]
  }

  lemma {:induction false} WithoutNothing(es: seq<Edge>)
    ensures Without(es, {}) == es
  {
    if es != [] {
      WithoutNothing(es[..|es| - 1]);
      assert es == es[..|es| - 1] + [es[|es| - 1]];
    }
  }

  lemma {:induction false} WithoutAbsent(es: seq<Edge>, gone: set<Edge>, x: Edge)
    requires x !in es
    ensures Without(es, gone + {x}) == Without(es, gone)
  {
    if es != [] {
      assert es == es[..|es| - 1] + [es[|es| - 1]];
      WithoutAbsent(es[..|es| - 1], gone, x);
    }
  }

  lemma RemoveFirstAppend<T>(a: seq<T>, b: seq<T>, x: T)
    requires x in a
    ensures RemoveFirst(a + b, x) == RemoveFirst(a, x) + b
  {
    var i := IndexOf(a, x);
    assert (a + b)[i] == x && x !in (a + b)[..i] by {
      assert (a + b)[..i] == a[..i];
    }
    IndexOfAt(a + b, x, i);
    assert (a + b)[..i] == a[..i];
    assert (a + b)[i + 1..] == a[i + 1..] + b;
  }

  /** With every edge in the list once, List.remove(e) deletes exactly that edge. */
  lemma {:induction false} RemoveFirstWithout(es: seq<Edge>, gone: set<Edge>, x: Edge)
    requires NoDuplicates(es) && x in es && x !in gone
    ensures RemoveFirst(Without(es, gone), x) == Without(es, gone + {x})
  {
    var init := es[..|es| - 1];
    var last := es[|es| - 1];
    assert es == init + [last];
    var w := Without(init, gone);
    if last == x {
      assert x !in init;
      WithoutAbsent(init, gone, x);
      assert Without(es, gone) == w + [x];
      IndexOfAt(w + [x], x, |w|);
      assert (w + [x])[..|w|] == w;
    } else {
      assert x in init;
      assert NoDuplicates(init);
      RemoveFirstWithout(init, gone, x);
      var tail := if last in gone then [] else [last];
      assert Without(es, gone) == w + tail;
      RemoveFirstAppend(w, tail, x);
    }
  }

  /** The edges removeNode(id) deletes: each edge touching id whose source is a node. */
  function Doomed(es: seq<Edge>, adj: Adj, id: int): set<Edge>
  {
    set e | e in es && Touches(e, id) && e.from.id in adj
  }

  /** The edge list after removeNode(id). */
  function EdgesAfterRemoveNode(es: seq<Edge>, adj: Adj, id: int): seq<Edge>
  {
    Without(es, Doomed(es, adj, id))
  }

  /**
    The adjacency after removeNode(id): the node is gone, and every other list
    has lost one copy of id per edge k -> id (removeEdge on each such edge)
    and one more (the final sweep over the lists).
  */
  function ListsAfterRemoveNode(adj: Adj, es: seq<Edge>, id: int): (r: Adj)
    ensures r.Keys == adj.Keys - {id}
  {
    map k | k in adj && k != id :: RemoveFirst(RemoveCopies(adj[k], id, PairCount(es, k, id)), id)
  }

  lemma ListsAfterRemoveNodeAt(adj: Adj, es: seq<Edge>, id: int, k: int)
    requires k in adj && k != id
    ensures k in ListsAfterRemoveNode(adj, es, id)
    ensures ListsAfterRemoveNode(adj, es, id)[k] == RemoveFirst(RemoveCopies(adj[k], id, PairCount(es, k, id)), id)
  {
  }

  /**
    After removeNode(id) the node is gone, the edges that remain are the old
    ones minus those touching id from a node, and a remaining edge touches id
    only when its source is not a node.
  */
  lemma RemoveNodeSpec(adj: Adj, es: seq<Edge>, id: int)
    ensures id !in ListsAfterRemoveNode(adj, es, id)
    ensures forall i :: 0 <= i < |EdgesAfterRemoveNode(es, adj, id)| ==>
              var e := EdgesAfterRemoveNode(es, adj, id)[i]; e in es && !(Touches(e, id) && e.from.id in adj)
    ensures forall i :: 0 <= i < |es| && !(Touches(es[i], id) && es[i].from.id in adj) ==>
              es[i] in EdgesAfterRemoveNode(es, adj, id)
    ensures forall k, v :: k in ListsAfterRemoveNode(adj, es, id) && v != id ==>
              multiset(ListsAfterRemoveNode(adj, es, id)[k])[v] == multiset(adj[k])[v]
  {
    var r := ListsAfterRemoveNode(adj, es, id);
    forall k, v | k in r && v != id ensures multiset(r[k])[v] == multiset(adj[k])[v] {
      ListsAfterRemoveNodeAt(adj, es, id, k);
    }
  }

  /**
    When every edge starts at a node and no list holds id more often than one
    plus its edges to id, nothing refers to id any more after removeNode(id).
  */
  lemma RemoveNodeForgets(adj: Adj, es: seq<Edge>, id: int)
    requires forall i :: 0 <= i < |es| ==> es[i].from.id in adj
    requires forall k :: k in adj ==> multiset(adj[k])[id] <= PairCount(es, k, id) + 1
    ensures forall k :: k in ListsAfterRemoveNode(adj, es, id) ==> id !in ListsAfterRemoveNode(adj, es, id)[k]
    ensures forall i :: 0 <= i < |EdgesAfterRemoveNode(es, adj, id)| ==> !Touches(EdgesAfterRemoveNode(es, adj, id)[i], id)
  {
    var r := ListsAfterRemoveNode(adj, es, id);
    forall k | k in r ensures id !in r[k] {
      ListsAfterRemoveNodeAt(adj, es, id, k);
      assert multiset(r[k])[id] == 0;
    }
  }

  /** removeNode(id) when nothing refers to id changes nothing. */
  lemma RemoveNodeAbsent(adj: Adj, es: seq<Edge>, id: int)
    requires id !in adj && forall k :: k in adj ==> id !in adj[k]
    requires forall i :: 0 <= i < |es| && Touches(es[i], id) ==> es[i].from.id !in adj
    ensures ListsAfterRemoveNode(adj, es, id) == adj
    ensures EdgesAfterRemoveNode(es, adj, id) == es
  {
    RemoveNodeAbsentLists(adj, es, id);
    assert Doomed(es, adj, id) == {};
    WithoutNothing(es);
  }

  lemma RemoveNodeAbsentLists(adj: Adj, es: seq<Edge>, id: int)
    requires id !in adj && forall k :: k in adj ==> id !in adj[k]
    ensures ListsAfterRemoveNode(adj, es, id) == adj
  {
    var r := ListsAfterRemoveNode(adj, es, id);
    forall k | k in adj ensures r[k] == adj[k] {
      ListsAfterRemoveNodeAt(adj, es, id, k);
      RemoveCopiesAbsent(adj[k], id, PairCount(es, k, id));
    }
  }

  /**
    removeNode is idempotent when the precondition of RemoveNodeForgets holds:
    a second call finds nothing left to do.
  */
  lemma RemoveNodeTwice(adj: Adj, es: seq<Edge>, id: int)
    requires forall i :: 0 <= i < |es| ==> es[i].from.id in adj
    requires forall k :: k in adj ==> multiset(adj[k])[id] <= PairCount(es, k, id) + 1
    ensures ListsAfterRemoveNode(ListsAfterRemoveNode(adj, es, id), EdgesAfterRemoveNode(es, adj, id), id) ==
            ListsAfterRemoveNode(adj, es, id)
    ensures EdgesAfterRemoveNode(EdgesAfterRemoveNode(es, adj, id), ListsAfterRemoveNode(adj, es, id), id) ==
            EdgesAfterRemoveNode(es, adj, id)
  {
    RemoveNodeForgets(adj, es, id);
    RemoveNodeAbsent(ListsAfterRemoveNode(adj, es, id), EdgesAfterRemoveNode(es, adj, id), id);
  }

  /**
    Without that precondition removeNode is not idempotent: a list holding id
    twice with no edge to id (three addEdge(k, id) then removeEdge(k, id))
    keeps one copy after the first call and loses it in the second.
  */
  lemma RemoveNodeNotIdempotent(adj: Adj, es: seq<Edge>, k: int, id: int)
    requires k in adj && k != id && adj[k] == [id, id]
    requires forall i :: 0 <= i < |es| ==> !Touches(es[i], id)
    ensures k in ListsAfterRemoveNode(adj, es, id) && ListsAfterRemoveNode(adj, es, id)[k] == [id]
    ensures ListsAfterRemoveNode(ListsAfterRemoveNode(adj, es, id), EdgesAfterRemoveNode(es, adj, id), id)[k] == []
  {
    var once := ListsAfterRemoveNode(adj, es, id);
    RemoveOneCopy(adj, es, k, id);
    assert adj[k][1..] == [id];
    EdgesUntouched(es, adj, id);
    RemoveOneCopy(once, es, k, id);
  }

  /** With no edge touching id, removeNode(id) keeps the whole edge list. */
  lemma EdgesUntouched(es: seq<Edge>, adj: Adj, id: int)
    requires forall i :: 0 <= i < |es| ==> !Touches(es[i], id)
    ensures EdgesAfterRemoveNode(es, adj, id) == es
  {
    assert Doomed(es, adj, id) == {};
    WithoutNothing(es);
  }

  /** removeNode(id) with no edge touching id, on a node k whose list starts with id. */
  lemma RemoveOneCopy(adj: Adj, es: seq<Edge>, k: int, id: int)
    requires k in adj && k != id && |adj[k]| > 0 && adj[k][0] == id
    requires forall i :: 0 <= i < |es| ==> !Touches(es[i], id)
    ensures k in ListsAfterRemoveNode(adj, es, id) && ListsAfterRemoveNode(adj, es, id)[k] == adj[k][1..]
  {
    NoPairs(es, k, id);
    ListsAfterRemoveNodeAt(adj, es, id, k);
    assert RemoveCopies(adj[k], id, 0) == adj[k];
    RemoveFirstHead(adj[k], id);
  }

  lemma NoPairs(es: seq<Edge>, k: int, id: int)
    requires forall i :: 0 <= i < |es| ==> !Touches(es[i], id)
    ensures PairCount(es, k, id) == 0
  {
    assert (k, id) !in Pairs(es);
  }

  lemma RemoveFirstHead(l: seq<int>, x: int)
    requires |l| > 0 && l[0] == x
    ensures RemoveFirst(l, x) == l[1..]
  {
    IndexOfAt(l, x, 0);
    RemoveFirstAt(l, x);
  }

  /** The edges of `done` that go from `k` to `t`, counted. */
  function Hits(done: set<Edge>, k: int, t: int): nat
  {
    |HitSet(done, k, t)|
  }

  function HitSet(done: set<Edge>, k: int, t: int): set<Edge>
  {
    set e | e in done && e.from.id == k && e.to.id == t
  }

  /** The edges of `es` that go from `k` to `t`. */
  function Matching(es: seq<Edge>, k: int, t: int): set<Edge>
  {
    set e | e in es && e.from.id == k && e.to.id == t
  }

  /** In a list holding each edge once, the edges from `k` to `t` are as many as the pair (k, t) occurs. */
  lemma {:induction false} MatchingCount(es: seq<Edge>, k: int, t: int)
    requires NoDuplicates(es)
    ensures |Matching(es, k, t)| == PairCount(es, k, t)
  {
    if es != [] {
      var init := es[..|es| - 1];
      var last := es[|es| - 1];
      assert NoDuplicates(init) && last !in init by {
        assert es == init + [last];
      }
      MatchingCount(init, k, t);
      MatchingSnoc(init, last, k, t);
      PairCountSnoc(init, last, k, t);
      assert init + [last] == es;
    }
  }

  lemma MatchingSnoc(es: seq<Edge>, x: Edge, k: int, t: int)
    requires x !in es
    ensures |Matching(es + [x], k, t)| == |Matching(es, k, t)| + if x.from.id == k && x.to.id == t then 1 else 0
  {
    if x.from.id == k && x.to.id == t {
      assert Matching(es + [x], k, t) == Matching(es, k, t) + {x};
    } else {
      assert Matching(es + [x], k, t) == Matching(es, k, t);
    }
  }

  lemma PairCountSnoc(es: seq<Edge>, x: Edge, k: int, t: int)
    ensures PairCount(es + [x], k, t) == PairCount(es, k, t) + if x.from.id == k && x.to.id == t then 1 else 0
  {
    PairsSnoc(es, x);
  }

  /** The edges of `done` whose source is a node of `adj`: those removeEdge(e) takes out of the list. */
  function Gone(done: set<Edge>, adj: Adj): set<Edge>
  {
    set e | e in done && e.from.id in adj
  }

  /** One more removeEdge(e) during removeNode: the edge list loses `e` exactly when its source is a node. */
  lemma RemovedEdgeStep(es: seq<Edge>, adj: Adj, done: set<Edge>, e: Edge)
    requires NoDuplicates(es) && e in es && e !in done
    ensures (if e.from.id in adj then RemoveFirst(Without(es, Gone(done, adj)), e) else Without(es, Gone(done, adj))) ==
            Without(es, Gone(done + {e}, adj))
  {
    if e.from.id in adj {
      assert Gone(done + {e}, adj) == Gone(done, adj) + {e};
      RemoveFirstWithout(es, Gone(done, adj), e);
    } else {
      assert Gone(done + {e}, adj) == Gone(done, adj);
    }
  }

  /** One more removed edge touching `id` counts as an edge k -> id exactly when it leaves `k`. */
  lemma RemovedHit(done: set<Edge>, e: Edge, id: int, k: int)
    requires Touches(e, id) && e !in done && k != id
    ensures Hits(done + {e}, k, id) == Hits(done, k, id) + if e.from.id == k then 1 else 0
  {
    if e.from.id == k {
      assert HitSet(done + {e}, k, id) == HitSet(done, k, id) + {e};
    } else {
      assert HitSet(done + {e}, k, id) == HitSet(done, k, id);
    }
  }

  /**
    Part way through the removeEdge(e) calls of removeNode(id), with the edges
    `done` handled: the same nodes, the edge list without the handled edges
    whose source is a node, and every other list short of one copy of `id` per
    handled edge from it.
  */
  ghost predicate Removing(adj: Adj, es: seq<Edge>, adj0: Adj, es0: seq<Edge>, id: int, done: set<Edge>)
  {
    adj.Keys == adj0.Keys &&
    es == Without(es0, Gone(done, adj0)) &&
    forall k :: k in adj0 && k != id ==> adj[k] == RemoveCopies(adj0[k], id, Hits(done, k, id))
  }

  lemma RemovingStart(adj: Adj, es: seq<Edge>, id: int)
    ensures Removing(adj, es, adj, es, id, {})
  {
    assert Gone({}, adj) == {};
    WithoutNothing(es);
    forall k | k in adj && k != id ensures adj[k] == RemoveCopies(adj[k], id, Hits({}, k, id)) {
      assert HitSet({}, k, id) == {};
    }
  }

  /** removeEdge(e) on one more collected edge `e` keeps the description, with `e` handled. */
  lemma RemovingStep(adj: Adj, es: seq<Edge>, adj': Adj, es': seq<Edge>,
                     adj0: Adj, es0: seq<Edge>, id: int, done: set<Edge>, e: Edge)
    requires Removing(adj, es, adj0, es0, id, done)
    requires NoDuplicates(es0) && e in es0 && Touches(e, id) && e !in done
    requires e.from.id in adj ==> adj' == adj[e.from.id := RemoveFirst(adj[e.from.id], e.to.id)] && es' == RemoveFirst(es, e)
    requires e.from.id !in adj ==> adj' == adj && es' == es
    ensures Removing(adj', es', adj0, es0, id, done + {e})
  {
    RemovedEdgeStep(es0, adj0, done, e);
    forall k | k in adj0 && k != id ensures adj'[k] == RemoveCopies(adj0[k], id, Hits(done + {e}, k, id)) {
      RemovedListStep(adj, adj', adj0, id, done, e, k);
    }
  }

  /** With every edge touching `id` handled, the edge list is final and each other list lost one copy per edge to `id`. */
  lemma RemovingDone(adj: Adj, es: seq<Edge>, adj0: Adj, es0: seq<Edge>, id: int, done: set<Edge>)
    requires Removing(adj, es, adj0, es0, id, done)
    requires NoDuplicates(es0) && done == set e | e in es0 && Touches(e, id)
    ensures es == EdgesAfterRemoveNode(es0, adj0, id)
    ensures adj.Keys == adj0.Keys
    ensures forall k :: k in adj0 && k != id ==> adj[k] == RemoveCopies(adj0[k], id, PairCount(es0, k, id))
  {
    assert Gone(done, adj0) == Doomed(es0, adj0, id);
    forall k | k in adj0 && k != id ensures Hits(done, k, id) == PairCount(es0, k, id) {
      assert HitSet(done, k, id) == Matching(es0, k, id);
      MatchingCount(es0, k, id);
    }
  }

  /** The final sweep of removeNode(id): every list loses its first copy of `id`. */
  function SweepLists(lists: Adj, id: int): (r: Adj)
    ensures r.Keys == lists.Keys
  {
    map k | k in lists :: RemoveFirst(lists[k], id)
  }

  /** Part way through the sweep: the lists of `rest` are untouched, the others have lost their first `id`. */
  ghost predicate Sweeping(lists: Adj, adj: Adj, rest: set<int>, id: int)
  {
    lists.Keys == adj.Keys && rest <= adj.Keys &&
    (forall k :: k in rest ==> lists[k] == adj[k]) &&
    forall k :: k in lists && k !in rest ==> lists[k] == RemoveFirst(adj[k], id)
  }

  lemma SweepingStep(lists: Adj, adj: Adj, rest: set<int>, id: int, k: int)
    requires Sweeping(lists, adj, rest, id) && k in rest
    ensures Sweeping(lists[k := RemoveFirst(lists[k], id)], adj, rest - {k}, id)
  {
  }

  lemma SweepingDone(lists: Adj, adj: Adj, id: int)
    requires Sweeping(lists, adj, {}, id)
    ensures lists == SweepLists(adj, id)
  {
    var swept := SweepLists(adj, id);
    forall j | j in lists ensures lists[j] == swept[j] {
      assert lists[j] == RemoveFirst(adj[j], id);
    }
  }

  /** Dropping the node and sweeping the lists left by the removeEdge calls gives the final adjacency. */
  lemma SweptIsFinal(handled: Adj, adj0: Adj, es0: seq<Edge>, id: int)
    requires handled.Keys == adj0.Keys
    requires forall k :: k in adj0 && k != id ==> handled[k] == RemoveCopies(adj0[k], id, PairCount(es0, k, id))
    ensures SweepLists(handled - {id}, id) == ListsAfterRemoveNode(adj0, es0, id)
  {
    var r := ListsAfterRemoveNode(adj0, es0, id);
    forall k | k in r ensures SweepLists(handled - {id}, id)[k] == r[k] {
      ListsAfterRemoveNodeAt(adj0, es0, id, k);
    }
  }

  /** One removeEdge(e) on a list other than that of `id`. */
  lemma RemovedListStep(adj: Adj, adj': Adj, adj0: Adj, id: int, done: set<Edge>, e: Edge, k: int)
    requires k in adj0 && k in adj && k != id && Touches(e, id) && e !in done
    requires adj[k] == RemoveCopies(adj0[k], id, Hits(done, k, id))
    requires e.from.id in adj ==> adj' == adj[e.from.id := RemoveFirst(adj[e.from.id], e.to.id)]
    requires e.from.id !in adj ==> adj' == adj
    ensures adj'[k] == RemoveCopies(adj0[k], id, Hits(done + {e}, k, id))
  {
    if e.from.id == k {
      RemovedOwnList(adj0[k], id, done, e, k);
      assert adj'[k] == RemoveFirst(adj[k], id);
    } else {
      RemovedOtherList(adj0[k], id, done, e, k);
      assert adj'[k] == adj[k];
    }
  }

  /** An edge k -> id removes one more copy of `id` from the list of `k`. */
  lemma RemovedOwnList(l0: seq<int>, id: int, done: set<Edge>, e: Edge, k: int)
    requires k != id && Touches(e, id) && e !in done && e.from.id == k
    ensures RemoveFirst(RemoveCopies(l0, id, Hits(done, k, id)), id) == RemoveCopies(l0, id, Hits(done + {e}, k, id))
  {
    RemovedHit(done, e, id, k);
  }

  /** An edge touching `id` that does not leave `k` leaves the list of `k` alone. */
  lemma RemovedOtherList(l0: seq<int>, id: int, done: set<Edge>, e: Edge, k: int)
    requires k != id && Touches(e, id) && e !in done && e.from.id != k
    ensures RemoveCopies(l0, id, Hits(done, k, id)) == RemoveCopies(l0, id, Hits(done + {e}, k, id))
  {
    RemovedHit(done, e, id, k);
  }
}
