/**
  The two searches of Graf.java: getBFS, and getDFS with its recursive
  dfs_visit. Both number the nodes by their place in ascending id order (the
  `index` map) and keep one colour per number in an array. The loops that
  walk the whole graph are methods of Graphs.Graf; this module holds the
  numbering, the inner loops and the facts the searches keep.
*/
module Traversal {
  import opened Seqs
  import opened Adjacency

  datatype Color = White | Grey | Black

  /** `index` numbers the nodes of `adj` one to one by numbers below `n`. */
  predicate IsIndex(adj: Adj, index: map<int, int>, n: int)
  {
    index.Keys == adj.Keys &&
    (forall k :: k in index ==> 0 <= index[k] < n) &&
    (forall a, b :: a in index && b in index && a != b ==> index[a] != index[b])
  }

  /** The `index` map of getBFS and getDFS: each node is numbered by its place in ascending id order. */
  ghost predicate Places(adj: Adj, index: map<int, int>)
  {
    index.Keys == adj.Keys &&
    forall k :: k in index ==> 0 <= index[k] < |adj| && SortedSet(adj.Keys)[index[k]] == k
  }

  /** A strictly ascending sequence holds each value at one place only. */
  lemma SamePlace(ks: seq<int>, i: int, j: int)
    requires forall a, b :: 0 <= a < b < |ks| ==> ks[a] < ks[b]
    requires 0 <= i < |ks| && 0 <= j < |ks|
    ensures ks[i] == ks[j] <==> i == j
  {
  }

  lemma PlacesIndex(adj: Adj, index: map<int, int>)
    requires Places(adj, index)
    ensures IsIndex(adj, index, |adj|)
  {
    forall a, b | a in index && b in index && a != b
      ensures index[a] != index[b]
    {
      SamePlace(SortedSet(adj.Keys), index[a], index[b]);
    }
  }

  /** The least node is numbered 0: `color[0]` in getBFS is the colour of the least node. */
  lemma PlaceOfLeast(adj: Adj, index: map<int, int>)
    requires Places(adj, index) && adj.Keys != {}
    ensures IsIndex(adj, index, |adj|)
    ensures SetMin(adj.Keys) in index && index[SetMin(adj.Keys)] == 0
  {
    PlacesIndex(adj, index);
    var m := SetMin(adj.Keys);
    SortedSetFirst(adj.Keys);
    SamePlace(SortedSet(adj.Keys), index[m], 0);
  }

  /**
    The first loop of getBFS and getDFS: walking the keys in ascending
    order, index.put(key, cpt) with cpt counting up from 0. (The same loop
    sets color[cpt] = WHITE; the callers create the colour array white.)
  */
  method IndexKeys(adj: Adj) returns (index: map<int, int>)
    ensures index.Keys == adj.Keys
    ensures forall k :: k in index ==> 0 <= index[k] < |adj| && SortedSet(adj.Keys)[index[k]] == k
  {
    index := map[];
    var cpt := 0;
    var rest := adj.Keys;
    ghost var done: seq<int> := [];
    VisitingStart(adj);
    assert Indexing(adj, index, done, rest);
    while rest != {}
      invariant Indexing(adj, index, done, rest) && cpt == |done|
      decreases rest
    {
      var k := SetMin(rest);
      IndexingStep(adj, index, done, rest);
      index := index[k := cpt];
      cpt := cpt + 1;
      done := done + [k];
      rest := rest - {k};
    }
    NumberedDone(adj, index, done);
    NumberedAll(adj, index, done);
  }

  /** The walk of the first loop: `done` behind, `rest` ahead, the keys of `done` numbered. */
  ghost predicate Indexing(adj: Adj, index: map<int, int>, done: seq<int>, rest: set<int>)
  {
    Visiting(adj, done, rest) && Numbered(adj, index, done, rest)
  }

  lemma IndexingStep(adj: Adj, index: map<int, int>, done: seq<int>, rest: set<int>)
    requires Indexing(adj, index, done, rest) && rest != {}
    ensures |done| < |adj|
    ensures Indexing(adj, index[SetMin(rest) := |done|], done + [SetMin(rest)], rest - {SetMin(rest)})
  {
    WalkLength(adj, done, rest);
    NumberedStep(adj, index, done, rest, SetMin(rest));
    VisitingStep(adj, done, rest);
  }

  /** The keys visited so far carry their place in the walk. */
  ghost predicate Numbered(adj: Adj, index: map<int, int>, done: seq<int>, rest: set<int>)
  {
    (forall k :: k in index <==> k in adj && k !in rest) &&
    forall k :: k in index ==> 0 <= index[k] < |done| && done[index[k]] == k
  }

  lemma NumberedStep(adj: Adj, index: map<int, int>, done: seq<int>, rest: set<int>, k: int)
    requires k in rest && rest <= adj.Keys && Numbered(adj, index, done, rest)
    ensures Numbered(adj, index[k := |done|], done + [k], rest - {k})
  {
  }

  /** At the end of the walk every node carries its place in ascending order. */
  lemma NumberedDone(adj: Adj, index: map<int, int>, done: seq<int>)
    requires Indexing(adj, index, done, {})
    ensures forall k :: k in index ==> 0 <= index[k] < |adj| && SortedSet(adj.Keys)[index[k]] == k
  {
    VisitingDone(adj, done);
    forall k | k in index
      ensures 0 <= index[k] < |adj| && SortedSet(adj.Keys)[index[k]] == k
    {
    }
  }

  /** At the end of the walk every node is numbered, and only nodes are. */
  lemma NumberedAll(adj: Adj, index: map<int, int>, done: seq<int>)
    requires Numbered(adj, index, done, {})
    ensures index.Keys == adj.Keys
  {
    forall k
      ensures k in index.Keys <==> k in adj.Keys
    {
      assert k !in {};
    }
  }

  /** A walk has as many keys behind it as the map has keys it has not reached. */
  lemma WalkLength(adj: Adj, done: seq<int>, rest: set<int>)
    requires Visiting(adj, done, rest)
    ensures |done| + |rest| == |adj|
  {
    assert |done + SortedSet(rest)| == |SortedSet(adj.Keys)|;
  }

  /** A duplicate-free sequence of members of `k` is no longer than `k` is large. */
  lemma {:induction false} NoDuplicatesBound(s: seq<int>, k: set<int>)
    requires NoDuplicates(s) && forall x :: x in s ==> x in k
    ensures |s| <= |k|
  {
    if s != [] {
      var x := s[|s| - 1];
      var init := s[..|s| - 1];
      assert forall y :: y in init ==> y in s && y != x;
      NoDuplicatesBound(init, k - {x});
    }
  }

  lemma NoDuplicatesConcat(a: seq<int>, b: seq<int>)
    requires NoDuplicates(a) && NoDuplicates(b)
    requires forall x :: x in b ==> x !in a
    ensures NoDuplicates(a + b)
  {
    forall i, j | 0 <= i < j < |a + b|
      ensures (a + b)[i] != (a + b)[j]
    {
      if i < |a| && |a| <= j {
        assert (a + b)[j] == b[j - |a|];
        assert (a + b)[j] in b;
      }
    }
  }

  // ---------------------------------------------------------------- getBFS

  /**
    The successors in `succ` that one poll of getBFS queues, in list order,
    when `seen` holds the nodes already coloured: each node not seen yet,
    which is seen from then on, so a repeated successor is queued once.
  */
  function Queued(adj: Adj, seen: set<int>, succ: seq<int>): (r: seq<int>)
    ensures NoDuplicates(r)
    ensures forall x {:trigger x in r} :: x in r <==> x in succ && x in adj && x !in seen
    decreases |succ|
  {
    if succ == [] then []
    else
      var rest := if succ[0] in adj && succ[0] !in seen then Queued(adj, seen + {succ[0]}, succ[1..])
                  else Queued(adj, seen, succ[1..]);
      assert forall x :: x in succ <==> x == succ[0] || x in succ[1..];
      if succ[0] in adj && succ[0] !in seen then
        NoDuplicatesConcat([succ[0]], rest);
        [succ[0]] + rest
      else rest
  }

  /** Queued, one successor at a time from position `j`. */
  lemma QueuedAt(adj: Adj, seen: set<int>, succ: seq<int>, j: int)
    requires 0 <= j < |succ|
    ensures Queued(adj, seen, succ[j..]) ==
            if succ[j] in adj && succ[j] !in seen then [succ[j]] + Queued(adj, seen + {succ[j]}, succ[j + 1..])
            else Queued(adj, seen, succ[j + 1..])
  {
    assert succ[j..][1..] == succ[j + 1..];
  }

  /** One successor further: whether it is queued depends only on `seen`. */
  lemma QueuingStep(adj: Adj, seen0: set<int>, seen: set<int>, succ: seq<int>, j: int, added: seq<int>)
    requires 0 <= j < |succ| && Queued(adj, seen0, succ) == added + Queued(adj, seen, succ[j..])
    ensures succ[j] in adj && succ[j] !in seen ==>
              Queued(adj, seen0, succ) == (added + [succ[j]]) + Queued(adj, seen + {succ[j]}, succ[j + 1..])
    ensures succ[j] !in adj || succ[j] in seen ==>
              Queued(adj, seen0, succ) == added + Queued(adj, seen, succ[j + 1..])
  {
    QueuedAt(adj, seen, succ, j);
    if succ[j] in adj && succ[j] !in seen {
      var rest := Queued(adj, seen + {succ[j]}, succ[j + 1..]);
      assert added + ([succ[j]] + rest) == (added + [succ[j]]) + rest;
    }
  }

  /**
    Breadth-first search on values, with no colour array: `seen` holds the
    nodes coloured so far. Each poll outputs the head u of the queue and
    queues the successors of u not seen yet; u itself counts as seen only
    after its successors were looked at, as in getBFS, where u turns black
    at the end of its poll.
  */
  function BfsFrom(adj: Adj, seen: set<int>, queue: seq<int>): seq<int>
    requires forall x :: x in queue ==> x in adj
    decreases adj.Keys - seen, |queue|
  {
    if queue == [] then []
    else
      var u := queue[0];
      var added := Queued(adj, seen, adj[u]);
      var seen' := seen + {u} + (set x | x in added);
      assert added != [] ==> added[0] in added && added[0] in adj.Keys - seen && added[0] !in adj.Keys - seen';
      var rest := BfsFrom(adj, seen', queue[1..] + added);
      assert forall x :: x in queue[1..] ==> x in queue;
      [u] + rest
  }

  /**
    The order getBFS outputs the nodes in: at the start only the least node
    is coloured (color[0]) and node 1 is queued.
  */
  function BreadthFirst(adj: Adj): seq<int>
    requires 1 in adj
  {
    BfsFrom(adj, {SetMin(adj.Keys)}, [1])
  }

  /** BreadthFirst, one poll at a time. */
  lemma BfsFromUnfold(adj: Adj, seen: set<int>, queue: seq<int>, added: seq<int>, seen': set<int>)
    requires forall x :: x in queue ==> x in adj
    requires queue != [] && queue[0] in adj && added == Queued(adj, seen, adj[queue[0]])
    requires seen' == seen + {queue[0]} + (set x | x in added)
    ensures BfsFrom(adj, seen, queue) == [queue[0]] + BfsFrom(adj, seen', queue[1..] + added)
  {
  }

  /**
    On 1 -> 2, 3 and 2 -> 4 the search goes level by level: node 3, a
    successor of node 1, comes out before node 4, a successor of node 2.
  */
  lemma BreadthFirstLevels()
    ensures BreadthFirst(map[1 := [2, 3], 2 := [4], 3 := [], 4 := []]) == [1, 2, 3, 4]
  {
    LevelsRun(map[1 := [2, 3], 2 := [4], 3 := [], 4 := []]);
  }

  /** The graph of BreadthFirstLevels, node by node. */
  ghost predicate LevelsGraph(adj: Adj)
  {
    1 in adj && 2 in adj && 3 in adj && 4 in adj && adj.Keys == {1, 2, 3, 4} &&
    adj[1] == [2, 3] && adj[2] == [4] && adj[3] == [] && adj[4] == []
  }

  /** BreadthFirstLevels on its graph given by name. */
  lemma LevelsRun(adj: Adj)
    requires adj == map[1 := [2, 3], 2 := [4], 3 := [], 4 := []]
    ensures 1 in adj && BreadthFirst(adj) == [1, 2, 3, 4]
  {
    var s4: set<int> := {1, 2, 3, 4};
    assert adj.Keys == s4;
    assert LevelsGraph(adj);
    LevelsFirst(adj, {1});
  }

  /** The first poll of BreadthFirstLevels, then the others. */
  lemma LevelsFirst(adj: Adj, one: set<int>)
    requires LevelsGraph(adj) && one == {1}
    ensures BfsFrom(adj, one, [1]) == [1, 2, 3, 4]
  {
    var s3: set<int> := {1, 2, 3};
    var first: seq<int> := [1];
    var next: seq<int> := [2, 3];
    LevelsQueued(adj, one, s3);
    assert one + {1} + (set x | x in next) == s3;
    BfsFromUnfold(adj, one, first, next, s3);
    assert first[1..] + next == next;
    LevelsLater(adj, s3, {1, 2, 3, 4});
  }

  /** The polls of BreadthFirstLevels after the first one. */
  lemma LevelsLater(adj: Adj, s3: set<int>, s4: set<int>)
    requires LevelsGraph(adj) && s3 == {1, 2, 3} && s4 == {1, 2, 3, 4}
    ensures BfsFrom(adj, s3, [2, 3]) == [2, 3, 4]
  {
    LevelsQueued(adj, {1}, s3);
    assert s3 + {2} + (set x | x in [4]) == s4;
    BfsFromUnfold(adj, s3, [2, 3], [4], s4);
    LevelsLast(adj, s4);
  }

  /** The last two polls of BreadthFirstLevels queue nothing. */
  lemma LevelsLast(adj: Adj, s4: set<int>)
    requires LevelsGraph(adj) && s4 == {1, 2, 3, 4}
    ensures BfsFrom(adj, s4, [3, 4]) == [3, 4]
  {
    BfsFromUnfold(adj, s4, [3, 4], [], s4);
    BfsFromUnfold(adj, s4, [4], [], s4);
  }

  /** What the first two polls of BreadthFirstLevels queue. */
  lemma LevelsQueued(adj: Adj, one: set<int>, s3: set<int>)
    requires LevelsGraph(adj) && one == {1} && s3 == {1, 2, 3}
    ensures Queued(adj, one, adj[1]) == [2, 3] && Queued(adj, s3, adj[2]) == [4]
  {
    assert Queued(adj, one + {2} + {3}, []) == [];
    assert [2, 3][1..] == [3];
    assert Queued(adj, s3, [4]) == [4];
  }

  /**
    When node 1 is not the least node it is not coloured when queued, so a
    self-loop on it queues and outputs it a second time.
  */
  lemma BreadthFirstTwice()
    ensures BreadthFirst(map[0 := [], 1 := [1]]) == [1, 1]
  {
    var adj := map[0 := [], 1 := [1]];
    var zero: set<int> := {0};
    var both: set<int> := {0, 1};
    assert adj.Keys == both;
    assert SetMin(adj.Keys) == 0;
    assert Queued(adj, zero, [1]) == [1];
    BfsFromUnfold(adj, zero, [1], [1], both);
    assert Queued(adj, both, [1]) == [];
    BfsFromUnfold(adj, both, [1], [], both);
  }

  /** The nodes whose colour is not white. */
  ghost function Coloured(adj: Adj, index: map<int, int>, c: seq<Color>): (s: set<int>)
    requires IsIndex(adj, index, |c|)
    ensures forall x {:trigger x in s} :: x in s <==> x in adj && c[index[x]] != White
  {
    set x | x in adj && c[index[x]] != White
  }

  /**
    The state of getBFS between two polls, with `m` the least node (grey
    from the start, as color[0]). Everything ever queued, bfs + queue, starts
    with node 1, holds reachable nodes only, and after its head holds each
    node once and never `m`; a node is coloured exactly when it is `m`, has
    been output, or was queued after the start; the successors of every
    output node are coloured.
  */
  ghost predicate Searching(adj: Adj, index: map<int, int>, c: seq<Color>, m: int, bfs: seq<int>, queue: seq<int>)
    requires IsIndex(adj, index, |c|)
  {
    var h := bfs + queue;
    |h| > 0 && h[0] == 1 &&
    (forall x :: x in h ==> x in adj && Reaches(adj, 1, x)) &&
    NoDuplicates(h[1..]) && m !in h[1..] &&
    (forall x :: x in adj ==> (c[index[x]] != White <==> x == m || x in bfs || x in h[1..])) &&
    (forall x, y :: x in bfs && x in adj && y in adj[x] ==> y in adj && c[index[y]] != White)
  }

  /**
    The order getBFS keeps: what it output so far, followed by what a
    search on values from the coloured nodes and the current queue outputs,
    is BreadthFirst.
  */
  ghost predicate Following(adj: Adj, index: map<int, int>, c: seq<Color>, bfs: seq<int>, queue: seq<int>)
    requires IsIndex(adj, index, |c|)
  {
    1 in adj && (forall x :: x in queue ==> x in adj) &&
    BreadthFirst(adj) == bfs + BfsFrom(adj, Coloured(adj, index, c), queue)
  }

  /** The start of getBFS's loop: node 1 queued, only the least node coloured. */
  lemma SearchingStart(adj: Adj, index: map<int, int>, c: seq<Color>)
    requires 1 in adj && IsIndex(adj, index, |c|)
    requires index[SetMin(adj.Keys)] == 0
    requires forall i :: 0 <= i < |c| ==> c[i] == if i == 0 then Grey else White
    ensures Searching(adj, index, c, SetMin(adj.Keys), [], [1])
    ensures Following(adj, index, c, [], [1])
  {
    ReachesSelf(adj, 1);
    assert ([] + [1])[1..] == [];
    assert Coloured(adj, index, c) == {SetMin(adj.Keys)};
  }

  /** new color[n], every cell WHITE. */
  method NewColors(n: nat) returns (color: array<Color>)
    ensures fresh(color) && color.Length == n
    ensures forall i :: 0 <= i < n ==> color[i] == White
  {
    color := new Color[n](_ => White);
  }

  /** The colours of getBFS at its start: all white, then color[0] grey. */
  method SearchColors(n: nat) returns (color: array<Color>)
    requires n > 0
    ensures fresh(color) && color.Length == n
    ensures forall i :: 0 <= i < n ==> color[i] == if i == 0 then Grey else White
  {
    color := NewColors(n);
    color[0] := Grey;
  }

  /**
    The set-up of getBFS: the nodes numbered and coloured white, then
    color[0], the colour of the least node, grey and node 1 queued.
  */
  method StartSearch(adj: Adj) returns (index: map<int, int>, color: array<Color>)
    requires 1 in adj
    ensures fresh(color) && color.Length == |adj| && IsIndex(adj, index, color.Length)
    ensures index[SetMin(adj.Keys)] == 0
    ensures forall i :: 0 <= i < color.Length ==> color[i] == if i == 0 then Grey else White
  {
    index := IndexKeys(adj);
    PlaceOfLeast(adj, index);
    color := SearchColors(|adj|);
  }

  /** Whatever is queued is at most every node plus a second copy of node 1. */
  lemma SearchingBound(adj: Adj, index: map<int, int>, c: seq<Color>, m: int, bfs: seq<int>, queue: seq<int>)
    requires IsIndex(adj, index, |c|) && Searching(adj, index, c, m, bfs, queue)
    ensures |bfs + queue| <= |adj| + 1
  {
    var h := bfs + queue;
    assert forall x :: x in h[1..] ==> x in h;
    NoDuplicatesBound(h[1..], adj.Keys);
  }

  /**
    One poll of getBFS: `u` leaves the queue, the successors that were white
    (`added`) turn grey and are queued (colours `c1`), then `u` turns black
    (colours `c2`) and is output.
  */
  lemma SearchingStep(adj: Adj, index: map<int, int>, c: seq<Color>, c1: seq<Color>, c2: seq<Color>,
                      m: int, bfs: seq<int>, queue: seq<int>, u: int, added: seq<int>)
    requires IsIndex(adj, index, |c|) && |c1| == |c| && ClosedFrom(adj, 1)
    requires Searching(adj, index, c, m, bfs, queue) && queue != [] && u == queue[0] && u in adj
    requires NoDuplicates(added)
    requires forall x :: x in added <==> x in adj[u] && c[index[x]] == White
    requires forall x :: x in adj ==> c1[index[x]] == (if x in added then Grey else c[index[x]])
    requires c2 == c1[index[u] := Black]
    ensures Searching(adj, index, c2, m, bfs + [u], queue[1..] + added)
    ensures bfs + [u] + (queue[1..] + added) == bfs + queue + added
  {
    var h := bfs + queue;
    var h' := bfs + [u] + (queue[1..] + added);
    assert h' == h + added;
    assert h'[1..] == h[1..] + added;
    forall x | x in added
      ensures x !in h[1..] && x != m && x in adj && Reaches(adj, 1, x)
    {
      ReachesStep(adj, 1, u, x);
    }
    NoDuplicatesConcat(h[1..], added);
    forall x | x in adj
      ensures c2[index[x]] != White <==> x == m || x in bfs + [u] || x in h'[1..]
    {
      if x != u {
        assert c2[index[x]] == c1[index[x]];
      }
    }
  }

  /** The successors of `u` that a poll queues are those still white, each once. */
  lemma QueuedWhite(adj: Adj, index: map<int, int>, c: seq<Color>, u: int)
    requires IsIndex(adj, index, |c|) && u in adj && forall s :: s in adj[u] ==> s in adj
    ensures NoDuplicates(Queued(adj, Coloured(adj, index, c), adj[u]))
    ensures forall x :: x in Queued(adj, Coloured(adj, index, c), adj[u]) <==> x in adj[u] && c[index[x]] == White
  {
  }

  /** The output so far and a value search from the new state still make BreadthFirst. */
  lemma FollowingStep(adj: Adj, index: map<int, int>, c: seq<Color>, c1: seq<Color>, c2: seq<Color>,
                      bfs: seq<int>, queue: seq<int>, u: int, added: seq<int>)
    requires IsIndex(adj, index, |c|) && |c1| == |c| && |c2| == |c|
    requires Following(adj, index, c, bfs, queue) && queue != [] && u == queue[0]
    requires added == Queued(adj, Coloured(adj, index, c), adj[u])
    requires forall x :: x in adj ==> c1[index[x]] == (if x in added then Grey else c[index[x]])
    requires c2 == c1[index[u] := Black]
    ensures Following(adj, index, c2, bfs + [u], queue[1..] + added)
  {
    var seen := Coloured(adj, index, c);
    ColouredStep(adj, index, c, c1, c2, u, added);
    BfsFromUnfold(adj, seen, queue, added, Coloured(adj, index, c2));
    assert forall x :: x in queue[1..] ==> x in queue;
  }

  /** After a poll the coloured nodes are those before, the polled node and those queued. */
  lemma ColouredStep(adj: Adj, index: map<int, int>, c: seq<Color>, c1: seq<Color>, c2: seq<Color>,
                     u: int, added: seq<int>)
    requires IsIndex(adj, index, |c|) && |c1| == |c| && |c2| == |c| && u in adj
    requires forall x :: x in added ==> x in adj
    requires forall x :: x in adj ==> c1[index[x]] == (if x in added then Grey else c[index[x]])
    requires c2 == c1[index[u] := Black]
    ensures Coloured(adj, index, c2) == Coloured(adj, index, c) + {u} + (set x | x in added)
  {
    var queued := set x | x in added;
    forall x
      ensures x in Coloured(adj, index, c2) <==> x in Coloured(adj, index, c) + {u} + queued
    {
      if x in adj && x != u {
        assert c2[index[x]] == c1[index[x]];
      }
    }
  }

  /** What the queue leaves behind once it runs dry. */
  lemma SearchingDone(adj: Adj, index: map<int, int>, c: seq<Color>, bfs: seq<int>)
    requires IsIndex(adj, index, |c|) && 1 in adj
    requires Searching(adj, index, c, SetMin(adj.Keys), bfs, []) && Following(adj, index, c, bfs, [])
    ensures |bfs| > 0 && bfs[0] == 1 && NoDuplicates(bfs[1..])
    ensures forall x :: x in bfs ==> x in adj && Reaches(adj, 1, x)
    ensures SetMin(adj.Keys) != 1 ==> SetMin(adj.Keys) !in bfs
    ensures SetMin(adj.Keys) == 1 ==> NoDuplicates(bfs) && forall x :: Reaches(adj, 1, x) ==> x in bfs
    ensures bfs == BreadthFirst(adj)
  {
    assert bfs + [] == bfs;
    var m := SetMin(adj.Keys);
    assert bfs == [bfs[0]] + bfs[1..];
    if m == 1 {
      forall i, j | 0 <= i < j < |bfs|
        ensures bfs[i] != bfs[j]
      {
        assert bfs[j] == bfs[1..][j - 1];
        if i > 0 {
          assert bfs[i] == bfs[1..][i - 1];
        }
      }
      var s := set x | x in bfs;
      forall x, y | x in s && x in adj && y in adj[x]
        ensures y in s
      {
        assert bfs == [bfs[0]] + bfs[1..];
      }
      forall x | Reaches(adj, 1, x)
        ensures x in bfs
      {
        ClosedSetHoldsReachable(adj, s, 1, x);
      }
    }
  }

  /**
    The state of getBFS's inner loop after `j` successors in `succ`: what
    was queued so far and what the rest of the list will queue make up all
    that the poll queues; `seen` holds the coloured nodes, and only the
    queued nodes changed colour, to grey.
  */
  ghost predicate Queuing(adj: Adj, index: map<int, int>, c0: seq<Color>, c: seq<Color>, succ: seq<int>,
                          seen0: set<int>, seen: set<int>, j: int, added: seq<int>)
    requires IsIndex(adj, index, |c0|) && |c| == |c0|
  {
    0 <= j <= |succ| &&
    Queued(adj, seen0, succ) == added + Queued(adj, seen, succ[j..]) &&
    (forall x :: x in adj ==> (x in seen <==> c[index[x]] != White)) &&
    (forall x :: x in adj ==> c[index[x]] == (if x in added then Grey else c0[index[x]]))
  }

  /** One round of the inner loop: a white successor turns grey and is queued. */
  lemma QueuingKeep(adj: Adj, index: map<int, int>, c0: seq<Color>, c: seq<Color>, c': seq<Color>, succ: seq<int>,
                    seen0: set<int>, seen: set<int>, j: int, added: seq<int>)
    requires IsIndex(adj, index, |c|) && |c| == |c0|
    requires Queuing(adj, index, c0, c, succ, seen0, seen, j, added) && j < |succ| && succ[j] in adj
    requires 0 <= index[succ[j]] < |c|
    requires c' == if c[index[succ[j]]] == White then c[index[succ[j]] := Grey] else c
    ensures c[index[succ[j]]] == White ==>
              Queuing(adj, index, c0, c', succ, seen0, seen + {succ[j]}, j + 1, added + [succ[j]])
    ensures c[index[succ[j]]] != White ==> Queuing(adj, index, c0, c', succ, seen0, seen, j + 1, added)
  {
    QueuingStep(adj, seen0, seen, succ, j, added);
    var n := succ[j];
    if c[index[n]] == White {
      forall x | x in adj
        ensures c'[index[x]] == if x == n then Grey else c[index[x]]
      {
      }
    }
  }

  /** The inner loop ends with everything the poll queues. */
  lemma QueuingDone(adj: Adj, index: map<int, int>, c0: seq<Color>, c: seq<Color>, succ: seq<int>,
                    seen0: set<int>, seen: set<int>, added: seq<int>)
    requires IsIndex(adj, index, |c0|) && |c| == |c0|
    requires Queuing(adj, index, c0, c, succ, seen0, seen, |succ|, added)
    ensures added == Queued(adj, seen0, succ)
  {
    assert succ[|succ|..] == [];
    assert added + [] == added;
  }

  /**
    The inner loop of getBFS: each successor of `u` that is still white
    turns grey and joins the queue; `added` lists them in the order queued.
  */
  method VisitSuccessors(adj: Adj, index: map<int, int>, color: array<Color>, u: int, queue: seq<int>)
      returns (q: seq<int>, ghost added: seq<int>)
    requires u in adj && IsIndex(adj, index, color.Length)
    requires forall s :: s in adj[u] ==> s in adj
    modifies color
    ensures q == queue + added && added == Queued(adj, Coloured(adj, index, old(color[..])), adj[u])
    ensures forall x :: x in adj ==> color[index[x]] == (if x in added then Grey else old(color[index[x]]))
  {
    ghost var c0 := color[..];
    ghost var seen0 := Coloured(adj, index, c0);
    ghost var seen := seen0;
    q, added := queue, [];
    var succ := adj[u];
    var j := 0;
    while j < |succ|
      invariant j <= |succ| && q == queue + added
      invariant Queuing(adj, index, c0, color[..], succ, seen0, seen, j, added)
    {
      var n := succ[j];
      ghost var c := color[..];
      ghost var before := added;
      ghost var seenBefore := seen;
      if color[index[n]] == White {
        color[index[n]] := Grey;
        q := q + [n];
        added := added + [n];
        seen := seen + {n};
      }
      QueuingKeep(adj, index, c0, c, color[..], succ, seen0, seenBefore, j, before);
      j := j + 1;
    }
    QueuingDone(adj, index, c0, color[..], succ, seen0, seen, added);
  }

  /**
    One round of getBFS's loop: poll u, queue its white successors (turning
    them grey), turn u black and output it.
  */
  method Poll(adj: Adj, index: map<int, int>, color: array<Color>, ghost m: int, bfs: seq<int>, queue: seq<int>)
      returns (bfs': seq<int>, queue': seq<int>)
    requires ClosedFrom(adj, 1) && IsIndex(adj, index, color.Length)
    requires Searching(adj, index, color[..], m, bfs, queue) && queue != []
    requires Following(adj, index, color[..], bfs, queue)
    modifies color
    ensures Searching(adj, index, color[..], m, bfs', queue')
    ensures Following(adj, index, color[..], bfs', queue')
    ensures |bfs + queue| <= |bfs' + queue'| <= |adj| + 1
    ensures |bfs' + queue'| == |bfs + queue| ==> |queue'| < |queue|
  {
    ghost var c := color[..];
    var u := queue[0];
    assert u in bfs + queue;
    assert forall s :: s in adj[u] ==> s in adj;
    ghost var added;
    queue', added := VisitSuccessors(adj, index, color, u, queue[1..]);
    ghost var c1 := color[..];
    color[index[u]] := Black;
    bfs' := bfs + [u];
    QueuedWhite(adj, index, c, u);
    SearchingStep(adj, index, c, c1, color[..], m, bfs, queue, u, added);
    FollowingStep(adj, index, c, c1, color[..], bfs, queue, u, added);
    SearchingBound(adj, index, color[..], m, bfs', queue');
  }

  // ---------------------------------------------------------------- getDFS

  /**
    Depth-first search on values, with no colour array: `white` holds the
    nodes not entered yet. dfs_visit(u) enters u, visits each successor still
    unentered in list order, then outputs u. The result is the set of nodes
    still unentered afterwards and what the visit output, in order.
  */
  function DfsFrom(adj: Adj, white: set<int>, u: int): (r: (set<int>, seq<int>))
    requires white <= adj.Keys && u in white
    ensures r.0 <= white - {u}
    decreases white, 0, 0
  {
    var (w, out) := DfsChildren(adj, white - {u}, adj[u], 0);
    (w, out + [u])
  }

  /** The loop of dfs_visit from the `j`-th successor on. */
  function DfsChildren(adj: Adj, white: set<int>, succ: seq<int>, j: nat): (r: (set<int>, seq<int>))
    requires white <= adj.Keys && j <= |succ|
    ensures r.0 <= white
    decreases white, 1, |succ| - j
  {
    if j == |succ| then (white, [])
    else
      var (w1, o1) := if succ[j] in white then DfsFrom(adj, white, succ[j]) else (white, []);
      var (w2, o2) := DfsChildren(adj, w1, succ, j + 1);
      (w2, o1 + o2)
  }

  /** The loop of getDFS over the keys `ks`: dfs_visit(k) for each key k still unentered. */
  function DfsRoots(adj: Adj, white: set<int>, ks: seq<int>): (r: (set<int>, seq<int>))
    requires white <= adj.Keys
    ensures r.0 <= white
    decreases |ks|
  {
    if ks == [] then (white, [])
    else
      var (w1, o1) := if ks[0] in white then DfsFrom(adj, white, ks[0]) else (white, []);
      var (w2, o2) := DfsRoots(adj, w1, ks[1..]);
      (w2, o1 + o2)
  }

  /** getDFS as a recursive definition: roots in ascending id order, children in list order. */
  function DepthFirst(adj: Adj): seq<int>
  {
    DfsRoots(adj, adj.Keys, SortedSet(adj.Keys)).1
  }

  /** The ascending walk over the keys {1, 2}. */
  lemma SortedOneTwo()
    ensures SortedSet({1, 2}) == [1, 2]
  {
    SortedSetFirst({1, 2});
    assert SetMin({1, 2}) == 1;
    assert {1, 2} - {1} == {2};
    SortedSetFirst({2});
    assert {2} - {SetMin({2})} == {};
  }

  /** One step of the reference: visiting u is the visit of its children, then u. */
  lemma FromUnfold(adj: Adj, w: set<int>, u: int)
    requires w <= adj.Keys && u in w
    ensures DfsFrom(adj, w, u).0 == DfsChildren(adj, w - {u}, adj[u], 0).0
    ensures DfsFrom(adj, w, u).1 == DfsChildren(adj, w - {u}, adj[u], 0).1 + [u]
  {
  }

  /** One step of the reference: the `j`-th successor, then the rest. */
  lemma ChildrenUnfold(adj: Adj, w: set<int>, succ: seq<int>, j: nat)
    requires w <= adj.Keys && j < |succ|
    ensures succ[j] !in w ==> DfsChildren(adj, w, succ, j) == DfsChildren(adj, w, succ, j + 1)
    ensures succ[j] in w ==> DfsChildren(adj, w, succ, j).0 == DfsChildren(adj, DfsFrom(adj, w, succ[j]).0, succ, j + 1).0
    ensures succ[j] in w ==>
              DfsChildren(adj, w, succ, j).1 == DfsFrom(adj, w, succ[j]).1 + DfsChildren(adj, DfsFrom(adj, w, succ[j]).0, succ, j + 1).1
  {
    if succ[j] !in w {
      assert [] + DfsChildren(adj, w, succ, j + 1).1 == DfsChildren(adj, w, succ, j + 1).1;
    }
  }

  /** One step of the reference root loop: the first key, then the rest. */
  lemma RootsUnfold(adj: Adj, w: set<int>, ks: seq<int>)
    requires w <= adj.Keys && ks != []
    ensures ks[0] !in w ==> DfsRoots(adj, w, ks) == DfsRoots(adj, w, ks[1..])
    ensures ks[0] in w ==> DfsRoots(adj, w, ks).0 == DfsRoots(adj, DfsFrom(adj, w, ks[0]).0, ks[1..]).0
    ensures ks[0] in w ==>
              DfsRoots(adj, w, ks).1 == DfsFrom(adj, w, ks[0]).1 + DfsRoots(adj, DfsFrom(adj, w, ks[0]).0, ks[1..]).1
  {
    if ks[0] !in w {
      assert [] + DfsRoots(adj, w, ks[1..]).1 == DfsRoots(adj, w, ks[1..]).1;
    }
  }

  /** The root loop over the keys 1, 2 when visiting 1 leaves no node white: only 1 is a root. */
  lemma RootsOneTwo(adj: Adj, out: seq<int>)
    requires adj.Keys == {1, 2} && 1 in adj.Keys
    requires DfsFrom(adj, adj.Keys, 1) == ({}, out)
    ensures DepthFirst(adj) == out
  {
    var none: set<int> := {};
    SortedOneTwo();
    var ks := SortedSet(adj.Keys);
    assert ks[0] == 1 && ks[1..] == [2] && ks[1..][0] == 2 && ks[1..][1..] == [];
    RootsUnfold(adj, adj.Keys, ks);
    RootsUnfold(adj, none, ks[1..]);
    var rest := DfsRoots(adj, none, ks[1..][1..]);
    assert rest.0 == none && rest.1 == [];
    assert out + [] == out;
  }

  /** On the cycle 1 -> 2 -> 1, node 2 is output first: it finishes inside the visit of 1. */
  lemma DepthFirstCycle()
    ensures DepthFirst(map[1 := [2], 2 := [1]]) == [2, 1]
  {
    var adj := map[1 := [2], 2 := [1]];
    var none: set<int> := {};
    var two: set<int> := {2};
    var both: set<int> := {1, 2};
    assert adj.Keys == both && adj[1] == [2] && adj[2] == [1];
    // dfs_visit(2) from inside dfs_visit(1): its successor 1 is grey already.
    assert two - {2} == none;
    ChildrenUnfold(adj, two - {2}, adj[2], 0);
    var c2 := DfsChildren(adj, two - {2}, adj[2], 0);
    assert c2.0 == none && c2.1 == [];
    FromUnfold(adj, two, 2);
    var v2 := DfsFrom(adj, two, 2);
    assert v2.0 == none && v2.1 == [2];
    // dfs_visit(1): its successor 2 is white.
    assert both - {1} == two;
    ChildrenUnfold(adj, both - {1}, adj[1], 0);
    var c1 := DfsChildren(adj, both - {1}, adj[1], 0);
    assert c1.0 == none && c1.1 == [2];
    FromUnfold(adj, both, 1);
    var v1 := DfsFrom(adj, both, 1);
    assert v1.0 == none && v1.1 == [2, 1];
    assert v1 == (none, [2, 1]);
    RootsOneTwo(adj, [2, 1]);
  }

  /** Two nodes with no edge are output in ascending id order. */
  lemma DepthFirstIsolated()
    ensures DepthFirst(map[1 := [], 2 := []]) == [1, 2]
  {
    var adj := map[1 := [], 2 := []];
    var none: set<int> := {};
    var two: set<int> := {2};
    var both: set<int> := {1, 2};
    assert adj.Keys == both && adj[1] == [] && adj[2] == [];
    assert both - {1} == two && two - {2} == none;
    FromUnfold(adj, both, 1);
    var c1 := DfsChildren(adj, both - {1}, adj[1], 0);
    assert c1.0 == two && c1.1 == [];
    var v1 := DfsFrom(adj, both, 1);
    assert v1.0 == two && v1.1 == [1];
    FromUnfold(adj, two, 2);
    var c2 := DfsChildren(adj, two - {2}, adj[2], 0);
    assert c2.0 == none && c2.1 == [];
    var v2 := DfsFrom(adj, two, 2);
    assert v2.0 == none && v2.1 == [2];
    SortedOneTwo();
    var ks := SortedSet(both);
    assert ks[0] == 1 && ks[1..] == [2] && ks[1..][0] == 2 && ks[1..][1..] == [];
    RootsUnfold(adj, both, ks);
    RootsUnfold(adj, two, ks[1..]);
    var rest := DfsRoots(adj, none, ks[1..][1..]);
    assert rest.0 == none && rest.1 == [];
  }

  /**
    Depth-first post-order: for an edge x -> y out of a listed node x, either
    y was listed before x or y reaches x (x and y lie on a common cycle).
  */
  ghost predicate PostOrdered(adj: Adj, dfs: seq<int>)
  {
    forall i, y :: 0 <= i < |dfs| && dfs[i] in adj && y in adj[dfs[i]] ==> y in dfs[..i] || Reaches(adj, y, dfs[i])
  }

  /** The output of getDFS so far: each node once, exactly the black ones, in post-order. */
  ghost predicate Visited(adj: Adj, index: map<int, int>, c: seq<Color>, dfs: seq<int>)
    requires IsIndex(adj, index, |c|)
  {
    NoDuplicates(dfs) &&
    (forall x :: x in dfs ==> x in adj) &&
    (forall x :: x in adj ==> (c[index[x]] == Black <==> x in dfs)) &&
    PostOrdered(adj, dfs)
  }

  /** The white nodes: what dfs_visit may still recurse into. */
  ghost function Whites(adj: Adj, index: map<int, int>, c: seq<Color>): (w: set<int>)
    requires IsIndex(adj, index, |c|)
    ensures w <= adj.Keys
    ensures forall x :: x in adj ==> (x in w <==> c[index[x]] == White)
  {
    set x | x in adj && c[index[x]] == White
  }

  /** Colouring a node grey or black takes it out of the white set and changes nothing else. */
  lemma WhitesRecolor(adj: Adj, index: map<int, int>, c: seq<Color>, u: int, col: Color)
    requires IsIndex(adj, index, |c|) && u in adj && col != White
    ensures Whites(adj, index, c[index[u] := col]) == Whites(adj, index, c) - {u}
  {
    var c' := c[index[u] := col];
    forall x | x in adj && x != u
      ensures c'[index[x]] == c[index[x]]
    {
    }
  }

  /** Colours that only leave white leave no new white node. */
  lemma WhitesSubset(adj: Adj, index: map<int, int>, c0: seq<Color>, c: seq<Color>)
    requires IsIndex(adj, index, |c0|) && |c| == |c0|
    requires forall x :: x in adj && c0[index[x]] != White ==> c[index[x]] == c0[index[x]]
    ensures Whites(adj, index, c) <= Whites(adj, index, c0)
  {
    forall x | x in Whites(adj, index, c)
      ensures x in Whites(adj, index, c0)
    {
    }
  }

  lemma WhitesShrink(adj: Adj, index: map<int, int>, c0: seq<Color>, c: seq<Color>, u: int)
    requires IsIndex(adj, index, |c0|) && |c| == |c0| && u in adj && c0[index[u]] == White
    requires c[index[u]] != White
    requires forall x :: x in adj && c0[index[x]] != White ==> c[index[x]] == c0[index[x]]
    ensures Whites(adj, index, c) < Whites(adj, index, c0)
  {
    WhitesSubset(adj, index, c0, c);
    assert u in Whites(adj, index, c0) && u !in Whites(adj, index, c);
  }

  /** A node whose successors were all listed before it, or reach it, keeps the list in post-order. */
  lemma PostOrderedSnoc(adj: Adj, dfs: seq<int>, u: int)
    requires PostOrdered(adj, dfs) && u in adj
    requires forall y :: y in adj[u] ==> y in dfs || Reaches(adj, y, u)
    ensures PostOrdered(adj, dfs + [u])
  {
    var r := dfs + [u];
    forall i, y | 0 <= i < |r| && r[i] in adj && y in adj[r[i]]
      ensures y in r[..i] || Reaches(adj, y, r[i])
    {
      if i < |dfs| {
        assert r[..i] == dfs[..i];
      } else {
        assert r[..i] == dfs;
      }
    }
  }

  /** From colours `c0` to `c`: the same nodes are grey, and a node that was not white keeps its colour. */
  ghost predicate Kept(adj: Adj, index: map<int, int>, c0: seq<Color>, c: seq<Color>)
    requires IsIndex(adj, index, |c0|) && |c| == |c0|
  {
    (forall x :: x in adj ==> (c[index[x]] == Grey <==> c0[index[x]] == Grey)) &&
    (forall x :: x in adj && c0[index[x]] != White ==> c[index[x]] == c0[index[x]])
  }

  lemma KeptTrans(adj: Adj, index: map<int, int>, c0: seq<Color>, c1: seq<Color>, c2: seq<Color>)
    requires IsIndex(adj, index, |c0|) && |c1| == |c0| && |c2| == |c0|
    requires Kept(adj, index, c0, c1) && Kept(adj, index, c1, c2)
    ensures Kept(adj, index, c0, c2)
  {
  }

  /**
    dfs_visit(u): u turns grey, each successor still white is visited in
    list order, then u turns black and is output. Every grey node is an
    ancestor of the call, so it reaches u.
  */
  method DfsVisit(adj: Adj, index: map<int, int>, color: array<Color>, dfs: seq<int>, u: int) returns (r: seq<int>)
    requires Closed(adj) && IsIndex(adj, index, color.Length) && u in adj
    requires color[index[u]] == White && Visited(adj, index, color[..], dfs)
    requires forall g :: g in adj && color[index[g]] == Grey ==> Reaches(adj, g, u)
    modifies color
    ensures Visited(adj, index, color[..], r)
    ensures |dfs| < |r| && r[..|dfs|] == dfs && u in r
    ensures Kept(adj, index, old(color[..]), color[..])
    ensures r == dfs + DfsFrom(adj, Whites(adj, index, old(color[..])), u).1
    ensures Whites(adj, index, color[..]) == DfsFrom(adj, Whites(adj, index, old(color[..])), u).0
    decreases Whites(adj, index, color[..]), 0
  {
    ghost var c0 := color[..];
    color[index[u]] := Grey;
    ghost var cg := color[..];
    Greyed(adj, index, c0, cg, u);
    WhitesRecolor(adj, index, c0, u, Grey);
    r := VisitChildren(adj, index, color, dfs, u);
    ghost var c1 := color[..];
    color[index[u]] := Black;
    Finish(adj, index, c0, cg, c1, color[..], dfs, r, u);
    WhitesRecolor(adj, index, c1, u, Black);
    FinishRef(adj, Whites(adj, index, c0), Whites(adj, index, c1), u, dfs, r);
    r := r + [u];
  }

  /** dfs_visit(u) outputs what the visit of its children output, then u. */
  lemma FinishRef(adj: Adj, w0: set<int>, w1: set<int>, u: int, dfs: seq<int>, r: seq<int>)
    requires w0 <= adj.Keys && u in w0
    requires w1 == DfsChildren(adj, w0 - {u}, adj[u], 0).0
    requires r == dfs + DfsChildren(adj, w0 - {u}, adj[u], 0).1
    ensures r + [u] == dfs + DfsFrom(adj, w0, u).1
    ensures w1 - {u} == DfsFrom(adj, w0, u).0
  {
    var o := DfsChildren(adj, w0 - {u}, adj[u], 0).1;
    ConcatAssoc(dfs, o, [u]);
  }

  /** The start of dfs_visit(u): greying a white u leaves fewer white nodes, and every grey node reaches u. */
  lemma Greyed(adj: Adj, index: map<int, int>, c0: seq<Color>, cg: seq<Color>, u: int)
    requires IsIndex(adj, index, |c0|) && u in adj && c0[index[u]] == White
    requires forall g :: g in adj && c0[index[g]] == Grey ==> Reaches(adj, g, u)
    requires cg == c0[index[u] := Grey]
    ensures Whites(adj, index, cg) < Whites(adj, index, c0)
    ensures forall g :: g in adj && cg[index[g]] == Grey ==> Reaches(adj, g, u)
  {
    WhitesShrink(adj, index, c0, cg, u);
    forall g | g in adj && cg[index[g]] == Grey
      ensures Reaches(adj, g, u)
    {
      if g == u {
        ReachesSelf(adj, u);
      }
    }
  }

  /** The end of dfs_visit(u): u, grey until now, turns black and is output after its descendants. */
  lemma Finish(adj: Adj, index: map<int, int>, c0: seq<Color>, cg: seq<Color>, c1: seq<Color>, c2: seq<Color>,
               dfs: seq<int>, r: seq<int>, u: int)
    requires IsIndex(adj, index, |c0|) && u in adj && c0[index[u]] == White
    requires forall g :: g in adj && c0[index[g]] == Grey ==> Reaches(adj, g, u)
    requires cg == c0[index[u] := Grey] && |c1| == |c0|
    requires Visited(adj, index, c1, r) && |dfs| <= |r| && r[..|dfs|] == dfs
    requires Kept(adj, index, cg, c1)
    requires forall y :: y in adj[u] ==> y in adj && c1[index[y]] != White
    requires c2 == c1[index[u] := Black]
    ensures Visited(adj, index, c2, r + [u])
    ensures |dfs| < |r + [u]| && (r + [u])[..|dfs|] == dfs && u in r + [u]
    ensures Kept(adj, index, c0, c2)
  {
    forall y | y in adj[u]
      ensures y in r || Reaches(adj, y, u)
    {
      if y == u {
        ReachesSelf(adj, u);
      }
    }
    PostOrderedSnoc(adj, r, u);
    assert (r + [u])[..|dfs|] == r[..|dfs|];
    forall x | x in adj && x != u
      ensures c2[index[x]] == c1[index[x]] && cg[index[x]] == c0[index[x]]
    {
    }
  }

  /**
    The loop of dfs_visit(u), u being grey: each successor that is still
    white is visited, in list order.
  */
  method VisitChildren(adj: Adj, index: map<int, int>, color: array<Color>, dfs: seq<int>, u: int) returns (r: seq<int>)
    requires Closed(adj) && IsIndex(adj, index, color.Length) && u in adj
    requires Visited(adj, index, color[..], dfs)
    requires forall g :: g in adj && color[index[g]] == Grey ==> Reaches(adj, g, u)
    modifies color
    ensures Visited(adj, index, color[..], r)
    ensures |dfs| <= |r| && r[..|dfs|] == dfs
    ensures Kept(adj, index, old(color[..]), color[..])
    ensures forall y :: y in adj[u] ==> y in adj && color[index[y]] != White
    ensures r == dfs + DfsChildren(adj, Whites(adj, index, old(color[..])), adj[u], 0).1
    ensures Whites(adj, index, color[..]) == DfsChildren(adj, Whites(adj, index, old(color[..])), adj[u], 0).0
    decreases Whites(adj, index, color[..]), 2
  {
    ghost var c0 := color[..];
    r := dfs;
    ghost var out: seq<int> := [];
    var j := 0;
    ChildLoopStart(adj, index, c0, dfs, u);
    while j < |adj[u]|
      invariant |color[..]| == |c0| && ChildLoop(adj, index, c0, color[..], dfs, u, j, r, out)
      decreases |adj[u]| - j
    {
      WhitesSubset(adj, index, c0, color[..]);
      r, out := VisitChild(adj, index, color, dfs, u, j, r, c0, out);
      j := j + 1;
    }
    ChildLoopDone(adj, index, c0, color[..], dfs, u, r, out);
  }

  /** The state of dfs_visit's loop after `j` successors of u, from colours `c0` at its start. */
  ghost predicate ChildLoop(adj: Adj, index: map<int, int>, c0: seq<Color>, c: seq<Color>, dfs: seq<int>, u: int,
                            j: nat, r: seq<int>, out: seq<int>)
    requires IsIndex(adj, index, |c0|) && |c| == |c0| && u in adj
  {
    j <= |adj[u]| && Visited(adj, index, c, r) &&
    |dfs| <= |r| && r[..|dfs|] == dfs && r == dfs + out &&
    Kept(adj, index, c0, c) &&
    (forall x :: x in adj[u][..j] && x in adj ==> c[index[x]] != White) &&
    Children(adj, Whites(adj, index, c0), adj[u], j, Whites(adj, index, c), out)
  }

  lemma ChildLoopStart(adj: Adj, index: map<int, int>, c0: seq<Color>, dfs: seq<int>, u: int)
    requires IsIndex(adj, index, |c0|) && u in adj && Visited(adj, index, c0, dfs)
    ensures ChildLoop(adj, index, c0, c0, dfs, u, 0, dfs, [])
  {
    assert dfs + [] == dfs;
  }

  lemma ChildLoopDone(adj: Adj, index: map<int, int>, c0: seq<Color>, c: seq<Color>, dfs: seq<int>, u: int,
                      r: seq<int>, out: seq<int>)
    requires IsIndex(adj, index, |c0|) && |c| == |c0| && u in adj
    requires ChildLoop(adj, index, c0, c, dfs, u, |adj[u]|, r, out)
    ensures forall y :: y in adj[u] ==> y in adj ==> c[index[y]] != White
    ensures r == dfs + DfsChildren(adj, Whites(adj, index, c0), adj[u], 0).1
    ensures Whites(adj, index, c) == DfsChildren(adj, Whites(adj, index, c0), adj[u], 0).0
  {
    assert adj[u][..|adj[u]|] == adj[u];
    assert out + [] == out;
  }

  /** One round of dfs_visit's loop: the `j`-th successor is visited when it is still white. */
  method VisitChild(adj: Adj, index: map<int, int>, color: array<Color>, dfs: seq<int>, u: int, j: nat,
                    r: seq<int>, ghost c0: seq<Color>, ghost out: seq<int>) returns (r': seq<int>, ghost out': seq<int>)
    requires Closed(adj) && IsIndex(adj, index, color.Length) && u in adj && |c0| == color.Length
    requires forall g :: g in adj && c0[index[g]] == Grey ==> Reaches(adj, g, u)
    requires ChildLoop(adj, index, c0, color[..], dfs, u, j, r, out) && j < |adj[u]|
    modifies color
    ensures ChildLoop(adj, index, c0, color[..], dfs, u, j + 1, r', out')
    decreases Whites(adj, index, color[..]), 1
  {
    var succ := adj[u];
    var v := succ[j];
    PrefixSnoc(succ, j);
    ghost var cv := color[..];
    if color[index[v]] == White {
      forall g | g in adj && cv[index[g]] == Grey
        ensures Reaches(adj, g, v)
      {
        ReachesStep(adj, g, u, v);
      }
      r' := DfsVisit(adj, index, color, r, v);
      KeptTrans(adj, index, c0, cv, color[..]);
      assert r'[..|dfs|] == r'[..|r|][..|dfs|];
      ChildrenStep(adj, Whites(adj, index, c0), succ, j, Whites(adj, index, cv), out, Whites(adj, index, color[..]), r, r', dfs);
      out' := out + DfsFrom(adj, Whites(adj, index, cv), v).1;
    } else {
      r', out' := r, out;
      ChildrenStep(adj, Whites(adj, index, c0), succ, j, Whites(adj, index, cv), out, Whites(adj, index, cv), r, r, dfs);
    }
  }

  /**
    The loop of dfs_visit after `j` successors: from the white set `w` it
    still does what the reference does from the `j`-th successor on, and
    `out` is what it output so far.
  */
  ghost predicate Children(adj: Adj, w0: set<int>, succ: seq<int>, j: nat, w: set<int>, out: seq<int>)
  {
    w0 <= adj.Keys && w <= adj.Keys && j <= |succ| &&
    DfsChildren(adj, w0, succ, 0).0 == DfsChildren(adj, w, succ, j).0 &&
    DfsChildren(adj, w0, succ, 0).1 == out + DfsChildren(adj, w, succ, j).1
  }

  /** One more successor: visited when still white, skipped otherwise. */
  lemma ChildrenStep(adj: Adj, w0: set<int>, succ: seq<int>, j: nat, w: set<int>, out: seq<int>,
                     w': set<int>, r: seq<int>, r': seq<int>, dfs: seq<int>)
    requires Children(adj, w0, succ, j, w, out) && j < |succ| && r == dfs + out
    requires succ[j] in w ==> w' == DfsFrom(adj, w, succ[j]).0 && r' == r + DfsFrom(adj, w, succ[j]).1
    requires succ[j] !in w ==> w' == w && r' == r
    ensures succ[j] in w ==> Children(adj, w0, succ, j + 1, w', out + DfsFrom(adj, w, succ[j]).1)
    ensures succ[j] in w ==> r' == dfs + (out + DfsFrom(adj, w, succ[j]).1)
    ensures succ[j] !in w ==> Children(adj, w0, succ, j + 1, w', out)
  {
    if succ[j] in w {
      var o1 := DfsFrom(adj, w, succ[j]).1;
      ConcatAssoc(out, o1, DfsChildren(adj, w', succ, j + 1).1);
      ConcatAssoc(dfs, out, o1);
    }
  }

  /** The set-up of getDFS: the nodes numbered and coloured white. */
  method StartDepthFirst(adj: Adj) returns (index: map<int, int>, color: array<Color>)
    ensures fresh(color) && color.Length == |adj| && IsIndex(adj, index, color.Length)
    ensures forall i :: 0 <= i < color.Length ==> color[i] == White
  {
    color := NewColors(|adj|);
    index := IndexKeys(adj);
    PlacesIndex(adj, index);
  }

  /** getDFS's loop starts before the least key, with nothing output. */
  lemma RootingStart(adj: Adj, index: map<int, int>, c: seq<Color>)
    requires IsIndex(adj, index, |c|) && forall i :: 0 <= i < |c| ==> c[i] == White
    ensures Rooting(adj, index, c, [], [], adj.Keys)
  {
    VisitingStart(adj);
    AllWhite(adj, index, c);
    RootsLeftStart(adj);
  }

  /** Before any visit every node is white. */
  lemma AllWhite(adj: Adj, index: map<int, int>, c: seq<Color>)
    requires IsIndex(adj, index, |c|) && forall i :: 0 <= i < |c| ==> c[i] == White
    ensures Whites(adj, index, c) == adj.Keys
  {
    forall x | x in adj ensures x in Whites(adj, index, c) {
      assert c[index[x]] == White;
    }
  }

  lemma RootsLeftStart(adj: Adj)
    ensures RootsLeft(adj, adj.Keys, [], adj.Keys)
  {
    var p := DfsRoots(adj, adj.Keys, SortedSet(adj.Keys));
    assert [] + p.1 == p.1;
  }


  /**
    The state of getDFS's loop over the keys in ascending order: `done`
    behind, `rest` ahead, no node grey, and every key behind already output.
  */
  ghost predicate Rooting(adj: Adj, index: map<int, int>, c: seq<Color>, dfs: seq<int>, done: seq<int>, rest: set<int>)
    requires IsIndex(adj, index, |c|)
  {
    Visiting(adj, done, rest) && Visited(adj, index, c, dfs) &&
    (forall x :: x in adj ==> c[index[x]] != Grey) &&
    (forall j :: 0 <= j < |done| ==> done[j] in dfs) &&
    RootsLeft(adj, Whites(adj, index, c), dfs, rest)
  }

  /**
    The reference search over all keys in ascending order gives `dfs`
    followed by what it gives over the keys `rest` from the white set `w`.
  */
  ghost predicate RootsLeft(adj: Adj, w: set<int>, dfs: seq<int>, rest: set<int>)
  {
    w <= adj.Keys &&
    DfsRoots(adj, adj.Keys, SortedSet(adj.Keys)).0 == DfsRoots(adj, w, SortedSet(rest)).0 &&
    DfsRoots(adj, adj.Keys, SortedSet(adj.Keys)).1 == dfs + DfsRoots(adj, w, SortedSet(rest)).1
  }

  /** The next key, the least of `rest`, is visited by the reference exactly when it is still white. */
  lemma RootsStep(adj: Adj, w: set<int>, dfs: seq<int>, rest: set<int>, w': set<int>, r: seq<int>)
    requires RootsLeft(adj, w, dfs, rest) && rest != {}
    requires SetMin(rest) in w ==> w' == DfsFrom(adj, w, SetMin(rest)).0 && r == dfs + DfsFrom(adj, w, SetMin(rest)).1
    requires SetMin(rest) !in w ==> w' == w && r == dfs
    ensures RootsLeft(adj, w', r, rest - {SetMin(rest)})
  {
    var k := SetMin(rest);
    var ks := SortedSet(rest);
    var ks' := SortedSet(rest - {k});
    assert ks[1..] == ks' && ks[0] == k by {
      SortedSetFirst(rest);
    }
    RootsUnfold(adj, w, ks);
    if k in w {
      var p1 := DfsFrom(adj, w, k);
      ConcatAssoc(dfs, p1.1, DfsRoots(adj, p1.0, ks').1);
    }
  }

  /** The end of getDFS: every node output once, in post-order, and exactly the reference search. */
  lemma RootingDone(adj: Adj, index: map<int, int>, c: seq<Color>, dfs: seq<int>, done: seq<int>)
    requires IsIndex(adj, index, |c|) && Rooting(adj, index, c, dfs, done, {})
    ensures NoDuplicates(dfs) && (forall x :: x in dfs <==> x in adj) && PostOrdered(adj, dfs)
    ensures dfs == DepthFirst(adj)
  {
    VisitingDone(adj, done);
    assert SortedSet({}) == [];
    assert dfs + [] == dfs;
  }

  /** One round of getDFS's loop: dfs_visit(k) when the next key k is still white. */
  method VisitRoot(adj: Adj, index: map<int, int>, color: array<Color>, dfs: seq<int>, k: int,
                   ghost done: seq<int>, ghost rest: set<int>) returns (r: seq<int>)
    requires Closed(adj) && IsIndex(adj, index, color.Length)
    requires Rooting(adj, index, color[..], dfs, done, rest) && rest != {} && k == SetMin(rest)
    modifies color
    ensures Rooting(adj, index, color[..], r, done + [k], rest - {k})
  {
    ghost var c0 := color[..];
    if color[index[k]] == White {
      r := DfsVisit(adj, index, color, dfs, k);
      assert forall x :: x in dfs ==> x in r[..|dfs|];
    } else {
      r := dfs;
    }
    RootsStep(adj, Whites(adj, index, c0), dfs, rest, Whites(adj, index, color[..]), r);
    RootingStep(adj, index, c0, color[..], dfs, r, done, rest);
  }

  lemma RootingStep(adj: Adj, index: map<int, int>, c0: seq<Color>, c: seq<Color>, dfs: seq<int>, r: seq<int>,
                    done: seq<int>, rest: set<int>)
    requires IsIndex(adj, index, |c0|) && |c| == |c0|
    requires Rooting(adj, index, c0, dfs, done, rest) && rest != {}
    requires Visited(adj, index, c, r) && Kept(adj, index, c0, c)
    requires (forall x :: x in dfs ==> x in r) && SetMin(rest) in r
    requires RootsLeft(adj, Whites(adj, index, c), r, rest - {SetMin(rest)})
    ensures Rooting(adj, index, c, r, done + [SetMin(rest)], rest - {SetMin(rest)})
  {
    VisitingStep(adj, done, rest);
    var k := SetMin(rest);
    forall j | 0 <= j < |done + [k]|
      ensures (done + [k])[j] in r
    {
      if j < |done| {
        assert (done + [k])[j] == done[j] && done[j] in dfs;
      }
    }
  }
}
