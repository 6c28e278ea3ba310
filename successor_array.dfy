/**
  The successor-array format of Graf.java: per node, in ascending id order, its
  successor ids followed by one 0. `Run` is what the Graf(int...) constructor
  loop computes (a fold over the values it reads), `Encode` what
  toSuccessorArray produces, and `MirrorRun` the extra pass of the
  UndirectedGraf(int...) constructor.
*/
module SuccessorArray {
  import opened Seqs
  import opened Adjacency

  /** The constructor's state: the current node `from`, the adjacency and the (from, to) pairs of the edge list. */
  datatype Decoding = Decoding(from: int, adj: Adj, pairs: seq<(int, int)>)

  /** `from = 1; addNode(from)` on an empty graph. */
  function Start(): (d: Decoding)
    ensures d.from in d.adj
  {
    Decoding(1, map[1 := []], [])
  }

  /**
    One value: a nonzero `x` always appends an edge from -> x and adds `x` to
    the successors of `from` when it is not there; a 0 opens node `from + 1`.
  */
  function Step(d: Decoding, x: int): (r: Decoding)
    requires d.from in d.adj
    ensures r.from in r.adj
  {
    if x != 0 then
      var succ := d.adj[d.from];
      Decoding(d.from, d.adj[d.from := if x in succ then succ else succ + [x]], d.pairs + [(d.from, x)])
    else
      Decoding(d.from + 1, d.adj[d.from + 1 := []], d.pairs)
  }

  /** The loop from state `d` over the values `s`. */
  function Steps(d: Decoding, s: seq<int>): (r: Decoding)
    requires d.from in d.adj
    ensures r.from in r.adj
  {
    if s == [] then d else Step(Steps(d, s[..|s| - 1]), s[|s| - 1])
  }

  /** The loop from the start over the values `s`. */
  function Run(s: seq<int>): (d: Decoding)
    ensures d.from in d.adj
  {
    Steps(Start(), s)
  }

  /** One more value read is one more step. */
  lemma RunSnoc(s: seq<int>, x: int)
    ensures Run(s + [x]) == Step(Run(s), x)
  {
    assert (s + [x])[..|s|] == s;
  }

  /** The values the constructor reads: its loop stops before the last one. */
  function Body(sa: seq<int>): seq<int>
  {
    if sa == [] then [] else sa[..|sa| - 1]
  }

  /** Graf(int... sa). */
  function Decode(sa: seq<int>): Decoding
  {
    Run(Body(sa))
  }

  function Zeros(s: seq<int>): nat
  {
    multiset(s)[0]
  }

  /** The node a position of the input belongs to: one more than the zeros before it. */
  function BlockOf(s: seq<int>, i: nat): int
    requires i <= |s|
  {
    1 + Zeros(s[..i])
  }

  /** The nodes are exactly 1..k+1 for the k zeros read; successor values never create nodes. */
  lemma {:induction false} RunNodes(s: seq<int>)
    ensures Run(s).from == 1 + Zeros(s)
    ensures forall j :: j in Run(s).adj <==> 1 <= j <= 1 + Zeros(s)
  {
    if s != [] {
      var init := s[..|s| - 1];
      RunNodes(init);
      assert s == init + [s[|s| - 1]];
    }
  }

  /**
    Successor lists hold no 0 and no duplicate, and `v` follows `j` exactly
    when the edge list has a pair (j, v); every pair starts at an opened node.
  */
  lemma {:induction false} RunLists(s: seq<int>)
    ensures forall j :: j in Run(s).adj ==> NoDuplicates(Run(s).adj[j]) && 0 !in Run(s).adj[j]
    ensures forall j, v :: j in Run(s).adj ==> (v in Run(s).adj[j] <==> (j, v) in Run(s).pairs)
    ensures forall k :: 0 <= k < |Run(s).pairs| ==>
              Run(s).pairs[k].0 in Run(s).adj && Run(s).pairs[k].0 <= Run(s).from && Run(s).pairs[k].1 != 0
  {
    if s != [] {
      var init := s[..|s| - 1];
      var x := s[|s| - 1];
      RunLists(init);
      var d := Run(init);
      if x == 0 {
        assert d.from + 1 !in d.adj by {
          RunNodes(init);
        }
      } else {
        var succ := d.adj[d.from];
        forall j, v | j in Run(s).adj
          ensures v in Run(s).adj[j] <==> (j, v) in Run(s).pairs
        {
          assert (j, v) in Run(s).pairs <==> (j, v) in d.pairs || (j, v) == (d.from, x);
        }
        forall k | 0 <= k < |Run(s).pairs|
          ensures Run(s).pairs[k].0 in Run(s).adj && Run(s).pairs[k].0 <= Run(s).from && Run(s).pairs[k].1 != 0
        {
          if k < |d.pairs| {
            assert Run(s).pairs[k] == d.pairs[k];
          }
        }
      }
    }
  }

  /**
    One edge per nonzero value read, duplicates kept: the pair (j, v) is in the
    edge list exactly when some value v != 0 was read inside block j.
  */
  lemma {:induction false} RunPairs(s: seq<int>)
    ensures |Run(s).pairs| == |s| - Zeros(s)
    ensures forall j, v :: (j, v) in Run(s).pairs <==>
              exists i :: 0 <= i < |s| && s[i] == v && v != 0 && j == BlockOf(s, i)
  {
    if s != [] {
      var init := s[..|s| - 1];
      var x := s[|s| - 1];
      RunPairs(init);
      assert s == init + [x];
      forall j, v
        ensures (j, v) in Run(s).pairs <==> exists i :: 0 <= i < |s| && s[i] == v && v != 0 && j == BlockOf(s, i)
      {
        if (j, v) in Run(s).pairs {
          PairWasRead(init, x, j, v);
        }
        if exists i :: 0 <= i < |s| && s[i] == v && v != 0 && j == BlockOf(s, i) {
          var i :| 0 <= i < |s| && s[i] == v && v != 0 && j == BlockOf(s, i);
          ReadIsPair(init, x, j, v, i);
        }
      }
    }
  }

  /** A pair of the edge list after one more value was read inside its block. */
  lemma PairWasRead(init: seq<int>, x: int, j: int, v: int)
    requires forall j, v :: (j, v) in Run(init).pairs <==>
               exists i :: 0 <= i < |init| && init[i] == v && v != 0 && j == BlockOf(init, i)
    requires (j, v) in Run(init + [x]).pairs
    ensures exists i :: 0 <= i < |init + [x]| && (init + [x])[i] == v && v != 0 && j == BlockOf(init + [x], i)
  {
    var s := init + [x];
    var d := Run(init);
    RunSnoc(init, x);
    RunNodes(init);
    if (j, v) in d.pairs {
      var i :| 0 <= i < |init| && init[i] == v && v != 0 && j == BlockOf(init, i);
      assert s[..i] == init[..i];
      assert s[i] == v && j == BlockOf(s, i);
    } else {
      assert x != 0 && (j, v) == (d.from, x);
      assert s[..|s| - 1] == init;
      assert s[|s| - 1] == v && j == BlockOf(s, |s| - 1);
    }
  }

  /** A nonzero value read inside block j, after one more value was read, is a pair of the edge list. */
  lemma ReadIsPair(init: seq<int>, x: int, j: int, v: int, i: int)
    requires forall j, v :: (j, v) in Run(init).pairs <==>
               exists i :: 0 <= i < |init| && init[i] == v && v != 0 && j == BlockOf(init, i)
    requires 0 <= i < |init + [x]| && (init + [x])[i] == v && v != 0 && j == BlockOf(init + [x], i)
    ensures (j, v) in Run(init + [x]).pairs
  {
    var s := init + [x];
    RunSnoc(init, x);
    RunNodes(init);
    if i < |init| {
      assert s[..i] == init[..i];
      assert init[i] == v && j == BlockOf(init, i);
    } else {
      assert s[..i] == init;
    }
  }

  /** The blocks of the nodes `ks`: each one's list, then 0. */
  function Blocks(lists: Adj, ks: seq<int>): seq<int>
    requires forall i :: 0 <= i < |ks| ==> ks[i] in lists
  {
    if ks == [] then [] else Blocks(lists, ks[..|ks| - 1]) + lists[ks[|ks| - 1]] + [0]
  }

  /** The blocks of one more node. */
  lemma BlocksSnoc(lists: Adj, ks: seq<int>, k: int)
    requires forall j :: 0 <= j < |ks| ==> ks[j] in lists
    requires k in lists
    ensures Blocks(lists, ks + [k]) == Blocks(lists, ks) + lists[k] + [0]
  {
    assert (ks + [k])[..|ks|] == ks;
  }

  /** The successor lists of a graph after Collections.sort on each. */
  function SortedLists(adj: Adj): (r: Adj)
    ensures r.Keys == adj.Keys
  {
    map k | k in adj :: Sort(adj[k])
  }

  /** toSuccessorArray: per node in ascending id order, its successors sorted, then 0. */
  function Encode(adj: Adj): seq<int>
  {
    Blocks(SortedLists(adj), SortedSet(adj.Keys))
  }

  /**
    One value per node and per list entry; the result ends in 0 when it is not
    empty, and has one 0 per node when no list holds a 0.
  */
  lemma {:induction false} BlocksShape(lists: Adj, ks: seq<int>)
    requires forall i :: 0 <= i < |ks| ==> ks[i] in lists
    ensures |Blocks(lists, ks)| == |ks| + |Entries(lists, ks)|
    ensures ks != [] ==> Blocks(lists, ks)[|Blocks(lists, ks)| - 1] == 0
    ensures (forall i :: 0 <= i < |ks| ==> 0 !in lists[ks[i]]) ==> Zeros(Blocks(lists, ks)) == |ks|
  {
    if ks != [] {
      var init := ks[..|ks| - 1];
      var k := ks[|ks| - 1];
      BlocksShape(lists, init);
      if forall i :: 0 <= i < |ks| ==> 0 !in lists[ks[i]] {
        assert forall i :: 0 <= i < |init| ==> 0 !in lists[init[i]] by {
          forall i | 0 <= i < |init| ensures 0 !in lists[init[i]] {
            assert init[i] == ks[i];
          }
        }
        assert multiset(lists[k])[0] == 0;
      }
    }
  }

  /** Sorting every list keeps the number of entries. */
  lemma {:induction false} SortedEntriesLength(adj: Adj, ks: seq<int>)
    requires forall i :: 0 <= i < |ks| ==> ks[i] in adj
    ensures |Entries(SortedLists(adj), ks)| == |Entries(adj, ks)|
  {
    if ks != [] {
      SortedEntriesLength(adj, ks[..|ks| - 1]);
      SortSpec(adj[ks[|ks| - 1]]);
    }
  }

  /**
    toSuccessorArray: its length is the number of nodes plus the number of
    successor entries, it ends in 0 when not empty, and it has one 0 per node
    when no successor id is 0.
  */
  lemma EncodeShape(adj: Adj)
    ensures |Encode(adj)| == |adj| + |Entries(adj, SortedSet(adj.Keys))|
    ensures Encode(adj) != [] ==> Encode(adj)[|Encode(adj)| - 1] == 0
    ensures (forall k :: k in adj ==> 0 !in adj[k]) ==> Zeros(Encode(adj)) == |adj|
  {
    var ks := SortedSet(adj.Keys);
    var sl := SortedLists(adj);
    var sa := Blocks(sl, ks);
    assert Encode(adj) == sa;
    BlocksShape(sl, ks);
    assert |sa| == |adj| + |Entries(adj, ks)| by {
      SortedEntriesLength(adj, ks);
    }
    if forall k :: k in adj ==> 0 !in adj[k] {
      assert Zeros(sa) == |adj| by {
        SortedListsNoZero(adj, ks);
      }
    }
  }

  /** Sorting lists without 0 leaves them without 0. */
  lemma SortedListsNoZero(adj: Adj, ks: seq<int>)
    requires forall k :: k in adj ==> 0 !in adj[k]
    requires forall i :: 0 <= i < |ks| ==> ks[i] in adj
    ensures forall i :: 0 <= i < |ks| ==> 0 !in SortedLists(adj)[ks[i]]
  {
    forall i | 0 <= i < |ks| ensures 0 !in SortedLists(adj)[ks[i]] {
      var k := ks[i];
      assert k in adj;
      var l := adj[k];
      assert 0 !in l;
      SortSpec(l);
      assert multiset(l)[0] == 0;
    }
  }

  /** Node ids are exactly 1..n. */
  ghost predicate Dense(adj: Adj)
  {
    forall k :: k in adj <==> 1 <= k <= |adj|
  }

  /** The ascending key sequence of a dense graph is 1, 2, ..., n. */
  lemma DenseKeys(adj: Adj)
    requires Dense(adj)
    ensures forall i :: 0 <= i < |SortedSet(adj.Keys)| ==> SortedSet(adj.Keys)[i] == i + 1
    ensures forall k :: k in SortedLists(adj) <==> 1 <= k <= |SortedSet(adj.Keys)|
  {
    var ks := SortedSet(adj.Keys);
    assert |ks| == |adj|;
    forall i | 0 <= i < |ks| ensures 1 <= ks[i] <= |ks| {
      assert ks[i] in adj.Keys;
    }
    AscendingRange(ks);
  }

  lemma AscendingRange(ks: seq<int>)
    requires forall a, b :: 0 <= a < b < |ks| ==> ks[a] < ks[b]
    requires forall i :: 0 <= i < |ks| ==> 1 <= ks[i] <= |ks|
    ensures forall i :: 0 <= i < |ks| ==> ks[i] == i + 1
  {
    forall i | 0 <= i < |ks| ensures ks[i] == i + 1 {
      StrictlyAscendingGaps(ks, 0, i);
      StrictlyAscendingGaps(ks, i, |ks| - 1);
    }
  }

  lemma {:induction false} StrictlyAscendingGaps(ks: seq<int>, i: nat, j: nat)
    requires forall a, b :: 0 <= a < b < |ks| ==> ks[a] < ks[b]
    requires i <= j < |ks|
    ensures ks[j] - ks[i] >= j - i
    decreases j - i
  {
    if i < j {
      StrictlyAscendingGaps(ks, i + 1, j);
    }
  }

  lemma {:induction false} StepsConcat(d: Decoding, s: seq<int>, t: seq<int>)
    requires d.from in d.adj
    ensures Steps(d, s + t) == Steps(Steps(d, s), t)
  {
    if t == [] {
      assert s + t == s;
    } else {
      StepsConcat(d, s, t[..|t| - 1]);
      assert (s + t)[..|s + t| - 1] == s + t[..|t| - 1];
    }
  }

  /** Reading a duplicate-free list with no 0 in a block still empty sets it as that node's successor list. */
  lemma {:induction false} StepsList(d: Decoding, l: seq<int>)
    requires d.from in d.adj && d.adj[d.from] == []
    requires NoDuplicates(l) && 0 !in l
    ensures Steps(d, l) == Decoding(d.from, d.adj[d.from := l], d.pairs + Arcs(d.from, l))
  {
    if l == [] {
      assert d.adj[d.from := l] == d.adj;
    } else {
      var init := l[..|l| - 1];
      var x := l[|l| - 1];
      assert l == init + [x];
      assert NoDuplicates(init) && 0 !in init;
      StepsList(d, init);
      assert x !in init;
      assert d.adj[d.from := init][d.from := l] == d.adj[d.from := l];
      assert d.pairs + Arcs(d.from, init) + [(d.from, x)] == d.pairs + Arcs(d.from, l);
    }
  }

  /** Reading a block: its list, then the 0 that opens the next node. */
  lemma StepsBlock(d: Decoding, l: seq<int>)
    requires d.from in d.adj && d.adj[d.from] == []
    requires NoDuplicates(l) && 0 !in l
    ensures Steps(d, l + [0]) == Decoding(d.from + 1, d.adj[d.from := l][d.from + 1 := []], d.pairs + Arcs(d.from, l))
  {
    assert (l + [0])[..|l + [0]| - 1] == l;
    StepsList(d, l);
  }

  /** Lists that the decoder reproduces: no duplicate and no 0. */
  ghost predicate Decodable(lists: Adj)
  {
    forall k :: k in lists ==> NoDuplicates(lists[k]) && 0 !in lists[k]
  }

  /** After the blocks of nodes 1..m: nodes 1..m + 1 exist, 1..m hold their lists, m + 1 is still empty. */
  ghost predicate ReadUpTo(d: Decoding, lists: Adj, m: nat)
  {
    d.from == m + 1 &&
    (forall k :: k in d.adj <==> 1 <= k <= m + 1) &&
    (forall k :: 1 <= k <= m ==> k in lists && d.adj[k] == lists[k]) &&
    d.adj[m + 1] == []
  }

  lemma ReadNextBlock(d: Decoding, lists: Adj, m: nat)
    requires ReadUpTo(d, lists, m) && m + 1 in lists
    requires Decodable(lists)
    ensures ReadUpTo(Steps(d, lists[m + 1] + [0]), lists, m + 1)
    ensures Steps(d, lists[m + 1] + [0]).pairs == d.pairs + Arcs(m + 1, lists[m + 1])
  {
    var l := lists[m + 1];
    StepsBlock(d, l);
    var a := d.adj[m + 1 := l][m + 2 := []];
    forall k | 1 <= k <= m + 1 ensures a[k] == lists[k] {
      if k <= m {
        assert a[k] == d.adj[k];
      }
    }
  }

  /** Decoding the blocks of nodes 1..m gives those nodes with their lists, and node m + 1 open. */
  lemma {:induction false} RunBlocks(lists: Adj, ks: seq<int>)
    requires forall i :: 0 <= i < |ks| ==> ks[i] == i + 1
    requires forall k :: 1 <= k <= |ks| ==> k in lists
    requires Decodable(lists)
    ensures ReadUpTo(Run(Blocks(lists, ks)), lists, |ks|)
    ensures Run(Blocks(lists, ks)).pairs == Entries(lists, ks)
  {
    if ks != [] {
      var n := |ks|;
      var pre := ks[..n - 1];
      RunBlocks(lists, pre);
      var e, l := Blocks(lists, pre), lists[n];
      assert ks == pre + [n];
      BlocksSnoc(lists, pre, n);
      ConcatAssoc(e, l, [0]);
      StepsConcat(Start(), e, l + [0]);
      EntriesSnoc(lists, pre, n);
      ReadNextBlock(Run(e), lists, n - 1);
    }
  }

  /** Decoding all blocks of nodes 1..n but the final 0 gives back exactly those lists and one edge per entry. */
  lemma RoundTripLists(lists: Adj, ks: seq<int>)
    requires |ks| >= 1 && forall i :: 0 <= i < |ks| ==> ks[i] == i + 1
    requires forall k :: k in lists <==> 1 <= k <= |ks|
    requires Decodable(lists)
    ensures Run(Body(Blocks(lists, ks))).adj == lists
    ensures Run(Body(Blocks(lists, ks))).pairs == Entries(lists, ks)
  {
    var n := |ks|;
    var pre := ks[..n - 1];
    RunBlocks(lists, pre);
    var e, l := Blocks(lists, pre), lists[n];
    assert ks == pre + [n];
    BlocksSnoc(lists, pre, n);
    assert Body(Blocks(lists, ks)) == e + l;
    StepsConcat(Start(), e, l);
    ReadLastList(Run(e), lists, n);
    EntriesSnoc(lists, pre, n);
  }

  /** Reading the list of the last node n, the decoder holds exactly `lists`. */
  lemma ReadLastList(d: Decoding, lists: Adj, n: nat)
    requires n >= 1 && ReadUpTo(d, lists, n - 1)
    requires forall k :: k in lists <==> 1 <= k <= n
    requires Decodable(lists)
    ensures Steps(d, lists[n]).adj == lists
    ensures Steps(d, lists[n]).pairs == d.pairs + Arcs(n, lists[n])
  {
    StepsList(d, lists[n]);
    var a := Steps(d, lists[n]).adj;
    forall k ensures k in a <==> k in lists {
    }
    forall k | k in lists ensures a[k] == lists[k] {
    }
  }

  /**
    Round trip: for a graph whose ids are exactly 1..n (n >= 1) and whose
    successor lists are duplicate-free and hold no 0, Graf(toSuccessorArray())
    has the same nodes with each successor list sorted, and one edge per
    successor entry.
  */
  lemma RoundTrip(adj: Adj)
    requires |adj| >= 1 && Dense(adj)
    requires Decodable(adj)
    ensures Decode(Encode(adj)).adj == SortedLists(adj)
    ensures Decode(Encode(adj)).pairs == Entries(SortedLists(adj), SortedSet(adj.Keys))
  {
    var lists, ks := SortedLists(adj), SortedSet(adj.Keys);
    assert |ks| >= 1 && (forall i :: 0 <= i < |ks| ==> ks[i] == i + 1) && (forall k :: k in lists <==> 1 <= k <= |ks|) by {
      DenseKeys(adj);
    }
    assert Decodable(lists) by {
      SortedListsDecodable(adj);
    }
    RoundTripLists(lists, ks);
  }

  lemma SortedListsDecodable(adj: Adj)
    requires Decodable(adj)
    ensures Decodable(SortedLists(adj))
  {
    var sl := SortedLists(adj);
    forall k | k in sl ensures NoDuplicates(sl[k]) && 0 !in sl[k] {
      SortKeepsLists(adj[k]);
    }
  }

  /** Sorting a duplicate-free list without 0 keeps it so. */
  lemma SortKeepsLists(l: seq<int>)
    requires NoDuplicates(l) && 0 !in l
    ensures NoDuplicates(Sort(l)) && 0 !in Sort(l)
  {
    SortSpec(l);
    NoDuplicatesCounts(l);
    NoDuplicatesCounts(Sort(l));
    assert multiset(l)[0] == 0;
  }

  // ------------------------------------------------ round trip on multigraphs

  /** Lists without 0: the one condition under which the blocks stay apart. */
  ghost predicate ZeroFree(lists: Adj)
  {
    forall k :: k in lists ==> 0 !in lists[k]
  }

  /** Two lists with the same values, counting neither order nor copies. */
  ghost predicate SameMembers(a: seq<int>, b: seq<int>)
  {
    forall y :: y in a <==> y in b
  }

  /**
    Reading a list without 0 adds its values to the successors of the current
    node, each once, and leaves the other nodes alone.
  */
  lemma {:induction false} StepsListMembers(d: Decoding, l: seq<int>)
    requires d.from in d.adj && 0 !in l
    ensures Steps(d, l).from == d.from && Steps(d, l).adj.Keys == d.adj.Keys
    ensures forall k :: k in d.adj && k != d.from ==> Steps(d, l).adj[k] == d.adj[k]
    ensures forall y :: y in Steps(d, l).adj[d.from] <==> y in d.adj[d.from] || y in l
  {
    if l != [] {
      var init := l[..|l| - 1];
      assert l == init + [l[|l| - 1]];
      StepsListMembers(d, init);
    }
  }

  /** After the blocks of nodes 1..m: nodes 1..m + 1 exist, 1..m hold the values of their lists, m + 1 is still empty. */
  ghost predicate HoldsUpTo(d: Decoding, lists: Adj, m: nat)
  {
    d.from == m + 1 &&
    (forall k :: k in d.adj <==> 1 <= k <= m + 1) &&
    (forall k :: 1 <= k <= m ==> k in lists && SameMembers(d.adj[k], lists[k])) &&
    d.adj[m + 1] == []
  }

  lemma HoldNextBlock(d: Decoding, lists: Adj, m: nat)
    requires HoldsUpTo(d, lists, m) && m + 1 in lists && ZeroFree(lists)
    ensures HoldsUpTo(Steps(d, lists[m + 1] + [0]), lists, m + 1)
  {
    var l := lists[m + 1];
    StepsConcat(d, l, [0]);
    StepsListMembers(d, l);
    assert Steps(Steps(d, l), [0]) == Step(Steps(d, l), 0);
  }

  /** Decoding the blocks of nodes 1..m gives those nodes with the values of their lists, and node m + 1 open. */
  lemma {:induction false} RunBlocksMembers(lists: Adj, ks: seq<int>)
    requires forall i :: 0 <= i < |ks| ==> ks[i] == i + 1
    requires forall k :: 1 <= k <= |ks| ==> k in lists
    requires ZeroFree(lists)
    ensures HoldsUpTo(Run(Blocks(lists, ks)), lists, |ks|)
  {
    if ks != [] {
      var n := |ks|;
      var pre := ks[..n - 1];
      RunBlocksMembers(lists, pre);
      var e, l := Blocks(lists, pre), lists[n];
      assert ks == pre + [n];
      BlocksSnoc(lists, pre, n);
      ConcatAssoc(e, l, [0]);
      StepsConcat(Start(), e, l + [0]);
      HoldNextBlock(Run(e), lists, n - 1);
    }
  }

  /** Decoding all blocks of nodes 1..n but the final 0 gives back those nodes with the values of their lists. */
  lemma RoundTripListsMembers(lists: Adj, ks: seq<int>)
    requires |ks| >= 1 && forall i :: 0 <= i < |ks| ==> ks[i] == i + 1
    requires forall k :: k in lists <==> 1 <= k <= |ks|
    requires ZeroFree(lists)
    ensures Run(Body(Blocks(lists, ks))).adj.Keys == lists.Keys
    ensures forall x :: x in lists ==> SameMembers(Run(Body(Blocks(lists, ks))).adj[x], lists[x])
  {
    var n := |ks|;
    var pre := ks[..n - 1];
    RunBlocksMembers(lists, pre);
    var e, l := Blocks(lists, pre), lists[n];
    assert ks == pre + [n];
    BlocksSnoc(lists, pre, n);
    assert Body(Blocks(lists, ks)) == e + l;
    StepsConcat(Start(), e, l);
    HoldLastList(Run(e), lists, n);
  }

  /** Reading the list of the last node n, the decoder holds the nodes of `lists` with the values of their lists. */
  lemma HoldLastList(d: Decoding, lists: Adj, n: nat)
    requires n >= 1 && HoldsUpTo(d, lists, n - 1)
    requires forall k :: k in lists <==> 1 <= k <= n
    requires ZeroFree(lists)
    ensures Steps(d, lists[n]).adj.Keys == lists.Keys
    ensures forall x :: x in lists ==> SameMembers(Steps(d, lists[n]).adj[x], lists[x])
  {
    StepsListMembers(d, lists[n]);
    var a := Steps(d, lists[n]).adj;
    forall k ensures k in a <==> k in lists {
    }
  }

  /**
    Round trip as sets: for a graph whose ids are exactly 1..n (n >= 1) and
    whose lists hold no 0, duplicates allowed, Graf(toSuccessorArray()) has
    the same nodes, and `y` follows `x` in it exactly when it did before.
  */
  lemma RoundTripMembers(adj: Adj)
    requires |adj| >= 1 && Dense(adj) && ZeroFree(adj)
    ensures Decode(Encode(adj)).adj.Keys == adj.Keys
    ensures forall x, y :: x in adj ==> (y in Decode(Encode(adj)).adj[x] <==> y in adj[x])
  {
    var lists, ks := SortedLists(adj), SortedSet(adj.Keys);
    assert |ks| >= 1 && (forall i :: 0 <= i < |ks| ==> ks[i] == i + 1) && (forall k :: k in lists <==> 1 <= k <= |ks|) by {
      DenseKeys(adj);
    }
    assert ZeroFree(lists) by {
      forall k | k in lists ensures 0 !in lists[k] {
        SortMember(adj[k], 0);
      }
    }
    RoundTripListsMembers(lists, ks);
    forall x, y | x in adj
      ensures y in Decode(Encode(adj)).adj[x] <==> y in adj[x]
    {
      SortMember(adj[x], y);
    }
  }

  /** An empty array, or one whose only value is ignored, gives the single node 1 and no edge. */
  lemma DecodeShort(sa: seq<int>)
    requires |sa| <= 1
    ensures Decode(sa) == Decoding(1, map[1 := []], [])
  {
  }

  /** The UndirectedGraf(int...) second pass: each nonzero value v read in block j adds j to the successors of v if absent. */
  datatype Mirroring = Mirroring(from: int, adj: Adj)

  function MirrorRun(adj: Adj, s: seq<int>): (m: Mirroring)
    requires forall i :: 0 <= i < |s| && s[i] != 0 ==> s[i] in adj
    ensures m.adj.Keys == adj.Keys
  {
    if s == [] then Mirroring(1, adj) else
    var m := MirrorRun(adj, s[..|s| - 1]);
    var x := s[|s| - 1];
    if x != 0 then
      var l := m.adj[x];
      Mirroring(m.from, m.adj[x := if m.from in l then l else l + [m.from]])
    else
      Mirroring(m.from + 1, m.adj)
  }

  /** The second pass adds `y` to the list of `x` exactly for the pairs (y, x) of the first pass, never twice. */
  lemma {:induction false} MirrorRunSpec(adj: Adj, s: seq<int>)
    requires forall i :: 0 <= i < |s| && s[i] != 0 ==> s[i] in adj
    ensures MirrorRun(adj, s).from == Run(s).from
    ensures forall x, y :: x in adj ==>
              (y in MirrorRun(adj, s).adj[x] <==> y in adj[x] || (y, x) in Run(s).pairs)
    ensures forall x :: x in adj && NoDuplicates(adj[x]) ==> NoDuplicates(MirrorRun(adj, s).adj[x])
  {
    if s != [] {
      var init := s[..|s| - 1];
      var x := s[|s| - 1];
      MirrorRunSpec(adj, init);
      var m := MirrorRun(adj, init);
      var d := Run(init);
      if x != 0 {
        forall a, b | a in adj
          ensures b in MirrorRun(adj, s).adj[a] <==> b in adj[a] || (b, a) in Run(s).pairs
        {
          assert (b, a) in Run(s).pairs <==> (b, a) in d.pairs || (b, a) == (d.from, x);
        }
      }
    }
  }

  /** UndirectedGraf(int... sa): the directed decoding with the second pass applied. */
  function UndirectedDecode(sa: seq<int>): Adj
    requires forall i :: 0 <= i < |Body(sa)| && Body(sa)[i] != 0 ==> 1 <= Body(sa)[i] <= 1 + Zeros(Body(sa))
  {
    RunNodes(Body(sa));
    MirrorRun(Decode(sa).adj, Body(sa)).adj
  }

  /**
    The undirected decoding has the same nodes as the directed one, and `y`
    follows `x` exactly when one of them was listed in the other's block.
  */
  lemma UndirectedDecodeLists(sa: seq<int>)
    requires forall i :: 0 <= i < |Body(sa)| && Body(sa)[i] != 0 ==> 1 <= Body(sa)[i] <= 1 + Zeros(Body(sa))
    ensures UndirectedDecode(sa).Keys == Decode(sa).adj.Keys
    ensures forall x, y :: x in Decode(sa).adj ==>
              (y in UndirectedDecode(sa)[x] <==> y in Decode(sa).adj[x] || (y in Decode(sa).adj && x in Decode(sa).adj[y]))
    ensures forall x :: x in UndirectedDecode(sa) ==> NoDuplicates(UndirectedDecode(sa)[x])
  {
    var s := Body(sa);
    var d := Decode(sa);
    RunNodes(s);
    RunLists(s);
    MirrorRunSpec(d.adj, s);
    var u := UndirectedDecode(sa);
    forall x, y | x in d.adj
      ensures y in u[x] <==> y in d.adj[x] || (y in d.adj && x in d.adj[y])
    {
      if (y, x) in d.pairs {
        var k :| 0 <= k < |d.pairs| && d.pairs[k] == (y, x);
      }
    }
  }

  /** The undirected decoding is symmetric: `y` follows `x` exactly when `x` follows `y`. */
  lemma UndirectedDecodeSymmetric(sa: seq<int>)
    requires forall i :: 0 <= i < |Body(sa)| && Body(sa)[i] != 0 ==> 1 <= Body(sa)[i] <= 1 + Zeros(Body(sa))
    ensures forall x, y :: x in UndirectedDecode(sa) && y in UndirectedDecode(sa)[x] ==>
              y in UndirectedDecode(sa) && x in UndirectedDecode(sa)[y]
  {
    var s := Body(sa);
    var d := Decode(sa);
    var u := UndirectedDecode(sa);
    UndirectedDecodeLists(sa);
    forall x, y | x in u && y in u[x] ensures y in u && x in u[y] {
      if y in d.adj[x] {
        TargetsAreNodes(sa, x, y);
      }
    }
  }

  /** With every value an opened node, every successor in the directed decoding is a node. */
  lemma TargetsAreNodes(sa: seq<int>, x: int, y: int)
    requires forall i :: 0 <= i < |Body(sa)| && Body(sa)[i] != 0 ==> 1 <= Body(sa)[i] <= 1 + Zeros(Body(sa))
    requires x in Decode(sa).adj && y in Decode(sa).adj[x]
    ensures y in Decode(sa).adj
  {
    var s := Body(sa);
    RunLists(s);
    RunPairs(s);
    RunNodes(s);
    var i :| 0 <= i < |s| && s[i] == y && y != 0 && x == BlockOf(s, i);
  }
}
