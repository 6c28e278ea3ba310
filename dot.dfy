/**
  The DOT text of a graph (Graf.toDotString and UndirectedGraf.toDotString)
  as functions of the adjacency, the form the StringBuilder loops produce
  before their trailing ", " is cut, and a reader that recovers, line by
  line, the node ids and the ids each line lists.
*/
module Dot {
  import opened Wrappers
  import opened Seqs
  import opened Text
  import opened Adjacency

  /** The members of `s` that are not below `k`, in order: what the undirected writer prints for node `k`. */
  function NotBelow(s: seq<int>, k: int): (r: seq<int>)
    ensures forall x :: x in r <==> x in s && x >= k
  {
    if s == [] then [] else
    var init := NotBelow(s[..|s| - 1], k);
    var x := s[|s| - 1];
    assert s == s[..|s| - 1] + [x];
    if x >= k then init + [x] else init
  }

  /**
    The ids the line of node `k` lists: its successors in ascending order
    (the writers sort each list in place first) and, for an undirected graph,
    only those not below `k`, so that an edge stored both ways shows once.
  */
  function Listed(k: int, succ: seq<int>, directed: bool): seq<int>
  {
    if directed then Sort(succ) else NotBelow(Sort(succ), k)
  }

  function Header(directed: bool): string
  {
    if directed then "digraph {" else "graph {"
  }

  function Connector(directed: bool): string
  {
    if directed then " -> " else " -- "
  }

  /** The line of node `k`, without its newline. */
  function Line(k: int, succ: seq<int>, directed: bool): string
  {
    var ids := Listed(k, succ, directed);
    Head(k, ids, directed) + Join(Renderings(ids), ", ") + ";"
  }

  /** A tab and the node id, then the connector when the line lists ids. */
  function Head(k: int, ids: seq<int>, directed: bool): string
  {
    "\t" + IntToString(k) + (if ids == [] then "" else Connector(directed))
  }

  /** toDotString: the header, one line per node in ascending id order, each ended by a newline, and "}". */
  function DotString(adj: Adj, directed: bool): string
  {
    Header(directed) + "\n" + Terminated(LineTexts(adj, SortedSet(adj.Keys), directed), "\n") + "}"
  }

  /** The lines of the nodes `ks`, in that order, each without its newline. */
  function LineTexts(adj: Adj, ks: seq<int>, directed: bool): (r: seq<string>)
    requires forall i :: 0 <= i < |ks| ==> ks[i] in adj
    ensures |r| == |ks|
  {
    if ks == [] then [] else
    var k := ks[|ks| - 1];
    LineTexts(adj, ks[..|ks| - 1], directed) + [Line(k, adj[k], directed)]
  }

  /** The writers' cleanup: when the text ends in a blank, drop the last two characters. */
  function Trimmed(s: string): string
    requires |s| >= 2
  {
    if s[|s| - 1] == ' ' then s[..|s| - 2] else s
  }

  /** What the StringBuilder holds for node `k` before the cleanup, once `ids` have been appended. */
  function Built(k: int, ids: seq<int>, directed: bool): (s: string)
    ensures |s| >= 2
  {
    Head(k, ids, directed) + Terminated(Renderings(ids), ", ")
  }

  /** Cutting the trailing ", " of the built text and closing it with ";" gives the line. */
  lemma TrimmedIsLine(k: int, succ: seq<int>, directed: bool)
    ensures Trimmed(Built(k, Listed(k, succ, directed), directed)) + ";" == Line(k, succ, directed)
  {
    var ids := Listed(k, succ, directed);
    var head := Head(k, ids, directed);
    if ids != [] {
      TerminatedIsJoin(Renderings(ids), ", ");
      TrimSeparator(head, Join(Renderings(ids), ", "));
    } else {
      var key := IntToString(k);
      assert head == "\t" + key;
      TrimNothing("\t", key);
    }
  }

  lemma TrimSeparator(head: string, s: string)
    requires |head| >= 2
    ensures Trimmed(head + (s + ", ")) == head + s
  {
    assert head + (s + ", ") == (head + s) + ", ";
    assert ((head + s) + ", ")[..|head + s|] == head + s;
  }

  lemma TrimNothing(tab: string, key: string)
    requires |tab| >= 1 && key != [] && IsDigit(key[|key| - 1])
    ensures Trimmed(tab + key + "") == tab + key
  {
    assert tab + key + "" == tab + key;
    assert (tab + key)[|tab + key| - 1] == key[|key| - 1];
  }

  /** Reads a line (without its newline) back: the node id and the ids it lists. */
  function ReadLine(line: string, directed: bool): Option<(int, seq<int>)>
  {
    if |line| < 2 || line[0] != '\t' || line[|line| - 1] != ';' then None else
    var body := line[1..|line| - 1];
    if ' ' !in body then
      var k := ReadPiece(body);
      if k.Some? then Some((k.value, [])) else None
    else
      var i := IndexOf(body, ' ');
      if i + 4 <= |body| && body[i..i + 4] == Connector(directed) then
        var k := ReadPiece(body[..i]);
        var ids := ReadIds(body[i + 4..]);
        if k.Some? && ids.Some? then Some((k.value, ids.value)) else None
      else None
  }

  /** Reading a line back gives its node and exactly the ids it lists. */
  lemma ReadLineRoundTrip(k: int, succ: seq<int>, directed: bool)
    ensures ReadLine(Line(k, succ, directed), directed) == Some((k, Listed(k, succ, directed)))
  {
    var ids := Listed(k, succ, directed);
    if ids == [] {
      ReadBareLine(k, directed);
    } else {
      ReadListLine(k, ids, directed);
    }
  }

  lemma ReadBareLine(k: int, directed: bool)
    ensures ReadLine(Head(k, [], directed) + Join(Renderings([]), ", ") + ";", directed) == Some((k, []))
  {
    var key := IntToString(k);
    NoBlankInRendering(k);
    ReadLastPiece(key, k);
    assert Head(k, [], directed) + Join(Renderings([]), ", ") + ";" == "\t" + key + "" + "" + ";";
    LineBody(key, "", "");
    assert key + "" + "" == key;
  }

  lemma ReadListLine(k: int, ids: seq<int>, directed: bool)
    requires ids != []
    ensures ReadLine(Head(k, ids, directed) + Join(Renderings(ids), ", ") + ";", directed) == Some((k, ids))
  {
    var key := IntToString(k);
    NoBlankInRendering(k);
    ReadLastPiece(key, k);
    var rest := Join(Renderings(ids), ", ");
    LineBody(key, Connector(directed), rest);
    BodyParts(key, rest, directed);
    ReadIdsRoundTrip(ids);
  }

  /** A line is a tab, then the body, then ";". */
  lemma LineBody(key: string, connector: string, rest: string)
    ensures var line := "\t" + key + connector + rest + ";";
            |line| >= 2 && line[0] == '\t' && line[|line| - 1] == ';' && line[1..|line| - 1] == key + connector + rest
  {
    var line := "\t" + key + connector + rest + ";";
    assert line[1..|line| - 1] == key + connector + rest;
  }

  /** Where the key has no blank, the first blank of the body opens the connector. */
  lemma BodyParts(key: string, rest: string, directed: bool)
    requires ' ' !in key
    ensures var body := key + Connector(directed) + rest;
            ' ' in body && IndexOf(body, ' ') == |key| && |key| + 4 <= |body| &&
            body[..|key|] == key && body[|key|..|key| + 4] == Connector(directed) && body[|key| + 4..] == rest
  {
    var body := key + Connector(directed) + rest;
    assert body == key + (Connector(directed) + rest);
    IndexOfAfter(key, Connector(directed) + rest, ' ');
    assert body[..|key|] == key;
    assert body[|key|..|key| + 4] == Connector(directed);
    assert body[|key| + 4..] == rest;
  }

  /** Reads a whole document: the header line, node lines, and the closing "}". */
  function ReadDot(doc: string, directed: bool): Option<seq<(int, seq<int>)>>
  {
    var texts := SplitAt(doc, '\n');
    if |texts| < 2 || texts[0] != Header(directed) || texts[|texts| - 1] != "}" then None
    else ReadLines(texts[1..|texts| - 1], directed)
  }

  function ReadLines(texts: seq<string>, directed: bool): (r: Option<seq<(int, seq<int>)>>)
    ensures r.Some? ==> |r.value| == |texts|
  {
    if texts == [] then Some([]) else
    var init := ReadLines(texts[..|texts| - 1], directed);
    var last := ReadLine(texts[|texts| - 1], directed);
    if init.Some? && last.Some? then Some(init.value + [last.value]) else None
  }

  /** For every node in ascending id order: its id and the ids its line lists. */
  function Listing(adj: Adj, ks: seq<int>, directed: bool): (r: seq<(int, seq<int>)>)
    requires forall i :: 0 <= i < |ks| ==> ks[i] in adj
    ensures |r| == |ks|
  {
    if ks == [] then [] else
    var k := ks[|ks| - 1];
    Listing(adj, ks[..|ks| - 1], directed) + [(k, Listed(k, adj[k], directed))]
  }

  /** Entry i of the listing is node ks[i] with the ids its line lists. */
  lemma {:induction false} ListingAt(adj: Adj, ks: seq<int>, directed: bool, i: int)
    requires forall j :: 0 <= j < |ks| ==> ks[j] in adj
    requires 0 <= i < |ks|
    ensures Listing(adj, ks, directed)[i] == (ks[i], Listed(ks[i], adj[ks[i]], directed))
  {
    if i < |ks| - 1 {
      ListingAt(adj, ks[..|ks| - 1], directed, i);
    }
  }

  /** A line holds no newline. */
  lemma NoNewlineInLine(k: int, succ: seq<int>, directed: bool)
    ensures '\n' !in Line(k, succ, directed)
  {
    var ids := Listed(k, succ, directed);
    var parts := Renderings(ids);
    NoNewlineInRendering(k);
    forall i | 0 <= i < |parts| ensures '\n' !in parts[i] {
      NoNewlineInRendering(ids[i]);
    }
    NoNewlineInJoin(parts);
    NoNewlineInParts("\t", IntToString(k), if ids == [] then "" else Connector(directed), Join(parts, ", "));
  }

  lemma NoNewlineInParts(a: string, b: string, c: string, d: string)
    requires '\n' !in a && '\n' !in b && '\n' !in c && '\n' !in d
    ensures '\n' !in a + b + c + d + ";"
  {
  }

  lemma {:induction false} NoNewlineInJoin(parts: seq<string>)
    requires forall i :: 0 <= i < |parts| ==> '\n' !in parts[i]
    ensures '\n' !in Join(parts, ", ")
  {
    if |parts| > 1 {
      NoNewlineInJoin(parts[..|parts| - 1]);
    }
  }

  lemma NoNewlineInRendering(k: int)
    ensures '\n' !in IntToString(k)
  {
    var t := IntToString(k);
    assert forall j :: 0 <= j < |t| ==> t[j] != '\n';
  }

  /** Lines that each read back as the listing of their node read back as the whole listing. */
  lemma {:induction false} ReadLinesSpec(adj: Adj, ks: seq<int>, directed: bool)
    requires forall i :: 0 <= i < |ks| ==> ks[i] in adj
    ensures ReadLines(LineTexts(adj, ks, directed), directed) == Some(Listing(adj, ks, directed))
  {
    if ks != [] {
      var init := ks[..|ks| - 1];
      var k := ks[|ks| - 1];
      ReadLinesSpec(adj, init, directed);
      ReadLineRoundTrip(k, adj[k], directed);
      assert LineTexts(adj, ks, directed)[..|ks| - 1] == LineTexts(adj, init, directed);
    }
  }

  /**
    Reading back the DOT text of a graph gives, for every node in ascending
    id order, its id and the ids its line lists: all its successors, sorted,
    for a directed graph; those not below it for an undirected one.
  */
  lemma DotRoundTrip(adj: Adj, directed: bool)
    ensures ReadDot(DotString(adj, directed), directed) == Some(Listing(adj, SortedSet(adj.Keys), directed))
  {
    var ks := SortedSet(adj.Keys);
    var texts := LineTexts(adj, ks, directed);
    LinesHaveNoNewline(adj, ks, directed);
    DocumentPieces(Header(directed), texts, "}");
    ReadLinesSpec(adj, ks, directed);
    ReadDocument(DotString(adj, directed), directed, texts, Listing(adj, ks, directed));
  }

  /** A document that splits into the header, some lines and "}" reads as those lines do. */
  lemma ReadDocument(doc: string, directed: bool, texts: seq<string>, listing: seq<(int, seq<int>)>)
    requires SplitAt(doc, '\n') == [Header(directed)] + texts + ["}"]
    requires ReadLines(texts, directed) == Some(listing)
    ensures ReadDot(doc, directed) == Some(listing)
  {
    var pieces := SplitAt(doc, '\n');
    assert pieces[1..|pieces| - 1] == texts;
  }

  lemma {:induction false} LinesHaveNoNewline(adj: Adj, ks: seq<int>, directed: bool)
    requires forall i :: 0 <= i < |ks| ==> ks[i] in adj
    ensures forall i :: 0 <= i < |ks| ==> '\n' !in LineTexts(adj, ks, directed)[i]
  {
    if ks != [] {
      var k := ks[|ks| - 1];
      LinesHaveNoNewline(adj, ks[..|ks| - 1], directed);
      NoNewlineInLine(k, adj[k], directed);
    }
  }

  /** A header line, newline-ended texts and a closing text split back into those pieces. */
  lemma DocumentPieces(header: string, texts: seq<string>, closing: string)
    requires '\n' !in header && '\n' !in closing
    requires forall i :: 0 <= i < |texts| ==> '\n' !in texts[i]
    ensures SplitAt(header + "\n" + Terminated(texts, "\n") + closing, '\n') == [header] + texts + [closing]
  {
    var body := Terminated(texts, "\n");
    assert header + "\n" + body + closing == header + ['\n'] + (body + closing);
    SplitFirst(header, body + closing, '\n');
    SplitTerminated(texts, '\n', closing);
    SplitWithout(closing, '\n');
  }

  /** A directed line lists every successor, as often as it occurs, in ascending order. */
  lemma DirectedListsAll(k: int, succ: seq<int>)
    ensures Sorted(Listed(k, succ, true)) && multiset(Listed(k, succ, true)) == multiset(succ)
  {
    SortSpec(succ);
  }

  /** An undirected line lists exactly the successors not below the node. */
  lemma UndirectedListsNotBelow(k: int, succ: seq<int>, v: int)
    ensures v in Listed(k, succ, false) <==> v in succ && v >= k
  {
    SortMember(succ, v);
  }

  /**
    In an undirected graph whose lists are symmetric, an edge between two
    different nodes u and v shows on exactly one of their two lines: on the
    line of the smaller id.
  */
  lemma UndirectedEdgeOnce(adj: Adj, u: int, v: int)
    requires u in adj && v in adj && u != v
    requires v in adj[u] && u in adj[v]
    ensures (v in Listed(u, adj[u], false)) != (u in Listed(v, adj[v], false))
    ensures v in Listed(u, adj[u], false) <==> u < v
  {
    UndirectedListsNotBelow(u, adj[u], v);
    UndirectedListsNotBelow(v, adj[v], u);
  }

  /** The text of a graph with no node. */
  lemma DotEmpty(directed: bool)
    ensures DotString(map[], directed) == (if directed then "digraph {\n}" else "graph {\n}")
  {
    assert SortedSet({}) == [];
  }

  /** Rendering one more id appends its text and the separator. */
  lemma TerminatedSnocId(ids: seq<int>, x: int)
    ensures Terminated(Renderings(ids + [x]), ", ") == Terminated(Renderings(ids), ", ") + IntToString(x) + ", "
  {
    assert (ids + [x])[..|ids|] == ids;
  }

  /** The document so far after the line of one more node. */
  lemma DocumentSnoc(adj: Adj, ks: seq<int>, k: int, directed: bool)
    requires forall j :: 0 <= j < |ks| ==> ks[j] in adj
    requires k in adj
    ensures Header(directed) + "\n" + Terminated(LineTexts(adj, ks + [k], directed), "\n") ==
            Header(directed) + "\n" + Terminated(LineTexts(adj, ks, directed), "\n") + Line(k, adj[k], directed) + "\n"
  {
    var texts := LineTexts(adj, ks, directed);
    var line := Line(k, adj[k], directed);
    assert (ks + [k])[..|ks|] == ks;
    assert LineTexts(adj, ks + [k], directed) == texts + [line];
    assert (texts + [line])[..|texts|] == texts;
    assert Terminated(texts + [line], "\n") == Terminated(texts, "\n") + line + "\n";
    var a, t := Header(directed) + "\n", Terminated(texts, "\n");
    ConcatAssoc(a, t, line);
    ConcatAssoc(a, t + line, "\n");
  }

  /** One more entry of a sorted list is listed after the others when it is not below `k`. */
  lemma NotBelowSnoc(s: seq<int>, j: int, k: int)
    requires 0 <= j < |s|
    ensures s[j] >= k ==> NotBelow(s[..j + 1], k) == NotBelow(s[..j], k) + [s[j]]
    ensures s[j] < k ==> NotBelow(s[..j + 1], k) == NotBelow(s[..j], k)
  {
    assert s[..j + 1][..j] == s[..j];
  }

  /** Closing the trimmed text with ";" and a newline appends the line of the node. */
  lemma CloseLine(prefix: string, built: string, line: string, k: int, succ: seq<int>, directed: bool)
    requires built == Built(k, Listed(k, succ, directed), directed)
    requires line == Trimmed(built)
    ensures prefix + line + ";\n" == prefix + Line(k, succ, directed) + "\n"
  {
    TrimmedIsLine(k, succ, directed);
    assert ";\n" == ";" + "\n";
    ConcatAssoc(prefix + line, ";", "\n");
    ConcatAssoc(prefix, line, ";");
  }

  /** The directed builder text after the id at position `j` of the list. */
  lemma BuiltStep(head: string, line: string, ids: seq<int>, j: int)
    requires 0 <= j < |ids|
    requires line == head + Terminated(Renderings(ids[..j]), ", ")
    ensures line + IntToString(ids[j]) + ", " == head + Terminated(Renderings(ids[..j + 1]), ", ")
  {
    var pre, x := ids[..j], ids[j];
    PrefixSnoc(ids, j);
    TerminatedSnocId(pre, x);
    var t, p := Terminated(Renderings(pre), ", "), IntToString(x);
    ConcatAssoc(head, t, p);
    ConcatAssoc(head, t + p, ", ");
  }

  /** The undirected builder text of a line after one more listed id: " -- " comes before the first. */
  lemma BuiltSnoc(k: int, ids: seq<int>, x: int)
    ensures Built(k, ids + [x], false) ==
              (if ids == [] then Built(k, ids, false) + " -- " else Built(k, ids, false)) + IntToString(x) + ", "
  {
    TerminatedSnocId(ids, x);
    var h, t, p := "\t" + IntToString(k) + " -- ", Terminated(Renderings(ids), ", "), IntToString(x);
    assert Built(k, ids + [x], false) == h + (t + p + ", ");
    if ids == [] {
      assert Built(k, ids, false) + " -- " == h;
      assert t + p == p;
    } else {
      assert Built(k, ids, false) == h + t;
      ConcatAssoc(h, t, p);
    }
    ConcatAssoc(h, t + p, ", ");
  }

  /**
    The loop body of Graf.toDotString for node `k`, whose list `sorted` has
    just been sorted: the text built for the node, its trailing ", " cut
    (the builder ends in a blank exactly when this line does), then ";" and
    a newline.
  */
  method AppendDirectedLine(prefix: string, k: int, ghost succ: seq<int>, sorted: seq<int>) returns (r: string)
    requires sorted == Sort(succ)
    ensures r == prefix + Line(k, succ, true) + "\n"
  {
    var built := DirectedBuilt(k, sorted);
    var line := built;
    if line[|line| - 1] == ' ' {
      line := line[..|line| - 2];
    }
    CloseLine(prefix, built, line, k, succ, true);
    r := prefix + line + ";\n";
  }

  /** The tab and the id, " -> " when the list is not empty, then each id and ", ". */
  method DirectedBuilt(k: int, sorted: seq<int>) returns (line: string)
    ensures line == Built(k, sorted, true)
  {
    line := "\t" + IntToString(k);
    if |sorted| > 0 {
      line := line + " -> ";
    }
    ghost var head := line;
    assert head == Head(k, sorted, true);
    var j := 0;
    while j < |sorted|
      invariant j <= |sorted|
      invariant line == head + Terminated(Renderings(sorted[..j]), ", ")
    {
      BuiltStep(head, line, sorted, j);
      line := line + IntToString(sorted[j]) + ", ";
      j := j + 1;
    }
    assert sorted[..j] == sorted;
  }

  /**
    The loop body of UndirectedGraf.toDotString for node `k`, whose list
    `sorted` has just been sorted: the text built for the node, its trailing
    ", " cut, then ";" and a newline.
  */
  method AppendUndirectedLine(prefix: string, k: int, ghost succ: seq<int>, sorted: seq<int>) returns (r: string)
    requires sorted == Sort(succ)
    ensures r == prefix + Line(k, succ, false) + "\n"
  {
    var built := UndirectedBuilt(k, sorted);
    var line := built;
    if line[|line| - 1] == ' ' {
      line := line[..|line| - 2];
    }
    CloseLine(prefix, built, line, k, succ, false);
    r := prefix + line + ";\n";
  }

  /** The tab and the id, then each id not below `k` and ", ", with " -- " before the first of them. */
  method UndirectedBuilt(k: int, sorted: seq<int>) returns (line: string)
    ensures line == Built(k, NotBelow(sorted, k), false)
  {
    line := "\t" + IntToString(k);
    var once := true;
    var j := 0;
    BuiltStart(k, sorted);
    while j < |sorted|
      invariant j <= |sorted|
      invariant once <==> NotBelow(sorted[..j], k) == []
      invariant line == Built(k, NotBelow(sorted[..j], k), false)
    {
      var n := sorted[j];
      NotBelowSnoc(sorted, j, k);
      if !(n < k) {
        ghost var before, first := line, once;
        if |sorted| > 0 && once {
          line := line + " -- ";
          once := false;
        }
        ListedStep(k, sorted, j, before, first, line);
        line := line + IntToString(n) + ", ";
      }
      j := j + 1;
    }
    assert sorted[..j] == sorted;
  }

  /** Before any id: nothing listed, and the builder holds the tab and the node id. */
  lemma BuiltStart(k: int, sorted: seq<int>)
    ensures NotBelow(sorted[..0], k) == []
    ensures "\t" + IntToString(k) == Built(k, NotBelow(sorted[..0], k), false)
  {
    assert sorted[..0] == [];
    assert Built(k, [], false) == "\t" + IntToString(k) + "" + "";
    assert "\t" + IntToString(k) + "" + "" == "\t" + IntToString(k);
  }

  /** The undirected builder after an id not below `k`: " -- " first when it is the first such id. */
  lemma ListedStep(k: int, sorted: seq<int>, j: int, before: string, first: bool, line: string)
    requires 0 <= j < |sorted| && sorted[j] >= k
    requires first <==> NotBelow(sorted[..j], k) == []
    requires before == Built(k, NotBelow(sorted[..j], k), false)
    requires line == if first then before + " -- " else before
    ensures line + IntToString(sorted[j]) + ", " == Built(k, NotBelow(sorted[..j + 1], k), false)
    ensures NotBelow(sorted[..j + 1], k) != []
  {
    var ids := NotBelow(sorted[..j], k);
    NotBelowSnoc(sorted, j, k);
    BuiltSnoc(k, ids, sorted[j]);
  }
}
