/**
  Node identity (Node.java). A node is its integer id plus an optional label;
  equality, hashing and ordering look at the id only. The process-wide
  "biggest id" counter that the Java constructors update is the class
  `IdWatermark`.
*/
module Nodes {
  import opened Wrappers
  import opened Text

  const INT_MIN: int := -0x8000_0000
  const INT_MAX: int := 0x7fff_ffff

  /** A Java `int`. */
  type Int32 = x: int | INT_MIN <= x <= INT_MAX

  /** Integer.compare. */
  function IntCompare(a: int, b: int): (r: int)
    ensures r == -1 || r == 0 || r == 1
    ensures r < 0 <==> a < b
    ensures r == 0 <==> a == b
  {
    if a < b then -1 else if a == b then 0 else 1
  }

  datatype Node = Node(id: int, nodeLabel: Option<string>)
  {
    /** Node.equals: same id, whatever the labels. */
    predicate Equals(other: Node)
    {
      IntCompare(id, other.id) == 0
    }

    function HashCode(): int
    {
      id
    }

    /** Node.compareTo: Integer.compare on the ids. */
    function CompareTo(other: Node): (r: int)
      ensures r == -1 || r == 0 || r == 1
      ensures r == 0 <==> Equals(other)
      ensures r < 0 <==> id < other.id
    {
      IntCompare(id, other.id)
    }

    /** Node.toString: "(" + id + ")". */
    function ToString(): (s: string)
      ensures |s| >= 3 && s[0] == '(' && s[|s| - 1] == ')'
      ensures var inner := s[1..|s| - 1];
              (forall i :: 0 <= i < |inner| ==> IsDigit(inner[i]) || (i == 0 && inner[i] == '-')) &&
              ParseInt(inner) == id
    {
      IntToStringRoundTrip(id);
      var s := "(" + IntToString(id) + ")";
      assert s[1..|s| - 1] == IntToString(id);
      s
    }
  }

  /** Equal nodes have equal hash codes, and equality ignores the label. */
  lemma EqualsAgreesWithHashCode(a: Node, b: Node)
    ensures a.Equals(b) <==> a.HashCode() == b.HashCode()
    ensures a.Equals(b) <==> b.Equals(a)
    ensures a.Equals(b) <==> a.CompareTo(b) == 0
    ensures a.Equals(Node(a.id, None))
  {
  }

  /** compareTo is antisymmetric and transitive: a total order on ids. */
  lemma CompareToIsTotalOrder(a: Node, b: Node, c: Node)
    ensures a.CompareTo(b) == -b.CompareTo(a)
    ensures a.CompareTo(b) < 0 && b.CompareTo(c) < 0 ==> a.CompareTo(c) < 0
    ensures a.CompareTo(b) != 0 || b.CompareTo(a) == 0
  {
  }

  /** The static `biggestId` field of Node.java and the constructors that update it. */
  class IdWatermark {
    var biggestId: Int32

    /** The class initialiser: `biggestId = 0`. */
    constructor ()
      ensures biggestId == 0
    {
      biggestId := 0;
    }

    /** `new Node()`: the id is `++biggestId`, which wraps around at Integer.MAX_VALUE. */
    method NewNode() returns (n: Node)
      modifies this
      ensures n.id == (if old(biggestId) == INT_MAX then INT_MIN else old(biggestId) + 1)
      ensures n.nodeLabel == None
      ensures biggestId == n.id
    {
      biggestId := if biggestId == INT_MAX then INT_MIN else biggestId + 1;
      n := Node(biggestId, None);
    }

    /** `new Node(id)`: raises the watermark to `id` when `id` is larger. */
    method NodeWithId(id: Int32) returns (n: Node)
      modifies this
      ensures n == Node(id, None)
      ensures biggestId == if id > old(biggestId) then id else old(biggestId)
      ensures biggestId >= old(biggestId) && biggestId >= id
    {
      n := Node(id, None);
      if id > biggestId {
        biggestId := id;
      }
    }

    /** `new Node(id, label)`: as `new Node(id)`, keeping the label. */
    method NodeWithLabel(id: Int32, labelText: string) returns (n: Node)
      modifies this
      ensures n == Node(id, Some(labelText))
      ensures biggestId == if id > old(biggestId) then id else old(biggestId)
    {
      n := Node(id, Some(labelText));
      if id > biggestId {
        biggestId := id;
      }
    }
  }
}
