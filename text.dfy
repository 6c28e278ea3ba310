/**
  Decimal rendering of Java ints (Integer.toString / StringBuilder.append(int))
  and its inverse, plus the ", "-separated joining the DOT writers perform.
*/
module Text {
  import opened Wrappers

  predicate IsDigit(c: char)
  {
    '0' <= c <= '9'
  }

  function DigitChar(d: nat): (c: char)
    requires d < 10
    ensures IsDigit(c) && DigitValue(c) == d
  {
    (d + '0' as int) as char
  }

  /** The value of a decimal digit (0 for any other character). */
  function DigitValue(c: char): nat
  {
    if IsDigit(c) then c as int - '0' as int else 0
  }

  /** The decimal digits of `n`, most significant first, without leading zeros. */
  function NatToString(n: nat): (r: string)
    ensures r != []
    ensures forall i :: 0 <= i < |r| ==> IsDigit(r[i])
    ensures |r| > 1 ==> r[0] != '0'
  {
    if n < 10 then [DigitChar(n)] else NatToString(n / 10) + [DigitChar(n % 10)]
  }

  /** Integer.toString: a minus sign for negative values, then the digits. */
  function IntToString(n: int): (r: string)
    ensures r != [] && IsDigit(r[|r| - 1])
    ensures forall i :: 0 <= i < |r| ==> IsDigit(r[i]) || (i == 0 && r[i] == '-')
    ensures r[0] == '-' <==> n < 0
  {
    if n < 0 then "-" + NatToString(-n) else NatToString(n)
  }

  /** Integer.parseInt restricted to a nonempty string of digits. */
  function ParseNat(s: string): nat
  {
    if s == [] then 0 else ParseNat(s[..|s| - 1]) * 10 + DigitValue(s[|s| - 1])
  }

  /** Integer.parseInt on an optional minus sign followed by digits. */
  function ParseInt(s: string): int
    requires s != [] && forall i :: 0 <= i < |s| ==> IsDigit(s[i]) || (i == 0 && s[i] == '-')
  {
    if s[0] == '-' then 0 - ParseNat(s[1..]) else ParseNat(s)
  }

  lemma {:induction false} ParseNatToString(n: nat)
    ensures ParseNat(NatToString(n)) == n
  {
    if n >= 10 {
      var r := NatToString(n);
      assert r[..|r| - 1] == NatToString(n / 10);
      ParseNatToString(n / 10);
    }
  }

  /** Reading back what Integer.toString wrote gives the same int. */
  lemma IntToStringRoundTrip(n: int)
    ensures ParseInt(IntToString(n)) == n
  {
    if n < 0 {
      assert IntToString(n)[1..] == NatToString(-n);
      ParseNatToString(-n);
    } else {
      ParseNatToString(n);
    }
  }

  /** The decimal renderings of `ids`, in order. */
  function Renderings(ids: seq<int>): (r: seq<string>)
    ensures |r| == |ids| && forall i :: 0 <= i < |ids| ==> r[i] == IntToString(ids[i])
  {
    if ids == [] then [] else Renderings(ids[..|ids| - 1]) + [IntToString(ids[|ids| - 1])]
  }

  /** `parts` separated by `sep`. */
  function Join(parts: seq<string>, sep: string): string
  {
    if parts == [] then ""
    else if |parts| == 1 then parts[0]
    else Join(parts[..|parts| - 1], sep) + sep + parts[|parts| - 1]
  }

  /** What appending `part + sep` for every part produces (before the writer trims the tail). */
  function Terminated(parts: seq<string>, sep: string): string
  {
    if parts == [] then "" else Terminated(parts[..|parts| - 1], sep) + parts[|parts| - 1] + sep
  }

  /** Trimming the trailing separator of `Terminated` gives `Join`. */
  lemma {:induction false} TerminatedIsJoin(parts: seq<string>, sep: string)
    requires parts != []
    ensures Terminated(parts, sep) == Join(parts, sep) + sep
  {
    if |parts| > 1 {
      TerminatedIsJoin(parts[..|parts| - 1], sep);
    }
  }

  /** The pieces of `s` between occurrences of `c` (as a reader cuts a list at commas or a text at newlines). */
  function SplitAt(s: string, c: char): (r: seq<string>)
    ensures r != []
  {
    if s == [] then [""]
    else if s[0] == c then [""] + SplitAt(s[1..], c)
    else
      var rest := SplitAt(s[1..], c);
      [[s[0]] + rest[0]] + rest[1..]
  }

  lemma {:induction false} SplitWithout(s: string, c: char)
    requires c !in s
    ensures SplitAt(s, c) == [s]
  {
    if s != [] {
      assert c !in s[1..];
      SplitWithout(s[1..], c);
      assert [s[0]] + s[1..] == s;
    }
  }

  /** Cutting at `c` splits the pieces of both sides apart. */
  lemma {:induction false} SplitAppend(a: string, b: string, c: char)
    ensures SplitAt(a + [c] + b, c) == SplitAt(a, c) + SplitAt(b, c)
  {
    if a == [] {
      assert a + [c] + b == [c] + b;
    } else {
      assert (a + [c] + b)[1..] == a[1..] + [c] + b;
      SplitAppend(a[1..], b, c);
    }
  }

  /** A first piece without the separator splits off as the first text. */
  lemma SplitFirst(head: string, rest: string, c: char)
    requires c !in head
    ensures SplitAt(head + [c] + rest, c) == [head] + SplitAt(rest, c)
  {
    SplitAppend(head, rest, c);
    SplitWithout(head, c);
  }

  /** Splitting texts each ended by `c` (and what follows them) at `c` gives the texts, then the pieces of the rest. */
  lemma {:induction false} SplitTerminated(texts: seq<string>, c: char, tail: string)
    requires forall i :: 0 <= i < |texts| ==> c !in texts[i]
    ensures SplitAt(Terminated(texts, [c]) + tail, c) == texts + SplitAt(tail, c)
  {
    if texts != [] {
      var init := texts[..|texts| - 1];
      var last := texts[|texts| - 1];
      var rest := last + [c] + tail;
      TerminatedSnoc(init, last, [c], tail);
      SplitTerminated(init, c, rest);
      SplitFirst(last, tail, c);
      SnocAssoc(init, last, SplitAt(tail, c), texts);
    } else {
      assert Terminated(texts, [c]) + tail == tail;
    }
  }

  lemma TerminatedSnoc(init: seq<string>, last: string, sep: string, tail: string)
    ensures Terminated(init + [last], sep) + tail == Terminated(init, sep) + (last + sep + tail)
  {
    assert (init + [last])[..|init|] == init;
  }

  lemma SnocAssoc<T>(init: seq<T>, last: T, rest: seq<T>, all: seq<T>)
    requires all == init + [last]
    ensures init + ([last] + rest) == all + rest
  {
  }

  /** A piece without the blank that follows a separating comma. */
  function Unspaced(t: string): string
  {
    if t != [] && t[0] == ' ' then t[1..] else t
  }

  /** Text that Integer.parseInt reads as an int: an optional minus sign, then digits. */
  predicate IsIntText(t: string)
  {
    t != [] && forall i :: 0 <= i < |t| ==> IsDigit(t[i]) || (i == 0 && t[i] == '-')
  }

  /** Integer.parseInt of one piece; None when the piece is not an int. */
  function ReadPiece(t: string): Option<int>
  {
    if IsIntText(t) then Some(ParseInt(t)) else None
  }

  /** The reading of every piece, a leading blank skipped. */
  function Readings(pieces: seq<string>): (r: seq<Option<int>>)
    ensures |r| == |pieces| && forall i :: 0 <= i < |pieces| ==> r[i] == ReadPiece(Unspaced(pieces[i]))
  {
    if pieces == [] then [] else Readings(pieces[..|pieces| - 1]) + [ReadPiece(Unspaced(pieces[|pieces| - 1]))]
  }

  /** All the values when every reading succeeded; None otherwise. */
  function Collect(rs: seq<Option<int>>): (r: Option<seq<int>>)
    ensures r.Some? ==> |r.value| == |rs|
  {
    if rs == [] then Some([]) else
    var init := Collect(rs[..|rs| - 1]);
    var last := rs[|rs| - 1];
    if init.Some? && last.Some? then Some(init.value + [last.value]) else None
  }

  /** Reads a ", "-separated list of ints; None when some piece is not an int. */
  function ReadIds(s: string): Option<seq<int>>
  {
    Collect(Readings(SplitAt(s, ',')))
  }

  /** Splitting a ", "-joined list of comma-free pieces gives the pieces back, all but the first after a blank. */
  lemma {:induction false} SplitJoin(parts: seq<string>)
    requires parts != [] && forall i :: 0 <= i < |parts| ==> ',' !in parts[i]
    ensures SplitAt(Join(parts, ", "), ',') == [parts[0]] + Spaced(parts[1..])
  {
    if |parts| == 1 {
      SplitWithout(parts[0], ',');
    } else {
      var init := parts[..|parts| - 1];
      var last := parts[|parts| - 1];
      SplitJoin(init);
      assert Join(parts, ", ") == Join(init, ", ") + [','] + (" " + last);
      SplitAppend(Join(init, ", "), " " + last, ',');
      SplitWithout(" " + last, ',');
      assert parts[1..] == init[1..] + [last];
      SpacedAppend(init[1..], last);
    }
  }

  /** Every part with a blank in front. */
  function Spaced(parts: seq<string>): (r: seq<string>)
    ensures |r| == |parts| && forall i :: 0 <= i < |parts| ==> r[i] == " " + parts[i]
  {
    if parts == [] then [] else Spaced(parts[..|parts| - 1]) + [" " + parts[|parts| - 1]]
  }

  lemma SpacedAppend(parts: seq<string>, last: string)
    ensures Spaced(parts + [last]) == Spaced(parts) + [" " + last]
  {
  }

  /** Reading back a list written as ", "-separated decimal ints gives the ints. */
  lemma ReadIdsRoundTrip(ids: seq<int>)
    requires ids != []
    ensures ReadIds(Join(Renderings(ids), ", ")) == Some(ids)
  {
    var parts := Renderings(ids);
    RenderingsHaveNoComma(ids);
    SplitJoin(parts);
    SpacedRenders(ids);
    var pieces := [parts[0]] + Spaced(parts[1..]);
    CollectAll(Readings(pieces), ids);
  }

  lemma RenderingsHaveNoComma(ids: seq<int>)
    ensures forall i :: 0 <= i < |ids| ==> ',' !in Renderings(ids)[i]
  {
    forall i | 0 <= i < |ids| ensures ',' !in Renderings(ids)[i] {
      var t := IntToString(ids[i]);
      assert forall j :: 0 <= j < |t| ==> t[j] != ',';
    }
  }

  /** Every piece of a ", "-joined rendering reads as the int it renders. */
  lemma SpacedRenders(ids: seq<int>)
    requires ids != []
    ensures var pieces := [Renderings(ids)[0]] + Spaced(Renderings(ids)[1..]);
            forall i :: 0 <= i < |ids| ==> Readings(pieces)[i] == Some(ids[i])
  {
    var parts := Renderings(ids);
    var pieces := [parts[0]] + Spaced(parts[1..]);
    assert parts[0][0] != ' ' by {
      NoBlankInRendering(ids[0]);
    }
    forall i | 0 <= i < |ids| ensures ReadPiece(Unspaced(pieces[i])) == Some(ids[i]) {
      SpacedPiece(parts, i);
      ReadLastPiece(parts[i], ids[i]);
    }
  }

  /** Dropping the blank of a piece gives back the part it came from. */
  lemma SpacedPiece(parts: seq<string>, i: int)
    requires 0 <= i < |parts| && (parts[0] == [] || parts[0][0] != ' ')
    ensures Unspaced(([parts[0]] + Spaced(parts[1..]))[i]) == parts[i]
  {
    if i > 0 {
      assert ([parts[0]] + Spaced(parts[1..]))[i] == " " + parts[i];
      assert (" " + parts[i])[1..] == parts[i];
    }
  }

  /** The rendering of an int holds no blank. */
  lemma NoBlankInRendering(k: int)
    ensures ' ' !in IntToString(k)
  {
    var t := IntToString(k);
    assert forall j :: 0 <= j < |t| ==> t[j] != ' ';
  }

  /** Readings that all succeed collect into their values. */
  lemma {:induction false} CollectAll(rs: seq<Option<int>>, ids: seq<int>)
    requires |rs| == |ids| && forall i :: 0 <= i < |ids| ==> rs[i] == Some(ids[i])
    ensures Collect(rs) == Some(ids)
  {
    if rs != [] {
      var n := |rs|;
      CollectAll(rs[..n - 1], ids[..n - 1]);
      assert ids == ids[..n - 1] + [ids[n - 1]];
    }
  }

  lemma ReadLastPiece(t: string, x: int)
    requires t == IntToString(x)
    ensures ReadPiece(t) == Some(x)
  {
    IntToStringRoundTrip(x);
  }
}
