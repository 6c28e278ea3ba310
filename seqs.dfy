/**
  Sequence helpers standing for the java.util operations the graph code calls:
  List.remove(Object), List.removeIf, Collections.sort, and the ascending key
  order of a TreeMap.
*/
module Seqs {

  /** Index of the first occurrence of `x` (what List.indexOf returns). */
  function IndexOf<T(==)>(s: seq<T>, x: T): (i: nat)
    requires x in s
    ensures i < |s| && s[i] == x && x !in s[..i]
  {
    if s[0] == x then 0 else
    assert x in s[1..];
    var j := IndexOf(s[1..], x);
    assert s[..j + 1] == [s[0]] + s[1..][..j];
    j + 1
  }

  /** A position holding `x` with no earlier occurrence is the first index of `x`. */
  lemma {:induction false} IndexOfAt<T>(s: seq<T>, x: T, i: int)
    requires 0 <= i < |s| && s[i] == x && x !in s[..i]
    ensures IndexOf(s, x) == i
  {
    if i > 0 {
      assert s[0] == s[..i][0];
      assert s[1..][i - 1] == x;
      assert s[1..][..i - 1] == s[..i][1..];
      IndexOfAt(s[1..], x, i - 1);
    }
  }

  /** Where `x` is missing from `a`, its first index in `a + b` lies in `b`. */
  lemma IndexOfAfter<T>(a: seq<T>, b: seq<T>, x: T)
    requires x !in a && x in b
    ensures x in a + b && IndexOf(a + b, x) == |a| + IndexOf(b, x)
  {
    var s := a + b;
    var i, j := IndexOf(s, x), IndexOf(b, x);
    assert s[|a| + j] == x;
  }

  /** List.remove(Object): drops the first element equal to `x`, if any. */
  function RemoveFirst<T(==)>(s: seq<T>, x: T): (r: seq<T>)
    ensures x !in s ==> r == s
    ensures multiset(r) == multiset(s) - multiset{x}
  {
    if x in s then
      var i := IndexOf(s, x);
      assert s == s[..i] + [x] + s[i + 1..];
      s[..i] + s[i + 1..]
    else
      s
  }

  /** Where `x` occurs, List.remove(x) cuts out exactly its first occurrence. */
  lemma RemoveFirstAt<T>(s: seq<T>, x: T)
    requires x in s
    ensures RemoveFirst(s, x) == s[..IndexOf(s, x)] + s[IndexOf(s, x) + 1..]
  {
  }

  /** `n` successive calls of List.remove(x). */
  function RemoveCopies<T(==,!new)>(s: seq<T>, x: T, n: nat): (r: seq<T>)
    ensures multiset(r)[x] == if multiset(s)[x] <= n then 0 else multiset(s)[x] - n
    ensures forall y :: y != x ==> multiset(r)[y] == multiset(s)[y]
  {
    if n == 0 then s else RemoveFirst(RemoveCopies(s, x, n - 1), x)
  }

  /** Removing copies of a value that is not there changes nothing. */
  lemma {:induction false} RemoveCopiesAbsent<T(!new)>(s: seq<T>, x: T, n: nat)
    requires x !in s
    ensures RemoveCopies(s, x, n) == s
  {
    if n > 0 {
      RemoveCopiesAbsent(s, x, n - 1);
    }
  }

  /** The elements of `s` that satisfy `p`, in their original order (List.removeIf keeps the others). */
  function Filter<T>(s: seq<T>, p: T -> bool): (r: seq<T>)
    ensures forall i :: 0 <= i < |r| ==> r[i] in s && p(r[i])
    ensures forall i :: 0 <= i < |s| && p(s[i]) ==> s[i] in r
    ensures Subsequence(r, s)
    ensures |r| <= |s|
  {
    if s == [] then [] else
    var r' := Filter(s[..|s| - 1], p);
    assert s == s[..|s| - 1] + [s[|s| - 1]];
    if p(s[|s| - 1]) then
      assert (r' + [s[|s| - 1]])[..|r'|] == r';
      r' + [s[|s| - 1]]
    else
      SubsequenceExtend(r', s[..|s| - 1], s[|s| - 1]);
      r'
  }

  /** `r` is obtained from `s` by deleting elements (order is preserved). */
  ghost predicate Subsequence<T>(r: seq<T>, s: seq<T>)
    decreases |s|
  {
    if r == [] then true
    else if s == [] then false
    else if r[|r| - 1] == s[|s| - 1] then Subsequence(r[..|r| - 1], s[..|s| - 1])
    else Subsequence(r, s[..|s| - 1])
  }

  /** Appending an element to `s` keeps `r` a subsequence of it. */
  lemma SubsequenceExtend<T>(r: seq<T>, s: seq<T>, y: T)
    requires Subsequence(r, s)
    ensures Subsequence(r, s + [y])
    decreases |s|, 1
  {
    assert (s + [y])[..|s|] == s;
    if r != [] && r[|r| - 1] == y {
      SubsequenceInitial(r, s);
    }
  }

  /** Dropping the last element of `r` keeps it a subsequence of `s`. */
  lemma SubsequenceInitial<T>(r: seq<T>, s: seq<T>)
    requires r != [] && Subsequence(r, s)
    ensures Subsequence(r[..|r| - 1], s)
    decreases |s|, 0
  {
    var r', s' := r[..|r| - 1], s[..|s| - 1];
    assert s == s' + [s[|s| - 1]];
    if r[|r| - 1] == s[|s| - 1] {
      SubsequenceExtend(r', s', s[|s| - 1]);
    } else {
      SubsequenceInitial(r, s');
      SubsequenceExtend(r', s', s[|s| - 1]);
    }
  }

  predicate NoDuplicates<T(==)>(s: seq<T>)
  {
    forall i, j :: 0 <= i < j < |s| ==> s[i] != s[j]
  }

  /** Keeping some elements of a duplicate-free sequence keeps it duplicate-free. */
  lemma {:induction false} FilterNoDuplicates<T>(s: seq<T>, p: T -> bool)
    requires NoDuplicates(s)
    ensures NoDuplicates(Filter(s, p))
  {
    if s != [] {
      var init := s[..|s| - 1];
      assert s == init + [s[|s| - 1]];
      FilterNoDuplicates(init, p);
    }
  }

  /** List.remove on a duplicate-free sequence takes `x` out entirely. */
  lemma RemoveFirstNoDuplicates<T>(s: seq<T>, x: T)
    requires NoDuplicates(s)
    ensures NoDuplicates(RemoveFirst(s, x)) && x !in RemoveFirst(s, x)
  {
    if x in s {
      var i := IndexOf(s, x);
      assert s == s[..i] + [x] + s[i + 1..];
    }
  }

  predicate Sorted(s: seq<int>)
  {
    forall i, j :: 0 <= i < j < |s| ==> s[i] <= s[j]
  }

  /** Inserts `x` before the first element not smaller than it. */
  function Insert(x: int, s: seq<int>): seq<int>
  {
    if s == [] || x <= s[0] then [x] + s else [s[0]] + Insert(x, s[1..])
  }

  lemma InsertSpec(x: int, s: seq<int>)
    requires Sorted(s)
    ensures Sorted(Insert(x, s))
    ensures multiset(Insert(x, s)) == multiset(s) + multiset{x}
    ensures |Insert(x, s)| == |s| + 1
  {
    InsertSorted(x, s);
    InsertCount(x, s);
  }

  /** Insertion keeps every element and adds `x` once. */
  lemma {:induction false} InsertCount(x: int, s: seq<int>)
    ensures multiset(Insert(x, s)) == multiset(s) + multiset{x}
    ensures |Insert(x, s)| == |s| + 1
  {
    if s != [] && x > s[0] {
      var t := Insert(x, s[1..]);
      InsertCount(x, s[1..]);
      assert Insert(x, s) == [s[0]] + t;
      assert s == [s[0]] + s[1..];
    }
  }

  /** Insertion into an ascending list keeps it ascending. */
  lemma {:induction false} InsertSorted(x: int, s: seq<int>)
    requires Sorted(s)
    ensures Sorted(Insert(x, s))
  {
    if s == [] || x <= s[0] {
      SortedCons(x, s);
    } else {
      var t := Insert(x, s[1..]);
      SortedTail(s);
      InsertSorted(x, s[1..]);
      InsertCount(x, s[1..]);
      BoundedBelow(s[0], x, s[1..], t);
      SortedCons(s[0], t);
    }
  }

  lemma SortedTail(s: seq<int>)
    requires Sorted(s) && s != []
    ensures Sorted(s[1..]) && forall k :: 0 <= k < |s[1..]| ==> s[0] <= s[1..][k]
  {
  }

  lemma SortedCons(h: int, t: seq<int>)
    requires Sorted(t) && forall k :: 0 <= k < |t| ==> h <= t[k]
    ensures Sorted([h] + t)
  {
  }

  lemma BoundedBelow(h: int, x: int, s: seq<int>, t: seq<int>)
    requires h <= x && forall k :: 0 <= k < |s| ==> h <= s[k]
    requires multiset(t) == multiset(s) + multiset{x}
    ensures forall k :: 0 <= k < |t| ==> h <= t[k]
  {
    forall k | 0 <= k < |t| ensures h <= t[k] {
      assert t[k] in multiset(t);
      if t[k] != x {
        assert t[k] in multiset(s);
      }
    }
  }

  /** Collections.sort on a list of ids: insertion sort (its properties are SortSpec). */
  function Sort(s: seq<int>): seq<int>
  {
    if s == [] then [] else Insert(s[0], Sort(s[1..]))
  }

  /** Collections.sort leaves the list ascending and a permutation of what it was. */
  lemma {:induction false} SortSpec(s: seq<int>)
    ensures Sorted(Sort(s))
    ensures multiset(Sort(s)) == multiset(s)
    ensures |Sort(s)| == |s|
  {
    if s != [] {
      SortSpec(s[1..]);
      InsertSpec(s[0], Sort(s[1..]));
      assert s == [s[0]] + s[1..];
    }
  }
  /** Sorting keeps the members. */
  lemma SortMember(l: seq<int>, y: int)
    ensures y in Sort(l) <==> y in l
  {
    SortSpec(l);
    assert y in l <==> multiset(l)[y] > 0;
    assert y in Sort(l) <==> multiset(Sort(l))[y] > 0;
  }

  /** No duplicates exactly when every value occurs at most once. */
  lemma NoDuplicatesCounts<T>(s: seq<T>)
    ensures NoDuplicates(s) <==> forall x :: multiset(s)[x] <= 1
  {
    if NoDuplicates(s) {
      forall x ensures multiset(s)[x] <= 1 {
        if x in s {
          OccursOnce(s, x);
        }
      }
    }
    if forall x :: multiset(s)[x] <= 1 {
      forall i, j | 0 <= i < j < |s| ensures s[i] != s[j] {
        if s[i] == s[j] {
          CountsSeparate(s, i, j);
        }
      }
    }
  }

  lemma OccursOnce<T>(s: seq<T>, x: T)
    requires NoDuplicates(s) && x in s
    ensures multiset(s)[x] == 1
  {
    var i := IndexOf(s, x);
    assert s == s[..i] + [x] + s[i + 1..];
    assert x !in s[i + 1..] by {
      forall k | i + 1 <= k < |s| ensures s[k] != x {
        assert s[i] == x;
      }
    }
    assert multiset(s) == multiset(s[..i]) + multiset{x} + multiset(s[i + 1..]);
  }

  lemma CountsSeparate<T>(s: seq<T>, i: int, j: int)
    requires 0 <= i < j < |s| && s[i] == s[j]
    ensures multiset(s)[s[j]] >= 2
  {
    assert s == s[..j] + [s[j]] + s[j + 1..];
    assert s[..j][i] == s[j];
    assert multiset(s) == multiset(s[..j]) + multiset{s[j]} + multiset(s[j + 1..]);
  }

  lemma SetPickExists(s: set<int>)
    requires s != {}
    ensures exists x :: x in s
  {
    if forall x :: x !in s {
      assert false;
    }
  }

  ghost function SetMinimum(s: set<int>): (m: int)
    requires s != {}
    ensures m in s && forall y :: y in s ==> m <= y
    decreases |s|
  {
    assert exists x :: x in s by {
      SetPickExists(s);
    }
    var x :| x in s;
    if s == {x} then x else
    var m' := SetMinimum(s - {x});
    assert s == (s - {x}) + {x};
    if x < m' then x else m'
  }

  /** The least element of a nonempty set of ids (TreeMap.firstKey). */
  function SetMin(s: set<int>): (m: int)
    requires s != {}
    ensures m in s && forall y :: y in s ==> m <= y
  {
    var _ := SetMinimum(s);
    var m :| m in s && forall y :: y in s ==> m <= y; m
  }

  /** The keys of a TreeMap in iteration order: strictly ascending, each once. */
  function SortedSet(s: set<int>): (r: seq<int>)
    ensures forall x :: x in r <==> x in s
    ensures forall i, j :: 0 <= i < j < |r| ==> r[i] < r[j]
    ensures |r| == |s|
    decreases |s|
  {
    if s == {} then [] else
    var m := SetMin(s);
    var rest := SortedSet(s - {m});
    AscendingCons(m, rest, s - {m});
    [m] + rest
  }

  /** A TreeMap walk starts at the least key and goes on with the others. */
  lemma SortedSetFirst(s: set<int>)
    requires s != {}
    ensures SortedSet(s) == [SetMin(s)] + SortedSet(s - {SetMin(s)})
  {
  }

  lemma PrefixSnoc<T>(s: seq<T>, j: int)
    requires 0 <= j < |s|
    ensures s[..j + 1] == s[..j] + [s[j]]
  {
  }

  lemma ConcatAssoc<T>(a: seq<T>, b: seq<T>, c: seq<T>)
    ensures a + b + c == a + (b + c)
  {
  }

  lemma AscendingCons(m: int, rest: seq<int>, s: set<int>)
    requires forall x :: x in rest <==> x in s
    requires forall i, j :: 0 <= i < j < |rest| ==> rest[i] < rest[j]
    requires forall y :: y in s ==> m < y
    ensures forall i, j :: 0 <= i < j < |[m] + rest| ==> ([m] + rest)[i] < ([m] + rest)[j]
  {
    forall i, j | 0 <= i < j < |[m] + rest| ensures ([m] + rest)[i] < ([m] + rest)[j] {
      assert ([m] + rest)[j] == rest[j - 1];
      if i > 0 {
        assert ([m] + rest)[i] == rest[i - 1];
      } else {
        assert rest[j - 1] in s;
      }
    }
  }

  /** In a strictly ascending sequence no element occurs before its own position. */
  lemma AscendingFresh(ks: seq<int>, i: int)
    requires forall a, b :: 0 <= a < b < |ks| ==> ks[a] < ks[b]
    requires 0 <= i < |ks|
    ensures ks[i] !in ks[..i]
  {
    forall a | 0 <= a < i
      ensures ks[..i][a] != ks[i]
    {
      assert ks[a] < ks[i];
    }
  }

  lemma StrictlySortedNoDuplicates(r: seq<int>)
    requires forall i, j :: 0 <= i < j < |r| ==> r[i] < r[j]
    ensures NoDuplicates(r)
  {
  }
}
