/** Sequences of nodes: sorting (Python's `sorted`), reversal and distinctness. */
module Sequences {
  import opened Graphs

  predicate Ascending(s: seq<Node>)
  {
    forall i, j :: 0 <= i < j < |s| ==> s[i] <= s[j]
  }

  predicate Descending(s: seq<Node>)
  {
    forall i, j :: 0 <= i < j < |s| ==> s[i] >= s[j]
  }

  /** No node occurs twice. */
  predicate Distinct(s: seq<Node>)
  {
    forall i, j :: 0 <= i < j < |s| ==> s[i] != s[j]
  }

  /** Inserts `x` before the first element of `s` that is not below it. */
  function Insert(x: Node, s: seq<Node>): seq<Node>
  {
    if |s| == 0 then [x]
    else if x <= s[0] then [x] + s
    else [s[0]] + Insert(x, s[1..])
  }

  /** Putting a node no greater than any element in front of an ascending
      sequence keeps it ascending. */
  lemma AscendingCons(x: Node, s: seq<Node>)
    requires Ascending(s)
    requires forall k :: 0 <= k < |s| ==> x <= s[k]
    ensures Ascending([x] + s)
  {
    forall i, j | 0 <= i < j < |[x] + s|
      ensures ([x] + s)[i] <= ([x] + s)[j]
    {
      assert ([x] + s)[j] == s[j - 1];
      if i > 0 {
        assert ([x] + s)[i] == s[i - 1];
      }
    }
  }

  /** Inserting adds exactly one occurrence of `x`. */
  lemma {:induction false} InsertPermutes(x: Node, s: seq<Node>)
    ensures multiset(Insert(x, s)) == multiset(s) + multiset{x}
  {
    if |s| > 0 && x > s[0] {
      InsertPermutes(x, s[1..]);
      assert s == [s[0]] + s[1..];
    }
  }

  /** Inserting into an ascending sequence keeps it ascending. */
  lemma {:induction false} InsertSorted(x: Node, s: seq<Node>)
    requires Ascending(s)
    ensures Ascending(Insert(x, s))
  {
    if |s| == 0 {
      assert Insert(x, s) == [x];
    } else if x <= s[0] {
      assert forall k :: 0 <= k < |s| ==> s[0] <= s[k];
      AscendingCons(x, s);
    } else {
      var rest := Insert(x, s[1..]);
      assert Ascending(s[1..]);
      InsertSorted(x, s[1..]);
      InsertPermutes(x, s[1..]);
      forall k | 0 <= k < |rest|
        ensures s[0] <= rest[k]
      {
        assert rest[k] in multiset(rest);
      }
      AscendingCons(s[0], rest);
    }
  }

  /** `sorted(s)`, as insertion sort. */
  function Sort(s: seq<Node>): seq<Node>
  {
    if |s| == 0 then [] else Insert(s[0], Sort(s[1..]))
  }

  /** `Sort` returns an ascending permutation of its input. */
  lemma {:induction false} SortSorts(s: seq<Node>)
    ensures Ascending(Sort(s))
    ensures multiset(Sort(s)) == multiset(s)
  {
    if |s| > 0 {
      SortSorts(s[1..]);
      InsertSorted(s[0], Sort(s[1..]));
      InsertPermutes(s[0], Sort(s[1..]));
      assert s == [s[0]] + s[1..];
    }
  }

  /** Sorting keeps the set of nodes. */
  lemma SortSameElems(s: seq<Node>)
    ensures Elems(Sort(s)) == Elems(s)
  {
    SortSorts(s);
    forall n
      ensures n in Sort(s) <==> n in s
    {
      assert n in Sort(s) <==> n in multiset(Sort(s));
    }
  }

  /** The last node of a descending sequence is its least. */
  lemma DescendingLast(s: seq<Node>)
    requires s != [] && Descending(s)
    ensures forall n :: n in s ==> s[|s| - 1] <= n
  {
    forall n | n in s
      ensures s[|s| - 1] <= n
    {
      var i :| 0 <= i < |s| && s[i] == n;
      assert i == |s| - 1 || s[i] >= s[|s| - 1];
    }
  }

  /** `s[k..]`, and the empty sequence when `k` is past the end. */
  function Drop(s: seq<Node>, k: nat): seq<Node>
  {
    if k <= |s| then s[k..] else []
  }

  /** `s[::-1]`. */
  function Reverse(s: seq<Node>): (r: seq<Node>)
    ensures |r| == |s|
    ensures forall i :: 0 <= i < |s| ==> r[i] == s[|s| - 1 - i]
  {
    if s == [] then [] else Reverse(s[1..]) + [s[0]]
  }

  /** `sorted(s, reverse=True)`. Equal nodes are identical, so reversing the
      ascending order gives the descending one. */
  function SortDesc(s: seq<Node>): seq<Node>
  {
    Reverse(Sort(s))
  }

  /** `SortDesc` returns a descending permutation of its input. */
  lemma SortDescSorts(s: seq<Node>)
    ensures Descending(SortDesc(s))
    ensures multiset(SortDesc(s)) == multiset(s)
  {
    SortSorts(s);
    ReversePermutes(Sort(s));
  }

  lemma {:induction false} ReversePermutes(s: seq<Node>)
    ensures multiset(Reverse(s)) == multiset(s)
  {
    if s != [] {
      ReversePermutes(s[1..]);
      assert s == [s[0]] + s[1..];
    }
  }

  lemma TailMultiset(a: seq<Node>)
    requires a != []
    ensures multiset(a[1..]) == multiset(a) - multiset{a[0]}
    ensures Ascending(a) ==> Ascending(a[1..])
  {
    assert a == [a[0]] + a[1..];
  }

  /** The head of an ascending sequence is its least element. */
  lemma HeadIsLeast(a: seq<Node>, x: Node)
    requires Ascending(a) && x in a
    ensures a[0] <= x
  {
    var i :| 0 <= i < |a| && a[i] == x;
    assert i == 0 || a[0] <= a[i];
  }

  /** Two ascending sequences with the same elements start with the same
      node, their least. */
  lemma SameLeast(a: seq<Node>, b: seq<Node>)
    requires Ascending(a) && Ascending(b)
    requires multiset(a) == multiset(b) && a != []
    ensures b != [] && a[0] == b[0]
  {
    assert a[0] in multiset(b);
    assert b[0] in multiset(a);
    HeadIsLeast(a, b[0]);
    HeadIsLeast(b, a[0]);
  }

  /** Two ascending sequences with the same elements are equal: the sorted
      permutation is unique. */
  lemma {:induction false} SortedUnique(a: seq<Node>, b: seq<Node>)
    requires Ascending(a) && Ascending(b)
    requires multiset(a) == multiset(b)
    ensures a == b
  {
    if a == [] {
      assert |b| == |multiset(b)| == 0;
    } else {
      SameLeast(a, b);
      TailMultiset(a);
      TailMultiset(b);
      SortedUnique(a[1..], b[1..]);
      assert a == [a[0]] + a[1..];
      assert b == [b[0]] + b[1..];
    }
  }

  /** Joining two sequences without repeats and without common nodes gives
      a sequence without repeats. */
  lemma DistinctAppend(a: seq<Node>, b: seq<Node>)
    requires Distinct(a) && Distinct(b)
    requires forall x :: x in b ==> x !in a
    ensures Distinct(a + b)
  {
    forall i, j | 0 <= i < j < |a + b|
      ensures (a + b)[i] != (a + b)[j]
    {
      if i < |a| && j >= |a| {
        assert (a + b)[j] == b[j - |a|];
        assert (a + b)[i] in a;
      }
    }
  }

  /** A sequence without repeats has as many elements as its length. */
  lemma {:induction false} DistinctCard(s: seq<Node>)
    requires Distinct(s)
    ensures |Elems(s)| == |s|
  {
    if s != [] {
      DistinctCard(s[1..]);
      assert Elems(s) == {s[0]} + Elems(s[1..]);
      assert s[0] !in Elems(s[1..]);
    }
  }
}
