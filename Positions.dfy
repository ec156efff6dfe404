/**
 * Lists of entry positions, as the lookup treats them: sorting them
 * (the library sort the lookup calls), removing adjacent duplicates
 * (duplicatesEliminate) and the facts that make the two together yield
 * each distinct position once, in ascending order.
 */
module Positions {

  predicate Sorted(s: seq<int>)
  {
    forall i, j :: 0 <= i < j < |s| ==> s[i] <= s[j]
  }

  predicate StrictlyIncreasing(s: seq<int>)
  {
    forall i, j :: 0 <= i < j < |s| ==> s[i] < s[j]
  }

  /** Every element is a valid index into a list of length `n`. */
  predicate InRange(s: seq<int>, n: int)
  {
    forall i :: 0 <= i < |s| ==> 0 <= s[i] < n
  }

  /** A strictly increasing list stays so when a value above all its elements is appended. */
  lemma StrictlySnoc(s: seq<int>, x: int)
    requires StrictlyIncreasing(s) && InRange(s, x) && 0 <= x
    ensures StrictlyIncreasing(s + [x])
    ensures InRange(s + [x], x + 1)
  {
  }

  /** `c` copies of `x`. */
  function Repeat(x: int, c: nat): seq<int>
  {
    seq(c, _ => x)
  }

  lemma RepeatCount(x: int, c: nat, y: int)
    ensures multiset(Repeat(x, c))[y] == if x == y then c else 0
    decreases c
  {
    if c > 0 {
      assert Repeat(x, c) == [x] + Repeat(x, c - 1);
      RepeatCount(x, c - 1, y);
    }
  }

  // ---------------------------------------------------------------------
  // Sorting: a reference definition and the in-place sort the lookup runs
  // ---------------------------------------------------------------------

  /** `x` put into the sorted list `s` at its place. */
  function Insert(x: int, s: seq<int>): (r: seq<int>)
    requires Sorted(s)
    ensures Sorted(r)
    ensures multiset(r) == multiset(s) + multiset{x}
    ensures |r| == |s| + 1 && (r[0] == x || (s != [] && r[0] == s[0]))
  {
    if s == [] || x <= s[0] then [x] + s
    else
      assert s == [s[0]] + s[1..];
      [s[0]] + Insert(x, s[1..])
  }

  /** The ascending arrangement of `s`. */
  function SortedOf(s: seq<int>): (r: seq<int>)
    ensures Sorted(r)
    ensures multiset(r) == multiset(s)
  {
    if s == [] then []
    else
      assert s == [s[0]] + s[1..];
      Insert(s[0], SortedOf(s[1..]))
  }

  /** Lists with the same elements counted with multiplicity have the same members. */
  lemma SameMembers(a: seq<int>, b: seq<int>)
    requires multiset(a) == multiset(b)
    ensures forall x :: x in a <==> x in b
  {
    forall x
      ensures x in a <==> x in b
    {
      assert x in a <==> x in multiset(a);
      assert x in b <==> x in multiset(b);
    }
  }

  /** Two sorted lists with the same elements, counted with multiplicity, are equal. */
  lemma {:induction false} SortedUnique(a: seq<int>, b: seq<int>)
    requires Sorted(a) && Sorted(b)
    requires multiset(a) == multiset(b)
    ensures a == b
    decreases |a|
  {
    assert |b| == |a| by { assert |multiset(a)| == |multiset(b)|; }
    if a != [] {
      SameHead(a, b);
      SameTail(a, b);
      SortedUnique(a[1..], b[1..]);
      assert a == [a[0]] + a[1..] && b == [b[0]] + b[1..];
    }
  }

  lemma SameHead(a: seq<int>, b: seq<int>)
    requires Sorted(a) && Sorted(b)
    requires multiset(a) == multiset(b) && a != [] && b != []
    ensures a[0] == b[0]
  {
    SameMembers(a, b);
    assert a[0] in a && b[0] in b;
    var j :| 0 <= j < |b| && b[j] == a[0];
    var k :| 0 <= k < |a| && a[k] == b[0];
    assert b[0] <= b[j] && a[0] <= a[k];
  }

  lemma SameTail(a: seq<int>, b: seq<int>)
    requires multiset(a) == multiset(b) && a != [] && b != [] && a[0] == b[0]
    ensures multiset(a[1..]) == multiset(b[1..])
  {
    assert a == [a[0]] + a[1..];
    assert b == [b[0]] + b[1..];
    assert multiset(a[1..]) == multiset(a) - multiset{a[0]};
    assert multiset(b[1..]) == multiset(b) - multiset{b[0]};
  }

  /** Sorting an already sorted list changes nothing. */
  lemma SortedOfSorted(s: seq<int>)
    requires Sorted(s)
    ensures SortedOf(s) == s
  {
    SortedUnique(SortedOf(s), s);
  }

  /** Ascending sort, in place (stands for the library's integer sort). */
  method SortInts(a: array<int>)
    modifies a
    ensures Sorted(a[..])
    ensures multiset(a[..]) == old(multiset(a[..]))
    ensures a[..] == SortedOf(old(a[..]))
  {
    for i := 0 to a.Length
      invariant forall p, q :: 0 <= p < q < i ==> a[p] <= a[q]
      invariant multiset(a[..]) == old(multiset(a[..]))
    {
      SiftDown(a, i);
    }
    SortedUnique(a[..], SortedOf(old(a[..])));
  }

  /** Moves `a[i]` down into the sorted prefix `a[..i]`, extending it by one. */
  method SiftDown(a: array<int>, i: nat)
    requires i < a.Length
    requires forall p, q :: 0 <= p < q < i ==> a[p] <= a[q]
    modifies a
    ensures forall p, q :: 0 <= p < q <= i ==> a[p] <= a[q]
    ensures a[i + 1..] == old(a[i + 1..])
    ensures multiset(a[..]) == old(multiset(a[..]))
  {
    var j := i;
    while j > 0 && a[j - 1] > a[j]
      invariant 0 <= j <= i
      invariant forall p, q :: 0 <= p < q <= i && p != j && q != j ==> a[p] <= a[q]
      invariant forall q :: j < q <= i ==> a[j] <= a[q]
      invariant a[i + 1..] == old(a[i + 1..])
      invariant multiset(a[..]) == old(multiset(a[..]))
    {
      Swap(a, j - 1, j);
      j := j - 1;
    }
  }

  method Swap(a: array<int>, i: nat, j: nat)
    requires i < j < a.Length
    modifies a
    ensures a[i] == old(a[j]) && a[j] == old(a[i])
    ensures forall k :: 0 <= k < a.Length && k != i && k != j ==> a[k] == old(a[k])
    ensures multiset(a[..]) == old(multiset(a[..]))
  {
    a[i], a[j] := a[j], a[i];
  }

  // ---------------------------------------------------------------------
  // Removing adjacent duplicates
  // ---------------------------------------------------------------------

  /**
   * `s` without the elements equal to the one kept just before them;
   * `last` is the value taken as kept before `s[0]`.
   */
  function Dedup(s: seq<int>, last: int): (r: seq<int>)
    ensures |r| <= |s|
    ensures r != [] ==> r[0] != last
    ensures forall i :: 0 <= i < |r| - 1 ==> r[i] != r[i + 1]
    ensures forall x :: x in r ==> x in s
  {
    if s == [] then []
    else if s[0] != last then [s[0]] + Dedup(s[1..], s[0])
    else Dedup(s[1..], last)
  }

  /** The last element of `s`, or `last` when `s` is empty. */
  function LastOr(s: seq<int>, last: int): int
  {
    if s == [] then last else s[|s| - 1]
  }

  /**
   * On a sorted list with nothing below `last`, removing adjacent
   * duplicates leaves each distinct value other than `last` exactly once,
   * in ascending order.
   */
  lemma {:induction false} DedupOfSorted(s: seq<int>, last: int)
    requires Sorted(s)
    requires forall i :: 0 <= i < |s| ==> last <= s[i]
    ensures StrictlyIncreasing(Dedup(s, last))
    ensures forall i :: 0 <= i < |Dedup(s, last)| ==> last < Dedup(s, last)[i]
    ensures forall x :: x in Dedup(s, last) <==> x in s && x != last
  {
    if s != [] {
      var rest := s[1..];
      assert s == [s[0]] + rest;
      if s[0] != last {
        DedupOfSorted(rest, s[0]);
      } else {
        DedupOfSorted(rest, last);
      }
    }
  }

  /** Removing adjacent duplicates works piecewise over a concatenation. */
  lemma {:induction false} DedupAppend(a: seq<int>, b: seq<int>, last: int)
    ensures Dedup(a + b, last) == Dedup(a, last) + Dedup(b, LastOr(a, last))
    decreases |a|
  {
    if a == [] {
      assert a + b == b;
    } else {
      assert (a + b)[0] == a[0] && (a + b)[1..] == a[1..] + b;
      if a[0] != last {
        DedupAppend(a[1..], b, a[0]);
      } else {
        DedupAppend(a[1..], b, last);
      }
      assert LastOr(a[1..], if a[0] != last then a[0] else last) == LastOr(a, last);
    }
  }

  /** A run of `c` copies of `x` collapses to one `x`, or to nothing after an `x`. */
  lemma {:induction false} DedupRepeat(x: int, c: nat, last: int)
    ensures Dedup(Repeat(x, c), last) == if c > 0 && x != last then [x] else []
    decreases c
  {
    if c > 0 {
      assert Repeat(x, c)[1..] == Repeat(x, c - 1);
      DedupRepeat(x, c - 1, x);
      if x == last {
        DedupRepeat(x, c - 1, last);
      }
    }
  }

  /**
   * duplicatesEliminate: keeps each element that differs from the one
   * kept before it, starting from -1.
   */
  method DuplicatesEliminate(list: seq<int>) returns (newList: seq<int>)
    ensures newList == Dedup(list, -1)
    ensures |newList| <= |list|
    ensures Sorted(list) && (forall i :: 0 <= i < |list| ==> 0 <= list[i]) ==>
              StrictlyIncreasing(newList) && (forall x :: x in newList <==> x in list)
  {
    newList := [];
    var currentValue := -1;
    for i := 0 to |list|
      invariant newList + Dedup(list[i..], currentValue) == Dedup(list, -1)
    {
      var value := list[i];
      DedupStep(list, i, currentValue);
      if currentValue != value {
        newList := newList + [value];
        currentValue := value;
      }
    }
    assert list[|list|..] == [];
    if Sorted(list) && (forall i :: 0 <= i < |list| ==> 0 <= list[i]) {
      DedupOfSorted(list, -1);
    }
  }

  /** One step of removing adjacent duplicates from the suffix `s[i..]`. */
  lemma DedupStep(s: seq<int>, i: nat, last: int)
    requires i < |s|
    ensures Dedup(s[i..], last) ==
            if s[i] != last then [s[i]] + Dedup(s[i + 1..], s[i]) else Dedup(s[i + 1..], last)
  {
    assert s[i..][1..] == s[i + 1..];
  }

  /** The distinct elements of `s`, ascending: sort, then remove adjacent duplicates. */
  function Distinct(s: seq<int>): (r: seq<int>)
    ensures forall x :: x in r ==> x in s
  {
    var sorted := SortedOf(s);
    SameMembers(sorted, s);
    Dedup(sorted, -1)
  }

  lemma SortedInRange(s: seq<int>, n: int)
    requires InRange(s, n)
    ensures InRange(SortedOf(s), n)
  {
    var sorted := SortedOf(s);
    SameMembers(sorted, s);
    assert forall i :: 0 <= i < |sorted| ==> sorted[i] in s;
  }

  lemma DistinctInRange(s: seq<int>, n: int)
    requires InRange(s, n)
    ensures InRange(Distinct(s), n)
  {
    var d := Distinct(s);
    assert forall i :: 0 <= i < |d| ==> d[i] in s;
  }

  /** For non-negative lists, Distinct lists each element exactly once, in ascending order. */
  lemma DistinctSpec(s: seq<int>)
    requires forall i :: 0 <= i < |s| ==> 0 <= s[i]
    ensures StrictlyIncreasing(Distinct(s))
    ensures forall x :: x in Distinct(s) <==> x in s
  {
    var sorted := SortedOf(s);
    SameMembers(sorted, s);
    assert forall i :: 0 <= i < |sorted| ==> sorted[i] in s;
    DedupOfSorted(sorted, -1);
  }
}
