/** Integer-sequence helpers shared by the memory manager and the scheduler:
    the list `list(range(n))`, ordering and duplicate-freedom predicates, and
    the sort that stands for Python's in-place `list.sort()`. */
module Seqs {

  /** The list `list(range(n))`: the integers 0 .. n-1 in ascending order. */
  function Range(n: nat): (r: seq<int>)
    ensures |r| == n
    ensures forall i | 0 <= i < n :: r[i] == i
  {
    if n == 0 then [] else Range(n - 1) + [n - 1]
  }

  /** Non-decreasing order, the order `list.sort()` produces. */
  ghost predicate Sorted(s: seq<int>)
  {
    forall i, j | 0 <= i < j < |s| :: s[i] <= s[j]
  }

  /** Strictly increasing order: sorted and without repeats. */
  ghost predicate StrictlyAscending(s: seq<int>)
  {
    forall i, j | 0 <= i < j < |s| :: s[i] < s[j]
  }

  /** Every value occurs at most once. */
  ghost predicate NoDup(s: seq<int>)
  {
    forall x :: multiset(s)[x] <= 1
  }

  /** No value occurs in both sequences. */
  ghost predicate Disjoint(a: seq<int>, b: seq<int>)
  {
    multiset(a) !! multiset(b)
  }

  /** Inserts `x` into a sorted sequence before the first element not below it. */
  function Insert(x: int, s: seq<int>): (r: seq<int>)
    requires Sorted(s)
    ensures Sorted(r)
    ensures multiset(r) == multiset(s) + multiset{x}
  {
    if s == [] || x <= s[0] then
      SortedCons(x, s);
      [x] + s
    else
      var t := Insert(x, s[1..]);
      InsertedAbove(x, s, t);
      assert s == [s[0]] + s[1..];
      [s[0]] + t
  }

  /** Every element of the sorted tail, and `x` itself, lies above the head. */
  lemma InsertedAbove(x: int, s: seq<int>, t: seq<int>)
    requires Sorted(s) && s != [] && s[0] < x
    requires multiset(t) == multiset(s[1..]) + multiset{x}
    ensures Sorted(t) ==> Sorted([s[0]] + t)
  {
    forall y | y in t ensures s[0] <= y {
      assert y in multiset(t);
      if y != x {
        assert y in multiset(s[1..]);
      }
    }
    if Sorted(t) {
      SortedCons(s[0], t);
    }
  }

  /** Prepending a lower bound keeps a sorted list sorted. */
  lemma SortedCons(h: int, t: seq<int>)
    requires Sorted(t)
    requires forall y | y in t :: h <= y
    ensures Sorted([h] + t)
  {
    var r := [h] + t;
    forall i, j | 0 <= i < j < |r| ensures r[i] <= r[j] {
      if i == 0 {
        assert r[j] == t[j-1];
        assert t[j-1] in t;
      }
    }
  }

  /** Ascending sort; any sort of integers gives the same list (see SortedUnique). */
  function Sort(s: seq<int>): (r: seq<int>)
    ensures Sorted(r)
    ensures multiset(r) == multiset(s)
  {
    if s == [] then []
    else
      assert s == [s[0]] + s[1..];
      Insert(s[0], Sort(s[1..]))
  }

  /** Two sorted orderings of the same multiset are the same sequence, so the
      model's Sort agrees with Python's sort on every input. */
  lemma {:induction false} SortedUnique(a: seq<int>, b: seq<int>)
    requires Sorted(a) && Sorted(b)
    requires multiset(a) == multiset(b)
    ensures a == b
  {
    if a == [] {
      assert |b| == |multiset(b)| == 0;
    } else {
      assert b != [] by {
        assert |b| == |multiset(b)| == |multiset(a)| == |a|;
      }
      assert a[0] == b[0] by {
        assert a[0] in multiset(a) && b[0] in multiset(b);
        SortedHeadIsLeast(b, a[0]);
        SortedHeadIsLeast(a, b[0]);
      }
      assert multiset(a[1..]) == multiset(b[1..]) by {
        MultisetOfTail(a);
        MultisetOfTail(b);
      }
      SortedTail(a);
      SortedTail(b);
      SortedUnique(a[1..], b[1..]);
      assert a == [a[0]] + a[1..] && b == [b[0]] + b[1..];
    }
  }

  /** The head of a sorted list is at most any of its elements. */
  lemma SortedHeadIsLeast(s: seq<int>, x: int)
    requires Sorted(s) && x in multiset(s)
    ensures s != [] && s[0] <= x
  {
    assert x in s;
    var j :| 0 <= j < |s| && s[j] == x;
  }

  /** The tail of a sorted list is sorted. */
  lemma SortedTail(s: seq<int>)
    requires Sorted(s) && s != []
    ensures Sorted(s[1..])
  {
    forall i, j | 0 <= i < j < |s| - 1 ensures s[1..][i] <= s[1..][j] {
      assert s[1..][i] == s[i + 1] && s[1..][j] == s[j + 1];
    }
  }

  /** Dropping the head removes one copy of it from the multiset. */
  lemma MultisetOfTail(s: seq<int>)
    requires s != []
    ensures multiset(s[1..]) == multiset(s) - multiset{s[0]}
  {
    assert s == [s[0]] + s[1..];
  }

  /** A sorted list without repeats is strictly ascending. */
  lemma SortedNoDupIsStrict(s: seq<int>)
    requires Sorted(s) && NoDup(s)
    ensures StrictlyAscending(s)
  {
    forall i, j | 0 <= i < j < |s| ensures s[i] < s[j] {
      RepeatCountsTwice(s, i, j);
    }
  }

  /** Two distinct positions holding the same value give that value multiplicity two. */
  lemma RepeatCountsTwice(s: seq<int>, i: nat, j: nat)
    requires i < |s| && j < |s|
    ensures i != j && s[i] == s[j] ==> multiset(s)[s[i]] >= 2
  {
    if i < j {
      RepeatBefore(s, i, j);
    } else if j < i {
      RepeatBefore(s, j, i);
    }
  }

  /** The value at `j` occurs once in `s[j..]` and, when repeated at `i < j`,
      once more in `s[..j]`. */
  lemma RepeatBefore(s: seq<int>, i: nat, j: nat)
    requires i < j < |s|
    ensures s[i] == s[j] ==> multiset(s)[s[j]] >= 2
  {
    var a, b := s[..j], s[j..];
    assert s == a + b;
    assert a[i] == s[i] && b[0] == s[j];
    assert multiset(s) == multiset(a) + multiset(b);
    if s[i] == s[j] {
      assert s[j] in multiset(a) && s[j] in multiset(b);
    }
  }

  /** In a duplicate-free list a value determines its position. */
  lemma NoDupIndex(s: seq<int>, i: nat, j: nat)
    requires NoDup(s) && i < |s| && j < |s|
    requires s[i] == s[j]
    ensures i == j
  {
    RepeatCountsTwice(s, i, j);
  }

  /** A strictly ascending list has no repeats. */
  lemma {:induction false} StrictIsNoDup(s: seq<int>)
    requires StrictlyAscending(s)
    ensures NoDup(s)
  {
    if s != [] {
      var init := s[..|s|-1];
      StrictIsNoDup(init);
      assert s == init + [s[|s|-1]];
      assert s[|s|-1] !in init;
    }
  }

  /** A split of a duplicate-free list has duplicate-free, disjoint halves. */
  lemma NoDupSplit(s: seq<int>, k: nat)
    requires k <= |s|
    requires NoDup(s)
    ensures NoDup(s[..k]) && NoDup(s[k..]) && Disjoint(s[..k], s[k..])
  {
    assert s == s[..k] + s[k..];
    assert multiset(s) == multiset(s[..k]) + multiset(s[k..]);
    forall x ensures multiset(s[..k])[x] + multiset(s[k..])[x] <= 1 {
      assert multiset(s)[x] <= 1;
    }
  }

  /** The concatenation of two duplicate-free, disjoint lists is duplicate-free. */
  lemma NoDupConcat(a: seq<int>, b: seq<int>)
    requires NoDup(a) && NoDup(b) && Disjoint(a, b)
    ensures NoDup(a + b)
  {
    assert multiset(a + b) == multiset(a) + multiset(b);
    forall x ensures multiset(a + b)[x] <= 1 {
      if multiset(a)[x] > 0 {
        assert x in multiset(a);
        assert x !in multiset(b);
      }
    }
  }

  /** The only strictly ascending list whose elements are exactly 0 .. n-1 is Range(n). */
  lemma {:induction false} AscendingCoverIsRange(s: seq<int>, n: nat)
    requires StrictlyAscending(s)
    requires forall x :: x in s <==> 0 <= x < n
    ensures s == Range(n)
  {
    if n == 0 {
      forall x ensures multiset(s)[x] == 0 {
        assert x !in s;
      }
      assert multiset(s) == multiset{};
      assert |s| == |multiset(s)| == 0;
    } else {
      assert n - 1 in s;
      assert s != [];
      var last := s[|s|-1];
      assert last == n - 1 by {
        var j :| 0 <= j < |s| && s[j] == n - 1;
        assert last in s;
        assert s[j] <= last;
      }
      var init := s[..|s|-1];
      assert s == init + [last];
      forall x ensures x in init <==> 0 <= x < n - 1 {
        InitBelowLast(s, x);
      }
      AscendingCoverIsRange(init, n - 1);
    }
  }

  /** Dropping the largest element of a strictly ascending list keeps
      exactly the values below it. */
  lemma InitBelowLast(s: seq<int>, x: int)
    requires StrictlyAscending(s) && s != []
    ensures x in s[..|s|-1] <==> x in s && x < s[|s|-1]
  {
    var init := s[..|s|-1];
    if x in init {
      var j :| 0 <= j < |init| && init[j] == x;
      assert s[j] == x;
    }
    if x in s && x < s[|s|-1] {
      var k :| 0 <= k < |s| && s[k] == x;
      assert k != |s| - 1;
      assert init[k] == x;
    }
  }
}
