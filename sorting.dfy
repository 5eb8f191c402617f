/**
 * Reference definitions for the noise filter: sortedness, a functional
 * insertion sort, the uniqueness of a sorted permutation, and the small
 * sequence facts (extremes, sum, counting) the filter's
 * properties are stated with.
 */
module Sorting {

  /** Non-decreasing order. */
  predicate Sorted(s: seq<int>) {
    forall p, q :: 0 <= p < q < |s| ==> s[p] <= s[q]
  }

  /** Inserts `v` before the first element that is not smaller than it. */
  function Insert(s: seq<int>, v: int): (r: seq<int>)
    ensures |r| == |s| + 1
  {
    if s == [] then [v]
    else if v <= s[0] then [v] + s
    else [s[0]] + Insert(s[1..], v)
  }

  /** Insertion sort, inserting the readings in the order they arrive. */
  function SortedOf(x: seq<int>): (r: seq<int>)
    ensures |r| == |x|
  {
    if x == [] then [] else Insert(SortedOf(x[..|x| - 1]), x[|x| - 1])
  }

  lemma {:induction false} InsertPermutes(s: seq<int>, v: int)
    ensures multiset(Insert(s, v)) == multiset(s) + multiset{v}
    ensures |Insert(s, v)| == |s| + 1
  {
    if s != [] && v > s[0] {
      InsertPermutes(s[1..], v);
      assert s == [s[0]] + s[1..];
    }
  }

  lemma {:induction false} InsertKeepsSorted(s: seq<int>, v: int)
    requires Sorted(s)
    ensures Sorted(Insert(s, v))
    ensures Insert(s, v)[0] == if s == [] || v <= s[0] then v else s[0]
  {
    if s != [] && v > s[0] {
      var rest := Insert(s[1..], v);
      InsertKeepsSorted(s[1..], v);
      assert s[0] <= rest[0];
      var r := [s[0]] + rest;
      forall p, q | 0 <= p < q < |r| ensures r[p] <= r[q] {
        if p == 0 {
          assert r[q] == rest[q - 1] >= rest[0];
        } else {
          assert r[p] == rest[p - 1] && r[q] == rest[q - 1];
        }
      }
    }
  }

  lemma {:induction false} SortedOfIsSortedPermutation(x: seq<int>)
    ensures Sorted(SortedOf(x))
    ensures multiset(SortedOf(x)) == multiset(x)
  {
    if x != [] {
      var init, last := x[..|x| - 1], x[|x| - 1];
      SortedOfIsSortedPermutation(init);
      InsertKeepsSorted(SortedOf(init), last);
      InsertPermutes(SortedOf(init), last);
      assert x == init + [last];
      assert multiset(x) == multiset(init) + multiset{last};
    }
  }

  lemma SortedHeadIsLeast(s: seq<int>, x: int)
    requires Sorted(s) && x in s
    ensures s[0] <= x
  {
    var k :| 0 <= k < |s| && s[k] == x;
  }

  /** A sorted permutation of the readings is the one the reference insertion sort builds. */
  lemma IsSortedOf(a: seq<int>, x: seq<int>)
    requires Sorted(a) && multiset(a) == multiset(x)
    ensures a == SortedOf(x)
  {
    SortedOfIsSortedPermutation(x);
    SortedPermutationUnique(a, SortedOf(x));
  }

  /** Two sorted sequences holding the same multiset of values are equal. */
  lemma {:induction false} SortedPermutationUnique(a: seq<int>, b: seq<int>)
    requires Sorted(a) && Sorted(b)
    requires multiset(a) == multiset(b)
    ensures a == b
  {
    if a == [] {
      assert |multiset(b)| == 0;
    } else {
      assert |b| == |multiset(b)| == |multiset(a)| == |a|;
      assert a[0] in multiset(b) && b[0] in multiset(a);
      SortedHeadIsLeast(b, a[0]);
      SortedHeadIsLeast(a, b[0]);
      assert a == [a[0]] + a[1..];
      assert b == [b[0]] + b[1..];
      assert a[0] == b[0];
      calc {
        multiset(a[1..]);
        multiset(a) - multiset{a[0]};
        multiset(b) - multiset{b[0]};
        multiset(b[1..]);
      }
      SortedPermutationUnique(a[1..], b[1..]);
    }
  }

  /** A non-empty sequence has a least element, at `p`, and a greatest, at `q`. */
  lemma {:induction false} Extremes(s: seq<int>) returns (p: nat, q: nat)
    requires s != []
    ensures p < |s| && q < |s|
    ensures forall k :: 0 <= k < |s| ==> s[p] <= s[k] <= s[q]
  {
    if |s| == 1 {
      p, q := 0, 0;
    } else {
      var p', q' := Extremes(s[..|s| - 1]);
      p := if s[|s| - 1] < s[p'] then |s| - 1 else p';
      q := if s[|s| - 1] > s[q'] then |s| - 1 else q';
      assert forall k :: 0 <= k < |s| - 1 ==> s[k] == s[..|s| - 1][k];
    }
  }

  /** Sum, accumulated from the first element to the last. */
  function Sum(s: seq<int>): (total: int) {
    if s == [] then 0 else Sum(s[..|s| - 1]) + s[|s| - 1]
  }

  lemma {:induction false} SumBounds(s: seq<int>, lo: int, hi: int)
    requires forall k :: 0 <= k < |s| ==> lo <= s[k] <= hi
    ensures |s| * lo <= Sum(s) <= |s| * hi
  {
    if s != [] {
      SumBounds(s[..|s| - 1], lo, hi);
      assert (|s| - 1) * lo + lo == |s| * lo;
      assert (|s| - 1) * hi + hi == |s| * hi;
    }
  }

  /** Number of elements satisfying `p`. */
  function Count(s: seq<int>, p: int -> bool): (n: nat) {
    if s == [] then 0 else (if p(s[0]) then 1 else 0) + Count(s[1..], p)
  }

  function Below(t: int): (p: int -> bool) { v => v < t }

  function Above(t: int): (p: int -> bool) { v => v > t }

  lemma {:induction false} CountAppend(a: seq<int>, b: seq<int>, p: int -> bool)
    ensures Count(a + b, p) == Count(a, p) + Count(b, p)
  {
    if a != [] {
      assert (a + b)[0] == a[0];
      assert (a + b)[1..] == a[1..] + b;
      CountAppend(a[1..], b, p);
      calc {
        Count(a + b, p);
        (if p(a[0]) then 1 else 0) + Count(a[1..] + b, p);
        (if p(a[0]) then 1 else 0) + Count(a[1..], p) + Count(b, p);
      }
    } else {
      assert a + b == b;
    }
  }

  lemma {:induction false} CountAll(s: seq<int>, p: int -> bool)
    requires forall k :: 0 <= k < |s| ==> p(s[k])
    ensures Count(s, p) == |s|
  {
    if s != [] {
      CountAll(s[1..], p);
    }
  }

  lemma {:induction false} CountNone(s: seq<int>, p: int -> bool)
    requires forall k :: 0 <= k < |s| ==> !p(s[k])
    ensures Count(s, p) == 0
  {
    if s != [] {
      CountNone(s[1..], p);
    }
  }

  /** Removing the element at `k` lowers the count by one exactly when it satisfies `p`. */
  lemma CountRemove(b: seq<int>, k: int, p: int -> bool)
    requires 0 <= k < |b|
    ensures Count(b, p) == Count(b[..k] + b[k + 1..], p) + (if p(b[k]) then 1 else 0)
  {
    assert b == b[..k] + ([b[k]] + b[k + 1..]);
    CountAppend(b[..k], [b[k]] + b[k + 1..], p);
    CountAppend([b[k]], b[k + 1..], p);
    CountAppend(b[..k], b[k + 1..], p);
    assert [b[k]][1..] == [];
  }

  /** Counting does not depend on the order of the elements. */
  lemma {:induction false} CountPermutation(a: seq<int>, b: seq<int>, p: int -> bool)
    requires multiset(a) == multiset(b)
    ensures Count(a, p) == Count(b, p)
  {
    if a == [] {
      assert |multiset(b)| == 0;
    } else {
      assert a[0] in multiset(b);
      var k :| 0 <= k < |b| && b[k] == a[0];
      var b' := b[..k] + b[k + 1..];
      assert b == b[..k] + [b[k]] + b[k + 1..];
      assert a == [a[0]] + a[1..];
      calc {
        multiset(a[1..]);
        multiset(a) - multiset{a[0]};
        multiset(b) - multiset{b[k]};
        multiset(b[..k]) + multiset(b[k + 1..]);
        multiset(b');
      }
      CountPermutation(a[1..], b', p);
      CountRemove(b, k, p);
    }
  }

  /** In a sorted sequence, an element below `t` at rank `p` has at least `p + 1` elements below `t`. */
  lemma RankBelow(s: seq<int>, p: int, t: int)
    requires Sorted(s) && 0 <= p < |s| && s[p] < t
    ensures Count(s, Below(t)) >= p + 1
  {
    assert s == s[..p + 1] + s[p + 1..];
    CountAppend(s[..p + 1], s[p + 1..], Below(t));
    CountAll(s[..p + 1], Below(t));
  }

  /** In a sorted sequence, an element above `t` at rank `p` has at least `|s| - p` elements above `t`. */
  lemma RankAbove(s: seq<int>, p: int, t: int)
    requires Sorted(s) && 0 <= p < |s| && s[p] > t
    ensures Count(s, Above(t)) >= |s| - p
  {
    assert s == s[..p] + s[p..];
    CountAppend(s[..p], s[p..], Above(t));
    CountAll(s[p..], Above(t));
  }
}
