/** qsort: quicksort with an explicit stack of ranges, the larger part pushed and the smaller done at once. */
module Qsort {
  import opened Arith

  const DEPTH: nat := 64
  const TWO64: nat := 0x1_0000_0000_0000_0000

  /** x may stand before y: the comparison does not put y strictly before x. */
  predicate Le<T>(cmp: (T, T) -> int, x: T, y: T) { cmp(y, x) >= 0 }

  ghost predicate Preorder<T(!new)>(cmp: (T, T) -> int) {
    && (forall x, y :: Le(cmp, x, y) || Le(cmp, y, x))
    && (forall x, y, z :: Le(cmp, x, y) && Le(cmp, y, z) ==> Le(cmp, x, z))
  }

  ghost predicate Sorted<T(!new)>(cmp: (T, T) -> int, s: seq<T>) {
    forall p, q :: 0 <= p < q < |s| ==> Le(cmp, s[p], s[q])
  }

  /** A range still to be sorted, the end exclusive. */
  datatype Range = Range(lo: nat, end: nat)

  predicate Has(r: Range, p: int) { r.lo <= p < r.end }

  ghost predicate Together(rs: seq<Range>, p: int, q: int) { exists k :: 0 <= k < |rs| && Has(rs[k], p) && Has(rs[k], q) }

  /** Any two places are in order unless one range still holds both. */
  ghost predicate Ordered<T(!new)>(cmp: (T, T) -> int, s: seq<T>, rs: seq<Range>) {
    forall p, q :: 0 <= p < q < |s| ==> Le(cmp, s[p], s[q]) || Together(rs, p, q)
  }

  /** Pending ranges do not overlap. */
  ghost predicate Disjoint(rs: seq<Range>) {
    forall k, l, p :: 0 <= k < |rs| && 0 <= l < |rs| && Has(rs[k], p) && Has(rs[l], p) ==> k == l
  }

  function Swapped<T>(s: seq<T>, i: nat, j: nat): seq<T>
    requires i < |s| && j < |s|
  { s[i := s[j]][j := s[i]] }

  function Other(i: nat, j: nat, p: int): int { if p == i then j else if p == j then i else p }

  /** Exchanging two elements of one range keeps the order between ranges. */
  lemma SwapOrdered<T(!new)>(cmp: (T, T) -> int, s: seq<T>, rs: seq<Range>, k: nat, i: nat, j: nat)
    requires Ordered(cmp, s, rs) && Disjoint(rs) && k < |rs| && Has(rs[k], i) && Has(rs[k], j) && i < |s| && j < |s|
    ensures Ordered(cmp, Swapped(s, i, j), rs)
  {
    var t := Swapped(s, i, j);
    forall p, q | 0 <= p < q < |t| && !Together(rs, p, q) ensures Le(cmp, t[p], t[q]) {
      SwapPair(rs, k, i, j, p, q);
      var x, y := Other(i, j, p), Other(i, j, q);
      assert t[p] == s[x] && t[q] == s[y];
    }
  }

  lemma SwapPair(rs: seq<Range>, k: nat, i: nat, j: nat, p: int, q: int)
    requires Disjoint(rs) && k < |rs| && Has(rs[k], i) && Has(rs[k], j) && p < q && !Together(rs, p, q)
    ensures Other(i, j, p) < Other(i, j, q) && !Together(rs, Other(i, j, p), Other(i, j, q))
  {
    var x, y := Other(i, j, p), Other(i, j, q);
    assert Has(rs[k], p) <==> Has(rs[k], x);
    assert Has(rs[k], q) <==> Has(rs[k], y);
    assert !(Has(rs[k], p) && Has(rs[k], q));
    if l :| 0 <= l < |rs| && Has(rs[l], x) && Has(rs[l], y) {
      if l != k {
        assert !Has(rs[k], x) && !Has(rs[k], y);
        assert x == p && y == q;
      }
    }
  }

  lemma SwapMultiset<T>(s: seq<T>, i: nat, j: nat)
    requires i < |s| && j < |s|
    ensures multiset(Swapped(s, i, j)) == multiset(s)
  {}

  /** The last range split at a place that bounds both parts. */
  lemma SplitOrdered<T(!new)>(cmp: (T, T) -> int, s: seq<T>, rs: seq<Range>, lo: nat, i: nat, end: nat)
    requires Preorder(cmp) && Ordered(cmp, s, rs + [Range(lo, end)]) && lo <= i < end <= |s|
    requires forall p :: lo <= p < i ==> Le(cmp, s[p], s[i])
    requires forall p :: i < p < end ==> Le(cmp, s[i], s[p])
    ensures Ordered(cmp, s, rs + [Range(lo, i)] + [Range(i + 1, end)])
    ensures Ordered(cmp, s, rs + [Range(i + 1, end)] + [Range(lo, i)])
  {
    var r0, r1, r2 := rs + [Range(lo, end)], rs + [Range(lo, i)] + [Range(i + 1, end)], rs + [Range(i + 1, end)] + [Range(lo, i)];
    forall p, q | 0 <= p < q < |s| && !Le(cmp, s[p], s[q]) ensures Together(r1, p, q) && Together(r2, p, q) {
      var k :| 0 <= k < |r0| && Has(r0[k], p) && Has(r0[k], q);
      if k < |rs| {
        assert r1[k] == r0[k] && r2[k] == r0[k];
      } else {
        assert q < i || p > i;
        assert Has(r1[if q < i then |rs| else |rs| + 1], p) && Has(r1[if q < i then |rs| else |rs| + 1], q);
        assert Has(r2[if q < i then |rs| + 1 else |rs|], p) && Has(r2[if q < i then |rs| + 1 else |rs|], q);
      }
    }
  }

  /** A range of at most one place keeps nothing together. */
  lemma SmallDropped<T(!new)>(cmp: (T, T) -> int, s: seq<T>, rs: seq<Range>, r: Range, more: seq<Range>)
    requires Ordered(cmp, s, rs + [r] + more) && r.end <= r.lo + 1
    ensures Ordered(cmp, s, rs + more)
  {
    var r0, r1 := rs + [r] + more, rs + more;
    forall p, q | 0 <= p < q < |s| && !Le(cmp, s[p], s[q]) ensures Together(r1, p, q) {
      var k :| 0 <= k < |r0| && Has(r0[k], p) && Has(r0[k], q);
      assert r1[if k < |rs| then k else k - 1] == r0[k];
    }
  }

  lemma DisjointSub(rs: seq<Range>, lo: nat, end: nat, a: Range, b: Range)
    requires Disjoint(rs + [Range(lo, end)]) && lo <= a.lo && a.end <= end && lo <= b.lo && b.end <= end && (a.end <= b.lo || b.end <= a.lo)
    ensures Disjoint(rs + [a] + [b]) && Disjoint(rs + [a]) && Disjoint(rs + [b]) && Disjoint(rs)
  {
    var r0, r1 := rs + [Range(lo, end)], rs + [a] + [b];
    forall k, l, p | 0 <= k < |r1| && 0 <= l < |r1| && Has(r1[k], p) && Has(r1[l], p) ensures k == l {
      var x, y := if k < |rs| then k else |rs|, if l < |rs| then l else |rs|;
      assert Has(r0[x], p) && Has(r0[y], p);
    }
    assert forall k :: 0 <= k < |rs| ==> r1[k] == rs[k];
    forall k, l, p | 0 <= k < |rs| + 1 && 0 <= l < |rs| + 1 && Has((rs + [b])[k], p) && Has((rs + [b])[l], p) ensures k == l {
      assert Has(r1[if k < |rs| then k else |rs| + 1], p) && Has(r1[if l < |rs| then l else |rs| + 1], p);
    }
    forall k, l, p | 0 <= k < |rs| + 1 && 0 <= l < |rs| + 1 && Has((rs + [a])[k], p) && Has((rs + [a])[l], p) ensures k == l {
      assert Has(r1[k], p) && Has(r1[l], p);
    }
  }

  // ---------- The depth of the stack ----------

  function Pow(k: nat): nat { if k == 0 then 1 else 2 * Pow(k - 1) }

  lemma {:induction false} PowSmall(k: nat)
    requires 2 * Pow(k) < TWO64
    ensures k < 63
    decreases k
  {
    if k >= 63 { PowGrows(63, k); assert Pow(63) == 0x8000_0000_0000_0000 by { Pow63(); } }
  }

  lemma {:induction false} PowGrows(j: nat, k: nat)
    requires j <= k
    ensures Pow(j) <= Pow(k)
    decreases k
  { if j < k { PowGrows(j, k - 1); } }

  lemma PowSum(a: nat, b: nat)
    ensures Pow(a + b) == Pow(a) * Pow(b)
    decreases b
  { if b > 0 { PowSum(a, b - 1); } }

  lemma Pow63()
    ensures Pow(63) == 0x8000_0000_0000_0000
  {
    assert Pow(8) == 256;
    PowSum(8, 8);
    PowSum(16, 16);
    PowSum(32, 16);
    PowSum(48, 8);
    assert Pow(7) == 128;
    PowSum(56, 7);
  }

  /** Entry k of the stack holds at least two and at most n / 2^k elements. */
  ghost predicate Halving(rs: seq<Range>, n: nat) {
    forall k: nat :: k < |rs| ==> rs[k].lo + 2 <= rs[k].end <= n && (rs[k].end - rs[k].lo) * Pow(k) <= n
  }

  lemma HalvingPush(rs: seq<Range>, n: nat, r: Range)
    requires Halving(rs, n) && r.lo + 2 <= r.end <= n && (r.end - r.lo) * Pow(|rs|) <= n < TWO64
    ensures Halving(rs + [r], n) && |rs| < 63
  {
    MulLe(2, r.end - r.lo, Pow(|rs|));
    PowSmall(|rs|);
  }

  function Sizes(rs: seq<Range>): nat {
    if rs == [] then 0 else Sizes(rs[..|rs| - 1]) + if rs[|rs| - 1].end > rs[|rs| - 1].lo then rs[|rs| - 1].end - rs[|rs| - 1].lo else 0
  }

  lemma SizesPush(rs: seq<Range>, r: Range)
    ensures Sizes(rs + [r]) == Sizes(rs) + if r.end > r.lo then r.end - r.lo else 0
  { assert (rs + [r])[..|rs|] == rs; }

  // ---------- The algorithm ----------

  method Swap<T>(a: array<T>, i: nat, j: nat)
    requires i < a.Length && j < a.Length
    modifies a
    ensures a[..] == Swapped(old(a[..]), i, j) && multiset(a[..]) == multiset(old(a[..]))
  {
    SwapMultiset(a[..], i, j);
    ghost var s := a[..];
    a[i], a[j] := a[j], a[i];
    assert a[..] == Swapped(s, i, j);
  }

  lemma Strict<T(!new)>(cmp: (T, T) -> int, x: T, y: T)
    requires Preorder(cmp)
    ensures if cmp(x, y) < 0 then Le(cmp, x, y) else Le(cmp, y, x)
  { assert Le(cmp, x, y) || Le(cmp, y, x); }

  /** p is the middle one of three elements. */
  ghost predicate MedianOf<T(!new)>(cmp: (T, T) -> int, p: T, x: T, y: T, z: T) {
    || (p == x && Between(cmp, y, x, z)) || (p == y && Between(cmp, x, y, z)) || (p == z && Between(cmp, x, z, y))
  }

  predicate Between<T>(cmp: (T, T) -> int, x: T, p: T, y: T) { (Le(cmp, x, p) && Le(cmp, p, y)) || (Le(cmp, y, p) && Le(cmp, p, x)) }

  /** What the three comparisons make of the first, middle and last elements. */
  lemma ThreeCompared<T(!new)>(cmp: (T, T) -> int, x: T, y: T, z: T, l1: T, m1: T, l2: T, h2: T, h3: T)
    requires Preorder(cmp)
    requires if cmp(y, x) < 0 then l1 == y && m1 == x else l1 == x && m1 == y
    requires if cmp(z, l1) < 0 then l2 == z && h2 == l1 else l2 == l1 && h2 == z
    requires h3 == if cmp(m1, h2) < 0 then m1 else h2
    ensures MedianOf(cmp, h3, x, y, z)
  {
    hide Preorder, Le;
    Strict(cmp, y, x);
    Strict(cmp, z, l1);
    Strict(cmp, m1, h2);
    Through(cmp, l2, l1, m1);
    Through(cmp, l2, l1, h2);
  }

  lemma Through<T(!new)>(cmp: (T, T) -> int, x: T, y: T, z: T)
    requires Preorder(cmp)
    ensures Le(cmp, x, y) && Le(cmp, y, z) ==> Le(cmp, x, z)
  {}

  /** The median of the first, middle and last elements goes to the end. */
  method MedianToEnd<T(!new)>(a: array<T>, cmp: (T, T) -> int, lo: nat, hi: nat, ghost all: seq<Range>, ghost k: nat)
    requires Preorder(cmp)
    requires lo < hi < a.Length && k < |all| && all[k] == Range(lo, hi + 1) && Ordered(cmp, a[..], all) && Disjoint(all)
    modifies a
    ensures Ordered(cmp, a[..], all) && multiset(a[..]) == multiset(old(a[..]))
    ensures hi - lo >= 2 ==> MedianOf(cmp, a[hi], old(a[lo]), old(a[lo + (hi - lo) / 2]), old(a[hi]))
  {
    hide Ordered, Disjoint, Swapped, Preorder, MedianOf;
    var mid := lo + (hi - lo) / 2;
    ghost var x, y, z := a[lo], a[mid], a[hi];
    if cmp(a[mid], a[lo]) < 0 { SwapIn(a, cmp, mid, lo, all, k); }
    ghost var l1, m1 := a[lo], a[mid];
    if cmp(a[hi], a[lo]) < 0 { SwapIn(a, cmp, hi, lo, all, k); }
    ghost var l2, h2 := a[lo], a[hi];
    if cmp(a[mid], a[hi]) < 0 { SwapIn(a, cmp, mid, hi, all, k); }
    if lo < mid { ThreeCompared(cmp, x, y, z, l1, m1, l2, h2, a[hi]); }
  }

  /** A swap inside a pending range. */
  method SwapIn<T(!new)>(a: array<T>, cmp: (T, T) -> int, i: nat, j: nat, ghost all: seq<Range>, ghost k: nat)
    requires i < a.Length && j < a.Length && k < |all| && Has(all[k], i) && Has(all[k], j) && Ordered(cmp, a[..], all) && Disjoint(all)
    modifies a
    ensures Ordered(cmp, a[..], all) && multiset(a[..]) == multiset(old(a[..]))
    ensures a[i] == old(a[j]) && a[j] == old(a[i]) && forall p :: 0 <= p < a.Length && p != i && p != j ==> a[p] == old(a[p])
  {
    hide Ordered, Disjoint, Swapped;
    SwapOrdered(cmp, a[..], all, k, i, j);
    ghost var s := a[..];
    Swap(a, i, j);
    SwapAt(s, a[..], i, j);
  }

  /** Median of three to the end of the range, then a Lomuto partition around it. */
  method Partition<T(!new)>(a: array<T>, cmp: (T, T) -> int, lo: nat, hi: nat, ghost rs: seq<Range>) returns (i: nat)
    requires Preorder(cmp) && lo < hi < a.Length
    requires Ordered(cmp, a[..], rs + [Range(lo, hi + 1)]) && Disjoint(rs + [Range(lo, hi + 1)])
    modifies a
    ensures lo <= i <= hi && multiset(a[..]) == multiset(old(a[..]))
    ensures Ordered(cmp, a[..], rs + [Range(lo, hi + 1)])
    ensures forall p :: lo <= p < i ==> Le(cmp, a[p], a[i])
    ensures forall p :: i < p <= hi ==> Le(cmp, a[i], a[p])
    ensures hi - lo >= 2 ==> MedianOf(cmp, a[i], old(a[lo]), old(a[lo + (hi - lo) / 2]), old(a[hi]))
  {
    hide Ordered, Disjoint, Swapped, Preorder, Le, MedianOf;
    ghost var all, k := rs + [Range(lo, hi + 1)], |rs|;
    assert all[k] == Range(lo, hi + 1);
    MedianToEnd(a, cmp, lo, hi, all, k);
    ghost var pivot := a[hi];
    i := lo;
    var j := lo;
    while j < hi
      invariant lo <= i <= j <= hi && multiset(a[..]) == multiset(old(a[..])) && Ordered(cmp, a[..], all) && a[hi] == pivot
      invariant forall p :: lo <= p < i ==> Le(cmp, a[p], a[hi])
      invariant forall p :: i <= p < j ==> Le(cmp, a[hi], a[p])
    {
      Strict(cmp, a[j], a[hi]);
      if cmp(a[j], a[hi]) < 0 {
        SwapIn(a, cmp, i, j, all, k);
        i := i + 1;
      }
      j := j + 1;
    }
    SwapIn(a, cmp, i, hi, all, k);
  }

  lemma SwapAt<T>(s: seq<T>, t: seq<T>, i: nat, j: nat)
    requires i < |s| && j < |s| && t == Swapped(s, i, j)
    ensures |t| == |s| && t[i] == s[j] && t[j] == s[i] && forall p :: 0 <= p < |s| && p != i && p != j ==> t[p] == s[p]
  {}

  lemma HalfFits(x: nat, m: nat, k: nat, n: nat)
    requires 2 * x <= m && m * Pow(k) <= n
    ensures x * Pow(k + 1) <= n && x * Pow(k) <= n
  {
    MulLe(2 * x, m, Pow(k));
    MulLe(x, 2 * x, Pow(k));
    assert x * Pow(k + 1) == (2 * x) * Pow(k);
  }

  lemma PartFits(x: nat, m: nat, k: nat, n: nat)
    requires x <= m && m * Pow(k) <= n
    ensures x * Pow(k) <= n
  { MulLe(x, m, Pow(k)); }

  /** What the stack and the range in hand satisfy between steps. */
  ghost predicate Pending<T(!new)>(cmp: (T, T) -> int, s: seq<T>, rs: seq<Range>, cur: Range) {
    && Ordered(cmp, s, rs + [cur]) && Disjoint(rs + [cur]) && Halving(rs, |s|)
    && cur.lo <= cur.end + 1 && cur.end <= |s| && (cur.lo <= cur.end ==> (cur.end - cur.lo) * Pow(|rs|) <= |s|)
  }

  /** The part in hand once the larger part b went to the stack, or was too small to go there. */
  lemma Divided<T(!new)>(cmp: (T, T) -> int, s: seq<T>, rs: seq<Range>, cur: Range, big: Range, small: Range)
    requires Pending(cmp, s, rs, cur) && |s| < TWO64
    requires Ordered(cmp, s, rs + [big] + [small]) && cur.lo <= big.lo <= big.end <= cur.end && cur.lo <= small.lo <= small.end <= cur.end
    requires (big.end <= small.lo || small.end <= big.lo) && 2 * (small.end - small.lo) <= cur.end - cur.lo
    ensures big.end >= big.lo + 2 ==> |rs| < 63 && Pending(cmp, s, rs + [big], small)
    ensures big.end < big.lo + 2 ==> Pending(cmp, s, rs, small)
  {
    hide Ordered, Disjoint, Halving;
    DisjointSub(rs, cur.lo, cur.end, big, small);
    HalfFits(small.end - small.lo, cur.end - cur.lo, |rs|, |s|);
    if big.end >= big.lo + 2 {
      PartFits(big.end - big.lo, cur.end - cur.lo, |rs|, |s|);
      HalvingPush(rs, |s|, big);
    } else {
      SmallDropped(cmp, s, rs, big, [small]);
    }
  }

  /** A range in hand that is too small to hold a pair is done. */
  lemma HandDone<T(!new)>(cmp: (T, T) -> int, s: seq<T>, rs: seq<Range>, cur: Range)
    requires Pending(cmp, s, rs, cur) && cur.end <= cur.lo + 1
    ensures Ordered(cmp, s, rs) && Disjoint(rs) && Halving(rs, |s|)
  {
    hide Ordered, Halving;
    assert rs + [cur] == rs + [cur] + [];
    SmallDropped(cmp, s, rs, cur, []);
    assert rs + [] == rs;
    forall k, l, p | 0 <= k < |rs| && 0 <= l < |rs| && Has(rs[k], p) && Has(rs[l], p) ensures k == l {
      assert Has((rs + [cur])[k], p) && Has((rs + [cur])[l], p);
    }
  }

  /** Partitioning the range in hand splits it. */
  method Divide<T(!new)>(a: array<T>, cmp: (T, T) -> int, lo: nat, hi: nat, ghost rs: seq<Range>) returns (i: nat)
    requires Preorder(cmp) && lo < hi < a.Length && Pending(cmp, a[..], rs, Range(lo, hi + 1))
    modifies a
    ensures lo <= i <= hi && multiset(a[..]) == multiset(old(a[..])) && Pending(cmp, a[..], rs, Range(lo, hi + 1))
    ensures Ordered(cmp, a[..], rs + [Range(lo, i)] + [Range(i + 1, hi + 1)])
    ensures Ordered(cmp, a[..], rs + [Range(i + 1, hi + 1)] + [Range(lo, i)])
  {
    hide Ordered, Disjoint, Halving, Pending, Preorder;
    ghost var s0 := a[..];
    PendingParts(cmp, s0, rs, Range(lo, hi + 1));
    i := Partition(a, cmp, lo, hi, rs);
    PendingPack(cmp, s0, a[..], rs, Range(lo, hi + 1));
    SplitOrdered(cmp, a[..], rs, lo, i, hi + 1);
  }

  /** The inner loop: sort the range in hand, leaving the larger parts on the stack. */
  method Descend<T(!new)>(a: array<T>, cmp: (T, T) -> int, stack: array<Range>, top0: nat, lo0: nat, hi0: nat) returns (top: nat)
    requires Preorder(cmp) && a.Length < TWO64 && stack.Length == DEPTH && top0 <= DEPTH && lo0 < hi0 < a.Length
    requires (a as object) != (stack as object)
    requires Pending(cmp, a[..], stack[..top0], Range(lo0, hi0 + 1))
    modifies a, stack
    ensures top <= DEPTH && multiset(a[..]) == multiset(old(a[..]))
    ensures Ordered(cmp, a[..], stack[..top]) && Disjoint(stack[..top]) && Halving(stack[..top], a.Length)
    ensures Sizes(stack[..top]) < Sizes(old(stack[..top0])) + (hi0 + 1 - lo0)
  {
    hide Ordered, Disjoint, Halving, Sizes, Pending, Preorder;
    top := top0;
    var lo: nat, hi: nat := lo0, hi0;
    ghost var total := Sizes(stack[..top0]) + (hi0 + 1 - lo0);
    while lo < hi
      invariant top <= DEPTH && hi < a.Length && lo <= hi + 2 && multiset(a[..]) == multiset(old(a[..]))
      invariant Pending(cmp, a[..], stack[..top], Range(lo, hi + 1))
      invariant Sizes(stack[..top]) + (if hi + 1 > lo then hi + 1 - lo else 0) <= total && (lo >= hi ==> Sizes(stack[..top]) < total)
      decreases hi + 2 - lo
    {
      ghost var rs, cur := stack[..top], Range(lo, hi + 1);
      var i := Divide(a, cmp, lo, hi, rs);
      var left, right := if i > lo then i - lo else 0, if hi > i then hi - i else 0;
      if left > right {
        Divided(cmp, a[..], rs, cur, Range(lo, i), Range(i + 1, hi + 1));
        if i > lo + 1 {
          SizesPush(rs, Range(lo, i));
          stack[top] := Range(lo, i);
          top := top + 1;
          assert stack[..top] == rs + [Range(lo, i)];
        }
        lo := i + 1;
      } else {
        Divided(cmp, a[..], rs, cur, Range(i + 1, hi + 1), Range(lo, i));
        if i + 1 < hi {
          SizesPush(rs, Range(i + 1, hi + 1));
          stack[top] := Range(i + 1, hi + 1);
          top := top + 1;
          assert stack[..top] == rs + [Range(i + 1, hi + 1)];
        }
        if i == 0 {
          HandDone(cmp, a[..], stack[..top], Range(lo, i));
          return;
        }
        hi := i - 1;
      }
    }
    HandDone(cmp, a[..], stack[..top], Range(lo, hi + 1));
  }

  lemma PendingParts<T(!new)>(cmp: (T, T) -> int, s: seq<T>, rs: seq<Range>, cur: Range)
    requires Pending(cmp, s, rs, cur)
    ensures Ordered(cmp, s, rs + [cur]) && Disjoint(rs + [cur])
  {}

  lemma PendingPack<T(!new)>(cmp: (T, T) -> int, s0: seq<T>, s: seq<T>, rs: seq<Range>, cur: Range)
    requires Pending(cmp, s0, rs, cur) && |s| == |s0| && Ordered(cmp, s, rs + [cur])
    ensures Pending(cmp, s, rs, cur)
  {}

  /** qsort: sorts by any total preorder, permuting the elements, within 64 stack entries. */
  method Sort<T(!new)>(a: array<T>, cmp: (T, T) -> int)
    requires Preorder(cmp) && a.Length < TWO64
    modifies a
    ensures Sorted(cmp, a[..]) && multiset(a[..]) == multiset(old(a[..]))
  {
    hide Ordered, Disjoint, Halving, Sizes, Pending, Preorder;
    if a.Length < 2 { return; }
    var stack := new Range[DEPTH](_ => Range(0, 0));
    stack[0] := Range(0, a.Length);
    var top: nat := 1;
    assert stack[..top] == [Range(0, a.Length)];
    StartOrdered(cmp, a[..]);
    while top > 0
      invariant top <= DEPTH && fresh(stack) && stack.Length == DEPTH && multiset(a[..]) == multiset(old(a[..]))
      invariant Ordered(cmp, a[..], stack[..top]) && Disjoint(stack[..top]) && Halving(stack[..top], a.Length)
      decreases Sizes(stack[..top])
    {
      ghost var rs := stack[..top];
      top := top - 1;
      assert rs == stack[..top] + [stack[top]];
      Popped(cmp, a[..], stack[..top], stack[top]);
      SizesPush(stack[..top], stack[top]);
      top := Descend(a, cmp, stack, top, stack[top].lo, stack[top].end - 1);
    }
    assert stack[..0] == [];
    EndSorted(cmp, a[..]);
  }

  lemma StartOrdered<T(!new)>(cmp: (T, T) -> int, s: seq<T>)
    requires |s| >= 2
    ensures Ordered(cmp, s, [Range(0, |s|)]) && Disjoint([Range(0, |s|)]) && Halving([Range(0, |s|)], |s|)
  {
    var rs := [Range(0, |s|)];
    forall p, q | 0 <= p < q < |s| ensures Together(rs, p, q) { assert Has(rs[0], p) && Has(rs[0], q); }
  }

  lemma Popped<T(!new)>(cmp: (T, T) -> int, s: seq<T>, rs: seq<Range>, r: Range)
    requires Ordered(cmp, s, rs + [r]) && Disjoint(rs + [r]) && Halving(rs + [r], |s|)
    ensures Pending(cmp, s, rs, r) && r.lo + 2 <= r.end <= |s|
  {
    hide Ordered, Disjoint;
    assert (rs + [r])[|rs|] == r;
    forall k: nat | k < |rs| ensures rs[k].lo + 2 <= rs[k].end <= |s| && (rs[k].end - rs[k].lo) * Pow(k) <= |s| { assert (rs + [r])[k] == rs[k]; }
  }

  lemma EndSorted<T(!new)>(cmp: (T, T) -> int, s: seq<T>)
    requires Ordered(cmp, s, [])
    ensures Sorted(cmp, s)
  {}
}
