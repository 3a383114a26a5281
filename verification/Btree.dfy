/** The branch-free binary search of btree.h (Shar's algorithm) over one node's buffer. */
module Btree {
  import opened Bits
  import opened Wrappers

  /** zfs_btree_index_t. */
  class Index {
    var node: object?
    var offset: nat
    var before: bool
  }

  /** What the header asks of COMP: exactly -1, 0 or +1, from one total order. */
  ghost predicate IsComparator<T(!new)>(comp: (T, T) -> int) {
    (forall a, b :: -1 <= comp(a, b) <= 1) &&
    (forall a, b :: comp(a, b) == -comp(b, a)) &&
    forall a, b, c :: comp(a, b) <= 0 && comp(b, c) <= 0 ==> comp(a, c) <= 0
  }

  /** TREE_CMP of avl.h, the comparator the header suggests. */
  function TreeCmp(a: int, b: int): int { Flag(a > b) - Flag(a < b) }

  function Flag(b: bool): int { if b then 1 else 0 }

  /** It meets the requirement and orders a buffer as the integers are ordered. */
  lemma TreeCmpCompares(s: seq<int>)
    ensures IsComparator(TreeCmp)
    ensures Increasing(s, TreeCmp) <==> forall i, j :: 0 <= i < j < |s| ==> s[i] < s[j]
  {
    if forall i, j :: 0 <= i < j < |s| ==> s[i] < s[j] {
      assert Increasing(s, TreeCmp);
    }
    if Increasing(s, TreeCmp) {
      forall i, j | 0 <= i < j < |s| ensures s[i] < s[j] { assert TreeCmp(s[i], s[j]) < 0; }
    }
  }

  ghost predicate Increasing<T(!new)>(s: seq<T>, comp: (T, T) -> int) {
    forall i, j :: 0 <= i < j < |s| ==> comp(s[i], s[j]) < 0
  }

  /** How many elements are smaller than value. */
  function CountLess<T>(s: seq<T>, value: T, comp: (T, T) -> int): nat {
    if s == [] then 0
    else CountLess(s[1..], value, comp) + if comp(s[0], value) < 0 then 1 else 0
  }

  /** The number of times nelems can be halved, rounding up, before one element is left. */
  function CeilLog2(n: nat): nat {
    if n <= 1 then 0 else 1 + CeilLog2(n - n / 2)
  }

  method FindInBuf<T(!new)>(buf: array<T>, nelems: nat, value: T, where: Index, comp: (T, T) -> int)
    returns (found: Option<nat>, ghost steps: nat)
    requires 1 <= nelems <= buf.Length && IsComparator(comp) && Increasing(buf[..nelems], comp)
    modifies where`offset, where`before
    ensures where.offset == CountLess(buf[..nelems], value, comp)
    ensures where.before <==> forall j :: 0 <= j < nelems ==> comp(buf[j], value) != 0
    ensures found == if where.before then None else Some(where.offset)
    ensures found.Some? ==> found.value < nelems && comp(buf[found.value], value) == 0
    ensures steps == CeilLog2(nelems)
  {
    hide IsComparator, Increasing, CountLess, CeilLog2;
    var i: nat, n := 0, nelems;
    steps := 0;
    ghost var s := buf[..nelems];
    while n > 1
      invariant 1 <= n && i + n <= nelems
      invariant forall j :: 0 <= j < i ==> comp(s[j], value) < 0
      invariant forall j :: i + n <= j < nelems ==> comp(s[j], value) >= 0
      // the lower bound is the right end of the window only where the window ends the buffer
      invariant i + n < nelems ==> comp(s[i + n - 1], value) >= 0
      invariant steps + CeilLog2(n) == CeilLog2(nelems)
    {
      var half := n / 2;
      n := n - half;
      Probe(s, comp, value, i + half - 1);
      HalveOnce(n + half);
      i := i + (if comp(buf[i + half - 1], value) < 0 then half else 0);
      steps := steps + 1;
    }

    var c := comp(buf[i], value);
    where.offset := i + (if c < 0 then 1 else 0);
    where.before := c != 0;
    found := if c == 0 then Some(i) else None;

    LastProbe(s, comp, value, i);
    HalveOnce(2);
  }

  lemma HalveOnce(n: nat)
    requires n > 1
    ensures CeilLog2(n) == 1 + CeilLog2(n - n / 2) && CeilLog2(1) == 0
  {
  }

  lemma Probe<T(!new)>(s: seq<T>, comp: (T, T) -> int, value: T, m: nat)
    requires IsComparator(comp) && Increasing(s, comp) && m < |s|
    ensures comp(s[m], value) < 0 ==> forall j :: 0 <= j <= m ==> comp(s[j], value) < 0
    ensures comp(s[m], value) >= 0 ==> forall j :: m <= j < |s| ==> comp(s[j], value) >= 0
  {
    if comp(s[m], value) < 0 {
      BelowIsLess(s, comp, value, m);
    } else {
      AboveIsNotLess(s, comp, value, m);
    }
  }

  lemma LastProbe<T(!new)>(s: seq<T>, comp: (T, T) -> int, value: T, i: nat)
    requires IsComparator(comp) && Increasing(s, comp) && i < |s|
    requires forall j :: 0 <= j < i ==> comp(s[j], value) < 0
    requires comp(s[i], value) < 0 ==> i + 1 == |s|
    ensures CountLess(s, value, comp) == i + if comp(s[i], value) < 0 then 1 else 0
    ensures comp(s[i], value) != 0 ==> forall j :: 0 <= j < |s| ==> comp(s[j], value) != 0
  {
    if comp(s[i], value) >= 0 {
      AboveIsNotLess(s, comp, value, i);
      CountLessAt(s, value, comp, i);
    } else {
      CountLessAt(s, value, comp, i + 1);
    }
  }

  lemma BelowIsLess<T(!new)>(s: seq<T>, comp: (T, T) -> int, value: T, m: nat)
    requires IsComparator(comp) && Increasing(s, comp) && m < |s| && comp(s[m], value) < 0
    ensures forall j :: 0 <= j <= m ==> comp(s[j], value) < 0
  {
    forall j | 0 <= j < m ensures comp(s[j], value) < 0 {
      NotBetween(comp, s[j], s[m], value);
    }
  }

  lemma AboveIsNotLess<T(!new)>(s: seq<T>, comp: (T, T) -> int, value: T, m: nat)
    requires IsComparator(comp) && Increasing(s, comp) && m < |s| && comp(s[m], value) >= 0
    ensures forall j :: m <= j < |s| ==> comp(s[j], value) >= 0
    ensures forall j :: m < j < |s| ==> comp(s[j], value) > 0
  {
    forall j | m < j < |s| ensures comp(s[j], value) > 0 {
      NotBetween(comp, value, s[m], s[j]);
    }
  }

  /** a <= b < c or a < b <= c gives a < c. */
  lemma NotBetween<T(!new)>(comp: (T, T) -> int, a: T, b: T, c: T)
    requires IsComparator(comp) && comp(a, b) <= 0 && comp(b, c) <= 0
    ensures comp(a, b) < 0 || comp(b, c) < 0 ==> comp(a, c) < 0 && comp(c, a) > 0
  {
    assert comp(a, c) <= 0 && comp(c, a) == -comp(a, c);
    if comp(c, a) == 0 {
      assert comp(c, b) <= 0 && comp(b, c) == -comp(c, b);
      assert comp(b, a) <= 0 && comp(a, b) == -comp(b, a);
    }
  }

  lemma {:induction false} CountLessAt<T>(s: seq<T>, value: T, comp: (T, T) -> int, k: nat)
    requires k <= |s|
    requires forall j :: 0 <= j < |s| ==> (comp(s[j], value) < 0 <==> j < k)
    ensures CountLess(s, value, comp) == k
    decreases |s|
  {
    if s != [] {
      CountLessAt(s[1..], value, comp, if k == 0 then 0 else k - 1);
    }
  }

  /** The offset of an absent value is where inserting it keeps the buffer increasing. */
  lemma InsertAtOffset<T(!new)>(s: seq<T>, value: T, comp: (T, T) -> int)
    requires IsComparator(comp) && Increasing(s, comp)
    requires forall j :: 0 <= j < |s| ==> comp(s[j], value) != 0
    ensures var k := CountLess(s, value, comp);
      k <= |s| && Increasing(s[..k] + [value] + s[k..], comp)
  {
    var k := LowerBound(s, value, comp, |s|);
    CountLessAt(s, value, comp, k);
    forall j | k <= j < |s| ensures comp(value, s[j]) < 0 {
      assert comp(value, s[j]) == -comp(s[j], value);
    }
    hide IsComparator, CountLess;
    JoinIncreasing(s[..k], value, s[k..], comp);
  }

  lemma JoinIncreasing<T(!new)>(lo: seq<T>, value: T, hi: seq<T>, comp: (T, T) -> int)
    requires Increasing(lo, comp) && Increasing(hi, comp)
    requires forall j :: 0 <= j < |lo| ==> comp(lo[j], value) < 0
    requires forall j :: 0 <= j < |hi| ==> comp(value, hi[j]) < 0
    requires forall i, j :: 0 <= i < |lo| && 0 <= j < |hi| ==> comp(lo[i], hi[j]) < 0
    ensures Increasing(lo + [value] + hi, comp)
  {
  }

  lemma {:induction false} LowerBound<T(!new)>(s: seq<T>, value: T, comp: (T, T) -> int, n: nat) returns (k: nat)
    requires IsComparator(comp) && Increasing(s, comp) && n <= |s|
    requires forall j :: n <= j < |s| ==> comp(s[j], value) >= 0
    ensures k <= |s| && forall j :: 0 <= j < |s| ==> (comp(s[j], value) < 0 <==> j < k)
    decreases n
  {
    if n > 0 && comp(s[n - 1], value) >= 0 {
      k := LowerBound(s, value, comp, n - 1);
    } else {
      k := n;
      if n > 0 { BelowIsLess(s, comp, value, n - 1); }
    }
  }

  /** The loop count is the ceiling of the base-2 logarithm: the least k with n <= 2^k. */
  lemma {:induction false} CeilLog2IsCeiling(n: nat, k: nat)
    requires n >= 1
    ensures n <= Pow2(k) <==> CeilLog2(n) <= k
    decreases n
  {
    if n > 1 {
      if k > 0 { CeilLog2IsCeiling(n - n / 2, k - 1); }
    }
  }

  /** Nine unrolled iterations are enough exactly for buffers of at most 512 elements. */
  lemma NineIterations(n: nat)
    requires n >= 1
    ensures CeilLog2(n) <= 9 <==> n <= 512
  {
    CeilLog2IsCeiling(n, 9);
    assert Pow2(9) == 512;
  }
}
