/** The iovec scan and the direct-I/O alignment tests of uio_impl.h. */
module Uio {
  import opened Bits

  /** Bytes in the first k vectors. */
  function Before(lens: seq<nat>, k: nat): nat
    requires k <= |lens|
  {
    if k == 0 then 0 else Before(lens, k - 1) + lens[k - 1]
  }

  /** The 64-bit pattern of a signed offset, and back. */
  function Unsigned(off: int64): nat {
    SignBit();
    if off >= 0 then off else off + Pow2(64)
  }

  function Signed(u: uint64): int64 {
    SignBit();
    if u < Pow2(63) then u else u - Pow2(64)
  }

  lemma SignBit()
    ensures Pow2(64) == 2 * Pow2(63)
  {
  }

  /** The pattern is the offset or 2^64 more, whichever is a word, and the two conversions
      undo each other. */
  lemma PatternRoundTrip(off: int64, u: uint64)
    ensures Unsigned(off) < Pow2(64) && (Unsigned(off) == off || Unsigned(off) == off + Pow2(64))
    ensures Signed(Unsigned(off)) == off && Unsigned(Signed(u)) == u
  {
    SignBit();
    hide Pow2;
  }

  /** zfs_uio_index_at_offset: comparing with the unsigned vector length makes the scan
      run on the unsigned pattern of off; the result is converted back. */
  method IndexAtOffset(lens: seq<uint64>, off: int64) returns (rest: int64, vecIdx: nat)
    ensures Locates(lens, Unsigned(off), vecIdx, Unsigned(rest))
    ensures vecIdx <= |lens|
    ensures 0 <= off ==>
      0 <= rest && Before(lens, vecIdx) + rest == off && (vecIdx < |lens| ==> rest < lens[vecIdx])
    ensures off < 0 ==>
      var r := if 0 <= rest then rest else rest + Pow2(64);
      Before(lens, vecIdx) + r == off + Pow2(64) && (vecIdx < |lens| ==> r < lens[vecIdx])
  {
    SignBit();
    hide Pow2;
    var u: nat := Unsigned(off);
    vecIdx := 0;
    while vecIdx < |lens| && u >= lens[vecIdx]
      invariant vecIdx <= |lens| && Before(lens, vecIdx) + u == Unsigned(off)
      invariant forall j :: 0 < j <= vecIdx ==> Before(lens, j) <= Unsigned(off)
    {
      u := u - lens[vecIdx];
      vecIdx := vecIdx + 1;
    }
    rest := Signed(u);
  }

  lemma {:induction false} BeforeGrows(lens: seq<nat>, i: nat, j: nat)
    requires i <= j <= |lens|
    ensures Before(lens, i) <= Before(lens, j)
    decreases j
  {
    if i < j { BeforeGrows(lens, i, j - 1); }
  }

  /** Place r of vector k is byte off, counting through the vectors: every vector before k is
      passed, and the place is strictly inside vector k unless k is the end. */
  ghost predicate Locates(lens: seq<nat>, off: nat, k: nat, r: nat) {
    k <= |lens| && Before(lens, k) + r == off &&
    (k < |lens| ==> r < lens[k]) && forall j :: 0 < j <= k ==> Before(lens, j) <= off
  }

  /** The answer is unique: an offset inside the vectors names one vector, never an empty
      one, and one place strictly inside it; an offset beyond them names the end. */
  lemma LocatesOnce(lens: seq<nat>, off: nat, k: nat, r: nat)
    requires Locates(lens, off, k, r)
    ensures k < |lens| <==> off < Before(lens, |lens|)
    ensures k < |lens| ==> lens[k] > 0
    ensures forall k': nat, r': nat :: Locates(lens, off, k', r') ==> k' == k && r' == r
  {
    BeforeGrows(lens, k, |lens|);
    if k < |lens| { BeforeGrows(lens, k + 1, |lens|); }
    forall k': nat, r': nat | Locates(lens, off, k', r') ensures k' == k && r' == r {
      VectorsBehind(lens, off, k, r, k');
      VectorsBehind(lens, off, k', r', k);
    }
  }

  lemma VectorsBehind(lens: seq<nat>, off: nat, k: nat, r: nat, j: nat)
    requires Locates(lens, off, k, r) && j <= |lens|
    ensures Before(lens, j) <= off <==> j <= k
  {
    if k < j { BeforeGrows(lens, k + 1, j); } else { BeforeGrows(lens, j, k); }
  }

  // ---------- direct I/O alignment ----------

  predicate OffsetAligned(offset: nat, blksz: nat)
    requires blksz > 0
  {
    IsP2Aligned(offset, blksz)
  }

  predicate SizeAligned(size: nat, blksz: nat)
    requires blksz > 0
  {
    size % blksz == 0
  }

  ghost predicate IsPowerOfTwo(n: nat) {
    exists k: nat :: Pow2(k) == n
  }

  ghost predicate TestsAgree(blksz: nat)
    requires blksz > 0
  {
    forall off: nat :: OffsetAligned(off, blksz) <==> SizeAligned(off, blksz)
  }

  /** The mask test agrees with the remainder test for every offset exactly when the block
      size is a power of two. */
  lemma OffsetTestNeedsPowerOfTwo(blksz: nat)
    requires blksz > 0
    ensures TestsAgree(blksz) <==> IsPowerOfTwo(blksz)
  {
    if IsPowerOfTwo(blksz) {
      var k: nat :| Pow2(k) == blksz;
      forall off: nat ensures OffsetAligned(off, blksz) <==> SizeAligned(off, blksz) {
        PhaseIsRemainder(off, k);
      }
    }
    if TestsAgree(blksz) {
      DivModUnique(blksz, blksz, 1, 0);
      assert SizeAligned(blksz, blksz);
      var k := OnlyPowersMaskThemselves(blksz);
    }
  }

  lemma {:induction false} OnlyPowersMaskThemselves(b: nat) returns (k: nat)
    requires b > 0 && And(b, b - 1) == 0
    ensures Pow2(k) == b
  {
    if b % 2 == 0 {
      k := OnlyPowersMaskThemselves(b / 2);
      k := k + 1;
    } else {
      k := 0;
      if b > 1 {
        var h := (b - 1) / 2;
        assert And(b, b - 1) == 2 * Bitwise(AND, h, h);
        BitwiseSelf(h);
      }
    }
  }

  lemma {:induction false} BitwiseSelf(x: nat)
    ensures Bitwise(AND, x, x) == x
  {
    if x > 0 { BitwiseSelf(x / 2); }
  }
}
