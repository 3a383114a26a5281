/** The bitmap macros of bitmap.h over an array of 64-bit words, as a set of indices. */
module Bitmap {
  import opened Bits

  const BT_ULSHIFT := 6
  const BT_NBIPUL := 64
  const BT_ULMASK := 63

  /** Index of the word that holds bit i, and the mask of the bit inside it. */
  function WordOf(i: nat): nat { Shr(i, BT_ULSHIFT) }
  function MaskOf(i: nat): nat { Shl(64, 1, And(i, BT_ULMASK)) }

  /** BT_BITOUL: words needed for nbits bits. */
  function WordsFor(nbits: nat): nat { (nbits + BT_NBIPUL - 1) / BT_NBIPUL }

  function Test(bitmap: seq<uint64>, i: nat): nat
    requires WordOf(i) < |bitmap|
  {
    if And(bitmap[WordOf(i)], MaskOf(i)) != 0 then 1 else 0
  }

  method BtTest(bitmap: array<uint64>, i: nat) returns (r: nat)
    requires WordOf(i) < bitmap.Length
    ensures r == if i in Members(bitmap[..]) then 1 else 0
  {
    TestIsMember(bitmap[..], i);
    r := if And(bitmap[WordOf(i)], MaskOf(i)) != 0 then 1 else 0;
  }

  method BtSet(bitmap: array<uint64>, i: nat)
    requires WordOf(i) < bitmap.Length
    modifies bitmap
    ensures Members(bitmap[..]) == Members(old(bitmap[..])) + {i}
  {
    hide Pow2, Bitwise, WordOf, MaskOf, Members;
    StepActsOnSet(bitmap[..], SetBit(i));
    MaskFits(i);
    BitwiseFits(OR, bitmap[WordOf(i)], MaskOf(i), 64);
    bitmap[WordOf(i)] := Or(bitmap[WordOf(i)], MaskOf(i));
    assert bitmap[..] == Step(old(bitmap[..]), SetBit(i));
  }

  method BtClear(bitmap: array<uint64>, i: nat)
    requires WordOf(i) < bitmap.Length
    modifies bitmap
    ensures Members(bitmap[..]) == Members(old(bitmap[..])) - {i}
  {
    hide Pow2, Bitwise, WordOf, MaskOf, Members;
    StepActsOnSet(bitmap[..], ClearBit(i));
    MaskFits(i);
    BitwiseFits(AND, bitmap[WordOf(i)], Not(64, MaskOf(i)), 64);
    bitmap[WordOf(i)] := And(bitmap[WordOf(i)], Not(64, MaskOf(i)));
    assert bitmap[..] == Step(old(bitmap[..]), ClearBit(i));
  }

  // ---------- bitmaps as sets ----------

  datatype BitOp = SetBit(i: nat) | ClearBit(i: nat)

  function Step(bitmap: seq<uint64>, op: BitOp): (r: seq<uint64>)
    requires WordOf(op.i) < |bitmap|
    ensures |r| == |bitmap|
  {
    MaskFits(op.i);
    var k := WordOf(op.i);
    if op.SetBit? then
      BitwiseFits(OR, bitmap[k], MaskOf(op.i), 64);
      bitmap[k := Or(bitmap[k], MaskOf(op.i))]
    else
      BitwiseFits(AND, bitmap[k], Not(64, MaskOf(op.i)), 64);
      bitmap[k := And(bitmap[k], Not(64, MaskOf(op.i)))]
  }

  ghost predicate Member(bitmap: seq<uint64>, i: nat) {
    i / 64 < |bitmap| && Bit(bitmap[i / 64], i % 64)
  }

  ghost function Members(bitmap: seq<uint64>): set<nat> {
    set i: nat | i < 64 * |bitmap| && Member(bitmap, i)
  }

  lemma MaskFits(i: nat)
    ensures MaskOf(i) < Pow2(64)
  {
  }

  lemma WordAndBit(i: nat)
    ensures WordOf(i) == i / 64 && And(i, BT_ULMASK) == i % 64
    ensures forall b: nat :: Bit(MaskOf(i), b) <==> b == i % 64
  {
    assert Pow2(6) == 64;
    hide Pow2, Bitwise;
    ShrIsDiv(i, 6);
    PhaseIsRemainder(i, 6);
    forall b: nat ensures Bit(MaskOf(i), b) <==> b == i % 64 {
      BitOfShl(64, 1, i % 64, b);
      if i % 64 <= b { BitOfOne(b - i % 64); }
    }
  }

  lemma BitOfOne(b: nat)
    ensures Bit(1, b) <==> b == 0
  {
    if b > 0 { BitOfZero(b - 1); }
  }

  lemma TestIsMember(bitmap: seq<uint64>, i: nat)
    requires WordOf(i) < |bitmap|
    ensures Test(bitmap, i) == 1 <==> i in Members(bitmap)
  {
    hide Pow2, Bitwise, WordOf, MaskOf;
    WordAndBit(i);
    var x, mask := bitmap[i / 64], MaskOf(i);
    BitOfBitwise(AND, x, mask, i % 64);
    BitOfZero(i % 64);
    if !Bit(x, i % 64) {
      forall b: nat ensures Bit(And(x, mask), b) == Bit(0, b) {
        BitOfBitwise(AND, x, mask, b);
        BitOfZero(b);
      }
      SameBits(And(x, mask), 0);
    }
  }

  /** Bit i is bit i % 64 of word i / 64. */
  lemma TestIsDivMod(bitmap: seq<uint64>, i: nat)
    requires i / 64 < |bitmap|
    ensures WordOf(i) == i / 64 && Test(bitmap, i) == bitmap[i / 64] / Pow2(i % 64) % 2
  {
    hide Pow2, Bitwise, WordOf, MaskOf;
    WordAndBit(i);
    TestIsMember(bitmap, i);
    BitIsDivMod(bitmap[i / 64], i % 64);
  }

  lemma StepActsOnSet(bitmap: seq<uint64>, op: BitOp)
    requires WordOf(op.i) < |bitmap|
    ensures Members(Step(bitmap, op)) == if op.SetBit? then Members(bitmap) + {op.i} else Members(bitmap) - {op.i}
  {
    hide Pow2, Bitwise, WordOf, MaskOf;
    WordAndBit(op.i);
    var k := op.i / 64;
    var x, mask, after := bitmap[k], MaskOf(op.i), Step(bitmap, op);
    forall j: nat | j / 64 < |bitmap|
      ensures Member(after, j) <==> if j == op.i then op.SetBit? else Member(bitmap, j)
    {
      if j / 64 == k {
        var b := j % 64;
        MaskFits(op.i);
        BitOfBitwise(OR, x, mask, b);
        BitOfBitwise(AND, x, Not(64, mask), b);
        BitOfNot(64, mask, b);
      }
    }
  }

  function Run(bitmap: seq<uint64>, ops: seq<BitOp>): seq<uint64>
    requires forall n :: 0 <= n < |ops| ==> WordOf(ops[n].i) < |bitmap|
    decreases |ops|
  {
    if ops == [] then bitmap else Run(Step(bitmap, ops[0]), ops[1..])
  }

  /** The indices last set rather than cleared, starting from the members given. */
  function RunOnSet(s: set<nat>, ops: seq<BitOp>): set<nat>
    decreases |ops|
  {
    if ops == [] then s
    else RunOnSet(if ops[0].SetBit? then s + {ops[0].i} else s - {ops[0].i}, ops[1..])
  }

  /** A bitmap of WordsFor(nbits) words under any run of sets and clears of indices below
      nbits is a set under the same insertions and removals, and BT_TEST is membership. */
  lemma {:induction false} BitmapRefinesSet(bitmap: seq<uint64>, ops: seq<BitOp>, nbits: nat)
    requires |bitmap| == WordsFor(nbits)
    requires forall n :: 0 <= n < |ops| ==> ops[n].i < nbits
    ensures forall n :: 0 <= n < |ops| ==> WordOf(ops[n].i) < |bitmap|
    ensures |Run(bitmap, ops)| == |bitmap|
    ensures Members(Run(bitmap, ops)) == RunOnSet(Members(bitmap), ops)
    ensures forall i: nat :: i < nbits ==> WordOf(i) < |bitmap|
    ensures forall i: nat :: i < nbits ==>
      (Test(Run(bitmap, ops), i) == 1 <==> i in RunOnSet(Members(bitmap), ops))
    decreases |ops|
  {
    forall i: nat | i < nbits ensures WordOf(i) < |bitmap| {
      WordsForIsLeast(nbits, |bitmap|);
    }
    if ops != [] {
      StepActsOnSet(bitmap, ops[0]);
      BitmapRefinesSet(Step(bitmap, ops[0]), ops[1..], nbits);
    } else {
      forall i: nat | i < nbits ensures Test(bitmap, i) == 1 <==> i in Members(bitmap) {
        TestIsMember(bitmap, i);
      }
    }
  }

  /** n words have room for every index below nbits exactly when n is at least BT_BITOUL(nbits). */
  lemma WordsForIsLeast(nbits: nat, n: nat)
    ensures (forall i: nat :: i < nbits ==> WordOf(i) < n) <==> WordsFor(nbits) <= n
  {
    forall i: nat ensures WordOf(i) == i / 64 { WordAndBit(i); }
    if nbits > 0 && WordsFor(nbits) > n {
      assert nbits - 1 >= 0 && WordOf(nbits - 1) == (nbits - 1) / 64;
    }
  }
}
