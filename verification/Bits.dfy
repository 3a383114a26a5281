/** Unsigned machine words as natural numbers: powers of two, single bits, the C bitwise
    operators, shifts and complement, and the lemmas that reduce an equation between words
    to a statement about each bit at a symbolic position. */
module Bits {

  function Pow2(n: nat): (p: nat)
    ensures p > 0
  {
    if n == 0 then 1 else 2 * Pow2(n - 1)
  }

  type uint16 = x: nat | x < Pow2(16)
  type uint32 = x: nat | x < Pow2(32)
  type uint64 = x: nat | x < Pow2(64)
  type int64 = x: int | -(Pow2(63) as int) <= x < Pow2(63)

  /** Bit i of x. */
  predicate Bit(x: nat, i: nat) {
    if i == 0 then x % 2 == 1 else Bit(x / 2, i - 1)
  }

  datatype Op = AND | OR | XOR {
    predicate Apply(a: bool, b: bool) {
      match this
      case AND => a && b
      case OR => a || b
      case XOR => a != b
    }
  }

  function Bitwise(op: Op, x: nat, y: nat): nat {
    if x == 0 && y == 0 then 0
    else 2 * Bitwise(op, x / 2, y / 2) + if op.Apply(x % 2 == 1, y % 2 == 1) then 1 else 0
  }

  function And(x: nat, y: nat): nat { Bitwise(AND, x, y) }
  function Or(x: nat, y: nat): nat { Bitwise(OR, x, y) }
  function Xor(x: nat, y: nat): nat { Bitwise(XOR, x, y) }

  /** Right shift: k halvings (ShrIsDiv: division by 2^k). */
  function Shr(x: nat, k: nat): nat
    decreases x, k
  {
    if k == 0 then x else Shr(x / 2, k - 1)
  }

  /** k doublings (TimesIsMul: multiplication by 2^k). */
  function Times(x: nat, k: nat): nat
    decreases x, k
  {
    if k == 0 then x else 2 * Times(x, k - 1)
  }

  /** The low k bits of x, all a k-bit type keeps of it (LowIsMod: the remainder by 2^k). */
  function Low(x: nat, k: nat): nat
    decreases x, k
  {
    if k == 0 then 0 else 2 * Low(x / 2, k - 1) + x % 2
  }

  /** Left shift in a w-bit type: bits moved past the top are lost. */
  function Shl(w: nat, x: nat, k: nat): (r: nat)
    ensures r < Pow2(w)
  {
    LowAtMost(Times(x, k), w);
    Low(Times(x, k), w)
  }

  /** Addition, subtraction and decrement in a w-bit type. */
  function AddW(w: nat, a: nat, b: nat): nat {
    if a + b < Pow2(w) then a + b else a + b - Pow2(w)
  }

  function SubW(w: nat, a: nat, b: nat): nat
    requires b < Pow2(w)
  {
    if a >= b then a - b else a + Pow2(w) - b
  }

  function Pred(w: nat, x: nat): nat { if x == 0 then Pow2(w) - 1 else x - 1 }

  /** Complement in a w-bit type. */
  function Not(w: nat, x: nat): nat
    requires x < Pow2(w)
  {
    Pow2(w) - 1 - x
  }

  /** P2PHASE of sysmacros.h; align is meant to be a power of two. */
  function P2Phase(x: nat, align: nat): nat
    requires align > 0
  {
    And(x, align - 1)
  }

  /** IS_P2ALIGNED of sysmacros.h. */
  predicate IsP2Aligned(x: nat, align: nat)
    requires align > 0
  {
    And(x, align - 1) == 0
  }

  // ---------- powers of two, division and remainder ----------

  lemma Powers()
    ensures Pow2(0) == 1 && Pow2(1) == 2 && Pow2(2) == 4 && Pow2(3) == 8 && Pow2(8) == 0x100 && Pow2(9) == 0x200
    ensures Pow2(16) == 0x1_0000 && Pow2(24) == 0x100_0000
    ensures Pow2(31) == 0x8000_0000 && Pow2(32) == 0x1_0000_0000
    ensures Pow2(48) == 0x1_0000_0000_0000
    ensures Pow2(63) == 0x8000_0000_0000_0000 && Pow2(64) == 0x1_0000_0000_0000_0000
  {
    assert Pow2(8) == 0x100 && Pow2(9) == 0x200;
    Pow2Add(8, 8);
    Pow2Add(16, 8);
    Pow2Add(16, 16);
    Pow2Add(32, 16);
    Pow2Add(32, 32);
    Pow2Add(1, 31);
    Pow2Add(1, 63);
  }

  lemma {:induction false} Pow2Add(a: nat, b: nat)
    ensures Pow2(a + b) == Pow2(a) * Pow2(b)
  {
    if a > 0 {
      Pow2Add(a - 1, b);
      assert Pow2(a) * Pow2(b) == 2 * (Pow2(a - 1) * Pow2(b));
    }
  }

  lemma {:induction false} Pow2Less(a: nat, b: nat)
    requires a < b
    ensures Pow2(a) < Pow2(b)
    decreases b
  {
    if a + 1 < b { Pow2Less(a, b - 1); }
  }

  lemma DivModUnique(x: nat, d: nat, q: nat, r: nat)
    requires x == q * d + r && r < d
    ensures x / d == q && x % d == r
  {
    assert (x / d) * d + x % d == q * d + r;
    if x / d != q { NonzeroMultiple(x / d - q, d); }
  }

  lemma NonzeroMultiple(e: int, d: nat)
    requires e != 0
    ensures if e > 0 then e * d >= d else e * d <= -(d as int)
  {
    if e > 0 { assert (e - 1) * d >= 0; } else { assert (-e - 1) * d >= 0; }
  }

  lemma QuotientBelow(x: nat, d: nat, c: nat)
    requires d > 0 && x < d * c
    ensures x / d < c && x / d % c == x / d
  {
    assert x == (x / d) * d + x % d;
    if x / d >= c { assert (x / d - c) * d >= 0; }
    DivModUnique(x / d, c, 0, x / d);
  }

  /** Dividing by 2^k is halving once and then dividing by 2^(k-1). */
  lemma HalfStep(x: nat, k: nat)
    requires k > 0
    ensures x / Pow2(k) == x / 2 / Pow2(k - 1)
    ensures x % Pow2(k) == 2 * (x / 2 % Pow2(k - 1)) + x % 2
  {
    var d, h := Pow2(k - 1), x / 2;
    var q, r := h / d, h % d;
    assert h == q * d + r;
    assert x == q * (2 * d) + (2 * r + x % 2);
    DivModUnique(x, 2 * d, q, 2 * r + x % 2);
  }

  lemma {:induction false} ShrIsDiv(x: nat, k: nat)
    ensures Shr(x, k) == x / Pow2(k)
    decreases k
  {
    if k > 0 {
      HalfStep(x, k);
      ShrIsDiv(x / 2, k - 1);
    }
  }

  lemma {:induction false} LowIsMod(x: nat, k: nat)
    ensures Low(x, k) == x % Pow2(k) < Pow2(k)
    decreases k
  {
    if k > 0 {
      HalfStep(x, k);
      LowIsMod(x / 2, k - 1);
    }
  }

  lemma {:induction false} TimesIsMul(x: nat, k: nat)
    ensures Times(x, k) == x * Pow2(k)
    decreases k
  {
    if k > 0 {
      TimesIsMul(x, k - 1);
      assert x * Pow2(k) == 2 * (x * Pow2(k - 1));
    }
  }

  lemma {:induction false} TimesGap(a: nat, b: nat, k: nat)
    requires a < b
    ensures Times(a, k) + Pow2(k) <= Times(b, k)
    decreases k
  {
    if k > 0 { TimesGap(a, b, k - 1); }
  }

  /** A word is its high part moved back up, plus its low part. */
  lemma {:induction false} SplitAt(x: nat, k: nat)
    ensures x == Times(Shr(x, k), k) + Low(x, k)
    decreases k
  {
    if k > 0 { SplitAt(x / 2, k - 1); }
  }

  lemma {:induction false} SplitLow(x: nat, low: nat, len: nat)
    ensures Low(x, low + len) == Times(Low(Shr(x, low), len), low) + Low(x, low)
    decreases low
  {
    if low > 0 { SplitLow(x / 2, low - 1, len); }
  }

  lemma {:induction false} LowKeeps(x: nat, k: nat)
    ensures Low(x, k) == x <==> x < Pow2(k)
    decreases k
  {
    if k > 0 { LowKeeps(x / 2, k - 1); }
  }

  lemma {:induction false} LowAtMost(x: nat, k: nat)
    ensures Low(x, k) <= x && Low(x, k) < Pow2(k)
    decreases k
  {
    if k > 0 { LowAtMost(x / 2, k - 1); }
  }

  // ---------- the bits of each operator ----------

  lemma {:induction false} BitOfDouble(h: nat, b: nat, i: nat)
    requires b < 2
    ensures Bit(2 * h + b, i) == if i == 0 then b == 1 else Bit(h, i - 1)
  {
  }

  lemma {:induction false} BitOfBitwise(op: Op, x: nat, y: nat, i: nat)
    ensures Bit(Bitwise(op, x, y), i) == op.Apply(Bit(x, i), Bit(y, i))
    decreases i, x + y
  {
    if x == 0 && y == 0 {
      BitOfZero(i);
    } else {
      BitOfDouble(Bitwise(op, x / 2, y / 2), if op.Apply(x % 2 == 1, y % 2 == 1) then 1 else 0, i);
      if i > 0 { BitOfBitwise(op, x / 2, y / 2, i - 1); }
    }
  }

  /** The three C operators, bit by bit. */
  lemma OperatorBits(x: nat, y: nat, i: nat)
    ensures Bit(And(x, y), i) <==> Bit(x, i) && Bit(y, i)
    ensures Bit(Or(x, y), i) <==> Bit(x, i) || Bit(y, i)
    ensures Bit(Xor(x, y), i) <==> !(Bit(x, i) <==> Bit(y, i))
  {
    BitOfBitwise(AND, x, y, i);
    BitOfBitwise(OR, x, y, i);
    BitOfBitwise(XOR, x, y, i);
  }

  lemma {:induction false} BitIsDivMod(x: nat, i: nat)
    ensures Bit(x, i) <==> x / Pow2(i) % 2 == 1
    decreases i
  {
    if i > 0 {
      HalfStep(x, i);
      BitIsDivMod(x / 2, i - 1);
    }
  }

  lemma {:induction false} BitOfZero(i: nat)
    ensures !Bit(0, i)
  {
    if i > 0 { BitOfZero(i - 1); }
  }

  lemma {:induction false} BitOfShr(x: nat, k: nat, i: nat)
    ensures Bit(Shr(x, k), i) == Bit(x, k + i)
    decreases k
  {
    if k > 0 { BitOfShr(x / 2, k - 1, i); }
  }

  lemma {:induction false} BitOfLow(x: nat, k: nat, i: nat)
    ensures Bit(Low(x, k), i) == (i < k && Bit(x, i))
    decreases k
  {
    if k == 0 {
      BitOfZero(i);
    } else {
      BitOfDouble(Low(x / 2, k - 1), x % 2, i);
      if i > 0 { BitOfLow(x / 2, k - 1, i - 1); }
    }
  }

  lemma {:induction false} BitOfTimes(x: nat, k: nat, i: nat)
    ensures Bit(Times(x, k), i) == (k <= i && Bit(x, i - k))
    decreases k
  {
    if k > 0 {
      BitOfDouble(Times(x, k - 1), 0, i);
      if i > 0 { BitOfTimes(x, k - 1, i - 1); }
    }
  }

  lemma BitOfShl(w: nat, x: nat, k: nat, i: nat)
    ensures Bit(Shl(w, x, k), i) == (k <= i < w && Bit(x, i - k))
  {
    BitOfLow(Times(x, k), w, i);
    BitOfTimes(x, k, i);
  }

  lemma {:induction false} BitOfNot(w: nat, x: nat, i: nat)
    requires x < Pow2(w)
    ensures Bit(Not(w, x), i) == (i < w && !Bit(x, i))
    decreases w
  {
    if w == 0 {
      BitOfZero(i);
    } else {
      assert Not(w, x) / 2 == Not(w - 1, x / 2);
      if i > 0 { BitOfNot(w - 1, x / 2, i - 1); }
    }
  }

  lemma {:induction false} BitOfMask(k: nat, i: nat)
    ensures Bit(Pow2(k) - 1, i) == (i < k)
  {
    BitOfZero(i);
    BitOfNot(k, 0, i);
  }

  lemma {:induction false} BitAbove(x: nat, w: nat, i: nat)
    requires x < Pow2(w) && w <= i
    ensures !Bit(x, i)
  {
    LowKeeps(x, w);
    BitOfLow(x, w, i);
  }

  // ---------- words are equal when their bits are ----------

  lemma {:induction false} SameBits(x: nat, y: nat)
    requires forall i: nat :: Bit(x, i) == Bit(y, i)
    ensures x == y
    decreases x + y
  {
    if x != 0 || y != 0 {
      assert Bit(x, 0) == Bit(y, 0);
      forall i: nat ensures Bit(x / 2, i) == Bit(y / 2, i) {
        assert Bit(x, i + 1) == Bit(y, i + 1);
      }
      SameBits(x / 2, y / 2);
    }
  }

  /** With BitAbove: x fits in w bits exactly when no bit at or above w is set. */
  lemma FitsWidth(x: nat, w: nat)
    requires forall i: nat :: w <= i ==> !Bit(x, i)
    ensures x < Pow2(w)
  {
    forall i: nat ensures Bit(Low(x, w), i) == Bit(x, i) { BitOfLow(x, w, i); }
    SameBits(Low(x, w), x);
    LowKeeps(x, w);
  }

  /** A bitwise operator stays inside the width of its operands. */
  lemma {:induction false} BitwiseFits(op: Op, x: nat, y: nat, w: nat)
    requires x < Pow2(w) && y < Pow2(w)
    ensures Bitwise(op, x, y) < Pow2(w)
  {
    forall i: nat | w <= i ensures !Bit(Bitwise(op, x, y), i) {
      BitOfBitwise(op, x, y, i);
      BitAbove(x, w, i);
      BitAbove(y, w, i);
    }
    FitsWidth(Bitwise(op, x, y), w);
  }

  // ---------- P2PHASE and IS_P2ALIGNED as remainders ----------

  lemma PhaseIsLow(x: nat, k: nat)
    ensures P2Phase(x, Pow2(k)) == Low(x, k)
    ensures IsP2Aligned(x, Pow2(k)) <==> Low(x, k) == 0
  {
    forall i: nat ensures Bit(And(x, Pow2(k) - 1), i) == Bit(Low(x, k), i) {
      BitOfBitwise(AND, x, Pow2(k) - 1, i);
      BitOfMask(k, i);
      BitOfLow(x, k, i);
    }
    SameBits(And(x, Pow2(k) - 1), Low(x, k));
  }

  lemma PhaseIsRemainder(x: nat, k: nat)
    ensures P2Phase(x, Pow2(k)) == x % Pow2(k)
    ensures IsP2Aligned(x, Pow2(k)) <==> x % Pow2(k) == 0
  {
    PhaseIsLow(x, k);
    LowIsMod(x, k);
  }

  /** Shifting an aligned word down and back up restores it. */
  lemma ShrShl(w: nat, x: nat, k: nat)
    requires IsP2Aligned(x, Pow2(k)) && x < Pow2(w)
    ensures Times(Shr(x, k), k) == x && Shl(w, Shr(x, k), k) == x
  {
    PhaseIsLow(x, k);
    SplitAt(x, k);
    LowKeeps(x, w);
  }
}
