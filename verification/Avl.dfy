/** The AVL node of avl_impl.h: the 64-bit form that packs parent, child index and balance
    into one word, and the plain struct it must behave like. */
module Avl {
  import opened Bits
  import opened Bitops

  // ---------- macros on the packed word ----------

  function XParent(pcb: uint64): nat { And(pcb, Not(64, 7)) }

  function XChild(pcb: uint64): nat { And(Shr(pcb, 2), 1) }

  /** (int)((pcb & 3) - 1): the subtraction is unsigned and wraps, the cast truncates. */
  function XBalance(pcb: uint64): int {
    ToInt(Pred(64, And(pcb, 3)))
  }

  /** Conversion of a 64-bit unsigned value to a 32-bit signed one. */
  function ToInt(u: nat): int {
    var t := Low(u, 32);
    if t < Pow2(31) then t else t - Pow2(32)
  }

  function SetParent(pcb: uint64, p: uint64): nat { Or(And(pcb, 7), p) }

  function SetChild(pcb: uint64, c: nat): nat { Or(And(pcb, Not(64, 4)), Shl(64, c, 2)) }

  function SetBalance(pcb: uint64, b: int): nat
    requires b >= -1
  {
    Or(And(pcb, Not(64, 3)), b + 1)
  }

  // ---------- the plain struct ----------

  datatype Plain = Plain(parent: nat, child: nat, balance: int)

  datatype Update = Parent(p: uint64) | Child(c: nat) | Balance(b: int) {
    /** What the tree code stores: 8-byte aligned nodes, sides 0 and 1, balances -1, 0, +1. */
    predicate Legal() {
      match this
      case Parent(p) => p % 8 == 0
      case Child(c) => c < 2
      case Balance(b) => -1 <= b <= 1
    }
  }

  /** The struct's assignments, with the casts to unsigned short and short. */
  function PlainStep(node: Plain, u: Update): Plain {
    match u
    case Parent(p) => node.(parent := p)
    case Child(c) => node.(child := c % 0x1_0000)
    case Balance(b) => node.(balance := if b % 0x1_0000 < 0x8000 then b % 0x1_0000 else b % 0x1_0000 - 0x1_0000)
  }

  function PackedStep(pcb: uint64, u: Update): (r: uint64)
    requires u.Legal()
  {
    StepsArePuts(pcb, u);
    match u
    case Parent(p) => SetParent(pcb, p)
    case Child(c) => SetChild(pcb, c)
    case Balance(b) => SetBalance(pcb, b)
  }

  /** The node as its three getters show it. */
  function View(pcb: uint64): Plain {
    Plain(XParent(pcb), XChild(pcb), XBalance(pcb))
  }

  // ---------- both as fields of one layout ----------

  const PCB: Layout := [Field(0, 2), Field(2, 1), Field(3, 61)]

  lemma PcbTiles()
    ensures Tiles(64, PCB) && Separate(64, PCB)
  {
    TilesSeparate(64, PCB);
  }

  lemma ViewIsFields(pcb: uint64)
    ensures View(pcb) == Plain(8 * Get(pcb, PCB[2]), Get(pcb, PCB[1]), Get(pcb, PCB[0]) - 1)
  {
    hide Pow2, XParent, XChild, XBalance, Get;
    GetParent(pcb);
    GetChild(pcb);
    GetBalance(pcb);
  }

  lemma GetParent(pcb: uint64)
    ensures XParent(pcb) == 8 * Get(pcb, Field(3, 61))
  {
    Powers();
    hide Pow2, Bitwise, Shr;
    var v := Get(pcb, Field(3, 61));
    forall i: nat ensures Bit(XParent(pcb), i) == Bit(Times(v, 3), i) {
      BitOfBitwise(AND, pcb, Not(64, 7), i);
      BitOfNot(64, 7, i);
      BitOfMask(3, i);
      BitOfTimes(v, 3, i);
      if 3 <= i { BitOfDecode(pcb, 3, 61, i - 3); }
      if 64 <= i { BitAbove(pcb, 64, i); }
    }
    SameBits(XParent(pcb), Times(v, 3));
    TimesIsMul(v, 3);
  }

  lemma GetChild(pcb: uint64)
    ensures XChild(pcb) == Get(pcb, Field(2, 1)) < 2
  {
    Powers();
    hide Pow2, Bitwise, Shr;
    assert XChild(pcb) == Decode(pcb, 2, 1);
  }

  lemma GetBalance(pcb: uint64)
    ensures XBalance(pcb) == Get(pcb, Field(0, 2)) - 1 && Get(pcb, Field(0, 2)) < 4
  {
    Powers();
    assert Shr(pcb, 0) == pcb;
    hide Pow2, Bitwise, Shr, ToInt;
    var v := Get(pcb, Field(0, 2));
    assert v == And(pcb, 3);
    WrapBelow(v);
  }

  lemma WrapBelow(v: nat)
    requires v < 4
    ensures ToInt(Pred(64, v)) == v - 1
  {
    Powers();
    hide Pow2;
    if v > 0 {
      LowKeeps(v - 1, 32);
    } else {
      LowIsMod(Pow2(64) - 1, 32);
      DivModUnique(0xFFFF_FFFF_FFFF_FFFF, 0x1_0000_0000, 0xFFFF_FFFF, 0xFFFF_FFFF);
    }
  }

  /** What avl_pcb holds: the parent, four times the child index, and the balance plus one. */
  lemma PcbIsSum(pcb: uint64)
    ensures pcb == XParent(pcb) + 4 * XChild(pcb) + (XBalance(pcb) + 1)
    ensures XParent(pcb) % 8 == 0 && XChild(pcb) < 2 && -1 <= XBalance(pcb) <= 2
  {
    hide Pow2, XParent, XChild, XBalance, Get;
    GetParent(pcb);
    GetChild(pcb);
    GetBalance(pcb);
    FieldsAsDivMod(pcb);
  }

  lemma FieldsAsDivMod(pcb: uint64)
    ensures pcb == 8 * Get(pcb, Field(3, 61)) + 4 * Get(pcb, Field(2, 1)) + Get(pcb, Field(0, 2))
  {
    Powers();
    assert Pow2(2) == 4;
    Pow2Add(3, 61);
    hide Pow2, Decode;
    DecodeIsDivMod(pcb, 3, 61);
    DecodeIsDivMod(pcb, 2, 1);
    DecodeIsDivMod(pcb, 0, 2);
    QuotientBelow(pcb, 8, Pow2(61));
    EightParts(pcb);
  }

  lemma EightParts(x: nat)
    ensures x == 8 * (x / 8) + 4 * (x / 4 % 2) + x % 4
  {
    var q := x / 4;
    DivModUnique(x, 8, q / 2, 4 * (q % 2) + x % 4);
  }

  function FieldOf(u: Update): nat {
    match u
    case Parent(_) => 2
    case Child(_) => 1
    case Balance(_) => 0
  }

  function ValueOf(u: Update): nat
    requires u.Legal()
  {
    match u
    case Parent(p) => p / 8
    case Child(c) => c
    case Balance(b) => b + 1
  }

  lemma StepsArePuts(pcb: uint64, u: Update)
    requires u.Legal()
    ensures ValueOf(u) < Pow2(PCB[FieldOf(u)].len)
    ensures var y := Put(64, pcb, PCB[FieldOf(u)], ValueOf(u));
      y < Pow2(64) &&
      match u
      case Parent(p) => SetParent(pcb, p) == y
      case Child(c) => SetChild(pcb, c) == y
      case Balance(b) => SetBalance(pcb, b) == y
  {
    Powers();
    Pow2Add(3, 61);
    hide Pow2, Bitwise, Shr, Set, SetParent;
    var f := PCB[FieldOf(u)];
    SetFits(64, pcb, f.low, f.len, ValueOf(u));
    match u
    case Parent(p) => PutParent(pcb, p);
    case Child(c) =>
      ShlSmall(1, 2);
      ClearThenOr(64, pcb, Field(2, 1), c);
    case Balance(b) =>
      ShlSmall(3, 0);
      ShlSmall(b + 1, 0);
      ClearThenOr(64, pcb, Field(0, 2), b + 1);
  }

  lemma ShlSmall(v: nat, k: nat)
    requires v < 4 && k <= 2
    ensures v == 1 && k == 2 ==> Shl(64, v, k) == 4
    ensures k == 0 ==> Shl(64, v, k) == v
  {
    Powers();
    hide Pow2, Bitwise;
    TimesIsMul(v, k);
    if v == 1 && k == 2 { LowKeeps(4, 64); }
    if k == 0 { LowKeeps(v, 64); }
  }

  lemma PutParent(pcb: uint64, p: uint64)
    requires p % 8 == 0
    ensures p / 8 < Pow2(61) && SetParent(pcb, p) == Put(64, pcb, Field(3, 61), p / 8)
  {
    hide Pow2, Bitwise, Shr;
    Powers();
    Pow2Add(3, 61);
    TimesIsMul(p / 8, 3);
    var y := Put(64, pcb, Field(3, 61), p / 8);
    forall i: nat ensures Bit(SetParent(pcb, p), i) == Bit(y, i) {
      BitOfSet(64, pcb, 3, 61, p / 8, i);
      BitOfBitwise(OR, And(pcb, 7), p, i);
      BitOfBitwise(AND, pcb, 7, i);
      BitOfMask(3, i);
      BitOfTimes(p / 8, 3, i);
      if 64 <= i { BitAbove(pcb, 64, i); BitAbove(p, 64, i); }
    }
    SameBits(SetParent(pcb, p), y);
  }

  // ---------- the packed node simulates the plain one ----------

  lemma StepSimulates(pcb: uint64, u: Update)
    requires u.Legal()
    ensures View(PackedStep(pcb, u)) == PlainStep(View(pcb), u)
  {
    hide Pow2, Bitwise, Shr, Set, SetParent, SetChild, SetBalance, View;
    PcbTiles();
    StepsArePuts(pcb, u);
    UnpackPut(64, pcb, PCB, FieldOf(u), ValueOf(u));
    var after := PackedStep(pcb, u);
    ViewIsFields(pcb);
    ViewIsFields(after);
    assert forall k :: 0 <= k < 3 ==>
      Get(after, PCB[k]) == Unpack(after, PCB)[k] && Get(pcb, PCB[k]) == Unpack(pcb, PCB)[k];
  }

  ghost predicate AllLegalUpdates(us: seq<Update>) {
    forall i :: 0 <= i < |us| ==> us[i].Legal()
  }

  ghost function PackedRun(pcb: uint64, us: seq<Update>): uint64
    requires AllLegalUpdates(us)
    decreases |us|
  {
    if us == [] then pcb else PackedRun(PackedStep(pcb, us[0]), us[1..])
  }

  function PlainRun(node: Plain, us: seq<Update>): Plain
    decreases |us|
  {
    if us == [] then node else PlainRun(PlainStep(node, us[0]), us[1..])
  }

  /** After any run of legal stores, from any word at all, the getters of the packed node
      show what the plain struct holds. */
  lemma {:induction false} PackedRefinesPlain(pcb: uint64, us: seq<Update>)
    requires AllLegalUpdates(us)
    ensures View(PackedRun(pcb, us)) == PlainRun(View(pcb), us)
    decreases |us|
  {
    if us != [] {
      StepSimulates(pcb, us[0]);
      PackedRefinesPlain(PackedStep(pcb, us[0]), us[1..]);
    }
  }

  /** A parent store meets the struct's assignment exactly when the pointer is aligned. */
  lemma ParentNeedsAlignment(pcb: uint64, p: uint64)
    ensures p % 8 == 0 ==> View(PackedStep(pcb, Parent(p))) == View(pcb).(parent := p)
    ensures p % 8 != 0 ==> SetParent(pcb, p) < Pow2(64) && XParent(SetParent(pcb, p)) != p
  {
    hide Pow2, Bitwise;
    if p % 8 == 0 {
      StepSimulates(pcb, Parent(p));
    } else {
      Powers();
      BitwiseFits(AND, pcb, 7, 64);
      BitwiseFits(OR, And(pcb, 7), p, 64);
      GetParent(SetParent(pcb, p));
    }
  }

  /** A node whose stores happen in place. */
  class PackedNode {
    var pcb: uint64

    method AvlSetParent(p: uint64)
      requires p % 8 == 0
      modifies this
      ensures View(pcb) == View(old(pcb)).(parent := p)
    {
      hide Pow2, Bitwise, View;
      StepSimulates(pcb, Parent(p));
      StepsArePuts(pcb, Parent(p));
      pcb := Or(And(pcb, 7), p);
    }

    method AvlSetChild(c: nat)
      requires c < 2
      modifies this
      ensures View(pcb) == View(old(pcb)).(child := c)
    {
      hide Pow2, Bitwise, View;
      StepSimulates(pcb, Child(c));
      StepsArePuts(pcb, Child(c));
      pcb := Or(And(pcb, Not(64, 4)), Shl(64, c, 2));
    }

    method AvlSetBalance(b: int)
      requires -1 <= b <= 1
      modifies this
      ensures View(pcb) == View(old(pcb)).(balance := b)
    {
      hide Pow2, Bitwise, View;
      StepSimulates(pcb, Balance(b));
      StepsArePuts(pcb, Balance(b));
      pcb := Or(And(pcb, Not(64, 3)), b + 1);
    }
  }

  // ---------- avl_index_t ----------

  function MkIndex(n: uint64, c: nat): nat { Or(n, c) }
  function IndexToChild(x: nat): nat { And(x, 1) }
  function IndexToNode(x: uint64): nat { And(x, Not(64, 1)) }

  /** A node address and a side share one word without loss exactly when the address is even. */
  lemma IndexRoundTrip(n: uint64, c: nat)
    requires c < 2
    ensures MkIndex(n, c) < Pow2(64) && (n % 2 == 0 ==> MkIndex(n, c) == n + c)
    ensures IndexToNode(MkIndex(n, c)) == n && IndexToChild(MkIndex(n, c)) == c <==> n % 2 == 0
  {
    var x := MkIndex(n, c);
    Powers();
    BitwiseFits(OR, n, c, 64);
    PhaseIsRemainder(x, 1);
    NodeIsEvenPart(x);
    HalvesOfOr(n, c);
  }

  lemma NodeIsEvenPart(x: uint64)
    ensures IndexToNode(x) == x / 2 * 2
  {
    Powers();
    hide Pow2, Bitwise;
    forall i: nat ensures Bit(IndexToNode(x), i) == Bit(2 * (x / 2) + 0, i) {
      BitOfBitwise(AND, x, Not(64, 1), i);
      BitOfNot(64, 1, i);
      BitOfMask(1, i);
      BitOfDouble(x / 2, 0, i);
      if 64 <= i { BitAbove(x, 64, i); }
    }
    SameBits(IndexToNode(x), 2 * (x / 2) + 0);
  }

  lemma HalvesOfOr(n: nat, c: nat)
    requires c < 2
    ensures Or(n, c) / 2 == n / 2 && Or(n, c) % 2 == if n % 2 == 1 || c == 1 then 1 else 0
  {
    if n != 0 || c != 0 { OrZero(n / 2); }
  }
}
