/** The sortable metaslab weight of metaslab_impl.h. */
module MetaslabWeight {
  import opened Bits
  import opened Bitops

  /** Count of segments, histogram index, type bit, activation bits (claim, secondary, primary). */
  const WEIGHT: Layout := [Field(0, 54), Field(54, 6), Field(60, 1), Field(61, 3)]

  function GetCount(weight: nat): nat { Decode(weight, 0, 54) }
  function GetIndex(weight: nat): nat { Decode(weight, 54, 6) }
  function GetType(weight: nat): nat { Decode(weight, 60, 1) }
  function GetActive(weight: nat): nat { Decode(weight, 61, 3) }

  predicate IsSpaceBased(weight: nat) { weight == 0 || GetType(weight) != 0 }

  /** METASLAB_ACTIVE_MASK. */
  function ActiveMask(): nat {
    Or(Or(Shl(64, 1, 63), Shl(64, 1, 62)), Shl(64, 1, 61))
  }

  datatype Weight = Weight(count: nat, index: nat, typ: nat, active: nat)

  function View(weight: nat): Weight {
    Weight(GetCount(weight), GetIndex(weight), GetType(weight), GetActive(weight))
  }

  lemma WeightTiles()
    ensures Tiles(64, WEIGHT) && Separate(64, WEIGHT)
  {
    TilesSeparate(64, WEIGHT);
  }

  lemma SetActsOnView(weight: uint64, k: nat, v: nat)
    requires k < 4 && v < Pow2(WEIGHT[k].len)
    ensures var w := Set(64, weight, WEIGHT[k].low, WEIGHT[k].len, v);
      w < Pow2(64) &&
      View(w) == match k
        case 0 => View(weight).(count := v)
        case 1 => View(weight).(index := v)
        case 2 => View(weight).(typ := v)
        case _ => View(weight).(active := v)
  {
    hide Pow2, Bitwise, Shr, Set, Get;
    WeightTiles();
    SetFits(64, weight, WEIGHT[k].low, WEIGHT[k].len, v);
    UnpackPut(64, weight, WEIGHT, k, v);
    ViewIsUnpack(weight);
    ViewIsUnpack(Put(64, weight, WEIGHT[k], v));
  }

  lemma ViewIsUnpack(weight: nat)
    ensures var u := Unpack(weight, WEIGHT);
      View(weight) == Weight(u[0], u[1], u[2], u[3])
  {
  }

  /** The four fields from the bottom up: 54 bits of count, 6 of index, the type bit, 3 of activation. */
  lemma WeightPositions(weight: uint64)
    ensures GetCount(weight) == weight % Pow2(54) && GetIndex(weight) == weight / Pow2(54) % 64
    ensures GetType(weight) == weight / Pow2(60) % 2 && GetActive(weight) == weight / Pow2(61)
  {
    assert Pow2(6) == 64 && Pow2(3) == 8 && Pow2(1) == 2 && Pow2(0) == 1;
    Pow2Add(61, 3);
    hide Pow2, Bitwise, Shr;
    DecodeIsDivMod(weight, 0, 54);
    DecodeIsDivMod(weight, 54, 6);
    DecodeIsDivMod(weight, 60, 1);
    DecodeIsDivMod(weight, 61, 3);
    QuotientBelow(weight, Pow2(61), Pow2(3));
  }

  /** Zero is space-based; any other weight is exactly when its bit 60 is set. */
  lemma SpaceBasedIsBit60(weight: uint64)
    ensures IsSpaceBased(0)
    ensures weight != 0 ==> (IsSpaceBased(weight) <==> Bit(weight, 60))
  {
    hide Pow2, Bitwise, Decode;
    BitTest(weight, 60);
  }

  class MetaslabWord {
    var weight: uint64

    method SetActive(x: nat)
      requires x < Pow2(3)
      modifies this
      ensures View(weight) == View(old(weight)).(active := x)
    {
      hide Pow2, Bitwise, Shr, Set;
      SetActsOnView(weight, 3, x);
      weight := Set(64, weight, 61, 3, x);
    }

    method SetSpaceBased()
      modifies this
      ensures View(weight) == View(old(weight)).(typ := 1) && IsSpaceBased(weight)
    {
      Powers();
      hide Pow2, Bitwise, Shr, Set;
      SetActsOnView(weight, 2, 1);
      weight := Set(64, weight, 60, 1, 1);
    }

    method SetIndex(x: nat)
      requires x < Pow2(6)
      modifies this
      ensures View(weight) == View(old(weight)).(index := x)
    {
      hide Pow2, Bitwise, Shr, Set;
      SetActsOnView(weight, 1, x);
      weight := Set(64, weight, 54, 6, x);
    }

    method SetCount(x: nat)
      requires x < Pow2(54)
      modifies this
      ensures View(weight) == View(old(weight)).(count := x)
    {
      hide Pow2, Bitwise, Shr, Set;
      SetActsOnView(weight, 0, x);
      weight := Set(64, weight, 0, 54, x);
    }
  }

  // ---------- order ----------

  /** First the activation, then the type bit, then the bucket index, then the count. */
  predicate Below(u: Weight, v: Weight) {
    u.active < v.active || (u.active == v.active &&
    (u.typ < v.typ || (u.typ == v.typ &&
    (u.index < v.index || (u.index == v.index && u.count < v.count)))))
  }

  /** Unsigned comparison of two weights is comparison of their fields in that order. */
  lemma WeightOrder(x: uint64, y: uint64)
    ensures x < y <==> Below(View(x), View(y))
  {
    hide Pow2, Bitwise, Shr, Get;
    WeightTiles();
    OrderIsLexicographic(64, WEIGHT, x, y);
    ViewIsUnpack(x);
    ViewIsUnpack(y);
    LexLess4(Unpack(x, WEIGHT), Unpack(y, WEIGHT));
  }

  lemma LexLess4(u: seq<nat>, v: seq<nat>)
    requires |u| == |v| == 4
    ensures LexLess(u, v) <==> Below(Weight(u[0], u[1], u[2], u[3]), Weight(v[0], v[1], v[2], v[3]))
  {
    assert LexLess(u[..1], v[..1]) <==> u[0] < v[0];
    assert u[..2][..1] == u[..1] && v[..2][..1] == v[..1];
    assert LexLess(u[..2], v[..2]) <==> u[1] < v[1] || (u[1] == v[1] && u[0] < v[0]);
    assert u[..3][..2] == u[..2] && v[..3][..2] == v[..2];
    assert LexLess(u[..3], v[..3]) <==> u[2] < v[2] || (u[2] == v[2] && LexLess(u[..2], v[..2]));
  }

  /** Fields and order determine each other: a weight is its four fields. */
  lemma WeightIsItsFields(x: uint64, y: uint64)
    ensures View(x) == View(y) <==> x == y
  {
    WeightOrder(x, y);
    WeightOrder(y, x);
  }

  /** What sorting by weight relies on: every activated metaslab is above every inactive
      one; among equally active segment-based ones a larger bucket always wins and the count
      breaks ties; space-based ones are above segment-based ones. */
  lemma SortingConsequences(x: uint64, y: uint64)
    ensures And(x, ActiveMask()) == 0 && And(y, ActiveMask()) != 0 ==> x < y
    ensures GetActive(x) == GetActive(y) && GetType(x) == 0 && GetType(y) == 0 ==>
      (x < y <==> GetIndex(x) < GetIndex(y) || (GetIndex(x) == GetIndex(y) && GetCount(x) < GetCount(y)))
    ensures GetActive(x) == GetActive(y) && GetType(x) == 0 && GetType(y) == 1 ==> x < y
  {
    WeightOrder(x, y);
    MaskTestsActive(x);
    MaskTestsActive(y);
  }

  lemma MaskTestsActive(x: uint64)
    ensures And(x, ActiveMask()) == 0 <==> GetActive(x) == 0
  {
    var a, m := And(x, ActiveMask()), GetActive(x);
    hide Pow2, Bitwise, Shr, ActiveMask, GetActive;
    forall i: nat ensures Bit(a, i) == (61 <= i < 64 && Bit(m, i - 61)) {
      BitOfBitwise(AND, x, ActiveMask(), i);
      BitOfActiveMask(i);
      if 61 <= i { ActiveBit(x, i - 61); }
    }
    if m == 0 {
      forall i: nat ensures Bit(a, i) == Bit(0, i) {
        BitOfZero(i);
        if 61 <= i { BitOfZero(i - 61); }
      }
      SameBits(a, 0);
    }
    if a == 0 {
      forall i: nat ensures Bit(m, i) == Bit(0, i) {
        BitOfZero(i);
        BitOfZero(i + 61);
        ActiveBit(x, i);
        assert Bit(a, i + 61) == (i < 3 && Bit(m, i));
      }
      SameBits(m, 0);
    }
  }

  lemma ActiveBit(x: nat, i: nat)
    ensures Bit(GetActive(x), i) == (i < 3 && Bit(x, 61 + i))
  {
    BitOfDecode(x, 61, 3, i);
  }

  lemma BitOfActiveMask(i: nat)
    ensures Bit(ActiveMask(), i) == (61 <= i < 64)
  {
    hide Pow2, Bitwise, Shl;
    var p, s, c := Shl(64, 1, 63), Shl(64, 1, 62), Shl(64, 1, 61);
    BitOfBitwise(OR, Or(p, s), c, i);
    BitOfBitwise(OR, p, s, i);
    OneBit(63, i);
    OneBit(62, i);
    OneBit(61, i);
  }

  lemma OneBit(k: nat, i: nat)
    requires k < 64
    ensures Bit(Shl(64, 1, k), i) == (i == k)
  {
    BitOfShl(64, 1, k, i);
    if k < i { BitOfZero(i - k - 1); }
  }

  /** Activating two equally active metaslabs alike keeps their order. */
  lemma ActivationKeepsOrder(x: uint64, y: uint64, a: nat)
    requires a < Pow2(3) && GetActive(x) == GetActive(y)
    ensures Set(64, x, 61, 3, a) < Set(64, y, 61, 3, a) <==> x < y
  {
    SetActsOnView(x, 3, a);
    SetActsOnView(y, 3, a);
    WeightOrder(x, y);
    WeightOrder(Set(64, x, 61, 3, a), Set(64, y, 61, 3, a));
  }
}
