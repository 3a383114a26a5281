/** The multihost configuration word and the RAIDZ reflow word of uberblock_impl.h. */
module Uberblock {
  import opened Bits
  import opened Bitops
  import opened Spa
  import opened Wrappers

  const UBERBLOCK_MAGIC := 0x00bab10c
  const MMP_MAGIC := 0xa11cea11
  const MMP_INTERVAL_VALID_BIT := 0x01
  const MMP_SEQ_VALID_BIT := 0x02
  const MMP_FAIL_INT_VALID_BIT := 0x04

  // ---------- MMP configuration ----------

  /** The uberblock fields the MMP macros look at. */
  datatype Mmp = Mmp(magic: nat, mmpMagic: nat, config: nat)

  predicate MmpValid(ub: Mmp) { ub.magic == UBERBLOCK_MAGIC && ub.mmpMagic == MMP_MAGIC }

  predicate MmpIntervalValid(ub: Mmp) { MmpValid(ub) && And(ub.config, MMP_INTERVAL_VALID_BIT) != 0 }

  predicate MmpSeqValid(ub: Mmp) { MmpValid(ub) && And(ub.config, MMP_SEQ_VALID_BIT) != 0 }

  predicate MmpFailIntValid(ub: Mmp) { MmpValid(ub) && And(ub.config, MMP_FAIL_INT_VALID_BIT) != 0 }

  function MmpInterval(config: nat): nat { Shr(And(config, 0x00000000FFFFFF00), 8) }
  function MmpSeq(config: nat): nat { Shr(And(config, 0x0000FFFF00000000), 32) }
  function MmpFailInt(config: nat): nat { Shr(And(config, 0xFFFF000000000000), 48) }

  function MmpIntervalSet(write: nat): nat {
    Or(Shl(64, And(write, 0xFFFFFF), 8), MMP_INTERVAL_VALID_BIT)
  }

  function MmpSeqSet(s: nat): nat {
    Or(Shl(64, And(s, 0xFFFF), 32), MMP_SEQ_VALID_BIT)
  }

  function MmpFailIntSet(fail: nat): nat {
    Or(Shl(64, And(fail, 0xFFFF), 48), MMP_FAIL_INT_VALID_BIT)
  }

  /** The settings a writer chose, joined with |. */
  function Config(interval: Option<nat>, s: Option<nat>, fail: Option<nat>): nat {
    OrAll([if interval.Some? then MmpIntervalSet(interval.value) else 0,
           if s.Some? then MmpSeqSet(s.value) else 0,
           if fail.Some? then MmpFailIntSet(fail.value) else 0])
  }

  /** A value shifted into field f, and the valid bit b that announces it. */
  function Announced(v: Option<nat>, f: Field, b: Field): nat {
    if v.None? then 0 else Or(Encode(64, v.value, f.low, f.len), Encode(64, 1, b.low, b.len))
  }

  lemma GetAnnounced(v: Option<nat>, f: Field, b: Field, g: Field)
    requires f.low + f.len <= 64 && b.low + b.len <= 64 && b.len == 1 && g.len > 0
    requires Disjoint(f, b) && (g == f || Disjoint(f, g)) && (g == b || Disjoint(b, g))
    ensures Get(Announced(v, f, b), g) ==
      if v.None? then 0 else if g == f then Low(v.value, f.len) else if g == b then 1 else 0
  {
    if v.None? {
      GetOrAll([], g, 0);
    } else {
      var x, y := Encode(64, v.value, f.low, f.len), Encode(64, 1, b.low, b.len);
      GetOr(x, y, g);
      GetEncode(64, v.value, f, g);
      GetEncode(64, 1, b, g);
      OrZero(Get(x, g));
      OrZero(Get(y, g));
      assert Low(1, 1) == 1;
    }
  }

  const VALID_INTERVAL := Field(0, 1)
  const VALID_SEQ := Field(1, 1)
  const VALID_FAIL := Field(2, 1)
  const RESERVED := Field(3, 5)
  const INTERVAL := Field(8, 24)
  const SEQ := Field(32, 16)
  const FAIL := Field(48, 16)

  lemma ValidBit(k: nat)
    requires k < 3
    ensures Encode(64, 1, k, 1) == Pow2(k)
  {
    Powers();
    PhaseIsLow(1, 1);
    LowKeeps(1, 1);
    TimesIsMul(1, k);
    Pow2Less(k, 64);
    LowKeeps(Pow2(k), 64);
  }

  lemma SettersAnnounce(v: nat)
    ensures MmpIntervalSet(v) == Announced(Some(v), INTERVAL, VALID_INTERVAL)
    ensures MmpSeqSet(v) == Announced(Some(v), SEQ, VALID_SEQ)
    ensures MmpFailIntSet(v) == Announced(Some(v), FAIL, VALID_FAIL)
  {
    Powers();
    hide Pow2, Bitwise, Shl;
    ValidBit(0);
    ValidBit(1);
    ValidBit(2);
  }

  /** Masking a field in place and shifting it down is BF_DECODE. */
  lemma MaskThenShift(x: nat, f: Field)
    requires f.low + f.len <= 64
    ensures Shr(And(x, Shl(64, Pow2(f.len) - 1, f.low)), f.low) == Get(x, f)
  {
    hide Pow2, Bitwise, Shr;
    var m := Shl(64, Pow2(f.len) - 1, f.low);
    forall i: nat ensures Bit(Shr(And(x, m), f.low), i) == Bit(Get(x, f), i) {
      BitOfShr(And(x, m), f.low, i);
      BitOfBitwise(AND, x, m, f.low + i);
      BitOfShl(64, Pow2(f.len) - 1, f.low, f.low + i);
      BitOfMask(f.len, i);
      BitOfDecode(x, f.low, f.len, i);
    }
    SameBits(Shr(And(x, m), f.low), Get(x, f));
  }

  lemma Masks()
    ensures Shl(64, Pow2(24) - 1, 8) == 0x00000000FFFFFF00
    ensures Shl(64, Pow2(16) - 1, 32) == 0x0000FFFF00000000
    ensures Shl(64, Pow2(16) - 1, 48) == 0xFFFF000000000000
  {
    Powers();
    hide Pow2;
    TimesIsMul(Pow2(24) - 1, 8);
    TimesIsMul(Pow2(16) - 1, 32);
    TimesIsMul(Pow2(16) - 1, 48);
    LowKeeps(0x00000000FFFFFF00, 64);
    LowKeeps(0x0000FFFF00000000, 64);
    LowKeeps(0xFFFF000000000000, 64);
  }

  lemma GettersDecode(config: nat)
    ensures MmpInterval(config) == Get(config, INTERVAL)
    ensures MmpSeq(config) == Get(config, SEQ)
    ensures MmpFailInt(config) == Get(config, FAIL)
  {
    Masks();
    hide Pow2, Bitwise, Shr, Shl, Get;
    MaskThenShift(config, INTERVAL);
    MaskThenShift(config, SEQ);
    MaskThenShift(config, FAIL);
  }

  /** Where a setting sits, for any word: the valid bits 0 to 2, then 24, 16 and 16 bits. */
  lemma MmpPositions(ub: Mmp)
    ensures ub.magic == 0x00bab10c && ub.mmpMagic == 0xa11cea11 ==>
      (MmpIntervalValid(ub) <==> ub.config % 2 == 1) &&
      (MmpSeqValid(ub) <==> ub.config / 2 % 2 == 1) &&
      (MmpFailIntValid(ub) <==> ub.config / 4 % 2 == 1)
    ensures MmpInterval(ub.config) == ub.config / Pow2(8) % Pow2(24)
    ensures MmpSeq(ub.config) == ub.config / Pow2(32) % Pow2(16)
    ensures MmpFailInt(ub.config) == ub.config / Pow2(48) % Pow2(16)
  {
    Powers();
    hide Pow2, Bitwise, MmpInterval, MmpSeq, MmpFailInt;
    var c := ub.config;
    GettersDecode(c);
    DecodeIsDivMod(c, 8, 24);
    DecodeIsDivMod(c, 32, 16);
    DecodeIsDivMod(c, 48, 16);
    BitTest(c, 0);
    BitTest(c, 1);
    BitTest(c, 2);
    BitIsDivMod(c, 0);
    BitIsDivMod(c, 1);
    BitIsDivMod(c, 2);
  }

  /** Which announced setting a field of the configuration word belongs to. */
  function Owner(g: Field): nat {
    if g == INTERVAL || g == VALID_INTERVAL then 0
    else if g == SEQ || g == VALID_SEQ then 1
    else if g == FAIL || g == VALID_FAIL then 2
    else 3
  }

  lemma ConfigField(ws: seq<nat>, a: Option<nat>, b: Option<nat>, c: Option<nat>, g: Field)
    requires ws == [Announced(a, INTERVAL, VALID_INTERVAL), Announced(b, SEQ, VALID_SEQ),
                    Announced(c, FAIL, VALID_FAIL)]
    requires g in {VALID_INTERVAL, VALID_SEQ, VALID_FAIL, RESERVED, INTERVAL, SEQ, FAIL}
    ensures Get(OrAll(ws), g) == match Owner(g)
      case 0 => if a.None? then 0 else if g == INTERVAL then Low(a.value, 24) else 1
      case 1 => if b.None? then 0 else if g == SEQ then Low(b.value, 16) else 1
      case 2 => if c.None? then 0 else if g == FAIL then Low(c.value, 16) else 1
      case _ => 0
  {
    hide Pow2, OrAll, Get, Announced;
    GetAnnounced(a, INTERVAL, VALID_INTERVAL, g);
    GetAnnounced(b, SEQ, VALID_SEQ, g);
    GetAnnounced(c, FAIL, VALID_FAIL, g);
    GetOrAll(ws, g, Owner(g));
  }

  lemma ConfigIsAnnounced(a: Option<nat>, b: Option<nat>, c: Option<nat>)
    ensures Config(a, b, c) ==
      OrAll([Announced(a, INTERVAL, VALID_INTERVAL), Announced(b, SEQ, VALID_SEQ), Announced(c, FAIL, VALID_FAIL)])
  {
    hide OrAll, Or, Encode, MmpIntervalSet, MmpSeqSet, MmpFailIntSet;
    if a.Some? { SettersAnnounce(a.value); }
    if b.Some? { SettersAnnounce(b.value); }
    if c.Some? { SettersAnnounce(c.value); }
  }

  /** Any subset of the three settings: exactly the chosen valid bits are set, each chosen
      value reads back cut to its field, and an unchosen one reads zero. */
  lemma ConfigReadsBack(interval: Option<nat>, s: Option<nat>, fail: Option<nat>)
    ensures var c := Config(interval, s, fail);
      forall ub: Mmp :: ub.config == c ==>
        var magics := ub.magic == 0x00bab10c && ub.mmpMagic == 0xa11cea11;
        (MmpValid(ub) <==> magics) &&
        (MmpIntervalValid(ub) <==> magics && interval.Some?) &&
        (MmpSeqValid(ub) <==> magics && s.Some?) &&
        (MmpFailIntValid(ub) <==> magics && fail.Some?)
    ensures var c := Config(interval, s, fail);
      Get(c, RESERVED) == 0 &&
      MmpInterval(c) == (if interval.Some? then Low(interval.value, 24) else 0) &&
      MmpSeq(c) == (if s.Some? then Low(s.value, 16) else 0) &&
      MmpFailInt(c) == (if fail.Some? then Low(fail.value, 16) else 0)
  {
    Powers();
    hide Pow2, Bitwise, OrAll, Decode, Announced, Config, MmpInterval, MmpSeq, MmpFailInt;
    var ws := [Announced(interval, INTERVAL, VALID_INTERVAL), Announced(s, SEQ, VALID_SEQ),
               Announced(fail, FAIL, VALID_FAIL)];
    var c := Config(interval, s, fail);
    ConfigIsAnnounced(interval, s, fail);
    ConfigField(ws, interval, s, fail, INTERVAL);
    ConfigField(ws, interval, s, fail, SEQ);
    ConfigField(ws, interval, s, fail, FAIL);
    ConfigField(ws, interval, s, fail, RESERVED);
    ConfigField(ws, interval, s, fail, VALID_INTERVAL);
    ConfigField(ws, interval, s, fail, VALID_SEQ);
    ConfigField(ws, interval, s, fail, VALID_FAIL);
    GettersDecode(c);
    BitTest(c, 0);
    BitTest(c, 1);
    BitTest(c, 2);
  }

  // ---------- RAIDZ reflow ----------

  const REFLOW: Layout := [Field(0, 55), Field(55, 9)]

  function ReflowOffset(info: nat): nat { GetSB(64, info, 0, 55, SPA_MINBLOCKSHIFT, 0) }
  function ReflowState(info: nat): nat { Decode(info, 55, 9) }

  /** The offset and state an uberblock's reflow word is set to. */
  class Reflow {
    var info: uint64

    /** RRSS_SET_OFFSET: the shift by 9 lets 55 bits hold any aligned 64-bit offset. */
    method SetOffset(offset: uint64)
      requires IsP2Aligned(offset, Pow2(SPA_MINBLOCKSHIFT))
      modifies this
      ensures ReflowOffset(info) == offset && ReflowState(info) == ReflowState(old(info))
    {
      hide Pow2, Bitwise, Shr, Set;
      AlignedOffsetFits(offset);
      GetSetSB(64, info, 0, 55, 9, 0, offset);
      GetSetOther(64, info, Field(0, 55), Shr(offset, 9), Field(55, 9));
      SetFits(64, info, 0, 55, Shr(offset, 9));
      info := SetSB(64, info, 0, 55, SPA_MINBLOCKSHIFT, 0, offset);
    }

    method SetState(x: nat)
      requires x < Pow2(9)
      modifies this
      ensures ReflowState(info) == x && ReflowOffset(info) == ReflowOffset(old(info))
    {
      hide Pow2, Bitwise, Shr, Set;
      GetSet(64, info, Field(55, 9), x);
      GetSetOther(64, info, Field(55, 9), x, Field(0, 55));
      SetFits(64, info, 55, 9, x);
      info := Set(64, info, 55, 9, x);
    }

    /** RAIDZ_REFLOW_SET: whatever the word held before, it is now the one word that reads
        back as this offset and state. */
    method RaidzReflowSet(state: nat, offset: uint64)
      requires state < Pow2(9) && IsP2Aligned(offset, Pow2(SPA_MINBLOCKSHIFT))
      modifies this
      ensures ReflowOffset(info) == offset && ReflowState(info) == state
      ensures forall x: uint64 :: ReflowOffset(x) == offset && ReflowState(x) == state ==> x == info
    {
      hide Pow2, Bitwise, ReflowOffset, ReflowState;
      info := 0;
      SetOffset(offset);
      SetState(state);
      forall x: uint64 | ReflowOffset(x) == offset && ReflowState(x) == state ensures x == info {
        ReflowDetermined(x, info);
      }
    }
  }

  lemma AlignedOffsetFits(offset: uint64)
    requires IsP2Aligned(offset, Pow2(9))
    ensures Shr(offset, 9) < Pow2(55) && CanSetSB(64, 0, 55, 9, 0, offset)
  {
    Powers();
    hide Pow2, Bitwise, Shr;
    ShrShl(64, offset, 9);
    TimesIsMul(Shr(offset, 9), 9);
    Pow2Add(55, 9);
    assert Shr(offset, 9) * 512 < Pow2(55) * 512;
  }

  lemma ReflowDetermined(x: uint64, y: uint64)
    requires ReflowOffset(x) == ReflowOffset(y) && ReflowState(x) == ReflowState(y)
    ensures x == y
  {
    hide Bitwise, Shr, Get;
    FieldOfOffset(x);
    FieldOfOffset(y);
    assert Unpack(x, REFLOW) == Unpack(y, REFLOW);
    UnpackInjective(64, REFLOW, x, y);
  }

  /** Offset in units of 512 bytes below bit 55, state above it. */
  lemma ReflowPositions(info: uint64)
    ensures ReflowOffset(info) == info % Pow2(55) * 512
    ensures ReflowState(info) == info / Pow2(55)
  {
    Powers();
    Pow2Add(55, 9);
    hide Pow2, Bitwise, Shr;
    FieldOfOffset(info);
    DecodeIsDivMod(info, 0, 55);
    DecodeIsDivMod(info, 55, 9);
    QuotientBelow(info, Pow2(55), Pow2(9));
  }

  lemma FieldOfOffset(x: nat)
    ensures ReflowOffset(x) == 512 * Get(x, REFLOW[0]) && ReflowState(x) == Get(x, REFLOW[1])
  {
    var g := Get(x, REFLOW[0]);
    Powers();
    Pow2Add(55, 9);
    hide Pow2, Bitwise, Shr;
    assert g == Decode(x, 0, 55) && g * Pow2(9) < Pow2(55) * 512;
    TimesIsMul(g, 9);
    LowKeeps(g * 512, 64);
  }
}
