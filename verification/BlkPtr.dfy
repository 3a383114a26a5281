/** Block pointers (spa.h): data virtual addresses, fill count, birth times and the fields
    that encrypted block pointers keep in the space of others. */
module BlkPtr {
  import opened Bits
  import opened Bitops
  import opened BlkProp
  import opened Spa

  /** dva_t: two words. */
  datatype Dva = Dva(word0: uint64, word1: uint64)

  function DvaAsize(dva: Dva): nat { GetSB(64, dva.word0, 0, SPA_ASIZEBITS, SPA_MINBLOCKSHIFT, 0) }
  function DvaVdev(dva: Dva): nat { Decode(dva.word0, 32, SPA_VDEVBITS) }
  function DvaOffset(dva: Dva): nat { GetSB(64, dva.word1, 0, 63, SPA_MINBLOCKSHIFT, 0) }
  function DvaGang(dva: Dva): nat { Decode(dva.word1, 63, 1) }

  /** blkptr_t; the padding word and the checksum play no part here. */
  datatype Blk = Blk(dva0: Dva, dva1: Dva, dva2: Dva, prop: uint64, prop2: uint64,
                     physicalBirth: uint64, logicalBirth: uint64, fill: uint64)

  /** DMU_OT_IS_ENCRYPTED: new-style types carry the answer, old ones look it up in a table
      that is not part of this model. */
  predicate TypeIsEncrypted(ot: nat, table: nat -> bool) {
    if And(ot, 0x80) != 0 then And(ot, 0x20) != 0 else table(ot)
  }

  predicate IsEncrypted(bp: Blk, table: nat -> bool) {
    UsesCrypt(bp.prop) != 0 && Level(bp.prop) <= 0 && TypeIsEncrypted(Type(bp.prop), table)
  }

  predicate IsAuthenticated(bp: Blk, table: nat -> bool) {
    UsesCrypt(bp.prop) != 0 && Level(bp.prop) <= 0 && !TypeIsEncrypted(Type(bp.prop), table)
  }

  predicate HasIndirectMac(bp: Blk) {
    UsesCrypt(bp.prop) != 0 && Level(bp.prop) > 0
  }

  predicate IsProtected(bp: Blk, table: nat -> bool) {
    IsEncrypted(bp, table) || IsAuthenticated(bp, table)
  }

  function Count(b: bool): nat { if b then 1 else 0 }

  function Asize(bp: Blk, table: nat -> bool): nat {
    if IsEmbedded(bp.prop) then 0
    else DvaAsize(bp.dva0) + DvaAsize(bp.dva1) + DvaAsize(bp.dva2) * Count(!IsEncrypted(bp, table))
  }

  function NDvas(bp: Blk, table: nat -> bool): nat {
    if IsEmbedded(bp.prop) then 0
    else
      Count(DvaAsize(bp.dva0) != 0) + Count(DvaAsize(bp.dva1) != 0) +
      Count(DvaAsize(bp.dva2) != 0) * Count(!IsEncrypted(bp, table))
  }

  function CountGang(bp: Blk, table: nat -> bool): nat {
    if IsEmbedded(bp.prop) then 0
    else DvaGang(bp.dva0) + DvaGang(bp.dva1) + DvaGang(bp.dva2) * Count(!IsEncrypted(bp, table))
  }

  function Fill(bp: Blk, table: nat -> bool): nat {
    if IsEmbedded(bp.prop) then 1
    else if IsEncrypted(bp, table) then Decode(bp.fill, 0, 32)
    else bp.fill
  }

  /** BP_SET_FILL asserts a block pointer that is not embedded; BF64_SET bounds the fill of
      an encrypted one. */
  predicate CanSetFill(bp: Blk, table: nat -> bool, fill: uint64) {
    !IsEmbedded(bp.prop) && (IsEncrypted(bp, table) ==> fill < Pow2(32))
  }

  function SetFill(bp: Blk, table: nat -> bool, fill: uint64): (r: Blk)
    requires CanSetFill(bp, table, fill)
  {
    if IsEncrypted(bp, table) then
      SetFits(64, bp.fill, 0, 32, fill);
      bp.(fill := Set(64, bp.fill, 0, 32, fill))
    else bp.(fill := fill)
  }

  /** BP_GET_IV2 and BP_SET_IV2 assert an encrypted block pointer. */
  function Iv2(bp: Blk, table: nat -> bool): nat
    requires IsEncrypted(bp, table)
  {
    Decode(bp.fill, 32, 32)
  }

  function SetIv2(bp: Blk, table: nat -> bool, iv2: nat): (r: Blk)
    requires IsEncrypted(bp, table) && iv2 < Pow2(32)
  {
    SetFits(64, bp.fill, 32, 32, iv2);
    bp.(fill := Set(64, bp.fill, 32, 32, iv2))
  }

  /** The encryption parameters in place: salt and first IV word in the third address, the
      rest of the IV above the fill count. */
  function StoreParams(bp: Blk, table: nat -> bool, salt: uint64, iv1: uint64, iv2: nat): Blk
    requires IsEncrypted(bp, table) && iv2 < Pow2(32)
  {
    SetIv2(bp.(dva2 := Dva(salt, iv1)), table, iv2)
  }

  // ---------- encrypted block pointers ----------

  /** Encrypted, authenticated and indirect-MAC are the three disjoint kinds of block that
      use crypt; the first two are the protected ones. */
  lemma CryptKindsPartition(bp: Blk, table: nat -> bool)
    ensures UsesCrypt(bp.prop) != 0 <==> IsEncrypted(bp, table) || IsAuthenticated(bp, table) || HasIndirectMac(bp)
    ensures !(IsEncrypted(bp, table) && IsAuthenticated(bp, table))
    ensures !(IsEncrypted(bp, table) && HasIndirectMac(bp))
    ensures !(IsAuthenticated(bp, table) && HasIndirectMac(bp))
    ensures IsProtected(bp, table) <==> UsesCrypt(bp.prop) != 0 && Level(bp.prop) == 0
  {
  }

  /** New-style types, bit 7 set, are encrypted exactly when bit 5 is; the table answers for the others. */
  lemma EncryptedTypes(ot: nat, table: nat -> bool)
    ensures TypeIsEncrypted(ot, table) <==> if Bit(ot, 7) then Bit(ot, 5) else table(ot)
  {
    Powers();
    assert Pow2(7) == 0x80 && Pow2(5) == 0x20;
    hide Pow2, Bitwise;
    BitTest(ot, 7);
    BitTest(ot, 5);
  }

  /** The kinds read off blk_prop: bit 61 says the block uses crypt, bits 56 to 60 are its
      level, and bits 55 and 53 are those of the type that decide. */
  lemma CryptKindsInBits(bp: Blk, table: nat -> bool)
    ensures var crypt, level := Bit(bp.prop, 61), bp.prop / Pow2(56) % Pow2(5);
      var typ := if Bit(bp.prop, 55) then Bit(bp.prop, 53) else table(bp.prop / Pow2(48) % Pow2(8));
      (IsEncrypted(bp, table) <==> crypt && level == 0 && typ) &&
      (IsAuthenticated(bp, table) <==> crypt && level == 0 && !typ) &&
      (HasIndirectMac(bp) <==> crypt && level > 0) &&
      (IsProtected(bp, table) <==> crypt && level == 0)
  {
    hide Pow2, Bitwise, Shr, Decode, TypeIsEncrypted;
    SharedPositions(bp.prop);
    EncryptedTypes(Type(bp.prop), table);
    BitOfDecode(bp.prop, 48, 8, 7);
    BitOfDecode(bp.prop, 48, 8, 5);
  }

  /** Storing any salt and IV leaves every count and the classification of an encrypted
      block pointer as they were, and the parameters read back. */
  lemma ParamsAreInvisible(bp: Blk, table: nat -> bool, salt: uint64, iv1: uint64, iv2: nat)
    requires IsEncrypted(bp, table) && iv2 < Pow2(32)
    ensures var e := StoreParams(bp, table, salt, iv1, iv2);
      IsEncrypted(e, table) && Iv2(e, table) == iv2 && e.dva2 == Dva(salt, iv1) &&
      Asize(e, table) == Asize(bp, table) && NDvas(e, table) == NDvas(bp, table) &&
      CountGang(e, table) == CountGang(bp, table) && Fill(e, table) == Fill(bp, table)
  {
    hide Pow2, Bitwise, Shr, Set, DvaAsize, DvaGang;
    GetSet(64, bp.fill, Field(32, 32), iv2);
    GetSetOther(64, bp.fill, Field(32, 32), iv2, Field(0, 32));
  }

  // ---------- counting over the addresses ----------

  /** What one address adds to each of the three counts is added for the first two on every
      pointer that is not embedded, and for the third exactly when it is not encrypted. */
  lemma AddressesAddUp(bp: Blk, table: nat -> bool, d: Dva)
    requires !IsEmbedded(bp.prop)
    ensures Asize(bp.(dva0 := d), table) - Asize(bp, table) == DvaAsize(d) - DvaAsize(bp.dva0)
    ensures Asize(bp.(dva1 := d), table) - Asize(bp, table) == DvaAsize(d) - DvaAsize(bp.dva1)
    ensures Asize(bp.(dva2 := d), table) - Asize(bp, table) ==
      if IsEncrypted(bp, table) then 0 else DvaAsize(d) - DvaAsize(bp.dva2)
    ensures NDvas(bp.(dva0 := d), table) - NDvas(bp, table) == InUse(d) - InUse(bp.dva0)
    ensures NDvas(bp.(dva1 := d), table) - NDvas(bp, table) == InUse(d) - InUse(bp.dva1)
    ensures NDvas(bp.(dva2 := d), table) - NDvas(bp, table) ==
      if IsEncrypted(bp, table) then 0 else InUse(d) - InUse(bp.dva2)
    ensures CountGang(bp.(dva0 := d), table) - CountGang(bp, table) == DvaGang(d) - DvaGang(bp.dva0)
    ensures CountGang(bp.(dva1 := d), table) - CountGang(bp, table) == DvaGang(d) - DvaGang(bp.dva1)
    ensures CountGang(bp.(dva2 := d), table) - CountGang(bp, table) ==
      if IsEncrypted(bp, table) then 0 else DvaGang(d) - DvaGang(bp.dva2)
  {
    hide Pow2, Bitwise, Decode, DvaAsize, DvaGang;
  }

  /** So replacing the third address keeps the allocated size exactly when it keeps that
      address's own size, or the pointer is embedded or encrypted. */
  lemma ThirdAddressCounts(bp: Blk, table: nat -> bool, dva: Dva)
    ensures Asize(bp.(dva2 := dva), table) == Asize(bp, table) <==>
      IsEmbedded(bp.prop) || IsEncrypted(bp, table) || DvaAsize(dva) == DvaAsize(bp.dva2)
  {
    hide Pow2, Bitwise, DvaAsize;
  }

  /** One for an address with a nonzero allocated size. */
  function InUse(d: Dva): int { if DvaAsize(d) > 0 then 1 else 0 }

  /** All three counts are zero on an embedded pointer and on one whose addresses are zero. */
  lemma NothingToCount(bp: Blk, table: nat -> bool)
    ensures IsEmbedded(bp.prop) || (IsEmpty(bp.dva0) && IsEmpty(bp.dva1) && IsEmpty(bp.dva2)) ==>
      Asize(bp, table) == 0 && NDvas(bp, table) == 0 && CountGang(bp, table) == 0
  {
    hide Pow2, Bitwise, Decode, DvaAsize, DvaGang;
    if !IsEmbedded(bp.prop) && IsEmpty(bp.dva0) && IsEmpty(bp.dva1) && IsEmpty(bp.dva2) {
      EmptyAddress(bp.dva0);
    }
  }

  /** DVA_IS_EMPTY. */
  predicate IsEmpty(d: Dva) { d.word0 == 0 && d.word1 == 0 }

  lemma EmptyAddress(d: Dva)
    requires IsEmpty(d)
    ensures DvaAsize(d) == 0 && DvaGang(d) == 0
  {
    hide Pow2, DvaAsize, DvaGang, DvaOffset;
    DvaPositions(d);
    DivModUnique(d.word0, Pow2(24), 0, 0);
    DivModUnique(d.word1, Pow2(63), 0, 0);
  }

  // ---------- fill count ----------

  /** Where the fill is, for each kind of pointer; an embedded one always has fill 1. */
  lemma FillPositions(bp: Blk, table: nat -> bool)
    ensures IsEmbedded(bp.prop) ==> Fill(bp, table) == 1
    ensures !IsEmbedded(bp.prop) ==>
      Fill(bp, table) == if IsEncrypted(bp, table) then bp.fill % Pow2(32) else bp.fill
    ensures IsEncrypted(bp, table) ==> Iv2(bp, table) == bp.fill / Pow2(32)
  {
    Powers();
    hide Pow2, Bitwise, Shr, Decode;
    DecodeIsDivMod(bp.fill, 0, 32);
    DecodeIsDivMod(bp.fill, 32, 32);
    QuotientBelow(bp.fill, Pow2(32), Pow2(32));
  }

  /** A fill count reads back, and on an encrypted block pointer leaves the IV alone. */
  lemma FillRoundTrip(bp: Blk, table: nat -> bool, fill: uint64)
    requires CanSetFill(bp, table, fill)
    ensures var f := SetFill(bp, table, fill);
      Fill(f, table) == fill && f == bp.(fill := f.fill) &&
      (IsEncrypted(bp, table) ==> IsEncrypted(f, table) && Iv2(f, table) == Iv2(bp, table))
  {
    hide Pow2, Bitwise, Shr, Set;
    if IsEncrypted(bp, table) {
      GetSet(64, bp.fill, Field(0, 32), fill);
      GetSetOther(64, bp.fill, Field(0, 32), fill, Field(32, 32));
    }
  }

  // ---------- birth times ----------

  /** BP_GET_REWRITE and BP_SET_REWRITE. */
  predicate IsRewrite(bp: Blk) { !IsEmbedded(bp.prop) && Decode(bp.prop2, 63, 1) != 0 }

  function SetRewrite(bp: Blk, x: nat): Blk
    requires !IsEmbedded(bp.prop) && x < 2
  {
    OneBitFits(x);
    SetFits(64, bp.prop2, 63, 1, x);
    bp.(prop2 := Set(64, bp.prop2, 63, 1, x))
  }

  lemma OneBitFits(x: nat)
    requires x < 2
    ensures x < Pow2(1)
  {
  }

  function PhysicalBirth(bp: Blk): nat {
    if IsEmbedded(bp.prop) then 0
    else if bp.physicalBirth != 0 then bp.physicalBirth
    else bp.logicalBirth
  }

  function Birth(bp: Blk): nat {
    if IsEmbedded(bp.prop) || !IsRewrite(bp) then bp.logicalBirth else PhysicalBirth(bp)
  }

  function SetBirth(bp: Blk, logical: uint64, physical: uint64): Blk
    requires !IsEmbedded(bp.prop)
  {
    bp.(logicalBirth := logical, physicalBirth := if logical == physical then 0 else physical)
  }

  /** The raw physical birth is zero for one equal to the logical birth. Both times read back, unless
      a zero physical birth is asked for together with a nonzero logical one: zero is the code
      for "same as logical". */
  lemma BirthRoundTrip(bp: Blk, logical: uint64, physical: uint64)
    requires !IsEmbedded(bp.prop)
    ensures var b := SetBirth(bp, logical, physical);
      b.logicalBirth == logical && (b.physicalBirth == 0 <==> physical == 0 || physical == logical) &&
      b == bp.(logicalBirth := logical, physicalBirth := b.physicalBirth) &&
      (PhysicalBirth(b) == physical <==> physical != 0 || logical == 0) &&
      (Birth(b) == (if IsRewrite(bp) then physical else logical) <==>
        physical != 0 || logical == 0 || !IsRewrite(bp))
  {
    hide Pow2, Bitwise;
  }

  /** The rewrite flag is bit 63 of blk_prop2 on a pointer that is not embedded. Setting it
      moves no other bit and chooses which of the two birth times the pointer was allocated at. */
  lemma RewriteRoundTrip(bp: Blk, x: nat)
    requires !IsEmbedded(bp.prop) && x < 2
    ensures var r := SetRewrite(bp, x);
      r == bp.(prop2 := r.prop2) && (IsRewrite(r) <==> x == 1) &&
      Birth(r) == (if x == 0 then bp.logicalBirth else if bp.physicalBirth == 0 then bp.logicalBirth
                   else bp.physicalBirth) &&
      forall i: nat :: Bit(r.prop2, i) <==> if i == 63 then x == 1 else Bit(bp.prop2, i)
  {
    OneBitFits(x);
    hide Pow2, Bitwise, Shr, Decode, Set;
    var r := SetRewrite(bp, x);
    GetSet(64, bp.prop2, Field(63, 1), x);
    forall i: nat ensures Bit(r.prop2, i) <==> if i == 63 then x == 1 else Bit(bp.prop2, i) {
      BitOfSet(64, bp.prop2, 63, 1, x, i);
    }
  }

  /** An embedded pointer has no physical birth and no rewrite flag: it was allocated when it
      was logically born. */
  lemma EmbeddedBirth(bp: Blk)
    requires IsEmbedded(bp.prop)
    ensures PhysicalBirth(bp) == 0 && !IsRewrite(bp) && Birth(bp) == bp.logicalBirth
  {
    hide Pow2, Bitwise, Decode;
  }

  /** Logical birth 5 with physical birth 0 reads back as 5 and 5. */
  lemma ZeroPhysicalBirthIsLost(bp: Blk)
    requires !IsEmbedded(bp.prop)
    ensures PhysicalBirth(SetBirth(bp, 5, 0)) == 5
  {
    BirthRoundTrip(bp, 5, 0);
  }

  // ---------- data virtual addresses ----------

  /** Size in units of 512 bytes in the low 24 bits, vdev above bit 32; offset in the same
      units in the low 63 bits, where the shift drops the top 9, and the gang bit above it. */
  lemma DvaPositions(dva: Dva)
    ensures DvaAsize(dva) == dva.word0 % Pow2(24) * 512 && DvaVdev(dva) == dva.word0 / Pow2(32) % Pow2(24)
    ensures DvaOffset(dva) == dva.word1 % Pow2(63) * 512 % Pow2(64) && DvaGang(dva) == dva.word1 / Pow2(63)
  {
    Powers();
    hide Pow2, Bitwise, Shr, GetSB;
    GetSBIsDivMod(64, dva.word0, 0, 24, 9, 0);
    GetSBIsDivMod(64, dva.word1, 0, 63, 9, 0);
    DecodeIsDivMod(dva.word0, 32, 24);
    DecodeIsDivMod(dva.word1, 63, 1);
    QuotientBelow(dva.word1, Pow2(63), Pow2(1));
    DivModUnique(dva.word0 % Pow2(24) * 512, Pow2(64), 0, dva.word0 % Pow2(24) * 512);
  }

  /** The values each address setter accepts. */
  lemma DvaLegalRanges(x: uint64)
    ensures SetAsize(x).Legal() <==> x % 512 == 0 && x < 0x2_0000_0000
    ensures SetOffset(x).Legal() <==> x % 512 == 0
    ensures SetVdev(x).Legal() <==> x < 0x100_0000
    ensures SetGang(x).Legal() <==> x < 2
  {
    Powers();
    hide Pow2, CanSetSB;
    SizesAccepted(64, 0, 24, 9, 0, x);
    SizesAccepted(64, 0, 63, 9, 0, x);
  }

  datatype DvaRecord = DvaRecord(asize: nat, vdev: nat, offset: nat, gang: nat)

  function DvaView(dva: Dva): DvaRecord {
    DvaRecord(DvaAsize(dva), DvaVdev(dva), DvaOffset(dva), DvaGang(dva))
  }

  datatype DvaSetter = SetAsize(x: uint64) | SetVdev(x: uint64) | SetOffset(x: uint64) | SetGang(x: uint64) {
    /** The ASSERTs of the setter. */
    predicate Legal() {
      match this
      case SetAsize(x) => CanSetSB(64, 0, 24, 9, 0, x)
      case SetVdev(x) => x < Pow2(24)
      case SetOffset(x) => CanSetSB(64, 0, 63, 9, 0, x)
      case SetGang(x) => x < Pow2(1)
    }

    function Assign(r: DvaRecord): DvaRecord {
      match this
      case SetAsize(x) => r.(asize := x)
      case SetVdev(x) => r.(vdev := x)
      case SetOffset(x) => r.(offset := x)
      case SetGang(x) => r.(gang := x)
    }
  }

  function ApplyDva(dva: Dva, s: DvaSetter): Dva
    requires s.Legal()
  {
    match s
    case SetAsize(x) =>
      SetFits(64, dva.word0, 0, 24, Shr(x, 9));
      dva.(word0 := SetSB(64, dva.word0, 0, SPA_ASIZEBITS, SPA_MINBLOCKSHIFT, 0, x))
    case SetVdev(x) =>
      SetFits(64, dva.word0, 32, 24, x);
      dva.(word0 := Set(64, dva.word0, 32, SPA_VDEVBITS, x))
    case SetOffset(x) =>
      SetFits(64, dva.word1, 0, 63, Shr(x, 9));
      dva.(word1 := SetSB(64, dva.word1, 0, 63, SPA_MINBLOCKSHIFT, 0, x))
    case SetGang(x) =>
      SetFits(64, dva.word1, 63, 1, x);
      dva.(word1 := Set(64, dva.word1, 63, 1, x))
  }

  lemma DvaStep(dva: Dva, s: DvaSetter)
    requires s.Legal()
    ensures DvaView(ApplyDva(dva, s)) == s.Assign(DvaView(dva))
  {
    hide Pow2, Bitwise, Shr, Set;
    match s
    case SetAsize(x) =>
      GetSetSB(64, dva.word0, 0, 24, 9, 0, x);
      GetSetOther(64, dva.word0, Field(0, 24), Shr(x, 9), Field(32, 24));
    case SetVdev(x) =>
      GetSet(64, dva.word0, Field(32, 24), x);
      GetSetOther(64, dva.word0, Field(32, 24), x, Field(0, 24));
    case SetOffset(x) =>
      GetSetSB(64, dva.word1, 0, 63, 9, 0, x);
      GetSetOther(64, dva.word1, Field(0, 63), Shr(x, 9), Field(63, 1));
    case SetGang(x) =>
      GetSet(64, dva.word1, Field(63, 1), x);
      GetSetOther(64, dva.word1, Field(63, 1), x, Field(0, 63));
  }

  predicate AllLegalDva(ss: seq<DvaSetter>) {
    forall i :: 0 <= i < |ss| ==> ss[i].Legal()
  }

  function ApplyAllDva(dva: Dva, ss: seq<DvaSetter>): Dva
    requires AllLegalDva(ss)
    decreases |ss|
  {
    if ss == [] then dva else ApplyAllDva(ApplyDva(dva, ss[0]), ss[1..])
  }

  function AssignAllDva(r: DvaRecord, ss: seq<DvaSetter>): DvaRecord
    decreases |ss|
  {
    if ss == [] then r else AssignAllDva(ss[0].Assign(r), ss[1..])
  }

  /** Any run of DVA setters acts on the two words as assignments act on a record of sizes
      and offsets in bytes. */
  lemma {:induction false} DvaRunRefinesRecord(dva: Dva, ss: seq<DvaSetter>)
    requires AllLegalDva(ss)
    ensures DvaView(ApplyAllDva(dva, ss)) == AssignAllDva(DvaView(dva), ss)
    decreases |ss|
  {
    hide Pow2, DvaView, ApplyDva;
    if ss != [] {
      DvaStep(dva, ss[0]);
      DvaRunRefinesRecord(ApplyDva(dva, ss[0]), ss[1..]);
    }
  }

  // ---------- addresses and block pointers in place ----------

  class DvaCell {
    var dva: Dva

    /** Any one of the DVA_SET macros. */
    method SetField(s: DvaSetter)
      requires s.Legal()
      modifies this
      ensures DvaView(dva) == s.Assign(DvaView(old(dva)))
    {
      hide Pow2, DvaView, ApplyDva;
      DvaStep(dva, s);
      dva := ApplyDva(dva, s);
    }
  }

  class BlockPointer {
    var bp: Blk
    const table: nat -> bool

    constructor (bp: Blk, table: nat -> bool)
      ensures this.bp == bp && this.table == table
    {
      this.bp := bp;
      this.table := table;
    }

    /** Any one of the BP_SET and BPE_SET macros on blk_prop. */
    method SetProp(s: Setter)
      requires Legal(View(bp.prop), s)
      modifies this`bp
      ensures View(bp.prop) == Assign(View(old(bp).prop), s)
      ensures bp == old(bp).(prop := bp.prop)
    {
      hide Pow2, View, Apply, Assign, Legal;
      StepRefinesRecord(bp.prop, s);
      bp := bp.(prop := Apply(bp.prop, s));
    }

    method BpSetFill(fill: uint64)
      requires !IsEmbedded(bp.prop) && (IsEncrypted(bp, table) ==> fill < Pow2(32))
      modifies this`bp
      ensures Fill(bp, table) == fill && bp == old(bp).(fill := bp.fill)
      ensures IsEncrypted(old(bp), table) ==> IsEncrypted(bp, table) && Iv2(bp, table) == Iv2(old(bp), table)
    {
      hide Pow2, Bitwise, Shr, Set;
      FillRoundTrip(bp, table, fill);
      bp := SetFill(bp, table, fill);
    }

    method BpSetBirth(logical: uint64, physical: uint64)
      requires !IsEmbedded(bp.prop)
      modifies this`bp
      ensures bp.logicalBirth == logical && (bp.physicalBirth == 0 <==> physical == 0 || physical == logical)
      ensures PhysicalBirth(bp) == physical <==> physical != 0 || logical == 0
      ensures bp == old(bp).(logicalBirth := bp.logicalBirth, physicalBirth := bp.physicalBirth)
    {
      hide Pow2, Bitwise;
      BirthRoundTrip(bp, logical, physical);
      bp := bp.(logicalBirth := logical);
      bp := bp.(physicalBirth := if logical == physical then 0 else physical);
    }

    method BpSetRewrite(x: nat)
      requires !IsEmbedded(bp.prop) && x < 2
      modifies this`bp
      ensures (IsRewrite(bp) <==> x == 1) && bp == old(bp).(prop2 := bp.prop2)
    {
      hide Pow2, Bitwise, Shr, Set;
      RewriteRoundTrip(bp, x);
      bp := SetRewrite(bp, x);
    }

    method StoreCryptParams(salt: uint64, iv1: uint64, iv2: nat)
      requires IsEncrypted(bp, table) && iv2 < Pow2(32)
      modifies this`bp
      ensures IsEncrypted(bp, table) && Iv2(bp, table) == iv2 && bp.dva2 == Dva(salt, iv1)
      ensures Asize(bp, table) == Asize(old(bp), table) && NDvas(bp, table) == NDvas(old(bp), table)
      ensures CountGang(bp, table) == CountGang(old(bp), table) && Fill(bp, table) == Fill(old(bp), table)
    {
      hide Pow2, Bitwise, Shr, Set;
      ParamsAreInvisible(bp, table, salt, iv1, iv2);
      bp := bp.(dva2 := Dva(salt, iv1));
      bp := SetIv2(bp, table, iv2);
    }
  }
}
