/** The property word blk_prop of a block pointer (spa.h) in its normal and embedded layouts. */
module BlkProp {
  import opened Bits
  import opened Bitops
  import opened Spa

  const ZIO_CHECKSUM_OFF := 2
  const BP_EMBEDDED_TYPE_DATA := 0

  // ---------- macros on the word ----------

  function Compress(prop: nat): nat { Decode(prop, 32, SPA_COMPRESSBITS) }
  function Embedded(prop: nat): nat { Decode(prop, 39, 1) }
  function Type(prop: nat): nat { Decode(prop, 48, 8) }
  function Level(prop: nat): nat { Decode(prop, 56, 5) }
  function UsesCrypt(prop: nat): nat { Decode(prop, 61, 1) }
  function Dedup(prop: nat): nat { Decode(prop, 62, 1) }
  function ByteOrder(prop: nat): nat { Decode(prop, 63, 1) }

  predicate IsEmbedded(prop: nat) { Embedded(prop) != 0 }

  /** BPE_GET_ETYPE, BPE_GET_LSIZE and BPE_GET_PSIZE assert an embedded block pointer. */
  function BpeEtype(prop: nat): nat
    requires IsEmbedded(prop)
  {
    Decode(prop, 40, 8)
  }

  function BpeLSize(prop: nat): nat
    requires IsEmbedded(prop)
  {
    GetSB(64, prop, 0, 25, 0, 1)
  }

  function BpePSize(prop: nat): nat
    requires IsEmbedded(prop)
  {
    GetSB(64, prop, 25, 7, 0, 1)
  }

  function LSize(prop: nat): nat {
    if IsEmbedded(prop) then
      if BpeEtype(prop) == BP_EMBEDDED_TYPE_DATA then BpeLSize(prop) else 0
    else GetSB(64, prop, 0, SPA_LSIZEBITS, SPA_MINBLOCKSHIFT, 1)
  }

  function PSize(prop: nat): nat {
    if IsEmbedded(prop) then 0 else GetSB(64, prop, 16, SPA_PSIZEBITS, SPA_MINBLOCKSHIFT, 1)
  }

  function Checksum(prop: nat): nat {
    if IsEmbedded(prop) then ZIO_CHECKSUM_OFF else Decode(prop, 40, 8)
  }

  // ---------- the two layouts ----------

  const NORMAL: Layout := [Field(0, 16), Field(16, 16), Field(32, 7), Field(39, 1), Field(40, 8),
                           Field(48, 8), Field(56, 5), Field(61, 1), Field(62, 1), Field(63, 1)]
  const EMBEDDED: Layout := [Field(0, 25), Field(25, 7), Field(32, 7), Field(39, 1), Field(40, 8),
                             Field(48, 8), Field(56, 5), Field(61, 1), Field(62, 1), Field(63, 1)]

  lemma PropTiles()
    ensures Tiles(64, NORMAL) && Separate(64, NORMAL)
    ensures Tiles(64, EMBEDDED) && Separate(64, EMBEDDED)
  {
    TilesSeparate(64, NORMAL);
    TilesSeparate(64, EMBEDDED);
  }

  /** In both layouts the word and the record of its ten fields determine each other, and
      from compression upwards the two records are the same. */
  lemma LayoutsAreBijections(prop: uint64, vals: seq<nat>, evals: seq<nat>)
    requires Fits(vals, NORMAL) && Fits(evals, EMBEDDED)
    ensures Separate(64, NORMAL) && Separate(64, EMBEDDED)
    ensures Fits(Unpack(prop, NORMAL), NORMAL) && Pack(64, NORMAL, Unpack(prop, NORMAL)) == prop
    ensures Fits(Unpack(prop, EMBEDDED), EMBEDDED) && Pack(64, EMBEDDED, Unpack(prop, EMBEDDED)) == prop
    ensures Pack(64, NORMAL, vals) < Pow2(64) && Unpack(Pack(64, NORMAL, vals), NORMAL) == vals
    ensures Pack(64, EMBEDDED, evals) < Pow2(64) && Unpack(Pack(64, EMBEDDED, evals), EMBEDDED) == evals
    ensures Unpack(prop, NORMAL)[2..] == Unpack(prop, EMBEDDED)[2..]
  {
    hide Pow2, Get, Pack;
    PropTiles();
    PackUnpack(64, NORMAL, vals, prop);
    PackUnpack(64, EMBEDDED, evals, prop);
    assert forall k :: 2 <= k < 10 ==> NORMAL[k] == EMBEDDED[k];
  }

  // ---------- the word as a record ----------

  /** Sizes in bytes, whichever layout holds them; check is the checksum function or etype. */
  datatype Props = Props(lsize: nat, psize: nat, compress: nat, embedded: nat, check: nat,
                         typ: nat, level: nat, crypt: nat, dedup: nat, order: nat)

  function View(prop: nat): Props {
    Props(if IsEmbedded(prop) then BpeLSize(prop) else LSize(prop),
          if IsEmbedded(prop) then BpePSize(prop) else PSize(prop),
          Compress(prop), Embedded(prop),
          if IsEmbedded(prop) then BpeEtype(prop) else Checksum(prop),
          Type(prop), Level(prop), UsesCrypt(prop), Dedup(prop), ByteOrder(prop))
  }

  datatype Setter =
    | SetLSize(x: nat) | SetPSize(x: nat) | SetChecksum(x: nat)
    | SetBpeLSize(x: nat) | SetBpePSize(x: nat) | SetBpeEtype(x: nat)
    | SetEmbedded(x: nat) | SetCompress(x: nat) | SetType(x: nat) | SetLevel(x: nat)
    | SetCrypt(x: nat) | SetDedup(x: nat) | SetByteOrder(x: nat)

  /** The ASSERTs of the setter, given the record the word stands for. */
  predicate Legal(r: Props, s: Setter) {
    match s
    case SetLSize(x) => r.embedded == 0 && CanSetSB(64, 0, 16, 9, 1, x)
    case SetPSize(x) => r.embedded == 0 && CanSetSB(64, 16, 16, 9, 1, x)
    case SetChecksum(x) => r.embedded == 0 && x < Pow2(8)
    case SetBpeLSize(x) => r.embedded != 0 && CanSetSB(64, 0, 25, 0, 1, x)
    case SetBpePSize(x) => r.embedded != 0 && CanSetSB(64, 25, 7, 0, 1, x)
    case SetBpeEtype(x) => r.embedded != 0 && x < Pow2(8)
    case SetEmbedded(x) => x < Pow2(1)
    case SetCompress(x) => x < Pow2(7)
    case SetType(x) => x < Pow2(8)
    case SetLevel(x) => x < Pow2(5)
    case SetCrypt(x) => x < Pow2(1)
    case SetDedup(x) => x < Pow2(1)
    case SetByteOrder(x) => x < Pow2(1)
  }

  /** What the setter leaves in blk_prop. */
  function Apply(prop: nat, s: Setter): nat
    requires Legal(View(prop), s)
  {
    match s
    case SetLSize(x) => SetSB(64, prop, 0, SPA_LSIZEBITS, SPA_MINBLOCKSHIFT, 1, x)
    case SetPSize(x) => SetSB(64, prop, 16, SPA_PSIZEBITS, SPA_MINBLOCKSHIFT, 1, x)
    case SetChecksum(x) => Set(64, prop, 40, 8, x)
    case SetBpeLSize(x) => SetSB(64, prop, 0, 25, 0, 1, x)
    case SetBpePSize(x) => SetSB(64, prop, 25, 7, 0, 1, x)
    case SetBpeEtype(x) => Set(64, prop, 40, 8, x)
    case SetEmbedded(x) => Set(64, prop, 39, 1, x)
    case SetCompress(x) => Set(64, prop, 32, SPA_COMPRESSBITS, x)
    case SetType(x) => Set(64, prop, 48, 8, x)
    case SetLevel(x) => Set(64, prop, 56, 5, x)
    case SetCrypt(x) => Set(64, prop, 61, 1, x)
    case SetDedup(x) => Set(64, prop, 62, 1, x)
    case SetByteOrder(x) => Set(64, prop, 63, 1, x)
  }

  /** What the setter means: one assignment. Only a change of the E bit does more: the low 32
      bits then hold the same number under the other layout's units. */
  function Assign(r: Props, s: Setter): Props {
    match s
    case SetLSize(x) => r.(lsize := x)
    case SetPSize(x) => r.(psize := x)
    case SetChecksum(x) => r.(check := x)
    case SetBpeLSize(x) => r.(lsize := x)
    case SetBpePSize(x) => r.(psize := x)
    case SetBpeEtype(x) => r.(check := x)
    case SetEmbedded(x) => if (x == 0) == (r.embedded == 0) then r.(embedded := x) else SwitchSizes(r, x)
    case SetCompress(x) => r.(compress := x)
    case SetType(x) => r.(typ := x)
    case SetLevel(x) => r.(level := x)
    case SetCrypt(x) => r.(crypt := x)
    case SetDedup(x) => r.(dedup := x)
    case SetByteOrder(x) => r.(order := x)
  }

  function SwitchSizes(r: Props, e: nat): Props {
    if r.embedded == 0 then
      var low := Minus1(r.lsize / 512) + 0x1_0000 * Minus1(r.psize / 512);
      r.(embedded := e, lsize := low % 0x200_0000 + 1, psize := low / 0x200_0000 + 1)
    else
      var low := Minus1(r.lsize) + 0x200_0000 * Minus1(r.psize);
      r.(embedded := e, lsize := 512 * (low % 0x1_0000 + 1), psize := 512 * (low / 0x1_0000 + 1))
  }

  function Minus1(n: nat): nat { if n == 0 then 0 else n - 1 }

  // ---------- where the getters read ----------

  /** The fields that both layouts keep above bit 31. */
  lemma SharedPositions(prop: uint64)
    ensures Compress(prop) == prop / Pow2(32) % Pow2(7)
    ensures IsEmbedded(prop) <==> Bit(prop, 39)
    ensures Type(prop) == prop / Pow2(48) % Pow2(8) && Level(prop) == prop / Pow2(56) % Pow2(5)
    ensures UsesCrypt(prop) != 0 <==> Bit(prop, 61)
    ensures Dedup(prop) == (if Bit(prop, 62) then 1 else 0) && ByteOrder(prop) == if Bit(prop, 63) then 1 else 0
  {
    hide Pow2, Bitwise, Shr, Decode;
    DecodeIsDivMod(prop, 32, 7);
    DecodeIsDivMod(prop, 48, 8);
    DecodeIsDivMod(prop, 56, 5);
    BitTest(prop, 39);
    BitTest(prop, 61);
    BitTest(prop, 62);
    BitTest(prop, 63);
  }

  /** Sizes in units of 512 bytes, biased by one, on a pointer that is not embedded. */
  lemma NormalPositions(prop: uint64)
    requires !IsEmbedded(prop)
    ensures LSize(prop) == (prop % Pow2(16) + 1) * 512
    ensures PSize(prop) == (prop / Pow2(16) % Pow2(16) + 1) * 512
    ensures Checksum(prop) == prop / Pow2(40) % Pow2(8)
  {
    Powers();
    hide Pow2, Bitwise, Shr, GetSB, IsEmbedded;
    SizeUnits(prop, 0, 16, 9);
    SizeUnits(prop, 16, 16, 9);
    DecodeIsDivMod(prop, 0, 16);
    DecodeIsDivMod(prop, 16, 16);
    DecodeIsDivMod(prop, 40, 8);
  }

  /** On an embedded one the BPE getters read sizes in bytes, biased by one. The generic getters
      read the logical size for data and 0 for every other etype, no physical size, and
      checksum 2 (off). */
  lemma EmbeddedPositions(prop: uint64)
    requires IsEmbedded(prop)
    ensures BpeLSize(prop) == prop % Pow2(25) + 1 && BpePSize(prop) == prop / Pow2(25) % Pow2(7) + 1
    ensures BpeEtype(prop) == prop / Pow2(40) % Pow2(8)
    ensures LSize(prop) == if prop / Pow2(40) % Pow2(8) == 0 then prop % Pow2(25) + 1 else 0
    ensures PSize(prop) == 0 && Checksum(prop) == 2
  {
    Powers();
    hide Pow2, Bitwise, Shr, GetSB, IsEmbedded;
    SizeUnits(prop, 0, 25, 0);
    SizeUnits(prop, 25, 7, 0);
    DecodeIsDivMod(prop, 0, 25);
    DecodeIsDivMod(prop, 25, 7);
    DecodeIsDivMod(prop, 40, 8);
  }

  /** The values each setter accepts, with its range in bytes spelled out. */
  lemma LegalRanges(r: Props, x: nat)
    ensures Legal(r, SetLSize(x)) <==> r.embedded == 0 && x % 512 == 0 && 512 <= x <= 0x200_0000
    ensures Legal(r, SetPSize(x)) <==> r.embedded == 0 && x % 512 == 0 && 512 <= x <= 0x200_0000
    ensures Legal(r, SetBpeLSize(x)) <==> r.embedded != 0 && 1 <= x <= 0x200_0000
    ensures Legal(r, SetBpePSize(x)) <==> r.embedded != 0 && 1 <= x <= 128
    ensures Legal(r, SetChecksum(x)) <==> r.embedded == 0 && x < 0x100
    ensures Legal(r, SetBpeEtype(x)) <==> r.embedded != 0 && x < 0x100
    ensures Legal(r, SetCompress(x)) <==> x < 128
    ensures Legal(r, SetLevel(x)) <==> x < 32
    ensures Legal(r, SetType(x)) <==> x < 0x100
    ensures forall s :: s in {SetEmbedded(x), SetCrypt(x), SetDedup(x), SetByteOrder(x)} ==> (Legal(r, s) <==> x < 2)
  {
    Powers();
    assert Pow2(5) == 32 && Pow2(7) == 128;
    Pow2Add(24, 1);
    hide Pow2, CanSetSB;
    SizesAccepted(64, 0, 16, 9, 1, x);
    SizesAccepted(64, 16, 16, 9, 1, x);
    SizesAccepted(64, 0, 25, 0, 1, x);
    SizesAccepted(64, 25, 7, 0, 1, x);
  }

  // ---------- one setter ----------

  /** The record from the raw fields of the two layouts. */
  function Compose(u: seq<nat>, v: seq<nat>): Props
    requires |u| == 10 && |v| == 10
  {
    Props(if u[3] != 0 then v[0] + 1 else 512 * (u[0] + 1),
          if u[3] != 0 then v[1] + 1 else 512 * (u[1] + 1),
          u[2], u[3], u[4], u[5], u[6], u[7], u[8], u[9])
  }

  lemma SizeUnits(prop: nat, low: nat, len: nat, shift: nat)
    requires shift <= 9 && len <= 25
    ensures GetSB(64, prop, low, len, shift, 1) == (Get(prop, Field(low, len)) + 1) * Pow2(shift)
  {
    hide Pow2, Bitwise, Shr;
    var g := Get(prop, Field(low, len));
    UnitsFit(g, len, shift);
    TimesIsMul(g + 1, shift);
    LowKeeps((g + 1) * Pow2(shift), 64);
  }

  lemma UnitsFit(g: nat, len: nat, shift: nat)
    requires g < Pow2(len) && shift <= 9 && len <= 25
    ensures (g + 1) * Pow2(shift) < Pow2(64)
  {
    hide Pow2;
    Powers();
    Pow2Add(24, 1);
    if len < 25 { Pow2Less(len, 25); }
    if shift < 9 { Pow2Less(shift, 9); }
    MulBound(g + 1, 0x200_0000, Pow2(shift), 0x200);
  }

  lemma MulBound(a: nat, b: nat, c: nat, d: nat)
    requires a <= b && c <= d
    ensures a * c <= b * d
  {
    assert a * c <= a * d;
    assert a * d <= b * d;
  }

  lemma ViewIsCompose(prop: nat)
    ensures View(prop) == Compose(Unpack(prop, NORMAL), Unpack(prop, EMBEDDED))
  {
    Powers();
    hide Pow2, Bitwise, Shr, GetSB;
    SizeUnits(prop, 0, 16, 9);
    SizeUnits(prop, 16, 16, 9);
    SizeUnits(prop, 0, 25, 0);
    SizeUnits(prop, 25, 7, 0);
  }

  /** A field above the sizes sits at the same place in both layouts. */
  lemma PutShared(prop: uint64, k: nat, x: nat)
    requires 2 <= k < 10 && x < Pow2(NORMAL[k].len)
    ensures var y := Put(64, prop, NORMAL[k], x);
      y < Pow2(64) &&
      Unpack(y, NORMAL) == Unpack(prop, NORMAL)[k := x] && Unpack(y, EMBEDDED) == Unpack(prop, EMBEDDED)[k := x]
  {
    hide Pow2, Bitwise, Get, Set;
    PropTiles();
    assert NORMAL[k] == EMBEDDED[k];
    SetFits(64, prop, NORMAL[k].low, NORMAL[k].len, x);
    UnpackPut(64, prop, NORMAL, k, x);
    UnpackPut(64, prop, EMBEDDED, k, x);
  }

  /** The low 32 bits hold the two sizes of either layout. */
  lemma LowHalf(prop: nat)
    ensures var u, v := Unpack(prop, NORMAL), Unpack(prop, EMBEDDED);
      u[0] + 0x1_0000 * u[1] == v[0] + 0x200_0000 * v[1] &&
      u[0] < 0x1_0000 && v[0] < 0x200_0000
  {
    Powers();
    Pow2Add(24, 1);
    hide Pow2, Bitwise, Shr;
    SplitLow(prop, 16, 16);
    SplitLow(prop, 25, 7);
    DecodeIsLow(prop, 0, 16);
    DecodeIsLow(prop, 0, 25);
    DecodeIsLow(prop, 16, 16);
    DecodeIsLow(prop, 25, 7);
    TimesIsMul(Low(Shr(prop, 16), 16), 16);
    TimesIsMul(Low(Shr(prop, 25), 7), 25);
  }

  /** Which field of the layouts a setter writes, and the value stored there. */
  function FieldOf(s: Setter): nat {
    match s
    case SetLSize(_) => 0
    case SetBpeLSize(_) => 0
    case SetPSize(_) => 1
    case SetBpePSize(_) => 1
    case SetCompress(_) => 2
    case SetEmbedded(_) => 3
    case SetChecksum(_) => 4
    case SetBpeEtype(_) => 4
    case SetType(_) => 5
    case SetLevel(_) => 6
    case SetCrypt(_) => 7
    case SetDedup(_) => 8
    case SetByteOrder(_) => 9
  }

  /** Setting a size acts on its own layout and leaves the fields above the sizes alone. */
  lemma PutSize(prop: uint64, layout: Layout, k: nat, x: nat)
    requires layout == NORMAL || layout == EMBEDDED
    requires k < 2 && x < Pow2(layout[k].len)
    ensures var y := Put(64, prop, layout[k], x);
      y < Pow2(64) && Unpack(y, layout) == Unpack(prop, layout)[k := x]
  {
    hide Pow2, Bitwise, Get, Set;
    PropTiles();
    SetFits(64, prop, layout[k].low, layout[k].len, x);
    UnpackPut(64, prop, layout, k, x);
  }

  lemma AssignCompose(u: seq<nat>, v: seq<nat>, s: Setter)
    requires |u| == 10 && |v| == 10 && 2 <= FieldOf(s)
    requires s.SetEmbedded? ==> (s.x == 0) == (u[3] == 0)
    ensures Compose(u[FieldOf(s) := s.x], v[FieldOf(s) := s.x]) == Assign(Compose(u, v), s)
  {
    hide SwitchSizes;
  }

  lemma SwitchCompose(u: seq<nat>, v: seq<nat>, e: nat)
    requires |u| == 10 && |v| == 10 && (e == 0) != (u[3] == 0)
    requires u[0] + 0x1_0000 * u[1] == v[0] + 0x200_0000 * v[1]
    requires u[0] < 0x1_0000 && v[0] < 0x200_0000
    ensures Compose(u[3 := e], v[3 := e]) == SwitchSizes(Compose(u, v), e)
  {
    var r := Compose(u, v);
    var low := u[0] + 0x1_0000 * u[1];
    if u[3] == 0 {
      assert Minus1(r.lsize / 512) == u[0] && Minus1(r.psize / 512) == u[1];
      DivModUnique(low, 0x200_0000, v[1], v[0]);
    } else {
      DivModUnique(low, 0x1_0000, u[1], u[0]);
    }
  }

  lemma StepOnShared(prop: uint64, s: Setter)
    requires Legal(View(prop), s) && 2 <= FieldOf(s)
    ensures Apply(prop, s) < Pow2(64)
    ensures View(Apply(prop, s)) == Assign(View(prop), s)
  {
    ApplyIsPut(prop, s);
    var u, v := Unpack(prop, NORMAL), Unpack(prop, EMBEDDED);
    hide Pow2, Bitwise, Get, Set, View, Apply, Compose, SwitchSizes, Legal;
    PutShared(prop, FieldOf(s), s.x);
    ViewIsCompose(prop);
    ViewIsCompose(Apply(prop, s));
    if s.SetEmbedded? && (s.x == 0) != (u[3] == 0) {
      LowHalf(prop);
      SwitchCompose(u, v, s.x);
      assert View(prop).embedded == u[3] by { EmbeddedOf(u, v); }
    } else {
      AssignCompose(u, v, s);
    }
  }

  lemma EmbeddedOf(u: seq<nat>, v: seq<nat>)
    requires |u| == 10 && |v| == 10
    ensures Compose(u, v).embedded == u[3]
  {
  }

  lemma ApplyIsPut(prop: uint64, s: Setter)
    requires Legal(View(prop), s) && 2 <= FieldOf(s)
    ensures s.x < Pow2(NORMAL[FieldOf(s)].len)
    ensures Apply(prop, s) == Put(64, prop, NORMAL[FieldOf(s)], s.x)
  {
    hide Pow2, Bitwise, Shr, Set, View;
  }

  lemma SharedFields(prop: nat)
    ensures forall k :: 2 <= k < 10 ==> Unpack(prop, NORMAL)[k] == Unpack(prop, EMBEDDED)[k]
  {
    hide Get;
    assert forall k :: 2 <= k < 10 ==> NORMAL[k] == EMBEDDED[k];
  }

  lemma StepOnSize(prop: uint64, s: Setter)
    requires Legal(View(prop), s) && FieldOf(s) < 2
    ensures Apply(prop, s) < Pow2(64)
    ensures View(Apply(prop, s)) == Assign(View(prop), s)
  {
    hide Pow2, Bitwise, Get, Set, Shr;
    Powers();
    var y := Apply(prop, s);
    var k := FieldOf(s);
    if View(prop).embedded == 0 {
      PhaseIsLow(s.x, 9);
      SplitAt(s.x, 9);
      TimesIsMul(Shr(s.x, 9), 9);
      PutSize(prop, NORMAL, k, Shr(s.x, 9) - 1);
    } else {
      PhaseIsLow(s.x, 0);
      SplitAt(s.x, 0);
      TimesIsMul(Shr(s.x, 0), 0);
      PutSize(prop, EMBEDDED, k, Shr(s.x, 0) - 1);
    }
    SharedFields(prop);
    SharedFields(y);
    ViewIsCompose(prop);
    ViewIsCompose(y);
  }

  // ---------- runs ----------

  predicate LegalRun(r: Props, ss: seq<Setter>)
    decreases |ss|
  {
    ss == [] || (Legal(r, ss[0]) && LegalRun(Assign(r, ss[0]), ss[1..]))
  }

  lemma StepRefinesRecord(prop: uint64, s: Setter)
    requires Legal(View(prop), s)
    ensures Apply(prop, s) < Pow2(64)
    ensures View(Apply(prop, s)) == Assign(View(prop), s)
  {
    if FieldOf(s) < 2 { StepOnSize(prop, s); } else { StepOnShared(prop, s); }
  }

  function AssignAll(r: Props, ss: seq<Setter>): Props
    decreases |ss|
  {
    if ss == [] then r else AssignAll(Assign(r, ss[0]), ss[1..])
  }

  function ApplyAll(prop: uint64, ss: seq<Setter>): uint64
    requires LegalRun(View(prop), ss)
    decreases |ss|
  {
    if ss == [] then prop
    else
      StepRefinesRecord(prop, ss[0]);
      ApplyAll(Apply(prop, ss[0]), ss[1..])
  }

  /** Any run of setters, in either layout and across changes of the E bit, acts on the word
      as assignments act on the record of sizes in bytes and fields. */
  lemma {:induction false} PropRunRefinesRecord(prop: uint64, ss: seq<Setter>)
    requires LegalRun(View(prop), ss)
    ensures View(ApplyAll(prop, ss)) == AssignAll(View(prop), ss)
    decreases |ss|
  {
    hide Pow2, View, Apply, Assign, Legal;
    if ss != [] {
      StepRefinesRecord(prop, ss[0]);
      PropRunRefinesRecord(Apply(prop, ss[0]), ss[1..]);
    }
  }

  /** What every getter reads after the run, in terms of the record the assignments lead to. */
  lemma GettersAfterRun(prop: uint64, ss: seq<Setter>)
    requires LegalRun(View(prop), ss)
    ensures var y, r := ApplyAll(prop, ss), AssignAll(View(prop), ss);
      (IsEmbedded(y) <==> r.embedded != 0) &&
      (!IsEmbedded(y) ==> LSize(y) == r.lsize && PSize(y) == r.psize && Checksum(y) == r.check) &&
      (IsEmbedded(y) ==>
        BpeLSize(y) == r.lsize && BpePSize(y) == r.psize && BpeEtype(y) == r.check &&
        LSize(y) == (if r.check == 0 then r.lsize else 0) && PSize(y) == 0 && Checksum(y) == 2) &&
      Compress(y) == r.compress && Type(y) == r.typ && Level(y) == r.level &&
      UsesCrypt(y) == r.crypt && Dedup(y) == r.dedup && ByteOrder(y) == r.order
  {
    PropRunRefinesRecord(prop, ss);
    hide Pow2, Bitwise, GetSB, Decode;
  }

  /** On an embedded pointer holding data the generic getter reads the size just set; setting
      any other etype makes it read 0. */
  lemma EmbeddedLSize(prop: uint64, x: nat, etype: nat)
    requires IsEmbedded(prop) && 1 <= x <= 0x200_0000 && 0 < etype < 0x100
    ensures Legal(View(prop), SetBpeLSize(x)) && Legal(View(prop), SetBpeEtype(etype))
    ensures var y := Apply(prop, SetBpeLSize(x)); LSize(y) == if BpeEtype(prop) == 0 then x else 0
    ensures LSize(Apply(prop, SetBpeEtype(etype))) == 0
  {
    LegalRanges(View(prop), x);
    LegalRanges(View(prop), etype);
    hide Pow2, Bitwise, GetSB, Decode, Legal, Apply;
    StepRefinesRecord(prop, SetBpeLSize(x));
    StepRefinesRecord(prop, SetBpeEtype(etype));
  }
}
