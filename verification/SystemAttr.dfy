/** The packed words of system attributes (sa_impl.h): attribute registration, the table of
    contents, and the header whose size is matched against a layout. */
module SystemAttr {
  import opened Bits
  import opened Bitops

  // ---------- attribute registration ----------

  function AttrNum(x: nat): nat { Decode(x, 0, 16) }
  function AttrBswap(x: nat): nat { Decode(x, 16, 8) }
  function AttrLength(x: nat): nat { Decode(x, 24, 16) }

  const ATTR: Layout := [Field(0, 16), Field(16, 8), Field(24, 16)]

  /** ATTR_ENCODE's three stores, in its order. */
  function AttrStores(attr: nat, length: nat, bswap: nat): seq<Write> {
    [Write(2, length), Write(1, bswap), Write(0, attr)]
  }

  function AttrEncode(x: uint64, attr: nat, length: nat, bswap: nat): nat
    requires attr < Pow2(16) && length < Pow2(16) && bswap < Pow2(8)
  {
    RunWord(64, x, ATTR, AttrStores(attr, length, bswap))
  }

  /** Whatever the word held, the three values read back and the unused top bits stay. */
  lemma AttrRoundTrip(x: uint64, attr: nat, length: nat, bswap: nat)
    requires attr < Pow2(16) && length < Pow2(16) && bswap < Pow2(8)
    ensures var y := AttrEncode(x, attr, length, bswap);
      y < Pow2(64) && AttrNum(y) == attr && AttrBswap(y) == bswap && AttrLength(y) == length &&
      forall i: nat :: 40 <= i ==> Bit(y, i) == Bit(x, i)
  {
    hide Pow2, Bitwise, Shr, Set, RunWord;
    var ops, u := AttrStores(attr, length, bswap), Unpack(x, ATTR);
    RunRefinesRecord(64, x, ATTR, ops);
    var y := RunWord(64, x, ATTR, ops);
    RecordKeepsLastWrite(u, ops, 0);
    RecordKeepsLastWrite(u, ops, 1);
    RecordKeepsLastWrite(u, ops, 2);
    assert ops[0].k == 2 && ops[1].k == 1 && ops[2].k == 0;
    assert Unpack(y, ATTR)[0] == AttrNum(y) && Unpack(y, ATTR)[1] == AttrBswap(y) &&
      Unpack(y, ATTR)[2] == AttrLength(y);
  }

  /** ATTR_ENCODE on a word in place. */
  method AttrEncodeInto(w: Word, attr: nat, length: nat, bswap: nat)
    requires w.Valid() && w.width == 64 && attr < Pow2(16) && length < Pow2(16) && bswap < Pow2(8)
    modifies w
    ensures w.Valid() && AttrNum(w.x) == attr && AttrBswap(w.x) == bswap && AttrLength(w.x) == length
    ensures forall i: nat :: 40 <= i ==> Bit(w.x, i) == Bit(old(w.x), i)
  {
    hide Pow2, Bitwise, Shr, Set;
    AttrRoundTrip(w.x, attr, length, bswap);
    StoresInOrder(64, w.x, ATTR, length, bswap, attr);
    w.BfSet(24, 16, length);
    w.BfSet(16, 8, bswap);
    w.BfSet(0, 16, attr);
  }

  lemma StoresInOrder(w: nat, x: nat, layout: Layout, a: nat, b: nat, c: nat)
    requires |layout| == 3 && Separate(w, layout)
    requires a < Pow2(layout[2].len) && b < Pow2(layout[1].len) && c < Pow2(layout[0].len)
    ensures RunWord(w, x, layout, [Write(2, a), Write(1, b), Write(0, c)]) ==
      Put(w, Put(w, Put(w, x, layout[2], a), layout[1], b), layout[0], c)
  {
    hide Pow2, Set;
    var ops := [Write(2, a), Write(1, b), Write(0, c)];
    var x2 := Put(w, x, layout[2], a);
    var x1 := Put(w, x2, layout[1], b);
    assert ops[1..] == [Write(1, b), Write(0, c)] && ops[1..][1..] == [Write(0, c)] && ops[1..][1..][1..] == [];
    assert RunWord(w, x, layout, ops) == RunWord(w, x2, layout, ops[1..]);
    assert RunWord(w, x2, layout, ops[1..]) == RunWord(w, x1, layout, ops[1..][1..]);
  }

  // ---------- table of contents ----------

  function TocOff(x: nat): nat { Decode(x, 0, 23) }
  function TocAttrPresent(x: nat): nat { Decode(x, 31, 1) }
  function TocLenIdx(x: nat): nat { Decode(x, 24, 4) }

  const TOC: Layout := [Field(0, 24), Field(24, 7), Field(31, 1)]

  function TocStores(lenIdx: nat, offset: nat): seq<Write> {
    [Write(2, 1), Write(1, lenIdx), Write(0, offset)]
  }

  function TocAttrEncode(x: uint32, lenIdx: nat, offset: nat): nat
    requires lenIdx < Pow2(7) && offset < Pow2(24)
  {
    RunWord(32, x, TOC, TocStores(lenIdx, offset))
  }

  lemma GetLowPart(x: nat, low: nat, short: nat, long: nat)
    requires short <= long
    ensures Decode(x, low, short) == Low(Get(x, Field(low, long)), short)
  {
    hide Pow2, Bitwise, Shr;
    var a, b := Decode(x, low, short), Get(x, Field(low, long));
    forall i: nat ensures Bit(a, i) == Bit(Low(b, short), i) {
      BitOfDecode(x, low, short, i);
      BitOfDecode(x, low, long, i);
      BitOfLow(b, short, i);
    }
    SameBits(a, Low(b, short));
  }

  /** The store takes a 24-bit offset and a 7-bit length index, the getters read 23 and 4
      bits: the entry is present, and each value survives exactly when it fits its getter. */
  lemma TocRoundTrip(x: uint32, lenIdx: nat, offset: nat)
    requires lenIdx < Pow2(7) && offset < Pow2(24)
    ensures var y := TocAttrEncode(x, lenIdx, offset);
      y < Pow2(32) && TocAttrPresent(y) == 1 &&
      TocOff(y) == Low(offset, 23) && TocLenIdx(y) == Low(lenIdx, 4) &&
      (TocOff(y) == offset <==> offset < Pow2(23)) &&
      (TocLenIdx(y) == lenIdx <==> lenIdx < 16)
  {
    hide Pow2, Bitwise, Shr, Set, RunWord;
    Powers();
    SixteenIsPow();
    var ops, u := TocStores(lenIdx, offset), Unpack(x, TOC);
    RunRefinesRecord(32, x, TOC, ops);
    var y := RunWord(32, x, TOC, ops);
    RecordKeepsLastWrite(u, ops, 0);
    RecordKeepsLastWrite(u, ops, 1);
    RecordKeepsLastWrite(u, ops, 2);
    assert ops[0].k == 2 && ops[1].k == 1 && ops[2].k == 0;
    assert Unpack(y, TOC)[0] == Get(y, Field(0, 24)) && Unpack(y, TOC)[1] == Get(y, Field(24, 7)) &&
      Unpack(y, TOC)[2] == TocAttrPresent(y);
    GetLowPart(y, 0, 23, 24);
    GetLowPart(y, 24, 4, 7);
    LowKeeps(offset, 23);
    LowKeeps(lenIdx, 4);
  }

  /** Offset 2^23 and length index 16 are accepted and both read back as 0. */
  lemma TocHighBitsAreLost(x: uint32)
    ensures Pow2(23) < Pow2(24) && 16 < Pow2(7)
    ensures var y := TocAttrEncode(x, 16, Pow2(23)); TocOff(y) == 0 && TocLenIdx(y) == 0
  {
    SixteenIsPow();
    assert Pow2(7) == 8 * Pow2(4);
    hide Pow2, Bitwise, Shr, Set, RunWord;
    Pow2Less(23, 24);
    TocRoundTrip(x, 16, Pow2(23));
    LowIsMod(Pow2(23), 23);
    LowIsMod(16, 4);
    DivModUnique(Pow2(23), Pow2(23), 1, 0);
  }

  /** TOC_ATTR_ENCODE on a word in place. */
  method TocAttrEncodeInto(w: Word, lenIdx: nat, offset: nat)
    requires w.Valid() && w.width == 32 && lenIdx < Pow2(7) && offset < Pow2(24)
    modifies w
    ensures w.Valid() && TocAttrPresent(w.x) == 1
    ensures TocOff(w.x) == offset <==> offset < Pow2(23)
    ensures TocLenIdx(w.x) == lenIdx <==> lenIdx < 16
  {
    hide Pow2, Bitwise, Shr, Set;
    Powers();
    TocRoundTrip(w.x, lenIdx, offset);
    StoresInOrder(32, w.x, TOC, 1, lenIdx, offset);
    w.BfSet(31, 1, 1);
    w.BfSet(24, 7, lenIdx);
    w.BfSet(0, 24, offset);
  }

  lemma SixteenIsPow()
    ensures Pow2(4) == 16
  {
  }

  // ---------- where the fields sit ----------

  lemma SaPositions(attr: nat, toc: nat, hdr: uint16)
    ensures AttrNum(attr) == attr % Pow2(16) && AttrBswap(attr) == attr / Pow2(16) % Pow2(8)
    ensures AttrLength(attr) == attr / Pow2(24) % Pow2(16)
    ensures TocOff(toc) == toc % Pow2(23) && TocLenIdx(toc) == toc / Pow2(24) % 16
    ensures TocAttrPresent(toc) == toc / Pow2(31) % 2
    ensures HdrLayoutNum(hdr) == hdr % 1024 && HdrSize(hdr) == hdr / 1024 * 8
  {
    SixteenIsPow();
    assert Pow2(10) == 1024 && Pow2(6) == 64;
    Powers();
    Pow2Add(10, 6);
    hide Pow2, Decode, Bitwise, Shr;
    DecodeIsDivMod(attr, 0, 16);
    DecodeIsDivMod(attr, 16, 8);
    DecodeIsDivMod(attr, 24, 16);
    DecodeIsDivMod(toc, 0, 23);
    DecodeIsDivMod(toc, 24, 4);
    DecodeIsDivMod(toc, 31, 1);
    DecodeIsDivMod(hdr, 0, 10);
    GetSBIsDivMod(32, hdr, 10, 6, 3, 0);
    QuotientBelow(hdr, 1024, 64);
    DivModUnique(hdr / 1024 * 8, Pow2(32), 0, hdr / 1024 * 8);
  }

  // ---------- header ----------

  // Bits 0-9 hold the layout number, bits 10-15 the header size in units of 8 bytes.

  function HdrLayoutNum(info: nat): nat { Decode(info, 0, 10) }
  function HdrSize(info: nat): nat { GetSB(32, info, 10, 6, 3, 0) }

  const SA_MAGIC := 0x2F505A

  class SaHeader {
    var saMagic: uint32
    var saLayoutInfo: uint16

    /** SA_SET_HDR: the two stores into a 16-bit word lose nothing. */
    method SaSetHdr(num: nat, size: uint32)
      requires num < Pow2(10) && CanSetSB(32, 10, 6, 3, 0, size)
      modifies this
      ensures saMagic == 0x2F505A
      ensures HdrLayoutNum(saLayoutInfo) == num && HdrSize(saLayoutInfo) == size
    {
      HdrRoundTrip(saLayoutInfo, num, size);
      MagicFits();
      hide Pow2, Bitwise, Shr, Set;
      saMagic := SA_MAGIC;
      saLayoutInfo := Low(SetSB(32, saLayoutInfo, 10, 6, 3, 0, size), 16);
      saLayoutInfo := Low(Set(32, saLayoutInfo, 0, 10, num), 16);
    }
  }

  lemma MagicFits()
    ensures SA_MAGIC < Pow2(32)
  {
    Powers();
  }

  lemma HdrRoundTrip(info: uint16, num: nat, size: uint32)
    requires num < Pow2(10) && CanSetSB(32, 10, 6, 3, 0, size)
    ensures var a := SetSB(32, info, 10, 6, 3, 0, size);
      a < Pow2(16) && Low(a, 16) == a &&
      var b := Set(32, a, 0, 10, num);
      b < Pow2(16) && Low(b, 16) == b && HdrLayoutNum(b) == num && HdrSize(b) == size
  {
    hide Pow2, Bitwise, Shr;
    var a := SetSB(32, info, 10, 6, 3, 0, size);
    SetWithin(info, 10, 6, Shr(size, 3));
    GetSetSB(32, info, 10, 6, 3, 0, size);
    SetWithin(a, 0, 10, num);
    GetSet(32, a, Field(0, 10), num);
    GetSetOther(32, a, Field(0, 10), num, Field(10, 6));
    LowKeeps(a, 16);
    LowKeeps(Set(32, a, 0, 10, num), 16);
  }

  /** A 32-bit store below bit 16 keeps a 16-bit word within 16 bits. */
  lemma SetWithin(info: uint16, low: nat, len: nat, v: nat)
    requires low + len <= 16 && v < Pow2(len)
    ensures Set(32, info, low, len, v) < Pow2(16)
  {
    hide Pow2, Bitwise, Shr;
    var y := Set(32, info, low, len, v);
    forall i: nat | 16 <= i ensures !Bit(y, i) {
      BitOfSet(32, info, low, len, v, i);
      BitAbove(info, 16, i);
    }
    FitsWidth(y, 16);
  }

  // ---------- header size ----------

  /** -x in 64-bit arithmetic. */
  function Neg(x: uint64): uint64 { if x == 0 then 0 else Pow2(64) - x }

  /** P2ROUNDUP of FreeBSD's sysmacros.h: -(-x & -align). */
  function P2RoundUp(x: uint64, align: uint64): uint64 {
    BitwiseFits(AND, Neg(x), Neg(align), 64);
    Neg(And(Neg(x), Neg(align)))
  }

  /** P2ROUNDUP of the Linux sysmacros.h and of ccompile.h: ((x - 1) | (align - 1)) + 1. */
  function P2RoundUpOr(x: uint64, align: uint64): nat
    requires align > 0
  {
    AddW(64, Or(Pred(64, x), align - 1), 1)
  }

  /** The two definitions agree on all words, for every alignment but zero: -x is the
      complement of x - 1, and complement turns & into |. */
  lemma RoundUpFormsAgree(x: uint64, align: uint64)
    requires align > 0
    ensures P2RoundUp(x, align) == P2RoundUpOr(x, align)
  {
    hide Pow2, Bitwise;
    var y, m := Pred(64, x), align - 1;
    BitwiseFits(OR, y, m, 64);
    assert Neg(x) == Not(64, y) && Neg(align) == Not(64, m);
    forall i: nat ensures Bit(And(Not(64, y), Not(64, m)), i) == Bit(Not(64, Or(y, m)), i) {
      BitOfBitwise(AND, Not(64, y), Not(64, m), i);
      BitOfBitwise(OR, y, m, i);
      BitOfNot(64, y, i);
      BitOfNot(64, m, i);
      BitOfNot(64, Or(y, m), i);
    }
    SameBits(And(Not(64, y), Not(64, m)), Not(64, Or(y, m)));
  }

  /** The size SA_HDR_SIZE_MATCH_LAYOUT compares with, for n variable-sized attributes. */
  function MatchSize(n: uint32): nat {
    ShortFits(n);
    8 + if n > 1 then P2RoundUp((n - 1) * 2, 8) else 0
  }

  lemma ShortFits(n: uint32)
    ensures n * 2 < Pow2(64)
  {
    Powers();
  }

  /** r is the least multiple of d that is at least x. */
  ghost predicate IsRoundUp(r: nat, x: nat, d: nat)
    requires d > 0
  {
    r % d == 0 && x <= r && forall m: nat :: m % d == 0 && x <= m ==> r <= m
  }

  lemma RoundUpIsLeast(x: uint64, k: nat)
    requires k < 64 && x <= Pow2(64) - Pow2(k)
    ensures Pow2(k) < Pow2(64) && IsRoundUp(P2RoundUp(x, Pow2(k)), x, Pow2(k))
  {
    hide Pow2, Bitwise, Shr;
    Pow2Less(k, 64);
    var d, y := Pow2(k), Neg(x);
    ClearLow(y, k);
    Pow2Add(k, 64 - k);
    RoundUpArithmetic(x, d, Pow2(64 - k), P2RoundUp(x, d), y);
  }

  /** & with -2^k clears the low k bits. */
  lemma ClearLow(y: uint64, k: nat)
    requires k < 64 && Pow2(k) < Pow2(64)
    ensures And(y, Neg(Pow2(k))) == y / Pow2(k) * Pow2(k)
  {
    hide Pow2, Bitwise, Shr;
    var a, n := And(y, Neg(Pow2(k))), y / Pow2(k) * Pow2(k);
    ShrIsDiv(y, k);
    TimesIsMul(Shr(y, k), k);
    forall i: nat ensures Bit(a, i) == Bit(n, i) {
      BitOfBitwise(AND, y, Not(64, Pow2(k) - 1), i);
      BitOfNot(64, Pow2(k) - 1, i);
      BitOfMask(k, i);
      BitOfTimes(Shr(y, k), k, i);
      if k <= i { BitOfShr(y, k, i - k); }
      if 64 <= i { BitAbove(y, 64, i); }
    }
    SameBits(a, n);
  }

  lemma RoundUpArithmetic(x: nat, d: nat, c: nat, r: nat, y: nat)
    requires d > 0 && x <= d * c - d && y == (if x == 0 then 0 else d * c - x)
    requires r == if y / d * d == 0 then 0 else d * c - y / d * d
    ensures IsRoundUp(r, x, d)
  {
    if x > 0 {
      var q := y / d;
      assert y == q * d + y % d;
      assert q > 0 by { if q == 0 { assert y >= d; } }
      assert r == (c - q) * d;
      MultipleExact(r, c - q, d);
      forall m: nat | m % d == 0 && x <= m ensures r <= m {
        assert m == (m / d) * d;
        assert (c - m / d) * d == d * c - m;
        LargerQuotient(c - q, m / d, d, r, m, y % d);
      }
    } else {
      DivModUnique(0, d, 0, 0);
    }
  }

  lemma MultipleExact(r: nat, q: int, d: nat)
    requires d > 0 && r == q * d
    ensures r % d == 0
  {
    if q < 0 { NonzeroMultiple(q, d); }
    DivModUnique(r, d, q, 0);
  }

  lemma LargerQuotient(a: int, b: nat, d: nat, r: nat, m: nat, s: nat)
    requires r == a * d && m == b * d && s < d && r - s <= m
    ensures r <= m
  {
    assert (a - b) * d == r - m;
    if a != b { NonzeroMultiple(a - b, d); }
  }

  /** The matched size is the least multiple of 8 that holds the 6 fixed bytes and one
      16-bit length per variable-sized attribute. */
  lemma MatchSizeIsLeast(n: uint32)
    ensures IsRoundUp(MatchSize(n), 6 + 2 * n, 8)
    ensures (n - 1) * 2 < Pow2(64) && 8 < Pow2(64)
    ensures n > 1 ==> MatchSize(n) == 8 + P2RoundUpOr((n - 1) * 2, 8)
  {
    ShortFits(n);
    Powers();
    hide Pow2, Bitwise;
    if n > 1 {
      RoundUpIsLeast((n - 1) * 2, 3);
      RoundUpFormsAgree((n - 1) * 2, 8);
      var r := P2RoundUp((n - 1) * 2, 8);
      assert (8 + r) % 8 == 0;
      forall m: nat | m % 8 == 0 && 6 + 2 * n <= m ensures 8 + r <= m {
        assert (m - 8) % 8 == 0;
      }
    }
  }

  /** It survives the 6-bit field, together with any layout number, exactly for at most 249
      variable-sized attributes. */
  lemma MatchSizeSurvives(n: uint32)
    ensures CanSetSB(32, 10, 6, 3, 0, MatchSize(n)) <==> n <= 249
    ensures forall info: uint16, num: nat :: n <= 249 && num < Pow2(10) ==>
      var b := Set(32, SetSB(32, info, 10, 6, 3, 0, MatchSize(n)), 0, 10, num);
      HdrLayoutNum(b) == num && HdrSize(b) == MatchSize(n)
  {
    MatchSizeIsLeast(n);
    var size := MatchSize(n);
    assert Pow2(6) == 64;
    Powers();
    hide Pow2, Bitwise, Shr, Set, MatchSize;
    PhaseIsRemainder(size, 3);
    ShrIsDiv(size, 3);
    if n <= 249 { assert 504 % 8 == 0 && 6 + 2 * n <= 504; }
    forall info: uint16, num: nat | n <= 249 && num < Pow2(10)
      ensures var b := Set(32, SetSB(32, info, 10, 6, 3, 0, size), 0, 10, num);
        HdrLayoutNum(b) == num && HdrSize(b) == size
    {
      HdrRoundTrip(info, num, size);
    }
  }
}
