/** The three range-segment representations of range_tree.h as one half-open interval. */
module RangeSeg {
  import opened Bits

  datatype SegType = SEG32 | SEG64 | GAP

  /** The fields of zfs_range_tree_t that scale its segments. */
  datatype Tree = Tree(typ: SegType, shift: nat, start: uint64)

  /** A segment of the tree's type: SEG32 fields hold 32 bits, and only GAP has a fill. */
  datatype Seg = Seg(rsStart: uint64, rsEnd: uint64, rsFill: uint64)

  predicate Valid(rs: Seg, rt: Tree) {
    rt.shift < 64 && (rt.typ.SEG32? ==> rs.rsStart < Pow2(32) && rs.rsEnd < Pow2(32))
  }

  /** End minus start, in the unsigned arithmetic of the representation. */
  function FillRaw(rs: Seg, rt: Tree): nat
    requires Valid(rs, rt)
  {
    match rt.typ
    case SEG32 => SubW(32, rs.rsEnd, rs.rsStart)
    case SEG64 => SubW(64, rs.rsEnd, rs.rsStart)
    case GAP => rs.rsFill
  }

  function Scale(raw: nat, rt: Tree): nat { AddW(64, Shl(64, raw, rt.shift), rt.start) }

  function GetStart(rs: Seg, rt: Tree): nat { Scale(rs.rsStart, rt) }
  function GetEnd(rs: Seg, rt: Tree): nat { Scale(rs.rsEnd, rt) }
  function GetFill(rs: Seg, rt: Tree): nat
    requires Valid(rs, rt)
  {
    Shl(64, FillRaw(rs, rt), rt.shift)
  }

  function Raw(x: uint64, rt: Tree): nat
    requires rt.start <= x
  {
    Shr(x - rt.start, rt.shift)
  }

  /** The ASSERTs of zfs_rs_set_start and zfs_rs_set_end. The offset itself is tested for
      alignment, not its distance from rt_start. */
  predicate CanSet(rt: Tree, x: uint64) {
    rt.shift < 64 && rt.start <= x && IsP2Aligned(x, Pow2(rt.shift)) &&
    (rt.typ.SEG32? ==> Raw(x, rt) < Pow2(32))
  }

  /** The ASSERTs of zfs_rs_set_fill: without a fill of its own, it is end minus start. */
  predicate CanSetFill(rs: Seg, rt: Tree, fill: uint64) {
    rt.shift < 64 && IsP2Aligned(fill, Pow2(rt.shift)) &&
    (!rt.typ.GAP? ==> Shr(fill, rt.shift) == SubW(64, rs.rsEnd, rs.rsStart))
  }

  function SetStart(rs: Seg, rt: Tree, x: uint64): Seg
    requires CanSet(rt, x)
  {
    RawFits(rt, x);
    rs.(rsStart := Raw(x, rt))
  }

  function SetEnd(rs: Seg, rt: Tree, x: uint64): Seg
    requires CanSet(rt, x)
  {
    RawFits(rt, x);
    rs.(rsEnd := Raw(x, rt))
  }

  function SetFill(rs: Seg, rt: Tree, fill: uint64): Seg
    requires CanSetFill(rs, rt, fill)
  {
    if rt.typ.GAP? then
      ShrAtMost(fill, rt.shift);
      rs.(rsFill := Shr(fill, rt.shift))
    else rs
  }

  lemma {:induction false} ShrAtMost(x: nat, k: nat)
    ensures Shr(x, k) <= x
    decreases k
  {
    if k > 0 { ShrAtMost(x / 2, k - 1); }
  }

  lemma RawFits(rt: Tree, x: uint64)
    requires rt.start <= x
    ensures Raw(x, rt) < Pow2(64)
  {
    ShrAtMost(x - rt.start, rt.shift);
  }

  /** The ASSERTs spelled out: what the offset setters accept and store. */
  lemma AcceptedOffsets(rt: Tree, x: uint64)
    ensures CanSet(rt, x) <==>
      rt.shift < 64 && rt.start <= x && x % Pow2(rt.shift) == 0 &&
      (rt.typ.SEG32? ==> (x - rt.start) / Pow2(rt.shift) < 0x1_0000_0000)
    ensures CanSet(rt, x) ==> Raw(x, rt) == (x - rt.start) / Pow2(rt.shift)
  {
    Powers();
    hide Pow2, Bitwise, Shr;
    PhaseIsRemainder(x, rt.shift);
    if rt.start <= x { ShrIsDiv(x - rt.start, rt.shift); }
  }

  /** The fills zfs_rs_set_fill accepts: any multiple of the unit for GAP, otherwise the one
      that spans start to end in 64-bit arithmetic. */
  lemma AcceptedFills(rs: Seg, rt: Tree, fill: uint64)
    ensures CanSetFill(rs, rt, fill) <==>
      rt.shift < 64 && fill % Pow2(rt.shift) == 0 &&
      (rt.typ.GAP? || rs.rsStart + fill / Pow2(rt.shift) == rs.rsEnd ||
       rs.rsStart + fill / Pow2(rt.shift) == rs.rsEnd + Pow2(64))
  {
    hide Pow2, Bitwise, Shr;
    PhaseIsRemainder(fill, rt.shift);
    ShrIsDiv(fill, rt.shift);
    ShrAtMost(fill, rt.shift);
  }

  // ---------- setting and reading back ----------

  predicate Aligned(rt: Tree) { IsP2Aligned(rt.start, Pow2(rt.shift)) }

  lemma AlignedDifference(a: nat, b: nat, d: nat)
    requires d > 0 && b <= a && a % d == 0
    ensures (a - b) % d == 0 <==> b % d == 0
  {
    var q, r := b / d, b % d;
    assert a - b == (a / d - q) * d - r;
    if r == 0 {
      MultipleOf(a - b, a / d - q, d);
    } else {
      assert a - b == (a / d - q - 1) * d + (d - r);
      if a / d - q - 1 < 0 { NonzeroMultiple(a / d - q - 1, d); }
      DivModUnique(a - b, d, a / d - q - 1, d - r);
    }
  }

  lemma MultipleOf(x: nat, q: int, d: nat)
    requires d > 0 && x == q * d
    ensures x % d == 0
  {
    if q < 0 { NonzeroMultiple(q, d); }
    DivModUnique(x, d, q, 0);
  }

  /** Scaling the stored number gives back the offset exactly when the tree's own start is
      a multiple of its unit. */
  lemma ScaleRaw(rt: Tree, x: uint64)
    requires CanSet(rt, x)
    ensures Scale(Raw(x, rt), rt) == x <==> Aligned(rt)
    ensures Aligned(rt) ==> Times(Raw(x, rt), rt.shift) == x - rt.start
  {
    hide Pow2, Bitwise, Shr;
    var d := x - rt.start;
    PhaseIsRemainder(x, rt.shift);
    PhaseIsRemainder(rt.start, rt.shift);
    AlignedDifference(x, rt.start, Pow2(rt.shift));
    SplitAt(d, rt.shift);
    LowIsMod(d, rt.shift);
    LowKeeps(Times(Raw(x, rt), rt.shift), 64);
  }

  /** Start, end and fill round-trip, and none disturbs another's field; the round trip of
      an offset needs, and only needs, an aligned rt_start. */
  lemma SetGet(rs: Seg, rt: Tree, x: uint64)
    requires Valid(rs, rt) && CanSet(rt, x)
    ensures var s := SetStart(rs, rt, x);
      Valid(s, rt) && (GetStart(s, rt) == x <==> Aligned(rt)) && GetEnd(s, rt) == GetEnd(rs, rt)
    ensures var e := SetEnd(rs, rt, x);
      Valid(e, rt) && (GetEnd(e, rt) == x <==> Aligned(rt)) && GetStart(e, rt) == GetStart(rs, rt)
    ensures rt.typ.GAP? ==> GetFill(SetStart(rs, rt, x), rt) == GetFill(rs, rt)
    ensures rt.typ.GAP? ==> GetFill(SetEnd(rs, rt, x), rt) == GetFill(rs, rt)
  {
    hide Pow2, Bitwise, Shr;
    ScaleRaw(rt, x);
  }

  /** A tree of two-byte units starting at byte 1: offset 2 is accepted and reads back as 1. */
  lemma UnalignedOriginLosesOffset()
    ensures var rt := Tree(SEG64, 1, 1);
      CanSet(rt, 2) && GetStart(SetStart(Seg(0, 0, 0), rt, 2), rt) == 1
  {
    Powers();
    PhaseIsRemainder(2, 1);
    LowKeeps(0, 64);
    assert Shr(1, 1) == 0 && Times(0, 1) == 0;
  }

  /** A fill reads back, except that the ASSERT also lets a SEG32 segment with its ends
      reversed through, whose 32-bit length is not the 64-bit one asserted. */
  lemma SetGetFill(rs: Seg, rt: Tree, fill: uint64)
    requires Valid(rs, rt) && CanSetFill(rs, rt, fill)
    ensures var f := SetFill(rs, rt, fill);
      Valid(f, rt) && (GetFill(f, rt) == fill <==> !rt.typ.SEG32? || rs.rsStart <= rs.rsEnd) &&
      GetStart(f, rt) == GetStart(rs, rt) && GetEnd(f, rt) == GetEnd(rs, rt)
  {
    hide Pow2, Bitwise, Shr;
    ShrShl(64, fill, rt.shift);
    if rt.typ.SEG32? && rs.rsEnd < rs.rsStart {
      Powers();
      TimesIsMul(Shr(fill, rt.shift), rt.shift);
      ReversedFill(Shr(fill, rt.shift), Pow2(rt.shift), fill);
      TimesIsMul(FillRaw(rs, rt), rt.shift);
      LowKeeps(FillRaw(rs, rt), 64);
    }
  }

  /** A stored fill above 2^63 leaves no room for a unit other than one byte. */
  lemma ReversedFill(raw: nat, unit: nat, fill: uint64)
    requires unit > 0 && raw * unit == fill && raw >= Pow2(63)
    ensures unit == 1
  {
    Powers();
    hide Pow2;
    if unit > 1 { MulAtLeast(raw, unit, 2); }
  }

  lemma MulAtLeast(a: nat, b: nat, c: nat)
    requires b >= c
    ensures a * b >= a * c
  {
  }

  /** Comparing stored numbers is comparing byte offsets, whether or not rt_start is aligned:
      distinct aligned offsets are a whole unit apart. */
  lemma RawOrder(rt: Tree, x: uint64, y: uint64)
    requires CanSet(rt, x) && CanSet(rt, y)
    ensures Raw(x, rt) < Raw(y, rt) <==> x < y
  {
    hide Pow2, Bitwise, Shr;
    if x < y { RawGap(rt, x, y); }
    if y < x { RawGap(rt, y, x); }
  }

  lemma RawGap(rt: Tree, x: uint64, y: uint64)
    requires CanSet(rt, x) && CanSet(rt, y) && x < y
    ensures Raw(x, rt) < Raw(y, rt)
  {
    hide Pow2, Bitwise, Shr;
    UnitApart(x, y, rt.shift);
    ShrGap(x - rt.start, y - rt.start, rt.shift);
  }

  lemma UnitApart(x: nat, y: nat, k: nat)
    requires IsP2Aligned(x, Pow2(k)) && IsP2Aligned(y, Pow2(k)) && x < y
    ensures x + Pow2(k) <= y
  {
    hide Pow2, Bitwise, Shr;
    PhaseIsLow(x, k);
    PhaseIsLow(y, k);
    SplitAt(x, k);
    SplitAt(y, k);
    var a, b := Shr(x, k), Shr(y, k);
    if a < b { TimesGap(a, b, k); }
    if b < a { TimesGap(b, a, k); }
  }

  lemma ShrGap(x: nat, y: nat, k: nat)
    requires x + Pow2(k) <= y
    ensures Shr(x, k) < Shr(y, k)
  {
    hide Pow2, Shr;
    SplitAt(x, k);
    SplitAt(y, k);
    LowAtMost(y, k);
    var a, b := Shr(x, k), Shr(y, k);
    if b < a { TimesGap(b, a, k); }
  }

  /** The same interval stored in any two trees, whatever their representations, units and
      origins, reads back the same. */
  lemma SameInterval(rs: Seg, rt: Tree, rs': Seg, rt': Tree, x: uint64, y: uint64)
    requires Valid(rs, rt) && CanSet(rt, x) && CanSet(rt, y) && Aligned(rt)
    requires Valid(rs', rt') && CanSet(rt', x) && CanSet(rt', y) && Aligned(rt')
    ensures var s := SetEnd(SetStart(rs, rt, x), rt, y);
      var s' := SetEnd(SetStart(rs', rt', x), rt', y);
      GetStart(s, rt) == x == GetStart(s', rt') && GetEnd(s, rt) == y == GetEnd(s', rt')
  {
    hide Pow2, Bitwise, Shr;
    SetGet(rs, rt, x);
    SetGet(SetStart(rs, rt, x), rt, y);
    SetGet(rs', rt', x);
    SetGet(SetStart(rs', rt', x), rt', y);
  }

  // ---------- fill of a segment without one of its own ----------

  lemma ModPlusMultiple(y: int, q: int, m: nat)
    requires m > 0
    ensures (y + q * m) % m == y % m
  {
    var z := y + q * m;
    assert z == (z / m) * m + z % m && y == (y / m) * m + y % m;
    var e := z / m - y / m - q;
    assert e * m == y % m - z % m;
    if e != 0 { NonzeroMultiple(e, m); }
  }

  lemma ModDiffers(y: int, d: nat, m: nat)
    requires 0 < d < m
    ensures (y + d) % m != y % m
  {
    if (y + d) % m == y % m {
      var e := (y + d) / m - y / m;
      assert e * m == d;
      NonzeroMultiple(e, m);
    }
  }

  lemma DropCarries(x: int, y: int, a: int, b: int, s: int, c: int, c': int, m: nat)
    requires m > 0 && x == a + s - c * m && y == b + s - c' * m
    ensures (x - y) % m == (a - b) % m
  {
    assert x - y == a - b + (c' - c) * m;
    ModPlusMultiple(a - b, c' - c, m);
  }

  lemma ScaledDifference(x: nat, y: nat, a: nat, b: nat, s: nat, m: nat)
    requires m > 0 && x == (a % m + s) % m && y == (b % m + s) % m
    ensures (x - y) % m == (a - b) % m
  {
    var c := Carries(a, s, m);
    var c' := Carries(b, s, m);
    DropCarries(x, y, a, b, s, c, c', m);
  }

  lemma DifferenceTimes(a: nat, b: nat, k: nat)
    ensures (a - b) * k == a * k - b * k
  {
  }

  /** The machine operations as remainders. */
  lemma AsRemainders(w: nat, a: nat, b: nat)
    requires a < Pow2(w) && b < Pow2(w)
    ensures AddW(w, a, b) == (a + b) % Pow2(w) && SubW(w, a, b) == (a - b) % Pow2(w)
  {
    hide Pow2;
    var m := Pow2(w);
    DivModUnique(AddW(w, a, b), m, 0, AddW(w, a, b));
    DivModUnique(SubW(w, a, b), m, 0, SubW(w, a, b));
    ModPlusMultiple(a + b, -1, m);
    ModPlusMultiple(a - b, 1, m);
  }

  lemma ShlAsRemainder(x: nat, k: nat)
    ensures Shl(64, x, k) == x * Pow2(k) % Pow2(64)
  {
    hide Pow2;
    TimesIsMul(x, k);
    LowIsMod(Times(x, k), 64);
  }

  lemma ScaleAsRemainder(raw: nat, rt: Tree)
    ensures Scale(raw, rt) == (raw * Pow2(rt.shift) % Pow2(64) + rt.start) % Pow2(64) < Pow2(64)
  {
    hide Pow2;
    ShlAsRemainder(raw, rt.shift);
    AsRemainders(64, Shl(64, raw, rt.shift), rt.start);
  }

  /** The byte length of a segment is its raw length in units, in 64-bit arithmetic. */
  lemma LengthInUnits(rs: Seg, rt: Tree)
    ensures GetStart(rs, rt) < Pow2(64)
    ensures SubW(64, GetEnd(rs, rt), GetStart(rs, rt)) == ((rs.rsEnd - rs.rsStart) * Pow2(rt.shift)) % Pow2(64)
  {
    hide Pow2, Scale;
    var a, b := rs.rsEnd * Pow2(rt.shift), rs.rsStart * Pow2(rt.shift);
    ScaleAsRemainder(rs.rsEnd, rt);
    ScaleAsRemainder(rs.rsStart, rt);
    DifferenceTimes(rs.rsEnd, rs.rsStart, Pow2(rt.shift));
    ScaledDifference(GetEnd(rs, rt), GetStart(rs, rt), a, b, rt.start, Pow2(64));
    AsRemainders(64, GetEnd(rs, rt), GetStart(rs, rt));
  }

  lemma Carries(a: nat, s: nat, m: nat) returns (c: int)
    requires m > 0
    ensures (a % m + s) % m == a + s - c * m
  {
    var z := a % m + s;
    c := a / m + z / m;
    assert a == (a / m) * m + a % m && z == (z / m) * m + z % m;
  }

  /** A difference may wrap before it is scaled, if it wraps at the width of the result. */
  lemma WrapThenScale(w: int, k: nat, m: nat)
    requires m > 0
    ensures w % m * k % m == w * k % m
  {
    var c := -(w / m) * k;
    assert w % m == w - (w / m) * m;
    assert w % m * k == w * k + c * m by { Regroup(w, w / m, m, k); }
    ModPlusMultiple(w * k, c, m);
  }

  lemma Regroup(w: int, q: int, m: nat, k: nat)
    ensures (w - q * m) * k == w * k + (-q * k) * m
  {
    assert (w - q * m) * k == w * k - (q * m) * k;
    assert (q * m) * k == (q * k) * m;
  }

  /** A 32-bit wrap shows in 64 bits until the scale has shifted it out. */
  lemma NarrowWrap(w: int, shift: nat)
    requires shift < 64
    ensures (w + Pow2(32)) * Pow2(shift) % Pow2(64) == w * Pow2(shift) % Pow2(64) <==> shift >= 32
  {
    hide Pow2;
    var k, m := Pow2(shift), Pow2(64);
    Pow2Add(32, shift);
    assert (w + Pow2(32)) * k == w * k + Pow2(32 + shift);
    if shift >= 32 {
      Pow2Add(shift - 32, 64);
      ModPlusMultiple(w * k, Pow2(shift - 32), m);
    } else {
      Pow2Less(32 + shift, 64);
      ModDiffers(w * k, Pow2(32 + shift), m);
    }
  }

  /** For SEG32 and SEG64 the fill is end minus start. On SEG32 segments whose ends are
      reversed, where the 32-bit difference wraps, this holds only once the unit is 2^32. */
  lemma FillIsLength(rs: Seg, rt: Tree)
    requires Valid(rs, rt) && !rt.typ.GAP?
    ensures GetStart(rs, rt) < Pow2(64)
    ensures GetFill(rs, rt) == SubW(64, GetEnd(rs, rt), GetStart(rs, rt)) <==>
      rt.typ.SEG64? || rs.rsStart <= rs.rsEnd || rt.shift >= 32
  {
    hide Pow2, GetStart, GetEnd;
    LengthInUnits(rs, rt);
    ShlAsRemainder(FillRaw(rs, rt), rt.shift);
    var w := rs.rsEnd - rs.rsStart;
    if rt.typ.SEG64? {
      AsRemainders(64, rs.rsEnd, rs.rsStart);
      WrapThenScale(w, Pow2(rt.shift), Pow2(64));
    } else if w < 0 {
      NarrowWrap(w, rt.shift);
    }
  }

  /** A SEG32 segment from 1 to 0: its fill is 2^32 - 1, while end minus start, the value
      zfs_rs_set_fill accepts, is 2^64 - 1. */
  lemma ReversedSegmentFill()
    ensures var rs, rt := Seg(1, 0, 0), Tree(SEG32, 0, 0);
      Valid(rs, rt) && SubW(64, GetEnd(rs, rt), GetStart(rs, rt)) == Pow2(64) - 1 &&
      CanSetFill(rs, rt, Pow2(64) - 1) && GetFill(SetFill(rs, rt, Pow2(64) - 1), rt) == Pow2(32) - 1
  {
    var rs, rt := Seg(1, 0, 0), Tree(SEG32, 0, 0);
    Powers();
    hide Pow2;
    LowKeeps(0, 64);
    LowKeeps(1, 64);
    LowKeeps(Pow2(32) - 1, 64);
    PhaseIsRemainder(Pow2(64) - 1, 0);
  }

  /** A segment stored in place through a pointer. */
  class SegCell {
    var rs: Seg

    method RsSetStart(rt: Tree, start: uint64)
      requires Valid(rs, rt) && CanSet(rt, start)
      modifies this
      ensures Valid(rs, rt) && GetEnd(rs, rt) == GetEnd(old(rs), rt)
      ensures GetStart(rs, rt) == start <==> Aligned(rt)
      ensures rs == old(rs).(rsStart := rs.rsStart)
    {
      hide Pow2, Shr;
      SetGet(rs, rt, start);
      RawFits(rt, start);
      rs := rs.(rsStart := Shr(start - rt.start, rt.shift));
    }

    method RsSetEnd(rt: Tree, end: uint64)
      requires Valid(rs, rt) && CanSet(rt, end)
      modifies this
      ensures Valid(rs, rt) && GetStart(rs, rt) == GetStart(old(rs), rt)
      ensures GetEnd(rs, rt) == end <==> Aligned(rt)
      ensures rs == old(rs).(rsEnd := rs.rsEnd)
    {
      hide Pow2, Shr;
      SetGet(rs, rt, end);
      RawFits(rt, end);
      rs := rs.(rsEnd := Shr(end - rt.start, rt.shift));
    }

    method RsSetFill(rt: Tree, fill: uint64)
      requires Valid(rs, rt) && CanSetFill(rs, rt, fill)
      modifies this
      ensures Valid(rs, rt) && GetStart(rs, rt) == GetStart(old(rs), rt) && GetEnd(rs, rt) == GetEnd(old(rs), rt)
      ensures GetFill(rs, rt) == fill <==> !rt.typ.SEG32? || rs.rsStart <= rs.rsEnd
    {
      hide Pow2, Shr;
      SetGetFill(rs, rt, fill);
      if rt.typ.GAP? {
        ShrAtMost(fill, rt.shift);
        rs := rs.(rsFill := Shr(fill, rt.shift));
      }
    }
  }
}
