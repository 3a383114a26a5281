/** The bit-field codec of bitops.h at arbitrary positions, for a machine type of w bits
    (w = 32 for the BF32 macros, w = 64 for BF64), and the record it implements. */
module Bitops {
  import opened Bits

  // ---------- the macros ----------

  function Decode(x: nat, low: nat, len: nat): nat {
    P2Phase(Shr(x, low), Pow2(len))
  }

  function Encode(w: nat, x: nat, low: nat, len: nat): nat {
    Shl(w, P2Phase(x, Pow2(len)), low)
  }

  /** The value BF_SET leaves in its argument; its two ASSERTs are the preconditions. */
  function Set(w: nat, x: nat, low: nat, len: nat, val: nat): nat
    requires val < Pow2(len) && low + len <= w
  {
    Xor(x, Encode(w, Xor(Shr(x, low), val), low, len))
  }

  function GetSB(w: nat, x: nat, low: nat, len: nat, shift: nat, bias: nat): nat {
    Shl(w, Decode(x, low, len) + bias, shift)
  }

  /** The ASSERTs of BF_SET_SB. The bias comparison is read unsigned, which admits every
      value the signed comparison of the source admits. */
  predicate CanSetSB(w: nat, low: nat, len: nat, shift: nat, bias: nat, val: nat) {
    IsP2Aligned(val, Pow2(shift)) && bias <= Shr(val, shift) &&
    Shr(val, shift) - bias < Pow2(len) && low + len <= w
  }

  function SetSB(w: nat, x: nat, low: nat, len: nat, shift: nat, bias: nat, val: nat): nat
    requires CanSetSB(w, low, len, shift, bias, val)
  {
    Set(w, x, low, len, Shr(val, shift) - bias)
  }

  /** A word of 32 or 64 bits updated in place. */
  class Word {
    const width: nat
    var x: nat

    ghost predicate Valid()
      reads this
    {
      x < Pow2(width)
    }

    constructor (width: nat, x: nat)
      requires x < Pow2(width)
      ensures Valid() && this.width == width && this.x == x
    {
      this.width := width;
      this.x := x;
    }

    /** BF_SET: bit by bit, the field takes the bits of val and nothing else moves. */
    method BfSet(low: nat, len: nat, val: nat)
      requires Valid() && val < Pow2(len) && low + len <= width
      modifies this
      ensures Valid() && x == Put(width, old(x), Field(low, len), val) && Decode(x, low, len) == val
      ensures forall i: nat ::
        Bit(x, i) == (if low <= i < low + len then Bit(val, i - low) else Bit(old(x), i))
    {
      SetFits(width, x, low, len, val);
      forall i: nat ensures Bit(Set(width, x, low, len, val), i) ==
        if low <= i < low + len then Bit(val, i - low) else Bit(x, i)
      {
        BitOfSet(width, x, low, len, val, i);
      }
      GetSet(width, x, Field(low, len), val);
      x := Xor(x, Encode(width, Xor(Shr(x, low), val), low, len));
    }

    /** BF_SET_SB: the value reads back through the same shift and bias. */
    method BfSetSB(low: nat, len: nat, shift: nat, bias: nat, val: nat)
      requires Valid() && CanSetSB(width, low, len, shift, bias, val) && val < Pow2(width)
      modifies this
      ensures Valid() && GetSB(width, x, low, len, shift, bias) == val
      ensures x == Put(width, old(x), Field(low, len), Shr(val, shift) - bias)
    {
      GetSetSB(width, x, low, len, shift, bias, val);
      BfSet(low, len, Shr(val, shift) - bias);
    }
  }

  // ---------- single accesses, bit by bit ----------

  lemma DecodeIsLow(x: nat, low: nat, len: nat)
    ensures Decode(x, low, len) == Low(Shr(x, low), len) < Pow2(len)
  {
    PhaseIsLow(Shr(x, low), len);
    LowAtMost(Shr(x, low), len);
  }

  lemma DecodeIsDivMod(x: nat, low: nat, len: nat)
    ensures Decode(x, low, len) == x / Pow2(low) % Pow2(len)
  {
    PhaseIsRemainder(Shr(x, low), len);
    ShrIsDiv(x, low);
  }

  lemma BitOfDecode(x: nat, low: nat, len: nat, i: nat)
    ensures Bit(Decode(x, low, len), i) == (i < len && Bit(x, low + i))
  {
    DecodeIsLow(x, low, len);
    BitOfLow(Shr(x, low), len, i);
    BitOfShr(x, low, i);
  }

  lemma BitOfEncode(w: nat, x: nat, low: nat, len: nat, i: nat)
    ensures Bit(Encode(w, x, low, len), i) == (low <= i < low + len && i < w && Bit(x, i - low))
  {
    PhaseIsLow(x, len);
    BitOfShl(w, Low(x, len), low, i);
    if low <= i { BitOfLow(x, len, i - low); }
  }

  lemma BitOfSet(w: nat, x: nat, low: nat, len: nat, val: nat, i: nat)
    requires val < Pow2(len) && low + len <= w
    ensures Bit(Set(w, x, low, len, val), i) ==
      if low <= i < low + len then Bit(val, i - low) else Bit(x, i)
  {
    var d := Xor(Shr(x, low), val);
    BitOfBitwise(XOR, x, Encode(w, d, low, len), i);
    BitOfEncode(w, d, low, len, i);
    if low <= i {
      BitOfBitwise(XOR, Shr(x, low), val, i - low);
      BitOfShr(x, low, i - low);
    }
  }

  lemma SetFits(w: nat, x: nat, low: nat, len: nat, val: nat)
    requires val < Pow2(len) && low + len <= w && x < Pow2(w)
    ensures Set(w, x, low, len, val) < Pow2(w)
  {
    forall i: nat | w <= i ensures !Bit(Set(w, x, low, len, val), i) {
      BitOfSet(w, x, low, len, val, i);
      BitAbove(x, w, i);
    }
    FitsWidth(Set(w, x, low, len, val), w);
  }

  /** The ASSERTs of BF_SET_SB: a multiple of the unit, within the field once scaled and biased. */
  lemma SizesAccepted(w: nat, low: nat, len: nat, shift: nat, bias: nat, val: nat)
    ensures CanSetSB(w, low, len, shift, bias, val) <==>
      low + len <= w && val % Pow2(shift) == 0 && bias <= val / Pow2(shift) < bias + Pow2(len)
  {
    hide Pow2, Bitwise, Shr;
    PhaseIsRemainder(val, shift);
    ShrIsDiv(val, shift);
  }

  lemma GetSBIsDivMod(w: nat, x: nat, low: nat, len: nat, shift: nat, bias: nat)
    ensures GetSB(w, x, low, len, shift, bias) == (x / Pow2(low) % Pow2(len) + bias) * Pow2(shift) % Pow2(w)
  {
    hide Pow2, Bitwise, Shr;
    DecodeIsDivMod(x, low, len);
    var v := Decode(x, low, len) + bias;
    TimesIsMul(v, shift);
    LowIsMod(Times(v, shift), w);
  }

  /** A one-bit field, a bit, and the & test of that bit agree. */
  lemma BitTest(x: nat, k: nat)
    ensures And(x, Pow2(k)) == 0 <==> !Bit(x, k)
    ensures Decode(x, k, 1) == if Bit(x, k) then 1 else 0
  {
    var a, g := And(x, Pow2(k)), Decode(x, k, 1);
    DecodeIsLow(x, k, 1);
    assert g < 2;
    assert Bit(g, 0) <==> g == 1;
    hide Pow2, Bitwise, Shr, Decode;
    BitOfDecode(x, k, 1, 0);
    forall i: nat ensures Bit(a, i) == (i == k && Bit(x, k)) {
      BitOfBitwise(AND, x, Pow2(k), i);
      TimesIsMul(1, k);
      BitOfTimes(1, k, i);
      if k < i { BitOfZero(i - k - 1); }
    }
    BitOfZero(k);
    if !Bit(x, k) {
      forall i: nat ensures Bit(a, i) == Bit(0, i) { BitOfZero(i); }
      SameBits(a, 0);
    }
  }

  // ---------- fields ----------

  datatype Field = Field(low: nat, len: nat) {
    predicate Holds(i: nat) { low <= i < low + len }
  }

  predicate Disjoint(f: Field, g: Field) {
    f.low + f.len <= g.low || g.low + g.len <= f.low
  }

  function Get(x: nat, f: Field): (v: nat)
    ensures v < Pow2(f.len)
  {
    DecodeIsLow(x, f.low, f.len);
    Decode(x, f.low, f.len)
  }

  function Put(w: nat, x: nat, f: Field, v: nat): nat
    requires v < Pow2(f.len) && f.low + f.len <= w
  {
    Set(w, x, f.low, f.len, v)
  }

  lemma GetSet(w: nat, x: nat, f: Field, v: nat)
    requires v < Pow2(f.len) && f.low + f.len <= w
    ensures Get(Put(w, x, f, v), f) == v
  {
    var y := Put(w, x, f, v);
    forall i: nat ensures Bit(Get(y, f), i) == Bit(v, i) {
      BitOfDecode(y, f.low, f.len, i);
      BitOfSet(w, x, f.low, f.len, v, f.low + i);
      if f.len <= i { BitAbove(v, f.len, i); }
    }
    SameBits(Get(y, f), v);
  }

  lemma GetSetOther(w: nat, x: nat, f: Field, v: nat, g: Field)
    requires v < Pow2(f.len) && f.low + f.len <= w && Disjoint(f, g)
    ensures Get(Put(w, x, f, v), g) == Get(x, g)
  {
    var y := Put(w, x, f, v);
    forall i: nat ensures Bit(Get(y, g), i) == Bit(Get(x, g), i) {
      BitOfDecode(y, g.low, g.len, i);
      BitOfDecode(x, g.low, g.len, i);
      BitOfSet(w, x, f.low, f.len, v, g.low + i);
    }
    SameBits(Get(y, g), Get(x, g));
  }

  /** A size stored through its shift and bias reads back unchanged. */
  lemma GetSetSB(w: nat, x: nat, low: nat, len: nat, shift: nat, bias: nat, val: nat)
    requires CanSetSB(w, low, len, shift, bias, val) && val < Pow2(w)
    ensures GetSB(w, SetSB(w, x, low, len, shift, bias, val), low, len, shift, bias) == val
  {
    ShrShl(w, val, shift);
    GetSet(w, x, Field(low, len), Shr(val, shift) - bias);
  }

  type Layout = seq<Field>

  predicate Separate(w: nat, layout: Layout) {
    (forall i :: 0 <= i < |layout| ==> layout[i].low + layout[i].len <= w) &&
    forall i, j :: 0 <= i < j < |layout| ==> Disjoint(layout[i], layout[j])
  }

  /** Clearing a field with & ~mask and then joining the shifted value with | is BF_SET. */
  lemma ClearThenOr(w: nat, x: nat, f: Field, v: nat)
    requires v < Pow2(f.len) && f.low + f.len <= w && x < Pow2(w)
    ensures var mask := Shl(w, Pow2(f.len) - 1, f.low);
      mask < Pow2(w) && Or(And(x, Not(w, mask)), Shl(w, v, f.low)) == Put(w, x, f, v)
  {
    var mask := Shl(w, Pow2(f.len) - 1, f.low);
    var kept := And(x, Not(w, mask));
    var y := Or(kept, Shl(w, v, f.low));
    forall i: nat ensures Bit(y, i) == Bit(Put(w, x, f, v), i) {
      BitOfSet(w, x, f.low, f.len, v, i);
      BitOfBitwise(OR, kept, Shl(w, v, f.low), i);
      BitOfBitwise(AND, x, Not(w, mask), i);
      BitOfNot(w, mask, i);
      BitOfShl(w, Pow2(f.len) - 1, f.low, i);
      BitOfShl(w, v, f.low, i);
      if f.low <= i {
        BitOfMask(f.len, i - f.low);
        if f.len <= i - f.low { BitAbove(v, f.len, i - f.low); }
      }
      if w <= i { BitAbove(x, w, i); }
    }
    SameBits(y, Put(w, x, f, v));
  }

  // ---------- words assembled with | from encoded fields ----------

  lemma GetOr(x: nat, y: nat, f: Field)
    ensures Get(Or(x, y), f) == Or(Get(x, f), Get(y, f))
  {
    forall i: nat ensures Bit(Get(Or(x, y), f), i) == Bit(Or(Get(x, f), Get(y, f)), i) {
      BitOfDecode(Or(x, y), f.low, f.len, i);
      BitOfDecode(x, f.low, f.len, i);
      BitOfDecode(y, f.low, f.len, i);
      BitOfBitwise(OR, x, y, f.low + i);
      BitOfBitwise(OR, Get(x, f), Get(y, f), i);
    }
    SameBits(Get(Or(x, y), f), Or(Get(x, f), Get(y, f)));
  }

  lemma GetEncode(w: nat, v: nat, g: Field, f: Field)
    requires g.low + g.len <= w && (f == g || Disjoint(f, g))
    ensures Get(Encode(w, v, g.low, g.len), f) == if f == g then Low(v, g.len) else 0
  {
    var e := Encode(w, v, g.low, g.len);
    var r := if f == g then Low(v, g.len) else 0;
    forall i: nat ensures Bit(Get(e, f), i) == Bit(r, i) {
      BitOfDecode(e, f.low, f.len, i);
      BitOfEncode(w, v, g.low, g.len, f.low + i);
      BitOfLow(v, g.len, i);
      BitOfZero(i);
    }
    SameBits(Get(e, f), r);
  }

  lemma OrZero(x: nat)
    ensures Or(x, 0) == x && Or(0, x) == x
  {
    forall i: nat ensures Bit(Or(x, 0), i) == Bit(x, i) && Bit(Or(0, x), i) == Bit(x, i) {
      BitOfBitwise(OR, x, 0, i);
      BitOfBitwise(OR, 0, x, i);
      BitOfZero(i);
    }
    SameBits(Or(x, 0), x);
    SameBits(Or(0, x), x);
  }

  /** ws[0] | ws[1] | ... */
  function OrAll(ws: seq<nat>): nat {
    if ws == [] then 0 else Or(ws[0], OrAll(ws[1..]))
  }

  lemma {:induction false} GetOrAll(ws: seq<nat>, f: Field, k: nat)
    requires forall j :: 0 <= j < |ws| && j != k ==> Get(ws[j], f) == 0
    ensures Get(OrAll(ws), f) == if k < |ws| then Get(ws[k], f) else 0
  {
    if ws == [] {
      forall i: nat ensures Bit(Get(0, f), i) == Bit(0, i) {
        BitOfDecode(0, f.low, f.len, i);
        BitOfZero(i);
        BitOfZero(f.low + i);
      }
      SameBits(Get(0, f), 0);
    } else {
      GetOr(ws[0], OrAll(ws[1..]), f);
      GetOrAll(ws[1..], f, if k == 0 then |ws| else k - 1);
      OrZero(Get(ws[0], f));
      OrZero(Get(OrAll(ws[1..]), f));
    }
  }

  lemma {:induction false} OrAllFits(w: nat, ws: seq<nat>)
    requires forall j :: 0 <= j < |ws| ==> ws[j] < Pow2(w)
    ensures OrAll(ws) < Pow2(w)
  {
    hide Pow2, Bitwise;
    if ws != [] {
      OrAllFits(w, ws[1..]);
      BitwiseFits(OR, ws[0], OrAll(ws[1..]), w);
    }
  }

  function Encodings(w: nat, layout: Layout, vals: seq<nat>): (ws: seq<nat>)
    requires |vals| == |layout|
    ensures |ws| == |layout| && forall j :: 0 <= j < |ws| ==> ws[j] < Pow2(w)
  {
    seq(|layout|, j requires 0 <= j < |layout| => Encode(w, vals[j], layout[j].low, layout[j].len))
  }

  /** BF_ENCODEs of separate fields joined with | keep each value, cut to its field's width. */
  lemma GetEncodings(w: nat, layout: Layout, vals: seq<nat>)
    requires Separate(w, layout) && |vals| == |layout|
    ensures forall k :: 0 <= k < |layout| && layout[k].len > 0 ==>
      Get(OrAll(Encodings(w, layout, vals)), layout[k]) == Low(vals[k], layout[k].len)
  {
    var ws := Encodings(w, layout, vals);
    forall k | 0 <= k < |layout| && layout[k].len > 0
      ensures Get(OrAll(ws), layout[k]) == Low(vals[k], layout[k].len)
    {
      var f := layout[k];
      forall j | 0 <= j < |layout| ensures Get(ws[j], f) == if j == k then Low(vals[k], f.len) else 0 {
        assert j != k ==> Disjoint(layout[j], f);
        GetEncode(w, vals[j], layout[j], f);
      }
      GetOrAll(ws, f, k);
    }
  }

  /** ... and leave every further field at zero. */
  lemma GetBesideEncodings(w: nat, layout: Layout, vals: seq<nat>, f: Field)
    requires Separate(w, layout) && |vals| == |layout|
    requires forall k :: 0 <= k < |layout| ==> Disjoint(layout[k], f) && layout[k] != f
    ensures Get(OrAll(Encodings(w, layout, vals)), f) == 0
  {
    var ws := Encodings(w, layout, vals);
    forall j | 0 <= j < |layout| ensures Get(ws[j], f) == 0 {
      GetEncode(w, vals[j], layout[j], f);
    }
    GetOrAll(ws, f, |ws|);
  }

  // ---------- runs of BF_SET over disjoint fields ----------

  /** The record a word stands for under a layout. */
  function Unpack(x: nat, layout: Layout): (vals: seq<nat>)
    ensures |vals| == |layout|
  {
    seq(|layout|, i requires 0 <= i < |layout| => Get(x, layout[i]))
  }

  predicate Fits(vals: seq<nat>, layout: Layout) {
    |vals| == |layout| && forall i :: 0 <= i < |layout| ==> vals[i] < Pow2(layout[i].len)
  }

  datatype Write = Write(k: nat, val: nat) {
    predicate Legal(layout: Layout) { k < |layout| && val < Pow2(layout[k].len) }
  }

  predicate AllLegal(ops: seq<Write>, layout: Layout) {
    forall i :: 0 <= i < |ops| ==> ops[i].Legal(layout)
  }

  function RunWord(w: nat, x: nat, layout: Layout, ops: seq<Write>): nat
    requires Separate(w, layout) && AllLegal(ops, layout)
    decreases |ops|
  {
    if ops == [] then x
    else RunWord(w, Put(w, x, layout[ops[0].k], ops[0].val), layout, ops[1..])
  }

  function RunRecord(vals: seq<nat>, ops: seq<Write>): seq<nat>
    requires forall i :: 0 <= i < |ops| ==> ops[i].k < |vals|
    decreases |ops|
  {
    if ops == [] then vals else RunRecord(vals[ops[0].k := ops[0].val], ops[1..])
  }

  lemma UnpackPut(w: nat, x: nat, layout: Layout, k: nat, v: nat)
    requires Separate(w, layout) && k < |layout| && v < Pow2(layout[k].len)
    ensures Unpack(Put(w, x, layout[k], v), layout) == Unpack(x, layout)[k := v]
  {
    forall j | 0 <= j < |layout|
      ensures Get(Put(w, x, layout[k], v), layout[j]) == if j == k then v else Get(x, layout[j])
    {
      if j == k { GetSet(w, x, layout[k], v); } else { GetSetOther(w, x, layout[k], v, layout[j]); }
    }
  }

  /** Any run of BF_SETs on disjoint fields acts on the word as plain assignments act on a
      record, stays inside the word, and leaves every bit outside the fields alone. */
  lemma {:induction false} RunRefinesRecord(w: nat, x: nat, layout: Layout, ops: seq<Write>)
    requires Separate(w, layout) && x < Pow2(w) && AllLegal(ops, layout)
    ensures Unpack(RunWord(w, x, layout, ops), layout) == RunRecord(Unpack(x, layout), ops)
    ensures RunWord(w, x, layout, ops) < Pow2(w)
    ensures forall i: nat :: (forall k :: 0 <= k < |layout| ==> !layout[k].Holds(i)) ==>
      Bit(RunWord(w, x, layout, ops), i) == Bit(x, i)
    decreases |ops|
  {
    if ops != [] {
      var f, v := layout[ops[0].k], ops[0].val;
      var y := Put(w, x, f, v);
      UnpackPut(w, x, layout, ops[0].k, v);
      SetFits(w, x, f.low, f.len, v);
      RunRefinesRecord(w, y, layout, ops[1..]);
      forall i: nat | !f.Holds(i) ensures Bit(y, i) == Bit(x, i) {
        BitOfSet(w, x, f.low, f.len, v, i);
      }
    }
  }

  /** What the run means for one field: its last write, or its original value. */
  lemma {:induction false} RecordKeepsLastWrite(vals: seq<nat>, ops: seq<Write>, k: nat)
    requires k < |vals| && forall i :: 0 <= i < |ops| ==> ops[i].k < |vals|
    ensures |RunRecord(vals, ops)| == |vals|
    ensures (forall i :: 0 <= i < |ops| ==> ops[i].k != k) ==> RunRecord(vals, ops)[k] == vals[k]
    ensures forall n :: 0 <= n < |ops| && ops[n].k == k && (forall i :: n < i < |ops| ==> ops[i].k != k) ==>
      RunRecord(vals, ops)[k] == ops[n].val
    decreases |ops|
  {
    if ops != [] {
      var rest := vals[ops[0].k := ops[0].val];
      RecordKeepsLastWrite(rest, ops[1..], k);
      forall n | 0 <= n < |ops| && ops[n].k == k && (forall i :: n < i < |ops| ==> ops[i].k != k)
        ensures RunRecord(vals, ops)[k] == ops[n].val
      {
        if n > 0 { assert ops[1..][n - 1].k == k; }
      }
    }
  }

  // ---------- layouts that tile the word ----------

  /** Adjacent fields, lowest first, from bit 0 up to bit w. */
  ghost predicate Tiles(w: nat, layout: Layout) {
    |layout| > 0 && layout[0].low == 0 &&
    layout[|layout| - 1].low + layout[|layout| - 1].len == w &&
    forall i, j :: 0 <= i && j == i + 1 && j < |layout| ==> layout[i].low + layout[i].len == layout[j].low
  }

  lemma {:induction false} TilesInOrder(w: nat, layout: Layout, i: nat, j: nat)
    requires Tiles(w, layout) && i < j < |layout|
    ensures layout[i].low + layout[i].len <= layout[j].low
    decreases j - i
  {
    if i + 1 < j { TilesInOrder(w, layout, i + 1, j); }
  }

  lemma TilesSeparate(w: nat, layout: Layout)
    requires Tiles(w, layout)
    ensures Separate(w, layout)
  {
    forall i, j | 0 <= i < j < |layout| ensures layout[i].low + layout[i].len <= layout[j].low {
      TilesInOrder(w, layout, i, j);
    }
    assert forall i :: 0 <= i < |layout| - 1 ==>
      layout[i].low + layout[i].len <= layout[|layout| - 1].low;
  }

  lemma {:induction false} FieldAt(w: nat, layout: Layout, n: nat, i: nat) returns (k: nat)
    requires Tiles(w, layout) && n < |layout| && i < layout[n].low + layout[n].len
    ensures k < |layout| && layout[k].Holds(i)
  {
    if layout[n].low <= i {
      k := n;
    } else {
      k := FieldAt(w, layout, n - 1, i);
    }
  }

  /** Two words with the same fields are the same word. */
  lemma UnpackInjective(w: nat, layout: Layout, x: nat, y: nat)
    requires Tiles(w, layout) && x < Pow2(w) && y < Pow2(w) && Unpack(x, layout) == Unpack(y, layout)
    ensures x == y
  {
    forall i: nat ensures Bit(x, i) == Bit(y, i) {
      if i < w {
        var k := FieldAt(w, layout, |layout| - 1, i);
        var f := layout[k];
        assert Get(x, f) == Unpack(x, layout)[k] == Unpack(y, layout)[k] == Get(y, f);
        BitOfDecode(x, f.low, f.len, i - f.low);
        BitOfDecode(y, f.low, f.len, i - f.low);
      } else {
        BitAbove(x, w, i);
        BitAbove(y, w, i);
      }
    }
    SameBits(x, y);
  }

  /** The word built from a record by setting each field in turn, starting from zero. */
  function Pack(w: nat, layout: Layout, vals: seq<nat>): nat
    requires Separate(w, layout) && Fits(vals, layout)
  {
    RunWord(w, 0, layout, seq(|layout|, k requires 0 <= k < |layout| => Write(k, vals[k])))
  }

  /** Words of width w and records within the field limits are in bijection. */
  lemma PackUnpack(w: nat, layout: Layout, vals: seq<nat>, x: nat)
    requires Tiles(w, layout) && Fits(vals, layout) && x < Pow2(w)
    ensures Separate(w, layout) && Fits(Unpack(x, layout), layout)
    ensures Pack(w, layout, vals) < Pow2(w) && Unpack(Pack(w, layout, vals), layout) == vals
    ensures Pack(w, layout, Unpack(x, layout)) == x
  {
    TilesSeparate(w, layout);
    UnpackOfPack(w, layout, vals);
    UnpackOfPack(w, layout, Unpack(x, layout));
    UnpackInjective(w, layout, Pack(w, layout, Unpack(x, layout)), x);
  }

  lemma UnpackOfPack(w: nat, layout: Layout, vals: seq<nat>)
    requires Separate(w, layout) && Fits(vals, layout)
    ensures Pack(w, layout, vals) < Pow2(w) && Unpack(Pack(w, layout, vals), layout) == vals
  {
    var ops := seq(|layout|, k requires 0 <= k < |layout| => Write(k, vals[k]));
    RunRefinesRecord(w, 0, layout, ops);
    var zeros := Unpack(0, layout);
    forall k | 0 <= k < |layout| ensures |RunRecord(zeros, ops)| == |layout| && RunRecord(zeros, ops)[k] == vals[k] {
      RecordKeepsLastWrite(zeros, ops, k);
      assert ops[k].k == k;
    }
    if layout == [] { assert ops == []; }
  }

  // ---------- unsigned order is the order of the fields, highest first ----------

  predicate LexLess(u: seq<nat>, v: seq<nat>)
    requires |u| == |v|
  {
    |u| > 0 &&
    var n := |u| - 1;
    u[n] < v[n] || (u[n] == v[n] && LexLess(u[..n], v[..n]))
  }

  lemma CompareSplit(k: nat, a: nat, r: nat, b: nat, s: nat)
    requires r < Pow2(k) && s < Pow2(k)
    ensures Times(a, k) + r < Times(b, k) + s <==> a < b || (a == b && r < s)
  {
    if a < b { TimesGap(a, b, k); }
    if b < a { TimesGap(b, a, k); }
  }

  lemma {:induction false} PrefixOrder(w: nat, layout: Layout, x: nat, y: nat, n: nat)
    requires Tiles(w, layout) && n < |layout|
    ensures var top := layout[n].low + layout[n].len;
      Low(x, top) < Low(y, top) <==> LexLess(Unpack(x, layout)[..n + 1], Unpack(y, layout)[..n + 1])
    decreases n
  {
    var f, u, v := layout[n], Unpack(x, layout), Unpack(y, layout);
    SplitLow(x, f.low, f.len);
    SplitLow(y, f.low, f.len);
    DecodeIsLow(x, f.low, f.len);
    DecodeIsLow(y, f.low, f.len);
    LowAtMost(x, f.low);
    LowAtMost(y, f.low);
    CompareSplit(f.low, Get(x, f), Low(x, f.low), Get(y, f), Low(y, f.low));
    assert u[..n + 1][..n] == u[..n] && v[..n + 1][..n] == v[..n];
    if n > 0 { PrefixOrder(w, layout, x, y, n - 1); }
  }

  lemma OrderIsLexicographic(w: nat, layout: Layout, x: nat, y: nat)
    requires Tiles(w, layout) && x < Pow2(w) && y < Pow2(w)
    ensures x < y <==> LexLess(Unpack(x, layout), Unpack(y, layout))
  {
    var n := |layout|;
    PrefixOrder(w, layout, x, y, n - 1);
    LowKeeps(x, w);
    LowKeeps(y, w);
    assert Unpack(x, layout)[..n] == Unpack(x, layout) && Unpack(y, layout)[..n] == Unpack(y, layout);
  }
}
