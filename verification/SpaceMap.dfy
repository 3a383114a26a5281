/** The on-disk space map of space_map.h: the SM, SM2 and SM_DEBUG word codecs, and the
    stream of words they form. The header documents the stream layout; the writer and reader
    below are the simplest ones that follow it. */
module SpaceMap {
  import opened Bits
  import opened Bitops
  import opened Spa
  import opened Wrappers

  const SM_DEBUG_PREFIX := 2
  const SM_OFFSET_BITS := 47
  const SM_RUN_BITS := 15
  const SM2_PREFIX := 3
  const SM2_OFFSET_BITS := 63
  const SM2_RUN_BITS := 36

  /** Stands for "no vdev id present" in a decoded entry. */
  const SM_NO_VDEVID: nat := Pow2(SPA_VDEVBITS)

  function PrefixDecode(x: nat): nat { Decode(x, 62, 2) }
  function PrefixEncode(x: nat): nat { Encode(64, x, 62, 2) }
  function DebugActionDecode(x: nat): nat { Decode(x, 60, 2) }
  function DebugActionEncode(x: nat): nat { Encode(64, x, 60, 2) }
  function DebugSyncPassDecode(x: nat): nat { Decode(x, 50, 10) }
  function DebugSyncPassEncode(x: nat): nat { Encode(64, x, 50, 10) }
  function DebugTxgDecode(x: nat): nat { Decode(x, 0, 50) }
  function DebugTxgEncode(x: nat): nat { Encode(64, x, 0, 50) }

  function OffsetDecode(x: nat): nat { Decode(x, 16, SM_OFFSET_BITS) }
  function OffsetEncode(x: nat): nat { Encode(64, x, 16, SM_OFFSET_BITS) }
  function TypeDecode(x: nat): nat { Decode(x, 15, 1) }
  function TypeEncode(x: nat): nat { Encode(64, x, 15, 1) }
  function RunDecode(x: nat): nat { Decode(x, 0, SM_RUN_BITS) + 1 }
  function RunEncode(x: nat): nat { Encode(64, Pred(64, x), 0, SM_RUN_BITS) }

  function Run2Decode(x: nat): nat { Decode(x, SPA_VDEVBITS, SM2_RUN_BITS) + 1 }
  function Run2Encode(x: nat): nat { Encode(64, Pred(64, x), SPA_VDEVBITS, SM2_RUN_BITS) }
  function Vdev2Decode(x: nat): nat { Decode(x, 0, SPA_VDEVBITS) }
  function Vdev2Encode(x: nat): nat { Encode(64, x, 0, SPA_VDEVBITS) }
  function Type2Decode(x: nat): nat { Decode(x, SM2_OFFSET_BITS, 1) }
  function Type2Encode(x: nat): nat { Encode(64, x, SM2_OFFSET_BITS, 1) }
  function Offset2Decode(x: nat): nat { Decode(x, 0, SM2_OFFSET_BITS) }
  function Offset2Encode(x: nat): nat { Encode(64, x, 0, SM2_OFFSET_BITS) }

  /** The two bits of a two-word entry's first word that hold no field. */
  function PadOf(x: nat): nat { Decode(x, 60, 2) }

  datatype MapType = SM_ALLOC | SM_FREE {
    function Code(): nat { if SM_ALLOC? then 0 else 1 }
  }

  function TypeOf(code: nat): MapType { if code == 0 then SM_ALLOC else SM_FREE }

  /** space_map_entry_t; txg and syncPass come from the debug entry visited last. */
  datatype SpaceMapEntry = SpaceMapEntry(
    typ: MapType, vdev: nat, offset: nat, run: nat, txg: nat, syncPass: nat)

  /** What a writer is asked to append. */
  datatype Item =
    | DebugItem(action: nat, syncPass: nat, txg: nat)
    | OneWord(typ: MapType, offset: nat, run: nat)
    | TwoWord(typ: MapType, vdev: nat, offset: nat, run: nat)

  function DebugWord(action: nat, syncPass: nat, txg: nat): nat {
    OrAll([DebugTxgEncode(txg), DebugSyncPassEncode(syncPass), DebugActionEncode(action),
           PrefixEncode(SM_DEBUG_PREFIX)])
  }

  function SingleWord(typ: MapType, offset: nat, run: nat): nat {
    OrAll([RunEncode(run), TypeEncode(typ.Code()), OffsetEncode(offset)])
  }

  function DoubleFirst(vdev: nat, run: nat): nat {
    OrAll([Vdev2Encode(vdev), Run2Encode(run), PrefixEncode(SM2_PREFIX)])
  }

  function DoubleSecond(typ: MapType, offset: nat): nat {
    OrAll([Offset2Encode(offset), Type2Encode(typ.Code())])
  }

  /** The words of one item. */
  function ItemWords(item: Item): (ws: seq<nat>)
    ensures |ws| == if item.TwoWord? then 2 else 1
  {
    match item
    case DebugItem(action, syncPass, txg) => [DebugWord(action, syncPass, txg)]
    case OneWord(typ, offset, run) => [SingleWord(typ, offset, run)]
    case TwoWord(typ, vdev, offset, run) => [DoubleFirst(vdev, run), DoubleSecond(typ, offset)]
  }

  function WordsOf(items: seq<Item>): seq<nat> {
    if items == [] then [] else ItemWords(items[0]) + WordsOf(items[1..])
  }

  /** The padding: a debug entry with all fields zero. */
  const PAD := DebugItem(0, 0, 0)

  /** The items as laid out from word pos of the map on: a two-word entry that would start in
      the last word of a block is moved past it by padding. */
  function Place(items: seq<Item>, blk: nat, pos: nat): seq<Item>
    requires blk >= 2
    decreases |items|
  {
    if items == [] then []
    else
      var rest := Place(items[1..], blk, After(items[0], blk, pos));
      if Padded(items[0], blk, pos) then [PAD, items[0]] + rest else [items[0]] + rest
  }

  predicate Padded(item: Item, blk: nat, pos: nat)
    requires blk >= 2
  {
    item.TwoWord? && pos % blk == blk - 1
  }

  /** The next free word once the item is in the map. */
  function After(item: Item, blk: nat, pos: nat): nat
    requires blk >= 2
  {
    pos + |ItemWords(item)| + if Padded(item, blk, pos) then 1 else 0
  }

  /** What a writer appends when the next free word is word pos. */
  function Words(items: seq<Item>, blk: nat, pos: nat): seq<nat>
    requires blk >= 2
  {
    WordsOf(Place(items, blk, pos))
  }

  /** The items in a sequence of words, None where a two-word entry is cut short. */
  function Scan(ws: seq<nat>): Option<seq<Item>>
    decreases |ws|
  {
    if ws == [] then Some([])
    else
      var w := ws[0];
      if PrefixDecode(w) == SM_DEBUG_PREFIX then
        Prepend([DebugItem(DebugActionDecode(w), DebugSyncPassDecode(w), DebugTxgDecode(w))], Scan(ws[1..]))
      else if PrefixDecode(w) == SM2_PREFIX then
        if |ws| == 1 then None
        else
          Prepend([TwoWord(TypeOf(Type2Decode(ws[1])), Vdev2Decode(w), Offset2Decode(ws[1]), Run2Decode(w))],
                  Scan(ws[2..]))
      else Prepend([OneWord(TypeOf(TypeDecode(w)), OffsetDecode(w), RunDecode(w))], Scan(ws[1..]))
  }

  function Prepend(items: seq<Item>, rest: Option<seq<Item>>): Option<seq<Item>> {
    match rest
    case Some(more) => Some(items + more)
    case None => None
  }

  /** The entries among the items, each with the fields of the debug item visited last; stamp
      is (txg, sync pass) in force at the start. */
  function Entries(items: seq<Item>, stamp: (nat, nat)): seq<SpaceMapEntry> {
    if items == [] then []
    else if items[0].DebugItem? then Entries(items[1..], (items[0].txg, items[0].syncPass))
    else [Entry(items[0], stamp)] + Entries(items[1..], stamp)
  }

  function Entry(item: Item, stamp: (nat, nat)): SpaceMapEntry
    requires !item.DebugItem?
  {
    SpaceMapEntry(item.typ, if item.OneWord? then SM_NO_VDEVID else item.vdev, item.offset, item.run,
                  stamp.0, stamp.1)
  }

  datatype Parse = Parsed(entries: seq<SpaceMapEntry>) | Truncated

  /** The entries of a map. */
  function Read(ws: seq<nat>, stamp: (nat, nat)): Parse {
    match Scan(ws)
    case Some(items) => Parsed(Entries(items, stamp))
    case None => Truncated
  }

  // ---------- what the reader is expected to see ----------

  /** The limits documented with space_map_entry_t. Those of a debug item matter only to the
      entries under it: see StampsKept. */
  predicate InLimits(item: Item) {
    match item
    case DebugItem(_, _, _) => true
    case OneWord(_, offset, run) => offset < Pow2(47) && 1 <= run <= Pow2(15)
    case TwoWord(_, vdev, offset, run) => vdev < Pow2(24) && offset < Pow2(63) && 1 <= run <= Pow2(36)
  }

  /** The item with each field cut to the width the format gives it. */
  function Clip(item: Item): (r: Item)
    ensures r.DebugItem? == item.DebugItem? && r.TwoWord? == item.TwoWord?
  {
    match item
    case DebugItem(action, syncPass, txg) => DebugItem(Low(action, 2), Low(syncPass, 10), Low(txg, 50))
    case OneWord(typ, offset, run) => OneWord(typ, Low(offset, 47), Low(Pred(64, run), 15) + 1)
    case TwoWord(typ, vdev, offset, run) =>
      TwoWord(typ, Low(vdev, 24), Low(offset, 63), Low(Pred(64, run), 36) + 1)
  }

  function ClipAll(items: seq<Item>): (r: seq<Item>)
    ensures |r| == |items|
  {
    if items == [] then [] else [Clip(items[0])] + ClipAll(items[1..])
  }

  // ---------- one word at a time ----------

  lemma CodesFit(x: nat)
    ensures x < 4 ==> Low(x, 2) == x
    ensures x < 2 ==> Low(x, 1) == x
  {
  }

  /** The fields a debug word reads back as. */
  lemma DebugFields(action: nat, syncPass: nat, txg: nat)
    ensures var w := DebugWord(action, syncPass, txg);
      w < Pow2(64) && PrefixDecode(w) == 2 && DebugTxgDecode(w) == Low(txg, 50) &&
      DebugSyncPassDecode(w) == Low(syncPass, 10) && DebugActionDecode(w) == Low(action, 2)
  {
    hide Pow2, Bitwise, Shr, Shl, OrAll;
    CodesFit(SM_DEBUG_PREFIX);
    var layout := [Field(0, 50), Field(50, 10), Field(60, 2), Field(62, 2)];
    var vals: seq<nat> := [txg, syncPass, action, SM_DEBUG_PREFIX];
    assert Encodings(64, layout, vals) == [DebugTxgEncode(txg), DebugSyncPassEncode(syncPass),
      DebugActionEncode(action), PrefixEncode(SM_DEBUG_PREFIX)];
    GetEncodings(64, layout, vals);
    OrAllFits(64, Encodings(64, layout, vals));
    assert layout[0].low == 0 && layout[1].low == 50 && layout[2].low == 60 && layout[3].low == 62;
  }

  /** The prefix is neither of the two reserved ones exactly when the top bit is clear. */
  lemma PrefixBelowTwo(x: nat)
    ensures PrefixDecode(x) < 2 <==> Get(x, Field(63, 1)) == 0
  {
    var v := Get(x, Field(62, 2));
    BitOfDecode(x, 62, 2, 1);
    BitOfDecode(x, 63, 1, 0);
    assert Get(x, Field(63, 1)) < 2 && v < 4 by { assert Pow2(2) == 4 && Pow2(1) == 2; }
    assert Bit(Get(x, Field(63, 1)), 0) <==> Get(x, Field(63, 1)) == 1;
    assert Bit(v, 1) == (v / 2 % 2 == 1) by { assert Bit(v, 1) == Bit(v / 2, 0); }
  }

  lemma SingleFields(typ: MapType, offset: nat, run: nat)
    ensures var w := SingleWord(typ, offset, run);
      w < Pow2(64) && PrefixDecode(w) < 2 && RunDecode(w) == Low(Pred(64, run), 15) + 1 &&
      TypeDecode(w) == (if typ == SM_ALLOC then 0 else 1) && OffsetDecode(w) == Low(offset, 47)
  {
    hide Pow2, Bitwise, Shr, Shl, OrAll;
    CodesFit(typ.Code());
    var layout := [Field(0, 15), Field(15, 1), Field(16, 47)];
    var vals: seq<nat> := [Pred(64, run), typ.Code(), offset];
    assert Encodings(64, layout, vals) == [RunEncode(run), TypeEncode(typ.Code()), OffsetEncode(offset)];
    GetEncodings(64, layout, vals);
    OrAllFits(64, Encodings(64, layout, vals));
    assert layout[0].low == 0 && layout[1].low == 15 && layout[2].low == 16;
    GetBesideEncodings(64, layout, vals, Field(63, 1));
    PrefixBelowTwo(SingleWord(typ, offset, run));
  }

  lemma DoubleFields(typ: MapType, vdev: nat, offset: nat, run: nat)
    ensures var a := DoubleFirst(vdev, run);
      a < Pow2(64) && PrefixDecode(a) == 3 && PadOf(a) == 0 &&
      Vdev2Decode(a) == Low(vdev, 24) && Run2Decode(a) == Low(Pred(64, run), 36) + 1
    ensures var b := DoubleSecond(typ, offset);
      b < Pow2(64) && Type2Decode(b) == (if typ == SM_ALLOC then 0 else 1) && Offset2Decode(b) == Low(offset, 63)
  {
    hide Pow2, Bitwise, Shr, Shl, OrAll;
    CodesFit(SM2_PREFIX);
    CodesFit(typ.Code());
    var first := [Field(0, 24), Field(24, 36), Field(62, 2)];
    var firstVals: seq<nat> := [vdev, Pred(64, run), SM2_PREFIX];
    assert Encodings(64, first, firstVals) == [Vdev2Encode(vdev), Run2Encode(run), PrefixEncode(SM2_PREFIX)];
    GetEncodings(64, first, firstVals);
    GetBesideEncodings(64, first, firstVals, Field(60, 2));
    OrAllFits(64, Encodings(64, first, firstVals));
    assert first[0].low == 0 && first[1].low == 24 && first[2].low == 62;
    var second := [Field(0, 63), Field(63, 1)];
    var secondVals: seq<nat> := [offset, typ.Code()];
    assert Encodings(64, second, secondVals) == [Offset2Encode(offset), Type2Encode(typ.Code())];
    GetEncodings(64, second, secondVals);
    OrAllFits(64, Encodings(64, second, secondVals));
    assert second[0].low == 0 && second[1].low == 63;
  }

  /** Where the fields of each kind of word sit. */
  lemma WordPositions(w: uint64)
    ensures PrefixDecode(w) == w / Pow2(62) % 4 && DebugActionDecode(w) == w / Pow2(60) % 4
    ensures DebugSyncPassDecode(w) == w / Pow2(50) % Pow2(10) && DebugTxgDecode(w) == w % Pow2(50)
    ensures OffsetDecode(w) == w / Pow2(16) % Pow2(47) && TypeDecode(w) == w / Pow2(15) % 2
    ensures RunDecode(w) == w % Pow2(15) + 1
    ensures Vdev2Decode(w) == w % Pow2(24) && Run2Decode(w) == w / Pow2(24) % Pow2(36) + 1
    ensures Type2Decode(w) == w / Pow2(63) % 2 && Offset2Decode(w) == w % Pow2(63)
  {
    Powers();
    hide Pow2, Decode;
    DecodeIsDivMod(w, 62, 2);
    DecodeIsDivMod(w, 60, 2);
    DecodeIsDivMod(w, 50, 10);
    DecodeIsDivMod(w, 0, 50);
    DecodeIsDivMod(w, 16, 47);
    DecodeIsDivMod(w, 15, 1);
    DecodeIsDivMod(w, 0, 15);
    DecodeIsDivMod(w, 0, 24);
    DecodeIsDivMod(w, 24, 36);
    DecodeIsDivMod(w, 63, 1);
    DecodeIsDivMod(w, 0, 63);
  }

  // ---------- the whole stream ----------

  lemma ScanItem(item: Item, rest: seq<nat>)
    ensures Scan(ItemWords(item) + rest) == Prepend([Clip(item)], Scan(rest))
  {
    hide Pow2, OrAll, Decode, Encode;
    var ws := ItemWords(item) + rest;
    match item
    case DebugItem(action, syncPass, txg) =>
      DebugFields(action, syncPass, txg);
      assert ws[1..] == rest;
    case OneWord(typ, offset, run) =>
      SingleFields(typ, offset, run);
      assert ws[1..] == rest;
    case TwoWord(typ, vdev, offset, run) =>
      DoubleFields(typ, vdev, offset, run);
      assert ws[2..] == rest && ws[1] == DoubleSecond(typ, offset);
  }

  lemma PrependTwice(a: seq<Item>, b: seq<Item>, rest: Option<seq<Item>>)
    ensures Prepend(a, Prepend(b, rest)) == Prepend(a + b, rest)
  {
    if rest.Some? { assert a + (b + rest.value) == a + b + rest.value; }
  }

  lemma PrependNothing(rest: Option<seq<Item>>, items: seq<Item>)
    ensures Prepend([], rest) == rest && Prepend(items, Some([])) == Some(items)
  {
    if rest.Some? { assert [] + rest.value == rest.value; }
    assert items + [] == items;
  }

  /** Scanning what was written returns every item in order, debug entries included, cut to
      the format's field widths, whatever words follow. */
  lemma {:induction false} ScanWords(items: seq<Item>, rest: seq<nat>)
    ensures Scan(WordsOf(items) + rest) == Prepend(ClipAll(items), Scan(rest))
  {
    hide Pow2, Clip, ItemWords, Scan;
    if items == [] {
      assert WordsOf(items) + rest == rest;
      PrependNothing(Scan(rest), []);
    } else {
      var tail := WordsOf(items[1..]) + rest;
      assert WordsOf(items) + rest == ItemWords(items[0]) + tail;
      ScanItem(items[0], tail);
      ScanWords(items[1..], rest);
      PrependTwice([Clip(items[0])], ClipAll(items[1..]), Scan(rest));
    }
  }

  /** The words of a scanned stream are the words of its items exactly when the unused bits
      of every two-word entry are clear: with ScanWords, a bijection. */
  lemma {:induction false} WriteScanned(ws: seq<uint64>)
    requires Scan(ws).Some?
    ensures WordsOf(Scan(ws).value) == ws <==> PadsClear(ws)
    decreases |ws|
  {
    if ws != [] {
      var n := if PrefixDecode(ws[0]) == SM2_PREFIX then 2 else 1;
      var items, head, tail := Scan(ws).value, ws[..n], ws[n..];
      ScanHead(ws);
      hide Pow2, Scan, ItemWords, PrefixDecode;
      WriteScanned(tail);
      var words := ItemWords(items[0]);
      assert WordsOf(items) == words + WordsOf(items[1..]);
      assert ws == head + tail;
      SplitEqual(words, WordsOf(items[1..]), head, tail);
    }
  }

  lemma SplitEqual<T>(a: seq<T>, b: seq<T>, c: seq<T>, d: seq<T>)
    requires |a| == |c|
    ensures a + b == c + d <==> a == c && b == d
  {
    if a + b == c + d {
      assert a == (a + b)[..|a|] && c == (c + d)[..|a|];
      assert b == (a + b)[|a|..] && d == (c + d)[|a|..];
    }
  }

  /** No two-word entry in the words has a bit set in its unused field. */
  predicate PadsClear(ws: seq<nat>)
    decreases |ws|
  {
    ws == [] ||
    if PrefixDecode(ws[0]) == SM2_PREFIX && |ws| >= 2 then PadOf(ws[0]) == 0 && PadsClear(ws[2..])
    else PadsClear(ws[1..])
  }

  /** The first item of a scan and the words it came from. */
  lemma ScanHead(ws: seq<uint64>)
    requires ws != [] && Scan(ws).Some?
    ensures var n, items := (if PrefixDecode(ws[0]) == SM2_PREFIX then 2 else 1), Scan(ws).value;
      n <= |ws| && items != [] && Scan(ws[n..]) == Some(items[1..]) && |ItemWords(items[0])| == n &&
      (ItemWords(items[0]) == ws[..n] <==> n == 1 || PadOf(ws[0]) == 0)
  {
    hide Pow2, OrAll, Decode, Encode;
    var w, items := ws[0], Scan(ws).value;
    PrefixRange(w);
    if PrefixDecode(w) == SM_DEBUG_PREFIX {
      DebugRewritten(w);
      assert items[1..] == Scan(ws[1..]).value;
    } else if PrefixDecode(w) == SM2_PREFIX {
      DoubleRewritten(w, ws[1]);
      assert items[1..] == Scan(ws[2..]).value;
      assert ws[..2] == [w, ws[1]];
    } else {
      SingleRewritten(w);
      assert items[1..] == Scan(ws[1..]).value;
    }
  }

  lemma PrefixRange(w: nat)
    ensures PrefixDecode(w) < 4 && TypeDecode(w) < 2 && Type2Decode(w) < 2
  {
    DecodeIsLow(w, 62, 2);
    DecodeIsLow(w, 15, 1);
    DecodeIsLow(w, 63, 1);
    assert Pow2(2) == 4 && Pow2(1) == 2;
  }

  /** A value read from a field is its own cut, and a run stored less one returns. */
  lemma CutAgain(x: nat, low: nat, len: nat)
    ensures Low(Decode(x, low, len), len) == Decode(x, low, len)
    ensures Pred(64, Decode(x, low, len) + 1) == Decode(x, low, len)
  {
    hide Pow2, Decode;
    DecodeIsLow(x, low, len);
    LowKeeps(Decode(x, low, len), len);
  }

  lemma DebugRewritten(w: uint64)
    requires PrefixDecode(w) == SM_DEBUG_PREFIX
    ensures DebugWord(DebugActionDecode(w), DebugSyncPassDecode(w), DebugTxgDecode(w)) == w
  {
    hide Pow2, Low, Decode, DebugWord;
    var v := DebugWord(DebugActionDecode(w), DebugSyncPassDecode(w), DebugTxgDecode(w));
    DebugFields(DebugActionDecode(w), DebugSyncPassDecode(w), DebugTxgDecode(w));
    CutAgain(w, 60, 2);
    CutAgain(w, 50, 10);
    CutAgain(w, 0, 50);
    UnpackInjective(64, [Field(0, 50), Field(50, 10), Field(60, 2), Field(62, 2)], v, w);
  }

  lemma SingleRewritten(w: uint64)
    requires PrefixDecode(w) < 2
    ensures SingleWord(TypeOf(TypeDecode(w)), OffsetDecode(w), RunDecode(w)) == w
  {
    PrefixRange(w);
    hide Pow2, Low, Decode, SingleWord;
    var v := SingleWord(TypeOf(TypeDecode(w)), OffsetDecode(w), RunDecode(w));
    SingleFields(TypeOf(TypeDecode(w)), OffsetDecode(w), RunDecode(w));
    CutAgain(w, 16, 47);
    CutAgain(w, 0, 15);
    PrefixBelowTwo(v);
    PrefixBelowTwo(w);
    UnpackInjective(64, [Field(0, 15), Field(15, 1), Field(16, 47), Field(63, 1)], v, w);
  }

  lemma DoubleRewritten(a: uint64, b: uint64)
    requires PrefixDecode(a) == SM2_PREFIX
    ensures DoubleSecond(TypeOf(Type2Decode(b)), Offset2Decode(b)) == b
    ensures DoubleFirst(Vdev2Decode(a), Run2Decode(a)) == a <==> PadOf(a) == 0
  {
    PrefixRange(b);
    hide Pow2, Low, Decode, DoubleFirst, DoubleSecond;
    var typ := TypeOf(Type2Decode(b));
    DoubleFields(typ, Vdev2Decode(a), Offset2Decode(b), Run2Decode(a));
    CutAgain(a, 0, 24);
    CutAgain(a, 24, 36);
    CutAgain(b, 0, 63);
    UnpackInjective(64, [Field(0, 63), Field(63, 1)], DoubleSecond(typ, Offset2Decode(b)), b);
    if PadOf(a) == 0 {
      UnpackInjective(64, [Field(0, 24), Field(24, 36), Field(60, 2), Field(62, 2)],
                      DoubleFirst(Vdev2Decode(a), Run2Decode(a)), a);
    }
  }

  /** Reading back what was written, for any items at all: every entry returns, in order,
      cut to the format's field widths, under the debug fields in force at its place. */
  lemma ReadWords(items: seq<Item>, blk: nat, pos: nat, stamp: (nat, nat))
    requires blk >= 2
    ensures Read(Words(items, blk, pos), stamp) == Parsed(Entries(ClipAll(Place(items, blk, pos)), stamp))
  {
    hide Pow2, Place, Entries;
    var placed := Place(items, blk, pos);
    ScanWords(placed, []);
    assert WordsOf(placed) + [] == WordsOf(placed) && ClipAll(placed) + [] == ClipAll(placed);
  }

  /** A stream that ends in the first word of a two-word entry is not read. */
  lemma HalfEntryIsTruncated(items: seq<Item>, w: nat, stamp: (nat, nat))
    requires PrefixDecode(w) == 3
    ensures Read(WordsOf(items) + [w], stamp) == Truncated
  {
    hide Pow2, ClipAll, PrefixDecode;
    ScanWords(items, [w]);
  }

  /** What the first word decides: a debug word sets the fields in force, any other starts an
      entry under them. A one-word entry shows vdev 2^24, which no two-word entry can. */
  lemma ReadStep(w: nat, b: nat, rest: seq<nat>, stamp: (nat, nat))
    ensures PrefixDecode(w) == 2 ==>
      Read([w] + rest, stamp) == Read(rest, (DebugTxgDecode(w), DebugSyncPassDecode(w)))
    ensures Vdev2Decode(w) < Pow2(24)
    ensures PrefixDecode(w) == 3 ==>
      Read([w, b] + rest, stamp) == Cons(SpaceMapEntry(
        TypeOf(Type2Decode(b)), Vdev2Decode(w), Offset2Decode(b), Run2Decode(w), stamp.0, stamp.1), Read(rest, stamp))
    ensures PrefixDecode(w) < 2 ==>
      Read([w] + rest, stamp) == Cons(SpaceMapEntry(
        TypeOf(TypeDecode(w)), Pow2(24), OffsetDecode(w), RunDecode(w), stamp.0, stamp.1), Read(rest, stamp))
  {
    DecodeIsLow(w, 0, 24);
    hide Pow2, Decode, Entry, Entries;
    assert ([w] + rest)[1..] == rest && ([w, b] + rest)[2..] == rest && ([w, b] + rest)[1] == b;
    if Scan(rest).Some? {
      var items := Scan(rest).value;
      EntriesStep(DebugItem(DebugActionDecode(w), DebugSyncPassDecode(w), DebugTxgDecode(w)), items, stamp);
      EntriesStep(OneWord(TypeOf(TypeDecode(w)), OffsetDecode(w), RunDecode(w)), items, stamp);
      EntriesStep(TwoWord(TypeOf(Type2Decode(b)), Vdev2Decode(w), Offset2Decode(b), Run2Decode(w)), items, stamp);
    }
  }

  function Cons(e: SpaceMapEntry, rest: Parse): Parse {
    match rest
    case Parsed(es) => Parsed([e] + es)
    case Truncated => Truncated
  }

  lemma EntriesStep(item: Item, items: seq<Item>, stamp: (nat, nat))
    ensures item.DebugItem? ==> Entries([item] + items, stamp) == Entries(items, (item.txg, item.syncPass))
    ensures item.OneWord? ==>
      Entries([item] + items, stamp) ==
      [SpaceMapEntry(item.typ, Pow2(24), item.offset, item.run, stamp.0, stamp.1)] + Entries(items, stamp)
    ensures item.TwoWord? ==>
      Entries([item] + items, stamp) ==
      [SpaceMapEntry(item.typ, item.vdev, item.offset, item.run, stamp.0, stamp.1)] + Entries(items, stamp)
  {
    hide Pow2;
    assert ([item] + items)[1..] == items;
  }

  /** The limits are the format's own maxima: SM_RUN_MAX, SM_OFFSET_MAX, SM2_RUN_MAX and
      SM2_OFFSET_MAX, the fields of an all-ones word. */
  lemma Maxima()
    ensures RunDecode(Pow2(64) - 1) == Pow2(15) && OffsetDecode(Pow2(64) - 1) == Pow2(47) - 1
    ensures Run2Decode(Pow2(64) - 1) == Pow2(36) && Offset2Decode(Pow2(64) - 1) == Pow2(63) - 1
  {
    hide Pow2, Bitwise, Shr;
    DecodeOnes(0, 15);
    DecodeOnes(16, 47);
    DecodeOnes(24, 36);
    DecodeOnes(0, 63);
  }

  lemma DecodeOnes(low: nat, len: nat)
    requires low + len <= 64
    ensures Decode(Pow2(64) - 1, low, len) == Pow2(len) - 1
  {
    hide Pow2, Bitwise, Shr;
    var d := Decode(Pow2(64) - 1, low, len);
    forall i: nat ensures Bit(d, i) == Bit(Pow2(len) - 1, i) {
      BitOfDecode(Pow2(64) - 1, low, len, i);
      BitOfMask(64, low + i);
      BitOfMask(len, i);
    }
    SameBits(d, Pow2(len) - 1);
  }

  lemma ClipKeeps(item: Item)
    requires !item.DebugItem?
    ensures Clip(item) == item <==> InLimits(item)
    ensures !item.DebugItem? ==> forall s :: Entry(Clip(item), s) == Entry(item, s) <==> InLimits(item)
  {
    hide Pow2;
    match item
    case DebugItem(_, _, _) =>
    case OneWord(_, offset, run) =>
      LowKeeps(offset, 47);
      LowKeeps(Pred(64, run), 15);
      Pow2Less(15, 64);
    case TwoWord(_, vdev, offset, run) =>
      LowKeeps(vdev, 24);
      LowKeeps(offset, 63);
      LowKeeps(Pred(64, run), 36);
      Pow2Less(36, 64);
  }

  predicate AllInLimits(items: seq<Item>) {
    forall i :: 0 <= i < |items| ==> InLimits(items[i])
  }

  /** What the writer put in: each entry as given, under the debug item written last before
      it. The txg is the one documented as truncated; blocks and padding do not exist here. */
  function Written(items: seq<Item>, stamp: (nat, nat)): seq<SpaceMapEntry>
    decreases |items|
  {
    if items == [] then []
    else if items[0].DebugItem? then Written(items[1..], WrittenStamp(items[0]))
    else [Entry(items[0], stamp)] + Written(items[1..], stamp)
  }

  function WrittenStamp(item: Item): (nat, nat)
    requires item.DebugItem?
  {
    (Low(item.txg, 50), item.syncPass)
  }

  /** Every entry is under debug fields that reach it: a sync pass that fits its field, where
      fits says so of the one now in force, and (0, 0) already in front of padding. */
  predicate StampsKept(items: seq<Item>, blk: nat, pos: nat, stamp: (nat, nat), fits: bool)
    requires blk >= 2
    decreases |items|
  {
    items == [] ||
    var item := items[0];
    match item
    case DebugItem(_, syncPass, _) =>
      StampsKept(items[1..], blk, pos + 1, WrittenStamp(item), syncPass < Pow2(10))
    case OneWord(_, _, _) => fits && StampsKept(items[1..], blk, pos + 1, stamp, true)
    case TwoWord(_, _, _, _) =>
      if pos % blk == blk - 1 then stamp == (0, 0) && StampsKept(items[1..], blk, pos + 3, stamp, true)
      else fits && StampsKept(items[1..], blk, pos + 2, stamp, true)
  }

  lemma ConsEqual<T>(a: T, s: seq<T>, b: T, t: seq<T>)
    ensures [a] + s == [b] + t <==> a == b && s == t
  {
    assert ([a] + s)[0] == a && ([b] + t)[0] == b && ([a] + s)[1..] == s && ([b] + t)[1..] == t;
  }

  lemma EntriesEqual(item: Item, a: (nat, nat), b: (nat, nat))
    requires !item.DebugItem?
    ensures Entry(Clip(item), a) == Entry(item, b) <==> InLimits(item) && a == b
  {
    ClipKeeps(item);
    hide Pow2, Clip, InLimits;
    assert a == b <==> a.0 == b.0 && a.1 == b.1;
  }

  lemma {:induction false} EntriesAreWritten(items: seq<Item>, blk: nat, pos: nat,
                                             read: (nat, nat), written: (nat, nat))
    requires blk >= 2
    ensures Entries(ClipAll(Place(items, blk, pos)), read) == Written(items, written) <==>
      AllInLimits(items) && StampsKept(items, blk, pos, written, read == written)
    decreases |items|
  {
    hide Pow2, InLimits, Entry, Place, ClipAll, Clip, ItemWords, Low, Entries;
    if items == [] {
      NothingPlaced(blk, pos, read);
    } else {
      var item, tail := items[0], items[1..];
      var next := After(item, blk, pos);
      var now := if item.DebugItem? then (Low(item.txg, 50), Low(item.syncPass, 10))
        else if Padded(item, blk, pos) then (0, 0) else read;
      PlaceHead(items, blk, pos, read);
      assert AllInLimits(items) <==> InLimits(item) && AllInLimits(tail) by { assert items == [item] + tail; }
      if item.DebugItem? {
        LowKeeps(item.syncPass, 10);
        DebugInLimits(item);
        EntriesAreWritten(tail, blk, next, now, WrittenStamp(item));
      } else {
        EntriesEqual(item, now, written);
        EntriesAreWritten(tail, blk, next, now, written);
        ConsEqual(Entry(Clip(item), now), Entries(ClipAll(Place(tail, blk, next)), now),
                  Entry(item, written), Written(tail, written));
      }
    }
  }

  lemma NothingPlaced(blk: nat, pos: nat, stamp: (nat, nat))
    requires blk >= 2
    ensures Entries(ClipAll(Place([], blk, pos)), stamp) == []
  {
  }

  /** The entries from the first item on, with the debug fields its place leaves in force. */
  lemma PlaceHead(items: seq<Item>, blk: nat, pos: nat, stamp: (nat, nat))
    requires blk >= 2 && items != []
    ensures var item := items[0];
      var rest := ClipAll(Place(items[1..], blk, After(item, blk, pos)));
      Entries(ClipAll(Place(items, blk, pos)), stamp) ==
        if item.DebugItem? then Entries(rest, (Low(item.txg, 50), Low(item.syncPass, 10)))
        else
          var now := if Padded(item, blk, pos) then (0, 0) else stamp;
          [Entry(Clip(item), now)] + Entries(rest, now)
  {
    hide Pow2, Low, ItemWords, Entry;
    var item, rest := items[0], Place(items[1..], blk, After(items[0], blk, pos));
    LowOfZero();
    if Padded(item, blk, pos) {
      assert ([PAD, item] + rest)[1..] == [item] + rest;
      assert ([item] + rest)[1..] == rest;
    } else {
      assert ([item] + rest)[1..] == rest;
    }
  }

  lemma LowOfZero()
    ensures Clip(PAD) == PAD
  {
    hide Pow2;
    LowKeeps(0, 2);
    LowKeeps(0, 10);
    LowKeeps(0, 50);
  }

  lemma DebugInLimits(item: Item)
    requires item.DebugItem?
    ensures InLimits(item)
  {
  }

  /** The stream returns exactly the entries written, each under the debug fields its writer
      put in force, if and only if every entry is within the documented limits, no sync pass
      over an entry is wider than its field, and padding falls only where both debug fields
      are zero already. */
  lemma RoundTrip(items: seq<Item>, blk: nat, pos: nat, stamp: (nat, nat))
    requires blk >= 2
    ensures Read(Words(items, blk, pos), stamp) == Parsed(Written(items, stamp)) <==>
      AllInLimits(items) && StampsKept(items, blk, pos, stamp, true)
  {
    ReadWords(items, blk, pos, stamp);
    EntriesAreWritten(items, blk, pos, stamp, stamp);
  }

  /** Padding replaces txg 7, pass 1 over the entry behind it by zeros. */
  lemma PaddingLosesStamp()
    ensures var items := [TwoWord(SM_ALLOC, 0, 0, 1)];
      AllInLimits(items) && Read(Words(items, 2, 1), (7, 1)) != Parsed(Written(items, (7, 1)))
  {
    hide Pow2, Read, Words, Written, ItemWords;
    var items := [TwoWord(SM_ALLOC, 0, 0, 1)];
    RoundTrip(items, 2, 1, (7, 1));
    Limits();
  }

  /** A two-word entry for SM_NO_VDEVID comes back as one for vdev 0. */
  lemma NoVdevIdIsLost()
    ensures Read(Words([TwoWord(SM_ALLOC, SM_NO_VDEVID, 0, 1)], 2, 0), (0, 0)) ==
      Parsed([SpaceMapEntry(SM_ALLOC, 0, 0, 1, 0, 0)])
  {
    hide Pow2, Read, Words, ItemWords, Low;
    var item, clipped := TwoWord(SM_ALLOC, SM_NO_VDEVID, 0, 1), TwoWord(SM_ALLOC, 0, 0, 1);
    LowIsMod(SM_NO_VDEVID, 24);
    DivModUnique(Pow2(24), Pow2(24), 1, 0);
    LowKeeps(0, 63);
    LowKeeps(0, 36);
    ReadWords([item], 2, 0, (0, 0));
    PlaceHead([item], 2, 0, (0, 0));
    NothingPlaced(2, 2, (0, 0));
    assert [item][1..] == [] && Clip(item) == clipped;
  }

  /** A sync pass of 2^10 comes back as 0. */
  lemma WideSyncPassIsLost()
    ensures var items := [DebugItem(0, 1024, 7), OneWord(SM_FREE, 0, 1)];
      AllInLimits(items) && Read(Words(items, 2, 0), (0, 0)) != Parsed(Written(items, (0, 0)))
  {
    hide Pow2, Read, Words, Written, ItemWords;
    var items := [DebugItem(0, 1024, 7), OneWord(SM_FREE, 0, 1)];
    RoundTrip(items, 2, 0, (0, 0));
    Limits();
    assert items[1..][0] == items[1];
    assert !StampsKept(items[1..], 2, 1, WrittenStamp(items[0]), false);
  }

  lemma Limits()
    ensures Pow2(10) == 1024 && 0 < Pow2(47) && 1 <= Pow2(15) && 0 < Pow2(24) && 0 < Pow2(63) && 1 <= Pow2(36)
  {
  }

  // ---------- block boundaries ----------

  /** Walking the words from map position pos, no two-word entry starts in a block's last word. */
  predicate NoStraddle(ws: seq<nat>, blk: nat, pos: nat)
    requires blk >= 2
    decreases |ws|
  {
    ws == [] ||
    if PrefixDecode(ws[0]) == SM2_PREFIX then
      |ws| >= 2 && pos % blk != blk - 1 && NoStraddle(ws[2..], blk, pos + 2)
    else NoStraddle(ws[1..], blk, pos + 1)
  }

  /** The same for items. */
  predicate FitsBlocks(items: seq<Item>, blk: nat, pos: nat)
    requires blk >= 2
    decreases |items|
  {
    items == [] ||
    if items[0].TwoWord? then pos % blk != blk - 1 && FitsBlocks(items[1..], blk, pos + 2)
    else FitsBlocks(items[1..], blk, pos + 1)
  }

  lemma {:induction false} FitsBlocksInWords(items: seq<Item>, blk: nat, pos: nat)
    requires blk >= 2
    ensures NoStraddle(WordsOf(items), blk, pos) <==> FitsBlocks(items, blk, pos)
    decreases |items|
  {
    hide Pow2, OrAll, Decode, Encode;
    if items != [] {
      var item, rest := items[0], WordsOf(items[1..]);
      FitsBlocksInWords(items[1..], blk, pos + |ItemWords(item)|);
      var ws := ItemWords(item) + rest;
      match item
      case DebugItem(action, syncPass, txg) =>
        DebugFields(action, syncPass, txg);
        assert ws[1..] == rest;
      case OneWord(typ, offset, run) =>
        SingleFields(typ, offset, run);
        assert ws[1..] == rest;
      case TwoWord(typ, vdev, offset, run) =>
        DoubleFields(typ, vdev, offset, run);
        assert ws[2..] == rest;
    }
  }

  lemma NextBlock(pos: nat, blk: nat)
    requires blk >= 2 && pos % blk == blk - 1
    ensures (pos + 1) % blk == 0
  {
    assert pos + 1 == (pos / blk + 1) * blk;
    DivModUnique(pos + 1, blk, pos / blk + 1, 0);
  }

  lemma {:induction false} PlaceFits(items: seq<Item>, blk: nat, pos: nat)
    requires blk >= 2
    ensures FitsBlocks(Place(items, blk, pos), blk, pos)
    decreases |items|
  {
    hide ItemWords;
    if items != [] {
      var item, next := items[0], After(items[0], blk, pos);
      var rest := Place(items[1..], blk, next);
      PlaceFits(items[1..], blk, next);
      assert ([item] + rest)[1..] == rest;
      if Padded(item, blk, pos) {
        NextBlock(pos, blk);
        assert FitsBlocks([item] + rest, blk, pos + 1);
        assert ([PAD, item] + rest)[1..] == [item] + rest;
      } else {
        assert FitsBlocks([item] + rest, blk, pos);
      }
    }
  }

  /** No two-word entry of a written map straddles a block boundary. */
  lemma WordsNoStraddle(items: seq<Item>, blk: nat, pos: nat)
    requires blk >= 2
    ensures NoStraddle(Words(items, blk, pos), blk, pos)
  {
    PlaceFits(items, blk, pos);
    FitsBlocksInWords(Place(items, blk, pos), blk, pos);
  }

  /** What one more item in front adds: its own words, and before them one all-zero debug word
      exactly when it is a two-word entry and the next free word is the last of a block. */
  lemma WordsStep(item: Item, rest: seq<Item>, blk: nat, pos: nat)
    requires blk >= 2
    ensures item.TwoWord? && pos % blk == blk - 1 ==>
      Words([item] + rest, blk, pos) ==
      [DebugWord(0, 0, 0), DoubleFirst(item.vdev, item.run), DoubleSecond(item.typ, item.offset)] +
      Words(rest, blk, pos + 3)
    ensures item.TwoWord? && pos % blk != blk - 1 ==>
      Words([item] + rest, blk, pos) ==
      [DoubleFirst(item.vdev, item.run), DoubleSecond(item.typ, item.offset)] + Words(rest, blk, pos + 2)
    ensures item.OneWord? ==>
      Words([item] + rest, blk, pos) == [SingleWord(item.typ, item.offset, item.run)] + Words(rest, blk, pos + 1)
    ensures item.DebugItem? ==>
      Words([item] + rest, blk, pos) ==
      [DebugWord(item.action, item.syncPass, item.txg)] + Words(rest, blk, pos + 1)
  {
    hide DebugWord, SingleWord, DoubleFirst, DoubleSecond;
    var placed := Place(rest, blk, After(item, blk, pos));
    assert ([item] + rest)[1..] == rest && ([item] + placed)[1..] == placed;
    assert WordsOf([item] + placed) == ItemWords(item) + WordsOf(placed);
    if Padded(item, blk, pos) {
      assert ([PAD, item] + placed)[1..] == [item] + placed;
      assert WordsOf([PAD, item] + placed) == [DebugWord(0, 0, 0)] + (ItemWords(item) + WordsOf(placed));
    }
  }

  /** qs is the items with padding put in anywhere. */
  predicate AddsPadding(items: seq<Item>, qs: seq<Item>)
    decreases |qs|
  {
    if qs == [] then items == []
    else
      (items != [] && qs[0] == items[0] && AddsPadding(items[1..], qs[1..])) ||
      (qs[0] == PAD && AddsPadding(items, qs[1..]))
  }

  lemma {:induction false} PlaceAddsPadding(items: seq<Item>, blk: nat, pos: nat)
    requires blk >= 2
    ensures AddsPadding(items, Place(items, blk, pos))
    decreases |items|
  {
    hide ItemWords;
    if items != [] {
      var item, next := items[0], After(items[0], blk, pos);
      var rest := Place(items[1..], blk, next);
      PlaceAddsPadding(items[1..], blk, next);
      var short, long := [item] + rest, [PAD, item] + rest;
      assert short[0] == item && short[1..] == rest;
      assert AddsPadding(items, short);
      assert long[0] == PAD && long[1..] == short;
    }
  }

  /** Starting further on never ends earlier. */
  lemma AfterMonotone(item: Item, blk: nat, pos: nat, later: nat)
    requires blk >= 2 && pos <= later
    ensures After(item, blk, pos) <= After(item, blk, later)
  {
    hide ItemWords;
    if pos == later { return; }
  }

  lemma {:induction false} PlaceEndsFirst(items: seq<Item>, qs: seq<Item>, blk: nat, pos: nat, later: nat)
    requires blk >= 2 && pos <= later && AddsPadding(items, qs) && FitsBlocks(qs, blk, later)
    ensures pos + |WordsOf(Place(items, blk, pos))| <= later + |WordsOf(qs)|
    decreases |qs|
  {
    hide ItemWords;
    if qs != [] {
      assert WordsOf(qs) == ItemWords(qs[0]) + WordsOf(qs[1..]);
      if items != [] && qs[0] == items[0] && AddsPadding(items[1..], qs[1..]) {
        AfterMonotone(items[0], blk, pos, later);
        var next := After(items[0], blk, pos);
        PlaceEndsFirst(items[1..], qs[1..], blk, next, later + |ItemWords(qs[0])|);
        PlacedLength(items, blk, pos);
      } else {
        PlaceEndsFirst(items, qs[1..], blk, pos, later + 1);
      }
    }
  }

  lemma PlacedLength(items: seq<Item>, blk: nat, pos: nat)
    requires blk >= 2 && items != []
    ensures var next := After(items[0], blk, pos);
      pos + |WordsOf(Place(items, blk, pos))| == next + |WordsOf(Place(items[1..], blk, next))|
  {
    hide Place, WordsOf, ItemWords, DebugWord, SingleWord, DoubleFirst, DoubleSecond;
    WordsStep(items[0], items[1..], blk, pos);
    assert [items[0]] + items[1..] == items;
  }

  /** Padding only where it must be is the shortest way to keep every two-word entry inside a
      block: no other padding of the same items that does so takes fewer words. */
  lemma PaddingIsLeast(items: seq<Item>, qs: seq<Item>, blk: nat, pos: nat)
    requires blk >= 2 && AddsPadding(items, qs) && NoStraddle(WordsOf(qs), blk, pos)
    ensures |Words(items, blk, pos)| <= |WordsOf(qs)|
    ensures AddsPadding(items, Place(items, blk, pos))
  {
    FitsBlocksInWords(qs, blk, pos);
    PlaceAddsPadding(items, blk, pos);
    PlaceEndsFirst(items, qs, blk, pos, pos);
  }
}
