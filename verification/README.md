# Verified model of the OpenZFS on-disk formats and in-core helpers

The extension vendors the OpenZFS headers, whose macros and static inline functions pack
fields into words, search buffers and scan lists; `zfs_list.c` walks the dataset tree on top of
libzfs. This project models that code in Dafny and proves what it promises.

Words are natural numbers with explicit widths. `Bits.dfy` defines single bits, the C
bitwise operators, shifts and complement, and reduces an equation between words to a
statement about bit `i` for symbolic `i`. `Low(x, k)` is `x` modulo 2^k (`Bits.LowIsMod`), what
a k-bit type keeps of `x`. `Bitops.dfy` proves the field codec once, for every
position and width: a run of stores over disjoint fields is a run of assignments to a record,
a layout that tiles the word is a bijection, and unsigned order is the lexicographic order of
the fields. The formats are instances of these theorems.

| file | models |
|---|---|
| Bits.dfy, Bitops.dfy | words, bits, `BF32_*`/`BF64_*`, layouts, runs of stores |
| SpaceMap.dfy | space-map words and the stream they form |
| BlkProp.dfy, BlkPtr.dfy | block-pointer properties, addresses, birth times, encryption fields |
| MetaslabWeight.dfy | the sortable metaslab weight |
| Uberblock.dfy | multihost configuration and RAIDZ reflow words |
| SystemAttr.dfy | system-attribute words, header size |
| Avl.dfy, Bitmap.dfy, RangeSeg.dfy | packed structures against plain ones |
| Btree.dfy, Uio.dfy, Dbuf.dfy | search and scan loops |
| ZfsList.dfy | the recursive dataset walk |
| Spa.dfy, Wrappers.dfy | shared constants, optional values |

Run `dafny verify dfyconfig.toml`.

## Where the code and its documentation or its own parts differ

The model follows the code; each difference is proved as the exact condition under which
the promise holds, and with an input for which it fails.

- `zfs_rs_set_start` and `zfs_rs_set_end` assert that the offset is aligned, not its distance
  from `rt_start`. A segment reads back what was set if and only if `rt_start` is itself
  aligned (`RangeSeg.SetGet`, `RangeSeg.UnalignedOriginLosesOffset`).
- The fill of a `SEG32` segment is a 32-bit difference. On reversed ends it is not end minus
  start unless the unit is at least 2^32 (`RangeSeg.FillIsLength`, `RangeSeg.SetGetFill`,
  `RangeSeg.ReversedSegmentFill`).
- `TOC_ATTR_ENCODE` stores 24 and 7 bits, the getters read 23 and 4 (`SystemAttr.TocRoundTrip`,
  `SystemAttr.TocHighBitsAreLost`).
- `SM_NO_VDEVID` is 2^24, one more than a two-word entry can hold; such an entry, like any
  outside the documented limits, does not come back (`SpaceMap.RoundTrip`,
  `SpaceMap.NoVdevIdIsLost`). The sync pass of a debug entry is cut to 10 bits, while the
  header documents truncation for the txg only (`SpaceMap.WideSyncPassIsLost`).
- Padding in front of a two-word entry is a debug entry with zero txg and sync pass, and debug
  fields come from the debug entry visited last, so padding resets them. Sync passes that fit
  aside, the debug fields the writer put in force reach every entry if and only if padding falls
  only where both are zero already (`SpaceMap.RoundTrip`, `SpaceMap.PaddingLosesStamp`).
- `BP_SET_BIRTH` with a zero physical and a nonzero logical birth reads back the logical birth
  (`BlkPtr.BirthRoundTrip`, `BlkPtr.ZeroPhysicalBirthIsLost`).
- `zfs_list_callback` drops the return value of `zfs_iter_children`. A zero return comes with
  the whole forest if no iteration below a root failed (`ZfsList.NoFailureMeansComplete`), and
  only if, given that an iterator that fails leaves a child undelivered
  (`ZfsList.ZeroMeansComplete`, `ZfsList.SilentTruncation`). Without that assumption a failure
  after the last child is harmless (`ZfsList.FailureAfterLastChild`).

## Model

| member | source | states |
|---|---|---|
| Bits.PhaseIsRemainder | compat/openzfs/os/freebsd/spl/sys/sysmacros.h:170-203 | masking with a power of two minus one is the remainder, and the alignment test is divisibility, for every word and every exponent |
| Bitops.DecodeIsDivMod | compat/openzfs/sys/bitops.h:45-51 | a decoded field is the word divided by 2^low, modulo 2^len |
| Bitops.BitOfSet | compat/openzfs/sys/bitops.h:53-63 | the XOR update gives each bit inside the field the bit of the value and keeps each bit outside |
| Bitops.Word.BfSet | compat/openzfs/sys/bitops.h:53-63 | the in-place store, for 32- and 64-bit words: every bit of the new word, and the field reads back |
| Bitops.Word.BfSetSB | compat/openzfs/sys/bitops.h:75-84 | the in-place store of a size reads back through its shift and bias |
| Bitops.GetSet | compat/openzfs/sys/bitops.h:45-63 | get after set returns the value, at any position |
| Bitops.GetSetOther | compat/openzfs/sys/bitops.h:45-63 | set leaves every disjoint field unchanged |
| Bitops.GetSetSB | compat/openzfs/sys/bitops.h:65-84 | a value within the ASSERTs round-trips through shift and bias, with 64-bit overflow modelled |
| Bitops.SizesAccepted | compat/openzfs/sys/bitops.h:75-84 | the ASSERTs admit exactly the multiples of the unit whose quotient less the bias fits the field |
| Bitops.GetSBIsDivMod | compat/openzfs/sys/bitops.h:65-68 | the size read is the field plus the bias, times the unit, in the width of the word |
| Bitops.GetEncodings | compat/openzfs/sys/bitops.h:45-48 | encoded disjoint fields joined with OR decode to each value cut to its width |
| Bitops.GetBesideEncodings | compat/openzfs/sys/bitops.h:45-48 | a field beside all encoded ones decodes to zero |
| Bitops.ClearThenOr | compat/openzfs/sys/avl_impl.h:109-119 | clearing with and-not and joining with OR is the same function as the XOR store |
| Bitops.RunRefinesRecord | compat/openzfs/sys/bitops.h:45-63 | any run of stores on pairwise disjoint fields equals the same assignments on a record, fits the word, and moves no bit outside the fields |
| Bitops.RecordKeepsLastWrite | compat/openzfs/sys/bitops.h:45-63 | each field ends with its last written value, or its original one |
| Bitops.PackUnpack | compat/openzfs/sys/bitops.h:45-63 | for a layout that tiles the word, words and in-range records are in bijection |
| Bitops.OrderIsLexicographic | compat/openzfs/sys/bitops.h:45-51 | for a tiling layout, unsigned comparison is lexicographic comparison of fields from the top |
| SpaceMap.DebugFields | compat/openzfs/sys/space_map.h:105-111 | a debug word has prefix 2, and action, sync pass and txg read back cut to width |
| SpaceMap.SingleFields | compat/openzfs/sys/space_map.h:114-120 | the fields of a one-word entry read back cut to width, type 0 for allocated and 1 for freed, and its prefix is never a reserved one |
| SpaceMap.DoubleFields | compat/openzfs/sys/space_map.h:123-135 | the fields of a two-word entry read back cut to width, its prefix is 3 and its unused bits are zero |
| SpaceMap.WordPositions | compat/openzfs/sys/space_map.h:104-135 | every decoder as division and remainder at the documented position, for any word |
| SpaceMap.Maxima | compat/openzfs/sys/space_map.h:191-203 | the four SM maxima are 2^15, 2^47-1, 2^36 and 2^63-1 |
| SpaceMap.ScanWords | compat/openzfs/sys/space_map.h:104-203 | scanning written items, debug items with their actions included, returns every item in order, cut to the format's widths, whatever words follow |
| SpaceMap.WriteScanned | compat/openzfs/sys/space_map.h:104-135 | writing the items scanned from any words gives the same words if and only if the unused bits of two-word entries are clear |
| SpaceMap.ReadStep | compat/openzfs/sys/space_map.h:104-181 | a debug word puts its txg and sync pass in force; any other starts an entry under those in force, with vdev 2^24 exactly for a one-word entry |
| SpaceMap.HalfEntryIsTruncated | compat/openzfs/sys/space_map.h:123-135 | a stream that stops inside a two-word entry is not read |
| SpaceMap.ReadWords | compat/openzfs/sys/space_map.h:104-203 | for every list of items, reading the written stream returns every entry in order, cut to the format's widths, under the debug fields in force |
| SpaceMap.RoundTrip | compat/openzfs/sys/space_map.h:104-203 | the stream returns exactly the entries written, with the txg and sync pass the writer put in force, if and only if every entry is within the documented limits, every sync pass over an entry fits 10 bits, and a two-word entry meets the last word of a block only under zero debug fields |
| SpaceMap.PaddingLosesStamp | compat/openzfs/sys/space_map.h:137-139 | a padded entry under txg 7, pass 1 that does not come back as written |
| SpaceMap.NoVdevIdIsLost | compat/openzfs/sys/space_map.h:163-197 | a two-word entry for SM_NO_VDEVID comes back for vdev 0 |
| SpaceMap.WideSyncPassIsLost | compat/openzfs/sys/space_map.h:180-181 | an entry under sync pass 2^10 that does not come back as written |
| SpaceMap.WordsNoStraddle | compat/openzfs/sys/space_map.h:137-139 | no two-word entry of a written map starts in the last word of a block |
| SpaceMap.WordsStep | compat/openzfs/sys/space_map.h:137-139 | each item adds its own words and nothing else, except that a two-word entry is preceded by one all-zero debug word exactly when the next free word is the last of a block |
| SpaceMap.PaddingIsLeast | compat/openzfs/sys/space_map.h:137-139 | no other padding of the same items that keeps two-word entries inside blocks takes fewer words |
| BlkProp.LayoutsAreBijections | compat/openzfs/sys/spa.h:325-347 | the normal and the embedded layout of blk_prop each put the word in bijection with its fields, and agree from the compression field up |
| BlkProp.SharedPositions | compat/openzfs/sys/spa.h:432-476 | the fields both layouts share, as division, remainder and single bits of the word |
| BlkProp.NormalPositions | compat/openzfs/sys/spa.h:411-444 | sizes and checksum of a pointer that is not embedded, as division and remainder, in bytes |
| BlkProp.EmbeddedPositions | compat/openzfs/sys/spa.h:325-441 | the embedded sizes and etype; the generic getters read the logical size for data and 0 otherwise, physical size 0 and checksum 2 (off) |
| BlkProp.LegalRanges | compat/openzfs/sys/spa.h:328-476 | the exact set of values each setter's ASSERTs accept |
| BlkProp.StepRefinesRecord | compat/openzfs/sys/spa.h:411-476 | each setter within its ASSERTs is one assignment on the record of byte sizes and fields; changing the E bit converts the sizes between units |
| BlkProp.PropRunRefinesRecord | compat/openzfs/sys/spa.h:325-476 | any legal run of BP_SET and BPE_SET stores, across both layouts, is that run of assignments |
| BlkProp.GettersAfterRun | compat/openzfs/sys/spa.h:325-476 | what every generic and embedded getter reads after any legal run, in terms of the record |
| BlkProp.EmbeddedLSize | compat/openzfs/sys/spa.h:333-414 | on embedded data the generic getter reads the logical size just set; any other etype makes it read 0 |
| BlkPtr.BlockPointer.SetProp | compat/openzfs/sys/spa.h:325-476 | the in-place setters act on the record and touch only blk_prop |
| BlkPtr.BlockPointer.BpSetFill | compat/openzfs/sys/spa.h:522-529 | the fill reads back, only blk_fill changes, and an encrypted pointer keeps its IV |
| BlkPtr.BlockPointer.BpSetBirth | compat/openzfs/sys/spa.h:509-515 | the in-place store of both birth times, with the exact condition for the physical one to read back |
| BlkPtr.BlockPointer.BpSetRewrite | compat/openzfs/sys/spa.h:543-547 | the in-place store of the rewrite flag changes nothing else |
| BlkPtr.BlockPointer.StoreCryptParams | compat/openzfs/sys/spa.h:531-538 | storing salt and IV in place keeps the counts and the classification |
| BlkPtr.CryptKindsPartition | compat/openzfs/sys/spa.h:452-470 | encrypted, authenticated and indirect-MAC exactly partition the pointers that use crypt, whatever the type table says |
| BlkPtr.EncryptedTypes | compat/openzfs/sys/dmu.h:157-159 | a type with bit 7 set is encrypted exactly when bit 5 is set; the table answers for the others |
| BlkPtr.CryptKindsInBits | compat/openzfs/sys/spa.h:452-470 | the three kinds read off the bits of blk_prop |
| BlkPtr.ParamsAreInvisible | compat/openzfs/sys/spa.h:517-571 | any salt and IV leave allocated size, number of addresses, gang count, fill and classification of an encrypted pointer unchanged, and read back |
| BlkPtr.AddressesAddUp | compat/openzfs/sys/spa.h:552-571 | replacing an address changes allocated size, number of addresses and gang count by exactly its own share; the third address does so exactly when the pointer is not encrypted |
| BlkPtr.NothingToCount | compat/openzfs/sys/spa.h:552-571 | all three are zero on embedded pointers and where all addresses are zero |
| BlkPtr.ThirdAddressCounts | compat/openzfs/sys/spa.h:552-556 | replacing the third address keeps the allocated size exactly for embedded and encrypted pointers or an equal size |
| BlkPtr.FillPositions | compat/openzfs/sys/spa.h:517-538 | fill 1 on embedded pointers, the low half of the word with the IV above it on encrypted ones, the whole word otherwise |
| BlkPtr.FillRoundTrip | compat/openzfs/sys/spa.h:517-529 | a fill within its ASSERT reads back and preserves IV2 |
| BlkPtr.BirthRoundTrip | compat/openzfs/sys/spa.h:494-515 | the raw physical birth is zero exactly for zero or one equal to the logical birth; the exact conditions under which the physical birth and BP_GET_BIRTH read back |
| BlkPtr.RewriteRoundTrip | compat/openzfs/sys/spa.h:505-547 | the rewrite flag reads back, moves only bit 63 of its word, and selects the birth time BP_GET_BIRTH returns |
| BlkPtr.EmbeddedBirth | compat/openzfs/sys/spa.h:500-541 | an embedded pointer has no physical birth and no rewrite flag, and its birth is the logical one |
| BlkPtr.ZeroPhysicalBirthIsLost | compat/openzfs/sys/spa.h:500-515 | logical 5 with physical 0 reads back physical 5 |
| BlkPtr.DvaPositions | compat/openzfs/sys/spa.h:393-409 | the four address fields as division and remainder of the two words, with the 64-bit overflow of the offset |
| BlkPtr.DvaLegalRanges | compat/openzfs/sys/spa.h:396-409 | the exact set of values each address setter accepts |
| BlkPtr.DvaStep | compat/openzfs/sys/spa.h:393-409 | each address setter is one assignment on the record of byte sizes and offsets |
| BlkPtr.DvaRunRefinesRecord | compat/openzfs/sys/spa.h:393-409 | any run of address setters is that run of assignments |
| BlkPtr.DvaCell.SetField | compat/openzfs/sys/spa.h:396-409 | the in-place address setters act on the record |
| MetaslabWeight.WeightOrder | compat/openzfs/sys/metaslab_impl.h:77-138 | unsigned comparison of weights compares activation, type, bucket index and count, in that order |
| MetaslabWeight.WeightIsItsFields | compat/openzfs/sys/metaslab_impl.h:125-138 | two weights with the same four fields are equal |
| MetaslabWeight.SortingConsequences | compat/openzfs/sys/metaslab_impl.h:77-100 | active above inactive, larger bucket first, count breaks ties, space-based above segment-based |
| MetaslabWeight.ActivationKeepsOrder | compat/openzfs/sys/metaslab_impl.h:125-126 | activating two equally active metaslabs alike keeps their order |
| MetaslabWeight.WeightPositions | compat/openzfs/sys/metaslab_impl.h:114-138 | count, index, type bit and activation as division and remainder of the weight |
| MetaslabWeight.SpaceBasedIsBit60 | compat/openzfs/sys/metaslab_impl.h:128-129 | zero is space-based, any other weight exactly when bit 60 is set |
| MetaslabWeight.MetaslabWord.SetActive | compat/openzfs/sys/metaslab_impl.h:126 | the in-place store changes the activation alone |
| MetaslabWeight.MetaslabWord.SetSpaceBased | compat/openzfs/sys/metaslab_impl.h:128-130 | the in-place store changes the type bit alone, and the weight is then space-based |
| MetaslabWeight.MetaslabWord.SetIndex | compat/openzfs/sys/metaslab_impl.h:136 | the in-place store changes the index alone |
| MetaslabWeight.MetaslabWord.SetCount | compat/openzfs/sys/metaslab_impl.h:138 | the in-place store changes the count alone |
| Uberblock.ConfigReadsBack | compat/openzfs/sys/uberblock_impl.h:50-77 | for any subset of the three settings, an uberblock shows exactly those as valid if it has magics 0x00bab10c and 0xa11cea11 and none otherwise, chosen values read back modulo 2^24, 2^16, 2^16, and the rest of the word is zero |
| Uberblock.MmpPositions | compat/openzfs/sys/uberblock_impl.h:50-68 | the valid bits are bits 0 to 2 and the settings the 24, 16 and 16 bits from bits 8, 32 and 48, for any word |
| Uberblock.ReflowPositions | compat/openzfs/sys/uberblock_impl.h:96-104 | offset in units of 512 bytes below bit 55, state from there up |
| Uberblock.Reflow.SetOffset | compat/openzfs/sys/uberblock_impl.h:96-99 | any 512-aligned 64-bit offset reads back and the state is kept |
| Uberblock.Reflow.SetState | compat/openzfs/sys/uberblock_impl.h:101-104 | any 9-bit state reads back and the offset is kept |
| Uberblock.Reflow.RaidzReflowSet | compat/openzfs/sys/uberblock_impl.h:106-110 | offset and state read back, and no other word reads back as them |
| SystemAttr.AttrRoundTrip | compat/openzfs/sys/sa_impl.h:70-78 | the three registration fields read back through the 32-bit getters, from any word, and the unused bits are kept |
| SystemAttr.AttrEncodeInto | compat/openzfs/sys/sa_impl.h:73-78 | the same for the three in-place stores |
| SystemAttr.SaPositions | compat/openzfs/sys/sa_impl.h:70-186 | every getter of the three packed words as division and remainder |
| SystemAttr.TocRoundTrip | compat/openzfs/sys/sa_impl.h:80-88 | the present bit reads 1; offset and length index round-trip exactly below 2^23 and 16 |
| SystemAttr.TocHighBitsAreLost | compat/openzfs/sys/sa_impl.h:80-88 | offset 2^23 and length index 16 are accepted and read back as 0 |
| SystemAttr.TocAttrEncodeInto | compat/openzfs/sys/sa_impl.h:83-88 | the same for the three in-place stores |
| SystemAttr.HdrRoundTrip | compat/openzfs/sys/sa_impl.h:185-191 | layout number and header size round-trip through the 16-bit word |
| SystemAttr.SaHeader.SaSetHdr | compat/openzfs/sys/sa_impl.h:252-256 | the in-place header store sets magic, layout number and size |
| SystemAttr.RoundUpIsLeast | compat/openzfs/os/freebsd/spl/sys/sysmacros.h:218 | the negate-and-mask form is the least multiple at or above its argument |
| SystemAttr.RoundUpFormsAgree | compat/openzfs/os/linux/spl/sys/sysmacros.h:168 | the form that decrements, joins with OR and increments, as on Linux and in ccompile.h, equals the negate-and-mask form on all words, for every nonzero alignment |
| SystemAttr.MatchSizeIsLeast | compat/openzfs/sys/sa_impl.h:267-270 | the matched size, under either form of P2ROUNDUP, is the least multiple of 8 holding 6 bytes and one 16-bit length per variable attribute |
| SystemAttr.MatchSizeSurvives | compat/openzfs/sys/sa_impl.h:162-191 | it survives the 6-bit field with any layout number exactly for at most 249 variable attributes |
| Avl.StepSimulates | compat/openzfs/sys/avl_impl.h:101-119 | each packed store shows in the three getters as the struct's assignment, -1 included |
| Avl.PackedRefinesPlain | compat/openzfs/sys/avl_impl.h:60-119 | after any run of stores the packed node's getters agree with the plain struct |
| Avl.ParentNeedsAlignment | compat/openzfs/sys/avl_impl.h:101-103 | a parent store reads back exactly when the pointer is 8-byte aligned |
| Avl.PcbIsSum | compat/openzfs/sys/avl_impl.h:101-119 | avl_pcb is the parent plus four times the child index plus the balance plus one |
| Avl.PackedNode.AvlSetParent | compat/openzfs/sys/avl_impl.h:102-103 | the in-place store changes the parent alone |
| Avl.PackedNode.AvlSetChild | compat/openzfs/sys/avl_impl.h:109-110 | the in-place store changes the child index alone |
| Avl.PackedNode.AvlSetBalance | compat/openzfs/sys/avl_impl.h:118-119 | the in-place store changes the balance alone |
| Avl.IndexRoundTrip | compat/openzfs/sys/avl_impl.h:137-139 | node and side share an index word without loss exactly for even addresses, where the word is their sum |
| Bitmap.BitmapRefinesSet | compat/openzfs/sys/bitmap.h:46-88 | any run of sets and clears below nbits acts as insertions and removals on a set, and the test is membership |
| Bitmap.WordsForIsLeast | compat/openzfs/sys/bitmap.h:79-80 | BT_BITOUL is the least number of words with room for every index |
| Bitmap.TestIsDivMod | compat/openzfs/sys/bitmap.h:83-84 | the test reads bit i modulo 64 of word i divided by 64 |
| Bitmap.BtTest | compat/openzfs/sys/bitmap.h:83-84 | 1 exactly for members |
| Bitmap.BtSet | compat/openzfs/sys/bitmap.h:85-86 | adds one member in place |
| Bitmap.BtClear | compat/openzfs/sys/bitmap.h:87-88 | removes one member in place |
| RangeSeg.AcceptedOffsets | compat/openzfs/sys/range_tree.h:259-273 | the exact set of offsets the setters accept, and the raw value they store |
| RangeSeg.AcceptedFills | compat/openzfs/sys/range_tree.h:240-280 | the exact set of fills zfs_rs_set_fill accepts |
| RangeSeg.SetGet | compat/openzfs/sys/range_tree.h:182-273 | start and end round-trip exactly when rt_start is aligned, and do not disturb each other or a gap's fill |
| RangeSeg.SetGetFill | compat/openzfs/sys/range_tree.h:240-280 | the exact condition under which a fill reads back |
| RangeSeg.UnalignedOriginLosesOffset | compat/openzfs/sys/range_tree.h:259-265 | an accepted offset 2 that reads back as 1 |
| RangeSeg.ReversedSegmentFill | compat/openzfs/sys/range_tree.h:160-198 | a reversed SEG32 segment whose fill, end minus start and accepted fill differ |
| RangeSeg.RawOrder | compat/openzfs/sys/range_tree.h:126-273 | the raw order of any two offsets the setters accept is their byte order, rt_start aligned or not |
| RangeSeg.SameInterval | compat/openzfs/sys/range_tree.h:126-273 | one interval stored in any two trees reads back the same |
| RangeSeg.FillIsLength | compat/openzfs/sys/range_tree.h:160-198 | the exact condition under which the fill is end minus start in 64-bit arithmetic |
| RangeSeg.SegCell.RsSetStart | compat/openzfs/sys/range_tree.h:259-265 | the in-place store of a start |
| RangeSeg.SegCell.RsSetEnd | compat/openzfs/sys/range_tree.h:267-273 | the in-place store of an end |
| RangeSeg.SegCell.RsSetFill | compat/openzfs/sys/range_tree.h:275-280 | the in-place store of a fill |
| Btree.FindInBuf | compat/openzfs/sys/btree.h:144-170 | the offset is the number of smaller elements, before is set exactly for an absent value, the result is the element otherwise, all indices in bounds, and the iteration count is fixed by the length |
| Btree.InsertAtOffset | compat/openzfs/sys/btree.h:99-107 | inserting an absent value at the offset keeps the buffer increasing |
| Btree.TreeCmpCompares | compat/openzfs/sys/avl.h:113 | TREE_CMP meets what the search asks of a comparator, and its order is that of the integers |
| Btree.CeilLog2IsCeiling | compat/openzfs/sys/btree.h:153-158 | the iteration count is the ceiling of the base-2 logarithm |
| Btree.NineIterations | compat/openzfs/sys/btree.h:153 | nine iterations suffice exactly for at most 512 elements |
| Uio.IndexAtOffset | compat/openzfs/sys/uio_impl.h:93-104 | position is conserved and the rest lies strictly inside the vector found, in bytes for offsets from 0 up and modulo 2^64 for negative ones; every earlier vector is passed |
| Uio.PatternRoundTrip | compat/openzfs/sys/uio_impl.h:93-104 | the unsigned pattern of an offset is the word equal to it or 2^64 above it, and converting back restores it |
| Uio.LocatesOnce | compat/openzfs/sys/uio_impl.h:93-104 | such an answer is unique, never names an empty vector, and is the end exactly for offsets beyond the vectors |
| Uio.OffsetTestNeedsPowerOfTwo | compat/openzfs/sys/uio_impl.h:60-70 | the mask test agrees with the remainder test for all offsets exactly for power-of-two block sizes |
| DbufLookup.Dbuf.FindDirtyLte | compat/openzfs/sys/dbuf.h:443-453 | the first record of a txg not above the argument, which is the greatest such txg; NULL exactly when all are above |
| DbufLookup.Dbuf.FindDirtyEq | compat/openzfs/sys/dbuf.h:455-464 | found exactly when a record of that txg is anywhere in the list |
| ZfsList.Walk.Callback | zfs_list.c:17-102 | the callback lists its dataset and then its descendants, closes its own handle last, touches no NULL handle and returns zero |
| ZfsList.Walk.ListDatasets | zfs_list.c:105-136 | the output is the preorder of the forest delivered, every handle is closed, the return is 0 exactly when there is a library handle and the root iteration returned 0, and -1 otherwise, so 0 when nothing failed; zero without a nested failure means the output is the preorder of all datasets that exist |
| ZfsList.TraceIsNested | zfs_list.c:94-101 | a dataset is listed while its handle is innermost, and a handle is closed only after all handles of its descendants |
| ZfsList.EachHandleOnce | zfs_list.c:97-100 | each handle is opened, listed and closed exactly once |
| ZfsList.ListingOrder | zfs_list.c:94-95 | the k-th listing is of the k-th handle given out, and the k-th element of the output is the dataset that handle was opened on |
| ZfsList.NoFailureMeansComplete | zfs_list.c:97-101 | when every iteration returned zero, the output is the preorder of all datasets that exist |
| ZfsList.ZeroMeansComplete | zfs_list.c:97-101 | given that failing iterators lose a child, a zero return comes with a complete listing if and only if every nested iteration returned zero |
| ZfsList.FailureAfterLastChild | zfs_list.c:97-101 | a nested failure with a complete listing, so the assumption is needed |
| ZfsList.SilentTruncation | zfs_list.c:97-101 | a concrete forest reported as success with two of three datasets missing |

## Left out

- space_map.c, the writer and reader of the stream, is not part of this model; `SpaceMap.Words` and `SpaceMap.Read` are the simplest ones that follow the layout documented in the header.
- ZeroMeansComplete: assumes that an iterator returning nonzero has left at least one child undelivered; libzfs, which would show it, is not part of this model. `NoFailureMeansComplete` needs no assumption.
- libzfs is a contract: the iterators, `zfs_close` and handle identities of `ZfsList.Walk`; property reads and the PHP array built from them are left out.
- The `dmu_ot` table behind `DMU_OT_IS_ENCRYPTED` is an arbitrary predicate on the type byte.
- The 32-bit AVL struct is a value (`Avl.Plain`) with the casts of its stores, not an object.
- `zfs_btree_add`, `avl_insert`, `zfs_range_tree_add` and everything else only declared in the headers.
- Shift counts at or above the width of the shifted literal, which the macros never use.
- A B-tree buffer with no elements: the search reads its first element, so callers pass at least one.
- The comparator of the B-tree search is a total order on values; pointers and element sizes are indices.
- The doubly linked `list_t` behind the dirty records is a singly linked chain, which is all the lookups follow.
- `blk_pad`, `blk_cksum`, embedded payload words, gang headers and printing of block pointers.
- `SA_ATTR_LEN`, `SA_ATTR_INFO` and the other lookups through attribute tables.
- Other users of the codec (`ddt.h`, `ddt_impl.h`, `arc_impl.h`, `dmu_redact.h`): further instances of the same theorems.
