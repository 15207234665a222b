/** The VMSAv8-64 descriptors of the 4 KB granule: region sizes, bit fields, builders and decoders.

    A 64-bit word is a natural number below 2^64 and a bit field of a C union is a division and a
    remainder by powers of two: bits lo..lo+n of w are (w / 2^lo) % 2^n. */
module Descriptor {
  import opened Arithmetic

  type Word = w: nat | w < 0x1_0000_0000_0000_0000

  const PAGE_SIZE: nat := 0x1000
  const ENTRIES: nat := 512
  const KERNEL_SPACE_MASK: nat := 0xFFFF_0000_0000_0000
  const MEMORY_TYPE_NORMAL_NO_CACHE: nat := 0
  const MEMORY_TYPE_DEVICE: nat := 1
  /** Output addresses have 48 bits, so page numbers (physical and virtual) have 36. */
  const PAGE_LIMIT: nat := 0x10_0000_0000

  /** What a descriptor means at its level; pages are counted in units of 4 KB. */
  datatype Desc =
    | Invalid
    | Table(next: nat)
    | Leaf(page: nat, attr: nat)

  /** mmu_size_of_level_region: the bytes that one slot of a table of this level translates. */
  function RegionSize(level: nat): (size: nat)
    ensures size > 0
  {
    if level == 0 then 0x80_0000_0000
    else if level == 1 then 0x4000_0000
    else if level == 2 then 0x20_0000
    else 0x1000
  }

  /** The pages that one slot of a table of this level translates. */
  function SlotPages(level: nat): nat {
    if level == 0 then 0x800_0000
    else if level == 1 then 0x4_0000
    else if level == 2 then 0x200
    else 1
  }

  lemma SlotPagesIsRegionSize(level: nat)
    ensures SlotPages(level) * PAGE_SIZE == RegionSize(level)
  {
  }

  // ---- bit fields -------------------------------------------------------------------------

  /** entry & MMU_TYPE_MASK: 0b00 empty, 0b01 block, 0b11 table or page. */
  function TypeBits(w: Word): nat { w % 4 }

  const MMU_EMPTY_ENTRY: nat := 0
  const MMU_BLOCK_ENTRY: nat := 1
  const MMU_TABLE_ENTRY: nat := 3
  const MMU_PAGE_ENTRY: nat := 3

  function ValidBit(w: Word): nat { w % 2 }

  function DescriptorBit(w: Word): nat { (w / 2) % 2 }

  /** fields.lower_attributes, bits 2..12 of a block or page descriptor. */
  function LowerAttributes(w: Word): nat { (w / 4) % 0x400 }

  /** fields_stage_1.AttrIndx, the low three bits of the lower attributes. */
  function AttrIndx(lower: nat): nat { lower % 8 }

  function MemoryType(w: Word): nat { AttrIndx(LowerAttributes(w)) }

  /** The address of the next-level table, in pages (bits 12..48). */
  function NextTable(w: Word): nat { (w / 0x1000) % PAGE_LIMIT }

  /** mmu_get_address_from_page_entry, in pages (bits 12..48). */
  function PageOutput(w: Word): nat { (w / 0x1000) % PAGE_LIMIT }

  /** mmu_get_address_from_block_entry, in pages (bits 30..48 at level 1, bits 21..48 at level 2). */
  function BlockOutput(w: Word, level: nat): nat {
    if level == 1 then (w / 0x4000_0000) % 0x4_0000 * 0x4_0000
    else if level == 2 then (w / 0x20_0000) % 0x800_0000 * 0x200
    else 0
  }

  /** The architecture's reading of a descriptor found in a table of the given level: the reserved
      encoding 0b01 at levels 0 and 3 faults like an invalid one. */
  function Decode(w: Word, level: nat): Desc {
    if ValidBit(w) == 0 then Invalid
    else if DescriptorBit(w) == 1 then
      if level == 3 then Leaf(PageOutput(w), MemoryType(w)) else Table(NextTable(w))
    else if level == 1 || level == 2 then Leaf(BlockOutput(w, level), MemoryType(w))
    else Invalid
  }

  // ---- builders ---------------------------------------------------------------------------

  /** .AttrIndx = memory_type, .AF = 1, .AP = 0b01, cut to the ten bits of the field. */
  function BuildAttributes(memoryType: nat): nat { memoryType % 8 + 0x10 + 0x100 }

  /** mmu_create_table_entry: pointer is a 64-bit address, its low 12 and high 16 bits are dropped. */
  function TableWord(pointer: Word): Word {
    3 + (pointer / 0x1000) % PAGE_LIMIT * 0x1000
  }

  /** mmu_create_page_entry. */
  function PageWord(address: Word, memoryType: nat): Word {
    3 + BuildAttributes(memoryType) * 4 + (address / 0x1000) % PAGE_LIMIT * 0x1000
  }

  /** mmu_create_block_entry: only levels 1 and 2 of the 4 KB granule have blocks. */
  function BlockWord(level: nat, address: Word, memoryType: nat): Word {
    if level == 1
    then 1 + BuildAttributes(memoryType) * 4 + (address / 0x4000_0000) % 0x4_0000 * 0x4000_0000
    else 1 + BuildAttributes(memoryType) * 4 + (address / 0x20_0000) % 0x800_0000 * 0x20_0000
  }

  /** fields.lower_attributes = lower: the bits around the field stay. */
  function WithLowerAttributes(w: Word, lower: nat): Word
    requires lower < 0x400
  {
    w % 4 + lower * 4 + w / 0x1000 * 0x1000
  }

  /** mmu_override_memory_type: the lower attributes are read, AttrIndx is replaced in the copy and
      the copy is written back. */
  function OverrideWord(w: Word, memoryType: nat): Word {
    var lower := LowerAttributes(w);
    WithLowerAttributes(w, lower - lower % 8 + memoryType % 8)
  }

  // ---- round trips ------------------------------------------------------------------------

  lemma TableRoundTrip(frame: nat, level: nat)
    requires frame < PAGE_LIMIT && level < 3
    ensures Decode(TableWord(frame * PAGE_SIZE), level) == Table(frame)
    // a kernel-space pointer (16 high bits set) makes the same descriptor
    ensures TableWord(frame * PAGE_SIZE + KERNEL_SPACE_MASK) == TableWord(frame * PAGE_SIZE)
  {
    hide ValidBit, DescriptorBit;
    DivUnique(frame * PAGE_SIZE, 0x1000, frame, 0);
    DivUnique(frame * PAGE_SIZE + KERNEL_SPACE_MASK, 0x1000, frame + 0xFFFF * PAGE_LIMIT, 0);
    DivUnique(frame + 0xFFFF * PAGE_LIMIT, PAGE_LIMIT, 0xFFFF, frame);
    Parts(3, 0, frame);
  }

  /** A word put together from its parts gives them back. */
  lemma Parts(low: nat, lower: nat, high: nat)
    requires low < 4 && lower < 0x400 && high < 0x10_0000_0000_0000
    ensures
      var w: Word := low + lower * 4 + high * 0x1000;
      && TypeBits(w) == low && ValidBit(w) == low % 2 && DescriptorBit(w) == low / 2
      && LowerAttributes(w) == lower && w / 0x1000 == high
  {
    var w := low + lower * 4 + high * 0x1000;
    DivUnique(w, 4, lower + high * 0x400, low);
    DivUnique(w / 4, 0x400, high, lower);
    DivUnique(w, 0x1000, high, lower * 4 + low);
    DivUnique(w, 2, low / 2 + 2 * (lower + high * 0x400), low % 2);
    DivUnique(w / 2, 2, lower + high * 0x400, low / 2);
  }

  lemma Fields(low: nat, lower: nat, page: nat)
    requires low < 4 && lower < 0x400 && page < PAGE_LIMIT
    ensures
      var w: Word := low + lower * 4 + page * 0x1000;
      && TypeBits(w) == low && ValidBit(w) == low % 2 && DescriptorBit(w) == low / 2
      && LowerAttributes(w) == lower && PageOutput(w) == page
  {
    hide TypeBits, ValidBit, DescriptorBit, LowerAttributes;
    Parts(low, lower, page);
  }

  /** The block address is the page field with the bits below the block size dropped. */
  lemma BlockFields(w: Word)
    ensures BlockOutput(w, 1) == PageOutput(w) / 0x4_0000 * 0x4_0000
    ensures BlockOutput(w, 2) == PageOutput(w) / 0x200 * 0x200
  {
    var page := w / 0x1000;
    BlockField1(page);
    DivUnique(w, 0x4000_0000, page / 0x4_0000, page % 0x4_0000 * 0x1000 + w % 0x1000);
    BlockField2(page);
    DivUnique(w, 0x20_0000, page / 0x200, page % 0x200 * 0x1000 + w % 0x1000);
  }

  lemma BlockField1(page: nat)
    ensures page % PAGE_LIMIT / 0x4_0000 == page / 0x4_0000 % 0x4_0000
  {
    var n, r := page / 0x4_0000, page % 0x4_0000;
    DivUnique(page, PAGE_LIMIT, n / 0x4_0000, n % 0x4_0000 * 0x4_0000 + r);
    DivUnique(n % 0x4_0000 * 0x4_0000 + r, 0x4_0000, n % 0x4_0000, r);
  }

  lemma BlockField2(page: nat)
    ensures page % PAGE_LIMIT / 0x200 == page / 0x200 % 0x800_0000
  {
    var n, r := page / 0x200, page % 0x200;
    DivUnique(page, PAGE_LIMIT, n / 0x800_0000, n % 0x800_0000 * 0x200 + r);
    DivUnique(n % 0x800_0000 * 0x200 + r, 0x200, n % 0x800_0000, r);
  }

  lemma PageRoundTrip(page: nat, memoryType: nat)
    requires page < PAGE_LIMIT && memoryType < 8
    ensures Decode(PageWord(page * PAGE_SIZE, memoryType), 3) == Leaf(page, memoryType)
  {
    Fields(3, BuildAttributes(memoryType), page);
  }

  lemma BlockWordIs(level: nat, page: nat, memoryType: nat)
    requires level == 1 || level == 2
    requires page < PAGE_LIMIT && page % SlotPages(level) == 0
    ensures BlockWord(level, page * PAGE_SIZE, memoryType) == 1 + BuildAttributes(memoryType) * 4 + page * 0x1000
  {
    var n := page / SlotPages(level);
    assert page == n * SlotPages(level);
  }

  lemma BlockRoundTrip(level: nat, page: nat, memoryType: nat)
    requires level == 1 || level == 2
    requires page < PAGE_LIMIT && page % SlotPages(level) == 0 && memoryType < 8
    ensures Decode(BlockWord(level, page * PAGE_SIZE, memoryType), level) == Leaf(page, memoryType)
  {
    var w := 1 + BuildAttributes(memoryType) * 4 + page * 0x1000;
    BlockWordIs(level, page, memoryType);
    Fields(1, BuildAttributes(memoryType), page);
    BlockFields(w);
  }

  /** The words that are built, in numbers: bits 0 and 1 are the kind, bits 2..4 AttrIndx, bit 6 AP, bit 10 the
      access flag, the address starts in bit 12. */
  lemma WordsInNumbers(page: nat, memoryType: nat)
    requires page < PAGE_LIMIT && memoryType < 8
    ensures TableWord(page * 0x1000) == page * 0x1000 + 0x3
    ensures PageWord(page * 0x1000, memoryType) == page * 0x1000 + 0x443 + 4 * memoryType
    ensures page % 0x4_0000 == 0 ==> BlockWord(1, page * 0x1000, memoryType) == page * 0x1000 + 0x441 + 4 * memoryType
    ensures page % 0x200 == 0 ==> BlockWord(2, page * 0x1000, memoryType) == page * 0x1000 + 0x441 + 4 * memoryType
  {
    hide BlockWord;
    DivUnique(page * 0x1000, 0x1000, page, 0);
    if page % 0x4_0000 == 0 {
      BlockWordIs(1, page, memoryType);
    }
    if page % 0x200 == 0 {
      BlockWordIs(2, page, memoryType);
    }
  }

  /** What a word means, in numbers. */
  lemma DecodeInNumbers(w: Word, level: nat)
    requires level <= 3
    ensures w % 2 == 0 || (w % 4 == 1 && (level == 0 || level == 3)) ==> Decode(w, level) == Invalid
    ensures w % 4 == 3 && level < 3 ==> Decode(w, level) == Table(w / 0x1000 % 0x10_0000_0000)
    ensures w % 4 == 3 && level == 3 ==> Decode(w, level) == Leaf(w / 0x1000 % 0x10_0000_0000, w / 4 % 8)
    ensures w % 4 == 1 && level == 2 ==> Decode(w, level) == Leaf(w / 0x20_0000 % 0x800_0000 * 0x200, w / 4 % 8)
    ensures w % 4 == 1 && level == 1 ==> Decode(w, level) == Leaf(w / 0x4000_0000 % 0x4_0000 * 0x4_0000, w / 4 % 8)
  {
    DivUnique(w, 2, w / 4 * 2 + w % 4 / 2, w % 2);
    DivUnique(w / 4, 8, w / 4 / 0x400 * 0x80 + w / 4 % 0x400 / 8, w / 4 % 0x400 % 8);
  }

  /** Overriding the type changes bits 2..4 of the word and nothing else, so the descriptor keeps its
      kind and its address. */
  lemma OverrideKeepsAddress(w: Word, level: nat, memoryType: nat)
    requires memoryType < 8
    ensures OverrideWord(w, memoryType) / 32 == w / 32 && OverrideWord(w, memoryType) % 4 == w % 4
    ensures MemoryType(OverrideWord(w, memoryType)) == memoryType
    ensures Decode(w, level).Leaf? ==>
              Decode(OverrideWord(w, memoryType), level) == Leaf(Decode(w, level).page, memoryType)
  {
    hide OverrideWord, LowerAttributes, ValidBit, DescriptorBit, BlockOutput;
    var w' := OverrideWord(w, memoryType);
    Split(w);
    OverrideParts(w % 4, LowerAttributes(w), w / 0x1000, memoryType);
    Split(w');
    BlockFields(w);
    BlockFields(w');
    assert PageOutput(w') == PageOutput(w);
    hide PageOutput, MemoryType;
  }

  lemma Split(w: Word)
    ensures w == w % 4 + LowerAttributes(w) * 4 + w / 0x1000 * 0x1000
    ensures ValidBit(w) == w % 4 % 2 && DescriptorBit(w) == w % 4 / 2
  {
    hide ValidBit, DescriptorBit;
    DivUnique(w, 0x1000, w / 4 / 0x400, w / 4 % 0x400 * 4 + w % 4);
    Parts(w % 4, LowerAttributes(w), w / 0x1000);
  }

  lemma OverrideParts(low: nat, lower: nat, high: nat, memoryType: nat)
    requires low < 4 && lower < 0x400 && high < 0x10_0000_0000_0000 && memoryType < 8
    ensures
      var w: Word := low + lower * 4 + high * 0x1000;
      var w' := OverrideWord(w, memoryType);
      && w' % 4 == low && w' / 0x1000 == high
      && MemoryType(w') == memoryType && w' / 32 == w / 32
  {
    hide LowerAttributes;
    var w: Word := low + lower * 4 + high * 0x1000;
    var lower' := lower - lower % 8 + memoryType;
    Parts(low, lower, high);
    Parts(low, lower', high);
    assert OverrideWord(w, memoryType) == low + lower' * 4 + high * 0x1000;
    hide OverrideWord, WithLowerAttributes;
    DivUnique(lower', 8, lower / 8, memoryType);
    AboveType(low, lower, high);
    AboveType(low, lower', high);
  }

  lemma AboveType(low: nat, lower: nat, high: nat)
    requires low < 4
    ensures (low + lower * 4 + high * 0x1000) / 32 == lower / 8 + high * 128
  {
    DivUnique(low + lower * 4 + high * 0x1000, 32, lower / 8 + high * 128, lower % 8 * 4 + low);
  }

  /** A descriptor is a leaf or a table exactly when it is valid, and its address is below 2^48. */
  lemma DecodeBounds(w: Word, level: nat)
    requires level <= 3
    ensures Decode(w, level).Table? ==> level < 3 && Decode(w, level).next < PAGE_LIMIT
    ensures Decode(w, level).Leaf? ==>
              && level >= 1
              && Decode(w, level).page % SlotPages(level) == 0
              && Decode(w, level).page + SlotPages(level) <= PAGE_LIMIT
              && Decode(w, level).attr < 8
  {
    assert MemoryType(w) < 8 && PageOutput(w) < PAGE_LIMIT && NextTable(w) < PAGE_LIMIT;
    BlockBounds(w);
    hide ValidBit, DescriptorBit, MemoryType, PageOutput, NextTable, BlockOutput;
  }

  lemma BlockBounds(w: Word)
    ensures BlockOutput(w, 1) % SlotPages(1) == 0 && BlockOutput(w, 1) + SlotPages(1) <= PAGE_LIMIT
    ensures BlockOutput(w, 2) % SlotPages(2) == 0 && BlockOutput(w, 2) + SlotPages(2) <= PAGE_LIMIT
  {
    DivUnique(BlockOutput(w, 1), 0x4_0000, w / 0x4000_0000 % 0x4_0000, 0);
    DivUnique(BlockOutput(w, 2), 0x200, w / 0x20_0000 % 0x800_0000, 0);
  }

  // ---- the missing cast of mmu_split_block_entry --------------------------------------------

  /** fields_level_N.output_address << shift without the cast to uint64_t: the bit field is promoted
      to int, the shift wraps at 32 bits and the result is sign-extended when it is assigned. */
  function SplitBaseAsWritten(address: nat): Word {
    var wrapped := address % 0x1_0000_0000;
    if wrapped < 0x8000_0000 then wrapped else 0xFFFF_FFFF_0000_0000 + wrapped
  }

  /** As written, the base address of a split block is right exactly below 2 GB. */
  lemma SplitBaseIff(address: nat)
    requires address < 0x1_0000_0000_0000
    ensures SplitBaseAsWritten(address) == address <==> address < 0x8000_0000
  {
  }

  /** The page that the parts of a split block start at, as written: the descriptors keep 48 bits. */
  function SplitPageAsWritten(page: nat): (p: nat)
    requires page < PAGE_LIMIT
  {
    SplitBaseAsWritten(page * PAGE_SIZE) / PAGE_SIZE % PAGE_LIMIT
  }

  /** As written, the parts of a block keep its pages exactly when it lies below 2 GB or in the last 2 GB
      of the 48-bit space, where the sign extension restores the bits that the shift lost. */
  lemma SplitPageIff(page: nat)
    requires page < PAGE_LIMIT
    ensures SplitPageAsWritten(page) == page <==> page < 0x8_0000 || page >= 0xF_FFF8_0000
    ensures SplitPageAsWritten(page) == page % 0x10_0000 + if page % 0x10_0000 < 0x8_0000 then 0 else 0xF_FFF0_0000
  {
    var q, r := page / 0x10_0000, page % 0x10_0000;
    DivUnique(page * PAGE_SIZE, 0x1_0000_0000, q, r * PAGE_SIZE);
    if r < 0x8_0000 {
      DivUnique(r * PAGE_SIZE, PAGE_SIZE, r, 0);
    } else {
      DivUnique(0xFFFF_FFFF_0000_0000 + r * PAGE_SIZE, PAGE_SIZE, 0xF_FFFF_FFF0_0000 + r, 0);
      DivUnique(0xF_FFFF_FFF0_0000 + r, PAGE_LIMIT, 0xFFFF, 0xF_FFF0_0000 + r);
    }
  }

  /** The base that the code as written computes for a block, against the page it stands for. */
  lemma SplitBase(page: nat, level: nat)
    requires page < PAGE_LIMIT && (level == 1 || level == 2) && page % SlotPages(level) == 0
    ensures
      var base, part := SplitBaseAsWritten(page * PAGE_SIZE), SplitPageAsWritten(page);
      && base % KERNEL_SPACE == part * PAGE_SIZE && base + RegionSize(level) <= 0x1_0000_0000_0000_0000
      && part % SlotPages(level) == 0 && part + SlotPages(level) <= PAGE_LIMIT
  {
    SplitPageIff(page);
    SplitAddress(page);
    var r, size := page % 0x10_0000, SlotPages(level);
    var m := if level == 1 then 4 else 0x800;
    AlignedRest(page, size, m, page / size);
    hide SplitBaseAsWritten, SplitPageAsWritten;
    if r >= 0x8_0000 {
      DivUnique(0xF_FFF0_0000 + r, size, 0xFFFF * m + r / size, 0);
    }
  }

  lemma SplitAddress(page: nat)
    requires page < PAGE_LIMIT
    ensures
      var r := page % 0x10_0000;
      && SplitBaseAsWritten(page * PAGE_SIZE) == r * PAGE_SIZE + (if r < 0x8_0000 then 0 else 0xFFFF_FFFF_0000_0000)
      && SplitBaseAsWritten(page * PAGE_SIZE) % KERNEL_SPACE == (r + if r < 0x8_0000 then 0 else 0xF_FFF0_0000) * PAGE_SIZE
  {
    var q, r := page / 0x10_0000, page % 0x10_0000;
    DivUnique(page * PAGE_SIZE, 0x1_0000_0000, q, r * PAGE_SIZE);
    if r < 0x8_0000 {
      DivUnique(r * PAGE_SIZE, KERNEL_SPACE, 0, r * PAGE_SIZE);
    } else {
      DivUnique(0xFFFF_FFFF_0000_0000 + r * PAGE_SIZE, KERNEL_SPACE, 0xFFFF, (0xF_FFF0_0000 + r) * PAGE_SIZE);
    }
  }

  /** Reducing a multiple of a size modulo a multiple of the size leaves a multiple, at least one size
      below. */
  lemma AlignedRest(page: nat, size: nat, m: nat, n: nat)
    requires size > 0 && m > 0 && page == n * size && m * size == 0x10_0000
    ensures page % 0x10_0000 == n % m * size && page % 0x10_0000 % size == 0 && page % 0x10_0000 / size == n % m
    ensures page % 0x10_0000 + size <= 0x10_0000
  {
    var q, x := n / m, n % m;
    MulMono(x, m, size);
    assert n == q * m + x;
    assert page == (q * m + x) * size == q * (m * size) + x * size;
    DivUnique(page, 0x10_0000, q, x * size);
    DivUnique(x * size, size, x, 0);
  }

  /** The builders drop the high 16 bits of an address. */
  lemma HighBitsDropped(address: Word, memoryType: nat)
    ensures PageWord(address, memoryType) == PageWord(address % KERNEL_SPACE, memoryType)
    ensures BlockWord(1, address, memoryType) == BlockWord(1, address % KERNEL_SPACE, memoryType)
    ensures BlockWord(2, address, memoryType) == BlockWord(2, address % KERNEL_SPACE, memoryType)
  {
    hide BuildAttributes;
    var k, r := address / KERNEL_SPACE, address % KERNEL_SPACE;
    DropHigh(k, r, 0x1000, PAGE_LIMIT);
    DropHigh(k, r, 0x4000_0000, 0x4_0000);
    DropHigh(k, r, 0x20_0000, 0x800_0000);
  }

  lemma DropHigh(k: nat, r: nat, size: nat, limit: nat)
    requires r < KERNEL_SPACE && size > 0 && limit > 0 && size * limit == KERNEL_SPACE
    ensures (k * KERNEL_SPACE + r) / size % limit == r / size % limit
  {
    var n := r / size;
    MulMono(limit, n, size);
    assert r == n * size + r % size;
    assert k * (size * limit) == k * limit * size;
    DivUnique(k * KERNEL_SPACE + r, size, k * limit + n, r % size);
    if n == limit {
      assert false;
    }
    DivUnique(k * limit + n, limit, k, n);
    DivUnique(n, limit, 0, n);
  }
}
