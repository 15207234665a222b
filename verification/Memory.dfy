/** The memory manager: contexts over the page-table manager and the map of the kernel. */
module Memory {
  import opened Arithmetic
  import opened Descriptor
  import opened FrameSet
  import opened PageTree
  import opened AddressSpace
  import opened Allocator
  import opened Supply
  import opened Teardown
  import opened InsertCalls
  import opened FarSplits
  import opened MmuFacts
  import opened WrittenFacts
  import opened Mmu

  /** struct memory_region. */
  datatype Region = Region(memoryType: nat, va: nat, size: nat)

  /** struct memory_context: one pointer, written once when the context is created. */
  datatype Context = Context(level0Table: nat)

  /** A space with an empty level-0 table. */
  function EmptySpace(root: nat): Space {
    Space(root, map[root := Info(0, 0, 0, 0)], map[])
  }

  /** All frames that a space in MapAlloc mode owns. */
  function Owned(space: Space): set<nat> {
    space.tables.Keys + space.outputs.Keys
  }

  /** memory_create_context. */
  method CreateContext(mmu: Mmu) returns (ok: bool, context: Context, ghost space: Space)
    requires mmu.Valid()
    modifies mmu`mem, mmu.allocator.bitmap
    ensures !ok ==> mmu.OutOfMemory(MapAlloc)
    ensures ok ==>
              && space == EmptySpace(context.level0Table) && context.level0Table !in old(mmu.allocator.Set())
              && FirstFit(old(mmu.allocator.Set()), mmu.allocator.Total(), 1, 1, context.level0Table)
              && Good(mmu.Snap(space), MapAlloc)
              && (forall v :: 0 <= v < PAGE_LIMIT ==> mmu.Snap(space).At(v) == Unmapped)
              && mmu.allocator.Set() == old(mmu.allocator.Set()) + Owned(space)
              && (forall g :: g in old(mmu.mem) && g != context.level0Table ==> g in mmu.mem && mmu.mem[g] == old(mmu.mem[g]))
  {
    hide Claimed, Good, NoFit, FirstFit;
    var table := mmu.CreateTable();
    if table.None? {
      return false, Context(0), EmptySpace(0);
    }
    context := Context(table.value);
    space := EmptySpace(table.value);
    EmptySpaceGood(mmu.Snap(space));
    return true, context, space;
  }

  /** memory_map_region. When a claim fails, the pages before reached are mapped. */
  method MapRegion(mmu: Mmu, context: Context, region: Region, mapType: MapType, ghost space: Space)
    returns (ok: bool, ghost space': Space, ghost reached: nat)
    requires mmu.Valid() && Good(mmu.Snap(space), mapType) && space.root == context.level0Table
    requires region.memoryType < 8 && region.va % PAGE_SIZE == 0 && region.va + region.size <= PAGE_LIMIT * PAGE_SIZE
    modifies mmu`mem, mmu`mapped, mmu.allocator.bitmap
    ensures !ok ==> mmu.OutOfMemory(mapType)
    ensures
      var lo, hi := region.va / PAGE_SIZE, region.va / PAGE_SIZE + region.size / PAGE_SIZE;
      && lo <= reached <= hi && (ok ==> reached == hi)
      && Advance(old(mmu.Snap(space)), mmu.Snap(space'), lo, reached, region.memoryType, mapType)
      && Grows(space.tables, space'.tables, lo, hi, TableLevel(region.va, region.size))
      && Supplied(old(mmu.Snap(space)), mmu.Snap(space'), lo, hi, hi, mmu.allocator.Total(), mapType)
      && BlocksWhole(space.tables, space'.tables, lo, hi)
  {
    hide Good, Advance, Grows, Supplied, BlocksWhole;
    ok, space', reached :=
      mmu.Insert(context.level0Table, region.va, region.size, region.memoryType, mapType, space);
  }

  /** memory_map_region through memory_mmu_insert as written. */
  method MapRegionAsWritten(mmu: Mmu, context: Context, region: Region, mapType: MapType, ghost space: Space)
    returns (outcome: Outcome, ghost space': Space, ghost reached: set<nat>, ghost last: Snapshot)
    requires mmu.Valid() && Good(mmu.Snap(space), mapType) && space.root == context.level0Table
    requires region.memoryType < 8 && region.va % PAGE_SIZE == 0 && region.va + region.size <= PAGE_LIMIT * PAGE_SIZE
    requires ByteCountHarmless(region.va, region.size)
    modifies mmu`mem, mmu`mapped, mmu.allocator.bitmap
    ensures outcome.NoFrame? ==> mmu.OutOfMemory(mapType)
    ensures AsMeant(outcome) ==> last == mmu.Snap(space')
    ensures InsertedAsWritten(old(mmu.Snap(space)), last, outcome, reached, region.va, region.size, mmu.allocator.Total(),
                              region.memoryType, mapType)
  {
    outcome, space', reached, last :=
      mmu.InsertAsWritten(context.level0Table, region.va, region.size, region.memoryType, mapType, space);
  }

  /** memory_destroy_context. */
  method DestroyContext(mmu: Mmu, context: Context, ghost space: Space)
    requires mmu.Valid() && Good(mmu.Snap(space), MapAlloc) && space.root == context.level0Table
    modifies mmu`mem, mmu`released, mmu.allocator.bitmap
    ensures mmu.released == old(mmu.released) + PostOrder(old(mmu.mem), space.root, 0)
    ensures mmu.allocator.Set() == old(mmu.allocator.Set()) - Owned(space)
    ensures forall g :: g in old(mmu.mem) && g != space.root ==> g in mmu.mem && mmu.mem[g] == old(mmu.mem[g])
  {
    mmu.DestroyTable(context.level0Table, space);
  }

  lemma EmptySpaceGood(s: Snapshot)
    requires s.space == EmptySpace(s.space.root) && s.space.root in s.claimed && s.space.root < PAGE_LIMIT
    requires s.space.root in s.mem && s.mem[s.space.root] == EMPTY_TABLE
    ensures Good(s, MapAlloc)
    ensures forall v :: 0 <= v < PAGE_LIMIT ==> s.At(v) == Unmapped
  {
    hide Decode;
    EmptyIsInvalid(0);
    forall v | 0 <= v < PAGE_LIMIT
      ensures s.At(v) == Unmapped
    {
      assert s.mem[s.space.root][SlotOf(v, 0)] == MMU_EMPTY_ENTRY;
    }
  }

  // ---- conservation ---------------------------------------------------------------------------

  /** From one snapshot to the next some range was mapped in MapAlloc mode. */
  ghost predicate MapsSome(s: Snapshot, s': Snapshot) {
    exists lo: nat, hi: nat, memoryType: nat :: Advance(s, s', lo, hi, memoryType, MapAlloc)
  }

  /** A context is created over a set of claimed frames and ranges are mapped in it one after another. */
  ghost predicate ContextRun(claimed: set<nat>, run: seq<Snapshot>) {
    && |run| > 0
    && Good(run[0], MapAlloc) && run[0].space == EmptySpace(run[0].space.root)
    && run[0].space.root !in claimed && run[0].claimed == claimed + {run[0].space.root}
    && (forall k :: 0 < k < |run| ==> MapsSome(run[k - 1], run[k]))
  }

  /** At every moment the context owns exactly the frames that were claimed since it was created, and
      destroying it then, which releases each of them once, restores the claimed set. */
  lemma {:induction false} Conservation(claimed: set<nat>, run: seq<Snapshot>)
    requires ContextRun(claimed, run)
    ensures
      var s := run[|run| - 1];
      && Good(s, MapAlloc)
      && s.claimed == claimed + Owned(s.space) && claimed !! Owned(s.space)
      && Exactly(PostOrder(s.mem, s.space.root, 0), Owned(s.space))
      && s.claimed - Pages(PostOrder(s.mem, s.space.root, 0)) == claimed
    decreases |run|
  {
    hide Good, Advance, Exactly, PostOrder, Pages;
    var s := run[|run| - 1];
    if |run| > 1 {
      var before := run[..|run| - 1];
      var r := before[|before| - 1];
      forall k | 0 < k < |before|
        ensures MapsSome(before[k - 1], before[k])
      {
        assert before[k] == run[k] && before[k - 1] == run[k - 1];
      }
      Conservation(claimed, before);
      assert MapsSome(r, s);
      var lo: nat, hi: nat, memoryType: nat :| Advance(r, s, lo, hi, memoryType, MapAlloc);
      OwnedGrows(r, s, lo, hi, memoryType);
    }
    TeardownExactly(s);
    ExactlyPages(PostOrder(s.mem, s.space.root, 0), Owned(s.space));
  }

  lemma OwnedGrows(s: Snapshot, s': Snapshot, lo: nat, hi: nat, memoryType: nat)
    requires Good(s, MapAlloc) && Advance(s, s', lo, hi, memoryType, MapAlloc)
    ensures Good(s', MapAlloc)
    ensures Owned(s.space) <= Owned(s'.space) && s'.claimed == s.claimed + Owned(s'.space)
    ensures (Owned(s'.space) - Owned(s.space)) !! s.claimed
  {
    hide Tree, OwnsOutputs, RemapsRange;
  }

  // ---- the kernel -----------------------------------------------------------------------------

  const PERIPHERIALS_START: nat := 0xF000_0000
  const PERIPHERIALS_END: nat := 0x1_0000_0000

  /** The words of the three tables that boot/mmu.S fills: a table descriptor is the address with the
      two low bits set, a block descriptor has the valid bit and the access flag. */
  function BootLink(next: nat): Word
    requires next < PAGE_LIMIT
  {
    next * PAGE_SIZE + 3
  }

  function BootBlock(n: nat): Word
    requires n < ENTRIES
  {
    n * 0x20_0000 + 0x401
  }

  function BootLinks(next: nat): (words: seq<Word>)
    requires next < PAGE_LIMIT
  {
    seq(ENTRIES, i => if i == 0 then BootLink(next) else MMU_EMPTY_ENTRY)
  }

  function BootBlocks(): seq<Word> {
    seq(ENTRIES, i requires 0 <= i < ENTRIES => BootBlock(i))
  }

  /** The frames of the level-0, level-1 and level-2 table follow each other. */
  function BootMemory(l0: nat, l1: nat, l2: nat): Ram
    requires l1 < PAGE_LIMIT && l2 < PAGE_LIMIT
  {
    map[l0 := BootLinks(l1), l1 := BootLinks(l2), l2 := BootBlocks()]
  }

  function BootSpace(l0: nat, l1: nat, l2: nat): Space {
    Space(l0, map[l0 := Info(0, 0, 0, 0), l1 := Info(1, 0, l0, 0), l2 := Info(2, 0, l1, 0)], map[])
  }

  lemma BootWords(next: nat, level: nat, n: nat)
    requires next < PAGE_LIMIT && level < 2 && n < ENTRIES
    ensures Decode(BootLink(next), level) == Table(next)
    ensures Decode(BootBlock(n), 2) == Leaf(n * 512, MEMORY_TYPE_NORMAL_NO_CACHE)
  {
    hide BlockOutput;
    TableRoundTrip(next, level);
    assert BootLink(next) == TableWord(next * PAGE_SIZE);
    Fields(1, 0x100, n * 512);
    BlockFields(BootBlock(n));
  }

  ghost predicate BootDecodes(mem: Ram, l0: nat, l1: nat, l2: nat) {
    && l0 in mem && |mem[l0]| == ENTRIES && l1 in mem && |mem[l1]| == ENTRIES && l2 in mem && |mem[l2]| == ENTRIES
    && (forall i :: 0 <= i < ENTRIES ==> Decode(mem[l0][i], 0) == if i == 0 then Table(l1) else Invalid)
    && (forall i :: 0 <= i < ENTRIES ==> Decode(mem[l1][i], 1) == if i == 0 then Table(l2) else Invalid)
    && (forall i :: 0 <= i < ENTRIES ==> Decode(mem[l2][i], 2) == Leaf(i * 512, MEMORY_TYPE_NORMAL_NO_CACHE))
    && (forall i :: 0 < i < ENTRIES ==> mem[l0][i] == MMU_EMPTY_ENTRY)
    && (forall i :: 0 < i < ENTRIES ==> mem[l1][i] == MMU_EMPTY_ENTRY)
  }

  /** The boot tree is well formed and maps the first GB to itself. */
  lemma BootTree(l0: nat, l1: nat, l2: nat, claimed: set<nat>)
    requires l0 < l1 < l2 < PAGE_LIMIT && {l0, l1, l2} <= claimed
    ensures
      var s := Snapshot(BootMemory(l0, l1, l2), claimed, BootSpace(l0, l1, l2));
      && Good(s, MapOneToOne)
      && forall v :: 0 <= v < PAGE_LIMIT ==>
           s.At(v) == if v < 0x4_0000 then Mapped(v, MEMORY_TYPE_NORMAL_NO_CACHE) else Unmapped
  {
    hide Decode, BootLink, BootBlock;
    var s := Snapshot(BootMemory(l0, l1, l2), claimed, BootSpace(l0, l1, l2));
    forall i | 0 <= i < ENTRIES
      ensures Decode(s.mem[l0][i], 0) == if i == 0 then Table(l1) else Invalid
      ensures Decode(s.mem[l1][i], 1) == if i == 0 then Table(l2) else Invalid
      ensures Decode(s.mem[l2][i], 2) == Leaf(i * 512, MEMORY_TYPE_NORMAL_NO_CACHE)
    {
      BootWords(l1, 0, i);
      BootWords(l2, 1, i);
      EmptyIsInvalid(0);
      EmptyIsInvalid(1);
    }
    assert BootDecodes(s.mem, l0, l1, l2);
    hide BootMemory, BootLinks, BootBlocks;
    BootIsTree(s.mem, l0, l1, l2);
    forall v | 0 <= v < PAGE_LIMIT
      ensures s.At(v) == if v < 0x4_0000 then Mapped(v, MEMORY_TYPE_NORMAL_NO_CACHE) else Unmapped
    {
      BootWalk(s.mem, l0, l1, l2, v);
    }
  }

  lemma BootIsTree(mem: Ram, l0: nat, l1: nat, l2: nat)
    requires BootDecodes(mem, l0, l1, l2) && l0 < l1 < l2 < PAGE_LIMIT
    ensures Tree(mem, l0, BootSpace(l0, l1, l2).tables)
  {
    hide Decode;
    var t := BootSpace(l0, l1, l2).tables;
    assert TableOk(mem, t, l0) && TableOk(mem, t, l1) && TableOk(mem, t, l2);
    assert Linked(mem, t, l1) && Linked(mem, t, l2);
  }

  lemma BootWalk(mem: Ram, l0: nat, l1: nat, l2: nat, v: nat)
    requires BootDecodes(mem, l0, l1, l2) && v < PAGE_LIMIT
    ensures Translate(mem, l0, v) == if v < 0x4_0000 then Mapped(v, MEMORY_TYPE_NORMAL_NO_CACHE) else Unmapped
  {
    hide Decode, SlotOf;
    BootSlots(v);
    if v < 0x800_0000 {
      assert Walk(mem, l0, 0, v) == Walk(mem, l1, 1, v);
      if v < 0x4_0000 {
        assert Walk(mem, l1, 1, v) == Walk(mem, l2, 2, v);
        assert Decode(mem[l2][SlotOf(v, 2)], 2) == Leaf(SlotOf(v, 2) * 512, MEMORY_TYPE_NORMAL_NO_CACHE);
      }
    }
  }

  lemma BootSlots(v: nat)
    requires v < PAGE_LIMIT
    ensures SlotOf(v, 0) == 0 <==> v < 0x800_0000
    ensures v < 0x800_0000 ==> (SlotOf(v, 1) == 0 <==> v < 0x4_0000)
    ensures v < 0x4_0000 ==> SlotOf(v, 2) * 512 + v % 512 == v
  {
  }

  // ---- memory_init ----------------------------------------------------------------------------

  /** The frames that memory_init reserves: the image from address 0 on, the bitmap behind it and the
      peripherals. kernelEnd is the physical address of the end of the image. */
  function ReservedPages(kernelEnd: nat, size: nat): set<nat> {
    var image := AlignUp(kernelEnd, PAGE_SIZE) / PAGE_SIZE;
    Run(image, BitmapPages(size)) + Run(0, image) + Run(PERIPHERIALS_START / PAGE_SIZE, 0x1_0000)
  }

  function BitmapPages(size: nat): nat {
    AlignUp(8 * (size / PAGE_SIZE / 64), PAGE_SIZE) / PAGE_SIZE
  }

  /** What the kernel maps: every page below the size to itself, the peripherals as device memory. */
  function KernelMap(v: nat, size: nat): Mapping {
    if v >= size / PAGE_SIZE then Unmapped
    else if PERIPHERIALS_START <= v * PAGE_SIZE < PERIPHERIALS_END then Mapped(v, MEMORY_TYPE_DEVICE)
    else Mapped(v, MEMORY_TYPE_NORMAL_NO_CACHE)
  }

  /** The reserved frames in numbers: the image and the bitmap behind it, and the peripherals from 0xF000_0000 to
      4 GB. */
  lemma ReservedIff(kernelEnd: nat, size: nat)
    ensures forall p: nat :: p in ReservedPages(kernelEnd, size) <==>
              p < (kernelEnd + 0xFFF) / 0x1000 + (8 * (size / 0x1000 / 64) + 0xFFF) / 0x1000 || 0xF_0000 <= p < 0x10_0000
  {
    PagesUp(kernelEnd);
    PagesUp(8 * (size / PAGE_SIZE / 64));
    hide AlignUp;
  }

  lemma PagesUp(x: nat)
    ensures AlignUp(x, PAGE_SIZE) / PAGE_SIZE == (x + 0xFFF) / 0x1000
  {
    DivUnique((x + 0xFFF) / 0x1000 * PAGE_SIZE, PAGE_SIZE, (x + 0xFFF) / 0x1000, 0);
  }

  /** The kernel map in numbers: AttrIndx 1 is device memory, 0 is normal memory. */
  lemma KernelMapIs(v: nat, size: nat)
    ensures KernelMap(v, size) ==
            if v < size / 0x1000 then Mapped(v, if 0xF_0000 <= v < 0x10_0000 then 1 else 0) else Unmapped
  {
  }

  /** The first part of memory_init: the allocator with its reserved ranges. */
  method InitAllocator(size: nat, kernelEnd: nat) returns (allocator: Allocator)
    requires size % RegionSize(2) == 0 && PERIPHERIALS_END <= size && size / PAGE_SIZE + BLOCK_PAGES <= UINT32
    requires 0 < AlignUp(kernelEnd, PAGE_SIZE) / PAGE_SIZE
    requires AlignUp(kernelEnd, PAGE_SIZE) / PAGE_SIZE + BitmapPages(size) <= size / PAGE_SIZE
    ensures fresh(allocator) && fresh(allocator.bitmap) && allocator.Valid()
    ensures allocator.pageSize == PAGE_SIZE && allocator.Total() == size / PAGE_SIZE
    ensures allocator.Set() == ReservedPages(kernelEnd, size)
    ensures forall p: nat :: p in allocator.Set() <==>
              p < (kernelEnd + 0xFFF) / 0x1000 + (8 * (size / 0x1000 / 64) + 0xFFF) / 0x1000 || 0xF_0000 <= p < 0x10_0000
  {
    hide Claimed, Run, AlignUp, BitmapPages;
    ReservedIff(kernelEnd, size);
    var numberOfPages := size / PAGE_SIZE;
    var image := AlignUp(KERNEL_SPACE_MASK + kernelEnd, PAGE_SIZE);
    InitGeometry(size, kernelEnd);
    allocator := new Allocator(image, numberOfPages, PAGE_SIZE);
    allocator.ClaimRange(0, AlignUp(kernelEnd, PAGE_SIZE));
    allocator.ClaimRange(PERIPHERIALS_START, PERIPHERIALS_END);
  }

  /** memory_init, through memory_mmu_insert as written. mmuSpace is the frame of mmu_space_start, the
      first of the three boot tables. With an image in the lower half of memory there is always room for
      the tables. */
  method Init(size: nat, kernelEnd: nat, mmuSpace: nat)
    returns (ok: bool, mmu: Mmu, context: Context, ghost space: Space)
    requires size % RegionSize(2) == 0 && PERIPHERIALS_END <= size && size / PAGE_SIZE + BLOCK_PAGES <= UINT32
    requires mmuSpace + 2 < AlignUp(kernelEnd, PAGE_SIZE) / PAGE_SIZE
    requires AlignUp(kernelEnd, PAGE_SIZE) / PAGE_SIZE + BitmapPages(size) <= size / PAGE_SIZE
    ensures fresh(mmu) && fresh(mmu.allocator) && fresh(mmu.allocator.bitmap) && mmu.Valid()
    ensures !ok ==> mmu.OutOfMemory(MapOneToOne)
    ensures kernelEnd <= size / 2 ==> ok
    ensures ok ==>
              && context.level0Table == mmuSpace == space.root && Good(mmu.Snap(space), MapOneToOne)
              && (forall v :: 0 <= v < PAGE_LIMIT ==> mmu.Snap(space).At(v) == KernelMap(v, size))
              && mmu.allocator.Set() == ReservedPages(kernelEnd, size) + space.tables.Keys
    ensures ok ==> forall v :: 0 <= v < 0x10_0000_0000 ==>
              Translate(mmu.mem, mmuSpace, v) ==
              if v < size / 0x1000 then Mapped(v, if 0xF_0000 <= v < 0x10_0000 then 1 else 0) else Unmapped
    ensures ok ==>
              var boot := BootMemory(mmuSpace, mmuSpace + 1, mmuSpace + 2);
              var before := Snapshot(boot, ReservedPages(kernelEnd, size), BootSpace(mmuSpace, mmuSpace + 1, mmuSpace + 2));
              KernelSupply(before, mmu.Snap(space), size / PAGE_SIZE, size / PAGE_SIZE)
    ensures ok ==> forall p: nat :: p in mmu.allocator.Set() <==>
              || p in space.tables
              || p < (kernelEnd + 0xFFF) / 0x1000 + (8 * (size / 0x1000 / 64) + 0xFFF) / 0x1000
              || 0xF_0000 <= p < 0x10_0000
  {
    hide Claimed, Good, Advance, NoFit, ReservedPages, BootMemory, BootSpace, AlignUp, BitmapPages, RemapsRange, KernelMap;
    hide KernelState, InsertedAsWritten, ByteCountHarmless, NoneFar, KernelSupply;
    var allocator := InitAllocator(size, kernelEnd);
    BootInImage(size, kernelEnd, mmuSpace);
    BootTree(mmuSpace, mmuSpace + 1, mmuSpace + 2, allocator.Set());
    mmu := new Mmu(allocator, BootMemory(mmuSpace, mmuSpace + 1, mmuSpace + 2));
    context := Context(mmuSpace);
    space := BootSpace(mmuSpace, mmuSpace + 1, mmuSpace + 2);
    ghost var reserved, n := allocator.Set(), size / PAGE_SIZE;
    var outcome: Outcome;
    ghost var s0, s1, s2, s3: Snapshot, reached: set<nat>;
    s0 := mmu.Snap(space);
    BootState(s0, reserved, mmuSpace, n);
    BootIsNear(s0);
    BootSupply(s0, allocator.Total());
    KernelRegionsHarmless(size);
    KernelRegions(size);
    var region := Region(MEMORY_TYPE_NORMAL_NO_CACHE, 0, PERIPHERIALS_START);
    outcome, space, reached, s1 := MapRegionAsWritten(mmu, context, region, MapOneToOne, space);
    KernelStep(s0, s0, s1, outcome, reached, region, reserved, mmuSpace, n, allocator.Total());
    ok := outcome.Complete?;
    if !ok {
      KernelHasRoom(s1, reserved, mmuSpace, kernelEnd, size);
      return;
    }
    region := Region(MEMORY_TYPE_DEVICE, PERIPHERIALS_START, PERIPHERIALS_END - PERIPHERIALS_START);
    outcome, space, reached, s2 := MapRegionAsWritten(mmu, context, region, MapOneToOne, space);
    KernelStep(s0, s1, s2, outcome, reached, region, reserved, mmuSpace, n, allocator.Total());
    ok := outcome.Complete?;
    if !ok {
      KernelHasRoom(s2, reserved, mmuSpace, kernelEnd, size);
      return;
    }
    region := Region(MEMORY_TYPE_NORMAL_NO_CACHE, PERIPHERIALS_END, size - PERIPHERIALS_END);
    outcome, space, reached, s3 := MapRegionAsWritten(mmu, context, region, MapOneToOne, space);
    KernelStep(s0, s2, s3, outcome, reached, region, reserved, mmuSpace, n, allocator.Total());
    ok := outcome.Complete?;
    if !ok {
      KernelHasRoom(s3, reserved, mmuSpace, kernelEnd, size);
      return;
    }
    KernelOf(s3, reserved, mmuSpace, n);
    KernelMapped(s0, s1, s2, s3, size);
    KernelInNumbers(s3, kernelEnd, size);
  }

  lemma KernelInNumbers(s: Snapshot, kernelEnd: nat, size: nat)
    requires forall v :: 0 <= v < PAGE_LIMIT ==> s.At(v) == KernelMap(v, size)
    requires s.claimed == ReservedPages(kernelEnd, size) + s.space.tables.Keys
    ensures forall v :: 0 <= v < 0x10_0000_0000 ==>
              Translate(s.mem, s.space.root, v) ==
              if v < size / 0x1000 then Mapped(v, if 0xF_0000 <= v < 0x10_0000 then 1 else 0) else Unmapped
    ensures forall p: nat :: p in s.claimed <==>
              || p in s.space.tables
              || p < (kernelEnd + 0xFFF) / 0x1000 + (8 * (size / 0x1000 / 64) + 0xFFF) / 0x1000
              || 0xF_0000 <= p < 0x10_0000
  {
    hide Translate, ReservedPages, KernelMap;
    ReservedIff(kernelEnd, size);
    forall v | 0 <= v < PAGE_LIMIT
      ensures s.At(v) == KernelMap(v, size)
      ensures Translate(s.mem, s.space.root, v) ==
              if v < size / 0x1000 then Mapped(v, if 0xF_0000 <= v < 0x10_0000 then 1 else 0) else Unmapped
    {
      KernelMapIs(v, size);
    }
  }

  /** While memory_init maps the kernel: the boot tables and new tables of levels 1 and 2 for pages below
      n, all of them claimed beside what is reserved. */
  ghost predicate KernelState(s: Snapshot, reserved: set<nat>, mmuSpace: nat, n: nat)
    requires mmuSpace + 2 < PAGE_LIMIT
  {
    var boot := BootSpace(mmuSpace, mmuSpace + 1, mmuSpace + 2);
    && Good(s, MapOneToOne) && s.space.root == mmuSpace && boot.tables.Keys <= reserved
    && s.claimed == reserved + s.space.tables.Keys && Grows(boot.tables, s.space.tables, 0, n, 2)
  }

  lemma BootState(s: Snapshot, reserved: set<nat>, mmuSpace: nat, n: nat)
    requires mmuSpace + 2 < PAGE_LIMIT && {mmuSpace, mmuSpace + 1, mmuSpace + 2} <= reserved && Good(s, MapOneToOne)
    requires s.claimed == reserved && s.space == BootSpace(mmuSpace, mmuSpace + 1, mmuSpace + 2)
    ensures KernelState(s, reserved, mmuSpace, n) && s.space.root == mmuSpace
  {
    hide Good;
    assert BootSpace(mmuSpace, mmuSpace + 1, mmuSpace + 2).tables.Keys == {mmuSpace, mmuSpace + 1, mmuSpace + 2};
    GrowsNone(s.space.tables, 0, n, 2);
  }

  lemma KernelOf(s: Snapshot, reserved: set<nat>, mmuSpace: nat, n: nat)
    requires mmuSpace + 2 < PAGE_LIMIT && KernelState(s, reserved, mmuSpace, n)
    ensures Good(s, MapOneToOne) && s.space.root == mmuSpace && s.claimed == reserved + s.space.tables.Keys
  {
    hide Good;
  }

  lemma KernelRegions(size: nat)
    requires size % RegionSize(2) == 0 && PERIPHERIALS_END <= size
    ensures PERIPHERIALS_START % RegionSize(2) == 0 && PERIPHERIALS_END % RegionSize(2) == 0
    ensures (PERIPHERIALS_END - PERIPHERIALS_START) % RegionSize(2) == 0 && (size - PERIPHERIALS_END) % RegionSize(2) == 0
    ensures PERIPHERIALS_END / PAGE_SIZE + (size - PERIPHERIALS_END) / PAGE_SIZE == size / PAGE_SIZE
  {
  }

  /** No page from lo on is mapped far. */
  ghost predicate NoneFar(s: Snapshot, lo: nat) {
    forall v :: lo <= v < PAGE_LIMIT ==> !FarAt(s, v)
  }

  lemma NoneMet(s: Snapshot, va: nat, size: nat)
    requires NoneFar(s, va / PAGE_SIZE)
    ensures !InsertMeetsFar(s, va, size)
  {
    hide Translate, Covered, PagesInBlocks;
    assert forall v, level :: SplitsFar(s, v, level) ==> FarAt(s, v);
  }

  lemma BootIsNear(s: Snapshot)
    requires forall v :: 0 <= v < PAGE_LIMIT ==>
               s.At(v) == if v < 0x4_0000 then Mapped(v, MEMORY_TYPE_NORMAL_NO_CACHE) else Unmapped
    ensures NoneFar(s, 0)
  {
    hide Translate;
  }

  lemma StillNear(s: Snapshot, s': Snapshot, lo: nat, hi: nat, memoryType: nat)
    requires NoneFar(s, lo) && RemapsRange(s, s', lo, hi, memoryType, MapOneToOne) && lo <= hi
    ensures NoneFar(s', hi)
  {
    hide Translate, Far;
    forall v | hi <= v < PAGE_LIMIT
      ensures !FarAt(s', v)
    {
      assert Remaps(s.At(v), s'.At(v), v, lo <= v < hi, memoryType, MapOneToOne, s.claimed);
      assert !FarAt(s, v);
    }
  }

  /** The tables for the pages before at were claimed by first fits, in the order of the pages, and for nothing
      else. */
  ghost predicate KernelSupply(s0: Snapshot, s: Snapshot, at: nat, total: nat) {
    Supplied(s0, s, 0, at, at, total, MapOneToOne) && Ready(s.space.tables, 0, at, 3)
  }

  lemma BootSupply(s: Snapshot, total: nat)
    ensures KernelSupply(s, s, 0, total)
  {
    hide Supplied;
    SuppliedSelf(s, 0, 0, 0, total, MapOneToOne);
  }

  lemma KernelSupplied(s0: Snapshot, s: Snapshot, s': Snapshot, at: nat, end: nat, total: nat)
    requires Good(s, MapOneToOne) && Good(s', MapOneToOne) && at <= end && KernelSupply(s0, s, at, total)
    requires Supplied(s, s', at, end, end, total, MapOneToOne) && Ready(s'.space.tables, at, end, 3)
    requires Grows(s.space.tables, s'.space.tables, at, end, 2)
    ensures KernelSupply(s0, s', end, total)
  {
    hide Good, Supplied, Covered, Grows, TablePages;
    SuppliedPart(s0, s, s', 0, at, end, 2, total, MapOneToOne);
    if at == end && 0 < at {
      StillReady(s.space.tables, s'.space.tables, at, end, 2);
    }
  }

  lemma StillReady(t: Tables, t': Tables, lo: nat, at: nat, level: nat)
    requires Ready(t, 0, at, 3) && at > 0 && Grows(t, t', lo, at, level)
    ensures Ready(t', 0, at, 3)
  {
    hide InTable, TablePages;
    if Covered(t, at - 1, 3) {
      CoveredStays(t, t', at - 1, 3);
    }
    if Covered(t, at - 1, 2) {
      CoveredStays(t, t', at - 1, 2);
    }
  }

  /** One region of whole blocks: the assertion of mmu_get_subtable cannot fail because there are no
      level-3 tables, and none are made; no split moves pages because no page of the region is mapped far. */
  lemma KernelStep(s0: Snapshot, s: Snapshot, s': Snapshot, outcome: Outcome, reached: set<nat>, region: Region,
                   reserved: set<nat>, mmuSpace: nat, n: nat, total: nat)
    requires mmuSpace + 2 < PAGE_LIMIT && KernelState(s, reserved, mmuSpace, n)
    requires KernelSupply(s0, s, region.va / PAGE_SIZE, total)
    requires InsertedAsWritten(s, s', outcome, reached, region.va, region.size, total, region.memoryType, MapOneToOne)
    requires region.va % RegionSize(2) == 0 && region.size % RegionSize(2) == 0
    requires region.va / PAGE_SIZE + region.size / PAGE_SIZE <= n <= PAGE_LIMIT && NoneFar(s, region.va / PAGE_SIZE)
    ensures KernelState(s', reserved, mmuSpace, n) && Good(s', MapOneToOne) && s'.space.root == mmuSpace
    ensures outcome.Complete? || outcome.NoFrame?
    ensures outcome.Complete? ==>
              var lo := region.va / PAGE_SIZE;
              && RemapsRange(s, s', lo, lo + region.size / PAGE_SIZE, region.memoryType, MapOneToOne)
              && NoneFar(s', lo + region.size / PAGE_SIZE)
              && KernelSupply(s0, s', lo + region.size / PAGE_SIZE, total)
  {
    hide Good, RemapsSet, RemapsRange, InsertedPages, Trips, PagesInBlocks, TablePages, BootSpace, InsertMeetsFar, NoneFar;
    hide Spends, Settled, NarrowHarmless, InsertSingles, Supplied, Ready, KernelSupply, Advance;
    var boot := BootSpace(mmuSpace, mmuSpace + 1, mmuSpace + 2);
    var lo, hi := region.va / PAGE_SIZE, region.va / PAGE_SIZE + region.size / PAGE_SIZE;
    BootLevels(mmuSpace);
    BlockRange(region.va, region.size);
    BlockTables(s.space.tables, s'.space.tables, lo, hi, region.va, region.size);
    GrowsThen(boot.tables, s.space.tables, s'.space.tables, 0, n, lo, hi, 2, 2);
    assert s'.claimed == reserved + s'.space.tables.Keys;
    NoneMet(s, region.va, region.size);
    InsertHarmless(s, s', outcome, reached, region.va, region.size, total, region.memoryType, MapOneToOne);
    if outcome.Complete? {
      AdvanceRemaps(s, s', lo, hi, region.memoryType);
      StillNear(s, s', lo, hi, region.memoryType);
      KernelSupplied(s0, s, s', lo, hi, total);
    }
  }

  lemma AdvanceRemaps(s: Snapshot, s': Snapshot, lo: nat, hi: nat, memoryType: nat)
    requires Advance(s, s', lo, hi, memoryType, MapOneToOne)
    ensures RemapsRange(s, s', lo, hi, memoryType, MapOneToOne)
  {
    hide Good, RemapsRange;
  }

  lemma BootLevels(mmuSpace: nat)
    ensures
      var t := BootSpace(mmuSpace, mmuSpace + 1, mmuSpace + 2).tables;
      forall g :: g in t ==> t[g].level <= 2
  {
  }

  lemma BlockTables(t: Tables, t': Tables, lo: nat, hi: nat, va: nat, size: nat)
    requires Grows(t, t', lo, hi, TableLevel(va, size)) && hi == lo + size / PAGE_SIZE
    requires size > 0 ==> TableLevel(va, size) == 2
    ensures Grows(t, t', lo, hi, 2)
  {
    hide TablePages, TableLevel;
  }

  // ---- there is room for the kernel's tables --------------------------------------------------

  lemma {:induction false} RunSize(page: nat, number: nat)
    ensures |Run(page, number)| == number
  {
    hide Run;
    if number == 0 {
      RunEmpty(page);
    } else {
      RunSize(page, number - 1);
      RunGrows(page, number - 1, 1);
      RunOne(page + number - 1);
      RunIs(page, number - 1);
    }
  }

  lemma UnionSize(a: set<nat>, b: set<nat>)
    ensures |a + b| <= |a| + |b|
  {
    assert a + b == a + (b - a);
    SubsetSize(b - a, b);
  }

  /** A number that no other table of levels 1 and 2 below page n has. */
  function TableKey(info: Info, n: nat): nat {
    if info.level == 1 then info.base / 0x800_0000 else n / 0x800_0000 + 1 + info.base / 0x4_0000
  }

  lemma KeyIsUnique(mem: Ram, root: nat, t: Tables, f: nat, g: nat, n: nat)
    requires Tree(mem, root, t) && f in t && g in t && 1 <= t[f].level <= 2 && 1 <= t[g].level <= 2
    requires t[f].base < n && t[g].base < n && TableKey(t[f], n) == TableKey(t[g], n)
    ensures f == g
  {
    hide Tree;
    TableOf(mem, root, t, f);
    TableOf(mem, root, t, g);
    KeyGivesBase(t[f], t[g], n);
    BaseInTable(t[f]);
    UniqueTable(mem, root, t, f, g, t[f].base);
  }

  lemma KeyGivesBase(a: Info, b: Info, n: nat)
    requires Placed(a) && Placed(b) && 1 <= a.level <= 2 && 1 <= b.level <= 2 && a.base < n && b.base < n
    requires TableKey(a, n) == TableKey(b, n)
    ensures a.level == b.level && a.base == b.base
  {
    assert a.base / 0x800_0000 <= n / 0x800_0000 && b.base / 0x800_0000 <= n / 0x800_0000;
  }

  lemma KeyBelow(info: Info, n: nat)
    requires 1 <= info.level <= 2 && info.base < n
    ensures TableKey(info, n) < n / 0x800_0000 + n / 0x4_0000 + 2
  {
  }

  lemma NewTablesBound(s: Snapshot, boot: Tables, n: nat)
    requires Tree(s.mem, s.space.root, s.space.tables) && Grows(boot, s.space.tables, 0, n, 2)
    ensures |s.space.tables.Keys - boot.Keys| <= n / 0x800_0000 + n / 0x4_0000 + 2
  {
    hide Tree, TableKey, TablePages;
    var t := s.space.tables;
    var added := t.Keys - boot.Keys;
    var key := map g | g in added :: TableKey(t[g], n);
    forall g | g in added
      ensures key[g] < n / 0x800_0000 + n / 0x4_0000 + 2
    {
      KeyBelow(t[g], n);
    }
    forall f, g | f in added && g in added && key[f] == key[g]
      ensures f == g
    {
      KeyIsUnique(s.mem, s.space.root, t, f, g, n);
    }
    KeysBound(added, key, n / 0x800_0000 + n / 0x4_0000 + 2);
  }

  lemma KernelHasRoom(s: Snapshot, reserved: set<nat>, mmuSpace: nat, kernelEnd: nat, size: nat)
    requires mmuSpace + 2 < PAGE_LIMIT && KernelState(s, reserved, mmuSpace, size / PAGE_SIZE)
    requires reserved == ReservedPages(kernelEnd, size)
    requires size % RegionSize(2) == 0 && PERIPHERIALS_END <= size && size / PAGE_SIZE < UINT32
    ensures kernelEnd <= size / 2 ==> !NoFit(s.claimed, size / PAGE_SIZE, 1, 1)
  {
    hide Tree, ReservedPages, NoFit;
    var n := size / PAGE_SIZE;
    var boot := BootSpace(mmuSpace, mmuSpace + 1, mmuSpace + 2);
    var added := s.space.tables.Keys - boot.tables.Keys;
    NewTablesBound(s, boot.tables, n);
    ReservedSize(kernelEnd, size);
    assert s.claimed == reserved + added;
    UnionSize(reserved, added);
    if kernelEnd <= size / 2 && NoFit(s.claimed, n, 1, 1) {
      AllOfThem(s.claimed, n);
      RunSize(0, n);
      SubsetSize(Run(0, n), s.claimed);
      RoomArithmetic(kernelEnd, size);
    }
  }

  lemma AllOfThem(claimed: set<nat>, n: nat)
    requires NoFit(claimed, n, 1, 1)
    ensures Run(0, n) <= claimed
  {
    forall p | p in Run(0, n)
      ensures p in claimed
    {
      assert !Fits(claimed, n, 1, p);
      assert Run(p, 1) == {p};
    }
  }

  lemma ReservedSize(kernelEnd: nat, size: nat)
    ensures |ReservedPages(kernelEnd, size)| <= AlignUp(kernelEnd, PAGE_SIZE) / PAGE_SIZE + BitmapPages(size) + 0x1_0000
  {
    hide Run, AlignUp, BitmapPages;
    var image := AlignUp(kernelEnd, PAGE_SIZE) / PAGE_SIZE;
    RunSize(image, BitmapPages(size));
    RunSize(0, image);
    RunSize(PERIPHERIALS_START / PAGE_SIZE, 0x1_0000);
    UnionSize(Run(image, BitmapPages(size)), Run(0, image));
    UnionSize(Run(image, BitmapPages(size)) + Run(0, image), Run(PERIPHERIALS_START / PAGE_SIZE, 0x1_0000));
  }

  lemma RoomArithmetic(kernelEnd: nat, size: nat)
    requires size % RegionSize(2) == 0 && PERIPHERIALS_END <= size && kernelEnd <= size / 2
    ensures
      var n := size / PAGE_SIZE;
      AlignUp(kernelEnd, PAGE_SIZE) / PAGE_SIZE + BitmapPages(size) + 0x1_0000 + n / 0x800_0000 + n / 0x4_0000 + 2 < n
  {
    hide AlignUp;
    AlignUpIsLeast(kernelEnd, PAGE_SIZE);
    AlignUpIsLeast(8 * (size / PAGE_SIZE / 64), PAGE_SIZE);
  }

  lemma BlockRange(va: nat, size: nat)
    requires va % RegionSize(2) == 0 && size % RegionSize(2) == 0
    ensures va % PAGE_SIZE == 0 && size % PAGE_SIZE == 0
    ensures size > 0 ==> TableLevel(va, size) == 2
    ensures size == 0 ==> TableLevel(va, size) == 3
  {
    FactorDivides(va, 512, PAGE_SIZE);
    FactorDivides(size, 512, PAGE_SIZE);
  }

  lemma InitGeometry(size: nat, kernelEnd: nat)
    requires size % RegionSize(2) == 0 && PERIPHERIALS_END <= size && size / PAGE_SIZE + BLOCK_PAGES <= UINT32
    requires 0 < AlignUp(kernelEnd, PAGE_SIZE) / PAGE_SIZE
    requires AlignUp(kernelEnd, PAGE_SIZE) / PAGE_SIZE + BitmapPages(size) <= size / PAGE_SIZE
    ensures
      var image, pages := AlignUp(KERNEL_SPACE_MASK + kernelEnd, PAGE_SIZE), AlignUp(kernelEnd, PAGE_SIZE) / PAGE_SIZE;
      var n := size / PAGE_SIZE;
      var end := AlignUp(image + 8 * (n / 64), PAGE_SIZE);
      && n % 64 == 0 && n / 64 * 64 == n && n >= 0x10_0000 && image % PAGE_SIZE == 0 && BitmapPages(size) > 0
      && AlignUp(kernelEnd, PAGE_SIZE) % PAGE_SIZE == 0
      && image % KERNEL_SPACE / PAGE_SIZE % UINT32 == pages
      && AlignUp(kernelEnd, PAGE_SIZE) % KERNEL_SPACE / PAGE_SIZE % UINT32 == pages
      && end % KERNEL_SPACE / PAGE_SIZE % UINT32 == pages + BitmapPages(size)
  {
    hide AlignUp;
    var n, k := size / PAGE_SIZE, AlignUp(kernelEnd, PAGE_SIZE);
    var b := AlignUp(8 * (n / 64), PAGE_SIZE);
    AlignUpIsLeast(kernelEnd, PAGE_SIZE);
    AlignUpIsLeast(8 * (n / 64), PAGE_SIZE);
    AlignUpShift(KERNEL_SPACE_MASK, kernelEnd, PAGE_SIZE);
    AlignUpShift(KERNEL_SPACE_MASK + k, 8 * (n / 64), PAGE_SIZE);
    KernelPage(k / PAGE_SIZE);
    KernelPage(k / PAGE_SIZE + b / PAGE_SIZE);
    SizeInPages(size);
  }

  lemma SizeInPages(size: nat)
    requires size % RegionSize(2) == 0
    ensures size / PAGE_SIZE % 64 == 0 && size / PAGE_SIZE / 64 * 64 == size / PAGE_SIZE
  {
    var q := size / RegionSize(2);
    DivUnique(size, PAGE_SIZE, 512 * q, 0);
    DivUnique(512 * q, 64, 8 * q, 0);
  }

  lemma KernelPage(page: nat)
    requires page < UINT32
    ensures (KERNEL_SPACE_MASK + page * PAGE_SIZE) % KERNEL_SPACE / PAGE_SIZE % UINT32 == page
    ensures page * PAGE_SIZE % KERNEL_SPACE / PAGE_SIZE % UINT32 == page
    ensures (KERNEL_SPACE_MASK + page * PAGE_SIZE) % PAGE_SIZE == 0
  {
    DivUnique(KERNEL_SPACE_MASK + page * PAGE_SIZE, KERNEL_SPACE, 0xFFFF, page * PAGE_SIZE);
  }

  lemma BootInImage(size: nat, kernelEnd: nat, mmuSpace: nat)
    requires mmuSpace + 2 < AlignUp(kernelEnd, PAGE_SIZE) / PAGE_SIZE
    ensures {mmuSpace, mmuSpace + 1, mmuSpace + 2} <= ReservedPages(kernelEnd, size)
  {
  }

  lemma KernelMapped(s0: Snapshot, s1: Snapshot, s2: Snapshot, s3: Snapshot, size: nat)
    requires size % RegionSize(2) == 0 && PERIPHERIALS_END <= size
    requires forall v :: 0 <= v < PAGE_LIMIT ==>
               s0.At(v) == if v < 0x4_0000 then Mapped(v, MEMORY_TYPE_NORMAL_NO_CACHE) else Unmapped
    requires RemapsRange(s0, s1, 0, PERIPHERIALS_START / PAGE_SIZE, MEMORY_TYPE_NORMAL_NO_CACHE, MapOneToOne)
    requires RemapsRange(s1, s2, PERIPHERIALS_START / PAGE_SIZE, PERIPHERIALS_END / PAGE_SIZE, MEMORY_TYPE_DEVICE, MapOneToOne)
    requires RemapsRange(s2, s3, PERIPHERIALS_END / PAGE_SIZE, size / PAGE_SIZE, MEMORY_TYPE_NORMAL_NO_CACHE, MapOneToOne)
    ensures forall v :: 0 <= v < PAGE_LIMIT ==> s3.At(v) == KernelMap(v, size)
  {
    hide Translate;
    forall v | 0 <= v < PAGE_LIMIT
      ensures s3.At(v) == KernelMap(v, size)
    {
      var a, b, c := PERIPHERIALS_START / PAGE_SIZE, PERIPHERIALS_END / PAGE_SIZE, size / PAGE_SIZE;
      assert Remaps(s0.At(v), s1.At(v), v, 0 <= v < a, MEMORY_TYPE_NORMAL_NO_CACHE, MapOneToOne, s0.claimed);
      assert Remaps(s1.At(v), s2.At(v), v, a <= v < b, MEMORY_TYPE_DEVICE, MapOneToOne, s1.claimed);
      assert Remaps(s2.At(v), s3.At(v), v, b <= v < c, MEMORY_TYPE_NORMAL_NO_CACHE, MapOneToOne, s2.claimed);
    }
  }

  /** The regions that the kernel maps start on a block boundary, so the byte count of memory_mmu_insert
      does no harm to them. */
  lemma KernelRegionsHarmless(size: nat)
    requires PERIPHERIALS_END <= size
    ensures ByteCountHarmless(0, PERIPHERIALS_START)
    ensures ByteCountHarmless(PERIPHERIALS_START, PERIPHERIALS_END - PERIPHERIALS_START)
    ensures ByteCountHarmless(PERIPHERIALS_END, size - PERIPHERIALS_END)
  {
    InsertGeometry(0, 0);
    InsertGeometry(PERIPHERIALS_START, 0);
    InsertGeometry(PERIPHERIALS_END, 0);
  }
}
