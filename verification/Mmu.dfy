/** The page-table manager: it edits the tables in physical memory in place. */
module Mmu {
  import opened Arithmetic
  import opened Descriptor
  import opened FrameSet
  import opened PageTree
  import opened AddressSpace
  import opened Allocator
  import opened Supply
  import opened Teardown
  import opened InsertCalls
  import opened FarSplits
  import opened MmuFacts
  import opened WrittenFacts

  /** mem is physical memory as far as it holds tables. A table pointer is the number of its frame: the
      kernel-space bits of a pointer are dropped when it is stored in a descriptor and set when it is
      read back. A method returns false (or None) when a claim came back NULL; the source has no
      branch for that and the model stops there. */
  class Mmu {
    var mem: Ram
    const allocator: Allocator
    /** The calls of s_pages_dealloc so far. */
    ghost var released: seq<Release>
    /** The calls of mmu_map_units that were completed so far. */
    ghost var mapped: seq<Call>

    ghost predicate Valid() {
      allocator.Valid() && allocator.pageSize == PAGE_SIZE && allocator.Total() + BLOCK_PAGES <= UINT32
    }

    ghost function Snap(space: Space): Snapshot
      reads this, allocator.bitmap
    {
      Snapshot(mem, allocator.Set(), space)
    }

    /** No single page is left, or, when outputs are claimed as well, no aligned block. */
    ghost predicate OutOfMemory(mode: MapType)
      reads allocator.bitmap
    {
      || NoFit(allocator.Set(), allocator.Total(), 1, 1)
      || (mode.MapAlloc? && NoFit(allocator.Set(), allocator.Total(), BLOCK_PAGES, BLOCK_PAGES))
    }

    constructor (allocator: Allocator, mem: Ram)
      requires allocator.Valid() && allocator.pageSize == PAGE_SIZE && allocator.Total() + BLOCK_PAGES <= UINT32
      ensures Valid() && this.allocator == allocator && this.mem == mem
    {
      this.allocator := allocator;
      this.mem := mem;
      this.released := [];
      this.mapped := [];
    }

    /** memory_mmu_create_table. */
    method CreateTable() returns (table: Option<nat>)
      requires Valid()
      modifies this`mem, allocator.bitmap
      ensures table.None? ==> OutOfMemory(MapOneToOne) && mem == old(mem) && allocator.Set() == old(allocator.Set())
      ensures table.Some? ==>
                && table.value < PAGE_LIMIT && table.value !in old(allocator.Set())
                && allocator.Set() == old(allocator.Set()) + {table.value}
                && mem == old(mem)[table.value := EMPTY_TABLE]
                && |mem[table.value]| == 512 && forall j :: 0 <= j < 512 ==> mem[table.value][j] == 0
      ensures table.Some? ==> FirstFit(old(allocator.Set()), allocator.Total(), 1, 1, table.value)
      ensures Spends(old(allocator.Set()), allocator.Set(), allocator.Total(), 1)
    {
      hide Claimed, FirstFit, NoFit, Settled, Spends;
      var address := allocator.ClaimPages(1, 1);
      if address.None? {
        SpendsNone(allocator.Set(), allocator.Total());
        SpendsMore(allocator.Set(), allocator.Set(), allocator.Total(), 0, 1);
        return None;
      }
      ghost var page :| address.value == page * PAGE_SIZE
                        && FirstFit(old(allocator.Set()), allocator.Total(), 1, 1, page)
                        && allocator.Set() == old(allocator.Set()) + Run(page, 1);
      FitBounds(old(allocator.Set()), allocator.Total(), 1, 1, page);
      RunOne(page);
      SpendsPage(old(allocator.Set()), allocator.Total(), page);
      var frame := address.value / PAGE_SIZE;
      mem := mem[frame := EMPTY_TABLE];
      return Some(frame);
    }

    /** mmu_create_table_entry. */
    method CreateTableEntry(f: nat, i: nat, level: nat, next: nat)
      requires f in mem && i < |mem[f]| && level < 3 && next < PAGE_LIMIT
      modifies this`mem
      ensures mem == WriteWord(old(mem), f, i, TableWord(next * PAGE_SIZE)) && Decode(mem[f][i], level) == Table(next)
    {
      hide Decode, TableWord;
      TableRoundTrip(next, level);
      mem := WriteWord(mem, f, i, TableWord(next * PAGE_SIZE));
    }

    /** mmu_create_block_entry. */
    method CreateBlockEntry(f: nat, i: nat, level: nat, address: Word, memoryType: nat)
      requires f in mem && i < |mem[f]| && (level == 1 || level == 2)
      modifies this`mem
      ensures mem == WriteWord(old(mem), f, i, BlockWord(level, address, memoryType))
      ensures memoryType < 8 && address % RegionSize(level) == 0 && address / PAGE_SIZE < PAGE_LIMIT ==>
                Decode(mem[f][i], level) == Leaf(address / PAGE_SIZE, memoryType)
    {
      hide Decode, BlockWord;
      if memoryType < 8 && address % RegionSize(level) == 0 && address / PAGE_SIZE < PAGE_LIMIT {
        PagesOfRegion(level, address);
        BlockRoundTrip(level, address / PAGE_SIZE, memoryType);
      }
      mem := WriteWord(mem, f, i, BlockWord(level, address, memoryType));
    }

    /** mmu_create_page_entry. */
    method CreatePageEntry(f: nat, i: nat, level: nat, address: Word, memoryType: nat)
      requires f in mem && i < |mem[f]| && level == 3
      modifies this`mem
      ensures mem == WriteWord(old(mem), f, i, PageWord(address, memoryType))
      ensures memoryType < 8 && address % PAGE_SIZE == 0 && address / PAGE_SIZE < PAGE_LIMIT ==>
                Decode(mem[f][i], level) == Leaf(address / PAGE_SIZE, memoryType)
    {
      hide Decode, PageWord;
      if memoryType < 8 && address % PAGE_SIZE == 0 && address / PAGE_SIZE < PAGE_LIMIT {
        PageRoundTrip(address / PAGE_SIZE, memoryType);
      }
      mem := WriteWord(mem, f, i, PageWord(address, memoryType));
    }

    /** The loops of mmu_split_block_entry: one leaf for each part of the run of pages at base, of whose
        addresses the descriptors keep the low 48 bits. */
    method FillWithParts(g: nat, level: nat, base: nat, memoryType: nat, ghost page: nat)
      requires g in mem && |mem[g]| == ENTRIES && (level == 1 || level == 2) && memoryType < 8
      requires base % KERNEL_SPACE == page * PAGE_SIZE && base + RegionSize(level) <= 0x1_0000_0000_0000_0000
      requires page % SlotPages(level) == 0 && page + SlotPages(level) <= PAGE_LIMIT
      modifies this`mem
      ensures g in mem && |mem[g]| == ENTRIES && mem == old(mem)[g := mem[g]]
      ensures forall j :: 0 <= j < ENTRIES ==>
                Decode(mem[g][j], level + 1) == Leaf(page + j * SlotPages(level + 1), memoryType)
    {
      hide Decode, PageWord, BlockWord;
      var nextLevel := level + 1;
      var unit := 0;
      while unit < ENTRIES
        invariant unit <= ENTRIES
        invariant g in mem && |mem[g]| == ENTRIES && mem == old(mem)[g := mem[g]]
        invariant forall j :: 0 <= j < unit ==>
          Decode(mem[g][j], nextLevel) == Leaf(page + j * SlotPages(nextLevel), memoryType)
      {
        PartWord(base, level, unit, page, memoryType);
        if nextLevel == 1 || nextLevel == 2 {
          CreateBlockEntry(g, unit, nextLevel, base + unit * RegionSize(nextLevel), memoryType);
        } else {
          CreatePageEntry(g, unit, nextLevel, base + unit * RegionSize(nextLevel), memoryType);
        }
        unit := unit + 1;
      }
    }

    /** mmu_split_block_entry, with the shifts of the base address at 64 bits. */
    method SplitBlockEntry(f: nat, i: nat, level: nat, ghost space: Space, ghost mode: MapType)
      returns (table: Option<nat>, ghost space': Space)
      requires Valid() && Good(Snap(space), mode)
      requires f in space.tables && space.tables[f].level == level < 3 && i < ENTRIES
      requires f in mem && |mem[f]| == ENTRIES && Decode(mem[f][i], level).Leaf?
      modifies this`mem, allocator.bitmap
      ensures table.None? ==> OutOfMemory(MapOneToOne) && Snap(space') == old(Snap(space))
      ensures table.Some? ==>
                && Advance(old(Snap(space)), Snap(space'), 0, 0, 0, mode)
                && table.value !in space.tables
                && space'.tables == space.tables[table.value := ChildInfo(space.tables[f], f, i)]
                && FirstFit(old(allocator.Set()), allocator.Total(), 1, 1, table.value)
                && allocator.Set() == old(allocator.Set()) + {table.value}
    {
      hide Good, Advance, Decode, NoFit, Claimed, TableWord, ChildInfo, SlotPages, FirstFit;
      ghost var before := Snap(space);
      table := CreateTable();
      space' := space;
      if table.None? {
        return;
      }
      var g := table.value;
      FreshFrame(before, mode, g, f);
      var entry := mem[f][i];
      LeafFields(entry, level);
      var memoryType := MemoryType(entry);
      var base := BlockOutput(entry, level) * PAGE_SIZE;
      BlockBase(BlockOutput(entry, level), level);
      CreateTableEntry(f, i, level, g);
      FillWithParts(g, level, base, memoryType, BlockOutput(entry, level));
      space' := space.(tables := space.tables[g := ChildInfo(space.tables[f], f, i)]);
      SplitStep(before, Snap(space'), f, i, g, mode);
    }

    /** mmu_split_block_entry as written: the base address is shifted as an int. moves says that the parts lead
        to other pages than the block; that happens exactly between the first and the last 2 GB. */
    method SplitBlockEntryAsWritten(f: nat, i: nat, level: nat, ghost space: Space, ghost mode: MapType)
      returns (table: Option<nat>, moves: bool, ghost space': Space)
      requires Valid() && Good(Snap(space), mode)
      requires f in space.tables && space.tables[f].level == level < 3 && i < ENTRIES
      requires f in mem && |mem[f]| == ENTRIES && Decode(mem[f][i], level).Leaf?
      modifies this`mem, allocator.bitmap
      ensures Decode(old(mem[f][i]), level).page < PAGE_LIMIT
      ensures table.None? ==> OutOfMemory(MapOneToOne) && Snap(space') == old(Snap(space)) && !moves
      ensures table.Some? ==>
                var s, block := old(Snap(space)), Decode(old(mem[f][i]), level);
                && Tree(mem, space.root, space'.tables) && space'.root == space.root && table.value !in space.tables
                && space'.tables == space.tables[table.value := ChildInfo(space.tables[f], f, i)]
                && allocator.Set() == old(allocator.Set()) + {table.value}
                && FirstFit(old(allocator.Set()), allocator.Total(), 1, 1, table.value)
                && (forall v :: 0 <= v < PAGE_LIMIT && !InSlot(space.tables[f], i, v) ==> Snap(space').At(v) == s.At(v))
                && (forall v :: 0 <= v < PAGE_LIMIT && InSlot(space.tables[f], i, v) ==>
                      Snap(space').At(v) ==
                      Mapped(SplitPageAsWritten(block.page) + (v - SlotBase(space.tables[f].base, level, i)), block.attr))
                && ((forall v :: 0 <= v < PAGE_LIMIT ==> Snap(space').At(v) == s.At(v)) <==> !moves)
                && (moves <==> Far(block.page))
      ensures table.Some? && !moves ==> Advance(old(Snap(space)), Snap(space'), 0, 0, 0, mode)
      ensures Spends(old(allocator.Set()), allocator.Set(), allocator.Total(), 1)
    {
      hide Good, Advance, Decode, NoFit, Claimed, TableWord, ChildInfo, SlotPages, SplitBaseAsWritten, SplitPageAsWritten;
      hide Tree, InSlot, SlotBase, Translate, Spends, FirstFit;
      ghost var before := Snap(space);
      var entry := mem[f][i];
      LeafFields(entry, level);
      table := CreateTable();
      space' := space;
      if table.None? {
        return table, false, space';
      }
      var g := table.value;
      FreshFrame(before, mode, g, f);
      var memoryType := MemoryType(entry);
      var base := SplitBaseAsWritten(BlockOutput(entry, level) * PAGE_SIZE);
      SplitBase(BlockOutput(entry, level), level);
      CreateTableEntry(f, i, level, g);
      ghost var page := SplitPageAsWritten(BlockOutput(entry, level));
      FillWithParts(g, level, base, memoryType, page);
      space' := space.(tables := space.tables[g := ChildInfo(space.tables[f], f, i)]);
      TreeOf(before, mode);
      SplitInto(before, Snap(space'), f, i, g, page, memoryType);
      SplitKeepsIff(before, Snap(space'), f, i, page);
      SplitPageIff(BlockOutput(entry, level));
      moves := SplitPageAsWritten(BlockOutput(entry, level)) != BlockOutput(entry, level);
      if !moves {
        SplitStep(before, Snap(space'), f, i, g, mode);
      }
    }

    /** The body of the loop of mmu_traverse_and_alloc_tables: to the table of the next level that covers page v. */
    method StepDown(table: nat, idx: nat, level: nat, ghost v: nat, ghost destination: nat, ghost space: Space,
        ghost mode: MapType)
      returns (ok: bool, next: nat, ghost space': Space)
      requires Valid() && Good(Snap(space), mode) && table in space.tables && idx < ENTRIES && v < PAGE_LIMIT
      requires space.tables[table].level == level < destination <= 3 && InSlot(space.tables[table], idx, v)
      modifies this`mem, allocator.bitmap
      ensures !ok ==> OutOfMemory(MapOneToOne)
      ensures Advance(old(Snap(space)), Snap(space'), 0, 0, 0, mode)
      ensures Grows(space.tables, space'.tables, v, v + 1, destination)
      ensures Supplied(old(Snap(space)), Snap(space'), v, v + 1, v, allocator.Total(), mode)
      ensures ok ==>
                && next in space'.tables && space'.tables[next].level == level + 1 && InTable(space'.tables[next], v)
                && space'.tables[next].base == SlotBase(space.tables[table].base, level, idx)
    {
      hide Good, Advance, Decode, NoFit, Claimed, TableWord, ChildInfo, InTable, InSlot, Placed, SlotBase;
      hide ValidBit, DescriptorBit, NextTable, Grows, Tree, Translate, Supplied, FirstFit;
      ghost var here, info := Snap(space), space.tables[table];
      TableAt(here, mode, table);
      SlotKinds(here, mode, table, idx);
      ChildCovers(info, table, idx, v);
      AdvanceNone(here, 0, 0, mode);
      GrowsNone(space.tables, v, v + 1, destination);
      SuppliedSelf(here, v, v + 1, v, allocator.Total(), mode);
      space' := space;
      var w := mem[table][idx];
      if ValidBit(w) == 0 {
        var newTable := CreateTable();
        if newTable.None? {
          return false, table, space';
        }
        next := newTable.value;
        FreshFrame(here, mode, next, table);
        CreateTableEntry(table, idx, level, next);
        space' := space.(tables := space.tables[next := ChildInfo(info, table, idx)]);
        TableStep(here, Snap(space'), table, idx, next, mode);
      } else if DescriptorBit(w) == 1 {
        return true, GetSubtable(mem, table, idx), space';
      } else {
        var newTable;
        newTable, space' := SplitBlockEntry(table, idx, level, space', mode);
        if newTable.None? {
          return false, table, space';
        }
        next := newTable.value;
      }
      GrowsOne(space.tables, space'.tables, next, v, v, v + 1, destination);
      SuppliedTable(here, Snap(space'), next, v, allocator.Total(), mode);
      return true, next, space';
    }

    /** mmu_traverse_and_alloc_tables from the level-0 table: on the way down missing tables are created
        and blocks are split, and no translation changes, whether the slot is reached or not. */
    method TraverseAndAllocTables(root: nat, address: nat, destination: nat, ghost space: Space, ghost mode: MapType)
      returns (entry: Option<EntryInfo>, ghost space': Space)
      requires Valid() && Good(Snap(space), mode) && space.root == root
      requires address / PAGE_SIZE < PAGE_LIMIT && 1 <= destination <= 3
      modifies this`mem, allocator.bitmap
      ensures entry.None? ==> OutOfMemory(mode)
      ensures Advance(old(Snap(space)), Snap(space'), 0, 0, 0, mode)
      ensures Grows(space.tables, space'.tables, address / PAGE_SIZE, address / PAGE_SIZE + 1, destination)
      ensures
        var v := address / PAGE_SIZE;
        Supplied(old(Snap(space)), Snap(space'), v, v + 1, v, allocator.Total(), mode)
      ensures entry.Some? ==>
                && IsSlot(space', entry.value, destination)
                && InSlot(space'.tables[entry.value.table], entry.value.idx, address / PAGE_SIZE)
    {
      hide Good, Advance, NoFit, Claimed, InTable, InSlot, Placed, RegionSize, SlotBase, SlotOf, Grows, Extends;
      hide Translate, Supplied, NoneBefore;
      ghost var before, v, total := Snap(space), address / PAGE_SIZE, allocator.Total();
      space' := space;
      var table := root;
      var level: nat := 0;
      var current := address;
      AdvanceNone(before, 0, 0, mode);
      GrowsNone(space.tables, v, v + 1, destination);
      SuppliedSelf(before, v, v + 1, v, total, mode);
      RootCovers(before, mode, v);
      while level < destination
        invariant level <= destination && Advance(before, Snap(space'), 0, 0, 0, mode)
        invariant Grows(space.tables, space'.tables, v, v + 1, destination)
        invariant Supplied(before, Snap(space'), v, v + 1, v, total, mode)
        invariant table in space'.tables && space'.tables[table].level == level && InTable(space'.tables[table], v)
        invariant current == address - space'.tables[table].base * PAGE_SIZE
      {
        ghost var here := Snap(space');
        GoodAfter(before, here, 0, 0, 0, mode);
        IndexOfPage(here, mode, table, address);
        var idx := current / RegionSize(level);
        current := current % RegionSize(level);
        var ok;
        ok, table, space' := StepDown(table, idx, level, v, destination, space', mode);
        AdvanceThen(before, here, Snap(space'), 0, 0, 0, 0, mode);
        GrowsThen(space.tables, here.space.tables, space'.tables, v, v + 1, v, v + 1, destination, destination);
        SuppliedThen(before, here, Snap(space'), v, v + 1, v, v, v + 1, v, total, mode);
        if !ok {
          return None, space';
        }
        level := level + 1;
      }
      GoodAfter(before, Snap(space'), 0, 0, 0, mode);
      IndexOfPage(Snap(space'), mode, table, address);
      return Some(EntryInfo(table, current / RegionSize(level), level)), space';
    }

    /** One step down with the split as written, through the slot of page v. moves is reported exactly when the
        page is mapped by a far block above the destination level. */
    method StepDownAsWritten(table: nat, idx: nat, level: nat, ghost v: nat, ghost destination: nat,
                             ghost space: Space, ghost mode: MapType)
      returns (outcome: Outcome, next: nat, ghost space': Space)
      requires Valid() && Good(Snap(space), mode) && table in space.tables && idx < ENTRIES && v < PAGE_LIMIT
      requires space.tables[table].level == level < destination <= 3 && InSlot(space.tables[table], idx, v)
      modifies this`mem, allocator.bitmap
      ensures outcome.Complete? || outcome.NoFrame? || outcome.Moves?
      ensures outcome.NoFrame? ==> OutOfMemory(mode)
      ensures outcome.Moves? ==> SplitsFar(old(Snap(space)), v, destination)
      ensures !outcome.Moves? ==>
                && Advance(old(Snap(space)), Snap(space'), 0, 0, 0, mode)
                && Grows(space.tables, space'.tables, v, v + 1, destination)
                && Spends(old(allocator.Set()), allocator.Set(), allocator.Total(), 1)
                && Supplied(old(Snap(space)), Snap(space'), v, v + 1, v, allocator.Total(), mode)
      ensures outcome.Complete? ==>
                && next in space'.tables && space'.tables[next].level == level + 1 && InTable(space'.tables[next], v)
                && space'.tables[next].base == SlotBase(space.tables[table].base, level, idx)
                && (FarAt(old(Snap(space)), v) ==> space' == space)
    {
      hide Good, Advance, Decode, NoFit, Claimed, TableWord, ChildInfo, InTable, InSlot, Placed, SlotBase;
      hide ValidBit, DescriptorBit, NextTable, Grows, Spends, SplitPageAsWritten, Tree, Far, Covered, Translate, Supplied;
      hide FirstFit;
      ghost var here, info := Snap(space), space.tables[table];
      TableAt(here, mode, table);
      SlotKinds(here, mode, table, idx);
      ChildCovers(info, table, idx, v);
      SuppliedSelf(here, v, v + 1, v, allocator.Total(), mode);
      space' := space;
      var w := mem[table][idx];
      if ValidBit(w) == 0 {
        EmptySlot(here, mode, table, idx, v);
        var newTable := CreateTable();
        if newTable.None? {
          AdvanceNone(here, 0, 0, mode);
          GrowsNone(space.tables, v, v + 1, destination);
          return NoFrame, table, space';
        }
        next := newTable.value;
        FreshFrame(here, mode, next, table);
        CreateTableEntry(table, idx, level, next);
        space' := space.(tables := space.tables[next := ChildInfo(info, table, idx)]);
        TableStep(here, Snap(space'), table, idx, next, mode);
        GrowsOne(space.tables, space'.tables, next, v, v, v + 1, destination);
        SuppliedTable(here, Snap(space'), next, v, allocator.Total(), mode);
      } else if DescriptorBit(w) == 1 {
        next := GetSubtable(mem, table, idx);
        AdvanceNone(here, 0, 0, mode);
        GrowsNone(space.tables, v, v + 1, destination);
        SpendsNone(here.claimed, allocator.Total());
        SpendsMore(here.claimed, here.claimed, allocator.Total(), 0, 1);
      } else {
        FarLeaf(here, mode, table, idx, v, destination);
        var newTable, moves;
        newTable, moves, space' := SplitBlockEntryAsWritten(table, idx, level, space', mode);
        if newTable.None? {
          AdvanceNone(here, 0, 0, mode);
          GrowsNone(space.tables, v, v + 1, destination);
          return NoFrame, table, space';
        }
        next := newTable.value;
        if moves {
          return Moves, next, space';
        }
        GrowsOne(space.tables, space'.tables, next, v, v, v + 1, destination);
        SuppliedTable(here, Snap(space'), next, v, allocator.Total(), mode);
      }
      return Complete, next, space';
    }

    /** mmu_traverse_and_alloc_tables with the split as written. It ends early when a split moves pages, exactly
        when the page is mapped by a far block above the destination level; last is the state before that split. */
    method TraverseAndAllocTablesAsWritten(root: nat, address: nat, destination: nat, ghost space: Space, ghost mode: MapType)
      returns (outcome: Outcome, entry: EntryInfo, ghost space': Space, ghost last: Snapshot)
      requires Valid() && Good(Snap(space), mode) && space.root == root
      requires address / PAGE_SIZE < PAGE_LIMIT && 1 <= destination <= 3
      modifies this`mem, allocator.bitmap
      ensures outcome.Complete? || outcome.NoFrame? || outcome.Moves?
      ensures outcome.NoFrame? ==> OutOfMemory(mode)
      ensures !outcome.NoFrame? ==> (outcome.Moves? <==> SplitsFar(old(Snap(space)), address / PAGE_SIZE, destination))
      ensures !outcome.Moves? ==> last == Snap(space')
      ensures Advance(old(Snap(space)), last, 0, 0, 0, mode)
      ensures Grows(space.tables, last.space.tables, address / PAGE_SIZE, address / PAGE_SIZE + 1, destination)
      ensures Spends(old(allocator.Set()), last.claimed, allocator.Total(), destination)
      ensures
        var v := address / PAGE_SIZE;
        Supplied(old(Snap(space)), last, v, v + 1, v, allocator.Total(), mode)
      ensures outcome.Complete? ==>
                && IsSlot(space', entry, destination)
                && InSlot(space'.tables[entry.table], entry.idx, address / PAGE_SIZE)
    {
      hide Good, Advance, NoFit, Claimed, InTable, InSlot, Placed, RegionSize, SlotBase;
      hide SlotOf, Grows, Spends, Far, Covered, Translate, Extends, Supplied, NoneBefore;
      ghost var before, v, total := Snap(space), address / PAGE_SIZE, allocator.Total();
      space' := space;
      last := before;
      entry := EntryInfo(root, 0, 0);
      var table := root;
      var level: nat := 0;
      var current := address;
      AdvanceNone(before, 0, 0, mode);
      GrowsNone(space.tables, v, v + 1, destination);
      SpendsNone(before.claimed, total);
      SuppliedSelf(before, v, v + 1, v, total, mode);
      RootCovers(before, mode, v);
      while level < destination
        invariant level <= destination && last == Snap(space') && Advance(before, last, 0, 0, 0, mode)
        invariant Grows(space.tables, space'.tables, v, v + 1, destination)
        invariant Spends(before.claimed, last.claimed, total, level) && Supplied(before, last, v, v + 1, v, total, mode)
        invariant table in space'.tables && space'.tables[table].level == level && InTable(space'.tables[table], v)
        invariant current == address - space'.tables[table].base * PAGE_SIZE
        invariant FarAt(before, v) ==> space' == space
      {
        ghost var here := Snap(space');
        GoodAfter(before, here, 0, 0, 0, mode);
        IndexOfPage(here, mode, table, address);
        SameAt(before, here, mode, v, destination);
        var idx := current / RegionSize(level);
        current := current % RegionSize(level);
        outcome, table, space' := StepDownAsWritten(table, idx, level, v, destination, space', mode);
        if outcome.Moves? {
          SpendsMore(before.claimed, here.claimed, total, level, destination);
          return outcome, entry, space', here;
        }
        last := Snap(space');
        AdvanceThen(before, here, last, 0, 0, 0, 0, mode);
        GrowsThen(space.tables, here.space.tables, space'.tables, v, v + 1, v, v + 1, destination, destination);
        SpendsThen(before.claimed, here.claimed, last.claimed, total, level, 1);
        SuppliedThen(before, here, last, v, v + 1, v, v, v + 1, v, total, mode);
        if outcome.NoFrame? {
          SpendsMore(before.claimed, last.claimed, total, level + 1, destination);
          return outcome, entry, space', last;
        }
        level := level + 1;
      }
      GoodAfter(before, last, 0, 0, 0, mode);
      IndexOfPage(last, mode, table, address);
      CoveredBy(space'.tables, table, v);
      return Complete, EntryInfo(table, current / RegionSize(level), level), space', last;
    }

    /** The physical-space callbacks of memory.c: claim aligned pages, or take the virtual address. */
    method GetPhysSpace(mode: MapType, virtAddr: nat, pageCount: nat, align: nat) returns (address: Option<nat>)
      requires Valid() && pageCount == align && (align == 1 || align == BLOCK_PAGES)
      modifies allocator.bitmap
      ensures mode.MapOneToOne? ==> address == Some(virtAddr) && allocator.Set() == old(allocator.Set())
      ensures address.None? ==> OutOfMemory(mode) && allocator.Set() == old(allocator.Set())
      ensures mode.MapAlloc? && address.Some? ==>
                var page := address.value / PAGE_SIZE;
                && address.value == page * PAGE_SIZE && page % align == 0 && page < PAGE_LIMIT
                && Run(page, pageCount) !! old(allocator.Set())
                && FirstFit(old(allocator.Set()), allocator.Total(), pageCount, align, page)
                && allocator.Set() == old(allocator.Set()) + Run(page, pageCount)
      ensures pageCount == 1 ==> Spends(old(allocator.Set()), allocator.Set(), allocator.Total(), 1)
    {
      hide Claimed, FirstFit, NoFit, Run, Settled, Spends, PowerOfTwo;
      SpendsNone(allocator.Set(), allocator.Total());
      SpendsMore(allocator.Set(), allocator.Set(), allocator.Total(), 0, 1);
      match mode
      case MapOneToOne =>
        address := Some(virtAddr);
      case MapAlloc =>
        BlockPagesPower();
        address := allocator.ClaimPages(pageCount, align);
        if address.Some? {
          ghost var page :| address.value == page * PAGE_SIZE
                            && FirstFit(old(allocator.Set()), allocator.Total(), pageCount, align, page)
                            && allocator.Set() == old(allocator.Set()) + Run(page, pageCount);
          FitBounds(old(allocator.Set()), allocator.Total(), pageCount, align, page);
          if pageCount == 1 {
            RunOne(page);
            SpendsPage(old(allocator.Set()), allocator.Total(), page);
          }
        }
    }

    /** The same with the search as written. overlaps says that it claimed frames that were claimed already. */
    method GetPhysSpaceAsWritten(mode: MapType, virtAddr: nat, pageCount: nat, align: nat)
      returns (address: Option<nat>, overlaps: bool)
      requires Valid() && pageCount == align && (align == 1 || align == BLOCK_PAGES)
      modifies allocator.bitmap
      ensures overlaps <==> mode.MapAlloc? && !ClaimHarmless(old(allocator.Set()), allocator.Total(), pageCount, align)
      ensures mode.MapOneToOne? ==> address == Some(virtAddr) && allocator.Set() == old(allocator.Set())
      ensures address.None? ==> OutOfMemory(mode) && allocator.Set() == old(allocator.Set()) && !overlaps
      ensures mode.MapAlloc? && address.Some? ==>
                var page := address.value / PAGE_SIZE;
                && address.value == page * PAGE_SIZE && page % align == 0 && page < PAGE_LIMIT
                && FirstFit(Seen(old(allocator.Set()), pageCount, align), allocator.Total(), pageCount, align, page)
                && (FirstFit(old(allocator.Set()), allocator.Total(), pageCount, align, page) <==> !overlaps)
                && (Run(page, pageCount) !! old(allocator.Set()) <==> !overlaps)
                && allocator.Set() == old(allocator.Set()) + Run(page, pageCount)
      ensures !overlaps ==>
                Spends(old(allocator.Set()), allocator.Set(), allocator.Total(), if pageCount == 1 then 1 else 0)
    {
      hide Claimed, FirstFit, NoFit, Run, Settled, Spends, ClaimHarmless, Seen, PowerOfTwo;
      SpendsNone(allocator.Set(), allocator.Total());
      SpendsMore(allocator.Set(), allocator.Set(), allocator.Total(), 0, 1);
      overlaps := false;
      match mode
      case MapOneToOne =>
        address := Some(virtAddr);
      case MapAlloc =>
        BlockPagesPower();
        address, overlaps := allocator.ClaimPagesAsWritten(pageCount, align);
        if address.Some? {
          ghost var page :| address.value == page * PAGE_SIZE
                            && FirstFit(Seen(old(allocator.Set()), pageCount, align), allocator.Total(), pageCount, align, page)
                            && (FirstFit(old(allocator.Set()), allocator.Total(), pageCount, align, page) <==> !overlaps)
                            && allocator.Set() == old(allocator.Set()) + Run(page, pageCount);
          FitBounds(Seen(old(allocator.Set()), pageCount, align), allocator.Total(), pageCount, align, page);
          ClaimedRun(old(allocator.Set()), allocator.Total(), pageCount, align, page);
          if !overlaps {
            SpendsClaim(old(allocator.Set()), allocator.Total(), pageCount, page);
          }
        }
    }

    /** create_memory_entry(..., get_phys_space(&request), memory_type) on an empty slot. */
    method CreateUnit(f: nat, i: nat, level: nat, virtAddr: nat, memoryType: nat, mode: MapType, ghost space: Space)
      returns (ok: bool, ghost space': Space)
      requires Valid() && Good(Snap(space), mode) && memoryType < 8
      requires IsSlot(space, EntryInfo(f, i, level), level) && 2 <= level <= 3
      requires f in mem && |mem[f]| == ENTRIES && mem[f][i] == MMU_EMPTY_ENTRY
      requires mode.MapOneToOne? ==> virtAddr == SlotBase(space.tables[f].base, level, i) * PAGE_SIZE
      modifies this`mem, allocator.bitmap
      ensures space'.tables == space.tables
      ensures !ok ==> OutOfMemory(mode) && Snap(space') == old(Snap(space))
      ensures ok ==> f in mem && |mem[f]| == ENTRIES && Decode(mem[f][i], level).Leaf?
      ensures ok ==>
                var lo := SlotBase(space.tables[f].base, level, i);
                Advance(old(Snap(space)), Snap(space'), lo, lo + SlotPages(level), memoryType, mode)
      ensures
        var lo := SlotBase(space.tables[f].base, level, i);
        Supplied(old(Snap(space)), Snap(space'), lo, lo + SlotPages(level), lo + SlotPages(level), allocator.Total(), mode)
      ensures level == 3 ==> Spends(old(allocator.Set()), allocator.Set(), allocator.Total(), 1)
    {
      hide Good, Advance, OutOfMemory, Claimed, Run, Backing, SlotBase, PageWord, BlockWord, Decode, Spends, Supplied, FirstFit;
      ghost var before, lo, total := Snap(space), SlotBase(space.tables[f].base, level, i), allocator.Total();
      space' := space;
      SlotAligned(before, mode, f, i);
      SuppliedSelf(before, lo, lo + SlotPages(level), lo + SlotPages(level), total, mode);
      var address := GetPhysSpace(mode, virtAddr, SlotPages(level), SlotPages(level));
      if address.None? {
        return false, space';
      }
      var page := address.value / PAGE_SIZE;
      if level == 3 {
        CreatePageEntry(f, i, level, address.value, memoryType);
      } else {
        CreateBlockEntry(f, i, level, address.value, memoryType);
      }
      if mode.MapAlloc? {
        space' := space.(outputs := space.outputs + Backing(page, SlotPages(level), SlotBase(space.tables[f].base, level, i)));
      }
      LeafRoundTrip(level, page, memoryType);
      CreateStep(before, Snap(space'), f, i, page, memoryType, mode);
      if mode.MapAlloc? {
        SlotOfTable(before, mode, f, i);
        SuppliedUnit(before, Snap(space'), page, SlotPages(level), lo, memoryType, total);
      } else {
        SuppliedNone(before, Snap(space'), lo, lo + SlotPages(level), memoryType, lo, lo + SlotPages(level),
                     lo + SlotPages(level), total, mode);
      }
      return true, space';
    }

    /** The same with the search as written. When it overlaps, nothing is said about the block. */
    method CreateUnitAsWritten(f: nat, i: nat, level: nat, virtAddr: nat, memoryType: nat, mode: MapType, ghost space: Space)
      returns (outcome: Outcome, ghost space': Space)
      requires Valid() && Good(Snap(space), mode) && memoryType < 8
      requires IsSlot(space, EntryInfo(f, i, level), level) && 2 <= level <= 3
      requires f in mem && |mem[f]| == ENTRIES && mem[f][i] == MMU_EMPTY_ENTRY
      requires mode.MapOneToOne? ==> virtAddr == SlotBase(space.tables[f].base, level, i) * PAGE_SIZE
      modifies this`mem, allocator.bitmap
      ensures space'.tables == space.tables && (outcome.Complete? || outcome.NoFrame? || outcome.Overlaps?)
      ensures outcome.Overlaps? <==>
              mode.MapAlloc? && level == 2 && !NarrowHarmless(old(allocator.Set()), allocator.Total(), BLOCK_PAGES, BLOCK_PAGES)
      ensures outcome.NoFrame? ==> OutOfMemory(mode) && Snap(space') == old(Snap(space))
      ensures outcome.Complete? ==>
                var lo := SlotBase(space.tables[f].base, level, i);
                && Advance(old(Snap(space)), Snap(space'), lo, lo + SlotPages(level), memoryType, mode)
                && Supplied(old(Snap(space)), Snap(space'), lo, lo + SlotPages(level), lo + SlotPages(level),
                  allocator.Total(), mode)
      ensures outcome.Complete? ==>
                Spends(old(allocator.Set()), allocator.Set(), allocator.Total(), UnitSingles(1, level, false))
    {
      hide Good, Advance, OutOfMemory, Claimed, Run, Backing, SlotBase, PageWord, BlockWord, Decode, Spends, NarrowHarmless;
      hide Supplied, FirstFit, Seen;
      ghost var before, lo, total := Snap(space), SlotBase(space.tables[f].base, level, i), allocator.Total();
      space' := space;
      SlotAligned(before, mode, f, i);
      var address, overlaps := GetPhysSpaceAsWritten(mode, virtAddr, SlotPages(level), SlotPages(level));
      if address.None? {
        return NoFrame, space';
      }
      var page := address.value / PAGE_SIZE;
      if level == 3 {
        CreatePageEntry(f, i, level, address.value, memoryType);
      } else {
        CreateBlockEntry(f, i, level, address.value, memoryType);
      }
      if overlaps {
        return Overlaps, space';
      }
      if mode.MapAlloc? {
        space' := space.(outputs := space.outputs + Backing(page, SlotPages(level), SlotBase(space.tables[f].base, level, i)));
      }
      LeafRoundTrip(level, page, memoryType);
      CreateStep(before, Snap(space'), f, i, page, memoryType, mode);
      if mode.MapAlloc? {
        SlotOfTable(before, mode, f, i);
        SuppliedUnit(before, Snap(space'), page, SlotPages(level), lo, memoryType, total);
      } else {
        SuppliedNone(before, Snap(space'), lo, lo + SlotPages(level), memoryType, lo, lo + SlotPages(level),
                     lo + SlotPages(level), total, mode);
      }
      return Complete, space';
    }

    /** mmu_is_same_memory_type and mmu_override_memory_type on a leaf; only bits 2..4 of its word change. */
    method RetypeEntry(f: nat, i: nat, memoryType: nat, ghost space: Space, ghost mode: MapType)
      requires Valid() && Good(Snap(space), mode) && memoryType < 8
      requires f in space.tables && i < ENTRIES
      requires f in mem && |mem[f]| == ENTRIES && Decode(mem[f][i], space.tables[f].level).Leaf?
      modifies this`mem
      ensures
        var lo := SlotBase(space.tables[f].base, space.tables[f].level, i);
        Advance(old(Snap(space)), Snap(space), lo, lo + SlotPages(space.tables[f].level), memoryType, mode)
      ensures
        && f in mem && |mem[f]| == ENTRIES && mem == WriteWord(old(mem), f, i, mem[f][i])
        && mem[f][i] / 0x20 == old(mem[f][i]) / 0x20 && mem[f][i] % 4 == old(mem[f][i]) % 4
    {
      hide Good, Advance, Decode, Claimed, OverrideWord, SlotBase, SlotPages, MemoryType;
      OverrideKeepsAddress(mem[f][i], space.tables[f].level, memoryType);
      if MemoryType(mem[f][i]) != memoryType {
        OverrideStep(Snap(space), f, i, memoryType, mode);
        mem := WriteWord(mem, f, i, OverrideWord(mem[f][i], memoryType));
      } else {
        KeepStep(Snap(space), f, i, memoryType, mode);
        assert mem[f][i := mem[f][i]] == mem[f];
      }
    }

    /** The inner loop of mmu_map_units: the holes of a level-3 table get pages, its other entries get
        the memory type. When a claim fails, the pages before reached are done. */
    method FillTable(pages: nat, virtAddr: nat, memoryType: nat, mode: MapType, ghost space: Space)
      returns (ok: bool, ghost space': Space, ghost reached: nat)
      requires Valid() && Good(Snap(space), mode) && memoryType < 8
      requires pages in space.tables && space.tables[pages].level == 3
      requires
        var lo := space.tables[pages].base;
        mode.MapOneToOne? ==> virtAddr == lo * PAGE_SIZE || AllMapped(Snap(space), lo, lo + ENTRIES)
      modifies this`mem, allocator.bitmap
      ensures space'.tables == space.tables && (!ok ==> OutOfMemory(mode))
      ensures
        var lo := space.tables[pages].base;
        && lo <= reached <= lo + ENTRIES && (ok ==> reached == lo + ENTRIES)
        && Advance(old(Snap(space)), Snap(space'), lo, reached, memoryType, mode)
        && Supplied(old(Snap(space)), Snap(space'), lo, lo + 512, lo + 512, allocator.Total(), mode)
      ensures Spends(old(allocator.Set()), allocator.Set(), allocator.Total(), ENTRIES)
    {
      hide Good, Advance, OutOfMemory, Claimed, Decode, TypeBits, ValidBit, DescriptorBit, NextTable, MemoryType, AllMapped;
      hide Spends, Supplied, NoneBefore;
      ghost var before, total := Snap(space), allocator.Total();
      ghost var info := space.tables[pages];
      space' := space;
      var pageAddr := virtAddr;
      var l3Idx: nat := 0;
      AdvanceNone(before, info.base, memoryType, mode);
      SpendsNone(before.claimed, allocator.Total());
      SuppliedSelf(before, info.base, info.base, info.base, total, mode);
      SameTables(space.tables, info.base);
      while l3Idx < ENTRIES
        invariant l3Idx <= ENTRIES && pageAddr == virtAddr + l3Idx * PAGE_SIZE
        invariant Advance(before, Snap(space'), info.base, info.base + l3Idx, memoryType, mode)
        invariant space'.tables == space.tables
        invariant Spends(before.claimed, allocator.Set(), allocator.Total(), l3Idx)
        invariant Supplied(before, Snap(space'), info.base, info.base + l3Idx, info.base + l3Idx, total, mode)
      {
        ghost var here := Snap(space');
        reached := info.base + l3Idx;
        SameTables(space.tables, reached);
        GoodAfter(before, here, info.base, reached, memoryType, mode);
        TableAt(here, mode, pages);
        SlotKinds(here, mode, pages, l3Idx);
        var l3Entry := mem[pages][l3Idx];
        if TypeBits(l3Entry) == MMU_EMPTY_ENTRY {
          HoleIsPlain(before, here, mode, pages, l3Idx, memoryType, virtAddr);
          ok, space' := CreateUnit(pages, l3Idx, 3, pageAddr, memoryType, mode, space');
          SpendsThen(before.claimed, here.claimed, allocator.Set(), allocator.Total(), l3Idx, 1);
          SuppliedThen(before, here, Snap(space'), info.base, reached, reached, reached, reached + 1, reached + 1, total, mode);
          if !ok {
            SpendsMore(before.claimed, allocator.Set(), allocator.Total(), l3Idx + 1, ENTRIES);
            SuppliedWider(before, Snap(space'), info.base, reached + 1, reached + 1, info.base + 512,
              info.base + 512, total, mode);
            return;
          }
        } else {
          RetypeEntry(pages, l3Idx, memoryType, space', mode);
          SpendsMore(before.claimed, allocator.Set(), allocator.Total(), l3Idx, l3Idx + 1);
          SuppliedNone(here, Snap(space'), reached, reached + 1, memoryType, reached, reached + 1, reached + 1, total, mode);
          SuppliedThen(before, here, Snap(space'), info.base, reached, reached, reached, reached + 1, reached + 1, total, mode);
        }
        AdvanceThen(before, here, Snap(space'), info.base, reached, reached + 1, memoryType, mode);
        pageAddr := pageAddr + PAGE_SIZE;
        l3Idx := l3Idx + 1;
      }
      return true, space', info.base + ENTRIES;
    }

    /** The body of the unit loop of mmu_map_units: an empty slot becomes one page or one block. The
        subtable of a level-2 slot is taken from the slot itself (unit_number). */
    method MapUnit(f: nat, i: nat, level: nat, requestedAddr: nat, memoryType: nat, mode: MapType, ghost space: Space)
      returns (ok: bool, ghost space': Space, ghost reached: nat)
      requires Valid() && Good(Snap(space), mode) && memoryType < 8
      requires IsSlot(space, EntryInfo(f, i, level), level) && 2 <= level <= 3
      requires mode.MapOneToOne? ==> requestedAddr == SlotBase(space.tables[f].base, level, i) * PAGE_SIZE
      modifies this`mem, allocator.bitmap
      ensures f in old(mem) && |old(mem[f])| == ENTRIES
      ensures ok && old(mem[f][i]) == MMU_EMPTY_ENTRY ==> f in mem && |mem[f]| == ENTRIES && Decode(mem[f][i], level).Leaf?
      ensures space'.tables == space.tables && (!ok ==> OutOfMemory(mode))
      ensures
        var lo := SlotBase(space.tables[f].base, level, i);
        && lo <= reached <= lo + SlotPages(level) && (ok ==> reached == lo + SlotPages(level))
        && Advance(old(Snap(space)), Snap(space'), lo, reached, memoryType, mode)
        && Supplied(old(Snap(space)), Snap(space'), lo, lo + SlotPages(level), lo + SlotPages(level), allocator.Total(), mode)
    {
      hide Good, Advance, OutOfMemory, Claimed, Decode, TypeBits, ValidBit, DescriptorBit, NextTable, Supplied;
      ghost var before := Snap(space);
      TableAt(Snap(space), mode, f);
      SlotKinds(Snap(space), mode, f, i);
      var entry := mem[f][i];
      space' := space;
      ghost var lo := SlotBase(space.tables[f].base, level, i);
      reached := lo;
      AdvanceNone(Snap(space), lo, memoryType, mode);
      if entry != MMU_EMPTY_ENTRY {
        if level != 3 && TypeBits(entry) == MMU_TABLE_ENTRY {
          var pages := GetSubtable(mem, f, i);
          ok, space', reached := FillTable(pages, requestedAddr, memoryType, mode, space);
        } else {
          RetypeEntry(f, i, memoryType, space, mode);
          ok, reached := true, lo + SlotPages(level);
          SuppliedNone(before, Snap(space), lo, reached, memoryType, lo, reached, reached, allocator.Total(), mode);
        }
      } else {
        ok, space' := CreateUnit(f, i, level, requestedAddr, memoryType, mode, space);
        reached := if ok then lo + SlotPages(level) else lo;
      }
    }

    /** The unit loop of mmu_map_units. */
    method MapBatch(entry: EntryInfo, unitCount: nat, address: nat, memoryType: nat, mode: MapType,
                    ghost before: Snapshot, ghost lo: nat, ghost space: Space)
      returns (ok: bool, ghost space': Space, ghost reached: nat)
      requires Valid() && memoryType < 8 && 2 <= entry.level <= 3
      requires IsSlot(space, entry, entry.level) && entry.idx + unitCount <= ENTRIES
      requires
        var at := SlotBase(space.tables[entry.table].base, entry.level, entry.idx);
        && lo <= at && Advance(before, Snap(space), lo, at, memoryType, mode)
        && (mode.MapOneToOne? ==> address == at * PAGE_SIZE)
      modifies this`mem, allocator.bitmap
      ensures space'.tables == space.tables && (!ok ==> OutOfMemory(mode))
      ensures
        var base := space.tables[entry.table].base;
        var at, end := SlotBase(base, entry.level, entry.idx), SlotBase(base, entry.level, entry.idx + unitCount);
        && at <= reached <= end && (ok ==> reached == end)
        && Advance(before, Snap(space'), lo, reached, memoryType, mode)
        && Supplied(old(Snap(space)), Snap(space'), at, end, end, allocator.Total(), mode)
    {
      hide Good, Advance, OutOfMemory, Claimed, SlotBase, SlotPages, RegionSize, Supplied, NoneBefore;
      var level := entry.level;
      ghost var base, start, total := space.tables[entry.table].base, Snap(space), allocator.Total();
      ghost var at, end := SlotBase(base, level, entry.idx), SlotBase(base, level, entry.idx + unitCount);
      SuppliedSelf(start, at, at, at, total, mode);
      space' := space;
      var requestedAddr: nat := address;
      var unitNumber: nat := entry.idx;
      SlotBaseMono(base, level, entry.idx, entry.idx + unitCount);
      while unitNumber < unitCount + entry.idx
        invariant space'.tables == space.tables && entry.idx <= unitNumber <= unitCount + entry.idx
        invariant mode.MapOneToOne? ==> requestedAddr == SlotBase(base, level, unitNumber) * PAGE_SIZE
        invariant SlotBase(base, level, entry.idx) <= SlotBase(base, level, unitNumber)
        invariant Advance(before, Snap(space'), lo, SlotBase(base, level, unitNumber), memoryType, mode)
        invariant
          var from := SlotBase(base, level, unitNumber);
          Supplied(start, Snap(space'), at, from, from, total, mode)
      {
        ghost var unit := Snap(space');
        ghost var from := SlotBase(base, level, unitNumber);
        GoodAfter(before, unit, lo, from, memoryType, mode);
        SlotBaseStep(base, level, unitNumber, 1);
        SlotBaseMono(base, level, unitNumber + 1, unitCount + entry.idx);
        ok, space', reached := MapUnit(entry.table, unitNumber, level, requestedAddr, memoryType, mode, space');
        AdvanceThen(before, unit, Snap(space'), lo, from, reached, memoryType, mode);
        SameTables(space.tables, from);
        ghost var next := SlotBase(base, level, unitNumber + 1);
        SuppliedThen(start, unit, Snap(space'), at, from, from, from, next, next, total, mode);
        if !ok {
          SuppliedWider(start, Snap(space'), at, next, next, end, end, total, mode);
          return;
        }
        requestedAddr := requestedAddr + RegionSize(level);
        unitNumber := unitNumber + 1;
      }
      return true, space', SlotBase(base, level, entry.idx + unitCount);
    }

    /** One iteration of the outer loop of mmu_map_units: the units of one table. */
    method MapTable(root: nat, address: nat, offset: nat, memoryType: nat, count: nat, destination: nat,
                    mode: MapType, ghost number: nat, ghost before: Snapshot, ghost space: Space)
      returns (ok: bool, unitCount: nat, ghost space': Space, ghost reached: nat)
      requires Valid() && before.space.root == root && memoryType < 8 && 0 < count <= number
      requires 2 <= destination <= 3 && (mode.MapOneToOne? ==> address % RegionSize(destination) == 0)
      requires EndUnit(address, number, destination) <= PAGE_LIMIT && offset == UnitBytes(number - count, destination)
      requires MappedUnits(before, Snap(space), address, number - count, number, destination, allocator.Total(),
        memoryType, mode)
      modifies this`mem, allocator.bitmap
      ensures !ok ==> OutOfMemory(mode)
      ensures ok ==>
                && 0 < unitCount <= count
                && MappedUnits(before, Snap(space'), address, number - count + unitCount, number, destination,
                               allocator.Total(), memoryType, mode)
      ensures
        var lo, hi := FirstUnit(address, destination), EndUnit(address, number, destination);
        && EndUnit(address, number - count, destination) <= reached <= hi
        && Advance(before, Snap(space'), lo, reached, memoryType, mode)
        && Grows(before.space.tables, space'.tables, lo, hi, destination)
        && Supplied(before, Snap(space'), lo, hi, hi, allocator.Total(), mode)
    {
      hide Good, Advance, OutOfMemory, Claimed, SlotBase, SlotPages, RegionSize, Grows, FirstUnit, EndUnit, UnitBytes;
      hide Supplied, Covered;
      ghost var total, done, here := allocator.Total(), number - count, Snap(space);
      ghost var lo, at := FirstUnit(address, destination), EndUnit(address, done, destination);
      ghost var hi, v := EndUnit(address, number, destination), (address + offset) / PAGE_SIZE;
      GoodAfter(before, here, lo, at, memoryType, mode);
      UnitsDone(address, done, destination);
      UnitsInside(address, done, number, destination);
      unitCount := 0;
      var found;
      found, space' := TraverseAndAllocTables(root, address + offset, destination, space, mode);
      ghost var there := Snap(space');
      reached := at;
      AdvanceAnywhere(here, there, 0, at, 0, memoryType, mode);
      AdvanceThen(before, here, there, lo, at, at, memoryType, mode);
      GrowsThen(before.space.tables, here.space.tables, there.space.tables, lo, hi, v, v + 1, destination, destination);
      GoodAfter(before, there, lo, at, memoryType, mode);
      SuppliedTables(before, here, there, lo, at, v, destination, total, mode);
      if found.None? {
        SuppliedWider(before, there, lo, at + 1, at, hi, hi, total, mode);
        return false, unitCount, space', reached;
      }
      var entry := found.value;
      SlotStart(there, mode, entry.table, entry.idx, v);
      unitCount := Min(ENTRIES - entry.idx, count);
      BatchEnd(space'.tables[entry.table].base, destination, entry.idx, unitCount, address, done, number);
      ok, space', reached := MapBatch(entry, unitCount, address + offset, memoryType, mode, before, lo, space');
      ghost var end := EndUnit(address, done + unitCount, destination);
      BatchCovers(there, mode, entry.table, entry.idx, unitCount, v, end);
      SuppliedUnits(before, there, Snap(space'), lo, at, end, total, mode);
      SuppliedWider(before, Snap(space'), lo, end, end, hi, hi, total, mode);
    }

    /** mmu_map_units from the level-0 table, with units of the destination level. In MapAlloc mode the
        address may lie anywhere in its first unit, which is mapped as a whole. When a claim fails, the
        pages before reached are mapped. */
    method MapUnits(root: nat, address: nat, memoryType: nat, number: nat, destination: nat, mode: MapType, ghost space: Space)
      returns (ok: bool, ghost space': Space, ghost reached: nat)
      requires Valid() && Good(Snap(space), mode) && space.root == root && memoryType < 8
      requires 2 <= destination <= 3 && (mode.MapOneToOne? ==> address % RegionSize(destination) == 0)
      requires EndUnit(address, number, destination) <= PAGE_LIMIT
      modifies this`mem, this`mapped, allocator.bitmap
      ensures ok ==> mapped == old(mapped) + [Call(address, number, destination)]
      ensures !ok ==> OutOfMemory(mode)
      ensures
        var lo, hi := FirstUnit(address, destination), EndUnit(address, number, destination);
        && lo <= reached <= hi && (ok ==> reached == hi)
        && Advance(old(Snap(space)), Snap(space'), lo, reached, memoryType, mode)
        && Grows(space.tables, space'.tables, lo, hi, destination)
        && Supplied(old(Snap(space)), Snap(space'), lo, hi, hi, allocator.Total(), mode)
        && (ok && lo < hi ==> Covered(space'.tables, hi - 1, destination))
    {
      hide Good, Advance, OutOfMemory, Claimed, SlotPages, RegionSize, Grows, FirstUnit, EndUnit, UnitBytes, Supplied, Covered;
      hide MappedUnits;
      ghost var before, total := Snap(space), allocator.Total();
      space' := space;
      var count: nat := number;
      var offset: nat := 0;
      UnitsNone(address, number, destination);
      NoMappedUnits(before, address, number, destination, total, memoryType, mode);
      while count > 0
        invariant mapped == old(mapped)
        invariant count <= number && offset == UnitBytes(number - count, destination)
        invariant MappedUnits(before, Snap(space'), address, number - count, number, destination, total, memoryType, mode)
      {
        UnitsStep(address, 0, number - count, number, destination);
        var unitCount;
        ok, unitCount, space', reached :=
          MapTable(root, address, offset, memoryType, count, destination, mode, number, before, space');
        if !ok {
          return;
        }
        UnitsStep(address, number - count, unitCount, number, destination);
        offset := offset + unitCount * RegionSize(destination);
        count := count - unitCount;
      }
      AllMappedUnits(before, Snap(space'), address, number, destination, total, memoryType, mode);
      mapped := mapped + [Call(address, number, destination)];
      return true, space', EndUnit(address, number, destination);
    }

    /** The body of the unit loop as written: the subtable is taken from the first slot of the batch
        (table_data.idx), and mmu_get_subtable asserts that this slot holds a table. A later slot with a table
        is left as it is. */
    method MapUnitAsWritten(f: nat, first: nat, i: nat, level: nat, requestedAddr: nat, memoryType: nat, mode: MapType,
                            ghost space: Space)
      returns (outcome: Outcome, ghost space': Space, ghost reached: nat)
      requires Valid() && Good(Snap(space), mode) && memoryType < 8
      requires IsSlot(space, EntryInfo(f, i, level), level) && 2 <= level <= 3 && first <= i
      requires mode.MapOneToOne? ==> requestedAddr == SlotBase(space.tables[f].base, level, i) * PAGE_SIZE
      requires
        var lo := SlotBase(space.tables[f].base, level, first);
        level == 2 && first < i ==>
          forall v :: lo <= v < lo + 512 && v < PAGE_LIMIT ==> Snap(space).At(v).Mapped? && Snap(space).At(v).attr == memoryType
      modifies this`mem, allocator.bitmap
      ensures f in old(mem) && |old(mem[f])| == ENTRIES && !outcome.Moves?
      ensures space'.tables == space.tables && (outcome.NoFrame? ==> OutOfMemory(mode))
      ensures
        var later := level == 2 && first < i && Decode(old(mem[f][i]), level).Table?;
        var lo := SlotBase(space.tables[f].base, level, i);
        && (outcome.NoSubtable? <==> later && !Decode(old(mem[f][first]), level).Table?)
        && lo <= reached <= (if later then lo else lo + SlotPages(level))
        && (outcome.Complete? ==> reached == if later then lo else lo + SlotPages(level))
        && (AsMeant(outcome) ==>
              && Advance(old(Snap(space)), Snap(space'), lo, reached, memoryType, mode)
              && Supplied(old(Snap(space)), Snap(space'), lo, lo + SlotPages(level), lo + SlotPages(level),
                allocator.Total(), mode))
      ensures outcome.Overlaps? <==>
              && mode.MapAlloc? && level == 2 && old(mem[f][i]) == MMU_EMPTY_ENTRY
              && !NarrowHarmless(old(allocator.Set()), allocator.Total(), 512, 512)
      ensures AsMeant(outcome) ==>
                var tables := Decode(old(mem[f][i]), level).Table?;
                Spends(old(allocator.Set()), allocator.Set(), allocator.Total(), UnitSingles(1, level, tables))
    {
      hide Good, Advance, OutOfMemory, Claimed, Decode, TypeBits, ValidBit, DescriptorBit, NextTable, SlotBase, Spends;
      hide NarrowHarmless, Supplied;
      ghost var start := Snap(space);
      TableAt(Snap(space), mode, f);
      SlotKinds(Snap(space), mode, f, i);
      SlotKinds(Snap(space), mode, f, first);
      var entry := mem[f][i];
      space' := space;
      ghost var lo, claimed, total := SlotBase(space.tables[f].base, level, i), allocator.Set(), allocator.Total();
      reached := lo;
      AdvanceNone(Snap(space), lo, memoryType, mode);
      SpendsNothing(claimed, total, level, Decode(entry, level).Table?);
      SuppliedSelf(start, lo, lo + SlotPages(level), lo + SlotPages(level), total, mode);
      if entry != MMU_EMPTY_ENTRY {
        if level != 3 && TypeBits(entry) == MMU_TABLE_ENTRY {
          if TypeBits(mem[f][first]) != MMU_TABLE_ENTRY {
            return NoSubtable, space', lo;
          }
          var pages := GetSubtable(mem, f, first);
          ghost var before := Snap(space);
          var ok;
          ok, space', reached := FillTable(pages, requestedAddr, memoryType, mode, space);
          outcome := if ok then Complete else NoFrame;
          if first < i {
            ghost var base := space.tables[pages].base;
            NothingNew(before, Snap(space'), base, reached, memoryType, mode, lo);
            NothingClaimedFor(before, Snap(space'), lo, memoryType, mode);
            SuppliedNone(before, Snap(space'), lo, lo, memoryType, lo, lo + SlotPages(level), lo + SlotPages(level),
              total, mode);
            reached := lo;
          }
        } else {
          RetypeEntry(f, i, memoryType, space, mode);
          outcome, reached := Complete, lo + SlotPages(level);
          SuppliedNone(start, Snap(space), lo, reached, memoryType, lo, reached, reached, total, mode);
        }
      } else {
        outcome, space' := CreateUnitAsWritten(f, i, level, requestedAddr, memoryType, mode, space);
        reached := if outcome.Complete? then lo + SlotPages(level) else lo;
      }
    }

    /** The unit loop of mmu_map_units as written, behind the units that are done and the single pages that
        were claimed for them. */
    method MapBatchAsWritten(entry: EntryInfo, unitCount: nat, address: nat, memoryType: nat, mode: MapType,
                             ghost before: Snapshot, ghost lo: nat, ghost hi: nat, ghost spent: nat, ghost space: Space)
      returns (outcome: Outcome, ghost space': Space, ghost reached: set<nat>, ghost last: Snapshot)
      requires Valid() && memoryType < 8 && 2 <= entry.level <= 3
      requires IsSlot(space, entry, entry.level) && entry.idx + unitCount <= ENTRIES
      requires
        var at := SlotBase(space.tables[entry.table].base, entry.level, entry.idx);
        && lo <= at && (entry.level == 2 && lo < at ==> entry.idx == 0)
        && SlotBase(space.tables[entry.table].base, entry.level, entry.idx + unitCount) <= hi
        && Grows(before.space.tables, space.tables, lo, hi, entry.level)
        && (mode.MapOneToOne? ==> address == at * PAGE_SIZE)
        && BatchAsWritten(before, Snap(space), Complete, ReachedPages(before.space.tables, lo, at, entry.level), lo, at,
                          entry.level, allocator.Total(), spent, memoryType, mode)
      modifies this`mem, allocator.bitmap
      ensures space'.tables == space.tables && !outcome.Moves? && (outcome.NoFrame? ==> OutOfMemory(mode))
      ensures last.space.tables == space.tables && (AsMeant(outcome) ==> last == Snap(space'))
      ensures
        var end := SlotBase(space.tables[entry.table].base, entry.level, entry.idx + unitCount);
        var more := UnitSingles(unitCount, entry.level, HoldsTables(before.space.tables, lo, hi));
        BatchAsWritten(before, last, outcome, reached, lo, end, entry.level, allocator.Total(), spent + more, memoryType, mode)
      ensures
        var base := space.tables[entry.table].base;
        var at, end := SlotBase(base, entry.level, entry.idx), SlotBase(base, entry.level, entry.idx + unitCount);
        Supplied(old(Snap(space)), last, at, end, end, allocator.Total(), mode)
    {
      hide Good, Advance, AdvanceIn, OutOfMemory, Claimed, SlotBase, SlotPages, RegionSize, Grows, Decode;
      hide ReachedPages, Forgotten, HasTable, BatchStart, Run, Placed, Trips, Spends, NarrowHarmless, HoldsTables;
      hide Supplied, NoneBefore;
      var level := entry.level;
      ghost var start := Snap(space);
      ghost var t, base, total := before.space.tables, space.tables[entry.table].base, allocator.Total();
      ghost var tables := HoldsTables(t, lo, hi);
      ghost var at, ends := SlotBase(base, level, entry.idx), SlotBase(base, level, entry.idx + unitCount);
      SuppliedSelf(start, at, at, at, total, mode);
      space' := space;
      var requestedAddr: nat := address;
      var unitNumber: nat := entry.idx;
      while unitNumber < unitCount + entry.idx
        invariant space'.tables == space.tables && entry.idx <= unitNumber <= unitCount + entry.idx
        invariant mode.MapOneToOne? ==> requestedAddr == SlotBase(base, level, unitNumber) * PAGE_SIZE
        invariant lo <= SlotBase(base, level, unitNumber)
        invariant
          var from := SlotBase(base, level, unitNumber);
          at <= from && Supplied(start, Snap(space'), at, from, from, total, mode)
        invariant
          var at := SlotBase(base, level, unitNumber);
          BatchAsWritten(before, Snap(space'), Complete, ReachedPages(t, lo, at, level), lo, at, level, total,
                         spent + UnitSingles(unitNumber - entry.idx, level, tables), memoryType, mode)
      {
        ghost var unit := Snap(space');
        ghost var from := SlotBase(base, level, unitNumber);
        reached := ReachedPages(t, lo, from, level);
        GoodIn(before, unit, reached, memoryType, mode);
        SlotBaseStep(base, level, unitNumber, 1);
        SlotBaseMono(base, level, unitNumber + 1, unitCount + entry.idx);
        UnitOfBatch(before, unit, mode, entry.table, entry.idx, unitNumber, lo, hi, level, memoryType);
        ghost var filled, end := Decode(unit.mem[entry.table][unitNumber], level).Table?, from;
        outcome, space', end :=
          MapUnitAsWritten(entry.table, entry.idx, unitNumber, level, requestedAddr, memoryType, mode, space');
        ghost var done := unitNumber - entry.idx;
        UnitTables(t, lo, hi, from, level, filled);
        UnitSpends(before.claimed, unit.claimed, Snap(space').claimed, total, spent, done, unitCount, level, tables, filled,
                   AsMeant(outcome));
        if outcome.Overlaps? {
          SuppliedWider(start, unit, at, from, from, ends, ends, total, mode);
          return outcome, space', reached, unit;
        }
        ThenUnit(before, unit, Snap(space'), reached, from, end, memoryType, mode);
        SameTables(space.tables, from);
        ghost var next := SlotBase(base, level, unitNumber + 1);
        SuppliedThen(start, unit, Snap(space'), at, from, from, from, next, next, total, mode);
        if !outcome.Complete? {
          SuppliedWider(start, Snap(space'), at, next, next, ends, ends, total, mode);
          reached := reached + Run(from, end - from);
          if outcome.NoSubtable? {
            TripsHere(t, lo, SlotBase(base, level, unitCount + entry.idx), from);
          }
          return outcome, space', reached, Snap(space');
        }
        ReachedNext(t, lo, from, level);
        RunEmpty(from);
        TripsNext(t, lo, from, level);
        requestedAddr := requestedAddr + RegionSize(level);
        unitNumber := unitNumber + 1;
      }
      return Complete, space', ReachedPages(t, lo, SlotBase(base, level, entry.idx + unitCount), level), Snap(space');
    }

    /** One iteration of the outer loop of mmu_map_units as written: the units of one table. */
    method MapTableAsWritten(root: nat, address: nat, offset: nat, memoryType: nat, count: nat, destination: nat,
                             mode: MapType, ghost number: nat, ghost before: Snapshot, ghost space: Space)
      returns (outcome: Outcome, unitCount: nat, ghost space': Space, ghost reached: set<nat>, ghost last: Snapshot)
      requires Valid() && Good(before, mode) && before.space.root == root && memoryType < 8 && 0 < count <= number
      requires 2 <= destination <= 3 && (mode.MapOneToOne? ==> address % RegionSize(destination) == 0)
      requires EndUnit(address, number, destination) <= PAGE_LIMIT && offset == UnitBytes(number - count, destination)
      requires UnitsBefore(before, Snap(space), address, number - count, number, destination, allocator.Total(),
                           memoryType, mode)
      modifies this`mem, allocator.bitmap
      ensures outcome.NoFrame? ==> OutOfMemory(mode)
      ensures AsMeant(outcome) ==> last == Snap(space')
      ensures outcome.Complete? ==> 0 < unitCount <= count
      ensures
        var lo, hi, done := FirstUnit(address, destination), EndUnit(address, number, destination), number - count + unitCount;
        if outcome.Complete?
        then UnitsBefore(before, last, address, done, number, destination, allocator.Total(), memoryType, mode)
        else MappedAsWritten(before, last, outcome, reached, lo, hi, destination, number, allocator.Total(), memoryType, mode)
    {
      hide Good, Advance, AdvanceIn, OutOfMemory, Claimed, SlotBase, SlotPages, RegionSize, Grows, FirstUnit, EndUnit;
      hide UnitBytes, ReachedPages, Placed, BatchAsWritten, MeetsFar, SplitsFar, Spends, HoldsTables, Units;
      hide MappedAsWritten, Singles, UnitSingles, TablePages, Supplied, Covered;
      ghost var total, done := allocator.Total(), number - count;
      ghost var lo, at := FirstUnit(address, destination), EndUnit(address, done, destination);
      ghost var hi := EndUnit(address, number, destination);
      ghost var tables, here := HoldsTables(before.space.tables, lo, hi), Snap(space);
      reached := ReachedPages(before.space.tables, lo, at, destination);
      GoodUnits(before, here, lo, at, destination, total, Singles(done, destination, tables), memoryType, mode);
      UnitsDone(address, done, destination);
      UnitsInside(address, done, number, destination);
      ghost var v := (address + offset) / PAGE_SIZE;
      var entry;
      unitCount := 0;
      outcome, entry, space', last := TraverseAndAllocTablesAsWritten(root, address + offset, destination, space, mode);
      ThenTables(before, here, last, outcome, lo, at, v, hi, destination, number, done, total, tables, memoryType, mode);
      if !outcome.Complete? {
        return;
      }
      ghost var there, info := last, space'.tables[entry.table];
      SlotStart(there, mode, entry.table, entry.idx, v);
      TableAt(there, mode, entry.table);
      PageOfSlot(info, entry.idx, v);
      BatchStarts(info, entry.idx, lo, at, destination);
      unitCount := Min(ENTRIES - entry.idx, count);
      BatchEnd(info.base, destination, entry.idx, unitCount, address, done, number);
      ghost var spent := Singles(done, destination, tables) + destination;
      outcome, space', reached, last :=
        MapBatchAsWritten(entry, unitCount, address + offset, memoryType, mode, before, lo, hi, spent, space');
      ghost var end := EndUnit(address, done + unitCount, destination);
      BatchInTable(info, entry.idx, unitCount, v, end);
      BatchCovers(there, mode, entry.table, entry.idx, unitCount, v, end);
      ThenBatch(before, there, last, outcome, reached, info, lo, at, v, end, hi, destination, number, done, unitCount, total,
                tables, memoryType, mode);
    }

    /** mmu_map_units as written. The tables of a batch behind its first slot are left as they are; the
        assertion of mmu_get_subtable fails exactly when a batch has such a table and its first slot has
        none; a split moves pages exactly when one of the pages is mapped by a far block above the level; a
        claim overlaps exactly when the bitmap is not harmless before it. When it ends early, the pages in
        reached are mapped before the last step, and last is the state before it. */
    method MapUnitsAsWritten(root: nat, address: nat, memoryType: nat, number: nat, destination: nat, mode: MapType,
                             ghost space: Space)
      returns (outcome: Outcome, ghost space': Space, ghost reached: set<nat>, ghost last: Snapshot)
      requires Valid() && Good(Snap(space), mode) && space.root == root && memoryType < 8
      requires 2 <= destination <= 3 && (mode.MapOneToOne? ==> address % RegionSize(destination) == 0)
      requires EndUnit(address, number, destination) <= PAGE_LIMIT
      modifies this`mem, this`mapped, allocator.bitmap
      ensures outcome.Complete? ==> mapped == old(mapped) + [Call(address, number, destination)]
      ensures outcome.NoFrame? ==> OutOfMemory(mode)
      ensures AsMeant(outcome) ==> last == Snap(space')
      ensures
        var lo, hi := FirstUnit(address, destination), EndUnit(address, number, destination);
        MappedAsWritten(old(Snap(space)), last, outcome, reached, lo, hi, destination, number, allocator.Total(),
                        memoryType, mode)
    {
      hide Good, OutOfMemory, Claimed, SlotPages, RegionSize, FirstUnit, EndUnit, UnitBytes, UnitsBefore, MappedAsWritten;
      ghost var before, total := Snap(space), allocator.Total();
      space' := space;
      last := before;
      var count: nat := number;
      var offset: nat := 0;
      UnitsNone(address, number, destination);
      NoUnitsYet(before, address, number, destination, total, memoryType, mode);
      while count > 0
        invariant mapped == old(mapped) && last == Snap(space')
        invariant count <= number && offset == UnitBytes(number - count, destination)
        invariant UnitsBefore(before, last, address, number - count, number, destination, total, memoryType, mode)
      {
        var unitCount;
        outcome, unitCount, space', reached, last :=
          MapTableAsWritten(root, address, offset, memoryType, count, destination, mode, number, before, space');
        if !outcome.Complete? {
          return;
        }
        UnitsStep(address, number - count, unitCount, number, destination);
        offset := offset + unitCount * RegionSize(destination);
        count := count - unitCount;
      }
      AllUnits(before, last, address, number, destination, total, memoryType, mode);
      mapped := mapped + [Call(address, number, destination)];
      return Complete, space', UnitPages(before, address, number, destination), last;
    }

    /** One of the guarded calls of mmu_map_units in memory_mmu_insert, for the next part of the range. */
    method MapMore(root: nat, offset: nat, memoryType: nat, count: nat, level: nat, mode: MapType,
                   ghost before: Snapshot, ghost address: nat, ghost size: nat, ghost space: Space)
      returns (ok: bool, ghost space': Space, ghost reached: nat)
      requires Valid() && before.space.root == root && memoryType < 8 && 2 <= level <= 3
      requires count > 0 ==> offset % RegionSize(level) == 0
      requires count > 0 ==> FitsPart(Snap(space).space.tables, offset / PAGE_SIZE, count, level, address, size)
      requires MappedPart(before, Snap(space), address, size, offset / PAGE_SIZE, allocator.Total(), memoryType, mode)
      modifies this`mem, this`mapped, allocator.bitmap
      ensures ok ==> mapped == old(mapped) + CallIf(offset, count, level)
      ensures !ok ==> OutOfMemory(mode)
      ensures count == 0 ==> ok && space' == space && Snap(space) == old(Snap(space))
      ensures
        var at, end := offset / PAGE_SIZE, UnitsEnd(offset / PAGE_SIZE, count, level);
        && at <= reached <= end
        && EndedPart(before, Snap(space'), address, size, reached, allocator.Total(), memoryType, mode)
        && (ok ==> MappedPart(before, Snap(space'), address, size, end, allocator.Total(), memoryType, mode))
        && (ok && at < end ==> Covered(space'.tables, end - 1, level))
    {
      hide Good, OutOfMemory, Claimed, SlotPages, RegionSize, FirstUnit, EndUnit, UnitsEnd, MappedPart, EndedPart, FitsPart;
      hide Advance, Grows, Supplied, Covered;
      ghost var here, at, total := Snap(space), offset / PAGE_SIZE, allocator.Total();
      if count == 0 {
        NoUnits(at, level);
        EndOfPart(before, here, address, size, at, total, memoryType, mode);
        return true, space, at;
      }
      AlignedUnits(offset, count, level);
      GoodMapped(before, here, at, count, level, address, size, total, memoryType, mode);
      ok, space', reached := MapUnits(root, offset, memoryType, count, level, mode, space);
      ThenPart(before, here, Snap(space'), ok, at, reached, count, level, address, size, total, memoryType, mode);
    }

    /** The first two calls of the branch with room for a block: pages up to the block boundary, and the blocks. */
    method InsertHead(root: nat, address: nat, size: nat, gap: nat, ghost units: nat, memoryType: nat, mode: MapType,
                      ghost space: Space)
      returns (ok: bool, offset: nat, ghost space': Space, ghost reached: nat)
      requires Valid() && Good(Snap(space), mode) && space.root == root && memoryType < 8
      requires address % PAGE_SIZE == 0 && address + size <= PAGE_LIMIT * PAGE_SIZE
      requires gap == GapToBlock(address) && size >= gap + RegionSize(2)
      requires units == (size - gap) / RegionSize(2)
      modifies this`mem, this`mapped, allocator.bitmap
      ensures !ok ==> OutOfMemory(mode)
      ensures !ok ==> EndedPart(old(Snap(space)), Snap(space'), address, size, reached, allocator.Total(), memoryType, mode)
      ensures ok ==> offset == gap + units * RegionSize(2) <= size
      ensures ok ==> mapped == old(mapped) + CallIf(address, gap / PAGE_SIZE, 3) + CallIf(address + gap, units, 2)
      ensures ok ==>
                var at := (address + offset) / PAGE_SIZE;
                && MappedPart(old(Snap(space)), Snap(space'), address, size, at, allocator.Total(), memoryType, mode)
                && ((address + gap) / PAGE_SIZE < at ==> Covered(space'.tables, at - 1, 2))
    {
      hide Good, OutOfMemory, Claimed, SlotPages, CallIf, CallsIntended, GapToBlock, UnitsEnd, Follows;
      hide MappedPart, EndedPart, FitsPart, Covered, RegionSize;
      var blockSize := RegionSize(2);
      IntendedPlan(address, size);
      ghost var before, total := Snap(space), allocator.Total();
      ghost var rest := (size - (gap + units * blockSize)) / PAGE_SIZE;
      InsertParts(before, address, size, gap, units, rest, total, memoryType, mode);
      space' := space;
      offset := 0;
      var countTemp: nat := Min(size, gap) / PAGE_SIZE;
      ok, space', reached := MapMore(root, address, memoryType, countTemp, 3, mode, before, address, size, space');
      if !ok {
        return;
      }
      offset := offset + countTemp * PAGE_SIZE;
      assert offset == gap;
      countTemp := (size - offset) / blockSize;
      FitsBlocks(space'.tables, address, size, gap, units, rest);
      ok, space', reached := MapMore(root, address + offset, memoryType, countTemp, 2, mode, before, address, size, space');
      offset := offset + countTemp * blockSize;
    }

    /** The branch of memory_mmu_insert for ranges with room for a block, with the first count in pages. */
    method InsertBlocks(root: nat, address: nat, size: nat, gap: nat, memoryType: nat, mode: MapType, ghost space: Space)
      returns (ok: bool, ghost space': Space, ghost reached: nat)
      requires Valid() && Good(Snap(space), mode) && space.root == root && memoryType < 8
      requires address % PAGE_SIZE == 0 && address + size <= PAGE_LIMIT * PAGE_SIZE
      requires gap == GapToBlock(address) && size >= gap + RegionSize(2)
      modifies this`mem, this`mapped, allocator.bitmap
      ensures !ok ==> OutOfMemory(mode)
      ensures ok ==> mapped == old(mapped) + CallsIntended(address, size)
      ensures ok ==> reached == address / PAGE_SIZE + size / PAGE_SIZE
      ensures EndedPart(old(Snap(space)), Snap(space'), address, size, reached, allocator.Total(), memoryType, mode)
    {
      hide Good, OutOfMemory, Claimed, SlotPages, CallIf, CallsIntended, GapToBlock, UnitsEnd, Follows;
      hide MappedPart, EndedPart, FitsPart, Covered, RegionSize;
      IntendedPlan(address, size);
      ghost var before, total := Snap(space), allocator.Total();
      ghost var units := (size - gap) / RegionSize(2);
      ghost var rest := (size - (gap + units * RegionSize(2))) / PAGE_SIZE;
      InsertParts(before, address, size, gap, units, rest, total, memoryType, mode);
      var offset;
      ok, offset, space', reached := InsertHead(root, address, size, gap, units, memoryType, mode, space);
      if !ok {
        return;
      }
      var countTemp := (size - offset) / PAGE_SIZE;
      FitsRest(space'.tables, address, size, gap, units, rest);
      ok, space', reached := MapMore(root, address + offset, memoryType, countTemp, 3, mode, before, address, size, space');
      if !ok {
        return;
      }
      EndOfPart(before, Snap(space'), address, size, address / PAGE_SIZE + size / PAGE_SIZE, total, memoryType, mode);
      reached := address / PAGE_SIZE + size / PAGE_SIZE;
      ThreeMore(old(mapped), CallIf(address, gap / PAGE_SIZE, 3), CallIf(address + gap, units, 2),
                CallIf(address + offset, rest, 3));
    }

    /** memory_mmu_insert with the first count in pages: pages up to a block boundary, as many blocks as
        fit, pages for the rest. When a claim fails, the pages before reached are mapped. */
    method Insert(root: nat, address: nat, size: nat, memoryType: nat, mode: MapType, ghost space: Space)
      returns (ok: bool, ghost space': Space, ghost reached: nat)
      requires Valid() && Good(Snap(space), mode) && space.root == root && memoryType < 8
      requires address % PAGE_SIZE == 0 && address + size <= PAGE_LIMIT * PAGE_SIZE
      modifies this`mem, this`mapped, allocator.bitmap
      ensures !ok ==> OutOfMemory(mode)
      ensures ok ==> mapped == old(mapped) + CallsIntended(address, size)
      ensures
        var lo, hi := address / PAGE_SIZE, address / PAGE_SIZE + size / PAGE_SIZE;
        && lo <= reached <= hi && (ok ==> reached == hi)
        && Advance(old(Snap(space)), Snap(space'), lo, reached, memoryType, mode)
        && Grows(space.tables, space'.tables, lo, hi, TableLevel(address, size))
        && Supplied(old(Snap(space)), Snap(space'), lo, hi, hi, allocator.Total(), mode)
        && BlocksWhole(space.tables, space'.tables, lo, hi)
    {
      hide Good, Advance, OutOfMemory, Claimed, SlotPages, AlignUp, CallIf, CallsIntended, Grows, FirstUnit, EndUnit;
      hide TableLevel, GapToBlock, UnitsEnd, Supplied, BlocksWhole, Covered;
      var blockSize := RegionSize(2);
      var blockAddress := AlignUp(address, blockSize);
      InsertGeometry(address, size);
      if size >= blockAddress - address + blockSize {
        ok, space', reached := InsertBlocks(root, address, size, blockAddress - address, memoryType, mode, space);
      } else {
        IntendedPlan(address, size);
        WholeBlocks(address, size);
        RangeInLimit(address, size);
        AlignedUnits(address, size / PAGE_SIZE, 3);
        PagesEnd(address / PAGE_SIZE, size / PAGE_SIZE);
        ok, space', reached := MapUnits(root, address, memoryType, size / PAGE_SIZE, 3, mode, space);
        ShortIsWhole(space.tables, space'.tables, address, size);
      }
    }

    /** MapMore as written: the blocks of the range, before anything else, or a part of its pages. */
    method MapMoreAsWritten(root: nat, offset: nat, memoryType: nat, count: nat, level: nat, mode: MapType,
                            ghost before: Snapshot, ghost done: set<nat>, ghost address: nat, ghost size: nat,
                            ghost space: Space)
      returns (outcome: Outcome, ghost space': Space, ghost reached: set<nat>, ghost last: Snapshot)
      requires Valid() && Good(before, mode) && before.space.root == root && memoryType < 8 && 2 <= level <= 3
      requires count > 0 ==> offset % RegionSize(level) == 0
      requires address % PAGE_SIZE == 0
      requires count > 0 ==> IsPart(before, Snap(space), offset / PAGE_SIZE, count, level, address, size)
      requires DoneBefore(before, Snap(space), done, address, size, offset / PAGE_SIZE, allocator.Total(), memoryType, mode)
      modifies this`mem, this`mapped, allocator.bitmap
      ensures outcome.Complete? ==> mapped == old(mapped) + CallIf(offset, count, level)
      ensures outcome.NoFrame? ==> OutOfMemory(mode)
      ensures AsMeant(outcome) ==> last == Snap(space')
      ensures count == 0 ==> outcome.Complete? && last == old(Snap(space)) && reached == done
      ensures
        var end := UnitsEnd(offset / PAGE_SIZE, count, level);
        PartAsWritten(before, last, outcome, reached, address, size, end, allocator.Total(), memoryType, mode)
    {
      hide Good, OutOfMemory, Claimed, SlotPages, RegionSize, FirstUnit, EndUnit, UnitsEnd, MappedAsWritten, DoneBefore;
      hide PagesInBlocks, PartAsWritten, IsPart;
      ghost var here, at := Snap(space), offset / PAGE_SIZE;
      if count == 0 {
        NoUnits(at, level);
        PartNone(before, here, done, address, size, at, allocator.Total(), memoryType, mode);
        return Complete, space, done, here;
      }
      AlignedUnits(offset, count, level);
      GoodPart(before, here, done, at, count, level, address, size, allocator.Total(), memoryType, mode);
      outcome, space', reached, last := MapUnitsAsWritten(root, offset, memoryType, count, level, mode, space);
      PartDone(before, here, last, outcome, done, reached, at, count, level, address, size, allocator.Total(),
               memoryType, mode);
      reached := done + reached;
    }

    /** The branch of memory_mmu_insert for ranges with room for a block, as written. */
    method InsertBlocksAsWritten(root: nat, address: nat, size: nat, gap: nat, memoryType: nat, mode: MapType,
                                 ghost space: Space)
      returns (outcome: Outcome, ghost space': Space, ghost reached: set<nat>, ghost last: Snapshot)
      requires Valid() && Good(Snap(space), mode) && space.root == root && memoryType < 8
      requires address % PAGE_SIZE == 0 && address + size <= PAGE_LIMIT * PAGE_SIZE
      requires ByteCountHarmless(address, size) && gap == GapToBlock(address) && size >= gap + RegionSize(2)
      modifies this`mem, this`mapped, allocator.bitmap
      ensures outcome.Complete? ==> mapped == old(mapped) + CallsAsWritten(address, size)
      ensures outcome.NoFrame? ==> OutOfMemory(mode)
      ensures AsMeant(outcome) ==> last == Snap(space')
      ensures InsertedAsWritten(old(Snap(space)), last, outcome, reached, address, size, allocator.Total(), memoryType, mode)
    {
      hide Good, OutOfMemory, Claimed, SlotPages, Uint32, Minus64, CallIf, CallsAsWritten, ByteCountHarmless;
      hide UnitsEnd, GapToBlock, Follows, InsertedAsWritten, DoneBefore, PagesInBlocks, IsPart;
      var blockSize := RegionSize(2);
      HarmlessPlan(address, size);
      ghost var before, total := Snap(space), allocator.Total();
      ghost var units := (size - gap * PAGE_SIZE) / blockSize;
      ghost var rest := (size - (gap * PAGE_SIZE + units * blockSize)) / PAGE_SIZE;
      PlanParts(before, address, size, gap, units, rest, total, memoryType, mode);
      space' := space;
      var offset: nat := 0;
      var countTemp: nat := Uint32(Min(size, gap));
      assert countTemp == gap;
      outcome, space', reached, last :=
        MapMoreAsWritten(root, address, memoryType, countTemp, 3, mode, before, {}, address, size, space');
      if !outcome.Complete? {
        return;
      }
      offset := offset + countTemp * PAGE_SIZE;
      countTemp := Uint32(Minus64(size, offset) / blockSize);
      assert offset == gap * PAGE_SIZE && countTemp == units;
      outcome, space', reached, last :=
        MapMoreAsWritten(root, address + offset, memoryType, countTemp, 2, mode, before, reached, address, size, space');
      if !outcome.Complete? {
        return;
      }
      offset := offset + countTemp * blockSize;
      countTemp := Uint32(Minus64(size, offset) / PAGE_SIZE);
      assert offset == gap * PAGE_SIZE + units * blockSize && countTemp == rest;
      if rest > 0 {
        SamePart(before, last, (address + offset) / PAGE_SIZE, rest, 3, address, size);
      }
      outcome, space', reached, last :=
        MapMoreAsWritten(root, address + offset, memoryType, countTemp, 3, mode, before, reached, address, size, space');
      if !outcome.Complete? {
        return;
      }
      AllBefore(before, last, reached, address, size, total, memoryType, mode);
      ThreeMore(old(mapped), CallIf(address, gap, 3), CallIf(address + gap * PAGE_SIZE, units, 2),
                CallIf(address + offset, rest, 3));
    }

    /** memory_mmu_insert as written, on mmu_map_units as written: the bytes up to the block boundary are
        used as a count of pages, counts have 32 bits and differences 64. */
    method InsertAsWritten(root: nat, address: nat, size: nat, memoryType: nat, mode: MapType, ghost space: Space)
      returns (outcome: Outcome, ghost space': Space, ghost reached: set<nat>, ghost last: Snapshot)
      requires Valid() && Good(Snap(space), mode) && space.root == root && memoryType < 8
      requires address % PAGE_SIZE == 0 && address + size <= PAGE_LIMIT * PAGE_SIZE
      requires ByteCountHarmless(address, size)
      modifies this`mem, this`mapped, allocator.bitmap
      ensures outcome.Complete? ==> mapped == old(mapped) + CallsAsWritten(address, size)
      ensures outcome.NoFrame? ==> OutOfMemory(mode)
      ensures AsMeant(outcome) ==> last == Snap(space')
      ensures InsertedAsWritten(old(Snap(space)), last, outcome, reached, address, size, allocator.Total(), memoryType, mode)
    {
      hide Good, OutOfMemory, Claimed, SlotPages, AlignUp, Uint32, CallIf, CallsAsWritten, ByteCountHarmless;
      hide FirstUnit, EndUnit, UnitsEnd, GapToBlock, InsertedAsWritten, MappedAsWritten;
      var blockSize := RegionSize(2);
      var blockAddress := AlignUp(address, blockSize);
      InsertGeometry(address, size);
      if size >= blockAddress - address + blockSize {
        outcome, space', reached, last :=
          InsertBlocksAsWritten(root, address, size, blockAddress - address, memoryType, mode, space);
      } else {
        HarmlessPlan(address, size);
        RangeInLimit(address, size);
        AlignedUnits(address, size / PAGE_SIZE, 3);
        PagesEnd(address / PAGE_SIZE, size / PAGE_SIZE);
        ghost var before := Snap(space);
        outcome, space', reached, last :=
          MapUnitsAsWritten(root, address, memoryType, Uint32(size / PAGE_SIZE), 3, mode, space);
        ShortPart(before, last, outcome, reached, address, size, allocator.Total(), memoryType, mode);
      }
    }

    /** mmu_find from the level-0 table, with the index of the slot that stopped the search. */
    method Find(root: nat, address: nat, ghost space: Space, ghost mode: MapType) returns (entry: EntryInfo)
      requires Valid() && Good(Snap(space), mode) && space.root == root
      requires address / PAGE_SIZE < PAGE_LIMIT
      ensures EndOfWalk(mem, space, entry, address / PAGE_SIZE)
    {
      hide Good, Decode, Claimed, ChildInfo, InTable, InSlot, Placed, RegionSize, SlotBase, SlotOf, TypeBits;
      hide NextTable, ValidBit, DescriptorBit;
      ghost var here, v := Snap(space), address / PAGE_SIZE;
      var table := root;
      var level: nat := 0;
      var current := address;
      RootCovers(here, mode, v);
      while level < 3
        invariant level <= 3 && table in space.tables && space.tables[table].level == level
        invariant InTable(space.tables[table], v)
        invariant current == address - space.tables[table].base * PAGE_SIZE
      {
        IndexOfPage(here, mode, table, address);
        var idx := current / RegionSize(level);
        SlotKinds(here, mode, table, idx);
        var w := mem[table][idx];
        if TypeBits(w) != MMU_TABLE_ENTRY {
          return EntryInfo(table, idx, level);
        }
        current := current % RegionSize(level);
        ChildCovers(space.tables[table], table, idx, v);
        table := GetSubtable(mem, table, idx);
        level := level + 1;
      }
      IndexOfPage(here, mode, table, address);
      SlotKinds(here, mode, table, current / RegionSize(level));
      return EntryInfo(table, current / RegionSize(level), level);
    }

    /** mmu_find as written: the address is reduced before the loop is left, so a search that ends above
        level 3 returns index 0. */
    method FindAsWritten(root: nat, address: nat, ghost space: Space, ghost mode: MapType)
      returns (entry: EntryInfo, ghost slot: nat)
      requires Valid() && Good(Snap(space), mode) && space.root == root
      requires address / PAGE_SIZE < PAGE_LIMIT
      ensures EndOfWalk(mem, space, entry.(idx := slot), address / PAGE_SIZE)
      ensures entry.idx == if entry.level == 3 then slot else 0
    {
      hide Good, Decode, Claimed, ChildInfo, InTable, InSlot, Placed, RegionSize, SlotBase, SlotOf, TypeBits;
      hide NextTable, ValidBit, DescriptorBit;
      ghost var here, v := Snap(space), address / PAGE_SIZE;
      var table := root;
      var level: nat := 0;
      var current := address;
      RootCovers(here, mode, v);
      while level < 3
        invariant level <= 3 && table in space.tables && space.tables[table].level == level
        invariant InTable(space.tables[table], v)
        invariant current == address - space.tables[table].base * PAGE_SIZE
      {
        IndexOfPage(here, mode, table, address);
        var idx := current / RegionSize(level);
        current := current % RegionSize(level);
        SlotKinds(here, mode, table, idx);
        var w := mem[table][idx];
        if TypeBits(w) != MMU_TABLE_ENTRY {
          slot := idx;
          LessThanOne(current, RegionSize(level));
          return EntryInfo(table, current / RegionSize(level), level), slot;
        }
        ChildCovers(space.tables[table], table, idx, v);
        table := GetSubtable(mem, table, idx);
        level := level + 1;
      }
      IndexOfPage(here, mode, table, address);
      slot := current / RegionSize(level);
      SlotKinds(here, mode, table, slot);
      return EntryInfo(table, current / RegionSize(level), level), slot;
    }

    /** memory_mmu_va_to_pa with `==` for the type tests. NULL is 0. */
    method VaToPa(root: nat, va: nat, ghost space: Space, ghost mode: MapType) returns (pa: nat)
      requires Valid() && Good(Snap(space), mode) && space.root == root
      requires va / PAGE_SIZE < PAGE_LIMIT
      ensures pa == KernelAddress(Translate(mem, root, va / PAGE_SIZE), va)
      ensures match Translate(mem, root, va / 0x1000)
              case Unmapped => pa == 0
              case Mapped(page, _) => pa == 0xFFFF_0000_0000_0000 + page * 0x1000 + va % 0x1000
    {
      hide Good, Claimed, Translate, TypeBits, PageOutput, BlockOutput, RegionSize;
      var found := Find(root, va, space, mode);
      var entry := mem[found.table][found.idx];
      LookupIsWalk(Snap(space), mode, found, va);
      if TypeBits(entry) == MMU_PAGE_ENTRY {
        return KERNEL_SPACE_MASK + PageOutput(entry) * PAGE_SIZE + va % PAGE_SIZE;
      } else if TypeBits(entry) == MMU_BLOCK_ENTRY {
        return KERNEL_SPACE_MASK + BlockOutput(entry, found.level) * PAGE_SIZE + va % RegionSize(found.level);
      }
      return 0;
    }

    /** memory_mmu_va_to_pa as written: `type & MMU_PAGE_ENTRY` also holds for a block, and the entry is
        the one that mmu_find returns as written. */
    method VaToPaAsWritten(root: nat, va: nat, ghost space: Space, ghost mode: MapType)
      returns (pa: nat, ghost entry: EntryInfo)
      requires Valid() && Good(Snap(space), mode) && space.root == root
      requires va / PAGE_SIZE < PAGE_LIMIT
      ensures EndOfWalk(mem, space, entry, va / PAGE_SIZE)
      ensures
        var w := mem[entry.table][if entry.level == 3 then entry.idx else 0];
        pa == if w % 4 == 0 then 0 else 0xFFFF_0000_0000_0000 + w / 0x1000 % 0x10_0000_0000 * 0x1000 + va % 0x1000
      ensures pa == KernelAddress(Translate(mem, root, va / PAGE_SIZE), va) <==> LookupRight(mem, space, entry, va / PAGE_SIZE)
      ensures mode.MapAlloc? ==>
                (LookupRight(mem, space, entry, va / PAGE_SIZE) <==> LookupHarmless(mem, space, entry, va / PAGE_SIZE))
    {
      hide Good, Claimed, Translate, BlockOutput, RegionSize, LookupHarmless, LookupRight;
      var found;
      ghost var slot;
      found, slot := FindAsWritten(root, va, space, mode);
      entry := found.(idx := slot);
      TableAt(Snap(space), mode, found.table);
      var w := mem[found.table][found.idx];
      LookupIff(Snap(space), mode, entry, va);
      if TypeBits(w) != MMU_EMPTY_ENTRY {
        return KERNEL_SPACE_MASK + PageOutput(w) * PAGE_SIZE + va % PAGE_SIZE, entry;
      }
      return 0, entry;
    }

    /** s_pages_dealloc; the caller shows that this is the next release of a list of tracked ones. */
    method Dealloc(page: nat, count: nat, ghost all: seq<Release>, ghost done: seq<Release>)
      requires Valid() && AllTracked(all, allocator.Total())
      requires |done| < |all| && all[|done|] == Release(page, count)
      modifies this`released, allocator.bitmap
      ensures released == old(released) + [Release(page, count)]
      ensures allocator.Set() == old(allocator.Set()) - Run(page, count)
    {
      hide Claimed, Run, FreedAsWritten;
      assert Tracked(all[|done|], allocator.Total());
      allocator.FreePages(page * PAGE_SIZE, count);
      released := released + [Release(page, count)];
    }

    /** One iteration of the stack loop of mmu_destroy_entry up to the test of the index: the slot on top
        is skipped, released or pushed. */
    method VisitTop(tableStack: array<EntryInfo>, depth: nat, ghost mem0: Ram, ghost root: nat, ghost t: Tables, ghost f: nat,
                    ghost all: seq<Release>, ghost done: seq<Release>)
      returns (depth': nat, ghost rel: seq<Release>)
      requires Valid() && AllTracked(all, allocator.Total()) && Tree(mem0, root, t) && f in t && SameBelow(mem0, mem, f)
      requires tableStack as object != allocator.bitmap && tableStack.Length == 4 && 0 < depth <= 4
      requires Tearing(mem0, t, f, all, done, tableStack[..depth]) && tableStack[depth - 1].idx < ENTRIES
      modifies tableStack, this`released, allocator.bitmap
      ensures 0 < depth' <= 4 && Tearing(mem0, t, f, all, done + rel, tableStack[..depth'])
      ensures released == old(released) + rel && allocator.Set() == old(allocator.Set()) - Pages(rel)
      ensures StackVisits(mem0, old(tableStack[..depth])) == 1 + StackVisits(mem0, tableStack[..depth'])
      ensures StackStrays(mem0, old(tableStack[..depth])) ==
              if tableStack[depth' - 1].idx == ENTRIES then StackStrays(mem0, tableStack[..depth' - 1])
              else StackStrays(mem0, tableStack[..depth'])
    {
      hide Claimed, Tree, Decode, Run, BlockOutput, PageOutput, NextTable, ValidBit, DescriptorBit, TypeBits;
      hide MemoryType, RegionSize, SlotPages;
      hide Tearing, StackVisits, StackStrays, AllTracked, Pages;
      ghost var stack, below := tableStack[..depth], tableStack[..depth - 1];
      var current := tableStack[depth - 1];
      assert stack == below + [current];
      StackTop(mem0, mem, root, t, f, all, done, stack);
      EntryKinds(mem0, root, t, current.table, current.idx);
      rel := [];
      PagesNone();
      depth' := depth;
      var entry := mem[current.table][current.idx];
      if ValidBit(entry) != 0 && DescriptorBit(entry) == 1 && current.level != 3 {
        var subtable := GetSubtable(mem, current.table, current.idx);
        tableStack[depth'] := EntryInfo(subtable, 0, current.level + 1);
        depth' := depth' + 1;
        tableStack[depth - 1] := current.(idx := current.idx + 1);
        assert tableStack[..depth'] == below + [current.(idx := current.idx + 1)] + [EntryInfo(subtable, 0, current.level + 1)];
        TearingPush(mem0, t, f, all, done, below, current);
      } else {
        ghost var d := Decode(entry, current.level);
        TearingNext(mem0, t, f, all, done, below, current);
        if ValidBit(entry) == 0 {
        } else if DescriptorBit(entry) == 1 {
          rel := [Release(PageOutput(entry), 1)];
          Dealloc(PageOutput(entry), 1, all, done);
          PagesOne(rel);
        } else {
          rel := [Release(BlockOutput(entry, current.level), SlotPages(current.level))];
          Dealloc(BlockOutput(entry, current.level), RegionSize(current.level) / PAGE_SIZE, all, done);
          PagesOne(rel);
        }
        assert rel == LeafRelease(d, current.level);
        tableStack[depth - 1] := current.(idx := current.idx + 1);
        assert tableStack[..depth'] == below + [current.(idx := current.idx + 1)];
        assert tableStack[..depth' - 1] == below;
      }
    }

    /** The table on top of the stack is complete: mmu_dealloc_table. */
    method PopTop(tableStack: array<EntryInfo>, depth: nat, ghost mem0: Ram, ghost t: Tables, ghost f: nat,
                  ghost all: seq<Release>, ghost done: seq<Release>)
      returns (ghost rel: seq<Release>)
      requires Valid() && AllTracked(all, allocator.Total()) && f in t
      requires tableStack as object != allocator.bitmap && tableStack.Length == 4 && 0 < depth <= 4
      requires Tearing(mem0, t, f, all, done, tableStack[..depth]) && tableStack[depth - 1].idx == ENTRIES
      modifies this`released, allocator.bitmap
      ensures Tearing(mem0, t, f, all, done + rel, tableStack[..depth - 1])
      ensures released == old(released) + rel && allocator.Set() == old(allocator.Set()) - Pages(rel)
      ensures StackVisits(mem0, tableStack[..depth]) == StackVisits(mem0, tableStack[..depth - 1])
    {
      hide Claimed, Run, StackVisits, AllTracked, Tearing, Pages;
      var current := tableStack[depth - 1];
      assert tableStack[..depth] == tableStack[..depth - 1] + [current];
      TearingPop(mem0, t, f, all, done, tableStack[..depth - 1], current);
      Dealloc(current.table, 1, all, done);
      rel := [Release(current.table, 1)];
      PagesOne(rel);
    }

    /** The stack loop of mmu_destroy_entry: tables that are complete are popped until one has slots left. */
    method ReleaseSubtree(subtable: nat, level: nat, ghost f: nat, ghost i: nat, ghost mem0: Ram, ghost root: nat,
                          ghost t: Tables)
      requires Valid() && Tree(mem0, root, t) && SameBelow(mem0, mem, f)
      requires f in t && t[f].level < 3 && i < ENTRIES && f in mem0 && |mem0[f]| == ENTRIES
      requires Decode(mem0[f][i], t[f].level) == Table(subtable) && level == t[f].level + 1
      requires AllTracked(SlotReleases(mem0, mem0[f][i], t[f].level), allocator.Total())
      modifies this`released, allocator.bitmap
      ensures released == old(released) + SlotReleases(mem0, mem0[f][i], t[f].level)
      ensures allocator.Set() == old(allocator.Set()) - Pages(SlotReleases(mem0, mem0[f][i], t[f].level))
    {
      hide Claimed, Tree, Decode, Strays, Tearing, StackVisits, StackStrays, AllTracked, SlotReleases, Pages, SameBelow;
      ghost var all := SlotReleases(mem0, mem0[f][i], t[f].level);
      var tableStack := new EntryInfo[4](k => EntryInfo(0, 0, 0));
      var depth: nat := 1;
      tableStack[0] := EntryInfo(subtable, 0, level);
      ghost var done: seq<Release>, rel: seq<Release> := [], [];
      assert tableStack[..1] == [tableStack[0]];
      StackStarts(mem0, root, t, f, i, tableStack[..1]);
      PagesNone();
      while depth > 0
        invariant fresh(tableStack) && tableStack.Length == 4 && depth <= 4
        invariant Tearing(mem0, t, f, all, done, tableStack[..depth])
        invariant released == old(released) + done
        invariant allocator.Set() == old(allocator.Set()) - Pages(done)
        invariant depth > 0 ==> tableStack[depth - 1].idx < ENTRIES
        decreases StackVisits(mem0, tableStack[..depth])
      {
        ghost var work := StackVisits(mem0, tableStack[..depth]);
        depth, rel := VisitTop(tableStack, depth, mem0, root, t, f, all, done);
        PagesThen(done, rel);
        done := done + rel;
        while depth > 0 && tableStack[depth - 1].idx == ENTRIES
          invariant fresh(tableStack) && tableStack.Length == 4 && depth <= 4
          invariant Tearing(mem0, t, f, all, done, tableStack[..depth])
          invariant released == old(released) + done
          invariant allocator.Set() == old(allocator.Set()) - Pages(done)
          invariant StackVisits(mem0, tableStack[..depth]) < work
        {
          rel := PopTop(tableStack, depth, mem0, t, f, all, done);
          PagesThen(done, rel);
          done := done + rel;
          depth := depth - 1;
        }
        TopIndex(mem0, t, f, all, done, tableStack[..depth]);
      }
      TearingEnds(mem0, t, f, all, done, tableStack[..0]);
    }

    /** The stack loop as written: after a pop the index of the parent is not looked at again. fault says
        that the loop read slot 512 of a table. */
    method ReleaseSubtreeAsWritten(subtable: nat, level: nat, ghost f: nat, ghost i: nat, ghost mem0: Ram,
                                   ghost root: nat, ghost t: Tables)
      returns (fault: bool)
      requires Valid() && Tree(mem0, root, t) && SameBelow(mem0, mem, f)
      requires f in t && t[f].level < 3 && i < ENTRIES && f in mem0 && |mem0[f]| == ENTRIES
      requires Decode(mem0[f][i], t[f].level) == Table(subtable) && level == t[f].level + 1
      requires AllTracked(SlotReleases(mem0, mem0[f][i], t[f].level), allocator.Total())
      modifies this`released, allocator.bitmap
      ensures !fault ==> released == old(released) + SlotReleases(mem0, mem0[f][i], t[f].level)
      ensures !fault ==> allocator.Set() == old(allocator.Set()) - Pages(SlotReleases(mem0, mem0[f][i], t[f].level))
      ensures fault <==> Strays(mem0, subtable, level, 0)
    {
      hide Claimed, Tree, Decode, Strays, Tearing, StackVisits, StackStrays, AllTracked, SlotReleases, Pages, SameBelow;
      ghost var all := SlotReleases(mem0, mem0[f][i], t[f].level);
      var tableStack := new EntryInfo[4](k => EntryInfo(0, 0, 0));
      var depth: nat := 1;
      tableStack[0] := EntryInfo(subtable, 0, level);
      ghost var done: seq<Release>, rel: seq<Release> := [], [];
      assert tableStack[..1] == [tableStack[0]];
      StackStarts(mem0, root, t, f, i, tableStack[..1]);
      PagesNone();
      while depth > 0
        invariant fresh(tableStack) && tableStack.Length == 4 && depth <= 4
        invariant Tearing(mem0, t, f, all, done, tableStack[..depth])
        invariant released == old(released) + done
        invariant allocator.Set() == old(allocator.Set()) - Pages(done)
        invariant StackStrays(mem0, tableStack[..depth]) <==> Strays(mem0, subtable, level, 0)
        decreases StackVisits(mem0, tableStack[..depth])
      {
        TopIndex(mem0, t, f, all, done, tableStack[..depth]);
        if tableStack[depth - 1].idx == ENTRIES {
          return true;
        }
        depth, rel := VisitTop(tableStack, depth, mem0, root, t, f, all, done);
        PagesThen(done, rel);
        done := done + rel;
        if tableStack[depth - 1].idx == ENTRIES {
          rel := PopTop(tableStack, depth, mem0, t, f, all, done);
          PagesThen(done, rel);
          done := done + rel;
          depth := depth - 1;
        }
      }
      TearingEnds(mem0, t, f, all, done, tableStack[..0]);
      return false;
    }

    /** mmu_destroy_entry: the entry and everything below it is released. */
    method DestroyEntry(f: nat, i: nat, level: nat, ghost mem0: Ram, ghost root: nat, ghost t: Tables)
      requires Valid() && Tree(mem0, root, t) && SameBelow(mem0, mem, f)
      requires f in t && t[f].level == level && i < ENTRIES && f in mem0 && |mem0[f]| == ENTRIES
      requires f in mem && |mem[f]| == ENTRIES && mem[f][i] == mem0[f][i] != MMU_EMPTY_ENTRY
      requires AllTracked(SlotReleases(mem0, mem0[f][i], level), allocator.Total())
      modifies this`mem, this`released, allocator.bitmap
      ensures mem == WriteWord(old(mem), f, i, MMU_EMPTY_ENTRY)
      ensures released == old(released) + SlotReleases(mem0, mem0[f][i], level)
      ensures allocator.Set() == old(allocator.Set()) - Pages(SlotReleases(mem0, mem0[f][i], level))
    {
      hide Claimed, Tree, Decode, Strays, Run, BlockOutput, PageOutput, NextTable, ValidBit, DescriptorBit;
      hide TypeBits, MemoryType, RegionSize, SlotPages, Pages, AllTracked;
      EntryKinds(mem0, root, t, f, i);
      ghost var all := SlotReleases(mem0, mem0[f][i], level);
      var word := mem[f][i];
      if level == 3 {
        Dealloc(PageOutput(word), 1, all, []);
        PagesOne(all);
        mem := WriteWord(mem, f, i, MMU_EMPTY_ENTRY);
        return;
      } else if (level == 1 || level == 2) && TypeBits(word) == MMU_BLOCK_ENTRY {
        Dealloc(BlockOutput(word, level), RegionSize(level) / PAGE_SIZE, all, []);
        PagesOne(all);
        mem := WriteWord(mem, f, i, MMU_EMPTY_ENTRY);
        return;
      }
      ReleaseSubtree(GetSubtable(mem, f, i), level + 1, f, i, mem0, root, t);
      mem := WriteWord(mem, f, i, MMU_EMPTY_ENTRY);
    }

    /** mmu_destroy_entry with the loop as written. */
    method DestroyEntryAsWritten(f: nat, i: nat, level: nat, ghost mem0: Ram, ghost root: nat, ghost t: Tables)
      returns (fault: bool)
      requires Valid() && Tree(mem0, root, t) && SameBelow(mem0, mem, f)
      requires f in t && t[f].level == level && i < ENTRIES && f in mem0 && |mem0[f]| == ENTRIES
      requires f in mem && |mem[f]| == ENTRIES && mem[f][i] == mem0[f][i] != MMU_EMPTY_ENTRY
      requires AllTracked(SlotReleases(mem0, mem0[f][i], level), allocator.Total())
      modifies this`mem, this`released, allocator.bitmap
      ensures !fault ==> mem == WriteWord(old(mem), f, i, MMU_EMPTY_ENTRY)
      ensures !fault ==> released == old(released) + SlotReleases(mem0, mem0[f][i], level)
      ensures !fault ==> allocator.Set() == old(allocator.Set()) - Pages(SlotReleases(mem0, mem0[f][i], level))
      ensures fault <==> Decode(mem0[f][i], level).Table? && Strays(mem0, Decode(mem0[f][i], level).next, level + 1, 0)
    {
      hide Claimed, Tree, Decode, Strays, Run, BlockOutput, PageOutput, NextTable, ValidBit, DescriptorBit;
      hide TypeBits, MemoryType, RegionSize, SlotPages, Pages, AllTracked;
      EntryKinds(mem0, root, t, f, i);
      ghost var all := SlotReleases(mem0, mem0[f][i], level);
      var word := mem[f][i];
      if level == 3 {
        Dealloc(PageOutput(word), 1, all, []);
        PagesOne(all);
        mem := WriteWord(mem, f, i, MMU_EMPTY_ENTRY);
        return false;
      } else if (level == 1 || level == 2) && TypeBits(word) == MMU_BLOCK_ENTRY {
        Dealloc(BlockOutput(word, level), RegionSize(level) / PAGE_SIZE, all, []);
        PagesOne(all);
        mem := WriteWord(mem, f, i, MMU_EMPTY_ENTRY);
        return false;
      }
      fault := ReleaseSubtreeAsWritten(GetSubtable(mem, f, i), level + 1, f, i, mem0, root, t);
      if !fault {
        mem := WriteWord(mem, f, i, MMU_EMPTY_ENTRY);
      }
    }

    /** memory_mmu_destroy_table: every table and every output of the space is released once, in post
        order, and nothing else. */
    method DestroyTable(root: nat, ghost space: Space)
      requires Valid() && Good(Snap(space), MapAlloc) && space.root == root
      modifies this`mem, this`released, allocator.bitmap
      ensures released == old(released) + PostOrder(old(mem), root, 0)
      ensures allocator.Set() == old(allocator.Set()) - (space.tables.Keys + space.outputs.Keys)
      ensures forall g :: g in old(mem) && g != root ==> g in mem && mem[g] == old(mem[g])
      ensures root in mem && mem[root] == EMPTY_TABLE && forall j :: 0 <= j < 512 ==> mem[root][j] == 0
    {
      hide Claimed, Good, Tree, PostOrder, SlotsFrom, SlotReleases, AllTracked, Pages, Run, RootCleared, WriteWord;
      ghost var mem0, t := mem, space.tables;
      ghost var all := PostOrder(mem0, root, 0);
      TeardownFacts(Snap(space), allocator.bitmap[..]);
      ghost var done: seq<Release> := [];
      PagesNone();
      var idx: nat := 0;
      while idx < ENTRIES
        invariant idx <= ENTRIES && RootCleared(mem0, mem, root, idx)
        invariant all == done + SlotsFrom(mem0, root, 0, idx) + [Release(root, 1)]
        invariant released == old(released) + done
        invariant allocator.Set() == old(allocator.Set()) - Pages(done)
      {
        ClearNext(mem0, mem, root, idx);
        ghost var rel := SlotReleases(mem0, mem0[root][idx], 0);
        NextSlot(mem0, root, idx, done);
        if mem[root][idx] != MMU_EMPTY_ENTRY {
          TrackedPart(done, rel, SlotsFrom(mem0, root, 0, idx + 1) + [Release(root, 1)], allocator.Total());
          DestroyEntry(root, idx, 0, mem0, root, t);
        } else {
          EmptyReleases(mem0);
        }
        PagesThen(done, rel);
        done := done + rel;
        idx := idx + 1;
      }
      NoSlotLeft(mem0, root);
      assert all == done + [Release(root, 1)];
      PagesThen(done, [Release(root, 1)]);
      PagesOne([Release(root, 1)]);
      Dealloc(root, 1, all, done);
      assert old(released) + done + [Release(root, 1)] == old(released) + all;
      ClearedBelow(mem0, mem, root);
    }

    /** memory_mmu_destroy_table with the loop of mmu_destroy_entry as written: it reads slot 512 of a table
        exactly when some table of level 1 or 2 has a table in slot 511, and otherwise does what is meant. */
    method DestroyTableAsWritten(root: nat, ghost space: Space) returns (fault: bool)
      requires Valid() && Good(Snap(space), MapAlloc) && space.root == root
      modifies this`mem, this`released, allocator.bitmap
      ensures fault <==> exists g :: g in space.tables && space.tables[g].level >= 1 && FullToTheEnd(old(mem), space.tables, g)
      ensures !fault ==>
                && released == old(released) + PostOrder(old(mem), root, 0)
                && allocator.Set() == old(allocator.Set()) - (space.tables.Keys + space.outputs.Keys)
                && (forall g :: g in old(mem) && g != root ==> g in mem && mem[g] == old(mem[g]))
                && root in mem && mem[root] == EMPTY_TABLE
    {
      hide Claimed, Good, Tree, PostOrder, SlotsFrom, SlotReleases, AllTracked, Pages, Run, RootCleared, WriteWord;
      hide Decode, Strays, FullToTheEnd;
      ghost var mem0, t := mem, space.tables;
      ghost var all := PostOrder(mem0, root, 0);
      TeardownFacts(Snap(space), allocator.bitmap[..]);
      TeardownStraysIff(mem0, root, t);
      EmptyIsInvalid(0);
      ghost var done: seq<Release> := [];
      PagesNone();
      var idx: nat := 0;
      while idx < ENTRIES
        invariant idx <= ENTRIES && RootCleared(mem0, mem, root, idx)
        invariant all == done + SlotsFrom(mem0, root, 0, idx) + [Release(root, 1)]
        invariant released == old(released) + done
        invariant allocator.Set() == old(allocator.Set()) - Pages(done)
        invariant forall i :: 0 <= i < idx ==> !SlotStrays(mem0, mem0[root][i])
      {
        ClearNext(mem0, mem, root, idx);
        ghost var rel := SlotReleases(mem0, mem0[root][idx], 0);
        NextSlot(mem0, root, idx, done);
        if mem[root][idx] != MMU_EMPTY_ENTRY {
          TrackedPart(done, rel, SlotsFrom(mem0, root, 0, idx + 1) + [Release(root, 1)], allocator.Total());
          fault := DestroyEntryAsWritten(root, idx, 0, mem0, root, t);
          assert fault <==> SlotStrays(mem0, mem0[root][idx]);
          if fault {
            return;
          }
        } else {
          EmptyReleases(mem0);
        }
        PagesThen(done, rel);
        done := done + rel;
        idx := idx + 1;
      }
      NoSlotLeft(mem0, root);
      assert all == done + [Release(root, 1)];
      PagesThen(done, [Release(root, 1)]);
      PagesOne([Release(root, 1)]);
      Dealloc(root, 1, all, done);
      assert old(released) + done + [Release(root, 1)] == old(released) + all;
      ClearedBelow(mem0, mem, root);
      return false;
    }
  }
}
