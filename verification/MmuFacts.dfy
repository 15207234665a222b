/** What the methods of the page-table manager rely on: the kinds of words in a tree, the arithmetic of
    slots and addresses, the stack of the teardown and the lookup. */
module MmuFacts {
  import opened Arithmetic
  import opened Descriptor
  import opened FrameSet
  import opened PageTree
  import opened AddressSpace
  import opened Allocator
  import opened Supply
  import opened Teardown
  import opened InsertCalls

  const EMPTY_TABLE: seq<Word> := seq(ENTRIES, i => MMU_EMPTY_ENTRY)

  const BLOCK_PAGES: nat := 512

  function GetSubtable(mem: Ram, f: nat, i: nat): nat
    requires f in mem && i < |mem[f]|
  {
    NextTable(mem[f][i])
  }

  /** The loop of memory_mmu_destroy_table has cleared slots before i of the root and nothing else. */
  ghost predicate RootCleared(mem0: Ram, mem: Ram, root: nat, i: nat) {
    && SameBelow(mem0, mem, root) && root in mem && |mem[root]| == ENTRIES && root in mem0 && |mem0[root]| == ENTRIES
    && (forall j :: i <= j < ENTRIES ==> mem[root][j] == mem0[root][j])
    && (forall j :: 0 <= j < i && j < ENTRIES ==> mem[root][j] == MMU_EMPTY_ENTRY)
  }

  lemma ClearNext(mem0: Ram, mem: Ram, root: nat, i: nat)
    requires RootCleared(mem0, mem, root, i) && i < ENTRIES
    ensures root in mem0 && |mem0[root]| == ENTRIES
    ensures SameBelow(mem0, mem, root) && root in mem && |mem[root]| == ENTRIES && mem[root][i] == mem0[root][i]
    ensures mem[root][i] == MMU_EMPTY_ENTRY ==> RootCleared(mem0, mem, root, i + 1)
    ensures RootCleared(mem0, WriteWord(mem, root, i, MMU_EMPTY_ENTRY), root, i + 1)
  {
  }

  lemma ClearedBelow(mem0: Ram, mem: Ram, root: nat)
    requires RootCleared(mem0, mem, root, ENTRIES)
    ensures forall g :: g in mem0 && g != root ==> g in mem && mem[g] == mem0[g]
    ensures root in mem && mem[root] == EMPTY_TABLE
  {
  }

  /** What the teardown of a space needs to know about its releases. */
  lemma TeardownFacts(s: Snapshot, words: seq<bv64>)
    requires Good(s, MapAlloc) && s.claimed == Claimed(words)
    ensures
      var root, all := s.space.root, PostOrder(s.mem, s.space.root, 0);
      && Tree(s.mem, root, s.space.tables) && root in s.space.tables && s.space.tables[root].level == 0
      && RootCleared(s.mem, s.mem, root, 0)
      && AllTracked(all, 64 * |words|)
      && Pages(all) == s.space.tables.Keys + s.space.outputs.Keys
      && all == [] + SlotsFrom(s.mem, root, 0, 0) + [Release(root, 1)]
  {
    hide PostOrder, SlotsFrom, AllTracked, Pages, Exactly, Claimed;
    SetTracked(words);
    TeardownTracked(s, 64 * |words|);
    TeardownExactly(s);
    ExactlyPages(PostOrder(s.mem, s.space.root, 0), s.space.tables.Keys + s.space.outputs.Keys);
    RootLast(s.mem, s.space.root);
    hide Tree, OwnsOutputs;
    TableAt0(s);
  }

  lemma TableAt0(s: Snapshot)
    requires Good(s, MapAlloc)
    ensures
      var root := s.space.root;
      && Tree(s.mem, root, s.space.tables) && root in s.space.tables && s.space.tables[root].level == 0
      && root in s.mem && |s.mem[root]| == ENTRIES
  {
    TableAt(s, MapAlloc, s.space.root);
  }

  lemma SetTracked(words: seq<bv64>)
    ensures forall p :: p in Claimed(words) ==> p < 64 * |words|
  {
  }

  lemma NextSlot(mem: Ram, root: nat, i: nat, done: seq<Release>)
    requires root in mem && |mem[root]| == ENTRIES && i < ENTRIES
    ensures
      var rel, rest := SlotReleases(mem, mem[root][i], 0), SlotsFrom(mem, root, 0, i + 1);
      && SlotsFrom(mem, root, 0, i) == rel + rest
      && done + SlotsFrom(mem, root, 0, i) + [Release(root, 1)] == done + rel + (rest + [Release(root, 1)])
      && done + SlotsFrom(mem, root, 0, i) + [Release(root, 1)] == done + rel + rest + [Release(root, 1)]
  {
    hide SlotReleases;
  }

  lemma NoSlotLeft(mem: Ram, root: nat)
    ensures SlotsFrom(mem, root, 0, ENTRIES) == []
  {
  }

  lemma EmptyReleases(mem: Ram)
    ensures SlotReleases(mem, MMU_EMPTY_ENTRY, 0) == []
  {
  }

  // ---- the stack loop -------------------------------------------------------------------------

  lemma EntryKinds(mem: Ram, root: nat, t: Tables, f: nat, i: nat)
    requires Tree(mem, root, t) && f in t && i < ENTRIES && f in mem && |mem[f]| == ENTRIES
    ensures
      var w, level := mem[f][i], t[f].level;
      && level <= 3 && SlotPages(level) == RegionSize(level) / PAGE_SIZE && SlotPages(3) == 1
      && (ValidBit(w) == 0 <==> w == MMU_EMPTY_ENTRY)
      && if ValidBit(w) == 0 then Decode(w, level) == Invalid
         else if level == 3 then DescriptorBit(w) == 1 && Decode(w, level) == Leaf(PageOutput(w), MemoryType(w))
         else if DescriptorBit(w) == 1 then
           && Decode(w, level) == Table(NextTable(w)) && TypeBits(w) != MMU_BLOCK_ENTRY
           && NextTable(w) in t && t[NextTable(w)].level == level + 1
         else
           && (level == 1 || level == 2) && TypeBits(w) == MMU_BLOCK_ENTRY
           && Decode(w, level) == Leaf(BlockOutput(w, level), MemoryType(w))
  {
    hide Tree, Decode, PageOutput, BlockOutput, NextTable, MemoryType, ValidBit, DescriptorBit, TypeBits;
    TableOf(mem, root, t, f);
    assert SlotOk(mem[f][i], t, f, i);
    WordKinds(mem[f][i], t[f].level);
  }

  lemma StackStarts(mem: Ram, root: nat, t: Tables, f: nat, i: nat, stack: seq<EntryInfo>)
    requires Tree(mem, root, t) && f in t && i < ENTRIES && f in mem && |mem[f]| == ENTRIES
    requires Decode(mem[f][i], t[f].level).Table?
    requires stack == [EntryInfo(Decode(mem[f][i], t[f].level).next, 0, t[f].level + 1)]
    ensures t[f].level < 3 && Tearing(mem, t, f, SlotReleases(mem, mem[f][i], t[f].level), [], stack)
    ensures StackStrays(mem, stack) <==> Strays(mem, Decode(mem[f][i], t[f].level).next, t[f].level + 1, 0)
  {
    hide Tree, Decode, SlotsFrom, Strays;
    TableOf(mem, root, t, f);
    assert SlotOk(mem[f][i], t, f, i);
    TableOf(mem, root, t, stack[0].table);
    OneMore(mem, [], stack[0]);
    assert [] + stack == stack;
  }

  /** The state of the stack loop: what was released and what is pending make up the whole walk. */
  ghost predicate Tearing(mem0: Ram, t: Tables, f: nat, all: seq<Release>, done: seq<Release>, stack: seq<EntryInfo>)
    requires f in t
  {
    StackOk(t, stack, t[f].level + 1) && all == done + Pending(mem0, stack)
  }

  lemma TearingEnds(mem0: Ram, t: Tables, f: nat, all: seq<Release>, done: seq<Release>, stack: seq<EntryInfo>)
    requires f in t && Tearing(mem0, t, f, all, done, stack) && stack == []
    ensures all == done && !StackStrays(mem0, stack)
  {
    NothingPending(mem0, stack);
  }

  /** table_stack never holds more than three tables, one for each level below the first. */
  lemma StackDepth(mem0: Ram, t: Tables, f: nat, all: seq<Release>, done: seq<Release>, stack: seq<EntryInfo>)
    requires f in t && Tearing(mem0, t, f, all, done, stack)
    ensures |stack| <= 3 - t[f].level || |stack| == 0
  {
    hide Pending;
    if |stack| > 0 {
      assert stack[|stack| - 1].level == t[f].level + 1 + (|stack| - 1);
    }
  }

  /** A table on top of the stack that is complete already is one whose parent the loop forgot. */
  lemma TopIndex(mem0: Ram, t: Tables, f: nat, all: seq<Release>, done: seq<Release>, stack: seq<EntryInfo>)
    requires f in t && Tearing(mem0, t, f, all, done, stack)
    ensures |stack| > 0 ==> stack[|stack| - 1].idx <= ENTRIES
    ensures |stack| > 0 && stack[|stack| - 1].idx == ENTRIES ==> StackStrays(mem0, stack)
  {
    hide Pending;
  }

  /** The table on top of the stack lies below f. */
  lemma StackTop(mem0: Ram, mem: Ram, root: nat, t: Tables, f: nat,
                 all: seq<Release>, done: seq<Release>, stack: seq<EntryInfo>)
    requires Tree(mem0, root, t) && f in t && SameBelow(mem0, mem, f)
    requires Tearing(mem0, t, f, all, done, stack) && |stack| > 0
    ensures
      var top := stack[|stack| - 1];
      && top.table in t && t[top.table].level == top.level && 1 <= top.level <= 3 && |stack| + t[f].level == top.level
      && top.table in mem0 && |mem0[top.table]| == ENTRIES && top.table in mem && mem[top.table] == mem0[top.table]
  {
    hide Tree, Pending;
    TableOf(mem0, root, t, stack[|stack| - 1].table);
  }

  lemma TearingPush(mem0: Ram, t: Tables, f: nat, all: seq<Release>, done: seq<Release>, below: seq<EntryInfo>, e: EntryInfo)
    requires f in t && Tearing(mem0, t, f, all, done, below + [e]) && e.idx < ENTRIES
    requires e.table in mem0 && |mem0[e.table]| == ENTRIES && e.level < 3 && 1 <= e.level
    requires Decode(mem0[e.table][e.idx], e.level).Table?
    requires
      var g := Decode(mem0[e.table][e.idx], e.level).next;
      g in t && t[g].level == e.level + 1 && |below| + 1 + t[f].level == e.level
    ensures
      var child := EntryInfo(Decode(mem0[e.table][e.idx], e.level).next, 0, e.level + 1);
      var stack, pushed := below + [e], below + [e.(idx := e.idx + 1)] + [child];
      && Tearing(mem0, t, f, all, done + [], pushed)
      && StackVisits(mem0, stack) == 1 + StackVisits(mem0, pushed)
      && StackStrays(mem0, stack) == StackStrays(mem0, pushed)
  {
    hide Decode, Pending, StackVisits, StackStrays;
    StackPush(mem0, below, e);
    assert done + [] == done;
    var stack, child := below + [e], EntryInfo(Decode(mem0[e.table][e.idx], e.level).next, 0, e.level + 1);
    var pushed := below + [e.(idx := e.idx + 1)] + [child];
    assert stack[|below|] == e;
    forall k | 0 <= k < |pushed|
      ensures pushed[k] == if k < |below| then stack[k] else if k == |below| then e.(idx := e.idx + 1) else child
    {
    }
  }

  lemma TearingNext(mem0: Ram, t: Tables, f: nat, all: seq<Release>, done: seq<Release>, below: seq<EntryInfo>, e: EntryInfo)
    requires f in t && Tearing(mem0, t, f, all, done, below + [e]) && e.idx < ENTRIES
    requires e.table in mem0 && |mem0[e.table]| == ENTRIES && 1 <= e.level <= 3
    requires !Decode(mem0[e.table][e.idx], e.level).Table?
    ensures
      var stack, next := below + [e], below + [e.(idx := e.idx + 1)];
      var rel := LeafRelease(Decode(mem0[e.table][e.idx], e.level), e.level);
      && Tearing(mem0, t, f, all, done + rel, next)
      && StackVisits(mem0, stack) == 1 + StackVisits(mem0, next)
      && (StackStrays(mem0, stack) == if e.idx + 1 == ENTRIES then StackStrays(mem0, below) else StackStrays(mem0, next))
      && (rel != [] ==> |done| < |all| && all[|done|] == rel[0])
  {
    hide Decode, Pending, StackVisits, StackStrays, SlotPages;
    StackNext(mem0, below, e);
    var stack := below + [e];
    assert stack[|below|] == e;
    forall k | 0 <= k < |below|
      ensures stack[k] == below[k]
    {
    }
    var rel, rest := LeafRelease(Decode(mem0[e.table][e.idx], e.level), e.level), Pending(mem0, below + [e.(idx := e.idx + 1)]);
    assert done + (rel + rest) == done + rel + rest;
  }

  lemma TearingPop(mem0: Ram, t: Tables, f: nat, all: seq<Release>, done: seq<Release>, below: seq<EntryInfo>, e: EntryInfo)
    requires f in t && Tearing(mem0, t, f, all, done, below + [e]) && e.idx == ENTRIES
    ensures Tearing(mem0, t, f, all, done + [Release(e.table, 1)], below)
    ensures StackVisits(mem0, below + [e]) == StackVisits(mem0, below)
    ensures |done| < |all| && all[|done|] == Release(e.table, 1)
  {
    hide Pending, StackVisits;
    var stack := below + [e];
    assert stack[|below|] == e;
    forall k | 0 <= k < |below|
      ensures stack[k] == below[k]
    {
    }
    PopStep(mem0, below, e);
    assert done + ([Release(e.table, 1)] + Pending(mem0, below)) == done + [Release(e.table, 1)] + Pending(mem0, below);
  }

  /** entry is the slot in which the walk of page v ends. */
  ghost predicate EndOfWalk(mem: Ram, space: Space, entry: EntryInfo, v: nat) {
    && IsSlot(space, entry, entry.level)
    && entry.table in mem && |mem[entry.table]| == ENTRIES
    && InSlot(space.tables[entry.table], entry.idx, v)
    && !Decode(mem[entry.table][entry.idx], entry.level).Table?
  }

  /** The kernel-space pointer to a translated address, NULL when it is unmapped. */
  function KernelAddress(mapping: Mapping, va: nat): nat {
    match mapping
    case Unmapped => 0
    case Mapped(page, _) => KERNEL_SPACE_MASK + page * PAGE_SIZE + va % PAGE_SIZE
  }

  lemma LessThanOne(r: nat, size: nat)
    requires r < size
    ensures r / size == 0
  {
  }

  lemma LookupIsWalk(s: Snapshot, mode: MapType, entry: EntryInfo, va: nat)
    requires Good(s, mode) && EndOfWalk(s.mem, s.space, entry, va / PAGE_SIZE)
    ensures
      var w := s.mem[entry.table][entry.idx];
      KernelAddress(s.At(va / PAGE_SIZE), va) ==
      if TypeBits(w) == MMU_PAGE_ENTRY then KERNEL_SPACE_MASK + PageOutput(w) * PAGE_SIZE + va % PAGE_SIZE
      else if TypeBits(w) == MMU_BLOCK_ENTRY then
        KERNEL_SPACE_MASK + BlockOutput(w, entry.level) * PAGE_SIZE + va % RegionSize(entry.level)
      else 0
  {
    hide Good, Translate, Decode, PageOutput, BlockOutput, MemoryType, SlotOf, SlotBase, SlotPages, RegionSize;
    hide TypeBits, ValidBit, DescriptorBit, Placed;
    var v := va / PAGE_SIZE;
    var w, info := s.mem[entry.table][entry.idx], s.space.tables[entry.table];
    TableAt(s, mode, entry.table);
    SlotWord(s, mode, entry.table, entry.idx);
    AtInSlot(s, mode, entry, v);
    PageOfSlot(info, entry.idx, v);
    OffsetInSlot(va, entry.level);
  }

  lemma AtInSlot(s: Snapshot, mode: MapType, entry: EntryInfo, v: nat)
    requires Good(s, mode) && EndOfWalk(s.mem, s.space, entry, v)
    ensures s.At(v) == SlotMapping(s.mem[entry.table][entry.idx], s.space.tables[entry.table], entry.idx, v)
  {
    hide Tree, OwnsOutputs, Decode;
    TranslateInSlot(s.mem, s.space.root, s.space.tables, entry.table, entry.idx, v);
  }

  lemma SlotWord(s: Snapshot, mode: MapType, f: nat, i: nat)
    requires Good(s, mode) && f in s.space.tables && i < ENTRIES
    requires f in s.mem && |s.mem[f]| == ENTRIES && !Decode(s.mem[f][i], s.space.tables[f].level).Table?
    ensures
      var w, level := s.mem[f][i], s.space.tables[f].level;
      && level <= 3 && SlotPages(3) == 1
      && (TypeBits(w) != MMU_PAGE_ENTRY && TypeBits(w) != MMU_BLOCK_ENTRY ==> Decode(w, level) == Invalid)
      && (TypeBits(w) == MMU_PAGE_ENTRY ==> level == 3 && Decode(w, level) == Leaf(PageOutput(w), MemoryType(w)))
      && (TypeBits(w) == MMU_BLOCK_ENTRY ==> Decode(w, level) == Leaf(BlockOutput(w, level), MemoryType(w)))
  {
    hide Good, Decode, PageOutput, BlockOutput, NextTable, MemoryType, TypeBits, ValidBit, DescriptorBit;
    hide RegionSize, Placed;
    TableAt(s, mode, f);
    assert SlotOk(s.mem[f][i], s.space.tables, f, i);
    WordKinds(s.mem[f][i], s.space.tables[f].level);
  }

  lemma OffsetInSlot(va: nat, level: nat)
    ensures va % RegionSize(level) == va / PAGE_SIZE % SlotPages(level) * PAGE_SIZE + va % PAGE_SIZE
  {
    var v, r := va / PAGE_SIZE, va % PAGE_SIZE;
    var q, p := v / SlotPages(level), v % SlotPages(level);
    assert va == q * RegionSize(level) + (p * PAGE_SIZE + r);
    DivUnique(va, RegionSize(level), q, p * PAGE_SIZE + r);
  }

  // ---- the lookup as written ----------------------------------------------------------------

  /** When the lookup as written gives the right answer: the walk ends in a level-3 table, or in an
      empty slot of a table whose slot 0 is empty too, or in slot 0 at the one page of its block that
      the page field of the descriptor names (its first page, as the builders leave the field). */
  ghost predicate LookupHarmless(mem: Ram, space: Space, entry: EntryInfo, v: nat)
    requires EndOfWalk(mem, space, entry, v)
  {
    var w, first := mem[entry.table][entry.idx], mem[entry.table][0];
    || entry.level == 3
    || (w == MMU_EMPTY_ENTRY && first == MMU_EMPTY_ENTRY)
    || (w != MMU_EMPTY_ENTRY && entry.idx == 0
        && v == space.tables[entry.table].base + (PageOutput(w) - BlockOutput(w, entry.level)))
  }

  /** The exact condition in any space: the page field of slot 0 has to name the page that the right slot
      leads to. */
  ghost predicate LookupRight(mem: Ram, space: Space, entry: EntryInfo, v: nat)
    requires EndOfWalk(mem, space, entry, v)
  {
    var w, first, base := mem[entry.table][entry.idx], mem[entry.table][0], space.tables[entry.table].base;
    || entry.level == 3
    || (w == MMU_EMPTY_ENTRY && first == MMU_EMPTY_ENTRY)
    || (w != MMU_EMPTY_ENTRY && first != MMU_EMPTY_ENTRY
        && PageOutput(first) == BlockOutput(w, entry.level) + (v - SlotBase(base, entry.level, entry.idx)))
  }

  lemma LookupIff(s: Snapshot, mode: MapType, entry: EntryInfo, va: nat)
    requires Good(s, mode) && EndOfWalk(s.mem, s.space, entry, va / PAGE_SIZE)
    ensures
      var w := s.mem[entry.table][if entry.level == 3 then entry.idx else 0];
      var pa := if TypeBits(w) == MMU_EMPTY_ENTRY then 0 else KERNEL_SPACE_MASK + PageOutput(w) * PAGE_SIZE + va % PAGE_SIZE;
      pa == KernelAddress(s.At(va / PAGE_SIZE), va) <==> LookupRight(s.mem, s.space, entry, va / PAGE_SIZE)
    ensures mode.MapAlloc? ==>
              (LookupRight(s.mem, s.space, entry, va / PAGE_SIZE) <==> LookupHarmless(s.mem, s.space, entry, va / PAGE_SIZE))
  {
    hide Good, Translate, PageOutput, BlockOutput, MemoryType, TypeBits, Decode, KernelAddress;
    var v := va / PAGE_SIZE;
    var w := s.mem[entry.table][entry.idx];
    TableAt(s, mode, entry.table);
    SlotKinds(s, mode, entry.table, entry.idx);
    SlotKinds(s, mode, entry.table, 0);
    if w != MMU_EMPTY_ENTRY {
      PageOfEntry(s, mode, entry, v);
      SameAddress(s.At(v), PageOutput(s.mem[entry.table][if entry.level == 3 then entry.idx else 0]), va);
      if mode.MapAlloc? && entry.level < 3 && entry.idx != 0 && s.mem[entry.table][0] != MMU_EMPTY_ENTRY {
        OtherPage(s, mode, entry, v);
      }
    } else {
      NoEntry(s, mode, entry, v);
      SameAddress(s.At(v), PageOutput(s.mem[entry.table][if entry.level == 3 then entry.idx else 0]), va);
    }
  }

  lemma SameAddress(mapping: Mapping, page: nat, va: nat)
    ensures mapping.Unmapped? ==> KernelAddress(mapping, va) == 0
    ensures mapping.Mapped? ==> KernelAddress(mapping, va) != 0
    ensures mapping.Mapped? ==>
              (KernelAddress(mapping, va) == KERNEL_SPACE_MASK + page * PAGE_SIZE + va % PAGE_SIZE <==> mapping.page == page)
  {
  }

  lemma NoEntry(s: Snapshot, mode: MapType, entry: EntryInfo, v: nat)
    requires Good(s, mode) && EndOfWalk(s.mem, s.space, entry, v)
    requires s.mem[entry.table][entry.idx] == MMU_EMPTY_ENTRY
    ensures s.At(v) == Unmapped
  {
    hide Tree, OwnsOutputs, Decode;
    EmptyIsInvalid(entry.level);
    TranslateInSlot(s.mem, s.space.root, s.space.tables, entry.table, entry.idx, v);
  }

  /** The page that the slot translates v to, in terms of the fields of its word. */
  lemma PageOfEntry(s: Snapshot, mode: MapType, entry: EntryInfo, v: nat)
    requires Good(s, mode) && EndOfWalk(s.mem, s.space, entry, v)
    requires s.mem[entry.table][entry.idx] != MMU_EMPTY_ENTRY
    ensures
      var w, info := s.mem[entry.table][entry.idx], s.space.tables[entry.table];
      && s.At(v).Mapped?
      && (entry.level == 3 ==> s.At(v).page == PageOutput(w))
      && (entry.level < 3 ==>
            s.At(v).page == BlockOutput(w, entry.level) + (v - SlotBase(info.base, entry.level, entry.idx)))
      && (entry.idx == 0 ==> SlotBase(info.base, entry.level, entry.idx) == info.base)
  {
    hide Tree, OwnsOutputs, PageOutput, BlockOutput, MemoryType;
    SlotKinds(s, mode, entry.table, entry.idx);
    TranslateInSlot(s.mem, s.space.root, s.space.tables, entry.table, entry.idx, v);
  }

  /** In a space that owns its outputs no other slot of the table leads to the page of v. */
  lemma OtherPage(s: Snapshot, mode: MapType, entry: EntryInfo, v: nat)
    requires mode.MapAlloc? && Good(s, mode) && EndOfWalk(s.mem, s.space, entry, v)
    requires entry.level < 3 && entry.idx != 0
    requires s.mem[entry.table][entry.idx] != MMU_EMPTY_ENTRY && s.mem[entry.table][0] != MMU_EMPTY_ENTRY
    ensures s.At(v).Mapped? && PageOutput(s.mem[entry.table][0]) != s.At(v).page
  {
    hide Tree, Decode, SlotBase, SlotPages, TypeBits, BlockOutput, PageOutput, MemoryType;
    var info, first := s.space.tables[entry.table], s.mem[entry.table][0];
    TableAt(s, mode, entry.table);
    SlotKinds(s, mode, entry.table, 0);
    PageOfEntry(s, mode, entry, v);
    PageOfSlot(info, entry.idx, v);
    InLimit(info, v);
    assert OutputOf(s.space.outputs, s.At(v).page, v);
    if Decode(first, entry.level).Table? {
      NextIsPage(first);
    } else {
      var d := PageOutput(first) - BlockOutput(first, entry.level);
      BlockPart(first, entry.level);
      var v0 := SlotBase(info.base, entry.level, 0) + d;
      PageOfEntry(s, mode, entry.(idx := 0), v0);
      PageOfSlot(info, 0, v0);
      InLimit(info, v0);
      assert OutputOf(s.space.outputs, s.At(v0).page, v0);
    }
  }

  lemma InLimit(info: Info, v: nat)
    requires Placed(info) && InTable(info, v)
    ensures v < PAGE_LIMIT
  {
  }

  /** mmu_map_units as written takes the subtable of the first slot of the batch (table_data.idx) for
      every slot. Two slots never lead to the same table, and in a space that owns its outputs the
      "subtable" of a block is a frame of mapped data. */
  lemma SubtableIff(s: Snapshot, mode: MapType, f: nat, i: nat, u: nat)
    requires Good(s, mode) && f in s.space.tables && i < ENTRIES && u < ENTRIES
    requires f in s.mem && |s.mem[f]| == ENTRIES && s.space.tables[f].level < 3
    requires Decode(s.mem[f][u], s.space.tables[f].level).Table? && s.mem[f][i] != MMU_EMPTY_ENTRY
    ensures Decode(s.mem[f][i], s.space.tables[f].level).Table? ==>
              (GetSubtable(s.mem, f, i) == GetSubtable(s.mem, f, u) <==> i == u)
    ensures mode.MapAlloc? && !Decode(s.mem[f][i], s.space.tables[f].level).Table? ==>
              GetSubtable(s.mem, f, i) in s.space.outputs && GetSubtable(s.mem, f, i) !in s.space.tables
  {
    hide Tree, Decode, SlotBase, SlotPages, TypeBits, ValidBit, DescriptorBit, BlockOutput, PageOutput, NextTable, MemoryType;
    var info, w := s.space.tables[f], s.mem[f][i];
    TableAt(s, mode, f);
    SlotKinds(s, mode, f, i);
    SlotKinds(s, mode, f, u);
    if mode.MapAlloc? && !Decode(w, info.level).Table? {
      NextIsPage(w);
      BlockPart(w, info.level);
      var v := SlotBase(info.base, info.level, i) + (PageOutput(w) - BlockOutput(w, info.level));
      PageOfEntry(s, mode, EntryInfo(f, i, info.level), v);
      PageOfSlot(info, i, v);
      InLimit(info, v);
      assert OutputOf(s.space.outputs, s.At(v).page, v);
    }
  }

  lemma NextIsPage(w: Word)
    ensures NextTable(w) == PageOutput(w)
  {
  }

  lemma BlockPart(w: Word, level: nat)
    requires 1 <= level < 3
    ensures 0 <= PageOutput(w) - BlockOutput(w, level) < SlotPages(level)
  {
    hide PageOutput, BlockOutput;
    BlockFields(w);
  }

  lemma PagesOfRegion(level: nat, address: nat)
    requires address % RegionSize(level) == 0
    ensures address / PAGE_SIZE * PAGE_SIZE == address && address / PAGE_SIZE % SlotPages(level) == 0
  {
    var n := address / RegionSize(level);
    assert address == n * RegionSize(level);
    DivUnique(address, PAGE_SIZE, n * SlotPages(level), 0);
    DivUnique(n * SlotPages(level), SlotPages(level), n, 0);
  }

  // ---- units and slots ------------------------------------------------------------------------

  /** The first page of the unit that the address lies in. */
  function FirstUnit(address: nat, level: nat): nat {
    address / RegionSize(level) * SlotPages(level)
  }

  /** The page behind so many units. */
  function EndUnit(address: nat, number: nat, level: nat): nat {
    FirstUnit(address, level) + number * SlotPages(level)
  }

  function UnitBytes(number: nat, level: nat): nat {
    number * RegionSize(level)
  }

  /** The page of the address after so many units lies in the unit that starts there. */
  lemma UnitsDone(address: nat, done: nat, level: nat)
    requires 2 <= level <= 3
    ensures
      var at, v := EndUnit(address, done, level), (address + UnitBytes(done, level)) / PAGE_SIZE;
      at <= v < at + SlotPages(level) && v / SlotPages(level) * SlotPages(level) == at && at % SlotPages(level) == 0
    ensures address % RegionSize(level) == 0 ==>
              && FirstUnit(address, level) == address / PAGE_SIZE
              && address + UnitBytes(done, level) == EndUnit(address, done, level) * PAGE_SIZE
  {
    var q, r, size := address / RegionSize(level), address % RegionSize(level), SlotPages(level);
    assert RegionSize(level) == size * PAGE_SIZE;
    DivUnique(address, PAGE_SIZE, q * size + r / PAGE_SIZE, r % PAGE_SIZE);
    DivUnique(address + UnitBytes(done, level), PAGE_SIZE, (q + done) * size + r / PAGE_SIZE, r % PAGE_SIZE);
    DivUnique((q + done) * size + r / PAGE_SIZE, size, q + done, r / PAGE_SIZE);
    DivUnique((q + done) * size, size, q + done, 0);
  }

  lemma UnitsStep(address: nat, done: nat, more: nat, number: nat, level: nat)
    requires done + more <= number
    ensures EndUnit(address, done + more, level) == EndUnit(address, done, level) + more * SlotPages(level)
    ensures EndUnit(address, done + more, level) <= EndUnit(address, number, level)
    ensures UnitBytes(done + more, level) == UnitBytes(done, level) + more * RegionSize(level)
  {
    MulMono(done + more, number, SlotPages(level));
  }

  lemma UnitsNone(address: nat, number: nat, level: nat)
    ensures EndUnit(address, 0, level) == FirstUnit(address, level) && UnitBytes(0, level) == 0
    ensures FirstUnit(address, level) <= EndUnit(address, number, level)
  {
  }

  lemma UnitsInside(address: nat, done: nat, number: nat, level: nat)
    requires done < number
    ensures EndUnit(address, done, level) + SlotPages(level) <= EndUnit(address, number, level)
    ensures FirstUnit(address, level) <= EndUnit(address, done, level)
  {
    UnitsStep(address, done, 1, number, level);
  }

  /** A batch of units ends in the slot behind its last one. */
  lemma BatchEnd(base: nat, level: nat, first: nat, more: nat, address: nat, done: nat, number: nat)
    requires done + more <= number && SlotBase(base, level, first) == EndUnit(address, done, level)
    ensures SlotBase(base, level, first + more) == EndUnit(address, done + more, level) <= EndUnit(address, number, level)
    ensures SlotBase(base, level, first) <= SlotBase(base, level, first + more)
  {
    hide EndUnit, SlotBase, SlotPages;
    UnitsStep(address, done, more, number, level);
    SlotBaseStep(base, level, first, more);
  }

  lemma SlotBaseStep(base: nat, level: nat, i: nat, k: nat)
    ensures SlotBase(base, level, i + k) == SlotBase(base, level, i) + k * SlotPages(level)
    ensures SlotPages(level) > 0 && RegionSize(level) == SlotPages(level) * PAGE_SIZE
  {
  }

  lemma SlotStart(s: Snapshot, mode: MapType, f: nat, i: nat, v: nat)
    requires Good(s, mode) && f in s.space.tables && i < ENTRIES && InSlot(s.space.tables[f], i, v)
    ensures
      var info := s.space.tables[f];
      SlotPages(info.level) > 0 && SlotBase(info.base, info.level, i) == v / SlotPages(info.level) * SlotPages(info.level)
  {
    hide Good;
    TableAt(s, mode, f);
    PageOfSlot(s.space.tables[f], i, v);
    SlotSizes(s.space.tables[f].base, s.space.tables[f].level, i);
  }

  lemma BlockPagesPower()
    ensures PowerOfTwo(1) && PowerOfTwo(BLOCK_PAGES)
  {
    assert PowerOfTwo(2) && PowerOfTwo(4);
    assert PowerOfTwo(8) && PowerOfTwo(16);
    assert PowerOfTwo(32) && PowerOfTwo(64);
    assert PowerOfTwo(128) && PowerOfTwo(256);
  }

  lemma SlotAligned(s: Snapshot, mode: MapType, f: nat, i: nat)
    requires Good(s, mode) && f in s.space.tables && i < ENTRIES
    ensures
      var info := s.space.tables[f];
      var lo := SlotBase(info.base, info.level, i);
      info.level <= 3 && lo % SlotPages(info.level) == 0 && lo + SlotPages(info.level) <= PAGE_LIMIT
  {
    hide Good;
    TableAt(s, mode, f);
    SlotInLimit(s.space.tables[f], i);
    SlotArithmetic(s.space.tables[f].base, SlotPages(s.space.tables[f].level), i, 0);
  }

  /** entry is a slot of a table of the space at the given level. */
  ghost predicate IsSlot(space: Space, entry: EntryInfo, level: nat) {
    && entry.level == level && entry.idx < ENTRIES
    && entry.table in space.tables && space.tables[entry.table].level == level
  }

  lemma GoodAfter(s: Snapshot, s': Snapshot, lo: nat, hi: nat, memoryType: nat, mode: MapType)
    requires Advance(s, s', lo, hi, memoryType, mode)
    ensures Good(s', mode) && s'.space.root == s.space.root
    ensures s.claimed <= s'.claimed
    ensures Extends(s.space.tables, s'.space.tables)
  {
    hide Good;
  }

  lemma RootCovers(s: Snapshot, mode: MapType, v: nat)
    requires Good(s, mode) && v < PAGE_LIMIT
    ensures
      var root := s.space.root;
      root in s.space.tables && s.space.tables[root].level == 0 && s.space.tables[root].base == 0
      && InTable(s.space.tables[root], v)
  {
  }

  /** The index computed from the address that is left at a level is the slot of the page, and what is
      left for the next level counts from the start of that slot. */
  lemma IndexOfPage(s: Snapshot, mode: MapType, f: nat, address: nat)
    requires Good(s, mode) && f in s.space.tables && InTable(s.space.tables[f], address / PAGE_SIZE)
    ensures
      var info := s.space.tables[f];
      var current := address - info.base * PAGE_SIZE;
      && Placed(info) && info.level <= 3 && f in s.mem && |s.mem[f]| == ENTRIES && 0 <= current
      && current / RegionSize(info.level) == SlotOf(address / PAGE_SIZE, info.level)
      && current % RegionSize(info.level) ==
         address - SlotBase(info.base, info.level, SlotOf(address / PAGE_SIZE, info.level)) * PAGE_SIZE
      && InSlot(info, SlotOf(address / PAGE_SIZE, info.level), address / PAGE_SIZE)
  {
    hide Good, SlotOf;
    var info := s.space.tables[f];
    TableAt(s, mode, f);
    SlotOfPage(info, address / PAGE_SIZE);
    IndexArithmetic(info, SlotOf(address / PAGE_SIZE, info.level), address);
  }

  lemma IndexArithmetic(info: Info, i: nat, address: nat)
    requires Placed(info) && InSlot(info, i, address / PAGE_SIZE)
    ensures
      var current := address - info.base * PAGE_SIZE;
      && current >= 0 && current / RegionSize(info.level) == i
      && current % RegionSize(info.level) == address - SlotBase(info.base, info.level, i) * PAGE_SIZE
  {
    var size := RegionSize(info.level);
    var lo := SlotBase(info.base, info.level, i);
    var r := address - lo * PAGE_SIZE;
    assert 0 <= r < size;
    assert address - info.base * PAGE_SIZE == i * size + r;
    DivUnique(address - info.base * PAGE_SIZE, size, i, r);
  }

  /** What a slot of a good tree may hold. */
  lemma SlotKinds(s: Snapshot, mode: MapType, f: nat, i: nat)
    requires Good(s, mode) && f in s.space.tables && i < ENTRIES
    requires f in s.mem && |s.mem[f]| == ENTRIES
    ensures
      var w, info := s.mem[f][i], s.space.tables[f];
      if ValidBit(w) == 0 then w == MMU_EMPTY_ENTRY && TypeBits(w) == MMU_EMPTY_ENTRY && Decode(w, info.level) == Invalid
      else if info.level < 3 && DescriptorBit(w) == 1 then
        && Decode(w, info.level) == Table(NextTable(w)) && TypeBits(w) == MMU_TABLE_ENTRY && w != MMU_EMPTY_ENTRY
        && NextTable(w) in s.space.tables && s.space.tables[NextTable(w)] == ChildInfo(info, f, i)
      else
        && 1 <= info.level <= 3 && Decode(w, info.level).Leaf? && w != MMU_EMPTY_ENTRY && TypeBits(w) != MMU_EMPTY_ENTRY
        && (info.level < 3 ==> TypeBits(w) == MMU_BLOCK_ENTRY)
  {
    hide Tree, ValidBit, DescriptorBit, TypeBits, NextTable, Decode, ChildInfo;
    TableOf(s.mem, s.space.root, s.space.tables, f);
    assert SlotOk(s.mem[f][i], s.space.tables, f, i);
    WordKinds(s.mem[f][i], s.space.tables[f].level);
  }

  /** What the bits of a word that may stand in a tree say about it. */
  lemma WordKinds(w: Word, level: nat)
    requires level <= 3 && (Decode(w, level).Invalid? ==> w == MMU_EMPTY_ENTRY)
    ensures SlotPages(level) == RegionSize(level) / PAGE_SIZE && SlotPages(3) == 1
    ensures ValidBit(w) == 0 <==> w == MMU_EMPTY_ENTRY
    ensures
      if ValidBit(w) == 0 then TypeBits(w) == MMU_EMPTY_ENTRY && Decode(w, level) == Invalid
      else if level == 3 then
        DescriptorBit(w) == 1 && TypeBits(w) == MMU_PAGE_ENTRY && Decode(w, level) == Leaf(PageOutput(w), MemoryType(w))
      else if DescriptorBit(w) == 1 then Decode(w, level) == Table(NextTable(w)) && TypeBits(w) == MMU_TABLE_ENTRY
      else
        && (level == 1 || level == 2) && TypeBits(w) == MMU_BLOCK_ENTRY
        && Decode(w, level) == Leaf(BlockOutput(w, level), MemoryType(w))
  {
    hide BlockOutput, PageOutput, MemoryType, NextTable, ValidBit, DescriptorBit, LowerAttributes;
    Split(w);
  }

  lemma ChildCovers(info: Info, f: nat, i: nat, v: nat)
    requires Placed(info) && info.level < 3 && i < ENTRIES && InSlot(info, i, v)
    ensures InTable(ChildInfo(info, f, i), v) && ChildInfo(info, f, i).level == info.level + 1
    ensures ChildInfo(info, f, i).base == SlotBase(info.base, info.level, i)
  {
    ChildPlaced(info, i, ChildInfo(info, f, i));
  }

  lemma FitBounds(claimed: set<nat>, total: nat, number: nat, align: nat, page: nat)
    requires align > 0 && FirstFit(claimed, total, number, align, page)
    ensures page % align == 0 && page + number <= total && Run(page, number) !! claimed
  {
  }

  lemma FreshFrame(s: Snapshot, mode: MapType, g: nat, f: nat)
    requires Good(s, mode) && g !in s.claimed && f in s.space.tables
    ensures g !in s.space.tables && g != f
    ensures s.space.tables[f].level <= 3
  {
    TableOf(s.mem, s.space.root, s.space.tables, f);
  }

  lemma LeafFields(w: Word, level: nat)
    requires Decode(w, level).Leaf? && level < 3
    ensures (level == 1 || level == 2) && Decode(w, level) == Leaf(BlockOutput(w, level), MemoryType(w))
    ensures BlockOutput(w, level) % SlotPages(level) == 0
    ensures BlockOutput(w, level) + SlotPages(level) <= PAGE_LIMIT && MemoryType(w) < 8
  {
    DecodeBounds(w, level);
  }

  lemma BlockBase(page: nat, level: nat)
    requires (level == 1 || level == 2) && page + SlotPages(level) <= PAGE_LIMIT
    ensures page * PAGE_SIZE % KERNEL_SPACE == page * PAGE_SIZE
    ensures page * PAGE_SIZE + RegionSize(level) <= 0x1_0000_0000_0000_0000
  {
  }

  lemma TreeOf(s: Snapshot, mode: MapType)
    requires Good(s, mode)
    ensures Tree(s.mem, s.space.root, s.space.tables)
  {
    hide Tree;
  }

  /** The descriptor for part j of a block that starts at base, whatever its high 16 bits are. */
  lemma PartWord(base: nat, level: nat, j: nat, page: nat, memoryType: nat)
    requires (level == 1 || level == 2) && j < ENTRIES && memoryType < 8
    requires base % KERNEL_SPACE == page * PAGE_SIZE && base + RegionSize(level) <= 0x1_0000_0000_0000_0000
    requires page % SlotPages(level) == 0 && page + SlotPages(level) <= PAGE_LIMIT
    ensures base + j * RegionSize(level + 1) < 0x1_0000_0000_0000_0000
    ensures Decode(LeafWord(level + 1, base + j * RegionSize(level + 1), memoryType), level + 1) ==
            Leaf(page + j * SlotPages(level + 1), memoryType)
  {
    hide Decode, LeafWord;
    var address, part := base + j * RegionSize(level + 1), page + j * SlotPages(level + 1);
    PartOfBlock(Leaf(page, memoryType), level, j);
    var k := base / KERNEL_SPACE;
    assert j * RegionSize(level + 1) + RegionSize(level + 1) <= RegionSize(level);
    DivUnique(address, KERNEL_SPACE, k, part * PAGE_SIZE);
    HighBitsOfLeaf(level + 1, address, memoryType);
    LeafRoundTrip(level + 1, part, memoryType);
  }

  lemma HighBitsOfLeaf(level: nat, address: Word, memoryType: nat)
    requires 1 <= level <= 3
    ensures LeafWord(level, address, memoryType) == LeafWord(level, address % KERNEL_SPACE, memoryType)
  {
    hide PageWord, BlockWord;
    HighBitsDropped(address, memoryType);
  }

  lemma PartOfBlock(block: Desc, level: nat, j: nat)
    requires block.Leaf? && (level == 1 || level == 2) && j < ENTRIES
    requires block.page % SlotPages(level) == 0 && block.page + SlotPages(level) <= PAGE_LIMIT
    ensures
      var part := block.page + j * SlotPages(level + 1);
      && part < PAGE_LIMIT && part % SlotPages(level + 1) == 0
      && part * PAGE_SIZE == block.page * PAGE_SIZE + j * RegionSize(level + 1)
  {
  }

  /** The page behind so many units from a page on. */
  function UnitsEnd(page: nat, number: nat, level: nat): nat {
    page + number * SlotPages(level)
  }

  lemma AlignedUnits(address: nat, number: nat, level: nat)
    requires 2 <= level <= 3 && address % RegionSize(level) == 0
    ensures FirstUnit(address, level) == address / PAGE_SIZE
    ensures EndUnit(address, number, level) == UnitsEnd(address / PAGE_SIZE, number, level)
  {
    hide SlotPages, RegionSize;
    UnitsDone(address, 0, level);
  }

  lemma NoUnits(page: nat, level: nat)
    ensures UnitsEnd(page, 0, level) == page
  {
  }

  /** The pages, blocks and pages of a plan end where the range ends. */
  lemma PlanEnds(address: nat, first: nat, blocks: nat, rest: nat, size: nat)
    requires address % PAGE_SIZE == 0 && Follows(address, first, blocks, rest, size)
    ensures
      var b := address + first * PAGE_SIZE;
      var c := b + blocks * RegionSize(2);
      && UnitsEnd(address / PAGE_SIZE, first, 3) == b / PAGE_SIZE
      && UnitsEnd(b / PAGE_SIZE, blocks, 2) == c / PAGE_SIZE
      && UnitsEnd(c / PAGE_SIZE, rest, 3) == address / PAGE_SIZE + size / PAGE_SIZE
      && b / PAGE_SIZE <= c / PAGE_SIZE <= address / PAGE_SIZE + size / PAGE_SIZE && address / PAGE_SIZE <= b / PAGE_SIZE
      && b % PAGE_SIZE == 0 && c % PAGE_SIZE == 0 && (blocks > 0 ==> b % RegionSize(2) == 0)
  {
  }

  // ---- pages that are mapped already ----------------------------------------------------------

  ghost predicate AllMapped(s: Snapshot, lo: nat, hi: nat) {
    forall v :: lo <= v < hi && v < PAGE_LIMIT ==> s.At(v).Mapped?
  }

  lemma StillMapped(s: Snapshot, s': Snapshot, lo: nat, hi: nat, memoryType: nat, mode: MapType, a: nat, b: nat)
    requires Advance(s, s', lo, hi, memoryType, mode) && AllMapped(s, a, b)
    ensures AllMapped(s', a, b)
  {
    hide Good, Accounts;
    forall v | a <= v < b && v < PAGE_LIMIT
      ensures s'.At(v).Mapped?
    {
      assert Remaps(s.At(v), s'.At(v), v, lo <= v < hi, memoryType, mode, s.claimed);
    }
  }

  /** A hole in a level-3 table is a page that is not mapped. */
  lemma HoleUnmapped(s: Snapshot, mode: MapType, f: nat, i: nat)
    requires Good(s, mode) && f in s.space.tables && s.space.tables[f].level == 3 && i < ENTRIES
    requires f in s.mem && |s.mem[f]| == ENTRIES && s.mem[f][i] == MMU_EMPTY_ENTRY
    ensures s.space.tables[f].base + i < PAGE_LIMIT && s.At(s.space.tables[f].base + i) == Unmapped
  {
    hide Good, Decode;
    TableAt(s, mode, f);
    EmptyIsInvalid(3);
    NoEntry(s, mode, EntryInfo(f, i, 3), s.space.tables[f].base + i);
  }

  lemma SlotOfTable(s: Snapshot, mode: MapType, f: nat, i: nat)
    requires Good(s, mode) && f in s.space.tables && i < ENTRIES
    ensures
      var info := s.space.tables[f];
      Covered(s.space.tables, SlotBase(info.base, info.level, i), info.level)
  {
    hide Good;
    TableAt(s, mode, f);
    var info := s.space.tables[f];
    SlotSizes(info.base, info.level, i);
    PageOfSlot(info, i, SlotBase(info.base, info.level, i));
    CoveredBy(s.space.tables, f, SlotBase(info.base, info.level, i));
  }

  /** A batch ends at a page of its table. */
  lemma BatchCovers(s: Snapshot, mode: MapType, f: nat, first: nat, more: nat, v: nat, end: nat)
    requires Good(s, mode) && f in s.space.tables && 2 <= s.space.tables[f].level <= 3
    requires first + more <= ENTRIES && 0 < more && InSlot(s.space.tables[f], first, v)
    requires end == SlotBase(s.space.tables[f].base, s.space.tables[f].level, first + more)
    ensures SlotBase(s.space.tables[f].base, s.space.tables[f].level, first) < end
    ensures end > 0 && Covered(s.space.tables, end - 1, s.space.tables[f].level)
  {
    hide Good;
    TableAt(s, mode, f);
    CoveredBy(s.space.tables, f, end - 1);
  }

  /** The first units of a call are mapped; the page before the next one has a table of the level. */
  ghost predicate MappedUnits(s: Snapshot, s': Snapshot, address: nat, done: nat, number: nat, level: nat, total: nat,
                              memoryType: nat, mode: MapType)
  {
    var lo, at, hi := FirstUnit(address, level), EndUnit(address, done, level), EndUnit(address, number, level);
    && Advance(s, s', lo, at, memoryType, mode)
    && Grows(s.space.tables, s'.space.tables, lo, hi, level)
    && Supplied(s, s', lo, at, at, total, mode)
    && (lo < at ==> Covered(s'.space.tables, at - 1, level))
  }

  lemma NoMappedUnits(s: Snapshot, address: nat, number: nat, level: nat, total: nat, memoryType: nat, mode: MapType)
    requires Good(s, mode)
    ensures MappedUnits(s, s, address, 0, number, level, total, memoryType, mode)
  {
    hide Good, Advance, Supplied, Grows, FirstUnit, EndUnit, Covered;
    UnitsNone(address, number, level);
    var lo, hi := FirstUnit(address, level), EndUnit(address, number, level);
    AdvanceNone(s, lo, memoryType, mode);
    GrowsNone(s.space.tables, lo, hi, level);
    SuppliedSelf(s, lo, lo, lo, total, mode);
  }

  lemma AllMappedUnits(s: Snapshot, s': Snapshot, address: nat, number: nat, level: nat, total: nat, memoryType: nat,
      mode: MapType)
    requires MappedUnits(s, s', address, number, number, level, total, memoryType, mode)
    ensures
      var lo, hi := FirstUnit(address, level), EndUnit(address, number, level);
      && lo <= hi
      && Advance(s, s', lo, hi, memoryType, mode) && Grows(s.space.tables, s'.space.tables, lo, hi, level)
      && Supplied(s, s', lo, hi, hi, total, mode) && (lo < hi ==> Covered(s'.space.tables, hi - 1, level))
  {
    hide Good, Advance, Supplied, Grows, FirstUnit, EndUnit, Covered;
    UnitsNone(address, number, level);
  }

  // ---- the parts of memory_mmu_insert ---------------------------------------------------------

  /** Of the range the pages before reached are mapped. */
  ghost predicate EndedPart(s: Snapshot, s': Snapshot, address: nat, size: nat, reached: nat, total: nat,
                            memoryType: nat, mode: MapType)
  {
    var lo, hi := address / PAGE_SIZE, address / PAGE_SIZE + size / PAGE_SIZE;
    && lo <= reached <= hi
    && Advance(s, s', lo, reached, memoryType, mode)
    && Grows(s.space.tables, s'.space.tables, lo, hi, TableLevel(address, size))
    && Supplied(s, s', lo, hi, hi, total, mode)
    && BlocksWhole(s.space.tables, s'.space.tables, lo, hi)
  }

  /** The same with nothing claimed for the pages from at on. */
  ghost predicate MappedPart(s: Snapshot, s': Snapshot, address: nat, size: nat, at: nat, total: nat,
                             memoryType: nat, mode: MapType)
  {
    EndedPart(s, s', address, size, at, total, memoryType, mode) && Supplied(s, s', address / PAGE_SIZE, at, at, total, mode)
  }

  /** The next units are part of the range: blocks, or pages outside the whole blocks. */
  ghost predicate FitsPart(t: Tables, at: nat, number: nat, level: nat, address: nat, size: nat) {
    var lo, hi, end := address / PAGE_SIZE, address / PAGE_SIZE + size / PAGE_SIZE, UnitsEnd(at, number, level);
    && lo <= at && end <= hi <= PAGE_LIMIT && level <= TableLevel(address, size) && Ready(t, lo, at, level)
    && (level == 2 || (level == 3 && (end <= (lo + 511) / 512 * 512 || hi / 512 * 512 <= at)))
  }

  lemma EndOfPart(s: Snapshot, s': Snapshot, address: nat, size: nat, at: nat, total: nat, memoryType: nat, mode: MapType)
    requires MappedPart(s, s', address, size, at, total, memoryType, mode)
    ensures EndedPart(s, s', address, size, at, total, memoryType, mode)
  {
    hide EndedPart;
  }

  lemma GoodMapped(s: Snapshot, here: Snapshot, at: nat, number: nat, level: nat, address: nat, size: nat, total: nat,
                   memoryType: nat, mode: MapType)
    requires MappedPart(s, here, address, size, at, total, memoryType, mode)
    requires FitsPart(here.space.tables, at, number, level, address, size)
    ensures Good(here, mode) && here.space.root == s.space.root && UnitsEnd(at, number, level) <= PAGE_LIMIT
  {
    hide Advance, Grows, Supplied, BlocksWhole, TableLevel, UnitsEnd, Ready;
    GoodAfter(s, here, address / PAGE_SIZE, at, memoryType, mode);
  }

  /** One more part of the range. */
  lemma ThenPart(s: Snapshot, here: Snapshot, s': Snapshot, ok: bool, at: nat, reached: nat, number: nat, level: nat,
                 address: nat, size: nat, total: nat, memoryType: nat, mode: MapType)
    requires MappedPart(s, here, address, size, at, total, memoryType, mode) && 2 <= level <= 3
    requires FitsPart(here.space.tables, at, number, level, address, size)
    requires
      var end := UnitsEnd(at, number, level);
      && at <= reached <= end && (ok ==> reached == end)
      && Advance(here, s', at, reached, memoryType, mode) && Grows(here.space.tables, s'.space.tables, at, end, level)
      && Supplied(here, s', at, end, end, total, mode)
    ensures EndedPart(s, s', address, size, reached, total, memoryType, mode)
    ensures ok ==> MappedPart(s, s', address, size, reached, total, memoryType, mode)
  {
    hide Good, Advance, Grows, Supplied, BlocksWhole, TableLevel, UnitsEnd, Ready;
    var lo, hi, end := address / PAGE_SIZE, address / PAGE_SIZE + size / PAGE_SIZE, UnitsEnd(at, number, level);
    GoodAfter(s, here, lo, at, memoryType, mode);
    GoodAfter(here, s', at, reached, memoryType, mode);
    AdvanceThen(s, here, s', lo, at, reached, memoryType, mode);
    GrowsThen(s.space.tables, here.space.tables, s'.space.tables, lo, hi, at, end, TableLevel(address, size), level);
    SuppliedPart(s, here, s', lo, at, end, level, total, mode);
    SuppliedWider(s, s', lo, end, end, hi, hi, total, mode);
    WholeThen(s.space.tables, here, s', mode, at, end, level, lo, hi);
  }

  lemma NothingOfRange(s: Snapshot, address: nat, size: nat, total: nat, memoryType: nat, mode: MapType)
    requires Good(s, mode)
    ensures MappedPart(s, s, address, size, address / PAGE_SIZE, total, memoryType, mode)
  {
    hide Good, Advance, Grows, Supplied, BlocksWhole, TableLevel;
    var lo, hi := address / PAGE_SIZE, address / PAGE_SIZE + size / PAGE_SIZE;
    AdvanceNone(s, lo, memoryType, mode);
    GrowsNone(s.space.tables, lo, hi, TableLevel(address, size));
    SuppliedSelf(s, lo, hi, hi, total, mode);
    SuppliedSelf(s, lo, lo, lo, total, mode);
    WholeNone(s.space.tables, lo, hi);
  }

  /** The whole blocks of the range are those of the plan. */
  lemma PartsOfPlan(address: nat, size: nat, gap: nat, units: nat, rest: nat)
    requires address % PAGE_SIZE == 0 && gap == GapToBlock(address) && size >= gap + RegionSize(2)
    requires units == (size - gap) / RegionSize(2) && rest == (size - (gap + units * RegionSize(2))) / PAGE_SIZE
    ensures
      var lo, hi := address / PAGE_SIZE, address / PAGE_SIZE + size / PAGE_SIZE;
      && units > 0 && gap / PAGE_SIZE * PAGE_SIZE == gap
      && (lo + 511) / 512 * 512 == lo + gap / PAGE_SIZE
      && hi / 512 * 512 == lo + gap / PAGE_SIZE + units * 512 && hi == hi / 512 * 512 + rest
      && 2 <= TableLevel(address, size) && (gap > 0 || rest > 0 ==> TableLevel(address, size) == 3)
  {
    hide GapToBlock, AlignUp;
    InsertGeometry(address, size);
    WholeBlocks(address, size);
    hide TableLevel;
    SizeOfPlan(size, gap, units, rest);
    BlockBoundary(address, gap, (address + gap) / RegionSize(2));
    PlanPages(address / PAGE_SIZE, (address + gap) / RegionSize(2), gap / PAGE_SIZE, units, rest);
  }

  lemma SizeOfPlan(size: nat, gap: nat, units: nat, rest: nat)
    requires size >= gap + RegionSize(2) && gap % PAGE_SIZE == 0
    requires units == (size - gap) / RegionSize(2) && rest == (size - (gap + units * RegionSize(2))) / PAGE_SIZE
    ensures units > 0 && rest < 512 && gap / PAGE_SIZE * PAGE_SIZE == gap
    ensures size / PAGE_SIZE == gap / PAGE_SIZE + units * 512 + rest
  {
    var r := size - (gap + units * RegionSize(2));
    DivUnique(size, PAGE_SIZE, gap / PAGE_SIZE + units * 512 + rest, r % PAGE_SIZE);
  }

  lemma BlockBoundary(address: nat, gap: nat, q: nat)
    requires address % PAGE_SIZE == 0 && gap % PAGE_SIZE == 0 && address + gap == q * RegionSize(2) && gap < RegionSize(2)
    ensures address / PAGE_SIZE + gap / PAGE_SIZE == 512 * q && gap / PAGE_SIZE < 512
  {
    DivUnique(address + gap, PAGE_SIZE, address / PAGE_SIZE + gap / PAGE_SIZE, 0);
    DivUnique(address + gap, PAGE_SIZE, 512 * q, 0);
  }

  lemma PlanPages(lo: nat, q: nat, g: nat, units: nat, rest: nat)
    requires lo + g == 512 * q && g < 512 && rest < 512
    ensures (lo + 511) / 512 * 512 == lo + g
    ensures (lo + g + units * 512 + rest) / 512 * 512 == lo + g + units * 512
  {
    DivUnique(lo + 511, 512, q, 511 - g);
    DivUnique(lo + g + units * 512 + rest, 512, q + units, rest);
  }

  lemma FitsBlocks(t: Tables, address: nat, size: nat, gap: nat, units: nat, rest: nat)
    requires address % PAGE_SIZE == 0 && address + size <= PAGE_LIMIT * PAGE_SIZE
    requires gap == GapToBlock(address) && size >= gap + RegionSize(2)
    requires units == (size - gap) / RegionSize(2) && rest == (size - (gap + units * RegionSize(2))) / PAGE_SIZE
    requires
      var lo, at := address / PAGE_SIZE, (address + gap) / PAGE_SIZE;
      lo < at ==> Covered(t, at - 1, 3)
    ensures FitsPart(t, (address + gap) / PAGE_SIZE, units, 2, address, size)
  {
    hide GapToBlock, Covered, TableLevel;
    PartsOfPlan(address, size, gap, units, rest);
    RangeInLimit(address, size);
    DivUnique(address + gap, PAGE_SIZE, address / PAGE_SIZE + gap / PAGE_SIZE, 0);
  }

  lemma FitsRest(t: Tables, address: nat, size: nat, gap: nat, units: nat, rest: nat)
    requires address % PAGE_SIZE == 0 && address + size <= PAGE_LIMIT * PAGE_SIZE
    requires gap == GapToBlock(address) && size >= gap + RegionSize(2)
    requires units == (size - gap) / RegionSize(2) && rest == (size - (gap + units * RegionSize(2))) / PAGE_SIZE
    requires
      var at := (address + gap + units * RegionSize(2)) / PAGE_SIZE;
      (address + gap) / PAGE_SIZE < at ==> Covered(t, at - 1, 2)
    ensures rest > 0 ==> FitsPart(t, (address + gap + units * RegionSize(2)) / PAGE_SIZE, rest, 3, address, size)
  {
    hide GapToBlock, Covered, TableLevel;
    PartsOfPlan(address, size, gap, units, rest);
    RangeInLimit(address, size);
    var lo, g := address / PAGE_SIZE, gap / PAGE_SIZE;
    DivUnique(address + gap, PAGE_SIZE, lo + g, 0);
    DivUnique(address + gap + units * RegionSize(2), PAGE_SIZE, lo + g + units * 512, 0);
  }

  /** A range without room for a block has no whole block. */
  lemma ShortIsWhole(t: Tables, t': Tables, address: nat, size: nat)
    requires address % PAGE_SIZE == 0 && size < GapToBlock(address) + RegionSize(2)
    ensures BlocksWhole(t, t', address / PAGE_SIZE, address / PAGE_SIZE + size / PAGE_SIZE)
  {
    hide GapToBlock, AlignUp;
    InsertGeometry(address, size);
    var lo, q, gap := address / PAGE_SIZE, (address + GapToBlock(address)) / RegionSize(2), GapToBlock(address);
    BlockBoundary(address, gap, q);
    PlanPages(lo, q, gap / PAGE_SIZE, 0, 0);
    BelowNextBlock(lo + size / PAGE_SIZE, q);
  }

  lemma BelowNextBlock(hi: nat, q: nat)
    ensures hi < 512 * q + 512 ==> hi / 512 * 512 <= 512 * q
  {
  }

  /** The plan of the long branch: pages up to a block boundary, blocks, pages. */
  lemma InsertParts(s: Snapshot, address: nat, size: nat, gap: nat, units: nat, rest: nat, total: nat,
                    memoryType: nat, mode: MapType)
    requires Good(s, mode) && address % PAGE_SIZE == 0 && address + size <= PAGE_LIMIT * PAGE_SIZE
    requires gap == GapToBlock(address) && size >= gap + RegionSize(2) && units == (size - gap) / RegionSize(2)
    requires Follows(address, gap / PAGE_SIZE, units, rest, size) && rest == (size - (gap + units * RegionSize(2))) / PAGE_SIZE
    ensures MappedPart(s, s, address, size, address / PAGE_SIZE, total, memoryType, mode)
    ensures address % RegionSize(3) == 0 && gap / PAGE_SIZE * PAGE_SIZE == gap
    ensures
      var b, c := address + gap, address + gap + units * RegionSize(2);
      && UnitsEnd(address / PAGE_SIZE, gap / PAGE_SIZE, 3) == b / PAGE_SIZE
      && UnitsEnd(b / PAGE_SIZE, units, 2) == c / PAGE_SIZE
      && UnitsEnd(c / PAGE_SIZE, rest, 3) == address / PAGE_SIZE + size / PAGE_SIZE
    ensures gap > 0 ==> FitsPart(s.space.tables, address / PAGE_SIZE, gap / PAGE_SIZE, 3, address, size)
    ensures (address + gap) % RegionSize(2) == 0 && (rest > 0 ==> (address + gap + units * RegionSize(2)) % RegionSize(3) == 0)
  {
    hide Good, GapToBlock, MappedPart;
    NothingOfRange(s, address, size, total, memoryType, mode);
    InsertGeometry(address, size);
    PlanEnds(address, gap / PAGE_SIZE, units, rest, size);
    RangeInLimit(address, size);
    PartsOfPlan(address, size, gap, units, rest);
  }

  lemma PagesEnd(page: nat, number: nat)
    ensures UnitsEnd(page, number, 3) == page + number
  {
  }

  /** A hole of a table that is filled from a wrong address would be a page that was mapped before. */
  lemma HoleIsPlain(before: Snapshot, here: Snapshot, mode: MapType, f: nat, i: nat, memoryType: nat, virtAddr: nat)
    requires f in here.space.tables && here.space.tables[f].level == 3 && i < ENTRIES
    requires Advance(before, here, here.space.tables[f].base, here.space.tables[f].base + i, memoryType, mode)
    requires f in here.mem && |here.mem[f]| == ENTRIES && here.mem[f][i] == MMU_EMPTY_ENTRY
    requires
      var lo := here.space.tables[f].base;
      mode.MapOneToOne? ==> virtAddr == lo * PAGE_SIZE || AllMapped(before, lo, lo + ENTRIES)
    ensures mode.MapOneToOne? ==> virtAddr == here.space.tables[f].base * PAGE_SIZE
  {
    hide Good, Advance;
    var lo := here.space.tables[f].base;
    GoodAfter(before, here, lo, lo + i, memoryType, mode);
    HoleUnmapped(here, mode, f, i);
    if AllMapped(before, lo, lo + ENTRIES) {
      StillMapped(before, here, lo, lo + i, memoryType, mode, lo, lo + ENTRIES);
    }
  }

  lemma SlotBaseMono(base: nat, level: nat, i: nat, j: nat)
    requires i <= j
    ensures SlotBase(base, level, i) <= SlotBase(base, level, j)
  {
  }

  lemma RangeInLimit(address: nat, size: nat)
    requires address % PAGE_SIZE == 0 && address + size <= PAGE_LIMIT * PAGE_SIZE
    ensures address / PAGE_SIZE + size / PAGE_SIZE <= PAGE_LIMIT
  {
  }
}
