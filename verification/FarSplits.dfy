/** The blocks whose parts mmu_split_block_entry as written moves, and which pages make
    mmu_traverse_and_alloc_tables split one. */
module FarSplits {
  import opened Arithmetic
  import opened Descriptor
  import opened PageTree
  import opened AddressSpace
  import opened Teardown

  /** At or above 2 GB and below the last 2 GB of the 48-bit space. */
  predicate Far(page: nat) {
    0x8_0000 <= page < 0xF_FFF8_0000
  }

  /** Page v is mapped by a block above the given level, one that moves when it is split. */
  ghost predicate SplitsFar(s: Snapshot, v: nat, level: nat) {
    v < PAGE_LIMIT && s.At(v).Mapped? && Far(s.At(v).page) && !Covered(s.space.tables, v, level)
  }

  ghost predicate MeetsFar(s: Snapshot, lo: nat, hi: nat, level: nat) {
    exists v :: lo <= v < hi && SplitsFar(s, v, level)
  }

  /** All pages of a block are far or none is. */
  lemma FarOfBlock(page: nat, level: nat, r: nat)
    requires (level == 1 || level == 2) && page % SlotPages(level) == 0 && r < SlotPages(level)
    ensures Far(page + r) <==> Far(page)
  {
  }

  /** There is no table below a leaf. */
  lemma LeafUncovered(s: Snapshot, f: nat, i: nat, v: nat, level: nat)
    requires Tree(s.mem, s.space.root, s.space.tables) && f in s.space.tables && i < ENTRIES
    requires f in s.mem && |s.mem[f]| == ENTRIES && Decode(s.mem[f][i], s.space.tables[f].level).Leaf?
    requires InSlot(s.space.tables[f], i, v) && s.space.tables[f].level < level
    ensures !Covered(s.space.tables, v, level)
  {
    hide Tree, Decode, InTable, InSlot;
    var t := s.space.tables;
    if g :| g in t && t[g].level == level && InTable(t[g], v) {
      TableOf(s.mem, s.space.root, t, f);
      TableOf(s.mem, s.space.root, t, g);
      StartsInSlot(t[f], i, t[g], v);
      var h := Below(s.mem, s.space.root, t, f, i, g);
    }
  }

  /** A mapped page without a table of the level is mapped by a leaf above it. */
  lemma {:induction false} LeafAbove(s: Snapshot, f: nat, v: nat, level: nat) returns (g: nat, i: nat)
    requires Tree(s.mem, s.space.root, s.space.tables) && f in s.space.tables && InTable(s.space.tables[f], v)
    requires s.space.tables[f].level < level <= 3 && v < PAGE_LIMIT && s.At(v).Mapped? && !Covered(s.space.tables, v, level)
    ensures g in s.space.tables && s.space.tables[g].level < level && i < ENTRIES && InSlot(s.space.tables[g], i, v)
    ensures g in s.mem && |s.mem[g]| == ENTRIES && Decode(s.mem[g][i], s.space.tables[g].level).Leaf?
    decreases 4 - s.space.tables[f].level
  {
    hide Tree, Decode, InTable, InSlot, SlotOf, ChildInfo, Translate;
    var t := s.space.tables;
    TableOf(s.mem, s.space.root, t, f);
    g, i := f, SlotOf(v, t[f].level);
    SlotOfPage(t[f], v);
    assert SlotOk(s.mem[f][i], t, f, i);
    var d := Decode(s.mem[f][i], t[f].level);
    if d.Table? {
      ChildOf(t[f], f, i, v);
      g, i := LeafAbove(s, d.next, v, level);
    } else {
      TranslateInSlot(s.mem, s.space.root, t, f, i, v);
    }
  }

  lemma ChildOf(info: Info, f: nat, i: nat, v: nat)
    requires Placed(info) && info.level < 3 && i < ENTRIES && InSlot(info, i, v)
    ensures InTable(ChildInfo(info, f, i), v) && ChildInfo(info, f, i).level == info.level + 1
  {
    ChildPlaced(info, i, ChildInfo(info, f, i));
  }

  /** The pages of a whole table lie in one slot of a table further up. */
  lemma AreaInSlot(info: Info, i: nat, area: Info, u: nat, v: nat)
    requires Placed(info) && Placed(area) && 1 <= info.level < area.level && i < ENTRIES
    requires InSlot(info, i, u) && InTable(area, u) && InTable(area, v)
    ensures InSlot(info, i, v)
  {
    StartsInSlot(info, i, area, u);
    SlotEnd(info, i);
    LowerSize(SlotBase(info.base, info.level, i) + SlotPages(info.level), info.level, area);
    hide SlotBase, SlotPages, TablePages, Placed;
    AreaSize(area.level);
    Apart(area.base, SlotBase(info.base, info.level, i) + SlotPages(info.level), TablePages(area.level));
  }

  lemma AreaSize(level: nat)
    ensures TablePages(level) > 0
  {
  }

  lemma SlotEnd(info: Info, i: nat)
    requires Placed(info) && i < ENTRIES
    ensures (SlotBase(info.base, info.level, i) + SlotPages(info.level)) % SlotPages(info.level) == 0
  {
    SlotArithmetic(info.base, SlotPages(info.level), i, 0);
    AddMultiples(SlotBase(info.base, info.level, i), SlotPages(info.level), SlotPages(info.level));
  }

  /** What holds for one page that a table of the level would translate holds for the others. */
  lemma FarArea(s: Snapshot, mode: MapType, area: Info, u: nat, v: nat)
    requires Good(s, mode) && Placed(area) && 1 <= area.level && InTable(area, u) && InTable(area, v)
    requires SplitsFar(s, u, area.level)
    ensures SplitsFar(s, v, area.level)
  {
    hide Tree, OwnsOutputs, Decode, InTable, InSlot, Far, Covered, Translate, SlotBase, SlotPages;
    var t := s.space.tables;
    RootOf(s, u);
    var g, i := LeafAbove(s, s.space.root, u, area.level);
    TableOf(s.mem, s.space.root, t, g);
    var level := t[g].level;
    DecodeBounds(s.mem[g][i], level);
    AreaInSlot(t[g], i, area, u, v);
    BlockAt(s, g, i);
    PageInSlot(t[g], i, area, v);
    PageInSlot(t[g], i, area, u);
    var block, lo := Decode(s.mem[g][i], level), SlotBase(t[g].base, level, i);
    FarOfBlock(block.page, level, u - lo);
    FarOfBlock(block.page, level, v - lo);
    LeafUncovered(s, g, i, v, area.level);
  }

  lemma PageInSlot(info: Info, i: nat, area: Info, v: nat)
    requires Placed(area) && InTable(area, v) && InSlot(info, i, v)
    ensures v < PAGE_LIMIT && 0 <= v - SlotBase(info.base, info.level, i) < SlotPages(info.level)
  {
  }

  lemma RootOf(s: Snapshot, v: nat)
    requires Tree(s.mem, s.space.root, s.space.tables) && v < PAGE_LIMIT
    ensures
      var root, t := s.space.root, s.space.tables;
      root in t && t[root].level == 0 && InTable(t[root], v)
  {
  }

  /** A page that splits a far block after some pages were mapped did so before. */
  lemma FarBefore(s: Snapshot, s': Snapshot, pages: set<nat>, memoryType: nat, mode: MapType, v: nat, level: nat)
    requires AdvanceIn(s, s', pages, memoryType, mode) && v !in pages && SplitsFar(s', v, level)
    ensures SplitsFar(s, v, level)
  {
    hide Good, InTable, Far, Translate;
    assert Remaps(s.At(v), s'.At(v), v, v in pages, memoryType, mode, s.claimed);
    if Covered(s.space.tables, v, level) {
      CoveredStays(s.space.tables, s'.space.tables, v, level);
    }
  }

  /** And the other way round, unless a page of the same table split the block before. */
  lemma FarAfter(s: Snapshot, s': Snapshot, pages: set<nat>, memoryType: nat, mode: MapType, v: nat, level: nat,
                 lo: nat, at: nat, top: nat)
    requires Good(s, mode) && AdvanceIn(s, s', pages, memoryType, mode) && v !in pages && SplitsFar(s, v, level)
    requires Grows(s.space.tables, s'.space.tables, lo, at, top) && 1 <= level <= 3
    requires level <= top ==> !MeetsFar(s, lo, at, level)
    ensures SplitsFar(s', v, level)
  {
    hide Good, Far, Translate, TablePages;
    assert Remaps(s.At(v), s'.At(v), v, v in pages, memoryType, mode, s.claimed);
    if g :| g in s'.space.tables && s'.space.tables[g].level == level && InTable(s'.space.tables[g], v) {
      var area := s'.space.tables[g];
      assert g !in s.space.tables;
      TableAt(s', mode, g);
      var w := if lo <= area.base then area.base else lo;
      FarArea(s, mode, area, v, w);
    }
  }

  /** The pages from at to end belong to one table of the level, as page v does. */
  lemma MeetsNext(s: Snapshot, mode: MapType, lo: nat, at: nat, end: nat, area: Info, v: nat)
    requires Good(s, mode) && Placed(area) && 1 <= area.level && area.base <= at && end <= area.base + TablePages(area.level)
    requires !MeetsFar(s, lo, at, area.level) && InTable(area, v) && !SplitsFar(s, v, area.level)
    ensures !MeetsFar(s, lo, end, area.level)
  {
    hide Good, SplitsFar, TablePages;
    if u :| lo <= u < end && SplitsFar(s, u, area.level) {
      assert u >= at;
      FarArea(s, mode, area, u, v);
    }
  }

  // ---- on the way down ------------------------------------------------------------------------

  ghost predicate FarAt(s: Snapshot, v: nat) {
    s.At(v).Mapped? && Far(s.At(v).page)
  }

  lemma SameAt(s: Snapshot, s': Snapshot, mode: MapType, v: nat, level: nat)
    requires Advance(s, s', 0, 0, 0, mode) && v < PAGE_LIMIT
    ensures FarAt(s', v) <==> FarAt(s, v)
    ensures SplitsFar(s', v, level) ==> SplitsFar(s, v, level)
  {
    hide Good, Translate, Far, Covered;
    assert Remaps(s.At(v), s'.At(v), v, 0 <= v < 0, 0, mode, s.claimed);
    if Covered(s.space.tables, v, level) {
      CoveredStays(s.space.tables, s'.space.tables, v, level);
    }
  }

  lemma EmptySlot(s: Snapshot, mode: MapType, f: nat, i: nat, v: nat)
    requires Good(s, mode) && f in s.space.tables && i < ENTRIES && InSlot(s.space.tables[f], i, v)
    requires f in s.mem && |s.mem[f]| == ENTRIES && s.mem[f][i] == MMU_EMPTY_ENTRY
    ensures s.At(v) == Unmapped
  {
    hide Tree, OwnsOutputs, Decode;
    TableAt(s, mode, f);
    EmptyIsInvalid(s.space.tables[f].level);
    TranslateInSlot(s.mem, s.space.root, s.space.tables, f, i, v);
  }

  /** A leaf above the level is far exactly when its pages are, and then splitting it moves them. */
  lemma FarLeaf(s: Snapshot, mode: MapType, f: nat, i: nat, v: nat, level: nat)
    requires Good(s, mode) && f in s.space.tables && i < ENTRIES && InSlot(s.space.tables[f], i, v)
    requires f in s.mem && |s.mem[f]| == ENTRIES && Decode(s.mem[f][i], s.space.tables[f].level).Leaf?
    requires v < PAGE_LIMIT && s.space.tables[f].level < level <= 3
    ensures
      var block := Decode(s.mem[f][i], s.space.tables[f].level);
      && (Far(block.page) <==> FarAt(s, v))
      && (Far(block.page) ==> SplitsFar(s, v, level))
  {
    hide Tree, OwnsOutputs, Decode, Far, Covered, Translate, SlotBase, SlotPages;
    var info := s.space.tables[f];
    DecodeBounds(s.mem[f][i], info.level);
    BlockAt(s, f, i);
    FarOfBlock(Decode(s.mem[f][i], info.level).page, info.level, v - SlotBase(info.base, info.level, i));
    LeafUncovered(s, f, i, v, level);
  }
}
