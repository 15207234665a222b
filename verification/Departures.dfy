/** Address spaces on which the lines as written go wrong, each a well-formed tree that owns its outputs. */
module Departures {
  import opened Descriptor
  import opened FrameSet
  import opened PageTree
  import opened AddressSpace
  import opened Teardown
  import opened FarSplits
  import opened MmuFacts
  import opened WrittenFacts
  import opened Memory

  /** Frame g with these words becomes the table in slot (f, i). */
  function Link(s: Snapshot, f: nat, i: nat, g: nat, words: seq<Word>): Snapshot
    requires f in s.mem && i < |s.mem[f]| && f in s.space.tables && g < PAGE_LIMIT
  {
    Snapshot(WriteWord(s.mem, f, i, TableWord(g * PAGE_SIZE))[g := words], s.claimed + {g},
             s.space.(tables := s.space.tables[g := ChildInfo(s.space.tables[f], f, i)]))
  }

  lemma LinkGood(s: Snapshot, f: nat, i: nat, g: nat)
    requires Good(s, MapAlloc) && f in s.space.tables && i < ENTRIES && s.space.tables[f].level < 3
    requires f in s.mem && |s.mem[f]| == ENTRIES && s.mem[f][i] == MMU_EMPTY_ENTRY && g !in s.claimed && g < PAGE_LIMIT
    ensures Good(Link(s, f, i, g, EMPTY_TABLE), MapAlloc)
    ensures Decode(TableWord(g * PAGE_SIZE), s.space.tables[f].level) == Table(g)
  {
    hide Good, Tree, Decode, TableWord;
    var s' := Link(s, f, i, g, EMPTY_TABLE);
    FreshFrame(s, MapAlloc, g, f);
    TableStep(s, s', f, i, g, MapAlloc);
    TableRoundTrip(g, s.space.tables[f].level);
    GoodAfter(s, s', 0, 0, 0, MapAlloc);
  }

  /** The slot (f, i) of a level-2 table gets a block of free frames. */
  function PutBlock(s: Snapshot, f: nat, i: nat, page: nat): Snapshot
    requires f in s.mem && i < |s.mem[f]| && f in s.space.tables && page < PAGE_LIMIT
  {
    Snapshot(WriteWord(s.mem, f, i, LeafWord(2, page * PAGE_SIZE, 0)), s.claimed + Run(page, 512),
             s.space.(outputs := s.space.outputs + Backing(page, 512, SlotBase(s.space.tables[f].base, 2, i))))
  }

  lemma PutGood(s: Snapshot, f: nat, i: nat, page: nat)
    requires Good(s, MapAlloc) && f in s.space.tables && i < ENTRIES && s.space.tables[f].level == 2
    requires f in s.mem && |s.mem[f]| == ENTRIES && s.mem[f][i] == MMU_EMPTY_ENTRY
    requires page < PAGE_LIMIT && page % 512 == 0 && Run(page, 512) !! s.claimed
    ensures Good(PutBlock(s, f, i, page), MapAlloc)
    ensures Decode(LeafWord(2, page * PAGE_SIZE, 0), 2) == Leaf(page, 0)
    ensures LeafWord(2, page * PAGE_SIZE, 0) != MMU_EMPTY_ENTRY
    ensures
      var s', lo := PutBlock(s, f, i, page), SlotBase(s.space.tables[f].base, 2, i);
      lo < PAGE_LIMIT && s'.At(lo).Mapped?
  {
    hide Good, Tree, Decode, LeafWord, Run, Backing, RemapsRange, SlotBase;
    var s', lo := PutBlock(s, f, i, page), SlotBase(s.space.tables[f].base, 2, i);
    SlotAligned(s, MapAlloc, f, i);
    CreateStep(s, s', f, i, page, 0, MapAlloc);
    LeafRoundTrip(2, page, 0);
    EmptyIsInvalid(2);
    GoodAfter(s, s', lo, lo + 512, 0, MapAlloc);
    FirstMapped(s, s', lo, 512);
  }

  lemma FirstMapped(s: Snapshot, s': Snapshot, lo: nat, number: nat)
    requires Advance(s, s', lo, lo + number, 0, MapAlloc) && number > 0 && lo < PAGE_LIMIT
    ensures s'.At(lo).Mapped?
  {
    hide Good, Accounts;
    assert Remaps(s.At(lo), s'.At(lo), lo, lo <= lo < lo + number, 0, MapAlloc, s.claimed);
  }

  /** A space whose level-0 table is frame 0, with a level-1 table in frame 1. */
  lemma TwoTables() returns (s: Snapshot)
    ensures Good(s, MapAlloc) && s.space.root == 0 && s.claimed == {0, 1} && s.mem.Keys == {0, 1}
    ensures s.space.tables == map[0 := Info(0, 0, 0, 0), 1 := Info(1, 0, 0, 0)] && s.mem[1] == EMPTY_TABLE
    ensures Decode(s.mem[0][0], 0) == Table(1) && |s.mem[0]| == ENTRIES
  {
    hide Good, Decode, TableWord;
    var s0 := Snapshot(map[0 := EMPTY_TABLE], {0}, EmptySpace(0));
    EmptySpaceGood(s0);
    LinkGood(s0, 0, 0, 1);
    s := Link(s0, 0, 0, 1, EMPTY_TABLE);
  }

  /** The same with a level-2 table in frame 2, in slot i of the level-1 table. */
  lemma ThreeTables(i: nat) returns (s: Snapshot)
    requires i < ENTRIES
    ensures Good(s, MapAlloc) && s.space.root == 0 && s.claimed == {0, 1, 2} && s.mem.Keys == {0, 1, 2}
    ensures s.space.tables == map[0 := Info(0, 0, 0, 0), 1 := Info(1, 0, 0, 0), 2 := Info(2, SlotBase(0, 1, i), 1, i)]
    ensures s.mem[2] == EMPTY_TABLE && |s.mem[1]| == ENTRIES && Decode(s.mem[1][i], 1) == Table(2)
    ensures Decode(s.mem[0][0], 0) == Table(1) && |s.mem[0]| == ENTRIES
  {
    hide Good, Decode, TableWord;
    var s1 := TwoTables();
    LinkGood(s1, 1, i, 2);
    s := Link(s1, 1, i, 2, EMPTY_TABLE);
  }

  /** An empty level-2 table in slot 511 of a level-1 table: the teardown as written reads slot 512. */
  lemma TeardownStrays() returns (s: Snapshot)
    ensures Good(s, MapAlloc) && s.space.root == 0 && 0 in s.mem && |s.mem[0]| == ENTRIES && SlotStrays(s.mem, s.mem[0][0])
  {
    hide Good, Decode, Strays;
    s := ThreeTables(511);
    TreeOf(s, MapAlloc);
    assert FullToTheEnd(s.mem, s.space.tables, 1);
    StraysFromSlot(s.mem, 1, 1, 0, 511);
  }

  /** A block in slot 1 of a level-2 table whose slot 0 is empty: the lookup as written gives NULL for a
      page that is mapped. */
  lemma LookupMisses() returns (s: Snapshot)
    ensures Good(s, MapAlloc) && EndOfWalk(s.mem, s.space, EntryInfo(2, 1, 2), 512)
    ensures s.At(512).Mapped? && s.mem[2][0] == MMU_EMPTY_ENTRY
    ensures !LookupRight(s.mem, s.space, EntryInfo(2, 1, 2), 512) && KernelAddress(s.At(512), 512 * PAGE_SIZE) != 0
  {
    hide Good, Decode, LeafWord, Backing, Translate;
    var s2 := ThreeTables(0);
    PutGood(s2, 2, 1, 512);
    s := PutBlock(s2, 2, 1, 512);
  }

  /** A block in slot 0 and a table of holes in slot 1: mapping both slots as written fails the assertion of
      mmu_get_subtable. */
  lemma SubtableTrips() returns (s: Snapshot)
    ensures Good(s, MapAlloc) && Trips(s.space.tables, 0, 1024)
    ensures s.space.tables == map[0 := Info(0, 0, 0, 0), 1 := Info(1, 0, 0, 0), 2 := Info(2, 0, 1, 0), 3 := Info(3, 512, 2, 1)]
    ensures 2 in s.mem && |s.mem[2]| == ENTRIES && Decode(s.mem[2][0], 2).Leaf? && Decode(s.mem[2][1], 2) == Table(3)
  {
    hide Good, Decode, LeafWord, Backing, TableWord;
    var s2 := ThreeTables(0);
    PutGood(s2, 2, 0, 512);
    var s3 := PutBlock(s2, 2, 0, 512);
    LinkGood(s3, 2, 1, 3);
    s := Link(s3, 2, 1, 3, EMPTY_TABLE);
    assert s.space.tables[3] == Info(3, 512, 2, 1);
    assert HasTable(s.space.tables, 512);
    assert TripsAt(s.space.tables, 0, 512);
  }

  /** Tables of holes in slots 0 and 1: mapping both slots as written leaves the second as it is. */
  lemma SubtableForgets() returns (s: Snapshot)
    ensures Good(s, MapAlloc) && !Trips(s.space.tables, 0, 1024) && Forgotten(s.space.tables, 0, 512)
    ensures s.At(512) == Unmapped
  {
    hide Good, Decode, TableWord, Translate;
    var s2 := ThreeTables(0);
    LinkGood(s2, 2, 0, 3);
    var s3 := Link(s2, 2, 0, 3, EMPTY_TABLE);
    LinkGood(s3, 2, 1, 4);
    s := Link(s3, 2, 1, 4, EMPTY_TABLE);
    assert s.space.tables[3] == Info(3, 0, 2, 0) && s.space.tables[4] == Info(3, 512, 2, 1);
    assert HasTable(s.space.tables, 0) && HasTable(s.space.tables, 512);
    forall w | 0 <= w < 1024
      ensures !TripsAt(s.space.tables, 0, w)
    {
      assert BatchStart(0, w) == 0;
    }
    HoleUnmapped(s, MapAlloc, 4, 0);
  }

  /** A block at 2 GB: its parts as written lie 2 GB below the end of the 48-bit space, and inserting page 0 as
      written splits it. */
  lemma SplitMoves() returns (s: Snapshot)
    ensures Good(s, MapAlloc) && 2 in s.mem && |s.mem[2]| == ENTRIES && Decode(s.mem[2][0], 2) == Leaf(0x8_0000, 0)
    ensures SplitPageAsWritten(0x8_0000) == 0xF_FFF8_0000
    ensures InsertMeetsFar(s, 0, PAGE_SIZE)
  {
    hide Good, Decode, LeafWord, Backing, Translate;
    var s2 := ThreeTables(0);
    PutGood(s2, 2, 0, 0x8_0000);
    s := PutBlock(s2, 2, 0, 0x8_0000);
    SplitPageIff(0x8_0000);
    TreeOf(s, MapAlloc);
    BlockAt(s, 2, 0);
    assert SplitsFar(s, 0, 3);
  }
}
