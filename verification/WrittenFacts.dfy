/** memory_mmu_insert as written: which pages it maps, where its assertion fails, which pages make it split
    a block that moves, and which bitmaps make its block claims overlap. */
module WrittenFacts {
  import opened Arithmetic
  import opened Descriptor
  import opened FrameSet
  import opened PageTree
  import opened AddressSpace
  import opened Allocator
  import opened Supply
  import opened Teardown
  import opened InsertCalls
  import opened FarSplits
  import opened MmuFacts

  /** How an operation as written ends: all is done, a claim came back NULL, the assertion of
      mmu_get_subtable fails, a split moved pages, or a claim took frames that were claimed already. The
      source goes on behind the last two; the model stops there. */
  datatype Outcome = Complete | NoFrame | NoSubtable | Moves | Overlaps

  /** The last step did what it was meant to do. */
  predicate AsMeant(outcome: Outcome) {
    !outcome.Moves? && !outcome.Overlaps?
  }

  // ---- the subtable as written ----------------------------------------------------------------

  /** Mapping pages that are mapped with the type already is mapping nothing. */
  lemma NothingNew(s: Snapshot, s': Snapshot, lo: nat, hi: nat, memoryType: nat, mode: MapType, at: nat)
    requires Advance(s, s', lo, hi, memoryType, mode)
    requires forall v :: lo <= v < hi && v < PAGE_LIMIT ==> s.At(v).Mapped? && s.At(v).attr == memoryType
    ensures Advance(s, s', at, at, memoryType, mode)
  {
    hide Good, Accounts;
    forall v | 0 <= v < PAGE_LIMIT
      ensures Remaps(s.At(v), s'.At(v), v, at <= v < at, memoryType, mode, s.claimed)
    {
      assert Remaps(s.At(v), s'.At(v), v, lo <= v < hi, memoryType, mode, s.claimed);
    }
  }

  /** A level-3 table starts at page w. */
  ghost predicate HasTable(t: Tables, w: nat) {
    exists g :: g in t && t[g].level == 3 && t[g].base == w
  }

  /** The first page of the batch in which mmu_map_units comes to the slot at w on its way from lo: the
      batch starts where the level-2 table starts, or at lo. */
  function BatchStart(lo: nat, w: nat): nat {
    var start := w / 0x4_0000 * 0x4_0000;
    if start < lo then lo else start
  }

  /** Page v lies in a level-3 table that is not the first of its batch. */
  ghost predicate Forgotten(t: Tables, lo: nat, v: nat) {
    var w := v / 512 * 512;
    BatchStart(lo, w) != w && HasTable(t, w)
  }

  /** The slot at w holds a table and the first slot of its batch does not. */
  ghost predicate TripsAt(t: Tables, lo: nat, w: nat) {
    w % 512 == 0 && Forgotten(t, lo, w) && !HasTable(t, BatchStart(lo, w))
  }

  /** mmu_get_subtable is asked for the subtable of a slot without one. */
  ghost predicate Trips(t: Tables, lo: nat, hi: nat) {
    exists w :: lo <= w < hi && TripsAt(t, lo, w)
  }

  /** The pages of a range that mmu_map_units as written maps. */
  ghost function ReachedPages(t: Tables, lo: nat, hi: nat, level: nat): set<nat> {
    set v | lo <= v < hi && !(level == 2 && Forgotten(t, lo, v))
  }

  /** A level-3 table starts in [lo, hi). */
  ghost predicate HoldsTables(t: Tables, lo: nat, hi: nat) {
    exists w :: lo <= w < hi && HasTable(t, w)
  }

  /** How many single pages mapping so many units claims at most for themselves: the pages of level 3, or
      the holes of tables at level 2. */
  function UnitSingles(number: nat, level: nat, tables: bool): nat {
    if level == 3 then number else if tables then 512 * number else 0
  }

  /** The same with the tables on the way to the units. */
  function Singles(number: nat, level: nat, tables: bool): nat {
    if level == 3 then 4 * number else if tables then 514 * number else 2 * number
  }

  /** What the unit loop of mmu_map_units as written has done with the units of a level from lo to hi. It maps
      all pages but those of forgotten tables; when it ends early, reached is what was mapped before the last
      step and last the state before it. */
  ghost predicate BatchAsWritten(s: Snapshot, last: Snapshot, outcome: Outcome, reached: set<nat>, lo: nat, hi: nat,
                                 level: nat, total: nat, spent: nat, memoryType: nat, mode: MapType)
  {
    && (outcome.NoSubtable? ==> level == 2 && Trips(s.space.tables, lo, hi))
    && (outcome.Overlaps? ==> mode.MapAlloc? && level == 2 && !NarrowHarmless(last.claimed, total, 512, 512))
    && (outcome.Complete? ==>
          (level == 2 ==> !Trips(s.space.tables, lo, hi)) && reached == ReachedPages(s.space.tables, lo, hi, level))
    && AdvanceIn(s, last, reached, memoryType, mode)
    && Spends(s.claimed, last.claimed, total, spent)
  }

  /** The same for mmu_map_units as a whole, which splits a far block exactly when one of the pages does. */
  ghost predicate MappedAsWritten(s: Snapshot, last: Snapshot, outcome: Outcome, reached: set<nat>, lo: nat, hi: nat,
                                  level: nat, number: nat, total: nat, memoryType: nat, mode: MapType)
  {
    var spent := Singles(number, level, HoldsTables(s.space.tables, lo, hi));
    && BatchAsWritten(s, last, outcome, reached, lo, hi, level, total, spent, memoryType, mode)
    && (outcome.Moves? ==> MeetsFar(s, lo, hi, level))
    && (outcome.Complete? ==> !MeetsFar(s, lo, hi, level))
    && Grows(s.space.tables, last.space.tables, lo, hi, level)
    && Supplied(s, last, lo, hi, hi, total, mode)
    && (outcome.Complete? && lo < hi ==> Covered(last.space.tables, hi - 1, level))
  }

  lemma SlotHasTable(s: Snapshot, mode: MapType, f: nat, i: nat)
    requires Good(s, mode) && f in s.space.tables && s.space.tables[f].level == 2 && i < ENTRIES
    requires f in s.mem && |s.mem[f]| == ENTRIES
    ensures Decode(s.mem[f][i], 2).Table? <==> HasTable(s.space.tables, SlotBase(s.space.tables[f].base, 2, i))
  {
    hide Tree, OwnsOutputs, Decode, NextTable, ValidBit, DescriptorBit, TypeBits, SlotBase;
    var t, w := s.space.tables, SlotBase(s.space.tables[f].base, 2, i);
    SlotKinds(s, mode, f, i);
    if g :| g in t && t[g].level == 3 && t[g].base == w {
      SlotSizes(t[f].base, 2, i);
      var h := Below(s.mem, s.space.root, t, f, i, g);
    }
  }

  lemma SameHasTable(t: Tables, t': Tables, lo: nat, hi: nat)
    requires Grows(t, t', lo, hi, 2)
    ensures forall w :: HasTable(t, w) <==> HasTable(t', w)
  {
    forall w
      ensures HasTable(t, w) <==> HasTable(t', w)
    {
      if g :| g in t && t[g].level == 3 && t[g].base == w {
        assert g in t' && t'[g].level == 3 && t'[g].base == w;
      }
    }
  }

  /** The slots of a batch from slot first of a level-2 table on. */
  lemma BatchOfSlot(info: Info, first: nat, i: nat, lo: nat)
    requires Placed(info) && info.level == 2 && first <= i < ENTRIES
    requires lo <= SlotBase(info.base, 2, first) && (lo == SlotBase(info.base, 2, first) || first == 0)
    ensures
      var w := SlotBase(info.base, 2, i);
      w % 512 == 0 && w / 512 * 512 == w && BatchStart(lo, w) == SlotBase(info.base, 2, first)
  {
    var w := SlotBase(info.base, 2, i);
    DivUnique(w, 0x4_0000, info.base / 0x4_0000, i * 512);
    DivUnique(w, 512, info.base / 512 + i, 0);
  }

  lemma ReachedNone(t: Tables, lo: nat, level: nat)
    ensures ReachedPages(t, lo, lo, level) == {}
  {
  }

  /** One more unit. */
  lemma ReachedNext(t: Tables, lo: nat, w: nat, level: nat)
    requires 2 <= level <= 3 && lo <= w && w % SlotPages(level) == 0
    ensures ReachedPages(t, lo, w + SlotPages(level), level) ==
            ReachedPages(t, lo, w, level) + if level == 2 && Forgotten(t, lo, w) then {} else Run(w, SlotPages(level))
  {
    hide HasTable, BatchStart;
    if level == 2 {
      forall v | w <= v < w + 512
        ensures v / 512 * 512 == w / 512 * 512
      {
        DivUnique(v, 512, w / 512, v - w);
      }
    }
  }

  /** The first unit of a batch is mapped before the others. */
  lemma FirstIsDone(s: Snapshot, s': Snapshot, lo: nat, w: nat, hi: nat, memoryType: nat, mode: MapType)
    requires AdvanceIn(s, s', ReachedPages(s.space.tables, lo, hi, 2), memoryType, mode)
    requires lo <= w && w + 512 <= hi && w % 512 == 0 && BatchStart(lo, w) == w
    ensures forall v :: w <= v < w + 512 && v < PAGE_LIMIT ==> s'.At(v).Mapped? && s'.At(v).attr == memoryType
  {
    hide Good, Accounts, HasTable, BatchStart;
    forall v | w <= v < w + 512 && v < PAGE_LIMIT
      ensures s'.At(v).Mapped? && s'.At(v).attr == memoryType
    {
      DivUnique(v, 512, w / 512, v - w);
      assert Remaps(s.At(v), s'.At(v), v, v in ReachedPages(s.space.tables, lo, hi, 2), memoryType, mode, s.claimed);
    }
  }

  lemma GoodIn(s: Snapshot, s': Snapshot, pages: set<nat>, memoryType: nat, mode: MapType)
    requires AdvanceIn(s, s', pages, memoryType, mode)
    ensures Good(s', mode) && s'.space.root == s.space.root && s.claimed <= s'.claimed
  {
    hide Good;
  }

  lemma BatchStarts(info: Info, first: nat, lo: nat, at: nat, level: nat)
    requires Placed(info) && info.level == level && first < ENTRIES && at == SlotBase(info.base, level, first)
    requires level == 2 && lo < at ==> at % 0x4_0000 == 0
    ensures level == 2 && lo < at ==> first == 0
    ensures level == 2 ==> SlotBase(info.base, 2, ENTRIES) % 0x4_0000 == 0
  {
    if level == 2 {
      var q := info.base / 0x4_0000;
      DivUnique(at, 0x4_0000, q, first * 512);
      DivUnique(SlotBase(info.base, 2, ENTRIES), 0x4_0000, q + 1, 0);
    }
  }

  /** The unit in slot i of a batch that starts in slot first, in terms of the tables before the call. */
  lemma UnitOfBatch(before: Snapshot, unit: Snapshot, mode: MapType, f: nat, first: nat, i: nat,
                    lo: nat, hi: nat, level: nat, memoryType: nat)
    requires Good(unit, mode) && f in unit.space.tables && unit.space.tables[f].level == level && 2 <= level <= 3
    requires first <= i < ENTRIES && Grows(before.space.tables, unit.space.tables, lo, hi, level)
    requires
      var info, t := unit.space.tables[f], before.space.tables;
      var at, w := SlotBase(info.base, level, first), SlotBase(info.base, level, i);
      && lo <= at && (level == 2 && lo < at ==> first == 0)
      && AdvanceIn(before, unit, ReachedPages(t, lo, w, level), memoryType, mode)
    ensures f in unit.mem && |unit.mem[f]| == ENTRIES
    ensures SlotBase(unit.space.tables[f].base, level, i) % SlotPages(level) == 0
    ensures
      var info, t := unit.space.tables[f], before.space.tables;
      var at, w := SlotBase(info.base, level, first), SlotBase(info.base, level, i);
      level == 2 ==>
        && (Decode(unit.mem[f][i], 2).Table? ==> HasTable(t, w))
        && (Forgotten(t, lo, w) <==> first < i && Decode(unit.mem[f][i], 2).Table?)
        && (TripsAt(t, lo, w) <==> first < i && Decode(unit.mem[f][i], 2).Table? && !Decode(unit.mem[f][first], 2).Table?)
        && (first < i ==>
              forall v :: at <= v < at + 512 && v < PAGE_LIMIT ==> unit.At(v).Mapped? && unit.At(v).attr == memoryType)
  {
    hide Good, AdvanceIn, Decode, HasTable, ReachedPages, Placed, SlotBase, BatchStart, Grows;
    var info, t := unit.space.tables[f], before.space.tables;
    var at, w := SlotBase(info.base, level, first), SlotBase(info.base, level, i);
    TableAt(unit, mode, f);
    SlotAligned(unit, mode, f, i);
    if level == 2 {
      BatchOfSlot(info, first, i, lo);
      BatchOfSlot(info, first, first, lo);
      SameHasTable(t, unit.space.tables, lo, hi);
      SlotHasTable(unit, mode, f, i);
      SlotHasTable(unit, mode, f, first);
      if first < i {
        SlotSizes(info.base, 2, first);
        SlotSizes(info.base, 2, i);
        FirstIsDone(before, unit, lo, at, w, memoryType, mode);
      }
    }
  }

  lemma ThenUnit(a: Snapshot, b: Snapshot, c: Snapshot, done: set<nat>, from: nat, end: nat, memoryType: nat, mode: MapType)
    requires AdvanceIn(a, b, done, memoryType, mode) && from <= end && Advance(b, c, from, end, memoryType, mode)
    ensures AdvanceIn(a, c, done + Run(from, end - from), memoryType, mode)
  {
    hide AdvanceIn, Advance, Run;
    RunIs(from, end - from);
    AdvanceInRange(b, c, from, end, Run(from, end - from), memoryType, mode);
    AdvanceInThen(a, b, c, done, Run(from, end - from), memoryType, mode);
  }

  lemma ThenNothing(a: Snapshot, b: Snapshot, c: Snapshot, done: set<nat>, memoryType: nat, mode: MapType)
    requires AdvanceIn(a, b, done, memoryType, mode) && Advance(b, c, 0, 0, 0, mode)
    ensures AdvanceIn(a, c, done, memoryType, mode)
  {
    hide AdvanceIn, Advance;
    AdvanceAnywhere(b, c, 0, 0, 0, memoryType, mode);
    AdvanceInRange(b, c, 0, 0, {}, memoryType, mode);
    AdvanceInThen(a, b, c, done, {}, memoryType, mode);
    assert done + {} == done;
  }

  lemma TripsWithin(t: Tables, lo: nat, mid: nat, hi: nat)
    requires Trips(t, lo, mid) && mid <= hi
    ensures Trips(t, lo, hi)
  {
  }

  lemma TripsHere(t: Tables, lo: nat, hi: nat, w: nat)
    requires lo <= w < hi && TripsAt(t, lo, w)
    ensures Trips(t, lo, hi)
  {
  }

  lemma TripsNext(t: Tables, lo: nat, w: nat, level: nat)
    requires 2 <= level <= 3 && lo <= w && w % SlotPages(level) == 0
    requires level == 2 ==> !Trips(t, lo, w) && !TripsAt(t, lo, w)
    ensures level == 2 ==> !Trips(t, lo, w + SlotPages(level))
  {
    hide Forgotten, HasTable, BatchStart;
    if level == 2 {
      forall v | lo <= v < w + 512
        ensures !TripsAt(t, lo, v)
      {
        if v % 512 == 0 && v > w {
          MultiplesApart(w, v, 512);
        }
      }
    }
  }

  /** All units from lo to at are done. */
  ghost predicate Units(s: Snapshot, s': Snapshot, lo: nat, at: nat, level: nat, total: nat, spent: nat,
                        memoryType: nat, mode: MapType)
  {
    var reached := ReachedPages(s.space.tables, lo, at, level);
    && BatchAsWritten(s, s', Complete, reached, lo, at, level, total, spent, memoryType, mode)
    && !MeetsFar(s, lo, at, level)
    && Grows(s.space.tables, s'.space.tables, lo, at, level)
    && Supplied(s, s', lo, at, at, total, mode)
    && (lo < at ==> Covered(s'.space.tables, at - 1, level))
  }

  lemma NothingReached(s: Snapshot, lo: nat, level: nat, tables: bool, total: nat, memoryType: nat, mode: MapType)
    requires Good(s, mode)
    ensures Units(s, s, lo, lo, level, total, Singles(0, level, tables), memoryType, mode)
  {
    hide Good, AdvanceIn, Advance, Spends, Supplied;
    ReachedNone(s.space.tables, lo, level);
    AdvanceNone(s, lo, memoryType, mode);
    AdvanceInRange(s, s, lo, lo, {}, memoryType, mode);
    SpendsNone(s.claimed, total);
    SuppliedSelf(s, lo, lo, lo, total, mode);
  }

  lemma GoodUnits(s: Snapshot, s': Snapshot, lo: nat, at: nat, level: nat, total: nat, spent: nat,
                  memoryType: nat, mode: MapType)
    requires Units(s, s', lo, at, level, total, spent, memoryType, mode)
    ensures Good(s', mode) && s'.space.root == s.space.root
  {
    hide Good, ReachedPages, Trips, MeetsFar, Grows, Spends, Supplied, Covered;
  }

  /** The tables for the next batch are there, or the whole call ends here. */
  lemma ThenTables(s: Snapshot, here: Snapshot, last: Snapshot, outcome: Outcome, lo: nat, at: nat, v: nat, hi: nat,
                   level: nat, number: nat, done: nat, total: nat, tables: bool, memoryType: nat, mode: MapType)
    requires Good(s, mode) && Units(s, here, lo, at, level, total, Singles(done, level, tables), memoryType, mode)
    requires lo <= at <= v < hi <= PAGE_LIMIT && 2 <= level <= 3 && done < number
    requires tables == HoldsTables(s.space.tables, lo, hi)
    requires Advance(here, last, 0, 0, 0, mode) && Grows(here.space.tables, last.space.tables, v, v + 1, level)
    requires Spends(here.claimed, last.claimed, total, level) && v / SlotPages(level) * SlotPages(level) == at
    requires Supplied(here, last, v, v + 1, v, total, mode)
    requires outcome.Complete? || outcome.NoFrame? || outcome.Moves?
    requires !outcome.NoFrame? ==> (outcome.Moves? <==> SplitsFar(here, v, level))
    ensures
      var reached, spent := ReachedPages(s.space.tables, lo, at, level), Singles(done, level, tables) + level;
      && BatchAsWritten(s, last, Complete, reached, lo, at, level, total, spent, memoryType, mode)
      && (outcome.Complete? ==>
            Good(last, mode) && last.space.root == s.space.root && !MeetsFar(s, lo, at, level) && !SplitsFar(s, v, level))
      && (!outcome.Complete? ==> MappedAsWritten(s, last, outcome, reached, lo, hi, level, number, total, memoryType, mode))
    ensures Grows(s.space.tables, last.space.tables, lo, v + 1, level)
    ensures Grows(s.space.tables, last.space.tables, lo, hi, level)
    ensures Supplied(s, last, lo, at + 1, at, total, mode)
  {
    hide Good, AdvanceIn, Advance, ReachedPages, Trips, MeetsFar, SplitsFar, Spends, HoldsTables, Grows, Supplied, Covered;
    hide SlotPages, NarrowHarmless;
    var t, reached := s.space.tables, ReachedPages(s.space.tables, lo, at, level);
    var spent := Singles(done, level, tables);
    NotReached(t, lo, at, level, v);
    ThenNothing(s, here, last, reached, memoryType, mode);
    GoodIn(s, last, reached, memoryType, mode);
    SpendsThen(s.claimed, here.claimed, last.claimed, total, spent, level);
    SpendsMore(s.claimed, last.claimed, total, spent + level, Singles(number, level, tables));
    GrowsWider(t, here.space.tables, lo, at, v + 1, level);
    GrowsThen(t, here.space.tables, last.space.tables, lo, v + 1, v, v + 1, level, level);
    GrowsWider(t, last.space.tables, lo, v + 1, hi, level);
    GoodIn(s, here, reached, memoryType, mode);
    SuppliedTables(s, here, last, lo, at, v, level, total, mode);
    SuppliedWider(s, last, lo, at + 1, at, hi, hi, total, mode);
    if outcome.Moves? {
      FarBefore(s, here, reached, memoryType, mode, v, level);
      MeetsAt(s, lo, hi, level, v);
    } else if outcome.Complete? && SplitsFar(s, v, level) {
      FarAfter(s, here, reached, memoryType, mode, v, level, lo, at, level);
    }
  }

  lemma NotReached(t: Tables, lo: nat, at: nat, level: nat, v: nat)
    requires at <= v
    ensures v !in ReachedPages(t, lo, at, level)
  {
  }

  lemma MeetsAt(s: Snapshot, lo: nat, hi: nat, level: nat, v: nat)
    requires lo <= v < hi && SplitsFar(s, v, level)
    ensures MeetsFar(s, lo, hi, level)
  {
    hide SplitsFar;
  }

  lemma GrowsWider(t: Tables, t': Tables, lo: nat, at: nat, hi: nat, level: nat)
    requires Grows(t, t', lo, at, level) && at <= hi
    ensures Grows(t, t', lo, hi, level)
  {
    hide TablePages;
  }

  /** The batch is done, or the whole call ends there. */
  lemma ThenBatch(s: Snapshot, there: Snapshot, last: Snapshot, outcome: Outcome, reached: set<nat>, info: Info,
                  lo: nat, at: nat, v: nat, end: nat, hi: nat, level: nat, number: nat, done: nat, more: nat, total: nat,
                  tables: bool, memoryType: nat, mode: MapType)
    requires Good(s, mode) && Placed(info) && info.level == level && InTable(info, v) && 2 <= level <= 3
    requires info.base <= at && v < end <= info.base + TablePages(level) && end <= hi && 0 < more && done + more <= number
    requires tables == HoldsTables(s.space.tables, lo, hi) && !MeetsFar(s, lo, at, level) && !SplitsFar(s, v, level)
    requires Grows(s.space.tables, last.space.tables, lo, v + 1, level) && !outcome.Moves? && lo <= at < end
    requires Supplied(s, there, lo, at + 1, at, total, mode) && Supplied(there, last, at, end, end, total, mode)
    requires last.space.tables == there.space.tables && Covered(last.space.tables, end - 1, level)
    requires
      var spent := Singles(done, level, tables) + level + UnitSingles(more, level, tables);
      BatchAsWritten(s, last, outcome, reached, lo, end, level, total, spent, memoryType, mode)
    ensures if outcome.Complete?
            then Units(s, last, lo, end, level, total, Singles(done + more, level, tables), memoryType, mode)
            else MappedAsWritten(s, last, outcome, reached, lo, hi, level, number, total, memoryType, mode)
  {
    hide Good, AdvanceIn, ReachedPages, Trips, MeetsFar, SplitsFar, Spends, HoldsTables, Grows, TablePages, NarrowHarmless;
    hide Supplied, Covered;
    SuppliedUnits(s, there, last, lo, at, end, total, mode);
    SuppliedWider(s, last, lo, end, end, hi, hi, total, mode);
    var spent := Singles(done, level, tables) + level + UnitSingles(more, level, tables);
    MeetsNext(s, mode, lo, at, end, info, v);
    GrowsWider(s.space.tables, last.space.tables, lo, v + 1, end, level);
    GrowsWider(s.space.tables, last.space.tables, lo, v + 1, hi, level);
    SpendsMore(s.claimed, last.claimed, total, spent, Singles(done + more, level, tables));
    SpendsMore(s.claimed, last.claimed, total, spent, Singles(number, level, tables));
    if outcome.NoSubtable? {
      TripsWithin(s.space.tables, lo, end, hi);
    }
  }

  /** The first units of a call are done; in level-2 tables it goes on where a table starts. */
  ghost predicate UnitsBefore(s: Snapshot, s': Snapshot, address: nat, done: nat, number: nat, level: nat, total: nat,
                              memoryType: nat, mode: MapType)
  {
    var lo, at, hi := FirstUnit(address, level), EndUnit(address, done, level), EndUnit(address, number, level);
    && (level == 2 && lo < at && done < number ==> at % 0x4_0000 == 0)
    && Units(s, s', lo, at, level, total, Singles(done, level, HoldsTables(s.space.tables, lo, hi)), memoryType, mode)
  }

  ghost function UnitPages(s: Snapshot, address: nat, number: nat, level: nat): set<nat> {
    ReachedPages(s.space.tables, FirstUnit(address, level), EndUnit(address, number, level), level)
  }

  lemma NoUnitsYet(s: Snapshot, address: nat, number: nat, level: nat, total: nat, memoryType: nat, mode: MapType)
    requires Good(s, mode)
    ensures UnitsBefore(s, s, address, 0, number, level, total, memoryType, mode)
  {
    hide Good, Units, FirstUnit, EndUnit, HoldsTables, Singles;
    var lo, hi := FirstUnit(address, level), EndUnit(address, number, level);
    UnitsNone(address, number, level);
    NothingReached(s, lo, level, HoldsTables(s.space.tables, lo, hi), total, memoryType, mode);
  }

  lemma AllUnits(s: Snapshot, s': Snapshot, address: nat, number: nat, level: nat, total: nat, memoryType: nat, mode: MapType)
    requires UnitsBefore(s, s', address, number, number, level, total, memoryType, mode)
    ensures
      var lo, hi, reached := FirstUnit(address, level), EndUnit(address, number, level), UnitPages(s, address, number, level);
      MappedAsWritten(s, s', Complete, reached, lo, hi, level, number, total, memoryType, mode)
  {
    hide AdvanceIn, ReachedPages, Trips, MeetsFar, Spends, HoldsTables, Grows, FirstUnit, EndUnit, Supplied, Covered;
  }

  /** A batch lies in its table. */
  lemma BatchInTable(info: Info, first: nat, more: nat, v: nat, end: nat)
    requires Placed(info) && 2 <= info.level <= 3 && first + more <= ENTRIES && 0 < more && InSlot(info, first, v)
    requires end == SlotBase(info.base, info.level, first + more)
    ensures info.base <= SlotBase(info.base, info.level, first) && v < end <= info.base + TablePages(info.level)
  {
  }

  lemma UnitTables(t: Tables, lo: nat, hi: nat, from: nat, level: nat, filled: bool)
    requires level == 2 && filled ==> HasTable(t, from) && lo <= from < hi
    ensures level == 2 && filled ==> HoldsTables(t, lo, hi)
  {
    hide HasTable;
  }

  lemma SpendsNothing(claimed: set<nat>, total: nat, level: nat, tables: bool)
    ensures Spends(claimed, claimed, total, UnitSingles(1, level, tables))
  {
    hide Spends;
    SpendsNone(claimed, total);
    SpendsMore(claimed, claimed, total, 0, UnitSingles(1, level, tables));
  }

  lemma UnitSpends(a: set<nat>, b: set<nat>, c: set<nat>, total: nat, spent: nat, done: nat, number: nat, level: nat,
                   tables: bool, filled: bool, meant: bool)
    requires Spends(a, b, total, spent + UnitSingles(done, level, tables)) && done < number
    requires meant ==> Spends(b, c, total, UnitSingles(1, level, filled))
    requires level == 2 && filled ==> tables
    requires 2 <= level <= 3
    ensures Spends(a, b, total, spent + UnitSingles(number, level, tables))
    ensures meant ==> Spends(a, c, total, spent + UnitSingles(done + 1, level, tables))
    ensures meant ==> Spends(a, c, total, spent + UnitSingles(number, level, tables))
  {
    hide Spends;
    var k := spent + UnitSingles(done, level, tables);
    SpendsMore(a, b, total, k, spent + UnitSingles(number, level, tables));
    if meant {
      SpendsThen(a, b, c, total, k, UnitSingles(1, level, filled));
      SpendsMore(a, c, total, k + UnitSingles(1, level, filled), spent + UnitSingles(done + 1, level, tables));
      SpendsMore(a, c, total, k + UnitSingles(1, level, filled), spent + UnitSingles(number, level, tables));
    }
  }

  // ---- the parts of memory_mmu_insert as written ----------------------------------------------

  /** The pages of the blocks that memory_mmu_insert as written maps first. */
  function PagesInBlocks(address: nat, size: nat): nat {
    if GapToBlock(address) == 0 then size / RegionSize(2) * 512 else 0
  }

  /** The pages that memory_mmu_insert as written maps when the byte count is harmless. */
  ghost function InsertedPages(t: Tables, address: nat, size: nat): set<nat> {
    var lo := address / PAGE_SIZE;
    set v | lo <= v < lo + size / PAGE_SIZE && !(v < lo + PagesInBlocks(address, size) && Forgotten(t, lo, v))
  }

  /** The pages before at that are mapped then. */
  ghost function InsertedBefore(t: Tables, address: nat, size: nat, at: nat): set<nat> {
    var lo := address / PAGE_SIZE;
    set v | lo <= v < at && !(v < lo + PagesInBlocks(address, size) && Forgotten(t, lo, v))
  }

  /** Some page of the range makes the insert as written split a far block. */
  ghost predicate InsertMeetsFar(s: Snapshot, address: nat, size: nat) {
    var lo := address / PAGE_SIZE;
    var blocks := lo + PagesInBlocks(address, size);
    MeetsFar(s, lo, blocks, 2) || MeetsFar(s, blocks, lo + size / PAGE_SIZE, 3)
  }

  /** How many single pages mapping the pages before at claims at most. */
  ghost function SinglesBefore(t: Tables, address: nat, size: nat, at: nat): nat {
    var lo, pages := address / PAGE_SIZE, PagesInBlocks(address, size);
    if at < lo + pages then 0
    else Singles(pages / 512, 2, HoldsTables(t, lo, lo + pages)) + Singles(at - (lo + pages), 3, false)
  }

  ghost function InsertSingles(t: Tables, address: nat, size: nat): nat {
    SinglesBefore(t, address, size, address / PAGE_SIZE + size / PAGE_SIZE)
  }

  /** What memory_mmu_insert as written does: only the pages of blocks can be forgotten. */
  ghost predicate InsertedAsWritten(s: Snapshot, last: Snapshot, outcome: Outcome, reached: set<nat>,
                                    address: nat, size: nat, total: nat, memoryType: nat, mode: MapType)
  {
    var t, lo := s.space.tables, address / PAGE_SIZE;
    var blocks, hi := lo + PagesInBlocks(address, size), lo + size / PAGE_SIZE;
    && (outcome.NoSubtable? ==> Trips(t, lo, blocks))
    && (outcome.Moves? ==> InsertMeetsFar(s, address, size))
    && (outcome.Overlaps? ==> mode.MapAlloc? && !NarrowHarmless(last.claimed, total, 512, 512))
    && (outcome.Complete? ==>
          !Trips(t, lo, blocks) && !InsertMeetsFar(s, address, size) && reached == InsertedPages(t, address, size))
    && AdvanceIn(s, last, reached, memoryType, mode)
    && Grows(t, last.space.tables, lo, hi, TableLevel(address, size))
    && Spends(s.claimed, last.claimed, total, InsertSingles(t, address, size))
    && Supplied(s, last, lo, hi, hi, total, mode) && (outcome.Complete? ==> Ready(last.space.tables, lo, hi, 3))
    && BlocksWhole(t, last.space.tables, lo, blocks)
  }

  /** The part of the range before page at, which is the whole block part or nothing of it, is done. */
  ghost predicate DoneBefore(s: Snapshot, s': Snapshot, reached: set<nat>, address: nat, size: nat, at: nat,
                             total: nat, memoryType: nat, mode: MapType)
  {
    var t, lo := s.space.tables, address / PAGE_SIZE;
    var blocks := lo + PagesInBlocks(address, size);
    && (at == lo || blocks <= at)
    && reached == InsertedBefore(t, address, size, at)
    && (blocks <= at ==> !Trips(t, lo, blocks) && !MeetsFar(s, lo, blocks, 2) && !MeetsFar(s, blocks, at, 3))
    && AdvanceIn(s, s', reached, memoryType, mode)
    && Grows(t, s'.space.tables, lo, at, if at <= blocks then 2 else 3)
    && Spends(s.claimed, s'.claimed, total, SinglesBefore(t, address, size, at))
    && Supplied(s, s', lo, at, at, total, mode) && Ready(s'.space.tables, lo, at, 3)
    && BlocksWhole(t, s'.space.tables, lo, blocks)
  }

  /** A part was done, or the whole insert ends there. */
  ghost predicate PartAsWritten(s: Snapshot, last: Snapshot, outcome: Outcome, reached: set<nat>, address: nat, size: nat,
                                at: nat, total: nat, memoryType: nat, mode: MapType)
  {
    if outcome.Complete? then DoneBefore(s, last, reached, address, size, at, total, memoryType, mode)
    else InsertedAsWritten(s, last, outcome, reached, address, size, total, memoryType, mode)
  }

  lemma NothingBefore(s: Snapshot, address: nat, size: nat, total: nat, memoryType: nat, mode: MapType)
    requires Good(s, mode)
    ensures DoneBefore(s, s, {}, address, size, address / PAGE_SIZE, total, memoryType, mode)
  {
    hide Good, AdvanceIn, Advance, PagesInBlocks, Spends, Supplied, BlocksWhole;
    var lo := address / PAGE_SIZE;
    SuppliedSelf(s, lo, lo, lo, total, mode);
    WholeNone(s.space.tables, lo, lo + PagesInBlocks(address, size));
    AdvanceNone(s, lo, memoryType, mode);
    AdvanceInRange(s, s, lo, lo, {}, memoryType, mode);
    SpendsNone(s.claimed, total);
    SpendsMore(s.claimed, s.claimed, total, 0, SinglesBefore(s.space.tables, address, size, lo));
  }

  lemma BlocksOnly(address: nat, size: nat)
    ensures PagesInBlocks(address, size) <= size / PAGE_SIZE
    ensures PagesInBlocks(address, size) < size / PAGE_SIZE ==> TableLevel(address, size) == 3
    ensures PagesInBlocks(address, size) == 0 ==> TableLevel(address, size) == 3
    ensures 2 <= TableLevel(address, size) <= 3
  {
    hide GapToBlock;
    WholeBlocks(address, size);
  }

  /** The blocks, which come first. */
  lemma BlocksPart(s: Snapshot, last: Snapshot, outcome: Outcome, reached: set<nat>, address: nat, size: nat,
                   total: nat, memoryType: nat, mode: MapType)
    requires address % PAGE_SIZE == 0
    requires
      var lo, pages := address / PAGE_SIZE, PagesInBlocks(address, size);
      MappedAsWritten(s, last, outcome, reached, lo, lo + pages, 2, pages / 512, total, memoryType, mode)
    ensures
      var blocks := address / PAGE_SIZE + PagesInBlocks(address, size);
      PartAsWritten(s, last, outcome, reached, address, size, blocks, total, memoryType, mode)
  {
    hide AdvanceIn, PagesInBlocks, Trips, Forgotten, HoldsTables, MeetsFar, Spends, NarrowHarmless, TableLevel, Grows;
    hide Supplied, Covered, BlocksWhole, ReachedPages, InsertedBefore;
    if PagesInBlocks(address, size) > 0 {
      BlocksAligned(address, size);
    }
    var t, lo, pages := s.space.tables, address / PAGE_SIZE, PagesInBlocks(address, size);
    var blocks, hi := lo + pages, lo + size / PAGE_SIZE;
    BlocksOnly(address, size);
    SuppliedWider(s, last, lo, blocks, blocks, hi, hi, total, mode);
    GoodIn(s, last, reached, memoryType, mode);
    BlocksReached(s, address, size);
    WholeNone(t, lo, blocks);
    WholeThen(t, s, last, mode, lo, blocks, 2, lo, blocks);
    SpendsMore(s.claimed, last.claimed, total, SinglesBefore(t, address, size, blocks), SinglesBefore(t, address, size, hi));
    GrowsNone(t, lo, hi, TableLevel(address, size));
    GrowsThen(t, t, last.space.tables, lo, hi, lo, blocks, TableLevel(address, size), 2);
  }

  lemma BlocksReached(s: Snapshot, address: nat, size: nat)
    ensures
      var lo, blocks := address / PAGE_SIZE, address / PAGE_SIZE + PagesInBlocks(address, size);
      && ReachedPages(s.space.tables, lo, blocks, 2) == InsertedBefore(s.space.tables, address, size, blocks)
      && !MeetsFar(s, blocks, blocks, 3)
  {
    hide Forgotten, SplitsFar, PagesInBlocks;
  }

  /** Behind the part that is done, the same pages split a far block as before. */
  lemma SameFar(s: Snapshot, here: Snapshot, done: set<nat>, address: nat, size: nat, at: nat, end: nat,
                total: nat, memoryType: nat, mode: MapType)
    requires Good(s, mode) && DoneBefore(s, here, done, address, size, at, total, memoryType, mode)
    requires
      var blocks := address / PAGE_SIZE + PagesInBlocks(address, size);
      blocks <= at && (at == blocks || PagesInBlocks(address, size) == 0)
    ensures MeetsFar(here, at, end, 3) <==> MeetsFar(s, at, end, 3)
  {
    hide Good, AdvanceIn, PagesInBlocks, Trips, Forgotten, SplitsFar, Spends, SinglesBefore, TablePages, Supplied,
        Ready, BlocksWhole;
    var lo := address / PAGE_SIZE;
    forall v | at <= v < end
      ensures SplitsFar(here, v, 3) <==> SplitsFar(s, v, 3)
    {
      if SplitsFar(here, v, 3) {
        FarBefore(s, here, done, memoryType, mode, v, 3);
      }
      if SplitsFar(s, v, 3) {
        FarAfter(s, here, done, memoryType, mode, v, 3, lo, at, if at <= lo + PagesInBlocks(address, size) then 2 else 3);
      }
    }
  }

  /** The pages before the blocks, when there are no blocks, or those behind them. */
  lemma PagesPart(s: Snapshot, here: Snapshot, last: Snapshot, outcome: Outcome, done: set<nat>, reached: set<nat>,
                  address: nat, size: nat, at: nat, end: nat, total: nat, memoryType: nat, mode: MapType)
    requires Good(s, mode) && DoneBefore(s, here, done, address, size, at, total, memoryType, mode)
    requires at < end || (at == end == address / PAGE_SIZE && PagesInBlocks(address, size) == 0)
    requires MappedAsWritten(here, last, outcome, reached, at, end, 3, end - at, total, memoryType, mode)
    requires
      var lo := address / PAGE_SIZE;
      var blocks := lo + PagesInBlocks(address, size);
      blocks <= at && end <= lo + size / PAGE_SIZE && (at == blocks || PagesInBlocks(address, size) == 0)
    ensures PartAsWritten(s, last, outcome, done + reached, address, size, end, total, memoryType, mode)
  {
    hide Good, AdvanceIn, PagesInBlocks, Trips, Forgotten, HoldsTables, SplitsFar, Spends, NarrowHarmless;
    hide TableLevel, TablePages, Supplied, Covered, BlocksWhole;
    GoodIn(s, here, done, memoryType, mode);
    GoodIn(here, last, reached, memoryType, mode);
    SuppliedPart(s, here, last, address / PAGE_SIZE, at, end, 3, total, mode);
    WholeThen(s.space.tables, here, last, mode, at, end, 3, address / PAGE_SIZE,
      address / PAGE_SIZE + PagesInBlocks(address, size));
    SuppliedWider(s, last, address / PAGE_SIZE, end, end, address / PAGE_SIZE + size / PAGE_SIZE,
                  address / PAGE_SIZE + size / PAGE_SIZE, total, mode);
    var t, lo := s.space.tables, address / PAGE_SIZE;
    var hi, top := lo + size / PAGE_SIZE, TableLevel(address, size);
    SameFar(s, here, done, address, size, at, end, total, memoryType, mode);
    AdvanceInThen(s, here, last, done, reached, memoryType, mode);
    BlocksOnly(address, size);
    GrowsNone(t, lo, hi, 3);
    GrowsThen(t, t, here.space.tables, lo, end, lo, at, 3, if at <= lo + PagesInBlocks(address, size) then 2 else 3);
    GrowsThen(t, here.space.tables, last.space.tables, lo, end, at, end, 3, 3);
    GrowsThen(t, t, last.space.tables, lo, hi, lo, end, 3, 3);
    SpendsThen(s.claimed, here.claimed, last.claimed, total, SinglesBefore(t, address, size, at), Singles(end - at, 3, false));
    SpendsMore(s.claimed, last.claimed, total, SinglesBefore(t, address, size, end), InsertSingles(t, address, size));
    if outcome.Complete? {
      PagesReached(t, here.space.tables, address, size, at, end);
    }
  }

  lemma PagesReached(t: Tables, t': Tables, address: nat, size: nat, at: nat, end: nat)
    requires address / PAGE_SIZE + PagesInBlocks(address, size) <= at <= end
    ensures InsertedBefore(t, address, size, at) + ReachedPages(t', at, end, 3) == InsertedBefore(t, address, size, end)
  {
    hide PagesInBlocks, Forgotten;
  }

  lemma AllBefore(s: Snapshot, s': Snapshot, reached: set<nat>, address: nat, size: nat,
                  total: nat, memoryType: nat, mode: MapType)
    requires DoneBefore(s, s', reached, address, size, address / PAGE_SIZE + size / PAGE_SIZE, total, memoryType, mode)
    ensures InsertedAsWritten(s, s', Complete, reached, address, size, total, memoryType, mode)
  {
    hide AdvanceIn, PagesInBlocks, Trips, Forgotten, HoldsTables, SplitsFar, Spends, TableLevel, TablePages, MeetsFar;
    hide Singles, Supplied, Ready, BlocksWhole;
    var t, lo := s.space.tables, address / PAGE_SIZE;
    var hi := lo + size / PAGE_SIZE;
    BlocksOnly(address, size);
    GrowsNone(t, lo, hi, TableLevel(address, size));
    if hi <= lo + PagesInBlocks(address, size) {
      GrowsThen(t, t, s'.space.tables, lo, hi, lo, hi, TableLevel(address, size), 2);
    }
  }

  /** The branch without room for a block. */
  lemma ShortPart(s: Snapshot, last: Snapshot, outcome: Outcome, reached: set<nat>, address: nat, size: nat,
                  total: nat, memoryType: nat, mode: MapType)
    requires Good(s, mode) && size < GapToBlock(address) + RegionSize(2) && address % PAGE_SIZE == 0
    requires
      var lo := address / PAGE_SIZE;
      MappedAsWritten(s, last, outcome, reached, lo, lo + size / PAGE_SIZE, 3, size / PAGE_SIZE, total, memoryType, mode)
    ensures InsertedAsWritten(s, last, outcome, reached, address, size, total, memoryType, mode)
  {
    hide Good, GapToBlock, DoneBefore, MappedAsWritten, InsertedAsWritten;
    var lo := address / PAGE_SIZE;
    NothingBefore(s, address, size, total, memoryType, mode);
    PagesPart(s, s, last, outcome, {}, reached, address, size, lo, lo + size / PAGE_SIZE, total, memoryType, mode);
    assert {} + reached == reached;
    if outcome.Complete? {
      AllBefore(s, last, reached, address, size, total, memoryType, mode);
    }
  }

  /** The units that a call of the long branch maps: all blocks, first of all, or pages before or behind them. */
  ghost predicate IsPart(s: Snapshot, here: Snapshot, at: nat, number: nat, level: nat, address: nat, size: nat) {
    var lo, pages := address / PAGE_SIZE, PagesInBlocks(address, size);
    && UnitsEnd(at, number, level) <= lo + size / PAGE_SIZE <= PAGE_LIMIT
    && if level == 2 then at == lo && here == s && number * 512 == pages
       else lo + pages <= at && (at == lo + pages || pages == 0)
  }

  lemma GoodPart(s: Snapshot, here: Snapshot, done: set<nat>, at: nat, number: nat, level: nat, address: nat, size: nat,
                 total: nat, memoryType: nat, mode: MapType)
    requires DoneBefore(s, here, done, address, size, at, total, memoryType, mode)
    requires IsPart(s, here, at, number, level, address, size)
    ensures Good(here, mode) && here.space.root == s.space.root && UnitsEnd(at, number, level) <= PAGE_LIMIT
  {
    hide Good, InsertedBefore, Trips, MeetsFar, Grows, Spends, UnitsEnd, PagesInBlocks, Supplied, Ready, BlocksWhole;
  }

  lemma PartNone(s: Snapshot, here: Snapshot, done: set<nat>, address: nat, size: nat, at: nat,
                 total: nat, memoryType: nat, mode: MapType)
    requires DoneBefore(s, here, done, address, size, at, total, memoryType, mode)
    ensures PartAsWritten(s, here, Complete, done, address, size, at, total, memoryType, mode)
  {
    hide DoneBefore;
  }

  lemma PartDone(s: Snapshot, here: Snapshot, last: Snapshot, outcome: Outcome, done: set<nat>, reached: set<nat>,
                 at: nat, number: nat, level: nat, address: nat, size: nat, total: nat, memoryType: nat, mode: MapType)
    requires Good(s, mode) && DoneBefore(s, here, done, address, size, at, total, memoryType, mode)
    requires address % PAGE_SIZE == 0 && 2 <= level <= 3 && number > 0 && IsPart(s, here, at, number, level, address, size)
    requires MappedAsWritten(here, last, outcome, reached, at, UnitsEnd(at, number, level), level, number, total,
                             memoryType, mode)
    ensures
      var end := UnitsEnd(at, number, level);
      PartAsWritten(s, last, outcome, done + reached, address, size, end, total, memoryType, mode)
  {
    hide Good, DoneBefore, MappedAsWritten, PartAsWritten, PagesInBlocks;
    if level == 2 {
      NothingYet(s, here, done, address, size, total, memoryType, mode);
      assert {} + reached == reached;
      BlocksPart(s, last, outcome, reached, address, size, total, memoryType, mode);
    } else {
      PagesPart(s, here, last, outcome, done, reached, address, size, at, UnitsEnd(at, number, level), total, memoryType, mode);
    }
  }

  lemma NothingYet(s: Snapshot, here: Snapshot, done: set<nat>, address: nat, size: nat,
                   total: nat, memoryType: nat, mode: MapType)
    requires DoneBefore(s, here, done, address, size, address / PAGE_SIZE, total, memoryType, mode)
    ensures done == {}
  {
    hide AdvanceIn, Trips, MeetsFar, Grows, Spends, Supplied, Ready, BlocksWhole;
  }

  /** The plan of the long branch in terms of parts. */
  lemma PlanParts(s: Snapshot, address: nat, size: nat, gap: nat, units: nat, rest: nat,
                  total: nat, memoryType: nat, mode: MapType)
    requires Good(s, mode) && address % PAGE_SIZE == 0 && address + size <= PAGE_LIMIT * PAGE_SIZE
    requires gap == GapToBlock(address) && Follows(address, gap, units, rest, size)
    requires gap > 0 ==> size < gap * PAGE_SIZE + RegionSize(2)
    requires gap * PAGE_SIZE <= size && units == (size - gap * PAGE_SIZE) / RegionSize(2)
    ensures DoneBefore(s, s, {}, address, size, address / PAGE_SIZE, total, memoryType, mode)
    ensures address % RegionSize(3) == 0
    ensures
      var b, c := address + gap * PAGE_SIZE, address + gap * PAGE_SIZE + units * RegionSize(2);
      && UnitsEnd(address / PAGE_SIZE, gap, 3) == b / PAGE_SIZE
      && UnitsEnd(b / PAGE_SIZE, units, 2) == c / PAGE_SIZE
      && UnitsEnd(c / PAGE_SIZE, rest, 3) == address / PAGE_SIZE + size / PAGE_SIZE
      && (gap > 0 ==> IsPart(s, s, address / PAGE_SIZE, gap, 3, address, size))
      && (units > 0 ==> gap == 0 && b % RegionSize(2) == 0 && IsPart(s, s, b / PAGE_SIZE, units, 2, address, size))
      && (rest > 0 ==> c % RegionSize(3) == 0 && IsPart(s, s, c / PAGE_SIZE, rest, 3, address, size))
  {
    hide Good, GapToBlock, DoneBefore;
    NothingBefore(s, address, size, total, memoryType, mode);
    PlanEnds(address, gap, units, rest, size);
    RangeInLimit(address, size);
    BlocksOfPlan(address, size);
    assert units * 512 == PagesInBlocks(address, size);
  }

  lemma SamePart(s: Snapshot, here: Snapshot, at: nat, number: nat, level: nat, address: nat, size: nat)
    requires IsPart(s, s, at, number, level, address, size) && level == 3
    ensures IsPart(s, here, at, number, level, address, size)
  {
  }

  lemma BlocksOfPlan(address: nat, size: nat)
    requires GapToBlock(address) > 0 ==> size < GapToBlock(address) * PAGE_SIZE + RegionSize(2)
    ensures PagesInBlocks(address, size) % 512 == 0
    ensures GapToBlock(address) * PAGE_SIZE <= size ==>
              PagesInBlocks(address, size) / 512 == (size - GapToBlock(address) * PAGE_SIZE) / RegionSize(2)
  {
    hide GapToBlock;
    if GapToBlock(address) == 0 {
      DivUnique(size / RegionSize(2) * 512, 512, size / RegionSize(2), 0);
    }
  }

  // ---- when memory_mmu_insert as written is right ---------------------------------------------

  /** When the insert as written comes to its end, it has mapped the range exactly when the forgotten pages were
      mapped with the type already. */
  lemma InsertIff(s: Snapshot, s': Snapshot, reached: set<nat>, address: nat, size: nat,
                  total: nat, memoryType: nat, mode: MapType)
    requires InsertedAsWritten(s, s', Complete, reached, address, size, total, memoryType, mode)
    requires address % PAGE_SIZE == 0 && address + size <= PAGE_LIMIT * PAGE_SIZE
    ensures
      var lo, hi := address / PAGE_SIZE, address / PAGE_SIZE + size / PAGE_SIZE;
      Advance(s, s', lo, hi, memoryType, mode) <==>
      forall v :: lo <= v < lo + PagesInBlocks(address, size) && Forgotten(s.space.tables, lo, v) ==>
        s.At(v).Mapped? && s.At(v).attr == memoryType
  {
    hide AdvanceIn, Advance, Forgotten, GapToBlock, Trips, Spends, InsertMeetsFar, SinglesBefore, Supplied, Ready, BlocksWhole;
    var lo, hi := address / PAGE_SIZE, address / PAGE_SIZE + size / PAGE_SIZE;
    RangeInLimit(address, size);
    assert PagesInBlocks(address, size) <= size / PAGE_SIZE;
    SkippingIff(s, s', reached, lo, hi, memoryType, mode);
  }

  /** A forgotten page is left as it was. */
  lemma ForgottenStays(s: Snapshot, s': Snapshot, reached: set<nat>, address: nat, size: nat,
                       total: nat, memoryType: nat, mode: MapType, v: nat)
    requires InsertedAsWritten(s, s', Complete, reached, address, size, total, memoryType, mode) && v < PAGE_LIMIT
    requires
      var lo := address / PAGE_SIZE;
      lo <= v < lo + PagesInBlocks(address, size) && Forgotten(s.space.tables, lo, v)
    ensures s'.At(v) == s.At(v)
  {
    hide Good, Accounts, Forgotten, PagesInBlocks, Trips, Spends, InsertMeetsFar, SinglesBefore, Supplied, Ready, BlocksWhole;
    assert Remaps(s.At(v), s'.At(v), v, v in reached, memoryType, mode, s.claimed);
  }

  /** No level-3 table starts inside the range but where a level-2 table starts. */
  ghost predicate SubtablesHarmless(t: Tables, lo: nat, hi: nat) {
    forall g :: g in t && t[g].level == 3 && lo < t[g].base < hi ==> t[g].base % 0x4_0000 == 0
  }

  lemma NoLaterTables(t: Tables, lo: nat, hi: nat)
    requires SubtablesHarmless(t, lo, hi) && lo % 512 == 0
    ensures !Trips(t, lo, hi) && forall v :: lo <= v < hi ==> !Forgotten(t, lo, v)
  {
    forall v | lo <= v < hi
      ensures !Forgotten(t, lo, v)
    {
      var w := v / 512 * 512;
      MulMono(v / 512, lo / 512, 512);
      DivUnique(w, 512, v / 512, 0);
      if g :| g in t && t[g].level == 3 && t[g].base == w {
        assert lo < w ==> w % 0x4_0000 == 0;
      }
    }
  }

  /** Without later subtables and far blocks, and with a bitmap that is settled when blocks are claimed, the insert
      as written maps the whole range unless memory runs out. */
  lemma InsertHarmless(s: Snapshot, s': Snapshot, outcome: Outcome, reached: set<nat>,
                       address: nat, size: nat, total: nat, memoryType: nat, mode: MapType)
    requires InsertedAsWritten(s, s', outcome, reached, address, size, total, memoryType, mode)
    requires address % PAGE_SIZE == 0 && address + size <= PAGE_LIMIT * PAGE_SIZE
    requires SubtablesHarmless(s.space.tables, address / PAGE_SIZE, address / PAGE_SIZE + PagesInBlocks(address, size))
    requires !InsertMeetsFar(s, address, size)
    requires mode.MapAlloc? ==> Settled(s.claimed, total, InsertSingles(s.space.tables, address, size))
    ensures outcome.Complete? || outcome.NoFrame?
    ensures outcome.Complete? ==>
              Advance(s, s', address / PAGE_SIZE, address / PAGE_SIZE + size / PAGE_SIZE, memoryType, mode)
  {
    hide AdvanceIn, Advance, Forgotten, SubtablesHarmless, Trips, InsertedPages, PagesInBlocks, Grows, TableLevel;
    hide Spends, Settled, NarrowHarmless, InsertMeetsFar, InsertSingles, Supplied, Ready, BlocksWhole;
    var lo := address / PAGE_SIZE;
    if outcome.Overlaps? {
      SpendsHarmless(s.claimed, s'.claimed, total, InsertSingles(s.space.tables, address, size));
    }
    if PagesInBlocks(address, size) > 0 {
      BlocksAligned(address, size);
      NoLaterTables(s.space.tables, lo, lo + PagesInBlocks(address, size));
    } else {
      NothingTrips(s.space.tables, lo);
    }
    if outcome.Complete? {
      InsertIff(s, s', reached, address, size, total, memoryType, mode);
    }
  }

  lemma NothingTrips(t: Tables, lo: nat)
    ensures !Trips(t, lo, lo)
  {
  }

  lemma BlocksAligned(address: nat, size: nat)
    requires address % PAGE_SIZE == 0 && PagesInBlocks(address, size) > 0
    ensures address / PAGE_SIZE % 512 == 0 && (address / PAGE_SIZE + PagesInBlocks(address, size)) % 512 == 0
  {
    hide GapToBlock, AlignUp;
    InsertGeometry(address, size);
    WholeSlot(address, address / RegionSize(2), size / RegionSize(2));
  }

  lemma WholeSlot(address: nat, q: nat, blocks: nat)
    requires address == q * RegionSize(2)
    ensures address / PAGE_SIZE % 512 == 0 && (address / PAGE_SIZE + blocks * 512) % 512 == 0
  {
    DivUnique(address, PAGE_SIZE, q * 512, 0);
    DivUnique(q * 512, 512, q, 0);
    DivUnique(q * 512 + blocks * 512, 512, q + blocks, 0);
  }
}
