/** Which frames a step of an address space takes from the allocator: its claims one after another, each the
    first fit at its moment, and what each of them is used for. */
module Supply {
  import opened Arithmetic
  import opened Descriptor
  import opened FrameSet
  import opened PageTree
  import opened AddressSpace
  import opened Teardown

  /** Tables stay and mapped pages keep their physical page. */
  ghost predicate Keeps(s: Snapshot, s': Snapshot) {
    && Extends(s.space.tables, s'.space.tables)
    && (forall v :: 0 <= v < PAGE_LIMIT && s.At(v).Mapped? ==> s'.At(v).Mapped? && s'.At(v).page == s.At(v).page)
  }

  /** A claimed frame is a new table, claimed for the first page from lo on that it translates, or the frames of a
      page or a block back the unit that starts at page at, which was unmapped. */
  ghost predicate Used(s: Snapshot, s': Snapshot, c: Claim, lo: nat) {
    if c.table then
      && c.number == 1 && c.page !in s.space.tables && c.page in s'.space.tables
      && InTable(s'.space.tables[c.page], c.at)
      && c.at == if s'.space.tables[c.page].base < lo then lo else s'.space.tables[c.page].base
    else
      && (c.number == 512 || (c.number == 1 && Covered(s'.space.tables, c.at, 3)))
      && c.at + c.number <= PAGE_LIMIT
      && (forall v :: c.at <= v < c.at + c.number ==>
            s.At(v).Unmapped? && s'.At(v).Mapped? && s'.At(v).page == c.page + (v - c.at))
  }

  /** In increasing order of the pages they are for; the tables for a unit come before the unit. */
  ghost predicate Ordered(claims: seq<Claim>) {
    forall i, j :: 0 <= i < j < |claims| ==>
      claims[i].at <= claims[j].at && (claims[i].table || claims[i].at < claims[j].at)
  }

  predicate Backs(claims: seq<Claim>, v: nat) {
    exists k :: 0 <= k < |claims| && !claims[k].table && claims[k].at <= v < claims[k].at + claims[k].number
  }

  /** From s to s' exactly these claims were made, for pages from lo up to hi; units were claimed for pages below
      units only, and in MapAlloc mode every page that became mapped is one of theirs. */
  ghost predicate Supplies(s: Snapshot, s': Snapshot, claims: seq<Claim>, lo: nat, hi: nat, units: nat,
                           total: nat, mode: MapType)
  {
    && Keeps(s, s')
    && FirstFits(s.claimed, total, claims) && s'.claimed == ClaimedAfter(s.claimed, claims)
    && Ordered(claims)
    && (forall k :: 0 <= k < |claims| ==> Used(s, s', claims[k], lo) && lo <= claims[k].at < hi)
    && (forall k :: 0 <= k < |claims| && !claims[k].table ==> mode.MapAlloc? && claims[k].at < units)
    && (mode.MapAlloc? ==>
          forall v :: 0 <= v < PAGE_LIMIT && s.At(v).Unmapped? && s'.At(v).Mapped? ==> Backs(claims, v))
  }

  ghost predicate Supplied(s: Snapshot, s': Snapshot, lo: nat, hi: nat, units: nat, total: nat, mode: MapType) {
    exists claims: seq<Claim> :: Supplies(s, s', claims, lo, hi, units, total, mode)
  }

  /** No new table starts before page lo. */
  ghost predicate NoneBefore(t: Tables, t': Tables, lo: nat) {
    forall g :: g in t' && g !in t ==> lo <= t'[g].base
  }

  // ---- one after another ----------------------------------------------------------------------

  lemma UsedLater(a: Snapshot, b: Snapshot, c: Snapshot, x: Claim, lo: nat)
    requires Used(a, b, x, lo) && Keeps(b, c)
    ensures Used(a, c, x, lo)
  {
    hide InTable, Translate;
    if !x.table && Covered(b.space.tables, x.at, 3) {
      CoveredStays(b.space.tables, c.space.tables, x.at, 3);
    }
  }

  lemma UsedBefore(a: Snapshot, b: Snapshot, c: Snapshot, y: Claim, lo: nat, mid: nat)
    requires Keeps(a, b) && Used(b, c, y, mid) && lo <= mid
    requires lo == mid || NoneBefore(b.space.tables, c.space.tables, mid)
    ensures Used(a, c, y, lo)
  {
    hide InTable, Translate, Covered;
  }

  lemma OrderedThen(x: seq<Claim>, y: seq<Claim>, from: nat)
    requires Ordered(x) && Ordered(y)
    requires forall i :: 0 <= i < |x| ==> x[i].at <= from && (x[i].table || x[i].at < from)
    requires forall j :: 0 <= j < |y| ==> from <= y[j].at
    ensures Ordered(x + y)
  {
  }

  lemma BacksThen(x: seq<Claim>, y: seq<Claim>, v: nat)
    requires Backs(x, v) || Backs(y, v)
    ensures Backs(x + y, v)
  {
    var z := x + y;
    if k :| 0 <= k < |x| && !x[k].table && x[k].at <= v < x[k].at + x[k].number {
      assert z[k] == x[k];
    } else {
      var k :| 0 <= k < |y| && !y[k].table && y[k].at <= v < y[k].at + y[k].number;
      assert z[|x| + k] == y[k];
    }
  }

  lemma KeepsThen(a: Snapshot, b: Snapshot, c: Snapshot)
    requires Keeps(a, b) && Keeps(b, c)
    ensures Keeps(a, c)
  {
    hide Translate;
  }

  /** Steps compose when the second goes on where the first ended, or when it only makes use of tables that the
      first step made for its first page. */
  lemma SuppliedThen(a: Snapshot, b: Snapshot, c: Snapshot, lo: nat, mid: nat, units: nat, from: nat, hi: nat, units': nat,
                     total: nat, mode: MapType)
    requires Supplied(a, b, lo, mid, units, total, mode) && Supplied(b, c, from, hi, units', total, mode)
    requires lo <= from && units <= from && mid <= from + 1 && mid <= hi && units <= units'
    requires lo == from || NoneBefore(b.space.tables, c.space.tables, from)
    ensures Supplied(a, c, lo, hi, units', total, mode)
  {
    hide Keeps, Used, FirstFits, Ordered, Backs, ClaimedAfter, Translate, NoneBefore;
    var x: seq<Claim> :| Supplies(a, b, x, lo, mid, units, total, mode);
    var y: seq<Claim> :| Supplies(b, c, y, from, hi, units', total, mode);
    var z := x + y;
    KeepsThen(a, b, c);
    FirstFitsThen(a.claimed, total, x, y);
    ClaimedThen(a.claimed, x, y);
    OrderedThen(x, y, from);
    forall k | 0 <= k < |z|
      ensures Used(a, c, z[k], lo) && lo <= z[k].at < hi
    {
      if k < |x| {
        UsedLater(a, b, c, x[k], lo);
      } else {
        UsedBefore(a, b, c, y[k - |x|], lo, from);
      }
    }
    if mode.MapAlloc? {
      forall v | 0 <= v < PAGE_LIMIT && a.At(v).Unmapped? && c.At(v).Mapped?
        ensures Backs(z, v)
      {
        BacksThen(x, y, v);
      }
    }
    assert Supplies(a, c, z, lo, hi, units', total, mode);
  }

  lemma SuppliedWider(s: Snapshot, s': Snapshot, lo: nat, hi: nat, units: nat, hi': nat, units': nat, total: nat, mode: MapType)
    requires Supplied(s, s', lo, hi, units, total, mode) && hi <= hi' && units <= units'
    ensures Supplied(s, s', lo, hi', units', total, mode)
  {
    hide Keeps, Used, FirstFits, Ordered, Backs, ClaimedAfter, Translate;
    var claims: seq<Claim> :| Supplies(s, s', claims, lo, hi, units, total, mode);
    assert Supplies(s, s', claims, lo, hi', units', total, mode);
  }

  // ---- single steps ---------------------------------------------------------------------------

  lemma KeepsOf(s: Snapshot, s': Snapshot, lo: nat, hi: nat, memoryType: nat, mode: MapType)
    requires Advance(s, s', lo, hi, memoryType, mode)
    ensures Keeps(s, s')
  {
    hide Good, Translate;
    forall v | 0 <= v < PAGE_LIMIT && s.At(v).Mapped?
      ensures s'.At(v).Mapped? && s'.At(v).page == s.At(v).page
    {
      assert Remaps(s.At(v), s'.At(v), v, lo <= v < hi, memoryType, mode, s.claimed);
    }
  }

  lemma NothingMapped(s: Snapshot, s': Snapshot, lo: nat, hi: nat, memoryType: nat, mode: MapType)
    requires Good(s, mode) && Advance(s, s', lo, hi, memoryType, mode) && mode.MapAlloc? && s'.claimed == s.claimed
    ensures forall v :: 0 <= v < PAGE_LIMIT && s.At(v).Unmapped? ==> s'.At(v).Unmapped?
  {
    hide Tree, Translate, RemapsRange;
    forall v | 0 <= v < PAGE_LIMIT && s'.At(v).Mapped?
      ensures s.At(v).Mapped?
    {
      var p := s'.At(v).page;
      assert OutputOf(s'.space.outputs, p, v);
      assert p in s.space.outputs;
      assert BackedBy(s, p, s.space.outputs[p]);
    }
  }

  /** Without a claim nothing becomes mapped. */
  lemma SuppliedNone(s: Snapshot, s': Snapshot, lo: nat, hi: nat, memoryType: nat, from: nat, to: nat, units: nat,
                     total: nat, mode: MapType)
    requires Good(s, mode) && Advance(s, s', lo, hi, memoryType, mode) && s'.claimed == s.claimed
    ensures Supplied(s, s', from, to, units, total, mode)
  {
    hide Good, Advance, Keeps, Translate;
    KeepsOf(s, s', lo, hi, memoryType, mode);
    if mode.MapAlloc? {
      NothingMapped(s, s', lo, hi, memoryType, mode);
    }
    assert Supplies(s, s', [], from, to, units, total, mode);
  }

  lemma SuppliedSelf(s: Snapshot, lo: nat, hi: nat, units: nat, total: nat, mode: MapType)
    ensures Supplied(s, s, lo, hi, units, total, mode)
  {
    hide Translate;
    assert Supplies(s, s, [], lo, hi, units, total, mode);
  }

  /** A step that maps nothing and adds no table claims nothing. */
  lemma NothingClaimedFor(s: Snapshot, s': Snapshot, at: nat, memoryType: nat, mode: MapType)
    requires Good(s, mode) && Advance(s, s', at, at, memoryType, mode) && s'.space.tables == s.space.tables
    ensures s'.claimed == s.claimed
  {
    hide Tree, Translate;
    if mode.MapAlloc? {
      forall p | p in s'.space.outputs
        ensures p in s.space.outputs
      {
        var v := s'.space.outputs[p];
        assert BackedBy(s', p, v);
        assert Remaps(s.At(v), s'.At(v), v, at <= v < at, memoryType, mode, s.claimed);
        assert OutputOf(s.space.outputs, s.At(v).page, v);
      }
    }
  }

  /** A table was claimed for page v, and no translation changed. */
  lemma SuppliedTable(s: Snapshot, s': Snapshot, g: nat, v: nat, total: nat, mode: MapType)
    requires Advance(s, s', 0, 0, 0, mode) && FirstFit(s.claimed, total, 1, 1, g) && s'.claimed == s.claimed + {g}
    requires g !in s.space.tables && g in s'.space.tables && InTable(s'.space.tables[g], v)
    ensures Supplied(s, s', v, v + 1, v, total, mode)
  {
    hide Good, Translate, FirstFit, FirstFits, ClaimedAfter;
    KeepsOf(s, s', 0, 0, 0, mode);
    var c := Claim(g, 1, v, true);
    OneClaim(s.claimed, total, c);
    RunSingle(g);
    forall u | 0 <= u < PAGE_LIMIT
      ensures s'.At(u) == s.At(u)
    {
      assert Remaps(s.At(u), s'.At(u), u, 0 <= u < 0, 0, mode, s.claimed);
    }
    hide Advance, Keeps;
    assert Supplies(s, s', [c], v, v + 1, v, total, mode);
  }

  lemma RunSingle(page: nat)
    ensures Run(page, 1) == {page}
  {
  }

  /** The unit at lo was backed by a claimed run. */
  lemma SuppliedUnit(s: Snapshot, s': Snapshot, page: nat, number: nat, lo: nat, memoryType: nat, total: nat)
    requires Advance(s, s', lo, lo + number, memoryType, MapAlloc) && lo + number <= PAGE_LIMIT
    requires number == 512 || (number == 1 && Covered(s'.space.tables, lo, 3))
    requires FirstFit(s.claimed, total, number, number, page) && s'.claimed == s.claimed + Run(page, number)
    requires forall v :: lo <= v < lo + number ==> s.At(v).Unmapped? && s'.At(v).Mapped? && s'.At(v).page == page + (v - lo)
    ensures Supplied(s, s', lo, lo + number, lo + number, total, MapAlloc)
  {
    hide Good, Translate, FirstFit, FirstFits, ClaimedAfter, Covered, Run;
    KeepsOf(s, s', lo, lo + number, memoryType, MapAlloc);
    var c := Claim(page, number, lo, false);
    OneClaim(s.claimed, total, c);
    forall u | 0 <= u < PAGE_LIMIT && s.At(u).Unmapped? && s'.At(u).Mapped?
      ensures Backs([c], u)
    {
      assert Remaps(s.At(u), s'.At(u), u, lo <= u < lo + number, memoryType, MapAlloc, s.claimed);
      assert [c][0] == c;
    }
    hide Advance, Keeps;
    assert Supplies(s, s', [c], lo, lo + number, lo + number, total, MapAlloc);
  }

  // ---- where the tables of the next part start ------------------------------------------------

  /** A page with a table of a level has tables of all levels above it. */
  lemma {:induction false} CoveredAbove(mem: Ram, root: nat, t: Tables, v: nat, level: nat, upper: nat)
    requires Tree(mem, root, t) && Covered(t, v, level) && upper <= level
    ensures Covered(t, v, upper)
    decreases level
  {
    hide InTable;
    if upper < level {
      var g :| g in t && t[g].level == level && InTable(t[g], v);
      var i := ParentCovers(mem, root, t, g, v);
      CoveredBy(t, t[g].parent, v);
      CoveredAbove(mem, root, t, v, level - 1, upper);
    }
  }

  /** Behind a page with a table of the level, new tables start at the next page or later. */
  lemma NextTables(s: Snapshot, s': Snapshot, mode: MapType, from: nat, hi: nat, level: nat, level': nat)
    requires Good(s, mode) && Good(s', mode) && from > 0 && Covered(s.space.tables, from - 1, level)
    requires Grows(s.space.tables, s'.space.tables, from, hi, level')
    requires level' <= level <= 3 || (level == 2 && level' == 3 && from % 512 == 0)
    ensures NoneBefore(s.space.tables, s'.space.tables, from)
  {
    hide Tree, OwnsOutputs;
    var t, t' := s.space.tables, s'.space.tables;
    forall g | g in t' && g !in t
      ensures from <= t'[g].base
    {
      TableOf(s'.mem, s'.space.root, t', g);
      if t'[g].base < from {
        assert InTable(t'[g], from - 1);
        if t'[g].level <= level {
          CoveredAbove(s.mem, s.space.root, t, from - 1, level, t'[g].level);
          var h :| h in t && t[h].level == t'[g].level && InTable(t[h], from - 1);
          UniqueTable(s'.mem, s'.space.root, t', g, h, from - 1);
        }
      }
    }
  }

  lemma SameTables(t: Tables, from: nat)
    ensures NoneBefore(t, t, from)
  {
  }

  /** The tables for page v are those for the first page of its unit. */
  lemma SuppliedFor(s: Snapshot, s': Snapshot, v: nat, at: nat, level: nat, total: nat, mode: MapType)
    requires Good(s', mode) && Grows(s.space.tables, s'.space.tables, v, v + 1, level) && 1 <= level <= 3
    requires Supplied(s, s', v, v + 1, v, total, mode) && v / SlotPages(level) * SlotPages(level) == at
    ensures Supplied(s, s', at, at + 1, at, total, mode)
  {
    hide Good, Translate, ClaimedAfter, FirstFits, Keeps, SlotPages;
    var claims: seq<Claim> :| Supplies(s, s', claims, v, v + 1, v, total, mode);
    var there := seq(|claims|, i requires 0 <= i < |claims| => claims[i].(at := at));
    SameClaims(s.claimed, total, claims, there);
    forall k | 0 <= k < |there|
      ensures Used(s, s', there[k], at) && there[k].table
    {
      var g := claims[k].page;
      assert Used(s, s', claims[k], v);
      TableAt(s', mode, g);
      UnitInTable(s'.space.tables[g], level, v, at);
    }
    forall u
      ensures !Backs(claims, u)
    {
    }
    assert Supplies(s, s', there, at, at + 1, at, total, mode);
  }

  lemma UnitInTable(info: Info, level: nat, v: nat, at: nat)
    requires Placed(info) && info.level <= level <= 3 && InTable(info, v) && v / SlotPages(level) * SlotPages(level) == at
    ensures InTable(info, at)
  {
  }

  lemma {:induction false} SameClaims(claimed: set<nat>, total: nat, x: seq<Claim>, y: seq<Claim>)
    requires |x| == |y| && forall k :: 0 <= k < |x| ==> y[k].page == x[k].page && y[k].number == x[k].number
    ensures ClaimedAfter(claimed, y) == ClaimedAfter(claimed, x)
    ensures FirstFits(claimed, total, x) ==> FirstFits(claimed, total, y)
    decreases |x|
  {
    hide FirstFit, Run;
    forall k | 0 <= k < |x|
      ensures ClaimedAfter(claimed, y[..k]) == ClaimedAfter(claimed, x[..k])
    {
      SameClaims(claimed, total, x[..k], y[..k]);
    }
  }

  // ---- the batches of a call and the parts of a range -----------------------------------------

  /** The tables for the batch at page at are there. */
  lemma SuppliedTables(s: Snapshot, here: Snapshot, there: Snapshot, lo: nat, at: nat, v: nat, level: nat,
                       total: nat, mode: MapType)
    requires Good(here, mode) && Good(there, mode) && 1 <= level <= 3 && lo <= at
    requires Supplied(s, here, lo, at, at, total, mode) && Supplied(here, there, v, v + 1, v, total, mode)
    requires Grows(here.space.tables, there.space.tables, v, v + 1, level) && v / SlotPages(level) * SlotPages(level) == at
    requires lo < at ==> Covered(here.space.tables, at - 1, level)
    ensures Supplied(s, there, lo, at + 1, at, total, mode)
  {
    hide Good, Supplied, Covered, SlotPages, NoneBefore, TablePages;
    SuppliedFor(here, there, v, at, level, total, mode);
    UnitBefore(v, at, level);
    if lo < at {
      GrowsNone(here.space.tables, at, v + 1, level);
      GrowsThen(here.space.tables, here.space.tables, there.space.tables, at, v + 1, v, v + 1, level, level);
      NextTables(here, there, mode, at, v + 1, level, level);
    }
    SuppliedThen(s, here, there, lo, at, at, at, at + 1, at, total, mode);
  }

  lemma UnitBefore(v: nat, at: nat, level: nat)
    requires v / SlotPages(level) * SlotPages(level) == at && level <= 3
    ensures at <= v
  {
  }

  /** The units of the batch are done. */
  lemma SuppliedUnits(s: Snapshot, there: Snapshot, s': Snapshot, lo: nat, at: nat, end: nat, total: nat, mode: MapType)
    requires Supplied(s, there, lo, at + 1, at, total, mode) && Supplied(there, s', at, end, end, total, mode)
    requires lo <= at < end && s'.space.tables == there.space.tables
    ensures Supplied(s, s', lo, end, end, total, mode)
  {
    hide Supplied;
    SuppliedThen(s, there, s', lo, at + 1, at, at, end, end, total, mode);
  }

  /** A part of a range that is mapped at a level may follow: the page before it has a table of that level, or the
      part starts where level-3 tables start. */
  ghost predicate Ready(t: Tables, lo: nat, at: nat, level: nat) {
    lo < at ==>
      Covered(t, at - 1, level) || Covered(t, at - 1, 3) || (level == 3 && at % 512 == 0 && Covered(t, at - 1, 2))
  }

  /** The next part of a range. */
  lemma SuppliedPart(s: Snapshot, here: Snapshot, s': Snapshot, lo: nat, at: nat, end: nat, level: nat, total: nat,
      mode: MapType)
    requires Good(here, mode) && Good(s', mode) && lo <= at <= end && 2 <= level <= 3
    requires Supplied(s, here, lo, at, at, total, mode) && Supplied(here, s', at, end, end, total, mode)
    requires Grows(here.space.tables, s'.space.tables, at, end, level) && Ready(here.space.tables, lo, at, level)
    ensures Supplied(s, s', lo, end, end, total, mode)
  {
    hide Good, Supplied, Covered, NoneBefore, Grows;
    var t := here.space.tables;
    if lo < at {
      if Covered(t, at - 1, level) {
        NextTables(here, s', mode, at, end, level, level);
      } else if Covered(t, at - 1, 3) {
        NextTables(here, s', mode, at, end, 3, level);
      } else {
        NextTables(here, s', mode, at, end, 2, 3);
      }
    }
    SuppliedThen(s, here, s', lo, at, at, at, end, end, total, mode);
  }

  // ---- blocks ---------------------------------------------------------------------------------

  /** No new level-3 table starts among the whole blocks of [lo, hi). */
  ghost predicate BlocksWhole(t: Tables, t': Tables, lo: nat, hi: nat) {
    forall g :: g in t' && g !in t && t'[g].level == 3 ==>
      t'[g].base < (lo + 511) / 512 * 512 || hi / 512 * 512 <= t'[g].base
  }

  lemma WholeNone(t: Tables, lo: nat, hi: nat)
    ensures BlocksWhole(t, t, lo, hi)
  {
  }

  lemma WholeThen(t: Tables, here: Snapshot, s': Snapshot, mode: MapType, at: nat, end: nat, level: nat, lo: nat, hi: nat)
    requires Good(s', mode) && Extends(t, here.space.tables) && BlocksWhole(t, here.space.tables, lo, hi)
    requires Grows(here.space.tables, s'.space.tables, at, end, level)
    requires level == 2 || (level == 3 && (end <= (lo + 511) / 512 * 512 || hi / 512 * 512 <= at))
    ensures BlocksWhole(t, s'.space.tables, lo, hi)
  {
    hide Good;
    var t' := s'.space.tables;
    forall g | g in t' && g !in t && t'[g].level == 3
      ensures t'[g].base < (lo + 511) / 512 * 512 || hi / 512 * 512 <= t'[g].base
    {
      if g !in here.space.tables {
        TableAt(s', mode, g);
        BlockApart(t'[g].base, hi / 512 * 512);
      }
    }
  }

  lemma BlockApart(a: nat, b: nat)
    requires a % 512 == 0 && b % 512 == 0
    ensures a + 512 > b ==> a >= b
  {
  }
}
