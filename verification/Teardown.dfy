/** Tearing a tree down: the recursive post-order walk that the explicit stack of mmu_destroy_entry
    has to reproduce, and what that walk releases. */
module Teardown {
  import opened Arithmetic
  import opened Descriptor
  import opened FrameSet
  import opened PageTree
  import opened AddressSpace

  /** One call of s_pages_dealloc. */
  datatype Release = Release(page: nat, count: nat)

  /** struct mmu_entry_info. */
  datatype EntryInfo = EntryInfo(table: nat, idx: nat, level: nat)

  // ---- the recursive walk -------------------------------------------------------------------

  /** A table is released after everything in its slots. */
  function PostOrder(mem: Ram, f: nat, level: nat): seq<Release>
    decreases 4 - level, ENTRIES + 2
  {
    if level > 3 then [] else SlotsFrom(mem, f, level, 0) + [Release(f, 1)]
  }

  function SlotsFrom(mem: Ram, f: nat, level: nat, i: nat): seq<Release>
    requires level <= 3
    decreases 4 - level, ENTRIES + 1 - i
  {
    if f !in mem || |mem[f]| != ENTRIES || i >= ENTRIES then []
    else SlotReleases(mem, mem[f][i], level) + SlotsFrom(mem, f, level, i + 1)
  }

  function SlotReleases(mem: Ram, w: Word, level: nat): seq<Release>
    requires level <= 3
    decreases 4 - level, 0
  {
    match Decode(w, level)
    case Invalid => []
    case Table(g) => PostOrder(mem, g, level + 1)
    case Leaf(page, _) => [Release(page, SlotPages(level))]
  }

  /** What is still to be released for a stack of tables with the index of the next slot each. */
  function Pending(mem: Ram, stack: seq<EntryInfo>): seq<Release> {
    if |stack| == 0 then []
    else
      var top := stack[|stack| - 1];
      (if top.level > 3 then [] else SlotsFrom(mem, top.table, top.level, top.idx) + [Release(top.table, 1)])
      + Pending(mem, stack[..|stack| - 1])
  }

  /** The loop as written does not look at the index of the parent after a pop: it reads past the end
      of a table whose last slot holds a table. */
  predicate Strays(mem: Ram, f: nat, level: nat, i: nat)
    requires level <= 3
    decreases 4 - level, ENTRIES - i
  {
    && f in mem && |mem[f]| == ENTRIES && i < ENTRIES
    && (|| (Decode(mem[f][i], level).Table? && level < 3
            && (i == ENTRIES - 1 || Strays(mem, Decode(mem[f][i], level).next, level + 1, 0)))
        || Strays(mem, f, level, i + 1))
  }

  predicate StackStrays(mem: Ram, stack: seq<EntryInfo>) {
    |stack| > 0 &&
    var top := stack[|stack| - 1];
    (top.level <= 3 && (top.idx == ENTRIES || Strays(mem, top.table, top.level, top.idx)))
    || StackStrays(mem, stack[..|stack| - 1])
  }

  /** mem holds the tables below the root as mem0 does. */
  ghost predicate SameBelow(mem0: Ram, mem: Ram, root: nat) {
    forall g :: g in mem0 && g != root ==> g in mem && mem[g] == mem0[g]
  }

  /** The entries are tables of the tree below the root, one level apart. */
  ghost predicate StackOk(t: Tables, stack: seq<EntryInfo>, level: nat) {
    forall k :: 0 <= k < |stack| ==>
      && stack[k].level == level + k && 1 <= stack[k].level <= 3 && stack[k].idx <= ENTRIES
      && stack[k].table in t && t[stack[k].table].level == stack[k].level
  }

  /** The slots that are still to be visited, one in every iteration of the stack loop. */
  function Visits(mem: Ram, f: nat, level: nat, i: nat): nat
    requires level <= 3
    decreases 4 - level, ENTRIES - i
  {
    if f !in mem || |mem[f]| != ENTRIES || i >= ENTRIES then 0
    else
      1 + (if Decode(mem[f][i], level).Table? && level < 3 then Visits(mem, Decode(mem[f][i], level).next, level + 1, 0) else 0)
      + Visits(mem, f, level, i + 1)
  }

  function StackVisits(mem: Ram, stack: seq<EntryInfo>): nat {
    if |stack| == 0 then 0
    else
      var top := stack[|stack| - 1];
      (if top.level > 3 then 0 else Visits(mem, top.table, top.level, top.idx)) + StackVisits(mem, stack[..|stack| - 1])
  }

  /** The first slot of what is left of a table. */
  lemma FirstSlot(mem: Ram, f: nat, level: nat, i: nat)
    requires 1 <= level <= 3 && i < ENTRIES && f in mem && |mem[f]| == ENTRIES
    requires Decode(mem[f][i], level).Table? ==> level < 3
    ensures
      var d := Decode(mem[f][i], level);
      if d.Table? then
        && SlotsFrom(mem, f, level, i) ==
           SlotsFrom(mem, d.next, level + 1, 0) + [Release(d.next, 1)] + SlotsFrom(mem, f, level, i + 1)
        && Visits(mem, f, level, i) == 1 + Visits(mem, d.next, level + 1, 0) + Visits(mem, f, level, i + 1)
        && (Strays(mem, f, level, i) <==> i + 1 == ENTRIES || Strays(mem, d.next, level + 1, 0) || Strays(mem, f, level, i + 1))
      else
        && SlotsFrom(mem, f, level, i) == LeafRelease(d, level) + SlotsFrom(mem, f, level, i + 1)
        && Visits(mem, f, level, i) == 1 + Visits(mem, f, level, i + 1)
        && Strays(mem, f, level, i) == Strays(mem, f, level, i + 1)
  {
    hide Decode, SlotsFrom, LeafRelease;
    FirstReleases(mem, f, level, i);
  }

  lemma FirstReleases(mem: Ram, f: nat, level: nat, i: nat)
    requires 1 <= level <= 3 && i < ENTRIES && f in mem && |mem[f]| == ENTRIES
    requires Decode(mem[f][i], level).Table? ==> level < 3
    ensures
      var d, rest := Decode(mem[f][i], level), SlotsFrom(mem, f, level, i + 1);
      SlotsFrom(mem, f, level, i) ==
      if d.Table? then SlotsFrom(mem, d.next, level + 1, 0) + [Release(d.next, 1)] + rest else LeafRelease(d, level) + rest
  {
    hide Decode, SlotPages, PostOrder;
    assert SlotsFrom(mem, f, level, i) == SlotReleases(mem, mem[f][i], level) + SlotsFrom(mem, f, level, i + 1);
    hide SlotsFrom;
    var d := Decode(mem[f][i], level);
    if d.Table? {
      PostOrderIs(mem, d.next, level + 1);
    }
  }

  function LeafRelease(d: Desc, level: nat): seq<Release> {
    if d.Leaf? then [Release(d.page, SlotPages(level))] else []
  }

  /** One iteration at a slot without a table. */
  lemma StackNext(mem: Ram, below: seq<EntryInfo>, e: EntryInfo)
    requires 1 <= e.level <= 3 && e.idx < ENTRIES && e.table in mem && |mem[e.table]| == ENTRIES
    requires !Decode(mem[e.table][e.idx], e.level).Table?
    ensures
      var stack, next := below + [e], below + [e.(idx := e.idx + 1)];
      && Pending(mem, stack) == LeafRelease(Decode(mem[e.table][e.idx], e.level), e.level) + Pending(mem, next)
      && StackVisits(mem, stack) == 1 + StackVisits(mem, next)
      && StackStrays(mem, stack) == if e.idx + 1 == ENTRIES then StackStrays(mem, below) else StackStrays(mem, next)
  {
    hide Decode, Pending, StackVisits, StackStrays, SlotsFrom, Visits, LeafRelease;
    FirstSlot(mem, e.table, e.level, e.idx);
    OneMore(mem, below, e);
    OneMore(mem, below, e.(idx := e.idx + 1));
    Reassociate(LeafRelease(Decode(mem[e.table][e.idx], e.level), e.level), SlotsFrom(mem, e.table, e.level, e.idx + 1),
                [Release(e.table, 1)], Pending(mem, below));
  }

  lemma Reassociate(a: seq<Release>, b: seq<Release>, c: seq<Release>, d: seq<Release>)
    ensures a + b + c + d == a + (b + c + d)
  {
  }

  /** One iteration at a slot with a table. */
  lemma StackPush(mem: Ram, below: seq<EntryInfo>, e: EntryInfo)
    requires 1 <= e.level < 3 && e.idx < ENTRIES && e.table in mem && |mem[e.table]| == ENTRIES
    requires Decode(mem[e.table][e.idx], e.level).Table?
    ensures
      var stack, next := below + [e], below + [e.(idx := e.idx + 1)];
      var pushed := next + [EntryInfo(Decode(mem[e.table][e.idx], e.level).next, 0, e.level + 1)];
      && Pending(mem, stack) == Pending(mem, pushed)
      && StackVisits(mem, stack) == 1 + StackVisits(mem, pushed)
      && StackStrays(mem, stack) == StackStrays(mem, pushed)
  {
    hide Decode, Pending, StackVisits, StackStrays, SlotsFrom, Visits, Strays;
    var next, g := e.(idx := e.idx + 1), Decode(mem[e.table][e.idx], e.level).next;
    FirstSlot(mem, e.table, e.level, e.idx);
    OneMore(mem, below, e);
    OneMore(mem, below, next);
    OneMore(mem, below + [next], EntryInfo(g, 0, e.level + 1));
    Reassociate(SlotsFrom(mem, g, e.level + 1, 0) + [Release(g, 1)], SlotsFrom(mem, e.table, e.level, e.idx + 1),
                [Release(e.table, 1)], Pending(mem, below));
  }

  lemma OneMore(mem: Ram, below: seq<EntryInfo>, e: EntryInfo)
    requires 1 <= e.level <= 3
    ensures Pending(mem, below + [e]) == SlotsFrom(mem, e.table, e.level, e.idx) + [Release(e.table, 1)] + Pending(mem, below)
    ensures StackVisits(mem, below + [e]) == Visits(mem, e.table, e.level, e.idx) + StackVisits(mem, below)
    ensures StackStrays(mem, below + [e]) <==>
              e.idx == ENTRIES || Strays(mem, e.table, e.level, e.idx) || StackStrays(mem, below)
  {
    var stack := below + [e];
    assert stack[..|stack| - 1] == below;
  }

  lemma NothingPending(mem: Ram, stack: seq<EntryInfo>)
    requires stack == []
    ensures Pending(mem, stack) == [] && !StackStrays(mem, stack)
  {
  }

  lemma PopStep(mem: Ram, below: seq<EntryInfo>, e: EntryInfo)
    requires 1 <= e.level <= 3 && e.idx == ENTRIES
    ensures Pending(mem, below + [e]) == [Release(e.table, 1)] + Pending(mem, below)
    ensures StackVisits(mem, below + [e]) == StackVisits(mem, below)
  {
    var stack := below + [e];
    assert stack[..|stack| - 1] == below;
  }

  // ---- what is released -----------------------------------------------------------------------

  /** The pages are tracked by the bitmap, and the free loop as written is right for them. */
  predicate Tracked(release: Release, total: nat) {
    && release.page + release.count <= total
    && (release.page % 64 == 0 || release.page % 64 + release.count <= 64)
  }

  ghost predicate AllTracked(releases: seq<Release>, total: nat) {
    forall k :: 0 <= k < |releases| ==> Tracked(releases[k], total)
  }

  function Pages(releases: seq<Release>): set<nat> {
    if releases == [] then {}
    else
      var last := releases[|releases| - 1];
      Pages(releases[..|releases| - 1]) + Run(last.page, last.count)
  }

  lemma {:induction false} PagesThen(a: seq<Release>, b: seq<Release>)
    ensures Pages(a + b) == Pages(a) + Pages(b)
  {
    if b == [] {
      assert a + b == a;
    } else {
      PagesThen(a, b[..|b| - 1]);
      assert (a + b)[..|a + b| - 1] == a + b[..|b| - 1];
    }
  }

  lemma PagesNone()
    ensures Pages([]) == {}
  {
  }

  lemma PagesOne(releases: seq<Release>)
    requires |releases| == 1
    ensures Pages(releases) == Run(releases[0].page, releases[0].count)
  {
    assert releases[..0] == [];
  }

  /** The releases partition the set: none is empty, no page is released twice, none is left. */
  ghost predicate Exactly(releases: seq<Release>, frames: set<nat>) {
    if releases == [] then frames == {}
    else
      var last := releases[|releases| - 1];
      && last.count > 0 && Run(last.page, last.count) <= frames
      && Exactly(releases[..|releases| - 1], frames - Run(last.page, last.count))
  }

  lemma {:induction false} ExactlyPages(releases: seq<Release>, frames: set<nat>)
    requires Exactly(releases, frames)
    ensures Pages(releases) == frames
  {
    if releases != [] {
      var last := releases[|releases| - 1];
      ExactlyPages(releases[..|releases| - 1], frames - Run(last.page, last.count));
    }
  }

  lemma {:induction false} ExactlyThen(a: seq<Release>, b: seq<Release>, x: set<nat>, y: set<nat>)
    requires Exactly(a, x) && Exactly(b, y) && x !! y
    ensures Exactly(a + b, x + y)
  {
    if b == [] {
      assert a + b == a && x + y == x;
    } else {
      var last := b[|b| - 1];
      var run := Run(last.page, last.count);
      ExactlyThen(a, b[..|b| - 1], x, y - run);
      assert (a + b)[..|a + b| - 1] == a + b[..|b| - 1];
      assert x + y - run == x + (y - run);
    }
  }

  lemma ExactlyOne(page: nat, count: nat)
    requires count > 0
    ensures Exactly([Release(page, count)], Run(page, count))
  {
    var one := [Release(page, count)];
    assert one[..0] == [];
  }

  /** What the slots of table f from slot i on own: the tables below and the outputs of their pages. */
  ghost function OwnedFrom(s: Snapshot, f: nat, i: nat): set<nat>
    requires f in s.space.tables
  {
    var info := s.space.tables[f];
    OwnedIn(s, info.level, SlotBase(info.base, info.level, i), info.base + TablePages(info.level))
  }

  ghost function OwnedIn(s: Snapshot, level: nat, lo: nat, hi: nat): set<nat> {
    (set g | g in s.space.tables && s.space.tables[g].level > level && lo <= s.space.tables[g].base < hi)
    + (set p | p in s.space.outputs && lo <= s.space.outputs[p] < hi)
  }

  /** Two tables of a level that translate a common page are the same table. */
  lemma {:induction false} UniqueTable(mem: Ram, root: nat, t: Tables, f: nat, g: nat, v: nat)
    requires Tree(mem, root, t) && f in t && g in t && t[f].level == t[g].level
    requires InTable(t[f], v) && InTable(t[g], v)
    ensures f == g
    decreases t[f].level
  {
    hide Decode, InTable, InSlot, SlotBase, TablePages, Placed, SlotOf;
    if f == root || g == root {
      assert f != root ==> Linked(mem, t, f);
      assert g != root ==> Linked(mem, t, g);
    } else {
      var i := ParentCovers(mem, root, t, f, v);
      var j := ParentCovers(mem, root, t, g, v);
      UniqueTable(mem, root, t, t[f].parent, t[g].parent, v);
    }
  }

  /** The parent of a table translates its pages, in the slot that links it. */
  lemma ParentCovers(mem: Ram, root: nat, t: Tables, f: nat, v: nat) returns (i: nat)
    requires Tree(mem, root, t) && f in t && f != root && InTable(t[f], v)
    ensures
      var p := t[f].parent;
      && p in t && t[f].level == t[p].level + 1 && InTable(t[p], v) && i == t[f].slot == SlotOf(v, t[p].level)
      && i < ENTRIES && InSlot(t[p], i, v) && t[f].base == SlotBase(t[p].base, t[p].level, i)
      && p in mem && |mem[p]| == ENTRIES && Decode(mem[p][i], t[p].level) == Table(f)
  {
    hide Decode, SlotOf;
    var p := t[f].parent;
    i := t[f].slot;
    assert Linked(mem, t, f);
    TableOf(mem, root, t, p);
    TableOf(mem, root, t, f);
    ChildPlaced(t[p], i, t[f]);
    PageOfSlot(t[p], i, v);
  }

  lemma BaseInTable(info: Info)
    ensures InTable(info, info.base)
  {
  }

  /** A table that starts in a slot of a higher table hangs below that slot. */
  lemma {:induction false} Below(mem: Ram, root: nat, t: Tables, f: nat, i: nat, g: nat) returns (h: nat)
    requires Tree(mem, root, t) && f in t && g in t && i < ENTRIES && f in mem && |mem[f]| == ENTRIES
    requires t[g].level > t[f].level && InSlot(t[f], i, t[g].base)
    ensures Decode(mem[f][i], t[f].level) == Table(h) && h in t && t[h].level == t[f].level + 1
    ensures g == h || t[g].level > t[h].level
    decreases t[g].level
  {
    hide Decode, Placed, SlotBase;
    TableOf(mem, root, t, f);
    assert g != root;
    BaseInTable(t[g]);
    var j := ParentCovers(mem, root, t, g, t[g].base);
    var p := t[g].parent;
    PageOfSlot(t[f], i, t[g].base);
    if t[p].level == t[f].level {
      UniqueTable(mem, root, t, p, f, t[g].base);
      h := g;
    } else {
      TableOf(mem, root, t, p);
      StartsInSlot(t[f], i, t[p], t[g].base);
      h := Below(mem, root, t, f, i, p);
    }
  }

  /** A lower table with a page in a slot starts in that slot. */
  lemma StartsInSlot(info: Info, i: nat, low: Info, v: nat)
    requires Placed(info) && Placed(low) && i < ENTRIES && low.level > info.level
    requires InSlot(info, i, v) && InTable(low, v)
    ensures InSlot(info, i, low.base)
  {
    SlotArithmetic(info.base, SlotPages(info.level), i, 0);
    var lo := SlotBase(info.base, info.level, i);
    var size := TablePages(low.level);
    assert lo % size == 0 && low.base % size == 0 by {
      LowerSize(lo, info.level, low);
    }
    assert low.base + size > lo;
    if low.base < lo {
      Apart(low.base, lo, size);
    }
  }

  lemma Apart(a: nat, b: nat, size: nat)
    requires size > 0 && a % size == 0 && b % size == 0 && a < b
    ensures a + size <= b
  {
    MultiplesApart(a, b, size);
  }

  lemma LowerSize(lo: nat, level: nat, low: Info)
    requires level < low.level <= 3 && lo % SlotPages(level) == 0 && Placed(low)
    ensures lo % TablePages(low.level) == 0 && low.base % TablePages(low.level) == 0
  {
    var k := SlotPages(level) / TablePages(low.level);
    assert SlotPages(level) == k * TablePages(low.level);
    FactorDivides(lo, k, TablePages(low.level));
  }

  ghost function OwnedBySlot(s: Snapshot, f: nat, i: nat): set<nat>
    requires f in s.space.tables
  {
    var info := s.space.tables[f];
    OwnedIn(s, info.level, SlotBase(info.base, info.level, i), SlotBase(info.base, info.level, i + 1))
  }

  lemma OwnedSplits(s: Snapshot, f: nat, i: nat)
    requires Good(s, MapAlloc) && f in s.space.tables && i < ENTRIES
    ensures OwnedFrom(s, f, i) == OwnedBySlot(s, f, i) + OwnedFrom(s, f, i + 1)
    ensures OwnedBySlot(s, f, i) !! OwnedFrom(s, f, i + 1)
    ensures OwnedFrom(s, f, ENTRIES) == {}
  {
    hide Tree, OwnsOutputs;
    var info := s.space.tables[f];
    TableAt(s, MapAlloc, f);
    SlotsInTable(info, i);
  }

  lemma SlotsInTable(info: Info, i: nat)
    requires Placed(info) && i < ENTRIES
    ensures SlotBase(info.base, info.level, i + 1) == SlotBase(info.base, info.level, i) + SlotPages(info.level)
    ensures SlotBase(info.base, info.level, i + 1) <= info.base + TablePages(info.level)
    ensures info.base + TablePages(info.level) == SlotBase(info.base, info.level, ENTRIES)
    ensures info.base <= SlotBase(info.base, info.level, i)
    ensures i == 0 ==> SlotBase(info.base, info.level, i) == info.base
  {
  }

  /** A slot without a table owns the outputs of its pages only. */
  lemma LeafOwns(s: Snapshot, f: nat, i: nat)
    requires Good(s, MapAlloc) && f in s.space.tables && i < ENTRIES && f in s.mem && |s.mem[f]| == ENTRIES
    requires !Decode(s.mem[f][i], s.space.tables[f].level).Table?
    ensures
      var d := Decode(s.mem[f][i], s.space.tables[f].level);
      OwnedBySlot(s, f, i) == if d.Leaf? then Run(d.page, SlotPages(s.space.tables[f].level)) else {}
  {
    hide Tree, Decode, SlotBase, Run;
    var info, d := s.space.tables[f], Decode(s.mem[f][i], s.space.tables[f].level);
    var lo, n := SlotBase(info.base, info.level, i), SlotPages(info.level);
    TableAt(s, MapAlloc, f);
    SlotsInTable(info, i);
    NoTableBelow(s, f, i);
    forall v | lo <= v < lo + n
      ensures s.At(v) == SlotMapping(s.mem[f][i], info, i, v)
    {
      TranslateInSlot(s.mem, s.space.root, s.space.tables, f, i, v);
    }
    forall p | p in s.space.outputs && lo <= s.space.outputs[p] < lo + n
      ensures d.Leaf? && d.page <= p < d.page + n
    {
      assert BackedBy(s, p, s.space.outputs[p]);
    }
    if d.Leaf? {
      RunIs(d.page, n);
      forall p | d.page <= p < d.page + n
        ensures p in s.space.outputs && lo <= s.space.outputs[p] < lo + n
      {
        var v := lo + (p - d.page);
        assert OutputOf(s.space.outputs, s.At(v).page, v);
      }
    }
  }

  lemma RunIs(page: nat, number: nat)
    ensures forall q :: q in Run(page, number) <==> page <= q < page + number
  {
  }

  lemma NoTableBelow(s: Snapshot, f: nat, i: nat)
    requires Good(s, MapAlloc) && f in s.space.tables && i < ENTRIES && f in s.mem && |s.mem[f]| == ENTRIES
    requires !Decode(s.mem[f][i], s.space.tables[f].level).Table?
    ensures forall g :: g in s.space.tables && s.space.tables[g].level > s.space.tables[f].level ==>
              !InSlot(s.space.tables[f], i, s.space.tables[g].base)
  {
    hide Tree, Decode, OwnsOutputs;
    forall g | g in s.space.tables && s.space.tables[g].level > s.space.tables[f].level
      ensures !InSlot(s.space.tables[f], i, s.space.tables[g].base)
    {
      if InSlot(s.space.tables[f], i, s.space.tables[g].base) {
        var h := Below(s.mem, s.space.root, s.space.tables, f, i, g);
      }
    }
  }

  /** A slot with a table owns that table and what the table owns. */
  lemma TableOwns(s: Snapshot, f: nat, i: nat, h: nat)
    requires Good(s, MapAlloc) && f in s.space.tables && i < ENTRIES && f in s.mem && |s.mem[f]| == ENTRIES
    requires Decode(s.mem[f][i], s.space.tables[f].level) == Table(h)
    ensures h in s.space.tables && s.space.tables[h] == ChildInfo(s.space.tables[f], f, i) && s.space.tables[f].level < 3
    ensures OwnedBySlot(s, f, i) == OwnedFrom(s, h, 0) + {h} && h !in OwnedFrom(s, h, 0)
  {
    hide Tree, Decode, OwnsOutputs, Run;
    var info := s.space.tables[f];
    TableAt(s, MapAlloc, f);
    SlotsInTable(info, i);
    assert SlotOk(s.mem[f][i], s.space.tables, f, i);
    TableAt(s, MapAlloc, h);
    ChildPlaced(info, i, s.space.tables[h]);
    SlotsInTable(s.space.tables[h], 0);
    forall g | g in s.space.tables && s.space.tables[g].level > info.level && InSlot(info, i, s.space.tables[g].base)
      ensures g == h || s.space.tables[g].level > s.space.tables[h].level
    {
      var k := Below(s.mem, s.space.root, s.space.tables, f, i, g);
    }
  }

  /** The walk releases exactly what the slots own, and what the whole table owns with the table. */
  lemma {:induction false} SlotsExactly(s: Snapshot, f: nat, i: nat)
    requires Good(s, MapAlloc) && f in s.space.tables && i <= ENTRIES && s.space.tables[f].level <= 3
    ensures Exactly(SlotsFrom(s.mem, f, s.space.tables[f].level, i), OwnedFrom(s, f, i))
    decreases 4 - s.space.tables[f].level, ENTRIES + 1 - i
  {
    hide Good, SlotReleases, OwnedFrom, OwnedBySlot;
    TableAt(s, MapAlloc, f);
    if i == ENTRIES {
      OwnedSplits(s, f, 0);
    } else {
      OwnedSplits(s, f, i);
      SlotExactly(s, f, i);
      SlotsExactly(s, f, i + 1);
      hide Exactly;
      ExactlyThen(SlotReleases(s.mem, s.mem[f][i], s.space.tables[f].level),
                  SlotsFrom(s.mem, f, s.space.tables[f].level, i + 1),
                  OwnedBySlot(s, f, i), OwnedFrom(s, f, i + 1));
    }
  }

  lemma {:induction false} SlotExactly(s: Snapshot, f: nat, i: nat)
    requires Good(s, MapAlloc) && f in s.space.tables && i < ENTRIES && s.space.tables[f].level <= 3
    requires f in s.mem && |s.mem[f]| == ENTRIES
    ensures Exactly(SlotReleases(s.mem, s.mem[f][i], s.space.tables[f].level), OwnedBySlot(s, f, i))
    decreases 4 - s.space.tables[f].level, 0
  {
    hide Good, Decode, SlotPages, Run, OwnedFrom, OwnedBySlot, PostOrder;
    var level := s.space.tables[f].level;
    TableAt(s, MapAlloc, f);
    var d := Decode(s.mem[f][i], level);
    if d.Table? {
      TableOwns(s, f, i, d.next);
      PostOrderExactly(s, d.next);
    } else {
      LeafOwns(s, f, i);
      if d.Leaf? {
        SomePages(level);
        ExactlyOne(d.page, SlotPages(level));
      }
    }
  }

  lemma SomePages(level: nat)
    ensures SlotPages(level) > 0
  {
  }

  lemma {:induction false} PostOrderExactly(s: Snapshot, f: nat)
    requires Good(s, MapAlloc) && f in s.space.tables && s.space.tables[f].level <= 3
    ensures Exactly(PostOrder(s.mem, f, s.space.tables[f].level), OwnedFrom(s, f, 0) + {f})
    decreases 4 - s.space.tables[f].level, ENTRIES + 2
  {
    hide Good, Run, SlotsFrom, OwnedFrom;
    SlotsExactly(s, f, 0);
    hide Exactly;
    ExactlyOne(f, 1);
    RunIs(f, 1);
    NotOwnedBelow(s, f);
    assert Run(f, 1) == {f};
    ExactlyThen(SlotsFrom(s.mem, f, s.space.tables[f].level, 0), [Release(f, 1)], OwnedFrom(s, f, 0), {f});
  }

  lemma NotOwnedBelow(s: Snapshot, f: nat)
    requires Good(s, MapAlloc) && f in s.space.tables
    ensures f !in OwnedFrom(s, f, 0)
  {
    hide Tree, OwnsOutputs;
  }

  /** Tearing the whole space down releases every table and every output once and nothing else. */
  lemma TeardownExactly(s: Snapshot)
    requires Good(s, MapAlloc)
    ensures Exactly(PostOrder(s.mem, s.space.root, 0), s.space.tables.Keys + s.space.outputs.Keys)
  {
    hide Exactly, PostOrder, OwnedFrom;
    assert s.space.root in s.space.tables && s.space.tables[s.space.root].level == 0;
    PostOrderExactly(s, s.space.root);
    RootOwnsAll(s);
  }

  lemma RootOwnsAll(s: Snapshot)
    requires Good(s, MapAlloc)
    ensures OwnedFrom(s, s.space.root, 0) + {s.space.root} == s.space.tables.Keys + s.space.outputs.Keys
  {
    var root := s.space.root;
    assert OwnedFrom(s, root, 0) == OwnedIn(s, 0, 0, PAGE_LIMIT);
    forall g | g in s.space.tables
      ensures g == root || (s.space.tables[g].level > 0 && s.space.tables[g].base < PAGE_LIMIT)
    {
      TableAt(s, MapAlloc, g);
      assert g != root ==> Linked(s.mem, s.space.tables, g);
    }
    forall p | p in s.space.outputs
      ensures s.space.outputs[p] < PAGE_LIMIT
    {
      assert BackedBy(s, p, s.space.outputs[p]);
    }
  }

  // ---- the releases fit the allocator ---------------------------------------------------------

  lemma {:induction false} ExactlyInside(releases: seq<Release>, frames: set<nat>, k: nat)
    requires Exactly(releases, frames) && k < |releases|
    ensures releases[k].count > 0 && Run(releases[k].page, releases[k].count) <= frames
    decreases |releases|
  {
    var last := releases[|releases| - 1];
    if k < |releases| - 1 {
      ExactlyInside(releases[..|releases| - 1], frames - Run(last.page, last.count), k);
    }
  }

  ghost predicate WordAligned(releases: seq<Release>) {
    forall k :: 0 <= k < |releases| ==> releases[k].count == 1 || releases[k].page % 64 == 0
  }

  lemma {:induction false} SlotsAligned(mem: Ram, f: nat, level: nat, i: nat)
    requires level <= 3
    ensures WordAligned(SlotsFrom(mem, f, level, i))
    decreases 4 - level, ENTRIES + 1 - i
  {
    hide Decode, SlotReleases;
    if f in mem && |mem[f]| == ENTRIES && i < ENTRIES {
      SlotAlignedReleases(mem, mem[f][i], level);
      SlotsAligned(mem, f, level, i + 1);
      hide SlotsFrom;
      AlignedThen(SlotReleases(mem, mem[f][i], level), SlotsFrom(mem, f, level, i + 1));
    }
  }

  lemma {:induction false} SlotAlignedReleases(mem: Ram, w: Word, level: nat)
    requires level <= 3
    ensures WordAligned(SlotReleases(mem, w, level))
    decreases 4 - level, 0
  {
    hide Decode, SlotPages, SlotsFrom;
    var d := Decode(w, level);
    DecodeBounds(w, level);
    if d.Table? {
      SlotsAligned(mem, d.next, level + 1, 0);
      AlignedThen(SlotsFrom(mem, d.next, level + 1, 0), [Release(d.next, 1)]);
    } else if d.Leaf? {
      BlockAligned(d.page, level);
    }
  }

  lemma AlignedThen(a: seq<Release>, b: seq<Release>)
    requires WordAligned(a) && WordAligned(b)
    ensures WordAligned(a + b)
  {
  }

  lemma BlockAligned(page: nat, level: nat)
    requires 1 <= level <= 3 && page % SlotPages(level) == 0
    ensures SlotPages(level) == 1 || page % 64 == 0
  {
    if level == 1 {
      FactorDivides(page, 0x1000, 64);
    } else if level == 2 {
      FactorDivides(page, 8, 64);
    }
  }

  /** Every release of the teardown is a tracked range that the free loop handles as written. */
  lemma TeardownTracked(s: Snapshot, total: nat)
    requires Good(s, MapAlloc) && forall p :: p in s.claimed ==> p < total
    ensures AllTracked(PostOrder(s.mem, s.space.root, 0), total)
  {
    hide Tree, OwnsOutputs, Exactly, PostOrder, SlotsFrom;
    var releases := PostOrder(s.mem, s.space.root, 0);
    TeardownExactly(s);
    SlotsAligned(s.mem, s.space.root, 0, 0);
    assert WordAligned(releases) by { RootLast(s.mem, s.space.root); }
    forall k | 0 <= k < |releases|
      ensures Tracked(releases[k], total)
    {
      ExactlyInside(releases, s.space.tables.Keys + s.space.outputs.Keys, k);
      var last := releases[k].page + releases[k].count - 1;
      RunIs(releases[k].page, releases[k].count);
      assert last in Run(releases[k].page, releases[k].count);
    }
  }

  lemma RootLast(mem: Ram, root: nat)
    ensures PostOrder(mem, root, 0) == SlotsFrom(mem, root, 0, 0) + [Release(root, 1)]
  {
    hide SlotsFrom;
  }

  lemma TrackedPart(a: seq<Release>, b: seq<Release>, c: seq<Release>, total: nat)
    requires AllTracked(a + b + c, total)
    ensures AllTracked(b, total)
  {
    forall k | 0 <= k < |b|
      ensures Tracked(b[k], total)
    {
      assert b[k] == (a + b + c)[|a| + k];
    }
  }

  // ---- where the loop as written strays -------------------------------------------------------

  /** A table of the tree above level 3 whose last slot holds a table. */
  ghost predicate FullToTheEnd(mem: Ram, t: Tables, g: nat) {
    && g in t && t[g].level < 3 && g in mem && |mem[g]| == ENTRIES
    && Decode(mem[g][ENTRIES - 1], t[g].level).Table?
  }

  /** The loop as written strays exactly when some table at or below f is linked in slot 511. */
  lemma StraysIff(mem: Ram, root: nat, t: Tables, f: nat)
    requires Tree(mem, root, t) && f in t && t[f].level <= 3
    ensures Strays(mem, f, t[f].level, 0) <==>
            exists g :: g in t && FullToTheEnd(mem, t, g) && t[g].level >= t[f].level && InTable(t[f], t[g].base)
  {
    hide Strays, FullToTheEnd, Tree, InTable;
    if Strays(mem, f, t[f].level, 0) {
      var g := StraysWitness(mem, root, t, f, 0);
    }
    if g :| g in t && FullToTheEnd(mem, t, g) && t[g].level >= t[f].level && InTable(t[f], t[g].base) {
      StraysBecause(mem, root, t, f, g);
    }
  }

  lemma {:induction false} StraysWitness(mem: Ram, root: nat, t: Tables, f: nat, i: nat) returns (g: nat)
    requires Tree(mem, root, t) && f in t && t[f].level <= 3 && Strays(mem, f, t[f].level, i)
    ensures g in t && FullToTheEnd(mem, t, g) && t[g].level >= t[f].level && InTable(t[f], t[g].base)
    decreases 4 - t[f].level, ENTRIES - i
  {
    hide Tree, Decode, TablePages, SlotBase;
    TableOf(mem, root, t, f);
    assert SlotOk(mem[f][i], t, f, i);
    var d := Decode(mem[f][i], t[f].level);
    if d.Table? && t[f].level < 3 && i == ENTRIES - 1 {
      BaseInTable(t[f]);
      g := f;
    } else if d.Table? && t[f].level < 3 && Strays(mem, d.next, t[f].level + 1, 0) {
      g := StraysWitness(mem, root, t, d.next, 0);
      ChildInside(t[f], f, i, t[g].base);
    } else {
      g := StraysWitness(mem, root, t, f, i + 1);
    }
  }

  lemma ChildInside(info: Info, f: nat, i: nat, v: nat)
    requires Placed(info) && i < ENTRIES && info.level < 3 && InTable(ChildInfo(info, f, i), v)
    ensures InTable(info, v)
  {
    ChildPlaced(info, i, ChildInfo(info, f, i));
    PageOfSlot(info, i, v);
  }

  lemma {:induction false} StraysFromSlot(mem: Ram, f: nat, level: nat, i: nat, j: nat)
    requires level < 3 && i <= j < ENTRIES && f in mem && |mem[f]| == ENTRIES && Decode(mem[f][j], level).Table?
    requires j == ENTRIES - 1 || Strays(mem, Decode(mem[f][j], level).next, level + 1, 0)
    ensures Strays(mem, f, level, i)
    decreases j - i
  {
    hide Decode;
    if i < j {
      StraysFromSlot(mem, f, level, i + 1, j);
    }
  }

  lemma {:induction false} StraysBecause(mem: Ram, root: nat, t: Tables, f: nat, g: nat)
    requires Tree(mem, root, t) && f in t && t[f].level <= 3 && g in t
    requires FullToTheEnd(mem, t, g) && t[g].level >= t[f].level && InTable(t[f], t[g].base)
    ensures Strays(mem, f, t[f].level, 0)
    decreases 4 - t[f].level
  {
    hide Tree, Decode, Strays, TablePages, SlotBase;
    TableOf(mem, root, t, f);
    BaseInTable(t[g]);
    if t[g].level == t[f].level {
      UniqueTable(mem, root, t, f, g, t[g].base);
      StraysFromSlot(mem, f, t[f].level, 0, ENTRIES - 1);
    } else {
      var i := SlotOf(t[g].base, t[f].level);
      SlotOfPage(t[f], t[g].base);
      var h := Below(mem, root, t, f, i, g);
      assert SlotOk(mem[f][i], t, f, i);
      ChildPlaced(t[f], i, t[h]);
      StraysBecause(mem, root, t, h, g);
      StraysFromSlot(mem, f, t[f].level, 0, i);
    }
  }

  /** The whole teardown as written goes through exactly when no table of level 1 or 2 has a table in
      its last slot. */
  lemma TeardownStraysIff(mem: Ram, root: nat, t: Tables)
    requires Tree(mem, root, t)
    ensures root in mem && |mem[root]| == ENTRIES
    ensures (exists i :: 0 <= i < ENTRIES && SlotStrays(mem, mem[root][i])) <==>
            exists g :: g in t && t[g].level >= 1 && FullToTheEnd(mem, t, g)
  {
    hide Tree, Decode, Strays, FullToTheEnd;
    RootLevel(mem, root, t);
    TableOf(mem, root, t, root);
    if i :| 0 <= i < ENTRIES && SlotStrays(mem, mem[root][i]) {
      assert SlotOk(mem[root][i], t, root, i);
      var g := StraysWitness(mem, root, t, Decode(mem[root][i], 0).next, 0);
    }
    if g :| g in t && t[g].level >= 1 && FullToTheEnd(mem, t, g) {
      var i := RootStrays(mem, root, t, g);
      assert SlotStrays(mem, mem[root][i]);
    }
  }

  predicate SlotStrays(mem: Ram, w: Word) {
    Decode(w, 0).Table? && Strays(mem, Decode(w, 0).next, 1, 0)
  }

  lemma RootLevel(mem: Ram, root: nat, t: Tables)
    requires Tree(mem, root, t)
    ensures root in t && t[root].level == 0 && t[root].base == 0
  {
  }

  lemma RootStrays(mem: Ram, root: nat, t: Tables, g: nat) returns (i: nat)
    requires Tree(mem, root, t) && g in t && t[g].level >= 1 && FullToTheEnd(mem, t, g)
    ensures root in mem && |mem[root]| == ENTRIES && i < ENTRIES && SlotStrays(mem, mem[root][i])
  {
    hide Tree, Decode, Strays, TablePages, SlotBase;
    RootLevel(mem, root, t);
    TableOf(mem, root, t, root);
    TableOf(mem, root, t, g);
    InRoot(t[root], t[g]);
    i := SlotOf(t[g].base, 0);
    SlotOfPage(t[root], t[g].base);
    var h := Below(mem, root, t, root, i, g);
    assert SlotOk(mem[root][i], t, root, i);
    ChildPlaced(t[root], i, t[h]);
    StraysBecause(mem, root, t, h, g);
  }

  lemma InRoot(root: Info, info: Info)
    requires root.level == 0 && root.base == 0 && Placed(info)
    ensures InTable(root, info.base)
  {
  }

  // ---- the order of the releases ----------------------------------------------------------------

  /** The releases of part stand in the releases of all without a gap. */
  ghost predicate Within(part: seq<Release>, all: seq<Release>) {
    exists before, after :: all == before + part + after
  }

  lemma WithinThen(a: seq<Release>, b: seq<Release>, c: seq<Release>)
    requires Within(a, b) && Within(b, c)
    ensures Within(a, c)
  {
    var x, y :| b == x + a + y;
    var u, v :| c == u + b + v;
    assert c == (u + x) + a + (y + v);
  }

  lemma {:induction false} SlotWithin(mem: Ram, f: nat, level: nat, i: nat, j: nat)
    requires level <= 3 && i <= j < ENTRIES && f in mem && |mem[f]| == ENTRIES
    ensures Within(SlotReleases(mem, mem[f][j], level), SlotsFrom(mem, f, level, i))
    decreases j - i
  {
    hide SlotReleases;
    var part, all, rest := SlotReleases(mem, mem[f][j], level), SlotsFrom(mem, f, level, i), SlotsFrom(mem, f, level, i + 1);
    if i == j {
      assert all == [] + part + rest;
    } else {
      SlotWithin(mem, f, level, i + 1, j);
      assert all == SlotReleases(mem, mem[f][i], level) + rest + [];
      assert Within(rest, all);
      WithinThen(part, rest, all);
    }
  }

  /** The walk of a linked table is part of what its parent releases before it releases itself. */
  lemma ChildFirst(mem: Ram, root: nat, t: Tables, g: nat)
    requires Tree(mem, root, t) && g in t && g != root
    ensures
      var p := t[g].parent;
      && p in t && t[p].level < 3 && t[g].level == t[p].level + 1
      && Within(PostOrder(mem, g, t[g].level), SlotsFrom(mem, p, t[p].level, 0))
      && PostOrder(mem, p, t[p].level) == SlotsFrom(mem, p, t[p].level, 0) + [Release(p, 1)]
  {
    hide Tree, Decode, PostOrder, SlotsFrom;
    BaseInTable(t[g]);
    TableOf(mem, root, t, g);
    var i := ParentCovers(mem, root, t, g, t[g].base);
    SlotWithin(mem, t[g].parent, t[t[g].parent].level, 0, i);
    PostOrderIs(mem, t[g].parent, t[t[g].parent].level);
  }

  lemma PostOrderIs(mem: Ram, f: nat, level: nat)
    requires level <= 3
    ensures PostOrder(mem, f, level) == SlotsFrom(mem, f, level, 0) + [Release(f, 1)]
  {
    hide SlotsFrom;
  }

  lemma {:induction false} WalkWithin(mem: Ram, root: nat, t: Tables, f: nat)
    requires Tree(mem, root, t) && f in t
    ensures Within(PostOrder(mem, f, t[f].level), PostOrder(mem, root, 0))
    decreases t[f].level
  {
    hide PostOrder, SlotsFrom, Decode;
    var all := PostOrder(mem, root, 0);
    if f == root {
      assert all == [] + all + [];
    } else {
      ChildFirst(mem, root, t, f);
      var p := t[f].parent;
      var slots, whole := SlotsFrom(mem, p, t[p].level, 0), PostOrder(mem, p, t[p].level);
      assert whole == [] + slots + [Release(p, 1)];
      assert Within(slots, whole);
      WithinThen(PostOrder(mem, f, t[f].level), slots, whole);
      WalkWithin(mem, root, t, p);
      WithinThen(PostOrder(mem, f, t[f].level), whole, all);
    }
  }

  /** Every table is released after the tables below it: the table that a slot links comes first. */
  lemma TableAfterItsChildren(mem: Ram, root: nat, t: Tables, g: nat)
    requires Tree(mem, root, t) && g in t && g != root
    ensures
      var all := PostOrder(mem, root, 0);
      exists i, j :: 0 <= i < j < |all| && all[i] == Release(g, 1) && all[j] == Release(t[g].parent, 1)
  {
    hide PostOrder, SlotsFrom, Decode;
    var p, all := t[g].parent, PostOrder(mem, root, 0);
    ChildFirst(mem, root, t, g);
    WalkWithin(mem, root, t, p);
    var child, slots, whole := PostOrder(mem, g, t[g].level), SlotsFrom(mem, p, t[p].level, 0), PostOrder(mem, p, t[p].level);
    assert t[g].level <= 3 by { TableOf(mem, root, t, g); }
    PostOrderIs(mem, g, t[g].level);
    var x, y :| slots == x + child + y;
    var u, v :| all == u + whole + v;
    var i, j := |u| + |x| + |child| - 1, |u| + |slots|;
    assert child[|child| - 1] == Release(g, 1);
    assert slots[|x| + |child| - 1] == Release(g, 1);
    assert whole[|x| + |child| - 1] == Release(g, 1) && whole[|slots|] == Release(p, 1);
    assert all[i] == Release(g, 1) && all[j] == Release(p, 1);
  }

  /** Every page and every block is released before the table that maps it. */
  lemma LeafBeforeItsTable(mem: Ram, root: nat, t: Tables, f: nat, i: nat)
    requires Tree(mem, root, t) && f in t && i < ENTRIES && f in mem && |mem[f]| == ENTRIES
    requires Decode(mem[f][i], t[f].level).Leaf?
    ensures
      var all := PostOrder(mem, root, 0);
      exists j, k :: 0 <= j < k < |all| && all[k] == Release(f, 1)
                     && all[j] == Release(Decode(mem[f][i], t[f].level).page, SlotPages(t[f].level))
  {
    hide PostOrder, SlotsFrom, Decode;
    var level, all := t[f].level, PostOrder(mem, root, 0);
    TableOf(mem, root, t, f);
    var leaf, slots := SlotReleases(mem, mem[f][i], level), SlotsFrom(mem, f, level, 0);
    SlotWithin(mem, f, level, 0, i);
    PostOrderIs(mem, f, level);
    WalkWithin(mem, root, t, f);
    var x, y :| slots == x + leaf + y;
    var u, v :| all == u + PostOrder(mem, f, level) + v;
    assert all == u + (slots + [Release(f, 1)]) + v;
    assert all[|u| + |slots|] == Release(f, 1);
    assert slots[|x|] == leaf[0];
    assert all[|u| + |x|] == leaf[0];
  }
}
