/** The process stack: starting a process suspends its parent and gives the child a fresh address space,
    exiting tears that space down and restores the parent. */
module Proc {
  import opened Arithmetic
  import opened Descriptor
  import opened FrameSet
  import opened PageTree
  import opened AddressSpace
  import opened Allocator
  import opened Supply
  import opened Teardown
  import opened FarSplits
  import opened InsertCalls
  import opened MmuFacts
  import opened WrittenFacts
  import opened Mmu
  import opened Memory
  import opened Buffers
  import opened ProcRun

  const ZERO_REGS: seq<int> := seq(KPROC_GENERAL_REGS, i => 0)

  /** struct kproc. */
  datatype KProc = KProc(ctx: Context, suspend: Suspend)

  const KPROC_REGION: Region := Region(MEMORY_TYPE_NORMAL_NO_CACHE, 0, 0x20_0000)

  ghost predicate AllGood(mem: Ram, claimed: set<nat>, spaces: seq<Space>) {
    && (forall i :: 0 <= i < |spaces| ==> Good(Snapshot(mem, claimed, spaces[i]), MapAlloc))
    && (forall i, j :: 0 <= i < j < |spaces| ==> Owned(spaces[i]) !! Owned(spaces[j]))
  }

  ghost function Slots(spaces: seq<Space>, procs: seq<KProc>): seq<Slot>
    requires |spaces| == |procs|
  {
    seq(|procs|, i requires 0 <= i < |procs| => Slot(spaces[i], procs[i].suspend))
  }

  /** Page v of the space is translated as before. */
  ghost predicate SameView(mem: Ram, mem': Ram, space: Space) {
    forall v :: 0 <= v < PAGE_LIMIT ==> Translate(mem', space.root, v) == Translate(mem, space.root, v)
  }

  lemma AllUndisturbed(mem: Ram, claimed: set<nat>, mem': Ram, claimed': set<nat>, spaces: seq<Space>)
    requires AllGood(mem, claimed, spaces)
    requires forall i :: 0 <= i < |spaces| ==> Owned(spaces[i]) <= claimed'
    requires forall i, g :: 0 <= i < |spaces| && g in spaces[i].tables && g in mem ==> g in mem' && mem'[g] == mem[g]
    ensures AllGood(mem', claimed', spaces)
    ensures forall i :: 0 <= i < |spaces| ==> SameView(mem, mem', spaces[i])
  {
    hide Good, Translate;
    forall i | 0 <= i < |spaces|
      ensures Good(Snapshot(mem', claimed', spaces[i]), MapAlloc) && SameView(mem, mem', spaces[i])
    {
      var s, s' := Snapshot(mem, claimed, spaces[i]), Snapshot(mem', claimed', spaces[i]);
      Undisturbed(s, s');
      forall v | 0 <= v < PAGE_LIMIT
        ensures Translate(mem', spaces[i].root, v) == Translate(mem, spaces[i].root, v)
      {
        assert s'.At(v) == s.At(v);
      }
    }
  }

  lemma OwnedClaimed(mem: Ram, claimed: set<nat>, spaces: seq<Space>)
    requires AllGood(mem, claimed, spaces)
    ensures forall i :: 0 <= i < |spaces| ==> Owned(spaces[i]) <= claimed
  {
    hide Tree, OwnsOutputs;
  }

  /** A context is created and a region is mapped in it: the new space owns frames that were free, and
      nothing else changes. */
  method CreateMapped(mmu: Mmu, region: Region, ghost spaces: seq<Space>)
    returns (ok: bool, context: Context, ghost space: Space, ghost empty: Snapshot)
    requires mmu.Valid() && AllGood(mmu.mem, mmu.allocator.Set(), spaces)
    requires region.memoryType < 8 && region.va % PAGE_SIZE == 0 && region.va + region.size <= PAGE_LIMIT * PAGE_SIZE
    modifies mmu`mem, mmu`mapped, mmu.allocator.bitmap
    ensures !ok ==> mmu.OutOfMemory(MapAlloc)
    ensures ok ==>
              && space.root == context.level0Table && MapsOnly(mmu.mem, space.root, region, old(mmu.allocator.Set()))
              && AllGood(mmu.mem, mmu.allocator.Set(), spaces + [space])
              && Owned(space) !! old(mmu.allocator.Set())
              && mmu.allocator.Set() == old(mmu.allocator.Set()) + Owned(space)
              && (forall i :: 0 <= i < |spaces| ==> SameView(old(mmu.mem), mmu.mem, spaces[i]))
              && MappedFrom(empty, mmu.Snap(space), region, old(mmu.allocator.Set()), mmu.allocator.Total())
  {
    hide Claimed, Good, Advance, NoFit, Translate, Supplied, Grows, BlocksWhole, FirstFit;
    ghost var mem0, claimed0 := mmu.mem, mmu.allocator.Set();
    OwnedClaimed(mem0, claimed0, spaces);
    ok, context, space := CreateContext(mmu);
    empty := mmu.Snap(space);
    if !ok {
      return;
    }
    ghost var reached;
    ok, space, reached := MapRegion(mmu, context, region, MapAlloc, space);
    if !ok {
      return;
    }
    ghost var s := mmu.Snap(space);
    OnlyRegion(empty, s, region, claimed0);
    FreshSpace(mem0, claimed0, empty, s, spaces, region.va / PAGE_SIZE,
               region.va / PAGE_SIZE + region.size / PAGE_SIZE, region.memoryType);
  }

  /** From an empty space, with its table in the first free frame, the region was mapped. */
  ghost predicate MappedFrom(empty: Snapshot, s: Snapshot, region: Region, claimed: set<nat>, total: nat) {
    var root, lo, hi := s.space.root, region.va / PAGE_SIZE, region.va / PAGE_SIZE + region.size / PAGE_SIZE;
    && FirstFit(claimed, total, 1, 1, root) && empty.claimed == claimed + {root}
    && Good(empty, MapAlloc) && empty.space == EmptySpace(root)
    && (forall v :: 0 <= v < PAGE_LIMIT ==> empty.At(v) == Unmapped)
    && Advance(empty, s, lo, hi, region.memoryType, MapAlloc)
    && Grows(empty.space.tables, s.space.tables, lo, hi, TableLevel(region.va, region.size))
    && Supplied(empty, s, lo, hi, hi, total, MapAlloc)
  }

  /** The space of a process: its level-0 table, two more tables and its 2 MB are the first fits, one after another,
      and the pages below 2 MB lead to that block as normal memory, all others nowhere. */
  ghost predicate ProcessSpace(mem: Ram, root: nat, claimed: set<nat>, claimed': set<nat>, total: nat) {
    exists a: nat, b: nat, block: nat :: ProcessFrames(mem, root, a, b, block, claimed, claimed', total)
  }

  ghost predicate ProcessFrames(mem: Ram, root: nat, a: nat, b: nat, block: nat, claimed: set<nat>,
      claimed': set<nat>, total: nat) {
    && FirstFit(claimed, total, 1, 1, root)
    && FirstFit(claimed + {root}, total, 1, 1, a)
    && FirstFit(claimed + {root, a}, total, 1, 1, b)
    && FirstFit(claimed + {root, a, b}, total, 512, 512, block)
    && claimed' == claimed + {root, a, b} + Run(block, 512)
    && (forall v :: 0 <= v < 0x10_0000_0000 ==>
          Translate(mem, root, v) == if v < 0x200 then Mapped(block + v, 0) else Unmapped)
  }

  /** The space maps the pages of the region to frames that were free, with its memory type, and nothing
      else. */
  ghost predicate MapsOnly(mem: Ram, root: nat, region: Region, claimed: set<nat>) {
    var lo, hi := region.va / PAGE_SIZE, region.va / PAGE_SIZE + region.size / PAGE_SIZE;
    forall v :: 0 <= v < PAGE_LIMIT ==>
      if lo <= v < hi then
        && Translate(mem, root, v).Mapped? && Translate(mem, root, v).attr == region.memoryType
        && Translate(mem, root, v).page !in claimed
      else Translate(mem, root, v) == Unmapped
  }

  lemma OnlyRegion(empty: Snapshot, s: Snapshot, region: Region, claimed: set<nat>)
    requires forall v :: 0 <= v < PAGE_LIMIT ==> empty.At(v) == Unmapped
    requires claimed <= empty.claimed
    requires
      var lo := region.va / PAGE_SIZE;
      Advance(empty, s, lo, lo + region.size / PAGE_SIZE, region.memoryType, MapAlloc)
    ensures MapsOnly(s.mem, s.space.root, region, claimed)
  {
    hide Good, Accounts, Translate;
    var lo, hi := region.va / PAGE_SIZE, region.va / PAGE_SIZE + region.size / PAGE_SIZE;
    forall v | 0 <= v < PAGE_LIMIT
      ensures
        var m := Translate(s.mem, s.space.root, v);
        if lo <= v < hi then m.Mapped? && m.attr == region.memoryType && m.page !in claimed else m == Unmapped
    {
      assert empty.At(v) == Unmapped;
      assert Remaps(empty.At(v), s.At(v), v, lo <= v < hi, region.memoryType, MapAlloc, empty.claimed);
    }
  }

  lemma FreshSpace(mem0: Ram, claimed0: set<nat>, empty: Snapshot, s: Snapshot, spaces: seq<Space>, lo: nat, hi: nat,
                   memoryType: nat)
    requires AllGood(mem0, claimed0, spaces)
    requires Good(empty, MapAlloc) && empty.claimed == claimed0 + Owned(empty.space)
    requires empty.space == EmptySpace(empty.space.root) && empty.space.root !in claimed0
    requires forall g :: g in mem0 && g != empty.space.root ==> g in empty.mem && empty.mem[g] == mem0[g]
    requires Advance(empty, s, lo, hi, memoryType, MapAlloc)
    ensures s.space.root == empty.space.root
    ensures AllGood(s.mem, s.claimed, spaces + [s.space])
    ensures Owned(s.space) !! claimed0 && s.claimed == claimed0 + Owned(s.space)
    ensures forall i :: 0 <= i < |spaces| ==> SameView(mem0, s.mem, spaces[i])
  {
    hide Good, Translate, RemapsRange, SameView;
    OwnedClaimed(mem0, claimed0, spaces);
    assert Owned(empty.space) == {empty.space.root};
    OwnedGrows(empty, s, lo, hi, memoryType);
    forall i, g | 0 <= i < |spaces| && g in spaces[i].tables && g in mem0
      ensures g in s.mem && s.mem[g] == mem0[g]
    {
      assert g in Owned(spaces[i]);
      assert g !in Owned(s.space);
    }
    AllUndisturbed(mem0, claimed0, s.mem, s.claimed, spaces);
    assert s == Snapshot(s.mem, s.claimed, s.space);
  }

  lemma FullStart(s: State, s': State)
    requires |s.stack| == KPROC_MAX_COUNT && |s.rs| == KPROC_GENERAL_REGS
    requires s' == s.(rs := s.rs[0 := KSTATUS_PROC_STACK_FULL])
    ensures StartStep(s, s')
  {
  }

  /** The slots after the parent was suspended and a child was pushed. */
  lemma StartedSlots(spaces: seq<Space>, spaces': seq<Space>, procs: seq<KProc>, procs': seq<KProc>, sp: nat,
                     elr: nat, rs: seq<int>)
    requires |spaces| == |procs| > 0 && |spaces'| == |procs'| == |procs| + 1
    requires spaces'[..|spaces|] == spaces
    requires procs'[..|procs|] == procs[|procs| - 1 := procs[|procs| - 1].(suspend := Suspend(sp, elr, rs))]
    ensures
      var n, stack, stack' := |procs|, Slots(spaces, procs), Slots(spaces', procs');
      && stack'[..n - 1] == stack[..n - 1]
      && stack'[n - 1] == Slot(stack[n - 1].space, Suspend(sp, elr, rs)) && stack'[n].space == spaces'[n]
  {
    var n := |procs|;
    forall i | 0 <= i < n
      ensures spaces'[i] == spaces[i]
      ensures procs'[i] == procs'[..n][i]
    {
      assert spaces'[i] == spaces'[..n][i];
    }
    assert Slots(spaces', procs')[..n - 1] == Slots(spaces, procs)[..n - 1];
  }

  lemma Started(s: State, s': State)
    requires 0 < |s.stack| < KPROC_MAX_COUNT && |s'.stack| == |s.stack| + 1 && |s.rs| == KPROC_GENERAL_REGS
    requires s'.stack[..|s.stack| - 1] == s.stack[..|s.stack| - 1]
    requires s'.stack[|s.stack| - 1] == Slot(s.stack[|s.stack| - 1].space, Suspend(s.sp, s.elr, s.rs))
    requires var child := s'.stack[|s.stack|].space;
             Owned(child) !! s.claimed && s'.claimed == s.claimed + Owned(child) && s'.ttbr0 == Ttbr(child.root, |s.stack| + 1)
    requires s'.rs == s.rs[0 := KSTATUS_PROC_OK] && s'.sp == KPROC_PROG_OFFSET && s'.elr == KPROC_PROG_OFFSET
    ensures StartStep(s, s')
  {
  }

  /** The program, its stack pointer and its entry point lie in the region of the process. */
  lemma ProgramIsMapped(mem: Ram, root: nat, claimed: set<nat>, claimed': set<nat>, total: nat)
    requires ProcessSpace(mem, root, claimed, claimed', total)
    ensures Translate(mem, root, KPROC_PROG_OFFSET / PAGE_SIZE).Mapped?
  {
    hide Translate, FirstFit;
    var a: nat, b: nat, block: nat :| ProcessFrames(mem, root, a, b, block, claimed, claimed', total);
  }

  // ---- the frames of a process ----------------------------------------------------------------

  /** A frame that was claimed is not claimed again. */
  lemma ClaimedOnce(claimed: set<nat>, total: nat, claims: seq<Claim>, i: nat, j: nat)
    requires FirstFits(claimed, total, claims) && i < j < |claims|
    ensures Run(claims[i].page, claims[i].number) !! Run(claims[j].page, claims[j].number)
  {
    hide Run;
    ClaimedIn(claimed, claims[..j], i);
    FitBounds(ClaimedAfter(claimed, claims[..j]), total, claims[j].number, claims[j].number, claims[j].page);
  }

  lemma {:induction false} ClaimedIn(claimed: set<nat>, claims: seq<Claim>, i: nat)
    requires i < |claims|
    ensures Run(claims[i].page, claims[i].number) <= ClaimedAfter(claimed, claims)
    decreases |claims|
  {
    hide Run;
    if i < |claims| - 1 {
      ClaimedIn(claimed, claims[..|claims| - 1], i);
    }
  }

  lemma {:induction false} ClaimedBy(claimed: set<nat>, claims: seq<Claim>, p: nat) returns (k: nat)
    requires p in ClaimedAfter(claimed, claims) && p !in claimed
    ensures k < |claims| && p in Run(claims[k].page, claims[k].number)
    decreases |claims|
  {
    hide Run;
    if p in Run(claims[|claims| - 1].page, claims[|claims| - 1].number) {
      k := |claims| - 1;
    } else {
      k := ClaimedBy(claimed, claims[..|claims| - 1], p);
    }
  }

  lemma NoLevel3(empty: Snapshot, s: Snapshot, v: nat)
    requires empty.space == EmptySpace(empty.space.root) && Grows(empty.space.tables, s.space.tables, 0, 512, 2)
    ensures !Covered(s.space.tables, v, 3)
  {
    forall g | g in s.space.tables
      ensures s.space.tables[g].level <= 2
    {
    }
  }

  /** In the space of a process a claim is a table of level 1 or 2 that starts at page 0, or its one block. */
  lemma ClaimOfProcess(empty: Snapshot, s: Snapshot, c: Claim)
    requires s.space.root == empty.space.root && Good(s, MapAlloc) && empty.space == EmptySpace(empty.space.root)
    requires RemapsRange(empty, s, 0, 512, 0, MapAlloc) && forall v :: 0 <= v < PAGE_LIMIT ==> empty.At(v) == Unmapped
    requires Grows(empty.space.tables, s.space.tables, 0, 512, 2) && Used(empty, s, c, 0) && c.at < 512
    ensures c.at == 0
    ensures if c.table then c.page in s.space.tables && 1 <= s.space.tables[c.page].level <= 2
      && s.space.tables[c.page].base == 0
            else c.number == 512
  {
    hide Good, Translate;
    if c.table {
      TableAt(s, MapAlloc, c.page);
    } else {
      NoLevel3(empty, s, c.at);
      var v := c.at + 511;
      assert Remaps(empty.At(v), s.At(v), v, 0 <= v < 512, 0, MapAlloc, empty.claimed);
    }
  }

  /** The block of a process hangs in a level-2 table. */
  lemma TablesOfProcess(s: Snapshot)
    requires Good(s, MapAlloc) && s.At(0).Mapped? && s.At(512).Unmapped?
    ensures Covered(s.space.tables, 0, 1) && Covered(s.space.tables, 0, 2)
  {
    hide OwnsOutputs, Decode, Translate;
    var t := s.space.tables;
    if !Covered(t, 0, 2) {
      RootOf(s, 0);
      var g, i := LeafAbove(s, s.space.root, 0, 2);
      TableOf(s.mem, s.space.root, t, g);
      DecodeBounds(s.mem[g][i], t[g].level);
      BlockAt(s, g, i);
      FirstSlot(t[g], i);
      assert false;
    }
    CoveredAbove(s.mem, s.space.root, t, 0, 2, 1);
  }

  lemma FirstSlot(info: Info, i: nat)
    requires Placed(info) && info.level == 1 && i < ENTRIES && InSlot(info, i, 0)
    ensures InSlot(info, i, 512)
  {
  }


  /** A new table is one of the claims. */
  lemma TableClaim(empty: Snapshot, s: Snapshot, claims: seq<Claim>, total: nat, g: nat) returns (j: nat)
    requires Good(s, MapAlloc) && Accounts(empty, s, MapAlloc) && Supplies(empty, s, claims, 0, 512, 512, total, MapAlloc)
    requires g in s.space.tables && g !in empty.space.tables
    ensures j < |claims| && claims[j].table && claims[j].page == g
  {
    hide Tree, Translate, FirstFits, Keeps, Ordered, Backs, OwnsOutputs, Used;
    j := ClaimedBy(empty.claimed, claims, g);
    assert Used(empty, s, claims[j], 0);
    if !claims[j].table {
      UnitFrame(empty, s, claims[j], g);
      assert false;
    }
    TableIsOne(empty, s, claims[j]);
  }

  lemma UnitFrame(empty: Snapshot, s: Snapshot, c: Claim, g: nat)
    requires Good(s, MapAlloc) && Used(empty, s, c, 0) && !c.table && g in Run(c.page, c.number)
    ensures g in s.space.outputs
  {
    hide Tree, Translate;
    var v := c.at + (g - c.page);
    assert s.At(v).page == g;
    assert OutputOf(s.space.outputs, g, v);
  }

  lemma LastIsUnit(claims: seq<Claim>, k: nat)
    requires Ordered(claims) && forall i :: 0 <= i < |claims| ==> claims[i].at == 0
    requires k < |claims| && !claims[k].table
    ensures k == |claims| - 1 && forall i :: 0 <= i < |claims| - 1 ==> claims[i].table
  {
    forall i | 0 <= i < |claims| - 1
      ensures claims[i].table
    {
      assert claims[i].at == 0 && claims[|claims| - 1].at == 0;
    }
  }

  lemma SameLevel(s: Snapshot, f: nat, g: nat)
    requires Good(s, MapAlloc) && f in s.space.tables && g in s.space.tables
    requires s.space.tables[f].level == s.space.tables[g].level && s.space.tables[f].base == s.space.tables[g].base
    ensures f == g
  {
    hide Tree, OwnsOutputs;
    BaseInTable(s.space.tables[f]);
    UniqueTable(s.mem, s.space.root, s.space.tables, f, g, s.space.tables[f].base);
  }

  lemma ThreeClaims(claimed: set<nat>, total: nat, claims: seq<Claim>)
    requires FirstFits(claimed, total, claims) && |claims| == 3
    requires claims[0].number == 1 && claims[1].number == 1 && claims[2].number == 512
    ensures
      var a, b, block := claims[0].page, claims[1].page, claims[2].page;
      && FirstFit(claimed, total, 1, 1, a) && FirstFit(claimed + {a}, total, 1, 1, b)
      && FirstFit(claimed + {a, b}, total, 512, 512, block)
      && ClaimedAfter(claimed, claims) == claimed + {a, b} + Run(block, 512)
  {
    hide FirstFit, Run;
    var a, b := claims[0].page, claims[1].page;
    RunOne(a);
    RunOne(b);
    assert claims[..0] == [] && claims[..1] == [claims[0]] && claims[..2][..1] == claims[..1]
      && claims[..3][..2] == claims[..2];
    assert ClaimedAfter(claimed, claims[..1]) == claimed + {a};
    assert ClaimedAfter(claimed, claims[..2]) == claimed + {a} + {b} == claimed + {a, b};
  }

  /** The claims for a process: two tables and the block. */
  lemma ClaimsOfProcess(empty: Snapshot, s: Snapshot, claims: seq<Claim>, total: nat)
    requires Good(s, MapAlloc) && s.space.root == empty.space.root && empty.space == EmptySpace(empty.space.root)
    requires forall v :: 0 <= v < PAGE_LIMIT ==> empty.At(v) == Unmapped
    requires RemapsRange(empty, s, 0, 512, 0, MapAlloc) && Accounts(empty, s, MapAlloc)
    requires Grows(empty.space.tables, s.space.tables, 0, 512, 2) && Supplies(empty, s, claims, 0, 512, 512, total, MapAlloc)
    ensures |claims| == 3 && claims[0].number == 1 && claims[1].number == 1 && claims[2].number == 512
    ensures !claims[2].table && claims[2].at == 0
  {
    hide Good, Translate, FirstFits, Keeps, Used, Accounts, RemapsRange, Grows, Ordered, Covered, ClaimedAfter;
    forall k | 0 <= k < |claims|
      ensures claims[k].at == 0
      ensures if claims[k].table
              then claims[k].page in s.space.tables && 1 <= s.space.tables[claims[k].page].level <= 2
                   && s.space.tables[claims[k].page].base == 0 && claims[k].number == 1
              else claims[k].number == 512
    {
      ClaimOfProcess(empty, s, claims[k]);
      if claims[k].table {
        TableIsOne(empty, s, claims[k]);
      }
    }
    MappedOfProcess(empty, s);
    assert Backs(claims, 0);
    var k :| 0 <= k < |claims| && !claims[k].table;
    LastIsUnit(claims, k);
    var g1, g2 := NewTables(empty, s);
    var j1 := TableClaim(empty, s, claims, total, g1);
    var j2 := TableClaim(empty, s, claims, total, g2);
    if |claims| > 3 {
      var j := if j1 != 0 && j2 != 0 then 0 else if j1 != 1 && j2 != 1 then 1 else 2;
      var h := claims[j].page;
      SameLevel(s, h, if s.space.tables[h].level == 1 then g1 else g2);
      var i := if s.space.tables[h].level == 1 then j1 else j2;
      RunOne(h);
      ClaimedOnce(empty.claimed, total, claims, if i < j then i else j, if i < j then j else i);
      assert false;
    }
  }

  lemma TableIsOne(empty: Snapshot, s: Snapshot, c: Claim)
    requires Used(empty, s, c, 0) && c.table
    ensures c.number == 1
  {
  }

  lemma MappedOfProcess(empty: Snapshot, s: Snapshot)
    requires forall v :: 0 <= v < PAGE_LIMIT ==> empty.At(v) == Unmapped
    requires RemapsRange(empty, s, 0, 512, 0, MapAlloc)
    ensures forall v :: 0 <= v < PAGE_LIMIT ==>
              if v < 512 then s.At(v).Mapped? && s.At(v).attr == 0 else s.At(v) == Unmapped
  {
    hide Translate;
    forall v | 0 <= v < PAGE_LIMIT
      ensures if v < 512 then s.At(v).Mapped? && s.At(v).attr == 0 else s.At(v) == Unmapped
    {
      assert Remaps(empty.At(v), s.At(v), v, 0 <= v < 512, 0, MapAlloc, empty.claimed);
    }
  }

  lemma NewTables(empty: Snapshot, s: Snapshot) returns (g1: nat, g2: nat)
    requires Good(s, MapAlloc) && empty.space == EmptySpace(empty.space.root)
    requires s.At(0).Mapped? && s.At(512).Unmapped?
    requires Grows(empty.space.tables, s.space.tables, 0, 512, 2)
    ensures g1 in s.space.tables && g1 !in empty.space.tables && s.space.tables[g1].level == 1 && s.space.tables[g1].base == 0
    ensures g2 in s.space.tables && g2 !in empty.space.tables && s.space.tables[g2].level == 2 && s.space.tables[g2].base == 0
  {
    hide Good, Translate;
    var t := s.space.tables;
    TablesOfProcess(s);
    g1 :| g1 in t && t[g1].level == 1 && InTable(t[g1], 0);
    g2 :| g2 in t && t[g2].level == 2 && InTable(t[g2], 0);
  }

  /** The frames of a process, in numbers. */
  lemma SpaceOfProcess(empty: Snapshot, s: Snapshot, claimed: set<nat>, total: nat)
    requires MappedFrom(empty, s, KPROC_REGION, claimed, total)
    ensures ProcessSpace(s.mem, s.space.root, claimed, s.claimed, total)
  {
    hide Good, Translate, FirstFit, FirstFits, Keeps, Ordered, Backs, Run, Grows, RemapsRange, Accounts, ClaimedAfter;
    var claims: seq<Claim> :| Supplies(empty, s, claims, 0, 512, 512, total, MapAlloc);
    ClaimsOfProcess(empty, s, claims, total);
    ThreeClaims(empty.claimed, total, claims);
    MappedOfProcess(empty, s);
    var root, a, b, block := s.space.root, claims[0].page, claims[1].page, claims[2].page;
    assert empty.claimed + {a} == claimed + {root, a} && empty.claimed + {a, b} == claimed + {root, a, b};
    assert Used(empty, s, claims[2], 0);
    forall v | 0 <= v < PAGE_LIMIT
      ensures Translate(s.mem, root, v) == if v < 0x200 then Mapped(block + v, 0) else Unmapped
    {
      assert s.At(v) == if v < 0x200 then Mapped(block + v, 0) else Unmapped;
    }
    hide Used;
    assert ProcessFrames(s.mem, root, a, b, block, claimed, s.claimed, total);
  }

  lemma StaysSame(mem: Ram, spaces: seq<Space>)
    ensures forall i :: 0 <= i < |spaces| ==> SameView(mem, mem, spaces[i])
  {
  }

  lemma DestroyedTop(mem: Ram, claimed: set<nat>, mem': Ram, claimed': set<nat>, spaces: seq<Space>)
    requires |spaces| > 0 && AllGood(mem, claimed, spaces)
    requires claimed' == claimed - Owned(spaces[|spaces| - 1])
    requires forall g :: g in mem && g != spaces[|spaces| - 1].root ==> g in mem' && mem'[g] == mem[g]
    ensures AllGood(mem', claimed', spaces[..|spaces| - 1])
    ensures forall i :: 0 <= i < |spaces| - 1 ==> SameView(mem, mem', spaces[i])
  {
    hide Good, SameView;
    var n := |spaces| - 1;
    var below := spaces[..n];
    OwnedClaimed(mem, claimed, spaces);
    RootOwned(Snapshot(mem, claimed, spaces[n]));
    forall i, g | 0 <= i < |below| && g in below[i].tables && g in mem
      ensures g in mem' && mem'[g] == mem[g]
    {
      assert below[i] == spaces[i] && g in Owned(spaces[i]);
    }
    AllUndisturbed(mem, claimed, mem', claimed', below);
    forall i | 0 <= i < n
      ensures SameView(mem, mem', spaces[i])
    {
      assert spaces[i] == below[i];
    }
  }

  lemma RootOwned(s: Snapshot)
    requires Good(s, MapAlloc)
    ensures s.space.root in Owned(s.space)
  {
  }

  /** The region of a process meets the guards of memory_mmu_insert as written; two tables are claimed before
      its one block. */
  lemma ProcessRegionHarmless(root: nat)
    ensures ByteCountHarmless(KPROC_REGION.va, KPROC_REGION.size)
    ensures SubtablesHarmless(EmptySpace(root).tables, 0, 512)
    ensures PagesInBlocks(KPROC_REGION.va, KPROC_REGION.size) == 512
    ensures InsertSingles(EmptySpace(root).tables, KPROC_REGION.va, KPROC_REGION.size) == 2
  {
    hide GapToBlock, AlignUp;
    InsertGeometry(0, 0);
    assert !HoldsTables(EmptySpace(root).tables, 0, 512);
  }

  /** memory_map_region as written maps the region of a process in its new context unless memory runs out, when
      the bitmap is settled for the two tables; the frames are those of the intended line. */
  lemma ProcessMappedAsWritten(s: Snapshot, s': Snapshot, outcome: Outcome, reached: set<nat>, claimed: set<nat>, total: nat)
    requires Good(s, MapAlloc) && s.space == EmptySpace(s.space.root) && forall v :: 0 <= v < PAGE_LIMIT ==> s.At(v) == Unmapped
    requires FirstFit(claimed, total, 1, 1, s.space.root) && s.claimed == claimed + {s.space.root}
    requires InsertedAsWritten(s, s', outcome, reached, KPROC_REGION.va, KPROC_REGION.size, total,
                               KPROC_REGION.memoryType, MapAlloc)
    requires Settled(s.claimed, total, 2)
    ensures outcome.Complete? || outcome.NoFrame?
    ensures outcome.Complete? ==> Advance(s, s', 0, 512, KPROC_REGION.memoryType, MapAlloc)
    ensures outcome.Complete? ==> ProcessSpace(s'.mem, s.space.root, claimed, s'.claimed, total)
  {
    hide InsertedAsWritten, Settled, InsertSingles, PagesInBlocks, SubtablesHarmless, Advance, InsertMeetsFar;
    hide ByteCountHarmless, Translate, Good, FirstFit, MappedFrom, ProcessSpace;
    ProcessRegionHarmless(s.space.root);
    UnmappedIsNear(s, KPROC_REGION.va, KPROC_REGION.size);
    InsertHarmless(s, s', outcome, reached, KPROC_REGION.va, KPROC_REGION.size, total, KPROC_REGION.memoryType, MapAlloc);
    if outcome.Complete? {
      MappedAsMeant(s, s', reached, claimed, total);
      SpaceOfProcess(s, s', claimed, total);
    }
  }

  lemma MappedAsMeant(s: Snapshot, s': Snapshot, reached: set<nat>, claimed: set<nat>, total: nat)
    requires Good(s, MapAlloc) && s.space == EmptySpace(s.space.root) && forall v :: 0 <= v < PAGE_LIMIT ==> s.At(v) == Unmapped
    requires FirstFit(claimed, total, 1, 1, s.space.root) && s.claimed == claimed + {s.space.root}
    requires InsertedAsWritten(s, s', Complete, reached, KPROC_REGION.va, KPROC_REGION.size, total,
                               KPROC_REGION.memoryType, MapAlloc)
    requires Advance(s, s', 0, 512, KPROC_REGION.memoryType, MapAlloc)
    ensures MappedFrom(s, s', KPROC_REGION, claimed, total) && s'.space.root == s.space.root
  {
    hide Good, Translate, FirstFit, Supplied, Grows, Trips, InsertMeetsFar, InsertedPages, PagesInBlocks, Spends;
    hide InsertSingles, NarrowHarmless, Ready, RemapsRange, RemapsSet;
  }

  lemma UnmappedIsNear(s: Snapshot, va: nat, size: nat)
    requires forall v :: 0 <= v < PAGE_LIMIT ==> s.At(v) == Unmapped
    ensures !InsertMeetsFar(s, va, size)
  {
    hide Translate, InsertMeetsFar;
    assert NoneFar(s, va / PAGE_SIZE);
    NoneMet(s, va, size);
  }

  /** The static state of proc.c and the system registers that it writes. */
  class Processes {
    const mmu: Mmu
    const buffer: array<KProc>
    const stack: Stack
    var spEl0: nat
    var elrEl1: nat
    var ttbr0: Ttbr
    /** The address spaces of the processes on the stack. */
    ghost var spaces: seq<Space>

    ghost predicate Valid()
      reads this, buffer, stack, mmu, mmu.allocator.bitmap
    {
      && mmu.Valid() && buffer.Length == stack.capacity == KPROC_MAX_COUNT
      && |spaces| == stack.len <= KPROC_MAX_COUNT
      && (forall i :: 0 <= i < stack.len ==> buffer[i].ctx.level0Table == spaces[i].root)
      && (forall i :: 0 <= i < KPROC_MAX_COUNT ==> |buffer[i].suspend.generalRegs| == KPROC_GENERAL_REGS)
      && AllGood(mmu.mem, mmu.allocator.Set(), spaces)
    }

    ghost function Abs(rs: seq<int>): State
      requires |spaces| == stack.len <= buffer.Length
      reads this, buffer, stack, mmu.allocator.bitmap
    {
      State(Slots(spaces, buffer[..stack.len]), rs, spEl0, elrEl1, ttbr0, mmu.allocator.Set())
    }

    constructor (mmu: Mmu)
      requires mmu.Valid()
      ensures Valid() && fresh(buffer) && fresh(stack) && this.mmu == mmu && spaces == [] && stack.capacity == 16
    {
      this.mmu := mmu;
      buffer := new KProc[KPROC_MAX_COUNT](i => KProc(Context(0), Suspend(0, 0, ZERO_REGS)));
      stack := new Stack(KPROC_MAX_COUNT);
      spEl0, elrEl1, ttbr0 := 0, 0, Ttbr(0, 0);
      spaces := [];
    }

    /** kproc_mem_switch, as far as ttbr0_el1 goes. */
    method MemSwitch(proc: nat)
      requires proc < buffer.Length
      modifies this`ttbr0
      ensures ttbr0 == Ttbr(buffer[proc].ctx.level0Table, stack.len)
    {
      ttbr0 := Ttbr(buffer[proc].ctx.level0Table, stack.len);
    }

    /** kproc_suspend. */
    method SuspendProc(proc: nat, rs: array<int>)
      requires proc < buffer.Length
      modifies buffer
      ensures buffer[..] == old(buffer[..])[proc := old(buffer[proc]).(suspend := Suspend(spEl0, elrEl1, rs[..]))]
    {
      buffer[proc] := buffer[proc].(suspend := Suspend(spEl0, elrEl1, rs[..]));
    }

    /** kproc_restore. */
    method RestoreProc(proc: nat, rs: array<int>)
      requires proc < buffer.Length && rs as object != buffer && |buffer[proc].suspend.generalRegs| == rs.Length
      modifies this`spEl0, this`elrEl1, rs
      ensures spEl0 == buffer[proc].suspend.sp && elrEl1 == buffer[proc].suspend.elr
      ensures rs[..] == buffer[proc].suspend.generalRegs
    {
      spEl0 := buffer[proc].suspend.sp;
      elrEl1 := buffer[proc].suspend.elr;
      forall i | 0 <= i < rs.Length {
        rs[i] := buffer[proc].suspend.generalRegs[i];
      }
    }

    /** kproc_init: the program is copied to KPROC_PROG_OFFSET in the new space (the copy is not part of
        this model) and runs from there. */
    method InitProc()
      modifies this`spEl0, this`elrEl1
      ensures spEl0 == elrEl1 == KPROC_PROG_OFFSET
    {
      spEl0 := KPROC_PROG_OFFSET;
      elrEl1 := KPROC_PROG_OFFSET;
    }

    /** kproc_alloc. */
    method AllocProc() returns (ok: bool, proc: Option<nat>)
      requires Valid() && buffer as object != mmu.allocator.bitmap
      modifies this`spaces, buffer, stack, mmu`mem, mmu`mapped, mmu.allocator.bitmap
      ensures proc == if old(stack.len) == KPROC_MAX_COUNT then None else Some(old(stack.len))
      ensures proc.None? ==> ok && stack.len == old(stack.len) && unchanged(this, buffer, mmu, mmu.allocator.bitmap)
      ensures !ok ==> mmu.OutOfMemory(MapAlloc)
      ensures ok && proc.Some? ==>
                var n := old(stack.len);
                && Valid() && stack.len == n + 1 && spaces[..n] == old(spaces)
                && buffer[..n] == old(buffer[..n]) && buffer[n].suspend == old(buffer[n].suspend)
                && ProcessSpace(mmu.mem, spaces[n].root, old(mmu.allocator.Set()), mmu.allocator.Set(), mmu.allocator.Total())
                && Owned(spaces[n]) !! old(mmu.allocator.Set())
                && mmu.allocator.Set() == old(mmu.allocator.Set()) + Owned(spaces[n])
                && (forall i :: 0 <= i < n ==> SameView(old(mmu.mem), mmu.mem, spaces[i]))
    {
      hide Good, Claimed, NoFit, SameView, MapsOnly, MappedFrom, ProcessSpace;
      proc := stack.Alloc();
      if proc.None? {
        return true, proc;
      }
      var n := proc.value;
      ghost var claimed0 := mmu.allocator.Set();
      var context;
      ghost var space;
      ghost var empty;
      ok, context, space, empty := CreateMapped(mmu, KPROC_REGION, spaces);
      if !ok {
        return;
      }
      buffer[n] := buffer[n].(ctx := context);
      spaces := spaces + [space];
      SpaceOfProcess(empty, mmu.Snap(space), claimed0, mmu.allocator.Total());
    }

    /** kproc_free: the top of the stack loses its address space and its slot. */
    method FreeProc() returns (proc: Option<nat>)
      requires Valid() && stack.len > 0 && buffer as object != mmu.allocator.bitmap
      modifies this`spaces, stack, mmu`mem, mmu`released, mmu.allocator.bitmap
      ensures proc == if old(stack.len) == 1 then None else Some(old(stack.len) - 2)
      ensures
        var n := old(stack.len) - 1;
        && Valid() && stack.len == n && spaces == old(spaces[..n])
        && mmu.allocator.Set() == old(mmu.allocator.Set()) - old(Owned(spaces[n]))
        && (forall i :: 0 <= i < n ==> SameView(old(mmu.mem), mmu.mem, spaces[i]))
    {
      hide Good, Claimed, SameView;
      var top := stack.Peek();
      ghost var n := stack.len - 1;
      ghost var mem0, claimed0 := mmu.mem, mmu.allocator.Set();
      DestroyContext(mmu, buffer[top.value].ctx, spaces[n]);
      DestroyedTop(mem0, claimed0, mmu.mem, mmu.allocator.Set(), spaces);
      spaces := spaces[..n];
      stack.Free();
      proc := stack.Peek();
    }

    /** kproc_start through kcall_proc_start: the result code goes to x0 of the frame. */
    method Start(rs: array<int>) returns (ok: bool)
      requires Valid() && stack.len > 0 && rs.Length == 32
      requires buffer as object != mmu.allocator.bitmap && rs as object != buffer && rs as object != mmu.allocator.bitmap
      modifies this`spaces, this`spEl0, this`elrEl1, this`ttbr0, rs, buffer, stack, mmu`mem, mmu`mapped, mmu.allocator.bitmap
      ensures !ok ==> mmu.OutOfMemory(MapAlloc)
      ensures ok ==> Valid() && StartStep(old(Abs(rs[..])), Abs(rs[..]))
      ensures ok ==> forall i :: 0 <= i < old(stack.len) ==> SameView(old(mmu.mem), mmu.mem, spaces[i])
      ensures old(stack.len) == 16 ==>
                && ok && rs[..] == old(rs[..])[0 := 0x2_0001 - 0x8000_0000]
                && unchanged(this, buffer, stack, mmu, mmu.allocator.bitmap)
      ensures ok && old(stack.len) < 16 ==>
                var n := old(stack.len);
                && stack.len == n + 1 && spaces[..n] == old(spaces) && rs[..] == old(rs[..])[0 := 0]
                && spEl0 == elrEl1 == 0x8_0000 && ttbr0 == Ttbr(spaces[n].root, n + 1)
                && buffer[n - 1].suspend == Suspend(old(spEl0), old(elrEl1), old(rs[..]))
                && ProcessSpace(mmu.mem, spaces[n].root, old(mmu.allocator.Set()), mmu.allocator.Set(), mmu.allocator.Total())
    {
      hide Good, Claimed, NoFit, SameView, AllGood, Owned, StartStep, ProcessSpace;
      ghost var before, n, procs, was := Abs(rs[..]), stack.len, buffer[..], spaces;
      var full := stack.Full();
      if full {
        rs[0] := KSTATUS_PROC_STACK_FULL;
        StaysSame(mmu.mem, spaces);
        FullStart(before, Abs(rs[..]));
        return true;
      }
      var parent := stack.Peek();
      MemSwitch(parent.value);
      SuspendProc(parent.value, rs);
      ghost var suspended := buffer[..];
      var child;
      ok, child := AllocProc();
      if !ok {
        return;
      }
      MemSwitch(child.value);
      InitProc();
      rs[0] := KSTATUS_PROC_OK;
      assert buffer[..n] == suspended[..n];
      StartedSlots(was, spaces, procs[..n], buffer[..stack.len], before.sp, before.elr, before.rs);
      Started(before, Abs(rs[..]));
    }

    /** kproc_exit through kcall_proc_exit. */
    method Exit(rs: array<int>)
      requires Valid() && stack.len > 0 && rs.Length == 32
      requires buffer as object != mmu.allocator.bitmap && rs as object != buffer && rs as object != mmu.allocator.bitmap
      modifies this`spaces, this`spEl0, this`elrEl1, this`ttbr0, rs, stack, mmu`mem, mmu`released, mmu.allocator.bitmap
      ensures Valid() && ExitStep(old(Abs(rs[..])), Abs(rs[..]))
      ensures forall i :: 0 <= i < stack.len ==> SameView(old(mmu.mem), mmu.mem, spaces[i])
      ensures old(stack.len) == 1 ==>
                && rs[..] == old(rs[..])[0 := 0x2_0002 - 0x8000_0000]
                && unchanged(this, stack, mmu, mmu.allocator.bitmap)
      ensures old(stack.len) > 1 ==>
                var n := old(stack.len);
                var parent := old(buffer[n - 2]);
                && stack.len == n - 1 && spaces == old(spaces)[..n - 1]
                && rs[..] == parent.suspend.generalRegs[0 := 0]
                && spEl0 == parent.suspend.sp && elrEl1 == parent.suspend.elr
                && ttbr0 == Ttbr(parent.ctx.level0Table, n - 1)
    {
      hide Good, Claimed, SameView, AllGood, Owned;
      if stack.len == 1 {
        rs[0] := KSTATUS_PROC_LAST;
        StaysSame(mmu.mem, spaces);
        return;
      }
      var parent := FreeProc();
      MemSwitch(parent.value);
      RestoreProc(parent.value, rs);
      rs[0] := 0;
    }

    /** kproc_exec up to the return to the new process: the first process of the boot. */
    method Exec() returns (ok: bool)
      requires Valid() && stack.len < 16 && buffer as object != mmu.allocator.bitmap
      modifies this`spaces, this`spEl0, this`elrEl1, this`ttbr0, buffer, stack, mmu`mem, mmu`mapped, mmu.allocator.bitmap
      ensures !ok ==> mmu.OutOfMemory(MapAlloc)
      ensures ok ==>
                var n := old(stack.len);
                && Valid() && stack.len == n + 1 && spaces[..n] == old(spaces)
                && Owned(spaces[n]) !! old(mmu.allocator.Set())
                && mmu.allocator.Set() == old(mmu.allocator.Set()) + Owned(spaces[n])
                && spEl0 == elrEl1 == 0x8_0000 && ttbr0 == Ttbr(spaces[n].root, n + 1)
                && buffer[..n] == old(buffer[..n]) && (forall i :: 0 <= i < n ==> SameView(old(mmu.mem), mmu.mem, spaces[i]))
                && ProcessSpace(mmu.mem, spaces[n].root, old(mmu.allocator.Set()), mmu.allocator.Set(), mmu.allocator.Total())
                && Translate(mmu.mem, spaces[n].root, 0x8_0000 / 0x1000).Mapped?
    {
      hide Good, Claimed, NoFit, SameView, AllGood, Owned, ProcessSpace, Translate;
      var proc;
      ok, proc := AllocProc();
      if !ok {
        return;
      }
      MemSwitch(proc.value);
      InitProc();
      ProgramIsMapped(mmu.mem, spaces[old(stack.len)].root, old(mmu.allocator.Set()), mmu.allocator.Set(),
        mmu.allocator.Total());
    }
  }
}
