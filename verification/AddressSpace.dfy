/** An address space over time: the tables and output frames it owns and what one step may change. */
module AddressSpace {
  import opened Descriptor
  import opened FrameSet
  import opened PageTree

  /** enum memory_map_type: which callback supplies the physical space of a new mapping. */
  datatype MapType = MapAlloc | MapOneToOne

  /** outputs gives for every physical page that is mapped in MapAlloc mode the virtual page that it
      backs; a space with one-to-one mappings does not own its outputs and leaves this map alone. */
  datatype Space = Space(root: nat, tables: Tables, outputs: map<nat, nat>)

  datatype Snapshot = Snapshot(mem: Ram, claimed: set<nat>, space: Space)
  {
    function At(v: nat): Mapping {
      Translate(mem, space.root, v)
    }
  }

  /** Every mapped virtual page has its own physical page, and outputs is the inverse map. */
  ghost predicate OwnsOutputs(s: Snapshot) {
    && (forall v :: 0 <= v < PAGE_LIMIT && s.At(v).Mapped? ==> OutputOf(s.space.outputs, s.At(v).page, v))
    && (forall p :: p in s.space.outputs ==> BackedBy(s, p, s.space.outputs[p]))
  }

  predicate OutputOf(outputs: map<nat, nat>, p: nat, v: nat) {
    p in outputs && outputs[p] == v
  }

  predicate BackedBy(s: Snapshot, p: nat, v: nat) {
    v < PAGE_LIMIT && s.At(v).Mapped? && s.At(v).page == p
  }

  /** The invariant of an address space: a well-formed tree of claimed frames; in MapAlloc mode the
      outputs are claimed too, belong to one virtual page each and are not tables. */
  ghost predicate Good(s: Snapshot, mode: MapType) {
    && Tree(s.mem, s.space.root, s.space.tables)
    && s.space.tables.Keys <= s.claimed
    && (mode.MapAlloc? ==>
          && OwnsOutputs(s)
          && s.space.outputs.Keys <= s.claimed
          && s.space.outputs.Keys !! s.space.tables.Keys)
  }

  /** What mapping [lo, hi) with a memory type does to the translation of page v. */
  predicate Remaps(before: Mapping, after: Mapping, v: nat, inside: bool, memoryType: nat, mode: MapType, claimed: set<nat>) {
    if !inside then after == before
    else
      && after.Mapped? && after.attr == memoryType
      && (match before
          case Mapped(page, _) => after.page == page
          case Unmapped => if mode.MapOneToOne? then after.page == v else after.page !in claimed)
  }

  ghost predicate RemapsRange(s: Snapshot, s': Snapshot, lo: nat, hi: nat, memoryType: nat, mode: MapType) {
    forall v :: 0 <= v < PAGE_LIMIT ==>
      Remaps(s.At(v), s'.At(v), v, lo <= v < hi, memoryType, mode, s.claimed)
  }

  ghost predicate Extends<K(!new), V>(m: map<K, V>, m': map<K, V>) {
    forall k :: k in m ==> k in m' && m'[k] == m[k]
  }

  /** From s to s' the pages [lo, hi) were mapped with the memory type: everything else is translated
      as before, the frames claimed on the way are exactly the new tables and the new outputs, and
      memory outside the tables of this space is as it was. */
  ghost predicate Advance(s: Snapshot, s': Snapshot, lo: nat, hi: nat, memoryType: nat, mode: MapType) {
    && s'.space.root == s.space.root
    && Good(s', mode)
    && RemapsRange(s, s', lo, hi, memoryType, mode)
    && Accounts(s, s', mode)
    && (forall f :: f in s.mem && f !in s'.space.tables ==> f in s'.mem && s'.mem[f] == s.mem[f])
  }

  ghost predicate Accounts(s: Snapshot, s': Snapshot, mode: MapType) {
    && Extends(s.space.tables, s'.space.tables)
    && Extends(s.space.outputs, s'.space.outputs)
    && (mode.MapOneToOne? ==> s'.space.outputs == s.space.outputs)
    && s'.claimed == s.claimed + (s'.space.tables.Keys - s.space.tables.Keys) + (s'.space.outputs.Keys - s.space.outputs.Keys)
    && (s'.space.tables.Keys - s.space.tables.Keys) !! s.claimed
    && (s'.space.outputs.Keys - s.space.outputs.Keys) !! s.claimed
  }

  lemma AdvanceNone(s: Snapshot, v: nat, memoryType: nat, mode: MapType)
    requires Good(s, mode)
    ensures Advance(s, s, v, v, memoryType, mode)
  {
  }

  lemma TableAt(s: Snapshot, mode: MapType, f: nat)
    requires Good(s, mode) && f in s.space.tables
    ensures Placed(s.space.tables[f]) && s.space.tables[f].level <= 3
    ensures f in s.mem && |s.mem[f]| == ENTRIES && f < PAGE_LIMIT && f in s.claimed
    ensures forall i :: 0 <= i < ENTRIES ==> SlotOk(s.mem[f][i], s.space.tables, f, i)
  {
    hide Tree;
    TableOf(s.mem, s.space.root, s.space.tables, f);
  }

  /** A step that maps nothing counts as an empty range anywhere. */
  lemma AdvanceAnywhere(s: Snapshot, s': Snapshot, u: nat, v: nat, memoryType: nat, memoryType': nat, mode: MapType)
    requires Advance(s, s', u, u, memoryType, mode)
    ensures Advance(s, s', v, v, memoryType', mode)
  {
    hide Good, Accounts;
    forall p | 0 <= p < PAGE_LIMIT
      ensures Remaps(s.At(p), s'.At(p), p, v <= p < v, memoryType', mode, s.claimed)
    {
      assert Remaps(s.At(p), s'.At(p), p, u <= p < u, memoryType, mode, s.claimed);
    }
  }

  /** Adjacent ranges compose. */
  lemma AdvanceThen(a: Snapshot, b: Snapshot, c: Snapshot, lo: nat, mid: nat, hi: nat, memoryType: nat, mode: MapType)
    requires lo <= mid <= hi
    requires Advance(a, b, lo, mid, memoryType, mode) && Advance(b, c, mid, hi, memoryType, mode)
    ensures Advance(a, c, lo, hi, memoryType, mode)
  {
    hide Good;
    AccountsThen(a, b, c, mode);
    forall v | 0 <= v < PAGE_LIMIT
      ensures Remaps(a.At(v), c.At(v), v, lo <= v < hi, memoryType, mode, a.claimed)
    {
      assert Remaps(a.At(v), b.At(v), v, lo <= v < mid, memoryType, mode, a.claimed);
      assert Remaps(b.At(v), c.At(v), v, mid <= v < hi, memoryType, mode, b.claimed);
    }
  }

  lemma AccountsThen(a: Snapshot, b: Snapshot, c: Snapshot, mode: MapType)
    requires Accounts(a, b, mode) && Accounts(b, c, mode)
    ensures Accounts(a, c, mode) && b.claimed <= c.claimed && a.claimed <= b.claimed
  {
  }

  // ---- which tables are new -----------------------------------------------------------------

  /** Every table that t' has and t has not lies at the given level or above it and translates a page of
      [lo, hi); for an empty range there is none. */
  ghost predicate Grows(t: Tables, t': Tables, lo: nat, hi: nat, level: nat) {
    Extends(t, t') && forall g :: g in t' && g !in t ==> 1 <= t'[g].level <= level && Overlaps(t'[g], lo, hi)
  }

  predicate Overlaps(info: Info, lo: nat, hi: nat) {
    lo < hi && info.base < hi && lo < info.base + TablePages(info.level)
  }

  lemma GrowsNone(t: Tables, lo: nat, hi: nat, level: nat)
    ensures Grows(t, t, lo, hi, level)
  {
  }

  /** A table above a page of [lo, hi) was added. */
  lemma GrowsOne(t: Tables, t': Tables, g: nat, v: nat, lo: nat, hi: nat, level: nat)
    requires g !in t && g in t' && t' == t[g := t'[g]] && 1 <= t'[g].level <= level && InTable(t'[g], v) && lo <= v < hi
    ensures Grows(t, t', lo, hi, level)
  {
    hide TablePages;
  }

  lemma GrowsThen(a: Tables, b: Tables, c: Tables, lo: nat, hi: nat, lo': nat, hi': nat, level: nat, level': nat)
    requires Grows(a, b, lo, hi, level) && Grows(b, c, lo', hi', level')
    requires lo <= lo' && hi' <= hi && level' <= level
    ensures Grows(a, c, lo, hi, level)
  {
    hide TablePages;
  }

  /** A table of the level translates page v. */
  ghost predicate Covered(t: Tables, v: nat, level: nat) {
    exists g :: g in t && t[g].level == level && InTable(t[g], v)
  }

  lemma CoveredStays(t: Tables, t': Tables, v: nat, level: nat)
    requires Extends(t, t') && Covered(t, v, level)
    ensures Covered(t', v, level)
  {
    hide InTable;
    var g :| g in t && t[g].level == level && InTable(t[g], v);
    assert g in t' && t'[g].level == level && InTable(t'[g], v);
  }

  lemma CoveredBy(t: Tables, f: nat, v: nat)
    requires f in t && InTable(t[f], v)
    ensures Covered(t, v, t[f].level)
  {
  }

  // ---- steps that skip pages ----------------------------------------------------------------

  ghost predicate RemapsSet(s: Snapshot, s': Snapshot, pages: set<nat>, memoryType: nat, mode: MapType) {
    forall v :: 0 <= v < PAGE_LIMIT ==> Remaps(s.At(v), s'.At(v), v, v in pages, memoryType, mode, s.claimed)
  }

  /** Advance for any set of pages. */
  ghost predicate AdvanceIn(s: Snapshot, s': Snapshot, pages: set<nat>, memoryType: nat, mode: MapType) {
    && s'.space.root == s.space.root
    && Good(s', mode)
    && RemapsSet(s, s', pages, memoryType, mode)
    && Accounts(s, s', mode)
    && (forall f :: f in s.mem && f !in s'.space.tables ==> f in s'.mem && s'.mem[f] == s.mem[f])
  }

  lemma AdvanceInRange(s: Snapshot, s': Snapshot, lo: nat, hi: nat, pages: set<nat>, memoryType: nat, mode: MapType)
    requires forall v :: 0 <= v < PAGE_LIMIT ==> (v in pages <==> lo <= v < hi)
    ensures AdvanceIn(s, s', pages, memoryType, mode) <==> Advance(s, s', lo, hi, memoryType, mode)
  {
    hide Good, Accounts, Remaps;
    if AdvanceIn(s, s', pages, memoryType, mode) {
      forall v | 0 <= v < PAGE_LIMIT
        ensures Remaps(s.At(v), s'.At(v), v, lo <= v < hi, memoryType, mode, s.claimed)
      {
        assert Remaps(s.At(v), s'.At(v), v, v in pages, memoryType, mode, s.claimed);
      }
    }
    if Advance(s, s', lo, hi, memoryType, mode) {
      forall v | 0 <= v < PAGE_LIMIT
        ensures Remaps(s.At(v), s'.At(v), v, v in pages, memoryType, mode, s.claimed)
      {
        assert Remaps(s.At(v), s'.At(v), v, lo <= v < hi, memoryType, mode, s.claimed);
      }
    }
  }

  lemma AdvanceInThen(a: Snapshot, b: Snapshot, c: Snapshot, x: set<nat>, y: set<nat>, memoryType: nat, mode: MapType)
    requires AdvanceIn(a, b, x, memoryType, mode) && AdvanceIn(b, c, y, memoryType, mode)
    ensures AdvanceIn(a, c, x + y, memoryType, mode)
  {
    hide Good;
    AccountsThen(a, b, c, mode);
    forall v | 0 <= v < PAGE_LIMIT
      ensures Remaps(a.At(v), c.At(v), v, v in x + y, memoryType, mode, a.claimed)
    {
      assert Remaps(a.At(v), b.At(v), v, v in x, memoryType, mode, a.claimed);
      assert Remaps(b.At(v), c.At(v), v, v in y, memoryType, mode, b.claimed);
    }
  }

  /** Skipping pages of a range does no harm exactly when they are mapped with the type already. */
  lemma SkippingIff(s: Snapshot, s': Snapshot, pages: set<nat>, lo: nat, hi: nat, memoryType: nat, mode: MapType)
    requires AdvanceIn(s, s', pages, memoryType, mode) && hi <= PAGE_LIMIT
    requires forall v :: v in pages ==> lo <= v < hi
    ensures Advance(s, s', lo, hi, memoryType, mode) <==>
            forall v :: lo <= v < hi && v !in pages ==> s.At(v).Mapped? && s.At(v).attr == memoryType
  {
    hide Good, Accounts;
    forall v | 0 <= v < PAGE_LIMIT
      ensures Remaps(s.At(v), s'.At(v), v, lo <= v < hi, memoryType, mode, s.claimed) <==>
              (lo <= v < hi && v !in pages ==> s.At(v).Mapped? && s.At(v).attr == memoryType)
    {
      assert Remaps(s.At(v), s'.At(v), v, v in pages, memoryType, mode, s.claimed);
      SkippedPage(s.At(v), s'.At(v), v, v in pages, lo <= v < hi, memoryType, mode, s.claimed);
    }
    hide Remaps;
    if Advance(s, s', lo, hi, memoryType, mode) {
      forall v | lo <= v < hi && v !in pages
        ensures s.At(v).Mapped? && s.At(v).attr == memoryType
      {
        assert Remaps(s.At(v), s'.At(v), v, lo <= v < hi, memoryType, mode, s.claimed);
      }
    }
  }

  lemma SkippedPage(before: Mapping, after: Mapping, v: nat, done: bool, inside: bool,
                     memoryType: nat, mode: MapType, claimed: set<nat>)
    requires Remaps(before, after, v, done, memoryType, mode, claimed) && (done ==> inside)
    ensures Remaps(before, after, v, inside, memoryType, mode, claimed) <==>
            (inside && !done ==> before.Mapped? && before.attr == memoryType)
  {
  }

  // ---- other spaces -----------------------------------------------------------------------

  lemma {:induction false} WalkSame(s: Snapshot, mem': Ram, f: nat, v: nat)
    requires Tree(s.mem, s.space.root, s.space.tables) && f in s.space.tables && InTable(s.space.tables[f], v)
    requires forall g :: g in s.space.tables ==> g in mem' && g in s.mem && mem'[g] == s.mem[g]
    ensures Walk(mem', f, s.space.tables[f].level, v) == Walk(s.mem, f, s.space.tables[f].level, v)
    decreases 4 - s.space.tables[f].level
  {
    hide Decode, TablePages, SlotBase, SlotOf, SlotPages;
    var info := s.space.tables[f];
    TableOf(s.mem, s.space.root, s.space.tables, f);
    var i := SlotOf(v, info.level);
    SlotOfPage(info, v);
    assert SlotOk(s.mem[f][i], s.space.tables, f, i);
    var d := Decode(s.mem[f][i], info.level);
    if d.Table? {
      ChildPlaced(info, i, s.space.tables[d.next]);
      WalkSame(s, mem', d.next, v);
    }
  }

  /** A space does not notice what happens to memory and to the bitmap outside its own frames. */
  lemma Undisturbed(s: Snapshot, s': Snapshot)
    requires Good(s, MapAlloc) && s'.space == s.space
    requires s.space.tables.Keys + s.space.outputs.Keys <= s'.claimed
    requires forall g :: g in s.space.tables && g in s.mem ==> g in s'.mem && s'.mem[g] == s.mem[g]
    ensures Good(s', MapAlloc)
    ensures forall v :: 0 <= v < PAGE_LIMIT ==> s'.At(v) == s.At(v)
  {
    var t := s.space.tables;
    forall g | g in t
      ensures g in s.mem && g in s'.mem && s'.mem[g] == s.mem[g]
    {
      TableOf(s.mem, s.space.root, t, g);
    }
    forall v | 0 <= v < PAGE_LIMIT
      ensures s'.At(v) == s.At(v)
    {
      WalkSame(s, s'.mem, s.space.root, v);
    }
    SameTree(s, s'.mem);
    SamePages(s, s');
  }

  lemma SameTree(s: Snapshot, mem': Ram)
    requires Tree(s.mem, s.space.root, s.space.tables)
    requires forall g :: g in s.space.tables ==> g in mem' && g in s.mem && mem'[g] == s.mem[g]
    ensures Tree(mem', s.space.root, s.space.tables)
  {
    hide Decode;
    var t := s.space.tables;
    forall g | g in t
      ensures TableOk(mem', t, g)
    {
      assert TableOk(s.mem, t, g);
    }
    forall g | g in t && g != s.space.root
      ensures Linked(mem', t, g)
    {
      assert Linked(s.mem, t, g);
    }
  }

  // ---- single steps -----------------------------------------------------------------------

  /** A leaf that has the memory type already is as good as a rewritten one. */
  lemma KeepStep(s: Snapshot, f: nat, i: nat, memoryType: nat, mode: MapType)
    requires Good(s, mode) && f in s.space.tables && i < ENTRIES
    requires f in s.mem && |s.mem[f]| == ENTRIES
    requires Decode(s.mem[f][i], s.space.tables[f].level).Leaf? && MemoryType(s.mem[f][i]) == memoryType
    ensures
      var lo := SlotBase(s.space.tables[f].base, s.space.tables[f].level, i);
      Advance(s, s, lo, lo + SlotPages(s.space.tables[f].level), memoryType, mode)
  {
    hide Tree, OwnsOutputs, SlotBase, SlotPages;
    LeafAttr(s.mem[f][i], s.space.tables[f].level);
    forall v | 0 <= v < PAGE_LIMIT && InSlot(s.space.tables[f], i, v)
      ensures s.At(v).Mapped? && s.At(v).attr == memoryType
    {
      hide Decode;
      TranslateInSlot(s.mem, s.space.root, s.space.tables, f, i, v);
    }
  }

  lemma LeafAttr(w: Word, level: nat)
    ensures Decode(w, level).Leaf? ==> Decode(w, level).attr == MemoryType(w)
  {
  }

  /** The same physical page, or none, for every virtual page: the outputs stay as they are. */
  lemma SamePages(s: Snapshot, s': Snapshot)
    requires s'.space.outputs == s.space.outputs && OwnsOutputs(s)
    requires forall v :: 0 <= v < PAGE_LIMIT ==>
               s.At(v).Mapped? == s'.At(v).Mapped? && (s.At(v).Mapped? ==> s'.At(v).page == s.At(v).page)
    ensures OwnsOutputs(s')
  {
  }

  /** The leaf in slot (f, i) gets the memory type and keeps its pages. */
  lemma OverrideInSlot(s: Snapshot, s': Snapshot, f: nat, i: nat, memoryType: nat)
    requires Tree(s.mem, s.space.root, s.space.tables) && f in s.space.tables && i < ENTRIES && memoryType < 8
    requires f in s.mem && |s.mem[f]| == ENTRIES && Decode(s.mem[f][i], s.space.tables[f].level).Leaf?
    requires s' == s.(mem := WriteWord(s.mem, f, i, OverrideWord(s.mem[f][i], memoryType)))
    ensures Tree(s'.mem, s.space.root, s.space.tables)
    ensures forall v :: 0 <= v < PAGE_LIMIT && !InSlot(s.space.tables[f], i, v) ==> s'.At(v) == s.At(v)
    ensures forall v :: 0 <= v < PAGE_LIMIT && InSlot(s.space.tables[f], i, v) ==>
              s.At(v).Mapped? && s'.At(v) == Mapped(s.At(v).page, memoryType)
  {
    hide Decode, OverrideWord, Tree;
    var info, w := s.space.tables[f], s.mem[f][i];
    var w' := OverrideWord(w, memoryType);
    OverrideKeepsAddress(w, info.level, memoryType);
    WriteLeaf(s.mem, s.space.root, s.space.tables, f, i, w');
    forall v | 0 <= v < PAGE_LIMIT && InSlot(info, i, v)
      ensures s.At(v).Mapped? && s'.At(v) == Mapped(s.At(v).page, memoryType)
    {
      TranslateInSlot(s.mem, s.space.root, s.space.tables, f, i, v);
    }
  }

  /** mmu_override_memory_type on the leaf in slot (f, i). */
  lemma OverrideStep(s: Snapshot, f: nat, i: nat, memoryType: nat, mode: MapType)
    requires Good(s, mode) && f in s.space.tables && i < ENTRIES && memoryType < 8
    requires f in s.mem && |s.mem[f]| == ENTRIES && Decode(s.mem[f][i], s.space.tables[f].level).Leaf?
    ensures
      var lo := SlotBase(s.space.tables[f].base, s.space.tables[f].level, i);
      var s' := s.(mem := WriteWord(s.mem, f, i, OverrideWord(s.mem[f][i], memoryType)));
      Advance(s, s', lo, lo + SlotPages(s.space.tables[f].level), memoryType, mode)
  {
    hide Decode, OverrideWord, Tree, OwnsOutputs, SlotBase, SlotPages;
    var s' := s.(mem := WriteWord(s.mem, f, i, OverrideWord(s.mem[f][i], memoryType)));
    OverrideInSlot(s, s', f, i, memoryType);
    if mode.MapAlloc? {
      SamePages(s, s');
    }
  }

  /** A run of pages from page on backs the slot that starts at lo, which was unmapped. */
  lemma NewPages(s: Snapshot, s': Snapshot, lo: nat, number: nat, page: nat)
    requires OwnsOutputs(s) && lo + number <= PAGE_LIMIT && Run(page, number) !! s.space.outputs.Keys
    requires s'.space.outputs == s.space.outputs + Backing(page, number, lo)
    requires forall v :: 0 <= v < PAGE_LIMIT && !(lo <= v < lo + number) ==> s'.At(v) == s.At(v)
    requires forall v :: 0 <= v < PAGE_LIMIT && lo <= v < lo + number ==>
               s.At(v).Unmapped? && s'.At(v).Mapped? && s'.At(v).page == page + (v - lo)
    ensures OwnsOutputs(s')
  {
    var outputs := s'.space.outputs;
    BackingAt(s.space.outputs, page, number, lo);
    hide Run, Backing, Translate;
    forall v | 0 <= v < PAGE_LIMIT && s'.At(v).Mapped?
      ensures OutputOf(outputs, s'.At(v).page, v)
    {
      if !(lo <= v < lo + number) {
        assert OutputOf(s.space.outputs, s.At(v).page, v);
      }
    }
    forall p | p in outputs
      ensures BackedBy(s', p, outputs[p])
    {
      if !(page <= p < page + number) {
        assert BackedBy(s, p, s.space.outputs[p]);
      } else {
        assert outputs[p] == lo + (p - page);
      }
    }
  }

  lemma BackingAt(outputs: map<nat, nat>, page: nat, number: nat, lo: nat)
    requires Run(page, number) !! outputs.Keys
    ensures
      var outputs' := outputs + Backing(page, number, lo);
      forall p :: (p in outputs' <==> p in outputs || page <= p < page + number)
                  && (p in outputs' ==> outputs'[p] == if page <= p < page + number then lo + (p - page) else outputs[p])
  {
    RunPages(page, number);
  }

  function Backing(page: nat, number: nat, lo: nat): (m: map<nat, nat>)
    ensures m.Keys == Run(page, number)
  {
    map p: nat | p in Run(page, number) :: if p >= page then lo + (p - page) else 0
  }

  /** The word that create_memory_entry writes for a slot of the given level. */
  function LeafWord(level: nat, address: Word, memoryType: nat): Word {
    if level == 3 then PageWord(address, memoryType) else BlockWord(level, address, memoryType)
  }

  lemma LeafRoundTrip(level: nat, page: nat, memoryType: nat)
    requires 1 <= level <= 3
    requires page < PAGE_LIMIT && page % SlotPages(level) == 0 && memoryType < 8
    ensures Decode(LeafWord(level, page * PAGE_SIZE, memoryType), level) == Leaf(page, memoryType)
  {
    hide Decode, PageWord, BlockWord;
    if level == 3 {
      PageRoundTrip(page, memoryType);
    } else {
      BlockRoundTrip(level, page, memoryType);
    }
  }

  /** The empty slot (f, i) gets a leaf for the run of pages from page on. */
  lemma CreateInSlot(s: Snapshot, s': Snapshot, f: nat, i: nat, page: nat, memoryType: nat)
    requires Tree(s.mem, s.space.root, s.space.tables) && f in s.space.tables && i < ENTRIES && memoryType < 8
    requires f in s.mem && |s.mem[f]| == ENTRIES && s.mem[f][i] == MMU_EMPTY_ENTRY && s.space.tables[f].level >= 1
    requires page < PAGE_LIMIT && page % SlotPages(s.space.tables[f].level) == 0
    requires s'.space.root == s.space.root
    requires s'.mem == WriteWord(s.mem, f, i, LeafWord(s.space.tables[f].level, page * PAGE_SIZE, memoryType))
    ensures Tree(s'.mem, s.space.root, s.space.tables)
    ensures forall v :: 0 <= v < PAGE_LIMIT && !InSlot(s.space.tables[f], i, v) ==> s'.At(v) == s.At(v)
    ensures forall v :: 0 <= v < PAGE_LIMIT && InSlot(s.space.tables[f], i, v) ==>
              && s.At(v).Unmapped?
              && s'.At(v) == Mapped(page + (v - SlotBase(s.space.tables[f].base, s.space.tables[f].level, i)), memoryType)
  {
    hide LeafWord, Tree, SlotBase, SlotPages;
    var info := s.space.tables[f];
    TableOf(s.mem, s.space.root, s.space.tables, f);
    var w := LeafWord(info.level, page * PAGE_SIZE, memoryType);
    LeafRoundTrip(info.level, page, memoryType);
    EmptyIsInvalid(info.level);
    WriteLeaf(s.mem, s.space.root, s.space.tables, f, i, w);
    forall v | 0 <= v < PAGE_LIMIT && InSlot(info, i, v)
      ensures s.At(v).Unmapped?
    {
      TranslateInSlot(s.mem, s.space.root, s.space.tables, f, i, v);
    }
  }

  /** create_memory_entry on the empty slot (f, i) with the physical space that the callback gave: a
      freshly claimed run in MapAlloc mode, the slot's own pages in MapOneToOne mode. */
  lemma CreateStep(s: Snapshot, s': Snapshot, f: nat, i: nat, page: nat, memoryType: nat, mode: MapType)
    requires Good(s, mode) && f in s.space.tables && i < ENTRIES && memoryType < 8
    requires f in s.mem && |s.mem[f]| == ENTRIES && s.mem[f][i] == MMU_EMPTY_ENTRY && s.space.tables[f].level >= 1
    requires page < PAGE_LIMIT && page % SlotPages(s.space.tables[f].level) == 0
    requires s'.mem == WriteWord(s.mem, f, i, LeafWord(s.space.tables[f].level, page * PAGE_SIZE, memoryType))
    requires
      var info := s.space.tables[f];
      var lo, number := SlotBase(info.base, info.level, i), SlotPages(info.level);
      if mode.MapOneToOne?
      then page == lo && s'.claimed == s.claimed && s'.space == s.space
      else
        && Run(page, number) !! s.claimed
        && s'.claimed == s.claimed + Run(page, number)
        && s'.space == s.space.(outputs := s.space.outputs + Backing(page, number, lo))
    ensures
      var lo := SlotBase(s.space.tables[f].base, s.space.tables[f].level, i);
      Advance(s, s', lo, lo + SlotPages(s.space.tables[f].level), memoryType, mode)
    ensures
      var lo := SlotBase(s.space.tables[f].base, s.space.tables[f].level, i);
      forall v :: lo <= v < lo + SlotPages(s.space.tables[f].level) ==>
        s.At(v).Unmapped? && s'.At(v).Mapped? && s'.At(v).page == page + (v - lo)
  {
    hide LeafWord, Tree, OwnsOutputs, SlotPages, Run, Backing;
    var info := s.space.tables[f];
    var lo, number := SlotBase(info.base, info.level, i), SlotPages(info.level);
    CreateInSlot(s, s', f, i, page, memoryType);
    TableOf(s.mem, s.space.root, s.space.tables, f);
    SlotInLimit(info, i);
    if mode.MapAlloc? {
      NewPages(s, s', lo, number, page);
      RunPages(page, number);
    }
  }

  lemma RunPages(page: nat, number: nat)
    ensures forall k :: page <= k < page + number ==> k in Run(page, number)
  {
  }

  lemma SlotInLimit(info: Info, i: nat)
    requires Placed(info) && i < ENTRIES
    ensures SlotBase(info.base, info.level, i) + SlotPages(info.level) <= PAGE_LIMIT
  {
  }

  /** A claimed frame of zeros is linked into the empty slot (f, i). */
  lemma TableStep(s: Snapshot, s': Snapshot, f: nat, i: nat, g: nat, mode: MapType)
    requires Good(s, mode) && f in s.space.tables && i < ENTRIES && s.space.tables[f].level < 3
    requires f in s.mem && |s.mem[f]| == ENTRIES && s.mem[f][i] == MMU_EMPTY_ENTRY
    requires g !in s.claimed && g < PAGE_LIMIT && s'.claimed == s.claimed + {g}
    requires NewTable(s, s', f, i, g)
    requires forall j :: 0 <= j < ENTRIES ==> s'.mem[g][j] == MMU_EMPTY_ENTRY
    ensures Advance(s, s', 0, 0, 0, mode)
  {
    hide Decode, Tree, OwnsOutputs, SlotBase, SlotPages, TablePages, TableWord;
    var info := s.space.tables[f];
    EmptyIsInvalid(info.level);
    EmptyIsInvalid(info.level + 1);
    HangStep(s, s', f, i, g);
    forall v | 0 <= v < PAGE_LIMIT
      ensures s'.At(v) == s.At(v)
    {
      if InSlot(info, i, v) {
        TranslateInSlot(s.mem, s.space.root, s.space.tables, f, i, v);
        var j := SlotBelow(s, f, i, v);
        assert s'.At(v) == SlotMapping(s'.mem[g][j], ChildInfo(info, f, i), j, v);
      }
    }
    if mode.MapAlloc? {
      SamePages(s, s');
    }
  }

  /** The shape of memory after a fresh frame was filled and linked into slot (f, i). */
  ghost predicate NewTable(s: Snapshot, s': Snapshot, f: nat, i: nat, g: nat)
    requires f in s.space.tables && f in s.mem && |s.mem[f]| == ENTRIES && i < ENTRIES && g < PAGE_LIMIT
  {
    && g in s'.mem && |s'.mem[g]| == ENTRIES
    && s'.mem == WriteWord(s.mem, f, i, TableWord(g * PAGE_SIZE))[g := s'.mem[g]]
    && s'.space == s.space.(tables := s.space.tables[g := ChildInfo(s.space.tables[f], f, i)])
  }

  lemma HangStep(s: Snapshot, s': Snapshot, f: nat, i: nat, g: nat)
    requires Tree(s.mem, s.space.root, s.space.tables) && f in s.space.tables && i < ENTRIES && s.space.tables[f].level < 3
    requires f in s.mem && |s.mem[f]| == ENTRIES && !Decode(s.mem[f][i], s.space.tables[f].level).Table?
    requires g !in s.space.tables && g < PAGE_LIMIT && NewTable(s, s', f, i, g)
    requires forall j :: 0 <= j < ENTRIES ==>
               Decode(s'.mem[g][j], s.space.tables[f].level + 1).Leaf? || s'.mem[g][j] == MMU_EMPTY_ENTRY
    ensures Tree(s'.mem, s'.space.root, s'.space.tables)
    ensures forall v :: 0 <= v < PAGE_LIMIT && !InSlot(s.space.tables[f], i, v) ==> s'.At(v) == s.At(v)
    ensures
      var child := ChildInfo(s.space.tables[f], f, i);
      forall j, v :: 0 <= j < ENTRIES && InSlot(child, j, v) ==> s'.At(v) == SlotMapping(s'.mem[g][j], child, j, v)
  {
    hide Decode, TableWord, SlotMapping, SlotBase, SlotPages;
    TableRoundTrip(g, s.space.tables[f].level);
    forall h | h in s.space.tables
      ensures h in s.mem && |s.mem[h]| == ENTRIES
    {
      TableOf(s.mem, s.space.root, s.space.tables, h);
    }
    HangTable(s.mem, s'.mem, s.space.root, s.space.tables, f, i, TableWord(g * PAGE_SIZE), g);
  }

  /** The slot of the table one level down that covers a page of slot (f, i). */
  lemma SlotBelow(s: Snapshot, f: nat, i: nat, v: nat) returns (j: nat)
    requires Tree(s.mem, s.space.root, s.space.tables) && f in s.space.tables && i < ENTRIES && s.space.tables[f].level < 3
    requires InSlot(s.space.tables[f], i, v)
    ensures j < ENTRIES && InSlot(ChildInfo(s.space.tables[f], f, i), j, v)
  {
    hide Tree;
    var info := s.space.tables[f];
    var child := ChildInfo(info, f, i);
    TableOf(s.mem, s.space.root, s.space.tables, f);
    ChildPlaced(info, i, child);
    j := SlotOf(v, child.level);
    SlotOfPage(child, v);
  }

  /** The leaf in slot (f, i) is replaced by a table of leaves for the parts of a run of pages. */
  lemma SplitInto(s: Snapshot, s': Snapshot, f: nat, i: nat, g: nat, page: nat, attr: nat)
    requires Tree(s.mem, s.space.root, s.space.tables) && f in s.space.tables && i < ENTRIES && s.space.tables[f].level < 3
    requires f in s.mem && |s.mem[f]| == ENTRIES && Decode(s.mem[f][i], s.space.tables[f].level).Leaf?
    requires g !in s.space.tables && g < PAGE_LIMIT && NewTable(s, s', f, i, g)
    requires
      var below := s.space.tables[f].level + 1;
      forall j :: 0 <= j < ENTRIES ==> Decode(s'.mem[g][j], below) == Leaf(page + j * SlotPages(below), attr)
    ensures Tree(s'.mem, s'.space.root, s'.space.tables)
    ensures forall v :: 0 <= v < PAGE_LIMIT && !InSlot(s.space.tables[f], i, v) ==> s'.At(v) == s.At(v)
    ensures
      var lo := SlotBase(s.space.tables[f].base, s.space.tables[f].level, i);
      forall v :: 0 <= v < PAGE_LIMIT && InSlot(s.space.tables[f], i, v) ==> s'.At(v) == Mapped(page + (v - lo), attr)
  {
    hide Decode, Tree, SlotBase, SlotPages, TablePages, TableWord;
    var info := s.space.tables[f];
    HangStep(s, s', f, i, g);
    forall v | 0 <= v < PAGE_LIMIT && InSlot(info, i, v)
      ensures s'.At(v) == Mapped(page + (v - SlotBase(info.base, info.level, i)), attr)
    {
      var j := SlotBelow(s, f, i, v);
      assert s'.At(v) == SlotMapping(s'.mem[g][j], ChildInfo(info, f, i), j, v);
      SlotBelowBase(info, f, i, j);
    }
  }

  /** mmu_split_block_entry: the block in slot (f, i) is replaced by a table of leaves for its parts. */
  lemma SplitStep(s: Snapshot, s': Snapshot, f: nat, i: nat, g: nat, mode: MapType)
    requires Good(s, mode) && f in s.space.tables && i < ENTRIES && s.space.tables[f].level < 3
    requires f in s.mem && |s.mem[f]| == ENTRIES && Decode(s.mem[f][i], s.space.tables[f].level).Leaf?
    requires g !in s.claimed && g < PAGE_LIMIT && s'.claimed == s.claimed + {g}
    requires NewTable(s, s', f, i, g)
    requires
      var block, below := Decode(s.mem[f][i], s.space.tables[f].level), s.space.tables[f].level + 1;
      forall j :: 0 <= j < ENTRIES ==>
        Decode(s'.mem[g][j], below) == Leaf(block.page + j * SlotPages(below), block.attr)
    ensures Advance(s, s', 0, 0, 0, mode)
  {
    hide Decode, Tree, OwnsOutputs, SlotBase, SlotPages, TablePages, TableWord;
    var info, block := s.space.tables[f], Decode(s.mem[f][i], s.space.tables[f].level);
    SplitInto(s, s', f, i, g, block.page, block.attr);
    BlockAt(s, f, i);
    if mode.MapAlloc? {
      SamePages(s, s');
    }
  }

  /** What the leaf in slot (f, i) maps the pages of the slot to. */
  lemma BlockAt(s: Snapshot, f: nat, i: nat)
    requires Tree(s.mem, s.space.root, s.space.tables) && f in s.space.tables && i < ENTRIES
    requires f in s.mem && |s.mem[f]| == ENTRIES && Decode(s.mem[f][i], s.space.tables[f].level).Leaf?
    ensures
      var block := Decode(s.mem[f][i], s.space.tables[f].level);
      var lo := SlotBase(s.space.tables[f].base, s.space.tables[f].level, i);
      forall v :: 0 <= v < PAGE_LIMIT && InSlot(s.space.tables[f], i, v) ==> s.At(v) == Mapped(block.page + (v - lo),
        block.attr)
  {
    hide Decode, Tree;
    forall v | 0 <= v < PAGE_LIMIT && InSlot(s.space.tables[f], i, v)
      ensures s.At(v) == SlotMapping(s.mem[f][i], s.space.tables[f], i, v)
    {
      TranslateInSlot(s.mem, s.space.root, s.space.tables, f, i, v);
    }
  }

  /** Splitting a block into the parts of another run changes no translation exactly when the run is the
      block's own. */
  lemma SplitKeepsIff(s: Snapshot, s': Snapshot, f: nat, i: nat, page: nat)
    requires Tree(s.mem, s.space.root, s.space.tables) && f in s.space.tables && i < ENTRIES
    requires f in s.mem && |s.mem[f]| == ENTRIES && Decode(s.mem[f][i], s.space.tables[f].level).Leaf?
    requires forall v :: 0 <= v < PAGE_LIMIT && !InSlot(s.space.tables[f], i, v) ==> s'.At(v) == s.At(v)
    requires
      var lo := SlotBase(s.space.tables[f].base, s.space.tables[f].level, i);
      forall v :: 0 <= v < PAGE_LIMIT && InSlot(s.space.tables[f], i, v) ==>
        s'.At(v) == Mapped(page + (v - lo), Decode(s.mem[f][i], s.space.tables[f].level).attr)
    ensures (forall v :: 0 <= v < PAGE_LIMIT ==> s'.At(v) == s.At(v)) <==>
            page == Decode(s.mem[f][i], s.space.tables[f].level).page
  {
    hide Decode, Tree, SlotBase, SlotPages;
    var info := s.space.tables[f];
    BlockAt(s, f, i);
    TableOf(s.mem, s.space.root, s.space.tables, f);
    SlotInLimit(info, i);
    SlotSizes(info.base, info.level, i);
    var lo := SlotBase(info.base, info.level, i);
    assert InSlot(info, i, lo);
  }

  lemma SlotBelowBase(info: Info, f: nat, i: nat, j: nat)
    requires info.level < 3
    ensures
      var child := ChildInfo(info, f, i);
      SlotBase(child.base, child.level, j) == SlotBase(info.base, info.level, i) + j * SlotPages(child.level)
  {
  }
}
