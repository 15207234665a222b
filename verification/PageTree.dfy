/** The pointer tree of page tables in physical memory: the architectural walk, which tables belong to
    an address space, and what one write to one slot does to the translation of every page. */
module PageTree {
  import opened Arithmetic
  import opened Descriptor

  /** Physical memory as far as it holds tables: frame number to the 512 words of the frame. */
  type Ram = map<nat, seq<Word>>

  datatype Mapping = Unmapped | Mapped(page: nat, attr: nat)

  /** Where a table hangs: its level, the first page it translates and the one slot that links it. */
  datatype Info = Info(level: nat, base: nat, parent: nat, slot: nat)

  type Tables = map<nat, Info>

  // ---- the walk ---------------------------------------------------------------------------

  /** The slot that a table of the given level uses for a page. */
  function SlotOf(v: nat, level: nat): (i: nat)
    ensures i < ENTRIES
  {
    if level == 0 then (v / 0x800_0000) % 512
    else if level == 1 then (v / 0x4_0000) % 512
    else if level == 2 then (v / 0x200) % 512
    else v % 512
  }

  /** The VMSAv8-64 translation table walk of page v, from the table in frame f. */
  function Walk(mem: Ram, f: nat, level: nat, v: nat): Mapping
    decreases 4 - level
  {
    if level > 3 || f !in mem || |mem[f]| != ENTRIES then Unmapped
    else
      match Decode(mem[f][SlotOf(v, level)], level)
      case Invalid => Unmapped
      case Table(next) => Walk(mem, next, level + 1, v)
      case Leaf(page, attr) => Mapped(page + v % SlotPages(level), attr)
  }

  /** The flat map that the tree stands for. */
  function Translate(mem: Ram, root: nat, v: nat): Mapping {
    Walk(mem, root, 0, v)
  }

  // ---- geometry ---------------------------------------------------------------------------

  /** The pages that a whole table of this level translates. */
  function TablePages(level: nat): nat {
    if level == 0 then 0x10_0000_0000
    else if level == 1 then 0x800_0000
    else if level == 2 then 0x4_0000
    else 0x200
  }

  predicate Aligned(base: nat, level: nat) {
    if level == 0 then base % 0x10_0000_0000 == 0
    else if level == 1 then base % 0x800_0000 == 0
    else if level == 2 then base % 0x4_0000 == 0
    else base % 0x200 == 0
  }

  /** The first page of slot i of a table that starts at base. */
  function SlotBase(base: nat, level: nat, i: nat): nat {
    if level == 0 then base + i * 0x800_0000
    else if level == 1 then base + i * 0x4_0000
    else if level == 2 then base + i * 0x200
    else base + i
  }

  predicate InTable(info: Info, v: nat) {
    info.base <= v < info.base + TablePages(info.level)
  }

  predicate InSlot(info: Info, i: nat, v: nat) {
    var lo := SlotBase(info.base, info.level, i);
    lo <= v < lo + SlotPages(info.level)
  }

  predicate Placed(info: Info) {
    && info.level <= 3
    && Aligned(info.base, info.level)
    && info.base + TablePages(info.level) <= PAGE_LIMIT
  }

  lemma SlotArithmetic(base: nat, size: nat, i: nat, r: nat)
    requires size > 0 && i < ENTRIES && r < size && base % (ENTRIES * size) == 0
    ensures
      var v := base + i * size + r;
      (v / size) % ENTRIES == i && v % size == r
  {
    var q := base / (ENTRIES * size);
    var v := base + i * size + r;
    assert base == q * (ENTRIES * size) == (q * ENTRIES) * size;
    assert v == (q * ENTRIES + i) * size + r;
    DivUnique(v, size, q * ENTRIES + i, r);
    DivUnique(q * ENTRIES + i, ENTRIES, q, i);
  }

  lemma SlotSizes(base: nat, level: nat, i: nat)
    ensures SlotBase(base, level, i) == base + i * SlotPages(level) && SlotPages(level) > 0
    ensures TablePages(level) == ENTRIES * SlotPages(level)
  {
  }

  /** A page of slot i is a page of the table and the walk uses slot i for it. */
  lemma PageOfSlot(info: Info, i: nat, v: nat)
    requires Placed(info) && i < ENTRIES && InSlot(info, i, v)
    ensures InTable(info, v) && SlotOf(v, info.level) == i
    ensures v % SlotPages(info.level) == v - SlotBase(info.base, info.level, i)
  {
    SlotArithmetic(info.base, SlotPages(info.level), i, v - SlotBase(info.base, info.level, i));
  }

  /** A page of a table lies in exactly the slot that the walk uses for it. */
  lemma SlotOfPage(info: Info, v: nat)
    requires Placed(info) && InTable(info, v)
    ensures InSlot(info, SlotOf(v, info.level), v)
    ensures v % SlotPages(info.level) == v - SlotBase(info.base, info.level, SlotOf(v, info.level))
  {
    var size := SlotPages(info.level);
    var i := (v - info.base) / size;
    hide SlotBase, SlotPages, TablePages, SlotOf;
    SlotSizes(info.base, info.level, i);
    assert v - info.base == i * size + (v - info.base) % size;
    MulMono(ENTRIES - 1, i, size);
    PageOfSlot(info, i, v);
  }

  /** What slot i of a table covers is what a whole table one level down covers. */
  lemma ChildPlaced(info: Info, i: nat, child: Info)
    requires Placed(info) && i < ENTRIES && info.level < 3
    requires child.level == info.level + 1 && child.base == SlotBase(info.base, info.level, i)
    ensures Placed(child) && TablePages(child.level) == SlotPages(info.level)
  {
    SlotArithmetic(info.base, SlotPages(info.level), i, 0);
  }

  // ---- the ownership tree -----------------------------------------------------------------

  /** t lists every table of the address space once: all words of a listed table are well formed,
      every link goes one level down to a listed table that knows this slot as its parent, and every
      listed table but the root is linked. */
  ghost predicate Tree(mem: Ram, root: nat, t: Tables) {
    && root in t && t[root].level == 0 && t[root].base == 0
    && (forall f :: f in t ==> TableOk(mem, t, f))
    && (forall g :: g in t && g != root ==> Linked(mem, t, g))
  }

  ghost predicate TableOk(mem: Ram, t: Tables, f: nat)
    requires f in t
  {
    && f < PAGE_LIMIT && Placed(t[f])
    && f in mem && |mem[f]| == ENTRIES
    && (forall i :: 0 <= i < ENTRIES ==> SlotOk(mem[f][i], t, f, i))
  }

  /** An invalid word is 0, a link agrees with the list, leaves are free (Decode admits blocks at
      levels 1 and 2 and pages at level 3 only). */
  predicate SlotOk(w: Word, t: Tables, f: nat, i: nat)
    requires f in t
  {
    match Decode(w, t[f].level)
    case Invalid => w == MMU_EMPTY_ENTRY
    case Table(g) => g in t && t[g] == ChildInfo(t[f], f, i)
    case Leaf(_, _) => true
  }

  function ChildInfo(info: Info, f: nat, i: nat): Info {
    Info(info.level + 1, SlotBase(info.base, info.level, i), f, i)
  }

  ghost predicate Linked(mem: Ram, t: Tables, g: nat)
    requires g in t
  {
    var p, i := t[g].parent, t[g].slot;
    && p in t && i < ENTRIES && p in mem && |mem[p]| == ENTRIES
    && t[g] == ChildInfo(t[p], p, i)
    && Decode(mem[p][i], t[p].level) == Table(g)
  }

  lemma TableOf(mem: Ram, root: nat, t: Tables, f: nat)
    requires Tree(mem, root, t) && f in t
    ensures f < PAGE_LIMIT && Placed(t[f]) && f in mem && |mem[f]| == ENTRIES
    ensures forall i :: 0 <= i < ENTRIES ==> SlotOk(mem[f][i], t, f, i)
  {
    assert TableOk(mem, t, f);
  }

  /** The walk to any page of a table passes through that table. */
  lemma {:induction false} WalkDown(mem: Ram, root: nat, t: Tables, f: nat, v: nat)
    requires Tree(mem, root, t) && f in t && InTable(t[f], v)
    ensures Translate(mem, root, v) == Walk(mem, f, t[f].level, v)
    decreases t[f].level
  {
    if f != root {
      assert TableOk(mem, t, f) && Linked(mem, t, f);
      var p, i := t[f].parent, t[f].slot;
      assert TableOk(mem, t, p);
      ChildPlaced(t[p], i, t[f]);
      PageOfSlot(t[p], i, v);
      WalkDown(mem, root, t, p, v);
    }
  }

  /** The mapping that a non-table word in slot i of a table gives to page v. */
  function SlotMapping(w: Word, info: Info, i: nat, v: nat): Mapping {
    match Decode(w, info.level)
    case Leaf(page, attr) =>
      var lo := SlotBase(info.base, info.level, i);
      if lo <= v then Mapped(page + (v - lo), attr) else Unmapped
    case _ => Unmapped
  }

  /** The translation of a page whose walk ends in slot (f, i). */
  lemma TranslateInSlot(mem: Ram, root: nat, t: Tables, f: nat, i: nat, v: nat)
    requires Tree(mem, root, t) && f in t && i < ENTRIES && InSlot(t[f], i, v)
    requires f in mem && |mem[f]| == ENTRIES && !Decode(mem[f][i], t[f].level).Table?
    ensures Translate(mem, root, v) == SlotMapping(mem[f][i], t[f], i, v)
  {
    assert TableOk(mem, t, f);
    PageOfSlot(t[f], i, v);
    WalkDown(mem, root, t, f, v);
  }

  // ---- writing one slot -------------------------------------------------------------------

  /** table[i] = w for the table in frame f. */
  function WriteWord(mem: Ram, f: nat, i: nat, w: Word): Ram
    requires f in mem && i < |mem[f]|
  {
    var words: seq<Word> := mem[f][i := w];
    mem[f := words]
  }

  /** mem' holds the tables of t with the words of mem, except perhaps in slot (f0, i0). */
  ghost predicate Rewrites(mem: Ram, mem': Ram, t: Tables, f0: nat, i0: nat) {
    forall f :: f in t ==>
      && f in mem && |mem[f]| == ENTRIES && f in mem' && |mem'[f]| == ENTRIES
      && (forall i :: 0 <= i < ENTRIES && !(f == f0 && i == i0) ==> mem'[f][i] == mem[f][i])
  }

  lemma {:induction false} WalkFrame(mem: Ram, mem': Ram, root: nat, t: Tables, f0: nat, i0: nat, f: nat, v: nat)
    requires Tree(mem, root, t) && Rewrites(mem, mem', t, f0, i0)
    requires f0 in t && i0 < ENTRIES && f in t && InTable(t[f], v) && !InSlot(t[f0], i0, v)
    ensures Walk(mem', f, t[f].level, v) == Walk(mem, f, t[f].level, v)
    decreases 4 - t[f].level
  {
    hide Decode, TablePages, SlotBase, SlotOf, SlotPages;
    TableOf(mem, root, t, f);
    var i := SlotOf(v, t[f].level);
    SlotOfPage(t[f], v);
    assert !(f == f0 && i == i0);
    assert mem'[f][i] == mem[f][i];
    assert SlotOk(mem[f][i], t, f, i);
    var d := Decode(mem[f][i], t[f].level);
    if d.Table? {
      ChildPlaced(t[f], i, t[d.next]);
      WalkFrame(mem, mem', root, t, f0, i0, d.next, v);
    }
  }

  /** Outside the rewritten slot nothing changes. */
  lemma TranslateFrame(mem: Ram, mem': Ram, root: nat, t: Tables, f0: nat, i0: nat)
    requires Tree(mem, root, t) && Rewrites(mem, mem', t, f0, i0) && f0 in t && i0 < ENTRIES
    ensures forall v :: 0 <= v < PAGE_LIMIT && !InSlot(t[f0], i0, v) ==> Translate(mem', root, v) == Translate(mem, root, v)
  {
    forall v | 0 <= v < PAGE_LIMIT && !InSlot(t[f0], i0, v)
      ensures Translate(mem', root, v) == Translate(mem, root, v)
    {
      WalkFrame(mem, mem', root, t, f0, i0, root, v);
    }
  }

  /** A leaf or an empty word over a leaf or an empty word keeps the tree. */
  lemma WriteLeaf(mem: Ram, root: nat, t: Tables, f: nat, i: nat, w: Word)
    requires Tree(mem, root, t) && f in t && i < ENTRIES && f in mem && |mem[f]| == ENTRIES
    requires !Decode(mem[f][i], t[f].level).Table?
    requires Decode(w, t[f].level).Leaf? || w == MMU_EMPTY_ENTRY
    ensures
      var mem' := WriteWord(mem, f, i, w);
      && Tree(mem', root, t)
      && (forall v :: 0 <= v < PAGE_LIMIT && !InSlot(t[f], i, v) ==> Translate(mem', root, v) == Translate(mem, root, v))
      && (forall v :: InSlot(t[f], i, v) ==> Translate(mem', root, v) == SlotMapping(w, t[f], i, v))
  {
    var mem' := WriteWord(mem, f, i, w);
    forall g | g in t
      ensures TableOk(mem', t, g)
    {
      assert TableOk(mem, t, g);
    }
    forall g | g in t && g != root
      ensures Linked(mem', t, g)
    {
      assert Linked(mem, t, g);
    }
    assert Rewrites(mem, mem', t, f, i) by {
      forall g | g in t
        ensures g in mem && |mem[g]| == ENTRIES
      {
        assert TableOk(mem, t, g);
      }
    }
    TranslateFrame(mem, mem', root, t, f, i);
    forall v | InSlot(t[f], i, v)
      ensures Translate(mem', root, v) == SlotMapping(w, t[f], i, v)
    {
      TranslateInSlot(mem', root, t, f, i, v);
    }
  }

  lemma EmptyIsInvalid(level: nat)
    ensures Decode(MMU_EMPTY_ENTRY, level) == Invalid
  {
  }

  /** Linking a fresh table of leaves and empty words into a slot that held no table. */
  lemma HangTable(mem: Ram, mem': Ram, root: nat, t: Tables, f: nat, i: nat, w: Word, g: nat)
    requires Tree(mem, root, t) && f in t && i < ENTRIES && t[f].level < 3
    requires Rewrites(mem, mem', t, f, i) && mem'[f][i] == w
    requires !Decode(mem[f][i], t[f].level).Table? && Decode(w, t[f].level) == Table(g)
    requires g !in t && g < PAGE_LIMIT && g in mem' && |mem'[g]| == ENTRIES
    requires forall j :: 0 <= j < ENTRIES ==> Decode(mem'[g][j], t[f].level + 1).Leaf? || mem'[g][j] == MMU_EMPTY_ENTRY
    ensures
      var t' := t[g := ChildInfo(t[f], f, i)];
      && Tree(mem', root, t')
      && (forall v :: 0 <= v < PAGE_LIMIT && !InSlot(t[f], i, v) ==> Translate(mem', root, v) == Translate(mem, root, v))
      && (forall j, v :: 0 <= j < ENTRIES && InSlot(t'[g], j, v) ==>
            Translate(mem', root, v) == SlotMapping(mem'[g][j], t'[g], j, v))
  {
    HangIsTree(mem, mem', root, t, f, i, g);
    hide Decode, Tree, SlotMapping, InSlot, Translate;
    var t' := t[g := ChildInfo(t[f], f, i)];
    EmptyIsInvalid(t[f].level + 1);
    TranslateFrame(mem, mem', root, t, f, i);
    forall j, v | 0 <= j < ENTRIES && InSlot(t'[g], j, v)
      ensures Translate(mem', root, v) == SlotMapping(mem'[g][j], t'[g], j, v)
    {
      TranslateInSlot(mem', root, t', g, j, v);
    }
  }

  lemma HangIsTree(mem: Ram, mem': Ram, root: nat, t: Tables, f: nat, i: nat, g: nat)
    requires Tree(mem, root, t) && f in t && i < ENTRIES && t[f].level < 3
    requires Rewrites(mem, mem', t, f, i)
    requires !Decode(mem[f][i], t[f].level).Table? && Decode(mem'[f][i], t[f].level) == Table(g)
    requires g !in t && g < PAGE_LIMIT && g in mem' && |mem'[g]| == ENTRIES
    requires forall j :: 0 <= j < ENTRIES ==> Decode(mem'[g][j], t[f].level + 1).Leaf? || mem'[g][j] == MMU_EMPTY_ENTRY
    ensures Tree(mem', root, t[g := ChildInfo(t[f], f, i)])
  {
    hide Decode, Placed, SlotOk, SlotBase;
    var t' := t[g := ChildInfo(t[f], f, i)];
    assert TableOk(mem, t, f);
    ChildPlaced(t[f], i, t'[g]);
    forall j | 0 <= j < ENTRIES
      ensures SlotOk(mem'[g][j], t', g, j)
    {
      PlainSlotOk(mem'[g][j], t', g, j);
    }
    forall h, j | h in t && 0 <= j < ENTRIES
      ensures h in mem && |mem[h]| == ENTRIES && SlotOk(mem'[h][j], t', h, j)
    {
      assert TableOk(mem, t, h);
      SlotStaysOk(mem[h][j], mem'[h][j], t, t', h, j, f, i, g);
    }
    forall h | h in t'
      ensures TableOk(mem', t', h)
    {
      assert h != g ==> TableOk(mem, t, h);
    }
    forall h | h in t' && h != root
      ensures Linked(mem', t', h)
    {
      if h != g {
        assert Linked(mem, t, h);
      }
    }
  }

  lemma PlainSlotOk(w: Word, t: Tables, f: nat, i: nat)
    requires f in t && (Decode(w, t[f].level).Leaf? || w == MMU_EMPTY_ENTRY)
    ensures SlotOk(w, t, f, i)
  {
    hide Decode;
    EmptyIsInvalid(t[f].level);
  }

  /** The new link is in order and every other word stays in order. */
  lemma SlotStaysOk(w: Word, w': Word, t: Tables, t': Tables, h: nat, j: nat, f: nat, i: nat, g: nat)
    requires f in t && g !in t && t' == t[g := ChildInfo(t[f], f, i)] && h in t && SlotOk(w, t, h, j)
    requires if h == f && j == i then Decode(w', t[f].level) == Table(g) else w' == w
    ensures SlotOk(w', t', h, j)
  {
    hide Decode;
  }
}
