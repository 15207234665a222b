/** The calls of mmu_map_units that memory_mmu_insert makes for a range, as intended and as written
    with its 32-bit counts and 64-bit differences, and which pages they touch. */
module InsertCalls {
  import opened Arithmetic
  import opened Descriptor

  // ---- the ranges of memory_mmu_insert --------------------------------------------------------

  /** ALIGN_UP(address, block_size) - address. */
  function GapToBlock(address: nat): (gap: nat)
    ensures gap < RegionSize(2)
  {
    AlignUpIsLeast(address, RegionSize(2));
    AlignUp(address, RegionSize(2)) - address
  }

  /** When the byte count of memory_mmu_insert does no harm: there is no gap before the first block, or
      no block fits, or the pages that are mapped for the gap leave less than a block. */
  predicate ByteCountHarmless(address: nat, size: nat) {
    var gap := GapToBlock(address);
    || gap == 0
    || size < gap + RegionSize(2)
    || gap * PAGE_SIZE <= size < gap * PAGE_SIZE + RegionSize(2)
  }

  lemma InsertGeometry(address: nat, size: nat)
    requires address % PAGE_SIZE == 0
    ensures
      var gap := AlignUp(address, RegionSize(2)) - address;
      && RegionSize(3) == PAGE_SIZE && SlotPages(3) == 1 && RegionSize(2) == SlotPages(2) * PAGE_SIZE && SlotPages(2) == 512
      && gap >= 0 && gap % PAGE_SIZE == 0 && (address + gap) % RegionSize(2) == 0 && gap == GapToBlock(address)
      && (gap == 0 <==> address % RegionSize(2) == 0)
  {
    AlignUpIsLeast(address, RegionSize(2));
  }

  /** The lowest level at which mapping the range can make tables. */
  function TableLevel(address: nat, size: nat): nat {
    if address % RegionSize(2) == 0 && size % RegionSize(2) == 0 && size > 0 then 2 else 3
  }

  // ---- the calls ------------------------------------------------------------------------------

  /** One call of mmu_map_units: count units of the level from an address on. */
  datatype Call = Call(address: nat, count: nat, level: nat)

  function Uint32(x: nat): nat { x % 0x1_0000_0000 }

  function Minus64(a: nat, b: nat): nat { (a - b) % 0x1_0000_0000_0000_0000 }

  function CallIf(address: nat, count: nat, level: nat): seq<Call> {
    if count > 0 then [Call(address, count, level)] else []
  }

  /** Pages up to a block boundary, as many blocks as fit, pages for the rest. */
  function CallsIntended(address: nat, size: nat): seq<Call> {
    var gap := GapToBlock(address);
    if size >= gap + RegionSize(2) then
      var first := gap / PAGE_SIZE;
      var blocks := (size - gap) / RegionSize(2);
      var rest := (size - gap) % RegionSize(2) / PAGE_SIZE;
      CallIf(address, first, 3) + CallIf(address + gap, blocks, 2) + CallIf(address + gap + blocks * RegionSize(2), rest, 3)
    else
      [Call(address, size / PAGE_SIZE, 3)]
  }

  function CallsAsWritten(address: nat, size: nat): seq<Call> {
    var blockSize := RegionSize(2);
    var gap := GapToBlock(address);
    if size >= gap + blockSize then
      var first := Uint32(Min(size, gap));
      var offset := first * PAGE_SIZE;
      var blocks := Uint32(Minus64(size, offset) / blockSize);
      var offset' := offset + blocks * blockSize;
      var rest := Uint32(Minus64(size, offset') / PAGE_SIZE);
      CallIf(address, first, 3) + CallIf(address + offset, blocks, 2) + CallIf(address + offset', rest, 3)
    else
      [Call(address, Uint32(size / PAGE_SIZE), 3)]
  }

  /** A unit covers the whole slot that its address lies in. */
  predicate InCall(call: Call, p: nat) {
    var from := call.address / RegionSize(call.level) * SlotPages(call.level);
    from <= p < from + call.count * SlotPages(call.level)
  }

  ghost predicate Touches(calls: seq<Call>, p: nat) {
    exists k :: 0 <= k < |calls| && InCall(calls[k], p)
  }

  ghost predicate TouchesExactly(calls: seq<Call>, lo: nat, hi: nat) {
    forall p: nat :: Touches(calls, p) <==> lo <= p < hi
  }

  /** The calls touch exactly the pages of the range if and only if the byte count does no harm. */
  lemma CallsIff(address: nat, size: nat)
    requires address % PAGE_SIZE == 0 && address + size <= PAGE_LIMIT * PAGE_SIZE
    ensures TouchesExactly(CallsAsWritten(address, size), address / PAGE_SIZE, address / PAGE_SIZE + size / PAGE_SIZE)
            <==> ByteCountHarmless(address, size)
  {
    hide TouchesExactly;
    InsertGeometry(address, size);
    var gap := GapToBlock(address);
    if ByteCountHarmless(address, size) {
      Harmless(address, size);
    } else if gap * PAGE_SIZE > size {
      Overshoots(address, size);
    } else {
      LeavesHole(address, size);
    }
  }

  /** When the first count fits into the size, no difference wraps and no count is cut off. */
  lemma CallsThree(address: nat, size: nat)
    requires address % PAGE_SIZE == 0 && address + size <= PAGE_LIMIT * PAGE_SIZE
    requires size >= GapToBlock(address) + RegionSize(2) && GapToBlock(address) * PAGE_SIZE <= size
    ensures
      var gap := GapToBlock(address);
      var left := size - gap * PAGE_SIZE;
      var blocks := left / RegionSize(2);
      var b := address + gap * PAGE_SIZE;
      CallsAsWritten(address, size) ==
      CallIf(address, gap, 3) + CallIf(b, blocks, 2)
      + CallIf(b + blocks * RegionSize(2), (left - blocks * RegionSize(2)) / PAGE_SIZE, 3)
  {
    hide CallIf, AlignUp, Uint32, Minus64;
    AlignUpIsLeast(address, RegionSize(2));
    var gap := GapToBlock(address);
    var left := size - gap * PAGE_SIZE;
    var blocks := left / RegionSize(2);
    NoWrap(size, gap * PAGE_SIZE, gap);
    NoWrap(size, gap * PAGE_SIZE, blocks);
    NoWrap(size, gap * PAGE_SIZE + blocks * RegionSize(2), (left - blocks * RegionSize(2)) / PAGE_SIZE);
  }

  /** With a harmless byte count nothing in the calls as written wraps or is cut off, the parts follow
      each other and end where the range ends. */
  lemma HarmlessPlan(address: nat, size: nat)
    requires address % PAGE_SIZE == 0 && address + size <= PAGE_LIMIT * PAGE_SIZE && ByteCountHarmless(address, size)
    ensures
      var gap := GapToBlock(address);
      if size < gap + RegionSize(2) then
        && Uint32(size / PAGE_SIZE) == size / PAGE_SIZE
        && CallsAsWritten(address, size) == [Call(address, size / PAGE_SIZE, 3)]
      else
        var blocks := (size - gap * PAGE_SIZE) / RegionSize(2);
        var offset := gap * PAGE_SIZE + blocks * RegionSize(2);
        var rest := (size - offset) / PAGE_SIZE;
        && gap * PAGE_SIZE <= size && Uint32(Min(size, gap)) == gap
        && Minus64(size, gap * PAGE_SIZE) == size - gap * PAGE_SIZE && Uint32(blocks) == blocks
        && offset <= size && Minus64(size, offset) == size - offset && Uint32(rest) == rest
        && Follows(address, gap, blocks, rest, size) && (gap > 0 ==> size < gap * PAGE_SIZE + RegionSize(2))
        && CallsAsWritten(address, size) ==
           CallIf(address, gap, 3) + CallIf(address + gap * PAGE_SIZE, blocks, 2) + CallIf(address + offset, rest, 3)
  {
    hide AlignUp, Uint32, Minus64, CallIf, GapToBlock;
    InsertGeometry(address, size);
    var gap := GapToBlock(address);
    if size >= gap + RegionSize(2) {
      var left := size - gap * PAGE_SIZE;
      var blocks := left / RegionSize(2);
      NoWrap(size, gap * PAGE_SIZE, gap);
      NoWrap(size, gap * PAGE_SIZE, blocks);
      NoWrap(size, gap * PAGE_SIZE + blocks * RegionSize(2), (left - blocks * RegionSize(2)) / PAGE_SIZE);
      HarmlessParts(size, gap);
      PartsFollow(address, gap, blocks, (left - blocks * RegionSize(2)) / PAGE_SIZE, size);
      CallsThree(address, size);
    } else {
      NoWrap(size, 0, size / PAGE_SIZE);
    }
  }

  /** A range of whole blocks needs no pages. */
  lemma WholeBlocks(address: nat, size: nat)
    ensures TableLevel(address, size) == 2 || TableLevel(address, size) == 3
    ensures TableLevel(address, size) == 2 ==>
              GapToBlock(address) == 0 && size >= RegionSize(2) && size - size / RegionSize(2) * RegionSize(2) == 0
  {
    if TableLevel(address, size) == 2 {
      FactorDivides(address, 512, PAGE_SIZE);
      InsertGeometry(address, size);
    }
  }

  /** Pages, blocks and pages one after another make up the range. */
  predicate Follows(address: nat, first: nat, blocks: nat, rest: nat, size: nat) {
    var b := address + first * PAGE_SIZE;
    var c := b + blocks * RegionSize(2);
    && b % PAGE_SIZE == 0 && b / PAGE_SIZE == address / PAGE_SIZE + first && (blocks > 0 ==> b % RegionSize(2) == 0)
    && c % PAGE_SIZE == 0 && c / PAGE_SIZE == address / PAGE_SIZE + first + blocks * 512
    && first + blocks * 512 + rest == size / PAGE_SIZE
  }

  lemma PartsFollow(address: nat, first: nat, blocks: nat, rest: nat, size: nat)
    requires address % PAGE_SIZE == 0 && first + blocks * 512 + rest == size / PAGE_SIZE
    requires blocks > 0 ==> (address + first * PAGE_SIZE) % RegionSize(2) == 0
    ensures Follows(address, first, blocks, rest, size)
  {
    var n := address / PAGE_SIZE;
    DivUnique(address + first * PAGE_SIZE, PAGE_SIZE, n + first, 0);
    DivUnique(address + first * PAGE_SIZE + blocks * RegionSize(2), PAGE_SIZE, n + first + blocks * 512, 0);
  }

  lemma ThreeMore(calls: seq<Call>, a: seq<Call>, b: seq<Call>, c: seq<Call>)
    ensures calls + a + b + c == calls + (a + b + c)
  {
  }

  lemma IntendedPlan(address: nat, size: nat)
    requires address % PAGE_SIZE == 0
    ensures
      var gap := GapToBlock(address);
      if size < gap + RegionSize(2) then CallsIntended(address, size) == [Call(address, size / PAGE_SIZE, 3)]
      else
        var blocks := (size - gap) / RegionSize(2);
        var offset := gap + blocks * RegionSize(2);
        && Min(size, gap) / PAGE_SIZE * PAGE_SIZE == gap && offset <= size
        && Follows(address, gap / PAGE_SIZE, blocks, (size - offset) / PAGE_SIZE, size)
        && CallsIntended(address, size) ==
           CallIf(address, gap / PAGE_SIZE, 3) + CallIf(address + gap, blocks, 2)
           + CallIf(address + offset, (size - offset) / PAGE_SIZE, 3)
  {
    hide AlignUp, CallIf, GapToBlock, Follows;
    InsertGeometry(address, size);
    var gap := GapToBlock(address);
    if size >= gap + RegionSize(2) {
      var blocks := (size - gap) / RegionSize(2);
      PartsAdd(size, gap);
      PartsFollow(address, gap / PAGE_SIZE, blocks, (size - gap) % RegionSize(2) / PAGE_SIZE, size);
      assert (size - gap) % RegionSize(2) == size - (gap + blocks * RegionSize(2));
    }
  }

  lemma NoWrap(a: nat, b: nat, count: nat)
    requires b <= a <= PAGE_LIMIT * PAGE_SIZE && count < 0x1_0000_0000
    ensures Minus64(a, b) == a - b && Uint32(count) == count
  {
  }

  /** The intended calls touch exactly the pages of the range. */
  lemma IntendedExact(address: nat, size: nat)
    requires address % PAGE_SIZE == 0
    ensures TouchesExactly(CallsIntended(address, size), address / PAGE_SIZE, address / PAGE_SIZE + size / PAGE_SIZE)
  {
    hide CallIf, Touches, GapToBlock, InCall;
    var gap := GapToBlock(address);
    InsertGeometry(address, size);
    if size < gap + RegionSize(2) {
      TouchesOne(CallsIntended(address, size)[0]);
      OnePart(address, size / PAGE_SIZE);
    } else {
      var blocks := (size - gap) / RegionSize(2);
      var rest := (size - gap) % RegionSize(2) / PAGE_SIZE;
      PartsAdd(size, gap);
      ThreeParts(address, gap / PAGE_SIZE, blocks, rest);
    }
  }

  lemma PartsAdd(size: nat, gap: nat)
    requires gap % PAGE_SIZE == 0 && gap <= size
    ensures gap / PAGE_SIZE * PAGE_SIZE == gap
    ensures gap / PAGE_SIZE + (size - gap) / RegionSize(2) * 512 + (size - gap) % RegionSize(2) / PAGE_SIZE == size / PAGE_SIZE
  {
    var g, k, rest := gap / PAGE_SIZE, (size - gap) / RegionSize(2), (size - gap) % RegionSize(2);
    DivUnique(size, PAGE_SIZE, g + k * 512 + rest / PAGE_SIZE, rest % PAGE_SIZE);
  }

  lemma OnePart(address: nat, count: nat)
    requires address % PAGE_SIZE == 0
    ensures forall p: nat :: InCall(Call(address, count, 3), p) <==> address / PAGE_SIZE <= p < address / PAGE_SIZE + count
  {
  }

  /** Pages, blocks and pages that follow each other, with the blocks on a block boundary. */
  lemma ThreeParts(address: nat, first: nat, blocks: nat, rest: nat)
    requires address % PAGE_SIZE == 0
    requires blocks > 0 ==> (address + first * PAGE_SIZE) % RegionSize(2) == 0
    ensures
      var b := address + first * PAGE_SIZE;
      TouchesExactly(CallIf(address, first, 3) + CallIf(b, blocks, 2) + CallIf(b + blocks * RegionSize(2), rest, 3),
                     address / PAGE_SIZE, address / PAGE_SIZE + (first + blocks * 512 + rest))
  {
    hide InCall, CallIf, Touches;
    var b := address + first * PAGE_SIZE;
    var c := b + blocks * RegionSize(2);
    var n := address / PAGE_SIZE;
    TouchesThree(address, first, b, blocks, c, rest);
    DivUnique(b, PAGE_SIZE, n + first, 0);
    DivUnique(c, PAGE_SIZE, n + first + blocks * 512, 0);
    OnePart(address, first);
    OnePart(c, rest);
    AlignedBlocks(b, blocks);
  }

  lemma AlignedBlocks(address: nat, blocks: nat)
    requires blocks > 0 ==> address % RegionSize(2) == 0
    ensures forall p: nat :: InCall(Call(address, blocks, 2), p) <==>
              address / PAGE_SIZE <= p < address / PAGE_SIZE + blocks * 512
  {
    if blocks > 0 {
      var q := address / RegionSize(2);
      DivUnique(address, PAGE_SIZE, q * 512, 0);
    }
  }

  lemma Harmless(address: nat, size: nat)
    requires address % PAGE_SIZE == 0 && address + size <= PAGE_LIMIT * PAGE_SIZE
    requires ByteCountHarmless(address, size)
    ensures TouchesExactly(CallsAsWritten(address, size), address / PAGE_SIZE, address / PAGE_SIZE + size / PAGE_SIZE)
  {
    hide CallIf, Touches, GapToBlock, InCall, Uint32, Minus64;
    var gap := GapToBlock(address);
    InsertGeometry(address, size);
    if size < gap + RegionSize(2) {
      NoWrap(size, 0, size / PAGE_SIZE);
      TouchesOne(CallsAsWritten(address, size)[0]);
      OnePart(address, size / PAGE_SIZE);
    } else {
      var left := size - gap * PAGE_SIZE;
      var blocks := left / RegionSize(2);
      CallsThree(address, size);
      HarmlessParts(size, gap);
      ThreeParts(address, gap, blocks, (left - blocks * RegionSize(2)) / PAGE_SIZE);
    }
  }

  lemma HarmlessParts(size: nat, gap: nat)
    requires gap * PAGE_SIZE <= size && (gap == 0 || size < gap * PAGE_SIZE + RegionSize(2))
    ensures
      var left := size - gap * PAGE_SIZE;
      var blocks := left / RegionSize(2);
      && gap + blocks * 512 + (left - blocks * RegionSize(2)) / PAGE_SIZE == size / PAGE_SIZE
      && (blocks > 0 ==> gap == 0)
  {
    var left := size - gap * PAGE_SIZE;
    var blocks := left / RegionSize(2);
    var r := left - blocks * RegionSize(2);
    DivUnique(size, PAGE_SIZE, gap + blocks * 512 + r / PAGE_SIZE, r % PAGE_SIZE);
  }

  lemma TouchesOne(call: Call)
    ensures forall p: nat :: Touches([call], p) <==> InCall(call, p)
  {
    forall p: nat
      ensures Touches([call], p) <==> InCall(call, p)
    {
      assert [call][0] == call;
    }
  }

  lemma TouchesThree(a: nat, m: nat, b: nat, k: nat, c: nat, r: nat)
    ensures
      var calls := CallIf(a, m, 3) + CallIf(b, k, 2) + CallIf(c, r, 3);
      forall p: nat :: Touches(calls, p) <==> InCall(Call(a, m, 3), p) || InCall(Call(b, k, 2), p) || InCall(Call(c, r, 3), p)
  {
    hide RegionSize;
    var x, y, z := CallIf(a, m, 3), CallIf(b, k, 2), CallIf(c, r, 3);
    var calls := x + y + z;
    forall p: nat
      ensures Touches(calls, p) <==> InCall(Call(a, m, 3), p) || InCall(Call(b, k, 2), p) || InCall(Call(c, r, 3), p)
    {
      if m > 0 { assert calls[0] == Call(a, m, 3); }
      if k > 0 { assert calls[|x|] == Call(b, k, 2); }
      if r > 0 { assert calls[|x| + |y|] == Call(c, r, 3); }
    }
  }

  /** More pages than the range has: the page behind the range is touched. */
  lemma Overshoots(address: nat, size: nat)
    requires address % PAGE_SIZE == 0 && address + size <= PAGE_LIMIT * PAGE_SIZE
    requires !ByteCountHarmless(address, size) && GapToBlock(address) * PAGE_SIZE > size
    ensures !TouchesExactly(CallsAsWritten(address, size), address / PAGE_SIZE, address / PAGE_SIZE + size / PAGE_SIZE)
  {
    var calls := CallsAsWritten(address, size);
    var gap := GapToBlock(address);
    InsertGeometry(address, size);
    assert gap < RegionSize(2);
    var p := address / PAGE_SIZE + size / PAGE_SIZE;
    assert calls[0] == Call(address, gap, 3);
    assert InCall(calls[0], p);
    assert Touches(calls, p);
  }

  /** The blocks start in the middle of a slot: between the last block and the last pages nothing is
      touched. */
  lemma LeavesHole(address: nat, size: nat)
    requires address % PAGE_SIZE == 0 && address + size <= PAGE_LIMIT * PAGE_SIZE
    requires !ByteCountHarmless(address, size) && GapToBlock(address) * PAGE_SIZE <= size
    ensures !TouchesExactly(CallsAsWritten(address, size), address / PAGE_SIZE, address / PAGE_SIZE + size / PAGE_SIZE)
  {
    hide CallIf, Touches, GapToBlock, InCall, CallsAsWritten;
    var gap := GapToBlock(address);
    InsertGeometry(address, size);
    var left := size - gap * PAGE_SIZE;
    var blocks := left / RegionSize(2);
    var b := address + gap * PAGE_SIZE;
    CallsThree(address, size);
    TouchesThree(address, gap, b, blocks, b + blocks * RegionSize(2), (left - blocks * RegionSize(2)) / PAGE_SIZE);
    Hole(address, size, gap);
  }

  lemma Hole(address: nat, size: nat, gap: nat)
    requires address % PAGE_SIZE == 0 && gap % PAGE_SIZE == 0 && gap > 0 && address % RegionSize(2) != 0
    requires gap * PAGE_SIZE + RegionSize(2) <= size
    ensures
      var left := size - gap * PAGE_SIZE;
      var blocks := left / RegionSize(2);
      var b := address + gap * PAGE_SIZE;
      var rest := (left - blocks * RegionSize(2)) / PAGE_SIZE;
      var p := b / RegionSize(2) * 512 + blocks * 512;
      && address / PAGE_SIZE <= p < address / PAGE_SIZE + size / PAGE_SIZE
      && !InCall(Call(address, gap, 3), p) && !InCall(Call(b, blocks, 2), p)
      && !InCall(Call(b + blocks * RegionSize(2), rest, 3), p)
  {
    var g, q, r := gap / PAGE_SIZE, address / RegionSize(2), address / PAGE_SIZE % 512;
    var b, blocks := address + gap * PAGE_SIZE, (size - gap * PAGE_SIZE) / RegionSize(2);
    PagesOfAddress(address);
    assert b == (q + 8 * g) * RegionSize(2) + r * PAGE_SIZE;
    DivUnique(b, RegionSize(2), q + 8 * g, r * PAGE_SIZE);
    DivUnique(b + blocks * RegionSize(2), PAGE_SIZE, (q + 8 * g + blocks) * 512 + r, 0);
    assert size / PAGE_SIZE >= gap + blocks * 512;
    assert blocks > 0;
  }

  lemma PagesOfAddress(address: nat)
    requires address % PAGE_SIZE == 0
    ensures
      var q, r := address / RegionSize(2), address / PAGE_SIZE % 512;
      && address == q * RegionSize(2) + r * PAGE_SIZE && address / PAGE_SIZE == q * 512 + r
      && (r == 0 <==> address % RegionSize(2) == 0)
  {
    var n := address / PAGE_SIZE;
    assert address == n * PAGE_SIZE;
    DivUnique(address, RegionSize(2), n / 512, n % 512 * PAGE_SIZE);
  }

  /** Mapping 2 MB + 4 KB from one page below a block boundary touches 4096 pages. */
  lemma CallsExample()
    ensures CallsAsWritten(0x1F_F000, 0x20_1000)[0] == Call(0x1F_F000, 4096, 3)
  {
  }
}
