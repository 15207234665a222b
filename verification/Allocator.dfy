/** The page frame allocator: a bitmap of claimed pages with first-fit search. */
module Allocator {
  import opened Arithmetic
  import opened BitWord
  import opened FrameSet

  datatype Option<T> = None | Some(value: T)

  const UINT32: nat := 0x1_0000_0000

  function RangePages(fromPage: nat, toPage: nat): nat
    requires fromPage <= toPage
  {
    if fromPage == toPage then 1 else toPage - fromPage
  }

  function RangeEnd(fromPage: nat, toPage: nat): nat
    requires fromPage <= toPage
  {
    fromPage + RangePages(fromPage, toPage)
  }

  lemma NothingClaimed(words: seq<bv64>)
    requires forall i :: 0 <= i < |words| ==> words[i] == 0
    ensures Claimed(words) == {}
  {
    hide Bit;
    forall p: nat
      ensures p !in Claimed(words)
    {
      ZeroBit(p % 64);
    }
  }

  // ---- the search -----------------------------------------------------------------------------

  /** The first number - left pages of the candidate are free, the next page to look at is bit offset
      of word entry, and no candidate before this one fits. */
  ghost predicate Searching(claimed: set<nat>, total: nat, number: nat, align: nat,
                            page: nat, offset: nat, entry: nat, left: nat)
  {
    && align > 0 && page % align == 0 && left <= number && offset < 64
    && (left > 0 ==> 64 * entry + offset == page + (number - left))
    && (left < number ==> page + (number - left) <= total) && (number == 0 ==> page == 0)
    && Run(page, number - left) !! claimed
    && forall r: nat :: r < page && r % align == 0 ==> !Fits(claimed, total, number, r)
  }

  lemma SearchStarts(claimed: set<nat>, total: nat, number: nat, align: nat)
    requires PowerOfTwo(align)
    ensures Searching(claimed, total, number, align, 0, 0, 0, number)
  {
  }

  lemma SearchPosition(claimed: set<nat>, total: nat, number: nat, align: nat,
                       page: nat, offset: nat, entry: nat, left: nat)
    requires Searching(claimed, total, number, align, page, offset, entry, left)
    requires left > 0 && 64 * entry < total && total % 64 == 0
    ensures page < total && align > 0
  {
  }

  lemma SearchFits(claimed: set<nat>, total: nat, number: nat, align: nat,
                   page: nat, offset: nat, entry: nat, left: nat)
    requires Searching(claimed, total, number, align, page, offset, entry, left)
    requires left > 0 && 64 * entry + 64 <= total
    requires Run(64 * entry + offset, Min(64 - offset, left)) !! claimed
    ensures Searching(claimed, total, number, align, page, 0, entry + 1, left - Min(64 - offset, left))
  {
    RunGrows(page, number - left, Min(64 - offset, left));
  }

  /** A claimed page at distance checked or more from the candidate rules out every candidate up to
      the skip. */
  lemma SearchSkips(claimed: set<nat>, total: nat, number: nat, align: nat,
                    page: nat, offset: nat, entry: nat, left: nat)
    requires Searching(claimed, total, number, align, page, offset, entry, left)
    requires left > 0 && !(Run(64 * entry + offset, Min(64 - offset, left)) !! claimed)
    ensures
      var checked := number - left;
      var page' := page + if checked > align then AlignUp(checked, align) else align;
      page < page' && Searching(claimed, total, number, align, page', page' % 64, page' / 64, number)
  {
    var checked := number - left;
    var skip := if checked > align then AlignUp(checked, align) else align;
    AlignUpIsLeast(checked, align);
    var blocked :| blocked in Run(64 * entry + offset, Min(64 - offset, left)) && blocked in claimed;
    assert page + checked <= blocked < page + number;
    AddMultiples(page, skip, align);
    forall r: nat | r < page + skip && r % align == 0
      ensures !Fits(claimed, total, number, r)
    {
      if r >= page {
        MultiplesApart(r, page + skip, align);
        if r > page {
          MultiplesApart(page, r, align);
        }
        assert r <= blocked < r + number;
        assert blocked in Run(r, number);
      }
    }
    RunEmpty(page + skip);
  }

  /** With room for one more alignment behind the last page, the 32-bit arithmetic of the skip does not
      wrap. */
  lemma SearchBelow(claimed: set<nat>, total: nat, number: nat, align: nat,
                    page: nat, offset: nat, entry: nat, left: nat)
    requires Searching(claimed, total, number, align, page, offset, entry, left)
    requires left > 0 && page < total && total + align <= UINT32
    ensures
      var checked := number - left;
      var skip := if checked > align then AlignUp(checked, align) else align;
      skip % UINT32 == skip && (page + skip) % UINT32 == page + skip
  {
    hide AlignUp;
    AlignUpIsLeast(number - left, align);
  }

  lemma SearchEnds(claimed: set<nat>, total: nat, number: nat, align: nat,
                   page: nat, offset: nat, entry: nat, left: nat)
    requires Searching(claimed, total, number, align, page, offset, entry, left)
    requires left == 0 || 64 * entry >= total
    ensures left == 0 ==> page + number <= total && FirstFit(claimed, total, number, align, page)
    ensures left > 0 ==> NoFit(claimed, total, number, align)
  {
  }

  // ---- words and runs -------------------------------------------------------------------------

  lemma RunOne(page: nat)
    ensures Run(page, 1) == {page}
  {
  }

  lemma FreeInWord(words: seq<bv64>, entry: nat, offset: nat, number: nat)
    requires entry < |words| && offset + number <= 64
    ensures And(words[entry], Mask(number, offset)) == 0 <==> Run(64 * entry + offset, number) !! Claimed(words)
  {
    hide Bit, And, Mask, Claimed, Run;
    MaskedZero(words[entry], number, offset);
    forall j: nat | j < 64
      ensures Bit(words[entry], j) <==> 64 * entry + j in Claimed(words)
    {
      ClaimedBit(words, entry, j);
    }
    RunMembers(64 * entry + offset, number);
    if Run(64 * entry + offset, number) !! Claimed(words) {
      forall j | 0 <= j < 64 && offset <= j < offset + number
        ensures !Bit(words[entry], j)
      {
        assert 64 * entry + j in Run(64 * entry + offset, number);
      }
    } else {
      var p :| p in Run(64 * entry + offset, number) && p in Claimed(words);
      assert Bit(words[entry], p - 64 * entry);
    }
  }

  lemma ClaimedBit(words: seq<bv64>, entry: nat, j: nat)
    requires entry < |words| && j < 64
    ensures Bit(words[entry], j) <==> 64 * entry + j in Claimed(words)
  {
    hide Bit;
    assert (64 * entry + j) / 64 == entry && (64 * entry + j) % 64 == j;
  }

  lemma RunMembers(page: nat, number: nat)
    ensures forall q :: q in Run(page, number) <==> page <= q < page + number
  {
  }

  lemma FullWord(words: seq<bv64>, entry: nat)
    requires entry < |words|
    ensures words[entry] == PAGE_FULL ==> forall r: nat :: 64 * entry <= r < 64 * entry + 64 ==> r in Claimed(words)
  {
    hide Bit;
    FullBits(words[entry]);
    if words[entry] == PAGE_FULL {
      forall r: nat | 64 * entry <= r < 64 * entry + 64
        ensures r in Claimed(words)
      {
        assert r / 64 == entry;
        assert Bit(words[entry], r % 64);
      }
    }
  }

  /** Counting the leading zeros of the negated word finds its first free page. */
  lemma FirstClear(words: seq<bv64>, entry: nat)
    requires entry < |words| && words[entry] != PAGE_FULL
    ensures
      var pos := LeadingZeros(AndNot(PAGE_FULL, words[entry]), 64);
      && pos < 64
      && 64 * entry + pos !in Claimed(words)
      && forall r: nat :: 64 * entry <= r < 64 * entry + pos ==> r in Claimed(words)
  {
    hide Bit, AndNot;
    var w := words[entry];
    var negated := AndNot(PAGE_FULL, w);
    var pos := LeadingZeros(negated, 64);
    forall j | 0 <= j < 64
      ensures Bit(negated, j) <==> !Bit(w, j)
    {
      AndNotBitRec(PAGE_FULL, w, j);
      OnesBit(j);
    }
    FullBits(w);
    assert (64 * entry + pos) / 64 == entry + pos / 64;
    forall r: nat | 64 * entry <= r < 64 * entry + pos
      ensures r in Claimed(words)
    {
      assert r / 64 == entry && r % 64 == r - 64 * entry;
      assert Bit(w, r % 64);
    }
  }

  /** Whether the run that the narrow search picked is claimed in part already. */
  lemma SearchedRun(words: seq<bv64>, number: nat, align: nat, page: nat)
    requires align > 0 && FirstFit(Visible(Claimed(words)), 64 * |words|, number, align, page)
    ensures
      var claimed, total := Claimed(words), 64 * |words|;
      && (FirstFit(claimed, total, number, align, page) <==> NarrowHarmless(claimed, total, number, align))
      && ((exists p :: page <= p < page + number && IsClaimed(words, p)) <==> !NarrowHarmless(claimed, total, number, align))
  {
    hide Visible, Hidden, NarrowHarmless, IsClaimed, Run;
    var claimed, total := Claimed(words), 64 * |words|;
    NarrowRun(claimed, total, number, align, page);
    forall r: nat | r < page && r % align == 0
      ensures !Fits(claimed, total, number, r)
    {
      HiddenFits(claimed, total, number, r);
    }
    RunMembers(page, number);
    if Run(page, number) !! claimed {
      forall p | page <= p < page + number
        ensures !IsClaimed(words, p)
      {
        assert p in Run(page, number);
      }
    } else {
      var p :| p in Run(page, number) && p in claimed;
      assert IsClaimed(words, p);
    }
  }

  lemma AllClaimed(claimed: set<nat>, total: nat)
    requires forall r: nat :: r < total ==> r in claimed
    ensures NoFit(claimed, total, 1, 1)
  {
    forall r: nat
      ensures !Fits(claimed, total, 1, r)
    {
      assert r in Run(r, 1);
    }
  }

  lemma RunEmpty(page: nat)
    ensures Run(page, 0) == {}
  {
  }

  lemma FreedNone(page: nat)
    ensures FreedAsWritten(page, 0) == {}
  {
  }

  lemma FreedIsRun(page: nat, number: nat)
    requires page % 64 == 0 || page % 64 + number <= 64
    ensures FreedAsWritten(page, number) == Run(page, number)
  {
  }

  /** One more word of the free loop. */
  lemma FreedGrows(page: nat, done: nat, more: nat, entry: nat)
    requires done == 0 ==> entry == page / 64 && page % 64 + more <= 64
    requires done > 0 ==> 64 * entry == page + done && 0 < more <= 64
    ensures
      var offset := page % 64;
      FreedAsWritten(page, done + more) ==
      FreedAsWritten(page, done) + Run(64 * entry + offset, if offset + more <= 64 then more else 64 - offset)
  {
    var offset := page % 64;
    var step := Run(64 * entry + offset, if offset + more <= 64 then more else 64 - offset);
    forall q: nat
      ensures q in FreedAsWritten(page, done + more) <==> q in FreedAsWritten(page, done) || q in step
    {
    }
  }

  lemma RunGrows(page: nat, a: nat, b: nat)
    ensures Run(page, a) + Run(page + a, b) == Run(page, a + b)
  {
  }

  /** s_bitmap, s_bitmap_entry_count (the length of the array) and s_page_size. */
  class Allocator {
    const bitmap: array<bv64>
    const pageSize: nat

    ghost predicate Valid() {
      pageSize > 0 && 64 * bitmap.Length < UINT32
    }

    /** The pages that the bitmap tracks. */
    function Total(): nat {
      64 * bitmap.Length
    }

    ghost function Set(): set<nat>
      reads bitmap
    {
      Claimed(bitmap[..])
    }

    /** memory_allocator_get_page_number: the kernel-space bits are masked off. */
    function PageNumber(address: nat): nat
      requires pageSize > 0
    {
      (address % KERNEL_SPACE) / pageSize % UINT32
    }

    /** memory_allocator_claim_multiple_pages. */
    method ClaimMultiplePages(page: nat, number: nat)
      requires Valid() && page + number <= Total()
      modifies bitmap
      ensures Set() == old(Set()) + Run(page, number)
    {
      hide Claimed, Run, Mask, Or;
      var count: nat := number;
      var entry: nat := page / 64;
      var offset: nat := page % 64;
      var pagesToClaim: nat := Min(64 - offset, count);
      RunEmpty(page);
      while count > 0
        invariant count <= number
        invariant count > 0 ==> 64 * entry + offset == page + (number - count)
        invariant count > 0 ==> offset < 64 && pagesToClaim == Min(64 - offset, count)
        invariant Claimed(bitmap[..]) == Claimed(old(bitmap[..])) + Run(page, number - count)
      {
        ghost var words := bitmap[..];
        var mask := Mask(pagesToClaim, offset);
        bitmap[entry] := Or(bitmap[entry], mask);
        ClaimWord(words, bitmap[..], entry, offset, pagesToClaim);
        RunGrows(page, number - count, pagesToClaim);
        entry := entry + 1;
        count := count - pagesToClaim;
        pagesToClaim := Min(64, count);
        offset := 0;
      }
    }

    /** memory_allocator_free_multiple_pages, which leaves offset as it is between the words. */
    method FreeMultiplePages(page: nat, number: nat)
      requires Valid() && page + number <= Total()
      modifies bitmap
      ensures Set() == old(Set()) - FreedAsWritten(page, number)
      ensures page % 64 == 0 || page % 64 + number <= 64 ==> Set() == old(Set()) - Run(page, number)
    {
      hide Claimed, Run, Mask, AndNot;
      var count: nat := number;
      var entry: nat := page / 64;
      var offset: nat := page % 64;
      var pagesToFree: nat := Min(64 - offset, count);
      FreedNone(page);
      while count > 0
        invariant count <= number && offset == page % 64
        invariant count == number ==> entry == page / 64 && pagesToFree == Min(64 - offset, count)
        invariant count < number ==> pagesToFree == Min(64, count)
        invariant 0 < count < number ==> 64 * entry == page + (number - count)
        invariant Claimed(bitmap[..]) == Claimed(old(bitmap[..])) - FreedAsWritten(page, number - count)
      {
        ghost var words := bitmap[..];
        var mask := Mask(pagesToFree, offset);
        bitmap[entry] := AndNot(bitmap[entry], mask);
        FreeWord(words, bitmap[..], entry, offset, pagesToFree);
        FreedGrows(page, number - count, pagesToFree, entry);
        entry := entry + 1;
        count := count - pagesToFree;
        pagesToFree := Min(64, count);
      }
      if page % 64 == 0 || page % 64 + number <= 64 {
        FreedIsRun(page, number);
      }
    }

    /** The free loop with the reset of offset that the claim loop has: it frees every range. */
    method FreeMultiplePagesReset(page: nat, number: nat)
      requires Valid() && page + number <= Total()
      modifies bitmap
      ensures Set() == old(Set()) - Run(page, number)
    {
      hide Claimed, Run, Mask, AndNot;
      var count: nat := number;
      var entry: nat := page / 64;
      var offset: nat := page % 64;
      var pagesToFree: nat := Min(64 - offset, count);
      RunEmpty(page);
      while count > 0
        invariant count <= number
        invariant count > 0 ==> 64 * entry + offset == page + (number - count)
        invariant count > 0 ==> offset < 64 && pagesToFree == Min(64 - offset, count)
        invariant Claimed(bitmap[..]) == Claimed(old(bitmap[..])) - Run(page, number - count)
      {
        ghost var words := bitmap[..];
        var mask := Mask(pagesToFree, offset);
        bitmap[entry] := AndNot(bitmap[entry], mask);
        FreeWord(words, bitmap[..], entry, offset, pagesToFree);
        RunGrows(page, number - count, pagesToFree);
        entry := entry + 1;
        count := count - pagesToFree;
        pagesToFree := Min(64, count);
        offset := 0;
      }
    }

    /** memory_allocator_claim_specific_page. */
    method ClaimSpecificPage(page: nat)
      requires Valid() && page < Total()
      modifies bitmap
      ensures Set() == old(Set()) + {page}
    {
      hide Claimed, Run, Mask, Or;
      ghost var words := bitmap[..];
      var mask := Mask(1, page % 64);
      bitmap[page / 64] := Or(bitmap[page / 64], mask);
      ClaimWord(words, bitmap[..], page / 64, page % 64, 1);
      RunOne(page);
    }

    /** memory_allocator_free_specific_page. */
    method FreeSpecificPage(page: nat)
      requires Valid() && page < Total()
      modifies bitmap
      ensures Set() == old(Set()) - {page}
    {
      hide Claimed, Run, Mask, AndNot;
      ghost var words := bitmap[..];
      var mask := Mask(1, page % 64);
      bitmap[page / 64] := AndNot(bitmap[page / 64], mask);
      FreeWord(words, bitmap[..], page / 64, page % 64, 1);
      RunOne(page);
    }

    /** memory_allocator_claim_page: skips full words and counts leading zeros in the first other one.
        The result is NULL (None) or the address of the page. */
    method ClaimPage() returns (address: Option<nat>)
      requires Valid()
      modifies bitmap
      ensures address.None? ==> NoFit(old(Set()), Total(), 1, 1) && Set() == old(Set())
      ensures address.Some? ==> exists page ::
                && address.value == page * pageSize
                && FirstFit(old(Set()), Total(), 1, 1, page)
                && Set() == old(Set()) + Run(page, 1)
    {
      hide Claimed, Run, FirstFit, NoFit, Fits, AndNot, Bit;
      var entryIdx: nat := 0;
      while entryIdx < bitmap.Length
        invariant entryIdx <= bitmap.Length
        invariant bitmap[..] == old(bitmap[..])
        invariant forall r: nat :: r < 64 * entryIdx ==> r in Claimed(bitmap[..])
      {
        var currentEntry := bitmap[entryIdx];
        FullWord(bitmap[..], entryIdx);
        if currentEntry == PAGE_FULL {
          entryIdx := entryIdx + 1;
          continue;
        }
        var pos := LeadingZeros(AndNot(PAGE_FULL, currentEntry), 64);
        var page := entryIdx * 64 + pos;
        FirstClear(bitmap[..], entryIdx);
        LeastFreePage(Set(), Total(), page);
        ClaimSpecificPage(page);
        RunOne(page);
        return Some(page * pageSize);
      }
      AllClaimed(Set(), Total());
      return None;
    }

    /** The general search of memory_allocator_claim_pages, with a 64-bit current_entry. */
    method SearchPages(number: nat, align: nat) returns (address: Option<nat>)
      requires Valid() && PowerOfTwo(align) && Total() + align <= UINT32
      modifies bitmap
      ensures address.None? ==> NoFit(old(Set()), Total(), number, align) && Set() == old(Set())
      ensures address.Some? ==> exists page ::
                && address.value == page * pageSize
                && FirstFit(old(Set()), Total(), number, align, page)
                && Set() == old(Set()) + Run(page, number)
    {
      hide Claimed, Run, FirstFit, NoFit, Fits, And, Mask, Searching, AlignUp, PowerOfTwo;
      var currentPage: nat := 0;
      var offset: nat := 0;
      var pagesLeft: nat := number;
      var entryIdx: nat := 0;
      SearchStarts(Set(), Total(), number, align);
      while pagesLeft > 0 && entryIdx < bitmap.Length
        invariant bitmap[..] == old(bitmap[..]) && pagesLeft <= number && offset < 64
        invariant Searching(Set(), Total(), number, align, currentPage, offset, entryIdx, pagesLeft)
        decreases Total() + 1 - currentPage, pagesLeft
      {
        var pagesToClaim := Min(64 - offset, pagesLeft);
        var currentEntry := bitmap[entryIdx];
        var currentMask := Mask(pagesToClaim, offset);
        FreeInWord(bitmap[..], entryIdx, offset, pagesToClaim);
        SearchPosition(Set(), Total(), number, align, currentPage, offset, entryIdx, pagesLeft);
        if And(currentEntry, currentMask) == 0 {
          SearchFits(Set(), Total(), number, align, currentPage, offset, entryIdx, pagesLeft);
          pagesLeft := pagesLeft - pagesToClaim;
          entryIdx := entryIdx + 1;
          offset := 0;
        } else {
          SearchSkips(Set(), Total(), number, align, currentPage, offset, entryIdx, pagesLeft);
          SearchBelow(Set(), Total(), number, align, currentPage, offset, entryIdx, pagesLeft);
          var checkedPages := number - pagesLeft;
          var skip := if checkedPages > align then AlignUp(checkedPages, align) % UINT32 else align;
          currentPage := (currentPage + skip) % UINT32;
          offset := currentPage % 64;
          entryIdx := currentPage / 64;
          pagesLeft := number;
        }
      }
      SearchEnds(Set(), Total(), number, align, currentPage, offset, entryIdx, pagesLeft);
      if pagesLeft == 0 {
        ClaimMultiplePages(currentPage, number);
        return Some(currentPage * pageSize);
      }
      return None;
    }

    /** memory_allocator_claim_pages: one page without alignment takes the fast path. */
    method ClaimPages(number: nat, align: nat) returns (address: Option<nat>)
      requires Valid() && PowerOfTwo(align) && Total() + align <= UINT32
      modifies bitmap
      ensures address.None? ==> NoFit(old(Set()), Total(), number, align) && Set() == old(Set())
      ensures address.Some? ==> exists page ::
                && address.value == page * pageSize
                && FirstFit(old(Set()), Total(), number, align, page)
                && Set() == old(Set()) + Run(page, number)
    {
      if number == 1 && align == 1 {
        address := ClaimPage();
      } else {
        address := SearchPages(number, align);
      }
    }

    /** The search of memory_allocator_claim_pages as written: current_entry is a uint32_t, so it sees only
        pages 32..63 of every word and may claim pages that are claimed already. overlaps says that it does. */
    method SearchPagesAsWritten(number: nat, align: nat) returns (address: Option<nat>, overlaps: bool)
      requires Valid() && PowerOfTwo(align) && Total() + align <= UINT32
      modifies bitmap
      ensures overlaps <==> !NarrowHarmless(old(Set()), Total(), number, align)
      ensures address.None? ==> NoFit(old(Set()), Total(), number, align) && Set() == old(Set()) && !overlaps
      ensures address.Some? ==> exists page ::
                && address.value == page * pageSize
                && FirstFit(Visible(old(Set())), Total(), number, align, page)
                && (FirstFit(old(Set()), Total(), number, align, page) <==> !overlaps)
                && Set() == old(Set()) + Run(page, number)
    {
      hide Claimed, Run, FirstFit, NoFit, Fits, And, Mask, Searching, AlignUp, Low32, Visible, NarrowHarmless, PowerOfTwo;
      var currentPage: nat := 0;
      var offset: nat := 0;
      var pagesLeft: nat := number;
      var entryIdx: nat := 0;
      ghost var seen := Visible(Set());
      SearchStarts(seen, Total(), number, align);
      while pagesLeft > 0 && entryIdx < bitmap.Length
        invariant bitmap[..] == old(bitmap[..]) && pagesLeft <= number && offset < 64
        invariant Searching(seen, Total(), number, align, currentPage, offset, entryIdx, pagesLeft)
        decreases Total() + 1 - currentPage, pagesLeft
      {
        var pagesToClaim := Min(64 - offset, pagesLeft);
        var currentEntry := Low32(bitmap[entryIdx]);
        var currentMask := Mask(pagesToClaim, offset);
        VisibleWords(bitmap[..]);
        FreeInWord(LowWords(bitmap[..]), entryIdx, offset, pagesToClaim);
        SearchPosition(seen, Total(), number, align, currentPage, offset, entryIdx, pagesLeft);
        if And(currentEntry, currentMask) == 0 {
          SearchFits(seen, Total(), number, align, currentPage, offset, entryIdx, pagesLeft);
          pagesLeft := pagesLeft - pagesToClaim;
          entryIdx := entryIdx + 1;
          offset := 0;
        } else {
          SearchSkips(seen, Total(), number, align, currentPage, offset, entryIdx, pagesLeft);
          SearchBelow(seen, Total(), number, align, currentPage, offset, entryIdx, pagesLeft);
          var checkedPages := number - pagesLeft;
          var skip := if checkedPages > align then AlignUp(checkedPages, align) % UINT32 else align;
          currentPage := (currentPage + skip) % UINT32;
          offset := currentPage % 64;
          entryIdx := currentPage / 64;
          pagesLeft := number;
        }
      }
      SearchEnds(seen, Total(), number, align, currentPage, offset, entryIdx, pagesLeft);
      if pagesLeft == 0 {
        SearchedRun(bitmap[..], number, align, currentPage);
        overlaps := exists p :: currentPage <= p < currentPage + number && IsClaimed(bitmap[..], p);
        ClaimMultiplePages(currentPage, number);
        return Some(currentPage * pageSize), overlaps;
      }
      NarrowNoFit(Set(), Total(), number, align);
      return None, false;
    }

    /** memory_allocator_claim_pages as written: one page without alignment takes the fast path, which
        reads whole words. */
    method ClaimPagesAsWritten(number: nat, align: nat) returns (address: Option<nat>, overlaps: bool)
      requires Valid() && PowerOfTwo(align) && Total() + align <= UINT32
      modifies bitmap
      ensures overlaps <==> !ClaimHarmless(old(Set()), Total(), number, align)
      ensures address.None? ==> NoFit(old(Set()), Total(), number, align) && Set() == old(Set()) && !overlaps
      ensures address.Some? ==> exists page ::
                && address.value == page * pageSize
                && FirstFit(Seen(old(Set()), number, align), Total(), number, align, page)
                && (FirstFit(old(Set()), Total(), number, align, page) <==> !overlaps)
                && Set() == old(Set()) + Run(page, number)
    {
      hide Claimed, Run, NoFit, FirstFit, NarrowHarmless, Visible;
      if number == 1 && align == 1 {
        address := ClaimPage();
        overlaps := false;
      } else {
        address, overlaps := SearchPagesAsWritten(number, align);
      }
    }

    /** memory_allocator_claim_range: an empty range claims one page. */
    method ClaimRange(from: nat, to: nat)
      requires Valid() && from % pageSize == 0 && to % pageSize == 0
      requires PageNumber(from) <= PageNumber(to) && RangeEnd(PageNumber(from), PageNumber(to)) <= Total()
      modifies bitmap
      ensures Set() == old(Set()) + Run(PageNumber(from), RangePages(PageNumber(from), PageNumber(to)))
      ensures PageNumber(from) == PageNumber(to) ==> Set() == old(Set()) + {PageNumber(from)}
      ensures PageNumber(from) < PageNumber(to) ==>
                forall p :: p in Set() <==> p in old(Set()) || PageNumber(from) <= p < PageNumber(to)
    {
      hide Claimed;
      RunOne(PageNumber(from));
      var fromPage := PageNumber(from);
      var toPage := PageNumber(to);
      var pagesToClaim := toPage - fromPage;
      if pagesToClaim == 0 {
        pagesToClaim := pagesToClaim + 1;
      }
      ClaimMultiplePages(fromPage, pagesToClaim);
    }

    /** memory_allocator_free_pages. */
    method FreePages(address: nat, count: nat)
      requires Valid() && PageNumber(address) + count <= Total()
      modifies bitmap
      ensures Set() == old(Set()) - FreedAsWritten(PageNumber(address), count)
      ensures PageNumber(address) % 64 == 0 || PageNumber(address) % 64 + count <= 64 ==>
                Set() == old(Set()) - Run(PageNumber(address), count)
    {
      var fromPage := PageNumber(address);
      FreeMultiplePages(fromPage, count);
    }

    /** memory_allocator_init: an all-zero bitmap at the given address that claims its own pages. */
    constructor (address: nat, numberOfPages: nat, size: nat)
      requires size > 0 && numberOfPages < UINT32 && address % size == 0
      requires
        var from := address % KERNEL_SPACE / size % UINT32;
        var to := AlignUp(address + 8 * (numberOfPages / 64), size) % KERNEL_SPACE / size % UINT32;
        from <= to && RangeEnd(from, to) <= 64 * (numberOfPages / 64)
      ensures Valid() && fresh(bitmap) && pageSize == size && Total() == 64 * (numberOfPages / 64)
      ensures
        var from := PageNumber(address);
        var to := PageNumber(AlignUp(address + 8 * (numberOfPages / 64), size));
        Set() == Run(from, RangePages(from, to))
    {
      bitmap := new bv64[numberOfPages / 64](i => 0);
      pageSize := size;
      new;
      NothingClaimed(bitmap[..]);
      var bitmapEnd := address + bitmap.Length * 8;
      AlignUpIsLeast(bitmapEnd, size);
      ClaimRange(address, AlignUp(bitmapEnd, size));
    }
  }
}
