/** What the bitmap stands for: the set of claimed page frames, and runs of frames in it. */
module FrameSet {
  import opened Arithmetic
  import opened BitWord

  /** The bit of page p. */
  predicate IsClaimed(words: seq<bv64>, p: nat) {
    p / 64 < |words| && Bit(words[p / 64], p % 64)
  }

  ghost function Claimed(words: seq<bv64>): set<nat> {
    set p: nat | p < 64 * |words| && IsClaimed(words, p)
  }

  predicate InRun(page: nat, number: nat, q: nat) { page <= q < page + number }

  function Run(page: nat, number: nat): set<nat> {
    set q: nat | page <= q < page + number && InRun(page, number, q)
  }

  /** All pages of the run that starts at s are tracked and free. */
  ghost predicate Fits(claimed: set<nat>, total: nat, number: nat, s: nat) {
    s + number <= total && Run(s, number) !! claimed
  }

  /** s is the lowest multiple of align where number pages fit. */
  ghost predicate FirstFit(claimed: set<nat>, total: nat, number: nat, align: nat, s: nat)
    requires align > 0
  {
    && s % align == 0 && Fits(claimed, total, number, s)
    && forall r: nat :: r < s && r % align == 0 ==> !Fits(claimed, total, number, r)
  }

  ghost predicate NoFit(claimed: set<nat>, total: nat, number: nat, align: nat)
    requires align > 0
  {
    forall r: nat :: r % align == 0 ==> !Fits(claimed, total, number, r)
  }

  /** The bitmap is determined by the set it stands for. */
  lemma SameSetSameWords(a: seq<bv64>, b: seq<bv64>)
    requires |a| == |b| && Claimed(a) == Claimed(b)
    ensures a == b
  {
    hide Bit;
    forall i | 0 <= i < |a|
      ensures a[i] == b[i]
    {
      forall j | 0 <= j < 64
        ensures Bit(a[i], j) <==> Bit(b[i], j)
      {
        var p := 64 * i + j;
        assert p / 64 == i && p % 64 == j;
        assert p in Claimed(a) <==> IsClaimed(a, p);
        assert p in Claimed(b) <==> IsClaimed(b, p);
      }
      Extensional(a[i], b[i]);
    }
  }

  /** s_bitmap[entry] |= mask. */
  lemma ClaimWord(words: seq<bv64>, words': seq<bv64>, entry: nat, offset: nat, number: nat)
    requires entry < |words| && number <= 64 && offset + number <= 64
    requires words' == words[entry := Or(words[entry], Mask(number, offset))]
    ensures Claimed(words') == Claimed(words) + Run(64 * entry + offset, number)
  {
    hide Bit, Or, Mask;
    forall p: nat
      ensures p in Claimed(words') <==> p in Claimed(words) || p in Run(64 * entry + offset, number)
    {
      if p / 64 == entry {
        OrBitRec(words[entry], Mask(number, offset), p % 64);
        MaskBit(number, offset, p % 64);
      }
    }
  }

  /** s_bitmap[entry] &= ~mask; a mask that runs over the end of the word is cut off there. */
  lemma FreeWord(words: seq<bv64>, words': seq<bv64>, entry: nat, offset: nat, number: nat)
    requires entry < |words| && number <= 64 && offset <= 64
    requires words' == words[entry := AndNot(words[entry], Mask(number, offset))]
    ensures Claimed(words') == Claimed(words) - Run(64 * entry + offset, if offset + number <= 64 then number else 64 - offset)
  {
    hide Bit, AndNot, Mask;
    forall p: nat
      ensures p in Claimed(words') <==>
              p in Claimed(words) && p !in Run(64 * entry + offset, if offset + number <= 64 then number else 64 - offset)
    {
      if p / 64 == entry {
        AndNotBitRec(words[entry], Mask(number, offset), p % 64);
        MaskBit(number, offset, p % 64);
      }
    }
  }

  // ---- the free loop as written -------------------------------------------------------------

  /** memory_allocator_free_multiple_pages never resets offset, so in every word after the first the
      mask starts at the offset of the first page and is cut off at the end of the word. */
  function FreedAsWritten(page: nat, count: nat): set<nat> {
    set q: nat | page <= q < page + count + page % 64 && InFreedWords(page, count, q)
  }

  predicate InFreedWords(page: nat, count: nat, q: nat) {
    if q / 64 == page / 64 then q < page + count
    else q % 64 >= page % 64 && 64 * (q / 64) < page + count
  }

  /** The free loop meets its purpose exactly when the range starts a word or stays in one word. */
  lemma FreedAsWrittenIff(claimed: set<nat>, page: nat, count: nat)
    requires Run(page, count) <= claimed
    ensures claimed - FreedAsWritten(page, count) == claimed - Run(page, count)
            <==> page % 64 == 0 || page % 64 + count <= 64
  {
    if page % 64 == 0 || page % 64 + count <= 64 {
      assert FreedAsWritten(page, count) == Run(page, count);
    } else {
      FreedMisses(page, count);
      var q := 64 * (page / 64 + 1);
      assert q in claimed - FreedAsWritten(page, count);
      assert q !in claimed - Run(page, count);
    }
  }

  /** The first page of the second word is left out when the range starts inside the first. */
  lemma FreedMisses(page: nat, count: nat)
    requires page % 64 != 0 && page % 64 + count > 64
    ensures
      var q := 64 * (page / 64 + 1);
      q in Run(page, count) && q !in FreedAsWritten(page, count)
  {
    var q := 64 * (page / 64 + 1);
    assert q % 64 == 0;
  }

  /** Freeing 2 pages from page 63 leaves page 64 claimed, and freeing 40 pages from page 33 leaves page 64
      claimed and frees page 97 behind the range. */
  lemma FreedAsWrittenLeaks()
    ensures 64 in Run(63, 2) && 64 !in FreedAsWritten(63, 2)
    ensures 64 in Run(33, 40) && 64 !in FreedAsWritten(33, 40)
    ensures 97 !in Run(33, 40) && 97 in FreedAsWritten(33, 40)
  {
  }

  /** In the first word the range is freed, in every word after it the pages of the range are freed shifted by
      the offset of the first page, as far as they stay in the word. */
  lemma FreedShifted(page: nat, count: nat, q: nat)
    ensures q / 64 == page / 64 ==> (q in FreedAsWritten(page, count) <==> q in Run(page, count))
    ensures q / 64 != page / 64 ==>
              (q in FreedAsWritten(page, count) <==> q % 64 >= page % 64 && q - page % 64 in Run(page, count))
  {
    var r := q - page % 64;
    if q % 64 >= page % 64 {
      assert r / 64 == q / 64;
    }
  }

  // ---- the narrow search as written ---------------------------------------------------------

  /** The pages that memory_allocator_claim_pages can see through its uint32_t current_entry. */
  ghost function Visible(claimed: set<nat>): set<nat> {
    set p | p in claimed && p % 64 >= 32
  }

  ghost function LowWords(words: seq<bv64>): seq<bv64> {
    seq(|words|, i requires 0 <= i < |words| => Low32(words[i]))
  }

  lemma VisibleWords(words: seq<bv64>)
    ensures Claimed(LowWords(words)) == Visible(Claimed(words))
  {
    hide Bit, Low32;
    var low := LowWords(words);
    forall p: nat
      ensures p in Claimed(low) <==> p in Visible(Claimed(words))
    {
      if p / 64 < |words| {
        Low32Bit(words[p / 64], p % 64);
      }
    }
  }

  /** No page of the run at r that the narrow search can see is claimed. */
  ghost predicate Hidden(claimed: set<nat>, number: nat, r: nat) {
    Run(r, number) !! Visible(claimed)
  }

  /** Every aligned start before the first fit, or every one when nothing fits, is ruled out by a claim
      in the upper half of a word. */
  ghost predicate NarrowHarmless(claimed: set<nat>, total: nat, number: nat, align: nat)
    requires align > 0
  {
    forall r: nat :: r % align == 0 && r + number <= total && NoFitUpTo(claimed, total, number, align, r) ==>
      !Hidden(claimed, number, r)
  }

  ghost predicate NoFitUpTo(claimed: set<nat>, total: nat, number: nat, align: nat, r: nat)
    requires align > 0
  {
    forall q: nat :: q <= r && q % align == 0 ==> !Fits(claimed, total, number, q)
  }

  /** The narrow search gives the right answer, a run or NULL, exactly for harmless bitmaps. */
  lemma NarrowSearchIff(claimed: set<nat>, total: nat, number: nat, align: nat)
    requires align > 0
    ensures NarrowHarmless(claimed, total, number, align) <==>
            forall s: nat :: FirstFit(Visible(claimed), total, number, align, s) <==> FirstFit(claimed, total, number, align, s)
  {
    hide Run, Hidden, Visible;
    if NarrowHarmless(claimed, total, number, align) {
      forall s: nat
        ensures FirstFit(Visible(claimed), total, number, align, s) <==> FirstFit(claimed, total, number, align, s)
      {
        NarrowRun(claimed, total, number, align, s);
        if FirstFit(claimed, total, number, align, s) {
          FirstFitSeen(claimed, total, number, align, s);
        }
      }
    } else {
      var r: nat :| && r % align == 0 && r + number <= total && NoFitUpTo(claimed, total, number, align, r)
                    && Hidden(claimed, number, r);
      HiddenFits(claimed, total, number, r);
      var s := LeastFit(Visible(claimed), total, number, align, r);
      assert FirstFit(Visible(claimed), total, number, align, s) && !FirstFit(claimed, total, number, align, s);
    }
  }

  lemma HiddenFits(claimed: set<nat>, total: nat, number: nat, r: nat)
    ensures Fits(Visible(claimed), total, number, r) <==> r + number <= total && Hidden(claimed, number, r)
    ensures Fits(claimed, total, number, r) ==> Fits(Visible(claimed), total, number, r)
  {
  }

  lemma FirstFitSeen(claimed: set<nat>, total: nat, number: nat, align: nat, s: nat)
    requires align > 0 && NarrowHarmless(claimed, total, number, align) && FirstFit(claimed, total, number, align, s)
    ensures FirstFit(Visible(claimed), total, number, align, s)
  {
    hide Run, Hidden, Visible;
    HiddenFits(claimed, total, number, s);
    forall r: nat | r < s && r % align == 0
      ensures !Fits(Visible(claimed), total, number, r)
    {
      assert r + number <= total;
      assert NoFitUpTo(claimed, total, number, align, r);
      HiddenFits(claimed, total, number, r);
    }
  }

  /** The run that the narrow search picks is the first fit exactly for harmless bitmaps. */
  lemma NarrowRun(claimed: set<nat>, total: nat, number: nat, align: nat, s: nat)
    requires align > 0
    ensures FirstFit(Visible(claimed), total, number, align, s) ==>
              (FirstFit(claimed, total, number, align, s) <==> NarrowHarmless(claimed, total, number, align))
  {
    hide Run, Hidden, Visible;
    if FirstFit(Visible(claimed), total, number, align, s) {
      forall r: nat | r < s && r % align == 0
        ensures !Fits(claimed, total, number, r) && (r + number <= total ==> !Hidden(claimed, number, r))
      {
        HiddenFits(claimed, total, number, r);
      }
      HiddenFits(claimed, total, number, s);
      if !Fits(claimed, total, number, s) {
        assert NoFitUpTo(claimed, total, number, align, s);
      }
    }
  }

  /** When something fits, only the starts before the first fit matter. */
  lemma NarrowBeforeFit(claimed: set<nat>, total: nat, number: nat, align: nat, s: nat)
    requires align > 0 && FirstFit(claimed, total, number, align, s)
    ensures NarrowHarmless(claimed, total, number, align) <==>
            forall r: nat :: r < s && r % align == 0 ==> !Hidden(claimed, number, r)
  {
    hide Run, Hidden, Visible;
    forall r: nat | r % align == 0 && r + number <= total
      ensures NoFitUpTo(claimed, total, number, align, r) <==> r < s
    {
    }
  }

  /** What a claim looks at: the fast path for one page reads whole words, the search half words. */
  ghost function Seen(claimed: set<nat>, number: nat, align: nat): set<nat> {
    if number == 1 && align == 1 then claimed else Visible(claimed)
  }

  /** A claim as written gives the right answer. */
  ghost predicate ClaimHarmless(claimed: set<nat>, total: nat, number: nat, align: nat)
    requires align > 0
  {
    (number == 1 && align == 1) || NarrowHarmless(claimed, total, number, align)
  }

  /** The run that a claim as written picks is free exactly when it is the first fit, exactly for harmless
      claims. */
  lemma ClaimedRun(claimed: set<nat>, total: nat, number: nat, align: nat, s: nat)
    requires align > 0 && FirstFit(Seen(claimed, number, align), total, number, align, s)
    ensures FirstFit(claimed, total, number, align, s) <==> ClaimHarmless(claimed, total, number, align)
    ensures Run(s, number) !! claimed <==> ClaimHarmless(claimed, total, number, align)
  {
    hide Run, Visible, Hidden, NarrowHarmless;
    if !(number == 1 && align == 1) {
      NarrowRun(claimed, total, number, align, s);
      forall r: nat | r < s && r % align == 0
        ensures !Fits(claimed, total, number, r)
      {
        HiddenFits(claimed, total, number, r);
      }
    }
  }

  /** The lowest aligned fit at or below a fit. */
  lemma LeastFit(claimed: set<nat>, total: nat, number: nat, align: nat, r: nat) returns (s: nat)
    requires align > 0 && r % align == 0 && Fits(claimed, total, number, r)
    ensures s <= r && FirstFit(claimed, total, number, align, s)
    decreases r
  {
    hide Run, Fits;
    if q: nat :| q < r && q % align == 0 && Fits(claimed, total, number, q) {
      s := LeastFit(claimed, total, number, align, q);
    } else {
      s := r;
    }
  }

  /** With pages 0..31 claimed, a block claim of 512 pages as written returns page 0. */
  lemma NarrowSearchOverlaps(total: nat)
    requires total >= 512
    ensures FirstFit(Visible(Run(0, 32)), total, 512, 512, 0)
    ensures !FirstFit(Run(0, 32), total, 512, 512, 0)
  {
    assert 0 in Run(0, 512) && 0 in Run(0, 32);
  }

  /** A narrow search that finds nothing is right: nothing fits. */
  lemma NarrowNoFit(claimed: set<nat>, total: nat, number: nat, align: nat)
    requires align > 0 && NoFit(Visible(claimed), total, number, align)
    ensures NoFit(claimed, total, number, align) && NarrowHarmless(claimed, total, number, align)
  {
    hide Run, Hidden, Visible, Fits;
    forall r: nat | r % align == 0
      ensures !Fits(claimed, total, number, r) && (r + number <= total ==> !Hidden(claimed, number, r))
    {
      HiddenFits(claimed, total, number, r);
    }
  }

  // ---- block claims beside page claims --------------------------------------------------------

  /** The pages below b that are free. */
  ghost function FreeBelow(claimed: set<nat>, b: nat): set<nat> {
    set p: nat | p < b && p !in claimed
  }

  /** The block of 512 pages at b is free, with n free pages below it, or has a claim that the narrow
      search sees. */
  ghost predicate BlockSettled(claimed: set<nat>, n: nat, b: nat) {
    if Run(b, 512) !! claimed then |FreeBelow(claimed, b)| >= n else !Hidden(claimed, 512, b)
  }

  /** Block claims as written stay right, also between n claims of single pages. */
  ghost predicate Settled(claimed: set<nat>, total: nat, n: nat) {
    forall b: nat :: b % 512 == 0 && b + 512 <= total ==> BlockSettled(claimed, n, b)
  }

  /** From one set to the next at most k single pages were claimed, and blocks. */
  ghost predicate Spends(claimed: set<nat>, claimed': set<nat>, total: nat, k: nat) {
    forall n: nat :: n >= k && Settled(claimed, total, n) ==> Settled(claimed', total, n - k)
  }

  lemma SettledHarmless(claimed: set<nat>, total: nat, n: nat)
    requires Settled(claimed, total, n)
    ensures NarrowHarmless(claimed, total, 512, 512)
  {
    hide Run, Hidden, FreeBelow;
    forall r: nat | r % 512 == 0 && r + 512 <= total && NoFitUpTo(claimed, total, 512, 512, r)
      ensures !Hidden(claimed, 512, r)
    {
      assert !Fits(claimed, total, 512, r);
      assert BlockSettled(claimed, n, r);
    }
  }

  lemma SettledLess(claimed: set<nat>, total: nat, n: nat, m: nat)
    requires Settled(claimed, total, n) && m <= n
    ensures Settled(claimed, total, m)
  {
    hide Run, Hidden, FreeBelow;
    forall b: nat | b % 512 == 0 && b + 512 <= total
      ensures BlockSettled(claimed, m, b)
    {
      assert BlockSettled(claimed, n, b);
    }
  }

  lemma FewerFree(claimed: set<nat>, p: nat, b: nat)
    ensures |FreeBelow(claimed + {p}, b)| >= |FreeBelow(claimed, b)| - 1
  {
    var x, y := FreeBelow(claimed, b), FreeBelow(claimed + {p}, b);
    if p in x {
      assert y == x - {p};
    } else {
      assert y == x;
    }
  }

  lemma StillSeen(claimed: set<nat>, claimed': set<nat>, b: nat)
    requires claimed <= claimed' && !Hidden(claimed, 512, b)
    ensures !Hidden(claimed', 512, b)
  {
    var p :| p in Run(b, 512) && p in Visible(claimed);
    assert p in Visible(claimed');
  }

  /** The least free page lies below every block that has a free page below it. */
  lemma PageClaimSettled(claimed: set<nat>, total: nat, n: nat, p: nat)
    requires Settled(claimed, total, n) && n > 0 && FirstFit(claimed, total, 1, 1, p)
    ensures Settled(claimed + {p}, total, n - 1)
  {
    hide Hidden;
    LeastFreePage(claimed, total, p);
    forall b: nat | b % 512 == 0 && b + 512 <= total
      ensures BlockSettled(claimed + {p}, n - 1, b)
    {
      assert BlockSettled(claimed, n, b);
      if Run(b, 512) !! claimed {
        var q :| q in FreeBelow(claimed, b);
        assert p <= q < b;
        assert Run(b, 512) !! claimed + {p};
        FewerFree(claimed, p, b);
      } else {
        StillSeen(claimed, claimed + {p}, b);
        var q :| q in Run(b, 512) && q in claimed;
        assert q in claimed + {p};
      }
    }
  }

  lemma BlockClaimSettled(claimed: set<nat>, total: nat, n: nat, s: nat)
    requires Settled(claimed, total, n) && FirstFit(claimed, total, 512, 512, s)
    ensures Settled(claimed + Run(s, 512), total, n)
  {
    hide Hidden;
    var claimed' := claimed + Run(s, 512);
    forall b: nat | b % 512 == 0 && b + 512 <= total
      ensures BlockSettled(claimed', n, b)
    {
      assert BlockSettled(claimed, n, b) && BlockSettled(claimed, n, s);
      if !(Run(b, 512) !! claimed) {
        StillSeen(claimed, claimed', b);
        var q :| q in Run(b, 512) && q in claimed;
        assert q in claimed';
      } else if b == s {
        OwnClaimSeen(claimed', s);
      } else {
        assert Fits(claimed, total, 512, b);
        assert s < b && s + 512 <= b;
        assert Run(b, 512) !! claimed';
        SubsetSize(FreeBelow(claimed, s), FreeBelow(claimed', b));
      }
    }
  }

  lemma OwnClaimSeen(claimed: set<nat>, s: nat)
    requires s % 512 == 0 && Run(s, 512) <= claimed
    ensures !Hidden(claimed, 512, s) && !(Run(s, 512) !! claimed)
  {
    assert s + 32 in Run(s, 512) && (s + 32) % 64 == 32;
    assert s + 32 in Visible(claimed);
  }

  lemma SpendsNone(claimed: set<nat>, total: nat)
    ensures Spends(claimed, claimed, total, 0)
  {
  }

  lemma SpendsPage(claimed: set<nat>, total: nat, p: nat)
    requires FirstFit(claimed, total, 1, 1, p)
    ensures Spends(claimed, claimed + {p}, total, 1)
  {
    hide Settled, FirstFit;
    forall n: nat | n >= 1 && Settled(claimed, total, n)
      ensures Settled(claimed + {p}, total, n - 1)
    {
      PageClaimSettled(claimed, total, n, p);
    }
  }

  lemma SpendsBlock(claimed: set<nat>, total: nat, s: nat)
    requires FirstFit(claimed, total, 512, 512, s)
    ensures Spends(claimed, claimed + Run(s, 512), total, 0)
  {
    hide Settled, FirstFit, Run;
    forall n: nat | Settled(claimed, total, n)
      ensures Settled(claimed + Run(s, 512), total, n)
    {
      BlockClaimSettled(claimed, total, n, s);
    }
  }

  lemma SpendsClaim(claimed: set<nat>, total: nat, number: nat, s: nat)
    requires number == 1 || number == 512
    requires FirstFit(claimed, total, number, number, s)
    ensures Spends(claimed, claimed + Run(s, number), total, if number == 1 then 1 else 0)
  {
    if number == 1 {
      SpendsPage(claimed, total, s);
      assert Run(s, 1) == {s};
    } else {
      SpendsBlock(claimed, total, s);
    }
  }

  lemma SpendsThen(a: set<nat>, b: set<nat>, c: set<nat>, total: nat, k: nat, l: nat)
    requires Spends(a, b, total, k) && Spends(b, c, total, l)
    ensures Spends(a, c, total, k + l)
  {
    hide Settled;
  }

  lemma SpendsMore(a: set<nat>, b: set<nat>, total: nat, k: nat, l: nat)
    requires Spends(a, b, total, k) && k <= l
    ensures Spends(a, b, total, l)
  {
    hide Settled;
    forall n: nat | n >= l && Settled(a, total, n)
      ensures Settled(b, total, n - l)
    {
      SettledLess(b, total, n - k, n - l);
    }
  }

  /** A block claim behind k claims of single pages can only go wrong when the set was not settled for k. */
  lemma SpendsHarmless(claimed: set<nat>, claimed': set<nat>, total: nat, k: nat)
    requires Spends(claimed, claimed', total, k) && Settled(claimed, total, k)
    ensures NarrowHarmless(claimed', total, 512, 512)
  {
    hide Settled;
    SettledHarmless(claimed', total, 0);
  }

  /** With the first block full a block claim as written is right, but no longer once one page was claimed:
      page 512 then opens a block and the search does not see it. */
  lemma OnePageSpoils(total: nat)
    requires total >= 1024
    ensures NarrowHarmless(Run(0, 512), total, 512, 512)
    ensures FirstFit(Run(0, 512), total, 1, 1, 512)
    ensures !NarrowHarmless(Run(0, 512) + {512}, total, 512, 512)
  {
    var claimed := Run(0, 512);
    LeastFreePage(claimed, total, 512);
    OwnClaimSeen(claimed, 0);
    assert 0 in Run(0, 512) && 512 in Run(512, 512);
    forall q: nat | q <= 512 && q % 512 == 0
      ensures q < 512 ==> !Fits(claimed, total, 512, q)
      ensures !Fits(claimed + {512}, total, 512, q)
    {
      assert q == 0 || q == 512;
    }
    NarrowBeforeFit(claimed, total, 512, 512, 512);
    assert Hidden(claimed + {512}, 512, 512);
    assert NoFitUpTo(claimed + {512}, total, 512, 512, 512);
  }

  // ---- sequences of claims --------------------------------------------------------------------

  /** A successful claim of number pages from page on, made for the virtual page at; table says that it became a
      table on the way there. */
  datatype Claim = Claim(page: nat, number: nat, at: nat, table: bool)

  ghost function ClaimedAfter(claimed: set<nat>, claims: seq<Claim>): set<nat> {
    if claims == [] then claimed
    else
      var last := claims[|claims| - 1];
      ClaimedAfter(claimed, claims[..|claims| - 1]) + Run(last.page, last.number)
  }

  /** Every claim is the first fit at its moment, aligned to its number. */
  ghost predicate FirstFits(claimed: set<nat>, total: nat, claims: seq<Claim>) {
    forall k :: 0 <= k < |claims| ==>
      && claims[k].number > 0
      && FirstFit(ClaimedAfter(claimed, claims[..k]), total, claims[k].number, claims[k].number, claims[k].page)
  }

  lemma {:induction false} ClaimedThen(claimed: set<nat>, x: seq<Claim>, y: seq<Claim>)
    ensures ClaimedAfter(claimed, x + y) == ClaimedAfter(ClaimedAfter(claimed, x), y)
    decreases |y|
  {
    hide Run;
    if y == [] {
      assert x + y == x;
    } else {
      var z := y[..|y| - 1];
      ClaimedThen(claimed, x, z);
      assert (x + y)[..|x + y| - 1] == x + z;
    }
  }

  lemma FirstFitsThen(claimed: set<nat>, total: nat, x: seq<Claim>, y: seq<Claim>)
    requires FirstFits(claimed, total, x) && FirstFits(ClaimedAfter(claimed, x), total, y)
    ensures FirstFits(claimed, total, x + y)
  {
    hide FirstFit, ClaimedAfter;
    var z := x + y;
    forall k | 0 <= k < |z|
      ensures z[k].number > 0
      ensures FirstFit(ClaimedAfter(claimed, z[..k]), total, z[k].number, z[k].number, z[k].page)
    {
      if k < |x| {
        assert z[..k] == x[..k];
      } else {
        assert z[..k] == x + y[..k - |x|];
        ClaimedThen(claimed, x, y[..k - |x|]);
      }
    }
  }

  lemma OneClaim(claimed: set<nat>, total: nat, c: Claim)
    requires c.number > 0 && FirstFit(claimed, total, c.number, c.number, c.page)
    ensures FirstFits(claimed, total, [c]) && ClaimedAfter(claimed, [c]) == claimed + Run(c.page, c.number)
  {
    hide FirstFit, Run;
    assert [c][..0] == [];
  }

  // ---- the single-page fast path ------------------------------------------------------------

  /** With number and align 1 the first fit is the least free page, and it is unique. */
  lemma FirstFitUnique(claimed: set<nat>, total: nat, number: nat, align: nat, s: nat, r: nat)
    requires align > 0 && FirstFit(claimed, total, number, align, s) && FirstFit(claimed, total, number, align, r)
    ensures s == r
  {
  }

  lemma LeastFreePage(claimed: set<nat>, total: nat, s: nat)
    ensures FirstFit(claimed, total, 1, 1, s) <==>
            s < total && s !in claimed && forall r: nat :: r < s ==> r in claimed
  {
    assert forall r: nat :: r in Run(r, 1);
    if s < total && s !in claimed && forall r: nat :: r < s ==> r in claimed {
      forall r: nat | r < s
        ensures !Fits(claimed, total, 1, r)
      {
        assert r in Run(r, 1) && r in claimed;
      }
    } else if FirstFit(claimed, total, 1, 1, s) {
      forall r: nat | r < s
        ensures r in claimed
      {
        assert !Fits(claimed, total, 1, r);
        assert Run(r, 1) == {r};
      }
    }
  }

  // ---- bitmaps of equal sets ----------------------------------------------------------------

  /** Freeing a run that was free before it was claimed restores every word of the bitmap. */
  lemma FreeUndoesClaim(before: seq<bv64>, claimed: seq<bv64>, after: seq<bv64>, page: nat, number: nat)
    requires |before| == |claimed| == |after| && Run(page, number) !! Claimed(before)
    requires Claimed(claimed) == Claimed(before) + Run(page, number)
    requires Claimed(after) == Claimed(claimed) - Run(page, number)
    ensures after == before
  {
    hide Claimed, Run;
    SameSetSameWords(after, before);
  }

  /** The fast path for one page and the general search leave the same bitmap behind. */
  lemma FastPathAgrees(before: seq<bv64>, fast: seq<bv64>, general: seq<bv64>, total: nat, p: nat, q: nat)
    requires |before| == |fast| == |general|
    requires FirstFit(Claimed(before), total, 1, 1, p) && Claimed(fast) == Claimed(before) + Run(p, 1)
    requires FirstFit(Claimed(before), total, 1, 1, q) && Claimed(general) == Claimed(before) + Run(q, 1)
    ensures p == q && fast == general
  {
    hide Claimed, Run;
    FirstFitUnique(Claimed(before), total, 1, 1, p, q);
    SameSetSameWords(fast, general);
  }
}
