/** Whole histories of the frame allocator: claims and frees of live allocations in any order. */
module History {
  import opened Arithmetic
  import opened FrameSet
  import opened Allocator

  datatype Allocation = Allocation(page: nat, number: nat)

  datatype State = State(claimed: set<nat>, live: seq<Allocation>)

  function Frames(a: Allocation): set<nat> { Run(a.page, a.number) }

  /** The free loop as written frees exactly this allocation. */
  predicate FreesExactly(a: Allocation) {
    a.page % 64 == 0 || a.page % 64 + a.number <= 64
  }

  /** memory_allocator_claim_pages, when it succeeds. */
  ghost predicate ClaimStep(s: State, s': State, total: nat) {
    exists a: Allocation, align: nat ::
      && align > 0 && FirstFit(s.claimed, total, a.number, align, a.page)
      && s'.claimed == s.claimed + Frames(a) && s'.live == s.live + [a]
  }

  /** memory_allocator_free_pages on any live allocation, as intended. */
  ghost predicate FreeStep(s: State, s': State) {
    exists k: nat :: k < |s.live| && s'.claimed == s.claimed - Frames(s.live[k]) && s'.live == Without(s.live, k)
  }

  function Without(live: seq<Allocation>, k: nat): seq<Allocation>
    requires k < |live|
  {
    live[..k] + live[k + 1..]
  }

  /** memory_allocator_claim_pages as written, when it succeeds: one page without alignment takes the fast
      path, everything else the search with the 32-bit current_entry. */
  ghost predicate ClaimsAsWritten(s: State, s': State, a: Allocation, align: nat, total: nat) {
    && align > 0 && FirstFit(Seen(s.claimed, a.number, align), total, a.number, align, a.page)
    && s'.claimed == s.claimed + Frames(a) && s'.live == s.live + [a]
  }

  /** memory_allocator_free_pages on live allocation k, with the loop as written. */
  ghost predicate FreesAsWritten(s: State, s': State, k: nat) {
    && k < |s.live|
    && s'.claimed == s.claimed - FreedAsWritten(s.live[k].page, s.live[k].number)
    && s'.live == Without(s.live, k)
  }

  /** A claim or a free as written where it does what is intended. */
  ghost predicate HarmlessStep(s: State, s': State, total: nat) {
    || (exists a: Allocation, align: nat ::
          align > 0 && ClaimsAsWritten(s, s', a, align, total) && ClaimHarmless(s.claimed, total, a.number, align))
    || (exists k: nat :: k < |s.live| && FreesAsWritten(s, s', k) && FreesExactly(s.live[k]))
  }

  /** Live allocations overlap neither each other nor the reserved pages, and nothing else is claimed. */
  ghost predicate Safe(s: State, reserved: set<nat>) {
    && (forall i, j :: 0 <= i < j < |s.live| ==> Frames(s.live[i]) !! Frames(s.live[j]))
    && (forall i :: 0 <= i < |s.live| ==> Frames(s.live[i]) !! reserved)
    && s.claimed == reserved + AllFrames(s.live)
  }

  ghost function AllFrames(live: seq<Allocation>): set<nat> {
    set i, p | 0 <= i < |live| && p in Frames(live[i]) :: p
  }

  ghost predicate IsHistory(history: seq<State>, reserved: set<nat>, total: nat) {
    && |history| > 0 && history[0] == State(reserved, [])
    && (forall k :: 0 < k < |history| ==> ClaimStep(history[k - 1], history[k], total) || FreeStep(history[k - 1], history[k]))
  }

  /** A history of the allocator as written whose steps are harmless. */
  ghost predicate IsHarmlessHistory(history: seq<State>, reserved: set<nat>, total: nat) {
    && |history| > 0 && history[0] == State(reserved, [])
    && (forall k :: 0 < k < |history| ==> HarmlessStep(history[k - 1], history[k], total))
  }

  lemma ClaimKeepsSafe(s: State, s': State, reserved: set<nat>, total: nat)
    requires Safe(s, reserved) && ClaimStep(s, s', total)
    ensures Safe(s', reserved)
  {
    hide Frames;
    var a: Allocation, align: nat :|
      && align > 0 && FirstFit(s.claimed, total, a.number, align, a.page)
      && s'.claimed == s.claimed + Frames(a) && s'.live == s.live + [a];
    assert Frames(a) !! s.claimed by { FitIsFree(s.claimed, total, a, align); }
    forall i | 0 <= i < |s.live|
      ensures Frames(s.live[i]) <= AllFrames(s.live)
    {
    }
    AllFramesThen(s.live, [a]);
    AllFramesOne(a);
  }

  lemma FitIsFree(claimed: set<nat>, total: nat, a: Allocation, align: nat)
    requires align > 0 && FirstFit(claimed, total, a.number, align, a.page)
    ensures Frames(a) !! claimed
  {
  }

  lemma AllFramesThen(a: seq<Allocation>, b: seq<Allocation>)
    ensures AllFrames(a + b) == AllFrames(a) + AllFrames(b)
  {
    hide Frames;
    forall p
      ensures p in AllFrames(a + b) <==> p in AllFrames(a) || p in AllFrames(b)
    {
      if p in AllFrames(a) {
        var i :| 0 <= i < |a| && p in Frames(a[i]);
        assert (a + b)[i] == a[i];
      }
      if p in AllFrames(b) {
        var i :| 0 <= i < |b| && p in Frames(b[i]);
        assert (a + b)[|a| + i] == b[i];
      }
    }
  }

  lemma AllFramesOne(a: Allocation)
    ensures AllFrames([a]) == Frames(a)
  {
    hide Frames;
    assert forall p :: p in Frames(a) ==> p in Frames([a][0]);
  }

  lemma FreedFrames(s: State, s': State, reserved: set<nat>, k: nat)
    requires Safe(s, reserved) && k < |s.live|
    requires s'.claimed == s.claimed - Frames(s.live[k]) && s'.live == Without(s.live, k)
    ensures s'.claimed == reserved + AllFrames(s'.live)
  {
    hide Frames, AllFrames;
    var a := s.live[k];
    assert s.live == s.live[..k] + [a] + s.live[k + 1..];
    AllFramesThen(s.live[..k] + [a], s.live[k + 1..]);
    AllFramesThen(s.live[..k], [a]);
    AllFramesThen(s.live[..k], s.live[k + 1..]);
    AllFramesOne(a);
    OthersDisjoint(s, k);
  }

  lemma FreedDisjoint(s: State, s': State, reserved: set<nat>, k: nat)
    requires Safe(s, reserved) && k < |s.live| && s'.live == Without(s.live, k)
    requires s'.claimed == reserved + AllFrames(s'.live)
    ensures Safe(s', reserved)
  {
    hide Frames, AllFrames;
    StillDisjoint(s.live, s'.live, k, reserved);
  }

  lemma FreeKeepsSafe(s: State, s': State, reserved: set<nat>)
    requires Safe(s, reserved) && FreeStep(s, s')
    ensures Safe(s', reserved)
  {
    hide Frames, Safe;
    var k: nat :| k < |s.live| && s'.claimed == s.claimed - Frames(s.live[k]) && s'.live == Without(s.live, k);
    FreedFrames(s, s', reserved, k);
    FreedDisjoint(s, s', reserved, k);
  }

  /** Freeing a live allocation as written is safe exactly when the allocation starts a bitmap word or
      stays in one: otherwise a page leaks. */
  lemma FreeSafeIff(s: State, s': State, reserved: set<nat>, k: nat)
    requires Safe(s, reserved) && FreesAsWritten(s, s', k)
    ensures Safe(s', reserved) <==> FreesExactly(s.live[k])
  {
    if FreesExactly(s.live[k]) {
      ExactFree(s, s', k);
      FreeKeepsSafe(s, s', reserved);
    } else {
      Leaks(s, s', reserved, k);
    }
  }

  lemma ExactFree(s: State, s': State, k: nat)
    requires FreesAsWritten(s, s', k) && FreesExactly(s.live[k]) && Frames(s.live[k]) <= s.claimed
    ensures FreeStep(s, s')
  {
    hide FreedAsWritten, Run;
    FreedAsWrittenIff(s.claimed, s.live[k].page, s.live[k].number);
    assert s'.claimed == s.claimed - Frames(s.live[k]);
  }

  lemma Leaks(s: State, s': State, reserved: set<nat>, k: nat)
    requires Safe(s, reserved) && FreesAsWritten(s, s', k) && !FreesExactly(s.live[k])
    ensures !(s'.claimed <= reserved + AllFrames(s'.live))
  {
    hide FreedAsWritten, AllFrames, Run;
    var a := s.live[k];
    FreedMisses(a.page, a.number);
    var q := 64 * (a.page / 64 + 1);
    AllFramesThen(s.live[..k], s.live[k + 1..]);
    OthersDisjoint(s, k);
    LiveIsClaimed(s, k);
    assert q in Frames(a);
    assert q in s'.claimed && q !in reserved + AllFrames(s'.live);
  }

  /** Claiming as written is safe exactly for harmless claims: otherwise a frame gets a second owner. */
  lemma ClaimSafeIff(s: State, s': State, reserved: set<nat>, a: Allocation, align: nat, total: nat)
    requires Safe(s, reserved) && ClaimsAsWritten(s, s', a, align, total)
    ensures Safe(s', reserved) <==> ClaimHarmless(s.claimed, total, a.number, align)
  {
    hide ClaimHarmless, Seen, FirstFit, AllFrames;
    ClaimedRun(s.claimed, total, a.number, align, a.page);
    if ClaimHarmless(s.claimed, total, a.number, align) {
      ClaimKeepsSafe(s, s', reserved, total);
    } else {
      var p :| p in Frames(a) && p in s.claimed;
      NotSafe(s, s', reserved, a, p);
    }
  }

  lemma NotSafe(s: State, s': State, reserved: set<nat>, a: Allocation, p: nat)
    requires s.claimed == reserved + AllFrames(s.live) && s'.live == s.live + [a] && p in Frames(a) && p in s.claimed
    ensures !Safe(s', reserved)
  {
    hide Frames;
    assert s'.live[|s.live|] == a;
    if p in AllFrames(s.live) {
      var i :| 0 <= i < |s.live| && p in Frames(s.live[i]);
      assert p in Frames(s'.live[i]);
    }
  }

  lemma LiveIsClaimed(s: State, k: nat)
    requires k < |s.live|
    ensures Frames(s.live[k]) <= AllFrames(s.live)
  {
    hide Frames;
  }

  lemma StillDisjoint(live: seq<Allocation>, live': seq<Allocation>, k: nat, reserved: set<nat>)
    requires k < |live| && live' == Without(live, k)
    requires forall i, j :: 0 <= i < j < |live| ==> Frames(live[i]) !! Frames(live[j])
    requires forall i :: 0 <= i < |live| ==> Frames(live[i]) !! reserved
    ensures forall i, j :: 0 <= i < j < |live'| ==> Frames(live'[i]) !! Frames(live'[j])
    ensures forall i :: 0 <= i < |live'| ==> Frames(live'[i]) !! reserved
  {
    hide Frames;
    assert forall i :: 0 <= i < |live'| ==> live'[i] == live[if i < k then i else i + 1];
  }

  lemma OthersDisjoint(s: State, k: nat)
    requires k < |s.live|
    requires forall i, j :: 0 <= i < j < |s.live| ==> Frames(s.live[i]) !! Frames(s.live[j])
    ensures Frames(s.live[k]) !! AllFrames(s.live[..k]) && Frames(s.live[k]) !! AllFrames(s.live[k + 1..])
  {
    hide Frames;
    forall p | p in AllFrames(s.live[k + 1..])
      ensures p !in Frames(s.live[k])
    {
      var i :| 0 <= i < |s.live[k + 1..]| && p in Frames(s.live[k + 1..][i]);
      assert s.live[k + 1..][i] == s.live[k + 1 + i];
    }
  }

  /** After any history the live allocations are pairwise disjoint, disjoint from the reserved pages,
      and everything that is claimed is one or the other. */
  lemma {:induction false} AlwaysSafe(history: seq<State>, reserved: set<nat>, total: nat)
    requires IsHistory(history, reserved, total)
    ensures Safe(history[|history| - 1], reserved)
    decreases |history|
  {
    hide Safe, ClaimStep, FreeStep;
    var n := |history|;
    if n == 1 {
      SafeAtFirst(reserved);
    } else {
      var shorter := history[..n - 1];
      forall k | 0 < k < |shorter|
        ensures ClaimStep(shorter[k - 1], shorter[k], total) || FreeStep(shorter[k - 1], shorter[k])
      {
        assert shorter[k] == history[k] && shorter[k - 1] == history[k - 1];
      }
      AlwaysSafe(shorter, reserved, total);
      if ClaimStep(history[n - 2], history[n - 1], total) {
        ClaimKeepsSafe(history[n - 2], history[n - 1], reserved, total);
      } else {
        FreeKeepsSafe(history[n - 2], history[n - 1], reserved);
      }
    }
  }

  /** The same for the allocator as written, as long as its steps are harmless. */
  lemma {:induction false} HarmlessAlwaysSafe(history: seq<State>, reserved: set<nat>, total: nat)
    requires IsHarmlessHistory(history, reserved, total)
    ensures Safe(history[|history| - 1], reserved)
    decreases |history|
  {
    hide Safe, HarmlessStep;
    var n := |history|;
    if n == 1 {
      SafeAtFirst(reserved);
    } else {
      var shorter := history[..n - 1];
      forall k | 0 < k < |shorter|
        ensures HarmlessStep(shorter[k - 1], shorter[k], total)
      {
        assert shorter[k] == history[k] && shorter[k - 1] == history[k - 1];
      }
      HarmlessAlwaysSafe(shorter, reserved, total);
      HarmlessKeepsSafe(history[n - 2], history[n - 1], reserved, total);
    }
  }

  lemma HarmlessKeepsSafe(s: State, s': State, reserved: set<nat>, total: nat)
    requires Safe(s, reserved) && HarmlessStep(s, s', total)
    ensures Safe(s', reserved)
  {
    hide Safe, ClaimsAsWritten, FreesAsWritten, FreesExactly, ClaimHarmless;
    if k: nat :| k < |s.live| && FreesAsWritten(s, s', k) && FreesExactly(s.live[k]) {
      FreeSafeIff(s, s', reserved, k);
    } else {
      var a: Allocation, align: nat :|
        align > 0 && ClaimsAsWritten(s, s', a, align, total) && ClaimHarmless(s.claimed, total, a.number, align);
      ClaimSafeIff(s, s', reserved, a, align, total);
    }
  }

  lemma SafeAtFirst(reserved: set<nat>)
    ensures Safe(State(reserved, []), reserved)
  {
  }

  /** An allocation that is aligned to its own size, as the page-table manager makes them, is freed
      exactly by the loop as written. */
  lemma SizeAlignedFreesExactly(a: Allocation)
    requires PowerOfTwo(a.number) && a.page % a.number == 0
    ensures FreesExactly(a)
  {
    if a.number >= 64 {
      PowerFrom64(a.number);
      FactorDivides(a.page, a.number / 64, 64);
    } else {
      PowerBelow64(a.number);
      var n := a.number;
      assert 64 == 64 / n * n;
      var q, r := a.page / 64, a.page % 64;
      assert a.page == q * (64 / n) * n + r;
      SmallRemainder(a.page, n, q * (64 / n), r);
      MultiplesApart(r, 64, n);
    }
  }

  lemma SmallRemainder(page: nat, n: nat, m: nat, r: nat)
    requires n > 0 && page % n == 0 && page == m * n + r
    ensures r % n == 0
  {
    var k := page / n;
    assert page == k * n;
    MulMono(k, m, n);
    assert r == (k - m) * n;
    if k >= m {
      DivUnique(r, n, k - m, 0);
    }
  }

  lemma PowerBelow64(n: nat)
    requires PowerOfTwo(n) && n < 64
    ensures n == 1 || n == 2 || n == 4 || n == 8 || n == 16 || n == 32
    ensures 64 % n == 0 && 64 / n * n == 64
  {
    assert n > 1 ==> PowerOfTwo(n / 2);
    assert n > 3 ==> PowerOfTwo(n / 2 / 2);
    assert n > 7 ==> PowerOfTwo(n / 2 / 2 / 2);
    assert n > 15 ==> PowerOfTwo(n / 2 / 2 / 2 / 2);
    assert n > 31 ==> PowerOfTwo(n / 2 / 2 / 2 / 2 / 2);
  }

  lemma {:induction false} PowerFrom64(n: nat)
    requires PowerOfTwo(n) && n >= 64
    ensures n % 64 == 0 && n / 64 > 0 && n / 64 * 64 == n
  {
    if n >= 128 {
      PowerFrom64(n / 2);
      var k := n / 2 / 64;
      DivUnique(n, 64, 2 * k, 0);
    } else {
      PowerBelow64(n / 2);
    }
  }

  // ---- the steps of the allocator -------------------------------------------------------------

  /** The bitmap holds the claimed frames of the state, and its live allocations are tracked. */
  ghost predicate Records(allocator: Allocator, s: State)
    reads allocator.bitmap
  {
    && allocator.Valid() && allocator.Set() == s.claimed
    && (forall k :: 0 <= k < |s.live| ==> s.live[k].page + s.live[k].number <= allocator.Total())
  }

  /** A claim is a claim step, or fails and changes nothing. */
  method Claim(allocator: Allocator, number: nat, align: nat, ghost s: State) returns (address: Option<nat>, ghost s': State)
    requires Records(allocator, s) && PowerOfTwo(align) && allocator.Total() + align <= UINT32
    modifies allocator.bitmap
    ensures Records(allocator, s')
    ensures address.None? ==> s' == s && NoFit(s.claimed, allocator.Total(), number, align)
    ensures address.Some? ==>
              && ClaimStep(s, s', allocator.Total()) && |s'.live| == |s.live| + 1
              && s'.live[|s.live|].number == number
              && address.value == s'.live[|s.live|].page * allocator.pageSize
  {
    hide Claimed, FirstFit, NoFit;
    address := allocator.ClaimPages(number, align);
    s' := s;
    if address.Some? {
      ghost var page :| address.value == page * allocator.pageSize
                        && FirstFit(s.claimed, allocator.Total(), number, align, page)
                        && allocator.Set() == s.claimed + Run(page, number);
      FitsInside(s.claimed, allocator.Total(), number, align, page);
      ghost var a := Allocation(page, number);
      s' := State(allocator.Set(), s.live + [a]);
    }
  }

  /** The same for a claim as written. */
  method ClaimAsWritten(allocator: Allocator, number: nat, align: nat, ghost s: State)
    returns (address: Option<nat>, overlaps: bool, ghost s': State)
    requires Records(allocator, s) && PowerOfTwo(align) && allocator.Total() + align <= UINT32
    modifies allocator.bitmap
    ensures Records(allocator, s') && (overlaps <==> !ClaimHarmless(s.claimed, allocator.Total(), number, align))
    ensures address.None? ==> s' == s && NoFit(s.claimed, allocator.Total(), number, align)
    ensures address.Some? ==>
              && |s'.live| == |s.live| + 1 && s'.live[|s.live|].number == number
              && ClaimsAsWritten(s, s', s'.live[|s.live|], align, allocator.Total())
              && (!overlaps ==> HarmlessStep(s, s', allocator.Total()))
              && address.value == s'.live[|s.live|].page * allocator.pageSize
  {
    hide Claimed, FirstFit, NoFit, Seen, ClaimHarmless;
    address, overlaps := allocator.ClaimPagesAsWritten(number, align);
    s' := s;
    if address.Some? {
      ghost var page :| address.value == page * allocator.pageSize
                        && FirstFit(Seen(s.claimed, number, align), allocator.Total(), number, align, page)
                        && allocator.Set() == s.claimed + Run(page, number);
      FitsInside(Seen(s.claimed, number, align), allocator.Total(), number, align, page);
      ghost var a := Allocation(page, number);
      s' := State(allocator.Set(), s.live + [a]);
      assert ClaimsAsWritten(s, s', a, align, allocator.Total());
    }
  }

  /** Freeing live allocation k at its address is a free step as written. */
  method FreeAsWritten(allocator: Allocator, address: nat, count: nat, ghost s: State, ghost k: nat) returns (ghost s': State)
    requires Records(allocator, s) && allocator.Total() * allocator.pageSize <= KERNEL_SPACE && k < |s.live|
    requires address == s.live[k].page * allocator.pageSize && count == s.live[k].number > 0
    modifies allocator.bitmap
    ensures Records(allocator, s') && FreesAsWritten(s, s', k)
    ensures FreesExactly(s.live[k]) ==> HarmlessStep(s, s', allocator.Total())
  {
    hide Claimed, FreedAsWritten;
    PageOfAddress(s.live[k].page, allocator.pageSize, allocator.Total());
    allocator.FreePages(address, count);
    s' := State(allocator.Set(), Without(s.live, k));
    StillTracked(s.live, k, allocator.Total());
  }

  /** With the reset of offset the same is a free step for every live allocation. */
  method Free(allocator: Allocator, address: nat, count: nat, ghost s: State, ghost k: nat) returns (ghost s': State)
    requires Records(allocator, s) && allocator.Total() * allocator.pageSize <= KERNEL_SPACE && k < |s.live|
    requires address == s.live[k].page * allocator.pageSize && count == s.live[k].number > 0
    modifies allocator.bitmap
    ensures Records(allocator, s') && FreeStep(s, s')
  {
    hide Claimed, Run;
    PageOfAddress(s.live[k].page, allocator.pageSize, allocator.Total());
    allocator.FreeMultiplePagesReset(allocator.PageNumber(address), count);
    s' := State(allocator.Set(), Without(s.live, k));
    StillTracked(s.live, k, allocator.Total());
  }

  lemma FitsInside(claimed: set<nat>, total: nat, number: nat, align: nat, page: nat)
    requires align > 0 && FirstFit(claimed, total, number, align, page)
    ensures page + number <= total
  {
  }

  lemma PageOfAddress(page: nat, pageSize: nat, total: nat)
    requires pageSize > 0 && page < total < UINT32 && total * pageSize <= KERNEL_SPACE
    ensures page * pageSize % KERNEL_SPACE / pageSize % UINT32 == page
  {
    MulMono(page, total, pageSize);
    DivUnique(page * pageSize, KERNEL_SPACE, 0, page * pageSize);
    DivUnique(page * pageSize, pageSize, page, 0);
  }

  lemma StillTracked(live: seq<Allocation>, k: nat, total: nat)
    requires k < |live| && forall i :: 0 <= i < |live| ==> live[i].page + live[i].number <= total
    ensures forall i :: 0 <= i < |Without(live, k)| ==> Without(live, k)[i].page + Without(live, k)[i].number <= total
  {
    forall i | 0 <= i < |Without(live, k)|
      ensures Without(live, k)[i] == live[if i < k then i else i + 1]
    {
    }
  }
}
