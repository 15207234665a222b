/** Runs of the process stack: what kproc_start, kproc_exit and the running program may do, and what a
    well-nested run gives back to the process that started it. */
module ProcRun {
  import opened AddressSpace
  import opened Memory

  const KPROC_MAX_COUNT: nat := 16
  const KPROC_PROG_OFFSET: nat := 0x8_0000
  const KPROC_GENERAL_REGS: nat := 32

  const KSTATUS_PROC_OK: int := 0
  /** KSTATUS_ORIGIN_PROC << 16 | 1 << 31 as an int, and its successors. */
  const KSTATUS_PROC_ERR: int := 0x2_0000 - 0x8000_0000
  const KSTATUS_PROC_STACK_FULL: int := KSTATUS_PROC_ERR + 1
  const KSTATUS_PROC_LAST: int := KSTATUS_PROC_ERR + 2

  /** struct kproc_suspend_state. */
  datatype Suspend = Suspend(sp: nat, elr: nat, generalRegs: seq<int>)

  /** The value of ttbr0_el1: the physical address of the level-0 table and the address-space number. */
  datatype Ttbr = Ttbr(table: nat, asid: nat)

  datatype Slot = Slot(space: Space, suspend: Suspend)

  /** The process stack, the registers of the running process (rs is the frame that the exception entry
      saved) and the claimed frames. */
  datatype State = State(stack: seq<Slot>, rs: seq<int>, sp: nat, elr: nat, ttbr0: Ttbr, claimed: set<nat>)

  ghost function OwnedBy(stack: seq<Slot>): set<nat> {
    set i, p | 0 <= i < |stack| && p in Owned(stack[i].space) :: p
  }

  /** The running program changes its own registers. */
  ghost predicate UserStep(s: State, s': State) {
    && s'.stack == s.stack && s'.ttbr0 == s.ttbr0 && s'.claimed == s.claimed && |s'.rs| == |s.rs|
  }

  /** kcall_proc_start. */
  ghost predicate StartStep(s: State, s': State) {
    && |s.stack| > 0 && |s.rs| == KPROC_GENERAL_REGS && |s'.rs| == |s.rs|
    && var n := |s.stack|;
    if n == KPROC_MAX_COUNT then
      s' == s.(rs := s.rs[0 := KSTATUS_PROC_STACK_FULL])
    else
      && |s'.stack| == n + 1
      && s'.stack[..n - 1] == s.stack[..n - 1]
      && s'.stack[n - 1] == Slot(s.stack[n - 1].space, Suspend(s.sp, s.elr, s.rs))
      && Owned(s'.stack[n].space) !! s.claimed && s'.claimed == s.claimed + Owned(s'.stack[n].space)
      && s'.rs == s.rs[0 := KSTATUS_PROC_OK]
      && s'.sp == KPROC_PROG_OFFSET && s'.elr == KPROC_PROG_OFFSET
      && s'.ttbr0 == Ttbr(s'.stack[n].space.root, n + 1)
  }

  /** kcall_proc_exit. */
  ghost predicate ExitStep(s: State, s': State) {
    && |s.stack| > 0 && |s.rs| == KPROC_GENERAL_REGS
    && var n := |s.stack|;
    if n == 1 then
      s' == s.(rs := s.rs[0 := KSTATUS_PROC_LAST])
    else
      var parent := s.stack[n - 2];
      && |parent.suspend.generalRegs| == KPROC_GENERAL_REGS
      && s' == State(s.stack[..n - 1], parent.suspend.generalRegs[0 := 0], parent.suspend.sp, parent.suspend.elr,
                     Ttbr(parent.space.root, n - 1), s.claimed - Owned(s.stack[n - 1].space))
  }

  ghost predicate Step(s: State, s': State) {
    UserStep(s, s') || StartStep(s, s') || ExitStep(s, s')
  }

  /** A run that starts a process in its first step, ends that process in its last step and is well
      nested in between: the stack never gets down to the depth of the parent. */
  ghost predicate Nested(run: seq<State>) {
    && |run| >= 3
    && StartStep(run[0], run[1]) && |run[0].stack| < KPROC_MAX_COUNT
    && (forall k :: 1 < k < |run| ==> Step(run[k - 1], run[k]))
    && (forall k :: 0 < k < |run| - 1 ==> |run[k].stack| > |run[0].stack|)
    && |run[|run| - 1].stack| == |run[0].stack|
  }

  /** The slots of the suspended processes and the frames that are accounted to the others. */
  ghost predicate Suspended(s0: State, s: State) {
    var d := |s0.stack|;
    && d > 0 && |s.stack| > d && |s.rs| == |s0.rs| == KPROC_GENERAL_REGS
    && s.stack[..d - 1] == s0.stack[..d - 1]
    && s.stack[d - 1] == Slot(s0.stack[d - 1].space, Suspend(s0.sp, s0.elr, s0.rs))
    && s.claimed == s0.claimed + OwnedBy(s.stack[d..]) && OwnedBy(s.stack[d..]) !! s0.claimed
    && Disjoint(s.stack[d..])
  }

  ghost predicate Disjoint(stack: seq<Slot>) {
    forall i, j :: 0 <= i < j < |stack| ==> Owned(stack[i].space) !! Owned(stack[j].space)
  }

  lemma StartSuspends(s0: State, s: State)
    requires StartStep(s0, s) && |s0.stack| < KPROC_MAX_COUNT
    ensures Suspended(s0, s)
  {
    hide Owned;
    var d := |s0.stack|;
    assert s.stack[d..] == [s.stack[d]];
    forall p
      ensures p in OwnedBy(s.stack[d..]) <==> p in Owned(s.stack[d].space)
    {
      if p in Owned(s.stack[d].space) {
        assert s.stack[d..][0] == s.stack[d];
      }
    }
  }

  lemma UserKeepsSuspended(s0: State, s: State, s': State)
    requires Suspended(s0, s) && UserStep(s, s')
    ensures Suspended(s0, s')
  {
    hide Owned;
  }

  lemma StartKeepsSuspended(s0: State, s: State, s': State)
    requires Suspended(s0, s) && StartStep(s, s')
    ensures Suspended(s0, s')
  {
    hide Owned, OwnedBy, Disjoint;
    var d, n := |s0.stack|, |s.stack|;
    if n != KPROC_MAX_COUNT {
      SamePrefix(s.stack, s'.stack, d, n - 1);
      forall i | 0 <= i < n - d
        ensures s'.stack[d..][i].space == s.stack[d..][i].space
      {
        assert s'.stack[d + i].space == s.stack[d + i].space by { SamePrefix(s.stack, s'.stack, d + i + 1, n - 1); }
      }
      Pushed(s.stack[d..], s'.stack[d..]);
      assert s'.stack[d..][n - d] == s'.stack[n];
    }
  }

  /** Stacks that agree below n agree below every d <= n, slot by slot. */
  lemma SamePrefix(stack: seq<Slot>, stack': seq<Slot>, d: nat, n: nat)
    requires 0 < d <= |stack| && n <= |stack| && n <= |stack'| && stack'[..n] == stack[..n]
    ensures d <= n ==> stack'[..d] == stack[..d] && stack'[d - 1] == stack[d - 1] && stack'[..d - 1] == stack[..d - 1]
    ensures d == n + 1 && d <= |stack'| ==> stack'[..d - 1] == stack[..d - 1]
  {
    if d <= n {
      assert stack'[..d] == stack'[..n][..d] && stack[..d] == stack[..n][..d];
      assert stack'[..d][d - 1] == stack[..d][d - 1];
      assert stack'[..d - 1] == stack'[..d][..d - 1] && stack[..d - 1] == stack[..d][..d - 1];
    }
  }

  lemma ExitKeepsSuspended(s0: State, s: State, s': State)
    requires Suspended(s0, s) && ExitStep(s, s') && |s'.stack| > |s0.stack|
    ensures Suspended(s0, s')
  {
    hide Owned, OwnedBy, Disjoint;
    var d, n := |s0.stack|, |s.stack|;
    if n == 1 {
      assert false;
    } else {
      var top := s.stack[n - 1];
      SamePrefix(s.stack, s'.stack, d, n - 1);
      assert s'.stack[d..] == s.stack[d..][..n - d - 1];
      assert s.stack[d..][n - d - 1] == top;
      Popped(s.stack[d..]);
      OwnedByTop(s.stack[d..]);
    }
  }

  lemma OwnedByTop(stack: seq<Slot>)
    requires |stack| > 0
    ensures Owned(stack[|stack| - 1].space) <= OwnedBy(stack)
  {
    hide Owned;
  }

  lemma StepKeepsSuspended(s0: State, s: State, s': State)
    requires Suspended(s0, s) && Step(s, s') && |s'.stack| > |s0.stack|
    ensures Suspended(s0, s')
  {
    hide Suspended, UserStep, StartStep, ExitStep;
    if UserStep(s, s') {
      UserKeepsSuspended(s0, s, s');
    } else if StartStep(s, s') {
      StartKeepsSuspended(s0, s, s');
    } else {
      ExitKeepsSuspended(s0, s, s');
    }
  }

  lemma Pushed(stack: seq<Slot>, stack': seq<Slot>)
    requires |stack'| == |stack| + 1 && forall i :: 0 <= i < |stack| ==> stack'[i].space == stack[i].space
    ensures OwnedBy(stack') == OwnedBy(stack) + Owned(stack'[|stack|].space)
    ensures Disjoint(stack) && Owned(stack'[|stack|].space) !! OwnedBy(stack) ==> Disjoint(stack')
  {
    hide Owned;
  }

  lemma Popped(stack: seq<Slot>)
    requires |stack| > 0 && Disjoint(stack)
    ensures OwnedBy(stack[..|stack| - 1]) == OwnedBy(stack) - Owned(stack[|stack| - 1].space)
    ensures Disjoint(stack[..|stack| - 1])
  {
    hide Owned;
    var below := stack[..|stack| - 1];
    forall p
      ensures p in OwnedBy(below) <==> p in OwnedBy(stack) && p !in Owned(stack[|stack| - 1].space)
    {
      if p in OwnedBy(below) {
        var i :| 0 <= i < |below| && p in Owned(below[i].space);
        assert stack[i] == below[i];
      }
      if p in OwnedBy(stack) && p !in Owned(stack[|stack| - 1].space) {
        var i :| 0 <= i < |stack| && p in Owned(stack[i].space);
        assert below[i] == stack[i];
      }
    }
  }

  lemma {:induction false} RunKeepsSuspended(run: seq<State>, k: nat)
    requires Nested(run) && 0 < k < |run| - 1
    ensures Suspended(run[0], run[k])
    decreases k
  {
    hide Suspended, StartStep, Step;
    if k == 1 {
      StartSuspends(run[0], run[1]);
    } else {
      RunKeepsSuspended(run, k - 1);
      StepKeepsSuspended(run[0], run[k - 1], run[k]);
    }
  }

  /** A well-nested run gives the process that started it its registers (x0 is 0), its stack pointer,
      its return address and its address space back, leaves the processes below as they were and
      leaves exactly the frames claimed that were claimed before. */
  lemma NestedRestores(run: seq<State>)
    requires Nested(run)
    ensures
      var s0, s, d := run[0], run[|run| - 1], |run[0].stack|;
      && s.rs == s0.rs[0 := 0] && s.sp == s0.sp && s.elr == s0.elr
      && s.ttbr0 == Ttbr(s0.stack[d - 1].space.root, d)
      && s.claimed == s0.claimed
      && s.stack[..d - 1] == s0.stack[..d - 1] && s.stack[d - 1].space == s0.stack[d - 1].space
  {
    hide Owned;
    var m := |run| - 1;
    RunKeepsSuspended(run, m - 1);
    var s0, r, s, d := run[0], run[m - 1], run[m], |run[0].stack|;
    assert Step(r, s);
    assert |r.stack| == d + 1;
    assert r.stack[d..] == [r.stack[d]] && r.stack[d..][0] == r.stack[d];
    assert OwnedBy(r.stack[d..]) == Owned(r.stack[d].space) by {
      Pushed([], r.stack[d..]);
    }
    assert s.stack == r.stack[..d];
    assert s.stack[..d - 1] == r.stack[..d - 1];
  }

  // ---- refused starts and exits ---------------------------------------------------------------

  /** A start is refused exactly with 16 processes: then x0 gets the negative KSTATUS_PROC_STACK_FULL and nothing
      else changes. */
  lemma StartRefused(s: State, s': State)
    requires StartStep(s, s')
    ensures s'.rs[0] < 0 <==> |s.stack| == 16
    ensures s'.rs[0] < 0 ==> s' == s.(rs := s.rs[0 := 0x2_0001 - 0x8000_0000])
    ensures s'.rs[0] >= 0 ==> s'.rs == s.rs[0 := 0] && |s'.stack| == |s.stack| + 1
  {
  }

  /** An exit is refused exactly for the last process: then x0 gets the negative KSTATUS_PROC_LAST and nothing else
      changes. */
  lemma ExitRefused(s: State, s': State)
    requires ExitStep(s, s')
    ensures s'.rs[0] < 0 <==> |s.stack| == 1
    ensures s'.rs[0] < 0 ==> s' == s.(rs := s.rs[0 := 0x2_0002 - 0x8000_0000])
    ensures s'.rs[0] >= 0 ==> s'.rs[0] == 0 && |s'.stack| == |s.stack| - 1
  {
  }

  /** No run gets below one process or above 16. */
  lemma {:induction false} DepthBounded(run: seq<State>)
    requires |run| > 0 && 1 <= |run[0].stack| <= 16
    requires forall k :: 0 < k < |run| ==> Step(run[k - 1], run[k])
    ensures 1 <= |run[|run| - 1].stack| <= 16
    decreases |run|
  {
    hide StartStep, ExitStep, UserStep;
    if |run| > 1 {
      var before := run[..|run| - 1];
      forall k | 0 < k < |before|
        ensures Step(before[k - 1], before[k])
      {
        assert Step(run[k - 1], run[k]);
      }
      DepthBounded(before);
      DepthStep(run[|run| - 2], run[|run| - 1]);
    }
  }

  lemma DepthStep(s: State, s': State)
    requires Step(s, s') && 1 <= |s.stack| <= 16
    ensures 1 <= |s'.stack| <= 16
  {
  }
}
