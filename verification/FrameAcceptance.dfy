/** The abstract interpreter with frames (`src/exec.rs`, `src/state.rs`): what calls and
    accesses to caller frames are refused for, and what they leave alone. */
module FrameAcceptance {
  import opened Words
  import opened Scalar
  import opened Insn
  import opened Abstract
  import opened StackPrecise
  import opened Acceptance
  import opened Calls
  import opened FreshBytes

  ghost predicate Ordered(st: State) { forall r :: 0 <= r < 11 ==> IntervalsOrdered(st.regs[r]) }

  /** A stack pointer stored whole: eight bytes at one place at the start of a slot. */
  predicate StoresPointerWhole(ptr: RegState, offset: I16, v: RegState)
    requires ptr.PtrToStack?
  {
    v.PtrToStack? && ptr.min == ptr.max && (ptr.min + offset) % 8 == 0
  }

  /** An access to a caller frame asks of that frame what an access to the own frame asks,
      and never stores a stack pointer there. */
  ghost predicate OuterAcceptable(x: Stacked, insn: Insn)
    requires OuterAccess(x, insn) && Ordered(x.top)
  {
    var ptr := x.top.regs[insn.base];
    var there := Focus(x, ptr.frameno);
    if insn.LdMem? then Loadable(there, ptr, insn.offset, insn.size.Bytes())
    else
      var v := StoredState(x.top, insn);
      StorableAt(there, ptr, insn.offset, insn.size.Bytes(), v) && !StoresPointerWhole(ptr, insn.offset, v)
  }

  /** A call is refused exactly at the sixteenth frame, everything else for what it asks of
      the frame it works in. */
  lemma StackedAcceptsExactly(pc: U32, x: Stacked, insn: Insn)
    requires Ordered(x.top)
    ensures StackedSuccessors(pc, x, insn).Ok? <==>
              if insn.CallSub? then x.top.frame + 1 < MAX_CALL_FRAMES
              else if OuterAccess(x, insn) then OuterAcceptable(x, insn)
              else Acceptable(x.top, insn)
  {
    hide Acceptable, Loadable, StorableAt, StackRead, StackWrite, Abstract.Successors, Target;
    if OuterAccess(x, insn) {
      OuterAccepts(pc, x, insn);
    } else if !insn.CallSub? {
      AcceptsExactly(pc, x.top, insn);
    }
  }

  lemma OuterAccepts(pc: U32, x: Stacked, insn: Insn)
    requires OuterAccess(x, insn) && Ordered(x.top)
    ensures OuterStep(pc, x, insn).Ok? <==> OuterAcceptable(x, insn)
  {
    hide Loadable, StorableAt, StackRead, StackWrite, CheckAccess;
    var ptr := x.top.regs[insn.base];
    var there := Focus(x, ptr.frameno);
    if insn.LdMem? {
      ReadAccepts(pc, there, insn.base, insn.offset, insn.size.Bytes(), insn.signExtend);
    } else {
      var v := StoredState(x.top, insn);
      WriteAccepts(pc, there, insn.base, insn.offset, insn.size.Bytes(), v);
      if StackWrite(pc, there, insn.base, insn.offset, insn.size.Bytes(), v).Ok? {
        WriteChecked(pc, there, insn.base, insn.offset, insn.size.Bytes(), v);
        AccessBytes(pc, ptr, insn.offset, insn.size.Bytes(), 0);
      }
    }
  }

  lemma WriteChecked(pc: nat, st: State, base: Reg, offset: I16, size: nat, v: RegState)
    requires ValidSize(size) && st.regs[base].PtrToStack? && StackWrite(pc, st, base, offset, size, v).Ok?
    ensures CheckAccess(pc, st.regs[base], offset, size).Ok?
  {
    hide CheckAccess, StackStore;
  }

  /** An access to a caller frame changes the destination register, or that frame. */
  lemma OuterTouches(pc: U32, x: Stacked, insn: Insn, r: Reg, f: nat)
    requires OuterAccess(x, insn) && OuterStep(pc, x, insn).Ok? && f < |x.saved|
    ensures var next := OuterStep(pc, x, insn).value;
            && |next.saved| == |x.saved| && next.retPc == x.retPc
            && next.saved[f].regs == x.saved[f].regs && next.saved[f].retPc == x.saved[f].retPc
            && (insn.LdMem? ==> next.saved == x.saved && (r != insn.dst ==> next.top.regs[r] == x.top.regs[r]))
            && (IsStore(insn) ==> next.top == x.top)
            && (IsStore(insn) && f != x.top.regs[insn.base].frameno ==> next.saved[f] == x.saved[f])
  {
    hide StackRead, StackWrite, CheckAccess;
  }

  /** A call hands over r1 to r5 and an empty stack, and the caller gets back r6 to r10, its
      stack and its place, with r0 from the callee and r1 to r5 gone. */
  lemma CallAndReturn(x: Stacked, returnPc: U32, callee: Stacked, r: Reg)
    requires Enter(x, returnPc).Ok? && callee.saved == Enter(x, returnPc).value.saved
    ensures var e := Enter(x, returnPc).value;
            && e.retPc == returnPc && e.top.frame == x.top.frame + 1 && e.top.refs == x.top.refs
            && (1 <= r <= 5 ==> e.top.regs[r] == x.top.regs[r])
            && ((r == 0 || 6 <= r <= 9) ==> e.top.regs[r].Uninit?)
            && e.top.regs[10] == PtrToStack(0, 0, 0, x.top.frame + 1)
            && (forall i :: 0 <= i < 512 ==> e.top.bytes[i].Invalid?)
            && (forall s :: 0 <= s < 64 ==> e.top.spilled[s].None?)
    ensures var b := Leave(callee);
            && b.top.regs[0] == callee.top.regs[0] && b.top.refs == callee.top.refs
            && (1 <= r <= 5 ==> b.top.regs[r].Uninit?) && (6 <= r ==> b.top.regs[r] == x.top.regs[r])
            && b.top.bytes == x.top.bytes && b.top.spilled == x.top.spilled
            && b.top.frame == |x.saved| && b.saved == x.saved && b.retPc == x.retPc
  {
  }

  /** Other instructions leave the caller frames alone, up to aliases of a released
      reference. */
  lemma CallersUntouched(x: Stacked, insn: Insn, top: State, f: nat, r: Reg)
    requires f < |x.saved|
    ensures var next := After(x, insn, top);
            && next.top == top && |next.saved| == |x.saved| && next.retPc == x.retPc
            && next.saved[f].bytes == x.saved[f].bytes && next.saved[f].retPc == x.saved[f].retPc
            && (!Releases(x.top, insn) ==> next.saved == x.saved)
            && (Releases(x.top, insn) && !HoldsRef(x.saved[f].regs[r], x.top.regs[1].ref) ==>
                  next.saved[f].regs[r] == x.saved[f].regs[r])
  {
    hide FullSpill;
  }
}
