/** Soundness over whole runs with BPF-to-BPF calls (`src/exec.rs`, `src/mini.rs`,
    `src/concrete.rs`): a set of abstract states that contains the initial one and is
    closed under the successors covers every concrete execution, frame by frame. */
module CallSimulation {
  import opened Words
  import opened Scalar
  import opened Insn
  import opened Abstract
  import opened Offsets
  import opened Coverage
  import opened StackSound
  import opened FreshBytes
  import opened Simulation
  import opened Calls
  import opened Runs
  import C = Concrete

  // ── What the theorem asks of each abstract step ──────────────────────────

  /** No scalar of a caller frame is linked by the id. */
  ghost predicate OuterUnused(x: Stacked, id: int) {
    forall f: nat :: f < |x.saved| ==> GroupEmpty(OuterState(x, f), id)
  }

  /** The guard of one frame, with calls that keep their target, fresh link ids over
      all frames, and the store guard on the frame a store reaches. */
  ghost predicate StackedGuard(pc: U32, x: Stacked, insn: Insn) {
    if insn.CallSub? then LowHalf(insn.callOffset) == insn.callOffset
    else if OuterAccess(x, insn) then
      IsStore(insn) ==>
        StoreGuard(pc, Focus(x, x.top.regs[insn.base].frameno), insn.base, insn.offset, insn.size.Bytes(),
                   StoredState(x.top, insn))
    else
      && StepGuard(pc, x.top, insn)
      && (insn.MovReg? && NeedsLink(x.top.regs[insn.src]) ==> OuterUnused(x, Wrap32(pc + 1)))
  }

  // ── The relation ─────────────────────────────────────────────────────────

  /** The concrete frame f with a stack of its own. */
  function FrameAt(c: C.State, f: nat): C.State
    requires f < |c.saved| && c.saved[f].Some?
  {
    c.(regs := c.saved[f].value.regs, stack := c.saved[f].value.stack, curframe := f)
  }

  ghost predicate OuterCovers(base: Base, x: Stacked, c: C.State, f: nat)
    requires f < |x.saved|
  {
    && f < |c.saved| && c.saved[f].Some? && c.saved[f].value.retPc == x.saved[f].retPc
    && CoversOn(base, OuterState(x, f), FrameAt(c, f))
    && FreshZero(x.saved[f].bytes, c.saved[f].value.stack)
  }

  /** All frames are covered on one choice of base values. */
  ghost predicate StackedOn(base: Base, x: Stacked, c: C.State) {
    && Layered(x) && CoversOn(base, x.top, c) && FreshZero(x.top.bytes, c.stack) && c.retPc == x.retPc
    && forall f: nat :: f < |x.saved| ==> OuterCovers(base, x, c, f)
  }

  ghost predicate StackedCovers(x: Stacked, c: C.State) { exists base: Base :: StackedOn(base, x, c) }

  lemma StartCovers()
    ensures StackedCovers(Start(), C.Initial())
  {
    hide CoversOn, FreshZero;
    InitialCovers();
    var base: Base :| CoversOn(base, Initial(), C.Initial());
    StartLayered();
    EmptyFresh();
    hide Layered;
    assert StackedOn(base, Start(), C.Initial());
  }

  // ── Steps inside the executing frame ─────────────────────────────────────

  /** The concrete frames around the executing one are the same. */
  ghost predicate SameAround(c: C.State, d: C.State) {
    d.saved == c.saved && d.retPc == c.retPc && d.curframe == c.curframe
  }

  predicate StoresHere(c: C.State, insn: Insn) {
    IsStore(insn) && c.regs[insn.base].Some? && c.regs[insn.base].value.StackPtr? ==>
      c.regs[insn.base].value.frameno == c.curframe
  }

  lemma StepAround(pc: U32, c: C.State, insn: Insn)
    requires FallsThrough(insn) && StoresHere(c, insn) && C.Step(pc, c, insn).Ok?
    ensures SameAround(c, C.Step(pc, c, insn).value)
    ensures !IsStore(insn) ==> C.Step(pc, c, insn).value.stack == c.stack
  {
    hide AluConst, C.AccessOffset, C.StackRange, C.Merge, C.Extract, SaturateI64, C.PtrOffset, Wrap64, Signed64;
  }

  lemma SuccessorAround(pc: U32, c: C.State, insn: Insn, k: nat)
    requires !insn.CallSub? && StoresHere(c, insn)
    requires C.Successors(pc, c, insn).Ok? && k < |C.Successors(pc, c, insn).value|
    ensures var d := C.Successors(pc, c, insn).value[k].1;
            SameAround(c, d) && (!IsStore(insn) ==> d.stack == c.stack)
  {
    hide C.Step, Target, C.CompareValues;
    if FallsThrough(insn) {
      StepAround(pc, c, insn);
    }
  }

  lemma TopReg(base: Base, x: Stacked, c: C.State, reg: Reg)
    requires StackedOn(base, x, c)
    ensures RegCovers(base, x.top.regs[reg], c.regs[reg]) && PointsBelow(x.top.regs[reg], x.top.frame)
    ensures c.curframe == x.top.frame == |x.saved|
  {
    hide RegCovers;
  }

  /** A store that is not to a caller frame is to the executing one, on both sides. */
  lemma StoreIsHere(base: Base, pc: U32, x: Stacked, c: C.State, insn: Insn)
    requires StackedOn(base, x, c) && !OuterAccess(x, insn)
    ensures StoresHere(c, insn)
    ensures IsStore(insn) && Abstract.Step(pc, x.top, insn).Ok? ==> OwnFrame(x.top, insn.base)
  {
    hide StackedOn, OffsetCovers, Gamma, CheckAccess, StackStore, Const;
    if IsStore(insn) {
      TopReg(base, x, c, insn.base);
    }
  }

  lemma NoRelease(base: Base, x: Stacked, c: C.State, insn: Insn)
    requires StackedOn(base, x, c)
    ensures !Releases(x.top, insn)
  {
    hide StackedOn;
    TopReg(base, x, c, 1);
  }

  /** The operand of an accepted store has a concrete value. */
  lemma StoredOperand(base: Base, x: Stacked, c: C.State, insn: Insn)
    requires StackedOn(base, x, c) && IsStore(insn)
    ensures RegCovers(base, StoredState(x.top, insn), StoredValueOf(c, insn))
  {
    hide StackedOn, Gamma;
    if insn.StMem? {
      TopReg(base, x, c, insn.src);
    } else {
      ConstCovered(base, insn.imm);
    }
  }

  function StoredValueOf(c: C.State, insn: Insn): Option<C.Value>
    requires IsStore(insn)
  {
    if insn.StMem? then c.regs[insn.src] else Some(C.Number(Wrap64(insn.imm)))
  }

  lemma TopFresh(base: Base, pc: U32, x: Stacked, c: C.State, insn: Insn, j: nat, k: nat)
    requires StackedOn(base, x, c) && !insn.Exit? && !insn.CallSub? && !OuterAccess(x, insn)
    requires Abstract.Successors(pc, x.top, insn).Ok? && j < |Abstract.Successors(pc, x.top, insn).value|
    requires C.Successors(pc, c, insn).Ok? && k < |C.Successors(pc, c, insn).value|
    ensures FreshZero(Abstract.Successors(pc, x.top, insn).value[j].1.bytes, C.Successors(pc, c, insn).value[k].1.stack)
  {
    TopParts(base, x, c);
    hide FreshZero, C.Step, C.Conditional, Abstract.Conditional, C.CallHelper, Abstract.CallHelper, Target, StackedOn;
    StoreIsHere(base, pc, x, c, insn);
    if IsStore(insn) {
      hide CoversOn, StackWrite, C.Store, RegCovers;
      var v, cv := StoredState(x.top, insn), StoredValueOf(c, insn);
      StoredOperand(base, x, c, insn);
      StoreSteps(pc, x.top, c, insn);
      StoredValue(base, pc, x.top, insn.base, insn.offset, insn.size.Bytes(), v, cv);
      StoreFresh(base, pc, x.top, c, insn.base, insn.offset, insn.size.Bytes(), v, cv.value);
    } else {
      hide Abstract.Step, Abstract.Successors, C.Successors;
      SuccessorsKeepBytes(pc, x.top, insn);
      SuccessorAround(pc, c, insn, k);
    }
  }

  lemma TopParts(base: Base, x: Stacked, c: C.State)
    requires StackedOn(base, x, c)
    ensures CoversOn(base, x.top, c) && FreshZero(x.top.bytes, c.stack)
  {
  }

  /** The two sides of a store as one call each. */
  lemma StoreSteps(pc: U32, a: State, c: C.State, insn: Insn)
    requires IsStore(insn)
    ensures Abstract.Step(pc, a, insn) ==
            StackWrite(pc, a, insn.base, insn.offset, insn.size.Bytes(), StoredState(a, insn))
    ensures C.Step(pc, c, insn) ==
            C.Store(pc, c, StoredValueOf(c, insn), insn.base, insn.offset, insn.size.Bytes())
  {
    hide StackWrite, C.Store, Const;
  }

  /** Caller frames that did not change stay covered, on the new base too. */
  lemma OuterKept(base: Base, next: Base, x: Stacked, y: Stacked, c: C.State, d: C.State, f: nat)
    requires f < |x.saved| == |y.saved| && y.saved[f] == x.saved[f] && OuterCovers(base, x, c, f)
    requires f < |c.saved| && c.saved[f] == d.saved[f]
    requires next == base || exists id: int, z: U64 :: next == Rebase(base, id, z) && GroupEmpty(OuterState(x, f), id)
    ensures OuterCovers(next, y, d, f)
  {
    hide RegCovers, SlotCovers, GroupEmpty, FreshZero, Rebase;
    if next != base {
      var id: int, z: U64 :| next == Rebase(base, id, z) && GroupEmpty(OuterState(x, f), id);
      hide CoversOn;
      RebaseCovers(base, id, z, OuterState(x, f), FrameAt(c, f));
    }
    FramesAlike(next, OuterState(x, f), OuterState(y, f), FrameAt(c, f), FrameAt(d, f));
  }

  /** Covering looks at the registers, the stack and the frame number only. */
  lemma FramesAlike(base: Base, a: State, b: State, c: C.State, d: C.State)
    requires CoversOn(base, a, c)
    requires a.regs == b.regs && a.bytes == b.bytes && a.spilled == b.spilled && a.frame == b.frame
    requires c.regs == d.regs && c.stack == d.stack && c.curframe == d.curframe
    ensures CoversOn(base, b, d)
  {
    hide RegCovers, SlotCovers;
  }

  /** The base values of a step change in one group at most, and not under the feet
      of a caller frame. */
  lemma NextBaseKeeps(base: Base, pc: U32, x: Stacked, c: C.State, insn: Insn, f: nat)
    requires StackedOn(base, x, c) && StackedGuard(pc, x, insn) && !insn.CallSub? && !OuterAccess(x, insn)
    requires f < |x.saved|
    ensures var next := NextBase(base, pc, x.top, c, insn);
            next == base || exists id: int, z: U64 :: next == Rebase(base, id, z) && GroupEmpty(OuterState(x, f), id)
  {
    hide StackedOn, GroupEmpty, Rebase, NeedsLink, StepGuard;
    var next := NextBase(base, pc, x.top, c, insn);
    if insn.MovReg? && c.regs[insn.src].Some? && NeedsLink(x.top.regs[insn.src]) {
      LinkedIsNumber(x.top.regs[insn.src]);
      var z := Wrap64(c.regs[insn.src].value.bits - x.top.regs[insn.src].b.delta);
      assert next == Rebase(base, Wrap32(pc + 1), z) && GroupEmpty(OuterState(x, f), Wrap32(pc + 1));
    }
  }

  lemma LinkedIsNumber(v: RegState)
    requires NeedsLink(v)
    ensures v.Num?
  {
  }

  /** A concrete successor is covered by one of the abstract ones at its pc. */
  ghost predicate StackedMatched(succs: seq<(nat, Stacked)>, pc: nat, c: C.State) {
    exists j :: 0 <= j < |succs| && succs[j].0 == pc && StackedCovers(succs[j].1, c)
  }

  lemma CombineOn(base: Base, x: Stacked, c: C.State)
    requires Layered(x) && CoversOn(base, x.top, c) && FreshZero(x.top.bytes, c.stack) && c.retPc == x.retPc
    requires forall f: nat :: f < |x.saved| ==> OuterCovers(base, x, c, f)
    ensures StackedCovers(x, c)
  {
    hide CoversOn, FreshZero, Layered, OuterCovers;
    assert StackedOn(base, x, c);
  }

  lemma Parts(base: Base, x: Stacked, c: C.State)
    requires StackedOn(base, x, c)
    ensures Layered(x) && CoversOn(base, x.top, c) && FreshZero(x.top.bytes, c.stack) && c.retPc == x.retPc
    ensures forall f: nat :: f < |x.saved| ==> OuterCovers(base, x, c, f)
  {
    hide CoversOn, FreshZero, Layered, OuterCovers;
  }

  lemma InFrameStep(base: Base, pc: U32, x: Stacked, c: C.State, insn: Insn, k: nat)
    requires StackedOn(base, x, c) && StackedGuard(pc, x, insn) && StackedSuccessors(pc, x, insn).Ok?
    requires !insn.Exit? && !insn.CallSub? && !OuterAccess(x, insn)
    ensures C.Successors(pc, c, insn).Ok?
    ensures k < |C.Successors(pc, c, insn).value| ==>
              var next := C.Successors(pc, c, insn).value[k];
              StackedMatched(StackedSuccessors(pc, x, insn).value, next.0, next.1)
  {
    Parts(base, x, c);
    hide CoversOn, FreshZero, Layered, OuterCovers, StackedOn, StepGuard, NeedsLink, NextBase, Matched, StackedCovers,
         Abstract.Successors, C.Successors, Abstract.Step, SameAround;
    StepSimulates(base, pc, x.top, c, insn, k);
    if k < |C.Successors(pc, c, insn).value| {
      var d := C.Successors(pc, c, insn).value[k];
      var succs := Abstract.Successors(pc, x.top, insn).value;
      var next := NextBase(base, pc, x.top, c, insn);
      var j := MatchIndex(next, succs, d.0, d.1);
      var y := StackedSuccessors(pc, x, insn).value[j].1;
      NoRelease(base, x, c, insn);
      assert y == x.(top := succs[j].1);
      SuccessorLayered(pc, x, insn, j);
      TopFresh(base, pc, x, c, insn, j, k);
      StoreIsHere(base, pc, x, c, insn);
      SuccessorAround(pc, c, insn, k);
      Around(c, d.1);
      forall f: nat | f < |x.saved|
        ensures OuterCovers(next, y, d.1, f)
      {
        NextBaseKeeps(base, pc, x, c, insn, f);
        SavedInside(base, x, c, f);
        OuterKept(base, next, x, y, c, d.1, f);
      }
      CombineOn(next, y, d.1);
    }
  }

  lemma Around(c: C.State, d: C.State)
    requires SameAround(c, d)
    ensures d.saved == c.saved && d.retPc == c.retPc && d.curframe == c.curframe
  {
  }

  lemma SavedInside(base: Base, x: Stacked, c: C.State, f: nat)
    requires f < |x.saved| && OuterCovers(base, x, c, f)
    ensures f < |c.saved|
  {
  }

  // ── Calls and returns ────────────────────────────────────────────────────

  lemma FramePointerCovers(base: Base, frame: nat)
    ensures RegCovers(base, PtrToStack(0, 0, 0, frame), Some(C.StackPtr(C.STACK_BASE, frame)))
  {
  }

  lemma CalleeCovers(base: Base, x: Stacked, c: C.State, returnPc: U32)
    requires CoversOn(base, x.top, c) && Enter(x, returnPc).Ok? && C.EnterSubprog(c, returnPc).Ok?
    ensures CoversOn(base, Enter(x, returnPc).value.top, C.EnterSubprog(c, returnPc).value)
  {
    var a, d := Enter(x, returnPc).value.top, C.EnterSubprog(c, returnPc).value;
    FramePointerCovers(base, x.top.frame + 1);
    UninitCovers(base);
    hide SlotCovers, RegCovers, C.SaveFrame;
    EmptyStackCovers(base, a, d.stack);
    forall r | 0 <= r < 11
      ensures RegCovers(base, a.regs[r], d.regs[r])
    {
      assert RegCovers(base, x.top.regs[r], c.regs[r]);
    }
  }

  lemma EnterCovers(base: Base, x: Stacked, c: C.State, returnPc: U32)
    requires StackedOn(base, x, c) && Enter(x, returnPc).Ok?
    ensures C.EnterSubprog(c, returnPc).Ok?
    ensures StackedCovers(Enter(x, returnPc).value, C.EnterSubprog(c, returnPc).value)
  {
    Parts(base, x, c);
    TopReg(base, x, c, 0);
    hide StackedOn, CoversOn, FreshZero, Layered, OuterCovers, StackedCovers, CalleeRegs, C.CalleeRegs;
    var y, d := Enter(x, returnPc).value, C.EnterSubprog(c, returnPc).value;
    EnterLayered(x, returnPc);
    CalleeCovers(base, x, c, returnPc);
    EmptyFresh();
    forall f: nat | f < |y.saved|
      ensures OuterCovers(base, y, d, f)
    {
      EnteredOuter(base, x, c, returnPc, f);
    }
    CombineOn(base, y, d);
  }

  lemma EnteredOuter(base: Base, x: Stacked, c: C.State, returnPc: U32, f: nat)
    requires StackedOn(base, x, c) && Enter(x, returnPc).Ok? && C.EnterSubprog(c, returnPc).Ok?
    requires f <= |x.saved| == x.top.frame == c.curframe
    ensures OuterCovers(base, Enter(x, returnPc).value, C.EnterSubprog(c, returnPc).value, f)
  {
    Parts(base, x, c);
    hide StackedOn, CoversOn, FreshZero, Layered, CalleeRegs, C.CalleeRegs;
    var y, d := Enter(x, returnPc).value, C.EnterSubprog(c, returnPc).value;
    if f < |x.saved| {
      assert OuterCovers(base, x, c, f);
      FramesAlike(base, OuterState(x, f), OuterState(y, f), FrameAt(c, f), FrameAt(d, f));
    } else {
      FramesAlike(base, x.top, OuterState(y, f), c, FrameAt(d, f));
    }
  }

  lemma CallerCovers(base: Base, x: Stacked, c: C.State)
    requires StackedOn(base, x, c) && x.saved != []
    ensures c.curframe > 0 && c.saved[c.curframe - 1].Some?
    ensures CoversOn(base, Leave(x).top, C.LeaveSubprog(c))
  {
    TopReg(base, x, c, 0);
    var f := |x.saved| - 1;
    assert OuterCovers(base, x, c, f);
    UninitCovers(base);
    hide SlotCovers, RegCovers, C.DropFrame, FreshZero, Layered, OuterCovers, StackedOn;
    var a, d := Leave(x).top, C.LeaveSubprog(c);
    forall r | 0 <= r < 11
      ensures RegCovers(base, a.regs[r], d.regs[r])
    {
      assert RegCovers(base, OuterState(x, f).regs[r], FrameAt(c, f).regs[r]);
    }
    assert StackCovers(base, OuterState(x, f), FrameAt(c, f).stack);
    forall s | 0 <= s < 64
      ensures SlotCovers(base, a.bytes, s, a.spilled[s], d.stack[s])
    {
      assert SlotCovers(base, OuterState(x, f).bytes, s, OuterState(x, f).spilled[s], FrameAt(c, f).stack[s]);
    }
  }

  /** A return restores a covered caller, at the same return address on both sides. */
  lemma LeaveCovers(base: Base, x: Stacked, c: C.State)
    requires StackedOn(base, x, c) && x.saved != [] && !x.top.regs[0].PtrToStack?
    ensures c.curframe > 0 && c.retPc == x.retPc && StackedCovers(Leave(x), C.LeaveSubprog(c))
    ensures !(c.regs[0].Some? && c.regs[0].value.StackPtr?)
  {
    Parts(base, x, c);
    TopReg(base, x, c, 0);
    CallerCovers(base, x, c);
    NoPointerValue(base, x.top.regs[0], c.regs[0]);
    hide StackedOn, CoversOn, Layered, StackedCovers, RegCovers, FreshZero;
    LeaveLayered(x);
    var y, d := Leave(x), C.LeaveSubprog(c);
    assert OuterCovers(base, x, c, |x.saved| - 1);
    forall f: nat | f < |y.saved|
      ensures OuterCovers(base, y, d, f)
    {
      assert OuterCovers(base, x, c, f);
      FramesAlike(base, OuterState(x, f), OuterState(y, f), FrameAt(c, f), FrameAt(d, f));
    }
    CombineOn(base, y, d);
  }

  lemma NoPointerValue(base: Base, v: RegState, cv: Option<C.Value>)
    requires RegCovers(base, v, cv) && !v.PtrToStack?
    ensures !(cv.Some? && cv.value.StackPtr?)
  {
  }

  // ── Accesses to caller frames ────────────────────────────────────────────

  /** The executing registers over the concrete stack of frame f. */
  function FocusAt(c: C.State, f: nat): C.State
    requires f < |c.saved| && c.saved[f].Some?
  {
    c.(stack := c.saved[f].value.stack, curframe := f)
  }

  lemma FocusCovers(base: Base, x: Stacked, c: C.State, f: nat)
    requires StackedOn(base, x, c) && f < |x.saved|
    ensures f < |c.saved| && c.saved[f].Some? && f < c.curframe && C.FrameStack(c, f) == Some(c.saved[f].value.stack)
    ensures CoversOn(base, Focus(x, f), FocusAt(c, f)) && FreshZero(Focus(x, f).bytes, FocusAt(c, f).stack)
  {
    TopReg(base, x, c, 0);
    assert OuterCovers(base, x, c, f);
    hide RegCovers, SlotCovers, FreshZero, Layered;
    assert RegsCover(base, x.top, c);
    assert StackCovers(base, OuterState(x, f), FrameAt(c, f).stack);
    StacksAlike(base, OuterState(x, f), Focus(x, f), FrameAt(c, f).stack);
  }

  lemma StacksAlike(base: Base, a: State, b: State, cells: C.Cells)
    requires StackCovers(base, a, cells) && a.bytes == b.bytes && a.spilled == b.spilled
    ensures StackCovers(base, b, cells)
  {
    hide SlotCovers;
  }

  /** An access through a pointer to frame f finds the same place in the focus. */
  lemma LocateFocus(pc: nat, c: C.State, f: nat, reg: Reg, off: I16, size: nat)
    requires ValidSize(size) && f < |c.saved| && c.saved[f].Some? && f < c.curframe
    requires c.regs[reg].Some? && c.regs[reg].value.StackPtr? ==> c.regs[reg].value.frameno == f
    ensures C.Locate(pc, c, reg, off, size) == C.Locate(pc, FocusAt(c, f), reg, off, size)
    ensures C.Locate(pc, c, reg, off, size).Ok? ==> C.Locate(pc, c, reg, off, size).value.frameno == f
  {
    hide C.AccessOffset, C.StackRange;
  }

  lemma LoadFocus(pc: nat, c: C.State, f: nat, dst: Reg, reg: Reg, off: I16, size: nat, signExtend: bool)
    requires ValidSize(size) && f < |c.saved| && c.saved[f].Some? && f < c.curframe
    requires c.regs[reg].Some? && c.regs[reg].value.StackPtr? ==> c.regs[reg].value.frameno == f
    requires C.Load(pc, FocusAt(c, f), dst, reg, off, size, signExtend).Ok?
    ensures var loaded := C.Load(pc, FocusAt(c, f), dst, reg, off, size, signExtend).value;
            && loaded.regs[dst].Some?
            && C.Load(pc, c, dst, reg, off, size, signExtend) == Ok(C.SetReg(c, dst, loaded.regs[dst].value))
  {
    hide C.Locate, C.Extract;
    LocateFocus(pc, c, f, reg, off, size);
  }

  lemma StoreFocus(pc: nat, c: C.State, f: nat, cv: C.Value, reg: Reg, off: I16, size: nat)
    requires ValidSize(size) && f < |c.saved| && c.saved[f].Some? && f < c.curframe
    requires c.regs[reg].Some? && c.regs[reg].value.StackPtr? ==> c.regs[reg].value.frameno == f
    requires C.Store(pc, FocusAt(c, f), Some(cv), reg, off, size).Ok?
    ensures var stored := C.Store(pc, FocusAt(c, f), Some(cv), reg, off, size).value;
            C.Store(pc, c, Some(cv), reg, off, size) ==
            Ok(c.(saved := c.saved[f := Some(c.saved[f].value.(stack := stored.stack))]))
  {
    hide C.Locate, C.Merge;
    LocateFocus(pc, c, f, reg, off, size);
  }

  lemma PointerFrame(base: Base, x: Stacked, c: C.State, reg: Reg)
    requires StackedOn(base, x, c) && x.top.regs[reg].PtrToStack?
    ensures c.regs[reg].Some? && c.regs[reg].value.StackPtr? && c.regs[reg].value.frameno == x.top.regs[reg].frameno
  {
    hide StackedOn;
    TopReg(base, x, c, reg);
  }

  lemma OuterLoadCovers(base: Base, pc: U32, x: Stacked, c: C.State, insn: Insn)
    requires StackedOn(base, x, c) && insn.LdMem? && OuterAccess(x, insn) && OuterStep(pc, x, insn).Ok?
    ensures C.Step(pc, c, insn).Ok?
    ensures StackedCovers(OuterStep(pc, x, insn).value, C.Step(pc, c, insn).value)
  {
    Parts(base, x, c);
    hide StackedOn, CoversOn, FreshZero, Layered, StackedCovers, StackRead, C.Load;
    var f := x.top.regs[insn.base].frameno;
    var (dst, reg, off, size, ext) := (insn.dst, insn.base, insn.offset, insn.size.Bytes(), insn.signExtend);
    FocusCovers(base, x, c, f);
    PointerFrame(base, x, c, reg);
    LoadCovers(base, pc, Focus(x, f), FocusAt(c, f), dst, reg, off, size, ext);
    LoadFocus(pc, c, f, dst, reg, off, size, ext);
    var v := StackRead(pc, Focus(x, f), reg, off, size, ext).value;
    var loaded := C.Load(pc, FocusAt(c, f), dst, reg, off, size, ext).value;
    LoadedCovers(base, SetReg(Focus(x, f), dst, v), loaded, dst);
    SetRegCovers(base, x.top, c, dst, v, loaded.regs[dst].value);
    OuterStepLayered(pc, x, insn);
    var y, d := OuterStep(pc, x, insn).value, C.SetReg(c, dst, loaded.regs[dst].value);
    assert C.Step(pc, c, insn) == Ok(d);
    forall g: nat | g < |y.saved|
      ensures OuterCovers(base, y, d, g)
    {
      assert OuterCovers(base, x, c, g);
      FramesAlike(base, OuterState(x, g), OuterState(y, g), FrameAt(c, g), FrameAt(d, g));
    }
    CombineOn(base, y, d);
  }

  lemma LoadedCovers(base: Base, a: State, c: C.State, dst: Reg)
    requires CoversOn(base, a, c)
    ensures RegCovers(base, a.regs[dst], c.regs[dst])
  {
  }

  /** The store in the focus, on both sides, and what it leaves in frame f. */
  lemma FocusStore(base: Base, pc: U32, x: Stacked, c: C.State, insn: Insn, f: nat)
    requires StackedOn(base, x, c) && IsStore(insn) && OuterAccess(x, insn) && f == x.top.regs[insn.base].frameno
    requires var (reg, off, size) := (insn.base, insn.offset, insn.size.Bytes());
             StackWrite(pc, Focus(x, f), reg, off, size, StoredState(x.top, insn)).Ok?
             && StoreGuard(pc, Focus(x, f), reg, off, size, StoredState(x.top, insn))
    ensures f < |c.saved| && c.saved[f].Some?
    ensures var (reg, off, size) := (insn.base, insn.offset, insn.size.Bytes());
            var st := StackWrite(pc, Focus(x, f), reg, off, size, StoredState(x.top, insn)).value;
            var stored := C.Store(pc, FocusAt(c, f), StoredValueOf(c, insn), reg, off, size);
            && stored.Ok? && CoversOn(base, st, stored.value) && FreshZero(st.bytes, stored.value.stack)
            && C.Step(pc, c, insn) == Ok(c.(saved :=
                c.saved[f := Some(c.saved[f].value.(stack := stored.value.stack))]))
  {
    hide StackedOn, CoversOn, FreshZero, StackWrite, C.Store, StoreGuard, RegCovers, SpillsWhole, C.Step;
    var (reg, off, size) := (insn.base, insn.offset, insn.size.Bytes());
    var v, cv := StoredState(x.top, insn), StoredValueOf(c, insn);
    FocusCovers(base, x, c, f);
    PointerFrame(base, x, c, reg);
    StoredOperand(base, x, c, insn);
    StoreStep(base, pc, Focus(x, f), FocusAt(c, f), reg, off, size, v, cv);
    StoredValue(base, pc, Focus(x, f), reg, off, size, v, cv);
    StoreFresh(base, pc, Focus(x, f), FocusAt(c, f), reg, off, size, v, cv.value);
    StoreFocus(pc, c, f, cv.value, reg, off, size);
    StoreSteps(pc, x.top, c, insn);
  }

  lemma OuterStoreCovers(base: Base, pc: U32, x: Stacked, c: C.State, insn: Insn)
    requires StackedOn(base, x, c) && IsStore(insn) && OuterAccess(x, insn) && OuterStep(pc, x, insn).Ok?
    requires StackedGuard(pc, x, insn)
    ensures C.Step(pc, c, insn).Ok?
    ensures StackedCovers(OuterStep(pc, x, insn).value, C.Step(pc, c, insn).value)
  {
    Parts(base, x, c);
    hide StackedOn, CoversOn, FreshZero, Layered, StackedCovers, StackWrite, C.Store, StoreGuard, SpillsWhole, C.Step,
         StoredState, StoredValueOf;
    var f := x.top.regs[insn.base].frameno;
    var (reg, off, size) := (insn.base, insn.offset, insn.size.Bytes());
    FocusStore(base, pc, x, c, insn, f);
    var st := StackWrite(pc, Focus(x, f), reg, off, size, StoredState(x.top, insn)).value;
    var stored := C.Store(pc, FocusAt(c, f), StoredValueOf(c, insn), reg, off, size).value;
    OuterStepLayered(pc, x, insn);
    var y, d := OuterStep(pc, x, insn).value, C.Step(pc, c, insn).value;
    FramesAlike(base, x.top, y.top, c, d);
    forall g: nat | g < |y.saved|
      ensures OuterCovers(base, y, d, g)
    {
      assert OuterCovers(base, x, c, g);
      if g == f {
        RestackedCovers(base, OuterState(x, f), st, OuterState(y, f), FrameAt(c, f), stored, FrameAt(d, f));
      } else {
        FramesAlike(base, OuterState(x, g), OuterState(y, g), FrameAt(c, g), FrameAt(d, g));
      }
    }
    CombineOn(base, y, d);
  }

  /** Registers of one covered pair over the stack of another. */
  lemma RestackedCovers(base: Base, a: State, st: State, b: State, c: C.State, stored: C.State, d: C.State)
    requires CoversOn(base, a, c) && CoversOn(base, st, stored)
    requires b == a.(bytes := st.bytes, spilled := st.spilled)
    requires d.regs == c.regs && d.stack == stored.stack && d.curframe == c.curframe
    ensures CoversOn(base, b, d)
  {
    hide RegCovers, SlotCovers;
    StacksAlike(base, st, b, stored.stack);
  }

  lemma OuterSimulates(base: Base, pc: U32, x: Stacked, c: C.State, insn: Insn)
    requires StackedOn(base, x, c) && OuterAccess(x, insn) && OuterStep(pc, x, insn).Ok? && StackedGuard(pc, x, insn)
    ensures C.Step(pc, c, insn).Ok?
    ensures StackedCovers(OuterStep(pc, x, insn).value, C.Step(pc, c, insn).value)
  {
    hide StackedOn, OuterStep, C.Step, StackedCovers, StackedGuard;
    if insn.LdMem? {
      OuterLoadCovers(base, pc, x, c, insn);
    } else {
      OuterStoreCovers(base, pc, x, c, insn);
    }
  }

  // ── One instruction ──────────────────────────────────────────────────────

  /** One instruction: if the abstract side accepts, the concrete side does not fail,
      and each concrete successor is covered, in all frames, by an abstract one. */
  lemma StackedStepSimulates(base: Base, pc: U32, x: Stacked, c: C.State, insn: Insn, k: nat)
    requires StackedOn(base, x, c) && !insn.Exit? && StackedGuard(pc, x, insn) && StackedSuccessors(pc, x, insn).Ok?
    ensures C.Successors(pc, c, insn).Ok?
    ensures k < |C.Successors(pc, c, insn).value| ==>
              var next := C.Successors(pc, c, insn).value[k];
              StackedMatched(StackedSuccessors(pc, x, insn).value, next.0, next.1)
  {
    hide StackedOn, StackedCovers, StepGuard, OuterStep, C.Step, Enter, C.EnterSubprog, Target, Abstract.Successors;
    if insn.CallSub? {
      EnterCovers(base, x, c, Wrap32(pc + 1));
      assert StackedSuccessors(pc, x, insn).value[0].1 == Enter(x, Wrap32(pc + 1)).value;
    } else if OuterAccess(x, insn) {
      OuterSimulates(base, pc, x, c, insn);
      assert StackedSuccessors(pc, x, insn).value[0] == (pc + 1, OuterStep(pc, x, insn).value);
    } else {
      InFrameStep(base, pc, x, c, insn, k);
    }
  }

  // ── Whole runs ───────────────────────────────────────────────────────────

  /** Any exploration result: pairs of a program counter and an abstract state. */
  type Reach = iset<(nat, Stacked)>

  /** The pair is processed without an error: a nested exit returns no stack pointer
      and continues at the return address, the outermost one has a value in R0, and
      elsewhere every abstract successor is in the set again. */
  ghost predicate Explored(program: Program, reach: Reach, pc: nat, x: Stacked) {
    && pc < |program| && StackedGuard(pc, x, program[pc])
    && if program[pc].Exit? then
         if x.saved != [] then !x.top.regs[0].PtrToStack? && (x.retPc, Leave(x)) in reach else !x.top.regs[0].Uninit?
       else
         && StackedSuccessors(pc, x, program[pc]).Ok?
         && forall k :: 0 <= k < |StackedSuccessors(pc, x, program[pc]).value| ==>
              StackedSuccessors(pc, x, program[pc]).value[k] in reach
  }

  ghost predicate Closed(program: Program, reach: Reach) {
    forall pc: nat, x: Stacked :: (pc, x) in reach ==> Explored(program, reach, pc, x)
  }

  ghost predicate CoveredAt(reach: Reach, pc: nat, c: C.State) {
    exists x: Stacked :: (pc, x) in reach && StackedCovers(x, c)
  }

  lemma CoveredAtBy(reach: Reach, pc: nat, x: Stacked, c: C.State)
    requires (pc, x) in reach && StackedCovers(x, c)
    ensures CoveredAt(reach, pc, c)
  {
  }

  lemma CoveredExit(program: Program, reach: Reach, base: Base, pc: nat, x: Stacked, c: C.State)
    requires (pc, x) in reach && Explored(program, reach, pc, x) && StackedOn(base, x, c) && program[pc].Exit?
    ensures !C.Explore(program, pc, c).Fails?
    ensures forall next :: Steps(program, (pc, c), next) ==> CoveredAt(reach, next.0, next.1)
  {
    TopReg(base, x, c, 0);
    ValueThere(base, x.top.regs[0], c.regs[0]);
    hide StackedCovers, StackedOn, Leave, C.LeaveSubprog, RegCovers;
    if x.saved != [] {
      LeaveCovers(base, x, c);
      CoveredAtBy(reach, x.retPc, Leave(x), C.LeaveSubprog(c));
      assert C.Explore(program, pc, c) == C.Next([(c.retPc, C.LeaveSubprog(c))]);
    }
  }

  lemma ValueThere(base: Base, v: RegState, cv: Option<C.Value>)
    requires RegCovers(base, v, cv)
    ensures !v.Uninit? ==> cv.Some?
  {
  }

  lemma MatchedIn(program: Program, reach: Reach, pc: nat, x: Stacked, next: nat, d: C.State)
    requires pc < |program| && StackedSuccessors(pc, x, program[pc]).Ok?
    requires StackedMatched(StackedSuccessors(pc, x, program[pc]).value, next, d)
    requires forall k :: 0 <= k < |StackedSuccessors(pc, x, program[pc]).value| ==>
               StackedSuccessors(pc, x, program[pc]).value[k] in reach
    ensures CoveredAt(reach, next, d)
  {
    hide StackedCovers, StackedSuccessors;
    var succs := StackedSuccessors(pc, x, program[pc]).value;
    var j :| 0 <= j < |succs| && succs[j].0 == next && StackedCovers(succs[j].1, d);
    assert succs[j] == (next, succs[j].1);
  }

  /** A covered concrete state does not fail, and its successors are covered. */
  lemma CoveredStep(program: Program, reach: Reach, pc: nat, c: C.State)
    requires Closed(program, reach) && CoveredAt(reach, pc, c)
    ensures !C.Explore(program, pc, c).Fails?
    ensures forall next :: Steps(program, (pc, c), next) ==> CoveredAt(reach, next.0, next.1)
  {
    var x: Stacked :| (pc, x) in reach && StackedCovers(x, c);
    var base: Base :| StackedOn(base, x, c);
    hide StackedOn, C.Successors, StackedSuccessors, StackedGuard, StackedMatched, CoveredAt, StackedCovers;
    assert Explored(program, reach, pc, x);
    var insn := program[pc];
    if insn.Exit? {
      CoveredExit(program, reach, base, pc, x, c);
    } else {
      StackedStepSimulates(base, pc, x, c, insn, 0);
      var csuccs := C.Successors(pc, c, insn).value;
      forall next | Steps(program, (pc, c), next)
        ensures CoveredAt(reach, next.0, next.1)
      {
        var k: nat :| k < |csuccs| && csuccs[k] == next;
        StackedStepSimulates(base, pc, x, c, insn, k);
        MatchedIn(program, reach, pc, x, next.0, next.1);
      }
    }
  }

  /** Soundness over whole runs of arbitrary programs: if a set of abstract states
      contains the initial one and is closed under the successors without an error,
      no concrete execution of any length fails, and every state it reaches is
      covered, in all its frames, by an abstract state at its program counter. */
  lemma {:induction false} WholeRunsCovered(program: Program, reach: Reach, trace: seq<(nat, C.State)>)
    requires Closed(program, reach) && (0, Start()) in reach && Run(program, trace)
    ensures forall i :: 0 <= i < |trace| ==>
              && CoveredAt(reach, trace[i].0, trace[i].1)
              && !C.Explore(program, trace[i].0, trace[i].1).Fails?
    decreases |trace|
  {
    hide Closed, StackedCovers, C.Explore, Steps;
    var last := |trace| - 1;
    if last == 0 {
      StartCovers();
    } else {
      var prefix := trace[..last];
      assert forall i: nat :: 0 < i < last ==> StepAt(program, trace, i) ==> StepAt(program, prefix, i);
      WholeRunsCovered(program, reach, prefix);
      assert trace[last - 1] == prefix[last - 1];
      CoveredStep(program, reach, trace[last - 1].0, trace[last - 1].1);
      assert StepAt(program, trace, last) && trace[last - 1] == (trace[last - 1].0, trace[last - 1].1);
    }
    CoveredStep(program, reach, trace[last].0, trace[last].1);
    forall i | 0 <= i < |trace|
      ensures CoveredAt(reach, trace[i].0, trace[i].1) && !C.Explore(program, trace[i].0, trace[i].1).Fails?
    {
      assert i < last ==> trace[i] == trace[..last][i];
    }
  }

  /** The same statement for every reachable point. */
  lemma ReachableCovered(program: Program, reach: Reach, x: Point)
    requires Closed(program, reach) && (0, Start()) in reach && Reachable(program, x)
    ensures CoveredAt(reach, x.0, x.1) && !C.Explore(program, x.0, x.1).Fails?
  {
    hide Closed, StackedCovers, C.Explore, CoveredAt, Steps;
    var trace: seq<Point> :| Run(program, trace) && trace[|trace| - 1] == x;
    WholeRunsCovered(program, reach, trace);
  }
}
