/** The abstract interpreter with the frames of BPF-to-BPF calls (`src/state.rs`,
    `src/exec.rs`): entering and leaving subprograms, and accesses through stack
    pointers that a callee was given by a caller. */
module Calls {
  import opened Words
  import opened Scalar
  import opened Insn
  import opened Abstract
  import opened Branch
  import Simulation
  import opened FreshBytes
  import Concrete

  /** `FrameState`: a caller frame while a call is active below it. */
  datatype Outer = Outer(regs: Regs, bytes: Marks, spilled: Spills, retPc: U32)

  /** `VerifierState`: the executing frame and its callers, the main program first. */
  datatype Stacked = Stacked(top: State, saved: seq<Outer>, retPc: U32)

  function Start(): Stacked { Stacked(Initial(), [], 0) }

  // ── Frames ───────────────────────────────────────────────────────────────

  function CalleeRegs(regs: Regs, frame: nat): Regs {
    [Uninit, regs[1], regs[2], regs[3], regs[4], regs[5], Uninit, Uninit, Uninit, Uninit, PtrToStack(0, 0, 0, frame)]
  }

  /** `call_subprog` */
  function Enter(x: Stacked, returnPc: U32): Result<Stacked, Rejection> {
    if x.top.frame >= MAX_CALL_FRAMES - 1 then Err(Rejection(0)) else
      Ok(Stacked(State(CalleeRegs(x.top.regs, x.top.frame + 1), NoMarks(), NoSpills(), x.top.refs, x.top.frame + 1),
                 x.saved + [Outer(x.top.regs, x.top.bytes, x.top.spilled, x.retPc)], returnPc))
  }

  /** `return_from_subprog` */
  function Leave(x: Stacked): Stacked
    requires x.saved != []
  {
    var f := |x.saved| - 1;
    var caller := x.saved[f];
    Stacked(State([x.top.regs[0]] + Abstract.Clobber(caller.regs)[1..], caller.bytes, caller.spilled, x.top.refs, f),
            x.saved[..f], caller.retPc)
  }

  /** A caller frame as the state it had. */
  function OuterState(x: Stacked, f: nat): State
    requires f < |x.saved|
  {
    State(x.saved[f].regs, x.saved[f].bytes, x.saved[f].spilled, x.top.refs, f)
  }

  /** The executing registers over the stack of a caller frame. */
  function Focus(x: Stacked, f: nat): State
    requires f < |x.saved|
  {
    State(x.top.regs, x.saved[f].bytes, x.saved[f].spilled, x.top.refs, f)
  }

  // ── Accesses to caller frames ────────────────────────────────────────────

  predicate IsAccess(insn: Insn) { insn.LdMem? || IsStore(insn) }

  /** The instruction goes through a pointer into a caller frame. */
  predicate OuterAccess(x: Stacked, insn: Insn) {
    IsAccess(insn) && x.top.regs[insn.base].PtrToStack? && x.top.regs[insn.base].frameno < |x.saved|
  }

  function StoredState(st: State, insn: Insn): RegState
    requires IsStore(insn)
  {
    if insn.StMem? then st.regs[insn.src] else Num(Const(insn.imm))
  }

  /** The store would spill its operand whole. */
  predicate SpillsWhole(pc: nat, ptr: RegState, off: I16, size: nat)
    requires ptr.PtrToStack? && ValidSize(size)
  {
    var r := CheckAccess(pc, ptr, off, size);
    r.Ok? && r.value.fixed && r.value.minOff % 8 == 0
  }

  /** A stack pointer is not spilled into a caller frame: it would outlive the
      frame it describes. */
  function OuterStore(pc: nat, x: Stacked, base: Reg, off: I16, size: nat, v: RegState): Result<Stacked, Rejection>
    requires ValidSize(size) && x.top.regs[base].PtrToStack? && x.top.regs[base].frameno < |x.saved|
  {
    var f := x.top.regs[base].frameno;
    match StackWrite(pc, Focus(x, f), base, off, size, v)
    case Err(e) => Err(e)
    case Ok(st) =>
      if v.PtrToStack? && SpillsWhole(pc, x.top.regs[base], off, size) then Err(Rejection(pc))
      else Ok(x.(saved := x.saved[f := x.saved[f].(bytes := st.bytes, spilled := st.spilled)]))
  }

  function OuterStep(pc: nat, x: Stacked, insn: Insn): Result<Stacked, Rejection>
    requires OuterAccess(x, insn)
  {
    if insn.LdMem? then
      match StackRead(pc, Focus(x, x.top.regs[insn.base].frameno), insn.base, insn.offset, insn.size.Bytes(),
                      insn.signExtend)
      case Err(e) => Err(e)
      case Ok(v) => Ok(x.(top := SetReg(x.top, insn.dst, v)))
    else OuterStore(pc, x, insn.base, insn.offset, insn.size.Bytes(), StoredState(x.top, insn))
  }

  // ── Successors ───────────────────────────────────────────────────────────

  /** A release invalidates the aliases in caller frames as well. */
  function InvalidateOuter(o: Outer, id: nat): Outer {
    o.(regs := seq(11, r requires 0 <= r < 11 => AliasReg(o.regs[r], id, ToTop)),
       spilled := seq(64, s requires 0 <= s < 64 => AliasSpill(o.spilled[s], FullSpill(o.bytes, s), id, ToTop)))
  }

  predicate Releases(st: State, insn: Insn) {
    insn.Call? && (insn.imm == 132 || insn.imm == 133) && st.regs[1].PtrToMem?
  }

  function After(x: Stacked, insn: Insn, top: State): Stacked {
    x.(top := top,
       saved := if Releases(x.top, insn)
                then seq(|x.saved|, f requires 0 <= f < |x.saved| => InvalidateOuter(x.saved[f], x.top.regs[1].ref))
                else x.saved)
  }

  /** `*offset as i16` */
  function LowHalf(offset: I32): I16 {
    var w := offset % 0x1_0000;
    if w >= 0x8000 then w - 0x1_0000 else w
  }

  /** The two interpreters agree on the target of a call exactly when its offset fits
      16 bits. */
  lemma CallTargetExact(pc: U32, offset: I32)
    ensures Target(pc, LowHalf(offset)) == Target(pc, offset) <==> -0x8000 <= offset < 0x8000
  {
    var d := offset - LowHalf(offset);
    if d != 0 {
      assert d % 0x1_0000 == 0 && -TWO32 < d < TWO32;
    }
  }

  /** A call far ahead: the abstract side walks into the next instruction. */
  lemma FarCallCounterexample(x: Stacked, c: Concrete.State)
    requires x.top.frame < MAX_CALL_FRAMES - 1 && c.curframe < MAX_CALL_FRAMES - 1
    ensures StackedSuccessors(0, x, CallSub(0x1_0000)) == Ok([(1, Enter(x, 1).value)])
    ensures Concrete.Successors(0, c, CallSub(0x1_0000)) == Ok([(0x1_0001, Concrete.EnterSubprog(c, 1).value)])
  {
    hide CalleeRegs, Concrete.CalleeRegs, Concrete.SaveFrame;
    assert Target(0, LowHalf(0x1_0000)) == 1 && Target(0, 0x1_0000) == 0x1_0001;
  }

  type StackedSuccs = Result<seq<(nat, Stacked)>, Rejection>

  /** `successors` with frames; the target of a call keeps only the low half of its
      offset. */
  function StackedSuccessors(pc: U32, x: Stacked, insn: Insn): StackedSuccs {
    if insn.CallSub? then
      match Enter(x, Wrap32(pc + 1))
      case Err(e) => Err(e)
      case Ok(callee) => Ok([(Target(pc, LowHalf(insn.callOffset)), callee)])
    else if OuterAccess(x, insn) then
      match OuterStep(pc, x, insn) case Err(e) => Err(e) case Ok(next) => Ok([(pc + 1, next)])
    else
      match Abstract.Successors(pc, x.top, insn)
      case Err(e) => Err(e)
      case Ok(succs) =>
        Ok(seq(|succs|, k requires 0 <= k < |succs| => (succs[k].0, After(x, insn, succs[k].1))))
  }

  // ── What keeps frames apart ──────────────────────────────────────────────

  predicate PointsBelow(v: RegState, f: nat) { v.PtrToStack? ==> v.frameno <= f }

  /** Every stack pointer of the frame points into it or into one of its callers. */
  ghost predicate StateBelow(st: State) {
    && (forall r :: 0 <= r < 11 ==> PointsBelow(st.regs[r], st.frame))
    && (forall s :: 0 <= s < 64 && st.spilled[s].Some? ==> PointsBelow(st.spilled[s].value, st.frame))
  }

  ghost predicate OuterBelow(x: Stacked, f: nat)
    requires f < |x.saved|
  {
    StateBelow(OuterState(x, f))
  }

  /** No frame points into one of its callees, and the frames are counted right. */
  ghost predicate Layered(x: Stacked) {
    && x.top.frame == |x.saved| < MAX_CALL_FRAMES && StateBelow(x.top)
    && forall f: nat :: f < |x.saved| ==> OuterBelow(x, f)
  }

  lemma StartLayered()
    ensures Layered(Start())
  {
  }

  lemma SetBelow(st: State, reg: Reg, v: RegState)
    requires StateBelow(st) && PointsBelow(v, st.frame)
    ensures StateBelow(SetReg(st, reg, v))
  {
  }

  lemma SetNumBelow(st: State, reg: Reg, b: Bounds)
    requires StateBelow(st)
    ensures StateBelow(SetReg(st, reg, Num(b)))
  {
  }

  /** The states an instruction leads to, in the same frame and layered. */
  ghost predicate BelowAll(succs: Result<seq<(nat, State)>, Rejection>, frame: nat) {
    succs.Ok? ==> forall k :: 0 <= k < |succs.value| ==> StateBelow(succs.value[k].1) && succs.value[k].1.frame == frame
  }

  lemma SyncBelow(st: State, id: U32, knownDelta: I32, known: Bounds)
    requires StateBelow(st)
    ensures StateBelow(SyncLinked(st, id, knownDelta, known)) && SyncLinked(st, id, knownDelta, known).frame == st.frame
  {
    hide Shifted, BoundsEqual, FullSpill;
  }

  lemma AliasesBelow(st: State, id: nat, fate: Fate)
    requires StateBelow(st)
    ensures StateBelow(ReplaceAliases(st, id, fate)) && ReplaceAliases(st, id, fate).frame == st.frame
  {
    hide FullSpill, Top, Const;
  }

  lemma SideBelow(st: State, dst: Reg, src: Option<Reg>, d: Bounds, s: Bounds, side: (Bounds, Bounds))
    requires StateBelow(st)
    ensures StateBelow(RefinedSide(st, dst, src, d, s, side)) && RefinedSide(st, dst, src, d, s, side).frame == st.frame
  {
    hide SyncLinked, StateBelow;
    SetNumBelow(st, dst, side.0);
    var withDst := SetReg(st, dst, Num(side.0));
    if src.Some? {
      SetNumBelow(withDst, src.value, side.1);
    }
    var written := if src.Some? then SetReg(withDst, src.value, Num(side.1)) else withDst;
    SyncBelow(written, d.id, d.delta, side.0);
    SyncBelow(SyncLinked(written, d.id, d.delta, side.0), s.id, s.delta, side.1);
  }

  lemma BranchBelow(pc: U32, st: State, op: CondOp, dst: Reg, src: Option<Reg>, s: RegState, offset: I16)
    requires StateBelow(st)
    ensures BelowAll(CondBranch(pc, st, op, dst, src, s, offset), st.frame)
  {
    hide RefinedSide, StateBelow, IsBranchTaken, RefineCmp, ReplaceAliases, Target, Const;
    var d := st.regs[dst];
    if d.Num? && s.Num? {
      var r := RefineCmp(op, d.b, s.b);
      SideBelow(st, dst, src, d.b, s.b, r.0);
      SideBelow(st, dst, src, d.b, s.b, r.1);
    } else if CondBranch(pc, st, op, dst, src, s, offset).Ok? && (d.PtrToMemOrNull? || s.PtrToMemOrNull?) {
      var ptrReg := if d.PtrToMemOrNull? then dst else src.value;
      var id := if d.PtrToMemOrNull? then d.ref else s.ref;
      NullSidesBelow(st, id, ptrReg);
    }
  }

  lemma NullSidesBelow(st: State, id: nat, ptrReg: Reg)
    requires StateBelow(st)
    ensures StateBelow(NullSide(st, id, ptrReg)) && NullSide(st, id, ptrReg).frame == st.frame
    ensures StateBelow(ValidSide(st, id, ptrReg)) && ValidSide(st, id, ptrReg).frame == st.frame
  {
    hide StateBelow, ReplaceAliases, DropRef, Const;
    var dropped := st.(refs := DropRef(st.refs, id));
    RefsBelow(st, DropRef(st.refs, id));
    AliasesBelow(dropped, id, ToZero);
    AliasesBelow(st, id, ToValid);
    SetBelow(ReplaceAliases(dropped, id, ToZero), ptrReg, Num(Const(0)));
    SetBelow(ReplaceAliases(st, id, ToValid), ptrReg, PtrToMem(0, id));
  }

  lemma RefsBelow(st: State, refs: seq<nat>)
    requires StateBelow(st)
    ensures StateBelow(st.(refs := refs))
  {
  }

  lemma ConditionalBelow(pc: U32, st: State, insn: Insn)
    requires StateBelow(st) && insn.IsConditional()
    ensures BelowAll(Abstract.Conditional(pc, st, insn), st.frame)
  {
    hide StateBelow, CondBranch, JsetVerdict, ApplyAlu, Const, Target;
    match insn {
      case JCond(op, dst, src, offset) => BranchBelow(pc, st, op, dst, Some(src), st.regs[src], offset);
      case JCondImm(op, dst, imm, offset) => BranchBelow(pc, st, op, dst, None, Num(Const(imm)), offset);
      case Jset(dst, src, offset) =>
      case JsetImm(dst, imm, offset) =>
        if st.regs[dst].Num? {
          SetNumBelow(st, dst, ApplyAlu(Scalar.And, W64, st.regs[dst].b, Const(-1 - imm)));
        }
    }
  }

  lemma HelperBelow(pc: U32, st: State, imm: I32)
    requires StateBelow(st) && Abstract.CallHelper(pc, st, imm).Ok?
    ensures StateBelow(Abstract.CallHelper(pc, st, imm).value)
            && Abstract.CallHelper(pc, st, imm).value.frame == st.frame
  {
    hide StateBelow, AfterCall, ReplaceAliases, DropRef, FreshReferenceId, ReserveSize, Top, Const;
    if IsScalarHelper(imm) {
      AfterBelow(st, Num(Top()));
    } else if imm == 131 {
      var id := FreshReferenceId(st.refs);
      RefsBelow(st, st.refs + [id]);
      AfterBelow(st.(refs := st.refs + [id]), PtrToMemOrNull(id, ReserveSize(st.regs[2])));
    } else {
      var id := st.regs[1].ref;
      RefsBelow(st, DropRef(st.refs, id));
      AliasesBelow(st.(refs := DropRef(st.refs, id)), id, ToTop);
      AfterBelow(ReplaceAliases(st.(refs := DropRef(st.refs, id)), id, ToTop), Num(Const(0)));
    }
  }

  lemma AfterBelow(st: State, r0: RegState)
    requires StateBelow(st) && !r0.PtrToStack?
    ensures StateBelow(AfterCall(st, r0)) && AfterCall(st, r0).frame == st.frame
  {
  }

  lemma RegistersBelow(pc: U32, st: State, insn: Insn)
    requires StateBelow(st) && Simulation.FallsThrough(insn) && !IsAccess(insn) && Abstract.Step(pc, st, insn).Ok?
    ensures StateBelow(Abstract.Step(pc, st, insn).value) && Abstract.Step(pc, st, insn).value.frame == st.frame
  {
    BelowAt(st);
    hide StateBelow, Abstract.AluImm, Abstract.AluReg, Const, FromSigned, Mov32Bounds, NegBounds, NeedsLink;
    var next := Abstract.Step(pc, st, insn).value;
    if insn.MovReg? {
      var v := st.regs[insn.src];
      if NeedsLink(v) {
        var linked := Num(v.b.(id := Wrap32(pc + 1)));
        SetBelow(st, insn.src, linked);
        SetBelow(SetReg(st, insn.src, linked), insn.dst, linked);
      } else {
        SetBelow(st, insn.dst, v);
      }
    } else if insn.AluImm? || insn.AluReg? {
      AluBelow(pc, st, insn);
      SetBelow(st, insn.dst, next.regs[insn.dst]);
    } else if !insn.LdImm64Second? {
      SetBelow(st, insn.dst, next.regs[insn.dst]);
    }
  }

  lemma AluBelow(pc: U32, st: State, insn: Insn)
    requires StateBelow(st) && (insn.AluImm? || insn.AluReg?) && Abstract.Step(pc, st, insn).Ok?
    ensures PointsBelow(Abstract.Step(pc, st, insn).value.regs[insn.dst], st.frame)
    ensures Abstract.Step(pc, st, insn).value == SetReg(st, insn.dst, Abstract.Step(pc, st, insn).value.regs[insn.dst])
  {
    BelowAt(st);
    hide StateBelow, ApplyAlu, Const, MoveCtx, SaneAddend, SaneOffset, AddScalarAlign, AddAlign, SaturateI64;
    var d := st.regs[insn.dst];
    if insn.AluImm? {
      CtxBelow(pc, d, insn.op, insn.width, Const(insn.imm));
    } else {
      var s := st.regs[insn.src];
      if s.Num? {
        CtxBelow(pc, d, insn.op, insn.width, s.b);
      }
      if d.Num? {
        CtxBelow(pc, s, insn.op, insn.width, d.b);
      }
    }
  }

  lemma CtxBelow(pc: nat, d: RegState, op: AluOp, width: Width, s: Bounds)
    ensures d.PtrToCtx? && MoveCtx(pc, d, op, width, s).Ok? ==> MoveCtx(pc, d, op, width, s).value.PtrToCtx?
  {
  }

  lemma BelowAt(st: State)
    requires StateBelow(st)
    ensures forall r :: 0 <= r < 11 ==> PointsBelow(st.regs[r], st.frame)
    ensures forall s :: 0 <= s < 64 && st.spilled[s].Some? ==> PointsBelow(st.spilled[s].value, st.frame)
  {
  }

  /** A value read from a frame points below it. */
  lemma ReadBelow(pc: nat, st: State, base: Reg, off: I16, size: nat, signExtend: bool)
    requires StackBelow(st) && ValidSize(size) && StackRead(pc, st, base, off, size, signExtend).Ok?
    ensures PointsBelow(StackRead(pc, st, base, off, size, signExtend).value, st.frame)
  {
    hide CheckAccess, AllMarked, NoneInvalid, VariableReadable, CoerceScalar, Const, Top, MemAccessOk;
  }

  ghost predicate StackBelow(st: State) {
    forall s :: 0 <= s < 64 && st.spilled[s].Some? ==> PointsBelow(st.spilled[s].value, st.frame)
  }

  /** A store keeps the bound when its operand is in it or is not spilled. */
  lemma WriteBelow(pc: nat, st: State, base: Reg, off: I16, size: nat, v: RegState)
    requires StackBelow(st) && ValidSize(size) && StackWrite(pc, st, base, off, size, v).Ok?
    requires PointsBelow(v, st.frame)
             || (v.PtrToStack? && OwnFrame(st, base) && !SpillsWhole(pc, st.regs[base], off, size))
    ensures var next := StackWrite(pc, st, base, off, size, v).value;
            StackBelow(next) && next.frame == st.frame && next.regs == st.regs
  {
    hide CheckAccess, PointerSpilled, MemAccessOk, Const;
  }

  lemma AccessBelow(pc: U32, st: State, insn: Insn)
    requires StateBelow(st) && IsAccess(insn) && Abstract.Step(pc, st, insn).Ok?
    ensures StateBelow(Abstract.Step(pc, st, insn).value) && Abstract.Step(pc, st, insn).value.frame == st.frame
  {
    BelowAt(st);
    hide StackRead, StackWrite, Const, StateBelow;
    if insn.LdMem? {
      ReadBelow(pc, st, insn.base, insn.offset, insn.size.Bytes(), insn.signExtend);
      SetBelow(st, insn.dst, StackRead(pc, st, insn.base, insn.offset, insn.size.Bytes(), insn.signExtend).value);
    } else {
      var v := StoredState(st, insn);
      WriteBelow(pc, st, insn.base, insn.offset, insn.size.Bytes(), v);
      BelowFrom(Abstract.Step(pc, st, insn).value);
    }
  }

  lemma BelowFrom(st: State)
    requires StackBelow(st) && forall r :: 0 <= r < 11 ==> PointsBelow(st.regs[r], st.frame)
    ensures StateBelow(st)
  {
  }

  /** One instruction of a frame stays in it and keeps its pointers below. */
  lemma SuccessorsBelow(pc: U32, st: State, insn: Insn)
    requires StateBelow(st)
    ensures BelowAll(Abstract.Successors(pc, st, insn), st.frame)
  {
    hide StateBelow, Abstract.Step, Abstract.Conditional, Target;
    if insn.IsConditional() {
      ConditionalBelow(pc, st, insn);
    } else if !insn.Exit? && !insn.Jmp? && !insn.CallSub? && Abstract.Step(pc, st, insn).Ok? {
      if insn.Call? {
        HelperIsStep(pc, st, insn);
        HelperBelow(pc, st, insn.imm);
      } else if IsAccess(insn) {
        AccessBelow(pc, st, insn);
      } else {
        RegistersBelow(pc, st, insn);
      }
    }
  }

  // ── Every step keeps the layers ──────────────────────────────────────────

  lemma FocusBelow(x: Stacked, f: nat)
    requires Layered(x) && f < |x.saved|
    ensures StackBelow(Focus(x, f))
  {
    assert OuterBelow(x, f);
  }

  lemma OuterStepLayered(pc: nat, x: Stacked, insn: Insn)
    requires Layered(x) && OuterAccess(x, insn) && OuterStep(pc, x, insn).Ok?
    ensures Layered(OuterStep(pc, x, insn).value)
  {
    hide StackRead, StackWrite, StateBelow, SpillsWhole, Const, StackBelow;
    var f := x.top.regs[insn.base].frameno;
    FocusBelow(x, f);
    var next := OuterStep(pc, x, insn).value;
    if insn.LdMem? {
      ReadBelow(pc, Focus(x, f), insn.base, insn.offset, insn.size.Bytes(), insn.signExtend);
      SetBelow(x.top, insn.dst, next.top.regs[insn.dst]);
      assert forall g: nat :: g < |x.saved| ==> OuterBelow(x, g) && OuterState(next, g) == OuterState(x, g);
    } else {
      var v := StoredState(x.top, insn);
      WriteBelow(pc, Focus(x, f), insn.base, insn.offset, insn.size.Bytes(), v);
      var st := StackWrite(pc, Focus(x, f), insn.base, insn.offset, insn.size.Bytes(), v).value;
      forall g: nat | g < |x.saved|
        ensures OuterBelow(next, g)
      {
        assert OuterBelow(x, g);
        if g == f {
          NewStackBelow(OuterState(x, f), st, OuterState(next, f));
        } else {
          assert OuterState(next, g) == OuterState(x, g);
        }
      }
    }
  }

  lemma NewStackBelow(before: State, st: State, next: State)
    requires StateBelow(before) && StackBelow(st) && st.frame == before.frame
    requires next == before.(bytes := st.bytes, spilled := st.spilled)
    ensures StateBelow(next)
  {
  }

  lemma InvalidatedBelow(x: Stacked, y: Stacked, f: nat, id: nat)
    requires f < |x.saved| == |y.saved| && OuterBelow(x, f) && y.saved[f] == InvalidateOuter(x.saved[f], id)
    ensures OuterBelow(y, f)
  {
    hide FullSpill, Top;
  }

  lemma EnterLayered(x: Stacked, returnPc: U32)
    requires Layered(x) && Enter(x, returnPc).Ok?
    ensures Layered(Enter(x, returnPc).value)
  {
    var y := Enter(x, returnPc).value;
    CalleeBelow(x, y);
    hide StateBelow;
    forall f: nat | f < |y.saved|
      ensures OuterBelow(y, f)
    {
      if f < |x.saved| {
        assert OuterBelow(x, f);
        RefsBelow(OuterState(x, f), y.top.refs);
        assert OuterState(y, f) == OuterState(x, f);
      } else {
        assert OuterState(y, f) == x.top;
      }
    }
  }

  lemma CalleeBelow(x: Stacked, y: Stacked)
    requires StateBelow(x.top) && y.top.frame == x.top.frame + 1 && y.top.spilled == NoSpills()
    requires y.top.regs == CalleeRegs(x.top.regs, x.top.frame + 1)
    ensures StateBelow(y.top)
  {
  }

  lemma LeaveLayered(x: Stacked)
    requires Layered(x) && x.saved != [] && !x.top.regs[0].PtrToStack?
    ensures Layered(Leave(x))
  {
    var f := |x.saved| - 1;
    assert OuterBelow(x, f);
    var y := Leave(x);
    assert StateBelow(y.top);
    hide StateBelow;
    forall g: nat | g < |y.saved|
      ensures OuterBelow(y, g)
    {
      assert OuterBelow(x, g) && OuterState(y, g) == OuterState(x, g);
    }
  }

  /** Every abstract successor keeps the layers: the panic of `frame_stack` ("a stack
      pointer always targets an active frame") cannot happen on the abstract side. */
  lemma SuccessorLayered(pc: U32, x: Stacked, insn: Insn, k: nat)
    requires Layered(x) && StackedSuccessors(pc, x, insn).Ok? && k < |StackedSuccessors(pc, x, insn).value|
    ensures Layered(StackedSuccessors(pc, x, insn).value[k].1)
  {
    hide StateBelow, Abstract.Successors, Enter, OuterStep, Target, InvalidateOuter;
    if insn.CallSub? {
      EnterLayered(x, Wrap32(pc + 1));
    } else if OuterAccess(x, insn) {
      OuterStepLayered(pc, x, insn);
    } else {
      SuccessorsBelow(pc, x.top, insn);
      var succs := Abstract.Successors(pc, x.top, insn).value;
      assert StateBelow(succs[k].1) && succs[k].1.frame == x.top.frame;
      var y := After(x, insn, succs[k].1);
      forall f: nat | f < |x.saved|
        ensures OuterBelow(y, f)
      {
        assert OuterBelow(x, f);
        if Releases(x.top, insn) {
          InvalidatedBelow(x, y, f, x.top.regs[1].ref);
        } else {
          RefsBelow(OuterState(x, f), y.top.refs);
        }
      }
    }
  }
}
