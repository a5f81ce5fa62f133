/** The abstract interpreter over-approximates the concrete one over whole runs
    (`src/exec.rs`, `src/concrete.rs`): a set of abstract states that contains the
    initial one and is closed under `successors` covers every concrete execution. */
module Simulation {
  import opened Words
  import opened Bits
  import opened TnumDomain
  import opened Scalar
  import opened ScalarSound
  import opened AluSound
  import opened Branch
  import opened Insn
  import opened Abstract
  import opened Offsets
  import opened Coverage
  import opened StackSound
  import opened VariableStore
  import C = Concrete

  // ── What the theorem asks of each abstract step ──────────────────────────

  predicate AmountFits(off: I32, op: AluOp, s: Bounds) {
    I32_MIN <= off + (if op.Sub? then 0 - s.smin else s.smin) <= I32_MAX
  }

  /** The ALU rules are used only where they over-approximate, a pointer keeps a
      truthful alignment and a context offset is not clamped. */
  predicate AluStepGuard(op: AluOp, width: Width, d: RegState, s: RegState) {
    && (d.Num? && s.Num? ==> AluGuard(op, width, d.b, s.b))
    && (d.PtrToStack? && s.Num? ==> AlignKept(d) || s.b.tnum.mask % 8 != 0)
    && (d.Num? && s.PtrToStack? ==> AlignKept(s) || d.b.tnum.mask % 8 != 0)
    && (d.PtrToCtx? && s.Num? ==> AmountFits(d.off, op, s.b))
    && (d.Num? && s.PtrToCtx? ==> AmountFits(s.off, op, d.b))
  }

  predicate AluImmGuard(op: AluOp, width: Width, d: RegState, imm: I32) {
    && (d.Num? ==> AluGuard(op, width, d.b, Const(imm)))
    && (d.PtrToStack? ==> AlignKept(d))
    && (d.PtrToCtx? ==> AmountFits(d.off, op, Const(imm)))
  }

  /** The faulty `>=` refinement is excluded or never explored. */
  predicate BranchGuard(op: CondOp, d: RegState, s: RegState) {
    d.Num? && s.Num? && !IsBranchTaken(op, d.b, s.b).AlwaysTaken? ==> RefineGuard(op, false, d.b, s.b)
  }

  predicate StoreGuard(pc: nat, a: State, base: Reg, off: I16, size: nat, v: RegState)
    requires ValidSize(size)
  {
    var ptr := a.regs[base];
    ptr.PtrToStack? ==>
      match CheckAccess(pc, ptr, off, size)
      case Err(_) => true
      case Ok(acc) => acc.fixed || VariableStoreOk(a, acc, InCell(ptr, off), size, v)
  }

  predicate StepGuard(pc: U32, a: State, insn: Insn) {
    match insn
    case MovReg(dst, src) => NeedsLink(a.regs[src]) ==> LinkUnused(a, Wrap32(pc + 1), dst)
    case AluImm(op, width, dst, imm) => AluImmGuard(op, width, a.regs[dst], imm)
    case AluReg(op, width, dst, src) => AluStepGuard(op, width, a.regs[dst], a.regs[src])
    case StMem(src, base, off, size) => StoreGuard(pc, a, base, off, size.Bytes(), a.regs[src])
    case StMemImm(imm, base, off, size) => StoreGuard(pc, a, base, off, size.Bytes(), Num(Const(imm)))
    case JCond(op, dst, src, _) => dst == src || BranchGuard(op, a.regs[dst], a.regs[src])
    case LdMapFd(_, _, _) => false
    case _ => true
  }

  // ── Values ───────────────────────────────────────────────────────────────

  lemma ConstCovered(base: Base, v: I64)
    ensures RegCovers(base, Num(Const(v)), Some(C.Number(Wrap64(v))))
  {
    hide Gamma;
    ConstSound(v, Wrap64(v));
  }

  lemma RegCovered(base: Base, a: State, c: C.State, reg: Reg)
    requires CoversOn(base, a, c)
    ensures RegCovers(base, a.regs[reg], c.regs[reg])
  {
  }

  lemma OperandAdmits(base: Base, b: Bounds, x: U64)
    requires NumCovers(base, b, x)
    ensures Gamma(b, x)
  {
  }

  lemma NumCovered(base: Base, a: State, c: C.State, reg: Reg)
    requires CoversOn(base, a, c) && a.regs[reg].Num?
    ensures c.regs[reg].Some? && c.regs[reg].value.Number? && NumCovers(base, a.regs[reg].b, c.regs[reg].value.bits)
  {
    assert RegCovers(base, a.regs[reg], c.regs[reg]);
  }

  /** Writing a covered register state over an unchanged concrete register. */
  lemma NarrowReg(base: Base, a: State, c: C.State, reg: Reg, v: RegState)
    requires CoversOn(base, a, c) && RegCovers(base, v, c.regs[reg])
    ensures CoversOn(base, SetReg(a, reg, v), c)
  {
    hide RegCovers, SlotCovers;
  }

  // ── Moves and negation ───────────────────────────────────────────────────

  lemma Mov32Covered(base: Base, b: Bounds, x: U64)
    requires NumCovers(base, b, x)
    ensures RegCovers(base, Num(Mov32Bounds(b)), Some(C.Number(x % TWO32)))
  {
    hide Tnum.Contains, FromSigned;
    if b.IsConstant() {
      ConstantMember(b, x);
      FromSignedSound(0, b.umax % TWO32, x % TWO32);
    } else {
      FromSignedSound(0, U32_MAX, x % TWO32);
    }
  }

  lemma NegCovered(base: Base, width: Width, b: Bounds, x: U64)
    requires NumCovers(base, b, x)
    ensures RegCovers(base, Num(NegBounds(width, b)), Some(C.Number(AluConst(Neg, width, x, 0))))
  {
    hide Tnum.Contains, AluConst, Const, Top;
    var r := AluConst(Neg, width, x, 0);
    if b.IsConstant() {
      ConstantMember(b, x);
      ConstCovered(base, Signed64(r));
      WrapOfSigned(r);
    } else {
      TopCovered(base, r);
    }
  }

  predicate IsMove(insn: Insn) {
    insn.MovImm? || insn.Mov32Imm? || insn.Mov32Reg? || insn.NegReg? || insn.LdImm64? || insn.LdImm64Second?
  }

  lemma MoveStep(base: Base, pc: U32, a: State, c: C.State, insn: Insn)
    requires CoversOn(base, a, c) && IsMove(insn) && Abstract.Step(pc, a, insn).Ok?
    ensures C.Step(pc, c, insn).Ok?
    ensures CoversOn(base, Abstract.Step(pc, a, insn).value, C.Step(pc, c, insn).value)
  {
    hide RegCovers, CoversOn, Const, FromSigned, Mov32Bounds, NegBounds, AluConst, NumCovers;
    match insn {
      case MovImm(dst, imm) =>
        ConstCovered(base, imm);
        SetRegCovers(base, a, c, dst, Num(Const(imm)), C.Number(Wrap64(imm)));
      case Mov32Imm(dst, imm) =>
        Mov32ImmCovered(base, imm);
        SetRegCovers(base, a, c, dst, Num(FromSigned(0, Wrap32(imm))), C.Number(Wrap32(imm)));
      case Mov32Reg(dst, src) =>
        NumCovered(base, a, c, src);
        Mov32Covered(base, a.regs[src].b, c.regs[src].value.bits);
        SetRegCovers(base, a, c, dst, Num(Mov32Bounds(a.regs[src].b)), C.Number(c.regs[src].value.bits % TWO32));
      case NegReg(width, dst) =>
        NumCovered(base, a, c, dst);
        NegCovered(base, width, a.regs[dst].b, c.regs[dst].value.bits);
        SetRegCovers(base, a, c, dst, Num(NegBounds(width, a.regs[dst].b)),
                     C.Number(AluConst(Neg, width, c.regs[dst].value.bits, 0)));
      case LdImm64(dst, imm64) =>
        WrapOfSigned(imm64);
        ConstCovered(base, Signed64(imm64));
        SetRegCovers(base, a, c, dst, Num(Const(Signed64(imm64))), C.Number(imm64));
      case LdImm64Second(_) =>
    }
  }

  lemma Mov32ImmCovered(base: Base, imm: I32)
    ensures RegCovers(base, Num(FromSigned(0, Wrap32(imm))), Some(C.Number(Wrap32(imm))))
  {
    hide Gamma, FromSigned;
    FromSignedSound(0, Wrap32(imm), Wrap32(imm));
  }

  // ── ALU ──────────────────────────────────────────────────────────────────

  lemma NumAlu(base: Base, op: AluOp, width: Width, d: Bounds, s: Bounds, x: U64, y: U64)
    requires NumCovers(base, d, x) && Gamma(s, y) && s.tnum.Wf() && AluGuard(op, width, d, s)
    ensures RegCovers(base, Num(ApplyAlu(op, width, d, s)), Some(C.Number(AluConst(op, width, x, y))))
  {
    hide ApplyAlu, AluConst, AluGuard, NumCovers, Gamma;
    AluCovers(base, op, width, d, s, x, y);
  }

  lemma CtxMoved(base: Base, pc: nat, d: RegState, op: AluOp, width: Width, s: Bounds, y: U64)
    requires d.PtrToCtx? && Gamma(s, y) && MoveCtx(pc, d, op, width, s).Ok? && AmountFits(d.off, op, s)
    ensures width.W64? && (op.Add? || op.Sub?)
    ensures var bits := Wrap64(C.CTX_BASE + d.off);
            var moved := if op.Add? then Wrap64(bits + y) else Wrap64(bits - y);
            RegCovers(base, MoveCtx(pc, d, op, width, s).value, Some(C.CtxPtr(moved)))
  {
    hide Tnum.Contains, Wrap64;
    ConstantMember(s, y);
    var bits := Wrap64(C.CTX_BASE + d.off);
    WrapAdd(C.CTX_BASE + d.off, s.smin);
    WrapSub(bits, s.smin);
    WrapAdd(C.CTX_BASE + d.off, -s.smin);
  }

  lemma StackMovedImm(base: Base, pc: nat, d: RegState, imm: I32, bits: U64)
    requires d.PtrToStack? && OffsetCovers(d, C.PtrOffset(bits)) && AlignKept(d) && AddImmToStackPtr(pc, d, imm).Ok?
    ensures var z := SaturateI64(C.PtrOffset(bits) + imm);
            RegCovers(base, AddImmToStackPtr(pc, d, imm).value, Some(C.StackPtr(Wrap64(C.STACK_BASE + z), d.frameno)))
  {
    hide C.PtrOffset, OffsetCovers, Wrap64, SaturateI64, AlignKept;
    AddImmCovers(pc, d, imm, C.PtrOffset(bits));
    PtrOffsetOf(SaturateI64(C.PtrOffset(bits) + imm));
  }

  lemma AluImmStep(base: Base, pc: U32, a: State, c: C.State, op: AluOp, width: Width, dst: Reg, imm: I32)
    requires CoversOn(base, a, c) && AluImmGuard(op, width, a.regs[dst], imm)
    requires Abstract.AluImm(pc, a, op, width, dst, imm).Ok?
    ensures C.AluWithImm(pc, c, op, width, dst, imm).Ok?
    ensures CoversOn(base, Abstract.AluImm(pc, a, op, width, dst, imm).value,
            C.AluWithImm(pc, c, op, width, dst, imm).value)
  {
    hide SlotCovers, ApplyAlu, AluConst, AluGuard, Gamma, Const, OffsetCovers, AlignKept, AddImmToStackPtr, MoveCtx,
         Wrap64, C.PtrOffset, SaturateI64, AmountFits, NumCovers;
    var d := a.regs[dst];
    assert RegCovers(base, d, c.regs[dst]);
    var cv := c.regs[dst].value;
    var next := Abstract.AluImm(pc, a, op, width, dst, imm).value.regs[dst];
    ConstSound(imm, Wrap64(imm));
    if d.Num? {
      NumAlu(base, op, width, d.b, Const(imm), cv.bits, Wrap64(imm));
      SetRegCovers(base, a, c, dst, next, C.Number(AluConst(op, width, cv.bits, Wrap64(imm))));
    } else if d.PtrToStack? {
      StackMovedImm(base, pc, d, imm, cv.bits);
      SetRegCovers(base, a, c, dst, next,
          C.StackPtr(Wrap64(C.STACK_BASE + SaturateI64(C.PtrOffset(cv.bits) + imm)), d.frameno));
    } else {
      CtxMoved(base, pc, d, op, width, Const(imm), Wrap64(imm));
      WrapAdd(imm, cv.bits);
      WrapSub(cv.bits, imm);
      SetRegCovers(base, a, c, dst, next, C.CtxPtr(if op.Add? then Wrap64(cv.bits + imm) else Wrap64(cv.bits - imm)));
    }
  }

  lemma StackMovedReg(base: Base, pc: nat, p: RegState, s: Bounds, bits: U64, y: U64)
    requires p.PtrToStack? && OffsetCovers(p, C.PtrOffset(bits)) && Gamma(s, y) && AddScalarToStackPtr(pc, p, s).Ok?
    requires AlignKept(p) || s.tnum.mask % 8 != 0
    ensures var z := Signed64(Wrap64(C.PtrOffset(bits) + Signed64(y)));
            RegCovers(base, AddScalarToStackPtr(pc, p, s).value, Some(C.StackPtr(Wrap64(C.STACK_BASE + z), p.frameno)))
  {
    hide C.PtrOffset, OffsetCovers, Wrap64, Signed64, AlignKept, Gamma, AddScalarToStackPtr;
    AddScalarCovers(pc, p, s, C.PtrOffset(bits), y);
    PtrOffsetOf(Signed64(Wrap64(C.PtrOffset(bits) + Signed64(y))));
    AddScalarIsStack(pc, p, s);
  }

  lemma AddScalarIsStack(pc: nat, p: RegState, s: Bounds)
    requires p.PtrToStack? && AddScalarToStackPtr(pc, p, s).Ok?
    ensures AddScalarToStackPtr(pc, p, s).value.PtrToStack? && AddScalarToStackPtr(pc, p, s).value.frameno == p.frameno
  {
  }

  lemma AluRegStep(base: Base, pc: U32, a: State, c: C.State, op: AluOp, width: Width, dst: Reg, src: Reg)
    requires CoversOn(base, a, c) && AluStepGuard(op, width, a.regs[dst], a.regs[src])
    requires Abstract.AluReg(pc, a, op, width, dst, src).Ok?
    ensures C.AluWithReg(pc, c, op, width, dst, src).Ok?
    ensures CoversOn(base, Abstract.AluReg(pc, a, op, width, dst, src).value,
            C.AluWithReg(pc, c, op, width, dst, src).value)
  {
    hide SlotCovers, ApplyAlu, AluConst, AluGuard, Gamma, OffsetCovers, AlignKept, AddScalarToStackPtr, MoveCtx, Wrap64,
         Signed64, C.PtrOffset, AmountFits;
    var d, s := a.regs[dst], a.regs[src];
    assert RegCovers(base, d, c.regs[dst]) && RegCovers(base, s, c.regs[src]);
    var x, y := c.regs[dst].value, c.regs[src].value;
    var next := Abstract.AluReg(pc, a, op, width, dst, src).value.regs[dst];
    if d.Num? && s.Num? {
      NumAlu(base, op, width, d.b, s.b, x.bits, y.bits);
      SetRegCovers(base, a, c, dst, next, C.Number(AluConst(op, width, x.bits, y.bits)));
    } else if d.PtrToStack? {
      StackMovedReg(base, pc, d, s.b, x.bits, y.bits);
      SetRegCovers(base, a, c, dst, next,
                   C.StackPtr(Wrap64(C.STACK_BASE + Signed64(Wrap64(C.PtrOffset(x.bits) + Signed64(y.bits)))),
                       d.frameno));
    } else if s.PtrToStack? {
      StackMovedReg(base, pc, s, d.b, y.bits, x.bits);
      SetRegCovers(base, a, c, dst, next,
                   C.StackPtr(Wrap64(C.STACK_BASE + Signed64(Wrap64(C.PtrOffset(y.bits) + Signed64(x.bits)))),
                       s.frameno));
    } else if d.PtrToCtx? {
      CtxMoved(base, pc, d, op, width, s.b, y.bits);
      SetRegCovers(base, a, c, dst, next,
                   C.CtxPtr(if op.Add? then Wrap64(x.bits + y.bits) else Wrap64(x.bits - y.bits)));
    } else {
      CtxMoved(base, pc, s, op, width, d.b, x.bits);
      SetRegCovers(base, a, c, dst, next, C.CtxPtr(Wrap64(y.bits + x.bits)));
    }
  }

  // ── Memory ───────────────────────────────────────────────────────────────

  lemma StackBase(base: Base, a: State, c: C.State, reg: Reg)
    requires CoversOn(base, a, c)
    ensures !a.regs[reg].PtrToMem?
  {
    assert RegCovers(base, a.regs[reg], c.regs[reg]);
  }

  lemma StoreStep(base: Base, pc: U32, a: State, c: C.State, reg: Reg, off: I16, size: nat, v: RegState,
                  cv: Option<C.Value>)
    requires CoversOn(base, a, c) && ValidSize(size) && RegCovers(base, v, cv)
    requires StackWrite(pc, a, reg, off, size, v).Ok? && StoreGuard(pc, a, reg, off, size, v)
    ensures C.Store(pc, c, cv, reg, off, size).Ok?
    ensures CoversOn(base, StackWrite(pc, a, reg, off, size, v).value, C.Store(pc, c, cv, reg, off, size).value)
  {
    hide CoversOn, C.Store, C.Locate, CheckAccess, StackStore, VariableStoreOk;
    StackBase(base, a, c, reg);
    StoredValue(base, pc, a, reg, off, size, v, cv);
    FixedIsExact(pc, a.regs[reg], off, size);
    if a.regs[reg].min == a.regs[reg].max {
      StoreCovers(base, pc, a, c, reg, off, size, v, cv.value);
    } else {
      var acc := CheckAccess(pc, a.regs[reg], off, size).value;
      OkIsExact(a, acc, InCell(a.regs[reg], off), size, v);
      VariableStoreCovers(base, pc, a, c, reg, off, size, v, cv.value);
    }
  }

  lemma FixedIsExact(pc: nat, ptr: RegState, off: I16, size: nat)
    requires ptr.PtrToStack? && ValidSize(size)
    ensures CheckAccess(pc, ptr, off, size).Ok? ==>
              (CheckAccess(pc, ptr, off, size).value.fixed <==> ptr.min == ptr.max)
  {
  }

  lemma StoredValue(base: Base, pc: U32, a: State, reg: Reg, off: I16, size: nat, v: RegState, cv: Option<C.Value>)
    requires ValidSize(size) && RegCovers(base, v, cv) && a.regs[reg].PtrToStack?
             && StackWrite(pc, a, reg, off, size, v).Ok?
    ensures cv.Some? && OwnFrame(a, reg) && CheckAccess(pc, a.regs[reg], off, size).Ok?
  {
    hide Gamma, CheckAccess;
  }

  predicate IsMemory(insn: Insn) { insn.LdMem? || insn.StMem? || insn.StMemImm? }

  lemma MemoryStep(base: Base, pc: U32, a: State, c: C.State, insn: Insn)
    requires CoversOn(base, a, c) && IsMemory(insn) && Abstract.Step(pc, a, insn).Ok? && StepGuard(pc, a, insn)
    ensures C.Step(pc, c, insn).Ok?
    ensures CoversOn(base, Abstract.Step(pc, a, insn).value, C.Step(pc, c, insn).value)
  {
    hide CoversOn, RegCovers, StackRead, StackWrite, C.Load, C.Store, StoreGuard, Const;
    match insn {
      case LdMem(dst, reg, off, size, signExtend) =>
        StackBase(base, a, c, reg);
        LoadBase(pc, a, reg, off, size.Bytes(), signExtend);
        LoadCovers(base, pc, a, c, dst, reg, off, size.Bytes(), signExtend);
      case StMem(src, reg, off, size) =>
        RegCovered(base, a, c, src);
        StoreStep(base, pc, a, c, reg, off, size.Bytes(), a.regs[src], c.regs[src]);
      case StMemImm(imm, reg, off, size) =>
        ConstCovered(base, imm);
        StoreStep(base, pc, a, c, reg, off, size.Bytes(), Num(Const(imm)), Some(C.Number(Wrap64(imm))));
    }
  }

  lemma LoadBase(pc: nat, a: State, reg: Reg, off: I16, size: nat, signExtend: bool)
    requires ValidSize(size) && StackRead(pc, a, reg, off, size, signExtend).Ok? && !a.regs[reg].PtrToMem?
    ensures OwnFrame(a, reg)
  {
  }

  // ── Helper calls ─────────────────────────────────────────────────────────

  lemma AfterCallCovers(base: Base, a: State, c: C.State, r0: U64)
    requires CoversOn(base, a, c)
    ensures CoversOn(base, AfterCall(a, Num(Top())), C.SetReg(c.(regs := C.Clobber(c.regs)), 0, C.Number(r0)))
  {
    hide SlotCovers, Gamma, Top;
    TopCovered(base, r0);
  }

  lemma HelperIsScalar(base: Base, pc: U32, a: State, c: C.State, imm: I32)
    requires CoversOn(base, a, c) && Abstract.CallHelper(pc, a, imm).Ok?
    ensures IsScalarHelper(imm)
  {
    assert RegCovers(base, a.regs[1], c.regs[1]);
  }

  // ── Branches ─────────────────────────────────────────────────────────────

  /** A concrete successor is covered by one of the abstract ones at its pc. */
  ghost predicate Matched(base: Base, succs: seq<(nat, State)>, pc: nat, c: C.State) {
    exists k :: 0 <= k < |succs| && succs[k].0 == pc && CoversOn(base, succs[k].1, c)
  }

  lemma MatchAt(base: Base, succs: seq<(nat, State)>, k: nat, pc: nat, c: C.State)
    requires k < |succs| && succs[k].0 == pc && CoversOn(base, succs[k].1, c)
    ensures Matched(base, succs, pc, c)
  {
  }

  lemma MatchIndex(base: Base, succs: seq<(nat, State)>, pc: nat, c: C.State) returns (k: nat)
    requires Matched(base, succs, pc, c)
    ensures k < |succs| && succs[k].0 == pc && CoversOn(base, succs[k].1, c)
  {
    hide CoversOn;
    k :| 0 <= k < |succs| && succs[k].0 == pc && CoversOn(base, succs[k].1, c);
  }

  /** Both refined operands are written back and their link groups synced. */
  lemma RefinedSideCovers(base: Base, a: State, c: C.State, dst: Reg, src: Option<Reg>, d: Bounds, s: Bounds,
                          side: (Bounds, Bounds), x: U64, y: U64)
    requires CoversOn(base, a, c) && a.regs[dst] == Num(d) && c.regs[dst] == Some(C.Number(x))
    requires src.Some? ==> src.value != dst && a.regs[src.value] == Num(s) && c.regs[src.value] == Some(C.Number(y))
    requires NumCovers(base, side.0, x) && NumCovers(base, side.1, y)
    ensures CoversOn(base, RefinedSide(a, dst, src, d, s, side), c)
  {
    hide Gamma, CoversOn, SyncLinked;
    assert NumCovers(base, d, x) by {
      NumCovered(base, a, c, dst);
    }
    NarrowReg(base, a, c, dst, Num(side.0));
    var withDst := SetReg(a, dst, Num(side.0));
    if src.None? {
      SyncCovers(base, withDst, c, d.id, d.delta, side.0, x);
    } else {
      assert NumCovers(base, s, y) by {
        NumCovered(base, a, c, src.value);
      }
      NarrowReg(base, withDst, c, src.value, Num(side.1));
      var written := SetReg(withDst, src.value, Num(side.1));
      SyncCovers(base, written, c, d.id, d.delta, side.0, x);
      SyncCovers(base, SyncLinked(written, d.id, d.delta, side.0), c, s.id, s.delta, side.1, y);
    }
  }

  /** Refinement keeps the anchor of an operand or drops its link. */
  lemma SideOnBase(base: Base, b: Bounds, refined: Bounds, x: U64)
    requires OnBase(base, b, x) && Gamma(refined, x) && refined.tnum.Wf()
    requires (refined.id == b.id && refined.delta == b.delta) || refined.id == 0
    ensures NumCovers(base, refined, x)
  {
    hide Gamma;
  }

  lemma ScalarBranchStep(base: Base, pc: U32, a: State, c: C.State, op: CondOp, dst: Reg, src: Option<Reg>,
                         d: Bounds, s: Bounds, x: U64, y: U64, offset: I16)
    requires CoversOn(base, a, c) && a.regs[dst] == Num(d) && c.regs[dst] == Some(C.Number(x))
    requires src.Some? ==> src.value != dst && a.regs[src.value] == Num(s) && c.regs[src.value] == Some(C.Number(y))
    requires NumCovers(base, d, x) && NumCovers(base, s, y) && BranchGuard(op, Num(d), Num(s))
    ensures Matched(base, ScalarBranch(pc, a, op, dst, src, d, s, offset), C.BranchTo(pc, offset, Taken(op, x, y)), c)
  {
    hide Gamma, CoversOn, RefinedSide, RefineCmp, IsBranchTaken, RefineGuard, Taken, Target, OnBase;
    var taken := Taken(op, x, y);
    var verdict := IsBranchTaken(op, d, s);
    VerdictSound(op, d, s, x, y);
    TakenSideUnguarded(op, d, s);
    RefineSound(op, d, s, x, y);
    RefineLinks(op, d, s, taken);
    var r := RefineCmp(op, d, s);
    var side := if taken then r.0 else r.1;
    SideOnBase(base, d, side.0, x);
    SideOnBase(base, s, side.1, y);
    RefinedSideCovers(base, a, c, dst, src, d, s, side, x, y);
    var succs := ScalarBranch(pc, a, op, dst, src, d, s, offset);
    MatchAt(base, succs, if taken || verdict.AlwaysNotTaken? then 0 else 1, C.BranchTo(pc, offset, taken), c);
  }

  lemma TakenSideUnguarded(op: CondOp, d: Bounds, s: Bounds)
    ensures RefineGuard(op, true, d, s)
  {
  }

  /** Against an immediate the `>=` refinement is always right. */
  lemma ImmediateGuard(op: CondOp, d: RegState, imm: I32)
    ensures BranchGuard(op, d, Num(Const(imm)))
  {
    hide IsBranchTaken;
  }

  lemma BothWaysStep(base: Base, pc: U32, a: State, c: C.State, offset: I16, taken: bool)
    requires CoversOn(base, a, c)
    ensures Matched(base, BothWays(pc, a, offset), C.BranchTo(pc, offset, taken), c)
  {
    hide CoversOn, Target;
    MatchAt(base, BothWays(pc, a, offset), if taken then 0 else 1, C.BranchTo(pc, offset, taken), c);
  }

  /** A covered operand of a comparison that is not a pair of numbers. */
  lemma PointerBranch(base: Base, pc: U32, a: State, c: C.State, op: CondOp, dst: Reg, src: Option<Reg>, s: RegState,
                      cv: Option<C.Value>, offset: I16)
    requires CoversOn(base, a, c) && RegCovers(base, s, cv)
    requires CondBranch(pc, a, op, dst, src, s, offset).Ok? && !(a.regs[dst].Num? && s.Num?)
    ensures c.regs[dst].Some? && cv.Some?
    ensures CondBranch(pc, a, op, dst, src, s, offset).value == BothWays(pc, a, offset)
    ensures C.CompareValues(pc, op, dst, c.regs[dst].value, cv.value).Ok?
  {
    hide Gamma, OffsetCovers, C.PtrOffset, Taken, ScalarBranch;
    assert RegCovers(base, a.regs[dst], c.regs[dst]);
  }

  lemma CompareStep(base: Base, pc: U32, a: State, c: C.State, op: CondOp, dst: Reg, src: Option<Reg>, s: RegState,
                    cv: Option<C.Value>, offset: I16)
    requires CoversOn(base, a, c) && RegCovers(base, s, cv) && CondBranch(pc, a, op, dst, src, s, offset).Ok?
    requires src.Some? ==> s == a.regs[src.value] && cv == c.regs[src.value]
    requires src.Some? && a.regs[dst].Num? && s.Num? ==> src.value != dst
    requires BranchGuard(op, a.regs[dst], s)
    ensures c.regs[dst].Some? && cv.Some?
    ensures var r := C.CompareValues(pc, op, dst, c.regs[dst].value, cv.value);
            r.Ok? && Matched(base, CondBranch(pc, a, op, dst, src, s, offset).value, C.BranchTo(pc, offset, r.value), c)
  {
    hide CoversOn, NumCovers, BranchGuard, ScalarBranch, Matched, Taken, C.BranchTo, CondBranch;
    if a.regs[dst].Num? && s.Num? {
      NumCovered(base, a, c, dst);
      NumbersBranch(pc, a, op, dst, src, s, offset);
      ScalarBranchStep(base, pc, a, c, op, dst, src, a.regs[dst].b, s.b, c.regs[dst].value.bits, cv.value.bits, offset);
    } else {
      PointerBranch(base, pc, a, c, op, dst, src, s, cv, offset);
      BothWaysStep(base, pc, a, c, offset, C.CompareValues(pc, op, dst, c.regs[dst].value, cv.value).value);
    }
  }

  lemma NumbersBranch(pc: U32, a: State, op: CondOp, dst: Reg, src: Option<Reg>, s: RegState, offset: I16)
    requires a.regs[dst].Num? && s.Num?
    ensures CondBranch(pc, a, op, dst, src, s, offset) ==
            Ok(ScalarBranch(pc, a, op, dst, src, a.regs[dst].b, s.b, offset))
  {
    hide ScalarBranch;
  }

  lemma SelfCompareRight(op: CondOp, x: U64)
    ensures Taken(op, x, x) == SelfCompare(op)
  {
  }

  // ── JSET ─────────────────────────────────────────────────────────────────

  /** Clearing the tested bits on the fall-through does not change the value. */
  lemma ClearedCovers(base: Base, a: State, c: C.State, dst: Reg, imm: I32, x: U64)
    requires CoversOn(base, a, c) && a.regs[dst].Num? && c.regs[dst] == Some(C.Number(x))
    requires And64(x, Wrap64(imm)) == 0
    ensures CoversOn(base, SetReg(a, dst, Num(ApplyAlu(Scalar.And, W64, a.regs[dst].b, Const(-1 - imm)))), c)
  {
    hide Gamma, ApplyAlu, Const, CoversOn, And64, NumCovers, Wrap64;
    NumCovered(base, a, c, dst);
    ConstSound(-1 - imm, Wrap64(-1 - imm));
    NumAlu(base, Scalar.And, W64, a.regs[dst].b, Const(-1 - imm), x, Wrap64(-1 - imm));
    ClearedIsIdentity(x, Wrap64(imm));
    ComplementWraps(imm);
    NarrowReg(base, a, c, dst, Num(ApplyAlu(Scalar.And, W64, a.regs[dst].b, Const(-1 - imm))));
  }

  lemma ComplementWraps(imm: I32)
    ensures Wrap64(-1 - imm) == Not64(Wrap64(imm))
  {
  }

  lemma JsetStep(base: Base, pc: U32, a: State, c: C.State, dst: Reg, imm: Option<I32>, s: Bounds, x: U64, y: U64,
                 offset: I16)
    requires CoversOn(base, a, c) && a.regs[dst].Num? && c.regs[dst] == Some(C.Number(x)) && Gamma(s, y)
    requires imm.Some? ==> y == Wrap64(imm.value)
    ensures Matched(base, JsetBranch(pc, a, dst, imm, a.regs[dst].b, s, offset),
            C.BranchTo(pc, offset, And64(x, y) != 0), c)
  {
    hide Gamma, CoversOn, JsetVerdict, And64, Target, ApplyAlu, Const, Wrap64;
    NumCovered(base, a, c, dst);
    var d := a.regs[dst].b;
    JsetVerdictSound(d, s, x, y);
    var succs := JsetBranch(pc, a, dst, imm, d, s, offset);
    var taken := And64(x, y) != 0;
    if !taken && imm.Some? {
      ClearedCovers(base, a, c, dst, imm.value, x);
    }
    MatchAt(base, succs, if taken || JsetVerdict(d, s).No? then 0 else 1, C.BranchTo(pc, offset, taken), c);
  }

  lemma ConditionalStep(base: Base, pc: U32, a: State, c: C.State, insn: Insn)
    requires CoversOn(base, a, c) && insn.IsConditional() && StepGuard(pc, a, insn)
    requires Abstract.Conditional(pc, a, insn).Ok?
    ensures var r := C.Conditional(pc, c, insn);
            r.Ok? && |r.value| == 1 && r.value[0].1 == c
            && Matched(base, Abstract.Conditional(pc, a, insn).value, r.value[0].0, c)
  {
    hide CoversOn, Gamma, CondBranch, JsetBranch, C.CompareValues, C.BranchTo, Matched, And64, Const, Wrap64,
         BranchGuard, NumCovers;
    match insn {
      case JCond(op, dst, src, offset) =>
        var cv := c.regs[src];
        RegCovered(base, a, c, src);
        if dst == src && a.regs[dst].Num? {
          NumCovered(base, a, c, dst);
          SelfCompareRight(op, cv.value.bits);
          SelfStep(base, pc, a, c, op, dst, offset);
        } else {
          SelfPointerGuard(op, a.regs[dst]);
          CompareStep(base, pc, a, c, op, dst, Some(src), a.regs[src], cv, offset);
        }
      case JCondImm(op, dst, imm, offset) =>
        ConstCovered(base, imm);
        ImmediateGuard(op, a.regs[dst], imm);
        CompareStep(base, pc, a, c, op, dst, None, Num(Const(imm)), Some(C.Number(Wrap64(imm))), offset);
      case Jset(dst, src, offset) =>
        NumCovered(base, a, c, dst);
        NumCovered(base, a, c, src);
        OperandAdmits(base, a.regs[src].b, c.regs[src].value.bits);
        JsetStep(base, pc, a, c, dst, None, a.regs[src].b, c.regs[dst].value.bits, c.regs[src].value.bits, offset);
      case JsetImm(dst, imm, offset) =>
        NumCovered(base, a, c, dst);
        ConstSound(imm, Wrap64(imm));
        JsetStep(base, pc, a, c, dst, Some(imm), Const(imm), c.regs[dst].value.bits, Wrap64(imm), offset);
    }
  }

  lemma SelfPointerGuard(op: CondOp, d: RegState)
    ensures !d.Num? ==> BranchGuard(op, d, d)
  {
  }

  lemma SelfStep(base: Base, pc: U32, a: State, c: C.State, op: CondOp, dst: Reg, offset: I16)
    requires CoversOn(base, a, c) && c.regs[dst].Some? && c.regs[dst].value.Number?
    requires Taken(op, c.regs[dst].value.bits, c.regs[dst].value.bits) == SelfCompare(op)
    ensures var v := c.regs[dst].value;
            var r := C.CompareValues(pc, op, dst, v, v);
            r.Ok? && Matched(base, [(if SelfCompare(op) then Target(pc, offset) else pc + 1, a)],
                C.BranchTo(pc, offset, r.value), c)
  {
    hide CoversOn, Target, Taken;
    MatchAt(base, [(if SelfCompare(op) then Target(pc, offset) else pc + 1, a)], 0,
            C.BranchTo(pc, offset, SelfCompare(op)), c);
  }

  // ── One instruction ──────────────────────────────────────────────────────

  lemma CallStep(base: Base, pc: U32, a: State, c: C.State, imm: I32, k: nat)
    requires CoversOn(base, a, c) && Abstract.CallHelper(pc, a, imm).Ok?
    ensures C.CallHelper(pc, c, imm).Ok?
    ensures k < |C.CallHelper(pc, c, imm).value| ==>
              CoversOn(base, Abstract.CallHelper(pc, a, imm).value, C.CallHelper(pc, c, imm).value[k])
  {
    hide CoversOn, AfterCall, Top, C.SetReg, C.Clobber;
    HelperIsScalar(base, pc, a, c, imm);
    var states := C.CallHelper(pc, c, imm).value;
    if k < |states| {
      AfterCallCovers(base, a, c, if k == 0 then 0 else if k == 1 then 1 else U64_MAX);
    }
  }

  predicate FallsThrough(insn: Insn) {
    !insn.IsConditional() && !insn.Jmp? && !insn.Exit? && !insn.CallSub? && !insn.Call?
  }

  /** The base values after one instruction. */
  ghost function NextBase(base: Base, pc: U32, a: State, c: C.State, insn: Insn): Base {
    if insn.MovReg? && c.regs[insn.src].Some? then MovBase(base, pc, a.regs[insn.src], c.regs[insn.src].value) else base
  }

  lemma PlainStep(base: Base, pc: U32, a: State, c: C.State, insn: Insn)
    requires CoversOn(base, a, c) && FallsThrough(insn) && StepGuard(pc, a, insn) && Abstract.Step(pc, a, insn).Ok?
    ensures C.Step(pc, c, insn).Ok?
    ensures CoversOn(NextBase(base, pc, a, c, insn), Abstract.Step(pc, a, insn).value, C.Step(pc, c, insn).value)
  {
    hide CoversOn, Abstract.AluImm, Abstract.AluReg, C.AluWithImm, C.AluWithReg, AluImmGuard, AluStepGuard, MovBase,
         StackRead, StackWrite, C.Load, C.Store, StoreGuard, Const, FromSigned, Mov32Bounds, NegBounds, AluConst,
         Abstract.MovReg, LinkUnused, Wrap32;
    if IsMove(insn) {
      MoveStep(base, pc, a, c, insn);
    } else if IsMemory(insn) {
      MemoryStep(base, pc, a, c, insn);
    } else if insn.AluImm? {
      AluImmStep(base, pc, a, c, insn.op, insn.width, insn.dst, insn.imm);
    } else if insn.AluReg? {
      AluRegStep(base, pc, a, c, insn.op, insn.width, insn.dst, insn.src);
    }
    if insn.MovReg? {
      MovKeepsLinks(base, pc, a, c, insn.dst, insn.src);
    }
  }

  /** One instruction: if the abstract side accepts, the concrete side does not
      fail, and each concrete successor is covered by an abstract one. */
  lemma StepSimulates(base: Base, pc: U32, a: State, c: C.State, insn: Insn, k: nat)
    requires CoversOn(base, a, c) && !insn.Exit? && StepGuard(pc, a, insn) && Abstract.Successors(pc, a, insn).Ok?
    ensures C.Successors(pc, c, insn).Ok?
    ensures k < |C.Successors(pc, c, insn).value| ==>
              var next := C.Successors(pc, c, insn).value[k];
              Matched(NextBase(base, pc, a, c, insn), Abstract.Successors(pc, a, insn).value, next.0, next.1)
  {
    hide CoversOn, Matched, Abstract.Conditional, C.Conditional, Abstract.Step, C.Step, StepGuard, Target,
         Abstract.CallHelper, C.CallHelper, MovBase;
    var succs := Abstract.Successors(pc, a, insn).value;
    if insn.Jmp? {
      MatchAt(base, succs, 0, Target(pc, insn.offset), c);
    } else if insn.IsConditional() {
      ConditionalStep(base, pc, a, c, insn);
    } else if insn.Call? {
      CallSucceeds(pc, a, insn);
      CallStep(base, pc, a, c, insn.imm, k);
      if k < |C.CallHelper(pc, c, insn.imm).value| {
        MatchAt(base, succs, 0, pc + 1, C.CallHelper(pc, c, insn.imm).value[k]);
      }
    } else {
      PlainStep(base, pc, a, c, insn);
      MatchAt(NextBase(base, pc, a, c, insn), succs, 0, pc + 1, C.Step(pc, c, insn).value);
    }
  }

  lemma CallSucceeds(pc: U32, a: State, insn: Insn)
    requires insn.Call? && Abstract.Successors(pc, a, insn).Ok?
    ensures Abstract.CallHelper(pc, a, insn.imm).Ok?
    ensures Abstract.Successors(pc, a, insn).value == [(pc + 1, Abstract.CallHelper(pc, a, insn.imm).value)]
  {
    hide Abstract.CallHelper;
  }
}
