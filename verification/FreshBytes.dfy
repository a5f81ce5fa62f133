/** Frame bytes that no store has reached (`src/concrete.rs`, `state_covers`): the
    concrete merge fills them with zeros. */
module FreshBytes {
  import opened Words
  import opened Scalar
  import opened Branch
  import opened Insn
  import opened Abstract
  import opened Coverage
  import opened SlotMemory
  import opened StackSound
  import opened Simulation
  import C = Concrete

  /** A byte marked Invalid is 0 in its cell; an empty cell counts as zeros. */
  ghost predicate FreshZero(bytes: Marks, cells: C.Cells) {
    forall s: nat, j: nat :: s < 64 && j < 8 && Mark(bytes, s, j).Invalid? ==> ByteOf(C.CellBits(cells[s]), j) == 0
  }

  lemma EmptyFresh()
    ensures FreshZero(NoMarks(), C.NoCells())
  {
    ZeroEverywhere();
  }

  lemma ZeroEverywhere()
    ensures forall j: nat :: ByteOf(0, j) == 0
  {
    forall j: nat
      ensures ByteOf(0, j) == 0
    {
      ZeroBytes(j);
    }
  }

  // ── Stores ───────────────────────────────────────────────────────────────

  /** What a store does to the marks: covered bytes are set, no other byte becomes
      Invalid. */
  lemma WrittenMarks(pc: nat, a: State, reg: Reg, off: I16, size: nat, v: RegState, i: nat)
    requires ValidSize(size) && OwnFrame(a, reg) && StackWrite(pc, a, reg, off, size, v).Ok? && i < 512
    ensures CheckAccess(pc, a.regs[reg], off, size).Ok?
    ensures StackWrite(pc, a, reg, off, size, v).value.bytes[i].Invalid? ==>
              var acc := CheckAccess(pc, a.regs[reg], off, size).value;
              a.bytes[i].Invalid? && !(acc.lo <= i <= acc.hi)
  {
    hide CheckAccess, PointerSpilled;
  }

  lemma StoreResult(pc: nat, c: C.State, reg: Reg, off: I16, size: nat, cv: C.Value)
    requires ValidSize(size) && C.Store(pc, c, Some(cv), reg, off, size).Ok?
    ensures C.Locate(pc, c, reg, off, size).Ok?
    ensures var p := C.Locate(pc, c, reg, off, size).value;
            p.frameno == c.curframe ==>
              C.Store(pc, c, Some(cv), reg, off, size).value ==
              c.(stack := C.Merge(c.stack, p.slot, p.inSlot, size, cv))
  {
    hide C.Locate, C.MergeCell;
  }

  lemma StoreFresh(base: Base, pc: nat, a: State, c: C.State, reg: Reg, off: I16, size: nat, v: RegState, cv: C.Value)
    requires CoversOn(base, a, c) && FreshZero(a.bytes, c.stack) && ValidSize(size) && OwnFrame(a, reg)
    requires StackWrite(pc, a, reg, off, size, v).Ok? && C.Store(pc, c, Some(cv), reg, off, size).Ok?
    ensures FreshZero(StackWrite(pc, a, reg, off, size, v).value.bytes,
                      C.Store(pc, c, Some(cv), reg, off, size).value.stack)
  {
    WrittenMarks(pc, a, reg, off, size, v, 0);
    hide CoversOn, StackWrite, CheckAccess, C.Store, C.Locate, C.MergeCell, ByteOf;
    Located(base, pc, a, c, reg, off, size);
    StoreResult(pc, c, reg, off, size, cv);
    var p := C.Locate(pc, c, reg, off, size).value;
    var next := StackWrite(pc, a, reg, off, size, v).value;
    var cells := C.Merge(c.stack, p.slot, p.inSlot, size, cv);
    forall s: nat, j: nat | s < 64 && j < 8 && Mark(next.bytes, s, j).Invalid?
      ensures ByteOf(C.CellBits(cells[s]), j) == 0
    {
      WrittenMarks(pc, a, reg, off, size, v, 8 * s + 7 - j);
      assert Mark(a.bytes, s, j).Invalid?;
      KeptByte(c.stack, p.slot, p.inSlot, size, cv, s, j);
    }
  }

  /** A byte outside the access is the one before. */
  lemma KeptByte(cells: C.Cells, slot: nat, inSlot: nat, size: nat, cv: C.Value, s: nat, j: nat)
    requires ValidSize(size) && slot < 64 && inSlot + size <= 8 && s < 64 && j < 8
    requires !(s == slot && inSlot <= j < inSlot + size)
    ensures ByteOf(C.CellBits(C.Merge(cells, slot, inSlot, size, cv)[s]), j) == ByteOf(C.CellBits(cells[s]), j)
  {
    hide ByteOf, C.MergeCell;
    if s == slot {
      MergedByte(cells[s], inSlot, size, cv, j);
    }
  }

  // ── Everything else ──────────────────────────────────────────────────────

  predicate IsStore(insn: Insn) { insn.StMem? || insn.StMemImm? }

  ghost predicate BytesKept(succs: Result<seq<(nat, State)>, Rejection>, bytes: Marks) {
    succs.Ok? ==> forall k :: 0 <= k < |succs.value| ==> succs.value[k].1.bytes == bytes
  }

  lemma SideKeepsBytes(st: State, dst: Reg, src: Option<Reg>, d: Bounds, s: Bounds, side: (Bounds, Bounds))
    ensures RefinedSide(st, dst, src, d, s, side).bytes == st.bytes
  {
    hide SyncReg, SyncSpill;
  }

  lemma ConditionalKeepsBytes(pc: U32, st: State, insn: Insn)
    requires insn.IsConditional()
    ensures BytesKept(Abstract.Conditional(pc, st, insn), st.bytes)
  {
    hide RefinedSide, IsBranchTaken, RefineCmp, ReplaceAliases, Target, Const, JsetVerdict, ApplyAlu, DropRef;
    forall dst: Reg, src: Option<Reg>, d: Bounds, s: Bounds, side: (Bounds, Bounds)
      ensures RefinedSide(st, dst, src, d, s, side).bytes == st.bytes
    {
      SideKeepsBytes(st, dst, src, d, s, side);
    }
    forall x: State, id: nat, fate: Fate
      ensures ReplaceAliases(x, id, fate).bytes == x.bytes
    {
      AliasesKeepBytes(x, id, fate);
    }
  }

  lemma AliasesKeepBytes(st: State, id: nat, fate: Fate)
    ensures ReplaceAliases(st, id, fate).bytes == st.bytes
  {
  }

  lemma HelperKeepsBytes(pc: U32, st: State, imm: I32)
    ensures Abstract.CallHelper(pc, st, imm).Ok? ==> Abstract.CallHelper(pc, st, imm).value.bytes == st.bytes
  {
    hide DropRef, FreshReferenceId, ReserveSize, Top, Const, AliasReg, AliasSpill;
  }

  lemma StepKeepsBytes(pc: U32, st: State, insn: Insn)
    requires FallsThrough(insn) && !IsStore(insn)
    ensures Abstract.Step(pc, st, insn).Ok? ==> Abstract.Step(pc, st, insn).value.bytes == st.bytes
  {
    hide Const, FromSigned, Mov32Bounds, NegBounds, ApplyAlu, AddScalarToStackPtr, AddImmToStackPtr, MoveCtx, StackRead;
  }

  lemma SuccessorsKeepBytes(pc: U32, st: State, insn: Insn)
    requires !IsStore(insn)
    ensures BytesKept(Abstract.Successors(pc, st, insn), st.bytes)
  {
    hide Abstract.Step, Abstract.Conditional, Target, Abstract.CallHelper;
    if insn.IsConditional() {
      ConditionalKeepsBytes(pc, st, insn);
    } else if insn.Call? {
      HelperKeepsBytes(pc, st, insn.imm);
      HelperIsStep(pc, st, insn);
    } else if FallsThrough(insn) {
      StepKeepsBytes(pc, st, insn);
    }
  }

  lemma HelperIsStep(pc: U32, st: State, insn: Insn)
    requires insn.Call?
    ensures Abstract.Step(pc, st, insn) == Abstract.CallHelper(pc, st, insn.imm)
  {
    hide Abstract.CallHelper;
  }
}
