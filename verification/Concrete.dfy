/** The concrete interpreter of `src/concrete.rs`: registers and eight-byte stack
    cells with pointer kinds, frames of BPF-to-BPF calls, and the successor
    relation. Maps and kfuncs are not part of this model. */
module Concrete {
  import opened Words
  import opened Bits
  import opened TnumDomain
  import opened Scalar
  import opened Branch
  import opened Insn

  const STACK_BASE: U64 := 0x1000
  const CTX_BASE: U64 := 0x2000
  const NUM_REGS: nat := 11
  const STACK_SLOTS: nat := 64

  datatype Value = Number(bits: U64) | StackPtr(bits: U64, frameno: nat) | CtxPtr(bits: U64)

  type Regs = s: seq<Option<Value>> | |s| == NUM_REGS witness seq(NUM_REGS, _ => None)
  type Cells = s: seq<Option<Value>> | |s| == STACK_SLOTS witness seq(STACK_SLOTS, _ => None)

  function NoCells(): Cells { seq(STACK_SLOTS, _ => None) }

  datatype Frame = Frame(regs: Regs, stack: Cells, retPc: U32)

  type Saved = s: seq<Option<Frame>> | |s| == MAX_CALL_FRAMES - 1 witness seq(MAX_CALL_FRAMES - 1, _ => None)

  datatype State = State(regs: Regs, stack: Cells, saved: Saved, curframe: nat, retPc: U32)

  datatype Failure =
    | UninitializedRead(pc: nat, reg: Reg)
    | StackOutOfFrame(pc: nat, offset: int)
    | MisalignedStackAccess(pc: nat, offset: int)
    | UninitializedStackRead(pc: nat, offset: int)
    | PointerArithmetic(pc: nat, reg: Reg)
    | NonStackBase(pc: nat, reg: Reg)
    | InvalidShiftAmount(pc: nat, amount: int)
    | HelperArgMismatch(pc: nat, arg: Reg)
    | UnknownHelper(pc: nat, imm: int)
    | InvalidComparison(pc: nat, dst: Reg)
    | InternalError(pc: nat)
    /** An access through a pointer into a frame that has returned: the source
        panics here ("a stack pointer always targets an active frame"). */
    | InactiveFrame(pc: nat)
    /** Map and context accesses, whose tables are not part of this model. */
    | Unmodelled(pc: nat)

  function Initial(): State {
    State([None, Some(CtxPtr(CTX_BASE)), None, None, None, None, None, None, None, None, Some(StackPtr(STACK_BASE, 0))],
          NoCells(), seq(MAX_CALL_FRAMES - 1, _ => None), 0, 0)
  }

  function ReadReg(pc: nat, st: State, reg: Reg): Result<Value, Failure> {
    match st.regs[reg] case None => Err(UninitializedRead(pc, reg)) case Some(v) => Ok(v)
  }

  function SetReg(st: State, reg: Reg, v: Value): State { st.(regs := st.regs[reg := Some(v)]) }

  // ── Stack cells ──────────────────────────────────────────────────────────

  /** `concrete_stack_range`: (slot, byte position of the access in the slot). */
  function StackRange(pc: nat, offset: int, size: nat): (r: Result<(nat, nat), Failure>)
    requires ValidSize(size)
    ensures r.Ok? ==> r.value.0 < STACK_SLOTS && r.value.1 + size <= 8
  {
    if offset >= 0 || offset < -512 then Err(StackOutOfFrame(pc, offset))
    else if offset % size != 0 then Err(MisalignedStackAccess(pc, offset))
    else if offset + size > 0 then Err(StackOutOfFrame(pc, offset))
    else
      var b := -offset - 1;
      Ok((b / 8, 7 - b % 8))
  }

  function CellBits(c: Option<Value>): U64 { if c.Some? then c.value.bits else 0 }

  /** A partial store replaces the covered bytes of the cell and keeps the rest
      (zero on an unwritten cell); a whole-cell store keeps the pointer kind. */
  function MergeCell(existing: Option<Value>, inSlot: nat, size: nat, value: Value): Value
    requires ValidSize(size) && inSlot + size <= 8
  {
    if size == 8 then value else
      LowMaskBounds(value.bits, size);
      var low: U64 := Pow2(8 * size) - 1;
      var raw := And64(value.bits, low);
      Number(Or64(And64(CellBits(existing), Not64(Shl(low, 8 * inSlot))), Shl(raw, 8 * inSlot)))
  }

  function Merge(stack: Cells, slot: nat, inSlot: nat, size: nat, value: Value): Cells
    requires slot < STACK_SLOTS && ValidSize(size) && inSlot + size <= 8
  {
    stack[slot := Some(MergeCell(stack[slot], inSlot, size, value))]
  }

  /** `concrete_extract` */
  function Extract(v: Value, inSlot: nat, size: nat, signExtend: bool): Value
    requires ValidSize(size) && inSlot + size <= 8
  {
    if size == 8 then v else
      LowMaskBounds(Shr(v.bits, 8 * inSlot), size);
      var low: U64 := Pow2(8 * size) - 1;
      Number(Extend(And64(Shr(v.bits, 8 * inSlot), low), size, signExtend))
  }

  /** The cells of the frame a stack pointer belongs to, if that frame is active. */
  function FrameStack(st: State, frameno: nat): Option<Cells> {
    if frameno == st.curframe then Some(st.stack)
    else if frameno < |st.saved| && st.saved[frameno].Some? then Some(st.saved[frameno].value.stack)
    else None
  }

  function SetFrameStack(st: State, frameno: nat, stack: Cells): State
    requires FrameStack(st, frameno).Some?
  {
    if frameno == st.curframe then st.(stack := stack)
    else st.(saved := st.saved[frameno := Some(st.saved[frameno].value.(stack := stack))])
  }

  /** `(v as i64 - STACK_BASE + off) as i32` */
  function AccessOffset(bits: U64, off: I16): I32 { Signed32(Wrap32(Signed64(bits) - STACK_BASE + off)) }

  datatype Place = Place(frameno: nat, slot: nat, inSlot: nat, offset: int)

  /** Where `[base + off]` of the given width lies. */
  function Locate(pc: nat, st: State, base: Reg, off: I16, size: nat): (r: Result<Place, Failure>)
    requires ValidSize(size)
    ensures r.Ok? ==> r.value.slot < STACK_SLOTS && r.value.inSlot + size <= 8
    ensures r.Ok? ==> FrameStack(st, r.value.frameno).Some?
  {
    match ReadReg(pc, st, base)
    case Err(e) => Err(e)
    case Ok(v) =>
      if v.CtxPtr? then Err(Unmodelled(pc))
      else if !v.StackPtr? then Err(NonStackBase(pc, base))
      else
        var offset := AccessOffset(v.bits, off);
        match StackRange(pc, offset, size)
        case Err(e) => Err(e)
        case Ok(p) =>
          if FrameStack(st, v.frameno).None? then Err(InactiveFrame(pc))
          else Ok(Place(v.frameno, p.0, p.1, offset))
  }

  function Load(pc: nat, st: State, dst: Reg, base: Reg, off: I16, size: nat, signExtend: bool): Result<State, Failure>
    requires ValidSize(size)
  {
    match Locate(pc, st, base, off, size)
    case Err(e) => Err(e)
    case Ok(p) =>
      match FrameStack(st, p.frameno).value[p.slot]
      case None => Err(UninitializedStackRead(pc, p.offset))
      case Some(v) => Ok(SetReg(st, dst, Extract(v, p.inSlot, size, signExtend)))
  }

  /** Storing an uninitialized register leaves the whole cell uninitialized. */
  function Store(pc: nat, st: State, value: Option<Value>, base: Reg, off: I16, size: nat): Result<State, Failure>
    requires ValidSize(size)
  {
    match Locate(pc, st, base, off, size)
    case Err(e) => Err(e)
    case Ok(p) =>
      var cells := FrameStack(st, p.frameno).value;
      match value
      case None => Ok(SetFrameStack(st, p.frameno, cells[p.slot := None]))
      case Some(v) => Ok(SetFrameStack(st, p.frameno, Merge(cells, p.slot, p.inSlot, size, v)))
  }

  // ── ALU ──────────────────────────────────────────────────────────────────

  /** The r10-relative offset of a stack address. */
  function PtrOffset(bits: U64): I64 { Signed64(Wrap64(Signed64(bits) - STACK_BASE)) }

  function AluWithImm(pc: nat, st: State, op: AluOp, width: Width, dst: Reg, imm: I32): Result<State, Failure> {
    if IsShift(op) && !(0 <= imm < BitWidth(width)) then Err(InvalidShiftAmount(pc, imm))
    else match ReadReg(pc, st, dst)
      case Err(e) => Err(e)
      case Ok(Number(d)) => Ok(SetReg(st, dst, Number(AluConst(op, width, d, Wrap64(imm)))))
      case Ok(StackPtr(v, frameno)) =>
        if !op.Add? || !width.W64? then Err(PointerArithmetic(pc, dst))
        else Ok(SetReg(st, dst, StackPtr(Wrap64(STACK_BASE + SaturateI64(PtrOffset(v) + imm)), frameno)))
      case Ok(CtxPtr(a)) =>
        if (!op.Add? && !op.Sub?) || !width.W64? then Err(PointerArithmetic(pc, dst))
        else Ok(SetReg(st, dst, CtxPtr(if op.Add? then Wrap64(a + imm) else Wrap64(a - imm))))
  }

  function AluWithReg(pc: nat, st: State, op: AluOp, width: Width, dst: Reg, src: Reg): Result<State, Failure> {
    match ReadReg(pc, st, dst)
    case Err(e) => Err(e)
    case Ok(a) =>
      match ReadReg(pc, st, src)
      case Err(e) => Err(e)
      case Ok(b) =>
        if a.Number? && b.Number? then
          Ok(SetReg(st, dst, Number(AluConst(op, width, a.bits, b.bits))))
        else if (a.StackPtr? && b.Number?) || (a.Number? && b.StackPtr?) then
          if !op.Add? || !width.W64? then Err(PointerArithmetic(pc, dst)) else
            var p := if a.StackPtr? then a else b;
            var s := if a.StackPtr? then b else a;
            var offset := Signed64(Wrap64(PtrOffset(p.bits) + Signed64(s.bits)));
            Ok(SetReg(st, dst, StackPtr(Wrap64(STACK_BASE + offset), p.frameno)))
        else if (a.CtxPtr? && b.Number?) || (a.Number? && b.CtxPtr?) then
          if (!op.Add? && !op.Sub?) || !width.W64? then Err(PointerArithmetic(pc, dst)) else
            var p := if a.CtxPtr? then a else b;
            var s := if a.CtxPtr? then b else a;
            Ok(SetReg(st, dst, CtxPtr(if op.Add? then Wrap64(p.bits + s.bits) else Wrap64(p.bits - s.bits))))
        else Err(PointerArithmetic(pc, dst))
  }

  // ── Branches ─────────────────────────────────────────────────────────────

  /** Pointers of one kind are compared for equality only; a pointer against a
      number, or two kinds, by their addresses. */
  function CompareValues(pc: nat, op: CondOp, dst: Reg, a: Value, b: Value): Result<bool, Failure> {
    if ((a.StackPtr? && b.StackPtr?) || (a.CtxPtr? && b.CtxPtr?)) && !op.Eq? && !op.Ne?
    then Err(InvalidComparison(pc, dst))
    else Ok(Taken(op, a.bits, b.bits))
  }

  function BranchTo(pc: U32, offset: I16, taken: bool): nat { if taken then Target(pc, offset) else pc + 1 }

  // ── Calls ────────────────────────────────────────────────────────────────

  predicate IsRingbufHelper(imm: int) { imm == 131 || imm == 132 || imm == 133 }

  /** r1..r5 are scratch across a call. */
  function Clobber(regs: Regs): Regs { [regs[0], None, None, None, None, None] + regs[6..] }

  function CallHelper(pc: nat, st: State, imm: I32): Result<seq<State>, Failure> {
    if IsScalarHelper(imm) then
      var base := st.(regs := Clobber(st.regs));
      Ok([SetReg(base, 0, Number(0)), SetReg(base, 0, Number(1)), SetReg(base, 0, Number(U64_MAX))])
    else if IsRingbufHelper(imm) then
      // r1 would have to hold a map or memory pointer
      match ReadReg(pc, st, 1) case Err(e) => Err(e) case Ok(_) => Err(HelperArgMismatch(pc, 1))
    else if imm == 1 || imm == 2 then Err(HelperArgMismatch(pc, 1))
    else if imm == 197 || 201 <= imm <= 203 then Err(Unmodelled(pc))
    else Err(UnknownHelper(pc, imm))
  }

  function CalleeRegs(regs: Regs, frameno: nat): Regs {
    [None, regs[1], regs[2], regs[3], regs[4], regs[5], None, None, None, None, Some(StackPtr(STACK_BASE, frameno))]
  }

  function SaveFrame(saved: Saved, depth: nat, frame: Frame): Saved
    requires depth < |saved|
  {
    saved[..depth] + [Some(frame)] + saved[depth + 1..]
  }

  function DropFrame(saved: Saved, depth: nat): Saved
    requires depth < |saved|
  {
    saved[..depth] + [None] + saved[depth + 1..]
  }

  /** `call_subprog`: save the frame, pass r1..r5, give the callee its own r10. */
  function EnterSubprog(st: State, returnPc: U32): Result<State, Failure> {
    if st.curframe >= MAX_CALL_FRAMES - 1 then Err(InternalError(0)) else
      Ok(State(CalleeRegs(st.regs, st.curframe + 1), NoCells(),
               SaveFrame(st.saved, st.curframe, Frame(st.regs, st.stack, st.retPc)), st.curframe + 1, returnPc))
  }

  /** `return_from_subprog`: restore the caller with the callee's r0. */
  function LeaveSubprog(st: State): State {
    if st.curframe == 0 || st.curframe > |st.saved| then st
    else if st.saved[st.curframe - 1].None? then st.(curframe := st.curframe - 1)
    else
      var caller := st.saved[st.curframe - 1].value;
      State([st.regs[0]] + Clobber(caller.regs)[1..], caller.stack, DropFrame(st.saved, st.curframe - 1),
            st.curframe - 1, caller.retPc)
  }

  /** A call followed at once by the return only clobbers r0..r5. */
  lemma CallReturnRestores(st: State, returnPc: U32)
    requires st.curframe < MAX_CALL_FRAMES - 1 && st.saved[st.curframe].None?
    ensures var r := LeaveSubprog(EnterSubprog(st, returnPc).value);
            && r.stack == st.stack && r.curframe == st.curframe && r.retPc == st.retPc && r.saved == st.saved
            && (forall i :: 6 <= i < NUM_REGS ==> r.regs[i] == st.regs[i])
            && (forall i :: 0 <= i < 6 ==> r.regs[i].None?)
  {
    var callee := EnterSubprog(st, returnPc).value;
    assert callee.saved[callee.curframe - 1] == Some(Frame(st.regs, st.stack, st.retPc));
  }

  // ── Successors ───────────────────────────────────────────────────────────

  type Succs = Result<seq<(nat, State)>, Failure>

  function One(pc: nat, r: Result<State, Failure>): Succs {
    match r case Err(e) => Err(e) case Ok(st) => Ok([(pc + 1, st)])
  }

  function Each(pc: nat, states: seq<State>): seq<(nat, State)> {
    seq(|states|, i requires 0 <= i < |states| => (pc + 1, states[i]))
  }

  /** `concrete_step`: the instructions with a single fall-through successor. */
  function Step(pc: nat, st: State, insn: Insn): Result<State, Failure>
    requires !insn.IsConditional() && !insn.Jmp? && !insn.Exit? && !insn.Call? && !insn.CallSub?
  {
    match insn
    case MovImm(dst, imm) => Ok(SetReg(st, dst, Number(Wrap64(imm))))
    case Mov32Imm(dst, imm) => Ok(SetReg(st, dst, Number(Wrap32(imm))))
    case Mov32Reg(dst, src) =>
      (match ReadReg(pc, st, src)
       case Err(e) => Err(e)
       case Ok(v) => if v.Number? then Ok(SetReg(st, dst, Number(v.bits % TWO32))) else Err(InternalError(pc)))
    case MovReg(dst, src) =>
      (match ReadReg(pc, st, src) case Err(e) => Err(e) case Ok(v) => Ok(SetReg(st, dst, v)))
    case AluImm(op, width, dst, imm) => AluWithImm(pc, st, op, width, dst, imm)
    case AluReg(op, width, dst, src) => AluWithReg(pc, st, op, width, dst, src)
    case NegReg(width, dst) =>
      (match ReadReg(pc, st, dst)
       case Err(e) => Err(e)
       case Ok(v) =>
         if v.Number? then Ok(SetReg(st, dst, Number(AluConst(Neg, width, v.bits, 0))))
         else Err(PointerArithmetic(pc, dst)))
    case LdImm64(dst, imm64) => Ok(SetReg(st, dst, Number(imm64)))
    case LdImm64Second(_) => Ok(st)
    case LdMapFd(_, _, _) => Err(Unmodelled(pc))
    case LdMapValue(_, _, _) => Err(Unmodelled(pc))
    case LdMem(dst, base, offset, size, signExtend) => Load(pc, st, dst, base, offset, size.Bytes(), signExtend)
    case StMem(src, base, offset, size) => Store(pc, st, st.regs[src], base, offset, size.Bytes())
    case StMemImm(imm, base, offset, size) => Store(pc, st, Some(Number(Wrap64(imm))), base, offset, size.Bytes())
  }

  /** The second operand of a comparison. */
  function Operand(pc: nat, st: State, insn: Insn): Result<Value, Failure>
    requires insn.IsConditional()
  {
    if insn.JCond? || insn.Jset? then ReadReg(pc, st, insn.src) else Ok(Number(Wrap64(insn.imm)))
  }

  function Conditional(pc: U32, st: State, insn: Insn): Succs
    requires insn.IsConditional()
  {
    match ReadReg(pc, st, insn.dst)
    case Err(e) => Err(e)
    case Ok(a) =>
      match Operand(pc, st, insn)
      case Err(e) => Err(e)
      case Ok(b) =>
        if insn.Jset? || insn.JsetImm? then
          if !a.Number? || !b.Number? then Err(InvalidComparison(pc, insn.dst))
          else Ok([(BranchTo(pc, insn.offset, And64(a.bits, b.bits) != 0), st)])
        else
          match CompareValues(pc, insn.cond, insn.dst, a, b)
          case Err(e) => Err(e)
          case Ok(taken) => Ok([(BranchTo(pc, insn.offset, taken), st)])
  }

  /** `concrete_successors`; `Exit` is expanded by the driver. */
  function Successors(pc: U32, st: State, insn: Insn): Succs {
    if insn.Exit? then Ok([])
    else if insn.Jmp? then Ok([(Target(pc, insn.offset), st)])
    else if insn.IsConditional() then Conditional(pc, st, insn)
    else if insn.Call? then
      match CallHelper(pc, st, insn.imm) case Err(e) => Err(e) case Ok(states) => Ok(Each(pc, states))
    else if insn.CallSub? then
      match EnterSubprog(st, Wrap32(pc + 1))
      case Err(e) => Err(e)
      case Ok(callee) => Ok([(Target(pc, insn.callOffset), callee)])
    else One(pc, Step(pc, st, insn))
  }

  // ── The driver's view of one instruction ─────────────────────────────────

  datatype Outcome = Next(succs: seq<(nat, State)>) | Exits | Fails(failure: Failure)

  /** One popped work item of `run_concrete_with_maps`: a nested exit returns to
      the caller, the outermost one needs an initialized r0. */
  function Explore(program: Program, pc: nat, st: State): Outcome {
    if pc >= |program| then Fails(InternalError(pc))
    else if program[pc].Exit? then
      if st.curframe > 0 then
        if st.regs[0].Some? && st.regs[0].value.StackPtr? then Fails(PointerArithmetic(pc, 0))
        else Next([(st.retPc, LeaveSubprog(st))])
      else if st.regs[0].None? then Fails(UninitializedRead(pc, 0))
      else Exits
    else match Successors(pc, st, program[pc])
      case Err(e) => Fails(e)
      case Ok(succs) => Next(succs)
  }
}
