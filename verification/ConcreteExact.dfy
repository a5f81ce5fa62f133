/** The concrete interpreter instruction by instruction (`src/concrete.rs`): it fails
    exactly where a program may not go, and changes what the instruction set says. */
module ConcreteExact {
  import opened Words
  import opened Bits
  import opened Scalar
  import opened Branch
  import opened Insn
  import opened Concrete
  import SlotMemory

  // ── Where it fails ───────────────────────────────────────────────────────

  /** The address of a stack access relative to r10, as 64-bit arithmetic wraps to 32. */
  function At(v: Value, off: I16): int { AccessOffset(v.bits, off) }

  /** That is the distance to r10 plus the displacement, while it fits. */
  lemma AddressOfAccess(v: Value, off: I16)
    requires I32_MIN <= PtrOffset(v.bits) + off <= I32_MAX
    ensures At(v, off) == PtrOffset(v.bits) + off
  {
    var z := Signed64(v.bits) - STACK_BASE;
    var k := (z - PtrOffset(v.bits)) / TWO64;
    WrapDiffers(z);
    SignedCongruent(Wrap64(z));
    assert z == PtrOffset(v.bits) + TWO64 * k;
    ModEqual(z + off, PtrOffset(v.bits) + off, TWO32, TWO32 * k);
    SignedLow(PtrOffset(v.bits) + off);
  }

  lemma SignedLow(z: I32)
    ensures Signed32(Wrap32(z)) == z
  {
  }

  /** The access lies in an active frame, aligned to its width. */
  predicate Accessible(st: State, base: Reg, off: I16, size: nat)
    requires ValidSize(size)
  {
    && st.regs[base].Some? && st.regs[base].value.StackPtr?
    && -512 <= At(st.regs[base].value, off) && At(st.regs[base].value, off) + size <= 0
    && At(st.regs[base].value, off) % size == 0 && FrameStack(st, st.regs[base].value.frameno).Some?
  }

  /** The eight-byte cell an access falls into was written. */
  predicate Written(st: State, base: Reg, off: I16, size: nat)
    requires ValidSize(size) && Accessible(st, base, off, size)
  {
    var v := st.regs[base].value;
    FrameStack(st, v.frameno).value[SlotOf(At(v, off))].Some?
  }

  function SlotOf(o: int): nat
    requires -512 <= o < 0
  {
    (-o - 1) / 8
  }

  predicate IsPointer(v: Value) { !v.Number? }

  /** Numbers with numbers; a pointer moved by a number, in 64 bits: stack pointers by
      additions, context pointers also by subtractions. */
  predicate Combines(op: AluOp, width: Width, a: Value, b: Value) {
    || (a.Number? && b.Number?)
    || (IsPointer(a) != IsPointer(b) && width.W64?
        && (op.Add? || (op.Sub? && !a.StackPtr? && !b.StackPtr?)))
  }

  predicate IsNumber(v: Option<Value>) { v.Some? && v.value.Number? }

  predicate SameKind(a: Value, b: Value) { (a.StackPtr? && b.StackPtr?) || (a.CtxPtr? && b.CtxPtr?) }

  /** What each instruction needs to run without a failure. */
  predicate Succeeds(st: State, insn: Insn) {
    match insn
    case MovReg(_, src) => st.regs[src].Some?
    case Mov32Reg(_, src) => IsNumber(st.regs[src])
    case NegReg(_, dst) => IsNumber(st.regs[dst])
    case AluImm(op, width, dst, imm) =>
      && (IsShift(op) ==> 0 <= imm < BitWidth(width)) && st.regs[dst].Some?
      && Combines(op, width, st.regs[dst].value, Number(Wrap64(imm)))
    case AluReg(op, width, dst, src) =>
      st.regs[dst].Some? && st.regs[src].Some? && Combines(op, width, st.regs[dst].value, st.regs[src].value)
    case LdMem(_, base, off, size, _) =>
      Accessible(st, base, off, size.Bytes()) && Written(st, base, off, size.Bytes())
    case StMem(_, base, off, size) => Accessible(st, base, off, size.Bytes())
    case StMemImm(_, base, off, size) => Accessible(st, base, off, size.Bytes())
    case JCond(op, dst, src, _) =>
      && st.regs[dst].Some? && st.regs[src].Some?
      && (SameKind(st.regs[dst].value, st.regs[src].value) ==> op.Eq? || op.Ne?)
    case JCondImm(_, dst, _, _) => st.regs[dst].Some?
    case Jset(dst, src, _) => IsNumber(st.regs[dst]) && IsNumber(st.regs[src])
    case JsetImm(dst, _, _) => IsNumber(st.regs[dst])
    case Call(imm) => IsScalarHelper(imm)
    case CallSub(_) => st.curframe + 1 < MAX_CALL_FRAMES
    case LdMapFd(_, _, _) => false
    case LdMapValue(_, _, _) => false
    case _ => true
  }

  lemma FailsExactly(pc: U32, st: State, insn: Insn)
    ensures Successors(pc, st, insn).Ok? <==> Succeeds(st, insn)
  {
    hide AluConst, Extract, Merge, AccessOffset, SetFrameStack, FrameStack, Target, Accessible, SaveFrame, CalleeRegs,
         Wrap64, PtrOffset, Locate, Taken, Clobber;
    if insn.LdMem? || insn.StMem? || insn.StMemImm? {
      LocateExact(pc, st, insn.base, insn.offset, insn.size.Bytes());
    }
  }

  lemma LocateExact(pc: nat, st: State, base: Reg, off: I16, size: nat)
    requires ValidSize(size)
    ensures Locate(pc, st, base, off, size).Ok? <==> Accessible(st, base, off, size)
    ensures Accessible(st, base, off, size) ==>
              var p := Locate(pc, st, base, off, size).value;
              var v := st.regs[base].value;
              p.frameno == v.frameno && p.offset == At(v, off) && p.slot == SlotOf(At(v, off))
  {
    hide AccessOffset, FrameStack;
    if st.regs[base].Some? {
      SlotMemory.RangeExact(pc, At(st.regs[base].value, off), size);
    }
  }

  /** A missing operand is named, and an access is refused for its base, its place, its
      alignment or its frame, in this order. */
  lemma FailureNamed(pc: nat, st: State, base: Reg, off: I16, size: nat)
    requires ValidSize(size) && !Accessible(st, base, off, size)
    ensures Locate(pc, st, base, off, size) == Err(
              if st.regs[base].None? then UninitializedRead(pc, base)
              else if st.regs[base].value.CtxPtr? then Unmodelled(pc)
              else if st.regs[base].value.Number? then NonStackBase(pc, base)
              else
                var o := At(st.regs[base].value, off);
                if o < -512 || o >= 0 then StackOutOfFrame(pc, o)
                else if o % size != 0 then MisalignedStackAccess(pc, o)
                else if o + size > 0 then StackOutOfFrame(pc, o)
                else InactiveFrame(pc))
  {
    hide AccessOffset, FrameStack;
  }

  lemma ReadFailureNamed(pc: U32, st: State, insn: Insn)
    requires insn.LdMem? && Accessible(st, insn.base, insn.offset, insn.size.Bytes())
    requires !Written(st, insn.base, insn.offset, insn.size.Bytes())
    ensures Successors(pc, st, insn) ==
            Err(UninitializedStackRead(pc, At(st.regs[insn.base].value, insn.offset)))
  {
    hide AccessOffset, FrameStack, Accessible, Locate, Extract;
    LocateExact(pc, st, insn.base, insn.offset, insn.size.Bytes());
  }

  // ── What it computes ─────────────────────────────────────────────────────

  /** Everything but the given register is as before. */
  ghost predicate OnlyRegister(st: State, next: State, dst: Reg) {
    next == st.(regs := next.regs) && forall r :: 0 <= r < NUM_REGS && r != dst ==> next.regs[r] == st.regs[r]
  }

  /** Moves and constants: immediates are sign-extended, in 32 bits also cut off. */
  lemma MovesExact(pc: U32, st: State, dst: Reg, src: Reg, imm: I32, imm64: U64)
    ensures var n := Step(pc, st, MovImm(dst, imm)).value;
            OnlyRegister(st, n, dst) && IsNumber(n.regs[dst]) && Signed64(n.regs[dst].value.bits) == imm
    ensures var n := Step(pc, st, Mov32Imm(dst, imm)).value;
            && OnlyRegister(st, n, dst) && IsNumber(n.regs[dst]) && n.regs[dst].value.bits < TWO32
            && Signed32(n.regs[dst].value.bits) == imm
    ensures var n := Step(pc, st, LdImm64(dst, imm64)).value;
            OnlyRegister(st, n, dst) && n.regs[dst] == Some(Number(imm64))
    ensures st.regs[src].Some? ==>
              var n := Step(pc, st, Insn.MovReg(dst, src)).value;
              OnlyRegister(st, n, dst) && n.regs[dst] == st.regs[src]
    ensures IsNumber(st.regs[src]) ==>
              var n := Step(pc, st, Insn.Mov32Reg(dst, src)).value;
              && OnlyRegister(st, n, dst) && IsNumber(n.regs[dst]) && n.regs[dst].value.bits < TWO32
              && (st.regs[src].value.bits - n.regs[dst].value.bits) % TWO32 == 0
  {
  }

  /** Arithmetic on numbers is the exact ALU, on a sign-extended immediate or a register. */
  lemma NumbersExact(pc: U32, st: State, op: AluOp, width: Width, dst: Reg, src: Reg, imm: I32)
    requires IsNumber(st.regs[dst])
    ensures (IsShift(op) ==> 0 <= imm < BitWidth(width)) ==>
              var n := Step(pc, st, Insn.AluImm(op, width, dst, imm)).value;
              OnlyRegister(st, n, dst)
              && n.regs[dst] == Some(Number(AluConst(op, width, st.regs[dst].value.bits, Wrap64(imm))))
    ensures IsNumber(st.regs[src]) ==>
              var n := Step(pc, st, Insn.AluReg(op, width, dst, src)).value;
              OnlyRegister(st, n, dst)
              && n.regs[dst] == Some(Number(AluConst(op, width, st.regs[dst].value.bits, st.regs[src].value.bits)))
    ensures var n := Step(pc, st, Insn.NegReg(width, dst)).value;
            && OnlyRegister(st, n, dst) && IsNumber(n.regs[dst])
            && n.regs[dst].value.bits == AluConst(Neg, width, st.regs[dst].value.bits, 0)
  {
    hide AluConst;
  }

  /** A moved pointer keeps its kind and frame, and its address moves by the number. */
  lemma PointersExact(pc: U32, st: State, dst: Reg, src: Reg)
    requires st.regs[dst].Some? && st.regs[src].Some? && IsPointer(st.regs[dst].value) != IsPointer(st.regs[src].value)
    ensures var n := Step(pc, st, Insn.AluReg(Add, W64, dst, src)).value;
            var p := if IsPointer(st.regs[dst].value) then st.regs[dst].value else st.regs[src].value;
            OnlyRegister(st, n, dst)
            && n.regs[dst] == Some(MovedTo(p, Wrap64(st.regs[dst].value.bits + st.regs[src].value.bits)))
  {
    hide Wrap64, Signed64;
    var a, b := st.regs[dst].value.bits, st.regs[src].value.bits;
    MovedAddress(a, b);
    MovedAddress(b, a);
  }

  function MovedTo(p: Value, bits: U64): Value {
    match p
    case StackPtr(_, frameno) => StackPtr(bits, frameno)
    case CtxPtr(_) => CtxPtr(bits)
    case Number(_) => Number(bits)
  }

  /** Going through the r10-relative offset adds the address itself. */
  lemma MovedAddress(p: U64, s: U64)
    ensures Wrap64(STACK_BASE + Signed64(Wrap64(PtrOffset(p) + Signed64(s)))) == Wrap64(p + s)
  {
    hide Wrap64, Signed64, Differ64;
    var o := PtrOffset(p);
    var t := Wrap64(o + Signed64(s));
    SignedCongruent(t);
    WrapDiffers(o + Signed64(s));
    SignedCongruent(s);
    SignedCongruent(p);
    SignedCongruent(Wrap64(Signed64(p) - STACK_BASE));
    WrapDiffers(Signed64(p) - STACK_BASE);
    DifferSum(Signed64(t), t, o + Signed64(s), STACK_BASE, 0);
    DifferSum(o, Wrap64(Signed64(p) - STACK_BASE), Signed64(p) - STACK_BASE, STACK_BASE + Signed64(s), 0);
    DifferSum(Signed64(p), p, p, 0, Signed64(s));
    DifferSum(Signed64(s), s, s, 0, p);
    DifferTwice(STACK_BASE + Signed64(t), STACK_BASE + o + Signed64(s), Signed64(p) + Signed64(s));
    DifferTwice(STACK_BASE + Signed64(t), Signed64(p) + Signed64(s), p + Signed64(s));
    DifferTwice(STACK_BASE + Signed64(t), p + Signed64(s), p + s);
    Congruent(STACK_BASE + Signed64(t), p + s);
  }

  lemma DifferSum(x: int, y: int, z: int, k: int, l: int)
    requires Differ64(x, y) && Differ64(y, z)
    ensures Differ64(x + k + l, z + k + l)
  {
    DifferTwice(x, y, z);
    assert x + k + l - (z + k + l) == x - z;
  }

  lemma DifferTwice(x: int, y: int, z: int)
    requires Differ64(x, y) && Differ64(y, z)
    ensures Differ64(x, z)
  {
  }

  ghost predicate Differ64(x: int, y: int) { (x - y) % TWO64 == 0 }

  lemma SignedCongruent(x: U64)
    ensures Differ64(Signed64(x), x) && Differ64(x, x)
  {
  }

  lemma Congruent(x: int, y: int)
    requires Differ64(x, y)
    ensures Wrap64(x) == Wrap64(y)
  {
    ModEqual(x, y, TWO64, (x - y) / TWO64);
  }

  /** An immediate moves a stack pointer by itself unless the offset saturates, and a
      context pointer both ways. */
  lemma PointerImmediates(pc: U32, st: State, dst: Reg, imm: I32)
    requires st.regs[dst].Some?
    ensures st.regs[dst].value.StackPtr? && FitsI64(PtrOffset(st.regs[dst].value.bits) + imm) ==>
              var n := Step(pc, st, Insn.AluImm(Add, W64, dst, imm)).value;
              OnlyRegister(st, n, dst)
              && n.regs[dst] == Some(StackPtr(Wrap64(st.regs[dst].value.bits + imm), st.regs[dst].value.frameno))
    ensures st.regs[dst].value.CtxPtr? ==>
              && Step(pc, st, Insn.AluImm(Add, W64, dst, imm)).value.regs[dst] ==
                 Some(CtxPtr(Wrap64(st.regs[dst].value.bits + imm)))
              && Step(pc, st, Insn.AluImm(Sub, W64, dst, imm)).value.regs[dst] ==
                 Some(CtxPtr(Wrap64(st.regs[dst].value.bits - imm)))
  {
    hide Wrap64, Signed64;
    if st.regs[dst].value.StackPtr? {
      var p := st.regs[dst].value.bits;
      SignedCongruent(Wrap64(Signed64(p) - STACK_BASE));
      SignedCongruent(p);
      WrapDiffers(Signed64(p) - STACK_BASE);
      OffsetBack(p, imm);
    }
  }

  lemma WrapDiffers(z: int)
    ensures Differ64(Wrap64(z), z)
  {
  }

  lemma OffsetBack(p: U64, imm: I32)
    ensures Wrap64(STACK_BASE + PtrOffset(p) + imm) == Wrap64(p + imm)
  {
    SignedCongruent(p);
    SignedCongruent(Wrap64(Signed64(p) - STACK_BASE));
    WrapDiffers(Signed64(p) - STACK_BASE);
    Congruent(STACK_BASE + PtrOffset(p) + imm, p + imm);
  }

  /** A branch goes one way, by the addresses or numbers compared, and changes nothing. */
  lemma BranchExact(pc: U32, st: State, insn: Insn, b: U64)
    requires insn.IsConditional() && Succeeds(st, insn)
    requires if insn.JCond? || insn.Jset? then b == st.regs[insn.src].value.bits else Signed64(b) == insn.imm
    ensures var a := st.regs[insn.dst].value.bits;
            var taken := if insn.Jset? || insn.JsetImm? then And64(a, b) != 0 else Taken(insn.cond, a, b);
            Successors(pc, st, insn) == Ok([(if taken then Target(pc, insn.offset) else pc + 1, st)])
  {
    hide Taken, And64, Target;
    WrapOfSigned(b);
  }

  /** A number helper returns 0, 1 or all ones and only clobbers r1 to r5. */
  lemma HelperExact(pc: U32, st: State, imm: I32, k: nat, r: Reg)
    requires IsScalarHelper(imm) && k < 3
    ensures var succs := Successors(pc, st, Call(imm)).value;
            && |succs| == 3 && succs[k].0 == pc + 1
            && succs[k].1 == st.(regs := succs[k].1.regs)
            && succs[k].1.regs[0] == Some(Number(if k == 0 then 0 else if k == 1 then 1 else U64_MAX))
            && (1 <= r <= 5 ==> succs[k].1.regs[r].None?) && (6 <= r ==> succs[k].1.regs[r] == st.regs[r])
  {
  }

  /** A call hands over r1 to r5 and an empty stack and keeps the caller for the return. */
  lemma CallExact(pc: U32, st: State, offset: I32, r: Reg)
    requires st.curframe + 1 < MAX_CALL_FRAMES
    ensures var succs := Successors(pc, st, CallSub(offset)).value;
            && |succs| == 1 && succs[0].0 == Target(pc, offset)
            && var n := succs[0].1;
            && n.curframe == st.curframe + 1 && n.retPc == Wrap32(pc + 1)
            && (1 <= r <= 5 ==> n.regs[r] == st.regs[r]) && ((r == 0 || 6 <= r <= 9) ==> n.regs[r].None?)
            && n.regs[10] == Some(StackPtr(STACK_BASE, st.curframe + 1))
            && (forall s :: 0 <= s < STACK_SLOTS ==> n.stack[s].None?)
            && n.saved[st.curframe] == Some(Frame(st.regs, st.stack, st.retPc))
            && (forall f :: 0 <= f < |n.saved| && f != st.curframe ==> n.saved[f] == st.saved[f])
  {
    hide Target;
  }

  /** The driver: a nested exit returns to the caller unless r0 is a stack pointer, the
      outermost one needs an initialized r0, and any failure is reported. */
  lemma ExploreExact(program: Program, pc: nat, st: State)
    ensures var o := Explore(program, pc, st);
            && (o.Exits? <==> pc < |program| && program[pc].Exit? && st.curframe == 0 && st.regs[0].Some?)
            && (o.Fails? <==>
                  if pc >= |program| then true
                  else if !program[pc].Exit? then !Succeeds(st, program[pc])
                  else if st.curframe > 0 then st.regs[0].Some? && st.regs[0].value.StackPtr?
                  else st.regs[0].None?)
            && (pc < |program| && program[pc].Exit? && o.Next? ==> o.succs == [(st.retPc, LeaveSubprog(st))])
  {
    hide Successors, LeaveSubprog, Succeeds;
    if pc < |program| && !program[pc].Exit? {
      FailsExactly(pc, st, program[pc]);
    }
  }

  /** `pc + 1 + offset`, wherever that is a 32-bit index. */
  lemma TargetExact(pc: U32, offset: int)
    ensures 0 <= pc + 1 + offset < TWO32 ==> Target(pc, offset) == pc + 1 + offset
    ensures (Target(pc, offset) - pc - 1 - offset) % TWO32 == 0
  {
  }
}
