/** Sequences of abstract states from the initial one. */
module AbstractRuns {
  import opened Words
  import opened Insn
  import opened Abstract

  /** One step of the abstract exploration. */
  ghost predicate Leads(program: Program, from: (nat, State), to: (nat, State)) {
    && from.0 < |program| && from.0 < TWO32 && Successors(from.0, from.1, program[from.0]).Ok?
    && to in Successors(from.0, from.1, program[from.0]).value
  }

  ghost predicate LeadsAt(program: Program, path: seq<(nat, State)>, i: nat)
    requires 0 < i < |path|
  {
    Leads(program, path[i - 1], path[i])
  }

  /** The abstract states along a path, in order. */
  ghost predicate AbstractPath(program: Program, path: seq<(nat, State)>) {
    && path != [] && path[0] == (0, Initial())
    && forall i: nat :: 0 < i < |path| ==> LeadsAt(program, path, i)
  }

  lemma StartPath(program: Program)
    ensures AbstractPath(program, [(0, Initial())])
  {
  }

  lemma ExtendPath(program: Program, path: seq<(nat, State)>, to: (nat, State))
    requires AbstractPath(program, path) && Leads(program, path[|path| - 1], to)
    ensures AbstractPath(program, path + [to]) && (path + [to])[|path|] == to
  {
    hide Leads;
    var longer := path + [to];
    forall i: nat | 0 < i < |longer|
      ensures LeadsAt(program, longer, i)
    {
      assert i < |path| ==> LeadsAt(program, path, i);
    }
  }

  /** A state the abstract exploration reaches. */
  ghost predicate AbstractReachable(program: Program, to: (nat, State)) {
    exists path: seq<(nat, State)> :: path != [] && AbstractPath(program, path) && path[|path| - 1] == to
  }

  lemma StartReachable(program: Program)
    ensures AbstractReachable(program, (0, Initial()))
  {
    StartPath(program);
    assert [(0, Initial())][0] == (0, Initial());
  }

  lemma LeadsReachable(program: Program, from: (nat, State), to: (nat, State))
    requires AbstractReachable(program, from) && Leads(program, from, to)
    ensures AbstractReachable(program, to)
  {
    hide Leads, AbstractPath;
    var path: seq<(nat, State)> :| path != [] && AbstractPath(program, path) && path[|path| - 1] == from;
    ExtendPath(program, path, to);
    assert AbstractPath(program, path + [to]) && (path + [to])[|path + [to]| - 1] == to;
  }
}

/** Pointers at offsets that are a masked helper result: the states in which the two
    faulty rules on stack pointers are met by a whole program. */
module MaskedOffsets {
  import opened Words
  import opened Bits
  import opened TnumDomain
  import opened Scalar
  import opened Insn
  import opened Abstract
  import opened Runs
  import opened AbstractRuns
  import C = Concrete

  const U := RegState.Uninit
  const R10 := PtrToStack(0, 0, 0, 0)

  function AbstractAt(r0: RegState, r2: RegState): State {
    State([r0, U, r2, U, U, U, U, U, U, U, R10], NoMarks(), NoSpills(), [], 0)
  }

  function Number(x: U64): Option<C.Value> { Some(C.Number(x)) }

  function Pointer(o: int): Option<C.Value> { Some(C.StackPtr(Wrap64(C.STACK_BASE + o), 0)) }

  function ConcreteAt(r0: Option<C.Value>, r2: Option<C.Value>): C.State {
    C.Initial().(regs := [r0, None, r2, None, None, None, None, None, None, None, Some(C.StackPtr(C.STACK_BASE, 0))])
  }

  // ── Bounds of the masked result ──────────────────────────────────────────

  function Masked(k: I32): Bounds { ApplyAlu(Scalar.And, W64, Top(), Const(k)) }

  /** r & 8 is 0 or 8. */
  lemma MaskedEight()
    ensures Masked(8) == Bounds(0, 8, 0, 8, 0, 8, Tnum(0, 8), 0, 0)
  {
    EightTnum();
    EightRange();
    hide Tnum.BitAnd, Tnum.Intersect, FromRange;
    assert ApplyAluInner(Scalar.And, W64, Top(), Const(8)) ==
           Bounds(S_FULL.0, S_FULL.1, 0, 8, 0, U32_MAX, Tnum(0, 8), 0, 0).Synced();
  }

  lemma EightTnum()
    ensures Unknown().BitAnd(Constant(8)) == Tnum(0, 8)
  {
    assert Or64(0, U64_MAX) == U64_MAX && Or64(8, 0) == 8 && And64(0, 8) == 0;
    EightAnd();
    assert Xor64(8, 0) == 8;
  }

  lemma EightAnd()
    ensures And64(U64_MAX, 8) == 8
  {
    assert Bits.And(U64_MAX / 8, 1) == 1;
    assert Bits.And(U64_MAX / 4, 2) == 2;
    assert Bits.And(U64_MAX / 2, 4) == 4;
  }

  lemma EightRange()
    ensures FromRange(0, 8) == Tnum(0, 15) && Tnum(0, 8).Intersect(Tnum(0, 15)) == Tnum(0, 8)
  {
    assert BitLen(8) == 4 && Pow2(4) == 16;
    assert Bits.And(8, 15) == 8;
    assert And64(0, Not64(15)) == 0 && And64(0, Not64(8)) == 0;
  }

  // ── The instructions the programs share ──────────────────────────────────

  lemma AbstractCall(program: Program)
    requires program != [] && program[0] == Call(7)
    ensures Leads(program, (0, Initial()), (1, AbstractAt(Num(Top()), U)))
  {
    var next := AbstractAt(Num(Top()), U);
    assert AfterCall(Initial(), Num(Top())).regs == next.regs;
    assert Successors(0, Initial(), Call(7)) == Ok([(1, next)]);
  }

  lemma AbstractAlu(program: Program, pc: nat, op: AluOp, k: I32, b: Bounds, r2: RegState)
    requires pc < |program| && pc < TWO32 && program[pc] == AluImm(op, W64, 0, k) && (IsShift(op) ==> 0 <= k < 64)
    ensures Leads(program, (pc, AbstractAt(Num(b), r2)), (pc + 1, AbstractAt(Num(ApplyAlu(op, W64, b, Const(k))), r2)))
  {
    hide ApplyAlu, Const, NoMarks, NoSpills;
    var st, next := AbstractAt(Num(b), r2), AbstractAt(Num(ApplyAlu(op, W64, b, Const(k))), r2);
    assert SetReg(st, 0, Num(ApplyAlu(op, W64, b, Const(k)))).regs == next.regs;
    assert Successors(pc, st, AluImm(op, W64, 0, k)) == Ok([(pc + 1, next)]);
  }

  lemma AbstractCopy(program: Program, pc: nat, r0: RegState)
    requires pc < |program| && pc < TWO32 && program[pc] == MovReg(2, 10)
    ensures Leads(program, (pc, AbstractAt(r0, U)), (pc + 1, AbstractAt(r0, R10)))
  {
    hide NoMarks, NoSpills;
    var st, next := AbstractAt(r0, U), AbstractAt(r0, R10);
    assert SetReg(st, 2, R10).regs == next.regs;
    assert Successors(pc, st, MovReg(2, 10)) == Ok([(pc + 1, next)]);
  }

  lemma AbstractAddReg(program: Program, pc: nat, b: Bounds, p: RegState)
    requires pc < |program| && pc < TWO32 && program[pc] == AluReg(Scalar.Add, W64, 2, 0)
    requires AddScalarToStackPtr(pc, R10, b) == Ok(p)
    ensures Leads(program, (pc, AbstractAt(Num(b), R10)), (pc + 1, AbstractAt(Num(b), p)))
  {
    hide AddScalarToStackPtr, NoMarks, NoSpills;
    var st, next := AbstractAt(Num(b), R10), AbstractAt(Num(b), p);
    assert SetReg(st, 2, p).regs == next.regs;
    assert Successors(pc, st, AluReg(Scalar.Add, W64, 2, 0)) == Ok([(pc + 1, next)]);
  }

  lemma AbstractAddImm(program: Program, pc: nat, r0: RegState, p: RegState, k: I32, q: RegState)
    requires pc < |program| && pc < TWO32 && program[pc] == AluImm(Scalar.Add, W64, 2, k)
    requires p.PtrToStack? && AddImmToStackPtr(pc, p, k) == Ok(q)
    ensures Leads(program, (pc, AbstractAt(r0, p)), (pc + 1, AbstractAt(r0, q)))
  {
    hide AddImmToStackPtr, NoMarks, NoSpills;
    var st, next := AbstractAt(r0, p), AbstractAt(r0, q);
    assert SetReg(st, 2, q).regs == next.regs;
    assert Successors(pc, st, AluImm(Scalar.Add, W64, 2, k)) == Ok([(pc + 1, next)]);
  }

  lemma ConcreteCall(program: Program, x: U64)
    requires program != [] && program[0] == Call(7) && x in {0, 1, U64_MAX}
    ensures Steps(program, (0, C.Initial()), (1, ConcreteAt(Number(x), None)))
  {
    var st, next := C.Initial(), ConcreteAt(Number(x), None);
    var base := st.(regs := C.Clobber(st.regs));
    assert C.SetReg(base, 0, C.Number(x)).regs == next.regs;
    var states := C.CallHelper(0, st, 7).value;
    var k := if x == U64_MAX then 2 else x;
    assert states[k] == next;
    assert C.Each(0, states)[k] == (1, next);
    assert C.Explore(program, 0, st) == C.Next(C.Each(0, states));
  }

  lemma ConcreteAlu(program: Program, pc: nat, op: AluOp, k: I32, x: U64, r2: Option<C.Value>)
    requires pc < |program| && pc < TWO32 && program[pc] == AluImm(op, W64, 0, k) && (IsShift(op) ==> 0 <= k < 64)
    ensures Steps(program, (pc, ConcreteAt(Number(x), r2)),
                  (pc + 1, ConcreteAt(Number(AluConst64(op, x, Wrap64(k))), r2)))
  {
    hide AluConst64, C.NoCells;
    var st, next := ConcreteAt(Number(x), r2), ConcreteAt(Number(AluConst64(op, x, Wrap64(k))), r2);
    assert C.SetReg(st, 0, C.Number(AluConst64(op, x, Wrap64(k)))).regs == next.regs;
    assert C.Explore(program, pc, st) == C.Next([(pc + 1, next)]);
  }

  lemma ConcreteCopy(program: Program, pc: nat, r0: Option<C.Value>)
    requires pc < |program| && pc < TWO32 && program[pc] == MovReg(2, 10)
    ensures Steps(program, (pc, ConcreteAt(r0, None)), (pc + 1, ConcreteAt(r0, Pointer(0))))
  {
    hide C.NoCells;
    var st, next := ConcreteAt(r0, None), ConcreteAt(r0, Pointer(0));
    assert C.SetReg(st, 2, C.StackPtr(C.STACK_BASE, 0)).regs == next.regs;
    assert C.Explore(program, pc, st) == C.Next([(pc + 1, next)]);
  }

  lemma ConcreteAddReg(program: Program, pc: nat, x: U64)
    requires pc < |program| && pc < TWO32 && program[pc] == AluReg(Scalar.Add, W64, 2, 0) && x < TWO63
    ensures Steps(program, (pc, ConcreteAt(Number(x), Pointer(0))), (pc + 1, ConcreteAt(Number(x), Pointer(x))))
  {
    hide C.NoCells;
    var st, next := ConcreteAt(Number(x), Pointer(0)), ConcreteAt(Number(x), Pointer(x));
    assert C.PtrOffset(C.STACK_BASE) == 0 && Signed64(x) == x && Wrap64(x) == x;
    assert C.SetReg(st, 2, Pointer(x).value).regs == next.regs;
    assert C.Explore(program, pc, st) == C.Next([(pc + 1, next)]);
  }

  lemma ConcreteAddImm(program: Program, pc: nat, r0: Option<C.Value>, o: int, k: I32)
    requires pc < |program| && pc < TWO32 && program[pc] == AluImm(Scalar.Add, W64, 2, k)
    requires 0 <= o < TWO31 && I64_MIN <= o + k <= I64_MAX
    ensures Steps(program, (pc, ConcreteAt(r0, Pointer(o))), (pc + 1, ConcreteAt(r0, Pointer(o + k))))
  {
    hide C.NoCells;
    var st, next := ConcreteAt(r0, Pointer(o)), ConcreteAt(r0, Pointer(o + k));
    assert C.PtrOffset(Wrap64(C.STACK_BASE + o)) == o;
    assert C.SetReg(st, 2, Pointer(o + k).value).regs == next.regs;
    assert C.Explore(program, pc, st) == C.Next([(pc + 1, next)]);
  }
}

/** A variable-offset store marks cells it does not write. */
module VagueStore {
  import opened Words
  import opened Scalar
  import opened Insn
  import opened Abstract
  import opened Runs
  import opened AbstractRuns
  import opened MaskedOffsets
  import C = Concrete

  /** Stores 0 at r10-16 or r10-8 and loads r10-8. */
  function VagueProgram(): Program {
    [Call(7), AluImm(Scalar.And, W64, 0, 8), MovReg(2, 10), AluReg(Scalar.Add, W64, 2, 0),
     AluImm(Scalar.Add, W64, 2, -16), StMemImm(0, 2, 0, B64), LdMem(3, 10, -8, B64, false)]
  }

  const VAGUE := PtrToStack(-16, -8, 0, 0)

  function Eight(): RegState { Num(Masked(8)) }

  /** Both slots are marked zero. */
  function Marked(): State { ScrubStore(AbstractAt(Eight(), VAGUE), Access(0, 15, -16, false), Zero) }

  /** Only the slot at r10-16 is written. */
  function Written(): C.State {
    ConcreteAt(Number(0), Pointer(-16)).(stack := C.NoCells()[1 := Some(C.Number(0))])
  }

  lemma AbstractSteps()
    ensures Leads(VagueProgram(), (0, Initial()), (1, AbstractAt(Num(Top()), U)))
    ensures Leads(VagueProgram(), (1, AbstractAt(Num(Top()), U)), (2, AbstractAt(Eight(), U)))
    ensures Leads(VagueProgram(), (2, AbstractAt(Eight(), U)), (3, AbstractAt(Eight(), R10)))
    ensures Leads(VagueProgram(), (3, AbstractAt(Eight(), R10)), (4, AbstractAt(Eight(), PtrToStack(0, 8, 0, 0))))
    ensures Leads(VagueProgram(), (4, AbstractAt(Eight(), PtrToStack(0, 8, 0, 0))), (5, AbstractAt(Eight(), VAGUE)))
  {
    var program := VagueProgram();
    MaskedEight();
    hide Leads, Top, AbstractAt, ApplyAlu;
    AbstractCall(program);
    AbstractAlu(program, 1, Scalar.And, 8, Top(), U);
    AbstractCopy(program, 2, Eight());
    AbstractAddReg(program, 3, Masked(8), PtrToStack(0, 8, 0, 0));
    AbstractAddImm(program, 4, Eight(), PtrToStack(0, 8, 0, 0), -16, VAGUE);
  }

  lemma StoreStep()
    ensures Leads(VagueProgram(), (5, AbstractAt(Eight(), VAGUE)), (6, Marked()))
  {
    hide ScrubStore, Masked;
    var a := AbstractAt(Eight(), VAGUE);
    assert CheckAccess(5, VAGUE, 0, 8) == Ok(Access(0, 15, -16, false));
    assert a.spilled == NoSpills() && !PointerSpilled(a, Access(0, 15, -16, false));
    assert Const(0).IsConstant() && Const(0).smin == 0;
    hide Const, NoMarks, NoSpills, PointerSpilled;
    assert StackWrite(5, a, 2, 0, 8, Num(Const(0))) == Ok(Marked());
    assert Successors(5, a, StMemImm(0, 2, 0, B64)) == Ok([(6, Marked())]);
  }

  lemma MarkedSlot()
    ensures var a := Marked();
            a.regs[10] == R10 && a.frame == 0 && a.spilled[0].None? && forall i :: 0 <= i < 8 ==> a.bytes[i].Zero?
  {
    hide Masked, NoMarks, NoSpills;
  }

  lemma ReadsZero(a: State)
    requires a.regs[10] == R10 && a.frame == 0 && a.spilled[0].None? && forall i :: 0 <= i < 8 ==> a.bytes[i].Zero?
    ensures StackRead(6, a, 10, -8, 8, false) == Ok(Num(Const(0)))
  {
    hide Const, Top;
    assert CheckAccess(6, R10, -8, 8) == Ok(Access(0, 7, -8, true));
  }

  /** The load is predicted to be 0. */
  lemma LoadStep()
    ensures Leads(VagueProgram(), (6, Marked()), (7, SetReg(Marked(), 3, Num(Const(0)))))
  {
    hide Marked, Const, StackRead;
    MarkedSlot();
    ReadsZero(Marked());
    assert Successors(6, Marked(), LdMem(3, 10, -8, B64, false)) == Ok([(7, SetReg(Marked(), 3, Num(Const(0))))]);
  }

  lemma ZeroMasked()
    ensures AluConst64(Scalar.And, 0, Wrap64(8)) == 0
  {
  }

  lemma ConcreteSteps()
    ensures Steps(VagueProgram(), (0, C.Initial()), (1, ConcreteAt(Number(0), None)))
    ensures Steps(VagueProgram(), (1, ConcreteAt(Number(0), None)), (2, ConcreteAt(Number(0), None)))
    ensures Steps(VagueProgram(), (2, ConcreteAt(Number(0), None)), (3, ConcreteAt(Number(0), Pointer(0))))
    ensures Steps(VagueProgram(), (3, ConcreteAt(Number(0), Pointer(0))), (4, ConcreteAt(Number(0), Pointer(0))))
    ensures Steps(VagueProgram(), (4, ConcreteAt(Number(0), Pointer(0))), (5, ConcreteAt(Number(0), Pointer(-16))))
  {
    var program := VagueProgram();
    ZeroMasked();
    hide Steps, ConcreteAt, Pointer, AluConst64, Wrap64;
    ConcreteCall(program, 0);
    ConcreteAlu(program, 1, Scalar.And, 8, 0, None);
    ConcreteCopy(program, 2, Number(0));
    ConcreteAddReg(program, 3, 0);
    ConcreteAddImm(program, 4, Number(0), 0, -16);
  }

  lemma ConcreteStore()
    ensures Steps(VagueProgram(), (5, ConcreteAt(Number(0), Pointer(-16))), (6, Written()))
  {
    var c := ConcreteAt(Number(0), Pointer(-16));
    assert C.AccessOffset(Wrap64(C.STACK_BASE - 16), 0) == -16;
    assert C.Locate(5, c, 2, 0, 8) == Ok(C.Place(0, 1, 0, -16));
    hide C.Locate;
    assert C.Step(5, c, StMemImm(0, 2, 0, B64)) == Ok(Written());
    assert C.Explore(VagueProgram(), 5, c) == C.Next([(6, Written())]);
  }

  lemma ConcreteLoad()
    ensures C.Explore(VagueProgram(), 6, Written()) == C.Outcome.Fails(C.UninitializedStackRead(6, -8))
  {
    assert C.AccessOffset(C.STACK_BASE, -8) == -8;
    assert C.Locate(6, Written(), 10, -8, 8) == Ok(C.Place(0, 0, 0, -8));
  }

  /** A program the abstract interpreter follows to its end, predicting that r3 is 0,
      fails in the concrete one: the load finds a cell that was never written. */
  lemma VariableStoreCounterexample()
    ensures AbstractReachable(VagueProgram(), (7, SetReg(Marked(), 3, Num(Const(0)))))
    ensures Reachable(VagueProgram(), (6, Written()))
    ensures C.Explore(VagueProgram(), 6, Written()) == C.Outcome.Fails(C.UninitializedStackRead(6, -8))
  {
    hide AbstractReachable, Leads, Reachable, Steps, AbstractAt, ConcreteAt, Marked, Written, Pointer, Masked,
         Const, Top, C.Explore, SetReg;
    var program := VagueProgram();
    AbstractSteps();
    StoreStep();
    LoadStep();
    StartReachable(program);
    LeadsReachable(program, (0, Initial()), (1, AbstractAt(Num(Top()), U)));
    LeadsReachable(program, (1, AbstractAt(Num(Top()), U)), (2, AbstractAt(Eight(), U)));
    LeadsReachable(program, (2, AbstractAt(Eight(), U)), (3, AbstractAt(Eight(), R10)));
    LeadsReachable(program, (3, AbstractAt(Eight(), R10)), (4, AbstractAt(Eight(), PtrToStack(0, 8, 0, 0))));
    LeadsReachable(program, (4, AbstractAt(Eight(), PtrToStack(0, 8, 0, 0))), (5, AbstractAt(Eight(), VAGUE)));
    LeadsReachable(program, (5, AbstractAt(Eight(), VAGUE)), (6, Marked()));
    LeadsReachable(program, (6, Marked()), (7, SetReg(Marked(), 3, Num(Const(0)))));
    ConcreteSteps();
    ConcreteStore();
    ConcreteLoad();
    InitialReachable(program);
    StepReachable(program, (0, C.Initial()), (1, ConcreteAt(Number(0), None)));
    StepReachable(program, (1, ConcreteAt(Number(0), None)), (2, ConcreteAt(Number(0), None)));
    StepReachable(program, (2, ConcreteAt(Number(0), None)), (3, ConcreteAt(Number(0), Pointer(0))));
    StepReachable(program, (3, ConcreteAt(Number(0), Pointer(0))), (4, ConcreteAt(Number(0), Pointer(0))));
    StepReachable(program, (4, ConcreteAt(Number(0), Pointer(0))), (5, ConcreteAt(Number(0), Pointer(-16))));
    StepReachable(program, (5, ConcreteAt(Number(0), Pointer(-16))), (6, Written()));
  }
}

/** The unknown alignment becomes a known one. */
module Misaligned {
  import opened Words
  import opened Bits
  import opened TnumDomain
  import opened Scalar
  import opened Insn
  import opened Abstract
  import opened Runs
  import opened AbstractRuns
  import opened MaskedOffsets
  import C = Concrete

  /** An eight-byte store at r10-16 or r10-15. */
  function OddProgram(): Program {
    [Call(7), AluImm(Scalar.And, W64, 0, 1), AluImm(Scalar.Add, W64, 0, 7), MovReg(2, 10),
     AluReg(Scalar.Add, W64, 2, 0), AluImm(Scalar.Add, W64, 2, -23), StMemImm(0, 2, 0, B64)]
  }

  /** The low bit of the result. */
  function One(): Bounds { Bounds(0, 1, 0, 1, 0, 1, Tnum(0, 1), 0, 0) }

  /** 7 or 8. */
  function Seven(): Bounds { Bounds(7, 8, 7, 8, 7, 8, Tnum(0, 15), 0, 0) }

  lemma OneAnd()
    ensures And64(U64_MAX, 1) == 1 && And64(0, 1) == 0
    ensures Or64(0, U64_MAX) == U64_MAX && Or64(1, 0) == 1 && Xor64(1, 0) == 1
  {
    assert Bits.And(U64_MAX / 2, 0) == 0;
    BitsOfIdentity(U64_MAX);
  }

  lemma BitsOfIdentity(x: U64)
    ensures Or64(0, x) == x
  {
    hide Bit, Bits.Or;
    forall k: nat | k < 64
      ensures Bit(Or64(0, x), k) == Bit(x, k)
    {
      BitOr(0, x, k);
      BitZero(k);
    }
    Extensional64(Or64(0, x), x);
  }

  lemma OneTnum()
    ensures Unknown().BitAnd(Constant(1)) == Tnum(0, 1)
  {
    OneAnd();
    hide Bits.And, Bits.Or, Bits.Xor, And64, Or64, Xor64;
  }

  lemma OneRange()
    ensures FromRange(0, 1) == Tnum(0, 1) && Tnum(0, 1).Intersect(Tnum(0, 1)) == Tnum(0, 1)
  {
    assert BitLen(1) == 1 && Pow2(1) == 2;
    assert Bits.And(1, 1) == 1;
  }

  lemma OneBounds()
    ensures Masked(1) == One()
  {
    OneTnum();
    OneRange();
    hide Tnum.BitAnd, Tnum.Intersect, FromRange;
  }

  lemma SevenXor()
    ensures Bits.Xor(8, 7) == 15 && Bits.Xor(7, 8) == 15
  {
    assert Bits.Xor(2, 1) == 3 && Bits.Xor(1, 2) == 3;
    assert Bits.Xor(4, 3) == 7 && Bits.Xor(3, 4) == 7;
  }

  lemma SevenMask()
    ensures Bits.And(7, Not64(15)) == 0 && Bits.Or(15, 1) == 15 && Bits.Or(15, 0) == 15
  {
    assert Bits.And(1, Not64(15) / 4) == 0;
    assert Bits.And(3, Not64(15) / 2) == 0;
    assert Bits.Or(7, 0) == 7;
  }

  lemma SevenTnum()
    ensures Tnum(0, 1).Add(Constant(7)) == Tnum(0, 15)
  {
    SevenXor();
    SevenMask();
    hide Bits.And, Bits.Or, Bits.Xor;
  }

  lemma SevenRange()
    ensures FromRange(7, 8) == Tnum(0, 15) && Tnum(0, 15).Intersect(Tnum(0, 15)) == Tnum(0, 15)
  {
    SevenXor();
    SevenMask();
    FifteenBits();
    hide Bits.And, Bits.Or, Bits.Xor, BitLen, Pow2;
  }

  lemma FifteenBits()
    ensures BitLen(15) == 4 && Pow2(4) == 16 && Bits.And(15, 15) == 15
    ensures Bits.Or(0, 0) == 0 && Bits.And(0, Not64(15)) == 0
  {
    assert Bits.And(3, 3) == 3;
    assert Bits.And(7, 7) == 7;
  }

  lemma SevenBounds()
    ensures ApplyAlu(Scalar.Add, W64, One(), Const(7)) == Seven()
  {
    SevenTnum();
    SevenRange();
    hide Tnum.Add, Tnum.Intersect, FromRange;
    assert ApplyAluInner(Scalar.Add, W64, One(), Const(7)) ==
           Bounds(7, 8, 7, 8, 0, U32_MAX, Tnum(0, 15), 0, 0).Synced();
  }

  const ODD := PtrToStack(7, 8, ALIGN_UNKNOWN, 0)
  const EVEN := PtrToStack(-16, -15, 0, 0)

  lemma AbstractSteps()
    ensures Leads(OddProgram(), (0, Initial()), (1, AbstractAt(Num(Top()), U)))
    ensures Leads(OddProgram(), (1, AbstractAt(Num(Top()), U)), (2, AbstractAt(Num(One()), U)))
    ensures Leads(OddProgram(), (2, AbstractAt(Num(One()), U)), (3, AbstractAt(Num(Seven()), U)))
    ensures Leads(OddProgram(), (3, AbstractAt(Num(Seven()), U)), (4, AbstractAt(Num(Seven()), R10)))
    ensures Leads(OddProgram(), (4, AbstractAt(Num(Seven()), R10)), (5, AbstractAt(Num(Seven()), ODD)))
    ensures Leads(OddProgram(), (5, AbstractAt(Num(Seven()), ODD)), (6, AbstractAt(Num(Seven()), EVEN)))
  {
    var program := OddProgram();
    OneBounds();
    SevenBounds();
    hide Leads, Top, AbstractAt, ApplyAlu;
    AbstractCall(program);
    AbstractAlu(program, 1, Scalar.And, 1, Top(), U);
    AbstractAlu(program, 2, Scalar.Add, 7, One(), U);
    AbstractCopy(program, 3, Num(Seven()));
    AbstractAddReg(program, 4, Seven(), ODD);
    AbstractAddImm(program, 5, Num(Seven()), ODD, -23, EVEN);
  }

  /** The store passes every check. */
  lemma StoreStep()
    ensures var next := ScrubStore(AbstractAt(Num(Seven()), EVEN), Access(7, 15, -16, false), Zero);
            Leads(OddProgram(), (6, AbstractAt(Num(Seven()), EVEN)), (7, next))
  {
    hide ScrubStore;
    var a := AbstractAt(Num(Seven()), EVEN);
    var next := ScrubStore(a, Access(7, 15, -16, false), Zero);
    assert CheckAccess(6, EVEN, 0, 8) == Ok(Access(7, 15, -16, false));
    assert a.spilled == NoSpills() && !PointerSpilled(a, Access(7, 15, -16, false));
    assert Const(0).IsConstant() && Const(0).smin == 0;
    hide Const, NoMarks, NoSpills, PointerSpilled;
    assert StackWrite(6, a, 2, 0, 8, Num(Const(0))) == Ok(next);
    assert Successors(6, a, StMemImm(0, 2, 0, B64)) == Ok([(7, next)]);
  }

  lemma EightValues()
    ensures AluConst64(Scalar.And, 1, Wrap64(1)) == 1 && AluConst64(Scalar.Add, 1, Wrap64(7)) == 8
  {
  }

  lemma ConcreteSteps()
    ensures Steps(OddProgram(), (0, C.Initial()), (1, ConcreteAt(Number(1), None)))
    ensures Steps(OddProgram(), (1, ConcreteAt(Number(1), None)), (2, ConcreteAt(Number(1), None)))
    ensures Steps(OddProgram(), (2, ConcreteAt(Number(1), None)), (3, ConcreteAt(Number(8), None)))
    ensures Steps(OddProgram(), (3, ConcreteAt(Number(8), None)), (4, ConcreteAt(Number(8), Pointer(0))))
    ensures Steps(OddProgram(), (4, ConcreteAt(Number(8), Pointer(0))), (5, ConcreteAt(Number(8), Pointer(8))))
    ensures Steps(OddProgram(), (5, ConcreteAt(Number(8), Pointer(8))), (6, ConcreteAt(Number(8), Pointer(-15))))
  {
    var program := OddProgram();
    EightValues();
    hide Steps, ConcreteAt, Pointer, AluConst64, Wrap64;
    ConcreteCall(program, 1);
    ConcreteAlu(program, 1, Scalar.And, 1, 1, None);
    ConcreteAlu(program, 2, Scalar.Add, 7, 1, None);
    ConcreteCopy(program, 3, Number(8));
    ConcreteAddReg(program, 4, 8);
    ConcreteAddImm(program, 5, Number(8), 8, -23);
  }

  lemma ConcreteStore()
    ensures C.Explore(OddProgram(), 6, ConcreteAt(Number(8), Pointer(-15))) ==
            C.Outcome.Fails(C.MisalignedStackAccess(6, -15))
  {
    assert C.AccessOffset(Wrap64(C.STACK_BASE - 15), 0) == -15;
  }

  /** A program whose every access passes the abstract checks ends, in the concrete
      interpreter, in a misaligned store. */
  lemma UnknownAlignCounterexample()
    ensures AbstractReachable(OddProgram(),
                              (7, ScrubStore(AbstractAt(Num(Seven()), EVEN), Access(7, 15, -16, false), Zero)))
    ensures Reachable(OddProgram(), (6, ConcreteAt(Number(8), Pointer(-15))))
    ensures C.Explore(OddProgram(), 6, ConcreteAt(Number(8), Pointer(-15))) ==
            C.Outcome.Fails(C.MisalignedStackAccess(6, -15))
  {
    hide AbstractReachable, Leads, Reachable, Steps, AbstractAt, ConcreteAt, ScrubStore, Pointer, Top, C.Explore,
         One, Seven;
    var program := OddProgram();
    AbstractSteps();
    StoreStep();
    StartReachable(program);
    var stored := ScrubStore(AbstractAt(Num(Seven()), EVEN), Access(7, 15, -16, false), Zero);
    LeadsReachable(program, (0, Initial()), (1, AbstractAt(Num(Top()), U)));
    LeadsReachable(program, (1, AbstractAt(Num(Top()), U)), (2, AbstractAt(Num(One()), U)));
    LeadsReachable(program, (2, AbstractAt(Num(One()), U)), (3, AbstractAt(Num(Seven()), U)));
    LeadsReachable(program, (3, AbstractAt(Num(Seven()), U)), (4, AbstractAt(Num(Seven()), R10)));
    LeadsReachable(program, (4, AbstractAt(Num(Seven()), R10)), (5, AbstractAt(Num(Seven()), ODD)));
    LeadsReachable(program, (5, AbstractAt(Num(Seven()), ODD)), (6, AbstractAt(Num(Seven()), EVEN)));
    LeadsReachable(program, (6, AbstractAt(Num(Seven()), EVEN)), (7, stored));
    ConcreteSteps();
    ConcreteStore();
    InitialReachable(program);
    StepReachable(program, (0, C.Initial()), (1, ConcreteAt(Number(1), None)));
    StepReachable(program, (1, ConcreteAt(Number(1), None)), (2, ConcreteAt(Number(1), None)));
    StepReachable(program, (2, ConcreteAt(Number(1), None)), (3, ConcreteAt(Number(8), None)));
    StepReachable(program, (3, ConcreteAt(Number(8), None)), (4, ConcreteAt(Number(8), Pointer(0))));
    StepReachable(program, (4, ConcreteAt(Number(8), Pointer(0))), (5, ConcreteAt(Number(8), Pointer(8))));
    StepReachable(program, (5, ConcreteAt(Number(8), Pointer(8))), (6, ConcreteAt(Number(8), Pointer(-15))));
  }
}
