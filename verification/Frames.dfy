/** Stack pointers and frames (`src/concrete.rs`): when a pointer can outlive the
    frame it describes, where the concrete interpreter panics. */
module Frames {
  import opened Words
  import opened Bits
  import opened TnumDomain
  import opened Scalar
  import opened Branch
  import opened Insn
  import opened Concrete
  import opened Runs

  /** A stack pointer held by frame k points into frame k or one of its callers. */
  predicate ValueBelow(v: Option<Value>, k: nat) { v.Some? && v.value.StackPtr? ==> v.value.frameno <= k }

  ghost predicate RegsBelow(regs: Regs, k: nat) { forall r :: 0 <= r < NUM_REGS ==> ValueBelow(regs[r], k) }

  ghost predicate CellsBelow(cells: Cells, k: nat) { forall s :: 0 <= s < STACK_SLOTS ==> ValueBelow(cells[s], k) }

  ghost predicate FrameBelow(frame: Option<Frame>, k: nat) {
    frame.Some? && RegsBelow(frame.value.regs, k) && CellsBelow(frame.value.stack, k)
  }

  /** No frame holds a pointer into one of its callees. */
  ghost predicate Ordered(st: State) {
    && st.curframe < MAX_CALL_FRAMES && RegsBelow(st.regs, st.curframe) && CellsBelow(st.stack, st.curframe)
    && forall k :: 0 <= k < st.curframe ==> FrameBelow(st.saved[k], k)
  }

  /** The next instruction spills a frame pointer into a frame that outlives it. */
  predicate Escapes(program: Program, x: Point) {
    && x.0 < |program| && program[x.0].StMem? && program[x.0].size.B64?
    && var insn, st := program[x.0], x.1;
       && st.regs[insn.src].Some? && st.regs[insn.src].value.StackPtr?
       && Locate(x.0, st, insn.base, insn.offset, 8).Ok?
       && Locate(x.0, st, insn.base, insn.offset, 8).value.frameno < st.regs[insn.src].value.frameno
  }

  // ── One step ─────────────────────────────────────────────────────────────

  lemma InitialOrdered()
    ensures Ordered(Initial())
  {
  }

  /** Every stack pointer of an ordered state targets an active frame. */
  lemma TargetsActive(st: State, frameno: nat)
    requires Ordered(st) && frameno <= st.curframe
    ensures FrameStack(st, frameno).Some? && CellsBelow(FrameStack(st, frameno).value, frameno)
  {
    hide RegsBelow, CellsBelow;
    assert frameno < st.curframe ==> FrameBelow(st.saved[frameno], frameno);
  }

  lemma LocateActive(pc: nat, st: State, base: Reg, off: I16, size: nat)
    requires Ordered(st) && ValidSize(size)
    ensures Locate(pc, st, base, off, size) != Err(InactiveFrame(pc))
    ensures Locate(pc, st, base, off, size).Ok? ==>
              var f := Locate(pc, st, base, off, size).value.frameno;
              f <= st.curframe && CellsBelow(FrameStack(st, f).value, f)
  {
    hide AccessOffset, CellsBelow;
    var v := st.regs[base];
    assert ValueBelow(v, st.curframe);
    if v.Some? && v.value.StackPtr? {
      TargetsActive(st, v.value.frameno);
    }
  }

  lemma SetOrdered(st: State, dst: Reg, v: Value)
    requires Ordered(st) && ValueBelow(Some(v), st.curframe)
    ensures Ordered(SetReg(st, dst, v))
  {
    hide CellsBelow, FrameBelow;
  }

  /** The step succeeds in an ordered state or fails for another reason. */
  ghost predicate StaysOrdered(r: Result<State, Failure>) {
    match r case Ok(st) => Ordered(st) case Err(f) => !f.InactiveFrame?
  }

  predicate OnlyRegisters(insn: Insn) {
    insn.MovImm? || insn.Mov32Imm? || insn.Mov32Reg? || insn.MovReg? || insn.NegReg? || insn.LdImm64?
        || insn.AluImm? || insn.AluReg?
  }

  lemma RegistersOrdered(pc: nat, st: State, insn: Insn)
    requires Ordered(st) && OnlyRegisters(insn)
    ensures StaysOrdered(Step(pc, st, insn))
  {
    hide AluConst, Wrap64, Wrap32, Signed64, SaturateI64, PtrOffset, Ordered;
    BelowAt(st, insn.dst);
    if insn.MovReg? || insn.AluReg? {
      BelowAt(st, insn.src);
    }
    var r := Step(pc, st, insn);
    if r.Ok? {
      assert r.value.regs[insn.dst].Some? && ValueBelow(r.value.regs[insn.dst], st.curframe);
      assert r.value == SetReg(st, insn.dst, r.value.regs[insn.dst].value);
      SetOrdered(st, insn.dst, r.value.regs[insn.dst].value);
    }
  }

  lemma BelowAt(st: State, reg: Reg)
    requires Ordered(st)
    ensures ValueBelow(st.regs[reg], st.curframe)
  {
  }

  lemma LoadOrdered(pc: nat, st: State, dst: Reg, base: Reg, off: I16, size: nat, signExtend: bool)
    requires Ordered(st) && ValidSize(size)
    ensures StaysOrdered(Load(pc, st, dst, base, off, size, signExtend))
  {
    hide Ordered, Locate, Extend;
    LocateActive(pc, st, base, off, size);
    var x := Locate(pc, st, base, off, size);
    LocateFailure(pc, st, base, off, size);
    if x.Ok? {
      var cell := FrameStack(st, x.value.frameno).value[x.value.slot];
      if cell.Some? {
        SetOrdered(st, dst, Extract(cell.value, x.value.inSlot, size, signExtend));
      }
    }
  }

  lemma LocateFailure(pc: nat, st: State, base: Reg, off: I16, size: nat)
    requires ValidSize(size)
    ensures Locate(pc, st, base, off, size).Err? && Locate(pc, st, base, off, size).error.InactiveFrame? ==>
              Locate(pc, st, base, off, size) == Err(InactiveFrame(pc))
  {
    hide AccessOffset;
  }

  lemma CellsOrdered(st: State, frameno: nat, cells: Cells)
    requires Ordered(st) && frameno <= st.curframe && FrameStack(st, frameno).Some? && CellsBelow(cells, frameno)
    ensures Ordered(SetFrameStack(st, frameno, cells))
  {
    hide RegsBelow, CellsBelow;
    var next := SetFrameStack(st, frameno, cells);
    forall k | 0 <= k < st.curframe
      ensures FrameBelow(next.saved[k], k)
    {
      assert FrameBelow(st.saved[k], k);
    }
  }

  lemma StoreOrdered(pc: nat, st: State, value: Option<Value>, base: Reg, off: I16, size: nat)
    requires Ordered(st) && ValidSize(size)
    requires Locate(pc, st, base, off, size).Ok? && size == 8 ==>
               ValueBelow(value, Locate(pc, st, base, off, size).value.frameno)
    ensures StaysOrdered(Store(pc, st, value, base, off, size))
  {
    hide Ordered, Locate, And64, Or64, Not64, Shl;
    LocateActive(pc, st, base, off, size);
    LocateFailure(pc, st, base, off, size);
    var x := Locate(pc, st, base, off, size);
    if x.Ok? {
      var p := x.value;
      var cells := FrameStack(st, p.frameno).value;
      var stored: Cells := if value.None? then cells[p.slot := None]
          else Merge(cells, p.slot, p.inSlot, size, value.value);
      assert CellsBelow(stored, p.frameno);
      CellsOrdered(st, p.frameno, stored);
    }
  }

  predicate Plain(insn: Insn) { !insn.IsConditional() && !insn.Jmp? && !insn.Exit? && !insn.Call? && !insn.CallSub? }

  lemma PlainOrdered(program: Program, pc: nat, st: State)
    requires Ordered(st) && pc < |program| && Plain(program[pc]) && !Escapes(program, (pc, st))
    ensures StaysOrdered(Step(pc, st, program[pc]))
  {
    hide Ordered, Locate, Load, Store, AluWithImm, AluWithReg, AluConst;
    var insn := program[pc];
    if OnlyRegisters(insn) {
      RegistersOrdered(pc, st, insn);
    } else if insn.LdMem? {
      LoadOrdered(pc, st, insn.dst, insn.base, insn.offset, insn.size.Bytes(), insn.signExtend);
    } else if insn.StMem? {
      StoreOrdered(pc, st, st.regs[insn.src], insn.base, insn.offset, insn.size.Bytes());
    } else if insn.StMemImm? {
      StoreOrdered(pc, st, Some(Number(Wrap64(insn.imm))), insn.base, insn.offset, insn.size.Bytes());
    }
  }

  lemma EnterOrdered(st: State, returnPc: U32)
    requires Ordered(st)
    ensures StaysOrdered(EnterSubprog(st, returnPc))
  {
    var r := EnterSubprog(st, returnPc);
    if r.Ok? {
      forall k | 0 <= k < r.value.curframe
        ensures FrameBelow(r.value.saved[k], k)
      {
        assert k < st.curframe ==> FrameBelow(st.saved[k], k);
      }
    }
  }

  lemma LeaveOrdered(st: State)
    requires Ordered(st) && st.curframe > 0 && !(st.regs[0].Some? && st.regs[0].value.StackPtr?)
    ensures Ordered(LeaveSubprog(st))
  {
    var f := st.curframe - 1;
    assert FrameBelow(st.saved[f], f);
    var r := LeaveSubprog(st);
    forall k | 0 <= k < f
      ensures FrameBelow(r.saved[k], k)
    {
      assert FrameBelow(st.saved[k], k);
    }
  }

  lemma HelperOrdered(pc: nat, st: State, imm: I32)
    requires Ordered(st)
    ensures var r := CallHelper(pc, st, imm);
            match r case Ok(states) => forall x :: x in states ==> Ordered(x) case Err(f) => !f.InactiveFrame?
  {
    hide CellsBelow, FrameBelow;
    var base := st.(regs := Clobber(st.regs));
    assert Ordered(base);
    SetOrdered(base, 0, Number(0));
    SetOrdered(base, 0, Number(1));
    SetOrdered(base, 0, Number(U64_MAX));
  }

  /** What the driver makes of an ordered state. */
  ghost predicate OrderedOutcome(x: Outcome) {
    match x
    case Next(succs) => forall y :: y in succs ==> Ordered(y.1)
    case Exits => true
    case Fails(f) => !f.InactiveFrame?
  }

  lemma EachOrdered(pc: nat, states: seq<State>)
    requires forall x :: x in states ==> Ordered(x)
    ensures forall y :: y in Each(pc, states) ==> Ordered(y.1)
  {
    hide Ordered;
  }

  lemma ConditionalOrdered(pc: U32, st: State, insn: Insn)
    requires Ordered(st) && insn.IsConditional()
    ensures match Conditional(pc, st, insn)
            case Ok(succs) => forall y :: y in succs ==> Ordered(y.1)
            case Err(f) => !f.InactiveFrame?
  {
    hide Ordered, Taken, And64, Target;
  }

  /** A step that spills no escaping frame pointer keeps the order and never meets
      an inactive frame. */
  lemma ExploreOrdered(program: Program, x: Point)
    requires Ordered(x.1) && !Escapes(program, x)
    ensures OrderedOutcome(Explore(program, x.0, x.1))
  {
    hide Ordered, Step, Conditional, CallHelper, EnterSubprog, LeaveSubprog, Escapes, Target;
    var (pc, st) := x;
    if pc < |program| {
      var insn := program[pc];
      if insn.Exit? {
        if st.curframe > 0 && !(st.regs[0].Some? && st.regs[0].value.StackPtr?) {
          LeaveOrdered(st);
        }
      } else if insn.IsConditional() {
        ConditionalOrdered(pc, st, insn);
      } else if insn.Call? {
        HelperOrdered(pc, st, insn.imm);
        if CallHelper(pc, st, insn.imm).Ok? {
          EachOrdered(pc, CallHelper(pc, st, insn.imm).value);
        }
      } else if insn.CallSub? {
        EnterOrdered(st, Wrap32(pc + 1));
      } else if !insn.Jmp? {
        PlainOrdered(program, pc, st);
      }
    }
  }

  lemma EscapeStores(program: Program, x: Point)
    requires Escapes(program, x) && Ordered(x.1)
    ensures var insn, st := program[x.0], x.1;
            var p := Locate(x.0, st, insn.base, insn.offset, 8).value;
            && p.frameno < st.curframe && st.saved[p.frameno].Some?
            && Explore(program, x.0, st) ==
               Next([(x.0 + 1, SetFrameStack(st, p.frameno,
                   FrameStack(st, p.frameno).value[p.slot := st.regs[insn.src]]))])
  {
    BelowAt(x.1, program[x.0].src);
    hide Ordered;
    LocateFrame(x.0, x.1, program[x.0].base, program[x.0].offset);
    hide Locate;
  }

  lemma LocateFrame(pc: nat, st: State, base: Reg, off: I16)
    requires Locate(pc, st, base, off, 8).Ok?
    ensures var p := Locate(pc, st, base, off, 8).value; FrameStack(st, p.frameno).Some? && p.inSlot == 0
  {
    hide AccessOffset;
  }

  /** An escaping spill always succeeds, and leaves a state that is not ordered. */
  lemma EscapeBreaksOrder(program: Program, x: Point)
    requires Escapes(program, x) && Ordered(x.1)
    ensures !OrderedOutcome(Explore(program, x.0, x.1))
  {
    EscapeStores(program, x);
    hide Explore, Locate;
    var insn, st := program[x.0], x.1;
    var p := Locate(x.0, st, insn.base, insn.offset, 8).value;
    var next := SetFrameStack(st, p.frameno, FrameStack(st, p.frameno).value[p.slot := st.regs[insn.src]]);
    assert !ValueBelow(st.regs[insn.src], p.frameno);
    assert next.saved[p.frameno].value.stack[p.slot] == st.regs[insn.src];
    assert Ordered(next) ==> FrameBelow(next.saved[p.frameno], p.frameno);
    assert (x.0 + 1, next) in Explore(program, x.0, st).succs;
  }

  /** From an ordered state, the order survives and no inactive frame is met exactly
      when the instruction spills no escaping frame pointer. */
  lemma ExploreOrderedExact(program: Program, x: Point)
    requires Ordered(x.1)
    ensures OrderedOutcome(Explore(program, x.0, x.1)) <==> !Escapes(program, x)
  {
    hide Ordered, Explore, Escapes, OrderedOutcome;
    if Escapes(program, x) {
      EscapeBreaksOrder(program, x);
    } else {
      ExploreOrdered(program, x);
    }
  }

  // ── Whole runs ───────────────────────────────────────────────────────────

  ghost predicate NoEscape(program: Program, trace: seq<Point>) {
    forall i :: 0 <= i < |trace| ==> !Escapes(program, trace[i])
  }

  /** Runs that spill no escaping frame pointer never reach the panic. */
  lemma {:induction false} NoEscapeNoPanic(program: Program, trace: seq<Point>)
    requires Run(program, trace) && NoEscape(program, trace)
    ensures forall i :: 0 <= i < |trace| ==>
              Ordered(trace[i].1) && OrderedOutcome(Explore(program, trace[i].0, trace[i].1))
    decreases |trace|
  {
    hide Ordered, Explore, Escapes;
    var last := |trace| - 1;
    if last == 0 {
      InitialOrdered();
    } else {
      var prefix := trace[..last];
      assert forall i: nat :: 0 < i < last ==> StepAt(program, trace, i) ==> StepAt(program, prefix, i);
      NoEscapeNoPanic(program, prefix);
      assert StepAt(program, trace, last) && prefix[last - 1] == trace[last - 1];
    }
    ExploreOrdered(program, trace[last]);
    forall i | 0 <= i < |trace|
      ensures Ordered(trace[i].1) && OrderedOutcome(Explore(program, trace[i].0, trace[i].1))
    {
      assert i < last ==> trace[i] == trace[..last][i];
    }
  }

  lemma NoEscapeAtEnd(program: Program, trace: seq<Point>)
    requires Run(program, trace) && NoEscape(program, trace)
    ensures OrderedOutcome(Explore(program, trace[|trace| - 1].0, trace[|trace| - 1].1))
  {
    hide Explore, Escapes, Ordered, Steps, OrderedOutcome;
    NoEscapeNoPanic(program, trace);
  }

  /** A run that ends at an inactive frame has spilled an escaping frame pointer. */
  lemma PanicNeedsEscape(program: Program, trace: seq<Point>, pc: nat)
    requires Run(program, trace)
    requires var x := trace[|trace| - 1]; Explore(program, x.0, x.1) == Outcome.Fails(InactiveFrame(pc))
    ensures exists i :: 0 <= i < |trace| && Escapes(program, trace[i])
  {
    hide Explore, Escapes, Ordered, Steps;
    if NoEscape(program, trace) {
      NoEscapeAtEnd(program, trace);
      assert false;
    }
  }

  // ── The panic is reachable ───────────────────────────────────────────────

  /** A callee that got the caller's frame pointer in r1 can spill its own frame
      pointer there; after the return an access through it meets no active frame,
      which the source answers with a panic. */
  lemma EscapedFramePointer(pc: nat, st: State, returnPc: U32)
    requires st.curframe == 0 && st.saved[0].None? && st.saved[1].None? && st.regs[1] == Some(StackPtr(STACK_BASE, 0))
    ensures var callee := EnterSubprog(st, returnPc).value;
            var stored := Store(pc, callee, callee.regs[10], 1, -8, 8);
            && stored.Ok?
            && LeaveSubprog(stored.value).stack[0] == Some(StackPtr(STACK_BASE, 1))
            && Locate(pc, SetReg(LeaveSubprog(stored.value), 2, StackPtr(STACK_BASE, 1)), 2, -8, 8) ==
               Err(InactiveFrame(pc))
  {
    var callee := EnterSubprog(st, returnPc).value;
    assert AccessOffset(STACK_BASE, -8) == -8;
    assert Locate(pc, callee, 1, -8, 8) == Ok(Place(0, 0, 0, -8));
  }

  /** main passes its frame pointer, the callee spills its own there, main uses it. */
  function EscapeProgram(): Program {
    [MovReg(1, 10), CallSub(3), LdMem(2, 10, -8, B64, false), LdMem(3, 2, -8, B64, false), Exit,
     StMem(10, 1, -8, B64), Exit]
  }

  function Passed(): State { SetReg(Initial(), 1, StackPtr(STACK_BASE, 0)) }

  function Entered(): State { EnterSubprog(Passed(), 2).value }

  function Spilled(): State {
    Entered().(saved := Entered().saved[0 :=
        Some(Frame(Passed().regs, NoCells()[0 := Some(StackPtr(STACK_BASE, 1))], 0))])
  }

  function Returned(): State { LeaveSubprog(Spilled()) }

  function Reloaded(): State { SetReg(Returned(), 2, StackPtr(STACK_BASE, 1)) }

  lemma FirstSteps()
    ensures Steps(EscapeProgram(), (0, Initial()), (1, Passed()))
            && Steps(EscapeProgram(), (1, Passed()), (5, Entered()))
  {
    hide NoCells, SaveFrame, CalleeRegs;
    assert Explore(EscapeProgram(), 0, Initial()) == Next([(1, Passed())]);
    assert Explore(EscapeProgram(), 1, Passed()) == Next([(5, Entered())]);
  }

  lemma EnteredFrame()
    ensures var st := Entered();
            && st.curframe == 1 && st.regs[1] == Some(StackPtr(STACK_BASE, 0))
                && st.regs[10] == Some(StackPtr(STACK_BASE, 1))
            && st.saved[0] == Some(Frame(Passed().regs, NoCells(), 0)) && st.retPc == 2
  {
  }

  lemma SpillStep()
    ensures Steps(EscapeProgram(), (5, Entered()), (6, Spilled())) && Escapes(EscapeProgram(), (5, Entered()))
  {
    EnteredFrame();
    hide Entered, Passed, NoCells;
    assert AccessOffset(STACK_BASE, -8) == -8;
    assert Locate(5, Entered(), 1, -8, 8) == Ok(Place(0, 0, 0, -8));
    hide Locate, AccessOffset;
    assert Step(5, Entered(), StMem(10, 1, -8, B64)) == Ok(Spilled());
    assert Explore(EscapeProgram(), 5, Entered()) == Next([(6, Spilled())]);
  }

  lemma ReturnedFrame()
    ensures var st := Returned();
            && st.curframe == 0 && st.regs[10] == Some(StackPtr(STACK_BASE, 0))
                && st.stack[0] == Some(StackPtr(STACK_BASE, 1))
            && st.saved[1].None? && Spilled().curframe == 1 && Spilled().retPc == 2 && Spilled().regs[0].None?
  {
    hide NoCells;
    EnteredFrame();
  }

  lemma ReturnStep()
    ensures Steps(EscapeProgram(), (6, Spilled()), (2, Returned()))
  {
    ReturnedFrame();
    assert Returned() == LeaveSubprog(Spilled());
    hide Returned, Spilled, LeaveSubprog, Successors;
    assert Explore(EscapeProgram(), 6, Spilled()) == Next([(2, Returned())]);
  }

  lemma ReloadStep()
    ensures Steps(EscapeProgram(), (2, Returned()), (3, Reloaded()))
  {
    ReturnedFrame();
    hide Returned, Spilled;
    assert AccessOffset(STACK_BASE, -8) == -8;
    assert Locate(2, Returned(), 10, -8, 8) == Ok(Place(0, 0, 0, -8));
    hide Locate, AccessOffset;
    assert Explore(EscapeProgram(), 2, Returned()) == Next([(3, Reloaded())]);
  }

  lemma PanicStep()
    ensures Explore(EscapeProgram(), 3, Reloaded()) == Outcome.Fails(InactiveFrame(3))
  {
    ReturnedFrame();
    hide Returned, Spilled;
    assert AccessOffset(STACK_BASE, -8) == -8;
    assert Locate(3, Reloaded(), 2, -8, 8) == Err(InactiveFrame(3));
  }

  /** The panic happens: a run of a seven-instruction program ends in it. */
  lemma EscapePanics()
    ensures Reachable(EscapeProgram(), (3, Reloaded()))
    ensures Explore(EscapeProgram(), 3, Reloaded()) == Outcome.Fails(InactiveFrame(3))
  {
    hide Reachable, Steps, Explore, Passed, Entered, Spilled, Returned, Reloaded, EscapeProgram;
    var program := EscapeProgram();
    InitialReachable(program);
    FirstSteps();
    SpillStep();
    ReturnStep();
    ReloadStep();
    StepReachable(program, (0, Initial()), (1, Passed()));
    StepReachable(program, (1, Passed()), (5, Entered()));
    StepReachable(program, (5, Entered()), (6, Spilled()));
    StepReachable(program, (6, Spilled()), (2, Returned()));
    StepReachable(program, (2, Returned()), (3, Reloaded()));
    PanicStep();
  }
}
