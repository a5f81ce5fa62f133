/** No edge of the control-flow graph is idle (`src/cfg.rs`): some concrete state
    takes it. */
module EdgesTaken {
  import opened Words
  import opened Scalar
  import opened Branch
  import opened Insn
  import opened Cfg
  import R = Runs
  import C = Concrete

  /** What the concrete model executes; maps and other helpers are not part of it. */
  predicate Runnable(insn: Insn) {
    && !insn.LdMapFd? && !insn.LdMapValue? && (insn.Call? ==> IsScalarHelper(insn.imm))
    && (insn.AluImm? && IsShift(insn.op) ==> 0 <= insn.imm < BitWidth(insn.width))
  }

  /** The comparison has the same outcome for all operands. */
  predicate Decided(insn: Insn) {
    || (insn.JCond? && insn.dst == insn.src)
    || (insn.JCondImm? && (insn.cond.Ult? || insn.cond.Uge?) && insn.imm == 0)
    || (insn.JCondImm? && (insn.cond.Ugt? || insn.cond.Ule?) && insn.imm == -1)
    || (insn.JsetImm? && insn.imm == 0)
  }

  ghost predicate Takes(program: Program, pc: nat, t: nat) {
    exists st: C.State, next: C.State :: R.Steps(program, (pc, st), (t, next))
  }

  /** A frame with the same value in every register, and a number on top of the stack. */
  function Filled(v: C.Value): C.State {
    var r := Some(v);
    C.Initial().(regs := [r, r, r, r, r, r, r, r, r, r, r],
                 stack := C.NoCells()[0 := Some(C.Number(0))])
  }

  lemma TakesBy(program: Program, pc: nat, st: C.State, t: nat, next: C.State)
    requires R.Steps(program, (pc, st), (t, next))
    ensures Takes(program, pc, t)
  {
    hide R.Steps;
  }

  // ── Straight-line instructions ───────────────────────────────────────────

  /** A pointer that puts an access at r10-8. */
  function Reaching(off: I16): C.Value { C.StackPtr(Wrap64(C.STACK_BASE - 8 - off), 0) }

  lemma ReachesTop(pc: nat, base: Reg, off: I16, size: nat)
    requires ValidSize(size)
    ensures C.Locate(pc, Filled(Reaching(off)), base, off, size) == Ok(C.Place(0, 0, 0, -8))
  {
    var bits := Wrap64(C.STACK_BASE - 8 - off);
    assert C.AccessOffset(bits, off) == -8;
    assert C.StackRange(pc, -8, size) == Ok((0, 0));
    assert Filled(Reaching(off)).regs[base] == Some(Reaching(off));
    hide C.AccessOffset, C.StackRange, C.NoCells;
  }

  predicate Straight(insn: Insn) {
    !insn.IsConditional() && !insn.Jmp? && !insn.Exit? && !insn.Call? && !insn.CallSub?
  }

  lemma StraightRuns(pc: nat, insn: Insn)
    requires Straight(insn) && Runnable(insn)
    ensures exists st: C.State :: C.Step(pc, st, insn).Ok?
  {
    hide C.NoCells, AluConst, C.MergeCell, C.Extract, C.Locate, Wrap64;
    if insn.LdMem? || insn.StMem? || insn.StMemImm? {
      var st := Filled(Reaching(insn.offset));
      ReachesTop(pc, insn.base, insn.offset, insn.size.Bytes());
      assert st.regs[insn.base].Some? && st.stack[0].Some? && st.curframe == 0;
      hide Filled;
      assert C.Step(pc, st, insn).Ok?;
    } else {
      var st := Filled(C.Number(0));
      assert C.Step(pc, st, insn).Ok?;
    }
  }

  lemma StraightTaken(program: Program, pc: nat)
    requires pc < |program| && Straight(program[pc]) && Runnable(program[pc])
    ensures Takes(program, pc, pc + 1)
  {
    StraightRuns(pc, program[pc]);
    var st: C.State :| C.Step(pc, st, program[pc]).Ok?;
    hide C.Step;
    TakesBy(program, pc, st, pc + 1, C.Step(pc, st, program[pc]).value);
  }

  lemma HelperTaken(program: Program, pc: nat)
    requires pc < |program| && program[pc].Call? && Runnable(program[pc])
    ensures Takes(program, pc, pc + 1)
  {
    var st := C.Initial();
    var states := C.CallHelper(pc, st, program[pc].imm).value;
    assert C.Each(pc, states)[0] == (pc + 1, states[0]);
    TakesBy(program, pc, st, pc + 1, states[0]);
  }

  lemma CallTaken(program: Program, pc: nat)
    requires pc < |program| && program[pc].CallSub?
    ensures Takes(program, pc, Target(pc, program[pc].callOffset))
  {
    var st := C.Initial();
    hide C.CalleeRegs, C.SaveFrame, C.NoCells, Target;
    TakesBy(program, pc, st, Target(pc, program[pc].callOffset), C.EnterSubprog(st, Wrap32(pc + 1)).value);
  }

  lemma JumpTaken(program: Program, pc: nat)
    requires pc < |program| && program[pc].Jmp?
    ensures Takes(program, pc, Target(pc, program[pc].offset))
  {
    hide Target;
    TakesBy(program, pc, C.Initial(), Target(pc, program[pc].offset), C.Initial());
  }

  // ── Branches ─────────────────────────────────────────────────────────────

  /** An operand for which the comparison with y comes out as asked. */
  function Operand(op: CondOp, taken: bool, y: U64): U64 {
    if op.Eq? || op.Ne? then (if op.Eq? == taken then y else if y == 0 then 1 else 0)
    else if op.Ule? || op.Uge? || op.Sle? || op.Sge? then
      if taken then y
      else if op.Ule? then U64_MAX else if op.Uge? then 0 else if op.Sle? then I64_MAX else TWO63
    else
      if !taken then y
      else if op.Ult? then 0 else if op.Ugt? then U64_MAX else if op.Slt? then TWO63 else I64_MAX
  }

  lemma OperandWorks(op: CondOp, taken: bool, y: U64)
    requires y != TWO63 && y != I64_MAX
    requires y == 0 ==> !op.Ult? && !op.Uge?
    requires y == U64_MAX ==> !op.Ugt? && !op.Ule?
    ensures Taken(op, Operand(op, taken, y), y) == taken
  {
  }

  lemma ImmediateOperand(imm: I32)
    ensures Wrap64(imm) != TWO63 && Wrap64(imm) != I64_MAX
    ensures Wrap64(imm) == 0 <==> imm == 0
    ensures Wrap64(imm) == U64_MAX <==> imm == -1
  {
  }

  lemma CompareTaken(program: Program, pc: nat, taken: bool)
    requires pc < |program| && (program[pc].JCond? || program[pc].JCondImm?) && !Decided(program[pc])
    ensures Takes(program, pc, C.BranchTo(pc, program[pc].offset, taken))
  {
    hide C.NoCells, Taken, Target, Operand, Wrap64;
    var insn := program[pc];
    var y: U64 := if insn.JCond? then 5 else Wrap64(insn.imm);
    if insn.JCondImm? {
      ImmediateOperand(insn.imm);
    }
    OperandWorks(insn.cond, taken, y);
    var x := Operand(insn.cond, taken, y);
    var st := C.SetReg(Filled(C.Number(y)), insn.dst, C.Number(x));
    assert st.regs[insn.dst] == Some(C.Number(x));
    assert insn.JCond? ==> st.regs[insn.src] == Some(C.Number(y));
    hide Filled, C.SetReg;
    assert C.Explore(program, pc, st) == C.Next([(C.BranchTo(pc, insn.offset, taken), st)]);
    TakesBy(program, pc, st, C.BranchTo(pc, insn.offset, taken), st);
  }

  lemma {:induction false} AndSelf(x: nat)
    ensures Bits.And(x, x) == x && Bits.And(0, x) == 0
    decreases x
  {
    if x != 0 {
      AndSelf(x / 2);
    }
  }

  lemma TestTaken(program: Program, pc: nat, taken: bool)
    requires pc < |program| && (program[pc].Jset? || program[pc].JsetImm?) && !Decided(program[pc])
    ensures Takes(program, pc, C.BranchTo(pc, program[pc].offset, taken))
  {
    hide C.NoCells, Target, Wrap64, Bits.And;
    var insn := program[pc];
    var y: U64 := if insn.JsetImm? then Wrap64(insn.imm) else if taken then 1 else 0;
    if insn.JsetImm? {
      ImmediateOperand(insn.imm);
    }
    var x: U64 := if taken then y else 0;
    AndSelf(y);
    AndSelf(x);
    var st := C.SetReg(Filled(C.Number(y)), insn.dst, C.Number(x));
    assert st.regs[insn.dst] == Some(C.Number(x));
    assert insn.Jset? ==> st.regs[insn.src] == Some(C.Number(y));
    hide Filled, C.SetReg;
    assert C.Explore(program, pc, st) == C.Next([(C.BranchTo(pc, insn.offset, taken), st)]);
    TakesBy(program, pc, st, C.BranchTo(pc, insn.offset, taken), st);
  }

  lemma BranchTaken(program: Program, pc: nat, t: nat)
    requires pc < |program| && program[pc].IsConditional() && !Decided(program[pc])
    requires t == pc + 1 || t == Target(pc, program[pc].offset)
    ensures Takes(program, pc, t)
  {
    hide Takes, Target;
    var taken := t != pc + 1;
    if program[pc].JCond? || program[pc].JCondImm? {
      CompareTaken(program, pc, taken);
    } else {
      TestTaken(program, pc, taken);
    }
  }

  // ── Edges ────────────────────────────────────────────────────────────────

  /** Every successor of an instruction other than an exit is taken by some state,
      unless the comparison is decided or the instruction is not modelled. */
  lemma EdgeTaken(insns: Program, subprogs: seq<nat>, pc: nat, t: nat)
    requires pc < |insns| && NextInsns(pc, insns, subprogs).Ok? && t in NextInsns(pc, insns, subprogs).value
    requires !insns[pc].Exit? && Runnable(insns[pc]) && !Decided(insns[pc])
    ensures Takes(insns, pc, t)
  {
    hide Takes, RangeStart, RangeEnd, Target, Decided, Runnable;
    var insn := insns[pc];
    if insn.Jmp? {
      JumpTaken(insns, pc);
    } else if insn.IsConditional() {
      BranchTaken(insns, pc, t);
    } else if insn.Call? {
      HelperTaken(insns, pc);
    } else if insn.CallSub? {
      CallTaken(insns, pc);
    } else {
      StraightTaken(insns, pc);
    }
  }

  /** The successors of an exit are exactly the return sites of its subprogram. */
  lemma ExitEdges(insns: Program, subprogs: seq<nat>, pc: nat, t: nat)
    requires pc < |insns| && insns[pc].Exit? && NextInsns(pc, insns, subprogs).Ok?
    ensures t in NextInsns(pc, insns, subprogs).value <==>
            RangeStart(pc, subprogs) != 0 && 0 < t <= |insns| && CallsAt(insns, t - 1, RangeStart(pc, subprogs))
  {
    hide RangeStart, RangeEnd, ReturnSites, Target;
    ReturnSitesAre(insns, RangeStart(pc, subprogs), |insns|, t);
  }
}

/** The liveness iteration follows the same graph (`src/liveness.rs`). */
module StaticEdges {
  import opened Words
  import opened Insn
  import opened Graph
  import opened Cfg
  import L = Liveness

  /** The greatest call target at or before i, or 0. */
  lemma {:induction false} LastStartIs(program: Program, i: nat, k: nat)
    requires k <= |program|
    ensures L.LastStart(program, i, k) <= i
    ensures L.LastStart(program, i, k) == 0
            || exists pc: nat :: pc < k && CallsAt(program, pc, L.LastStart(program, i, k))
    ensures forall pc: nat, s: nat :: pc < k && CallsAt(program, pc, s) && s <= i ==> s <= L.LastStart(program, i, k)
    decreases k
  {
    hide Target, Wrap32;
    if k > 0 {
      LastStartIs(program, i, k - 1);
      if program[k - 1].CallSub? {
        CallTargetIs(program, k - 1);
        assert CallsAt(program, k - 1, L.CallTarget(program, k - 1));
      }
    }
  }

  lemma CallTargetIs(program: Program, pc: nat)
    requires pc < |program| && program[pc].CallSub?
    ensures L.CallTarget(program, pc) == Target(pc, program[pc].callOffset)
  {
  }

  /** Both find the same subprogram of an instruction. */
  lemma SameStart(program: Program, subprogs: seq<nat>, i: nat)
    requires Entries(program, subprogs) && i < |program|
    ensures L.LastStart(program, i, |program|) == RangeStart(i, subprogs)
  {
    SubprogRange(program, subprogs, i);
    LastStartIs(program, i, |program|);
    hide RangeStart, RangeEnd, L.LastStart, Target;
    var s, t := L.LastStart(program, i, |program|), RangeStart(i, subprogs);
    assert s in subprogs;
    if t != 0 {
      var pc: nat :| CallsAt(program, pc, t);
    }
  }

  lemma {:induction false} SameSites(program: Program, entry: nat, k: nat)
    requires k <= |program|
    ensures L.ReturnSites(program, entry, k) == ReturnSites(program, entry, k)
    decreases k
  {
    hide Target, Wrap32;
    if k > 0 {
      SameSites(program, entry, k - 1);
      if program[k - 1].CallSub? {
        CallTargetIs(program, k - 1);
      }
    }
  }

  lemma TargetInside(pc: U32, offset: int, n: nat)
    requires n < TWO31 && pc < n && -TWO31 <= offset < TWO31
    ensures 0 <= pc + 1 + offset < n <==> Target(pc, offset) < n
    ensures Target(pc, offset) < n ==> Target(pc, offset) == pc + 1 + offset
  {
  }

  /** For an accepted program the static successors are exactly the edges. */
  lemma StaticAreEdges(program: Program, subprogs: seq<nat>, pc: nat, t: nat)
    requires Entries(program, subprogs) && Accepted(program, subprogs) && pc < |program|
    ensures t in L.StaticSuccessors(program, pc) <==> Edge(FlowGraph(program, subprogs), pc, t)
  {
    assert FlowGraph(program, subprogs)[pc].Ok? && FlowGraph(program, subprogs)[pc] == NextInsns(pc, program, subprogs);
    EdgeInside(program, subprogs, pc, t);
    hide Accepted, Entries, FlowGraph, NextInsns, L.StaticSuccessors;
    if program[pc].Exit? {
      ExitStatic(program, subprogs, pc);
    } else if program[pc].CallSub? {
      CallStatic(program, subprogs, pc, t);
    } else if program[pc].Jmp? || program[pc].IsConditional() {
      JumpStatic(program, subprogs, pc, t);
    } else {
      NextStatic(program, subprogs, pc, t);
    }
  }

  lemma ExitStatic(program: Program, subprogs: seq<nat>, pc: nat)
    requires Entries(program, subprogs) && pc < |program| && program[pc].Exit? && NextInsns(pc, program, subprogs).Ok?
    ensures L.StaticSuccessors(program, pc) == NextInsns(pc, program, subprogs).value
  {
    SameStart(program, subprogs, pc);
    SameSites(program, RangeStart(pc, subprogs), |program|);
    SubprogRange(program, subprogs, pc);
    hide RangeStart, RangeEnd, L.LastStart, L.ReturnSites, ReturnSites, Entries;
  }

  lemma CallStatic(program: Program, subprogs: seq<nat>, pc: nat, t: nat)
    requires pc < |program| && program[pc].CallSub? && NextInsns(pc, program, subprogs).Ok?
    requires t in NextInsns(pc, program, subprogs).value ==> t < |program|
    ensures t in L.StaticSuccessors(program, pc) <==> t in NextInsns(pc, program, subprogs).value
  {
    TargetInside(pc, program[pc].callOffset, |program|);
    hide RangeStart, RangeEnd, L.ReturnSites, ReturnSites, Target;
  }

  lemma JumpStatic(program: Program, subprogs: seq<nat>, pc: nat, t: nat)
    requires pc < |program| && (program[pc].Jmp? || program[pc].IsConditional()) && NextInsns(pc, program, subprogs).Ok?
    requires t in NextInsns(pc, program, subprogs).value ==> t < |program|
    ensures t in L.StaticSuccessors(program, pc) <==> t in NextInsns(pc, program, subprogs).value
  {
    TargetInside(pc, program[pc].offset, |program|);
    hide RangeStart, RangeEnd, L.ReturnSites, ReturnSites, Target;
  }

  lemma NextStatic(program: Program, subprogs: seq<nat>, pc: nat, t: nat)
    requires pc < |program| && !program[pc].Exit? && !program[pc].CallSub? && !program[pc].Jmp?
    requires !program[pc].IsConditional() && NextInsns(pc, program, subprogs).Ok?
    requires t in NextInsns(pc, program, subprogs).value ==> t < |program|
    ensures t in L.StaticSuccessors(program, pc) <==> t in NextInsns(pc, program, subprogs).value
  {
    hide RangeStart, RangeEnd, L.ReturnSites, ReturnSites, Target;
  }

  lemma EdgeInside(program: Program, subprogs: seq<nat>, pc: nat, t: nat)
    requires Entries(program, subprogs) && Accepted(program, subprogs) && pc < |program|
    ensures Edge(FlowGraph(program, subprogs), pc, t) ==> t < |program|
  {
    hide Reachable, NextInsns, Entries, AllEndProperly;
    if Edge(FlowGraph(program, subprogs), pc, t) {
      assert FlowGraph(program, subprogs)[pc] == NextInsns(pc, program, subprogs);
      NextInRange(program, subprogs, pc, t);
    }
  }
}
