/** The verdict on an accepted program (`src/env.rs`): the concrete worklist, then the
    coverage check against the recorded abstract states. */
module CrossCheck {
  import opened Insn
  import opened Abstract
  import opened Coverage
  import opened FreshBytes
  import opened DeadState
  import opened Liveness
  import opened Runs
  import opened Calls
  import opened CallSimulation
  import opened CoverageCheck
  import Worklist
  import C = Concrete

  /** The recorded form of an abstract state. */
  function CleanAt(m: Masks, pc: nat, x: Stacked): State {
    CleanAbstract(x.top, LiveAt(m.regs, pc), LiveAt(m.slots, pc))
  }

  ghost predicate RecordedAt(m: Masks, states: Recorded, pc: nat, x: Stacked) {
    pc in states && CleanAt(m, pc, x) in states[pc] && NoLoose(CleanAt(m, pc, x))
  }

  /** Every explored state was recorded, cleaned, and shows no clamped pointer. */
  ghost predicate Records(reach: Reach, m: Masks, states: Recorded) {
    forall pc: nat, x: Stacked :: (pc, x) in reach ==> RecordedAt(m, states, pc, x)
  }

  /** What the concrete run recorded is covered by what the abstract run did. */
  lemma RecordCovered(program: Program, reach: Reach, m: Masks, states: Recorded, v: Point)
    requires Closed(program, reach) && (0, Start()) in reach && Records(reach, m, states)
    requires Worklist.CleanedReachable(program, m, v)
    ensures CoveredBySome(false, states, v)
  {
    hide Closed, C.Explore, StackedOn, Reachable, StateCovers, Records;
    var y: Point :| Reachable(program, y) && v == Worklist.Cleaned(m, y);
    ReachableCovered(program, reach, y);
    var x: Stacked :| (y.0, x) in reach && StackedCovers(x, y.1);
    var base: Base :| StackedOn(base, x, y.1);
    Parts(base, x, y.1);
    RecordedHere(reach, m, states, y.0, x);
    CleanPasses(base, x, y.1, LiveAt(m.regs, y.0), LiveAt(m.slots, y.0));
    var candidates := states[y.0];
    var i :| 0 <= i < |candidates| && candidates[i] == CleanAt(m, y.0, x);
  }

  lemma RecordedHere(reach: Reach, m: Masks, states: Recorded, pc: nat, x: Stacked)
    requires Records(reach, m, states) && (pc, x) in reach
    ensures RecordedAt(m, states, pc, x)
  {
    hide RecordedAt;
  }

  lemma CleanPasses(base: Base, x: Stacked, c: C.State, regs: set<int>, slots: set<int>)
    requires CoversOn(base, x.top, c) && FreshZero(x.top.bytes, c.stack) && NoLoose(CleanAbstract(x.top, regs, slots))
    ensures StateCovers(false, CleanAbstract(x.top, regs, slots), Clean(c, regs, slots))
  {
    hide CoversOn, FreshZero, NoLoose, StateCovers, PointersInside, CleanAbstract, Clean;
    CleanCovers(base, x.top, c, regs, slots);
    NoLooseInside(base, CleanAbstract(x.top, regs, slots), Clean(c, regs, slots));
    CheckIsInside(base, false, CleanAbstract(x.top, regs, slots), Clean(c, regs, slots));
  }

  datatype Verdict = Safe | Inconclusive | Unsafe

  /** The concrete side of `verify` for an accepted program. Within limits that are
      large enough, it calls the program safe exactly when it reaches an exit. */
  method Judge(program: Program, m: Masks, heads: seq<nat>, limits: Worklist.Limits, states: Recorded,
               ghost reach: Reach)
    returns (verdict: Verdict)
    requires Closed(program, reach) && (0, Start()) in reach && Records(reach, m, states)
    ensures verdict.Unsafe? ==> forall x: Point :: Reachable(program, x) ==> !ExitsAt(program, x)
    ensures verdict.Safe? ==> exists x: Point :: Reachable(program, x) && ExitsAt(program, x)
    ensures forall points: seq<Point> :: Worklist.Generous(program, points, limits) ==> !verdict.Inconclusive?
  {
    hide Closed, Records, Reachable, ExitsAt, Worklist.FailureReachable, Worklist.CleanedReachable, StateCovers,
         Worklist.Generous, Worklist.Explores, Worklist.DepthFirst, Worklist.Pushed, Worklist.WithinLimits;
    var r, order := Worklist.RunConcrete(program, m, heads, limits);
    if r.Err? {
      Worklist.AcceptedNeverRefuted(program, reach, r.error);
      assert false;
    } else if r.value.inconclusive {
      verdict := Inconclusive;
    } else {
      var violations := CheckCoverage(false, states, r.value.visited);
      forall i | 0 <= i < |r.value.visited|
        ensures CoveredBySome(false, states, r.value.visited[i])
      {
        RecordCovered(program, reach, m, states, r.value.visited[i]);
      }
      if violations != [] || r.value.noExit {
        verdict := Unsafe;
      } else {
        verdict := Safe;
      }
    }
  }
}

/** The coverage check calls a safe program unsafe: a pointer whose interval was
    clamped is compared, never used, and the check finds it outside its interval. */
module SaturatedAlarm {
  import opened Words
  import opened TnumDomain
  import opened Scalar
  import opened Insn
  import opened Abstract
  import opened Offsets
  import opened DeadState
  import opened Liveness
  import opened Runs
  import opened Simulation
  import opened Calls
  import opened CallSimulation
  import opened CoverageCheck
  import opened MaskedOffsets
  import AbstractRuns
  import Branch
  import CrossCheck
  import Worklist
  import C = Concrete

  function Alarm(): Program {
    [Call(7), AluImm(Rsh, W64, 0, 1), MovReg(2, 10), AluReg(Scalar.Add, W64, 2, 0), JCondImm(Branch.Eq, 2, 0, 0), Exit]
  }

  /** Half of an unknown number. */
  function Half(): Bounds { ApplyAlu(Rsh, W64, Top(), Const(1)) }

  lemma HalfRange()
    ensures Half().smin == 0 && Half().smax == I64_MAX
  {
    assert Shr(0, 1) == 0 && Shr(U64_MAX, 1) == I64_MAX;
    hide Tnum.RShift, Tnum.Intersect, FromRange, Shr;
  }

  function Clamped(): RegState { PtrToStack(0, I32_MAX, AddScalarAlign(0, Half()), 0) }

  lemma ClampedSum(pc: nat)
    ensures AddScalarToStackPtr(pc, R10, Half()) == Ok(Clamped())
  {
    HalfRange();
    hide Half;
  }

  function Plain(a: State): Stacked { Stacked(a, [], 0) }

  function States(): Reach {
    iset{(0, Start()), (1, Plain(AbstractAt(Num(Top()), U))), (2, Plain(AbstractAt(Num(Half()), U))),
         (3, Plain(AbstractAt(Num(Half()), R10))), (4, Plain(AbstractAt(Num(Half()), Clamped()))),
         (5, Plain(AbstractAt(Num(Half()), Clamped())))}
  }

  /** Without callers, the successors are those of the frame. */
  lemma PlainSuccessors(pc: U32, a: State, insn: Insn)
    requires !insn.CallSub? && Abstract.Successors(pc, a, insn).Ok?
    ensures var succs := Abstract.Successors(pc, a, insn).value;
            && StackedSuccessors(pc, Plain(a), insn).Ok?
            && |StackedSuccessors(pc, Plain(a), insn).value| == |succs|
            && forall k :: 0 <= k < |succs| ==>
                 StackedSuccessors(pc, Plain(a), insn).value[k] == (succs[k].0, Plain(succs[k].1))
  {
    hide Abstract.Successors;
    forall top: State
      ensures After(Plain(a), insn, top) == Plain(top)
    {
      assert |After(Plain(a), insn, top).saved| == 0;
    }
  }

  /** An instruction with one successor, which is in the set. */
  lemma OneExplored(pc: nat, a: State, to: State)
    requires pc < 4 && AbstractRuns.Leads(Alarm(), (pc, a), (pc + 1, to))
    requires StepGuard(pc, a, Alarm()[pc]) && !NeedsLinkAt(pc, a) && !OuterAccess(Plain(a), Alarm()[pc])
    requires (pc + 1, Plain(to)) in States()
    ensures Explored(Alarm(), States(), pc, Plain(a))
  {
    hide Abstract.Step, StepGuard, States, NeedsLink;
    var insn := Alarm()[pc];
    PlainSuccessors(pc, a, insn);
    assert Abstract.Successors(pc, a, insn).value == [(pc + 1, to)];
  }

  predicate NeedsLinkAt(pc: nat, a: State)
    requires pc < 4
  {
    Alarm()[pc].MovReg? && NeedsLink(a.regs[Alarm()[pc].src])
  }

  lemma HeadExplored()
    ensures Explored(Alarm(), States(), 0, Start())
    ensures Explored(Alarm(), States(), 1, Plain(AbstractAt(Num(Top()), U)))
  {
    hide Half, Top, Explored, NoMarks, NoSpills, AbstractRuns.Leads, Const;
    AbstractCall(Alarm());
    assert Start() == Plain(Initial());
    OneExplored(0, Initial(), AbstractAt(Num(Top()), U));
    AbstractAlu(Alarm(), 1, Rsh, 1, Top(), U);
    HalfIs();
    ShiftGuard();
    OneExplored(1, AbstractAt(Num(Top()), U), AbstractAt(Num(Half()), U));
  }

  lemma SumExplored()
    ensures Explored(Alarm(), States(), 2, Plain(AbstractAt(Num(Half()), U)))
    ensures Explored(Alarm(), States(), 3, Plain(AbstractAt(Num(Half()), R10)))
  {
    hide Half, Top, Explored, NoMarks, NoSpills, AbstractRuns.Leads, Const;
    AbstractCopy(Alarm(), 2, Num(Half()));
    OneExplored(2, AbstractAt(Num(Half()), U), AbstractAt(Num(Half()), R10));
    ClampedSum(3);
    AbstractAddReg(Alarm(), 3, Half(), Clamped());
    OneExplored(3, AbstractAt(Num(Half()), R10), AbstractAt(Num(Half()), Clamped()));
  }

  lemma HalfIs()
    ensures Half() == ApplyAlu(Rsh, W64, Top(), Const(1))
  {
  }

  lemma ShiftGuard()
    ensures StepGuard(1, AbstractAt(Num(Top()), U), Alarm()[1])
  {
  }

  lemma CompareExplored()
    ensures Explored(Alarm(), States(), 4, Plain(AbstractAt(Num(Half()), Clamped())))
  {
    hide Half, NoMarks, NoSpills, Const, AddScalarAlign;
    var a := AbstractAt(Num(Half()), Clamped());
    assert Abstract.Successors(4, a, Alarm()[4]) == Ok([(5, a), (5, a)]);
    PlainSuccessors(4, a, Alarm()[4]);
    hide Abstract.Successors, StackedSuccessors;
  }

  lemma ExitExplored()
    ensures Explored(Alarm(), States(), 5, Plain(AbstractAt(Num(Half()), Clamped())))
  {
    hide Half, NoMarks, NoSpills, AddScalarAlign;
  }

  lemma AlarmAccepted()
    ensures Closed(Alarm(), States()) && (0, Start()) in States()
  {
    HeadExplored();
    SumExplored();
    CompareExplored();
    ExitExplored();
    hide Explored, Start, Half, Top, Clamped, Alarm, AbstractAt;
  }

  // ── The concrete run ─────────────────────────────────────────────────────

  function Far(): C.State { ConcreteAt(Number(I64_MAX), Pointer(I64_MAX)) }

  lemma HalfValue()
    ensures AluConst64(Rsh, U64_MAX, Wrap64(1)) == I64_MAX
  {
    assert Pow2(1) == 2;
  }

  lemma FarReachable()
    ensures Reachable(Alarm(), (4, Far())) && Reachable(Alarm(), (5, Far()))
  {
    var program := Alarm();
    HalfValue();
    FarCompared();
    hide Steps, Reachable, ConcreteAt, Pointer, AluConst64, Wrap64;
    ConcreteCall(program, U64_MAX);
    ConcreteAlu(program, 1, Rsh, 1, U64_MAX, None);
    ConcreteCopy(program, 2, Number(I64_MAX));
    ConcreteAddReg(program, 3, I64_MAX);
    InitialReachable(program);
    StepReachable(program, (0, C.Initial()), (1, ConcreteAt(Number(U64_MAX), None)));
    StepReachable(program, (1, ConcreteAt(Number(U64_MAX), None)), (2, ConcreteAt(Number(I64_MAX), None)));
    StepReachable(program, (2, ConcreteAt(Number(I64_MAX), None)), (3, ConcreteAt(Number(I64_MAX), Pointer(0))));
    StepReachable(program, (3, ConcreteAt(Number(I64_MAX), Pointer(0))), (4, Far()));
    StepReachable(program, (4, Far()), (5, Far()));
  }

  lemma FarCompared()
    ensures Steps(Alarm(), (4, Far()), (5, Far()))
  {
    hide C.NoCells, Branch.Taken;
    assert Target(4, 0) == 5;
    assert C.Explore(Alarm(), 4, Far()) == C.Next([(5, Far())]);
  }

  lemma FarOutside()
    ensures Far().regs[2] == Some(C.StackPtr(Wrap64(C.STACK_BASE + I64_MAX), 0))
    ensures C.PtrOffset(Wrap64(C.STACK_BASE + I64_MAX)) == I64_MAX && I64_MAX > I32_MAX
  {
  }

  lemma UsedIsLive(f: Flow, i: nat, x: int)
    requires f.Valid() && i < |f.succs| && x in f.uses[i]
    ensures Live(f, i, x)
  {
    hide Flow.Valid;
    assert LivePath(f, [i], x) && [i][0] == i;
  }

  lemma CompareReads()
    ensures 2 in UsesAndDefs(JCondImm(Branch.Eq, 2, 0, 0)).useRegs
  {
  }

  lemma CompareUses()
    ensures |RegFlow(Alarm()).succs| == 6 == |RegFlow(Alarm()).uses| && 2 in RegFlow(Alarm()).uses[4]
  {
    CompareReads();
    hide StaticSuccessors, UsesAndDefs;
    var program := Alarm();
    assert |program| == 6 && program[4] == JCondImm(Branch.Eq, 2, 0, 0);
    hide Alarm;
    assert RegFlow(program).uses[4] == UsesAndDefs(program[4]).useRegs;
  }

  lemma LiveAtCompare(m: Masks)
    requires IsLiveness(Alarm(), m)
    ensures 2 in LiveAt(m.regs, 4)
  {
    CompareUses();
    hide RegFlow, SlotFlow, Flow.Valid, ReturnsInside, Alarm, Live, Universe;
    UsedIsLive(RegFlow(Alarm()), 4, 2);
    assert 4 < |m.regs| && (2 in m.regs[4] <==> Live(RegFlow(Alarm()), 4, 2));
  }

  lemma FarExits()
    ensures ExitsAt(Alarm(), (5, Far()))
  {
  }

  lemma AlarmNeverFails()
    ensures forall x: Point :: Reachable(Alarm(), x) ==> !C.Explore(Alarm(), x.0, x.1).Fails?
  {
    AlarmAccepted();
    hide Closed, Reachable, Alarm, C.Explore, States;
    forall x: Point | Reachable(Alarm(), x)
      ensures !C.Explore(Alarm(), x.0, x.1).Fails?
    {
      ReachableCovered(Alarm(), States(), x);
    }
  }

  /** The program is accepted and, by the whole-run theorem, safe; with exactly its
      cleaned abstract states recorded, the check reports a violation at the
      comparison. */
  lemma SafeProgramFlagged(m: Masks, states: Recorded)
    requires IsLiveness(Alarm(), m)
    requires 4 in states && states[4] == [CrossCheck.CleanAt(m, 4, Plain(AbstractAt(Num(Half()), Clamped())))]
    ensures Closed(Alarm(), States()) && (0, Start()) in States()
    ensures forall x: Point :: Reachable(Alarm(), x) ==> !C.Explore(Alarm(), x.0, x.1).Fails?
    ensures Reachable(Alarm(), (5, Far())) && ExitsAt(Alarm(), (5, Far()))
    ensures Worklist.CleanedReachable(Alarm(), m, Worklist.Cleaned(m, (4, Far())))
    ensures !CoveredBySome(false, states, Worklist.Cleaned(m, (4, Far())))
  {
    hide Half, Clamped, Far, Closed, Reachable, AbstractAt, Alarm, C.Explore, IsLiveness, StateCovers, LiveAt, States,
         CleanAbstract, ExitsAt, Start, Clean;
    AlarmAccepted();
    AlarmNeverFails();
    FarReachable();
    FarExits();
    LiveAtCompare(m);
    FarFlagged(m);
  }

  lemma FarFlagged(m: Masks)
    requires 2 in LiveAt(m.regs, 4)
    ensures !StateCovers(false, CrossCheck.CleanAt(m, 4, Plain(AbstractAt(Num(Half()), Clamped()))),
                         Worklist.Cleaned(m, (4, Far())).1)
  {
    FarOutside();
    hide Half, AddScalarAlign, Far, LiveAt, C.PtrOffset, CellCovers, Aligned;
    var a := CrossCheck.CleanAt(m, 4, Plain(AbstractAt(Num(Half()), Clamped())));
    assert a.regs[2] == Clamped();
    assert !RegisterCovers(false, a.regs[2], Worklist.Cleaned(m, (4, Far())).1.regs[2]);
  }
}
