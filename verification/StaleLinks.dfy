/** A move inside a loop meets its own link id again (`src/exec.rs`): both
    interpreters run, from their initial states, to a state that is not covered. */
module StaleLinks {
  import opened Words
  import opened TnumDomain
  import opened Scalar
  import opened AluSound
  import opened Insn
  import opened Abstract
  import opened Coverage
  import opened Runs
  import opened AbstractRuns
  import C = Concrete

  /** r7 keeps the number of the first pass, r0 and r6 that of the second. */
  function TwoPasses(): Program { [Call(7), MovReg(6, 0), MovReg(7, 6), Call(7), Jmp(-4)] }

  const U := RegState.Uninit
  const R10 := PtrToStack(0, 0, 0, 0)

  function Fresh(): RegState { Num(Top()) }

  function Linked(): RegState { Num(Top().(id := 2)) }

  function AbstractAt(r0: RegState, r6: RegState, r7: RegState): State {
    State([r0, U, U, U, U, U, r6, r7, U, U, R10], NoMarks(), NoSpills(), [], 0)
  }

  function Number(x: U64): Option<C.Value> { Some(C.Number(x)) }

  function ConcreteAt(r0: Option<C.Value>, r6: Option<C.Value>, r7: Option<C.Value>): C.State {
    C.Initial().(regs := [r0, None, None, None, None, None, r6, r7, None, None, Some(C.StackPtr(C.STACK_BASE, 0))])
  }

  // ── The two interpreters on the five instructions ────────────────────────

  lemma AbstractCall(pc: U32, r0: RegState, r6: RegState, r7: RegState)
    requires pc == 0 || pc == 3
    ensures Leads(TwoPasses(), (pc, AbstractAt(r0, r6, r7)), (pc + 1, AbstractAt(Fresh(), r6, r7)))
  {
    var st, next := AbstractAt(r0, r6, r7), AbstractAt(Fresh(), r6, r7);
    assert AfterCall(st, Fresh()).regs == next.regs;
    assert Successors(pc, st, TwoPasses()[pc]) == Ok([(pc + 1, next)]);
  }

  lemma AbstractStart()
    ensures Leads(TwoPasses(), (0, Initial()), (1, AbstractAt(Fresh(), U, U)))
  {
    var next := AbstractAt(Fresh(), U, U);
    assert AfterCall(Initial(), Fresh()).regs == next.regs;
    assert Successors(0, Initial(), TwoPasses()[0]) == Ok([(1, next)]);
  }

  lemma AbstractMoves(r7: RegState)
    ensures Leads(TwoPasses(), (1, AbstractAt(Fresh(), U, r7)), (2, AbstractAt(Linked(), Linked(), r7)))
    ensures Leads(TwoPasses(), (1, AbstractAt(Fresh(), Linked(), r7)), (2, AbstractAt(Linked(), Linked(), r7)))
    ensures Leads(TwoPasses(), (2, AbstractAt(Linked(), Linked(), r7)), (3, AbstractAt(Linked(), Linked(), Linked())))
  {
    hide NoMarks, NoSpills;
    AbstractMove(U, r7);
    AbstractMove(Linked(), r7);
    var st, next := AbstractAt(Linked(), Linked(), r7), AbstractAt(Linked(), Linked(), Linked());
    assert SetReg(st, 7, Linked()).regs == next.regs;
    assert Successors(2, st, TwoPasses()[2]) == Ok([(3, next)]);
  }

  lemma AbstractMove(r6: RegState, r7: RegState)
    ensures Leads(TwoPasses(), (1, AbstractAt(Fresh(), r6, r7)), (2, AbstractAt(Linked(), Linked(), r7)))
  {
    hide NoMarks, NoSpills;
    var st, next := AbstractAt(Fresh(), r6, r7), AbstractAt(Linked(), Linked(), r7);
    assert NeedsLink(Fresh());
    assert SetReg(SetReg(st, 0, Linked()), 6, Linked()).regs == next.regs;
    assert Successors(1, st, TwoPasses()[1]) == Ok([(2, next)]);
  }

  lemma AbstractBack(st: State)
    ensures Leads(TwoPasses(), (4, st), (1, st))
  {
    assert Target(4, -4) == 1;
  }

  lemma ConcreteCall(pc: U32, st: C.State, r6: Option<C.Value>, r7: Option<C.Value>, x: U64)
    requires (pc == 0 || pc == 3) && x <= 1 && st == C.Initial().(regs := st.regs)
    requires st.regs[6] == r6 && st.regs[7] == r7 && st.regs[8].None? && st.regs[9].None?
    requires st.regs[10] == Some(C.StackPtr(C.STACK_BASE, 0))
    ensures Steps(TwoPasses(), (pc, st), (pc + 1, ConcreteAt(Number(x), r6, r7)))
  {
    var next := ConcreteAt(Number(x), r6, r7);
    var base := st.(regs := C.Clobber(st.regs));
    assert C.SetReg(base, 0, C.Number(x)).regs == next.regs;
    var states := C.CallHelper(pc, st, 7).value;
    assert states[x] == next;
    assert C.Each(pc, states)[x] == (pc + 1, next);
    assert C.Explore(TwoPasses(), pc, st) == C.Next(C.Each(pc, states));
  }

  lemma ConcreteMoves(x: U64, r6: Option<C.Value>, r7: Option<C.Value>)
    ensures Steps(TwoPasses(), (1, ConcreteAt(Number(x), r6, r7)), (2, ConcreteAt(Number(x), Number(x), r7)))
    ensures Steps(TwoPasses(), (2, ConcreteAt(Number(x), Number(x), r7)),
            (3, ConcreteAt(Number(x), Number(x), Number(x))))
  {
    var st, mid, next := ConcreteAt(Number(x), r6, r7), ConcreteAt(Number(x), Number(x), r7),
        ConcreteAt(Number(x), Number(x), Number(x));
    assert C.SetReg(st, 6, C.Number(x)).regs == mid.regs;
    assert C.SetReg(mid, 7, C.Number(x)).regs == next.regs;
    assert C.Explore(TwoPasses(), 1, st) == C.Next([(2, mid)]);
    assert C.Explore(TwoPasses(), 2, mid) == C.Next([(3, next)]);
  }

  lemma ConcreteBack(st: C.State)
    ensures Steps(TwoPasses(), (4, st), (1, st))
  {
    assert Target(4, -4) == 1;
    assert C.Explore(TwoPasses(), 4, st) == C.Next([(1, st)]);
  }

  // ── The second pass breaks the link ──────────────────────────────────────

  /** What the abstract interpreter has before and after the second move. */
  function Before(): State { AbstractAt(Fresh(), Linked(), Linked()) }

  function After(): State { AbstractAt(Linked(), Linked(), Linked()) }

  function Path(): seq<(nat, State)> {
    [(0, Initial()), (1, AbstractAt(Fresh(), U, U)), (2, AbstractAt(Linked(), Linked(), U)), (3, After()),
        (4, Before()),
     (1, Before()), (2, After())]
  }

  lemma PathLeads()
    ensures AbstractPath(TwoPasses(), Path())
  {
    hide Leads, AbstractAt, Linked, Fresh, TwoPasses;
    AbstractStart();
    AbstractMoves(U);
    AbstractMoves(Linked());
    AbstractCall(3, Linked(), Linked(), Linked());
    AbstractBack(Before());
    var path := Path();
    forall i: nat | 0 < i < |path|
      ensures LeadsAt(TwoPasses(), path, i)
    {
      if i == 1 { assert LeadsAt(TwoPasses(), path, 1); }
      else if i == 2 { assert LeadsAt(TwoPasses(), path, 2); }
      else if i == 3 { assert LeadsAt(TwoPasses(), path, 3); }
      else if i == 4 { assert LeadsAt(TwoPasses(), path, 4); }
      else if i == 5 { assert LeadsAt(TwoPasses(), path, 5); }
      else { assert LeadsAt(TwoPasses(), path, 6); }
    }
  }

  lemma ConcreteReaches()
    ensures Reachable(TwoPasses(), (1, ConcreteAt(Number(1), Number(0), Number(0))))
    ensures Reachable(TwoPasses(), (2, ConcreteAt(Number(1), Number(1), Number(0))))
  {
    hide Steps, Reachable, TwoPasses;
    var program := TwoPasses();
    ConcreteCall(0, C.Initial(), None, None, 0);
    hide ConcreteAt;
    ConcreteMoves(0, None, None);
    ConcreteSecondCall();
    ConcreteBack(ConcreteAt(Number(1), Number(0), Number(0)));
    ConcreteMoves(1, Number(0), Number(0));
    InitialReachable(program);
    StepReachable(program, (0, C.Initial()), (1, ConcreteAt(Number(0), None, None)));
    StepReachable(program, (1, ConcreteAt(Number(0), None, None)), (2, ConcreteAt(Number(0), Number(0), None)));
    StepReachable(program, (2, ConcreteAt(Number(0), Number(0), None)),
        (3, ConcreteAt(Number(0), Number(0), Number(0))));
    StepReachable(program, (3, ConcreteAt(Number(0), Number(0), Number(0))),
        (4, ConcreteAt(Number(1), Number(0), Number(0))));
    StepReachable(program, (4, ConcreteAt(Number(1), Number(0), Number(0))),
        (1, ConcreteAt(Number(1), Number(0), Number(0))));
    StepReachable(program, (1, ConcreteAt(Number(1), Number(0), Number(0))),
        (2, ConcreteAt(Number(1), Number(1), Number(0))));
  }

  lemma ConcreteSecondCall()
    ensures Steps(TwoPasses(), (3, ConcreteAt(Number(0), Number(0), Number(0))),
            (4, ConcreteAt(Number(1), Number(0), Number(0))))
  {
    hide Steps, TwoPasses;
    ConcreteCall(3, ConcreteAt(Number(0), Number(0), Number(0)), Number(0), Number(0), 1);
  }

  ghost predicate Excludes(v: RegState, x: U64) { v.Num? && !Gamma(v.b, x) }

  /** Both interpreters reach the move at pc 1 a second time, still covered; behind
      it nothing covers the concrete state, and a sync that refines r6 to its
      value 1 loses the 0 in r7. */
  lemma StaleLinkCounterexample()
    ensures AbstractPath(TwoPasses(), Path()) && Path()[5] == (1, Before()) && Path()[6] == (2, After())
    ensures Reachable(TwoPasses(), (1, ConcreteAt(Number(1), Number(0), Number(0))))
    ensures Reachable(TwoPasses(), (2, ConcreteAt(Number(1), Number(1), Number(0))))
    ensures Covers(Before(), ConcreteAt(Number(1), Number(0), Number(0)))
    ensures !LinkRel(After(), ConcreteAt(Number(1), Number(1), Number(0)))
    ensures !Covers(After(), ConcreteAt(Number(1), Number(1), Number(0)))
    ensures Excludes(SyncLinked(After(), 2, 0, Const(1)).regs[7], 0)
  {
    hide Reachable, AbstractPath;
    PathLeads();
    ConcreteReaches();
    StillCovered();
    LinkBroken();
    SyncLoses();
  }

  lemma StillCovered()
    ensures Covers(Before(), ConcreteAt(Number(1), Number(0), Number(0)))
  {
    hide Tnum.Contains, Tnum.Wf, SlotCovers;
    var base: Base := _ => 0;
    var a, c := Before(), ConcreteAt(Number(1), Number(0), Number(0));
    TopSound(0);
    TopSound(1);
    LinkedTop(0);
    EmptyStackCovers(base, a, c.stack);
    assert RegsCover(base, a, c);
    assert CoversOn(base, a, c);
  }

  lemma LinkedTop(x: U64)
    ensures Gamma(Linked().b, x) && Linked().b.tnum.Wf()
  {
    TopSound(x);
  }

  lemma LinkBroken()
    ensures !LinkRel(After(), ConcreteAt(Number(1), Number(1), Number(0)))
    ensures !Covers(After(), ConcreteAt(Number(1), Number(1), Number(0)))
  {
    var a, c := After(), ConcreteAt(Number(1), Number(1), Number(0));
    assert InGroup(a, 6, 2) && InGroup(a, 7, 2) && Anchor(a, c, 6) == 1 && Anchor(a, c, 7) == 0;
    hide CoversOn, AllOnBase;
    if base: Base :| CoversOn(base, a, c) {
      CoversLinks(base, a, c);
      assert false;
    }
  }

  lemma SyncLoses()
    ensures Excludes(SyncLinked(After(), 2, 0, Const(1)).regs[7], 0)
  {
    hide Tnum.Contains, FullSpill;
    ConstSound(1, 0);
  }
}
