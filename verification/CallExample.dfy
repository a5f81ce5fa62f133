/** A program with a call and a caller-frame store that the whole-run theorem covers. */
module CallExample {
  import opened Scalar
  import opened Insn
  import opened Abstract
  import opened Calls
  import opened CallSimulation

  /** main passes its frame pointer, and the callee stores through it. */
  function PassesFrame(): Program {
    [MovReg(1, 10), CallSub(1), Exit, StMemImm(0, 1, -8, B64), MovImm(0, 0), Exit]
  }

  function MainBefore(): Stacked { Start().(top := SetReg(Initial(), 1, PtrToStack(0, 0, 0, 0))) }

  function Entered(): Stacked { Enter(MainBefore(), 2).value }

  function Stored(): Stacked {
    var o := Entered().saved[0];
    var st := SpillStore(Focus(Entered(), 0), Access(0, 7, -8, true), Num(Const(0)));
    Entered().(saved := [o.(bytes := st.bytes, spilled := st.spilled)])
  }

  function Returning(): Stacked { Stored().(top := SetReg(Stored().top, 0, Num(Const(0)))) }

  function States(): Reach {
    iset{(0, Start()), (1, MainBefore()), (3, Entered()), (4, Stored()), (5, Returning()), (2, Leave(Returning()))}
  }

  lemma MoveExplored()
    ensures Explored(PassesFrame(), States(), 0, Start())
  {
    hide Enter, Leave, Stored, Returning, NoMarks, NoSpills;
    assert Abstract.MovReg(0, Initial(), 1, 10) == Ok(SetReg(Initial(), 1, PtrToStack(0, 0, 0, 0)));
    assert StackedSuccessors(0, Start(), MovReg(1, 10)).value == [(1, MainBefore())];
  }

  lemma CallExplored()
    ensures Explored(PassesFrame(), States(), 1, MainBefore())
  {
    hide Leave, Stored, Returning, NoMarks, NoSpills;
    assert Target(1, LowHalf(1)) == 3;
    assert StackedSuccessors(1, MainBefore(), CallSub(1)).value == [(3, Entered())];
  }

  lemma EnteredFrames()
    ensures var x := Entered();
            && |x.saved| == 1 == x.top.frame && x.retPc == 2 && x.top.regs[1] == PtrToStack(0, 0, 0, 0)
            && x.saved[0] == Outer(MainBefore().top.regs, NoMarks(), NoSpills(), 0)
  {
    hide NoMarks, NoSpills;
  }

  lemma StoreExplored()
    ensures Explored(PassesFrame(), States(), 3, Entered())
  {
    EnteredFrames();
    hide Entered, Leave, Returning, NoMarks, NoSpills, SpillStore, Const;
    assert CheckAccess(3, PtrToStack(0, 0, 0, 0), -8, 8) == Ok(Access(0, 7, -8, true));
    var x := Entered();
    var st := SpillStore(Focus(x, 0), Access(0, 7, -8, true), Num(Const(0)));
    assert StackWrite(3, Focus(x, 0), 1, -8, 8, Num(Const(0))) == Ok(st);
    assert x.saved[0 := x.saved[0].(bytes := st.bytes, spilled := st.spilled)] == Stored().saved;
    assert OuterStep(3, Entered(), StMemImm(0, 1, -8, B64)) == Ok(Stored());
    assert StackedSuccessors(3, Entered(), StMemImm(0, 1, -8, B64)).value == [(4, Stored())];
  }

  lemma ZeroExplored()
    ensures Explored(PassesFrame(), States(), 4, Stored())
  {
    hide Entered, Leave, SpillStore, Const;
    assert StackedSuccessors(4, Stored(), MovImm(0, 0)).value == [(5, Returning())];
  }

  lemma ReturnExplored()
    ensures Explored(PassesFrame(), States(), 5, Returning())
    ensures Explored(PassesFrame(), States(), 2, Leave(Returning()))
  {
    EnteredFrames();
    hide Entered, SpillStore, Const;
  }

  /** The premises of the theorem hold for it. */
  lemma PassesFrameAccepted()
    ensures Closed(PassesFrame(), States()) && (0, Start()) in States()
  {
    MoveExplored();
    CallExplored();
    StoreExplored();
    ZeroExplored();
    ReturnExplored();
    hide Explored, Start, MainBefore, Entered, Stored, Returning, Leave, PassesFrame;
  }
}
