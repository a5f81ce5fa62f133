/** Where the dead-state claim fails (`src/liveness.rs`): the analysis follows a call
    into the callee with the caller's registers and slots, and takes r10 for fixed. */
module LivenessLimits {
  import opened Scalar
  import opened Insn
  import opened Concrete
  import opened Liveness
  import opened DeadState

  /** Nothing reads x from i on before it is overwritten, if each instruction on the
      way either overwrites it or leads to such instructions only. */
  ghost predicate Blocks(f: Flow, dead: set<nat>, x: int)
    requires f.Valid()
  {
    forall i :: i in dead ==> i < |f.succs| && x !in f.uses[i] && (x in f.defs[i] || Leads(f, dead, i))
  }

  ghost predicate Leads(f: Flow, dead: set<nat>, i: nat)
    requires f.Valid() && i < |f.succs|
  {
    forall j :: 0 <= j < |f.succs[i]| ==> f.succs[i][j] in dead
  }

  lemma {:induction false} BlockedPath(f: Flow, dead: set<nat>, x: int, path: seq<nat>)
    requires f.Valid() && Blocks(f, dead, x) && LivePath(f, path, x)
    ensures path[0] !in dead
    decreases |path|
  {
    if |path| > 1 {
      PathTail(f, path, x);
      hide Flow.Valid, LivePath;
      assert path[0] in dead && x !in f.defs[path[0]] ==> Leads(f, dead, path[0]);
      BlockedPath(f, dead, x, path[1..]);
    }
  }

  lemma BlockedIsDead(f: Flow, dead: set<nat>, x: int, i: nat)
    requires f.Valid() && Blocks(f, dead, x) && i in dead && i < |f.succs|
    ensures !Live(f, i, x)
  {
    hide Flow.Valid, Blocks;
    if path: seq<nat> :| LivePath(f, path, x) && path[0] == i {
      BlockedPath(f, dead, x, path);
    }
  }

  // ── A register of the caller ─────────────────────────────────────────────

  /** main keeps a value in r6 across a call; the callee uses r6 for itself. */
  function KeepsSix(): Program {
    [MovImm(6, 1), CallSub(2), MovReg(0, 6), Exit, MovImm(6, 0), MovImm(0, 0), Exit]
  }

  lemma SixUses()
    ensures 6 !in UsesAndDefs(CallSub(2)).useRegs
    ensures 6 !in UsesAndDefs(MovImm(6, 0)).useRegs && 6 in UsesAndDefs(MovImm(6, 0)).defRegs
  {
    hide ReadSlots, WriteSlots;
  }

  lemma CallLeads()
    ensures StaticSuccessors(KeepsSix(), 1) == [4]
  {
    hide LastStart, ReturnSites;
  }

  lemma KeepsSixFlow()
    ensures var f := RegFlow(KeepsSix());
            && |f.succs| == 7 && |f.uses| == 7 && |f.defs| == 7 && f.succs[1] == [4]
            && 6 !in f.uses[1] && 6 !in f.uses[4] && 6 in f.defs[4]
  {
    SixUses();
    CallLeads();
    hide StaticSuccessors, UsesAndDefs;
    var program := KeepsSix();
    assert |program| == 7 && program[1] == CallSub(2) && program[4] == MovImm(6, 0);
    hide KeepsSix;
    assert RegFlow(program).uses[1] == UsesAndDefs(program[1]).useRegs;
    assert RegFlow(program).uses[4] == UsesAndDefs(program[4]).useRegs;
    assert RegFlow(program).defs[4] == UsesAndDefs(program[4]).defRegs;
    assert RegFlow(program).succs[1] == StaticSuccessors(program, 1);
  }

  /** The analysis takes r6 for dead before the call. */
  lemma SixIsDead(m: Masks)
    requires IsLiveness(KeepsSix(), m)
    ensures 6 !in LiveAt(m.regs, 1)
  {
    KeepsSixFlow();
    hide RegFlow, SlotFlow, Flow.Valid, ReturnsInside, KeepsSix, Live;
    var f := RegFlow(KeepsSix());
    SixBlocked();
    BlockedIsDead(f, {1, 4}, 6, 1);
    assert 1 < |m.regs| && (6 in m.regs[1] <==> Live(f, 1, 6));
  }

  lemma SixBlocked()
    requires RegFlow(KeepsSix()).Valid()
    ensures Blocks(RegFlow(KeepsSix()), {1, 4}, 6)
  {
    KeepsSixFlow();
    hide RegFlow, Flow.Valid;
    assert Leads(RegFlow(KeepsSix()), {1, 4}, 1);
  }

  /** One step of an observed run that is not cleaned here. */
  lemma NextEnding(program: Program, m: Masks, pc: nat, c: State, choices: seq<nat>, cleanNow: nat -> bool,
                   next: nat, d: State)
    requires choices != [] && choices[0] == 0 && !cleanNow(|choices|) && Explore(program, pc, c) == Next([(next, d)])
    ensures Observe(program, m, pc, c, choices, cleanNow).ending
            == Observe(program, m, next, d, choices[1..], cleanNow).ending
  {
    hide Explore, Clean;
  }

  /** The callee with its own r6, and main after the return. */
  function Callee(c: State): State
    requires c.curframe == 0
  {
    EnterSubprog(c, 2).value
  }

  function Back(c: State): State
    requires c.curframe == 0
  {
    LeaveSubprog(SetReg(SetReg(Callee(c), 6, Number(0)), 0, Number(0)))
  }

  lemma BackRegs(c: State)
    requires c.curframe == 0
    ensures Back(c).curframe == 0 && Back(c).regs[6] == c.regs[6]
  {
    var callee := SetReg(SetReg(Callee(c), 6, Number(0)), 0, Number(0));
    assert callee.curframe == 1 && callee.saved[0] == Some(Frame(c.regs, c.stack, c.retPc));
  }

  lemma CalleeSteps(c: State)
    requires c.curframe == 0
    ensures Explore(KeepsSix(), 1, c) == Next([(4, Callee(c))])
    ensures Explore(KeepsSix(), 4, Callee(c)) == Next([(5, SetReg(Callee(c), 6, Number(0)))])
    ensures Explore(KeepsSix(), 5, SetReg(Callee(c), 6, Number(0)))
            == Next([(6, SetReg(SetReg(Callee(c), 6, Number(0)), 0, Number(0)))])
    ensures Explore(KeepsSix(), 6, SetReg(SetReg(Callee(c), 6, Number(0)), 0, Number(0))) == Next([(2, Back(c))])
  {
    hide SaveFrame, CalleeRegs, LeaveSubprog;
    assert Target(1, 2) == 4;
  }

  /** What main makes of r6 after the call. */
  lemma MainEnds(m: Masks, c: State, cleanNow: nat -> bool)
    requires c.curframe == 0 && !cleanNow(1) && !cleanNow(0)
    ensures Observe(KeepsSix(), m, 2, c, [0], cleanNow).ending ==
            if c.regs[6].None? then Failed(UninitializedRead(2, 6)) else Exited(c.regs[6].value)
  {
    if c.regs[6].Some? {
      var d := SetReg(c, 0, c.regs[6].value);
      assert Explore(KeepsSix(), 2, c) == Next([(3, d)]);
      assert Explore(KeepsSix(), 3, d) == Exits;
      NextEnding(KeepsSix(), m, 2, c, [0], cleanNow, 3, d);
    } else {
      assert Explore(KeepsSix(), 2, c) == Outcome.Fails(UninitializedRead(2, 6));
    }
  }

  /** From the call on, uncleaned. */
  lemma CallEnds(m: Masks, c: State, cleanNow: nat -> bool)
    requires c.curframe == 0 && forall k: nat :: k < 5 ==> !cleanNow(k)
    ensures Observe(KeepsSix(), m, 4, Callee(c), [0, 0, 0, 0], cleanNow).ending ==
            if c.regs[6].None? then Failed(UninitializedRead(2, 6)) else Exited(c.regs[6].value)
  {
    CalleeSteps(c);
    BackRegs(c);
    hide Explore, Callee, Back, SetReg, Observe;
    var program := KeepsSix();
    var entered := SetReg(Callee(c), 6, Number(0));
    assert [0, 0, 0, 0][1..] == [0, 0, 0] && [0, 0, 0][1..] == [0, 0] && [0, 0][1..] == [0];
    NextEnding(program, m, 4, Callee(c), [0, 0, 0, 0], cleanNow, 5, entered);
    NextEnding(program, m, 5, entered, [0, 0, 0], cleanNow, 6, SetReg(entered, 0, Number(0)));
    NextEnding(program, m, 6, SetReg(entered, 0, Number(0)), [0, 0], cleanNow, 2, Back(c));
    MainEnds(m, Back(c), cleanNow);
  }

  function AfterFirst(): State { SetReg(Initial(), 6, Number(1)) }

  /** The states before the call, kept and cleaned. */
  lemma BeforeCall(m: Masks)
    requires IsLiveness(KeepsSix(), m)
    ensures Explore(KeepsSix(), 0, Initial()) == Next([(1, AfterFirst())])
    ensures AfterFirst().curframe == 0 && AfterFirst().regs[6] == Some(Number(1))
    ensures var c := Clean(AfterFirst(), LiveAt(m.regs, 1), LiveAt(m.slots, 1)); c.curframe == 0 && c.regs[6].None?
  {
    SixIsDead(m);
    hide LiveAt, NoCells, IsLiveness;
  }

  /** One step that is cleaned first. */
  lemma CleanedEnding(program: Program, m: Masks, pc: nat, c: State, choices: seq<nat>, cleanNow: nat -> bool,
                      next: nat, d: State)
    requires choices != [] && choices[0] == 0 && cleanNow(|choices|)
    requires Explore(program, pc, Clean(c, LiveAt(m.regs, pc), LiveAt(m.slots, pc))) == Next([(next, d)])
    ensures Observe(program, m, pc, c, choices, cleanNow).ending
            == Observe(program, m, next, d, choices[1..], cleanNow).ending
  {
    hide Explore, Clean;
  }

  lemma KeptEnds(m: Masks, cleanNow: nat -> bool)
    requires IsLiveness(KeepsSix(), m) && forall k: nat :: k < 7 ==> !cleanNow(k)
    ensures Observe(KeepsSix(), m, 0, Initial(), [0, 0, 0, 0, 0, 0], cleanNow).ending == Exited(Number(1))
  {
    BeforeCall(m);
    CalleeSteps(AfterFirst());
    hide Explore, AfterFirst, Callee, Back, SetReg, Initial, KeepsSix, IsLiveness, LiveAt, Clean, Observe;
    assert [0, 0, 0, 0, 0, 0][1..] == [0, 0, 0, 0, 0] && [0, 0, 0, 0, 0][1..] == [0, 0, 0, 0];
    NextEnding(KeepsSix(), m, 0, Initial(), [0, 0, 0, 0, 0, 0], cleanNow, 1, AfterFirst());
    NextEnding(KeepsSix(), m, 1, AfterFirst(), [0, 0, 0, 0, 0], cleanNow, 4, Callee(AfterFirst()));
    CallEnds(m, AfterFirst(), cleanNow);
  }

  lemma DroppedEnds(m: Masks, cleanNow: nat -> bool)
    requires IsLiveness(KeepsSix(), m) && forall k: nat :: cleanNow(k) <==> k == 5
    ensures Observe(KeepsSix(), m, 0, Initial(), [0, 0, 0, 0, 0, 0], cleanNow).ending == Failed(UninitializedRead(2, 6))
  {
    BeforeCall(m);
    var c := Clean(AfterFirst(), LiveAt(m.regs, 1), LiveAt(m.slots, 1));
    CalleeSteps(c);
    hide Explore, AfterFirst, Callee, Back, SetReg, Initial, KeepsSix, IsLiveness, LiveAt, Clean, Observe;
    assert [0, 0, 0, 0, 0, 0][1..] == [0, 0, 0, 0, 0] && [0, 0, 0, 0, 0][1..] == [0, 0, 0, 0];
    NextEnding(KeepsSix(), m, 0, Initial(), [0, 0, 0, 0, 0, 0], cleanNow, 1, AfterFirst());
    CleanedEnding(KeepsSix(), m, 1, AfterFirst(), [0, 0, 0, 0, 0], cleanNow, 4, Callee(c));
    CallEnds(m, c, cleanNow);
  }

  /** Cleaned before the call, the program reads an uninitialized register after it;
      left alone it returns 1. */
  lemma CalleeSavedCounterexample(m: Masks)
    requires IsLiveness(KeepsSix(), m)
    ensures Observe(KeepsSix(), m, 0, Initial(), [0, 0, 0, 0, 0, 0], _ => false).ending == Exited(Number(1))
    ensures Observe(KeepsSix(), m, 0, Initial(), [0, 0, 0, 0, 0, 0], k => k == 5).ending ==
            Failed(UninitializedRead(2, 6))
  {
    hide Observe, IsLiveness;
    KeptEnds(m, _ => false);
    DroppedEnds(m, k => k == 5);
  }

  // ── A moved frame pointer ────────────────────────────────────────────────

  /** Writes r10-16, moves r10 down and reads the same slot as r10-8. */
  function MovesTen(): Program {
    [StMemImm(1, 10, -16, B64), AluImm(Add, W64, 10, -8), LdMem(0, 10, -8, B64, false), Exit]
  }

  lemma TenReads()
    ensures UsesAndDefs(AluImm(Add, W64, 10, -8)).readSlots == {} == UsesAndDefs(Exit).readSlots
    ensures UsesAndDefs(LdMem(0, 10, -8, B64, false)).readSlots == {0}
  {
    hide UseRegs, DefRegs, WriteSlots, Universe;
    assert FixedSlot(-8) == Some(0);
  }

  lemma TenLeads()
    ensures StaticSuccessors(MovesTen(), 1) == [2] && StaticSuccessors(MovesTen(), 2) == [3]
    ensures StaticSuccessors(MovesTen(), 3) == []
  {
    var program := MovesTen();
    assert LastStart(program, 3, 0) == 0 && LastStart(program, 3, 1) == 0 && LastStart(program, 3, 2) == 0;
    assert LastStart(program, 3, 3) == 0;
    hide ReturnSites;
  }

  lemma MovesTenFlow()
    ensures var f := SlotFlow(MovesTen());
            && |f.succs| == 4 && |f.uses| == 4 && |f.defs| == 4
            && f.succs[1] == [2] && f.succs[2] == [3] && f.succs[3] == []
            && 1 !in f.uses[1] && 1 !in f.uses[2] && 1 !in f.uses[3]
  {
    TenReads();
    TenLeads();
    hide StaticSuccessors, UsesAndDefs;
    var program := MovesTen();
    assert |program| == 4 && program[1] == AluImm(Add, W64, 10, -8) && program[2] == LdMem(0, 10, -8, B64, false);
    assert program[3] == Exit;
    hide MovesTen;
    forall i | 1 <= i < 4
      ensures SlotFlow(program).uses[i] == UsesAndDefs(program[i]).readSlots
      ensures SlotFlow(program).succs[i] == StaticSuccessors(program, i)
    {
    }
  }

  lemma SlotOneDead(m: Masks)
    requires IsLiveness(MovesTen(), m)
    ensures 1 !in LiveAt(m.slots, 1)
  {
    MovesTenFlow();
    hide RegFlow, SlotFlow, Flow.Valid, ReturnsInside, MovesTen, Live;
    var f := SlotFlow(MovesTen());
    TenBlocked();
    BlockedIsDead(f, {1, 2, 3}, 1, 1);
    assert 1 < |m.slots| && (1 in m.slots[1] <==> Live(f, 1, 1));
  }

  lemma TenBlocked()
    requires SlotFlow(MovesTen()).Valid()
    ensures Blocks(SlotFlow(MovesTen()), {1, 2, 3}, 1)
  {
    MovesTenFlow();
    hide SlotFlow, Flow.Valid;
    var f := SlotFlow(MovesTen());
    assert Leads(f, {1, 2, 3}, 1) && Leads(f, {1, 2, 3}, 2) && Leads(f, {1, 2, 3}, 3);
  }

  /** The state after the store. */
  function AfterStore(): State { Initial().(stack := NoCells()[1 := Some(Number(1))]) }

  function Moved(c: State): State { SetReg(c, 10, StackPtr(STACK_BASE - 8, 0)) }

  lemma TenStores()
    ensures Explore(MovesTen(), 0, Initial()) == Next([(1, AfterStore())])
  {
    assert AccessOffset(STACK_BASE, -16) == -16;
    assert Locate(0, Initial(), 10, -16, 8) == Ok(Place(0, 1, 0, -16));
    hide Locate;
    assert Step(0, Initial(), StMemImm(1, 10, -16, B64)) == Ok(AfterStore());
  }

  lemma TenMoves(c: State)
    requires c.regs[10] == Some(StackPtr(STACK_BASE, 0)) && c.curframe == 0
    ensures Explore(MovesTen(), 1, c) == Next([(2, Moved(c))])
    ensures c.stack[1].None? ==> Explore(MovesTen(), 2, Moved(c)) == Outcome.Fails(UninitializedStackRead(2, -16))
    ensures c.stack[1].Some? ==> Explore(MovesTen(), 2, Moved(c)) == Next([(3, SetReg(Moved(c), 0, c.stack[1].value))])
  {
    assert PtrOffset(STACK_BASE) == 0 && AccessOffset(STACK_BASE - 8, -8) == -16;
    assert Locate(2, Moved(c), 10, -8, 8) == Ok(Place(0, 1, 0, -16));
    hide Locate, AccessOffset, PtrOffset;
  }

  lemma TenEnds(m: Masks, c: State, cleanNow: nat -> bool)
    requires c.regs[10] == Some(StackPtr(STACK_BASE, 0)) && c.curframe == 0 && !cleanNow(1) && !cleanNow(0)
    ensures Observe(MovesTen(), m, 2, Moved(c), [0], cleanNow).ending ==
            if c.stack[1].None? then Failed(UninitializedStackRead(2, -16)) else Exited(c.stack[1].value)
  {
    TenMoves(c);
    if c.stack[1].Some? {
      var d := SetReg(Moved(c), 0, c.stack[1].value);
      assert Explore(MovesTen(), 3, d) == Exits && d.regs[0] == Some(c.stack[1].value);
      hide Explore, Moved;
      NextEnding(MovesTen(), m, 2, Moved(c), [0], cleanNow, 3, d);
    } else {
      hide Explore, Moved;
    }
  }

  lemma CleanStore(m: Masks)
    requires IsLiveness(MovesTen(), m)
    ensures var c := Clean(AfterStore(), LiveAt(m.regs, 1), LiveAt(m.slots, 1));
            c.regs[10] == Some(StackPtr(STACK_BASE, 0)) && c.curframe == 0 && c.stack[1].None?
    ensures AfterStore().regs[10] == Some(StackPtr(STACK_BASE, 0)) && AfterStore().curframe == 0
    ensures AfterStore().stack[1] == Some(Number(1))
  {
    SlotOneDead(m);
    hide LiveAt, IsLiveness;
  }

  /** Cleaned after the store, the program reads an uninitialized slot; left alone it
      returns 1. */
  lemma MovedFrameCounterexample(m: Masks)
    requires IsLiveness(MovesTen(), m)
    ensures Observe(MovesTen(), m, 0, Initial(), [0, 0, 0], _ => false).ending == Exited(Number(1))
    ensures Observe(MovesTen(), m, 0, Initial(), [0, 0, 0], k => k == 2).ending ==
            Failed(UninitializedStackRead(2, -16))
  {
    CleanStore(m);
    TenStores();
    var kept, dropped := AfterStore(), Clean(AfterStore(), LiveAt(m.regs, 1), LiveAt(m.slots, 1));
    TenMoves(kept);
    TenMoves(dropped);
    hide Explore, AfterStore, Moved, SetReg, Initial, MovesTen, IsLiveness, LiveAt, Clean, Observe;
    assert [0, 0, 0][1..] == [0, 0] && [0, 0][1..] == [0];
    var plain, once: nat -> bool := _ => false, k => k == 2;
    NextEnding(MovesTen(), m, 0, Initial(), [0, 0, 0], plain, 1, kept);
    NextEnding(MovesTen(), m, 1, kept, [0, 0], plain, 2, Moved(kept));
    TenEnds(m, kept, plain);
    NextEnding(MovesTen(), m, 0, Initial(), [0, 0, 0], once, 1, kept);
    CleanedEnding(MovesTen(), m, 1, kept, [0, 0], once, 2, Moved(dropped));
    TenEnds(m, dropped, once);
  }
}
