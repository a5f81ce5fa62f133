/** Dropping dead state is invisible (`src/liveness.rs`, `src/concrete.rs`): concrete
    states that agree on the live registers and slots have the same failures,
    branches and exit values. */
module DeadState {
  import opened Words
  import opened Bits
  import opened TnumDomain
  import opened Scalar
  import opened Branch
  import opened Insn
  import opened Concrete
  import opened Liveness

  /** The programs the claim is about: no BPF-to-BPF calls and no write to r10. */
  ghost predicate Eligible(program: Program) {
    forall i :: 0 <= i < |program| ==> !program[i].CallSub? && 10 !in UsesAndDefs(program[i]).defRegs
  }

  function LiveAt(masks: seq<set<int>>, pc: nat): set<int> { if pc < |masks| then masks[pc] else {} }

  // ── Cleaning ─────────────────────────────────────────────────────────────

  predicate Kept(r: nat, live: set<int>) { r == 10 || r in live }

  /** `clean_concrete_state` */
  function Clean(st: State, regs: set<int>, slots: set<int>): State {
    st.(regs := seq(11, r requires 0 <= r < 11 => if Kept(r, regs) then st.regs[r] else None),
        stack := seq(64, s requires 0 <= s < 64 => if s in slots then st.stack[s] else None))
  }

  // ── Agreement ────────────────────────────────────────────────────────────

  /** Both states run in the outermost frame with an intact frame pointer. */
  predicate OuterFrame(c: State) { c.curframe == 0 && c.regs[10] == Some(StackPtr(STACK_BASE, 0)) }

  ghost predicate AgreeOn(c: State, d: State, regs: set<int>, slots: set<int>) {
    && OuterFrame(c) && OuterFrame(d) && c.saved == d.saved && c.retPc == d.retPc
    && (forall r :: 0 <= r < 11 && r in regs ==> c.regs[r] == d.regs[r])
    && (forall s :: 0 <= s < 64 && s in slots ==> c.stack[s] == d.stack[s])
  }

  ghost predicate Agree(m: Masks, pc: nat, c: State, d: State) {
    AgreeOn(c, d, LiveAt(m.regs, pc), LiveAt(m.slots, pc))
  }

  lemma CleanAgrees(m: Masks, pc: nat, c: State)
    requires OuterFrame(c)
    ensures Agree(m, pc, c, Clean(c, LiveAt(m.regs, pc), LiveAt(m.slots, pc)))
  {
  }

  /** Two states evolve alike under one instruction: what it defines is equal
      afterwards and equal places stay equal. */
  ghost predicate Alike(c: State, d: State, c': State, d': State, ud: UseDef) {
    && OuterFrame(c') && OuterFrame(d') && c'.saved == d'.saved && c'.retPc == d'.retPc
    && (forall r :: 0 <= r < 11 && (r in ud.defRegs || c.regs[r] == d.regs[r]) ==> c'.regs[r] == d'.regs[r])
    && (forall s :: 0 <= s < 64 && (s in ud.writeSlots || c.stack[s] == d.stack[s]) ==> c'.stack[s] == d'.stack[s])
  }

  /** The results of one instruction on two states. */
  ghost predicate AlikeResults(c: State, d: State, x: Result<State, Failure>, y: Result<State, Failure>, ud: UseDef) {
    match x
    case Err(e) => y == Err(e)
    case Ok(c') => y.Ok? && Alike(c, d, c', y.value, ud)
  }

  // ── Instructions ─────────────────────────────────────────────────────────

  lemma SetAlike(c: State, d: State, dst: Reg, v: Value, ud: UseDef)
    requires AgreeOn(c, d, ud.useRegs, ud.readSlots) && dst in ud.defRegs && ud.defRegs == {dst} && dst != 10
             && ud.writeSlots == {}
    ensures Alike(c, d, SetReg(c, dst, v), SetReg(d, dst, v), ud)
  {
  }

  predicate IsRegisterOnly(insn: Insn) {
    insn.MovImm? || insn.Mov32Imm? || insn.Mov32Reg? || insn.MovReg? || insn.NegReg? || insn.LdImm64?
        || insn.AluImm? || insn.AluReg?
  }

  /** Registers an instruction reads are equal on both sides. */
  lemma InputsEqual(c: State, d: State, insn: Insn)
    requires AgreeOn(c, d, UsesAndDefs(insn).useRegs, UsesAndDefs(insn).readSlots)
    ensures insn.MovReg? || insn.Mov32Reg? || insn.AluReg? || insn.JCond? || insn.Jset? || insn.StMem? ==>
              c.regs[insn.src] == d.regs[insn.src]
    ensures insn.AluImm? || insn.NegReg? || insn.AluReg? || insn.IsConditional() ==>
            c.regs[insn.dst] == d.regs[insn.dst]
    ensures insn.LdMem? || insn.StMem? || insn.StMemImm? ==> c.regs[insn.base] == d.regs[insn.base]
    ensures insn.Call? ==> c.regs[1] == d.regs[1]
    ensures insn.Exit? ==> c.regs[0] == d.regs[0]
    ensures c.curframe == 0 == d.curframe && OuterFrame(c) && OuterFrame(d) && c.saved == d.saved && c.retPc == d.retPc
  {
    hide DefRegs, ReadSlots, WriteSlots;
    var uses := UseRegs(insn);
    assert forall r :: 0 <= r < 11 && r in uses ==> c.regs[r] == d.regs[r];
  }

  /** Both sides fail alike or write the same value to the same register. */
  ghost predicate SameWrite(c: State, d: State, dst: Reg, x: Result<State, Failure>, y: Result<State, Failure>) {
    match x
    case Err(e) => y == Err(e)
    case Ok(c') =>
      c'.regs[dst].Some? && c' == SetReg(c, dst, c'.regs[dst].value) && y == Ok(SetReg(d, dst, c'.regs[dst].value))
  }

  lemma SameWriteAlike(c: State, d: State, insn: Insn, x: Result<State, Failure>, y: Result<State, Failure>)
    requires DefinesDst(insn) && insn.dst != 10 && SameWrite(c, d, insn.dst, x, y)
    requires AgreeOn(c, d, UsesAndDefs(insn).useRegs, UsesAndDefs(insn).readSlots)
    ensures AlikeResults(c, d, x, y, UsesAndDefs(insn))
  {
    hide UseRegs, ReadSlots, Alike;
    if x.Ok? {
      SetAlike(c, d, insn.dst, x.value.regs[insn.dst].value, UsesAndDefs(insn));
    }
  }

  lemma RegisterSame(pc: nat, c: State, d: State, insn: Insn)
    requires IsRegisterOnly(insn)
    requires insn.MovReg? || insn.Mov32Reg? || insn.AluReg? ==> c.regs[insn.src] == d.regs[insn.src]
    requires insn.AluImm? || insn.NegReg? || insn.AluReg? ==> c.regs[insn.dst] == d.regs[insn.dst]
    ensures SameWrite(c, d, insn.dst, Step(pc, c, insn), Step(pc, d, insn))
  {
    hide AluConst, Wrap64, Wrap32, Signed64, SaturateI64, PtrOffset;
  }

  lemma RegisterStep(pc: nat, c: State, d: State, insn: Insn)
    requires IsRegisterOnly(insn) && insn.dst != 10
    requires AgreeOn(c, d, UsesAndDefs(insn).useRegs, UsesAndDefs(insn).readSlots)
    ensures AlikeResults(c, d, Step(pc, c, insn), Step(pc, d, insn), UsesAndDefs(insn))
  {
    hide Step, AgreeOn, UsesAndDefs, SameWrite, AlikeResults;
    InputsEqual(c, d, insn);
    RegisterSame(pc, c, d, insn);
    SameWriteAlike(c, d, insn, Step(pc, c, insn), Step(pc, d, insn));
  }

  lemma FrameOffset(off: I16)
    ensures AccessOffset(STACK_BASE, off) == off
  {
  }

  /** Both sides locate an access at the same place. */
  lemma LocateSame(pc: nat, c: State, d: State, base: Reg, off: I16, size: nat)
    requires OuterFrame(c) && OuterFrame(d) && c.saved == d.saved && c.regs[base] == d.regs[base] && ValidSize(size)
    ensures Locate(pc, c, base, off, size) == Locate(pc, d, base, off, size)
    ensures Locate(pc, c, base, off, size).Ok? && base == 10 && FixedSlot(off).Some? ==>
              var p := Locate(pc, c, base, off, size).value; p.frameno == 0 && p.slot == FixedSlot(off).value
  {
    hide AccessOffset;
    FrameOffset(off);
  }

  lemma LoadSame(pc: nat, c: State, d: State, dst: Reg, base: Reg, off: I16, size: nat, signExtend: bool)
    requires OuterFrame(c) && OuterFrame(d) && c.saved == d.saved && c.regs[base] == d.regs[base] && ValidSize(size)
    requires forall s :: 0 <= s < 64 && s in ReadSlotsFor(base, off) ==> c.stack[s] == d.stack[s]
    ensures SameWrite(c, d, dst, Load(pc, c, dst, base, off, size, signExtend),
            Load(pc, d, dst, base, off, size, signExtend))
  {
    hide Locate, Extract, FixedSlot, ReadSlotsFor;
    LocateSame(pc, c, d, base, off, size);
    var x := Locate(pc, c, base, off, size);
    if x.Ok? {
      SlotIsRead(base, off, x.value.slot);
    }
  }

  lemma SlotIsRead(base: Reg, off: I16, slot: nat)
    requires slot < 64
    ensures (base == 10 && FixedSlot(off).Some? ==> slot == FixedSlot(off).value) ==> slot in ReadSlotsFor(base, off)
  {
    hide FixedSlot;
  }

  lemma LoadStep(pc: nat, c: State, d: State, insn: Insn)
    requires insn.LdMem? && insn.dst != 10
    requires AgreeOn(c, d, UsesAndDefs(insn).useRegs, UsesAndDefs(insn).readSlots)
    ensures AlikeResults(c, d, Step(pc, c, insn), Step(pc, d, insn), UsesAndDefs(insn))
  {
    hide Load, UseRegs, DefRegs, WriteSlots, ReadSlotsFor, OuterFrame, SameWrite, AlikeResults;
    InputsEqual(c, d, insn);
    LoadSame(pc, c, d, insn.dst, insn.base, insn.offset, insn.size.Bytes(), insn.signExtend);
    SameWriteAlike(c, d, insn, Step(pc, c, insn), Step(pc, d, insn));
  }

  /** The new content of the stored cell. */
  function StoredCell(prior: Option<Value>, inSlot: nat, size: nat, value: Option<Value>): Option<Value>
    requires ValidSize(size) && inSlot + size <= 8
  {
    if value.None? then None else Some(MergeCell(prior, inSlot, size, value.value))
  }

  lemma StoreIs(pc: nat, c: State, value: Option<Value>, base: Reg, off: I16, size: nat)
    requires ValidSize(size) && Locate(pc, c, base, off, size).Ok?
    ensures var p := Locate(pc, c, base, off, size).value;
            var cells := FrameStack(c, p.frameno).value;
            Store(pc, c, value, base, off, size) ==
            Ok(SetFrameStack(c, p.frameno, cells[p.slot := StoredCell(cells[p.slot], p.inSlot, size, value)]))
  {
    hide Locate, MergeCell;
  }

  lemma WholeCellIgnoresOld(x: Option<Value>, y: Option<Value>, value: Option<Value>)
    ensures StoredCell(x, 0, 8, value) == StoredCell(y, 0, 8, value)
  {
    hide And64, Or64, Not64, Shl;
  }

  lemma StoreStep(pc: nat, c: State, d: State, value: Option<Value>, base: Reg, off: I16, size: MemSize, ud: UseDef)
    requires AgreeOn(c, d, ud.useRegs, ud.readSlots) && c.regs[base] == d.regs[base] && ud.defRegs == {}
    requires ud.writeSlots == WriteSlotsFor(base, off, size)
    ensures AlikeResults(c, d, Store(pc, c, value, base, off, size.Bytes()),
            Store(pc, d, value, base, off, size.Bytes()), ud)
  {
    hide Locate, MergeCell, FixedSlot, StoredCell;
    LocateSame(pc, c, d, base, off, size.Bytes());
    var x := Locate(pc, c, base, off, size.Bytes());
    if x.Ok? {
      var p := x.value;
      StoreIs(pc, c, value, base, off, size.Bytes());
      StoreIs(pc, d, value, base, off, size.Bytes());
      if p.frameno == 0 && size.B64? {
        WholeCellIgnoresOld(c.stack[p.slot], d.stack[p.slot], value);
      }
    }
  }

  lemma UnchangedAlike(c: State, d: State, insn: Insn)
    requires AgreeOn(c, d, UsesAndDefs(insn).useRegs, UsesAndDefs(insn).readSlots)
    requires insn.IsConditional() || insn.Jmp? || insn.LdImm64Second?
    ensures Alike(c, d, c, d, UsesAndDefs(insn))
  {
    hide UseRegs, ReadSlots, OuterFrame;
  }

  lemma PlainStep(pc: nat, c: State, d: State, insn: Insn)
    requires !insn.IsConditional() && !insn.Jmp? && !insn.Exit? && !insn.CallSub? && !insn.Call?
    requires 10 !in UsesAndDefs(insn).defRegs && AgreeOn(c, d, UsesAndDefs(insn).useRegs, UsesAndDefs(insn).readSlots)
    ensures AlikeResults(c, d, Step(pc, c, insn), Step(pc, d, insn), UsesAndDefs(insn))
  {
    hide Store, Load, AluWithImm, AluWithReg, AluConst, WriteSlotsFor, ReadSlotsFor, AgreeOn, Alike, UseRegs;
    var ud := UsesAndDefs(insn);
    InputsEqual(c, d, insn);
    if IsRegisterOnly(insn) {
      RegisterStep(pc, c, d, insn);
    } else if insn.LdMem? {
      LoadStep(pc, c, d, insn);
    } else if insn.StMem? {
      StoreStep(pc, c, d, c.regs[insn.src], insn.base, insn.offset, insn.size, ud);
    } else if insn.StMemImm? {
      StoreStep(pc, c, d, Some(Number(Wrap64(insn.imm))), insn.base, insn.offset, insn.size, ud);
    } else if insn.LdImm64Second? {
      UnchangedAlike(c, d, insn);
    }
  }

  lemma ClobberAlike(c: State, d: State, imm: I32, r0: U64)
    requires AgreeOn(c, d, UsesAndDefs(Call(imm)).useRegs, UsesAndDefs(Call(imm)).readSlots)
    ensures Alike(c, d, SetReg(c.(regs := Clobber(c.regs)), 0, Number(r0)),
            SetReg(d.(regs := Clobber(d.regs)), 0, Number(r0)),
                  UsesAndDefs(Call(imm)))
  {
    hide UseRegs, ReadSlots, SetReg, Clobber;
    ClobberedRegs(c, r0);
    ClobberedRegs(d, r0);
  }

  lemma ClobberedRegs(c: State, r0: U64)
    ensures var c' := SetReg(c.(regs := Clobber(c.regs)), 0, Number(r0));
            && c' == c.(regs := c'.regs)
            && forall r :: 0 <= r < 11 ==>
                c'.regs[r] == if r == 0 then Some(Number(r0)) else if r < 6 then None else c.regs[r]
  {
  }

  lemma CallStep(pc: nat, c: State, d: State, imm: I32, k: nat)
    requires AgreeOn(c, d, UsesAndDefs(Call(imm)).useRegs, UsesAndDefs(Call(imm)).readSlots)
    ensures var x, y := CallHelper(pc, c, imm), CallHelper(pc, d, imm);
            if x.Err? then y == x
            else y.Ok? && |y.value| == |x.value|
                 && (k < |x.value| ==> Alike(c, d, x.value[k], y.value[k], UsesAndDefs(Call(imm))))
  {
    hide Alike, Clobber, UsesAndDefs, AgreeOn;
    InputsEqual(c, d, Call(imm));
    ClobberAlike(c, d, imm, if k == 0 then 0 else if k == 1 then 1 else U64_MAX);
  }

  lemma ConditionalSame(pc: U32, c: State, d: State, insn: Insn)
    requires insn.IsConditional() && c.regs[insn.dst] == d.regs[insn.dst]
    requires insn.JCond? || insn.Jset? ==> c.regs[insn.src] == d.regs[insn.src]
    ensures var x, y := Conditional(pc, c, insn), Conditional(pc, d, insn);
            if x.Err? then y == x
            else y.Ok? && |x.value| == |y.value| == 1 && x.value[0].0 == y.value[0].0
                 && x.value[0].1 == c && y.value[0].1 == d
                 && (x.value[0].0 == pc + 1 || x.value[0].0 == Target(pc, insn.offset))
  {
    hide Taken, And64, Target, Wrap64;
  }

  // ── Liveness at the next instruction ─────────────────────────────────────

  /** Whatever is live at t is live at pc or defined there. */
  ghost predicate FlowsTo(program: Program, m: Masks, pc: nat, t: nat)
    requires pc < |program|
  {
    var ud := UsesAndDefs(program[pc]);
    && LiveAt(m.regs, t) <= LiveAt(m.regs, pc) + ud.defRegs
    && LiveAt(m.slots, t) <= LiveAt(m.slots, pc) + ud.writeSlots
  }

  lemma UsesLive(f: Flow, ins: seq<set<int>>, pc: nat)
    requires f.Valid() && ExactlyLive(f, ins) && pc < |ins|
    ensures f.uses[pc] <= ins[pc]
  {
    forall x | x in f.uses[pc]
      ensures x in ins[pc]
    {
      LiveEquation(f, pc, x);
    }
  }

  lemma LiveFlows(f: Flow, ins: seq<set<int>>, pc: nat, t: nat)
    requires f.Valid() && ExactlyLive(f, ins) && pc < |ins| && t in f.succs[pc]
    ensures t < |ins| && ins[t] <= ins[pc] + f.defs[pc]
  {
    hide Live;
    var j :| 0 <= j < |f.succs[pc]| && f.succs[pc][j] == t;
    forall x | x in ins[t]
      ensures x in ins[pc] + f.defs[pc]
    {
      assert Live(f, f.succs[pc][j], x);
      LiveEquation(f, pc, x);
    }
  }

  lemma SuccessorFlows(program: Program, m: Masks, pc: nat, t: nat)
    requires IsLiveness(program, m) && pc < |program|
    requires t in StaticSuccessors(program, pc) || t >= |program|
    ensures FlowsTo(program, m, pc, t)
  {
    hide StaticSuccessors, UsesAndDefs, ExactlyLive, Flow.Valid;
    FlowsValid(program);
    MaskLengths(program, m);
    if t < |program| {
      LiveFlows(RegFlow(program), m.regs, pc, t);
      LiveFlows(SlotFlow(program), m.slots, pc, t);
    }
  }

  lemma MaskLengths(program: Program, m: Masks)
    requires IsLiveness(program, m)
    ensures |m.regs| == |m.slots| == |program|
  {
    hide StaticSuccessors, UsesAndDefs, Flow.Valid;
    FlowsValid(program);
  }

  lemma UsesAreLive(program: Program, m: Masks, pc: nat)
    requires IsLiveness(program, m) && pc < |program|
    ensures UsesAndDefs(program[pc]).useRegs <= LiveAt(m.regs, pc)
    ensures UsesAndDefs(program[pc]).readSlots <= LiveAt(m.slots, pc)
  {
    hide StaticSuccessors, UsesAndDefs, ExactlyLive, Flow.Valid;
    FlowsValid(program);
    MaskLengths(program, m);
    UsesLive(RegFlow(program), m.regs, pc);
    UsesLive(SlotFlow(program), m.slots, pc);
  }

  /** Where execution can continue after an instruction other than an exit or a
      call of a subprogram. */
  lemma NextIsStatic(program: Program, pc: nat, t: nat)
    requires pc < |program| && !program[pc].Exit? && !program[pc].CallSub?
    requires var insn := program[pc];
             if insn.Jmp? then t == Target(pc, insn.offset)
             else if insn.IsConditional() then t == pc + 1 || t == Target(pc, insn.offset)
             else t == pc + 1
    ensures t in StaticSuccessors(program, pc) || t >= |program|
  {
    hide LastStart, ReturnSites;
  }

  lemma AlikeAgrees(program: Program, m: Masks, pc: nat, t: nat, c: State, d: State, c': State, d': State)
    requires pc < |program| && Agree(m, pc, c, d) && FlowsTo(program, m, pc, t)
    requires Alike(c, d, c', d', UsesAndDefs(program[pc]))
    ensures Agree(m, t, c', d')
  {
    hide UsesAndDefs, OuterFrame;
  }

  // ── One step of the driver ───────────────────────────────────────────────

  ghost predicate Matching(m: Masks, c: State, d: State, x: Outcome, y: Outcome) {
    match x
    case Fails(_) => y == x
    case Exits => y.Exits? && c.regs[0] == d.regs[0]
    case Next(xs) => y.Next? && |xs| == |y.succs| && forall k: nat :: k < |xs| ==> MatchingPair(m, xs[k], y.succs[k])
  }

  ghost predicate MatchingPair(m: Masks, x: (nat, State), y: (nat, State)) { x.0 == y.0 && Agree(m, x.0, x.1, y.1) }

  lemma AgreeUses(program: Program, m: Masks, pc: nat, c: State, d: State)
    requires IsLiveness(program, m) && pc < |program| && Agree(m, pc, c, d)
    ensures AgreeOn(c, d, UsesAndDefs(program[pc]).useRegs, UsesAndDefs(program[pc]).readSlots)
  {
    hide UsesAndDefs, IsLiveness, OuterFrame;
    UsesAreLive(program, m, pc);
  }

  lemma MovesOn(program: Program, m: Masks, pc: nat, t: nat, c: State, d: State, c': State, d': State)
    requires Eligible(program) && IsLiveness(program, m) && pc < |program| && Agree(m, pc, c, d)
    requires !program[pc].Exit? && Alike(c, d, c', d', UsesAndDefs(program[pc]))
    requires var insn := program[pc];
             if insn.Jmp? then t == Target(pc, insn.offset)
             else if insn.IsConditional() then t == pc + 1 || t == Target(pc, insn.offset)
             else t == pc + 1
    ensures Agree(m, t, c', d')
  {
    hide UsesAndDefs, IsLiveness, Agree, Alike, StaticSuccessors, FlowsTo, Target;
    NextIsStatic(program, pc, t);
    SuccessorFlows(program, m, pc, t);
    AlikeAgrees(program, m, pc, t, c, d, c', d');
  }

  /** States that agree on what is live fail alike, branch alike, exit with the same
      r0, and their successors agree again. */
  lemma AgreeStep(program: Program, m: Masks, pc: nat, c: State, d: State)
    requires Eligible(program) && IsLiveness(program, m) && Agree(m, pc, c, d)
    ensures Matching(m, c, d, Explore(program, pc, c), Explore(program, pc, d))
  {
    hide IsLiveness, Agree, AgreeOn, Successors, UsesAndDefs, Eligible, MatchingPair;
    if pc < |program| {
      AgreeUses(program, m, pc, c, d);
      InputsEqual(c, d, program[pc]);
      if !program[pc].Exit? {
        StepMatches(program, m, pc, c, d);
      }
    }
  }

  lemma StepMatches(program: Program, m: Masks, pc: nat, c: State, d: State)
    requires Eligible(program) && IsLiveness(program, m) && Agree(m, pc, c, d)
    requires pc < |program| && !program[pc].Exit?
    requires AgreeOn(c, d, UsesAndDefs(program[pc]).useRegs, UsesAndDefs(program[pc]).readSlots)
    ensures var x, y := Successors(pc, c, program[pc]), Successors(pc, d, program[pc]);
            if x.Err? then y == x
            else y.Ok? && |y.value| == |x.value| && forall k: nat :: k < |x.value| ==>
                MatchingPair(m, x.value[k], y.value[k])
  {
    hide IsLiveness, Alike, Agree, AgreeOn, Step, Conditional, CallHelper, UsesAndDefs, Target;
    var insn := program[pc];
    InputsEqual(c, d, insn);
    if insn.Jmp? {
      UnchangedAlike(c, d, insn);
      MovesOn(program, m, pc, Target(pc, insn.offset), c, d, c, d);
    } else if insn.IsConditional() {
      UnchangedAlike(c, d, insn);
      ConditionalSame(pc, c, d, insn);
      var x := Conditional(pc, c, insn);
      if x.Ok? {
        MovesOn(program, m, pc, x.value[0].0, c, d, c, d);
      }
    } else if insn.Call? {
      CallStep(pc, c, d, insn.imm, 0);
      var x, y := CallHelper(pc, c, insn.imm), CallHelper(pc, d, insn.imm);
      if x.Ok? {
        forall k: nat | k < |x.value|
          ensures MatchingPair(m, (pc + 1, x.value[k]), (pc + 1, y.value[k]))
        {
          CallStep(pc, c, d, insn.imm, k);
          MovesOn(program, m, pc, pc + 1, c, d, x.value[k], y.value[k]);
        }
      }
    } else {
      assert !insn.CallSub? && 10 !in UsesAndDefs(insn).defRegs;
      PlainStep(pc, c, d, insn);
      var x, y := Step(pc, c, insn), Step(pc, d, insn);
      if x.Ok? {
        MovesOn(program, m, pc, pc + 1, c, d, x.value, y.value);
      }
    }
  }

  // ── Whole runs ───────────────────────────────────────────────────────────

  datatype Ending = Running(pc: nat) | Exited(r0: Value) | Failed(failure: Failure) | NoSuchChoice

  /** What a run shows: the instructions passed and how it ends. */
  datatype Observation = Observation(pcs: seq<nat>, ending: Ending)

  /** Follow the chosen successors; `cleanNow` says at which remaining lengths the
      state is cleaned before it is used. */
  ghost function Observe(program: Program, m: Masks, pc: nat, c: State, choices: seq<nat>,
                         cleanNow: nat -> bool): Observation
    decreases |choices|
  {
    var st := if cleanNow(|choices|) then Clean(c, LiveAt(m.regs, pc), LiveAt(m.slots, pc)) else c;
    match Explore(program, pc, st)
    case Fails(f) => Observation([pc], Failed(f))
    case Exits => Observation([pc], if st.regs[0].Some? then Exited(st.regs[0].value) else Running(pc))
    case Next(succs) =>
      if choices == [] then Observation([pc], Running(pc))
      else if choices[0] >= |succs| then Observation([pc], NoSuchChoice)
      else
        var rest := Observe(program, m, succs[choices[0]].0, succs[choices[0]].1, choices[1..], cleanNow);
        Observation([pc] + rest.pcs, rest.ending)
  }

  lemma CleanedAgree(m: Masks, pc: nat, c: State, d: State, cleanC: bool, cleanD: bool)
    requires Agree(m, pc, c, d)
    ensures var lr, ls := LiveAt(m.regs, pc), LiveAt(m.slots, pc);
            Agree(m, pc, if cleanC then Clean(c, lr, ls) else c, if cleanD then Clean(d, lr, ls) else d)
  {
  }

  /** Two states that agree on the live registers and slots cannot be told apart by
      any run, wherever either of them is cleaned on the way. */
  lemma {:induction false} DeadStateInvisible(program: Program, m: Masks, pc: nat, c: State, d: State,
                                              choices: seq<nat>,
                                              cleanC: nat -> bool, cleanD: nat -> bool)
    requires Eligible(program) && IsLiveness(program, m) && Agree(m, pc, c, d)
    ensures Observe(program, m, pc, c, choices, cleanC) == Observe(program, m, pc, d, choices, cleanD)
    decreases |choices|
  {
    hide Eligible, IsLiveness, Agree, Explore, Clean;
    var lr, ls := LiveAt(m.regs, pc), LiveAt(m.slots, pc);
    var cs := if cleanC(|choices|) then Clean(c, lr, ls) else c;
    var ds := if cleanD(|choices|) then Clean(d, lr, ls) else d;
    CleanedAgree(m, pc, c, d, cleanC(|choices|), cleanD(|choices|));
    AgreeStep(program, m, pc, cs, ds);
    var x, y := Explore(program, pc, cs), Explore(program, pc, ds);
    if x.Next? && choices != [] && choices[0] < |x.succs| {
      assert MatchingPair(m, x.succs[choices[0]], y.succs[choices[0]]);
      DeadStateInvisible(program, m, x.succs[choices[0]].0, x.succs[choices[0]].1, y.succs[choices[0]].1, choices[1..],
                         cleanC, cleanD);
    }
  }

  /** Running with `clean_concrete_state` at any points shows what running without
      it shows, from the initial state of any eligible program. */
  lemma CleaningPreservesRuns(program: Program, m: Masks, choices: seq<nat>, cleanNow: nat -> bool)
    requires Eligible(program) && IsLiveness(program, m)
    ensures Observe(program, m, 0, Initial(), choices, cleanNow) ==
            Observe(program, m, 0, Initial(), choices, _ => false)
  {
    hide Eligible, IsLiveness;
    DeadStateInvisible(program, m, 0, Initial(), Initial(), choices, cleanNow, _ => false);
  }
}
