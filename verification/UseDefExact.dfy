/** The use and definition tables of the liveness iteration say exactly what a concrete
    step reads and overwrites (`src/liveness.rs`), but for the cases named at the end. */
module UseDefExact {
  import opened Words
  import opened Bits
  import opened TnumDomain
  import opened Scalar
  import opened Branch
  import opened Insn
  import opened Concrete
  import opened SlotMemory
  import opened Liveness
  import opened DeadState
  import opened Offsets
  import opened StackSound

  /** Calls and exits are looked at separately. */
  predicate Plain(insn: Insn) { !insn.Call? && !insn.CallSub? && !insn.Exit? }

  function With(st: State, r: Reg, v: Option<Value>): State { st.(regs := st.regs[r := v]) }

  // ── Registers ────────────────────────────────────────────────────────────

  /** The same result, with register r overwritten or left as it was. */
  ghost predicate SameBut(x: Succs, y: Succs, r: Reg, v: Option<Value>, overwritten: bool) {
    if x.Err? then y == x
    else
      && y.Ok? && |x.value| == |y.value| == 1 && x.value[0].0 == y.value[0].0
      && y.value[0].1 == if overwritten then x.value[0].1 else With(x.value[0].1, r, v)
  }

  lemma WithOther(st: State, r: Reg, v: Option<Value>, dst: Reg, w: Value)
    ensures r != dst ==> SetReg(With(st, r, v), dst, w) == With(SetReg(st, dst, w), r, v)
    ensures r == dst ==> SetReg(With(st, r, v), dst, w) == SetReg(st, dst, w)
  {
    if r != dst {
      assert SetReg(With(st, r, v), dst, w).regs == With(SetReg(st, dst, w), r, v).regs;
    } else {
      assert SetReg(With(st, r, v), dst, w).regs == SetReg(st, dst, w).regs;
    }
  }

  lemma LocateSame(pc: nat, st: State, r: Reg, v: Option<Value>, base: Reg, off: I16, size: nat)
    requires ValidSize(size) && r != base
    ensures Locate(pc, With(st, r, v), base, off, size) == Locate(pc, st, base, off, size)
  {
    hide AccessOffset, StackRange;
  }

  lemma LoadSame(pc: nat, st: State, r: Reg, v: Option<Value>, dst: Reg, base: Reg, off: I16, size: nat, ext: bool)
    requires ValidSize(size) && r != base
    ensures var x, y := Load(pc, st, dst, base, off, size, ext), Load(pc, With(st, r, v), dst, base, off, size, ext);
            if x.Err? then y == x
            else y == Ok(if r == dst then x.value else With(x.value, r, v))
  {
    hide Locate, Extract;
    LocateSame(pc, st, r, v, base, off, size);
    var p := Locate(pc, st, base, off, size);
    if p.Ok? {
      var cell := FrameStack(st, p.value.frameno).value[p.value.slot];
      if cell.Some? {
        WithOther(st, r, v, dst, Extract(cell.value, p.value.inSlot, size, ext));
      }
    }
  }

  lemma StoreSame(pc: nat, st: State, r: Reg, v: Option<Value>, w: Option<Value>, base: Reg, off: I16, size: nat)
    requires ValidSize(size) && r != base
    ensures var x, y := Store(pc, st, w, base, off, size), Store(pc, With(st, r, v), w, base, off, size);
            if x.Err? then y == x else y == Ok(With(x.value, r, v))
  {
    hide Locate, Merge;
    LocateSame(pc, st, r, v, base, off, size);
  }

  lemma RegisterSame(pc: nat, st: State, insn: Insn, r: Reg, v: Option<Value>)
    requires DefinesDst(insn) && !insn.LdMem? && r !in UseRegs(insn)
    ensures SetsAlike(Step(pc, st, insn), Step(pc, With(st, r, v), insn), insn.dst, r, v)
  {
    hide AluWithImm, AluWithReg, AluConst, Wrap64, Wrap32, SetsAlike, SetReg, With;
    if insn.AluImm? {
      ImmSame(pc, st, insn.op, insn.width, insn.dst, insn.imm, r, v);
    } else if insn.AluReg? {
      RegSame(pc, st, insn.op, insn.width, insn.dst, insn.src, r, v);
    } else {
      MoveSame(pc, st, insn, r, v);
    }
  }

  ghost predicate SetsAlike(x: Result<State, Failure>, y: Result<State, Failure>, dst: Reg, r: Reg, v: Option<Value>) {
    if x.Err? then y == x else y == Ok(if r == dst then x.value else With(x.value, r, v))
  }

  lemma SetAlike(st: State, dst: Reg, w: Value, r: Reg, v: Option<Value>)
    ensures SetsAlike(Ok(SetReg(st, dst, w)), Ok(SetReg(With(st, r, v), dst, w)), dst, r, v)
  {
    WithOther(st, r, v, dst, w);
  }

  lemma ImmSame(pc: nat, st: State, op: AluOp, width: Width, dst: Reg, imm: I32, r: Reg, v: Option<Value>)
    requires r != dst
    ensures var x, y := AluWithImm(pc, st, op, width, dst, imm), AluWithImm(pc, With(st, r, v), op, width, dst, imm);
            SetsAlike(x, y, dst, r, v)
  {
    hide AluConst, Wrap64, SaturateI64, PtrOffset, SetReg;
    var x := AluWithImm(pc, st, op, width, dst, imm);
    assert With(st, r, v).regs[dst] == st.regs[dst];
    forall w: Value
      ensures SetsAlike(Ok(SetReg(st, dst, w)), Ok(SetReg(With(st, r, v), dst, w)), dst, r, v)
    {
      SetAlike(st, dst, w, r, v);
    }
    hide SetsAlike, With;
  }

  lemma RegSame(pc: nat, st: State, op: AluOp, width: Width, dst: Reg, src: Reg, r: Reg, v: Option<Value>)
    requires r != dst && r != src
    ensures var x, y := AluWithReg(pc, st, op, width, dst, src), AluWithReg(pc, With(st, r, v), op, width, dst, src);
            SetsAlike(x, y, dst, r, v)
  {
    hide AluConst, Wrap64, Signed64, PtrOffset, SetReg;
    assert With(st, r, v).regs[dst] == st.regs[dst] && With(st, r, v).regs[src] == st.regs[src];
    forall w: Value
      ensures SetsAlike(Ok(SetReg(st, dst, w)), Ok(SetReg(With(st, r, v), dst, w)), dst, r, v)
    {
      SetAlike(st, dst, w, r, v);
    }
  }

  lemma MoveSame(pc: nat, st: State, insn: Insn, r: Reg, v: Option<Value>)
    requires DefinesDst(insn) && !insn.LdMem? && !insn.AluImm? && !insn.AluReg? && r !in UseRegs(insn)
    ensures SetsAlike(Step(pc, st, insn), Step(pc, With(st, r, v), insn), insn.dst, r, v)
  {
    hide AluConst, Wrap64, Wrap32, SetReg;
    forall w: Value
      ensures SetsAlike(Ok(SetReg(st, insn.dst, w)), Ok(SetReg(With(st, r, v), insn.dst, w)), insn.dst, r, v)
    {
      SetAlike(st, insn.dst, w, r, v);
    }
  }

  /** A register that is not used cannot be told from any other value of it: it is
      overwritten if it is in the definitions and kept if not. */
  lemma Unused(pc: U32, st: State, insn: Insn, r: Reg, v: Option<Value>)
    requires Plain(insn) && r !in UsesAndDefs(insn).useRegs
    ensures SameBut(Successors(pc, st, insn), Successors(pc, With(st, r, v), insn), r, v,
                    r in UsesAndDefs(insn).defRegs)
  {
    hide Load, Store, Target, Step, Concrete.Conditional, ReadSlots, WriteSlots;
    if insn.IsConditional() {
      UnusedBranch(pc, st, insn, r, v);
    } else if !insn.Jmp? {
      UnusedStep(pc, st, insn, r, v);
    }
  }

  lemma UnusedBranch(pc: U32, st: State, insn: Insn, r: Reg, v: Option<Value>)
    requires insn.IsConditional() && r !in UseRegs(insn)
    ensures SameBut(Concrete.Conditional(pc, st, insn), Concrete.Conditional(pc, With(st, r, v), insn), r, v, false)
  {
    hide Target, CompareValues, And64, Wrap64;
  }

  lemma UnusedStep(pc: U32, st: State, insn: Insn, r: Reg, v: Option<Value>)
    requires Plain(insn) && !insn.IsConditional() && !insn.Jmp? && r !in UseRegs(insn)
    ensures SameBut(One(pc, Step(pc, st, insn)), One(pc, Step(pc, With(st, r, v), insn)), r, v, r in DefRegs(insn))
  {
    hide Load, Store, AluWithImm, AluWithReg;
    if insn.LdMem? {
      LoadSame(pc, st, r, v, insn.dst, insn.base, insn.offset, insn.size.Bytes(), insn.signExtend);
    } else if insn.StMem? {
      StoreSame(pc, st, r, v, st.regs[insn.src], insn.base, insn.offset, insn.size.Bytes());
    } else if insn.StMemImm? {
      StoreSame(pc, st, r, v, Some(Number(Wrap64(insn.imm))), insn.base, insn.offset, insn.size.Bytes());
    } else if DefinesDst(insn) {
      hide Step;
      RegisterSame(pc, st, insn, r, v);
    }
  }

  /** A step changes registers of its definitions only. */
  lemma OnlyDefs(pc: U32, st: State, insn: Insn, r: Reg, k: nat)
    requires (Plain(insn) || insn.Call?) && r !in UsesAndDefs(insn).defRegs
    requires Successors(pc, st, insn).Ok? && k < |Successors(pc, st, insn).value|
    ensures Successors(pc, st, insn).value[k].1.regs[r] == st.regs[r]
  {
    hide Locate, Merge, Extract, AluConst, Target, CompareValues, And64, ReadSlots, WriteSlots, UseRegs, Wrap64, Wrap32,
         SaturateI64, PtrOffset, Signed64;
  }

  /** A used register matters: without it the step fails, or a store leaves another
      cell. */
  ghost predicate Matters(pc: U32, insn: Insn, r: Reg) {
    exists st: State, v: Option<Value> :: Tells(Successors(pc, st, insn), Successors(pc, With(st, r, v), insn))
  }

  ghost predicate Tells(x: Succs, y: Succs) {
    && x.Ok? && |x.value| == 1
    && (y.Ok? ==>
          |y.value| == 1
          && (y.value[0].1.stack != x.value[0].1.stack || y.value[0].1.saved != x.value[0].1.saved))
  }

  lemma NeedsValue(pc: U32, st: State, insn: Insn, r: Reg)
    requires Plain(insn) && r in UsesAndDefs(insn).useRegs && !(insn.StMem? && r == insn.src && r != insn.base)
    ensures Successors(pc, With(st, r, None), insn).Err?
  {
    hide AluConst, Target, And64, ReadSlots, WriteSlots, DefRegs, StackRange, AccessOffset;
  }

  lemma UsedMatters(pc: U32, st: State, insn: Insn, r: Reg)
    requires Plain(insn) && r in UsesAndDefs(insn).useRegs && Successors(pc, st, insn).Ok?
    ensures Matters(pc, insn, r)
  {
    OneSuccessor(pc, st, insn);
    hide ReadSlots, WriteSlots, DefRegs, Successors, UseRegs;
    if insn.StMem? && r == insn.src && r != insn.base {
      SourceMatters(pc, st, insn);
    } else {
      NeedsValue(pc, st, insn, r);
      assert Tells(Successors(pc, st, insn), Successors(pc, With(st, r, None), insn));
    }
  }

  lemma OneSuccessor(pc: U32, st: State, insn: Insn)
    requires Plain(insn) && Successors(pc, st, insn).Ok?
    ensures |Successors(pc, st, insn).value| == 1
  {
    hide Step, Target, CompareValues;
  }

  lemma SourceMatters(pc: U32, st: State, insn: Insn)
    requires insn.StMem? && insn.src != insn.base && Successors(pc, st, insn).Ok?
    ensures Matters(pc, insn, insn.src)
  {
    hide Locate, MergeCell;
    var (src, base, off, size) := (insn.src, insn.base, insn.offset, insn.size.Bytes());
    var c := With(st, src, Some(Number(0)));
    var d := With(c, src, None);
    LocateSame(pc, st, src, Some(Number(0)), base, off, size);
    LocateSame(pc, c, src, None, base, off, size);
    var p := Locate(pc, c, base, off, size).value;
    var x, y := Store(pc, c, Some(Number(0)), base, off, size), Store(pc, d, None, base, off, size);
    assert FrameStack(x.value, p.frameno).value[p.slot].Some? && FrameStack(y.value, p.frameno).value[p.slot].None?;
    assert Successors(pc, c, insn) == Ok([(pc + 1, x.value)]) && Successors(pc, d, insn) == Ok([(pc + 1, y.value)]);
    assert Tells(Successors(pc, c, insn), Successors(pc, With(c, src, None), insn));
  }

  /** Exits read r0 and nothing else. */
  lemma ExitReadsZero(program: Program, pc: nat, st: State, r: Reg, v: Option<Value>)
    requires pc < |program| && program[pc].Exit? && st.curframe == 0
    ensures r !in UsesAndDefs(Exit).useRegs ==> Explore(program, pc, With(st, r, v)) == Explore(program, pc, st)
    ensures r in UsesAndDefs(Exit).useRegs ==> Explore(program, pc, With(st, r, None)).Fails?
    ensures r in UsesAndDefs(Exit).useRegs && v.Some? ==> Explore(program, pc, With(st, r, v)).Exits?
  {
    hide ReadSlots, WriteSlots, DefRegs;
  }

  // ── Stack slots, from the outermost frame ────────────────────────────────

  function WithCell(st: State, s: nat, cell: Option<Value>): State
    requires s < STACK_SLOTS
  {
    st.(stack := st.stack[s := cell])
  }

  /** The access through r10 stays in one slot. */
  lemma FixedAccess10(pc: nat, st: State, off: I16, size: nat)
    requires ValidSize(size) && OuterFrame(st)
    ensures var p := Locate(pc, st, 10, off, size);
            && (p.Ok? <==> -512 <= off && off + size <= 0 && off % size == 0)
            && (p.Ok? ==> p.value.frameno == 0 && p.value.slot == (0 - off - 1) / 8 && (size == 8 ==> off % 8 == 0))
  {
    assert AccessOffset(STACK_BASE, off) == off;
    RangeExact(pc, off, size);
    hide AccessOffset;
  }

  lemma LocateCell(pc: nat, st: State, s: nat, cell: Option<Value>, base: Reg, off: I16, size: nat)
    requires ValidSize(size) && s < STACK_SLOTS
    ensures Locate(pc, WithCell(st, s, cell), base, off, size) == Locate(pc, st, base, off, size)
  {
    hide AccessOffset, StackRange;
  }

  /** The same result up to slot s, which is the same too if it is overwritten. */
  ghost predicate SameButCell(x: Succs, y: Succs, s: nat, overwritten: bool)
    requires s < STACK_SLOTS
  {
    if x.Err? then y == x
    else
      && y.Ok? && |x.value| == |y.value| == 1 && x.value[0].0 == y.value[0].0
      && y.value[0].1 == WithCell(x.value[0].1, s, y.value[0].1.stack[s])
      && (overwritten ==> y.value[0].1.stack[s] == x.value[0].1.stack[s])
  }

  lemma LoadCell(pc: nat, st: State, s: nat, cell: Option<Value>, dst: Reg, base: Reg, off: I16, size: nat, ext: bool)
    requires ValidSize(size) && s < STACK_SLOTS && OuterFrame(st)
    requires Locate(pc, st, base, off, size).Ok? && Locate(pc, st, base, off, size).value.frameno == st.curframe ==>
               Locate(pc, st, base, off, size).value.slot != s
    ensures var x := Load(pc, st, dst, base, off, size, ext);
            var y := Load(pc, WithCell(st, s, cell), dst, base, off, size, ext);
            if x.Err? then y == x else y == Ok(WithCell(x.value, s, cell))
  {
    hide Locate, Extract;
    LocateCell(pc, st, s, cell, base, off, size);
  }

  lemma ReadSlotIs(insn: Insn, s: int)
    requires insn.LdMem?
    ensures insn.base == 10 && insn.offset % 8 == 0 && -512 <= insn.offset < 0 ==>
              (s in UsesAndDefs(insn).readSlots <==> s == (0 - insn.offset - 1) / 8)
    ensures !(insn.base == 10 && insn.offset % 8 == 0 && -512 <= insn.offset < 0) ==>
              (s in UsesAndDefs(insn).readSlots <==> 0 <= s < 64)
  {
    hide UseRegs, DefRegs, WriteSlots, FixedSlot;
    FixedSlotIs(insn.offset);
  }

  lemma FixedSlotIs(offset: I16)
    ensures FixedSlot(offset).Some? <==> offset % 8 == 0 && -512 <= offset < 0
    ensures FixedSlot(offset).Some? ==> FixedSlot(offset).value == (0 - offset - 1) / 8
  {
  }

  lemma WriteSlotIs(insn: Insn, s: int)
    requires insn.StMem? || insn.StMemImm?
    ensures s in UsesAndDefs(insn).writeSlots <==>
            && insn.base == 10 && insn.size.B64? && insn.offset % 8 == 0 && -512 <= insn.offset < 0
            && s == (0 - insn.offset - 1) / 8
  {
    hide UseRegs, DefRegs, ReadSlots, FixedSlot;
    FixedSlotIs(insn.offset);
  }

  lemma StoreCellSame(pc: nat, st: State, s: nat, cell: Option<Value>, w: Option<Value>, base: Reg, off: I16, size: nat)
    requires ValidSize(size) && s < STACK_SLOTS
    ensures var x, y := Store(pc, st, w, base, off, size), Store(pc, WithCell(st, s, cell), w, base, off, size);
            if x.Err? then y == x
            else y.Ok? && y.value == WithCell(x.value, s, y.value.stack[s])
    ensures var x, y := Store(pc, st, w, base, off, size), Store(pc, WithCell(st, s, cell), w, base, off, size);
            var p := Locate(pc, st, base, off, size);
            p.Ok? && p.value.frameno == st.curframe && p.value.slot == s && size == 8 ==>
              y.value.stack[s] == x.value.stack[s]
    ensures var y := Store(pc, WithCell(st, s, cell), w, base, off, size);
            var p := Locate(pc, st, base, off, size);
            p.Ok? && !(p.value.frameno == st.curframe && p.value.slot == s) ==> y.Ok? && y.value.stack[s] == cell
  {
    hide Locate, And64, Or64, Not64, Shl;
    LocateCell(pc, st, s, cell, base, off, size);
    var x, y := Store(pc, st, w, base, off, size), Store(pc, WithCell(st, s, cell), w, base, off, size);
    if x.Ok? {
      assert y.value.stack == x.value.stack[s := y.value.stack[s]];
    }
  }

  /** A slot that is not read cannot be told from any other content of it. */
  lemma UnreadSlot(pc: U32, st: State, insn: Insn, s: nat, cell: Option<Value>)
    requires Plain(insn) && OuterFrame(st) && s < STACK_SLOTS && s !in UsesAndDefs(insn).readSlots
    ensures SameButCell(Successors(pc, st, insn), Successors(pc, WithCell(st, s, cell), insn), s,
                        s in UsesAndDefs(insn).writeSlots)
  {
    hide Load, Store, Target, CompareValues, And64, UseRegs, DefRegs, Locate;
    if insn.LdMem? {
      ReadSlotIs(insn, s);
      FixedAccess10(pc, st, insn.offset, insn.size.Bytes());
      LoadCell(pc, st, s, cell, insn.dst, insn.base, insn.offset, insn.size.Bytes(), insn.signExtend);
    } else if insn.StMem? || insn.StMemImm? {
      var w := if insn.StMem? then st.regs[insn.src] else Some(Number(Wrap64(insn.imm)));
      WriteSlotIs(insn, s);
      FixedAccess10(pc, st, insn.offset, insn.size.Bytes());
      StoreCellSame(pc, st, s, cell, w, insn.base, insn.offset, insn.size.Bytes());
      StoredLocates(pc, st, w, insn.base, insn.offset, insn.size.Bytes());
      hide ReadSlots, WriteSlots;
      var x := Store(pc, st, w, insn.base, insn.offset, insn.size.Bytes());
      assert Successors(pc, st, insn) == if x.Err? then Err(x.error) else Ok([(pc + 1, x.value)]);
    } else {
      NoMemory(pc, st, insn, s, cell);
    }
  }

  lemma StoredLocates(pc: nat, st: State, w: Option<Value>, base: Reg, off: I16, size: nat)
    requires ValidSize(size)
    ensures Store(pc, st, w, base, off, size).Ok? <==> Locate(pc, st, base, off, size).Ok?
  {
    hide Locate, Merge;
  }

  lemma NoMemory(pc: U32, st: State, insn: Insn, s: nat, cell: Option<Value>)
    requires Plain(insn) && !insn.LdMem? && !insn.StMem? && !insn.StMemImm? && s < STACK_SLOTS
    ensures SameButCell(Successors(pc, st, insn), Successors(pc, WithCell(st, s, cell), insn), s, false)
    ensures s !in UsesAndDefs(insn).writeSlots
  {
    hide UseRegs, DefRegs, ReadSlots, AluConst, Target, Step, Conditional, WithCell;
    if insn.IsConditional() {
      NoMemoryBranch(pc, st, insn, s, cell);
    } else if !insn.Jmp? {
      NoMemoryStep(pc, st, insn, s, cell);
    }
    CellKept(st, s, cell);
  }

  lemma CellKept(st: State, s: nat, cell: Option<Value>)
    requires s < STACK_SLOTS
    ensures WithCell(st, s, cell) == WithCell(st, s, WithCell(st, s, cell).stack[s])
  {
  }

  lemma NoMemoryBranch(pc: U32, st: State, insn: Insn, s: nat, cell: Option<Value>)
    requires insn.IsConditional() && s < STACK_SLOTS
    ensures var x, y := Concrete.Conditional(pc, st, insn), Concrete.Conditional(pc, WithCell(st, s, cell), insn);
            SameButCell(x, y, s, false)
  {
    hide Target, And64, Wrap64, Taken;
  }

  lemma NoMemoryStep(pc: U32, st: State, insn: Insn, s: nat, cell: Option<Value>)
    requires Plain(insn) && !insn.LdMem? && !insn.StMem? && !insn.StMemImm? && !insn.IsConditional() && !insn.Jmp?
    requires s < STACK_SLOTS
    ensures SameButCell(One(pc, Step(pc, st, insn)), One(pc, Step(pc, WithCell(st, s, cell), insn)), s, false)
  {
    hide AluConst, Wrap64, Wrap32, Signed64, SaturateI64, PtrOffset;
  }

  // ── Both are tight ───────────────────────────────────────────────────────

  /** A state whose base register reaches slot s. */
  function Aimed(base: Reg, off: I16, s: nat): State
    requires s < STACK_SLOTS
  {
    WithCell(With(Initial(), base, Some(StackPtr(Wrap64(STACK_BASE - 8 * s - 8 - off), 0))), s, Some(Number(0)))
  }

  lemma AimedAt(pc: nat, base: Reg, off: I16, size: nat, s: nat)
    requires ValidSize(size) && s < STACK_SLOTS
    ensures Locate(pc, Aimed(base, off, s), base, off, size) == Ok(Place(0, s, 0, -8 * s - 8))
  {
    var at := -8 * s - 8;
    var bits := Wrap64(STACK_BASE + at - off);
    PtrOffsetOf(at - off);
    AccessOffsetIs(bits, off);
    assert AccessOffset(bits, off) == at;
    RangeExact(pc, at, size);
    EightMultiple(s, size);
    hide AccessOffset;
    assert SlotOf(at) == s && SlotMemory.IndexOf(at) == 0;
    hide StackRange, NoCells;
  }

  lemma EightMultiple(s: nat, size: nat)
    requires ValidSize(size)
    ensures (-8 * s - 8) % size == 0
  {
    match size {
      case 1 =>
      case 2 => ModEqual(-8 * s - 8, 0, 2, -4 * s - 4);
      case 4 => ModEqual(-8 * s - 8, 0, 4, -2 * s - 2);
      case 8 => ModEqual(-8 * s - 8, 0, 8, 0 - s - 1);
    }
  }

  /** Some state fails without the slot and not with it. */
  ghost predicate SlotMatters(pc: U32, insn: Insn, s: nat)
    requires s < STACK_SLOTS
  {
    exists st: State ::
      OuterFrame(st) && Successors(pc, st, insn).Ok? && Successors(pc, WithCell(st, s, None), insn).Err?
  }

  lemma ReadAt(pc: U32, st: State, insn: Insn, s: nat)
    requires insn.LdMem? && s < STACK_SLOTS && OuterFrame(st) && st.stack[s].Some?
    requires var p := Locate(pc, st, insn.base, insn.offset, insn.size.Bytes());
             p.Ok? && p.value.frameno == 0 && p.value.slot == s
    ensures SlotMatters(pc, insn, s)
  {
    hide Locate, Extract;
    LocateCell(pc, st, s, None, insn.base, insn.offset, insn.size.Bytes());
    assert Successors(pc, st, insn).Ok? && Successors(pc, WithCell(st, s, None), insn).Err?;
  }

  /** Every slot in the table is one the load may need: the one slot behind r10, or
      any behind an unknown base. */
  lemma ReadSlotMatters(pc: U32, insn: Insn, s: nat)
    requires insn.LdMem? && s < STACK_SLOTS && s in UsesAndDefs(insn).readSlots
    requires insn.base == 10 ==> insn.offset % 8 == 0 && -512 <= insn.offset < 0
    ensures SlotMatters(pc, insn, s)
  {
    if insn.base == 10 {
      var st := WithCell(Initial(), s, Some(Number(0)));
      ReadSlotIs(insn, s);
      FixedAccess10(pc, st, insn.offset, insn.size.Bytes());
      AlignedSizes(insn.offset, insn.size.Bytes());
      hide Locate, SlotMatters, Successors, ReadSlots;
      ReadAt(pc, st, insn, s);
    } else {
      AimedAt(pc, insn.base, insn.offset, insn.size.Bytes(), s);
      assert OuterFrame(Aimed(insn.base, insn.offset, s)) && Aimed(insn.base, insn.offset, s).stack[s].Some?;
      hide Locate, SlotMatters, Successors, Aimed, OuterFrame;
      ReadAt(pc, Aimed(insn.base, insn.offset, s), insn, s);
    }
  }

  lemma AlignedSizes(off: int, size: nat)
    requires ValidSize(size) && off % 8 == 0
    ensures off % size == 0 && (off < 0 ==> off + size <= 0)
  {
    CongruentAlign(off, 0, size);
  }

  /** Two contents of the slot survive the step as different ones. */
  ghost predicate Survives(pc: U32, insn: Insn, s: nat)
    requires s < STACK_SLOTS
  {
    exists st: State, a: Option<Value>, b: Option<Value> ::
      && OuterFrame(st) && LeftAs(pc, insn, st, s, a, b)
  }

  ghost predicate LeftAs(pc: U32, insn: Insn, st: State, s: nat, a: Option<Value>, b: Option<Value>)
    requires s < STACK_SLOTS
  {
    var x, y := Successors(pc, WithCell(st, s, a), insn), Successors(pc, WithCell(st, s, b), insn);
    x.Ok? && y.Ok? && |x.value| == |y.value| == 1 && x.value[0].1.stack[s] != y.value[0].1.stack[s]
  }

  predicate IsStore(insn: Insn) { insn.StMem? || insn.StMemImm? }

  function StoredHere(st: State, insn: Insn): Option<Value>
    requires IsStore(insn)
  {
    if insn.StMem? then st.regs[insn.src] else Some(Number(Wrap64(insn.imm)))
  }

  /** A store that goes to another slot leaves this one. */
  lemma ElsewhereSurvives(pc: U32, st: State, insn: Insn, s: nat)
    requires IsStore(insn) && s < STACK_SLOTS && OuterFrame(st)
    requires var p := Locate(pc, st, insn.base, insn.offset, insn.size.Bytes());
             p.Ok? && !(p.value.frameno == st.curframe && p.value.slot == s)
    ensures Survives(pc, insn, s)
  {
    hide Locate, Store;
    var (base, off, size, w) := (insn.base, insn.offset, insn.size.Bytes(), StoredHere(st, insn));
    StoreCellSame(pc, st, s, None, w, base, off, size);
    StoreCellSame(pc, st, s, Some(Number(0)), w, base, off, size);
    assert LeftAs(pc, insn, st, s, None, Some(Number(0)));
  }

  /** A part store leaves the other bytes of its own slot. */
  lemma PartSurvives(pc: U32, st: State, insn: Insn, s: nat)
    requires IsStore(insn) && s < STACK_SLOTS && OuterFrame(st) && insn.size.Bytes() < 8 && StoredHere(st, insn).Some?
    requires var p := Locate(pc, st, insn.base, insn.offset, insn.size.Bytes());
             p.Ok? && p.value.frameno == st.curframe && p.value.slot == s
    ensures Survives(pc, insn, s)
  {
    hide Locate, MergeCell, ByteOf, Pow2;
    var (base, off, size, w) := (insn.base, insn.offset, insn.size.Bytes(), StoredHere(st, insn).value);
    var p := Locate(pc, st, base, off, size).value;
    var j: nat := if p.inSlot == 0 then 7 else 0;
    Pow2Words();
    Pow2Mono(8 * j, 63);
    var a, b := Some(Number(0)), Some(Number(Pow2(8 * j)));
    MergedByte(a, p.inSlot, size, w, j);
    MergedByte(b, p.inSlot, size, w, j);
    OneByteDiffers(j);
    LocateCell(pc, st, s, a, base, off, size);
    LocateCell(pc, st, s, b, base, off, size);
    assert LeftAs(pc, insn, st, s, a, b);
  }

  lemma OneByteDiffers(j: nat)
    requires j < 8
    ensures 0 <= Pow2(8 * j) < TWO64 && ByteOf(Pow2(8 * j), j) == 1 && ByteOf(0, j) == 0
  {
    Pow2Words();
    Pow2Mono(8 * j, 63);
    DivUnique(Pow2(8 * j), Pow2(8 * j), 1, 0);
    DivUnique(0, Pow2(8 * j), 0, 0);
  }

  /** A slot a store does not surely overwrite can keep what it had. */
  lemma UnwrittenSurvives(pc: U32, st: State, insn: Insn, s: nat)
    requires IsStore(insn) && s < STACK_SLOTS && s !in UsesAndDefs(insn).writeSlots
    requires OuterFrame(st) && Successors(pc, st, insn).Ok?
    ensures Survives(pc, insn, s)
  {
    WriteSlotIs(insn, s);
    hide UsesAndDefs, Survives, Locate, Store;
    StoredLocates(pc, st, StoredHere(st, insn), insn.base, insn.offset, insn.size.Bytes());
    if insn.base != 10 {
      OtherBaseSurvives(pc, insn, s);
    } else {
      FrameBaseSurvives(pc, st, insn, s);
    }
  }

  /** Another base register can point elsewhere. */
  lemma OtherBaseSurvives(pc: U32, insn: Insn, s: nat)
    requires IsStore(insn) && s < STACK_SLOTS && insn.base != 10
    ensures Survives(pc, insn, s)
  {
    hide Survives, Locate;
    var p: nat := if s == 0 then 1 else 0;
    AimedAt(pc, insn.base, insn.offset, insn.size.Bytes(), p);
    assert OuterFrame(Aimed(insn.base, insn.offset, p));
    hide Aimed, OuterFrame;
    AimedFrame(insn.base, insn.offset, p);
    ElsewhereSurvives(pc, Aimed(insn.base, insn.offset, p), insn, s);
  }

  lemma AimedFrame(base: Reg, off: I16, s: nat)
    requires s < STACK_SLOTS
    ensures Aimed(base, off, s).curframe == 0
  {
  }

  lemma FrameBaseSurvives(pc: U32, st: State, insn: Insn, s: nat)
    requires IsStore(insn) && s < STACK_SLOTS && insn.base == 10 && OuterFrame(st)
    requires Locate(pc, st, 10, insn.offset, insn.size.Bytes()).Ok?
    requires !(insn.size.B64? && insn.offset % 8 == 0 && s == (0 - insn.offset - 1) / 8)
    ensures Survives(pc, insn, s)
  {
    hide Survives, Locate;
    FixedAccess10(pc, st, insn.offset, insn.size.Bytes());
    if Locate(pc, st, 10, insn.offset, insn.size.Bytes()).value.slot != s {
      ElsewhereSurvives(pc, st, insn, s);
    } else {
      var c := if insn.StMem? && insn.src != 10 then With(st, insn.src, Some(Number(0))) else st;
      FixedAccess10(pc, c, insn.offset, insn.size.Bytes());
      PartSurvives(pc, c, insn, s);
    }
  }

  // ── The coarse cases ─────────────────────────────────────────────────────

  /** A load behind r10 at an offset that is no multiple of 8 needs one slot at most,
      though the table names them all. */
  lemma OddLoadReadsOne(pc: U32, st: State, insn: Insn, s: nat, cell: Option<Value>)
    requires insn.LdMem? && insn.base == 10 && OuterFrame(st) && s < STACK_SLOTS
    requires s != (0 - insn.offset - 1) / 8
    ensures SameButCell(Successors(pc, st, insn), Successors(pc, WithCell(st, s, cell), insn), s, false)
  {
    hide Load, Locate;
    FixedAccess10(pc, st, insn.offset, insn.size.Bytes());
    LoadCell(pc, st, s, cell, insn.dst, insn.base, insn.offset, insn.size.Bytes(), insn.signExtend);
  }

  /** The modelled helpers look at no argument, though the table names r1 to r5. */
  lemma HelperArguments(pc: nat, st: State, imm: I32, r: Reg, v: Option<Value>)
    requires IsScalarHelper(imm) && r <= 5
    ensures CallHelper(pc, With(st, r, v), imm) == CallHelper(pc, st, imm)
  {
    assert SetReg(With(st, r, v).(regs := Clobber(With(st, r, v).regs)), 0, Number(0)).regs
        == SetReg(st.(regs := Clobber(st.regs)), 0, Number(0)).regs;
    assert SetReg(With(st, r, v).(regs := Clobber(With(st, r, v).regs)), 0, Number(1)).regs
        == SetReg(st.(regs := Clobber(st.regs)), 0, Number(1)).regs;
    assert SetReg(With(st, r, v).(regs := Clobber(With(st, r, v).regs)), 0, Number(U64_MAX)).regs
        == SetReg(st.(regs := Clobber(st.regs)), 0, Number(U64_MAX)).regs;
  }

  /** The table of both call instructions. */
  lemma CallTable(insn: Insn, r: int)
    requires insn.Call? || insn.CallSub?
    ensures r in UsesAndDefs(insn).useRegs <==> 1 <= r <= 5
    ensures r in UsesAndDefs(insn).defRegs <==> 0 <= r <= 5
    ensures r !in UsesAndDefs(insn).readSlots && r !in UsesAndDefs(insn).writeSlots
  {
  }
}
