/** Which instructions the abstract interpreter accepts, and what an accepted one may
    change (`src/exec.rs`): refusals are exact, untouched registers and slots stay, and
    both sides of a branch are kept unless no value of the intervals takes them. */
module Acceptance {
  import opened Words
  import opened Bits
  import opened TnumDomain
  import opened TnumSound
  import opened Scalar
  import opened ScalarSound
  import opened AluSound
  import opened ScalarPrecise
  import opened AluPrecise
  import opened Branch
  import opened BranchExact
  import opened Insn
  import opened Abstract
  import opened StackPrecise
  import opened Simulation
  import opened FreshBytes
  import opened References
  import Concrete

  // ── Arithmetic ───────────────────────────────────────────────────────────

  /** A stack pointer may move by less than 2^28 in either direction, as long as its least
      offset stays within the same distance of r10. */
  predicate MovableStack(ptr: RegState, op: AluOp, width: Width, least: int) {
    && ptr.PtrToStack? && op.Add? && width.W64?
    && -0x1000_0000 < least < 0x1000_0000 && -0x1000_0000 < ptr.min + least < 0x1000_0000
  }

  /** A context pointer moves by known amounts below 2^28. */
  predicate MovableCtx(ptr: RegState, op: AluOp, width: Width, s: Bounds) {
    && ptr.PtrToCtx? && (op.Add? || op.Sub?) && width.W64? && s.IsConstant() && -0x1000_0000 < s.smin < 0x1000_0000
  }

  /** What arithmetic on registers is for: numbers, and pointers moved by numbers. */
  predicate Computes(op: AluOp, width: Width, d: RegState, s: RegState) {
    || (d.Num? && s.Num?)
    || (s.Num? && (MovableStack(d, op, width, s.b.smin) || MovableCtx(d, op, width, s.b)))
    || (d.Num? && op.Add? && (MovableStack(s, op, width, d.b.smin) || MovableCtx(s, op, width, d.b)))
  }

  lemma AluRegAccepts(pc: nat, st: State, op: AluOp, width: Width, dst: Reg, src: Reg)
    ensures Abstract.AluReg(pc, st, op, width, dst, src).Ok? <==> Computes(op, width, st.regs[dst], st.regs[src])
  {
    hide ApplyAlu, AddScalarAlign, ClampI32;
    var d, s := st.regs[dst], st.regs[src];
    if s.Num? {
      SaneSum(d, s.b);
    } else if d.Num? {
      SaneSum(s, d.b);
    }
  }

  lemma SaneSum(ptr: RegState, s: Bounds)
    ensures ptr.PtrToStack? && SaneAddend(s) ==> SaturateI64(ptr.min + s.smin) == ptr.min + s.smin
  {
  }

  lemma AluImmAccepts(pc: nat, st: State, op: AluOp, width: Width, dst: Reg, imm: I32)
    ensures Abstract.AluImm(pc, st, op, width, dst, imm).Ok? <==>
            (IsShift(op) ==> 0 <= imm < BitWidth(width)) && Computes(op, width, st.regs[dst], Num(Const(imm)))
  {
    hide ApplyAlu, AddAlign, ClampI32;
  }

  /** The interval of a moved pointer is exactly the sums, until it leaves 32 bits. */
  lemma MovedInterval(pc: nat, ptr: RegState, s: Bounds, z: int)
    requires ptr.PtrToStack? && ptr.min <= ptr.max && s.smin <= s.smax && AddScalarToStackPtr(pc, ptr, s).Ok?
    requires ptr.max + s.smax <= I32_MAX
    ensures var r := AddScalarToStackPtr(pc, ptr, s).value;
            && r.frameno == ptr.frameno
            && (r.min <= z <= r.max <==> SumOf(ptr, s, z))
  {
    hide AddScalarAlign;
    var r := AddScalarToStackPtr(pc, ptr, s).value;
    if r.min <= z <= r.max {
      var o := if z - s.smin > ptr.max then ptr.max else z - s.smin;
      assert Splits(ptr, s, o, z);
    }
  }

  ghost predicate SumOf(ptr: RegState, s: Bounds, z: int)
    requires ptr.PtrToStack?
  {
    exists o: int :: Splits(ptr, s, o, z)
  }

  predicate Splits(ptr: RegState, s: Bounds, o: int, z: int)
    requires ptr.PtrToStack?
  {
    ptr.min <= o <= ptr.max && s.smin <= z - o <= s.smax
  }

  /** Moving a pointer keeps its interval in order. */
  lemma MovedOrdered(pc: nat, ptr: RegState, s: Bounds, imm: I32)
    requires ptr.PtrToStack? && IntervalsOrdered(ptr) && s.smin <= s.smax
    ensures AddScalarToStackPtr(pc, ptr, s).Ok? ==> IntervalsOrdered(AddScalarToStackPtr(pc, ptr, s).value)
    ensures AddImmToStackPtr(pc, ptr, imm).Ok? ==> IntervalsOrdered(AddImmToStackPtr(pc, ptr, imm).value)
  {
  }

  /** `rX = -rX` keeps constants exact. */
  lemma NegPrecise(width: Width, b: Bounds, x: U64)
    requires Gamma(b, x) && b.IsConstant()
    ensures Only(NegBounds(width, b), AluConst(Neg, width, x, 0))
  {
    hide AluConst64, AluConst32, Tnum.Contains;
    ConstantMember(b, x);
    WrapOfSigned(AluConst(Neg, width, x, 0));
  }

  /** `wX = wY` gives the numbers up to the low half of a constant, or all of 32 bits. */
  lemma Mov32Exact(b: Bounds, x: U64, y: U64)
    requires Gamma(b, x)
    ensures Gamma(Mov32Bounds(b), y) <==> y <= if b.IsConstant() then x % TWO32 else U32_MAX
  {
    hide Tnum.Contains, FromSigned;
    if b.IsConstant() {
      ConstantMember(b, x);
    }
    FromSignedExact(0, if b.IsConstant() then x % TWO32 else U32_MAX, y);
  }

  /** A signed range holds exactly its values. */
  lemma FromSignedExact(min: I64, max: I64, x: U64)
    requires min <= max
    ensures Gamma(FromSigned(min, max), x) <==> min <= Signed64(x) <= max
    ensures min <= FromSigned(min, max).smin && FromSigned(min, max).smax <= max
  {
    hide Tnum.Contains, Tnum.Wf, Bounds.Synced;
    if min <= Signed64(x) <= max {
      FromSignedSound(min, max, x);
    }
    SignedOfWrap(min);
    UnknownTnum(Wrap64(min));
    var u := if min < 0 <= max then (0, U64_MAX) else (Wrap64(min), Wrap64(max));
    FromSignedViews(min, max);
    SyncedNarrows(Bounds(min, max, u.0, u.1, 0, U32_MAX, Unknown(), 0, 0), Wrap64(min));
  }

  lemma FromSignedViews(min: I64, max: I64)
    requires min <= max
    ensures !(min < 0 <= max) ==> Wrap64(min) <= Wrap64(max)
  {
  }

  /** The result of arithmetic on numbers: exact for constants, otherwise no wider than the
      rules of the operation. */
  lemma NumbersPrecise(pc: nat, st: State, op: AluOp, width: Width, dst: Reg, src: Reg, x: U64, y: U64)
    requires st.regs[dst].Num? && st.regs[src].Num?
    requires Gamma(st.regs[dst].b, x) && st.regs[dst].b.tnum.Wf()
    requires Gamma(st.regs[src].b, y) && st.regs[src].b.tnum.Wf()
    requires AluGuard(op, width, st.regs[dst].b, st.regs[src].b)
    requires IsShift(op) ==> 0 <= st.regs[src].b.smin && st.regs[src].b.smax < BitWidth(width)
    ensures var r := Abstract.AluReg(pc, st, op, width, dst, src);
            var d, s := st.regs[dst].b, st.regs[src].b;
            && r.Ok? && r.value == SetReg(st, dst, r.value.regs[dst]) && r.value.regs[dst].Num?
            && Narrow(op, width, d, s, x, y, r.value.regs[dst].b)
  {
    hide ApplyAlu, Narrow, Gamma, AluGuard;
    NarrowAlu(op, width, st.regs[dst].b, st.regs[src].b, x, y);
  }

  lemma NumberAndConstantPrecise(pc: nat, st: State, op: AluOp, width: Width, dst: Reg, imm: I32, x: U64)
    requires st.regs[dst].Num? && Gamma(st.regs[dst].b, x) && st.regs[dst].b.tnum.Wf()
    requires AluGuard(op, width, st.regs[dst].b, Const(imm)) && (IsShift(op) ==> 0 <= imm < BitWidth(width))
    ensures var r := Abstract.AluImm(pc, st, op, width, dst, imm);
            && r.Ok? && r.value == SetReg(st, dst, r.value.regs[dst]) && r.value.regs[dst].Num?
            && Narrow(op, width, st.regs[dst].b, Const(imm), x, Wrap64(imm), r.value.regs[dst].b)
  {
    hide ApplyAlu, Narrow, Gamma, AluGuard, Wrap64;
    ConstSound(imm, Wrap64(imm));
    ConstEnds(imm);
    NarrowAlu(op, width, st.regs[dst].b, Const(imm), x, Wrap64(imm));
  }

  lemma ConstEnds(v: I64)
    ensures Const(v).smin == v == Const(v).smax
  {
  }

  /** Constants fold; other results are within the interval and tnum rules. */
  ghost predicate Narrow(op: AluOp, width: Width, d: Bounds, s: Bounds, x: U64, y: U64, r: Bounds)
    requires IsShift(op) ==> 0 <= s.smin && s.smax < BitWidth(width)
  {
    if d.IsConstant() && s.IsConstant() then Only(r, AluConst(op, width, x, y))
    else if width.W64? then
      AtMost(r, Alu64Signed(op, d.SRange(), s.SRange()), Alu64Unsigned(op, d.URange(), Amount(op, s)),
             AluTnum(op, d.tnum, s.tnum, s.smin, s.smax))
    else
      AtMost(r, Alu32Range(op, d.U32Range(), s.U32Range()), Alu32Range(op, d.U32Range(), s.U32Range()),
             AluTnum(op, d.tnum, s.tnum, s.smin, s.smax).Subreg())
  }

  lemma NarrowAlu(op: AluOp, width: Width, d: Bounds, s: Bounds, x: U64, y: U64)
    requires Gamma(d, x) && Gamma(s, y) && d.tnum.Wf() && s.tnum.Wf() && AluGuard(op, width, d, s)
    requires IsShift(op) ==> 0 <= s.smin && s.smax < BitWidth(width)
    ensures Narrow(op, width, d, s, x, y, ApplyAlu(op, width, d, s))
  {
    hide ApplyAlu, AluConst, AtMost, Only, Alu64Signed, Alu64Unsigned, AluTnum, Alu32Range, Tnum.Subreg, Tnum.Contains,
         Tnum.Wf, Amount;
    if d.IsConstant() && s.IsConstant() {
      ShiftIsOneAmount(op, width, s);
      ConstantsFold(op, width, d, s, x, y);
    } else if width.W64? {
      Alu64Narrows(op, d, s, x, y);
    } else {
      Alu32Narrows(op, d, s, x, y);
    }
  }

  lemma ShiftIsOneAmount(op: AluOp, width: Width, s: Bounds)
    requires s.IsConstant() && (IsShift(op) ==> 0 <= s.smin && s.smax < BitWidth(width))
    ensures IsShift(op) ==> 0 <= s.smin < BitWidth(width)
  {
  }

  // ── What a step may change ───────────────────────────────────────────────

  /** Only the destination changes, and the stack only by stores. A move may also give its
      source a link id. */
  lemma StepTouches(pc: U32, st: State, insn: Insn, r: Reg)
    requires FallsThrough(insn) && Abstract.Step(pc, st, insn).Ok?
    ensures var next := Abstract.Step(pc, st, insn).value;
            && next.refs == st.refs && next.frame == st.frame
            && (!IsStore(insn) ==> next.bytes == st.bytes && next.spilled == st.spilled)
            && (Destination(insn) != Some(r) && !(insn.MovReg? && insn.src == r) ==> next.regs[r] == st.regs[r])
  {
    hide ApplyAlu, AddAlign, AddScalarAlign, FromSigned, Const, Mov32Bounds, NegBounds, StackRead, SpillStore,
         ScrubStore, CheckAccess;
    if IsStore(insn) {
      WriteKeepsRegisters(pc, st, insn.base, insn.offset, insn.size.Bytes(),
                          if insn.StMem? then st.regs[insn.src] else Num(Const(insn.imm)));
    }
  }

  /** The register an instruction writes. */
  function Destination(insn: Insn): Option<Reg> {
    match insn
    case MovImm(dst, _) => Some(dst)
    case MovReg(dst, _) => Some(dst)
    case Mov32Imm(dst, _) => Some(dst)
    case Mov32Reg(dst, _) => Some(dst)
    case AluImm(_, _, dst, _) => Some(dst)
    case AluReg(_, _, dst, _) => Some(dst)
    case NegReg(_, dst) => Some(dst)
    case LdImm64(dst, _) => Some(dst)
    case LdMapFd(dst, _, _) => Some(dst)
    case LdMapValue(dst, _, _) => Some(dst)
    case LdMem(dst, _, _, _, _) => Some(dst)
    case _ => None
  }

  /** A move copies every kind of register, and changes nothing but a missing link id. */
  lemma MovePrecise(pc: U32, st: State, dst: Reg, src: Reg)
    ensures Abstract.MovReg(pc, st, dst, src).Ok? <==> !st.regs[src].Uninit?
    ensures !st.regs[src].Uninit? ==>
              var next := Abstract.MovReg(pc, st, dst, src).value;
              && next.regs[dst] == next.regs[src]
              && (next.regs[src] == st.regs[src]
                  || (st.regs[src].Num? && st.regs[src].b.id == 0
                      && next.regs[src] == Num(st.regs[src].b.(id := Wrap32(pc + 1)))))
  {
  }

  /** Immediates are exact; a 32-bit one is known to be at most its own value. */
  lemma ImmediatesPrecise(pc: U32, st: State, dst: Reg, imm: I32, imm64: U64, y: U64)
    ensures var r := Abstract.Step(pc, st, MovImm(dst, imm));
            r.Ok? && r.value.regs[dst].Num? && Only(r.value.regs[dst].b, Wrap64(imm))
    ensures var r := Abstract.Step(pc, st, LdImm64(dst, imm64));
            r.Ok? && r.value.regs[dst].Num? && Only(r.value.regs[dst].b, imm64)
    ensures var r := Abstract.Step(pc, st, Mov32Imm(dst, imm));
            r.Ok? && r.value.regs[dst].Num? && (Gamma(r.value.regs[dst].b, y) <==> y <= Wrap32(imm))
  {
    hide FromSigned, Tnum.Contains;
    FromSignedExact(0, Wrap32(imm), y);
    WrapOfSigned(imm64);
    SignedOfWrap(imm);
  }

  // ── Branches ─────────────────────────────────────────────────────────────

  /** Operands a branch may compare. */
  predicate Comparable(op: CondOp, d: RegState, s: RegState) {
    var equality := op.Eq? || op.Ne?;
    || (d.Num? && s.Num?)
    || (IsPlainPointer(d) && s.Num?) || (d.Num? && IsPlainPointer(s))
    || (SamePointerKind(d, s) && equality)
    || (NullCheck(d, s) && equality)
  }

  /** A pointer that may be null against the number 0. */
  predicate NullCheck(d: RegState, s: RegState) {
    (d.PtrToMemOrNull? && s.Num? && s.b.IsZero()) || (d.Num? && s.PtrToMemOrNull? && d.b.IsZero())
  }

  lemma BranchAccepts(pc: U32, st: State, op: CondOp, dst: Reg, src: Option<Reg>, s: RegState, offset: I16)
    requires src.Some? || s.Num?
    ensures CondBranch(pc, st, op, dst, src, s, offset).Ok? <==> Comparable(op, st.regs[dst], s)
  {
    hide ScalarBranch, NullSide, ValidSide;
  }

  /** A NULL check gives the null side the place a null pointer takes, and the valid side
      the other one. */
  lemma NullCheckPlaces(pc: U32, st: State, op: CondOp, dst: Reg, src: Option<Reg>, s: RegState, offset: I16)
    requires (src.Some? || s.Num?) && (op.Eq? || op.Ne?) && NullCheck(st.regs[dst], s)
    ensures var r := CondBranch(pc, st, op, dst, src, s, offset);
            var ptr := if st.regs[dst].PtrToMemOrNull? then dst else src.value;
            && r.Ok? && |r.value| == 2
            && r.value[0].0 == Concrete.BranchTo(pc, offset, Taken(op, 0, 0))
            && r.value[1].0 == Concrete.BranchTo(pc, offset, !Taken(op, 0, 0))
            && r.value[0].1.regs[ptr].Num? && Only(r.value[0].1.regs[ptr].b, 0)
            && r.value[1].1.regs[ptr].PtrToMem?
  {
    hide ReplaceAliases, DropRef;
  }

  /** Comparing two pointers, or a pointer with a number, keeps both ways open and learns
      nothing. */
  lemma PointerBranchOpen(pc: U32, st: State, op: CondOp, dst: Reg, src: Option<Reg>, s: RegState, offset: I16)
    requires Comparable(op, st.regs[dst], s) && !(st.regs[dst].Num? && s.Num?) && !NullCheck(st.regs[dst], s)
    ensures CondBranch(pc, st, op, dst, src, s, offset) == Ok([(Target(pc, offset), st), (pc + 1, st)])
  {
    hide ScalarBranch, NullSide, ValidSide;
  }

  /** A side of an ordered comparison of numbers is followed exactly when some pair of the
      compared intervals is on it. */
  lemma OrderedSidesExact(pc: U32, st: State, op: CondOp, dst: Reg, src: Option<Reg>, d: Bounds, s: Bounds,
                          offset: I16, x: U64, y: U64)
    requires !op.Eq? && !op.Ne? && Gamma(d, x) && Gamma(s, y)
    ensures var r := ScalarBranch(pc, st, op, dst, src, d, s, offset);
            var yes := Meets(Ord(op), true, Of(IsSigned(op), d), Of(IsSigned(op), s));
            var no := Meets(Ord(op), false, Of(IsSigned(op), d), Of(IsSigned(op), s));
            && |r| == (if yes then 1 else 0) + (if no then 1 else 0)
            && (yes ==> r[0].0 == Target(pc, offset)) && (no ==> r[|r| - 1].0 == pc + 1)
  {
    hide RefinedSide, RefineCmp, Tnum.Contains, IsBranchTaken, Target;
    OrderedVerdictExact(op, d, s);
    var dr, sr := Of(IsSigned(op), d), Of(IsSigned(op), s);
    assert InRange(dr, dr.0) && InRange(sr, sr.0);
    assert AllCompare(Ord(op), true, dr, sr) <==> !Meets(Ord(op), false, dr, sr);
    assert AllCompare(Ord(op), false, dr, sr) <==> !Meets(Ord(op), true, dr, sr);
  }

  /** For equality, one side is dropped only between equal constants or ranges without a
      common value. */
  lemma EqualitySidesExact(pc: U32, st: State, op: CondOp, dst: Reg, src: Option<Reg>, d: Bounds, s: Bounds,
                           offset: I16, x: U64, y: U64)
    requires (op.Eq? || op.Ne?) && Gamma(d, x) && Gamma(s, y)
    ensures var r := ScalarBranch(pc, st, op, dst, src, d, s, offset);
            var equal := d.IsConstant() && s.IsConstant() && x == y;
            var unequal := !CommonPoint(d.SRange(), s.SRange()) || !CommonPoint(d.URange(), s.URange());
            if equal || unequal then |r| == 1 && r[0].0 == Concrete.BranchTo(pc, offset, Taken(op, x, y))
            else |r| == 2 && r[0].0 == Target(pc, offset) && r[1].0 == pc + 1
  {
    hide RefinedSide, RefineCmp, Tnum.Contains, Tnum.IsConstant, IsBranchTaken, Target;
    EqualityVerdictExact(d, s, x, y);
    if x == y {
      assert InRange(d.SRange(), Signed64(x)) && InRange(s.SRange(), Signed64(x));
      assert InRange(d.URange(), x) && InRange(s.URange(), x);
    }
  }

  /** A register compared with itself goes one way, the one equal operands take. */
  lemma SelfCompareExact(pc: U32, st: State, op: CondOp, r: Reg, offset: I16, x: U64)
    requires st.regs[r].Num?
    ensures Abstract.Conditional(pc, st, JCond(op, r, r, offset)) ==
            Ok([(Concrete.BranchTo(pc, offset, Taken(op, x, x)), st)])
  {
  }

  /** A JSET keeps a side unless the members of the tnums all disagree with it, and learns
      at most that the tested bits are clear behind it. */
  lemma JsetSidesExact(pc: U32, st: State, dst: Reg, imm: Option<I32>, d: Bounds, s: Bounds, offset: I16)
    requires d.tnum.Wf() && s.tnum.Wf() && !(d.IsConstant() && s.IsConstant())
    ensures var r := JsetBranch(pc, st, dst, imm, d, s, offset);
            var yes, no := !AllTest(d.tnum, s.tnum, false), !AllTest(d.tnum, s.tnum, true);
            && |r| == (if yes then 1 else 0) + (if no then 1 else 0)
            && (yes ==> r[0] == (Target(pc, offset), st))
            && (no ==> r[|r| - 1].0 == pc + 1 && (imm.None? || !yes ==> r[|r| - 1].1 == st)
                       && forall k :: 0 <= k < 11 && k != dst ==> r[|r| - 1].1.regs[k] == st.regs[k])
  {
    hide AllTest, JsetVerdict, ApplyAlu, Target, Const, Tnum.Wf;
    JsetVerdictExact(d, s);
    MemberTests(d.tnum, s.tnum);
  }

  lemma MemberTests(a: Tnum, b: Tnum)
    requires a.Wf() && b.Wf()
    ensures !(AllTest(a, b, true) && AllTest(a, b, false))
  {
    hide Tnum.Wf, Tnum.Contains, And64;
    LeastAndGreatest(a);
    LeastAndGreatest(b);
    assert And64(a.value, b.value) != 0 || And64(a.value, b.value) == 0;
  }

  // ── Linked scalars ───────────────────────────────────────────────────────

  /** A register outside the group is not touched by its sync; one at the same distance
      from the base gets the same bounds; one further on what adding the difference
      allows. */
  lemma SyncPrecise(v: RegState, id: U32, knownDelta: I32, known: Bounds)
    requires id != 0
    ensures !v.Num? || v.b.id != id ==> SyncReg(v, id, knownDelta, known) == v
    ensures v.Num? && v.b.id == id && v.b.delta == knownDelta ==>
              BoundsEqual(SyncReg(v, id, knownDelta, known).b, known)
    ensures v.Num? && v.b.id == id && v.b.delta != knownDelta && !BoundsEqual(v.b, known) ==>
              var moved := ApplyAlu(Scalar.Add, W64, known, Const(v.b.delta - knownDelta));
              BoundsEqual(SyncReg(v, id, knownDelta, known).b, moved)
  {
    hide ApplyAlu, Const;
  }

  /** The refined operands themselves are written, and no register of another group. */
  lemma SideTouches(st: State, dst: Reg, src: Option<Reg>, d: Bounds, s: Bounds, side: (Bounds, Bounds), r: Reg)
    requires st.regs[dst] == Num(d) && (src.Some? ==> st.regs[src.value] == Num(s) && src.value != dst)
    ensures var next := RefinedSide(st, dst, src, d, s, side);
            && next.bytes == st.bytes && next.refs == st.refs && next.frame == st.frame
            && (r != dst && src != Some(r) && Unlinked(st.regs[r], d, s) ==> next.regs[r] == st.regs[r])
            && (src.None? || side.0.id == 0 || side.0.id != s.id ==> next.regs[dst] == Num(side.0))
            && (src.Some? && (side.1.id == 0 || side.1.id != d.id) ==> next.regs[src.value] == Num(side.1))
  {
    hide Shifted, FullSpill;
  }

  predicate Unlinked(v: RegState, d: Bounds, s: Bounds) { v.Num? ==> v.b.id == 0 || (v.b.id != d.id && v.b.id != s.id) }

  // ── Helpers and references ───────────────────────────────────────────────

  /** What a helper needs: the ring buffer map, numbers and a free entry to reserve; an
      active reference and a number to submit or discard. */
  predicate Callable(st: State, imm: I32) {
    || IsScalarHelper(imm)
    || (imm == 131 && st.regs[1] == PtrToMap(MAP_RINGBUF) && st.regs[2].Num? && st.regs[3].Num? && |st.refs| < MAX_REFS)
    || ((imm == 132 || imm == 133) && st.regs[1].PtrToMem? && st.regs[2].Num? && st.regs[1].ref in st.refs
        && st.regs[1].ref != 0)
  }

  /** Calls are refused exactly when an argument is wrong; they clobber r1 to r5 and leave
      r6 to r10 alone, up to aliases of a released reference. */
  lemma HelperExact(pc: nat, st: State, imm: I32, r: Reg)
    ensures Abstract.CallHelper(pc, st, imm).Ok? <==> Callable(st, imm)
    ensures Callable(st, imm) ==>
              var next := Abstract.CallHelper(pc, st, imm).value;
              && next.bytes == st.bytes && next.frame == st.frame
              && (1 <= r <= 5 ==> next.regs[r].Uninit?)
              && (r >= 6 && !(imm == 132 || imm == 133) ==> next.regs[r] == st.regs[r] && next.spilled == st.spilled)
              && (r >= 6 && (imm == 132 || imm == 133) && !HoldsRef(st.regs[r], st.regs[1].ref) ==>
                    next.regs[r] == st.regs[r])
              && (imm == 131 ==> next.regs[0].PtrToMemOrNull? && next.refs == st.refs + [next.regs[0].ref]
                                 && next.regs[0].ref !in st.refs)
  {
    hide FullSpill, FreshReferenceId, DropRef, Top, Const;
    FreshIsNew(st.refs);
  }

  /** The buffer behind a reservation of a known size is that long, and its last access
      starts eight bytes before its end. */
  lemma ReservedSize(pc: nat, st: State, n: U32)
    requires Callable(st, 131) && st.regs[2] == Num(Const(n)) && 8 <= n <= I32_MAX
    ensures var v := Abstract.CallHelper(pc, st, 131).value.regs[0];
            v.PtrToMemOrNull? && v.size == n && Become(ToValid, v).PtrToMem? && Become(ToValid, v).maxOffset == n - 8
  {
    hide FreshReferenceId;
  }

  /** Replacing the aliases of a reference leaves everything else. */
  lemma AliasesTouch(st: State, id: nat, fate: Fate, r: Reg, s: nat)
    requires s < 64
    ensures var next := ReplaceAliases(st, id, fate);
            && next.bytes == st.bytes && next.refs == st.refs && next.frame == st.frame
            && (!HoldsRef(st.regs[r], id) ==> next.regs[r] == st.regs[r])
            && (!(st.spilled[s].Some? && HoldsRef(st.spilled[s].value, id)) ==> next.spilled[s] == st.spilled[s])
            && (HoldsRef(st.regs[r], id) ==> next.regs[r] == Become(fate, st.regs[r]))
  {
    hide FullSpill;
  }

  // ── Whole instructions ───────────────────────────────────────────────────

  /** What each instruction asks of the state it is executed in. */
  ghost predicate Acceptable(st: State, insn: Insn)
    requires forall r :: 0 <= r < 11 ==> IntervalsOrdered(st.regs[r])
  {
    match insn
    case MovReg(_, src) => !st.regs[src].Uninit?
    case Mov32Reg(_, src) => st.regs[src].Num?
    case NegReg(_, dst) => st.regs[dst].Num?
    case AluImm(op, width, dst, imm) =>
      (IsShift(op) ==> 0 <= imm < BitWidth(width)) && Computes(op, width, st.regs[dst], Num(Const(imm)))
    case AluReg(op, width, dst, src) => Computes(op, width, st.regs[dst], st.regs[src])
    case LdMem(_, base, offset, size, _) => Loadable(st, st.regs[base], offset, size.Bytes())
    case StMem(src, base, offset, size) => StorableAt(st, st.regs[base], offset, size.Bytes(), st.regs[src])
    case StMemImm(imm, base, offset, size) => StorableAt(st, st.regs[base], offset, size.Bytes(), Num(Const(imm)))
    case Call(imm) => Callable(st, imm)
    case JCond(op, dst, src, _) => Comparable(op, st.regs[dst], st.regs[src])
    case JCondImm(op, dst, imm, _) => Comparable(op, st.regs[dst], Num(Const(imm)))
    case Jset(dst, src, _) => st.regs[dst].Num? && st.regs[src].Num?
    case JsetImm(dst, _, _) => st.regs[dst].Num?
    case LdMapValue(_, _, _) => false
    case CallSub(_) => false
    case _ => true
  }

  /** The abstract interpreter refuses an instruction exactly when the state does not offer
      what it asks for. */
  lemma AcceptsExactly(pc: U32, st: State, insn: Insn)
    requires forall r :: 0 <= r < 11 ==> IntervalsOrdered(st.regs[r])
    ensures Abstract.Successors(pc, st, insn).Ok? <==> Acceptable(st, insn)
  {
    hide Computes, Loadable, StorableAt, Callable, Comparable, ApplyAlu, Const, FromSigned, Mov32Bounds,
         NegBounds, CondBranch, JsetBranch, Abstract.AluImm, Abstract.AluReg, StackRead, StackWrite,
         Abstract.CallHelper, Target;
    if insn.IsConditional() {
      ConditionalAccepts(pc, st, insn);
    } else if insn.AluImm? {
      AluImmAccepts(pc, st, insn.op, insn.width, insn.dst, insn.imm);
    } else if insn.AluReg? {
      AluRegAccepts(pc, st, insn.op, insn.width, insn.dst, insn.src);
    } else if insn.LdMem? {
      ReadAccepts(pc, st, insn.base, insn.offset, insn.size.Bytes(), insn.signExtend);
    } else if insn.StMem? {
      WriteAccepts(pc, st, insn.base, insn.offset, insn.size.Bytes(), st.regs[insn.src]);
    } else if insn.StMemImm? {
      WriteAccepts(pc, st, insn.base, insn.offset, insn.size.Bytes(), Num(Const(insn.imm)));
    } else if insn.Call? {
      HelperExact(pc, st, insn.imm, 0);
    }
  }

  lemma ConditionalAccepts(pc: U32, st: State, insn: Insn)
    requires insn.IsConditional() && forall r :: 0 <= r < 11 ==> IntervalsOrdered(st.regs[r])
    ensures Abstract.Conditional(pc, st, insn).Ok? <==> Acceptable(st, insn)
  {
    hide Loadable, StorableAt, Const, CondBranch, JsetBranch, Target;
    if insn.JCond? {
      BranchAccepts(pc, st, insn.cond, insn.dst, Some(insn.src), st.regs[insn.src], insn.offset);
    } else if insn.JCondImm? {
      BranchAccepts(pc, st, insn.cond, insn.dst, None, Num(Const(insn.imm)), insn.offset);
    }
  }

  /** A refusal names the instruction. */
  lemma RefusedHere(pc: U32, st: State, insn: Insn)
    requires Abstract.Successors(pc, st, insn).Err?
    ensures Abstract.Successors(pc, st, insn).error == Rejection(pc)
  {
    hide ApplyAlu, Const, FromSigned, Mov32Bounds, NegBounds, ScalarBranch, JsetBranch, Target, ReplaceAliases, DropRef,
         AddAlign, AddScalarAlign, SpillStore, ScrubStore, CoerceScalar, AllMarked, NoneInvalid, VariableReadable,
         FreshReferenceId, NullSide, ValidSide;
    if insn.LdMem? {
      ReadRefusedHere(pc, st, insn.base, insn.offset, insn.size.Bytes(), insn.signExtend);
    }
  }

  lemma ReadRefusedHere(pc: nat, st: State, base: Reg, offset: I16, size: nat, signExtend: bool)
    requires ValidSize(size) && StackRead(pc, st, base, offset, size, signExtend).Err?
    ensures StackRead(pc, st, base, offset, size, signExtend).error == Rejection(pc)
  {
    hide CoerceScalar, AllMarked, NoneInvalid, VariableReadable, Top, Const;
  }
}
