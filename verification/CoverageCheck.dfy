/** The repository's own soundness question (`src/concrete.rs`, `check_coverage`):
    every recorded concrete state is covered by a recorded abstract state, both
    cleaned of dead data. */
module CoverageCheck {
  import opened Words
  import opened Bits
  import opened TnumDomain
  import opened Scalar
  import opened AluSound
  import opened Insn
  import opened Abstract
  import opened Offsets
  import opened Coverage
  import opened SlotMemory
  import opened FreshBytes
  import opened DeadState
  import opened Runs
  import opened StackSound
  import C = Concrete

  // ── `abstract_covers` and `state_covers` ─────────────────────────────────

  /** Imprecise scalars cover everything; the recorded states hold no others. */
  predicate ScalarCovers(precise: bool, b: Bounds, x: U64) {
    precise ==> b.smin <= Signed64(x) <= b.smax && b.umin <= x <= b.umax && b.tnum.Contains(x)
  }

  predicate InRange(ptr: RegState, o: int)
    requires ptr.PtrToStack?
  {
    ptr.min <= o <= ptr.max && Aligned(ptr.align, o)
  }

  predicate AbstractCovers(precise: bool, v: RegState, cv: C.Value) {
    match v
    case Uninit => false
    case Num(b) => cv.Number? && ScalarCovers(precise, b, cv.bits)
    case PtrToStack(_, _, _, _) => cv.StackPtr? && InRange(v, C.PtrOffset(cv.bits))
    case PtrToCtx(off) => cv == C.CtxPtr(Wrap64(C.CTX_BASE + off))
    case PtrToMap(_) => false
    case PtrToMem(_, _) => cv == C.Number(0)
    case PtrToMemOrNull(_, _) => cv == C.Number(0)
  }

  predicate RegisterCovers(precise: bool, v: RegState, cv: Option<C.Value>) {
    if cv.None? then v.Uninit? else AbstractCovers(precise, v, cv.value)
  }

  predicate SpillByteCovers(precise: bool, spill: Option<RegState>, cv: C.Value, j: nat) {
    && spill.Some?
    && if spill.value.Num? && spill.value.b.IsConstant()
       then ByteOf(cv.bits, j) == ByteOf(Wrap64(spill.value.b.smin), j)
       else AbstractCovers(precise, spill.value, cv)
  }

  predicate MarkCovers(precise: bool, mark: StackByte, spill: Option<RegState>, cv: C.Value, j: nat) {
    match mark
    case Misc => true
    case Zero => ByteOf(cv.bits, j) == 0
    case Spill => SpillByteCovers(precise, spill, cv, j)
    case Invalid => ByteOf(cv.bits, j) == 0
  }

  predicate CellCovers(precise: bool, bytes: Marks, s: nat, spill: Option<RegState>, cell: Option<C.Value>)
    requires s < 64
  {
    if cell.None? then forall j: nat :: j < 8 ==> Mark(bytes, s, j).Invalid? || Mark(bytes, s, j).Misc?
    else forall j: nat :: j < 8 ==> MarkCovers(precise, Mark(bytes, s, j), spill, cell.value, j)
  }

  predicate StateCovers(precise: bool, a: State, c: C.State) {
    && (forall r :: 0 <= r < 11 ==> RegisterCovers(precise, a.regs[r], c.regs[r]))
    && (forall s: nat :: s < 64 ==> CellCovers(precise, a.bytes, s, a.spilled[s], c.stack[s]))
  }

  // ── What passing means ───────────────────────────────────────────────────

  predicate At(bits: U64, o: int) { bits == Wrap64(C.STACK_BASE + o) }

  /** The number is in both intervals and has every known bit. */
  ghost predicate NumberIn(b: Bounds, x: U64) {
    && b.smin <= Signed64(x) <= b.smax && b.umin <= x <= b.umax
    && forall k: nat :: k < 64 && Known(b.tnum, k) ==> Bit(x, k) == Bit(b.tnum.value, k)
  }

  /** The address is r10 plus an offset of the interval, aligned as tracked. */
  ghost predicate PointsInto(v: RegState, bits: U64)
    requires v.PtrToStack?
  {
    exists o: int :: At(bits, o) && v.min <= o <= v.max && (v.align != ALIGN_UNKNOWN ==> o % 8 == v.align)
  }

  /** Same kind on both sides, and the value where the kind has one. */
  ghost predicate Matches(precise: bool, v: RegState, cv: Option<C.Value>) {
    && (cv.None? <==> v.Uninit?)
    && (v.Num? ==> cv.Some? && cv.value.Number? && (precise ==> NumberIn(v.b, cv.value.bits)))
    && (v.PtrToStack? ==> cv.Some? && cv.value.StackPtr? && PointsInto(v, cv.value.bits))
    && (v.PtrToCtx? ==> cv == Some(C.CtxPtr(Wrap64(C.CTX_BASE + v.off))))
    && !v.PtrToMap?
    && (v.PtrToMem? || v.PtrToMemOrNull? ==> cv == Some(C.Number(0)))
  }

  ghost predicate ConstantSpill(spill: Option<RegState>) {
    spill.Some? && spill.value.Num? && spill.value.b.IsConstant()
  }

  /** The byte of a frame its mark allows. */
  ghost predicate ByteMatches(precise: bool, mark: StackByte, spill: Option<RegState>, cell: Option<C.Value>, j: nat) {
    && (mark.Zero? ==> cell.Some? && ByteOf(cell.value.bits, j) == 0)
    && (mark.Invalid? && cell.Some? ==> ByteOf(cell.value.bits, j) == 0)
    && (mark.Spill? ==> cell.Some? && spill.Some?)
    && (mark.Spill? && ConstantSpill(spill) ==> ByteOf(cell.value.bits, j) == ByteOf(Wrap64(spill.value.b.smin), j))
    && (mark.Spill? && !ConstantSpill(spill) ==> Matches(precise, spill.value, cell))
  }

  ghost predicate FrameByteMatches(precise: bool, a: State, c: C.State, o: int)
    requires -512 <= o < 0
  {
    ByteMatches(precise, a.bytes[0 - o - 1], a.spilled[SlotOf(o)], c.stack[SlotOf(o)], SlotMemory.IndexOf(o))
  }

  /** Register by register and frame byte by frame byte. */
  ghost predicate StateMatches(precise: bool, a: State, c: C.State) {
    && (forall r :: 0 <= r < 11 ==> Matches(precise, a.regs[r], c.regs[r]))
    && (forall o: int :: -512 <= o < 0 ==> FrameByteMatches(precise, a, c, o))
  }

  lemma RegisterMeans(precise: bool, v: RegState, cv: Option<C.Value>)
    ensures RegisterCovers(precise, v, cv) <==> Matches(precise, v, cv)
  {
    hide C.PtrOffset, Tnum.Contains, Bit;
    if v.Num? && cv.Some? && cv.value.Number? {
      ContainsIsAgreement(v.b.tnum, cv.value.bits);
    }
    if v.PtrToStack? && cv.Some? && cv.value.StackPtr? {
      PointerMeans(v, cv.value.bits);
    }
  }

  lemma PointerMeans(v: RegState, bits: U64)
    requires v.PtrToStack?
    ensures InRange(v, C.PtrOffset(bits)) <==> PointsInto(v, bits)
  {
    OffsetAt(bits);
    hide C.PtrOffset;
    if o: int :| At(bits, o) && v.min <= o <= v.max && (v.align != ALIGN_UNKNOWN ==> o % 8 == v.align) {
      PtrOffsetOf(o);
    }
  }

  lemma OffsetAt(bits: U64)
    ensures At(bits, C.PtrOffset(bits))
  {
    var z := Signed64(bits) - C.STACK_BASE;
    WrapOfSigned(Wrap64(z));
    WrapAdd(C.PtrOffset(bits), C.STACK_BASE);
    WrapAdd(z, C.STACK_BASE);
    WrapOfSigned(bits);
  }

  lemma ByteMeans(precise: bool, mark: StackByte, spill: Option<RegState>, cell: Option<C.Value>, j: nat)
    ensures ByteMatches(precise, mark, spill, cell, j) <==>
            if cell.None? then mark.Invalid? || mark.Misc? else MarkCovers(precise, mark, spill, cell.value, j)
  {
    hide Matches, AbstractCovers, ByteOf, Bounds.IsConstant;
    if spill.Some? && cell.Some? {
      RegisterMeans(precise, spill.value, cell);
    }
  }

  /** A state passes exactly when it matches: nothing of another kind, outside its
      range or with other bytes is let through. */
  lemma CheckMeans(precise: bool, a: State, c: C.State)
    ensures StateCovers(precise, a, c) <==> StateMatches(precise, a, c)
  {
    hide RegisterCovers, Matches, MarkCovers, ByteMatches;
    forall r | 0 <= r < 11
      ensures RegisterCovers(precise, a.regs[r], c.regs[r]) <==> Matches(precise, a.regs[r], c.regs[r])
    {
      RegisterMeans(precise, a.regs[r], c.regs[r]);
    }
    forall s: nat, j: nat | s < 64 && j < 8
      ensures ByteMatches(precise, Mark(a.bytes, s, j), a.spilled[s], c.stack[s], j) <==>
              if c.stack[s].None? then Mark(a.bytes, s, j).Invalid? || Mark(a.bytes, s, j).Misc?
              else MarkCovers(precise, Mark(a.bytes, s, j), a.spilled[s], c.stack[s].value, j)
    {
      ByteMeans(precise, Mark(a.bytes, s, j), a.spilled[s], c.stack[s], j);
    }
    SlotsAreBytes(precise, a, c);
  }

  lemma SlotsAreBytes(precise: bool, a: State, c: C.State)
    ensures (forall o: int :: -512 <= o < 0 ==> FrameByteMatches(precise, a, c, o)) <==>
            forall s: nat, j: nat :: s < 64 && j < 8 ==>
              ByteMatches(precise, Mark(a.bytes, s, j), a.spilled[s], c.stack[s], j)
  {
    hide ByteMatches;
    forall s: nat, j: nat | s < 64 && j < 8 && forall o: int :: -512 <= o < 0 ==> FrameByteMatches(precise, a, c, o)
      ensures ByteMatches(precise, Mark(a.bytes, s, j), a.spilled[s], c.stack[s], j)
    {
      var o := 0 - (8 * s + 7 - j) - 1;
      assert SlotOf(o) == s && SlotMemory.IndexOf(o) == j && FrameByteMatches(precise, a, c, o);
    }
    forall o: int | -512 <= o < 0
      ensures 0 <= SlotOf(o) < 64 && 0 <= SlotMemory.IndexOf(o) < 8
      ensures a.bytes[0 - o - 1] == Mark(a.bytes, SlotOf(o), SlotMemory.IndexOf(o))
    {
    }
  }

  // ── The check ────────────────────────────────────────────────────────────

  datatype Kind = AbstractMissedPc | NotCovered

  datatype Violation = Violation(pc: nat, kind: Kind, concrete: C.State)

  type Recorded = map<nat, seq<State>>

  predicate SomeCovers(precise: bool, candidates: seq<State>, c: C.State) {
    exists i :: 0 <= i < |candidates| && StateCovers(precise, candidates[i], c)
  }

  predicate CoveredBySome(precise: bool, states: Recorded, v: Point) {
    v.0 in states && SomeCovers(precise, states[v.0], v.1)
  }

  ghost predicate MatchedBySome(precise: bool, states: Recorded, v: Point) {
    v.0 in states && exists i :: 0 <= i < |states[v.0]| && StateMatches(precise, states[v.0][i], v.1)
  }

  lemma CoveredIsMatched(precise: bool, states: Recorded, v: Point)
    ensures CoveredBySome(precise, states, v) <==> MatchedBySome(precise, states, v)
  {
    hide StateCovers, StateMatches;
    if v.0 in states {
      forall i | 0 <= i < |states[v.0]|
        ensures StateCovers(precise, states[v.0][i], v.1) <==> StateMatches(precise, states[v.0][i], v.1)
      {
        CheckMeans(precise, states[v.0][i], v.1);
      }
    }
  }

  function ViolationOf(states: Recorded, v: Point): Violation {
    Violation(v.0, if v.0 in states then NotCovered else AbstractMissedPc, v.1)
  }

  /** w is the violation of one of the first n records. */
  ghost predicate Reported(precise: bool, states: Recorded, visited: seq<Point>, n: nat, w: Violation)
    requires n <= |visited|
  {
    exists i :: 0 <= i < n && !MatchedBySome(precise, states, visited[i]) && w == ViolationOf(states, visited[i])
  }

  /** `check_coverage`: the violations are exactly the records no candidate matches. */
  method CheckCoverage(precise: bool, states: Recorded, visited: seq<Point>) returns (violations: seq<Violation>)
    ensures forall w :: w in violations <==> Reported(precise, states, visited, |visited|, w)
    ensures violations == [] <==> forall i :: 0 <= i < |visited| ==> CoveredBySome(precise, states, visited[i])
  {
    hide StateCovers, MatchedBySome;
    violations := [];
    for i := 0 to |visited|
      invariant forall w :: w in violations <==> Reported(precise, states, visited, i, w)
      invariant violations == [] <==> forall k :: 0 <= k < i ==> CoveredBySome(precise, states, visited[k])
    {
      CoveredIsMatched(precise, states, visited[i]);
      var (pc, c) := visited[i];
      if pc !in states {
        violations := violations + [Violation(pc, AbstractMissedPc, c)];
      } else if !SomeCovers(precise, states[pc], c) {
        violations := violations + [Violation(pc, NotCovered, c)];
      }
    }
  }

  // ── Covered states pass it, up to saturated pointers ─────────────────────

  /** The stack pointers of a state are in the interval they are tracked with. */
  ghost predicate PointerInside(v: RegState, cv: Option<C.Value>) {
    v.PtrToStack? && cv.Some? && cv.value.StackPtr? ==> InRange(v, C.PtrOffset(cv.value.bits))
  }

  ghost predicate SlotInside(bytes: Marks, s: nat, spill: Option<RegState>, cell: Option<C.Value>)
    requires s < 64
  {
    FullSpill(bytes, s) && spill.Some? ==> PointerInside(spill.value, cell)
  }

  ghost predicate PointersInside(a: State, c: C.State) {
    && (forall r :: 0 <= r < 11 ==> PointerInside(a.regs[r], c.regs[r]))
    && (forall s: nat :: s < 64 ==> SlotInside(a.bytes, s, a.spilled[s], c.stack[s]))
  }

  /** The slot holds low bytes of a scalar that is not constant. */
  ghost predicate PartSpill(bytes: Marks, s: nat, spill: Option<RegState>)
    requires s < 64
  {
    !FullSpill(bytes, s) && AnyMark(bytes, s, Spill) && spill.Some? && spill.value.Num? && !spill.value.b.IsConstant()
  }

  lemma ValueCovered(base: Base, precise: bool, v: RegState, cv: Option<C.Value>)
    requires RegCovers(base, v, cv)
    ensures RegisterCovers(precise, v, cv) <==> PointerInside(v, cv)
  {
    hide Tnum.Contains, C.PtrOffset;
  }

  lemma CellCovered(base: Base, precise: bool, bytes: Marks, s: nat, spill: Option<RegState>, cell: Option<C.Value>)
    requires s < 64 && SlotCovers(base, bytes, s, spill, cell)
    requires forall j: nat :: j < 8 && Mark(bytes, s, j).Invalid? ==> ByteOf(C.CellBits(cell), j) == 0
    requires precise ==> !PartSpill(bytes, s, spill)
    ensures CellCovers(precise, bytes, s, spill, cell) <==> SlotInside(bytes, s, spill, cell)
  {
    hide RegCovers, ByteOf, AbstractCovers, PointerInside, Bounds.IsConstant, Gamma;
    if FullSpill(bytes, s) {
      FullSpillMarks(bytes, s);
      FullCellCovered(base, precise, bytes, s, spill, cell);
    } else if cell.Some? && AnyInit(bytes, s) {
      var w: U64 :| BytesMatch(bytes, s, spill, cell.value.bits, w);
      forall j: nat | j < 8
        ensures MarkCovers(precise, Mark(bytes, s, j), spill, cell.value, j)
      {
        assert ByteCovers(Mark(bytes, s, j), cell.value.bits, w, j);
        if Mark(bytes, s, j).Spill? {
          assert AnyMark(bytes, s, Spill);
          PartByteCovered(precise, spill, cell.value, w, j);
        }
      }
    }
  }

  lemma PartByteCovered(precise: bool, spill: Option<RegState>, cv: C.Value, w: U64, j: nat)
    requires SpillAdmits(spill, w) && cv.Number? && ByteOf(cv.bits, j) == ByteOf(w, j)
    requires precise ==> spill.value.b.IsConstant()
    ensures SpillByteCovers(precise, spill, cv, j)
  {
    hide Tnum.Contains, ByteOf;
    if spill.value.b.IsConstant() {
      ConstantMember(spill.value.b, w);
    }
  }

  lemma FullCellCovered(base: Base, precise: bool, bytes: Marks, s: nat, spill: Option<RegState>, cell: Option<C.Value>)
    requires s < 64 && FullSpill(bytes, s) && SlotCovers(base, bytes, s, spill, cell)
    requires forall j: nat :: j < 8 ==> Mark(bytes, s, j).Spill?
    ensures CellCovers(precise, bytes, s, spill, cell) <==> SlotInside(bytes, s, spill, cell)
  {
    hide ByteOf, AbstractCovers, PointerInside, Gamma, FullSpill, Mark, OffsetCovers, C.PtrOffset;
    ValueCovered(base, precise, spill.value, cell);
    if spill.value.Num? && spill.value.b.IsConstant() {
      ConstantCell(base, spill.value, cell);
    } else {
      assert Mark(bytes, s, 0).Spill?;
    }
  }

  lemma ConstantCell(base: Base, v: RegState, cell: Option<C.Value>)
    requires RegCovers(base, v, cell) && v.Num? && v.b.IsConstant()
    ensures cell.Some? && cell.value.bits == Wrap64(v.b.smin) && PointerInside(v, cell)
  {
    hide Tnum.Contains;
    ConstantMember(v.b, cell.value.bits);
  }

  /** A covered state passes the check exactly when its stack pointers are in their
      intervals; without the shortcut for imprecise scalars, slots that hold part of
      a scalar are left out. */
  lemma CheckIsInside(base: Base, precise: bool, a: State, c: C.State)
    requires CoversOn(base, a, c) && FreshZero(a.bytes, c.stack)
    requires precise ==> forall s: nat :: s < 64 ==> !PartSpill(a.bytes, s, a.spilled[s])
    ensures StateCovers(precise, a, c) <==> PointersInside(a, c)
  {
    hide RegCovers, SlotCovers, RegisterCovers, CellCovers, PointerInside, SlotInside, PartSpill, ByteOf, Mark;
    forall r | 0 <= r < 11
      ensures RegisterCovers(precise, a.regs[r], c.regs[r]) <==> PointerInside(a.regs[r], c.regs[r])
    {
      ValueCovered(base, precise, a.regs[r], c.regs[r]);
    }
    forall s: nat | s < 64
      ensures CellCovers(precise, a.bytes, s, a.spilled[s], c.stack[s]) <==>
              SlotInside(a.bytes, s, a.spilled[s], c.stack[s])
    {
      CellCovered(base, precise, a.bytes, s, a.spilled[s], c.stack[s]);
    }
  }

  // ── Saturated pointers ───────────────────────────────────────────────────

  /** A stack pointer whose interval was clamped: it may be anywhere. */
  predicate Loose(v: RegState) { v.PtrToStack? && Saturated(v.min, v.max) }

  ghost predicate NoLoose(a: State) {
    && (forall r :: 0 <= r < 11 ==> !Loose(a.regs[r]))
    && (forall s: nat :: s < 64 && FullSpill(a.bytes, s) && a.spilled[s].Some? ==> !Loose(a.spilled[s].value))
  }

  lemma TightInside(base: Base, v: RegState, cv: Option<C.Value>)
    requires RegCovers(base, v, cv) && !Loose(v)
    ensures PointerInside(v, cv)
  {
    hide Gamma, C.PtrOffset;
  }

  lemma NoLooseInside(base: Base, a: State, c: C.State)
    requires CoversOn(base, a, c) && NoLoose(a)
    ensures PointersInside(a, c)
  {
    hide RegCovers, Loose, PointerInside, FullSpill;
    forall r | 0 <= r < 11
      ensures PointerInside(a.regs[r], c.regs[r])
    {
      assert RegCovers(base, a.regs[r], c.regs[r]);
      TightInside(base, a.regs[r], c.regs[r]);
    }
    forall s: nat | s < 64
      ensures SlotInside(a.bytes, s, a.spilled[s], c.stack[s])
    {
      assert SlotCovers(base, a.bytes, s, a.spilled[s], c.stack[s]);
      if FullSpill(a.bytes, s) {
        TightInside(base, a.spilled[s].value, c.stack[s]);
      }
    }
  }

  /** A concrete pointer a clamped interval covers and does not contain. */
  function Stray(v: RegState): C.Value
    requires v.PtrToStack?
  {
    C.StackPtr(Wrap64(C.STACK_BASE + v.max + 1), v.frameno)
  }

  lemma StrayCovered(base: Base, v: RegState, cv: Option<C.Value>)
    requires RegCovers(base, v, cv) && Loose(v)
    ensures RegCovers(base, v, Some(Stray(v))) && !PointerInside(v, Some(Stray(v)))
  {
    hide C.PtrOffset;
    PtrOffsetOf(v.max + 1);
  }

  /** For a clamped pointer some covered state does not pass. */
  lemma LooseStrays(base: Base, a: State, c: C.State) returns (d: C.State)
    requires CoversOn(base, a, c) && FreshZero(a.bytes, c.stack) && !NoLoose(a)
    ensures CoversOn(base, a, d) && FreshZero(a.bytes, d.stack) && !PointersInside(a, d)
  {
    hide RegCovers, Loose, PointerInside, FullSpill, Stray, ByteOf, FreshZero;
    if r: Reg :| Loose(a.regs[r]) {
      LoosePointer(a.regs[r]);
      assert RegCovers(base, a.regs[r], c.regs[r]);
      StrayCovered(base, a.regs[r], c.regs[r]);
      SetRegCovers(base, a, c, r, a.regs[r], Stray(a.regs[r]));
      assert SetReg(a, r, a.regs[r]).regs == a.regs;
      d := C.SetReg(c, r, Stray(a.regs[r]));
      assert !PointerInside(a.regs[r], d.regs[r]);
    } else {
      var s: nat :| s < 64 && FullSpill(a.bytes, s) && a.spilled[s].Some? && Loose(a.spilled[s].value);
      var v := a.spilled[s].value;
      LoosePointer(v);
      assert SlotCovers(base, a.bytes, s, a.spilled[s], c.stack[s]);
      StrayCovered(base, v, c.stack[s]);
      d := c.(stack := c.stack[s := Some(Stray(v))]);
      SpilledStray(base, a, c, s, Some(Stray(v)));
      assert !SlotInside(a.bytes, s, a.spilled[s], d.stack[s]);
    }
  }

  lemma LoosePointer(v: RegState)
    requires Loose(v)
    ensures v.PtrToStack?
  {
  }

  lemma SpilledStray(base: Base, a: State, c: C.State, s: nat, cell: Option<C.Value>)
    requires CoversOn(base, a, c) && FreshZero(a.bytes, c.stack)
    requires s < 64 && FullSpill(a.bytes, s) && SlotCovers(base, a.bytes, s, a.spilled[s], cell)
    ensures CoversOn(base, a, c.(stack := c.stack[s := cell])) && FreshZero(a.bytes, c.stack[s := cell])
  {
    hide RegCovers, SlotCovers, FullSpill, ByteOf, Mark;
    FullSpillMarks(a.bytes, s);
  }

  /** The check passes whatever covered state is recorded. */
  ghost predicate AlwaysPasses(a: State) {
    forall b: Base, d: C.State :: CoversOn(b, a, d) && FreshZero(a.bytes, d.stack) ==> StateCovers(false, a, d)
  }

  /** Every covered state passes the check exactly when no pointer in sight was
      clamped: a caller can tell from the abstract state alone. */
  lemma CheckDecided(base: Base, a: State, c: C.State)
    requires CoversOn(base, a, c) && FreshZero(a.bytes, c.stack)
    ensures AlwaysPasses(a) <==> NoLoose(a)
  {
    hide CoversOn, FreshZero, StateCovers, NoLoose, PointersInside, PartSpill;
    if NoLoose(a) {
      forall b: Base, d: C.State | CoversOn(b, a, d) && FreshZero(a.bytes, d.stack)
        ensures StateCovers(false, a, d)
      {
        NoLooseInside(b, a, d);
        CheckIsInside(b, false, a, d);
      }
    } else {
      var d := LooseStrays(base, a, c);
      CheckIsInside(base, false, a, d);
    }
  }

  // ── Cleaned states ───────────────────────────────────────────────────────

  /** `clean_state` */
  function CleanAbstract(a: State, regs: set<int>, slots: set<int>): State {
    a.(regs := seq(11, r requires 0 <= r < 11 => if Kept(r, regs) then a.regs[r] else Uninit),
       bytes := seq(512, i requires 0 <= i < 512 => if i / 8 in slots then a.bytes[i] else Invalid),
       spilled := seq(64, s requires 0 <= s < 64 => if s in slots then a.spilled[s] else None))
  }

  /** Cleaning keeps r10 and what is live, on both sides, and empties everything else. */
  lemma CleanExact(a: State, c: C.State, regs: set<int>, slots: set<int>, r: Reg, s: nat, i: nat)
    requires s < 64 && i < 512
    ensures var b := CleanAbstract(a, regs, slots);
            && b.refs == a.refs && b.frame == a.frame
            && b.regs[r] == (if r == 10 || r in regs then a.regs[r] else Uninit)
            && b.spilled[s] == (if s in slots then a.spilled[s] else None)
            && b.bytes[i] == (if i / 8 in slots then a.bytes[i] else Invalid)
    ensures var d := Clean(c, regs, slots);
            && d == c.(regs := d.regs, stack := d.stack)
            && d.regs[r] == (if r == 10 || r in regs then c.regs[r] else None)
            && d.stack[s] == (if s in slots then c.stack[s] else None)
  {
  }

  /** Both sides drop the same registers and slots, so covering is kept. */
  lemma CleanCovers(base: Base, a: State, c: C.State, regs: set<int>, slots: set<int>)
    requires CoversOn(base, a, c) && FreshZero(a.bytes, c.stack)
    ensures CoversOn(base, CleanAbstract(a, regs, slots), Clean(c, regs, slots))
    ensures FreshZero(CleanAbstract(a, regs, slots).bytes, Clean(c, regs, slots).stack)
  {
    hide RegCovers, SlotCovers, ByteOf;
    var b, d := CleanAbstract(a, regs, slots), Clean(c, regs, slots);
    UninitCovers(base);
    ZeroEverywhere();
    forall s: nat | s < 64
      ensures SlotCovers(base, b.bytes, s, b.spilled[s], d.stack[s])
    {
      assert SlotCovers(base, a.bytes, s, a.spilled[s], c.stack[s]);
      if s in slots {
        UntouchedSlot(base, a.bytes, b.bytes, s, a.spilled[s], c.stack[s]);
      } else {
        BlankSlot(base, b.bytes, s);
      }
    }
    forall s: nat, j: nat | s < 64 && j < 8 && Mark(b.bytes, s, j).Invalid?
      ensures ByteOf(C.CellBits(d.stack[s]), j) == 0
    {
      assert s in slots ==> Mark(a.bytes, s, j).Invalid?;
    }
  }

  lemma BlankSlot(base: Base, bytes: Marks, s: nat)
    requires s < 64 && forall i :: 8 * s <= i < 8 * s + 8 ==> bytes[i].Invalid?
    ensures SlotCovers(base, bytes, s, None, None)
  {
    assert bytes[8 * s].Invalid?;
  }
}
