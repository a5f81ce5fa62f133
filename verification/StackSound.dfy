/** Fixed-offset stack accesses at byte level (`src/exec.rs`): every store keeps
    the marks truthful about the concrete cells, every accepted load covers the
    value the concrete cells yield, for all four widths. */
module StackSound {
  import opened Words
  import opened Bits
  import opened TnumDomain
  import opened Scalar
  import opened AluSound
  import opened Insn
  import opened Abstract
  import opened Offsets
  import opened SlotMemory
  import opened Coverage
  import C = Concrete

  // ── Bytes of words ───────────────────────────────────────────────────────

  ghost predicate SameBytes(n: U64, w: U64, j: nat, m: nat) {
    forall k: nat :: j <= k < j + m ==> ByteOf(n, k) == ByteOf(w, k)
  }

  /** Equal bytes make equal sub-words. */
  lemma {:induction false} SameBytesSameWord(n: U64, w: U64, j: nat, m: nat)
    requires SameBytes(n, w, j, m)
    ensures (n / Pow2(8 * j)) % Pow2(8 * m) == (w / Pow2(8 * j)) % Pow2(8 * m)
    decreases m
  {
    hide Pow2, ByteOf;
    if m == 0 {
      Pow2Zero();
    } else {
      SameBytesSameWord(n, w, j + 1, m - 1);
      WordStep(n, j, m);
      WordStep(w, j, m);
    }
  }

  lemma ZeroBytes(j: nat)
    ensures ByteOf(0, j) == 0
  {
    DivUnique(0, Pow2(8 * j), 0, 0);
  }

  lemma ZeroWord(j: nat, m: nat)
    ensures (0 / Pow2(8 * j)) % Pow2(8 * m) == 0
  {
    DivUnique(0, Pow2(8 * j), 0, 0);
    DivUnique(0, Pow2(8 * m), 0, 0);
  }

  /** Two cells agreeing on the accessed bytes yield the same loaded value. */
  lemma ExtractSame(n: U64, w: U64, inSlot: nat, size: nat, signExtend: bool)
    requires ValidSize(size) && inSlot + size <= 8 && SameBytes(n, w, inSlot, size)
    ensures C.Extract(C.Number(n), inSlot, size, signExtend) == C.Extract(C.Number(w), inSlot, size, signExtend)
  {
    hide Pow2, ByteOf, Extend, C.Extract;
    ExtractIsLoad(C.Number(n), inSlot, size, signExtend);
    ExtractIsLoad(C.Number(w), inSlot, size, signExtend);
    SameBytesSameWord(n, w, inSlot, size);
    ExtractIsNumber(n, inSlot, size, signExtend);
    ExtractIsNumber(w, inSlot, size, signExtend);
  }

  lemma ExtractIsNumber(n: U64, inSlot: nat, size: nat, signExtend: bool)
    requires ValidSize(size) && inSlot + size <= 8
    ensures C.Extract(C.Number(n), inSlot, size, signExtend).Number?
  {
    hide And64, Shr, Extend, Pow2;
  }

  lemma ExtractZero(inSlot: nat, size: nat, signExtend: bool)
    requires ValidSize(size) && inSlot + size <= 8
    ensures C.Extract(C.Number(0), inSlot, size, signExtend) == C.Number(0)
  {
    hide Pow2, C.Extract;
    ExtractIsLoad(C.Number(0), inSlot, size, signExtend);
    ZeroWord(inSlot, size);
    ExtractIsNumber(0, inSlot, size, signExtend);
  }

  /** A narrow fill at the slot's lowest byte is the truncated value. */
  lemma ExtractLow(w: U64, size: nat, signExtend: bool)
    requires ValidSize(size)
    ensures C.Extract(C.Number(w), 0, size, signExtend) == C.Number(LoadValue(w, size, signExtend))
  {
    hide Pow2, C.Extract, Extend, LoadValue;
    ExtractIsLoad(C.Number(w), 0, size, signExtend);
    LowWord(w, size, signExtend);
    ExtractIsNumber(w, 0, size, signExtend);
  }

  // ── Marks of one slot ────────────────────────────────────────────────────

  lemma FullSpillMarks(bytes: Marks, slot: nat)
    requires slot < 64
    ensures FullSpill(bytes, slot) <==> forall j: nat :: j < 8 ==> Mark(bytes, slot, j).Spill?
  {
    if forall j: nat :: j < 8 ==> Mark(bytes, slot, j).Spill? {
      forall i | 8 * slot <= i <= 8 * slot + 7
        ensures bytes[i].Spill?
      {
        assert Mark(bytes, slot, 8 * slot + 7 - i).Spill?;
      }
    }
  }

  ghost predicate SameMarks(x: Marks, y: Marks, slot: nat)
    requires slot < 64
  {
    forall j: nat :: j < 8 ==> Mark(x, slot, j) == Mark(y, slot, j)
  }

  lemma UntouchedSlot(base: Base, x: Marks, y: Marks, slot: nat, spill: Option<RegState>, cell: Option<Value>)
    requires slot < 64 && SameMarks(x, y, slot) && SlotCovers(base, x, slot, spill, cell)
    ensures SlotCovers(base, y, slot, spill, cell)
  {
    hide FullSpill, RegCovers, Mark, ByteCovers, SpillAdmits;
    FullSpillMarks(x, slot);
    FullSpillMarks(y, slot);
    if !FullSpill(x, slot) && AnyInit(y, slot) {
      assert AnyInit(x, slot);
      var w: U64 :| BytesMatch(x, slot, spill, cell.value.bits, w);
      assert BytesMatch(y, slot, spill, cell.value.bits, w);
    }
  }

  /** The frame bytes of an access in terms of its cell. */
  predicate Within(a: Access, slot: nat, inSlot: nat, size: nat) {
    && slot < 64 && ValidSize(size) && inSlot + size <= 8
    && a.hi == 8 * slot + 7 - inSlot && a.lo == a.hi - size + 1
  }

  lemma AccessSlot(pc: nat, a: Access, at: int, size: nat)
    requires ValidSize(size) && C.StackRange(pc, at, size).Ok?
    requires a.lo == -at - size && a.hi == -at - 1
    ensures var (slot, inSlot) := C.StackRange(pc, at, size).value;
            Within(a, slot, inSlot, size) && a.hi / 8 == slot && (at % 8 == 0 <==> inSlot == 0)
            && a.lo / 8 == slot
  {
    RangeExact(pc, at, size);
    var (slot, inSlot) := C.StackRange(pc, at, size).value;
    var b := -at - 1;
    assert b == 8 * slot + (7 - inSlot);
    var q: int := -1 - slot;
    assert at == 8 * q + inSlot;
    DivUnique(at, 8, q, inSlot);
    DivUnique(a.lo, 8, slot, 8 - inSlot - size);
  }

  // ── Stores ───────────────────────────────────────────────────────────────

  lemma MergeIsNumber(cell: Option<Value>, inSlot: nat, size: nat, cv: Value)
    requires ValidSize(size) && size < 8 && inSlot + size <= 8
    ensures C.MergeCell(cell, inSlot, size, cv).Number?
  {
    hide And64, Shl, Or64, Pow2;
  }

  lemma SpillStoreMarks(st: State, a: Access, v: RegState, slot: nat, size: nat, j: nat)
    requires Within(a, slot, 0, size) && 0 <= a.lo <= a.hi < 512 && a.hi / 8 == slot && j < 8
    ensures Mark(SpillStore(st, a, v).bytes, slot, j) == if j < size then Spill else Misc
  {
  }

  /** An aligned store leaves the slot covered by the spilled register. */
  lemma SpillSlot(base: Base, st: State, a: Access, v: RegState, slot: nat, size: nat, cell: Option<Value>, cv: Value)
    requires Within(a, slot, 0, size) && 0 <= a.lo <= a.hi < 512 && a.hi / 8 == slot
    requires RegCovers(base, v, Some(cv)) && !v.Uninit? && (size != 8 ==> v.Num?)
    ensures SlotCovers(base, SpillStore(st, a, v).bytes, slot, Some(v), Some(C.MergeCell(cell, 0, size, cv)))
  {
    hide FullSpill, RegCovers, Mark, C.MergeCell, ByteOf, SpillStore;
    var bytes := SpillStore(st, a, v).bytes;
    forall j: nat | j < 8
      ensures Mark(bytes, slot, j) == if j < size then Spill else Misc
    {
      SpillStoreMarks(st, a, v, slot, size, j);
    }
    FullSpillMarks(bytes, slot);
    if size == 8 {
      WholeCell(cell, cv);
    } else {
      NumMember(base, v, cv);
      MergeIsNumber(cell, 0, size, cv);
      var n := C.MergeCell(cell, 0, size, cv).bits;
      assert Mark(bytes, slot, 7).Misc?;
      forall j: nat | j < 8
        ensures ByteCovers(Mark(bytes, slot, j), n, cv.bits, j)
      {
        MergedByte(cell, 0, size, cv, j);
      }
      assert BytesMatch(bytes, slot, Some(v), n, cv.bits);
    }
  }

  lemma NumMember(base: Base, v: RegState, cv: Value)
    requires v.Num? && RegCovers(base, v, Some(cv))
    ensures cv.Number? && SpillAdmits(Some(v), cv.bits)
  {
    hide Gamma;
  }

  /** A cell with an initialized, not fully spilled slot and its Zero bytes. */
  lemma ZeroMarks(base: Base, bytes: Marks, slot: nat, spill: Option<RegState>, cell: Option<Value>, j: nat)
    requires slot < 64 && j < 8 && SlotCovers(base, bytes, slot, spill, cell) && Mark(bytes, slot, j).Zero?
    ensures ByteOf(C.CellBits(cell), j) == 0
  {
    hide FullSpill, RegCovers, Mark, ByteOf, SpillAdmits;
    FullSpillMarks(bytes, slot);
    assert AnyInit(bytes, slot);
    var n := cell.value.bits;
    var w: U64 :| BytesMatch(bytes, slot, spill, n, w);
    assert ByteCovers(Mark(bytes, slot, j), n, w, j);
  }

  /** The mark a non-spilling store leaves behind. */
  function StoreMark(v: RegState): StackByte { if v.Num? && v.b.IsConstant() && v.b.smin == 0 then Zero else Misc }

  lemma ScrubStoreMarks(st: State, a: Access, mark: StackByte, slot: nat, inSlot: nat, size: nat, j: nat)
    requires Within(a, slot, inSlot, size) && 0 <= a.lo && a.hi < 512 && a.hi / 8 == slot && a.lo / 8 == slot && j < 8
    ensures var prior := Mark(st.bytes, slot, j);
            Mark(ScrubStore(st, a, mark).bytes, slot, j) ==
            if inSlot <= j < inSlot + size then mark else if prior.Spill? then Misc else prior
  {
  }

  lemma ZeroValue(base: Base, v: RegState, cv: Value)
    requires RegCovers(base, v, Some(cv)) && StoreMark(v).Zero?
    ensures cv.bits == 0
  {
    hide Tnum.Contains;
    ConstantMember(v.b, cv.bits);
  }

  /** Any other store leaves numbers whose Zero bytes are 0. */
  lemma ScrubSlot(base: Base, st: State, a: Access, v: RegState, slot: nat, inSlot: nat, size: nat,
                  cell: Option<Value>, cv: Value)
    requires Within(a, slot, inSlot, size) && 0 <= a.lo && a.hi < 512 && a.hi / 8 == slot && a.lo / 8 == slot
    requires size < 8 && RegCovers(base, v, Some(cv)) && SlotCovers(base, st.bytes, slot, st.spilled[slot], cell)
    ensures SlotCovers(base, ScrubStore(st, a, StoreMark(v)).bytes, slot, None,
                       Some(C.MergeCell(cell, inSlot, size, cv)))
  {
    assert StoreMark(v) == Zero || StoreMark(v) == Misc;
    hide FullSpill, RegCovers, Mark, C.MergeCell, ByteOf, ScrubStore, SlotCovers, StoreMark;
    var bytes := ScrubStore(st, a, StoreMark(v)).bytes;
    MergeIsNumber(cell, inSlot, size, cv);
    var n := C.MergeCell(cell, inSlot, size, cv).bits;
    forall j: nat | j < 8
      ensures !Mark(bytes, slot, j).Spill? && ByteCovers(Mark(bytes, slot, j), n, 0, j)
    {
      ScrubStoreMarks(st, a, StoreMark(v), slot, inSlot, size, j);
      if Mark(bytes, slot, j).Zero? {
        MergedByte(cell, inSlot, size, cv, j);
        if inSlot <= j < inSlot + size {
          ZeroValue(base, v, cv);
          ZeroBytes(j - inSlot);
        } else {
          ZeroMarks(base, st.bytes, slot, st.spilled[slot], cell, j);
        }
      }
    }
    NumbersCover(base, bytes, slot, None, n);
  }

  /** A slot without Spill bytes only needs its Zero bytes to be 0. */
  lemma NumbersCover(base: Base, bytes: Marks, slot: nat, spill: Option<RegState>, n: U64)
    requires slot < 64
    requires forall j: nat :: j < 8 ==> !Mark(bytes, slot, j).Spill? && ByteCovers(Mark(bytes, slot, j), n, 0, j)
    ensures SlotCovers(base, bytes, slot, spill, Some(C.Number(n)))
  {
    hide FullSpill, Mark, ByteCovers;
    FullSpillMarks(bytes, slot);
    assert !Mark(bytes, slot, 0).Spill?;
    assert BytesMatch(bytes, slot, spill, n, 0);
  }

  // ── Loads ────────────────────────────────────────────────────────────────

  /** An initialized byte means a written cell, and a number unless the slot is a
      full spill of a pointer. */
  lemma InitializedCell(base: Base, bytes: Marks, slot: nat, spill: Option<RegState>, cell: Option<Value>, j: nat)
    requires slot < 64 && j < 8 && SlotCovers(base, bytes, slot, spill, cell) && !Mark(bytes, slot, j).Invalid?
    requires FullSpill(bytes, slot) ==> IsScalarSpill(spill)
    ensures cell.Some? && cell.value.Number?
  {
    hide FullSpill, Mark, MixedCovers;
    assert !FullSpill(bytes, slot) ==> AnyInit(bytes, slot);
  }

  /** A slot whose accessed bytes are all Spill holds the low bytes of a member. */
  lemma SpillBytes(base: Base, bytes: Marks, slot: nat, spill: Option<RegState>, cell: Option<Value>,
                   inSlot: nat, size: nat) returns (w: U64)
    requires slot < 64 && ValidSize(size) && inSlot + size <= 8
    requires SlotCovers(base, bytes, slot, spill, cell) && IsScalarSpill(spill)
    requires forall j: nat :: inSlot <= j < inSlot + size ==> Mark(bytes, slot, j).Spill?
    ensures cell.Some? && cell.value.Number? && SpillAdmits(spill, w) && SameBytes(cell.value.bits, w, inSlot, size)
  {
    hide Mark, ByteOf, Gamma, FullSpill;
    InitializedCellBytes(base, bytes, slot, spill, cell, inSlot);
    var n := cell.value.bits;
    if FullSpill(bytes, slot) {
      NumMember(base, spill.value, cell.value);
      w := n;
    } else {
      w :| BytesMatch(bytes, slot, spill, n, w);
      assert Mark(bytes, slot, inSlot).Spill?;
      forall k: nat | inSlot <= k < inSlot + size
        ensures ByteOf(n, k) == ByteOf(w, k)
      {
        assert ByteCovers(Mark(bytes, slot, k), n, w, k);
      }
    }
  }

  lemma InitializedCellBytes(base: Base, bytes: Marks, slot: nat, spill: Option<RegState>, cell: Option<Value>, j: nat)
    requires slot < 64 && j < 8 && SlotCovers(base, bytes, slot, spill, cell) && Mark(bytes, slot, j).Spill?
    requires IsScalarSpill(spill)
    ensures cell.Some? && cell.value.Number?
    ensures !FullSpill(bytes, slot) ==> AnyInit(bytes, slot) && MixedCovers(bytes, slot, spill, cell.value.bits)
  {
    hide Mark, MixedCovers, Gamma, FullSpill;
    assert AnyInit(bytes, slot);
  }

  lemma AccessMarks(bytes: Marks, a: Access, slot: nat, inSlot: nat, size: nat, mark: StackByte)
    requires Within(a, slot, inSlot, size) && 0 <= a.lo && a.hi < 512
    ensures AllMarked(bytes, a.lo, a.hi, mark) ==>
              forall j: nat :: inSlot <= j < inSlot + size ==> Mark(bytes, slot, j) == mark
    ensures NoneInvalid(bytes, a.lo, a.hi) ==> !Mark(bytes, slot, inSlot).Invalid?
  {
  }

  /** All accessed bytes Zero: the concrete load yields 0. */
  lemma ZeroRead(base: Base, bytes: Marks, slot: nat, spill: Option<RegState>, cell: Option<Value>,
                 inSlot: nat, size: nat, signExtend: bool)
    requires slot < 64 && ValidSize(size) && inSlot + size <= 8 && SlotCovers(base, bytes, slot, spill, cell)
    requires forall j: nat :: inSlot <= j < inSlot + size ==> Mark(bytes, slot, j).Zero?
    ensures cell.Some? && cell.value.Number?
    ensures C.Extract(cell.value, inSlot, size, signExtend) == C.Number(0)
  {
    hide Mark, FullSpill, ByteOf, C.Extract, SlotCovers;
    FullSpillMarks(bytes, slot);
    assert Mark(bytes, slot, inSlot).Zero?;
    InitializedCell(base, bytes, slot, spill, cell, inSlot);
    var n := cell.value.bits;
    forall k: nat | inSlot <= k < inSlot + size
      ensures ByteOf(n, k) == ByteOf(0, k)
    {
      ZeroMarks(base, bytes, slot, spill, cell, k);
      ZeroBytes(k);
    }
    ExtractSame(n, 0, inSlot, size, signExtend);
    ExtractZero(inSlot, size, signExtend);
  }

  /** A fill of accessed bytes that are all Spill of a constant 0 yields 0. */
  lemma ZeroSpillRead(base: Base, bytes: Marks, slot: nat, spill: Option<RegState>, cell: Option<Value>,
                      inSlot: nat, size: nat, signExtend: bool)
    requires slot < 64 && ValidSize(size) && inSlot + size <= 8 && SlotCovers(base, bytes, slot, spill, cell)
    requires forall j: nat :: inSlot <= j < inSlot + size ==> Mark(bytes, slot, j).Spill?
    requires IsZeroSpill(spill)
    ensures cell.Some? && C.Extract(cell.value, inSlot, size, signExtend) == C.Number(0)
  {
    hide Mark, FullSpill, C.Extract, SlotCovers, SameBytes, Tnum.Contains;
    var w := SpillBytes(base, bytes, slot, spill, cell, inSlot, size);
    ConstantMember(spill.value.b, w);
    ExtractSame(cell.value.bits, 0, inSlot, size, signExtend);
    ExtractZero(inSlot, size, signExtend);
  }

  lemma ZeroCovered(base: Base)
    ensures RegCovers(base, Num(Const(0)), Some(C.Number(0)))
  {
    hide Gamma;
    ConstSound(0, 0);
  }

  lemma TopCovered(base: Base, n: U64)
    ensures RegCovers(base, Num(Top()), Some(C.Number(n)))
  {
    hide Gamma;
    TopSound(n);
  }

  /** A narrow fill at the low end of the slot truncates the spilled scalar. */
  lemma NarrowFill(base: Base, bytes: Marks, slot: nat, spill: Option<RegState>, cell: Option<Value>,
                   size: nat, signExtend: bool)
    requires slot < 64 && ValidSize(size) && size < 8 && SlotCovers(base, bytes, slot, spill, cell)
    requires forall j: nat :: j < size ==> Mark(bytes, slot, j).Spill?
    requires IsScalarSpill(spill)
    ensures cell.Some?
    ensures RegCovers(base, Num(CoerceScalar(spill.value.b, size, signExtend)),
                      Some(C.Extract(cell.value, 0, size, signExtend)))
  {
    hide Mark, FullSpill, C.Extract, SlotCovers, SameBytes, Gamma, CoerceScalar, LoadValue;
    var w := SpillBytes(base, bytes, slot, spill, cell, 0, size);
    ExtractSame(cell.value.bits, w, 0, size, signExtend);
    ExtractLow(w, size, signExtend);
    CoerceSound(spill.value.b, size, signExtend, w);
  }

  /** Every accepted fixed-offset load covers the concrete loaded value. */
  lemma FixedReadCovers(base: Base, pc: nat, st: State, a: Access, slot: nat, inSlot: nat, size: nat,
                        signExtend: bool, cell: Option<Value>)
    requires Within(a, slot, inSlot, size) && 0 <= a.lo <= a.hi < 512 && a.hi / 8 == slot
    requires a.minOff % 8 == 0 <==> inSlot == 0
    requires SlotCovers(base, st.bytes, slot, st.spilled[slot], cell)
    requires FixedRead(pc, st, a, size, signExtend).Ok?
    ensures cell.Some?
    ensures RegCovers(base, FixedRead(pc, st, a, size, signExtend).value,
                      Some(C.Extract(cell.value, inSlot, size, signExtend)))
    ensures !FixedRead(pc, st, a, size, signExtend).value.Uninit?
  {
    hide Mark, FullSpill, C.Extract, SlotCovers, RegCovers, AllMarked, NoneInvalid, CoerceScalar,
         Bounds.IsConstant, Const, Top;
    var spill := st.spilled[slot];
    var bytes := st.bytes;
    AccessMarks(bytes, a, slot, inSlot, size, Spill);
    AccessMarks(bytes, a, slot, inSlot, size, Zero);
    FullSpillMarks(bytes, slot);
    if AllMarked(bytes, a.lo, a.hi, Spill) && spill.Some? && size == 8 {
      FullFill(base, bytes, slot, spill, cell, signExtend);
    } else if AllMarked(bytes, a.lo, a.hi, Spill) && spill.Some? && a.minOff % 8 == 0 {
      NarrowFill(base, bytes, slot, spill, cell, size, signExtend);
    } else {
      if FullSpill(bytes, slot) {
        FullMeansAll(bytes, a, slot, inSlot, size);
        SpillPresent(base, bytes, slot, spill, cell);
      }
      InitializedCell(base, bytes, slot, spill, cell, inSlot);
      ExtractIsNumber(cell.value.bits, inSlot, size, signExtend);
      if AllMarked(bytes, a.lo, a.hi, Zero) {
        ZeroRead(base, bytes, slot, spill, cell, inSlot, size, signExtend);
        ZeroCovered(base);
      } else if AllMarked(bytes, a.lo, a.hi, Spill) && IsZeroSpill(spill) {
        ZeroSpillRead(base, bytes, slot, spill, cell, inSlot, size, signExtend);
        ZeroCovered(base);
      } else {
        TopCovered(base, C.Extract(cell.value, inSlot, size, signExtend).bits);
      }
    }
  }

  lemma SpillPresent(base: Base, bytes: Marks, slot: nat, spill: Option<RegState>, cell: Option<Value>)
    requires slot < 64 && SlotCovers(base, bytes, slot, spill, cell) && FullSpill(bytes, slot)
    ensures spill.Some?
  {
  }

  lemma FullMeansAll(bytes: Marks, a: Access, slot: nat, inSlot: nat, size: nat)
    requires Within(a, slot, inSlot, size) && 0 <= a.lo && a.hi < 512 && FullSpill(bytes, slot)
    ensures AllMarked(bytes, a.lo, a.hi, Spill)
  {
  }

  lemma FullFill(base: Base, bytes: Marks, slot: nat, spill: Option<RegState>, cell: Option<Value>, signExtend: bool)
    requires slot < 64 && SlotCovers(base, bytes, slot, spill, cell) && FullSpill(bytes, slot)
    ensures spill.Some? && !spill.value.Uninit? && cell.Some?
    ensures RegCovers(base, spill.value, Some(C.Extract(cell.value, 0, 8, signExtend)))
  {
    hide Gamma, FullSpill;
  }

  // ── Whole states ─────────────────────────────────────────────────────────

  lemma AccessOffsetIs(bits: U64, off: I16)
    requires -0x1_0000 <= C.PtrOffset(bits) <= 0x1_0000
    ensures C.AccessOffset(bits, off) == C.PtrOffset(bits) + off
  {
    var z := Signed64(bits) - C.STACK_BASE;
    var o := C.PtrOffset(bits);
    assert z == o by {
      DivUnique(z, TWO64, z / TWO64, z % TWO64);
    }
    var r := o + off;
    if r >= 0 {
      DivUnique(r, TWO32, 0, r);
    } else {
      DivUnique(r, TWO32, -1, r + TWO32);
    }
  }

  /** An access the abstract checks accept is located in the concrete frame. */
  lemma Located(base: Base, pc: nat, a: State, c: C.State, reg: Reg, off: I16, size: nat)
    requires CoversOn(base, a, c) && ValidSize(size)
    requires OwnFrame(a, reg) && CheckAccess(pc, a.regs[reg], off, size).Ok?
    ensures c.regs[reg].Some? && c.regs[reg].value.StackPtr?
    ensures C.Locate(pc, c, reg, off, size).Ok?
    ensures var p := C.Locate(pc, c, reg, off, size).value;
            var acc := CheckAccess(pc, a.regs[reg], off, size).value;
            && p.frameno == c.curframe && p.slot < 64
            && acc.lo <= 8 * p.slot + 7 - p.inSlot - size + 1 && 8 * p.slot + 7 - p.inSlot <= acc.hi
            && (acc.fixed ==> Within(acc, p.slot, p.inSlot, size) && acc.hi / 8 == p.slot && acc.lo / 8 == p.slot
                              && (acc.minOff % 8 == 0 <==> p.inSlot == 0))
  {
    hide StackCovers, CheckAccess, C.AccessOffset, C.PtrOffset, C.StackRange;
    var ptr := a.regs[reg];
    assert RegCovers(base, ptr, c.regs[reg]);
    var bits := c.regs[reg].value.bits;
    var o := C.PtrOffset(bits);
    CoveredAccess(pc, ptr, off, size, o);
    AccessOffsetIs(bits, off);
    var at := o + off;
    RangeExact(pc, at, size);
    var whole := Access(-at - size, -at - 1, at, true);
    AccessSlot(pc, whole, at, size);
    var acc := CheckAccess(pc, ptr, off, size).value;
    if acc.fixed {
      AccessSlot(pc, acc, at, size);
    }
  }

  /** A load the abstract side accepts succeeds concretely, and the loaded value is
      covered, at fixed and at variable offsets. */
  lemma LoadCovers(base: Base, pc: nat, a: State, c: C.State, dst: Reg, reg: Reg, off: I16, size: nat, signExtend: bool)
    requires CoversOn(base, a, c) && ValidSize(size)
    requires OwnFrame(a, reg) && StackRead(pc, a, reg, off, size, signExtend).Ok?
    ensures C.Load(pc, c, dst, reg, off, size, signExtend).Ok?
    ensures CoversOn(base, SetReg(a, dst, StackRead(pc, a, reg, off, size, signExtend).value),
                     C.Load(pc, c, dst, reg, off, size, signExtend).value)
  {
    hide RegCovers, SlotCovers, CheckAccess, C.Locate, C.Extract, FixedRead, VariableReadable, RegsCover;
    Located(base, pc, a, c, reg, off, size);
    var acc := CheckAccess(pc, a.regs[reg], off, size).value;
    var p := C.Locate(pc, c, reg, off, size).value;
    var cell := c.stack[p.slot];
    var v := StackRead(pc, a, reg, off, size, signExtend).value;
    assert SlotCovers(base, a.bytes, p.slot, a.spilled[p.slot], cell);
    if acc.fixed {
      FixedReadCovers(base, pc, a, acc, p.slot, p.inSlot, size, signExtend, cell);
    } else {
      VariableReadNumber(base, a, acc.lo, acc.hi, p.slot, p.inSlot, cell);
      ExtractIsNumber(cell.value.bits, p.inSlot, size, signExtend);
      TopCovered(base, C.Extract(cell.value, p.inSlot, size, signExtend).bits);
    }
    SetRegCovers(base, a, c, dst, v, C.Extract(cell.value, p.inSlot, size, signExtend));
  }

  lemma VariableReadNumber(base: Base, a: State, lo: int, hi: int, slot: nat, inSlot: nat, cell: Option<Value>)
    requires 0 <= lo && hi < 512 && VariableReadable(a, lo, hi) && slot < 64 && inSlot < 8
    requires lo <= 8 * slot + 7 - inSlot <= hi
    requires SlotCovers(base, a.bytes, slot, a.spilled[slot], cell)
    ensures cell.Some? && cell.value.Number?
  {
    hide FullSpill, SlotCovers;
    var i := 8 * slot + 7 - inSlot;
    assert i / 8 == slot;
    assert !a.bytes[i].Invalid? && (a.bytes[i].Spill? ==> IsScalarSpill(a.spilled[slot]));
    FullSpillMarks(a.bytes, slot);
    InitializedCell(base, a.bytes, slot, a.spilled[slot], cell, inSlot);
  }

  lemma OtherSlotMarks(st: State, acc: Access, v: RegState, mark: StackByte, slot: nat, inSlot: nat, size: nat, s: nat)
    requires Within(acc, slot, inSlot, size) && 0 <= acc.lo <= acc.hi < 512 && acc.hi / 8 == slot && acc.lo / 8 == slot
    requires s < 64 && s != slot
    ensures SameMarks(st.bytes, SpillStore(st, acc, v).bytes, s)
    ensures SameMarks(st.bytes, ScrubStore(st, acc, mark).bytes, s)
    ensures SpillStore(st, acc, v).spilled[s] == st.spilled[s] == ScrubStore(st, acc, mark).spilled[s]
  {
  }

  lemma StoreAccess(base: Base, pc: nat, a: State, c: C.State, acc: Access, size: nat, v: RegState, cv: Value,
                    slot: nat, inSlot: nat)
    requires acc.fixed && Within(acc, slot, inSlot, size) && 0 <= acc.lo <= acc.hi < 512
    requires acc.hi / 8 == slot && acc.lo / 8 == slot && (acc.minOff % 8 == 0 <==> inSlot == 0)
    requires CoversOn(base, a, c) && RegCovers(base, v, Some(cv)) && StackStore(pc, a, acc, size, v).Ok?
    ensures StackCovers(base, StackStore(pc, a, acc, size, v).value, C.Merge(c.stack, slot, inSlot, size, cv))
    ensures StackStore(pc, a, acc, size, v).value.regs == a.regs
            && StackStore(pc, a, acc, size, v).value.frame == a.frame
  {
    hide RegCovers, SlotCovers, SpillStore, ScrubStore, C.MergeCell, PointerSpilled, RegsCover;
    var next := StackStore(pc, a, acc, size, v).value;
    var cells := C.Merge(c.stack, slot, inSlot, size, cv);
    StoreKeepsRest(a, acc, v, StoreMark(v));
    assert SlotCovers(base, a.bytes, slot, a.spilled[slot], c.stack[slot]);
    forall s: nat | s < 64
      ensures SlotCovers(base, next.bytes, s, next.spilled[s], cells[s])
    {
      if s != slot {
        assert SlotCovers(base, a.bytes, s, a.spilled[s], c.stack[s]);
        OtherSlotMarks(a, acc, v, StoreMark(v), slot, inSlot, size, s);
        UntouchedSlot(base, a.bytes, next.bytes, s, a.spilled[s], c.stack[s]);
      } else if inSlot == 0 {
        SpillSlot(base, a, acc, v, slot, size, c.stack[slot], cv);
      } else {
        ScrubSlot(base, a, acc, v, slot, inSlot, size, c.stack[slot], cv);
      }
    }
  }

  lemma StoreKeepsRest(a: State, acc: Access, v: RegState, mark: StackByte)
    requires 0 <= acc.lo <= acc.hi < 512 && acc.hi / 8 < 64
    ensures SpillStore(a, acc, v).regs == a.regs == ScrubStore(a, acc, mark).regs
    ensures SpillStore(a, acc, v).frame == a.frame == ScrubStore(a, acc, mark).frame
    ensures SpillStore(a, acc, v).spilled[acc.hi / 8] == Some(v)
    ensures acc.lo / 8 == acc.hi / 8 ==> ScrubStore(a, acc, mark).spilled[acc.hi / 8] == None
  {
  }

  /** A fixed-offset store the abstract side accepts succeeds concretely, and the
      new marks and spills cover the merged cells. */
  lemma StoreCovers(base: Base, pc: nat, a: State, c: C.State, reg: Reg, off: I16, size: nat, v: RegState, cv: Value)
    requires CoversOn(base, a, c) && ValidSize(size) && RegCovers(base, v, Some(cv))
    requires OwnFrame(a, reg) && a.regs[reg].min == a.regs[reg].max && StackWrite(pc, a, reg, off, size, v).Ok?
    ensures C.Store(pc, c, Some(cv), reg, off, size).Ok?
    ensures CoversOn(base, StackWrite(pc, a, reg, off, size, v).value, C.Store(pc, c, Some(cv), reg, off, size).value)
  {
    hide RegCovers, SlotCovers, C.Locate, C.Merge, StackStore, StackCovers;
    FixedAccess(pc, a.regs[reg], off, size);
    hide CheckAccess;
    Located(base, pc, a, c, reg, off, size);
    var acc := CheckAccess(pc, a.regs[reg], off, size).value;
    var p := C.Locate(pc, c, reg, off, size).value;
    StoreAccess(base, pc, a, c, acc, size, v, cv, p.slot, p.inSlot);
  }

  lemma FixedAccess(pc: nat, ptr: RegState, off: I16, size: nat)
    requires ptr.PtrToStack? && ValidSize(size) && ptr.min == ptr.max && CheckAccess(pc, ptr, off, size).Ok?
    ensures CheckAccess(pc, ptr, off, size).value.fixed
  {
  }
}
