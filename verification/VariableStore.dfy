/** Stack stores at an unknown offset (`src/exec.rs`): the abstract side marks the
    whole range although one place is written. Exactly when nothing is lost. */
module VariableStore {
  import opened Words
  import opened Bits
  import opened TnumDomain
  import opened Scalar
  import opened AluSound
  import opened Branch
  import opened Insn
  import opened Abstract
  import opened Offsets
  import opened SlotMemory
  import opened Coverage
  import opened StackSound
  import C = Concrete

  // ── Where the store may go ───────────────────────────────────────────────

  /** The position in its cell is the same for every placement. */
  function InCell(ptr: RegState, off: I16): (q: nat)
    requires ptr.PtrToStack?
    ensures q < 8
  {
    (ptr.align + off) % 8
  }

  /** The store may lie in slot s, at position q of its cell. */
  predicate Placement(acc: Access, q: nat, size: nat, s: nat) {
    s < 64 && acc.lo <= 8 * s + 7 - q - size + 1 && 8 * s + 7 - q <= acc.hi
  }

  predicate Elsewhere(acc: Access, q: nat, size: nat, s: nat) {
    exists p: nat :: p < 64 && p != s && Placement(acc, q, size, p)
  }

  predicate Touched(acc: Access, s: nat) { s < 64 && acc.lo / 8 <= s <= acc.hi / 8 }

  /** Memory byte j of slot s lies in the marked range. */
  predicate Marked(acc: Access, s: nat, j: nat) { j < 8 && acc.lo <= 8 * s + 7 - j <= acc.hi }

  // ── Bytes that are surely 0 ──────────────────────────────────────────────

  /** Byte j of the scalar is 0 by its tnum or by its greatest value. */
  predicate ByteKnownZero(b: Bounds, j: nat) { ByteOf(Or64(b.tnum.value, b.tnum.mask), j) == 0 || b.umax < Pow2(8 * j) }

  predicate KnownZero(bytes: Marks, s: nat, spill: Option<RegState>, j: nat)
    requires s < 64 && j < 8
  {
    || Mark(bytes, s, j).Zero?
    || (Mark(bytes, s, j).Spill? && spill.Some? && spill.value.Num? && ByteKnownZero(spill.value.b, j))
  }

  ghost predicate EveryMemberZero(spill: Option<RegState>, j: nat) {
    forall w: U64 :: SpillAdmits(spill, w) ==> ByteOf(w, j) == 0
  }

  /** The byte is 0 whatever the spilled scalar is. */
  ghost predicate SurelyZero(bytes: Marks, s: nat, spill: Option<RegState>, j: nat)
    requires s < 64 && j < 8
  {
    Mark(bytes, s, j).Zero? || (Mark(bytes, s, j).Spill? && EveryMemberZero(spill, j))
  }

  lemma ByteKnownZeroSound(b: Bounds, j: nat, w: U64)
    requires Gamma(b, w) && ByteKnownZero(b, j) && j < 8
    ensures ByteOf(w, j) == 0
  {
    hide Bit, Tnum.Contains, Pow2, Or64;
    if b.umax < Pow2(8 * j) {
      DivUnique(w, Pow2(8 * j), 0, w);
    } else {
      var u := Or64(b.tnum.value, b.tnum.mask);
      forall i: nat | i < 8
        ensures ByteBit(w, j, i) == ByteBit(0, j, i)
      {
        BitByte(u, j, i);
        BitZero(i);
        BitZero(8 * j + i);
        KnownOnesSound(b.tnum, w, 8 * j + i);
      }
      SameByte(w, j, 0, j);
      ZeroBytes(j);
    }
  }

  lemma KnownIsSure(bytes: Marks, s: nat, spill: Option<RegState>, j: nat)
    requires s < 64 && j < 8 && KnownZero(bytes, s, spill, j)
    ensures SurelyZero(bytes, s, spill, j)
  {
    hide Gamma, ByteKnownZero, ByteOf, Mark;
    if !Mark(bytes, s, j).Zero? {
      forall w: U64 | SpillAdmits(spill, w)
        ensures ByteOf(w, j) == 0
      {
        ByteKnownZeroSound(spill.value.b, j, w);
      }
    }
  }

  /** For a constant the test is exact. */
  lemma ConstantByte(b: Bounds, w: U64, j: nat)
    requires Gamma(b, w) && b.IsConstant() && ByteOf(w, j) == 0
    ensures ByteKnownZero(b, j)
  {
    hide Bit, Bits.And, Bits.Or, ByteOf;
    ConstantTnum(b.tnum.value, w);
    forall k: nat | k < 64
      ensures Bit(Or64(w, 0), k) == Bit(w, k)
    {
      BitOr(w, 0, k);
      BitZero(k);
    }
    Extensional64(Or64(w, 0), w);
  }

  // ── The condition ────────────────────────────────────────────────────────

  /** Slot s keeps its coverage. If the store may go elsewhere, the cell must hold a
      number already, with zeros wherever zeros are claimed; if it goes here, only
      the bytes around it matter. */
  predicate SlotStoreOk(a: State, acc: Access, q: nat, size: nat, v: RegState, s: nat)
    requires s < 64
  {
    && (Elsewhere(acc, q, size, s) ==>
          AnyInit(a.bytes, s)
          && (StoreMark(v).Zero? ==> forall j: nat :: j < 8 && Marked(acc, s, j) ==>
              KnownZero(a.bytes, s, a.spilled[s], j)))
    && (Placement(acc, q, size, s) ==>
          (v.Num? || size < 8)
          && (StoreMark(v).Zero? ==>
                forall j: nat :: j < 8 && Marked(acc, s, j) && !(q <= j < q + size) ==>
                  KnownZero(a.bytes, s, a.spilled[s], j)))
  }

  predicate VariableStoreOk(a: State, acc: Access, q: nat, size: nat, v: RegState) {
    forall s: nat :: s < 64 && Touched(acc, s) ==> SlotStoreOk(a, acc, q, size, v, s)
  }

  /** Slots zeroed by aligned eight-byte stores may be zeroed again at an unknown
      offset. */
  lemma SpilledZerosAllowed(a: State, acc: Access, q: nat, size: nat)
    requires forall s: nat :: s < 64 && Touched(acc, s) ==> FullSpill(a.bytes, s) && a.spilled[s] == Some(Num(Const(0)))
    ensures VariableStoreOk(a, acc, q, size, Num(Const(0)))
  {
    hide FullSpill, Mark, ByteOf, Elsewhere, Placement, Bits.Or;
    ZeroBytesKnown();
    forall s: nat | s < 64 && Touched(acc, s)
      ensures SlotStoreOk(a, acc, q, size, Num(Const(0)), s)
    {
      FullSpillMarks(a.bytes, s);
      assert Mark(a.bytes, s, 0).Spill?;
    }
  }

  lemma ZeroBytesKnown()
    ensures forall j: nat :: j < 8 ==> ByteKnownZero(Const(0), j)
  {
    forall j: nat | j < 8
      ensures ByteKnownZero(Const(0), j)
    {
      ZeroBytes(j);
    }
  }

  /** The same with zeros by meaning: over all members of a spilled scalar. */
  ghost predicate SlotStoreExact(a: State, acc: Access, q: nat, size: nat, v: RegState, s: nat)
    requires s < 64
  {
    && (Elsewhere(acc, q, size, s) ==>
          AnyInit(a.bytes, s)
          && (StoreMark(v).Zero? ==> forall j: nat :: j < 8 && Marked(acc, s, j) ==>
              SurelyZero(a.bytes, s, a.spilled[s], j)))
    && (Placement(acc, q, size, s) ==>
          (v.Num? || size < 8)
          && (StoreMark(v).Zero? ==>
                forall j: nat :: j < 8 && Marked(acc, s, j) && !(q <= j < q + size) ==>
                  SurelyZero(a.bytes, s, a.spilled[s], j)))
  }

  ghost predicate VariableStoreExact(a: State, acc: Access, q: nat, size: nat, v: RegState) {
    forall s: nat :: s < 64 && Touched(acc, s) ==> SlotStoreExact(a, acc, q, size, v, s)
  }

  lemma OkIsExact(a: State, acc: Access, q: nat, size: nat, v: RegState)
    requires VariableStoreOk(a, acc, q, size, v)
    ensures VariableStoreExact(a, acc, q, size, v)
  {
    hide KnownZero, SurelyZero, AnyInit, StoreMark, Elsewhere, Placement;
    forall s: nat, j: nat | s < 64 && j < 8 && KnownZero(a.bytes, s, a.spilled[s], j)
      ensures SurelyZero(a.bytes, s, a.spilled[s], j)
    {
      KnownIsSure(a.bytes, s, a.spilled[s], j);
    }
    forall s: nat | s < 64 && Touched(acc, s)
      ensures SlotStoreExact(a, acc, q, size, v, s)
    {
      assert SlotStoreOk(a, acc, q, size, v, s);
    }
  }

  // ── It suffices ──────────────────────────────────────────────────────────

  lemma ScrubMarks(st: State, acc: Access, mark: StackByte, s: nat, j: nat)
    requires 0 <= acc.lo && acc.hi < 512 && s < 64 && j < 8
    ensures var before := Mark(st.bytes, s, j);
            Mark(ScrubStore(st, acc, mark).bytes, s, j) ==
            if Marked(acc, s, j) then mark else if Touched(acc, s) && before.Spill? then Misc else before
  {
  }

  ghost predicate ScalarSpill(spill: Option<RegState>) { spill.Some? ==> spill.value.Num? }

  lemma SureByte(base: Base, bytes: Marks, s: nat, spill: Option<RegState>, cell: Option<Value>, j: nat)
    requires s < 64 && j < 8 && SlotCovers(base, bytes, s, spill, cell) && ScalarSpill(spill)
    requires SurelyZero(bytes, s, spill, j)
    ensures cell.Some? && cell.value.Number? && ByteOf(cell.value.bits, j) == 0
  {
    hide FullSpill, Mark, ByteOf, Gamma, SlotCovers;
    FullSpillMarks(bytes, s);
    FullHasSpill(base, bytes, s, spill, cell);
    InitializedCell(base, bytes, s, spill, cell, j);
    if Mark(bytes, s, j).Zero? {
      ZeroMarks(base, bytes, s, spill, cell, j);
    } else {
      var w := SpilledByte(base, bytes, s, spill, cell, j);
    }
  }

  lemma FullHasSpill(base: Base, bytes: Marks, s: nat, spill: Option<RegState>, cell: Option<Value>)
    requires s < 64 && SlotCovers(base, bytes, s, spill, cell) && ScalarSpill(spill)
    ensures FullSpill(bytes, s) ==> IsScalarSpill(spill)
  {
  }

  lemma SpilledByte(base: Base, bytes: Marks, s: nat, spill: Option<RegState>, cell: Option<Value>,
                    j: nat) returns (w: U64)
    requires s < 64 && j < 8 && SlotCovers(base, bytes, s, spill, cell) && ScalarSpill(spill)
             && Mark(bytes, s, j).Spill?
    ensures cell.Some? && SpillAdmits(spill, w) && ByteOf(cell.value.bits, j) == ByteOf(w, j)
  {
    hide FullSpill, Mark, ByteOf, Gamma;
    if FullSpill(bytes, s) {
      NumMember(base, spill.value, cell.value);
      w := cell.value.bits;
    } else {
      assert AnyInit(bytes, s);
      w :| BytesMatch(bytes, s, spill, cell.value.bits, w);
      assert ByteCovers(Mark(bytes, s, j), cell.value.bits, w, j);
    }
  }

  lemma OtherCell(base: Base, a: State, acc: Access, q: nat, size: nat, v: RegState, s: nat, cell: Option<Value>)
    requires 0 <= acc.lo <= acc.hi < 512 && Touched(acc, s) && Elsewhere(acc, q, size, s)
             && SlotStoreExact(a, acc, q, size, v, s)
    requires SlotCovers(base, a.bytes, s, a.spilled[s], cell) && ScalarSpill(a.spilled[s])
    ensures SlotCovers(base, ScrubStore(a, acc, StoreMark(v)).bytes, s, None, cell)
  {
    hide FullSpill, SlotCovers, ScrubStore, ByteOf, Mark, SurelyZero, Elsewhere, StoreMark, Marked;
    var bytes, mark := ScrubStore(a, acc, StoreMark(v)).bytes, StoreMark(v);
    StoreMarkKind(v);
    FullSpillMarks(a.bytes, s);
    FullHasSpill(base, a.bytes, s, a.spilled[s], cell);
    var i: nat :| i < 8 && !Mark(a.bytes, s, i).Invalid?;
    InitializedCell(base, a.bytes, s, a.spilled[s], cell, i);
    forall j: nat | j < 8
      ensures !Mark(bytes, s, j).Spill? && ByteCovers(Mark(bytes, s, j), cell.value.bits, 0, j)
    {
      ScrubMarks(a, acc, mark, s, j);
      if Mark(bytes, s, j).Zero? {
        if Marked(acc, s, j) {
          SureByte(base, a.bytes, s, a.spilled[s], cell, j);
        } else {
          ZeroMarks(base, a.bytes, s, a.spilled[s], cell, j);
        }
      }
    }
    NumbersCover(base, bytes, s, None, cell.value.bits);
  }

  lemma StoreMarkKind(v: RegState)
    ensures StoreMark(v).Zero? || StoreMark(v).Misc?
  {
  }

  lemma WrittenCell(base: Base, a: State, acc: Access, q: nat, size: nat, v: RegState, cv: Value, s: nat,
                    cell: Option<Value>)
    requires 0 <= acc.lo <= acc.hi < 512 && Touched(acc, s) && Placement(acc, q, size, s)
             && SlotStoreExact(a, acc, q, size, v, s)
    requires ValidSize(size) && q + size <= 8 && RegCovers(base, v, Some(cv))
    requires SlotCovers(base, a.bytes, s, a.spilled[s], cell) && ScalarSpill(a.spilled[s])
    ensures SlotCovers(base, ScrubStore(a, acc, StoreMark(v)).bytes, s, None, Some(C.MergeCell(cell, q, size, cv)))
  {
    hide FullSpill, SlotCovers, ScrubStore, ByteOf, Mark, SurelyZero, Placement, StoreMark, Marked, C.MergeCell, Gamma;
    var bytes, mark := ScrubStore(a, acc, StoreMark(v)).bytes, StoreMark(v);
    StoreMarkKind(v);
    if size == 8 {
      WholeCell(cell, cv);
    } else {
      MergeIsNumber(cell, q, size, cv);
    }
    var n := C.MergeCell(cell, q, size, cv).bits;
    forall j: nat | j < 8
      ensures !Mark(bytes, s, j).Spill? && ByteCovers(Mark(bytes, s, j), n, 0, j)
    {
      ScrubMarks(a, acc, mark, s, j);
      MergedByte(cell, q, size, cv, j);
      if Mark(bytes, s, j).Zero? {
        if Marked(acc, s, j) && q <= j < q + size {
          ZeroValue(base, v, cv);
          ZeroBytes(j - q);
        } else if Marked(acc, s, j) {
          SureByte(base, a.bytes, s, a.spilled[s], cell, j);
        } else {
          // outside the range, so not written either
          OutsideRange(acc, q, size, s, j);
          ZeroMarks(base, a.bytes, s, a.spilled[s], cell, j);
        }
      }
    }
    NumbersCover(base, bytes, s, None, n);
  }

  lemma OutsideRange(acc: Access, q: nat, size: nat, s: nat, j: nat)
    requires Placement(acc, q, size, s) && j < 8 && !Marked(acc, s, j) && q + size <= 8
    ensures !(q <= j < q + size)
  {
  }

  lemma OutOfRangeSlot(a: State, acc: Access, mark: StackByte, s: nat)
    requires 0 <= acc.lo <= acc.hi < 512 && s < 64 && !Touched(acc, s)
    ensures SameMarks(a.bytes, ScrubStore(a, acc, mark).bytes, s)
    ensures ScrubStore(a, acc, mark).spilled[s] == a.spilled[s]
  {
  }

  lemma ScrubKeeps(a: State, acc: Access, mark: StackByte)
    requires 0 <= acc.lo <= acc.hi < 512
    ensures ScrubStore(a, acc, mark).regs == a.regs && ScrubStore(a, acc, mark).frame == a.frame
    ensures forall s: nat :: s < 64 && Touched(acc, s) ==> ScrubStore(a, acc, mark).spilled[s] == None
  {
  }

  lemma SameRegs(base: Base, a: State, b: State, c: C.State, d: C.State)
    requires RegsCover(base, a, c) && a.regs == b.regs && c.regs == d.regs
    ensures RegsCover(base, b, d)
  {
  }

  /** A covered concrete store lands on a placement, at the common position. */
  lemma LandsOnPlacement(base: Base, pc: nat, a: State, c: C.State, reg: Reg, off: I16, size: nat)
    requires CoversOn(base, a, c) && ValidSize(size) && OwnFrame(a, reg)
             && CheckAccess(pc, a.regs[reg], off, size).Ok?
    ensures C.Locate(pc, c, reg, off, size).Ok?
    ensures var p := C.Locate(pc, c, reg, off, size).value;
            var acc := CheckAccess(pc, a.regs[reg], off, size).value;
            && p.frameno == c.curframe && p.slot < 64 && p.inSlot == InCell(a.regs[reg], off) && p.inSlot + size <= 8
            && Placement(acc, p.inSlot, size, p.slot) && Touched(acc, p.slot) && 0 <= acc.lo <= acc.hi < 512
  {
    hide C.Locate, CheckAccess, StackCovers, C.PtrOffset, C.AccessOffset, C.StackRange;
    Located(base, pc, a, c, reg, off, size);
    var ptr := a.regs[reg];
    assert RegCovers(base, ptr, c.regs[reg]);
    var o := C.PtrOffset(c.regs[reg].value.bits);
    var p := C.Locate(pc, c, reg, off, size).value;
    CoveredAccess(pc, ptr, off, size, o);
    LocatedAt(pc, c, reg, off, size);
    AccessOffsetIs(c.regs[reg].value.bits, off);
    CellPosition(pc, o + off, size);
    KnownAlign(pc, ptr, off, size, o);
    var i := 8 * p.slot + 7 - p.inSlot;
    assert i / 8 == p.slot;
  }

  lemma LocatedAt(pc: nat, c: C.State, reg: Reg, off: I16, size: nat)
    requires ValidSize(size) && C.Locate(pc, c, reg, off, size).Ok?
    ensures c.regs[reg].Some? && c.regs[reg].value.StackPtr?
    ensures var at := C.AccessOffset(c.regs[reg].value.bits, off);
            C.StackRange(pc, at, size)
            == Ok((C.Locate(pc, c, reg, off, size).value.slot, C.Locate(pc, c, reg, off, size).value.inSlot))
  {
    hide C.AccessOffset, C.StackRange;
  }

  lemma CellPosition(pc: nat, at: int, size: nat)
    requires ValidSize(size) && C.StackRange(pc, at, size).Ok?
    ensures C.StackRange(pc, at, size).value.1 == at % 8
  {
    var (slot, inSlot) := C.StackRange(pc, at, size).value;
    var q: int := -1 - slot;
    assert at == 8 * q + inSlot;
    DivUnique(at, 8, q, inSlot);
  }

  lemma KnownAlign(pc: nat, ptr: RegState, off: I16, size: nat, o: int)
    requires ptr.PtrToStack? && ValidSize(size) && OffsetCovers(ptr, o) && CheckAccess(pc, ptr, off, size).Ok?
    ensures (o + off) % 8 == InCell(ptr, off) && ptr.align < 8
  {
    CongruentAlign(o, off, 8);
  }

  /** Under the condition the store succeeds concretely and the marks stay truthful,
      wherever it goes. */
  lemma VariableStoreCovers(base: Base, pc: nat, a: State, c: C.State, reg: Reg, off: I16, size: nat, v: RegState,
                            cv: Value)
    requires CoversOn(base, a, c) && ValidSize(size) && RegCovers(base, v, Some(cv))
    requires OwnFrame(a, reg) && CheckAccess(pc, a.regs[reg], off, size).Ok?
    requires var acc := CheckAccess(pc, a.regs[reg], off, size).value;
             !acc.fixed && VariableStoreExact(a, acc, InCell(a.regs[reg], off), size, v)
    requires StackWrite(pc, a, reg, off, size, v).Ok?
    ensures C.Store(pc, c, Some(cv), reg, off, size).Ok?
    ensures CoversOn(base, StackWrite(pc, a, reg, off, size, v).value, C.Store(pc, c, Some(cv), reg, off, size).value)
  {
    hide RegCovers, SlotCovers, C.Locate, C.MergeCell, ScrubStore, CheckAccess, SlotStoreExact, RegsCover,
         Placement, InCell;
    LandsOnPlacement(base, pc, a, c, reg, off, size);
    var acc := CheckAccess(pc, a.regs[reg], off, size).value;
    var p := C.Locate(pc, c, reg, off, size).value;
    var next := ScrubStore(a, acc, StoreMark(v));
    assert StackWrite(pc, a, reg, off, size, v).value == next;
    NoPointers(a, acc);
    hide PointerSpilled;
    var cells := C.Merge(c.stack, p.slot, p.inSlot, size, cv);
    ScrubKeeps(a, acc, StoreMark(v));
    forall s: nat | s < 64
      ensures SlotCovers(base, next.bytes, s, next.spilled[s], cells[s])
    {
      assert SlotCovers(base, a.bytes, s, a.spilled[s], c.stack[s]);
      if !Touched(acc, s) {
        OutOfRangeSlot(a, acc, StoreMark(v), s);
        UntouchedSlot(base, a.bytes, next.bytes, s, a.spilled[s], c.stack[s]);
      } else if s == p.slot {
        WrittenCell(base, a, acc, p.inSlot, size, v, cv, s, c.stack[s]);
      } else {
        assert Elsewhere(acc, p.inSlot, size, s);
        OtherCell(base, a, acc, p.inSlot, size, v, s, c.stack[s]);
      }
    }
    SameRegs(base, a, next, c, C.Store(pc, c, Some(cv), reg, off, size).value);
  }

  lemma NoPointers(a: State, acc: Access)
    requires 0 <= acc.lo && acc.hi < 512 && !PointerSpilled(a, acc)
    ensures forall s: nat :: s < 64 && Touched(acc, s) ==> ScalarSpill(a.spilled[s])
  {
  }

  // ── It is necessary ──────────────────────────────────────────────────────

  /** Whatever covered state the store starts from, it ends in a covered one. */
  ghost predicate AlwaysCovers(pc: nat, a: State, reg: Reg, off: I16, size: nat, v: RegState)
    requires ValidSize(size) && StackWrite(pc, a, reg, off, size, v).Ok?
  {
    forall base: Base, c: C.State, cv: Value :: CoversOn(base, a, c) && RegCovers(base, v, Some(cv)) ==>
      && C.Store(pc, c, Some(cv), reg, off, size).Ok?
      && Covers(StackWrite(pc, a, reg, off, size, v).value, C.Store(pc, c, Some(cv), reg, off, size).value)
  }

  /** The spilled scalars of touched slots are not tied to other registers: they are
      constants, or unlinked where the whole slot is spilled. */
  predicate FreeSpills(a: State, acc: Access) {
    forall s: nat :: s < 64 && Touched(acc, s) && IsScalarSpill(a.spilled[s]) && FullSpill(a.bytes, s) ==>
      a.spilled[s].value.b.id == 0 || a.spilled[s].value.b.IsConstant()
  }

  /** The state with the base register at the placement in slot p and the given
      content of cell s. */
  function Retarget(c: C.State, reg: Reg, o: int, s: nat, cell: Option<Value>): C.State
    requires s < 64
  {
    c.(regs := c.regs[reg := Some(C.StackPtr(Wrap64(C.STACK_BASE + o), c.curframe))], stack := c.stack[s := cell])
  }

  /** The offset that puts the access into slot p at position q. */
  function OffsetOf(p: nat, q: nat, off: I16): int { -8 * p - 8 + q - off }

  lemma OffsetFits(pc: nat, ptr: RegState, off: I16, size: nat, p: nat, o: int)
    requires ptr.PtrToStack? && ValidSize(size) && OffsetCovers(ptr, o) && CheckAccess(pc, ptr, off, size).Ok?
    requires Placement(CheckAccess(pc, ptr, off, size).value, InCell(ptr, off), size, p)
    ensures OffsetCovers(ptr, OffsetOf(p, InCell(ptr, off), off))
  {
    var q := InCell(ptr, off);
    var o' := OffsetOf(p, q, off);
    KnownAlign(pc, ptr, off, size, o);
    assert ptr.align + off == 8 * ((ptr.align + off) / 8) + q;
    var k: int := 0 - p - 1 - (ptr.align + off) / 8;
    DivUnique(o', 8, k, ptr.align);
    AcceptedAccessInFrame(pc, ptr, off, size, o);
  }

  lemma RetargetCovers(base: Base, pc: nat, a: State, c: C.State, reg: Reg, off: I16, size: nat, p: nat, s: nat,
                       cell: Option<Value>)
    requires CoversOn(base, a, c) && ValidSize(size) && OwnFrame(a, reg)
             && CheckAccess(pc, a.regs[reg], off, size).Ok?
    requires Placement(CheckAccess(pc, a.regs[reg], off, size).value, InCell(a.regs[reg], off), size, p)
    requires p < 64 && s < 64 && SlotCovers(base, a.bytes, s, a.spilled[s], cell)
    ensures CoversOn(base, a, Retarget(c, reg, OffsetOf(p, InCell(a.regs[reg], off), off), s, cell))
  {
    hide CheckAccess, SlotCovers, OffsetCovers, Placement, OffsetOf, C.PtrOffset, Wrap64, InCell;
    var ptr := a.regs[reg];
    var o := OffsetOf(p, InCell(ptr, off), off);
    assert RegCovers(base, ptr, c.regs[reg]);
    OffsetFits(pc, ptr, off, size, p, C.PtrOffset(c.regs[reg].value.bits));
    SmallOffset(p, InCell(ptr, off), off);
    PtrOffsetOf(o);
    assert RegCovers(base, ptr, Some(C.StackPtr(Wrap64(C.STACK_BASE + o), c.curframe)));
    hide RegCovers;
  }

  lemma SmallOffset(p: nat, q: nat, off: I16)
    requires p < 64 && q < 8
    ensures I64_MIN <= OffsetOf(p, q, off) <= I64_MAX && -0x1_0000 <= OffsetOf(p, q, off) <= 0x1_0000
  {
  }

  /** The retargeted store lands in slot p. */
  lemma RetargetStores(pc: nat, c: C.State, reg: Reg, off: I16, size: nat, p: nat, q: nat, s: nat, cell: Option<Value>)
    requires ValidSize(size) && p < 64 && q + size <= 8 && q % size == 0 && s < 64
    ensures C.Locate(pc, Retarget(c, reg, OffsetOf(p, q, off), s, cell), reg, off, size)
            == Ok(C.Place(c.curframe, p, q, OffsetOf(p, q, off) + off))
  {
    hide C.PtrOffset, C.AccessOffset, OffsetOf;
    var o := OffsetOf(p, q, off);
    SmallOffset(p, q, off);
    PtrOffsetOf(o);
    AccessOffsetIs(Wrap64(C.STACK_BASE + o), off);
    RangeAt(pc, p, q, off, size);
  }

  lemma RangeAt(pc: nat, p: nat, q: nat, off: I16, size: nat)
    requires ValidSize(size) && p < 64 && q + size <= 8 && q % size == 0
    ensures C.StackRange(pc, OffsetOf(p, q, off) + off, size) == Ok((p, q))
  {
    var at := OffsetOf(p, q, off) + off;
    DivUnique(-at - 1, 8, p, 7 - q);
    CongruentAlign(0, at, size);
    AlignedCell(p, q, size);
  }

  lemma AlignedCell(p: int, q: nat, size: nat)
    requires ValidSize(size) && q % size == 0
    ensures (-8 * p - 8 + q) % size == 0
  {
    match size {
      case 1 => ModEqual(-8 * p - 8 + q, q, 1, -8 * p - 8);
      case 2 => ModEqual(-8 * p - 8 + q, q, 2, -4 * p - 4);
      case 4 => ModEqual(-8 * p - 8 + q, q, 4, -2 * p - 2);
      case 8 => ModEqual(-8 * p - 8 + q, q, 8, -p - 1);
    }
  }

  /** What refutes coverage after the store. */
  lemma Uncovered(a: State, acc: Access, mark: StackByte, s: nat, cell: Option<Value>, next: State, c: C.State)
    requires 0 <= acc.lo <= acc.hi < 512 && Touched(acc, s) && !mark.Spill? && !mark.Invalid?
    requires next == ScrubStore(a, acc, mark) && c.stack[s] == cell
    requires cell.None? || !cell.value.Number? || exists j: nat :: j < 8 && BadZero(acc, mark, s, j, cell.value.bits)
    ensures !Covers(next, c)
  {
    hide ScrubStore, ByteOf, Marked, Mark, RegsCover, MixedCovers;
    var i := MarkedByte(acc, s);
    ScrubMarks(a, acc, mark, s, i);
    FullSpillMarks(next.bytes, s);
    assert AnyInit(next.bytes, s);
    forall base: Base
      ensures !CoversOn(base, next, c)
    {
      if SlotCovers(base, next.bytes, s, next.spilled[s], cell) {
        var j: nat :| j < 8 && BadZero(acc, mark, s, j, cell.value.bits);
        ScrubMarks(a, acc, mark, s, j);
        NotMixed(next.bytes, s, next.spilled[s], cell.value.bits, j);
      }
    }
  }

  ghost predicate BadZero(acc: Access, mark: StackByte, s: nat, j: nat, n: U64) {
    mark.Zero? && Marked(acc, s, j) && ByteOf(n, j) != 0
  }

  lemma NotMixed(bytes: Marks, s: nat, spill: Option<RegState>, n: U64, j: nat)
    requires s < 64 && j < 8 && Mark(bytes, s, j).Zero? && ByteOf(n, j) != 0
    ensures !MixedCovers(bytes, s, spill, n)
  {
    hide Mark, ByteOf, SpillAdmits;
    forall w: U64
      ensures !BytesMatch(bytes, s, spill, n, w)
    {
      assert !ByteCovers(Mark(bytes, s, j), n, w, j);
    }
  }

  lemma MarkedByte(acc: Access, s: nat) returns (j: nat)
    requires 0 <= acc.lo <= acc.hi < 512 && Touched(acc, s)
    ensures Marked(acc, s, j)
  {
    j := 8 * s + 7 - Max(acc.lo, 8 * s);
  }

  /** n with its Spill bytes below k replaced by those of w. */
  ghost function Overlay(bytes: Marks, s: nat, n: U64, w: U64, k: nat): U64
    requires s < 64 && k <= 8
  {
    if k == 0 then n else
      var m := Overlay(bytes, s, n, w, k - 1);
      ByteBound(w, k - 1);
      if Mark(bytes, s, k - 1).Spill?
          then C.MergeCell(Some(C.Number(m)), k - 1, 1, C.Number(ByteOf(w, k - 1))).bits else m
  }

  lemma ByteOfByte(w: U64, j: nat)
    ensures ByteOf(w, j) < 0x100 && ByteOf(ByteOf(w, j), 0) == ByteOf(w, j)
  {
    assert Pow2(0) == 1;
  }

  lemma {:induction false} OverlayBytes(bytes: Marks, s: nat, n: U64, w: U64, k: nat, j: nat)
    requires s < 64 && k <= 8 && j < 8
    ensures ByteOf(Overlay(bytes, s, n, w, k), j) ==
            if j < k && Mark(bytes, s, j).Spill? then ByteOf(w, j) else ByteOf(n, j)
    decreases k
  {
    hide ByteOf, Mark, C.MergeCell;
    if k > 0 {
      OverlayBytes(bytes, s, n, w, k - 1, j);
      if Mark(bytes, s, k - 1).Spill? {
        ByteOfByte(w, k - 1);
        MergedByte(Some(C.Number(Overlay(bytes, s, n, w, k - 1))), k - 1, 1, C.Number(ByteOf(w, k - 1)), j);
      }
    }
  }

  /** A covered content of the cell whose byte j is not 0. */
  lemma NonzeroByte(base: Base, bytes: Marks, s: nat, spill: Option<RegState>, cell: Option<Value>,
                    j: nat) returns (n: U64)
    requires s < 64 && j < 8 && SlotCovers(base, bytes, s, spill, cell) && ScalarSpill(spill)
    requires !SurelyZero(bytes, s, spill, j)
    requires FullSpill(bytes, s) && spill.Some? ==> spill.value.b.id == 0 || spill.value.b.IsConstant()
    ensures SlotCovers(base, bytes, s, spill, Some(C.Number(n))) && ByteOf(n, j) != 0
  {
    hide Mark, ByteOf, FullSpill, Gamma;
    FullSpillMarks(bytes, s);
    if Mark(bytes, s, j).Spill? {
      var w: U64 :| SpillAdmits(spill, w) && ByteOf(w, j) != 0;
      if FullSpill(bytes, s) {
        n := w;
        FreeMember(base, spill.value.b, cell, w);
      } else {
        n := RespilledWord(base, bytes, s, spill, cell, w, j);
      }
    } else {
      n := C.MergeCell(cell, j, 1, C.Number(1)).bits;
      FreeByte(base, bytes, s, spill, cell, j);
    }
  }

  /** An unlinked scalar may have any member, a constant has only one. */
  lemma FreeMember(base: Base, b: Bounds, cell: Option<Value>, w: U64)
    requires RegCovers(base, Num(b), cell) && Gamma(b, w) && (b.id == 0 || b.IsConstant())
    ensures RegCovers(base, Num(b), Some(C.Number(w)))
  {
    hide Tnum.Contains;
    if b.IsConstant() {
      ConstantMember(b, w);
      ConstantMember(b, cell.value.bits);
    }
  }

  lemma RespilledWord(base: Base, bytes: Marks, s: nat, spill: Option<RegState>, cell: Option<Value>, w: U64, j: nat)
    returns (n: U64)
    requires s < 64 && j < 8 && SlotCovers(base, bytes, s, spill, cell) && !FullSpill(bytes, s) && SpillAdmits(spill, w)
    requires Mark(bytes, s, j).Spill? && ByteOf(w, j) != 0
    ensures SlotCovers(base, bytes, s, spill, Some(C.Number(n))) && ByteOf(n, j) != 0
  {
    hide Mark, ByteOf, FullSpill, SpillAdmits, Overlay;
    assert AnyInit(bytes, s);
    var n0 := cell.value.bits;
    var w0: U64 :| BytesMatch(bytes, s, spill, n0, w0);
    n := Overlay(bytes, s, n0, w, 8);
    forall i: nat | i < 8
      ensures ByteCovers(Mark(bytes, s, i), n, w, i)
    {
      OverlayBytes(bytes, s, n0, w, 8, i);
      assert ByteCovers(Mark(bytes, s, i), n0, w0, i);
    }
    OverlayBytes(bytes, s, n0, w, 8, j);
    assert BytesMatch(bytes, s, spill, n, w);
  }

  /** A byte without a claim may be anything. */
  lemma FreeByte(base: Base, bytes: Marks, s: nat, spill: Option<RegState>, cell: Option<Value>, j: nat)
    requires s < 64 && j < 8 && SlotCovers(base, bytes, s, spill, cell)
    requires !Mark(bytes, s, j).Spill? && !Mark(bytes, s, j).Zero?
    ensures var n := C.MergeCell(cell, j, 1, C.Number(1)).bits;
            SlotCovers(base, bytes, s, spill, Some(C.Number(n))) && ByteOf(n, j) != 0
  {
    hide Mark, ByteOf, FullSpill, SpillAdmits, C.MergeCell;
    var n := C.MergeCell(cell, j, 1, C.Number(1)).bits;
    FullSpillMarks(bytes, s);
    MergedByte(cell, j, 1, C.Number(1), j);
    OneByte();
    if AnyInit(bytes, s) {
      var n0 := cell.value.bits;
      var w0: U64 :| BytesMatch(bytes, s, spill, n0, w0);
      forall i: nat | i < 8
        ensures ByteCovers(Mark(bytes, s, i), n, w0, i)
      {
        MergedByte(cell, j, 1, C.Number(1), i);
        assert ByteCovers(Mark(bytes, s, i), n0, w0, i);
      }
      assert BytesMatch(bytes, s, spill, n, w0);
    }
  }

  lemma OneByte()
    ensures ByteOf(1, 0) == 1
  {
    assert Pow2(0) == 1;
  }

  /** The cells after a store placed in slot p. */
  lemma StoredCells(pc: nat, c: C.State, reg: Reg, off: I16, size: nat, cv: Value, p: nat, q: nat)
    requires ValidSize(size)
             && C.Locate(pc, c, reg, off, size) == Ok(C.Place(c.curframe, p, q, OffsetOf(p, q, off) + off))
    requires p < 64 && q + size <= 8
    ensures C.Store(pc, c, Some(cv), reg, off, size) == Ok(c.(stack := C.Merge(c.stack, p, q, size, cv)))
  {
    hide C.Locate, C.MergeCell;
  }

  /** A store from a covered retargeted state must end covered. */
  lemma AlwaysAt(base: Base, pc: nat, a: State, c: C.State, reg: Reg, off: I16, size: nat, v: RegState, cv: Value,
                 p: nat, s: nat, cell: Option<Value>)
    requires CoversOn(base, a, c) && ValidSize(size) && RegCovers(base, v, Some(cv))
    requires OwnFrame(a, reg) && CheckAccess(pc, a.regs[reg], off, size).Ok?
    requires !CheckAccess(pc, a.regs[reg], off, size).value.fixed
    requires StackWrite(pc, a, reg, off, size, v).Ok? && AlwaysCovers(pc, a, reg, off, size, v)
    requires Placement(CheckAccess(pc, a.regs[reg], off, size).value, InCell(a.regs[reg], off), size, p)
    requires p < 64 && s < 64 && SlotCovers(base, a.bytes, s, a.spilled[s], cell)
    requires InCell(a.regs[reg], off) + size <= 8
    ensures var q, acc := InCell(a.regs[reg], off), CheckAccess(pc, a.regs[reg], off, size).value;
            var c1 := Retarget(c, reg, OffsetOf(p, q, off), s, cell);
            && acc.lo <= acc.hi
            && Covers(ScrubStore(a, acc, StoreMark(v)), c1.(stack := C.Merge(c1.stack, p, q, size, cv)))
  {
    var q := InCell(a.regs[reg], off);
    PositionAligned(pc, a.regs[reg], off, size);
    WriteIsScrub(pc, a, reg, off, size, v);
    hide SlotCovers, RegCovers, CheckAccess, C.Locate, C.Merge, ScrubStore, OffsetOf, InCell, Placement, StackWrite,
         CoversOn, Covers, C.Store, AlwaysCovers, Retarget;
    LandsOnPlacement(base, pc, a, c, reg, off, size);
    OuterOnly(base, a, c);
    var c1 := Retarget(c, reg, OffsetOf(p, q, off), s, cell);
    RetargetCovers(base, pc, a, c, reg, off, size, p, s, cell);
    OuterOnly(base, a, c1);
    RetargetStores(pc, c, reg, off, size, p, q, s, cell);
    StoredCells(pc, c1, reg, off, size, cv, p, q);
    UseAlways(base, pc, a, c1, reg, off, size, v, cv);
  }

  lemma PositionAligned(pc: nat, ptr: RegState, off: I16, size: nat)
    requires ptr.PtrToStack? && ValidSize(size) && CheckAccess(pc, ptr, off, size).Ok?
    ensures InCell(ptr, off) % size == 0
  {
    CongruentAlign(ptr.align + off, 0, size);
  }

  lemma WriteIsScrub(pc: nat, a: State, reg: Reg, off: I16, size: nat, v: RegState)
    requires ValidSize(size) && OwnFrame(a, reg) && CheckAccess(pc, a.regs[reg], off, size).Ok?
    requires !CheckAccess(pc, a.regs[reg], off, size).value.fixed && StackWrite(pc, a, reg, off, size, v).Ok?
    ensures StackWrite(pc, a, reg, off, size, v).value ==
            ScrubStore(a, CheckAccess(pc, a.regs[reg], off, size).value, StoreMark(v))
  {
    hide CheckAccess, ScrubStore, PointerSpilled;
  }

  lemma UseAlways(base: Base, pc: nat, a: State, c: C.State, reg: Reg, off: I16, size: nat, v: RegState, cv: Value)
    requires ValidSize(size) && StackWrite(pc, a, reg, off, size, v).Ok? && AlwaysCovers(pc, a, reg, off, size, v)
    requires CoversOn(base, a, c) && RegCovers(base, v, Some(cv))
    ensures C.Store(pc, c, Some(cv), reg, off, size).Ok?
    ensures Covers(StackWrite(pc, a, reg, off, size, v).value, C.Store(pc, c, Some(cv), reg, off, size).value)
  {
    hide CoversOn, RegCovers, StackWrite, C.Store, Covers;
  }

  lemma OuterOnly(base: Base, a: State, c: C.State)
    requires CoversOn(base, a, c)
    ensures forall s: nat :: s < 64 ==> SlotCovers(base, a.bytes, s, a.spilled[s], c.stack[s])
  {
  }

  lemma NeededElsewhere(base: Base, pc: nat, a: State, c: C.State, reg: Reg, off: I16, size: nat, v: RegState,
                        cv: Value,
                        p: nat, s: nat)
    requires CoversOn(base, a, c) && ValidSize(size) && RegCovers(base, v, Some(cv))
    requires OwnFrame(a, reg) && CheckAccess(pc, a.regs[reg], off, size).Ok?
    requires !CheckAccess(pc, a.regs[reg], off, size).value.fixed
    requires StackWrite(pc, a, reg, off, size, v).Ok? && AlwaysCovers(pc, a, reg, off, size, v)
    requires Placement(CheckAccess(pc, a.regs[reg], off, size).value, InCell(a.regs[reg], off), size, p)
    requires p < 64 && s < 64 && p != s && Touched(CheckAccess(pc, a.regs[reg], off, size).value, s)
    requires InCell(a.regs[reg], off) + size <= 8 && ScalarSpill(a.spilled[s])
    requires FullSpill(a.bytes, s) && a.spilled[s].Some? ==>
             a.spilled[s].value.b.id == 0 || a.spilled[s].value.b.IsConstant()
    ensures AnyInit(a.bytes, s)
    ensures StoreMark(v).Zero? ==>
              forall j: nat :: j < 8 && Marked(CheckAccess(pc, a.regs[reg], off, size).value, s, j) ==>
                SurelyZero(a.bytes, s, a.spilled[s], j)
  {
    hide RegCovers, CheckAccess, C.MergeCell, ScrubStore, OffsetOf, InCell, Placement, CoversOn, Covers, StackWrite,
         AlwaysCovers, StoreMark, SurelyZero, Bounds.IsConstant, SlotCovers, Marked;
    var acc, q := CheckAccess(pc, a.regs[reg], off, size).value, InCell(a.regs[reg], off);
    var mark := StoreMark(v);
    StoreMarkKind(v);
    OuterOnly(base, a, c);
    if !AnyInit(a.bytes, s) {
      NothingStored(base, a.bytes, s, a.spilled[s]);
      AlwaysAt(base, pc, a, c, reg, off, size, v, cv, p, s, None);
      var c1 := Retarget(c, reg, OffsetOf(p, q, off), s, None);
      Uncovered(a, acc, mark, s, None, ScrubStore(a, acc, mark), c1.(stack := C.Merge(c1.stack, p, q, size, cv)));
    }
    forall j: nat | j < 8 && mark.Zero? && Marked(acc, s, j)
      ensures SurelyZero(a.bytes, s, a.spilled[s], j)
    {
      if !SurelyZero(a.bytes, s, a.spilled[s], j) {
        var n := NonzeroByte(base, a.bytes, s, a.spilled[s], c.stack[s], j);
        var cell := Some(C.Number(n));
        AlwaysAt(base, pc, a, c, reg, off, size, v, cv, p, s, cell);
        var c1 := Retarget(c, reg, OffsetOf(p, q, off), s, cell);
        assert BadZero(acc, mark, s, j, n);
        Uncovered(a, acc, mark, s, cell, ScrubStore(a, acc, mark), c1.(stack := C.Merge(c1.stack, p, q, size, cv)));
      }
    }
  }

  lemma NothingStored(base: Base, bytes: Marks, s: nat, spill: Option<RegState>)
    requires s < 64 && !AnyInit(bytes, s)
    ensures SlotCovers(base, bytes, s, spill, None)
  {
    hide FullSpill, Mark;
    FullSpillMarks(bytes, s);
    assert Mark(bytes, s, 0).Invalid?;
  }

  /** A pointer stored whole leaves a cell that is no number. */
  lemma PointerValue(base: Base, v: RegState, cv: Value)
    requires RegCovers(base, v, Some(cv)) && !v.Num? && !v.Uninit?
    ensures !cv.Number?
  {
  }

  lemma StoredIsInit(pc: nat, a: State, reg: Reg, off: I16, size: nat, v: RegState)
    requires ValidSize(size) && OwnFrame(a, reg) && StackWrite(pc, a, reg, off, size, v).Ok?
    ensures !v.Uninit?
  {
    hide CheckAccess, PointerSpilled;
  }

  lemma NeededHere(base: Base, pc: nat, a: State, c: C.State, reg: Reg, off: I16, size: nat, v: RegState,
                   cv: Value, s: nat)
    requires CoversOn(base, a, c) && ValidSize(size) && RegCovers(base, v, Some(cv))
    requires OwnFrame(a, reg) && CheckAccess(pc, a.regs[reg], off, size).Ok?
    requires !CheckAccess(pc, a.regs[reg], off, size).value.fixed
    requires StackWrite(pc, a, reg, off, size, v).Ok? && AlwaysCovers(pc, a, reg, off, size, v)
    requires Placement(CheckAccess(pc, a.regs[reg], off, size).value, InCell(a.regs[reg], off), size, s)
    requires s < 64 && Touched(CheckAccess(pc, a.regs[reg], off, size).value, s)
    requires InCell(a.regs[reg], off) + size <= 8 && ScalarSpill(a.spilled[s])
    requires FullSpill(a.bytes, s) && a.spilled[s].Some? ==>
             a.spilled[s].value.b.id == 0 || a.spilled[s].value.b.IsConstant()
    ensures v.Num? || size < 8
    ensures StoreMark(v).Zero? ==>
              var acc, q := CheckAccess(pc, a.regs[reg], off, size).value, InCell(a.regs[reg], off);
              forall j: nat :: j < 8 && Marked(acc, s, j) && !(q <= j < q + size) ==>
                SurelyZero(a.bytes, s, a.spilled[s], j)
  {
    hide RegCovers, CheckAccess, C.MergeCell, ScrubStore, OffsetOf, Placement, CoversOn, Covers, StackWrite, InCell,
         AlwaysCovers, StoreMark, SurelyZero, Bounds.IsConstant, SlotCovers, Marked, ByteOf;
    var acc, q := CheckAccess(pc, a.regs[reg], off, size).value, InCell(a.regs[reg], off);
    var mark := StoreMark(v);
    StoreMarkKind(v);
    OuterOnly(base, a, c);
    if !v.Num? && size == 8 {
      StoredIsInit(pc, a, reg, off, size, v);
      PointerValue(base, v, cv);
      WholeCell(c.stack[s], cv);
      AlwaysAt(base, pc, a, c, reg, off, size, v, cv, s, s, c.stack[s]);
      var c1 := Retarget(c, reg, OffsetOf(s, q, off), s, c.stack[s]);
      Uncovered(a, acc, mark, s, Some(cv), ScrubStore(a, acc, mark), c1.(stack := C.Merge(c1.stack, s, q, size, cv)));
    }
    forall j: nat | j < 8 && mark.Zero? && Marked(acc, s, j) && !(q <= j < q + size)
      ensures SurelyZero(a.bytes, s, a.spilled[s], j)
    {
      if !SurelyZero(a.bytes, s, a.spilled[s], j) {
        var n := NonzeroByte(base, a.bytes, s, a.spilled[s], c.stack[s], j);
        var cell := Some(C.Number(n));
        AlwaysAt(base, pc, a, c, reg, off, size, v, cv, s, s, cell);
        MergedByte(cell, q, size, cv, j);
        var after := C.MergeCell(cell, q, size, cv);
        assert BadZero(acc, mark, s, j, after.bits);
        var c1 := Retarget(c, reg, OffsetOf(s, q, off), s, cell);
        Uncovered(a, acc, mark, s, Some(after), ScrubStore(a, acc, mark),
            c1.(stack := C.Merge(c1.stack, s, q, size, cv)));
      }
    }
  }

  lemma ExactIfAlways(base: Base, pc: nat, a: State, c: C.State, reg: Reg, off: I16, size: nat, v: RegState, cv: Value)
    requires CoversOn(base, a, c) && ValidSize(size) && RegCovers(base, v, Some(cv))
    requires OwnFrame(a, reg) && CheckAccess(pc, a.regs[reg], off, size).Ok?
    requires !CheckAccess(pc, a.regs[reg], off, size).value.fixed
    requires StackWrite(pc, a, reg, off, size, v).Ok? && AlwaysCovers(pc, a, reg, off, size, v)
    requires FreeSpills(a, CheckAccess(pc, a.regs[reg], off, size).value)
    ensures VariableStoreExact(a, CheckAccess(pc, a.regs[reg], off, size).value, InCell(a.regs[reg], off), size, v)
  {
    var acc, q := CheckAccess(pc, a.regs[reg], off, size).value, InCell(a.regs[reg], off);
    NoPointers(a, acc);
    hide RegCovers, CheckAccess, Placement, CoversOn, StackWrite, AlwaysCovers, StoreMark, SurelyZero,
         Bounds.IsConstant,
         Marked, InCell, FullSpill, AnyInit;
    LandsOnPlacement(base, pc, a, c, reg, off, size);
    forall s: nat | s < 64 && Touched(acc, s)
      ensures SlotStoreExact(a, acc, q, size, v, s)
    {
      if Elsewhere(acc, q, size, s) {
        var p: nat :| p < 64 && p != s && Placement(acc, q, size, p);
        NeededElsewhere(base, pc, a, c, reg, off, size, v, cv, p, s);
      }
      if Placement(acc, q, size, s) {
        NeededHere(base, pc, a, c, reg, off, size, v, cv, s);
      }
    }
  }

  /** A store at an unknown offset keeps every covered state covered exactly under
      the condition, provided some state is covered at all. */
  lemma VariableStoreDecided(base: Base, pc: nat, a: State, c: C.State, reg: Reg, off: I16, size: nat, v: RegState,
                             cv: Value)
    requires CoversOn(base, a, c) && ValidSize(size) && RegCovers(base, v, Some(cv))
    requires OwnFrame(a, reg) && CheckAccess(pc, a.regs[reg], off, size).Ok?
    requires !CheckAccess(pc, a.regs[reg], off, size).value.fixed && StackWrite(pc, a, reg, off, size, v).Ok?
    requires FreeSpills(a, CheckAccess(pc, a.regs[reg], off, size).value)
    ensures AlwaysCovers(pc, a, reg, off, size, v) <==>
            VariableStoreExact(a, CheckAccess(pc, a.regs[reg], off, size).value, InCell(a.regs[reg], off), size, v)
  {
    hide RegCovers, CheckAccess, CoversOn, StackWrite, VariableStoreExact, InCell, C.Store, FreeSpills, Covers;
    var acc, q := CheckAccess(pc, a.regs[reg], off, size).value, InCell(a.regs[reg], off);
    if AlwaysCovers(pc, a, reg, off, size, v) {
      ExactIfAlways(base, pc, a, c, reg, off, size, v, cv);
    }
    if VariableStoreExact(a, acc, q, size, v) {
      forall b: Base, d: C.State, dv: Value | CoversOn(b, a, d) && RegCovers(b, v, Some(dv))
        ensures C.Store(pc, d, Some(dv), reg, off, size).Ok?
        ensures Covers(StackWrite(pc, a, reg, off, size, v).value, C.Store(pc, d, Some(dv), reg, off, size).value)
      {
        VariableStoreCovers(b, pc, a, d, reg, off, size, v, dv);
        CoveredBy(b, StackWrite(pc, a, reg, off, size, v).value, C.Store(pc, d, Some(dv), reg, off, size).value);
      }
    }
  }

  lemma CoveredBy(base: Base, a: State, c: C.State)
    requires CoversOn(base, a, c)
    ensures Covers(a, c)
  {
  }

  /** Every touched slot spills a constant or nothing. */
  predicate ConstantSpills(a: State, acc: Access) {
    forall s: nat :: s < 64 && Touched(acc, s) && IsScalarSpill(a.spilled[s]) ==> a.spilled[s].value.b.IsConstant()
  }

  /** For constants the test of single bytes is exact too. */
  lemma ConstantsKnown(base: Base, a: State, c: C.State, s: nat, j: nat)
    requires CoversOn(base, a, c) && s < 64 && j < 8 && ScalarSpill(a.spilled[s])
    requires IsScalarSpill(a.spilled[s]) ==> a.spilled[s].value.b.IsConstant()
    requires SurelyZero(a.bytes, s, a.spilled[s], j)
    ensures KnownZero(a.bytes, s, a.spilled[s], j)
  {
    hide Mark, FullSpill, ByteOf, SlotCovers, Tnum.Contains, ByteKnownZero, Bounds.IsConstant;
    OuterOnly(base, a, c);
    if Mark(a.bytes, s, j).Spill? {
      var w := SpilledByte(base, a.bytes, s, a.spilled[s], c.stack[s], j);
      ConstantByte(a.spilled[s].value.b, w, j);
    }
  }

  lemma ExactIsOk(base: Base, a: State, c: C.State, acc: Access, q: nat, size: nat, v: RegState)
    requires CoversOn(base, a, c) && ConstantSpills(a, acc) && VariableStoreExact(a, acc, q, size, v)
    requires forall s: nat :: s < 64 && Touched(acc, s) ==> ScalarSpill(a.spilled[s])
    ensures VariableStoreOk(a, acc, q, size, v)
  {
    hide KnownZero, SurelyZero, AnyInit, StoreMark, Elsewhere, Placement, CoversOn, Bounds.IsConstant;
    forall s: nat, j: nat | s < 64 && Touched(acc, s) && j < 8 && SurelyZero(a.bytes, s, a.spilled[s], j)
      ensures KnownZero(a.bytes, s, a.spilled[s], j)
    {
      ConstantsKnown(base, a, c, s, j);
    }
    forall s: nat | s < 64 && Touched(acc, s)
      ensures SlotStoreOk(a, acc, q, size, v, s)
    {
      assert SlotStoreExact(a, acc, q, size, v, s);
    }
  }

  /** The condition a caller can check decides the store when the touched slots hold
      constants, plain bytes or nothing. */
  lemma VariableStoreChecked(base: Base, pc: nat, a: State, c: C.State, reg: Reg, off: I16, size: nat, v: RegState,
                             cv: Value)
    requires CoversOn(base, a, c) && ValidSize(size) && RegCovers(base, v, Some(cv))
    requires OwnFrame(a, reg) && CheckAccess(pc, a.regs[reg], off, size).Ok?
    requires !CheckAccess(pc, a.regs[reg], off, size).value.fixed && StackWrite(pc, a, reg, off, size, v).Ok?
    requires ConstantSpills(a, CheckAccess(pc, a.regs[reg], off, size).value)
    ensures AlwaysCovers(pc, a, reg, off, size, v) <==>
            VariableStoreOk(a, CheckAccess(pc, a.regs[reg], off, size).value, InCell(a.regs[reg], off), size, v)
  {
    var acc, q := CheckAccess(pc, a.regs[reg], off, size).value, InCell(a.regs[reg], off);
    NoPointers(a, acc);
    hide RegCovers, CheckAccess, CoversOn, StackWrite, VariableStoreExact, VariableStoreOk, InCell, AlwaysCovers,
         Bounds.IsConstant;
    VariableStoreDecided(base, pc, a, c, reg, off, size, v, cv);
    if VariableStoreOk(a, acc, q, size, v) {
      OkIsExact(a, acc, q, size, v);
    }
    if VariableStoreExact(a, acc, q, size, v) {
      ExactIsOk(base, a, c, acc, q, size, v);
    }
  }
}
