/** Stack accesses of the abstract interpreter refuse and forget no more than they must
    (`src/exec.rs`): which accesses the frame test lets through, what a load gets back
    after a store, and what a store leaves alone. */
module StackPrecise {
  import opened Words
  import opened Scalar
  import opened Insn
  import opened Abstract

  // ── The frame test ───────────────────────────────────────────────────────

  /** The access stays in the frame from every place the pointer may have, and both its
      known alignment and its least place are multiples of the width. */
  ghost predicate FitsEverywhere(ptr: RegState, offset: I16, size: nat)
    requires ptr.PtrToStack? && ValidSize(size)
  {
    && ptr.align != ALIGN_UNKNOWN && (ptr.align + offset) % size == 0 && (ptr.min + offset) % size == 0
    && forall o: int :: ptr.min <= o <= ptr.max ==> InFrame(o, offset, size)
  }

  predicate InFrame(o: int, offset: int, size: nat) { -512 <= o + offset && o + offset + size <= 0 }

  /** Byte i below r10 is part of the access from some place of the pointer. */
  ghost predicate Touched(ptr: RegState, offset: I16, size: nat, i: int)
    requires ptr.PtrToStack?
  {
    exists o: int :: ptr.min <= o <= ptr.max && Covers(o, offset, size, i)
  }

  predicate Covers(o: int, offset: int, size: nat, i: int) { o + offset <= -i - 1 < o + offset + size }

  lemma CheckExact(pc: nat, ptr: RegState, offset: I16, size: nat)
    requires ptr.PtrToStack? && ValidSize(size) && ptr.min <= ptr.max
    ensures CheckAccess(pc, ptr, offset, size).Ok? <==> FitsEverywhere(ptr, offset, size)
  {
    var r := CheckAccess(pc, ptr, offset, size);
    if FitsEverywhere(ptr, offset, size) {
      assert InFrame(ptr.min, offset, size) && InFrame(ptr.max, offset, size);
    }
  }

  /** An accepted access is described by exactly the bytes it may touch. */
  lemma AccessBytes(pc: nat, ptr: RegState, offset: I16, size: nat, i: int)
    requires ptr.PtrToStack? && ValidSize(size) && ptr.min <= ptr.max && CheckAccess(pc, ptr, offset, size).Ok?
    ensures var a := CheckAccess(pc, ptr, offset, size).value;
            && (a.lo <= i <= a.hi <==> Touched(ptr, offset, size, i))
            && (a.fixed <==> ptr.min == ptr.max) && a.minOff == ptr.min + offset
  {
    var a := CheckAccess(pc, ptr, offset, size).value;
    if a.lo <= i <= a.hi {
      var o := if ptr.min + offset + size > -i - 1 then ptr.min else -i - size - offset;
      assert Covers(o, offset, size, i);
    }
  }

  // ── Loads ────────────────────────────────────────────────────────────────

  /** Something a load of these bytes cannot return as a number: a byte never written, or
      part of a spill that is not a number. */
  ghost predicate Unreadable(st: State, lo: int, hi: int, whole: bool)
    requires 0 <= lo <= hi < 512
  {
    exists i :: lo <= i <= hi && BadByte(st, i, whole)
  }

  predicate BadByte(st: State, i: int, whole: bool)
    requires 0 <= i < 512
  {
    st.bytes[i].Invalid? || (!whole && st.bytes[i].Spill? && !IsScalarSpill(st.spilled[i / 8]))
  }

  lemma VariableReadExact(st: State, lo: int, hi: int)
    requires 0 <= lo <= hi < 512
    ensures VariableReadable(st, lo, hi) <==> !Unreadable(st, lo, hi, false)
  {
    if VariableReadable(st, lo, hi) {
      forall i | lo <= i <= hi
        ensures !BadByte(st, i, false)
      {
      }
    } else {
      var i :| lo <= i <= hi && !(!st.bytes[i].Invalid? && (st.bytes[i].Spill? ==> IsScalarSpill(st.spilled[i / 8])));
      assert BadByte(st, i, false);
    }
  }

  /** A fixed load is refused when it meets a byte never written, or reads part of what is
      wholly a spilled pointer. */
  lemma FixedReadRefuses(pc: nat, st: State, a: Access, size: nat, signExtend: bool)
    requires ValidSize(size) && 0 <= a.lo <= a.hi < 512 && a.hi / 8 < 64
    ensures FixedRead(pc, st, a, size, signExtend).Err? <==>
              if PartOfSpill(st, a) then size != 8 && !st.spilled[a.hi / 8].value.Num?
              else Unreadable(st, a.lo, a.hi, true)
  {
    if !PartOfSpill(st, a) || size != 8 {
      if NoneInvalid(st.bytes, a.lo, a.hi) {
        assert !Unreadable(st, a.lo, a.hi, true);
      } else {
        var i :| a.lo <= i <= a.hi && st.bytes[i].Invalid?;
        assert BadByte(st, i, true);
      }
    }
  }

  /** All bytes belong to a spilled register. */
  predicate PartOfSpill(st: State, a: Access)
    requires 0 <= a.lo <= a.hi < 512 && a.hi / 8 < 64
  {
    AllMarked(st.bytes, a.lo, a.hi, Spill) && st.spilled[a.hi / 8].Some?
  }

  // ── A store and the load behind it ───────────────────────────────────────

  /** The access of a pointer with one place that the frame test lets through. */
  predicate FixedAccess(a: Access, size: nat) {
    && ValidSize(size) && 0 <= a.lo <= a.hi < 512 && a.hi / 8 < 64 && a.fixed
    && a.minOff == -a.hi - 1 && a.hi == a.lo + size - 1 && a.minOff % size == 0
  }

  lemma CheckGivesFixed(pc: nat, ptr: RegState, offset: I16, size: nat)
    requires ptr.PtrToStack? && ptr.min == ptr.max && ValidSize(size) && CheckAccess(pc, ptr, offset, size).Ok?
    ensures FixedAccess(CheckAccess(pc, ptr, offset, size).value, size)
  {
  }

  /** What an aligned or unaligned narrow load finds of a stored number. */
  function Reloaded(v: RegState, a: Access, size: nat, signExtend: bool): RegState
    requires ValidSize(size)
  {
    if size == 8 then v
    else if a.minOff % 8 == 0 && v.Num? then Num(CoerceScalar(v.b, size, signExtend))
    else if v.Num? && v.b.IsConstant() && v.b.smin == 0 then Num(Const(0))
    else Num(Top())
  }

  /** A load right behind a store of the same bytes gets the register back: whole at full
      width, truncated at the start of a slot, and elsewhere a known zero or a number. */
  lemma StoreThenRead(pc: nat, st: State, a: Access, size: nat, v: RegState, signExtend: bool)
    requires FixedAccess(a, size) && StackStore(pc, st, a, size, v).Ok?
    ensures FixedRead(pc, StackStore(pc, st, a, size, v).value, a, size, signExtend) ==
            Ok(Reloaded(v, a, size, signExtend))
  {
    hide CoerceScalar, Top, Const;
    var next := StackStore(pc, st, a, size, v).value;
    if a.minOff % 8 == 0 {
      SpilledMarks(st, a, v);
    } else {
      assert size != 8;
      var mark := if v.Num? && v.b.IsConstant() && v.b.smin == 0 then Zero else Misc;
      assert next == ScrubStore(st, a, mark);
      ScrubbedMarks(st, a, mark, a.lo);
    }
  }

  lemma SpilledMarks(st: State, a: Access, v: RegState)
    requires 0 <= a.lo <= a.hi < 512 && a.hi / 8 < 64
    ensures AllMarked(SpillStore(st, a, v).bytes, a.lo, a.hi, Spill)
    ensures SpillStore(st, a, v).spilled[a.hi / 8] == Some(v)
  {
  }

  lemma ScrubbedMarks(st: State, a: Access, mark: StackByte, i: int)
    requires 0 <= a.lo <= i <= a.hi < 512 && !mark.Spill? && !mark.Invalid?
    ensures AllMarked(ScrubStore(st, a, mark).bytes, a.lo, a.hi, mark)
    ensures !AllMarked(ScrubStore(st, a, mark).bytes, a.lo, a.hi, Spill)
    ensures !mark.Zero? ==> !AllMarked(ScrubStore(st, a, mark).bytes, a.lo, a.hi, Zero)
    ensures NoneInvalid(ScrubStore(st, a, mark).bytes, a.lo, a.hi)
  {
    assert ScrubStore(st, a, mark).bytes[i] == mark;
  }

  // ── What a store leaves alone ────────────────────────────────────────────

  /** The two states agree on slot s. */
  ghost predicate SameSlot(st: State, next: State, s: nat)
    requires s < 64
  {
    next.spilled[s] == st.spilled[s] && forall i :: 8 * s <= i < 8 * s + 8 ==> next.bytes[i] == st.bytes[i]
  }

  /** A store changes only the slots it may touch; in those it keeps every byte it does not
      cover, up to spills it breaks. It never turns a written byte into an unwritten one. */
  lemma StoreLeaves(pc: nat, st: State, a: Access, size: nat, v: RegState, s: nat, i: nat)
    requires 0 <= a.lo <= a.hi < 512 && a.hi / 8 < 64 && StackStore(pc, st, a, size, v).Ok? && s < 64 && i < 512
    requires a.fixed ==> a.lo / 8 == a.hi / 8
    ensures var next := StackStore(pc, st, a, size, v).value;
            && next.regs == st.regs && next.refs == st.refs && next.frame == st.frame
            && (s < a.lo / 8 || s > a.hi / 8 ==> SameSlot(st, next, s))
            && (!(a.lo <= i <= a.hi) && !st.bytes[i].Spill? && !(a.fixed && a.minOff % 8 == 0 && i < a.lo) ==>
                  next.bytes[i] == st.bytes[i])
            && (!st.bytes[i].Invalid? ==> !next.bytes[i].Invalid?)
  {
  }

  /** Stores are refused exactly when the operand was never written, or a pointer would be
      stored in part or over, or in the middle of, a slot that holds one. */
  lemma StoreRefuses(pc: nat, st: State, a: Access, size: nat, v: RegState)
    requires 0 <= a.lo <= a.hi < 512 && a.hi / 8 < 64
    ensures StackStore(pc, st, a, size, v).Err? <==>
              || v.Uninit?
              || (if a.fixed && a.minOff % 8 == 0 then !v.Num? && size != 8 else TouchesPointer(st, a))
  {
    if PointerSpilled(st, a) {
      var s :| 0 <= s < 64 && a.lo / 8 <= s <= a.hi / 8 && st.spilled[s].Some? && !st.spilled[s].value.Num?;
      var i := if a.lo / 8 == s then a.lo else 8 * s;
      assert a.lo <= i <= a.hi && i / 8 == s && OverPointer(st, i);
    }
  }

  /** Some slot of the access holds a spilled pointer. */
  ghost predicate TouchesPointer(st: State, a: Access)
    requires 0 <= a.lo <= a.hi < 512
  {
    exists i :: a.lo <= i <= a.hi && OverPointer(st, i)
  }

  predicate OverPointer(st: State, i: int)
    requires 0 <= i < 512
  {
    st.spilled[i / 8].Some? && !st.spilled[i / 8].value.Num?
  }

  // ── Whole instructions ───────────────────────────────────────────────────

  /** An eight-byte access to a reserved buffer, or a narrower one in it. */
  predicate InBuffer(offset: I16, size: nat)
    requires ValidSize(size)
  {
    0 <= offset <= 8 - size && offset % size == 0
  }

  /** The bytes the access may touch read as one register or as numbers. */
  ghost predicate Readable(st: State, ptr: RegState, offset: I16, size: nat)
    requires ptr.PtrToStack? && ValidSize(size) && ptr.min <= ptr.max && FitsEverywhere(ptr, offset, size)
  {
    CheckExact(0, ptr, offset, size);
    var a := CheckAccess(0, ptr, offset, size).value;
    if a.fixed && PartOfSpill(st, a) then size == 8 || st.spilled[a.hi / 8].value.Num?
    else !Unreadable(st, a.lo, a.hi, a.fixed)
  }

  predicate IntervalsOrdered(ptr: RegState) { ptr.PtrToStack? ==> ptr.min <= ptr.max }

  /** A load is for buffers, and for bytes of this frame that read as one value. */
  ghost predicate Loadable(st: State, ptr: RegState, offset: I16, size: nat)
    requires ValidSize(size) && IntervalsOrdered(ptr)
  {
    || (ptr.PtrToMem? && InBuffer(offset, size))
    || (ptr.PtrToStack? && ptr.frameno == st.frame && FitsEverywhere(ptr, offset, size)
        && Readable(st, ptr, offset, size))
  }

  lemma ReadAccepts(pc: nat, st: State, base: Reg, offset: I16, size: nat, signExtend: bool)
    requires ValidSize(size) && IntervalsOrdered(st.regs[base])
    ensures StackRead(pc, st, base, offset, size, signExtend).Ok? <==> Loadable(st, st.regs[base], offset, size)
  {
    hide FixedRead, VariableReadable, Unreadable, PartOfSpill, FitsEverywhere, CheckAccess;
    var ptr := st.regs[base];
    if ptr.PtrToStack? {
      CheckExact(pc, ptr, offset, size);
      if CheckAccess(pc, ptr, offset, size).Ok? {
        CheckAgain(pc, 0, ptr, offset, size);
        var a := CheckAccess(pc, ptr, offset, size).value;
        NonemptyAccess(pc, ptr, offset, size);
        if a.fixed {
          FixedReadRefuses(pc, st, a, size, signExtend);
        } else {
          VariableReadExact(st, a.lo, a.hi);
        }
      }
    }
  }

  lemma NonemptyAccess(pc: nat, ptr: RegState, offset: I16, size: nat)
    requires ptr.PtrToStack? && ValidSize(size) && ptr.min <= ptr.max && CheckAccess(pc, ptr, offset, size).Ok?
    ensures CheckAccess(pc, ptr, offset, size).value.lo <= CheckAccess(pc, ptr, offset, size).value.hi
    ensures CheckAccess(pc, ptr, offset, size).value.hi / 8 < 64
  {
  }

  /** The operand may be stored there: anything initialized, a pointer only whole or over
      plain bytes. */
  ghost predicate Storable(st: State, ptr: RegState, offset: I16, size: nat, v: RegState)
    requires ptr.PtrToStack? && ValidSize(size) && ptr.min <= ptr.max && FitsEverywhere(ptr, offset, size)
  {
    CheckExact(0, ptr, offset, size);
    var a := CheckAccess(0, ptr, offset, size).value;
    !v.Uninit? && if a.fixed && (ptr.min + offset) % 8 == 0 then v.Num? || size == 8 else !TouchesPointer(st, a)
  }

  ghost predicate StorableAt(st: State, ptr: RegState, offset: I16, size: nat, v: RegState)
    requires ValidSize(size) && IntervalsOrdered(ptr)
  {
    || (ptr.PtrToMem? && InBuffer(offset, size) && v.Num?)
    || (ptr.PtrToStack? && ptr.frameno == st.frame && FitsEverywhere(ptr, offset, size)
        && Storable(st, ptr, offset, size, v))
  }

  lemma WriteAccepts(pc: nat, st: State, base: Reg, offset: I16, size: nat, v: RegState)
    requires ValidSize(size) && IntervalsOrdered(st.regs[base])
    ensures StackWrite(pc, st, base, offset, size, v).Ok? <==> StorableAt(st, st.regs[base], offset, size, v)
  {
    hide StackStore, TouchesPointer, FitsEverywhere, CheckAccess;
    var ptr := st.regs[base];
    if ptr.PtrToStack? {
      CheckExact(pc, ptr, offset, size);
      if CheckAccess(pc, ptr, offset, size).Ok? {
        CheckAgain(pc, 0, ptr, offset, size);
        var a := CheckAccess(pc, ptr, offset, size).value;
        NonemptyAccess(pc, ptr, offset, size);
        AccessBytes(pc, ptr, offset, size, a.lo);
        StoreRefuses(pc, st, a, size, v);
      }
    }
  }

  /** Stores change no register. */
  lemma WriteKeepsRegisters(pc: nat, st: State, base: Reg, offset: I16, size: nat, v: RegState)
    requires ValidSize(size) && StackWrite(pc, st, base, offset, size, v).Ok?
    ensures var next := StackWrite(pc, st, base, offset, size, v).value;
            next.regs == st.regs && next.refs == st.refs && next.frame == st.frame
  {
  }

  /** A store through a pointer with one place, and a load of the same bytes behind it. */
  lemma WriteThenRead(pc: nat, st: State, base: Reg, offset: I16, size: nat, v: RegState, pc2: nat, signExtend: bool)
    requires ValidSize(size) && st.regs[base].PtrToStack? && st.regs[base].min == st.regs[base].max
    requires StackWrite(pc, st, base, offset, size, v).Ok?
    ensures var a := CheckAccess(pc, st.regs[base], offset, size).value;
            StackRead(pc2, StackWrite(pc, st, base, offset, size, v).value, base, offset, size, signExtend) ==
            Ok(Reloaded(v, a, size, signExtend))
  {
    hide CheckAccess, FixedRead, Reloaded, FixedAccess, SpillStore, ScrubStore;
    var ptr := st.regs[base];
    CheckAgain(pc, pc2, ptr, offset, size);
    CheckGivesFixed(pc, ptr, offset, size);
    var a := CheckAccess(pc, ptr, offset, size).value;
    AccessBytes(pc, ptr, offset, size, a.lo);
    StoreThenRead(pc, st, a, size, v, signExtend);
    WriteKeepsRegisters(pc, st, base, offset, size, v);
    ReadAgain(pc, pc2, StackStore(pc, st, a, size, v).value, a, size, signExtend);
  }

  lemma CheckAgain(pc: nat, pc2: nat, ptr: RegState, offset: I16, size: nat)
    requires ptr.PtrToStack? && ValidSize(size) && CheckAccess(pc, ptr, offset, size).Ok?
    ensures CheckAccess(pc2, ptr, offset, size) == CheckAccess(pc, ptr, offset, size)
  {
  }

  lemma ReadAgain(pc: nat, pc2: nat, st: State, a: Access, size: nat, signExtend: bool)
    requires ValidSize(size) && 0 <= a.lo <= a.hi < 512 && a.hi / 8 < 64
    requires FixedRead(pc, st, a, size, signExtend).Ok?
    ensures FixedRead(pc2, st, a, size, signExtend) == FixedRead(pc, st, a, size, signExtend)
  {
  }

  /** Bytes known to be zero load as the number 0 at every width. */
  lemma ZeroBytesRead(pc: nat, st: State, a: Access, size: nat, signExtend: bool)
    requires FixedAccess(a, size) && AllMarked(st.bytes, a.lo, a.hi, Zero)
    ensures FixedRead(pc, st, a, size, signExtend) == Ok(Num(Const(0)))
  {
    assert st.bytes[a.lo] == Zero;
  }
}
