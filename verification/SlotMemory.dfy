/** The 64 eight-byte cells behave like a flat 512-byte little-endian array
    addressed from r10 downwards (`src/concrete.rs`). */
module SlotMemory {
  import opened Words
  import opened Bits
  import opened TnumDomain
  import opened TnumSound
  import opened Scalar
  import opened AluSound
  import opened Insn
  import opened Concrete

  /** Byte j of a word, least significant first. */
  function ByteOf(v: U64, j: nat): nat { (v / Pow2(8 * j)) % 0x100 }

  /** The cell and the byte of that cell that hold the byte at r10 + o. */
  function SlotOf(o: int): int { (-o - 1) / 8 }

  function IndexOf(o: int): int { 7 - (-o - 1) % 8 }

  /** The byte at r10 + o. */
  function ByteAt(cells: Cells, o: int): nat
    requires -512 <= o < 0
  {
    ByteOf(CellBits(cells[SlotOf(o)]), IndexOf(o))
  }

  /** The little-endian number in bytes [o, o + n). */
  function WordAt(cells: Cells, o: int, n: nat): nat
    requires -512 <= o && o + n <= 0
    decreases n
  {
    if n == 0 then 0 else ByteAt(cells, o) + 0x100 * WordAt(cells, o + 1, n - 1)
  }

  /** An access is accepted iff it lies in the frame and is aligned to its size;
      it then lies inside one cell. */
  lemma RangeExact(pc: nat, offset: int, size: nat)
    requires ValidSize(size)
    ensures StackRange(pc, offset, size).Ok? <==> -512 <= offset && offset + size <= 0 && offset % size == 0
    ensures StackRange(pc, offset, size).Ok? ==>
              var (slot, inSlot) := StackRange(pc, offset, size).value;
              forall o :: offset <= o < offset + size ==>
                SlotOf(o) == slot && IndexOf(o) == inSlot + (o - offset)
  {
    if StackRange(pc, offset, size).Ok? {
      var (slot, inSlot) := StackRange(pc, offset, size).value;
      forall o | offset <= o < offset + size
        ensures SlotOf(o) == slot && IndexOf(o) == inSlot + (o - offset)
      {
        match size {
          case 1 =>
          case 2 =>
          case 4 =>
          case 8 =>
        }
      }
    }
  }

  /** Bit i of byte j. */
  predicate ByteBit(v: U64, j: nat, i: nat) { Bit(v, 8 * j + i) }

  lemma BitByte(v: U64, j: nat, i: nat)
    requires i < 8
    ensures Bit(ByteOf(v, j), i) == ByteBit(v, j, i)
  {
    hide Pow2;
    Pow2Words();
    BitMod(v / Pow2(8 * j), 8, i);
    BitDiv(v, 8 * j, i);
  }

  lemma SameByte(v: U64, j: nat, w: U64, k: nat)
    requires forall i: nat :: i < 8 ==> ByteBit(v, j, i) == ByteBit(w, k, i)
    ensures ByteOf(v, j) == ByteOf(w, k)
  {
    hide Bit, Pow2;
    Pow2Words();
    var a, b := ByteOf(v, j), ByteOf(w, k);
    forall i: nat | i < 8
      ensures Bit(a, i) == Bit(b, i)
    {
      BitByte(v, j, i);
      BitByte(w, k, i);
    }
    ByteBound(v, j);
    ByteBound(w, k);
    Extensional(a, b, 8);
  }

  lemma ByteBound(v: U64, j: nat)
    ensures ByteOf(v, j) < 0x100
  {
  }

  lemma BitLowPart(v: U64, n: nat, k: nat)
    requires 0 < n < 64 && k < 64
    ensures Pow2(n) <= TWO64 && Bit(And64(v, Pow2(n) - 1), k) == (k < n && Bit(v, k))
  {
    hide Bit, Pow2;
    Pow2Words();
    Pow2Mono(n, 64);
    BitAnd(v, Pow2(n) - 1, k);
    BitLowMask(n, k);
  }

  /** The merged cell bit by bit. */
  lemma BitMerge(existing: Option<Value>, inSlot: nat, size: nat, value: Value, k: nat)
    requires ValidSize(size) && inSlot + size <= 8 && size < 8 && k < 64
    ensures Bit(MergeCell(existing, inSlot, size, value).bits, k) ==
            if 8 * inSlot <= k < 8 * (inSlot + size) then Bit(value.bits, k - 8 * inSlot)
            else Bit(CellBits(existing), k)
  {
    hide Bit, Pow2, Bits.And, Bits.Or, Shl;
    LowMaskBounds(value.bits, size);
    var low: U64 := Pow2(8 * size) - 1;
    var raw := And64(value.bits, low);
    var prior := CellBits(existing);
    BitShl(low, 8 * inSlot, k);
    BitShl(raw, 8 * inSlot, k);
    BitNot64(Shl(low, 8 * inSlot), k);
    BitAnd(prior, Not64(Shl(low, 8 * inSlot)), k);
    BitOr(And64(prior, Not64(Shl(low, 8 * inSlot))), Shl(raw, 8 * inSlot), k);
    if k >= 8 * inSlot {
      BitLowMask(8 * size, k - 8 * inSlot);
      BitLowPart(value.bits, 8 * size, k - 8 * inSlot);
    }
  }

  lemma MergedByte(existing: Option<Value>, inSlot: nat, size: nat, value: Value, j: nat)
    requires ValidSize(size) && inSlot + size <= 8 && j < 8
    ensures ByteOf(MergeCell(existing, inSlot, size, value).bits, j) ==
            if inSlot <= j < inSlot + size then ByteOf(value.bits, j - inSlot) else ByteOf(CellBits(existing), j)
  {
    hide Bit, Pow2, MergeCell;
    if size == 8 {
      WholeCell(existing, value);
    } else {
      var m := MergeCell(existing, inSlot, size, value).bits;
      var inside := inSlot <= j < inSlot + size;
      var w, k := if inside then value.bits else CellBits(existing), if inside then j - inSlot else j;
      forall i: nat | i < 8
        ensures ByteBit(m, j, i) == ByteBit(w, k, i)
      {
        BitMerge(existing, inSlot, size, value, 8 * j + i);
      }
      SameByte(m, j, w, k);
    }
  }

  lemma WholeCell(existing: Option<Value>, value: Value)
    ensures MergeCell(existing, 0, 8, value) == value
  {
  }

  /** A store overwrites exactly the bytes of the access. */
  lemma StoreBytes(cells: Cells, pc: nat, offset: int, size: nat, value: Value, o: int)
    requires ValidSize(size) && StackRange(pc, offset, size).Ok? && -512 <= o < 0
    ensures var (slot, inSlot) := StackRange(pc, offset, size).value;
            ByteAt(Merge(cells, slot, inSlot, size, value), o) ==
            if offset <= o < offset + size then ByteOf(value.bits, o - offset) else ByteAt(cells, o)
  {
    hide ByteOf, MergeCell, StackRange;
    var (slot, inSlot) := StackRange(pc, offset, size).value;
    RangeExact(pc, offset, size);
    var j := IndexOf(o);
    MergedByte(cells[slot], inSlot, size, value, j);
    if SlotOf(o) == slot && !(offset <= o < offset + size) {
      OutsideAccess(pc, offset, size, o);
    }
  }

  /** The frame byte at r10 + o lies in bytes [inSlot, inSlot + size) of the cell. */
  predicate Covered(slot: nat, inSlot: nat, size: nat, o: int) {
    SlotOf(o) == slot && inSlot <= IndexOf(o) < inSlot + size
  }

  /** What a store of the low bytes of a value leaves of a frame, byte by byte. */
  ghost predicate BytesStored(before: Cells, after: Cells, slot: nat, inSlot: nat, size: nat, value: U64) {
    forall o :: -512 <= o < 0 ==>
      ByteAt(after, o) == if Covered(slot, inSlot, size, o) then ByteOf(value, IndexOf(o) - inSlot)
          else ByteAt(before, o)
  }

  /** And cell by cell: a whole cell keeps the pointer kind, a part makes a number. */
  ghost predicate CellsStored(before: Cells, after: Cells, slot: nat, size: nat, value: Value)
    requires slot < STACK_SLOTS
  {
    && after[slot].Some? && (if size == 8 then after[slot].value == value else after[slot].value.Number?)
    && forall s :: 0 <= s < STACK_SLOTS && s != slot ==> after[s] == before[s]
  }

  lemma MergeStores(cells: Cells, slot: nat, inSlot: nat, size: nat, value: Value)
    requires slot < STACK_SLOTS && ValidSize(size) && inSlot + size <= 8
    ensures BytesStored(cells, Merge(cells, slot, inSlot, size, value), slot, inSlot, size, value.bits)
    ensures CellsStored(cells, Merge(cells, slot, inSlot, size, value), slot, size, value)
  {
    hide ByteOf, And64, Or64, Not64, Shl;
    var after := Merge(cells, slot, inSlot, size, value);
    forall o | -512 <= o < 0
      ensures ByteAt(after, o) ==
              if Covered(slot, inSlot, size, o) then ByteOf(value.bits, IndexOf(o) - inSlot) else ByteAt(cells, o)
    {
      MergedByte(cells[slot], inSlot, size, value, IndexOf(o));
    }
  }

  /** `concrete_merge`, in place on the cells of the owning frame. */
  method MergeInPlace(stack: array<Option<Value>>, slot: nat, inSlot: nat, size: nat, value: Value)
    requires stack.Length == STACK_SLOTS && slot < STACK_SLOTS && ValidSize(size) && inSlot + size <= 8
    modifies stack
    ensures BytesStored(old(stack[..]), stack[..], slot, inSlot, size, value.bits)
    ensures CellsStored(old(stack[..]), stack[..], slot, size, value)
    ensures stack[..] == Merge(old(stack[..]), slot, inSlot, size, value)
  {
    hide And64, Or64, Shl, Not64, Pow2, Bits.And, Bits.Or, BytesStored, CellsStored;
    MergeStores(stack[..], slot, inSlot, size, value);
    if size == 8 {
      stack[slot] := Some(value);
      return;
    }
    LowMaskBounds(value.bits, size);
    var low: U64 := Pow2(8 * size) - 1;
    var raw := And64(value.bits, low);
    var existing := CellBits(stack[slot]);
    var merged := Or64(And64(existing, Not64(Shl(low, 8 * inSlot))), Shl(raw, 8 * inSlot));
    stack[slot] := Some(Number(merged));
  }

  lemma OutsideAccess(pc: nat, offset: int, size: nat, o: int)
    requires ValidSize(size) && StackRange(pc, offset, size).Ok? && -512 <= o < 0
    requires SlotOf(o) == StackRange(pc, offset, size).value.0 && !(offset <= o < offset + size)
    ensures var inSlot := StackRange(pc, offset, size).value.1;
            !(inSlot <= IndexOf(o) < inSlot + size)
  {
    RangeExact(pc, offset, size);
  }

  /** Consecutive bytes of one word form the shifted and truncated word. */
  lemma {:induction false} BytesFormWord(cells: Cells, o: int, n: nat, v: U64, j: nat)
    requires -512 <= o && o + n <= 0 && j + n <= 8
    requires forall a :: o <= a < o + n ==> ByteAt(cells, a) == ByteOf(v, j + (a - o))
    ensures WordAt(cells, o, n) == (v / Pow2(8 * j)) % Pow2(8 * n)
    decreases n
  {
    hide ByteAt, Pow2, ByteOf;
    if n == 0 {
      Pow2Zero();
    } else {
      forall a | o + 1 <= a < o + n
        ensures ByteAt(cells, a) == ByteOf(v, (j + 1) + (a - (o + 1)))
      {
        assert (j + 1) + (a - (o + 1)) == j + (a - o);
      }
      BytesFormWord(cells, o + 1, n - 1, v, j + 1);
      WordStep(v, j, n);
    }
  }

  lemma WordStep(v: U64, j: nat, n: nat)
    requires n > 0
    ensures (v / Pow2(8 * j)) % Pow2(8 * n) == ByteOf(v, j) + 0x100 * ((v / Pow2(8 * (j + 1))) % Pow2(8 * (n - 1)))
  {
    hide Pow2;
    BytePowers(j, n);
    SplitByte(v, Pow2(8 * j), Pow2(8 * (n - 1)));
  }

  lemma BytePowers(j: nat, n: nat)
    requires n > 0
    ensures Pow2(8 * (j + 1)) == Pow2(8 * j) * 0x100 && Pow2(8 * n) == 0x100 * Pow2(8 * (n - 1))
  {
    hide Pow2;
    Pow2Words();
    Pow2Add(8 * j, 8);
    Pow2Add(8, 8 * (n - 1));
    assert 8 * (j + 1) == 8 * j + 8 && 8 * n == 8 + 8 * (n - 1);
  }

  lemma SplitByte(v: nat, p: nat, m: nat)
    requires p > 0 && m > 0
    ensures (v / p) % (0x100 * m) == (v / p) % 0x100 + 0x100 * ((v / (p * 0x100)) % m)
  {
    DivDiv(v, p, 0x100);
    DivDiv(v / p, 0x100, m);
  }

  lemma Pow2Zero()
    ensures Pow2(0) == 1
  {
  }

  lemma ExtractIsLoad(v: Value, inSlot: nat, size: nat, signExtend: bool)
    requires ValidSize(size) && inSlot + size <= 8
    ensures 0 <= (v.bits / Pow2(8 * inSlot)) % Pow2(8 * size) < TWO64
    ensures var raw := (v.bits / Pow2(8 * inSlot)) % Pow2(8 * size);
            Extract(v, inSlot, size, signExtend).bits == Extend(raw, size, signExtend)
  {
    hide Pow2, Bits.And;
    Pow2Words();
    Pow2Zero();
    Pow2Mono(8 * size, 64);
    if size == 8 {
      assert (v.bits / Pow2(0)) % Pow2(64) == v.bits;
      WordExtend(v.bits, signExtend);
    } else {
      AndLowMask(Shr(v.bits, 8 * inSlot), 8 * size);
    }
  }

  lemma WordExtend(v: U64, signExtend: bool)
    ensures v < Pow2(64) && Extend(v, 8, signExtend) == v
  {
    Pow2Words();
  }

  /** A load returns the zero- or sign-extended little-endian number of the bytes
      of the access. */
  lemma LoadBytes(cells: Cells, pc: nat, offset: int, size: nat, signExtend: bool)
    requires ValidSize(size) && StackRange(pc, offset, size).Ok?
    requires cells[StackRange(pc, offset, size).value.0].Some?
    ensures -512 <= offset && offset + size <= 0 && WordAt(cells, offset, size) < Pow2(8 * size) <= TWO64
    ensures var (slot, inSlot) := StackRange(pc, offset, size).value;
            Extract(cells[slot].value, inSlot, size, signExtend).bits ==
            Extend(WordAt(cells, offset, size), size, signExtend)
  {
    hide Pow2, ByteOf, Extract, Extend, StackRange;
    var (slot, inSlot) := StackRange(pc, offset, size).value;
    RangeExact(pc, offset, size);
    var v := cells[slot].value;
    forall a | offset <= a < offset + size
      ensures ByteAt(cells, a) == ByteOf(v.bits, inSlot + (a - offset))
    {
      assert SlotOf(a) == slot;
    }
    BytesFormWord(cells, offset, size, v.bits, inSlot);
    ExtractIsLoad(v, inSlot, size, signExtend);
    Pow2Words();
    Pow2Mono(8 * size, 64);
  }

  /** Disjoint stores do not interfere, whichever cells they share. */
  lemma {:induction false} DisjointStore(cells: Cells, pc: nat, offset: int, size: nat, value: Value, o: int, n: nat)
    requires ValidSize(size) && StackRange(pc, offset, size).Ok?
    requires -512 <= o && o + n <= 0 && (o + n <= offset || offset + size <= o)
    ensures var (slot, inSlot) := StackRange(pc, offset, size).value;
            WordAt(Merge(cells, slot, inSlot, size, value), o, n) == WordAt(cells, o, n)
    decreases n
  {
    hide ByteAt, Merge;
    if n > 0 {
      StoreBytes(cells, pc, offset, size, value, o);
      DisjointStore(cells, pc, offset, size, value, o + 1, n - 1);
    }
  }

  lemma LowWord(v: U64, size: nat, signExtend: bool)
    requires ValidSize(size)
    ensures Pow2(8 * size) <= TWO64
    ensures var raw := (v / Pow2(8 * 0)) % Pow2(8 * size);
            raw < Pow2(8 * size) && Extend(raw, size, signExtend) == LoadValue(v, size, signExtend)
  {
    hide Pow2, Extend;
    Pow2Zero();
    Pow2Words();
    Pow2Mono(8 * size, 64);
    assert v / 1 == v;
    if size == 8 {
      WordExtend(v, signExtend);
    }
  }

  /** A load right after a store of the same width returns what was written. */
  lemma StoreThenLoad(cells: Cells, pc: nat, offset: int, size: nat, value: Value, signExtend: bool)
    requires ValidSize(size) && StackRange(pc, offset, size).Ok?
    ensures var (slot, inSlot) := StackRange(pc, offset, size).value;
            var after := Merge(cells, slot, inSlot, size, value);
            && after[slot].Some?
            && Extract(after[slot].value, inSlot, size, signExtend).bits == LoadValue(value.bits, size, signExtend)
  {
    hide Pow2, ByteOf, Extract, Extend, MergeCell, StackRange, LoadValue, ByteAt;
    RangeExact(pc, offset, size);
    var (slot, inSlot) := StackRange(pc, offset, size).value;
    var after := Merge(cells, slot, inSlot, size, value);
    LoadBytes(after, pc, offset, size, signExtend);
    forall a | offset <= a < offset + size
      ensures ByteAt(after, a) == ByteOf(value.bits, 0 + (a - offset))
    {
      StoreBytes(cells, pc, offset, size, value, a);
    }
    BytesFormWord(after, offset, size, value.bits, 0);
    LowWord(value.bits, size, signExtend);
  }
}
