/** Stack-pointer offsets (`src/exec.rs`): an interval saturated to 32 bits and an
    alignment, moved by sane addends and checked only when memory is accessed. */
module Offsets {
  import opened Words
  import opened Bits
  import opened TnumDomain
  import opened Scalar
  import opened Insn
  import opened Abstract
  import Concrete

  /** After clamping at the top of the i32 range the interval stays this wide. */
  predicate Saturated(min: int, max: int) { max - min > I32_MAX - BPF_MAX_VAR_OFF }

  /** Where the pointer may be: inside its interval, unless the interval saturated. */
  predicate Placed(ptr: RegState, o: int)
    requires ptr.PtrToStack?
  {
    SaneOffset(ptr.min) && (Saturated(ptr.min, ptr.max) || ptr.min <= o <= ptr.max)
  }

  predicate ValidAlign(align: nat) { align < 8 || align == ALIGN_UNKNOWN }

  predicate Aligned(align: nat, o: int) { align == ALIGN_UNKNOWN || o % 8 == align }

  /** A saturated pointer has left the frame for good: its upper end is beyond
      every offset an access could bring back. */
  lemma SaturatedIsFar(ptr: RegState, o: int)
    requires ptr.PtrToStack? && Placed(ptr, o)
    ensures ptr.min <= o <= ptr.max || ptr.max > TWO31 - 1 - 0x2000_0000
  {
  }

  lemma AddImmPlaced(pc: nat, ptr: RegState, imm: I32, o: I64)
    requires ptr.PtrToStack? && Placed(ptr, o) && AddImmToStackPtr(pc, ptr, imm).Ok?
    ensures Placed(AddImmToStackPtr(pc, ptr, imm).value, SaturateI64(o + imm))
  {
  }

  /** The concrete offset after adding a 64-bit register. */
  function Moved(o: I64, x: U64): I64 { Signed64(Wrap64(o + Signed64(x))) }

  lemma AddScalarPlaced(pc: nat, ptr: RegState, s: Bounds, o: I64, x: U64)
    requires ptr.PtrToStack? && Placed(ptr, o) && Gamma(s, x) && AddScalarToStackPtr(pc, ptr, s).Ok?
    ensures Placed(AddScalarToStackPtr(pc, ptr, s).value, Moved(o, x))
  {
    hide Tnum.Contains, AddAlign, Wrap64, Signed64;
    var r := AddScalarToStackPtr(pc, ptr, s).value;
    if !Saturated(ptr.min, ptr.max) && ptr.max + s.smax <= I32_MAX {
      SignedOfWrap(o + Signed64(x));
    }
  }

  /** The access-time test never lets a misplaced pointer through, whatever the
      alignment says. */
  lemma AcceptedAccessInFrame(pc: nat, ptr: RegState, offset: I16, size: nat, o: int)
    requires ptr.PtrToStack? && ValidSize(size) && Placed(ptr, o)
    requires CheckAccess(pc, ptr, offset, size).Ok?
    ensures -512 <= o + offset && o + offset + size <= 0
    ensures ptr.min <= o <= ptr.max
  {
  }

  lemma CongruentAlign(o: int, offset: int, size: nat)
    requires ValidSize(size)
    ensures (o + offset) % size == (o % 8 + offset) % size
  {
    var q := o / 8;
    match size {
      case 1 => ModEqual(o + offset, o % 8 + offset, 1, 8 * q);
      case 2 => ModEqual(o + offset, o % 8 + offset, 2, 4 * q);
      case 4 => ModEqual(o + offset, o % 8 + offset, 4, 2 * q);
      case 8 => ModEqual(o + offset, o % 8 + offset, 8, q);
    }
  }

  /** With a valid alignment the access is also aligned. */
  lemma AcceptedAccessAligned(pc: nat, ptr: RegState, offset: I16, size: nat, o: int)
    requires ptr.PtrToStack? && ValidSize(size) && Aligned(ptr.align, o)
    requires CheckAccess(pc, ptr, offset, size).Ok?
    ensures (o + offset) % size == 0
  {
    CongruentAlign(o, offset, size);
  }

  // ── Sequences of pointer additions ───────────────────────────────────────

  /** One addition with the concrete value it stands for. */
  datatype Move = ByImm(imm: I32) | ByScalar(s: Bounds, x: U64)

  ghost predicate ValidMove(m: Move) { m.ByScalar? ==> Gamma(m.s, m.x) }

  function ApplyMove(pc: nat, ptr: RegState, m: Move): (r: Result<RegState, Rejection>)
    requires ptr.PtrToStack?
    ensures r.Ok? ==> r.value.PtrToStack?
  {
    match m case ByImm(imm) => AddImmToStackPtr(pc, ptr, imm) case ByScalar(s, _) => AddScalarToStackPtr(pc, ptr, s)
  }

  function MoveOffset(o: I64, m: Move): I64 {
    match m case ByImm(imm) => SaturateI64(o + imm) case ByScalar(_, x) => Moved(o, x)
  }

  function ApplyMoves(pc: nat, ptr: RegState, moves: seq<Move>): (r: Result<RegState, Rejection>)
    requires ptr.PtrToStack?
    ensures r.Ok? ==> r.value.PtrToStack?
    decreases |moves|
  {
    if moves == [] then Ok(ptr) else
      match ApplyMove(pc, ptr, moves[0]) case Err(e) => Err(e) case Ok(next) => ApplyMoves(pc, next, moves[1..])
  }

  function MoveOffsets(o: I64, moves: seq<Move>): I64
    decreases |moves|
  {
    if moves == [] then o else MoveOffsets(MoveOffset(o, moves[0]), moves[1..])
  }

  /** Along any sequence of accepted additions starting at r10, an access that
      passes the frame test lies inside the 512-byte frame. */
  lemma {:induction false} SaturationNeverAdmitsBadAccess(
      pc: nat, ptr: RegState, o: I64, moves: seq<Move>, offset: I16, size: nat)
    requires ptr.PtrToStack? && Placed(ptr, o) && ValidSize(size)
    requires forall m :: m in moves ==> ValidMove(m)
    requires ApplyMoves(pc, ptr, moves).Ok?
    ensures Placed(ApplyMoves(pc, ptr, moves).value, MoveOffsets(o, moves))
    ensures CheckAccess(pc, ApplyMoves(pc, ptr, moves).value, offset, size).Ok? ==>
              var at := MoveOffsets(o, moves) + offset;
              -512 <= at && at + size <= 0
    decreases |moves|
  {
    hide Placed, AddImmToStackPtr, AddScalarToStackPtr, CheckAccess, Moved, SaturateI64, Gamma;
    if moves == [] {
      if CheckAccess(pc, ptr, offset, size).Ok? {
        AcceptedAccessInFrame(pc, ptr, offset, size, o);
      }
    } else {
      match moves[0] {
        case ByImm(imm) => AddImmPlaced(pc, ptr, imm, o);
        case ByScalar(s, x) =>
          assert ValidMove(moves[0]);
          AddScalarPlaced(pc, ptr, s, o, x);
      }
      SaturationNeverAdmitsBadAccess(pc, ApplyMove(pc, ptr, moves[0]).value, MoveOffset(o, moves[0]), moves[1..],
                                     offset, size);
    }
  }

  // ── Alignment ────────────────────────────────────────────────────────────

  /** What keeps the alignment of a moved pointer truthful: it is known, or the
      unknown marker 0xFF happens to name the only offset. */
  predicate AlignKept(ptr: RegState)
    requires ptr.PtrToStack?
  {
    ptr.align != ALIGN_UNKNOWN || (ptr.min == ptr.max && ptr.min % 8 == 7)
  }

  ghost predicate ImmKeepsAlign(ptr: RegState, imm: I32)
    requires ptr.PtrToStack?
  {
    forall o: int :: ptr.min <= o <= ptr.max && Aligned(ptr.align, o) ==> Aligned(AddAlign(ptr.align, imm), o + imm)
  }

  /** Adding an immediate keeps the alignment exactly when it was known. */
  lemma ImmAlignExact(ptr: RegState, imm: I32)
    requires ptr.PtrToStack? && ValidAlign(ptr.align) && ptr.min <= ptr.max
    ensures ImmKeepsAlign(ptr, imm) <==> AlignKept(ptr)
  {
    if ptr.align == ALIGN_UNKNOWN {
      UnknownImm(ptr, imm);
    } else {
      forall o: int | ptr.min <= o <= ptr.max && Aligned(ptr.align, o)
        ensures Aligned(AddAlign(ptr.align, imm), o + imm)
      {
        ShiftedAlign(ptr.align, imm, o);
      }
    }
  }

  lemma SeventhResidue(p: nat, r: nat)
    requires p < 8 && r < 8
    ensures (p + r) % 8 == (ALIGN_UNKNOWN + r) % 8 <==> p == 7
  {
  }

  /** After the addition the marker stands for the offsets that were 7 mod 8. */
  lemma MarkerNames(imm: I32, o: int)
    ensures Aligned(AddAlign(ALIGN_UNKNOWN, imm), o + imm) <==> o % 8 == 7
  {
    var r, p := imm % 8, o % 8;
    ModEqual(o + imm, p + r, 8, o / 8 + imm / 8);
    SeventhResidue(p, r);
    assert (o + imm) % 8 == (p + r) % 8 && AddAlign(ALIGN_UNKNOWN, imm) == (ALIGN_UNKNOWN + r) % 8 < 8;
  }

  lemma UnknownImm(ptr: RegState, imm: I32)
    requires ptr.PtrToStack? && ptr.align == ALIGN_UNKNOWN && ptr.min <= ptr.max
    ensures ImmKeepsAlign(ptr, imm) <==> AlignKept(ptr)
  {
    hide AddAlign;
    assert Aligned(ptr.align, ptr.min) && Aligned(ptr.align, ptr.min + 1);
    MarkerNames(imm, ptr.min);
    MarkerNames(imm, ptr.min + 1);
    if AlignKept(ptr) {
      forall o: int | ptr.min <= o <= ptr.max && Aligned(ptr.align, o)
        ensures Aligned(AddAlign(ptr.align, imm), o + imm)
      {
        MarkerNames(imm, o);
      }
    }
  }

  lemma ShiftedAlign(align: nat, k: int, o: int)
    requires o % 8 == align
    ensures AddAlign(align, k) == (o + k) % 8 && AddAlign(align, k) < 8
  {
  }

  /** Known low bits of a tnum are the low bits of every member. */
  lemma LowBitsKnown(t: Tnum, x: U64)
    requires t.Contains(x) && t.mask % 8 == 0
    ensures x % 8 == t.value % 8
  {
    hide Bit, Tnum.Contains;
    ContainsIsAgreement(t, x);
    assert Pow2(3) == 8;
    forall k: nat | k < 3
      ensures Bit(x % 8, k) == Bit(t.value % 8, k)
    {
      BitMod(x, 3, k);
      BitMod(t.value, 3, k);
      BitMod(t.mask, 3, k);
      BitZero(k);
    }
    Extensional(x % 8, t.value % 8, 3);
  }

  lemma PtrOffsetOf(z: I64)
    ensures Concrete.PtrOffset(Wrap64(Concrete.STACK_BASE + z)) == z
  {
    hide Signed64;
    var bits := Wrap64(Concrete.STACK_BASE + z);
    assert Wrap64(Signed64(bits) - Concrete.STACK_BASE) == Wrap64(z) by {
      WrapOfSigned(bits);
      WrapAdd(Signed64(bits), 0 - Concrete.STACK_BASE);
      WrapAdd(Concrete.STACK_BASE + z, 0 - Concrete.STACK_BASE);
    }
    SignedOfWrap(z);
  }

  // ── The covering relation used by the simulation ─────────────────────────

  /** The abstract pointer covers a concrete offset from r10. */
  predicate OffsetCovers(ptr: RegState, o: int)
    requires ptr.PtrToStack?
  {
    && Placed(ptr, o) && ValidAlign(ptr.align)
    && (Saturated(ptr.min, ptr.max) || Aligned(ptr.align, o))
  }

  lemma AddImmCovers(pc: nat, ptr: RegState, imm: I32, o: I64)
    requires ptr.PtrToStack? && OffsetCovers(ptr, o) && AlignKept(ptr) && AddImmToStackPtr(pc, ptr, imm).Ok?
    ensures OffsetCovers(AddImmToStackPtr(pc, ptr, imm).value, SaturateI64(o + imm))
  {
    AddImmPlaced(pc, ptr, imm, o);
    if !Saturated(ptr.min, ptr.max) {
      ShiftedAlign(if ptr.align == ALIGN_UNKNOWN then 7 else ptr.align, imm, o);
    }
  }

  lemma MovedAlign(o: I64, x: U64)
    ensures Moved(o, x) % 8 == (o + x % 8) % 8
  {
    var z := o + Signed64(x);
    var q := z / TWO64;
    var wraps := (if x < TWO63 then 0 else 1) + (if Wrap64(z) < TWO63 then 0 else 1);
    assert Moved(o, x) == o + x % 8 + 8 * (x / 8) - TWO64 * (q + wraps);
    ModEqual(Moved(o, x), o + x % 8, 8, x / 8 - (TWO64 / 8) * (q + wraps));
  }

  ghost predicate ScalarKeepsAlign(ptr: RegState, s: Bounds)
    requires ptr.PtrToStack?
  {
    forall o: I64, x: U64 :: ptr.min <= o <= ptr.max && Aligned(ptr.align, o) && Gamma(s, x) ==>
      Aligned(AddScalarAlign(ptr.align, s), Moved(o, x))
  }

  /** Known low bits move the alignment like an immediate. */
  lemma ScalarAlignMoves(align: nat, s: Bounds, o: I64, x: U64)
    requires Gamma(s, x) && s.tnum.mask % 8 == 0
    ensures AddScalarAlign(align, s) < 8
    ensures o % 8 == align % 8 <==> Moved(o, x) % 8 == AddScalarAlign(align, s)
  {
    hide Tnum.Contains, Moved, Wrap64;
    LowBitsKnown(s.tnum, x);
    MovedAlign(o, x);
  }

  /** Adding a scalar with some value keeps the alignment exactly when it was known
      or its low bits are not. */
  lemma ScalarAlignExact(ptr: RegState, s: Bounds, x: U64)
    requires ptr.PtrToStack? && ValidAlign(ptr.align) && ptr.min <= ptr.max && Gamma(s, x)
    ensures ScalarKeepsAlign(ptr, s) <==> AlignKept(ptr) || s.tnum.mask % 8 != 0
  {
    hide Gamma, Moved, AddScalarAlign;
    if s.tnum.mask % 8 != 0 {
      UnknownLowBits(ptr.align, s);
    } else if ptr.align == ALIGN_UNKNOWN {
      ScalarAlignMoves(ptr.align, s, ptr.min, x);
      assert Aligned(ptr.align, ptr.min);
      if ptr.min < ptr.max {
        ScalarAlignMoves(ptr.align, s, ptr.min + 1, x);
        assert Aligned(ptr.align, ptr.min + 1);
      } else if ptr.min % 8 == 7 {
        OnlyOffset(ptr, s);
      }
    } else {
      KnownAlign(ptr, s);
    }
  }

  lemma UnknownLowBits(align: nat, s: Bounds)
    requires s.tnum.mask % 8 != 0
    ensures AddScalarAlign(align, s) == ALIGN_UNKNOWN
  {
  }

  lemma OnlyOffset(ptr: RegState, s: Bounds)
    requires ptr.PtrToStack? && ptr.align == ALIGN_UNKNOWN && ptr.min == ptr.max && ptr.min % 8 == 7
             && s.tnum.mask % 8 == 0
    ensures ScalarKeepsAlign(ptr, s)
  {
    hide Gamma, Moved, AddScalarAlign;
    forall o: I64, y: U64 | ptr.min <= o <= ptr.max && Gamma(s, y)
      ensures Aligned(AddScalarAlign(ptr.align, s), Moved(o, y))
    {
      ScalarAlignMoves(ptr.align, s, o, y);
    }
  }

  lemma KnownAlign(ptr: RegState, s: Bounds)
    requires ptr.PtrToStack? && ptr.align < 8 && s.tnum.mask % 8 == 0
    ensures ScalarKeepsAlign(ptr, s)
  {
    hide Gamma, Moved, AddScalarAlign;
    forall o: I64, y: U64 | Aligned(ptr.align, o) && Gamma(s, y)
      ensures Aligned(AddScalarAlign(ptr.align, s), Moved(o, y))
    {
      ScalarAlignMoves(ptr.align, s, o, y);
    }
  }

  lemma AddScalarCovers(pc: nat, ptr: RegState, s: Bounds, o: I64, x: U64)
    requires ptr.PtrToStack? && OffsetCovers(ptr, o) && Gamma(s, x) && AddScalarToStackPtr(pc, ptr, s).Ok?
    requires AlignKept(ptr) || s.tnum.mask % 8 != 0
    ensures OffsetCovers(AddScalarToStackPtr(pc, ptr, s).value, Moved(o, x))
  {
    hide Tnum.Contains, Moved, Wrap64;
    AddScalarPlaced(pc, ptr, s, o, x);
    if !Saturated(ptr.min, ptr.max) && s.tnum.mask % 8 == 0 {
      ScalarAlignMoves(ptr.align, s, o, x);
    }
  }

  /** An access accepted through a covering pointer is in the frame and aligned. */
  lemma CoveredAccess(pc: nat, ptr: RegState, offset: I16, size: nat, o: int)
    requires ptr.PtrToStack? && ValidSize(size) && OffsetCovers(ptr, o)
    requires CheckAccess(pc, ptr, offset, size).Ok?
    ensures -512 <= o + offset && o + offset + size <= 0 && (o + offset) % size == 0
    ensures var a := CheckAccess(pc, ptr, offset, size).value;
            a.lo <= -(o + offset) - size && -(o + offset) - 1 <= a.hi
            && (a.fixed ==> o == ptr.min && a.minOff == o + offset)
            && (a.fixed ==> a.lo == -(o + offset) - size && a.hi == -(o + offset) - 1)
  {
    AcceptedAccessInFrame(pc, ptr, offset, size, o);
    AcceptedAccessAligned(pc, ptr, offset, size, o);
  }
}
