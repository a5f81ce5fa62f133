/** Scalar registers (`src/state.rs`) and the ALU transfer functions on them
    (`src/exec.rs`): signed and unsigned 64-bit intervals, a 32-bit unsigned
    interval, a tnum, and the link id with its constant offset. */
module Scalar {
  import opened Words
  import opened Bits
  import opened TnumDomain

  datatype AluOp = Add | Sub | And | Or | Xor | Lsh | Rsh | Arsh | Mul | Div | Mod | Neg

  datatype Width = W64 | W32

  predicate IsShift(op: AluOp) { op.Lsh? || op.Rsh? || op.Arsh? }

  datatype Bounds = Bounds(
    smin: I64, smax: I64, umin: U64, umax: U64, u32min: U32, u32max: U32,
    tnum: Tnum, id: U32, delta: I32)
  {
    predicate IsConstant() { smin == smax && umin == umax && tnum.IsConstant() }

    predicate IsZero() { smin == 0 && smax == 0 && umin == 0 && umax == 0 }

    function SRange(): (I64, I64) { (smin, smax) }

    function URange(): (U64, U64) { (umin, umax) }

    function U32Range(): (U32, U32) { (u32min, u32max) }

    /** The simplified `reg_bounds_sync`: the interpretations narrow each other. */
    function Synced(): Bounds {
      if smin > smax || umin > umax then this else
        var b := SyncSigns(this);
        var w := if b.umin / TWO32 == b.umax / TWO32 then (b.umin % TWO32, b.umax % TWO32) else (0, U32_MAX);
        b.(u32min := w.0, u32max := w.1, tnum := b.tnum.Intersect(FromRange(b.umin, b.umax)))
    }
  }

  function SyncSigns(b: Bounds): Bounds {
    if b.smin >= 0 || b.smax < 0 then
      var lo: U64 := Max(Wrap64(b.smin), b.umin);
      var hi: U64 := Min(Wrap64(b.smax), b.umax);
      b.(smin := Signed64(lo), smax := Signed64(hi), umin := lo, umax := hi)
    else if b.umax < TWO63 then
      b.(smin := Signed64(b.umin), smax := Min(b.smax, Signed64(b.umax)))
    else if b.umin >= TWO63 then
      b.(smin := Max(b.smin, Signed64(b.umin)), smax := Signed64(b.umax))
    else b
  }

  function Const(v: I64): Bounds {
    Bounds(v, v, Wrap64(v), Wrap64(v), Wrap64(v) % TWO32, Wrap64(v) % TWO32, Constant(Wrap64(v)), 0, 0)
  }

  function Top(): Bounds { Bounds(I64_MIN, I64_MAX, 0, U64_MAX, 0, U32_MAX, Unknown(), 0, 0) }

  /** `ScalarBounds::from_signed` */
  function FromSigned(min: I64, max: I64): Bounds {
    var u := if min < 0 <= max then (0, U64_MAX) else (Wrap64(min), Wrap64(max));
    Bounds(min, max, u.0, u.1, 0, U32_MAX, Unknown(), 0, 0).Synced()
  }

  /** γ: every view admits the value (`scalar_covers`, with the 32-bit view). */
  ghost predicate Gamma(b: Bounds, x: U64) {
    && b.smin <= Signed64(x) <= b.smax
    && b.umin <= x <= b.umax
    && b.u32min <= x % TWO32 <= b.u32max
    && b.tnum.Contains(x)
  }

  // ── The exact ALU (section 4.1 of RFC 9669) ──────────────────────────────

  function AluConst64(op: AluOp, a: U64, b: U64): U64 {
    match op
    case Add => Wrap64(a + b)
    case Sub => Wrap64(a - b)
    case And => And64(a, b)
    case Or => Or64(a, b)
    case Xor => Xor64(a, b)
    case Mul => Wrap64(a * b)
    case Div => if b == 0 then 0 else Quotient(a, b)
    case Mod => if b == 0 then a else Remainder(a, b)
    case Neg => Wrap64(0 - a)
    case Lsh => Shl(a, b % 64)
    case Rsh => Shr(a, b % 64)
    case Arsh => Sar(a, b % 64)
  }

  function Alu32(op: AluOp, a: U32, b: U32): U32 {
    match op
    case Add => Wrap32(a + b)
    case Sub => Wrap32(a - b)
    case And => AndBound(a, b); Bits.And(a, b)
    case Or => Pow2Words(); OrBound(a, b, 32); Bits.Or(a, b)
    case Xor => Pow2Words(); XorBound(a, b, 32); Bits.Xor(a, b)
    case Mul => Wrap32(a * b)
    case Div => if b == 0 then 0 else Quotient(a, b)
    case Mod => if b == 0 then a else Remainder(a, b)
    case Neg => Wrap32(0 - a)
    case Lsh => Wrap32(a * Pow2(b % 32))
    case Rsh => ShrBound(a, b % 32); a / Pow2(b % 32)
    case Arsh => Wrap32(Signed32(a) / Pow2(b % 32))
  }

  /** Truncate, compute, zero-extend. */
  function AluConst32(op: AluOp, a: U64, b: U64): U64 { Alu32(op, a % TWO32, b % TWO32) }

  function AluConst(op: AluOp, width: Width, a: U64, b: U64): U64 {
    if width.W64? then AluConst64(op, a, b) else AluConst32(op, a, b)
  }

  lemma QuotientBound(a: nat, b: nat)
    requires b > 0
    ensures 0 <= a / b <= a
  {
    DivMono(0, a, b);
    DivUnique(0, b, 0, 0);
    MulMono(1, b, a / b);
  }

  // ── 64-bit signed intervals ──────────────────────────────────────────────

  predicate FitsI64(z: int) { I64_MIN <= z <= I64_MAX }

  predicate FitsU64(z: int) { 0 <= z <= U64_MAX }

  const S_FULL: (I64, I64) := (I64_MIN, I64_MAX)
  const U_FULL: (U64, U64) := (0, U64_MAX)
  const W_FULL: (U32, U32) := (0, U32_MAX)

  function Min4(a: int, b: int, c: int, d: int): int { Min(Min(a, b), Min(c, d)) }

  function Max4(a: int, b: int, c: int, d: int): int { Max(Max(a, b), Max(c, d)) }

  /** Exact when every endpoint product fits, the full range otherwise. */
  function SignedMul(d: (I64, I64), s: (I64, I64)): (I64, I64) {
    var lo := Min4(d.0 * s.0, d.0 * s.1, d.1 * s.0, d.1 * s.1);
    var hi := Max4(d.0 * s.0, d.0 * s.1, d.1 * s.0, d.1 * s.1);
    if lo < I64_MIN || hi > I64_MAX then S_FULL else (lo, hi)
  }

  function SignedMod(s: (I64, I64)): (I64, I64) {
    if s.0 == s.1 && s.0 != 0 then
      var bound := (if s.0 < 0 then 0 - s.0 else s.0) - 1;
      (-bound, bound)
    else S_FULL
  }

  function Alu64Signed(op: AluOp, d: (I64, I64), s: (I64, I64)): (I64, I64)
    requires IsShift(op) ==> 0 <= s.0 && s.1 < 64
  {
    if d.0 == d.1 && s.0 == s.1 then
      var bits := AluConst64(op, Wrap64(d.0), Wrap64(s.0));
      (Signed64(bits), Signed64(bits))
    else match op
      case Add => if FitsI64(d.0 + s.0) && FitsI64(d.1 + s.1) then (d.0 + s.0, d.1 + s.1) else S_FULL
      case Sub => if FitsI64(d.0 - s.1) && FitsI64(d.1 - s.0) then (d.0 - s.1, d.1 - s.0) else S_FULL
      case And => if d.0 >= 0 && s.0 >= 0 then (0, Min(d.1, s.1)) else S_FULL
      case Or => if d.0 >= 0 && s.0 >= 0 then (Max(d.0, s.0), I64_MAX) else S_FULL
      case Xor => if d.0 >= 0 && s.0 >= 0 then (0, I64_MAX) else S_FULL
      case Mul => SignedMul(d, s)
      case Div => S_FULL
      case Mod => SignedMod(s)
      case Neg => S_FULL
      case _ => Shift64Range(op, d, s)
  }

  /** Shift a signed range by the constant k. */
  function Shift64ByConst(op: AluOp, d: (I64, I64), k: nat): (I64, I64)
    requires IsShift(op) && k < 64
  {
    if op.Lsh? then
      if d.0 < 0 then S_FULL
      else if k == 0 then d
      else if Wrap64(d.0) / Pow2(64 - k) != Wrap64(d.1) / Pow2(64 - k) then S_FULL
      else
        var lo, hi := Shl(Wrap64(d.0), k), Shl(Wrap64(d.1), k);
        if lo >= TWO63 || hi < TWO63 then (Signed64(lo), Signed64(hi)) else S_FULL
    else if op.Rsh? then
      if d.0 < 0 then S_FULL else (Signed64(Shr(Wrap64(d.0), k)), Signed64(Shr(Wrap64(d.1), k)))
    else (Signed64(Sar(Wrap64(d.0), k)), Signed64(Sar(Wrap64(d.1), k)))
  }

  function Shift64Range(op: AluOp, d: (I64, I64), s: (I64, I64)): (I64, I64)
    requires IsShift(op) && 0 <= s.0 && s.1 < 64
  {
    if s.0 == s.1 then Shift64ByConst(op, d, s.0)
    else if op.Lsh? then S_FULL
    else if op.Rsh? then (if d.0 >= 0 then (0, d.1) else S_FULL)
    else (if d.0 < 0 then -1 else 0, d.1)
  }

  // ── 64-bit unsigned intervals ────────────────────────────────────────────

  lemma ProductsNatural(d: (U64, U64), s: (U64, U64))
    ensures d.0 * s.0 >= 0 && d.0 * s.1 >= 0 && d.1 * s.0 >= 0 && d.1 * s.1 >= 0
  {
    MulMono(0, d.0, s.0);
    MulMono(0, d.0, s.1);
    MulMono(0, d.1, s.0);
    MulMono(0, d.1, s.1);
  }

  function UnsignedMul(d: (U64, U64), s: (U64, U64)): (U64, U64) {
    ProductsNatural(d, s);
    var lo: nat := Min4(d.0 * s.0, d.0 * s.1, d.1 * s.0, d.1 * s.1);
    var hi: nat := Max4(d.0 * s.0, d.0 * s.1, d.1 * s.0, d.1 * s.1);
    if hi > U64_MAX then U_FULL else (lo, hi)
  }

  function UnsignedLsh(d: (U64, U64), s: (U64, U64)): (U64, U64) {
    if s.0 == s.1 && d.1 <= Shr(U64_MAX, s.0) then (Shl(d.0, s.0), Shl(d.1, s.0)) else U_FULL
  }

  function Quotient(a: nat, b: nat): (q: nat)
    requires b > 0
    ensures q <= a
  {
    QuotientBound(a, b);
    a / b
  }

  function Remainder(a: nat, b: nat): (r: nat)
    requires b > 0
    ensures r < b && r <= a
  {
    QuotientBound(a, b);
    MulMono(1, b, a / b);
    a % b
  }

  function Alu64Unsigned(op: AluOp, d: (U64, U64), s: (U64, U64)): (U64, U64)
  {
    match op
    case Add => if FitsU64(d.0 + s.0) && FitsU64(d.1 + s.1) then (d.0 + s.0, d.1 + s.1) else U_FULL
    case Sub => if FitsU64(d.0 - s.1) && FitsU64(d.1 - s.0) then (d.0 - s.1, d.1 - s.0) else U_FULL
    case And => (0, Min(d.1, s.1))
    case Or => (Max(d.0, s.0), U64_MAX)
    case Xor => U_FULL
    case Mul => UnsignedMul(d, s)
    case Div => if s.0 == 0 then U_FULL else (Quotient(d.0, Max(s.1, 1)), Quotient(d.1, s.0))
    case Mod => if s.0 == 0 then U_FULL else (0, Wrap64(s.1 - 1))
    case Neg => U_FULL
    case Lsh => UnsignedLsh(d, s)
    case Rsh => if s.0 == s.1 then (Shr(d.0, s.0), Shr(d.1, s.0)) else (0, d.1)
    case Arsh => U_FULL
  }

  // ── 32-bit intervals ─────────────────────────────────────────────────────

  /** [lo, hi] modulo 2^32: one interval iff it is narrower than 2^32 and does
      not cross a multiple of 2^32. */
  function ModWindow(lo: int, hi: int, width: int): (U32, U32) {
    if width < TWO32 && Wrap32(lo) <= Wrap32(hi) then (Wrap32(lo), Wrap32(hi)) else W_FULL
  }

  /** `interval_mod`: the width is an i64 difference that wraps. */
  function IntervalMod(lo: int, hi: int): (U32, U32) { ModWindow(lo, hi, Signed64(Wrap64(hi - lo))) }

  /** The u64 endpoint products are reinterpreted as i64. */
  function Mul32Range(lo: int, hi: int): (U32, U32) {
    IntervalMod(Signed64(Wrap64(lo)), Signed64(Wrap64(hi)))
  }

  function Lsh32Range(d: (U32, U32), k: nat): (U32, U32) {
    if k >= 32 then (0, 0)
    else if k == 0 then d
    else if d.1 < Pow2(32 - k) then (Wrap32(d.0 * Pow2(k)), Wrap32(d.1 * Pow2(k)))
    else W_FULL
  }

  function Rsh32Range(d: (U32, U32), k: nat): (U32, U32) {
    if k >= 32 then (0, 0) else
      ShrBound(d.0, k);
      ShrBound(d.1, k);
      (d.0 / Pow2(k), d.1 / Pow2(k))
  }

  function Arsh32Range(d: (U32, U32), k: nat): (U32, U32) {
    if k >= 32 then (if Signed32(d.0) < 0 then (U32_MAX, U32_MAX) else (0, 0))
    else (Wrap32(Signed32(d.0) / Pow2(k)), Wrap32(Signed32(d.1) / Pow2(k)))
  }

  function Alu32Range(op: AluOp, d: (U32, U32), s: (U32, U32)): (U32, U32) {
    match op
    case Add => IntervalMod(d.0 + s.0, d.1 + s.1)
    case Sub => IntervalMod(d.0 - s.1, d.1 - s.0)
    case And => (0, Min(d.1, s.1))
    case Or => (Max(d.0, s.0), U32_MAX)
    case Xor => W_FULL
    case Mul => Mul32Range(d.0 * s.0, d.1 * s.1)
    case Div => if s.0 == 0 then W_FULL else (Quotient(d.0, Max(s.1, 1)), Quotient(d.1, s.0))
    case Mod => if s.0 == 0 then W_FULL else (0, Max(s.1 - 1, 0))
    case Neg => W_FULL
    case _ => Shift32Range(op, d, s)
  }

  function Shift32Range(op: AluOp, d: (U32, U32), s: (U32, U32)): (U32, U32)
    requires IsShift(op)
  {
    if s.0 != s.1 then (if op.Rsh? then (0, d.1) else W_FULL)
    else if op.Lsh? then Lsh32Range(d, s.0)
    else if op.Rsh? then Rsh32Range(d, s.0)
    else Arsh32Range(d, s.0)
  }

  // ── The whole transfer function ──────────────────────────────────────────

  function AluTnum(op: AluOp, d: Tnum, s: Tnum, amountMin: I64, amountMax: I64): Tnum
    requires IsShift(op) ==> 0 <= amountMin
  {
    match op
    case Add => d.Add(s)
    case Sub => d.Sub(s)
    case And => d.BitAnd(s)
    case Or => d.BitOr(s)
    case Xor => d.BitXor(s)
    case Lsh => if amountMin != amountMax then Unknown() else d.LShift(amountMin)
    case Rsh => if amountMin != amountMax then Unknown() else d.RShift(amountMin)
    case Arsh => if amountMin != amountMax then Unknown() else d.ArShift(amountMin)
    case _ => Unknown()
  }

  function BitWidth(width: Width): int { if width.W64? then 64 else 32 }

  function ApplyAluInner(op: AluOp, width: Width, d: Bounds, s: Bounds): Bounds
  {
    if IsShift(op) && (s.smin < 0 || s.smax >= BitWidth(width)) then Top()
    else if d.IsConstant() && s.IsConstant() then
      Const(Signed64(AluConst(op, width, Wrap64(d.smin), Wrap64(s.smin))))
    else match width
      case W64 =>
        var (sm, sx) := Alu64Signed(op, d.SRange(), s.SRange());
        var amount: (U64, U64) := if IsShift(op) then (Wrap64(s.smin), Wrap64(s.smax)) else s.URange();
        var (um, ux) := Alu64Unsigned(op, d.URange(), amount);
        Bounds(sm, sx, um, ux, 0, U32_MAX, AluTnum(op, d.tnum, s.tnum, s.smin, s.smax), d.id, d.delta).Synced()
      case W32 =>
        var (rmin, rmax) := Alu32Range(op, d.U32Range(), s.U32Range());
        Bounds(rmin, rmax, rmin, rmax, 0, U32_MAX,
               AluTnum(op, d.tnum, s.tnum, s.smin, s.smax).Subreg(), d.id, d.delta).Synced()
  }

  /** Constant 64-bit add/sub on the base of a link group records the offset;
      every other operation clears the link. */
  function ApplyLinking(op: AluOp, width: Width, result: Bounds, d: Bounds, s: Bounds): Bounds {
    var off: int := if op.Sub? then 0 - s.smin else s.smin;
    if (op.Add? || op.Sub?) && s.IsConstant() && width.W64?
       && d.id != 0 && result.id == d.id && result.delta == 0
       && I32_MIN <= off <= I32_MAX
    then result.(delta := off)
    else result.(id := 0, delta := 0)
  }

  function ApplyAlu(op: AluOp, width: Width, d: Bounds, s: Bounds): Bounds
  {
    ApplyLinking(op, width, ApplyAluInner(op, width, d, s), d, s)
  }

  predicate ValidSize(size: nat) { size == 1 || size == 2 || size == 4 || size == 8 }

  lemma LowMaskBounds(v: U64, size: nat)
    requires ValidSize(size) && size < 8
    ensures 0 < Pow2(8 * size) <= TWO32 && Bits.And(v, Pow2(8 * size) - 1) < Pow2(8 * size)
  {
    Pow2Words();
    AndBound(v, Pow2(8 * size) - 1);
  }

  /** `coerce_scalar`: truncate to `size` bytes and extend to 64 bits. */
  function CoerceScalar(b: Bounds, size: nat, signExtend: bool): Bounds
    requires ValidSize(size)
  {
    if size >= 8 then b else
      LowMaskBounds(Wrap64(b.smin), size);
      var low: U64 := Pow2(8 * size) - 1;
      if b.IsConstant() then Const(Signed64(Extend(And64(Wrap64(b.smin), low), size, signExtend)))
      else
        var t := Tnum(And64(b.tnum.value, low), Or64(And64(b.tnum.mask, low), Not64(low)));
        if signExtend then Top().(tnum := t)
        else Bounds(0, low, 0, low, 0, low, t, 0, 0)
  }

  /** Zero- or sign-extension of a raw `size`-byte value. */
  function Extend(raw: U64, size: nat, signExtend: bool): U64
    requires ValidSize(size) && raw < Pow2(8 * size)
  {
    if signExtend && raw >= Pow2(8 * size - 1) then Wrap64(raw - Pow2(8 * size)) else raw
  }
}
