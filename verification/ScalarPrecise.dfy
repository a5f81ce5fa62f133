/** The scalar transfer functions are no wider than their rules promise (`src/state.rs`,
    `src/exec.rs`): the sync only narrows, interval rules reach their ends, constants
    fold, links are kept exactly by constant offsets. */
module ScalarPrecise {
  import opened Words
  import opened Bits
  import opened TnumDomain
  import opened TnumSound
  import opened Scalar
  import opened ScalarSound
  import opened AluSound

  // ── The sync ─────────────────────────────────────────────────────────────

  /** c lies in b, read as signed and as unsigned intervals. */
  predicate Inside(b: Bounds, c: Bounds) {
    b.smin <= c.smin <= c.smax <= b.smax && b.umin <= c.umin <= c.umax <= b.umax
  }

  /** An interval that does not cross the sign boundary is the same in both readings. */
  predicate SignsTold(b: Bounds, c: Bounds) {
    && (b.smin >= 0 || b.smax < 0 ==> c.umin == Wrap64(c.smin) && c.umax == Wrap64(c.smax))
    && (b.umax < TWO63 || b.umin >= TWO63 ==> Signed64(c.umin) <= c.smin && c.smax <= Signed64(c.umax))
  }

  lemma SignsNarrowSigned(b: Bounds, x: U64)
    requires Gamma(b, x) && (b.smin >= 0 || b.smax < 0)
    ensures Inside(b, SyncSigns(b)) && SignsTold(b, SyncSigns(b))
  {
    hide Tnum.Contains;
    WrapOfSigned(x);
    var lo: U64 := Max(Wrap64(b.smin), b.umin);
    var hi: U64 := Min(Wrap64(b.smax), b.umax);
    assert lo <= x <= hi;
    WrapOfSigned(lo);
    WrapOfSigned(hi);
  }

  lemma SignsNarrow(b: Bounds, x: U64)
    requires Gamma(b, x)
    ensures Inside(b, SyncSigns(b)) && SignsTold(b, SyncSigns(b))
  {
    hide Tnum.Contains;
    if b.smin >= 0 || b.smax < 0 {
      SignsNarrowSigned(b, x);
    }
  }

  /** The 32-bit view is the low half of the interval where the high half is fixed. */
  predicate WindowTold(c: Bounds) {
    c.U32Range() == if c.umin / TWO32 == c.umax / TWO32 then (c.umin % TWO32, c.umax % TWO32) else (0, U32_MAX)
  }

  /** For a scalar with a member the sync only narrows, and every view learns what the
      others know. */
  lemma SyncedNarrows(b: Bounds, x: U64)
    requires Gamma(b, x) && b.tnum.Wf()
    ensures Inside(b, b.Synced()) && SignsTold(b, b.Synced()) && WindowTold(b.Synced())
    ensures b.tnum.Subsumes(b.Synced().tnum)
    ensures FromRange(b.Synced().umin, b.Synced().umax).Subsumes(b.Synced().tnum)
  {
    hide Tnum.Contains, Tnum.Wf, Tnum.Intersect, FromRange, SyncSigns, Tnum.Subsumes;
    SignsNarrow(b, x);
    SyncSignsSound(b, x);
    SyncSignsTnum(b);
    var c := SyncSigns(b);
    FromRangeSound(c.umin, c.umax, x);
    IntersectInside(c.tnum, FromRange(c.umin, c.umax), x);
  }

  /** The intersection of two tnums with a common member is below both. */
  lemma IntersectInside(a: Tnum, b: Tnum, x: U64)
    requires a.Wf() && b.Wf() && a.Contains(x) && b.Contains(x)
    ensures a.Subsumes(a.Intersect(b)) && b.Subsumes(a.Intersect(b))
  {
    hide Bit, Tnum.Contains, Tnum.Wf, Tnum.Intersect, Tnum.Subsumes;
    IntersectIsMeet(a, b, x);
    var r := a.Intersect(b);
    SubsumesIsInclusion(a, r);
    SubsumesIsInclusion(b, r);
  }

  // ── Intervals that reach their ends ──────────────────────────────────────

  type Interval = (int, int)

  predicate Nonempty(r: Interval) { r.0 <= r.1 }

  predicate Within(r: Interval, z: int) { r.0 <= z <= r.1 }

  /** The result of an operation before it wraps. */
  function Exact(op: AluOp, a: int, b: int): int {
    if op.Sub? then a - b else if op.Mul? then a * b else a + b
  }

  predicate IsLinear(op: AluOp) { op.Add? || op.Sub? || op.Mul? }

  ghost predicate AllExactIn(op: AluOp, d: Interval, s: Interval, lo: int, hi: int) {
    forall a: int, b: int :: Within(d, a) && Within(s, b) ==> lo <= Exact(op, a, b) <= hi
  }

  /** The four corners, one of them at each end. */
  lemma CornersIn(op: AluOp, d: Interval, s: Interval, lo: int, hi: int)
    requires AllExactIn(op, d, s, lo, hi) && Nonempty(d) && Nonempty(s)
    ensures lo <= Exact(op, d.0, s.0) <= hi && lo <= Exact(op, d.0, s.1) <= hi
    ensures lo <= Exact(op, d.1, s.0) <= hi && lo <= Exact(op, d.1, s.1) <= hi
  {
    assert Within(d, d.0) && Within(d, d.1) && Within(s, s.0) && Within(s, s.1);
  }

  ghost predicate HitS(op: AluOp, d: (I64, I64), s: (I64, I64), z: int) {
    exists x: U64, y: U64 :: InS(d, x) && InS(s, y) && Signed64(AluConst64(op, x, y)) == z
  }

  /** Both ends are results of members: with soundness, the least interval. */
  ghost predicate ReachesS(op: AluOp, d: (I64, I64), s: (I64, I64))
    requires IsShift(op) ==> 0 <= s.0 && s.1 < 64
  {
    var r := Alu64Signed(op, d, s);
    HitS(op, d, s, r.0) && HitS(op, d, s, r.1)
  }

  lemma HitExactS(op: AluOp, d: (I64, I64), s: (I64, I64), a: I64, b: I64)
    requires IsLinear(op) && Within(d, a) && Within(s, b) && FitsI64(Exact(op, a, b))
    ensures HitS(op, d, s, Exact(op, a, b))
  {
    hide InS, Wrap64, Signed64;
    EndpointIn(d, a);
    EndpointIn(s, b);
    var x, y := Wrap64(a), Wrap64(b);
    SignedOfWrap(a);
    SignedOfWrap(b);
    WrapSigned2(x, y);
    WrapFits(Exact(op, a, b));
    assert InS(d, x) && InS(s, y) && Signed64(AluConst64(op, x, y)) == Exact(op, a, b);
  }

  lemma HitConstS(op: AluOp, d: (I64, I64), s: (I64, I64), a: I64, b: I64)
    requires Within(d, a) && Within(s, b)
    ensures HitS(op, d, s, Signed64(AluConst64(op, Wrap64(a), Wrap64(b))))
  {
    hide InS, Wrap64, Signed64, AluConst64;
    EndpointIn(d, a);
    EndpointIn(s, b);
    var x, y := Wrap64(a), Wrap64(b);
    assert InS(d, x) && InS(s, y) && Signed64(AluConst64(op, x, y)) == Signed64(AluConst64(op, x, y));
  }

  /** Sums, differences and products of signed ranges are the least intervals when
      nothing overflows. */
  lemma SignedLinearLeast(op: AluOp, d: (I64, I64), s: (I64, I64))
    requires IsLinear(op) && Nonempty(d) && Nonempty(s) && AllExactIn(op, d, s, I64_MIN, I64_MAX)
    ensures ReachesS(op, d, s)
  {
    hide HitS, AluConst64;
    CornersIn(op, d, s, I64_MIN, I64_MAX);
    HitExactS(op, d, s, d.0, s.0);
    HitExactS(op, d, s, d.0, s.1);
    HitExactS(op, d, s, d.1, s.0);
    HitExactS(op, d, s, d.1, s.1);
    HitConstS(op, d, s, d.0, s.0);
  }

  /** So are shifts by a constant: right shifts of what they accept, left shifts as long
      as no bit is lost. */
  lemma SignedShiftLeast(op: AluOp, d: (I64, I64), k: nat)
    requires IsShift(op) && k < 64 && Nonempty(d)
    requires op.Arsh? || d.0 >= 0
    requires op.Lsh? ==> d.1 * Pow2(k) <= I64_MAX
    ensures ReachesS(op, d, (k, k))
  {
    hide HitS, AluConst64, Shift64ByConst, Pow2, Wrap64;
    HitConstS(op, d, (k, k), d.0, k);
    HitConstS(op, d, (k, k), d.1, k);
    ConstShift(op, d, k);
  }

  /** Both ends of the shifted range are the shifted ends. */
  lemma ConstShift(op: AluOp, d: (I64, I64), k: nat)
    requires IsShift(op) && k < 64 && Nonempty(d)
    requires op.Arsh? || d.0 >= 0
    requires op.Lsh? ==> d.1 * Pow2(k) <= I64_MAX
    ensures Shift64ByConst(op, d, k).0 == Signed64(AluConst64(op, Wrap64(d.0), Wrap64(k)))
    ensures Shift64ByConst(op, d, k).1 == Signed64(AluConst64(op, Wrap64(d.1), Wrap64(k)))
  {
    hide Shl, Shr, Sar, Pow2;
    assert Wrap64(k) % 64 == k;
    if op.Lsh? {
      ShlZero(Wrap64(d.0));
      ShlZero(Wrap64(d.1));
      if k > 0 {
        NoBitLost(d.0, d.1, k);
      }
    }
  }

  /** Numbers that stay below 2^63 when shifted share their (zero) high bits. */
  lemma NoBitLost(lo: nat, hi: nat, k: nat)
    requires 0 < k < 64 && lo <= hi <= I64_MAX && hi * Pow2(k) <= I64_MAX
    ensures lo / Pow2(64 - k) == 0 == hi / Pow2(64 - k)
    ensures Shl(lo, k) == lo * Pow2(k) < TWO63 && Shl(hi, k) == hi * Pow2(k) < TWO63
  {
    hide Pow2;
    Pow2Words();
    Pow2Add(k, 64 - k);
    MulMono(lo, hi, Pow2(k));
    MulMono(0, lo, Pow2(k));
    if hi >= Pow2(64 - k) {
      MulMono(Pow2(64 - k), hi, Pow2(k));
    }
    DivUnique(lo, Pow2(64 - k), 0, lo);
    DivUnique(hi, Pow2(64 - k), 0, hi);
    DivUnique(lo * Pow2(k), TWO64, 0, lo * Pow2(k));
    DivUnique(hi * Pow2(k), TWO64, 0, hi * Pow2(k));
  }

  /** Where ends need not be reached, the signed rules keep what is plain: a conjunction
      of non-negative ranges is below both, a disjunction above both, a remainder smaller
      than its divisor, a right shift no larger than its operand. */
  lemma SignedWithin(op: AluOp, d: (I64, I64), s: (I64, I64))
    requires Nonempty(d) && Nonempty(s) && d.0 >= 0 && s.0 >= 0 && (IsShift(op) ==> s.1 < 64)
    ensures var r := Alu64Signed(op, d, s);
            && (op.And? ==> 0 <= r.0 && r.1 <= d.1 && r.1 <= s.1)
            && (op.Or? ==> d.0 <= r.0 && s.0 <= r.0)
            && (op.Xor? ==> 0 <= r.0)
            && (op.Mod? && s.0 == s.1 > 0 ==> -s.0 < r.0 && r.1 < s.0)
            && (op.Rsh? || (op.Arsh? && s.0 < s.1) ==> 0 <= r.0 && r.1 <= d.1)
  {
    hide And64, Or64, Xor64, Shr, Shl, Sar;
    assert Wrap64(d.0) == d.0 && Wrap64(s.0) == s.0;
    SignedWithinConstants(d.0, s.0);
    if op.Rsh? {
      assert Wrap64(d.1) == d.1 && Wrap64(s.1) == s.1;
      ShrMono(d.0, d.1, s.0);
    }
  }

  lemma SignedWithinConstants(a: I64, b: I64)
    requires a >= 0 && b >= 0
    ensures And64(a, b) <= a && And64(a, b) <= b
    ensures a <= Or64(a, b) <= I64_MAX && b <= Or64(a, b)
    ensures Xor64(a, b) <= I64_MAX
    ensures b > 0 ==> AluConst64(Mod, a, b) < b
  {
    hide Bits.And, Bits.Or, Bits.Xor, Pow2;
    AndBound(a, b);
    Pow2Words();
    OrBound(a, b, 63);
    XorBound(a, b, 63);
  }

  // ── Unsigned intervals ───────────────────────────────────────────────────

  ghost predicate HitU(op: AluOp, d: (U64, U64), s: (U64, U64), z: int) {
    exists x: U64, y: U64 :: InU(d, x) && InU(s, y) && AluConst64(op, x, y) == z
  }

  ghost predicate ReachesU(op: AluOp, d: (U64, U64), s: (U64, U64)) {
    var r := Alu64Unsigned(op, d, s);
    HitU(op, d, s, r.0) && HitU(op, d, s, r.1)
  }

  lemma HitCornerU(op: AluOp, d: (U64, U64), s: (U64, U64), x: U64, y: U64)
    requires InU(d, x) && InU(s, y)
    ensures HitU(op, d, s, AluConst64(op, x, y))
  {
    hide AluConst64;
    assert AluConst64(op, x, y) == AluConst64(op, x, y);
  }

  lemma CornersU(op: AluOp, d: (U64, U64), s: (U64, U64))
    requires Nonempty(d) && Nonempty(s)
    ensures HitU(op, d, s, AluConst64(op, d.0, s.0)) && HitU(op, d, s, AluConst64(op, d.0, s.1))
    ensures HitU(op, d, s, AluConst64(op, d.1, s.0)) && HitU(op, d, s, AluConst64(op, d.1, s.1))
  {
    hide AluConst64, HitU;
    HitCornerU(op, d, s, d.0, s.0);
    HitCornerU(op, d, s, d.0, s.1);
    HitCornerU(op, d, s, d.1, s.0);
    HitCornerU(op, d, s, d.1, s.1);
  }

  lemma UnsignedLinearLeast(op: AluOp, d: (U64, U64), s: (U64, U64))
    requires IsLinear(op) && Nonempty(d) && Nonempty(s) && AllExactIn(op, d, s, 0, U64_MAX)
    ensures ReachesU(op, d, s)
  {
    hide HitU, Wrap64;
    CornersIn(op, d, s, 0, U64_MAX);
    CornersU(op, d, s);
    NoWrap(d.0 + s.0);
    NoWrap(d.1 + s.1);
    NoWrap(d.0 - s.1);
    NoWrap(d.1 - s.0);
    ProductsNatural(d, s);
    NoWrap(d.0 * s.0);
    NoWrap(d.0 * s.1);
    NoWrap(d.1 * s.0);
    NoWrap(d.1 * s.1);
  }

  lemma NoWrap(z: int)
    ensures 0 <= z <= U64_MAX ==> Wrap64(z) == z
  {
  }

  /** Quotients by ranges without zero, and shifts by a constant that lose no bit. */
  lemma UnsignedQuotientLeast(op: AluOp, d: (U64, U64), s: (U64, U64))
    requires Nonempty(d) && Nonempty(s)
    requires (op.Div? && s.0 > 0) || ((op.Rsh? || op.Lsh?) && s.0 == s.1 < 64)
    requires op.Lsh? ==> d.1 * Pow2(s.0) <= U64_MAX
    ensures ReachesU(op, d, s)
  {
    hide HitU, Pow2, Shl, Shr;
    CornersU(op, d, s);
    if op.Lsh? {
      FitsShr(d.1, s.0);
    }
  }

  lemma FitsShr(x: U64, k: nat)
    requires k < 64 && x * Pow2(k) <= U64_MAX
    ensures x <= Shr(U64_MAX, k)
  {
    hide Pow2;
    DivMono(x * Pow2(k), U64_MAX, Pow2(k));
    DivUnique(x * Pow2(k), Pow2(k), x, 0);
  }

  lemma UnsignedWithin(op: AluOp, d: (U64, U64), s: (U64, U64))
    requires Nonempty(d) && Nonempty(s)
    ensures var r := Alu64Unsigned(op, d, s);
            && (op.And? ==> r.1 <= d.1 && r.1 <= s.1)
            && (op.Or? ==> d.0 <= r.0 && s.0 <= r.0)
            && (op.Mod? && s.0 > 0 ==> r.1 < s.1)
            && (op.Rsh? && s.1 < 64 ==> r.1 <= d.1)
  {
    if op.Rsh? && s.0 == s.1 < 64 {
      ShrMono(d.1, d.1, s.0);
    }
  }

  // ── 32-bit intervals ─────────────────────────────────────────────────────

  ghost predicate Hit32(op: AluOp, d: (U32, U32), s: (U32, U32), z: int) {
    exists x: U32, y: U32 :: Within(d, x) && Within(s, y) && Alu32(op, x, y) == z
  }

  ghost predicate Reaches32(op: AluOp, d: (U32, U32), s: (U32, U32)) {
    var r := Alu32Range(op, d, s);
    Hit32(op, d, s, r.0) && Hit32(op, d, s, r.1)
  }

  lemma HitCorner32(op: AluOp, d: (U32, U32), s: (U32, U32), x: U32, y: U32)
    requires Within(d, x) && Within(s, y)
    ensures Hit32(op, d, s, Alu32(op, x, y))
  {
    hide Alu32;
    assert Alu32(op, x, y) == Alu32(op, x, y);
  }

  lemma Corners32(op: AluOp, d: (U32, U32), s: (U32, U32))
    requires Nonempty(d) && Nonempty(s)
    ensures Hit32(op, d, s, Alu32(op, d.0, s.0)) && Hit32(op, d, s, Alu32(op, d.0, s.1))
    ensures Hit32(op, d, s, Alu32(op, d.1, s.0)) && Hit32(op, d, s, Alu32(op, d.1, s.1))
  {
    hide Alu32, Hit32;
    HitCorner32(op, d, s, d.0, s.0);
    HitCorner32(op, d, s, d.0, s.1);
    HitCorner32(op, d, s, d.1, s.0);
    HitCorner32(op, d, s, d.1, s.1);
  }

  /** Sums and differences whose exact values lie in one block of 2^32, and products that
      do not wrap. */
  lemma LinearLeast32(op: AluOp, d: (U32, U32), s: (U32, U32), block: int)
    requires IsLinear(op) && Nonempty(d) && Nonempty(s) && (op.Mul? ==> block == 0)
    requires -1 <= block <= 1 && AllExactIn(op, d, s, block * TWO32, block * TWO32 + U32_MAX)
    ensures Reaches32(op, d, s)
  {
    hide Hit32, IntervalMod, Mul32Range;
    CornersIn(op, d, s, block * TWO32, block * TWO32 + U32_MAX);
    Corners32(op, d, s);
    if op.Mul? {
      MulMono(d.0, d.1, s.0);
      MulMono(s.0, s.1, d.1);
      ProductsNatural(d, s);
      OneBlock(d.0 * s.0, d.1 * s.1, 0);
    } else if op.Sub? {
      OneBlock(d.0 - s.1, d.1 - s.0, block);
    } else {
      OneBlock(d.0 + s.0, d.1 + s.1, block);
    }
  }

  lemma OneBlock(lo: int, hi: int, block: int)
    requires -1 <= block <= 1 && block * TWO32 <= lo <= hi <= block * TWO32 + U32_MAX
    ensures IntervalMod(lo, hi) == (Wrap32(lo), Wrap32(hi))
    ensures block == 0 ==> Mul32Range(lo, hi) == (Wrap32(lo), Wrap32(hi))
  {
    hide Wrap32, Wrap64;
    SmallWidth(hi - lo);
    BlockResidue(lo, block);
    BlockResidue(hi, block);
    if block == 0 {
      SmallWidth(lo);
      SmallWidth(hi);
    }
  }

  lemma SmallWidth(z: int)
    requires 0 <= z <= U32_MAX
    ensures Signed64(Wrap64(z)) == z
  {
  }

  lemma BlockResidue(z: int, block: int)
    requires block * TWO32 <= z <= block * TWO32 + U32_MAX
    ensures Wrap32(z) == z - block * TWO32
  {
    DivUnique(z, TWO32, block, z - block * TWO32);
  }

  lemma QuotientLeast32(op: AluOp, d: (U32, U32), s: (U32, U32))
    requires Nonempty(d) && Nonempty(s)
    requires (op.Div? && s.0 > 0) || (IsShift(op) && s.0 == s.1 < 32)
    requires op.Lsh? ==> d.1 * Pow2(s.0) <= U32_MAX
    ensures Reaches32(op, d, s)
  {
    hide Hit32, Pow2;
    Corners32(op, d, s);
    if op.Lsh? {
      Pow2Words();
      Pow2Add(s.0, 32 - s.0);
      assert s.0 == 0 ==> Pow2(s.0) == 1 by { Pow2Zero(); }
      if d.1 >= Pow2(32 - s.0) {
        MulMono(Pow2(32 - s.0), d.1, Pow2(s.0));
      }
    }
  }

  lemma Pow2Zero()
    ensures Pow2(0) == 1
  {
  }

  lemma Within32(op: AluOp, d: (U32, U32), s: (U32, U32))
    requires Nonempty(d) && Nonempty(s)
    ensures var r := Alu32Range(op, d, s);
            && (op.And? ==> r.1 <= d.1 && r.1 <= s.1)
            && (op.Or? ==> d.0 <= r.0 && s.0 <= r.0)
            && (op.Mod? && s.0 > 0 ==> r.1 < s.1)
            && (op.Rsh? && s.0 != s.1 ==> r.1 <= d.1)
  {
  }
}
