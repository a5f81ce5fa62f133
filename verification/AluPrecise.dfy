/** What `apply_alu`, `coerce_scalar` and the refinement of a comparison keep of the rules
    below them (`src/exec.rs`): every view of the result is at most as wide as its rule,
    constants stay constants, links survive exactly the moves by a known amount. */
module AluPrecise {
  import opened Words
  import opened Bits
  import opened TnumDomain
  import opened Scalar
  import opened ScalarSound
  import opened AluSound
  import opened Branch
  import opened ScalarPrecise
  import opened BranchExact
  import Products

  /** The three views of r are no wider than the given rules. */
  ghost predicate AtMost(r: Bounds, s: (int, int), u: (int, int), t: Tnum) {
    s.0 <= r.smin <= r.smax <= s.1 && u.0 <= r.umin <= r.umax <= u.1 && t.Subsumes(r.tnum)
  }

  lemma LinkingKeepsViews(op: AluOp, width: Width, result: Bounds, d: Bounds, s: Bounds)
    ensures var r := ApplyLinking(op, width, result, d, s);
            && r.SRange() == result.SRange() && r.URange() == result.URange() && r.U32Range() == result.U32Range()
            && r.tnum == result.tnum
  {
  }

  function Amount(op: AluOp, s: Bounds): (U64, U64) {
    if IsShift(op) then (Wrap64(s.smin), Wrap64(s.smax)) else s.URange()
  }

  lemma Alu64Narrows(op: AluOp, d: Bounds, s: Bounds, x: U64, y: U64)
    requires Gamma(d, x) && Gamma(s, y) && d.tnum.Wf() && s.tnum.Wf()
    requires IsShift(op) ==> 0 <= s.smin && s.smax < 64
    requires op.Mod? ==> SignedModOk(d.SRange(), s.SRange())
    requires op.Arsh? ==> VarArshOk(d.SRange(), s.SRange())
    requires !(d.IsConstant() && s.IsConstant())
    ensures AtMost(ApplyAlu(op, W64, d, s), Alu64Signed(op, d.SRange(), s.SRange()),
                   Alu64Unsigned(op, d.URange(), Amount(op, s)), AluTnum(op, d.tnum, s.tnum, s.smin, s.smax))
    ensures WindowTold(ApplyAlu(op, W64, d, s))
  {
    hide Alu64Signed, Alu64Unsigned, AluTnum, Bounds.Synced, Tnum.Contains, Tnum.Wf, AluConst64, VarArshOk,
         Bounds.IsConstant, ApplyLinking, Tnum.Subsumes, FromRange;
    var r := AluConst64(op, x, y);
    SignedSound(op, d.SRange(), s.SRange(), x, y);
    UnsignedSound(op, d.URange(), Amount(op, s), x, y);
    Tnum64Sound(op, d.tnum, s.tnum, s.smin, s.smax, x, y);
    var (sm, sx) := Alu64Signed(op, d.SRange(), s.SRange());
    var (um, ux) := Alu64Unsigned(op, d.URange(), Amount(op, s));
    SyncedNarrows(Bounds(sm, sx, um, ux, 0, U32_MAX, AluTnum(op, d.tnum, s.tnum, s.smin, s.smax), d.id, d.delta), r);
    LinkingKeepsViews(op, W64, ApplyAluInner(op, W64, d, s), d, s);
  }

  lemma Alu32Narrows(op: AluOp, d: Bounds, s: Bounds, x: U64, y: U64)
    requires Gamma(d, x) && Gamma(s, y) && d.tnum.Wf() && s.tnum.Wf() && AluGuard(op, W32, d, s)
    requires IsShift(op) ==> 0 <= s.smin && s.smax < 32
    requires !(d.IsConstant() && s.IsConstant())
    ensures var w := Alu32Range(op, d.U32Range(), s.U32Range());
            AtMost(ApplyAlu(op, W32, d, s), w, w, AluTnum(op, d.tnum, s.tnum, s.smin, s.smax).Subreg())
    ensures WindowTold(ApplyAlu(op, W32, d, s))
  {
    hide Alu32Range, AluTnum, Tnum.Subreg, Bounds.Synced, Tnum.Contains, Tnum.Wf, Alu32, Products.Mul32Ok, Rsh32TnumOk,
         Arsh32TnumOk, Bounds.IsConstant, ApplyLinking, Tnum.Subsumes, FromRange;
    var r := AluConst32(op, x, y);
    Range32Sound(op, d.U32Range(), s.U32Range(), x % TWO32, y % TWO32);
    Tnum32Sound(op, d.tnum, s.tnum, s.smin, s.smax, x, y);
    var (rmin, rmax) := Alu32Range(op, d.U32Range(), s.U32Range());
    SyncedNarrows(Bounds(rmin, rmax, rmin, rmax, 0, U32_MAX,
                         AluTnum(op, d.tnum, s.tnum, s.smin, s.smax).Subreg(), d.id, d.delta), r);
    LinkingKeepsViews(op, W32, ApplyAluInner(op, W32, d, s), d, s);
  }

  /** The bounds of exactly one value. */
  predicate Only(b: Bounds, x: U64) {
    && b.smin == b.smax == Signed64(x) && b.umin == b.umax == x && b.u32min == b.u32max == x % TWO32
    && b.tnum == Constant(x)
  }

  /** Two constants fold to the exact result, which is linked to nothing. */
  lemma ConstantsFold(op: AluOp, width: Width, d: Bounds, s: Bounds, x: U64, y: U64)
    requires Gamma(d, x) && Gamma(s, y) && d.IsConstant() && s.IsConstant()
    requires IsShift(op) ==> 0 <= s.smin < BitWidth(width)
    ensures Only(ApplyAlu(op, width, d, s), AluConst(op, width, x, y))
    ensures ApplyAlu(op, width, d, s).id == 0 == ApplyAlu(op, width, d, s).delta
  {
    hide ApplyAluInner, AluConst64, AluConst32, Tnum.Contains, Constant;
    ConstantMember(d, x);
    ConstantMember(s, y);
    InnerConstant(op, width, d, s);
    WrapOfSigned(AluConst(op, width, x, y));
  }

  /** An operation that moves an unmoved member of a link group by a known amount. */
  predicate MovesByConstant(op: AluOp, width: Width, d: Bounds, s: Bounds) {
    && (op.Add? || op.Sub?) && width.W64? && s.IsConstant() && !d.IsConstant() && d.delta == 0
    && I32_MIN <= (if op.Sub? then 0 - s.smin else s.smin) <= I32_MAX
  }

  /** Such an operation keeps the group and says by how much it moved; every other one
      leaves the group. */
  lemma LinkKeptExactly(op: AluOp, width: Width, d: Bounds, s: Bounds)
    requires !IsShift(op) || (0 <= s.smin && s.smax < BitWidth(width))
    ensures ApplyAlu(op, width, d, s).id == if MovesByConstant(op, width, d, s) then d.id else 0
    ensures MovesByConstant(op, width, d, s) && d.id != 0 ==>
              forall x: U64, y: U64 :: Gamma(s, y) ==>
                Wrap64(AluConst(op, width, x, y) - ApplyAlu(op, width, d, s).delta) == x
  {
    hide ApplyAluInner, AluConst32, Tnum.Contains, Tnum.IsConstant, Wrap64;
    InnerLink(op, width, d, s);
    if MovesByConstant(op, width, d, s) && d.id != 0 {
      forall x: U64, y: U64 | Gamma(s, y)
        ensures Wrap64(AluConst(op, width, x, y) - ApplyAlu(op, width, d, s).delta) == x
      {
        ConstantMember(s, y);
        UnmovedBack(x, s.smin);
      }
    }
  }

  lemma InnerLink(op: AluOp, width: Width, d: Bounds, s: Bounds)
    requires !IsShift(op) || (0 <= s.smin && s.smax < BitWidth(width))
    ensures var r := ApplyAluInner(op, width, d, s);
            if d.IsConstant() && s.IsConstant() then r.id == 0 == r.delta else r.id == d.id && r.delta == d.delta
  {
    hide Alu64Signed, Alu64Unsigned, AluTnum, Alu32Range, Bounds.Synced, Tnum.Subreg, AluConst64, AluConst32;
    if width.W64? {
      var (sm, sx) := Alu64Signed(op, d.SRange(), s.SRange());
      var (um, ux) := Alu64Unsigned(op, d.URange(), Amount(op, s));
      SyncedLink(Bounds(sm, sx, um, ux, 0, U32_MAX, AluTnum(op, d.tnum, s.tnum, s.smin, s.smax), d.id, d.delta));
    } else {
      var (rmin, rmax) := Alu32Range(op, d.U32Range(), s.U32Range());
      SyncedLink(Bounds(rmin, rmax, rmin, rmax, 0, U32_MAX,
                        AluTnum(op, d.tnum, s.tnum, s.smin, s.smax).Subreg(), d.id, d.delta));
    }
  }

  lemma UnmovedBack(x: U64, v: I64)
    ensures Wrap64(Wrap64(x + Wrap64(v)) - v) == x
    ensures Wrap64(Wrap64(x - Wrap64(v)) - (0 - v)) == x
  {
    hide Wrap64;
    WrapAdd(x + Wrap64(v), 0 - v);
    WrapAdd(v, x - v);
    WrapAdd(x - Wrap64(v), v);
    WrapMinus(x, v);
    WordWraps(x);
  }

  lemma WordWraps(x: U64)
    ensures Wrap64(x) == x
  {
  }

  lemma WrapMinus(x: int, v: int)
    ensures Wrap64(x - Wrap64(v)) == Wrap64(x - v)
  {
    ModEqual(x - Wrap64(v), x - v, TWO64, v / TWO64);
  }

  // ── Truncating a scalar ──────────────────────────────────────────────────

  /** Truncating and extending keeps constants, the low bits that were known and, without
      a sign, the width of the access. */
  lemma CoercePrecise(b: Bounds, size: nat, signExtend: bool, x: U64)
    requires ValidSize(size) && Gamma(b, x) && b.tnum.Wf()
    ensures size == 8 ==> CoerceScalar(b, size, signExtend) == b
    ensures b.IsConstant() && size < 8 ==>
              Only(CoerceScalar(b, size, signExtend), LoadValue(x, size, signExtend))
    ensures forall k: nat :: k < 8 * size && Known(b.tnum, k) ==> Known(CoerceScalar(b, size, signExtend).tnum, k)
    ensures !signExtend && size < 8 ==>
              0 <= CoerceScalar(b, size, false).smin && CoerceScalar(b, size, false).smax < Pow2(8 * size)
              && CoerceScalar(b, size, false).umax < Pow2(8 * size)
  {
    hide Bit, Pow2, Tnum.Wf, Tnum.Contains, Extend, Bits.And, Bits.Or, Constant;
    if size < 8 {
      LowMaskBounds(x, size);
      LowMaskBounds(b.tnum.value, size);
      AndLowMask(x, 8 * size);
      if b.IsConstant() {
        ConstantMember(b, x);
        WrapOfSigned(LoadValue(x, size, signExtend));
        ConstantKnown(LoadValue(x, size, signExtend));
        if !signExtend {
          ExtendLow(x, size, false);
        }
      } else {
        LowBitsKept(b.tnum, 8 * size);
      }
    }
  }

  lemma ConstantKnown(v: U64)
    ensures forall k: nat :: Known(Constant(v), k)
  {
    forall k: nat
      ensures Known(Constant(v), k)
    {
      BitZero(k);
    }
  }

  lemma LowBitsKept(t: Tnum, n: nat)
    requires n <= 32 && Pow2(n) <= TWO32
    ensures var low: U64 := Pow2(n) - 1;
            forall k: nat :: k < n && Known(t, k) ==> !Bit(Or64(And64(t.mask, low), Not64(low)), k)
  {
    hide Bit, Pow2, Bits.And, Bits.Or;
    var low: U64 := Pow2(n) - 1;
    forall k: nat | k < n && Known(t, k)
      ensures !Bit(Or64(And64(t.mask, low), Not64(low)), k)
    {
      BitLowMask(n, k);
      BitAnd(t.mask, low, k);
      BitNot64(low, k);
      BitOr(And64(t.mask, low), Not64(low), k);
    }
  }

  // ── Refinement ───────────────────────────────────────────────────────────

  /** Every value left in the refined ranges has a partner on the side, and no view got
      wider. */
  lemma OrderedPrecise(op: CondOp, dst: Bounds, src: Bounds, x: U64, y: U64)
    requires !op.Eq? && !op.Ne?
    requires GammaPair((dst, src), x, y) && RefineGuard(op, Taken(op, x, y), dst, src)
    ensures var taken := Taken(op, x, y);
            Refined(op, taken, dst, src, if taken then RefineCmp(op, dst, src).0 else RefineCmp(op, dst, src).1)
  {
    hide GammaPair, RefineGuard, Refined, RefineCmp;
    if IsSigned(op) {
      SignedPrecise(op, dst, src, x, y);
    } else {
      UnsignedPrecise(op, dst, src, x, y);
    }
  }

  lemma SignedPrecise(op: CondOp, dst: Bounds, src: Bounds, x: U64, y: U64)
    requires !op.Eq? && !op.Ne? && IsSigned(op)
    requires GammaPair((dst, src), x, y) && RefineGuard(op, Taken(op, x, y), dst, src)
    ensures var taken := Taken(op, x, y);
            Refined(op, taken, dst, src, if taken then RefineCmp(op, dst, src).0 else RefineCmp(op, dst, src).1)
  {
    hide Tnum.Contains, Tnum.Wf, Bounds.Synced, RefineOrdered, GeFallOk, Tnum.Subsumes, FromRange, Partnered,
         SignsTold, WindowTold, Meets;
    var f, taken, ord := SIGNED_WORDS, Taken(op, x, y), Ord(op);
    RefineOrderedFits(f, ord, dst.SRange(), src.SRange());
    RefineOrderedSound(f, ord, dst.SRange(), src.SRange(), Signed64(x), Signed64(y));
    PairMeets(ord, taken, dst.SRange(), src.SRange(), Signed64(x), Signed64(y));
    SidePartnered(f, ord, taken, dst.SRange(), src.SRange());
    var side := Side(f, ord, taken, dst.SRange(), src.SRange());
    SyncedNarrows(WithSigned(dst, side.0), x);
    SyncedNarrows(WithSigned(src, side.1), y);
    SideInside(f, ord, taken, dst.SRange(), src.SRange());
    Narrower(f.min, ord, taken, dst.SRange(), src.SRange(), side.0, side.1,
             WithSigned(dst, side.0).Synced().SRange(), WithSigned(src, side.1).Synced().SRange());
  }

  lemma UnsignedPrecise(op: CondOp, dst: Bounds, src: Bounds, x: U64, y: U64)
    requires !op.Eq? && !op.Ne? && !IsSigned(op)
    requires GammaPair((dst, src), x, y) && RefineGuard(op, Taken(op, x, y), dst, src)
    ensures var taken := Taken(op, x, y);
            Refined(op, taken, dst, src, if taken then RefineCmp(op, dst, src).0 else RefineCmp(op, dst, src).1)
  {
    hide Tnum.Contains, Tnum.Wf, Bounds.Synced, RefineOrdered, GeFallOk, Tnum.Subsumes, FromRange, Partnered,
         SignsTold, WindowTold, Meets;
    var f, taken, ord := UNSIGNED_WORDS, Taken(op, x, y), Ord(op);
    RefineOrderedFits(f, ord, dst.URange(), src.URange());
    RefineOrderedSound(f, ord, dst.URange(), src.URange(), x, y);
    PairMeets(ord, taken, dst.URange(), src.URange(), x, y);
    SidePartnered(f, ord, taken, dst.URange(), src.URange());
    var side := Side(f, ord, taken, dst.URange(), src.URange());
    SyncedNarrows(WithUnsigned(dst, side.0), x);
    SyncedNarrows(WithUnsigned(src, side.1), y);
    SideInside(f, ord, taken, dst.URange(), src.URange());
    Narrower(f.min, ord, taken, dst.URange(), src.URange(), side.0, side.1,
             WithUnsigned(dst, side.0).Synced().URange(), WithUnsigned(src, side.1).Synced().URange());
  }

  /** Every value of either range has a partner in the other operand; dst is not refined
      when `>=` is false and src reaches down to the least number. */
  ghost predicate Partnered(min: int, op: OrdOp, taken: bool, dst: (int, int), src: (int, int), d: (int, int),
                            s: (int, int)) {
    && (!(op.Ge? && !taken && src.0 == min) ==> forall z: int :: InRange(d, z) ==> HasSrc(op, taken, z, src))
    && (forall z: int :: InRange(s, z) ==> HasDst(op, taken, dst, z))
  }

  ghost predicate Refined(op: CondOp, taken: bool, dst: Bounds, src: Bounds, r: (Bounds, Bounds))
    requires !op.Eq? && !op.Ne?
  {
    && Inside(dst, r.0) && Inside(src, r.1) && dst.tnum.Subsumes(r.0.tnum) && src.tnum.Subsumes(r.1.tnum)
    && Partnered(if IsSigned(op) then I64_MIN else 0, Ord(op), taken, Of(IsSigned(op), dst), Of(IsSigned(op), src),
                 Of(IsSigned(op), r.0), Of(IsSigned(op), r.1))
  }

  lemma Narrower(min: int, op: OrdOp, taken: bool, dst: (int, int), src: (int, int), d: (int, int), s: (int, int),
                 d': (int, int), s': (int, int))
    requires Partnered(min, op, taken, dst, src, d, s) && d.0 <= d'.0 && d'.1 <= d.1 && s.0 <= s'.0 && s'.1 <= s.1
    ensures Partnered(min, op, taken, dst, src, d', s')
  {
    hide HasSrc, HasDst;
  }

  lemma SidePartnered(f: Family, op: OrdOp, taken: bool, dst: (int, int), src: (int, int))
    requires WithinFamily(f, dst) && WithinFamily(f, src) && Meets(op, taken, dst, src)
    ensures var s := Side(f, op, taken, dst, src);
            Partnered(f.min, op, taken, dst, src, s.0, s.1)
  {
    hide Side, HasSrc, HasDst, Meets;
    forall z: int
      ensures InRange(Side(f, op, taken, dst, src).0, z) && !(op.Ge? && !taken && src.0 == f.min) ==>
                HasSrc(op, taken, z, src)
      ensures InRange(Side(f, op, taken, dst, src).1, z) ==> HasDst(op, taken, dst, z)
    {
      SidePrecise(f, op, taken, dst, src, z);
    }
  }

  lemma PairMeets(op: OrdOp, taken: bool, dst: (int, int), src: (int, int), a: int, b: int)
    requires InRange(dst, a) && InRange(src, b) && Compare(op, a, b) == taken
    ensures Meets(op, taken, dst, src)
  {
  }

  lemma SidePrecise(f: Family, op: OrdOp, taken: bool, dst: (int, int), src: (int, int), z: int)
    requires WithinFamily(f, dst) && WithinFamily(f, src) && Meets(op, taken, dst, src)
    ensures InRange(Side(f, op, taken, dst, src).0, z) && !(op.Ge? && !taken && src.0 == f.min) ==>
              HasSrc(op, taken, z, src)
    ensures InRange(Side(f, op, taken, dst, src).1, z) ==> InRange(src, z) && HasDst(op, taken, dst, z)
  {
    hide HasSrc, HasDst, RefineOrdered;
    RefineOrderedExact(f, op, taken, dst, src, z);
    if op.Ge? && !taken && src.0 != f.min {
      GeFallPartner(f, dst, src, z);
    }
  }

  lemma GeFallPartner(f: Family, dst: (int, int), src: (int, int), z: int)
    requires WithinFamily(f, dst) && WithinFamily(f, src) && Meets(Ge, false, dst, src) && src.0 != f.min
    ensures InRange(Side(f, Ge, false, dst, src).0, z) ==> InRange(dst, z) && HasSrc(Ge, false, z, src)
  {
    PartnerOfDst(Ge, false, z, src);
  }

  lemma SideInside(f: Family, op: OrdOp, taken: bool, dst: (int, int), src: (int, int))
    requires WithinFamily(f, dst) && WithinFamily(f, src) && Meets(op, taken, dst, src)
    ensures var s := Side(f, op, taken, dst, src);
            dst.0 <= s.0.0 && s.0.1 <= dst.1 && src.0 <= s.1.0 && s.1.1 <= src.1
  {
  }

  /** Equal operands are both refined to what they have in common. */
  lemma EqualPrecise(dst: Bounds, src: Bounds, x: U64)
    requires Gamma(dst, x) && Gamma(src, x) && dst.tnum.Wf() && src.tnum.Wf()
    ensures var m := RefineCmp(Eq, dst, src).0;
            && m == RefineCmp(Ne, dst, src).1 && m.0 == m.1 && Inside(dst, m.0) && Inside(src, m.0)
            && dst.tnum.Subsumes(m.0.tnum) && src.tnum.Subsumes(m.0.tnum)
  {
    hide Tnum.Contains, Tnum.Wf, Tnum.Intersect, Bounds.Synced, Tnum.Subsumes, FromRange;
    IntersectIsMeet(dst.tnum, src.tnum, x);
    IntersectInside(dst.tnum, src.tnum, x);
    var pre := Bounds(Max(dst.smin, src.smin), Min(dst.smax, src.smax), Max(dst.umin, src.umin),
                      Min(dst.umax, src.umax), 0, U32_MAX, dst.tnum.Intersect(src.tnum), 0, 0);
    SyncedNarrows(pre, x);
    SubsumesTwice(dst.tnum, pre.tnum, pre.Synced().tnum);
    SubsumesTwice(src.tnum, pre.tnum, pre.Synced().tnum);
  }

  lemma SubsumesTwice(a: Tnum, b: Tnum, c: Tnum)
    requires a.Subsumes(b) && b.Subsumes(c)
    ensures a.Subsumes(c)
  {
    hide Bit, Tnum.Subsumes;
    SubsumesBits(a, b);
    SubsumesBits(b, c);
    SubsumesBits(a, c);
  }

  /** Unequal operands: against a constant at an end of its range, the other operand loses
      it. */
  lemma UnequalPrecise(dst: Bounds, src: Bounds, x: U64, y: U64)
    requires Gamma(dst, x) && Gamma(src, y) && dst.tnum.Wf() && src.tnum.Wf() && x != y && src.IsConstant()
    ensures var r := RefineCmp(Ne, dst, src).0.0;
            && r == RefineCmp(Eq, dst, src).1.0 && dst.tnum.Subsumes(r.tnum)
            && (y == dst.umin ==> dst.umin < r.umin && r.umax <= dst.umax)
            && (y == dst.umax ==> r.umax < dst.umax && dst.umin <= r.umin)
            && (Signed64(y) == dst.smin ==> dst.smin < r.smin && r.smax <= dst.smax)
            && (Signed64(y) == dst.smax ==> r.smax < dst.smax && dst.smin <= r.smin)
            && (dst.umin < y < dst.umax && dst.smin < Signed64(y) < dst.smax ==> Inside(dst, r))
  {
    hide Tnum.Contains, Tnum.Wf, Bounds.Synced, Tnum.Subsumes, FromRange, Wrap64;
    ConstantMember(src, y);
    ExcludeIntervalSound(SIGNED_WORDS, dst.SRange(), src.smin, Signed64(x));
    ExcludeIntervalSound(UNSIGNED_WORDS, dst.URange(), src.umin, x);
    SyncedNarrows(ExcludeBounds(dst, src), x);
  }
}
