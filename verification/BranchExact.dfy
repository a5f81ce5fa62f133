/** Refinement and verdicts keep no more than they must (`src/exec.rs`): on intervals
    both are exact projections, not only safe ones. */
module BranchExact {
  import opened Words
  import opened Bits
  import opened TnumDomain
  import opened TnumSound
  import opened Scalar
  import opened AluSound
  import opened Branch

  // ── Interval refinement ──────────────────────────────────────────────────

  /** Some pair of the two ranges is on the side. */
  ghost predicate Meets(op: OrdOp, taken: bool, dst: Range, src: Range) {
    exists a: int, b: int :: InRange(dst, a) && InRange(src, b) && Compare(op, a, b) == taken
  }

  ghost predicate HasSrc(op: OrdOp, taken: bool, a: int, src: Range) {
    exists b: int :: InRange(src, b) && Compare(op, a, b) == taken
  }

  ghost predicate HasDst(op: OrdOp, taken: bool, dst: Range, b: int) {
    exists a: int :: InRange(dst, a) && Compare(op, a, b) == taken
  }

  function Side(f: Family, op: OrdOp, taken: bool, dst: Range, src: Range): (Range, Range) {
    if taken then RefineOrdered(f, op, dst, src).0 else RefineOrdered(f, op, dst, src).1
  }

  lemma PartnerOfDst(op: OrdOp, taken: bool, a: int, src: Range)
    requires src.0 <= src.1
    ensures HasSrc(op, taken, a, src) <==> Compare(op, a, src.0) == taken || Compare(op, a, src.1) == taken
  {
    assert InRange(src, src.0) && InRange(src, src.1);
  }

  lemma PartnerOfSrc(op: OrdOp, taken: bool, dst: Range, b: int)
    requires dst.0 <= dst.1
    ensures HasDst(op, taken, dst, b) <==> Compare(op, dst.0, b) == taken || Compare(op, dst.1, b) == taken
  {
    assert InRange(dst, dst.0) && InRange(dst, dst.1);
  }

  /** A side some pair is on: the refined ranges hold exactly the values that have a
      partner. The dst range of a false `>=` is the one exception. */
  lemma RefineOrderedExact(f: Family, op: OrdOp, taken: bool, dst: Range, src: Range, z: int)
    requires WithinFamily(f, dst) && WithinFamily(f, src) && Meets(op, taken, dst, src)
    ensures !(op.Ge? && !taken) ==>
              (InRange(Side(f, op, taken, dst, src).0, z) <==> InRange(dst, z) && HasSrc(op, taken, z, src))
    ensures InRange(Side(f, op, taken, dst, src).1, z) <==> InRange(src, z) && HasDst(op, taken, dst, z)
  {
    PartnerOfDst(op, taken, z, src);
    PartnerOfSrc(op, taken, dst, z);
    hide HasSrc, HasDst;
  }

  /** The exception keeps the values below the whole of src. */
  lemma GeFallIs(f: Family, dst: Range, src: Range, z: int)
    requires WithinFamily(f, dst) && WithinFamily(f, src) && src.0 != f.min
    ensures InRange(Side(f, Ge, false, dst, src).0, z) <==> InRange(dst, z) && z < src.0
  {
  }

  /** Excluding a constant removes it at an endpoint and keeps it inside; one outside
      the range widens the range up to its neighbour. */
  lemma ExcludeExact(f: Family, a: Range, c: int, z: int)
    requires WithinFamily(f, a) && a.0 <= a.1 && f.Holds(c) && f.min < f.max
    ensures InRange(ExcludeInterval(f, a, c), z) <==>
            InRange((Min(a.0, c), Max(a.1, c)), z) && (z != c || a.0 < c < a.1)
  {
  }

  // ── Verdicts ─────────────────────────────────────────────────────────────

  ghost predicate AllCompare(op: OrdOp, taken: bool, dst: Range, src: Range) {
    forall a: int, b: int :: InRange(dst, a) && InRange(src, b) ==> Compare(op, a, b) == taken
  }

  /** The interval of the compared signedness. */
  function Of(signed: bool, b: Bounds): Range { if signed then b.SRange() else b.URange() }

  /** An ordered verdict is given exactly when the intervals of the compared signedness
      decide. */
  lemma OrderedVerdictExact(op: CondOp, dst: Bounds, src: Bounds)
    requires !op.Eq? && !op.Ne?
    requires dst.smin <= dst.smax && dst.umin <= dst.umax && src.smin <= src.smax && src.umin <= src.umax
    ensures var d, s := Of(IsSigned(op), dst), Of(IsSigned(op), src);
            && (IsBranchTaken(op, dst, src).AlwaysTaken? <==> AllCompare(Ord(op), true, d, s))
            && (IsBranchTaken(op, dst, src).AlwaysNotTaken? <==> AllCompare(Ord(op), false, d, s))
  {
    OrderedVerdictComplete(Ord(op), Of(IsSigned(op), dst), Of(IsSigned(op), src));
  }

  ghost predicate CommonPoint(a: Range, b: Range) { exists z: int :: InRange(a, z) && InRange(b, z) }

  lemma DisjointIs(a: Range, b: Range)
    requires a.0 <= a.1 && b.0 <= b.1
    ensures RangesDisjoint(a, b) <==> !CommonPoint(a, b)
  {
    if !RangesDisjoint(a, b) {
      assert InRange(a, Max(a.0, b.0)) && InRange(b, Max(a.0, b.0));
    }
  }

  /** Equality is decided exactly when both are one same constant, or one of the
      interval views has no common value. */
  lemma EqualityVerdictExact(dst: Bounds, src: Bounds, x: U64, y: U64)
    requires Gamma(dst, x) && Gamma(src, y)
    ensures var never := !CommonPoint(dst.SRange(), src.SRange()) || !CommonPoint(dst.URange(), src.URange());
            var always := dst.IsConstant() && src.IsConstant() && x == y;
            && IsBranchTaken(Eq, dst, src) ==
               (if always then AlwaysTaken else if never then AlwaysNotTaken else Undecided)
            && IsBranchTaken(Ne, dst, src) ==
               (if always then AlwaysNotTaken else if never then AlwaysTaken else Undecided)
  {
    hide Tnum.Contains, Tnum.IsConstant;
    DisjointIs(dst.SRange(), src.SRange());
    DisjointIs(dst.URange(), src.URange());
  }

  // ── JSET ─────────────────────────────────────────────────────────────────

  ghost predicate AllTest(a: Tnum, b: Tnum, bit: bool) {
    forall x: U64, y: U64 :: a.Contains(x) && b.Contains(y) ==> (And64(x, y) != 0) == bit
  }

  lemma KnownOnesIsValue(t: Tnum)
    requires t.Wf()
    ensures t.KnownOnes() == t.value
  {
    hide Bit, Tnum.Wf;
    WfIsDisjoint(t);
    forall k: nat | k < 64
      ensures Bit(t.KnownOnes(), k) == Bit(t.value, k)
    {
      BitMasked(t.value, t.mask, k);
    }
    Extensional64(t.KnownOnes(), t.value);
  }

  /** Unless both are constants, a JSET verdict is given exactly when all members of
      the two tnums agree. */
  lemma JsetVerdictExact(dst: Bounds, src: Bounds)
    requires dst.tnum.Wf() && src.tnum.Wf() && !(dst.IsConstant() && src.IsConstant())
    ensures JsetVerdict(dst, src).Yes? <==> AllTest(dst.tnum, src.tnum, true)
    ensures JsetVerdict(dst, src).No? <==> AllTest(dst.tnum, src.tnum, false)
  {
    hide Bit, Tnum.Contains, Tnum.Wf, And64, Or64, Tnum.KnownOnes, AllTest;
    KnownOnesIsValue(dst.tnum);
    KnownOnesIsValue(src.tnum);
    LeastAndGreatest(dst.tnum);
    LeastAndGreatest(src.tnum);
    TestsOf(dst.tnum, src.tnum);
  }

  lemma TestsOf(a: Tnum, b: Tnum)
    requires a.Wf() && b.Wf()
    ensures AllTest(a, b, true) <==> And64(a.value, b.value) != 0
    ensures AllTest(a, b, false) <==> And64(Or64(a.value, a.mask), Or64(b.value, b.mask)) == 0
    ensures !(And64(a.value, b.value) != 0 && And64(Or64(a.value, a.mask), Or64(b.value, b.mask)) == 0)
  {
    hide Bit, Tnum.Contains, Tnum.Wf, And64, Or64, Tnum.KnownOnes;
    LeastAndGreatest(a);
    LeastAndGreatest(b);
    KnownOnesIsValue(a);
    KnownOnesIsValue(b);
    var g, h := Or64(a.value, a.mask), Or64(b.value, b.mask);
    AndZeroBits(a.value, b.value);
    AndZeroBits(g, h);
    forall x: U64, y: U64 | a.Contains(x) && b.Contains(y)
      ensures And64(a.value, b.value) != 0 ==> And64(x, y) != 0
      ensures And64(g, h) == 0 ==> And64(x, y) == 0
    {
      AndZeroBits(x, y);
      forall k: nat | k < 64
        ensures Bit(a.value, k) ==> Bit(x, k)
        ensures Bit(b.value, k) ==> Bit(y, k)
        ensures Bit(x, k) ==> Bit(g, k)
        ensures Bit(y, k) ==> Bit(h, k)
      {
        KnownOnesSound(a, x, k);
        KnownOnesSound(b, y, k);
      }
    }
  }

  lemma JsetConstants(dst: Bounds, src: Bounds, x: U64, y: U64)
    requires Gamma(dst, x) && Gamma(src, y) && dst.IsConstant() && src.IsConstant()
    ensures JsetVerdict(dst, src) == if And64(x, y) != 0 then Yes else No
  {
    hide Tnum.Contains, And64;
    ConstantMember(dst, x);
    ConstantMember(src, y);
  }
}
