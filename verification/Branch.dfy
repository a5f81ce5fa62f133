/** Conditional branches on scalars (`src/exec.rs`): interval refinement of both
    operands on both sides, static verdicts, and their soundness for every pair
    of concrete values. */
module Branch {
  import opened Words
  import opened Bits
  import opened TnumDomain
  import opened TnumSound
  import opened Scalar
  import opened AluSound

  datatype CondOp = Eq | Ne | Ugt | Uge | Ult | Ule | Sgt | Sge | Slt | Sle

  datatype OrdOp = Gt | Ge | Lt | Le

  function Ord(op: CondOp): OrdOp
    requires !op.Eq? && !op.Ne?
  {
    match op
    case Ugt | Sgt => Gt
    case Uge | Sge => Ge
    case Ult | Slt => Lt
    case Ule | Sle => Le
  }

  predicate IsSigned(op: CondOp) { op.Sgt? || op.Sge? || op.Slt? || op.Sle? }

  predicate Compare(op: OrdOp, a: int, b: int) {
    match op
    case Gt => a > b
    case Ge => a >= b
    case Lt => a < b
    case Le => a <= b
  }

  /** The concrete comparison of two registers. */
  predicate Taken(op: CondOp, x: U64, y: U64) {
    if op.Eq? then x == y
    else if op.Ne? then x != y
    else if IsSigned(op) then Compare(Ord(op), Signed64(x), Signed64(y))
    else Compare(Ord(op), x, y)
  }

  // ── Refinement of one interval family ────────────────────────────────────

  /** An interval family: the words of one signedness, with wrapping ±1. */
  datatype Family = Family(min: int, max: int) {
    function Next(z: int): int { if z == max then min else z + 1 }

    function Prev(z: int): int { if z == min then max else z - 1 }

    ghost predicate Holds(z: int) { min <= z <= max }
  }

  const SIGNED_WORDS := Family(I64_MIN, I64_MAX)
  const UNSIGNED_WORDS := Family(0, U64_MAX)

  type Range = (int, int)

  /** ((true dst, true src), (false dst, false src)) */
  function RefineOrdered(f: Family, op: OrdOp, dst: Range, src: Range): ((Range, Range), (Range, Range)) {
    match op
    case Gt =>
      (((Max(dst.0, f.Next(src.0)), dst.1), (src.0, Min(src.1, f.Prev(dst.1)))),
       ((dst.0, Min(dst.1, src.1)), (Max(src.0, dst.0), src.1)))
    case Ge =>
      (((Max(dst.0, src.0), dst.1), (src.0, Min(src.1, dst.1))),
       ((dst.0, Min(dst.1, f.Prev(src.0))), (Max(src.0, f.Next(dst.0)), src.1)))
    case Lt =>
      (((dst.0, Min(dst.1, f.Prev(src.1))), (Max(src.0, f.Next(dst.0)), src.1)),
       ((Max(dst.0, src.0), dst.1), (src.0, Min(src.1, dst.1))))
    case Le =>
      (((dst.0, Min(dst.1, src.1)), (Max(src.0, dst.0), src.1)),
       ((Max(dst.0, f.Next(src.0)), dst.1), (src.0, Min(src.1, f.Prev(dst.1)))))
  }

  predicate InRange(r: Range, z: int) { r.0 <= z <= r.1 }

  ghost predicate WithinFamily(f: Family, r: Range) { f.Holds(r.0) && f.Holds(r.1) }

  /** The fall-through rule of `dst >= src` lowers dst below src's LEAST value
      although it is only known to be below some value of src. It loses nothing
      exactly when no dst value lies in [src.0, src.1), or src.0 - 1 wraps. */
  predicate GeFallOk(f: Family, dst: Range, src: Range) {
    src.0 == f.min || src.0 >= src.1 || dst.1 < src.0 || dst.0 >= src.1
  }

  predicate OrderGuard(f: Family, op: OrdOp, taken: bool, dst: Range, src: Range) {
    op.Ge? && !taken ==> GeFallOk(f, dst, src)
  }

  ghost predicate KeepsPair(f: Family, op: OrdOp, dst: Range, src: Range, a: int, b: int) {
    var r := RefineOrdered(f, op, dst, src);
    var side := if Compare(op, a, b) then r.0 else r.1;
    InRange(side.0, a) && InRange(side.1, b)
  }

  /** The side of the branch actually taken keeps the pair, also where an
      endpoint wraps. */
  lemma RefineOrderedSound(f: Family, op: OrdOp, dst: Range, src: Range, a: int, b: int)
    requires WithinFamily(f, dst) && WithinFamily(f, src)
    requires InRange(dst, a) && InRange(src, b)
    requires OrderGuard(f, op, Compare(op, a, b), dst, src)
    ensures KeepsPair(f, op, dst, src, a, b)
  {
  }

  /** Exact condition of the fall-through rule of `>=`. */
  lemma GeFallExact(f: Family, dst: Range, src: Range)
    requires WithinFamily(f, dst) && WithinFamily(f, src) && dst.0 <= dst.1 && src.0 <= src.1
    ensures GeFallOk(f, dst, src) <==>
            forall a: int, b: int :: InRange(dst, a) && InRange(src, b) && a < b ==> KeepsPair(f, Ge, dst, src, a, b)
  {
    if !GeFallOk(f, dst, src) {
      var a := Max(dst.0, src.0);
      assert InRange(dst, a) && InRange(src, src.1) && a < src.1;
      assert !KeepsPair(f, Ge, dst, src, a, src.1);
    } else {
      forall a: int, b: int | InRange(dst, a) && InRange(src, b) && a < b
        ensures KeepsPair(f, Ge, dst, src, a, b)
      {
        RefineOrderedSound(f, Ge, dst, src, a, b);
      }
    }
  }

  /** A concrete failure: with r1 in [0, 10] and r2 in [5, 10] the pair (7, 9)
      falls through `r1 >= r2`, where r1 is refined to [0, 4]. */
  lemma GeFallCounterexample()
    ensures !KeepsPair(UNSIGNED_WORDS, Ge, (0, 10), (5, 10), 7, 9)
    ensures RefineOrdered(UNSIGNED_WORDS, Ge, (0, 10), (5, 10)).1.0 == (0, 4)
  {
  }

  lemma RefineOrderedFits(f: Family, op: OrdOp, dst: Range, src: Range)
    requires WithinFamily(f, dst) && WithinFamily(f, src)
    ensures var r := RefineOrdered(f, op, dst, src);
            WithinFamily(f, r.0.0) && WithinFamily(f, r.0.1) && WithinFamily(f, r.1.0) && WithinFamily(f, r.1.1)
  {
  }

  // ── Refinement of bounds ─────────────────────────────────────────────────

  type Pair = (Bounds, Bounds)

  function WithSigned(b: Bounds, r: Range): Bounds
    requires WithinFamily(SIGNED_WORDS, r)
  {
    b.(smin := r.0, smax := r.1)
  }

  function WithUnsigned(b: Bounds, r: Range): Bounds
    requires WithinFamily(UNSIGNED_WORDS, r)
  {
    b.(umin := r.0, umax := r.1)
  }

  function Meet(dst: Bounds, src: Bounds): Bounds {
    Bounds(Max(dst.smin, src.smin), Min(dst.smax, src.smax), Max(dst.umin, src.umin), Min(dst.umax, src.umax),
           0, U32_MAX, dst.tnum.Intersect(src.tnum), 0, 0).Synced()
  }

  /** a without the value c, where one interval still represents it. */
  function ExcludeInterval(f: Family, a: Range, c: int): Range {
    if c <= a.0 && c >= a.1 then (f.max, f.min)
    else if c <= a.0 then (f.Next(c), a.1)
    else if c >= a.1 then (a.0, f.Prev(c))
    else a
  }

  function ExcludeBounds(a: Bounds, b: Bounds): Bounds {
    if !b.IsConstant() then a else
      var s := ExcludeInterval(SIGNED_WORDS, a.SRange(), b.smin);
      var u := ExcludeInterval(UNSIGNED_WORDS, a.URange(), b.umin);
      Bounds(s.0, s.1, u.0, u.1, 0, U32_MAX, a.tnum, 0, 0)
  }

  /** (true branch, false branch), each (dst, src). */
  function RefineCmp(op: CondOp, dst: Bounds, src: Bounds): (Pair, Pair) {
    if op.Eq? then
      ((Meet(dst, src), Meet(dst, src)),
       (ExcludeBounds(dst, src).Synced(), ExcludeBounds(src, dst).Synced()))
    else if op.Ne? then
      ((ExcludeBounds(dst, src).Synced(), ExcludeBounds(src, dst).Synced()),
       (Meet(dst, src), Meet(dst, src)))
    else if IsSigned(op) then
      RefineOrderedFits(SIGNED_WORDS, Ord(op), dst.SRange(), src.SRange());
      var r := RefineOrdered(SIGNED_WORDS, Ord(op), dst.SRange(), src.SRange());
      ((WithSigned(dst, r.0.0).Synced(), WithSigned(src, r.0.1).Synced()),
       (WithSigned(dst, r.1.0).Synced(), WithSigned(src, r.1.1).Synced()))
    else
      RefineOrderedFits(UNSIGNED_WORDS, Ord(op), dst.URange(), src.URange());
      var r := RefineOrdered(UNSIGNED_WORDS, Ord(op), dst.URange(), src.URange());
      ((WithUnsigned(dst, r.0.0).Synced(), WithUnsigned(src, r.0.1).Synced()),
       (WithUnsigned(dst, r.1.0).Synced(), WithUnsigned(src, r.1.1).Synced()))
  }

  ghost predicate GammaPair(p: Pair, x: U64, y: U64) {
    && Gamma(p.0, x) && p.0.tnum.Wf()
    && Gamma(p.1, y) && p.1.tnum.Wf()
  }

  lemma MeetSound(dst: Bounds, src: Bounds, x: U64)
    requires Gamma(dst, x) && Gamma(src, x) && dst.tnum.Wf() && src.tnum.Wf()
    ensures Gamma(Meet(dst, src), x) && Meet(dst, src).tnum.Wf()
  {
    hide Tnum.Contains, Tnum.Wf, Tnum.Intersect, Bounds.Synced;
    IntersectIsMeet(dst.tnum, src.tnum, x);
    SyncedSound(Bounds(Max(dst.smin, src.smin), Min(dst.smax, src.smax), Max(dst.umin, src.umin),
                       Min(dst.umax, src.umax), 0, U32_MAX, dst.tnum.Intersect(src.tnum), 0, 0), x);
  }

  lemma ExcludeIntervalSound(f: Family, a: Range, c: int, z: int)
    requires WithinFamily(f, a) && InRange(a, z) && z != c
    ensures InRange(ExcludeInterval(f, a, c), z)
  {
  }

  lemma ExcludeSound(a: Bounds, b: Bounds, x: U64, y: U64)
    requires Gamma(a, x) && Gamma(b, y) && a.tnum.Wf() && x != y
    ensures Gamma(ExcludeBounds(a, b).Synced(), x) && ExcludeBounds(a, b).Synced().tnum.Wf()
  {
    hide Tnum.Contains, Tnum.Wf, Bounds.Synced;
    if b.IsConstant() {
      ExcludeIntervalSound(SIGNED_WORDS, a.SRange(), b.smin, Signed64(x));
      ExcludeIntervalSound(UNSIGNED_WORDS, a.URange(), b.umin, x);
    }
    SyncedSound(ExcludeBounds(a, b), x);
  }

  /** What a caller can check before trusting the refinement. */
  predicate RefineGuard(op: CondOp, taken: bool, dst: Bounds, src: Bounds) {
    && (op.Uge? && !taken ==> GeFallOk(UNSIGNED_WORDS, dst.URange(), src.URange()))
    && (op.Sge? && !taken ==> GeFallOk(SIGNED_WORDS, dst.SRange(), src.SRange()))
  }

  lemma OrderedSound(op: CondOp, dst: Bounds, src: Bounds, x: U64, y: U64)
    requires !op.Eq? && !op.Ne?
    requires GammaPair((dst, src), x, y) && RefineGuard(op, Taken(op, x, y), dst, src)
    ensures var r := RefineCmp(op, dst, src);
            GammaPair(if Taken(op, x, y) then r.0 else r.1, x, y)
  {
    hide Tnum.Contains, Tnum.Wf, Bounds.Synced, RefineOrdered, GeFallOk;
    if IsSigned(op) {
      var f, ord := SIGNED_WORDS, Ord(op);
      RefineOrderedFits(f, ord, dst.SRange(), src.SRange());
      RefineOrderedSound(f, ord, dst.SRange(), src.SRange(), Signed64(x), Signed64(y));
      var r := RefineOrdered(f, ord, dst.SRange(), src.SRange());
      var side := if Compare(ord, Signed64(x), Signed64(y)) then r.0 else r.1;
      SyncedSound(WithSigned(dst, side.0), x);
      SyncedSound(WithSigned(src, side.1), y);
    } else {
      var f, ord := UNSIGNED_WORDS, Ord(op);
      RefineOrderedFits(f, ord, dst.URange(), src.URange());
      RefineOrderedSound(f, ord, dst.URange(), src.URange(), x, y);
      var r := RefineOrdered(f, ord, dst.URange(), src.URange());
      var side := if Compare(ord, x, y) then r.0 else r.1;
      SyncedSound(WithUnsigned(dst, side.0), x);
      SyncedSound(WithUnsigned(src, side.1), y);
    }
  }

  /** For all ten comparisons the refined pair of the side actually taken still
      contains both concrete values. */
  lemma RefineSound(op: CondOp, dst: Bounds, src: Bounds, x: U64, y: U64)
    requires GammaPair((dst, src), x, y) && RefineGuard(op, Taken(op, x, y), dst, src)
    ensures var r := RefineCmp(op, dst, src);
            GammaPair(if Taken(op, x, y) then r.0 else r.1, x, y)
  {
    hide Tnum.Contains, Tnum.Wf, Bounds.Synced, Meet, ExcludeBounds, Gamma, GeFallOk;
    if !op.Eq? && !op.Ne? {
      OrderedSound(op, dst, src, x, y);
    } else if x == y {
      MeetSound(dst, src, x);
    } else {
      ExcludeSound(dst, src, x, y);
      ExcludeSound(src, dst, y, x);
    }
  }

  lemma SyncedLink(b: Bounds)
    ensures b.Synced().id == b.id && b.Synced().delta == b.delta
  {
    hide Tnum.Intersect, FromRange;
  }

  /** Refinement keeps the link of an operand or drops it. */
  lemma RefineLinks(op: CondOp, dst: Bounds, src: Bounds, taken: bool)
    ensures var r := RefineCmp(op, dst, src);
            var side := if taken then r.0 else r.1;
            && ((side.0.id == dst.id && side.0.delta == dst.delta) || side.0.id == 0 == side.0.delta)
            && ((side.1.id == src.id && side.1.delta == src.delta) || side.1.id == 0 == side.1.delta)
  {
    hide Tnum.Intersect, FromRange, RefineOrdered, ExcludeInterval, Bounds.Synced;
    forall b: Bounds
      ensures b.Synced().id == b.id && b.Synced().delta == b.delta
    {
      SyncedLink(b);
    }
  }

  // ── Static verdicts ──────────────────────────────────────────────────────

  datatype Verdict = AlwaysTaken | AlwaysNotTaken | Undecided

  function OrderedVerdict(op: OrdOp, dst: Range, src: Range): Verdict {
    match op
    case Gt => if dst.0 > src.1 then AlwaysTaken else if dst.1 <= src.0 then AlwaysNotTaken else Undecided
    case Ge => if dst.0 >= src.1 then AlwaysTaken else if dst.1 < src.0 then AlwaysNotTaken else Undecided
    case Lt => if dst.1 < src.0 then AlwaysTaken else if dst.0 >= src.1 then AlwaysNotTaken else Undecided
    case Le => if dst.1 <= src.0 then AlwaysTaken else if dst.0 > src.1 then AlwaysNotTaken else Undecided
  }

  predicate RangesDisjoint(a: Range, b: Range) { a.1 < b.0 || a.0 > b.1 }

  predicate SameConstant(dst: Bounds, src: Bounds) {
    dst.IsConstant() && src.IsConstant() && dst.smin == src.smin && dst.umin == src.umin
  }

  predicate SurelyDifferent(dst: Bounds, src: Bounds) {
    RangesDisjoint(dst.SRange(), src.SRange()) || RangesDisjoint(dst.URange(), src.URange())
  }

  function IsBranchTaken(op: CondOp, dst: Bounds, src: Bounds): Verdict {
    if op.Eq? then
      if SameConstant(dst, src) then AlwaysTaken
      else if SurelyDifferent(dst, src) then AlwaysNotTaken else Undecided
    else if op.Ne? then
      if SameConstant(dst, src) then AlwaysNotTaken
      else if SurelyDifferent(dst, src) then AlwaysTaken else Undecided
    else if IsSigned(op) then OrderedVerdict(Ord(op), dst.SRange(), src.SRange())
    else OrderedVerdict(Ord(op), dst.URange(), src.URange())
  }

  /** A static verdict is right for every pair of members, so the side a
      concrete execution takes is never pruned. */
  lemma VerdictSound(op: CondOp, dst: Bounds, src: Bounds, x: U64, y: U64)
    requires Gamma(dst, x) && Gamma(src, y)
    ensures IsBranchTaken(op, dst, src).AlwaysTaken? ==> Taken(op, x, y)
    ensures IsBranchTaken(op, dst, src).AlwaysNotTaken? ==> !Taken(op, x, y)
  {
    hide Tnum.Contains;
  }

  /** On intervals the ordered verdict is also complete: an undecided comparison
      has members on both sides. */
  lemma OrderedVerdictComplete(op: OrdOp, dst: Range, src: Range)
    requires dst.0 <= dst.1 && src.0 <= src.1
    ensures OrderedVerdict(op, dst, src).AlwaysTaken? <==>
            forall a: int, b: int :: InRange(dst, a) && InRange(src, b) ==> Compare(op, a, b)
    ensures OrderedVerdict(op, dst, src).AlwaysNotTaken? <==>
            forall a: int, b: int :: InRange(dst, a) && InRange(src, b) ==> !Compare(op, a, b)
  {
    assert InRange(dst, dst.0) && InRange(dst, dst.1) && InRange(src, src.0) && InRange(src, src.1);
  }

  // ── JSET ─────────────────────────────────────────────────────────────────

  datatype Tri = Yes | No | Both

  /** `jset_verdict`: `if (dst & src) != 0` */
  function JsetVerdict(dst: Bounds, src: Bounds): Tri {
    if dst.IsConstant() && src.IsConstant() then
      (if And64(dst.umin, src.umin) != 0 then Yes else No)
    else if And64(dst.tnum.KnownOnes(), src.tnum.KnownOnes()) != 0 then Yes
    else if And64(Or64(dst.tnum.value, dst.tnum.mask), Or64(src.tnum.value, src.tnum.mask)) == 0 then No
    else Both
  }

  ghost predicate NoCommonBit(x: U64, y: U64) {
    forall k: nat :: k < 64 ==> !(Bit(x, k) && Bit(y, k))
  }

  lemma AndZeroBits(x: U64, y: U64)
    ensures And64(x, y) == 0 <==> NoCommonBit(x, y)
  {
    hide Bit, Bits.And;
    BitsOfZero();
    forall k: nat
      ensures Bit(And64(x, y), k) == (Bit(x, k) && Bit(y, k))
    {
      BitAnd(x, y, k);
    }
    if NoCommonBit(x, y) {
      Extensional64(And64(x, y), 0);
    }
  }

  lemma KnownOnesSound(t: Tnum, x: U64, k: nat)
    requires t.Contains(x) && k < 64
    ensures Bit(t.KnownOnes(), k) ==> Bit(x, k)
    ensures Bit(x, k) ==> Bit(Or64(t.value, t.mask), k)
  {
    ContainsIsAgreement(t, x);
    BitMasked(t.value, t.mask, k);
    BitOr(t.value, t.mask, k);
  }

  lemma JsetVerdictSound(dst: Bounds, src: Bounds, x: U64, y: U64)
    requires Gamma(dst, x) && Gamma(src, y)
    ensures JsetVerdict(dst, src).Yes? ==> And64(x, y) != 0
    ensures JsetVerdict(dst, src).No? ==> And64(x, y) == 0
  {
    hide Bit, Tnum.Contains, Tnum.KnownOnes, And64, Or64;
    if dst.IsConstant() && src.IsConstant() {
      ConstantMember(dst, x);
      ConstantMember(src, y);
    } else {
      AndZeroBits(x, y);
      AndZeroBits(dst.tnum.KnownOnes(), src.tnum.KnownOnes());
      AndZeroBits(Or64(dst.tnum.value, dst.tnum.mask), Or64(src.tnum.value, src.tnum.mask));
      forall k: nat | k < 64
        ensures Bit(dst.tnum.KnownOnes(), k) ==> Bit(x, k)
        ensures Bit(x, k) ==> Bit(Or64(dst.tnum.value, dst.tnum.mask), k)
        ensures Bit(src.tnum.KnownOnes(), k) ==> Bit(y, k)
        ensures Bit(y, k) ==> Bit(Or64(src.tnum.value, src.tnum.mask), k)
      {
        KnownOnesSound(dst.tnum, x, k);
        KnownOnesSound(src.tnum, y, k);
      }
    }
  }

  /** When the tested bits are all clear, masking with their complement is the
      identity. */
  lemma ClearedIsIdentity(x: U64, y: U64)
    requires And64(x, y) == 0
    ensures And64(x, Not64(y)) == x
  {
    hide Bit, Bits.And;
    AndZeroBits(x, y);
    forall k: nat | k < 64
      ensures Bit(And64(x, Not64(y)), k) == Bit(x, k)
    {
      BitMasked(x, y, k);
    }
    Extensional64(And64(x, Not64(y)), x);
  }
}
