/** The tracked-number domain of `src/tnum.rs`: `value` holds the known bits and
    `mask` the unknown ones. */
module TnumDomain {
  import opened Words
  import opened Bits

  /** The number of significant bits: `64 - x.leading_zeros()`. */
  function BitLen(x: nat): (n: nat)
    ensures x < Pow2(n)
    ensures n > 0 ==> Pow2(n - 1) <= x
    ensures n == 0 <==> x == 0
  {
    if x == 0 then 0 else 1 + BitLen(x / 2)
  }

  /** `x.checked_shl(k).unwrap_or(0)` */
  function Shl(x: U64, k: nat): U64 { if k >= 64 then 0 else Wrap64(x * Pow2(k)) }

  /** `x.checked_shr(k).unwrap_or(0)` */
  function Shr(x: U64, k: nat): U64 {
    if k >= 64 then 0 else
      ShrBound(x, k);
      x / Pow2(k)
  }

  /** `(x as i64) >> k`, sign-filled when k is 64 or more. */
  function Sar(x: U64, k: nat): U64 {
    if k >= 64 then (if Signed64(x) < 0 then U64_MAX else 0) else Wrap64(Signed64(x) / Pow2(k))
  }

  lemma ShrBound(x: nat, k: nat)
    ensures 0 <= x / Pow2(k) <= x
  {
    DivMono(0, x, Pow2(k));
    DivUnique(0, Pow2(k), 0, 0);
    MulMono(1, Pow2(k), x / Pow2(k));
  }

  datatype Tnum = Tnum(value: U64, mask: U64) {
    /** No bit is both known-one and unknown. */
    predicate Wf() { And(value, mask) == 0 }

    /** `tnum_contains`: the known bits of x match. */
    predicate Contains(x: U64) { And64(x, Not64(mask)) == And64(value, Not64(mask)) }

    predicate IsConstant() { mask == 0 }

    function KnownOnes(): U64 { And64(value, Not64(mask)) }

    function Add(other: Tnum): Tnum {
      var sm := Wrap64(mask + other.mask);
      var sv := Wrap64(value + other.value);
      var sigma := Wrap64(sm + sv);
      var chi := Xor64(sigma, sv);
      var mu := Or64(Or64(chi, mask), other.mask);
      Tnum(And64(sv, Not64(mu)), mu)
    }

    function Sub(other: Tnum): Tnum {
      var dv := Wrap64(value - other.value);
      var alpha := Wrap64(dv + mask);
      var beta := Wrap64(dv - other.mask);
      var chi := Xor64(alpha, beta);
      var mu := Or64(Or64(chi, mask), other.mask);
      Tnum(And64(dv, Not64(mu)), mu)
    }

    function BitXor(other: Tnum): Tnum {
      var v := Xor64(value, other.value);
      var mu := Or64(mask, other.mask);
      Tnum(And64(v, Not64(mu)), mu)
    }

    function BitAnd(other: Tnum): Tnum {
      var alpha := Or64(value, mask);
      var beta := Or64(other.value, other.mask);
      var v := And64(value, other.value);
      Tnum(v, Xor64(And64(alpha, beta), v))
    }

    function BitOr(other: Tnum): Tnum {
      var knownOne := Or64(KnownOnes(), other.KnownOnes());
      var knownZero := And64(And64(Not64(value), Not64(mask)), And64(Not64(other.value), Not64(other.mask)));
      Tnum(knownOne, Not64(Or64(knownOne, knownZero)))
    }

    function LShift(k: nat): Tnum { Tnum(Shl(value, k), Shl(mask, k)) }

    function RShift(k: nat): Tnum { Tnum(Shr(value, k), Shr(mask, k)) }

    function ArShift(k: nat): Tnum { Tnum(Sar(value, k), Sar(mask, k)) }

    function Subreg(): Tnum { Tnum(value % TWO32, mask % TWO32) }

    function Union(other: Tnum): Tnum {
      var mu := Or64(Or64(Xor64(value, other.value), mask), other.mask);
      Tnum(And64(And64(value, other.value), Not64(mu)), mu)
    }

    function Intersect(other: Tnum): Tnum {
      var mu := And64(mask, other.mask);
      Tnum(And64(Or64(value, other.value), Not64(mu)), mu)
    }

    predicate Subsumes(other: Tnum) {
      && And64(other.mask, Not64(mask)) == 0
      && And64(other.value, Not64(mask)) == And64(value, Not64(mask))
    }
  }

  function Constant(value: U64): Tnum { Tnum(value, 0) }

  function Unknown(): Tnum { Tnum(0, U64_MAX) }

  /** The smallest tnum covering the u64 interval [min, max]. */
  function FromRange(min: U64, max: U64): Tnum {
    var chi := Xor64(min, max);
    if chi == 0 then Constant(min) else
      var bits := BitLen(chi);
      LenBound(chi);
      var mask: U64 := if bits == 64 then U64_MAX else Pow2(bits) - 1;
      Tnum(And64(min, Not64(mask)), mask)
  }

  lemma LenBound(x: U64)
    ensures BitLen(x) <= 64 && Pow2(BitLen(x)) <= TWO64
  {
    Pow2Words();
    if BitLen(x) > 64 {
      Pow2Mono(64, BitLen(x) - 1);
    } else {
      Pow2Mono(BitLen(x), 64);
    }
  }

  // ── The domain read bit by bit ───────────────────────────────────────────

  /** Bit k of the value is known. */
  ghost predicate Known(t: Tnum, k: nat) { !Bit(t.mask, k) }

  ghost predicate Agrees(t: Tnum, x: U64) {
    forall k: nat :: k < 64 && Known(t, k) ==> Bit(x, k) == Bit(t.value, k)
  }

  ghost predicate Disjoint(t: Tnum) {
    forall k: nat :: k < 64 ==> !(Bit(t.value, k) && Bit(t.mask, k))
  }

  lemma BitMasked(x: U64, mask: U64, k: nat)
    requires k < 64
    ensures Bit(And64(x, Not64(mask)), k) == (Bit(x, k) && !Bit(mask, k))
  {
    BitNot64(mask, k);
    BitAnd(x, Not64(mask), k);
  }

  /** Membership is agreement on every known bit. */
  lemma ContainsIsAgreement(t: Tnum, x: U64)
    ensures t.Contains(x) <==> Agrees(t, x)
  {
    forall k: nat | k < 64
      ensures Bit(And64(x, Not64(t.mask)), k) == (Bit(x, k) && Known(t, k))
      ensures Bit(And64(t.value, Not64(t.mask)), k) == (Bit(t.value, k) && Known(t, k))
    {
      BitMasked(x, t.mask, k);
      BitMasked(t.value, t.mask, k);
    }
    if Agrees(t, x) {
      Extensional64(And64(x, Not64(t.mask)), And64(t.value, Not64(t.mask)));
    }
  }

  lemma WfIsDisjoint(t: Tnum)
    ensures t.Wf() <==> Disjoint(t)
  {
    forall k: nat | k < 64
      ensures Bit(And64(t.value, t.mask), k) == (Bit(t.value, k) && Bit(t.mask, k)) && !Bit(0, k)
    {
      BitAnd(t.value, t.mask, k);
      BitZero(k);
    }
    if Disjoint(t) {
      Extensional64(And64(t.value, t.mask), 0);
    }
  }

  /** The known value and the value with every unknown bit set are members. */
  lemma Extremes(t: Tnum)
    requires t.Wf()
    ensures t.Contains(t.value)
    ensures t.value + t.mask < TWO64 && t.Contains(t.value + t.mask)
    ensures t.value + t.mask == Or64(t.value, t.mask)
  {
    AddDisjoint(t.value, t.mask);
    assert t.value + t.mask == Or64(t.value, t.mask);
    forall k: nat | k < 64 && Known(t, k)
      ensures Bit(t.value + t.mask, k) == Bit(t.value, k)
    {
      BitOr(t.value, t.mask, k);
    }
    ContainsIsAgreement(t, t.value);
    ContainsIsAgreement(t, t.value + t.mask);
  }

  /** Setting one unknown bit in the known value gives another member. */
  lemma FlipUnknown(t: Tnum, k: nat)
    requires t.Wf() && k < 64 && Bit(t.mask, k)
    ensures t.value + Pow2(k) < TWO64 && t.Contains(t.value + Pow2(k))
    ensures forall j: nat :: j < 64 ==> Bit(t.value + Pow2(k), j) == (Bit(t.value, j) || j == k)
  {
    hide Bit, Tnum.Contains, Tnum.Wf, And, Or;
    Pow2Words();
    Pow2Mono(k + 1, 64);
    WfIsDisjoint(t);
    var p := Pow2(k);
    assert p < TWO64;
    forall j: nat | j < 64
      ensures Bit(And64(t.value, p), j) == Bit(0, j)
    {
      BitAnd(t.value, p, j);
      BitPow2(k, j);
      BitZero(j);
    }
    Extensional64(And64(t.value, p), 0);
    AddDisjoint(t.value, p);
    assert t.value + p == Or64(t.value, p);
    forall j: nat | j < 64
      ensures Bit(t.value + p, j) == (Bit(t.value, j) || j == k)
    {
      BitOr(t.value, p, j);
      BitPow2(k, j);
    }
    ContainsIsAgreement(t, t.value + p);
  }

  // ── Order, union, intersection ───────────────────────────────────────────

  lemma SubsumesBits(a: Tnum, b: Tnum)
    ensures a.Subsumes(b) <==>
            forall k: nat :: k < 64 && Known(a, k) ==> Known(b, k) && Bit(b.value, k) == Bit(a.value, k)
  {
    forall k: nat | k < 64
      ensures Bit(And64(b.mask, Not64(a.mask)), k) == (Bit(b.mask, k) && Known(a, k)) && !Bit(0, k)
      ensures Bit(And64(b.value, Not64(a.mask)), k) == (Bit(b.value, k) && Known(a, k))
      ensures Bit(And64(a.value, Not64(a.mask)), k) == (Bit(a.value, k) && Known(a, k))
    {
      BitMasked(b.mask, a.mask, k);
      BitMasked(b.value, a.mask, k);
      BitMasked(a.value, a.mask, k);
      BitZero(k);
    }
    if forall k: nat :: k < 64 && Known(a, k) ==> Known(b, k) && Bit(b.value, k) == Bit(a.value, k) {
      Extensional64(And64(b.mask, Not64(a.mask)), 0);
      Extensional64(And64(b.value, Not64(a.mask)), And64(a.value, Not64(a.mask)));
    }
  }

  /** `subsumes` decides inclusion of the member sets exactly. */
  lemma SubsumesIsInclusion(a: Tnum, b: Tnum)
    requires b.Wf()
    ensures a.Subsumes(b) <==> forall x: U64 :: b.Contains(x) ==> a.Contains(x)
  {
    SubsumesBits(a, b);
    if a.Subsumes(b) {
      forall x: U64 | b.Contains(x)
        ensures a.Contains(x)
      {
        ContainsIsAgreement(a, x);
        ContainsIsAgreement(b, x);
      }
    }
    if forall x: U64 :: b.Contains(x) ==> a.Contains(x) {
      Extremes(b);
      ContainsIsAgreement(a, b.value);
      forall k: nat | k < 64 && Known(a, k)
        ensures Known(b, k)
      {
        if !Known(b, k) {
          FlipUnknown(b, k);
          ContainsIsAgreement(a, b.value + Pow2(k));
          WfIsDisjoint(b);
        }
      }
    }
  }

  lemma UnionBits(a: Tnum, b: Tnum, k: nat)
    requires k < 64
    ensures Known(a.Union(b), k) == (Known(a, k) && Known(b, k) && Bit(a.value, k) == Bit(b.value, k))
    ensures Known(a.Union(b), k) ==> Bit(a.Union(b).value, k) == Bit(a.value, k)
    ensures Bit(a.Union(b).value, k) ==> Known(a.Union(b), k)
  {
    BitXor(a.value, b.value, k);
    BitOr(Xor64(a.value, b.value), a.mask, k);
    BitOr(Or64(Xor64(a.value, b.value), a.mask), b.mask, k);
    BitAnd(a.value, b.value, k);
    BitMasked(And64(a.value, b.value), a.Union(b).mask, k);
  }

  /** The union is the least tnum above both operands. */
  lemma UnionIsLeast(a: Tnum, b: Tnum)
    requires a.Wf() && b.Wf()
    ensures a.Union(b).Wf() && a.Union(b).Subsumes(a) && a.Union(b).Subsumes(b)
    ensures forall t: Tnum :: t.Subsumes(a) && t.Subsumes(b) ==> t.Subsumes(a.Union(b))
  {
    var u := a.Union(b);
    forall k: nat | k < 64
      ensures Known(u, k) == (Known(a, k) && Known(b, k) && Bit(a.value, k) == Bit(b.value, k))
      ensures Known(u, k) ==> Bit(u.value, k) == Bit(a.value, k)
      ensures Bit(u.value, k) ==> Known(u, k)
    {
      UnionBits(a, b, k);
    }
    WfIsDisjoint(u);
    SubsumesBits(u, a);
    SubsumesBits(u, b);
    forall t: Tnum | t.Subsumes(a) && t.Subsumes(b)
      ensures t.Subsumes(u)
    {
      SubsumesBits(t, a);
      SubsumesBits(t, b);
      SubsumesBits(t, u);
    }
  }

  lemma IntersectBits(a: Tnum, b: Tnum, k: nat)
    requires k < 64
    ensures Known(a.Intersect(b), k) == (Known(a, k) || Known(b, k))
    ensures Bit(a.Intersect(b).value, k) == ((Bit(a.value, k) || Bit(b.value, k)) && Known(a.Intersect(b), k))
  {
    BitAnd(a.mask, b.mask, k);
    BitOr(a.value, b.value, k);
    BitMasked(Or64(a.value, b.value), a.Intersect(b).mask, k);
  }

  /** The intersection keeps every common member, and holds nothing else as
      soon as there is one. */
  lemma IntersectIsMeet(a: Tnum, b: Tnum, x: U64)
    requires a.Wf() && b.Wf() && a.Contains(x) && b.Contains(x)
    ensures a.Intersect(b).Wf() && a.Intersect(b).Contains(x)
    ensures forall y: U64 :: a.Intersect(b).Contains(y) ==> a.Contains(y) && b.Contains(y)
  {
    var c := a.Intersect(b);
    ContainsIsAgreement(a, x);
    ContainsIsAgreement(b, x);
    ContainsIsAgreement(c, x);
    WfIsDisjoint(a);
    WfIsDisjoint(b);
    WfIsDisjoint(c);
    forall k: nat | k < 64
      ensures Known(c, k) == (Known(a, k) || Known(b, k))
      ensures Bit(c.value, k) == ((Bit(a.value, k) || Bit(b.value, k)) && Known(c, k))
      ensures Known(c, k) ==> Bit(x, k) == Bit(c.value, k)
    {
      IntersectBits(a, b, k);
    }
    forall y: U64 | c.Contains(y)
      ensures a.Contains(y) && b.Contains(y)
    {
      ContainsIsAgreement(c, y);
      forall k: nat | k < 64
        ensures Known(a, k) ==> Bit(y, k) == Bit(a.value, k)
        ensures Known(b, k) ==> Bit(y, k) == Bit(b.value, k)
      {
        assert Known(a, k) ==> Bit(x, k) == Bit(a.value, k);
        assert Known(b, k) ==> Bit(x, k) == Bit(b.value, k);
      }
      ContainsIsAgreement(a, y);
      ContainsIsAgreement(b, y);
    }
  }
}
