/** Soundness and optimality of the tnum operations: for members x of a and y of
    b the concrete result is a member of the abstract one, and addition,
    subtraction and `from_range` return the least tnum with that property. */
module TnumSound {
  import opened Words
  import opened Bits
  import opened TnumDomain

  // ── Carries ──────────────────────────────────────────────────────────────

  /** `lo`, `x`, `hi` agree on every bit outside `mask` and are ordered on the rest. */
  ghost predicate Between(lo: int, x: int, hi: int, mask: int, n: nat) {
    forall k: nat :: k < n ==>
      && (Bit(lo, k) ==> Bit(x, k)) && (Bit(x, k) ==> Bit(hi, k))
      && (!Bit(mask, k) ==> Bit(lo, k) == Bit(hi, k))
  }

  lemma BetweenPrefix(lo: int, x: int, hi: int, mask: int, n: nat, m: nat)
    requires m <= n && Between(lo, x, hi, mask, n)
    ensures Between(lo, x, hi, mask, m)
  {
    hide Bit;
  }

  lemma BetweenTail(lo: int, x: int, hi: int, mask: int, n: nat)
    requires n > 0 && Between(lo, x, hi, mask, n)
    ensures Between(lo / 2, x / 2, hi / 2, mask / 2, n - 1)
    ensures Bit(lo, 0) ==> Bit(x, 0)
    ensures Bit(x, 0) ==> Bit(hi, 0)
    ensures !Bit(mask, 0) ==> Bit(lo, 0) == Bit(hi, 0)
  {
    forall k: nat | k < n - 1
      ensures (Bit(lo / 2, k) ==> Bit(x / 2, k)) && (Bit(x / 2, k) ==> Bit(hi / 2, k))
      ensures !Bit(mask / 2, k) ==> Bit(lo / 2, k) == Bit(hi / 2, k)
    {
      assert Bit(lo, k + 1) == Bit(lo / 2, k) && Bit(x, k + 1) == Bit(x / 2, k);
      assert Bit(hi, k + 1) == Bit(hi / 2, k) && Bit(mask, k + 1) == Bit(mask / 2, k);
    }
  }

  lemma SumTail(u: int, v: int, c: int) returns (c': int)
    requires 0 <= c <= 1
    ensures 0 <= c' <= 1 && 2 * c' <= u % 2 + v % 2 + c
    ensures u % 2 + v % 2 + c == 2 * c' + (u + v + c) % 2
    ensures (u + v + c) / 2 == u / 2 + v / 2 + c'
  {
    c' := (u % 2 + v % 2 + c) / 2;
  }

  /** The carry chain of a middle sum lies between the least and the greatest
      one: a sum bit on which the extremes agree, at a position where neither
      operand is uncertain, is the bit of every sum. */
  lemma {:induction false} CarryChain(
    u1: int, u2: int, u3: int, v1: int, v2: int, v3: int, mu: int, mv: int,
    c1: int, c2: int, c3: int, k: nat)
    requires 0 <= c1 <= c2 <= c3 <= 1
    requires Between(u1, u2, u3, mu, k + 1) && Between(v1, v2, v3, mv, k + 1)
    requires Bit(u1 + v1 + c1, k) == Bit(u3 + v3 + c3, k) && !Bit(mu, k) && !Bit(mv, k)
    ensures Bit(u2 + v2 + c2, k) == Bit(u1 + v1 + c1, k)
    decreases k
  {
    hide Between;
    BetweenTail(u1, u2, u3, mu, k + 1);
    BetweenTail(v1, v2, v3, mv, k + 1);
    if k != 0 {
      var d1 := SumTail(u1, v1, c1);
      var d2 := SumTail(u2, v2, c2);
      var d3 := SumTail(u3, v3, c3);
      CarryChain(u1 / 2, u2 / 2, u3 / 2, v1 / 2, v2 / 2, v3 / 2, mu / 2, mv / 2, d1, d2, d3, k - 1);
    }
  }

  lemma MemberBetween(t: Tnum, x: U64)
    requires t.Wf() && t.Contains(x)
    ensures Between(t.value, x, t.value + t.mask, t.mask, 64)
  {
    Extremes(t);
    WfIsDisjoint(t);
    ContainsIsAgreement(t, x);
    forall k: nat | k < 64
      ensures Bit(t.value + t.mask, k) == (Bit(t.value, k) || Bit(t.mask, k))
    {
      BitOr(t.value, t.mask, k);
    }
  }

  lemma NegBetween(lo: int, x: int, hi: int, mask: int, n: nat, lo': int, x': int, hi': int)
    requires Between(lo, x, hi, mask, n)
    requires lo' == -1 - hi && x' == -1 - x && hi' == -1 - lo
    ensures Between(lo', x', hi', mask, n)
  {
    hide Bit;
    forall k: nat | k < n
      ensures (Bit(lo', k) ==> Bit(x', k)) && (Bit(x', k) ==> Bit(hi', k))
      ensures !Bit(mask, k) ==> Bit(lo', k) == Bit(hi', k)
    {
      BitNeg(hi, k);
      BitNeg(x, k);
      BitNeg(lo, k);
    }
  }

  // ── Results of the shape `{value: v & !mu, mask: mu}` ────────────────────

  lemma MaskedWf(v: U64, mu: U64)
    ensures Tnum(And64(v, Not64(mu)), mu).Wf()
    ensures forall k: nat :: k < 64 && !Bit(mu, k) ==> Bit(And64(v, Not64(mu)), k) == Bit(v, k)
  {
    forall k: nat | k < 64
      ensures Bit(And64(v, Not64(mu)), k) == (Bit(v, k) && !Bit(mu, k))
    {
      BitMasked(v, mu, k);
    }
    WfIsDisjoint(Tnum(And64(v, Not64(mu)), mu));
  }

  lemma Or3Bits(chi: U64, m: U64, n: U64, k: nat)
    ensures Bit(Or64(Or64(chi, m), n), k) == (Bit(chi, k) || Bit(m, k) || Bit(n, k))
  {
    BitOr(chi, m, k);
    BitOr(Or64(chi, m), n, k);
  }

  // ── Addition ─────────────────────────────────────────────────────────────

  /** `sv` and `sigma` are the least and the greatest sum of members. */
  lemma AddSigma(a: Tnum, b: Tnum, k: nat)
    requires k < 64
    ensures Known(a.Add(b), k) <==>
            && Known(a, k) && Known(b, k)
            && Bit((a.value + a.mask) + (b.value + b.mask), k) == Bit(a.value + b.value, k)
  {
    hide Bit, Wrap64, And64, Or64, Xor, Not64;
    var sv := Wrap64(a.value + b.value);
    var sigma := Wrap64(Wrap64(a.mask + b.mask) + sv);
    SigmaIsGreatest(a, b);
    BitXor(sigma, sv, k);
    Or3Bits(Xor64(sigma, sv), a.mask, b.mask, k);
    BitWrap64(a.value + b.value, k);
    BitWrap64((a.value + a.mask) + (b.value + b.mask), k);
  }

  lemma SigmaIsGreatest(a: Tnum, b: Tnum)
    ensures Wrap64(Wrap64(a.mask + b.mask) + Wrap64(a.value + b.value)) ==
            Wrap64((a.value + a.mask) + (b.value + b.mask))
  {
    WrapAdd(a.mask + b.mask, a.value + b.value);
  }

  /** Every wrapped sum of members is a member of the sum. */
  lemma AddSound(a: Tnum, b: Tnum, x: U64, y: U64)
    requires a.Wf() && b.Wf() && a.Contains(x) && b.Contains(y)
    ensures a.Add(b).Wf() && a.Add(b).Contains(Wrap64(x + y))
  {
    hide Bit, Wrap64, Tnum.Contains, Tnum.Wf, Or64, And64, Xor64, Between;
    var r := a.Add(b);
    var sv := Wrap64(a.value + b.value);
    MaskedWf(sv, r.mask);
    MemberBetween(a, x);
    MemberBetween(b, y);
    forall k: nat | k < 64 && Known(r, k)
      ensures Bit(Wrap64(x + y), k) == Bit(r.value, k)
    {
      AddSigma(a, b, k);
      BitWrap64(x + y, k);
      BitWrap64(a.value + b.value, k);
      BetweenPrefix(a.value, x, a.value + a.mask, a.mask, 64, k + 1);
      BetweenPrefix(b.value, y, b.value + b.mask, b.mask, 64, k + 1);
      CarryChain(a.value, x, a.value + a.mask, b.value, y, b.value + b.mask, a.mask, b.mask, 0, 0, 0, k);
    }
    ContainsIsAgreement(r, Wrap64(x + y));
  }

  ghost predicate CoversSums(t: Tnum, a: Tnum, b: Tnum) {
    forall x: U64, y: U64 :: a.Contains(x) && b.Contains(y) ==> t.Contains(Wrap64(x + y))
  }

  ghost predicate CoversDifferences(t: Tnum, a: Tnum, b: Tnum) {
    forall x: U64, y: U64 :: a.Contains(x) && b.Contains(y) ==> t.Contains(Wrap64(x - y))
  }

  lemma LowBitFlips(q: int)
    ensures Bit(q + 1, 0) != Bit(q, 0) && Bit(q - 1, 0) != Bit(q, 0)
  {
  }

  /** Adding 2^k flips bit k. */
  lemma PlusFlips(z: int, k: nat)
    ensures Bit(z + Pow2(k), k) != Bit(z, k)
    ensures Bit(z - Pow2(k), k) != Bit(z, k)
  {
    hide Pow2, Bit;
    var p := Pow2(k);
    DivPlus(z, p);
    LowBitFlips(z / p);
    BitDiv(z, k, 0);
    BitDiv(z + p, k, 0);
    BitDiv(z - p, k, 0);
  }

  /** A tnum cannot know a bit in which two of its members differ. */
  lemma DifferingMembers(t: Tnum, u: int, v: int, k: nat)
    requires k < 64 && t.Contains(Wrap64(u)) && t.Contains(Wrap64(v))
    ensures Known(t, k) ==> Bit(u, k) == Bit(v, k) == Bit(t.value, k)
  {
    ContainsIsAgreement(t, Wrap64(u));
    ContainsIsAgreement(t, Wrap64(v));
    BitWrap64(u, k);
    BitWrap64(v, k);
  }

  lemma AddOptimalBit(a: Tnum, b: Tnum, t: Tnum, k: nat)
    requires a.Wf() && b.Wf() && CoversSums(t, a, b)
    requires k < 64 && Known(t, k)
    ensures Known(a.Add(b), k) && Bit(a.value + b.value, k) == Bit(t.value, k)
  {
    hide Bit, Tnum.Contains, Tnum.Wf, Tnum.Add;
    Extremes(a);
    Extremes(b);
    AddSigma(a, b, k);
    DifferingMembers(t, a.value + b.value, (a.value + a.mask) + (b.value + b.mask), k);
    PlusFlips(a.value + b.value, k);
    if Bit(a.mask, k) {
      FlipUnknown(a, k);
      DifferingMembers(t, a.value + b.value, a.value + Pow2(k) + b.value, k);
    }
    if Bit(b.mask, k) {
      FlipUnknown(b, k);
      DifferingMembers(t, a.value + b.value, a.value + (b.value + Pow2(k)), k);
    }
  }

  /** Addition is optimal: any tnum that covers all the sums subsumes the result. */
  lemma AddOptimal(a: Tnum, b: Tnum, t: Tnum)
    requires a.Wf() && b.Wf() && CoversSums(t, a, b)
    ensures t.Subsumes(a.Add(b))
  {
    forall k: nat | k < 64 && Known(t, k)
      ensures Known(a.Add(b), k) && Bit(a.Add(b).value, k) == Bit(t.value, k)
    {
      AddOptimalBit(a, b, t, k);
      MaskedWf(Wrap64(a.value + b.value), a.Add(b).mask);
      BitWrap64(a.value + b.value, k);
    }
    SubsumesBits(t, a.Add(b));
  }

  // ── Subtraction ──────────────────────────────────────────────────────────

  /** The differences of members span [alpha, beta]. */
  lemma SubSpan(a: Tnum, b: Tnum, k: nat)
    requires k < 64
    ensures Known(a.Sub(b), k) <==>
            && Known(a, k) && Known(b, k)
            && Bit((a.value + a.mask) - b.value, k) == Bit(a.value - (b.value + b.mask), k)
  {
    var dv := Wrap64(a.value - b.value);
    var alpha := Wrap64(dv + a.mask);
    var beta := Wrap64(dv - b.mask);
    SpanEnds(a, b);
    BitWrap64((a.value + a.mask) - b.value, k);
    BitWrap64(a.value - (b.value + b.mask), k);
    BitXor(alpha, beta, k);
    Or3Bits(Xor64(alpha, beta), a.mask, b.mask, k);
  }

  lemma SpanEnds(a: Tnum, b: Tnum)
    ensures Wrap64(Wrap64(a.value - b.value) + a.mask) == Wrap64((a.value + a.mask) - b.value)
    ensures Wrap64(Wrap64(a.value - b.value) - b.mask) == Wrap64(a.value - (b.value + b.mask))
  {
    WrapAdd(a.value - b.value, a.mask);
    WrapAdd(a.value - b.value, 0 - b.mask);
  }

  /** A difference bit on which the extreme differences agree is common to all. */
  lemma BorrowChain(a: Tnum, b: Tnum, x: U64, y: U64, k: nat)
    requires a.Wf() && b.Wf() && a.Contains(x) && b.Contains(y) && k < 64
    requires Known(a, k) && Known(b, k)
    requires Bit(a.value - (b.value + b.mask), k) == Bit((a.value + a.mask) - b.value, k)
    ensures Bit(x - y, k) == Bit(a.value - (b.value + b.mask), k)
  {
    MemberBetween(a, x);
    MemberBetween(b, y);
    var lo, mid, hi := -1 - (b.value + b.mask), -1 - y, -1 - b.value;
    NegBetween(b.value, y, b.value + b.mask, b.mask, 64, lo, mid, hi);
    CarryChain(a.value, x, a.value + a.mask, lo, mid, hi, a.mask, b.mask, 1, 1, 1, k);
  }

  /** Every wrapped difference of members is a member of the difference. */
  lemma SubSound(a: Tnum, b: Tnum, x: U64, y: U64)
    requires a.Wf() && b.Wf() && a.Contains(x) && b.Contains(y)
    ensures a.Sub(b).Wf() && a.Sub(b).Contains(Wrap64(x - y))
  {
    hide Bit, Wrap64, Tnum.Contains, Tnum.Wf, Or64, And64, Xor64;
    var r := a.Sub(b);
    MaskedWf(Wrap64(a.value - b.value), r.mask);
    Extremes(a);
    Extremes(b);
    forall k: nat | k < 64 && Known(r, k)
      ensures Bit(Wrap64(x - y), k) == Bit(r.value, k)
    {
      SubSpan(a, b, k);
      BitWrap64(x - y, k);
      BitWrap64(a.value - b.value, k);
      BorrowChain(a, b, x, y, k);
      BorrowChain(a, b, a.value, b.value, k);
    }
    ContainsIsAgreement(r, Wrap64(x - y));
  }

  lemma SubOptimalBit(a: Tnum, b: Tnum, t: Tnum, k: nat)
    requires a.Wf() && b.Wf() && CoversDifferences(t, a, b)
    requires k < 64 && Known(t, k)
    ensures Known(a.Sub(b), k) && Bit(a.value - b.value, k) == Bit(t.value, k)
  {
    hide Bit, Tnum.Contains, Tnum.Wf, Tnum.Sub;
    Extremes(a);
    Extremes(b);
    SubSpan(a, b, k);
    DifferingMembers(t, a.value - b.value, (a.value + a.mask) - b.value, k);
    DifferingMembers(t, a.value - b.value, a.value - (b.value + b.mask), k);
    PlusFlips(a.value - b.value, k);
    if Bit(a.mask, k) {
      FlipUnknown(a, k);
      DifferingMembers(t, a.value - b.value, a.value + Pow2(k) - b.value, k);
    }
    if Bit(b.mask, k) {
      FlipUnknown(b, k);
      DifferingMembers(t, a.value - b.value, a.value - (b.value + Pow2(k)), k);
    }
  }

  /** Subtraction is optimal. */
  lemma SubOptimal(a: Tnum, b: Tnum, t: Tnum)
    requires a.Wf() && b.Wf() && CoversDifferences(t, a, b)
    ensures t.Subsumes(a.Sub(b))
  {
    forall k: nat | k < 64 && Known(t, k)
      ensures Known(a.Sub(b), k) && Bit(a.Sub(b).value, k) == Bit(t.value, k)
    {
      SubOptimalBit(a, b, t, k);
      MaskedWf(Wrap64(a.value - b.value), a.Sub(b).mask);
      BitWrap64(a.value - b.value, k);
    }
    SubsumesBits(t, a.Sub(b));
  }

  // ── Bitwise operations, truncation, shifts ───────────────────────────────

  lemma BitwiseSound(a: Tnum, b: Tnum, x: U64, y: U64)
    requires a.Wf() && b.Wf() && a.Contains(x) && b.Contains(y)
    ensures a.BitAnd(b).Wf() && a.BitAnd(b).Contains(And64(x, y))
    ensures a.BitOr(b).Wf() && a.BitOr(b).Contains(Or64(x, y))
    ensures a.BitXor(b).Wf() && a.BitXor(b).Contains(Xor64(x, y))
  {
    ContainsIsAgreement(a, x);
    ContainsIsAgreement(b, y);
    WfIsDisjoint(a);
    WfIsDisjoint(b);
    MaskedWf(Xor64(a.value, b.value), a.BitXor(b).mask);
    forall k: nat | k < 64
      ensures Known(a.BitAnd(b), k) ==> Bit(And64(x, y), k) == Bit(a.BitAnd(b).value, k)
      ensures !(Bit(a.BitAnd(b).value, k) && Bit(a.BitAnd(b).mask, k))
    {
      AndBits(a, b, k);
      BitAnd(x, y, k);
    }
    forall k: nat | k < 64
      ensures Known(a.BitOr(b), k) ==> Bit(Or64(x, y), k) == Bit(a.BitOr(b).value, k)
      ensures !(Bit(a.BitOr(b).value, k) && Bit(a.BitOr(b).mask, k))
    {
      OrBits(a, b, k);
      BitOr(x, y, k);
    }
    forall k: nat | k < 64 && Known(a.BitXor(b), k)
      ensures Bit(Xor64(x, y), k) == Bit(a.BitXor(b).value, k)
    {
      BitOr(a.mask, b.mask, k);
      BitXor(a.value, b.value, k);
      BitXor(x, y, k);
    }
    WfIsDisjoint(a.BitAnd(b));
    WfIsDisjoint(a.BitOr(b));
    ContainsIsAgreement(a.BitAnd(b), And64(x, y));
    ContainsIsAgreement(a.BitOr(b), Or64(x, y));
    ContainsIsAgreement(a.BitXor(b), Xor64(x, y));
  }

  ghost predicate CoversAnds(t: Tnum, a: Tnum, b: Tnum) {
    forall x: U64, y: U64 :: a.Contains(x) && b.Contains(y) ==> t.Contains(And64(x, y))
  }

  ghost predicate CoversOrs(t: Tnum, a: Tnum, b: Tnum) {
    forall x: U64, y: U64 :: a.Contains(x) && b.Contains(y) ==> t.Contains(Or64(x, y))
  }

  ghost predicate CoversXors(t: Tnum, a: Tnum, b: Tnum) {
    forall x: U64, y: U64 :: a.Contains(x) && b.Contains(y) ==> t.Contains(Xor64(x, y))
  }

  /** The members with all unknown bits clear and with all of them set. */
  lemma LeastAndGreatest(a: Tnum)
    requires a.Wf()
    ensures a.Contains(a.value) && a.Contains(Or64(a.value, a.mask))
    ensures forall k: nat :: k < 64 ==> Bit(Or64(a.value, a.mask), k) == (Bit(a.value, k) || Bit(a.mask, k))
  {
    hide Bit, Tnum.Contains;
    WfIsDisjoint(a);
    forall k: nat | k < 64
      ensures Bit(Or64(a.value, a.mask), k) == (Bit(a.value, k) || Bit(a.mask, k))
    {
      BitOr(a.value, a.mask, k);
    }
    ContainsIsAgreement(a, a.value);
    ContainsIsAgreement(a, Or64(a.value, a.mask));
  }

  /** And, or and xor are optimal too: each bit they leave open takes both values. */
  lemma BitwiseOptimal(a: Tnum, b: Tnum, t: Tnum)
    requires a.Wf() && b.Wf()
    ensures CoversAnds(t, a, b) ==> t.Subsumes(a.BitAnd(b))
    ensures CoversOrs(t, a, b) ==> t.Subsumes(a.BitOr(b))
    ensures CoversXors(t, a, b) ==> t.Subsumes(a.BitXor(b))
  {
    hide Bit, CoversAnds, CoversOrs, CoversXors, Tnum.BitAnd, Tnum.BitOr, Tnum.BitXor, Tnum.Wf, Tnum.Subsumes;
    if CoversAnds(t, a, b) {
      forall k: nat | k < 64 && Known(t, k)
        ensures Known(a.BitAnd(b), k) && Bit(a.BitAnd(b).value, k) == Bit(t.value, k)
      {
        AndOptimalBit(a, b, t, k);
      }
      SubsumesBits(t, a.BitAnd(b));
    }
    if CoversOrs(t, a, b) {
      forall k: nat | k < 64 && Known(t, k)
        ensures Known(a.BitOr(b), k) && Bit(a.BitOr(b).value, k) == Bit(t.value, k)
      {
        OrOptimalBit(a, b, t, k);
      }
      SubsumesBits(t, a.BitOr(b));
    }
    if CoversXors(t, a, b) {
      forall k: nat | k < 64 && Known(t, k)
        ensures Known(a.BitXor(b), k) && Bit(a.BitXor(b).value, k) == Bit(t.value, k)
      {
        XorOptimalBit(a, b, t, k);
      }
      SubsumesBits(t, a.BitXor(b));
    }
  }

  lemma AndOptimalBit(a: Tnum, b: Tnum, t: Tnum, k: nat)
    requires a.Wf() && b.Wf() && CoversAnds(t, a, b) && k < 64 && Known(t, k)
    ensures Known(a.BitAnd(b), k) && Bit(a.BitAnd(b).value, k) == Bit(t.value, k)
  {
    hide Bit, Tnum.Contains, Tnum.Wf, Tnum.BitAnd;
    LeastAndGreatest(a);
    LeastAndGreatest(b);
    AndBits(a, b, k);
    var x, y := Or64(a.value, a.mask), Or64(b.value, b.mask);
    BitAnd(a.value, b.value, k);
    BitAnd(x, y, k);
    ContainsIsAgreement(t, And64(a.value, b.value));
    ContainsIsAgreement(t, And64(x, y));
  }

  lemma OrOptimalBit(a: Tnum, b: Tnum, t: Tnum, k: nat)
    requires a.Wf() && b.Wf() && CoversOrs(t, a, b) && k < 64 && Known(t, k)
    ensures Known(a.BitOr(b), k) && Bit(a.BitOr(b).value, k) == Bit(t.value, k)
  {
    hide Bit, Tnum.Contains, Tnum.Wf, Tnum.BitOr;
    LeastAndGreatest(a);
    LeastAndGreatest(b);
    WfIsDisjoint(a);
    WfIsDisjoint(b);
    OrBits(a, b, k);
    var x, y := Or64(a.value, a.mask), Or64(b.value, b.mask);
    BitOr(a.value, b.value, k);
    BitOr(x, y, k);
    ContainsIsAgreement(t, Or64(a.value, b.value));
    ContainsIsAgreement(t, Or64(x, y));
  }

  lemma XorOptimalBit(a: Tnum, b: Tnum, t: Tnum, k: nat)
    requires a.Wf() && b.Wf() && CoversXors(t, a, b) && k < 64 && Known(t, k)
    ensures Known(a.BitXor(b), k) && Bit(a.BitXor(b).value, k) == Bit(t.value, k)
  {
    hide Bit, Tnum.Contains, Tnum.Wf;
    LeastAndGreatest(a);
    LeastAndGreatest(b);
    WfIsDisjoint(a);
    WfIsDisjoint(b);
    var x, y := Or64(a.value, a.mask), Or64(b.value, b.mask);
    MaskedWf(Xor64(a.value, b.value), a.BitXor(b).mask);
    BitOr(a.mask, b.mask, k);
    BitXor(a.value, b.value, k);
    BitXor(x, b.value, k);
    BitXor(a.value, y, k);
    ContainsIsAgreement(t, Xor64(a.value, b.value));
    ContainsIsAgreement(t, Xor64(x, b.value));
    ContainsIsAgreement(t, Xor64(a.value, y));
  }

  lemma AndBits(a: Tnum, b: Tnum, k: nat)
    requires k < 64
    ensures Bit(a.BitAnd(b).value, k) == (Bit(a.value, k) && Bit(b.value, k))
    ensures Known(a.BitAnd(b), k) ==
            (((Bit(a.value, k) || Bit(a.mask, k)) && (Bit(b.value, k) || Bit(b.mask, k))) ==
            (Bit(a.value, k) && Bit(b.value, k)))
  {
    BitAnd(a.value, b.value, k);
    BitOr(a.value, a.mask, k);
    BitOr(b.value, b.mask, k);
    BitAnd(Or64(a.value, a.mask), Or64(b.value, b.mask), k);
    BitXor(And64(Or64(a.value, a.mask), Or64(b.value, b.mask)), And64(a.value, b.value), k);
  }

  lemma OrBits(a: Tnum, b: Tnum, k: nat)
    requires k < 64
    ensures var one := (Bit(a.value, k) && Known(a, k)) || (Bit(b.value, k) && Known(b, k));
            var zero := !Bit(a.value, k) && Known(a, k) && !Bit(b.value, k) && Known(b, k);
            Bit(a.BitOr(b).value, k) == one && Known(a.BitOr(b), k) == (one || zero)
  {
    BitMasked(a.value, a.mask, k);
    BitMasked(b.value, b.mask, k);
    BitOr(a.KnownOnes(), b.KnownOnes(), k);
    BitNot64(a.value, k);
    BitNot64(a.mask, k);
    BitNot64(b.value, k);
    BitNot64(b.mask, k);
    BitAnd(Not64(a.value), Not64(a.mask), k);
    BitAnd(Not64(b.value), Not64(b.mask), k);
    var knownOne := Or64(a.KnownOnes(), b.KnownOnes());
    var za, zb := And64(Not64(a.value), Not64(a.mask)), And64(Not64(b.value), Not64(b.mask));
    BitAnd(za, zb, k);
    BitOr(knownOne, And64(za, zb), k);
    BitNot64(Or64(knownOne, And64(za, zb)), k);
  }

  lemma BitShl(x: U64, k: nat, i: nat)
    requires i < 64
    ensures Bit(Shl(x, k), i) == (i >= k && Bit(x, i - k))
  {
    if k >= 64 {
      BitZero(i);
    } else {
      BitWrap64(x * Pow2(k), i);
      BitMul(x, k, i);
    }
  }

  lemma BitShr(x: U64, k: nat, i: nat)
    ensures Bit(Shr(x, k), i) == Bit(x, k + i)
  {
    if k >= 64 {
      Pow2Words();
      BitZero(i);
      BitHigh(x, 64, k + i);
    } else {
      BitDiv(x, k, i);
    }
  }

  lemma BitSar(x: U64, k: nat, i: nat)
    requires i < 64
    ensures Bit(Sar(x, k), i) == Bit(x, if k + i < 63 then k + i else 63)
  {
    if k >= 64 {
      Pow2Words();
      BitZero(i);
      BitLowMask(64, i);
      BitTop(x, 63);
    } else {
      BitWrap64(Signed64(x) / Pow2(k), i);
      BitDiv(Signed64(x), k, i);
      BitSigned64(x, k + i);
    }
  }

  /** Bit i of the shifted tnum is the same source bit in value, mask and member. */
  lemma MovedBits(t: Tnum, r: Tnum, x: U64, y: U64, i: nat, j: nat)
    requires t.Wf() && t.Contains(x) && j < 64
    requires Bit(r.value, i) == Bit(t.value, j) && Bit(r.mask, i) == Bit(t.mask, j) && Bit(y, i) == Bit(x, j)
    ensures Known(r, i) ==> Bit(y, i) == Bit(r.value, i)
    ensures !(Bit(r.value, i) && Bit(r.mask, i))
  {
    ContainsIsAgreement(t, x);
    WfIsDisjoint(t);
  }

  lemma LShiftSound(t: Tnum, k: nat, x: U64)
    requires t.Wf() && t.Contains(x)
    ensures t.LShift(k).Wf() && t.LShift(k).Contains(Shl(x, k))
  {
    hide Bit, Shl, Tnum.Wf, Tnum.Contains;
    var r, y := t.LShift(k), Shl(x, k);
    forall i: nat | i < 64
      ensures Known(r, i) ==> Bit(y, i) == Bit(r.value, i)
      ensures !(Bit(r.value, i) && Bit(r.mask, i))
    {
      BitShl(t.value, k, i);
      BitShl(t.mask, k, i);
      BitShl(x, k, i);
      if i >= k {
        MovedBits(t, r, x, y, i, i - k);
      }
    }
    WfIsDisjoint(r);
    ContainsIsAgreement(r, y);
  }

  lemma RShiftSound(t: Tnum, k: nat, x: U64)
    requires t.Wf() && t.Contains(x)
    ensures t.RShift(k).Wf() && t.RShift(k).Contains(Shr(x, k))
  {
    hide Bit, Shr, Tnum.Wf, Tnum.Contains;
    Pow2Words();
    var r, y := t.RShift(k), Shr(x, k);
    forall i: nat | i < 64
      ensures Known(r, i) ==> Bit(y, i) == Bit(r.value, i)
      ensures !(Bit(r.value, i) && Bit(r.mask, i))
    {
      BitShr(t.value, k, i);
      BitShr(t.mask, k, i);
      BitShr(x, k, i);
      if k + i < 64 {
        MovedBits(t, r, x, y, i, k + i);
      } else {
        BitHigh(t.value, 64, k + i);
        BitHigh(t.mask, 64, k + i);
        BitHigh(x, 64, k + i);
      }
    }
    WfIsDisjoint(r);
    ContainsIsAgreement(r, y);
  }

  lemma ArShiftSound(t: Tnum, k: nat, x: U64)
    requires t.Wf() && t.Contains(x)
    ensures t.ArShift(k).Wf() && t.ArShift(k).Contains(Sar(x, k))
  {
    hide Bit, Sar, Tnum.Wf, Tnum.Contains;
    var r, y := t.ArShift(k), Sar(x, k);
    forall i: nat | i < 64
      ensures Known(r, i) ==> Bit(y, i) == Bit(r.value, i)
      ensures !(Bit(r.value, i) && Bit(r.mask, i))
    {
      BitSar(t.value, k, i);
      BitSar(t.mask, k, i);
      BitSar(x, k, i);
      MovedBits(t, r, x, y, i, if k + i < 63 then k + i else 63);
    }
    WfIsDisjoint(r);
    ContainsIsAgreement(r, y);
  }

  lemma BitSubreg(x: U64, i: nat)
    ensures Bit(x % TWO32, i) == (i < 32 && Bit(x, i))
  {
    Pow2Words();
    BitMod(x, 32, i);
  }

  /** Truncation to the low 32 bits; `t` may be any tnum agreeing with x there. */
  lemma SubregSound(t: Tnum, x: U64)
    requires t.Wf()
    requires forall k: nat :: k < 32 && Known(t, k) ==> Bit(x, k) == Bit(t.value, k)
    ensures t.Subreg().Wf() && t.Subreg().Contains(x % TWO32)
  {
    WfIsDisjoint(t);
    forall i: nat | i < 64
      ensures Known(t.Subreg(), i) ==> Bit(x % TWO32, i) == Bit(t.Subreg().value, i)
      ensures !(Bit(t.Subreg().value, i) && Bit(t.Subreg().mask, i))
    {
      BitSubreg(t.value, i);
      BitSubreg(t.mask, i);
      BitSubreg(x, i);
    }
    WfIsDisjoint(t.Subreg());
    ContainsIsAgreement(t.Subreg(), x % TWO32);
  }

  // ── from_range ───────────────────────────────────────────────────────────

  lemma BitsOfZero()
    ensures forall k: nat :: !Bit(0, k)
  {
    hide Bit;
    forall k: nat
      ensures !Bit(0, k)
    {
      BitZero(k);
    }
  }

  lemma FromRangeShape(min: U64, max: U64) returns (n: nat)
    requires min <= max
    ensures n <= 64 && FromRange(min, max).mask == Pow2(n) - 1
    ensures forall k: nat :: k < 64 ==> Known(FromRange(min, max), k) == (k >= n)
    ensures FromRange(min, max).Wf()
    ensures forall k: nat :: k < 64 && k >= n ==> Bit(FromRange(min, max).value, k) == Bit(min, k)
    ensures min / Pow2(n) == max / Pow2(n)
    ensures n > 0 ==> max / Pow2(n - 1) == min / Pow2(n - 1) + 1 && (max / Pow2(n - 1)) % 2 == 1
  {
    hide Bit, Tnum.Wf;
    var chi := Xor64(min, max);
    n := BitLen(chi);
    LenBound(chi);
    Pow2Words();
    if n == 64 {
      assert Pow2(n) - 1 == U64_MAX;
    }
    var mask := Pow2(n) - 1;
    forall k: nat | k < 64
      ensures Bit(mask, k) == (k < n)
    {
      BitLowMask(n, k);
    }
    if chi == 0 {
      forall k: nat | k < 64
        ensures Bit(min, k) == Bit(max, k)
      {
        BitXor(min, max, k);
        BitZero(k);
      }
      Extensional64(min, max);
      WfIsDisjoint(Constant(min));
      BitsOfZero();
    } else {
      MaskedWf(min, mask);
      HighAgree(min, max, chi, n);
      TopDiffers(min, max, chi, n);
    }
  }

  /** Above the highest differing bit the endpoints agree. */
  lemma HighAgree(min: U64, max: U64, chi: U64, n: nat)
    requires chi == Xor64(min, max) && chi < Pow2(n)
    ensures min / Pow2(n) == max / Pow2(n)
  {
    Pow2Words();
    ShrBound(min, n);
    ShrBound(max, n);
    forall k: nat | k < 64
      ensures Bit(min / Pow2(n), k) == Bit(max / Pow2(n), k)
    {
      BitDiv(min, n, k);
      BitDiv(max, n, k);
      BitXor(min, max, n + k);
      BitHigh(chi, n, n + k);
    }
    Extensional(min / Pow2(n), max / Pow2(n), 64);
  }

  lemma TopDiffers(min: U64, max: U64, chi: U64, n: nat)
    requires chi == Xor64(min, max) && n > 0 && Pow2(n - 1) <= chi < Pow2(n) && min <= max
    ensures max / Pow2(n - 1) == min / Pow2(n - 1) + 1 && (max / Pow2(n - 1)) % 2 == 1
  {
    HighAgree(min, max, chi, n);
    BitTop(chi, n - 1);
    BitXor(min, max, n - 1);
    BitDiv(min, n - 1, 0);
    BitDiv(max, n - 1, 0);
    assert Pow2(n) == Pow2(n - 1) * 2;
    DivDiv(min, Pow2(n - 1), 2);
    DivDiv(max, Pow2(n - 1), 2);
    DivMono(min, max, Pow2(n - 1));
  }

  /** `from_range` covers exactly the interval's members and nothing narrower does. */
  lemma FromRangeSound(min: U64, max: U64, x: U64)
    requires min <= x <= max
    ensures FromRange(min, max).Wf() && FromRange(min, max).Contains(x)
  {
    var n := FromRangeShape(min, max);
    var t := FromRange(min, max);
    DivMono(min, x, Pow2(n));
    DivMono(x, max, Pow2(n));
    forall k: nat | k < 64 && Known(t, k)
      ensures Bit(x, k) == Bit(t.value, k)
    {
      BitDiv(x, n, k - n);
      BitDiv(min, n, k - n);
    }
    ContainsIsAgreement(t, x);
  }

  lemma FromRangeOptimal(min: U64, max: U64, t: Tnum)
    requires min <= max
    requires forall x: U64 :: min <= x <= max ==> t.Contains(x)
    ensures t.Subsumes(FromRange(min, max))
  {
    var n := FromRangeShape(min, max);
    assert t.Contains(min);
    ContainsIsAgreement(t, min);
    forall k: nat | k < n && k < 64
      ensures !Known(t, k)
    {
      MidDiffers(min, max, n, t, k);
    }
    SubsumesBits(t, FromRange(min, max));
  }

  /** The multiple of 2^(n-1) where the top differing bit turns on and its
      predecessor both lie in the interval. */
  lemma MidDiffers(min: U64, max: U64, n: nat, t: Tnum, k: nat)
    requires k < n && k < 64
    requires forall x: U64 :: min <= x <= max ==> t.Contains(x)
    requires max / Pow2(n - 1) == min / Pow2(n - 1) + 1 && (max / Pow2(n - 1)) % 2 == 1
    ensures !Known(t, k)
  {
    hide Bit, Tnum.Contains, Pow2;
    var p := Pow2(n - 1);
    var h := max / p;
    var mid := h * p;
    MulStep(min, max, p);
    assert t.Contains(mid) && t.Contains(mid - 1);
    MidFlips(h, n - 1, k);
    DifferingMembers(t, mid, mid - 1, k);
  }

  lemma MulStep(min: U64, max: U64, p: nat)
    requires p > 0 && max / p == min / p + 1
    ensures min < (max / p) * p <= max
  {
    assert (max / p) * p == p * (min / p) + p;
    assert (max / p) * p == p * (max / p);
  }

  /** h * 2^m with h odd and its predecessor differ in every bit up to m. */
  lemma MidFlips(h: nat, m: nat, k: nat)
    requires h % 2 == 1 && k <= m
    ensures Bit(h * Pow2(m), k) == (k == m) && Bit(h * Pow2(m) - 1, k) == (k != m)
  {
    BitMul(h, m, k);
    var z := h * Pow2(m) - 1;
    assert (h - 1) * Pow2(m) == h * Pow2(m) - Pow2(m);
    DivUnique(z, Pow2(m), h - 1, Pow2(m) - 1);
    if k < m {
      BitMod(z, m, k);
      BitLowMask(m, k);
    } else {
      BitDiv(z, m, 0);
    }
  }

  // ── Multiplication ───────────────────────────────────────────────────────

  lemma ZeroIsConstant(t: Tnum, x: U64)
    requires t.value == 0 && t.mask == 0 && t.Contains(x)
    ensures x == 0
  {
    ContainsIsAgreement(t, x);
    forall k: nat | k < 64
      ensures Bit(x, k) == Bit(0, k)
    {
      BitZero(k);
    }
    Extensional64(x, 0);
  }

  lemma UnionKeeps(a: Tnum, b: Tnum, x: U64)
    requires a.Wf() && b.Wf() && (a.Contains(x) || b.Contains(x))
    ensures a.Union(b).Wf() && a.Union(b).Contains(x)
  {
    UnionIsLeast(a, b);
    SubsumesIsInclusion(a.Union(b), a);
    SubsumesIsInclusion(a.Union(b), b);
  }

  lemma LowBit(a: Tnum, u: U64)
    requires a.Wf() && a.Contains(u)
    ensures a.value % 2 == 1 ==> u % 2 == 1
    ensures a.value % 2 == 0 && a.mask % 2 == 0 ==> u % 2 == 0
  {
    ContainsIsAgreement(a, u);
    WfIsDisjoint(a);
    assert Bit(u, 0) == (u % 2 == 1) && Bit(a.value, 0) == (a.value % 2 == 1) && Bit(a.mask, 0) == (a.mask % 2 == 1);
  }

  function Accumulate(acc: Tnum, a: Tnum, b: Tnum): Tnum {
    if a.value % 2 != 0 then acc.Add(b)
    else if a.mask % 2 != 0 then acc.Union(acc.Add(b)) else acc
  }

  /** One round of long multiplication: whichever low bit the multiplier has,
      the new accumulator covers the partial product. */
  lemma MulRound(acc: Tnum, a: Tnum, b: Tnum, p: U64, u: U64, w: U64)
    requires acc.Wf() && a.Wf() && b.Wf() && acc.Contains(p) && a.Contains(u) && b.Contains(w)
    ensures Accumulate(acc, a, b).Wf() && Accumulate(acc, a, b).Contains(Wrap64(p + (u % 2) * w))
  {
    hide Tnum.Add, Tnum.Union, Tnum.Contains, Tnum.Wf;
    AddSound(acc, b, p, w);
    LowBit(a, u);
    if u % 2 == 1 {
      UnionKeeps(acc, acc.Add(b), Wrap64(p + w));
    } else {
      UnionKeeps(acc, acc.Add(b), p);
    }
  }

  /** The arithmetic of one round: splitting one more bit off x. */
  lemma MulSplit(x: nat, y: nat, i: nat)
    ensures (x / Pow2(i)) / 2 == x / Pow2(i + 1)
    ensures Wrap64(2 * Wrap64(y * Pow2(i))) == Wrap64(y * Pow2(i + 1))
    ensures Wrap64(Wrap64((x % Pow2(i)) * y) + ((x / Pow2(i)) % 2) * Wrap64(y * Pow2(i))) ==
            Wrap64((x % Pow2(i + 1)) * y)
  {
    hide Wrap64, Pow2;
    var p := Pow2(i);
    assert Pow2(i + 1) == 2 * p by { Pow2Next(i); }
    DivDiv(x, p, 2);
    WrapMul(y * p, 2);
    MulComm3(y, p);
    SplitProduct(x, y, p);
  }

  lemma Pow2Next(i: nat)
    ensures Pow2(i + 1) == 2 * Pow2(i)
  {
  }

  lemma MulComm3(y: nat, p: nat)
    ensures y * (2 * p) == 2 * (y * p) == (y * p) * 2
  {
  }

  lemma SplitProduct(x: nat, y: nat, p: nat)
    requires p > 0
    ensures Wrap64(Wrap64((x % p) * y) + ((x / p) % 2) * Wrap64(y * p)) == Wrap64((x % (2 * p)) * y)
  {
    hide Wrap64;
    var bit := (x / p) % 2;
    DivDiv(x, p, 2);
    var low := x % p;
    assert x % (2 * p) == p * bit + low;
    if bit == 1 {
      assert (p + low) * y == low * y + y * p;
    }
    WrapAdd(low * y, y * p);
    WrapAdd(low * y, 0);
  }

  /** Members x and y after i rounds: what is left of the multiplier, the shifted
      multiplicand and the accumulated product. */
  ghost predicate MulState(acc: Tnum, a: Tnum, b: Tnum, x: U64, y: U64, i: nat) {
    var p := Pow2(i);
    && 0 <= x / p < TWO64 && a.Contains(x / p)
    && b.Contains(Wrap64(y * p))
    && acc.Contains(Wrap64((x % p) * y))
  }

  lemma ShiftByOne(x: U64)
    ensures Shr(x, 1) == x / 2 && Shl(x, 1) == Wrap64(2 * x)
  {
    assert Pow2(1) == 2;
  }

  lemma MulStateNext(acc: Tnum, a: Tnum, b: Tnum, x: U64, y: U64, i: nat)
    requires acc.Wf() && a.Wf() && b.Wf() && MulState(acc, a, b, x, y, i)
    ensures MulState(Accumulate(acc, a, b), a.RShift(1), b.LShift(1), x, y, i + 1)
  {
    hide Tnum.Contains, Tnum.Wf, Tnum.LShift, Tnum.RShift, Accumulate, Wrap64, Shl, Shr, Pow2;
    var p := Pow2(i);
    var u, w, q := x / p, Wrap64(y * p), Wrap64((x % p) * y);
    MulRound(acc, a, b, q, u, w);
    MulSplit(x, y, i);
    RShiftSound(a, 1, u);
    LShiftSound(b, 1, w);
    ShrBound(x, i + 1);
    ShiftByOne(u);
    ShiftByOne(w);
  }

  lemma MulWf(acc: Tnum, a: Tnum, b: Tnum)
    requires acc.Wf() && a.Wf() && b.Wf()
    ensures Accumulate(acc, a, b).Wf() && a.RShift(1).Wf() && b.LShift(1).Wf()
    ensures a.value != 0 || a.mask != 0 ==> a.RShift(1).value + a.RShift(1).mask < a.value + a.mask
  {
    Extremes(acc);
    Extremes(a);
    Extremes(b);
    MulRound(acc, a, b, acc.value, a.value, b.value);
    RShiftSound(a, 1, a.value);
    LShiftSound(b, 1, b.value);
    ShiftByOne(a.value);
    ShiftByOne(a.mask);
  }

  lemma MulStart(a: Tnum, b: Tnum)
    ensures Constant(0).Wf()
    ensures forall x: U64, y: U64 :: a.Contains(x) && b.Contains(y) ==> MulState(Constant(0), a, b, x, y, 0)
  {
    hide Bit, Tnum.Contains, Tnum.Wf;
    ContainsIsAgreement(Constant(0), 0);
    WfIsDisjoint(Constant(0));
    BitsOfZero();
    assert Pow2(0) == 1;
  }

  lemma MulEnd(acc: Tnum, a: Tnum, b: Tnum, x: U64, y: U64, i: nat)
    requires a.value == 0 && a.mask == 0 && MulState(acc, a, b, x, y, i)
    ensures acc.Contains(Wrap64(x * y))
  {
    ZeroIsConstant(a, x / Pow2(i));
    assert x % Pow2(i) == x;
  }

  /** The rounds of long multiplication that are left. */
  function LongProduct(acc: Tnum, a: Tnum, b: Tnum): Tnum
    decreases a.value + a.mask
  {
    if a.value == 0 && a.mask == 0 then acc else
      ShiftByOne(a.value);
      ShiftByOne(a.mask);
      LongProduct(Accumulate(acc, a, b), a.RShift(1), b.LShift(1))
  }

  /** Long multiplication over the bits of `a0` terminates and covers every
      wrapped product of members. */
  method Mul(a0: Tnum, b0: Tnum) returns (acc: Tnum)
    requires a0.Wf() && b0.Wf()
    ensures acc.Wf() && acc == LongProduct(Constant(0), a0, b0)
    ensures forall x: U64, y: U64 :: a0.Contains(x) && b0.Contains(y) ==> acc.Contains(Wrap64(x * y))
  {
    hide Tnum.Contains, Tnum.Wf, Tnum.LShift, Tnum.Add, Tnum.Union, Bit, Wrap64, Pow2;
    acc := Constant(0);
    var a, b := a0, b0;
    ghost var i := 0;
    MulStart(a0, b0);
    while a.value != 0 || a.mask != 0
      invariant acc.Wf() && a.Wf() && b.Wf()
      invariant LongProduct(acc, a, b) == LongProduct(Constant(0), a0, b0)
      invariant forall x: U64, y: U64 :: a0.Contains(x) && b0.Contains(y) ==> MulState(acc, a, b, x, y, i)
      decreases a.value + a.mask
    {
      ghost var before := acc;
      if a.value % 2 != 0 {
        acc := acc.Add(b);
      } else if a.mask % 2 != 0 {
        acc := acc.Union(acc.Add(b));
      }
      assert acc == Accumulate(before, a, b);
      forall x: U64, y: U64 | a0.Contains(x) && b0.Contains(y)
        ensures MulState(acc, a.RShift(1), b.LShift(1), x, y, i + 1)
      {
        MulStateNext(before, a, b, x, y, i);
      }
      MulWf(before, a, b);
      a := a.RShift(1);
      b := b.LShift(1);
      i := i + 1;
    }
    forall x: U64, y: U64 | a0.Contains(x) && b0.Contains(y)
      ensures acc.Contains(Wrap64(x * y))
    {
      MulEnd(acc, a, b, x, y, i);
    }
  }
}
