/** Shifts, truncation and multiplication of tnums lose no more than they must
    (`src/tnum.rs`): shifts are optimal, a product keeps the low bits its factors fix. */
module TnumPrecise {
  import opened Words
  import opened Bits
  import opened TnumDomain
  import opened TnumSound

  // ── Shifts and truncation ────────────────────────────────────────────────

  /** hi has the k-th bit set where r may. */
  ghost predicate EndsAt(r: Tnum, hi: U64, k: nat) {
    Bit(hi, k) == (Bit(r.value, k) || Bit(r.mask, k)) && !(Bit(r.value, k) && Bit(r.mask, k))
  }

  /** A tnum is below every other one that holds the values with its unknown bits all
      clear and all set. */
  lemma BelowItsEnds(r: Tnum, t: Tnum, hi: U64)
    requires t.Contains(r.value) && t.Contains(hi) && forall k: nat :: k < 64 ==> EndsAt(r, hi, k)
    ensures t.Subsumes(r)
  {
    hide Bit, Tnum.Contains, Tnum.Subsumes;
    ContainsIsAgreement(t, r.value);
    ContainsIsAgreement(t, hi);
    forall k: nat | k < 64 && Known(t, k)
      ensures Known(r, k) && Bit(r.value, k) == Bit(t.value, k)
    {
      assert EndsAt(r, hi, k);
    }
    SubsumesBits(t, r);
  }

  ghost predicate CoversLeftShifts(u: Tnum, t: Tnum, k: nat) {
    forall x: U64 :: t.Contains(x) ==> u.Contains(Shl(x, k))
  }

  ghost predicate CoversRightShifts(u: Tnum, t: Tnum, k: nat) {
    forall x: U64 :: t.Contains(x) ==> u.Contains(Shr(x, k))
  }

  ghost predicate CoversSignedShifts(u: Tnum, t: Tnum, k: nat) {
    forall x: U64 :: t.Contains(x) ==> u.Contains(Sar(x, k))
  }

  ghost predicate CoversLowHalves(u: Tnum, t: Tnum) { forall x: U64 :: t.Contains(x) ==> u.Contains(x % TWO32) }

  /** Any tnum that holds the shifted members subsumes the shifted tnum. */
  lemma ShiftsOptimal(t: Tnum, k: nat, u: Tnum)
    requires t.Wf()
    ensures CoversLeftShifts(u, t, k) ==> u.Subsumes(t.LShift(k))
    ensures CoversRightShifts(u, t, k) ==> u.Subsumes(t.RShift(k))
    ensures CoversSignedShifts(u, t, k) ==> u.Subsumes(t.ArShift(k))
    ensures CoversLowHalves(u, t) ==> u.Subsumes(t.Subreg())
  {
    hide Bit, Tnum.Contains, Tnum.Subsumes, Tnum.Wf, Shl, Shr, Sar, Or64;
    LeastAndGreatest(t);
    WfIsDisjoint(t);
    var hi := Or64(t.value, t.mask);
    if CoversLeftShifts(u, t, k) {
      ShlBits(t, hi, k);
      BelowItsEnds(t.LShift(k), u, Shl(hi, k));
    }
    if CoversRightShifts(u, t, k) {
      ShrBits(t, hi, k);
      BelowItsEnds(t.RShift(k), u, Shr(hi, k));
    }
    if CoversSignedShifts(u, t, k) {
      SarBits(t, hi, k);
      BelowItsEnds(t.ArShift(k), u, Sar(hi, k));
    }
    if CoversLowHalves(u, t) {
      LowBits(t, hi);
      BelowItsEnds(t.Subreg(), u, hi % TWO32);
    }
  }

  /** g has the bits of value and mask, which share none. */
  ghost predicate Greatest(t: Tnum, g: U64) {
    Disjoint(t) && forall k: nat :: k < 64 ==> Bit(g, k) == (Bit(t.value, k) || Bit(t.mask, k))
  }

  lemma ShlBits(t: Tnum, g: U64, k: nat)
    requires Greatest(t, g)
    ensures forall i: nat :: i < 64 ==> EndsAt(t.LShift(k), Shl(g, k), i)
  {
    hide Bit, Shl;
    forall i: nat | i < 64
      ensures EndsAt(t.LShift(k), Shl(g, k), i)
    {
      BitShl(t.value, k, i);
      BitShl(t.mask, k, i);
      BitShl(g, k, i);
    }
  }

  lemma ShrBits(t: Tnum, g: U64, k: nat)
    requires Greatest(t, g)
    ensures forall i: nat :: i < 64 ==> EndsAt(t.RShift(k), Shr(g, k), i)
  {
    hide Bit, Shr;
    Pow2Words();
    forall i: nat | i < 64
      ensures EndsAt(t.RShift(k), Shr(g, k), i)
    {
      BitShr(t.value, k, i);
      BitShr(t.mask, k, i);
      BitShr(g, k, i);
      if k + i >= 64 {
        BitHigh(t.value, 64, k + i);
        BitHigh(t.mask, 64, k + i);
        BitHigh(g, 64, k + i);
      }
    }
  }

  lemma SarBits(t: Tnum, g: U64, k: nat)
    requires Greatest(t, g)
    ensures forall i: nat :: i < 64 ==> EndsAt(t.ArShift(k), Sar(g, k), i)
  {
    hide Bit, Sar;
    forall i: nat | i < 64
      ensures EndsAt(t.ArShift(k), Sar(g, k), i)
    {
      BitSar(t.value, k, i);
      BitSar(t.mask, k, i);
      BitSar(g, k, i);
    }
  }

  lemma LowBits(t: Tnum, g: U64)
    requires Greatest(t, g)
    ensures forall i: nat :: i < 64 ==> EndsAt(t.Subreg(), g % TWO32, i)
  {
    hide Bit;
    forall i: nat | i < 64
      ensures EndsAt(t.Subreg(), g % TWO32, i)
    {
      BitSubreg(t.value, i);
      BitSubreg(t.mask, i);
      BitSubreg(g, i);
    }
  }

  // ── Multiplication ───────────────────────────────────────────────────────

  /** The low n bits are known. */
  ghost predicate KnownLow(t: Tnum, n: nat) { t.mask % Pow2(n) == 0 }

  /** The low n bits are known to be zero. */
  ghost predicate ZeroLow(t: Tnum, n: nat) { t.value % Pow2(n) == 0 && t.mask % Pow2(n) == 0 }

  ghost predicate NoneBelow(x: nat, n: nat) { forall k: nat :: k < n ==> !Bit(x, k) }

  lemma LowClear(x: nat, n: nat)
    ensures x % Pow2(n) == 0 <==> NoneBelow(x, n)
  {
    hide Bit, Pow2;
    forall k: nat
      ensures Bit(x % Pow2(n), k) == (k < n && Bit(x, k)) && !Bit(0, k)
    {
      BitMod(x, n, k);
      BitZero(k);
    }
    if x % Pow2(n) == 0 {
      forall k: nat | k < n
        ensures !Bit(x, k)
      {
        assert Bit(x % Pow2(n), k) == Bit(x, k);
      }
    } else if NoneBelow(x, n) {
      Extensional(x % Pow2(n), 0, n);
    }
  }

  lemma SameLow(x: nat, y: nat, n: nat, k: nat)
    requires x % Pow2(n) == y % Pow2(n) && k < n
    ensures Bit(x, k) == Bit(y, k)
  {
    BitMod(x, n, k);
    BitMod(y, n, k);
  }

  lemma SumOfMultiples(x: int, y: int, z: int, m: int)
    requires m > 0 && y % m == 0 && z % m == 0
    ensures (x + y + z) % m == x % m
  {
    assert x + y + z == x + m * (y / m + z / m) by {
      assert m * (y / m + z / m) == m * (y / m) + m * (z / m);
    }
    ModEqual(x + y + z, x, m, y / m + z / m);
  }

  /** A sum knows the low bits both operands know; adding low zeros changes none. */
  lemma AddLow(a: Tnum, b: Tnum, n: nat)
    requires n <= 64 && KnownLow(a, n) && KnownLow(b, n)
    ensures KnownLow(a.Add(b), n)
    ensures ZeroLow(b, n) ==> KnownLow(a.Union(a.Add(b)), n)
  {
    hide Bit, Pow2, Tnum.Add, Tnum.Union;
    forall k: nat | k < n
      ensures !Bit(a.Add(b).mask, k) && (ZeroLow(b, n) ==> !Bit(a.Union(a.Add(b)).mask, k))
    {
      AddLowBit(a, b, n, k);
    }
    LowClear(a.Add(b).mask, n);
    LowClear(a.Union(a.Add(b)).mask, n);
  }

  lemma AddLowBit(a: Tnum, b: Tnum, n: nat, k: nat)
    requires k < n <= 64 && KnownLow(a, n) && KnownLow(b, n)
    ensures !Bit(a.Add(b).mask, k)
    ensures ZeroLow(b, n) ==> !Bit(a.Union(a.Add(b)).mask, k)
  {
    hide Bit, Pow2, Tnum.Add, Tnum.Union;
    LowClear(a.mask, n);
    LowClear(b.mask, n);
    assert Known(a, k) && Known(b, k);
    SumOfMultiples(a.value + b.value, a.mask, b.mask, Pow2(n));
    SameLow((a.value + a.mask) + (b.value + b.mask), a.value + b.value, n, k);
    AddSigma(a, b, k);
    AddValue(a, b, k);
    if ZeroLow(b, n) {
      SumOfMultiples(a.value, b.value, 0, Pow2(n));
      SameLow(a.value + b.value, a.value, n, k);
      UnionBits(a, a.Add(b), k);
    }
  }

  lemma AddValue(a: Tnum, b: Tnum, k: nat)
    requires k < 64 && Known(a.Add(b), k)
    ensures Bit(a.Add(b).value, k) == Bit(a.value + b.value, k)
  {
    hide Bit, Wrap64, Xor, Or;
    var sv := Wrap64(a.value + b.value);
    MaskedWf(sv, a.Add(b).mask);
    BitWrap64(a.value + b.value, k);
  }

  function Less(n: nat): nat { if n == 0 then 0 else n - 1 }

  function More(n: nat): nat { if n >= 64 then 64 else n + 1 }

  lemma HalfMultiple(x: nat, n: nat)
    requires x % Pow2(n) == 0
    ensures (x / 2) % Pow2(Less(n)) == 0
  {
    if n > 0 {
      DivDiv(x, 2, Pow2(n - 1));
    }
  }

  lemma TwiceMultiple(x: nat, n: nat)
    requires x % Pow2(n) == 0 && n <= 64
    ensures Wrap64(2 * x) % Pow2(More(n)) == 0
  {
    hide Bit, Pow2;
    LowClear(x, n);
    Pow2Next(0);
    assert Pow2(1) == 2 by { OnePow2(); }
    forall k: nat | k < More(n)
      ensures !Bit(Wrap64(2 * x), k)
    {
      BitWrap64(2 * x, k);
      BitMul(x, 1, k);
      BitZero(k);
    }
    LowClear(Wrap64(2 * x), More(n));
  }

  lemma OnePow2()
    ensures Pow2(1) == 2
  {
  }

  /** A round keeps the low n bits of the accumulator known, if n is within what the known
      bits of one factor and the trailing zeros of the other give. */
  lemma RoundLow(acc: Tnum, a: Tnum, b: Tnum, n: nat, ka: nat, za: nat, kb: nat, zb: nat)
    requires n <= 64 && KnownLow(acc, n) && KnownLow(a, ka) && ZeroLow(a, za) && KnownLow(b, kb) && ZeroLow(b, zb)
    requires n <= ka + zb && n <= za + kb
    ensures KnownLow(Accumulate(acc, a, b), n)
  {
    hide Tnum.Add, Tnum.Union;
    if a.value % 2 != 0 || a.mask % 2 != 0 {
      NoZeros(a, za);
      Fewer(b.mask, kb, n);
      if a.value % 2 == 0 {
        NoKnown(a, ka);
        Fewer(b.value, zb, n);
        Fewer(b.mask, zb, n);
      }
      AddLow(acc, b, n);
    }
  }

  lemma NoZeros(a: Tnum, n: nat)
    requires ZeroLow(a, n) && (a.value % 2 != 0 || a.mask % 2 != 0)
    ensures n == 0
  {
    if n > 0 {
      DivDiv(a.value, 2, Pow2(n - 1));
      DivDiv(a.mask, 2, Pow2(n - 1));
    }
  }

  lemma NoKnown(a: Tnum, n: nat)
    requires KnownLow(a, n) && a.mask % 2 != 0
    ensures n == 0
  {
    if n > 0 {
      DivDiv(a.mask, 2, Pow2(n - 1));
    }
  }

  lemma Fewer(x: nat, n: nat, m: nat)
    requires x % Pow2(n) == 0
    ensures m <= n ==> x % Pow2(m) == 0
  {
    hide Bit, Pow2;
    LowClear(x, n);
    LowClear(x, m);
  }

  lemma {:induction false} RoundsLow(acc: Tnum, a: Tnum, b: Tnum, n: nat, ka: nat, za: nat, kb: nat, zb: nat)
    requires n <= 64 && KnownLow(acc, n) && KnownLow(a, ka) && ZeroLow(a, za) && KnownLow(b, kb) && ZeroLow(b, zb)
    requires kb <= 64 && zb <= 64 && n <= ka + zb && n <= za + kb
    ensures KnownLow(LongProduct(acc, a, b), n)
    decreases a.value + a.mask
  {
    hide Pow2, Shl, Shr, Accumulate;
    if a.value != 0 || a.mask != 0 {
      RoundLow(acc, a, b, n, ka, za, kb, zb);
      ShiftByOne(a.value);
      ShiftByOne(a.mask);
      ShiftByOne(b.value);
      ShiftByOne(b.mask);
      HalfMultiple(a.mask, ka);
      HalfMultiple(a.value, za);
      HalfMultiple(a.mask, za);
      TwiceMultiple(b.mask, kb);
      TwiceMultiple(b.value, zb);
      TwiceMultiple(b.mask, zb);
      RoundsLow(Accumulate(acc, a, b), a.RShift(1), b.LShift(1), n, Less(ka), Less(za), More(kb), More(zb));
    }
  }

  /** A product knows as many low bits as the known bits of one factor and the trailing
      zeros of the other determine, on both sides. */
  lemma ProductKnows(a: Tnum, b: Tnum, n: nat, ka: nat, za: nat, kb: nat, zb: nat)
    requires n <= 64 && kb <= 64 && zb <= 64 && n <= ka + zb && n <= za + kb
    requires KnownLow(a, ka) && ZeroLow(a, za) && KnownLow(b, kb) && ZeroLow(b, zb)
    ensures KnownLow(LongProduct(Constant(0), a, b), n)
  {
    RoundsLow(Constant(0), a, b, n, ka, za, kb, zb);
  }

  /** The product of two constants is the constant product, and zero times anything is
      zero. */
  lemma ConstantProducts(a: Tnum, b: Tnum)
    requires a.Wf() && b.Wf()
    ensures a.IsConstant() && b.IsConstant() ==>
              LongProduct(Constant(0), a, b) == Constant(Wrap64(a.value * b.value))
    ensures a == Constant(0) || b == Constant(0) ==> LongProduct(Constant(0), a, b) == Constant(0)
  {
    hide Tnum.Contains, Tnum.Wf, Pow2, Wrap64, LongProduct;
    Pow2Words();
    LeastAndGreatest(a);
    LeastAndGreatest(b);
    ProductSound(a, b, a.value, b.value);
    NoMultiple(a);
    NoMultiple(b);
    if a.IsConstant() && b.IsConstant() {
      ProductKnows(a, b, 64, 64, 0, 64, 0);
      OnlyMember(LongProduct(Constant(0), a, b), Wrap64(a.value * b.value));
    }
    if a == Constant(0) || b == Constant(0) {
      if a == Constant(0) {
        ProductKnows(a, b, 64, 64, 64, 0, 0);
      } else {
        ProductKnows(a, b, 64, 0, 0, 64, 64);
      }
      assert a.value * b.value == 0;
      ZeroWraps();
      OnlyMember(LongProduct(Constant(0), a, b), 0);
    }
  }

  lemma ZeroWraps()
    ensures Wrap64(0) == 0
  {
  }

  lemma NoMultiple(t: Tnum)
    ensures KnownLow(t, 0) && ZeroLow(t, 0)
  {
    assert Pow2(0) == 1;
  }

  lemma OnlyMember(t: Tnum, x: U64)
    requires KnownLow(t, 64) && t.Wf() && t.Contains(x)
    ensures t == Constant(x)
  {
    hide Bit, Tnum.Contains, Tnum.Wf;
    Pow2Words();
    assert t.mask == 0;
    ContainsIsAgreement(t, x);
    BitsOfZero();
    Extensional64(t.value, x);
  }

  lemma {:induction false} RoundsSound(acc: Tnum, a: Tnum, b: Tnum, x: U64, y: U64, i: nat)
    requires acc.Wf() && a.Wf() && b.Wf() && MulState(acc, a, b, x, y, i)
    ensures LongProduct(acc, a, b).Wf() && LongProduct(acc, a, b).Contains(Wrap64(x * y))
    decreases a.value + a.mask
  {
    hide Tnum.Contains, Tnum.Wf, MulState, Accumulate, Wrap64, Tnum.RShift, Tnum.LShift;
    if a.value == 0 && a.mask == 0 {
      MulEnd(acc, a, b, x, y, i);
    } else {
      MulStateNext(acc, a, b, x, y, i);
      MulWf(acc, a, b);
      RoundsSound(Accumulate(acc, a, b), a.RShift(1), b.LShift(1), x, y, i + 1);
    }
  }

  lemma ProductSound(a: Tnum, b: Tnum, x: U64, y: U64)
    requires a.Wf() && b.Wf() && a.Contains(x) && b.Contains(y)
    ensures LongProduct(Constant(0), a, b).Wf() && LongProduct(Constant(0), a, b).Contains(Wrap64(x * y))
  {
    hide Tnum.Contains, Tnum.Wf, MulState, LongProduct, Wrap64;
    MulStart(a, b);
    RoundsSound(Constant(0), a, b, x, y, 0);
  }
}
