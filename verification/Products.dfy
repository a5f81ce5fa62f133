/** 32-bit products of intervals (`src/exec.rs`): the rule reads the endpoint
    products as i64, and keeps or loses products accordingly. */
module Products {
  import opened Words
  import opened Scalar

  ghost predicate InW(r: (U32, U32), x: U32) { r.0 <= x <= r.1 }

  // ── The interval the rule computes ───────────────────────────────────────

  lemma ModWindowSound(lo: int, hi: int, z: int)
    requires lo <= z <= hi
    ensures InW(ModWindow(lo, hi, hi - lo), Wrap32(z))
  {
    if hi - lo < TWO32 && Wrap32(lo) <= Wrap32(hi) {
      var q := lo / TWO32;
      assert hi / TWO32 == q;
      DivUnique(z, TWO32, q, z - TWO32 * q);
    }
  }

  lemma IntervalModSound(lo: int, hi: int, z: int)
    requires lo <= z <= hi && hi - lo < TWO63
    ensures InW(IntervalMod(lo, hi), Wrap32(z))
  {
    hide ModWindow;
    SignedOfWrap(hi - lo);
    ModWindowSound(lo, hi, z);
  }

  lemma SameResidue(lo: U64)
    ensures Wrap32(Signed64(lo)) == Wrap32(lo)
  {
    if lo >= TWO63 {
      ModShift(lo, TWO32, -TWO32);
    }
  }

  /** The width `interval_mod` computes for two products. */
  function ProductWidth(lo: U64, hi: U64): int { if lo < TWO63 <= lo + TWO63 <= hi then hi - lo - TWO64 else hi - lo }

  lemma ProductWidthIs(lo: U64, hi: U64)
    requires lo <= hi
    ensures Signed64(Wrap64(Signed64(hi) - Signed64(lo))) == ProductWidth(lo, hi)
  {
    if lo < TWO63 <= hi {
      ModShift(hi - lo, TWO64, -1);
      assert Wrap64(hi - lo) == hi - lo;
    } else {
      SignedOfWrap(hi - lo);
    }
  }

  lemma Mul32Window(lo: U64, hi: U64)
    requires lo <= hi
    ensures Mul32Range(lo, hi) == ModWindow(lo, hi, ProductWidth(lo, hi))
  {
    hide ProductWidth, Signed64, Wrap32;
    ProductWidthIs(lo, hi);
    SameResidue(lo);
    SameResidue(hi);
    assert Wrap64(lo) == lo && Wrap64(hi) == hi;
  }

  lemma ProductRange(d: (U32, U32), s: (U32, U32))
    requires d.0 <= d.1 && s.0 <= s.1
    ensures 0 <= d.0 * s.0 <= d.1 * s.1 < TWO64
  {
    MulMono(d.0, d.1, s.0);
    MulMono(s.0, s.1, d.1);
    MulMono(d.1, U32_MAX, s.1);
    MulMono(s.1, U32_MAX, U32_MAX);
  }

  // ── When the rule covers every product ───────────────────────────────────

  /** The order of the endpoint products survives the reading as i64, or the
      claimed interval is everything. */
  predicate Mul32Fits(lo: int, hi: int) {
    hi < TWO63 || lo >= TWO63 || hi - lo < TWO63 || Wrap32(lo) > Wrap32(hi)
        || (Wrap32(lo) == 0 && Wrap32(hi) == U32_MAX)
  }

  /** The multiples c * b of a constant, b in s, all fall between the residues of
      the two endpoint products although the order is lost: either all are
      multiples of the gap H above the last residue, or stepping by the inverse
      of c through the gap just spans the values outside s. */
  predicate ConstFactorOk(c: U32, s: (U32, U32)) {
    var first, last := Wrap32(c * s.0), Wrap32(c * s.1);
    var gap, rest := TWO32 - (last - first), TWO32 - (s.1 - s.0);
    && gap > 0
    && ((first == 0 && TWO32 % gap == 0 && c % gap == 0) || (rest % gap == 0 && Wrap32(c * (rest / gap)) == 1))
  }

  predicate Mul32Ok(d: (U32, U32), s: (U32, U32)) {
    || Mul32Fits(d.0 * s.0, d.1 * s.1)
    || (d.0 == d.1 && ConstFactorOk(d.0, s))
    || (s.0 == s.1 && ConstFactorOk(s.0, d))
  }

  ghost predicate CoversProducts(d: (U32, U32), s: (U32, U32)) {
    forall a: U32, b: U32 :: InW(d, a) && InW(s, b) ==> InW(Alu32Range(Mul, d, s), Alu32(Mul, a, b))
  }

  lemma FitsSound(lo: U64, hi: U64, z: int)
    requires lo <= z <= hi && Mul32Fits(lo, hi)
    ensures InW(Mul32Range(lo, hi), Wrap32(z))
  {
    hide Mul32Range, Wrap32;
    Mul32Window(lo, hi);
    if ProductWidth(lo, hi) == hi - lo {
      ModWindowSound(lo, hi, z);
    } else {
      Residue32(z);
    }
  }

  lemma Residue32(z: int)
    ensures 0 <= Wrap32(z) <= U32_MAX
  {
  }

  /** What is left of the rule when the order is lost. */
  lemma LostRange(lo: U64, hi: U64)
    requires lo <= hi && !Mul32Fits(lo, hi)
    ensures Mul32Range(lo, hi) == (Wrap32(lo), Wrap32(hi)) && hi - lo >= TWO63
  {
    hide Mul32Range, Wrap32;
    Mul32Window(lo, hi);
  }

  // ── Residues modulo 2^32 ─────────────────────────────────────────────────

  ghost predicate Cong(x: int, y: int) { Wrap32(x) == Wrap32(y) }

  lemma CongOf(x: int)
    ensures Cong(Wrap32(x), x)
  {
  }

  lemma CongBy(x: int, y: int, k: int)
    requires x == y + TWO32 * k
    ensures Cong(x, y)
  {
    ModShift(y, TWO32, k);
  }

  lemma CongMul(k: int, x: int, y: int)
    requires Cong(x, y)
    ensures Cong(k * x, k * y)
  {
    var q := x / TWO32 - y / TWO32;
    assert x == y + TWO32 * q;
    assert k * (TWO32 * q) == TWO32 * (k * q);
    assert k * x == k * y + k * (TWO32 * q);
    CongBy(k * x, k * y, k * q);
  }

  lemma CongAdd(x: int, y: int, k: int)
    requires Cong(x, y)
    ensures Cong(x + k, y + k)
  {
    CongBy(x + k, y + k, x / TWO32 - y / TWO32);
  }

  lemma CongNear(x: int, y: int)
    requires Cong(x, y) && -TWO32 < x - y < TWO32
    ensures x == y
  {
  }

  /** Multiplying by an inverse of c cancels c. */
  lemma CancelInverse(c: int, g: int, x: int)
    requires Cong(c * g, 1)
    ensures Cong(g * (c * x), x) && Cong(c * (g * x), x)
  {
    hide Cong;
    CongMul(x, c * g, 1);
    assert g * (c * x) == x * (c * g) && c * (g * x) == x * (c * g);
  }

  // ── One constant factor: the condition suffices ──────────────────────────

  lemma MultipleBelow(c: nat, b: nat, h: nat)
    requires h > 0 && TWO32 % h == 0 && c % h == 0
    ensures Wrap32(c * b) <= TWO32 - h
  {
    var p, q, t := TWO32 / h, c / h, (c * b) / TWO32;
    assert TWO32 == h * p && c == h * q;
    var m := q * b - p * t;
    assert c * b == h * (q * b) by {
      assert (h * q) * b == h * (q * b);
    }
    assert TWO32 * t == h * (p * t) by {
      assert (h * p) * t == h * (p * t);
    }
    assert Wrap32(c * b) == h * (q * b) - h * (p * t);
    assert h * (q * b) - h * (p * t) == h * m;
    if m >= p {
      MulMono(p, m, h);
    } else {
      MulMono(m, p - 1, h);
      assert (p - 1) * h == p * h - h;
    }
  }

  /** The residue of c * b lies t above the last one, cyclically. */
  lemma OutsideStep(c: U32, g: int, s: (U32, U32), b: int, t: int)
    requires Cong(c * g, 1) && s.0 <= b <= s.1 && Cong(c * b, Wrap32(c * s.1) + t)
    ensures Cong(b, s.1 + g * t)
  {
    hide Cong, Wrap32;
    CongOf(c * s.1);
    CongAdd(Wrap32(c * s.1), c * s.1, t);
    CongTrans(c * b, Wrap32(c * s.1) + t, c * s.1 + t);
    CongMul(g, c * b, c * s.1 + t);
    CancelInverse(c, g, b);
    CancelInverse(c, g, s.1);
    assert g * (c * s.1 + t) == g * (c * s.1) + g * t;
    CongAdd(g * (c * s.1), s.1, g * t);
    CongTrans(g * (c * b), g * (c * s.1) + g * t, s.1 + g * t);
    CongSym(g * (c * b), b);
    CongTrans(b, g * (c * b), s.1 + g * t);
  }

  lemma CongTrans(x: int, y: int, z: int)
    requires Cong(x, y) && Cong(y, z)
    ensures Cong(x, z)
  {
  }

  lemma CongSym(x: int, y: int)
    requires Cong(x, y)
    ensures Cong(y, x)
  {
  }

  lemma WholeQuotient(rest: int, gap: int)
    requires rest > 0 && gap > 0 && rest % gap == 0
    ensures rest / gap >= 1 && rest == (rest / gap) * gap
  {
  }

  /** A residue outside [first, last] lies less than the gap above last. */
  function Above(last: int, v: int): int { if v > last then v - last else v - last + TWO32 }

  lemma AboveIs(first: U32, last: U32, x: int)
    requires first <= last && !(first <= Wrap32(x) <= last)
    ensures 1 <= Above(last, Wrap32(x)) < TWO32 - (last - first) && Cong(x, last + Above(last, Wrap32(x)))
  {
    var v := Wrap32(x);
    CongBy(last + Above(last, v), v, if v > last then 0 else 1);
    CongOf(x);
  }

  lemma InverseStepsMiss(c: U32, s: (U32, U32), b: U32, g: int, gap: int, t: int)
    requires InW(s, b) && Cong(c * g, 1) && g >= 1 && 1 <= t < gap && TWO32 - (s.1 - s.0) == g * gap
    ensures !Cong(c * b, Wrap32(c * s.1) + t)
  {
    hide Wrap32;
    if Cong(c * b, Wrap32(c * s.1) + t) {
      OutsideStep(c, g, s, b, t);
      SmallSpan(g, t, gap, TWO32 - (s.1 - s.0));
      CongNear(b, s.1 + g * t);
    }
  }

  lemma ConstFactorSound(c: U32, s: (U32, U32), b: U32)
    requires InW(s, b) && ConstFactorOk(c, s) && Wrap32(c * s.0) <= Wrap32(c * s.1)
    ensures Wrap32(c * s.0) <= Wrap32(c * b) <= Wrap32(c * s.1)
  {
    hide Wrap32, Above;
    var first, last, v := Wrap32(c * s.0), Wrap32(c * s.1), Wrap32(c * b);
    var gap, rest := TWO32 - (last - first), TWO32 - (s.1 - s.0);
    if first == 0 && TWO32 % gap == 0 && c % gap == 0 {
      MultipleBelow(c, b, gap);
      Residue32(c * b);
    } else if !(first <= v <= last) {
      hide Cong;
      WholeQuotient(rest, gap);
      AboveIs(first, last, c * b);
      CongOne(c * (rest / gap));
      InverseStepsMiss(c, s, b, rest / gap, gap, Above(last, v));
    }
  }

  lemma CongOne(x: int)
    requires Wrap32(x) == 1
    ensures Cong(x, 1)
  {
  }

  lemma SmallSpan(g: int, t: int, gap: int, rest: int)
    requires 1 <= t < gap && g >= 1 && rest == g * gap
    ensures 0 < g * t < rest
  {
    MulMono(1, t, g);
    MulMono(t + 1, gap, g);
    assert (t + 1) * g == t * g + g;
  }

  // ── One constant factor: the condition is necessary ──────────────────────

  /** Odd numbers are invertible modulo powers of two. */
  lemma {:induction false} OddInverse(c: nat, n: nat) returns (g: nat)
    requires c % 2 == 1
    ensures (c * g) % Pow2(n) == 1 % Pow2(n)
  {
    if n == 0 {
      g := 0;
      assert Pow2(0) == 1;
    } else if n == 1 {
      g := 1;
      assert Pow2(1) == 2;
    } else {
      var h := OddInverse(c, n - 1);
      Pow2Mono(1, n - 1);
      assert Pow2(1) == 2 && Pow2(n) == 2 * Pow2(n - 1);
      hide Pow2;
      OneMod(Pow2(n - 1));
      g := LiftOnce(c, h, Pow2(n - 1));
      OneMod(2 * Pow2(n - 1));
    }
  }

  lemma OneMod(p: nat)
    requires p >= 2
    ensures 1 % p == 1
  {
  }

  lemma LiftOnce(c: nat, h: nat, p: nat) returns (g: nat)
    requires p >= 2 && c % 2 == 1 && (c * h) % p == 1
    ensures (c * g) % (2 * p) == 1
  {
    var q := (c * h) / p;
    assert c * h == p * q + 1;
    if q % 2 == 0 {
      g := h;
      assert p * (2 * (q / 2)) == (2 * p) * (q / 2);
      DivUnique(c * g, 2 * p, q / 2, 1);
    } else {
      g := h + p;
      LiftInverse(c, h, p, q);
    }
  }

  lemma LiftInverse(c: nat, h: nat, p: nat, q: nat)
    requires p >= 2 && c % 2 == 1 && q % 2 == 1 && c * h == p * q + 1
    ensures (c * (h + p)) % (2 * p) == 1
  {
    var u := (q + c) / 2;
    assert q + c == 2 * u;
    assert c * (h + p) == c * h + c * p;
    assert p * q + c * p == p * (q + c);
    assert p * (2 * u) == (2 * p) * u;
    DivUnique(c * (h + p), 2 * p, u, 1);
  }

  /** Every multiple c * b stays between the residues of the endpoints. */
  ghost predicate RowCovered(c: U32, s: (U32, U32)) {
    forall b: U32 :: InW(s, b) ==> Wrap32(c * s.0) <= Wrap32(c * b) <= Wrap32(c * s.1)
  }

  /** A value x steps above s.1, wrapped back into s, has the residue of t above
      the last one. */
  lemma WrappedBack(c: U32, s: (U32, U32), x: U32, t: int)
    requires Cong(c * x, t)
    ensures Cong(c * (s.1 + x - TWO32), Wrap32(c * s.1) + t)
  {
    hide Wrap32;
    var b := s.1 + x - TWO32;
    assert c * b == c * s.1 + c * x + TWO32 * (0 - c) by {
      assert c * (s.1 + x) == c * s.1 + c * x;
      assert c * b == c * (s.1 + x) - c * TWO32;
    }
    CongBy(c * b, c * s.1 + c * x, 0 - c);
    hide Cong;
    CongAdd(c * x, t, c * s.1);
    CongTrans(c * b, c * x + c * s.1, t + c * s.1);
    CongOf(c * s.1);
    CongSym(Wrap32(c * s.1), c * s.1);
    CongAdd(c * s.1, Wrap32(c * s.1), t);
    CongTrans(c * b, c * s.1 + t, Wrap32(c * s.1) + t);
  }

  lemma OutsideRow(first: U32, last: U32, x: int, t: int)
    requires first <= last && 1 <= t < TWO32 - (last - first) && Cong(x, last + t)
    ensures !(first <= Wrap32(x) <= last)
  {
    if last + t < TWO32 {
      DivUnique(last + t, TWO32, 0, last + t);
    } else {
      DivUnique(last + t, TWO32, 1, last + t - TWO32);
    }
  }

  /** Steps of the inverse through the gap stay outside s. */
  lemma GapStep(c: U32, s: (U32, U32), g: nat, t: nat)
    requires RowCovered(c, s) && Cong(c * g, 1) && s.0 < s.1
    requires var first, last := Wrap32(c * s.0), Wrap32(c * s.1); first <= last && 1 <= t < TWO32 - (last - first)
    ensures 1 <= Wrap32(g * t) < TWO32 - (s.1 - s.0)
  {
    hide Wrap32;
    var x := Wrap32(g * t);
    Residue32(g * t);
    CongOf(g * t);
    CongMul(c, x, g * t);
    CancelInverse(c, g, t);
    CongTrans(c * x, c * (g * t), t);
    if x == 0 {
      CongSym(c * x, t);
      CongNear(t, c * x);
    } else if x >= TWO32 - (s.1 - s.0) {
      var b: U32 := s.1 + x - TWO32;
      assert InW(s, b);
      WrappedBack(c, s, x, t);
      OutsideRow(Wrap32(c * s.0), Wrap32(c * s.1), c * b, t);
    }
  }

  lemma GapIs(c: U32, s: (U32, U32))
    ensures Cong(TWO32 - (Wrap32(c * s.1) - Wrap32(c * s.0)), c * (s.0 - s.1))
  {
    var x, y := c * s.0, c * s.1;
    assert c * (s.0 - s.1) == x - y;
    GapDifference(x, y);
  }

  lemma GapDifference(x: int, y: int)
    ensures Cong(TWO32 - (Wrap32(y) - Wrap32(x)), x - y)
  {
    var k := 1 + y / TWO32 - x / TWO32;
    assert x == TWO32 * (x / TWO32) + Wrap32(x) && y == TWO32 * (y / TWO32) + Wrap32(y);
    CongBy(TWO32 - (Wrap32(y) - Wrap32(x)), x - y, k);
  }

  lemma GapEnd(c: U32, s: (U32, U32), g: nat)
    requires Cong(c * g, 1)
    ensures Cong(g * (TWO32 - (Wrap32(c * s.1) - Wrap32(c * s.0))), TWO32 - (s.1 - s.0))
  {
    hide Wrap32, Cong;
    var gap := TWO32 - (Wrap32(c * s.1) - Wrap32(c * s.0));
    GapIs(c, s);
    CongMul(g, gap, c * (s.0 - s.1));
    CancelInverse(c, g, s.0 - s.1);
    CongTrans(g * gap, g * (c * (s.0 - s.1)), s.0 - s.1);
    CongBy(TWO32 - (s.1 - s.0), s.0 - s.1, 1);
    CongSym(TWO32 - (s.1 - s.0), s.0 - s.1);
    CongTrans(g * gap, s.0 - s.1, TWO32 - (s.1 - s.0));
  }

  /** Without a wrap the steps add up. */
  lemma {:induction false} StepsAddUp(g: nat, t: nat, gap: nat, rest: nat)
    requires 1 <= t < gap && rest <= TWO31
    requires forall u: nat :: 1 <= u < gap ==> 1 <= Wrap32(g * u) < rest
    requires g < TWO32
    ensures 1 <= g * t < rest
    decreases t
  {
    if t == 1 {
      assert 1 <= Wrap32(g * 1) < rest;
    } else {
      StepsAddUp(g, t - 1, gap, rest);
      assert 1 <= Wrap32(g * 1) < rest;
      assert g * t == g * (t - 1) + g;
      assert 1 <= Wrap32(g * t) < rest;
    }
  }

  lemma OddNecessary(c: U32, s: (U32, U32))
    requires c % 2 == 1 && s.1 - s.0 >= TWO31 && RowCovered(c, s)
    requires Wrap32(c * s.0) <= Wrap32(c * s.1) && Wrap32(c * s.1) - Wrap32(c * s.0) < U32_MAX
    ensures ConstFactorOk(c, s)
  {
    hide Wrap32, RowCovered, Cong;
    var first, last := Wrap32(c * s.0), Wrap32(c * s.1);
    var gap, rest := TWO32 - (last - first), TWO32 - (s.1 - s.0);
    var g := SmallInverse(c);
    forall t: nat | 1 <= t < gap
      ensures 1 <= Wrap32(g * t) < rest
    {
      GapStep(c, s, g, t);
    }
    StepsAddUp(g, gap - 1, gap, rest);
    StepsAddUp(g, 1, gap, rest);
    assert g * gap == g * (gap - 1) + g && g * 1 == g;
    GapEnd(c, s, g);
    CongNear(g * gap, rest);
    DivUnique(rest, gap, g, 0);
    InverseResidue(c, g);
  }

  lemma SmallInverse(c: U32) returns (g: nat)
    requires c % 2 == 1
    ensures g < TWO32 && Cong(c * g, 1)
  {
    var h := OddInverse(c, 32);
    Pow2Words();
    g := Wrap32(h);
    CongOf(h);
    CongMul(c, g, h);
  }

  lemma InverseResidue(c: U32, g: nat)
    requires Cong(c * g, 1)
    ensures Wrap32(c * g) == 1
  {
  }

  /** A positive number is a power of two times an odd number. */
  lemma {:induction false} OddPart(c: nat) returns (k: nat, m: nat)
    requires c > 0
    ensures c == Pow2(k) * m && m % 2 == 1
    decreases c
  {
    if c % 2 == 1 {
      k, m := 0, c;
      assert Pow2(0) == 1;
    } else {
      var k', m' := OddPart(c / 2);
      k, m := k' + 1, m';
      assert (2 * Pow2(k')) * m == 2 * (Pow2(k') * m);
    }
  }

  /** A member of the range in a given residue class of a divisor of 2^32. */
  lemma ClassMember(s: (U32, U32), p: nat, r: int) returns (b: U32, j: int)
    requires 0 < p <= TWO31 && s.1 - s.0 >= TWO31
    ensures InW(s, b) && b == p * j + r
  {
    j := (s.0 - r + p - 1) / p;
    var rem := (s.0 - r + p - 1) % p;
    assert s.0 - r + p - 1 == p * j + rem;
    b := p * j + r;
  }

  lemma ScaledResidues(k: nat, m: nat, p: nat, h: nat, q: int, j: int, i: int)
    requires Pow2(k) * p == TWO32 && m * h == p * q + 1
    ensures Pow2(k) * m * (p * j) == TWO32 * (m * j)
    ensures Pow2(k) * m * (p * i - h) == TWO32 * (m * i - q) - Pow2(k)
  {
    hide Pow2;
    var w := Pow2(k);
    assert w * m * (p * j) == (w * p) * (m * j);
    assert w * m * (p * i) == (w * p) * (m * i);
    assert w * m * (p * i - h) == w * m * (p * i) - w * (m * h);
    assert w * (p * q + 1) == (w * p) * q + w;
  }

  lemma EvenNecessary(c: U32, s: (U32, U32))
    requires c % 2 == 0 && c > 0 && s.1 - s.0 >= TWO31 && RowCovered(c, s)
    ensures ConstFactorOk(c, s)
  {
    hide Wrap32, RowCovered, Pow2, ConstFactorOk;
    var k, m := OddPart(c);
    EvenPower(c, k, m);
    var w, p := Pow2(k), Pow2(32 - k);
    var h := OddInverse(m, 32 - k);
    OddEnds(c, s, k, m, h);
    WholeMultiples(c, w, m, p, s);
  }

  lemma OddEnds(c: U32, s: (U32, U32), k: nat, m: nat, h: nat)
    requires s.1 - s.0 >= TWO31 && RowCovered(c, s) && c == Pow2(k) * m && 1 <= k < 32
    requires Pow2(k) * Pow2(32 - k) == TWO32 && 2 <= Pow2(32 - k) <= TWO31
    requires (m * h) % Pow2(32 - k) == 1 % Pow2(32 - k)
    ensures Wrap32(c * s.0) == 0 && Wrap32(c * s.1) >= TWO32 - Pow2(k)
  {
    hide Wrap32, RowCovered, Pow2;
    var w, p := Pow2(k), Pow2(32 - k);
    var q := (m * h) / p;
    OneRemainder(m * h, p);
    var b1, j := ClassMember(s, p, 0);
    var b2, i := ClassMember(s, p, 0 - h);
    ScaledResidues(k, m, p, h, q, j, i);
    BelowModulus(w, p);
    EvenEnds(c, s, w, b1, b2, m * j, m * i - q);
  }

  lemma OneRemainder(x: int, p: int)
    requires p >= 2 && x % p == 1 % p
    ensures x == p * (x / p) + 1
  {
  }

  lemma BelowModulus(w: nat, p: nat)
    requires w * p == TWO32 && p >= 2 && w > 0
    ensures w < TWO32
  {
    MulMono(2, p, w);
  }

  lemma EvenPower(c: U32, k: nat, m: nat)
    requires c % 2 == 0 && c > 0 && c == Pow2(k) * m && m % 2 == 1
    ensures 1 <= k < 32 && Pow2(k) * Pow2(32 - k) == TWO32 && 2 <= Pow2(32 - k) <= TWO31
  {
    assert Pow2(0) == 1;
    if k >= 32 {
      Pow2Mono(32, k);
      Pow2Words();
      MulMono(1, m, Pow2(k));
    } else if k > 0 {
      Pow2Add(k, 32 - k);
      Pow2Mono(32 - k, 31);
      Pow2Mono(1, 32 - k);
      assert Pow2(1) == 2;
      Pow2Words();
    }
  }

  lemma EvenEnds(c: U32, s: (U32, U32), w: nat, b1: U32, b2: U32, x: int, y: int)
    requires RowCovered(c, s) && InW(s, b1) && InW(s, b2) && 0 < w < TWO32
    requires c * b1 == TWO32 * x && c * b2 == TWO32 * y - w
    ensures Wrap32(c * s.0) == 0 && Wrap32(c * s.1) >= TWO32 - w
  {
    DivUnique(c * b1, TWO32, x, 0);
    DivUnique(c * b2, TWO32, y - 1, TWO32 - w);
  }

  lemma WholeMultiples(c: U32, w: nat, m: nat, p: nat, s: (U32, U32))
    requires 0 < w && c == w * m && w * p == TWO32
    requires Wrap32(c * s.0) == 0 && Wrap32(c * s.1) >= TWO32 - w
    ensures ConstFactorOk(c, s)
  {
    DivUnique(c, w, m, 0);
    DivUnique(TWO32, w, p, 0);
    MultipleBelow(c, s.1, w);
  }

  /** For a constant factor the condition decides the row. */
  lemma ConstFactorExact(c: U32, s: (U32, U32))
    requires s.0 <= s.1 && !Mul32Fits(c * s.0, c * s.1)
    ensures ConstFactorOk(c, s) <==> RowCovered(c, s)
  {
    hide ConstFactorOk, RowCovered;
    WideRow(c, s);
    if ConstFactorOk(c, s) {
      RowOfSound(c, s);
    }
    if RowCovered(c, s) {
      if c % 2 == 1 {
        OddNecessary(c, s);
      } else {
        EvenNecessary(c, s);
      }
    }
  }

  lemma WideRow(c: U32, s: (U32, U32))
    requires s.0 <= s.1 && !Mul32Fits(c * s.0, c * s.1)
    ensures c > 0 && s.1 - s.0 >= TWO31
    ensures Wrap32(c * s.0) <= Wrap32(c * s.1) && Wrap32(c * s.1) - Wrap32(c * s.0) < U32_MAX
  {
    hide Wrap32;
    Residue32(c * s.0);
    Residue32(c * s.1);
    assert c * s.1 - c * s.0 == c * (s.1 - s.0);
    if s.1 - s.0 < TWO31 {
      MulMono(s.1 - s.0, TWO31, c);
      MulMono(c, U32_MAX, TWO31);
    }
  }

  lemma RowOfSound(c: U32, s: (U32, U32))
    requires ConstFactorOk(c, s) && Wrap32(c * s.0) <= Wrap32(c * s.1)
    ensures RowCovered(c, s)
  {
    hide ConstFactorOk;
    forall b: U32 | InW(s, b)
      ensures Wrap32(c * s.0) <= Wrap32(c * b) <= Wrap32(c * s.1)
    {
      ConstFactorSound(c, s, b);
    }
  }

  // ── All products ─────────────────────────────────────────────────────────

  lemma ProductBetween(d: (U32, U32), s: (U32, U32), a: U32, b: U32)
    requires InW(d, a) && InW(s, b)
    ensures d.0 * s.0 <= a * b <= d.1 * s.1
  {
    MulMono(d.0, a, s.0);
    MulMono(s.0, b, a);
    MulMono(a, d.1, b);
    MulMono(b, s.1, d.1);
  }

  /** Under the condition the rule covers every product. */
  lemma Mul32Sound(d: (U32, U32), s: (U32, U32), a: U32, b: U32)
    requires InW(d, a) && InW(s, b) && Mul32Ok(d, s)
    ensures InW(Mul32Range(d.0 * s.0, d.1 * s.1), Wrap32(a * b))
  {
    hide Mul32Range, Wrap32, ConstFactorOk, Mul32Fits;
    var lo, hi := d.0 * s.0, d.1 * s.1;
    ProductRange(d, s);
    ProductBetween(d, s, a, b);
    if Mul32Fits(lo, hi) {
      FitsSound(lo, hi, a * b);
    } else if d.0 == d.1 && ConstFactorOk(d.0, s) {
      ConstRowSound(d.0, s, b);
    } else {
      assert d.0 * s.0 == s.0 * d.0 && d.1 * s.1 == s.0 * d.1 && a * b == s.0 * a;
      ConstRowSound(s.0, d, a);
    }
  }

  lemma ConstRowSound(c: U32, s: (U32, U32), b: U32)
    requires InW(s, b) && ConstFactorOk(c, s) && 0 <= c * s.0 <= c * s.1 < TWO64 && !Mul32Fits(c * s.0, c * s.1)
    ensures InW(Mul32Range(c * s.0, c * s.1), Wrap32(c * b))
  {
    hide Mul32Range, ConstFactorOk;
    LostRange(c * s.0, c * s.1);
    ConstFactorSound(c, s, b);
  }

  /** Where the condition is shown to be exact: a constant factor, or both ranges
      reaching down to 2^31. */
  predicate Mul32Decided(d: (U32, U32), s: (U32, U32)) {
    d.0 == d.1 || s.0 == s.1 || (d.0 < TWO31 && s.0 <= TWO31) || (s.0 < TWO31 && d.0 <= TWO31)
  }

  /** Around 2^31 there are products with residues 0 and 2^32 - 1. */
  lemma MiddleProducts()
    ensures Wrap32(TWO31 * TWO31) == 0 && Wrap32((TWO31 - 1) * (TWO31 + 1)) == U32_MAX
  {
  }

  lemma TopsAreHigh(d: (U32, U32), s: (U32, U32))
    requires d.0 <= d.1 && s.0 <= s.1 && !Mul32Fits(d.0 * s.0, d.1 * s.1)
    ensures d.1 > TWO31 && s.1 > TWO31
  {
    hide Wrap32;
    if d.1 <= TWO31 {
      MulMono(d.1, TWO31, s.1);
      MulMono(s.1, U32_MAX, TWO31);
    }
    if s.1 <= TWO31 {
      MulMono(s.1, TWO31, d.1);
      MulMono(d.1, U32_MAX, TWO31);
    }
  }

  lemma RangeIs(d: (U32, U32), s: (U32, U32), a: U32, b: U32)
    ensures Alu32Range(Mul, d, s) == Mul32Range(d.0 * s.0, d.1 * s.1) && Alu32(Mul, a, b) == Wrap32(a * b)
  {
  }

  lemma ConstNecessary(d: (U32, U32), s: (U32, U32))
    requires d.0 == d.1 && s.0 <= s.1 && CoversProducts(d, s) && !Mul32Fits(d.0 * s.0, d.1 * s.1)
    ensures ConstFactorOk(d.0, s)
  {
    hide Mul32Range, ConstFactorOk, Wrap32, Alu32Range, Alu32;
    ProductRange(d, s);
    LostRange(d.0 * s.0, d.1 * s.1);
    forall b: U32 | InW(s, b)
      ensures Wrap32(d.0 * s.0) <= Wrap32(d.0 * b) <= Wrap32(d.0 * s.1)
    {
      RangeIs(d, s, d.0, b);
      assert InW(d, d.0);
    }
    ConstFactorExact(d.0, s);
  }

  lemma Swap(d: (U32, U32), s: (U32, U32))
    ensures Alu32Range(Mul, d, s) == Alu32Range(Mul, s, d)
    ensures CoversProducts(d, s) ==> CoversProducts(s, d)
  {
    hide Mul32Range, Wrap32;
    assert d.0 * s.0 == s.0 * d.0 && d.1 * s.1 == s.1 * d.1;
    if CoversProducts(d, s) {
      forall a: U32, b: U32 | InW(s, a) && InW(d, b)
        ensures InW(Alu32Range(Mul, s, d), Alu32(Mul, a, b))
      {
        assert b * a == a * b && Alu32(Mul, b, a) == Alu32(Mul, a, b);
      }
    }
  }

  lemma MiddleNecessary(d: (U32, U32), s: (U32, U32))
    requires d.0 <= d.1 && s.0 <= s.1 && d.0 < TWO31 && s.0 <= TWO31 && CoversProducts(d, s)
    ensures Mul32Fits(d.0 * s.0, d.1 * s.1)
  {
    hide Mul32Range, Wrap32, Alu32Range, Alu32;
    if !Mul32Fits(d.0 * s.0, d.1 * s.1) {
      ProductRange(d, s);
      TopsAreHigh(d, s);
      LostRange(d.0 * s.0, d.1 * s.1);
      MiddleProducts();
      RangeIs(d, s, TWO31, TWO31);
      RangeIs(d, s, TWO31 - 1, TWO31 + 1);
      assert InW(d, TWO31) && InW(s, TWO31) && InW(d, TWO31 - 1) && InW(s, TWO31 + 1);
      Residue32(d.0 * s.0);
      Residue32(d.1 * s.1);
    }
  }

  /** The rule covers all products of a in d and b in s exactly under the
      condition, for a constant factor and for ranges that reach down to 2^31. */
  lemma Mul32Exact(d: (U32, U32), s: (U32, U32))
    requires d.0 <= d.1 && s.0 <= s.1 && Mul32Decided(d, s)
    ensures Mul32Ok(d, s) <==> CoversProducts(d, s)
  {
    hide Mul32Range, ConstFactorOk, Wrap32, Alu32Range, Alu32, Mul32Fits;
    if Mul32Ok(d, s) {
      forall a: U32, b: U32 | InW(d, a) && InW(s, b)
        ensures InW(Alu32Range(Mul, d, s), Alu32(Mul, a, b))
      {
        RangeIs(d, s, a, b);
        Mul32Sound(d, s, a, b);
      }
    }
    if CoversProducts(d, s) && !Mul32Fits(d.0 * s.0, d.1 * s.1) {
      Swap(d, s);
      assert d.0 * s.0 == s.0 * d.0 && d.1 * s.1 == s.1 * d.1;
      if d.0 == d.1 {
        ConstNecessary(d, s);
      } else if s.0 == s.1 {
        ConstNecessary(s, d);
      } else if d.0 < TWO31 && s.0 <= TWO31 {
        MiddleNecessary(d, s);
      } else {
        MiddleNecessary(s, d);
      }
    }
  }

  /** Two unknown 32-bit factors: the rule claims [0, 1], but 1 * 2 is 2. */
  lemma Mul32Counterexample()
    ensures Alu32Range(Mul, (0, U32_MAX), (0, U32_MAX)) == (0, 1) && Alu32(Mul, 1, 2) == 2
    ensures !CoversProducts((0, U32_MAX), (0, U32_MAX))
  {
    var full: (U32, U32) := (0, U32_MAX);
    assert InW(full, 1) && InW(full, 2);
    assert !InW(Alu32Range(Mul, full, full), Alu32(Mul, 1, 2));
  }

  /** Beyond the decided ranges the condition is not necessary: all products of -6 or
      -5 and b <= 0x9999999A avoid -1, the only value outside the claimed interval. */
  lemma Mul32OkNotNecessary()
    ensures !Mul32Decided((0xFFFFFFFA, 0xFFFFFFFB), (0, 0x9999999A))
    ensures !Mul32Ok((0xFFFFFFFA, 0xFFFFFFFB), (0, 0x9999999A))
    ensures CoversProducts((0xFFFFFFFA, 0xFFFFFFFB), (0, 0x9999999A))
  {
    AvoidingRange();
    hide Alu32Range;
    forall a: U32, b: U32 | InW((0xFFFFFFFA, 0xFFFFFFFB), a) && InW((0, 0x9999999A), b)
      ensures Alu32(Mul, a, b) != U32_MAX
    {
      MissesLast(a, b);
    }
  }

  lemma AvoidingRange()
    ensures Alu32Range(Mul, (0xFFFFFFFA, 0xFFFFFFFB), (0, 0x9999999A)) == (0, U32_MAX - 1)
  {
    assert 0xFFFFFFFA * 0 == 0 && 0xFFFFFFFB * 0x9999999A == 0x99999996_FFFFFFFE;
    assert Wrap32(0x99999996_FFFFFFFE) == U32_MAX - 1;
  }

  lemma MissesLast(a: U32, b: U32)
    requires 0xFFFFFFFA <= a <= 0xFFFFFFFB && b <= 0x9999999A
    ensures Wrap32(a * b) != U32_MAX
  {
    var c := TWO32 - a;
    var q := a * b / TWO32;
    assert c == 5 || c == 6;
    assert a * b == TWO32 * b - c * b;
    assert c * b + Wrap32(a * b) == TWO32 * (b - q);
  }
}
