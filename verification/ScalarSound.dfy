/** The ALU transfer functions cover the exact ALU: for x in γ(d) and y in γ(s)
    the concrete result is in γ of the abstract one, whenever `AluGuard` holds.
    The guard excludes the rules that do not over-approximate. Its conditions on
    remainders and shifts are exact; how exact the one on 32-bit products is, is
    the subject of Products. */
module ScalarSound {
  import opened Words
  import opened Bits
  import opened TnumDomain
  import opened Scalar
  import opened Products

  ghost predicate InS(r: (I64, I64), x: U64) { r.0 <= Signed64(x) <= r.1 }

  ghost predicate InU(r: (U64, U64), x: U64) { r.0 <= x <= r.1 }

  // ── Conditions for the rules that are not over-approximations ────────────

  /** Remainder by a negative constant -m: the dividend is in [-m, m-1]. */
  predicate SignedModOk(d: (I64, I64), s: (I64, I64)) {
    s.0 == s.1 < 0 && d.0 != d.1 ==> s.0 <= d.0 && d.1 <= -1 - s.0
  }

  /** Arithmetic shift by an amount in [s.0, s.1]. */
  predicate VarArshOk(d: (I64, I64), s: (I64, I64))
    requires s.0 >= 0
  {
    s.0 < s.1 ==> d.0 + Pow2(s.0) >= 0 && d.1 >= -1
  }

  /** A 64-bit tnum shift brings bits 32.. into the 32-bit result. */
  predicate Rsh32TnumOk(t: Tnum, k: nat) { (t.value / TWO32) % Pow2(k) == 0 }

  predicate Arsh32TnumOk(t: Tnum, k: nat) {
    forall j :: 32 <= j < 32 + k && Bit(t.mask, j) == false ==>
      !Bit(t.mask, 31) && Bit(t.value, j) == Bit(t.value, 31)
  }

  predicate AluGuard(op: AluOp, width: Width, d: Bounds, s: Bounds) {
    || (d.IsConstant() && s.IsConstant())
    || (IsShift(op) && (s.smin < 0 || s.smax >= BitWidth(width)))
    || match width
       case W64 =>
         && (op.Mod? ==> SignedModOk(d.SRange(), s.SRange()))
         && (op.Arsh? ==> VarArshOk(d.SRange(), s.SRange()))
       case W32 =>
         && (op.Mul? ==> Mul32Ok(d.U32Range(), s.U32Range()))
         && (op.Rsh? && s.smin == s.smax ==> Rsh32TnumOk(d.tnum, s.smin))
         && (op.Arsh? && s.smin == s.smax ==> Arsh32TnumOk(d.tnum, s.smin))
  }

  // ── Signed intervals ─────────────────────────────────────────────────────

  lemma SignedRound(z: I64, x: U64)
    requires z == Signed64(x)
    ensures Wrap64(z) == x
  {
  }

  lemma WrapFits(z: int)
    requires FitsI64(z)
    ensures Signed64(Wrap64(z)) == z
  {
  }

  lemma WrapSigned2(x: U64, y: U64)
    ensures Wrap64(x + y) == Wrap64(Signed64(x) + Signed64(y))
    ensures Wrap64(x - y) == Wrap64(Signed64(x) - Signed64(y))
    ensures Wrap64(x * y) == Wrap64(Signed64(x) * Signed64(y))
  {
    var i := if x < TWO63 then 0 else 1;
    var j := if y < TWO63 then 0 else 1;
    assert x == Signed64(x) + TWO64 * i && y == Signed64(y) + TWO64 * j;
    ModEqual(x + y, Signed64(x) + Signed64(y), TWO64, i + j);
    ModEqual(x - y, Signed64(x) - Signed64(y), TWO64, i - j);
    SignedProduct(Signed64(x), Signed64(y), i, j);
  }

  lemma SignedProduct(a: int, b: int, i: int, j: int)
    ensures Wrap64((a + TWO64 * i) * (b + TWO64 * j)) == Wrap64(a * b)
  {
    var k := i * b + a * j + TWO64 * (i * j);
    assert (a + TWO64 * i) * (b + TWO64 * j) == a * b + TWO64 * k by {
      assert (a + TWO64 * i) * (b + TWO64 * j) == a * b + a * (TWO64 * j) + (TWO64 * i) * b + (TWO64 * i) * (TWO64 * j);
      assert a * (TWO64 * j) == TWO64 * (a * j);
      assert (TWO64 * i) * b == TWO64 * (i * b);
      assert (TWO64 * i) * (TWO64 * j) == TWO64 * (TWO64 * (i * j));
    }
    ModEqual((a + TWO64 * i) * (b + TWO64 * j), a * b, TWO64, k);
  }

  /** A product of interval members lies between the endpoint products. */
  lemma ProductBetween(a: int, x: int, b: int, c: int, y: int, e: int)
    requires a <= x <= b && c <= y <= e
    ensures Min4(a * c, a * e, b * c, b * e) <= x * y <= Max4(a * c, a * e, b * c, b * e)
  {
    ProductBetween1(a, x, b, y);
    ProductBetween1(c, y, e, a);
    ProductBetween1(c, y, e, b);
  }

  lemma ProductBetween1(a: int, x: int, b: int, y: int)
    requires a <= x <= b
    ensures Min(a * y, b * y) <= x * y <= Max(a * y, b * y)
    ensures Min(y * a, y * b) <= y * x <= Max(y * a, y * b)
  {
    if y >= 0 {
      MulMono(a, x, y);
      MulMono(x, b, y);
    } else {
      MulMono(a, x, -y);
      MulMono(x, b, -y);
    }
  }

  lemma SignedMulSound(d: (I64, I64), s: (I64, I64), x: U64, y: U64)
    requires InS(d, x) && InS(s, y)
    ensures InS(SignedMul(d, s), Wrap64(x * y))
  {
    var a: int, b: int := Signed64(x), Signed64(y);
    hide Min4, Max4, Wrap64;
    WrapSigned2(x, y);
    ProductBetween(d.0, a, d.1, s.0, b, s.1);
    var p: int := a * b;
    if FitsI64(p) {
      WrapFits(p);
    }
  }

  lemma SignedAddSubSound(op: AluOp, d: (I64, I64), s: (I64, I64), x: U64, y: U64)
    requires op.Add? || op.Sub?
    requires InS(d, x) && InS(s, y) && !(d.0 == d.1 && s.0 == s.1)
    ensures InS(Alu64Signed(op, d, s), AluConst64(op, x, y))
  {
    hide Wrap64, Signed64;
    WrapSigned2(x, y);
    var a: int, b: int := Signed64(x), Signed64(y);
    if op.Add? {
      if FitsI64(a + b) { WrapFits(a + b); }
    } else {
      if FitsI64(a - b) { WrapFits(a - b); }
    }
  }

  lemma SignedBitwiseSound(op: AluOp, d: (I64, I64), s: (I64, I64), x: U64, y: U64)
    requires op.And? || op.Or? || op.Xor?
    requires InS(d, x) && InS(s, y) && !(d.0 == d.1 && s.0 == s.1)
    ensures InS(Alu64Signed(op, d, s), AluConst64(op, x, y))
  {
    hide Bits.And, Bits.Or, Bits.Xor, Pow2;
    if d.0 >= 0 && s.0 >= 0 {
      Pow2Words();
      AndBound(x, y);
      OrBound(x, y, 63);
      XorBound(x, y, 63);
    }
  }

  lemma SignedModSound(d: (I64, I64), s: (I64, I64), x: U64, y: U64)
    requires InS(d, x) && InS(s, y) && d.0 != d.1 && SignedModOk(d, s)
    ensures InS(SignedMod(s), AluConst64(Mod, x, y))
  {
    if s.0 == s.1 && s.0 < 0 {
      NegativeMod(x, s.0);
    }
  }

  /** The unsigned remainder of x by the bit pattern of a negative c. */
  lemma NegativeMod(x: U64, c: I64)
    requires c < 0
    ensures AluConst64(Mod, x, Wrap64(c)) == if Signed64(x) < 0 && c <= Signed64(x) then Signed64(x) - c else x
  {
    var b := Wrap64(c);
    assert b == c + TWO64;
    if x < b {
      DivUnique(x, b, 0, x);
    } else {
      DivUnique(x, b, 1, x - b);
    }
  }

  lemma SignedModFails(z: I64, c: I64)
    requires c < 0 && (z < c || z > -1 - c)
    ensures !InS(SignedMod((c, c)), AluConst64(Mod, Wrap64(z), Wrap64(c)))
  {
    WrapFits(z);
    NegativeMod(Wrap64(z), c);
  }

  /** Exact condition of the signed rule for a negative constant divisor: it
      covers every remainder iff the dividend range lies in [c, -c - 1]. */
  lemma SignedModExact(d: (I64, I64), c: I64)
    requires d.0 < d.1 && c < 0
    ensures SignedModOk(d, (c, c)) <==>
            forall x: U64 :: InS(d, x) ==> InS(SignedMod((c, c)), AluConst64(Mod, x, Wrap64(c)))
  {
    hide AluConst64, SignedMod;
    if SignedModOk(d, (c, c)) {
      forall x: U64 | InS(d, x)
        ensures InS(SignedMod((c, c)), AluConst64(Mod, x, Wrap64(c)))
      {
        WrapFits(c);
        SignedModSound(d, (c, c), x, Wrap64(c));
      }
    } else {
      var z := if d.0 < c then d.0 else d.1;
      WrapFits(z);
      SignedModFails(z, c);
      assert InS(d, Wrap64(z));
    }
  }

  // ── Signed shifts ────────────────────────────────────────────────────────

  lemma ShiftedSigned(x: U64, k: nat)
    requires k < 64
    ensures Signed64(Sar(x, k)) == Signed64(x) / Pow2(k)
    ensures Signed64(x) < 0 ==> -1 >= Signed64(x) / Pow2(k) >= Signed64(x)
    ensures Signed64(x) >= 0 ==> 0 <= Signed64(x) / Pow2(k) <= Signed64(x)
  {
    FloorBound(Signed64(x), k);
    WrapFits(Signed64(x) / Pow2(k));
  }

  lemma FloorBound(z: int, k: nat)
    ensures z < 0 ==> -1 >= z / Pow2(k) >= z
    ensures z >= 0 ==> 0 <= z / Pow2(k) <= z
  {
    var p := Pow2(k);
    if z >= 0 {
      ShrBound(z, k);
    } else {
      DivMono(z, -1, p);
      DivUnique(-1, p, -1, p - 1);
      var q, r := z / p, z % p;
      assert p * q + r == z;
      MulMono(q, -1, p - 1);
      assert (p - 1) * q == p * q - q;
    }
  }

  lemma SignedLshConst(d: (I64, I64), k: nat, x: U64)
    requires k < 64 && InS(d, x) && d.0 >= 0
    ensures InS(Shift64ByConst(Lsh, d, k), Shl(x, k))
  {
    hide Shl, Pow2, Sar, Shr;
    if k == 0 {
      ShlZero(x);
    } else if d.0 / Pow2(64 - k) == d.1 / Pow2(64 - k) {
      LshBlock(d.0, x, d.1, k);
    }
  }

  lemma ShlZero(x: U64)
    ensures Shl(x, 0) == x
  {
    assert Pow2(0) == 1;
  }

  /** Within one block of size 2^(64-k) the shift is monotone. */
  lemma LshBlock(a: U64, x: U64, b: U64, k: nat)
    requires 0 < k < 64 && a <= x <= b && a / Pow2(64 - k) == b / Pow2(64 - k)
    ensures Shl(a, k) <= Shl(x, k) <= Shl(b, k)
  {
    hide Shl, Pow2;
    var p := Pow2(64 - k);
    DivMono(a, x, p);
    DivMono(x, b, p);
    LshInBlock(a, k);
    LshInBlock(x, k);
    LshInBlock(b, k);
    ModMono(a, x, p);
    ModMono(x, b, p);
    MulMono(a % p, x % p, Pow2(k));
    MulMono(x % p, b % p, Pow2(k));
  }

  lemma LshInBlock(x: U64, k: nat)
    requires 0 < k < 64
    ensures Shl(x, k) == (x % Pow2(64 - k)) * Pow2(k)
  {
    hide Pow2;
    var p, m := Pow2(64 - k), Pow2(k);
    Pow2Words();
    Pow2Add(64 - k, k);
    SplitScaled(x, p, m);
  }

  lemma SplitScaled(x: int, p: nat, m: nat)
    requires p > 0 && m > 0 && p * m == TWO64
    ensures Wrap64(x * m) == (x % p) * m
  {
    var q, r := x / p, x % p;
    assert (p * q + r) * m == (p * m) * q + r * m;
    MulMono(r + 1, p, m);
    assert (r + 1) * m == r * m + m;
    DivUnique(x * m, TWO64, q, r * m);
  }

  lemma ShrMono(a: U64, b: U64, k: nat)
    requires a <= b && k < 64
    ensures Shr(a, k) <= Shr(b, k) <= b
  {
    DivMono(a, b, Pow2(k));
    ShrBound(b, k);
  }

  lemma SignedRshConst(d: (I64, I64), k: nat, x: U64)
    requires k < 64 && InS(d, x) && d.0 >= 0
    ensures InS(Shift64ByConst(Rsh, d, k), Shr(x, k))
  {
    hide Pow2, Shr;
    ShrMono(d.0, x, k);
    ShrMono(x, d.1, k);
  }

  lemma SignedArshConst(d: (I64, I64), k: nat, x: U64)
    requires k < 64 && InS(d, x)
    ensures InS(Shift64ByConst(Arsh, d, k), Sar(x, k))
  {
    hide Pow2, Sar;
    ShiftedSigned(x, k);
    WrapFits(d.0);
    WrapFits(d.1);
    ShiftedSigned(Wrap64(d.0), k);
    ShiftedSigned(Wrap64(d.1), k);
    DivMono(d.0, Signed64(x), Pow2(k));
    DivMono(Signed64(x), d.1, Pow2(k));
  }

  lemma SignedShiftConstSound(op: AluOp, d: (I64, I64), k: nat, x: U64)
    requires IsShift(op) && k < 64 && InS(d, x)
    ensures InS(Shift64ByConst(op, d, k), AluConst64(op, x, k))
  {
    hide Shl, Shr, Sar, Pow2;
    if op.Lsh? {
      if d.0 >= 0 {
        SignedLshConst(d, k, x);
      }
    } else if op.Rsh? {
      if d.0 >= 0 {
        SignedRshConst(d, k, x);
      }
    } else {
      SignedArshConst(d, k, x);
    }
  }

  lemma SignedShiftSound(op: AluOp, d: (I64, I64), s: (I64, I64), x: U64, y: U64)
    requires IsShift(op) && 0 <= s.0 && s.1 < 64 && InS(d, x) && InS(s, y)
    requires op.Arsh? ==> VarArshOk(d, s)
    ensures InS(Shift64Range(op, d, s), AluConst64(op, x, y))
  {
    hide Pow2, Shl;
    if s.0 == s.1 {
      hide Shift64ByConst, AluConst64;
      SignedShiftConstSound(op, d, y, x);
    } else if op.Rsh? {
      ShrBound(x, y);
    } else if op.Arsh? {
      hide Sar;
      ShiftedSigned(x, y);
      if Signed64(x) < 0 {
        FloorAtLeast(Signed64(x), s.0, y);
      }
    }
  }

  lemma FloorAtLeast(z: int, a: nat, k: nat)
    requires 0 <= z + Pow2(a) && z < 0 && a <= k
    ensures z / Pow2(k) == -1
  {
    Pow2Mono(a, k);
    DivUnique(z, Pow2(k), -1, z + Pow2(k));
  }

  lemma VarArshFails(d: (I64, I64), s: (I64, I64), z: I64, k: nat)
    requires k < 64 && 0 <= s.0 < s.1 < 64
    requires (z == d.1 < -1 && k == s.1) || (z == d.0 && z + Pow2(k) < 0)
    ensures !InS(Shift64Range(Arsh, d, s), Sar(Wrap64(z), k))
  {
    hide Pow2, Sar;
    WrapFits(z);
    ShiftedSigned(Wrap64(z), k);
    if z + Pow2(k) < 0 {
      FloorBelow(z, k);
    }
    if z == d.1 < -1 && k == s.1 {
      HalfRises(z, k);
    }
  }

  /** Exact condition of the variable arithmetic shift rule. */
  lemma VarArshExact(d: (I64, I64), s: (I64, I64))
    requires d.0 <= d.1 && 0 <= s.0 < s.1 < 64
    ensures VarArshOk(d, s) <==>
            forall x: U64, y: U64 :: InS(d, x) && InS(s, y) ==>
              InS(Shift64Range(Arsh, d, s), AluConst64(Arsh, x, y))
  {
    hide Pow2, Sar, Shift64Range, InS;
    if VarArshOk(d, s) {
      forall x: U64, y: U64 | InS(d, x) && InS(s, y)
        ensures InS(Shift64Range(Arsh, d, s), AluConst64(Arsh, x, y))
      {
        SignedShiftSound(Arsh, d, s, x, y);
      }
    } else {
      var z, k := if d.1 < -1 then d.1 else d.0, if d.1 < -1 then s.1 else s.0;
      VarArshFails(d, s, z, k);
      EndpointIn(d, z);
      EndpointIn(s, k);
      assert Wrap64(k) == k;
    }
  }

  lemma EndpointIn(r: (I64, I64), z: I64)
    requires r.0 <= z <= r.1
    ensures InS(r, Wrap64(z))
  {
    WrapFits(z);
  }

  lemma HalfRises(z: int, k: nat)
    requires z < -1 && k >= 1
    ensures z / Pow2(k) > z
  {
    DivDiv(z, 2, Pow2(k - 1));
    FloorBound(z / 2, k - 1);
  }

  lemma FloorBelow(z: int, a: nat)
    requires z + Pow2(a) < 0
    ensures z / Pow2(a) < -1
  {
    var q := z / Pow2(a);
    if q >= -1 {
      MulMono(-1, q, Pow2(a));
    }
  }

  lemma SignedModAny(d: (I64, I64), s: (I64, I64), x: U64, y: U64)
    requires InS(d, x) && InS(s, y) && SignedModOk(d, s) && !(d.0 == d.1 && s.0 == s.1)
    ensures InS(SignedMod(s), AluConst64(Mod, x, y))
  {
    if d.0 != d.1 {
      SignedModSound(d, s, x, y);
    }
  }

  lemma SignedSound(op: AluOp, d: (I64, I64), s: (I64, I64), x: U64, y: U64)
    requires InS(d, x) && InS(s, y)
    requires IsShift(op) ==> 0 <= s.0 && s.1 < 64
    requires op.Mod? ==> SignedModOk(d, s)
    requires op.Arsh? ==> VarArshOk(d, s)
    ensures InS(Alu64Signed(op, d, s), AluConst64(op, x, y))
  {
    hide SignedMul, SignedMod, Shift64Range, Shl, Shr, Sar, And64, Or64, Xor64, Quotient, Pow2;
    if d.0 == d.1 && s.0 == s.1 {
      SignedRound(d.0, x);
      SignedRound(s.0, y);
    } else {
      match op {
        case Add | Sub => SignedAddSubSound(op, d, s, x, y);
        case Mul => SignedMulSound(d, s, x, y);
        case And | Or | Xor => SignedBitwiseSound(op, d, s, x, y);
        case Mod => SignedModAny(d, s, x, y);
        case Lsh | Rsh | Arsh => SignedShiftSound(op, d, s, x, y);
        case Div | Neg =>
      }
    }
  }

  // ── Unsigned intervals ───────────────────────────────────────────────────

  lemma QuotientBetween(a: nat, x: nat, b: nat, c: nat, y: nat, e: nat)
    requires a <= x <= b && 0 < c <= y <= e
    ensures a / e <= x / y <= b / c
  {
    DivMono(a, x, y);
    DivMono(x, b, y);
    QuotientAnti(a, y, e);
    QuotientAnti(b, c, y);
  }

  lemma QuotientAnti(a: nat, c: nat, e: nat)
    requires 0 < c <= e
    ensures a / e <= a / c
  {
    var q, p := a / e, a / c;
    QuotientBound(a, e);
    MulMono(c, e, q);
    assert c * (q - p) == c * q - c * p;
    if p < q {
      MulAtLeast(c, q - p);
    }
  }

  lemma UnsignedMulSound(d: (U64, U64), s: (U64, U64), x: U64, y: U64)
    requires InU(d, x) && InU(s, y)
    ensures InU(UnsignedMul(d, s), Wrap64(x * y))
  {
    hide Min4, Max4;
    ProductBetween(d.0, x, d.1, s.0, y, s.1);
    var p: int := x * y;
    assert 0 <= p;
  }

  lemma UnsignedRshSound(d: (U64, U64), s: (U64, U64), x: U64, y: U64)
    requires InU(d, x) && InU(s, y) && s.1 < 64
    ensures InU(Alu64Unsigned(Rsh, d, s), Shr(x, y))
  {
    hide Pow2, Shr;
    ShrMono(d.0, x, y);
    ShrMono(x, d.1, y);
    ShrMono(x, x, y);
  }

  lemma UnsignedDivSound(d: (U64, U64), s: (U64, U64), x: U64, y: U64)
    requires InU(d, x) && InU(s, y) && s.0 > 0
    ensures Quotient(d.0, Max(s.1, 1)) <= Quotient(x, y) <= Quotient(d.1, s.0)
  {
    QuotientBetween(d.0, x, d.1, s.0, y, s.1);
  }

  lemma UnsignedLinearSound(op: AluOp, d: (U64, U64), s: (U64, U64), x: U64, y: U64)
    requires InU(d, x) && InU(s, y)
    requires op.Add? || op.Sub? || op.Mod?
    ensures InU(Alu64Unsigned(op, d, s), AluConst64(op, x, y))
  {
    hide Remainder;
  }

  lemma UnsignedBitwiseSound(op: AluOp, d: (U64, U64), s: (U64, U64), x: U64, y: U64)
    requires InU(d, x) && InU(s, y)
    requires op.And? || op.Or? || op.Xor? || op.Neg? || op.Arsh?
    ensures InU(Alu64Unsigned(op, d, s), AluConst64(op, x, y))
  {
    hide Wrap64, Pow2, Sar, Bits.And, Bits.Or, Bits.Xor;
    Pow2Words();
    AndBound(x, y);
    OrBound(x, y, 64);
  }

  lemma UnsignedSound(op: AluOp, d: (U64, U64), s: (U64, U64), x: U64, y: U64)
    requires InU(d, x) && InU(s, y)
    requires IsShift(op) ==> s.1 < 64
    ensures InU(Alu64Unsigned(op, d, s), AluConst64(op, x, y))
  {
    hide UnsignedMul, UnsignedLsh, Shl, Shr, Sar, Quotient, Remainder, And64, Or64, Xor64, Wrap64;
    match op {
      case Mul => UnsignedMulSound(d, s, x, y);
      case Div =>
        if s.0 != 0 {
          UnsignedDivSound(d, s, x, y);
        }
      case Lsh => UnsignedLshSound(d, s, x, y);
      case Rsh => UnsignedRshSound(d, s, x, y);
      case Add | Sub | Mod => UnsignedLinearSound(op, d, s, x, y);
      case And | Or | Xor | Neg | Arsh => UnsignedBitwiseSound(op, d, s, x, y);
    }
  }

  lemma UnsignedLshSound(d: (U64, U64), s: (U64, U64), x: U64, y: U64)
    requires InU(d, x) && InU(s, y) && s.1 < 64
    ensures InU(UnsignedLsh(d, s), Shl(x, y))
  {
    if s.0 == s.1 && d.1 <= Shr(U64_MAX, s.0) {
      LshFits(d.0, y);
      LshFits(x, y);
      LshFits(d.1, y);
      MulMono(d.0, x, Pow2(y));
      MulMono(x, d.1, Pow2(y));
    }
  }

  lemma LshFits(x: U64, k: nat)
    requires k < 64 && x <= Shr(U64_MAX, k)
    ensures Shl(x, k) == x * Pow2(k)
  {
    MulMono(x, U64_MAX / Pow2(k), Pow2(k));
    assert Pow2(k) * (U64_MAX / Pow2(k)) <= U64_MAX;
    assert 0 <= x * Pow2(k);
  }

  // ── 32-bit intervals ─────────────────────────────────────────────────────

  lemma Lsh32Sound(d: (U32, U32), k: nat, a: U32)
    requires InW(d, a) && k < 32
    ensures InW(Lsh32Range(d, k), Wrap32(a * Pow2(k)))
  {
    if k == 0 {
      assert Pow2(0) == 1;
    } else if d.1 < Pow2(32 - k) {
      Lsh32Fits(d.0, k);
      Lsh32Fits(a, k);
      Lsh32Fits(d.1, k);
      MulMono(d.0, a, Pow2(k));
      MulMono(a, d.1, Pow2(k));
    }
  }

  lemma Shift32Sound(op: AluOp, d: (U32, U32), s: (U32, U32), a: U32, b: U32)
    requires IsShift(op) && InW(d, a) && InW(s, b) && b < 32
    ensures InW(Shift32Range(op, d, s), Alu32(op, a, b))
  {
    hide Pow2, Lsh32Range;
    assert b % 32 == b;
    if s.0 != s.1 {
      ShrBound(a, b);
    } else if op.Lsh? {
      Lsh32Sound(d, b, a);
    } else if op.Rsh? {
      DivMono(d.0, a, Pow2(b));
      DivMono(a, d.1, Pow2(b));
    } else {
      Sar32Mono(d.0, a, b);
      Sar32Mono(a, d.1, b);
    }
  }

  lemma Lsh32Fits(x: U32, k: nat)
    requires 0 < k < 32 && x < Pow2(32 - k)
    ensures Wrap32(x * Pow2(k)) == x * Pow2(k)
  {
    Pow2Words();
    Pow2Add(32 - k, k);
    hide Pow2;
    ScaledBelow(x, Pow2(32 - k), Pow2(k));
  }

  /** On bit patterns the arithmetic shift is monotone: the sign only moves a
      pattern into the upper half, where it stays. */
  lemma Sar32Mono(a: U32, b: U32, k: nat)
    requires a <= b && k < 32
    ensures Wrap32(Signed32(a) / Pow2(k)) <= Wrap32(Signed32(b) / Pow2(k))
  {
    hide Pow2;
    FloorBound(Signed32(a), k);
    FloorBound(Signed32(b), k);
    if (a < TWO31) == (b < TWO31) {
      DivMono(Signed32(a), Signed32(b), Pow2(k));
    }
  }

  lemma Range32Sound(op: AluOp, d: (U32, U32), s: (U32, U32), a: U32, b: U32)
    requires InW(d, a) && InW(s, b)
    requires IsShift(op) ==> b < 32
    requires op.Mul? ==> Mul32Ok(d, s)
    ensures InW(Alu32Range(op, d, s), Alu32(op, a, b))
  {
    hide Mul32Range, Shift32Range, IntervalMod, Pow2, Mul32Ok, Quotient, Remainder, Bits.And, Bits.Or, Bits.Xor;
    match op {
      case Add => IntervalModSound(d.0 + s.0, d.1 + s.1, a + b);
      case Sub => IntervalModSound(d.0 - s.1, d.1 - s.0, a - b);
      case And => AndBound(a, b);
      case Or => Pow2Words(); OrBound(a, b, 32);
      case Mul => Mul32Sound(d, s, a, b);
      case Div =>
        if s.0 != 0 {
          UnsignedDivSound(d, s, a, b);
        }
      case Lsh | Rsh | Arsh => Shift32Sound(op, d, s, a, b);
      case Xor | Mod | Neg =>
    }
  }
}
