/** What the exact ALU, the comparisons and the load extension compute, in terms of
    integers and bits (sections 4.1 and 5.2 of RFC 9669; `src/exec.rs`). Both
    interpreters share these functions, so nothing else in the project pins them. */
module AluLaws {
  import opened Words
  import opened Bits
  import opened TnumDomain
  import opened TnumSound
  import opened Scalar
  import opened Branch

  predicate Congruent(x: int, y: int, m: int)
    requires m > 0
  {
    (x - y) % m == 0
  }

  lemma ModCongruent(x: int, m: int)
    requires m > 0
    ensures Congruent(x % m, x, m)
  {
    assert x == m * (x / m) + x % m;
    ModEqual(x % m - x, 0, m, 0 - x / m);
  }

  // ── 64 bits ──────────────────────────────────────────────────────────────

  /** Sum, difference and product modulo 2^64, and the negation as the inverse of the
      sum. */
  lemma Arithmetic64(a: U64, b: U64)
    ensures Congruent(AluConst64(Add, a, b), a + b, TWO64)
    ensures Congruent(AluConst64(Sub, a, b), a - b, TWO64)
    ensures Congruent(AluConst64(Mul, a, b), a * b, TWO64)
    ensures Wrap64(AluConst64(Neg, a, b) + a) == 0
  {
    ModCongruent(a + b, TWO64);
    ModCongruent(a - b, TWO64);
    ModCongruent(a * b, TWO64);
    WrapAdd(0 - a, a);
  }

  /** Unsigned division with remainder; a zero divisor gives 0 and the dividend. */
  lemma Division64(a: U64, b: U64)
    ensures b != 0 ==> a == b * AluConst64(Div, a, b) + AluConst64(Mod, a, b) && AluConst64(Mod, a, b) < b
    ensures b == 0 ==> AluConst64(Div, a, b) == 0 && AluConst64(Mod, a, b) == a
  {
  }

  lemma Bitwise64(a: U64, b: U64, i: nat)
    requires i < 64
    ensures Bit(AluConst64(And, a, b), i) == (Bit(a, i) && Bit(b, i))
    ensures Bit(AluConst64(Or, a, b), i) == (Bit(a, i) || Bit(b, i))
    ensures Bit(AluConst64(Xor, a, b), i) == (Bit(a, i) != Bit(b, i))
  {
    BitAnd(a, b, i);
    BitOr(a, b, i);
    BitXor(a, b, i);
  }

  /** Shifts by the amount modulo 64, filled with zeros or with the sign. */
  lemma Shifts64(a: U64, b: U64, i: nat)
    requires i < 64
    ensures Bit(AluConst64(Lsh, a, b), i) == (i >= b % 64 && Bit(a, i - b % 64))
    ensures Bit(AluConst64(Rsh, a, b), i) == (i + b % 64 < 64 && Bit(a, i + b % 64))
    ensures Bit(AluConst64(Arsh, a, b), i) == Bit(a, if i + b % 64 < 63 then i + b % 64 else 63)
  {
    hide Bit, Shl, Shr, Sar, Pow2;
    var k := b % 64;
    BitShl(a, k, i);
    BitShr(a, k, i);
    BitSar(a, k, i);
    if i + k >= 64 {
      Pow2Words();
      BitHigh(a, 64, i + k);
    }
  }

  // ── 32 bits ──────────────────────────────────────────────────────────────

  /** A 32-bit result is zero-extended. */
  lemma ZeroExtended32(op: AluOp, a: U64, b: U64)
    ensures AluConst32(op, a, b) < TWO32
  {
    hide Alu32;
  }

  lemma Arithmetic32(a: U64, b: U64)
    ensures Congruent(AluConst32(Add, a, b), a + b, TWO32)
    ensures Congruent(AluConst32(Sub, a, b), a - b, TWO32)
    ensures Congruent(AluConst32(Mul, a, b), a * b, TWO32)
    ensures Wrap32(AluConst32(Neg, a, b) + a) == 0
  {
    var x, y, p, q := a % TWO32, b % TWO32, a / TWO32, b / TWO32;
    assert a == TWO32 * p + x && b == TWO32 * q + y;
    ModEqual(x + y, a + b, TWO32, 0 - p - q);
    ModEqual(x - y, a - b, TWO32, q - p);
    Product32(a, b);
    ModCongruent(a + b, TWO32);
    ModCongruent(a - b, TWO32);
    ModCongruent(a * b, TWO32);
    ModAddLeft(0 - x, a, TWO32);
    ModEqual(0 - x + a, 0, TWO32, p);
  }

  lemma Product32(a: U64, b: U64)
    ensures ((a % TWO32) * (b % TWO32)) % TWO32 == (a * b) % TWO32
  {
    ModMulLeft(a, b, TWO32);
    ModMulLeft(b, a % TWO32, TWO32);
    assert (a % TWO32) * b == b * (a % TWO32);
    assert (b % TWO32) * (a % TWO32) == (a % TWO32) * (b % TWO32);
  }

  lemma Division32(a: U64, b: U64)
    ensures var (x, y, q, r) := (a % TWO32, b % TWO32, AluConst32(Div, a, b), AluConst32(Mod, a, b));
            if y != 0 then x == y * q + r && r < y else q == 0 && r == x
  {
  }

  lemma Bitwise32(a: U64, b: U64, i: nat)
    requires i < 32
    ensures Bit(AluConst32(And, a, b), i) == (Bit(a, i) && Bit(b, i))
    ensures Bit(AluConst32(Or, a, b), i) == (Bit(a, i) || Bit(b, i))
    ensures Bit(AluConst32(Xor, a, b), i) == (Bit(a, i) != Bit(b, i))
  {
    BitSubreg(a, i);
    BitSubreg(b, i);
    BitAnd(a % TWO32, b % TWO32, i);
    BitOr(a % TWO32, b % TWO32, i);
    BitXor(a % TWO32, b % TWO32, i);
  }

  /** Shifts of the low half by the amount modulo 32. */
  lemma Shifts32(a: U64, b: U64, i: nat)
    requires i < 32
    ensures Bit(AluConst32(Lsh, a, b), i) == (i >= b % 32 && Bit(a, i - b % 32))
    ensures Bit(AluConst32(Rsh, a, b), i) == (i + b % 32 < 32 && Bit(a, i + b % 32))
    ensures Bit(AluConst32(Arsh, a, b), i) == Bit(a, if i + b % 32 < 31 then i + b % 32 else 31)
  {
    hide Bit, Pow2;
    Pow2Words();
    var x, k := a % TWO32, b % TWO32 % 32;
    assert k == b % 32 by {
      var q := b / TWO32;
      assert b == TWO32 * q + b % TWO32;
      ModEqual(b, b % TWO32, 32, (TWO32 / 32) * q);
    }
    BitMod(x * Pow2(k), 32, i);
    BitMul(x, k, i);
    BitDiv(x, k, i);
    BitMod(Signed32(x) / Pow2(k), 32, i);
    BitDiv(Signed32(x), k, i);
    BitSigned32(x, i + k);
    BitSubreg(a, i + k);
    if i >= k {
      BitSubreg(a, i - k);
    }
    BitSubreg(a, 31);
  }

  lemma BitSigned32(x: U32, k: nat)
    ensures Bit(Signed32(x), k) == Bit(x, if k < 31 then k else 31)
  {
    hide Bit, Pow2;
    Pow2Words();
    if k < 32 {
      BitMod(Signed32(x), 32, k);
      ModEqual(Signed32(x), x, TWO32, if x < TWO31 then 0 else -1);
    }
    if 31 <= k {
      BitSignExtension(Signed32(x), 31, k);
      BitTop(x, 31);
    }
  }

  // ── Comparisons ──────────────────────────────────────────────────────────

  predicate Apart(x: nat, d: nat, y: nat) { d > 0 && x + d == y }

  /** The unsigned order by positive distance, its mirror images and complements. */
  lemma UnsignedOrder(x: U64, y: U64)
    ensures Taken(Ult, x, y) <==> exists d: nat :: Apart(x, d, y)
    ensures Taken(Ugt, x, y) <==> Taken(Ult, y, x)
    ensures Taken(Uge, x, y) <==> !Taken(Ult, x, y)
    ensures Taken(Ule, x, y) <==> !Taken(Ugt, x, y)
    ensures Taken(Ne, x, y) <==> !Taken(Eq, x, y)
    ensures Taken(Eq, x, y) <==> !Taken(Ult, x, y) && !Taken(Ugt, x, y)
  {
    if x < y {
      assert Apart(x, y - x, y);
    }
  }

  /** The signed order is the unsigned one with the sign bit flipped. */
  lemma SignedOrder(x: U64, y: U64)
    ensures var u, v := Wrap64(x + TWO63), Wrap64(y + TWO63);
            && (Taken(Slt, x, y) <==> Taken(Ult, u, v)) && (Taken(Sgt, x, y) <==> Taken(Ugt, u, v))
            && (Taken(Sge, x, y) <==> Taken(Uge, u, v)) && (Taken(Sle, x, y) <==> Taken(Ule, u, v))
  {
  }

  // ── Extension and jump targets ───────────────────────────────────────────

  /** The bytes loaded, then zeros or copies of their top bit. */
  lemma ExtendBits(raw: U64, size: nat, signExtend: bool, i: nat)
    requires ValidSize(size) && raw < Pow2(8 * size) && i < 64
    ensures Bit(Extend(raw, size, signExtend), i) ==
            if i < 8 * size then Bit(raw, i) else signExtend && Bit(raw, 8 * size - 1)
  {
    hide Bit, Pow2;
    var n := 8 * size;
    Pow2Words();
    Pow2Mono(n, 64);
    Pow2Half(n);
    BitTop(raw, n - 1);
    BitWrap64(raw - Pow2(n), i);
    if i >= n {
      BitHigh(raw, n, i);
      if signExtend && raw >= Pow2(n - 1) {
        BitSignExtension(raw - Pow2(n), n, i);
      }
    } else {
      BitMod(raw - Pow2(n), n, i);
      BitMod(raw, n, i);
      ModShift(raw, Pow2(n), -1);
    }
  }

  lemma Pow2Half(n: nat)
    requires n > 0
    ensures Pow2(n) == 2 * Pow2(n - 1)
  {
  }
}
