/** Machine words as mathematical integers: a `U64` is the bit pattern of a
    64-bit register and `Signed64` its two's complement reading. Every wrapping
    operation of the interpreter is written out with `Wrap64`/`Wrap32`. */
module Words {
  const TWO31: int := 0x8000_0000
  const TWO32: int := 0x1_0000_0000
  const TWO63: int := 0x8000_0000_0000_0000
  const TWO64: int := 0x1_0000_0000_0000_0000

  type U64 = x: int | 0 <= x < TWO64
  type I64 = x: int | -TWO63 <= x < TWO63
  type U32 = x: int | 0 <= x < TWO32
  type I32 = x: int | -TWO31 <= x < TWO31
  type I16 = x: int | -0x8000 <= x < 0x8000
  type U8 = x: int | 0 <= x < 0x100

  const U64_MAX: U64 := TWO64 - 1
  const U32_MAX: U32 := TWO32 - 1
  const I64_MIN: I64 := -TWO63
  const I64_MAX: I64 := TWO63 - 1
  const I32_MIN: I32 := -TWO31
  const I32_MAX: I32 := TWO31 - 1

  function Wrap64(x: int): U64 { x % TWO64 }

  function Wrap32(x: int): U32 { x % TWO32 }

  /** `x as i64` */
  function Signed64(x: U64): I64 { if x < TWO63 then x else x - TWO64 }

  /** `x as i32` */
  function Signed32(x: U32): I32 { if x < TWO31 then x else x - TWO32 }

  function SaturateI64(z: int): I64 { if z < I64_MIN then I64_MIN else if z > I64_MAX then I64_MAX else z }

  function Min(a: int, b: int): int { if a < b then a else b }

  function Max(a: int, b: int): int { if a < b then b else a }

  function Pow2(k: nat): (p: nat)
    ensures p > 0
  {
    if k == 0 then 1 else 2 * Pow2(k - 1)
  }

  lemma Pow2Words()
    ensures Pow2(8) == 0x100 && Pow2(16) == 0x1_0000 && Pow2(31) == TWO31
    ensures Pow2(32) == TWO32 && Pow2(63) == TWO63 && Pow2(64) == TWO64
  {
    assert Pow2(8) == 0x100;
    Pow2Add(8, 8);
    Pow2Add(16, 16);
    Pow2Add(32, 32);
    assert Pow2(32) == 2 * Pow2(31) && Pow2(64) == 2 * Pow2(63);
  }

  lemma Pow2Add(j: nat, k: nat)
    ensures Pow2(j + k) == Pow2(j) * Pow2(k)
  {
    if j != 0 {
      Pow2Add(j - 1, k);
    }
  }

  lemma Pow2Mono(j: nat, k: nat)
    requires j <= k
    ensures Pow2(j) <= Pow2(k)
  {
    if j < k {
      Pow2Mono(j, k - 1);
    }
  }

  // ── Euclidean division by a positive divisor ─────────────────────────────

  lemma MulAtLeast(d: int, k: int)
    requires d > 0 && k >= 1
    ensures d * k >= d
  {
  }

  lemma DivUnique(x: int, d: int, q: int, r: int)
    requires d > 0 && 0 <= r < d && x == d * q + r
    ensures x / d == q && x % d == r
  {
    var q', r' := x / d, x % d;
    assert d * (q - q') == r' - r;
    if q > q' {
      MulAtLeast(d, q - q');
    } else if q < q' {
      MulAtLeast(d, q' - q);
    }
  }

  lemma Distribute(a: int, b: int, q: int, r: int)
    ensures a * (b * q + r) == (a * b) * q + a * r
  {
    assert a * (b * q) == (a * b) * q;
  }

  lemma DivDiv(x: int, a: int, b: int)
    requires a > 0 && b > 0
    ensures a * b > 0 && (x / a) / b == x / (a * b)
    ensures x % (a * b) == a * ((x / a) % b) + x % a
  {
    var q, r := x / a, x % a;
    var q2, r2 := q / b, q % b;
    Distribute(a, b, q2, r2);
    ScaledBelow(r2, b, a);
    DivUnique(x, a * b, q2, a * r2 + r);
  }

  lemma DivPlus(z: int, p: int)
    requires p > 0
    ensures (z + p) / p == z / p + 1 && (z - p) / p == z / p - 1
  {
    var q, r := z / p, z % p;
    assert p * (q + 1) == p * q + p && p * (q - 1) == p * q - p;
    DivUnique(z + p, p, q + 1, r);
    DivUnique(z - p, p, q - 1, r);
  }

  lemma DivMono(x: int, y: int, d: int)
    requires d > 0 && x <= y
    ensures x / d <= y / d
  {
    var q, r := x / d, x % d;
    var q', r' := y / d, y % d;
    assert d * (q - q') == d * q - d * q';
    if q > q' {
      MulAtLeast(d, q - q');
    }
  }

  lemma ModMono(x: int, y: int, d: int)
    requires d > 0 && x <= y && x / d == y / d
    ensures x % d <= y % d
  {
  }

  lemma MulMono(x: int, y: int, d: int)
    requires d >= 0 && x <= y
    ensures x * d <= y * d
  {
  }

  lemma ScaledBelow(x: int, p: int, m: int)
    requires 0 <= x < p && m > 0
    ensures 0 <= x * m <= p * m - m
  {
    MulMono(0, x, m);
    MulMono(x + 1, p, m);
    assert (x + 1) * m == x * m + m;
  }

  /** Adding a multiple of the modulus does not change the residue. */
  lemma ModShift(x: int, m: int, k: int)
    requires m > 0
    ensures (x + m * k) % m == x % m
  {
    DivUnique(x + m * k, m, x / m + k, x % m);
  }

  lemma ModEqual(x: int, y: int, m: int, k: int)
    requires m > 0 && x == y + m * k
    ensures x % m == y % m
  {
    ModShift(y, m, k);
  }

  lemma ModMulLeft(x: int, y: int, m: int)
    requires m > 0
    ensures ((x % m) * y) % m == (x * y) % m
  {
    assert x == m * (x / m) + x % m;
    assert x * y == (x % m) * y + m * ((x / m) * y);
    ModEqual(x * y, (x % m) * y, m, (x / m) * y);
  }

  lemma ModAddLeft(x: int, y: int, m: int)
    requires m > 0
    ensures ((x % m) + y) % m == (x + y) % m
  {
    ModEqual(x + y, x % m + y, m, x / m);
  }

  lemma WrapAdd(x: int, y: int)
    ensures Wrap64(Wrap64(x) + y) == Wrap64(x + y)
    ensures Wrap64(Wrap64(x) + Wrap64(y)) == Wrap64(x + y)
  {
    ModAddLeft(x, y, TWO64);
    ModAddLeft(x, Wrap64(y), TWO64);
    ModAddLeft(y, x, TWO64);
  }

  lemma WrapMul(x: int, y: int)
    ensures Wrap64(Wrap64(x) * y) == Wrap64(x * y)
  {
    ModMulLeft(x, y, TWO64);
  }

  lemma WrapOfSigned(x: U64)
    ensures Wrap64(Signed64(x)) == x
  {
  }

  lemma SignedOfWrap(z: I64)
    ensures Signed64(Wrap64(z)) == z
  {
  }
}
