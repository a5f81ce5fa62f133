/** Bits of an integer in two's complement of unbounded width: bit `k` of `x` is
    the parity of `x` floor-divided by 2^k, so negative numbers have infinitely
    many leading ones and `Bit(x mod 2^n, k) == Bit(x, k)` below bit `n`. */
module Bits {
  import opened Words

  predicate Bit(x: int, k: nat)
    decreases k
  {
    if k == 0 then x % 2 == 1 else Bit(x / 2, k - 1)
  }

  function B(b: bool): nat { if b then 1 else 0 }

  function And(x: nat, y: nat): nat
    decreases x
  {
    if x == 0 || y == 0 then 0 else 2 * And(x / 2, y / 2) + B(x % 2 == 1 && y % 2 == 1)
  }

  function Or(x: nat, y: nat): nat
    decreases x + y
  {
    if x == 0 then y else if y == 0 then x
    else 2 * Or(x / 2, y / 2) + B(x % 2 == 1 || y % 2 == 1)
  }

  function Xor(x: nat, y: nat): nat
    decreases x + y
  {
    if x == 0 then y else if y == 0 then x
    else 2 * Xor(x / 2, y / 2) + B(x % 2 != y % 2)
  }

  /** `!x` on a 64-bit word. */
  function Not64(x: U64): U64 { U64_MAX - x }

  lemma {:induction false} BitZero(k: nat)
    ensures !Bit(0, k)
    decreases k
  {
    if k != 0 {
      BitZero(k - 1);
    }
  }

  lemma {:induction false} BitAnd(x: nat, y: nat, k: nat)
    ensures Bit(And(x, y), k) == (Bit(x, k) && Bit(y, k))
    decreases k
  {
    if x == 0 || y == 0 {
      BitZero(k);
    } else if k != 0 {
      BitAnd(x / 2, y / 2, k - 1);
    }
  }

  lemma {:induction false} BitOr(x: nat, y: nat, k: nat)
    ensures Bit(Or(x, y), k) == (Bit(x, k) || Bit(y, k))
    decreases k
  {
    if x == 0 || y == 0 {
      BitZero(k);
    } else if k != 0 {
      BitOr(x / 2, y / 2, k - 1);
    }
  }

  lemma {:induction false} BitXor(x: nat, y: nat, k: nat)
    ensures Bit(Xor(x, y), k) == (Bit(x, k) != Bit(y, k))
    decreases k
  {
    if x == 0 || y == 0 {
      BitZero(k);
    } else if k != 0 {
      BitXor(x / 2, y / 2, k - 1);
    }
  }

  /** Complement: `-1 - x` flips every bit. */
  lemma {:induction false} BitNeg(x: int, k: nat)
    ensures Bit(-1 - x, k) == !Bit(x, k)
    decreases k
  {
    if k != 0 {
      assert (-1 - x) / 2 == -1 - x / 2;
      BitNeg(x / 2, k - 1);
    }
  }

  lemma {:induction false} BitMod(x: int, n: nat, k: nat)
    ensures Bit(x % Pow2(n), k) == (k < n && Bit(x, k))
    decreases k
  {
    if n == 0 {
      BitZero(k);
    } else {
      DivDiv(x, 2, Pow2(n - 1));
      assert x % Pow2(n) == 2 * ((x / 2) % Pow2(n - 1)) + x % 2;
      if k != 0 {
        assert (x % Pow2(n)) / 2 == (x / 2) % Pow2(n - 1);
        BitMod(x / 2, n - 1, k - 1);
      }
    }
  }

  lemma {:induction false} BitDiv(x: int, j: nat, k: nat)
    ensures Bit(x / Pow2(j), k) == Bit(x, j + k)
    decreases j
  {
    if j != 0 {
      DivDiv(x, 2, Pow2(j - 1));
      BitDiv(x / 2, j - 1, k);
    }
  }

  lemma {:induction false} BitMul(x: int, j: nat, k: nat)
    ensures Bit(x * Pow2(j), k) == (k >= j && Bit(x, k - j))
    decreases j
  {
    if j != 0 {
      assert x * Pow2(j) == 2 * (x * Pow2(j - 1)) by {
        assert x * (2 * Pow2(j - 1)) == 2 * (x * Pow2(j - 1));
      }
      if k != 0 {
        BitMul(x, j - 1, k - 1);
      }
    }
  }

  /** A number below 2^n has no bit at or above n. */
  lemma BitHigh(x: nat, n: nat, k: nat)
    requires x < Pow2(n) && n <= k
    ensures !Bit(x, k)
  {
    DivUnique(x, Pow2(n), 0, x);
    BitMod(x, n, k);
  }

  lemma BitWrap64(x: int, k: nat)
    requires k < 64
    ensures Bit(Wrap64(x), k) == Bit(x, k)
  {
    Pow2Words();
    BitMod(x, 64, k);
  }

  lemma BitNot64(x: U64, k: nat)
    requires k < 64
    ensures Bit(Not64(x), k) == !Bit(x, k)
  {
    assert Wrap64(-1 - x) == Not64(x);
    BitWrap64(-1 - x, k);
    BitNeg(x, k);
  }

  lemma BitSigned64(x: U64, k: nat)
    ensures Bit(Signed64(x), k) == Bit(x, if k < 63 then k else 63)
  {
    Pow2Words();
    WrapOfSigned(x);
    if k < 64 {
      BitWrap64(Signed64(x), k);
    }
    if 63 <= k {
      BitSignExtension(Signed64(x), 63, k);
      BitTop(x, 63);
    }
  }

  /** All bits at or above n of a number in [-2^n, 2^n) are its sign. */
  lemma BitSignExtension(z: int, n: nat, k: nat)
    requires 0 <= z + Pow2(n) && z < Pow2(n) && n <= k
    ensures Bit(z, k) == (z < 0)
  {
    if z >= 0 {
      BitHigh(z, n, k);
    } else {
      BitHigh(-1 - z, n, k);
      BitNeg(z, k);
    }
  }

  lemma BitTop(x: nat, n: nat)
    requires x < 2 * Pow2(n)
    ensures Bit(x, n) == (x >= Pow2(n))
  {
    BitDiv(x, n, 0);
    if x >= Pow2(n) {
      DivUnique(x, Pow2(n), 1, x - Pow2(n));
    } else {
      DivUnique(x, Pow2(n), 0, x);
    }
  }

  lemma {:induction false} BitPow2(j: nat, k: nat)
    ensures Bit(Pow2(j), k) == (k == j)
  {
    BitMul(1, j, k);
    if k > j {
      BitZero(k - j - 1);
    }
  }

  /** The mask 2^n - 1 has exactly the bits below n. */
  lemma BitLowMask(n: nat, k: nat)
    ensures Bit(Pow2(n) - 1, k) == (k < n)
  {
    DivUnique(-1, Pow2(n), -1, Pow2(n) - 1);
    BitMod(-1, n, k);
    BitZero(k);
    BitNeg(0, k);
  }

  /** Numbers below 2^n that agree on their low n bits are equal. */
  lemma {:induction false} Extensional(x: nat, y: nat, n: nat)
    requires x < Pow2(n) && y < Pow2(n)
    requires forall k: nat :: k < n ==> Bit(x, k) == Bit(y, k)
    ensures x == y
    decreases n
  {
    if n != 0 {
      forall k: nat | k < n - 1
        ensures Bit(x / 2, k) == Bit(y / 2, k)
      {
        assert Bit(x, k + 1) == Bit(y, k + 1);
      }
      Extensional(x / 2, y / 2, n - 1);
      assert Bit(x, 0) == Bit(y, 0);
    }
  }

  lemma Extensional64(x: U64, y: U64)
    requires forall k: nat :: k < 64 ==> Bit(x, k) == Bit(y, k)
    ensures x == y
  {
    Pow2Words();
    Extensional(x, y, 64);
  }

  // ── Ranges ───────────────────────────────────────────────────────────────

  lemma {:induction false} AndBound(x: nat, y: nat)
    ensures And(x, y) <= x && And(x, y) <= y
    decreases x
  {
    if x != 0 && y != 0 {
      AndBound(x / 2, y / 2);
    }
  }

  lemma {:induction false} OrBound(x: nat, y: nat, n: nat)
    requires x < Pow2(n) && y < Pow2(n)
    ensures x <= Or(x, y) && y <= Or(x, y) && Or(x, y) < Pow2(n)
    decreases n
  {
    if n != 0 && x != 0 && y != 0 {
      OrBound(x / 2, y / 2, n - 1);
    }
  }

  lemma {:induction false} XorBound(x: nat, y: nat, n: nat)
    requires x < Pow2(n) && y < Pow2(n)
    ensures Xor(x, y) < Pow2(n)
    decreases n
  {
    if n != 0 && x != 0 && y != 0 {
      XorBound(x / 2, y / 2, n - 1);
    }
  }

  function And64(x: U64, y: U64): U64 { AndBound(x, y); And(x, y) }

  function Or64(x: U64, y: U64): U64 { Pow2Words(); OrBound(x, y, 64); Or(x, y) }

  function Xor64(x: U64, y: U64): U64 { Pow2Words(); XorBound(x, y, 64); Xor(x, y) }

  /** Disjoint numbers add without carries. */
  lemma {:induction false} AddDisjoint(x: nat, y: nat)
    requires And(x, y) == 0
    ensures x + y == Or(x, y)
    decreases x + y
  {
    if x != 0 && y != 0 {
      assert And(x / 2, y / 2) == 0;
      AddDisjoint(x / 2, y / 2);
    }
  }
}
