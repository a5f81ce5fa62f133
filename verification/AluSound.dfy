/** Soundness of the whole scalar transfer: the tnum component at both widths,
    the bounds sync, `apply_alu` and `coerce_scalar`. */
module AluSound {
  import opened Words
  import opened Bits
  import opened TnumDomain
  import opened TnumSound
  import opened Scalar
  import opened ScalarSound
  import opened Products

  // ── The sync never loses a member ────────────────────────────────────────

  lemma SyncSignsSound(b: Bounds, x: U64)
    requires Gamma(b, x)
    ensures Gamma(SyncSigns(b), x)
  {
    hide Tnum.Contains;
  }

  lemma WindowSound(lo: U64, x: U64, hi: U64)
    requires lo <= x <= hi && lo / TWO32 == hi / TWO32
    ensures lo % TWO32 <= x % TWO32 <= hi % TWO32
  {
    DivMono(lo, x, TWO32);
    DivMono(x, hi, TWO32);
  }

  lemma SyncedSound(b: Bounds, x: U64)
    requires Gamma(b, x) && b.tnum.Wf()
    ensures Gamma(b.Synced(), x) && b.Synced().tnum.Wf()
    ensures b.Synced().id == b.id && b.Synced().delta == b.delta
  {
    hide Tnum.Contains, Tnum.Wf, Tnum.Intersect, FromRange, SyncSigns;
    SyncSignsSound(b, x);
    var c := SyncSigns(b);
    SyncSignsTnum(b);
    FromRangeSound(c.umin, c.umax, x);
    IntersectIsMeet(c.tnum, FromRange(c.umin, c.umax), x);
    if c.umin / TWO32 == c.umax / TWO32 {
      WindowSound(c.umin, x, c.umax);
    }
  }

  lemma SyncSignsTnum(b: Bounds)
    ensures SyncSigns(b).tnum == b.tnum && SyncSigns(b).id == b.id && SyncSigns(b).delta == b.delta
  {
  }

  // ── Constants and the full range ─────────────────────────────────────────

  lemma ConstantTnum(v: U64, x: U64)
    ensures Constant(v).Wf()
    ensures Constant(v).Contains(x) <==> x == v
  {
    hide Bit, Tnum.Wf, Tnum.Contains;
    BitsOfZero();
    WfIsDisjoint(Constant(v));
    ContainsIsAgreement(Constant(v), x);
    if Agrees(Constant(v), x) {
      Extensional64(x, v);
    }
  }

  lemma UnknownTnum(x: U64)
    ensures Unknown().Wf() && Unknown().Contains(x)
  {
    hide Bit, Tnum.Wf, Tnum.Contains;
    Pow2Words();
    BitsOfZero();
    forall k: nat | k < 64
      ensures Bit(U64_MAX, k)
    {
      BitLowMask(64, k);
    }
    WfIsDisjoint(Unknown());
    ContainsIsAgreement(Unknown(), x);
  }

  lemma ConstSound(v: I64, x: U64)
    ensures Const(v).tnum.Wf() && (Gamma(Const(v), x) <==> x == Wrap64(v))
  {
    hide Tnum.Contains, Tnum.Wf;
    ConstantTnum(Wrap64(v), x);
    WrapFits(v);
  }

  lemma TopSound(x: U64)
    ensures Top().tnum.Wf() && Gamma(Top(), x)
  {
    UnknownTnum(x);
  }

  lemma FromSignedSound(min: I64, max: I64, x: U64)
    requires min <= Signed64(x) <= max
    ensures Gamma(FromSigned(min, max), x) && FromSigned(min, max).tnum.Wf()
    ensures FromSigned(min, max).id == 0 && FromSigned(min, max).delta == 0
  {
    hide Bounds.Synced;
    UnknownTnum(x);
    var u := if min < 0 <= max then (0, U64_MAX) else (Wrap64(min), Wrap64(max));
    SyncedSound(Bounds(min, max, u.0, u.1, 0, U32_MAX, Unknown(), 0, 0), x);
  }

  lemma ConstantMember(b: Bounds, x: U64)
    requires Gamma(b, x) && b.IsConstant()
    ensures x == Wrap64(b.smin) && x == b.umin
  {
  }

  // ── The tnum component ───────────────────────────────────────────────────

  lemma Tnum64Sound(op: AluOp, d: Tnum, s: Tnum, lo: I64, hi: I64, x: U64, y: U64)
    requires d.Wf() && s.Wf() && d.Contains(x) && s.Contains(y)
    requires IsShift(op) ==> 0 <= lo <= y <= hi < 64
    ensures AluTnum(op, d, s, lo, hi).Wf()
    ensures AluTnum(op, d, s, lo, hi).Contains(AluConst64(op, x, y))
  {
    hide Tnum.Wf, Tnum.Contains, Tnum.Add, Tnum.Sub, Tnum.BitAnd, Tnum.BitOr, Tnum.BitXor;
    hide Tnum.LShift, Tnum.RShift, Tnum.ArShift, Shl, Shr, Sar, And64, Or64, Xor64, Quotient, Remainder, Wrap64,
         Unknown;
    UnknownTnum(AluConst64(op, x, y));
    match op {
      case Add => AddSound(d, s, x, y);
      case Sub => SubSound(d, s, x, y);
      case And | Or | Xor => BitwiseSound(d, s, x, y);
      case Lsh => if lo == hi { LShiftSound(d, lo, x); }
      case Rsh => if lo == hi { RShiftSound(d, lo, x); }
      case Arsh => if lo == hi { ArShiftSound(d, lo, x); }
      case Mul | Div | Mod | Neg =>
    }
  }

  lemma SubregOfMember(t: Tnum, w: U64)
    requires t.Wf() && t.Contains(w)
    ensures t.Subreg().Wf() && t.Subreg().Contains(w % TWO32)
  {
    ContainsIsAgreement(t, w);
    SubregSound(t, w);
  }

  /** The low half of a 64-bit sum, difference or left shift. */
  lemma LowHalf(x: U64, y: U64)
    ensures Wrap64(x + y) % TWO32 == Wrap32(x % TWO32 + y % TWO32)
    ensures Wrap64(x - y) % TWO32 == Wrap32(x % TWO32 - y % TWO32)
  {
    ModMod(x + y);
    ModMod(x - y);
    var i, j := x / TWO32, y / TWO32;
    ModEqual(x + y, x % TWO32 + y % TWO32, TWO32, i + j);
    ModEqual(x - y, x % TWO32 - y % TWO32, TWO32, i - j);
  }

  lemma LowShl(x: U64, k: nat)
    requires k < 32
    ensures Shl(x, k) % TWO32 == Wrap32((x % TWO32) * Pow2(k))
  {
    hide Pow2;
    ModMod(x * Pow2(k));
    ModMulLeft(x, Pow2(k), TWO32);
  }

  lemma ModMod(z: int)
    ensures (z % TWO64) % TWO32 == z % TWO32
  {
    DivDiv(z, TWO32, TWO32);
  }

  lemma LowBitwise(x: U64, y: U64)
    ensures And64(x, y) % TWO32 == Bits.And(x % TWO32, y % TWO32)
    ensures Or64(x, y) % TWO32 == Bits.Or(x % TWO32, y % TWO32)
    ensures Xor64(x, y) % TWO32 == Bits.Xor(x % TWO32, y % TWO32)
  {
    hide Bit, Bits.And, Bits.Or, Bits.Xor, Pow2;
    Pow2Words();
    var a, b := x % TWO32, y % TWO32;
    AndBound(a, b);
    OrBound(a, b, 32);
    XorBound(a, b, 32);
    forall k: nat | k < 32
      ensures Bit(And64(x, y) % TWO32, k) == Bit(Bits.And(a, b), k)
      ensures Bit(Or64(x, y) % TWO32, k) == Bit(Bits.Or(a, b), k)
      ensures Bit(Xor64(x, y) % TWO32, k) == Bit(Bits.Xor(a, b), k)
    {
      BitSubreg(x, k);
      BitSubreg(y, k);
      BitSubreg(And64(x, y), k);
      BitSubreg(Or64(x, y), k);
      BitSubreg(Xor64(x, y), k);
      BitAnd(x, y, k);
      BitAnd(a, b, k);
      BitOr(x, y, k);
      BitOr(a, b, k);
      BitXor(x, y, k);
      BitXor(a, b, k);
    }
    Extensional(And64(x, y) % TWO32, Bits.And(a, b), 32);
    Extensional(Or64(x, y) % TWO32, Bits.Or(a, b), 32);
    Extensional(Xor64(x, y) % TWO32, Bits.Xor(a, b), 32);
  }

  // ── 32-bit right shifts of the tnum: exact conditions ────────────────────

  lemma BitRsh32(x: U64, k: nat, i: nat)
    requires k < 32 && i < 32
    ensures Bit(Alu32(Rsh, x % TWO32, k), i) == (i + k < 32 && Bit(x, i + k))
  {
    BitDiv(x % TWO32, k, i);
    BitSubreg(x, i + k);
  }

  lemma BitArsh32(x: U64, k: nat, i: nat)
    requires k < 32 && i < 32
    ensures Bit(Alu32(Arsh, x % TWO32, k), i) == Bit(x, if i + k < 31 then i + k else 31)
  {
    hide Bit, Pow2;
    Pow2Words();
    var a := x % TWO32;
    BitMod(Signed32(a) / Pow2(k), 32, i);
    BitDiv(Signed32(a), k, i);
    BitSubreg(x, 31);
    if i + k < 32 {
      BitMod(Signed32(a), 32, i + k);
      assert Signed32(a) % TWO32 == a;
      BitSubreg(x, i + k);
    } else {
      BitSignExtension(Signed32(a), 31, i + k);
      BitTop(a, 31);
    }
  }

  ghost predicate NoBits(v: U64, from: nat, to: nat) {
    forall j: nat :: from <= j < to ==> !Bit(v, j)
  }

  lemma ZeroWindow(v: U64, k: nat)
    requires k < 32
    ensures Rsh32TnumOk(Constant(v), k) <==> NoBits(v, 32, 32 + k)
  {
    hide Bit, Pow2;
    Pow2Words();
    var w := (v / TWO32) % Pow2(k);
    forall i: nat
      ensures Bit(w, i) == (i < k && Bit(v, 32 + i))
    {
      BitMod(v / TWO32, k, i);
      BitDiv(v, 32, i);
    }
    BitsOfZero();
    if NoBits(v, 32, 32 + k) {
      Extensional(w, 0, k);
    }
    if w == 0 {
      forall j: nat | 32 <= j < 32 + k
        ensures !Bit(v, j)
      {
        assert Bit(w, j - 32) == Bit(v, 32 + (j - 32));
      }
    }
  }

  lemma Rsh32TnumSound(t: Tnum, k: nat, x: U64)
    requires t.Wf() && t.Contains(x) && k < 32 && Rsh32TnumOk(t, k)
    ensures t.RShift(k).Subreg().Wf() && t.RShift(k).Subreg().Contains(Alu32(Rsh, x % TWO32, k))
  {
    hide Bit, Pow2, Alu32, Tnum.Wf, Tnum.Contains, Shr, Tnum.Subreg;
    var r := Alu32(Rsh, x % TWO32, k);
    RShiftSound(t, k, x);
    ContainsIsAgreement(t, x);
    ZeroWindow(t.value, k);
    forall i: nat | i < 32 && Known(t.RShift(k), i)
      ensures Bit(r, i) == Bit(t.RShift(k).value, i)
    {
      BitShr(t.value, k, i);
      BitShr(t.mask, k, i);
      BitRsh32(x, k, i);
    }
    SubregSound(t.RShift(k), r);
  }

  /** Exact condition of the 32-bit logical shift's tnum. */
  lemma Rsh32TnumExact(t: Tnum, k: nat)
    requires t.Wf() && k < 32
    ensures Rsh32TnumOk(t, k) <==>
            forall x: U64 :: t.Contains(x) ==> t.RShift(k).Subreg().Contains(Alu32(Rsh, x % TWO32, k))
  {
    hide Pow2, Alu32, Tnum.Wf, Tnum.Contains, Tnum.RShift, Tnum.Subreg, Rsh32TnumOk, Bit;
    if Rsh32TnumOk(t, k) {
      forall x: U64 | t.Contains(x)
        ensures t.RShift(k).Subreg().Contains(Alu32(Rsh, x % TWO32, k))
      {
        Rsh32TnumSound(t, k, x);
      }
    } else {
      var j := Rsh32Witness(t, k);
      Extremes(t);
      Rsh32Fails(t, k, j);
    }
  }

  lemma Rsh32Witness(t: Tnum, k: nat) returns (j: nat)
    requires t.Wf() && k < 32 && !Rsh32TnumOk(t, k)
    ensures 32 <= j < 32 + k && Bit(t.value, j)
  {
    hide Bit, Pow2;
    ZeroWindow(t.value, k);
    j :| 32 <= j < 32 + k && Bit(t.value, j);
  }

  lemma Rsh32Fails(t: Tnum, k: nat, j: nat)
    requires t.Wf() && k < 32 && 32 <= j < 32 + k && Bit(t.value, j)
    ensures !t.RShift(k).Subreg().Contains(Alu32(Rsh, t.value % TWO32, k))
  {
    hide Bit, Pow2, Alu32, Tnum.Wf, Tnum.Contains, Shr;
    var r := t.RShift(k).Subreg();
    WfIsDisjoint(t);
    BitShr(t.value, k, j - k);
    BitShr(t.mask, k, j - k);
    BitSubreg(t.RShift(k).value, j - k);
    BitSubreg(t.RShift(k).mask, j - k);
    BitRsh32(t.value, k, j - k);
    ContainsIsAgreement(r, Alu32(Rsh, t.value % TWO32, k));
  }

  lemma Arsh32TnumSound(t: Tnum, k: nat, x: U64)
    requires t.Wf() && t.Contains(x) && k < 32 && Arsh32TnumOk(t, k)
    ensures t.ArShift(k).Subreg().Wf() && t.ArShift(k).Subreg().Contains(Alu32(Arsh, x % TWO32, k))
  {
    hide Bit, Pow2, Alu32, Tnum.Wf, Tnum.Contains, Sar, Tnum.Subreg;
    var r := Alu32(Arsh, x % TWO32, k);
    ArShiftSound(t, k, x);
    ContainsIsAgreement(t, x);
    forall i: nat | i < 32 && Known(t.ArShift(k), i)
      ensures Bit(r, i) == Bit(t.ArShift(k).value, i)
    {
      BitSar(t.value, k, i);
      BitSar(t.mask, k, i);
      BitArsh32(x, k, i);
    }
    SubregSound(t.ArShift(k), r);
  }

  /** Exact condition of the 32-bit arithmetic shift's tnum. */
  lemma Arsh32TnumExact(t: Tnum, k: nat)
    requires t.Wf() && k < 32
    ensures Arsh32TnumOk(t, k) <==>
            forall x: U64 :: t.Contains(x) ==> t.ArShift(k).Subreg().Contains(Alu32(Arsh, x % TWO32, k))
  {
    hide Pow2, Alu32, Tnum.Wf, Tnum.Contains, Tnum.ArShift, Tnum.Subreg, Bit;
    if Arsh32TnumOk(t, k) {
      forall x: U64 | t.Contains(x)
        ensures t.ArShift(k).Subreg().Contains(Alu32(Arsh, x % TWO32, k))
      {
        Arsh32TnumSound(t, k, x);
      }
    } else {
      var j :| 32 <= j < 32 + k && !Bit(t.mask, j) && (Bit(t.mask, 31) || Bit(t.value, j) != Bit(t.value, 31));
      Extremes(t);
      if Bit(t.mask, 31) {
        FlipUnknown(t, 31);
        WfIsDisjoint(t);
        Arsh32Fails(t, k, j, if Bit(t.value, j) then t.value else t.value + Pow2(31));
      } else {
        Arsh32Fails(t, k, j, t.value);
      }
    }
  }

  lemma Arsh32Fails(t: Tnum, k: nat, j: nat, x: U64)
    requires t.Wf() && k < 32 && 32 <= j < 32 + k && t.Contains(x)
    requires Known(t, j) && Bit(t.value, j) != Bit(x, 31)
    ensures !t.ArShift(k).Subreg().Contains(Alu32(Arsh, x % TWO32, k))
  {
    hide Bit, Pow2, Alu32, Tnum.Wf, Tnum.Contains, Sar;
    var r := t.ArShift(k).Subreg();
    BitSar(t.value, k, j - k);
    BitSar(t.mask, k, j - k);
    BitSubreg(t.ArShift(k).value, j - k);
    BitSubreg(t.ArShift(k).mask, j - k);
    BitArsh32(x, k, j - k);
    ContainsIsAgreement(r, Alu32(Arsh, x % TWO32, k));
  }

  lemma Tnum32Sound(op: AluOp, d: Tnum, s: Tnum, lo: I64, hi: I64, x: U64, y: U64)
    requires d.Wf() && s.Wf() && d.Contains(x) && s.Contains(y)
    requires IsShift(op) ==> 0 <= lo <= y <= hi < 32
    requires op.Rsh? && lo == hi ==> Rsh32TnumOk(d, lo)
    requires op.Arsh? && lo == hi ==> Arsh32TnumOk(d, lo)
    ensures AluTnum(op, d, s, lo, hi).Subreg().Wf()
    ensures AluTnum(op, d, s, lo, hi).Subreg().Contains(AluConst32(op, x, y))
  {
    hide Tnum.Wf, Tnum.Contains, Tnum.Add, Tnum.Sub, Tnum.BitAnd, Tnum.BitOr, Tnum.BitXor, Tnum.Subreg, Bits.And,
         Bits.Or, Bits.Xor, And64, Or64, Xor64;
    hide Tnum.LShift, Tnum.RShift, Tnum.ArShift, Shl, Shr, Sar, Quotient, Remainder, Wrap64, Wrap32, Unknown, Pow2,
         Rsh32TnumOk, Arsh32TnumOk;
    var r := AluConst32(op, x, y);
    if op.Rsh? && lo == hi {
      Rsh32TnumSound(d, lo, x);
    } else if op.Arsh? && lo == hi {
      Arsh32TnumSound(d, lo, x);
    } else if op.Add? || op.Sub? || op.And? || op.Or? || op.Xor? || (op.Lsh? && lo == hi) {
      Tnum64Sound(op, d, s, lo, hi, x, y);
      SubregOfMember(AluTnum(op, d, s, lo, hi), AluConst64(op, x, y));
      LowHalf(x, y);
      LowShl(x, if op.Lsh? then y else 0);
      LowBitwise(x, y);
    } else {
      UnknownTnum(r);
      SubregOfMember(Unknown(), r);
    }
  }

  // ── apply_alu ────────────────────────────────────────────────────────────

  lemma AluInner64Sound(op: AluOp, d: Bounds, s: Bounds, x: U64, y: U64)
    requires Gamma(d, x) && Gamma(s, y) && d.tnum.Wf() && s.tnum.Wf()
    requires IsShift(op) ==> 0 <= s.smin && s.smax < 64
    requires op.Mod? ==> SignedModOk(d.SRange(), s.SRange())
    requires op.Arsh? ==> VarArshOk(d.SRange(), s.SRange())
    requires !(d.IsConstant() && s.IsConstant())
    ensures Gamma(ApplyAluInner(op, W64, d, s), AluConst64(op, x, y))
    ensures ApplyAluInner(op, W64, d, s).tnum.Wf()
  {
    hide Alu64Signed, Alu64Unsigned, AluTnum, Bounds.Synced, Tnum.Contains, Tnum.Wf, AluConst64, VarArshOk,
         Bounds.IsConstant;
    var r := AluConst64(op, x, y);
    SignedSound(op, d.SRange(), s.SRange(), x, y);
    var amount: (U64, U64) := if IsShift(op) then (Wrap64(s.smin), Wrap64(s.smax)) else s.URange();
    UnsignedSound(op, d.URange(), amount, x, y);
    Tnum64Sound(op, d.tnum, s.tnum, s.smin, s.smax, x, y);
    var (sm, sx) := Alu64Signed(op, d.SRange(), s.SRange());
    var (um, ux) := Alu64Unsigned(op, d.URange(), amount);
    SyncedSound(Bounds(sm, sx, um, ux, 0, U32_MAX, AluTnum(op, d.tnum, s.tnum, s.smin, s.smax), d.id, d.delta), r);
  }

  lemma AluInner32Sound(op: AluOp, d: Bounds, s: Bounds, x: U64, y: U64)
    requires Gamma(d, x) && Gamma(s, y) && d.tnum.Wf() && s.tnum.Wf()
    requires IsShift(op) ==> 0 <= s.smin && s.smax < 32
    requires op.Mul? ==> Mul32Ok(d.U32Range(), s.U32Range())
    requires op.Rsh? && s.smin == s.smax ==> Rsh32TnumOk(d.tnum, s.smin)
    requires op.Arsh? && s.smin == s.smax ==> Arsh32TnumOk(d.tnum, s.smin)
    requires !(d.IsConstant() && s.IsConstant())
    ensures Gamma(ApplyAluInner(op, W32, d, s), AluConst32(op, x, y))
    ensures ApplyAluInner(op, W32, d, s).tnum.Wf()
  {
    hide Alu32Range, AluTnum, Tnum.Subreg, Bounds.Synced, Tnum.Contains, Tnum.Wf, Alu32, Mul32Ok, Rsh32TnumOk,
         Arsh32TnumOk, Bounds.IsConstant;
    var r := AluConst32(op, x, y);
    Range32Sound(op, d.U32Range(), s.U32Range(), x % TWO32, y % TWO32);
    Tnum32Sound(op, d.tnum, s.tnum, s.smin, s.smax, x, y);
    var (rmin, rmax) := Alu32Range(op, d.U32Range(), s.U32Range());
    SyncedSound(Bounds(rmin, rmax, rmin, rmax, 0, U32_MAX,
                       AluTnum(op, d.tnum, s.tnum, s.smin, s.smax).Subreg(), d.id, d.delta), r);
  }

  /** Every wrapping result of members is covered, under the guard. */
  lemma AluTransferSound(op: AluOp, width: Width, d: Bounds, s: Bounds, x: U64, y: U64)
    requires Gamma(d, x) && Gamma(s, y) && d.tnum.Wf() && s.tnum.Wf()
    requires AluGuard(op, width, d, s)
    ensures Gamma(ApplyAlu(op, width, d, s), AluConst(op, width, x, y))
    ensures ApplyAlu(op, width, d, s).tnum.Wf()
  {
    hide ApplyAluInner, AluConst64, AluConst32, Tnum.Contains, Tnum.Wf, Top, Const;
    hide SignedModOk, VarArshOk, Mul32Ok, Rsh32TnumOk, Arsh32TnumOk;
    var r := AluConst(op, width, x, y);
    if IsShift(op) && (s.smin < 0 || s.smax >= BitWidth(width)) {
      TopSound(r);
      InnerOutOfRange(op, width, d, s);
    } else if d.IsConstant() && s.IsConstant() {
      ConstantMember(d, x);
      ConstantMember(s, y);
      ConstSound(Signed64(r), r);
      WrapOfSigned(r);
      InnerConstant(op, width, d, s);
    } else if width.W64? {
      AluInner64Sound(op, d, s, x, y);
    } else {
      AluInner32Sound(op, d, s, x, y);
    }
    LinkingKeepsGamma(op, width, ApplyAluInner(op, width, d, s), d, s, r);
  }

  lemma InnerOutOfRange(op: AluOp, width: Width, d: Bounds, s: Bounds)
    requires IsShift(op) && (s.smin < 0 || s.smax >= BitWidth(width))
    ensures ApplyAluInner(op, width, d, s) == Top()
  {
  }

  lemma InnerConstant(op: AluOp, width: Width, d: Bounds, s: Bounds)
    requires !(IsShift(op) && (s.smin < 0 || s.smax >= BitWidth(width)))
    requires d.IsConstant() && s.IsConstant()
    ensures ApplyAluInner(op, width, d, s) == Const(Signed64(AluConst(op, width, Wrap64(d.smin), Wrap64(s.smin))))
  {
    hide AluConst64, AluConst32, Const;
  }

  lemma LinkingKeepsGamma(op: AluOp, width: Width, result: Bounds, d: Bounds, s: Bounds, x: U64)
    ensures Gamma(ApplyLinking(op, width, result, d, s), x) == Gamma(result, x)
    ensures ApplyLinking(op, width, result, d, s).tnum == result.tnum
  {
    hide Tnum.Contains;
  }

  // ── Truncating loads of a spilled scalar ─────────────────────────────────

  lemma AndLowMask(v: U64, n: nat)
    requires n <= 32
    ensures Pow2(n) <= TWO32 && And64(v, Pow2(n) - 1) == v % Pow2(n)
  {
    hide Bit, Pow2, Bits.And;
    Pow2Words();
    Pow2Mono(n, 32);
    var low: U64 := Pow2(n) - 1;
    forall k: nat | k < 64
      ensures Bit(And64(v, low), k) == Bit(v % Pow2(n), k)
    {
      BitAnd(v, low, k);
      BitLowMask(n, k);
      BitMod(v, n, k);
    }
    Extensional64(And64(v, low), v % Pow2(n));
  }

  /** The concrete counterpart of `coerce_scalar`. */
  function LoadValue(x: U64, size: nat, signExtend: bool): U64
    requires ValidSize(size)
  {
    if size == 8 then x else
      LowMaskBounds(x, size);
      Extend(x % Pow2(8 * size), size, signExtend)
  }

  lemma CoerceTnum(t: Tnum, n: nat, x: U64, y: U64)
    requires t.Wf() && t.Contains(x) && n <= 32 && Pow2(n) <= TWO32
    requires y % Pow2(n) == x % Pow2(n)
    ensures var low: U64 := Pow2(n) - 1;
            var r := Tnum(And64(t.value, low), Or64(And64(t.mask, low), Not64(low)));
            r.Wf() && r.Contains(y)
  {
    hide Bit, Pow2, Tnum.Wf, Tnum.Contains, Bits.And, Bits.Or;
    var low: U64 := Pow2(n) - 1;
    var r := Tnum(And64(t.value, low), Or64(And64(t.mask, low), Not64(low)));
    ContainsIsAgreement(t, x);
    WfIsDisjoint(t);
    forall k: nat | k < 64
      ensures Known(r, k) ==> Bit(y, k) == Bit(r.value, k)
      ensures !(Bit(r.value, k) && Bit(r.mask, k))
    {
      BitLowMask(n, k);
      BitAnd(t.value, low, k);
      BitAnd(t.mask, low, k);
      BitNot64(low, k);
      BitOr(And64(t.mask, low), Not64(low), k);
      BitMod(x, n, k);
      BitMod(y, n, k);
    }
    WfIsDisjoint(r);
    ContainsIsAgreement(r, y);
  }

  lemma ExtendLow(x: U64, size: nat, signExtend: bool)
    requires ValidSize(size) && size < 8
    ensures Pow2(8 * size) <= TWO32
    ensures LoadValue(x, size, signExtend) % Pow2(8 * size) == x % Pow2(8 * size)
    ensures !signExtend ==> LoadValue(x, size, signExtend) == x % Pow2(8 * size)
  {
    hide Pow2;
    LowMaskBounds(x, size);
    var p := Pow2(8 * size);
    var raw := x % p;
    DivUnique(raw, p, 0, raw);
    if signExtend && raw >= Pow2(8 * size - 1) {
      Pow2Words();
      Pow2Add(8 * size, 64 - 8 * size);
      var m := Pow2(64 - 8 * size);
      assert Wrap64(raw - p) == raw - p + TWO64;
      assert p * (m - 1) == p * m - p;
      ModEqual(raw + p * (m - 1), raw, p, m - 1);
    }
  }

  /** A truncating load of any covered value is covered. */
  lemma CoerceSound(b: Bounds, size: nat, signExtend: bool, x: U64)
    requires ValidSize(size) && Gamma(b, x) && b.tnum.Wf()
    ensures Gamma(CoerceScalar(b, size, signExtend), LoadValue(x, size, signExtend))
    ensures CoerceScalar(b, size, signExtend).tnum.Wf()
    ensures size < 8 ==> CoerceScalar(b, size, signExtend).id == 0 == CoerceScalar(b, size, signExtend).delta
  {
    hide Pow2, Tnum.Wf, Tnum.Contains, Extend, Bits.And, Bits.Or;
    if size < 8 {
      var p := Pow2(8 * size);
      LowMaskBounds(x, size);
      ExtendLow(x, size, signExtend);
      var y := LoadValue(x, size, signExtend);
      CoerceTnum(b.tnum, 8 * size, x, y);
      if b.IsConstant() {
        ConstantMember(b, x);
        AndLowMask(x, 8 * size);
        ConstSound(Signed64(y), y);
        WrapOfSigned(y);
      }
    }
  }
}
