/** Instructions of `src/insn.rs`, one constructor per instruction family, and
    the two-slot `ldimm64` encoding (section 3.2 of RFC 9669). */
module Insn {
  import opened Words
  import opened Scalar
  import opened Branch

  datatype Result<+T, +E> = Ok(value: T) | Err(error: E)

  datatype Option<+T> = None | Some(value: T)

  datatype MemSize = B8 | B16 | B32 | B64 {
    function Bytes(): (n: nat)
      ensures ValidSize(n)
    {
      match this case B8 => 1 case B16 => 2 case B32 => 4 case B64 => 8
    }
  }

  /** The decoder rejects register fields above r10. */
  type Reg = r: int | 0 <= r < 11

  datatype Insn =
    | MovImm(dst: Reg, imm: I32)
    | MovReg(dst: Reg, src: Reg)
    | Mov32Imm(dst: Reg, imm: I32)
    | Mov32Reg(dst: Reg, src: Reg)
    | AluImm(op: AluOp, width: Width, dst: Reg, imm: I32)
    | AluReg(op: AluOp, width: Width, dst: Reg, src: Reg)
    | NegReg(width: Width, dst: Reg)
    | LdImm64(dst: Reg, imm64: U64)
    // decoded with map type 0; the loader fills it in from the descriptor
    | LdMapFd(dst: Reg, fd: U32, mapType: U32)
    | LdMapValue(dst: Reg, fd: U32, valueOffset: U32)
    | LdImm64Second(immHi: U32)
    | LdMem(dst: Reg, base: Reg, offset: I16, size: MemSize, signExtend: bool)
    | StMem(src: Reg, base: Reg, offset: I16, size: MemSize)
    | StMemImm(imm: I32, base: Reg, offset: I16, size: MemSize)
    | Jmp(offset: I16)
    | JCond(cond: CondOp, dst: Reg, src: Reg, offset: I16)
    | JCondImm(cond: CondOp, dst: Reg, imm: I32, offset: I16)
    | Jset(dst: Reg, src: Reg, offset: I16)
    | JsetImm(dst: Reg, imm: I32, offset: I16)
    | Call(imm: I32)
    | CallSub(callOffset: I32)
    | Exit
  {
    predicate IsConditional() { JCond? || JCondImm? || Jset? || JsetImm? }

    /** The first slot of a two-slot instruction. */
    predicate IsWide() { LdImm64? || LdMapFd? || LdMapValue? }

    predicate IsMarker() { LdImm64Second? }
  }

  /** Programs are far below the range of a 32-bit index. */
  type Program = p: seq<Insn> | |p| < TWO31

  /** One frame, and how many a call chain may have. */
  const STACK_SIZE: nat := 512
  const MAX_CALL_FRAMES: nat := 16

  /** Helpers without arguments that return an unconstrained number. */
  predicate IsScalarHelper(imm: int) {
    imm == 5 || imm == 7 || imm == 8 || imm == 10 || imm == 125 || imm == 160 || imm == 208
  }

  /** `(pc as i32 + 1 + offset) as u32` */
  function Target(pc: U32, offset: int): U32 { Wrap32(pc + 1 + offset) }

  // ── Decoding ─────────────────────────────────────────────────────────────

  type Slot = s: seq<U8> | |s| == 8 witness [0, 0, 0, 0, 0, 0, 0, 0]

  const LD_IMM64: U8 := 0x18

  datatype DecodeError =
    | InvalidRegister(reg: U8)
    | ReservedFields
    | Unsupported
    | LdImm64Truncated
    | InvalidInstructionLength(actual: nat)
    | OtherDecode(op: U8)

  function Le32(b0: U8, b1: U8, b2: U8, b3: U8): U32 {
    b0 + 0x100 * b1 + 0x1_0000 * b2 + 0x100_0000 * b3
  }

  /** `parse_ldimm64` */
  function ParseLdImm64(first: Slot, second: Slot): Result<Insn, DecodeError> {
    var dst, src := first[1] % 16, first[1] / 16;
    var lo := Le32(first[4], first[5], first[6], first[7]);
    var hi := Le32(second[4], second[5], second[6], second[7]);
    if dst > 10 then Err(InvalidRegister(dst))
    else if first[2] != 0 || first[3] != 0 then Err(ReservedFields)
    else if second[0] != 0 || second[1] != 0 || second[2] != 0 || second[3] != 0 then Err(ReservedFields)
    else if src == 0 then Ok(LdImm64(dst, hi * TWO32 + lo))
    else if src == 1 then (if hi != 0 then Err(ReservedFields) else Ok(LdMapFd(dst, lo, 0)))
    else if src == 2 then Ok(LdMapValue(dst, lo, hi))
    else Err(Unsupported)
  }

  /** The single-slot table `parse_insn` is a parameter; opcode 0x18 is not in it,
      so it never produces a wide instruction or a marker. */
  type SlotParser = Slot -> Result<Insn, DecodeError>

  ghost predicate SingleSlot(parse: SlotParser) {
    forall s: Slot :: parse(s).Ok? ==> !parse(s).value.IsWide() && !parse(s).value.IsMarker()
  }

  function Marker(second: Slot): Insn {
    LdImm64Second(Le32(second[4], second[5], second[6], second[7]))
  }

  /** What decoding the slots from `idx` on yields; errors carry the failing slot. */
  function DecodeFrom(slots: seq<Slot>, idx: nat, parse: SlotParser): Result<seq<Insn>, (nat, DecodeError)>
    decreases |slots| - idx
  {
    if idx >= |slots| then Ok([])
    else if slots[idx][0] == LD_IMM64 then
      if idx + 1 >= |slots| then Err((idx, LdImm64Truncated)) else
        match ParseLdImm64(slots[idx], slots[idx + 1])
        case Err(e) => Err((idx, e))
        case Ok(insn) =>
          Prepend([insn, Marker(slots[idx + 1])], DecodeFrom(slots, idx + 2, parse))
    else
      match parse(slots[idx])
      case Err(e) => Err((idx, e))
      case Ok(insn) =>
        Prepend([insn], DecodeFrom(slots, idx + 1, parse))
  }

  function Prepend(done: seq<Insn>, r: Result<seq<Insn>, (nat, DecodeError)>): Result<seq<Insn>, (nat, DecodeError)> {
    match r case Ok(rest) => Ok(done + rest) case Err(e) => Err(e)
  }

  lemma PrependTwice(done: seq<Insn>, more: seq<Insn>, r: Result<seq<Insn>, (nat, DecodeError)>)
    ensures Prepend(done, Prepend(more, r)) == Prepend(done + more, r)
    ensures Prepend([], r) == r
  {
    if r.Ok? {
      assert done + (more + r.value) == done + more + r.value;
      assert [] + r.value == r.value;
    }
  }

  /** `decode_program`: the slot stream, then the incomplete trailing bytes. */
  method DecodeProgram(slots: seq<Slot>, remainder: nat, parse: SlotParser)
    returns (r: Result<seq<Insn>, (nat, DecodeError)>)
    ensures DecodeFrom(slots, 0, parse).Err? ==> r == DecodeFrom(slots, 0, parse)
    ensures DecodeFrom(slots, 0, parse).Ok? && remainder == 0 ==> r == DecodeFrom(slots, 0, parse)
    ensures DecodeFrom(slots, 0, parse).Ok? && remainder != 0 ==>
              r == Err((|slots|, InvalidInstructionLength(remainder)))
  {
    var insns: seq<Insn> := [];
    var idx := 0;
    PrependTwice([], [], DecodeFrom(slots, 0, parse));
    while idx < |slots|
      invariant 0 <= idx <= |slots|
      invariant Prepend(insns, DecodeFrom(slots, idx, parse)) == DecodeFrom(slots, 0, parse)
    {
      if slots[idx][0] == LD_IMM64 {
        if idx + 1 >= |slots| {
          return Err((idx, LdImm64Truncated));
        }
        var wide := ParseLdImm64(slots[idx], slots[idx + 1]);
        if wide.Err? {
          return Err((idx, wide.error));
        }
        PrependTwice(insns, [wide.value, Marker(slots[idx + 1])], DecodeFrom(slots, idx + 2, parse));
        assert insns + [wide.value] + [Marker(slots[idx + 1])] == insns + [wide.value, Marker(slots[idx + 1])];
        insns := insns + [wide.value];
        insns := insns + [Marker(slots[idx + 1])];
        idx := idx + 2;
      } else {
        var single := parse(slots[idx]);
        if single.Err? {
          return Err((idx, single.error));
        }
        PrependTwice(insns, [single.value], DecodeFrom(slots, idx + 1, parse));
        insns := insns + [single.value];
        idx := idx + 1;
      }
    }
    if remainder != 0 {
      return Err((idx, InvalidInstructionLength(remainder)));
    }
    assert insns + [] == insns;
    return Ok(insns);
  }

  /** A marker stands exactly behind the first slot of a wide instruction. */
  ghost predicate Sealed(insns: seq<Insn>) {
    && (forall i :: 0 <= i < |insns| && insns[i].IsMarker() ==> i > 0 && insns[i - 1].IsWide())
    && (forall i :: 0 <= i < |insns| && insns[i].IsWide() ==> i + 1 < |insns| && insns[i + 1].IsMarker())
  }

  lemma WideParse(first: Slot, second: Slot)
    requires ParseLdImm64(first, second).Ok?
    ensures ParseLdImm64(first, second).value.IsWide()
  {
  }

  ghost predicate SealedSuffix(r: seq<Insn>, n: nat) {
    |r| == n && Sealed(r) && (r != [] ==> !r[0].IsMarker())
  }

  /** Decoding yields one entry per slot, with every marker sealed behind its
      first slot; branch offsets therefore stay in slot units. */
  lemma {:induction false} DecodeSealed(slots: seq<Slot>, idx: nat, parse: SlotParser)
    requires SingleSlot(parse) && idx <= |slots|
    requires DecodeFrom(slots, idx, parse).Ok?
    ensures SealedSuffix(DecodeFrom(slots, idx, parse).value, |slots| - idx)
    decreases |slots| - idx
  {
    hide ParseLdImm64, Marker, Sealed;
    if idx >= |slots| {
      SealEmpty();
    } else if slots[idx][0] == LD_IMM64 {
      DecodeSealed(slots, idx + 2, parse);
      WideParse(slots[idx], slots[idx + 1]);
      var insn := ParseLdImm64(slots[idx], slots[idx + 1]).value;
      MarkerIsMarker(slots[idx + 1]);
      SealPair(insn, Marker(slots[idx + 1]));
      SealPrepend([insn, Marker(slots[idx + 1])], DecodeFrom(slots, idx + 2, parse).value);
    } else {
      DecodeSealed(slots, idx + 1, parse);
      SealSingle(parse(slots[idx]).value);
      SealPrepend([parse(slots[idx]).value], DecodeFrom(slots, idx + 1, parse).value);
    }
  }

  /** What entry i of the decoded program comes from. */
  ghost predicate ComesFrom(slots: seq<Slot>, k: nat, parse: SlotParser, insn: Insn, first: nat) {
    k < |slots|
    && if insn.IsMarker() then k > first && slots[k - 1][0] == LD_IMM64 && insn == Marker(slots[k])
       else if slots[k][0] == LD_IMM64 then
         k + 1 < |slots| && ParseLdImm64(slots[k], slots[k + 1]) == Ok(insn)
       else parse(slots[k]) == Ok(insn)
  }

  /** Entry by entry: a slot is parsed alone, with the slot behind it, or is that second
      slot. */
  lemma {:induction false} DecodedAs(slots: seq<Slot>, idx: nat, parse: SlotParser, i: nat)
    requires SingleSlot(parse) && DecodeFrom(slots, idx, parse).Ok? && i < |DecodeFrom(slots, idx, parse).value|
    ensures ComesFrom(slots, idx + i, parse, DecodeFrom(slots, idx, parse).value[i], idx)
    decreases |slots| - idx
  {
    hide ParseLdImm64, Marker;
    if slots[idx][0] == LD_IMM64 {
      WideParse(slots[idx], slots[idx + 1]);
      MarkerIsMarker(slots[idx + 1]);
      WideIsNoMarker(ParseLdImm64(slots[idx], slots[idx + 1]).value);
      if i >= 2 {
        DecodedAs(slots, idx + 2, parse, i - 2);
      }
    } else if i >= 1 {
      DecodedAs(slots, idx + 1, parse, i - 1);
    }
  }

  lemma WideIsNoMarker(insn: Insn)
    requires insn.IsWide()
    ensures !insn.IsMarker()
  {
  }

  /** The slot at k is refused with the given error. */
  ghost predicate Refused(slots: seq<Slot>, k: nat, parse: SlotParser, e: DecodeError) {
    k < |slots|
    && if slots[k][0] != LD_IMM64 then parse(slots[k]) == Err(e)
       else if k + 1 >= |slots| then e == LdImm64Truncated
       else ParseLdImm64(slots[k], slots[k + 1]) == Err(e)
  }

  /** An error names the first refused slot: what comes before it decodes. */
  lemma {:induction false} DecodeErrorAt(slots: seq<Slot>, idx: nat, parse: SlotParser)
    requires idx <= |slots| && DecodeFrom(slots, idx, parse).Err?
    ensures var (k, e) := DecodeFrom(slots, idx, parse).error;
            idx <= k && Refused(slots, k, parse, e) && DecodeFrom(slots[..k], idx, parse).Ok?
    decreases |slots| - idx
  {
    hide ParseLdImm64, Marker;
    var k := DecodeFrom(slots, idx, parse).error.0;
    if slots[idx][0] == LD_IMM64 {
      if idx + 1 < |slots| && ParseLdImm64(slots[idx], slots[idx + 1]).Ok? {
        DecodeErrorAt(slots, idx + 2, parse);
        assert slots[..k][idx] == slots[idx] && slots[..k][idx + 1] == slots[idx + 1];
      }
    } else if parse(slots[idx]).Ok? {
      DecodeErrorAt(slots, idx + 1, parse);
      assert slots[..k][idx] == slots[idx];
    }
  }

  lemma MarkerIsMarker(second: Slot)
    ensures Marker(second).IsMarker() && !Marker(second).IsWide()
  {
  }

  lemma SealEmpty()
    ensures Sealed([])
  {
  }

  lemma SealSingle(insn: Insn)
    requires !insn.IsWide() && !insn.IsMarker()
    ensures Sealed([insn])
  {
  }

  lemma SealPair(wide: Insn, marker: Insn)
    requires wide.IsWide() && !wide.IsMarker() && marker.IsMarker() && !marker.IsWide()
    ensures Sealed([wide, marker])
  {
  }

  lemma SealPrepend(head: seq<Insn>, rest: seq<Insn>)
    requires Sealed(head) && Sealed(rest) && (rest != [] ==> !rest[0].IsMarker())
    ensures Sealed(head + rest)
  {
    var r := head + rest;
    forall i | 0 <= i < |r| && r[i].IsMarker()
      ensures i > 0 && r[i - 1].IsWide()
    {
      if i >= |head| {
        assert rest[i - |head|].IsMarker();
      }
    }
    forall i | 0 <= i < |r| && r[i].IsWide()
      ensures i + 1 < |r| && r[i + 1].IsMarker()
    {
      if i >= |head| {
        assert rest[i - |head|].IsWide();
        assert rest[i - |head| + 1].IsMarker();
      } else {
        assert head[i].IsWide();
      }
    }
  }

  /** Byte k of v, little-endian. */
  function LeByte(v: nat, k: nat): U8 { if k == 0 then v % 0x100 else LeByte(v / 0x100, k - 1) }

  /** The two slots of `dst = imm64`. */
  function EncodeLdImm64(dst: U8, imm64: U64): (Slot, Slot)
    requires dst <= 10
  {
    ([LD_IMM64, dst, 0, 0, LeByte(imm64, 0), LeByte(imm64, 1), LeByte(imm64, 2), LeByte(imm64, 3)],
     [0, 0, 0, 0, LeByte(imm64, 4), LeByte(imm64, 5), LeByte(imm64, 6), LeByte(imm64, 7)])
  }

  lemma LdImm64RoundTrip(dst: U8, imm64: U64)
    requires dst <= 10
    ensures var e := EncodeLdImm64(dst, imm64);
            ParseLdImm64(e.0, e.1) == Ok(LdImm64(dst, imm64))
  {
    hide LeByte, Le32;
    LeBytes32(imm64);
    HighBytes(imm64);
    LeBytes32(imm64 / TWO32);
    assert LeByte(imm64, 4 + 0) == LeByte(imm64 / TWO32, 0) && LeByte(imm64, 4 + 1) == LeByte(imm64 / TWO32, 1);
    assert LeByte(imm64, 4 + 2) == LeByte(imm64 / TWO32, 2) && LeByte(imm64, 4 + 3) == LeByte(imm64 / TWO32, 3);
  }

  /** The two slots of the other pseudo loads: the kind is the source register field. */
  function EncodePseudo(kind: U8, dst: U8, lo: U32, hi: U32): (Slot, Slot)
    requires dst <= 10 && kind <= 15
  {
    ([LD_IMM64, 16 * kind + dst, 0, 0, LeByte(lo, 0), LeByte(lo, 1), LeByte(lo, 2), LeByte(lo, 3)],
     [0, 0, 0, 0, LeByte(hi, 0), LeByte(hi, 1), LeByte(hi, 2), LeByte(hi, 3)])
  }

  /** Kind 1 names a map by its descriptor, kind 2 a value in one; both keep their numbers,
      and a stray high half or another kind is refused. */
  lemma PseudoRoundTrip(kind: U8, dst: U8, lo: U32, hi: U32)
    requires dst <= 10 && 1 <= kind <= 15
    ensures var e := EncodePseudo(kind, dst, lo, hi);
            ParseLdImm64(e.0, e.1) ==
            if kind == 1 && hi == 0 then Ok(LdMapFd(dst, lo, 0))
            else if kind == 1 then Err(ReservedFields)
            else if kind == 2 then Ok(LdMapValue(dst, lo, hi))
            else Err(Unsupported)
  {
    hide LeByte, Le32;
    LeBytes32(lo);
    LeBytes32(hi);
    assert (16 * kind + dst) % 16 == dst && (16 * kind + dst) / 16 == kind;
  }

  /** What the pair of slots must not be: a register above r10, anything in a reserved
      field, a kind that is not a number, a map or a map value. */
  lemma ParseAccepts(first: Slot, second: Slot)
    ensures ParseLdImm64(first, second).Ok? <==>
              && first[1] % 16 <= 10 && first[1] / 16 <= 2
              && first[2] == 0 == first[3] && second[..4] == [0, 0, 0, 0]
              && (first[1] / 16 == 1 ==> second[4..] == [0, 0, 0, 0])
  {
    assert second[..4] == [second[0], second[1], second[2], second[3]];
    assert second[4..] == [second[4], second[5], second[6], second[7]];
  }

  lemma LeBytes32(v: nat)
    ensures Le32(LeByte(v, 0), LeByte(v, 1), LeByte(v, 2), LeByte(v, 3)) == v % TWO32
  {
    var a := v / 0x100;
    var b := a / 0x100;
    var c := b / 0x100;
    assert LeByte(v, 1) == a % 0x100 && LeByte(v, 2) == LeByte(a, 1) == b % 0x100;
    assert LeByte(v, 3) == LeByte(a, 2) == LeByte(b, 1) == c % 0x100;
    DivDiv(v, 0x100, 0x100_0000);
    DivDiv(a, 0x100, 0x1_0000);
    DivDiv(b, 0x100, 0x100);
  }

  lemma HighBytes(v: nat)
    ensures forall k: nat :: k < 4 ==> LeByte(v, 4 + k) == LeByte(v / TWO32, k)
  {
    assert v / 0x100 / 0x100 / 0x100 / 0x100 == v / TWO32;
    forall k: nat | k < 4
      ensures LeByte(v, 4 + k) == LeByte(v / TWO32, k)
    {
      var a := v / 0x100;
      var b := a / 0x100;
      var c := b / 0x100;
      assert LeByte(v, 4 + k) == LeByte(a, 3 + k) == LeByte(b, 2 + k) == LeByte(c, 1 + k) == LeByte(c / 0x100, k);
    }
  }
}
