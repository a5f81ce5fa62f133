/** The abstract interpreter of `src/exec.rs` on the executing frame: register
    states, byte-marked stack slots with spill metadata, acquired references, and
    the successor relation. Calls, and accesses to caller frames, are left to module
    Calls; map values, dynptrs and BTF objects are not part of this model. */
module Abstract {
  import opened Words
  import opened Scalar
  import opened Branch
  import opened Insn

  const ALIGN_UNKNOWN: nat := 0xFF
  const MAX_REFS: nat := 8
  const REF_ID_BASE: nat := 0x1000_0000
  const BPF_MAX_VAR_OFF: int := 0x1000_0000
  const MAP_RINGBUF: U32 := 1

  datatype RegState =
    | Uninit
    | Num(b: Bounds)
    | PtrToStack(min: I32, max: I32, align: nat, frameno: nat)
    | PtrToCtx(off: I32)
    | PtrToMap(mapType: U32)
    | PtrToMem(maxOffset: I32, ref: nat)
    | PtrToMemOrNull(ref: nat, size: U32)

  datatype StackByte = Invalid | Misc | Zero | Spill

  type Regs = s: seq<RegState> | |s| == 11 witness seq(11, _ => Uninit)
  type Marks = s: seq<StackByte> | |s| == 512 witness seq(512, _ => Invalid)
  type Spills = s: seq<Option<RegState>> | |s| == 64 witness seq(64, _ => None)

  datatype State = State(regs: Regs, bytes: Marks, spilled: Spills, refs: seq<nat>, frame: nat)

  datatype Rejection = Rejection(pc: nat)

  function NoMarks(): Marks { seq(512, _ => Invalid) }

  function NoSpills(): Spills { seq(64, _ => None) }

  function Initial(): State {
    State([Uninit, PtrToCtx(0), Uninit, Uninit, Uninit, Uninit, Uninit, Uninit, Uninit, Uninit, PtrToStack(0, 0, 0, 0)],
          NoMarks(), NoSpills(), [], 0)
  }

  function SetReg(st: State, reg: Reg, v: RegState): State { st.(regs := st.regs[reg := v]) }

  function ReadReg(pc: nat, st: State, reg: Reg): Result<RegState, Rejection> {
    if st.regs[reg].Uninit? then Err(Rejection(pc)) else Ok(st.regs[reg])
  }

  // ── Pointer offsets ──────────────────────────────────────────────────────

  function ClampI32(z: int): I32 { if z < I32_MIN then I32_MIN else if z > I32_MAX then I32_MAX else z }

  /** `check_sane_addend` */
  predicate SaneAddend(s: Bounds) { -BPF_MAX_VAR_OFF < s.smin < BPF_MAX_VAR_OFF }

  /** `check_sane_result_offset` */
  predicate SaneOffset(min: int) { -BPF_MAX_VAR_OFF < min < BPF_MAX_VAR_OFF }

  /** `(align_off as i32 + k).rem_euclid(8)`, also when `align_off` is the
      unknown marker 0xFF. */
  function AddAlign(align: nat, k: int): nat { (align + k % 8) % 8 }

  /** From the low three bits of the tnum, when they are known. */
  function AddScalarAlign(align: nat, s: Bounds): nat {
    if s.tnum.mask % 8 == 0 then AddAlign(align, s.tnum.value % 8) else ALIGN_UNKNOWN
  }

  /** `add_scalar_to_stack_ptr` */
  function AddScalarToStackPtr(pc: nat, ptr: RegState, s: Bounds): Result<RegState, Rejection>
    requires ptr.PtrToStack?
  {
    var min64 := SaturateI64(ptr.min + s.smin);
    var max64 := SaturateI64(ptr.max + s.smax);
    if !SaneAddend(s) || !SaneOffset(min64) then Err(Rejection(pc)) else
      Ok(PtrToStack(ClampI32(min64), ClampI32(max64), AddScalarAlign(ptr.align, s), ptr.frameno))
  }

  /** `rX += imm` on a stack pointer. */
  function AddImmToStackPtr(pc: nat, ptr: RegState, imm: I32): Result<RegState, Rejection>
    requires ptr.PtrToStack?
  {
    if !(-BPF_MAX_VAR_OFF < imm < BPF_MAX_VAR_OFF) || !SaneOffset(ptr.min + imm) then Err(Rejection(pc))
    else Ok(PtrToStack(ClampI32(ptr.min + imm), ClampI32(ptr.max + imm), AddAlign(ptr.align, imm), ptr.frameno))
  }

  /** Context pointers move by a sane known offset. */
  function MoveCtx(pc: nat, ptr: RegState, op: AluOp, width: Width, amount: Bounds): Result<RegState, Rejection>
    requires ptr.PtrToCtx?
  {
    if (!op.Add? && !op.Sub?) || !width.W64? || !SaneAddend(amount) || !amount.IsConstant() then Err(Rejection(pc))
    else Ok(PtrToCtx(ClampI32(ptr.off + if op.Add? then amount.smin else 0 - amount.smin)))
  }

  // ── ALU ──────────────────────────────────────────────────────────────────

  function SetResult(st: State, dst: Reg, r: Result<RegState, Rejection>): Result<State, Rejection> {
    match r case Err(e) => Err(e) case Ok(v) => Ok(SetReg(st, dst, v))
  }

  /** `alu_imm` */
  function AluImm(pc: nat, st: State, op: AluOp, width: Width, dst: Reg, imm: I32): Result<State, Rejection> {
    if IsShift(op) && !(0 <= imm < BitWidth(width)) then Err(Rejection(pc)) else
      var d := st.regs[dst];
      if d.Num? then Ok(SetReg(st, dst, Num(ApplyAlu(op, width, d.b, Const(imm)))))
      else if d.PtrToStack? && op.Add? && width.W64? then SetResult(st, dst, AddImmToStackPtr(pc, d, imm))
      else if d.PtrToCtx? then SetResult(st, dst, MoveCtx(pc, d, op, width, Const(imm)))
      else Err(Rejection(pc))
  }

  /** `alu_reg` */
  function AluReg(pc: nat, st: State, op: AluOp, width: Width, dst: Reg, src: Reg): Result<State, Rejection> {
    var d, s := st.regs[dst], st.regs[src];
    if d.PtrToStack? && s.Num? && op.Add? && width.W64? then SetResult(st, dst, AddScalarToStackPtr(pc, d, s.b))
    else if d.PtrToCtx? && s.Num? then SetResult(st, dst, MoveCtx(pc, d, op, width, s.b))
    else if d.Num? && s.PtrToStack? && op.Add? && width.W64? then SetResult(st, dst, AddScalarToStackPtr(pc, s, d.b))
    else if d.Num? && s.PtrToCtx? && op.Add? && width.W64? then SetResult(st, dst, MoveCtx(pc, s, op, width, d.b))
    else if d.Num? && s.Num? then Ok(SetReg(st, dst, Num(ApplyAlu(op, width, d.b, s.b))))
    else Err(Rejection(pc))
  }

  /** `alu_neg` */
  function NegBounds(width: Width, d: Bounds): Bounds {
    if d.IsConstant() then Const(Signed64(AluConst(Neg, width, Wrap64(d.smin), 0))) else Top()
  }

  /** `wX = wY` */
  function Mov32Bounds(s: Bounds): Bounds {
    if s.IsConstant() then FromSigned(0, s.umax % TWO32) else FromSigned(0, U32_MAX)
  }

  /** `rX = rY`: an unlinked variable scalar gets the link id pc + 1 first. */
  function MovReg(pc: U32, st: State, dst: Reg, src: Reg): Result<State, Rejection> {
    match ReadReg(pc, st, src)
    case Err(e) => Err(e)
    case Ok(v) =>
      if NeedsLink(v) then
        var linked := Num(v.b.(id := Wrap32(pc + 1)));
        Ok(SetReg(SetReg(st, src, linked), dst, linked))
      else Ok(SetReg(st, dst, v))
  }

  predicate NeedsLink(v: RegState) { v.Num? && v.b.id == 0 && !v.b.IsConstant() }

  // ── Stack accesses ───────────────────────────────────────────────────────

  /** The frame bytes of an access, highest address first: byte i is r10 - i - 1. */
  datatype Access = Access(lo: int, hi: int, minOff: int, fixed: bool)

  /** The access-time checks shared by loads and stores. */
  function CheckAccess(pc: nat, ptr: RegState, offset: I16, size: nat): (r: Result<Access, Rejection>)
    requires ptr.PtrToStack? && ValidSize(size)
    ensures r.Ok? && r.value.fixed ==> 0 <= r.value.lo <= r.value.hi < 512 && r.value.hi / 8 < 64
    ensures r.Ok? ==> 0 <= r.value.lo && r.value.hi < 512
  {
    var minOff, maxOff := ptr.min + offset, ptr.max + offset + size;
    if ptr.align == ALIGN_UNKNOWN || (ptr.align + offset) % size != 0 || minOff % size != 0 then Err(Rejection(pc))
    else if minOff < -512 || maxOff > 0 then Err(Rejection(pc))
    else Ok(Access(-maxOff, -minOff - 1, minOff, ptr.min == ptr.max))
  }

  /** The register points into the executing frame. */
  predicate OwnFrame(st: State, reg: Reg) { st.regs[reg].PtrToStack? && st.regs[reg].frameno == st.frame }

  predicate AllMarked(bytes: Marks, lo: int, hi: int, mark: StackByte)
    requires 0 <= lo && hi < 512
  {
    forall i :: lo <= i <= hi ==> bytes[i] == mark
  }

  predicate NoneInvalid(bytes: Marks, lo: int, hi: int)
    requires 0 <= lo && hi < 512
  {
    forall i :: lo <= i <= hi ==> !bytes[i].Invalid?
  }

  predicate FullSpill(bytes: Marks, slot: nat)
    requires slot < 64
  {
    AllMarked(bytes, 8 * slot, 8 * slot + 7, Spill)
  }

  /** `fixed_stack_read`: a full fill restores the register, an aligned narrow
      fill truncates a spilled scalar, anything else walks the bytes. */
  function FixedRead(pc: nat, st: State, a: Access, size: nat, signExtend: bool): Result<RegState, Rejection>
    requires ValidSize(size) && 0 <= a.lo <= a.hi < 512 && a.hi / 8 < 64
  {
    var spill := st.spilled[a.hi / 8];
    if AllMarked(st.bytes, a.lo, a.hi, Spill) && spill.Some? && size == 8 then Ok(spill.value)
    else if AllMarked(st.bytes, a.lo, a.hi, Spill) && spill.Some? && !spill.value.Num? then Err(Rejection(pc))
    else if AllMarked(st.bytes, a.lo, a.hi, Spill) && spill.Some? && a.minOff % 8 == 0 then
      Ok(Num(CoerceScalar(spill.value.b, size, signExtend)))
    else if !NoneInvalid(st.bytes, a.lo, a.hi) then Err(Rejection(pc))
    else if AllMarked(st.bytes, a.lo, a.hi, Zero)
            || (AllMarked(st.bytes, a.lo, a.hi, Spill) && IsZeroSpill(spill))
    then Ok(Num(Const(0)))
    else Ok(Num(Top()))
  }

  predicate IsZeroSpill(spill: Option<RegState>) {
    spill.Some? && spill.value.Num? && spill.value.b.IsConstant() && spill.value.b.smin == 0
  }

  predicate IsScalarSpill(spill: Option<RegState>) { spill.Some? && spill.value.Num? }

  /** Every byte a variable-offset read may touch must be readable as a number. */
  predicate VariableReadable(st: State, lo: int, hi: int)
    requires 0 <= lo && hi < 512
  {
    forall i :: lo <= i <= hi ==>
      !st.bytes[i].Invalid? && (st.bytes[i].Spill? ==> IsScalarSpill(st.spilled[i / 8]))
  }

  /** `stack_read` */
  function StackRead(pc: nat, st: State, base: Reg, offset: I16, size: nat,
                     signExtend: bool): Result<RegState, Rejection>
    requires ValidSize(size)
  {
    var ptr := st.regs[base];
    if ptr.PtrToStack? then
      if ptr.frameno != st.frame then Err(Rejection(pc)) else
      match CheckAccess(pc, ptr, offset, size)
      case Err(e) => Err(e)
      case Ok(a) =>
        if a.fixed then FixedRead(pc, st, a, size, signExtend)
        else if VariableReadable(st, a.lo, a.hi) then Ok(Num(Top()))
        else Err(Rejection(pc))
    else if ptr.PtrToMem? then
      if MemAccessOk(ptr, offset, size) then Ok(Num(Top())) else Err(Rejection(pc))
    else Err(Rejection(pc))
  }

  /** `mem_access_check` on a buffer whose offset range is [0, maxOffset]. */
  predicate MemAccessOk(ptr: RegState, offset: I16, size: nat)
    requires ptr.PtrToMem? && ValidSize(size)
  {
    offset % size == 0 && 0 <= offset && offset + size <= 8
  }

  /** An aligned store spills the register into the low bytes of the slot. */
  function SpillStore(st: State, a: Access, v: RegState): State
    requires 0 <= a.lo <= a.hi < 512 && a.hi / 8 < 64
  {
    var slot := a.hi / 8;
    st.(bytes := seq(512, i requires 0 <= i < 512 =>
          if a.lo <= i <= a.hi then Spill else if 8 * slot <= i < a.lo then Misc else st.bytes[i]),
        spilled := st.spilled[slot := Some(v)])
  }

  /** Any other store marks the covered bytes and scrubs the touched slots. */
  function ScrubStore(st: State, a: Access, mark: StackByte): State
    requires 0 <= a.lo && a.hi < 512
  {
    st.(bytes := seq(512, i requires 0 <= i < 512 =>
          if a.lo <= i <= a.hi then mark
          else if a.lo / 8 <= i / 8 <= a.hi / 8 && st.bytes[i].Spill? then Misc else st.bytes[i]),
        spilled := ScrubSpills(st.spilled, a.lo / 8, a.hi / 8))
  }

  function ScrubSpills(spilled: Spills, first: int, last: int): Spills {
    seq(64, s requires 0 <= s < 64 => if first <= s <= last then None else spilled[s])
  }

  /** The aligned store as the source runs it on the frame's arrays. */
  method SpillInPlace(bytes: array<StackByte>, spilled: array<Option<RegState>>, a: Access, v: RegState,
                      ghost st: State)
    requires bytes.Length == 512 && spilled.Length == 64 && bytes[..] == st.bytes && spilled[..] == st.spilled
    requires 0 <= a.lo <= a.hi < 512 && a.hi / 8 < 64
    modifies bytes, spilled
    ensures bytes[..] == SpillStore(st, a, v).bytes && spilled[..] == SpillStore(st, a, v).spilled
  {
    var slot := a.hi / 8;
    for i := a.lo to a.hi + 1
      invariant spilled[..] == st.spilled
      invariant forall k :: 0 <= k < 512 ==> bytes[k] == if a.lo <= k < i then Spill else st.bytes[k]
    {
      bytes[i] := Spill;
    }
    var i := 8 * slot;
    while i < a.lo
      invariant 8 * slot <= i && spilled[..] == st.spilled
      invariant forall k :: 0 <= k < 512 ==>
        bytes[k] == if a.lo <= k <= a.hi then Spill else if 8 * slot <= k < Min(i, a.lo) then Misc else st.bytes[k]
    {
      bytes[i] := Misc;
      i := i + 1;
    }
    spilled[slot] := Some(v);
  }

  /** The other stores: drop the spills, mark the bytes, scrub the leftovers. */
  method ScrubInPlace(bytes: array<StackByte>, spilled: array<Option<RegState>>, a: Access, mark: StackByte,
                      ghost st: State)
    requires bytes.Length == 512 && spilled.Length == 64 && bytes[..] == st.bytes && spilled[..] == st.spilled
    requires 0 <= a.lo <= a.hi < 512 && !mark.Spill?
    modifies bytes, spilled
    ensures bytes[..] == ScrubStore(st, a, mark).bytes && spilled[..] == ScrubStore(st, a, mark).spilled
  {
    var first, last := a.lo / 8, a.hi / 8;
    for s := first to last + 1
      invariant bytes[..] == st.bytes
      invariant forall k :: 0 <= k < 64 ==> spilled[k] == if first <= k < s then None else st.spilled[k]
    {
      spilled[s] := None;
    }
    for i := a.lo to a.hi + 1
      invariant spilled[..] == ScrubSpills(st.spilled, first, last)
      invariant forall k :: 0 <= k < 512 ==> bytes[k] == if a.lo <= k < i then mark else st.bytes[k]
    {
      bytes[i] := mark;
    }
    for i := 8 * first to 8 * last + 8
      invariant spilled[..] == ScrubSpills(st.spilled, first, last)
      invariant forall k :: 0 <= k < 512 ==>
        bytes[k] == if a.lo <= k <= a.hi then mark
                    else if 8 * first <= k < i && st.bytes[k].Spill? then Misc else st.bytes[k]
    {
      if bytes[i].Spill? {
        bytes[i] := Misc;
      }
    }
    assert forall k :: 0 <= k < 512 ==> (8 * first <= k < 8 * last + 8 <==> first <= k / 8 <= last);
  }

  predicate PointerSpilled(st: State, a: Access)
    requires 0 <= a.lo && a.hi < 512
  {
    exists s :: 0 <= s < 64 && a.lo / 8 <= s <= a.hi / 8 && st.spilled[s].Some? && !st.spilled[s].value.Num?
  }

  function StackStore(pc: nat, st: State, a: Access, size: nat, v: RegState): Result<State, Rejection>
    requires 0 <= a.lo && a.hi < 512 && (a.fixed ==> a.lo <= a.hi && a.hi / 8 < 64)
  {
    if a.fixed && a.minOff % 8 == 0 then
      if v.Uninit? || (!v.Num? && size != 8) then Err(Rejection(pc)) else Ok(SpillStore(st, a, v))
    else if PointerSpilled(st, a) || v.Uninit? then Err(Rejection(pc))
    else Ok(ScrubStore(st, a, if v.Num? && v.b.IsConstant() && v.b.smin == 0 then Zero else Misc))
  }

  /** `stack_write` of the register state or constant `v`. */
  function StackWrite(pc: nat, st: State, base: Reg, offset: I16, size: nat, v: RegState): Result<State, Rejection>
    requires ValidSize(size)
  {
    var ptr := st.regs[base];
    if ptr.PtrToStack? then
      if ptr.frameno != st.frame then Err(Rejection(pc)) else
      match CheckAccess(pc, ptr, offset, size)
      case Err(e) => Err(e)
      case Ok(a) => StackStore(pc, st, a, size, v)
    else if ptr.PtrToMem? then
      if MemAccessOk(ptr, offset, size) && v.Num? then Ok(st) else Err(Rejection(pc))
    else Err(Rejection(pc))
  }

  // ── References ───────────────────────────────────────────────────────────

  predicate HoldsRef(v: RegState, id: nat) { (v.PtrToMem? || v.PtrToMemOrNull?) && v.ref == id }

  /** `fresh_reference_id`: the first identifier that is not active. */
  function FreshFrom(refs: seq<nat>, id: nat, budget: nat): nat
    decreases budget
  {
    if budget == 0 || id !in refs then id else FreshFrom(refs, id + 1, budget - 1)
  }

  function FreshReferenceId(refs: seq<nat>): nat { FreshFrom(refs, REF_ID_BASE + 1, |refs|) }

  function IndexOf(refs: seq<nat>, id: nat): (i: nat)
    requires id in refs
    ensures i < |refs| && refs[i] == id
  {
    if refs[0] == id then 0 else 1 + IndexOf(refs[1..], id)
  }

  /** The last reference moves into the released position. */
  function DropRef(refs: seq<nat>, id: nat): seq<nat> {
    if id !in refs then refs else
      var i := IndexOf(refs, id);
      refs[i := refs[|refs| - 1]][..|refs| - 1]
  }

  /** What an alias turns into: an unknown number on release, the number 0 on the
      null side and a buffer on the valid side of a NULL check. */
  datatype Fate = ToTop | ToZero | ToValid

  function Become(fate: Fate, v: RegState): RegState {
    match fate
    case ToTop => Num(Top())
    case ToZero => Num(Const(0))
    case ToValid => if v.PtrToMemOrNull? then PtrToMem(ClampI32(if v.size < 8 then 0 else v.size - 8), v.ref) else v
  }

  function AliasReg(v: RegState, id: nat, fate: Fate): RegState { if HoldsRef(v, id) then Become(fate, v) else v }

  function AliasSpill(v: Option<RegState>, full: bool, id: nat, fate: Fate): Option<RegState> {
    if v.Some? && HoldsRef(v.value, id) && full then Some(Become(fate, v.value)) else v
  }

  /** Replace every alias of a reference in registers and full spills. */
  function ReplaceAliases(st: State, id: nat, fate: Fate): State {
    st.(regs := seq(11, r requires 0 <= r < 11 => AliasReg(st.regs[r], id, fate)),
        spilled := seq(64, s requires 0 <= s < 64 => AliasSpill(st.spilled[s], FullSpill(st.bytes, s), id, fate)))
  }

  /** `invalidate_reference_aliases_in_frame`: two loops updating the frame. */
  method InvalidateInPlace(regs: array<RegState>, spilled: array<Option<RegState>>, bytes: array<StackByte>,
                           id: nat, ghost st: State)
    requires regs.Length == 11 && spilled.Length == 64 && bytes.Length == 512
    requires regs[..] == st.regs && spilled[..] == st.spilled && bytes[..] == st.bytes
    modifies regs, spilled
    ensures regs[..] == ReplaceAliases(st, id, ToTop).regs
    ensures spilled[..] == ReplaceAliases(st, id, ToTop).spilled
    ensures bytes[..] == st.bytes
  {
    for r := 0 to 11
      invariant bytes[..] == st.bytes && spilled[..] == st.spilled
      invariant forall k :: 0 <= k < r ==> regs[k] == AliasReg(st.regs[k], id, ToTop)
      invariant forall k :: r <= k < 11 ==> regs[k] == st.regs[k]
    {
      if HoldsRef(regs[r], id) {
        regs[r] := Num(Top());
      }
    }
    for s := 0 to 64
      invariant bytes[..] == st.bytes
      invariant forall k :: 0 <= k < 11 ==> regs[k] == AliasReg(st.regs[k], id, ToTop)
      invariant forall k :: 0 <= k < s ==> spilled[k] == AliasSpill(st.spilled[k], FullSpill(st.bytes, k), id, ToTop)
      invariant forall k :: s <= k < 64 ==> spilled[k] == st.spilled[k]
    {
      var v := spilled[s];
      if v.Some? && HoldsRef(v.value, id) && FullSpill(bytes[..], s) {
        spilled[s] := Some(Num(Top()));
      }
    }
  }

  function NullSide(st: State, id: nat, ptrReg: Reg): State {
    SetReg(ReplaceAliases(st.(refs := DropRef(st.refs, id)), id, ToZero), ptrReg, Num(Const(0)))
  }

  function ValidSide(st: State, id: nat, ptrReg: Reg): State {
    SetReg(ReplaceAliases(st, id, ToValid), ptrReg, PtrToMem(0, id))
  }

  // ── Helper calls ─────────────────────────────────────────────────────────

  function Clobber(regs: Regs): Regs { [regs[0], Uninit, Uninit, Uninit, Uninit, Uninit] + regs[6..] }

  function AfterCall(st: State, r0: RegState): State { st.(regs := [r0] + Clobber(st.regs)[1..]) }

  function ReserveSize(v: RegState): U32 {
    if v.Num? && v.b.IsConstant() && v.b.smin >= 0 then v.b.smin % TWO32 else 0
  }

  function CallHelper(pc: nat, st: State, imm: I32): Result<State, Rejection> {
    if IsScalarHelper(imm) then Ok(AfterCall(st, Num(Top())))
    else if imm == 131 then
      if st.regs[1] != PtrToMap(MAP_RINGBUF) || !st.regs[2].Num? || !st.regs[3].Num? || |st.refs| >= MAX_REFS
      then Err(Rejection(pc))
      else
        var id := FreshReferenceId(st.refs);
        Ok(AfterCall(st.(refs := st.refs + [id]), PtrToMemOrNull(id, ReserveSize(st.regs[2]))))
    else if imm == 132 || imm == 133 then
      if !st.regs[1].PtrToMem? || !st.regs[2].Num? || st.regs[1].ref == 0 || st.regs[1].ref !in st.refs
      then Err(Rejection(pc))
      else
        var id := st.regs[1].ref;
        Ok(AfterCall(ReplaceAliases(st.(refs := DropRef(st.refs, id)), id, ToTop), Num(Const(0))))
    else Err(Rejection(pc))
  }

  // ── Linked scalars ───────────────────────────────────────────────────────

  /** The synced bounds of a register or slot linked with the refined operand. */
  function Shifted(b: Bounds, knownDelta: I32, known: Bounds): Bounds {
    var shift := b.delta - knownDelta;
    var moved := if shift == 0 then known else ApplyAlu(Scalar.Add, W64, known, Const(shift));
    moved.(id := b.id, delta := b.delta)
  }

  predicate BoundsEqual(a: Bounds, b: Bounds) {
    a.smin == b.smin && a.smax == b.smax && a.umin == b.umin && a.umax == b.umax && a.tnum == b.tnum
  }

  function SyncReg(v: RegState, id: U32, knownDelta: I32, known: Bounds): RegState {
    if v.Num? && v.b.id == id && !BoundsEqual(v.b, known) then Num(Shifted(v.b, knownDelta, known)) else v
  }

  function SyncSpill(v: Option<RegState>, full: bool, id: U32, knownDelta: I32, known: Bounds): Option<RegState> {
    if v.Some? && v.value.Num? && v.value.b.id == id && full
    then Some(Num(Shifted(v.value.b, knownDelta, known)))
    else v
  }

  /** `sync_linked_scalars` */
  function SyncLinked(st: State, id: U32, knownDelta: I32, known: Bounds): State {
    if id == 0 then st else
      st.(regs := seq(11, r requires 0 <= r < 11 => SyncReg(st.regs[r], id, knownDelta, known)),
          spilled := seq(64, s requires 0 <= s < 64 =>
            SyncSpill(st.spilled[s], FullSpill(st.bytes, s), id, knownDelta, known)))
  }

  /** The same sync as the source runs it: two loops updating the state in place. */
  method SyncInPlace(regs: array<RegState>, spilled: array<Option<RegState>>, bytes: array<StackByte>,
                     id: U32, knownDelta: I32, known: Bounds, ghost st: State)
    requires regs.Length == 11 && spilled.Length == 64 && bytes.Length == 512
    requires regs[..] == st.regs && spilled[..] == st.spilled && bytes[..] == st.bytes
    modifies regs, spilled
    ensures regs[..] == SyncLinked(st, id, knownDelta, known).regs
    ensures spilled[..] == SyncLinked(st, id, knownDelta, known).spilled
    ensures bytes[..] == st.bytes
  {
    hide Shifted, BoundsEqual;
    if id == 0 {
      return;
    }
    for r := 0 to 11
      invariant bytes[..] == st.bytes && spilled[..] == st.spilled
      invariant forall k :: 0 <= k < r ==> regs[k] == SyncReg(st.regs[k], id, knownDelta, known)
      invariant forall k :: r <= k < 11 ==> regs[k] == st.regs[k]
    {
      var v := regs[r];
      if v.Num? && v.b.id == id && !BoundsEqual(v.b, known) {
        regs[r] := Num(Shifted(v.b, knownDelta, known));
      }
    }
    for s := 0 to 64
      invariant bytes[..] == st.bytes
      invariant forall k :: 0 <= k < 11 ==> regs[k] == SyncReg(st.regs[k], id, knownDelta, known)
      invariant forall k :: 0 <= k < s ==>
        spilled[k] == SyncSpill(st.spilled[k], FullSpill(st.bytes, k), id, knownDelta, known)
      invariant forall k :: s <= k < 64 ==> spilled[k] == st.spilled[k]
    {
      var v := spilled[s];
      if v.Some? && v.value.Num? && v.value.b.id == id {
        var full := FullSpill(bytes[..], s);
        if full {
          spilled[s] := Some(Num(Shifted(v.value.b, knownDelta, known)));
        }
      }
    }
  }

  // ── Branches ─────────────────────────────────────────────────────────────

  type Succs = Result<seq<(nat, State)>, Rejection>

  /** One side of a scalar branch: write both refined operands, then sync the
      link groups of the operands they replace. */
  function RefinedSide(st: State, dst: Reg, src: Option<Reg>, d: Bounds, s: Bounds, side: (Bounds, Bounds)): State {
    var withDst := SetReg(st, dst, Num(side.0));
    var written := if src.Some? then SetReg(withDst, src.value, Num(side.1)) else withDst;
    var synced := SyncLinked(written, d.id, d.delta, side.0);
    if src.Some? then SyncLinked(synced, s.id, s.delta, side.1) else synced
  }

  /** The scalar arm of `cond_branch_impl`. */
  function ScalarBranch(pc: U32, st: State, op: CondOp, dst: Reg, src: Option<Reg>, d: Bounds, s: Bounds,
                        offset: I16): seq<(nat, State)> {
    var verdict := IsBranchTaken(op, d, s);
    var r := RefineCmp(op, d, s);
    (if verdict.AlwaysNotTaken? then [] else [(Target(pc, offset), RefinedSide(st, dst, src, d, s, r.0))]) +
    (if verdict.AlwaysTaken? then [] else [(pc + 1, RefinedSide(st, dst, src, d, s, r.1))])
  }

  predicate IsPlainPointer(v: RegState) { v.PtrToStack? || v.PtrToCtx? || v.PtrToMap? || v.PtrToMem? }

  predicate SamePointerKind(a: RegState, b: RegState) {
    (a.PtrToStack? && b.PtrToStack?) || (a.PtrToCtx? && b.PtrToCtx?) || (a.PtrToMap? && b.PtrToMap?)
  }

  function BothWays(pc: U32, st: State, offset: I16): seq<(nat, State)> { [(Target(pc, offset), st), (pc + 1, st)] }

  /** `cond_branch_impl` */
  function CondBranch(pc: U32, st: State, op: CondOp, dst: Reg, src: Option<Reg>, s: RegState, offset: I16): Succs {
    var d := st.regs[dst];
    if d.Uninit? || s.Uninit? then Err(Rejection(pc))
    else if d.Num? && s.Num? then Ok(ScalarBranch(pc, st, op, dst, src, d.b, s.b, offset))
    else if (d.PtrToMemOrNull? && s.Num? && s.b.IsZero())
        || (d.Num? && s.PtrToMemOrNull? && d.b.IsZero() && src.Some?) then
      if !op.Eq? && !op.Ne? then Err(Rejection(pc)) else
        var ptrReg := if d.PtrToMemOrNull? then dst else src.value;
        var id := if d.PtrToMemOrNull? then d.ref else s.ref;
        if op.Eq? then Ok([(Target(pc, offset), NullSide(st, id, ptrReg)), (pc + 1, ValidSide(st, id, ptrReg))])
        else Ok([(pc + 1, NullSide(st, id, ptrReg)), (Target(pc, offset), ValidSide(st, id, ptrReg))])
    else if SamePointerKind(d, s) then
      if op.Eq? || op.Ne? then Ok(BothWays(pc, st, offset)) else Err(Rejection(pc))
    else if (IsPlainPointer(d) && s.Num?) || (d.Num? && IsPlainPointer(s)) then Ok(BothWays(pc, st, offset))
    else Err(Rejection(pc))
  }

  /** A register compared with itself is decided without looking at it. */
  predicate SelfCompare(op: CondOp) { op.Eq? || op.Ule? || op.Uge? || op.Sle? || op.Sge? }

  function JsetBranch(pc: U32, st: State, dst: Reg, imm: Option<I32>, d: Bounds, s: Bounds,
                      offset: I16): seq<(nat, State)> {
    match JsetVerdict(d, s)
    case Yes => [(Target(pc, offset), st)]
    case No => [(pc + 1, st)]
    case Both =>
      // the fall-through of the immediate form clears the tested bits
      var fall := if imm.None? then st
                  else SetReg(st, dst, Num(ApplyAlu(Scalar.And, W64, d, Const(-1 - imm.value))));
      [(Target(pc, offset), st), (pc + 1, fall)]
  }

  function Conditional(pc: U32, st: State, insn: Insn): Succs
    requires insn.IsConditional()
  {
    match insn
    case JCond(op, dst, src, offset) =>
      if dst == src && st.regs[dst].Num? then
        Ok([(if SelfCompare(op) then Target(pc, offset) else pc + 1, st)])
      else CondBranch(pc, st, op, dst, Some(src), st.regs[src], offset)
    case JCondImm(op, dst, imm, offset) => CondBranch(pc, st, op, dst, None, Num(Const(imm)), offset)
    case Jset(dst, src, offset) =>
      if !st.regs[dst].Num? || !st.regs[src].Num? then Err(Rejection(pc))
      else Ok(JsetBranch(pc, st, dst, None, st.regs[dst].b, st.regs[src].b, offset))
    case JsetImm(dst, imm, offset) =>
      if !st.regs[dst].Num? then Err(Rejection(pc))
      else Ok(JsetBranch(pc, st, dst, Some(imm), st.regs[dst].b, Const(imm), offset))
  }

  // ── One instruction ──────────────────────────────────────────────────────

  /** `step` */
  function Step(pc: U32, st: State, insn: Insn): Result<State, Rejection>
    requires !insn.IsConditional() && !insn.Jmp? && !insn.Exit? && !insn.CallSub?
  {
    match insn
    case MovImm(dst, imm) => Ok(SetReg(st, dst, Num(Const(imm))))
    case Mov32Imm(dst, imm) => Ok(SetReg(st, dst, Num(FromSigned(0, Wrap32(imm)))))
    case Mov32Reg(dst, src) =>
      if st.regs[src].Num? then Ok(SetReg(st, dst, Num(Mov32Bounds(st.regs[src].b)))) else Err(Rejection(pc))
    case MovReg(dst, src) => MovReg(pc, st, dst, src)
    case AluImm(op, width, dst, imm) => AluImm(pc, st, op, width, dst, imm)
    case AluReg(op, width, dst, src) => AluReg(pc, st, op, width, dst, src)
    case NegReg(width, dst) =>
      if st.regs[dst].Num? then Ok(SetReg(st, dst, Num(NegBounds(width, st.regs[dst].b)))) else Err(Rejection(pc))
    case LdImm64(dst, imm64) => Ok(SetReg(st, dst, Num(Const(Signed64(imm64)))))
    case LdImm64Second(_) => Ok(st)
    case LdMapFd(dst, _, mapType) => Ok(SetReg(st, dst, PtrToMap(mapType)))
    case LdMapValue(_, _, _) => Err(Rejection(pc))
    case LdMem(dst, base, offset, size, signExtend) =>
      SetResult(st, dst, StackRead(pc, st, base, offset, size.Bytes(), signExtend))
    case StMem(src, base, offset, size) => StackWrite(pc, st, base, offset, size.Bytes(), st.regs[src])
    case StMemImm(imm, base, offset, size) => StackWrite(pc, st, base, offset, size.Bytes(), Num(Const(imm)))
    case Call(imm) => CallHelper(pc, st, imm)
  }

  /** `successors` */
  function Successors(pc: U32, st: State, insn: Insn): Succs {
    if insn.Exit? then Ok([])
    else if insn.Jmp? then Ok([(Target(pc, insn.offset), st)])
    else if insn.IsConditional() then Conditional(pc, st, insn)
    else if insn.CallSub? then Err(Rejection(pc))
    else match Step(pc, st, insn)
      case Err(e) => Err(e)
      case Ok(next) => Ok([(pc + 1, next)])
  }
}
