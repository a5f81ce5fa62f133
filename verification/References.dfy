/** Reference discipline (`src/exec.rs`): acquire, release and NULL checks over
    whole runs of the abstract interpreter. */
module References {
  import opened Words
  import opened Scalar
  import opened Branch
  import opened Insn
  import opened Abstract

  // ── The list of active references ────────────────────────────────────────

  ghost predicate Distinct(refs: seq<nat>) { forall i, j :: 0 <= i < j < |refs| ==> refs[i] != refs[j] }

  function Remove(refs: seq<nat>, i: nat): seq<nat>
    requires i < |refs|
  {
    refs[..i] + refs[i + 1..]
  }

  /** n consecutive members need at least n entries. */
  lemma {:induction false} Pigeonhole(refs: seq<nat>, lo: nat, n: nat)
    requires forall id: nat :: lo <= id < lo + n ==> id in refs
    ensures n <= |refs|
    decreases n
  {
    if n > 0 {
      var last := lo + n - 1;
      assert last in refs;
      var i :| 0 <= i < |refs| && refs[i] == last;
      var rest := Remove(refs, i);
      forall id: nat | lo <= id < lo + n - 1
        ensures id in rest
      {
        assert id in refs;
        var j :| 0 <= j < |refs| && refs[j] == id;
        assert rest[if j < i then j else j - 1] == id;
      }
      Pigeonhole(rest, lo, n - 1);
    }
  }

  lemma {:induction false} FreshFromLeast(refs: seq<nat>, id: nat, budget: nat)
    requires forall k: nat :: REF_ID_BASE < k < id ==> k in refs
    requires REF_ID_BASE < id && |refs| == budget + (id - REF_ID_BASE - 1)
    ensures FreshFrom(refs, id, budget) !in refs && FreshFrom(refs, id, budget) >= id
    ensures forall k: nat :: REF_ID_BASE < k < FreshFrom(refs, id, budget) ==> k in refs
    decreases budget
  {
    if id in refs {
      if budget == 0 {
        Pigeonhole(refs, REF_ID_BASE + 1, |refs| + 1);
      } else {
        FreshFromLeast(refs, id + 1, budget - 1);
      }
    }
  }

  /** The search loop of `fresh_reference_id`: it terminates on every list and
      returns the least identifier above the base that is not active. */
  method FreshId(refs: seq<nat>) returns (id: nat)
    ensures id == FreshReferenceId(refs)
    ensures id !in refs && id > REF_ID_BASE
    ensures forall k: nat :: REF_ID_BASE < k < id ==> k in refs
  {
    FreshFromLeast(refs, REF_ID_BASE + 1, |refs|);
    id := REF_ID_BASE + 1;
    while id in refs
      invariant id > REF_ID_BASE && forall k: nat :: REF_ID_BASE < k < id ==> k in refs
      invariant id - REF_ID_BASE - 1 <= |refs|
      invariant FreshFrom(refs, id, |refs| - (id - REF_ID_BASE - 1)) == FreshReferenceId(refs)
      decreases |refs| + 1 + REF_ID_BASE - id
    {
      Pigeonhole(refs, REF_ID_BASE + 1, id - REF_ID_BASE);
      id := id + 1;
    }
  }

  lemma FreshIsNew(refs: seq<nat>)
    ensures FreshReferenceId(refs) !in refs && FreshReferenceId(refs) > REF_ID_BASE
  {
    FreshFromLeast(refs, REF_ID_BASE + 1, |refs|);
  }

  /** Dropping a reference removes exactly it. */
  lemma DropExact(refs: seq<nat>, id: nat)
    requires Distinct(refs) && id in refs
    ensures Distinct(DropRef(refs, id)) && |DropRef(refs, id)| == |refs| - 1
    ensures forall x :: x in DropRef(refs, id) <==> x in refs && x != id
  {
    var i := IndexOf(refs, id);
    var last := |refs| - 1;
    var rest := DropRef(refs, id);
    forall k | 0 <= k < last
      ensures rest[k] == if k == i then refs[last] else refs[k]
    {
    }
    forall x | x in refs && x != id
      ensures x in rest
    {
      var k :| 0 <= k < |refs| && refs[k] == x;
      assert rest[if k == last then i else k] == x;
    }
  }

  lemma {:induction false} FirstIndex(refs: seq<nat>, id: nat, i: nat)
    requires i < |refs| && refs[i] == id && id !in refs[..i]
    ensures IndexOf(refs, id) == i
    decreases i
  {
    if i > 0 {
      assert refs[0] in refs[..i];
      assert refs[1..][..i - 1] == refs[1..i];
      FirstIndex(refs[1..], id, i - 1);
    }
  }

  /** The release loop as the source runs it: the last entry of the fixed-size
      array moves into the released position. */
  method DropInPlace(refs: array<nat>, count: nat, id: nat) returns (left: nat, found: bool)
    requires count <= refs.Length
    modifies refs
    ensures left <= refs.Length && refs[..left] == DropRef(old(refs[..count]), id)
    ensures found <==> id in old(refs[..count])
  {
    ghost var was := refs[..count];
    for i := 0 to count
      invariant refs[..count] == was && id !in was[..i]
    {
      if refs[i] == id {
        FirstIndex(was, id, i);
        refs[i] := refs[count - 1];
        assert refs[..count] == was[i := was[count - 1]];
        assert refs[..count - 1] == refs[..count][..count - 1];
        return count - 1, true;
      }
    }
    assert was[..count] == was;
    return count, false;
  }

  // ── The invariant ────────────────────────────────────────────────────────

  predicate IsReference(v: RegState) { v.PtrToMem? || v.PtrToMemOrNull? }

  predicate NamesActive(v: RegState, refs: seq<nat>) { IsReference(v) ==> v.ref in refs }

  predicate SlotActive(bytes: Marks, s: nat, spill: Option<RegState>, refs: seq<nat>)
    requires s < 64
  {
    FullSpill(bytes, s) && spill.Some? ==> NamesActive(spill.value, refs)
  }

  ghost predicate AliasesActive(a: State) {
    && (forall r :: 0 <= r < 11 ==> NamesActive(a.regs[r], a.refs))
    && (forall s :: 0 <= s < 64 ==> SlotActive(a.bytes, s, a.spilled[s], a.refs))
  }

  /** Active ids are distinct, few and fresh, and every register or full spill that
      holds a reference names one of them. */
  ghost predicate RefInv(a: State) {
    && Distinct(a.refs) && |a.refs| <= MAX_REFS && (forall id :: id in a.refs ==> id > REF_ID_BASE)
    && AliasesActive(a)
  }

  /** A live alias of the reference: a register or full spill holding it. */
  ghost predicate Aliased(a: State, id: nat) {
    || (exists r :: 0 <= r < 11 && HoldsRef(a.regs[r], id))
    || (exists s :: 0 <= s < 64 && FullSpill(a.bytes, s) && SpillHolds(a.spilled[s], id))
  }

  predicate SpillHolds(spill: Option<RegState>, id: nat) { spill.Some? && HoldsRef(spill.value, id) }

  lemma AliasIsActive(a: State, id: nat)
    requires AliasesActive(a) && Aliased(a, id)
    ensures id in a.refs
  {
    hide FullSpill;
    if r :| 0 <= r < 11 && HoldsRef(a.regs[r], id) {
      assert NamesActive(a.regs[r], a.refs);
    } else {
      var s :| 0 <= s < 64 && FullSpill(a.bytes, s) && SpillHolds(a.spilled[s], id);
      assert SlotActive(a.bytes, s, a.spilled[s], a.refs);
    }
  }

  /** The id of an acquire is held by no live alias. */
  lemma AcquireIsFresh(a: State)
    requires RefInv(a)
    ensures !Aliased(a, FreshReferenceId(a.refs))
  {
    hide FreshReferenceId, Aliased;
    FreshIsNew(a.refs);
    if Aliased(a, FreshReferenceId(a.refs)) {
      AliasIsActive(a, FreshReferenceId(a.refs));
    }
  }

  /** Turning the aliases of an id into numbers leaves none. */
  lemma ReplaceLeavesNone(a: State, id: nat, fate: Fate)
    requires fate.ToTop? || fate.ToZero?
    ensures !Aliased(ReplaceAliases(a, id, fate), id)
  {
    hide FullSpill, Top, Const;
  }

  // ── Steps that keep the reference list ───────────────────────────────────

  /** Same references, and every register and full spill still names one. */
  ghost predicate Keeps(a: State, b: State) { b.refs == a.refs && AliasesActive(b) }

  lemma SetKeeps(a: State, reg: Reg, v: RegState)
    requires AliasesActive(a) && NamesActive(v, a.refs)
    ensures Keeps(a, SetReg(a, reg, v))
  {
    hide SlotActive;
  }

  /** The geometry of an accepted fixed access. */
  lemma AccessShape(pc: nat, ptr: RegState, off: I16, size: nat)
    requires ptr.PtrToStack? && ValidSize(size) && CheckAccess(pc, ptr, off, size).Ok?
    ensures var acc := CheckAccess(pc, ptr, off, size).value;
            && 0 <= acc.lo && acc.hi < 512
            && (acc.fixed && (size == 8 || acc.minOff % 8 == 0) ==>
                  acc.lo == acc.hi - size + 1 && acc.hi % 8 == 7 && acc.lo >= 8 * (acc.hi / 8))
  {
  }

  lemma FullReadActive(a: State, acc: Access, size: nat)
    requires AliasesActive(a) && 0 <= acc.lo <= acc.hi < 512 && acc.hi / 8 < 64
    requires acc.lo == acc.hi - 7 && acc.hi % 8 == 7
    requires AllMarked(a.bytes, acc.lo, acc.hi, Spill) && a.spilled[acc.hi / 8].Some?
    ensures NamesActive(a.spilled[acc.hi / 8].value, a.refs)
  {
    var s := acc.hi / 8;
    assert acc.lo == 8 * s && acc.hi == 8 * s + 7;
    assert SlotActive(a.bytes, s, a.spilled[s], a.refs);
  }

  lemma ReadKeeps(pc: nat, a: State, reg: Reg, off: I16, size: nat, signExtend: bool)
    requires AliasesActive(a) && ValidSize(size) && StackRead(pc, a, reg, off, size, signExtend).Ok?
    ensures NamesActive(StackRead(pc, a, reg, off, size, signExtend).value, a.refs)
  {
    hide AllMarked, NoneInvalid, VariableReadable, CheckAccess, AliasesActive, CoerceScalar, Const, Top;
    if a.regs[reg].PtrToStack? {
      AccessShape(pc, a.regs[reg], off, size);
      var acc := CheckAccess(pc, a.regs[reg], off, size).value;
      if acc.fixed && size == 8 && AllMarked(a.bytes, acc.lo, acc.hi, Spill) && a.spilled[acc.hi / 8].Some? {
        FullReadActive(a, acc, size);
      }
    }
  }

  lemma SpillStoreKeeps(a: State, acc: Access, v: RegState)
    requires AliasesActive(a) && NamesActive(v, a.refs)
    requires 0 <= acc.lo <= acc.hi < 512 && acc.hi / 8 < 64 && acc.lo >= 8 * (acc.hi / 8)
    ensures Keeps(a, SpillStore(a, acc, v))
  {
    hide NamesActive;
    var b := SpillStore(a, acc, v);
    forall s | 0 <= s < 64
      ensures SlotActive(b.bytes, s, b.spilled[s], b.refs)
    {
      if s != acc.hi / 8 {
        assert SlotActive(a.bytes, s, a.spilled[s], a.refs);
        assert forall i :: 8 * s <= i <= 8 * s + 7 ==> b.bytes[i] == a.bytes[i];
      }
    }
  }

  lemma ScrubStoreKeeps(a: State, acc: Access, mark: StackByte)
    requires AliasesActive(a) && 0 <= acc.lo && acc.hi < 512 && !mark.Spill?
    ensures Keeps(a, ScrubStore(a, acc, mark))
  {
    hide NamesActive;
    var b := ScrubStore(a, acc, mark);
    forall s | 0 <= s < 64
      ensures SlotActive(b.bytes, s, b.spilled[s], b.refs)
    {
      assert SlotActive(a.bytes, s, a.spilled[s], a.refs);
      if !(acc.lo / 8 <= s <= acc.hi / 8) {
        assert forall i :: 8 * s <= i <= 8 * s + 7 ==> b.bytes[i] == a.bytes[i];
      }
    }
  }

  lemma WriteKeeps(pc: nat, a: State, reg: Reg, off: I16, size: nat, v: RegState)
    requires AliasesActive(a) && ValidSize(size) && NamesActive(v, a.refs) && StackWrite(pc, a, reg, off, size, v).Ok?
    ensures Keeps(a, StackWrite(pc, a, reg, off, size, v).value)
  {
    hide AliasesActive, CheckAccess, SpillStore, ScrubStore, PointerSpilled, NamesActive;
    if a.regs[reg].PtrToStack? {
      AccessShape(pc, a.regs[reg], off, size);
      var acc := CheckAccess(pc, a.regs[reg], off, size).value;
      if acc.fixed && acc.minOff % 8 == 0 {
        SpillStoreKeeps(a, acc, v);
      } else {
        ScrubStoreKeeps(a, acc, if v.Num? && v.b.IsConstant() && v.b.smin == 0 then Zero else Misc);
      }
    }
  }

  lemma SyncKeeps(a: State, id: U32, delta: I32, known: Bounds)
    requires AliasesActive(a)
    ensures Keeps(a, SyncLinked(a, id, delta, known))
  {
    hide FullSpill, Shifted, BoundsEqual;
    var b := SyncLinked(a, id, delta, known);
    if id != 0 {
      forall r | 0 <= r < 11
        ensures NamesActive(b.regs[r], b.refs)
      {
        assert NamesActive(a.regs[r], a.refs);
      }
      forall s | 0 <= s < 64
        ensures SlotActive(b.bytes, s, b.spilled[s], b.refs)
      {
        assert SlotActive(a.bytes, s, a.spilled[s], a.refs);
      }
    }
  }

  lemma RefinedKeeps(a: State, dst: Reg, src: Option<Reg>, d: Bounds, s: Bounds, side: (Bounds, Bounds))
    requires AliasesActive(a)
    ensures Keeps(a, RefinedSide(a, dst, src, d, s, side))
  {
    hide AliasesActive, SyncLinked;
    SetKeeps(a, dst, Num(side.0));
    var withDst := SetReg(a, dst, Num(side.0));
    if src.Some? {
      SetKeeps(withDst, src.value, Num(side.1));
    }
    var written := if src.Some? then SetReg(withDst, src.value, Num(side.1)) else withDst;
    SyncKeeps(written, d.id, d.delta, side.0);
    SyncKeeps(SyncLinked(written, d.id, d.delta, side.0), s.id, s.delta, side.1);
  }

  // ── Acquire, release and NULL checks ─────────────────────────────────────

  lemma CallRegsKeep(a: State, b: State, r0: RegState)
    requires AliasesActive(b) && NamesActive(r0, b.refs)
    ensures AliasesActive(AfterCall(b, r0)) && AfterCall(b, r0).refs == b.refs
  {
    hide SlotActive;
  }

  lemma AcquireStep(a: State, size: U32)
    requires RefInv(a) && |a.refs| < MAX_REFS
    ensures var id := FreshReferenceId(a.refs);
            var b := AfterCall(a.(refs := a.refs + [id]), PtrToMemOrNull(id, size));
            RefInv(b) && |b.refs| == |a.refs| + 1
  {
    hide FreshReferenceId, FullSpill;
    var id := FreshReferenceId(a.refs);
    FreshIsNew(a.refs);
    var b := a.(refs := a.refs + [id]);
    forall s | 0 <= s < 64
      ensures SlotActive(b.bytes, s, b.spilled[s], b.refs)
    {
      assert SlotActive(a.bytes, s, a.spilled[s], a.refs);
    }
    CallRegsKeep(a, b, PtrToMemOrNull(id, size));
  }

  /** Replacing the aliases of an id by numbers keeps all others active once the id
      is dropped. */
  lemma DropReplaced(a: State, id: nat, fate: Fate)
    requires RefInv(a) && id in a.refs && (fate.ToTop? || fate.ToZero?)
    ensures var b := ReplaceAliases(a.(refs := DropRef(a.refs, id)), id, fate);
            RefInv(b) && |b.refs| == |a.refs| - 1 && id !in b.refs && !Aliased(b, id)
  {
    hide FullSpill, DropRef, Top, Const, Aliased;
    DropExact(a.refs, id);
    var dropped := a.(refs := DropRef(a.refs, id));
    ReplaceLeavesNone(dropped, id, fate);
    var b := ReplaceAliases(dropped, id, fate);
    forall r | 0 <= r < 11
      ensures NamesActive(b.regs[r], b.refs)
    {
      assert NamesActive(a.regs[r], a.refs);
    }
    forall s | 0 <= s < 64
      ensures SlotActive(b.bytes, s, b.spilled[s], b.refs)
    {
      assert SlotActive(a.bytes, s, a.spilled[s], a.refs);
    }
  }

  lemma NumberKeepsUnaliased(a: State, reg: Reg, b: Bounds, id: nat)
    requires !Aliased(a, id)
    ensures !Aliased(SetReg(a, reg, Num(b)), id)
  {
    hide FullSpill;
    assert forall r :: 0 <= r < 11 ==> !HoldsRef(a.regs[r], id);
    assert forall s :: 0 <= s < 64 && FullSpill(a.bytes, s) ==> !SpillHolds(a.spilled[s], id);
  }

  /** The null side of a NULL check drops the reference with all its aliases. */
  lemma NullStep(a: State, id: nat, reg: Reg)
    requires RefInv(a) && id in a.refs
    ensures var b := NullSide(a, id, reg);
            RefInv(b) && |b.refs| == |a.refs| - 1 && id !in b.refs && !Aliased(b, id)
  {
    hide FullSpill, DropRef, ReplaceAliases, Aliased, Const, AliasesActive;
    DropReplaced(a, id, ToZero);
    var replaced := ReplaceAliases(a.(refs := DropRef(a.refs, id)), id, ToZero);
    SetKeeps(replaced, reg, Num(Const(0)));
    NumberKeepsUnaliased(replaced, reg, Const(0), id);
  }

  /** The valid side keeps the reference. */
  lemma ValidStep(a: State, id: nat, reg: Reg)
    requires RefInv(a) && id in a.refs
    ensures RefInv(ValidSide(a, id, reg)) && ValidSide(a, id, reg).refs == a.refs
  {
    hide FullSpill, ClampI32;
    var b := ReplaceAliases(a, id, ToValid);
    forall r | 0 <= r < 11
      ensures NamesActive(b.regs[r], b.refs)
    {
      assert NamesActive(a.regs[r], a.refs);
    }
    forall s | 0 <= s < 64
      ensures SlotActive(b.bytes, s, b.spilled[s], b.refs)
    {
      assert SlotActive(a.bytes, s, a.spilled[s], a.refs);
    }
    SetKeeps(b, reg, PtrToMem(0, id));
  }

  lemma AfterRelease(b: State, id: nat)
    requires RefInv(b) && id !in b.refs
    ensures var n := AfterCall(b, Num(Const(0))); RefInv(n) && n.refs == b.refs && !Aliased(n, id)
  {
    hide Aliased, AfterCall, FullSpill, Const, AliasesActive;
    CallRegsKeep(b, b, Num(Const(0)));
    var n := AfterCall(b, Num(Const(0)));
    if Aliased(n, id) {
      AliasIsActive(n, id);
    }
  }

  lemma ReleaseStep(a: State, id: nat)
    requires RefInv(a) && id in a.refs
    ensures var b := AfterCall(ReplaceAliases(a.(refs := DropRef(a.refs, id)), id, ToTop), Num(Const(0)));
            RefInv(b) && |b.refs| == |a.refs| - 1 && id !in b.refs && !Aliased(b, id)
  {
    hide AfterCall, ReplaceAliases, Aliased, RefInv, DropRef, Const;
    DropReplaced(a, id, ToTop);
    AfterRelease(ReplaceAliases(a.(refs := DropRef(a.refs, id)), id, ToTop), id);
  }

  // ── One transition ───────────────────────────────────────────────────────

  datatype Event = Acquire | Release | NullDrop | Quiet

  function SecondOperand(a: State, insn: Insn): RegState
    requires insn.JCond? || insn.JCondImm?
  {
    if insn.JCond? then a.regs[insn.src] else Num(Const(insn.imm))
  }

  /** The register a NULL check tests. */
  function NullChecked(a: State, insn: Insn): Option<Reg> {
    if !insn.JCond? && !insn.JCondImm? then None
    else
      var d, s := a.regs[insn.dst], SecondOperand(a, insn);
      if d.PtrToMemOrNull? && s.Num? && s.b.IsZero() then Some(insn.dst)
      else if insn.JCond? && s.PtrToMemOrNull? && d.Num? && d.b.IsZero() then Some(insn.src)
      else None
  }

  /** What following successor k of the instruction does to the references. */
  function EventOf(a: State, insn: Insn, k: nat): Event {
    if insn.Call? && insn.imm == 131 then Acquire
    else if insn.Call? && (insn.imm == 132 || insn.imm == 133) then Release
    else if NullChecked(a, insn).Some? && k == 0 then NullDrop
    else Quiet
  }

  function Change(e: Event): int { match e case Acquire => 1 case Release => -1 case NullDrop => -1 case Quiet => 0 }

  /** The reference an event takes away. */
  function Dropped(a: State, insn: Insn, k: nat): Option<nat> {
    match EventOf(a, insn, k)
    case Release => if a.regs[1].PtrToMem? then Some(a.regs[1].ref) else None
    case NullDrop => var v := a.regs[NullChecked(a, insn).value]; if v.PtrToMemOrNull? then Some(v.ref) else None
    case _ => None
  }

  ghost predicate Disciplined(a: State, insn: Insn, k: nat, b: State) {
    && RefInv(b) && |b.refs| == |a.refs| + Change(EventOf(a, insn, k))
    && (Change(EventOf(a, insn, k)) < 0 ==>
          Dropped(a, insn, k).Some? && Dropped(a, insn, k).value in a.refs
          && Dropped(a, insn, k).value !in b.refs && !Aliased(b, Dropped(a, insn, k).value))
  }

  lemma QuietStep(a: State, insn: Insn, k: nat, b: State)
    requires RefInv(a) && Keeps(a, b) && EventOf(a, insn, k).Quiet?
    ensures Disciplined(a, insn, k, b)
  {
    hide AliasesActive;
  }

  lemma AluKeeps(pc: U32, a: State, insn: Insn)
    requires AliasesActive(a) && (insn.AluImm? || insn.AluReg?) && Abstract.Step(pc, a, insn).Ok?
    ensures Keeps(a, Abstract.Step(pc, a, insn).value)
  {
    hide AliasesActive, ApplyAlu, Const, AddImmToStackPtr, AddScalarToStackPtr, MoveCtx;
    PointerMovesAreNotRefs(pc, a, insn);
    SetKeeps(a, insn.dst, Abstract.Step(pc, a, insn).value.regs[insn.dst]);
  }

  lemma PointerMovesAreNotRefs(pc: U32, a: State, insn: Insn)
    requires (insn.AluImm? || insn.AluReg?) && Abstract.Step(pc, a, insn).Ok?
    ensures var b := Abstract.Step(pc, a, insn).value;
            b == SetReg(a, insn.dst, b.regs[insn.dst]) && !IsReference(b.regs[insn.dst])
  {
    hide ApplyAlu, Const, AddAlign, SaneAddend, ClampI32;
  }

  lemma MovKeeps(pc: U32, a: State, dst: Reg, src: Reg)
    requires AliasesActive(a) && Abstract.MovReg(pc, a, dst, src).Ok?
    ensures Keeps(a, Abstract.MovReg(pc, a, dst, src).value)
  {
    hide SlotActive;
    var v := a.regs[src];
    assert NamesActive(v, a.refs);
    if NeedsLink(v) {
      var linked := Num(v.b.(id := Wrap32(pc + 1)));
      SetKeeps(a, src, linked);
      SetKeeps(SetReg(a, src, linked), dst, linked);
    } else {
      SetKeeps(a, dst, v);
    }
  }

  lemma PlainKeeps(pc: U32, a: State, insn: Insn)
    requires AliasesActive(a) && !insn.IsConditional() && !insn.Jmp? && !insn.Exit? && !insn.CallSub? && !insn.Call?
    requires Abstract.Step(pc, a, insn).Ok?
    ensures Keeps(a, Abstract.Step(pc, a, insn).value)
  {
    hide AliasesActive, Abstract.AluImm, Abstract.AluReg, Abstract.MovReg, StackRead, StackWrite, Const, FromSigned,
         Mov32Bounds, NegBounds, Wrap32, Signed64;
    if insn.AluImm? || insn.AluReg? {
      AluKeeps(pc, a, insn);
    } else if insn.MovReg? {
      MovKeeps(pc, a, insn.dst, insn.src);
    } else if insn.LdMem? {
      ReadKeeps(pc, a, insn.base, insn.offset, insn.size.Bytes(), insn.signExtend);
      SetKeeps(a, insn.dst, StackRead(pc, a, insn.base, insn.offset, insn.size.Bytes(), insn.signExtend).value);
    } else if insn.StMem? {
      RegisterActive(a, insn.src);
      WriteKeeps(pc, a, insn.base, insn.offset, insn.size.Bytes(), a.regs[insn.src]);
    } else if insn.StMemImm? {
      WriteKeeps(pc, a, insn.base, insn.offset, insn.size.Bytes(), Num(Const(insn.imm)));
    } else if !insn.LdImm64Second? {
      SetKeeps(a, insn.dst, Abstract.Step(pc, a, insn).value.regs[insn.dst]);
    }
  }

  lemma CallStep(pc: U32, a: State, imm: I32)
    requires RefInv(a) && Abstract.CallHelper(pc, a, imm).Ok?
    ensures Disciplined(a, Call(imm), 0, Abstract.CallHelper(pc, a, imm).value)
  {
    hide AliasesActive, AfterCall, ReplaceAliases, DropRef, FreshReferenceId, Aliased, Top, Const, ReserveSize,
         Distinct;
    if imm == 131 {
      AcquireStep(a, ReserveSize(a.regs[2]));
    } else if imm == 132 || imm == 133 {
      ReleaseStep(a, a.regs[1].ref);
    } else {
      CallRegsKeep(a, a, Num(Top()));
    }
  }

  lemma NullCheckStep(pc: U32, a: State, insn: Insn, k: nat)
    requires RefInv(a) && NullChecked(a, insn).Some? && Abstract.Conditional(pc, a, insn).Ok?
    requires k < |Abstract.Conditional(pc, a, insn).value|
    ensures Disciplined(a, insn, k, Abstract.Conditional(pc, a, insn).value[k].1)
  {
    hide Aliased, NullSide, ValidSide, Distinct, AliasesActive, ScalarBranch, Target, Const;
    var reg := NullChecked(a, insn).value;
    var id := a.regs[reg].ref;
    RegisterActive(a, reg);
    NullStep(a, id, reg);
    ValidStep(a, id, reg);
    if insn.JCondImm? {
      assert NullChecked(a, insn).value == insn.dst;
    }
  }

  lemma OtherBranchKeeps(pc: U32, a: State, insn: Insn, k: nat)
    requires RefInv(a) && insn.IsConditional() && NullChecked(a, insn).None? && Abstract.Conditional(pc, a, insn).Ok?
    requires k < |Abstract.Conditional(pc, a, insn).value|
    ensures Keeps(a, Abstract.Conditional(pc, a, insn).value[k].1)
  {
    hide AliasesActive, RefinedSide, Target, Const, ApplyAlu, IsBranchTaken, RefineCmp, JsetVerdict, Distinct;
    if insn.JsetImm? {
      SetKeeps(a, insn.dst, Num(ApplyAlu(Scalar.And, W64, a.regs[insn.dst].b, Const(-1 - insn.imm))));
    } else if insn.JCond? || insn.JCondImm? {
      var d, s := a.regs[insn.dst], SecondOperand(a, insn);
      if d.Num? && s.Num? {
        var src: Option<Reg> := if insn.JCond? then Some(insn.src) else None;
        var r := RefineCmp(insn.cond, d.b, s.b);
        RefinedKeeps(a, insn.dst, src, d.b, s.b, r.0);
        RefinedKeeps(a, insn.dst, src, d.b, s.b, r.1);
      }
    }
  }

  lemma RegisterActive(a: State, reg: Reg)
    requires AliasesActive(a)
    ensures NamesActive(a.regs[reg], a.refs)
  {
  }

  lemma StepOfCall(pc: U32, a: State, insn: Insn)
    ensures insn.Call? ==> Abstract.Step(pc, a, insn) == Abstract.CallHelper(pc, a, insn.imm)
  {
    hide Abstract.CallHelper;
  }

  /** Every transition of the abstract interpreter keeps the invariant and changes
      the number of references by exactly what its event says. */
  lemma SuccessorDisciplined(pc: U32, a: State, insn: Insn, k: nat)
    requires RefInv(a) && Abstract.Successors(pc, a, insn).Ok? && k < |Abstract.Successors(pc, a, insn).value|
    ensures Disciplined(a, insn, k, Abstract.Successors(pc, a, insn).value[k].1)
  {
    hide Abstract.Conditional, Disciplined, Abstract.CallHelper, Target, AliasesActive, Distinct;
    StepOfCall(pc, a, insn);
    hide Abstract.Step;
    var b := Abstract.Successors(pc, a, insn).value[k].1;
    if insn.IsConditional() {
      if NullChecked(a, insn).Some? {
        NullCheckStep(pc, a, insn, k);
      } else {
        OtherBranchKeeps(pc, a, insn, k);
        QuietStep(a, insn, k, b);
      }
    } else if insn.Call? {
      CallStep(pc, a, insn.imm);
    } else {
      if !insn.Jmp? {
        PlainKeeps(pc, a, insn);
      }
      QuietStep(a, insn, k, b);
    }
  }

  // ── Whole runs ───────────────────────────────────────────────────────────

  /** A run of the abstract interpreter: the pairs visited and the successor
      chosen at each. */
  datatype Run = Run(states: seq<(nat, State)>, choices: seq<nat>)

  ghost predicate StepAt(program: Program, run: Run, i: nat)
    requires i + 1 < |run.states| && i < |run.choices|
  {
    var (pc, a) := run.states[i];
    && pc < |program| && Abstract.Successors(pc, a, program[pc]).Ok?
    && run.choices[i] < |Abstract.Successors(pc, a, program[pc]).value|
    && Abstract.Successors(pc, a, program[pc]).value[run.choices[i]] == run.states[i + 1]
  }

  ghost predicate IsRun(program: Program, run: Run) {
    && |run.states| == |run.choices| + 1 && run.states[0] == (0, Initial())
    && forall i: nat :: i < |run.choices| ==> StepAt(program, run, i)
  }

  ghost function EventAt(program: Program, run: Run, i: nat): Event
    requires i < |run.states| && i < |run.choices| && run.states[i].0 < |program|
  {
    EventOf(run.states[i].1, program[run.states[i].0], run.choices[i])
  }

  /** How many of the first n steps are of the kind. */
  ghost function Tally(program: Program, run: Run, n: nat, kind: Event): nat
    requires IsRun(program, run) && n <= |run.choices|
  {
    if n == 0 then 0 else
      assert StepAt(program, run, n - 1);
      Tally(program, run, n - 1, kind) + if EventAt(program, run, n - 1) == kind then 1 else 0
  }

  lemma InitialRefs()
    ensures RefInv(Initial()) && Initial().refs == []
  {
  }

  /** On every run the number of held references is the number of acquires minus
      releases minus null drops, and the invariant holds throughout. */
  lemma {:induction false} RunDiscipline(program: Program, run: Run, n: nat)
    requires IsRun(program, run) && n <= |run.choices|
    ensures RefInv(run.states[n].1)
    ensures |run.states[n].1.refs| == Tally(program, run, n, Acquire) - Tally(program, run, n, Release)
                                      - Tally(program, run, n, NullDrop)
    decreases n
  {
    hide RefInv, Abstract.Successors, Aliased, EventOf, Dropped;
    if n == 0 {
      InitialRefs();
    } else {
      RunDiscipline(program, run, n - 1);
      assert StepAt(program, run, n - 1);
      var (pc, a) := run.states[n - 1];
      SuccessorDisciplined(pc, a, program[pc], run.choices[n - 1]);
    }
  }

  /** The exit check: r0 holds a number and no reference is left. */
  predicate ExitAccepted(a: State) { a.regs[0].Num? && a.refs == [] }

  /** A run may exit exactly when r0 is a number and every acquired reference was
      released or dropped. */
  lemma AcceptedExitIsBalanced(program: Program, run: Run)
    requires IsRun(program, run)
    ensures var n := |run.choices|;
            ExitAccepted(run.states[n].1) <==>
            run.states[n].1.regs[0].Num?
            && Tally(program, run, n, Acquire) == Tally(program, run, n, Release) + Tally(program, run, n, NullDrop)
  {
    hide RefInv, Tally, IsRun;
    RunDiscipline(program, run, |run.choices|);
  }
}
