/** When an abstract state covers a concrete one: values lie in the ranges, stack
    bytes match their marks, and scalars of one link group share a base value
    (`src/concrete.rs`, coverage relation; `src/exec.rs`, linked scalars). */
module Coverage {
  import opened Words
  import opened TnumDomain
  import opened Scalar
  import opened ScalarSound
  import opened AluSound
  import opened Insn
  import opened Abstract
  import opened Offsets
  import opened SlotMemory
  import C = Concrete

  type Value = C.Value

  /** The value every member of a link group is a known offset away from. */
  type Base = int -> U64

  ghost predicate OnBase(base: Base, b: Bounds, x: U64) { b.id != 0 ==> x == Wrap64(base(b.id) + b.delta) }

  ghost predicate NumCovers(base: Base, b: Bounds, x: U64) { Gamma(b, x) && b.tnum.Wf() && OnBase(base, b, x) }

  ghost predicate RegCovers(base: Base, a: RegState, c: Option<Value>) {
    match a
    case Uninit => c.None?
    case Num(b) => c.Some? && c.value.Number? && NumCovers(base, b, c.value.bits)
    case PtrToStack(_, _, _, _) =>
      c.Some? && c.value.StackPtr? && c.value.frameno == a.frameno && OffsetCovers(a, C.PtrOffset(c.value.bits))
    case PtrToCtx(off) => c == Some(C.CtxPtr(Wrap64(C.CTX_BASE + off)))
    case PtrToMap(_) => false
    case PtrToMem(_, _) => false
    case PtrToMemOrNull(_, _) => false
  }

  // ── Stack slots ──────────────────────────────────────────────────────────

  /** The mark of memory byte j of a slot; frame bytes count downwards. */
  function Mark(bytes: Marks, slot: nat, j: nat): StackByte
    requires slot < 64 && j < 8
  {
    bytes[8 * slot + 7 - j]
  }

  predicate AnyMark(bytes: Marks, slot: nat, mark: StackByte)
    requires slot < 64
  {
    exists j: nat :: j < 8 && Mark(bytes, slot, j) == mark
  }

  predicate AnyInit(bytes: Marks, slot: nat)
    requires slot < 64
  {
    exists j: nat :: j < 8 && !Mark(bytes, slot, j).Invalid?
  }

  ghost predicate ByteCovers(mark: StackByte, n: U64, w: U64, j: nat) {
    && (mark.Zero? ==> ByteOf(n, j) == 0)
    && (mark.Spill? ==> ByteOf(n, j) == ByteOf(w, j))
  }

  ghost predicate SpillAdmits(spill: Option<RegState>, w: U64) {
    spill.Some? && spill.value.Num? && Gamma(spill.value.b, w) && spill.value.b.tnum.Wf()
  }

  /** A partly spilled slot: Spill bytes are the low bytes of some member of the
      spilled scalar, Zero bytes are 0 and Misc bytes are anything. */
  ghost predicate BytesMatch(bytes: Marks, slot: nat, spill: Option<RegState>, n: U64, w: U64)
    requires slot < 64
  {
    && (AnyMark(bytes, slot, Spill) ==> SpillAdmits(spill, w))
    && (forall j: nat :: j < 8 ==> ByteCovers(Mark(bytes, slot, j), n, w, j))
  }

  ghost predicate MixedCovers(bytes: Marks, slot: nat, spill: Option<RegState>, n: U64)
    requires slot < 64
  {
    exists w: U64 :: BytesMatch(bytes, slot, spill, n, w)
  }

  ghost predicate SlotCovers(base: Base, bytes: Marks, slot: nat, spill: Option<RegState>, cell: Option<Value>)
    requires slot < 64
  {
    if FullSpill(bytes, slot) then spill.Some? && !spill.value.Uninit? && RegCovers(base, spill.value, cell)
    else AnyInit(bytes, slot) ==> cell.Some? && cell.value.Number? && MixedCovers(bytes, slot, spill, cell.value.bits)
  }

  // ── States ───────────────────────────────────────────────────────────────

  ghost predicate RegsCover(base: Base, a: State, c: C.State) {
    forall r :: 0 <= r < 11 ==> RegCovers(base, a.regs[r], c.regs[r])
  }

  ghost predicate StackCovers(base: Base, a: State, cells: C.Cells) {
    forall s :: 0 <= s < 64 ==> SlotCovers(base, a.bytes, s, a.spilled[s], cells[s])
  }

  ghost predicate CoversOn(base: Base, a: State, c: C.State) {
    c.curframe == a.frame && RegsCover(base, a, c) && StackCovers(base, a, c.stack)
  }

  ghost predicate Covers(a: State, c: C.State) { exists base: Base :: CoversOn(base, a, c) }

  lemma InitialCovers()
    ensures Covers(Initial(), C.Initial())
  {
    hide SlotCovers;
    var base: Base := _ => 0;
    var a, c := Initial(), C.Initial();
    EmptyStackCovers(base, a, c.stack);
    assert RegsCover(base, a, c);
    assert CoversOn(base, a, c);
  }

  lemma EmptyStackCovers(base: Base, a: State, cells: C.Cells)
    requires a.bytes == NoMarks() && cells == C.NoCells()
    ensures StackCovers(base, a, cells)
  {
    forall s | 0 <= s < 64
      ensures SlotCovers(base, a.bytes, s, a.spilled[s], cells[s])
    {
      assert a.bytes[8 * s].Invalid?;
    }
  }

  lemma SetRegCovers(base: Base, a: State, c: C.State, reg: Reg, v: RegState, cv: Value)
    requires CoversOn(base, a, c) && RegCovers(base, v, Some(cv))
    ensures CoversOn(base, SetReg(a, reg, v), C.SetReg(c, reg, cv))
  {
    hide RegCovers, SlotCovers;
  }

  // ── Link groups as a relation between carriers ───────────────────────────

  /** Carriers are the scalars of registers (0..10) and of full spills (11..74). */
  function CarrierBounds(a: State, k: nat): Option<Bounds>
    requires k < 75
  {
    if k < 11 then (if a.regs[k].Num? then Some(a.regs[k].b) else None)
    else
      var slot := k - 11;
      if FullSpill(a.bytes, slot) && a.spilled[slot].Some? && a.spilled[slot].value.Num?
      then Some(a.spilled[slot].value.b)
      else None
  }

  function CarrierBits(c: C.State, k: nat): U64
    requires k < 75
  {
    C.CellBits(if k < 11 then c.regs[k] else c.stack[k - 11])
  }

  /** Carrier k belongs to group id; its value without its offset. */
  ghost predicate InGroup(a: State, k: nat, id: int)
    requires k < 75
  {
    id != 0 && CarrierBounds(a, k).Some? && CarrierBounds(a, k).value.id == id
  }

  ghost function Anchor(a: State, c: C.State, k: nat): U64
    requires k < 75 && CarrierBounds(a, k).Some?
  {
    Wrap64(CarrierBits(c, k) - CarrierBounds(a, k).value.delta)
  }

  /** Scalars sharing a nonzero link id have equal value - delta (mod 2^64). */
  ghost predicate LinkRel(a: State, c: C.State) {
    forall id: int, k: nat, l: nat :: k < 75 && l < 75 && InGroup(a, k, id) && InGroup(a, l, id) ==>
      Anchor(a, c, k) == Anchor(a, c, l)
  }

  ghost predicate AllOnBase(base: Base, a: State, c: C.State) {
    forall k: nat :: k < 75 && CarrierBounds(a, k).Some? ==> OnBase(base, CarrierBounds(a, k).value, CarrierBits(c, k))
  }

  lemma AnchorOnBase(z: U64, delta: int, x: U64)
    ensures x == Wrap64(z + delta) <==> z == Wrap64(x - delta)
  {
    WrapAdd(z + delta, -delta);
    WrapAdd(x - delta, delta);
  }

  ghost predicate GroupNonempty(a: State, id: int) { exists k: nat :: k < 75 && InGroup(a, k, id) }

  ghost function BaseOf(a: State, c: C.State, id: int): U64 {
    if GroupNonempty(a, id) then
      var k: nat :| k < 75 && InGroup(a, k, id);
      Anchor(a, c, k)
    else 0
  }

  /** The pairwise relation holds exactly when each group has one base value. */
  lemma LinkRelIsBase(a: State, c: C.State)
    ensures LinkRel(a, c) <==> exists base: Base :: AllOnBase(base, a, c)
  {
    hide CarrierBounds, CarrierBits;
    if LinkRel(a, c) {
      var base: Base := id => BaseOf(a, c, id);
      forall k: nat | k < 75 && CarrierBounds(a, k).Some?
        ensures OnBase(base, CarrierBounds(a, k).value, CarrierBits(c, k))
      {
        var b := CarrierBounds(a, k).value;
        if b.id != 0 {
          assert InGroup(a, k, b.id);
          AnchorOnBase(base(b.id), b.delta, CarrierBits(c, k));
        }
      }
      assert AllOnBase(base, a, c);
    }
    if base: Base :| AllOnBase(base, a, c) {
      forall id: int, k: nat | k < 75 && InGroup(a, k, id)
        ensures Anchor(a, c, k) == base(id)
      {
        AnchorOnBase(base(id), CarrierBounds(a, k).value.delta, CarrierBits(c, k));
      }
    }
  }

  /** Coverage includes the link relation. */
  lemma CoversLinks(base: Base, a: State, c: C.State)
    requires CoversOn(base, a, c)
    ensures AllOnBase(base, a, c) && LinkRel(a, c)
  {
    hide Gamma, LinkRel;
    forall k: nat | k < 75 && CarrierBounds(a, k).Some?
      ensures OnBase(base, CarrierBounds(a, k).value, CarrierBits(c, k))
    {
      if k < 11 {
        assert RegCovers(base, a.regs[k], c.regs[k]);
      } else {
        assert SlotCovers(base, a.bytes, k - 11, a.spilled[k - 11], c.stack[k - 11]);
      }
    }
    LinkRelIsBase(a, c);
  }

  // ── A move that starts a link group ──────────────────────────────────────

  /** No register or full spill carries the id, except perhaps the overwritten one. */
  predicate LinkUnused(a: State, id: int, dst: Reg) {
    forall k: nat :: k < 75 && k != dst && CarrierBounds(a, k).Some? ==> CarrierBounds(a, k).value.id != id
  }

  /** No scalar is linked by the id. */
  ghost predicate GroupEmpty(a: State, id: int) {
    forall k: nat :: k < 75 && CarrierBounds(a, k).Some? ==> id == 0 || CarrierBounds(a, k).value.id != id
  }

  function Rebase(base: Base, id: int, z: U64): Base { k => if k == id then z else base(k) }

  lemma RebaseReg(base: Base, id: int, z: U64, v: RegState, c: Option<Value>)
    requires RegCovers(base, v, c) && (v.Num? ==> id == 0 || v.b.id != id)
    ensures RegCovers(Rebase(base, id, z), v, c)
  {
    hide Gamma;
  }

  lemma RebaseSlot(base: Base, id: int, z: U64, bytes: Marks, slot: nat, spill: Option<RegState>, c: Option<Value>)
    requires slot < 64 && SlotCovers(base, bytes, slot, spill, c)
    requires FullSpill(bytes, slot) && spill.Some? && spill.value.Num? ==> id == 0 || spill.value.b.id != id
    ensures SlotCovers(Rebase(base, id, z), bytes, slot, spill, c)
  {
    hide Gamma, MixedCovers, FullSpill, RegCovers;
    if FullSpill(bytes, slot) {
      RebaseReg(base, id, z, spill.value, c);
    }
  }

  lemma RebaseCovers(base: Base, id: int, z: U64, a: State, c: C.State)
    requires CoversOn(base, a, c) && GroupEmpty(a, id)
    ensures CoversOn(Rebase(base, id, z), a, c)
  {
    hide Gamma, RegCovers, SlotCovers, FullSpill;
    forall r | 0 <= r < 11
      ensures RegCovers(Rebase(base, id, z), a.regs[r], c.regs[r])
    {
      assert a.regs[r].Num? ==> CarrierBounds(a, r).Some?;
      RebaseReg(base, id, z, a.regs[r], c.regs[r]);
    }
    forall s | 0 <= s < 64
      ensures SlotCovers(Rebase(base, id, z), a.bytes, s, a.spilled[s], c.stack[s])
    {
      var k := s + 11;
      assert CarrierBounds(a, k).Some? ==> id == 0 || CarrierBounds(a, k).value.id != id;
      RebaseSlot(base, id, z, a.bytes, s, a.spilled[s], c.stack[s]);
    }
  }

  function Forget(c: C.State, dst: Reg): C.State { c.(regs := c.regs[dst := None]) }

  /** Forgetting the destination first, as the move overwrites it. */
  lemma ForgetDst(base: Base, a: State, c: C.State, dst: Reg, id: int)
    requires CoversOn(base, a, c) && LinkUnused(a, id, dst)
    ensures CoversOn(base, SetReg(a, dst, Uninit), Forget(c, dst)) && GroupEmpty(SetReg(a, dst, Uninit), id)
  {
    hide RegCovers, SlotCovers, FullSpill;
    var forgotten := SetReg(a, dst, Uninit);
    assert RegCovers(base, Uninit, None) by {
      UninitCovers(base);
    }
    assert forall k: nat :: k < 75 && k != dst ==> CarrierBounds(forgotten, k) == CarrierBounds(a, k);
  }

  lemma UninitCovers(base: Base)
    ensures RegCovers(base, Uninit, None)
  {
  }

  lemma SelfMoveEmpty(a: State, dst: Reg, id: int)
    requires LinkUnused(a, id, dst) && NeedsLink(a.regs[dst])
    ensures GroupEmpty(a, id)
  {
    hide FullSpill;
  }

  /** The base values after a move: a fresh group gets the one of the moved value. */
  ghost function MovBase(base: Base, pc: U32, v: RegState, cv: Value): Base {
    if NeedsLink(v) then Rebase(base, Wrap32(pc + 1), Wrap64(cv.bits - v.b.delta)) else base
  }

  /** `rX = rY` keeps every value covered and every group on one base, provided no
      other register or spill uses the id pc + 1. */
  lemma MovKeepsLinks(base: Base, pc: U32, a: State, c: C.State, dst: Reg, src: Reg)
    requires CoversOn(base, a, c) && Abstract.MovReg(pc, a, dst, src).Ok?
    requires NeedsLink(a.regs[src]) ==> LinkUnused(a, Wrap32(pc + 1), dst)
    ensures c.regs[src].Some?
    ensures CoversOn(MovBase(base, pc, a.regs[src], c.regs[src].value),
                     Abstract.MovReg(pc, a, dst, src).value, C.SetReg(c, dst, c.regs[src].value))
  {
    hide Tnum.Contains, SlotCovers, LinkUnused, GroupEmpty, Wrap32, Wrap64;
    var v := a.regs[src];
    assert RegCovers(base, v, c.regs[src]);
    var cv := c.regs[src].value;
    if NeedsLink(v) {
      var id := Wrap32(pc + 1);
      var z := Wrap64(cv.bits - v.b.delta);
      var base' := Rebase(base, id, z);
      var start := if dst == src then a else SetReg(a, dst, Uninit);
      var cstart := if dst == src then c else Forget(c, dst);
      if dst == src {
        SelfMoveEmpty(a, dst, id);
      } else {
        ForgetDst(base, a, c, dst, id);
      }
      RebaseCovers(base, id, z, start, cstart);
      AnchorOnBase(z, v.b.delta, cv.bits);
      var linked := Num(v.b.(id := id));
      assert RegCovers(base', linked, c.regs[src]);
      SetRegCovers(base', start, cstart, src, linked, cv);
      assert C.SetReg(cstart, src, cv).regs == cstart.regs;
      SetRegCovers(base', SetReg(start, src, linked), cstart, dst, linked, cv);
      assert C.SetReg(cstart, dst, cv).regs == C.SetReg(c, dst, cv).regs;
      assert SetReg(SetReg(start, src, linked), dst, linked).regs == SetReg(SetReg(a, src, linked), dst, linked).regs;
    } else {
      SetRegCovers(base, a, c, dst, v, cv);
    }
  }

  /** The moved value is the anchor of every other carrier of the id. */
  ghost predicate LinkFresh(a: State, c: C.State, id: int, dst: Reg, src: Reg)
    requires a.regs[src].Num?
  {
    forall k: nat :: k < 75 && k != dst && InGroup(a, k, id) ==>
      Anchor(a, c, k) == Wrap64(CarrierBits(c, src) - a.regs[src].b.delta)
  }

  lemma MovLinksExact(pc: U32, a: State, c: C.State, dst: Reg, src: Reg)
    requires LinkRel(a, c) && NeedsLink(a.regs[src]) && c.regs[src].Some? && Wrap32(pc + 1) != 0
    ensures LinkRel(Abstract.MovReg(pc, a, dst, src).value, C.SetReg(c, dst, c.regs[src].value)) <==>
            LinkFresh(a, c, Wrap32(pc + 1), dst, src)
  {
    hide FullSpill, Wrap32, Wrap64;
    var id := Wrap32(pc + 1);
    var a', c' := Abstract.MovReg(pc, a, dst, src).value, C.SetReg(c, dst, c.regs[src].value);
    forall k: nat | k < 75
      ensures CarrierBounds(a', k) ==
              if k == dst || k == src then Some(a.regs[src].b.(id := id)) else CarrierBounds(a, k)
      ensures CarrierBits(c', k) == CarrierBits(c, if k == dst then src else k)
    {
    }
    assert InGroup(a', src, id);
    if LinkRel(a', c') {
      forall k: nat | k < 75 && k != dst && InGroup(a, k, id)
        ensures Anchor(a, c, k) == Anchor(a', c', src)
      {
        assert InGroup(a', k, id);
      }
    }
    if LinkFresh(a, c, id, dst, src) {
      forall g: int, k: nat, l: nat | k < 75 && l < 75 && InGroup(a', k, g) && InGroup(a', l, g)
        ensures Anchor(a', c', k) == Anchor(a', c', l)
      {
        assert k != dst && k != src ==> InGroup(a, k, g);
        assert l != dst && l != src ==> InGroup(a, l, g);
      }
    }
  }

  /** Some covered state may have z as the base of group id. */
  ghost predicate Possible(a: State, id: int, z: U64) {
    forall k: nat :: k < 75 && InGroup(a, k, id) ==>
      Gamma(CarrierBounds(a, k).value, Wrap64(z + CarrierBounds(a, k).value.delta))
  }

  /** The ranges leave the group and the moved scalar one common anchor only. */
  ghost predicate Pinned(a: State, id: int, src: Reg)
    requires a.regs[src].Num?
  {
    forall x: U64, z: U64 :: Gamma(a.regs[src].b, x) && Possible(a, id, z) ==> z == Wrap64(x - a.regs[src].b.delta)
  }

  /** c with the members of group id put on base z and the scalar src on x. */
  ghost function Placed(a: State, id: int, z: U64, k: nat, cell: Option<Value>): Option<Value>
    requires k < 75
  {
    if InGroup(a, k, id) then Some(C.Number(Wrap64(z + CarrierBounds(a, k).value.delta))) else cell
  }

  ghost function OnGroupBase(a: State, c: C.State, id: int, z: U64): C.State {
    c.(regs := seq(11, r requires 0 <= r < 11 => Placed(a, id, z, r, c.regs[r])),
       stack := seq(64, s requires 0 <= s < 64 => Placed(a, id, z, s + 11, c.stack[s])))
  }

  /** A covered state can be moved to any possible base of a group. */
  lemma OnGroupBaseCovers(base: Base, a: State, c: C.State, id: int, z: U64)
    requires CoversOn(base, a, c) && Possible(a, id, z)
    ensures CoversOn(Rebase(base, id, z), a, OnGroupBase(a, c, id, z))
  {
    hide Gamma, FullSpill, RegCovers, SlotCovers;
    var c' := OnGroupBase(a, c, id, z);
    forall r | 0 <= r < 11
      ensures RegCovers(Rebase(base, id, z), a.regs[r], c'.regs[r])
    {
      if InGroup(a, r, id) {
        assert InGroup(a, r, id) ==> Gamma(a.regs[r].b, Wrap64(z + a.regs[r].b.delta));
        PlacedReg(base, id, z, a.regs[r], c.regs[r]);
      } else {
        RebaseReg(base, id, z, a.regs[r], c.regs[r]);
      }
    }
    forall s | 0 <= s < 64
      ensures SlotCovers(Rebase(base, id, z), a.bytes, s, a.spilled[s], c'.stack[s])
    {
      var k := s + 11;
      if InGroup(a, k, id) {
        var v := a.spilled[s].value;
        assert Gamma(v.b, Wrap64(z + v.b.delta));
        FullSpillCovers(base, a.bytes, s, a.spilled[s], c.stack[s]);
        PlacedReg(base, id, z, v, c.stack[s]);
        FullSpillCovers(Rebase(base, id, z), a.bytes, s, a.spilled[s], c'.stack[s]);
      } else {
        RebaseSlot(base, id, z, a.bytes, s, a.spilled[s], c.stack[s]);
      }
    }
  }

  lemma FullSpillCovers(base: Base, bytes: Marks, slot: nat, spill: Option<RegState>, cell: Option<Value>)
    requires slot < 64 && FullSpill(bytes, slot) && spill.Some? && spill.value.Num?
    ensures SlotCovers(base, bytes, slot, spill, cell) <==> RegCovers(base, spill.value, cell)
  {
    hide RegCovers, FullSpill;
  }

  lemma PlacedReg(base: Base, id: int, z: U64, v: RegState, cell: Option<Value>)
    requires RegCovers(base, v, cell) && v.Num? && v.b.id == id && Gamma(v.b, Wrap64(z + v.b.delta))
    ensures RegCovers(Rebase(base, id, z), v, Some(C.Number(Wrap64(z + v.b.delta))))
  {
    hide Gamma;
  }

  /** The state the move leads to is covered. */
  ghost predicate MovCovers(pc: U32, a: State, c: C.State, dst: Reg, src: Reg)
    requires Abstract.MovReg(pc, a, dst, src).Ok? && c.regs[src].Some?
  {
    Covers(Abstract.MovReg(pc, a, dst, src).value, C.SetReg(c, dst, c.regs[src].value))
  }

  /** A move with a pinned group stays on the base it has. */
  lemma PinnedKeepsLinks(base: Base, pc: U32, a: State, c: C.State, dst: Reg, src: Reg)
    requires CoversOn(base, a, c) && NeedsLink(a.regs[src]) && Pinned(a, Wrap32(pc + 1), src)
    ensures c.regs[src].Some? && MovCovers(pc, a, c, dst, src)
  {
    hide Gamma, SlotCovers, Pinned, FullSpill, Wrap32;
    var id := Wrap32(pc + 1);
    var v := a.regs[src];
    assert RegCovers(base, v, c.regs[src]);
    var cv := c.regs[src].value;
    BaseIsPossible(base, a, c, id);
    PinnedAt(a, id, src, cv.bits, base(id));
    AnchorOnBase(base(id), v.b.delta, cv.bits);
    var linked := Num(v.b.(id := id));
    GammaIgnoresId(v.b, id, cv.bits);
    assert RegCovers(base, linked, Some(cv));
    SetRegCovers(base, a, c, src, linked, cv);
    assert C.SetReg(c, src, cv).regs == c.regs;
    SetRegCovers(base, SetReg(a, src, linked), c, dst, linked, cv);
  }

  lemma PinnedAt(a: State, id: int, src: Reg, x: U64, z: U64)
    requires a.regs[src].Num? && Pinned(a, id, src) && Gamma(a.regs[src].b, x) && Possible(a, id, z)
    ensures z == Wrap64(x - a.regs[src].b.delta)
  {
    hide Gamma, Possible;
  }

  lemma GammaIgnoresId(b: Bounds, id: U32, x: U64)
    ensures Gamma(b.(id := id), x) <==> Gamma(b, x)
  {
    hide Tnum.Contains;
  }

  lemma BaseIsPossible(base: Base, a: State, c: C.State, id: int)
    requires CoversOn(base, a, c)
    ensures Possible(a, id, base(id))
  {
    hide Gamma, FullSpill;
    forall k: nat | k < 75 && InGroup(a, k, id)
      ensures Gamma(CarrierBounds(a, k).value, Wrap64(base(id) + CarrierBounds(a, k).value.delta))
    {
      if k < 11 {
        assert RegCovers(base, a.regs[k], c.regs[k]);
      } else {
        assert SlotCovers(base, a.bytes, k - 11, a.spilled[k - 11], c.stack[k - 11]);
      }
    }
  }

  /** A used id whose group is not pinned: some covered state loses the link. */
  lemma UnpinnedBreaks(base: Base, pc: U32, a: State, c: C.State, dst: Reg, src: Reg) returns (c': C.State)
    requires CoversOn(base, a, c) && NeedsLink(a.regs[src]) && Wrap32(pc + 1) != 0
    requires !LinkUnused(a, Wrap32(pc + 1), dst) && !Pinned(a, Wrap32(pc + 1), src)
    ensures Covers(a, c') && c'.regs[src].Some? && !MovCovers(pc, a, c', dst, src)
  {
    hide Gamma, FullSpill, RegCovers, SlotCovers, Wrap32, Possible, CoversOn;
    var id := Wrap32(pc + 1);
    var b := a.regs[src].b;
    var x: U64, z: U64 :| Gamma(b, x) && Possible(a, id, z) && z != Wrap64(x - b.delta);
    var k: nat :| k < 75 && k != dst && CarrierBounds(a, k).Some? && CarrierBounds(a, k).value.id == id;
    OnGroupBaseCovers(base, a, c, id, z);
    var placed := OnGroupBase(a, c, id, z);
    c' := C.SetReg(placed, src, C.Number(x));
    ReplaceMember(Rebase(base, id, z), a, placed, src, x);
    assert InGroup(a, k, id) && k != src;
    assert CarrierBits(c', k) == CarrierBits(placed, k) == Wrap64(z + CarrierBounds(a, k).value.delta);
    AnchorOnBase(z, CarrierBounds(a, k).value.delta, CarrierBits(c', k));
    assert Anchor(a, c', k) == z;
    assert !LinkFresh(a, c', id, dst, src);
    CoversLinks(Rebase(base, id, z), a, c');
    MovLinksExact(pc, a, c', dst, src);
    if MovCovers(pc, a, c', dst, src) {
      MovedLinks(pc, a, c', dst, src);
      assert false;
    }
  }

  lemma MovedLinks(pc: U32, a: State, c: C.State, dst: Reg, src: Reg)
    requires Abstract.MovReg(pc, a, dst, src).Ok? && c.regs[src].Some? && MovCovers(pc, a, c, dst, src)
    ensures LinkRel(Abstract.MovReg(pc, a, dst, src).value, C.SetReg(c, dst, c.regs[src].value))
  {
    hide CoversOn, LinkRel, AllOnBase;
    var a', c' := Abstract.MovReg(pc, a, dst, src).value, C.SetReg(c, dst, c.regs[src].value);
    var base: Base :| CoversOn(base, a', c');
    CoversLinks(base, a', c');
  }

  /** An unlinked scalar may take any value of its range. */
  lemma ReplaceMember(base: Base, a: State, c: C.State, src: Reg, x: U64)
    requires CoversOn(base, a, c) && a.regs[src].Num? && a.regs[src].b.id == 0 && Gamma(a.regs[src].b, x)
    ensures CoversOn(base, a, C.SetReg(c, src, C.Number(x)))
  {
    hide Gamma, SlotCovers;
    assert RegCovers(base, a.regs[src], c.regs[src]);
    SetRegCovers(base, a, c, src, a.regs[src], C.Number(x));
    assert SetReg(a, src, a.regs[src]).regs == a.regs;
  }

  ghost predicate MovAlwaysCovers(pc: U32, a: State, dst: Reg, src: Reg)
    requires Abstract.MovReg(pc, a, dst, src).Ok?
  {
    forall c: C.State :: Covers(a, c) && c.regs[src].Some? ==> MovCovers(pc, a, c, dst, src)
  }

  /** A move that starts a group covers every concrete move iff its id is unused,
      or the ranges pin the group that uses it to the moved value. */
  lemma MovLinksDecided(pc: U32, a: State, c: C.State, dst: Reg, src: Reg)
    requires Covers(a, c) && NeedsLink(a.regs[src]) && Wrap32(pc + 1) != 0
    ensures MovAlwaysCovers(pc, a, dst, src) <==>
            LinkUnused(a, Wrap32(pc + 1), dst) || Pinned(a, Wrap32(pc + 1), src)
  {
    hide CoversOn, LinkUnused, Pinned, MovCovers, Wrap32, Tnum.Contains;
    var base: Base :| CoversOn(base, a, c);
    if LinkUnused(a, Wrap32(pc + 1), dst) || Pinned(a, Wrap32(pc + 1), src) {
      forall c': C.State | Covers(a, c') && c'.regs[src].Some?
        ensures MovCovers(pc, a, c', dst, src)
      {
        var base': Base :| CoversOn(base', a, c');
        MovEitherCovers(base', pc, a, c', dst, src);
      }
    } else {
      var broken := UnpinnedBreaks(base, pc, a, c, dst, src);
      assert !MovCovers(pc, a, broken, dst, src);
    }
  }

  lemma MovEitherCovers(base: Base, pc: U32, a: State, c: C.State, dst: Reg, src: Reg)
    requires CoversOn(base, a, c) && NeedsLink(a.regs[src]) && c.regs[src].Some?
    requires LinkUnused(a, Wrap32(pc + 1), dst) || Pinned(a, Wrap32(pc + 1), src)
    ensures MovCovers(pc, a, c, dst, src)
  {
    hide CoversOn, LinkUnused, Pinned, Wrap32;
    if LinkUnused(a, Wrap32(pc + 1), dst) {
      MovKeepsLinks(base, pc, a, c, dst, src);
    } else {
      PinnedKeepsLinks(base, pc, a, c, dst, src);
    }
  }

  // ── ALU results and their links ──────────────────────────────────────────

  lemma InnerDelta(op: AluOp, width: Width, d: Bounds, s: Bounds)
    ensures var r := ApplyAluInner(op, width, d, s);
            (r.id == d.id && r.delta == d.delta) || (r.id == 0 && r.delta == 0)
  {
    hide Alu64Signed, Alu64Unsigned, Alu32Range, AluTnum, AluConst, Tnum.Subreg, Tnum.Intersect, FromRange;
  }

  /** Constant add and sub keep the group; every other operation leaves it. */
  lemma AluKeepsLinks(base: Base, op: AluOp, width: Width, d: Bounds, s: Bounds, x: U64, y: U64)
    requires OnBase(base, d, x) && Gamma(s, y)
    ensures OnBase(base, ApplyAlu(op, width, d, s), AluConst(op, width, x, y))
  {
    hide ApplyAluInner, Tnum.Contains, Wrap64, AluConst32;
    InnerDelta(op, width, d, s);
    var r := ApplyAlu(op, width, d, s);
    if r.id != 0 {
      ConstantMember(s, y);
      WrapAdd(base(d.id), r.delta);
      if op.Add? {
        WrapAdd(base(d.id), s.smin);
      } else {
        WrapAdd(0 - s.smin, base(d.id));
        WrapSub(x, s.smin);
        assert r.delta == 0 - s.smin;
      }
    }
  }

  lemma WrapSub(x: int, y: int)
    ensures Wrap64(x - Wrap64(y)) == Wrap64(x - y)
  {
    ModEqual(x - Wrap64(y), x - y, TWO64, y / TWO64);
  }

  lemma AluCovers(base: Base, op: AluOp, width: Width, d: Bounds, s: Bounds, x: U64, y: U64)
    requires NumCovers(base, d, x) && Gamma(s, y) && s.tnum.Wf() && AluGuard(op, width, d, s)
    ensures NumCovers(base, ApplyAlu(op, width, d, s), AluConst(op, width, x, y))
  {
    hide ApplyAlu, AluConst, Gamma, AluGuard;
    AluTransferSound(op, width, d, s, x, y);
    AluKeepsLinks(base, op, width, d, s, x, y);
  }

  // ── Sync after a branch ──────────────────────────────────────────────────

  /** A refined operand of group id: its value is known + base offset. */
  ghost predicate KnownOn(base: Base, id: U32, delta: I32, known: Bounds, x: U64) {
    Gamma(known, x) && known.tnum.Wf() && (id != 0 ==> x == Wrap64(base(id) + delta))
  }

  lemma ShiftedValue(z: U64, delta: I32, knownDelta: I32)
    ensures Wrap64(Wrap64(z + knownDelta) + Wrap64(delta - knownDelta)) == Wrap64(z + delta)
  {
    WrapAdd(z + knownDelta, delta - knownDelta);
  }

  lemma ShiftedCovers(base: Base, b: Bounds, x: U64, id: U32, knownDelta: I32, known: Bounds, y: U64)
    requires id != 0 && b.id == id && OnBase(base, b, x) && KnownOn(base, id, knownDelta, known, y)
    ensures NumCovers(base, Shifted(b, knownDelta, known), x)
  {
    hide Tnum.Contains, ApplyAlu, Wrap64;
    var shift := b.delta - knownDelta;
    ShiftedValue(base(id), b.delta, knownDelta);
    if shift != 0 {
      ConstSound(shift, Wrap64(shift));
      AluTransferSound(Scalar.Add, W64, known, Const(shift), y, Wrap64(shift));
    }
  }

  lemma SyncRegCovers(base: Base, v: RegState, c: Option<Value>, id: U32, knownDelta: I32, known: Bounds, y: U64)
    requires id != 0 && RegCovers(base, v, c) && KnownOn(base, id, knownDelta, known, y)
    ensures RegCovers(base, SyncReg(v, id, knownDelta, known), c)
  {
    hide Gamma, Shifted, BoundsEqual;
    if v.Num? && v.b.id == id {
      ShiftedCovers(base, v.b, c.value.bits, id, knownDelta, known, y);
    }
  }

  lemma SyncSlotCovers(base: Base, bytes: Marks, slot: nat, spill: Option<RegState>, c: Option<Value>,
                       id: U32, knownDelta: I32, known: Bounds, y: U64)
    requires id != 0 && slot < 64 && SlotCovers(base, bytes, slot, spill, c) && KnownOn(base, id, knownDelta, known, y)
    ensures SlotCovers(base, bytes, slot, SyncSpill(spill, FullSpill(bytes, slot), id, knownDelta, known), c)
  {
    hide Gamma, Shifted, FullSpill, MixedCovers;
    if FullSpill(bytes, slot) && spill.Some? && spill.value.Num? && spill.value.b.id == id {
      ShiftedCovers(base, spill.value.b, c.value.bits, id, knownDelta, known, y);
    }
  }

  /** Refining one member of a group refines them all without losing a value. */
  lemma SyncCovers(base: Base, a: State, c: C.State, id: U32, knownDelta: I32, known: Bounds, y: U64)
    requires CoversOn(base, a, c) && KnownOn(base, id, knownDelta, known, y)
    ensures CoversOn(base, SyncLinked(a, id, knownDelta, known), c)
  {
    hide Gamma, Shifted, FullSpill, RegCovers, SlotCovers, SyncReg, SyncSpill, KnownOn;
    if id != 0 {
      var r' := SyncLinked(a, id, knownDelta, known);
      forall r | 0 <= r < 11
        ensures RegCovers(base, r'.regs[r], c.regs[r])
      {
        SyncRegCovers(base, a.regs[r], c.regs[r], id, knownDelta, known, y);
      }
      forall s | 0 <= s < 64
        ensures SlotCovers(base, a.bytes, s, r'.spilled[s], c.stack[s])
      {
        SyncSlotCovers(base, a.bytes, s, a.spilled[s], c.stack[s], id, knownDelta, known, y);
      }
    }
  }
}
