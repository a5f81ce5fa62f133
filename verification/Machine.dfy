/** The concrete state as the source changes it in place (`src/concrete.rs`):
    entering and leaving a subprogram, storing to a frame, dropping dead data. */
module Machine {
  import opened Words
  import opened Scalar
  import opened Insn
  import opened Concrete
  import opened DeadState
  import opened SlotMemory

  /** The fields after a call, read back as `EnterSubprog`. */
  lemma EnteredState(before: State, after: State, returnPc: U32)
    requires before.curframe < MAX_CALL_FRAMES - 1 && after.curframe == before.curframe + 1 && after.retPc == returnPc
    requires after.stack == NoCells()
    requires after.saved == before.saved[before.curframe := Some(Frame(before.regs, before.stack, before.retPc))]
    requires forall r :: 0 <= r < NUM_REGS ==>
               after.regs[r] == if 1 <= r <= 5 then before.regs[r]
                                else if r == 10 then Some(StackPtr(STACK_BASE, after.curframe)) else None
    ensures EnterSubprog(before, returnPc) == Ok(after)
  {
    assert after.regs == CalleeRegs(before.regs, after.curframe);
    assert after.saved == SaveFrame(before.saved, before.curframe, Frame(before.regs, before.stack, before.retPc));
  }

  /** A saved frame up to its stack cells. */
  predicate SavedAlike(a: Option<Frame>, b: Option<Frame>) {
    a.Some? == b.Some? && (a.Some? ==> a.value.regs == b.value.regs && a.value.retPc == b.value.retPc)
  }

  class ConcreteMachine {
    var regs: Regs
    var stack: Cells
    var saved: Saved
    var curframe: nat
    var retPc: U32

    ghost predicate Valid()
      reads this
    {
      curframe < MAX_CALL_FRAMES
    }

    function Contents(): State
      reads this
    {
      State(regs, stack, saved, curframe, retPc)
    }

    constructor ()
      ensures Valid() && Contents() == Initial()
    {
      regs := Initial().regs;
      stack := NoCells();
      saved := Initial().saved;
      curframe := 0;
      retPc := 0;
    }

    /** `call_subprog` */
    method CallSubprog(returnPc: U32) returns (ok: bool)
      requires Valid()
      modifies this
      ensures Valid() && (ok <==> EnterSubprog(old(Contents()), returnPc).Ok?)
      ensures Contents() == if ok then EnterSubprog(old(Contents()), returnPc).value else old(Contents())
    {
      hide SaveFrame, CalleeRegs;
      if curframe >= MAX_CALL_FRAMES - 1 {
        return false;
      }
      ghost var before := Contents();
      saved := saved[curframe := Some(Frame(regs, stack, retPc))];
      var args := regs[1..6];
      curframe := curframe + 1;
      regs := seq(NUM_REGS, _ => None);
      stack := NoCells();
      for i := 0 to |args|
        invariant forall r :: 0 <= r < NUM_REGS ==> regs[r] == if 1 <= r <= i then args[r - 1] else None
        invariant stack == NoCells() && curframe == before.curframe + 1 && retPc == before.retPc
        invariant saved == before.saved[before.curframe := Some(Frame(before.regs, before.stack, before.retPc))]
      {
        regs := regs[1 + i := args[i]];
      }
      regs := regs[10 := Some(StackPtr(STACK_BASE, curframe))];
      retPc := returnPc;
      EnteredState(before, Contents(), returnPc);
      return true;
    }

    /** `return_from_subprog`; false where the source returns None. */
    method ReturnFromSubprog() returns (ok: bool)
      requires Valid()
      modifies this
      ensures Valid() && Contents() == LeaveSubprog(old(Contents()))
      ensures ok <==> old(curframe) > 0 && old(saved)[old(curframe) - 1].Some?
    {
      if curframe == 0 {
        return false;
      }
      ghost var before := Contents();
      var ret := regs[0];
      curframe := curframe - 1;
      var caller := saved[curframe];
      if caller.None? {
        return false;
      }
      saved := saved[curframe := None];
      retPc := caller.value.retPc;
      stack := caller.value.stack;
      regs := caller.value.regs[0 := ret];
      for r := 1 to 6
        invariant regs == seq(NUM_REGS, k requires 0 <= k < NUM_REGS =>
                            if k == 0 then ret else if k < r then None else caller.value.regs[k])
        invariant stack == caller.value.stack && retPc == caller.value.retPc && curframe == before.curframe - 1
        invariant saved == before.saved[before.curframe - 1 := None]
      {
        regs := regs[r := None];
      }
      assert saved == DropFrame(before.saved, before.curframe - 1);
      assert regs == [ret] + Clobber(caller.value.regs)[1..];
      return true;
    }

    /** `concrete_merge` on the frame that owns the slot: the bytes of the access
        change in that frame, and nothing else anywhere. */
    method StoreCell(frameno: nat, slot: nat, inSlot: nat, size: nat, value: Value)
      requires Valid() && FrameStack(Contents(), frameno).Some?
      requires slot < STACK_SLOTS && ValidSize(size) && inSlot + size <= 8
      modifies this`stack, this`saved
      ensures Valid() && FrameStack(Contents(), frameno).Some?
      ensures var before, after := FrameStack(old(Contents()), frameno).value, FrameStack(Contents(), frameno).value;
              && BytesStored(before, after, slot, inSlot, size, value.bits)
              && CellsStored(before, after, slot, size, value)
      ensures forall k: nat :: k != frameno ==> FrameStack(Contents(), k) == FrameStack(old(Contents()), k)
      ensures forall k :: 0 <= k < |saved| ==> SavedAlike(old(saved)[k], saved[k])
      ensures Contents() == SetFrameStack(old(Contents()), frameno,
                                          Merge(FrameStack(old(Contents()), frameno).value, slot, inSlot, size, value))
    {
      hide BytesStored, CellsStored, Merge;
      MergeStores(FrameStack(Contents(), frameno).value, slot, inSlot, size, value);
      if frameno == curframe {
        stack := Merge(stack, slot, inSlot, size, value);
      } else {
        var frame := saved[frameno].value;
        saved := saved[frameno := Some(frame.(stack := Merge(frame.stack, slot, inSlot, size, value)))];
      }
    }

    /** `clean_concrete_state` */
    method DropDead(liveRegs: set<int>, liveSlots: set<int>)
      requires Valid()
      modifies this`regs, this`stack
      ensures Valid() && Contents() == Clean(old(Contents()), liveRegs, liveSlots)
    {
      ghost var before := Contents();
      for r := 0 to NUM_REGS
        invariant regs == seq(NUM_REGS, k requires 0 <= k < NUM_REGS =>
                            if k < r && !Kept(k, liveRegs) then None else before.regs[k])
        invariant stack == before.stack
      {
        if r != 10 && r !in liveRegs {
          regs := regs[r := None];
        }
      }
      for s := 0 to STACK_SLOTS
        invariant regs == Clean(before, liveRegs, liveSlots).regs
        invariant stack == seq(STACK_SLOTS, k requires 0 <= k < STACK_SLOTS =>
                             if k < s && k !in liveSlots then None else before.stack[k])
      {
        if s !in liveSlots {
          stack := stack[s := None];
        }
      }
    }
  }
}
