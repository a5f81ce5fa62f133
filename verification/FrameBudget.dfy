/** What the counted stack depth of a subprogram (`src/cfg.rs`) is, measured against
    the bytes its direct accesses reach. */
module FrameBudget {
  import opened Insn
  import opened Cfg
  import opened CallChain

  /** A direct access inside the frame and aligned to its width. */
  predicate InFrame(insn: Insn)
    requires IsDirect(insn)
  {
    var (off, size) := DirectAccess(insn);
    -512 <= off && off + size <= 0 && off % size == 0
  }

  ghost predicate AllInFrame(insns: Program, start: nat, end: nat)
    requires end <= |insns|
  {
    forall pc :: start <= pc < end && IsDirect(insns[pc]) ==> InFrame(insns[pc])
  }

  /** The access reads or writes the byte at r10 - n. */
  predicate StartsAt(insn: Insn, n: nat) { IsDirect(insn) && DirectAccess(insn).0 == 0 - n }

  /** n bytes below r10 hold every direct access of the range. */
  ghost predicate Suffices(insns: Program, start: nat, end: nat, n: nat)
    requires end <= |insns|
  {
    forall pc :: start <= pc < end && IsDirect(insns[pc]) ==> 0 - DirectAccess(insns[pc]).0 <= n
  }

  function SlotsUsed(insn: Insn): nat {
    if !IsDirect(insn) || DirectAccess(insn).0 >= 0 then 0 else RoundUp8(0 - DirectAccess(insn).0)
  }

  /** The bytes of the slots that the direct accesses of a range reach. */
  function FrameBytes(insns: Program, start: nat, end: nat): nat
    requires end <= |insns|
    decreases end
  {
    if start >= end then 0 else MaxNat(FrameBytes(insns, start, end - 1), SlotsUsed(insns[end - 1]))
  }

  /** It is the least whole number of slots that holds them all. */
  lemma {:induction false} FrameBytesLeast(insns: Program, start: nat, end: nat, n: nat)
    requires end <= |insns| && n % 8 == 0
    ensures Suffices(insns, start, end, n) <==> FrameBytes(insns, start, end) <= n
    decreases end
  {
    if start < end {
      FrameBytesLeast(insns, start, end - 1, n);
      var insn := insns[end - 1];
      if Suffices(insns, start, end, n) {
        assert IsDirect(insn) ==> 0 - DirectAccess(insn).0 <= n;
        assert Suffices(insns, start, end - 1, n);
      } else if Suffices(insns, start, end - 1, n) {
        assert IsDirect(insn) && 0 - DirectAccess(insn).0 > n;
      }
    }
  }

  /** The extra slot an access is charged for. */
  function Surcharge(insn: Insn): nat { if IsDirect(insn) && DirectAccess(insn).0 % 8 == 0 then 8 else 0 }

  lemma RoundUpSum(n: nat, size: nat)
    requires size in {1, 2, 4, 8} && n % size == 0
    ensures RoundUp8(n + size) == RoundUp8(n) + if n % 8 == 0 then 8 else 0
  {
    var q, r := n / 8, n % 8;
    assert n == 8 * q + r;
    RoundUpAt(q, r);
    if r + size <= 8 && r > 0 {
      RoundUpAt(q, r + size);
    } else if r == 0 {
      RoundUpAt(q, size);
    }
  }

  lemma RoundUpAt(q: nat, r: nat)
    requires r <= 8
    ensures RoundUp8(8 * q + r) == 8 * q + if r == 0 then 0 else 8
  {
  }

  /** An access is charged one slot too much exactly when it starts on a slot. */
  lemma CountedExact(insn: Insn)
    requires IsDirect(insn) && InFrame(insn)
    ensures CountedUse(insn) == SlotsUsed(insn) + Surcharge(insn)
  {
    var (off, size) := DirectAccess(insn);
    assert size in {1, 2, 4, 8};
    NegatedModulo(off, size);
    NegatedModulo(off, 8);
    hide RoundUp8;
    RoundUpSum(0 - off, size);
  }

  lemma NegatedModulo(off: int, size: nat)
    requires size in {1, 2, 4, 8} && off < 0
    ensures off % size == 0 <==> (0 - off) % size == 0
  {
  }

  ghost predicate SomeStartsAt(insns: Program, start: nat, end: nat, n: nat)
    requires end <= |insns|
  {
    exists pc :: start <= pc < end && StartsAt(insns[pc], n)
  }

  lemma {:induction false} BytesAreSlots(insns: Program, start: nat, end: nat)
    requires end <= |insns|
    ensures FrameBytes(insns, start, end) % 8 == 0
    decreases end
  {
    if start < end {
      BytesAreSlots(insns, start, end - 1);
    }
  }

  /** The counted depth is the bytes reached, plus a slot exactly when an access
      starts at the lowest of them. */
  lemma {:induction false} FrameUseExact(insns: Program, start: nat, end: nat)
    requires end <= |insns| && AllInFrame(insns, start, end)
    ensures var bytes := FrameBytes(insns, start, end);
            FrameUse(insns, start, end) == bytes + if bytes > 0 && SomeStartsAt(insns, start, end, bytes) then 8 else 0
    decreases end
  {
    hide CountedUse, SlotsUsed, InFrame, SomeStartsAt, StartsAt;
    if start < end {
      FrameUseExact(insns, start, end - 1);
      BytesAreSlots(insns, start, end - 1);
      var insn := insns[end - 1];
      var before, after := FrameBytes(insns, start, end - 1), FrameBytes(insns, start, end);
      if IsDirect(insn) {
        assert InFrame(insn);
        CountedExact(insn);
        StartedAt(insn);
      } else {
        NotCounted(insn);
      }
      SplitStartsAt(insns, start, end, after);
      NoneBelow(insns, start, end - 1);
    }
  }

  /** No access starts below the bytes reached. */
  lemma NoneBelow(insns: Program, start: nat, end: nat)
    requires end <= |insns| && AllInFrame(insns, start, end)
    ensures forall n: nat :: n > FrameBytes(insns, start, end) ==> !SomeStartsAt(insns, start, end, n)
  {
    hide FrameBytes;
    BytesAreSlots(insns, start, end);
    FrameBytesLeast(insns, start, end, FrameBytes(insns, start, end));
  }

  lemma NotCounted(insn: Insn)
    requires !IsDirect(insn)
    ensures CountedUse(insn) == 0 == SlotsUsed(insn) && forall n: nat :: !StartsAt(insn, n)
  {
  }

  lemma StartedAt(insn: Insn)
    requires IsDirect(insn) && InFrame(insn)
    ensures StartsAt(insn, SlotsUsed(insn)) <==> Surcharge(insn) == 8
    ensures forall n: nat :: n > SlotsUsed(insn) ==> !StartsAt(insn, n)
    ensures SlotsUsed(insn) > 0 && SlotsUsed(insn) % 8 == 0
  {
    assert insn.size.Bytes() > 0;
  }

  lemma SplitStartsAt(insns: Program, start: nat, end: nat, n: nat)
    requires start < end <= |insns|
    ensures SomeStartsAt(insns, start, end, n) <==>
            SomeStartsAt(insns, start, end - 1, n) || StartsAt(insns[end - 1], n)
  {
    hide StartsAt;
    if SomeStartsAt(insns, start, end - 1, n) {
      var pc :| start <= pc < end - 1 && StartsAt(insns[pc], n);
      assert start <= pc < end && StartsAt(insns[pc], n);
    }
    if StartsAt(insns[end - 1], n) {
      assert start <= end - 1 < end && StartsAt(insns[end - 1], n);
    }
  }

  // ── A budget that holds and is refused ───────────────────────────────────

  /** A caller and a callee that each fill 256 bytes. */
  function FullFrames(): Program {
    [StMemImm(0, 10, -256, B64), CallSub(1), Exit, StMemImm(0, 10, -256, B64), Exit]
  }

  lemma FullFrameEntries()
    ensures Entries(FullFrames(), [0, 3])
  {
    var insns := FullFrames();
    assert CallsAt(insns, 1, 3);
    forall s | s == 0 || exists pc: nat :: CallsAt(insns, pc, s)
      ensures s in [0, 3]
    {
    }
  }

  lemma FullFrameCallees(i: nat, k: nat)
    ensures Callee(FullFrames(), [0, 3], i, k) <==> i == 0 && k == 1
  {
    var insns, subprogs := FullFrames(), [0, 3];
    FullFrameRanges();
    hide RangeStart, RangeEnd;
    if i == 0 && k == 1 {
      assert CallsEntry(insns, subprogs, 1, 1);
    }
  }

  lemma FullFrameRanges()
    ensures RangeStart(0, [0, 3]) == 0 && RangeEnd(0, [0, 3], 5) == 3
    ensures RangeStart(3, [0, 3]) == 3 && RangeEnd(3, [0, 3], 5) == 5
  {
    assert [0, 3][..1] == [0] && [0, 3][1..] == [3];
  }

  /** A range whose only direct access is its first instruction. */
  lemma {:induction false} OneAccess(insns: Program, start: nat, end: nat)
    requires start < end <= |insns| && forall pc :: start < pc < end ==> !IsDirect(insns[pc])
    ensures FrameUse(insns, start, end) == CountedUse(insns[start])
    ensures FrameBytes(insns, start, end) == SlotsUsed(insns[start])
    decreases end
  {
    if start + 1 < end {
      OneAccess(insns, start, end - 1);
    }
  }

  lemma FullFrameDepths()
    ensures FrameUse(FullFrames(), 0, 3) == 264 && FrameUse(FullFrames(), 3, 5) == 264
    ensures FrameBytes(FullFrames(), 0, 3) == 256 && FrameBytes(FullFrames(), 3, 5) == 256
  {
    hide FrameUse, FrameBytes;
    OneAccess(FullFrames(), 0, 3);
    OneAccess(FullFrames(), 3, 5);
  }

  /** Both frames together fit the 512 bytes on every chain, and the check
      refuses them on its own depths. */
  lemma FullFramesRefused()
    ensures Entries(FullFrames(), [0, 3])
    ensures FrameBytes(FullFrames(), 0, 3) == 256 && FrameBytes(FullFrames(), 3, 5) == 256
    ensures forall c :: IsChain(FullFrames(), [0, 3], c) ==> WithinBudget([256, 256], c)
    ensures FrameUse(FullFrames(), 0, 3) == 264 && FrameUse(FullFrames(), 3, 5) == 264
    ensures Refuted(FullFrames(), [0, 3], [264, 264], StackTooLarge)
  {
    hide Callee, FrameUse, FrameBytes;
    var insns, subprogs := FullFrames(), [0, 3];
    FullFrameEntries();
    FullFrameDepths();
    FullFrameCallees(0, 1);
    assert [0, 1][..1] == [0];
    assert IsChain(insns, subprogs, [0, 1]) && Total([264, 264], [0, 1]) == 528;
    forall c | IsChain(insns, subprogs, c)
      ensures WithinBudget([256, 256], c)
    {
      if |c| >= 2 {
        FullFrameCallees(c[0], c[1]);
        if |c| >= 3 {
          FullFrameCallees(c[1], c[2]);
          assert false;
        }
        assert c == [0, 1];
        assert Total([256, 256], [0, 1]) == 512;
      }
    }
  }
}
