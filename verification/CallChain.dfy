/** Consequences of an accepted control flow for wide instructions, and the
    stack budget along call chains (`src/cfg.rs`). */
module Sealing {
  import opened Insn
  import opened Graph
  import opened Cfg
  import Liveness

  /** In an accepted program no exit returns behind the last instruction. A rejected
      one may do so; its cross-check then indexes past the masks (module Rejected). */
  lemma AcceptedReturns(insns: Program, subprogs: seq<nat>)
    requires Entries(insns, subprogs) && Accepted(insns, subprogs)
    ensures Liveness.ReturnsInside(insns)
  {
    hide Liveness.ExitOf, Entries, Reachable;
    assert |subprogs| > 0 by { HasEntry(insns, subprogs); }
    assert EndsProperly(insns, subprogs, |subprogs| - 1);
  }

  lemma HasEntry(insns: Program, subprogs: seq<nat>)
    requires Entries(insns, subprogs)
    ensures |subprogs| > 0
  {
  }

  /** In an accepted program the only edge into the second slot of a wide
      instruction comes from its first slot. */
  lemma OnlyEdgeIntoMarker(insns: Program, subprogs: seq<nat>, u: nat, m: nat)
    requires Entries(insns, subprogs) && Accepted(insns, subprogs) && Sealed(insns)
    requires m < |insns| && insns[m].IsMarker() && Edge(FlowGraph(insns, subprogs), u, m)
    ensures u + 1 == m && insns[u].IsWide()
  {
    hide RangeStart, RangeEnd, ReturnSites, AllEndProperly, Entries, Reachable;
    assert FlowGraph(insns, subprogs)[u] == NextInsns(u, insns, subprogs);
    if u + 1 != m {
      if insns[u].Exit? {
        ReturnSitesAre(insns, RangeStart(u, subprogs), |insns|, m);
      } else if insns[u].CallSub? {
        BeforeEntry(insns, subprogs, m);
      }
    }
  }
}

module CallChain {
  import opened Words
  import opened Insn
  import opened Cfg

  // ── Frame use of one subprogram ──────────────────────────────────────────

  /** A direct access `[r10 + off]`: (off, size). */
  function DirectAccess(insn: Insn): (I16, nat)
    requires IsDirect(insn)
  {
    (insn.offset, insn.size.Bytes())
  }

  predicate IsDirect(insn: Insn) { (insn.LdMem? || insn.StMem? || insn.StMemImm?) && insn.base == 10 }

  function RoundUp8(n: nat): nat { ((n + 7) / 8) * 8 }

  /** The negation of a 16-bit offset, which wraps for the least one. */
  function Negated(off: I16): I16 { if off == -0x8000 then off else -off }

  /** `(-off + size).max(0)` rounded up to whole slots. */
  function CountedUse(insn: Insn): nat {
    if !IsDirect(insn) then 0 else
      var (off, size) := DirectAccess(insn);
      if size + Negated(off) < 0 then 0 else RoundUp8(size + Negated(off))
  }

  function MaxNat(a: nat, b: nat): nat { if a < b then b else a }

  function FrameUse(insns: Program, start: nat, end: nat): nat
    requires end <= |insns|
    decreases end
  {
    if start >= end then 0 else MaxNat(FrameUse(insns, start, end - 1), CountedUse(insns[end - 1]))
  }

  method DirectStackDepths(insns: Program, subprogs: seq<nat>) returns (depth: seq<nat>)
    requires Entries(insns, subprogs) && insns != []
    ensures |depth| == |subprogs|
    ensures forall i :: 0 <= i < |depth| ==> subprogs[i] <= SubprogEnd(insns, subprogs, i) <= |insns|
    ensures forall i :: 0 <= i < |depth| ==> depth[i] == FrameUse(insns, subprogs[i], SubprogEnd(insns, subprogs, i))
  {
    hide FrameUse, CountedUse, Entries;
    var d := new nat[|subprogs|](_ => 0);
    for i := 0 to |subprogs|
      invariant forall j :: 0 <= j < i ==> subprogs[j] <= SubprogEnd(insns, subprogs, j) <= |insns|
      invariant forall j :: 0 <= j < i ==> d[j] == FrameUse(insns, subprogs[j], SubprogEnd(insns, subprogs, j))
      invariant forall j :: i <= j < |subprogs| ==> d[j] == 0
    {
      var end := SubprogEnd(insns, subprogs, i);
      EntryEnd(insns, subprogs, i);
      EntryOrder(insns, subprogs, i);
      ghost var before := d[..];
      FrameUseStart(insns, subprogs[i]);
      for pc := subprogs[i] to end
        invariant d[..] == before[i := FrameUse(insns, subprogs[i], pc)]
      {
        FrameUseStep(insns, subprogs[i], pc);
        if IsDirect(insns[pc]) {
          d[i] := MaxNat(d[i], CountedUse(insns[pc]));
        }
      }
    }
    depth := d[..];
  }

  lemma FrameUseStart(insns: Program, start: nat)
    requires start <= |insns|
    ensures FrameUse(insns, start, start) == 0
  {
  }

  lemma FrameUseStep(insns: Program, start: nat, pc: nat)
    requires start <= pc < |insns|
    ensures FrameUse(insns, start, pc + 1) ==
            if IsDirect(insns[pc]) then MaxNat(FrameUse(insns, start, pc), CountedUse(insns[pc]))
            else FrameUse(insns, start, pc)
  {
  }

  lemma EntryOrder(insns: Program, subprogs: seq<nat>, i: nat)
    requires Entries(insns, subprogs) && i < |subprogs| && insns != []
    ensures subprogs[i] <= SubprogEnd(insns, subprogs, i)
  {
    assert subprogs[i] in subprogs;
  }

  /** One access is counted with all its bytes, unless its negated offset wraps. */
  lemma CountedUseCovers(insn: Insn)
    requires IsDirect(insn)
    ensures CountedUse(insn) >= DirectAccess(insn).1 - DirectAccess(insn).0 <==> DirectAccess(insn).0 != -0x8000
  {
    assert 1 <= insn.size.Bytes() <= 8;
  }

  lemma {:induction false} FrameUseIsUpper(insns: Program, start: nat, end: nat, pc: nat)
    requires start <= pc < end <= |insns|
    ensures FrameUse(insns, start, end) >= CountedUse(insns[pc])
    decreases end
  {
    hide CountedUse;
    if pc < end - 1 {
      FrameUseIsUpper(insns, start, end - 1, pc);
    }
  }

  // ── Call chains ──────────────────────────────────────────────────────────

  /** The call at `pc` enters subprogram k. */
  predicate CallsEntry(insns: Program, subprogs: seq<nat>, pc: nat, k: nat) {
    && pc < |insns| && k < |subprogs|
    && insns[pc].CallSub? && Target(pc, insns[pc].callOffset) == subprogs[k]
  }

  ghost predicate Callee(insns: Program, subprogs: seq<nat>, i: nat, k: nat) {
    && i < |subprogs|
    && exists pc: nat :: RangeStart(subprogs[i], subprogs) <= pc < RangeEnd(subprogs[i], subprogs, |insns|)
         && CallsEntry(insns, subprogs, pc, k)
  }

  /** A call chain from the main program. */
  ghost predicate IsChain(insns: Program, subprogs: seq<nat>, c: seq<nat>) {
    && |c| > 0 && c[0] == 0
    && (forall j :: 0 <= j < |c| ==> c[j] < |subprogs|)
    && (forall j :: 0 <= j < |c| - 1 ==> Callee(insns, subprogs, c[j], c[j + 1]))
  }

  function Total(depth: seq<nat>, c: seq<nat>): nat
    requires forall j :: 0 <= j < |c| ==> c[j] < |depth|
  {
    if c == [] then 0 else Total(depth, c[..|c| - 1]) + depth[c[|c| - 1]]
  }

  ghost predicate Distinct(c: seq<nat>) { forall i, j :: 0 <= i < j < |c| ==> c[i] != c[j] }

  /** No recursion, and from one call on the frame and byte budgets hold. */
  ghost predicate WithinBudget(depth: seq<nat>, c: seq<nat>)
    requires forall j :: 0 <= j < |c| ==> c[j] < |depth|
  {
    Distinct(c) && (|c| >= 2 ==> |c| <= MAX_CALL_FRAMES && Total(depth, c) <= STACK_SIZE)
  }

  ghost predicate Extends(c: seq<nat>, prefix: seq<nat>) { |prefix| <= |c| && c[..|prefix|] == prefix }

  /** The chain vector shared by all recursive visits. */
  class Chain {
    var frames: seq<nat>

    constructor ()
      ensures frames == [0]
    {
      frames := [0];
    }
  }

  function Position(subprogs: seq<nat>, target: nat): (k: nat)
    ensures k <= |subprogs|
    ensures k < |subprogs| ==> subprogs[k] == target
    ensures k == |subprogs| ==> target !in subprogs
  {
    if subprogs == [] then 0
    else if subprogs[0] == target then 0
    else 1 + Position(subprogs[1..], target)
  }

  ghost predicate Refuted(insns: Program, subprogs: seq<nat>, depth: seq<nat>, reason: Reason)
    requires |depth| == |subprogs|
  {
    exists c :: IsChain(insns, subprogs, c) &&
      match reason
      case Recursive => !Distinct(c)
      case TooDeep => |c| > MAX_CALL_FRAMES
      case StackTooLarge => |c| >= 2 && Total(depth, c) > STACK_SIZE
      case _ => false
  }

  /** All chains through `frames` whose next call is at a pc below `to`. */
  ghost predicate ClearedBelow(insns: Program, subprogs: seq<nat>, depth: seq<nat>, frames: seq<nat>, from: nat,
                               to: nat)
    requires |depth| == |subprogs|
  {
    forall c, pc: nat ::
      IsChain(insns, subprogs, c) && Extends(c, frames) && |c| > |frames|
      && from <= pc < to && CallsEntry(insns, subprogs, pc, c[|frames|])
      ==> WithinBudget(depth, c)
  }

  ghost predicate Cleared(insns: Program, subprogs: seq<nat>, depth: seq<nat>, frames: seq<nat>)
    requires |depth| == |subprogs|
  {
    forall c :: IsChain(insns, subprogs, c) && Extends(c, frames) ==> WithinBudget(depth, c)
  }

  lemma PushChain(insns: Program, subprogs: seq<nat>, frames: seq<nat>, pc: nat, k: nat)
    requires IsChain(insns, subprogs, frames) && CallsEntry(insns, subprogs, pc, k)
    requires var i := frames[|frames| - 1];
             RangeStart(subprogs[i], subprogs) <= pc < RangeEnd(subprogs[i], subprogs, |insns|)
    ensures IsChain(insns, subprogs, frames + [k])
  {
    hide RangeStart, RangeEnd;
    var c := frames + [k];
    forall j | 0 <= j < |c| - 1
      ensures Callee(insns, subprogs, c[j], c[j + 1])
    {
      if j < |frames| - 1 {
        assert Callee(insns, subprogs, frames[j], frames[j + 1]);
      }
    }
  }

  lemma ClearedNext(insns: Program, subprogs: seq<nat>, depth: seq<nat>, frames: seq<nat>, from: nat, pc: nat, k: nat)
    requires |depth| == |subprogs| && Increasing(subprogs)
    requires ClearedBelow(insns, subprogs, depth, frames, from, pc)
    requires CallsEntry(insns, subprogs, pc, k) && Cleared(insns, subprogs, depth, frames + [k])
    ensures ClearedBelow(insns, subprogs, depth, frames, from, pc + 1)
  {
    forall c, p: nat | IsChain(insns, subprogs, c) && Extends(c, frames) && |c| > |frames|
      && from <= p < pc + 1 && CallsEntry(insns, subprogs, p, c[|frames|])
      ensures WithinBudget(depth, c)
    {
      if p == pc {
        assert c[|frames|] == k;
        assert c[..|frames| + 1] == frames + [k];
        assert Extends(c, frames + [k]);
      }
    }
  }

  lemma ClearedAll(insns: Program, subprogs: seq<nat>, depth: seq<nat>, frames: seq<nat>, from: nat, to: nat)
    requires |depth| == |subprogs| && IsChain(insns, subprogs, frames) && WithinBudget(depth, frames)
    requires var i := frames[|frames| - 1];
             from == RangeStart(subprogs[i], subprogs) && to >= RangeEnd(subprogs[i], subprogs, |insns|)
    requires ClearedBelow(insns, subprogs, depth, frames, from, to)
    ensures Cleared(insns, subprogs, depth, frames)
  {
    hide RangeStart, RangeEnd;
    forall c | IsChain(insns, subprogs, c) && Extends(c, frames)
      ensures WithinBudget(depth, c)
    {
      if |c| == |frames| {
        assert c == frames;
      } else {
        var n := |frames|;
        assert c[n - 1] == c[..n][n - 1] == frames[n - 1];
        assert Callee(insns, subprogs, c[n - 1], c[n]);
      }
    }
  }

  /** `visit`: pushes and pops the shared chain; Ok clears every chain through
      the current one, an error exhibits an offending chain. */
  method Visit(idx: nat, insns: Program, subprogs: seq<nat>, depth: seq<nat>, chain: Chain)
    returns (r: Result<(), Failure>)
    requires |depth| == |subprogs| && Entries(insns, subprogs)
    requires IsChain(insns, subprogs, chain.frames) && chain.frames[|chain.frames| - 1] == idx
    requires WithinBudget(depth, chain.frames) && |chain.frames| <= MAX_CALL_FRAMES
    modifies chain
    ensures r.Ok? ==> chain.frames == old(chain.frames)
    ensures r.Ok? ==> Cleared(insns, subprogs, depth, old(chain.frames))
    ensures r.Err? ==> Refuted(insns, subprogs, depth, r.error.reason)
    decreases MAX_CALL_FRAMES - |chain.frames|
  {
    hide RangeStart, RangeEnd, IsChain, ClearedBelow, Cleared, Entries, WithinBudget, Total;
    ghost var frames := chain.frames;
    ChainIndex(insns, subprogs, frames);
    var start, end := RangeStart(subprogs[idx], subprogs), RangeEnd(subprogs[idx], subprogs, |insns|);
    assert ClearedBelow(insns, subprogs, depth, frames, start, start) by {
      NothingBelow(insns, subprogs, depth, frames, start);
    }
    var pc := start;
    while pc < end
      invariant start <= pc && chain.frames == frames
      invariant pc <= end || start >= end
      invariant ClearedBelow(insns, subprogs, depth, frames, start, pc)
      decreases end - pc
    {
      RangeWithin(insns, subprogs, idx);
      if insns[pc].CallSub? {
        var target := Target(pc, insns[pc].callOffset);
        var callee := Position(subprogs, target);
        if callee < |subprogs| {
          PushChain(insns, subprogs, frames, pc, callee);
          var c := frames + [callee];
          ChainIndex(insns, subprogs, c);
          if callee in chain.frames {
            Repeats(frames, callee);
            assert IsChain(insns, subprogs, c);
            return Err(Failure(pc, Recursive));
          }
          chain.frames := chain.frames + [callee];
          if |chain.frames| > MAX_CALL_FRAMES {
            assert IsChain(insns, subprogs, c);
            return Err(Failure(pc, TooDeep));
          }
          var total := Total(depth, chain.frames);
          if total > STACK_SIZE {
            assert IsChain(insns, subprogs, c);
            return Err(Failure(pc, StackTooLarge));
          }
          PushBudget(depth, frames, callee);
          var sub := Visit(callee, insns, subprogs, depth, chain);
          if sub.Err? {
            return sub;
          }
          chain.frames := chain.frames[..|chain.frames| - 1];
          EntriesIncrease(insns, subprogs);
          ClearedNext(insns, subprogs, depth, frames, start, pc, callee);
        } else {
          assert forall k: nat :: k < |subprogs| ==> subprogs[k] in subprogs;
          Skipped(insns, subprogs, depth, frames, start, pc);
        }
      } else {
        Skipped(insns, subprogs, depth, frames, start, pc);
      }
      pc := pc + 1;
    }
    RangeWithin(insns, subprogs, idx);
    ClearedAll(insns, subprogs, depth, frames, start, pc);
    return Ok(());
  }

  lemma ChainIndex(insns: Program, subprogs: seq<nat>, c: seq<nat>)
    requires IsChain(insns, subprogs, c)
    ensures |c| > 0 && forall j :: 0 <= j < |c| ==> c[j] < |subprogs|
  {
  }

  lemma EntriesIncrease(insns: Program, subprogs: seq<nat>)
    requires Entries(insns, subprogs)
    ensures Increasing(subprogs)
  {
  }

  lemma NothingBelow(insns: Program, subprogs: seq<nat>, depth: seq<nat>, frames: seq<nat>, from: nat)
    requires |depth| == |subprogs|
    ensures ClearedBelow(insns, subprogs, depth, frames, from, from)
  {
  }

  lemma RangeWithin(insns: Program, subprogs: seq<nat>, idx: nat)
    requires Entries(insns, subprogs) && idx < |subprogs|
    ensures insns != [] ==> RangeStart(subprogs[idx], subprogs) < RangeEnd(subprogs[idx], subprogs, |insns|) <= |insns|
    ensures insns == [] ==> RangeStart(subprogs[idx], subprogs) >= RangeEnd(subprogs[idx], subprogs, |insns|)
  {
    if insns != [] {
      assert subprogs[idx] in subprogs;
      SubprogRange(insns, subprogs, subprogs[idx]);
    } else {
      assert subprogs[idx] in subprogs;
      RangeEndOfEmpty(subprogs);
    }
  }

  lemma RangeEndOfEmpty(subprogs: seq<nat>)
    requires Increasing(subprogs) && forall s :: s in subprogs ==> s == 0
    ensures RangeEnd(0, subprogs, 0) == 0
  {
    if subprogs != [] {
      assert subprogs[0] in subprogs;
      assert forall s :: s in subprogs[1..] ==> s in subprogs;
      RangeEndOfEmpty(subprogs[1..]);
    }
  }

  lemma Repeats(frames: seq<nat>, k: nat)
    requires k in frames
    ensures !Distinct(frames + [k])
  {
    var i :| 0 <= i < |frames| && frames[i] == k;
    assert (frames + [k])[i] == (frames + [k])[|frames|];
  }

  lemma PushBudget(depth: seq<nat>, frames: seq<nat>, k: nat)
    requires (forall j :: 0 <= j < |frames| ==> frames[j] < |depth|) && k < |depth| && |frames| > 0
    requires WithinBudget(depth, frames) && k !in frames
    requires |frames| + 1 <= MAX_CALL_FRAMES && Total(depth, frames + [k]) <= STACK_SIZE
    ensures WithinBudget(depth, frames + [k])
  {
  }

  lemma Skipped(insns: Program, subprogs: seq<nat>, depth: seq<nat>, frames: seq<nat>, from: nat, pc: nat)
    requires |depth| == |subprogs| && ClearedBelow(insns, subprogs, depth, frames, from, pc)
    requires forall k: nat :: !CallsEntry(insns, subprogs, pc, k)
    ensures ClearedBelow(insns, subprogs, depth, frames, from, pc + 1)
  {
    forall c, p: nat | IsChain(insns, subprogs, c) && Extends(c, frames) && |c| > |frames|
      && from <= p < pc + 1 && CallsEntry(insns, subprogs, p, c[|frames|])
      ensures WithinBudget(depth, c)
    {
      assert p != pc;
    }
  }

  /** The call-chain check is exact: Ok iff no chain from the main program
      recurses and every chain with a call keeps both budgets. */
  method CheckStackCallChains(insns: Program, subprogs: seq<nat>, depth: seq<nat>) returns (r: Result<(), Failure>)
    requires |depth| == |subprogs| && Entries(insns, subprogs)
    ensures r.Ok? <==> forall c :: IsChain(insns, subprogs, c) ==> WithinBudget(depth, c)
    ensures r.Err? ==> Refuted(insns, subprogs, depth, r.error.reason)
  {
    var chain := new Chain();
    r := Visit(0, insns, subprogs, depth, chain);
    if r.Ok? {
      forall c | IsChain(insns, subprogs, c)
        ensures WithinBudget(depth, c)
      {
        assert Extends(c, [0]);
      }
    }
  }

  /** `check_combined_stack_depth`: when it accepts, the bytes that the frames
      of any call chain can reach through r10 fit the stack together. */
  method CheckCombinedStackDepth(insns: Program, subprogs: seq<nat>) returns (r: Result<(), Failure>, depth: seq<nat>)
    requires Entries(insns, subprogs) && insns != []
    ensures |depth| == |subprogs|
    ensures forall i: nat, pc: nat :: (i < |depth| && subprogs[i] <= pc < SubprogEnd(insns, subprogs, i) <= |insns|
              && IsDirect(insns[pc]) && DirectAccess(insns[pc]).0 != -0x8000) ==>
                depth[i] >= DirectAccess(insns[pc]).1 - DirectAccess(insns[pc]).0
    ensures r.Ok? <==> forall c :: IsChain(insns, subprogs, c) ==> WithinBudget(depth, c)
  {
    depth := DirectStackDepths(insns, subprogs);
    forall i: nat, pc: nat | i < |depth| && subprogs[i] <= pc < SubprogEnd(insns, subprogs, i) <= |insns|
      && IsDirect(insns[pc]) && DirectAccess(insns[pc]).0 != -0x8000
      ensures depth[i] >= DirectAccess(insns[pc]).1 - DirectAccess(insns[pc]).0
    {
      CountedUseCovers(insns[pc]);
      FrameUseIsUpper(insns, subprogs[i], SubprogEnd(insns, subprogs, i), pc);
    }
    r := CheckStackCallChains(insns, subprogs, depth);
  }
}

/** The cross-check of a rejected program (`src/env.rs`) starts with the liveness
    iteration, whose index condition only accepted programs are known to meet. */
module Rejected {
  import opened Insn
  import opened Cfg
  import opened CallChain
  import Liveness

  /** Subprogram 2 exits and calls itself from the last instruction. */
  function CallsLast(): Program { [CallSub(1), Exit, Exit, CallSub(-2)] }

  lemma CallsLastEntries()
    ensures Entries(CallsLast(), [0, 2])
  {
    var insns := CallsLast();
    assert CallsAt(insns, 0, 2);
    forall s | s == 0 || exists pc: nat :: CallsAt(insns, pc, s)
      ensures s in [0, 2]
    {
    }
  }

  lemma CallsLastRanges()
    ensures RangeStart(0, [0, 2]) == 0 && RangeEnd(0, [0, 2], 4) == 2
    ensures RangeStart(2, [0, 2]) == 2 && RangeEnd(2, [0, 2], 4) == 4
  {
    assert [0, 2][..1] == [0] && [0, 2][1..] == [2] && [2][1..] == [];
  }

  lemma CallsLastRecurses()
    ensures IsChain(CallsLast(), [0, 2], [0, 1, 1]) && !Distinct([0, 1, 1])
  {
    var insns, subprogs := CallsLast(), [0, 2];
    CallsLastRanges();
    hide RangeStart, RangeEnd;
    assert CallsEntry(insns, subprogs, 0, 1) && CallsEntry(insns, subprogs, 3, 1);
    assert Callee(insns, subprogs, 0, 1) && Callee(insns, subprogs, 1, 1);
    assert [0, 1, 1][1] == [0, 1, 1][2];
  }

  /** The call-chain check refuses this program for its recursion. The exit at 2
      then has a return site behind the last instruction, where the source panics
      in the analysis of the program it has just rejected. */
  lemma RejectedIndexesPastMasks()
    ensures Entries(CallsLast(), [0, 2])
    ensures Refuted(CallsLast(), [0, 2], [0, 0], Recursive)
    ensures FrameUse(CallsLast(), 0, 2) == 0 && FrameUse(CallsLast(), 2, 4) == 0
    ensures 4 in Liveness.StaticSuccessors(CallsLast(), 2) && !Liveness.SuccessorInside(CallsLast(), 2)
    ensures !Liveness.ReturnsInside(CallsLast())
  {
    CallsLastEntries();
    CallsLastRecurses();
    hide IsChain;
    LastReturnSite();
    hide Liveness.StaticSuccessors, Liveness.ReturnsInside;
    assert !Liveness.SuccessorInside(CallsLast(), 2);
    Liveness.ReturnsInsideExact(CallsLast());
  }

  lemma LastReturnSite()
    ensures 4 in Liveness.StaticSuccessors(CallsLast(), 2)
  {
    var insns := CallsLast();
    assert Liveness.CallTarget(insns, 0) == 2 && Liveness.CallTarget(insns, 3) == 2;
    hide Liveness.CallTarget;
    assert Liveness.LastStart(insns, 2, 1) == 2;
    assert Liveness.LastStart(insns, 2, 3) == 2;
    assert Liveness.SubprogEntryAt(insns, 2) == Some(2);
    assert Liveness.ReturnSites(insns, 2, 4)[|Liveness.ReturnSites(insns, 2, 4)| - 1] == 4;
    hide Liveness.ReturnSites;
  }
}
