/** The control-flow graph of an accepted program is where its executions go
    (`src/cfg.rs`, `src/concrete.rs`): every concrete step is an edge, through calls
    and nested returns, and no edge is idle. */
module CfgRuns {
  import opened Words
  import opened Insn
  import opened Graph
  import opened Cfg
  import opened CallChain
  import opened Scalar
  import R = Runs
  import C = Concrete

  type Point = R.Point

  /** The subprogram of an instruction. */
  predicate Inside(insns: Program, subprogs: seq<nat>, i: nat, pc: nat) {
    i < |subprogs| && pc < |insns| && RangeStart(pc, subprogs) == subprogs[i]
  }

  /** The address frame j returns to. */
  function ReturnOf(st: C.State, j: nat): U32
    requires j != st.curframe ==> j < |st.saved| && st.saved[j].Some?
  {
    if j == st.curframe then st.retPc else st.saved[j].value.retPc
  }

  /** Frame j was entered by the call before its return address, from frame j - 1. */
  ghost predicate CalledFrom(insns: Program, subprogs: seq<nat>, c: seq<nat>, st: C.State, j: nat)
    requires 0 < j < |c|
  {
    && (j != st.curframe ==> j < |st.saved| && st.saved[j].Some?)
    && ReturnOf(st, j) > 0 && Inside(insns, subprogs, c[j - 1], ReturnOf(st, j) - 1)
    && CallsEntry(insns, subprogs, ReturnOf(st, j) - 1, c[j])
  }

  /** The active frames are the call chain c, and pc is in the last subprogram. */
  ghost predicate Located(insns: Program, subprogs: seq<nat>, c: seq<nat>, pc: nat, st: C.State) {
    && IsChain(insns, subprogs, c) && |c| == st.curframe + 1 <= MAX_CALL_FRAMES
    && Inside(insns, subprogs, c[st.curframe], pc)
    && (forall j :: 0 < j < |c| ==> CalledFrom(insns, subprogs, c, st, j))
    && forall k :: 0 <= k < st.curframe ==> st.saved[k].Some?
  }

  /** The checks that run before exploration: accepted flow, bounded chains. */
  ghost predicate Checked(insns: Program, subprogs: seq<nat>) {
    && Entries(insns, subprogs) && Accepted(insns, subprogs)
    && forall c :: IsChain(insns, subprogs, c) ==> Distinct(c) && |c| <= MAX_CALL_FRAMES
  }

  // ── Ranges ───────────────────────────────────────────────────────────────

  /** Instructions between the ends of a range are in the same subprogram. */
  lemma SameRange(insns: Program, subprogs: seq<nat>, i: nat, pc: nat, t: nat)
    requires Entries(insns, subprogs) && Inside(insns, subprogs, i, pc)
    requires RangeStart(pc, subprogs) <= t < RangeEnd(pc, subprogs, |insns|)
    ensures Inside(insns, subprogs, i, t)
  {
    SubprogRange(insns, subprogs, pc);
    SubprogRange(insns, subprogs, t);
    hide RangeStart, RangeEnd;
  }

  lemma EntryInside(insns: Program, subprogs: seq<nat>, k: nat)
    requires Entries(insns, subprogs) && k < |subprogs| && insns != []
    ensures Inside(insns, subprogs, k, subprogs[k])
  {
    assert subprogs[k] in subprogs;
    SubprogRange(insns, subprogs, subprogs[k]);
    hide RangeStart;
  }

  /** A call inside a subprogram makes its target a callee. */
  lemma CalleeOf(insns: Program, subprogs: seq<nat>, i: nat, k: nat, pc: nat)
    requires Entries(insns, subprogs) && Inside(insns, subprogs, i, pc) && CallsEntry(insns, subprogs, pc, k)
    ensures Callee(insns, subprogs, i, k)
  {
    EntryInside(insns, subprogs, i);
    assert subprogs[i] in subprogs;
    SubprogRange(insns, subprogs, pc);
    SubprogRange(insns, subprogs, subprogs[i]);
    hide RangeStart, RangeEnd;
    assert RangeStart(subprogs[i], subprogs) <= pc < RangeEnd(subprogs[i], subprogs, |insns|);
  }

  // ── Steps that stay in the frame ─────────────────────────────────────────

  /** The frames and their return addresses are the same. */
  ghost predicate SameReturns(st: C.State, next: C.State) {
    && next.curframe == st.curframe && next.retPc == st.retPc
    && forall k :: 0 <= k < |st.saved| ==> SameReturn(st.saved[k], next.saved[k])
  }

  predicate SameReturn(a: Option<C.Frame>, b: Option<C.Frame>) {
    a.Some? == b.Some? && (a.Some? ==> a.value.retPc == b.value.retPc)
  }

  predicate Local(insn: Insn) { !insn.Exit? && !insn.CallSub? }

  lemma StoreReturns(pc: nat, st: C.State, v: Option<C.Value>, base: Reg, off: I16, size: nat)
    requires ValidSize(size) && C.Store(pc, st, v, base, off, size).Ok?
    ensures SameReturns(st, C.Store(pc, st, v, base, off, size).value)
  {
    hide C.Locate, C.Merge;
  }

  lemma StepReturns(pc: nat, st: C.State, insn: Insn)
    requires !insn.IsConditional() && !insn.Jmp? && !insn.Exit? && !insn.Call? && !insn.CallSub?
    requires C.Step(pc, st, insn).Ok?
    ensures SameReturns(st, C.Step(pc, st, insn).value)
  {
    hide C.Store, AluConst, C.Locate, C.Extract, SaturateI64, C.PtrOffset, Wrap64, Signed64;
    if insn.StMem? {
      StoreReturns(pc, st, st.regs[insn.src], insn.base, insn.offset, insn.size.Bytes());
    } else if insn.StMemImm? {
      StoreReturns(pc, st, Some(C.Number(Wrap64(insn.imm))), insn.base, insn.offset, insn.size.Bytes());
    }
  }

  /** Where an instruction inside a frame goes. */
  lemma LocalStep(program: Program, pc: nat, st: C.State, t: nat, next: C.State)
    requires pc < |program| && Local(program[pc]) && R.Steps(program, (pc, st), (t, next))
    ensures SameReturns(st, next)
    ensures var insn := program[pc];
            if insn.Jmp? then t == Target(pc, insn.offset)
            else if insn.IsConditional() then t == Target(pc, insn.offset) || t == pc + 1
            else t == pc + 1
  {
    hide C.Step, Target, C.CompareValues, SameReturns;
    var insn := program[pc];
    Unchanged(st);
    if !insn.Jmp? && !insn.IsConditional() && !insn.Call? {
      StepReturns(pc, st, insn);
    } else if insn.Call? {
      HelperReturns(pc, st, insn.imm);
    }
  }

  lemma Unchanged(st: C.State)
    ensures SameReturns(st, st)
  {
  }

  lemma HelperReturns(pc: nat, st: C.State, imm: I32)
    ensures C.CallHelper(pc, st, imm).Ok? ==> forall d :: d in C.CallHelper(pc, st, imm).value ==> SameReturns(st, d)
  {
  }

  /** The frames are still on the same chain after a step inside one. */
  lemma StaysLocated(insns: Program, subprogs: seq<nat>, c: seq<nat>, pc: nat, st: C.State, t: nat, next: C.State)
    requires Located(insns, subprogs, c, pc, st) && SameReturns(st, next) && Inside(insns, subprogs, c[st.curframe], t)
    ensures Located(insns, subprogs, c, t, next)
  {
    hide IsChain, Inside, CallsEntry;
    forall j | 0 < j < |c|
      ensures CalledFrom(insns, subprogs, c, next, j)
    {
      assert CalledFrom(insns, subprogs, c, st, j);
    }
  }

  lemma LocalEdge(insns: Program, subprogs: seq<nat>, i: nat, pc: nat, t: nat)
    requires Entries(insns, subprogs) && Accepted(insns, subprogs) && Inside(insns, subprogs, i, pc) && Local(insns[pc])
    requires var insn := insns[pc];
             if insn.Jmp? then t == Target(pc, insn.offset)
             else if insn.IsConditional() then t == Target(pc, insn.offset) || t == pc + 1
             else t == pc + 1
    ensures Edge(FlowGraph(insns, subprogs), pc, t) && Inside(insns, subprogs, i, t)
  {
    assert FlowGraph(insns, subprogs)[pc].Ok?;
    SubprogRange(insns, subprogs, pc);
    hide RangeStart, RangeEnd, Entries, AllEndProperly, Reachable, Target, ReturnSites;
    assert FlowGraph(insns, subprogs)[pc] == NextInsns(pc, insns, subprogs);
    assert t in NextInsns(pc, insns, subprogs).value;
    assert RangeStart(pc, subprogs) <= t < RangeEnd(pc, subprogs, |insns|);
    SameRange(insns, subprogs, i, pc, t);
  }

  // ── Calls and returns ────────────────────────────────────────────────────

  lemma CallEdge(insns: Program, subprogs: seq<nat>, pc: nat) returns (k: nat)
    requires Entries(insns, subprogs) && Accepted(insns, subprogs) && pc < |insns| && insns[pc].CallSub?
    ensures CallsEntry(insns, subprogs, pc, k) && Edge(FlowGraph(insns, subprogs), pc, subprogs[k])
  {
    assert FlowGraph(insns, subprogs)[pc].Ok?;
    hide RangeStart, RangeEnd, Entries, AllEndProperly, Reachable, Target, ReturnSites;
    assert FlowGraph(insns, subprogs)[pc] == NextInsns(pc, insns, subprogs);
    var target := Target(pc, insns[pc].callOffset);
    assert target in subprogs;
    k :| 0 <= k < |subprogs| && subprogs[k] == target;
  }

  lemma LongerChain(insns: Program, subprogs: seq<nat>, c: seq<nat>, k: nat)
    requires IsChain(insns, subprogs, c) && Callee(insns, subprogs, c[|c| - 1], k) && k < |subprogs|
    ensures IsChain(insns, subprogs, c + [k])
  {
    hide Callee;
    var d := c + [k];
    forall j | 0 <= j < |d| - 1
      ensures Callee(insns, subprogs, d[j], d[j + 1])
    {
      if j < |c| - 1 {
        assert Callee(insns, subprogs, c[j], c[j + 1]);
      }
    }
  }

  lemma PcInside(insns: Program, subprogs: seq<nat>, c: seq<nat>, pc: nat, st: C.State)
    requires Located(insns, subprogs, c, pc, st)
    ensures pc < |insns| && |c| == st.curframe + 1
  {
    hide IsChain, CalledFrom;
  }

  /** The frames after a call. */
  lemma CalledFrames(insns: Program, subprogs: seq<nat>, c: seq<nat>, pc: nat, st: C.State, k: nat)
    requires Located(insns, subprogs, c, pc, st) && CallsEntry(insns, subprogs, pc, k) && k < |subprogs|
    requires C.EnterSubprog(st, Wrap32(pc + 1)).Ok? && IsChain(insns, subprogs, c + [k]) && |c| < MAX_CALL_FRAMES
    requires Inside(insns, subprogs, k, subprogs[k])
    ensures Located(insns, subprogs, c + [k], subprogs[k], C.EnterSubprog(st, Wrap32(pc + 1)).value)
  {
    PcInside(insns, subprogs, c, pc, st);
    hide IsChain, C.CalleeRegs, Inside, CallsEntry;
    var d, next := c + [k], C.EnterSubprog(st, Wrap32(pc + 1)).value;
    ReturnAddress(insns, pc);
    forall j | 0 < j < |d|
      ensures CalledFrom(insns, subprogs, d, next, j)
    {
      if j < |c| {
        assert CalledFrom(insns, subprogs, c, st, j);
      }
    }
  }

  /** A call goes along its edge and never finds the call stack full. */
  lemma CallLocated(insns: Program, subprogs: seq<nat>, c: seq<nat>, pc: nat, st: C.State) returns (k: nat)
    requires Checked(insns, subprogs) && Located(insns, subprogs, c, pc, st) && insns[pc].CallSub?
    ensures C.EnterSubprog(st, Wrap32(pc + 1)).Ok? && k < |subprogs|
    ensures Target(pc, insns[pc].callOffset) == subprogs[k] && Edge(FlowGraph(insns, subprogs), pc, subprogs[k])
    ensures Located(insns, subprogs, c + [k], subprogs[k], C.EnterSubprog(st, Wrap32(pc + 1)).value)
  {
    hide Entries, Accepted, Distinct, C.CalleeRegs, Inside, CalledFrom, IsChain, Callee, FlowGraph, Target;
    PcInside(insns, subprogs, c, pc, st);
    k := CallEdge(insns, subprogs, pc);
    CalleeOf(insns, subprogs, c[st.curframe], k, pc);
    ChainEnds(insns, subprogs, c);
    LongerChain(insns, subprogs, c, k);
    EntryInside(insns, subprogs, k);
    assert |c + [k]| <= MAX_CALL_FRAMES;
    CalledFrames(insns, subprogs, c, pc, st, k);
  }

  lemma ChainEnds(insns: Program, subprogs: seq<nat>, c: seq<nat>)
    requires IsChain(insns, subprogs, c)
    ensures |c| > 0 && forall j :: 0 <= j < |c| ==> c[j] < |subprogs|
  {
  }

  lemma ReturnAddress(insns: Program, pc: nat)
    requires pc < |insns|
    ensures Wrap32(pc + 1) == pc + 1
  {
  }

  /** The instruction behind a call is in the same subprogram. */
  lemma BehindCall(insns: Program, subprogs: seq<nat>, i: nat, pc: nat)
    requires Entries(insns, subprogs) && Accepted(insns, subprogs)
    requires Inside(insns, subprogs, i, pc) && insns[pc].CallSub?
    ensures Inside(insns, subprogs, i, pc + 1)
  {
    SubprogRange(insns, subprogs, pc);
    BeforeEntry(insns, subprogs, RangeEnd(pc, subprogs, |insns|));
    hide RangeStart, RangeEnd;
    SameRange(insns, subprogs, i, pc, pc + 1);
  }

  /** The callee of a chain is not the main program. */
  lemma NotMain(insns: Program, subprogs: seq<nat>, c: seq<nat>)
    requires Checked(insns, subprogs) && IsChain(insns, subprogs, c) && |c| > 1
    ensures subprogs[c[|c| - 1]] != 0
  {
    hide Accepted;
    assert c[0] != c[|c| - 1];
    assert subprogs[0] == 0 && Increasing(subprogs);
  }

  lemma ShorterChain(insns: Program, subprogs: seq<nat>, c: seq<nat>)
    requires IsChain(insns, subprogs, c) && |c| > 1
    ensures IsChain(insns, subprogs, c[..|c| - 1])
  {
    hide Callee;
    var d := c[..|c| - 1];
    forall j | 0 <= j < |d| - 1
      ensures Callee(insns, subprogs, d[j], d[j + 1])
    {
      assert Callee(insns, subprogs, c[j], c[j + 1]);
    }
  }

  lemma ReturnEdge(insns: Program, subprogs: seq<nat>, i: nat, pc: nat, site: nat)
    requires Entries(insns, subprogs) && Accepted(insns, subprogs) && Inside(insns, subprogs, i, pc) && insns[pc].Exit?
    requires subprogs[i] != 0 && 0 < site <= |insns| && CallsEntry(insns, subprogs, site - 1, i)
    ensures Edge(FlowGraph(insns, subprogs), pc, site)
  {
    assert FlowGraph(insns, subprogs)[pc].Ok?;
    ReturnSitesAre(insns, subprogs[i], |insns|, site);
    hide RangeStart, RangeEnd, Entries, AllEndProperly, Reachable, Target, ReturnSites;
    assert FlowGraph(insns, subprogs)[pc] == NextInsns(pc, insns, subprogs);
  }

  /** The frames after a return. */
  lemma ReturnedFrames(insns: Program, subprogs: seq<nat>, c: seq<nat>, pc: nat, st: C.State)
    requires Located(insns, subprogs, c, pc, st) && st.curframe > 0 && IsChain(insns, subprogs, c[..st.curframe])
    requires Inside(insns, subprogs, c[st.curframe - 1], st.retPc)
    ensures Located(insns, subprogs, c[..st.curframe], st.retPc, C.LeaveSubprog(st))
  {
    hide IsChain, Inside, CallsEntry, C.Clobber;
    var d, next := c[..st.curframe], C.LeaveSubprog(st);
    assert st.saved[st.curframe - 1].Some?;
    forall j | 0 < j < |d|
      ensures CalledFrom(insns, subprogs, d, next, j)
    {
      assert CalledFrom(insns, subprogs, c, st, j);
    }
  }

  lemma ReturnSite(insns: Program, subprogs: seq<nat>, c: seq<nat>, pc: nat, st: C.State)
    requires Located(insns, subprogs, c, pc, st) && st.curframe > 0
    ensures st.retPc > 0 && st.retPc - 1 < |insns| && insns[st.retPc - 1].CallSub?
    ensures Inside(insns, subprogs, c[st.curframe - 1], st.retPc - 1)
    ensures CallsEntry(insns, subprogs, st.retPc - 1, c[st.curframe])
  {
    hide IsChain;
    assert CalledFrom(insns, subprogs, c, st, st.curframe);
  }

  /** A nested exit returns along an edge. */
  lemma ReturnLocated(insns: Program, subprogs: seq<nat>, c: seq<nat>, pc: nat, st: C.State)
    requires Checked(insns, subprogs) && Located(insns, subprogs, c, pc, st) && insns[pc].Exit? && st.curframe > 0
    ensures Edge(FlowGraph(insns, subprogs), pc, st.retPc)
    ensures Located(insns, subprogs, c[..st.curframe], st.retPc, C.LeaveSubprog(st))
  {
    hide IsChain, CalledFrom, FlowGraph, Inside, CallsEntry, Accepted, Entries, C.LeaveSubprog;
    var f := st.curframe;
    ReturnSite(insns, subprogs, c, pc, st);
    ChainEnds(insns, subprogs, c);
    NotMain(insns, subprogs, c);
    assert c[..f] == c[..|c| - 1];
    ReturnEdge(insns, subprogs, c[f], pc, st.retPc);
    BehindCall(insns, subprogs, c[f - 1], st.retPc - 1);
    ShorterChain(insns, subprogs, c);
    ReturnedFrames(insns, subprogs, c, pc, st);
  }

  // ── Whole runs ───────────────────────────────────────────────────────────

  ghost predicate LocatedAt(insns: Program, subprogs: seq<nat>, x: Point) {
    exists c :: Located(insns, subprogs, c, x.0, x.1)
  }

  lemma LocatedBy(insns: Program, subprogs: seq<nat>, c: seq<nat>, pc: nat, st: C.State)
    requires Located(insns, subprogs, c, pc, st)
    ensures LocatedAt(insns, subprogs, (pc, st))
  {
    hide Located;
  }

  lemma LocalIsEdge(insns: Program, subprogs: seq<nat>, c: seq<nat>, x: Point, y: Point)
    requires Checked(insns, subprogs) && Located(insns, subprogs, c, x.0, x.1) && R.Steps(insns, x, y)
    requires x.0 < |insns| && Local(insns[x.0])
    ensures Edge(FlowGraph(insns, subprogs), x.0, y.0) && Located(insns, subprogs, c, y.0, y.1)
  {
    hide R.Steps, Accepted, Entries, IsChain, Inside, FlowGraph, SameReturns, CalledFrom;
    LocalStep(insns, x.0, x.1, y.0, y.1);
    LocalEdge(insns, subprogs, c[x.1.curframe], x.0, y.0);
    StaysLocated(insns, subprogs, c, x.0, x.1, y.0, y.1);
  }

  /** Every concrete step of a located state is an edge of the graph. */
  lemma StepIsEdge(insns: Program, subprogs: seq<nat>, x: Point, y: Point)
    requires Checked(insns, subprogs) && LocatedAt(insns, subprogs, x) && R.Steps(insns, x, y)
    ensures Edge(FlowGraph(insns, subprogs), x.0, y.0) && LocatedAt(insns, subprogs, y)
  {
    hide Located, Checked, C.EnterSubprog, C.LeaveSubprog, R.Steps, FlowGraph, Target;
    var c :| Located(insns, subprogs, c, x.0, x.1);
    PcInside(insns, subprogs, c, x.0, x.1);
    var insn := insns[x.0];
    if insn.CallSub? {
      var k := CallLocated(insns, subprogs, c, x.0, x.1);
      CallStep(insns, x, y);
      LocatedBy(insns, subprogs, c + [k], y.0, y.1);
    } else if insn.Exit? {
      ExitStep(insns, x, y);
      ReturnLocated(insns, subprogs, c, x.0, x.1);
      LocatedBy(insns, subprogs, c[..x.1.curframe], y.0, y.1);
    } else {
      LocalIsEdge(insns, subprogs, c, x, y);
      LocatedBy(insns, subprogs, c, y.0, y.1);
    }
  }

  lemma CallStep(insns: Program, x: Point, y: Point)
    requires x.0 < |insns| && insns[x.0].CallSub? && R.Steps(insns, x, y)
    ensures C.EnterSubprog(x.1, Wrap32(x.0 + 1)).Ok?
    ensures y == (Target(x.0, insns[x.0].callOffset), C.EnterSubprog(x.1, Wrap32(x.0 + 1)).value)
  {
    hide C.EnterSubprog;
  }

  lemma ExitStep(insns: Program, x: Point, y: Point)
    requires x.0 < |insns| && insns[x.0].Exit? && R.Steps(insns, x, y)
    ensures x.1.curframe > 0 && y == (x.1.retPc, C.LeaveSubprog(x.1))
  {
    hide C.LeaveSubprog;
  }

  lemma InitialLocated(insns: Program, subprogs: seq<nat>)
    requires Checked(insns, subprogs)
    ensures LocatedAt(insns, subprogs, (0, C.Initial()))
  {
    EntryInside(insns, subprogs, 0);
    hide Accepted;
    assert IsChain(insns, subprogs, [0]);
    assert Located(insns, subprogs, [0], 0, C.Initial());
  }

  /** Every reachable concrete state is at a reachable instruction of the graph, with
      its frames on a call chain; its steps are edges. */
  lemma ReachableLocated(insns: Program, subprogs: seq<nat>, x: Point)
    requires Checked(insns, subprogs) && R.Reachable(insns, x)
    ensures LocatedAt(insns, subprogs, x)
    ensures forall y: Point :: R.Steps(insns, x, y) ==> Edge(FlowGraph(insns, subprogs), x.0, y.0)
    ensures Reachable(FlowGraph(insns, subprogs), x.0)
  {
    hide Checked, LocatedAt, R.Steps, FlowGraph, R.Reachable;
    var points := iset y: Point | LocatedAt(insns, subprogs, y);
    InitialLocated(insns, subprogs);
    forall y: Point, z: Point | y in points && R.Steps(insns, y, z)
      ensures z in points
    {
      StepIsEdge(insns, subprogs, y, z);
    }
    R.ClosedHoldsReachable(insns, points, x);
    forall y: Point | R.Steps(insns, x, y)
      ensures Edge(FlowGraph(insns, subprogs), x.0, y.0)
    {
      StepIsEdge(insns, subprogs, x, y);
    }
    LocatedReachable(insns, subprogs, x);
  }

  lemma LocatedReachable(insns: Program, subprogs: seq<nat>, x: Point)
    requires Checked(insns, subprogs) && LocatedAt(insns, subprogs, x)
    ensures Reachable(FlowGraph(insns, subprogs), x.0)
  {
    hide IsChain, Entries, CalledFrom, Distinct, Reachable;
  }

  /** A checked program never runs out of call frames. */
  lemma NeverTooDeep(insns: Program, subprogs: seq<nat>, x: Point)
    requires Checked(insns, subprogs) && R.Reachable(insns, x) && x.0 < |insns| && insns[x.0].CallSub?
    ensures C.EnterSubprog(x.1, Wrap32(x.0 + 1)).Ok?
  {
    ReachableLocated(insns, subprogs, x);
    var c :| Located(insns, subprogs, c, x.0, x.1);
    hide Located, Checked, C.EnterSubprog, R.Reachable;
    var k := CallLocated(insns, subprogs, c, x.0, x.1);
  }
}
