/** Control-flow checks of `src/cfg.rs`: subprogram entries, the successor list
    of one instruction, and the iterative depth-first search with loop heads. */
module Cfg {
  import opened Words
  import opened Insn
  import opened Graph
  import opened Dfs

  datatype Reason =
    | CallOutOfProgram | JumpCrosses | LandsInWide | NotAnEntry | FallsThrough
    | EmptyProgram | BadEnding | Unreachable | Recursive | TooDeep | StackTooLarge

  datatype Failure = Failure(pc: nat, reason: Reason)

  // ── Subprogram entries ───────────────────────────────────────────────────

  ghost predicate CallsAt(insns: Program, pc: nat, target: nat) {
    pc < |insns| && insns[pc].CallSub? && Target(pc, insns[pc].callOffset) == target
  }

  ghost predicate Increasing(s: seq<nat>) { forall i, j :: 0 <= i < j < |s| ==> s[i] < s[j] }

  /** What `add_subprog` returns: 0 and every call target, in increasing order. */
  ghost predicate Entries(insns: Program, subprogs: seq<nat>) {
    && |subprogs| > 0 && subprogs[0] == 0 && Increasing(subprogs)
    && (insns != [] ==> forall s :: s in subprogs ==> s < |insns|)
    && forall s :: s in subprogs <==> s == 0 || exists pc: nat :: CallsAt(insns, pc, s)
  }

  /** Insertion into an increasing sequence; stands for the library sort. */
  function Insert(s: seq<nat>, x: nat): (r: seq<nat>)
    requires Increasing(s) && x !in s
    ensures Increasing(r) && forall y :: y in r <==> y in s || y == x
    ensures |r| == |s| + 1
  {
    if s == [] then [x]
    else if x < s[0] then
      var r := [x] + s;
      assert forall y :: y in r <==> y in s || y == x;
      r
    else
      var t := Insert(s[1..], x);
      assert s == [s[0]] + s[1..];
      assert forall i :: 0 <= i < |t| ==> t[i] in t;
      [s[0]] + t
  }

  function Sort(s: seq<nat>): (r: seq<nat>)
    requires forall i, j :: 0 <= i < j < |s| ==> s[i] != s[j]
    ensures Increasing(r) && forall y :: y in r <==> y in s
    ensures |r| == |s|
  {
    if s == [] then [] else
      var t := Sort(s[1..]);
      assert s == [s[0]] + s[1..];
      assert s[0] !in s[1..];
      Insert(t, s[0])
  }

  method AddSubprog(insns: Program) returns (r: Result<seq<nat>, Failure>)
    ensures r.Ok? ==> Entries(insns, r.value)
    ensures r.Err? ==> r.error.pc < |insns| && exists t: nat :: CallsAt(insns, r.error.pc, t) && t >= |insns|
    ensures r.Ok? <==> forall pc: nat, t: nat :: CallsAt(insns, pc, t) ==> t < |insns|
  {
    var starts: seq<nat> := [0];
    for pc := 0 to |insns|
      invariant |starts| > 0 && starts[0] == 0
      invariant forall i, j :: 0 <= i < j < |starts| ==> starts[i] != starts[j]
      invariant forall s :: s in starts <==> s == 0 || exists p: nat :: p < pc && CallsAt(insns, p, s)
      invariant forall p: nat, t: nat :: p < pc && CallsAt(insns, p, t) ==> t < |insns|
    {
      if insns[pc].CallSub? {
        var target := Target(pc, insns[pc].callOffset);
        assert CallsAt(insns, pc, target);
        if target >= |insns| {
          return Err(Failure(pc, CallOutOfProgram));
        }
        if target !in starts {
          starts := starts + [target];
        }
      }
    }
    var sorted := Sort(starts);
    SortedStartsAtZero(sorted);
    return Ok(sorted);
  }

  lemma SortedStartsAtZero(s: seq<nat>)
    requires Increasing(s) && 0 in s
    ensures s[0] == 0
  {
    var i :| 0 <= i < |s| && s[i] == 0;
  }

  /** The last entry at or before `idx`. */
  function RangeStart(idx: nat, subprogs: seq<nat>): nat {
    if subprogs == [] then 0
    else if subprogs[|subprogs| - 1] <= idx then subprogs[|subprogs| - 1]
    else RangeStart(idx, subprogs[..|subprogs| - 1])
  }

  /** The first entry after `idx`, or the program length. */
  function RangeEnd(idx: nat, subprogs: seq<nat>, count: nat): nat {
    if subprogs == [] then count
    else if subprogs[0] > idx then subprogs[0]
    else RangeEnd(idx, subprogs[1..], count)
  }

  lemma {:induction false} RangeStartFacts(idx: nat, subprogs: seq<nat>)
    requires Increasing(subprogs) && |subprogs| > 0 && subprogs[0] <= idx
    ensures RangeStart(idx, subprogs) <= idx && RangeStart(idx, subprogs) in subprogs
    ensures forall s :: s in subprogs && s <= idx ==> s <= RangeStart(idx, subprogs)
  {
    var t := |subprogs| - 1;
    assert subprogs == subprogs[..t] + [subprogs[t]];
    if subprogs[t] > idx {
      RangeStartFacts(idx, subprogs[..t]);
    }
  }

  lemma {:induction false} RangeEndFacts(idx: nat, subprogs: seq<nat>, count: nat)
    requires Increasing(subprogs) && idx < count && forall s :: s in subprogs ==> s < count
    ensures idx < RangeEnd(idx, subprogs, count) <= count
    ensures RangeEnd(idx, subprogs, count) == count || RangeEnd(idx, subprogs, count) in subprogs
    ensures forall s :: s in subprogs && idx < s ==> RangeEnd(idx, subprogs, count) <= s
  {
    if subprogs != [] {
      var rest := subprogs[1..];
      assert subprogs == [subprogs[0]] + rest;
      forall s | s in rest
        ensures s in subprogs
      {
        var i :| 0 <= i < |rest| && rest[i] == s;
        assert subprogs[i + 1] == s;
      }
      if subprogs[0] <= idx {
        RangeEndFacts(idx, rest, count);
      } else {
        assert subprogs[0] in subprogs;
        assert forall s :: s in subprogs ==> subprogs[0] <= s;
      }
    }
  }

  /** `find_subprog_range`: the unique subprogram that holds the instruction. */
  lemma SubprogRange(insns: Program, subprogs: seq<nat>, idx: nat)
    requires Entries(insns, subprogs) && idx < |insns|
    ensures var start, end := RangeStart(idx, subprogs), RangeEnd(idx, subprogs, |insns|);
            && start in subprogs && start <= idx < end <= |insns|
            && (end in subprogs || end == |insns|)
            && forall s :: s in subprogs ==> s <= start || end <= s
  {
    RangeStartFacts(idx, subprogs);
    RangeEndFacts(idx, subprogs, |insns|);
  }

  // ── Successors of one instruction ────────────────────────────────────────

  /** The return sites of the subprogram at `entry` among the first n calls. */
  function ReturnSites(insns: Program, entry: nat, n: nat): seq<nat>
    requires n <= |insns|
  {
    if n == 0 then [] else
      ReturnSites(insns, entry, n - 1) +
      if insns[n - 1].CallSub? && Target(n - 1, insns[n - 1].callOffset) == entry then [n] else []
  }

  lemma {:induction false} ReturnSitesAre(insns: Program, entry: nat, n: nat, v: nat)
    requires n <= |insns|
    ensures v in ReturnSites(insns, entry, n) <==> 0 < v <= n && CallsAt(insns, v - 1, entry)
  {
    if n > 0 {
      ReturnSitesAre(insns, entry, n - 1, v);
    }
  }

  function CheckTarget(idx: nat, target: nat, start: nat, end: nat, insns: Program): Result<(), Failure> {
    if target < start || target >= end then Err(Failure(idx, JumpCrosses))
    else if target < |insns| && insns[target].IsMarker() then Err(Failure(idx, LandsInWide))
    else Ok(())
  }

  function JumpOffset(insn: Insn): I16
    requires insn.Jmp? || insn.IsConditional()
  {
    insn.offset
  }

  function FallThroughCheck(idx: nat, end: nat, nexts: seq<nat>): Result<seq<nat>, Failure> {
    if idx + 1 in nexts && idx + 1 >= end then Err(Failure(idx, FallsThrough)) else Ok(nexts)
  }

  /** `visit_insn` */
  function NextInsns(idx: nat, insns: Program, subprogs: seq<nat>): Result<seq<nat>, Failure>
    requires idx < |insns|
  {
    var start, end := RangeStart(idx, subprogs), RangeEnd(idx, subprogs, |insns|);
    var insn := insns[idx];
    if insn.Exit? then
      FallThroughCheck(idx, end, if start == 0 then [] else ReturnSites(insns, start, |insns|))
    else if insn.Jmp? || insn.IsConditional() then
      var target := Target(idx, JumpOffset(insn));
      match CheckTarget(idx, target, start, end, insns)
      case Err(e) => Err(e)
      case Ok(_) => FallThroughCheck(idx, end, if insn.Jmp? then [target] else [target, idx + 1])
    else if insn.CallSub? then
      var target := Target(idx, insn.callOffset);
      if target !in subprogs then Err(Failure(idx, NotAnEntry)) else FallThroughCheck(idx, end, [target])
    else FallThroughCheck(idx, end, [idx + 1])
  }

  method VisitInsn(idx: nat, insns: Program, subprogs: seq<nat>) returns (r: Result<seq<nat>, Failure>)
    requires idx < |insns|
    ensures r == NextInsns(idx, insns, subprogs)
  {
    var start, end := RangeStart(idx, subprogs), RangeEnd(idx, subprogs, |insns|);
    var nexts: seq<nat> := [];
    var insn := insns[idx];
    if insn.Exit? {
      if start != 0 {
        for pc := 0 to |insns|
          invariant nexts == ReturnSites(insns, start, pc)
        {
          if insns[pc].CallSub? && Target(pc, insns[pc].callOffset) == start {
            nexts := nexts + [pc + 1];
          }
        }
      }
    } else if insn.Jmp? || insn.IsConditional() {
      var target := Target(idx, JumpOffset(insn));
      var check := CheckTarget(idx, target, start, end, insns);
      if check.Err? {
        return Err(check.error);
      }
      nexts := if insn.Jmp? then [target] else [target, idx + 1];
    } else if insn.CallSub? {
      var target := Target(idx, insn.callOffset);
      if target !in subprogs {
        return Err(Failure(idx, NotAnEntry));
      }
      nexts := [target];
    } else {
      nexts := [idx + 1];
    }
    return FallThroughCheck(idx, end, nexts);
  }

  /** The subprogram starting at entry i ends just before entry i + 1. */
  function SubprogEnd(insns: Program, subprogs: seq<nat>, i: nat): nat
    requires i < |subprogs|
  {
    if i + 1 < |subprogs| then subprogs[i + 1] else |insns|
  }

  ghost predicate EndsProperly(insns: Program, subprogs: seq<nat>, i: nat)
    requires i < |subprogs|
  {
    var end := SubprogEnd(insns, subprogs, i);
    0 < end <= |insns| && (insns[end - 1].Exit? || insns[end - 1].Jmp?)
  }

  /** Ending properly means that nothing runs into the next subprogram: the range ends at
      the next entry or with the program, and its last instruction neither goes on nor
      calls. */
  lemma EndsProperlyIs(insns: Program, subprogs: seq<nat>, i: nat)
    requires Entries(insns, subprogs) && i < |subprogs| && insns != []
    ensures var end := SubprogEnd(insns, subprogs, i);
            && subprogs[i] < end <= |insns| && (forall s :: s in subprogs ==> s <= subprogs[i] || end <= s)
            && (EndsProperly(insns, subprogs, i) <==> !GoesOn(insns[end - 1]) && !insns[end - 1].CallSub?)
  {
    var end := SubprogEnd(insns, subprogs, i);
    assert subprogs[i] in subprogs;
    assert i + 1 < |subprogs| ==> subprogs[i + 1] in subprogs;
    forall s | s in subprogs
      ensures s <= subprogs[i] || end <= s
    {
      var j :| 0 <= j < |subprogs| && subprogs[j] == s;
    }
  }

  ghost predicate AllEndProperly(insns: Program, subprogs: seq<nat>) {
    forall i: nat :: i < |subprogs| ==> EndsProperly(insns, subprogs, i)
  }

  ghost function FlowGraph(insns: Program, subprogs: seq<nat>): (g: Graph<Failure>)
    ensures |g| == |insns|
  {
    seq(|insns|, i requires 0 <= i < |insns| => NextInsns(i, insns, subprogs))
  }

  /** The instruction before an entry, and the last one, has no fall-through. */
  lemma BeforeEntry(insns: Program, subprogs: seq<nat>, s: nat)
    requires Entries(insns, subprogs) && AllEndProperly(insns, subprogs) && insns != []
    requires s == |insns| || (s in subprogs && s != 0)
    ensures s > 0 && (insns[s - 1].Exit? || insns[s - 1].Jmp?)
  {
    if s == |insns| {
      assert EndsProperly(insns, subprogs, |subprogs| - 1);
    } else {
      var i :| 0 <= i < |subprogs| && subprogs[i] == s;
      assert EndsProperly(insns, subprogs, i - 1);
    }
  }

  /** No successor of an accepted instruction leaves the program. */
  lemma FlowGraphClosed(insns: Program, subprogs: seq<nat>)
    requires Entries(insns, subprogs) && AllEndProperly(insns, subprogs) && insns != []
    ensures Closed(FlowGraph(insns, subprogs))
  {
    var g := FlowGraph(insns, subprogs);
    forall u: nat, c: nat | u < |g| && g[u].Ok? && c < |g[u].value|
      ensures g[u].value[c] < |g|
    {
      NextInRange(insns, subprogs, u, g[u].value[c]);
    }
  }

  lemma NextInRange(insns: Program, subprogs: seq<nat>, u: nat, v: nat)
    requires Entries(insns, subprogs) && AllEndProperly(insns, subprogs) && u < |insns|
    requires NextInsns(u, insns, subprogs).Ok? && v in NextInsns(u, insns, subprogs).value
    ensures v < |insns|
  {
    hide RangeStart, RangeEnd, ReturnSites, AllEndProperly, Entries;
    SubprogRange(insns, subprogs, u);
    EntryInRange(insns, subprogs, v);
    if insns[u].Exit? {
      ReturnSitesAre(insns, RangeStart(u, subprogs), |insns|, v);
      BeforeEntry(insns, subprogs, |insns|);
    }
  }

  lemma EntryInRange(insns: Program, subprogs: seq<nat>, v: nat)
    requires Entries(insns, subprogs) && insns != []
    ensures v in subprogs ==> v < |insns|
  {
  }

  // ── Which instructions have successors ───────────────────────────────────

  /** An instruction of the same subprogram. */
  ghost predicate SameSubprog(insns: Program, subprogs: seq<nat>, pc: nat, t: int) {
    0 <= t < |insns| && forall s :: s in subprogs ==> (s <= pc <==> s <= t)
  }

  lemma SameRangeIs(insns: Program, subprogs: seq<nat>, pc: nat, t: int)
    requires Entries(insns, subprogs) && pc < |insns|
    ensures SameSubprog(insns, subprogs, pc, t) <==> RangeStart(pc, subprogs) <= t < RangeEnd(pc, subprogs, |insns|)
  {
    SubprogRange(insns, subprogs, pc);
    hide RangeStart, RangeEnd, Entries;
  }

  /** Where a jump may go: in its subprogram, not into the second slot of a wide
      instruction. */
  ghost predicate LegalTarget(insns: Program, subprogs: seq<nat>, pc: nat, t: int) {
    SameSubprog(insns, subprogs, pc, t) && !insns[t].IsMarker()
  }

  predicate GoesOn(insn: Insn) { !insn.Exit? && !insn.Jmp? && !insn.CallSub? }

  /** The reasons an instruction has no successors: an illegal target, or an end of the
      subprogram where it would go on. */
  lemma NextAccepts(insns: Program, subprogs: seq<nat>, pc: nat)
    requires Entries(insns, subprogs) && pc < |insns|
    ensures var insn := insns[pc];
            NextInsns(pc, insns, subprogs).Ok? <==>
              && (insn.Jmp? || insn.IsConditional() ==> LegalTarget(insns, subprogs, pc, pc + 1 + insn.offset))
              && (GoesOn(insn) ==> SameSubprog(insns, subprogs, pc, pc + 1))
              && (insn.CallSub? && insn.callOffset == 0 ==> SameSubprog(insns, subprogs, pc, pc + 1))
  {
    SameRangeIs(insns, subprogs, pc, pc + 1);
    SubprogRange(insns, subprogs, pc);
    hide SameSubprog, RangeStart, RangeEnd, ReturnSites, Entries, LegalTarget, CheckTarget;
    if insns[pc].Exit? {
      ReturnSitesAre(insns, RangeStart(pc, subprogs), |insns|, pc + 1);
    } else if insns[pc].Jmp? || insns[pc].IsConditional() {
      TargetAccepts(insns, subprogs, pc, insns[pc].offset);
      if insns[pc].Jmp? {
        TargetInRange(insns, subprogs, pc, insns[pc].offset);
      }
    } else if insns[pc].CallSub? {
      CalledIsEntry(insns, subprogs, pc);
      WrappedTarget(pc, insns[pc].callOffset, |insns|);
    }
  }

  /** A refused instruction is named, with the reason that comes first. */
  lemma NextRefuses(insns: Program, subprogs: seq<nat>, pc: nat)
    requires Entries(insns, subprogs) && pc < |insns| && NextInsns(pc, insns, subprogs).Err?
    ensures var insn := insns[pc];
            NextInsns(pc, insns, subprogs).error == Failure(pc,
              if !insn.Jmp? && !insn.IsConditional() then FallsThrough
              else if !SameSubprog(insns, subprogs, pc, pc + 1 + insn.offset) then JumpCrosses
              else if insns[pc + 1 + insn.offset].IsMarker() then LandsInWide
              else FallsThrough)
  {
    SameRangeIs(insns, subprogs, pc, pc + 1);
    SubprogRange(insns, subprogs, pc);
    hide SameSubprog, RangeStart, RangeEnd, ReturnSites, Entries;
    if insns[pc].Jmp? || insns[pc].IsConditional() {
      SameRangeIs(insns, subprogs, pc, pc + 1 + insns[pc].offset);
      SameInside(insns, subprogs, pc, pc + 1 + insns[pc].offset);
      WrappedTarget(pc, insns[pc].offset, |insns|);
    } else if insns[pc].CallSub? {
      CalledIsEntry(insns, subprogs, pc);
    }
  }

  lemma TargetAccepts(insns: Program, subprogs: seq<nat>, pc: nat, offset: I16)
    requires Entries(insns, subprogs) && pc < |insns|
    ensures var start, end := RangeStart(pc, subprogs), RangeEnd(pc, subprogs, |insns|);
            CheckTarget(pc, Target(pc, offset), start, end, insns).Ok? <==>
              LegalTarget(insns, subprogs, pc, pc + 1 + offset)
  {
    hide SameSubprog, RangeStart, RangeEnd, Target;
    SameRangeIs(insns, subprogs, pc, pc + 1 + offset);
    SubprogRange(insns, subprogs, pc);
    WrappedTarget(pc, offset, |insns|);
    SameInside(insns, subprogs, pc, pc + 1 + offset);
  }

  lemma SameInside(insns: Program, subprogs: seq<nat>, pc: nat, t: int)
    ensures SameSubprog(insns, subprogs, pc, t) ==> 0 <= t < |insns|
  {
  }

  /** A legal target is below the end of the range. */
  lemma TargetInRange(insns: Program, subprogs: seq<nat>, pc: nat, offset: I16)
    requires pc < |insns|
    ensures var start, end := RangeStart(pc, subprogs), RangeEnd(pc, subprogs, |insns|);
            CheckTarget(pc, Target(pc, offset), start, end, insns).Ok? ==> Target(pc, offset) < end
  {
    hide RangeStart, RangeEnd, Target;
  }

  lemma CalledIsEntry(insns: Program, subprogs: seq<nat>, pc: nat)
    requires Entries(insns, subprogs) && pc < |insns| && insns[pc].CallSub?
    ensures Target(pc, insns[pc].callOffset) in subprogs && Target(pc, insns[pc].callOffset) < |insns|
  {
    assert CallsAt(insns, pc, Target(pc, insns[pc].callOffset));
  }

  lemma WrappedTarget(pc: U32, offset: int, n: nat)
    requires pc < n < TWO31 && -TWO31 <= offset < TWO31
    ensures if 0 <= pc + 1 + offset then Target(pc, offset) == pc + 1 + offset else Target(pc, offset) >= n
  {
  }

  // ── The search ───────────────────────────────────────────────────────────

  /** Everything an accepted program satisfies. */
  ghost predicate Accepted(insns: Program, subprogs: seq<nat>) {
    && insns != [] && AllEndProperly(insns, subprogs)
    && forall i: nat :: i < |insns| ==> Reachable(FlowGraph(insns, subprogs), i) && FlowGraph(insns, subprogs)[i].Ok?
  }

  /** The loop heads: one on every cycle, each on a cycle. */
  ghost predicate LoopHeads(g: Graph<Failure>, heads: seq<nat>) {
    && (forall p :: Cycle(g, p) ==> exists h :: h in heads && h in p)
    && (forall h :: h in heads ==> OnCycle(g, h))
  }

  ghost predicate Justified(insns: Program, subprogs: seq<nat>, f: Failure) {
    var g := FlowGraph(insns, subprogs);
    match f.reason
    case EmptyProgram => insns == []
    case BadEnding =>
      exists i: nat :: i < |subprogs| && f.pc == SubprogEnd(insns, subprogs, i) - 1 && !EndsProperly(insns, subprogs, i)
    case Unreachable => f.pc < |insns| && !Reachable(g, f.pc)
    case _ => f.pc < |insns| && Reachable(g, f.pc) && g[f.pc] == Err(f)
  }

  /** `check_cfg`: terminates, indexes only inside the program, and decides
      acceptance exactly; an error names an instruction that really has the
      reported defect. */
  method CheckCfg(insns: Program, subprogs: seq<nat>) returns (r: Result<seq<nat>, Failure>)
    requires Entries(insns, subprogs)
    ensures r.Ok? <==> Accepted(insns, subprogs)
    ensures r.Ok? ==> LoopHeads(FlowGraph(insns, subprogs), r.value)
    ensures r.Err? ==> Justified(insns, subprogs, r.error)
  {
    if insns == [] {
      return Err(Failure(0, EmptyProgram));
    }
    for i := 0 to |subprogs|
      invariant forall j: nat :: j < i ==> EndsProperly(insns, subprogs, j)
    {
      var end := SubprogEnd(insns, subprogs, i);
      EntryEnd(insns, subprogs, i);
      if !(insns[end - 1].Exit? || insns[end - 1].Jmp?) {
        assert !EndsProperly(insns, subprogs, i);
        return Err(Failure(end - 1, BadEnding));
      }
    }
    r := DepthFirst(insns, subprogs);
  }

  lemma EntryEnd(insns: Program, subprogs: seq<nat>, i: nat)
    requires Entries(insns, subprogs) && insns != [] && i < |subprogs|
    ensures 0 < SubprogEnd(insns, subprogs, i) <= |insns|
  {
    if i + 1 < |subprogs| {
      assert subprogs[i + 1] in subprogs;
    }
  }

  method DepthFirst(insns: Program, subprogs: seq<nat>) returns (r: Result<seq<nat>, Failure>)
    requires Entries(insns, subprogs) && AllEndProperly(insns, subprogs) && insns != []
    ensures r.Ok? <==> Accepted(insns, subprogs)
    ensures r.Ok? ==> LoopHeads(FlowGraph(insns, subprogs), r.value)
    ensures r.Err? ==> Justified(insns, subprogs, r.error)
  {
    hide Inv, NextInsns, AllEndProperly, Entries, SearchStep, Unseen, Work, Shape, Linked;
    ghost var g := FlowGraph(insns, subprogs);
    FlowGraphClosed(insns, subprogs);
    var state := new Color[|insns|](_ => NotVisited);
    var stack: seq<(nat, nat)> := [(0, 0)];
    var heads: seq<nat> := [];
    state[0] := Discovering;
    ghost var s := Search(state[..], stack, heads, seq(|g|, _ => 0), 0);
    InvInit(g, state[..]);
    while stack != []
      invariant Inv(g, s)
      invariant s.color == state[..] && s.stack == stack && s.heads == heads
      decreases Unseen(s.color), Work(g, s.stack)
    {
      var (idx, child) := stack[|stack| - 1];
      InvTop(g, s);
      InvParts(g, s);
      stack := stack[..|stack| - 1];
      var nexts := VisitInsn(idx, insns, subprogs);
      if nexts.Err? {
        VisitErrorNames(insns, subprogs, idx);
        return Err(nexts.error);
      }
      assert Top(g, s, idx, child);
      ghost var next := SearchStep(g, s, idx, child);
      SearchStepKeeps(g, s, idx, child);
      if child < |nexts.value| {
        stack := stack + [(idx, child + 1)];
        var nxt := nexts.value[child];
        match state[nxt] {
          case NotVisited =>
            state[nxt] := Discovering;
            stack := stack + [(nxt, 0)];
          case Discovering =>
            if nxt !in heads {
              heads := heads + [nxt];
            }
          case Explored =>
        }
      } else {
        state[idx] := Explored;
      }
      s := next;
    }
    for i := 0 to |insns|
      invariant s.color == state[..]
      invariant forall j: nat :: j < i ==> !s.color[j].NotVisited?
    {
      if state[i] == NotVisited {
        FinishedIsReachable(g, s, i);
        return Err(Failure(i, Unreachable));
      }
    }
    SearchEnds(insns, subprogs, s);
    return Ok(heads);
  }

  lemma InvTop(g: Graph<Failure>, s: Search)
    requires Inv(g, s) && s.stack != []
    ensures var (u, child) := s.stack[|s.stack| - 1];
            u < |g| == |s.color| == |s.fin| && Reachable(g, u) && s.color[u].Discovering?
  {
    StackIsGray(g, s, |s.stack| - 1);
  }

  lemma InvParts(g: Graph<Failure>, s: Search)
    requires Inv(g, s)
    ensures Sized(g, s) && Shape(g, s) && Linked(g, s) && Closed(g)
  {
  }

  lemma VisitErrorNames(insns: Program, subprogs: seq<nat>, idx: nat)
    requires Entries(insns, subprogs) && idx < |insns| && NextInsns(idx, insns, subprogs).Err?
    requires Reachable(FlowGraph(insns, subprogs), idx)
    ensures Justified(insns, subprogs, NextInsns(idx, insns, subprogs).error)
    ensures !Accepted(insns, subprogs)
  {
    hide RangeStart, RangeEnd, ReturnSites;
    assert FlowGraph(insns, subprogs)[idx] == NextInsns(idx, insns, subprogs);
  }

  /** One round of the loop: the top entry hands out a child or finishes. */
  ghost function SearchStep(g: Graph<Failure>, s: Search, u: nat, child: nat): Search
    requires Sized(g, s) && Closed(g) && Top(g, s, u, child)
  {
    if child >= |g[u].value| then Finish(s, u) else
      var v := g[u].value[child];
      if s.color[v].NotVisited? then Push(s, v)
      else if s.color[v].Discovering? then Advance(AddHead(s, v))
      else Advance(s)
  }

  lemma SearchStepKeeps(g: Graph<Failure>, s: Search, u: nat, child: nat)
    requires Inv(g, s) && Sized(g, s) && Closed(g) && Top(g, s, u, child)
    ensures Inv(g, SearchStep(g, s, u, child))
    ensures StepFields(g, s, u, child, SearchStep(g, s, u, child))
  {
    hide Inv, Unseen, Work, Shape, Linked;
    var r := SearchStep(g, s, u, child);
    if child >= |g[u].value| {
      InvTop(g, s);
      FinishKeeps(g, s, u, child);
      FinishIs(g, s, u);
    } else {
      var v := g[u].value[child];
      InvParts(g, s);
      StepWork(g, s, u, child, v);
      match s.color[v] {
        case NotVisited => PushKeeps(g, s, u, child, v);
        case Discovering =>
          BackEdgeCycle(g, s, u, child, v);
          HeadKeeps(g, s, v);
          AdvanceKeeps(g, AddHead(s, v), u, child, v);
        case Explored => AdvanceKeeps(g, s, u, child, v);
      }
    }
  }

  /** The search variables after one round, and the progress it makes. */
  ghost predicate StepFields(g: Graph<Failure>, s: Search, u: nat, child: nat, r: Search)
    requires Sized(g, s) && Closed(g) && Top(g, s, u, child)
  {
    var below := s.stack[..|s.stack| - 1];
    && (Unseen(r.color) < Unseen(s.color)
        || (Unseen(r.color) == Unseen(s.color) && Work(g, r.stack) < Work(g, s.stack)))
    && if child >= |g[u].value| then
         r.color == s.color[u := Explored] && r.stack == below && r.heads == s.heads
       else
         var v := g[u].value[child];
         if s.color[v].NotVisited? then
           r.color == s.color[v := Discovering] && r.stack == below + [(u, child + 1)] + [(v, 0)] && r.heads == s.heads
         else
           && r.color == s.color && r.stack == below + [(u, child + 1)]
           && r.heads == if s.color[v].Discovering? && v !in s.heads then s.heads + [v] else s.heads
  }

  lemma StepWork(g: Graph<Failure>, s: Search, u: nat, child: nat, v: nat)
    requires Top(g, s, u, child) && child < |g[u].value| && v < |s.color|
    ensures s.color[v].NotVisited? ==> Unseen(Push(s, v).color) < Unseen(s.color)
    ensures Work(g, Advance(s).stack) < Work(g, s.stack)
  {
    WorkAdvance(g, s, u, child);
    UnseenUpdate(s.color, v, Discovering);
    assert Push(s, v).color == s.color[v := Discovering];
    hide Work, Unseen;
  }

  lemma FinishIs(g: Graph<Failure>, s: Search, u: nat)
    requires |s.stack| > 0 && u < |s.color| == |s.fin| && !s.color[u].NotVisited?
    ensures Unseen(Finish(s, u).color) == Unseen(s.color)
    ensures Work(g, Finish(s, u).stack) < Work(g, s.stack)
  {
    UnseenUpdate(s.color, u, Explored);
  }

  lemma SearchEnds(insns: Program, subprogs: seq<nat>, s: Search)
    requires Entries(insns, subprogs) && AllEndProperly(insns, subprogs) && insns != []
    requires Inv(FlowGraph(insns, subprogs), s) && s.stack == []
    requires forall j: nat :: j < |insns| && j < |s.color| ==> !s.color[j].NotVisited?
    ensures Accepted(insns, subprogs) && LoopHeads(FlowGraph(insns, subprogs), s.heads)
  {
    hide NextInsns;
    var g := FlowGraph(insns, subprogs);
    forall i: nat | i < |insns|
      ensures Reachable(g, i) && g[i].Ok? && s.color[i].Explored?
    {
      assert !OnStack(s, i);
      FinishedIsReachable(g, s, i);
    }
    forall p | Cycle(g, p)
      ensures exists h :: h in s.heads && h in p
    {
      CycleHasHead(g, s, p);
    }
  }
}
