/** Static liveness (`src/liveness.rs`): an in-place dataflow iteration whose result
    is exactly the path-based liveness of registers and stack slots. Bit masks are
    modelled as sets of bit positions. */
module Liveness {
  import opened Words
  import opened Insn

  // ── Dataflow over a graph ────────────────────────────────────────────────

  /** Successors, uses and definite definitions of each instruction. */
  datatype Flow = Flow(succs: seq<seq<nat>>, uses: seq<set<int>>, defs: seq<set<int>>) {
    ghost predicate Valid() {
      && |uses| == |succs| && |defs| == |succs|
      && (forall i, j :: 0 <= i < |succs| && 0 <= j < |succs[i]| ==> succs[i][j] < |succs|)
      && (forall i :: 0 <= i < |succs| ==> uses[i] <= Universe())
    }
  }

  /** The bit positions below n. */
  function UpTo(n: nat): (s: set<int>)
    ensures forall x :: x in s <==> 0 <= x < n
    ensures |s| == n
  {
    if n == 0 then {} else UpTo(n - 1) + {n - 1}
  }

  function Universe(): set<int> { UpTo(64) }

  /** A path along the edges that reads x at its end and defines it nowhere before. */
  ghost predicate LivePath(f: Flow, path: seq<nat>, x: int)
    requires f.Valid()
  {
    && path != [] && (forall k :: 0 <= k < |path| ==> path[k] < |f.succs|)
    && (forall k: nat :: k + 1 < |path| ==> Onward(f, path, x, k))
    && x in f.uses[path[|path| - 1]]
  }

  /** The k-th step of the path is an edge, from an instruction that does not define x. */
  ghost predicate Onward(f: Flow, path: seq<nat>, x: int, k: nat)
    requires f.Valid() && k + 1 < |path| && path[k] < |f.succs|
  {
    path[k + 1] in f.succs[path[k]] && x !in f.defs[path[k]]
  }

  /** x may be read before it is defined when running from i. */
  ghost predicate Live(f: Flow, i: nat, x: int)
    requires f.Valid() && i < |f.succs|
  {
    exists path: seq<nat> :: LivePath(f, path, x) && path[0] == i
  }

  ghost predicate LiveAfter(f: Flow, i: nat, x: int)
    requires f.Valid() && i < |f.succs|
  {
    exists j :: 0 <= j < |f.succs[i]| && Live(f, f.succs[i][j], x)
  }

  lemma PathTail(f: Flow, path: seq<nat>, x: int)
    requires f.Valid() && LivePath(f, path, x) && |path| > 1
    ensures LivePath(f, path[1..], x) && x !in f.defs[path[0]] && path[1] in f.succs[path[0]]
  {
    var tail := path[1..];
    assert Onward(f, path, x, 0);
    forall k: nat | k + 1 < |tail|
      ensures Onward(f, tail, x, k)
    {
      assert Onward(f, path, x, k + 1);
    }
  }

  lemma PathPrepend(f: Flow, i: nat, path: seq<nat>, x: int)
    requires f.Valid() && i < |f.succs| && LivePath(f, path, x) && x !in f.defs[i] && path[0] in f.succs[i]
    ensures LivePath(f, [i] + path, x)
  {
    hide Universe;
    var longer := [i] + path;
    forall k: nat | k + 1 < |longer|
      ensures Onward(f, longer, x, k)
    {
      assert k > 0 ==> Onward(f, path, x, k - 1);
    }
  }

  /** Path liveness solves the equation in = (out \\ def) + use. */
  lemma LiveEquation(f: Flow, i: nat, x: int)
    requires f.Valid() && i < |f.succs|
    ensures Live(f, i, x) <==> x in f.uses[i] || (x !in f.defs[i] && LiveAfter(f, i, x))
  {
    hide Universe;
    if Live(f, i, x) && x !in f.uses[i] {
      var path: seq<nat> :| LivePath(f, path, x) && path[0] == i;
      PathTail(f, path, x);
      var j :| 0 <= j < |f.succs[i]| && f.succs[i][j] == path[1];
      assert path[1..][0] == path[1];
      assert Live(f, f.succs[i][j], x);
    }
    if x in f.uses[i] {
      assert LivePath(f, [i], x);
    } else if x !in f.defs[i] && LiveAfter(f, i, x) {
      var j :| 0 <= j < |f.succs[i]| && Live(f, f.succs[i][j], x);
      var path: seq<nat> :| LivePath(f, path, x) && path[0] == f.succs[i][j];
      PathPrepend(f, i, path, x);
      assert ([i] + path)[0] == i;
    }
  }

  /** The union of the in-sets of the successors. */
  function Union(ins: seq<set<int>>, ss: seq<nat>): set<int>
    requires forall j :: 0 <= j < |ss| ==> ss[j] < |ins|
  {
    if ss == [] then {} else Union(ins, ss[..|ss| - 1]) + ins[ss[|ss| - 1]]
  }

  lemma {:induction false} UnionMembers(ins: seq<set<int>>, ss: seq<nat>, x: int)
    requires forall j :: 0 <= j < |ss| ==> ss[j] < |ins|
    ensures x in Union(ins, ss) <==> exists j :: 0 <= j < |ss| && x in ins[ss[j]]
    decreases |ss|
  {
    if ss != [] {
      UnionMembers(ins, ss[..|ss| - 1], x);
    }
  }

  function Transfer(f: Flow, i: nat, o: set<int>): set<int>
    requires i < |f.defs| && i < |f.uses|
  {
    (o - f.defs[i]) + f.uses[i]
  }

  /** A solution of the equations for every instruction. */
  ghost predicate Solves(f: Flow, ins: seq<set<int>>)
    requires f.Valid()
  {
    |ins| == |f.succs| && forall i :: 0 <= i < |ins| ==> ins[i] == Transfer(f, i, Union(ins, f.succs[i]))
  }

  /** Path liveness is below every solution. */
  lemma {:induction false} LeastSolution(f: Flow, ins: seq<set<int>>, path: seq<nat>, x: int)
    requires f.Valid() && Solves(f, ins) && LivePath(f, path, x)
    ensures x in ins[path[0]]
    decreases |path|
  {
    hide Union;
    var i := path[0];
    if |path| > 1 && x !in f.uses[i] {
      PathTail(f, path, x);
      LeastSolution(f, ins, path[1..], x);
      UnionMembers(ins, f.succs[i], x);
    }
  }

  ghost predicate OnlyLive(f: Flow, ins: seq<set<int>>)
    requires f.Valid() && |ins| == |f.succs|
  {
    forall i: nat, x: int :: i < |ins| && x in ins[i] ==> Live(f, i, x)
  }

  ghost predicate ExactlyLive(f: Flow, ins: seq<set<int>>)
    requires f.Valid()
  {
    |ins| == |f.succs| && forall i: nat, x: int :: i < |ins| ==> (x in ins[i] <==> Live(f, i, x))
  }

  /** A solution holding only live facts is path liveness. */
  lemma SolutionIsLiveness(f: Flow, ins: seq<set<int>>)
    requires f.Valid() && Solves(f, ins) && OnlyLive(f, ins)
    ensures ExactlyLive(f, ins)
  {
    forall i: nat, x: int | i < |ins| && Live(f, i, x)
      ensures x in ins[i]
    {
      LiveInSolution(f, ins, i, x);
    }
  }

  // ── The iteration ────────────────────────────────────────────────────────

  /** What the loop keeps about one family of masks. */
  ghost predicate FlowInv(f: Flow, ins: seq<set<int>>, outs: seq<set<int>>)
    requires f.Valid()
  {
    && |ins| == |f.succs| && |outs| == |f.succs| && OnlyLive(f, ins)
    && (forall i :: 0 <= i < |ins| ==> ins[i] <= Universe() && outs[i] <= Universe())
    && (forall i :: 0 <= i < |ins| ==> outs[i] <= Union(ins, f.succs[i]) && ins[i] <= Transfer(f, i, outs[i]))
  }

  lemma UnionMono(a: seq<set<int>>, b: seq<set<int>>, ss: seq<nat>)
    requires |a| == |b| && forall i :: 0 <= i < |a| ==> a[i] <= b[i]
    requires forall j :: 0 <= j < |ss| ==> ss[j] < |a|
    ensures Union(a, ss) <= Union(b, ss)
  {
    forall x | x in Union(a, ss)
      ensures x in Union(b, ss)
    {
      UnionMembers(a, ss, x);
      UnionMembers(b, ss, x);
    }
  }

  lemma UnionBound(ins: seq<set<int>>, ss: seq<nat>)
    requires forall j :: 0 <= j < |ss| ==> ss[j] < |ins|
    requires forall i :: 0 <= i < |ins| ==> ins[i] <= Universe()
    ensures Union(ins, ss) <= Universe()
  {
    hide Universe;
    forall x | x in Union(ins, ss)
      ensures x in Universe()
    {
      UnionMembers(ins, ss, x);
    }
  }

  lemma TransferOnlyLive(f: Flow, ins: seq<set<int>>, i: nat, x: int)
    requires f.Valid() && |ins| == |f.succs| && OnlyLive(f, ins) && i < |ins|
    requires x in Transfer(f, i, Union(ins, f.succs[i]))
    ensures Live(f, i, x)
  {
    hide Union, Live;
    LiveEquation(f, i, x);
    if x !in f.uses[i] {
      UnionMembers(ins, f.succs[i], x);
      var j :| 0 <= j < |f.succs[i]| && x in ins[f.succs[i][j]];
      assert Live(f, f.succs[i][j], x);
    }
  }

  /** Recomputing one instruction only adds live facts. */
  lemma RecomputeGrows(f: Flow, ins: seq<set<int>>, outs: seq<set<int>>, i: nat)
    requires f.Valid() && FlowInv(f, ins, outs) && i < |ins|
    ensures var o := Union(ins, f.succs[i]);
            && ins[i] <= Transfer(f, i, o) && outs[i] <= o
            && FlowInv(f, ins[i := Transfer(f, i, o)], outs[i := o])
  {
    hide Union, Universe, Live;
    var o := Union(ins, f.succs[i]);
    var ins', outs' := ins[i := Transfer(f, i, o)], outs[i := o];
    UnionBound(ins, f.succs[i]);
    forall k: nat | k < |ins|
      ensures outs'[k] <= Union(ins', f.succs[k])
    {
      UnionMono(ins, ins', f.succs[k]);
    }
    forall k: nat, x: int | k < |ins'| && x in ins'[k]
      ensures Live(f, k, x)
    {
      if k == i {
        TransferOnlyLive(f, ins, i, x);
      }
    }
  }

  // ── Termination: the masks only grow ─────────────────────────────────────

  function Weight(s: seq<set<int>>): nat { if s == [] then 0 else Weight(s[..|s| - 1]) + |s[|s| - 1]| }

  lemma SubsetSize(a: set<int>, b: set<int>)
    requires a <= b
    ensures |a| <= |b| && (|a| == |b| ==> a == b)
  {
    var rest := b - a;
    assert b == a + rest && a !! rest;
    assert |b| == |a| + |rest|;
    if |rest| == 0 {
      assert b == a;
    }
  }

  lemma {:induction false} WeightMono(s: seq<set<int>>, t: seq<set<int>>)
    requires |s| == |t| && forall i :: 0 <= i < |s| ==> s[i] <= t[i]
    ensures Weight(s) <= Weight(t) && (Weight(s) == Weight(t) ==> s == t)
    decreases |s|
  {
    if s != [] {
      var last := |s| - 1;
      WeightMono(s[..last], t[..last]);
      SubsetSize(s[last], t[last]);
      assert s == s[..last] + [s[last]] && t == t[..last] + [t[last]];
    }
  }

  lemma {:induction false} WeightBound(s: seq<set<int>>)
    requires forall i :: 0 <= i < |s| ==> s[i] <= Universe()
    ensures Weight(s) <= 64 * |s|
    decreases |s|
  {
    if s != [] {
      WeightBound(s[..|s| - 1]);
      SubsetSize(s[|s| - 1], Universe());
    }
  }

  // ── Uses and definitions of an instruction ───────────────────────────────

  datatype UseDef = UseDef(useRegs: set<int>, defRegs: set<int>, readSlots: set<int>, writeSlots: set<int>)

  /** The slot of an aligned access inside the frame. */
  function FixedSlot(offset: I16): (slot: Option<nat>)
    ensures slot.Some? ==> slot.value < 64
  {
    if offset >= 0 || offset < -512 || offset % 8 != 0 then None else Some((-offset - 1) / 8)
  }

  /** Every slot when the target is not r10 plus an aligned offset. */
  function ReadSlotsFor(base: Reg, offset: I16): set<int> {
    if base == 10 && FixedSlot(offset).Some? then {FixedSlot(offset).value} else Universe()
  }

  /** Only a whole-slot store at r10 plus a constant surely overwrites. */
  function WriteSlotsFor(base: Reg, offset: I16, size: MemSize): set<int> {
    if base == 10 && size.B64? && FixedSlot(offset).Some? then {FixedSlot(offset).value} else {}
  }

  /** The registers an instruction reads. */
  function UseRegs(insn: Insn): set<int> {
    if insn.MovReg? || insn.Mov32Reg? then {insn.src}
    else if insn.AluImm? || insn.NegReg? || insn.JCondImm? || insn.JsetImm? then {insn.dst}
    else if insn.AluReg? || insn.JCond? || insn.Jset? then {insn.dst, insn.src}
    else if insn.LdMem? || insn.StMemImm? then {insn.base}
    else if insn.StMem? then {insn.src, insn.base}
    else if insn.Call? || insn.CallSub? then {1, 2, 3, 4, 5}
    else if insn.Exit? then {0}
    else {}
  }

  /** Instructions whose only definition is their destination. */
  predicate DefinesDst(insn: Insn) {
    || insn.MovImm? || insn.Mov32Imm? || insn.MovReg? || insn.Mov32Reg? || insn.AluImm? || insn.AluReg? || insn.NegReg?
    || insn.LdMem? || insn.LdImm64? || insn.LdMapFd? || insn.LdMapValue?
  }

  /** The registers it surely overwrites; calls clobber r0..r5. */
  function DefRegs(insn: Insn): set<int> {
    if DefinesDst(insn) then {insn.dst}
    else if insn.Call? || insn.CallSub? then {0, 1, 2, 3, 4, 5}
    else {}
  }

  function ReadSlots(insn: Insn): set<int> { if insn.LdMem? then ReadSlotsFor(insn.base, insn.offset) else {} }

  function WriteSlots(insn: Insn): set<int> {
    if insn.StMem? || insn.StMemImm? then WriteSlotsFor(insn.base, insn.offset, insn.size) else {}
  }

  /** `use_def` */
  function UsesAndDefs(insn: Insn): UseDef { UseDef(UseRegs(insn), DefRegs(insn), ReadSlots(insn), WriteSlots(insn)) }

  // ── Static successors ────────────────────────────────────────────────────

  function CallTarget(program: Program, pc: nat): nat
    requires pc < |program| && program[pc].CallSub?
  {
    Wrap32(pc + 1 + program[pc].callOffset)
  }

  /** The greatest subprogram start at or before i among the first k calls. */
  function LastStart(program: Program, i: nat, k: nat): nat
    requires k <= |program|
  {
    if k == 0 then 0 else
      var before := LastStart(program, i, k - 1);
      if program[k - 1].CallSub? && before < CallTarget(program, k - 1) <= i then CallTarget(program, k - 1) else before
  }

  /** `subprog_entry_at`: none for the main program. */
  function SubprogEntryAt(program: Program, i: nat): Option<nat> {
    var start := LastStart(program, i, |program|);
    if start == 0 then None else Some(start)
  }

  /** Where an exit of the subprogram may return to. */
  function ReturnSites(program: Program, start: nat, k: nat): seq<nat>
    requires k <= |program|
  {
    if k == 0 then [] else
      ReturnSites(program, start, k - 1) +
      if program[k - 1].CallSub? && CallTarget(program, k - 1) == start then [k] else []
  }

  function IfInside(program: Program, target: int): seq<nat> { if 0 <= target < |program| then [target] else [] }

  /** `static_successors` */
  function StaticSuccessors(program: Program, i: nat): seq<nat>
    requires i < |program|
  {
    var insn := program[i];
    if insn.Exit? then
      (if i != 0 && SubprogEntryAt(program, i).Some?
          then ReturnSites(program, SubprogEntryAt(program, i).value, |program|) else [])
    else if insn.CallSub? then IfInside(program, i + 1 + insn.callOffset)
    else if insn.Jmp? then IfInside(program, i + 1 + insn.offset)
    else if insn.IsConditional() then IfInside(program, i + 1) + IfInside(program, i + 1 + insn.offset)
    else IfInside(program, i + 1)
  }

  /** The same successors pushed one by one, the return sites in a loop. */
  method PushSuccessors(program: Program, i: nat) returns (succ: seq<nat>)
    requires i < |program|
    ensures succ == StaticSuccessors(program, i)
  {
    succ := [];
    var insn := program[i];
    if insn.Exit? {
      if i != 0 && SubprogEntryAt(program, i).Some? {
        var start := SubprogEntryAt(program, i).value;
        for pc := 0 to |program|
          invariant succ == ReturnSites(program, start, pc)
        {
          if program[pc].CallSub? && CallTarget(program, pc) == start {
            succ := succ + [pc + 1];
          }
        }
      }
    } else if insn.CallSub? {
      succ := IfInside(program, i + 1 + insn.callOffset);
    } else if insn.Jmp? {
      succ := IfInside(program, i + 1 + insn.offset);
    } else if insn.IsConditional() {
      if i + 1 < |program| {
        succ := succ + [i + 1];
      }
      if 0 <= i + 1 + insn.offset < |program| {
        succ := succ + [i + 1 + insn.offset];
      }
    } else if i + 1 < |program| {
      succ := succ + [i + 1];
    }
  }

  /** An exit of subprogram `start` past the first instruction. */
  predicate ExitOf(program: Program, i: nat, start: nat) {
    0 < i < |program| && program[i].Exit? && SubprogEntryAt(program, i) == Some(start)
  }

  /** No exit returns behind the last instruction: that one is no call, or nothing
      in the subprogram it calls exits. */
  ghost predicate ReturnsInside(program: Program) {
    program != [] && program[|program| - 1].CallSub? ==>
      (var start := CallTarget(program, |program| - 1);
       forall i: nat :: !ExitOf(program, i, start))
  }

  lemma {:induction false} ReturnSitesInside(program: Program, start: nat, k: nat)
    requires k <= |program|
    ensures forall s :: s in ReturnSites(program, start, k) <==>
              0 < s <= k && program[s - 1].CallSub? && CallTarget(program, s - 1) == start
    decreases k
  {
    hide LastStart, Wrap32;
    if k > 0 {
      ReturnSitesInside(program, start, k - 1);
    }
  }

  ghost predicate SuccessorInside(program: Program, i: nat)
    requires i < |program|
  {
    forall s :: s in StaticSuccessors(program, i) ==> s < |program|
  }

  /** That is exactly when every successor has an entry in the masks; otherwise the
      source indexes past them. */
  lemma ReturnsInsideExact(program: Program)
    ensures ReturnsInside(program) <==> forall i: nat :: i < |program| ==> SuccessorInside(program, i)
  {
    hide LastStart, ReturnSites, CallTarget, StaticSuccessors;
    if ReturnsInside(program) {
      forall i: nat | i < |program|
        ensures SuccessorInside(program, i)
      {
        SuccessorsInside(program, i);
      }
    } else {
      var i: nat :| ExitOf(program, i, CallTarget(program, |program| - 1));
      ExitSuccessors(program, i, CallTarget(program, |program| - 1));
      ReturnSitesInside(program, CallTarget(program, |program| - 1), |program|);
      assert |program| in StaticSuccessors(program, i);
      assert !SuccessorInside(program, i);
    }
  }

  lemma ExitSuccessors(program: Program, i: nat, start: nat)
    requires ExitOf(program, i, start)
    ensures StaticSuccessors(program, i) == ReturnSites(program, start, |program|)
  {
    hide SubprogEntryAt, ReturnSites;
  }

  lemma SuccessorsInside(program: Program, i: nat)
    requires i < |program| && ReturnsInside(program)
    ensures SuccessorInside(program, i)
    ensures forall j :: 0 <= j < |StaticSuccessors(program, i)| ==> StaticSuccessors(program, i)[j] < |program|
  {
    hide SubprogEntryAt, CallTarget, ReturnSites;
    if program[i].Exit? && i != 0 && SubprogEntryAt(program, i).Some? {
      var start := SubprogEntryAt(program, i).value;
      var sites := ReturnSites(program, start, |program|);
      assert ExitOf(program, i, start);
      ExitSuccessors(program, i, start);
      ReturnSitesInside(program, start, |program|);
      forall s | s in sites
        ensures s < |program|
      {
      }
      assert forall j :: 0 <= j < |sites| ==> sites[j] in sites;
    }
  }

  function SuccLists(program: Program): seq<seq<nat>> {
    seq(|program|, i requires 0 <= i < |program| => StaticSuccessors(program, i))
  }

  function RegFlow(program: Program): Flow {
    Flow(SuccLists(program),
         seq(|program|, i requires 0 <= i < |program| => UsesAndDefs(program[i]).useRegs),
         seq(|program|, i requires 0 <= i < |program| => UsesAndDefs(program[i]).defRegs))
  }

  function SlotFlow(program: Program): Flow {
    Flow(SuccLists(program),
         seq(|program|, i requires 0 <= i < |program| => UsesAndDefs(program[i]).readSlots),
         seq(|program|, i requires 0 <= i < |program| => UsesAndDefs(program[i]).writeSlots))
  }

  lemma FlowsValid(program: Program)
    requires ReturnsInside(program)
    ensures RegFlow(program).Valid() && SlotFlow(program).Valid()
    ensures |RegFlow(program).succs| == |SlotFlow(program).succs| == |program|
  {
    hide StaticSuccessors, Universe, UsesAndDefs;
    forall i: nat | i < |program|
      ensures forall j :: 0 <= j < |StaticSuccessors(program, i)| ==> StaticSuccessors(program, i)[j] < |program|
    {
      SuccessorsInside(program, i);
    }
    forall i: nat | i < |program|
      ensures UsesAndDefs(program[i]).useRegs <= Universe() && UsesAndDefs(program[i]).readSlots <= Universe()
    {
      UsesBounded(program[i]);
    }
  }

  lemma UsesBounded(insn: Insn)
    ensures UsesAndDefs(insn).useRegs <= Universe() && UsesAndDefs(insn).readSlots <= Universe()
  {
    hide Universe;
    RegsBelow(insn);
    if insn.LdMem? {
      SlotsBelow(insn.base, insn.offset);
    }
  }

  lemma RegsBelow(insn: Insn)
    ensures UsesAndDefs(insn).useRegs <= Universe()
  {
    hide ReadSlots, WriteSlots, DefRegs, Universe, UpTo;
    var u := UsesAndDefs(insn).useRegs;
    if insn.Call? || insn.CallSub? {
      assert u == {1, 2, 3, 4, 5};
    } else {
      assert forall x :: x in u ==> 0 <= x < 11;
    }
    AllSmall(u);
  }

  lemma AllSmall(s: set<int>)
    requires forall x :: x in s ==> 0 <= x < 64
    ensures s <= Universe()
  {
  }

  lemma SlotsBelow(base: Reg, offset: I16)
    ensures ReadSlotsFor(base, offset) <= Universe()
  {
    hide FixedSlot;
  }

  ghost predicate Below(a: seq<set<int>>, b: seq<set<int>>) { |a| == |b| && forall i :: 0 <= i < |a| ==> a[i] <= b[i] }

  lemma BelowTrans(a: seq<set<int>>, b: seq<set<int>>, c: seq<set<int>>)
    requires Below(a, b) && Below(b, c)
    ensures Below(a, c) && (a == c ==> b == c)
  {
    if a == c {
      assert forall i :: 0 <= i < |a| ==> b[i] == c[i];
    }
  }

  function NewIn(f: Flow, ins: seq<set<int>>, i: nat): seq<set<int>>
    requires i < |ins| && i < |f.succs| && i < |f.defs| && i < |f.uses|
    requires forall j :: 0 <= j < |f.succs[i]| ==> f.succs[i][j] < |ins|
  {
    ins[i := Transfer(f, i, Union(ins, f.succs[i]))]
  }

  function NewOut(f: Flow, ins: seq<set<int>>, outs: seq<set<int>>, i: nat): seq<set<int>>
    requires i < |outs| && i < |f.succs|
    requires forall j :: 0 <= j < |f.succs[i]| ==> f.succs[i][j] < |ins|
  {
    outs[i := Union(ins, f.succs[i])]
  }

  /** The equations hold for the first n instructions. */
  ghost predicate Settled(f: Flow, ins: seq<set<int>>, n: nat)
    requires f.Valid() && |ins| == |f.succs| && n <= |ins|
  {
    forall i: nat :: i < n ==> NewIn(f, ins, i) == ins
  }

  lemma VisitKeeps(f: Flow, ins: seq<set<int>>, outs: seq<set<int>>, i: nat)
    requires f.Valid() && FlowInv(f, ins, outs) && i < |ins|
    ensures FlowInv(f, NewIn(f, ins, i), NewOut(f, ins, outs, i))
    ensures Below(ins, NewIn(f, ins, i)) && Below(outs, NewOut(f, ins, outs, i))
  {
    hide Union, Transfer;
    assert |outs| == |f.succs| && |ins| == |f.succs|;
    hide FlowInv;
    RecomputeGrows(f, ins, outs, i);
  }

  lemma EmptyInv(f: Flow, ins: seq<set<int>>, outs: seq<set<int>>)
    requires f.Valid() && |ins| == |outs| == |f.succs|
    requires forall i :: 0 <= i < |ins| ==> ins[i] == {} && outs[i] == {}
    ensures FlowInv(f, ins, outs)
  {
  }

  lemma SettledIsLiveness(f: Flow, ins: seq<set<int>>, outs: seq<set<int>>)
    requires f.Valid() && FlowInv(f, ins, outs) && Settled(f, ins, |ins|)
    ensures ExactlyLive(f, ins)
  {
    hide Union, Transfer, ExactlyLive, OnlyLive;
    forall i | 0 <= i < |ins|
      ensures ins[i] == Transfer(f, i, Union(ins, f.succs[i]))
    {
      assert NewIn(f, ins, i)[i] == ins[i];
    }
    SolutionIsLiveness(f, ins);
  }

  /** Path liveness is the least solution of the equations. */
  lemma LivenessIsLeast(f: Flow, ins: seq<set<int>>, other: seq<set<int>>)
    requires f.Valid() && ExactlyLive(f, ins) && Solves(f, other)
    ensures Solves(f, ins) && Below(ins, other)
  {
    hide Union, Universe, Live;
    forall i: nat | i < |ins|
      ensures ins[i] == Transfer(f, i, Union(ins, f.succs[i]))
    {
      forall x: int
        ensures x in ins[i] <==> x in Transfer(f, i, Union(ins, f.succs[i]))
      {
        LiveEquation(f, i, x);
        UnionMembers(ins, f.succs[i], x);
      }
    }
    forall i: nat, x: int | i < |ins| && x in ins[i]
      ensures x in other[i]
    {
      LiveInSolution(f, other, i, x);
    }
  }

  lemma LiveInSolution(f: Flow, ins: seq<set<int>>, i: nat, x: int)
    requires f.Valid() && Solves(f, ins) && i < |f.succs| && Live(f, i, x)
    ensures x in ins[i]
  {
    hide Union, Universe;
    var path: seq<nat> :| LivePath(f, path, x) && path[0] == i;
    LeastSolution(f, ins, path, x);
  }

  // ── `analyze` ────────────────────────────────────────────────────────────

  /** Registers and slots live before each instruction. */
  datatype Masks = Masks(regs: seq<set<int>>, slots: seq<set<int>>)

  /** A bit is set before i exactly when some path from i reads it before it is
      surely overwritten. */
  ghost predicate IsLiveness(program: Program, m: Masks) {
    && ReturnsInside(program) && RegFlow(program).Valid() && SlotFlow(program).Valid()
    && ExactlyLive(RegFlow(program), m.regs) && ExactlyLive(SlotFlow(program), m.slots)
  }

  /** The body of the inner loop for one instruction. */
  method Visit(program: Program, i: nat, inRegs: array<set<int>>, outRegs: array<set<int>>,
               inSlots: array<set<int>>, outSlots: array<set<int>>) returns (changed: bool)
    requires ReturnsInside(program) && i < |program|
    requires inRegs.Length == outRegs.Length == inSlots.Length == outSlots.Length == |program|
    requires inRegs != outRegs && inRegs != inSlots && inRegs != outSlots
    requires outRegs != inSlots && outRegs != outSlots && inSlots != outSlots
    requires RegFlow(program).Valid() && SlotFlow(program).Valid()
    modifies inRegs, outRegs, inSlots, outSlots
    ensures inRegs[..] == NewIn(RegFlow(program), old(inRegs[..]), i)
    ensures outRegs[..] == NewOut(RegFlow(program), old(inRegs[..]), old(outRegs[..]), i)
    ensures inSlots[..] == NewIn(SlotFlow(program), old(inSlots[..]), i)
    ensures outSlots[..] == NewOut(SlotFlow(program), old(inSlots[..]), old(outSlots[..]), i)
    ensures changed <==> !(inRegs[..] == old(inRegs[..]) && outRegs[..] == old(outRegs[..])
                           && inSlots[..] == old(inSlots[..]) && outSlots[..] == old(outSlots[..]))
  {
    hide StaticSuccessors, UsesAndDefs, Flow.Valid;
    ghost var a, b, c, d := inRegs[..], outRegs[..], inSlots[..], outSlots[..];
    var succ := PushSuccessors(program, i);
    assert succ == RegFlow(program).succs[i] == SlotFlow(program).succs[i];
    var oRegs: set<int>, oSlots: set<int> := {}, {};
    SuccessorsInside(program, i);
    for j := 0 to |succ|
      invariant oRegs == Union(a, succ[..j]) && oSlots == Union(c, succ[..j])
    {
      assert succ[..j + 1][..j] == succ[..j];
      oRegs := oRegs + inRegs[succ[j]];
      oSlots := oSlots + inSlots[succ[j]];
    }
    assert succ[..|succ|] == succ;
    var ud := UsesAndDefs(program[i]);
    var newRegs := (oRegs - ud.defRegs) + ud.useRegs;
    var newSlots := (oSlots - ud.writeSlots) + ud.readSlots;
    assert newRegs == Transfer(RegFlow(program), i, oRegs) && newSlots == Transfer(SlotFlow(program), i, oSlots);
    changed := false;
    if newRegs != inRegs[i] {
      inRegs[i] := newRegs;
      changed := true;
    }
    if newSlots != inSlots[i] {
      inSlots[i] := newSlots;
      changed := true;
    }
    if oRegs != outRegs[i] || oSlots != outSlots[i] {
      outRegs[i] := oRegs;
      outSlots[i] := oSlots;
      changed := true;
    }
    assert inRegs[i] == newRegs && inSlots[i] == newSlots && outRegs[i] == oRegs && outSlots[i] == oSlots;
    assert inRegs[..] == a[i := newRegs] && outRegs[..] == b[i := oRegs];
    assert inSlots[..] == c[i := newSlots] && outSlots[..] == d[i := oSlots];
  }

  /** The four masks of one moment. */
  datatype Snapshot = Snapshot(inRegs: seq<set<int>>, outRegs: seq<set<int>>, inSlots: seq<set<int>>,
      outSlots: seq<set<int>>)

  ghost predicate SnapshotInv(program: Program, s: Snapshot)
    requires RegFlow(program).Valid() && SlotFlow(program).Valid()
  {
    FlowInv(RegFlow(program), s.inRegs, s.outRegs) && FlowInv(SlotFlow(program), s.inSlots, s.outSlots)
  }

  ghost predicate SnapshotBelow(s: Snapshot, t: Snapshot) {
    Below(s.inRegs, t.inRegs) && Below(s.outRegs, t.outRegs) && Below(s.inSlots, t.inSlots)
        && Below(s.outSlots, t.outSlots)
  }

  ghost function Total(s: Snapshot): nat {
    Weight(s.inRegs) + Weight(s.outRegs) + Weight(s.inSlots) + Weight(s.outSlots)
  }

  lemma TotalGrows(program: Program, s: Snapshot, t: Snapshot)
    requires ReturnsInside(program) && RegFlow(program).Valid() && SlotFlow(program).Valid()
    requires SnapshotInv(program, t) && SnapshotBelow(s, t)
    ensures Total(s) <= Total(t) <= 256 * |program| && (s != t ==> Total(s) < Total(t))
  {
    hide Union, Transfer, OnlyLive, Flow.Valid, Weight;
    FlowsValid(program);
    WeightMono(s.inRegs, t.inRegs);
    WeightMono(s.outRegs, t.outRegs);
    WeightMono(s.inSlots, t.inSlots);
    WeightMono(s.outSlots, t.outSlots);
    WeightBound(t.inRegs);
    WeightBound(t.outRegs);
    WeightBound(t.inSlots);
    WeightBound(t.outSlots);
  }

  ghost function Visited(program: Program, s: Snapshot, i: nat): Snapshot
    requires ReturnsInside(program) && RegFlow(program).Valid() && SlotFlow(program).Valid()
    requires SnapshotInv(program, s) && i < |program| == |RegFlow(program).succs| == |SlotFlow(program).succs|
  {
    Snapshot(NewIn(RegFlow(program), s.inRegs, i), NewOut(RegFlow(program), s.inRegs, s.outRegs, i),
             NewIn(SlotFlow(program), s.inSlots, i), NewOut(SlotFlow(program), s.inSlots, s.outSlots, i))
  }

  lemma VisitedKeeps(program: Program, start: Snapshot, s: Snapshot, i: nat)
    requires ReturnsInside(program) && RegFlow(program).Valid() && SlotFlow(program).Valid()
    requires SnapshotInv(program, s) && i < |program| == |RegFlow(program).succs| == |SlotFlow(program).succs|
    requires SnapshotBelow(start, s)
    ensures SnapshotInv(program, Visited(program, s, i)) && SnapshotBelow(start, Visited(program, s, i))
    ensures start == Visited(program, s, i) ==> s == Visited(program, s, i)
  {
    hide Below, NewIn, NewOut, Flow.Valid, RegFlow, SlotFlow, OnlyLive, Union, Transfer;
    assert |s.inRegs| == |s.outRegs| == |s.inSlots| == |s.outSlots| == |program|;
    hide FlowInv;
    var t := Visited(program, s, i);
    VisitKeeps(RegFlow(program), s.inRegs, s.outRegs, i);
    VisitKeeps(SlotFlow(program), s.inSlots, s.outSlots, i);
    BelowTrans(start.inRegs, s.inRegs, t.inRegs);
    BelowTrans(start.outRegs, s.outRegs, t.outRegs);
    BelowTrans(start.inSlots, s.inSlots, t.inSlots);
    BelowTrans(start.outSlots, s.outSlots, t.outSlots);
  }

  ghost predicate SettledBoth(program: Program, s: Snapshot, n: nat)
    requires ReturnsInside(program) && RegFlow(program).Valid() && SlotFlow(program).Valid()
    requires SnapshotInv(program, s) && n <= |program| == |RegFlow(program).succs| == |SlotFlow(program).succs|
  {
    Settled(RegFlow(program), s.inRegs, n) && Settled(SlotFlow(program), s.inSlots, n)
  }

  lemma SettledNext(program: Program, s: Snapshot, n: nat)
    requires ReturnsInside(program) && RegFlow(program).Valid() && SlotFlow(program).Valid()
    requires SnapshotInv(program, s) && n < |program| == |RegFlow(program).succs| == |SlotFlow(program).succs|
    requires SettledBoth(program, s, n) && Visited(program, s, n) == s
    ensures SettledBoth(program, s, n + 1)
  {
    hide NewIn, NewOut, FlowInv, RegFlow, SlotFlow, Flow.Valid;
  }

  /** The arrays hold the snapshot. */
  ghost predicate Holds(s: Snapshot, inRegs: array<set<int>>, outRegs: array<set<int>>,
                        inSlots: array<set<int>>, outSlots: array<set<int>>)
    reads inRegs, outRegs, inSlots, outSlots
  {
    s == Snapshot(inRegs[..], outRegs[..], inSlots[..], outSlots[..])
  }

  /** One pass over all instructions; without a change the equations hold. */
  method Sweep(program: Program, inRegs: array<set<int>>, outRegs: array<set<int>>,
               inSlots: array<set<int>>, outSlots: array<set<int>>, ghost start: Snapshot)
    returns (changed: bool, ghost now: Snapshot)
    requires ReturnsInside(program)
    requires inRegs.Length == outRegs.Length == inSlots.Length == outSlots.Length == |program|
    requires inRegs != outRegs && inRegs != inSlots && inRegs != outSlots
    requires outRegs != inSlots && outRegs != outSlots && inSlots != outSlots
    requires RegFlow(program).Valid() && SlotFlow(program).Valid()
    requires |RegFlow(program).succs| == |SlotFlow(program).succs| == |program|
    requires Holds(start, inRegs, outRegs, inSlots, outSlots) && SnapshotInv(program, start)
    modifies inRegs, outRegs, inSlots, outSlots
    ensures Holds(now, inRegs, outRegs, inSlots, outSlots) && SnapshotInv(program, now) && SnapshotBelow(start, now)
    ensures changed ==> start != now
    ensures !changed ==> SettledBoth(program, now, |program|)
  {
    hide StaticSuccessors, UsesAndDefs, FlowInv, Below, Flow.Valid, RegFlow, SlotFlow, NewIn, NewOut, SettledBoth,
         SnapshotInv, SnapshotBelow;
    changed := false;
    now := start;
    SnapshotReflexive(start);
    SettledZero(program, start);
    for i := 0 to |program|
      invariant Holds(now, inRegs, outRegs, inSlots, outSlots)
      invariant SnapshotInv(program, now) && SnapshotBelow(start, now)
      invariant changed ==> start != now
      invariant !changed ==> SettledBoth(program, now, i)
    {
      VisitedKeeps(program, start, now, i);
      var moved := Visit(program, i, inRegs, outRegs, inSlots, outSlots);
      ghost var next := Visited(program, now, i);
      if !moved {
        assert next == now;
        if !changed {
          SettledNext(program, now, i);
        }
      }
      now := next;
      changed := changed || moved;
    }
  }

  lemma SnapshotReflexive(s: Snapshot)
    ensures SnapshotBelow(s, s)
  {
  }

  lemma SettledZero(program: Program, s: Snapshot)
    requires ReturnsInside(program) && RegFlow(program).Valid() && SlotFlow(program).Valid()
    requires SnapshotInv(program, s) && |program| == |RegFlow(program).succs| == |SlotFlow(program).succs|
    ensures SettledBoth(program, s, 0)
  {
    hide NewIn, NewOut, FlowInv, RegFlow, SlotFlow, Flow.Valid;
  }

  lemma SettledBothIsLiveness(program: Program, s: Snapshot)
    requires ReturnsInside(program) && RegFlow(program).Valid() && SlotFlow(program).Valid()
    requires SnapshotInv(program, s) && |program| == |RegFlow(program).succs| == |SlotFlow(program).succs|
    requires SettledBoth(program, s, |program|)
    ensures IsLiveness(program, Masks(s.inRegs, s.inSlots))
  {
    hide Union, Transfer, RegFlow, SlotFlow, Flow.Valid, NewIn, ExactlyLive, Settled, OnlyLive;
    assert |s.inRegs| == |s.inSlots| == |program|;
    hide FlowInv;
    SettledIsLiveness(RegFlow(program), s.inRegs, s.outRegs);
    SettledIsLiveness(SlotFlow(program), s.inSlots, s.outSlots);
  }

  lemma EmptySnapshot(program: Program, s: Snapshot)
    requires ReturnsInside(program) && RegFlow(program).Valid() && SlotFlow(program).Valid()
    requires |program| == |RegFlow(program).succs| == |SlotFlow(program).succs|
    requires |s.inRegs| == |s.outRegs| == |s.inSlots| == |s.outSlots| == |program|
    requires forall i :: 0 <= i < |program| ==>
             s.inRegs[i] == {} && s.outRegs[i] == {} && s.inSlots[i] == {} && s.outSlots[i] == {}
    ensures SnapshotInv(program, s) && Total(s) <= 256 * |program|
  {
    hide FlowInv, RegFlow, SlotFlow, Flow.Valid, Total, Below;
    EmptyInv(RegFlow(program), s.inRegs, s.outRegs);
    EmptyInv(SlotFlow(program), s.inSlots, s.outSlots);
    SnapshotReflexive(s);
    TotalGrows(program, s, s);
  }

  /** The repeat-until-unchanged loop over four arrays updated in place. It
      terminates on every program, and its masks are path liveness. */
  method Analyze(program: Program) returns (m: Masks)
    requires ReturnsInside(program)
    ensures IsLiveness(program, m)
  {
    hide StaticSuccessors, UsesAndDefs, Flow.Valid, RegFlow, SlotFlow, Total, SettledBoth, SnapshotInv, SnapshotBelow,
         ExactlyLive, IsLiveness;
    FlowsValid(program);
    var n := |program|;
    var inRegs, outRegs := new set<int>[n](_ => {}), new set<int>[n](_ => {});
    var inSlots, outSlots := new set<int>[n](_ => {}), new set<int>[n](_ => {});
    ghost var now := Snapshot(inRegs[..], outRegs[..], inSlots[..], outSlots[..]);
    EmptySnapshot(program, now);
    var changed := true;
    while changed
      invariant Holds(now, inRegs, outRegs, inSlots, outSlots) && SnapshotInv(program, now)
      invariant Total(now) <= 256 * n
      invariant !changed ==> SettledBoth(program, now, n)
      decreases 256 * n - Total(now), changed
    {
      ghost var start := now;
      changed, now := Sweep(program, inRegs, outRegs, inSlots, outSlots, start);
      TotalGrows(program, start, now);
    }
    m := Masks(inRegs[..], inSlots[..]);
    SettledBothIsLiveness(program, now);
  }
}
