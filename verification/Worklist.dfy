/** The concrete worklist (`src/concrete.rs`, `run_concrete_with_maps`) on programs
    without maps: a conclusive run has explored exactly the reachable states. */
module Worklist {
  import opened Insn
  import opened Concrete
  import opened Liveness
  import opened DeadState
  import opened Runs
  import Calls
  import CallSimulation

  datatype Limits = Limits(maxSteps: nat, maxLoopIterations: nat, maxStates: nat)

  /** `ConcreteRun`, with the recorded states cleaned of dead data. */
  datatype ConcreteRun = ConcreteRun(visited: seq<Point>, outcomes: seq<Point>, inconclusive: bool, noExit: bool)

  /** The recorded form of a state. */
  function Cleaned(m: Masks, x: Point): Point { (x.0, Clean(x.1, LiveAt(m.regs, x.0), LiveAt(m.slots, x.0))) }

  /** The states already visited, by program counter. */
  type Seen = map<nat, seq<State>>

  predicate IsSeen(seen: Seen, x: Point) { x.0 in seen && x.1 in seen[x.0] }

  function SeenAt(seen: Seen, pc: nat): seq<State> { if pc in seen then seen[pc] else [] }

  function See(seen: Seen, x: Point): Seen { seen[x.0 := SeenAt(seen, x.0) + [x.1]] }

  lemma SeeAdds(seen: Seen, x: Point)
    ensures forall y: Point :: IsSeen(See(seen, x), y) <==> IsSeen(seen, y) || y == x
  {
    forall y: Point
      ensures IsSeen(See(seen, x), y) <==> IsSeen(seen, y) || y == x
    {
      if y.0 == x.0 {
        assert See(seen, x)[x.0] == SeenAt(seen, x.0) + [x.1];
      }
    }
  }

  /** How many recorded states are at the program counter. */
  function CountAt(visited: seq<Point>, pc: nat): nat {
    if visited == [] then 0 else CountAt(visited[..|visited| - 1], pc) + if visited[|visited| - 1].0 == pc then 1 else 0
  }

  lemma CountAppend(visited: seq<Point>, x: Point, pc: nat)
    ensures CountAt(visited + [x], pc) == CountAt(visited, pc) + if x.0 == pc then 1 else 0
  {
    assert (visited + [x])[..|visited|] == visited;
  }

  /** A loop head was recorded more often than the budget allows. */
  ghost predicate HeadOverBudget(visited: seq<Point>, heads: seq<nat>, budget: nat) {
    exists h :: h in heads && CountAt(visited, h) > budget
  }

  // ── What the loop keeps ──────────────────────────────────────────────────

  /** Everything pending or seen is reachable, and everything seen succeeded: its
      successors are seen or pending. */
  ghost predicate Frontier(program: Program, worklist: seq<Point>, seen: Seen) {
    && (forall x :: x in worklist ==> Reachable(program, x))
    && (forall x: Point :: IsSeen(seen, x) ==> Reachable(program, x) && !Runs.Fails(program, x))
    && (forall x: Point, y: Point :: IsSeen(seen, x) && Steps(program, x, y) ==> IsSeen(seen, y) || y in worklist)
    && (IsSeen(seen, (0, Initial())) || (0, Initial()) in worklist)
  }

  /** The recorded states are the cleaned forms of the seen ones. */
  ghost predicate Recorded(m: Masks, visited: seq<Point>, seen: Seen) {
    && (forall x: Point :: IsSeen(seen, x) ==> Cleaned(m, x) in visited)
    && (forall v :: v in visited ==> CleanedFrom(m, seen, v))
  }

  ghost predicate CleanedFrom(m: Masks, seen: Seen, v: Point) {
    exists x: Point :: IsSeen(seen, x) && v == Cleaned(m, x)
  }

  /** The outcomes are the exit states of the seen points, without duplicates. */
  ghost predicate Outcomes(program: Program, outcomes: seq<Point>, seen: Seen) {
    && (forall o :: o in outcomes ==> IsSeen(seen, o) && ExitsAt(program, o))
    && (forall x: Point :: IsSeen(seen, x) && ExitsAt(program, x) ==> HasOutcome(outcomes, x.1))
  }

  predicate HasOutcome(outcomes: seq<Point>, st: State) { exists i :: 0 <= i < |outcomes| && outcomes[i].1 == st }

  lemma PopSeen(program: Program, worklist: seq<Point>, seen: Seen, x: Point)
    requires Frontier(program, worklist + [x], seen) && IsSeen(seen, x)
    ensures Frontier(program, worklist, seen)
  {
    hide Reachable, Steps, IsSeen;
  }

  lemma PopNew(program: Program, worklist: seq<Point>, seen: Seen, x: Point, more: seq<Point>)
    requires Frontier(program, worklist + [x], seen) && !Runs.Fails(program, x)
    requires forall y :: Steps(program, x, y) <==> y in more
    ensures Frontier(program, worklist + more, See(seen, x))
  {
    hide Reachable, Steps, IsSeen, Runs.Fails, See;
    SeeAdds(seen, x);
    assert x in worklist + [x];
    forall y | y in more
      ensures Reachable(program, y)
    {
      StepReachable(program, x, y);
    }
  }

  lemma RecordNew(m: Masks, visited: seq<Point>, seen: Seen, x: Point)
    requires Recorded(m, visited, seen)
    ensures Recorded(m, visited + [Cleaned(m, x)], See(seen, x))
  {
    hide IsSeen, See, Cleaned;
    SeeAdds(seen, x);
    forall v | v in visited + [Cleaned(m, x)]
      ensures CleanedFrom(m, See(seen, x), v)
    {
      if v in visited {
        var y: Point :| IsSeen(seen, y) && v == Cleaned(m, y);
        assert IsSeen(See(seen, x), y);
      } else {
        assert IsSeen(See(seen, x), x);
      }
    }
  }

  lemma OutcomesNew(program: Program, outcomes: seq<Point>, seen: Seen, x: Point)
    requires Outcomes(program, outcomes, seen)
    ensures !ExitsAt(program, x) || HasOutcome(outcomes, x.1) ==> Outcomes(program, outcomes, See(seen, x))
    ensures ExitsAt(program, x) ==> Outcomes(program, outcomes + [x], See(seen, x))
  {
    hide IsSeen, See, ExitsAt;
    SeeAdds(seen, x);
    forall y: Point | IsSeen(seen, y) && ExitsAt(program, y)
      ensures HasOutcome(outcomes + [x], y.1)
    {
      var i :| 0 <= i < |outcomes| && outcomes[i].1 == y.1;
      assert (outcomes + [x])[i].1 == y.1;
    }
    assert (outcomes + [x])[|outcomes|] == x;
  }

  /** An empty worklist means that everything reachable has been seen. */
  lemma EmptyFrontier(program: Program, seen: Seen)
    requires Frontier(program, [], seen)
    ensures forall x: Point :: IsSeen(seen, x) <==> Reachable(program, x)
  {
    hide Reachable, Steps, IsSeen;
    var points := iset x: Point | IsSeen(seen, x);
    forall x: Point | Reachable(program, x)
      ensures IsSeen(seen, x)
    {
      ClosedHoldsReachable(program, points, x);
    }
  }

  // ── What a run means ─────────────────────────────────────────────────────

  /** Conclusive: the records are the cleaned reachable states, none of which
      fails, and the outcomes are the reachable exits. */
  ghost predicate Conclusive(program: Program, m: Masks, r: ConcreteRun) {
    && (forall x: Point :: Reachable(program, x) ==> !Runs.Fails(program, x) && Cleaned(m, x) in r.visited)
    && (forall v :: v in r.visited ==> CleanedReachable(program, m, v))
    && (forall o :: o in r.outcomes ==> Reachable(program, o) && ExitsAt(program, o))
    && (forall x: Point :: Reachable(program, x) && ExitsAt(program, x) ==> HasOutcome(r.outcomes, x.1))
    && (r.noExit <==> forall x: Point :: Reachable(program, x) ==> !ExitsAt(program, x))
  }

  ghost predicate CleanedReachable(program: Program, m: Masks, v: Point) {
    exists x: Point :: Reachable(program, x) && v == Cleaned(m, x)
  }

  ghost predicate FailureReachable(program: Program, f: Failure) {
    exists x: Point :: Reachable(program, x) && Explore(program, x.0, x.1) == Outcome.Fails(f)
  }

  lemma ConclusiveRun(program: Program, m: Masks, seen: Seen, visited: seq<Point>, outcomes: seq<Point>)
    requires Frontier(program, [], seen) && Recorded(m, visited, seen) && Outcomes(program, outcomes, seen)
    ensures Conclusive(program, m, ConcreteRun(visited, outcomes, false, outcomes == []))
  {
    hide Reachable, Steps, IsSeen, ExitsAt, Runs.Fails, Cleaned;
    EmptyFrontier(program, seen);
    forall v | v in visited
      ensures CleanedReachable(program, m, v)
    {
      assert CleanedFrom(m, seen, v);
    }
    if outcomes != [] {
      assert outcomes[0] in outcomes;
    }
  }

  /** The recorded loop-head counts. */
  ghost predicate Counted(iters: map<nat, nat>, visited: seq<Point>, heads: seq<nat>) {
    forall h :: h in heads ==> CountAt(visited, h) == if h in iters then iters[h] else 0
  }

  lemma CountNext(iters: map<nat, nat>, visited: seq<Point>, heads: seq<nat>, x: Point)
    requires Counted(iters, visited, heads)
    ensures var n := if x.0 in iters then iters[x.0] else 0;
            Counted(if x.0 in heads then iters[x.0 := n + 1] else iters, visited + [x], heads)
  {
    hide CountAt;
    forall h | h in heads
      ensures CountAt(visited + [x], h) == CountAt(visited, h) + if x.0 == h then 1 else 0
    {
      CountAppend(visited, x, h);
    }
  }

  /** The limits hold for what was recorded so far. */
  ghost predicate WithinLimits(visited: seq<Point>, heads: seq<nat>, limits: Limits) {
    |visited| <= limits.maxStates && !HeadOverBudget(visited, heads, limits.maxLoopIterations)
  }

  lemma Start(program: Program, m: Masks, heads: seq<nat>)
    ensures Frontier(program, [(0, Initial())], map[]) && Recorded(m, [], map[]) && Outcomes(program, [], map[])
    ensures Counted(map[], [], heads)
  {
    hide Reachable, Steps;
    InitialReachable(program);
  }

  lemma NothingOverBudget(heads: seq<nat>, budget: nat)
    ensures !HeadOverBudget([], heads, budget)
  {
  }

  lemma SeenKnown(seen: Seen, x: Point)
    ensures x.1 in SeenAt(seen, x.0) <==> IsSeen(seen, x)
  {
  }

  lemma RecordsReachable(program: Program, m: Masks, worklist: seq<Point>, seen: Seen, visited: seq<Point>)
    requires Frontier(program, worklist, seen) && Recorded(m, visited, seen)
    ensures forall v :: v in visited ==> CleanedReachable(program, m, v)
    ensures forall x :: x in worklist ==> Reachable(program, x)
  {
    hide Reachable, Steps, IsSeen, Cleaned;
    forall v | v in visited
      ensures CleanedReachable(program, m, v)
    {
      assert CleanedFrom(m, seen, v);
    }
  }

  lemma ReachableRecord(program: Program, m: Masks, x: Point)
    requires Reachable(program, x)
    ensures CleanedReachable(program, m, Cleaned(m, x)) && Cleaned(m, x).0 == x.0
  {
    hide Reachable;
  }

  /** Recording one more state exceeds a budget only at its own program counter. */
  lemma HeadBudget(iters: map<nat, nat>, visited: seq<Point>, heads: seq<nat>, budget: nat, x: Point)
    requires !HeadOverBudget(visited, heads, budget) && Counted(iters, visited + [x], heads)
    ensures HeadOverBudget(visited + [x], heads, budget) <==> x.0 in heads && x.0 in iters && iters[x.0] > budget
  {
    hide CountAt;
    forall h | h in heads && h != x.0
      ensures CountAt(visited + [x], h) <= budget
    {
      CountAppend(visited, x, h);
    }
    var after := visited + [x];
    if x.0 in heads && x.0 in iters && iters[x.0] > budget {
      assert x.0 in heads && CountAt(after, x.0) > budget;
    }
    if HeadOverBudget(after, heads, budget) {
      var h :| h in heads && CountAt(after, h) > budget;
      assert h == x.0;
    }
  }

  lemma ExploreMeaning(program: Program, x: Point)
    ensures var outcome := Explore(program, x.0, x.1);
            && (Runs.Fails(program, x) <==> outcome.Fails?) && (ExitsAt(program, x) <==> outcome.Exits?)
            && (forall y :: Steps(program, x, y) <==> outcome.Next? && y in outcome.succs)
  {
    hide Explore;
  }

  lemma FailureFound(program: Program, x: Point)
    requires Reachable(program, x) && Explore(program, x.0, x.1).Fails?
    ensures FailureReachable(program, Explore(program, x.0, x.1).failure)
  {
    hide Reachable, Explore;
  }

  // ── The order of exploration ─────────────────────────────────────────────

  /** What exploring a point pushes. */
  function Succs(program: Program, x: Point): seq<Point> {
    var outcome := Explore(program, x.0, x.1);
    if outcome.Next? then outcome.succs else []
  }

  /** How many points are pushed by exploring each of the list once. */
  ghost function Pushed(program: Program, points: seq<Point>): nat {
    if points == [] then 0 else
      Pushed(program, points[..|points| - 1]) + |Succs(program, points[|points| - 1])|
  }

  ghost predicate Distinct(points: seq<Point>) { forall i, j :: 0 <= i < j < |points| ==> points[i] != points[j] }

  /** The records are the cleaned forms of distinct reachable points, in order. */
  ghost predicate Explores(program: Program, m: Masks, order: seq<Point>, visited: seq<Point>) {
    && Distinct(order) && |visited| == |order|
    && (forall x :: x in order ==> Reachable(program, x))
    && forall i :: 0 <= i < |order| ==> visited[i] == Cleaned(m, order[i])
  }

  /** The successors of order[k] from the j-th on were explored before i. */
  ghost predicate DoneFrom(program: Program, order: seq<Point>, k: nat, j: nat, i: nat)
    requires k < |order| && i <= |order|
  {
    forall t :: j <= t < |Succs(program, order[k])| ==> Succs(program, order[k])[t] in order[..i]
  }

  /** order[i] is the last successor still unexplored of the latest point that has one. */
  ghost predicate LatestFirst(program: Program, order: seq<Point>, i: nat)
    requires i < |order|
  {
    exists k: nat, j: nat :: k < i && j < |Succs(program, order[k])| && order[i] == Succs(program, order[k])[j]
      && DoneFrom(program, order, k, j + 1, i)
      && forall later: nat :: k < later < i ==> DoneFrom(program, order, later, 0, i)
  }

  /** Depth first, last successor first, each point once. */
  ghost predicate DepthFirst(program: Program, order: seq<Point>) {
    && (order != [] ==> order[0] == (0, Initial()))
    && forall i: nat :: 0 < i < |order| ==> LatestFirst(program, order, i)
  }

  /** The pending points of each explored one: a prefix of its successors. */
  ghost function Flatten(program: Program, order: seq<Point>, left: seq<nat>): seq<Point>
    requires |left| == |order| && forall k :: 0 <= k < |order| ==> left[k] <= |Succs(program, order[k])|
  {
    if order == [] then [] else
      var n := |order| - 1;
      Flatten(program, order[..n], left[..n]) + Succs(program, order[n])[..left[n]]
  }

  ghost predicate Fits(program: Program, order: seq<Point>, left: seq<nat>) {
    && |left| == |order| && (forall k :: 0 <= k < |order| ==> left[k] <= |Succs(program, order[k])|)
    && forall k: nat :: k < |order| ==> DoneFrom(program, order, k, left[k], |order|)
  }

  /** The worklist is what is left of the successors of the explored points. */
  ghost predicate Stacks(program: Program, order: seq<Point>, left: seq<nat>, worklist: seq<Point>) {
    if order == [] then worklist == [(0, Initial())]
    else Fits(program, order, left) && worklist == Flatten(program, order, left)
  }

  /** The top of the worklist is the last pending successor of the latest point that
      has one. */
  lemma {:induction false} TopOf(program: Program, order: seq<Point>, left: seq<nat>) returns (k: nat)
    requires |left| == |order| && forall i :: 0 <= i < |order| ==> left[i] <= |Succs(program, order[i])|
    requires Flatten(program, order, left) != []
    ensures k < |order| && left[k] > 0 && forall later :: k < later < |order| ==> left[later] == 0
    ensures var all := Flatten(program, order, left);
            && all[|all| - 1] == Succs(program, order[k])[left[k] - 1]
            && Flatten(program, order, left[k := left[k] - 1]) == all[..|all| - 1]
    decreases |order|
  {
    hide Succs;
    var n := |order| - 1;
    if left[n] > 0 {
      k := n;
      assert left[k := left[k] - 1][..n] == left[..n];
    } else {
      assert Flatten(program, order, left) == Flatten(program, order[..n], left[..n]);
      k := TopOf(program, order[..n], left[..n]);
      assert left[k := left[k] - 1][..n] == left[..n][k := left[k] - 1];
    }
  }

  /** Popping a point that was explored before. */
  lemma PopAgain(program: Program, order: seq<Point>, left: seq<nat>, worklist: seq<Point>) returns (next: seq<nat>)
    requires order != [] && Stacks(program, order, left, worklist) && worklist != []
    requires worklist[|worklist| - 1] in order
    ensures Stacks(program, order, next, worklist[..|worklist| - 1])
  {
    hide Succs, Flatten;
    var k := TopOf(program, order, left);
    next := left[k := left[k] - 1];
    assert order[..|order|] == order;
    forall i: nat | i < |order|
      ensures DoneFrom(program, order, i, next[i], |order|)
    {
      assert DoneFrom(program, order, i, left[i], |order|);
    }
  }

  lemma Grown(program: Program, order: seq<Point>, x: Point, k: nat, j: nat, i: nat)
    requires k < |order| && i <= |order| && DoneFrom(program, order, k, j, i)
    ensures DoneFrom(program, order + [x], k, j, i) && DoneFrom(program, order + [x], k, j, |order| + 1)
  {
    hide Succs;
    assert (order + [x])[..i] == order[..i];
    assert forall y :: y in order[..i] ==> y in order;
    assert (order + [x])[..|order| + 1] == order + [x];
  }

  /** Popping a new point and pushing its successors. */
  lemma PopFirst(program: Program, order: seq<Point>, left: seq<nat>, worklist: seq<Point>) returns (next: seq<nat>)
    requires order != [] && Stacks(program, order, left, worklist) && worklist != [] && DepthFirst(program, order)
    requires worklist[|worklist| - 1] !in order
    ensures var x := worklist[|worklist| - 1];
            && DepthFirst(program, order + [x])
            && Stacks(program, order + [x], next, worklist[..|worklist| - 1] + Succs(program, x))
  {
    hide Succs, LatestFirst;
    var x := worklist[|worklist| - 1];
    var k := TopOf(program, order, left);
    var popped := left[k := left[k] - 1];
    var longer := order + [x];
    next := popped + [|Succs(program, x)|];
    assert order[..|order|] == order && longer[..|order|] == order && next[..|order|] == popped;
    assert longer[..|longer|] == longer;
    forall i: nat | i < |longer|
      ensures DoneFrom(program, longer, i, next[i], |longer|)
    {
      if i < |order| {
        assert DoneFrom(program, order, i, left[i], |order|);
        Grown(program, order, x, i, left[i], |order|);
      }
    }
    LatestNow(program, order, left, x, k);
    forall i: nat | 0 < i < |longer|
      ensures LatestFirst(program, longer, i)
    {
      if i < |order| {
        assert LatestFirst(program, order, i);
        LatestGrown(program, order, x, i);
      }
    }
  }

  lemma LatestNow(program: Program, order: seq<Point>, left: seq<nat>, x: Point, k: nat)
    requires order != [] && Fits(program, order, left) && k < |order| && left[k] > 0
    requires x == Succs(program, order[k])[left[k] - 1]
    requires forall later :: k < later < |order| ==> left[later] == 0
    ensures LatestFirst(program, order + [x], |order|)
  {
    hide Succs, DoneFrom;
    var longer, j: nat := order + [x], left[k] - 1;
    assert DoneFrom(program, order, k, j + 1, |order|);
    Grown(program, order, x, k, j + 1, |order|);
    forall later: nat | k < later < |order|
      ensures DoneFrom(program, longer, later, 0, |order|)
    {
      assert DoneFrom(program, order, later, left[later], |order|);
      Grown(program, order, x, later, 0, |order|);
    }
    assert longer[|order|] == Succs(program, longer[k])[j] && DoneFrom(program, longer, k, j + 1, |order|);
  }

  lemma LatestGrown(program: Program, order: seq<Point>, x: Point, i: nat)
    requires 0 < i < |order| && LatestFirst(program, order, i)
    ensures LatestFirst(program, order + [x], i)
  {
    hide Succs, DoneFrom;
    var k: nat, j: nat :| k < i && j < |Succs(program, order[k])| && order[i] == Succs(program, order[k])[j]
      && DoneFrom(program, order, k, j + 1, i)
      && forall later: nat :: k < later < i ==> DoneFrom(program, order, later, 0, i);
    var longer := order + [x];
    Grown(program, order, x, k, j + 1, i);
    forall later: nat | k < later < i
      ensures DoneFrom(program, longer, later, 0, i)
    {
      Grown(program, order, x, later, 0, i);
    }
    assert longer[i] == Succs(program, longer[k])[j] && DoneFrom(program, longer, k, j + 1, i);
  }

  /** The first pop. */
  lemma PopStart(program: Program) returns (next: seq<nat>)
    ensures var x: Point := (0, Initial());
            DepthFirst(program, [x]) && Stacks(program, [x], next, Succs(program, x))
  {
    hide Succs;
    var x: Point := (0, Initial());
    next := [|Succs(program, x)|];
    assert [x][..1] == [x] && Flatten(program, [], []) == [] && |[x][..0]| == 0 && |next[..0]| == 0;
  }

  // ── Limits that are large enough ─────────────────────────────────────────

  ghost predicate ClosedList(program: Program, points: seq<Point>) {
    && (0, Initial()) in points
    && forall x: Point, y: Point :: x in points && Steps(program, x, y) ==> y in points
  }

  /** Some finite closed list of points fits the limits. */
  ghost predicate Generous(program: Program, points: seq<Point>, limits: Limits) {
    && ClosedList(program, points) && limits.maxSteps >= 1 + Pushed(program, points)
    && limits.maxStates >= |points| && limits.maxLoopIterations >= |points|
  }

  lemma {:induction false} PushedAppend(program: Program, a: seq<Point>, b: seq<Point>)
    ensures Pushed(program, a + b) == Pushed(program, a) + Pushed(program, b)
    decreases |b|
  {
    hide Succs;
    if b == [] {
      assert a + b == a;
    } else {
      var n := |b| - 1;
      assert (a + b)[..|a + b| - 1] == a + b[..n];
      PushedAppend(program, a, b[..n]);
    }
  }

  /** A list without duplicates pushes at most what a list holding it pushes. */
  lemma {:induction false} PushedWithin(program: Program, order: seq<Point>, points: seq<Point>)
    requires Distinct(order) && forall x :: x in order ==> x in points
    ensures |order| <= |points| && Pushed(program, order) <= Pushed(program, points)
    decreases |order|
  {
    hide Succs;
    if order != [] {
      var n := |order| - 1;
      var x := order[n];
      assert x in order;
      var i :| 0 <= i < |points| && points[i] == x;
      var rest := points[..i] + points[i + 1..];
      assert points == points[..i] + ([x] + points[i + 1..]);
      PushedAppend(program, points[..i], points[i + 1..]);
      PushedAppend(program, points[..i], [x] + points[i + 1..]);
      PushedAppend(program, [x], points[i + 1..]);
      assert Pushed(program, [x][..0]) == 0;
      forall y | y in order[..n]
        ensures y in rest
      {
        assert y in order && y != x;
        assert y in points;
      }
      PushedWithin(program, order[..n], rest);
    }
  }

  lemma {:induction false} CountAtMost(visited: seq<Point>, pc: nat)
    ensures CountAt(visited, pc) <= |visited|
    decreases |visited|
  {
    if visited != [] {
      CountAtMost(visited[..|visited| - 1], pc);
    }
  }

  /** Within generous limits nothing is over budget. */
  lemma GenerousSuffices(program: Program, m: Masks, points: seq<Point>, limits: Limits, heads: seq<nat>,
                         order: seq<Point>, visited: seq<Point>)
    requires Generous(program, points, limits) && Explores(program, m, order, visited)
    ensures 1 + Pushed(program, order) <= limits.maxSteps && WithinLimits(visited, heads, limits)
  {
    hide Reachable, Steps, Cleaned, Pushed, CountAt;
    var held := iset x: Point | x in points;
    assert StepClosed(program, held);
    forall x | x in order
      ensures x in points
    {
      ClosedHoldsReachable(program, held, x);
    }
    PushedWithin(program, order, points);
    forall h | h in heads
      ensures CountAt(visited, h) <= limits.maxLoopIterations
    {
      CountAtMost(visited, h);
    }
  }

  // ── The loop ─────────────────────────────────────────────────────────────

  /** The order so far and the set of seen points agree. */
  ghost predicate OrderSeen(order: seq<Point>, seen: Seen) { forall x: Point :: x in order <==> IsSeen(seen, x) }

  lemma ExploreNext(program: Program, m: Masks, order: seq<Point>, visited: seq<Point>, seen: Seen, x: Point)
    requires Explores(program, m, order, visited) && OrderSeen(order, seen) && Reachable(program, x)
    requires !IsSeen(seen, x)
    ensures Explores(program, m, order + [x], visited + [Cleaned(m, x)]) && OrderSeen(order + [x], See(seen, x))
    ensures Pushed(program, order + [x]) == Pushed(program, order) + |Succs(program, x)|
  {
    hide Reachable, Cleaned, IsSeen, See, Succs;
    SeeAdds(seen, x);
    assert (order + [x])[..|order|] == order;
  }

  lemma NoOrder(program: Program, m: Masks)
    ensures Explores(program, m, [], []) && OrderSeen([], map[]) && DepthFirst(program, [])
    ensures Pushed(program, []) == 0 && Stacks(program, [], [], [(0, Initial())])
  {
    hide Reachable, Succs;
  }

  lemma SuccsAre(program: Program, x: Point)
    ensures var outcome := Explore(program, x.0, x.1);
            Succs(program, x) == if outcome.Next? then outcome.succs else []
  {
    hide Explore;
  }

  /** Popping a new point, the first one included. */
  lemma PopUnseen(program: Program, order: seq<Point>, left: seq<nat>, worklist: seq<Point>) returns (next: seq<nat>)
    requires Stacks(program, order, left, worklist) && worklist != [] && DepthFirst(program, order)
    requires worklist[|worklist| - 1] !in order
    ensures var x := worklist[|worklist| - 1];
            && DepthFirst(program, order + [x])
            && Stacks(program, order + [x], next, worklist[..|worklist| - 1] + Succs(program, x))
  {
    hide Succs, DepthFirst;
    if order == [] {
      next := PopStart(program);
      var x: Point := (0, Initial());
      assert order + [x] == [x] && worklist[..|worklist| - 1] + Succs(program, x) == Succs(program, x);
    } else {
      next := PopFirst(program, order, left, worklist);
    }
  }

  /** `run_concrete_with_maps`: pop, deduplicate, record, check the budgets, expand.
      The ghost result lists the explored points: depth first from the start, each
      once, one for each record. The run gives up exactly when a record is over budget
      or exploring these points pushes more than the steps allow. */
  method RunConcrete(program: Program, m: Masks, heads: seq<nat>, limits: Limits)
    returns (r: Result<ConcreteRun, Failure>, ghost order: seq<Point>)
    ensures r.Err? ==> FailureReachable(program, r.error)
    ensures r.Ok? && !r.value.inconclusive ==> Conclusive(program, m, r.value)
    ensures r.Ok? ==> forall v :: v in r.value.visited ==> CleanedReachable(program, m, v)
    ensures r.Ok? ==> Explores(program, m, order, r.value.visited) && DepthFirst(program, order)
    ensures r.Ok? ==> (r.value.inconclusive <==>
            1 + Pushed(program, order) > limits.maxSteps || !WithinLimits(r.value.visited, heads, limits))
    ensures r.Ok? && r.value.inconclusive ==> !r.value.noExit
    ensures forall points: seq<Point> :: Generous(program, points, limits) && r.Ok? ==> !r.value.inconclusive
  {
    hide Reachable, Steps, IsSeen, ExitsAt, Runs.Fails, Cleaned, Explore, Frontier, Recorded, Outcomes, Conclusive,
         Counted, CountAt, HasOutcome, CleanedReachable, See, HeadOverBudget, FailureReachable, Explores, OrderSeen,
         DepthFirst, Stacks, Pushed, Succs, Generous;
    var worklist: seq<Point> := [(0, Initial())];
    var seen: Seen := map[];
    var visited: seq<Point> := [];
    var iters: map<nat, nat> := map[];
    var outcomes: seq<Point> := [];
    var steps, explored := 0, 0;
    order := [];
    ghost var left: seq<nat> := [];
    Start(program, m, heads);
    NoOrder(program, m);
    NothingOverBudget(heads, limits.maxLoopIterations);
    while worklist != []
      invariant Frontier(program, worklist, seen) && Recorded(m, visited, seen) && Outcomes(program, outcomes, seen)
      invariant Counted(iters, visited, heads) && WithinLimits(visited, heads, limits)
      invariant Explores(program, m, order, visited) && OrderSeen(order, seen) && DepthFirst(program, order)
      invariant Stacks(program, order, left, worklist) && steps + |worklist| == 1 + Pushed(program, order)
      invariant explored == |visited| && steps <= limits.maxSteps
      decreases limits.maxSteps - steps
    {
      var x := worklist[|worklist| - 1];
      ghost var all := worklist;
      worklist := worklist[..|worklist| - 1];
      assert all == worklist + [x];
      RecordsReachable(program, m, all, seen, visited);
      steps := steps + 1;
      if steps > limits.maxSteps {
        GivesUp(program, m, limits, heads, order, visited);
        return Ok(ConcreteRun(visited, outcomes, true, false)), order;
      }
      SeenKnown(seen, x);
      SeenInOrder(order, seen, x);
      if x.1 in SeenAt(seen, x.0) {
        PopSeen(program, worklist, seen, x);
        NotEmptyOrder(order, x);
        left := PopAgain(program, order, left, all);
      } else {
        ReachableRecord(program, m, x);
        RecordNew(m, visited, seen, x);
        OutcomesNew(program, outcomes, seen, x);
        ExploreNext(program, m, order, visited, seen, x);
        left := PopUnseen(program, order, left, all);
        ghost var before, recorded := seen, visited;
        seen := See(seen, x);
        visited := visited + [Cleaned(m, x)];
        order := order + [x];
        CountNext(iters, recorded, heads, Cleaned(m, x));
        var overBudget := false;
        if x.0 in heads {
          var n := if x.0 in iters then iters[x.0] else 0;
          iters := iters[x.0 := n + 1];
          overBudget := n + 1 > limits.maxLoopIterations;
        }
        HeadBudget(iters, recorded, heads, limits.maxLoopIterations, Cleaned(m, x));
        if overBudget {
          GivesUp(program, m, limits, heads, order, visited);
          return Ok(ConcreteRun(visited, outcomes, true, false)), order;
        }
        explored := explored + 1;
        if explored > limits.maxStates {
          GivesUp(program, m, limits, heads, order, visited);
          return Ok(ConcreteRun(visited, outcomes, true, false)), order;
        }
        var outcome := Explore(program, x.0, x.1);
        ExploreMeaning(program, x);
        SuccsAre(program, x);
        if outcome.Fails? {
          FailureFound(program, x);
          return Err(outcome.failure), order;
        }
        var more := if outcome.Next? then outcome.succs else [];
        PopNew(program, worklist, before, x, more);
        worklist := worklist + more;
        if outcome.Exits? && !HasOutcome(outcomes, x.1) {
          outcomes := outcomes + [x];
        }
      }
    }
    RecordsReachable(program, m, [], seen, visited);
    ConclusiveRun(program, m, seen, visited, outcomes);
    r := Ok(ConcreteRun(visited, outcomes, false, outcomes == []));
  }

  /** A run that gives up had no generous limits. */
  lemma GivesUp(program: Program, m: Masks, limits: Limits, heads: seq<nat>, order: seq<Point>, visited: seq<Point>)
    requires Explores(program, m, order, visited)
    requires 1 + Pushed(program, order) > limits.maxSteps || !WithinLimits(visited, heads, limits)
    ensures forall points: seq<Point> :: !Generous(program, points, limits)
  {
    hide Generous, Explores, WithinLimits, Pushed;
    forall points: seq<Point>
      ensures !Generous(program, points, limits)
    {
      if Generous(program, points, limits) {
        GenerousSuffices(program, m, points, limits, heads, order, visited);
        assert false;
      }
    }
  }

  lemma SeenInOrder(order: seq<Point>, seen: Seen, x: Point)
    requires OrderSeen(order, seen)
    ensures x in order <==> IsSeen(seen, x)
  {
    hide IsSeen;
  }

  lemma NotEmptyOrder(order: seq<Point>, x: Point)
    requires x in order
    ensures order != []
  {
  }

  /** A program the abstract interpreter accepts is never refuted by the concrete
      one: its worklist cannot return a failure. */
  lemma AcceptedNeverRefuted(program: Program, reach: CallSimulation.Reach, f: Failure)
    requires CallSimulation.Closed(program, reach) && (0, Calls.Start()) in reach
    ensures !FailureReachable(program, f)
  {
    hide CallSimulation.Closed, Reachable, Explore;
    forall x: Point | Reachable(program, x)
      ensures !Explore(program, x.0, x.1).Fails?
    {
      CallSimulation.ReachableCovered(program, reach, x);
    }
  }
}
