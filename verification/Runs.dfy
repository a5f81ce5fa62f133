/** Executions of the concrete interpreter: sequences of driver steps from the
    initial state, and the states they reach. */
module Runs {
  import opened Insn
  import opened Concrete

  type Point = (nat, State)

  /** One step of the concrete driver. */
  ghost predicate Steps(program: Program, from: Point, to: Point) {
    Explore(program, from.0, from.1).Next? && to in Explore(program, from.0, from.1).succs
  }

  ghost predicate StepAt(program: Program, trace: seq<Point>, i: nat)
    requires 0 < i < |trace|
  {
    Steps(program, trace[i - 1], trace[i])
  }

  ghost predicate Run(program: Program, trace: seq<Point>) {
    trace != [] && trace[0] == (0, Initial()) && forall i: nat :: 0 < i < |trace| ==> StepAt(program, trace, i)
  }

  ghost predicate Reachable(program: Program, x: Point) {
    exists trace: seq<Point> :: Run(program, trace) && trace[|trace| - 1] == x
  }

  ghost predicate Fails(program: Program, x: Point) { Explore(program, x.0, x.1).Fails? }

  ghost predicate ExitsAt(program: Program, x: Point) { Explore(program, x.0, x.1).Exits? }

  lemma InitialReachable(program: Program)
    ensures Reachable(program, (0, Initial()))
  {
    assert Run(program, [(0, Initial())]);
  }

  lemma StepReachable(program: Program, x: Point, y: Point)
    requires Reachable(program, x) && Steps(program, x, y)
    ensures Reachable(program, y)
  {
    hide Steps;
    var trace: seq<Point> :| Run(program, trace) && trace[|trace| - 1] == x;
    var longer := trace + [y];
    forall i: nat | 0 < i < |longer|
      ensures StepAt(program, longer, i)
    {
      assert i < |trace| ==> StepAt(program, trace, i);
    }
    assert Run(program, longer) && longer[|longer| - 1] == y;
  }

  /** A set of points that contains the initial one and is closed under steps. */
  ghost predicate StepClosed(program: Program, points: iset<Point>) {
    (0, Initial()) in points && forall x: Point, y: Point :: x in points && Steps(program, x, y) ==> y in points
  }

  lemma {:induction false} ClosedHoldsTrace(program: Program, points: iset<Point>, trace: seq<Point>)
    requires StepClosed(program, points) && Run(program, trace)
    ensures forall i :: 0 <= i < |trace| ==> trace[i] in points
    decreases |trace|
  {
    hide Steps;
    if |trace| > 1 {
      var last := |trace| - 1;
      var prefix := trace[..last];
      assert forall i: nat :: 0 < i < last ==> StepAt(program, trace, i) ==> StepAt(program, prefix, i);
      ClosedHoldsTrace(program, points, prefix);
      assert StepAt(program, trace, last) && prefix[last - 1] == trace[last - 1];
      forall i | 0 <= i < |trace|
        ensures trace[i] in points
      {
        assert i < last ==> trace[i] == prefix[i];
      }
    }
  }

  /** Induction over executions. */
  lemma ClosedHoldsReachable(program: Program, points: iset<Point>, x: Point)
    requires StepClosed(program, points) && Reachable(program, x)
    ensures x in points
  {
    hide StepClosed;
    var trace: seq<Point> :| Run(program, trace) && trace[|trace| - 1] == x;
    ClosedHoldsTrace(program, points, trace);
  }
}
