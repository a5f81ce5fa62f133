/** Graphs given by a successor list per node, where visiting a node may fail. */
module Graph {
  import opened Insn

  type Visit<E> = Result<seq<nat>, E>

  type Graph<E> = seq<Visit<E>>

  /** Every successor of a visitable node is a node. */
  ghost predicate Closed<E>(g: Graph<E>) {
    forall u: nat, c: nat :: u < |g| && g[u].Ok? && c < |g[u].value| ==> g[u].value[c] < |g|
  }

  predicate Edge<E(==)>(g: Graph<E>, u: nat, v: nat) { u < |g| && g[u].Ok? && v in g[u].value }

  ghost predicate Path<E>(g: Graph<E>, p: seq<nat>) {
    |p| > 0 && forall j: nat :: j + 1 < |p| ==> Edge(g, p[j], p[j + 1])
  }

  ghost predicate PathTo<E>(g: Graph<E>, p: seq<nat>, u: nat, v: nat) {
    Path(g, p) && p[0] == u && p[|p| - 1] == v
  }

  ghost predicate Reachable<E>(g: Graph<E>, v: nat) { exists p :: PathTo(g, p, 0, v) }

  /** A cycle is a path of at least one edge back to its first node. */
  ghost predicate Cycle<E>(g: Graph<E>, p: seq<nat>) {
    Path(g, p) && |p| >= 2 && p[0] == p[|p| - 1]
  }

  ghost predicate OnCycle<E>(g: Graph<E>, v: nat) { exists p :: Cycle(g, p) && p[0] == v }

  lemma ReachableRoot<E>(g: Graph<E>)
    ensures Reachable(g, 0)
  {
    assert PathTo(g, [0], 0, 0);
  }

  lemma ReachableStep<E>(g: Graph<E>, u: nat, v: nat)
    requires Reachable(g, u) && Edge(g, u, v)
    ensures Reachable(g, v)
  {
    var p :| PathTo(g, p, 0, u);
    var q := p + [v];
    forall j: nat | j + 1 < |q|
      ensures Edge(g, q[j], q[j + 1])
    {
    }
    assert PathTo(g, q, 0, v);
  }

  /** A set of nodes that holds the root and is closed under edges holds every
      reachable node. */
  lemma {:induction false} ClosedSetHoldsPath<E>(g: Graph<E>, s: set<nat>, p: seq<nat>, j: nat)
    requires Path(g, p) && p[0] == 0 && 0 in s && j < |p|
    requires forall u: nat, v: nat :: u in s && Edge(g, u, v) ==> v in s
    ensures p[j] in s
  {
    if j > 0 {
      ClosedSetHoldsPath(g, s, p, j - 1);
      assert Edge(g, p[j - 1], p[j]);
    }
  }

  lemma ClosedSetHoldsReachable<E>(g: Graph<E>, s: set<nat>, v: nat)
    requires 0 in s && Reachable(g, v)
    requires forall u: nat, v: nat :: u in s && Edge(g, u, v) ==> v in s
    ensures v in s
  {
    var p :| PathTo(g, p, 0, v);
    ClosedSetHoldsPath(g, s, p, |p| - 1);
  }
}

/** The state of the iterative depth-first search of `check_cfg` and what every
    step of it keeps. */
module Dfs {
  import opened Graph

  datatype Color = NotVisited | Discovering | Explored

  /** `color`, `stack` and `heads` are the search's own variables; `fin` and
      `clock` record when each node was finished. */
  datatype Search = Search(color: seq<Color>, stack: seq<(nat, nat)>, heads: seq<nat>, fin: seq<nat>, clock: nat)

  predicate OnStack(s: Search, v: nat) { exists j: nat :: j < |s.stack| && s.stack[j].0 == v }

  ghost predicate Sized<E>(g: Graph<E>, s: Search) {
    && |s.color| == |g| == |s.fin|
    && (forall j: nat :: j < |s.stack| ==> s.stack[j].0 < |g|)
  }

  ghost predicate Shape<E>(g: Graph<E>, s: Search) {
    && Sized(g, s)
    && (forall i: nat, j: nat :: i < j < |s.stack| ==> s.stack[i].0 != s.stack[j].0)
    && (forall v: nat :: v < |g| ==> (s.color[v].Discovering? <==> OnStack(s, v)))
  }

  /** The stack is a path: each entry was pushed as the child its parent last
      handed out. */
  ghost predicate Linked<E>(g: Graph<E>, s: Search)
    requires Sized(g, s)
  {
    && (forall j: nat :: j < |s.stack| && s.stack[j].1 > 0 ==>
          g[s.stack[j].0].Ok? && s.stack[j].1 <= |g[s.stack[j].0].value|)
    && (forall j: nat :: j + 1 < |s.stack| ==>
          s.stack[j].1 > 0 && g[s.stack[j].0].value[s.stack[j].1 - 1] == s.stack[j + 1].0)
  }

  /** The child was finished earlier, or closes a cycle at a recorded head. */
  ghost predicate Settled(s: Search, v: nat) {
    v in s.heads || (v < |s.color| && s.color[v].Explored?)
  }

  ghost predicate Done<E>(g: Graph<E>, s: Search)
    requires Sized(g, s) && Linked(g, s)
  {
    && (forall j: nat, c: nat :: j < |s.stack| && c < s.stack[j].1 ==>
          Settled(s, g[s.stack[j].0].value[c]) || (c + 1 == s.stack[j].1 && j + 1 < |s.stack|))
    && (forall u: nat :: u < |g| && s.color[u].Explored? ==> g[u].Ok? && s.fin[u] < s.clock)
    && (forall u: nat, v: nat :: u < |g| && s.color[u].Explored? && v < |g| && v in g[u].value ==>
          v in s.heads || (s.color[v].Explored? && s.fin[v] < s.fin[u]))
  }

  ghost predicate Seen<E>(g: Graph<E>, s: Search)
    requires Sized(g, s)
  {
    && 0 < |g| && !s.color[0].NotVisited?
    && (forall v: nat :: v < |g| && !s.color[v].NotVisited? ==> Reachable(g, v))
    && (forall h :: h in s.heads ==> h < |g| && !s.color[h].NotVisited? && OnCycle(g, h))
  }

  ghost predicate Inv<E>(g: Graph<E>, s: Search) {
    Closed(g) && Shape(g, s) && Linked(g, s) && Done(g, s) && Seen(g, s)
  }

  lemma InvInit<E>(g: Graph<E>, color: seq<Color>)
    requires Closed(g) && |g| > 0 && |color| == |g|
    requires color[0].Discovering? && forall v: nat :: 0 < v < |g| ==> color[v].NotVisited?
    ensures Inv(g, Search(color, [(0, 0)], [], seq(|g|, _ => 0), 0))
  {
    var s := Search(color, [(0, 0)], [], seq(|g|, _ => 0), 0);
    assert s.stack[0].0 == 0;
    ReachableRoot(g);
  }

  // ── One step: the top of the stack hands out its next child ──────────────

  ghost predicate Top<E>(g: Graph<E>, s: Search, u: nat, child: nat) {
    |s.stack| > 0 && s.stack[|s.stack| - 1] == (u, child) && u < |g| && g[u].Ok?
  }

  function Advance(s: Search): Search
    requires |s.stack| > 0
  {
    var t := |s.stack| - 1;
    s.(stack := s.stack[..t] + [(s.stack[t].0, s.stack[t].1 + 1)])
  }

  function Push(s: Search, v: nat): Search
    requires |s.stack| > 0 && v < |s.color|
  {
    Advance(s).(stack := Advance(s).stack + [(v, 0)], color := s.color[v := Discovering])
  }

  function AddHead(s: Search, v: nat): Search { if v in s.heads then s else s.(heads := s.heads + [v]) }

  function Finish(s: Search, u: nat): Search
    requires |s.stack| > 0 && u < |s.color| && u < |s.fin|
  {
    s.(stack := s.stack[..|s.stack| - 1], color := s.color[u := Explored], fin := s.fin[u := s.clock],
       clock := s.clock + 1)
  }

  lemma PushStack(s: Search, v: nat, w: nat)
    requires |s.stack| > 0 && v < |s.color|
    ensures OnStack(Push(s, v), w) <==> OnStack(s, w) || w == v
  {
    var r := Push(s, v);
    assert forall j: nat :: j < |s.stack| ==> r.stack[j].0 == s.stack[j].0;
    assert r.stack[|s.stack|] == (v, 0);
    if OnStack(s, w) {
      var j: nat :| j < |s.stack| && s.stack[j].0 == w;
      assert r.stack[j].0 == w;
    }
    if w == v {
      assert r.stack[|s.stack|].0 == w;
    }
  }

  lemma PushKeepsShape<E>(g: Graph<E>, s: Search, u: nat, child: nat, v: nat)
    requires Shape(g, s) && Linked(g, s) && Top(g, s, u, child) && child < |g[u].value|
    requires v == g[u].value[child] && v < |g| && s.color[v].NotVisited?
    ensures Shape(g, Push(s, v)) && Linked(g, Push(s, v))
  {
    hide OnStack;
    var r := Push(s, v);
    var t := |s.stack| - 1;
    assert forall j: nat :: j <= t ==> r.stack[j].0 == s.stack[j].0;
    assert forall j: nat :: j < t ==> r.stack[j] == s.stack[j];
    assert r.stack[t] == (u, child + 1) && r.stack[t + 1] == (v, 0);
    forall w: nat | w < |g|
      ensures r.color[w].Discovering? <==> OnStack(r, w)
    {
      PushStack(s, v, w);
    }
    forall j: nat | j < |s.stack|
      ensures s.stack[j].0 != v
    {
      StackIsGray(g, s, j);
    }
  }

  lemma StackIsGray<E>(g: Graph<E>, s: Search, j: nat)
    requires Shape(g, s) && j < |s.stack|
    ensures s.color[s.stack[j].0].Discovering?
  {
    assert OnStack(s, s.stack[j].0);
  }

  lemma PushKeeps<E>(g: Graph<E>, s: Search, u: nat, child: nat, v: nat)
    requires Inv(g, s) && Top(g, s, u, child) && child < |g[u].value|
    requires v == g[u].value[child] && v < |g| && s.color[v].NotVisited?
    ensures Inv(g, Push(s, v))
  {
    var r := Push(s, v);
    var t := |s.stack| - 1;
    PushKeepsShape(g, s, u, child, v);
    StackIsGray(g, s, t);
    hide OnStack, Shape, Reachable, OnCycle, Closed;
    ReachableStep(g, u, v);
    forall j: nat, c: nat | j < |r.stack| && c < r.stack[j].1
      ensures Settled(r, g[r.stack[j].0].value[c]) || (c + 1 == r.stack[j].1 && j + 1 < |r.stack|)
    {
      if j < t {
        assert r.stack[j] == s.stack[j];
        assert Settled(s, g[s.stack[j].0].value[c]) || c + 1 == s.stack[j].1;
      } else if c < child {
        assert Settled(s, g[s.stack[t].0].value[c]);
      }
    }
  }

  /** The stack from v's entry up, closed by the edge from the top back to v. */
  lemma BackEdgeCycle<E>(g: Graph<E>, s: Search, u: nat, child: nat, v: nat)
    requires Shape(g, s) && Linked(g, s) && Top(g, s, u, child) && child < |g[u].value|
    requires v == g[u].value[child] && v < |g| && s.color[v].Discovering?
    ensures OnCycle(g, v)
  {
    var j: nat :| j < |s.stack| && s.stack[j].0 == v;
    var t := |s.stack| - 1;
    var p := seq(t + 1 - j, i requires 0 <= i < t + 1 - j => s.stack[j + i].0) + [v];
    forall i: nat | i + 1 < |p|
      ensures Edge(g, p[i], p[i + 1])
    {
      if i + j < t {
        var x := s.stack[i + j];
        assert g[x.0].value[x.1 - 1] == s.stack[i + j + 1].0;
      }
    }
    assert Cycle(g, p) && p[0] == v;
  }

  lemma AdvanceKeepsShape<E>(g: Graph<E>, s: Search, u: nat, child: nat)
    requires Shape(g, s) && Linked(g, s) && Top(g, s, u, child) && child < |g[u].value|
    ensures Shape(g, Advance(s)) && Linked(g, Advance(s))
  {
    var r := Advance(s);
    assert |r.stack| == |s.stack| && forall j: nat :: j < |s.stack| ==> r.stack[j].0 == s.stack[j].0;
    forall w: nat
      ensures OnStack(r, w) == OnStack(s, w)
    {
      if OnStack(s, w) {
        var j: nat :| j < |s.stack| && s.stack[j].0 == w;
        assert r.stack[j].0 == w;
      }
    }
  }

  lemma AdvanceKeeps<E>(g: Graph<E>, s: Search, u: nat, child: nat, v: nat)
    requires Inv(g, s) && Top(g, s, u, child) && child < |g[u].value| && v == g[u].value[child]
    requires Settled(s, v)
    ensures Inv(g, Advance(s))
  {
    var r := Advance(s);
    var t := |s.stack| - 1;
    AdvanceKeepsShape(g, s, u, child);
    forall j: nat, c: nat | j < |r.stack| && c < r.stack[j].1
      ensures Settled(r, g[r.stack[j].0].value[c]) || (c + 1 == r.stack[j].1 && j + 1 < |r.stack|)
    {
      if j < t {
        assert r.stack[j] == s.stack[j];
        assert Settled(s, g[s.stack[j].0].value[c]) || c + 1 == s.stack[j].1;
      } else if c < child {
        assert Settled(s, g[s.stack[t].0].value[c]);
      }
    }
  }

  lemma HeadKeeps<E>(g: Graph<E>, s: Search, v: nat)
    requires Inv(g, s) && v < |g| && !s.color[v].NotVisited? && OnCycle(g, v)
    ensures Inv(g, AddHead(s, v)) && Settled(AddHead(s, v), v)
  {
    hide Reachable, OnCycle, Closed;
    var r := AddHead(s, v);
    assert forall x :: x in s.heads ==> x in r.heads;
    assert forall w: nat :: OnStack(r, w) == OnStack(s, w);
    forall j: nat, c: nat | j < |r.stack| && c < r.stack[j].1
      ensures Settled(r, g[r.stack[j].0].value[c]) || (c + 1 == r.stack[j].1 && j + 1 < |r.stack|)
    {
      assert Settled(s, g[s.stack[j].0].value[c]) || (c + 1 == s.stack[j].1 && j + 1 < |s.stack|);
    }
  }

  lemma FinishKeepsShape<E>(g: Graph<E>, s: Search, u: nat, child: nat)
    requires Shape(g, s) && Linked(g, s) && Top(g, s, u, child)
    ensures Shape(g, Finish(s, u)) && Linked(g, Finish(s, u))
  {
    var r := Finish(s, u);
    var t := |s.stack| - 1;
    forall w: nat | w < |g|
      ensures r.color[w].Discovering? <==> OnStack(r, w)
    {
      if OnStack(r, w) {
        var j: nat :| j < |r.stack| && r.stack[j].0 == w;
        assert s.stack[j].0 == w && s.stack[t].0 == u;
      }
      if OnStack(s, w) && w != u {
        var j: nat :| j < |s.stack| && s.stack[j].0 == w;
        assert r.stack[j].0 == w;
      }
    }
  }

  lemma FinishKeeps<E>(g: Graph<E>, s: Search, u: nat, child: nat)
    requires Inv(g, s) && Top(g, s, u, child) && child >= |g[u].value|
    ensures Inv(g, Finish(s, u))
  {
    hide Reachable, OnCycle, Closed;
    var r := Finish(s, u);
    var t := |s.stack| - 1;
    FinishKeepsShape(g, s, u, child);
    assert s.stack[t].0 == u && s.stack[t].1 == child;
    assert OnStack(s, u);
    forall j: nat, c: nat | j < |r.stack| && c < r.stack[j].1
      ensures Settled(r, g[r.stack[j].0].value[c]) || (c + 1 == r.stack[j].1 && j + 1 < |r.stack|)
    {
      assert r.stack[j] == s.stack[j];
      assert Settled(s, g[s.stack[j].0].value[c]) || (c + 1 == s.stack[j].1 && j + 1 < |s.stack|);
      if j + 1 == t && c + 1 == s.stack[j].1 {
        assert g[s.stack[j].0].value[c] == u;
      }
    }
    forall x: nat, v: nat | x < |g| && r.color[x].Explored? && v < |g| && v in g[x].value
      ensures v in r.heads || (r.color[v].Explored? && r.fin[v] < r.fin[x])
    {
      if x == u {
        var c: nat :| c < |g[u].value| && g[u].value[c] == v;
        assert Settled(s, g[s.stack[t].0].value[c]);
      } else {
        assert v in s.heads || (s.color[v].Explored? && s.fin[v] < s.fin[x]);
      }
    }
  }

  // ── The finished search ──────────────────────────────────────────────────

  lemma FinishedIsReachable<E>(g: Graph<E>, s: Search, v: nat)
    requires Inv(g, s) && s.stack == [] && v < |g|
    ensures Reachable(g, v) <==> !s.color[v].NotVisited?
  {
    if Reachable(g, v) {
      var done := set x: nat | x < |g| && s.color[x].Explored?;
      assert s.color[0].Explored? by { assert !OnStack(s, 0); }
      forall x: nat, y: nat | x in done && Edge(g, x, y)
        ensures y in done
      {
        assert !OnStack(s, y);
      }
      ClosedSetHoldsReachable(g, done, v);
    }
  }

  lemma {:induction false} FinishTimesFall<E>(g: Graph<E>, s: Search, p: seq<nat>, j: nat)
    requires Inv(g, s) && s.stack == [] && Path(g, p) && j < |p| && p[0] < |g|
    requires forall x: nat :: x < |g| ==> s.color[x].Explored?
    requires forall x :: x in p ==> x !in s.heads
    ensures p[j] < |g| && s.fin[p[j]] + j <= s.fin[p[0]]
  {
    if j > 0 {
      FinishTimesFall(g, s, p, j - 1);
      assert Edge(g, p[j - 1], p[j]);
      assert p[j] in p;
    }
  }

  /** Without a head on it a cycle would finish before itself. */
  lemma CycleHasHead<E>(g: Graph<E>, s: Search, p: seq<nat>)
    requires Inv(g, s) && s.stack == [] && Cycle(g, p)
    requires forall x: nat :: x < |g| ==> s.color[x].Explored?
    ensures exists h :: h in s.heads && h in p
  {
    if forall h :: h in s.heads ==> h !in p {
      assert Edge(g, p[0], p[1]);
      FinishTimesFall(g, s, p, |p| - 1);
    }
  }

  // ── Termination ──────────────────────────────────────────────────────────

  function Unseen(color: seq<Color>): nat {
    if color == [] then 0 else (if color[0].NotVisited? then 1 else 0) + Unseen(color[1..])
  }

  lemma {:induction false} UnseenUpdate(color: seq<Color>, v: nat, c: Color)
    requires v < |color| && !c.NotVisited?
    ensures Unseen(color[v := c]) == Unseen(color) - (if color[v].NotVisited? then 1 else 0)
  {
    if v > 0 {
      assert color[v := c][1..] == color[1..][v - 1 := c];
      UnseenUpdate(color[1..], v - 1, c);
    } else {
      assert color[v := c][1..] == color[1..];
    }
  }

  /** What the entries of the stack still have to hand out. */
  function Work<E>(g: Graph<E>, stack: seq<(nat, nat)>): nat {
    if stack == [] then 0 else
      var (u, child) := stack[|stack| - 1];
      var n := if u < |g| && g[u].Ok? then |g[u].value| else 0;
      Work(g, stack[..|stack| - 1]) + (if child < n then n - child else 0) + 1
  }

  lemma WorkAdvance<E>(g: Graph<E>, s: Search, u: nat, child: nat)
    requires Top(g, s, u, child) && child < |g[u].value|
    ensures Work(g, Advance(s).stack) < Work(g, s.stack)
  {
    var t := |s.stack| - 1;
    assert Advance(s).stack[..t] == s.stack[..t];
  }
}
