/** What an arena NFA accepts, as both simulators compute it.
    The simulators keep, as the set of current states, only the states that
    are reached through epsilon edges and have no epsilon edge of their own;
    a symbol moves each current state along its one edge for that symbol and
    the target is expanded the same way. A word is accepted when, after its
    last symbol, some current state is accepting. */
module Semantics {
  import opened NfaNode

  /** Every edge of `n` points below `size`. */
  ghost predicate NodeWf(n: Node, size: nat)
  {
    && (forall k :: 0 <= k < |n.epsilon| ==> n.epsilon[k] < size)
    && (forall sym :: sym in n.transition ==> n.transition[sym] < size)
  }

  /** Every edge of the arena points at a node of the arena. */
  ghost predicate Wf(nodes: seq<Node>)
  {
    forall i :: 0 <= i < |nodes| ==> NodeWf(nodes[i], |nodes|)
  }

  /** A non-empty walk along epsilon edges. */
  ghost predicate IsEpsPath(nodes: seq<Node>, p: seq<nat>)
  {
    && |p| > 0
    && (forall i :: 0 <= i < |p| ==> p[i] < |nodes|)
    && (forall i :: 0 <= i < |p| - 1 ==> p[i + 1] in nodes[p[i]].epsilon)
  }

  ghost predicate EpsReachable(nodes: seq<Node>, u: nat, v: nat)
  {
    exists p :: IsEpsPath(nodes, p) && p[0] == u && p[|p| - 1] == v
  }

  /** The states kept after expanding `s`: reachable by epsilon edges and
      without an epsilon edge of their own. */
  ghost function Frontier(nodes: seq<Node>, s: nat): set<nat>
  {
    set v: nat | v < |nodes| && EpsReachable(nodes, s, v) && |nodes[v].epsilon| == 0
  }

  /** Where state `s` goes on symbol `sym`. */
  ghost function Move(nodes: seq<Node>, s: nat, sym: string): set<nat>
    requires s < |nodes|
  {
    if sym in nodes[s].transition then Frontier(nodes, nodes[s].transition[sym]) else {}
  }

  ghost function Step(nodes: seq<Node>, S: set<nat>, sym: string): set<nat>
  {
    set s, t | s in S && s < |nodes| && t in Move(nodes, s, sym) :: t
  }

  ghost function Run(nodes: seq<Node>, S: set<nat>, w: string): set<nat>
    decreases |w|
  {
    if |w| == 0 then S else Run(nodes, Step(nodes, S, [w[0]]), w[1..])
  }

  ghost predicate Accepts(nodes: seq<Node>, start: nat, w: string)
  {
    exists v :: v in Run(nodes, Frontier(nodes, start), w) && v < |nodes| && nodes[v].isEnd
  }

  /** A set closed under epsilon edges. */
  ghost predicate Closed(nodes: seq<Node>, C: set<nat>)
  {
    forall x, k :: x in C && x < |nodes| && 0 <= k < |nodes[x].epsilon| ==> nodes[x].epsilon[k] in C
  }

  predicate Distinct(s: seq<nat>)
  {
    forall i, j :: 0 <= i < j < |s| ==> s[i] != s[j]
  }

  function SetOf(s: seq<nat>): set<nat>
  {
    set x | x in s
  }

  lemma ReachRefl(nodes: seq<Node>, u: nat)
    requires u < |nodes|
    ensures EpsReachable(nodes, u, u)
  {
    assert IsEpsPath(nodes, [u]);
  }

  /** Reachability extends backwards along one epsilon edge. */
  lemma ReachPrepend(nodes: seq<Node>, u: nat, t: nat, v: nat)
    requires u < |nodes| && t in nodes[u].epsilon
    requires EpsReachable(nodes, t, v)
    ensures EpsReachable(nodes, u, v)
  {
    var p :| IsEpsPath(nodes, p) && p[0] == t && p[|p| - 1] == v;
    var q := [u] + p;
    assert forall i :: 0 <= i < |q| - 1 ==> q[i + 1] == p[i];
    assert IsEpsPath(nodes, q);
  }

  /** Reachability along epsilon edges is transitive. */
  lemma TransReach(nodes: seq<Node>, u: nat, v: nat, w: nat)
    requires EpsReachable(nodes, u, v) && EpsReachable(nodes, v, w)
    ensures EpsReachable(nodes, u, w)
  {
    var p :| IsEpsPath(nodes, p) && p[0] == u && p[|p| - 1] == v;
    var q :| IsEpsPath(nodes, q) && q[0] == v && q[|q| - 1] == w;
    var r := p + q[1..];
    assert forall i :: 0 <= i < |r| ==> r[i] == if i < |p| then p[i] else q[i - |p| + 1];
    assert IsEpsPath(nodes, r);
  }

  /** One epsilon edge is a walk. */
  lemma ReachEdge(nodes: seq<Node>, u: nat, t: nat)
    requires u < |nodes| && t < |nodes| && t in nodes[u].epsilon
    ensures EpsReachable(nodes, u, t)
  {
    ReachRefl(nodes, t);
    ReachPrepend(nodes, u, t, t);
  }

  /** A walk that starts in a closed set never leaves it. */
  lemma {:induction false} PathStaysIn(nodes: seq<Node>, C: set<nat>, p: seq<nat>, i: nat)
    requires IsEpsPath(nodes, p) && p[0] in C && Closed(nodes, C)
    requires i < |p|
    ensures p[i] in C
    decreases i
  {
    if i > 0 {
      PathStaysIn(nodes, C, p, i - 1);
      var e := nodes[p[i - 1]].epsilon;
      assert p[i] in e;
      var k :| 0 <= k < |e| && e[k] == p[i];
    }
  }

  lemma ClosedHoldsReach(nodes: seq<Node>, C: set<nat>, u: nat, v: nat)
    requires u in C && Closed(nodes, C) && EpsReachable(nodes, u, v)
    ensures v in C
  {
    var p :| IsEpsPath(nodes, p) && p[0] == u && p[|p| - 1] == v;
    PathStaysIn(nodes, C, p, |p| - 1);
  }

  /** The frontier of `s` is pinned down by any closed set of states that
      are all reachable from `s` and contains `s`. */
  lemma FrontierOfClosed(nodes: seq<Node>, s: nat, C: set<nat>)
    requires s in C && Closed(nodes, C)
    requires forall v :: v in C ==> v < |nodes| && EpsReachable(nodes, s, v)
    ensures Frontier(nodes, s) == set v | v in C && |nodes[v].epsilon| == 0
  {
    forall v | v in Frontier(nodes, s)
      ensures v in C
    {
      ClosedHoldsReach(nodes, C, s, v);
    }
  }

  lemma FrontierInRange(nodes: seq<Node>, s: nat)
    ensures forall v :: v in Frontier(nodes, s) ==> v < |nodes| && |nodes[v].epsilon| == 0
  {
  }

  /** A state without epsilon edges is its own frontier. */
  lemma FrontierOfLeaf(nodes: seq<Node>, s: nat)
    requires s < |nodes| && |nodes[s].epsilon| == 0
    ensures Frontier(nodes, s) == {s}
  {
    ReachRefl(nodes, s);
    FrontierOfClosed(nodes, s, {s});
  }

  lemma StepAdd(nodes: seq<Node>, S: set<nat>, s: nat, sym: string)
    requires s < |nodes|
    ensures Step(nodes, S + {s}, sym) == Step(nodes, S, sym) + Move(nodes, s, sym)
  {
  }

  lemma StepUnion(nodes: seq<Node>, S1: set<nat>, S2: set<nat>, sym: string)
    ensures Step(nodes, S1 + S2, sym) == Step(nodes, S1, sym) + Step(nodes, S2, sym)
  {
  }

  lemma StepEmpty(nodes: seq<Node>, sym: string)
    ensures Step(nodes, {}, sym) == {}
  {
  }

  lemma StepSingle(nodes: seq<Node>, s: nat, sym: string)
    requires s < |nodes|
    ensures Step(nodes, {s}, sym) == Move(nodes, s, sym)
  {
    StepAdd(nodes, {}, s, sym);
    StepEmpty(nodes, sym);
  }

  lemma StepPair(nodes: seq<Node>, a: nat, b: nat, sym: string)
    requires a < |nodes| && b < |nodes|
    ensures Step(nodes, {a, b}, sym) == Move(nodes, a, sym) + Move(nodes, b, sym)
  {
    StepAdd(nodes, {a}, b, sym);
    StepSingle(nodes, a, sym);
    assert {a} + {b} == {a, b};
  }

  lemma StepInRange(nodes: seq<Node>, S: set<nat>, sym: string)
    ensures forall v :: v in Step(nodes, S, sym) ==> v < |nodes|
  {
  }

  /** Nothing comes out of the empty set of states. */
  lemma {:induction false} RunEmpty(nodes: seq<Node>, w: string)
    ensures Run(nodes, {}, w) == {}
    decreases |w|
  {
    if |w| > 0 {
      StepEmpty(nodes, [w[0]]);
      RunEmpty(nodes, w[1..]);
    }
  }

  /** A set of states that one symbol maps to itself stays put on any
      repetition of that symbol. */
  lemma {:induction false} RunFixpoint(nodes: seq<Node>, S: set<nat>, c: char, w: string)
    requires Step(nodes, S, [c]) == S
    requires forall i :: 0 <= i < |w| ==> w[i] == c
    ensures Run(nodes, S, w) == S
    decreases |w|
  {
    if |w| > 0 {
      RunFixpoint(nodes, S, c, w[1..]);
    }
  }

  /** A symbol that leads nowhere rejects every word that continues with it. */
  lemma RunDead(nodes: seq<Node>, S: set<nat>, w: string)
    requires |w| > 0 && Step(nodes, S, [w[0]]) == {}
    ensures Run(nodes, S, w) == {}
  {
    RunEmpty(nodes, w[1..]);
  }

  /** A set of distinct states has at most as many elements as the arena. */
  lemma {:induction false} DistinctBelow(s: seq<nat>, n: nat)
    requires Distinct(s) && forall i :: 0 <= i < |s| ==> s[i] < n
    ensures |s| <= n
    decreases n
  {
    if |s| == 0 {
    } else if n - 1 in s {
      var j :| 0 <= j < |s| && s[j] == n - 1;
      var t := s[..j] + s[j + 1..];
      assert forall i :: 0 <= i < |t| ==> t[i] == (if i < j then s[i] else s[i + 1]);
      DistinctBelow(t, n - 1);
    } else {
      DistinctBelow(s, n - 1);
    }
  }
}
