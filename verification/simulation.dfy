/** The set walk both builder drafts use to run an arena NFA on a word.
    `AddNextState` is the visited-guarded depth-first expansion of one
    state along epsilon edges; `Search` keeps the list of current states,
    moves every one of them along its edge for the next character and
    expands the targets, and finally looks for an accepting state. */
module Simulation {
  import opened NfaNode
  import opened Semantics

  predicate Below(s: seq<nat>, n: nat)
  {
    forall i :: 0 <= i < |s| ==> s[i] < n
  }

  lemma SetOfAppend(a: seq<nat>, b: seq<nat>)
    ensures SetOf(a + b) == SetOf(a) + SetOf(b)
  {
    assert forall x :: x in a + b <==> x in a || x in b;
  }

  /** The states a call of `AddNextState` has expanded: the state it was
      called on and everything it marked visited. */
  ghost function Explored(state: nat, added: seq<nat>): set<nat>
  {
    {state} + SetOf(added)
  }

  /** `add_next_state` / `addNextState`. A state without epsilon edges is
      appended to `next`; otherwise every epsilon target not yet in
      `visited` is marked visited and expanded in turn. The visited list
      only grows and stays free of repeats, which bounds the recursion by
      the number of nodes even on epsilon cycles. What the call marks is
      reachable from `state`, every epsilon edge out of what it expanded
      ends in `visited'`, and what it appends to `next` is exactly the
      expanded states without epsilon edges. */
  method AddNextState(nodes: seq<Node>, state: nat, next: seq<nat>, visited: seq<nat>)
    returns (next': seq<nat>, visited': seq<nat>)
    requires Wf(nodes) && state < |nodes|
    requires Distinct(visited) && Below(visited, |nodes|)
    ensures Distinct(visited') && Below(visited', |nodes|)
    ensures |visited| <= |visited'| && visited'[..|visited|] == visited
    ensures |next| <= |next'| && next'[..|next|] == next
    ensures forall i :: |next| <= i < |next'| ==> next'[i] < |nodes|
    ensures forall i :: |visited| <= i < |visited'| ==> EpsReachable(nodes, state, visited'[i])
    ensures forall x, k :: x in Explored(state, visited'[|visited|..]) && 0 <= k < |nodes[x].epsilon| ==>
      nodes[x].epsilon[k] in visited'
    ensures forall x :: x in next'[|next|..] <==>
      x in Explored(state, visited'[|visited|..]) && |nodes[x].epsilon| == 0
    decreases |nodes| - |visited|
  {
    DistinctBelow(visited, |nodes|);
    ReachRefl(nodes, state);
    var eps := nodes[state].epsilon;
    if |eps| > 0 {
      next', visited' := next, visited;
      for j := 0 to |eps|
        invariant Distinct(visited') && Below(visited', |nodes|)
        invariant |visited| <= |visited'| && visited'[..|visited|] == visited
        invariant |next| <= |next'| && next'[..|next|] == next
        invariant forall i :: |next| <= i < |next'| ==> next'[i] < |nodes|
        invariant forall i :: |visited| <= i < |visited'| ==> EpsReachable(nodes, state, visited'[i])
        invariant forall k :: 0 <= k < j ==> eps[k] in visited'
        invariant forall x, k :: x in SetOf(visited'[|visited|..]) && 0 <= k < |nodes[x].epsilon| ==>
          nodes[x].epsilon[k] in visited'
        invariant forall x :: x in next'[|next|..] <==>
          x in SetOf(visited'[|visited|..]) && |nodes[x].epsilon| == 0
      {
        var st := eps[j];
        if st !in visited' {
          var marked := visited' + [st];
          Mark(nodes, state, visited', st);
          var n2, v2 := AddNextState(nodes, st, next', marked);
          ExtendReach(nodes, state, next, visited, next', visited', st, n2, v2);
          ExtendFound(nodes, state, next, visited, next', visited', st, n2, v2);
          next', visited' := n2, v2;
        }
      }
      assert forall x :: x in Explored(state, visited'[|visited|..]) <==>
        x == state || x in SetOf(visited'[|visited|..]);
    } else {
      next', visited' := next + [state], visited;
      assert next'[|next|..] == [state];
      assert visited'[|visited|..] == [];
    }
  }

  /** Marking `st` before the nested call keeps the visited list free of
      repeats and in range, and `st` is reachable from `state`. */
  lemma Mark(nodes: seq<Node>, state: nat, visited: seq<nat>, st: nat)
    requires Wf(nodes) && state < |nodes| && st in nodes[state].epsilon
    requires Distinct(visited) && Below(visited, |nodes|) && st !in visited
    ensures Distinct(visited + [st]) && Below(visited + [st], |nodes|) && |visited| < |nodes|
    ensures EpsReachable(nodes, state, st)
  {
    var marked := visited + [st];
    assert NodeWf(nodes[state], |nodes|);
    assert Distinct(marked);
    DistinctBelow(marked, |nodes|);
    ReachRefl(nodes, st);
    ReachPrepend(nodes, state, st, st);
  }

  /** One step of the expansion loop, first half: the prefixes are kept
      and everything the nested call for `st` visited is reachable from
      `state`. */
  lemma ExtendReach(nodes: seq<Node>, state: nat, next: seq<nat>, visited: seq<nat>,
                    curN: seq<nat>, curV: seq<nat>, st: nat, n2: seq<nat>, v2: seq<nat>)
    requires state < |nodes| && st < |nodes|
    requires |visited| <= |curV| && curV[..|visited|] == visited
    requires |next| <= |curN| && curN[..|next|] == next
    requires forall i :: |visited| <= i < |curV| ==> EpsReachable(nodes, state, curV[i])
    requires EpsReachable(nodes, state, st)
    requires |curV| + 1 <= |v2| && v2[..|curV| + 1] == curV + [st]
    requires |curN| <= |n2| && n2[..|curN|] == curN
    requires forall i :: |curV| + 1 <= i < |v2| ==> EpsReachable(nodes, st, v2[i])
    requires forall i :: |next| <= i < |curN| ==> curN[i] < |nodes|
    requires forall i :: |curN| <= i < |n2| ==> n2[i] < |nodes|
    ensures |visited| <= |v2| && v2[..|visited|] == visited
    ensures |next| <= |n2| && n2[..|next|] == next
    ensures forall i :: |next| <= i < |n2| ==> n2[i] < |nodes|
    ensures forall i :: |visited| <= i < |v2| ==> EpsReachable(nodes, state, v2[i])
    ensures forall x :: x in curV + [st] ==> x in v2
  {
    assert v2[..|curV| + 1] == curV + [st];
    forall i | |next| <= i < |curN| ensures n2[i] < |nodes| {
      assert n2[i] == n2[..|curN|][i];
    }
    assert v2[..|curV|] == curV by {
      assert v2[..|curV|] == v2[..|curV| + 1][..|curV|];
    }
    assert v2[..|visited|] == visited by {
      assert v2[..|visited|] == v2[..|curV|][..|visited|];
    }
    assert n2[..|next|] == next by {
      assert n2[..|next|] == n2[..|curN|][..|next|];
    }
    forall i | |visited| <= i < |v2| ensures EpsReachable(nodes, state, v2[i]) {
      if i < |curV| {
        assert v2[i] == curV[i];
      } else if i > |curV| {
        TransReach(nodes, state, st, v2[i]);
      }
    }
  }

  /** One step of the expansion loop, second half: what the nested call
      for `st` found joins what the loop had found before. */
  lemma ExtendFound(nodes: seq<Node>, state: nat, next: seq<nat>, visited: seq<nat>,
                    curN: seq<nat>, curV: seq<nat>, st: nat, n2: seq<nat>, v2: seq<nat>)
    requires st < |nodes| && Below(curV, |nodes|) && Below(v2, |nodes|)
    requires |visited| <= |curV| && curV[..|visited|] == visited
    requires |next| <= |curN| && curN[..|next|] == next
    requires forall x, k :: x in SetOf(curV[|visited|..]) && 0 <= k < |nodes[x].epsilon| ==>
      nodes[x].epsilon[k] in curV
    requires forall x :: x in curN[|next|..] <==> x in SetOf(curV[|visited|..]) && |nodes[x].epsilon| == 0
    requires |curV| + 1 <= |v2| && v2[..|curV| + 1] == curV + [st]
    requires |curN| <= |n2| && n2[..|curN|] == curN
    requires forall x, k :: x in Explored(st, v2[|curV| + 1..]) && 0 <= k < |nodes[x].epsilon| ==>
      nodes[x].epsilon[k] in v2
    requires forall x :: x in n2[|curN|..] <==> x in Explored(st, v2[|curV| + 1..]) && |nodes[x].epsilon| == 0
    ensures forall x, k :: x in SetOf(v2[|visited|..]) && 0 <= k < |nodes[x].epsilon| ==>
      nodes[x].epsilon[k] in v2
    ensures forall x :: x in n2[|next|..] <==> x in SetOf(v2[|visited|..]) && |nodes[x].epsilon| == 0
  {
    assert v2[..|curV|] == curV by {
      assert v2[..|curV|] == v2[..|curV| + 1][..|curV|];
    }
    var oldNew := curV[|visited|..];
    var inner := v2[|curV| + 1..];
    assert v2[|visited|..] == oldNew + [st] + inner by {
      assert v2 == v2[..|curV| + 1] + inner;
    }
    SetOfAppend(oldNew + [st], inner);
    SetOfAppend(oldNew, [st]);
    assert SetOf(v2[|visited|..]) == SetOf(oldNew) + Explored(st, inner);
    assert n2[|next|..] == curN[|next|..] + n2[|curN|..] by {
      assert n2 == n2[..|curN|] + n2[|curN|..];
    }
    SetOfAppend(curN[|next|..], n2[|curN|..]);
    forall x, k | x in SetOf(v2[|visited|..]) && 0 <= k < |nodes[x].epsilon|
      ensures nodes[x].epsilon[k] in v2
    {
      if x in SetOf(oldNew) {
        assert nodes[x].epsilon[k] in curV;
        assert curV == v2[..|curV|];
      }
    }
  }

  /** A call started with nothing visited appends exactly the frontier of
      its state. */
  lemma FreshCallGivesFrontier(nodes: seq<Node>, state: nat, next: seq<nat>, next': seq<nat>, visited': seq<nat>)
    requires Wf(nodes) && state < |nodes| && Below(visited', |nodes|)
    requires |next| <= |next'|
    requires forall i :: 0 <= i < |visited'| ==> EpsReachable(nodes, state, visited'[i])
    requires forall x, k :: x in Explored(state, visited') && 0 <= k < |nodes[x].epsilon| ==>
      nodes[x].epsilon[k] in visited'
    requires forall x :: x in next'[|next|..] <==> x in Explored(state, visited') && |nodes[x].epsilon| == 0
    ensures SetOf(next'[|next|..]) == Frontier(nodes, state)
  {
    var C := Explored(state, visited');
    ReachRefl(nodes, state);
    forall v | v in C ensures v < |nodes| && EpsReachable(nodes, state, v) {
      if v != state {
        var i :| 0 <= i < |visited'| && visited'[i] == v;
      }
    }
    FrontierOfClosed(nodes, state, C);
  }

  /** The body of the symbol loop of `search`: every current state that
      has an edge for `symbol` is moved along it and the target expanded
      from an empty visited list, which gives one step of the semantics. */
  method StepAll(nodes: seq<Node>, current: seq<nat>, symbol: string) returns (nextStates: seq<nat>)
    requires Wf(nodes) && Below(current, |nodes|)
    ensures Below(nextStates, |nodes|)
    ensures SetOf(nextStates) == Step(nodes, SetOf(current), symbol)
  {
    nextStates := [];
    for j := 0 to |current|
      invariant Below(nextStates, |nodes|)
      invariant SetOf(nextStates) == Step(nodes, SetOf(current[..j]), symbol)
    {
      var state := current[j];
      assert current[..j + 1] == current[..j] + [state];
      SetOfAppend(current[..j], [state]);
      StepAdd(nodes, SetOf(current[..j]), state, symbol);
      if symbol in nodes[state].transition {
        var target := nodes[state].transition[symbol];
        var grown, marked := AddNextState(nodes, target, nextStates, []);
        FreshCallGivesFrontier(nodes, target, nextStates, grown, marked);
        assert grown == nextStates + grown[|nextStates|..] by {
          assert grown == grown[..|nextStates|] + grown[|nextStates|..];
        }
        SetOfAppend(nextStates, grown[|nextStates|..]);
        nextStates := grown;
      }
    }
    assert current[..|current|] == current;
  }

  /** `search`: the states reached after the whole word contain an
      accepting one exactly when the word is in the language of the arena
      started at `start`. */
  method Search(nodes: seq<Node>, start: nat, word: string) returns (accepted: bool)
    requires Wf(nodes) && start < |nodes|
    ensures accepted == Accepts(nodes, start, word)
  {
    var current, visited := AddNextState(nodes, start, [], []);
    FreshCallGivesFrontier(nodes, start, [], current, visited);
    assert Below(current, |nodes|);
    assert current[0..] == current;
    for i := 0 to |word|
      invariant Below(current, |nodes|)
      invariant Run(nodes, SetOf(current), word[i..]) == Run(nodes, Frontier(nodes, start), word)
    {
      assert word[i..][1..] == word[i + 1..];
      current := StepAll(nodes, current, [word[i]]);
    }
    assert SetOf(current) == Run(nodes, Frontier(nodes, start), word);
    for k := 0 to |current|
      invariant forall m :: 0 <= m < k ==> !nodes[current[m]].isEnd
    {
      if nodes[current[k]].isEnd {
        return true;
      }
    }
    return false;
  }
}
