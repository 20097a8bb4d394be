/** The fragment operations of the Thompson construction, as values.
    Both builder drafts grow one arena of nodes: every operation appends
    fresh nodes at the end of the arena and re-wires existing ones, and a
    fragment is named by the arena indices of its entry and exit node.
    Each operation is written as the same sequence of primitive updates the
    builders perform; its contract says node by node what the arena looks
    like afterwards, and that edges stay inside the arena and ids stay equal
    to indices. */
module Thompson {
  import opened NfaNode
  import opened Semantics

  /** A fragment: arena indices of its entry and exit node. */
  datatype Frag = Frag(start: nat, end: nat)

  /** An arena together with the builder's current start and end fields. */
  datatype Arena = Arena(nodes: seq<Node>, start: nat, end: nat)

  /** The id of every node is its arena index: ids come from a counter that
      advances by one with every node pushed. */
  predicate IdsMatch(nodes: seq<Node>)
  {
    forall i :: 0 <= i < |nodes| ==> nodes[i].id == i
  }

  /** A fragment whose two ends are nodes of the arena. */
  predicate FragIn(f: Frag, nodes: seq<Node>)
  {
    f.start < |nodes| && f.end < |nodes|
  }

  /** All nodes below `n` are the same in both arenas, except those in
      `skip`. */
  ghost predicate SameBelow(r: seq<Node>, nodes: seq<Node>, n: nat, skip: set<nat>)
    requires n <= |r| && n <= |nodes|
  {
    forall i {:trigger r[i]} :: 0 <= i < n && i !in skip ==> r[i] == nodes[i]
  }

  // ---------------------------------------------------------------------
  // Primitive updates

  /** Pushes a node without edges onto the arena. */
  function Push(nodes: seq<Node>, isEnd: bool, id: int): (r: seq<Node>)
    ensures |r| == |nodes| + 1 && r[..|nodes|] == nodes && r[|nodes|] == New(isEnd, id)
  {
    nodes + [New(isEnd, id)]
  }

  /** `add_epsilon_transition`: one more epsilon target for `from`. */
  function AddEpsilon(nodes: seq<Node>, from: nat, to: nat): (r: seq<Node>)
    requires from < |nodes|
    ensures |r| == |nodes| && SameBelow(r, nodes, |nodes|, {from})
    ensures r[from] == nodes[from].(epsilon := nodes[from].epsilon + [to])
  {
    nodes[from := nodes[from].(epsilon := nodes[from].epsilon + [to])]
  }

  /** `add_transition`: the edge of `from` on `sym` now leads to `to`,
      replacing any edge `from` had on `sym`. */
  function AddTransition(nodes: seq<Node>, from: nat, to: nat, sym: string): (r: seq<Node>)
    requires from < |nodes|
    ensures |r| == |nodes| && SameBelow(r, nodes, |nodes|, {from})
    ensures r[from] == nodes[from].(transition := nodes[from].transition[sym := to])
  {
    nodes[from := nodes[from].(transition := nodes[from].transition[sym := to])]
  }

  /** Sets the accepting flag of one node. */
  function SetEnd(nodes: seq<Node>, i: nat, isEnd: bool): (r: seq<Node>)
    requires i < |nodes|
    ensures |r| == |nodes| && SameBelow(r, nodes, |nodes|, {i})
    ensures r[i] == nodes[i].(isEnd := isEnd)
  {
    nodes[i := nodes[i].(isEnd := isEnd)]
  }

  /** Pushes the two fresh nodes every fragment constructor starts with:
      a non-accepting start and an accepting end. */
  function PushPair(nodes: seq<Node>, id: int): (r: seq<Node>)
    ensures |r| == |nodes| + 2 && r[..|nodes|] == nodes
    ensures SameBelow(r, nodes, |nodes|, {})
    ensures r[|nodes|] == New(false, id) && r[|nodes| + 1] == New(true, id + 1)
  {
    var once := Push(nodes, false, id);
    var r := Push(once, true, id + 1);
    assert r[..|nodes|] == once[..|nodes|];
    assert forall i :: 0 <= i < |nodes| ==> r[i] == r[..|nodes|][i];
    r
  }

  // ---------------------------------------------------------------------
  // Fragments

  /** `from_epsilon` / `fromEpsilon`: two fresh nodes joined by one
      epsilon edge; only the new end accepts. */
  function FromEpsilon(a: Arena, id: int): (r: Arena)
    ensures |r.nodes| == |a.nodes| + 2 && r.nodes[..|a.nodes|] == a.nodes
    ensures r.start == |a.nodes| && r.end == |a.nodes| + 1
    ensures r.nodes[r.start] == Node(id, false, map[], [r.end])
    ensures r.nodes[r.end] == New(true, id + 1)
  {
    var n := |a.nodes|;
    var pushed := PushPair(a.nodes, id);
    var r := AddEpsilon(pushed, n, n + 1);
    assert r[..n] == pushed[..n];
    Arena(r, n, n + 1)
  }

  /** `from_symbol` / `fromSymbol`: two fresh nodes, the start not
      accepting, the end accepting, and the one edge start --sym--> end. */
  function FromSymbol(a: Arena, sym: string, id: int): (r: Arena)
    ensures |r.nodes| == |a.nodes| + 2 && r.nodes[..|a.nodes|] == a.nodes
    ensures r.start == |a.nodes| && r.end == |a.nodes| + 1
    ensures r.nodes[r.start] == Node(id, false, map[sym := r.end], [])
    ensures r.nodes[r.end] == New(true, id + 1)
  {
    var n := |a.nodes|;
    var pushed := PushPair(a.nodes, id);
    var r := AddTransition(pushed, n, n + 1, sym);
    assert r[..n] == pushed[..n];
    Arena(r, n, n + 1)
  }

  /** The symbols a class edge reads: one character of the class. */
  predicate ClassSymbol(sym: string, chars: string)
  {
    |sym| == 1 && sym[0] in chars
  }

  /** One `add_transition(from, to, c)` per character `c`, in order. */
  function AddClassEdges(nodes: seq<Node>, from: nat, to: nat, chars: string): (r: seq<Node>)
    requires from < |nodes|
    ensures |r| == |nodes| && SameBelow(r, nodes, |nodes|, {from})
    ensures r[from].id == nodes[from].id && r[from].isEnd == nodes[from].isEnd
    ensures r[from].epsilon == nodes[from].epsilon
    ensures forall sym :: sym in r[from].transition <==>
      sym in nodes[from].transition || ClassSymbol(sym, chars)
    ensures forall sym :: sym in r[from].transition ==>
      r[from].transition[sym] == if ClassSymbol(sym, chars) then to else nodes[from].transition[sym]
    decreases |chars|
  {
    if |chars| == 0 then
      nodes
    else
      var init := chars[..|chars| - 1];
      var c := chars[|chars| - 1];
      var r := AddTransition(AddClassEdges(nodes, from, to, init), from, to, [c]);
      assert forall x :: x in chars <==> x in init || x == c;
      assert forall sym :: ClassSymbol(sym, chars) <==> ClassSymbol(sym, init) || sym == [c];
      r
  }

  /** `character_class`: two fresh nodes and one edge start --c--> end for
      every character c of the class, and no other edge. */
  function CharacterClass(a: Arena, chars: string, id: int): (r: Arena)
    ensures |r.nodes| == |a.nodes| + 2 && r.nodes[..|a.nodes|] == a.nodes
    ensures r.start == |a.nodes| && r.end == |a.nodes| + 1
    ensures r.nodes[r.start].id == id && !r.nodes[r.start].isEnd && r.nodes[r.start].epsilon == []
    ensures forall sym :: sym in r.nodes[r.start].transition <==> ClassSymbol(sym, chars)
    ensures forall sym :: sym in r.nodes[r.start].transition ==> r.nodes[r.start].transition[sym] == r.end
    ensures r.nodes[r.end] == New(true, id + 1)
  {
    var n := |a.nodes|;
    var pushed := PushPair(a.nodes, id);
    var r := AddClassEdges(pushed, n, n + 1, chars);
    assert r[..n] == pushed[..n];
    Arena(r, n, n + 1)
  }

  /** Appends `targets`, in order, to the epsilon edges of `from`. */
  function AppendEpsilons(nodes: seq<Node>, from: nat, targets: seq<nat>): (r: seq<Node>)
    requires from < |nodes|
    ensures |r| == |nodes| && SameBelow(r, nodes, |nodes|, {from})
    ensures r[from] == nodes[from].(epsilon := nodes[from].epsilon + targets)
    decreases |targets|
  {
    if |targets| == 0 then
      assert nodes[from].epsilon + targets == nodes[from].epsilon;
      nodes
    else
      var init := targets[..|targets| - 1];
      var r := AddEpsilon(AppendEpsilons(nodes, from, init), from, targets[|targets| - 1]);
      assert nodes[from].epsilon + init + [targets[|targets| - 1]] == nodes[from].epsilon + targets;
      r
  }

  lemma AppendOne(nodes: seq<Node>, from: nat, x: nat)
    requires from < |nodes|
    ensures AppendEpsilons(nodes, from, [x]) == AddEpsilon(nodes, from, x)
  {
    assert [x][..0] == [];
  }

  lemma AppendTwo(nodes: seq<Node>, from: nat, x: nat, y: nat)
    requires from < |nodes|
    ensures AppendEpsilons(nodes, from, [x, y]) == AddEpsilon(AddEpsilon(nodes, from, x), from, y)
  {
    assert [x, y][..1] == [x];
    AppendOne(nodes, from, x);
  }

  /** Links the exit `e` of a fragment onward: it gets one more epsilon edge
      and stops accepting. */
  function Join(nodes: seq<Node>, e: nat, target: nat): (r: seq<Node>)
    requires e < |nodes|
    ensures |r| == |nodes| && SameBelow(r, nodes, |nodes|, {e})
    ensures r[e] == nodes[e].(isEnd := false, epsilon := nodes[e].epsilon + [target])
  {
    SetEnd(AddEpsilon(nodes, e, target), e, false)
  }

  /** The shape shared by the three repetition operators: two fresh nodes,
      the old end stops accepting and gets `endTargets`, the new start gets
      `startTargets`. */
  function Wrap(a: Arena, f: Frag, id: int, endTargets: seq<nat>, startTargets: seq<nat>): (r: Arena)
    requires FragIn(f, a.nodes)
    ensures |r.nodes| == |a.nodes| + 2 && SameBelow(r.nodes, a.nodes, |a.nodes|, {f.end})
    ensures r.start == |a.nodes| && r.end == |a.nodes| + 1
    ensures r.nodes[f.end] == a.nodes[f.end].(isEnd := false, epsilon := a.nodes[f.end].epsilon + endTargets)
    ensures r.nodes[r.start] == Node(id, false, map[], startTargets)
    ensures r.nodes[r.end] == New(true, id + 1)
  {
    var n := |a.nodes|;
    var pushed := PushPair(a.nodes, id);
    var open := SetEnd(pushed, f.end, false);
    var loop := AppendEpsilons(open, f.end, endTargets);
    var wired := AppendEpsilons(loop, n, startTargets);
    assert SameBelow(loop, a.nodes, n, {f.end});
    assert wired[f.end] == loop[f.end] && wired[n + 1] == pushed[n + 1];
    assert open[n] == pushed[n] && loop[n] == pushed[n];
    Arena(wired, n, n + 1)
  }

  /** `asterisk` / `closure`: two fresh nodes; the old end stops accepting
      and gets epsilon edges to the new end and back to the old start, the
      new start gets epsilon edges to the new end and to the old start. */
  function Star(a: Arena, f: Frag, id: int): (r: Arena)
    requires FragIn(f, a.nodes)
    ensures |r.nodes| == |a.nodes| + 2 && SameBelow(r.nodes, a.nodes, |a.nodes|, {f.end})
    ensures r.start == |a.nodes| && r.end == |a.nodes| + 1
    ensures r.nodes[f.end] == a.nodes[f.end].(isEnd := false, epsilon := a.nodes[f.end].epsilon + [r.end, f.start])
    ensures r.nodes[r.start] == Node(id, false, map[], [r.end, f.start])
    ensures r.nodes[r.end] == New(true, id + 1)
  {
    var n := |a.nodes|;
    Wrap(a, f, id, [n + 1, f.start], [n + 1, f.start])
  }

  /** `plus`: as `Star` without the edge from the new start to the new end,
      so the fragment has to be passed at least once. */
  function Plus(a: Arena, f: Frag, id: int): (r: Arena)
    requires FragIn(f, a.nodes)
    ensures |r.nodes| == |a.nodes| + 2 && SameBelow(r.nodes, a.nodes, |a.nodes|, {f.end})
    ensures r.start == |a.nodes| && r.end == |a.nodes| + 1
    ensures r.nodes[f.end] == a.nodes[f.end].(isEnd := false, epsilon := a.nodes[f.end].epsilon + [r.end, f.start])
    ensures r.nodes[r.start] == Node(id, false, map[], [f.start])
    ensures r.nodes[r.end] == New(true, id + 1)
  {
    var n := |a.nodes|;
    Wrap(a, f, id, [n + 1, f.start], [f.start])
  }

  /** `question`: as `Star` without the edge from the old end back to the
      old start, so the fragment is passed at most once. */
  function Question(a: Arena, f: Frag, id: int): (r: Arena)
    requires FragIn(f, a.nodes)
    ensures |r.nodes| == |a.nodes| + 2 && SameBelow(r.nodes, a.nodes, |a.nodes|, {f.end})
    ensures r.start == |a.nodes| && r.end == |a.nodes| + 1
    ensures r.nodes[f.end] == a.nodes[f.end].(isEnd := false, epsilon := a.nodes[f.end].epsilon + [r.end])
    ensures r.nodes[r.start] == Node(id, false, map[], [r.end, f.start])
    ensures r.nodes[r.end] == New(true, id + 1)
  {
    var n := |a.nodes|;
    Wrap(a, f, id, [n + 1], [n + 1, f.start])
  }

  /** `concat`: no new node; the first end gets an epsilon edge to the
      second start and stops accepting, and the result runs from the first
      start to the second end. */
  function Concat(a: Arena, first: Frag, second: Frag): (r: Arena)
    requires first.end < |a.nodes|
    ensures |r.nodes| == |a.nodes| && SameBelow(r.nodes, a.nodes, |a.nodes|, {first.end})
    ensures r.start == first.start && r.end == second.end
    ensures r.nodes[first.end] ==
      a.nodes[first.end].(isEnd := false, epsilon := a.nodes[first.end].epsilon + [second.start])
  {
    Arena(Join(a.nodes, first.end, second.start), first.start, second.end)
  }

  /** `union`: two fresh nodes; the new start gets epsilon edges to both
      branch starts, both branch ends get an epsilon edge to the new end and
      stop accepting. */
  function Union(a: Arena, first: Frag, second: Frag, id: int): (r: Arena)
    requires FragIn(first, a.nodes) && FragIn(second, a.nodes)
    ensures |r.nodes| == |a.nodes| + 2 && SameBelow(r.nodes, a.nodes, |a.nodes|, {first.end, second.end})
    ensures r.start == |a.nodes| && r.end == |a.nodes| + 1
    ensures first.end != second.end ==>
      && r.nodes[first.end] == a.nodes[first.end].(isEnd := false, epsilon := a.nodes[first.end].epsilon + [r.end])
      && r.nodes[second.end] == a.nodes[second.end].(isEnd := false, epsilon := a.nodes[second.end].epsilon + [r.end])
    ensures first.end == second.end ==>
      r.nodes[first.end] == a.nodes[first.end].(isEnd := false, epsilon := a.nodes[first.end].epsilon + [r.end, r.end])
    ensures r.nodes[r.start] == Node(id, false, map[], [first.start, second.start])
    ensures r.nodes[r.end] == New(true, id + 1)
  {
    var n := |a.nodes|;
    var pushed := PushPair(a.nodes, id);
    var branched := AddEpsilon(AddEpsilon(pushed, n, first.start), n, second.start);
    var firstJoined := Join(branched, first.end, n + 1);
    var joined := Join(firstJoined, second.end, n + 1);
    assert branched[n] == Node(id, false, map[], [first.start, second.start]);
    assert joined[n] == firstJoined[n] == branched[n];
    assert joined[n + 1] == firstJoined[n + 1] == branched[n + 1];
    assert SameBelow(branched, a.nodes, n, {});
    assert SameBelow(firstJoined, a.nodes, n, {first.end});
    assert a.nodes[first.end].epsilon + [n + 1] + [n + 1] == a.nodes[first.end].epsilon + [n + 1, n + 1];
    Arena(joined, n, n + 1)
  }

  /** `Union` as the chain of primitive updates it is made of. */
  lemma UnionSteps(a: Arena, first: Frag, second: Frag, id: int)
    requires FragIn(first, a.nodes) && FragIn(second, a.nodes)
    ensures var n := |a.nodes|;
      Union(a, first, second, id) ==
        Arena(Join(Join(AddEpsilon(AddEpsilon(PushPair(a.nodes, id), n, first.start), n, second.start),
                        first.end, n + 1), second.end, n + 1), n, n + 1)
  {
  }

  // ---------------------------------------------------------------------
  // Invariants kept by every fragment operation

  /** A node whose edges point below `size` still does after growing the
      arena and appending targets below the new size. */
  lemma NodeWfAppend(x: Node, size: nat, size2: nat, extra: seq<nat>)
    requires size <= size2 && NodeWf(x, size)
    requires forall k :: 0 <= k < |extra| ==> extra[k] < size2
    ensures NodeWf(x.(epsilon := x.epsilon + extra), size2)
  {
  }

  /** The operations that only push fresh nodes keep edges inside the arena
      and ids equal to indices. */
  lemma FreshKeepsArena(a: Arena, r: Arena, id: int)
    requires |r.nodes| == |a.nodes| + 2 && r.nodes[..|a.nodes|] == a.nodes
    requires r.nodes[|a.nodes|].id == id && r.nodes[|a.nodes| + 1].id == id + 1
    requires NodeWf(r.nodes[|a.nodes|], |r.nodes|) && NodeWf(r.nodes[|a.nodes| + 1], |r.nodes|)
    ensures Wf(a.nodes) ==> Wf(r.nodes)
    ensures IdsMatch(a.nodes) && id == |a.nodes| ==> IdsMatch(r.nodes)
  {
    var n := |a.nodes|;
    forall i | 0 <= i < n ensures r.nodes[i] == a.nodes[i] {
      assert r.nodes[i] == r.nodes[..n][i];
    }
    if Wf(a.nodes) {
      forall i | 0 <= i < n + 2 ensures NodeWf(r.nodes[i], n + 2) {
        if i < n {
          assert NodeWf(a.nodes[i], n);
        }
      }
    }
  }

  lemma FromEpsilonKeepsArena(a: Arena, id: int)
    ensures Wf(a.nodes) ==> Wf(FromEpsilon(a, id).nodes)
    ensures IdsMatch(a.nodes) && id == |a.nodes| ==> IdsMatch(FromEpsilon(a, id).nodes)
  {
    FreshKeepsArena(a, FromEpsilon(a, id), id);
  }

  lemma FromSymbolKeepsArena(a: Arena, sym: string, id: int)
    ensures Wf(a.nodes) ==> Wf(FromSymbol(a, sym, id).nodes)
    ensures IdsMatch(a.nodes) && id == |a.nodes| ==> IdsMatch(FromSymbol(a, sym, id).nodes)
  {
    FreshKeepsArena(a, FromSymbol(a, sym, id), id);
  }

  lemma CharacterClassKeepsArena(a: Arena, chars: string, id: int)
    ensures Wf(a.nodes) ==> Wf(CharacterClass(a, chars, id).nodes)
    ensures IdsMatch(a.nodes) && id == |a.nodes| ==> IdsMatch(CharacterClass(a, chars, id).nodes)
  {
    FreshKeepsArena(a, CharacterClass(a, chars, id), id);
  }

  /** Wrapping a fragment keeps edges inside the arena and ids equal to
      indices, when the new targets are nodes of the grown arena. */
  lemma WrapKeepsArena(a: Arena, f: Frag, id: int, endTargets: seq<nat>, startTargets: seq<nat>)
    requires FragIn(f, a.nodes)
    requires forall k :: 0 <= k < |endTargets| ==> endTargets[k] < |a.nodes| + 2
    requires forall k :: 0 <= k < |startTargets| ==> startTargets[k] < |a.nodes| + 2
    ensures Wf(a.nodes) ==> Wf(Wrap(a, f, id, endTargets, startTargets).nodes)
    ensures IdsMatch(a.nodes) && id == |a.nodes| ==> IdsMatch(Wrap(a, f, id, endTargets, startTargets).nodes)
  {
    if Wf(a.nodes) {
      WrapKeepsWf(a, f, id, endTargets, startTargets);
    }
    if IdsMatch(a.nodes) && id == |a.nodes| {
      WrapKeepsIds(a, f, id, endTargets, startTargets);
    }
  }

  lemma WrapKeepsWf(a: Arena, f: Frag, id: int, endTargets: seq<nat>, startTargets: seq<nat>)
    requires FragIn(f, a.nodes) && Wf(a.nodes)
    requires forall k :: 0 <= k < |endTargets| ==> endTargets[k] < |a.nodes| + 2
    requires forall k :: 0 <= k < |startTargets| ==> startTargets[k] < |a.nodes| + 2
    ensures Wf(Wrap(a, f, id, endTargets, startTargets).nodes)
  {
    var n := |a.nodes|;
    var r := Wrap(a, f, id, endTargets, startTargets).nodes;
    forall i | 0 <= i < n + 2 ensures NodeWf(r[i], n + 2) {
      if i >= n {
      } else if i == f.end {
        NodeWfAppend(a.nodes[i], n, n + 2, endTargets);
      } else {
        assert r[i] == a.nodes[i] && NodeWf(a.nodes[i], n);
      }
    }
  }

  lemma WrapKeepsIds(a: Arena, f: Frag, id: int, endTargets: seq<nat>, startTargets: seq<nat>)
    requires FragIn(f, a.nodes) && IdsMatch(a.nodes) && id == |a.nodes|
    ensures IdsMatch(Wrap(a, f, id, endTargets, startTargets).nodes)
  {
    var n := |a.nodes|;
    var r := Wrap(a, f, id, endTargets, startTargets).nodes;
    forall i | 0 <= i < n + 2 ensures r[i].id == i {
      if i < n && i != f.end {
        assert r[i] == a.nodes[i];
      }
    }
  }

  lemma StarKeepsArena(a: Arena, f: Frag, id: int)
    requires FragIn(f, a.nodes)
    ensures Wf(a.nodes) ==> Wf(Star(a, f, id).nodes)
    ensures IdsMatch(a.nodes) && id == |a.nodes| ==> IdsMatch(Star(a, f, id).nodes)
  {
    var n := |a.nodes|;
    assert Star(a, f, id) == Wrap(a, f, id, [n + 1, f.start], [n + 1, f.start]);
    WrapKeepsArena(a, f, id, [n + 1, f.start], [n + 1, f.start]);
  }

  lemma PlusKeepsArena(a: Arena, f: Frag, id: int)
    requires FragIn(f, a.nodes)
    ensures Wf(a.nodes) ==> Wf(Plus(a, f, id).nodes)
    ensures IdsMatch(a.nodes) && id == |a.nodes| ==> IdsMatch(Plus(a, f, id).nodes)
  {
    var n := |a.nodes|;
    assert Plus(a, f, id) == Wrap(a, f, id, [n + 1, f.start], [f.start]);
    WrapKeepsArena(a, f, id, [n + 1, f.start], [f.start]);
  }

  lemma QuestionKeepsArena(a: Arena, f: Frag, id: int)
    requires FragIn(f, a.nodes)
    ensures Wf(a.nodes) ==> Wf(Question(a, f, id).nodes)
    ensures IdsMatch(a.nodes) && id == |a.nodes| ==> IdsMatch(Question(a, f, id).nodes)
  {
    var n := |a.nodes|;
    assert Question(a, f, id) == Wrap(a, f, id, [n + 1], [n + 1, f.start]);
    WrapKeepsArena(a, f, id, [n + 1], [n + 1, f.start]);
  }

  lemma ConcatKeepsArena(a: Arena, first: Frag, second: Frag)
    requires first.end < |a.nodes|
    ensures Wf(a.nodes) && second.start < |a.nodes| ==> Wf(Concat(a, first, second).nodes)
    ensures IdsMatch(a.nodes) ==> IdsMatch(Concat(a, first, second).nodes)
  {
    var n := |a.nodes|;
    var r := Concat(a, first, second).nodes;
    if Wf(a.nodes) && second.start < n {
      forall i | 0 <= i < n ensures NodeWf(r[i], n) {
        if i == first.end {
          NodeWfAppend(a.nodes[i], n, n, [second.start]);
        } else {
          assert r[i] == a.nodes[i] && NodeWf(a.nodes[i], n);
        }
      }
    }
    if IdsMatch(a.nodes) {
      forall i | 0 <= i < n ensures r[i].id == i {
        if i != first.end {
          assert r[i] == a.nodes[i];
        }
      }
    }
  }

  lemma UnionKeepsArena(a: Arena, first: Frag, second: Frag, id: int)
    requires FragIn(first, a.nodes) && FragIn(second, a.nodes)
    ensures Wf(a.nodes) ==> Wf(Union(a, first, second, id).nodes)
    ensures IdsMatch(a.nodes) && id == |a.nodes| ==> IdsMatch(Union(a, first, second, id).nodes)
  {
    UnionKeepsWf(a, first, second, id);
    var n := |a.nodes|;
    var r := Union(a, first, second, id).nodes;
    if IdsMatch(a.nodes) && id == n {
      forall i | 0 <= i < n + 2 ensures r[i].id == i {
        if i < n && i != first.end && i != second.end {
          assert r[i] == a.nodes[i];
        }
      }
    }
  }

  lemma UnionKeepsWf(a: Arena, first: Frag, second: Frag, id: int)
    requires FragIn(first, a.nodes) && FragIn(second, a.nodes)
    ensures Wf(a.nodes) ==> Wf(Union(a, first, second, id).nodes)
  {
    var n := |a.nodes|;
    var r := Union(a, first, second, id).nodes;
    if Wf(a.nodes) {
      forall i | 0 <= i < n + 2 ensures NodeWf(r[i], n + 2) {
        if i >= n {
        } else if i == first.end && i == second.end {
          NodeWfAppend(a.nodes[i], n, n + 2, [n + 1, n + 1]);
        } else if i == first.end || i == second.end {
          NodeWfAppend(a.nodes[i], n, n + 2, [n + 1]);
        } else {
          assert r[i] == a.nodes[i] && NodeWf(a.nodes[i], n);
        }
      }
    }
  }

  // ---------------------------------------------------------------------
  // Copying with an index offset

  /** A copy of `n` with id `id` and every edge target moved by `offset`;
      a node without symbol edges keeps its empty map. */
  function Shift(n: Node, offset: nat, id: int): (r: Node)
    ensures r.id == id && r.isEnd == n.isEnd
    ensures forall sym :: sym in r.transition <==> sym in n.transition
    ensures forall sym :: sym in n.transition ==> r.transition[sym] == n.transition[sym] + offset
    ensures |r.epsilon| == |n.epsilon|
    ensures forall k {:trigger r.epsilon[k]} :: 0 <= k < |n.epsilon| ==> r.epsilon[k] == n.epsilon[k] + offset
  {
    Node(id, n.isEnd,
         if |n.transition| == 0 then map[] else map sym | sym in n.transition :: n.transition[sym] + offset,
         ShiftTargets(n.epsilon, offset))
  }

  /** The epsilon targets of a copy: each one moved by `offset`. */
  function ShiftTargets(targets: seq<nat>, offset: nat): (r: seq<nat>)
    ensures |r| == |targets|
    ensures forall k {:trigger r[k]} :: 0 <= k < |targets| ==> r[k] == targets[k] + offset
  {
    if |targets| == 0 then []
    else ShiftTargets(targets[..|targets| - 1], offset) + [targets[|targets| - 1] + offset]
  }

  /** `add`: appends a copy of `original`, node by node, whose edges are
      moved by the old arena length and whose ids continue the counter. */
  function Add(nodes: seq<Node>, original: seq<Node>, id: int): (r: seq<Node>)
    ensures |r| == |nodes| + |original| && r[..|nodes|] == nodes
    ensures forall j :: 0 <= j < |original| ==> r[|nodes| + j] == Shift(original[j], |nodes|, id + j)
    decreases |original|
  {
    if |original| == 0 then nodes
    else
      var last := |original| - 1;
      var init := Add(nodes, original[..last], id);
      var r := init + [Shift(original[last], |nodes|, id + last)];
      assert r[..|nodes|] == init[..|nodes|];
      assert forall i :: 0 <= i < |init| ==> r[i] == init[i];
      r
  }

  /** The copy keeps every edge inside the grown arena and continues the
      ids. */
  lemma AddKeepsArena(nodes: seq<Node>, original: seq<Node>, id: int)
    ensures Wf(nodes) && Wf(original) ==> Wf(Add(nodes, original, id))
    ensures IdsMatch(nodes) && id == |nodes| ==> IdsMatch(Add(nodes, original, id))
  {
    if Wf(nodes) && Wf(original) {
      AddKeepsWf(nodes, original, id);
    }
    if IdsMatch(nodes) && id == |nodes| {
      AddKeepsIds(nodes, original, id);
    }
  }

  lemma AddKeepsWf(nodes: seq<Node>, original: seq<Node>, id: int)
    requires Wf(nodes) && Wf(original)
    ensures Wf(Add(nodes, original, id))
  {
    var off := |nodes|;
    var r := Add(nodes, original, id);
    forall i | 0 <= i < |r| ensures NodeWf(r[i], |r|) {
      if i < off {
        assert r[i] == r[..off][i];
        assert NodeWf(nodes[i], off);
      } else {
        var j := i - off;
        assert r[off + j] == Shift(original[j], off, id + j);
        ShiftKeepsEdges(original[j], off, id + j, |original|);
      }
    }
  }

  lemma AddKeepsIds(nodes: seq<Node>, original: seq<Node>, id: int)
    requires IdsMatch(nodes) && id == |nodes|
    ensures IdsMatch(Add(nodes, original, id))
  {
    var off := |nodes|;
    var r := Add(nodes, original, id);
    forall i | 0 <= i < |r| ensures r[i].id == i {
      if i < off {
        assert r[i] == r[..off][i];
      } else {
        var j := i - off;
        assert r[off + j] == Shift(original[j], off, id + j);
      }
    }
  }

  /** A copied node's edges stay inside the arena grown by its offset. */
  lemma ShiftKeepsEdges(n: Node, offset: nat, id: int, size: nat)
    requires NodeWf(n, size)
    ensures NodeWf(Shift(n, offset, id), size + offset)
  {
  }

  // ---------------------------------------------------------------------
  // The state of a builder loop

  /** The builder's state between two tokens: the arena with its start and
      end fields, the stack of fragments and the id counter. */
  datatype Builder = Builder(arena: Arena, stack: seq<Frag>, id: int)

  function Init(): Builder
  {
    Builder(Arena([], 0, 0), [], 0)
  }

  predicate StackIn(stack: seq<Frag>, nodes: seq<Node>)
  {
    forall k :: 0 <= k < |stack| ==> FragIn(stack[k], nodes)
  }

  /** `r` is `b` after popping `k` fragments and pushing the fragment
      that runs from the new start to the new end; the arena only grows. */
  ghost predicate Pushes(b: Builder, r: Builder, k: nat)
  {
    && k <= |b.stack|
    && |r.arena.nodes| >= |b.arena.nodes|
    && StackIn(r.stack, r.arena.nodes)
    && r.stack == b.stack[..|b.stack| - k] + [Frag(r.arena.start, r.arena.end)]
  }

  /** Pops `k` fragments and pushes the one `a` was just given. */
  function Replace(b: Builder, k: nat, a: Arena, id: int): (r: Builder)
    requires StackIn(b.stack, b.arena.nodes) && k <= |b.stack|
    requires |a.nodes| >= |b.arena.nodes| && FragIn(Frag(a.start, a.end), a.nodes)
    ensures Pushes(b, r, k) && r.arena == a && r.id == id
  {
    var rest := b.stack[..|b.stack| - k];
    assert forall j :: 0 <= j < |rest| ==> rest[j] == b.stack[j];
    Builder(a, rest + [Frag(a.start, a.end)], id)
  }
}
