/** The node layer meant for the later pipeline stages: NFA nodes with an
    ordered list of labelled paths, DFA nodes with at most one path per
    symbol, and the two automata that keep their nodes in a table keyed by
    node id together with the alphabet `range` of all path symbols. The
    `&'static i8` path targets of the source are modelled as the target's
    id. */
module Automata {
  import opened Wrappers

  /** The source's `i8` node ids. */
  newtype I8 = x: int | -128 <= x < 128

  /** A path: its symbol and the id of the node it leads to. */
  type Path = (char, I8)

  /** The symbol the source uses to mark an epsilon path. */
  const Epsilon: char := '\0'

  // -----------------------------------------------------------------------
  // NFA nodes

  /** A copy of an NFA node, as `clone` makes it and the node table
      stores it. */
  datatype NfaNodeValue = NfaNodeValue(id: I8, isTerminal: bool, paths: seq<Path>)

  /** The symbols of a list of paths. */
  ghost function Symbols(paths: seq<Path>): set<char>
  {
    set k | 0 <= k < |paths| :: paths[k].0
  }

  /** No symbol labels two paths, and no path is an epsilon path. */
  predicate Deterministic(paths: seq<Path>)
  {
    && (forall i, j :: 0 <= i < j < |paths| ==> paths[i].0 != paths[j].0)
    && (forall i :: 0 <= i < |paths| ==> paths[i].0 != Epsilon)
  }

  class NfaNode {
    var id: I8
    var isTerminal: bool
    var paths: seq<Path>

    /** `NfaNode::new`: a non-terminal node without paths. */
    constructor (id: I8)
      ensures this.id == id && !isTerminal && paths == []
    {
      this.id := id;
      isTerminal := false;
      paths := [];
    }

    /** `clone`: an independent copy of all three fields. */
    function Value(): (v: NfaNodeValue)
      reads this
      ensures v.id == id && v.isTerminal == isTerminal && v.paths == paths
    {
      NfaNodeValue(id, isTerminal, paths)
    }

    /** `is_dfa`: scans the paths in order with a set of the symbols seen so
        far and fails at the first repeated symbol or epsilon path. */
    method IsDfa() returns (b: bool)
      ensures b <==> Deterministic(paths)
    {
      var unique: set<char> := {};
      for k := 0 to |paths|
        invariant unique == set m | 0 <= m < k :: paths[m].0
        invariant forall i, j :: 0 <= i < j < k ==> paths[i].0 != paths[j].0
        invariant forall i :: 0 <= i < k ==> paths[i].0 != Epsilon
      {
        var ch := paths[k].0;
        if ch in unique {
          var m :| 0 <= m < k && paths[m].0 == ch;
          return false;
        }
        if ch == Epsilon {
          return false;
        }
        unique := unique + {ch};
      }
      return true;
    }

    /** `add_path`: appends one path; repeated symbols are kept. */
    method AddPath(ch: char, nodeId: I8)
      modifies this
      ensures paths == old(paths) + [(ch, nodeId)]
      ensures id == old(id) && isTerminal == old(isTerminal)
    {
      paths := paths + [(ch, nodeId)];
    }
  }

  /** Adding a path keeps a node deterministic exactly when its symbol is
      new and not the epsilon marker. */
  lemma AddPathDeterministic(paths: seq<Path>, ch: char, nodeId: I8)
    requires Deterministic(paths)
    ensures Deterministic(paths + [(ch, nodeId)]) <==> ch != Epsilon && ch !in Symbols(paths)
  {
    var p := paths + [(ch, nodeId)];
    if ch in Symbols(paths) {
      var k :| 0 <= k < |paths| && paths[k].0 == ch;
      assert p[k].0 == p[|paths|].0;
    }
    if ch == Epsilon {
      assert p[|paths|].0 == Epsilon;
    }
  }

  /** Both `add_node` methods: the symbols a node's paths add to the
      alphabet. */
  method AddSymbols(range: set<char>, paths: seq<Path>) returns (range': set<char>)
    ensures range' == range + Symbols(paths)
  {
    range' := range;
    for k := 0 to |paths|
      invariant range' == range + set m | 0 <= m < k :: paths[m].0
    {
      var ch := paths[k].0;
      if ch !in range' {
        range' := range' + {ch};
      }
    }
  }

  class Nfa {
    var data: map<I8, NfaNodeValue>
    var range: set<char>

    /** `NFA::new`: one node, id 0, not terminal and without paths, and an
        empty alphabet. */
    constructor ()
      ensures data == map[0 := NfaNodeValue(0, false, [])] && range == {}
    {
      data := map[0 := NfaNodeValue(0, false, [])];
      range := {};
    }

    /** `get_front`: the node with id 0, if there is one. */
    function GetFront(): (r: Option<NfaNodeValue>)
      reads this
      ensures r.Some? <==> 0 in data
      ensures r.Some? ==> r.value == data[0]
    {
      if 0 in data then Some(data[0]) else None
    }

    /** `add_node`: stores a copy of the node under its id, replacing any
        node with that id, and adds its path symbols to the alphabet. */
    method AddNode(node: NfaNode)
      modifies this
      ensures data == old(data)[node.id := node.Value()]
      ensures range == old(range) + Symbols(node.paths)
    {
      data := data[node.id := node.Value()];
      range := AddSymbols(range, node.paths);
    }
  }

  /** A new NFA's front is its one empty start node. */
  method NewNfaFront() returns (front: Option<NfaNodeValue>)
    ensures front == Some(NfaNodeValue(0, false, []))
  {
    var nfa := new Nfa();
    front := nfa.GetFront();
  }

  // -----------------------------------------------------------------------
  // DFA nodes

  /** A copy of a DFA node, as the node table stores it. */
  datatype DfaNodeValue = DfaNodeValue(id: I8, isTerminal: bool, paths: map<char, I8>)

  /** The target of the first path labelled `ch`. */
  function FirstTarget(paths: seq<Path>, ch: char): (t: Option<I8>)
    ensures t.None? <==> ch !in set k | 0 <= k < |paths| :: paths[k].0
    ensures t.Some? ==>
      exists k :: (0 <= k < |paths| && paths[k] == (ch, t.value) && forall m :: 0 <= m < k ==> paths[m].0 != ch)
  {
    if |paths| == 0 then None
    else if paths[0].0 == ch then
      Some(paths[0].1)
    else
      var t := FirstTarget(paths[1..], ch);
      assert forall k :: 0 < k < |paths| ==> paths[k] == paths[1..][k - 1];
      if t.Some? then
        var k :| 0 <= k < |paths| - 1 && paths[1..][k] == (ch, t.value) &&
          forall m :: 0 <= m < k ==> paths[1..][m].0 != ch;
        assert paths[k + 1] == (ch, t.value);
        assert forall m :: 0 <= m < k + 1 ==> paths[m].0 != ch by {
          forall m | 0 < m < k + 1 ensures paths[m].0 != ch {
            assert paths[m] == paths[1..][m - 1];
          }
        }
        t
      else
        assert (set k | 0 <= k < |paths| :: paths[k].0) == {paths[0].0} + set k | 0 <= k < |paths| - 1 :: paths[1..][k].0;
        t
  }

  /** What `DfaNode::from` keeps of a path list: one path per symbol, the
      first one. */
  ghost predicate KeepsFirst(m: map<char, I8>, paths: seq<Path>)
  {
    && m.Keys == Symbols(paths)
    && forall ch :: ch in m ==> FirstTarget(paths, ch) == Some(m[ch])
  }

  class DfaNode {
    var id: I8
    var isTerminal: bool
    var paths: map<char, I8>

    /** `DfaNode::new`: a non-terminal node without paths. */
    constructor (id: I8)
      ensures this.id == id && !isTerminal && paths == map[]
    {
      this.id := id;
      isTerminal := false;
      paths := map[];
    }

    /** `DfaNode::from`: copies id and terminal flag of an NFA node and
        keeps, for every symbol, the first path with that symbol. */
    constructor From(nfaNode: NfaNodeValue)
      ensures id == nfaNode.id && isTerminal == nfaNode.isTerminal
      ensures KeepsFirst(paths, nfaNode.paths)
    {
      var ps := nfaNode.paths;
      var m: map<char, I8> := map[];
      for k := 0 to |ps|
        invariant KeepsFirst(m, ps[..k])
      {
        var ch := ps[k].0;
        assert ps[..k + 1] == ps[..k] + [ps[k]];
        FirstTargetSnoc(ps[..k], ps[k]);
        if ch !in m {
          m := m[ch := ps[k].1];
        }
      }
      assert ps[..|ps|] == ps;
      id := nfaNode.id;
      isTerminal := nfaNode.isTerminal;
      paths := m;
    }

    function Value(): (v: DfaNodeValue)
      reads this
      ensures v.id == id && v.isTerminal == isTerminal && v.paths == paths
    {
      DfaNodeValue(id, isTerminal, paths)
    }

    /** `DfaNode::add_path`: the path on `ch` now leads to `nodeId`,
        replacing any earlier one. */
    method AddPath(ch: char, nodeId: I8)
      modifies this
      ensures paths == old(paths)[ch := nodeId]
      ensures id == old(id) && isTerminal == old(isTerminal)
    {
      paths := paths[ch := nodeId];
    }
  }

  /** Appending a path changes the first target only of a symbol that had
      none. */
  lemma FirstTargetSnoc(paths: seq<Path>, p: Path)
    ensures Symbols(paths + [p]) == Symbols(paths) + {p.0}
    ensures forall ch :: (FirstTarget(paths + [p], ch) ==
      if ch in Symbols(paths) then FirstTarget(paths, ch) else if ch == p.0 then Some(p.1) else None)
  {
    var q := paths + [p];
    assert forall k :: 0 <= k < |paths| ==> q[k] == paths[k];
    assert q[|paths|] == p;
    assert Symbols(q) == Symbols(paths) + {p.0} by {
      forall ch | ch in Symbols(q) ensures ch in Symbols(paths) + {p.0} {
        var k :| 0 <= k < |q| && q[k].0 == ch;
        if k < |paths| {
          assert paths[k].0 == ch;
        }
      }
      forall ch | ch in Symbols(paths) ensures ch in Symbols(q) {
        var k :| 0 <= k < |paths| && paths[k].0 == ch;
        assert q[k].0 == ch;
      }
    }
    forall ch ensures FirstTarget(q, ch) ==
      if ch in Symbols(paths) then FirstTarget(paths, ch) else if ch == p.0 then Some(p.1) else None
    {
      FirstTargetPrefix(paths, p, ch);
    }
  }

  lemma {:induction false} FirstTargetPrefix(paths: seq<Path>, p: Path, ch: char)
    ensures FirstTarget(paths + [p], ch) ==
      if ch in Symbols(paths) then FirstTarget(paths, ch) else if ch == p.0 then Some(p.1) else None
    decreases |paths|
  {
    var q := paths + [p];
    if |paths| == 0 {
      assert q == [p];
      assert q[1..] == [];
    } else {
      assert q[1..] == paths[1..] + [p];
      assert q[0] == paths[0];
      FirstTargetPrefix(paths[1..], p, ch);
      assert Symbols(paths) == {paths[0].0} + Symbols(paths[1..]) by {
        forall c | c in Symbols(paths) ensures c in {paths[0].0} + Symbols(paths[1..]) {
          var k :| 0 <= k < |paths| && paths[k].0 == c;
          if k > 0 {
            assert paths[1..][k - 1].0 == c;
          }
        }
        forall c | c in Symbols(paths[1..]) ensures c in Symbols(paths) {
          var k :| 0 <= k < |paths| - 1 && paths[1..][k].0 == c;
          assert paths[k + 1].0 == c;
        }
      }
    }
  }

  class Dfa {
    var data: map<I8, DfaNodeValue>
    var range: set<char>

    /** `DFA::new`: no nodes and an empty alphabet. */
    constructor ()
      ensures data == map[] && range == {}
    {
      data := map[];
      range := {};
    }

    /** `get_front`: the node with id 0, if there is one. */
    function GetFront(): (r: Option<DfaNodeValue>)
      reads this
      ensures r.Some? <==> 0 in data
      ensures r.Some? ==> r.value == data[0]
    {
      GetNode(0)
    }

    /** `get_node`: the node stored under `id`, if there is one. */
    function GetNode(id: I8): (r: Option<DfaNodeValue>)
      reads this
      ensures r.Some? <==> id in data
      ensures r.Some? ==> r.value == data[id]
    {
      if id in data then Some(data[id]) else None
    }

    /** `add_node`: stores a copy of the node under its id, replacing any
        node with that id, and adds its path symbols to the alphabet. */
    method AddNode(node: DfaNode)
      modifies this
      ensures data == old(data)[node.id := node.Value()]
      ensures range == old(range) + node.paths.Keys
    {
      data := data[node.id := node.Value()];
      var syms := node.paths.Keys;
      var added := range;
      while syms != {}
        invariant added + syms == old(range) + node.paths.Keys
        decreases syms
      {
        var ch :| ch in syms;
        if ch !in added {
          added := added + {ch};
        }
        syms := syms - {ch};
      }
      range := added;
    }

    /** `matches`: walks the automaton from node 0, one path per input
        character, and answers the terminal flag of the node reached.
        The source unwraps the front node and every node it follows a path
        to, so the walk must stay inside the table. */
    method Matches(input: string) returns (b: bool)
      requires Walk(data, 0, input).Some?
      ensures b == Walk(data, 0, input).value
    {
      var current := data[0];
      for k := 0 to |input|
        invariant Walk(data, 0, input) == WalkFrom(data, current, input[k..])
      {
        var ch := input[k];
        assert input[k..][0] == ch && input[k..][1..] == input[k + 1..];
        if ch in current.paths {
          current := data[Follow(current, ch)];
        } else {
          return false;
        }
      }
      return current.isTerminal;
    }
  }

  /** `follow`: the target of the path on `ch`; the source unwraps the
      lookup, so the node must have such a path. */
  function Follow(node: DfaNodeValue, ch: char): (t: I8)
    requires ch in node.paths
    ensures (ch, t) in node.paths.Items
  {
    node.paths[ch]
  }

  /** The answer of the walk from `node` over `w`: `None` where the source
      unwraps a missing node, `Some(false)` at the first character without
      a path, otherwise the terminal flag of the node reached. */
  function WalkFrom(data: map<I8, DfaNodeValue>, node: DfaNodeValue, w: string): Option<bool>
    decreases |w|
  {
    if |w| == 0 then Some(node.isTerminal)
    else if w[0] !in node.paths then Some(false)
    else if Follow(node, w[0]) !in data then None
    else WalkFrom(data, data[Follow(node, w[0])], w[1..])
  }

  /** The walk `matches` does, from the node with id `id`. */
  function Walk(data: map<I8, DfaNodeValue>, id: I8, w: string): Option<bool>
  {
    if id !in data then None else WalkFrom(data, data[id], w)
  }

  /** Every path of `node` leads to a stored node. */
  predicate PathsIn(data: map<I8, DfaNodeValue>, node: DfaNodeValue)
  {
    forall ch :: ch in node.paths ==> node.paths[ch] in data
  }

  /** Every path of every stored node leads to a stored node. */
  predicate Closed(data: map<I8, DfaNodeValue>)
  {
    forall id :: id in data ==> PathsIn(data, data[id])
  }

  /** In a closed table the walk never hits a missing node. */
  lemma {:induction false} ClosedWalkDefined(data: map<I8, DfaNodeValue>, node: DfaNodeValue, w: string)
    requires Closed(data) && PathsIn(data, node)
    ensures WalkFrom(data, node, w).Some?
    decreases |w|
  {
    if |w| > 0 && w[0] in node.paths {
      var t := Follow(node, w[0]);
      assert t in data;
      ClosedWalkDefined(data, data[t], w[1..]);
    }
  }

  /** The node reached after `u`, if every character of `u` has a path. */
  function Reach(data: map<I8, DfaNodeValue>, node: DfaNodeValue, u: string): Option<DfaNodeValue>
    decreases |u|
  {
    if |u| == 0 then Some(node)
    else if u[0] !in node.paths || Follow(node, u[0]) !in data then None
    else Reach(data, data[Follow(node, u[0])], u[1..])
  }

  /** Walking `u + v` is walking `v` from where `u` leads; a prefix that
      leaves the automaton rejects the whole word. */
  lemma {:induction false} WalkAppend(data: map<I8, DfaNodeValue>, node: DfaNodeValue, u: string, v: string)
    requires Closed(data) && PathsIn(data, node)
    ensures Reach(data, node, u).Some? ==> WalkFrom(data, node, u + v) == WalkFrom(data, Reach(data, node, u).value, v)
    ensures Reach(data, node, u).None? ==> WalkFrom(data, node, u + v) == Some(false)
    decreases |u|
  {
    if |u| > 0 {
      assert (u + v)[0] == u[0] && (u + v)[1..] == u[1..] + v;
      if u[0] in node.paths {
        var t := Follow(node, u[0]);
        assert t in data;
        WalkAppend(data, data[t], u[1..], v);
      }
    } else {
      assert u + v == v;
    }
  }

  /** A rejected character rejects every word that starts with it. */
  lemma RejectsAtMissingPath(data: map<I8, DfaNodeValue>, node: DfaNodeValue, ch: char, rest: string)
    requires ch !in node.paths
    ensures WalkFrom(data, node, [ch] + rest) == Some(false)
  {
    assert ([ch] + rest)[0] == ch;
  }
}
