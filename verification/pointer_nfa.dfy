/** The pointer-based draft of the Thompson construction. Its nodes live in
    one growing vector and are linked by raw pointers into that vector; the
    model names each node by its index in the arena instead. The builder
    reads a postfix expression over the operators `*`, `|` and `.` and
    treats every other character as a one-character symbol. */
module PointerNfa {
  import opened Wrappers
  import opened NfaNode
  import opened Semantics
  import opened Thompson

  class Nfa {
    var allNodes: seq<Node>
    var start: nat
    var end: nat

    /** The arena and the two fragment ends, as one value. */
    ghost function State(): Arena
      reads this
    {
      Arena(allNodes, start, end)
    }

    /** `NFA::new`: builds the automaton of a postfix expression. The empty
        expression gives the epsilon fragment; otherwise every character is
        fed to the builder, and the fragment left on top of the stack names
        the automaton. A pop of an empty stack panics in the source, so
        the expression must never pop more fragments than it pushed. */
    constructor (postfixExp: string)
      requires Builds(postfixExp)
      ensures State() == Build(postfixExp)
    {
      allNodes, start, end := [], 0, 0;
      new;
      var id := 0;
      if postfixExp == "" {
        id := FromEpsilon(id);
        return;
      }
      var stack: seq<Frag> := [];
      for i := 0 to |postfixExp|
        invariant FeedAll(Init(), postfixExp[..i]) == Some(Builder(State(), stack, id))
      {
        FeedAllPrefix(Init(), postfixExp, i + 1);
        assert postfixExp[..i + 1][..i] == postfixExp[..i];
        stack, id := Apply(postfixExp[i], stack, id);
      }
      assert postfixExp[..|postfixExp|] == postfixExp;
      var x := stack[|stack| - 1];
      start := x.start;
      end := x.end;
    }

    /** One pass of the token loop of `NFA::new`: pops the operands of
        `token`, builds its fragment and pushes that. */
    method Apply(token: char, stack: seq<Frag>, id: int) returns (stack': seq<Frag>, id': int)
      requires StackIn(stack, allNodes) && |stack| >= Arity(token)
      modifies this
      ensures Feed(Builder(old(State()), stack, id), token) == Some(Builder(State(), stack', id'))
    {
      ghost var b := Builder(State(), stack, id);
      stack' := stack;
      if token == '*' {
        var n := stack'[|stack'| - 1];
        stack' := stack'[..|stack'| - 1];
        id' := Closure(n, id);
        stack' := stack' + [Frag(start, end)];
        assert Feed(b, token) == Some(Builder(State(), stack', id'));
      } else if token == '|' {
        var right := stack'[|stack'| - 1];
        var left := stack'[|stack'| - 2];
        stack' := stack'[..|stack'| - 2];
        id' := Union(left, right, id);
        stack' := stack' + [Frag(start, end)];
        assert Feed(b, token) == Some(Builder(State(), stack', id'));
      } else if token == '.' {
        var right := stack'[|stack'| - 1];
        var left := stack'[|stack'| - 2];
        stack' := stack'[..|stack'| - 2];
        Concat(left, right);
        id' := id;
        stack' := stack' + [Frag(start, end)];
        assert Feed(b, token) == Some(Builder(State(), stack', id'));
      } else {
        id' := FromSymbol([token], id);
        assert stack[..|stack|] == stack;
        stack' := stack' + [Frag(start, end)];
      }
    }

    /** `fromEpsilon`: two fresh nodes joined by an epsilon edge. */
    method FromEpsilon(id: int) returns (id': int)
      modifies this
      ensures State() == Thompson.FromEpsilon(old(State()), id) && id' == id + 2
    {
      var n := |allNodes|;
      allNodes := allNodes + [NfaNode.New(false, id)];
      allNodes := allNodes + [NfaNode.New(true, id + 1)];
      AddEpsilonTransition(n, n + 1);
      start, end := n, n + 1;
      id' := id + 2;
    }

    /** `fromSymbol`: two fresh nodes joined by an edge on `symbol`. */
    method FromSymbol(symbol: string, id: int) returns (id': int)
      modifies this
      ensures State() == Thompson.FromSymbol(old(State()), symbol, id) && id' == id + 2
    {
      var n := |allNodes|;
      allNodes := allNodes + [NfaNode.New(false, id)];
      allNodes := allNodes + [NfaNode.New(true, id + 1)];
      AddTransition(n, n + 1, symbol);
      start, end := n, n + 1;
      id' := id + 2;
    }

    /** `addEpsilonTransition`: writes through the `from` pointer. */
    method AddEpsilonTransition(from: nat, to: nat)
      requires from < |allNodes|
      modifies this
      ensures allNodes == AddEpsilon(old(allNodes), from, to)
      ensures start == old(start) && end == old(end)
    {
      allNodes := allNodes[from := allNodes[from].(epsilon := allNodes[from].epsilon + [to])];
    }

    /** `addTransition`: inserts or overwrites the edge on `symbol`. */
    method AddTransition(from: nat, to: nat, symbol: string)
      requires from < |allNodes|
      modifies this
      ensures allNodes == Thompson.AddTransition(old(allNodes), from, to, symbol)
      ensures start == old(start) && end == old(end)
    {
      allNodes := allNodes[from := allNodes[from].(transition := allNodes[from].transition[symbol := to])];
    }

    /** `closure`: the Kleene star of fragment `nfa`. */
    method Closure(nfa: Frag, id: int) returns (id': int)
      requires FragIn(nfa, allNodes)
      modifies this
      ensures State() == Star(old(State()), nfa, id) && id' == id + 2
    {
      var n := |allNodes|;
      allNodes := Push(allNodes, false, id);
      allNodes := Push(allNodes, true, id + 1);
      ghost var pushed := allNodes;
      allNodes := SetEnd(allNodes, nfa.end, false);
      ghost var open := allNodes;
      allNodes := AddEpsilon(allNodes, nfa.end, n + 1);
      allNodes := AddEpsilon(allNodes, nfa.end, nfa.start);
      ghost var loop := allNodes;
      allNodes := AddEpsilon(allNodes, n, n + 1);
      allNodes := AddEpsilon(allNodes, n, nfa.start);
      start, end := n, n + 1;
      id' := id + 2;
      AppendTwo(open, nfa.end, n + 1, nfa.start);
      AppendTwo(loop, n, n + 1, nfa.start);
    }

    /** `concat`: links the end of `first` to the start of `second`. */
    method Concat(first: Frag, second: Frag)
      requires first.end < |allNodes|
      modifies this
      ensures State() == Thompson.Concat(old(State()), first, second)
    {
      AddEpsilonTransition(first.end, second.start);
      allNodes := allNodes[first.end := allNodes[first.end].(isEnd := false)];
      start, end := first.start, second.end;
    }

    /** `union`: a fresh start branching into both fragments and a fresh
        end both of them lead to. */
    method Union(first: Frag, second: Frag, id: int) returns (id': int)
      requires FragIn(first, allNodes) && FragIn(second, allNodes)
      modifies this
      ensures State() == Thompson.Union(old(State()), first, second, id) && id' == id + 2
    {
      ghost var before := State();
      var n := |allNodes|;
      allNodes := Push(allNodes, false, id);
      allNodes := Push(allNodes, true, id + 1);
      ghost var pushed := allNodes;
      assert pushed == PushPair(before.nodes, id);
      allNodes := AddEpsilon(allNodes, n, first.start);
      allNodes := AddEpsilon(allNodes, n, second.start);
      allNodes := Join(allNodes, first.end, n + 1);
      allNodes := Join(allNodes, second.end, n + 1);
      start, end := n, n + 1;
      UnionSteps(before, first, second, id);
      id' := id + 2;
    }
  }

  // -----------------------------------------------------------------------
  // The builder loop as a fold over the postfix expression

  /** How many fragments a token pops. */
  function Arity(token: char): nat
  {
    if token == '*' then 1 else if token == '|' || token == '.' then 2 else 0
  }

  /** One token of the builder loop; `None` where the source pops an empty
      stack. The token pops its operands and pushes the fragment it
      builds, which is also the builder's new start and end. */
  function Feed(b: Builder, token: char): (r: Option<Builder>)
    requires StackIn(b.stack, b.arena.nodes)
    ensures r.None? <==> |b.stack| < Arity(token)
    ensures r.Some? ==> Pushes(b, r.value, Arity(token))
  {
    var s := b.stack;
    if |s| < Arity(token) then
      None
    else if token == '*' then
      Some(Replace(b, 1, Star(b.arena, s[|s| - 1], b.id), b.id + 2))
    else if token == '|' then
      Some(Replace(b, 2, Union(b.arena, s[|s| - 2], s[|s| - 1], b.id), b.id + 2))
    else if token == '.' then
      var a := Thompson.Concat(b.arena, s[|s| - 2], s[|s| - 1]);
      assert FragIn(s[|s| - 1], b.arena.nodes);
      Some(Replace(b, 2, a, b.id))
    else
      Some(Replace(b, 0, Thompson.FromSymbol(b.arena, [token], b.id), b.id + 2))
  }

  /** The builder loop over a whole token sequence, one token at a time
      from the left. */
  function FeedAll(b: Builder, tokens: string): (r: Option<Builder>)
    requires StackIn(b.stack, b.arena.nodes)
    ensures r.Some? ==> StackIn(r.value.stack, r.value.arena.nodes)
    ensures r.Some? && |tokens| > 0 ==> |r.value.stack| > 0
    decreases |tokens|
  {
    if |tokens| == 0 then
      Some(b)
    else
      match FeedAll(b, tokens[..|tokens| - 1])
      case None => None
      case Some(p) => Feed(p, tokens[|tokens| - 1])
  }

  /** A builder that fails on a prefix fails on the whole expression. */
  lemma {:induction false} FeedAllPrefix(b: Builder, tokens: string, i: nat)
    requires StackIn(b.stack, b.arena.nodes) && i <= |tokens|
    requires FeedAll(b, tokens).Some?
    ensures FeedAll(b, tokens[..i]).Some?
    decreases |tokens|
  {
    if i < |tokens| {
      assert tokens[..|tokens| - 1][..i] == tokens[..i];
      FeedAllPrefix(b, tokens[..|tokens| - 1], i);
    } else {
      assert tokens[..i] == tokens;
    }
  }

  /** The expressions `NFA::new` accepts without panicking. */
  predicate Builds(postfixExp: string)
  {
    postfixExp == "" || FeedAll(Init(), postfixExp).Some?
  }

  /** The automaton `NFA::new` builds. */
  function Build(postfixExp: string): (r: Arena)
    requires Builds(postfixExp)
  {
    if postfixExp == "" then Thompson.FromEpsilon(Init().arena, 0) else FeedAll(Init(), postfixExp).value.arena
  }

  // -----------------------------------------------------------------------
  // What the builder keeps true from token to token

  /** The exit nodes of the fragments on the stack. */
  ghost function EndsOf(stack: seq<Frag>): set<nat>
  {
    set k | 0 <= k < |stack| :: stack[k].end
  }

  predicate DistinctEnds(stack: seq<Frag>)
  {
    forall k1, k2 :: 0 <= k1 < k2 < |stack| ==> stack[k1].end != stack[k2].end
  }

  /** A node accepts exactly when it is the exit of a fragment on the
      stack. */
  ghost predicate Accepting(nodes: seq<Node>, stack: seq<Frag>)
  {
    forall i :: 0 <= i < |nodes| ==> (nodes[i].isEnd <==> i in EndsOf(stack))
  }

  /** Edges stay inside the arena, ids are indices and the counter is the
      arena length, every fragment on the stack is inside the arena, and
      the accepting nodes are exactly the fragment exits, one per
      fragment. */
  ghost predicate Inv(b: Builder)
  {
    && Wf(b.arena.nodes) && IdsMatch(b.arena.nodes) && b.id == |b.arena.nodes|
    && StackIn(b.stack, b.arena.nodes) && DistinctEnds(b.stack)
    && Accepting(b.arena.nodes, b.stack)
  }

  lemma EndsOfSplit(stack: seq<Frag>, k: nat)
    requires k <= |stack|
    ensures EndsOf(stack) == EndsOf(stack[..|stack| - k]) + EndsOf(stack[|stack| - k..])
  {
    var m := |stack| - k;
    forall i | i in EndsOf(stack) ensures i in EndsOf(stack[..m]) + EndsOf(stack[m..]) {
      var j :| 0 <= j < |stack| && stack[j].end == i;
      if j < m {
        assert stack[..m][j] == stack[j];
      } else {
        assert stack[m..][j - m] == stack[j];
      }
    }
    forall i | i in EndsOf(stack[..m]) + EndsOf(stack[m..]) ensures i in EndsOf(stack) {
      if i in EndsOf(stack[..m]) {
        var j :| 0 <= j < m && stack[..m][j].end == i;
        assert stack[j].end == i;
      } else {
        var j :| 0 <= j < k && stack[m..][j].end == i;
        assert stack[m + j].end == i;
      }
    }
  }

  /** After popping `k` fragments, whose exits are `popped`, and pushing
      `f`: if the new arena keeps the accepting flag of every node that was
      not popped, clears it on the popped exits and fresh nodes, and sets
      it on the exit of `f`, then the accepting nodes are again exactly
      the fragment exits. */
  lemma AcceptingAfter(nodes: seq<Node>, r: seq<Node>, stack: seq<Frag>, k: nat, popped: set<nat>, f: Frag)
    requires Accepting(nodes, stack) && DistinctEnds(stack) && StackIn(stack, nodes)
    requires k <= |stack| && popped == EndsOf(stack[|stack| - k..])
    requires |nodes| <= |r| && f.end < |r|
    requires forall j :: 0 <= j < |stack| - k ==> stack[j].end != f.end
    requires forall i :: 0 <= i < |r| ==>
      r[i].isEnd == (if i == f.end then true else if i < |nodes| && i !in popped then nodes[i].isEnd else false)
    ensures Accepting(r, stack[..|stack| - k] + [f])
    ensures DistinctEnds(stack[..|stack| - k] + [f])
  {
    var m := |stack| - k;
    var rest := stack[..m];
    var s' := rest + [f];
    EndsOfSplit(stack, k);
    EndsOfSplit(s', 1);
    assert s'[..|s'| - 1] == rest && s'[|s'| - 1..] == [f];
    assert EndsOf([f]) == {f.end} by {
      assert [f][0] == f;
    }
    forall j | 0 <= j < m ensures rest[j].end < |nodes| && rest[j].end !in popped {
      assert rest[j] == stack[j];
    }
    forall k1, k2 | 0 <= k1 < k2 < |s'| ensures s'[k1].end != s'[k2].end {
      if k2 == m {
        assert s'[k1] == rest[k1];
      } else {
        assert s'[k1] == stack[k1] && s'[k2] == stack[k2];
      }
    }
  }

  /** The accepting flags after `Star`: only the new end accepts among the
      fresh nodes, the wrapped fragment's exit stops accepting, the rest
      keep their flag. */
  lemma StarFlags(a: Arena, f: Frag, id: int)
    requires FragIn(f, a.nodes)
    ensures var r := Star(a, f, id).nodes; var n := |a.nodes|;
      forall i :: 0 <= i < |r| ==>
        r[i].isEnd == (if i == n + 1 then true else if i < n && i !in {f.end} then a.nodes[i].isEnd else false)
  {
    var r := Star(a, f, id).nodes;
    var n := |a.nodes|;
    forall i | 0 <= i < |r|
      ensures r[i].isEnd == (if i == n + 1 then true else if i < n && i !in {f.end} then a.nodes[i].isEnd else false)
    {
      if i < n && i != f.end {
        assert r[i] == a.nodes[i];
      }
    }
  }

  lemma UnionFlags(a: Arena, first: Frag, second: Frag, id: int)
    requires FragIn(first, a.nodes) && FragIn(second, a.nodes)
    ensures var r := Union(a, first, second, id).nodes; var n := |a.nodes|;
      forall i :: 0 <= i < |r| ==>
        r[i].isEnd == (if i == n + 1 then true
                       else if i < n && i !in {first.end, second.end} then a.nodes[i].isEnd else false)
  {
    var r := Union(a, first, second, id).nodes;
    var n := |a.nodes|;
    forall i | 0 <= i < |r|
      ensures r[i].isEnd == (if i == n + 1 then true
                             else if i < n && i !in {first.end, second.end} then a.nodes[i].isEnd else false)
    {
      if i < n && i != first.end && i != second.end {
        assert r[i] == a.nodes[i];
      }
    }
  }

  lemma ConcatFlags(a: Arena, first: Frag, second: Frag)
    requires first.end < |a.nodes| && second.end < |a.nodes| && first.end != second.end
    requires a.nodes[second.end].isEnd
    ensures var r := Thompson.Concat(a, first, second).nodes; var n := |a.nodes|;
      forall i :: 0 <= i < |r| ==>
        r[i].isEnd == (if i == second.end then true
                       else if i < n && i !in {first.end, second.end} then a.nodes[i].isEnd else false)
  {
    var r := Thompson.Concat(a, first, second).nodes;
    forall i | 0 <= i < |r| && i != first.end ensures r[i] == a.nodes[i] {
    }
  }

  lemma SymbolFlags(a: Arena, sym: string, id: int)
    ensures var r := Thompson.FromSymbol(a, sym, id).nodes; var n := |a.nodes|;
      forall i :: 0 <= i < |r| ==>
        r[i].isEnd == (if i == n + 1 then true else if i < n && i !in {} then a.nodes[i].isEnd else false)
  {
    var r := Thompson.FromSymbol(a, sym, id).nodes;
    var n := |a.nodes|;
    forall i | 0 <= i < n ensures r[i] == a.nodes[i] {
      assert r[i] == r[..n][i];
    }
  }

  lemma StarKeepsInv(b: Builder)
    requires Inv(b) && |b.stack| >= 1
    ensures Inv(Feed(b, '*').value)
  {
    var s := b.stack;
    var f := s[|s| - 1];
    var a := Star(b.arena, f, b.id);
    assert Feed(b, '*') == Some(Replace(b, 1, a, b.id + 2));
    StarKeepsArena(b.arena, f, b.id);
    StarFlags(b.arena, f, b.id);
    assert s[|s| - 1..] == [f];
    assert EndsOf([f]) == {f.end} by {
      assert [f][0] == f;
    }
    AcceptingAfter(b.arena.nodes, a.nodes, s, 1, {f.end}, Frag(a.start, a.end));
  }

  lemma UnionKeepsInv(b: Builder)
    requires Inv(b) && |b.stack| >= 2
    ensures Inv(Feed(b, '|').value)
  {
    var s := b.stack;
    var first, second := s[|s| - 2], s[|s| - 1];
    var a := Union(b.arena, first, second, b.id);
    assert Feed(b, '|') == Some(Replace(b, 2, a, b.id + 2));
    UnionKeepsArena(b.arena, first, second, b.id);
    UnionFlags(b.arena, first, second, b.id);
    assert s[|s| - 2..] == [first, second];
    EndsOfPair(first, second);
    AcceptingAfter(b.arena.nodes, a.nodes, s, 2, {first.end, second.end}, Frag(a.start, a.end));
  }

  lemma ConcatKeepsInv(b: Builder)
    requires Inv(b) && |b.stack| >= 2
    ensures Inv(Feed(b, '.').value)
  {
    var s := b.stack;
    var first, second := s[|s| - 2], s[|s| - 1];
    var a := Thompson.Concat(b.arena, first, second);
    assert Feed(b, '.') == Some(Replace(b, 2, a, b.id));
    ConcatKeepsArena(b.arena, first, second);
    ConcatKeepsAccepting(b);
  }

  /** The accepting-flag half of `ConcatKeepsInv`. */
  lemma ConcatKeepsAccepting(b: Builder)
    requires Inv(b) && |b.stack| >= 2
    ensures var s := b.stack; var a := Thompson.Concat(b.arena, s[|s| - 2], s[|s| - 1]);
      && Accepting(a.nodes, s[..|s| - 2] + [Frag(a.start, a.end)])
      && DistinctEnds(s[..|s| - 2] + [Frag(a.start, a.end)])
  {
    var s := b.stack;
    var first, second := s[|s| - 2], s[|s| - 1];
    var a := Thompson.Concat(b.arena, first, second);
    assert s[|s| - 2..] == [first, second];
    EndsOfPair(first, second);
    assert b.arena.nodes[second.end].isEnd by {
      assert s[|s| - 1].end == second.end;
    }
    ConcatFlags(b.arena, first, second);
    AcceptingAfter(b.arena.nodes, a.nodes, s, 2, {first.end, second.end}, Frag(a.start, a.end));
  }

  lemma SymbolKeepsInv(b: Builder, token: char)
    requires Inv(b) && Arity(token) == 0
    ensures Inv(Feed(b, token).value)
  {
    var s := b.stack;
    var a := Thompson.FromSymbol(b.arena, [token], b.id);
    assert Feed(b, token) == Some(Replace(b, 0, a, b.id + 2));
    FromSymbolKeepsArena(b.arena, [token], b.id);
    SymbolFlags(b.arena, [token], b.id);
    assert s[|s|..] == [];
    AcceptingAfter(b.arena.nodes, a.nodes, s, 0, {}, Frag(a.start, a.end));
  }

  lemma EndsOfPair(first: Frag, second: Frag)
    ensures EndsOf([first, second]) == {first.end, second.end}
  {
    assert [first, second][0] == first && [first, second][1] == second;
  }

  lemma FeedKeepsInv(b: Builder, token: char)
    requires Inv(b) && Feed(b, token).Some?
    ensures Inv(Feed(b, token).value)
  {
    if token == '*' {
      StarKeepsInv(b);
    } else if token == '|' {
      UnionKeepsInv(b);
    } else if token == '.' {
      ConcatKeepsInv(b);
    } else {
      SymbolKeepsInv(b, token);
    }
  }

  lemma {:induction false} FeedAllKeepsInv(b: Builder, tokens: string)
    requires Inv(b) && FeedAll(b, tokens).Some?
    ensures Inv(FeedAll(b, tokens).value)
    decreases |tokens|
  {
    if |tokens| > 0 {
      var prefix := tokens[..|tokens| - 1];
      FeedAllPrefix(b, tokens, |tokens| - 1);
      FeedAllKeepsInv(b, prefix);
      FeedKeepsInv(FeedAll(b, prefix).value, tokens[|tokens| - 1]);
    }
  }

  /** The automaton `NFA::new` builds keeps every edge inside the arena,
      numbers its nodes by index, and names two of its nodes as start and
      end. When the expression leaves exactly one fragment, as every
      well-formed postfix expression does, the end node is the only
      accepting node. */
  lemma BuildWellFormed(postfixExp: string)
    requires Builds(postfixExp)
    ensures var r := Build(postfixExp);
      && Wf(r.nodes) && IdsMatch(r.nodes) && r.start < |r.nodes| && r.end < |r.nodes|
      && (postfixExp == "" || |FeedAll(Init(), postfixExp).value.stack| == 1 ==>
          forall i :: 0 <= i < |r.nodes| ==> (r.nodes[i].isEnd <==> i == r.end))
  {
    if postfixExp == "" {
      FromEpsilonKeepsArena(Init().arena, 0);
    } else {
      var b := FeedAll(Init(), postfixExp).value;
      FeedAllKeepsInv(Init(), postfixExp);
      var top := b.stack[|b.stack| - 1];
      assert FragIn(top, b.arena.nodes);
      if |b.stack| == 1 {
        assert EndsOf(b.stack) == {top.end};
      }
    }
  }
}

