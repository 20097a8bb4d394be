/** The automata the pointer-based builder makes for the expressions of
    its own test module, and the languages they accept. Together with
    `Simulation.Search`, which returns exactly `Accepts`, these pin down
    what `search` answers for every word, not only for the listed ones. */
module PointerExamples {
  import opened Wrappers
  import opened NfaNode
  import opened Semantics
  import opened Thompson
  import opened PointerNfa

  /** Every character of `w` is `c`. */
  predicate AllOf(w: string, c: char)
  {
    forall i :: 0 <= i < |w| ==> w[i] == c
  }

  /** `w` is some `a`s followed by one `b`. */
  predicate AsThenB(w: string)
  {
    |w| > 0 && w[|w| - 1] == 'b' && AllOf(w[..|w| - 1], 'a')
  }

  // -----------------------------------------------------------------------
  // The builder states along the four expressions

  function SymbolA(): Node { Node(0, false, map["a" := 1], []) }
  function SymbolB(at: nat): Node { Node(at, false, map["b" := at + 1], []) }

  function AfterA(): Builder
  {
    Builder(Arena([SymbolA(), New(true, 1)], 0, 1), [Frag(0, 1)], 2)
  }

  function AfterAB(): Builder
  {
    Builder(Arena([SymbolA(), New(true, 1), SymbolB(2), New(true, 3)], 2, 3), [Frag(0, 1), Frag(2, 3)], 4)
  }

  function StarNodes(): seq<Node>
  {
    [SymbolA(), Node(1, false, map[], [3, 0]), Node(2, false, map[], [3, 0]), New(true, 3)]
  }

  function AfterAStar(): Builder
  {
    Builder(Arena(StarNodes(), 2, 3), [Frag(2, 3)], 4)
  }

  /** Feeding one more token to a fold that ends in `p`. */
  lemma FeedThen(b: Builder, init: string, c: char, p: Builder, q: Builder)
    requires StackIn(b.stack, b.arena.nodes) && FeedAll(b, init) == Some(p)
    requires StackIn(p.stack, p.arena.nodes) && Feed(p, c) == Some(q)
    ensures FeedAll(b, init + [c]) == Some(q)
  {
    assert (init + [c])[..|init|] == init;
  }

  lemma AOnInitFrom(b: Builder, init: string)
    requires StackIn(b.stack, b.arena.nodes) && FeedAll(b, init) == Some(Init())
    ensures FeedAll(b, init + ['a']) == Some(AfterA())
  {
    AOnInit();
    FeedThen(b, init, 'a', Init(), AfterA());
  }

  lemma AOnInit()
    ensures Feed(Init(), 'a') == Some(AfterA())
  {
    var fs := Thompson.FromSymbol(Init().arena, "a", 0);
    assert fs.nodes == AfterA().arena.nodes;
    assert Replace(Init(), 0, fs, 2) == AfterA();
  }

  lemma BAfterAFrom(b: Builder, init: string)
    requires StackIn(b.stack, b.arena.nodes) && FeedAll(b, init) == Some(AfterA())
    ensures FeedAll(b, init + ['b']) == Some(AfterAB())
  {
    BAfterA();
    FeedThen(b, init, 'b', AfterA(), AfterAB());
  }

  lemma BAfterA()
    ensures Feed(AfterA(), 'b') == Some(AfterAB())
  {
    var fs := Thompson.FromSymbol(AfterA().arena, "b", 2);
    assert fs.nodes == AfterAB().arena.nodes;
    assert Replace(AfterA(), 0, fs, 4) == AfterAB();
  }

  lemma StarOfA()
    ensures Star(AfterA().arena, Frag(0, 1), 2) == Arena(StarNodes(), 2, 3)
  {
    var st := Star(AfterA().arena, Frag(0, 1), 2);
    assert st.nodes[0] == SymbolA();
    assert st.nodes == StarNodes();
  }

  lemma StarAfterAFrom(b: Builder, init: string)
    requires StackIn(b.stack, b.arena.nodes) && FeedAll(b, init) == Some(AfterA())
    ensures FeedAll(b, init + ['*']) == Some(AfterAStar())
  {
    StarAfterA();
    FeedThen(b, init, '*', AfterA(), AfterAStar());
  }

  lemma StarAfterA()
    ensures Feed(AfterA(), '*') == Some(AfterAStar())
  {
    StarOfA();
    assert Replace(AfterA(), 1, Arena(StarNodes(), 2, 3), 4) == AfterAStar();
  }

  lemma FeedA()
    ensures FeedAll(Init(), "a") == Some(AfterA())
  {
    assert "a" == "" + ['a'];
    AOnInitFrom(Init(), "");
  }

  lemma FeedAB()
    ensures FeedAll(Init(), "ab") == Some(AfterAB())
  {
    assert "ab" == "a" + ['b'];
    FeedA();
    BAfterAFrom(Init(), "a");
  }

  lemma FeedAStar()
    ensures FeedAll(Init(), "a*") == Some(AfterAStar())
  {
    assert "a*" == "a" + ['*'];
    FeedA();
    StarAfterAFrom(Init(), "a");
  }

  // -----------------------------------------------------------------------
  // a*

  lemma StarBuild()
    ensures Builds("a*") && Build("a*") == Arena(StarNodes(), 2, 3)
  {
    FeedAStar();
  }

  lemma StarFrontiers()
    ensures Frontier(StarNodes(), 2) == {0, 3}
    ensures Frontier(StarNodes(), 1) == {0, 3}
  {
    var N := StarNodes();
    ReachRefl(N, 2);
    ReachEdge(N, 2, 3);
    ReachEdge(N, 2, 0);
    FrontierOfClosed(N, 2, {2, 3, 0});
    ReachRefl(N, 1);
    ReachEdge(N, 1, 3);
    ReachEdge(N, 1, 0);
    FrontierOfClosed(N, 1, {1, 3, 0});
  }

  lemma StarMoves(c: char)
    ensures Move(StarNodes(), 0, [c]) == if c == 'a' then Frontier(StarNodes(), 1) else {}
    ensures Move(StarNodes(), 3, [c]) == {}
  {
    assert [c] == "a" <==> c == 'a';
  }

  lemma StarStep(c: char)
    ensures Step(StarNodes(), {0, 3}, [c]) == if c == 'a' then {0, 3} else {}
  {
    var N := StarNodes();
    StarMoves(c);
    StarFrontiers();
    StepPair(N, 0, 3, [c]);
  }

  lemma AllOfTail(w: string, c: char)
    requires |w| > 0
    ensures AllOf(w, c) <==> w[0] == c && AllOf(w[1..], c)
  {
    assert forall i :: 0 < i < |w| ==> w[i] == w[1..][i - 1];
  }

  lemma {:induction false} StarRun(w: string)
    ensures Run(StarNodes(), {0, 3}, w) == if AllOf(w, 'a') then {0, 3} else {}
    decreases |w|
  {
    if |w| > 0 {
      var N := StarNodes();
      var rest := w[1..];
      assert Run(N, {0, 3}, w) == Run(N, Step(N, {0, 3}, [w[0]]), rest);
      StarStep(w[0]);
      AllOfTail(w, 'a');
      if w[0] == 'a' {
        StarRun(rest);
      } else {
        RunEmpty(N, rest);
      }
    }
  }

  /** `a*` accepts exactly the words made of `a`s, the empty word
      included. */
  lemma StarLanguage(w: string)
    ensures Builds("a*")
    ensures var r := Build("a*"); Accepts(r.nodes, r.start, w) <==> AllOf(w, 'a')
  {
    StarBuild();
    StarFrontiers();
    StarRun(w);
  }

  // -----------------------------------------------------------------------
  // ab.

  function ConcatNodes(): seq<Node>
  {
    [SymbolA(), Node(1, false, map[], [2]), SymbolB(2), New(true, 3)]
  }

  lemma ConcatAfterABFrom(b: Builder, init: string)
    requires StackIn(b.stack, b.arena.nodes) && FeedAll(b, init) == Some(AfterAB())
    ensures FeedAll(b, init + ['.']) == Some(Builder(Arena(ConcatNodes(), 0, 3), [Frag(0, 3)], 4))
  {
    ConcatAfterAB();
    FeedThen(b, init, '.', AfterAB(), Builder(Arena(ConcatNodes(), 0, 3), [Frag(0, 3)], 4));
  }

  lemma ConcatAfterAB()
    ensures Feed(AfterAB(), '.') == Some(Builder(Arena(ConcatNodes(), 0, 3), [Frag(0, 3)], 4))
  {
    var b := AfterAB();
    var c := Thompson.Concat(b.arena, Frag(0, 1), Frag(2, 3));
    assert c.nodes[1] == Node(1, false, map[], [2]);
    assert c.nodes[0] == b.arena.nodes[0] && c.nodes[2] == b.arena.nodes[2] && c.nodes[3] == b.arena.nodes[3];
    assert c.nodes == ConcatNodes();
    assert Replace(b, 2, c, 4) == Builder(Arena(ConcatNodes(), 0, 3), [Frag(0, 3)], 4);
  }

  lemma ConcatBuild()
    ensures Builds("ab.") && Build("ab.") == Arena(ConcatNodes(), 0, 3)
  {
    assert "ab." == "ab" + ['.'];
    FeedAB();
    ConcatAfterABFrom(Init(), "ab");
  }

  lemma ConcatMoves(c: char)
    ensures Step(ConcatNodes(), {0}, [c]) == if c == 'a' then {2} else {}
    ensures Step(ConcatNodes(), {2}, [c]) == if c == 'b' then {3} else {}
    ensures Step(ConcatNodes(), {3}, [c]) == {}
  {
    var N := ConcatNodes();
    ReachRefl(N, 1);
    ReachEdge(N, 1, 2);
    FrontierOfClosed(N, 1, {1, 2});
    FrontierOfLeaf(N, 3);
    StepSingle(N, 0, [c]);
    StepSingle(N, 2, [c]);
    StepSingle(N, 3, [c]);
    assert [c] == "a" <==> c == 'a';
    assert [c] == "b" <==> c == 'b';
  }

  lemma ConcatRunFrom2(w: string)
    ensures Run(ConcatNodes(), {2}, w) == if |w| == 0 then {2} else if w == "b" then {3} else {}
  {
    var N := ConcatNodes();
    if |w| > 0 {
      ConcatMoves(w[0]);
      if w[0] != 'b' {
        RunEmpty(N, w[1..]);
      } else if |w| > 1 {
        ConcatMoves(w[1]);
        assert w[1..][0] == w[1];
        RunDead(N, {3}, w[1..]);
      } else {
        assert w == [w[0]];
      }
    }
  }

  lemma ConcatRun(w: string)
    ensures Run(ConcatNodes(), {0}, w) ==
      if |w| == 0 then {0} else if w == "a" then {2} else if w == "ab" then {3} else {}
  {
    var N := ConcatNodes();
    if |w| > 0 {
      ConcatMoves(w[0]);
      if w[0] != 'a' {
        RunEmpty(N, w[1..]);
      } else {
        ConcatRunFrom2(w[1..]);
        assert w == [w[0]] + w[1..];
      }
    }
  }

  /** `ab.` accepts the one word `ab`. */
  lemma ConcatLanguage(w: string)
    ensures Builds("ab.")
    ensures var r := Build("ab."); Accepts(r.nodes, r.start, w) <==> w == "ab"
  {
    ConcatBuild();
    var N := ConcatNodes();
    FrontierOfLeaf(N, 0);
    ConcatRun(w);
    if w == "ab" {
      assert 3 in Run(N, Frontier(N, 0), w) && N[3].isEnd;
    }
  }

  // -----------------------------------------------------------------------
  // ab|

  function UnionNodes(): seq<Node>
  {
    [SymbolA(), Node(1, false, map[], [5]), SymbolB(2), Node(3, false, map[], [5]),
     Node(4, false, map[], [0, 2]), New(true, 5)]
  }

  lemma UnionOfAB()
    ensures Union(AfterAB().arena, Frag(0, 1), Frag(2, 3), 4) == Arena(UnionNodes(), 4, 5)
  {
    var u := Union(AfterAB().arena, Frag(0, 1), Frag(2, 3), 4);
    assert u.nodes[0] == SymbolA() && u.nodes[2] == SymbolB(2);
    assert u.nodes[1] == Node(1, false, map[], [5]) && u.nodes[3] == Node(3, false, map[], [5]);
    assert u.nodes[4] == Node(4, false, map[], [0, 2]) && u.nodes[5] == New(true, 5);
    assert u.nodes == UnionNodes();
  }

  lemma UnionAfterABFrom(b: Builder, init: string)
    requires StackIn(b.stack, b.arena.nodes) && FeedAll(b, init) == Some(AfterAB())
    ensures FeedAll(b, init + ['|']) == Some(Builder(Arena(UnionNodes(), 4, 5), [Frag(4, 5)], 6))
  {
    UnionAfterAB();
    FeedThen(b, init, '|', AfterAB(), Builder(Arena(UnionNodes(), 4, 5), [Frag(4, 5)], 6));
  }

  lemma UnionAfterAB()
    ensures Feed(AfterAB(), '|') == Some(Builder(Arena(UnionNodes(), 4, 5), [Frag(4, 5)], 6))
  {
    UnionOfAB();
    assert Replace(AfterAB(), 2, Arena(UnionNodes(), 4, 5), 6) == Builder(Arena(UnionNodes(), 4, 5), [Frag(4, 5)], 6);
  }

  lemma UnionBuild()
    ensures Builds("ab|") && Build("ab|") == Arena(UnionNodes(), 4, 5)
  {
    assert "ab|" == "ab" + ['|'];
    FeedAB();
    UnionAfterABFrom(Init(), "ab");
  }

  lemma UnionMoves(c: char)
    ensures Step(UnionNodes(), {0, 2}, [c]) == if c == 'a' || c == 'b' then {5} else {}
    ensures Step(UnionNodes(), {5}, [c]) == {}
  {
    var N := UnionNodes();
    ReachRefl(N, 1);
    ReachEdge(N, 1, 5);
    FrontierOfClosed(N, 1, {1, 5});
    ReachRefl(N, 3);
    ReachEdge(N, 3, 5);
    FrontierOfClosed(N, 3, {3, 5});
    StepPair(N, 0, 2, [c]);
    StepSingle(N, 5, [c]);
    assert [c] == "a" <==> c == 'a';
    assert [c] == "b" <==> c == 'b';
  }

  lemma UnionRun(w: string)
    ensures Run(UnionNodes(), {0, 2}, w) ==
      if |w| == 0 then {0, 2} else if w == "a" || w == "b" then {5} else {}
  {
    var N := UnionNodes();
    if |w| > 0 {
      UnionMoves(w[0]);
      if w[0] != 'a' && w[0] != 'b' {
        RunEmpty(N, w[1..]);
      } else if |w| > 1 {
        UnionMoves(w[1]);
        assert w[1..][0] == w[1];
        RunDead(N, {5}, w[1..]);
      } else {
        assert w == [w[0]];
      }
    }
  }

  lemma UnionFrontier()
    ensures Frontier(UnionNodes(), 4) == {0, 2}
  {
    var N := UnionNodes();
    ReachRefl(N, 4);
    ReachEdge(N, 4, 0);
    ReachEdge(N, 4, 2);
    FrontierOfClosed(N, 4, {4, 0, 2});
  }

  lemma UnionAccepts(w: string)
    ensures Accepts(UnionNodes(), 4, w) <==> w == "a" || w == "b"
  {
    UnionFrontier();
    UnionRun(w);
    var N := UnionNodes();
    if w == "a" || w == "b" {
      assert 5 in Run(N, Frontier(N, 4), w) && N[5].isEnd;
    }
  }

  /** `ab|` accepts the two words `a` and `b`. */
  lemma UnionLanguage(w: string)
    ensures Builds("ab|")
    ensures var r := Build("ab|"); Accepts(r.nodes, r.start, w) <==> w == "a" || w == "b"
  {
    UnionBuild();
    UnionAccepts(w);
  }

  // -----------------------------------------------------------------------
  // a*b.

  function StarConcatNodes(): seq<Node>
  {
    [SymbolA(), Node(1, false, map[], [3, 0]), Node(2, false, map[], [3, 0]), Node(3, false, map[], [4]),
     SymbolB(4), New(true, 5)]
  }

  function AfterAStarB(): Builder
  {
    Builder(Arena([SymbolA(), Node(1, false, map[], [3, 0]), Node(2, false, map[], [3, 0]), New(true, 3),
                   SymbolB(4), New(true, 5)], 4, 5), [Frag(2, 3), Frag(4, 5)], 6)
  }

  lemma FeedAStarB()
    ensures FeedAll(Init(), "a*b") == Some(AfterAStarB())
  {
    assert "a*b" == "a*" + ['b'];
    FeedAStar();
    BAfterAStarFrom(Init(), "a*");
  }

  lemma BAfterAStarFrom(b: Builder, init: string)
    requires StackIn(b.stack, b.arena.nodes) && FeedAll(b, init) == Some(AfterAStar())
    ensures FeedAll(b, init + ['b']) == Some(AfterAStarB())
  {
    FeedBAfterAStar();
    FeedThen(b, init, 'b', AfterAStar(), AfterAStarB());
  }

  lemma FeedBAfterAStar()
    ensures Feed(AfterAStar(), 'b') == Some(AfterAStarB())
  {
    var fs := Thompson.FromSymbol(AfterAStar().arena, "b", 4);
    assert fs.nodes == AfterAStarB().arena.nodes;
    assert Replace(AfterAStar(), 0, fs, 6) == AfterAStarB();
  }

  lemma ConcatAfterAStarBFrom(b: Builder, init: string)
    requires StackIn(b.stack, b.arena.nodes) && FeedAll(b, init) == Some(AfterAStarB())
    ensures FeedAll(b, init + ['.']) == Some(Builder(Arena(StarConcatNodes(), 2, 5), [Frag(2, 5)], 6))
  {
    ConcatAfterAStarB();
    FeedThen(b, init, '.', AfterAStarB(), Builder(Arena(StarConcatNodes(), 2, 5), [Frag(2, 5)], 6));
  }

  lemma ConcatAfterAStarB()
    ensures Feed(AfterAStarB(), '.') == Some(Builder(Arena(StarConcatNodes(), 2, 5), [Frag(2, 5)], 6))
  {
    var b2 := AfterAStarB();
    var c := Thompson.Concat(b2.arena, Frag(2, 3), Frag(4, 5));
    StarConcatJoin();
    assert Replace(b2, 2, c, 6) == Builder(Arena(StarConcatNodes(), 2, 5), [Frag(2, 5)], 6);
  }

  lemma StarConcatBuild()
    ensures Builds("a*b.") && Build("a*b.") == Arena(StarConcatNodes(), 2, 5)
  {
    assert "a*b." == "a*b" + ['.'];
    FeedAStarB();
    ConcatAfterAStarBFrom(Init(), "a*b");
  }

  lemma StarConcatJoin()
    ensures Thompson.Concat(AfterAStarB().arena, Frag(2, 3), Frag(4, 5)).nodes == StarConcatNodes()
  {
    var b2 := AfterAStarB();
    var c := Thompson.Concat(b2.arena, Frag(2, 3), Frag(4, 5));
    assert c.nodes[3] == Node(3, false, map[], [4]);
    assert c.nodes[0] == SymbolA() && c.nodes[4] == SymbolB(4);
    assert c.nodes[1] == b2.arena.nodes[1] && c.nodes[2] == b2.arena.nodes[2] && c.nodes[5] == b2.arena.nodes[5];
  }

  lemma StarConcatFrontiers()
    ensures Frontier(StarConcatNodes(), 2) == {0, 4}
    ensures Frontier(StarConcatNodes(), 1) == {0, 4}
  {
    StarConcatFrontierOf(2);
    StarConcatFrontierOf(1);
  }

  lemma StarConcatFrontierOf(x: nat)
    requires x == 1 || x == 2
    ensures Frontier(StarConcatNodes(), x) == {0, 4}
  {
    var N := StarConcatNodes();
    assert N[x].epsilon == [3, 0];
    ReachEdge(N, 3, 4);
    ReachRefl(N, x);
    ReachEdge(N, x, 3);
    ReachEdge(N, x, 0);
    TransReach(N, x, 3, 4);
    FrontierOfClosed(N, x, {x, 3, 0, 4});
  }

  lemma StarConcatMoves(c: char)
    ensures Step(StarConcatNodes(), {0, 4}, [c]) == if c == 'a' then {0, 4} else if c == 'b' then {5} else {}
    ensures Step(StarConcatNodes(), {5}, [c]) == {}
  {
    var N := StarConcatNodes();
    StarConcatFrontiers();
    FrontierOfLeaf(N, 5);
    StepPair(N, 0, 4, [c]);
    StepSingle(N, 5, [c]);
    assert [c] == "a" <==> c == 'a';
    assert [c] == "b" <==> c == 'b';
  }

  lemma AsThenBTail(w: string)
    requires |w| > 1 && w[0] == 'a'
    ensures AllOf(w, 'a') <==> AllOf(w[1..], 'a')
    ensures AsThenB(w) <==> AsThenB(w[1..])
  {
    assert forall j :: 0 <= j < |w| - 1 ==> w[1..][j] == w[j + 1];
    assert w[1..][..|w| - 2] == w[..|w| - 1][1..];
    assert w[1..][|w| - 2] == w[|w| - 1];
  }

  lemma {:induction false} StarConcatRun(w: string)
    ensures Run(StarConcatNodes(), {0, 4}, w) ==
      if AllOf(w, 'a') then {0, 4} else if AsThenB(w) then {5} else {}
    decreases |w|
  {
    var N := StarConcatNodes();
    if |w| > 0 {
      StarConcatMoves(w[0]);
      if w[0] == 'a' {
        StarConcatRun(w[1..]);
        if |w| > 1 {
          AsThenBTail(w);
        }
      } else if w[0] == 'b' {
        if |w| > 1 {
          assert !AsThenB(w) by {
            assert w[..|w| - 1][0] == 'b';
          }
          StarConcatMoves(w[1]);
          assert w[1..][0] == w[1];
          RunDead(N, {5}, w[1..]);
        }
      } else {
        RunEmpty(N, w[1..]);
        assert !AsThenB(w) by {
          if |w| > 1 {
            assert w[..|w| - 1][0] == w[0];
          }
        }
      }
    }
  }

  /** `a*b.` accepts exactly the words made of some `a`s and then one
      `b`. */
  lemma StarConcatLanguage(w: string)
    ensures Builds("a*b.")
    ensures var r := Build("a*b."); Accepts(r.nodes, r.start, w) <==> AsThenB(w)
  {
    StarConcatBuild();
    StarConcatAccepts(w);
  }

  lemma StarConcatAccepts(w: string)
    ensures Accepts(StarConcatNodes(), 2, w) <==> AsThenB(w)
  {
    var N := StarConcatNodes();
    StarConcatFrontiers();
    StarConcatRun(w);
    var R := Run(N, {0, 4}, w);
    if AllOf(w, 'a') {
      NotBoth(w);
      assert R == {0, 4};
      assert !N[0].isEnd && !N[4].isEnd;
    } else if AsThenB(w) {
      assert 5 in R && N[5].isEnd;
    } else {
      assert R == {};
    }
  }

  lemma NotBoth(w: string)
    requires AllOf(w, 'a')
    ensures !AsThenB(w)
  {
    if |w| > 0 {
      assert w[|w| - 1] == 'a';
    }
  }
}
