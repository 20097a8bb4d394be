/** Patterns run through the whole of `Regex::new`: the front end, the
    token loop and, for the shared operators, the languages proved for the
    pointer builder. */
module RegexExamples {
  import opened Wrappers
  import opened NfaNode
  import opened Semantics
  import opened Thompson
  import opened RegexInfix
  import opened RegexBuild
  import RegexAgree
  import PointerNfa
  import PointerExamples

  lemma PostfixAb()
    ensures ToPostfix("ab") == Some("ab.")
  {
    InsertedAb();
    ShuntAb();
  }

  lemma ShuntAb()
    ensures Postfix("a.b") == "ab."
  {
    assert "a.b"[..2] == "a." && "a.b"[..1] == "a" && "a."[..1] == "a" && "a"[..0] == "";
    assert "a.b"[2] == 'b' && "a."[1] == '.' && "a"[0] == 'a';
    assert ShuntAll("a") == Shunt("a", "");
    assert ShuntAll("a.") == Shunt("a", ".");
    assert ShuntAll("a.b") == Shunt("ab", ".");
    assert "."[..0] == "";
    assert Drain(Shunt("ab.", "")) == "ab.";
  }

  lemma InsertedAb()
    ensures Inserted("ab") == Some("a.b")
  {
    var r := "ab";
    assert r[0] == 'a' && r[1] == 'b' && |r| == 2;
    assert Emits(r, 2) == Some([]);
    assert 'b' !in "(|[]{}";
    assert [Copied('b')] + [] == [Copied('b')];
    assert Emits(r, 1) == Some([Copied('b')]);
    assert 'a' !in "(|[]{}" && 'b' !in "*?+|)]{";
    assert Emits(r, 0) == Some([Copied('a'), Marker] + [Copied('b')]);
    assert [Copied('a'), Marker] + [Copied('b')] == [Copied('a'), Marker, Copied('b')];
    assert Render([Copied('a'), Marker, Copied('b')]) == "a.b";
  }

  /** `ab` accepts the one word `ab`. */
  lemma RegexAbLanguage(w: string)
    ensures NewRegex("ab").Some?
    ensures var r := NewRegex("ab").value; Accepts(r.nodes, r.start, w) <==> w == "ab"
  {
    PostfixAb();
    RegexAgree.BuildRegexAgrees("ab.");
    PointerExamples.ConcatLanguage(w);
  }

  /** The pass over the tokens, unfolded at its last token. */
  lemma ShuntAllSnoc(t: string, c: char)
    ensures ShuntAll(t + [c]) == ShuntStep(ShuntAll(t), c)
  {
    assert (t + [c])[..|t|] == t;
  }

  lemma PostfixAOrB()
    ensures ToPostfix("a|b") == Some("ab|")
  {
    InsertedAOrB();
    ShuntAOrB();
  }

  lemma InsertedAOrB()
    ensures Inserted("a|b") == Some("a|b")
  {
    var r := "a|b";
    assert r[0] == 'a' && r[1] == '|' && r[2] == 'b' && |r| == 3;
    assert Emits(r, 3) == Some([]);
    assert [Copied('b')] + [] == [Copied('b')];
    assert Emits(r, 2) == Some([Copied('b')]);
    assert '|' in "(|[]{}";
    assert [Copied('|')] + [Copied('b')] == [Copied('|'), Copied('b')];
    assert Emits(r, 1) == Some([Copied('|'), Copied('b')]);
    assert 'a' !in "(|[]{}" && '|' in "*?+|)]{";
    assert [Copied('a')] + [Copied('|'), Copied('b')] == [Copied('a'), Copied('|'), Copied('b')];
    assert Emits(r, 0) == Some([Copied('a'), Copied('|'), Copied('b')]);
    assert Render([Copied('a'), Copied('|'), Copied('b')]) == "a|b";
  }

  lemma ShuntAOrB()
    ensures Postfix("a|b") == "ab|"
  {
    ShuntAllSnoc("", 'a');
    ShuntAllSnoc("a", '|');
    ShuntAllSnoc("a|", 'b');
    assert ShuntAll("a") == Shunt("a", "");
    assert ShuntAll("a|") == Shunt("a", "|");
    assert ShuntAll("a|b") == Shunt("ab", "|");
    assert "|"[..0] == "";
    assert Drain(Shunt("ab|", "")) == "ab|";
  }

  /** `a|b` accepts the two one-letter words `a` and `b`. */
  lemma RegexAOrBLanguage(w: string)
    ensures NewRegex("a|b").Some?
    ensures var r := NewRegex("a|b").value; Accepts(r.nodes, r.start, w) <==> w == "a" || w == "b"
  {
    PostfixAOrB();
    RegexAgree.BuildRegexAgrees("ab|");
    PointerExamples.UnionLanguage(w);
  }

  lemma InsertedAStarB()
    ensures Inserted("a*b") == Some("a*.b")
  {
    var r := "a*b";
    assert r[0] == 'a' && r[1] == '*' && r[2] == 'b' && |r| == 3;
    assert Emits(r, 3) == Some([]);
    assert [Copied('b')] + [] == [Copied('b')];
    assert Emits(r, 2) == Some([Copied('b')]);
    assert '*' !in "(|[]{}" && 'b' !in "*?+|)]{";
    assert [Copied('*'), Marker] + [Copied('b')] == [Copied('*'), Marker, Copied('b')];
    assert Emits(r, 1) == Some([Copied('*'), Marker, Copied('b')]);
    assert 'a' !in "(|[]{}" && '*' in "*?+|)]{";
    assert [Copied('a')] + [Copied('*'), Marker, Copied('b')] == [Copied('a'), Copied('*'), Marker, Copied('b')];
    assert Emits(r, 0) == Some([Copied('a'), Copied('*'), Marker, Copied('b')]);
    assert Render([Copied('a'), Copied('*'), Marker, Copied('b')]) == "a*.b";
  }

  lemma ShuntAStarDot()
    ensures ShuntAll("a*.") == Shunt("a*", ".")
  {
    assert [] + ['a'] == "a" && "a" + ['*'] == "a*" && "a*" + ['.'] == "a*.";
    ShuntAllSnoc("", 'a');
    ShuntAllSnoc("a", '*');
    assert ShuntAll("a*") == Shunt("a", "*");
    ShuntAStarBDot();
    ShuntAllSnoc("a*", '.');
  }

  lemma ShuntAStarB()
    ensures Postfix("a*.b") == "a*b."
  {
    assert "a*." + ['b'] == "a*.b" && "a*" + ['b'] == "a*b" && "a*b" + ['.'] == "a*b.";
    assert "."[..0] == "";
    ShuntAStarDot();
    ShuntAllSnoc("a*.", 'b');
    assert ShuntAll("a*.b") == Shunt("a*b", ".");
    assert Drain(Shunt("a*b.", "")) == "a*b.";
  }

  /** The `.` after `a*` first moves the tighter `*` to the output. */
  lemma ShuntAStarBDot()
    ensures ShuntStep(Shunt("a", "*"), '.') == Shunt("a*", ".")
  {
    assert "*"[..0] == "" && "a" + ['*'] == "a*";
    assert Precedence('*') >= Precedence('.');
    assert PopOperators(Shunt("a*", ""), '.') == Shunt("a*", "");
    assert PopOperators(Shunt("a", "*"), '.') == Shunt("a*", "");
    assert [] + ['.'] == ".";
  }

  /** `a*b` accepts exactly some `a`s followed by one `b`. */
  lemma RegexAStarBLanguage(w: string)
    ensures NewRegex("a*b").Some?
    ensures var r := NewRegex("a*b").value; Accepts(r.nodes, r.start, w) <==> PointerExamples.AsThenB(w)
  {
    InsertedAStarB();
    ShuntAStarB();
    RegexAgree.BuildRegexAgrees("a*b.");
    PointerExamples.StarConcatLanguage(w);
  }

  // -----------------------------------------------------------------------
  // The empty pattern

  function EpsilonNodes(): seq<Node>
  {
    [Node(0, false, map[], [1]), New(true, 1)]
  }

  /** The empty pattern builds the epsilon fragment, which accepts the
      empty word and nothing else. */
  lemma EmptyPatternLanguage(w: string)
    ensures NewRegex("") == Some(Arena(EpsilonNodes(), 0, 1))
    ensures var r := NewRegex("").value; Accepts(r.nodes, r.start, w) <==> w == ""
  {
    assert Emits("", 0) == Some([]);
    assert Render([]) == "";
    assert Postfix("") == "";
    var N := EpsilonNodes();
    assert Thompson.FromEpsilon(Init().arena, 0).nodes == N;
    ReachRefl(N, 0);
    ReachEdge(N, 0, 1);
    FrontierOfClosed(N, 0, {0, 1});
    assert Frontier(N, 0) == {1};
    if |w| > 0 {
      StepSingle(N, 1, [w[0]]);
      RunDead(N, {1}, w);
    }
  }

  // -----------------------------------------------------------------------
  // `ba{2}`: the repetition links a copy of the wrong fragment

  function BaNodes(): seq<Node>
  {
    [Node(0, false, map["b" := 1], []), New(true, 1), Node(2, false, map["a" := 3], []), New(true, 3)]
  }

  /** The builder after the symbols `b` and `a`. */
  function AfterBa(): Builder
  {
    Builder(Arena(BaNodes(), 2, 3), [Frag(0, 1), Frag(2, 3)], 4)
  }

  /** The first pass of `{2}` over `a`: the snapshot is the arena of `b`
      and `a`, and the fragment grown so far is `a` itself. */
  function BaStage(): Stage
  {
    Stage(AfterBa().arena, Frag(2, 3), 4)
  }

  lemma PostfixBaTwo()
    ensures ToPostfix("ba{2}") == Some("ba{2}.")
  {
    var r := "ba{2}";
    assert r[0] == 'b' && r[1] == 'a' && r[2] == '{' && r[3] == '2' && r[4] == '}' && |r| == 5;
    assert CloserFrom(r, 3) == Some(4);
    assert r[2..5] == "{2}";
    assert CopyAll("{2}") == [Copied('{'), Copied('2'), Copied('}')];
    assert Emits(r, 5) == Some([]);
    assert CopyAll("{2}") + [] == CopyAll("{2}");
    assert Emits(r, 2) == Some([Copied('{'), Copied('2'), Copied('}')]);
    assert 'a' !in "(|[]{}" && '{' in "*?+|)]{";
    assert [Copied('a')] + [Copied('{'), Copied('2'), Copied('}')] == [Copied('a'), Copied('{'), Copied('2'), Copied('}')];
    assert Emits(r, 1) == Some([Copied('a'), Copied('{'), Copied('2'), Copied('}')]);
    assert 'b' !in "(|[]{}" && 'a' !in "*?+|)]{";
    assert [Copied('b'), Marker] + [Copied('a'), Copied('{'), Copied('2'), Copied('}')] == [Copied('b'), Marker, Copied('a'), Copied('{'), Copied('2'), Copied('}')];
    assert Emits(r, 0) == Some([Copied('b'), Marker, Copied('a'), Copied('{'), Copied('2'), Copied('}')]);
    assert Render([Copied('b'), Marker, Copied('a'), Copied('{'), Copied('2'), Copied('}')]) == "b.a{2}";
    ShuntBaTwo();
  }

  lemma ShuntBDotA()
    ensures ShuntAll("b.a") == Shunt("ba", ".")
  {
    assert [] + ['b'] == "b" && "b" + ['.'] == "b." && "b." + ['a'] == "b.a" && "b" + ['a'] == "ba";
    ShuntAllSnoc("", 'b');
    ShuntAllSnoc("b", '.');
    assert ShuntAll("b.") == Shunt("b", ".");
    ShuntAllSnoc("b.", 'a');
  }

  lemma ShuntBaTwo()
    ensures Postfix("b.a{2}") == "ba{2}."
  {
    assert "b.a" + ['{'] == "b.a{" && "b.a{" + ['2'] == "b.a{2" && "b.a{2" + ['}'] == "b.a{2}";
    assert "ba" + ['{'] == "ba{" && "ba{" + ['2'] == "ba{2" && "ba{2" + ['}'] == "ba{2}" && "ba{2}" + ['.'] == "ba{2}.";
    assert "."[..0] == "";
    ShuntBDotA();
    ShuntAllSnoc("b.a", '{');
    ShuntAllSnoc("b.a{", '2');
    ShuntAllSnoc("b.a{2", '}');
    assert ShuntAll("b.a{2}") == Shunt("ba{2}", ".");
    assert Drain(Shunt("ba{2}.", "")) == "ba{2}.";
  }

  /** `Regex::new("ba{2}")` reaches the repetition with the arena of `b`
      and `a`, the fragment of `a` on top, and the bounds 2 and 2. */
  lemma BaTwoReachesRepeat()
    ensures ToPostfix("ba{2}") == Some("ba{2}.")
    ensures BuildFrom(Init(), "ba{2}.", 0) == BuildFrom(AfterBa(), "ba{2}.", 2)
    ensures Bounds("ba{2}.", 3) == Some((2, 2, 4))
  {
    PostfixBaTwo();
    var p := "ba{2}.";
    assert p[0] == 'b' && p[1] == 'a' && p[3] == '2' && p[4] == '}';
    TokenB();
    TokenA();
    ExactBound(p, 3);
  }

  /** The builder after the symbol `b`. */
  function AfterB(): Builder
  {
    Builder(Arena(BaNodes()[..2], 0, 1), [Frag(0, 1)], 2)
  }

  lemma TokenB()
    ensures Token(Init(), "ba{2}.", 0) == Some((AfterB(), 1))
  {
    assert "ba{2}."[0] == 'b';
    var b1 := Operator(Init(), 'b').value;
    assert b1.arena.nodes == BaNodes()[..2];
    assert b1 == AfterB();
  }

  lemma TokenA()
    ensures Token(AfterB(), "ba{2}.", 1) == Some((AfterBa(), 2))
  {
    assert "ba{2}."[1] == 'a';
    var b2 := Operator(AfterB(), 'a').value;
    assert b2.arena.nodes == BaNodes();
    assert b2 == AfterBa();
  }

  /** In that repetition the fragment of `a` starts at node 2, so the
      first pass of the loop as written does not link the copy of `a`
      that the corrected pass links. */
  lemma BaTwoLinksWrongCopy()
    ensures BaStage().n.start != 0
    ensures AsWrittenLink(BaStage(), BaNodes(), Frag(2, 3), false) != Some(Link(BaStage(), BaNodes(), Frag(2, 3), false))
  {
    AsWrittenLinkNeedsStartZero(BaStage(), BaNodes(), Frag(2, 3));
  }

  /** In `ba{2,}` the one mandatory copy is appended at node 4, so the back
      edge as written goes to node 4, the copy of the start of `b`, where
      the copy of the start of `a` is node 6. */
  lemma BaTwoOrMoreLoopsWrong()
    ensures Max0(2 - 1) == 1
    ensures AsWrittenLoopTarget(BaStage(), BaNodes(), 1) == 4
    ensures LoopTarget(BaStage(), BaNodes(), Frag(2, 3), 1) == 6
  {
  }

  // -----------------------------------------------------------------------
  // `a{2}`: a bound right after the first atom, where the copies linked as
  // written and as corrected coincide

  lemma PostfixATwo()
    ensures ToPostfix("a{2}") == Some("a{2}")
  {
    InsertedATwo();
    ShuntATwo();
  }

  lemma InsertedATwo()
    ensures Inserted("a{2}") == Some("a{2}")
  {
    var r := "a{2}";
    assert r[0] == 'a' && r[1] == '{' && r[2] == '2' && r[3] == '}' && |r| == 4;
    assert CloserFrom(r, 2) == Some(3);
    assert r[1..4] == "{2}";
    assert CopyAll("{2}") == [Copied('{'), Copied('2'), Copied('}')];
    assert Emits(r, 4) == Some([]);
    assert CopyAll("{2}") + [] == CopyAll("{2}");
    assert Emits(r, 1) == Some([Copied('{'), Copied('2'), Copied('}')]);
    assert 'a' !in "(|[]{}" && '{' in "*?+|)]{";
    assert [Copied('a')] + [Copied('{'), Copied('2'), Copied('}')] == [Copied('a'), Copied('{'), Copied('2'), Copied('}')];
    assert Emits(r, 0) == Some([Copied('a'), Copied('{'), Copied('2'), Copied('}')]);
    assert Render([Copied('a'), Copied('{'), Copied('2'), Copied('}')]) == "a{2}";
  }

  /** A bound is copied and then skipped past, so no `.` is written after
      it: in `a{2}b` nothing joins the repetition to `b`. */
  lemma InsertedATwoB()
    ensures Inserted("a{2}b") == Some("a{2}b")
  {
    var r := "a{2}b";
    assert r[0] == 'a' && r[1] == '{' && r[2] == '2' && r[3] == '}' && r[4] == 'b' && |r| == 5;
    assert CloserFrom(r, 2) == Some(3);
    assert r[1..4] == "{2}";
    assert Emits(r, 5) == Some([]);
    assert [Copied('b')] + [] == [Copied('b')];
    assert Emits(r, 4) == Some([Copied('b')]);
    assert CopyAll("{2}") + [Copied('b')] == [Copied('{'), Copied('2'), Copied('}'), Copied('b')];
    assert Emits(r, 1) == Some([Copied('{'), Copied('2'), Copied('}'), Copied('b')]);
    assert 'a' !in "(|[]{}" && '{' in "*?+|)]{";
    assert [Copied('a')] + [Copied('{'), Copied('2'), Copied('}'), Copied('b')] ==
      [Copied('a'), Copied('{'), Copied('2'), Copied('}'), Copied('b')];
    assert Emits(r, 0) == Some([Copied('a'), Copied('{'), Copied('2'), Copied('}'), Copied('b')]);
    assert Render([Copied('a'), Copied('{'), Copied('2'), Copied('}'), Copied('b')]) == "a{2}b";
  }

  lemma ShuntATwo()
    ensures Postfix("a{2}") == "a{2}"
  {
    assert [] + ['a'] == "a" && "a" + ['{'] == "a{" && "a{" + ['2'] == "a{2" && "a{2" + ['}'] == "a{2}";
    ShuntAllSnoc("", 'a');
    ShuntAllSnoc("a", '{');
    ShuntAllSnoc("a{", '2');
    ShuntAllSnoc("a{2", '}');
    assert ShuntAll("a{2}") == Shunt("a{2}", "");
  }

  /** The arena of `a`, as the first token builds it. */
  function ANodes(): seq<Node>
  {
    [Node(0, false, map["a" := 1], []), New(true, 1)]
  }

  /** A copy of the arena of `a` at `offset`. */
  lemma ShiftA(offset: nat, id: int)
    ensures Shift(ANodes()[0], offset, id) == Node(id, false, map["a" := offset + 1], [])
    ensures Shift(ANodes()[1], offset, id + 1) == New(true, id + 1)
  {
    assert (map sym | sym in ANodes()[0].transition :: ANodes()[0].transition[sym] + offset) == map["a" := offset + 1];
  }

  /** What `{2}` builds over `a`: the copy of `a` after it, a dead copy
      after that, and a fresh accepting end. */
  function ATwoNodes(): seq<Node>
  {
    [Node(0, false, map["a" := 1], []), Node(1, false, map[], [2]),
     Node(2, false, map["a" := 3], []), Node(3, false, map[], [4, 6]),
     Node(4, false, map["a" := 5], []), Node(5, false, map[], []), New(true, 6)]
  }

  /** The arena after the one mandatory pass of `{2}` over `a`. */
  function FirstPassNodes(): seq<Node>
  {
    [ANodes()[0], Node(1, false, map[], [2]), Node(2, false, map["a" := 3], []), New(true, 3)]
  }

  /** The one mandatory pass of `{2}` over the arena `A` of `a`. */
  lemma FirstPassATwo(A: seq<Node>, id: int)
    requires A == ANodes() && id == 2
    ensures Link(Stage(Arena(A, 0, 1), Frag(0, 1), id), A, Frag(0, 1), false) ==
      Stage(Arena(FirstPassNodes(), 0, 3), Frag(0, 3), id + 2)
  {
    var f0 := Frag(0, 1);
    var s0 := Stage(Arena(A, 0, 1), f0, id);
    ShiftA(|A|, id);
    LinkCopiesFragment(s0, A, f0, false);
    var N := Link(s0, A, f0, false).arena.nodes;
    assert N[0] == A[0];
    assert N[1] == Node(1, false, map[], [2]);
    assert N[2] == Node(2, false, map["a" := 3], []) && N[3] == New(true, 3);
    assert N == FirstPassNodes();
  }

  /** The closing copy of `{2}` after the first pass `s1`. */
  lemma LastPassATwo(A: seq<Node>, s1: Stage)
    requires A == ANodes()
    requires s1 == Stage(Arena(FirstPassNodes(), 0, 3), Frag(0, 3), 4)
    ensures Finish(s1, A, Frag(0, 1)) == Stage(Arena(ATwoNodes(), 0, 6), Frag(0, 6), 7)
  {
    var f0 := Frag(0, 1);
    ShiftA(|s1.arena.nodes|, s1.id);
    var c := Link(s1, A, f0, false);
    LinkCopiesFragment(s1, A, f0, false);
    var N := c.arena.nodes;
    assert N[..3] == ATwoNodes()[..3];
    assert N[3] == Node(3, false, map[], [4]);
    assert N[4] == Node(4, false, map["a" := 5], []) && N[5] == New(true, 5);
    FinishIsClose(s1, A, f0);
    var M := Close(c, 3).arena.nodes;
    assert |M| == 7 && M[..3] == N[..3];
    assert M[3] == Node(3, false, map[], [4, 6]) && M[4] == N[4];
    assert M[5] == Node(5, false, map[], []) && M[6] == New(true, 6);
    assert M == ATwoNodes();
  }

  lemma RepeatATwo(A: seq<Node>, id: int)
    requires A == ANodes() && id == 2
    ensures Repeat(Arena(A, 0, 1), Frag(0, 1), 2, 2, id) == Stage(Arena(ATwoNodes(), 0, 6), Frag(0, 6), 7)
  {
    var s0 := Stage(Arena(A, 0, 1), Frag(0, 1), id);
    FirstPassATwo(A, id);
    assert Chain(s0, A, Frag(0, 1), 1, false) == Link(s0, A, Frag(0, 1), false);
    LastPassATwo(A, Chain(s0, A, Frag(0, 1), 1, false));
  }

  lemma TokenATwo()
    ensures Token(Init(), "a{2}", 0) == Some((Builder(Arena(ANodes(), 0, 1), [Frag(0, 1)], 2), 1))
  {
    assert "a{2}"[0] == 'a';
    var b1 := Operator(Init(), 'a').value;
    assert b1.arena.nodes == ANodes();
    assert b1 == Builder(Arena(ANodes(), 0, 1), [Frag(0, 1)], 2);
  }

  lemma BuildATwo()
    ensures NewRegex("a{2}") == Some(Arena(ATwoNodes(), 0, 6))
  {
    PostfixATwo();
    var p := "a{2}";
    assert p[1] == '{' && p[2] == '2' && p[3] == '}' && |p| == 4;
    var b1 := Builder(Arena(ANodes(), 0, 1), [Frag(0, 1)], 2);
    TokenATwo();
    ExactBound(p, 2);
    RepeatTokenIs(b1, p, 1, 2, 2, 3);
    RepeatATwo(ANodes(), 2);
    var b2 := Builder(Arena(ATwoNodes(), 0, 6), [Frag(0, 6)], 7);
    assert [Frag(0, 1)][..0] + [Frag(0, 6)] == [Frag(0, 6)];
    assert Token(b1, p, 1) == Some((b2, 4));
    assert BuildFrom(b2, p, 4) == Some(b2);
    assert BuildFrom(Init(), p, 0) == Some(b2);
  }

  /** The first copy of `a` hands over to the second through node 1. */
  lemma ATwoFrontier1()
    ensures Frontier(ATwoNodes(), 1) == {2}
  {
    var N := ATwoNodes();
    ReachRefl(N, 1);
    ReachEdge(N, 1, 2);
    FrontierOfClosed(N, 1, {1, 2});
  }

  /** After two `a`s both the dead copy and the accepting end are live. */
  lemma ATwoFrontier3()
    ensures Frontier(ATwoNodes(), 3) == {4, 6}
  {
    var N := ATwoNodes();
    ReachRefl(N, 3);
    ReachEdge(N, 3, 4);
    ReachEdge(N, 3, 6);
    FrontierOfClosed(N, 3, {3, 4, 6});
  }

  lemma ATwoMove0(c: char)
    ensures Step(ATwoNodes(), {0}, [c]) == if c == 'a' then {2} else {}
  {
    ATwoFrontier1();
    StepSingle(ATwoNodes(), 0, [c]);
    assert [c] == "a" <==> c == 'a';
  }

  lemma ATwoMove2(c: char)
    ensures Step(ATwoNodes(), {2}, [c]) == if c == 'a' then {4, 6} else {}
  {
    ATwoFrontier3();
    StepSingle(ATwoNodes(), 2, [c]);
    assert [c] == "a" <==> c == 'a';
  }

  lemma ATwoMove46(c: char)
    ensures Step(ATwoNodes(), {4, 6}, [c]) == if c == 'a' then {5} else {}
  {
    FrontierOfLeaf(ATwoNodes(), 5);
    StepPair(ATwoNodes(), 4, 6, [c]);
    assert [c] == "a" <==> c == 'a';
  }

  lemma ATwoMove5(c: char)
    ensures Step(ATwoNodes(), {5}, [c]) == {}
  {
    StepSingle(ATwoNodes(), 5, [c]);
  }

  /** Where the states go on each word: the only accepting state, node 6,
      is reached after exactly two `a`s. */
  lemma ATwoRun(w: string)
    ensures Run(ATwoNodes(), {0}, w) ==
      if |w| == 0 then {0} else if w == "a" then {2} else if w == "aa" then {4, 6}
      else if w == "aaa" then {5} else {}
  {
    if |w| > 0 {
      ATwoMove0(w[0]);
      if w[0] != 'a' {
        RunEmpty(ATwoNodes(), w[1..]);
      } else {
        ATwoRunFrom2(w[1..]);
        assert w == [w[0]] + w[1..];
      }
    }
  }

  lemma ATwoRunFrom2(w: string)
    ensures Run(ATwoNodes(), {2}, w) ==
      if |w| == 0 then {2} else if w == "a" then {4, 6} else if w == "aa" then {5} else {}
  {
    if |w| > 0 {
      ATwoMove2(w[0]);
      if w[0] != 'a' {
        RunEmpty(ATwoNodes(), w[1..]);
      } else {
        ATwoRunFrom46(w[1..]);
        assert w == [w[0]] + w[1..];
      }
    }
  }

  lemma ATwoRunFrom46(w: string)
    ensures Run(ATwoNodes(), {4, 6}, w) == if |w| == 0 then {4, 6} else if w == "a" then {5} else {}
  {
    if |w| > 0 {
      ATwoMove46(w[0]);
      if w[0] != 'a' {
        RunEmpty(ATwoNodes(), w[1..]);
      } else if |w| > 1 {
        ATwoMove5(w[1]);
        assert w[1..][0] == w[1];
        RunDead(ATwoNodes(), {5}, w[1..]);
      } else {
        assert w == [w[0]];
      }
    }
  }

  /** `Regex::new("a{2}")` accepts exactly `aa`. */
  lemma RegexATwoLanguage(w: string)
    ensures NewRegex("a{2}").Some?
    ensures var r := NewRegex("a{2}").value; Accepts(r.nodes, r.start, w) <==> w == "aa"
  {
    BuildATwo();
    var N := ATwoNodes();
    FrontierOfLeaf(N, 0);
    ATwoRun(w);
    if w == "aa" {
      assert 6 in Run(N, Frontier(N, 0), w) && N[6].isEnd;
    }
  }
}
