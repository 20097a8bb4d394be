/** The arena-based Thompson builder and simulator of src/regex.rs. A
    `Regex` holds every node built so far in one vector, indexed by
    position, and the start and end fields of the fragment built last.
    Every fragment method appends fresh nodes, re-wires existing ones and
    overwrites the two fields; the id counter that the source bumps through
    a `&mut i32` is passed in and handed back. Each method is proved to
    leave the state the fragment function of `Thompson` or `RegexBuild`
    describes, and `new` is proved to build `RegexBuild.NewRegex`. */
module RegexNfa {
  import opened Wrappers
  import opened NfaNode
  import opened Semantics
  import opened Thompson
  import opened Chars
  import opened RegexInfix
  import opened RegexBuild
  import Simulation

  class Regex {
    var allNodes: seq<Node>
    var start: nat
    var end: nat

    /** The arena and the two fragment fields, as one value. */
    ghost function State(): Arena
      reads this
    {
      Arena(allNodes, start, end)
    }

    /** `Regex::new`: the pattern is turned into postfix, the empty postfix
        text gives the epsilon fragment, and otherwise the token loop runs
        over the postfix text and the fragment left on top of the stack
        names the automaton. Every way the source panics (an operator
        without operands, a class or bound without its closer, a bound that
        is not a digit) is excluded by asking for `NewRegex` to succeed. */
    constructor (regexStr: string)
      requires NewRegex(regexStr).Some?
      ensures State() == NewRegex(regexStr).value
    {
      allNodes, start, end := [], 0, 0;
      new;
      var postfix := ToPostfixInsertConcat(regexStr);
      var p := postfix.value;
      assert NewRegex(regexStr) == BuildRegex(p);
      if p == "" {
        var id := FromEpsilon(0);
      } else {
        var stack, id := RunTokens(p);
        var x := stack[|stack| - 1];
        start := x.start;
        end := x.end;
      }
    }

    /** The token loop of `Regex::new` over a non-empty postfix text,
        starting from the empty arena: it ends in the builder `BuildFrom`
        describes, the automaton's fragment on top of the stack. */
    method RunTokens(p: string) returns (stack: seq<Frag>, id: int)
      requires State() == Init().arena && BuildFrom(Init(), p, 0).Some?
      modifies this
      ensures BuildFrom(Init(), p, 0) == Some(Builder(State(), stack, id))
    {
      stack, id := [], 0;
      var i := 0;
      while i < |p|
        invariant i <= |p| && Shape(Builder(State(), stack, id))
        invariant BuildFrom(Init(), p, 0) == BuildFrom(Builder(State(), stack, id), p, i)
        invariant BuildFrom(Init(), p, 0).Some?
        decreases |p| - i
      {
        BuildFromStep(Builder(State(), stack, id), p, i);
        stack, id, i := ApplyToken(p, i, stack, id);
      }
    }

    /** One pass of the token loop of `Regex::new` at index `i`: pops the
        operands of the token, builds its fragment, pushes that and moves
        past the token (past the closer for a class or a bound). */
    method ApplyToken(p: string, i: nat, stack: seq<Frag>, id: int) returns (stack': seq<Frag>, id': int, i': nat)
      requires i < |p| && Shape(Builder(State(), stack, id))
      requires Token(Builder(State(), stack, id), p, i).Some?
      modifies this
      ensures Token(Builder(old(State()), stack, id), p, i) == Some((Builder(State(), stack', id'), i'))
    {
      var token := p[i];
      if token == '{' {
        stack', id', i' := ApplyBound(p, i, stack, id);
      } else if token == '[' {
        stack', id', i' := ApplyClass(p, i, stack, id);
      } else {
        stack', id' := ApplyOperator(token, stack, id);
        i' := i + 1;
      }
    }

    /** A bound `{...}` at `i`: reads the bounds, pops the quantified
        fragment and pushes its repetition. */
    method ApplyBound(p: string, i: nat, stack: seq<Frag>, id: int) returns (stack': seq<Frag>, id': int, i': nat)
      requires i < |p| && Shape(Builder(State(), stack, id))
      requires RepeatToken(Builder(State(), stack, id), p, i).Some?
      modifies this
      ensures RepeatToken(Builder(old(State()), stack, id), p, i) == Some((Builder(State(), stack', id'), i'))
    {
      ghost var b := Builder(State(), stack, id);
      var lower, upper, close := ReadBounds(p, i + 1);
      RepeatTokenIs(b, p, i, lower, upper, close);
      var n := stack[|stack| - 1];
      stack' := stack[..|stack| - 1];
      id' := Repetition(n, lower, upper, id);
      stack' := stack' + [Frag(start, end)];
      i' := close + 1;
    }

    /** A class `[...]` at `i`: collects its characters and pushes the
        class fragment. */
    method ApplyClass(p: string, i: nat, stack: seq<Frag>, id: int) returns (stack': seq<Frag>, id': int, i': nat)
      requires i < |p| && Shape(Builder(State(), stack, id))
      requires ClassToken(Builder(State(), stack, id), p, i).Some?
      modifies this
      ensures ClassToken(Builder(old(State()), stack, id), p, i) == Some((Builder(State(), stack', id'), i'))
    {
      ghost var b := Builder(State(), stack, id);
      var characters, close := ReadClass(p, i + 1);
      ClassTokenIs(b, p, i, characters, close);
      id' := CharacterClass(characters, id);
      stack' := stack + [Frag(start, end)];
      i' := close + 1;
    }

    /** The tokens other than a class or a bound. */
    method ApplyOperator(token: char, stack: seq<Frag>, id: int) returns (stack': seq<Frag>, id': int)
      requires Shape(Builder(State(), stack, id)) && token != '{' && token != '['
      requires |stack| >= RegexBuild.Arity(token)
      modifies this
      ensures Operator(Builder(old(State()), stack, id), token) == Some(Builder(State(), stack', id'))
    {
      if token == '*' || token == '+' || token == '?' {
        stack', id' := ApplyUnary(token, stack, id);
      } else if token == '|' || token == '.' {
        stack', id' := ApplyBinary(token, stack, id);
      } else {
        id' := FromSymbol([token], id);
        stack' := stack + [Frag(start, end)];
        assert stack[..|stack|] == stack;
      }
    }

    /** `*`, `+` and `?`: pop one fragment and push its repetition. */
    method ApplyUnary(token: char, stack: seq<Frag>, id: int) returns (stack': seq<Frag>, id': int)
      requires Shape(Builder(State(), stack, id)) && |stack| >= 1
      requires token == '*' || token == '+' || token == '?'
      modifies this
      ensures Operator(Builder(old(State()), stack, id), token) == Some(Builder(State(), stack', id'))
    {
      var n := stack[|stack| - 1];
      stack' := stack[..|stack| - 1];
      if token == '*' {
        id' := Asterisk(n, id);
      } else if token == '+' {
        id' := Plus(n, id);
      } else {
        id' := Question(n, id);
      }
      stack' := stack' + [Frag(start, end)];
    }

    /** `|` and `.`: pop the right operand, then the left one, and push
        their union or concatenation. */
    method ApplyBinary(token: char, stack: seq<Frag>, id: int) returns (stack': seq<Frag>, id': int)
      requires Shape(Builder(State(), stack, id)) && |stack| >= 2
      requires token == '|' || token == '.'
      modifies this
      ensures Operator(Builder(old(State()), stack, id), token) == Some(Builder(State(), stack', id'))
    {
      var right := stack[|stack| - 1];
      var left := stack[|stack| - 2];
      stack' := stack[..|stack| - 2];
      if token == '|' {
        id' := Union(left, right, id);
      } else {
        Concat(left, right);
        id' := id;
      }
      stack' := stack' + [Frag(start, end)];
    }

    // ---------------------------------------------------------------------
    // Reading a bound and a class

    /** The bound loop of `Regex::new`, from the index after the `{`:
        a `,` takes the digit before it as the lower and the digit after it
        as the upper bound; with no `,` the digit before the `}` is both. */
    method ReadBounds(p: string, i: nat) returns (lower: int, upper: int, close: nat)
      requires 0 < i && Bounds(p, i).Some?
      ensures Bounds(p, i) == Some((lower, upper, close))
    {
      lower, upper := -1, -1;
      var j := i;
      while p[j] != '}'
        invariant 0 < j && -1 <= lower <= 9 && -1 <= upper <= 9
        invariant ScanBounds(p, j, lower, upper) == ScanBounds(p, i, -1, -1)
        invariant ScanBounds(p, j, lower, upper).Some?
        decreases |p| - j
      {
        if p[j] == ',' {
          if p[j - 1] != '{' {
            lower := Digit(p[j - 1]).value;
          }
          if p[j + 1] != '}' {
            upper := Digit(p[j + 1]).value;
          }
        }
        j := j + 1;
      }
      if upper == -1 && lower == -1 {
        upper := Digit(p[j - 1]).value;
        lower := Digit(p[j - 1]).value;
      }
      close := j;
    }

    /** The class loop of `Regex::new`, from the index after the `[`: a
        `-` adds the whole range between its neighbours, a `.` is
        skipped, and any other character is added. */
    method ReadClass(p: string, i: nat) returns (characters: string, close: nat)
      requires 0 < i && ScanClass(p, i, "").Some?
      ensures ScanClass(p, i, "") == Some((characters, close))
    {
      characters := "";
      var j := i;
      while p[j] != ']'
        invariant 0 < j && ScanClass(p, j, characters) == ScanClass(p, i, "")
        decreases |p| - j
      {
        if p[j] == '-' {
          var addStr := CharRange(p[j - 1], p[j + 1]);
          characters := characters + addStr;
          j := j + 2;
          continue;
        }
        if p[j] != '.' {
          characters := characters + [p[j]];
        }
        j := j + 1;
      }
      close := j;
    }

    // ---------------------------------------------------------------------
    // Primitive updates and fragments

    /** `add_epsilon_transition`: appends `to` to the epsilon list of
        `from`. */
    method AddEpsilonTransition(from: nat, to: nat)
      requires from < |allNodes|
      modifies this
      ensures allNodes == AddEpsilon(old(allNodes), from, to)
      ensures start == old(start) && end == old(end)
    {
      allNodes := allNodes[from := allNodes[from].(epsilon := allNodes[from].epsilon + [to])];
    }

    /** `add_transition`: the edge of `from` on `symbol` now leads to `to`,
        whether or not there was one before. */
    method AddTransition(from: nat, to: nat, symbol: string)
      requires from < |allNodes|
      modifies this
      ensures allNodes == Thompson.AddTransition(old(allNodes), from, to, symbol)
      ensures start == old(start) && end == old(end)
    {
      allNodes := allNodes[from := allNodes[from].(transition := allNodes[from].transition[symbol := to])];
    }

    /** Links the exit `e` of a fragment to `target`: one more epsilon
        edge, and `e` stops accepting. */
    method JoinEnd(e: nat, target: nat)
      requires e < |allNodes|
      modifies this
      ensures allNodes == Join(old(allNodes), e, target)
      ensures start == old(start) && end == old(end)
    {
      AddEpsilonTransition(e, target);
      allNodes := SetEnd(allNodes, e, false);
    }

    /** Pushes the two fresh nodes every fragment starts with. */
    method PushPair(id: int) returns (id': int)
      modifies this
      ensures allNodes == Thompson.PushPair(old(allNodes), id) && id' == id + 2
      ensures start == old(start) && end == old(end)
    {
      allNodes := allNodes + [NfaNode.New(false, id)];
      allNodes := allNodes + [NfaNode.New(true, id + 1)];
      id' := id + 2;
    }

    /** `from_epsilon`: two fresh nodes joined by one epsilon edge. */
    method FromEpsilon(id: int) returns (id': int)
      modifies this
      ensures State() == Thompson.FromEpsilon(old(State()), id) && id' == id + 2
    {
      var n := |allNodes|;
      id' := PushPair(id);
      AddEpsilonTransition(n, n + 1);
      start, end := n, n + 1;
    }

    /** `from_symbol`: two fresh nodes joined by an edge on `symbol`. */
    method FromSymbol(symbol: string, id: int) returns (id': int)
      modifies this
      ensures State() == Thompson.FromSymbol(old(State()), symbol, id) && id' == id + 2
    {
      var n := |allNodes|;
      id' := PushPair(id);
      AddTransition(n, n + 1, symbol);
      start, end := n, n + 1;
    }

    /** `character_class`: two fresh nodes and one edge per character of
        the class, added in order. */
    method CharacterClass(characters: string, id: int) returns (id': int)
      modifies this
      ensures State() == Thompson.CharacterClass(old(State()), characters, id) && id' == id + 2
    {
      var length := |allNodes| + 2;
      id' := PushPair(id);
      var startPtr := length - 2;
      var endPtr := length - 1;
      AddClassTransitions(startPtr, endPtr, characters);
      start, end := startPtr, endPtr;
    }

    /** The loop of `character_class`: one `add_transition` per character,
        in order. */
    method AddClassTransitions(from: nat, to: nat, characters: string)
      requires from < |allNodes|
      modifies this
      ensures allNodes == AddClassEdges(old(allNodes), from, to, characters)
      ensures start == old(start) && end == old(end)
    {
      ghost var before := allNodes;
      for k := 0 to |characters|
        invariant from < |allNodes| && start == old(start) && end == old(end)
        invariant allNodes == AddClassEdges(before, from, to, characters[..k])
      {
        assert characters[..k + 1][..k] == characters[..k];
        AddTransition(from, to, [characters[k]]);
      }
      assert characters[..|characters|] == characters;
    }

    /** `asterisk`: the Kleene star of fragment `nfa`. */
    method Asterisk(nfa: Frag, id: int) returns (id': int)
      requires FragIn(nfa, allNodes)
      modifies this
      ensures State() == Star(old(State()), nfa, id) && id' == id + 2
    {
      var n := |allNodes|;
      id' := PushPair(id);
      allNodes := SetEnd(allNodes, nfa.end, false);
      ghost var open := allNodes;
      AddEpsilonTransition(nfa.end, n + 1);
      AddEpsilonTransition(nfa.end, nfa.start);
      ghost var loop := allNodes;
      AddEpsilonTransition(n, n + 1);
      AddEpsilonTransition(n, nfa.start);
      start, end := n, n + 1;
      AppendTwo(open, nfa.end, n + 1, nfa.start);
      AppendTwo(loop, n, n + 1, nfa.start);
    }

    /** `plus`: as `asterisk` without the edge from the new start to the
        new end. */
    method Plus(nfa: Frag, id: int) returns (id': int)
      requires FragIn(nfa, allNodes)
      modifies this
      ensures State() == Thompson.Plus(old(State()), nfa, id) && id' == id + 2
    {
      var n := |allNodes|;
      id' := PushPair(id);
      allNodes := SetEnd(allNodes, nfa.end, false);
      ghost var open := allNodes;
      AddEpsilonTransition(nfa.end, n + 1);
      AddEpsilonTransition(nfa.end, nfa.start);
      ghost var loop := allNodes;
      AddEpsilonTransition(n, nfa.start);
      start, end := n, n + 1;
      AppendTwo(open, nfa.end, n + 1, nfa.start);
      AppendOne(loop, n, nfa.start);
    }

    /** `question`: as `asterisk` without the edge from the old end back
        to the old start. */
    method Question(nfa: Frag, id: int) returns (id': int)
      requires FragIn(nfa, allNodes)
      modifies this
      ensures State() == Thompson.Question(old(State()), nfa, id) && id' == id + 2
    {
      var n := |allNodes|;
      id' := PushPair(id);
      allNodes := SetEnd(allNodes, nfa.end, false);
      ghost var open := allNodes;
      AddEpsilonTransition(nfa.end, n + 1);
      ghost var loop := allNodes;
      AddEpsilonTransition(n, n + 1);
      AddEpsilonTransition(n, nfa.start);
      start, end := n, n + 1;
      AppendOne(open, nfa.end, n + 1);
      AppendTwo(loop, n, n + 1, nfa.start);
    }

    /** `concat`: links the end of `first` to the start of `second`. */
    method Concat(first: Frag, second: Frag)
      requires first.end < |allNodes|
      modifies this
      ensures State() == Thompson.Concat(old(State()), first, second)
    {
      AddEpsilonTransition(first.end, second.start);
      allNodes := allNodes[first.end := allNodes[first.end].(isEnd := false)];
      start, end := first.start, second.end;
    }

    /** `union`: a fresh start branching into both fragments and a fresh
        end both of them lead to. */
    method Union(first: Frag, second: Frag, id: int) returns (id': int)
      requires FragIn(first, allNodes) && FragIn(second, allNodes)
      modifies this
      ensures State() == Thompson.Union(old(State()), first, second, id) && id' == id + 2
    {
      ghost var before := State();
      var n := |allNodes|;
      id' := PushPair(id);
      AddEpsilonTransition(n, first.start);
      AddEpsilonTransition(n, second.start);
      JoinEnd(first.end, n + 1);
      JoinEnd(second.end, n + 1);
      assert allNodes == Join(Join(AddEpsilon(AddEpsilon(Thompson.PushPair(before.nodes, id), n, first.start), n, second.start),
                        first.end, n + 1), second.end, n + 1);
      start, end := n, n + 1;
      UnionSteps(before, first, second, id);
      assert before == old(State());
      assert State() == Arena(allNodes, n, n + 1);
      assert Thompson.Union(before, first, second, id) == Arena(allNodes, n, n + 1);
    }

    // ---------------------------------------------------------------------
    // Matching

    /** `search`: the epsilon-closure walk over this arena from the start of
        `nfa` accepts the word exactly when the word is in the language of
        the automaton started there. The walk itself, shared with the
        pointer draft, is `Simulation.Search`. */
    method Search(nfa: Frag, word: string) returns (accepted: bool)
      requires Wf(allNodes) && nfa.start < |allNodes|
      ensures accepted == Accepts(allNodes, nfa.start, word)
    {
      accepted := Simulation.Search(allNodes, nfa.start, word);
    }

    // ---------------------------------------------------------------------
    // Repetition

    /** The four branches of the bound handling in `Regex::new`, applied to
        the popped fragment `nfa`: `{n}`, `{n,}`, `{n,m}` and `{,m}`. Each
        copy is a copy of the whole arena as it stood when `nfa` was
        popped, and the copy of `nfa` inside it is linked after the
        fragment built so far, and `{n,}` loops back to the copy of the
        start of `nfa`: the corrected link and loop target, which agree
        with the source when `nfa` starts at node 0
        (`RegexBuild.AsWrittenRepeatWholeArena`). */
    method Repetition(nfa: Frag, lowerBound: int, upperBound: int, id: int) returns (id': int)
      requires FragIn(nfa, allNodes) && FragIn(Frag(start, end), allNodes)
      requires -1 <= lowerBound && -1 <= upperBound && (lowerBound != -1 || upperBound != -1)
      modifies this
      ensures State() == Repeat(old(State()), nfa, lowerBound, upperBound, id).arena
      ensures id' == Repeat(old(State()), nfa, lowerBound, upperBound, id).id
    {
      var currNfa := allNodes;
      ghost var s0 := Stage(State(), nfa, id);
      if lowerBound == upperBound {
        var n, id1 := Copies(currNfa, nfa, nfa, Max0(lowerBound - 1), false, id);
        id' := StopCopies(currNfa, nfa, n, id1);
      } else if upperBound == -1 {
        id' := RepeatOpenEnded(nfa, lowerBound, id);
      } else if lowerBound > -1 {
        var n, id1 := Copies(currNfa, nfa, nfa, Max0(lowerBound - 1), false, id);
        var n', id2 := Copies(currNfa, nfa, n, Max0(upperBound - 1 - Max0(lowerBound - 1)), true, id1);
        id' := StopCopies(currNfa, nfa, n', id2);
      } else {
        var n, id1 := Copies(currNfa, nfa, nfa, Max0(upperBound - 1), true, id);
        id' := StopCopies(currNfa, nfa, n, id1);
        allNodes := allNodes[start := allNodes[start].(isEnd := true)];
      }
    }

    /** A `while dup < bound - 1` loop of the bound handling, run `count`
        times from the fragment `n`: one linked copy per pass. */
    method Copies(currNfa: seq<Node>, nfa: Frag, n: Frag, count: nat, skip: bool, id: int) returns (n': Frag, id': int)
      requires StageIn(Stage(State(), n, id)) && FragIn(nfa, currNfa)
      modifies this
      ensures Stage(State(), n', id') == Chain(Stage(old(State()), n, id), currNfa, nfa, count, skip)
    {
      ghost var s := Stage(State(), n, id);
      n', id' := n, id;
      var dup := 0;
      while dup < count
        invariant 0 <= dup <= count
        invariant Stage(State(), n', id') == Chain(s, currNfa, nfa, dup, skip)
      {
        n', id' := LinkCopy(currNfa, nfa, n', skip, id');
        dup := dup + 1;
      }
    }

    /** `{n,}`: the mandatory copies, remembering where the copy of the
        start of `nfa` in the last one lies, then a fresh accepting end
        that the current end leads to and that loops back there. */
    method RepeatOpenEnded(nfa: Frag, lowerBound: int, id: int) returns (id': int)
      requires FragIn(nfa, allNodes) && FragIn(Frag(start, end), allNodes)
      modifies this
      ensures Stage(State(), Frag(start, end), id') ==
        OpenEnded(Stage(old(State()), nfa, id), old(allNodes), nfa, Max0(lowerBound - 1))
    {
      var currNfa := allNodes;
      var n, prevEnd;
      n, id', prevEnd := OpenCopies(currNfa, nfa, Max0(lowerBound - 1), id);
      OpenEndedFrom(Stage(old(State()), nfa, id), currNfa, nfa, Max0(lowerBound - 1));
      id' := OpenEnd(prevEnd, id');
    }

    /** The copy loop of `{n,}`, run `count` times: one linked copy per
        pass, remembering where the copy of the start of `nfa` in the last
        copy lies (the fresh end's index when there is none). The source
        remembers the start of the whole copy, the copy of node 0 (see
        `RegexBuild.AsWrittenLoopTarget`). */
    method OpenCopies(currNfa: seq<Node>, nfa: Frag, count: nat, id: int) returns (n: Frag, id': int, prevEnd: nat)
      requires currNfa == allNodes && FragIn(nfa, allNodes) && FragIn(Frag(start, end), allNodes)
      modifies this
      ensures Stage(State(), n, id') == Chain(Stage(old(State()), nfa, id), currNfa, nfa, count, false)
      ensures prevEnd == LoopTarget(Stage(old(State()), nfa, id), currNfa, nfa, count)
    {
      ghost var s0 := Stage(State(), nfa, id);
      n := nfa;
      id' := id;
      var dup := 0;
      prevEnd := |allNodes|;
      while dup < count
        invariant 0 <= dup <= count
        invariant Stage(State(), n, id') == Chain(s0, currNfa, nfa, dup, false)
        invariant prevEnd == LoopTarget(s0, currNfa, nfa, dup)
      {
        n, id', prevEnd := OpenCopy(currNfa, nfa, n, id', s0, dup);
        dup := dup + 1;
      }
    }

    /** One pass of the copy loop of `{n,}`: where the copy of the start
        of `nfa` will lie is remembered, then the copy is linked. */
    method OpenCopy(currNfa: seq<Node>, nfa: Frag, n: Frag, id: int, ghost s0: Stage, ghost dup: nat)
      returns (n': Frag, id': int, prevEnd: nat)
      requires StageIn(s0) && FragIn(nfa, currNfa)
      requires Stage(State(), n, id) == Chain(s0, currNfa, nfa, dup, false)
      modifies this
      ensures Stage(State(), n', id') == Chain(s0, currNfa, nfa, dup + 1, false)
      ensures prevEnd == LoopTarget(s0, currNfa, nfa, dup + 1)
    {
      prevEnd := |allNodes| + nfa.start;
      n', id' := LinkCopy(currNfa, nfa, n, false, id);
    }

    /** The tail of `{n,}`: a fresh accepting end; the current end stops
        accepting and gets epsilon edges to the fresh end and back to
        `prevEnd`. */
    method OpenEnd(prevEnd: nat, id: int) returns (id': int)
      requires end < |allNodes|
      modifies this
      ensures allNodes == AddEpsilon(AddEpsilon(SetEnd(Push(old(allNodes), true, id), old(end), false),
                                                old(end), |old(allNodes)|), old(end), prevEnd)
      ensures start == old(start) && end == |old(allNodes)| && id' == id + 1
    {
      allNodes := allNodes + [NfaNode.New(true, id)];
      id' := id + 1;
      var endPtr := |allNodes| - 1;
      allNodes := allNodes[end := allNodes[end].(isEnd := false)];
      AddEpsilonTransition(end, endPtr);
      AddEpsilonTransition(end, prevEnd);
      end := endPtr;
    }

    /** One pass of a repetition loop: `add` appends a copy of the snapshot
        `currNfa`, `concat` links the copy of `nfa` after `n`, and with
        `skip` the end of `n` also gets an epsilon edge to the end of that
        copy. */
    method LinkCopy(currNfa: seq<Node>, nfa: Frag, n: Frag, skip: bool, id: int) returns (n': Frag, id': int)
      requires StageIn(Stage(State(), n, id)) && FragIn(nfa, currNfa)
      modifies this
      ensures Stage(State(), n', id') == Link(Stage(old(State()), n, id), currNfa, nfa, skip)
    {
      var offset := |allNodes|;
      id' := Add(currNfa, id);
      Concat(n, Frag(offset + nfa.start, offset + nfa.end));
      if skip {
        AddEpsilonTransition(n.end, end);
      }
      n' := Frag(start, end);
    }

    /** The last copy of a bounded repetition: it is linked like the
        others, its end stops accepting, and a fresh accepting end is
        reached from the end of `n`, so no further copy can be entered. */
    method StopCopies(currNfa: seq<Node>, nfa: Frag, n: Frag, id: int) returns (id': int)
      requires StageIn(Stage(State(), n, id)) && FragIn(nfa, currNfa)
      modifies this
      ensures Stage(State(), Frag(start, end), id') == Finish(Stage(old(State()), n, id), currNfa, nfa)
    {
      var linked;
      linked, id' := LinkCopy(currNfa, nfa, n, false, id);
      allNodes := allNodes[end := allNodes[end].(isEnd := false)];
      allNodes := allNodes + [NfaNode.New(true, id')];
      id' := id' + 1;
      end := |allNodes| - 1;
      AddEpsilonTransition(n.end, end);
    }

    /** `add`: appends a copy of `original`, each node with a fresh id,
        its flag, and every transition and epsilon target moved by the
        length the arena had before. */
    method Add(original: seq<Node>, id: int) returns (id': int)
      modifies this
      ensures allNodes == Thompson.Add(old(allNodes), original, id) && id' == id + |original|
      ensures start == old(start) && end == old(end)
    {
      var offset := |allNodes|;
      ghost var before := allNodes;
      id' := id;
      for i := 0 to |original|
        invariant allNodes == Thompson.Add(before, original[..i], id) && id' == id + i
        invariant |allNodes| == offset + i && start == old(start) && end == old(end)
      {
        var n := ShiftNode(original[i], offset, id');
        id' := id' + 1;
        assert original[..i + 1][..i] == original[..i];
        allNodes := allNodes + [n];
      }
      assert original[..|original|] == original;
    }

    /** The copy of one node inside `add`: the flag is kept, the id is
        fresh, and the loops over the cloned transition map and epsilon
        list move every target by `offset`. */
    static method ShiftNode(el: Node, offset: nat, id: int) returns (n: Node)
      ensures n == Shift(el, offset, id)
    {
      var transition := el.transition;
      var rest := el.transition.Keys;
      while rest != {}
        invariant rest <= el.transition.Keys && transition.Keys == el.transition.Keys
        invariant forall s :: s in transition ==>
          transition[s] == if s in rest then el.transition[s] else el.transition[s] + offset
        decreases |rest|
      {
        var s :| s in rest;
        transition := transition[s := transition[s] + offset];
        rest := rest - {s};
      }
      var epsilon := el.epsilon;
      for k := 0 to |epsilon|
        invariant |epsilon| == |el.epsilon|
        invariant forall j :: 0 <= j < |epsilon| ==>
          epsilon[j] == if j < k then el.epsilon[j] + offset else el.epsilon[j]
      {
        epsilon := epsilon[k := epsilon[k] + offset];
      }
      n := Node(id, el.isEnd, transition, epsilon);
      assert transition == Shift(el, offset, id).transition;
      assert epsilon == Shift(el, offset, id).epsilon;
    }
  }

  /** One unfolding of the token loop: where it succeeds, the token at
      `i` succeeds and the loop goes on from the index after it. */
  lemma BuildFromStep(b: Builder, p: string, i: nat)
    requires Shape(b) && i < |p| && BuildFrom(b, p, i).Some?
    ensures Token(b, p, i).Some?
    ensures BuildFrom(b, p, i) == BuildFrom(Token(b, p, i).value.0, p, Token(b, p, i).value.1)
  {
  }

}
