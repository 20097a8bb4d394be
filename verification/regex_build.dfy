/** The token loop of `Regex::new` (src/regex.rs) as a fold over the
    postfix text. Besides the operators `*`, `|` and `.` it reads `+`, `?`,
    a character class `[...]` and a repetition bound `{...}`; every other
    character is a one-character symbol. A repetition copies the whole
    arena as it stood when the quantified fragment was popped and links the
    copy of that fragment after the fragment built so far. */
module RegexBuild {
  import opened Wrappers
  import opened NfaNode
  import opened Semantics
  import opened Thompson
  import opened Chars
  import opened RegexInfix

  // -----------------------------------------------------------------------
  // Primitive updates keep the arena well formed

  lemma PushKeeps(nodes: seq<Node>, isEnd: bool, id: int)
    ensures Wf(nodes) ==> Wf(Push(nodes, isEnd, id))
    ensures IdsMatch(nodes) && id == |nodes| ==> IdsMatch(Push(nodes, isEnd, id))
  {
    var r := Push(nodes, isEnd, id);
    forall i | 0 <= i < |nodes| ensures r[i] == nodes[i] {
      assert r[i] == r[..|nodes|][i];
    }
    if Wf(nodes) {
      forall i | 0 <= i < |r| ensures NodeWf(r[i], |r|) {
        if i < |nodes| {
          assert NodeWf(nodes[i], |nodes|);
        }
      }
    }
  }

  lemma EpsilonKeeps(nodes: seq<Node>, from: nat, to: nat)
    requires from < |nodes|
    ensures Wf(nodes) && to < |nodes| ==> Wf(AddEpsilon(nodes, from, to))
    ensures IdsMatch(nodes) ==> IdsMatch(AddEpsilon(nodes, from, to))
  {
    var r := AddEpsilon(nodes, from, to);
    if Wf(nodes) && to < |nodes| {
      forall i | 0 <= i < |r| ensures NodeWf(r[i], |r|) {
        if i == from {
          NodeWfAppend(nodes[i], |nodes|, |nodes|, [to]);
        } else {
          assert r[i] == nodes[i];
        }
      }
    }
    if IdsMatch(nodes) {
      forall i | 0 <= i < |r| ensures r[i].id == i {
        if i != from {
          assert r[i] == nodes[i];
        }
      }
    }
  }

  lemma JoinKeeps(nodes: seq<Node>, e: nat, target: nat)
    requires e < |nodes|
    ensures Wf(nodes) && target < |nodes| ==> Wf(Join(nodes, e, target))
    ensures IdsMatch(nodes) ==> IdsMatch(Join(nodes, e, target))
  {
    var r := Join(nodes, e, target);
    if Wf(nodes) && target < |nodes| {
      forall i | 0 <= i < |r| ensures NodeWf(r[i], |r|) {
        if i == e {
          NodeWfAppend(nodes[i], |nodes|, |nodes|, [target]);
        } else {
          assert r[i] == nodes[i];
        }
      }
    }
    if IdsMatch(nodes) {
      forall i | 0 <= i < |r| ensures r[i].id == i {
        if i != e {
          assert r[i] == nodes[i];
        }
      }
    }
  }

  lemma SetEndKeeps(nodes: seq<Node>, i: nat, isEnd: bool)
    requires i < |nodes|
    ensures Wf(nodes) ==> Wf(SetEnd(nodes, i, isEnd))
    ensures IdsMatch(nodes) ==> IdsMatch(SetEnd(nodes, i, isEnd))
  {
    var r := SetEnd(nodes, i, isEnd);
    forall j | 0 <= j < |r| && j != i ensures r[j] == nodes[j] {
    }
  }

  // -----------------------------------------------------------------------
  // Reading a class and a repetition bound

  /** The class loop of `Regex::new` from index `i` on: the characters
      collected and the index of the closing `]`. A `-` adds every
      character from its left to its right neighbour and skips the right
      one, a `.` is dropped, and any other character is added; `None` where
      the source reads past the end of the text. */
  function ScanClass(p: string, i: nat, chars: string): (r: Option<(string, nat)>)
    requires 0 < i
    ensures r.Some? ==> i <= r.value.1 < |p| && p[r.value.1] == ']'
    ensures r.Some? ==> |chars| <= |r.value.0| && r.value.0[..|chars|] == chars
    decreases |p| - i
  {
    if i >= |p| then None
    else if p[i] == ']' then Some((chars, i))
    else if p[i] == '-' then
      if i + 1 >= |p| then None
      else ScanClass(p, i + 2, chars + CharRange(p[i - 1], p[i + 1]))
    else ScanClass(p, i + 1, if p[i] != '.' then chars + [p[i]] else chars)
  }

  /** Every collected character comes from the class text: it is a
      character of the text other than `.`, or it lies in the range around
      a `-` of the text. */
  lemma {:induction false} ScanClassFromText(p: string, i: nat, chars: string, c: char)
    requires 0 < i && ScanClass(p, i, chars).Some?
    requires c in ScanClass(p, i, chars).value.0
    ensures || c in chars
            || (exists k :: i <= k < ScanClass(p, i, chars).value.1 && p[k] == c && c != '.')
            || (exists k :: i <= k < ScanClass(p, i, chars).value.1 && p[k] == '-' && k + 1 < |p| &&
                  p[k - 1] <= c <= p[k + 1])
    decreases |p| - i
  {
    var close := ScanClass(p, i, chars).value.1;
    if p[i] == ']' {
    } else if p[i] == '-' {
      var more := chars + CharRange(p[i - 1], p[i + 1]);
      ScanClassFromText(p, i + 2, more, c);
      if c in more && c !in chars {
        assert c in CharRange(p[i - 1], p[i + 1]);
      }
    } else {
      var more := if p[i] != '.' then chars + [p[i]] else chars;
      ScanClassFromText(p, i + 1, more, c);
      if c in more && c !in chars {
        assert p[i] == c;
      }
    }
  }

  /** A class without ranges collects its characters in order, dots
      dropped. */
  lemma {:induction false} ScanClassPlain(p: string, i: nat, chars: string, close: nat)
    requires 0 < i <= close < |p| && p[close] == ']'
    requires forall k :: i <= k < close ==> p[k] != ']' && p[k] != '-'
    ensures ScanClass(p, i, chars) == Some((chars + WithoutDots(p[i..close]), close))
    decreases close - i
  {
    if i < close {
      var text := p[i..close];
      assert text[0] == p[i] && text[1..] == p[i + 1..close];
      assert WithoutDots(text) == (if p[i] != '.' then [p[i]] else []) + WithoutDots(p[i + 1..close]);
      ScanClassPlain(p, i + 1, if p[i] != '.' then chars + [p[i]] else chars, close);
      if p[i] != '.' {
        assert chars + [p[i]] + WithoutDots(p[i + 1..close]) == chars + WithoutDots(text);
      } else {
        assert [] + WithoutDots(p[i + 1..close]) == WithoutDots(p[i + 1..close]);
      }
    } else {
      assert chars + WithoutDots(p[i..close]) == chars;
    }
  }

  /** The text with every `.` removed. */
  function WithoutDots(s: string): (r: string)
    ensures forall c :: c in r <==> c in s && c != '.'
  {
    if |s| == 0 then []
    else (if s[0] != '.' then [s[0]] else []) + WithoutDots(s[1..])
  }

  /** The bound loop of `Regex::new` from index `i` on: the two bounds and
      the index of the closing `}`. A `,` sets the lower bound from the
      digit before it unless that is the `{`, and the upper bound from the
      digit after it unless that is the `}`; `None` where the source reads
      past the end or a bound is not a decimal digit. */
  function ScanBounds(p: string, i: nat, lower: int, upper: int): (r: Option<(int, int, nat)>)
    requires 0 < i
    requires -1 <= lower <= 9 && -1 <= upper <= 9
    ensures r.Some? ==> i <= r.value.2 < |p| && p[r.value.2] == '}'
    ensures r.Some? ==> -1 <= r.value.0 <= 9 && -1 <= r.value.1 <= 9
    decreases |p| - i
  {
    if i >= |p| then None
    else if p[i] == '}' then Some((lower, upper, i))
    else if p[i] == ',' then
      var lo := if p[i - 1] != '{' then Digit(p[i - 1]) else Some(lower);
      var up := if i + 1 >= |p| then None else if p[i + 1] != '}' then Digit(p[i + 1]) else Some(upper);
      if lo.None? || up.None? then None else ScanBounds(p, i + 1, lo.value, up.value)
    else ScanBounds(p, i + 1, lower, upper)
  }

  /** The bounds of the repetition whose `{` is at `i - 1`, `-1` standing
      for an absent bound. Without a `,` the digit before the `}` is both
      bounds. */
  function Bounds(p: string, i: nat): (r: Option<(int, int, nat)>)
    requires 0 < i
    ensures r.Some? ==> i <= r.value.2 < |p| && p[r.value.2] == '}'
    ensures r.Some? ==> -1 <= r.value.0 <= 9 && -1 <= r.value.1 <= 9
    ensures r.Some? ==> r.value.0 != -1 || r.value.1 != -1
  {
    match ScanBounds(p, i, -1, -1)
    case None => None
    case Some(t) =>
      if t.0 == -1 && t.1 == -1 then
        match Digit(p[t.2 - 1])
        case None => None
        case Some(d) => Some((d, d, t.2))
      else Some(t)
  }

  /** `{n}` gives `n` as both bounds. */
  lemma ExactBound(p: string, i: nat)
    requires 0 < i && i + 1 < |p| && p[i - 1] == '{'
    requires '0' <= p[i] <= '9' && p[i + 1] == '}'
    ensures Bounds(p, i) == Some((Digit(p[i]).value, Digit(p[i]).value, i + 1))
  {
    assert ScanBounds(p, i + 1, -1, -1) == Some((-1, -1, (i + 1) as nat));
  }

  /** `{n,m}` gives `n` and `m`. */
  lemma RangeBound(p: string, i: nat)
    requires 0 < i && i + 3 < |p| && p[i - 1] == '{'
    requires '0' <= p[i] <= '9' && p[i + 1] == ',' && '0' <= p[i + 2] <= '9' && p[i + 3] == '}'
    ensures Bounds(p, i) == Some((Digit(p[i]).value, Digit(p[i + 2]).value, i + 3))
  {
    var t := (Digit(p[i]).value, Digit(p[i + 2]).value, i + 3);
    assert ScanBounds(p, i + 3, t.0, t.1) == Some(t);
    assert ScanBounds(p, i + 2, t.0, t.1) == Some(t);
    assert ScanBounds(p, i + 1, -1, -1) == Some(t);
  }

  /** `{n,}` gives `n` and no upper bound. */
  lemma AtLeastBound(p: string, i: nat)
    requires 0 < i && i + 2 < |p| && p[i - 1] == '{'
    requires '0' <= p[i] <= '9' && p[i + 1] == ',' && p[i + 2] == '}'
    ensures Bounds(p, i) == Some((Digit(p[i]).value, -1, (i + 2) as nat))
  {
    var t := (Digit(p[i]).value, -1, (i + 2) as nat);
    assert ScanBounds(p, i + 2, t.0, -1) == Some(t);
    assert ScanBounds(p, i + 1, -1, -1) == Some(t);
  }

  /** `{,m}` gives no lower bound and `m`. */
  lemma AtMostBound(p: string, i: nat)
    requires 0 < i && i + 2 < |p| && p[i - 1] == '{'
    requires p[i] == ',' && '0' <= p[i + 1] <= '9' && p[i + 2] == '}'
    ensures Bounds(p, i) == Some((-1, Digit(p[i + 1]).value, (i + 2) as nat))
  {
    var t := (-1, Digit(p[i + 1]).value, (i + 2) as nat);
    assert ScanBounds(p, i + 2, -1, t.1) == Some(t);
    assert ScanBounds(p, i + 1, -1, t.1) == Some(t);
  }

  // -----------------------------------------------------------------------
  // Repetition

  function Max0(x: int): nat
  {
    if x > 0 then x else 0
  }

  /** A stage of the repetition loops: the arena with its start and end
      fields, the fragment `n` built so far and the id counter. */
  datatype Stage = Stage(arena: Arena, n: Frag, id: int)

  /** Where the copy of `f0` lies once the snapshot is appended at
      `offset`. */
  function CopyOf(f0: Frag, offset: nat): Frag
  {
    Frag(offset + f0.start, offset + f0.end)
  }

  predicate StageIn(s: Stage)
  {
    FragIn(s.n, s.arena.nodes) && FragIn(Frag(s.arena.start, s.arena.end), s.arena.nodes)
  }

  /** One pass of a repetition loop: `add` appends a copy of the snapshot
      `curr`, and `concat` links the copy of `f0` after `n`; with `skip`,
      the end of `n` also gets an epsilon edge past the new copy. */
  function Link(s: Stage, curr: seq<Node>, f0: Frag, skip: bool): (r: Stage)
    requires StageIn(s) && FragIn(f0, curr)
    ensures StageIn(r)
    ensures |r.arena.nodes| == |s.arena.nodes| + |curr| && r.id == s.id + |curr|
    ensures r.n.start == s.n.start
  {
    var off := |s.arena.nodes|;
    var added := Arena(Add(s.arena.nodes, curr, s.id), s.arena.start, s.arena.end);
    var c := Thompson.Concat(added, s.n, CopyOf(f0, off));
    var nodes := if skip then AddEpsilon(c.nodes, s.n.end, c.end) else c.nodes;
    Stage(Arena(nodes, c.start, c.end), Frag(c.start, c.end), s.id + |curr|)
  }

  /** `k` passes of a repetition loop. */
  function Chain(s: Stage, curr: seq<Node>, f0: Frag, k: nat, skip: bool): (r: Stage)
    requires StageIn(s) && FragIn(f0, curr)
    ensures StageIn(r)
    ensures |r.arena.nodes| == |s.arena.nodes| + k * |curr| && r.id == s.id + k * |curr|
    ensures r.n.start == s.n.start
    decreases k
  {
    if k == 0 then s
    else
      var r := Link(Chain(s, curr, f0, k - 1, skip), curr, f0, skip);
      assert (k - 1) * |curr| + |curr| == k * |curr|;
      r
  }

  /** The copy that stops further occurrences: one more copy is linked,
      its end stops accepting, and a fresh accepting end is reached from
      the end of `n` instead. */
  function Finish(s: Stage, curr: seq<Node>, f0: Frag): (r: Stage)
    requires StageIn(s) && FragIn(f0, curr)
    ensures StageIn(r)
    ensures |r.arena.nodes| == |s.arena.nodes| + |curr| + 1 && r.id == s.id + |curr| + 1
    ensures r.arena.start == s.n.start && r.arena.end == |r.arena.nodes| - 1
  {
    var c := Link(s, curr, f0, false);
    var ended := SetEnd(c.arena.nodes, c.arena.end, false);
    var e := |ended|;
    var nodes := AddEpsilon(Push(ended, true, c.id), s.n.end, e);
    Stage(Arena(nodes, c.arena.start, e), Frag(c.arena.start, e), c.id + 1)
  }

  /** The tail of a bounded repetition once its last copy is linked as
      `c`: the end of `c` stops accepting, and a fresh accepting end is
      reached from `from`. `Finish` is `Link` followed by this tail
      (`FinishIsClose`). */
  function Close(c: Stage, from: nat): (r: Stage)
    requires StageIn(c) && from < |c.arena.nodes|
    ensures StageIn(r)
    ensures |r.arena.nodes| == |c.arena.nodes| + 1 && r.id == c.id + 1
    ensures r.arena.start == c.arena.start && r.arena.end == |c.arena.nodes|
  {
    var ended := SetEnd(c.arena.nodes, c.arena.end, false);
    var e := |ended|;
    var nodes := AddEpsilon(Push(ended, true, c.id), from, e);
    Stage(Arena(nodes, c.arena.start, e), Frag(c.arena.start, e), c.id + 1)
  }

  /** `{n,}`: after the mandatory copies, a fresh accepting end, reached
      from the current end, which also loops back to `LoopTarget`. */
  function OpenEnded(s0: Stage, curr: seq<Node>, f0: Frag, k: nat): (r: Stage)
    requires StageIn(s0) && FragIn(f0, curr)
    ensures StageIn(r)
    ensures |r.arena.nodes| == |s0.arena.nodes| + k * |curr| + 1 && r.id == s0.id + k * |curr| + 1
    ensures r.arena.end == |r.arena.nodes| - 1
  {
    var s := Chain(s0, curr, f0, k, false);
    var prevEnd := LoopTarget(s0, curr, f0, k);
    var e := |s.arena.nodes|;
    var pushed := Push(s.arena.nodes, true, s.id);
    var ended := SetEnd(pushed, s.arena.end, false);
    var exits := AddEpsilon(ended, s.arena.end, e);
    var nodes := AddEpsilon(exits, s.arena.end, prevEnd);
    Stage(Arena(nodes, s.arena.start, e), Frag(s.arena.start, e), s.id + 1)
  }

  /** The tail of `{n,}` after its copies `s`: a fresh accepting end; the
      current end stops accepting and gets epsilon edges to the fresh end
      and back to `back`. `OpenEnded` is `Chain` followed by this tail
      (`OpenEndedIsTail`). */
  function OpenTail(s: Stage, back: nat): (r: Stage)
    requires StageIn(s)
    ensures StageIn(r)
    ensures |r.arena.nodes| == |s.arena.nodes| + 1 && r.id == s.id + 1
    ensures r.arena.start == s.arena.start && r.arena.end == |s.arena.nodes|
  {
    var e := |s.arena.nodes|;
    var pushed := Push(s.arena.nodes, true, s.id);
    var ended := SetEnd(pushed, s.arena.end, false);
    var exits := AddEpsilon(ended, s.arena.end, e);
    var nodes := AddEpsilon(exits, s.arena.end, back);
    Stage(Arena(nodes, s.arena.start, e), Frag(s.arena.start, e), s.id + 1)
  }

  /** The last copy of a bounded repetition is a pass followed by `Close`. */
  lemma FinishIsClose(s: Stage, curr: seq<Node>, f0: Frag)
    requires StageIn(s) && FragIn(f0, curr)
    ensures Finish(s, curr, f0) == Close(Link(s, curr, f0, false), s.n.end)
  {
  }

  /** `{n,}` is its copies followed by `OpenTail` to `LoopTarget`. */
  lemma OpenEndedIsTail(s0: Stage, curr: seq<Node>, f0: Frag, k: nat)
    requires StageIn(s0) && FragIn(f0, curr)
    ensures OpenEnded(s0, curr, f0, k) == OpenTail(Chain(s0, curr, f0, k, false), LoopTarget(s0, curr, f0, k))
  {
  }

  /** `OpenEnded` spelled out from the stage the copies end in. */
  lemma OpenEndedFrom(s0: Stage, curr: seq<Node>, f0: Frag, k: nat)
    requires StageIn(s0) && FragIn(f0, curr)
    ensures var s := Chain(s0, curr, f0, k, false);
      var e := |s.arena.nodes|;
      OpenEnded(s0, curr, f0, k) ==
        Stage(Arena(AddEpsilon(AddEpsilon(SetEnd(Push(s.arena.nodes, true, s.id), s.arena.end, false),
                                          s.arena.end, e), s.arena.end, LoopTarget(s0, curr, f0, k)),
                    s.arena.start, e),
              Frag(s.arena.start, e), s.id + 1)
  {
  }

  /** Where the loop of `{n,}` jumps back to: the copy of the start of
      `f0` in the last copy, or, when no copy was made, the fresh end
      itself. The source jumps to the copy of node 0 instead (see
      `AsWrittenLoopTarget`); the two agree when `f0` starts at node 0. */
  function LoopTarget(s0: Stage, curr: seq<Node>, f0: Frag, k: nat): (t: nat)
    requires StageIn(s0) && FragIn(f0, curr)
    ensures t <= |Chain(s0, curr, f0, k, false).arena.nodes|
  {
    if k == 0 then |s0.arena.nodes|
    else |Chain(s0, curr, f0, k - 1, false).arena.nodes| + f0.start
  }

  /** `OpenTail` changes only the old end, which stops accepting and gains
      an edge to the fresh end and one to `back`, and appends the fresh end. */
  lemma OpenTailEdges(s: Stage, back: nat)
    requires StageIn(s)
    ensures var r := OpenTail(s, back); var e := |s.arena.nodes|; var old_end := s.arena.nodes[s.arena.end];
      && r.arena.nodes[s.arena.end] == old_end.(isEnd := false, epsilon := old_end.epsilon + [e, back])
      && r.arena.nodes[e] == New(true, s.id)
      && forall j :: 0 <= j < e && j != s.arena.end ==> r.arena.nodes[j] == s.arena.nodes[j]
  {
    var e := |s.arena.nodes|;
    var old_end := s.arena.nodes[s.arena.end];
    assert old_end.epsilon + [e] + [back] == old_end.epsilon + [e, back];
    var pushed := Push(s.arena.nodes, true, s.id);
    forall j | 0 <= j < e ensures pushed[j] == s.arena.nodes[j] {
      assert pushed[..e][j] == s.arena.nodes[j];
    }
  }

  /** After at least one copy, the back edge of `{n,}` (`OpenEndedLoopsBack`)
      reaches the copy of the start of `f0` in the last copy. */
  lemma LoopTargetIsCopyOfStart(s0: Stage, curr: seq<Node>, f0: Frag, k: nat)
    requires StageIn(s0) && FragIn(f0, curr) && k > 0
    ensures var before := Chain(s0, curr, f0, k - 1, false);
      var t := LoopTarget(s0, curr, f0, k);
      && t == |before.arena.nodes| + f0.start
      && Chain(s0, curr, f0, k, false).arena.nodes[t] == Shift(curr[f0.start], |before.arena.nodes|, before.id + f0.start)
  {
    var before := Chain(s0, curr, f0, k - 1, false);
    ChainLast(s0, curr, f0, k, false);
    LinkCopiesFragment(before, curr, f0, false);
    var off := |before.arena.nodes|;
    assert Link(before, curr, f0, false).arena.nodes[off + f0.start] == Shift(curr[f0.start], off, before.id + f0.start);
  }

  /** `k` passes are `k - 1` passes and one more. */
  lemma ChainLast(s: Stage, curr: seq<Node>, f0: Frag, k: nat, skip: bool)
    requires StageIn(s) && FragIn(f0, curr) && k > 0
    ensures Chain(s, curr, f0, k, skip) == Link(Chain(s, curr, f0, k - 1, skip), curr, f0, skip)
  {
  }

  /** The end after the copies of `{n,}` keeps its edges and gains one to
      the fresh end and one back to `LoopTarget`. */
  lemma OpenEndedLoopsBack(s0: Stage, curr: seq<Node>, f0: Frag, k: nat)
    requires StageIn(s0) && FragIn(f0, curr)
    ensures var s := Chain(s0, curr, f0, k, false);
      OpenEnded(s0, curr, f0, k).arena.nodes[s.arena.end].epsilon ==
        s.arena.nodes[s.arena.end].epsilon + [|s.arena.nodes|, LoopTarget(s0, curr, f0, k)]
  {
    OpenEndedIsTail(s0, curr, f0, k);
    OpenTailEdges(Chain(s0, curr, f0, k, false), LoopTarget(s0, curr, f0, k));
  }

  /** With no mandatory copy (`{0,}` and `{1,}`) the back edge of `{n,}`
      goes to the fresh end itself: both edges added to the old end lead
      there, so the fragment is not repeated. */
  lemma OpenEndedWithoutCopyDoesNotLoop(s0: Stage, curr: seq<Node>, f0: Frag)
    requires StageIn(s0) && FragIn(f0, curr)
    ensures var r := OpenEnded(s0, curr, f0, 0); var e := |s0.arena.nodes|;
      && r.arena.end == e
      && r.arena.nodes[s0.arena.end] ==
           s0.arena.nodes[s0.arena.end].(isEnd := false, epsilon := s0.arena.nodes[s0.arena.end].epsilon + [e, e])
  {
    var e := |s0.arena.nodes|;
    assert Chain(s0, curr, f0, 0, false) == s0;
    assert s0.arena.nodes[s0.arena.end].epsilon + [e] + [e] == s0.arena.nodes[s0.arena.end].epsilon + [e, e];
  }

  /** The repetition of the popped fragment `f0`, as the four branches of
      `Regex::new` build it; `curr` is the arena when `f0` was popped. */
  function Repeat(a: Arena, f0: Frag, lower: int, upper: int, id: int): (r: Stage)
    requires FragIn(f0, a.nodes) && FragIn(Frag(a.start, a.end), a.nodes)
    requires -1 <= lower && -1 <= upper && (lower != -1 || upper != -1)
    ensures StageIn(r) && |r.arena.nodes| > |a.nodes|
    ensures r.id - |r.arena.nodes| == id - |a.nodes|
    ensures r.arena.end == |r.arena.nodes| - 1
  {
    var curr := a.nodes;
    var s0 := Stage(a, f0, id);
    if lower == upper then
      Finish(Chain(s0, curr, f0, Max0(lower - 1), false), curr, f0)
    else if upper == -1 then
      OpenEnded(s0, curr, f0, Max0(lower - 1))
    else if lower > -1 then
      var k1 := Max0(lower - 1);
      Finish(Chain(Chain(s0, curr, f0, k1, false), curr, f0, Max0(upper - 1 - k1), true), curr, f0)
    else
      var f := Finish(Chain(s0, curr, f0, Max0(upper - 1), true), curr, f0);
      Stage(Arena(SetEnd(f.arena.nodes, f.arena.start, true), f.arena.start, f.arena.end), f.n, f.id)
  }

  // -----------------------------------------------------------------------
  // The token loop

  /** How many fragments a token pops. */
  function Arity(token: char): nat
  {
    if token == '*' || token == '+' || token == '?' || token == '{' then 1
    else if token == '|' || token == '.' then 2
    else 0
  }

  /** The fragments on the stack lie in the arena, and the top one is the
      arena's start and end. */
  predicate Shape(b: Builder)
  {
    && StackIn(b.stack, b.arena.nodes)
    && (|b.stack| > 0 ==> b.stack[|b.stack| - 1] == Frag(b.arena.start, b.arena.end))
  }

  /** One pass of the token loop of `Regex::new` at index `i`: the builder
      after the token and the index of the next one. The token pops its
      operands and pushes the fragment it builds; `None` where the source
      panics (a pop of an empty stack, a class or bound without its
      closer, a bound that is not a digit). */
  function Token(b: Builder, p: string, i: nat): (r: Option<(Builder, nat)>)
    requires Shape(b) && i < |p|
    ensures r.Some? ==> i < r.value.1 <= |p| && Shape(r.value.0)
    ensures r.Some? ==> Pushes(b, r.value.0, Arity(p[i]))
  {
    if p[i] == '{' then RepeatToken(b, p, i)
    else if p[i] == '[' then ClassToken(b, p, i)
    else
      match Operator(b, p[i])
      case None => None
      case Some(r) => Some((r, i + 1))
  }

  /** A bound `{...}` starting at `i`: its bounds are read, the top
      fragment is popped and its repetition pushed. */
  function RepeatToken(b: Builder, p: string, i: nat): (r: Option<(Builder, nat)>)
    requires Shape(b) && i < |p|
    ensures r.Some? ==> i < r.value.1 <= |p| && Shape(r.value.0)
    ensures r.Some? ==> Pushes(b, r.value.0, 1)
    ensures r.Some? <==> Bounds(p, i + 1).Some? && |b.stack| > 0
  {
    var s := b.stack;
    match Bounds(p, i + 1)
    case None => None
    case Some(bd) =>
      if |s| == 0 then None
      else
        var st := Repeat(b.arena, s[|s| - 1], bd.0, bd.1, b.id);
        Some((Replace(b, 1, st.arena, st.id), bd.2 + 1))
  }

  /** A class `[...]` starting at `i`: its characters are collected and
      the class fragment pushed. */
  function ClassToken(b: Builder, p: string, i: nat): (r: Option<(Builder, nat)>)
    requires Shape(b) && i < |p|
    ensures r.Some? ==> i < r.value.1 <= |p| && Shape(r.value.0)
    ensures r.Some? ==> Pushes(b, r.value.0, 0)
    ensures r.Some? <==> ScanClass(p, i + 1, "").Some?
  {
    match ScanClass(p, i + 1, "")
    case None => None
    case Some(sc) => Some((Replace(b, 0, CharacterClass(b.arena, sc.0, b.id), b.id + 2), sc.1 + 1))
  }

  /** Any other token: an operator pops its operands, anything else is a
      one-character symbol. */
  function Operator(b: Builder, c: char): (r: Option<Builder>)
    requires Shape(b) && c != '{' && c != '['
    ensures r.None? <==> |b.stack| < Arity(c)
    ensures r.Some? ==> Shape(r.value) && Pushes(b, r.value, Arity(c))
  {
    if |b.stack| < Arity(c) then None
    else if c == '*' || c == '+' || c == '?' then Some(Unary(b, c))
    else if c == '|' || c == '.' then Some(Binary(b, c))
    else Some(Replace(b, 0, Thompson.FromSymbol(b.arena, [c], b.id), b.id + 2))
  }

  /** `*`, `+` and `?` wrap the fragment on top of the stack. */
  function Unary(b: Builder, c: char): (r: Builder)
    requires Shape(b) && |b.stack| >= 1 && (c == '*' || c == '+' || c == '?')
    ensures Shape(r) && Pushes(b, r, 1)
  {
    var f := b.stack[|b.stack| - 1];
    if c == '*' then Replace(b, 1, Star(b.arena, f, b.id), b.id + 2)
    else if c == '+' then Replace(b, 1, Plus(b.arena, f, b.id), b.id + 2)
    else Replace(b, 1, Question(b.arena, f, b.id), b.id + 2)
  }

  /** `|` and `.` join the two fragments on top of the stack. */
  function Binary(b: Builder, c: char): (r: Builder)
    requires Shape(b) && |b.stack| >= 2 && (c == '|' || c == '.')
    ensures Shape(r) && Pushes(b, r, 2)
  {
    var s := b.stack;
    if c == '|' then
      Replace(b, 2, Union(b.arena, s[|s| - 2], s[|s| - 1], b.id), b.id + 2)
    else
      assert FragIn(s[|s| - 1], b.arena.nodes);
      Replace(b, 2, Thompson.Concat(b.arena, s[|s| - 2], s[|s| - 1]), b.id)
  }

  /** The token loop from index `i` to the end of the text. */
  function BuildFrom(b: Builder, p: string, i: nat): (r: Option<Builder>)
    requires Shape(b)
    ensures r.Some? ==> Shape(r.value)
    ensures r.Some? && i < |p| ==> |r.value.stack| > 0
    decreases |p| - i
  {
    if i >= |p| then Some(b)
    else
      match Token(b, p, i)
      case None => None
      case Some(t) => BuildFrom(t.0, p, t.1)
  }

  /** The arena `Regex::new` builds from a postfix text: the epsilon
      fragment for the empty text, otherwise the fragment left on top of
      the stack. */
  function BuildRegex(p: string): (r: Option<Arena>)
    ensures r.Some? ==> FragIn(Frag(r.value.start, r.value.end), r.value.nodes)
  {
    if p == "" then
      Some(Thompson.FromEpsilon(Init().arena, 0))
    else
      match BuildFrom(Init(), p, 0)
      case None => None
      case Some(b) =>
        var top := b.stack[|b.stack| - 1];
        Some(Arena(b.arena.nodes, top.start, top.end))
  }

  /** `Regex::new`: the pattern goes through `to_postfix_insert_concat`
      and then through the token loop. */
  function NewRegex(regex: string): Option<Arena>
  {
    match ToPostfix(regex)
    case None => None
    case Some(p) => BuildRegex(p)
  }

  // -----------------------------------------------------------------------
  // What the token loop keeps true

  /** Edges stay inside the arena, ids are indices and the counter is the
      arena length. */
  ghost predicate ArenaWf(nodes: seq<Node>, id: int)
  {
    Wf(nodes) && IdsMatch(nodes) && id == |nodes|
  }

  /** `Shape` together with a well-formed arena. */
  ghost predicate Inv(b: Builder)
  {
    Shape(b) && ArenaWf(b.arena.nodes, b.id)
  }

  lemma LinkKeeps(s: Stage, curr: seq<Node>, f0: Frag, skip: bool)
    requires StageIn(s) && FragIn(f0, curr) && Wf(curr) && ArenaWf(s.arena.nodes, s.id)
    ensures ArenaWf(Link(s, curr, f0, skip).arena.nodes, Link(s, curr, f0, skip).id)
  {
    var off := |s.arena.nodes|;
    AddKeepsArena(s.arena.nodes, curr, s.id);
    var added := Arena(Add(s.arena.nodes, curr, s.id), s.arena.start, s.arena.end);
    ConcatKeepsArena(added, s.n, CopyOf(f0, off));
    var c := Thompson.Concat(added, s.n, CopyOf(f0, off));
    if skip {
      EpsilonKeeps(c.nodes, s.n.end, c.end);
    }
  }

  lemma {:induction false} ChainKeeps(s: Stage, curr: seq<Node>, f0: Frag, k: nat, skip: bool)
    requires StageIn(s) && FragIn(f0, curr) && Wf(curr) && ArenaWf(s.arena.nodes, s.id)
    ensures ArenaWf(Chain(s, curr, f0, k, skip).arena.nodes, Chain(s, curr, f0, k, skip).id)
    decreases k
  {
    if k > 0 {
      ChainKeeps(s, curr, f0, k - 1, skip);
      LinkKeeps(Chain(s, curr, f0, k - 1, skip), curr, f0, skip);
    }
  }

  lemma FinishKeeps(s: Stage, curr: seq<Node>, f0: Frag)
    requires StageIn(s) && FragIn(f0, curr) && Wf(curr) && ArenaWf(s.arena.nodes, s.id)
    ensures ArenaWf(Finish(s, curr, f0).arena.nodes, Finish(s, curr, f0).id)
  {
    LinkKeeps(s, curr, f0, false);
    var c := Link(s, curr, f0, false);
    SetEndKeeps(c.arena.nodes, c.arena.end, false);
    var ended := SetEnd(c.arena.nodes, c.arena.end, false);
    PushKeeps(ended, true, c.id);
    EpsilonKeeps(Push(ended, true, c.id), s.n.end, |ended|);
  }

  lemma OpenEndedKeeps(s0: Stage, curr: seq<Node>, f0: Frag, k: nat)
    requires StageIn(s0) && FragIn(f0, curr) && Wf(curr) && ArenaWf(s0.arena.nodes, s0.id)
    ensures ArenaWf(OpenEnded(s0, curr, f0, k).arena.nodes, OpenEnded(s0, curr, f0, k).id)
  {
    ChainKeeps(s0, curr, f0, k, false);
    var s := Chain(s0, curr, f0, k, false);
    var prevEnd := LoopTarget(s0, curr, f0, k);
    var e := |s.arena.nodes|;
    PushKeeps(s.arena.nodes, true, s.id);
    var pushed := Push(s.arena.nodes, true, s.id);
    SetEndKeeps(pushed, s.arena.end, false);
    var ended := SetEnd(pushed, s.arena.end, false);
    EpsilonKeeps(ended, s.arena.end, e);
    EpsilonKeeps(AddEpsilon(ended, s.arena.end, e), s.arena.end, prevEnd);
  }

  /** Every repetition keeps the arena well formed. */
  lemma RepeatKeeps(a: Arena, f0: Frag, lower: int, upper: int, id: int)
    requires FragIn(f0, a.nodes) && FragIn(Frag(a.start, a.end), a.nodes)
    requires -1 <= lower && -1 <= upper && (lower != -1 || upper != -1)
    requires ArenaWf(a.nodes, id)
    ensures ArenaWf(Repeat(a, f0, lower, upper, id).arena.nodes, Repeat(a, f0, lower, upper, id).id)
  {
    var curr := a.nodes;
    var s0 := Stage(a, f0, id);
    if lower == upper {
      ChainKeeps(s0, curr, f0, Max0(lower - 1), false);
      FinishKeeps(Chain(s0, curr, f0, Max0(lower - 1), false), curr, f0);
    } else if upper == -1 {
      OpenEndedKeeps(s0, curr, f0, Max0(lower - 1));
    } else if lower > -1 {
      var k1 := Max0(lower - 1);
      var s1 := Chain(s0, curr, f0, k1, false);
      ChainKeeps(s0, curr, f0, k1, false);
      ChainKeeps(s1, curr, f0, Max0(upper - 1 - k1), true);
      FinishKeeps(Chain(s1, curr, f0, Max0(upper - 1 - k1), true), curr, f0);
    } else {
      var c := Chain(s0, curr, f0, Max0(upper - 1), true);
      ChainKeeps(s0, curr, f0, Max0(upper - 1), true);
      FinishKeeps(c, curr, f0);
      var f := Finish(c, curr, f0);
      SetEndKeeps(f.arena.nodes, f.arena.start, true);
    }
  }

  lemma OperatorKeepsInv(b: Builder, c: char)
    requires Inv(b) && c != '{' && c != '[' && Operator(b, c).Some?
    ensures Inv(Operator(b, c).value)
  {
    var s := b.stack;
    if c == '*' {
      StarKeepsArena(b.arena, s[|s| - 1], b.id);
    } else if c == '|' {
      UnionKeepsArena(b.arena, s[|s| - 2], s[|s| - 1], b.id);
    } else if c == '.' {
      ConcatKeepsArena(b.arena, s[|s| - 2], s[|s| - 1]);
    } else if c == '+' {
      PlusKeepsArena(b.arena, s[|s| - 1], b.id);
    } else if c == '?' {
      QuestionKeepsArena(b.arena, s[|s| - 1], b.id);
    } else {
      FromSymbolKeepsArena(b.arena, [c], b.id);
    }
  }

  /** Every token keeps the arena well formed. */
  lemma TokenKeepsInv(b: Builder, p: string, i: nat)
    requires Inv(b) && i < |p| && Token(b, p, i).Some?
    ensures Inv(Token(b, p, i).value.0)
  {
    if p[i] == '{' {
      var bd := Bounds(p, i + 1).value;
      var s := b.stack;
      RepeatKeeps(b.arena, s[|s| - 1], bd.0, bd.1, b.id);
    } else if p[i] == '[' {
      CharacterClassKeepsArena(b.arena, ScanClass(p, i + 1, "").value.0, b.id);
    } else {
      OperatorKeepsInv(b, p[i]);
    }
  }

  lemma {:induction false} BuildFromKeepsInv(b: Builder, p: string, i: nat)
    requires Inv(b) && BuildFrom(b, p, i).Some?
    ensures Inv(BuildFrom(b, p, i).value)
    decreases |p| - i
  {
    if i < |p| {
      var t := Token(b, p, i).value;
      TokenKeepsInv(b, p, i);
      BuildFromKeepsInv(t.0, p, t.1);
    }
  }

  /** Every automaton `Regex::new` builds is well formed: edges stay inside
      the arena, ids are indices, and its start and end are nodes of it. */
  lemma BuildRegexWellFormed(p: string)
    requires BuildRegex(p).Some?
    ensures var r := BuildRegex(p).value;
      Wf(r.nodes) && IdsMatch(r.nodes) && r.start < |r.nodes| && r.end < |r.nodes|
  {
    if p == "" {
      FromEpsilonKeepsArena(Init().arena, 0);
    } else {
      BuildFromKeepsInv(Init(), p, 0);
    }
  }

  /** In every automaton `Regex::new` builds, the id-only node equality
      holds exactly between a node and itself. */
  lemma BuiltNodesEqualIffSame(p: string, i: nat, j: nat)
    requires BuildRegex(p).Some?
    requires i < |BuildRegex(p).value.nodes| && j < |BuildRegex(p).value.nodes|
    ensures SameNode(BuildRegex(p).value.nodes[i], BuildRegex(p).value.nodes[j]) <==> i == j
  {
    BuildRegexWellFormed(p);
  }

  // -----------------------------------------------------------------------
  // Which copy a repetition links

  /** One pass of a repetition loop as the source writes it: the fragment
      linked after `n` is taken to start right after the end of `n` and to
      be as long as `f0`; with `skip`, the end of `n` also gets an epsilon
      edge to the end of that fragment. `None` where that fragment's end
      lies outside the arena, which the next step indexes. */
  function AsWrittenLink(s: Stage, curr: seq<Node>, f0: Frag, skip: bool): (r: Option<Stage>)
    requires StageIn(s) && FragIn(f0, curr)
    ensures r.Some? ==> StageIn(r.value)
    ensures r.Some? ==> |r.value.arena.nodes| == |s.arena.nodes| + |curr| && r.value.id == s.id + |curr|
  {
    var added := Add(s.arena.nodes, curr, s.id);
    var secondEnd := s.n.end + 1 + f0.end - f0.start;
    if secondEnd < 0 || secondEnd >= |added| then None
    else
      var c := Thompson.Concat(Arena(added, s.arena.start, s.arena.end), s.n, Frag(s.n.end + 1, secondEnd));
      var nodes := if skip then AddEpsilon(c.nodes, s.n.end, c.end) else c.nodes;
      Some(Stage(Arena(nodes, c.start, c.end), Frag(c.start, c.end), s.id + |curr|))
  }

  /** On the first pass, where `n` is the quantified fragment itself and
      ends at the last node of the snapshot, the source links the same copy
      as `Link` exactly when the fragment starts at node 0. */
  lemma AsWrittenLinkNeedsStartZero(s: Stage, curr: seq<Node>, f0: Frag)
    requires StageIn(s) && FragIn(f0, curr)
    requires s.n == f0 && s.arena.nodes == curr && f0.end == |curr| - 1
    ensures AsWrittenLink(s, curr, f0, false) == Some(Link(s, curr, f0, false)) <==> f0.start == 0
  {
    var off := |curr|;
    var r := Link(s, curr, f0, false);
    assert r.arena.nodes[f0.end].epsilon == Add(curr, curr, s.id)[f0.end].epsilon + [off + f0.start];
    if AsWrittenLink(s, curr, f0, false).Some? {
      var w := AsWrittenLink(s, curr, f0, false).value;
      assert w.arena.nodes[f0.end].epsilon == Add(curr, curr, s.id)[f0.end].epsilon + [f0.end + 1];
      if w == r {
        assert w.arena.nodes[f0.end].epsilon[|w.arena.nodes[f0.end].epsilon| - 1] == f0.end + 1;
      }
    }
  }

  /** `k` passes of a repetition loop as the source writes it; `None` once
      a pass fails. */
  function AsWrittenChain(s: Stage, curr: seq<Node>, f0: Frag, k: nat, skip: bool): (r: Option<Stage>)
    requires StageIn(s) && FragIn(f0, curr)
    ensures r.Some? ==> StageIn(r.value)
    decreases k
  {
    if k == 0 then Some(s)
    else
      match AsWrittenChain(s, curr, f0, k - 1, skip)
      case None => None
      case Some(t) => AsWrittenLink(t, curr, f0, skip)
  }

  /** Where the loop of `{n,}` jumps back to as the source writes it: the
      length the arena had before the last copy, which is where the copy of
      node 0 lies; with no copy, the fresh end itself. */
  function AsWrittenLoopTarget(s0: Stage, curr: seq<Node>, k: nat): (t: nat)
    ensures k == 0 ==> t == |s0.arena.nodes|
    ensures k > 0 ==> t + |curr| == |s0.arena.nodes| + k * |curr|
  {
    if k == 0 then |s0.arena.nodes| else |s0.arena.nodes| + (k - 1) * |curr|
  }

  /** After at least one copy, the back edge of `{n,}` as written reaches
      the copy of the start of `f0` exactly when `f0` starts at node 0. */
  lemma AsWrittenLoopNeedsStartZero(s0: Stage, curr: seq<Node>, f0: Frag, k: nat)
    requires StageIn(s0) && FragIn(f0, curr) && k > 0
    ensures AsWrittenLoopTarget(s0, curr, k) == LoopTarget(s0, curr, f0, k) <==> f0.start == 0
  {
    var before := Chain(s0, curr, f0, k - 1, false);
    assert |before.arena.nodes| == |s0.arena.nodes| + (k - 1) * |curr|;
  }

  /** The repetition of the popped fragment `f0` as the source writes it:
      every pass links the fragment right after the current end, and `{n,}`
      loops back to the copy of node 0. */
  function AsWrittenRepeat(a: Arena, f0: Frag, lower: int, upper: int, id: int): (r: Option<Stage>)
    requires FragIn(f0, a.nodes) && FragIn(Frag(a.start, a.end), a.nodes)
    requires -1 <= lower && -1 <= upper && (lower != -1 || upper != -1)
    ensures r.Some? ==> StageIn(r.value)
  {
    var curr := a.nodes;
    var s0 := Stage(a, f0, id);
    if lower == upper then
      match AsWrittenChain(s0, curr, f0, Max0(lower - 1), false)
      case None => None
      case Some(s) =>
        match AsWrittenLink(s, curr, f0, false)
        case None => None
        case Some(c) => Some(Close(c, s.n.end))
    else if upper == -1 then
      var k := Max0(lower - 1);
      match AsWrittenChain(s0, curr, f0, k, false)
      case None => None
      case Some(s) => Some(OpenTail(s, AsWrittenLoopTarget(s0, curr, k)))
    else if lower > -1 then
      var k1 := Max0(lower - 1);
      match AsWrittenChain(s0, curr, f0, k1, false)
      case None => None
      case Some(s1) =>
        match AsWrittenChain(s1, curr, f0, Max0(upper - 1 - k1), true)
        case None => None
        case Some(s) =>
          match AsWrittenLink(s, curr, f0, false)
          case None => None
          case Some(c) => Some(Close(c, s.n.end))
    else
      match AsWrittenChain(s0, curr, f0, Max0(upper - 1), true)
      case None => None
      case Some(s) =>
        match AsWrittenLink(s, curr, f0, false)
        case None => None
        case Some(c) =>
          var f := Close(c, s.n.end);
          Some(Stage(Arena(SetEnd(f.arena.nodes, f.arena.start, true), f.arena.start, f.arena.end), f.n, f.id))
  }

  /** When the fragment built so far ends at the last node and `f0` starts
      at node 0, a pass as written links the same copy as `Link`, and the
      fragment again ends at the last node. */
  lemma AsWrittenLinkAtEnd(s: Stage, curr: seq<Node>, f0: Frag, skip: bool)
    requires StageIn(s) && FragIn(f0, curr)
    requires f0 == Frag(0, |curr| - 1) && s.n.end == |s.arena.nodes| - 1
    ensures AsWrittenLink(s, curr, f0, skip) == Some(Link(s, curr, f0, skip))
    ensures Link(s, curr, f0, skip).n.end == |Link(s, curr, f0, skip).arena.nodes| - 1
  {
    assert CopyOf(f0, |s.arena.nodes|) == Frag(s.n.end + 1, s.n.end + 1 + f0.end - f0.start);
  }

  /** `k` passes as written equal `Chain` under the same conditions. */
  lemma AsWrittenChainAtEnd(s: Stage, curr: seq<Node>, f0: Frag, k: nat, skip: bool)
    requires StageIn(s) && FragIn(f0, curr)
    requires f0 == Frag(0, |curr| - 1) && s.n.end == |s.arena.nodes| - 1
    ensures AsWrittenChain(s, curr, f0, k, skip) == Some(Chain(s, curr, f0, k, skip))
    ensures Chain(s, curr, f0, k, skip).n.end == |Chain(s, curr, f0, k, skip).arena.nodes| - 1
  {
    ChainZero(s, curr, f0, skip);
    var j := 0;
    while j < k
      invariant j <= k
      invariant AsWrittenChain(s, curr, f0, j, skip) == Some(Chain(s, curr, f0, j, skip))
      invariant Chain(s, curr, f0, j, skip).n.end == |Chain(s, curr, f0, j, skip).arena.nodes| - 1
    {
      ChainAtEndNext(s, curr, f0, j + 1, skip);
      j := j + 1;
    }
  }

  /** No pass leaves the stage as it is, in both chains. */
  lemma ChainZero(s: Stage, curr: seq<Node>, f0: Frag, skip: bool)
    requires StageIn(s) && FragIn(f0, curr)
    ensures AsWrittenChain(s, curr, f0, 0, skip) == Some(s) && Chain(s, curr, f0, 0, skip) == s
  {
  }

  /** The step of `AsWrittenChainAtEnd`: what holds after `k - 1` passes
      holds after `k`. */
  lemma ChainAtEndNext(s: Stage, curr: seq<Node>, f0: Frag, k: nat, skip: bool)
    requires StageIn(s) && FragIn(f0, curr) && k > 0
    requires f0 == Frag(0, |curr| - 1)
    requires AsWrittenChain(s, curr, f0, k - 1, skip) == Some(Chain(s, curr, f0, k - 1, skip))
    requires Chain(s, curr, f0, k - 1, skip).n.end == |Chain(s, curr, f0, k - 1, skip).arena.nodes| - 1
    ensures AsWrittenChain(s, curr, f0, k, skip) == Some(Chain(s, curr, f0, k, skip))
    ensures Chain(s, curr, f0, k, skip).n.end == |Chain(s, curr, f0, k, skip).arena.nodes| - 1
  {
    var t := Chain(s, curr, f0, k - 1, skip);
    ChainNext(s, curr, f0, k, skip, t);
    AsWrittenLinkAtEnd(t, curr, f0, skip);
  }

  /** Both chains, unfolded at their last pass. */
  lemma ChainNext(s: Stage, curr: seq<Node>, f0: Frag, k: nat, skip: bool, t: Stage)
    requires StageIn(s) && FragIn(f0, curr) && k > 0
    requires Chain(s, curr, f0, k - 1, skip) == t && AsWrittenChain(s, curr, f0, k - 1, skip) == Some(t)
    ensures StageIn(t)
    ensures AsWrittenChain(s, curr, f0, k, skip) == AsWrittenLink(t, curr, f0, skip)
    ensures Chain(s, curr, f0, k, skip) == Link(t, curr, f0, skip)
  {
  }

  /** When the quantified fragment is the whole arena, as for a bound
      right after the first atom of a pattern, the loops as written build
      exactly `Repeat`: every pass links the copy of the fragment, and the
      copy of node 0 is the copy of its start. */
  lemma AsWrittenRepeatWholeArena(a: Arena, f0: Frag, lower: int, upper: int, id: int)
    requires FragIn(f0, a.nodes) && FragIn(Frag(a.start, a.end), a.nodes)
    requires -1 <= lower && -1 <= upper && (lower != -1 || upper != -1)
    requires f0 == Frag(0, |a.nodes| - 1)
    ensures AsWrittenRepeat(a, f0, lower, upper, id) == Some(Repeat(a, f0, lower, upper, id))
  {
    var curr := a.nodes;
    var s0 := Stage(a, f0, id);
    if lower == upper {
      var k := Max0(lower - 1);
      AsWrittenChainAtEnd(s0, curr, f0, k, false);
      AsWrittenLinkAtEnd(Chain(s0, curr, f0, k, false), curr, f0, false);
      FinishIsClose(Chain(s0, curr, f0, k, false), curr, f0);
    } else if upper == -1 {
      var k := Max0(lower - 1);
      AsWrittenChainAtEnd(s0, curr, f0, k, false);
      OpenEndedIsTail(s0, curr, f0, k);
      if k > 0 {
        AsWrittenLoopNeedsStartZero(s0, curr, f0, k);
      }
    } else if lower > -1 {
      var k1 := Max0(lower - 1);
      AsWrittenChainAtEnd(s0, curr, f0, k1, false);
      var s1 := Chain(s0, curr, f0, k1, false);
      var k2 := Max0(upper - 1 - k1);
      AsWrittenChainAtEnd(s1, curr, f0, k2, true);
      AsWrittenLinkAtEnd(Chain(s1, curr, f0, k2, true), curr, f0, false);
      FinishIsClose(Chain(s1, curr, f0, k2, true), curr, f0);
    } else {
      var k := Max0(upper - 1);
      AsWrittenChainAtEnd(s0, curr, f0, k, true);
      AsWrittenLinkAtEnd(Chain(s0, curr, f0, k, true), curr, f0, false);
      FinishIsClose(Chain(s0, curr, f0, k, true), curr, f0);
    }
  }

  /** What one pass of a repetition loop does: the copy of the snapshot
      lies after the old arena with every edge moved by the old length, the
      end of `n` stops accepting and gets an epsilon edge to the copy of the
      start of `f0` (and, with `skip`, one to the copy of its end), and the
      fragment built so far now ends at the copy of the end of `f0`. */
  lemma LinkCopiesFragment(s: Stage, curr: seq<Node>, f0: Frag, skip: bool)
    requires StageIn(s) && FragIn(f0, curr)
    ensures var r := Link(s, curr, f0, skip); var off := |s.arena.nodes|;
      && r.n == Frag(s.n.start, off + f0.end)
      && (forall j :: 0 <= j < |curr| ==> r.arena.nodes[off + j] == Shift(curr[j], off, s.id + j))
      && (forall j :: 0 <= j < off && j != s.n.end ==> r.arena.nodes[j] == s.arena.nodes[j])
      && r.arena.nodes[s.n.end] == s.arena.nodes[s.n.end].(isEnd := false,
           epsilon := s.arena.nodes[s.n.end].epsilon + [off + f0.start] + (if skip then [off + f0.end] else []))
  {
    var off := |s.arena.nodes|;
    var added := Add(s.arena.nodes, curr, s.id);
    assert added[s.n.end] == s.arena.nodes[s.n.end] by {
      assert added[..off][s.n.end] == s.arena.nodes[s.n.end];
    }
    forall j | 0 <= j < off ensures added[j] == s.arena.nodes[j] {
      assert added[..off][j] == s.arena.nodes[j];
    }
  }

  /** A bound token whose bounds were read: the repetition of the top
      fragment replaces it on the stack. */
  lemma RepeatTokenIs(b: Builder, p: string, i: nat, lower: int, upper: int, close: nat)
    requires Shape(b) && i < |p| && |b.stack| > 0
    requires Bounds(p, i + 1) == Some((lower, upper, close))
    ensures var st := Repeat(b.arena, b.stack[|b.stack| - 1], lower, upper, b.id);
      RepeatToken(b, p, i) ==
        Some((Builder(st.arena, b.stack[..|b.stack| - 1] + [Frag(st.arena.start, st.arena.end)], st.id), close + 1))
  {
  }

  /** A class token whose characters were collected: the class fragment
      is pushed on the stack. */
  lemma ClassTokenIs(b: Builder, p: string, i: nat, chars: string, close: nat)
    requires Shape(b) && i < |p|
    requires ScanClass(p, i + 1, "") == Some((chars, close))
    ensures ClassToken(b, p, i) ==
      Some((Builder(CharacterClass(b.arena, chars, b.id), b.stack + [Frag(|b.arena.nodes|, |b.arena.nodes| + 1)], b.id + 2), close + 1))
  {
    assert b.stack[..|b.stack| - 0] == b.stack;
  }
}
