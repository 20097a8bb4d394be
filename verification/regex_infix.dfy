/** The two text passes the arena builder runs before it builds anything:
    `insert_concat` writes the implicit concatenations of an infix pattern
    as explicit `.` operators, and `to_postfix_insert_concat` turns the
    result into postfix with a shunting-yard pass over the operators `|`,
    `.` and `*`. Character classes and bounded repetitions are copied
    through `insert_concat` unchanged. */
module RegexInfix {
  import opened Wrappers

  /** `precedence`: `|` binds loosest, then `.`, then `*`; every other
      character, `(` included, ranks below all three. */
  function Precedence(op: char): (p: int)
    ensures p == 0 <==> op != '|' && op != '.' && op != '*'
    ensures p > 0 ==> p == (if op == '|' then 1 else if op == '.' then 2 else 3)
  {
    match op
    case '|' => 1
    case '.' => 2
    case '*' => 3
    case _ => 0
  }

  // -----------------------------------------------------------------------
  // insert_concat

  /** What `insert_concat` writes, one item at a time: a copy of an input
      character, or a `.` it adds. */
  datatype Emit = Copied(c: char) | Marker

  /** The text written. */
  function Render(es: seq<Emit>): (s: string)
    ensures |s| == |es|
    ensures forall k :: 0 <= k < |es| ==> s[k] == if es[k].Copied? then es[k].c else '.'
  {
    seq(|es|, k requires 0 <= k < |es| => if es[k].Copied? then es[k].c else '.')
  }

  /** The input characters among what was written, in order. */
  function Originals(es: seq<Emit>): string
  {
    if |es| == 0 then []
    else (if es[0].Copied? then [es[0].c] else []) + Originals(es[1..])
  }

  /** Copies every character of `s`. */
  function CopyAll(s: string): (es: seq<Emit>)
    ensures |es| == |s| && forall k :: 0 <= k < |s| ==> es[k] == Copied(s[k])
  {
    seq(|s|, k requires 0 <= k < |s| => Copied(s[k]))
  }

  /** `p` followed by the rest, unless the rest failed. */
  function Then(p: seq<Emit>, rest: Option<seq<Emit>>): Option<seq<Emit>>
  {
    match rest
    case None => None
    case Some(t) => Some(p + t)
  }

  predicate IsCloser(c: char)
  {
    c == ']' || c == '}'
  }

  /** The first `]` or `}` at or after `j`. */
  function CloserFrom(r: string, j: nat): (k: Option<nat>)
    ensures k.Some? ==> j <= k.value < |r| && IsCloser(r[k.value])
    ensures k.Some? ==> forall m :: j <= m < k.value ==> !IsCloser(r[m])
    ensures k.None? ==> forall m :: j <= m < |r| ==> !IsCloser(r[m])
    decreases |r| - j
  {
    if j >= |r| then None
    else if IsCloser(r[j]) then Some(j)
    else CloserFrom(r, j + 1)
  }

  /** What `insert_concat` writes for `r[i..]`. A `[` or `{` copies
      everything up to the next `]` or `}` unchanged, and fails (the
      source unwraps past the end) when there is none. After any other
      character a `.` follows, unless the character is one of `(|[]{}`,
      is the last one, or is followed by one of `*?+|)]{`. */
  function Emits(r: string, i: nat): Option<seq<Emit>>
    decreases |r| - i
  {
    if i >= |r| then Some([])
    else if r[i] == '[' || r[i] == '{' then
      match CloserFrom(r, i + 1)
      case None => None
      case Some(k) => Then(CopyAll(r[i..k + 1]), Emits(r, k + 1))
    else if r[i] in "(|[]{}" || i + 1 == |r| || r[i + 1] in "*?+|)]{" then
      Then([Copied(r[i])], Emits(r, i + 1))
    else
      Then([Copied(r[i]), Marker], Emits(r, i + 1))
  }

  /** The string `insert_concat` returns, `None` where it panics. */
  function Inserted(r: string): Option<string>
  {
    match Emits(r, 0)
    case None => None
    case Some(es) => Some(Render(es))
  }

  lemma RenderAppend(a: seq<Emit>, b: seq<Emit>)
    ensures Render(a + b) == Render(a) + Render(b)
  {
  }

  lemma ThenAppend(a: seq<Emit>, b: seq<Emit>, rest: Option<seq<Emit>>)
    ensures Then(a, Then(b, rest)) == Then(a + b, rest)
  {
    if rest.Some? {
      assert a + (b + rest.value) == a + b + rest.value;
    }
  }

  /** A class or bound from `open` to its closer at `i` is copied whole. */
  lemma CopiedClass(regex: string, open: nat, i: nat, done: seq<Emit>)
    requires open < i < |regex| && (regex[open] == '[' || regex[open] == '{')
    requires CloserFrom(regex, open + 1) == Some(i)
    requires Emits(regex, 0) == Then(done, Emits(regex, open))
    ensures Emits(regex, 0) == Then(done + CopyAll(regex[open..i + 1]), Emits(regex, i + 1))
    ensures Render(done + CopyAll(regex[open..i + 1])) == Render(done) + regex[open..i] + [regex[i]]
  {
    ThenAppend(done, CopyAll(regex[open..i + 1]), Emits(regex, i + 1));
    RenderAppend(done, CopyAll(regex[open..i + 1]));
    assert Render(CopyAll(regex[open..i + 1])) == regex[open..i + 1];
    assert regex[open..i + 1] == regex[open..i] + [regex[i]];
  }

  /** The same for any other character: it is copied, followed by a `.`
      where an operand ends and another begins. */
  lemma CopiedChar(regex: string, i: nat, done: seq<Emit>, emitted: seq<Emit>)
    requires i < |regex| && regex[i] != '[' && regex[i] != '{'
    requires emitted == if regex[i] in "(|[]{}" || i + 1 == |regex| || regex[i + 1] in "*?+|)]{" then [Copied(regex[i])]
                         else [Copied(regex[i]), Marker]
    requires Emits(regex, 0) == Then(done, Emits(regex, i))
    ensures Emits(regex, 0) == Then(done + emitted, Emits(regex, i + 1))
    ensures Render(done + emitted) == Render(done) + Render(emitted)
  {
    ThenAppend(done, emitted, Emits(regex, i + 1));
    RenderAppend(done, emitted);
  }

  /** `insert_concat`: walks the pattern with an index, copying every
      character and adding a `.` where an operand ends and another begins;
      the content of a class or repetition bound is copied as it is. */
  method InsertConcat(regex: string) returns (out: Option<string>)
    ensures out == Inserted(regex)
  {
    var output: string := "";
    ghost var done: seq<Emit> := [];
    var i := 0;
    assert Then([], Emits(regex, 0)) == Emits(regex, 0) by {
      if Emits(regex, 0).Some? {
        assert [] + Emits(regex, 0).value == Emits(regex, 0).value;
      }
    }
    while i < |regex|
      invariant i <= |regex|
      invariant output == Render(done)
      invariant Emits(regex, 0) == Then(done, Emits(regex, i))
      decreases |regex| - i
    {
      var token := regex[i];
      if token == '[' || token == '{' {
        var open := i;
        output := output + [token];
        i := i + 1;
        while i < |regex| && regex[i] != ']' && regex[i] != '}'
          invariant open < i <= |regex|
          invariant CloserFrom(regex, open + 1) == CloserFrom(regex, i)
          invariant output == Render(done) + regex[open..i]
          decreases |regex| - i
        {
          assert regex[open..i + 1] == regex[open..i] + [regex[i]];
          output := output + [regex[i]];
          i := i + 1;
        }
        if i == |regex| {
          return None;
        }
        output := output + [regex[i]];
        CopiedClass(regex, open, i, done);
        done := done + CopyAll(regex[open..i + 1]);
        i := i + 1;
        continue;
      }
      ghost var emitted: seq<Emit>;
      if token in "(|[]{}" || i + 1 == |regex| || regex[i + 1] in "*?+|)]{" {
        output := output + [token];
        emitted := [Copied(token)];
      } else {
        output := output + [token, '.'];
        emitted := [Copied(token), Marker];
      }
      CopiedChar(regex, i, done, emitted);
      done := done + emitted;
      i := i + 1;
    }
    assert done + [] == done;
    return Some(output);
  }

  // -----------------------------------------------------------------------
  // What insert_concat promises

  lemma OriginalsAppend(a: seq<Emit>, b: seq<Emit>)
    ensures Originals(a + b) == Originals(a) + Originals(b)
    decreases |a|
  {
    if |a| > 0 {
      assert (a + b)[1..] == a[1..] + b;
      OriginalsAppend(a[1..], b);
    } else {
      assert a + b == b;
    }
  }

  lemma {:induction false} OriginalsCopyAll(s: string)
    ensures Originals(CopyAll(s)) == s
    decreases |s|
  {
    if |s| > 0 {
      assert CopyAll(s)[1..] == CopyAll(s[1..]);
      OriginalsCopyAll(s[1..]);
      assert s == [s[0]] + s[1..];
    }
  }

  /** Every input character is written exactly once and in order: dropping
      the added markers gives back the input. */
  lemma {:induction false} EmitsKeepsInput(r: string, i: nat)
    requires i <= |r| && Emits(r, i).Some?
    ensures Originals(Emits(r, i).value) == r[i..]
    decreases |r| - i
  {
    if i < |r| {
      if r[i] == '[' || r[i] == '{' {
        var k := CloserFrom(r, i + 1).value;
        EmitsKeepsInput(r, k + 1);
        GroupKeepsInput(r, i, k);
      } else {
        EmitsKeepsInput(r, i + 1);
        CharKeepsInput(r, i);
      }
    }
  }

  /** One step of `EmitsKeepsInput` over a copied `[...]` or `{...}`. */
  lemma GroupKeepsInput(r: string, i: nat, k: nat)
    requires i < |r| && (r[i] == '[' || r[i] == '{') && CloserFrom(r, i + 1) == Some(k)
    requires Emits(r, k + 1).Some? && Originals(Emits(r, k + 1).value) == r[k + 1..]
    ensures Emits(r, i).Some? && Originals(Emits(r, i).value) == r[i..]
  {
    OriginalsAppend(CopyAll(r[i..k + 1]), Emits(r, k + 1).value);
    OriginalsCopyAll(r[i..k + 1]);
    assert r[i..] == r[i..k + 1] + r[k + 1..];
  }

  /** One step of `EmitsKeepsInput` over any other character. */
  lemma CharKeepsInput(r: string, i: nat)
    requires i < |r| && r[i] != '[' && r[i] != '{'
    requires Emits(r, i + 1).Some? && Originals(Emits(r, i + 1).value) == r[i + 1..]
    ensures Emits(r, i).Some? && Originals(Emits(r, i).value) == r[i..]
  {
    var p := if r[i] in "(|[]{}" || i + 1 == |r| || r[i + 1] in "*?+|)]{" then [Copied(r[i])]
             else [Copied(r[i]), Marker];
    OriginalsAppend(p, Emits(r, i + 1).value);
    assert Originals(p) == [r[i]] by {
      assert p[1..] == [] || p[1..] == [Marker];
    }
    assert r[i..] == [r[i]] + r[i + 1..];
  }

  /** What is written for a non-empty rest starts with a copy of its first
      character. */
  lemma EmitsStartsWithCopy(r: string, i: nat)
    requires i < |r| && Emits(r, i).Some?
    ensures |Emits(r, i).value| > 0 && Emits(r, i).value[0] == Copied(r[i])
  {
    if r[i] == '[' || r[i] == '{' {
      var k := CloserFrom(r, i + 1).value;
      assert CopyAll(r[i..k + 1])[0] == Copied(r[i]);
    }
  }

  /** A written `.` marker always stands between two operands: after a
      character that is not one of `(|[]{}` and before one that is not one
      of `*?+|)]{`. */
  lemma {:induction false} MarkersBetweenOperands(r: string, i: nat, k: nat)
    requires i <= |r| && Emits(r, i).Some?
    requires k < |Emits(r, i).value| && Emits(r, i).value[k] == Marker
    ensures 0 < k < |Emits(r, i).value| - 1
    ensures Emits(r, i).value[k - 1].Copied? && Emits(r, i).value[k - 1].c !in "(|[]{}"
    ensures Emits(r, i).value[k + 1].Copied? && Emits(r, i).value[k + 1].c !in "*?+|)]{"
    decreases |r| - i
  {
    var es := Emits(r, i).value;
    if r[i] == '[' || r[i] == '{' {
      var c := CloserFrom(r, i + 1).value;
      var p := CopyAll(r[i..c + 1]);
      var rest := Emits(r, c + 1).value;
      assert es == p + rest;
      assert k >= |p|;
      MarkersBetweenOperands(r, c + 1, k - |p|);
      assert es[k - 1] == rest[k - |p| - 1] && es[k + 1] == rest[k - |p| + 1];
    } else if r[i] in "(|[]{}" || i + 1 == |r| || r[i + 1] in "*?+|)]{" {
      var rest := Emits(r, i + 1).value;
      assert es == [Copied(r[i])] + rest;
      assert k > 0;
      MarkersBetweenOperands(r, i + 1, k - 1);
      assert es[k - 1] == rest[k - 2] && es[k + 1] == rest[k];
    } else {
      var rest := Emits(r, i + 1).value;
      assert es == [Copied(r[i]), Marker] + rest;
      if k == 1 {
        EmitsStartsWithCopy(r, i + 1);
        assert es[2] == rest[0];
      } else {
        assert k > 1;
        MarkersBetweenOperands(r, i + 1, k - 2);
        assert es[k - 1] == rest[k - 3] && es[k + 1] == rest[k - 1];
      }
    }
  }

  /** Without a `[` or `{`, `insert_concat` never fails. */
  lemma {:induction false} NoBracketNoFailure(r: string, i: nat)
    requires forall m :: i <= m < |r| ==> r[m] != '[' && r[m] != '{'
    ensures Emits(r, i).Some?
    decreases |r| - i
  {
    if i < |r| {
      NoBracketNoFailure(r, i + 1);
    }
  }

  // -----------------------------------------------------------------------
  // to_postfix_insert_concat

  /** The shunting-yard state: the output so far and the operator stack,
      top last. */
  datatype Shunt = Shunt(out: string, stack: string)

  /** `)`: moves operators from the stack to the output up to the nearest
      `(`, which is dropped; an empty stack ends the pass too. */
  function CloseGroup(s: Shunt): Shunt
    decreases |s.stack|
  {
    if |s.stack| == 0 then s
    else
      var top := s.stack[|s.stack| - 1];
      var rest := s.stack[..|s.stack| - 1];
      if top == '(' then Shunt(s.out, rest)
      else CloseGroup(Shunt(s.out + [top], rest))
  }

  /** An operator token: moves operators that bind at least as tightly
      from the stack to the output. */
  function PopOperators(s: Shunt, token: char): Shunt
    decreases |s.stack|
  {
    if |s.stack| == 0 then s
    else
      var top := s.stack[|s.stack| - 1];
      if Precedence(top) >= Precedence(token) then
        PopOperators(Shunt(s.out + [top], s.stack[..|s.stack| - 1]), token)
      else s
  }

  /** One token of the pass. */
  function ShuntStep(s: Shunt, token: char): Shunt
  {
    if token == '(' then Shunt(s.out, s.stack + ['('])
    else if token == ')' then CloseGroup(s)
    else if token == '|' || token == '.' || token == '*' then
      var p := PopOperators(s, token);
      Shunt(p.out, p.stack + [token])
    else Shunt(s.out + [token], s.stack)
  }

  /** The pass over all tokens, from the left. */
  function ShuntAll(tokens: string): Shunt
    decreases |tokens|
  {
    if |tokens| == 0 then Shunt([], [])
    else ShuntStep(ShuntAll(tokens[..|tokens| - 1]), tokens[|tokens| - 1])
  }

  /** Empties the stack onto the output, top first. */
  function Drain(s: Shunt): string
    decreases |s.stack|
  {
    if |s.stack| == 0 then s.out
    else Drain(Shunt(s.out + [s.stack[|s.stack| - 1]], s.stack[..|s.stack| - 1]))
  }

  function Postfix(r: string): string
  {
    Drain(ShuntAll(r))
  }

  /** The string `to_postfix_insert_concat` returns, `None` where
      `insert_concat` panics. */
  function ToPostfix(raw: string): Option<string>
  {
    match Inserted(raw)
    case None => None
    case Some(r) => Some(Postfix(r))
  }

  /** `to_postfix_insert_concat`. */
  method ToPostfixInsertConcat(rawRegex: string) returns (out: Option<string>)
    ensures out == ToPostfix(rawRegex)
  {
    var inserted := InsertConcat(rawRegex);
    if inserted.None? {
      return None;
    }
    var regex := inserted.value;
    var output: string := "";
    var stack: string := "";
    for t := 0 to |regex|
      invariant Shunt(output, stack) == ShuntAll(regex[..t])
    {
      var token := regex[t];
      assert regex[..t + 1][..t] == regex[..t];
      ghost var before := Shunt(output, stack);
      if token == '(' {
        stack := stack + ['('];
      } else if token == ')' {
        while |stack| > 0 && stack[|stack| - 1] != '('
          invariant CloseGroup(Shunt(output, stack)) == CloseGroup(before)
        {
          output := output + [stack[|stack| - 1]];
          stack := stack[..|stack| - 1];
        }
        if |stack| > 0 {
          stack := stack[..|stack| - 1];
        }
      } else if token == '|' || token == '.' || token == '*' {
        while |stack| > 0 && Precedence(stack[|stack| - 1]) >= Precedence(token)
          invariant PopOperators(Shunt(output, stack), token) == PopOperators(before, token)
        {
          output := output + [stack[|stack| - 1]];
          stack := stack[..|stack| - 1];
        }
        stack := stack + [token];
      } else {
        output := output + [token];
      }
    }
    assert regex[..|regex|] == regex;
    while |stack| > 0
      invariant Drain(Shunt(output, stack)) == Postfix(regex)
    {
      output := output + [stack[|stack| - 1]];
      stack := stack[..|stack| - 1];
    }
    return Some(output);
  }

  // -----------------------------------------------------------------------
  // What the postfix pass promises

  function Count(s: string, c: char): nat
  {
    multiset(s)[c]
  }

  /** Open minus close parentheses. */
  function Depth(s: string): int
  {
    Count(s, '(') - Count(s, ')')
  }

  /** Every prefix opens at least as many groups as it closes, and the
      whole string closes all it opens. */
  predicate Balanced(s: string)
  {
    Depth(s) == 0 && NeverNegative(s)
  }

  /** No prefix closes more groups than it opens. */
  predicate NeverNegative(s: string)
  {
    forall k :: 0 <= k <= |s| ==> Depth(s[..k]) >= 0
  }

  /** Only `(` and the three operators ever sit on the stack. */
  predicate StackChars(stack: string)
  {
    forall k :: 0 <= k < |stack| ==> stack[k] in "(|.*"
  }

  lemma CloseGroupFacts(s: Shunt)
    requires StackChars(s.stack)
    ensures var r := CloseGroup(s);
      && StackChars(r.stack)
      && Count(r.out, '(') == Count(s.out, '(') && Count(r.out, ')') == Count(s.out, ')')
      && Count(r.stack, '(') == (if Count(s.stack, '(') > 0 then Count(s.stack, '(') - 1 else 0)
      && forall c :: c != '(' ==> Count(r.out, c) + Count(r.stack, c) == Count(s.out, c) + Count(s.stack, c)
    decreases |s.stack|
  {
    if |s.stack| > 0 {
      var top := s.stack[|s.stack| - 1];
      var rest := s.stack[..|s.stack| - 1];
      assert s.stack == rest + [top];
      assert multiset(s.stack) == multiset(rest) + multiset{top};
      assert multiset(s.out + [top]) == multiset(s.out) + multiset{top};
      if top != '(' {
        CloseGroupFacts(Shunt(s.out + [top], rest));
      }
    }
  }

  lemma PopOperatorsFacts(s: Shunt, token: char)
    requires StackChars(s.stack) && Precedence(token) > 0
    ensures var r := PopOperators(s, token);
      && StackChars(r.stack)
      && Count(r.out, '(') == Count(s.out, '(') && Count(r.out, ')') == Count(s.out, ')')
      && Count(r.stack, '(') == Count(s.stack, '(')
      && forall c :: Count(r.out, c) + Count(r.stack, c) == Count(s.out, c) + Count(s.stack, c)
    decreases |s.stack|
  {
    if |s.stack| > 0 {
      var top := s.stack[|s.stack| - 1];
      var rest := s.stack[..|s.stack| - 1];
      if Precedence(top) >= Precedence(token) {
        assert s.stack == rest + [top];
        assert multiset(s.stack) == multiset(rest) + multiset{top};
        assert multiset(s.out + [top]) == multiset(s.out) + multiset{top};
        PopOperatorsFacts(Shunt(s.out + [top], rest), token);
      }
    }
  }

  /** One token keeps parentheses out of the output and accounts for the
      token either on the output or on the stack. */
  lemma ShuntStepFacts(s: Shunt, token: char)
    requires StackChars(s.stack) && Count(s.out, '(') == 0 && Count(s.out, ')') == 0
    ensures var r := ShuntStep(s, token);
      && StackChars(r.stack)
      && Count(r.out, '(') == 0 && Count(r.out, ')') == 0
      && (forall c :: c != '(' && c != ')' ==>
            Count(r.out, c) + Count(r.stack, c) == Count(s.out, c) + Count(s.stack, c) + (if c == token then 1 else 0))
      && Count(r.stack, '(') == if token == '(' then Count(s.stack, '(') + 1
                                else if token == ')' && Count(s.stack, '(') > 0 then Count(s.stack, '(') - 1
                                else if token == ')' then 0
                                else Count(s.stack, '(')
  {
    if token == '(' {
      assert multiset(s.stack + ['(']) == multiset(s.stack) + multiset{'('};
    } else if token == ')' {
      CloseGroupFacts(s);
    } else if token == '|' || token == '.' || token == '*' {
      PopOperatorsFacts(s, token);
      var p := PopOperators(s, token);
      assert multiset(p.stack + [token]) == multiset(p.stack) + multiset{token};
    } else {
      assert multiset(s.out + [token]) == multiset(s.out) + multiset{token};
    }
  }

  /** The depth moves by one per parenthesis. */
  lemma DepthSnoc(init: string, token: char)
    ensures Depth(init + [token]) == Depth(init) + (if token == '(' then 1 else if token == ')' then -1 else 0)
    ensures forall c :: Count(init + [token], c) == Count(init, c) + (if c == token then 1 else 0)
  {
    assert multiset(init + [token]) == multiset(init) + multiset{token};
  }

  /** A string whose prefixes never close more than they open: so do the
      prefixes of its prefix. */
  lemma PrefixDepthsOfInit(tokens: string)
    requires |tokens| > 0 && NeverNegative(tokens)
    ensures NeverNegative(tokens[..|tokens| - 1])
    ensures Depth(tokens) >= 0
  {
    var init := tokens[..|tokens| - 1];
    forall k | 0 <= k <= |init| ensures Depth(init[..k]) >= 0 {
      assert init[..k] == tokens[..k];
    }
    assert tokens[..|tokens|] == tokens;
  }

  /** The pass never writes a parenthesis; every other character is either
      written or on the stack, once per occurrence in the input; and the
      stack holds one `(` per group still open. */
  lemma {:induction false} ShuntAllFacts(tokens: string)
    ensures var s := ShuntAll(tokens);
      && StackChars(s.stack)
      && Count(s.out, '(') == 0 && Count(s.out, ')') == 0
      && (forall c :: c != '(' && c != ')' ==> Count(s.out, c) + Count(s.stack, c) == Count(tokens, c))
      && (NeverNegative(tokens) ==> Count(s.stack, '(') == Depth(tokens))
    decreases |tokens|
  {
    if |tokens| > 0 {
      var init := tokens[..|tokens| - 1];
      var token := tokens[|tokens| - 1];
      assert tokens == init + [token];
      var s := ShuntAll(init);
      assert ShuntAll(tokens) == ShuntStep(s, token);
      ShuntAllFacts(init);
      ShuntStepFacts(s, token);
      DepthSnoc(init, token);
      if NeverNegative(tokens) {
        PrefixDepthsOfInit(tokens);
      }
    }
  }

  lemma DrainFacts(s: Shunt)
    ensures forall c :: Count(Drain(s), c) == Count(s.out, c) + Count(s.stack, c)
    decreases |s.stack|
  {
    if |s.stack| > 0 {
      var top := s.stack[|s.stack| - 1];
      var rest := s.stack[..|s.stack| - 1];
      assert s.stack == rest + [top];
      assert multiset(s.stack) == multiset(rest) + multiset{top};
      assert multiset(s.out + [top]) == multiset(s.out) + multiset{top};
      DrainFacts(Shunt(s.out + [top], rest));
    }
  }

  /** The postfix form holds no `)`, every character other than a
      parenthesis as often as the input does, and, when the input's
      parentheses are balanced, no `(` either. */
  lemma PostfixKeepsOperands(r: string)
    ensures Count(Postfix(r), ')') == 0
    ensures forall c :: c != '(' && c != ')' ==> Count(Postfix(r), c) == Count(r, c)
    ensures Balanced(r) ==> Count(Postfix(r), '(') == 0
  {
    ShuntAllFacts(r);
    DrainFacts(ShuntAll(r));
  }

  // -----------------------------------------------------------------------
  // The two passes together

  lemma RenderPrefix(es: seq<Emit>, k: nat)
    requires k <= |es|
    ensures Render(es)[..k] == Render(es[..k])
  {
  }

  lemma {:induction false} RenderCounts(es: seq<Emit>, c: char)
    requires c != '.'
    ensures Count(Render(es), c) == Count(Originals(es), c)
    decreases |es|
  {
    if |es| > 0 {
      assert es == [es[0]] + es[1..];
      RenderAppend([es[0]], es[1..]);
      RenderCounts(es[1..], c);
      assert multiset(Render(es)) == multiset(Render([es[0]])) + multiset(Render(es[1..]));
      assert multiset(Originals(es)) == multiset(if es[0].Copied? then [es[0].c] else []) + multiset(Originals(es[1..]));
    }
  }

  /** The markers `insert_concat` adds are no parentheses, so the input's
      balance carries over to what it writes. */
  lemma InsertedKeepsBalance(raw: string)
    requires Emits(raw, 0).Some? && Balanced(raw)
    ensures Balanced(Render(Emits(raw, 0).value))
  {
    var es := Emits(raw, 0).value;
    EmitsKeepsInput(raw, 0);
    assert raw[0..] == raw;
    RenderCounts(es, '(');
    RenderCounts(es, ')');
    forall k | 0 <= k <= |es| ensures Depth(Render(es)[..k]) >= 0 {
      RenderPrefix(es, k);
      RenderCounts(es[..k], '(');
      RenderCounts(es[..k], ')');
      assert es == es[..k] + es[k..];
      OriginalsAppend(es[..k], es[k..]);
      var m := |Originals(es[..k])|;
      assert Originals(es[..k]) == raw[..m];
    }
  }

  /** The whole front end: a pattern whose parentheses are balanced comes
      out in postfix without any parenthesis, and with every other
      character of the pattern as often as the pattern has it; only `.`
      can occur more often, once per added marker. */
  lemma ToPostfixDropsParentheses(raw: string)
    requires ToPostfix(raw).Some?
    ensures Count(ToPostfix(raw).value, ')') == 0
    ensures Balanced(raw) ==> Count(ToPostfix(raw).value, '(') == 0
    ensures forall c :: c != '(' && c != ')' && c != '.' ==> Count(ToPostfix(raw).value, c) == Count(raw, c)
  {
    var es := Emits(raw, 0).value;
    var r := Render(es);
    PostfixKeepsOperands(r);
    EmitsKeepsInput(raw, 0);
    assert raw[0..] == raw;
    forall c | c != '(' && c != ')' && c != '.' ensures Count(Postfix(r), c) == Count(raw, c) {
      RenderCounts(es, c);
    }
    if Balanced(raw) {
      InsertedKeepsBalance(raw);
    }
  }
}
