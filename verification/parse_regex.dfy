/** The tokenizer of `/body/flags` patterns. It splits the body into parts
    (an atom, a group or a class, then an optional `*`, `+` or `{..}` and
    an optional `?`), turns the parts into tokens (groups recursively),
    expands character classes into sets, and splits on the `|` characters
    that lie outside every `(..)` and `[..]`. All text is taken to be
    ASCII, so a byte index and a character index agree. Every way the
    source panics (an `unwrap` of nothing, an index past the end, the
    bracket stack popped when empty) is a `None` result. */
module ParseRegex {
  import opened Wrappers
  import opened Chars

  datatype TokenType = CaptureGroup | CharacterClass | Pipe | Normal

  /** One token of a pattern: the atom text (with its backslash when
      escaped, `^` for a negated class, empty for a group), the
      quantifier text written after it, the tokens of a group's inside,
      and the characters a class admits. */
  datatype Token = Token(token: string, tokenType: TokenType, quantifier: string,
                         subGroups: seq<Token>, classOptions: set<char>)

  /** `Token::blank`. */
  function Blank(): Token
  {
    Token("", Normal, "", [], {})
  }

  /** `acc` followed by the rest, unless the rest failed. */
  function Then<T>(acc: seq<T>, rest: Option<seq<T>>): Option<seq<T>>
  {
    match rest
    case None => None
    case Some(t) => Some(acc + t)
  }

  // -----------------------------------------------------------------------
  // The bracket stack

  predicate IsOpener(c: char)
  {
    c == '(' || c == '['
  }

  predicate IsCloser(c: char)
  {
    c == ')' || c == ']'
  }

  /** Whether the closer `c` pops the opener `top` off the stack. With
      `fixed` it pops its own opener, as `split_pipes` tests. Without, the
      closer is compared with the top itself, as `check_pipe`, `find_pipes`
      and `find_paren_match` are written; the stack only ever holds
      openers, so that never pops (see `AsWrittenNeverPops`). */
  predicate Pops(c: char, top: char, fixed: bool)
  {
    if fixed then (c == ')' && top == '(') || (c == ']' && top == '[') else c == top
  }

  /** One character of a bracket scan: an opener is pushed, a closer that
      pops the top pops it, and a closer met with an empty stack panics
      (the `len() - 1` underflow). */
  function NestStep(st: string, c: char, fixed: bool): (r: Option<string>)
    ensures r.None? <==> IsCloser(c) && st == []
  {
    if IsOpener(c) then Some(st + [c])
    else if IsCloser(c) then
      if st == [] then None
      else if Pops(c, st[|st| - 1], fixed) then Some(st[..|st| - 1])
      else Some(st)
    else Some(st)
  }

  /** The bracket stack after scanning `r` from the left; `None` once the
      scan has panicked. */
  function Nest(r: string, fixed: bool): Option<string>
    decreases |r|
  {
    if r == [] then Some([])
    else
      match Nest(r[..|r| - 1], fixed)
      case None => None
      case Some(st) => NestStep(st, r[|r| - 1], fixed)
  }

  /** The openers of `r`, in order. */
  function Openers(r: string): string
    decreases |r|
  {
    if r == [] then []
    else Openers(r[..|r| - 1]) + (if IsOpener(r[|r| - 1]) then [r[|r| - 1]] else [])
  }

  /** As written, the stack is exactly the openers read so far, and the
      scan panics exactly when a closer comes before the first opener. */
  lemma {:induction false} AsWrittenNeverPops(r: string)
    ensures Nest(r, false).Some? ==> Nest(r, false).value == Openers(r)
    ensures Nest(r, false).None? <==>
      exists k :: 0 <= k < |r| && IsCloser(r[k]) && Openers(r[..k]) == []
    decreases |r|
  {
    if r != [] {
      var q := r[..|r| - 1];
      var c := r[|r| - 1];
      AsWrittenNeverPops(q);
      assert r[..|q|] == q;
      forall k | 0 <= k < |q| ensures r[..k] == q[..k] && r[k] == q[k] { }
      if Nest(q, false).Some? && IsCloser(c) && Openers(q) != [] {
        OpenersAreOpeners(q, |Openers(q)| - 1);
      }
    }
  }

  /** Every character `Openers` keeps is an opener. */
  lemma {:induction false} OpenersAreOpeners(r: string, i: nat)
    requires i < |Openers(r)|
    ensures IsOpener(Openers(r)[i])
    decreases |r|
  {
    var q := r[..|r| - 1];
    if i < |Openers(q)| {
      OpenersAreOpeners(q, i);
    }
  }

  /** Once a scan has panicked it stays panicked. */
  lemma {:induction false} NestStaysFailed(r: string, i: nat, fixed: bool)
    requires i <= |r| && Nest(r[..i], fixed).None?
    ensures Nest(r, fixed).None?
    decreases |r|
  {
    if i < |r| {
      var q := r[..|r| - 1];
      assert q[..i] == r[..i];
      NestStaysFailed(q, i, fixed);
    } else {
      assert r[..i] == r;
    }
  }

  // -----------------------------------------------------------------------
  // The `|` characters outside every bracket

  /** The positions of the `|` characters of `r` read while the bracket
      stack is empty (and the scan has not panicked), ascending. */
  function ZeroPipes(r: string, fixed: bool): seq<nat>
    decreases |r|
  {
    if r == [] then []
    else
      var q := r[..|r| - 1];
      ZeroPipes(q, fixed) + (if r[|r| - 1] == '|' && Nest(q, fixed) == Some([]) then [|q|] else [])
  }

  /** `ZeroPipes` lists, ascending, exactly the positions of a `|` with an
      empty stack before it. */
  lemma {:induction false} ZeroPipesAre(r: string, fixed: bool)
    ensures forall k: nat :: k in ZeroPipes(r, fixed) <==>
      k < |r| && r[k] == '|' && Nest(r[..k], fixed) == Some([])
    ensures forall i, j :: 0 <= i < j < |ZeroPipes(r, fixed)| ==>
      ZeroPipes(r, fixed)[i] < ZeroPipes(r, fixed)[j]
    decreases |r|
  {
    if r != [] {
      var q := r[..|r| - 1];
      ZeroPipesAre(q, fixed);
      var z := ZeroPipes(q, fixed);
      assert r[..|q|] == q;
      assert ZeroPipes(r, fixed) == z + (if r[|q|] == '|' && Nest(q, fixed) == Some([]) then [|q|] else []);
      forall k: nat | k < |q| ensures r[..k] == q[..k] && r[k] == q[k] { }
      assert forall i :: 0 <= i < |z| ==> z[i] < |q| by {
        forall i | 0 <= i < |z| ensures z[i] < |q| { assert z[i] in z; }
      }
    }
  }

  /** Scanning further only adds pipes at the end; once the scan has
      panicked it adds none. */
  lemma {:induction false} ZeroPipesGrow(r: string, i: nat, fixed: bool)
    requires i <= |r|
    ensures |ZeroPipes(r[..i], fixed)| <= |ZeroPipes(r, fixed)|
    ensures ZeroPipes(r, fixed)[..|ZeroPipes(r[..i], fixed)|] == ZeroPipes(r[..i], fixed)
    ensures Nest(r[..i], fixed).None? ==> ZeroPipes(r, fixed) == ZeroPipes(r[..i], fixed)
    decreases |r|
  {
    if i < |r| {
      var q := r[..|r| - 1];
      assert q[..i] == r[..i];
      ZeroPipesGrow(q, i, fixed);
      if Nest(r[..i], fixed).None? {
        NestStaysFailed(q, i, fixed);
      }
    } else {
      assert r[..i] == r;
    }
  }

  /** As written, a `|` after a group is never outside the brackets:
      `find_pipes("(a)|b")` finds nothing, and `check_pipe` says no, where
      the popping scan finds the `|` at 3. */
  lemma PipeAfterGroupMissed()
    ensures Nest("(a)|b", false) == Some("(") && ZeroPipes("(a)|b", false) == []
    ensures ZeroPipes("(a)|b", true) == [3]
  {
    assert "(a)|b"[..4] == "(a)|";
    assert "(a)|"[..3] == "(a)";
    assert "(a)"[..2] == "(a";
    assert "(a"[..1] == "(";
    assert "("[..0] == "";
    assert Nest("", false) == Some("") && Nest("", true) == Some("");
    assert "" + ['('] == "(";
    assert Nest("(", false) == Some("(") && Nest("(", true) == Some("(");
    assert Nest("(a", false) == Some("(") && Nest("(a", true) == Some("(");
    assert Nest("(a)", false) == Some("(") && Nest("(a)", true) == Some("");
    assert Nest("(a)|", false) == Some("(") && Nest("(a)|", true) == Some("");
    assert ZeroPipes("(a)|", false) == [] && ZeroPipes("(a)|", true) == [3];
  }

  /** `check_pipe`, with each closer popping its own opener: `true` at the
      first `|` met with an empty stack. A closer met with an empty stack
      before that panics. */
  method CheckPipe(regex: string) returns (r: Option<bool>)
    ensures r == if |ZeroPipes(regex, true)| > 0 then Some(true)
                 else if Nest(regex, true).None? then None
                 else Some(false)
  {
    var curDepth := 0;
    var parentheses := "";
    for i := 0 to |regex|
      invariant Nest(regex[..i], true) == Some(parentheses) && curDepth == |parentheses|
      invariant ZeroPipes(regex[..i], true) == []
    {
      var c := regex[i];
      assert regex[..i + 1] == regex[..i] + [c];
      Snoc(regex[..i], c, true);
      if c == '(' || c == '[' {
        curDepth := curDepth + 1;
        parentheses := parentheses + [c];
      } else if c == ')' || c == ']' {
        if parentheses == [] {
          ZeroPipesGrow(regex, i + 1, true);
          NestStaysFailed(regex, i + 1, true);
          return None;
        }
        var top := parentheses[|parentheses| - 1];
        if (c == ')' && top == '(') || (c == ']' && top == '[') {
          curDepth := curDepth - 1;
          parentheses := parentheses[..|parentheses| - 1];
        }
      } else if c == '|' && curDepth <= 0 {
        ZeroPipesGrow(regex, i + 1, true);
        return Some(true);
      }
    }
    assert regex[..|regex|] == regex;
    r := Some(false);
  }

  /** `find_pipes`, with each closer popping its own opener: the positions
      of the `|` characters outside every bracket, ascending (see
      `ZeroPipesAre`); a closer met with an empty stack panics. */
  method FindPipes(regex: string) returns (r: Option<seq<nat>>)
    ensures r == if Nest(regex, true).None? then None else Some(ZeroPipes(regex, true))
  {
    var curDepth := 0;
    var parentheses := "";
    var pipes: seq<nat> := [];
    for i := 0 to |regex|
      invariant Nest(regex[..i], true) == Some(parentheses) && curDepth == |parentheses|
      invariant ZeroPipes(regex[..i], true) == pipes
    {
      var c := regex[i];
      assert regex[..i + 1] == regex[..i] + [c];
      Snoc(regex[..i], c, true);
      if c == '(' || c == '[' {
        curDepth := curDepth + 1;
        parentheses := parentheses + [c];
      } else if c == ')' || c == ']' {
        if parentheses == [] {
          NestStaysFailed(regex, i + 1, true);
          return None;
        }
        var top := parentheses[|parentheses| - 1];
        if (c == ')' && top == '(') || (c == ']' && top == '[') {
          curDepth := curDepth - 1;
          parentheses := parentheses[..|parentheses| - 1];
        }
      } else if c == '|' && curDepth <= 0 {
        pipes := pipes + [i];
      }
    }
    assert regex[..|regex|] == regex;
    r := Some(pipes);
  }

  // -----------------------------------------------------------------------
  // split_pipes and split_pipes_vec

  /** The pieces `os` written one after the other with `sep` between
      neighbours. */
  function JoinWith<T>(os: seq<seq<T>>, sep: T): seq<T>
    requires |os| >= 1
    decreases |os|
  {
    if |os| == 1 then os[0] else JoinWith(os[..|os| - 1], sep) + [sep] + os[|os| - 1]
  }

  /** The positions the separators take in `JoinWith(os, sep)`, ascending. */
  function Cuts<T>(os: seq<seq<T>>, sep: T): (cs: seq<nat>)
    requires |os| >= 1
    ensures |cs| == |os| - 1
    decreases |os|
  {
    if |os| == 1 then [] else Cuts(os[..|os| - 1], sep) + [|JoinWith(os[..|os| - 1], sep)|]
  }

  /** One more piece. */
  lemma JoinWithSnoc<T>(os: seq<seq<T>>, o: seq<T>, sep: T)
    requires |os| >= 1
    ensures JoinWith(os + [o], sep) == JoinWith(os, sep) + [sep] + o
    ensures Cuts(os + [o], sep) == Cuts(os, sep) + [|JoinWith(os, sep)|]
  {
    assert (os + [o])[..|os|] == os;
  }

  /** Growing the last piece by one element. */
  lemma JoinWithGrow<T>(os: seq<seq<T>>, o: seq<T>, x: T, sep: T)
    ensures JoinWith(os + [o + [x]], sep) == JoinWith(os + [o], sep) + [x]
    ensures Cuts(os + [o + [x]], sep) == Cuts(os + [o], sep)
  {
    if |os| > 0 {
      assert (os + [o + [x]])[..|os|] == os == (os + [o])[..|os|];
    }
  }

  /** Closing the last piece and opening an empty one. */
  lemma JoinWithCut<T>(os: seq<seq<T>>, o: seq<T>, sep: T)
    ensures JoinWith(os + [o] + [[]], sep) == JoinWith(os + [o], sep) + [sep]
    ensures Cuts(os + [o] + [[]], sep) == Cuts(os + [o], sep) + [|JoinWith(os + [o], sep)|]
  {
    assert (os + [o] + [[]])[..|os| + 1] == os + [o];
  }

  /** The pieces are determined by what they join to and by where the
      separators fall. */
  lemma {:induction false} CutsDetermine<T>(os: seq<seq<T>>, ps: seq<seq<T>>, sep: T)
    requires |os| >= 1 && |ps| >= 1
    requires JoinWith(os, sep) == JoinWith(ps, sep) && Cuts(os, sep) == Cuts(ps, sep)
    ensures os == ps
    decreases |os|
  {
    if |os| > 1 {
      var os', ps' := os[..|os| - 1], ps[..|ps| - 1];
      var j := JoinWith(os, sep);
      var n := |JoinWith(os', sep)|;
      assert n == Cuts(os, sep)[|os| - 2] == |JoinWith(ps', sep)|;
      assert JoinWith(os', sep) == j[..n] == JoinWith(ps', sep);
      assert os[|os| - 1] == j[n + 1..] == ps[|ps| - 1];
      assert Cuts(os', sep) == Cuts(os, sep)[..|os| - 2] == Cuts(ps', sep);
      CutsDetermine(os', ps', sep);
      assert os == os' + [os[|os| - 1]] && ps == ps' + [ps[|ps| - 1]];
    }
  }

  /** `split_pipes`: cuts the pattern at every `|` outside the brackets
      (closers pop their own opener here, as intended). Joining the pieces
      with `|` gives the pattern back, and the separators sit exactly at
      the positions `ZeroPipes` lists, which `FindPipes` returns. A closer
      met with an empty stack panics. */
  method SplitPipes(regex: string) returns (r: Option<seq<string>>)
    ensures r.Some? <==> Nest(regex, true).Some?
    ensures r.Some? ==> |r.value| >= 1 && JoinWith(r.value, '|') == regex
    ensures r.Some? ==> Cuts(r.value, '|') == ZeroPipes(regex, true)
  {
    var curString := "";
    var parentheses := "";
    var options: seq<string> := [];
    for i := 0 to |regex|
      invariant Nest(regex[..i], true) == Some(parentheses)
      invariant JoinWith(options + [curString], '|') == regex[..i]
      invariant Cuts(options + [curString], '|') == ZeroPipes(regex[..i], true)
    {
      var c := regex[i];
      assert regex[..i + 1] == regex[..i] + [c];
      Snoc(regex[..i], c, true);
      if c == '|' && parentheses == [] {
        JoinWithCut(options, curString, '|');
        options := options + [curString];
        curString := "";
      } else {
        if c == '(' || c == '[' {
          parentheses := parentheses + [c];
        } else if c == ')' || c == ']' {
          if parentheses == [] {
            NestStaysFailed(regex, i + 1, true);
            return None;
          }
          var top := parentheses[|parentheses| - 1];
          if (c == ')' && top == '(') || (c == ']' && top == '[') {
            parentheses := parentheses[..|parentheses| - 1];
          }
        }
        JoinWithGrow(options, curString, c, '|');
        curString := curString + [c];
      }
    }
    assert regex[..|regex|] == regex;
    r := Some(options + [curString]);
  }

  /** One more character read by a bracket scan. */
  lemma Snoc(q: string, c: char, fixed: bool)
    ensures Nest(q + [c], fixed) ==
      match Nest(q, fixed) case None => None case Some(st) => NestStep(st, c, fixed)
    ensures ZeroPipes(q + [c], fixed) ==
      ZeroPipes(q, fixed) + (if c == '|' && Nest(q, fixed) == Some([]) then [|q|] else [])
  {
    assert (q + [c])[..|q|] == q;
  }

  /** The bracket scan of "a(b|". */
  lemma ExamplePipesOpen()
    ensures Nest("a(b|", true) == Some("(") && ZeroPipes("a(b|", true) == []
  {
    assert "a" == "" + ['a'];
    assert "a(" == "a" + ['('];
    assert "a(b" == "a(" + ['b'];
    assert "a(b|" == "a(b" + ['|'];
    assert "" + ['('] == "(";
    Snoc("", 'a', true);
    assert Nest("a", true) == Some("") && ZeroPipes("a", true) == [];
    Snoc("a", '(', true);
    assert Nest("a(", true) == Some("(") && ZeroPipes("a(", true) == [];
    Snoc("a(", 'b', true);
    assert Nest("a(b", true) == Some("(") && ZeroPipes("a(b", true) == [];
    Snoc("a(b", '|', true);
  }

  /** The bracket scan of "a(b|c)d". */
  lemma ExamplePipesGroup()
    ensures Nest("a(b|c)d", true) == Some("") && ZeroPipes("a(b|c)d", true) == []
  {
    assert "a(b|c" == "a(b|" + ['c'];
    assert "a(b|c)" == "a(b|c" + [')'];
    assert "a(b|c)d" == "a(b|c)" + ['d'];
    ExamplePipesOpen();
    Snoc("a(b|", 'c', true);
    assert Nest("a(b|c", true) == Some("(") && ZeroPipes("a(b|c", true) == [];
    Snoc("a(b|c", ')', true);
    assert Nest("a(b|c)", true) == Some("") && ZeroPipes("a(b|c)", true) == [];
    Snoc("a(b|c)", 'd', true);
  }

  /** The `|` characters of "a(b|c)d||e" outside the brackets. */
  lemma ExamplePipes()
    ensures Nest("a(b|c)d||e", true) == Some("") && ZeroPipes("a(b|c)d||e", true) == [7, 8]
  {
    assert "a(b|c)d|" == "a(b|c)d" + ['|'];
    assert "a(b|c)d||" == "a(b|c)d|" + ['|'];
    assert "a(b|c)d||e" == "a(b|c)d||" + ['e'];
    ExamplePipesGroup();
    Snoc("a(b|c)d", '|', true);
    assert Nest("a(b|c)d|", true) == Some("") && ZeroPipes("a(b|c)d|", true) == [7];
    Snoc("a(b|c)d|", '|', true);
    assert Nest("a(b|c)d||", true) == Some("") && ZeroPipes("a(b|c)d||", true) == [7, 8];
    Snoc("a(b|c)d||", 'e', true);
  }

  /** The three expected pieces of "a(b|c)d||e" join back to it, with the
      separators at 7 and 8. */
  lemma ExampleJoin()
    ensures JoinWith(["a(b|c)d", "", "e"], '|') == "a(b|c)d||e"
    ensures Cuts(["a(b|c)d", "", "e"], '|') == [7, 8]
  {
    assert ["a(b|c)d", "", "e"] == ["a(b|c)d", ""] + ["e"];
    assert ["a(b|c)d", ""] == ["a(b|c)d"] + [""];
    assert "a(b|c)d" + ['|'] + "" == "a(b|c)d|";
    assert "a(b|c)d|" + ['|'] + "e" == "a(b|c)d||e";
    JoinWithSnoc(["a(b|c)d"], "", '|');
    JoinWithSnoc(["a(b|c)d", ""], "e", '|');
  }

  /** The source's example with two neighbouring separators: whatever
      `SplitPipes` returns for "a(b|c)d||e" is the three pieces
      "a(b|c)d", "" and "e"; the `|` inside the group is not a cut. */
  lemma SplitPipesEmptyPiece(os: seq<string>)
    requires |os| >= 1 && JoinWith(os, '|') == "a(b|c)d||e"
    requires Cuts(os, '|') == ZeroPipes("a(b|c)d||e", true)
    ensures os == ["a(b|c)d", "", "e"]
  {
    var ps := ["a(b|c)d", "", "e"];
    ExampleJoin();
    ExamplePipes();
    CutsDetermine(os, ps, '|');
  }

  /** How many elements of `s` are `x`. */
  function Count<T(==)>(s: seq<T>, x: T): nat
    decreases |s|
  {
    if s == [] then 0 else Count(s[..|s| - 1], x) + (if s[|s| - 1] == x then 1 else 0)
  }

  /** `split_pipes_vec`: cuts a list of parts at every part that is `"|"`.
      Joining the pieces with `"|"` gives the list back, no piece holds a
      `"|"`, and there is one piece more than there are `"|"` parts. */
  method SplitPipesVec(parts: seq<string>) returns (options: seq<seq<string>>)
    ensures |options| >= 1 && JoinWith(options, "|") == parts
    ensures forall o :: o in options ==> "|" !in o
    ensures |options| == Count(parts, "|") + 1
  {
    options := [];
    var curVec: seq<string> := [];
    for i := 0 to |parts|
      invariant JoinWith(options + [curVec], "|") == parts[..i]
      invariant forall o :: o in options + [curVec] ==> "|" !in o
      invariant |options| == Count(parts[..i], "|")
    {
      var part := parts[i];
      assert parts[..i + 1][..i] == parts[..i];
      assert parts[..i + 1] == parts[..i] + [part];
      if part == "|" {
        JoinWithCut(options, curVec, "|");
        options := options + [curVec];
        curVec := [];
      } else {
        JoinWithGrow(options, curVec, part, "|");
        curVec := curVec + [part];
      }
    }
    assert parts[..|parts|] == parts;
    options := options + [curVec];
  }

  // -----------------------------------------------------------------------
  // find_paren_match

  /** The closer `find_paren_match` looks for, given the bracket it starts
      at; `None` for any other character (a panic). */
  function CloserOf(c: char): (e: Option<char>)
    ensures IsOpener(c) ==> e.Some? && IsCloser(e.value)
  {
    if c == '(' then Some(')') else if c == '[' then Some(']') else if c == '{' then Some('}') else None
  }

  /** Where the scan of `find_paren_match` stops when it reads `r[k..]`
      with the bracket stack `st`, looking for `e`: at the first `e` read
      with exactly one bracket open. It panics (`None`) at a closer met
      with an empty stack and at the end of the text. */
  function ScanClose(r: string, e: char, k: nat, st: string, fixed: bool): (m: Option<nat>)
    ensures m.Some? ==> k <= m.value < |r| && r[m.value] == e
    decreases |r| - k
  {
    if k >= |r| then None
    else if !IsOpener(r[k]) && r[k] == e && |st| == 1 then Some(k)
    else
      match NestStep(st, r[k], fixed)
      case None => None
      case Some(st') => ScanClose(r, e, k + 1, st', fixed)
  }

  /** `find_paren_match(r, s)`, with closers popping their own opener
      (`fixed`) or as written. It panics (`None`) when `s` is past the
      end, when `r[s]` is not a bracket, and when the scan finds no
      match. */
  function FindClose(r: string, s: nat, fixed: bool): (m: Option<nat>)
    ensures m.Some? ==> s < |r| && CloserOf(r[s]).Some?
    ensures m.Some? ==> s < m.value < |r| && r[m.value] == CloserOf(r[s]).value
  {
    if s >= |r| then None
    else
      match CloserOf(r[s])
      case None => None
      case Some(e) =>
        assert ScanClose(r, e, s, [], fixed) ==
          match NestStep([], r[s], fixed)
          case None => None
          case Some(st) => ScanClose(r, e, s + 1, st, fixed);
        ScanClose(r, e, s, [], fixed)
  }

  /** `find_paren_match`, with each closer popping its own opener: see
      `MatchIsBalanced` for what it returns. */
  method FindParenMatch(regex: string, startingIndex: nat) returns (r: Option<nat>)
    ensures r == FindClose(regex, startingIndex, true)
  {
    if startingIndex >= |regex| {
      return None;
    }
    var endParentheses: char;
    match regex[startingIndex] {
      case '(' => endParentheses := ')';
      case '[' => endParentheses := ']';
      case '{' => endParentheses := '}';
      case _ => return None;
    }
    var curDepth := 0;
    var parentheses := "";
    for idx := startingIndex to |regex|
      invariant FindClose(regex, startingIndex, true) == ScanClose(regex, endParentheses, idx, parentheses, true)
      invariant curDepth == |parentheses|
    {
      var c := regex[idx];
      if c == '(' || c == '[' {
        curDepth := curDepth + 1;
        parentheses := parentheses + [c];
      } else if c == endParentheses && curDepth == 1 {
        return Some(idx);
      } else if c == ')' || c == ']' {
        if parentheses == [] {
          return None;
        }
        var top := parentheses[|parentheses| - 1];
        if (c == ')' && top == '(') || (c == ']' && top == '[') {
          curDepth := curDepth - 1;
          parentheses := parentheses[..|parentheses| - 1];
        }
      }
    }
    r := None;
  }

  /** Whether the brackets opened at `s` are all closed again by `r[m]`. */
  predicate ClosesAt(r: string, s: nat, m: nat)
  {
    s < m < |r| && Nest(r[s..m + 1], true) == Some([])
  }

  /** Along the popping scan from the opener at `s`, the stack is the
      nesting of `r[s..k]` with that opener at its bottom, and the scan
      stops at the first position that balances it. */
  lemma {:induction false} ScanBalanced(r: string, s: nat, e: char, k: nat, st: string)
    requires s < k <= |r| && IsOpener(r[s]) && CloserOf(r[s]) == Some(e)
    requires Nest(r[s..k], true) == Some(st) && |st| >= 1 && st[0] == r[s]
    ensures ScanClose(r, e, k, st, true).Some? ==>
      var m := ScanClose(r, e, k, st, true).value;
      ClosesAt(r, s, m) && forall j :: k <= j < m ==> !ClosesAt(r, s, j)
    ensures ScanClose(r, e, k, st, true).None? ==> forall j :: k <= j ==> !ClosesAt(r, s, j)
    decreases |r| - k
  {
    if k < |r| {
      var c := r[k];
      assert r[s..k + 1] == r[s..k] + [c];
      Snoc(r[s..k], c, true);
      if !(!IsOpener(c) && c == e && |st| == 1) {
        var st' := NestStep(st, c, true).value;
        assert |st'| >= 1 && st'[0] == r[s];
        ScanBalanced(r, s, e, k + 1, st');
      }
    }
  }

  /** With each closer popping its own opener, `find_paren_match` from an
      opener returns exactly the first position where the brackets opened
      there are balanced again, and panics when there is none. */
  lemma MatchIsBalanced(r: string, s: nat, m: nat)
    requires s < |r| && IsOpener(r[s])
    ensures FindClose(r, s, true) == Some(m) <==>
      ClosesAt(r, s, m) && forall j :: s < j < m ==> !ClosesAt(r, s, j)
    ensures FindClose(r, s, true).None? <==> forall j :: !ClosesAt(r, s, j)
  {
    FindCloseStarts(r, s);
    var f := FindClose(r, s, true);
    if f.Some? && f.value != m && ClosesAt(r, s, m) {
      assert m < f.value ==> !ClosesAt(r, s, m);
      assert f.value < m ==> ClosesAt(r, s, f.value);
    }
  }

  /** The popping scan from an opener: past the opener itself, it meets
      the first balancing position, if there is one. */
  lemma FindCloseStarts(r: string, s: nat)
    requires s < |r| && IsOpener(r[s])
    ensures FindClose(r, s, true).Some? ==>
      var m := FindClose(r, s, true).value;
      ClosesAt(r, s, m) && forall j :: s < j < m ==> !ClosesAt(r, s, j)
    ensures FindClose(r, s, true).None? ==> forall j :: !ClosesAt(r, s, j)
  {
    FindCloseOpens(r, s, true);
    assert r[s..s + 1] == [r[s]];
    NestOne(r[s], true);
    ScanBalanced(r, s, CloserOf(r[s]).value, s + 1, [r[s]]);
  }

  /** The stack after a lone opener. */
  lemma NestOne(c: char, fixed: bool)
    requires IsOpener(c)
    ensures Nest([c], fixed) == Some([c])
  {
    assert [c][..0] == [];
    assert [] + [c] == [c];
  }

  /** The scan from an opener first pushes that opener. */
  lemma FindCloseOpens(r: string, s: nat, fixed: bool)
    requires s < |r| && IsOpener(r[s])
    ensures FindClose(r, s, fixed) == ScanClose(r, CloserOf(r[s]).value, s + 1, [r[s]], fixed)
  {
    var e := CloserOf(r[s]).value;
    assert FindClose(r, s, fixed) == ScanClose(r, e, s, [], fixed);
    assert NestStep([], r[s], fixed) == Some([] + [r[s]]);
    assert [] + [r[s]] == [r[s]];
  }

  /** As written, once two brackets are open the scan never stops: the
      stack never shrinks, so it runs to the end of the text or panics. */
  lemma {:induction false} AsWrittenDeep(r: string, e: char, k: nat, st: string)
    requires |st| >= 2 && forall i :: 0 <= i < |st| ==> IsOpener(st[i])
    ensures ScanClose(r, e, k, st, false).None?
    decreases |r| - k
  {
    if k < |r| {
      var st' := if IsOpener(r[k]) then st + [r[k]] else st;
      assert NestStep(st, r[k], false) == Some(st');
      AsWrittenDeep(r, e, k + 1, st');
    }
  }

  /** As written, with one bracket open the scan stops at the first `e`,
      unless another opener comes first. */
  lemma {:induction false} AsWrittenShallow(r: string, e: char, k: nat, st: string, m: nat)
    requires |st| == 1 && IsOpener(st[0]) && IsCloser(e)
    ensures ScanClose(r, e, k, st, false) == Some(m) <==>
      k <= m < |r| && r[m] == e && forall j :: k <= j < m ==> !IsOpener(r[j]) && r[j] != e
    decreases |r| - k
  {
    if k < |r| && r[k] != e {
      if IsOpener(r[k]) {
        AsWrittenDeep(r, e, k + 1, st + [r[k]]);
      } else {
        assert NestStep(st, r[k], false) == Some(st);
        AsWrittenShallow(r, e, k + 1, st, m);
      }
    }
  }

  /** As written, `find_paren_match` from an opener returns the first
      closer of that opener's kind, provided no other opener comes first:
      a group or class nested inside makes it panic. */
  lemma AsWrittenMatch(r: string, s: nat, m: nat)
    requires s < |r| && IsOpener(r[s])
    ensures FindClose(r, s, false) == Some(m) <==>
      s < m < |r| && r[m] == CloserOf(r[s]).value
      && forall j :: s < j < m ==> !IsOpener(r[j]) && r[j] != r[m]
  {
    FindCloseOpens(r, s, false);
    AsWrittenShallow(r, CloserOf(r[s]).value, s + 1, [r[s]], m);
  }

  /** A nested group: as written the scan of "(a(b)c)" panics, where the
      popping scan finds the closer at 6. */
  lemma NestedGroupPanics()
    ensures FindClose("(a(b)c)", 0, false).None?
    ensures FindClose("(a(b)c)", 0, true) == Some(6)
  {
    var r := "(a(b)c)";
    assert [] + ['('] == "(" && "(" + ['('] == "((" && "(("[..1] == "(";
    assert NestStep("(", '(', false) == Some("((");
    AsWrittenDeep(r, ')', 3, "((");
  }

  // -----------------------------------------------------------------------
  // split_to_parts

  /** `r[from..].find(c)`, as a position in `r`: the first `c` at or after
      `from`, `None` when there is none. */
  function FindFrom(r: string, from: nat, c: char): (k: Option<nat>)
    requires from <= |r|
    ensures k.Some? ==> from <= k.value < |r| && r[k.value] == c
    ensures k.Some? ==> forall j :: from <= j < k.value ==> r[j] != c
    ensures k.None? ==> forall j :: from <= j < |r| ==> r[j] != c
    decreases |r| - from
  {
    if from == |r| then None else if r[from] == c then Some(from) else FindFrom(r, from + 1, c)
  }

  /** Where the atom starting at `i` ends (exclusively): past the bracket
      closing a group or class, past an escaped character, or past the one
      character. `None` where the source panics: a bracket never closed, a
      backslash at the very end. */
  function AtomEnd(r: string, i: nat): (a: Option<nat>)
    requires i < |r|
    ensures a.Some? ==> i < a.value <= |r|
  {
    if IsOpener(r[i]) then
      match FindClose(r, i, true)
      case None => None
      case Some(m) => Some(m + 1)
    else if r[i] == '\\' then
      if i + 1 < |r| then Some(i + 2) else None
    else Some(i + 1)
  }

  /** Where the repetition after an atom ending at `a < |r|` ends: past a
      `*` or a `+`, or past the next `}` when a `{` comes, else at `a`.
      `None` where the source panics: a `{` with no `}` after it. */
  function RepeatEnd(r: string, a: nat): (b: Option<nat>)
    requires a < |r|
    ensures b.Some? ==> a <= b.value <= |r|
  {
    if r[a] == '*' || r[a] == '+' then Some(a + 1)
    else if r[a] == '{' then
      match FindFrom(r, a, '}')
      case None => None
      case Some(k) => Some(k + 1)
    else Some(a)
  }

  /** Where the quantifier after an atom ending at `a` ends: its
      repetition, then a `?`. */
  function QuantifierEnd(r: string, a: nat): (q: Option<nat>)
    requires a <= |r|
    ensures q.Some? ==> a <= q.value <= |r|
  {
    if a == |r| then Some(a)
    else
      match RepeatEnd(r, a)
      case None => None
      case Some(b) => Some(if b < |r| && r[b] == '?' then b + 1 else b)
  }

  /** Where the part starting at `i` ends: its atom, then its quantifier. */
  function PartEnd(r: string, i: nat): (e: Option<nat>)
    requires i < |r|
    ensures e.Some? ==> i < e.value <= |r|
  {
    match AtomEnd(r, i)
    case None => None
    case Some(a) => QuantifierEnd(r, a)
  }

  /** The parts of `r[i..]`, in order; `None` when the source panics. */
  function PartsFrom(r: string, i: nat): Option<seq<string>>
    requires i <= |r|
    decreases |r| - i
  {
    if i == |r| then Some([])
    else
      match PartEnd(r, i)
      case None => None
      case Some(e) => Then([r[i..e]], PartsFrom(r, e))
  }

  /** The parts written one after the other. */
  function Flatten(ps: seq<string>): string
  {
    if ps == [] then [] else ps[0] + Flatten(ps[1..])
  }

  /** The first half of a round of `split_to_parts`: the atom at
      `curIndex`, pushed onto an empty token, and the index after it. */
  method ReadAtom(regex: string, curIndex: nat) returns (curToken: string, next: Option<nat>)
    requires curIndex < |regex|
    ensures next == AtomEnd(regex, curIndex)
    ensures next.Some? ==> curToken == regex[curIndex..next.value]
  {
    curToken := "";
    if regex[curIndex] == '(' || regex[curIndex] == '[' {
      var endIndex := FindParenMatch(regex, curIndex);
      if endIndex.None? {
        return curToken, None;
      }
      curToken := curToken + regex[curIndex..endIndex.value + 1];
      next := Some(endIndex.value + 1);
    } else {
      var i := curIndex;
      if regex[i] == '\\' {
        curToken := curToken + [regex[i]];
        i := i + 1;
      }
      if i >= |regex| {
        return curToken, None;
      }
      Push(regex, curIndex, i, curToken);
      curToken := curToken + [regex[i]];
      next := Some(i + 1);
    }
  }

  /** The second half of a round of `split_to_parts`: the quantifier
      after an atom ending at `curIndex`, pushed onto an empty token, and
      the index after it. */
  method ReadQuantifier(regex: string, curIndex: nat) returns (curToken: string, next: Option<nat>)
    requires curIndex <= |regex|
    ensures next == QuantifierEnd(regex, curIndex)
    ensures next.Some? ==> curToken == regex[curIndex..next.value]
  {
    curToken := "";
    var i := curIndex;
    if i < |regex| {
      if regex[i] == '*' || regex[i] == '+' {
        curToken := curToken + [regex[i]];
        i := i + 1;
      } else if regex[i] == '{' {
        var endIndex := FindFrom(regex, i, '}');
        if endIndex.None? {
          return curToken, None;
        }
        curToken := curToken + regex[i..endIndex.value + 1];
        i := endIndex.value + 1;
      }
      assert RepeatEnd(regex, curIndex) == Some(i);
      QuantifierEndIs(regex, curIndex, i);
      if i < |regex| && regex[i] == '?' {
        Push(regex, curIndex, i, curToken);
        curToken := curToken + [regex[i]];
        i := i + 1;
      }
    }
    next := Some(i);
  }

  /** `split_to_parts`, with `find_paren_match` popping each closer's own
      opener: see `PartsJoin` for what the parts are. */
  method SplitToParts(regex: string) returns (r: Option<seq<string>>)
    ensures r == PartsFrom(regex, 0)
  {
    var parts: seq<string> := [];
    var curIndex := 0;
    ThenNothing(PartsFrom(regex, 0));
    while curIndex < |regex|
      invariant curIndex <= |regex|
      invariant PartsFrom(regex, 0) == Then(parts, PartsFrom(regex, curIndex))
      decreases |regex| - curIndex
    {
      var atom, atomEnd := ReadAtom(regex, curIndex);
      if atomEnd.None? {
        return None;
      }
      var quantifier, partEnd := ReadQuantifier(regex, atomEnd.value);
      if partEnd.None? {
        return None;
      }
      var curToken := atom + quantifier;
      assert curToken == regex[curIndex..partEnd.value];
      PartsFromStep(regex, curIndex, partEnd.value);
      ThenThen(parts, curToken, PartsFrom(regex, partEnd.value));
      parts := parts + [curToken];
      curIndex := partEnd.value;
    }
    assert parts + [] == parts;
    r := Some(parts);
  }

  /** The quantifier's end from its repetition's end. */
  lemma QuantifierEndIs(r: string, a: nat, b: nat)
    requires a < |r| && RepeatEnd(r, a) == Some(b)
    ensures QuantifierEnd(r, a) == Some(if b < |r| && r[b] == '?' then b + 1 else b)
  {
  }

  /** The parts from `i` are the part ending at `e`, then the parts from `e`. */
  lemma PartsFromStep(r: string, i: nat, e: nat)
    requires i < |r| && PartEnd(r, i) == Some(e)
    ensures PartsFrom(r, i) == Then([r[i..e]], PartsFrom(r, e))
  {
  }

  /** Pushing the next character keeps the token equal to the text read. */
  lemma Push(r: string, start: nat, k: nat, token: string)
    requires start <= k < |r| && token == r[start..k]
    ensures token + [r[k]] == r[start..k + 1]
  {
  }

  lemma ThenNothing<T>(rest: Option<seq<T>>)
    ensures Then([], rest) == rest
  {
    if rest.Some? {
      assert [] + rest.value == rest.value;
    }
  }

  lemma ThenThen<T>(acc: seq<T>, x: T, rest: Option<seq<T>>)
    ensures Then(acc, Then([x], rest)) == Then(acc + [x], rest)
  {
    if rest.Some? {
      assert acc + ([x] + rest.value) == acc + [x] + rest.value;
    }
  }

  /** Splitting into parts loses nothing and adds nothing: every part is
      non-empty, and the parts written one after the other give back the
      text. */
  lemma {:induction false} PartsJoin(r: string, i: nat)
    requires i <= |r| && PartsFrom(r, i).Some?
    ensures Flatten(PartsFrom(r, i).value) == r[i..]
    ensures forall p :: p in PartsFrom(r, i).value ==> |p| > 0
    decreases |r| - i
  {
    if i < |r| {
      var e := PartEnd(r, i).value;
      PartsJoin(r, e);
      var ps := PartsFrom(r, i).value;
      assert ps == [r[i..e]] + PartsFrom(r, e).value;
      assert ps[1..] == PartsFrom(r, e).value;
      assert r[i..] == r[i..e] + r[e..];
    }
  }

  // Examples of split_to_parts

  /** The parts from `i`, given the end of the first and the parts after it. */
  lemma PartsCons(r: string, i: nat, e: nat, rest: seq<string>)
    requires i < |r| && PartEnd(r, i) == Some(e) && PartsFrom(r, e) == Some(rest)
    ensures PartsFrom(r, i) == Some([r[i..e]] + rest)
  {
  }

  /** Quantifiers stay with their atom. */
  lemma SplitStars()
    ensures PartsFrom("a*b+", 0) == Some(["a*", "b+"])
  {
    var r := "a*b+";
    assert r[0..2] == "a*" && r[2..4] == "b+";
    assert PartEnd(r, 2) == Some(4);
    PartsCons(r, 2, 4, []);
    assert [r[2..4]] + [] == ["b+"];
    assert PartEnd(r, 0) == Some(2);
    PartsCons(r, 0, 2, ["b+"]);
    assert [r[0..2]] + ["b+"] == ["a*", "b+"];
  }

  /** A `?` after the atom is its quantifier. */
  lemma SplitQuestion()
    ensures PartsFrom("a?b", 0) == Some(["a?", "b"])
  {
    var r := "a?b";
    assert r[0..2] == "a?" && r[2..3] == "b";
    assert PartEnd(r, 2) == Some(3);
    PartsCons(r, 2, 3, []);
    assert [r[2..3]] + [] == ["b"];
    assert PartEnd(r, 0) == Some(2);
    PartsCons(r, 0, 2, ["b"]);
    assert [r[0..2]] + ["b"] == ["a?", "b"];
  }

  /** A counted repetition runs to the `}`. */
  lemma SplitCounted()
    ensures PartsFrom("a{1,2}b", 0) == Some(["a{1,2}", "b"])
  {
    var r := "a{1,2}b";
    assert r[0..6] == "a{1,2}" && r[6..7] == "b";
    assert PartEnd(r, 6) == Some(7);
    PartsCons(r, 6, 7, []);
    assert [r[6..7]] + [] == ["b"];
    assert FindFrom(r, 1, '}') == Some(5);
    assert PartEnd(r, 0) == Some(6);
    PartsCons(r, 0, 6, ["b"]);
    assert [r[0..6]] + ["b"] == ["a{1,2}", "b"];
  }

  /** An escaped letter is one atom. */
  lemma SplitEscapedLetter()
    ensures PartsFrom("a\\w", 0) == Some(["a", "\\w"])
  {
    var r := "a\\w";
    assert r[0..1] == "a" && r[1..3] == "\\w";
    assert PartEnd(r, 1) == Some(3);
    PartsCons(r, 1, 3, []);
    assert [r[1..3]] + [] == ["\\w"];
    assert PartEnd(r, 0) == Some(1);
    PartsCons(r, 0, 1, ["\\w"]);
    assert [r[0..1]] + ["\\w"] == ["a", "\\w"];
  }

  /** The parts of `x` + an escaped `c` + `b`, for a `c` of `*`, `(` or a
      backslash: the escape is one atom, never a quantifier, a group or a
      second escape. */
  lemma SplitEscaped(c: char)
    requires c == '*' || c == '(' || c == '\\'
    ensures PartsFrom(['a', '\\', c, 'b'], 0) == Some(["a", ['\\', c], "b"])
  {
    var r := ['a', '\\', c, 'b'];
    assert r[0..1] == "a" && r[1..3] == ['\\', c] && r[3..4] == "b";
    assert PartEnd(r, 3) == Some(4);
    PartsCons(r, 3, 4, []);
    assert [r[3..4]] + [] == ["b"];
    assert PartEnd(r, 1) == Some(3);
    PartsCons(r, 1, 3, ["b"]);
    assert [r[1..3]] + ["b"] == [['\\', c], "b"];
    assert PartEnd(r, 0) == Some(1);
    PartsCons(r, 0, 1, [['\\', c], "b"]);
    assert [r[0..1]] + [['\\', c], "b"] == ["a", ['\\', c], "b"];
  }

  /** The group `(b|c)` at `s` closes four characters later. */
  lemma GroupCloses(r: string, s: nat)
    requires s + 5 <= |r| && r[s..s + 5] == "(b|c)"
    ensures FindClose(r, s, true) == Some(s + 4)
  {
    assert r[s] == '(' && r[s + 1] == 'b' && r[s + 2] == '|' && r[s + 3] == 'c' && r[s + 4] == ')';
    FindCloseOpens(r, s, true);
    assert ScanClose(r, ')', s + 3, "(", true) == Some(s + 4);
    assert ScanClose(r, ')', s + 1, "(", true) == ScanClose(r, ')', s + 3, "(", true);
  }

  /** A group is one atom. */
  lemma SplitGroup()
    ensures PartsFrom("a(b|c)d", 0) == Some(["a", "(b|c)", "d"])
  {
    var r := "a(b|c)d";
    assert r[0..1] == "a" && r[1..6] == "(b|c)" && r[6..7] == "d";
    assert PartEnd(r, 6) == Some(7);
    PartsCons(r, 6, 7, []);
    assert [r[6..7]] + [] == ["d"];
    GroupCloses(r, 1);
    assert PartEnd(r, 1) == Some(6);
    PartsCons(r, 1, 6, ["d"]);
    assert [r[1..6]] + ["d"] == ["(b|c)", "d"];
    assert PartEnd(r, 0) == Some(1);
    PartsCons(r, 0, 1, ["(b|c)", "d"]);
    assert [r[0..1]] + ["(b|c)", "d"] == ["a", "(b|c)", "d"];
  }

  /** A group's quantifier follows it, lazy mark included. */
  lemma SplitLazyGroup()
    ensures PartsFrom("a(b|c)*?", 0) == Some(["a", "(b|c)*?"])
  {
    var r := "a(b|c)*?";
    assert r[0..1] == "a" && r[1..8] == "(b|c)*?" && r[1..6] == "(b|c)";
    GroupCloses(r, 1);
    assert PartEnd(r, 1) == Some(8);
    PartsCons(r, 1, 8, []);
    assert [r[1..8]] + [] == ["(b|c)*?"];
    assert PartEnd(r, 0) == Some(1);
    PartsCons(r, 0, 1, ["(b|c)*?"]);
    assert [r[0..1]] + ["(b|c)*?"] == ["a", "(b|c)*?"];
  }

  /** A top-level `|` is a part of its own. */
  lemma SplitPipeAfterGroup()
    ensures PartsFrom("a(b|c)*d|e", 0) == Some(["a", "(b|c)*", "d", "|", "e"])
  {
    var r := "a(b|c)*d|e";
    assert r[0..1] == "a" && r[1..7] == "(b|c)*" && r[1..6] == "(b|c)";
    assert r[7..8] == "d" && r[8..9] == "|" && r[9..10] == "e";
    assert PartEnd(r, 9) == Some(10);
    PartsCons(r, 9, 10, []);
    assert [r[9..10]] + [] == ["e"];
    assert PartEnd(r, 8) == Some(9);
    PartsCons(r, 8, 9, ["e"]);
    assert [r[8..9]] + ["e"] == ["|", "e"];
    assert PartEnd(r, 7) == Some(8);
    PartsCons(r, 7, 8, ["|", "e"]);
    assert [r[7..8]] + ["|", "e"] == ["d", "|", "e"];
    GroupCloses(r, 1);
    assert PartEnd(r, 1) == Some(7);
    PartsCons(r, 1, 7, ["d", "|", "e"]);
    assert [r[1..7]] + ["d", "|", "e"] == ["(b|c)*", "d", "|", "e"];
    assert PartEnd(r, 0) == Some(1);
    PartsCons(r, 0, 1, ["(b|c)*", "d", "|", "e"]);
    assert [r[0..1]] + ["(b|c)*", "d", "|", "e"] == ["a", "(b|c)*", "d", "|", "e"];
  }

  // -----------------------------------------------------------------------
  // process_character_class

  /** The characters from `lo` to `hi`, both included. */
  function RangeSet(lo: char, hi: char): (s: set<char>)
    ensures forall c :: c in s <==> lo <= c <= hi
  {
    set c | c in CharRange(lo, hi)
  }

  /** What the round at `idx` of `process_character_class` adds, as
      written: a range when at least three characters follow `idx` and the
      next is `-`; otherwise the character itself, unless it is `]`. A
      range's `-` and last character get rounds of their own. */
  function AsWrittenItem(cls: string, idx: nat): set<char>
    requires idx < |cls|
  {
    if |cls| - idx > 3 && cls[idx + 1] == '-' then RangeSet(cls[idx], cls[idx + 2])
    else if cls[idx] == '-' && idx != 0 && idx != |cls| - 1 then {cls[idx]}
    else if cls[idx] != ']' then {cls[idx]}
    else {}
  }

  /** `process_character_class` as written, from round `idx` on. */
  function AsWrittenClass(cls: string, idx: nat): set<char>
    decreases |cls| - idx
  {
    if idx >= |cls| then {} else AsWrittenItem(cls, idx) + AsWrittenClass(cls, idx + 1)
  }

  /** `process_character_class` as intended, from `idx` on: `x-y` admits
      the characters from `x` to `y` and is read as one item, wherever it
      stands; any other character admits itself, unless it is `]`. */
  function ClassOptions(cls: string, idx: nat): set<char>
    decreases |cls| - idx
  {
    if idx >= |cls| then {}
    else if idx + 2 < |cls| && cls[idx + 1] == '-' then
      RangeSet(cls[idx], cls[idx + 2]) + ClassOptions(cls, idx + 3)
    else
      (if cls[idx] != ']' then {cls[idx]} else {}) + ClassOptions(cls, idx + 1)
  }

  /** `process_character_class`, reading a range `x-y` as one item. */
  method ProcessCharacterClass(characterClass: string) returns (options: set<char>)
    ensures options == ClassOptions(characterClass, 0)
  {
    options := {};
    var idx := 0;
    while idx < |characterClass|
      invariant idx <= |characterClass|
      invariant options + ClassOptions(characterClass, idx) == ClassOptions(characterClass, 0)
      decreases |characterClass| - idx
    {
      var c := characterClass[idx];
      if idx + 2 < |characterClass| && characterClass[idx + 1] == '-' {
        var range := CharRange(c, characterClass[idx + 2]);
        ghost var before := options;
        for j := 0 to |range|
          invariant forall x :: x in options <==> x in before || x in range[..j]
        {
          options := options + {range[j]};
          assert range[..j + 1] == range[..j] + [range[j]];
        }
        assert range[..|range|] == range;
        assert options == before + RangeSet(c, characterClass[idx + 2]);
        idx := idx + 3;
        continue;
      }
      if c != ']' {
        options := options + {c};
      }
      idx := idx + 1;
    }
  }

  /** Without a `-`, both readings admit the characters of the class text,
      `]` excepted. */
  lemma {:induction false} NoDashClass(cls: string, idx: nat)
    requires idx <= |cls| && '-' !in cls
    ensures ClassOptions(cls, idx) == AsWrittenClass(cls, idx) == set c | c in cls[idx..] && c != ']'
    decreases |cls| - idx
  {
    if idx < |cls| {
      NoDashClass(cls, idx + 1);
      assert cls[idx..] == [cls[idx]] + cls[idx + 1..];
      if idx + 1 < |cls| {
        assert cls[idx + 1] in cls;
      }
    }
  }

  /** A range: as intended, `x-y` admits the characters from `x` to `y`. */
  lemma OneRange(x: char, y: char)
    ensures ClassOptions([x, '-', y], 0) == RangeSet(x, y)
  {
    assert ClassOptions([x, '-', y], 3) == {};
  }

  /** As written, a range at the end of the class is never expanded:
      `a-z` admits `a`, `-` and `z` alone. */
  lemma TrailingRangeMissed()
    ensures AsWrittenClass("a-z", 0) == {'a', '-', 'z'}
    ensures 'b' in ClassOptions("a-z", 0) && 'b' !in AsWrittenClass("a-z", 0)
  {
    OneRange('a', 'z');
    assert AsWrittenClass("a-z", 2) == {'z'};
    assert AsWrittenClass("a-z", 1) == {'-', 'z'};
  }

  /** As written, a range's `-` gets a round of its own and is admitted
      with the range: `a-z0` admits `-`, which the intended reading does
      not. */
  lemma RangeDashAdmitted()
    ensures '-' in AsWrittenClass("a-z0", 0) && 'b' in AsWrittenClass("a-z0", 0)
    ensures '-' !in ClassOptions("a-z0", 0)
  {
    assert '-' in AsWrittenItem("a-z0", 1);
    assert AsWrittenClass("a-z0", 1) == AsWrittenItem("a-z0", 1) + AsWrittenClass("a-z0", 2);
    assert ClassOptions("a-z0", 3) == {'0'};
  }

  // -----------------------------------------------------------------------
  // parts_to_token and tokenize

  /** The token of one part (a round of `parts_to_token`): a group holds
      the tokens of its inside, a class the set its inside admits, any
      other part its atom; the rest of the part is the quantifier. `None`
      where the source panics: an empty part, a bracket never closed, a
      lone backslash, an inside that fails. */
  function PartToken(part: string): Option<Token>
    decreases |part|, 0, 0
  {
    if |part| == 0 then None
    else if part[0] == '(' then
      match FindClose(part, 0, true)
      case None => None
      case Some(m) =>
        match PartsFrom(part[1..m], 0)
        case None => None
        case Some(ps) =>
          PartsJoin(part[1..m], 0);
          match PartsToTokens(ps)
          case None => None
          case Some(ts) => Some(Blank().(tokenType := CaptureGroup, subGroups := ts, quantifier := part[m + 1..]))
    else if part[0] == '[' then
      match FindClose(part, 0, true)
      case None => None
      case Some(m) =>
        var cur := if part[1] == '^' then 1 else 0;
        Some(Blank().(token := part[1..cur + 1], tokenType := CharacterClass,
                      classOptions := ClassOptions(part[cur + 1..m], 0), quantifier := part[m + 1..]))
    else
      var cur := if part[0] == '\\' then 1 else 0;
      if cur >= |part| then None
      else Some(Blank().(token := part[..cur + 1], quantifier := part[cur + 1..]))
  }

  /** `parts_to_token`: the tokens of the parts, in order. */
  function PartsToTokens(parts: seq<string>): Option<seq<Token>>
    decreases |Flatten(parts)|, 1, |parts|
  {
    if parts == [] then Some([])
    else
      match PartToken(parts[0])
      case None => None
      case Some(t) => Then([t], PartsToTokens(parts[1..]))
  }

  /** `tokenize`: the tokens of the parts of the text. */
  function Tokenized(regex: string): Option<seq<Token>>
  {
    match PartsFrom(regex, 0)
    case None => None
    case Some(ps) => PartsToTokens(ps)
  }

  /** No part is longer than all of them written out. */
  lemma {:induction false} FlattenBound(parts: seq<string>, i: nat)
    requires i < |parts|
    ensures |parts[i]| <= |Flatten(parts)|
  {
    if i > 0 {
      FlattenBound(parts[1..], i - 1);
    }
  }

  /** A round of `parts_to_token`. */
  method PartToToken(part: string) returns (t: Option<Token>)
    ensures t == PartToken(part)
    decreases |part|, 0
  {
    if |part| == 0 {
      return None;
    }
    var curIndex := 0;
    var curToken := Blank();
    if part[0] == '(' {
      var endIndex := FindParenMatch(part, 0);
      if endIndex.None? {
        return None;
      }
      var innerComponent := part[1..endIndex.value];
      var innerParts := SplitToParts(innerComponent);
      if innerParts.None? {
        return None;
      }
      PartsJoin(innerComponent, 0);
      var subGroups := PartsToToken(innerParts.value);
      if subGroups.None? {
        return None;
      }
      curToken := curToken.(tokenType := CaptureGroup, subGroups := subGroups.value);
      curIndex := endIndex.value + 1;
    } else if part[0] == '[' {
      var endIndex := FindParenMatch(part, 0);
      if endIndex.None? {
        return None;
      }
      if part[1] == '^' {
        curToken := curToken.(token := curToken.token + [part[1]]);
        curIndex := curIndex + 1;
      }
      assert curToken.token == part[1..curIndex + 1];
      var innerComponent := part[curIndex + 1..endIndex.value];
      var options := ProcessCharacterClass(innerComponent);
      curToken := curToken.(tokenType := CharacterClass, classOptions := options);
      curIndex := endIndex.value + 1;
    } else {
      if part[0] == '\\' {
        curToken := curToken.(token := curToken.token + [part[0]]);
        curIndex := curIndex + 1;
      }
      if curIndex >= |part| {
        return None;
      }
      assert curToken.token == part[..curIndex];
      curToken := curToken.(token := curToken.token + [part[curIndex]]);
      curIndex := curIndex + 1;
      assert curToken.token == part[..curIndex];
    }
    curToken := curToken.(quantifier := part[curIndex..]);
    t := Some(curToken);
  }

  /** `parts_to_token`. */
  method PartsToToken(parts: seq<string>) returns (tokens: Option<seq<Token>>)
    ensures tokens == PartsToTokens(parts)
    decreases |Flatten(parts)|, 1
  {
    var acc: seq<Token> := [];
    ThenNothing(PartsToTokens(parts));
    for i := 0 to |parts|
      invariant PartsToTokens(parts) == Then(acc, PartsToTokens(parts[i..]))
    {
      FlattenBound(parts, i);
      var t := PartToToken(parts[i]);
      if t.None? {
        return None;
      }
      assert parts[i..][1..] == parts[i + 1..];
      ThenThen(acc, t.value, PartsToTokens(parts[i + 1..]));
      acc := acc + [t.value];
    }
    assert parts[|parts|..] == [];
    assert acc + [] == acc;
    tokens := Some(acc);
  }

  /** `tokenize`. */
  method Tokenize(regex: string) returns (tokens: Option<seq<Token>>)
    ensures tokens == Tokenized(regex)
  {
    var parts := SplitToParts(regex);
    if parts.None? {
      return None;
    }
    tokens := PartsToToken(parts.value);
  }

  /** What a token shows of the text it came from: a group's inside in
      parentheses, or the atom, then the quantifier. A class keeps only
      the set it admits, so its text cannot be told from it. */
  function RenderAll(ts: seq<Token>): string
  {
    if ts == [] then []
    else
      (if ts[0].tokenType == CaptureGroup then "(" + RenderAll(ts[0].subGroups) + ")" else ts[0].token)
      + ts[0].quantifier + RenderAll(ts[1..])
  }

  /** Tokenizing a text without classes loses nothing: the tokens render
      back to the text. */
  lemma TokenizeRoundTrip(regex: string)
    requires '[' !in regex && Tokenized(regex).Some?
    ensures RenderAll(Tokenized(regex).value) == regex
  {
    PartsJoin(regex, 0);
    PartsRoundTrip(PartsFrom(regex, 0).value);
  }

  /** The tokens of parts without classes render back to the parts. */
  lemma {:induction false} PartsRoundTrip(parts: seq<string>)
    requires '[' !in Flatten(parts) && PartsToTokens(parts).Some?
    ensures RenderAll(PartsToTokens(parts).value) == Flatten(parts)
    decreases |Flatten(parts)|, 1, |parts|
  {
    if parts != [] {
      var t := PartToken(parts[0]).value;
      var ts := PartsToTokens(parts[1..]).value;
      PartRoundTrip(parts[0]);
      PartsRoundTrip(parts[1..]);
      assert PartsToTokens(parts).value == [t] + ts;
      assert ([t] + ts)[1..] == ts;
    }
  }

  /** The token of a part without classes renders back to the part. */
  lemma {:induction false} PartRoundTrip(part: string)
    requires '[' !in part && PartToken(part).Some?
    ensures RenderAll([PartToken(part).value]) == part
    decreases |part|, 0, 1
  {
    if part[0] == '(' {
      GroupRoundTrip(part);
    } else {
      var t := PartToken(part).value;
      assert [t][1..] == [];
      var cur := if part[0] == '\\' then 1 else 0;
      assert part == part[..cur + 1] + part[cur + 1..];
    }
  }

  /** The token of a group without classes renders back to the group. */
  lemma {:induction false} GroupRoundTrip(part: string)
    requires '[' !in part && PartToken(part).Some? && part[0] == '('
    ensures RenderAll([PartToken(part).value]) == part
    decreases |part|, 0, 0
  {
    GroupToken(part);
    var t := PartToken(part).value;
    var m := FindClose(part, 0, true).value;
    var inner := part[1..m];
    var ps := PartsFrom(inner, 0).value;
    PartsJoin(inner, 0);
    assert inner[0..] == inner;
    SliceLacks(part, '[', 1, m);
    PartsRoundTrip(ps);
    RenderOne(t);
    GroupText(part, m);
  }

  /** A slice lacks what the whole lacks. */
  lemma SliceLacks(s: string, c: char, i: nat, j: nat)
    requires i <= j <= |s| && c !in s
    ensures c !in s[i..j]
  {
  }

  /** A group is its opener, its inside, its closer and its quantifier. */
  lemma GroupText(part: string, m: nat)
    requires 0 < m < |part| && part[0] == '(' && part[m] == ')'
    ensures "(" + part[1..m] + ")" + part[m + 1..] == part
  {
    assert part == [part[0]] + part[1..m] + [part[m]] + part[m + 1..];
  }

  /** The token of a group: its inside's tokens, then its quantifier. */
  lemma GroupToken(part: string)
    requires PartToken(part).Some? && part[0] == '('
    ensures var m := FindClose(part, 0, true).value;
      && PartsFrom(part[1..m], 0).Some? && PartsToTokens(PartsFrom(part[1..m], 0).value).Some?
      && PartToken(part).value == Blank().(tokenType := CaptureGroup, quantifier := part[m + 1..],
                                           subGroups := PartsToTokens(PartsFrom(part[1..m], 0).value).value)
  {
  }

  /** The text of one token. */
  lemma RenderOne(t: Token)
    ensures RenderAll([t]) ==
      (if t.tokenType == CaptureGroup then "(" + RenderAll(t.subGroups) + ")" else t.token) + t.quantifier
  {
    assert [t][1..] == [];
  }

  /** The shape of a token, as the comment on `Token` describes it: an
      atom is one character or a backslash and one, a group has no text
      and holds the tokens of its inside, a class has no sub-tokens, and
      no token is a `Pipe`. The quantifier is the end of the part. */
  lemma TokenShape(part: string)
    requires PartToken(part).Some?
    ensures var t := PartToken(part).value;
      && t.tokenType != Pipe
      && (t.tokenType == Normal ==>
            t.subGroups == [] && 1 <= |t.token| <= 2 && (|t.token| == 2 <==> t.token[0] == '\\'))
      && (t.tokenType == CaptureGroup ==> t.token == [] && part[0] == '(')
      && (t.tokenType == CharacterClass ==> t.subGroups == [] && (t.token == [] || t.token == "^"))
      && |t.quantifier| < |part| && t.quantifier == part[|part| - |t.quantifier|..]
  {
    var t := PartToken(part).value;
    if part[0] == '(' || part[0] == '[' {
      var m := FindClose(part, 0, true).value;
      assert t.quantifier == part[m + 1..];
    }
  }

  /** `abc*de`: five atoms, the third with its star. */
  lemma TokenizePlain()
    ensures Tokenized("abc*de") == Some([
      Blank().(token := "a"), Blank().(token := "b"), Blank().(token := "c", quantifier := "*"),
      Blank().(token := "d"), Blank().(token := "e")])
  {
    var r := "abc*de";
    assert r[0..1] == "a" && r[1..2] == "b" && r[2..4] == "c*" && r[4..5] == "d" && r[5..6] == "e";
    assert PartEnd(r, 5) == Some(6);
    PartsCons(r, 5, 6, []);
    assert [r[5..6]] + [] == ["e"];
    assert PartEnd(r, 4) == Some(5);
    PartsCons(r, 4, 5, ["e"]);
    assert [r[4..5]] + ["e"] == ["d", "e"];
    assert PartEnd(r, 2) == Some(4);
    PartsCons(r, 2, 4, ["d", "e"]);
    assert [r[2..4]] + ["d", "e"] == ["c*", "d", "e"];
    assert PartEnd(r, 1) == Some(2);
    PartsCons(r, 1, 2, ["c*", "d", "e"]);
    assert [r[1..2]] + ["c*", "d", "e"] == ["b", "c*", "d", "e"];
    assert PartEnd(r, 0) == Some(1);
    PartsCons(r, 0, 1, ["b", "c*", "d", "e"]);
    assert [r[0..1]] + ["b", "c*", "d", "e"] == ["a", "b", "c*", "d", "e"];
    PlainTokens(["a", "b", "c*", "d", "e"]);
  }

  /** The tokens of parts that are single letters, some with a star. */
  lemma PlainTokens(ps: seq<string>)
    requires ps == ["a", "b", "c*", "d", "e"]
    ensures PartsToTokens(ps) == Some([
      Blank().(token := "a"), Blank().(token := "b"), Blank().(token := "c", quantifier := "*"),
      Blank().(token := "d"), Blank().(token := "e")])
  {
    var a, b, c, d, e := Blank().(token := "a"), Blank().(token := "b"),
      Blank().(token := "c", quantifier := "*"), Blank().(token := "d"), Blank().(token := "e");
    AtomToken('a', "");
    AtomToken('b', "");
    AtomToken('c', "*");
    AtomToken('d', "");
    AtomToken('e', "");
    assert "a" == ['a'] + "" && "b" == ['b'] + "" && "c*" == ['c'] + "*";
    assert "d" == ['d'] + "" && "e" == ['e'] + "";
    assert ["e"][1..] == [];
    TokensCons(["e"], e, []);
    assert [e] + [] == [e];
    assert ["d", "e"][1..] == ["e"];
    TokensCons(["d", "e"], d, [e]);
    assert [d] + [e] == [d, e];
    assert ["c*", "d", "e"][1..] == ["d", "e"];
    TokensCons(["c*", "d", "e"], c, [d, e]);
    assert [c] + [d, e] == [c, d, e];
    assert ["b", "c*", "d", "e"][1..] == ["c*", "d", "e"];
    TokensCons(["b", "c*", "d", "e"], b, [c, d, e]);
    assert [b] + [c, d, e] == [b, c, d, e];
    assert ps[1..] == ["b", "c*", "d", "e"];
    TokensCons(ps, a, [b, c, d, e]);
    assert [a] + [b, c, d, e] == [a, b, c, d, e];
  }

  /** The tokens of parts, given the first part's token and the rest's. */
  lemma TokensCons(parts: seq<string>, t: Token, rest: seq<Token>)
    requires parts != [] && PartToken(parts[0]) == Some(t) && PartsToTokens(parts[1..]) == Some(rest)
    ensures PartsToTokens(parts) == Some([t] + rest)
  {
  }

  /** The token of a part that starts with a plain character. */
  lemma AtomToken(x: char, q: string)
    requires x != '(' && x != '[' && x != '\\'
    ensures PartToken([x] + q) == Some(Blank().(token := [x], quantifier := q))
  {
    var part := [x] + q;
    assert part[..1] == [x] && part[1..] == q;
  }

  /** `a(bc)*d`: an atom, a starred group of two atoms, an atom. */
  lemma TokenizeGroup()
    ensures Tokenized("a(bc)*d") == Some([
      Blank().(token := "a"),
      Blank().(tokenType := CaptureGroup, quantifier := "*",
               subGroups := [Blank().(token := "b"), Blank().(token := "c")]),
      Blank().(token := "d")])
  {
    var a, g, d := Blank().(token := "a"),
      Blank().(tokenType := CaptureGroup, quantifier := "*",
               subGroups := [Blank().(token := "b"), Blank().(token := "c")]),
      Blank().(token := "d");
    SplitBcGroup();
    AtomToken('a', "");
    AtomToken('d', "");
    assert "a" == ['a'] + "" && "d" == ['d'] + "";
    GroupBcToken();
    assert ["d"][1..] == [];
    TokensCons(["d"], d, []);
    assert [d] + [] == [d];
    assert ["(bc)*", "d"][1..] == ["d"];
    TokensCons(["(bc)*", "d"], g, [d]);
    assert [g] + [d] == [g, d];
    assert ["a", "(bc)*", "d"][1..] == ["(bc)*", "d"];
    TokensCons(["a", "(bc)*", "d"], a, [g, d]);
    assert [a] + [g, d] == [a, g, d];
  }

  /** The parts of `a(bc)*d`. */
  lemma SplitBcGroup()
    ensures PartsFrom("a(bc)*d", 0) == Some(["a", "(bc)*", "d"])
  {
    var r := "a(bc)*d";
    assert r[0..1] == "a" && r[1..6] == "(bc)*" && r[6..7] == "d" && r[1..5] == "(bc)";
    assert PartEnd(r, 6) == Some(7);
    PartsCons(r, 6, 7, []);
    assert [r[6..7]] + [] == ["d"];
    BcCloses(r, 1);
    assert PartEnd(r, 1) == Some(6);
    PartsCons(r, 1, 6, ["d"]);
    assert [r[1..6]] + ["d"] == ["(bc)*", "d"];
    assert PartEnd(r, 0) == Some(1);
    PartsCons(r, 0, 1, ["(bc)*", "d"]);
    assert [r[0..1]] + ["(bc)*", "d"] == ["a", "(bc)*", "d"];
  }

  /** The group `(bc)` at `s` closes three characters later. */
  lemma BcCloses(r: string, s: nat)
    requires s + 4 <= |r| && r[s..s + 4] == "(bc)"
    ensures FindClose(r, s, true) == Some(s + 3)
  {
    assert r[s] == '(' && r[s + 1] == 'b' && r[s + 2] == 'c' && r[s + 3] == ')';
    FindCloseOpens(r, s, true);
    assert ScanClose(r, ')', s + 2, "(", true) == Some(s + 3);
  }

  /** The token of `(bc)*`. */
  lemma GroupBcToken()
    ensures PartToken("(bc)*") == Some(Blank().(tokenType := CaptureGroup, quantifier := "*",
                                                subGroups := [Blank().(token := "b"), Blank().(token := "c")]))
  {
    var part := "(bc)*";
    var b, c := Blank().(token := "b"), Blank().(token := "c");
    assert part[0..4] == "(bc)";
    BcCloses(part, 0);
    var inner := part[1..3];
    assert inner == "bc" && inner[0..1] == "b" && inner[1..2] == "c";
    assert PartEnd(inner, 1) == Some(2);
    PartsCons(inner, 1, 2, []);
    assert [inner[1..2]] + [] == ["c"];
    assert PartEnd(inner, 0) == Some(1);
    PartsCons(inner, 0, 1, ["c"]);
    assert [inner[0..1]] + ["c"] == ["b", "c"];
    AtomToken('b', "");
    AtomToken('c', "");
    assert "b" == ['b'] + "" && "c" == ['c'] + "";
    assert ["c"][1..] == [];
    TokensCons(["c"], c, []);
    assert [c] + [] == [c];
    assert ["b", "c"][1..] == ["c"];
    TokensCons(["b", "c"], b, [c]);
    assert [b] + [c] == [b, c];
    assert part[4..] == "*";
  }

  /** `[^a-c]+`: a negated class keeps its `^` as text and admits the
      range. */
  lemma NegatedClassToken()
    ensures PartToken("[^a-c]+") ==
      Some(Blank().(token := "^", tokenType := CharacterClass, classOptions := RangeSet('a', 'c'), quantifier := "+"))
  {
    var part := "[^a-c]+";
    FindCloseOpens(part, 0, true);
    assert ScanClose(part, ']', 5, "[", true) == Some(5);
    assert FindClose(part, 0, true) == Some(5);
    assert part[2..5] == ['a', '-', 'c'] && part[1..2] == "^" && part[6..] == "+";
    OneRange('a', 'c');
  }

  // -----------------------------------------------------------------------
  // process_regex

  /** `r.rfind(c)`: the last position holding `c`, `None` when there is
      none. */
  function RFind(r: string, c: char): (k: Option<nat>)
    ensures k.Some? ==> k.value < |r| && r[k.value] == c && forall j :: k.value < j < |r| ==> r[j] != c
    ensures k.None? ==> forall j :: 0 <= j < |r| ==> r[j] != c
  {
    if r == [] then None
    else if r[|r| - 1] == c then Some(|r| - 1)
    else RFind(r[..|r| - 1], c)
  }

  /** `process_regex` on a pattern written `/body/flags`: the tokens of
      the text between the first character and the last `/`, and the set
      of characters after that `/`. It panics (`None`) when there is no
      `/`, when the only `/` is the first character, and when the body
      does not tokenize. */
  function ProcessRegex(regex: string): (r: Option<(seq<Token>, set<char>)>)
    ensures r.Some? ==>
      exists k :: 0 < k < |regex| && regex[k] == '/' && (forall j :: k < j < |regex| ==> regex[j] != '/')
                  && Tokenized(regex[1..k]) == Some(r.value.0)
                  && forall c :: c in r.value.1 <==> c in regex[k + 1..]
    ensures r.Some? ==> '/' !in r.value.1
    ensures forall k ::
      (0 < k < |regex| && regex[k] == '/' && (forall j :: k < j < |regex| ==> regex[j] != '/')
       && Tokenized(regex[1..k]).Some?) ==> r.Some?
  {
    match RFind(regex, '/')
    case None => None
    case Some(rIndex) =>
      if rIndex == 0 then None
      else
        var after := regex[rIndex + 1..];
        var flags := set c | c in after;
        match Tokenized(regex[1..rIndex])
        case None => None
        case Some(tokens) => Some((tokens, flags))
  }
}
