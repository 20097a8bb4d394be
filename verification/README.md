# RustRegex core, modelled in Dafny

This project models the pipeline of the RustRegex repository, from a
pattern to an answer:

- **Tokenizer** (`src/parse_regex.rs`, module `ParseRegex`). It strips the
  `/body/flags` wrapper and splits the body on top-level `|`. It cuts the
  body into parts (an atom, group or class with its quantifier), finds
  matching brackets, expands character-class ranges and turns parts into
  `Token` records.
- **Arena Thompson builder** (`src/regex.rs` over `src/node.rs`). The text
  passes `insert_concat` and `to_postfix_insert_concat` are in
  `RegexInfix`. The fragment operations are pure functions in `Thompson`.
  The token loop of `Regex::new`, including the `{..}` unrolling, is a fold
  in `RegexBuild`. The class `RegexNfa.Regex` holds the node vector and the
  `start`/`end` fields. Each of its methods is proved to leave the state
  those functions describe.
- **Simulation** (`add_next_state` and `search`, module `Simulation`). It is
  proved to answer exactly `Semantics.Accepts`: some accepting state is
  reached after the last character, with states expanded along epsilon
  edges. The pointer draft's `addNextState` and `search`
  (rust_regex/src/main.rs:204-246) are the same walk over arena indices,
  so one model serves both. Likewise `NfaNode` serves the node record of
  both drafts (rust_regex/src/main.rs:5-40 repeats src/node.rs).
- **Pointer-based draft** (`rust_regex/src/main.rs`, modules `PointerNfa`
  and `PointerExamples`). Its nodes are named by their index in the arena,
  not by raw pointers. `RegexAgree` proves that both drafts build the same
  automaton on the tokens they share. `PointerExamples` and
  `RegexExamples` prove the exact languages of the test patterns.
- **DFA/NFA node layer** (`src/automata.rs`, module `Automata`). It covers
  node tables keyed by `i8` ids, the alphabet `range`, the determinism
  check, the first-path-per-symbol conversion and the DFA walk.

Three places where the code does something other than what it evidently
means are logged under "## Findings". Each is modelled both as written and
corrected, and the pipeline (`Tokenize`, `Regex::new`) uses the corrected
behaviour:

- As written, `find_paren_match`, `check_pipe` and `find_pipes` never pop
  their bracket stack, so `(a(b)c)` panics and `(a)|b` has no top-level
  pipe. `AsWrittenNeverPops`, `AsWrittenMatch`, `PipeAfterGroupMissed` and
  `NestedGroupPanics` model that scan. `FindParenMatch`, `CheckPipe`,
  `FindPipes`, `SplitToParts`, `PartToToken` and `Tokenize` use the
  popping scan.
- As written, `process_character_class` misses a range at the end of a
  class, and a range elsewhere also admits `-`, because the next round
  re-reads it (src/parse_regex.rs:259-260). `AsWrittenClass`,
  `TrailingRangeMissed` and `RangeDashAdmitted` model that reading.
  `ProcessCharacterClass` returns the corrected `ClassOptions`.
- The `{..}` repetition links the copy of the quantified fragment and loops
  back to the copy of its start; `AsWrittenRepeat` is the version that
  uses the fragment after the current end and the copy of node 0.

In these places the model follows what the code does, not what its names
or comments suggest:

- Nothing in the code produces `TokenType::Pipe`: a top-level `|` part
  becomes a `Normal` token whose text is `|`.
- `insert_concat` copies a `[..]` or `{..}` span and moves on without
  writing a `.` after it (src/regex.rs:288-297). So `a{2}b` and `[ab]c`
  leave two fragments on the stack, and `Regex::new` keeps only the top
  one (`RegexExamples.InsertedATwoB`).
- `{0,}` and `{1,}` never loop (src/regex.rs:92-109): with no copy made,
  the back edge goes to the fresh end itself. So `a{1,}` accepts only `a`,
  and `a{0,}` does not accept the empty word
  (`RegexBuild.OpenEndedWithoutCopyDoesNotLoop`).

## Model

| member | source | states |
|---|---|---|
| NfaNode.New | src/node.rs:20-29 | the node has exactly the given id and accepting flag, no transitions and no epsilon edges |
| NfaNode.NewFull | src/node.rs:31-38 | all four fields are stored verbatim |
| RegexBuild.BuiltNodesEqualIffSame | src/node.rs:13-17 | in every automaton `Regex::new` builds, two nodes compare equal by id iff they are the same node |
| Chars.CharRange | src/regex.rs:170 | the collected range holds exactly the characters from `lo` to `hi` |
| Chars.CharRangeAscending | src/regex.rs:170 | the range is collected in strictly ascending order |
| Chars.Digit | src/regex.rs:50-60 | `to_digit(10)` succeeds iff the character is an ASCII decimal digit, and then gives its value 0..9 |
| Thompson.Push | src/regex.rs:358-393 | pushing a node keeps every old node and appends one edge-free node |
| Thompson.AddEpsilon | src/regex.rs:395-398 | only node `from` changes, and its epsilon list gains `to` at the end |
| Thompson.AddTransition | src/regex.rs:400-402 | only node `from` changes; its edge on the symbol now leads to `to`, overwriting an earlier one |
| Thompson.FromEpsilon | src/regex.rs:358-374 | two nodes are appended; the new start is non-accepting with the single epsilon edge to the new end, which accepts; nothing old changes |
| Thompson.FromSymbol | src/regex.rs:376-393 | two nodes are appended; the only edge is new start --symbol--> new end; only the new end accepts |
| Thompson.CharacterClass | src/regex.rs:255-271 | two nodes are appended; the new start has an edge exactly on each one-character string of the class, every one leading to the new end |
| Thompson.Star | src/regex.rs:404-424 | new start gets epsilon edges to the new end and the old start; old end stops accepting and gets edges to the new end and back to the old start; nothing else changes |
| Thompson.Plus | src/regex.rs:447-466 | as `Star` without the edge from the new start to the new end |
| Thompson.Question | src/regex.rs:426-445 | as `Star` without the edge from the old end back to the old start |
| Thompson.Concat | src/regex.rs:468-475 | no node is added; first end stops accepting and gets an epsilon edge to the second start; the result spans first start to second end |
| Thompson.Union | src/regex.rs:477-498 | two nodes are appended; new start branches to both starts; both old ends stop accepting and lead to the new end, the only new accepting node |
| Thompson.Add | src/regex.rs:219-235 | the copy is appended after the old nodes; copy `j` has id `id + j` and every target moved by the old length |
| Thompson.Shift | src/regex.rs:219-235 | a copied node keeps its flag and symbols, and each transition and epsilon target moves by the offset |
| Thompson.FromEpsilonKeepsArena | src/regex.rs:358-374 | the epsilon fragment keeps every edge inside the arena and ids equal to indices |
| Thompson.FromSymbolKeepsArena | src/regex.rs:376-393 | the symbol fragment keeps edges inside the arena and ids equal to indices |
| Thompson.CharacterClassKeepsArena | src/regex.rs:255-271 | the class fragment keeps edges inside the arena and ids equal to indices |
| Thompson.StarKeepsArena | src/regex.rs:404-424 | the star keeps edges inside the arena and ids equal to indices |
| Thompson.PlusKeepsArena | src/regex.rs:447-466 | the plus keeps edges inside the arena and ids equal to indices |
| Thompson.QuestionKeepsArena | src/regex.rs:426-445 | the question mark keeps edges inside the arena and ids equal to indices |
| Thompson.ConcatKeepsArena | src/regex.rs:468-475 | concatenation keeps edges inside the arena and ids equal to indices |
| Thompson.UnionKeepsArena | src/regex.rs:477-498 | the union keeps edges inside the arena and ids equal to indices |
| Thompson.AddKeepsArena | src/regex.rs:219-235 | appending a copy keeps edges inside the grown arena and continues the id numbering |
| RegexInfix.Precedence | src/regex.rs:273-280 | `\|` is 1, `.` is 2, `*` is 3, and every other character is 0 |
| RegexInfix.InsertConcat | src/regex.rs:282-313 | the loop returns exactly the text `Inserted` describes, or `None` where the source panics on an unclosed `[` or `{` |
| RegexInfix.EmitsKeepsInput | src/regex.rs:282-313 | removing the inserted `.` markers gives back the input: every character is written once and in order |
| RegexInfix.MarkersBetweenOperands | src/regex.rs:282-313 | every inserted `.` stands after an operand end and before an operand start |
| RegexInfix.NoBracketNoFailure | src/regex.rs:282-313 | without `[` or `{` in the pattern, `insert_concat` never panics |
| RegexInfix.CopiedClass | src/regex.rs:288-297 | a `[..]` or `{..}` span is copied verbatim, without markers inside |
| RegexInfix.ToPostfixInsertConcat | src/regex.rs:315-356 | the shunting-yard loop returns exactly `ToPostfix` of the pattern |
| RegexInfix.PostfixKeepsOperands | src/regex.rs:315-356 | the output holds no `)`; every other non-`(` character keeps its count; with balanced parentheses no `(` is left |
| RegexInfix.ShuntAllFacts | src/regex.rs:315-356 | during the pass no parenthesis is written, and each character is either written or on the operator stack |
| RegexInfix.InsertedKeepsBalance | src/regex.rs:282-313 | inserting markers keeps a balanced pattern balanced |
| RegexInfix.ToPostfixDropsParentheses | src/regex.rs:315-356 | for balanced parentheses the postfix text has no parentheses, and every other character except `.` keeps its count |
| RegexBuild.ScanClass | src/regex.rs:165-181 | the class loop stops at a `]` and the collected text extends the text collected so far |
| RegexBuild.ScanClassFromText | src/regex.rs:165-181 | every collected character is a non-`.` character of the class or lies inside a range `x-y` of it |
| RegexBuild.ScanClassPlain | src/regex.rs:165-181 | a class without `-` collects its characters in order, with dots removed |
| RegexBuild.Bounds | src/regex.rs:44-61 | the bound loop stops at a `}`; each bound is a digit value or -1, and not both are -1 |
| RegexBuild.ExactBound | src/regex.rs:58-61 | `{n}` gives `n` as both bounds |
| RegexBuild.RangeBound | src/regex.rs:47-57 | `{n,m}` gives `n` and `m` |
| RegexBuild.AtLeastBound | src/regex.rs:47-57 | `{n,}` gives `n` and no upper bound |
| RegexBuild.AtMostBound | src/regex.rs:47-57 | `{,m}` gives no lower bound and `m` |
| RegexBuild.Link | src/regex.rs:71-77 | one pass appends a copy of the snapshot; the arena and the id counter grow by the snapshot's length; the fragment keeps its start |
| RegexBuild.LinkCopiesFragment | src/regex.rs:71-77 | the copy lies after the old arena, moved by its length; the old end stops accepting and leads to the copy of the fragment's start (and to its end when skippable); the fragment now ends at the copy's end |
| RegexBuild.Chain | src/regex.rs:115-127 | `k` passes grow the arena and the id counter by `k` times the snapshot length |
| RegexBuild.Finish | src/regex.rs:78-88 | the last copy plus a fresh accepting end: one copy and one node more, and the new end is the last node |
| RegexBuild.OpenEnded | src/regex.rs:92-111 | `{n,}`: after the copies, a fresh accepting end is the last node |
| RegexBuild.OpenEndedLoopsBack | src/regex.rs:101-108 | the end after the copies stops accepting, keeps its edges and gains one to the fresh end and one back to `LoopTarget` |
| RegexBuild.LoopTargetIsCopyOfStart | src/regex.rs:92-99 | after at least one copy, the corrected back edge reaches the copy of the quantified fragment's start in the last copy |
| RegexBuild.OpenEndedWithoutCopyDoesNotLoop | src/regex.rs:92-109 | with no mandatory copy, both edges added to the old end lead to the fresh end, so the fragment is not repeated |
| RegexBuild.OpenTail | src/regex.rs:101-109 | one fresh accepting end is appended and becomes the end; the start is kept |
| RegexBuild.OpenTailEdges | src/regex.rs:101-109 | only the old end changes: it stops accepting and gains an edge to the fresh end and one back; the fresh end is an accepting node with no edges |
| RegexBuild.OpenEndedIsTail | src/regex.rs:92-111 | `{n,}` is its copies followed by `OpenTail` back to `LoopTarget` |
| RegexBuild.Close | src/regex.rs:81-87 | after the last copy one fresh accepting end is appended and becomes the end; the start is kept |
| RegexBuild.FinishIsClose | src/regex.rs:78-88 | the closing copy is one pass followed by `Close` from the end of the fragment built so far |
| RegexBuild.Repeat | src/regex.rs:63-163 | every repetition grows the arena, keeps the id counter in step with it, and ends at the last node |
| RegexBuild.RepeatKeeps | src/regex.rs:63-163 | every repetition keeps edges inside the arena and ids equal to indices |
| RegexBuild.Token | src/regex.rs:32-199 | one token moves the index forward, pops its operands (1 for `*+?{`, 2 for `\|.`, 0 otherwise) and pushes one fragment |
| RegexBuild.RepeatToken | src/regex.rs:43-163 | a bound token succeeds iff its bounds can be read and the stack is not empty; it replaces the top fragment |
| RegexBuild.RepeatTokenIs | src/regex.rs:63-163 | a bound token pushes the repetition of the top fragment and continues after the `}` |
| RegexBuild.ClassToken | src/regex.rs:165-181 | a class token succeeds iff its `]` is found, and pushes one fragment |
| RegexBuild.ClassTokenIs | src/regex.rs:165-181 | a class token pushes the class fragment of the collected characters |
| RegexBuild.Operator | src/regex.rs:34-42 | an operator fails iff the stack holds fewer operands than it pops; otherwise it pops them and pushes one fragment |
| RegexBuild.Unary | src/regex.rs:187-194 | `*`, `+` and `?` replace the top fragment |
| RegexBuild.Binary | src/regex.rs:182-186 | `\|` and `.` replace the two top fragments with one |
| RegexBuild.BuildFrom | src/regex.rs:31-200 | a successful token loop over a non-empty rest leaves a non-empty stack of fragments inside the arena |
| RegexBuild.BuildRegex | src/regex.rs:24-27 | the built automaton's start and end are nodes of the arena |
| RegexBuild.TokenKeepsInv | src/regex.rs:32-199 | every token keeps edges inside the arena and ids equal to indices |
| RegexBuild.BuildRegexWellFormed | src/regex.rs:16-205 | every automaton `Regex::new` builds has edges inside the arena, ids equal to indices, and start and end inside it |
| RegexBuild.AsWrittenLink | src/regex.rs:71-77 | a pass as written, where it succeeds, appends a copy of the snapshot and grows the id counter by its length, keeping the stage inside the arena |
| RegexBuild.AsWrittenLinkNeedsStartZero | src/regex.rs:74 | on the first pass the as-written link equals the corrected one iff the quantified fragment starts at node 0 |
| RegexBuild.AsWrittenChain | src/regex.rs:70-77 | passes as written, where they succeed, keep the stage inside the arena |
| RegexBuild.AsWrittenLoopTarget | src/regex.rs:92-99 | the back edge as written goes to the arena length before the last copy, where the copy of node 0 lies; with no copy, to the fresh end |
| RegexBuild.AsWrittenLoopNeedsStartZero | src/regex.rs:95 | after at least one copy, the back edge as written reaches the copy of the quantified fragment's start iff that fragment starts at node 0 |
| RegexBuild.AsWrittenRepeat | src/regex.rs:63-163 | the four bound branches as written, where they succeed, leave the stage inside the arena |
| RegexBuild.AsWrittenLinkAtEnd | src/regex.rs:71-77 | when the fragment built so far ends at the last node and the quantified fragment is the whole snapshot, a pass as written is the corrected pass, and the fragment again ends at the last node |
| RegexBuild.AsWrittenChainAtEnd | src/regex.rs:70-77 | under the same conditions, any number of passes as written equals `Chain` |
| RegexBuild.AsWrittenRepeatWholeArena | src/regex.rs:63-163 | when the quantified fragment is the whole arena, as for a bound right after the first atom, the repetition as written equals `Repeat` |
| RegexNfa.Regex.constructor | src/regex.rs:16-205 | `new` leaves the arena and fields `NewRegex` describes |
| RegexNfa.Regex.RunTokens | src/regex.rs:31-200 | the token loop ends in the builder `BuildFrom` describes |
| RegexNfa.Regex.ApplyToken | src/regex.rs:32-199 | one pass leaves the state, stack, counter and index `Token` describes |
| RegexNfa.Regex.ApplyBound | src/regex.rs:43-163 | a bound token leaves the state `RepeatToken` describes |
| RegexNfa.Regex.ApplyClass | src/regex.rs:165-181 | a class token leaves the state `ClassToken` describes |
| RegexNfa.Regex.ApplyOperator | src/regex.rs:34-42 | an operator or symbol token leaves the state `Operator` describes |
| RegexNfa.Regex.ApplyUnary | src/regex.rs:187-194 | `*`, `+`, `?` leave the state `Operator` describes |
| RegexNfa.Regex.ApplyBinary | src/regex.rs:182-186 | `\|` and `.` pop right then left and leave the state `Operator` describes |
| RegexNfa.Regex.ReadBounds | src/regex.rs:44-61 | the bound loop returns exactly `Bounds` |
| RegexNfa.Regex.ReadClass | src/regex.rs:166-179 | the class loop returns exactly `ScanClass` |
| RegexNfa.Regex.AddEpsilonTransition | src/regex.rs:395-398 | the arena becomes `AddEpsilon` of the old one; start and end are unchanged |
| RegexNfa.Regex.AddTransition | src/regex.rs:400-402 | the arena becomes `AddTransition` of the old one; start and end are unchanged |
| RegexNfa.Regex.FromEpsilon | src/regex.rs:358-374 | the state becomes `Thompson.FromEpsilon` of the old one and the counter grows by 2 |
| RegexNfa.Regex.FromSymbol | src/regex.rs:376-393 | the state becomes `Thompson.FromSymbol` and the counter grows by 2 |
| RegexNfa.Regex.CharacterClass | src/regex.rs:255-271 | the state becomes `Thompson.CharacterClass` and the counter grows by 2 |
| RegexNfa.Regex.AddClassTransitions | src/regex.rs:265-268 | one edge per character, in order, as `AddClassEdges` |
| RegexNfa.Regex.Asterisk | src/regex.rs:404-424 | the state becomes `Star` of the old one and the counter grows by 2 |
| RegexNfa.Regex.Plus | src/regex.rs:447-466 | the state becomes `Thompson.Plus` and the counter grows by 2 |
| RegexNfa.Regex.Question | src/regex.rs:426-445 | the state becomes `Thompson.Question` and the counter grows by 2 |
| RegexNfa.Regex.Concat | src/regex.rs:468-475 | the state becomes `Thompson.Concat` |
| RegexNfa.Regex.Union | src/regex.rs:477-498 | the state becomes `Thompson.Union` and the counter grows by 2 |
| RegexNfa.Regex.Add | src/regex.rs:219-235 | the arena becomes `Thompson.Add` of the old one, the counter grows by the copy's length, and start and end are unchanged |
| RegexNfa.Regex.ShiftNode | src/regex.rs:222-233 | the loops over the cloned map and list give exactly `Shift` of the node |
| RegexNfa.Regex.Repetition | src/regex.rs:63-163 | the four bound branches leave the arena and counter `Repeat` describes |
| RegexNfa.Regex.Copies | src/regex.rs:115-127 | a `while dup < bound - 1` loop leaves the stage `Chain` describes |
| RegexNfa.Regex.LinkCopy | src/regex.rs:71-77 | one pass leaves the corrected stage `Link` describes |
| RegexNfa.Regex.StopCopies | src/regex.rs:78-88 | the closing copy and fresh end leave the stage `Finish` describes |
| RegexNfa.Regex.RepeatOpenEnded | src/regex.rs:92-111 | `{n,}` leaves the stage `OpenEnded` describes |
| RegexNfa.Regex.OpenCopies | src/regex.rs:93-100 | the `{n,}` copy loop leaves the `Chain` stage and remembers the start of the last copy |
| RegexNfa.Regex.OpenEnd | src/regex.rs:102-109 | a fresh accepting end is pushed; the old end stops accepting and leads to it and back to the last copy |
| RegexNfa.Regex.Search | src/regex.rs:513-536 | `search` answers exactly whether the pattern's automaton accepts the word |
| RegexNfa.BuildFromStep | src/regex.rs:32-199 | where the token loop succeeds, each token succeeds and the loop continues from its result |
| Simulation.AddNextState | src/regex.rs:500-511 | the visited list stays duplicate-free and grows only by states reachable by epsilon edges; the states appended to `next` are exactly the expanded states without epsilon edges |
| Simulation.FreshCallGivesFrontier | src/regex.rs:500-511 | a call that starts with nothing visited appends exactly the epsilon frontier of the state |
| Simulation.StepAll | src/regex.rs:522-532 | one symbol step reaches exactly the states `Step` describes |
| Simulation.Search | src/regex.rs:513-536 | the set walk answers exactly `Accepts`: some state reached after the word is accepting |
| PointerNfa.Nfa.constructor | rust_regex/src/main.rs:49-88 | `NFA::new` leaves the arena `Build` describes, with the epsilon fragment for the empty text |
| PointerNfa.Nfa.Apply | rust_regex/src/main.rs:60-84 | one token leaves the state `Feed` describes |
| PointerNfa.Nfa.FromEpsilon | rust_regex/src/main.rs:90-106 | the state becomes `Thompson.FromEpsilon` and the counter grows by 2 |
| PointerNfa.Nfa.FromSymbol | rust_regex/src/main.rs:108-125 | the state becomes `Thompson.FromSymbol` and the counter grows by 2 |
| PointerNfa.Nfa.AddEpsilonTransition | rust_regex/src/main.rs:127-131 | the arena becomes `AddEpsilon` of the old one; start and end are unchanged |
| PointerNfa.Nfa.AddTransition | rust_regex/src/main.rs:133-138 | the arena becomes `AddTransition` of the old one; start and end are unchanged |
| PointerNfa.Nfa.Closure | rust_regex/src/main.rs:140-165 | the state becomes `Star` of the old one and the counter grows by 2 |
| PointerNfa.Nfa.Concat | rust_regex/src/main.rs:167-176 | the state becomes `Thompson.Concat` |
| PointerNfa.Nfa.Union | rust_regex/src/main.rs:178-202 | the state becomes `Thompson.Union` and the counter grows by 2 |
| PointerNfa.Feed | rust_regex/src/main.rs:60-84 | a token fails iff the stack holds fewer operands than it pops; otherwise it pops them and pushes one fragment |
| PointerNfa.FeedAll | rust_regex/src/main.rs:59-85 | a successful loop over a non-empty text leaves a non-empty stack inside the arena |
| PointerNfa.FeedAllPrefix | rust_regex/src/main.rs:59-85 | a text that builds has every prefix build too |
| PointerNfa.StarFlags | rust_regex/src/main.rs:140-165 | after `closure` only the new end accepts among the new node and the old end |
| PointerNfa.UnionFlags | rust_regex/src/main.rs:178-202 | after `union` both old ends stop accepting and the new end accepts |
| PointerNfa.FeedAllKeepsInv | rust_regex/src/main.rs:59-85 | the loop keeps edges inside the arena, ids equal to indices, and the accepting nodes exactly the fragment ends |
| PointerNfa.BuildWellFormed | rust_regex/src/main.rs:49-88 | the built automaton has edges inside the arena; when one fragment is left, its end is the only accepting node |
| PointerExamples.StarLanguage | rust_regex/src/main.rs:257-267 | `a*` accepts exactly the words made only of `a`, the empty word included |
| PointerExamples.ConcatLanguage | rust_regex/src/main.rs:270-278 | `ab.` accepts exactly `ab` |
| PointerExamples.UnionLanguage | rust_regex/src/main.rs:280-289 | `ab\|` accepts exactly `a` and `b` |
| PointerExamples.StarConcatLanguage | rust_regex/src/main.rs:291-300 | `a*b.` accepts exactly some `a`s followed by one `b` |
| PointerExamples.NotBoth | rust_regex/src/main.rs:291-300 | no word of only `a`s is accepted by `a*b.` |
| RegexAgree.OperatorAgrees | src/regex.rs:34-42 | on a shared token the arena builder and the pointer builder take the same step |
| RegexAgree.BuildRegexAgrees | src/regex.rs:16-205 | on shared tokens `Regex::new` succeeds iff the pointer `NFA::new` does, and then builds the same automaton |
| RegexExamples.RegexAbLanguage | src/regex.rs:16-205 | `Regex::new("ab")` accepts exactly `ab` |
| RegexExamples.RegexAOrBLanguage | src/regex.rs:16-205 | `Regex::new("a\|b")` accepts exactly `a` and `b` |
| RegexExamples.RegexAStarBLanguage | src/regex.rs:16-205 | `Regex::new("a*b")` accepts exactly some `a`s followed by one `b` |
| RegexExamples.EmptyPatternLanguage | src/regex.rs:24-27 | the empty pattern builds the two-node epsilon fragment, which accepts only the empty word |
| RegexExamples.BaTwoReachesRepeat | src/regex.rs:43-68 | `ba{2}` reaches its repetition with bounds 2 and 2 and the fragment of `a` on top |
| RegexExamples.BaTwoLinksWrongCopy | src/regex.rs:74 | for `ba{2}` the first pass as written links another fragment than the copy of `a` |
| RegexExamples.BaTwoOrMoreLoopsWrong | src/regex.rs:95 | for `ba{2,}` the back edge as written goes to node 4, the copy of the start of `b`, where the copy of the start of `a` is node 6 |
| RegexExamples.InsertedATwoB | src/regex.rs:288-297 | `insert_concat` writes `a{2}b` back unchanged: no `.` follows the bound |
| RegexExamples.RepeatATwo | src/regex.rs:70-89 | `{2}` over `a` builds the seven-node arena: the copy of `a`, a dead copy and a fresh accepting end |
| RegexExamples.BuildATwo | src/regex.rs:16-205 | `Regex::new("a{2}")` builds exactly that arena |
| RegexExamples.RegexATwoLanguage | src/regex.rs:16-205 | `Regex::new("a{2}")` accepts exactly `aa` |
| ParseRegex.NestStep | src/parse_regex.rs:209-218 | one bracket step panics iff it reads a closer with an empty stack |
| ParseRegex.AsWrittenNeverPops | src/parse_regex.rs:206-245 | as written, the stack is exactly the openers read so far, and the scan panics iff a closer comes before any opener |
| ParseRegex.ZeroPipesAre | src/parse_regex.rs:226-245 | the listed positions are exactly, in ascending order, the `\|` characters read while the stack is empty |
| ParseRegex.ZeroPipesGrow | src/parse_regex.rs:226-245 | reading further only appends positions, and nothing after a panic |
| ParseRegex.PipeAfterGroupMissed | src/parse_regex.rs:213 | as written, `(a)\|b` still has `(` on the stack at the `\|` and finds no pipe; with popping it finds position 3 |
| ParseRegex.CheckPipe | src/parse_regex.rs:206-224 | with popping: `true` iff some top-level `\|` exists, `None` where the source panics, `false` otherwise |
| ParseRegex.FindPipes | src/parse_regex.rs:226-245 | with popping: the positions of the top-level `\|`, or `None` where the source panics |
| ParseRegex.SplitPipes | src/parse_regex.rs:55-80 | the pieces joined with `\|` give back the pattern, and the cuts are exactly the top-level `\|` positions |
| ParseRegex.CutsDetermine | src/parse_regex.rs:55-80 | pieces are determined by their joined text and cut positions |
| ParseRegex.ExamplePipes | src/parse_regex.rs:360-364 | in `a(b\|c)d\|\|e` the top-level pipes are at 7 and 8 |
| ParseRegex.SplitPipesEmptyPiece | src/parse_regex.rs:360-364 | any split of `a(b\|c)d\|\|e` at its top-level pipes is `["a(b\|c)d", "", "e"]` |
| ParseRegex.SplitPipesVec | src/parse_regex.rs:81-95 | the groups joined with `"\|"` give back the parts; no group holds `"\|"`; there is one group more than `"\|"` parts |
| ParseRegex.FindClose | src/parse_regex.rs:177-203 | a found match lies after the start and holds the closer of the bracket at the start |
| ParseRegex.FindParenMatch | src/parse_regex.rs:177-203 | the loop returns exactly `FindClose` with popping, `None` where the source panics |
| ParseRegex.MatchIsBalanced | src/parse_regex.rs:177-203 | with popping, the match from an opener is the first position where all brackets opened from it are closed, and `None` iff there is none |
| ParseRegex.AsWrittenMatch | src/parse_regex.rs:188-200 | as written, the match from an opener is the first closer met while no second bracket is open |
| ParseRegex.NestedGroupPanics | src/parse_regex.rs:188-202 | as written, `(a(b)c)` panics; with popping its match is at 6 |
| ParseRegex.FindFrom | src/parse_regex.rs:122-125 | the first position of the character at or after the start, or `None` when there is none |
| ParseRegex.AtomEnd | src/parse_regex.rs:105-116 | an atom is non-empty and ends inside the text |
| ParseRegex.QuantifierEnd | src/parse_regex.rs:117-131 | the quantifier lies inside the text after the atom |
| ParseRegex.ReadAtom | src/parse_regex.rs:103-116 | the first half of a round ends where `AtomEnd` says and reads exactly that text |
| ParseRegex.ReadQuantifier | src/parse_regex.rs:117-131 | the second half of a round ends where `QuantifierEnd` says and reads exactly that text |
| ParseRegex.SplitToParts | src/parse_regex.rs:97-135 | the loop returns exactly `PartsFrom` the start |
| ParseRegex.PartsJoin | src/parse_regex.rs:97-135 | the parts written one after another give back the text, and every part is non-empty |
| ParseRegex.SplitStars | src/parse_regex.rs:289-294 | `a*b+` splits into `a*` and `b+` |
| ParseRegex.SplitQuestion | src/parse_regex.rs:304-309 | `a?b` splits into `a?` and `b` |
| ParseRegex.SplitCounted | src/parse_regex.rs:339-343 | `a{1,2}b` splits into `a{1,2}` and `b` |
| ParseRegex.SplitEscapedLetter | src/parse_regex.rs:311-316 | `a\w` splits into `a` and `\w` |
| ParseRegex.SplitEscaped | src/parse_regex.rs:318-337 | an escaped `*`, `(` or backslash stays one two-character part |
| ParseRegex.SplitGroup | src/parse_regex.rs:275-280 | `a(b\|c)d` splits into `a`, `(b\|c)` and `d` |
| ParseRegex.SplitLazyGroup | src/parse_regex.rs:296-302 | a group keeps its quantifier and lazy mark: `a(b\|c)*?` splits into `a` and `(b\|c)*?` |
| ParseRegex.SplitPipeAfterGroup | src/parse_regex.rs:282-287 | `a(b\|c)*d\|e` splits into `a`, `(b\|c)*`, `d`, `\|`, `e` |
| ParseRegex.RangeSet | src/parse_regex.rs:254-256 | the set holds exactly the characters from `x` to `y` |
| ParseRegex.ProcessCharacterClass | src/parse_regex.rs:247-267 | the loop returns exactly `ClassOptions`, reading a range `x-y` as one item |
| ParseRegex.NoDashClass | src/parse_regex.rs:247-267 | without `-`, both readings admit exactly the class's characters other than `]` |
| ParseRegex.OneRange | src/parse_regex.rs:253-258 | the range `x-y` admits exactly the characters from `x` to `y` |
| ParseRegex.TrailingRangeMissed | src/parse_regex.rs:253 | as written, `a-z` admits only `a`, `-` and `z`; corrected it admits `b` |
| ParseRegex.RangeDashAdmitted | src/parse_regex.rs:252-263 | as written, `a-z0` admits the range and also `-`; corrected it does not admit `-` |
| ParseRegex.PartToToken | src/parse_regex.rs:140-168 | one round returns exactly `PartToken` of the part |
| ParseRegex.PartsToToken | src/parse_regex.rs:137-171 | the loop returns exactly `PartsToTokens` |
| ParseRegex.Tokenize | src/parse_regex.rs:173-175 | `tokenize` returns exactly `Tokenized` |
| ParseRegex.TokenShape | src/parse_regex.rs:19-40 | a token is never `Pipe`; a normal token is one character or a backslash and one; a group has empty text; a class has text `""` or `^`; the quantifier is a proper suffix of the part |
| ParseRegex.TokenizeRoundTrip | src/parse_regex.rs:137-175 | for a text without classes, the tokens rendered back give the text |
| ParseRegex.PartsRoundTrip | src/parse_regex.rs:137-171 | the tokens of class-free parts render back to the parts written one after another |
| ParseRegex.TokenizePlain | src/parse_regex.rs:366-376 | `abc*de` gives five normal tokens, the third with quantifier `*` |
| ParseRegex.TokenizeGroup | src/parse_regex.rs:378-388 | `a(bc)*d` gives `a`, a starred group of `b` and `c`, and `d` |
| ParseRegex.NegatedClassToken | src/parse_regex.rs:149-158 | `[^a-c]+` gives a class token with text `^`, the characters `a` to `c` and quantifier `+` |
| ParseRegex.RFind | src/parse_regex.rs:44 | the last position holding `/`, or `None` when there is none |
| ParseRegex.ProcessRegex | src/parse_regex.rs:42-53 | on success the text between index 1 and the last `/` is tokenized and the flags are exactly the characters after it; it succeeds whenever such a `/` exists past index 0 and the body tokenizes |
| Automata.NfaNode.constructor | src/automata.rs:46-52 | a non-terminal node with the given id and no paths |
| Automata.NfaNode.Value | src/automata.rs:54-60 | `clone` copies all three fields |
| Automata.NfaNode.IsDfa | src/automata.rs:62-69 | true iff no symbol labels two paths and no path is an epsilon (`'\0'`) path |
| Automata.NfaNode.AddPath | src/automata.rs:71-73 | the path is appended and repeated symbols are kept; id and flag are unchanged |
| Automata.AddPathDeterministic | src/automata.rs:62-73 | adding a path keeps a node deterministic iff its symbol is new and not epsilon |
| Automata.AddSymbols | src/automata.rs:35-39 | the alphabet gains exactly the symbols of the paths and loses nothing |
| Automata.Nfa.constructor | src/automata.rs:19-26 | exactly one node, id 0, non-terminal and without paths; the alphabet is empty |
| Automata.NewNfaFront | src/automata.rs:19-30 | `get_front` on a freshly built NFA returns node 0, non-terminal and without paths |
| Automata.Nfa.GetFront | src/automata.rs:28-30 | the node with id 0 when there is one |
| Automata.Nfa.AddNode | src/automata.rs:32-40 | the node is stored under its id, replacing an old one; the alphabet gains its symbols |
| Automata.FirstTarget | src/automata.rs:188-200 | the target of the first path labelled with the symbol, `None` iff no path has that label |
| Automata.DfaNode.constructor | src/automata.rs:168-174 | a non-terminal node with the given id and no paths |
| Automata.DfaNode.From | src/automata.rs:188-200 | id and flag are copied; each symbol keeps the target of its first path, and later duplicates are dropped |
| Automata.DfaNode.AddPath | src/automata.rs:184-186 | the path on the symbol now leads to the new target, overwriting an earlier one |
| Automata.FirstTargetSnoc | src/automata.rs:188-200 | appending a path changes the first target only of a symbol that had none |
| Automata.Dfa.constructor | src/automata.rs:92-99 | no nodes and an empty alphabet |
| Automata.Dfa.GetFront | src/automata.rs:101-103 | the node with id 0 when there is one |
| Automata.Dfa.GetNode | src/automata.rs:114-116 | the node stored under the id when there is one |
| Automata.Dfa.AddNode | src/automata.rs:105-112 | the node is stored under its id; the alphabet gains its symbols and loses nothing |
| Automata.Dfa.Matches | src/automata.rs:154-164 | the loop answers exactly the walk from node 0: `false` at the first symbol without a path, otherwise the flag of the node reached |
| Automata.Follow | src/automata.rs:202-204 | the target is the one stored for the symbol |
| Automata.ClosedWalkDefined | src/automata.rs:154-164 | in a table whose paths all lead to stored nodes, the walk never hits a missing node |
| Automata.WalkAppend | src/automata.rs:154-164 | walking `u + v` is walking `v` from where `u` leads; a rejected prefix rejects the whole word |
| Automata.RejectsAtMissingPath | src/automata.rs:157-161 | a first symbol without a path rejects every word that starts with it |

## Left out

- `src/lib.rs`, `src/steps.rs` and `src/main.rs` are not part of this model. They hold file I/O and printing, unimplemented stages, and the program entry point.
- `main` in rust_regex/src/main.rs:248-251 is an entry point only.
- `DFA::display` and `to_string` (src/automata.rs:123-151) format output with terminal colours and hash-map order. `get_node_mut` (src/automata.rs:118-121) only hands out a mutable reference.
- The `regex` and `flags` fields of `NFA` and `DFA` are not modelled; nothing in the core reads them.
- The getters `all_nodes`, `start` and `end` (src/regex.rs:207-217) are plain field reads.
- `duplicate` (src/regex.rs:237-253) is not modelled: nothing calls it.
- The `println!` at src/regex.rs:164 is not modelled; that line is unreachable, since the four bound cases cover every bound pair.
- Raw pointers in rust_regex/src/main.rs and the `&'static i8` references in src/automata.rs are modelled as arena indices and ids. Memory safety, aliasing and the dangling pointers of a growing vector are not modelled.
- Characters are opaque ordered symbols. Unicode and byte-versus-character indexing are not modelled: the tokenizer assumes ASCII.
- `i8` ids in src/automata.rs are modelled as the range -128..127. The `i32` id counters of the builders are unbounded `int`s, so their overflow is not modelled.
- Panics become `None` results where a function can fail. Where a method needs a fragment that exists, they become preconditions: an empty stack pop, `unwrap` of a missing node, an unclosed `[` or `{`, a non-digit bound.
- RegexNfa.Regex.constructor: requires that `NewRegex` succeeds instead of modelling the panics of `Regex::new`.
- PointerNfa.Nfa.constructor: requires that the postfix text never pops an empty stack instead of modelling that panic.
- Automata.Dfa.Matches: requires that the walk never follows a path to a missing node, where the source unwraps.
- Simulation.Search: requires well-formed edges; the builders are proved to produce them (`BuildRegexWellFormed`, `BuildWellFormed`).
- The repetition handling of `Regex::new` is modelled as written in everything except the copy it links and the node `{n,}` loops back to (see Findings). Its other oddities are kept, not corrected: `{n}` adds one more copy on a dead branch, `{0}` still needs one copy, and `{,m}` makes its start accepting.
- RegexBuild.OpenEnded: loops back to the copy of the quantified fragment's start (`LoopTarget`), not to the copy of node 0 that src/regex.rs:95 remembers; the as-written target is `RegexBuild.AsWrittenLoopTarget`, and the two agree when the fragment starts at node 0 (`RegexBuild.AsWrittenLoopNeedsStartZero`).
- RegexBuild.Repeat: links the copy of the quantified fragment and, for `{n,}`, loops back to the copy of its start, where the source uses the fragment after the current end and the copy of node 0 (see Findings); `RegexBuild.AsWrittenRepeat` is the as-written version, equal to it when the fragment is the whole arena (`RegexBuild.AsWrittenRepeatWholeArena`).
- RegexNfa.Regex.Repetition: leaves the corrected stage `Repeat` describes, not the as-written one, for the reasons given for `RegexBuild.Repeat`.
- RegexNfa.Regex.RepeatOpenEnded: leaves the corrected stage `OpenEnded` describes, with the back edge to the copy of the fragment's start rather than to the copy of node 0.
- RegexNfa.Regex.OpenCopies: remembers the copy of the start of the quantified fragment in the last copy (`LoopTarget`), where src/regex.rs:95 remembers the arena length before that copy.
- `HashSet::push` at src/parse_regex.rs:262 is read as `insert`.
- The test at src/parse_regex.rs:391-400 is not modelled: its expected set has the wrong element type and its last token does not match its input.
- `test_all` at rust_regex/src/main.rs:302-312 is not modelled: it has no test marker, and its bar is U+2223 rather than `|`, so the text is not the union it names.
- ParseRegex.TokenizeRoundTrip: covers only texts without `[`, because a class token keeps its character set and not its text.
- ParseRegex.SplitToParts and ParseRegex.PartToToken use the corrected `find_paren_match`; the as-written scan is modelled separately (see Findings).
- ParseRegex.ProcessRegex: the flags are returned as a set and not used further, as in the source.

## Findings

| source | as written | input that shows it | evidently intended | confidence | as-written member | corrected member |
|---|---|---|---|---|---|---|
| src/regex.rs:74 | each pass of the `{..}` loops links the fragment taken to begin right after the current end and to be as long as the quantified fragment; the appended copy is of the whole arena, so that fragment is the copy only when the quantified fragment starts at node 0 (same at lines 80, 97, 117, 123, 130, 145, 152). Likewise `{n,}` loops back to the arena length before the last copy (lines 93 and 95), which is the copy of node 0, not of the quantified fragment's start | `ba{2}`: the fragment of `a` starts at node 2, and the first pass links part of the copy of `b`; `ba{2,}`: the back edge goes to node 4, the copy of the start of `b`, instead of node 6 | link the copy of the quantified fragment, and loop back to the copy of its start, both at the fragment's own indices moved by the old arena length | high; not executed | RegexBuild.AsWrittenLinkNeedsStartZero, RegexExamples.BaTwoLinksWrongCopy, RegexBuild.AsWrittenLoopNeedsStartZero, RegexExamples.BaTwoOrMoreLoopsWrong | RegexBuild.LinkCopiesFragment, RegexNfa.Regex.LinkCopy, RegexBuild.LoopTargetIsCopyOfStart |
| src/parse_regex.rs:194 | `find_paren_match`, `check_pipe` and `find_pipes` compare a closer with the stored opener itself, so no closer ever pops the stack (same at lines 197, 213, 216, 234, 237) | `(a)\|b`: `check_pipe` is false and `find_pipes` is empty; `(a(b)c)`: `find_paren_match` panics | pop when the closer matches the opener on top, as `split_pipes` does at lines 69-72 | high; not executed | ParseRegex.PipeAfterGroupMissed, ParseRegex.NestedGroupPanics | ParseRegex.FindPipes, ParseRegex.MatchIsBalanced |
| src/parse_regex.rs:253 | the range test needs more than three characters left, so a range at the end of the class is not expanded; `continue` does not skip the `-` and the upper bound, so a range also admits `-` | `a-z` (the class `[a-z]`) admits only `a`, `-`, `z`; `a-z0` admits `-` | a range `x-y` anywhere admits exactly `x` to `y`, and the next two characters are consumed | high; not executed | ParseRegex.TrailingRangeMissed, ParseRegex.RangeDashAdmitted | ParseRegex.OneRange, ParseRegex.ProcessCharacterClass |
