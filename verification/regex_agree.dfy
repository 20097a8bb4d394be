/** The two builder drafts agree where their token sets overlap: on a
    postfix text without `+`, `?`, classes and bounds, the token loop of
    `Regex::new` builds the very arena the pointer-based `NFA::new` builds. */
module RegexAgree {
  import opened Wrappers
  import opened Thompson
  import PointerNfa
  import RegexBuild

  /** The tokens both builders read the same way. */
  predicate Shared(c: char)
  {
    c != '{' && c != '[' && c != '+' && c != '?'
  }

  /** The pointer builder's loop, unfolded from the left. */
  lemma {:induction false} FeedAllCons(b: Builder, c: char, rest: string)
    requires StackIn(b.stack, b.arena.nodes)
    ensures PointerNfa.FeedAll(b, [c] + rest) ==
      match PointerNfa.Feed(b, c)
      case None => None
      case Some(b') => PointerNfa.FeedAll(b', rest)
    decreases |rest|
  {
    if |rest| == 0 {
      assert [c] + rest == [c];
      assert [c][..0] == [];
    } else {
      var init := rest[..|rest| - 1];
      var last := rest[|rest| - 1];
      assert ([c] + rest)[..|[c] + rest| - 1] == [c] + init;
      assert ([c] + rest)[|[c] + rest| - 1] == last;
      FeedAllCons(b, c, init);
    }
  }

  /** One shared token builds the same fragment in both drafts. */
  lemma OperatorAgrees(b: Builder, c: char)
    requires RegexBuild.Shape(b) && Shared(c)
    ensures RegexBuild.Operator(b, c) == PointerNfa.Feed(b, c)
  {
  }

  /** The token loop from `i` on agrees with the pointer builder's loop
      over the rest of the text. */
  lemma {:induction false} BuildFromAgrees(b: Builder, p: string, i: nat)
    requires RegexBuild.Shape(b) && i <= |p|
    requires forall k :: i <= k < |p| ==> Shared(p[k])
    ensures RegexBuild.BuildFrom(b, p, i) == PointerNfa.FeedAll(b, p[i..])
    decreases |p| - i
  {
    if i < |p| {
      OperatorAgrees(b, p[i]);
      assert p[i..] == [p[i]] + p[i + 1..];
      FeedAllCons(b, p[i], p[i + 1..]);
      if RegexBuild.Operator(b, p[i]).Some? {
        BuildFromAgrees(RegexBuild.Operator(b, p[i]).value, p, i + 1);
      }
    }
  }

  /** On shared tokens `Regex::new` succeeds exactly when `NFA::new` does,
      and both build the same automaton. */
  lemma BuildRegexAgrees(p: string)
    requires forall k :: 0 <= k < |p| ==> Shared(p[k])
    ensures RegexBuild.BuildRegex(p).Some? <==> PointerNfa.Builds(p)
    ensures PointerNfa.Builds(p) ==> RegexBuild.BuildRegex(p).value == PointerNfa.Build(p)
  {
    if p != "" {
      BuildFromAgrees(Init(), p, 0);
      assert p[0..] == p;
    }
  }
}
