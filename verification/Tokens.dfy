/** The token source on top of the lexer (`slex_functor::get` of server/p4l/lexer.h). */
module Tokens {
  import opened Regex
  import opened Simulation
  import opened Dfas
  import opened Generator
  import opened Lexers
  import opened Runs

  // ----- declarative longest match -----

  ghost predicate SomeRuleMatches(g: Grammar, w: Bytes)
    requires AllParsed(g.list)
  {
    exists i :: 0 <= i < |g.list| && RuleMatches(Rules(g.list)[i], w, g.ci)
  }

  /** Length of the longest nonempty prefix in some rule's language, 0 if there is none. */
  ghost function BestLength(g: Grammar, rest: Bytes): (k: nat)
    requires AllParsed(g.list)
    ensures k <= |rest|
    ensures k > 0 ==> SomeRuleMatches(g, rest[..k])
    ensures forall j :: k < j <= |rest| ==> !SomeRuleMatches(g, rest[..j])
  {
    if rest == [] then 0
    else if SomeRuleMatches(g, rest) then
      assert rest[..|rest|] == rest;
      |rest|
    else
      var init := rest[..|rest| - 1];
      assert forall j :: 0 <= j < |rest| ==> init[..j] == rest[..j];
      assert rest[..|rest|] == rest;
      BestLength(g, init)
  }

  /** Token id of the first rule whose language contains `w`. */
  ghost function FirstToken(g: Grammar, w: Bytes): int
    requires GrammarOk(g)
  {
    var i := Verdict(g.dfa, w);
    if i == -1 then -1 else
      assert FirstRule(Rules(g.list), w, g.ci, i);
      g.list[i].token
  }

  lemma LongestIsBest(g: Grammar, rest: Bytes, k: nat, i: int)
    requires GrammarOk(g) && LongestMatch(Rules(g.list), rest, g.ci, k, i)
    ensures k == BestLength(g, rest) && i < |g.list| && FirstToken(g, rest[..k]) == g.list[i].token
  {
    FirstRuleIsUnique(Rules(g.list), rest[..k], g.ci, i, Verdict(g.dfa, rest[..k]));
    NoneLonger(g, rest, k);
    assert RuleMatches(Rules(g.list)[i], rest[..k], g.ci);
    assert SomeRuleMatches(g, rest[..k]);
  }

  lemma NoneLonger(g: Grammar, rest: Bytes, k: nat)
    requires AllParsed(g.list)
    requires forall j :: k < j <= |rest| ==> FirstRule(Rules(g.list), rest[..j], g.ci, -1)
    ensures forall j :: k < j <= |rest| ==> !SomeRuleMatches(g, rest[..j])
  {
  }

  lemma NoMatchIsZero(g: Grammar, rest: Bytes)
    requires AllParsed(g.list) && NoMatch(Rules(g.list), rest, g.ci)
    ensures BestLength(g, rest) == 0
  {
    NoneLonger(g, rest, 0);
  }

  // ----- what the matcher finds -----

  /** The text buffer: every byte the matcher looked at, also past the accepted slice. */
  ghost function Scanned(g: Grammar, rest: Bytes): Bytes
    requires GrammarOk(g)
  {
    rest[..ScanLength(g.dfa, rest)]
  }

  /** The id that `get` gives to the match at `rest`: end of file when nothing matches. */
  ghost function MatchId(g: Grammar, tEof: int, rest: Bytes): int
    requires GrammarOk(g)
  {
    var id := if BestLength(g, rest) == 0 then -1 else FirstToken(g, rest[..BestLength(g, rest)]);
    if id == -1 then tEof else id
  }

  ghost function TheMatch(g: Grammar, c: Config, rest: Bytes): (m: Match)
    requires GrammarOk(g)
    ensures m.len <= |rest| && (m.len == 0 ==> m.id == c.tEof)
  {
    Match(BestLength(g, rest), MatchId(g, c.tEof, rest), Scanned(g, rest))
  }

  ghost function Matcher(g: Grammar, c: Config): (o: Oracle)
    requires GrammarOk(g) && c.tEof != c.tContline
    ensures OracleOk(c, o) && forall rest :: o(rest) == TheMatch(g, c, rest)
  {
    rest => TheMatch(g, c, rest)
  }

  /** `grammar` is the compiled lexer that `init_lexer` leaves behind; it no longer changes. */
  class SlexFunctor {
    const input: Bytes
    var first: nat
    var atEof: bool
    const grammar: Grammar
    const config: Config

    ghost predicate Valid()
      reads this
    {
      first <= |input| && GrammarOk(grammar) && config.tEof != config.tContline
    }

    constructor (input: Bytes, grammar: Grammar, config: Config)
      requires GrammarOk(grammar) && config.tEof != config.tContline
      ensures Valid() && this.input == input && first == 0 && !atEof && this.grammar == grammar && this.config == config
    {
      this.input, this.first, this.atEof, this.grammar, this.config := input, 0, false, grammar, config;
    }

    method Get() returns (result: Token)
      requires Valid()
      modifies this
      ensures Valid()
      ensures old(atEof) ==> result == Token(config.tEoi, []) && first == old(first) && atEof
      ensures !old(atEof) ==>
        Step(result, input[first..], atEof) == Next(config, Matcher(grammar, config), old(input[first..]))
    {
      hide TheMatch, Implements, Tracks, Bounded, OracleOk;
      if atEof {
        return Token(config.tEoi, []);
      }
      ghost var o := Matcher(grammar, config);
      while true
        invariant first <= |input| && !atEof
        invariant Next(config, o, input[first..]) == Next(config, o, old(input[first..]))
        decreases |input| - first
      {
        ghost var rest, start := input[first..], first;
        var id, next, value := ScanOne(grammar, config, input, first);
        assert input[next..] == rest[next - start..];
        NextUnfolds(config, o, rest);
        first := next;
        if config.emitContlines || config.tContline != id {
          if id == config.tEof {
            atEof := true;
            value := [];
          }
          return Token(id, CStr(value));
        }
      }
    }
  }

  /** `next_token` with an empty buffer, and -1 turned into the end-of-file id. */
  method ScanOne(g: Grammar, c: Config, input: Bytes, first: nat) returns (id: int, next: nat, value: Bytes)
    requires GrammarOk(g) && first <= |input| && c.tEof != c.tContline
    ensures first <= next <= |input| && TheMatch(g, c, input[first..]) == Match(next - first, id, value)
  {
    hide Implements, Tracks, Bounded, ScanLength, BestLength, FirstToken, NoMatch, LongestMatch;
    id, next, value := MatchToken(g, input, first, []);
    StepFacts(g, c.tEof, input[first..], next - first, id);
    if id == -1 {
      id := c.tEof;
    }
  }

  /** One match of the lexer, in terms of the declarative functions. */
  lemma StepFacts(g: Grammar, tEof: int, rest: Bytes, k: nat, id: int)
    requires GrammarOk(g) && IsNextToken(g, rest, k, id)
    ensures k == BestLength(g, rest) && MatchId(g, tEof, rest) == if id == -1 then tEof else id
  {
    if k > 0 {
      var i :| LongestMatch(Rules(g.list), rest, g.ci, k, i) && i < |g.list| && id == g.list[i].token;
      LongestIsBest(g, rest, k, i);
    } else {
      NoMatchIsZero(g, rest);
    }
  }

  /** When every single byte is a word of some rule and no rule carries the id of the end of
      file, the slices that the calls consume are the whole input. */
  lemma EveryByteIsTokenised(g: Grammar, c: Config, input: Bytes)
    requires GrammarOk(g) && c.tEof != c.tContline
    requires forall b: Byte :: SomeRuleMatches(g, [b])
    requires forall i :: 0 <= i < |g.list| ==> g.list[i].token != -1 && g.list[i].token != c.tEof
    ensures Flatten(Slices(c, Matcher(g, c), input)) == input
  {
    var o := Matcher(g, c);
    forall r: Bytes | r != [] ensures o(r).len > 0 && o(r).id != c.tEof {
      BestIsAToken(g, r);
    }
    NothingIsDropped(c, o, input);
  }

  lemma BestIsAToken(g: Grammar, r: Bytes)
    requires GrammarOk(g) && r != [] && SomeRuleMatches(g, [r[0]])
    ensures var k := BestLength(g, r); k > 0 && exists i :: 0 <= i < |g.list| && FirstToken(g, r[..k]) == g.list[i].token
  {
    var k := BestLength(g, r);
    assert r[..1] == [r[0]];
    var i := Verdict(g.dfa, r[..k]);
    assert FirstRule(Rules(g.list), r[..k], g.ci, i);
    assert i != -1;
  }

  /** Where no rule matches, and where the first matching rule carries the id -1, the tokens end; in
      the first case nothing is consumed, even if input is left. */
  lemma TokensEnd(g: Grammar, c: Config, rest: Bytes)
    requires GrammarOk(g) && c.tEof != c.tContline
    ensures BestLength(g, rest) == 0 ==> Next(c, Matcher(g, c), rest) == Step(Token(c.tEof, []), rest, true)
    ensures BestLength(g, rest) > 0 && FirstToken(g, rest[..BestLength(g, rest)]) == -1 ==>
      Next(c, Matcher(g, c), rest) == Step(Token(c.tEof, []), rest[BestLength(g, rest)..], true)
  {
    hide BestLength, FirstToken, Scanned;
    var o := Matcher(g, c);
    assert o(rest) == TheMatch(g, c, rest);
    NextUnfolds(c, o, rest);
    assert rest[0..] == rest;
  }

  // ----- the text buffer -----

  /** The consumed slice is always a prefix of the text buffer. */
  lemma SliceIsPrefixOfText(g: Grammar, rest: Bytes)
    requires GrammarOk(g)
    ensures rest[..BestLength(g, rest)] <= Scanned(g, rest)
  {
    var k := BestLength(g, rest);
    if k > 0 {
      assert FirstRule(Rules(g.list), rest[..k], g.ci, Verdict(g.dfa, rest[..k]));
      assert Walk(g.dfa, rest[..k]) != INVALID_NODE;
    }
    assert k <= ScanLength(g.dfa, rest);
  }

  /** No class of any rule is empty. */
  ghost predicate AllSatisfiable(g: Grammar)
    requires AllParsed(g.list)
  {
    Satisfiable(g.list)
  }

  /** `w` begins a word of some rule. */
  ghost predicate Continues(g: Grammar, w: Bytes)
    requires AllParsed(g.list)
  {
    exists longer :: w <= longer && SomeRuleMatches(g, longer)
  }

  lemma ContinuesIsViable(g: Grammar, w: Bytes)
    requires AllParsed(g.list)
    ensures Continues(g, w) <==> Viable(g.list, w, g.ci)
  {
    if Continues(g, w) {
      var longer :| w <= longer && SomeRuleMatches(g, longer);
      var i :| 0 <= i < |g.list| && RuleMatches(Rules(g.list)[i], longer, g.ci);
      assert Extends(g.list, g.ci, i, w, longer);
    }
    if Viable(g.list, w, g.ci) {
      var i, v :| 0 <= i < |g.list| && Extends(g.list, g.ci, i, w, v);
      assert SomeRuleMatches(g, v);
    }
  }

  /** The text is the longest prefix of the input after which some rule goes on; for rules without
      empty classes, the longest one that begins a word of some rule. */
  lemma TextIsLongestBeginning(g: Grammar, rest: Bytes, n: nat)
    requires GrammarOk(g) && n <= |rest|
    ensures n <= |Scanned(g, rest)| <==> GoesOn(g.list, rest[..n], g.ci)
    ensures AllSatisfiable(g) ==> (n <= |Scanned(g, rest)| <==> Continues(g, rest[..n]))
  {
    hide RuleMatches, Viable, Continues, GoesOn, Satisfiable;
    AliveIsViable(g.dfa, g.list, g.ci, rest[..n]);
    ContinuesIsViable(g, rest[..n]);
    var m := ScanLength(g.dfa, rest);
    if n <= m && Walk(g.dfa, rest[..n]) == INVALID_NODE {
      assert rest[..n] <= rest[..m];
      WalkDead(g.dfa, rest[..n], rest[..m]);
    }
  }

  lemma ScannedIsPrefix(g: Grammar, rest: Bytes) returns (m: nat)
    requires GrammarOk(g)
    ensures m <= |rest| && Scanned(g, rest) == rest[..m]
  {
    m := ScanLength(g.dfa, rest);
  }

  lemma PrefixesAgree(s: Bytes, m: nat, k: nat)
    requires k <= m <= |s|
    ensures s[..m] == s[..k] <==> m < k + 1
  {
    assert |s[..m]| == m && |s[..k]| == k;
  }

  /** Text and slice agree exactly when the slice ends the input or no rule goes on after the slice
      and the next byte, which without empty classes means that no word of any rule begins with
      them; otherwise the text holds bytes of the next token. */
  lemma TextIsSlice(g: Grammar, rest: Bytes)
    requires GrammarOk(g)
    ensures var k := BestLength(g, rest);
      && (Scanned(g, rest) == rest[..k] <==> k == |rest| || !GoesOn(g.list, rest[..k + 1], g.ci))
      && (AllSatisfiable(g) ==> (Scanned(g, rest) == rest[..k] <==> k == |rest| || !Continues(g, rest[..k + 1])))
  {
    var k := BestLength(g, rest);
    SliceIsPrefixOfText(g, rest);
    var m := ScannedIsPrefix(g, rest);
    if k < |rest| {
      TextIsLongestBeginning(g, rest, k + 1);
    }
    hide *;
    PrefixesAgree(rest, m, k);
  }

  /** The value that a token is given, the text up to its first NUL, is the slice exactly when the
      slice holds no NUL and ends the input, is followed by a NUL, or has no rule going on after
      the next byte. */
  lemma ValueIsSlice(g: Grammar, rest: Bytes)
    requires GrammarOk(g)
    ensures var k := BestLength(g, rest);
      CStr(Scanned(g, rest)) == rest[..k] <==>
        0 !in rest[..k] && (k == |rest| || rest[k] == 0 || !GoesOn(g.list, rest[..k + 1], g.ci))
    ensures var k := BestLength(g, rest);
      AllSatisfiable(g) ==> (CStr(Scanned(g, rest)) == rest[..k] <==>
        0 !in rest[..k] && (k == |rest| || rest[k] == 0 || !Continues(g, rest[..k + 1])))
  {
    var k := BestLength(g, rest);
    SliceIsPrefixOfText(g, rest);
    TextIsSlice(g, rest);
    var m := ScannedIsPrefix(g, rest);
    hide *;
    CutText(rest, m, k);
  }

  lemma CutText(s: Bytes, m: nat, k: nat)
    requires k <= m <= |s|
    ensures CStr(s[..m]) == s[..k] <==> 0 !in s[..k] && (m == k || s[k] == 0)
    ensures s[..m] == s[..k] <==> m == k
  {
    PrefixesAgree(s, m, k);
    var t := s[..m];
    assert t[..k] == s[..k];
    if 0 !in s[..k] && (m == k || s[k] == 0) {
      CutAt(t, k);
    }
  }

  lemma {:induction false} CutAt(t: Bytes, k: nat)
    requires k <= |t| && 0 !in t[..k] && (k == |t| || t[k] == 0)
    ensures CStr(t) == t[..k]
  {
    if k > 0 {
      assert t[0] == t[..k][0];
      assert t[1..][..k - 1] == t[..k][1..];
      CutAt(t[1..], k - 1);
      assert t[..k] == [t[0]] + t[1..][..k - 1];
    }
  }

  /** One half needs no condition on the rules. */
  lemma TextOvershoots(g: Grammar, rest: Bytes, longer: Bytes)
    requires GrammarOk(g)
    requires BestLength(g, rest) < |rest| && rest[..BestLength(g, rest) + 1] <= longer && SomeRuleMatches(g, longer)
    ensures rest[..BestLength(g, rest) + 1] <= Scanned(g, rest)
  {
    var v := rest[..BestLength(g, rest) + 1];
    assert FirstRule(Rules(g.list), longer, g.ci, Verdict(g.dfa, longer));
    if Walk(g.dfa, v) == INVALID_NODE {
      WalkDead(g.dfa, v, longer);
    }
  }

  /** Rules `a` and `abc` on the input `abd`: the slice is `a`, the text is longer. */
  lemma TextOvershootsExample(g: Grammar)
    requires GrammarOk(g) && !g.ci
    requires Rules(g.list) == [CharNode(97, 0), CatNode(CharNode(97, 0), CatNode(CharNode(98, 0), CharNode(99, 0)))]
    ensures BestLength(g, [97, 98, 100]) == 1 && [97, 98] <= Scanned(g, [97, 98, 100])
  {
    var input: Bytes := [97, 98, 100];
    var a, bc := Rules(g.list)[0], CatNode(CharNode(98, 0), CharNode(99, 0));
    assert input[..1] == [97] && input[..2] == [97, 98] && input[..3] == input;
    forall w: Bytes ensures RuleMatches(a, w, false) <==> w == [97] {
      RuleMatchesExactly(a, w);
    }
    forall w: Bytes ensures RuleMatches(Rules(g.list)[1], w, false) <==> w == [97, 98, 99] {
      RuleMatchesExactly(Rules(g.list)[1], w);
      LiteralAbc(w);
    }
    assert RuleMatches(Rules(g.list)[0], input[..1], g.ci);
    assert RuleMatches(Rules(g.list)[1], [97, 98, 99], g.ci);
    hide RuleMatches, ScanLength, Implements, Tracks;
    assert SomeRuleMatches(g, input[..1]) && SomeRuleMatches(g, [97, 98, 99]);
    assert !SomeRuleMatches(g, input[..2]) && !SomeRuleMatches(g, input[..3]);
    hide SomeRuleMatches;
    TextOvershoots(g, input, [97, 98, 99]);
  }

  lemma LiteralAbc(w: Bytes)
    ensures Matches(CatNode(CharNode(97, 0), CatNode(CharNode(98, 0), CharNode(99, 0))), w) <==> w == [97, 98, 99]
  {
    var a, b, c := CharNode(97, 0), CharNode(98, 0), CharNode(99, 0);
    if Matches(CatNode(a, CatNode(b, c)), w) {
      var k := CatElim(a, CatNode(b, c), w);
      var j := CatElim(b, c, w[k..]);
      assert w == w[..k] + (w[k..][..j] + w[k..][j..]);
    }
    if w == [97, 98, 99] {
      assert w[1..] == [98, 99] && w[1..][..1] == [98] && w[1..][1..] == [99] && w[..1] == [97];
      CatIntro(b, c, w[1..], 1);
      CatIntro(a, CatNode(b, c), w, 1);
    }
  }
}
