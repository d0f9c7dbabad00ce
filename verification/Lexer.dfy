/** The lexer object: registered rules, the compiled tables, `next_token`, saving and loading
    (class `lexer` and `init_lexer` of server/p4l/lexer.h). */
module Lexers {
  import opened Common
  import opened Regex
  import opened Simulation
  import opened Dfas
  import opened Tables
  import opened Overlays
  import opened Generator
  import opened TableFile

  // ----- matching with compiled tables -----

  /** The token that the tables of a rule list give for the start of `rest`, `k` bytes long. */
  ghost predicate IsTableToken(d: Dfa, list: seq<RegexInfo>, rest: Bytes, k: nat, token: int)
    requires WellFormed(d)
  {
    if k == 0 then token == -1 && NoVerdict(d, rest)
    else exists i :: 0 <= i < |list| && Longest(d, rest, k, i) && token == list[i].token
  }

  /** The part of `next_token` after the tables exist; they need not belong to the rules. */
  method MatchTables(d: Dfa, list: seq<RegexInfo>, input: Bytes, first: nat, text: Bytes)
    returns (token: int, first': nat, text': Bytes)
    requires WellFormed(d) && Bounded(d, |list|) && first <= |input|
    ensures first <= first' <= |input| && IsTableToken(d, list, input[first..], first' - first, token)
    ensures text' == text + input[first..][..ScanLength(d, input[first..])]
  {
    var found, index;
    found, first', index, text' := DoMatch(d, input, first, text);
    token := if found then list[index].token else -1;
    if found {
      assert Longest(d, input[first..], first' - first, index);
    }
  }

  /** The active part of a compiled lexer: the rules of its current state and their tables. */
  datatype Grammar = Grammar(list: seq<RegexInfo>, ci: bool, dfa: Dfa)

  ghost predicate GrammarOk(g: Grammar) {
    Serves(g.dfa, g.list, g.ci)
  }

  /** The token of the longest match at the start of `rest`, `k` bytes long; -1 for no match. */
  ghost predicate IsNextToken(g: Grammar, rest: Bytes, k: nat, token: int)
    requires AllParsed(g.list)
  {
    if k == 0 then token == -1 && NoMatch(Rules(g.list), rest, g.ci)
    else exists i :: LongestMatch(Rules(g.list), rest, g.ci, k, i) && i < |g.list| && token == g.list[i].token
  }

  lemma TableTokenIsNext(g: Grammar, rest: Bytes, k: nat, token: int)
    requires GrammarOk(g) && IsTableToken(g.dfa, g.list, rest, k, token)
    ensures IsNextToken(g, rest, k, token)
  {
    hide Implements, Tracks, Longest, LongestMatch, NoVerdict, NoMatch;
    ServesWellFormed(g.dfa, g.list, g.ci);
    if k == 0 {
      TablesFindLongestMatch(g.dfa, Rules(g.list), g.ci, rest, k, 0);
    } else {
      var i :| 0 <= i < |g.list| && Longest(g.dfa, rest, k, i) && token == g.list[i].token;
      TablesFindLongestMatch(g.dfa, Rules(g.list), g.ci, rest, k, i);
    }
  }

  method MatchToken(g: Grammar, input: Bytes, first: nat, text: Bytes)
    returns (token: int, first': nat, text': Bytes)
    requires GrammarOk(g) && first <= |input|
    ensures first <= first' <= |input| && IsNextToken(g, input[first..], first' - first, token)
    ensures text' == text + input[first..][..ScanLength(g.dfa, input[first..])]
  {
    token, first', text' := MatchTables(g.dfa, g.list, input, first, text);
    TableTokenIsNext(g, input[first..], first' - first, token);
  }

  // ----- the tables of all lexer states -----

  ghost predicate TablesFor(dfas: seq<Dfa>, lists: seq<seq<RegexInfo>>, ci: bool) {
    |dfas| == |lists| && forall i :: 0 <= i < |lists| ==> Serves(dfas[i], lists[i], ci)
  }

  lemma ActiveServes(dfas: seq<Dfa>, lists: seq<seq<RegexInfo>>, ci: bool, state: nat)
    requires TablesFor(dfas, lists, ci) && state < |lists|
    ensures |dfas| == |lists| && GrammarOk(Grammar(lists[state], ci, dfas[state]))
    ensures AllParsed(lists[state]) && WellFormed(dfas[state]) && Bounded(dfas[state], |lists[state]|)
  {
    hide Implements, Tracks;
    ServesWellFormed(dfas[state], lists[state], ci);
  }

  ghost predicate IsOverlay(b: Dfa, f: Dfa, d: Dfa) {
    Appendable(b) && Appendable(f) && d == Overlay(b, f)
  }

  /** Nothing of the old tables `b` shows in the tables `d` that were compiled over them. */
  ghost predicate IsClean(b: Dfa, f: Dfa, d: Dfa, n: nat) {
    Appendable(b) && WellFormed(f) && WellFormed(d) && AllClear(b, f) && Bounded(d, n)
  }

  /** Recompiled tables fit the rules exactly when every state is clean. */
  lemma RecompiledTablesFit(before: seq<Dfa>, fresh_: seq<Dfa>, dfas: seq<Dfa>, lists: seq<seq<RegexInfo>>, ci: bool)
    requires |before| == |dfas| == |lists| && TablesFor(fresh_, lists, ci)
    requires forall i :: 0 <= i < |lists| ==> Appendable(before[i]) && IsOverlay(before[i], fresh_[i], dfas[i])
    ensures TablesFor(dfas, lists, ci) <==>
      forall i :: 0 <= i < |lists| ==> IsClean(before[i], fresh_[i], dfas[i], |lists[i]|)
  {
    hide Serves, AllClear, Bounded, Overlay;
    forall i | 0 <= i < |lists| ensures Serves(dfas[i], lists[i], ci) <==> IsClean(before[i], fresh_[i], dfas[i], |lists[i]|) {
      OverlayServes(before[i], fresh_[i], lists[i], ci);
    }
  }

  class Lexer {
    var compiled: bool
    var dfas: seq<Dfa>
    var regexList: seq<seq<RegexInfo>>
    var caseInsensitive: bool
    var state: nat
    var numStates: nat

    ghost predicate Valid()
      reads this
    {
      && |regexList| == numStates && state < numStates
      && (forall i :: 0 <= i < |dfas| ==> Appendable(dfas[i]) && (!compiled ==> dfas[i] == EMPTY_DFA))
    }

    /** The tables implement the rules that are registered now. */
    ghost predicate UpToDate()
      reads this
    {
      Valid() && compiled && TablesFor(dfas, regexList, caseInsensitive)
    }

    /** The current state has tables, and their verdicts name registered rules. */
    ghost predicate Usable()
      reads this
    {
      && state < |dfas| && state < |regexList|
      && WellFormed(dfas[state]) && Bounded(dfas[state], |regexList[state]|)
    }

    constructor (states: nat)
      requires states > 0
      ensures Valid() && !compiled && numStates == states && dfas == [] && !caseInsensitive
      ensures forall i :: 0 <= i < numStates ==> regexList[i] == []
    {
      compiled, dfas, caseInsensitive, state, numStates := false, [], false, 0, states;
      regexList := seq(states, _ => []);
    }

    method RegisterRegex(regex: Option<PatternTree>, token: int, st: nat)
      requires Valid() && st < numStates
      modifies this`regexList
      ensures Valid()
      ensures regexList == old(regexList)[st := old(regexList)[st] + [RegexInfo(regex, token)]]
    {
      regexList := regexList[st := regexList[st] + [RegexInfo(regex, token)]];
    }

    method SetCaseInsensitive(insensitive: bool)
      requires Valid()
      modifies this`caseInsensitive
      ensures Valid() && caseInsensitive == insensitive
    {
      caseInsensitive := insensitive;
    }

    /** `BadRegex` stands for the exception of that name. `fresh_` are the tables of the rules,
        which are written over those that the state already had. */
    method CreateDfaForState(st: nat) returns (r: Outcome, ghost fresh_: Dfa)
      requires Valid() && st < numStates == |dfas|
      modifies this`dfas, this`compiled
      ensures Valid() && |dfas| == numStates
      ensures forall i :: 0 <= i < numStates && i != st ==> dfas[i] == old(dfas)[i]
      ensures r == Done <==> AllParsed(regexList[st])
      ensures r == Done ==>
        compiled && Serves(fresh_, regexList[st], caseInsensitive) && IsOverlay(old(dfas)[st], fresh_, dfas[st])
      ensures r == Done && old(dfas)[st] == EMPTY_DFA ==> dfas[st] == fresh_
      ensures r == BadRegex ==> dfas == old(dfas) && compiled == old(compiled)
    {
      hide Implements, Tracks, Bounded;
      fresh_ := EMPTY_DFA;
      var tree := ParseRegexes(regexList[st]);
      if tree.None? {
        return BadRegex, fresh_;
      }
      var built := BuildTables(tree.value, caseInsensitive, regexList[st]);
      fresh_ := built;
      ServesWellFormed(built, regexList[st], caseInsensitive);
      OverlayNothing(built);
      dfas := dfas[st := Overlay(dfas[st], built)];
      compiled := true;
      r := Done;
    }

    /** `bad` is the first state whose rules are bad. */
    method CreateDfa() returns (r: Outcome, ghost fresh_: seq<Dfa>, ghost bad: nat)
      requires Valid()
      modifies this`dfas, this`compiled
      ensures Valid() && |dfas| == numStates
      ensures r == Done <==> forall i :: 0 <= i < numStates ==> AllParsed(regexList[i])
      ensures r == Done ==> compiled && TablesFor(fresh_, regexList, caseInsensitive)
      ensures r == Done ==>
        forall i :: 0 <= i < numStates ==> IsOverlay(Resize(old(dfas), numStates, EMPTY_DFA)[i], fresh_[i], dfas[i])
      ensures r == Done && !old(compiled) ==> UpToDate()
      ensures r == Done ==> (UpToDate() <==> forall i :: 0 <= i < numStates ==>
        IsClean(Resize(old(dfas), numStates, EMPTY_DFA)[i], fresh_[i], dfas[i], |regexList[i]|))
      ensures r == BadRegex ==>
        && bad < numStates && !AllParsed(regexList[bad]) && (forall i :: 0 <= i < bad ==> AllParsed(regexList[i]))
        && (forall i :: bad <= i < numStates ==> dfas[i] == Resize(old(dfas), numStates, EMPTY_DFA)[i])
        && (compiled <==> old(compiled) || bad > 0)
    {
      hide Serves, AllParsed, IsOverlay, IsClean;
      bad, fresh_ := 0, [];
      dfas := Resize(dfas, numStates, EMPTY_DFA);
      ghost var before := dfas;
      for i := 0 to numStates
        invariant Valid() && |dfas| == numStates && (compiled <==> old(compiled) || i > 0)
        invariant TablesFor(fresh_, regexList[..i], caseInsensitive)
        invariant forall k :: 0 <= k < i ==>
          AllParsed(regexList[k]) && IsOverlay(before[k], fresh_[k], dfas[k]) && (!old(compiled) ==> dfas[k] == fresh_[k])
        invariant forall k :: i <= k < numStates ==> dfas[k] == before[k]
      {
        var outcome;
        ghost var f;
        outcome, f := CreateDfaForState(i);
        if outcome == BadRegex {
          bad := i;
          return BadRegex, fresh_, bad;
        }
        fresh_ := fresh_ + [f];
      }
      assert regexList[..numStates] == regexList;
      RecompiledTablesFit(before, fresh_, dfas, regexList, caseInsensitive);
      if !old(compiled) {
        assert dfas == fresh_;
      }
      r := Done;
    }

    function Active(): Grammar
      reads this
      requires state < |regexList| && state < |dfas|
    {
      Grammar(regexList[state], caseInsensitive, dfas[state])
    }

    /** The next token starting at `first`: -1 when the tables match no nonempty prefix. Tables
        that are up to date give the declarative longest match; others, such as tables from
        before a rule was registered, give their own. */
    method NextToken(input: Bytes, first: nat, text: Bytes)
      returns (r: Outcome, token: int, first': nat, text': Bytes)
      requires Valid() && first <= |input| && (compiled ==> Usable())
      modifies this`dfas, this`compiled
      ensures old(compiled) ==> r == Done && dfas == old(dfas) && compiled
      ensures !old(compiled) ==> (r == Done <==> forall i :: 0 <= i < numStates ==> AllParsed(regexList[i]))
      ensures !old(compiled) && r == Done ==> UpToDate()
      ensures r == Done ==> Usable() && first <= first' <= |input|
      ensures r == Done ==> IsTableToken(dfas[state], regexList[state], input[first..], first' - first, token)
      ensures r == Done && UpToDate() ==> IsNextToken(Active(), input[first..], first' - first, token)
      ensures r == Done ==> text' == text + input[first..][..ScanLength(dfas[state], input[first..])]
    {
      hide Implements, Tracks, TablesFor, IsOverlay, WellFormed, Bounded, IsTableToken, IsNextToken, AllParsed;
      if !compiled {
        ghost var fresh_, bad;
        r, fresh_, bad := CreateDfa();
        if r == BadRegex {
          return BadRegex, -1, first, text;
        }
        ActiveServes(dfas, regexList, caseInsensitive, state);
      }
      r := Done;
      token, first', text' := MatchTables(dfas[state], regexList[state], input, first, text);
      if UpToDate() {
        ActiveServes(dfas, regexList, caseInsensitive, state);
        TableTokenIsNext(Active(), input[first..], first' - first, token);
      }
    }

    method Save(uniqueId: Long) returns (file: Bytes)
      ensures file == Image(SLEX_VERSION_100, uniqueId, numStates, dfas)
    {
      file := SaveFile(uniqueId, numStates, dfas);
    }

    /** Succeeds exactly when the file starts with saved tables for this id, and otherwise
        leaves the lexer as it was. */
    method Load(file: Bytes, uniqueId: Long) returns (ok: bool)
      modifies this`dfas, this`numStates, this`compiled
      ensures ok ==> Holds(file, uniqueId, numStates, dfas) && compiled
      ensures !ok ==> dfas == old(dfas) && numStates == old(numStates) && compiled == old(compiled)
      ensures !ok ==> forall n, ds :: !Holds(file, uniqueId, n, ds)
    {
      var inStates, inDfas;
      ok, inStates, inDfas := LoadFile(file, uniqueId);
      if ok {
        dfas, numStates, compiled := inDfas, inStates, true;
      }
    }

    /** `init_lexer`: register the rules, then load the tables from the cache file, or compile
        them and write the file. `file` is what the cache holds, `saved` what is written to it. */
    method Init(list: seq<RegexInfo>, uniqueId: Long, file: Option<Bytes>, forceReinit: bool, writable: bool)
      returns (r: Outcome, loaded: bool, saved: Option<Bytes>)
      requires Valid()
      modifies this
      ensures old(compiled) ==> r == Done && !loaded && saved == None && dfas == old(dfas) && regexList == old(regexList)
      ensures !old(compiled) ==> regexList == old(regexList)[0 := old(regexList)[0] + list]
      ensures caseInsensitive == old(caseInsensitive) && state == old(state)
      ensures loaded ==> !old(compiled) && !forceReinit && file.Some?
      ensures loaded ==> r == Done && compiled && saved == None && Holds(file.value, uniqueId, numStates, dfas)
      ensures !loaded && !old(compiled) && !forceReinit && file.Some? ==> forall n, ds :: !Holds(file.value, uniqueId, n, ds)
      ensures !loaded ==> Valid()
      ensures !loaded && !old(compiled) ==> (r == Done <==> forall i :: 0 <= i < numStates ==> AllParsed(regexList[i]))
      ensures !loaded && !old(compiled) && r == Done ==>
        UpToDate() && saved == if writable then Some(Image(SLEX_VERSION_100, uniqueId, numStates, dfas)) else None
    {
      hide Implements, Tracks, Bounded, Image, Overlay;
      r, loaded, saved := Done, false, None;
      if compiled {
        return;
      }
      assert list[..0] == [] && regexList[0] + [] == regexList[0];
      for j := 0 to |list|
        invariant Valid() && !compiled && caseInsensitive == old(caseInsensitive) && state == old(state)
        invariant regexList == old(regexList)[0 := old(regexList)[0] + list[..j]] && numStates == old(numStates)
      {
        RegisterRegex(list[j].regex, list[j].token, 0);
        assert old(regexList)[0] + list[..j + 1] == old(regexList)[0] + list[..j] + [list[j]];
      }
      assert list[..|list|] == list;
      if !forceReinit && file.Some? {
        loaded := Load(file.value, uniqueId);
      }
      if !loaded {
        ghost var fresh_, bad;
        r, fresh_, bad := CreateDfa();
        if r == Done && writable {
          var image := Save(uniqueId);
          saved := Some(image);
        }
      }
    }
  }

  // ----- tables in a file -----

  /** Few enough states and rules for the 32-bit ids of the file. */
  predicate Small(dfas: seq<Dfa>, lists: seq<seq<RegexInfo>>) {
    && |dfas| == |lists| < 0x1_0000_0000
    && forall i :: 0 <= i < |dfas| ==> |dfas[i].transitionTable| <= 0xFFFF_FFFF && |lists[i]| <= 0xFFFF_FFFF
  }

  lemma ServingTablesAreStorable(d: Dfa, n: nat)
    requires WellFormed(d) && Bounded(d, n) && |d.transitionTable| <= 0xFFFF_FFFF && n <= 0xFFFF_FFFF
    ensures DfaOk(d)
  {
    forall s | 0 <= s < |d.transitionTable| ensures TableFile.RowOk(d.transitionTable[s]) {
      forall c | 0 <= c < 256 ensures NodeOk(d.transitionTable[s][c]) {
      }
    }
    forall s | 0 <= s < |d.acceptanceIndex| ensures NodeOk(d.acceptanceIndex[s]) {
    }
  }

  lemma TablesAreStorable(dfas: seq<Dfa>, lists: seq<seq<RegexInfo>>, ci: bool)
    requires TablesFor(dfas, lists, ci) && Small(dfas, lists)
    ensures Storable(|dfas|, dfas)
  {
    hide Implements, Tracks, DfaOk;
    forall i | 0 <= i < |dfas| ensures DfaOk(dfas[i]) {
      assert Serves(dfas[i], lists[i], ci);
      ServesWellFormed(dfas[i], lists[i], ci);
      ServingTablesAreStorable(dfas[i], |lists[i]|);
    }
  }

  /** A lexer that loads what a lexer with the same rules and letter-case flag has saved is up to
      date with the very same tables, so it finds the same matches on every input. */
  lemma ReloadedIsUpToDate(lexer: Lexer, saver: seq<Dfa>, id: Long)
    requires TablesFor(saver, lexer.regexList, lexer.caseInsensitive) && Small(saver, lexer.regexList)
    requires lexer.compiled && lexer.state < |lexer.regexList|
    requires Holds(Image(SLEX_VERSION_100, id, |saver|, saver), id, lexer.numStates, lexer.dfas)
    ensures lexer.UpToDate() && lexer.dfas == saver
  {
    hide Implements, Tracks, Bounded, Holds, Image;
    TablesAreStorable(saver, lexer.regexList, lexer.caseInsensitive);
    SavedFileHolds(id, |saver|, saver, lexer.numStates, lexer.dfas);
    forall i | 0 <= i < |saver| ensures Appendable(saver[i]) {
      assert Serves(saver[i], lexer.regexList[i], lexer.caseInsensitive);
      ServesWellFormed(saver[i], lexer.regexList[i], lexer.caseInsensitive);
    }
  }

  /** Two rule lists answer every word alike. */
  ghost predicate SameAnswers(rules: seq<Node>, ci: bool, others: seq<Node>, ci': bool) {
    forall w, i :: FirstRule(rules, w, ci, i) <==> FirstRule(others, w, ci', i)
  }

  /** The cache file is keyed by the compile time of the lexer, not by its rules: tables that
      were saved for one rule list are right for another exactly when the two answer alike. */
  lemma CachedTablesFit(d: Dfa, rules: seq<Node>, ci: bool, others: seq<Node>, ci': bool)
    requires Implements(d, rules, ci)
    ensures Implements(d, others, ci') <==> SameAnswers(rules, ci, others, ci')
  {
    if Implements(d, others, ci') {
      forall w, i ensures FirstRule(rules, w, ci, i) <==> FirstRule(others, w, ci', i) {
        if FirstRule(rules, w, ci, i) {
          FirstRuleIsUnique(rules, w, ci, i, Verdict(d, w));
        }
        if FirstRule(others, w, ci', i) {
          FirstRuleIsUnique(others, w, ci', i, Verdict(d, w));
        }
      }
    }
    if SameAnswers(rules, ci, others, ci') {
      forall w ensures FirstRule(others, w, ci', Verdict(d, w)) {
        assert FirstRule(rules, w, ci, Verdict(d, w));
      }
    }
  }

  /** Tables cached for the rule `a` are wrong for the rule `b`. */
  lemma CacheMismatch(d: Dfa)
    requires Implements(d, [CharNode(97, 0)], false)
    ensures !Implements(d, [CharNode(98, 0)], false)
  {
    var rules, others := [CharNode(97, 0)], [CharNode(98, 0)];
    RuleMatchesExactly(rules[0], [97]);
    RuleMatchesExactly(others[0], [97]);
    assert FirstRule(rules, [97], false, 0) && !FirstRule(others, [97], false, 0);
    CachedTablesFit(d, rules, false, others, false);
  }

  // ----- a failed compilation -----

  /** Two lexer states, of which only the first has a rule: compiling throws, but the lexer is
      marked as compiled while its second state has no tables. */
  method FailedCompilation(rule: PatternTree, token: int) returns (lexer: Lexer, r: Outcome)
    ensures fresh(lexer) && r == BadRegex
    ensures lexer.compiled && lexer.numStates == |lexer.dfas| == 2 && lexer.dfas[1] == EMPTY_DFA
  {
    lexer := new Lexer(2);
    lexer.RegisterRegex(Some(rule), token, 0);
    assert AllParsed(lexer.regexList[0]) && !AllParsed(lexer.regexList[1]);
    ghost var fresh_, bad;
    r, fresh_, bad := lexer.CreateDfa();
  }
}
