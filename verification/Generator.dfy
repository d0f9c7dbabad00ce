/** From registered rules to the tables of one lexer state (`parse_regexes` and
    `create_dfa_for_state` of server/p4l/lexer.h). */
module Generator {
  import opened Common
  import opened Regex
  import opened Positions
  import opened Simulation
  import opened Dfas
  import opened Tables
  import opened Subset
  import opened Overlays
  import opened Viability

  /** Trees that the regex grammar can produce. */
  type PatternTree = n: Node | NoEof(n) witness EpsilonNode(0)

  /** A registered rule. `regex` is the outcome of parsing its text, `None` if that failed. */
  datatype RegexInfo = RegexInfo(regex: Option<PatternTree>, token: int)

  ghost predicate AllParsed(list: seq<RegexInfo>) {
    list != [] && forall i :: 0 <= i < |list| ==> list[i].regex.Some?
  }

  ghost function Rules(list: seq<RegexInfo>): seq<Node>
    requires AllParsed(list)
  {
    seq(|list|, i requires 0 <= i < |list| => list[i].regex.value)
  }

  ghost function Parts(list: seq<RegexInfo>): (parts: seq<Node>)
    requires AllParsed(list)
    ensures |parts| == |list| && AllRules(parts)
  {
    seq(|list|, i requires 0 <= i < |list| => CatNode(list[i].regex.value, EofNode(0)))
  }

  method ParseRegexes(list: seq<RegexInfo>) returns (tree: Option<Node>)
    ensures tree.Some? <==> AllParsed(list)
    ensures AllParsed(list) ==> tree.value == Combine(Parts(list))
  {
    if list == [] || list[0].regex.None? {
      return None;
    }
    var t: Node := CatNode(list[0].regex.value, EofNode(0));
    for ri := 1 to |list|
      invariant AllParsed(list[..ri]) && t == Combine(Parts(list[..ri]))
    {
      if list[ri].regex.None? {
        return None;
      }
      t := OrNode(t, CatNode(list[ri].regex.value, EofNode(0)));
      assert Parts(list[..ri + 1])[..ri] == Parts(list[..ri]);
    }
    assert list[..|list|] == list;
    tree := Some(t);
  }

  /** The rules of a list after numbering the combined tree. */
  ghost function NumberedParts(list: seq<RegexInfo>): (parts: seq<Node>)
    requires AllParsed(list)
    ensures |parts| == |list| && AllRules(parts) && EofsIncrease(parts) && Separate(parts)
  {
    NumberedRules(Parts(list), 0);
    NumberAll(Parts(list), 0).0
  }

  lemma NumberedTree(list: seq<RegexInfo>)
    requires AllParsed(list)
    ensures var (tree, count) := AssignNodeIds(Combine(Parts(list)), 0);
      tree == Combine(NumberedParts(list)) && Numbered(tree, 0) && AssignNodeIds(tree, 0).1 == count
      && IdsAre(tree, 0, count) && |Ids(tree)| == count
  {
    var (tree, count) := AssignNodeIds(Combine(Parts(list)), 0);
    NumberCombined(Parts(list), 0);
    NumberingIsDistinct(Combine(Parts(list)), 0);
    NumberingIsIdempotent(Combine(Parts(list)), 0);
    InitialSegment(Ids(tree), count);
  }

  lemma NumberedPartsMatch(list: seq<RegexInfo>, i: nat, w: Bytes, ci: bool)
    requires AllParsed(list) && i < |list|
    ensures RuleMatches(Pattern(NumberedParts(list)[i]), w, ci) <==> RuleMatches(Rules(list)[i], w, ci)
  {
    var parts := NumberedParts(list);
    NumberedPatternsMatch(Parts(list), 0, i, w, ci);
  }

  method MatchRows(tree: Node, ci: bool) returns (sm: StateMatch)
    requires Numbered(tree, 0)
    ensures |sm| == AssignNodeIds(tree, 0).1 && Rectangular(sm)
    ensures forall p, c: Byte :: 0 <= p < |sm| ==> sm[p][c] == Hits(tree, p, c, ci)
  {
    sm := ComputeStateMatch(tree, []);
    ghost var plain := sm;
    if ci {
      sm := MakeCaseInsensitive(sm);
    }
    RowsAreHits(tree, ci, plain, sm);
  }

  method IndexEofs(tree: Node, ghost parts: seq<Node>) returns (eofIds: set<nat>, eofIndex: map<nat, nat>)
    requires parts != [] && AllRules(parts) && EofsIncrease(parts) && tree == Combine(parts)
    ensures forall e :: e in eofIds <==> e in EofOrder(parts)
    ensures forall i :: 0 <= i < |parts| ==> EofId(parts[i]) in eofIndex && eofIndex[EofId(parts[i])] == i
  {
    eofIds := EofIds(tree);
    EofIdsInOrder(parts, eofIds);
    eofIndex := IndexInOrder(eofIds, EofOrder(parts));
    IndexOfEofs(parts, eofIndex);
  }

  /** The tables that the subset construction reads. */
  method PrepareInputs(tree: Node, ci: bool, ghost list: seq<RegexInfo>) returns (x: Inputs)
    requires AllParsed(list) && tree == AssignNodeIds(Combine(Parts(list)), 0).0
    ensures InputsOk(NumberedParts(list), ci, x)
  {
    NumberedTree(list);
    var followpos := ComputeFollowpos(tree, map[]);
    var stateMatch := MatchRows(tree, ci);
    var eofIds, eofIndex := IndexEofs(tree, NumberedParts(list));
    x := Inputs(followpos, stateMatch, eofIds, eofIndex);
  }

  ghost function RuleTree(list: seq<RegexInfo>): Node
    requires AllParsed(list)
  {
    Combine(NumberedParts(list))
  }

  /** The tables answer for the rules, stop where no rule can go on, and name no other rule. */
  ghost predicate Serves(d: Dfa, list: seq<RegexInfo>, ci: bool) {
    AllParsed(list) && Implements(d, Rules(list), ci) && Tracks(d, RuleTree(list), ci) && Bounded(d, |list|)
  }

  lemma ServesWellFormed(d: Dfa, list: seq<RegexInfo>, ci: bool)
    requires Serves(d, list, ci)
    ensures WellFormed(d) && Bounded(d, |list|)
  {
  }

  /** The tables that `create_dfa_for_state` computes once the rules have been parsed. */
  method BuildTables(tree0: Node, ci: bool, ghost list: seq<RegexInfo>) returns (dfa: Dfa)
    requires AllParsed(list) && tree0 == Combine(Parts(list))
    ensures Serves(dfa, list, ci)
    ensures |dfa.transitionTable| <= Pow2(AssignNodeIds(tree0, 0).1)
  {
    hide Implements, Tracks, Bounded;
    ghost var parts := NumberedParts(list);
    NumberedTree(list);
    var (tree, count) := AssignNodeIds(tree0, 0);
    var x := PrepareInputs(tree, ci, list);
    var g := Construct(x, First(tree), parts, ci);
    forall i, w | 0 <= i < |parts|
      ensures RuleMatches(Pattern(parts[i]), w, ci) <==> RuleMatches(Rules(list)[i], w, ci)
    {
      NumberedPartsMatch(list, i, w, ci);
    }
    ConstructionImplementsRules(parts, Rules(list), ci, g);
    ConstructionTracks(parts, ci, g);
    VerdictsAreRules(parts, g);
    dfa := g.dfa;
  }

  lemma RowsAreHits(t: Node, ci: bool, plain: StateMatch, sm: StateMatch)
    requires forall p :: 0 <= p < |plain| ==> plain[p] == LeafRow(t, p)
    requires |sm| == |plain| && Rectangular(sm)
    requires Rectangular(plain)
    requires if ci then forall p :: 0 <= p < |sm| ==> CaseClosed(sm[p], plain[p]) else sm == plain
    ensures forall p, c: Byte :: 0 <= p < |sm| ==> sm[p][c] == Hits(t, p, c, ci)
  {
  }

  lemma EofIdsInOrder(parts: seq<Node>, eofIds: set<nat>)
    requires parts != [] && AllRules(parts) && EofsIncrease(parts) && eofIds == EofIds(Combine(parts))
    ensures forall e :: e in eofIds <==> e in EofOrder(parts)
    ensures forall i, j :: 0 <= i < j < |parts| ==> EofOrder(parts)[i] < EofOrder(parts)[j]
  {
    forall e ensures e in eofIds <==> e in EofOrder(parts) {
      CombinedEofIds(parts, e);
      if e in eofIds {
        var i :| 0 <= i < |parts| && EofId(parts[i]) == e;
        assert EofOrder(parts)[i] == e;
      }
    }
  }

  lemma IndexOfEofs(parts: seq<Node>, index: map<nat, nat>)
    requires AllRules(parts)
    requires forall i :: 0 <= i < |parts| ==> EofOrder(parts)[i] in index && index[EofOrder(parts)[i]] == i
    ensures forall i :: 0 <= i < |parts| ==> EofId(parts[i]) in index && index[EofId(parts[i])] == i
  {
    forall i | 0 <= i < |parts| ensures EofId(parts[i]) in index && index[EofId(parts[i])] == i {
      assert EofOrder(parts)[i] == EofId(parts[i]);
    }
  }

  lemma SameWalksServe(d: Dfa, f: Dfa, list: seq<RegexInfo>, ci: bool)
    requires WellFormed(d) && Serves(f, list, ci) && SameWalks(d, f) && Bounded(d, |list|)
    ensures Serves(d, list, ci)
  {
    forall w ensures FirstRule(Rules(list), w, ci, Verdict(d, w)) {
      assert Verdict(d, w) == Verdict(f, w);
    }
    forall w ensures Walk(d, w) == INVALID_NODE <==> w != [] && Reach(RuleTree(list), w, ci) == {} {
      assert Walk(d, w) == Walk(f, w);
    }
  }

  lemma TwoServersAgree(d: Dfa, f: Dfa, list: seq<RegexInfo>, ci: bool, w: Bytes)
    requires Serves(d, list, ci) && Serves(f, list, ci)
    ensures Walk(d, w) == INVALID_NODE <==> Walk(f, w) == INVALID_NODE
    ensures Verdict(d, w) == Verdict(f, w)
  {
    FirstRuleIsUnique(Rules(list), w, ci, Verdict(d, w), Verdict(f, w));
  }

  /** Tables compiled over old ones serve the rules exactly when no reachable state has a cell or
      a verdict of the old ones left, and no cell and no verdict is out of range. */
  lemma OverlayServes(b: Dfa, f: Dfa, list: seq<RegexInfo>, ci: bool)
    requires Serves(f, list, ci) && Appendable(b)
    ensures WellFormed(f)
    ensures Serves(Overlay(b, f), list, ci) <==>
      WellFormed(Overlay(b, f)) && AllClear(b, f) && Bounded(Overlay(b, f), |list|)
  {
    hide Serves, AllClear, Bounded, Overlay;
    ServesWellFormed(f, list, ci);
    var d := Overlay(b, f);
    if Serves(d, list, ci) {
      ServesWellFormed(d, list, ci);
      RecompilingIsClean(b, f);
      forall w ensures Walk(d, w) == Walk(f, w) && Verdict(d, w) == Verdict(f, w) {
        TwoServersAgree(d, f, list, ci, w);
        if Walk(f, w) != INVALID_NODE {
          OverlayPrefersNew(b, f, w);
        }
      }
    }
    if WellFormed(d) && AllClear(b, f) && Bounded(d, |list|) {
      RecompilingIsClean(b, f);
      SameWalksServe(d, f, list, ci);
    }
  }

  // ----- what the scanner reads -----

  ghost predicate Satisfiable(list: seq<RegexInfo>)
    requires AllParsed(list)
  {
    forall i :: 0 <= i < |list| ==> NoEmptyClass(list[i].regex.value)
  }

  ghost predicate Extends(list: seq<RegexInfo>, ci: bool, i: nat, w: Bytes, v: Bytes)
    requires AllParsed(list) && i < |list|
  {
    w <= v && RuleMatches(Rules(list)[i], v, ci)
  }

  /** `w` is a prefix of a word of some rule. */
  ghost predicate Viable(list: seq<RegexInfo>, w: Bytes, ci: bool)
    requires AllParsed(list)
  {
    exists i, v :: 0 <= i < |list| && Extends(list, ci, i, w, v)
  }

  /** `w` can be read up to a further leaf of some rule or its end marker. */
  ghost predicate GoesOn(list: seq<RegexInfo>, w: Bytes, ci: bool)
    requires AllParsed(list)
  {
    exists i :: 0 <= i < |list| && RuleLeads(Parts(list)[i], w, ci)
  }

  lemma TreeGoesOn(list: seq<RegexInfo>, w: Bytes, ci: bool)
    requires AllParsed(list)
    ensures Reach(RuleTree(list), w, ci) != {} <==> GoesOn(list, w, ci)
  {
    hide RuleLeads, Reach;
    var parts := NumberedParts(list);
    forall i | 0 <= i < |parts| ensures RuleLeads(parts[i], w, ci) <==> RuleLeads(Parts(list)[i], w, ci) {
      NumberedKeepLeads(Parts(list), 0, i, w, ci);
    }
    ReachIsLed(parts, w, ci);
  }

  lemma TreeIsViable(list: seq<RegexInfo>, w: Bytes, ci: bool)
    requires AllParsed(list) && Satisfiable(list)
    ensures Reach(RuleTree(list), w, ci) != {} <==> Viable(list, w, ci)
  {
    hide RuleMatches, Reach;
    var parts := NumberedParts(list);
    forall i | 0 <= i < |parts| ensures NoEmptyClass(parts[i]) {
      NumberedKeepClasses(Parts(list), 0, i);
      assert NoEmptyClass(Parts(list)[i].left);
    }
    ReachBegins(parts, w, ci);
    if Begins(parts, w, ci) {
      var i, v :| 0 <= i < |parts| && w <= v && RuleMatches(Pattern(parts[i]), v, ci);
      NumberedPartsMatch(list, i, v, ci);
      assert Extends(list, ci, i, w, v);
    }
    if Viable(list, w, ci) {
      var i, v :| 0 <= i < |list| && Extends(list, ci, i, w, v);
      NumberedPartsMatch(list, i, v, ci);
    }
  }

  /** The walk is alive exactly as long as some rule goes on, without empty classes exactly on the
      prefixes of words. */
  lemma AliveIsViable(d: Dfa, list: seq<RegexInfo>, ci: bool, w: Bytes)
    requires Serves(d, list, ci)
    ensures Walk(d, w) != INVALID_NODE <==> GoesOn(list, w, ci)
    ensures Satisfiable(list) ==> (Walk(d, w) != INVALID_NODE <==> Viable(list, w, ci))
  {
    hide Implements, Reach, Viable, GoesOn, Satisfiable;
    TreeGoesOn(list, w, ci);
    if Satisfiable(list) {
      TreeIsViable(list, w, ci);
    }
    if w == [] {
      assert Reach(RuleTree(list), [], ci) != {} by {
        FirstNotEmpty(list, ci);
      }
    }
  }

  lemma FirstNotEmpty(list: seq<RegexInfo>, ci: bool)
    requires AllParsed(list)
    ensures Reach(RuleTree(list), [], ci) != {}
  {
    var parts := NumberedParts(list);
    CombinedNotNullable(parts);
    SomeFirst(RuleTree(list));
  }

  lemma {:induction false} CombinedNotNullable(parts: seq<Node>)
    requires parts != [] && AllRules(parts)
    ensures !Nullable(Combine(parts))
  {
    assert !Nullable(parts[|parts| - 1].right);
    if |parts| > 1 {
      CombinedNotNullable(parts[..|parts| - 1]);
    }
  }

  /** The rule `a`, compiled without regard to case and then again with: `A` stays a match. */
  lemma StaleCaseStays(b: Dfa, f: Dfa, list: seq<RegexInfo>)
    requires AllParsed(list) && Rules(list) == [CharNode(97, 0)]
    requires Serves(b, list, true) && Serves(f, list, false)
    ensures Appendable(b) && Appendable(f) && WellFormed(Overlay(b, f))
    ensures Verdict(Overlay(b, f), [65]) != INVALID_NODE && !Implements(Overlay(b, f), Rules(list), false)
  {
    OverlayWellFormed(b, f);
    var w: Bytes, a: Node := [65], CharNode(97, 0);
    assert Spelling([97], w, true) && Matches(a, [97]);
    assert RuleMatches(Rules(list)[0], w, true);
    forall v: Bytes | w <= v ensures !RuleMatches(a, v, false) {
      RuleMatchesExactly(a, v);
      assert v[0] == w[0];
    }
    assert list[0].regex.value == Rules(list)[0];
    assert !Viable(list, w, false);
    AliveIsViable(f, list, false, w);
    assert FirstRule(Rules(list), w, true, Verdict(b, w));
    StaleByte(b, f, 65);
    assert FirstRule(Rules(list), w, false, -1);
    if Implements(Overlay(b, f), Rules(list), false) {
      FirstRuleIsUnique(Rules(list), w, false, -1, Verdict(Overlay(b, f), w));
    }
  }
}
