/** Set simulation of the position automaton of a rule list, and the rule it selects. */
module Simulation {
  import opened Regex
  import opened Positions

  // ----- ASCII letter case (`make_case_insensitive`) -----

  function SwapCase(c: Byte): Byte {
    if 65 <= c <= 90 then c + 32 else if 97 <= c <= 122 then c - 32 else c
  }

  /** The two cases of each letter are exchanged, and every other byte stays. */
  lemma SwapCaseByLetter(k: nat)
    ensures k < 26 ==> SwapCase(65 + k) == 97 + k && SwapCase(97 + k) == 65 + k
    ensures 65 == 'A' as nat && 90 == 'Z' as nat == 65 + 25 && 97 == 'a' as nat && 122 == 'z' as nat
    ensures k < 256 && !(65 <= k <= 90) && !(97 <= k <= 122) ==> SwapCase(k) == k
  {
  }

  /** The spellings of `w` that a lexer compiled with flag `ci` treats alike. */
  ghost predicate Spelling(v: Bytes, w: Bytes, ci: bool) {
    if ci then |v| == |w| && forall i :: 0 <= i < |w| ==> v[i] == w[i] || v[i] == SwapCase(w[i])
    else v == w
  }

  ghost predicate RuleMatches(rule: Node, w: Bytes, ci: bool) {
    exists v :: Spelling(v, w, ci) && Matches(rule, v)
  }

  lemma RuleMatchesExactly(rule: Node, w: Bytes)
    ensures RuleMatches(rule, w, false) <==> Matches(rule, w)
  {
    if Matches(rule, w) {
      assert Spelling(w, w, false);
    }
  }

  /** `i` is the first rule of the list that accepts `w`, or -1 when none does. */
  ghost predicate FirstRule(rules: seq<Node>, w: Bytes, ci: bool, i: int) {
    if i == -1 then forall j :: 0 <= j < |rules| ==> !RuleMatches(rules[j], w, ci)
    else 0 <= i < |rules| && RuleMatches(rules[i], w, ci) && forall j :: 0 <= j < i ==> !RuleMatches(rules[j], w, ci)
  }

  // ----- set simulation -----

  predicate Hits(t: Node, p: nat, c: Byte, ci: bool) {
    LeafMatches(t, p, c) || (ci && LeafMatches(t, p, SwapCase(c)))
  }

  /** All positions that can follow a position of `s` after reading `c`. */
  ghost function Move(t: Node, s: set<nat>, c: Byte, ci: bool): set<nat> {
    set p, r | p in s && r in Follow(t, p) && Hits(t, p, c, ci) :: r
  }

  /** The positions the automaton may be at after reading `w`. */
  ghost function Reach(t: Node, w: Bytes, ci: bool): set<nat> {
    if w == [] then First(t) else Move(t, Reach(t, w[..|w| - 1], ci), w[|w| - 1], ci)
  }

  /** A path along which every byte of `w` hits, with one more position at the end. */
  ghost predicate IsRun(t: Node, q: seq<nat>, w: Bytes, ci: bool) {
    |q| == |w| + 1 && q[0] in First(t) && Steps(t, q) && forall i :: 0 <= i < |w| ==> Hits(t, q[i], w[i], ci)
  }

  lemma {:induction false} ReachHasRun(t: Node, w: Bytes, ci: bool, p: nat) returns (q: seq<nat>)
    requires p in Reach(t, w, ci)
    ensures IsRun(t, q, w, ci) && q[|w|] == p
  {
    if w == [] {
      q := [p];
    } else {
      var w' := w[..|w| - 1];
      var o :| o in Reach(t, w', ci) && p in Follow(t, o) && Hits(t, o, w[|w| - 1], ci);
      var q' := ReachHasRun(t, w', ci, o);
      q := q' + [p];
      forall i | 0 <= i < |q| - 1 ensures q[i + 1] in Follow(t, q[i]) {
        if i + 1 < |q'| {
          assert q'[i + 1] in Follow(t, q'[i]);
        }
      }
      forall i | 0 <= i < |w| ensures Hits(t, q[i], w[i], ci) {
        if i < |w'| {
          assert Hits(t, q'[i], w'[i], ci);
        }
      }
    }
  }

  lemma {:induction false} RunReaches(t: Node, w: Bytes, ci: bool, q: seq<nat>)
    requires IsRun(t, q, w, ci)
    ensures q[|w|] in Reach(t, w, ci)
  {
    if w != [] {
      var n := |w| - 1;
      var q' := q[..|w|];
      forall i | 0 <= i < n ensures q'[i + 1] in Follow(t, q'[i]) {
        assert q[i + 1] in Follow(t, q[i]);
      }
      RunReaches(t, w[..n], ci, q');
      assert q[n + 1] in Follow(t, q[n]);
    }
  }

  /** Once the set is empty it stays empty. */
  lemma {:induction false} DeadStaysDead(t: Node, v: Bytes, w: Bytes, ci: bool)
    requires v <= w && Reach(t, v, ci) == {}
    ensures Reach(t, w, ci) == {}
  {
    if |v| < |w| {
      DeadStaysDead(t, v, w[..|w| - 1], ci);
    } else {
      assert v == w;
    }
  }

  // ----- rule lists (`parse`, `parse_regexes`) -----

  predicate NoEof(t: Node) {
    match t
    case EofNode(_) => false
    case OrNode(l, r) => NoEof(l) && NoEof(r)
    case CatNode(l, r) => NoEof(l) && NoEof(r)
    case StarNode(b) => NoEof(b)
    case _ => true
  }

  /** One rule as `parse` returns it: the pattern followed by an end marker. */
  predicate IsRule(part: Node) {
    part.CatNode? && part.right.EofNode? && NoEof(part.left)
  }

  function Pattern(part: Node): Node requires IsRule(part) { part.left }

  function EofId(part: Node): nat requires IsRule(part) { part.right.id }

  predicate AllRules(parts: seq<Node>) {
    forall i :: 0 <= i < |parts| ==> IsRule(parts[i])
  }

  /** The left-nested alternative over all rules. */
  function Combine(parts: seq<Node>): Node
    requires parts != []
  {
    if |parts| == 1 then parts[0] else OrNode(Combine(parts[..|parts| - 1]), parts[|parts| - 1])
  }

  function NumberAll(parts: seq<Node>, n: nat): (seq<Node>, nat) {
    if parts == [] then ([], n) else
      var (init, m) := NumberAll(parts[..|parts| - 1], n);
      var (part, m') := AssignNodeIds(parts[|parts| - 1], m);
      (init + [part], m')
  }

  lemma {:induction false} NumberCombined(parts: seq<Node>, n: nat)
    requires parts != []
    ensures NumberAll(parts, n).0 != []
    ensures AssignNodeIds(Combine(parts), n) == (Combine(NumberAll(parts, n).0), NumberAll(parts, n).1)
  {
    var last := |parts| - 1;
    var init := NumberAll(parts[..last], n).0;
    if last > 0 {
      NumberCombined(parts[..last], n);
      assert NumberAll(parts, n).0[..|init|] == init;
    } else {
      assert parts[..last] == [];
    }
  }

  lemma {:induction false} NumberingKeepsNoEof(t: Node, n: nat)
    ensures NoEof(AssignNodeIds(t, n).0) <==> NoEof(t)
  {
    match t
    case OrNode(l, r) => NumberingKeepsNoEof(l, n); NumberingKeepsNoEof(r, AssignNodeIds(l, n).1);
    case CatNode(l, r) => NumberingKeepsNoEof(l, n); NumberingKeepsNoEof(r, AssignNodeIds(l, n).1);
    case StarNode(b) => NumberingKeepsNoEof(b, n);
    case _ =>
  }

  /** End markers are numbered in registration order. */
  ghost predicate EofsIncrease(parts: seq<Node>)
    requires AllRules(parts)
  {
    forall i, j :: 0 <= i < j < |parts| ==> EofId(parts[i]) < EofId(parts[j])
  }

  lemma {:induction false} NumberedRules(parts: seq<Node>, n: nat)
    requires AllRules(parts)
    ensures var (ps, n') := NumberAll(parts, n);
      && |ps| == |parts| && AllRules(ps) && EofsIncrease(ps) && n <= n'
      && (forall i, p :: 0 <= i < |ps| && p in Ids(ps[i]) ==> n <= p < n')
      && (forall i, j :: 0 <= i < j < |ps| ==> Ids(ps[i]) !! Ids(ps[j]))
      && (forall i :: 0 <= i < |ps| ==> Distinct(ps[i]))
  {
    if parts != [] {
      var last := |parts| - 1;
      NumberedRules(parts[..last], n);
      var m := NumberAll(parts[..last], n).1;
      NumberingIsDistinct(parts[last], m);
      NumberingKeepsNoEof(parts[last].left, m);
      var ps := NumberAll(parts, n).0;
      forall i | 0 <= i <= last ensures EofId(ps[i]) in Ids(ps[i]) {
      }
    }
  }

  lemma {:induction false} NumberedPatternsMatch(parts: seq<Node>, n: nat, i: nat, w: Bytes, ci: bool)
    requires AllRules(parts) && AllRules(NumberAll(parts, n).0)
    requires i < |parts| == |NumberAll(parts, n).0|
    ensures RuleMatches(Pattern(NumberAll(parts, n).0[i]), w, ci) <==> RuleMatches(Pattern(parts[i]), w, ci)
  {
    var last := |parts| - 1;
    if i < last {
      NumberedRules(parts[..last], n);
      NumberedPatternsMatch(parts[..last], n, i, w, ci);
    } else {
      NumberedRules(parts[..last], n);
      var m := NumberAll(parts[..last], n).1;
      forall v {
        NumberingKeepsLanguage(parts[last].left, m, v);
      }
    }
  }

  // ----- a combined path belongs to exactly one rule -----

  ghost predicate Separate(parts: seq<Node>) {
    && (forall i, j :: 0 <= i < j < |parts| ==> Ids(parts[i]) !! Ids(parts[j]))
    && (forall i :: 0 <= i < |parts| ==> Distinct(parts[i]))
  }

  lemma {:induction false} CombinedIds(parts: seq<Node>, p: nat)
    requires parts != []
    ensures p in Ids(Combine(parts)) <==> exists i :: 0 <= i < |parts| && p in Ids(parts[i])
  {
    if |parts| > 1 {
      CombinedIds(parts[..|parts| - 1], p);
    }
  }

  lemma CombinedDisjoint(parts: seq<Node>)
    requires Separate(parts) && |parts| > 1
    ensures Ids(Combine(parts[..|parts| - 1])) !! Ids(parts[|parts| - 1])
  {
    var last := |parts| - 1;
    forall p | p in Ids(Combine(parts[..last])) ensures p !in Ids(parts[last]) {
      CombinedIds(parts[..last], p);
    }
  }

  lemma {:induction false} CombinedDistinct(parts: seq<Node>)
    requires parts != [] && Separate(parts)
    ensures Distinct(Combine(parts))
  {
    if |parts| > 1 {
      CombinedDistinct(parts[..|parts| - 1]);
      CombinedDisjoint(parts);
    }
  }

  lemma {:induction false} PathOfOneRule(parts: seq<Node>, q: seq<nat>, i: nat)
    requires parts != [] && Separate(parts) && i < |parts|
    requires IsPath(Combine(parts), q) && exists k :: 0 <= k < |q| && q[k] in Ids(parts[i])
    ensures IsPath(parts[i], q)
  {
    var last := |parts| - 1;
    if last > 0 {
      CombinedDisjoint(parts);
      var init := Combine(parts[..last]);
      OrTraces(init, parts[last], q);
      var k :| 0 <= k < |q| && q[k] in Ids(parts[i]);
      if IsPath(init, q) {
        PathInIds(init, q);
        assert i < last;
        PathOfOneRule(parts[..last], q, i);
      } else {
        PathInIds(parts[last], q);
        assert i == last;
      }
    }
  }

  lemma {:induction false} RulePathIsCombined(parts: seq<Node>, q: seq<nat>, i: nat)
    requires parts != [] && Separate(parts) && i < |parts| && IsPath(parts[i], q)
    ensures IsPath(Combine(parts), q)
  {
    var last := |parts| - 1;
    if last > 0 {
      CombinedDisjoint(parts);
      if i < last {
        RulePathIsCombined(parts[..last], q, i);
      }
      OrTraces(Combine(parts[..last]), parts[last], q);
    }
  }

  lemma {:induction false} CombinedLeaf(parts: seq<Node>, i: nat, p: nat, c: Byte)
    requires parts != [] && Separate(parts) && i < |parts| && p in Ids(parts[i])
    ensures LeafMatches(Combine(parts), p, c) <==> LeafMatches(parts[i], p, c)
  {
    var last := |parts| - 1;
    if last > 0 {
      CombinedDisjoint(parts);
      if i < last {
        CombinedLeaf(parts[..last], i, p, c);
        if LeafMatches(parts[last], p, c) { LeafInIds(parts[last], p, c); }
      } else if LeafMatches(Combine(parts[..last]), p, c) {
        LeafInIds(Combine(parts[..last]), p, c);
      }
    }
  }

  lemma {:induction false} CombinedLastHasEof(parts: seq<Node>, i: nat)
    requires parts != [] && AllRules(parts) && i < |parts|
    ensures EofId(parts[i]) in Last(Combine(parts))
  {
    assert Last(parts[i]) == Last(parts[i].right) == {EofId(parts[i])};
    if i < |parts| - 1 {
      CombinedLastHasEof(parts[..|parts| - 1], i);
    }
  }

  // ----- acceptance -----

  lemma AcceptedWordMatches(parts: seq<Node>, i: nat, w: Bytes, ci: bool)
    requires parts != [] && AllRules(parts) && Separate(parts) && i < |parts|
    requires EofId(parts[i]) in Reach(Combine(parts), w, ci)
    ensures RuleMatches(Pattern(parts[i]), w, ci)
  {
    var t, e := Combine(parts), EofId(parts[i]);
    var l, r := parts[i].left, parts[i].right;
    var q := ReachHasRun(t, w, ci, e);
    CombinedLastHasEof(parts, i);
    assert q[|q| - 1] in Ids(parts[i]);
    PathOfOneRule(parts, q, i);
    PathInIds(parts[i], q);
    var k := CatSplit(l, r, q);
    EofPath(r, q[k..]);
    assert k == |w|;
    var v := seq(|w|, j requires 0 <= j < |w| => if LeafMatches(t, q[j], w[j]) then w[j] else SwapCase(w[j]));
    forall j | 0 <= j < |w| ensures LeafMatches(l, q[..k][j], v[j]) {
      assert Hits(t, q[j], w[j], ci);
      CombinedLeaf(parts, i, q[j], v[j]);
    }
    if !ci {
      assert v == w;
    }
    assert Labels(l, q[..k], v);
    PathSpellsWord(l, v, q[..k]);
    assert Spelling(v, w, ci);
  }

  lemma EofPath(r: Node, q: seq<nat>)
    requires r.EofNode? && Traces(r, q)
    ensures q == [r.id]
  {
    assert |q| > 1 ==> q[0 + 1] in Follow(r, q[0]);
  }

  lemma MatchingWordIsAccepted(parts: seq<Node>, i: nat, w: Bytes, ci: bool)
    requires parts != [] && AllRules(parts) && Separate(parts) && i < |parts|
    requires RuleMatches(Pattern(parts[i]), w, ci)
    ensures EofId(parts[i]) in Reach(Combine(parts), w, ci)
  {
    var t, e := Combine(parts), EofId(parts[i]);
    var l, r := parts[i].left, parts[i].right;
    var v :| Spelling(v, w, ci) && Matches(l, v);
    var q' := WordHasPath(l, v);
    var q := q' + [e];
    assert q[..|w|] == q' && q[|w|..] == [e];
    assert Traces(r, [e]);
    CatJoin(l, r, q, |w|);
    RulePathIsCombined(parts, q, i);
    PathInIds(parts[i], q);
    forall j | 0 <= j < |w| ensures Hits(t, q[j], w[j], ci) {
      assert LeafMatches(l, q'[j], v[j]);
      CombinedLeaf(parts, i, q[j], v[j]);
    }
    RunReaches(t, w, ci, q);
  }

  /** The end marker of rule `i` is reached exactly on the words of rule `i`. */
  lemma EofReachedIffRuleMatches(parts: seq<Node>, i: nat, w: Bytes, ci: bool)
    requires parts != [] && AllRules(parts) && Separate(parts) && i < |parts|
    ensures EofId(parts[i]) in Reach(Combine(parts), w, ci) <==> RuleMatches(Pattern(parts[i]), w, ci)
  {
    if EofId(parts[i]) in Reach(Combine(parts), w, ci) {
      AcceptedWordMatches(parts, i, w, ci);
    }
    if RuleMatches(Pattern(parts[i]), w, ci) {
      MatchingWordIsAccepted(parts, i, w, ci);
    }
  }
}
