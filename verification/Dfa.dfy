/** The compiled tables and the table-driven matcher (`dfa_table`, `regex_match_helper<false>::do_match`). */
module Dfas {
  import opened Regex
  import opened Simulation

  const INVALID_NODE: int := -1

  datatype Dfa = Dfa(transitionTable: seq<seq<int>>, acceptanceIndex: seq<int>)

  const EMPTY_DFA := Dfa([], [])

  ghost predicate WellFormed(d: Dfa) {
    && 0 < |d.transitionTable| == |d.acceptanceIndex|
    && (forall s :: 0 <= s < |d.transitionTable| ==> |d.transitionTable[s]| == 256)
    && (forall s, c :: 0 <= s < |d.transitionTable| && 0 <= c < 256 ==>
          INVALID_NODE <= d.transitionTable[s][c] < |d.transitionTable|)
    && (forall s :: 0 <= s < |d.acceptanceIndex| ==> INVALID_NODE <= d.acceptanceIndex[s])
  }

  /** The state after reading `w` from state 0, or the invalid node. */
  ghost function Walk(d: Dfa, w: Bytes): (s: int)
    requires WellFormed(d)
    ensures INVALID_NODE <= s < |d.transitionTable|
  {
    if w == [] then 0
    else
      var s := Walk(d, w[..|w| - 1]);
      if s == INVALID_NODE then INVALID_NODE else d.transitionTable[s][w[|w| - 1]]
  }

  /** The rule index recorded for `w`, or the invalid node. */
  ghost function Verdict(d: Dfa, w: Bytes): int
    requires WellFormed(d)
  {
    if Walk(d, w) == INVALID_NODE then INVALID_NODE else d.acceptanceIndex[Walk(d, w)]
  }

  lemma {:induction false} WalkDead(d: Dfa, v: Bytes, w: Bytes)
    requires WellFormed(d) && v <= w && Walk(d, v) == INVALID_NODE
    ensures Walk(d, w) == INVALID_NODE
  {
    if |v| < |w| {
      WalkDead(d, v, w[..|w| - 1]);
    } else {
      assert v == w;
    }
  }

  /** How many bytes the matcher looks at: the longest prefix on which the walk is alive. */
  ghost function ScanLength(d: Dfa, w: Bytes): (n: nat)
    requires WellFormed(d)
    ensures n <= |w| && Walk(d, w[..n]) != INVALID_NODE
    ensures forall k :: n < k <= |w| ==> Walk(d, w[..k]) == INVALID_NODE
  {
    if Walk(d, w) != INVALID_NODE then
      assert w[..|w|] == w;
      |w|
    else
      var v := w[..|w| - 1];
      assert forall k :: 0 <= k < |w| ==> v[..k] == w[..k];
      assert w[..|w|] == w;
      ScanLength(d, v)
  }

  /** The longest nonempty prefix of `rest` with a verdict has length `k` and verdict `i`. */
  ghost predicate Longest(d: Dfa, rest: Bytes, k: nat, i: int)
    requires WellFormed(d)
  {
    && 1 <= k <= |rest| && i != INVALID_NODE && Verdict(d, rest[..k]) == i
    && forall j :: k < j <= |rest| ==> Verdict(d, rest[..j]) == INVALID_NODE
  }

  ghost predicate NoVerdict(d: Dfa, rest: Bytes)
    requires WellFormed(d)
  {
    forall j :: 1 <= j <= |rest| ==> Verdict(d, rest[..j]) == INVALID_NODE
  }

  /** `first` and `last` delimit the unread input; `text` is the caller's token buffer. */
  method DoMatch(d: Dfa, input: Bytes, first: nat, text: Bytes)
    returns (found: bool, first': nat, regexIndex: int, text': Bytes)
    requires WellFormed(d) && first <= |input|
    ensures found ==> first' <= |input| && first < first' && Longest(d, input[first..], first' - first, regexIndex)
    ensures !found ==> first' == first && NoVerdict(d, input[first..])
    ensures text' == text + input[first..][..ScanLength(d, input[first..])]
  {
    ghost var rest := input[first..];
    var s := 0;
    var lastAcceptingIndex := INVALID_NODE;
    var p := first;
    var lastAcceptingPos := first;
    text' := text;
    while p != |input|
      invariant first <= p <= |input|
      invariant s == Walk(d, rest[..p - first]) && s != INVALID_NODE
      invariant text' == text + rest[..p - first]
      invariant first <= lastAcceptingPos <= p
      invariant lastAcceptingIndex == INVALID_NODE ==>
        forall j :: 1 <= j <= p - first ==> Verdict(d, rest[..j]) == INVALID_NODE
      invariant lastAcceptingIndex != INVALID_NODE ==>
        && first < lastAcceptingPos
        && lastAcceptingIndex == Walk(d, rest[..lastAcceptingPos - first])
        && d.acceptanceIndex[lastAcceptingIndex] != INVALID_NODE
        && forall j :: lastAcceptingPos - first < j <= p - first ==> Verdict(d, rest[..j]) == INVALID_NODE
      decreases |input| - p
    {
      ghost var n := p - first;
      assert rest[..n + 1][..n] == rest[..n] && rest[..n + 1][n] == input[p];
      s := d.transitionTable[s][input[p]];
      if s == INVALID_NODE {
        Stopped(d, rest, n);
        break;
      }
      text' := text' + [input[p]];
      p := p + 1;
      if d.acceptanceIndex[s] != INVALID_NODE {
        lastAcceptingIndex := s;
        lastAcceptingPos := p;
      }
    }
    if p == |input| {
      assert rest[..p - first] == rest;
    }
    if lastAcceptingIndex != INVALID_NODE {
      first' := lastAcceptingPos;
      regexIndex := d.acceptanceIndex[lastAcceptingIndex];
      found := true;
    } else {
      first' := first;
      regexIndex := INVALID_NODE;
      found := false;
    }
  }

  lemma Stopped(d: Dfa, rest: Bytes, n: nat)
    requires WellFormed(d) && n < |rest|
    requires Walk(d, rest[..n]) != INVALID_NODE && Walk(d, rest[..n + 1]) == INVALID_NODE
    ensures ScanLength(d, rest) == n
    ensures forall j :: n < j <= |rest| ==> Verdict(d, rest[..j]) == INVALID_NODE
  {
    forall j | n < j <= |rest| ensures Walk(d, rest[..j]) == INVALID_NODE {
      WalkDead(d, rest[..n + 1], rest[..j]);
    }
  }

  // ----- what the tables are for -----

  /** On every word the tables answer with the first rule that accepts it. */
  ghost predicate Implements(d: Dfa, rules: seq<Node>, ci: bool) {
    WellFormed(d) && forall w :: FirstRule(rules, w, ci, Verdict(d, w))
  }

  /** The walk over the tables stops exactly when the position automaton has no position left. */
  ghost predicate Tracks(d: Dfa, t: Node, ci: bool) {
    WellFormed(d) && forall w :: Walk(d, w) == INVALID_NODE <==> w != [] && Reach(t, w, ci) == {}
  }

  /** Every verdict is the index of one of `n` rules. */
  ghost predicate Bounded(d: Dfa, n: nat) {
    forall s :: 0 <= s < |d.acceptanceIndex| ==> d.acceptanceIndex[s] < n
  }

  /** The longest nonempty prefix of `rest` in some rule's language has length `k`, and `i`
      is the first rule it belongs to. */
  ghost predicate LongestMatch(rules: seq<Node>, rest: Bytes, ci: bool, k: nat, i: int) {
    && 1 <= k <= |rest| && 0 <= i && FirstRule(rules, rest[..k], ci, i)
    && forall j :: k < j <= |rest| ==> FirstRule(rules, rest[..j], ci, -1)
  }

  ghost predicate NoMatch(rules: seq<Node>, rest: Bytes, ci: bool) {
    forall j :: 1 <= j <= |rest| ==> FirstRule(rules, rest[..j], ci, -1)
  }

  /** Scanning the tables of a rule list is longest match with first-rule priority. */
  lemma TablesFindLongestMatch(d: Dfa, rules: seq<Node>, ci: bool, rest: Bytes, k: nat, i: int)
    requires Implements(d, rules, ci)
    ensures Longest(d, rest, k, i) <==> LongestMatch(rules, rest, ci, k, i)
    ensures NoVerdict(d, rest) <==> NoMatch(rules, rest, ci)
  {
  }

  lemma FirstRuleIsUnique(rules: seq<Node>, w: Bytes, ci: bool, i: int, j: int)
    requires FirstRule(rules, w, ci, i) && FirstRule(rules, w, ci, j)
    ensures i == j
  {
  }
}
