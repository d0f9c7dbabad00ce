/** Position numbers and the position automaton of a tree: `assign_node_ids`, `nullable`,
    `firstpos`, `lastpos` and the `followpos` relation of server/p4l/lexer.h. */
module Positions {
  import opened Regex

  function Ids(t: Node): set<nat> {
    match t
    case CharNode(_, id) => {id}
    case CclNode(_, id) => {id}
    case EpsilonNode(id) => {id}
    case EofNode(id) => {id}
    case OrNode(l, r) => Ids(l) + Ids(r)
    case CatNode(l, r) => Ids(l) + Ids(r)
    case StarNode(b) => Ids(b)
  }

  ghost predicate Distinct(t: Node) {
    match t
    case OrNode(l, r) => Distinct(l) && Distinct(r) && Ids(l) !! Ids(r)
    case CatNode(l, r) => Distinct(l) && Distinct(r) && Ids(l) !! Ids(r)
    case StarNode(b) => Distinct(b)
    case _ => true
  }

  /** Number the leaves from left to right, starting at `nodeCount`. */
  function AssignNodeIds(t: Node, nodeCount: nat): (r: (Node, nat)) {
    match t
    case CharNode(c, _) => (CharNode(c, nodeCount), nodeCount + 1)
    case CclNode(m, _) => (CclNode(m, nodeCount), nodeCount + 1)
    case EpsilonNode(_) => (EpsilonNode(nodeCount), nodeCount + 1)
    case EofNode(_) => (EofNode(nodeCount), nodeCount + 1)
    case OrNode(l, r) =>
      var (l', n) := AssignNodeIds(l, nodeCount);
      var (r', n') := AssignNodeIds(r, n);
      (OrNode(l', r'), n')
    case CatNode(l, r) =>
      var (l', n) := AssignNodeIds(l, nodeCount);
      var (r', n') := AssignNodeIds(r, n);
      (CatNode(l', r'), n')
    case StarNode(b) =>
      var (b', n) := AssignNodeIds(b, nodeCount);
      (StarNode(b'), n)
  }

  ghost predicate IdsAre(t: Node, lo: nat, hi: nat) {
    forall i :: i in Ids(t) <==> lo <= i < hi
  }

  /** Whatever ids the clones carried, numbering makes all leaves distinct and uses exactly
      the numbers from `n` up to the returned count. */
  lemma {:induction false} NumberingIsDistinct(t: Node, n: nat)
    ensures var (t', n') := AssignNodeIds(t, n); n < n' && Distinct(t') && IdsAre(t', n, n')
  {
    match t
    case OrNode(l, r) =>
      NumberingIsDistinct(l, n);
      NumberingIsDistinct(r, AssignNodeIds(l, n).1);
    case CatNode(l, r) =>
      NumberingIsDistinct(l, n);
      NumberingIsDistinct(r, AssignNodeIds(l, n).1);
    case StarNode(b) =>
      NumberingIsDistinct(b, n);
    case _ =>
  }

  /** Numbering does not change the language. */
  lemma {:induction false} NumberingKeepsLanguage(t: Node, n: nat, w: Bytes)
    ensures Matches(AssignNodeIds(t, n).0, w) <==> Matches(t, w)
    decreases t, |w|
  {
    var t' := AssignNodeIds(t, n).0;
    match t
    case OrNode(l, r) =>
      NumberingKeepsLanguage(l, n, w);
      NumberingKeepsLanguage(r, AssignNodeIds(l, n).1, w);
    case CatNode(l, r) =>
      var m := AssignNodeIds(l, n).1;
      if Matches(t', w) {
        var k := CatElim(t'.left, t'.right, w);
        NumberingKeepsLanguage(l, n, w[..k]);
        NumberingKeepsLanguage(r, m, w[k..]);
        CatIntro(l, r, w, k);
      }
      if Matches(t, w) {
        var k := CatElim(l, r, w);
        NumberingKeepsLanguage(l, n, w[..k]);
        NumberingKeepsLanguage(r, m, w[k..]);
        CatIntro(t'.left, t'.right, w, k);
      }
    case StarNode(b) =>
      if Matches(t', w) && w != [] {
        var k := StarElim(t'.body, w);
        NumberingKeepsLanguage(b, n, w[..k]);
        NumberingKeepsLanguage(t, n, w[k..]);
        StarIntro(b, w, k);
      }
      if Matches(t, w) && w != [] {
        var k := StarElim(b, w);
        NumberingKeepsLanguage(b, n, w[..k]);
        NumberingKeepsLanguage(t, n, w[k..]);
        StarIntro(t'.body, w, k);
      }
    case _ =>
  }

  predicate Nullable(t: Node) {
    match t
    case CharNode(_, _) => false
    case CclNode(_, _) => false
    case EpsilonNode(_) => true
    case EofNode(_) => false
    case OrNode(l, r) => Nullable(l) || Nullable(r)
    case CatNode(l, r) => Nullable(l) && Nullable(r)
    case StarNode(_) => true
  }

  function First(t: Node): set<nat> {
    match t
    case CharNode(_, id) => {id}
    case CclNode(_, id) => {id}
    case EpsilonNode(_) => {}
    case EofNode(id) => {id}
    case OrNode(l, r) => First(l) + First(r)
    case CatNode(l, r) => if Nullable(l) then First(l) + First(r) else First(l)
    case StarNode(b) => First(b)
  }

  function Last(t: Node): set<nat> {
    match t
    case CharNode(_, id) => {id}
    case CclNode(_, id) => {id}
    case EpsilonNode(_) => {}
    case EofNode(id) => {id}
    case OrNode(l, r) => Last(l) + Last(r)
    case CatNode(l, r) => if Nullable(r) then Last(l) + Last(r) else Last(r)
    case StarNode(b) => Last(b)
  }

  /** The positions that may come right after position `p` (the relation that
      `compute_followpos` tabulates). */
  function Follow(t: Node, p: nat): set<nat> {
    match t
    case OrNode(l, r) => Follow(l, p) + Follow(r, p)
    case CatNode(l, r) => (if p in Last(l) then First(r) else {}) + Follow(l, p) + Follow(r, p)
    case StarNode(b) => (if p in Last(b) then First(b) else {}) + Follow(b, p)
    case _ => {}
  }

  /** Leaf `p` of `t` accepts byte `c`. Epsilon rows are all ones in the source; no epsilon
      leaf is ever a first or a last position. */
  predicate LeafMatches(t: Node, p: nat, c: Byte) {
    match t
    case CharNode(ch, id) => p == id && c == ch
    case CclNode(m, id) => p == id && m[c]
    case EpsilonNode(id) => p == id
    case EofNode(_) => false
    case OrNode(l, r) => LeafMatches(l, p, c) || LeafMatches(r, p, c)
    case CatNode(l, r) => LeafMatches(l, p, c) || LeafMatches(r, p, c)
    case StarNode(b) => LeafMatches(b, p, c)
  }

  // ----- paths through the position automaton -----

  ghost predicate Steps(t: Node, q: seq<nat>) {
    forall i :: 0 <= i < |q| - 1 ==> q[i + 1] in Follow(t, q[i])
  }

  ghost predicate IsPath(t: Node, q: seq<nat>) {
    q != [] && q[0] in First(t) && q[|q| - 1] in Last(t) && Steps(t, q)
  }

  /** A path from a first to a last position, or the empty path of a nullable tree. */
  ghost predicate Traces(t: Node, q: seq<nat>) {
    if q == [] then Nullable(t) else IsPath(t, q)
  }

  ghost predicate Labels(t: Node, q: seq<nat>, w: Bytes) {
    |q| == |w| && forall i :: 0 <= i < |q| ==> LeafMatches(t, q[i], w[i])
  }

  lemma {:induction false} InIds(t: Node)
    ensures First(t) <= Ids(t) && Last(t) <= Ids(t)
  {
    match t
    case OrNode(l, r) => InIds(l); InIds(r);
    case CatNode(l, r) => InIds(l); InIds(r);
    case StarNode(b) => InIds(b);
    case _ =>
  }

  lemma {:induction false} FollowInIds(t: Node, p: nat)
    ensures Follow(t, p) <= Ids(t)
    ensures p !in Ids(t) ==> Follow(t, p) == {}
  {
    match t
    case OrNode(l, r) => FollowInIds(l, p); FollowInIds(r, p);
    case CatNode(l, r) => InIds(l); InIds(r); FollowInIds(l, p); FollowInIds(r, p);
    case StarNode(b) => InIds(b); FollowInIds(b, p);
    case _ =>
  }

  lemma {:induction false} LeafInIds(t: Node, p: nat, c: Byte)
    requires LeafMatches(t, p, c)
    ensures p in Ids(t)
  {
    match t
    case OrNode(l, r) => if LeafMatches(l, p, c) { LeafInIds(l, p, c); } else { LeafInIds(r, p, c); }
    case CatNode(l, r) => if LeafMatches(l, p, c) { LeafInIds(l, p, c); } else { LeafInIds(r, p, c); }
    case StarNode(b) => LeafInIds(b, p, c);
    case _ =>
  }

  /** A step relation that does not leave `s` keeps a whole path in `s`. */
  lemma {:induction false} StaysIn(s: set<nat>, q: seq<nat>, i: nat)
    requires i < |q| && q[0] in s
    requires forall j :: 0 <= j < |q| - 1 && q[j] in s ==> q[j + 1] in s
    ensures q[i] in s
  {
    if i > 0 {
      StaysIn(s, q, i - 1);
      assert q[i - 1 + 1] in s;
    }
  }

  lemma PathInIds(t: Node, q: seq<nat>)
    requires IsPath(t, q)
    ensures forall i :: 0 <= i < |q| ==> q[i] in Ids(t)
  {
    InIds(t);
    forall i | 0 <= i < |q| ensures q[i] in Ids(t) {
      if i > 0 {
        FollowInIds(t, q[i - 1]);
        assert q[i - 1 + 1] in Follow(t, q[i - 1]);
      }
    }
  }

  // ----- alternatives -----

  lemma OrLeft(l: Node, r: Node, q: seq<nat>)
    requires IsPath(OrNode(l, r), q) && Ids(l) !! Ids(r)
    requires q[0] in First(l)
    ensures IsPath(l, q)
  {
    InIds(l); InIds(r);
    forall j | 0 <= j < |q| - 1 && q[j] in Ids(l) ensures q[j + 1] in Follow(l, q[j]) && q[j + 1] in Ids(l) {
      FollowInIds(l, q[j]); FollowInIds(r, q[j]);
    }
    forall i | 0 <= i < |q| {
      StaysIn(Ids(l), q, i);
    }
  }

  lemma OrRight(l: Node, r: Node, q: seq<nat>)
    requires IsPath(OrNode(l, r), q) && Ids(l) !! Ids(r)
    requires q[0] in First(r)
    ensures IsPath(r, q)
  {
    assert IsPath(OrNode(r, l), q);
    OrLeft(r, l, q);
  }

  lemma OrTraces(l: Node, r: Node, q: seq<nat>)
    requires Ids(l) !! Ids(r)
    ensures Traces(OrNode(l, r), q) <==> Traces(l, q) || Traces(r, q)
  {
    if IsPath(OrNode(l, r), q) {
      if q[0] in First(l) {
        OrLeft(l, r, q);
      } else {
        OrRight(l, r, q);
      }
    }
  }

  // ----- concatenation -----

  lemma CatJoin(l: Node, r: Node, q: seq<nat>, k: nat)
    requires k <= |q| && Traces(l, q[..k]) && Traces(r, q[k..])
    ensures Traces(CatNode(l, r), q)
  {
  }

  /** The first index at which `q` is outside `s`. */
  function FirstOutside(q: seq<nat>, s: set<nat>): (k: nat)
    ensures k <= |q| && (forall i :: 0 <= i < k ==> q[i] in s) && (k < |q| ==> q[k] !in s)
  {
    if q == [] || q[0] !in s then 0 else FirstOutside(q[1..], s) + 1
  }

  /** A path of a concatenation crosses from the left to the right operand once. */
  lemma CatSplit(l: Node, r: Node, q: seq<nat>) returns (k: nat)
    requires Ids(l) !! Ids(r) && Traces(CatNode(l, r), q)
    ensures k <= |q| && Traces(l, q[..k]) && Traces(r, q[k..])
  {
    k := FirstOutside(q, Ids(l));
    if q == [] {
      return;
    }
    InIds(l); InIds(r);
    var t := CatNode(l, r);
    forall j | 0 <= j < |q| - 1
      ensures q[j + 1] in Ids(r) || (q[j + 1] in Ids(l) && q[j + 1] in Follow(l, q[j]))
      ensures q[j] in Ids(r) ==> q[j + 1] in Follow(r, q[j])
      ensures q[j] in Ids(l) && q[j + 1] in Ids(r) ==> q[j] in Last(l) && q[j + 1] in First(r)
    {
      FollowInIds(l, q[j]); FollowInIds(r, q[j]);
    }
    PathInIds(t, q);
    if k < |q| {
      assert q[k] in Ids(r);
      forall i | k <= i < |q| ensures q[i] in Ids(r) {
        assert q[k..][i - k] in Ids(r) by {
          forall j | 0 <= j < |q[k..]| - 1 && q[k..][j] in Ids(r) ensures q[k..][j + 1] in Ids(r) {
            assert q[k + j + 1] in Follow(r, q[k + j]);
            FollowInIds(r, q[k + j]);
          }
          StaysIn(Ids(r), q[k..], i - k);
        }
      }
      assert Steps(r, q[k..]);
      assert q[k..][|q| - k - 1] == q[|q| - 1];
    }
    if k > 0 {
      forall i | 0 <= i < k - 1 ensures q[..k][i + 1] in Follow(l, q[..k][i]) {
        assert q[i + 1] in Ids(l);
      }
      if k < |q| {
        assert q[k - 1] in Ids(l) && q[k - 1 + 1] in Ids(r);
      }
    }
  }

  // ----- repetition -----

  lemma StarJoin(b: Node, q: seq<nat>, k: nat)
    requires 0 < k <= |q| && IsPath(b, q[..k]) && Traces(StarNode(b), q[k..])
    ensures IsPath(StarNode(b), q)
  {
  }

  /** Cut a path of a star at the first step that is not a step of the body. */
  lemma StarSplit(b: Node, q: seq<nat>) returns (k: nat)
    requires IsPath(StarNode(b), q)
    ensures 0 < k <= |q| && IsPath(b, q[..k]) && Traces(StarNode(b), q[k..])
  {
    k := 1;
    while k < |q| && q[k] in Follow(b, q[k - 1])
      invariant 1 <= k <= |q|
      invariant forall i :: 0 <= i < k - 1 ==> q[i + 1] in Follow(b, q[i])
    {
      k := k + 1;
    }
    if k < |q| {
      assert q[k - 1 + 1] in Follow(StarNode(b), q[k - 1]);
      forall i | 0 <= i < |q| - k - 1 ensures q[k..][i + 1] in Follow(StarNode(b), q[k..][i]) {
        assert q[k + i + 1] in Follow(StarNode(b), q[k + i]);
      }
      assert q[k..][|q| - k - 1] == q[|q| - 1];
    }
  }

  // ----- the position-automaton theorem -----

  lemma {:induction false} LabelsLocal(t: Node, part: Node, other: Node, q: seq<nat>, w: Bytes)
    requires t == OrNode(part, other) || t == OrNode(other, part) || t == CatNode(part, other) || t == CatNode(other, part)
    requires Ids(part) !! Ids(other) && forall i :: 0 <= i < |q| ==> q[i] in Ids(part)
    ensures Labels(t, q, w) <==> Labels(part, q, w)
  {
    forall i | 0 <= i < |q| && i < |w| ensures LeafMatches(t, q[i], w[i]) == LeafMatches(part, q[i], w[i]) {
      if LeafMatches(other, q[i], w[i]) {
        LeafInIds(other, q[i], w[i]);
      }
    }
  }

  lemma LabelsUp(t: Node, part: Node, other: Node, q: seq<nat>, w: Bytes)
    requires t == OrNode(part, other) || t == OrNode(other, part) || t == CatNode(part, other)
      || t == CatNode(other, part) || t == StarNode(part)
    requires Labels(part, q, w)
    ensures Labels(t, q, w)
  {
  }

  lemma LabelsJoin(t: Node, q1: seq<nat>, q2: seq<nat>, w: Bytes)
    requires |q1| + |q2| == |w| && Labels(t, q1, w[..|q1|]) && Labels(t, q2, w[|q1|..])
    ensures Labels(t, q1 + q2, w)
  {
  }

  /** Every word of the language labels a path. */
  lemma {:induction false} WordHasPath(t: Node, w: Bytes) returns (q: seq<nat>)
    requires Distinct(t) && Matches(t, w)
    ensures Traces(t, q) && Labels(t, q, w)
    decreases t, |w|
  {
    match t
    case CharNode(_, id) => q := [id];
    case CclNode(_, id) => q := [id];
    case EpsilonNode(_) => q := [];
    case OrNode(l, r) =>
      if Matches(l, w) {
        q := WordHasPath(l, w);
        LabelsUp(t, l, r, q, w);
      } else {
        q := WordHasPath(r, w);
        LabelsUp(t, r, l, q, w);
      }
      OrTraces(l, r, q);
    case CatNode(l, r) =>
      var k := CatElim(l, r, w);
      var q1 := WordHasPath(l, w[..k]);
      var q2 := WordHasPath(r, w[k..]);
      q := q1 + q2;
      assert q[..k] == q1 && q[k..] == q2;
      CatJoin(l, r, q, k);
      LabelsUp(t, l, r, q1, w[..k]);
      LabelsUp(t, r, l, q2, w[k..]);
      LabelsJoin(t, q1, q2, w);
    case StarNode(b) =>
      if w == [] {
        q := [];
      } else {
        var k := StarElim(b, w);
        var q1 := WordHasPath(b, w[..k]);
        var q2 := WordHasPath(t, w[k..]);
        q := q1 + q2;
        assert q[..k] == q1 && q[k..] == q2;
        StarJoin(b, q, k);
        LabelsUp(t, b, b, q1, w[..k]);
        LabelsJoin(t, q1, q2, w);
      }
  }

  lemma LeafPath(t: Node, q: seq<nat>)
    requires (t.CharNode? || t.CclNode?) && IsPath(t, q)
    ensures |q| == 1
  {
    assert |q| > 1 ==> q[0 + 1] in Follow(t, q[0]);
  }

  lemma LabelsSlice(t: Node, q: seq<nat>, w: Bytes, k: nat)
    requires Labels(t, q, w) && k <= |q|
    ensures Labels(t, q[..k], w[..k]) && Labels(t, q[k..], w[k..])
  {
  }

  /** Every labelled path spells a word of the language. */
  lemma {:induction false} PathSpellsWord(t: Node, w: Bytes, q: seq<nat>)
    requires Distinct(t) && Traces(t, q) && Labels(t, q, w)
    ensures Matches(t, w)
    decreases t, |w|
  {
    match t
    case OrNode(l, r) =>
      OrTraces(l, r, q);
      if Traces(l, q) {
        if q != [] { PathInIds(l, q); }
        LabelsLocal(t, l, r, q, w);
        PathSpellsWord(l, w, q);
      } else {
        if q != [] { PathInIds(r, q); }
        LabelsLocal(t, r, l, q, w);
        PathSpellsWord(r, w, q);
      }
    case CatNode(l, r) =>
      var k := CatSplit(l, r, q);
      LabelsSlice(t, q, w, k);
      if k > 0 { PathInIds(l, q[..k]); }
      if k < |q| { PathInIds(r, q[k..]); }
      LabelsLocal(t, l, r, q[..k], w[..k]);
      LabelsLocal(t, r, l, q[k..], w[k..]);
      PathSpellsWord(l, w[..k], q[..k]);
      PathSpellsWord(r, w[k..], q[k..]);
      CatIntro(l, r, w, k);
    case StarNode(b) =>
      if q != [] {
        var k := StarSplit(b, q);
        LabelsSlice(t, q, w, k);
        assert Labels(b, q[..k], w[..k]);
        PathSpellsWord(b, w[..k], q[..k]);
        PathSpellsWord(t, w[k..], q[k..]);
      }
    case CharNode(_, _) => LeafPath(t, q);
    case CclNode(_, _) => LeafPath(t, q);
    case EpsilonNode(_) =>
    case EofNode(_) =>
  }

  lemma PositionAutomaton(t: Node, w: Bytes)
    requires Distinct(t)
    ensures Matches(t, w) <==> exists q :: Traces(t, q) && Labels(t, q, w)
  {
    if Matches(t, w) {
      var q := WordHasPath(t, w);
    }
    if exists q :: Traces(t, q) && Labels(t, q, w) {
      var q :| Traces(t, q) && Labels(t, q, w);
      PathSpellsWord(t, w, q);
    }
  }
}
