/** The subset construction of `create_dfa_for_state`. */
module Subset {
  import opened Common
  import opened Regex
  import opened Positions
  import opened Simulation
  import opened Dfas
  import opened Tables

  // ----- how many state groups there can be -----

  lemma {:induction false} RemovingIsInjective(f: set<set<nat>>, x: nat)
    requires forall s :: s in f ==> x in s
    ensures |set s | s in f :: s - {x}| == |f|
  {
    var g := set s | s in f :: s - {x};
    if f == {} {
      assert g == {};
    } else {
      var t :| t in f;
      var f', g' := f - {t}, set s | s in f - {t} :: s - {x};
      RemovingIsInjective(f', x);
      assert t - {x} !in g' by {
        forall s | s in f' ensures s - {x} != t - {x} {
          assert s == s - {x} + {x} && t == t - {x} + {x};
        }
      }
      assert g == g' + {t - {x}};
    }
  }

  lemma {:induction false} SubsetCount(s: set<nat>, f: set<set<nat>>)
    requires forall u :: u in f ==> u <= s
    ensures |f| <= Pow2(|s|)
  {
    if s == {} {
      forall u | u in f ensures u == {} {
        assert u <= s;
      }
      assert f == {} || f == {{}};
    } else {
      var x :| x in s;
      var s' := s - {x};
      var with := set u | u in f && x in u;
      var reduced := set u | u in with :: u - {x};
      RemovingIsInjective(with, x);
      assert forall u :: u in f - with ==> u <= s';
      SubsetCount(s', f - with);
      SubsetCount(s', reduced);
      assert |s| == |s'| + 1 && |f| == |f - with| + |with|;
    }
  }

  // ----- state groups -----

  /** Acceptance value of a set of positions: the first rule whose end marker it holds. */
  ghost predicate AcceptOk(parts: seq<Node>, group: set<nat>, a: int)
    requires AllRules(parts)
  {
    if a == INVALID_NODE then forall i :: 0 <= i < |parts| ==> EofId(parts[i]) !in group
    else 0 <= a < |parts| && EofId(parts[a]) in group && forall i :: 0 <= i < a ==> EofId(parts[i]) !in group
  }

  /** The local variables of the construction: position sets to state numbers and back,
      which states are processed, and the tables under construction. */
  datatype Groups = Groups(dstates1: map<set<nat>, nat>, dstates2: map<nat, set<nat>>, marked: seq<bool>, dfa: Dfa)

  ghost predicate Inverse(g: Groups) {
    && (forall i: nat :: i in g.dstates2 <==> i < |g.marked|)
    && (forall i :: i in g.dstates2 ==> g.dstates2[i] in g.dstates1 && g.dstates1[g.dstates2[i]] == i)
    && (forall u :: u in g.dstates1 ==> g.dstates1[u] in g.dstates2 && g.dstates2[g.dstates1[u]] == u)
  }

  ghost predicate GroupsOk(parts: seq<Node>, g: Groups)
    requires parts != [] && AllRules(parts)
  {
    && WellFormed(g.dfa) && |g.marked| == |g.dfa.transitionTable|
    && Inverse(g)
    && (forall i :: i in g.dstates2 ==> g.dstates2[i] <= Ids(Combine(parts)))
    && g.dstates2[0] == First(Combine(parts))
    && (forall i :: 0 <= i < |g.marked| ==> AcceptOk(parts, g.dstates2[i], g.dfa.acceptanceIndex[i]))
  }

  /** A processed cell holds the number of the group that its byte leads to. */
  ghost predicate CellOk(t: Node, ci: bool, g: Groups, group: set<nat>, c: Byte, e: int) {
    var u := Move(t, group, c, ci);
    if u == {} then e == INVALID_NODE else u in g.dstates1 && e == g.dstates1[u]
  }

  /** The first `upTo` cells of row `i` are processed, the others untouched. */
  ghost predicate RowOk(t: Node, ci: bool, g: Groups, i: nat, upTo: nat)
    requires WellFormed(g.dfa) && i < |g.dfa.transitionTable| && i in g.dstates2 && upTo <= 256
  {
    && (forall c :: 0 <= c < upTo ==> CellOk(t, ci, g, g.dstates2[i], c, g.dfa.transitionTable[i][c]))
    && (forall c :: upTo <= c < 256 ==> g.dfa.transitionTable[i][c] == INVALID_NODE)
  }

  /** `h` has all groups of `g` under the same numbers. */
  ghost predicate Extends(g: Groups, h: Groups) {
    && |g.dfa.transitionTable| <= |h.dfa.transitionTable|
    && g.dfa.transitionTable == h.dfa.transitionTable[..|g.dfa.transitionTable|]
    && |g.marked| <= |h.marked| && g.marked == h.marked[..|g.marked|]
    && (forall i :: |g.marked| <= i < |h.marked| ==> !h.marked[i])
    && (forall i :: i in g.dstates2 ==> i in h.dstates2 && h.dstates2[i] == g.dstates2[i])
    && (forall u :: u in g.dstates1 ==> u in h.dstates1 && h.dstates1[u] == g.dstates1[u])
  }

  /** What the construction reads: the numbered rules and the tables made from them. */
  datatype Inputs = Inputs(followpos: FollowTable, stateMatch: StateMatch, eofIds: set<nat>, eofIndex: map<nat, nat>)

  ghost predicate InputsOk(parts: seq<Node>, ci: bool, x: Inputs)
    requires parts != [] && AllRules(parts)
  {
    var t := Combine(parts);
    && (forall p :: Lookup(x.followpos, p) == Follow(t, p))
    && Rectangular(x.stateMatch)
    && (forall p :: p in Ids(t) ==> p < |x.stateMatch|)
    && (forall p, c: Byte :: p in Ids(t) ==> x.stateMatch[p][c] == Hits(t, p, c, ci))
    && (forall e :: e in x.eofIds <==> e in EofOrder(parts))
    && EofsIncrease(parts)
    && (forall i :: 0 <= i < |parts| ==> EofId(parts[i]) in x.eofIndex && x.eofIndex[EofId(parts[i])] == i)
  }

  method Acceptance(x: Inputs, group: set<nat>, ghost parts: seq<Node>, ghost ci: bool) returns (a: int)
    requires parts != [] && AllRules(parts) && InputsOk(parts, ci, x)
    ensures AcceptOk(parts, group, a)
  {
    var found, id := FindAcceptanceState(x.eofIds, group);
    ghost var order := EofOrder(parts);
    if found {
      ghost var i :| 0 <= i < |order| && order[i] == id;
      forall j | 0 <= j < i ensures EofId(parts[j]) !in group {
        assert order[j] in order;
      }
      a := x.eofIndex[id];
    } else {
      forall j | 0 <= j < |parts| ensures EofId(parts[j]) !in group {
        assert order[j] in order;
      }
      a := INVALID_NODE;
    }
  }

  /** The union of `followpos` over the positions of a group that match byte `j`. */
  method MoveSet(x: Inputs, group: set<nat>, j: Byte, ghost parts: seq<Node>, ghost ci: bool) returns (u: set<nat>)
    requires parts != [] && AllRules(parts) && InputsOk(parts, ci, x) && group <= Ids(Combine(parts))
    ensures u == Move(Combine(parts), group, j, ci)
  {
    ghost var t := Combine(parts);
    u := {};
    var rest := group;
    while rest != {}
      invariant rest <= group
      invariant u == Move(t, group - rest, j, ci)
      decreases rest
    {
      var p :| p in rest;
      ghost var done := group - rest;
      if x.stateMatch[p][j] {
        u := u + Lookup(x.followpos, p);
      }
      rest := rest - {p};
      assert group - rest == done + {p};
    }
    assert group - {} == group;
  }

  method AddState(g: Groups, u: set<nat>, a: int, ghost parts: seq<Node>) returns (h: Groups, target: nat)
    requires parts != [] && AllRules(parts) && GroupsOk(parts, g)
    requires u <= Ids(Combine(parts)) && u !in g.dstates1 && AcceptOk(parts, u, a)
    ensures GroupsOk(parts, h) && Extends(g, h) && u in h.dstates1 && h.dstates1[u] == target
    ensures forall i :: |g.marked| <= i < |h.marked| ==> h.dfa.transitionTable[i] == seq(256, _ => INVALID_NODE)
  {
    hide Combine, Ids, AllRules, AcceptOk, WellFormed, Inverse;
    target := |g.marked|;
    h := Groups(g.dstates1[u := target], g.dstates2[target := u], g.marked + [false],
                Dfa(g.dfa.transitionTable + [seq(256, _ => INVALID_NODE)], g.dfa.acceptanceIndex + [a]));
    AcceptedInRange(parts, u, a);
    OneRowMore(g.dfa, a);
    OneGroupMore(g, h, u);
  }

  lemma AcceptedInRange(parts: seq<Node>, u: set<nat>, a: int)
    requires AllRules(parts) && AcceptOk(parts, u, a)
    ensures INVALID_NODE <= a
  {
  }

  lemma OneRowMore(d: Dfa, a: int)
    requires WellFormed(d) && INVALID_NODE <= a
    ensures 0 < |d.transitionTable| == |d.acceptanceIndex|
    ensures WellFormed(Dfa(d.transitionTable + [seq(256, _ => INVALID_NODE)], d.acceptanceIndex + [a]))
  {
  }

  lemma OneGroupMore(g: Groups, h: Groups, u: set<nat>)
    requires Inverse(g) && u !in g.dstates1 && |h.marked| == |g.marked| + 1
    requires h.dstates1 == g.dstates1[u := |g.marked|] && h.dstates2 == g.dstates2[|g.marked| := u]
    ensures Inverse(h)
    ensures forall i: nat :: i < |g.marked| ==> i in g.dstates2
    ensures forall i :: i in g.dstates2 ==> i in h.dstates2 && i < |g.marked| && h.dstates2[i] == g.dstates2[i]
  {
    assert forall i :: i in g.dstates2 ==> i < |g.marked|;
  }

  /** Find the number of a group, adding it to the states if it is new. */
  method StateFor(x: Inputs, g: Groups, u: set<nat>, ghost parts: seq<Node>, ghost ci: bool)
    returns (h: Groups, target: nat)
    requires parts != [] && AllRules(parts) && InputsOk(parts, ci, x)
    requires GroupsOk(parts, g) && u <= Ids(Combine(parts))
    ensures GroupsOk(parts, h) && Extends(g, h) && u in h.dstates1 && h.dstates1[u] == target
    ensures forall i :: |g.marked| <= i < |h.marked| ==> h.dfa.transitionTable[i] == seq(256, _ => INVALID_NODE)
  {
    if u !in g.dstates1 {
      var a := Acceptance(x, u, parts, ci);
      h, target := AddState(g, u, a, parts);
    } else {
      target := g.dstates1[u];
      h := g;
    }
  }

  method FindUnmarked(marked: seq<bool>) returns (i: nat)
    ensures i <= |marked| && (forall k :: 0 <= k < i ==> marked[k]) && (i < |marked| ==> !marked[i])
  {
    i := 0;
    while i < |marked| && marked[i]
      invariant i <= |marked| && forall k :: 0 <= k < i ==> marked[k]
    {
      i := i + 1;
    }
  }

  ghost predicate MarkedUpTo(g: Groups, n: nat) {
    n <= |g.marked| && forall i :: 0 <= i < |g.marked| ==> (g.marked[i] <==> i < n)
  }

  /** How far row `i` is filled while cell `j` of row `n` is next. */
  function Filled(i: nat, n: nat, j: nat): nat {
    if i < n then 256 else if i == n then j else 0
  }

  /** Rows below `n` are complete, row `n` is filled up to cell `j`, later rows are untouched. */
  ghost predicate RowsOk(t: Node, ci: bool, g: Groups, n: nat, j: nat)
    requires WellFormed(g.dfa) && Inverse(g) && |g.marked| == |g.dfa.transitionTable| && j <= 256
  {
    forall i :: 0 <= i < |g.marked| ==> RowOk(t, ci, g, i, Filled(i, n, j))
  }

  lemma RowsExtend(t: Node, ci: bool, g: Groups, h: Groups, n: nat, j: nat)
    requires WellFormed(g.dfa) && Inverse(g) && |g.marked| == |g.dfa.transitionTable| && j <= 256
    requires WellFormed(h.dfa) && Inverse(h) && |h.marked| == |h.dfa.transitionTable|
    requires n < |g.marked| && RowsOk(t, ci, g, n, j) && Extends(g, h)
    requires forall i :: |g.marked| <= i < |h.marked| ==> h.dfa.transitionTable[i] == seq(256, _ => INVALID_NODE)
    ensures RowsOk(t, ci, h, n, j)
  {
    forall i | 0 <= i < |h.marked| ensures RowOk(t, ci, h, i, Filled(i, n, j)) {
      if i < |g.marked| {
        assert h.dfa.transitionTable[i] == g.dfa.transitionTable[i];
        assert RowOk(t, ci, g, i, Filled(i, n, j));
      }
    }
  }

  lemma AtMostAllSubsets(parts: seq<Node>, g: Groups)
    requires parts != [] && AllRules(parts) && GroupsOk(parts, g)
    ensures |g.marked| <= Pow2(|Ids(Combine(parts))|)
  {
    SubsetCount(Ids(Combine(parts)), g.dstates1.Keys);
    InitialSegment(g.dstates2.Keys, |g.marked|);
    ValuesBound(g.dstates2, g.dstates1);
  }

  lemma {:induction false} InitialSegment(s: set<nat>, n: nat)
    requires forall i: nat :: i in s <==> i < n
    ensures |s| == n
  {
    if n > 0 {
      InitialSegment(s - {n - 1}, n - 1);
    } else {
      assert s == {};
    }
  }

  /** An injection from numbers to sets has no more numbers than sets. */
  lemma {:induction false} ImageCount(m: map<nat, set<nat>>, dom: set<nat>, img: set<set<nat>>)
    requires forall i :: i in dom ==> i in m && m[i] in img
    requires forall i, j :: i in dom && j in dom && m[i] == m[j] ==> i == j
    ensures |dom| <= |img|
    decreases |dom|
  {
    if dom != {} {
      var i :| i in dom;
      ImageCount(m, dom - {i}, img - {m[i]});
      assert |dom| == |dom - {i}| + 1 && |img| == |img - {m[i]}| + 1;
    }
  }

  lemma ValuesBound(m: map<nat, set<nat>>, back: map<set<nat>, nat>)
    requires forall i :: i in m ==> m[i] in back && back[m[i]] == i
    ensures |m| <= |back|
  {
    ImageCount(m, m.Keys, back.Keys);
  }

  method FillWith(x: Inputs, g: Groups, s: nat, j: Byte, u: set<nat>, ghost parts: seq<Node>, ghost ci: bool)
    returns (h: Groups)
    requires parts != [] && AllRules(parts) && InputsOk(parts, ci, x)
    requires GroupsOk(parts, g) && s < |g.marked| && MarkedUpTo(g, s + 1) && RowsOk(Combine(parts), ci, g, s, j)
    requires u == Move(Combine(parts), g.dstates2[s], j, ci) && u != {} && u <= Ids(Combine(parts))
    ensures GroupsOk(parts, h) && s < |h.marked| && MarkedUpTo(h, s + 1) && RowsOk(Combine(parts), ci, h, s, j + 1)
  {
    ghost var t := Combine(parts);
    var g', target := StateFor(x, g, u, parts, ci);
    MarksExtend(g, g', s + 1);
    RowsExtend(t, ci, g, g', s, j);
    h := SetTransition(g', s, j, target, parts);
    CellFilled(t, ci, g', h, s, j);
  }

  lemma MarksExtend(g: Groups, h: Groups, n: nat)
    requires MarkedUpTo(g, n) && Extends(g, h)
    ensures MarkedUpTo(h, n)
  {
  }

  /** Fill one cell of the row being processed. */
  method FillCell(x: Inputs, g: Groups, s: nat, j: Byte, ghost parts: seq<Node>, ghost ci: bool) returns (h: Groups)
    requires parts != [] && AllRules(parts) && InputsOk(parts, ci, x)
    requires GroupsOk(parts, g) && s < |g.marked| && MarkedUpTo(g, s + 1) && RowsOk(Combine(parts), ci, g, s, j)
    ensures GroupsOk(parts, h) && s < |h.marked| && MarkedUpTo(h, s + 1) && RowsOk(Combine(parts), ci, h, s, j + 1)
  {
    ghost var t := Combine(parts);
    var u := MoveSet(x, g.dstates2[s], j, parts, ci);
    if |u| > 0 {
      MoveInIds(t, g.dstates2[s], j, ci);
      h := FillWith(x, g, s, j, u, parts, ci);
    } else {
      h := g;
      assert RowOk(t, ci, g, s, Filled(s, s, j));
      CellFilled(t, ci, g, h, s, j);
    }
  }

  method SetTransition(g: Groups, s: nat, j: Byte, target: nat, ghost parts: seq<Node>) returns (h: Groups)
    requires parts != [] && AllRules(parts) && GroupsOk(parts, g) && s < |g.marked| && target < |g.marked|
    ensures GroupsOk(parts, h) && h == g.(dfa := h.dfa)
    ensures |h.dfa.transitionTable| == |g.dfa.transitionTable|
    ensures forall i :: 0 <= i < |g.marked| && i != s ==> h.dfa.transitionTable[i] == g.dfa.transitionTable[i]
    ensures h.dfa.transitionTable[s] == g.dfa.transitionTable[s][j := target]
  {
    var row := g.dfa.transitionTable[s][j := target];
    h := g.(dfa := g.dfa.(transitionTable := g.dfa.transitionTable[s := row]));
  }

  lemma CellFilled(t: Node, ci: bool, g: Groups, h: Groups, s: nat, j: Byte)
    requires WellFormed(g.dfa) && Inverse(g) && |g.marked| == |g.dfa.transitionTable|
    requires WellFormed(h.dfa) && h == g.(dfa := h.dfa) && |h.dfa.transitionTable| == |g.dfa.transitionTable|
    requires s < |g.marked| && RowsOk(t, ci, g, s, j)
    requires forall i :: 0 <= i < |g.marked| && i != s ==> h.dfa.transitionTable[i] == g.dfa.transitionTable[i]
    requires forall c :: 0 <= c < 256 && c != j ==> h.dfa.transitionTable[s][c] == g.dfa.transitionTable[s][c]
    requires CellOk(t, ci, h, h.dstates2[s], j, h.dfa.transitionTable[s][j])
    ensures RowsOk(t, ci, h, s, j + 1)
  {
    assert RowOk(t, ci, g, s, Filled(s, s, j));
    var next := j + 1;
    forall i | 0 <= i < |h.marked| ensures RowOk(t, ci, h, i, Filled(i, s, next)) {
      if i != s {
        assert RowOk(t, ci, g, i, Filled(i, s, j));
      }
    }
  }

  lemma MoveInIds(t: Node, s: set<nat>, c: Byte, ci: bool)
    ensures Move(t, s, c, ci) <= Ids(t)
  {
    forall p { FollowInIds(t, p); }
  }

  /** Process one unmarked group: mark it and fill its row. */
  method ProcessGroup(x: Inputs, g0: Groups, i: nat, ghost parts: seq<Node>, ghost ci: bool) returns (g: Groups)
    requires parts != [] && AllRules(parts) && InputsOk(parts, ci, x)
    requires GroupsOk(parts, g0) && MarkedUpTo(g0, i) && i < |g0.marked| && RowsOk(Combine(parts), ci, g0, i, 0)
    ensures GroupsOk(parts, g) && MarkedUpTo(g, i + 1) && RowsOk(Combine(parts), ci, g, i + 1, 0)
  {
    ghost var t := Combine(parts);
    g := g0.(marked := g0.marked[i := true]);
    assert forall k :: 0 <= k < |g.marked| ==> RowOk(t, ci, g0, k, Filled(k, i, 0));
    var j := 0;
    while j < 256
      invariant 0 <= j <= 256
      invariant GroupsOk(parts, g) && i < |g.marked| && MarkedUpTo(g, i + 1) && RowsOk(t, ci, g, i, j)
    {
      g := FillCell(x, g, i, j, parts, ci);
      j := j + 1;
    }
    RowComplete(t, ci, g, i);
  }

  lemma RowComplete(t: Node, ci: bool, g: Groups, i: nat)
    requires WellFormed(g.dfa) && Inverse(g) && |g.marked| == |g.dfa.transitionTable|
    requires RowsOk(t, ci, g, i, 256)
    ensures RowsOk(t, ci, g, i + 1, 0)
  {
    var next := i + 1;
    forall k | 0 <= k < |g.marked| ensures RowOk(t, ci, g, k, Filled(k, next, 0)) {
      assert RowOk(t, ci, g, k, Filled(k, i, 256));
    }
  }

  lemma NextUnmarked(g: Groups, n: nat, i: nat)
    requires MarkedUpTo(g, n) && i <= |g.marked|
    requires (forall k :: 0 <= k < i ==> g.marked[k]) && (i < |g.marked| ==> !g.marked[i])
    ensures i == n
  {
    assert n < |g.marked| ==> !g.marked[n];
  }

  /** Initially the only group is `firstpos(root)`, and it is unmarked. */
  method InitialGroups(x: Inputs, start: set<nat>, ghost parts: seq<Node>, ghost ci: bool) returns (g: Groups)
    requires parts != [] && AllRules(parts) && InputsOk(parts, ci, x) && start == First(Combine(parts))
    ensures GroupsOk(parts, g) && MarkedUpTo(g, 0) && RowsOk(Combine(parts), ci, g, 0, 0)
  {
    InIds(Combine(parts));
    var a := Acceptance(x, start, parts, ci);
    g := Groups(map[start := 0], map[0 := start], [false], Dfa([seq(256, _ => INVALID_NODE)], [a]));
    assert RowOk(Combine(parts), ci, g, 0, Filled(0, 0, 0));
  }

  /** The worklist loop: process the first unmarked group until none is left. */
  method Construct(x: Inputs, start: set<nat>, ghost parts: seq<Node>, ghost ci: bool) returns (g: Groups)
    requires parts != [] && AllRules(parts) && InputsOk(parts, ci, x) && start == First(Combine(parts))
    ensures GroupsOk(parts, g) && RowsOk(Combine(parts), ci, g, |g.marked|, 0)
    ensures |g.marked| <= Pow2(|Ids(Combine(parts))|)
  {
    hide RowsOk, InputsOk, Ids, Combine, AllRules, AcceptOk, Inverse, WellFormed;
    ghost var t := Combine(parts);
    g := InitialGroups(x, start, parts, ci);
    var i := FindUnmarked(g.marked);
    NextUnmarked(g, 0, i);
    while i < |g.marked|
      invariant GroupsOk(parts, g) && MarkedUpTo(g, i) && RowsOk(t, ci, g, i, 0)
      decreases Pow2(|Ids(t)|) - i
    {
      AtMostAllSubsets(parts, g);
      g := ProcessGroup(x, g, i, parts, ci);
      ghost var next := i + 1;
      i := FindUnmarked(g.marked);
      NextUnmarked(g, next, i);
    }
    AtMostAllSubsets(parts, g);
  }

  // ----- the tables simulate the position automaton -----

  /** After any word the walk is at the number of exactly the reachable position set. */
  lemma {:induction false} WalkIsReach(parts: seq<Node>, ci: bool, g: Groups, w: Bytes)
    requires parts != [] && AllRules(parts) && GroupsOk(parts, g) && RowsOk(Combine(parts), ci, g, |g.marked|, 0)
    ensures var s := Walk(g.dfa, w);
      if s == INVALID_NODE then w != [] && Reach(Combine(parts), w, ci) == {}
      else s in g.dstates2 && g.dstates2[s] == Reach(Combine(parts), w, ci)
  {
    if w != [] {
      var w', c := w[..|w| - 1], w[|w| - 1];
      WalkIsReach(parts, ci, g, w');
      var s := Walk(g.dfa, w');
      if s != INVALID_NODE {
        assert RowOk(Combine(parts), ci, g, s, Filled(s, |g.marked|, 0));
        assert CellOk(Combine(parts), ci, g, g.dstates2[s], c, g.dfa.transitionTable[s][c]);
      }
    }
  }

  lemma ConstructionTracks(parts: seq<Node>, ci: bool, g: Groups)
    requires parts != [] && AllRules(parts) && GroupsOk(parts, g) && RowsOk(Combine(parts), ci, g, |g.marked|, 0)
    ensures Tracks(g.dfa, Combine(parts), ci)
  {
    hide RowsOk, Reach;
    forall w ensures Walk(g.dfa, w) == INVALID_NODE <==> w != [] && Reach(Combine(parts), w, ci) == {} {
      WalkIsReach(parts, ci, g, w);
      if w != [] && Walk(g.dfa, w) != INVALID_NODE {
        GroupsAreNotEmpty(parts, ci, g, w);
      }
    }
  }

  /** Only the start group can be empty. */
  lemma GroupsAreNotEmpty(parts: seq<Node>, ci: bool, g: Groups, w: Bytes)
    requires parts != [] && AllRules(parts) && GroupsOk(parts, g) && RowsOk(Combine(parts), ci, g, |g.marked|, 0)
    requires w != [] && Walk(g.dfa, w) != INVALID_NODE
    ensures Reach(Combine(parts), w, ci) != {}
  {
    var w', c := w[..|w| - 1], w[|w| - 1];
    WalkIsReach(parts, ci, g, w');
    var s := Walk(g.dfa, w');
    assert RowOk(Combine(parts), ci, g, s, Filled(s, |g.marked|, 0));
    assert CellOk(Combine(parts), ci, g, g.dstates2[s], c, g.dfa.transitionTable[s][c]);
  }

  lemma VerdictsAreRules(parts: seq<Node>, g: Groups)
    requires parts != [] && AllRules(parts) && GroupsOk(parts, g)
    ensures Bounded(g.dfa, |parts|)
  {
    forall s | 0 <= s < |g.dfa.acceptanceIndex| ensures g.dfa.acceptanceIndex[s] < |parts| {
      assert AcceptOk(parts, g.dstates2[s], g.dfa.acceptanceIndex[s]);
    }
  }

  lemma ConstructionImplementsRules(parts: seq<Node>, rules: seq<Node>, ci: bool, g: Groups)
    requires parts != [] && AllRules(parts) && Separate(parts)
    requires GroupsOk(parts, g) && RowsOk(Combine(parts), ci, g, |g.marked|, 0)
    requires |rules| == |parts|
    requires forall i, w :: 0 <= i < |rules| ==> (RuleMatches(Pattern(parts[i]), w, ci) <==> RuleMatches(rules[i], w, ci))
    ensures Implements(g.dfa, rules, ci)
  {
    forall w ensures FirstRule(rules, w, ci, Verdict(g.dfa, w)) {
      VerdictIsAcceptance(parts, ci, g, w);
      forall i | 0 <= i < |parts|
        ensures EofId(parts[i]) in Reach(Combine(parts), w, ci) <==> RuleMatches(rules[i], w, ci)
      {
        EofReachedIffRuleMatches(parts, i, w, ci);
      }
      hide Verdict, RuleMatches, Reach, GroupsOk, RowsOk;
    }
  }

  /** The verdict of a word is the first rule whose end marker its position set holds. */
  lemma VerdictIsAcceptance(parts: seq<Node>, ci: bool, g: Groups, w: Bytes)
    requires parts != [] && AllRules(parts) && GroupsOk(parts, g) && RowsOk(Combine(parts), ci, g, |g.marked|, 0)
    ensures AcceptOk(parts, Reach(Combine(parts), w, ci), Verdict(g.dfa, w))
  {
    WalkIsReach(parts, ci, g, w);
    hide RowsOk, Reach, Inverse;
    var s := Walk(g.dfa, w);
    if s != INVALID_NODE {
      assert AcceptOk(parts, g.dstates2[s], g.dfa.acceptanceIndex[s]);
    }
  }
}
