/** Compiling a second time: `create_dfa_for_state` of server/p4l/lexer.h on a lexer state that
    already has tables. */
module Overlays {
  import opened Regex
  import opened Dfas

  /** What compiling needs of the tables that are already there. */
  predicate Appendable(b: Dfa) {
    |b.transitionTable| == |b.acceptanceIndex| && forall s :: 0 <= s < |b.transitionTable| ==> |b.transitionTable[s]| == 256
  }

  function Over(old_: int, new_: int): int {
    if new_ == INVALID_NODE then old_ else new_
  }

  function OldCell(b: Dfa, s: nat, c: nat): int
    requires Appendable(b) && c < 256
  {
    if s < |b.transitionTable| then b.transitionTable[s][c] else INVALID_NODE
  }

  function OldVerdict(b: Dfa, s: nat): int {
    if s < |b.acceptanceIndex| then b.acceptanceIndex[s] else INVALID_NODE
  }

  function NewCell(f: Dfa, s: nat, c: nat): int
    requires Appendable(f) && c < 256
  {
    if s < |f.transitionTable| then f.transitionTable[s][c] else INVALID_NODE
  }

  /** The construction appends one empty row for each of its states, but numbers the states from
      0, and it writes only the cells that lead somewhere: cells of old tables shine through. */
  function Overlay(b: Dfa, f: Dfa): (d: Dfa)
    requires Appendable(b) && Appendable(f)
    ensures Appendable(d) && |d.transitionTable| == |b.transitionTable| + |f.transitionTable|
    ensures forall s, c :: 0 <= s < |d.transitionTable| && 0 <= c < 256 ==>
      d.transitionTable[s][c] == Over(OldCell(b, s, c), NewCell(f, s, c))
    ensures forall s :: 0 <= s < |d.acceptanceIndex| ==> d.acceptanceIndex[s] == Over(OldVerdict(b, s), OldVerdict(f, s))
  {
    var n := |b.transitionTable| + |f.transitionTable|;
    Dfa(seq(n, s requires 0 <= s => seq(256, c requires 0 <= c < 256 => Over(OldCell(b, s, c), NewCell(f, s, c)))),
        seq(n, s requires 0 <= s => Over(OldVerdict(b, s), OldVerdict(f, s))))
  }

  lemma OverlayNothing(f: Dfa)
    requires Appendable(f)
    ensures Overlay(EMPTY_DFA, f) == f
  {
    var d := Overlay(EMPTY_DFA, f);
    forall s | 0 <= s < |f.transitionTable| ensures d.transitionTable[s] == f.transitionTable[s] {
      assert forall c :: 0 <= c < 256 ==> d.transitionTable[s][c] == f.transitionTable[s][c];
    }
    assert d.transitionTable == f.transitionTable && d.acceptanceIndex == f.acceptanceIndex;
  }

  /** State `s` of the new tables has no cell and no verdict of the old ones left in it. */
  ghost predicate Clear(b: Dfa, f: Dfa, s: nat)
    requires Appendable(b) && Appendable(f) && s < |f.transitionTable|
  {
    && (forall c :: 0 <= c < 256 && f.transitionTable[s][c] == INVALID_NODE ==> OldCell(b, s, c) == INVALID_NODE)
    && (f.acceptanceIndex[s] == INVALID_NODE ==> OldVerdict(b, s) == INVALID_NODE)
  }

  ghost predicate AllClear(b: Dfa, f: Dfa)
    requires Appendable(b) && WellFormed(f)
  {
    forall w :: Walk(f, w) != INVALID_NODE ==> Clear(b, f, Walk(f, w))
  }

  ghost predicate SameWalks(d: Dfa, f: Dfa)
    requires WellFormed(d) && WellFormed(f)
  {
    forall w :: Walk(d, w) == Walk(f, w) && Verdict(d, w) == Verdict(f, w)
  }

  lemma OverlayWellFormed(b: Dfa, f: Dfa)
    requires WellFormed(f) && (b == EMPTY_DFA || WellFormed(b))
    ensures Appendable(b) && WellFormed(Overlay(b, f))
  {
    var d := Overlay(b, f);
    forall s, c | 0 <= s < |d.transitionTable| && 0 <= c < 256
      ensures INVALID_NODE <= d.transitionTable[s][c] < |d.transitionTable|
    {
    }
    forall s | 0 <= s < |d.acceptanceIndex| ensures INVALID_NODE <= d.acceptanceIndex[s] {
    }
  }

  lemma {:induction false} OverlayWalk(b: Dfa, f: Dfa, w: Bytes)
    requires WellFormed(f) && Appendable(b) && WellFormed(Overlay(b, f)) && AllClear(b, f)
    ensures Walk(Overlay(b, f), w) == Walk(f, w)
  {
    if w != [] {
      OverlayWalk(b, f, w[..|w| - 1]);
      var s := Walk(f, w[..|w| - 1]);
      if s != INVALID_NODE {
        assert Clear(b, f, s);
      }
    }
  }

  /** Where the fresh tables go on, the overlay goes the same way. */
  lemma {:induction false} OverlayPrefersNew(b: Dfa, f: Dfa, w: Bytes)
    requires WellFormed(f) && Appendable(b) && WellFormed(Overlay(b, f))
    requires Walk(f, w) != INVALID_NODE
    ensures Walk(Overlay(b, f), w) == Walk(f, w)
  {
    if w != [] {
      OverlayPrefersNew(b, f, w[..|w| - 1]);
    }
  }

  lemma WalkOneMore(d: Dfa, w: Bytes, c: Byte)
    requires WellFormed(d) && Walk(d, w) != INVALID_NODE
    ensures Walk(d, w + [c]) == d.transitionTable[Walk(d, w)][c]
  {
    assert (w + [c])[..|w + [c]| - 1] == w;
  }

  /** Compiling over old tables gives tables that walk and answer like fresh ones exactly when
      no state that can be reached has a cell or a verdict of the old ones left in it. */
  lemma RecompilingIsClean(b: Dfa, f: Dfa)
    requires WellFormed(f) && Appendable(b) && WellFormed(Overlay(b, f))
    ensures SameWalks(Overlay(b, f), f) <==> AllClear(b, f)
  {
    var d := Overlay(b, f);
    if AllClear(b, f) {
      forall w ensures Walk(d, w) == Walk(f, w) && Verdict(d, w) == Verdict(f, w) {
        OverlayWalk(b, f, w);
        if Walk(f, w) != INVALID_NODE {
          assert Clear(b, f, Walk(f, w));
        }
      }
    }
    if SameWalks(d, f) {
      forall w | Walk(f, w) != INVALID_NODE ensures Clear(b, f, Walk(f, w)) {
        var s := Walk(f, w);
        assert Verdict(d, w) == Verdict(f, w);
        forall c | 0 <= c < 256 && f.transitionTable[s][c] == INVALID_NODE ensures OldCell(b, s, c) == INVALID_NODE {
          var x: Byte := c;
          WalkOneMore(d, w, x);
          WalkOneMore(f, w, x);
          assert Walk(d, w + [x]) == Walk(f, w + [x]);
        }
      }
    }
  }

  /** A byte that only the old tables accept is still accepted. */
  lemma StaleByte(b: Dfa, f: Dfa, c: Byte)
    requires WellFormed(b) && WellFormed(f) && WellFormed(Overlay(b, f))
    requires Verdict(b, [c]) != INVALID_NODE && Walk(f, [c]) == INVALID_NODE
    ensures Verdict(Overlay(b, f), [c]) != INVALID_NODE
  {
    assert [] + [c] == [c];
    WalkOneMore(b, [], c);
    WalkOneMore(f, [], c);
    WalkOneMore(Overlay(b, f), [], c);
  }
}
