/** The tables computed from a numbered rule tree before the subset construction:
    `compute_followpos`, `compute_state_match`, `make_case_insensitive`, `get_eof_ids`. */
module Tables {
  import opened Regex
  import opened Positions
  import opened Simulation

  // ----- followpos -----

  type FollowTable = map<nat, set<nat>>

  /** `followpos[p]`, where an absent key reads as the empty set. */
  function Lookup(f: FollowTable, p: nat): set<nat> {
    if p in f then f[p] else {}
  }

  method InsertAll(f0: FollowTable, from: set<nat>, targets: set<nat>) returns (f: FollowTable)
    ensures forall p :: Lookup(f, p) == Lookup(f0, p) + (if p in from then targets else {})
  {
    f := f0;
    var rest := from;
    while rest != {}
      invariant rest <= from
      invariant forall p :: Lookup(f, p) == Lookup(f0, p) + (if p in from - rest then targets else {})
      decreases rest
    {
      var i :| i in rest;
      f := f[i := Lookup(f, i) + targets];
      rest := rest - {i};
    }
  }

  method ComputeFollowpos(t: Node, f0: FollowTable) returns (f: FollowTable)
    ensures forall p :: Lookup(f, p) == Lookup(f0, p) + Follow(t, p)
  {
    match t
    case OrNode(l, r) =>
      f := ComputeFollowpos(l, f0);
      f := ComputeFollowpos(r, f);
    case CatNode(l, r) =>
      f := InsertAll(f0, Last(l), First(r));
      f := ComputeFollowpos(l, f);
      f := ComputeFollowpos(r, f);
    case StarNode(b) =>
      f := InsertAll(f0, Last(t), First(t));
      f := ComputeFollowpos(b, f);
    case _ =>
      f := f0;
  }

  // ----- state_match -----

  type StateMatch = seq<seq<bool>>

  /** `std::vector::resize`. */
  function Resize<T>(s: seq<T>, n: nat, fill: T): (r: seq<T>)
    ensures |r| == n && forall i :: 0 <= i < n ==> r[i] == if i < |s| then s[i] else fill
  {
    if n <= |s| then s[..n] else s + seq(n - |s|, _ => fill)
  }

  ghost function LeafRow(t: Node, p: nat): Row {
    seq(256, c requires 0 <= c < 256 => LeafMatches(t, p, c))
  }

  /** `t` carries the numbers that `assign_node_ids` gives it from `n` on. */
  ghost predicate Numbered(t: Node, n: nat) {
    AssignNodeIds(t, n).0 == t
  }

  lemma {:induction false} NumberingIsIdempotent(t: Node, n: nat)
    ensures AssignNodeIds(AssignNodeIds(t, n).0, n) == AssignNodeIds(t, n)
  {
    match t
    case OrNode(l, r) => NumberingIsIdempotent(l, n); NumberingIsIdempotent(r, AssignNodeIds(l, n).1);
    case CatNode(l, r) => NumberingIsIdempotent(l, n); NumberingIsIdempotent(r, AssignNodeIds(l, n).1);
    case StarNode(b) => NumberingIsIdempotent(b, n);
    case _ =>
  }

  /** The rows of the two operands of a numbered alternative or concatenation. */
  lemma OperandRows(t: Node, l: Node, r: Node, n: nat)
    requires t == OrNode(l, r) || t == CatNode(l, r)
    requires Numbered(t, n)
    ensures var m := AssignNodeIds(l, n).1;
      && Numbered(l, n) && Numbered(r, m) && AssignNodeIds(t, n).1 == AssignNodeIds(r, m).1
      && (forall p :: n <= p < m ==> LeafRow(t, p) == LeafRow(l, p))
      && (forall p :: m <= p < AssignNodeIds(t, n).1 ==> LeafRow(t, p) == LeafRow(r, p))
  {
    var m := AssignNodeIds(l, n).1;
    NumberingIsDistinct(l, n);
    NumberingIsDistinct(r, m);
    forall p | n <= p < m ensures LeafRow(t, p) == LeafRow(l, p) {
      OnlyLeafOf(t, l, r, p);
    }
    forall p | m <= p < AssignNodeIds(t, n).1 ensures LeafRow(t, p) == LeafRow(r, p) {
      OnlyLeafOf(t, r, l, p);
    }
  }

  lemma OnlyLeafOf(t: Node, part: Node, other: Node, p: nat)
    requires t == OrNode(part, other) || t == OrNode(other, part) || t == CatNode(part, other) || t == CatNode(other, part)
    requires p !in Ids(other)
    ensures LeafRow(t, p) == LeafRow(part, p)
  {
    forall c: Byte ensures LeafRow(t, p)[c] == LeafRow(part, p)[c] {
      if LeafMatches(other, p, c) {
        LeafInIds(other, p, c);
      }
    }
  }

  method ComputeStateMatch(t: Node, sm0: StateMatch) returns (sm: StateMatch)
    requires Numbered(t, |sm0|)
    ensures |sm| == AssignNodeIds(t, |sm0|).1 > |sm0| && sm[..|sm0|] == sm0
    ensures forall p :: |sm0| <= p < |sm| ==> sm[p] == LeafRow(t, p)
  {
    match t
    case CharNode(c, id) =>
      sm := if |sm0| < id + 1 then Resize(sm0, id + 1, []) else sm0;
      sm := sm[id := Resize(sm[id], 256, false)];
      sm := sm[id := sm[id][c := true]];
    case CclNode(m, id) =>
      sm := if |sm0| < id + 1 then Resize(sm0, id + 1, []) else sm0;
      sm := sm[id := m];
    case EpsilonNode(id) =>
      sm := if |sm0| < id + 1 then Resize(sm0, id + 1, []) else sm0;
      sm := sm[id := Resize(sm[id], 256, true)];
    case EofNode(id) =>
      sm := if |sm0| < id + 1 then Resize(sm0, id + 1, []) else sm0;
      sm := sm[id := Resize(sm[id], 256, false)];
    case OrNode(l, r) =>
      OperandRows(t, l, r, |sm0|);
      var sm1 := ComputeStateMatch(l, sm0);
      sm := ComputeStateMatch(r, sm1);
      assert forall p :: 0 <= p < |sm1| ==> sm[p] == sm[..|sm1|][p];
    case CatNode(l, r) =>
      OperandRows(t, l, r, |sm0|);
      var sm1 := ComputeStateMatch(l, sm0);
      sm := ComputeStateMatch(r, sm1);
      assert forall p :: 0 <= p < |sm1| ==> sm[p] == sm[..|sm1|][p];
    case StarNode(b) =>
      sm := ComputeStateMatch(b, sm0);
  }

  ghost predicate Rectangular(sm: StateMatch) {
    forall p :: 0 <= p < |sm| ==> |sm[p]| == 256
  }

  ghost predicate Folded(row: Row, row0: Row, upTo: nat) {
    forall c: Byte :: row[c] == (row0[c] || (row0[SwapCase(c)] && (c < upTo || 97 <= c < upTo + 32)))
  }

  /** Every letter of `row` matches when either case of it did; other bytes are unchanged. */
  ghost predicate CaseClosed(row: seq<bool>, row0: seq<bool>)
    requires |row| == |row0| == 256
  {
    forall c: Byte :: row[c] == (row0[c] || row0[SwapCase(c)])
  }

  method MakeCaseInsensitive(sm0: StateMatch) returns (sm: StateMatch)
    requires Rectangular(sm0)
    ensures |sm| == |sm0| && Rectangular(sm)
    ensures forall p :: 0 <= p < |sm| ==> CaseClosed(sm[p], sm0[p])
  {
    sm := sm0;
    for p := 0 to |sm0|
      invariant |sm| == |sm0| && Rectangular(sm)
      invariant forall k :: p <= k < |sm| ==> sm[k] == sm0[k]
      invariant forall k :: 0 <= k < p ==> CaseClosed(sm[k], sm0[k])
    {
      var row: Row := sm[p];
      for i := 65 to 91
        invariant Folded(row, sm0[p], i)
      {
        var j := i + 32;
        var either := row[i] || row[j];
        row := row[i := either][j := either];
      }
      assert CaseClosed(row, sm0[p]);
      sm := sm[p := row];
    }
  }

  // ----- end markers -----

  function EofIds(t: Node): set<nat> {
    match t
    case EofNode(id) => {id}
    case OrNode(l, r) => EofIds(l) + EofIds(r)
    case CatNode(l, r) => EofIds(l) + EofIds(r)
    case StarNode(b) => EofIds(b)
    case _ => {}
  }

  lemma {:induction false} PatternHasNoEofIds(t: Node)
    requires NoEof(t)
    ensures EofIds(t) == {}
  {
    match t
    case OrNode(l, r) => PatternHasNoEofIds(l); PatternHasNoEofIds(r);
    case CatNode(l, r) => PatternHasNoEofIds(l); PatternHasNoEofIds(r);
    case StarNode(b) => PatternHasNoEofIds(b);
    case _ =>
  }

  lemma {:induction false} CombinedEofIds(parts: seq<Node>, e: nat)
    requires parts != [] && AllRules(parts)
    ensures e in EofIds(Combine(parts)) <==> exists i :: 0 <= i < |parts| && EofId(parts[i]) == e
  {
    var last := |parts| - 1;
    PatternHasNoEofIds(parts[last].left);
    assert EofIds(parts[last]) == {EofId(parts[last])};
    if last > 0 {
      CombinedEofIds(parts[..last], e);
    }
  }

  /** The next element of an ordered `std::set<node_id_t>`. */
  lemma {:induction false} HasMin(s: set<nat>) returns (m: nat)
    requires s != {}
    ensures m in s && forall k :: k in s ==> m <= k
  {
    var x :| x in s;
    if s == {x} {
      m := x;
    } else {
      var m' := HasMin(s - {x});
      m := if m' < x then m' else x;
      assert forall k :: k in s ==> k == x || k in s - {x};
    }
  }

  method Min(s: set<nat>) returns (m: nat)
    requires s != {}
    ensures m in s && forall k :: k in s ==> m <= k
  {
    ghost var least := HasMin(s);
    m :| m in s && forall k :: k in s ==> m <= k;
  }

  ghost function EofOrder(parts: seq<Node>): seq<nat>
    requires AllRules(parts)
  {
    seq(|parts|, i requires 0 <= i < |parts| => EofId(parts[i]))
  }

  /** Number the elements of an ordered set from 0 upwards; `order` lists them ascending. */
  method IndexInOrder(ids: set<nat>, ghost order: seq<nat>) returns (index: map<nat, nat>)
    requires forall i, j :: 0 <= i < j < |order| ==> order[i] < order[j]
    requires forall e :: e in ids <==> e in order
    ensures forall i :: 0 <= i < |order| ==> order[i] in index && index[order[i]] == i
  {
    index := map[];
    var x := 0;
    var rest := ids;
    while rest != {}
      invariant x <= |order|
      invariant forall i :: 0 <= i < x ==> order[i] in index && index[order[i]] == i
      invariant forall e :: e in rest ==> e in order[x..]
      invariant forall i :: x <= i < |order| ==> order[i] in rest
      decreases rest
    {
      var e := Min(rest);
      assert e == order[x];
      index := index[e := x];
      rest := rest - {e};
      x := x + 1;
    }
  }

  /** The lowest end marker in the current state group, if there is one. */
  method FindAcceptanceState(eofIds: set<nat>, current: set<nat>) returns (found: bool, id: nat)
    ensures !found ==> eofIds !! current
    ensures found ==> id in eofIds && id in current && forall k :: k in eofIds && k in current ==> id <= k
  {
    var rest := eofIds;
    while rest != {}
      invariant rest <= eofIds && (eofIds - rest) !! current
      decreases rest
    {
      id := Min(rest);
      if id in current {
        return true, id;
      }
      rest := rest - {id};
    }
    found, id := false, 0;
  }
}
