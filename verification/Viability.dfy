/** Which inputs a scanner keeps reading: the prefixes of words of some rule. */
module Viability {
  import opened Regex
  import opened Positions
  import opened Simulation

  /** No class leaf of the tree is empty, so that every leaf can be passed. */
  predicate NoEmptyClass(t: Node) {
    match t
    case CclNode(m, _) => exists c: Byte :: m[c]
    case OrNode(l, r) => NoEmptyClass(l) && NoEmptyClass(r)
    case CatNode(l, r) => NoEmptyClass(l) && NoEmptyClass(r)
    case StarNode(b) => NoEmptyClass(b)
    case _ => true
  }

  lemma {:induction false} NumberingKeepsClasses(t: Node, n: nat)
    ensures NoEmptyClass(AssignNodeIds(t, n).0) <==> NoEmptyClass(t)
  {
    match t
    case OrNode(l, r) => NumberingKeepsClasses(l, n); NumberingKeepsClasses(r, AssignNodeIds(l, n).1);
    case CatNode(l, r) => NumberingKeepsClasses(l, n); NumberingKeepsClasses(r, AssignNodeIds(l, n).1);
    case StarNode(b) => NumberingKeepsClasses(b, n);
    case _ =>
  }

  lemma {:induction false} NumberedKeepClasses(parts: seq<Node>, n: nat, i: nat)
    requires AllRules(parts) && i < |parts| == |NumberAll(parts, n).0|
    ensures NoEmptyClass(NumberAll(parts, n).0[i]) <==> NoEmptyClass(parts[i])
  {
    var last := |parts| - 1;
    NumberedRules(parts[..last], n);
    if i < last {
      NumberedKeepClasses(parts[..last], n, i);
    } else {
      NumberingKeepsClasses(parts[last], NumberAll(parts[..last], n).1);
    }
  }

  /** `p` numbers a leaf that is not an epsilon. */
  predicate Solid(t: Node, p: nat) {
    match t
    case EpsilonNode(_) => false
    case CharNode(_, id) => p == id
    case CclNode(_, id) => p == id
    case EofNode(id) => p == id
    case OrNode(l, r) => Solid(l, p) || Solid(r, p)
    case CatNode(l, r) => Solid(l, p) || Solid(r, p)
    case StarNode(b) => Solid(b, p)
  }

  lemma {:induction false} FirstIsSolid(t: Node, p: nat)
    requires p in First(t)
    ensures Solid(t, p)
  {
    match t
    case OrNode(l, r) => if p in First(l) { FirstIsSolid(l, p); } else { FirstIsSolid(r, p); }
    case CatNode(l, r) => if p in First(l) { FirstIsSolid(l, p); } else { FirstIsSolid(r, p); }
    case StarNode(b) => FirstIsSolid(b, p);
    case _ =>
  }

  lemma {:induction false} FollowIsSolid(t: Node, o: nat, p: nat)
    requires p in Follow(t, o)
    ensures Solid(t, p)
  {
    match t
    case OrNode(l, r) => if p in Follow(l, o) { FollowIsSolid(l, o, p); } else { FollowIsSolid(r, o, p); }
    case CatNode(l, r) =>
      if p in Follow(l, o) {
        FollowIsSolid(l, o, p);
      } else if p in Follow(r, o) {
        FollowIsSolid(r, o, p);
      } else {
        FirstIsSolid(r, p);
      }
    case StarNode(b) => if p in Follow(b, o) { FollowIsSolid(b, o, p); } else { FirstIsSolid(b, p); }
    case _ =>
  }

  lemma PathIsSolid(t: Node, q: seq<nat>, i: nat)
    requires IsPath(t, q) && i < |q|
    ensures Solid(t, q[i])
  {
    if i == 0 {
      FirstIsSolid(t, q[0]);
    } else {
      assert q[i - 1 + 1] in Follow(t, q[i - 1]);
      FollowIsSolid(t, q[i - 1], q[i]);
    }
  }

  lemma {:induction false} SomeFirst(t: Node)
    requires !Nullable(t)
    ensures First(t) != {}
  {
    match t
    case OrNode(l, r) => SomeFirst(l); SomeFirst(r);
    case CatNode(l, r) => if Nullable(l) { SomeFirst(r); } else { SomeFirst(l); }
    case CharNode(_, id) => assert id in First(t);
    case CclNode(_, id) => assert id in First(t);
    case EofNode(id) => assert id in First(t);
    case StarNode(_) =>
    case EpsilonNode(_) =>
  }

  /** The steps from `p` to some last position. */
  ghost predicate Escapes(t: Node, p: nat, q: seq<nat>) {
    q != [] && q[0] == p && q[|q| - 1] in Last(t) && Steps(t, q)
  }

  lemma StepsUp(t: Node, part: Node, q: seq<nat>)
    requires Steps(part, q) && forall p :: Follow(part, p) <= Follow(t, p)
    ensures Steps(t, q)
  {
  }

  /** From every position of a tree that is not an epsilon a last position can be reached. */
  lemma {:induction false} PathToLast(t: Node, p: nat) returns (q: seq<nat>)
    requires Solid(t, p)
    ensures Escapes(t, p, q)
  {
    match t
    case OrNode(l, r) =>
      if Solid(l, p) {
        q := PathToLast(l, p);
        StepsUp(t, l, q);
      } else {
        q := PathToLast(r, p);
        StepsUp(t, r, q);
      }
    case CatNode(l, r) =>
      if Solid(r, p) {
        q := PathToLast(r, p);
        StepsUp(t, r, q);
      } else {
        var q1 := PathToLast(l, p);
        StepsUp(t, l, q1);
        if Nullable(r) {
          q := q1;
        } else {
          SomeFirst(r);
          var f :| f in First(r);
          FirstIsSolid(r, f);
          var q2 := PathToLast(r, f);
          StepsUp(t, r, q2);
          q := q1 + q2;
          StepsJoin(t, q1, q2);
        }
      }
    case StarNode(b) =>
      q := PathToLast(b, p);
      StepsUp(t, b, q);
    case _ =>
      q := [p];
  }

  lemma StepsJoin(t: Node, q1: seq<nat>, q2: seq<nat>)
    requires q1 != [] && q2 != [] && Steps(t, q1) && Steps(t, q2) && q2[0] in Follow(t, q1[|q1| - 1])
    ensures Steps(t, q1 + q2)
  {
    var q := q1 + q2;
    forall i | 0 <= i < |q| - 1 ensures q[i + 1] in Follow(t, q[i]) {
      if i + 1 < |q1| {
        assert q1[i + 1] in Follow(t, q1[i]);
      } else if i >= |q1| {
        assert q2[i - |q1| + 1] in Follow(t, q2[i - |q1|]);
      }
    }
  }

  lemma {:induction false} LeafHasByte(t: Node, p: nat) returns (c: Byte)
    requires Solid(t, p) && NoEof(t) && NoEmptyClass(t)
    ensures LeafMatches(t, p, c)
  {
    match t
    case CharNode(ch, _) => c := ch;
    case CclNode(m, _) => c :| m[c];
    case OrNode(l, r) => if Solid(l, p) { c := LeafHasByte(l, p); } else { c := LeafHasByte(r, p); }
    case CatNode(l, r) => if Solid(l, p) { c := LeafHasByte(l, p); } else { c := LeafHasByte(r, p); }
    case StarNode(b) => c := LeafHasByte(b, p);
  }

  /** A run over `w` and a path from its end make one path of the combined tree. */
  lemma RunEscapes(t: Node, w: Bytes, ci: bool, q1: seq<nat>, q2: seq<nat>)
    requires IsRun(t, q1, w, ci) && Escapes(t, q1[|w|], q2)
    ensures IsPath(t, q1 + q2[1..])
  {
    var q := q1 + q2[1..];
    if |q2| > 1 {
      assert q2[0 + 1] in Follow(t, q2[0]);
      forall i | 0 <= i < |q2[1..]| - 1 ensures q2[1..][i + 1] in Follow(t, q2[1..][i]) {
        assert q2[i + 1 + 1] in Follow(t, q2[i + 1]);
      }
      StepsJoin(t, q1, q2[1..]);
    } else {
      assert q == q1;
    }
  }

  /** The position before the end marker of a rule's path can all be passed. */
  lemma {:induction false} BytesAlong(parts: seq<Node>, i: nat, q: seq<nat>, ci: bool, w: Bytes) returns (v: Bytes)
    requires parts != [] && AllRules(parts) && Separate(parts) && i < |parts| && NoEmptyClass(parts[i])
    requires IsPath(parts[i], q) && |w| < |q|
    requires forall j :: 0 <= j < |w| ==> Hits(Combine(parts), q[j], w[j], ci)
    ensures w <= v && |q| == |v| + 1 && forall j :: 0 <= j < |v| ==> Hits(Combine(parts), q[j], v[j], ci)
    decreases |q| - |w|
  {
    if |w| == |q| - 1 {
      v := w;
    } else {
      var l, r := parts[i].left, parts[i].right;
      var k := CatSplit(l, r, q);
      EofPath(r, q[k..]);
      var p := q[|w|];
      assert p == q[..k][|w|];
      PathIsSolid(l, q[..k], |w|);
      var c := LeafHasByte(l, p);
      PathInIds(parts[i], q);
      CombinedLeaf(parts, i, p, c);
      v := BytesAlong(parts, i, q, ci, w + [c]);
    }
  }

  /** As long as the set of positions is not empty, what has been read begins a word of some
      rule. */
  lemma ReachExtends(parts: seq<Node>, w: Bytes, ci: bool) returns (i: nat, v: Bytes)
    requires parts != [] && AllRules(parts) && Separate(parts)
    requires forall j :: 0 <= j < |parts| ==> NoEmptyClass(parts[j])
    requires Reach(Combine(parts), w, ci) != {}
    ensures i < |parts| && w <= v && RuleMatches(Pattern(parts[i]), v, ci)
  {
    var t := Combine(parts);
    var p :| p in Reach(t, w, ci);
    var q1 := ReachHasRun(t, w, ci, p);
    RunEndIsSolid(t, w, ci, q1);
    var q2 := PathToLast(t, p);
    RunEscapes(t, w, ci, q1, q2);
    var q := q1 + q2[1..];
    PathInIds(t, q);
    assert q[0] in Ids(t);
    CombinedIds(parts, q[0]);
    i :| 0 <= i < |parts| && q[0] in Ids(parts[i]);
    PathOfOneRule(parts, q, i);
    forall j | 0 <= j < |w| ensures Hits(t, q[j], w[j], ci) {
      assert q[j] == q1[j];
    }
    v := BytesAlong(parts, i, q, ci, w);
    RunReaches(t, v, ci, q);
    RuleEnds(parts, i, q);
    EofReachedIffRuleMatches(parts, i, v, ci);
  }

  lemma RunEndIsSolid(t: Node, w: Bytes, ci: bool, q: seq<nat>)
    requires IsRun(t, q, w, ci)
    ensures Solid(t, q[|w|])
  {
    if w == [] {
      FirstIsSolid(t, q[0]);
    } else {
      assert q[|w| - 1 + 1] in Follow(t, q[|w| - 1]);
      FollowIsSolid(t, q[|w| - 1], q[|w|]);
    }
  }

  lemma RuleEnds(parts: seq<Node>, i: nat, q: seq<nat>)
    requires AllRules(parts) && i < |parts| && IsPath(parts[i], q)
    ensures q[|q| - 1] == EofId(parts[i])
  {
    assert Last(parts[i]) == Last(parts[i].right) == {EofId(parts[i])};
  }

  // ----- reading up to a leaf -----

  /** `w` can be read up to some further leaf of the tree, whatever that leaf accepts. */
  ghost predicate Leads(t: Node, w: Bytes)
    decreases t, |w|
  {
    match t
    case EpsilonNode(_) => false
    case OrNode(l, r) => Leads(l, w) || Leads(r, w)
    case CatNode(l, r) => Leads(l, w) || exists k :: 0 <= k <= |w| && Matches(l, w[..k]) && Leads(r, w[k..])
    case StarNode(b) => exists k :: 0 <= k <= |w| && Matches(t, w[..k]) && Leads(b, w[k..])
    case _ => w == []
  }

  lemma OrLeads(l: Node, r: Node, w: Bytes)
    requires Leads(l, w) || Leads(r, w)
    ensures Leads(OrNode(l, r), w)
  {
  }

  lemma LeftLeads(l: Node, r: Node, w: Bytes)
    requires Leads(l, w)
    ensures Leads(CatNode(l, r), w)
  {
  }

  lemma LeafLeads(t: Node)
    requires t.CharNode? || t.CclNode? || t.EofNode?
    ensures Leads(t, [])
  {
  }

  lemma CatLeads(l: Node, r: Node, w: Bytes, k: nat)
    requires k <= |w| && Matches(l, w[..k]) && Leads(r, w[k..])
    ensures Leads(CatNode(l, r), w)
  {
  }

  lemma CatLed(l: Node, r: Node, w: Bytes) returns (k: nat)
    requires Leads(CatNode(l, r), w) && !Leads(l, w)
    ensures k <= |w| && Matches(l, w[..k]) && Leads(r, w[k..])
  {
    k :| 0 <= k <= |w| && Matches(l, w[..k]) && Leads(r, w[k..]);
  }

  lemma StarLeads(b: Node, w: Bytes, k: nat)
    requires k <= |w| && Matches(StarNode(b), w[..k]) && Leads(b, w[k..])
    ensures Leads(StarNode(b), w)
  {
  }

  lemma StarLed(b: Node, w: Bytes) returns (k: nat)
    requires Leads(StarNode(b), w)
    ensures k <= |w| && Matches(StarNode(b), w[..k]) && Leads(b, w[k..])
  {
    k :| 0 <= k <= |w| && Matches(StarNode(b), w[..k]) && Leads(b, w[k..]);
  }

  lemma {:induction false} NumberingKeepsLeads(t: Node, n: nat, w: Bytes)
    ensures Leads(AssignNodeIds(t, n).0, w) <==> Leads(t, w)
    decreases t, |w|
  {
    hide Matches;
    var t' := AssignNodeIds(t, n).0;
    match t
    case OrNode(l, r) =>
      NumberingKeepsLeads(l, n, w);
      NumberingKeepsLeads(r, AssignNodeIds(l, n).1, w);
    case CatNode(l, r) =>
      var m := AssignNodeIds(l, n).1;
      NumberingKeepsLeads(l, n, w);
      if Leads(t', w) && !Leads(t'.left, w) {
        var k := CatLed(t'.left, t'.right, w);
        NumberingKeepsLanguage(l, n, w[..k]);
        NumberingKeepsLeads(r, m, w[k..]);
        CatLeads(l, r, w, k);
      }
      if Leads(t, w) && !Leads(l, w) {
        var k := CatLed(l, r, w);
        NumberingKeepsLanguage(l, n, w[..k]);
        NumberingKeepsLeads(r, m, w[k..]);
        CatLeads(t'.left, t'.right, w, k);
      }
    case StarNode(b) =>
      if Leads(t', w) {
        var k := StarLed(t'.body, w);
        NumberingKeepsLanguage(t, n, w[..k]);
        NumberingKeepsLeads(b, n, w[k..]);
        StarLeads(b, w, k);
      }
      if Leads(t, w) {
        var k := StarLed(b, w);
        NumberingKeepsLanguage(t, n, w[..k]);
        NumberingKeepsLeads(b, n, w[k..]);
        StarLeads(t'.body, w, k);
      }
    case _ =>
  }

  /** A path that passes `w` and has come to one more position. */
  ghost predicate LeafRun(t: Node, q: seq<nat>, w: Bytes) {
    |q| == |w| + 1 && q[0] in First(t) && Steps(t, q) && forall i :: 0 <= i < |w| ==> LeafMatches(t, q[i], w[i])
  }

  lemma RunUp(t: Node, part: Node, q: seq<nat>, w: Bytes)
    requires t == part || t.OrNode? || t.CatNode? || t.StarNode?
    requires t.OrNode? ==> part == t.left || part == t.right
    requires t.CatNode? ==> part == t.left
    requires t.StarNode? ==> part == t.body
    requires LeafRun(part, q, w)
    ensures LeafRun(t, q, w)
  {
  }

  /** A traced word and a run behind it make a run of the whole. */
  lemma RunBehind(t: Node, q1: seq<nat>, q2: seq<nat>, w: Bytes)
    requires |q1| <= |w| && |q2| == |w| - |q1| + 1
    requires q1 == [] ==> q2[0] in First(t)
    requires q1 != [] ==> q1[0] in First(t) && Steps(t, q1) && q2[0] in Follow(t, q1[|q1| - 1])
    requires Labels(t, q1, w[..|q1|]) && Steps(t, q2)
    requires forall i :: 0 <= i < |q2| - 1 ==> LeafMatches(t, q2[i], w[|q1| + i])
    ensures LeafRun(t, q1 + q2, w)
  {
    var q := q1 + q2;
    if q1 != [] {
      StepsJoin(t, q1, q2);
    } else {
      assert q == q2;
    }
    forall i | 0 <= i < |w| ensures LeafMatches(t, q[i], w[i]) {
      if i < |q1| {
        assert LeafMatches(t, q1[i], w[..|q1|][i]);
      } else {
        assert LeafMatches(t, q2[i - |q1|], w[|q1| + (i - |q1|)]);
      }
    }
  }

  lemma CatRun(l: Node, r: Node, q1: seq<nat>, q2: seq<nat>, w: Bytes, k: nat)
    requires k <= |w| && Traces(l, q1) && Labels(l, q1, w[..k]) && LeafRun(r, q2, w[k..])
    ensures LeafRun(CatNode(l, r), q1 + q2, w)
  {
    var t := CatNode(l, r);
    StepsUp(t, r, q2);
    if q1 != [] {
      StepsUp(t, l, q1);
    }
    forall i | 0 <= i < |q2| - 1 ensures LeafMatches(t, q2[i], w[|q1| + i]) {
      assert LeafMatches(r, q2[i], w[k..][i]);
    }
    RunBehind(t, q1, q2, w);
  }

  lemma StarRun(b: Node, q1: seq<nat>, q2: seq<nat>, w: Bytes, k: nat)
    requires k <= |w| && Traces(StarNode(b), q1) && Labels(StarNode(b), q1, w[..k]) && LeafRun(b, q2, w[k..])
    ensures LeafRun(StarNode(b), q1 + q2, w)
  {
    var t := StarNode(b);
    StepsUp(t, b, q2);
    forall i | 0 <= i < |q2| - 1 ensures LeafMatches(t, q2[i], w[|q1| + i]) {
      assert LeafMatches(b, q2[i], w[k..][i]);
    }
    RunBehind(t, q1, q2, w);
  }

  lemma {:induction false} LeadsHasRun(t: Node, w: Bytes) returns (q: seq<nat>)
    requires Distinct(t) && Leads(t, w)
    ensures LeafRun(t, q, w)
    decreases t, |w|
  {
    hide Matches, LeafRun, Traces, Labels;
    match t
    case OrNode(l, r) =>
      if Leads(l, w) {
        q := LeadsHasRun(l, w);
        RunUp(t, l, q, w);
      } else {
        q := LeadsHasRun(r, w);
        RunUp(t, r, q, w);
      }
    case CatNode(l, r) =>
      if Leads(l, w) {
        q := LeadsHasRun(l, w);
        RunUp(t, l, q, w);
      } else {
        var k := CatLed(l, r, w);
        var q1 := WordHasPath(l, w[..k]);
        var q2 := LeadsHasRun(r, w[k..]);
        q := q1 + q2;
        CatRun(l, r, q1, q2, w, k);
      }
    case StarNode(b) =>
      var k := StarLed(b, w);
      var q1 := WordHasPath(t, w[..k]);
      var q2 := LeadsHasRun(b, w[k..]);
      q := q1 + q2;
      StarRun(b, q1, q2, w, k);
    case CharNode(_, id) => q := [id]; LeafRunAtOnce(t, id);
    case CclNode(_, id) => q := [id]; LeafRunAtOnce(t, id);
    case EofNode(id) => q := [id]; LeafRunAtOnce(t, id);
  }

  lemma LeafRunAtOnce(t: Node, id: nat)
    requires id in First(t)
    ensures LeafRun(t, [id], [])
  {
  }

  /** Every run can be prolonged to a path. */
  lemma RunToPath(t: Node, q: seq<nat>, w: Bytes) returns (full: seq<nat>)
    requires LeafRun(t, q, w)
    ensures IsPath(t, full) && q <= full
  {
    if w == [] {
      FirstIsSolid(t, q[0]);
    } else {
      assert q[|w| - 1 + 1] in Follow(t, q[|w| - 1]);
      FollowIsSolid(t, q[|w| - 1], q[|w|]);
    }
    var more := PathToLast(t, q[|w|]);
    full := q + more[1..];
    if |more| > 1 {
      assert more[0 + 1] in Follow(t, more[0]);
      forall i | 0 <= i < |more[1..]| - 1 ensures more[1..][i + 1] in Follow(t, more[1..][i]) {
        assert more[i + 1 + 1] in Follow(t, more[i + 1]);
      }
      StepsJoin(t, q, more[1..]);
    } else {
      assert full == q;
    }
  }

  lemma RunOfPath(part: Node, full: seq<nat>, q: seq<nat>, w: Bytes)
    requires IsPath(part, full) && q <= full && |q| == |w| + 1
    requires forall i :: 0 <= i < |w| ==> LeafMatches(part, q[i], w[i])
    ensures LeafRun(part, q, w)
  {
    forall i | 0 <= i < |q| - 1 ensures q[i + 1] in Follow(part, q[i]) {
      assert full[i + 1] in Follow(part, full[i]);
    }
  }

  lemma {:induction false} RunLeads(t: Node, w: Bytes, q: seq<nat>)
    requires Distinct(t) && LeafRun(t, q, w)
    ensures Leads(t, w)
    decreases t, |w|
  {
    hide Matches, Leads;
    match t
    case OrNode(l, r) =>
      var full := RunToPath(t, q, w);
      OrTraces(l, r, full);
      if IsPath(l, full) {
        PathInIds(l, full);
        LabelsLocal(t, l, r, q[..|w|], w);
        RunOfPath(l, full, q, w);
        RunLeads(l, w, q);
        OrLeads(l, r, w);
      } else {
        PathInIds(r, full);
        LabelsLocal(t, r, l, q[..|w|], w);
        RunOfPath(r, full, q, w);
        RunLeads(r, w, q);
        OrLeads(l, r, w);
      }
    case CatNode(l, r) =>
      var full := RunToPath(t, q, w);
      var k := CatSplit(l, r, full);
      if |w| < k {
        RunInLeft(l, r, full, k, q, w);
        RunLeads(l, w, q);
        LeftLeads(l, r, w);
      } else {
        RunInRight(l, r, full, k, q, w);
        PathSpellsWord(l, w[..k], q[..k]);
        RunLeads(r, w[k..], q[k..]);
        CatLeads(l, r, w, k);
      }
    case StarNode(b) =>
      var full := RunToPath(t, q, w);
      var k := StarSplit(b, full);
      if |w| < k {
        assert q <= full[..k];
        RunOfPath(b, full[..k], q, w);
        RunLeads(b, w, q);
        EmptyStar(b, w);
      } else {
        RunInRest(b, full, k, q, w);
        PathSpellsWord(b, w[..k], q[..k]);
        RunLeads(t, w[k..], q[k..]);
        var j := StarLed(b, w[k..]);
        StarGoesOn(b, w, k, j);
      }
    case _ => LeafHasNoFollow(t, q, w); LeafLeads(t);
  }

  lemma LeafHasNoFollow(t: Node, q: seq<nat>, w: Bytes)
    requires LeafRun(t, q, w) && !t.OrNode? && !t.CatNode? && !t.StarNode?
    ensures w == [] && !t.EpsilonNode?
  {
    assert w != [] ==> q[0 + 1] in Follow(t, q[0]);
  }

  lemma EmptyStar(b: Node, w: Bytes)
    requires Leads(b, w)
    ensures Leads(StarNode(b), w)
  {
    assert w[..0] == [] && w[0..] == w;
    assert Matches(StarNode(b), []);
    StarLeads(b, w, 0);
  }

  lemma StarGoesOn(b: Node, w: Bytes, k: nat, j: nat)
    requires 0 < k && k + j <= |w| && Matches(b, w[..k])
    requires Matches(StarNode(b), w[k..][..j]) && Leads(b, w[k..][j..])
    ensures Leads(StarNode(b), w)
  {
    hide Matches;
    assert w[..k + j][..k] == w[..k] && w[..k + j][k..] == w[k..][..j] && w[k + j..] == w[k..][j..];
    StarIntro(b, w[..k + j], k);
    StarLeads(b, w, k + j);
  }

  lemma RunInLeft(l: Node, r: Node, full: seq<nat>, k: nat, q: seq<nat>, w: Bytes)
    requires Ids(l) !! Ids(r) && k <= |full| && Traces(l, full[..k]) && |w| < k
    requires LeafRun(CatNode(l, r), q, w) && q <= full
    ensures LeafRun(l, q, w)
  {
    PathInIds(l, full[..k]);
    assert q <= full[..k];
    forall i | 0 <= i < |w| ensures q[..|w|][i] in Ids(l) {
      assert q[i] == full[..k][i];
    }
    LabelsLocal(CatNode(l, r), l, r, q[..|w|], w);
    RunOfPath(l, full[..k], q, w);
  }

  lemma RunInRight(l: Node, r: Node, full: seq<nat>, k: nat, q: seq<nat>, w: Bytes)
    requires Ids(l) !! Ids(r) && k <= |full| && Traces(l, full[..k]) && Traces(r, full[k..]) && k <= |w|
    requires LeafRun(CatNode(l, r), q, w) && q <= full
    ensures k <= |q| && Traces(l, q[..k]) && Labels(l, q[..k], w[..k]) && LeafRun(r, q[k..], w[k..])
  {
    assert q[..k] == full[..k];
    if k > 0 { PathInIds(l, full[..k]); }
    LabelsLocal(CatNode(l, r), l, r, q[..k], w[..k]);
    PathInIds(r, full[k..]);
    assert q[k..] <= full[k..];
    var q', w' := q[k..|w|], w[k..];
    forall i | 0 <= i < |q'| ensures q'[i] in Ids(r) {
      assert q'[i] == full[k..][i];
    }
    LabelsLocal(CatNode(l, r), r, l, q', w');
    RunOfPath(r, full[k..], q[k..], w');
  }

  lemma RunInRest(b: Node, full: seq<nat>, k: nat, q: seq<nat>, w: Bytes)
    requires 0 < k <= |full| && IsPath(b, full[..k]) && Traces(StarNode(b), full[k..]) && k <= |w|
    requires LeafRun(StarNode(b), q, w) && q <= full
    ensures k <= |q| && IsPath(b, q[..k]) && Labels(b, q[..k], w[..k]) && LeafRun(StarNode(b), q[k..], w[k..])
  {
    assert q[..k] == full[..k];
    assert q[k..] <= full[k..] && |q[k..]| == |w[k..]| + 1;
    RunOfPath(StarNode(b), full[k..], q[k..], w[k..]);
  }

  /** A rule with its end marker leads on from some spelling of `w`. */
  ghost predicate RuleLeads(part: Node, w: Bytes, ci: bool) {
    exists v :: Spelling(v, w, ci) && Leads(part, v)
  }

  lemma ReachLeads(parts: seq<Node>, w: Bytes, ci: bool) returns (i: nat)
    requires parts != [] && AllRules(parts) && Separate(parts) && Reach(Combine(parts), w, ci) != {}
    ensures i < |parts| && RuleLeads(parts[i], w, ci)
  {
    var t := Combine(parts);
    var p :| p in Reach(t, w, ci);
    var q1 := ReachHasRun(t, w, ci, p);
    RunEndIsSolid(t, w, ci, q1);
    var q2 := PathToLast(t, p);
    RunEscapes(t, w, ci, q1, q2);
    var q := q1 + q2[1..];
    PathInIds(t, q);
    assert q[0] in Ids(t);
    CombinedIds(parts, q[0]);
    i :| 0 <= i < |parts| && q[0] in Ids(parts[i]);
    PathOfOneRule(parts, q, i);
    PathInIds(parts[i], q);
    var v := seq(|w|, j requires 0 <= j < |w| => if LeafMatches(t, q[j], w[j]) then w[j] else SwapCase(w[j]));
    forall j | 0 <= j < |w| ensures LeafMatches(parts[i], q1[j], v[j]) {
      assert Hits(t, q1[j], w[j], ci) && q1[j] == q[j];
      CombinedLeaf(parts, i, q[j], v[j]);
    }
    if !ci {
      assert v == w;
    }
    RunOfPath(parts[i], q, q1, v);
    RunLeads(parts[i], v, q1);
    assert Spelling(v, w, ci);
  }

  lemma LeadsReaches(parts: seq<Node>, i: nat, w: Bytes, ci: bool)
    requires parts != [] && AllRules(parts) && Separate(parts) && i < |parts| && RuleLeads(parts[i], w, ci)
    ensures Reach(Combine(parts), w, ci) != {}
  {
    var t := Combine(parts);
    var v :| Spelling(v, w, ci) && Leads(parts[i], v);
    var q := LeadsHasRun(parts[i], v);
    var full := RunToPath(parts[i], q, v);
    RulePathIsCombined(parts, full, i);
    PathInIds(parts[i], full);
    forall j | 0 <= j < |w| ensures Hits(t, q[j], w[j], ci) {
      assert q[j] == full[j];
      CombinedLeaf(parts, i, q[j], v[j]);
    }
    forall j | 0 <= j < |q| - 1 ensures q[j + 1] in Follow(t, q[j]) {
      assert full[j + 1] in Follow(t, full[j]);
    }
    RunReaches(t, w, ci, q);
  }

  /** The set of positions is not empty exactly as long as some rule leads on. */
  lemma ReachIsLed(parts: seq<Node>, w: Bytes, ci: bool)
    requires parts != [] && AllRules(parts) && Separate(parts)
    ensures Reach(Combine(parts), w, ci) != {} <==> exists i :: 0 <= i < |parts| && RuleLeads(parts[i], w, ci)
  {
    if Reach(Combine(parts), w, ci) != {} {
      var i := ReachLeads(parts, w, ci);
    }
    if exists i :: 0 <= i < |parts| && RuleLeads(parts[i], w, ci) {
      var i :| 0 <= i < |parts| && RuleLeads(parts[i], w, ci);
      LeadsReaches(parts, i, w, ci);
    }
  }

  // ----- rules without empty classes -----

  ghost predicate Begins(parts: seq<Node>, w: Bytes, ci: bool)
    requires AllRules(parts)
  {
    exists i, v :: 0 <= i < |parts| && w <= v && RuleMatches(Pattern(parts[i]), v, ci)
  }

  lemma ReachBegins(parts: seq<Node>, w: Bytes, ci: bool)
    requires parts != [] && AllRules(parts) && Separate(parts)
    requires forall j :: 0 <= j < |parts| ==> NoEmptyClass(parts[j])
    ensures Reach(Combine(parts), w, ci) != {} <==> Begins(parts, w, ci)
  {
    if Reach(Combine(parts), w, ci) != {} {
      var i, v := ReachExtends(parts, w, ci);
    }
    if Begins(parts, w, ci) {
      var i, v :| 0 <= i < |parts| && w <= v && RuleMatches(Pattern(parts[i]), v, ci);
      EofReachedIffRuleMatches(parts, i, v, ci);
      if Reach(Combine(parts), w, ci) == {} {
        DeadStaysDead(Combine(parts), w, v, ci);
      }
    }
  }

  /** The set of positions is not empty exactly as long as some rule leads on to a further leaf;
      without empty classes these are the prefixes of words of some rule. */
  lemma ReachIsViable(parts: seq<Node>, w: Bytes, ci: bool)
    requires parts != [] && AllRules(parts) && Separate(parts)
    ensures Reach(Combine(parts), w, ci) != {} <==> exists i :: 0 <= i < |parts| && RuleLeads(parts[i], w, ci)
    ensures (forall j :: 0 <= j < |parts| ==> NoEmptyClass(parts[j])) ==>
      (Reach(Combine(parts), w, ci) != {} <==> Begins(parts, w, ci))
  {
    ReachIsLed(parts, w, ci);
    if forall j :: 0 <= j < |parts| ==> NoEmptyClass(parts[j]) {
      ReachBegins(parts, w, ci);
    }
  }

  lemma {:induction false} NumberedKeepLeads(parts: seq<Node>, n: nat, i: nat, w: Bytes, ci: bool)
    requires AllRules(parts) && i < |parts| == |NumberAll(parts, n).0|
    ensures RuleLeads(NumberAll(parts, n).0[i], w, ci) <==> RuleLeads(parts[i], w, ci)
  {
    hide Leads;
    var last := |parts| - 1;
    NumberedRules(parts[..last], n);
    if i < last {
      NumberedKeepLeads(parts[..last], n, i, w, ci);
    } else {
      forall v {
        NumberingKeepsLeads(parts[last], NumberAll(parts[..last], n).1, v);
      }
    }
  }
}
