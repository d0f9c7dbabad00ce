/** Regular-expression syntax trees and the languages they denote
    (the node classes of server/p4l/lexer.h). */
module Regex {
  type Byte = b: nat | b < 256
  type Row = r: seq<bool> | |r| == 256 witness seq(256, _ => false)
  type Bytes = seq<Byte>

  /** Every leaf carries the position number that `assign_node_ids` gives it; the node
      constructors of the source start all of them at 0. */
  datatype Node =
    | CharNode(c: Byte, id: nat)
    | CclNode(members: Row, id: nat)
    | EpsilonNode(id: nat)
    | EofNode(id: nat)
    | OrNode(left: Node, right: Node)
    | CatNode(left: Node, right: Node)
    | StarNode(body: Node)

  /** The language of a tree. An end-of-rule marker consumes no byte sequence at all. */
  ghost predicate Matches(t: Node, w: Bytes)
    decreases t, |w|
  {
    match t
    case CharNode(c, _) => w == [c]
    case CclNode(m, _) => |w| == 1 && m[w[0]]
    case EpsilonNode(_) => w == []
    case EofNode(_) => false
    case OrNode(l, r) => Matches(l, w) || Matches(r, w)
    case CatNode(l, r) => exists k :: 0 <= k <= |w| && Matches(l, w[..k]) && Matches(r, w[k..])
    case StarNode(b) =>
      w == [] || exists k :: 0 < k <= |w| && Matches(b, w[..k]) && Matches(t, w[k..])
  }

  type Language = iset<Bytes>

  ghost function Lang(t: Node): Language {
    iset w | Matches(t, w)
  }

  /** `w` is a concatenation of exactly `n` words of `L`. */
  ghost predicate Power(L: Language, n: nat, w: Bytes) {
    if n == 0 then w == []
    else exists k :: 0 <= k <= |w| && w[..k] in L && Power(L, n - 1, w[k..])
  }

  lemma CatIntro(l: Node, r: Node, w: Bytes, k: nat)
    requires k <= |w| && Matches(l, w[..k]) && Matches(r, w[k..])
    ensures Matches(CatNode(l, r), w)
  {
  }

  lemma CatElim(l: Node, r: Node, w: Bytes) returns (k: nat)
    requires Matches(CatNode(l, r), w)
    ensures k <= |w| && Matches(l, w[..k]) && Matches(r, w[k..])
  {
    k :| 0 <= k <= |w| && Matches(l, w[..k]) && Matches(r, w[k..]);
  }

  lemma StarIntro(b: Node, w: Bytes, k: nat)
    requires 0 < k <= |w| && Matches(b, w[..k]) && Matches(StarNode(b), w[k..])
    ensures Matches(StarNode(b), w)
  {
  }

  lemma StarElim(b: Node, w: Bytes) returns (k: nat)
    requires Matches(StarNode(b), w) && w != []
    ensures 0 < k <= |w| && Matches(b, w[..k]) && Matches(StarNode(b), w[k..])
  {
    k :| 0 < k <= |w| && Matches(b, w[..k]) && Matches(StarNode(b), w[k..]);
  }

  lemma PowerStep(L: Language, n: nat, w: Bytes, k: nat)
    requires k <= |w| && w[..k] in L && Power(L, n, w[k..])
    ensures Power(L, n + 1, w)
  {
  }

  lemma PowerElim(L: Language, n: nat, w: Bytes) returns (k: nat)
    requires n > 0 && Power(L, n, w)
    ensures k <= |w| && w[..k] in L && Power(L, n - 1, w[k..])
  {
    k :| 0 <= k <= |w| && w[..k] in L && Power(L, n - 1, w[k..]);
  }

  lemma {:induction false} PowerOne(L: Language, w: Bytes)
    ensures Power(L, 1, w) <==> w in L
  {
    assert w[..|w|] == w && w[|w|..] == [];
    if Power(L, 1, w) {
      var k := PowerElim(L, 1, w);
      assert w[..k] == w;
    }
    if w in L {
      PowerStep(L, 0, w, |w|);
    }
  }

  lemma {:induction false} PowerJoin(L: Language, m: nat, n: nat, u: Bytes, v: Bytes)
    requires Power(L, m, u) && Power(L, n, v)
    ensures Power(L, m + n, u + v)
  {
    if m == 0 {
      assert u + v == v;
    } else {
      var k := PowerElim(L, m, u);
      PowerJoin(L, m - 1, n, u[k..], v);
      var w := u + v;
      assert w[..k] == u[..k];
      assert w[k..] == u[k..] + v;
      PowerStep(L, m - 1 + n, w, k);
    }
  }

  lemma PowerGlue(L: Language, m: nat, n: nat, w: Bytes, k: nat)
    requires k <= |w| && Power(L, m, w[..k]) && Power(L, n, w[k..])
    ensures Power(L, m + n, w)
  {
    PowerJoin(L, m, n, w[..k], w[k..]);
    assert w[..k] + w[k..] == w;
  }

  lemma CutTwice(w: Bytes, j: nat, k: nat)
    requires j + k <= |w|
    ensures w[..j + k][..j] == w[..j] && w[..j + k][j..] == w[j..][..k] && w[j + k..] == w[j..][k..]
  {
  }

  lemma {:induction false} PowerCut(L: Language, m: nat, n: nat, w: Bytes) returns (k: nat)
    requires Power(L, m + n, w)
    ensures k <= |w| && Power(L, m, w[..k]) && Power(L, n, w[k..])
  {
    if m == 0 {
      k := 0;
      assert w[..0] == [] && w[0..] == w;
    } else {
      var j := PowerElim(L, m + n, w);
      var k' := PowerCut(L, m - 1, n, w[j..]);
      k := j + k';
      hide Power;
      CutTwice(w, j, k');
      PowerStep(L, m - 1, w[..k], j);
    }
  }

  /** `w` is a concatenation of `lo` or more words, and of `lo` to `hi` words. */
  ghost predicate PowerFrom(L: Language, lo: nat, w: Bytes) {
    exists n: nat :: n >= lo && Power(L, n, w)
  }

  ghost predicate PowerIn(L: Language, lo: nat, hi: nat, w: Bytes) {
    exists n: nat :: lo <= n <= hi && Power(L, n, w)
  }

  ghost function PowerLang(L: Language, n: nat): Language {
    iset w | Power(L, n, w)
  }

  ghost function Concat(A: Language, B: Language): Language {
    iset w: Bytes | exists k :: 0 <= k <= |w| && w[..k] in A && w[k..] in B
  }

  lemma ConcatPowers(L: Language, m: nat, n: nat)
    ensures Concat(PowerLang(L, m), PowerLang(L, n)) == PowerLang(L, m + n)
  {
    forall w: Bytes ensures w in Concat(PowerLang(L, m), PowerLang(L, n)) <==> w in PowerLang(L, m + n) {
      if w in Concat(PowerLang(L, m), PowerLang(L, n)) {
        var k :| 0 <= k <= |w| && w[..k] in PowerLang(L, m) && w[k..] in PowerLang(L, n);
        PowerGlue(L, m, n, w, k);
      }
      if w in PowerLang(L, m + n) {
        var k := PowerCut(L, m, n, w);
        assert w[..k] in PowerLang(L, m) && w[k..] in PowerLang(L, n);
      }
    }
  }

  /** All powers from `lo` on, and all powers from `lo` to `hi`. */
  ghost function PowersFrom(L: Language, lo: nat): Language {
    iset w | PowerFrom(L, lo, w)
  }

  ghost function PowersIn(L: Language, lo: nat, hi: nat): Language {
    iset w | PowerIn(L, lo, hi, w)
  }

  /** `m` copies followed by a star are all powers from `m` on. */
  lemma ConcatStar(L: Language, m: nat)
    ensures Concat(PowerLang(L, m), PowersFrom(L, 0)) == PowersFrom(L, m)
  {
    forall w: Bytes ensures w in Concat(PowerLang(L, m), PowersFrom(L, 0)) <==> w in PowersFrom(L, m) {
      if w in Concat(PowerLang(L, m), PowersFrom(L, 0)) {
        var k :| 0 <= k <= |w| && w[..k] in PowerLang(L, m) && w[k..] in PowersFrom(L, 0);
        var n: nat :| n >= 0 && Power(L, n, w[k..]);
        PowerGlue(L, m, n, w, k);
      }
      if w in PowersFrom(L, m) {
        var n: nat :| n >= m && Power(L, n, w);
        var k := PowerCut(L, m, n - m, w);
        assert w[..k] in PowerLang(L, m) && PowerFrom(L, 0, w[k..]);
      }
    }
  }

  /** `m` copies followed by `d` optional copies are the powers `m` to `m + d`. */
  lemma ConcatOptionals(L: Language, m: nat, d: nat)
    ensures Concat(PowerLang(L, m), PowerLang(L + iset{[]}, d)) == PowersIn(L, m, m + d)
  {
    var O := L + iset{[]};
    forall w: Bytes ensures w in Concat(PowerLang(L, m), PowerLang(O, d)) <==> w in PowersIn(L, m, m + d) {
      if w in Concat(PowerLang(L, m), PowerLang(O, d)) {
        var k :| 0 <= k <= |w| && w[..k] in PowerLang(L, m) && w[k..] in PowerLang(O, d);
        var j := OptionalDown(L, d, w[k..]);
        PowerGlue(L, m, j, w, k);
      }
      if w in PowersIn(L, m, m + d) {
        var n: nat :| m <= n <= m + d && Power(L, n, w);
        var k := PowerCut(L, m, n - m, w);
        OptionalUp(L, d, n - m, w[k..]);
        assert w[..k] in PowerLang(L, m) && w[k..] in PowerLang(O, d);
      }
    }
  }

  /** Powers of a language with the empty word added are the powers up to the bound. */
  lemma {:induction false} OptionalUp(L: Language, n: nat, j: nat, w: Bytes)
    requires j <= n && Power(L, j, w)
    ensures Power(L + iset{[]}, n, w)
  {
    var O := L + iset{[]};
    if j > 0 {
      var k := PowerElim(L, j, w);
      OptionalUp(L, n - 1, j - 1, w[k..]);
      PowerStep(O, n - 1, w, k);
    } else if n > 0 {
      OptionalUp(L, n - 1, 0, w);
      assert w[..0] == [] && w[0..] == w;
      PowerStep(O, n - 1, w, 0);
    }
  }

  lemma {:induction false} OptionalDown(L: Language, n: nat, w: Bytes) returns (j: nat)
    requires Power(L + iset{[]}, n, w)
    ensures j <= n && Power(L, j, w)
  {
    if n == 0 {
      j := 0;
    } else {
      var k := PowerElim(L + iset{[]}, n, w);
      var i := OptionalDown(L, n - 1, w[k..]);
      if w[..k] in L {
        PowerStep(L, i, w, k);
        j := i + 1;
      } else {
        assert k == |w[..k]| == 0;
        assert w[k..] == w;
        j := i;
      }
    }
  }

  // ----- languages of composite trees -----

  lemma LangCat(l: Node, r: Node)
    ensures Lang(CatNode(l, r)) == Concat(Lang(l), Lang(r))
  {
  }

  lemma LangOptional(t: Node, e: nat)
    ensures Lang(OrNode(t, EpsilonNode(e))) == Lang(t) + iset{[]}
  {
    forall w ensures w in Lang(OrNode(t, EpsilonNode(e))) <==> w in Lang(t) + iset{[]} {
      assert Matches(EpsilonNode(e), w) <==> w == [];
    }
  }

  /** The star is the union of all powers, although `Matches` only ever strips nonempty
      words (a star over a nullable body therefore never loops). */
  lemma LangStar(b: Node)
    ensures Lang(StarNode(b)) == PowersFrom(Lang(b), 0)
  {
    forall w ensures w in Lang(StarNode(b)) <==> w in PowersFrom(Lang(b), 0) {
      if w in Lang(StarNode(b)) {
        var n := StarToPower(b, w);
      }
      if w in PowersFrom(Lang(b), 0) {
        var n: nat :| n >= 0 && Power(Lang(b), n, w);
        PowerToStar(b, n, w);
      }
    }
  }

  lemma {:induction false} StarToPower(b: Node, w: Bytes) returns (n: nat)
    requires Matches(StarNode(b), w)
    ensures Power(Lang(b), n, w)
    decreases |w|
  {
    hide Matches;
    if w == [] {
      n := 0;
    } else {
      var k := StarElim(b, w);
      var m := StarToPower(b, w[k..]);
      n := m + 1;
      PrefixWord(b, m, w, k);
    }
  }

  lemma PrefixWord(b: Node, m: nat, w: Bytes, k: nat)
    requires k <= |w| && Matches(b, w[..k]) && Power(Lang(b), m, w[k..])
    ensures Power(Lang(b), m + 1, w)
  {
    assert w[..k] in Lang(b);
    PowerStep(Lang(b), m, w, k);
  }

  lemma {:induction false} PowerToStar(b: Node, n: nat, w: Bytes)
    requires Power(Lang(b), n, w)
    ensures Matches(StarNode(b), w)
  {
    if n > 0 {
      var k := PowerElim(Lang(b), n, w);
      PowerToStar(b, n - 1, w[k..]);
      if k == 0 {
        assert w[k..] == w;
      } else {
        StarIntro(b, w, k);
      }
    }
  }

  lemma PowerLangOne(L: Language)
    ensures PowerLang(L, 1) == L
  {
    forall w ensures w in PowerLang(L, 1) <==> w in L {
      PowerOne(L, w);
    }
  }

  /** C++ `unsigned int`, and its conversion to a 32-bit `int`. */
  type Uint = x: nat | x < 0x1_0000_0000

  function ToInt(x: Uint): int {
    if x < 0x8000_0000 then x else x - 0x1_0000_0000
  }

  /** How many copies `repeat_node` really builds when asked for `count` of them. */
  function Copies(count: Uint): nat {
    if 1 <= count < 0x8000_0000 then count else 1
  }

  lemma {:induction false} SingletonPower(c: Byte, n: nat, w: Bytes)
    ensures Power(iset{[c]}, n, w) <==> w == seq(n, _ => c)
  {
    var L: Language := iset{[c]};
    if n > 0 {
      if Power(L, n, w) {
        var k := PowerElim(L, n, w);
        SingletonPower(c, n - 1, w[k..]);
        assert w == w[..k] + w[k..];
      }
      if w == seq(n, _ => c) {
        SingletonPower(c, n - 1, w[1..]);
        assert w[..1] == [c] && w[1..] == seq(n - 1, _ => c);
        PowerStep(L, n - 1, w, 1);
      }
    }
  }

  /** The copies built for `{count}` are the power that was asked for, on every language,
      exactly when the count survives the conversion to `int`. */
  lemma RepeatCountIsExact(count: Uint)
    requires count >= 1
    ensures (forall L, w :: Power(L, Copies(count), w) <==> Power(L, count, w)) <==> count < 0x8000_0000
  {
    if count >= 0x8000_0000 {
      var w: Bytes := seq(count, _ => 0);
      SingletonPower(0, count, w);
      SingletonPower(0, 1, w);
      assert Power(iset{[0]}, count, w) && !Power(iset{[0]}, Copies(count), w);
    }
  }

  // ----- the trees the actions build, and their languages -----

  /** `num` copies of `n`, nested to the left; never fewer than one. */
  function Repeated(n: Node, num: int): Node {
    if num <= 1 then n else CatNode(Repeated(n, num - 1), n)
  }

  function PlusTree(n: Node): Node { CatNode(n, StarNode(n)) }

  function OptionalTree(n: Node): Node { OrNode(n, EpsilonNode(0)) }

  function Rep1Tree(n: Node, count: Uint): Node { Repeated(n, ToInt(count)) }

  function Rep2Tree(n: Node, count: Uint): Node { CatNode(Repeated(n, ToInt(count)), StarNode(n)) }

  function Rep3Tree(n: Node, count1: Uint, count2: Uint): Node
    requires count1 <= count2
  {
    CatNode(Repeated(n, ToInt(count1)), Repeated(OptionalTree(n), ToInt(count2 - count1)))
  }

  lemma {:induction false} RepeatedLang(n: Node, m: nat)
    requires m >= 1
    ensures Lang(Repeated(n, m)) == PowerLang(Lang(n), m)
  {
    PowerLangOne(Lang(n));
    if m > 1 {
      RepeatedLang(n, m - 1);
      LangCat(Repeated(n, m - 1), n);
      ConcatPowers(Lang(n), m - 1, 1);
    }
  }

  /** `+` is one or more, `?` is zero or one. */
  lemma PlusLang(n: Node)
    ensures Lang(PlusTree(n)) == PowersFrom(Lang(n), 1)
  {
    LangCat(n, StarNode(n));
    LangStar(n);
    PowerLangOne(Lang(n));
    ConcatStar(Lang(n), 1);
  }

  lemma OptionalLang(n: Node)
    ensures Lang(OptionalTree(n)) == Lang(n) + iset{[]}
  {
    LangOptional(n, 0);
  }

  /** `{m}` is the m-fold power, `{m,}` all powers from m on, `{m,n}` the powers m to n,
      with every count read through its conversion to `int`. */
  lemma Rep1Lang(n: Node, count: Uint)
    requires count >= 1
    ensures Lang(Rep1Tree(n, count)) == PowerLang(Lang(n), Copies(count))
  {
    RepeatedLang(n, Copies(count));
    assert Rep1Tree(n, count) == Repeated(n, Copies(count));
  }

  lemma Rep2Lang(n: Node, count: Uint)
    requires count >= 1
    ensures Lang(Rep2Tree(n, count)) == PowersFrom(Lang(n), Copies(count))
  {
    Rep1Lang(n, count);
    LangCat(Rep1Tree(n, count), StarNode(n));
    LangStar(n);
    ConcatStar(Lang(n), Copies(count));
  }

  lemma Rep3Lang(n: Node, count1: Uint, count2: Uint)
    requires 1 <= count1 < count2
    ensures Lang(Rep3Tree(n, count1, count2)) ==
      PowersIn(Lang(n), Copies(count1), Copies(count1) + Copies(count2 - count1))
  {
    Rep1Lang(n, count1);
    Rep1Lang(OptionalTree(n), count2 - count1);
    OptionalLang(n);
    LangCat(Rep1Tree(n, count1), Rep1Tree(OptionalTree(n), count2 - count1));
    ConcatOptionals(Lang(n), Copies(count1), Copies(count2 - count1));
  }

  // ----- when the counts are exact -----

  /** The words over one byte tell all powers apart. */
  lemma OneByteLang(c: Byte, w: Bytes)
    ensures w in Lang(CharNode(c, 0)) <==> w in iset{[c]}
  {
  }

  lemma OneBytePower(n: nat, m: nat)
    ensures Power(Lang(CharNode(0, 0)), n, seq(m, _ => 0)) <==> n == m
  {
    var L: Language := iset{[0]};
    forall w: Bytes ensures w in Lang(CharNode(0, 0)) <==> w in L {
      OneByteLang(0, w);
    }
    assert Lang(CharNode(0, 0)) == L;
    var w: Bytes := seq(m, _ => 0);
    SingletonPower(0, n, w);
    assert |w| == m;
  }

  lemma OneBytePowerIn(lo: nat, hi: nat, m: nat)
    ensures PowerIn(Lang(CharNode(0, 0)), lo, hi, seq(m, _ => 0)) <==> lo <= m <= hi
  {
    hide Lang, Power;
    var L, w: Bytes := Lang(CharNode(0, 0)), seq(m, _ => 0);
    forall k: nat ensures Power(L, k, w) <==> k == m {
      OneBytePower(k, m);
    }
    if lo <= m <= hi {
      assert Power(L, m, w);
    }
  }

  /** `{m}` denotes the m-fold power on every operand exactly when m stays positive as an `int`. */
  lemma Rep1IsExact(count: Uint)
    requires count >= 1
    ensures (forall n :: Lang(Rep1Tree(n, count)) == PowerLang(Lang(n), count)) <==> count < 0x8000_0000
  {
    hide Lang, Power, Rep1Tree;
    forall n {
      Rep1Lang(n, count);
    }
    if count >= 0x8000_0000 {
      var t, w := CharNode(0, 0), seq(1, _ => 0 as Byte);
      OneBytePower(1, 1);
      OneBytePower(count, 1);
      assert w in Lang(Rep1Tree(t, count)) && w !in PowerLang(Lang(t), count);
    }
  }

  /** `{m,}` denotes all powers from m on exactly when m stays positive as an `int`. */
  lemma Rep2IsExact(count: Uint)
    requires count >= 1
    ensures (forall n :: Lang(Rep2Tree(n, count)) == PowersFrom(Lang(n), count)) <==> count < 0x8000_0000
  {
    hide Lang, Power, Rep2Tree;
    forall n {
      Rep2Lang(n, count);
    }
    if count >= 0x8000_0000 {
      var t, w := CharNode(0, 0), seq(1, _ => 0 as Byte);
      OneBytePower(1, 1);
      forall k: nat ensures Power(Lang(t), k, w) <==> k == 1 {
        OneBytePower(k, 1);
      }
      assert PowerFrom(Lang(t), 1, w) && !PowerFrom(Lang(t), count, w);
      assert w in Lang(Rep2Tree(t, count)) && w !in PowersFrom(Lang(t), count);
    }
  }

  /** `{m,n}` denotes the powers m to n exactly when both m and n - m stay positive as an `int`. */
  lemma Rep3IsExact(count1: Uint, count2: Uint)
    requires 1 <= count1 < count2
    ensures (forall n :: Lang(Rep3Tree(n, count1, count2)) == PowersIn(Lang(n), count1, count2)) <==>
      count1 < 0x8000_0000 && count2 - count1 < 0x8000_0000
  {
    hide Lang, Power, Rep3Tree;
    forall n {
      Rep3Lang(n, count1, count2);
    }
    var lo, hi := Copies(count1), Copies(count1) + Copies(count2 - count1);
    if lo != count1 || hi != count2 {
      var t := CharNode(0, 0);
      // A word length in one range but not in the other.
      var m := if lo != count1 then lo else count2;
      var w := seq(m, _ => 0 as Byte);
      OneBytePowerIn(lo, hi, m);
      OneBytePowerIn(count1, count2, m);
      assert w in Lang(Rep3Tree(t, count1, count2)) <==> lo <= m <= hi;
      assert w in PowersIn(Lang(t), count1, count2) <==> count1 <= m <= count2;
    }
  }

  method RepeatNode(n: Node, num: int) returns (list: Node)
    ensures list == Repeated(n, num)
  {
    list := n;
    var i := 1;
    while i < num
      invariant 1 <= i && (i <= num || i == 1)
      invariant list == Repeated(n, i)
    {
      list := CatNode(list, n);
      i := i + 1;
    }
  }

  datatype Outcome = Done | BadRegex

  /** The parser's node stack; the action functors pop their operand from it and push the
      node they build. */
  class NodeStack {
    var nodes: seq<Node>

    constructor ()
      ensures nodes == []
    {
      nodes := [];
    }

    method Pop() returns (n: Node)
      requires nodes != []
      modifies this
      ensures n == old(nodes[|nodes| - 1]) && nodes == old(nodes[..|nodes| - 1])
    {
      n := nodes[|nodes| - 1];
      nodes := nodes[..|nodes| - 1];
    }

    method MakePlus()
      requires nodes != []
      modifies this
      ensures nodes == old(nodes[..|nodes| - 1]) + [PlusTree(old(nodes[|nodes| - 1]))]
    {
      var left := Pop();
      nodes := nodes + [CatNode(left, StarNode(left))];
    }

    method MakeOptional()
      requires nodes != []
      modifies this
      ensures nodes == old(nodes[..|nodes| - 1]) + [OptionalTree(old(nodes[|nodes| - 1]))]
    {
      var left := Pop();
      nodes := nodes + [OrNode(left, EpsilonNode(0))];
    }

    method MakeRep1(count: Uint) returns (r: Outcome)
      requires nodes != []
      modifies this
      ensures r == BadRegex <==> count == 0
      ensures nodes == if r == BadRegex then old(nodes)
                       else old(nodes[..|nodes| - 1]) + [Rep1Tree(old(nodes[|nodes| - 1]), count)]
    {
      if count == 0 {
        return BadRegex;
      }
      var top := Pop();
      var repeated := RepeatNode(top, ToInt(count));
      nodes := nodes + [repeated];
      r := Done;
    }

    method MakeRep2(count: Uint) returns (r: Outcome)
      requires nodes != []
      modifies this
      ensures r == BadRegex <==> count == 0
      ensures nodes == if r == BadRegex then old(nodes)
                       else old(nodes[..|nodes| - 1]) + [Rep2Tree(old(nodes[|nodes| - 1]), count)]
    {
      if count == 0 {
        return BadRegex;
      }
      var top := Pop();
      var repeated := RepeatNode(top, ToInt(count));
      nodes := nodes + [CatNode(repeated, StarNode(top))];
      r := Done;
    }

    method MakeRep3(count1: Uint, count2: Uint) returns (r: Outcome)
      requires nodes != []
      modifies this
      ensures r == BadRegex <==> count1 == 0 || count2 <= count1
      ensures nodes == if r == BadRegex then old(nodes)
                       else old(nodes[..|nodes| - 1]) + [Rep3Tree(old(nodes[|nodes| - 1]), count1, count2)]
    {
      if count1 == 0 {
        return BadRegex;
      }
      if count2 <= count1 {
        return BadRegex;
      }
      var top := Pop();
      var repeats := RepeatNode(top, ToInt(count1));
      var options := RepeatNode(OrNode(top, EpsilonNode(0)), ToInt(count2 - count1));
      nodes := nodes + [CatNode(repeats, options)];
      r := Done;
    }
  }
}
