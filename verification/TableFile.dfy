/** The saved form of the compiled tables (`save` and `load` of server/p4l/lexer.h), on a
    machine with 8-byte `long` and `size_t`, 4-byte `int`, least significant byte first. */
module TableFile {
  import opened Common
  import opened Regex
  import opened Dfas

  // ----- fixed-width words -----

  function Pow256(n: nat): (p: nat)
    ensures p > 0
  {
    if n == 0 then 1 else 256 * Pow256(n - 1)
  }

  function Enc(v: nat, n: nat): (b: Bytes)
    ensures |b| == n
  {
    if n == 0 then [] else [v % 256] + Enc(v / 256, n - 1)
  }

  function Dec(b: Bytes): (v: nat)
    ensures v < Pow256(|b|)
  {
    if b == [] then 0 else b[0] + 256 * Dec(b[1..])
  }

  lemma {:induction false} DecEnc(v: nat, n: nat)
    requires v < Pow256(n)
    ensures Dec(Enc(v, n)) == v
  {
    if n > 0 {
      DecEnc(v / 256, n - 1);
      assert Enc(v, n)[1..] == Enc(v / 256, n - 1);
    }
  }

  lemma {:induction false} EncDec(b: Bytes)
    ensures Enc(Dec(b), |b|) == b
  {
    if b != [] {
      EncDec(b[1..]);
      assert Dec(b) % 256 == b[0] && Dec(b) / 256 == Dec(b[1..]);
    }
  }

  lemma Widths()
    ensures Pow256(4) == 0x1_0000_0000 && Pow256(8) == 0x1_0000_0000_0000_0000
  {
    assert Pow256(1) == 256;
    assert Pow256(2) == 0x1_0000;
    assert Pow256(3) == 0x100_0000;
    assert Pow256(4) == 0x1_0000_0000;
    assert Pow256(5) == 0x100_0000_0000;
    assert Pow256(6) == 0x1_0000_0000_0000;
    assert Pow256(7) == 0x100_0000_0000_0000;
  }

  /** C++ `long`. */
  type Long = x: int | -0x8000_0000_0000_0000 <= x < 0x8000_0000_0000_0000

  function EncLong(x: Long): (b: Bytes)
    ensures |b| == 8
  {
    Enc(if x < 0 then x + 0x1_0000_0000_0000_0000 else x, 8)
  }

  function DecLong(b: Bytes): Long
    requires |b| == 8
  {
    Widths();
    if Dec(b) < 0x8000_0000_0000_0000 then Dec(b) else Dec(b) - 0x1_0000_0000_0000_0000
  }

  lemma LongRoundTrip(x: Long, b: Bytes)
    ensures DecLong(EncLong(x)) == x
    ensures |b| == 8 ==> EncLong(DecLong(b)) == b
  {
    Widths();
    DecEnc(if x < 0 then x + 0x1_0000_0000_0000_0000 else x, 8);
    EncDec(b);
  }

  // ----- values that determine their own extent -----

  /** `p` is what the stream `s` begins with. */
  ghost predicate Starts(p: Bytes, s: Bytes) { p <= s }

  /** Two encoded values that both start the same stream are the same value. */
  ghost predicate PrefixUnique<T(!new)>(ok: T -> bool, enc: T -> Bytes) {
    forall x, y, s :: ok(x) && ok(y) && Starts(enc(x), s) && Starts(enc(y), s) ==> x == y
  }

  ghost predicate All<T>(ok: T -> bool, xs: seq<T>) {
    forall i :: 0 <= i < |xs| ==> ok(xs[i])
  }

  ghost function EncAll<T>(enc: T -> Bytes, xs: seq<T>): Bytes {
    if xs == [] then [] else EncAll(enc, xs[..|xs| - 1]) + enc(xs[|xs| - 1])
  }

  const SIZE_LIMIT: nat := 0x1_0000_0000_0000_0000

  /** A vector is its size followed by its elements. */
  ghost function EncVec<T>(enc: T -> Bytes, xs: seq<T>): Bytes {
    Enc(|xs|, 8) + EncAll(enc, xs)
  }

  ghost predicate VecOk<T>(ok: T -> bool, xs: seq<T>) {
    |xs| < SIZE_LIMIT && All(ok, xs)
  }

  lemma {:induction false} EncAllPrefix<T>(enc: T -> Bytes, xs: seq<T>, n: nat)
    requires n <= |xs|
    ensures EncAll(enc, xs[..n]) <= EncAll(enc, xs)
    ensures n < |xs| ==> EncAll(enc, xs[..n]) + enc(xs[n]) <= EncAll(enc, xs)
  {
    if n == |xs| {
      assert xs[..n] == xs;
    } else {
      var init := xs[..|xs| - 1];
      EncAllPrefix(enc, init, n);
      assert init[..n] == xs[..n];
    }
  }

  lemma {:induction false} SameElements<T(!new)>(ok: T -> bool, enc: T -> Bytes, xs: seq<T>, ys: seq<T>, s: Bytes)
    requires PrefixUnique(ok, enc) && All(ok, xs) && All(ok, ys) && |xs| <= |ys|
    requires Starts(EncAll(enc, xs), s) && Starts(EncAll(enc, ys), s)
    ensures xs == ys[..|xs|]
  {
    if xs != [] {
      hide EncAll;
      var n := |xs| - 1;
      EncAllPrefix(enc, ys, n);
      EncAllPrefix(enc, xs, n);
      SameElements(ok, enc, xs[..n], ys, s);
      var t := s[|EncAll(enc, xs[..n])|..];
      assert Starts(enc(xs[n]), t) && Starts(enc(ys[n]), t);
      assert ys[..|xs|] == ys[..n] + [ys[n]];
    }
  }

  lemma EncAllMore<T>(enc: T -> Bytes, xs: seq<T>, x: T)
    ensures EncAll(enc, xs + [x]) == EncAll(enc, xs) + enc(x)
  {
    assert (xs + [x])[..|xs|] == xs;
  }

  lemma SizeIsUnique(m: nat, n: nat, s: Bytes)
    requires m < SIZE_LIMIT && n < SIZE_LIMIT && Enc(m, 8) <= s && Enc(n, 8) <= s
    ensures m == n
  {
    Widths();
    DecEnc(m, 8);
    DecEnc(n, 8);
    assert Enc(m, 8) == s[..8] == Enc(n, 8);
  }

  lemma VecUnique<T(!new)>(ok: T -> bool, enc: T -> Bytes, xs: seq<T>, ys: seq<T>, s: Bytes)
    requires PrefixUnique(ok, enc) && VecOk(ok, xs) && VecOk(ok, ys)
    requires Starts(EncVec(enc, xs), s) && Starts(EncVec(enc, ys), s)
    ensures xs == ys
  {
    SizeIsUnique(|xs|, |ys|, s);
    SameElements(ok, enc, xs, ys, s[8..]);
    assert ys[..|xs|] == ys;
  }

  /** When `done` elements have been read and no element starts at what is left, no vector of
      the announced size starts the stream. */
  lemma VecBlocked<T(!new)>(ok: T -> bool, enc: T -> Bytes, done: seq<T>, count: nat, s: Bytes, left: Bytes)
    requires PrefixUnique(ok, enc) && All(ok, done) && |done| < count < SIZE_LIMIT
    requires s == Enc(count, 8) + EncAll(enc, done) + left
    requires forall x :: ok(x) ==> !Starts(enc(x), left)
    ensures forall xs :: VecOk(ok, xs) ==> !Starts(EncVec(enc, xs), s)
  {
    hide EncAll, Enc;
    forall xs | VecOk(ok, xs) ensures !Starts(EncVec(enc, xs), s) {
      if Starts(EncVec(enc, xs), s) {
        SizeIsUnique(|xs|, count, s);
        var t := s[8..];
        assert t == EncAll(enc, done) + left;
        AllBlocked(ok, enc, done, xs, t, left);
      }
    }
  }

  lemma AllBlocked<T(!new)>(ok: T -> bool, enc: T -> Bytes, done: seq<T>, xs: seq<T>, t: Bytes, left: Bytes)
    requires PrefixUnique(ok, enc) && All(ok, done) && |done| < |xs| && All(ok, xs)
    requires t == EncAll(enc, done) + left
    requires forall x :: ok(x) ==> !Starts(enc(x), left)
    ensures !(EncAll(enc, xs) <= t)
  {
    if EncAll(enc, xs) <= t {
      SameElements(ok, enc, done, xs, t);
      NextStarts(enc, done, xs, t, left);
    }
  }

  lemma NextStarts<T>(enc: T -> Bytes, done: seq<T>, xs: seq<T>, t: Bytes, left: Bytes)
    requires |done| < |xs| && xs[..|done|] == done
    requires t == EncAll(enc, done) + left && EncAll(enc, xs) <= t
    ensures Starts(enc(xs[|done|]), left)
  {
    EncAllPrefix(enc, xs, |done|);
    assert left == t[|EncAll(enc, done)|..];
  }

  // ----- the tables -----

  predicate NodeOk(e: int) { INVALID_NODE <= e < 0xFFFF_FFFF }

  /** `node_id_t`, with the invalid node stored as all ones. */
  function EncNode(e: int): (b: Bytes)
    ensures |b| == 4
  {
    Enc(if e == INVALID_NODE then 0xFFFF_FFFF else if e < 0 then 0 else e, 4)
  }

  ghost predicate RowOk(row: seq<int>) { VecOk(NodeOk, row) }

  ghost function EncRow(row: seq<int>): Bytes { EncVec(EncNode, row) }

  ghost predicate DfaOk(d: Dfa) { VecOk(RowOk, d.transitionTable) && RowOk(d.acceptanceIndex) }

  ghost function EncDfa(d: Dfa): Bytes { EncVec(EncRow, d.transitionTable) + EncRow(d.acceptanceIndex) }

  ghost predicate DfasOk(ds: seq<Dfa>) { VecOk(DfaOk, ds) }

  ghost function EncDfas(ds: seq<Dfa>): Bytes { EncVec(EncDfa, ds) }

  lemma NodeIsUnique()
    ensures PrefixUnique(NodeOk, EncNode)
  {
    forall x, y, s | NodeOk(x) && NodeOk(y) && Starts(EncNode(x), s) && Starts(EncNode(y), s) ensures x == y {
      Widths();
      DecEnc(if x == INVALID_NODE then 0xFFFF_FFFF else x, 4);
      DecEnc(if y == INVALID_NODE then 0xFFFF_FFFF else y, 4);
      assert EncNode(x) == s[..4] == EncNode(y);
    }
  }

  lemma RowIsUnique()
    ensures PrefixUnique(RowOk, EncRow)
  {
    NodeIsUnique();
    forall x, y, s | RowOk(x) && RowOk(y) && Starts(EncRow(x), s) && Starts(EncRow(y), s) ensures x == y {
      VecUnique(NodeOk, EncNode, x, y, s);
    }
  }

  lemma DfaIsUnique()
    ensures PrefixUnique(DfaOk, EncDfa)
  {
    RowIsUnique();
    hide Enc, EncAll, EncRow, RowOk, NodeOk;
    forall x, y, s | DfaOk(x) && DfaOk(y) && Starts(EncDfa(x), s) && Starts(EncDfa(y), s) ensures x == y {
      VecUnique(RowOk, EncRow, x.transitionTable, y.transitionTable, s);
      var t := s[|EncVec(EncRow, x.transitionTable)|..];
      assert Starts(EncRow(x.acceptanceIndex), t) && Starts(EncRow(y.acceptanceIndex), t);
    }
  }

  lemma DfasAreUnique(x: seq<Dfa>, y: seq<Dfa>, s: Bytes)
    requires DfasOk(x) && DfasOk(y) && Starts(EncDfas(x), s) && Starts(EncDfas(y), s)
    ensures x == y
  {
    DfaIsUnique();
    VecUnique(DfaOk, EncDfa, x, y, s);
  }

  // ----- writing -----

  method SaveRow(s: Bytes, row: seq<int>) returns (r: Bytes)
    ensures r == s + EncRow(row)
  {
    hide EncNode, Enc;
    r := s + Enc(|row|, 8);
    for i := 0 to |row|
      invariant r == s + Enc(|row|, 8) + EncAll(EncNode, row[..i])
    {
      assert row[..i + 1][..i] == row[..i];
      r := r + EncNode(row[i]);
    }
    assert row[..|row|] == row;
  }

  method SaveDfa(s: Bytes, d: Dfa) returns (r: Bytes)
    ensures r == s + EncDfa(d)
  {
    hide EncRow, Enc;
    var tt := d.transitionTable;
    r := s + Enc(|tt|, 8);
    for i := 0 to |tt|
      invariant r == s + Enc(|tt|, 8) + EncAll(EncRow, tt[..i])
    {
      assert tt[..i + 1][..i] == tt[..i];
      r := SaveRow(r, tt[i]);
    }
    assert tt[..|tt|] == tt;
    r := SaveRow(r, d.acceptanceIndex);
  }

  method SaveDfas(s: Bytes, ds: seq<Dfa>) returns (r: Bytes)
    ensures r == s + EncDfas(ds)
  {
    hide EncDfa, Enc;
    r := s + Enc(|ds|, 8);
    for i := 0 to |ds|
      invariant r == s + Enc(|ds|, 8) + EncAll(EncDfa, ds[..i])
    {
      assert ds[..i + 1][..i] == ds[..i];
      r := SaveDfa(r, ds[i]);
    }
    assert ds[..|ds|] == ds;
  }

  // ----- reading: every reader takes the unread input and returns what it leaves -----

  method ReadWord(s: Bytes, n: nat) returns (ok: bool, v: nat, left: Bytes)
    ensures ok <==> |s| >= n
    ensures ok ==> s == Enc(v, n) + left && v < Pow256(n)
  {
    ok, v, left := false, 0, s;
    if |s| >= n {
      ok, v, left := true, Dec(s[..n]), s[n..];
      EncDec(s[..n]);
    }
  }

  lemma NothingEncoded<T>(enc: T -> Bytes)
    ensures EncAll(enc, []) == []
  {
  }

  lemma NodeOfWord(v: nat)
    requires v < Pow256(4)
    ensures var e := if v == 0xFFFF_FFFF then INVALID_NODE else v; NodeOk(e) && EncNode(e) == Enc(v, 4)
  {
    Widths();
  }

  method LoadRow(s: Bytes) returns (ok: bool, row: seq<int>, left: Bytes)
    ensures ok ==> RowOk(row) && s == EncRow(row) + left
    ensures !ok ==> forall r :: RowOk(r) ==> !Starts(EncRow(r), s)
  {
    hide Enc, Dec, EncAll, EncNode;
    Widths();
    NodeIsUnique();
    NothingEncoded(EncNode);
    row := [];
    var count;
    ok, count, left := ReadWord(s, 8);
    if !ok {
      return;
    }
    while |row| < count
      invariant |row| <= count < SIZE_LIMIT && All(NodeOk, row)
      invariant s == Enc(count, 8) + EncAll(EncNode, row) + left
    {
      var v, more;
      ok, v, more := ReadWord(left, 4);
      if !ok {
        VecBlocked(NodeOk, EncNode, row, count, s, left);
        return;
      }
      var e := if v == 0xFFFF_FFFF then INVALID_NODE else v;
      NodeOfWord(v);
      EncAllMore(EncNode, row, e);
      assert s == Enc(count, 8) + (EncAll(EncNode, row) + EncNode(e)) + more;
      row, left := row + [e], more;
    }
    ok := true;
  }

  method LoadRows(s: Bytes) returns (ok: bool, rows: seq<seq<int>>, left: Bytes)
    ensures ok ==> VecOk(RowOk, rows) && s == EncVec(EncRow, rows) + left
    ensures !ok ==> forall r :: VecOk(RowOk, r) ==> !Starts(EncVec(EncRow, r), s)
  {
    hide EncRow, RowOk, Enc, EncAll;
    Widths();
    RowIsUnique();
    NothingEncoded(EncRow);
    rows := [];
    var count;
    ok, count, left := ReadWord(s, 8);
    if !ok {
      return;
    }
    while |rows| < count
      invariant |rows| <= count < SIZE_LIMIT && All(RowOk, rows)
      invariant s == Enc(count, 8) + EncAll(EncRow, rows) + left
    {
      var row, more;
      ok, row, more := LoadRow(left);
      if !ok {
        VecBlocked(RowOk, EncRow, rows, count, s, left);
        return;
      }
      EncAllMore(EncRow, rows, row);
      assert s == Enc(count, 8) + (EncAll(EncRow, rows) + EncRow(row)) + more;
      rows, left := rows + [row], more;
    }
    ok := true;
  }

  method LoadDfa(s: Bytes) returns (ok: bool, d: Dfa, left: Bytes)
    ensures ok ==> DfaOk(d) && s == EncDfa(d) + left
    ensures !ok ==> forall x :: DfaOk(x) ==> !Starts(EncDfa(x), s)
  {
    var rows, row;
    d := EMPTY_DFA;
    ok, rows, left := LoadRows(s);
    if !ok {
      NoTableNoDfa(s);
      return;
    }
    ok, row, left := LoadRow(left);
    if !ok {
      NoIndexNoDfa(s, rows);
      return;
    }
    d := Dfa(rows, row);
  }

  lemma NoTableNoDfa(s: Bytes)
    requires forall r :: VecOk(RowOk, r) ==> !Starts(EncVec(EncRow, r), s)
    ensures forall x :: DfaOk(x) ==> !Starts(EncDfa(x), s)
  {
    forall x | DfaOk(x) ensures !Starts(EncDfa(x), s) {
      assert !Starts(EncVec(EncRow, x.transitionTable), s);
    }
  }

  lemma NoIndexNoDfa(s: Bytes, rows: seq<seq<int>>)
    requires VecOk(RowOk, rows) && Starts(EncVec(EncRow, rows), s)
    requires forall r :: RowOk(r) ==> !Starts(EncRow(r), s[|EncVec(EncRow, rows)|..])
    ensures forall x :: DfaOk(x) ==> !Starts(EncDfa(x), s)
  {
    RowIsUnique();
    forall x | DfaOk(x) ensures !Starts(EncDfa(x), s) {
      if Starts(EncVec(EncRow, x.transitionTable), s) {
        VecUnique(RowOk, EncRow, x.transitionTable, rows, s);
        assert !Starts(EncRow(x.acceptanceIndex), s[|EncVec(EncRow, rows)|..]);
      }
    }
  }

  method LoadDfas(s: Bytes) returns (ok: bool, ds: seq<Dfa>, left: Bytes)
    ensures ok ==> DfasOk(ds) && s == EncDfas(ds) + left
    ensures !ok ==> forall x :: DfasOk(x) ==> !Starts(EncDfas(x), s)
  {
    hide EncDfa, DfaOk, Enc, EncAll;
    Widths();
    DfaIsUnique();
    NothingEncoded(EncDfa);
    ds := [];
    var count;
    ok, count, left := ReadWord(s, 8);
    if !ok {
      return;
    }
    while |ds| < count
      invariant |ds| <= count < SIZE_LIMIT && All(DfaOk, ds)
      invariant s == Enc(count, 8) + EncAll(EncDfa, ds) + left
    {
      var d, more;
      ok, d, more := LoadDfa(left);
      if !ok {
        VecBlocked(DfaOk, EncDfa, ds, count, s, left);
        return;
      }
      EncAllMore(EncDfa, ds, d);
      assert s == Enc(count, 8) + (EncAll(EncDfa, ds) + EncDfa(d)) + more;
      ds, left := ds + [d], more;
    }
    ok := true;
  }

  // ----- whole files -----

  const SLEX_SIGNATURE: Long := 0x58454C53
  const SLEX_VERSION_100: Long := 0x0100

  /** `(version & ~SLEX_MINOR_VERSION_MASK) <= SLEX_LAST_KNOWN_VERSION`. */
  predicate KnownVersion(version: Long) {
    version / 256 * 256 <= SLEX_VERSION_100
  }

  ghost function Header(version: Long, uniqueId: Long, numStates: nat): Bytes {
    EncLong(SLEX_SIGNATURE) + EncLong(version) + EncLong(uniqueId) + Enc(numStates, 4)
  }

  ghost function Image(version: Long, uniqueId: Long, numStates: nat, dfas: seq<Dfa>): Bytes {
    Header(version, uniqueId, numStates) + EncDfas(dfas)
  }

  ghost predicate Storable(numStates: nat, dfas: seq<Dfa>) {
    numStates < 0x1_0000_0000 && DfasOk(dfas)
  }

  /** The first bytes of `s` are a file of known version with this id and these tables. */
  ghost predicate Holds(s: Bytes, uniqueId: Long, numStates: nat, dfas: seq<Dfa>) {
    Storable(numStates, dfas) && exists version :: KnownVersion(version) && Image(version, uniqueId, numStates, dfas) <= s
  }

  method SaveFile(uniqueId: Long, numStates: nat, dfas: seq<Dfa>) returns (s: Bytes)
    ensures s == Image(SLEX_VERSION_100, uniqueId, numStates, dfas)
  {
    s := EncLong(SLEX_SIGNATURE) + EncLong(SLEX_VERSION_100);
    s := s + EncLong(uniqueId);
    s := s + Enc(numStates, 4);
    s := SaveDfas(s, dfas);
  }

  method ReadLong(s: Bytes) returns (ok: bool, x: Long, left: Bytes)
    ensures ok <==> |s| >= 8
    ensures ok ==> s == EncLong(x) + left && x == DecLong(s[..8])
    ensures !ok ==> left == s
  {
    ok, x, left := false, 0, s;
    if |s| >= 8 {
      ok, x, left := true, DecLong(s[..8]), s[8..];
      LongRoundTrip(x, s[..8]);
    }
  }

  /** A long at the start of `s` is the long that is read there. */
  lemma LongIsUnique(x: Long, s: Bytes)
    requires EncLong(x) <= s
    ensures |s| >= 8 && x == DecLong(s[..8])
  {
    LongRoundTrip(x, []);
    assert s[..8] == EncLong(x);
  }

  /** The fields of a file that starts `s`, one after the other. */
  lemma ImageFields(s: Bytes, version: Long, uniqueId: Long, numStates: nat, dfas: seq<Dfa>)
    requires Image(version, uniqueId, numStates, dfas) <= s
    ensures |s| >= 28
    ensures DecLong(s[..8]) == SLEX_SIGNATURE && DecLong(s[8..16]) == version && DecLong(s[16..24]) == uniqueId
    ensures Enc(numStates, 4) == s[24..28] && Starts(EncDfas(dfas), s[28..])
  {
    hide Enc, Dec, EncLong, DecLong, EncDfas;
    LongRoundTrip(SLEX_SIGNATURE, []);
    LongRoundTrip(version, []);
    LongRoundTrip(uniqueId, []);
    var h := Header(version, uniqueId, numStates);
    assert h == s[..28];
    assert EncLong(SLEX_SIGNATURE) == s[..8] && EncLong(version) == s[8..16] && EncLong(uniqueId) == s[16..24];
    LongIsUnique(SLEX_SIGNATURE, s[..8]);
    LongIsUnique(version, s[8..16]);
    LongIsUnique(uniqueId, s[16..24]);
    assert s[..8][..8] == s[..8] && s[8..16][..8] == s[8..16] && s[16..24][..8] == s[16..24];
  }

  /** What every file that could be loaded from `s` looks like. */
  lemma HoldsFields(s: Bytes, id: Long)
    ensures forall n, ds :: Holds(s, id, n, ds) ==>
      && |s| >= 28 && DecLong(s[..8]) == SLEX_SIGNATURE && KnownVersion(DecLong(s[8..16]))
      && DecLong(s[16..24]) == id && Starts(EncDfas(ds), s[28..]) && DfasOk(ds)
  {
    hide Enc, Dec, EncLong, DecLong, EncDfas, Image;
    forall n, ds | Holds(s, id, n, ds)
      ensures |s| >= 28 && DecLong(s[..8]) == SLEX_SIGNATURE && KnownVersion(DecLong(s[8..16]))
      ensures DecLong(s[16..24]) == id && Starts(EncDfas(ds), s[28..]) && DfasOk(ds)
    {
      var v :| KnownVersion(v) && Image(v, id, n, ds) <= s;
      ImageFields(s, v, id, n, ds);
    }
  }

  lemma ImageOfFields(s: Bytes, version: Long, id: Long, n: nat, ds: seq<Dfa>, left: Bytes)
    requires s == EncLong(SLEX_SIGNATURE) + (EncLong(version) + (EncLong(id) + (Enc(n, 4) + (EncDfas(ds) + left))))
    requires KnownVersion(version) && Storable(n, ds)
    ensures Holds(s, id, n, ds)
  {
    hide Enc, EncLong, EncDfas;
    assert s == Image(version, id, n, ds) + left;
  }

  /** `ok` exactly when the stream starts with a file of a known version and this id. */
  method LoadFile(s: Bytes, uniqueId: Long) returns (ok: bool, numStates: nat, dfas: seq<Dfa>)
    ensures ok ==> Holds(s, uniqueId, numStates, dfas)
    ensures !ok ==> forall n, ds :: !Holds(s, uniqueId, n, ds)
  {
    hide Enc, Dec, EncLong, DecLong, EncDfas, Image;
    Widths();
    numStates, dfas := 0, [];
    HoldsFields(s, uniqueId);
    var signature, version, uid, left;
    ok, signature, left := ReadLong(s);
    if !ok {
      return;
    }
    if signature != SLEX_SIGNATURE {
      return false, 0, [];
    }
    assert left == s[8..];
    ok, version, left := ReadLong(left);
    if !ok {
      return;
    }
    assert left == s[16..] && s[8..][..8] == s[8..16];
    if version / 256 * 256 > SLEX_VERSION_100 {
      return false, 0, [];
    }
    ok, uid, left := ReadLong(left);
    if !ok {
      return;
    }
    assert left == s[24..] && s[16..][..8] == s[16..24];
    if uid != uniqueId {
      return false, 0, [];
    }
    ok, numStates, left := ReadWord(left, 4);
    if !ok {
      return;
    }
    assert left == s[28..];
    ok, dfas, left := LoadDfas(left);
    if ok {
      ImageOfFields(s, version, uniqueId, numStates, dfas, left);
    }
  }

  /** Tables are determined by any stream that starts with them. */
  lemma HoldsIsUnique(s: Bytes, id: Long, n: nat, ds: seq<Dfa>, n': nat, ds': seq<Dfa>)
    requires Holds(s, id, n, ds) && Holds(s, id, n', ds')
    ensures n == n' && ds == ds'
  {
    var v :| KnownVersion(v) && Image(v, id, n, ds) <= s;
    var v' :| KnownVersion(v') && Image(v', id, n', ds') <= s;
    ImageFields(s, v, id, n, ds);
    ImageFields(s, v', id, n', ds');
    Widths();
    DecEnc(n, 4);
    DecEnc(n', 4);
    DfasAreUnique(ds, ds', s[28..]);
  }

  /** A saved file holds its own tables and no others. */
  lemma SavedFileHolds(id: Long, n: nat, ds: seq<Dfa>, n': nat, ds': seq<Dfa>)
    requires Storable(n, ds)
    ensures Holds(Image(SLEX_VERSION_100, id, n, ds), id, n', ds') <==> n' == n && ds' == ds
  {
    var s := Image(SLEX_VERSION_100, id, n, ds);
    assert KnownVersion(SLEX_VERSION_100) && Holds(s, id, n, ds);
    if Holds(s, id, n', ds') {
      HoldsIsUnique(s, id, n, ds, n', ds');
    }
  }

  /** No strict prefix of a saved file, no file saved under another id, and no file with
      another signature holds any tables at all. */
  lemma TruncatedFileHoldsNothing(id: Long, n: nat, ds: seq<Dfa>, s: Bytes, n': nat, ds': seq<Dfa>)
    requires Storable(n, ds) && s < Image(SLEX_VERSION_100, id, n, ds)
    ensures !Holds(s, id, n', ds')
  {
    if exists v :: KnownVersion(v) && Storable(n', ds') && Image(v, id, n', ds') <= s {
      var v :| KnownVersion(v) && Storable(n', ds') && Image(v, id, n', ds') <= s;
      SameLength(id, n, ds, v, n', ds');
    }
  }

  lemma SameLength(id: Long, n: nat, ds: seq<Dfa>, v: Long, n': nat, ds': seq<Dfa>)
    requires Storable(n, ds) && Storable(n', ds') && KnownVersion(v)
    ensures var full := Image(SLEX_VERSION_100, id, n, ds);
      Image(v, id, n', ds') <= full ==> |Image(v, id, n', ds')| == |full|
  {
    var full := Image(SLEX_VERSION_100, id, n, ds);
    if Image(v, id, n', ds') <= full {
      HoldsIsUnique(full, id, n, ds, n', ds');
      LongRoundTrip(v, []);
      LongRoundTrip(SLEX_VERSION_100, []);
    }
  }

  lemma OtherIdHoldsNothing(id: Long, n: nat, ds: seq<Dfa>, other: Long, n': nat, ds': seq<Dfa>)
    requires id != other
    ensures !Holds(Image(SLEX_VERSION_100, id, n, ds), other, n', ds')
  {
    var s := Image(SLEX_VERSION_100, id, n, ds);
    ImageFields(s, SLEX_VERSION_100, id, n, ds);
    if Holds(s, other, n', ds') {
      var v :| KnownVersion(v) && Image(v, other, n', ds') <= s;
      ImageFields(s, v, other, n', ds');
    }
  }

  lemma WrongSignatureHoldsNothing(s: Bytes, id: Long, n: nat, ds: seq<Dfa>)
    requires |s| < 8 || DecLong(s[..8]) != SLEX_SIGNATURE
    ensures !Holds(s, id, n, ds)
  {
    if Holds(s, id, n, ds) {
      var v :| KnownVersion(v) && Image(v, id, n, ds) <= s;
      ImageFields(s, v, id, n, ds);
    }
  }

  // ----- the bytes of a file -----

  /** Byte `k` of a word counts 256 to the power `k`: the least significant byte comes first. */
  lemma {:induction false} WordBytes(v: nat, n: nat, k: nat)
    requires k < n
    ensures Enc(v, n)[k] == (v / Pow256(k)) % 256
  {
    if k > 0 {
      WordBytes(v / 256, n - 1, k - 1);
      DivDiv(v, Pow256(k - 1));
    }
  }

  lemma DivDiv(v: nat, p: nat)
    requires p > 0
    ensures (v / 256) / p == v / (256 * p)
  {
    var q, r := v / (256 * p), v % (256 * p);
    assert v == 256 * (p * q) + r;
    assert v / 256 == p * q + r / 256;
    assert r / 256 < p;
    ModUnique(v / 256, p, q, r / 256);
  }

  /** The signature reads `SLEX`, the version is 1.0, and of other versions all with a major number
      below 2 are accepted, negative ones included. */
  lemma HeaderBytes(version: Long)
    ensures EncLong(SLEX_SIGNATURE) == [83, 76, 69, 88, 0, 0, 0, 0]
    ensures EncLong(SLEX_VERSION_100) == [0, 1, 0, 0, 0, 0, 0, 0]
    ensures EncLong(-1) == [255, 255, 255, 255, 255, 255, 255, 255]
    ensures KnownVersion(version) <==> version < 0x200
  {
    LongBytes(0x58454C53, 83, 76, 69, 88);
    LongBytes(0x100, 0, 1, 0, 0);
    AllOnes();
  }

  lemma LongBytes(v: nat, b0: Byte, b1: Byte, b2: Byte, b3: Byte)
    requires v == b0 + 256 * (b1 + 256 * (b2 + 256 * b3))
    ensures Enc(v, 8) == [b0, b1, b2, b3, 0, 0, 0, 0]
  {
    assert Enc(0, 4) == [0, 0, 0, 0] by {
      Zeros();
    }
    WordOf(v, b0, b1, b2, b3, 4);
  }

  lemma Zeros()
    ensures Enc(0, 4) == [0, 0, 0, 0] && Enc(0, 0) == []
  {
    assert Enc(0, 1) == [0];
    assert Enc(0, 2) == [0, 0];
    assert Enc(0, 3) == [0, 0, 0];
  }

  lemma WordOf(v: nat, b0: Byte, b1: Byte, b2: Byte, b3: Byte, n: nat)
    requires v == b0 + 256 * (b1 + 256 * (b2 + 256 * b3))
    ensures Enc(v, n + 4) == [b0, b1, b2, b3] + Enc(0, n)
  {
    hide Enc;
    var v1, v2 := b1 + 256 * (b2 + 256 * b3), b2 + 256 * b3;
    LowByte(b0, v1, n + 3);
    LowByte(b1, v2, n + 2);
    LowByte(b2, b3, n + 1);
    LowByte(b3, 0, n);
    assert [b0] + ([b1] + ([b2] + ([b3] + Enc(0, n)))) == [b0, b1, b2, b3] + Enc(0, n);
  }

  lemma LowByte(b: Byte, v: nat, n: nat)
    ensures Enc(b + 256 * v, n + 1) == [b] + Enc(v, n)
  {
  }

  lemma AllOnes()
    ensures Enc(0xFFFF_FFFF_FFFF_FFFF, 8) == [255, 255, 255, 255, 255, 255, 255, 255]
    ensures Enc(0xFFFF_FFFF, 4) == [255, 255, 255, 255]
  {
    assert Enc(0xFF, 1) == [255];
    assert Enc(0xFFFF, 2) == [255, 255];
    assert Enc(0xFF_FFFF, 3) == [255, 255, 255];
    assert Enc(0xFFFF_FFFF, 4) == [255, 255, 255, 255];
    assert Enc(0xFF_FFFF_FFFF, 5) == [255, 255, 255, 255, 255];
    assert Enc(0xFFFF_FFFF_FFFF, 6) == [255, 255, 255, 255, 255, 255];
    assert Enc(0xFF_FFFF_FFFF_FFFF, 7) == [255, 255, 255, 255, 255, 255, 255];
  }

  /** A whole file: signature, version, id, number of states, number of tables, and for each table
      first its rows and then its verdicts, each with its size in front; -1 stands for the invalid
      node. Here one state with one table of one row with one cell, 5, and one verdict, none. */
  lemma FileBytes()
    ensures Image(SLEX_VERSION_100, 7, 1, [Dfa([[5]], [INVALID_NODE])]) ==
      [83, 76, 69, 88, 0, 0, 0, 0] + [0, 1, 0, 0, 0, 0, 0, 0] + [7, 0, 0, 0, 0, 0, 0, 0] + [1, 0, 0, 0]
      + [1, 0, 0, 0, 0, 0, 0, 0]
      + [1, 0, 0, 0, 0, 0, 0, 0] + [1, 0, 0, 0, 0, 0, 0, 0] + [5, 0, 0, 0]
      + [1, 0, 0, 0, 0, 0, 0, 0] + [255, 255, 255, 255]
  {
    hide Enc;
    var d := Dfa([[5]], [INVALID_NODE]);
    HeaderBytes(0);
    LongBytes(1, 1, 0, 0, 0);
    LongBytes(7, 7, 0, 0, 0);
    ShortBytes();
    OneElement(EncNode, 5);
    OneElement(EncNode, INVALID_NODE);
    OneElement(EncRow, [5]);
    OneElement(EncDfa, d);
    var one := [1, 0, 0, 0, 0, 0, 0, 0];
    assert EncRow([5]) == one + [5, 0, 0, 0] && EncRow([INVALID_NODE]) == one + [255, 255, 255, 255];
    assert EncDfa(d) == (one + EncRow([5])) + EncRow([INVALID_NODE]);
    assert EncDfas([d]) == one + EncDfa(d);
  }

  lemma ShortBytes()
    ensures Enc(1, 4) == [1, 0, 0, 0] && EncNode(5) == [5, 0, 0, 0] && EncNode(INVALID_NODE) == [255, 255, 255, 255]
  {
    Zeros();
    AllOnes();
    WordOf(1, 1, 0, 0, 0, 0);
    WordOf(5, 5, 0, 0, 0, 0);
  }

  lemma OneElement<T>(enc: T -> Bytes, x: T)
    ensures EncVec(enc, [x]) == Enc(1, 8) + enc(x)
  {
    assert [x][..0] == [];
    NothingEncoded(enc);
  }
}
