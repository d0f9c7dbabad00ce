/** Runs of a token source, over any function that says what the matcher finds next. */
module Runs {
  import opened Regex

  datatype Token = Token(id: int, value: Bytes)

  /** A match at the current input: its length, its token id, and the text that was scanned.
      Length 0 stands for "no rule matches" and carries the end-of-file id. */
  datatype Match = Match(len: nat, id: int, text: Bytes)

  type Oracle = Bytes -> Match

  /** The token ids of the preprocessor library that `get` mentions by name, and whether
      continuation lines are passed on. */
  datatype Config = Config(emitContlines: bool, tEof: int, tEoi: int, tContline: int)

  ghost predicate OracleOk(c: Config, o: Oracle) {
    && c.tEof != c.tContline
    && forall r :: o(r).len <= |r| && (o(r).len == 0 ==> o(r).id == c.tEof)
  }

  /** `std::string(value.c_str())`: the text up to its first NUL byte. */
  function CStr(s: Bytes): (r: Bytes)
    ensures r <= s && 0 !in r && (|r| < |s| ==> s[|r|] == 0)
  {
    if s == [] || s[0] == 0 then [] else [s[0]] + CStr(s[1..])
  }

  /** The text survives exactly when it holds no NUL byte. */
  lemma TextIsCutAtNul(s: Bytes)
    ensures CStr(s) == s <==> 0 !in s
  {
  }

  datatype Step = Step(token: Token, rest: Bytes, atEof: bool)

  /** What one call returns, what it leaves unread, and whether it saw the end of file. */
  ghost function Next(c: Config, o: Oracle, rest: Bytes): (s: Step)
    requires OracleOk(c, o)
    ensures !s.atEof ==> |s.rest| < |rest|
    ensures s.atEof <==> s.token.id == c.tEof
    decreases |rest|
  {
    var m := o(rest);
    if m.id == c.tEof then Step(Token(m.id, []), rest[m.len..], true)
    else if m.id == c.tContline && !c.emitContlines then Next(c, o, rest[m.len..])
    else Step(Token(m.id, CStr(m.text)), rest[m.len..], false)
  }

  lemma NextUnfolds(c: Config, o: Oracle, rest: Bytes)
    requires OracleOk(c, o)
    ensures o(rest).id == c.tEof ==> Next(c, o, rest) == Step(Token(c.tEof, []), rest[o(rest).len..], true)
    ensures o(rest).id == c.tContline && !c.emitContlines ==> Next(c, o, rest) == Next(c, o, rest[o(rest).len..])
    ensures o(rest).id != c.tEof && (o(rest).id != c.tContline || c.emitContlines) ==>
      Next(c, o, rest) == Step(Token(o(rest).id, CStr(o(rest).text)), rest[o(rest).len..], false)
  {
  }

  /** The tokens of successive calls, up to and including the end-of-file token. */
  ghost function AllTokens(c: Config, o: Oracle, rest: Bytes): (ts: seq<Token>)
    requires OracleOk(c, o)
    ensures 0 < |ts| <= |rest| + 1
    ensures forall i :: 0 <= i < |ts| ==> (ts[i].id == c.tEof <==> i == |ts| - 1)
    decreases |rest|
  {
    var s := Next(c, o, rest);
    [s.token] + if s.atEof then [] else AllTokens(c, o, s.rest)
  }

  /** What is unread after `n` calls, and whether the end of file has been seen. */
  ghost function After(c: Config, o: Oracle, rest: Bytes, n: nat): (Bytes, bool)
    requires OracleOk(c, o)
  {
    if n == 0 then (rest, false)
    else
      var (r, eof) := After(c, o, rest, n - 1);
      if eof then (r, true) else (Next(c, o, r).rest, Next(c, o, r).atEof)
  }

  /** The token that call number `n` returns. */
  ghost function Call(c: Config, o: Oracle, rest: Bytes, n: nat): Token
    requires OracleOk(c, o)
  {
    var (r, eof) := After(c, o, rest, n);
    if eof then Token(c.tEoi, []) else Next(c, o, r).token
  }

  lemma {:induction false} AfterShift(c: Config, o: Oracle, rest: Bytes, n: nat)
    requires OracleOk(c, o) && n > 0 && !Next(c, o, rest).atEof
    ensures After(c, o, rest, n) == After(c, o, Next(c, o, rest).rest, n - 1)
  {
    assert After(c, o, rest, 0) == (rest, false);
    if n > 1 {
      AfterShift(c, o, rest, n - 1);
    }
  }

  lemma {:induction false} EofSticks(c: Config, o: Oracle, rest: Bytes, n: nat, m: nat)
    requires OracleOk(c, o) && n <= m && After(c, o, rest, n).1
    ensures After(c, o, rest, m).1
  {
    if n < m {
      EofSticks(c, o, rest, n, m - 1);
    }
  }

  lemma CallShift(c: Config, o: Oracle, rest: Bytes, n: nat)
    requires OracleOk(c, o) && n > 0 && !Next(c, o, rest).atEof
    ensures Call(c, o, rest, n) == Call(c, o, Next(c, o, rest).rest, n - 1)
  {
    AfterShift(c, o, rest, n);
  }

  lemma FirstCall(c: Config, o: Oracle, rest: Bytes)
    requires OracleOk(c, o)
    ensures Call(c, o, rest, 0) == Next(c, o, rest).token
  {
    assert After(c, o, rest, 0) == (rest, false);
  }

  lemma CallAfterEof(c: Config, o: Oracle, rest: Bytes, n: nat)
    requires OracleOk(c, o) && n > 0 && Next(c, o, rest).atEof
    ensures Call(c, o, rest, n) == Token(c.tEoi, [])
  {
    assert After(c, o, rest, 0) == (rest, false);
    EofSticks(c, o, rest, 1, n);
  }

  /** The calls return the tokens in order, the end-of-file token once, and the end-of-input
      token ever after. */
  lemma {:induction false} CallsYieldAllTokens(c: Config, o: Oracle, rest: Bytes, n: nat)
    requires OracleOk(c, o)
    ensures Call(c, o, rest, n) == if n < |AllTokens(c, o, rest)| then AllTokens(c, o, rest)[n] else Token(c.tEoi, [])
    decreases |rest|
  {
    hide Next, AllTokens, After;
    var s := Next(c, o, rest);
    AllTokensUnfold(c, o, rest);
    FirstCall(c, o, rest);
    if s.atEof {
      if n > 0 {
        CallAfterEof(c, o, rest, n);
      }
    } else {
      if n > 0 {
        CallShift(c, o, rest, n);
        CallsYieldAllTokens(c, o, s.rest, n - 1);
      }
    }
  }

  /** The slices of the input that the matches consume, skipped continuation lines included. */
  ghost function Slices(c: Config, o: Oracle, rest: Bytes): seq<Bytes>
    requires OracleOk(c, o)
    decreases |rest|
  {
    var k := o(rest).len;
    if k == 0 then []
    else [rest[..k]] + if o(rest).id == c.tEof then [] else Slices(c, o, rest[k..])
  }

  function Flatten(ss: seq<Bytes>): Bytes {
    if ss == [] then [] else ss[0] + Flatten(ss[1..])
  }

  /** Consecutive nonempty slices, each the longest match where it starts. */
  ghost predicate Consecutive(c: Config, o: Oracle, rest: Bytes, ss: seq<Bytes>)
    requires OracleOk(c, o)
    decreases |ss|
  {
    ss == [] || (0 < |ss[0]| == o(rest).len && ss[0] <= rest && Consecutive(c, o, rest[|ss[0]|..], ss[1..]))
  }

  lemma {:induction false} SlicesPartition(c: Config, o: Oracle, rest: Bytes)
    requires OracleOk(c, o)
    ensures Consecutive(c, o, rest, Slices(c, o, rest)) && Flatten(Slices(c, o, rest)) <= rest
    decreases |rest|
  {
    var k := o(rest).len;
    if k > 0 {
      var ss, more := Slices(c, o, rest), if o(rest).id == c.tEof then [] else Slices(c, o, rest[k..]);
      assert ss[1..] == more && ss[0] == rest[..k];
      if o(rest).id != c.tEof {
        SlicesPartition(c, o, rest[k..]);
      }
      assert rest == rest[..k] + rest[k..];
    }
  }

  /** When something always matches, nothing is left over: the slices are the whole input. */
  lemma {:induction false} NothingIsDropped(c: Config, o: Oracle, rest: Bytes)
    requires OracleOk(c, o) && forall r :: r != [] ==> o(r).len > 0 && o(r).id != c.tEof
    ensures Flatten(Slices(c, o, rest)) == rest
    decreases |rest|
  {
    if rest != [] {
      var k := o(rest).len;
      NothingIsDropped(c, o, rest[k..]);
      assert Slices(c, o, rest)[1..] == Slices(c, o, rest[k..]);
      assert rest == rest[..k] + rest[k..];
    }
  }

  /** The calls consume exactly the slices: what the last call leaves unread is what the
      slices do not cover. */
  lemma {:induction false} CallsConsumeSlices(c: Config, o: Oracle, rest: Bytes)
    requires OracleOk(c, o)
    ensures |Flatten(Slices(c, o, rest))| <= |rest|
    ensures After(c, o, rest, |AllTokens(c, o, rest)|) == (rest[|Flatten(Slices(c, o, rest))|..], true)
    decreases |rest|
  {
    hide Next, AllTokens, After, Slices;
    SlicesPartition(c, o, rest);
    var k, id := o(rest).len, o(rest).id;
    if id == c.tEof {
      LastCall(c, o, rest);
    } else {
      var rest' := rest[k..];
      SlicesUnfold(c, o, rest);
      CallsConsumeSlices(c, o, rest');
      var f := |Flatten(Slices(c, o, rest'))|;
      assert rest'[f..] == rest[k + f..];
      NextUnfolds(c, o, rest);
      AllTokensUnfold(c, o, rest);
      if id == c.tContline && !c.emitContlines {
        AllTokensUnfold(c, o, rest');
        AfterSameNext(c, o, rest, rest', |AllTokens(c, o, rest)|);
      } else {
        AfterShift(c, o, rest, |AllTokens(c, o, rest)|);
      }
    }
  }

  lemma AllTokensUnfold(c: Config, o: Oracle, rest: Bytes)
    requires OracleOk(c, o)
    ensures var s := Next(c, o, rest);
      AllTokens(c, o, rest) == [s.token] + if s.atEof then [] else AllTokens(c, o, s.rest)
  {
  }

  lemma SlicesUnfold(c: Config, o: Oracle, rest: Bytes)
    requires OracleOk(c, o) && o(rest).id != c.tEof
    ensures var k := o(rest).len;
      k > 0 && |Flatten(Slices(c, o, rest))| == k + |Flatten(Slices(c, o, rest[k..]))|
  {
    var k := o(rest).len;
    assert Slices(c, o, rest)[1..] == Slices(c, o, rest[k..]);
  }

  lemma LastCall(c: Config, o: Oracle, rest: Bytes)
    requires OracleOk(c, o) && o(rest).id == c.tEof
    ensures |Flatten(Slices(c, o, rest))| == o(rest).len
    ensures After(c, o, rest, |AllTokens(c, o, rest)|) == (rest[o(rest).len..], true)
  {
    var k := o(rest).len;
    if k > 0 {
      assert Slices(c, o, rest) == [rest[..k]];
      assert [rest[..k]][1..] == [];
    }
    NextUnfolds(c, o, rest);
    AllTokensUnfold(c, o, rest);
    assert After(c, o, rest, 0) == (rest, false);
  }

  lemma {:induction false} AfterSameNext(c: Config, o: Oracle, a: Bytes, b: Bytes, n: nat)
    requires OracleOk(c, o) && n > 0 && Next(c, o, a) == Next(c, o, b)
    ensures After(c, o, a, n) == After(c, o, b, n)
  {
    assert After(c, o, a, 0) == (a, false) && After(c, o, b, 0) == (b, false);
    if n > 1 {
      AfterSameNext(c, o, a, b, n - 1);
    }
  }
}
