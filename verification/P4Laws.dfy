/** What the P4 lexer reads, in terms of the written-out grammar alone. */
module P4Laws {
  import opened Common
  import opened Literals
  import opened P4Grammar
  import opened P4Lexer
  import opened P4Trivia
  import opened P4Spelling

  // ----- words -----

  predicate IsWord(s: string) {
    s != "" && WordHead(s[0]) && forall i :: 0 <= i < |s| ==> WordTail(s[i])
  }

  /** A word extends as far as letters, digits and underscores go, and is a keyword exactly when it
      is one of the reserved words. */
  lemma WordIsRead(w: string, tail: string, r: Registers)
    requires IsWord(w) && (tail == "" || !WordTail(tail[0]))
    ensures Lex(w + tail, r) == Step(if w in RESERVED then Keyword(w) else Identifier, tail, r.(text := w))
  {
    hide Lex;
    LexSpelled(Word(w), tail, r);
    ReservedWords();
  }

  lemma ReservedWords()
    ensures RESERVED == KEYWORDS
  {
  }

  /** `x1` is one identifier, and an underscore alone is a keyword. */
  lemma WordExamples(r: Registers)
    ensures Lex("x1", r) == Step(Identifier, "", r.(text := "x1"))
    ensures Lex("_", r) == Step(Keyword("_"), "", r.(text := "_"))
  {
    hide Lex;
    assert "x1" + "" == "x1" && "_" + "" == "_";
    WordIsRead("x1", "", r);
    WordIsRead("_", "", r);
    assert "x1" !in RESERVED;
  }

  /** White space before a token changes nothing. */
  lemma BlankIsSkipped(c: char, tail: string, r: Registers)
    ensures Blank(c) ==> Lex([c] + tail, r) == Lex(tail, r)
    ensures Blank(c) <==> IsSpace(c)
  {
    hide Lex;
    assert ([c] + tail)[1..] == tail;
    if Blank(c) {
      SpaceSkips([c] + tail, r);
    }
  }

  // ----- operators -----

  lemma SymbolsAreOperators()
    ensures SYMBOLS == OPERATORS
  {
  }

  /** Every symbol is read as itself when what follows does not extend it, and nothing else is an
      operator. */
  lemma SymbolIsRead(o: string, tail: string, r: Registers)
    requires o in SYMBOLS && (tail == "" || !OpExtends(o, tail[0]))
    ensures Lex(o + tail, r) == Step(Operator(o), tail, r)
  {
    hide Lex;
    SymbolsAreOperators();
    LexSpelled(Op(o), tail, r);
  }

  lemma OnlySymbols(c: string)
    requires c != ""
    ensures OperatorAt(c).0.Operator? ==> OperatorAt(c).0.text in SYMBOLS
  {
    LongestOperator(c, "");
    SymbolsAreOperators();
  }

  // ----- values of digit strings -----

  lemma {:induction false} DenotesValue(s: string, base: nat, n: nat)
    requires 2 <= base <= 16
    ensures Denotes(s, base, n) <==> InBase(s, base) && BaseValue(s, base) == n
  {
    if s != "" {
      var init, c := s[..|s| - 1], s[|s| - 1];
      DenotesValue(init, base, n / base);
      DigitBelowIs(c, base);
      assert n % base < base && n / base >= 0;
      if Denotes(s, base, n) {
        assert InBase(init, base) && forall i :: 0 <= i < |s| - 1 ==> s[i] == init[i];
        DivModSum(n, base);
      }
      if InBase(s, base) && BaseValue(s, base) == n {
        assert InBase(init, base);
        ModUnique(n, base, BaseValue(init, base), HexValue(c));
      }
    }
  }

  /** The digits of a number below 2^31 behind a base prefix, or none for decimal. */
  predicate Prefixing(prefix: string, base: nat) {
    (prefix, base) in {("0b", 2), ("0B", 2), ("0o", 8), ("0O", 8), ("0d", 10), ("0D", 10), ("0x", 16), ("0X", 16), ("", 10)}
  }

  function Lexing(size: Option<(nat, bool)>, prefix: string, digits: string): Lexeme {
    var p := if |prefix| == 2 then Some(prefix[1]) else None;
    if size.Some? then Num(Some(size.value.0), size.value.1, p, digits) else Num(None, false, p, digits)
  }

  function SizeText(size: Option<(nat, bool)>): string {
    if size.Some? then Decimal(size.value.0) + (if size.value.1 then "s" else "w") else ""
  }

  /** What a literal means: the number itself without a size, its remainder modulo 2^width with one,
      less 2^width for a signed literal whose remainder has the sign bit set. */
  function Meaning(size: Option<(nat, bool)>, n: nat): int {
    match size
    case None => n
    case Some((width, signed)) =>
      var rest := n % Pow2(width);
      if signed && 2 * rest >= Pow2(width) then rest - Pow2(width) else rest
  }

  /** Any number, in any base, with or without a size, spelled with digits of either letter case,
      leaves what it means in the value register. */
  lemma NumberIsRead(size: Option<(nat, bool)>, prefix: string, base: nat, digits: string, n: nat, tail: string, r: Registers)
    requires size.Some? ==> (if size.value.1 then 2 else 1) <= size.value.0 <= 30
    requires Prefixing(prefix, base) && digits != "" && Denotes(digits, base, n) && n <= 0x7FFF_FFFF
    requires tail == "" || !NumberTail(tail[0])
    ensures Lex(SizeText(size) + prefix + digits + tail, r) ==
      Step(Number, tail, Registers(r.text, Meaning(size, n), if size.Some? then size.value.0 else r.width))
  {
    var l := Lexing(size, prefix, digits);
    LexemeOfParts(size, prefix, base, digits, n);
    MeaningIsTruncated(size, n);
    hide Lex, Denotes, LexemeOk, ReadValue, Spell, Truncate, Meaning, Prefixing;
    LexSpelled(l, tail, r);
  }

  lemma LexemeOfParts(size: Option<(nat, bool)>, prefix: string, base: nat, digits: string, n: nat)
    requires size.Some? ==> (if size.value.1 then 2 else 1) <= size.value.0 <= 30
    requires Prefixing(prefix, base) && digits != "" && Denotes(digits, base, n) && n <= 0x7FFF_FFFF
    ensures var l := Lexing(size, prefix, digits);
      LexemeOk(l) && ReadValue(l) == n && Spell(l) == SizeText(size) + prefix + digits
  {
    hide Denotes;
    var l := Lexing(size, prefix, digits);
    PrefixBase(size, prefix, base, digits);
    DenotesValue(digits, base, n);
    NoUnderscores(digits, base);
    hide BaseValue, InBase, Prefixing;
    NumeralIsLexeme(l);
    assert Prefixed(l) == prefix + digits;
    assert SizeText(size) + (prefix + digits) == SizeText(size) + prefix + digits;
  }

  lemma PrefixBase(size: Option<(nat, bool)>, prefix: string, base: nat, digits: string)
    requires Prefixing(prefix, base)
    ensures var l := Lexing(size, prefix, digits);
      && Base(l) == base && (l.prefix.Some? ==> PrefixLetter(l.prefix.value) && prefix == ['0', l.prefix.value])
      && (l.prefix.None? ==> prefix == "")
  {
  }

  lemma MeaningIsTruncated(size: Option<(nat, bool)>, n: nat)
    requires size.Some? ==> size.value.0 >= 1
    ensures size.Some? ==> Meaning(size, n) == Truncate(size.value.0, size.value.1, n)
  {
    hide Truncate;
    if size.Some? {
      TruncateValue(size.value.0, size.value.1, n);
    }
  }

  /** One literal in each base, with digits of both letter cases. */
  lemma BaseExamples(r: Registers)
    ensures Lex("0b10", r).registers.value == 2 && Lex("0o17", r).registers.value == 15
    ensures Lex("0d19", r).registers.value == 19 && Lex("0xfF", r).registers.value == 255
    ensures Lex("4s0xF", r).registers.value == -1
  {
    hide Lex;
    DenoteExamples();
    assert "" + "0b" + "10" + "" == "0b10" && "" + "0o" + "17" + "" == "0o17" && "" + "0d" + "19" + "" == "0d19";
    assert "" + "0x" + "fF" + "" == "0xfF" && Decimal(4) + "s" + "0x" + "F" + "" == "4s0xF";
    NumberIsRead(None, "0b", 2, "10", 2, "", r);
    NumberIsRead(None, "0o", 8, "17", 15, "", r);
    NumberIsRead(None, "0d", 10, "19", 19, "", r);
    NumberIsRead(None, "0x", 16, "fF", 255, "", r);
    NumberIsRead(Some((4, true)), "0x", 16, "F", 15, "", r);
    assert Pow2(4) == 16 by {
      assert Pow2(2) == 4;
    }
  }

  lemma DenoteExamples()
    ensures Denotes("10", 2, 2) && Denotes("17", 8, 15) && Denotes("19", 10, 19) && Denotes("fF", 16, 255) && Denotes("F", 16, 15)
  {
    assert "10"[..1] == "1" && "17"[..1] == "1" && "19"[..1] == "1" && "fF"[..1] == "f" && "1"[..0] == "" && "f"[..0] == "";
    assert "F"[..0] == "";
    assert Denotes("1", 2, 1) && Denotes("1", 8, 1) && Denotes("1", 10, 1) && Denotes("f", 16, 15);
  }

  // ----- every scanned number -----

  /** What the regular expression of the source takes a number apart into. */
  datatype Parts = Parts(size: Option<string>, signed: bool, prefix: Option<char>, digits: string)

  function Assemble(p: Parts): string {
    (if p.size.Some? then p.size.value + [if p.signed then 's' else 'w'] else "")
    + ((if p.prefix.Some? then ['0', p.prefix.value] else "") + p.digits)
  }

  /** Digits that themselves begin like a prefix are only taken as digits when nothing follows. */
  predicate PartsOk(p: Parts) {
    && (p.size.Some? ==> p.size.value != "" && forall i :: 0 <= i < |p.size.value| ==> Numeric(p.size.value[i]))
    && (p.size.None? ==> !p.signed) && (p.prefix.Some? ==> PrefixLetter(p.prefix.value))
    && p.digits != "" && DigitsOk(p.digits, 16)
    && (p.prefix.None? && |p.digits| > 2 && p.digits[0] == '0' ==> !PrefixLetter(p.digits[1]))
  }

  function BaseOfParts(p: Parts): (base: nat)
    ensures 2 <= base <= 16
  {
    if p.prefix.Some? then BaseNamed(p.prefix.value) else 10
  }

  lemma DigitsSplit(p: Parts)
    requires PartsOk(p)
    ensures var s := (if p.prefix.Some? then ['0', p.prefix.value] else "") + p.digits;
      && SplitDigits(p.size, p.signed, s) == Split(p.size, p.signed, BaseOfParts(p), p.digits)
      && forall i :: 0 <= i < |s| ==> s[i] != 'w' && s[i] != 's'
  {
    var s := (if p.prefix.Some? then ['0', p.prefix.value] else "") + p.digits;
    AllHexDigits(p.digits, 16);
    DigitsAreBase(p.digits, 16);
    if p.prefix.Some? {
      assert s[2..] == p.digits;
    } else {
      assert s == p.digits;
    }
    forall i | 0 <= i < |s| ensures s[i] != 'w' && s[i] != 's' {
      if i >= |s| - |p.digits| {
        assert s[i] == p.digits[i - (|s| - |p.digits|)];
      }
    }
  }

  /** The parts are found again. */
  lemma PartsAreSplit(p: Parts)
    requires PartsOk(p)
    ensures SplitNumber(Assemble(p)) == Split(p.size, p.signed, BaseOfParts(p), p.digits)
  {
    DigitsSplit(p);
    hide SplitDigits, DigitsOk, PrefixLetter, SplitNumber;
    var behind := (if p.prefix.Some? then ['0', p.prefix.value] else "") + p.digits;
    if p.size.Some? {
      SizedSplits(p.size.value, if p.signed then 's' else 'w', behind);
    } else {
      assert Assemble(p) == behind;
      UnsizedSplits(behind);
    }
  }

  lemma BehindHasParts(size: Option<string>, signed: bool, rest: string) returns (prefix: Option<char>, digits: string)
    requires SplitDigits(size, signed, rest) != NoNumber
    ensures rest == (if prefix.Some? then ['0', prefix.value] else "") + digits && digits != "" && DigitsOk(digits, 16)
    ensures prefix.Some? ==> PrefixLetter(prefix.value)
    ensures prefix.None? && |digits| > 2 && digits[0] == '0' ==> !PrefixLetter(digits[1])
  {
    if |rest| > 2 && rest[0] == '0' && BaseLetter(rest[1]) && Every(HexOrUnderscore, rest[2..]) {
      prefix, digits := Some(rest[1]), rest[2..];
      assert rest == ['0', rest[1]] + rest[2..];
    } else {
      prefix, digits := None, rest;
      if |rest| > 2 {
        forall i | 0 <= i < |rest[2..]| ensures HexOrUnderscore(rest[2..][i]) {
          assert HexOrUnderscore(rest[i + 2]);
        }
      }
      assert "" + rest == rest;
    }
    DigitsAreBase(digits, 16);
  }

  /** Conversely, whatever is split consists of such parts. */
  lemma SplitHasParts(s: string) returns (p: Parts)
    requires SplitNumber(s) != NoNumber
    ensures PartsOk(p) && s == Assemble(p)
  {
    hide SplitDigits, DigitsOk;
    var d := Span(IsDigit, s);
    if 0 < d < |s| && (s[d] == 'w' || s[d] == 's') {
      var prefix, digits := BehindHasParts(Some(s[..d]), s[d] == 's', s[d + 1..]);
      p := Parts(Some(s[..d]), s[d] == 's', prefix, digits);
      assert s == s[..d] + [s[d]] + s[d + 1..];
    } else {
      var prefix, digits := BehindHasParts(None, false, s);
      p := Parts(None, false, prefix, digits);
      assert "" + s == s;
    }
  }

  /** The value before the first underscore. */
  function ReadOf(p: Parts): nat
    requires DigitsOk(p.digits, BaseOfParts(p))
  {
    LeadingInBase(p.digits, BaseOfParts(p));
    BaseValue(Leading(p.digits), BaseOfParts(p))
  }

  /** The outcome of every scanned number, branch by branch: too large a size throws, too wide a one
      is undefined, a signed literal needs two bits, every digit must be below the base, and what is
      read must be there and fit an `int`. */
  lemma NumberOutcome(p: Parts, r: Registers)
    requires PartsOk(p)
    ensures AllDigits(if p.size.Some? then p.size.value else "")
    ensures var width := if p.size.Some? then Value(p.size.value) else r.width;
      var base := BaseOfParts(p);
      NumberResult(Assemble(p), r) ==
      if p.size.Some? && width > 0x7FFF_FFFF then (Throw, r)
      else if p.size.Some? && width > 30 then (Undefined, r)
      else if p.signed && width < 2 then (Unknown, r.(width := width))
      else if !DigitsOk(p.digits, base) then (Unknown, r.(width := width))
      else
        var n := ReadOf(p);
        if p.digits[0] == '_' || n > 0x7FFF_FFFF then (Throw, r.(width := width))
        else (Number, r.(width := width, value := if p.size.Some? then Truncate(width, p.signed, n) else n))
  {
    hide SplitNumber, Truncate, BaseValue, Value;
    PartsAreSplit(p);
    DigitsAreBase(p.digits, BaseOfParts(p));
    if DigitsOk(p.digits, BaseOfParts(p)) {
      LeadingInBase(p.digits, BaseOfParts(p));
      assert p.digits[0] == '_' <==> Span(NotUnderscore, p.digits) == 0;
    }
  }

  /** A run of number characters that does not come apart so is no token. */
  lemma NotANumber(s: string, r: Registers)
    requires forall p :: PartsOk(p) ==> s != Assemble(p)
    ensures NumberResult(s, r) == (Unknown, r)
  {
    if SplitNumber(s) != NoNumber {
      var p := SplitHasParts(s);
      assert false;
    }
  }

  /** A number extends as far as number characters go. */
  lemma NumberIsScannedWhole(s: string, tail: string, r: Registers)
    requires s != "" && Numeric(s[0]) && (forall i :: 0 <= i < |s| ==> NumberTail(s[i]))
    requires tail == "" || !NumberTail(tail[0])
    ensures Lex(s + tail, r) == Step(NumberResult(s, r).0, tail, NumberResult(s, r).1)
  {
    hide Lex, NumberResult;
    var c := s + tail;
    SpanIs(NumberChar, c, |s|);
    assert c[..|s|] == s && c[|s|..] == tail;
    LexNumber(c, r);
  }
}
