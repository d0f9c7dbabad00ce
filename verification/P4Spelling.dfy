/** Token lists of the P4 lexer: what is spelled out is read back. */
module P4Spelling {
  import opened Common
  import opened Literals
  import opened P4Grammar
  import opened P4Lexer
  import opened P4Trivia

  // ----- spelling -----

  /** A word, an operator, or a number with optional size and sign, optional base prefix, and
      digits. */
  datatype Lexeme =
    | Word(text: string)
    | Op(text: string)
    | Num(size: Option<nat>, signed: bool, prefix: Option<char>, digits: string)

  function Base(l: Lexeme): (base: nat)
    requires l.Num?
    ensures 2 <= base <= 16
  {
    if l.prefix.Some? then BaseNamed(l.prefix.value) else 10
  }

  /** The digits before the first underscore: all that `std::stoi` reads. */
  function Leading(digits: string): string {
    digits[..Span(NotUnderscore, digits)]
  }

  /** The digits without the underscores. */
  function Clean(digits: string): string {
    if digits == "" then "" else (if digits[0] == '_' then "" else [digits[0]]) + Clean(digits[1..])
  }

  predicate DigitsOk(digits: string, base: nat)
    requires base <= 16
  {
    forall i :: 0 <= i < |digits| ==> digits[i] == '_' || DigitBelow(digits[i], base)
  }

  lemma DigitBelowIs(c: char, base: nat)
    requires base <= 16
    ensures DigitBelow(c, base) <==> IsHex(c) && HexValue(c) < base
    ensures forall d :: DigitIs(c, d) <==> IsHex(c) && d == HexValue(c)
  {
    forall d: nat | DigitIs(c, d) ensures IsHex(c) && d == HexValue(c) {
    }
    if IsHex(c) {
      assert DigitIs(c, HexValue(c));
    }
  }

  lemma DigitsAreBase(digits: string, base: nat)
    requires base <= 16
    ensures DigitsOk(digits, base) <==> forall i :: 0 <= i < |digits| ==> BaseDigit(digits[i], base)
  {
    forall i | 0 <= i < |digits| ensures BaseDigit(digits[i], base) <==> digits[i] == '_' || DigitBelow(digits[i], base) {
      DigitBelowIs(digits[i], base);
    }
  }

  lemma LeadingInBase(digits: string, base: nat)
    requires base <= 16 && DigitsOk(digits, base)
    ensures InBase(Leading(digits), base)
  {
    DigitsAreBase(digits, base);
    forall i | 0 <= i < |Leading(digits)| ensures IsHex(digits[i]) && HexValue(digits[i]) < base {
      assert BaseDigit(digits[i], base) && NotUnderscore(digits[i]);
    }
  }

  /** A number as its parts may be put together: underscores among the digits, but a number that
      has neither a size nor a prefix begins with a digit. */
  predicate NumeralOk(l: Lexeme) {
    && l.Num? && l.digits != [] && (l.prefix.Some? ==> PrefixLetter(l.prefix.value))
    && DigitsOk(l.digits, Base(l))
    && (l.size.None? && l.prefix.None? ==> l.digits[0] != '_')
    && (if l.size.Some? then (if l.signed then 2 else 1) <= l.size.value <= 30 else !l.signed)
  }

  /** What the lexer takes for the value of the digits. */
  function ReadValue(l: Lexeme): nat
    requires NumeralOk(l)
  {
    LeadingInBase(l.digits, Base(l));
    BaseValue(Leading(l.digits), Base(l))
  }

  predicate LexemeOk(l: Lexeme) {
    match l
    case Word(text) => text != [] && WordHead(text[0]) && forall i :: 0 <= i < |text| ==> WordTail(text[i])
    case Op(text) => text in OPERATORS
    case Num(_, _, _, digits) => NumeralOk(l) && digits[0] != '_' && ReadValue(l) <= 0x7FFF_FFFF
  }

  function Sized(l: Lexeme): string requires l.Num? {
    if l.size.Some? then Decimal(l.size.value) + [if l.signed then 's' else 'w'] else ""
  }

  function Prefixed(l: Lexeme): string requires l.Num? {
    (if l.prefix.Some? then ['0', l.prefix.value] else "") + l.digits
  }

  function Spell(l: Lexeme): string {
    match l
    case Word(text) => text
    case Op(text) => text
    case Num(_, _, _, _) => Sized(l) + Prefixed(l)
  }

  function KindOf(l: Lexeme): Kind {
    match l
    case Word(text) => if text in KEYWORDS then Keyword(text) else Identifier
    case Op(text) => Operator(text)
    case Num(_, _, _, _) => Number
  }

  /** A number without a size keeps the width of the last sized one. */
  function RegistersAfter(l: Lexeme, r: Registers): Registers
    requires LexemeOk(l)
  {
    match l
    case Word(text) => r.(text := text)
    case Op(_) => r
    case Num(size, signed, _, _) =>
      if size.Some? then r.(width := size.value, value := Truncate(size.value, signed, ReadValue(l))) else r.(value := ReadValue(l))
  }

  // ----- one lexeme -----

  /** The scanner goes on from the operator `text` when `c` comes next: to a longer operator, a
      comment, or a pragma. */
  predicate OpExtends(text: string, c: char) {
    || (c == '=' && text in {"!", "<", "=", ">"})
    || (c == '&' && text in {"&", "&&"})
    || (c == '+' && text in {"+", "|"})
    || ((c == '-' || c == '|') && text == "|")
    || (c == '.' && text == ".")
    || (c == '<' && text == "<")
    || ((c == '/' || c == '*') && text == "/")
    || (c == 'p' && text == "@")
  }

  predicate Extends(l: Lexeme, c: char) {
    match l
    case Word(_) => WordTail(c)
    case Op(text) => OpExtends(text, c)
    case Num(_, _, _, _) => NumberTail(c)
  }

  /** What may follow a lexeme: nothing, or a character that does not extend it. */
  predicate Ends(l: Lexeme, tail: string) {
    tail == [] || !Extends(l, tail[0])
  }

  lemma LexSpelledWord(l: Lexeme, tail: string, r: Registers)
    requires l.Word? && LexemeOk(l) && Ends(l, tail)
    ensures Lex(Spell(l) + tail, r) == Step(KindOf(l), tail, RegistersAfter(l, r))
  {
    hide Lex;
    var c := l.text + tail;
    SpanIs(WordChar, c, |l.text|);
    assert c[..|l.text|] == l.text && c[|l.text|..] == tail;
    LexWord(c, r);
  }

  lemma OperatorSpelled(text: string, tail: string)
    requires text in OPERATORS && Ends(Op(text), tail)
    ensures 1 <= |text| <= 3 && OperatorAt(text + tail) == (Operator(text), |text|)
    ensures var c := text[0];
      && !IsSpace(c) && !WordStart(c) && !IsDigit(c) && c != '"' && c != '#'
      && !(c == '/' && (At((text + tail)[1..], '/') || At((text + tail)[1..], '*')))
  {
    var c := text + tail;
    assert forall i :: 0 <= i < |text| ==> c[i] == text[i];
    assert tail != [] ==> c[|text|] == tail[0];
    assert c[1..] != [] ==> c[1..][0] == c[1];
    assert |c| > 2 ==> c[1..][1..][0] == c[2];
  }

  lemma LexSpelledOperator(l: Lexeme, tail: string, r: Registers)
    requires l.Op? && LexemeOk(l) && Ends(l, tail)
    ensures Lex(Spell(l) + tail, r) == Step(KindOf(l), tail, RegistersAfter(l, r))
  {
    var c := l.text + tail;
    OperatorSpelled(l.text, tail);
    SpanSkipsNothing(c);
    assert c[|l.text|..] == tail;
  }

  lemma PrefixedSplits(l: Lexeme, size: Option<string>)
    requires NumeralOk(l)
    ensures SplitDigits(size, l.signed, Prefixed(l)) == Split(size, l.signed, Base(l), l.digits)
  {
    var s, digits := Prefixed(l), l.digits;
    DigitsAreBase(digits, Base(l));
    AllHexDigits(digits, Base(l));
    if l.prefix.Some? {
      assert s[2..] == digits;
    } else {
      assert s == digits;
      assert |s| > 1 ==> BaseDigit(s[1], 10) && !BaseLetter(s[1]);
    }
  }

  lemma AllHexDigits(digits: string, base: nat)
    requires base <= 16 && DigitsOk(digits, base)
    ensures Every(HexOrUnderscore, digits)
  {
    DigitsAreBase(digits, base);
  }

  lemma NumberSplits(l: Lexeme)
    requires l.Num? && NumeralOk(l)
    ensures var size := if l.size.Some? then Some(Decimal(l.size.value)) else None;
      SplitNumber(Spell(l)) == Split(size, l.signed, Base(l), l.digits)
  {
    hide SplitDigits, SplitNumber, NumeralOk, DigitsOk, Prefixed;
    var s := Spell(l);
    if l.size.Some? {
      var d := Decimal(l.size.value);
      assert s == d + [if l.signed then 's' else 'w'] + Prefixed(l);
      SizedSplits(d, if l.signed then 's' else 'w', Prefixed(l));
      PrefixedSplits(l, Some(d));
    } else {
      assert s == Prefixed(l);
      PrefixedSplits(l, None);
      forall k | 0 <= k < |s| ensures s[k] != 'w' && s[k] != 's' {
        NoSizeMark(l, k);
      }
      UnsizedSplits(s);
      UnsizedIsUnsigned(l);
    }
  }

  lemma UnsizedIsUnsigned(l: Lexeme)
    requires NumeralOk(l) && l.size.None?
    ensures !l.signed
  {
  }

  lemma SizedSplits(d: string, mark: char, behind: string)
    requires d != "" && AllDigits(d) && (mark == 'w' || mark == 's')
    ensures SplitNumber(d + [mark] + behind) == SplitDigits(Some(d), mark == 's', behind)
  {
    hide SplitDigits;
    var s := d + [mark] + behind;
    assert forall i :: 0 <= i < |d| ==> s[i] == d[i];
    assert s[|d|] == mark;
    SpanIs(IsDigit, s, |d|);
    assert s[..|d|] == d && s[|d| + 1..] == behind;
  }

  lemma UnsizedSplits(s: string)
    requires forall i :: 0 <= i < |s| ==> s[i] != 'w' && s[i] != 's'
    ensures SplitNumber(s) == SplitDigits(None, false, s)
  {
    hide SplitDigits;
  }

  lemma NoSizeMark(l: Lexeme, k: nat)
    requires NumeralOk(l) && k < |Prefixed(l)|
    ensures Prefixed(l)[k] != 'w' && Prefixed(l)[k] != 's'
  {
    var s := Prefixed(l);
    DigitsAreBase(l.digits, Base(l));
    if k >= |s| - |l.digits| {
      assert s[k] == l.digits[k - (|s| - |l.digits|)];
      assert BaseDigit(s[k], Base(l));
    }
  }

  /** A well-formed number is read unless its digits begin with an underscore or their value is
      too large for an `int`; then the conversion throws. */
  lemma NumberReads(l: Lexeme, r: Registers)
    requires NumeralOk(l)
    ensures LexemeOk(l) ==> NumberResult(Spell(l), r) == (Number, RegistersAfter(l, r))
    ensures !LexemeOk(l) ==> NumberResult(Spell(l), r).0 == Throw
  {
    hide SplitNumber, Stoi, Truncate, BaseValue, Value;
    NumberSplits(l);
    if l.size.Some? {
      ValueOfDecimal(l.size.value);
    }
    StoiReads(l);
  }

  lemma StoiReads(l: Lexeme)
    requires NumeralOk(l)
    ensures forall i :: 0 <= i < |l.digits| ==> BaseDigit(l.digits[i], Base(l))
    ensures Stoi(l.digits, Base(l)) == if LexemeOk(l) then Some(ReadValue(l)) else None
  {
    hide BaseValue;
    DigitsAreBase(l.digits, Base(l));
    LeadingInBase(l.digits, Base(l));
    assert l.digits[0] == '_' <==> Span(NotUnderscore, l.digits) == 0;
  }

  lemma NumberIsScanned(l: Lexeme, tail: string)
    requires NumeralOk(l) && Ends(l, tail)
    ensures Span(NumberChar, Spell(l) + tail) == |Spell(l)| && IsDigit(Spell(l)[0])
  {
    var s, c := Spell(l), Spell(l) + tail;
    DigitsAreBase(l.digits, Base(l));
    forall i | 0 <= i < |s| ensures NumberChar(c[i]) {
      if i >= |s| - |l.digits| {
        assert BaseDigit(l.digits[i - (|s| - |l.digits|)], Base(l));
      }
    }
    SpanIs(NumberChar, c, |s|);
    if l.size.Some? {
      assert s[0] == Decimal(l.size.value)[0];
    } else if l.prefix.None? {
      assert s[0] == l.digits[0] && BaseDigit(s[0], 10);
    }
  }

  lemma LexNumeral(l: Lexeme, tail: string, r: Registers)
    requires NumeralOk(l) && Ends(l, tail)
    ensures LexemeOk(l) ==> Lex(Spell(l) + tail, r) == Step(KindOf(l), tail, RegistersAfter(l, r))
    ensures !LexemeOk(l) ==> Lex(Spell(l) + tail, r).kind == Throw
  {
    hide Lex, NumberResult;
    var s, c := Spell(l), Spell(l) + tail;
    NumberIsScanned(l, tail);
    NumberReads(l, r);
    assert c[..|s|] == s && c[|s|..] == tail;
    LexNumber(c, r);
  }

  // ----- underscores in numbers -----

  lemma LeadingDigit(digits: string)
    requires digits != "" && digits[0] != '_'
    ensures Leading(digits) == [digits[0]] + Leading(digits[1..]) && |Leading(digits[1..])| <= |digits| - 1
    ensures Clean(digits) == [digits[0]] + Clean(digits[1..])
  {
  }

  lemma NoLeadingDigit(digits: string)
    requires digits == "" || digits[0] == '_'
    ensures Leading(digits) == "" && digits[|Leading(digits)|..] == digits
  {
  }

  lemma {:induction false} CleanSuffix(digits: string)
    ensures Clean(digits) == Leading(digits) + Clean(digits[|Leading(digits)|..])
  {
    if digits != "" && digits[0] != '_' {
      var more := digits[1..];
      CleanSuffix(more);
      LeadingDigit(digits);
      hide Clean, Leading;
      assert digits[1 + |Leading(more)|..] == more[|Leading(more)|..];
      assert [digits[0]] + (Leading(more) + Clean(more[|Leading(more)|..])) == Leading(digits) + Clean(more[|Leading(more)|..]);
    } else {
      NoLeadingDigit(digits);
    }
  }

  lemma {:induction false} CleanIsInBase(digits: string, base: nat)
    requires base <= 16 && DigitsOk(digits, base)
    ensures InBase(Clean(digits), base)
    ensures Clean(digits) == "" <==> forall i :: 0 <= i < |digits| ==> digits[i] == '_'
  {
    if digits != "" {
      DigitBelowIs(digits[0], base);
      CleanIsInBase(digits[1..], base);
      assert forall i :: 1 <= i < |digits| ==> digits[i] == digits[1..][i - 1];
    }
  }

  predicate AllZero(s: string) { forall i :: 0 <= i < |s| ==> s[i] == '0' }

  lemma {:induction false} ZeroValue(s: string, base: nat)
    requires 2 <= base <= 16 && InBase(s, base)
    ensures BaseValue(s, base) == 0 <==> AllZero(s)
  {
    if s != "" {
      var n := |s| - 1;
      ZeroValue(s[..n], base);
      if BaseValue(s[..n], base) > 0 {
        MulGrows(base, BaseValue(s[..n], base));
      } else {
        assert base * 0 == 0;
        assert HexValue(s[n]) == 0 <==> s[n] == '0';
      }
    }
  }

  /** Appending digits never leaves a value as it was, unless all digits are zero. */
  lemma {:induction false} AppendingGrows(a: string, b: string, base: nat)
    requires 2 <= base <= 16 && InBase(a, base) && InBase(b, base)
    ensures InBase(a + b, base) && BaseValue(a + b, base) >= BaseValue(a, base)
    ensures b != "" ==> (BaseValue(a + b, base) == BaseValue(a, base) <==> BaseValue(a + b, base) == 0)
  {
    if b == "" {
      assert a + b == a;
    } else {
      var n := |b| - 1;
      AppendingGrows(a, b[..n], base);
      assert a + b == (a + b[..n]) + [b[n]];
      AppendDigit(a + b[..n], b[n], base);
      assert b[..n] == "" ==> a + b[..n] == a;
      hide BaseValue, InBase;
      Doubles(base, BaseValue(a + b[..n], base));
    }
  }

  lemma Doubles(base: nat, x: nat)
    requires base >= 2
    ensures base * x >= 2 * x
  {
  }

  /** A number reads as the value of its digits without the underscores exactly when no digit
      follows the first underscore or all digits are zero. */
  lemma UnderscoresMatter(digits: string, base: nat)
    requires 2 <= base <= 16 && DigitsOk(digits, base)
    ensures InBase(Leading(digits), base) && InBase(Clean(digits), base)
    ensures BaseValue(Leading(digits), base) == BaseValue(Clean(digits), base) <==>
      (forall i :: |Leading(digits)| <= i < |digits| ==> digits[i] == '_') || AllZero(Clean(digits))
  {
    hide BaseValue, Clean, Leading;
    var k := |Leading(digits)|;
    assert k <= |digits| by {
      LeadingIsPrefix(digits);
    }
    var more := digits[k..];
    LeadingInBase(digits, base);
    CleanIsInBase(digits, base);
    CleanIsInBase(more, base);
    CleanSuffix(digits);
    AppendingGrows(Leading(digits), Clean(more), base);
    ZeroValue(Clean(digits), base);
    assert forall i :: k <= i < |digits| ==> digits[i] == more[i - k];
    if Clean(more) == "" {
      assert Clean(digits) == Leading(digits);
      forall i | k <= i < |digits| ensures digits[i] == '_' {
        assert more[i - k] == '_';
      }
    }
  }

  lemma LeadingIsPrefix(digits: string)
    ensures Leading(digits) <= digits
  {
  }

  /** What a number without a size leaves in the value register. */
  lemma UnsizedValue(l: Lexeme, tail: string, r: Registers)
    requires LexemeOk(l) && l.Num? && l.size.None? && Ends(l, tail)
    ensures InBase(Clean(l.digits), Base(l))
    ensures Lex(Spell(l) + tail, r).registers.value == BaseValue(Clean(l.digits), Base(l)) <==>
      (forall i :: |Leading(l.digits)| <= i < |l.digits| ==> l.digits[i] == '_') || AllZero(Clean(l.digits))
  {
    hide Lex, BaseValue, Clean, Leading;
    LexNumeral(l, tail, r);
    UnderscoresMatter(l.digits, Base(l));
  }

  /** A number with a size leaves the truncated value of its digits without the underscores exactly
      when what is read agrees with that value modulo `2^size`. */
  lemma SizedValue(l: Lexeme, tail: string, r: Registers)
    requires LexemeOk(l) && l.Num? && l.size.Some? && Ends(l, tail)
    ensures InBase(Clean(l.digits), Base(l))
    ensures var (n, p) := (BaseValue(Clean(l.digits), Base(l)), Pow2(l.size.value));
      Lex(Spell(l) + tail, r).registers.value == Truncate(l.size.value, l.signed, n) <==> ReadValue(l) % p == n % p
  {
    hide Lex, BaseValue, Clean, Leading, Truncate;
    LexNumeral(l, tail, r);
    CleanIsInBase(l.digits, Base(l));
    var n := BaseValue(Clean(l.digits), Base(l));
    TruncateValue(l.size.value, l.signed, n);
    TruncateValue(l.size.value, l.signed, ReadValue(l));
    TruncateIsTwosComplement(l.size.value, l.signed, n);
    TruncateIsTwosComplement(l.size.value, l.signed, ReadValue(l));
  }

  /** What any number leaves in the value register, against its digits without the underscores. */
  lemma NumberValue(l: Lexeme, tail: string, r: Registers)
    requires LexemeOk(l) && l.Num? && Ends(l, tail)
    ensures InBase(Clean(l.digits), Base(l))
    ensures var (n, v) := (BaseValue(Clean(l.digits), Base(l)), Lex(Spell(l) + tail, r).registers.value);
      match l.size
      case None =>
        v == n <==> (forall i :: |Leading(l.digits)| <= i < |l.digits| ==> l.digits[i] == '_') || AllZero(Clean(l.digits))
      case Some(w) => v == Truncate(w, l.signed, n) <==> ReadValue(l) % Pow2(w) == n % Pow2(w)
  {
    hide Lex, BaseValue, Clean, Leading, Truncate, LexemeOk;
    if l.size.Some? {
      SizedValue(l, tail, r);
    } else {
      UnsizedValue(l, tail, r);
    }
  }

  /** `8w1_0` reads as one, and `1w2_4`, of which only the two is read, has its one bit right. */
  lemma SizedUnderscoreExamples(r: Registers)
    ensures Lex("8w1_0", r) == Step(Number, "", r.(width := 8, value := 1)) && Truncate(8, false, 10) == 10
    ensures Lex("1w2_4", r) == Step(Number, "", r.(width := 1, value := 0)) && Truncate(1, false, 24) == 0
  {
    hide Lex;
    var eight, bit := Num(Some(8), false, None, "1_0"), Num(Some(1), false, None, "2_4");
    OneUnderscore(eight, 8, "1_0", 1);
    OneUnderscore(bit, 1, "2_4", 2);
    assert Decimal(8) == "8" && Decimal(1) == "1";
    assert Spell(eight) + "" == "8w1_0" && Spell(bit) + "" == "1w2_4";
    hide LexemeOk, ReadValue, Spell, Truncate;
    LexNumeral(eight, "", r);
    LexNumeral(bit, "", r);
    SmallTruncates();
  }

  lemma SmallTruncates()
    ensures Truncate(8, false, 1) == 1 && Truncate(8, false, 10) == 10
    ensures Truncate(1, false, 2) == 0 && Truncate(1, false, 24) == 0
  {
    hide Truncate;
    Pow2Small();
    TruncateValue(8, false, 1);
    TruncateValue(8, false, 10);
    TruncateValue(1, false, 2);
    TruncateValue(1, false, 24);
  }

  lemma OneUnderscore(l: Lexeme, width: nat, digits: string, n: nat)
    requires l == Num(Some(width), false, None, digits) && 1 <= width <= 30
    requires (digits == "1_0" && n == 1) || (digits == "2_4" && n == 2)
    ensures LexemeOk(l) && ReadValue(l) == n
  {
    DigitsAreBase(digits, 10);
    var first := digits[..1];
    SpanIs(NotUnderscore, digits, 1);
    assert first[..0] == "" && Leading(digits) == first;
    assert BaseValue(first, 10) == n;
  }

  lemma Pow2Small()
    ensures Pow2(1) == 2 && Pow2(8) == 256
  {
    assert Pow2(2) == 4 && Pow2(4) == 16 && Pow2(6) == 64;
  }

  /** `1_0` reads as one, and `0x_1` throws. */
  lemma UnderscoreExamples(r: Registers)
    ensures Lex("1_0", r) == Step(Number, "", r.(value := 1))
    ensures Lex("0x_1", r).kind == Throw
  {
    hide Lex;
    var ten, one := Num(None, false, None, "1_0"), Num(None, false, Some('x'), "_1");
    DigitsAreBase("1_0", 10);
    DigitsAreBase("_1", 16);
    assert NumeralOk(ten) && Leading("1_0") == "1" && "1"[..0] == "";
    assert BaseValue("1", 10) == 1;
    assert ReadValue(ten) == 1;
    assert Spell(ten) + "" == "1_0";
    LexNumeral(ten, "", r);
    assert NumeralOk(one) && !LexemeOk(one);
    assert Spell(one) + "" == "0x_1";
    LexNumeral(one, "", r);
  }

  /** A lexeme that is extended leaves less than the tail behind, or is another token. */
  lemma ExtendedIsMisread(l: Lexeme, tail: string, r: Registers)
    requires LexemeOk(l) && !Ends(l, tail)
    ensures Lex(Spell(l) + tail, r).rest != tail || Lex(Spell(l) + tail, r).kind != KindOf(l)
  {
    var s, c := Spell(l), Spell(l) + tail;
    match l
    case Word(text) =>
      LexWord(c, r);
      hide Lex;
      LongerSpan(WordChar, text, tail);
    case Num(_, _, _, _) =>
      NumberIsScanned(l, "");
      assert s + "" == s;
      hide Lex;
      SpanAll(NumberChar, s);
      assert IsDigit(c[0]);
      LexNumber(c, r);
      LongerSpan(NumberChar, s, tail);
    case Op(text) => ExtendedOperator(text, tail, r);
  }

  lemma SpanAll(f: char -> bool, s: string)
    requires Span(f, s) == |s|
    ensures forall i :: 0 <= i < |s| ==> f(s[i])
  {
  }

  lemma LongerSpan(f: char -> bool, s: string, tail: string)
    requires tail != "" && f(tail[0]) && forall i :: 0 <= i < |s| ==> f(s[i])
    ensures |s| < Span(f, s + tail) && |(s + tail)[Span(f, s + tail)..]| < |tail|
  {
    var c := s + tail;
    assert c[|s|] == tail[0] && forall i :: 0 <= i < |s| ==> c[i] == s[i];
  }

  lemma ExtendedOperator(text: string, tail: string, r: Registers)
    requires text in OPERATORS && tail != "" && OpExtends(text, tail[0])
    ensures Lex(text + tail, r).rest != tail || Lex(text + tail, r).kind != Operator(text)
  {
    var c := text + tail;
    assert c[|text|] == tail[0] && c[0] == text[0];
    OperatorStart(text);
    LexOther(c, r);
    if text == "/" {
      assert c[1..] == tail;
      AfterLineShrinks(c[2..]);
    } else {
      hide Lex;
      ExtendedAt(text, tail);
    }
  }

  lemma AfterLineShrinks(s: string)
    ensures |AfterLine(s)| <= |s|
  {
  }

  lemma OperatorStart(text: string)
    requires text in OPERATORS
    ensures text != "" && !IsSpace(text[0]) && !WordStart(text[0]) && !IsDigit(text[0]) && text[0] != '"' && text[0] != '#'
    ensures text[0] == '/' ==> text == "/"
  {
  }

  lemma ExtendedAt(text: string, tail: string)
    requires text in OPERATORS && text != "/" && tail != "" && OpExtends(text, tail[0])
    ensures OperatorAt(text + tail).0 != Operator(text)
  {
    var c := text + tail;
    assert forall i :: 0 <= i < |text| ==> c[i] == text[i];
    assert c[|text|] == tail[0];
    assert c[1..] != [] ==> c[1..][0] == c[1];
    assert |c| > 2 ==> c[1..][1..][0] == c[2];
  }

  /** One lexeme is read back exactly if and only if what follows does not extend it. */
  lemma LexSpelled(l: Lexeme, tail: string, r: Registers)
    requires LexemeOk(l)
    ensures Lex(Spell(l) + tail, r) == Step(KindOf(l), tail, RegistersAfter(l, r)) <==> Ends(l, tail)
  {
    hide Lex, LexemeOk, Ends;
    if Ends(l, tail) {
      match l
      case Word(_) => LexSpelledWord(l, tail, r);
      case Op(_) => LexSpelledOperator(l, tail, r);
      case Num(_, _, _, _) => NumIsNumeral(l); LexNumeral(l, tail, r);
    } else {
      ExtendedIsMisread(l, tail, r);
    }
  }

  lemma NumIsNumeral(l: Lexeme)
    requires l.Num? && LexemeOk(l)
    ensures NumeralOk(l)
  {
  }

  /** A sized literal printed from a representable value, in any base, reads back as that value. */
  lemma SizedLiteralReadsBack(width: nat, signed: bool, prefix: char, x: int, tail: string, r: Registers)
    requires (if signed then 2 else 1) <= width <= 30 && PrefixLetter(prefix) && Representable(width, signed, x)
    requires tail == "" || !NumberTail(tail[0])
    ensures var l := Num(Some(width), signed, Some(prefix), SpellIn(x % Pow2(width), BaseNamed(prefix)));
      Lex(Spell(l) + tail, r) == Step(Number, tail, Registers(r.text, x, width))
  {
    var n, base := x % Pow2(width), BaseNamed(prefix);
    var l := Num(Some(width), signed, Some(prefix), SpellIn(n, base));
    SpellValue(n, base);
    Pow2Bound(width);
    NoUnderscores(l.digits, base);
    NumeralIsLexeme(l);
    TruncateRoundTrip(width, signed, x);
    hide Lex, Spell, LexemeOk, SpellIn, BaseValue, Truncate, Leading;
    LexSpelled(l, tail, r);
  }

  lemma NumeralIsLexeme(l: Lexeme)
    requires l.Num? && l.digits != "" && InBase(l.digits, Base(l)) && Leading(l.digits) == l.digits
    requires BaseValue(l.digits, Base(l)) <= 0x7FFF_FFFF && (l.prefix.Some? ==> PrefixLetter(l.prefix.value))
    requires if l.size.Some? then (if l.signed then 2 else 1) <= l.size.value <= 30 else !l.signed
    ensures LexemeOk(l) && ReadValue(l) == BaseValue(l.digits, Base(l))
  {
    DigitsAreBase(l.digits, Base(l));
  }

  lemma NoUnderscores(digits: string, base: nat)
    requires base <= 16 && InBase(digits, base)
    ensures DigitsOk(digits, base) && Leading(digits) == digits
  {
    DigitsAreBase(digits, base);
    assert forall i :: 0 <= i < |digits| ==> NotUnderscore(digits[i]);
    SpanIs(NotUnderscore, digits, |digits|);
  }

  lemma {:induction false} Pow2Bound(n: nat)
    requires n <= 30
    ensures Pow2(n) <= 0x4000_0000
  {
    Pow2Doubles(n, 30);
    assert Pow2(10) == 1024;
    assert Pow2(15) == 0x8000;
    assert Pow2(20) == 0x10_0000;
    assert Pow2(25) == 0x200_0000;
    assert Pow2(30) == 0x4000_0000;
  }

  lemma {:induction false} Pow2Doubles(m: nat, n: nat)
    requires m <= n
    ensures Pow2(m) <= Pow2(n)
  {
    if m < n {
      Pow2Doubles(m, n - 1);
    }
  }

  // ----- token lists -----

  /** Lexemes, each with the gap that follows it. */
  type Source = seq<(Lexeme, seq<GapItem>)>

  function SpellSource(items: Source): string {
    if items == [] then "" else Spell(items[0].0) + (SpellGap(items[0].1) + SpellSource(items[1..]))
  }

  predicate GapOk(gap: seq<GapItem>) {
    forall j :: 0 <= j < |gap| ==> GapItemOk(gap[j])
  }

  /** Nothing that follows a lexeme extends it; gaps may be empty. */
  predicate SourceOk(items: Source) {
    items == [] || (
      && LexemeOk(items[0].0) && GapOk(items[0].1)
      && Ends(items[0].0, SpellGap(items[0].1) + SpellSource(items[1..]))
      && SourceOk(items[1..]))
  }

  function LexemesOf(items: Source): seq<Lexeme> {
    seq(|items|, i requires 0 <= i < |items| => items[i].0)
  }

  /** All tokens of the input with the registers after each; stops at the end token or where
      the source gives none. */
  function TokensOf(s: string, r: Registers): seq<(Kind, Registers)>
    decreases |s|
  {
    var t := Lex(s, r);
    if t.kind.End? || t.kind.Hang? || t.kind.Throw? || t.kind.Undefined? then [(t.kind, t.registers)]
    else [(t.kind, t.registers)] + TokensOf(t.rest, t.registers)
  }

  predicate LexemesOk(ls: seq<Lexeme>) {
    forall i :: 0 <= i < |ls| ==> LexemeOk(ls[i])
  }

  function Expected(ls: seq<Lexeme>, r: Registers): seq<(Kind, Registers)>
    requires LexemesOk(ls)
  {
    if ls == [] then [(End, r)]
    else [(KindOf(ls[0]), RegistersAfter(ls[0], r))] + Expected(ls[1..], RegistersAfter(ls[0], r))
  }

  lemma TokensOfEqual(s: string, t: string, r: Registers)
    requires Lex(s, r) == Lex(t, r)
    ensures TokensOf(s, r) == TokensOf(t, r)
  {
    hide Lex;
  }

  /** Lexing the spelling of a token list, with any white space and comments between the
      tokens, yields exactly that list and then the end token. */
  lemma {:induction false} TokenListRoundTrip(gap: seq<GapItem>, items: Source, r: Registers)
    requires SourceOk(items) && GapOk(gap)
    ensures LexemesOk(LexemesOf(items))
    ensures TokensOf(SpellGap(gap) + SpellSource(items), r) == Expected(LexemesOf(items), r)
    decreases |items|
  {
    hide Lex, RegistersAfter, LexemeOk, Spell, TokensOf, Expected, KindOf;
    LexemesAreOk(items);
    var s := SpellSource(items);
    GapIsSkipped(gap, s, r);
    TokensOfEqual(SpellGap(gap) + s, s, r);
    if items == [] {
      assert s == "" && LexemesOf(items) == [];
      EndOfTokens(r);
    } else {
      var (l, g) := items[0];
      var tail := SpellGap(g) + SpellSource(items[1..]);
      TailEnds(items);
      LexSpelled(l, tail, r);
      assert s == Spell(l) + tail;
      TokenListRoundTrip(g, items[1..], RegistersAfter(l, r));
      KindIsToken(l);
      NextToken(s, KindOf(l), tail, r, RegistersAfter(l, r));
      ExpectedMore(items, r);
    }
  }

  lemma EndOfTokens(r: Registers)
    ensures TokensOf("", r) == [(End, r)] && Expected([], r) == [(End, r)]
  {
    LexNothing(r);
  }

  lemma {:induction false} LexemesAreOk(items: Source)
    requires SourceOk(items)
    ensures LexemesOk(LexemesOf(items))
  {
    if items != [] {
      LexemesAreOk(items[1..]);
      hide LexemeOk, Ends, SourceOk, GapOk, SpellGap, SpellSource;
      LexemesSplit(items);
    }
  }

  lemma LexemesSplit(items: Source)
    requires items != []
    ensures LexemesOf(items) == [items[0].0] + LexemesOf(items[1..])
  {
  }

  lemma ExpectedStep(l: Lexeme, ls: seq<Lexeme>, r: Registers)
    requires LexemeOk(l) && LexemesOk(ls)
    ensures LexemesOk([l] + ls)
    ensures Expected([l] + ls, r) == [(KindOf(l), RegistersAfter(l, r))] + Expected(ls, RegistersAfter(l, r))
  {
    hide RegistersAfter, LexemeOk, KindOf;
    assert ([l] + ls)[1..] == ls;
  }

  lemma ExpectedMore(items: Source, r: Registers)
    requires SourceOk(items) && items != []
    ensures SourceOk(items[1..]) && LexemesOk(LexemesOf(items)) && LexemesOk(LexemesOf(items[1..]))
    ensures LexemeOk(items[0].0)
    ensures var (l, ls) := (items[0].0, LexemesOf(items[1..]));
      Expected(LexemesOf(items), r) == [(KindOf(l), RegistersAfter(l, r))] + Expected(ls, RegistersAfter(l, r))
  {
    TailEnds(items);
    LexemesAreOk(items);
    LexemesAreOk(items[1..]);
    hide RegistersAfter, LexemeOk, KindOf, SpellGap, SpellSource, Expected, LexemesOf, LexemesOk;
    LexemesSplit(items);
    ExpectedStep(items[0].0, LexemesOf(items[1..]), r);
  }

  lemma KindIsToken(l: Lexeme)
    ensures var k := KindOf(l); !k.End? && !k.Hang? && !k.Throw? && !k.Undefined?
  {
  }

  lemma NextToken(s: string, kind: Kind, tail: string, r: Registers, r': Registers)
    requires Lex(s, r) == Step(kind, tail, r') && !kind.End? && !kind.Hang? && !kind.Throw? && !kind.Undefined?
    ensures TokensOf(s, r) == [(kind, r')] + TokensOf(tail, r')
  {
    hide Lex;
  }

  lemma TailEnds(items: Source)
    requires SourceOk(items) && items != []
    ensures LexemeOk(items[0].0) && GapOk(items[0].1) && SourceOk(items[1..])
    ensures Ends(items[0].0, SpellGap(items[0].1) + SpellSource(items[1..]))
  {
  }

  /** White space behind every lexeme but the last is always enough, and so is a comment, except
      behind a division. */
  predicate Spaced(items: Source) {
    forall i :: 0 <= i < |items| ==>
      && LexemeOk(items[i].0) && GapOk(items[i].1)
      && (if items[i].1 == [] then i == |items| - 1 else items[i].1[0].Space? || items[i].0 != Op("/"))
  }

  lemma {:induction false} SpacedIsOk(items: Source)
    requires Spaced(items)
    ensures SourceOk(items)
  {
    if items != [] {
      var (l, g) := items[0];
      var tail := SpellGap(g) + SpellSource(items[1..]);
      forall i | 0 <= i < |items[1..]| ensures items[1..][i] == items[i + 1] {
      }
      SpacedIsOk(items[1..]);
      if g == [] {
        assert items[1..] == [] && tail == "";
      } else {
        assert SpellGap(g) == SpellGapItem(g[0]) + SpellGap(g[1..]);
        assert tail[0] == SpellGapItem(g[0])[0];
        assert GapItemOk(g[0]);
        SeparatorEnds(l, tail[0]);
      }
    }
  }

  lemma SeparatorEnds(l: Lexeme, c: char)
    requires Blank(c) || (c == '/' && l != Op("/"))
    ensures !Extends(l, c)
  {
  }

  /** The spelling `abc&0x19&&&8w0x0f` without any gaps. */
  lemma AdjacentTokens(r: Registers)
    ensures var r1, r2 := r.(text := "abc", value := 25), Registers("abc", 15, 8);
      TokensOf("abc&0x19&&&8w0x0f", r) ==
      [(Identifier, r.(text := "abc")), (Operator("&"), r.(text := "abc")), (Number, r1), (Operator("&&&"), r1),
       (Number, r2), (End, r2)]
  {
    hide Lex, TokensOf, RegistersAfter, LexemeOk, Ends, Spell, KindOf;
    var w, n, m := Word("abc"), Num(None, false, Some('x'), "19"), Num(Some(8), false, Some('x'), "0f");
    var r0, r1, r2 := r.(text := "abc"), r.(text := "abc", value := 25), Registers("abc", 15, 8);
    ExampleSpelled(w, n, m, r);
    ExampleEnds(w, n, m);
    ExampleKinds(w, n, m);
    ExampleText();
    TokenThen(w, "&0x19&&&8w0x0f", r);
    TokenThen(Op("&"), "0x19&&&8w0x0f", r0);
    TokenThen(n, "&&&8w0x0f", r0);
    TokenThen(Op("&&&"), "8w0x0f", r1);
    TokenThen(m, "", r1);
    EndOfTokens(r2);
  }

  lemma ExampleText()
    ensures "abc" + "&0x19&&&8w0x0f" == "abc&0x19&&&8w0x0f" && "&" + "0x19&&&8w0x0f" == "&0x19&&&8w0x0f"
    ensures "0x19" + "&&&8w0x0f" == "0x19&&&8w0x0f" && "&&&" + "8w0x0f" == "&&&8w0x0f" && "8w0x0f" + "" == "8w0x0f"
  {
  }

  lemma ExampleKinds(w: Lexeme, n: Lexeme, m: Lexeme)
    requires w == Word("abc") && n.Num? && m.Num?
    ensures KindOf(w) == Identifier && KindOf(n) == Number && KindOf(m) == Number
    ensures KindOf(Op("&")) == Operator("&") && KindOf(Op("&&&")) == Operator("&&&")
  {
  }

  lemma TokenThen(l: Lexeme, tail: string, r: Registers)
    requires LexemeOk(l) && Ends(l, tail)
    ensures TokensOf(Spell(l) + tail, r) == [(KindOf(l), RegistersAfter(l, r))] + TokensOf(tail, RegistersAfter(l, r))
  {
    hide Lex, TokensOf, LexemeOk, Ends, Spell, RegistersAfter;
    LexSpelled(l, tail, r);
    KindIsToken(l);
    NextToken(Spell(l) + tail, KindOf(l), tail, r, RegistersAfter(l, r));
  }

  lemma ExampleSpelled(w: Lexeme, n: Lexeme, m: Lexeme, r: Registers)
    requires w == Word("abc") && n == Num(None, false, Some('x'), "19") && m == Num(Some(8), false, Some('x'), "0f")
    ensures LexemeOk(w) && LexemeOk(n) && LexemeOk(m) && LexemeOk(Op("&")) && LexemeOk(Op("&&&"))
    ensures Spell(w) == "abc" && Spell(n) == "0x19" && Spell(m) == "8w0x0f" && Spell(Op("&")) == "&" && Spell(Op("&&&")) == "&&&"
    ensures var r0, r1 := r.(text := "abc"), r.(text := "abc", value := 25);
      && RegistersAfter(w, r) == r0 && RegistersAfter(Op("&"), r0) == r0 && RegistersAfter(n, r0) == r1
      && RegistersAfter(Op("&&&"), r1) == r1 && RegistersAfter(m, r1) == Registers("abc", 15, 8)
  {
    NumbersOfExample(n, m);
    hide Truncate, ReadValue, Spell;
    assert Spell(w) == "abc" && Spell(Op("&")) == "&" && Spell(Op("&&&")) == "&&&" by {
      PlainSpellings();
    }
  }

  lemma PlainSpellings()
    ensures Spell(Word("abc")) == "abc" && Spell(Op("&")) == "&" && Spell(Op("&&&")) == "&&&"
  {
  }

  lemma ExampleEnds(w: Lexeme, n: Lexeme, m: Lexeme)
    requires w == Word("abc") && n == Num(None, false, Some('x'), "19") && m == Num(Some(8), false, Some('x'), "0f")
    ensures Ends(w, "&0x19&&&8w0x0f") && Ends(Op("&"), "0x19&&&8w0x0f") && Ends(n, "&&&8w0x0f")
    ensures Ends(Op("&&&"), "8w0x0f") && Ends(m, "")
  {
  }

  lemma FifteenFits()
    ensures Truncate(8, false, 15) == 15
  {
    hide Truncate;
    Pow2Small();
    TruncateValue(8, false, 15);
  }

  lemma FirstNumber(n: Lexeme)
    requires n == Num(None, false, Some('x'), "19")
    ensures LexemeOk(n) && ReadValue(n) == 25 && Spell(n) == "0x19"
  {
    DigitsAreBase("19", 16);
    assert "19"[..1] == "1" && "1"[..0] == "";
    assert Leading("19") == "19";
    assert BaseValue("1", 16) == 1 && BaseValue("19", 16) == 25;
  }

  lemma SecondNumber(m: Lexeme)
    requires m == Num(Some(8), false, Some('x'), "0f")
    ensures LexemeOk(m) && ReadValue(m) == 15 && Spell(m) == "8w0x0f"
  {
    DigitsAreBase("0f", 16);
    assert "0f"[..1] == "0" && "0"[..0] == "";
    assert Leading("0f") == "0f";
    assert BaseValue("0", 16) == 0 && BaseValue("0f", 16) == 15;
    assert Decimal(8) == "8";
  }

  lemma NumbersOfExample(n: Lexeme, m: Lexeme)
    requires n == Num(None, false, Some('x'), "19") && m == Num(Some(8), false, Some('x'), "0f")
    ensures LexemeOk(n) && ReadValue(n) == 25 && Spell(n) == "0x19"
    ensures LexemeOk(m) && ReadValue(m) == 15 && Spell(m) == "8w0x0f" && Truncate(8, false, 15) == 15
  {
    hide LexemeOk, ReadValue, Spell, Truncate;
    FirstNumber(n);
    SecondNumber(m);
    FifteenFits();
  }

  /** Comments and white space between tokens do not change what is read. */
  lemma CommentsDoNotMatter(gap1: seq<GapItem>, items1: Source, gap2: seq<GapItem>, items2: Source, r: Registers)
    requires SourceOk(items1) && GapOk(gap1)
    requires SourceOk(items2) && GapOk(gap2)
    requires LexemesOf(items1) == LexemesOf(items2)
    ensures TokensOf(SpellGap(gap1) + SpellSource(items1), r) == TokensOf(SpellGap(gap2) + SpellSource(items2), r)
  {
    TokenListRoundTrip(gap1, items1, r);
    TokenListRoundTrip(gap2, items2, r);
  }
}
