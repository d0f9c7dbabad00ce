/** The hand-written P4 lexer (class `p4l::Lexer`, server/p4l/lexer.cpp). */
module P4Lexer {
  import opened Common
  import opened Literals

  // ----- tokens -----

  /** Token kinds; keywords and operators are named by their spelling. The last three are not
      tokens: the source loops forever, throws, or shifts by too many bits. */
  datatype Kind =
    | End | Number | Identifier | Keyword(text: string) | Operator(text: string)
    | StringLiteral | EndPragma | Unknown
    | Hang | Throw | Undefined

  /** The registers that a token leaves behind. */
  datatype Registers = Registers(text: string, value: int, width: nat)

  const KEYWORDS: set<string> := {
    "abstract", "action", "actions", "apply", "bool", "bit", "const", "control", "default", "else",
    "entries", "enum", "error", "exit", "extern", "false", "header", "header_union", "if", "in",
    "inout", "int", "key", "match_kind", "type", "out", "parser", "package", "return", "select",
    "state", "struct", "switch", "table", "this", "transition", "true", "tuple", "typedef", "varbit",
    "value_set", "void", "_" }

  // ----- characters -----

  predicate IsSpace(c: char) { c == ' ' || '\t' <= c <= '\r' }

  predicate IsAlpha(c: char) { 'a' <= c <= 'z' || 'A' <= c <= 'Z' }

  predicate WordChar(c: char) { IsAlpha(c) || IsDigit(c) || c == '_' }

  predicate WordStart(c: char) { IsAlpha(c) || c == '_' }

  predicate NumberChar(c: char) { IsHex(c) || c == '_' || c == 'w' || c == 's' || c == 'o' || c == 'O' || c == 'x' || c == 'X' }

  /** The length of the longest prefix whose characters all satisfy `f`. */
  function Span(f: char -> bool, s: string): (n: nat)
    ensures n <= |s| && (forall i :: 0 <= i < n ==> f(s[i])) && (n < |s| ==> !f(s[n]))
  {
    if s == [] || !f(s[0]) then 0 else Span(f, s[1..]) + 1
  }

  lemma {:induction false} SpanIs(f: char -> bool, s: string, n: nat)
    requires n <= |s| && (forall i :: 0 <= i < n ==> f(s[i])) && (n < |s| ==> !f(s[n]))
    ensures Span(f, s) == n
  {
    if n > 0 {
      assert f(s[0]);
      SpanIs(f, s[1..], n - 1);
    }
  }

  function Rest(s: string): string {
    if s == [] then [] else s[1..]
  }

  predicate At(s: string, c: char) { s != [] && s[0] == c }

  // ----- numbers -----

  /** A number split by the regular expression of the source: size, sign, base, digits. */
  datatype Split = NoNumber | Split(size: Option<string>, signed: bool, base: nat, digits: string)

  predicate HexOrUnderscore(c: char) { IsHex(c) || c == '_' }

  predicate BaseLetter(c: char) {
    c == 'b' || c == 'B' || c == 'd' || c == 'D' || c == 'o' || c == 'O' || c == 'x' || c == 'X'
  }

  function BaseOf(c: char): nat {
    if c == 'b' || c == 'B' then 2 else if c == 'o' || c == 'O' then 8
    else if c == 'x' || c == 'X' then 16 else 10
  }

  predicate Every(f: char -> bool, s: string) { forall i :: 0 <= i < |s| ==> f(s[i]) }

  function SplitDigits(size: Option<string>, signed: bool, s: string): Split {
    if |s| > 2 && s[0] == '0' && BaseLetter(s[1]) && Every(HexOrUnderscore, s[2..]) then
      Split(size, signed, BaseOf(s[1]), s[2..])
    else if s != [] && Every(HexOrUnderscore, s) then Split(size, signed, 10, s)
    else NoNumber
  }

  function SplitNumber(s: string): Split {
    var d := Span(IsDigit, s);
    if 0 < d < |s| && (s[d] == 'w' || s[d] == 's') then SplitDigits(Some(s[..d]), s[d] == 's', s[d + 1..])
    else SplitDigits(None, false, s)
  }

  const INT_MAX: nat := 0x7FFF_FFFF

  predicate BaseDigit(c: char, base: nat) { c == '_' || (IsHex(c) && HexValue(c) < base) }

  predicate NotUnderscore(c: char) { c != '_' }

  /** `std::stoi`: the value of the digits before the first underscore; `None` is an exception. */
  function Stoi(s: string, base: nat): Option<nat>
    requires forall i :: 0 <= i < |s| ==> BaseDigit(s[i], base)
  {
    var k := Span(NotUnderscore, s);
    assert InBase(s[..k], base) by {
      forall i | 0 <= i < k ensures IsHex(s[i]) && HexValue(s[i]) < base {
        assert BaseDigit(s[i], base) && NotUnderscore(s[i]);
      }
    }
    if k == 0 || BaseValue(s[..k], base) > INT_MAX then None else Some(BaseValue(s[..k], base))
  }

  /** What `read_number` makes of the scanned characters. */
  function NumberResult(s: string, r: Registers): (Kind, Registers) {
    match SplitNumber(s)
    case NoNumber => (Unknown, r)
    case Split(size, signed, base, digits) =>
      if size.Some? && (!AllDigits(size.value) || Value(size.value) > INT_MAX) then (Throw, r)
      else if size.Some? && Value(size.value) > 30 then (Undefined, r)
      else
        var width := if size.Some? then Value(size.value) else r.width;
        var r' := r.(width := width);
        if signed && width < 2 then (Unknown, r')
        else if !(forall i :: 0 <= i < |digits| ==> BaseDigit(digits[i], base)) then (Unknown, r')
        else match Stoi(digits, base)
          case None => (Throw, r')
          case Some(n) => (Number, r'.(value := if size.Some? then Truncate(width, signed, n) else n))
  }

  // ----- operators -----

  const OPERATORS: set<string> := {
    "!=", "!", "%", "&&&", "&&", "&", "(", ")", "*", "++", "+", ",", "-", "..", ".", "/", ":", ";",
    "<<", "<=", "<", "==", "=", ">=", ">", "?", "@", "[", "]", "^", "{", "|+|", "|-|", "||", "|", "}", "~" }

  /** The operator at the start of `c` and its length. */
  function OperatorAt(c: string): (r: (Kind, nat))
    requires c != []
    ensures 1 <= r.1 <= |c|
  {
    var t := c[1..];
    match c[0]
    case '!' => if At(t, '=') then (Operator("!="), 2) else (Operator("!"), 1)
    case '%' => (Operator("%"), 1)
    case '&' =>
      if At(t, '&') then if At(t[1..], '&') then (Operator("&&&"), 3) else (Operator("&&"), 2)
      else (Operator("&"), 1)
    case '(' => (Operator("("), 1)
    case ')' => (Operator(")"), 1)
    case '*' => (Operator("*"), 1)
    case '+' => if At(t, '+') then (Operator("++"), 2) else (Operator("+"), 1)
    case ',' => (Operator(","), 1)
    case '-' => (Operator("-"), 1)
    case '.' => if At(t, '.') then (Operator(".."), 2) else (Operator("."), 1)
    case '/' => (Operator("/"), 1)
    case ':' => (Operator(":"), 1)
    case ';' => (Operator(";"), 1)
    case '<' =>
      if At(t, '<') then (Operator("<<"), 2) else if At(t, '=') then (Operator("<="), 2) else (Operator("<"), 1)
    case '=' => if At(t, '=') then (Operator("=="), 2) else (Operator("="), 1)
    case '>' => if At(t, '=') then (Operator(">="), 2) else (Operator(">"), 1)
    case '?' => (Operator("?"), 1)
    case '@' => if At(t, 'p') then (EndPragma, 1) else (Operator("@"), 1)
    case '[' => (Operator("["), 1)
    case ']' => (Operator("]"), 1)
    case '^' => (Operator("^"), 1)
    case '{' => (Operator("{"), 1)
    case '|' =>
      if At(t, '+') then if At(t[1..], '|') then (Operator("|+|"), 3) else (Unknown, 2)
      else if At(t, '-') then if At(t[1..], '|') then (Operator("|-|"), 3) else (Unknown, 2)
      else if At(t, '|') then (Operator("||"), 2)
      else (Operator("|"), 1)
    case '}' => (Operator("}"), 1)
    case '~' => (Operator("~"), 1)
    case _ => (Unknown, 1)
  }

  predicate BeginsWith(c: string, text: string) { text <= c }

  /** Where the scanner does not take the longest operator: before a pragma, and at a
      saturating operator that is broken off after its second character. */
  predicate BrokenOff(c: string) {
    || BeginsWith(c, "@p")
    || (BeginsWith(c, "|+") && !BeginsWith(c, "|+|"))
    || (BeginsWith(c, "|-") && !BeginsWith(c, "|-|"))
  }

  /** Maximal munch: the scanner takes the longest operator that the input starts with, and
      fails to exactly when there is none or the input is one of the broken-off cases. */
  lemma LongestOperator(c: string, o: string)
    requires c != []
    ensures var (kind, n) := OperatorAt(c);
      && (kind.Operator? ==> !BrokenOff(c) && kind.text in OPERATORS && kind.text == c[..n] && BeginsWith(c, kind.text))
      && (o in OPERATORS && BeginsWith(c, o) && !BrokenOff(c) ==> kind.Operator? && |o| <= n)
      && (kind == EndPragma <==> BeginsWith(c, "@p"))
      && n == (if kind.Operator? then |kind.text| else if BeginsWith(c, "|+") || BeginsWith(c, "|-") then 2 else 1)
  {
    var (kind, n) := OperatorAt(c);
    var t := c[1..];
    assert t != [] ==> t[0] == c[1];
    assert |t| > 1 ==> t[1..][0] == c[2];
    assert kind.Operator? ==> kind.text == c[..n];
  }

  // ----- comments and strings -----

  /** After a line comment or a location mark: up to the newline; nothing at all follows when
      the line is empty, because extracting zero characters makes the stream fail. */
  function AfterLine(s: string): string {
    var n := LineLength(s);
    if n == 0 then "" else s[n..]
  }

  predicate IsStar(c: char) { c == '*' }

  /** The loop over a block comment, starting before the next character is fetched; `None` when
      the input ends first, where the source loops forever. */
  function AfterBlock(s: string): (r: Option<string>)
    ensures r.Some? ==> |r.value| < |s|
    decreases |s|
  {
    var a := Rest(s);
    if a == [] then None
    else if a[0] == '*' then
      var b := a[Span(IsStar, a)..];
      if b == [] then None
      else if b[0] == '/' || b[0] == '\0' then Some(b[1..])
      else AfterBlock(b)
    else if a[0] == '\0' then Some(a[1..])
    else AfterBlock(a)
  }

  /** The body of a string literal; the closing quote stays in front of the input. */
  function StringBody(s: string, text: string): (r: (Kind, string, string))
    ensures |r.1| <= |s|
    decreases |s|
  {
    if s == [] then (Unknown, "", text)
    else if s[0] == '"' then (StringLiteral, s, text)
    else if s[0] == '\\' then
      if |s| == 1 then (Unknown, "", text) else StringBody(s[2..], text + ['\\', s[1]])
    else StringBody(s[1..], text + [s[0]])
  }

  // ----- one token -----

  datatype Step = Step(kind: Kind, rest: string, registers: Registers)

  /** The next token of the input `s`, whose first character is the lookahead. */
  function Lex(s: string, r: Registers): (step: Step)
    ensures step.kind != End ==> |step.rest| < |s|
    decreases |s|
  {
    var c := s[Span(IsSpace, s)..];
    if c == [] then Step(End, "", r)
    else if WordStart(c[0]) then
      var n := Span(WordChar, c);
      Step(if c[..n] in KEYWORDS then Keyword(c[..n]) else Identifier, c[n..], r.(text := c[..n]))
    else if IsDigit(c[0]) then
      var n := Span(NumberChar, c);
      var (kind, r') := NumberResult(c[..n], r);
      Step(kind, c[n..], r')
    else if c[0] == '"' then
      var (kind, rest, text) := StringBody(c[1..], "");
      Step(kind, rest, r.(text := text))
    else if c[0] == '#' then Lex(AfterLine(Rest(c[1..])), r)
    else if c[0] == '/' && At(c[1..], '/') then Lex(AfterLine(c[2..]), r)
    else if c[0] == '/' && At(c[1..], '*') then
      match AfterBlock(c[1..])
      case None => Step(Hang, "", r)
      case Some(rest) => Lex(rest, r)
    else
      var (kind, n) := OperatorAt(c);
      Step(kind, c[n..], r)
  }

  // ----- the lexer object -----

  datatype Lookahead = Eof | Ch(c: char)

  class Lexer {
    var text: string
    var value: int
    var width: nat
    var rest: string
    var failed: bool
    var last: Lookahead

    constructor (input: string)
      ensures Input() == " " + input && Regs() == Registers("", 0, 32)
    {
      text, value, width, rest, failed, last := "", 0, 32, input, false, Ch(' ');
    }

    /** What can still be seen of the input, the lookahead character first. */
    ghost function Input(): string
      reads this
    {
      if last.Eof? then "" else [last.c] + if failed then "" else rest
    }

    ghost function Regs(): Registers
      reads this
    {
      Registers(text, value, width)
    }

    /** `is.get()` into the lookahead. */
    method Get()
      requires last != Eof
      modifies this`last, this`rest
      ensures Input() == old(Input())[1..]
    {
      if failed || rest == "" {
        last := Eof;
      } else {
        last, rest := Ch(rest[0]), rest[1..];
      }
    }

    method Advance()
      modifies this`last, this`rest
      ensures Input() == Rest(old(Input()))
    {
      if last != Eof {
        Get();
      }
    }

    /** `is.get(sb)`, then `advance()`: skip to the end of the line; fail on an empty one. */
    method SkipLine()
      modifies this`last, this`rest, this`failed
      ensures Input() == if old(Input()) == "" then "" else AfterLine(old(Input())[1..])
    {
      if !failed {
        var n := LineLength(rest);
        if n == 0 {
          failed := true;
        } else {
          rest := rest[n..];
        }
      }
      Advance();
    }

    /** The scanning loop of `read_identifier`. */
    method ScanWord()
      requires Input() != "" && WordChar(Input()[0])
      modifies this`text, this`last, this`rest
      ensures var c, n := old(Input()), Span(WordChar, old(Input())); text == c[..n] && Input() == c[n..]
    {
      hide Span;
      ghost var c := Input();
      text := [last.c];
      Get();
      while last.Ch? && WordChar(last.c)
        invariant 1 <= |text| <= |c| && text == c[..|text|] && Input() == c[|text|..]
        invariant forall i :: 0 <= i < |text| ==> WordChar(c[i])
        decreases |Input()|
      {
        text := text + [last.c];
        Get();
      }
      SpanIs(WordChar, c, |text|);
    }

    method ReadIdentifier() returns (kind: Kind)
      requires Input() != "" && WordStart(Input()[0])
      modifies this
      ensures Step(kind, Input(), Regs()) == Lex(old(Input()), old(Regs()))
    {
      LexWord(Input(), Regs());
      ScanWord();
      kind := if text in KEYWORDS then Keyword(text) else Identifier;
    }

    /** The scanning loop of `read_number`. */
    method ScanNumber() returns (numstr: string)
      requires Input() != "" && NumberChar(Input()[0])
      modifies this`last, this`rest
      ensures var c, n := old(Input()), Span(NumberChar, old(Input())); numstr == c[..n] && Input() == c[n..]
    {
      hide Span;
      ghost var c := Input();
      numstr := [last.c];
      Advance();
      while last.Ch? && NumberChar(last.c)
        invariant 1 <= |numstr| <= |c| && numstr == c[..|numstr|] && Input() == c[|numstr|..]
        invariant forall i :: 0 <= i < |numstr| ==> NumberChar(c[i])
        decreases |Input()|
      {
        numstr := numstr + [last.c];
        Advance();
      }
      SpanIs(NumberChar, c, |numstr|);
    }

    method ReadNumber() returns (kind: Kind)
      requires Input() != "" && IsDigit(Input()[0])
      modifies this
      ensures Step(kind, Input(), Regs()) == Lex(old(Input()), old(Regs()))
    {
      hide NumberResult;
      LexNumber(Input(), Regs());
      var numstr := ScanNumber();
      kind := Convert(numstr);
    }

    /** The part of `read_number` after the scan. */
    method Convert(numstr: string) returns (kind: Kind)
      modifies this`value, this`width
      ensures (kind, Regs()) == NumberResult(numstr, old(Regs()))
    {
      hide SplitNumber, Stoi, And, Value, Span;
      var sm := SplitNumber(numstr);
      if sm.NoNumber? {
        return Unknown;
      }
      var mask := -1;
      if sm.size.Some? {
        if !AllDigits(sm.size.value) || Value(sm.size.value) > INT_MAX {
          return Throw;
        }
        if Value(sm.size.value) > 30 {
          return Undefined;
        }
        width := Value(sm.size.value);
        mask := Pow2(width) - 1;
      }
      if sm.signed && width < 2 {
        return Unknown;
      }
      if !(forall i :: 0 <= i < |sm.digits| ==> BaseDigit(sm.digits[i], sm.base)) {
        return Unknown;
      }
      var n := Stoi(sm.digits, sm.base);
      if n.None? {
        return Throw;
      }
      if mask == -1 {
        value := n.value;
      } else {
        value := And(mask, n.value);
        if sm.signed {
          value := And(value, mask / 2) - And(value, Pow2(width - 1));
        }
      }
      kind := Number;
    }

    method ReadString() returns (kind: Kind)
      modifies this
      ensures (kind, Input(), text) == StringBody(old(Input()), "")
      ensures value == old(value) && width == old(width)
    {
      text := "";
      while last != Ch('"')
        invariant StringBody(Input(), text) == StringBody(old(Input()), "")
        invariant value == old(value) && width == old(width)
        decreases |Input()|
      {
        if last == Eof {
          return Unknown;
        }
        if last == Ch('\\') {
          Get();
          if last == Eof {
            return Unknown;
          }
          text := text + "\\";
        }
        assert forall t: string :: t + "\\" + [last.c] == t + ['\\', last.c];
        text := text + [last.c];
        Get();
      }
      kind := StringLiteral;
    }

    /** The inner loop over a run of stars; at least one character is passed. */
    method SkipStars()
      requires At(Input(), '*')
      modifies this`last, this`rest
      ensures Input() == old(Input())[Span(IsStar, old(Input()))..]
    {
      ghost var a, n := Input(), 1;
      Advance();
      while last == Ch('*')
        invariant 1 <= n <= |a| && Input() == a[n..] && forall i :: 0 <= i < n ==> IsStar(a[i])
        decreases |Input()|
      {
        Advance();
        n := n + 1;
      }
      SpanIs(IsStar, a, n);
    }

    /** `false` stands for the endless loop on an unclosed comment. */
    method ReadBlockComment() returns (closed: bool)
      modifies this`last, this`rest
      ensures closed <==> AfterBlock(old(Input())).Some?
      ensures closed ==> Input() == AfterBlock(old(Input())).value
    {
      var done := false;
      while !done
        invariant !done ==> AfterBlock(Input()) == AfterBlock(old(Input()))
        invariant done ==> Input() != "" && AfterBlock(old(Input())) == Some(Input()[1..])
        decreases !done, |Input()|
      {
        Advance();
        if last == Eof {
          return false;
        }
        if last == Ch('*') {
          SkipStars();
          if last == Eof {
            return false;
          }
          if last == Ch('/') {
            done := true;
          }
        }
        if last == Ch('\0') {
          done := true;
        }
      }
      Advance();
      closed := true;
    }

    method ReadOther() returns (kind: Kind)
      requires Input() != "" && !IsSpace(Input()[0]) && !WordStart(Input()[0]) && !IsDigit(Input()[0])
      modifies this
      ensures kind == Lex(old(Input()), old(Regs())).kind
      ensures kind != Hang ==> Step(kind, Input(), Regs()) == Lex(old(Input()), old(Regs()))
      decreases |Input()|, 0
    {
      hide NumberResult, AfterBlock, Lex, Span, StringBody, LineLength, IsSpace, IsDigit, WordStart;
      ghost var c := Input();
      LexOther(c, Regs());
      LexNothing(Regs());
      var prev := last.c;
      Advance();
      match prev
      case '!' =>
        if last == Ch('=') { Advance(); return Operator("!="); }
        return Operator("!");
      case '"' => kind := ReadString();
      case '#' =>
        if last == Eof { return End; }
        SkipLine();
        if last == Eof { return End; }
        kind := Next();
      case '%' => return Operator("%");
      case '&' =>
        if last == Ch('&') {
          Advance();
          if last == Ch('&') { Advance(); return Operator("&&&"); }
          return Operator("&&");
        }
        return Operator("&");
      case '(' => return Operator("(");
      case ')' => return Operator(")");
      case '*' => return Operator("*");
      case '+' =>
        if last == Ch('+') { Advance(); return Operator("++"); }
        return Operator("+");
      case ',' => return Operator(",");
      case '-' => return Operator("-");
      case '.' =>
        if last == Ch('.') { Advance(); return Operator(".."); }
        return Operator(".");
      case '/' =>
        if last == Ch('/') {
          SkipLine();
          kind := Next();
        } else if last == Ch('*') {
          var closed := ReadBlockComment();
          if !closed { return Hang; }
          kind := Next();
        } else {
          return Operator("/");
        }
      case ':' => return Operator(":");
      case ';' => return Operator(";");
      case '<' =>
        if last == Ch('<') { Advance(); return Operator("<<"); }
        if last == Ch('=') { Advance(); return Operator("<="); }
        return Operator("<");
      case '=' =>
        if last == Ch('=') { Advance(); return Operator("=="); }
        return Operator("=");
      case '>' =>
        if last == Ch('=') { Advance(); return Operator(">="); }
        return Operator(">");
      case '?' => return Operator("?");
      case '@' =>
        if last == Ch('p') { return EndPragma; }
        return Operator("@");
      case '[' => return Operator("[");
      case ']' => return Operator("]");
      case '^' => return Operator("^");
      case '{' => return Operator("{");
      case '|' =>
        if last == Ch('+') {
          Advance();
          if last == Ch('|') { Advance(); return Operator("|+|"); }
          return Unknown;
        }
        if last == Ch('-') {
          Advance();
          if last == Ch('|') { Advance(); return Operator("|-|"); }
          return Unknown;
        }
        if last == Ch('|') { Advance(); return Operator("||"); }
        return Operator("|");
      case '}' => return Operator("}");
      case '~' => return Operator("~");
      case _ => return Unknown;
    }

    method Next() returns (kind: Kind)
      modifies this
      ensures kind == Lex(old(Input()), old(Regs())).kind
      ensures kind != Hang ==> Step(kind, Input(), Regs()) == Lex(old(Input()), old(Regs()))
      decreases |Input()|, 1
    {
      ghost var s := Input();
      while last.Ch? && IsSpace(last.c)
        invariant |Input()| <= |s| && Regs() == old(Regs())
        invariant Lex(Input(), Regs()) == Lex(s, old(Regs()))
        decreases |Input()|
      {
        SpaceSkips(Input(), Regs());
        Advance();
      }
      if last == Eof {
        return End;
      }
      if WordStart(last.c) {
        kind := ReadIdentifier();
      } else if IsDigit(last.c) {
        kind := ReadNumber();
      } else {
        kind := ReadOther();
      }
    }
  }

  lemma SpanSkipsNothing(c: string)
    requires c != [] && !IsSpace(c[0])
    ensures Span(IsSpace, c) == 0 && c[0..] == c
  {
  }

  lemma LexWord(c: string, r: Registers)
    requires c != [] && WordStart(c[0])
    ensures var n := Span(WordChar, c);
      Lex(c, r) == Step(if c[..n] in KEYWORDS then Keyword(c[..n]) else Identifier, c[n..], r.(text := c[..n]))
  {
    SpanSkipsNothing(c);
  }

  lemma LexNumber(c: string, r: Registers)
    requires c != [] && IsDigit(c[0])
    ensures var n := Span(NumberChar, c);
      Lex(c, r) == Step(NumberResult(c[..n], r).0, c[n..], NumberResult(c[..n], r).1)
  {
    SpanSkipsNothing(c);
  }

  lemma LexOther(c: string, r: Registers)
    requires c != [] && !IsSpace(c[0]) && !WordStart(c[0]) && !IsDigit(c[0])
    ensures Lex(c, r) ==
      if c[0] == '"' then
        var (kind, rest, text) := StringBody(c[1..], "");
        Step(kind, rest, r.(text := text))
      else if c[0] == '#' then Lex(AfterLine(Rest(c[1..])), r)
      else if c[0] == '/' && At(c[1..], '/') then Lex(AfterLine(c[2..]), r)
      else if c[0] == '/' && At(c[1..], '*') then
        match AfterBlock(c[1..])
        case None => Step(Hang, "", r)
        case Some(rest) => Lex(rest, r)
      else Step(OperatorAt(c).0, c[OperatorAt(c).1..], r)
  {
    SpanSkipsNothing(c);
  }

  lemma LexNothing(r: Registers)
    ensures Lex("", r) == Step(End, "", r)
  {
  }

  lemma SpaceSkips(s: string, r: Registers)
    requires s != [] && IsSpace(s[0])
    ensures Lex(s, r) == Lex(s[1..], r)
  {
    assert s[Span(IsSpace, s)..] == s[1..][Span(IsSpace, s[1..])..];
  }
}
