/** What the P4 lexer skips, and where comments and strings end. */
module P4Trivia {
  import opened Common
  import opened P4Grammar
  import opened P4Lexer

  // ----- block comments -----

  /** A block comment ends at offset `i`: there is a NUL or an end mark. */
  predicate EndsAt(a: string, i: nat)
    requires i < |a|
  {
    a[i] == '\0' || (a[i] == '*' && i + 1 < |a| && a[i + 1] == '/')
  }

  predicate NoEndBefore(a: string, k: nat)
    requires k <= |a|
  {
    forall i :: 0 <= i < k ==> !EndsAt(a, i)
  }

  /** What follows the end of a comment at offset `i`. */
  function AfterEnd(a: string, i: nat): string
    requires i < |a| && EndsAt(a, i)
  {
    if a[i] == '\0' then a[i + 1..] else a[i + 2..]
  }

  lemma EndsShift(a: string, k: nat, i: nat)
    requires k <= i < |a|
    ensures EndsAt(a, i) <==> EndsAt(a[k..], i - k)
    ensures EndsAt(a, i) ==> AfterEnd(a, i) == AfterEnd(a[k..], i - k)
  {
  }

  /** The first offset at which a comment ends. */
  function FirstEnd(a: string): (r: Option<nat>)
    ensures r.Some? ==> r.value < |a| && EndsAt(a, r.value) && NoEndBefore(a, r.value)
    ensures r.None? ==> NoEndBefore(a, |a|)
  {
    if a == "" then None
    else if EndsAt(a, 0) then Some(0)
    else
      assert forall i :: 1 <= i < |a| ==> (EndsAt(a, i) <==> EndsAt(a[1..], i - 1));
      match FirstEnd(a[1..])
      case None => None
      case Some(i) => Some(i + 1)
  }

  /** Where the loop over a block comment stops, in terms of the first end. */
  function AfterComment(a: string): Option<string> {
    match FirstEnd(a)
    case None => None
    case Some(i) => Some(AfterEnd(a, i))
  }

  lemma FirstEndIs(a: string, i: nat)
    requires i < |a| && EndsAt(a, i) && NoEndBefore(a, i)
    ensures FirstEnd(a) == Some(i)
  {
  }

  lemma AfterCommentShift(a: string, k: nat)
    requires k <= |a| && NoEndBefore(a, k)
    ensures AfterComment(a) == AfterComment(a[k..])
  {
    var b := a[k..];
    match FirstEnd(b)
    case None =>
      forall i | 0 <= i < |a| ensures !EndsAt(a, i) {
        if i >= k { EndsShift(a, k, i); }
      }
    case Some(j) =>
      EndsShift(a, k, k + j);
      forall i | 0 <= i < k + j ensures !EndsAt(a, i) {
        if i >= k { EndsShift(a, k, i); }
      }
      FirstEndIs(a, k + j);
  }

  /** The loop ends exactly behind the first NUL or end mark after the character it starts on,
      and never when there is none. */
  lemma {:induction false} BlockCommentEnds(x: char, a: string)
    ensures AfterBlock([x] + a) == AfterComment(a)
    decreases |a|
  {
    hide AfterComment, FirstEnd;
    assert Rest([x] + a) == a;
    if a == "" || a[0] == '\0' {
      AtOnce(a);
    } else if a[0] == '*' {
      var k := Span(IsStar, a);
      var b := a[k..];
      assert NoEndBefore(a, k - 1);
      AfterStars(a, k);
      if b != "" && b[0] != '/' && b[0] != '\0' {
        assert b == [b[0]] + a[k + 1..];
        BlockCommentEnds(b[0], a[k + 1..]);
        AfterCommentShift(a, k + 1);
      }
    } else {
      assert a == [a[0]] + a[1..];
      BlockCommentEnds(a[0], a[1..]);
      AfterCommentShift(a, 1);
    }
  }

  lemma AtOnce(a: string)
    requires a == "" || a[0] == '\0'
    ensures AfterComment(a) == if a == "" then None else Some(a[1..])
  {
  }

  /** A run of stars that reaches the end, an end mark, or a NUL. */
  lemma AfterStars(a: string, k: nat)
    requires 0 < k <= |a| && (forall i :: 0 <= i < k ==> a[i] == '*') && (k < |a| ==> a[k] != '*')
    ensures k == |a| ==> AfterComment(a) == None
    ensures k < |a| && a[k] == '/' ==> AfterComment(a) == Some(a[k + 1..])
    ensures k < |a| && a[k] == '\0' ==> AfterComment(a) == Some(a[k + 1..])
    ensures k < |a| && a[k] != '/' && a[k] != '\0' ==> NoEndBefore(a, k + 1)
  {
    if k < |a| && a[k] == '/' {
      FirstEndIs(a, k - 1);
    } else if k < |a| && a[k] == '\0' {
      FirstEndIs(a, k);
    }
  }

  /** A block comment is skipped up to its first NUL or end mark; without one the lexer never
      returns. */
  lemma LexBlockComment(a: string, r: Registers)
    ensures Lex("/*" + a, r) == match AfterComment(a)
                                case None => Step(Hang, "", r)
                                case Some(rest) => Lex(rest, r)
  {
    hide AfterBlock, AfterComment;
    var s := "/*" + a;
    SpanSkipsNothing(s);
    assert s[1..] == ['*'] + a;
    BlockCommentEnds('*', a);
  }

  /** The lexer loops forever exactly on comments that hold neither a NUL nor an end mark. */
  lemma UnclosedCommentHangs(a: string, r: Registers)
    ensures AfterComment(a) == None <==> '\0' !in a && forall i :: 0 <= i < |a| - 1 ==> a[i] != '*' || a[i + 1] != '/'
    ensures AfterComment(a) == None ==> Lex("/*" + a, r) == Step(Hang, "", r)
  {
    LexBlockComment(a, r);
    if '\0' !in a && forall i :: 0 <= i < |a| - 1 ==> a[i] != '*' || a[i + 1] != '/' {
      forall i | 0 <= i < |a| ensures !EndsAt(a, i) {
        assert a[i] in a;
      }
    }
    if AfterComment(a) == None {
      forall i | 0 <= i < |a| ensures a[i] != '\0' {
        assert !EndsAt(a, i);
      }
      forall i | 0 <= i < |a| - 1 ensures a[i] != '*' || a[i + 1] != '/' {
        assert !EndsAt(a, i);
      }
    }
  }

  /** The shortest inputs: an opened comment hangs, also when a slash follows at once, and a NUL
      closes one. */
  lemma CommentExamples(r: Registers)
    ensures Lex("/*", r).kind == Hang && Lex("/*/", r).kind == Hang
    ensures Lex("/*\0;", r) == Lex(";", r)
  {
    hide Lex;
    assert "/*" + "" == "/*" && "/*" + "/" == "/*/" && "/*" + "\0;" == "/*\0;";
    LexBlockComment("", r);
    LexBlockComment("/", r);
    LexBlockComment("\0;", r);
    assert "\0;"[1..] == ";";
  }

  // ----- what may stand between tokens -----

  datatype GapItem = Space(c: char) | BlockComment(body: string) | LineComment(body: string)

  /** A block comment body holds no end mark and no NUL; a line comment body is not empty. */
  predicate GapItemOk(g: GapItem) {
    match g
    case Space(c) => Blank(c)
    case BlockComment(body) => BodyOk(body)
    case LineComment(body) => body != [] && '\n' !in body
  }

  predicate BodyOk(body: string) {
    '\0' !in body && forall i :: 0 <= i < |body| - 1 ==> !(body[i] == '*' && body[i + 1] == '/')
  }

  function SpellGapItem(g: GapItem): string {
    match g
    case Space(c) => [c]
    case BlockComment(body) => "/*" + body + "*/"
    case LineComment(body) => "//" + body + "\n"
  }

  function SpellGap(gap: seq<GapItem>): string {
    if gap == [] then "" else SpellGapItem(gap[0]) + SpellGap(gap[1..])
  }

  lemma {:induction false} LineLengthIs(body: string, tail: string)
    requires '\n' !in body
    ensures LineLength(body + "\n" + tail) == |body|
  {
    var s := body + "\n" + tail;
    if body != [] {
      assert s[1..] == body[1..] + "\n" + tail;
      LineLengthIs(body[1..], tail);
    }
  }

  lemma BlockCommentIsSkipped(body: string, tail: string, r: Registers)
    requires BodyOk(body)
    ensures Lex("/*" + body + "*/" + tail, r) == Lex(tail, r)
  {
    hide Lex, AfterComment, FirstEnd, BodyOk;
    var a := body + "*/" + tail;
    assert "/*" + body + "*/" + tail == "/*" + a;
    LexBlockComment(a, r);
    BodyEnds(body, tail);
  }

  lemma BodyEnds(body: string, tail: string)
    requires BodyOk(body)
    ensures AfterComment(body + "*/" + tail) == Some(tail)
  {
    hide Lex, FirstEnd;
    var a := body + "*/" + tail;
    forall i | 0 <= i < |body| ensures !EndsAt(a, i) {
      assert a[i] == body[i] && body[i] in body;
      assert a[i + 1] == if i + 1 < |body| then body[i + 1] else '*';
    }
    FirstEndIs(a, |body|);
    assert a[|body| + 2..] == tail;
  }

  lemma LexLine(s: string, r: Registers)
    requires |s| >= 2 && s[0] == '/' && s[1] == '/'
    ensures Lex(s, r) == Lex(AfterLine(s[2..]), r)
  {
    SpanSkipsNothing(s);
  }

  lemma LineCommentIsSkipped(body: string, tail: string, r: Registers)
    requires body != [] && '\n' !in body
    ensures Lex("//" + body + "\n" + tail, r) == Lex(tail, r)
  {
    hide Lex, AfterLine;
    var s, line := "//" + body + "\n" + tail, body + "\n" + tail;
    LexLine(s, r);
    assert s[2..] == line;
    AfterLineIs(body, tail);
    SpaceSkips("\n" + tail, r);
    assert ("\n" + tail)[1..] == tail;
  }

  lemma AfterLineIs(body: string, tail: string)
    requires body != [] && '\n' !in body
    ensures AfterLine(body + "\n" + tail) == "\n" + tail
  {
    LineLengthIs(body, tail);
    hide LineLength;
    assert (body + "\n" + tail)[|body|..] == "\n" + tail;
  }

  lemma GapItemIsSkipped(g: GapItem, tail: string, r: Registers)
    requires GapItemOk(g)
    ensures Lex(SpellGapItem(g) + tail, r) == Lex(tail, r)
  {
    hide Lex;
    match g
    case Space(c) =>
      assert ([c] + tail)[1..] == tail;
      SpaceSkips([c] + tail, r);
    case BlockComment(body) => BlockCommentIsSkipped(body, tail, r);
    case LineComment(body) => LineCommentIsSkipped(body, tail, r);
  }

  lemma {:induction false} GapIsSkipped(gap: seq<GapItem>, tail: string, r: Registers)
    requires forall i :: 0 <= i < |gap| ==> GapItemOk(gap[i])
    ensures Lex(SpellGap(gap) + tail, r) == Lex(tail, r)
  {
    hide Lex;
    if gap == [] {
      assert SpellGap(gap) + tail == tail;
    } else {
      assert SpellGap(gap) + tail == SpellGapItem(gap[0]) + (SpellGap(gap[1..]) + tail);
      GapItemIsSkipped(gap[0], SpellGap(gap[1..]) + tail, r);
      GapIsSkipped(gap[1..], tail, r);
    }
  }

  /** An empty line comment is not skipped: everything after it is lost. */
  lemma EmptyLineCommentEndsInput(tail: string, r: Registers)
    ensures Lex("//\n" + tail, r) == Step(End, "", r)
  {
    var s := "//\n" + tail;
    SpanSkipsNothing(s);
    assert s[2..][0] == '\n';
    assert Lex("", r) == Step(End, "", r);
  }

  // ----- location marks -----

  /** The character behind a location mark is dropped unseen, and only then the rest of the line
      is extracted: with a single character on the line the input ends, and when that character
      is the newline itself, the whole next line is skipped. */
  lemma LexLocation(x: char, body: string, tail: string, r: Registers)
    requires '\n' !in body
    ensures Lex("#" + ([x] + (body + "\n" + tail)), r) == if body == "" then Step(End, "", r) else Lex(tail, r)
  {
    hide Lex, AfterLine;
    var line := body + "\n" + tail;
    var s := "#" + ([x] + line);
    assert s[1..] == [x] + line && Rest(s[1..]) == line;
    LexOther(s, r);
    if body == "" {
      NothingAfterEmptyLine(tail);
      LexNothing(r);
    } else {
      AfterLineIs(body, tail);
      SpaceSkips("\n" + tail, r);
      assert ("\n" + tail)[1..] == tail;
    }
  }

  lemma NothingAfterEmptyLine(tail: string)
    ensures AfterLine("" + "\n" + tail) == ""
  {
    LineLengthIs("", tail);
  }

  // ----- string literals -----

  /** One character of a string literal, or an escaped one. */
  datatype Piece = Plain(c: char) | Escaped(c: char)

  predicate PiecesOk(ps: seq<Piece>) {
    forall i :: 0 <= i < |ps| ==> ps[i].Plain? ==> ps[i].c != '"' && ps[i].c != '\\'
  }

  function SpellPiece(p: Piece): string {
    if p.Plain? then [p.c] else ['\\', p.c]
  }

  function SpellPieces(ps: seq<Piece>): string {
    if ps == [] then "" else SpellPiece(ps[0]) + SpellPieces(ps[1..])
  }

  /** Up to the first quote that is not escaped, the characters are taken as they stand. */
  lemma {:induction false} StringBodyReads(ps: seq<Piece>, tail: string, text: string)
    requires PiecesOk(ps)
    ensures StringBody(SpellPieces(ps) + ("\"" + tail), text) == (StringLiteral, "\"" + tail, text + SpellPieces(ps))
    decreases |ps|
  {
    var end := "\"" + tail;
    var s := SpellPieces(ps) + end;
    if ps == [] {
      assert s == end && text + "" == text;
    } else {
      var p := SpellPiece(ps[0]);
      assert s == p + (SpellPieces(ps[1..]) + end);
      StringBodyReads(ps[1..], tail, text + p);
      assert s[|p|..] == SpellPieces(ps[1..]) + end;
      assert text + p + SpellPieces(ps[1..]) == text + SpellPieces(ps);
    }
  }

  /** Conversely, a literal that is found is spelled by pieces up to its quote; otherwise the
      rest of the input is consumed without a token. */
  lemma {:induction false} StringBodyIsSpelled(s: string, text: string) returns (ps: seq<Piece>)
    ensures PiecesOk(ps)
    ensures var (kind, rest, body) := StringBody(s, text);
      if kind == StringLiteral then At(rest, '"') && s == SpellPieces(ps) + rest && body == text + SpellPieces(ps)
      else kind == Unknown && rest == "" && body == text + SpellPieces(ps)
           && (s == SpellPieces(ps) || s == SpellPieces(ps) + "\\")
    decreases |s|
  {
    hide PiecesOk, SpellPieces, StringBody;
    ps := [];
    NoPieces();
    StringRound(s, text);
    if s != "" && s[0] != '"' && (s[0] != '\\' || |s| > 1) {
      var p := if s[0] == '\\' then Escaped(s[1]) else Plain(s[0]);
      var n := |SpellPiece(p)|;
      var more := StringBodyIsSpelled(s[n..], text + SpellPiece(p));
      ps := [p] + more;
      OnePieceMore(p, more);
      assert s == SpellPiece(p) + s[n..];
    }
  }

  /** One round of the loop of `read_string`. */
  lemma StringRound(s: string, text: string)
    ensures s == "" || (s[0] == '\\' && |s| == 1) ==> StringBody(s, text) == (Unknown, "", text)
    ensures s != "" && s[0] == '"' ==> StringBody(s, text) == (StringLiteral, s, text)
    ensures s != "" && s[0] == '\\' && |s| > 1 ==>
      StringBody(s, text) == StringBody(s[2..], text + SpellPiece(Escaped(s[1])))
    ensures s != "" && s[0] != '"' && s[0] != '\\' ==>
      StringBody(s, text) == StringBody(s[1..], text + SpellPiece(Plain(s[0])))
  {
  }

  lemma NoPieces()
    ensures PiecesOk([]) && SpellPieces([]) == ""
  {
  }

  lemma OnePieceMore(p: Piece, ps: seq<Piece>)
    requires (p.Plain? ==> p.c != '"' && p.c != '\\') && PiecesOk(ps)
    ensures PiecesOk([p] + ps) && SpellPieces([p] + ps) == SpellPiece(p) + SpellPieces(ps)
  {
    assert ([p] + ps)[1..] == ps;
  }

  lemma LexString(s: string, r: Registers)
    ensures Lex("\"" + s, r) == var (kind, rest, text) := StringBody(s, ""); Step(kind, rest, r.(text := text))
  {
    SpanSkipsNothing("\"" + s);
    assert ("\"" + s)[1..] == s;
  }

  /** A string literal is read back, escapes included, but its closing quote stays in front of
      the input, where it opens the next string. */
  lemma StringLiteralReads(ps: seq<Piece>, tail: string, r: Registers)
    requires PiecesOk(ps)
    ensures Lex("\"" + (SpellPieces(ps) + ("\"" + tail)), r) ==
      Step(StringLiteral, "\"" + tail, r.(text := SpellPieces(ps)))
  {
    hide Lex;
    LexString(SpellPieces(ps) + ("\"" + tail), r);
    StringBodyReads(ps, tail, "");
  }

  /** A free quote follows: the text before it consists of plain characters and escape pairs. */
  ghost predicate HasFreeQuote(s: string) {
    exists ps, u :: PiecesOk(ps) && IsClosed(s, ps, u)
  }

  ghost predicate IsClosed(s: string, ps: seq<Piece>, u: string) {
    s == SpellPieces(ps) + ("\"" + u)
  }

  lemma StringIsFound(s: string, text: string)
    ensures StringBody(s, text).0 == StringLiteral <==> HasFreeQuote(s)
    ensures StringBody(s, text).0 != StringLiteral <==> StringBody(s, text).0 == Unknown && StringBody(s, text).1 == ""
  {
    hide StringBody;
    var more := StringBodyIsSpelled(s, text);
    var (kind, rest, _) := StringBody(s, text);
    if kind == StringLiteral {
      assert rest == "\"" + rest[1..];
      assert IsClosed(s, more, rest[1..]);
    }
    if HasFreeQuote(s) {
      var ps, u :| PiecesOk(ps) && IsClosed(s, ps, u);
      StringBodyReads(ps, u, text);
    }
  }

  /** The closing quote of a literal swallows the rest of the input exactly when no free quote
      follows; otherwise the text up to that quote is the next token, a string again. */
  lemma StringSwallowsRest(ps: seq<Piece>, tail: string, r: Registers)
    requires PiecesOk(ps)
    ensures var s := Lex("\"" + (SpellPieces(ps) + ("\"" + tail)), r);
      && s.kind == StringLiteral
      && var t := Lex(s.rest, s.registers);
         && (t.kind == Unknown && t.rest == "" <==> !HasFreeQuote(tail))
         && (t.kind == StringLiteral <==> HasFreeQuote(tail))
  {
    hide Lex, StringBody, HasFreeQuote;
    StringLiteralReads(ps, tail, r);
    LexString(tail, r.(text := SpellPieces(ps)));
    StringIsFound(tail, "");
  }

  /** A quote that follows does not help when it is escaped: behind `""` the tail `\"` is lost. */
  lemma EscapedQuoteIsNotFree(r: Registers)
    ensures !HasFreeQuote("\\\"")
    ensures var s := Lex("\"\"\\\"", r); s.kind == StringLiteral && Lex(s.rest, s.registers).kind == Unknown
  {
    hide Lex;
    var tail := "\\\"";
    assert StringBody(tail, "") == StringBody(tail[2..], "" + ['\\', '"']);
    StringIsFound(tail, "");
    assert SpellPieces([]) + ("\"" + tail) == "\"\\\"";
    assert "\"" + ("\"\\\"") == "\"\"\\\"";
    StringSwallowsRest([], tail, r);
  }
}
