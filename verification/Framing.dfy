/** Message frames on the wire: printed by `send` (server/lsp/dispatcher.cpp), parsed by
    `read_message` (server/lsp/lsp_server.cpp), after section "Base Protocol" of the Language
    Server Protocol. */
module Framing {
  import opened Common

  // ----- the input stream -----

  /** Unread characters, and whether the stream is still good. */
  datatype Stream = Stream(rest: string, good: bool)

  function Measure(s: Stream): nat { |s.rest| + if s.good then 1 else 0 }

  /** `std::getline`: end of input before a newline ends the stream. */
  function GetLine(s: Stream): (r: (string, Stream))
    ensures s.good ==> Measure(r.1) < Measure(s)
  {
    var n := LineLength(s.rest);
    if n < |s.rest| then (s.rest[..n], Stream(s.rest[n + 1..], s.good)) else (s.rest, Stream("", false))
  }

  /** Without the trailing carriage return. */
  function Trim(line: string): string {
    if line != [] && line[|line| - 1] == '\r' then line[..|line| - 1] else line
  }

  const CONTENT_LENGTH: string := "Content-Length: "

  /** A full match of the content-length expression, with the number it captures. */
  function MatchContentLength(line: string): Option<nat> {
    if |line| > |CONTENT_LENGTH| && line[..|CONTENT_LENGTH|] == CONTENT_LENGTH && AllDigits(line[|CONTENT_LENGTH|..])
    then Some(Value(line[|CONTENT_LENGTH|..]))
    else None
  }

  const MAX_CONTENT: nat := 0x4000_0000
  const ULLONG_LIMIT: nat := 0x1_0000_0000_0000_0000
  const STREAMSIZE_MAX: nat := 0x7FFF_FFFF_FFFF_FFFF

  /** `OutOfRange` stands for the exception that `std::stoull` throws. */
  datatype ReadResult = Message(content: string) | NoMessage | OutOfRange

  // ----- what read_message does, as functions of the stream -----

  /** Read header lines up to an empty one; the last content length wins. `None` is the
      exception. */
  function Headers(s: Stream, contentLength: nat): (r: (Option<nat>, Stream))
    ensures s.good ==> Measure(r.1) < Measure(s)
    ensures !s.good ==> r == (Some(contentLength), s)
    decreases Measure(s)
  {
    if !s.good then (Some(contentLength), s)
    else
      var (raw, s') := GetLine(s);
      var line := Trim(raw);
      match MatchContentLength(line)
      case Some(n) => if n >= ULLONG_LIMIT then (None, s') else Headers(s', n)
      case None => if line != [] then Headers(s', contentLength) else (Some(contentLength), s')
  }

  /** `istream::ignore`: a count of the largest stream size means no limit, and a count that
      is negative as a stream size skips nothing. */
  function Ignore(s: Stream, count: nat): Stream
    requires count < ULLONG_LIMIT
  {
    if !s.good || count > STREAMSIZE_MAX then s
    else if count < STREAMSIZE_MAX && count <= |s.rest| then s.(rest := s.rest[count..])
    else Stream("", false)
  }

  function Body(s: Stream, contentLength: nat): (ReadResult, Stream)
    requires contentLength < ULLONG_LIMIT
  {
    if contentLength > MAX_CONTENT then (NoMessage, Ignore(s, contentLength))
    else if contentLength > 0 then
      if s.good && contentLength <= |s.rest| then (Message(s.rest[..contentLength]), s.(rest := s.rest[contentLength..]))
      else (NoMessage, Stream("", false))
    else (NoMessage, s)
  }

  lemma {:induction false} HeadersInRange(s: Stream, contentLength: nat)
    requires contentLength < ULLONG_LIMIT
    ensures Headers(s, contentLength).0.Some? ==> Headers(s, contentLength).0.value < ULLONG_LIMIT
    decreases Measure(s)
  {
    if s.good {
      var (raw, s') := GetLine(s);
      match MatchContentLength(Trim(raw))
      case Some(n) => if n < ULLONG_LIMIT { HeadersInRange(s', n); }
      case None => HeadersInRange(s', contentLength);
    }
  }

  function Read(s: Stream): (r: (ReadResult, Stream))
    ensures s.good ==> Measure(r.1) < Measure(s)
  {
    var (length, s') := Headers(s, 0);
    if length.None? then (OutOfRange, s') else
      HeadersInRange(s, 0);
      Body(s', length.value)
  }

  // ----- read_message itself -----

  class InputStream {
    var rest: string
    var good: bool

    constructor (data: string)
      ensures State() == Stream(data, true)
    {
      rest, good := data, true;
    }

    ghost function State(): Stream
      reads this
    {
      Stream(rest, good)
    }

    method NextLine() returns (line: string)
      modifies this
      ensures (line, State()) == GetLine(old(State()))
    {
      var n := LineLength(rest);
      if n < |rest| {
        line, rest := rest[..n], rest[n + 1..];
      } else {
        line, rest, good := rest, "", false;
      }
    }

    method Skip(count: nat)
      requires count < ULLONG_LIMIT
      modifies this
      ensures State() == Ignore(old(State()), count)
    {
      if good && count <= STREAMSIZE_MAX {
        if count < STREAMSIZE_MAX && count <= |rest| {
          rest := rest[count..];
        } else {
          rest, good := "", false;
        }
      }
    }

    method ReadMessage() returns (r: ReadResult)
      modifies this
      ensures (r, State()) == Read(old(State()))
    {
      var contentLength: nat := 0;
      while good
        invariant contentLength < ULLONG_LIMIT
        invariant Headers(State(), contentLength) == Headers(old(State()), 0)
        decreases Measure(State())
      {
        var line := NextLine();
        line := Trim(line);
        var match_ := MatchContentLength(line);
        if match_.Some? {
          if match_.value >= ULLONG_LIMIT {
            return OutOfRange;
          }
          contentLength := match_.value;
        } else if line == [] {
          break;
        }
      }
      // Leaving by the empty line or by the end of the stream: the headers are complete.
      if contentLength > MAX_CONTENT {
        Skip(contentLength);
        return NoMessage;
      }
      if contentLength > 0 {
        if good && contentLength <= |rest| {
          var content := rest[..contentLength];
          rest := rest[contentLength..];
          return Message(content);
        }
        rest, good := "", false;
        return NoMessage;
      }
      r := NoMessage;
    }
  }

  // ----- frames -----

  /** The characters that `send` writes for one message. */
  function Frame(content: string): string {
    CONTENT_LENGTH + Decimal(|content|) + "\r\n\r\n" + content
  }

  method PrintFrame(out: string, content: string) returns (out': string)
    ensures out' == out + Frame(content)
  {
    var message := CONTENT_LENGTH;
    message := message + (Decimal(|content|) + "\r\n\r\n" + content);
    out' := out + message;
    assert message == Frame(content);
  }

  /** `text` is the content-length header for the number with these digits. */
  predicate IsLengthHeader(line: string, digits: string) {
    line == "Content-Length: " + digits && digits != "" && forall i :: 0 <= i < |digits| ==> '0' <= digits[i] <= '9'
  }

  /** A header line other than the content length: it begins differently, or does not go on with
      digits alone. */
  ghost predicate OtherHeader(line: string) {
    line != [] && '\n' !in line && line[|line| - 1] != '\r' && forall digits :: !IsLengthHeader(line, digits)
  }

  lemma LengthHeaderMatches(line: string, digits: string)
    requires IsLengthHeader(line, digits)
    ensures AllDigits(digits) && MatchContentLength(line) == Some(Value(digits))
  {
    assert line[|CONTENT_LENGTH|..] == digits;
  }

  /** Only content-length headers are taken for one. */
  lemma OtherHeaderIsIgnored(line: string)
    requires forall digits :: !IsLengthHeader(line, digits)
    ensures MatchContentLength(line) == None
  {
    if MatchContentLength(line).Some? {
      MatchedIsLength(line);
    }
  }

  lemma MatchedIsLength(line: string)
    requires MatchContentLength(line).Some?
    ensures |line| > 16 && IsLengthHeader(line, line[16..])
  {
    assert line == line[..|CONTENT_LENGTH|] + line[|CONTENT_LENGTH|..];
  }

  lemma LengthBegins(line: string, digits: string)
    requires IsLengthHeader(line, digits)
    ensures "Content-Length: " <= line && |line| > 16 && '0' <= line[16] <= '9'
  {
    assert line[16] == digits[0];
  }

  /** A line that begins otherwise, such as `Content-Type: `, is another header. */
  lemma BeginsOtherwise(line: string)
    requires !("Content-Length: " <= line) || |line| == 16 || !('0' <= line[16] <= '9')
    ensures forall digits :: !IsLengthHeader(line, digits)
  {
    forall digits ensures !IsLengthHeader(line, digits) {
      if IsLengthHeader(line, digits) {
        LengthBegins(line, digits);
      }
    }
  }

  function Lines(ls: seq<string>): string {
    if ls == [] then "" else ls[0] + "\r\n" + Lines(ls[1..])
  }

  /** A frame with other header lines around the content length. */
  function FrameWith(before: seq<string>, after: seq<string>, content: string): string {
    Lines(before) + (CONTENT_LENGTH + Decimal(|content|) + "\r\n") + Lines(after) + "\r\n" + content
  }

  lemma {:induction false} LineEnds(line: string, tail: string)
    requires '\n' !in line
    ensures LineLength(line + "\r\n" + tail) == |line| + 1
  {
    var s := line + "\r\n" + tail;
    if line == [] {
      assert s[1..][0] == '\n';
      assert LineLength(s[1..]) == 0;
    } else {
      assert s[1..] == line[1..] + "\r\n" + tail;
      LineEnds(line[1..], tail);
    }
  }

  lemma GetPrintedLine(line: string, tail: string)
    requires '\n' !in line
    ensures GetLine(Stream(line + "\r\n" + tail, true)) == (line + "\r", Stream(tail, true))
    ensures Trim(line + "\r") == line
  {
    LineEnds(line, tail);
    var s := line + "\r\n" + tail;
    assert s[..|line| + 1] == line + "\r" && s[|line| + 2..] == tail;
  }

  lemma {:induction false} SkipOtherHeaders(ls: seq<string>, tail: string, contentLength: nat)
    requires forall i :: 0 <= i < |ls| ==> OtherHeader(ls[i])
    ensures Headers(Stream(Lines(ls) + tail, true), contentLength) == Headers(Stream(tail, true), contentLength)
  {
    if ls == [] {
      assert Lines(ls) + tail == tail;
    } else {
      var tail' := Lines(ls[1..]) + tail;
      assert Lines(ls) + tail == ls[0] + "\r\n" + tail';
      GetPrintedLine(ls[0], tail');
      OtherHeaderIsIgnored(ls[0]);
      SkipOtherHeaders(ls[1..], tail, contentLength);
    }
  }

  lemma DigitsHaveNoNewline(n: nat)
    ensures '\n' !in CONTENT_LENGTH + Decimal(n)
    ensures MatchContentLength(CONTENT_LENGTH + Decimal(n)) == Some(n)
  {
    var line := CONTENT_LENGTH + Decimal(n);
    assert line[..|CONTENT_LENGTH|] == CONTENT_LENGTH && line[|CONTENT_LENGTH|..] == Decimal(n);
    ValueOfDecimal(n);
  }

  lemma EmptyLineEndsHeaders(tail: string, contentLength: nat)
    ensures Headers(Stream("\r\n" + tail, true), contentLength) == (Some(contentLength), Stream(tail, true))
  {
    GetPrintedLine("", tail);
    assert "" + "\r\n" + tail == "\r\n" + tail && "" + "\r" == "\r";
  }

  /** The headers of a frame yield its length and leave its content. */
  lemma HeadersOfFrame(before: seq<string>, after: seq<string>, content: string, tail: string)
    requires forall i :: 0 <= i < |before| ==> OtherHeader(before[i])
    requires forall i :: 0 <= i < |after| ==> OtherHeader(after[i])
    requires |content| < ULLONG_LIMIT
    ensures Headers(Stream(FrameWith(before, after, content) + tail, true), 0) == (Some(|content|), Stream(content + tail, true))
  {
    var n := |content|;
    var line := CONTENT_LENGTH + Decimal(n);
    var t2 := "\r\n" + (content + tail);
    var t1 := Lines(after) + t2;
    assert FrameWith(before, after, content) + tail == Lines(before) + (line + "\r\n" + t1);
    SkipOtherHeaders(before, line + "\r\n" + t1, 0);
    DigitsHaveNoNewline(n);
    GetPrintedLine(line, t1);
    SkipOtherHeaders(after, t2, n);
    EmptyLineEndsHeaders(content + tail, n);
  }

  /** One complete frame is read exactly: a nonempty content of at most 2^30 characters is
      returned, a longer one is skipped, and in every case the next frame comes next. */
  lemma ReadFrame(before: seq<string>, after: seq<string>, content: string, tail: string)
    requires forall i :: 0 <= i < |before| ==> OtherHeader(before[i])
    requires forall i :: 0 <= i < |after| ==> OtherHeader(after[i])
    requires |content| < 0x7FFF_FFFF_FFFF_FFFF
    ensures Read(Stream(FrameWith(before, after, content) + tail, true)) ==
      (if 0 < |content| <= 0x4000_0000 then Message(content) else NoMessage, Stream(tail, true))
  {
    HeadersOfFrame(before, after, content, tail);
    assert (content + tail)[..|content|] == content && (content + tail)[|content|..] == tail;
  }

  /** After a complete frame the next one comes next exactly when the length is below the
      largest stream size. */
  lemma FrameIsPassed(before: seq<string>, after: seq<string>, content: string, tail: string)
    requires forall i :: 0 <= i < |before| ==> OtherHeader(before[i])
    requires forall i :: 0 <= i < |after| ==> OtherHeader(after[i])
    requires |content| < ULLONG_LIMIT
    ensures Read(Stream(FrameWith(before, after, content) + tail, true)).1 == Stream(tail, true) <==>
      |content| < 0x7FFF_FFFF_FFFF_FFFF
  {
    if |content| < 0x7FFF_FFFF_FFFF_FFFF {
      ReadFrame(before, after, content, tail);
    } else {
      HeadersOfFrame(before, after, content, tail);
      assert |content + tail| > |tail|;
    }
  }

  /** A header that announces `n` characters, whatever comes behind it. */
  function Announce(n: nat, rest: string): string {
    CONTENT_LENGTH + Decimal(n) + "\r\n\r\n" + rest
  }

  /** At the largest stream size everything behind the header is lost; above it nothing is
      skipped; and from 2^64 on the conversion of the number throws. */
  lemma HugeLength(n: nat, rest: string)
    requires n >= 0x7FFF_FFFF_FFFF_FFFF
    ensures var (r, s) := Read(Stream(Announce(n, rest), true));
      if n == 0x7FFF_FFFF_FFFF_FFFF then r == NoMessage && s == Stream("", false)
      else if n < 0x1_0000_0000_0000_0000 then r == NoMessage && s == Stream(rest, true)
      else r == OutOfRange && s == Stream("\r\n" + rest, true)
  {
    var line := CONTENT_LENGTH + Decimal(n);
    assert Announce(n, rest) == line + "\r\n" + ("\r\n" + rest);
    DigitsHaveNoNewline(n);
    hide Decimal, Value, LineLength, GetLine, MatchContentLength, Trim;
    HeaderOfLength(n, line, rest);
    if n < ULLONG_LIMIT {
      EmptyLineEndsHeaders(rest, n);
    }
  }

  lemma HeaderOfLength(n: nat, line: string, rest: string)
    requires '\n' !in line && MatchContentLength(line) == Some(n)
    ensures Headers(Stream(line + "\r\n" + ("\r\n" + rest), true), 0) ==
      if n < ULLONG_LIMIT then Headers(Stream("\r\n" + rest, true), n) else (None, Stream("\r\n" + rest, true))
  {
    GetPrintedLine(line, "\r\n" + rest);
    hide LineLength, GetLine, MatchContentLength, Trim;
  }

  // ----- any block of headers -----

  /** A header line as sent, with its line end: a content length with these digits, or another. */
  datatype Header = Length(digits: string, crlf: bool) | Another(text: string, crlf: bool)

  ghost predicate HeaderOk(h: Header) {
    match h
    case Length(digits, _) => digits != "" && AllDigits(digits) && Value(digits) < 0x1_0000_0000_0000_0000
    case Another(text, _) => OtherHeader(text)
  }

  ghost predicate HeadersOk(hs: seq<Header>) {
    forall i :: 0 <= i < |hs| ==> HeaderOk(hs[i])
  }

  /** The content length after a header, when it was `n` before. */
  ghost function LengthAfter(h: Header, n: nat): nat
    requires HeaderOk(h)
  {
    if h.Length? then Value(h.digits) else n
  }

  function HeaderText(h: Header): string {
    match h
    case Length(digits, _) => "Content-Length: " + digits
    case Another(text, _) => text
  }

  function LineEnd(crlf: bool): string { if crlf then "\r\n" else "\n" }

  function Block(hs: seq<Header>): string {
    if hs == [] then "" else HeaderText(hs[0]) + LineEnd(hs[0].crlf) + Block(hs[1..])
  }

  /** The last content length of a block, or what held before it. */
  ghost function Announced(hs: seq<Header>, n: nat): nat
    requires HeadersOk(hs)
  {
    if hs == [] then n
    else Announced(hs[1..], LengthAfter(hs[0], n))
  }

  lemma {:induction false} LineEndsAt(line: string, tail: string)
    requires '\n' !in line
    ensures LineLength(line + "\n" + tail) == |line|
  {
    var s := line + "\n" + tail;
    if line != [] {
      assert s[1..] == line[1..] + "\n" + tail;
      LineEndsAt(line[1..], tail);
    }
  }

  /** Lines may end with or without a carriage return. */
  lemma GetHeaderLine(line: string, crlf: bool, tail: string)
    requires '\n' !in line && (line != "" ==> line[|line| - 1] != '\r')
    ensures var (raw, s) := GetLine(Stream(line + LineEnd(crlf) + tail, true)); Trim(raw) == line && s == Stream(tail, true)
  {
    if crlf {
      GetPrintedLine(line, tail);
    } else {
      LineEndsAt(line, tail);
      var s := line + "\n" + tail;
      assert s[..|line|] == line && s[|line| + 1..] == tail;
    }
  }

  lemma HeaderStep(h: Header, tail: string, n: nat)
    requires HeaderOk(h)
    ensures Headers(Stream(HeaderText(h) + LineEnd(h.crlf) + tail, true), n) ==
      Headers(Stream(tail, true), LengthAfter(h, n))
  {
    var line := HeaderText(h);
    match h
    case Length(digits, _) =>
      assert IsLengthHeader(line, digits);
      LengthHeaderMatches(line, digits);
      assert line[|line| - 1] == digits[|digits| - 1];
      assert forall i :: 16 <= i < |line| ==> line[i] == digits[i - 16];
      GetHeaderLine(line, h.crlf, tail);
    case Another(text, _) =>
      OtherHeaderIsIgnored(text);
      GetHeaderLine(line, h.crlf, tail);
  }

  /** A block of headers that ends with an empty line announces its last content length, and
      everything behind the empty line is left. */
  lemma {:induction false} BlockAnnounces(hs: seq<Header>, crlf: bool, tail: string, n: nat)
    requires HeadersOk(hs)
    ensures Headers(Stream(Block(hs) + (LineEnd(crlf) + tail), true), n) == (Some(Announced(hs, n)), Stream(tail, true))
  {
    var end := LineEnd(crlf) + tail;
    if hs == [] {
      assert Block(hs) + end == "" + LineEnd(crlf) + tail;
      GetHeaderLine("", crlf, tail);
    } else {
      assert Block(hs) + end == HeaderText(hs[0]) + LineEnd(hs[0].crlf) + (Block(hs[1..]) + end);
      hide Headers, HeaderOk;
      HeaderStep(hs[0], Block(hs[1..]) + end, n);
      BlockAnnounces(hs[1..], crlf, tail, LengthAfter(hs[0], n));
    }
  }

  /** What a message with any block of headers reads, by the announced length: none or zero is no
      message; up to 2^30 characters are delivered if they are there; more are skipped, below
      2^63 - 1 exactly, at 2^63 - 1 all there are, above it none; a stream that is too short ends. */
  lemma ReadBlock(hs: seq<Header>, crlf: bool, tail: string)
    requires HeadersOk(hs)
    ensures var n := Announced(hs, 0);
      Read(Stream(Block(hs) + (LineEnd(crlf) + tail), true)) ==
      if n == 0 || n > 0x7FFF_FFFF_FFFF_FFFF then (NoMessage, Stream(tail, true))
      else if n == 0x7FFF_FFFF_FFFF_FFFF || n > |tail| then (NoMessage, Stream("", false))
      else (if n <= 0x4000_0000 then Message(tail[..n]) else NoMessage, Stream(tail[n..], true))
  {
    BlockAnnounces(hs, crlf, tail, 0);
    AnnouncedInRange(hs, 0);
  }

  lemma {:induction false} AnnouncedInRange(hs: seq<Header>, n: nat)
    requires HeadersOk(hs) && n < 0x1_0000_0000_0000_0000
    ensures Announced(hs, n) < 0x1_0000_0000_0000_0000
  {
    if hs != [] {
      AnnouncedInRange(hs[1..], LengthAfter(hs[0], n));
    }
  }

  /** Headers whose empty line never comes: the last line is cut off by the end of the stream. There
      is no message, whatever was announced, and the stream has ended. */
  lemma {:induction false} UnfinishedBlock(hs: seq<Header>, cut: string, n: nat)
    requires HeadersOk(hs)
    requires '\n' !in cut && forall digits :: !IsLengthHeader(Trim(cut), digits)
    ensures Headers(Stream(Block(hs) + cut, true), n) == (Some(Announced(hs, n)), Stream("", false))
  {
    if hs == [] {
      assert Block(hs) + cut == cut;
      NoNewline(cut);
      OtherHeaderIsIgnored(Trim(cut));
    } else {
      assert Block(hs) + cut == HeaderText(hs[0]) + LineEnd(hs[0].crlf) + (Block(hs[1..]) + cut);
      hide Headers, HeaderOk;
      HeaderStep(hs[0], Block(hs[1..]) + cut, n);
      UnfinishedBlock(hs[1..], cut, LengthAfter(hs[0], n));
    }
  }

  lemma {:induction false} NoNewline(s: string)
    requires '\n' !in s
    ensures LineLength(s) == |s| && s[..|s|] == s
  {
    if s != "" {
      NoNewline(s[1..]);
    }
  }

  lemma UnfinishedIsNoMessage(hs: seq<Header>, cut: string)
    requires HeadersOk(hs)
    requires '\n' !in cut && forall digits :: !IsLengthHeader(Trim(cut), digits)
    ensures Read(Stream(Block(hs) + cut, true)) == (NoMessage, Stream("", false))
  {
    UnfinishedBlock(hs, cut, 0);
    AnnouncedInRange(hs, 0);
  }

  /** A content type behind the content length does not matter; the printed frame of `{}`. */
  lemma FrameExamples()
    ensures Read(Stream("Content-Length: 2\r\n" + "Content-Type: text\r\n" + "\r\n" + "{}", true)) ==
      (Message("{}"), Stream("", true))
    ensures Frame("{}") == "Content-Length: 2\r\n\r\n{}"
  {
    var kind, after := "Content-Type: text", ["Content-Type: text"];
    BeginsOtherwise(kind);
    assert '\n' !in kind && OtherHeader(kind);
    assert Decimal(2) == "2";
    assert Frame("{}") == "Content-Length: 2\r\n\r\n{}";
    assert after[1..] == [] && Lines([]) == "" && Lines(after) == "Content-Type: text\r\n";
    var text := "Content-Length: 2\r\n" + "Content-Type: text\r\n" + "\r\n" + "{}";
    assert CONTENT_LENGTH + Decimal(2) + "\r\n" == "Content-Length: 2\r\n";
    assert FrameWith([], after, "{}") + "" == text;
    hide Read, OtherHeader;
    ReadFrame([], after, "{}", "");
  }

  // ----- whole streams -----

  /** The messages of successive calls while the stream is good, as in the loop of `run`. */
  function ReadAll(s: Stream): seq<ReadResult>
    decreases Measure(s)
  {
    if !s.good then [] else [Read(s).0] + ReadAll(Read(s).1)
  }

  function Contents(rs: seq<ReadResult>): seq<string> {
    if rs == [] then [] else (if rs[0].Message? then [rs[0].content] else []) + Contents(rs[1..])
  }

  function Frames(contents: seq<string>): string {
    if contents == [] then "" else Frame(contents[0]) + Frames(contents[1..])
  }

  function Deliverable(contents: seq<string>): seq<string> {
    if contents == [] then []
    else (if 0 < |contents[0]| <= 0x4000_0000 then [contents[0]] else []) + Deliverable(contents[1..])
  }

  /** What `send` prints, `read_message` reads back: over any sequence of frames the loop
      collects exactly the deliverable contents, in order, then one empty result at the end
      of the stream. */
  lemma {:induction false} FramesRoundTrip(contents: seq<string>)
    requires forall i :: 0 <= i < |contents| ==> |contents[i]| < STREAMSIZE_MAX
    ensures Contents(ReadAll(Stream(Frames(contents), true))) == Deliverable(contents)
    ensures |ReadAll(Stream(Frames(contents), true))| == |contents| + 1
    ensures OutOfRange !in ReadAll(Stream(Frames(contents), true))
  {
    var s := Stream(Frames(contents), true);
    if contents == [] {
      assert GetLine(s) == ("", Stream("", false));
      assert Read(s) == (NoMessage, Stream("", false));
      assert ReadAll(s) == [NoMessage] + ReadAll(Stream("", false));
    } else {
      var c, tail := contents[0], Frames(contents[1..]);
      assert FrameWith([], [], c) == Frame(c);
      ReadFrame([], [], c, tail);
      FramesRoundTrip(contents[1..]);
      var all, more := ReadAll(s), ReadAll(Stream(tail, true));
      assert all == [Read(s).0] + more && all[1..] == more;
    }
  }

  /** What becomes of the frames behind a header that announces more than can be skipped: none
      of them is read at the largest stream size, all of them are above it. */
  lemma FramesBehindHugeLength(n: nat, contents: seq<string>)
    requires STREAMSIZE_MAX <= n < ULLONG_LIMIT
    requires forall i :: 0 <= i < |contents| ==> |contents[i]| < STREAMSIZE_MAX
    ensures Contents(ReadAll(Stream(Announce(n, Frames(contents)), true))) ==
      if n == STREAMSIZE_MAX then [] else Deliverable(contents)
  {
    var s := Stream(Announce(n, Frames(contents)), true);
    HugeLength(n, Frames(contents));
    FramesRoundTrip(contents);
    hide Announce, Frames, Read;
    var more := ReadAll(Read(s).1);
    assert ReadAll(s) == [NoMessage] + more;
    assert ([NoMessage] + more)[1..] == more;
    assert ReadAll(Stream("", false)) == [];
  }
}
