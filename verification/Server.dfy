/** The server from bytes to replies: the frames of a client, the reader's loop, and the
    worker, in any interleaving. */
module Server {
  import opened Common
  import opened Dispatch
  import opened Framing
  import opened RunLoop
  import Document

  /** What the JSON layer makes of the content of a frame. */
  type Parser = string -> Incoming

  /** One call of `read_message` as the loop of `run` sees it. */
  function Posted(parse: Parser, r: ReadResult): Option<Incoming> {
    if r.Message? then Some(parse(r.content)) else None
  }

  function PostedAll(parse: Parser, rs: seq<ReadResult>): seq<Option<Incoming>> {
    if rs == [] then [] else [Posted(parse, rs[0])] + PostedAll(parse, rs[1..])
  }

  function Parsed(parse: Parser, contents: seq<string>): seq<Incoming> {
    if contents == [] then [] else [parse(contents[0])] + Parsed(parse, contents[1..])
  }

  lemma {:induction false} MessagesOfPosted(parse: Parser, rs: seq<ReadResult>)
    ensures Messages(PostedAll(parse, rs)) == Parsed(parse, Contents(rs))
  {
    if rs != [] {
      MessagesOfPosted(parse, rs[1..]);
      var head, tail := [Posted(parse, rs[0])], PostedAll(parse, rs[1..]);
      assert (head + tail)[1..] == tail;
      if rs[0].Message? {
        assert ([rs[0].content] + Contents(rs[1..]))[1..] == Contents(rs[1..]);
      } else {
        assert [] + Contents(rs[1..]) == Contents(rs[1..]);
      }
    }
  }

  /** The reader's input is the client's frames. */
  ghost predicate Serves(parse: Parser, contents: seq<string>, run: seq<State>) {
    IsRun(run) && run[0].input == PostedAll(parse, ReadAll(Stream(Frames(contents), true)))
  }

  /** A client sends any sequence of frames. At every moment of every interleaving, the server
      has dispatched a prefix of the deliverable contents, each once and in order, and written
      exactly the answers to those it has handled; when `run` returns it has dispatched
      everything up to and including the first exit that was handled. */
  lemma FramesAreServed(parse: Parser, contents: seq<string>, run: seq<State>, i: nat)
    requires forall k :: 0 <= k < |contents| ==> |contents[k]| < STREAMSIZE_MAX
    requires Serves(parse, contents, run) && i < |run|
    ensures var sent := Parsed(parse, Deliverable(contents));
      && run[i].dispatched <= Done(run[i]) <= sent
      && run[i].replies == Answers(Done(run[i]))
      && (run[i].reader == Returned ==>
            run[i].replies == Answers(run[i].dispatched)
            && |run[i].dispatched| >= if FirstExit(sent) < |sent| then FirstExit(sent) + 1 else |sent|)
  {
    FramesRoundTrip(contents);
    MessagesOfPosted(parse, ReadAll(Stream(Frames(contents), true)));
    DispatchInStreamOrder(run, i);
    if run[i].reader == Returned {
      ReturnsAfterExit(run, i);
    }
  }

  /** The text of a path after the messages `ms`, by method names alone. */
  ghost predicate Follows(texts: map<string, string>, ms: seq<Incoming>, path: string) {
    && (path !in texts <==> NeverOpens(ms, path))
    && forall k: nat :: FirstOpens(ms, path, k) ==>
         path in texts && texts[path] == Document.ApplyAll(OpensWith(ms[k], path).value, AllChanges(ms[k + 1..], path))
  }

  lemma TextsFollow(ms: seq<Incoming>, path: string)
    ensures Follows(TextsAfter(ms), ms, path)
  {
    hide Document.ApplyAll, TextsAfter, OpensWith, AllChanges;
    forall k: nat | FirstOpens(ms, path, k)
      ensures path in TextsAfter(ms) && TextsAfter(ms)[path] ==
        Document.ApplyAll(OpensWith(ms[k], path).value, AllChanges(ms[k + 1..], path))
    {
      TextByName(ms, path, k);
    }
    if NeverOpens(ms, path) {
      NothingStored(ms, path);
    } else {
      var k := SomeFirstOpens(ms, path);
      TextByName(ms, path, k);
    }
  }

  /** The open documents follow the client's frames: at every moment of every interleaving a path
      has a text exactly when one of the handled messages was a `textDocument/didOpen` of it, and the
      text is that of the first such message with every later handled `textDocument/didChange` of
      the path applied. When `run` returns and the client sent no exit, all messages are handled. */
  lemma DocumentsFollowFrames(parse: Parser, contents: seq<string>, run: seq<State>, i: nat, path: string)
    requires forall k :: 0 <= k < |contents| ==> |contents[k]| < STREAMSIZE_MAX
    requires Serves(parse, contents, run) && i < |run|
    ensures var sent, handled := Parsed(parse, Deliverable(contents)), Done(run[i]);
      && handled <= sent
      && (run[i].reader == Returned && !ExitIn(sent) ==> handled == sent)
      && Follows(run[i].texts, handled, path)
  {
    hide Document.ApplyAll, Document.RunTexts, Notices, Serves, Follows;
    FramesAreServed(parse, contents, run, i);
    TextsOfRun(parse, contents, run, i);
    TextsFollow(Done(run[i]), path);
    var sent := Parsed(parse, Deliverable(contents));
    if run[i].reader == Returned && !ExitIn(sent) {
      assert FirstExit(sent) == |sent|;
      assert run[i].dispatched == sent;
    }
  }

  lemma {:induction false} SomeFirstOpens(ms: seq<Incoming>, path: string) returns (k: nat)
    requires !NeverOpens(ms, path)
    ensures FirstOpens(ms, path, k)
  {
    var init := ms[..|ms| - 1];
    if NeverOpens(init, path) {
      k := |ms| - 1;
      assert forall j :: 0 <= j < |init| ==> init[j] == ms[j];
    } else {
      k := SomeFirstOpens(init, path);
      assert forall j :: 0 <= j < |init| ==> init[j] == ms[j];
    }
  }

  lemma TextsOfRun(parse: Parser, contents: seq<string>, run: seq<State>, i: nat)
    requires Serves(parse, contents, run) && i < |run|
    ensures run[i].texts == Document.RunTexts(map[], Notices(Done(run[i])))
  {
    DispatchInStreamOrder(run, i);
  }

  /** No run is longer than the frames allow: a state in which `run` has not returned has a next
      step, of a thread or, when the reader waits for it, of the client, and the steps run out. So
      the server comes to its end once the client has sent everything and closed the stream. */
  lemma ServingEnds(parse: Parser, contents: seq<string>, run: seq<State>)
    requires forall k :: 0 <= k < |contents| ==> |contents[k]| < STREAMSIZE_MAX
    requires Serves(parse, contents, run)
    ensures |run| <= 7 * |contents| + 10
    ensures run[|run| - 1].reader != Returned ==> exists t :: IsRun(run + [t])
    ensures run[|run| - 1].reader != Returned && run[|run| - 1].arrived == |run[|run| - 1].input| ==>
      ThreadsCanMove(run[|run| - 1])
  {
    hide Next, ReadAll, Frames, Contents, PostedAll, Read;
    var last := |run| - 1;
    FramesRoundTrip(contents);
    PostedCount(parse, ReadAll(Stream(Frames(contents), true)));
    RunsAreBounded(run, last);
    if run[last].reader != Returned {
      var t := NeverStuck(run, last);
      OneMoreStep(run, t);
      InvHolds(run, last);
      StandsStillForClient(run, last);
      ReadingHasInput(run, last);
    }
  }

  lemma ReadingHasInput(run: seq<State>, i: nat)
    requires IsRun(run) && i < |run|
    ensures run[i].reader == Reading ==> run[i].input != []
  {
    InvHolds(run, i);
  }

  lemma OneMoreStep(run: seq<State>, t: State)
    requires IsRun(run) && Next(run[|run| - 1], t)
    ensures IsRun(run + [t])
  {
  }

  lemma {:induction false} PostedCount(parse: Parser, rs: seq<ReadResult>)
    ensures |PostedAll(parse, rs)| == |rs|
  {
    if rs != [] {
      PostedCount(parse, rs[1..]);
    }
  }
}
