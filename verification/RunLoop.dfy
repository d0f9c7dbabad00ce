/** The two threads of the server (`LSP_server::run`, server/lsp/lsp_server.cpp): a reader
    that posts messages to a queue and a single worker that dispatches them, as a step
    system with arbitrary interleaving. */
module RunLoop {
  import opened Common
  import opened Dispatch
  import Document

  /** Where the reader is: at the loop condition, inside `read_message`, holding what it
      returned, waiting for the worker, or past the end of `run`. */
  datatype Reader = AtTest | Reading | Holding(m: Option<Incoming>) | Joining | Returned

  /** The worker is waiting, has taken a message, or has run its handler. */
  datatype WorkerState = Idle | Running(m: Incoming) | Handled(m: Incoming)

  /** `input` lists what the remaining calls of `read_message` will return; the stream is good
      as long as it is not empty. The first `arrived` of them are there already, the others the
      client has yet to send, or, for the last one, to close the stream. `dispatched` and `replies` are histories, `texts` are
      the open documents. */
  datatype State = State(input: seq<Option<Incoming>>, arrived: nat, isDone: bool, reader: Reader, queue: seq<Incoming>,
                         worker: WorkerState, dispatched: seq<Incoming>, replies: seq<Reply>, texts: map<string, string>)

  ghost predicate Init(s: State) {
    !s.isDone && s.reader == AtTest && s.queue == [] && s.worker == Idle && s.dispatched == [] && s.replies == []
    && s.texts == map[] && s.arrived <= |s.input|
  }

  // ----- steps of the reader -----

  ghost predicate EnterLoop(s: State, t: State) {
    s.reader == AtTest && !s.isDone && s.input != [] && t == s.(reader := Reading)
  }

  ghost predicate ReadMessage(s: State, t: State) {
    && s.reader == Reading && s.input != [] && s.arrived > 0
    && t == s.(reader := Holding(s.input[0]), input := s.input[1..], arrived := s.arrived - 1)
  }

  ghost predicate Post(s: State, t: State) {
    s.reader.Holding? && t == s.(reader := AtTest, queue := s.queue + if s.reader.m.Some? then [s.reader.m.value] else [])
  }

  ghost predicate LeaveLoop(s: State, t: State) {
    s.reader == AtTest && (s.isDone || s.input == []) && t == s.(reader := Joining, isDone := true)
  }

  /** The worker thread ends once its work guard is gone and its queue has run dry. */
  ghost predicate Join(s: State, t: State) {
    s.reader == Joining && s.queue == [] && s.worker == Idle && t == s.(reader := Returned)
  }

  // ----- steps of the worker -----

  ghost predicate Take(s: State, t: State) {
    s.worker == Idle && s.queue != [] && t == s.(worker := Running(s.queue[0]), queue := s.queue[1..])
  }

  ghost predicate Handle(s: State, t: State) {
    && s.worker.Running?
    && t == s.(worker := Handled(s.worker.m), replies := s.replies + Answer(s.worker.m),
               isDone := s.isDone || HandlesExit(s.worker.m), texts := StepNotice(s.texts, s.worker.m))
  }

  ghost predicate Finish(s: State, t: State) {
    s.worker.Handled? && t == s.(worker := Idle, dispatched := s.dispatched + [s.worker.m])
  }

  ghost predicate ReaderStep(s: State, t: State) {
    EnterLoop(s, t) || ReadMessage(s, t) || Post(s, t) || LeaveLoop(s, t) || Join(s, t)
  }

  ghost predicate WorkerStep(s: State, t: State) {
    Take(s, t) || Handle(s, t) || Finish(s, t)
  }

  /** One more result of `read_message` comes within reach. */
  ghost predicate ClientStep(s: State, t: State) {
    s.arrived < |s.input| && t == s.(arrived := s.arrived + 1)
  }

  ghost predicate Next(s: State, t: State) {
    ReaderStep(s, t) || WorkerStep(s, t) || ClientStep(s, t)
  }

  /** Any interleaving of the two threads and the client. */
  ghost predicate IsRun(run: seq<State>) {
    run != [] && Init(run[0]) && forall i :: 0 <= i < |run| - 1 ==> Next(run[i], run[i + 1])
  }

  // ----- the invariant -----

  function Messages(input: seq<Option<Incoming>>): seq<Incoming> {
    if input == [] then [] else (if input[0].Some? then [input[0].value] else []) + Messages(input[1..])
  }

  function Held(r: Reader): seq<Incoming> {
    if r.Holding? && r.m.Some? then [r.m.value] else []
  }

  function InWork(w: WorkerState): seq<Incoming> {
    if w.Idle? then [] else [w.m]
  }

  /** Messages whose handler has run. */
  function Done(s: State): seq<Incoming> {
    s.dispatched + if s.worker.Handled? then [s.worker.m] else []
  }

  ghost predicate ExitIn(ms: seq<Incoming>) {
    exists i :: 0 <= i < |ms| && HandlesExit(ms[i])
  }

  /** Every message is in exactly one place, in stream order; the replies are the answers to
      the handled messages; and the flag is only raised by a handled exit or by a reader that
      has left its loop, which it only leaves for an exit or the end of the stream. */
  ghost predicate Inv(s: State, all: seq<Incoming>) {
    && all == s.dispatched + InWork(s.worker) + s.queue + Held(s.reader) + Messages(s.input)
    && s.replies == Answers(Done(s))
    && s.texts == Document.RunTexts(map[], Notices(Done(s)))
    && (s.reader == Reading ==> s.input != []) && s.arrived <= |s.input|
    && (ExitIn(Done(s)) ==> s.isDone)
    && (s.isDone && !s.reader.Joining? && !s.reader.Returned? ==> ExitIn(Done(s)))
    && (s.reader.Joining? || s.reader.Returned? ==> s.input == [] || ExitIn(Done(s)))
    && (s.reader.Returned? ==> s.queue == [] && s.worker == Idle)
  }

  lemma ExitGrows(a: seq<Incoming>, b: seq<Incoming>)
    ensures ExitIn(a + b) <==> ExitIn(a) || ExitIn(b)
  {
    if ExitIn(a) {
      var i :| 0 <= i < |a| && HandlesExit(a[i]);
      assert HandlesExit((a + b)[i]);
    }
    if ExitIn(b) {
      var i :| 0 <= i < |b| && HandlesExit(b[i]);
      assert HandlesExit((a + b)[|a| + i]);
    }
  }

  lemma ReadKeepsInv(s: State, t: State, all: seq<Incoming>)
    requires Inv(s, all) && ReadMessage(s, t)
    ensures Inv(t, all)
  {
    ReadKeepsMessages(s, t);
    hide Answers, Messages, HandlesExit;
    assert Done(t) == Done(s);
    assert all == t.dispatched + InWork(t.worker) + t.queue + (Held(t.reader) + Messages(t.input));
  }

  lemma PostKeepsInv(s: State, t: State, all: seq<Incoming>)
    requires Inv(s, all) && Post(s, t)
    ensures Inv(t, all)
  {
    hide Answers, Messages, HandlesExit;
    assert Done(t) == Done(s) && t.queue == s.queue + Held(s.reader) && Held(t.reader) == [];
    assert all == t.dispatched + InWork(t.worker) + t.queue + Held(t.reader) + Messages(t.input);
  }

  lemma ReaderKeepsInv(s: State, t: State, all: seq<Incoming>)
    requires Inv(s, all) && ReaderStep(s, t)
    ensures Inv(t, all)
  {
    hide Answers, HandlesExit;
    if ReadMessage(s, t) {
      ReadKeepsInv(s, t, all);
    } else if Post(s, t) {
      PostKeepsInv(s, t, all);
    } else {
      assert Done(t) == Done(s);
    }
  }

  lemma ReadKeepsMessages(s: State, t: State)
    requires ReadMessage(s, t)
    ensures Messages(s.input) == Held(t.reader) + Messages(t.input) && Held(s.reader) == []
  {
  }

  lemma TakeKeepsInv(s: State, t: State, all: seq<Incoming>)
    requires Inv(s, all) && Take(s, t)
    ensures Inv(t, all)
  {
    hide Answers, Messages, Notices, HandlesExit, Document.RunTexts;
    assert s.queue == [s.queue[0]] + t.queue;
    assert all == t.dispatched + InWork(t.worker) + t.queue + Held(t.reader) + Messages(t.input);
    assert Done(t) == Done(s);
  }

  lemma HandleKeepsInv(s: State, t: State, all: seq<Incoming>)
    requires Inv(s, all) && Handle(s, t)
    ensures Inv(t, all)
  {
    var m := s.worker.m;
    assert Done(t) == Done(s) + [m];
    AnswersConcat(Done(s), [m]);
    AnswerOfOne(m);
    NoticesStep(Done(s), m);
    ExitGrows(Done(s), [m]);
    hide Answers, Answer, Messages, HandlesExit, Notices, StepNotice;
  }

  lemma AnswerOfOne(m: Incoming)
    ensures Answers([m]) == Answer(m) && (ExitIn([m]) <==> HandlesExit(m))
  {
    assert [m][..0] == [] && [m][0] == m;
  }

  lemma FinishKeepsInv(s: State, t: State, all: seq<Incoming>)
    requires Inv(s, all) && Finish(s, t)
    ensures Inv(t, all)
  {
    hide Answers, Messages, Notices, HandlesExit, Document.RunTexts;
    assert Done(t) == Done(s);
    assert all == t.dispatched + InWork(t.worker) + t.queue + Held(t.reader) + Messages(t.input);
  }

  lemma WorkerKeepsInv(s: State, t: State, all: seq<Incoming>)
    requires Inv(s, all) && WorkerStep(s, t)
    ensures Inv(t, all)
  {
    if Take(s, t) {
      TakeKeepsInv(s, t, all);
    } else if Handle(s, t) {
      HandleKeepsInv(s, t, all);
    } else {
      FinishKeepsInv(s, t, all);
    }
  }

  lemma ClientKeepsInv(s: State, t: State, all: seq<Incoming>)
    requires Inv(s, all) && ClientStep(s, t)
    ensures Inv(t, all)
  {
    hide Answers, Messages, Notices, HandlesExit, Document.RunTexts;
    assert Done(t) == Done(s);
  }

  lemma {:induction false} InvHolds(run: seq<State>, i: nat)
    requires IsRun(run) && i < |run|
    ensures Inv(run[i], Messages(run[0].input))
  {
    if i > 0 {
      InvHolds(run, i - 1);
      assert Next(run[i - 1], run[i - 1 + 1]);
      if ReaderStep(run[i - 1], run[i]) {
        ReaderKeepsInv(run[i - 1], run[i], Messages(run[0].input));
      } else if WorkerStep(run[i - 1], run[i]) {
        WorkerKeepsInv(run[i - 1], run[i], Messages(run[0].input));
      } else {
        ClientKeepsInv(run[i - 1], run[i], Messages(run[0].input));
      }
    }
  }

  // ----- what holds of every run -----

  /** At any moment of any interleaving: the messages dispatched so far are a prefix of the
      stream's messages, each once and in order, and the replies written so far answer the
      handled ones, in order. */
  lemma DispatchInStreamOrder(run: seq<State>, i: nat)
    requires IsRun(run) && i < |run|
    ensures run[i].dispatched <= Done(run[i]) <= Messages(run[0].input)
    ensures run[i].replies == Answers(Done(run[i]))
    ensures run[i].texts == Document.RunTexts(map[], Notices(Done(run[i])))
  {
    InvHolds(run, i);
  }

  /** Reply ids are a subsequence of the request ids of the stream, in every interleaving. */
  lemma ReplyIdsFollowRequests(run: seq<State>, i: nat) returns (picks: seq<nat>)
    requires IsRun(run) && i < |run|
    ensures Selects(picks, ReplyIds(run[i].replies), RequestIds(Messages(run[0].input)))
  {
    DispatchInStreamOrder(run, i);
    var done, all := Done(run[i]), Messages(run[0].input);
    picks := RepliesAreSubsequence(done);
    RequestIdsPrefix(done, all);
  }

  lemma {:induction false} RequestIdsPrefix(a: seq<Incoming>, b: seq<Incoming>)
    requires a <= b
    ensures RequestIds(a) <= RequestIds(b)
  {
    if a < b {
      RequestIdsPrefix(a, b[..|b| - 1]);
    } else {
      assert a == b;
    }
  }

  /** Index of the first handled exit, or the number of messages. */
  function FirstExit(ms: seq<Incoming>): (k: nat)
    ensures k <= |ms| && (k < |ms| ==> HandlesExit(ms[k])) && forall i :: 0 <= i < k ==> !HandlesExit(ms[i])
  {
    if ms == [] || HandlesExit(ms[0]) then 0 else FirstExit(ms[1..]) + 1
  }

  /** When `run` returns, everything up to and including the first handled exit has been
      dispatched; without an exit, everything has. Nothing is left half done. */
  lemma ReturnsAfterExit(run: seq<State>, i: nat)
    requires IsRun(run) && i < |run| && run[i].reader == Returned
    ensures var all := Messages(run[0].input);
      && |run[i].dispatched| >= (if FirstExit(all) < |all| then FirstExit(all) + 1 else |all|)
      && run[i].dispatched <= all && run[i].replies == Answers(run[i].dispatched)
  {
    InvHolds(run, i);
    var s, all := run[i], Messages(run[0].input);
    assert Done(s) == s.dispatched;
    if s.input != [] {
      var k :| 0 <= k < |s.dispatched| && HandlesExit(s.dispatched[k]);
      assert all[k] == s.dispatched[k];
    }
  }

  // ----- progress -----

  /** As long as `run` has not returned, a thread or the client can take a step. */
  lemma NeverStuck(run: seq<State>, i: nat) returns (t: State)
    requires IsRun(run) && i < |run| && run[i].reader != Returned
    ensures Next(run[i], t)
  {
    InvHolds(run, i);
    var s := run[i];
    match s.reader
    case AtTest =>
      if s.isDone || s.input == [] {
        t := s.(reader := Joining, isDone := true);
      } else {
        t := s.(reader := Reading);
      }
    case Reading =>
      if s.arrived > 0 {
        t := s.(reader := Holding(s.input[0]), input := s.input[1..], arrived := s.arrived - 1);
      } else {
        t := s.(arrived := s.arrived + 1);
      }
    case Holding(m) =>
      t := s.(reader := AtTest, queue := s.queue + if s.reader.m.Some? then [s.reader.m.value] else []);
    case Joining =>
      match s.worker {
        case Idle =>
          if s.queue == [] {
            t := s.(reader := Returned);
          } else {
            t := s.(worker := Running(s.queue[0]), queue := s.queue[1..]);
          }
        case Running(m) =>
          t := s.(worker := Handled(m), replies := s.replies + Answer(m),
                  isDone := s.isDone || HandlesExit(m), texts := StepNotice(s.texts, m));
        case Handled(m) =>
          t := s.(worker := Idle, dispatched := s.dispatched + [m]);
      }
  }

  ghost predicate ThreadsCanMove(s: State) {
    exists t :: ReaderStep(s, t) || WorkerStep(s, t)
  }

  ghost predicate WaitsForClient(s: State) {
    s.reader == Reading && s.arrived == 0 && s.queue == [] && s.worker == Idle
  }

  /** The server stands still exactly while everything is done and its reader waits inside
      `read_message` for a client that neither sends nor closes the stream. */
  lemma StandsStillForClient(run: seq<State>, i: nat)
    requires IsRun(run) && i < |run| && run[i].reader != Returned
    ensures !ThreadsCanMove(run[i]) <==> WaitsForClient(run[i])
  {
    InvHolds(run, i);
    hide Inv, Answers, Answer, HandlesExit, StepNotice, IsRun;
    var s := run[i];
    if !WaitsForClient(s) {
      if s.worker.Idle? && s.queue != [] {
        var t := s.(worker := Running(s.queue[0]), queue := s.queue[1..]);
        assert WorkerStep(s, t);
      } else if s.worker.Running? {
        var t := s.(worker := Handled(s.worker.m), replies := s.replies + Answer(s.worker.m),
                    isDone := s.isDone || HandlesExit(s.worker.m), texts := StepNotice(s.texts, s.worker.m));
        assert WorkerStep(s, t);
      } else if s.worker.Handled? {
        var t := s.(worker := Idle, dispatched := s.dispatched + [s.worker.m]);
        assert WorkerStep(s, t);
      } else {
        var t := ReaderMoves(run, i);
      }
    }
  }

  lemma ReaderMoves(run: seq<State>, i: nat) returns (t: State)
    requires IsRun(run) && i < |run| && run[i].reader != Returned
    requires run[i].queue == [] && run[i].worker == Idle && !WaitsForClient(run[i])
    ensures ReaderStep(run[i], t)
  {
    InvHolds(run, i);
    var s := run[i];
    match s.reader
    case AtTest => t := s.(reader := if s.isDone || s.input == [] then Joining else Reading, isDone := s.isDone || s.input == []);
    case Reading => t := s.(reader := Holding(s.input[0]), input := s.input[1..], arrived := s.arrived - 1);
    case Holding(m) => t := s.(reader := AtTest, queue := s.queue + if m.Some? then [m.value] else []);
    case Joining => t := s.(reader := Returned);
  }

  /** An exit does not end the wait: the reader may have gone back to reading before the exit was
      handled, and then `run` returns only when the client sends once more or closes the stream. */
  lemma ExitStillWaits(e: Incoming) returns (run: seq<State>)
    requires HandlesExit(e)
    ensures IsRun(run) && var last := run[|run| - 1]; last.isDone && last.dispatched == [e] && WaitsForClient(last)
  {
    var s0 := State([Some(e), None], 1, false, AtTest, [], Idle, [], [], map[]);
    var s1 := s0.(reader := Reading);
    var s2 := s1.(reader := Holding(Some(e)), input := [None], arrived := 0);
    var s3 := s2.(reader := AtTest, queue := [e]);
    var s4 := s3.(reader := Reading);
    var s5 := s4.(worker := Running(e), queue := []);
    var s6 := s5.(worker := Handled(e), replies := Answer(e), isDone := true, texts := StepNotice(map[], e));
    var s7 := s6.(worker := Idle, dispatched := [e]);
    run := [s0, s1, s2, s3, s4, s5, s6, s7];
    ExitSteps(e, s0, s1, s2, s3, s4, s5, s6, s7);
    hide *;
    EightStates(run);
  }

  lemma ExitSteps(e: Incoming, s0: State, s1: State, s2: State, s3: State, s4: State, s5: State, s6: State, s7: State)
    requires HandlesExit(e) && s0 == State([Some(e), None], 1, false, AtTest, [], Idle, [], [], map[])
    requires s1 == s0.(reader := Reading) && s2 == s1.(reader := Holding(Some(e)), input := [None], arrived := 0)
    requires s3 == s2.(reader := AtTest, queue := [e]) && s4 == s3.(reader := Reading)
    requires s5 == s4.(worker := Running(e), queue := [])
    requires s6 == s5.(worker := Handled(e), replies := Answer(e), isDone := true, texts := StepNotice(map[], e))
    requires s7 == s6.(worker := Idle, dispatched := [e])
    ensures Init(s0) && Next(s0, s1) && Next(s1, s2) && Next(s2, s3) && Next(s3, s4)
    ensures Next(s4, s5) && Next(s5, s6) && Next(s6, s7) && WaitsForClient(s7)
  {
    hide Answer, StepNotice, HandlesExit;
    assert EnterLoop(s0, s1) && Post(s2, s3) && EnterLoop(s3, s4);
    assert [Some(e), None][1..] == [None] && ReadMessage(s1, s2);
    assert [e][1..] == [] && Take(s4, s5);
    assert [] + Answer(e) == Answer(e) && Handle(s5, s6);
    assert [] + [e] == [e] && Finish(s6, s7);
  }

  lemma EightStates(run: seq<State>)
    requires |run| == 8 && Init(run[0])
    requires Next(run[0], run[1]) && Next(run[1], run[2]) && Next(run[2], run[3]) && Next(run[3], run[4])
    requires Next(run[4], run[5]) && Next(run[5], run[6]) && Next(run[6], run[7])
    ensures IsRun(run)
  {
    hide Next, Init;
  }

  /** How many more messages the reader takes once the flag is up: the one it is reading, or none. */
  function LastReads(s: State): nat {
    if s.reader == Reading then 1 else 0
  }

  lemma {:induction false} NoReadsAfterExit(run: seq<State>, i: nat, j: nat)
    requires IsRun(run) && i <= j < |run| && run[i].isDone
    ensures run[j].isDone && |run[i].input| <= |run[j].input| + LastReads(run[i])
    ensures LastReads(run[i]) == 0 ==> LastReads(run[j]) == 0
    ensures LastReads(run[i]) == 1 && LastReads(run[j]) == 1 ==> run[j].input == run[i].input
    decreases j - i
  {
    if i < j {
      NoReadsAfterExit(run, i, j - 1);
      assert Next(run[j - 1], run[j - 1 + 1]);
    }
  }

  /** How many steps are left at most. */
  function Fuel(s: State): nat {
    6 * |s.input| + 3 * |s.queue| + (if s.arrived <= |s.input| then |s.input| - s.arrived else 0)
    + (match s.reader case AtTest => 2 case Reading => 1 case Holding(_) => 6 case Joining => 1 case Returned => 0)
    + (match s.worker case Idle => 0 case Running(_) => 2 case Handled(_) => 1)
  }

  lemma StepUsesFuel(s: State, t: State)
    requires Next(s, t) && s.arrived <= |s.input|
    ensures Fuel(t) < Fuel(s)
  {
  }

  /** Every run is finite: its length is bounded by the input. */
  lemma {:induction false} RunsAreBounded(run: seq<State>, i: nat)
    requires IsRun(run) && i < |run|
    ensures i + Fuel(run[i]) <= 7 * |run[0].input| + 2
  {
    if i > 0 {
      RunsAreBounded(run, i - 1);
      assert Next(run[i - 1], run[i - 1 + 1]);
      InvHolds(run, i - 1);
      StepUsesFuel(run[i - 1], run[i]);
    }
  }
}
