/** Scoped contexts (server/lsp/context.h) and the dispatch of one decoded message
    (server/lsp/dispatcher.cpp, with the handlers of server/lsp/lsp_server.cpp). */
module Dispatch {
  import opened Common
  import Document

  // ----- contexts -----

  datatype Key = RequestId | RequestOutputStream

  datatype Value = Id(id: int) | OutputStream

  /** A context is a shared immutable list of key-value layers. */
  datatype Context = Empty | Layer(parent: Context, key: Key, value: Value)

  function Derive(c: Context, key: Key, value: Value): Context {
    Layer(c, key, value)
  }

  /** The value of the innermost layer with this key. */
  function GetValue(c: Context, key: Key): Option<Value> {
    match c
    case Empty => None
    case Layer(parent, k, v) => if k == key then Some(v) else GetValue(parent, key)
  }

  method FindValue(c: Context, key: Key) returns (r: Option<Value>)
    ensures r == GetValue(c, key)
  {
    var it := c;
    while it != Empty
      invariant GetValue(it, key) == GetValue(c, key)
      decreases it
    {
      if it.key == key {
        return Some(it.value);
      }
      it := it.parent;
    }
    r := None;
  }

  /** A derived context answers for its own key and leaves all others to its parent. */
  lemma InnermostWins(c: Context, key: Key, value: Value, other: Key)
    ensures GetValue(Derive(c, key, value), other) == if other == key then Some(value) else GetValue(c, other)
    ensures GetValue(Empty, other) == None
  {
  }

  // ----- messages and handlers -----

  /** A message after JSON parsing. `Invalid` covers a parse error, a missing or different
      protocol version, and a missing method. `params` are the parameters decoded for the method's
      handler, spelled out where the handler changes documents. */
  datatype Incoming = Invalid | Call(id: Option<int>, name: string, params: Params)

  datatype Params = Undecodable | OfDocument(change: Document.Message) | Other

  datatype Reply = Result(id: int) | MethodNotFound(id: int)

  const REPLYING: set<string> := {
    "initialize", "shutdown", "textDocument/codeLens", "codeLens/resolve", "textDocument/completion",
    "textDocument/definition", "textDocument/documentHighlight", "textDocument/documentSymbol",
    "textDocument/formatting", "textDocument/hover", "textDocument/implementation",
    "textDocument/onTypeFormatting", "textDocument/rangeFormatting", "textDocument/rename",
    "textDocument/signatureHelp", "textDocument/typeDefinition" }

  const SILENT: set<string> := {
    "exit", "textDocument/codeAction", "textDocument/didChange", "textDocument/didClose",
    "textDocument/didOpen", "textDocument/didSave", "textDocument/switchSourceHeader",
    "workspace/didChangeConfiguration", "workspace/didChangeWatchedFiles", "workspace/executeCommand" }

  datatype Outcome = NoReply | ReplyResult | ReplyError

  /** What the handler selected for a message does about replying. */
  function Handler(m: Incoming): Outcome {
    if m.Invalid? then NoReply
    else if m.name in REPLYING then if m.params != Undecodable then ReplyResult else NoReply
    else if m.name in SILENT then NoReply
    else ReplyError
  }

  predicate HandlesExit(m: Incoming) {
    m.Call? && m.name == "exit" && m.params != Undecodable
  }

  function NameOf(c: Document.Message): string {
    match c
    case DidOpen(_, _) => "textDocument/didOpen"
    case DidChange(_, _) => "textDocument/didChange"
    case DidClose(_) => "textDocument/didClose"
  }

  /** What the handler selected for a message does to the open documents. */
  function Notice(m: Incoming): Option<Document.Message> {
    if m.Call? && m.params.OfDocument? && m.name == NameOf(m.params.change) then Some(m.params.change) else None
  }

  ghost function StepNotice(texts: map<string, string>, m: Incoming): map<string, string> {
    if Notice(m).Some? then Document.StepTexts(texts, Notice(m).value) else texts
  }

  function Notices(ms: seq<Incoming>): seq<Document.Message> {
    if ms == [] then []
    else Notices(ms[..|ms| - 1]) + (if Notice(ms[|ms| - 1]).Some? then [Notice(ms[|ms| - 1]).value] else [])
  }

  /** One more message is one more step of the documents. */
  lemma NoticesStep(ms: seq<Incoming>, m: Incoming)
    ensures Document.RunTexts(map[], Notices(ms + [m])) == StepNotice(Document.RunTexts(map[], Notices(ms)), m)
  {
    var all := ms + [m];
    assert all[..|all| - 1] == ms;
    if Notice(m).Some? {
      assert Notices(all) == Notices(ms) + [Notice(m).value];
      assert Notices(all)[..|Notices(all)| - 1] == Notices(ms);
    } else {
      assert Notices(all) == Notices(ms);
    }
  }

  // ----- what a dispatch must do -----

  /** At most one reply, only to a request, under the request's own id. */
  function Answer(m: Incoming): seq<Reply> {
    if m.Invalid? || m.id.None? then []
    else match Handler(m)
      case NoReply => []
      case ReplyResult => [Result(m.id.value)]
      case ReplyError => [MethodNotFound(m.id.value)]
  }

  lemma DerivedValues(c: Context, id: Option<int>)
    requires GetValue(c, RequestId).None?
    ensures var outer := Derive(c, RequestOutputStream, OutputStream);
      && GetValue(outer, RequestOutputStream).Some? && GetValue(outer, RequestId).None?
      && (id.Some? ==> var inner := Derive(outer, RequestId, Id(id.value));
            GetValue(inner, RequestOutputStream).Some? && GetValue(inner, RequestId) == Some(Id(id.value)))
  {
  }

  lemma InvalidDoesNothing(texts: map<string, string>, m: Incoming)
    requires m.Invalid?
    ensures Answer(m) == [] && StepNotice(texts, m) == texts
  {
  }

  /** The worker thread: its current context, the replies written so far, the flag that the exit
      handler raises, and the open documents. */
  class Worker {
    var current: Context
    var output: seq<Reply>
    var isDone: bool
    const store: Document.DocumentStore

    constructor ()
      ensures current == Empty && output == [] && !isDone
      ensures fresh(store) && store.Valid() && store.Texts() == map[]
    {
      current, output, isDone := Empty, [], false;
      store := new Document.DocumentStore();
    }

    /** `Context::swap_current`. */
    method SwapCurrent(other: Context) returns (previous: Context)
      modifies this`current
      ensures current == other && previous == old(current)
    {
      previous := current;
      current := other;
    }

    /** Write a reply under the request id of the current context, if it has one. */
    method Send(error: bool)
      requires GetValue(current, RequestOutputStream).Some?
      requires GetValue(current, RequestId).Some? ==> GetValue(current, RequestId).value.Id?
      modifies this`output
      ensures output == old(output) + match GetValue(current, RequestId)
                                      case None => []
                                      case Some(v) => [if error then MethodNotFound(v.id) else Result(v.id)]
    {
      var id := FindValue(current, RequestId);
      if id.None? {
        return;
      }
      output := output + [if error then MethodNotFound(id.value.id) else Result(id.value.id)];
    }

    /** Run the handler selected for a message, under the context that `Dispatch` sets up. */
    method Invoke(m: Incoming)
      requires m.Call? && store.Valid()
      requires GetValue(current, RequestOutputStream).Some?
      requires GetValue(current, RequestId) == if m.id.Some? then Some(Id(m.id.value)) else None
      modifies this`output, this`isDone, store, store.files.Values
      ensures store.Valid() && store.Texts() == StepNotice(old(store.Texts()), m)
      ensures fresh(store.files.Values - old(store.files.Values))
      ensures output == old(output) + Answer(m)
      ensures isDone == (old(isDone) || (m.name == "exit" && m.params != Undecodable))
    {
      match Handler(m) {
        case NoReply =>
        case ReplyResult => Send(false);
        case ReplyError => Send(true);
      }
      if HandlesExit(m) {
        isDone := true;
      }
      if Notice(m).Some? {
        store.Handle(Notice(m).value);
      }
    }

    /** Scoped contexts are destroyed in the reverse order of their construction. In a context
        that carries no request id, the replies are exactly the message's own answer. */
    method Dispatch(m: Incoming)
      requires GetValue(current, RequestId).None? && store.Valid()
      modifies this, store, store.files.Values
      ensures current == old(current)
      ensures store.Valid() && store.Texts() == StepNotice(old(store.Texts()), m)
      ensures fresh(store.files.Values - old(store.files.Values))
      ensures output == old(output) + Answer(m)
      ensures isDone == (old(isDone) || (m.Call? && m.name == "exit" && m.params != Undecodable))
    {
      hide Answer, StepNotice, Handler, Notice, GetValue, Derive;
      if m.Invalid? {
        InvalidDoesNothing(store.Texts(), m);
        return;
      }
      DerivedValues(current, m.id);
      var beforeStream := SwapCurrent(Derive(current, RequestOutputStream, OutputStream));
      var beforeId := current;
      if m.id.Some? {
        beforeId := SwapCurrent(Derive(current, RequestId, Id(m.id.value)));
      }
      Invoke(m);
      if m.id.Some? {
        var inner := SwapCurrent(beforeId);
      }
      var outer := SwapCurrent(beforeStream);
    }
  }

  // ----- what each method name means -----

  /** Replies by method name. A request of one of these sixteen methods is answered with a result
      under its own id if its parameters can be decoded; a request of one of these ten is not
      answered; every other one is told that there is no such method; a notification gets nothing. */
  lemma AnswerByName(m: Incoming)
    requires m.Call?
    ensures m.id.None? ==> Answer(m) == []
    ensures m.id.Some? && m.name in {
      "initialize", "shutdown", "textDocument/codeLens", "codeLens/resolve", "textDocument/completion",
      "textDocument/definition", "textDocument/documentHighlight", "textDocument/documentSymbol",
      "textDocument/formatting", "textDocument/hover", "textDocument/implementation",
      "textDocument/onTypeFormatting", "textDocument/rangeFormatting", "textDocument/rename",
      "textDocument/signatureHelp", "textDocument/typeDefinition" } ==>
      Answer(m) == if m.params == Undecodable then [] else [Result(m.id.value)]
    ensures m.id.Some? && m.name in {
      "exit", "textDocument/codeAction", "textDocument/didChange", "textDocument/didClose", "textDocument/didOpen",
      "textDocument/didSave", "textDocument/switchSourceHeader", "workspace/didChangeConfiguration",
      "workspace/didChangeWatchedFiles", "workspace/executeCommand" } ==>
      Answer(m) == []
    ensures m.id.Some? && m.name !in REPLYING && m.name !in SILENT ==> Answer(m) == [MethodNotFound(m.id.value)]
  {
  }

  /** The registered names, in the order of registration. */
  lemma RegisteredNames()
    ensures REPLYING + SILENT == {
      "exit", "initialize", "shutdown", "textDocument/codeAction", "textDocument/codeLens", "codeLens/resolve",
      "textDocument/completion", "textDocument/definition", "textDocument/didChange", "textDocument/didClose",
      "textDocument/didOpen", "textDocument/didSave", "textDocument/documentHighlight", "textDocument/documentSymbol",
      "textDocument/formatting", "textDocument/hover", "textDocument/implementation", "textDocument/onTypeFormatting",
      "textDocument/rangeFormatting", "textDocument/rename", "textDocument/signatureHelp",
      "textDocument/switchSourceHeader", "textDocument/typeDefinition", "workspace/didChangeConfiguration",
      "workspace/didChangeWatchedFiles", "workspace/executeCommand" }
  {
  }

  /** The message that raises the exit flag. */
  lemma ExitByName(m: Incoming)
    ensures HandlesExit(m) <==> exists id, p :: m == Call(id, "exit", p) && p != Undecodable
  {
    if HandlesExit(m) {
      assert m == Call(m.id, "exit", m.params);
    }
  }

  /** The text with which a message opens a path. */
  function OpensWith(m: Incoming, path: string): Option<string> {
    if m.Call? && m.name == "textDocument/didOpen" && m.params.OfDocument? && m.params.change.DidOpen?
       && m.params.change.path == path
    then Some(m.params.change.text) else None
  }

  /** The changes that a message makes to a path. */
  function ChangesIn(m: Incoming, path: string): seq<Document.Change> {
    if m.Call? && m.name == "textDocument/didChange" && m.params.OfDocument? && m.params.change.DidChange?
       && m.params.change.path == path
    then m.params.change.changes else []
  }

  function AllChanges(ms: seq<Incoming>, path: string): seq<Document.Change> {
    if ms == [] then [] else AllChanges(ms[..|ms| - 1], path) + ChangesIn(ms[|ms| - 1], path)
  }

  /** One message and one path: a path without a text gets one from `didOpen` alone, and a path
      with a text is changed by `didChange` alone. */
  lemma NoticeByName(texts: map<string, string>, m: Incoming, path: string)
    ensures var after := StepNotice(texts, m);
      && (path in after <==> path in texts || OpensWith(m, path).Some?)
      && (path in texts ==> after[path] == Document.ApplyAll(texts[path], ChangesIn(m, path)))
      && (path !in texts && OpensWith(m, path).Some? ==> after[path] == OpensWith(m, path).value)
  {
  }

  /** `i` is the first message that opens the path. */
  ghost predicate FirstOpens(ms: seq<Incoming>, path: string, i: nat) {
    i < |ms| && OpensWith(ms[i], path).Some? && forall k :: 0 <= k < i ==> OpensWith(ms[k], path).None?
  }

  ghost predicate NeverOpens(ms: seq<Incoming>, path: string) {
    forall k :: 0 <= k < |ms| ==> OpensWith(ms[k], path).None?
  }

  ghost function TextsAfter(ms: seq<Incoming>): map<string, string> {
    Document.RunTexts(map[], Notices(ms))
  }

  lemma {:induction false} NothingStored(ms: seq<Incoming>, path: string)
    requires NeverOpens(ms, path)
    ensures path !in TextsAfter(ms)
  {
    if ms != [] {
      var init, m := ms[..|ms| - 1], ms[|ms| - 1];
      assert ms == init + [m];
      NothingStored(init, path);
      NoticesStep(init, m);
      hide StepNotice, Notices, Document.RunTexts;
      NoticeByName(TextsAfter(init), m, path);
    }
  }

  /** After any messages, a path has a text exactly when one of them opened it, and it is the text
      of the first that did, with every later `didChange` of the path applied. */
  lemma {:induction false} TextByName(ms: seq<Incoming>, path: string, i: nat)
    requires FirstOpens(ms, path, i)
    ensures path in TextsAfter(ms)
    ensures TextsAfter(ms)[path] == Document.ApplyAll(OpensWith(ms[i], path).value, AllChanges(ms[i + 1..], path))
  {
    var init, m := ms[..|ms| - 1], ms[|ms| - 1];
    assert ms == init + [m];
    NoticesStep(init, m);
    hide StepNotice, Notices, OpensWith, ChangesIn, Document.RunTexts, Document.ApplyAll;
    NoticeByName(TextsAfter(init), m, path);
    if i == |ms| - 1 {
      assert forall k :: 0 <= k < |init| ==> init[k] == ms[k];
      NothingStored(init, path);
      NoChanges(OpensWith(m, path).value);
      assert ms[i + 1..] == [];
    } else {
      assert forall k :: 0 <= k < |init| ==> init[k] == ms[k];
      TextByName(init, path, i);
      var later := ms[i + 1..];
      assert later[..|later| - 1] == init[i + 1..] && later[|later| - 1] == m;
      Document.ApplyAllConcat(OpensWith(ms[i], path).value, AllChanges(init[i + 1..], path), ChangesIn(m, path));
    }
  }

  lemma NoChanges(text: string)
    ensures Document.ApplyAll(text, []) == text
  {
  }

  // ----- replies to a whole sequence of messages -----

  function Answers(ms: seq<Incoming>): seq<Reply> {
    if ms == [] then [] else Answers(ms[..|ms| - 1]) + Answer(ms[|ms| - 1])
  }

  function RequestIds(ms: seq<Incoming>): seq<int> {
    if ms == [] then []
    else
      var m := ms[|ms| - 1];
      RequestIds(ms[..|ms| - 1]) + (if m.Call? && m.id.Some? then [m.id.value] else [])
  }

  /** `picks` selects positions of `whole`, in increasing order, that spell `part`. */
  ghost predicate Selects(picks: seq<nat>, part: seq<int>, whole: seq<int>) {
    && |picks| == |part|
    && (forall i :: 0 <= i < |picks| ==> picks[i] < |whole| && whole[picks[i]] == part[i])
    && (forall i, j :: 0 <= i < j < |picks| ==> picks[i] < picks[j])
  }

  function ReplyIds(rs: seq<Reply>): seq<int> {
    seq(|rs|, i requires 0 <= i < |rs| => rs[i].id)
  }

  /** The reply ids are a subsequence of the request ids: replies come in request order, at
      most one for each request and none for a notification. */
  lemma {:induction false} RepliesAreSubsequence(ms: seq<Incoming>) returns (picks: seq<nat>)
    ensures Selects(picks, ReplyIds(Answers(ms)), RequestIds(ms))
  {
    if ms == [] {
      picks := [];
    } else {
      var init, m := ms[..|ms| - 1], ms[|ms| - 1];
      var picks' := RepliesAreSubsequence(init);
      picks := if Answer(m) == [] then picks' else picks' + [|RequestIds(init)|];
      OneMoreReply(ms);
      hide Answers, Answer, RequestIds;
      SelectsMore(picks', ReplyIds(Answers(init)), RequestIds(init), ReplyIds(Answer(m)), RequestIds(ms));
    }
  }

  /** The last message adds its own id to the requests if it is one, and to the replies if it is
      answered. */
  lemma OneMoreReply(ms: seq<Incoming>)
    requires ms != []
    ensures var init, m := ms[..|ms| - 1], ms[|ms| - 1];
      && ReplyIds(Answers(ms)) == ReplyIds(Answers(init)) + ReplyIds(Answer(m))
      && RequestIds(init) <= RequestIds(ms) && |Answer(m)| <= 1
      && (Answer(m) != [] ==> RequestIds(ms) == RequestIds(init) + ReplyIds(Answer(m)))
  {
  }

  lemma SelectsMore(picks: seq<nat>, part: seq<int>, whole: seq<int>, more: seq<int>, whole': seq<int>)
    requires Selects(picks, part, whole) && whole <= whole' && |more| <= 1
    requires more != [] ==> whole' == whole + more
    ensures Selects(if more == [] then picks else picks + [|whole|], part + more, whole')
  {
    if more == [] {
      assert part + more == part;
    }
  }

  lemma {:induction false} AnswersConcat(a: seq<Incoming>, b: seq<Incoming>)
    ensures Answers(a + b) == Answers(a) + Answers(b)
  {
    if b == [] {
      assert a + b == a;
    } else {
      assert (a + b)[..|a + b| - 1] == a + b[..|b| - 1];
      AnswersConcat(a, b[..|b| - 1]);
    }
  }
}
