/**
 * The chat state of the `useChatManager` hook: a list of chats, the active
 * chat id and the flag that keeps a second send from starting while one
 * is running.  Fresh ids and clock readings are parameters; the two
 * backend calls of a send are one outcome parameter of `FinishSend`.
 */
module ChatManager {
  import opened Wrappers
  import opened Text
  import opened JsValue
  import opened Lists
  import opened DownloadName
  import PdfController

  datatype Message = Message(role: string, text: Value, mermaid: Value, svg: Value, timestamp: int)

  datatype Chat = Chat(
    id: string,
    title: Value,
    generatedTitle: Value,
    generatedProblem: Value,
    generatedTechStack: Value,
    messages: seq<Message>)

  /** The fields an `updateChat` call spreads over a chat; absent ones are left alone. */
  datatype ChatPatch = ChatPatch(
    id: Option<string>,
    title: Option<Value>,
    generatedTitle: Option<Value>,
    generatedProblem: Option<Value>,
    generatedTechStack: Option<Value>,
    messages: Option<seq<Message>>)

  /** What the two backend calls of a send produced: the generated fields and the rendered svg, or an error. */
  datatype SendOutcome =
    | Generated(title: Value, problem: Value, techStack: Value, mermaid: Value, svg: Value)
    | SendFailed

  const FailureText: string := "Failed to generate diagram. See console."
  const ExportTitleFallback: string := "Architecture Diagram"

  function ChatId(c: Chat): string {
    c.id
  }

  /** The first chat with that id, as `chats.find`. */
  function FindChat(chats: seq<Chat>, id: string): (r: Option<Chat>)
    ensures r.None? <==> forall k | 0 <= k < |chats| :: chats[k].id != id
    ensures r.Some? ==> exists k | 0 <= k < |chats| ::
                          chats[k] == r.value && r.value.id == id && forall j | 0 <= j < k :: chats[j].id != id
  {
    match IndexWhere(chats, (c: Chat) => c.id == id, 0)
    case Some(k) => Some(chats[k])
    case None => None
  }

  /** The chat `createChat` makes when `count` chats exist. */
  function NewChat(id: string, title: Value, count: nat): (r: Chat)
    ensures r.id == id && r.messages == []
    ensures r.generatedTitle == Null && r.generatedProblem == Null && r.generatedTechStack == Array([])
    ensures Truthy(title) ==> r.title == title
    ensures !Truthy(title) ==> r.title == Str("Untitled " + DecimalString(count + 1))
    ensures Truthy(r.title)
  {
    Chat(id, Or(title, Str("Untitled " + DecimalString(count + 1))), Null, Null, Array([]), [])
  }

  /** `{ ...c, ...partial }`. */
  function Patched(c: Chat, p: ChatPatch): Chat
  {
    Chat(
      if p.id.Some? then p.id.value else c.id,
      if p.title.Some? then p.title.value else c.title,
      if p.generatedTitle.Some? then p.generatedTitle.value else c.generatedTitle,
      if p.generatedProblem.Some? then p.generatedProblem.value else c.generatedProblem,
      if p.generatedTechStack.Some? then p.generatedTechStack.value else c.generatedTechStack,
      if p.messages.Some? then p.messages.value else c.messages)
  }

  /** An empty patch leaves a chat as it is. */
  lemma EmptyPatchIsIdentity(c: Chat)
    ensures Patched(c, ChatPatch(None, None, None, None, None, None)) == c
  {
  }

  /** `{ ...c, messages: [...c.messages, m] }`. */
  function WithMessage(c: Chat, m: Message): Chat
  {
    c.(messages := c.messages + [m])
  }

  /** The message a send appends first: `{ role: "user", text, timestamp: Date.now() }`. */
  function UserMessage(text: string, now: int): Message
  {
    Message("user", Str(text), Undefined, Undefined, now)
  }

  /** The assistant message a finished send appends. */
  function ReplyMessage(outcome: SendOutcome, now: int): (m: Message)
    ensures m.role == "assistant" && m.timestamp == now
    ensures outcome.Generated? ==> m.text == outcome.mermaid && m.mermaid == outcome.mermaid && m.svg == outcome.svg
    ensures outcome.SendFailed? ==> m.text == Str(FailureText) && m.mermaid == Undefined && m.svg == Undefined
  {
    match outcome
    case Generated(_, _, _, mermaid, svg) => Message("assistant", mermaid, mermaid, svg, now)
    case SendFailed => Message("assistant", Str(FailureText), Undefined, Undefined, now)
  }

  /**
   * A chat after a finished send: on success the generated fields are
   * replaced, the tech stack only by an array; in every case exactly one
   * assistant message is appended.
   */
  function AfterReply(c: Chat, outcome: SendOutcome, now: int): (r: Chat)
    ensures r.id == c.id && r.title == c.title
    ensures r.messages == c.messages + [ReplyMessage(outcome, now)]
    ensures outcome.Generated? ==>
              && r.generatedTitle == outcome.title && r.generatedProblem == outcome.problem
              && r.generatedTechStack == (if outcome.techStack.Array? then outcome.techStack else Array([]))
    ensures outcome.SendFailed? ==> r == WithMessage(c, ReplyMessage(outcome, now))
  {
    match outcome
    case Generated(title, problem, techStack, _, _) =>
      Chat(c.id, c.title, title, problem, if techStack.Array? then techStack else Array([]),
           c.messages + [ReplyMessage(outcome, now)])
    case SendFailed => WithMessage(c, ReplyMessage(outcome, now))
  }

  /** The generated tech stack is an array after every successful send. */
  lemma ReplyKeepsTechStackArray(c: Chat, outcome: SendOutcome, now: int)
    requires outcome.Generated?
    ensures AfterReply(c, outcome, now).generatedTechStack.Array?
  {
  }

  /**
   * `setActiveChatId((prev) => (prev === id ? (chats[0] ? chats[0].id : null) : prev))`,
   * where `chats` is the list from before the deletion.
   */
  function ActiveAfterDelete(before: seq<Chat>, active: Option<string>, id: string): (r: Option<string>)
    ensures active != Some(id) ==> r == active
    ensures active == Some(id) && before == [] ==> r == None
    ensures active == Some(id) && before != [] ==> r == Some(before[0].id)
  {
    if active == Some(id) then (if before == [] then None else Some(before[0].id)) else active
  }

  /** No chat is selected, or the selected id names a chat of the list. */
  predicate SelectionRemains(chats: seq<Chat>, active: Option<string>) {
    active.None? || HasKey(chats, ChatId, active.value)
  }

  /**
   * Deleting the active chat moves the selection to a remaining chat (or
   * to none) unless the deleted chat was the first one: then the deleted
   * id stays active although no chat carries it any more.
   */
  lemma DeleteActiveSelection(before: seq<Chat>, id: string)
    ensures SelectionRemains(WithoutKey(before, ChatId, id), ActiveAfterDelete(before, Some(id), id))
        <==> (before == [] || before[0].id != id)
  {
    var after := WithoutKey(before, ChatId, id);
    if before != [] {
      if before[0].id != id {
        assert ChatId(before[0]) != id && before[0] in before;
        assert before[0] in after;
        var k :| 0 <= k < |after| && after[k] == before[0];
      } else {
        forall k | 0 <= k < |after| ensures after[k].id != id {
          assert after[k] in after;
        }
      }
    }
  }

  /** The line a message contributes to the transcript, if any. */
  function MessageLine(m: Message): seq<string>
  {
    if m.role == "user" then ["User: " + ToJsString(m.text)]
    else if m.role == "assistant" && Truthy(m.mermaid) then ["Assistant (previous_mermaid):\n" + ToJsString(m.mermaid)]
    else []
  }

  function MessageLines(ms: seq<Message>): seq<string>
    decreases |ms|
  {
    if ms == [] then [] else MessageLine(ms[0]) + MessageLines(ms[1..])
  }

  /** The transcript lines of a message list are those of its parts, in order. */
  lemma {:induction false} MessageLinesConcat(a: seq<Message>, b: seq<Message>)
    ensures MessageLines(a + b) == MessageLines(a) + MessageLines(b)
    decreases |a|
  {
    if a == [] {
      assert a + b == b;
    } else {
      assert (a + b)[0] == a[0] && (a + b)[1..] == a[1..] + b;
      MessageLinesConcat(a[1..], b);
    }
  }

  /** An assistant message without mermaid, or a message of another role, leaves no line. */
  lemma SkippedMessage(a: seq<Message>, m: Message, b: seq<Message>)
    requires m.role != "user" && !(m.role == "assistant" && Truthy(m.mermaid))
    ensures MessageLines(a + [m] + b) == MessageLines(a + b)
  {
    assert MessageLines([m]) == [] by {
      assert MessageLine(m) == [];
      assert [m][1..] == [];
    }
    assert MessageLines([m] + b) == MessageLines(b) by {
      MessageLinesConcat([m], b);
    }
    assert a + [m] + b == a + ([m] + b);
    MessageLinesConcat(a, [m] + b);
    MessageLinesConcat(a, b);
  }

  /** One more message adds its own line, if any, at the end. */
  lemma MessageLinesStep(ms: seq<Message>, i: nat)
    requires i < |ms|
    ensures MessageLines(ms[..i + 1]) == MessageLines(ms[..i]) + MessageLine(ms[i])
  {
    MessageLinesConcat(ms[..i], [ms[i]]);
    assert ms[..i + 1] == ms[..i] + [ms[i]];
    assert MessageLines([ms[i]]) == MessageLine(ms[i]) + MessageLines([]);
  }

  /** The context lines for the generated title and problem, each only when present. */
  function HeaderLines(chat: Chat): seq<string>
  {
    (if Truthy(chat.generatedTitle) then ["Existing Title: " + ToJsString(chat.generatedTitle)] else [])
    + (if Truthy(chat.generatedProblem) then ["Existing Problem: " + ToJsString(chat.generatedProblem)] else [])
  }

  /** The transcript lines: context, one line per contributing message, and last the new user text. */
  function TranscriptLines(chat: Chat, latestUserText: string): seq<string>
  {
    HeaderLines(chat) + MessageLines(chat.messages) + ["User: " + latestUserText]
  }

  /** The transcript ends with the new user text, after the separator unless it is the only line. */
  lemma TranscriptEndsWithLatest(chat: Chat, latestUserText: string)
    ensures var earlier := HeaderLines(chat) + MessageLines(chat.messages);
      var text := Join(TranscriptLines(chat, latestUserText), TurnSeparator);
      text == if earlier == [] then "User: " + latestUserText
              else Join(earlier, TurnSeparator) + TurnSeparator + "User: " + latestUserText
  {
    JoinSnoc(HeaderLines(chat) + MessageLines(chat.messages), "User: " + latestUserText, TurnSeparator);
  }

  /** `buildConversationTextForChat`: push the lines in order, then join them. */
  method BuildConversationTextForChat(chat: Chat, latestUserText: string) returns (text: string)
    ensures text == Join(TranscriptLines(chat, latestUserText), TurnSeparator)
  {
    var lines: seq<string> := [];
    if Truthy(chat.generatedTitle) {
      lines := lines + ["Existing Title: " + ToJsString(chat.generatedTitle)];
    }
    if Truthy(chat.generatedProblem) {
      lines := lines + ["Existing Problem: " + ToJsString(chat.generatedProblem)];
    }
    assert lines == HeaderLines(chat);
    var i := 0;
    while i < |chat.messages|
      invariant 0 <= i <= |chat.messages|
      invariant lines == HeaderLines(chat) + MessageLines(chat.messages[..i])
    {
      var m := chat.messages[i];
      MessageLinesStep(chat.messages, i);
      assert HeaderLines(chat) + MessageLines(chat.messages[..i + 1]) == lines + MessageLine(m);
      if m.role == "user" {
        lines := lines + ["User: " + ToJsString(m.text)];
      } else if m.role == "assistant" {
        if Truthy(m.mermaid) {
          lines := lines + ["Assistant (previous_mermaid):\n" + ToJsString(m.mermaid)];
        }
      }
      i := i + 1;
    }
    assert chat.messages[..i] == chat.messages;
    lines := lines + ["User: " + latestUserText];
    text := Join(lines, TurnSeparator);
  }

  predicate IsUserMessage(m: Message) {
    m.role == "user"
  }

  predicate HasDiagram(m: Message) {
    m.role == "assistant" && Truthy(m.svg)
  }

  /** `messages.find((m) => m.role === "user")?.text`. */
  function FirstUserText(ms: seq<Message>): (r: Value)
    ensures (forall k | 0 <= k < |ms| :: !IsUserMessage(ms[k])) ==> r == Undefined
    ensures (exists k | 0 <= k < |ms| :: IsUserMessage(ms[k])) ==>
              exists k | 0 <= k < |ms| :: IsUserMessage(ms[k]) && r == ms[k].text
                                          && forall j | 0 <= j < k :: !IsUserMessage(ms[j])
  {
    match IndexWhere(ms, IsUserMessage, 0)
    case Some(k) => ms[k].text
    case None => Undefined
  }

  /** The svg of the last assistant message that has one. */
  function LatestSvg(ms: seq<Message>): (r: Option<Value>)
    ensures r.None? <==> forall k | 0 <= k < |ms| :: !HasDiagram(ms[k])
    ensures r.Some? ==> Truthy(r.value)
    ensures r.Some? ==> exists k | 0 <= k < |ms| :: HasDiagram(ms[k]) && r.value == ms[k].svg
                                                  && forall j | k < j < |ms| :: !HasDiagram(ms[j])
  {
    match LastIndexWhere(ms, HasDiagram, |ms|)
    case Some(k) => Some(ms[k].svg)
    case None => None
  }

  /** The name the download gets: `(title || "diagram")` with the class replacement and the cut. */
  function ExportFilename(title: Value): (r: Option<string>)
    ensures r.Some? <==> Or(title, Str("diagram")).Str?
    ensures r.Some? ==> r.value == DownloadFilename(Or(title, Str("diagram")).s)
  {
    match Or(title, Str("diagram"))
    case Str(s) => Some(DownloadFilename(s))
    case _ => None
  }

  /**
   * `exportPdf` for a chat that was found: the title falls back from the
   * generated title to the chat title to "Architecture Diagram", the
   * problem from the generated problem to the first user text to "", and
   * the svg is that of the latest assistant message with one, without
   * which nothing is posted.
   */
  function ExportFor(chat: Chat): (r: ExportStep)
    ensures !r.NoChat?
    ensures r.NoDiagram? <==> forall k | 0 <= k < |chat.messages| :: !HasDiagram(chat.messages[k])
    ensures r.Post? ==> Truthy(r.request.title) && Truthy(r.request.svg)
    ensures r.Post? ==>
              && r.request.title == Or(Or(chat.generatedTitle, chat.title), Str(ExportTitleFallback))
              && r.request.problem == Or(Or(chat.generatedProblem, FirstUserText(chat.messages)), Str(""))
              && r.request.techStack == Or(chat.generatedTechStack, Array([]))
              && Some(r.request.svg) == LatestSvg(chat.messages)
    ensures r.Post? ==> r.filename == ExportFilename(r.request.title)
  {
    match LatestSvg(chat.messages)
    case None => NoDiagram
    case Some(svg) =>
      var title := Or(Or(chat.generatedTitle, chat.title), Str(ExportTitleFallback));
      var problem := Or(Or(chat.generatedProblem, FirstUserText(chat.messages)), Str(""));
      var techStack := Or(chat.generatedTechStack, Array([]));
      Post(PdfController.PdfRequest(title, problem, svg, techStack), ExportFilename(title))
  }

  /**
   * The "diagram" fallback of the filename is never used: the title is
   * always truthy, so a string title names the download itself.
   */
  lemma ExportFilenameUsesTitle(chat: Chat)
    requires ExportFor(chat).Post?
    ensures var req := ExportFor(chat).request;
      ExportFor(chat).filename == if req.title.Str? then Some(DownloadFilename(req.title.s)) else None
  {
  }

  /**
   * A request the hook posts passes the backend's 400 guard exactly when
   * its problem is truthy: title and svg always are.
   */
  lemma ExportMeetsBackendGuard(chat: Chat, generatorSucceeds: bool)
    requires ExportFor(chat).Post?
    ensures PdfController.HandleExport(ExportFor(chat).request, generatorSucceeds).BadRequest?
         <==> !Truthy(ExportFor(chat).request.problem)
  {
  }

  /** After a successful send with an svg, export posts that svg. */
  lemma ExportAfterReply(c: Chat, outcome: SendOutcome, now: int)
    requires outcome.Generated? && Truthy(outcome.svg)
    ensures var e := ExportFor(AfterReply(c, outcome, now));
      e.Post? && e.request.svg == outcome.svg
  {
    var m := ReplyMessage(outcome, now);
    LastIndexSnoc(c.messages, m, HasDiagram, |c.messages|);
    assert AfterReply(c, outcome, now).messages == c.messages + [m];
  }

  class ChatManager {
    var chats: seq<Chat>
    var activeChatId: Option<string>
    /** `loadingRef.current`. */
    var loading: bool

    constructor()
      ensures chats == [] && activeChatId == None && !loading
    {
      chats := [];
      activeChatId := None;
      loading := false;
    }

    /** `createChat(title)`: prepend a new chat and make it active. */
    method CreateChat(title: Value, freshId: string)
      modifies this
      ensures chats == [NewChat(freshId, title, |old(chats)|)] + old(chats)
      ensures activeChatId == Some(freshId)
      ensures loading == old(loading)
      ensures SelectionRemains(chats, activeChatId)
    {
      chats := [NewChat(freshId, title, |chats|)] + chats;
      activeChatId := Some(freshId);
      assert chats[0].id == freshId;
    }

    /** `renameChat(id, newTitle)`: only the chats with that id get the new title. */
    method RenameChat(id: string, newTitle: Value)
      modifies this
      ensures |chats| == |old(chats)|
      ensures forall k | 0 <= k < |chats| ::
                chats[k] == if old(chats)[k].id == id then old(chats)[k].(title := newTitle) else old(chats)[k]
      ensures activeChatId == old(activeChatId) && loading == old(loading)
      ensures SelectionRemains(old(chats), old(activeChatId)) ==> SelectionRemains(chats, activeChatId)
    {
      chats := MapWhereKey(chats,  ChatId, id, (c: Chat) => c.(title := newTitle));
    }

    /** `deleteChat(id)`: drop the chats with that id and move the selection off it. */
    method DeleteChat(id: string)
      modifies this
      ensures chats == WithoutKey(old(chats), ChatId, id)
      ensures activeChatId == ActiveAfterDelete(old(chats), old(activeChatId), id)
      ensures loading == old(loading)
      ensures (old(activeChatId) != Some(id) && SelectionRemains(old(chats), old(activeChatId))) ==>
                SelectionRemains(chats, activeChatId)
    {
      if activeChatId != Some(id) && activeChatId.Some? && SelectionRemains(chats, activeChatId) {
        FilterKeepsOtherKey(chats, ChatId, id, activeChatId.value);
      }
      activeChatId := ActiveAfterDelete(chats, activeChatId, id);
      chats := WithoutKey(chats, ChatId, id);
    }

    /** `updateChat(id, partial)`: spread the patch over the chats with that id. */
    method UpdateChat(id: string, patch: ChatPatch)
      modifies this
      ensures |chats| == |old(chats)|
      ensures forall k | 0 <= k < |chats| ::
                chats[k] == if old(chats)[k].id == id then Patched(old(chats)[k], patch) else old(chats)[k]
      ensures activeChatId == old(activeChatId) && loading == old(loading)
    {
      chats := MapWhereKey(chats,  ChatId, id, (c: Chat) => Patched(c, patch));
    }

    /** `appendMessage(id, message)`: add the message at the end of the chats with that id. */
    method AppendMessage(id: string, m: Message)
      modifies this
      ensures |chats| == |old(chats)|
      ensures forall k | 0 <= k < |chats| ::
                chats[k] == if old(chats)[k].id == id then WithMessage(old(chats)[k], m) else old(chats)[k]
      ensures activeChatId == old(activeChatId) && loading == old(loading)
      ensures SelectionRemains(old(chats), old(activeChatId)) ==> SelectionRemains(chats, activeChatId)
    {
      chats := MapWhereKey(chats,  ChatId, id, (c: Chat) => WithMessage(c, m));
    }

    /**
     * `sendMessage(id, text)` up to the first request: nothing happens for
     * an empty id or text or while a send runs; otherwise the user message
     * is appended and, when the chat was found in the list as it stood
     * before, the conversation is built from that chat and the flag stays
     * set; when it was not, the flag is cleared again.
     */
    method BeginSend(id: string, text: string, now: int) returns (conversation: Option<string>)
      modifies this
      ensures activeChatId == old(activeChatId)
      ensures id == "" || text == "" || old(loading) ==>
                chats == old(chats) && loading == old(loading) && conversation.None?
      ensures !(id == "" || text == "" || old(loading)) ==>
                && |chats| == |old(chats)|
                && (forall k | 0 <= k < |chats| ::
                      chats[k] == if old(chats)[k].id == id then WithMessage(old(chats)[k], UserMessage(text, now))
                                  else old(chats)[k])
                && (FindChat(old(chats), id).None? ==> !loading && conversation.None?)
                && (FindChat(old(chats), id).Some? ==>
                      loading && conversation == Some(Join(TranscriptLines(FindChat(old(chats), id).value, text), TurnSeparator)))
    {
      if id == "" || text == "" || loading {
        return None;
      }
      loading := true;
      var before := chats;
      AppendMessage(id, UserMessage(text, now));
      var chat := FindChat(before, id);
      if chat.None? {
        loading := false;
        return None;
      }
      var convo := BuildConversationTextForChat(chat.value, text);
      conversation := Some(convo);
    }

    /**
     * The rest of `sendMessage`, once the backend answered: the chats with
     * that id get the reply, and the flag is cleared on every path.
     */
    method FinishSend(id: string, outcome: SendOutcome, now: int)
      modifies this
      ensures !loading
      ensures activeChatId == old(activeChatId)
      ensures |chats| == |old(chats)|
      ensures forall k | 0 <= k < |chats| ::
                chats[k] == if old(chats)[k].id == id then AfterReply(old(chats)[k], outcome, now) else old(chats)[k]
      ensures SelectionRemains(old(chats), old(activeChatId)) ==> SelectionRemains(chats, activeChatId)
    {
      chats := MapWhereKey(chats,  ChatId, id, (c: Chat) => AfterReply(c, outcome, now));
      loading := false;
    }

    /** `exportPdf(id)`. */
    function ExportPdf(id: string): (r: ExportStep)
      reads this
      ensures r.NoChat? <==> forall k | 0 <= k < |chats| :: chats[k].id != id
      ensures !r.NoChat? ==> r == ExportFor(FindChat(chats, id).value)
    {
      match FindChat(chats, id)
      case None => NoChat
      case Some(c) => ExportFor(c)
    }
  }

  /** A send started while another runs changes nothing; a finished one always clears the flag. */
  method SendWhileLoadingExample(m: ChatManager, id: string, text: string, now: int)
    requires m.loading
    modifies m
    ensures m.chats == old(m.chats) && m.loading
  {
    var c := m.BeginSend(id, text, now);
  }
}
