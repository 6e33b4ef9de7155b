/**
 * The local state of the database-backed front end (`App.jsx`): the chat
 * rows, the active chat id and the message rows of the active chat.  Each
 * remote call is replaced by its outcome, passed in as a parameter.
 */
module AppState {
  import opened Wrappers
  import opened Text
  import opened JsValue
  import opened Lists
  import opened DownloadName
  import PdfController

  /** A row of the `chats` table. */
  datatype ChatRow = ChatRow(
    id: string,
    title: Value,
    generatedTitle: Value,
    generatedProblem: Value,
    generatedTechStack: Value)

  /** A row of the `messages` table. */
  datatype MessageRow = MessageRow(role: string, content: Value, mermaid: Value, svg: Value)

  const GeneratedFallback: string := "Generated result"

  function RowId(c: ChatRow): string {
    c.id
  }

  /** The line a message row contributes to the conversation, if any. */
  function ConversationLine(m: MessageRow): seq<string>
  {
    if m.role == "user" then ["User: " + ToJsString(m.content)]
    else if m.role == "assistant" && Truthy(m.mermaid) then ["Assistant previous_mermaid:\n" + ToJsString(m.mermaid)]
    else if m.role == "assistant" && Truthy(m.content) then ["Assistant: " + ToJsString(m.content)]
    else []
  }

  function ConversationLines(ms: seq<MessageRow>): seq<string>
    decreases |ms|
  {
    if ms == [] then [] else ConversationLine(ms[0]) + ConversationLines(ms[1..])
  }

  /** The conversation lines of a row list are those of its parts, in order. */
  lemma {:induction false} ConversationLinesConcat(a: seq<MessageRow>, b: seq<MessageRow>)
    ensures ConversationLines(a + b) == ConversationLines(a) + ConversationLines(b)
    decreases |a|
  {
    if a == [] {
      assert a + b == b;
    } else {
      assert (a + b)[0] == a[0] && (a + b)[1..] == a[1..] + b;
      ConversationLinesConcat(a[1..], b);
    }
  }

  /** One more row adds its own line, if any, at the end. */
  lemma ConversationLinesStep(ms: seq<MessageRow>, i: nat)
    requires i < |ms|
    ensures ConversationLines(ms[..i + 1]) == ConversationLines(ms[..i]) + ConversationLine(ms[i])
  {
    ConversationLinesConcat(ms[..i], [ms[i]]);
    assert ms[..i + 1] == ms[..i] + [ms[i]];
    assert ConversationLines([ms[i]]) == ConversationLine(ms[i]) + ConversationLines([]);
  }

  /** Rows of a role other than "user" and "assistant" leave no line. */
  lemma OtherRoleSkipped(a: seq<MessageRow>, m: MessageRow, b: seq<MessageRow>)
    requires m.role != "user" && m.role != "assistant"
    ensures ConversationLines(a + [m] + b) == ConversationLines(a + b)
  {
    assert ConversationLines([m]) == [] by {
      assert ConversationLine(m) == [];
      assert [m][1..] == [];
    }
    ConversationLinesConcat(a + [m], b);
    ConversationLinesConcat(a, [m]);
    ConversationLinesConcat(a, b);
  }

  /** An assistant row with mermaid is represented by its mermaid, whatever its content. */
  lemma MermaidBeatsContent(m: MessageRow, content: Value)
    requires m.role == "assistant" && Truthy(m.mermaid)
    ensures ConversationLine(m.(content := content)) == ConversationLine(m)
  {
  }

  /** `buildConversation(messagesArr, newUserText)`: push the lines in order, the new text last, then join them. */
  method BuildConversation(messages: seq<MessageRow>, newUserText: string) returns (text: string)
    ensures text == Join(ConversationLines(messages) + ["User: " + newUserText], TurnSeparator)
  {
    var lines: seq<string> := [];
    var i := 0;
    while i < |messages|
      invariant 0 <= i <= |messages|
      invariant lines == ConversationLines(messages[..i])
    {
      var m := messages[i];
      ConversationLinesStep(messages, i);
      if m.role == "user" {
        lines := lines + ["User: " + ToJsString(m.content)];
      } else if m.role == "assistant" {
        if Truthy(m.mermaid) {
          lines := lines + ["Assistant previous_mermaid:\n" + ToJsString(m.mermaid)];
        } else if Truthy(m.content) {
          lines := lines + ["Assistant: " + ToJsString(m.content)];
        }
      }
      i := i + 1;
    }
    assert messages[..i] == messages;
    lines := lines + ["User: " + newUserText];
    text := Join(lines, TurnSeparator);
  }

  /** The conversation always ends with the new user text, after the separator unless it is the only line. */
  lemma ConversationEndsWithNewText(messages: seq<MessageRow>, newUserText: string)
    ensures var text := Join(ConversationLines(messages) + ["User: " + newUserText], TurnSeparator);
      text == if ConversationLines(messages) == [] then "User: " + newUserText
              else Join(ConversationLines(messages), TurnSeparator) + TurnSeparator + "User: " + newUserText
  {
    JoinSnoc(ConversationLines(messages), "User: " + newUserText, TurnSeparator);
  }

  /**
   * `sendMessage` builds the conversation from the rows fetched after the
   * user's row was stored, so a text whose row comes back last appears
   * twice at the end.
   */
  lemma StoredTextRepeated(earlier: seq<MessageRow>, content: string, mermaid: Value, svg: Value)
    ensures var rows := earlier + [MessageRow("user", Str(content), mermaid, svg)];
      var lines := ConversationLines(rows) + ["User: " + content];
      lines == ConversationLines(earlier) + ["User: " + content, "User: " + content]
  {
    var m := MessageRow("user", Str(content), mermaid, svg);
    ConversationLinesConcat(earlier, [m]);
    assert ConversationLines([m]) == ConversationLine(m) + ConversationLines([]);
  }

  /** `problem || title || "Generated result"`: the content of the stored assistant row is never falsy. */
  function AssistantContent(problem: Value, title: Value): (r: Value)
    ensures Truthy(r)
    ensures Truthy(problem) ==> r == problem
    ensures !Truthy(problem) && Truthy(title) ==> r == title
    ensures !Truthy(problem) && !Truthy(title) ==> r == Str(GeneratedFallback)
  {
    Or(Or(problem, title), Str(GeneratedFallback))
  }

  /**
   * `Array.isArray(tech_stack) ? tech_stack : tech_stack ? [tech_stack] : []`:
   * the stored tech stack is always an array.
   */
  function StoredTechStack(techStack: Value): (r: Value)
    ensures r.Array?
    ensures techStack.Array? ==> r == techStack
    ensures !techStack.Array? && Truthy(techStack) ==> r == Array([techStack])
    ensures !Truthy(techStack) ==> r == Array([])
  {
    if techStack.Array? then techStack
    else if Truthy(techStack) then Array([techStack])
    else Array([])
  }

  /** Storing a stored tech stack again changes nothing. */
  lemma StoredTechStackIdempotent(techStack: Value)
    ensures StoredTechStack(StoredTechStack(techStack)) == StoredTechStack(techStack)
  {
  }

  /** The first chat row with that id, as `chats.find`. */
  function FindRow(chats: seq<ChatRow>, id: string): (r: Option<ChatRow>)
    ensures r.None? <==> forall k | 0 <= k < |chats| :: chats[k].id != id
    ensures r.Some? ==> exists k | 0 <= k < |chats| ::
                          chats[k] == r.value && r.value.id == id && forall j | 0 <= j < k :: chats[j].id != id
  {
    match IndexWhere(chats, (c: ChatRow) => c.id == id, 0)
    case Some(k) => Some(chats[k])
    case None => None
  }

  predicate HasSvg(m: MessageRow) {
    Truthy(m.svg)
  }

  /** `[...messages].reverse().find((m) => m.svg)?.svg`: the svg of the last row of any role that has one. */
  function LatestSvg(ms: seq<MessageRow>): (r: Option<Value>)
    ensures r.None? <==> forall k | 0 <= k < |ms| :: !HasSvg(ms[k])
    ensures r.Some? ==> Truthy(r.value)
    ensures r.Some? ==> exists k | 0 <= k < |ms| :: r.value == ms[k].svg && forall j | k < j < |ms| :: !HasSvg(ms[j])
  {
    match LastIndexWhere(ms, HasSvg, |ms|)
    case Some(k) => Some(ms[k].svg)
    case None => None
  }

  /**
   * The export step for a found chat row and the loaded messages: title and
   * problem fall back to the chat title, the tech stack to `[]`, and the
   * download is named after the title.
   */
  function ExportFor(chat: ChatRow, messages: seq<MessageRow>): (r: ExportStep)
    ensures !r.NoChat?
    ensures r.NoDiagram? <==> forall k | 0 <= k < |messages| :: !HasSvg(messages[k])
    ensures r.Post? ==> Truthy(r.request.svg) && Some(r.request.svg) == LatestSvg(messages)
    ensures r.Post? ==>
              && r.request.title == Or(chat.generatedTitle, chat.title)
              && r.request.problem == Or(chat.generatedProblem, chat.title)
              && r.request.techStack == Or(chat.generatedTechStack, Array([]))
    ensures r.Post? ==> (r.filename.Some? <==> r.request.title.Str?)
    ensures r.Post? && r.filename.Some? ==> r.filename.value == DownloadFilename(r.request.title.s)
  {
    match LatestSvg(messages)
    case None => NoDiagram
    case Some(svg) =>
      var title := Or(chat.generatedTitle, chat.title);
      var request := PdfController.PdfRequest(title, Or(chat.generatedProblem, chat.title), svg, Or(chat.generatedTechStack, Array([])));
      Post(request, if title.Str? then Some(DownloadFilename(title.s)) else None)
  }

  /**
   * Without a chat title, a request from this front end is refused by the
   * backend exactly when the generated title or problem is missing; with
   * one, never.
   */
  lemma ExportRefusedWithoutTitles(chat: ChatRow, messages: seq<MessageRow>, generatorSucceeds: bool)
    requires ExportFor(chat, messages).Post?
    ensures PdfController.HandleExport(ExportFor(chat, messages).request, generatorSucceeds).BadRequest?
         <==> !Truthy(chat.title) && (!Truthy(chat.generatedTitle) || !Truthy(chat.generatedProblem))
  {
  }

  /** No chat is selected, or the selected id names a chat row of the list. */
  predicate SelectionRemains(chats: seq<ChatRow>, active: Option<string>) {
    active.None? || HasKey(chats, RowId, active.value)
  }

  class AppState {
    var chats: seq<ChatRow>
    var activeChatId: Option<string>
    /** The message rows of the active chat. */
    var messages: seq<MessageRow>

    constructor()
      ensures chats == [] && activeChatId == None && messages == []
    {
      chats := [];
      activeChatId := None;
      messages := [];
    }

    /**
     * `createChat`: the inserted row, or None when the insert failed and
     * nothing changes; otherwise the row is prepended and made active with
     * no messages.
     */
    method CreateChat(inserted: Option<ChatRow>)
      modifies this
      ensures inserted.None? ==> chats == old(chats) && activeChatId == old(activeChatId) && messages == old(messages)
      ensures inserted.Some? ==>
                chats == [inserted.value] + old(chats) && activeChatId == Some(inserted.value.id) && messages == []
      ensures inserted.Some? ==> SelectionRemains(chats, activeChatId)
    {
      if inserted.None? {
        return;
      }
      chats := [inserted.value] + chats;
      activeChatId := Some(inserted.value.id);
      messages := [];
      assert RowId(chats[0]) == inserted.value.id;
    }

    /**
     * `deleteChat(chatId)`: the rows go locally whatever the remote delete
     * answered; the selection and the messages are cleared only when the
     * deleted chat was the active one.
     */
    method DeleteChat(chatId: string, remoteDeleted: bool)
      modifies this
      ensures chats == WithoutKey(old(chats), RowId, chatId)
      ensures old(activeChatId) == Some(chatId) ==> activeChatId == None && messages == []
      ensures old(activeChatId) != Some(chatId) ==> activeChatId == old(activeChatId) && messages == old(messages)
      ensures SelectionRemains(old(chats), old(activeChatId)) ==> SelectionRemains(chats, activeChatId)
    {
      if activeChatId.Some? && activeChatId != Some(chatId) && SelectionRemains(chats, activeChatId) {
        FilterKeepsOtherKey(chats, RowId, chatId, activeChatId.value);
      }
      chats := WithoutKey(chats, RowId, chatId);
      if activeChatId == Some(chatId) {
        activeChatId := None;
        messages := [];
      }
    }

    /** `renameChat(chatId, newTitle)`: only after a successful remote update, only the rows with that id. */
    method RenameChat(chatId: string, newTitle: Value, remoteUpdated: bool)
      modifies this
      ensures !remoteUpdated ==> chats == old(chats)
      ensures |chats| == |old(chats)|
      ensures remoteUpdated ==> forall k | 0 <= k < |chats| ::
                chats[k] == if old(chats)[k].id == chatId then old(chats)[k].(title := newTitle) else old(chats)[k]
      ensures activeChatId == old(activeChatId) && messages == old(messages)
      ensures SelectionRemains(old(chats), old(activeChatId)) ==> SelectionRemains(chats, activeChatId)
    {
      if !remoteUpdated {
        return;
      }
      chats := MapWhereKey(chats, RowId, chatId, (c: ChatRow) => c.(title := newTitle));
      if activeChatId.Some? && SelectionRemains(old(chats), activeChatId) {
        var k :| 0 <= k < |old(chats)| && RowId(old(chats)[k]) == activeChatId.value;
        assert RowId(chats[k]) == activeChatId.value;
      }
    }

    /**
     * The local part of `sendMessage` up to the stored user row: nothing
     * without a chat id or when storing the row failed; otherwise the
     * stored row is shown at the end of the messages.
     */
    method StoreUserMessage(chatId: string, stored: Option<MessageRow>) returns (proceeds: bool)
      modifies this
      ensures proceeds <==> chatId != "" && stored.Some?
      ensures proceeds ==> messages == old(messages) + [stored.value]
      ensures !proceeds ==> messages == old(messages)
      ensures chats == old(chats) && activeChatId == old(activeChatId)
    {
      if chatId == "" || stored.None? {
        return false;
      }
      messages := messages + [stored.value];
      return true;
    }

    /** `exportPdf(chatId)`: the chat row is looked up, the svg taken from the loaded messages. */
    function ExportPdf(chatId: string): (r: ExportStep)
      reads this
      ensures r.NoChat? <==> forall k | 0 <= k < |chats| :: chats[k].id != chatId
      ensures !r.NoChat? ==> r == ExportFor(FindRow(chats, chatId).value, messages)
    {
      match FindRow(chats, chatId)
      case None => NoChat
      case Some(c) => ExportFor(c, messages)
    }
  }
}
