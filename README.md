# Architecture generator: response extraction and chat state

This project models, in Dafny, the deterministic core of a system that turns
a free-text software problem into an architecture record (title, problem
statement, technology list, mermaid diagram script) and exports it as a PDF.
It covers four sources:

- **The backend's response extractor** (`generateArchitectureFromConversation`,
  after the completion call). It takes the language model's raw reply and:
  - keeps only the text between `%%JSON_START%%` and `%%JSON_END%%`;
  - takes the greedy `{ … }` span, with a code-fence retry;
  - parses it strictly, with exactly one retry after deleting trailing
    commas (trailing commas are not JSON under sections 4 and 5 of RFC 8259);
  - normalises the four fields with fixed defaults.

  `JSON.parse` is a parameter: a partial function from text to a JS value.
- **The backend's PDF endpoint**: the 400 guard on missing fields and
  `sanitizeFilename`. Whether the PDF generator succeeds is a parameter.
- **The `useChatManager` hook** (local-storage front end). It is a class
  `ChatManager` with `chats`, `activeChatId` and the `loading` flag
  (`loadingRef.current`). Its list updaters are methods specified by
  sequence functions. Alongside it:
  - the transcript builder is a loop method proved against a line function;
  - `sendMessage` is split at its `await` into `BeginSend` and `FinishSend`,
    so a second send can arrive while the flag is set;
  - `exportPdf` is a function from the state to the request it posts.
- **The database-backed front end `App.jsx`**: a class `AppState` with
  `chats`, `activeChatId` and `messages`. Supabase results are parameters.
  Alongside it are its own transcript builder, the content and tech-stack
  normalisations, and its export request.

Modules:

| file | module | contents |
|---|---|---|
| `wrappers.dfy` | `Wrappers` | `Option` and `Result` |
| `text.dfy` | `Text` | JS whitespace, `trim`, `includes`/`indexOf`, `split`, `join`, `slice`, a character-class `replace`, `n.toString()`, the front ends' turn separator |
| `js_value.dfy` | `JsValue` | a dynamic JS value, truthiness, `a \|\| b`, `String(v)`, property access |
| `lists.dfy` | `Lists` | `filter`/`map` by id, `findIndex` and the last match |
| `response_extractor.dfy` | `ResponseExtractor` | the extraction pipeline and normalisation |
| `pdf_controller.dfy` | `PdfController` | the export endpoint and `sanitizeFilename` |
| `download_name.dfy` | `DownloadName` | the front ends' download name and shared export step |
| `chat_manager.dfy` | `ChatManager` | the hook |
| `app_state.dfy` | `AppState` | `App.jsx` |

Three behaviours of the code that the model states exactly:

- **Fence stripping.** The code strips only a ```` ```json ```` tag (any case)
  and bare ```` ``` ````, and only when the first brace search fails. The
  model proves this retry never finds a span the first search missed
  (`StripFencesKeepsSpan`, `CandidateSpec`).
- **Empty diagram script.** A payload whose `mermaid` is missing or empty is
  not an error: the record carries `mermaid: ""` (`NormalizeMermaid`,
  `EmptyPayloadDefaults`).
- **Trailing commas.** The regex repair turns a payload with one trailing
  comma into the payload without it only when no other comma is followed,
  after whitespace, by the closing character of either pass. The model
  proves the equivalence under that condition (`RepairDropsTrailingComma`,
  `TrailingCommaTolerated`).

## Model

| member | source | states |
|---|---|---|
| ResponseExtractor.SliceMarkersSpec | backend/services/openaiService.js:72-76 | slicing happens iff both markers occur; the result then holds neither marker and is trimmed; otherwise the text is unchanged |
| ResponseExtractor.MarkedSlice | backend/services/openaiService.js:75 | a payload holding neither marker (a mermaid `%%` comment is allowed), put between the first start marker and an end marker, is exactly what `split(start)[1].split(end)[0].trim()` yields; the text behind may hold anything, further markers included, unless a start marker begins inside the end marker |
| ResponseExtractor.AfterStartMarker | backend/services/openaiService.js:75 | when no start marker begins before the one behind `pre`, `split(startMarker)[1]` is the rest of the reply up to the next start marker |
| ResponseExtractor.BeforeEndMarker | backend/services/openaiService.js:75 | when no end marker begins inside `p`, `split(endMarker)[0]` of `p`, the end marker and any rest is `p` |
| ResponseExtractor.BeforeFirst | backend/services/openaiService.js:75 | `split(sep)[0]`; `BeforeFirstIsFree`, `BeforeFirstBehind` and `BeforeFirstPrefix` specify it |
| ResponseExtractor.AfterFirst | backend/services/openaiService.js:75 | `split(sep)[1]` of a text holding `sep`; `AfterFirstIsFree` and `AfterFirstBehind` specify it |
| ResponseExtractor.BeforeFirstIsFree | backend/services/openaiService.js:75 | the piece before the first separator holds no separator |
| ResponseExtractor.AfterFirstIsFree | backend/services/openaiService.js:75 | the piece after the first separator, up to the next, holds no separator |
| ResponseExtractor.TrimKeepsFree | backend/services/openaiService.js:75 | trimming a marker-free text keeps it marker-free |
| ResponseExtractor.FirstIndex | backend/services/openaiService.js:79 | the first index of a character at or after `from`, or None when it does not occur there |
| ResponseExtractor.LastIndex | backend/services/openaiService.js:79 | the last index of a character below `upto`, or None when it does not occur there |
| ResponseExtractor.BraceSpan | backend/services/openaiService.js:79 | a match exists iff some `{` precedes some `}`; it is the substring from the first `{` to the last `}`, starting with `{` and ending with `}` |
| ResponseExtractor.HasBraceSpanCons | backend/services/openaiService.js:79 | a span exists in the tail, or the text opens with `{` and a `}` follows |
| ResponseExtractor.ErasureKeepsBraceSpan | backend/services/openaiService.js:82-83 | deleting characters other than braces changes neither whether a span exists nor whether a `}` occurs |
| ResponseExtractor.JsonFenceAt | backend/services/openaiService.js:82 | where `/```json\s*/i` matches: three backticks and `json` in any case; `FirstJsonFence` states the first such place |
| ResponseExtractor.FirstJsonFence | backend/services/openaiService.js:82 | the first position at or after `from` where ```` ```json ```` (any case) stands, or None when there is none |
| ResponseExtractor.RemoveBacktickFencesErases | backend/services/openaiService.js:82 | `replace(/```/g, "")` deletes only fence characters |
| ResponseExtractor.JsonTagErases | backend/services/openaiService.js:82 | the seven characters of a tagged fence are all deletable fence characters |
| ResponseExtractor.ErasesSplice | backend/services/openaiService.js:82 | removing a deletable middle piece and erasing within the tail is an erasure of the whole |
| ResponseExtractor.RemoveFenceAtErases | backend/services/openaiService.js:82 | removing a tagged fence and the whitespace after it deletes only fence characters |
| ResponseExtractor.RemoveJsonFenceErases | backend/services/openaiService.js:82 | `replace(/```json\s*/i, "")` deletes only fence characters |
| ResponseExtractor.StripFencesErasesFenceChars | backend/services/openaiService.js:82 | fence stripping deletes only backticks, `json` tag letters and whitespace, never a brace |
| ResponseExtractor.StripFencesKeepsSpan | backend/services/openaiService.js:82-84 | after fence stripping a span exists exactly when one existed before |
| ResponseExtractor.CandidateSpec | backend/services/openaiService.js:79-91 | the candidate step fails iff the sliced text has no `{` before a `}`, then always with "did not contain JSON output"; otherwise the candidate is the brace span |
| ResponseExtractor.RepairCloseErases | backend/services/openaiService.js:100 | one pass of `replace(/,\s*<close>/g, …)` deletes only commas and whitespace |
| ResponseExtractor.RepairErasesCommasAndSpace | backend/services/openaiService.js:100 | the repair deletes only `,` and whitespace characters |
| ResponseExtractor.RepairCloseIdentity | backend/services/openaiService.js:100 | a pass leaves a text unchanged when no comma is followed by its closing character |
| ResponseExtractor.RepairWithoutComma | backend/services/openaiService.js:100 | a text without a comma is left unchanged |
| ResponseExtractor.CommaFreeHasNoTrailingComma | backend/services/openaiService.js:100 | a comma-free text has no trailing comma to repair |
| ResponseExtractor.RepairClosePrefix | backend/services/openaiService.js:100 | the scan passes unchanged over a prefix none of whose commas needs repair |
| ResponseExtractor.PrefixCommaContext | backend/services/openaiService.js:100 | what a comma sees after it depends only on the first non-space character that follows |
| ResponseExtractor.RepairCloseAtComma | backend/services/openaiService.js:100 | a comma, the whitespace after it and the closing character become the closing character |
| ResponseExtractor.NoTrailingCommaSuffix | backend/services/openaiService.js:100 | a suffix of a text with no trailing comma has none either |
| ResponseExtractor.RepairCloseDropsComma | backend/services/openaiService.js:100 | one pass deletes a single trailing comma and its whitespace and nothing else |
| ResponseExtractor.CommaBeforeOther | backend/services/openaiService.js:100 | a comma followed, after whitespace, by another closing character is not a trailing comma for this pass |
| ResponseExtractor.NoTrailingCommaInTail | backend/services/openaiService.js:100 | a comma inside the tail sees what it sees in the tail alone |
| ResponseExtractor.RepairCloseKeepsOther | backend/services/openaiService.js:100 | the `}` pass keeps a comma before `]`, and the `]` pass keeps one before `}` |
| ResponseExtractor.RepairDropsTrailingComma | backend/services/openaiService.js:100 | one trailing comma before `}` or `]` is deleted with its whitespace, and nothing else changes |
| ResponseExtractor.RepairExamples | backend/services/openaiService.js:100 | `{"a":1,}` becomes `{"a":1}` and `[1, ]` becomes `[1]` |
| ResponseExtractor.ParsePayload | backend/services/openaiService.js:94-105 | the first attempt is the candidate; a second attempt, on the repaired text, happens iff the first fails; success iff the last attempt parses, with its value; otherwise "Failed to parse JSON" |
| ResponseExtractor.TrailingCommaTolerated | backend/services/openaiService.js:94-105 | a payload rejected only for one trailing comma parses (or fails) exactly as the payload without it |
| ResponseExtractor.TrailingCommaExtracts | backend/services/openaiService.js:72-119 | a brace-delimited reply, not carrying both markers, that is rejected only for one trailing comma extracts exactly as the reply without it |
| ResponseExtractor.ContainsAcrossDeletion | backend/services/openaiService.js:74 | deleting text before a character a marker lacks removes no marker occurrence |
| ResponseExtractor.CharOfOccurrence | backend/services/openaiService.js:74 | every character an occurrence covers belongs to the pattern |
| ResponseExtractor.TrimmedString | backend/services/openaiService.js:109 | `String(v).trim()` has no surrounding whitespace |
| ResponseExtractor.NormalizeTitle | backend/services/openaiService.js:109 | the trimmed string of a truthy title, else "Architecture Diagram" |
| ResponseExtractor.NormalizeProblem | backend/services/openaiService.js:110 | the trimmed string of a truthy problem, else the prefix of the conversation of length min(600, its length) |
| ResponseExtractor.NormalizeTechStack | backend/services/openaiService.js:111-115 | an array gives the same-length, same-order trimmed strings; a string gives (commas + 1) trimmed pieces; anything else gives `[]`; every element is trimmed |
| ResponseExtractor.TechStackListOrString | backend/services/openaiService.js:111-115 | a list of comma-free names and the same names joined by "," normalise alike |
| ResponseExtractor.SplitSpacedStep | backend/services/openaiService.js:114 | splitting a comma-free piece followed by ", " and a tail gives the piece, then the tail's pieces with a space before the first |
| ResponseExtractor.SplitSpacedJoin | backend/services/openaiService.js:114 | splitting names joined by ", " gives the names, each but the first after a space |
| ResponseExtractor.TrimSpaced | backend/services/openaiService.js:114 | trimming those pieces gives the names back |
| ResponseExtractor.TechStackCommaSpace | backend/services/openaiService.js:114 | `"Go, Rust, C++"` normalises to `["Go", "Rust", "C++"]`, for any trimmed comma-free names |
| ResponseExtractor.NormalizeMermaid | backend/services/openaiService.js:116 | the trimmed string of truthy mermaid, else "" |
| ResponseExtractor.Normalize | backend/services/openaiService.js:108-117 | a null or undefined payload throws; otherwise title, problem, tech stack and mermaid are each the normalisation of that property of the payload |
| ResponseExtractor.EmptyPayloadDefaults | backend/services/openaiService.js:108-117 | `{}` normalises to the default title, the conversation prefix, `[]` and "" |
| ResponseExtractor.NoSpanMeansNoJsonOutput | backend/services/openaiService.js:79-91 | extraction fails with "did not contain JSON output" iff the sliced reply has no `{` before a `}` |
| ResponseExtractor.PercentFreeHasNoMarker | backend/services/openaiService.js:72-74 | a text without `%` contains neither marker |
| ResponseExtractor.BarePayload | backend/services/openaiService.js:74-90 | a payload that does not carry both markers passes slicing and the candidate step unchanged |
| ResponseExtractor.SpanOfProse | backend/services/openaiService.js:79 | the span of a payload between brace-free prose is the payload |
| ResponseExtractor.ProseIsIgnored | backend/services/openaiService.js:72-119 | a payload with a `{`-free text before and a `}`-free text after it, the whole not carrying both markers, extracts exactly as the bare payload |
| ResponseExtractor.FencedPayloadIsBare | backend/services/openaiService.js:72-119 | a payload that does not carry both markers, inside ```` ```json ```` fences, extracts exactly as the bare payload |
| ResponseExtractor.MarkedPayloadIsBare | backend/services/openaiService.js:72-119 | a payload holding neither marker, between the first start marker and an end marker, extracts exactly as the bare payload, whatever follows the end marker |
| ResponseExtractor.MarkedSpan | backend/services/openaiService.js:72-90 | the brace span of the marker slice of such a reply is the payload, whatever follows the end marker |
| ResponseExtractor.CutMarkedSlice | backend/services/openaiService.js:75-79 | when a start marker begins inside the end marker, the slice is cut short there, yet its brace span is still the payload |
| ResponseExtractor.CutInsideEnd | backend/services/openaiService.js:75 | the text up to a start pattern beginning inside the end pattern holds no end pattern, and its trimmed brace span is the payload |
| ResponseExtractor.SpanOfTrimmedTail | backend/services/openaiService.js:75-79 | a payload followed by `}`-free text, trimmed, has the payload as its brace span |
| ResponseExtractor.InfixContains | backend/services/openaiService.js:74 | a marker in the payload is a marker in the reply around it |
| ResponseExtractor.NoMarkerStartsInPayload | backend/services/openaiService.js:74-75 | no marker begins inside a marker-free payload ending in `}`, whatever follows it |
| ResponseExtractor.MarkerFreeAround | backend/services/openaiService.js:74 | a marker-free payload stays marker-free between texts without `%` |
| ResponseExtractor.NoStartBeforeRest | backend/services/openaiService.js:75 | no start marker begins inside the payload or inside the end marker behind it |
| ResponseExtractor.FirstBehindPayload | backend/services/openaiService.js:75 | the first end marker behind a payload free of it is the one right after it |
| ResponseExtractor.FirstAtEnd | backend/services/openaiService.js:75 | a pattern appended to a text in which none begins is its first occurrence |
| ResponseExtractor.AfterFirstBehind | backend/services/openaiService.js:75 | behind a first separator at a known place, `split(sep)[1]` is the rest up to the next separator |
| ResponseExtractor.BeforeFirstBehind | backend/services/openaiService.js:75 | `split(sep)[0]` is what precedes a first separator at a known place |
| ResponseExtractor.BeforeFirstPrefix | backend/services/openaiService.js:75 | `split(sep)[0]` keeps every character before the first place a separator begins |
| ResponseExtractor.ExtractArchitecture | backend/services/openaiService.js:72-119 | the composed pipeline; `NoSpanMeansNoJsonOutput` states exactly when it fails with NoJsonOutput, and `ProseIsIgnored`, `FencedPayloadIsBare` and `MarkedPayloadIsBare` prove prose, fences and markers around a payload change nothing; each step has its own row |
| ResponseExtractor.SliceMarkers | backend/services/openaiService.js:72-76 | the marker step; `SliceMarkersSpec` says when it slices and what the result excludes, `MarkedSlice` that a marked payload comes out whole |
| ResponseExtractor.Candidate | backend/services/openaiService.js:79-91 | the brace span with its fence retry; `CandidateSpec` proves failure iff no span (always NoJsonOutput) and otherwise the first span |
| ResponseExtractor.RemoveJsonFence | backend/services/openaiService.js:82 | `replace(/```json\s*/i, "")`; `FirstJsonFence` fixes which tag goes and `RemoveJsonFenceErases` that only fence characters are deleted |
| ResponseExtractor.RemoveBacktickFences | backend/services/openaiService.js:82 | `replace(/```/g, "")`; `RemoveBacktickFencesErases` proves it deletes only backticks |
| ResponseExtractor.StripFences | backend/services/openaiService.js:82 | the fence fallback's text; `StripFencesErasesFenceChars` and `StripFencesKeepsSpan` prove it deletes no brace and finds a span iff one was there |
| ResponseExtractor.RepairClose | backend/services/openaiService.js:100 | one `replace(/,\s*<close>/g, …)` pass; `RepairCloseErases`, `RepairCloseIdentity`, `RepairCloseDropsComma` and `RepairCloseKeepsOther` specify it |
| ResponseExtractor.RepairTrailingCommas | backend/services/openaiService.js:100 | the two passes; `RepairErasesCommasAndSpace`, `RepairWithoutComma` and `RepairDropsTrailingComma` specify it |
| PdfController.FilenameCharNotSpace | backend/controllers/pdfController.js:26 | the only whitespace in `[a-z0-9_\- ]` is the blank |
| PdfController.TrimKeepsFilenameChars | backend/controllers/pdfController.js:26 | trimming keeps a text inside the class |
| PdfController.SanitizeFilename | backend/controllers/pdfController.js:26 | at most 150 characters, all in `[A-Za-z0-9_\- ]`, never starting with a space |
| PdfController.SanitizeKeepsCleanName | backend/controllers/pdfController.js:26 | a name of at most 150 allowed characters with no space at either end is returned unchanged |
| PdfController.SanitizeTwice | backend/controllers/pdfController.js:26 | sanitising twice only drops trailing spaces of the first result |
| PdfController.CutMayLeaveTrailingSpace | backend/controllers/pdfController.js:26 | the cut after the trim can leave a name that ends in a space |
| PdfController.HandleExport | backend/controllers/pdfController.js:3-23 | 400 iff title, problem or svg is falsy, and then the generator is not called; otherwise the generator gets the four fields, and on its success the attachment is `sanitizeFilename(title) + ".pdf"` |
| PdfController.AttachmentNameShape | backend/controllers/pdfController.js:15 | the attachment name is at most 154 characters of the class, ending in ".pdf" |
| DownloadName.DownloadFilename | frontend/src/hooks/useChatManager.js:186 | the first 120 characters of the title, each kept when in `[\w\s\-]` and `_` otherwise, then ".pdf" |
| DownloadName.DownloadKeepsCleanTitle | frontend/src/App.jsx:218 | a title of at most 120 characters of the class is kept whole |
| Lists.WithoutKey | frontend/src/hooks/useChatManager.js:62 | `filter` keeps exactly the records of other ids |
| Lists.WithoutKeyConcat | frontend/src/hooks/useChatManager.js:62 | filtering keeps the order: it distributes over concatenation |
| Lists.WithoutAbsentKey | frontend/src/App.jsx:79 | a list without that id is left as it is |
| Lists.WithoutKeyCount | frontend/src/hooks/useChatManager.js:62 | exactly the records with that id are removed |
| Lists.FilterKeepsOtherKey | frontend/src/App.jsx:79 | filtering one id keeps every record of another |
| Lists.MapWhereKey | frontend/src/hooks/useChatManager.js:59 | `map` by id keeps length and order and changes only records of that id |
| Lists.IndexWhere | frontend/src/hooks/useChatManager.js:115 | the first index that satisfies the predicate, or None when none does |
| Lists.LastIndexWhere | frontend/src/hooks/useChatManager.js:176 | the last index that satisfies the predicate, or None when none does |
| Lists.LastIndexSnoc | frontend/src/hooks/useChatManager.js:176 | appending a record does not change the last match below the old length |
| ChatManager.FindChat | frontend/src/hooks/useChatManager.js:115 | None iff no chat has that id; otherwise the first chat with that id |
| ChatManager.NewChat | frontend/src/hooks/useChatManager.js:44-51 | the given id, the title or "Untitled n+1", null generated title and problem, `[]` tech stack, no messages; the title is truthy |
| ChatManager.EmptyPatchIsIdentity | frontend/src/hooks/useChatManager.js:67 | spreading an empty patch leaves a chat as it is |
| ChatManager.Patched | frontend/src/hooks/useChatManager.js:67 | `{ ...c, ...partial }`: each field from the patch when it has one, else from the chat; `EmptyPatchIsIdentity` and `UpdateChat`'s contract use it |
| ChatManager.WithMessage | frontend/src/hooks/useChatManager.js:69-71 | the updater of `appendMessage`; the contracts of `AppendMessage`, `BeginSend` and `AfterReply` state what it adds |
| ChatManager.UserMessage | frontend/src/hooks/useChatManager.js:112 | `userMsg`; `BeginSend`'s contract states that exactly this message is appended |
| ChatManager.ReplyMessage | frontend/src/hooks/useChatManager.js:137-143 | an assistant message carrying the mermaid and svg, or the failure text without them |
| ChatManager.AfterReply | frontend/src/hooks/useChatManager.js:146-161 | on success the generated fields are replaced, the tech stack only by an array, else `[]`; in every case exactly one assistant message is appended |
| ChatManager.ReplyKeepsTechStackArray | frontend/src/hooks/useChatManager.js:153 | after a successful send the generated tech stack is an array |
| ChatManager.ActiveAfterDelete | frontend/src/hooks/useChatManager.js:63 | an inactive id leaves the selection; deleting the active one selects the first chat of the list from before the deletion, or none |
| ChatManager.DeleteActiveSelection | frontend/src/hooks/useChatManager.js:61-64 | after deleting the active chat, the selection names a remaining chat (or none) iff the deleted chat was not first in the list |
| ChatManager.MessageLine | frontend/src/hooks/useChatManager.js:89-98 | the line of one message; `SkippedMessage` and `MessageLinesStep` say which messages add one |
| ChatManager.MessageLines | frontend/src/hooks/useChatManager.js:89-98 | the lines of a message list; `MessageLinesConcat` and `MessageLinesStep` specify it, and the loop of `BuildConversationTextForChat` is proved against it |
| ChatManager.HeaderLines | frontend/src/hooks/useChatManager.js:80-86 | the context lines; `BuildConversationTextForChat` is proved against it |
| ChatManager.TranscriptLines | frontend/src/hooks/useChatManager.js:76-103 | all transcript lines; `BuildConversationTextForChat` and `TranscriptEndsWithLatest` state the joined text with it |
| ChatManager.MessageLinesConcat | frontend/src/hooks/useChatManager.js:89-98 | the transcript lines of a message list are those of its parts, in order |
| ChatManager.SkippedMessage | frontend/src/hooks/useChatManager.js:92-97 | an assistant message without mermaid, or another role, adds no line |
| ChatManager.MessageLinesStep | frontend/src/hooks/useChatManager.js:89-98 | one more message adds its own line, if any, at the end |
| ChatManager.TranscriptEndsWithLatest | frontend/src/hooks/useChatManager.js:101-103 | the transcript ends with `User: ` and the latest text, after "\n\n" unless it is the only line |
| ChatManager.BuildConversationTextForChat | frontend/src/hooks/useChatManager.js:76-104 | the text is the "\n\n"-join of `Existing Title:` and `Existing Problem:` when present, one line per user message and per assistant message with mermaid, then `User: ` and the latest text |
| ChatManager.FirstUserText | frontend/src/hooks/useChatManager.js:173 | the text of the first user message, or undefined without one |
| ChatManager.LatestSvg | frontend/src/hooks/useChatManager.js:176-177 | the svg of the last assistant message that has one, or None iff there is none |
| ChatManager.ExportFilename | frontend/src/hooks/useChatManager.js:186 | the download name of `title \|\| "diagram"`, or None where that is not a string |
| ChatManager.ExportFor | frontend/src/hooks/useChatManager.js:172-186 | no request iff no assistant message has an svg; otherwise title generatedTitle → title → "Architecture Diagram", problem generatedProblem → first user text → "", tech stack or `[]`, the latest svg, and the download name |
| ChatManager.ExportFilenameUsesTitle | frontend/src/hooks/useChatManager.js:172-186 | the "diagram" fallback is never used: a string title names the download |
| ChatManager.ExportMeetsBackendGuard | frontend/src/hooks/useChatManager.js:181 | a posted request is refused with 400 iff its problem is falsy |
| ChatManager.ExportAfterReply | frontend/src/hooks/useChatManager.js:137-158 | after a successful send with an svg, export posts that svg |
| ChatManager.ChatManager.constructor | frontend/src/hooks/useChatManager.js:23-25 | no chats, no active chat, not loading |
| ChatManager.ChatManager.CreateChat | frontend/src/hooks/useChatManager.js:42-54 | the new chat is prepended to the unchanged old list and becomes active |
| ChatManager.ChatManager.RenameChat | frontend/src/hooks/useChatManager.js:58-59 | only chats with that id get the new title; length, order and the other chats are unchanged |
| ChatManager.ChatManager.DeleteChat | frontend/src/hooks/useChatManager.js:61-64 | exactly the chats with that id go, in order; the selection moves as `ActiveAfterDelete` says and stays valid when another chat was active |
| ChatManager.ChatManager.UpdateChat | frontend/src/hooks/useChatManager.js:66-67 | only chats with that id get the patch spread over them; nothing else changes |
| ChatManager.ChatManager.AppendMessage | frontend/src/hooks/useChatManager.js:69-71 | the message is added at the end of the chats with that id; nothing else changes |
| ChatManager.ChatManager.BeginSend | frontend/src/hooks/useChatManager.js:107-122 | no effect for an empty id or text or during a send; otherwise the user message is appended, and the conversation is built from the chat as found before, or the flag is cleared when it was not found |
| ChatManager.ChatManager.FinishSend | frontend/src/hooks/useChatManager.js:124-164 | the chats with that id get the reply and the flag is cleared on every path |
| ChatManager.ChatManager.ExportPdf | frontend/src/hooks/useChatManager.js:168-178 | "no chat" iff no chat has the id; otherwise the export step of the first such chat |
| ChatManager.SendWhileLoadingExample | frontend/src/hooks/useChatManager.js:109 | a send that arrives during a send changes nothing |
| AppState.ConversationLine | frontend/src/App.jsx:99-108 | the line of one row; `OtherRoleSkipped`, `MermaidBeatsContent` and `ConversationLinesStep` say what each row adds |
| AppState.ConversationLines | frontend/src/App.jsx:99-110 | the lines of a row list; `ConversationLinesConcat` specifies it and `BuildConversation` is proved against it |
| AppState.ConversationLinesConcat | frontend/src/App.jsx:99-108 | the conversation lines of a row list are those of its parts, in order |
| AppState.ConversationLinesStep | frontend/src/App.jsx:99-108 | one more row adds its own line, if any, at the end |
| AppState.OtherRoleSkipped | frontend/src/App.jsx:99-108 | rows of another role add no line |
| AppState.MermaidBeatsContent | frontend/src/App.jsx:102-106 | an assistant row with mermaid is represented by its mermaid, whatever its content |
| AppState.BuildConversation | frontend/src/App.jsx:96-111 | the text is the "\n\n"-join of `User: content`, `Assistant previous_mermaid:\n…` or else `Assistant: content` per row, then `User: ` and the new text |
| AppState.ConversationEndsWithNewText | frontend/src/App.jsx:109-110 | the conversation ends with `User: ` and the new text, after "\n\n" unless it is the only line |
| AppState.StoredTextRepeated | frontend/src/App.jsx:133-141 | rows refetched after storing the user row repeat the new text at the end |
| AppState.AssistantContent | frontend/src/App.jsx:156 | `problem \|\| title \|\| "Generated result"`, always truthy |
| AppState.StoredTechStack | frontend/src/App.jsx:179 | an array is kept, another truthy value becomes a one-element list, a falsy one `[]` |
| AppState.StoredTechStackIdempotent | frontend/src/App.jsx:179 | normalising a stored tech stack again changes nothing |
| AppState.FindRow | frontend/src/App.jsx:197 | None iff no chat row has that id; otherwise the first such row |
| AppState.LatestSvg | frontend/src/App.jsx:199-200 | the svg of the last row of any role that has one, or None iff there is none |
| AppState.ExportFor | frontend/src/App.jsx:199-218 | no request iff no row has an svg; otherwise title generated_title → title, problem generated_problem → title, tech stack or `[]`, the latest svg, and the download name where the title is a string |
| AppState.ExportRefusedWithoutTitles | frontend/src/App.jsx:206-207 | without a chat title, the backend refuses the request iff the generated title or problem is missing |
| AppState.AppState.constructor | frontend/src/App.jsx:9-11 | no chats, no active chat, no messages |
| AppState.AppState.CreateChat | frontend/src/App.jsx:60-73 | on insert error nothing changes; otherwise the row is prepended, made active, and the messages emptied |
| AppState.AppState.DeleteChat | frontend/src/App.jsx:75-84 | the rows go whatever the remote answered; the selection and messages are cleared iff the deleted chat was active |
| AppState.AppState.RenameChat | frontend/src/App.jsx:86-93 | only after a successful remote update, only rows with that id get the new title |
| AppState.AppState.StoreUserMessage | frontend/src/App.jsx:114-130 | proceeds iff there is a chat id and the row was stored; then the row is appended to the messages |
| AppState.AppState.ExportPdf | frontend/src/App.jsx:196-200 | "no chat" iff no row has the id; otherwise the export step of the first such row |
| Text.TrimStart | backend/services/openaiService.js:82 | drops only leading whitespace and stops at a non-space character |
| Text.TrimEnd | backend/services/openaiService.js:82 | drops only trailing whitespace and stops at a non-space character |
| Text.Trim | backend/services/openaiService.js:75 | the result has no surrounding whitespace |
| Text.TrimIsInfix | backend/services/openaiService.js:75 | `trim` keeps an infix with only whitespace around it |
| Text.TrimEndStopsEarly | backend/services/openaiService.js:75 | `trimEnd` keeps all of a text that ends in a non-space character, and trims only what follows |
| Text.TrimSpacePrefix | backend/services/openaiService.js:112 | whitespace before a text does not survive `trim` |
| Text.IndexOf | backend/services/openaiService.js:74 | the first occurrence at or after `from`, or None when there is none |
| Text.Contains | backend/services/openaiService.js:74 | `includes`: an occurrence at some index; `IndexOfFindsContained` ties it to `indexOf` |
| Text.IndexOfFindsContained | backend/services/openaiService.js:74 | `includes` implies the search succeeds |
| Text.StartsAtPrefix | backend/services/openaiService.js:75 | an occurrence ending within `x` is one in `x + y` and back |
| Text.StartsAtShift | backend/services/openaiService.js:75 | an occurrence at or after `\|x\|` in `x + y` is one in `y`, shifted, and back |
| Text.IndexOfAt | backend/services/openaiService.js:75 | an occurrence with none before it from `from` on is what `indexOf` finds |
| Text.IndexOfExtends | backend/services/openaiService.js:75 | appending text does not move a first occurrence |
| Text.OccurrenceInInfix | backend/services/openaiService.js:75 | an occurrence in an infix is an occurrence in the whole text |
| Text.OccurrenceInSuffix | backend/services/openaiService.js:75 | an occurrence at or after an offset is one in the suffix from that offset |
| Text.OccurrenceHead | backend/services/openaiService.js:75 | an occurrence starts with the pattern's first character |
| Text.FreeConcat | backend/services/openaiService.js:75 | a pattern-free text stays so after a prefix without its first character |
| Text.InfixKeepsFree | backend/services/openaiService.js:75 | an infix of a pattern-free text is pattern-free |
| Text.Join | frontend/src/hooks/useChatManager.js:103 | `xs.join(sep)`; `JoinSnoc`, `SplitJoin` and `JoinSplit` specify it |
| Text.JoinSnoc | frontend/src/hooks/useChatManager.js:103 | joining a list that ends in `x` ends in `x`, after the separator unless `x` is alone |
| Text.Split | backend/services/openaiService.js:114 | (separators + 1) pieces, none holding the separator |
| Text.SplitFirst | backend/services/openaiService.js:114 | splitting at the first separator |
| Text.SplitNone | backend/services/openaiService.js:114 | a text without the separator is one piece |
| Text.SplitJoin | backend/services/openaiService.js:114 | `split` undoes `join` when no piece holds the separator |
| Text.JoinSplit | backend/services/openaiService.js:114 | `join` undoes `split` with the same separator |
| Text.ErasesSpace | backend/services/openaiService.js:82 | `trim` deletes whitespace only |
| Text.ReplaceUnless | backend/controllers/pdfController.js:26 | the per-character class replacement keeps the length, keeps allowed characters in place and puts `_` elsewhere |
| Text.DecimalString | frontend/src/hooks/useChatManager.js:46 | the number in `Untitled ${chats.length + 1}`: a non-empty string of decimal digits that starts with `0` iff the number is 0 |
| Text.DecimalStringValue | frontend/src/hooks/useChatManager.js:46 | the digits read back to the number |
| Text.Take | backend/services/openaiService.js:110 | `slice(0, n)` is the prefix of length min(n, length) |
| JsValue.Or | frontend/src/hooks/useChatManager.js:172 | `a \|\| b` is `a` when truthy, else `b`; truthy iff either is |
| JsValue.Truthy | backend/services/openaiService.js:109 | the language's falsy values `undefined`, `null`, `false`, `0`, `NaN` and `""`; the contracts of `Or` and of the normalisers are stated with it |
| JsValue.ToJsString | backend/services/openaiService.js:109 | `String(v)`; `TrimmedString` and the transcript builders' contracts are stated with it |
| JsValue.Get | backend/services/openaiService.js:109-116 | a property read on a non-nullish value, `undefined` when missing; `Normalize` and `EmptyPayloadDefaults` are stated with it |

## Left out

- The OpenAI client, the prompts and the completion unpacking
  (`openaiService.js:1-69`) are a network call. The raw reply text is the input.
- `JSON.parse` is a parameter, not a model of the JSON grammar. Nothing is
  proved about which texts parse.
- The mermaid rendering service (`mermaidService.js`), with its headless
  browser and a library loaded from a CDN, is a foreign runtime. A send's
  rendered svg, or its failure, is part of its outcome parameter.
- Supabase, axios and `localStorage` (`useChatManager.js:27-40`) are I/O.
  Their results are parameters, and the hook's persisted list is not modelled.
- The Blob/URL/DOM download code and `alert`/`console` are I/O.
  `exportPdf` ends in the request it posts and the name it would give the download.
- `makeId` (`useChatManager.js:18-20`) and `Date.now` are randomness and a clock.
  Fresh ids and timestamps are parameters.
- `selectChat` and `activeChat` of the hook are a plain assignment and a `find`
  (the same `FindChat`). `App.jsx`'s `loadChats`, `fetchMessagesForChat` and
  `selectChat` only copy remote results into state.
- `App.jsx` `sendMessage` after the stored user row is left out except for
  its normalisations at lines 156 and 179: the refetch, the assistant insert,
  the metadata update and the reload are remote calls followed by copies.
- `ChatManager.ChatManager.FinishSend`: a payload whose destructuring throws
  (a `null` response body) is folded into `SendFailed`, like any other error
  of the two requests.
- PDF generation (`utils/pdfGenerator`) is not part of this model, nor are the
  response headers other than the filename. `Content-Length` and the PDF bytes
  are left out; the generator's success is a parameter.
- `backend/app.js`, the routes, the thin AI and mermaid controllers,
  `fileStorage.js` and the UI components are wiring, I/O or rendering.
- Strings are sequences of code points, not UTF-16 code units. A character
  outside the Basic Multilingual Plane counts once here but twice in the
  code. This affects `slice(0, 150)` (`pdfController.js:26`), `slice(0, 600)`
  (`openaiService.js:110`) and `slice(0, 120)` (`useChatManager.js:186`,
  `App.jsx:218`). It also affects the replacements at `pdfController.js:26`,
  `useChatManager.js:186` and `App.jsx:218`. Their regular expressions have
  no `u` flag, so each turns such a character into `__`, one `_` per code
  unit, where the model writes a single `_`.
- AppState.AppState.CreateChat: one atomic step here, while `App.jsx:60-72`
  awaits the insert before updating. Events handled during the wait are not
  interleaved.
- AppState.AppState.DeleteChat: one atomic step here, while `App.jsx:77-83`
  awaits the delete before updating. The selection test compares with the
  `activeChatId` captured when the call began, so a chat selected while the
  request is pending is not seen.
- AppState.AppState.RenameChat: one atomic step here, while `App.jsx:87-92`
  awaits the update before renaming. Events handled during the wait are not
  interleaved.
- `JsValue.ToJsString`: a number is carried as the text `String(n)` renders,
  and an object renders as `[object Object]`. A custom `toString` is ignored.
