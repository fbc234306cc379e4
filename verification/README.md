# PrePlay core in Dafny

PrePlay is a rehearsal tool. A user trains a pitch against a "red" critic persona and a "blue" coach persona, then gets a report. This project models the deterministic core behind that loop, as pure functions over immutable data:

- **Transcript store** (`database.dfy`, module `Database`). Three tables: sessions, messages and knowledge files. Each is a sequence in insertion order. There are AUTOINCREMENT counters and the schema's key constraints as a `Valid` invariant. Every `DatabaseManager` operation is a function from store to store and result.
- **Session helpers** (`session_service.dfy`). `create_session` with its single retry. The read-modify-write append of a knowledge-file id.
- **Chat history** (`chat_manager.dfy`). The page's in-memory history as a plain sequence. Red's and blue's contexts and the last message to red are filters over it.
- **Report prompt** (`report_service.dfy`). The stats block, the per-message lines and their join.
- **Blue coach client** (`blue_assistant.dfy`). The request frame. The per-frame handler folded over the finite sequence of frames the server sends. `chat`'s reset of the answer but not of the sid. The signed connection URL.
- **Knowledge-base client** (`knowledge_service.dfy`). The MD5/HMAC-SHA1 signature and the headers. The normalisation of file ids for delete and search. The search body and the search stream fold. The mapping of upload/delete/list replies to results.
- **Home page logic** (`app.dfy`). Upload validation. The upload loop with its skip and dedupe rules. The training-history records.
- **File parsing** (`file_handler.dfy`). Dispatch on the extension. The newline-terminated concatenation of pages and paragraphs.

Shared modules:
- `Wrappers`: `Option` and `Result`.
- `Seqs`: list comprehensions as `Filter`, counting, `"".join`, reversal, first match.
- `Text`: Python's `str.split`, `str.join`, ASCII `str.lower`, clamped slices, `str(n)`.
- `Sorting`: an `ORDER BY` on text keys under SQLite's BINARY collation.

Clocks, uuids, hashes, base64, URL quoting, UTF-8 and the PDF/DOCX readers are function parameters. Network replies and stream frames are given as data.

### Where the model follows the code rather than the written design

- **Errors mid-stream.** The design says an error frame mid-stream discards the partial answer. The blue handler (`services/blue_assistant.py:109-113`) only closes the socket, and `chat` returns the text gathered so far (`services/blue_assistant.py:180`). `BlueAssistant.ErrorKeepsEarlierText` states the code's behaviour.
- **Deleting a session.** The design says it removes its messages by cascade. The connection never enables foreign keys, so the messages stay. This is modelled as written and logged under Findings.
- **Adding a message to an unknown session.** `add_message` succeeds for a session id that does not exist, for the same reason.
- **Stats with a NULL source.** `get_session_stats` raises `TypeError` on an assistant row whose `source` is NULL (`"红" in None`). `Database.GetSessionStats` returns `None` in that case.
- **Prompt with a missing role.** `_build_prompt` indexes `m["role"]` while counting, before the `.get("role", "user")` default is reached. So a message without a role raises `KeyError`, and `ReportService.BuildPrompt` returns `None` then.

## Model

| member | source | states |
|---|---|---|
| Database.GetSession | database.py:162-183 | Finds a row exactly when a session with that id exists, and the row found carries that id |
| Database.CreateSession | database.py:101-123 | Succeeds iff the id is new. The new row has no sids, no file ids, and both timestamps equal to the clock. Every other session is unchanged. On a duplicate id the store is unchanged. The key invariant is preserved |
| Database.UpdateSessionSids | database.py:125-160 | With both sids falsy (None or ""), returns false and changes nothing. Otherwise returns true iff the session exists. The new row is the old one with only the truthy sids overwritten and updated_at set to the clock. An unknown id leaves the store unchanged, and other sessions are left alone |
| Database.ListSessions | database.py:185-203 | Returns min(limit, count) rows, or all rows for a negative LIMIT. The result is a sub-multiset of the table, so no row is duplicated or invented, and it is the whole table when the limit does not cut. Rows are ordered by created_at descending, and no omitted row is newer than a returned one |
| Database.UpdateSessionKnowledgeFileIds | database.py:205-231 | Returns true iff the session exists. The new row is the old one with the encoded list and the clock as update time. An unknown id leaves the store unchanged, and other sessions are left alone |
| Database.GetSessionKnowledgeFileIds | database.py:233-257 | Returns [] for an unknown session and for a NULL, empty or undecodable stored value |
| Database.KnowledgeFileIdsRoundTrip | database.py:220-254 | Storing a list of ids for an existing session and reading it back gives the same list |
| Database.AddMessage | database.py:263-294 | Appends exactly one message with the given fields. Its timestamp is the supplied one if present, else the clock. Its id is greater than every id issued before |
| Database.GetMessages | database.py:296-319 | Returns a permutation of the session's messages, with the same multiset as filtering the table by session, in non-decreasing timestamp order |
| Database.AddMessageTranscript | database.py:263-319 | After add_message, the session's transcript has one more message, carrying the returned id. Other sessions' transcripts are unchanged |
| Database.GetMessagesForReport | database.py:321-343 | Same length and order as get_messages, role/content/timestamp copied, and a NULL source becomes "" |
| Database.DeleteSession | database.py:345-360 | Returns true iff the session existed. Afterwards it is gone, other sessions are unchanged, and the messages and files tables are untouched |
| Database.DeleteSessionLeavesMessages | database.py:345-360 | A concrete store where the deleted session's message is still returned by get_messages |
| Database.DeleteKeepsMessages | database.py:345-360 | For any store, deleting a session leaves get_messages for that id as it was |
| Database.DeleteSessionCascading | database.py:345-360 | The declared intent: the session and all its messages are removed, and every other session and transcript is kept |
| Database.Tally | database.py:498-515 | Sums per-message counts. When defined, total is the number of rows, user + assistant <= total and red + blue <= assistant |
| Database.TallyIsCounts | database.py:498-513 | The tally is None iff some assistant row has a NULL source. Otherwise the counts are: user by role "user", assistant by role "assistant", red for assistant rows whose source contains 红, blue for those containing 蓝 but not 红 |
| Database.GetSessionStats | database.py:471-515 | Total equals the number of that session's messages, with user + assistant <= total and red + blue <= assistant |
| Database.ExampleTally | database.py:498-515 | Two questions and two replies, one red and one blue, count as total 4, user 2, assistant 2, red 1, blue 1 |
| Database.StatsExample | database.py:471-515 | get_session_stats on that transcript gives the same five counts |
| Database.GetKnowledgeFileById | database.py:444-465 | Finds a row exactly when that file_id is stored, and the row carries that file_id |
| Database.AddKnowledgeFile | database.py:366-391 | A duplicate file_id is rejected, per the UNIQUE constraint at database.py:62. Otherwise the new row is found by its id with the given fields and a row id above all earlier ones, other lookups are unchanged, and the invariant is preserved |
| Database.GetKnowledgeFiles | database.py:393-411 | A permutation of the table, ordered by uploaded_at descending |
| Database.DeleteKnowledgeFile | database.py:413-428 | Returns true iff the file_id existed. Afterwards it is absent and exactly the other rows remain |
| Database.DeleteAllKnowledgeFiles | database.py:430-442 | Returns true, and every lookup and the listing are empty. The row-id counter is not reset |
| SessionService.CreateSession | services/session_service.py:24-39 | The id is "session_" plus 12 hex digits. A fresh first candidate is inserted and returned. On a collision the second candidate is returned whatever its insert did |
| SessionService.CreateSessionSecondCollision | services/session_service.py:34-39 | When both candidates collide, the store is unchanged and the second id is still returned |
| SessionService.KnowledgeFileIdsRoundTrip | services/session_service.py:147-170 | The service's update then get of a session's file ids round-trips the list |
| SessionService.AddKnowledgeFileId | services/session_service.py:172-187 | An id already present gives true and no change. A new id is appended at the end, with true, iff the session exists. An unknown session gives false and no change |
| SessionService.AddKnowledgeFileIdKeepsSet | services/session_service.py:183-187 | A duplicate-free id list stays duplicate-free, and the id ends up in it iff the session exists |
| ChatManager.AddMessage | utils/chat_manager.py:9-18 | Appends exactly one message with the given role, content, target and clock stamp, and returns it. Earlier entries are unchanged |
| ChatManager.RedContext | utils/chat_manager.py:21-29 | Only user messages targeted at red or untargeted, and no more of them than there are user messages |
| ChatManager.RedContextIsOnePass | utils/chat_manager.py:21-29 | The two list comprehensions equal one filter on "user and (target red or absent)". The order is kept and every such message is included |
| ChatManager.RedContextAfterAdd | utils/chat_manager.py:9-29 | Adding a message extends red's context by it exactly when it is a user message targeted at red or untargeted |
| ChatManager.BlueContext | utils/chat_manager.py:32-34 | Blue sees the full history unchanged |
| ChatManager.RedContextWithinBlueContext | utils/chat_manager.py:21-34 | Red's context is an ordered subsequence of blue's |
| ChatManager.LastUserMessageToRed | utils/chat_manager.py:37-43 | None iff no user message targets exactly "red". Otherwise the returned message is such a message with none after it |
| ChatManager.ClearChatHistory | utils/chat_manager.py:46-49 | Empty history and round 0, so red's context is empty and there is no last message to red |
| ReportService.RoleLabel | services/report_service.py:107-108 | "user" or a missing role gives 你, "assistant" gives AI回复, and any other role, including null, gives AI |
| ReportService.Label | services/report_service.py:107-111 | A non-empty source turns the label into label(source). An empty, null or missing source leaves it unchanged |
| ReportService.Lines | services/report_service.py:105-114 | One formatted line per message, in conversation order |
| ReportService.ConversationTextConcat | services/report_service.py:116 | An empty conversation gives "", one message gives its line, and two non-empty parts are joined by a blank line |
| ReportService.BuildPrompt | services/report_service.py:93-126 | None iff some message lacks a role (the KeyError). Otherwise the prompt is the fixed head, the conversation text, the stats block with total/user/assistant counts, and the fixed tail |
| ReportService.PromptCounts | services/report_service.py:95-97 | The user and assistant counts add up to at most the total |
| ReportService.StoredTranscriptBuildsPrompt | services/report_service.py:93-126 | Rows from get_messages_for_report always produce a prompt, whose total equals the session's message count |
| BlueAssistant.GenParams | services/blue_assistant.py:76-103 | The messages are the history when present, then the question as the last user turn. The uid is user123, the domain generalv3.5, max_tokens 2048 and top_k 5 |
| BlueAssistant.OnMessage | services/blue_assistant.py:105-126 | A nonzero code only closes the stream. Otherwise the content is appended, a carried sid replaces the old one, and status 2 closes |
| BlueAssistant.RunIsReference | services/blue_assistant.py:105-126 | Folding the handler over the frames equals a reference description. It appends the successful frames' contents up to and including the first stopping frame, keeps the last sid they carry, and is closed iff some frame stops |
| BlueAssistant.Chat | services/blue_assistant.py:145-180 | The returned pair is exactly the client's answer and sid after the call |
| BlueAssistant.ChatIsReference | services/blue_assistant.py:145-180 | chat returns the reference answer, starting from "", and the reference sid, starting from the client's previous sid |
| BlueAssistant.ChatResetsAnswerNotSid | services/blue_assistant.py:164-180 | The previous answer has no influence. With no frame carrying a sid, the previous sid is returned |
| BlueAssistant.NoSidKeepsDefault | services/blue_assistant.py:115-116 | Without sids in the frames the sid stays at its starting value |
| BlueAssistant.ErrorKeepsEarlierText | services/blue_assistant.py:109-113 | Text from successful frames before an error frame is returned, and nothing after the error is |
| BlueAssistant.HelloExample | services/blue_assistant.py:118-126 | Frames "Hel", "lo", "!" with the final status last yield "Hello!" |
| BlueAssistant.SignatureOriginInjective | services/blue_assistant.py:41-43 | The three-line origin determines host, date and path when host and date have no newline |
| BlueAssistant.CreateUrl | services/blue_assistant.py:37-60 | The URL is base + "?" + the query. The signature is HMAC-SHA256 over the origin under the secret, base64-encoded and wrapped in the authorization line. The query splits on & into authorization, date and host, in that order |
| KnowledgeService.Timestamp | services/knowledge_service.py:44-45 | The default timestamp consists of decimal digits only and reads back as the clock value |
| KnowledgeService.SignatureSeesConcatenation | services/knowledge_service.py:34-61 | Given a timestamp, get_signature ignores the clock and depends only on the secret and the concatenation app_id + timestamp, so equal concatenations sign equally |
| KnowledgeService.SignatureDefaultsToClock | services/knowledge_service.py:44-45 | Omitting the timestamp signs the clock's decimal timestamp, exactly as passing that timestamp would |
| KnowledgeService.Headers | services/knowledge_service.py:63-88 | appId, timestamp and signature are always present, with the signature over that same timestamp. Content-Type is present iff content_type is truthy. No other keys |
| KnowledgeService.HeadersAtClock | services/knowledge_service.py:74-83 | Without a timestamp, the header's timestamp reads back as the clock and the signature is the clock's signature |
| KnowledgeService.DeleteFileIdsValue | services/knowledge_service.py:180-183 | A scalar id is sent as is. A list is joined with ",": an empty list sends "" and a one-element list sends its id. A non-empty list of comma-free ids is sent as a string that splits back on "," to the list |
| KnowledgeService.SearchFileIds | services/knowledge_service.py:297-300 | A list is kept as is and a scalar is wrapped in a one-element list |
| KnowledgeService.DeleteAndSearchAgree | services/knowledge_service.py:180-185 | For a scalar id or a non-empty list of comma-free ids, the delete form value splits back into exactly the search form's id list |
| KnowledgeService.EmptyListDisagrees | services/knowledge_service.py:180-181 | For an empty list, delete sends "", which splits into one empty id, while search sends no ids |
| KnowledgeService.BuildSearchBody | services/knowledge_service.py:297-322 | The messages are the history reversed, then the question. The file ids are normalised and the prompt template is fixed |
| KnowledgeService.SearchMessagesOrder | services/knowledge_service.py:313-322 | The question comes last, and position i holds history[n-1-i] |
| KnowledgeService.SearchUrlQuery | services/knowledge_service.py:290-294 | The URL is ws_url + "?" + appId, timestamp and signature joined by &, and the query splits back into those three pairs |
| KnowledgeService.OnMessage | services/knowledge_service.py:327-343 | A code other than 0, including a missing one, only closes. Otherwise non-empty content is appended and status 2 closes |
| KnowledgeService.RunIsReference | services/knowledge_service.py:327-343 | Folding the handler equals appending the non-empty contents of the successful frames up to the first stopping frame, and is closed iff some frame stops |
| KnowledgeService.SearchAnswerIsReference | services/knowledge_service.py:325-368 | The answer is the concatenation of those contents |
| KnowledgeService.MissingCodeStops | services/knowledge_service.py:328-333 | A first frame without a code ends the search with an empty answer |
| KnowledgeService.MapReply | services/knowledge_service.py:137-158 | Success iff the reply's code is 0, carrying its payload and sid. Any other code gives failure with desc or the default plus the code. A request exception gives failure with its message |
| KnowledgeService.UploadResult | services/knowledge_service.py:106-158 | On success the file name is the given one or the path's basename, and the file id comes from data. On failure the error is desc or 上传失败 |
| KnowledgeService.DeleteResult | services/knowledge_service.py:164-210 | Success iff code 0, and failure reports desc or 删除失败 |
| KnowledgeService.ListResult | services/knowledge_service.py:216-270 | On success total defaults to 0 and files to [], including when data is absent. On failure the error is desc or 获取列表失败 |
| KnowledgeService.CallsAgreeOnSuccess | services/knowledge_service.py:139-153 | The three calls succeed on the same codes, and fall back to their own default messages otherwise |
| KnowledgeService.ListRequestBody | services/knowledge_service.py:234-242 | The page fields are always sent. fileName and extName are sent iff truthy, and then unchanged |
| Text.ExtensionAfterDot | app.py:82 | The extension of stem.ext is ext with its ASCII capitals lowered, whatever the stem holds |
| App.ValidateUploadedFile | app.py:62-89 | Too large iff size > 5 MiB, checked first. Otherwise unsupported iff the lowercased last dot-segment is neither txt nor docx. Accepted, with no error, iff neither |
| App.AcceptedIffExtension | app.py:73-89 | stem.ext is accepted iff its size is at most 5 MiB and ext lowercased is txt or docx |
| App.SmallTextAccepted | app.py:73-89 | notes.txt of 3 MiB is accepted |
| App.ExactlyFiveMiBAccepted | app.py:73-74 | A file of exactly 5·1024·1024 bytes passes the size check |
| App.OversizeRefusedFirst | app.py:73-79 | A 6 MiB file is refused for size whatever its name |
| App.PdfRefused | app.py:82-87 | deck.PDF is refused with extension pdf |
| App.UploadFileToKnowledge | app.py:92-114 | Success carries the returned file id and no error. A failed reply gives its error. An exception gives 网络错误： + message |
| App.ProcessUploads | app.py:328-377 | Each file is skipped if already processed or already in the knowledge base, else refused by validation, else uploaded. Processed names grow by exactly the added names, and the session's file ids by the returned ids in order |
| App.AddedOnce | app.py:331-374 | Within a batch no name is added twice, and no added name was processed before or present in the knowledge base |
| App.Record | app.py:131-147 | Title 训练- + the last 6 characters of the id. Date is the first 16 characters of created_at. Rounds, red and blue are the stats' user, red and blue counts |
| App.Records | app.py:125-147 | Defined iff every listed session's stats can be computed, in which case there is one record per session in order |
| App.TrainingHistory | app.py:117-152 | When every session of list_sessions(20) has statistics, one record per session in the same order, each built by Record from that row and its statistics. Otherwise, as in the except branch, []. Never more than 20 |
| App.TrainingHistoryNewestFirst | app.py:123-147 | Record dates are in non-increasing order, and each record's rounds equal its session's user count |
| FileHandler.Lines | utils/file_handler.py:21-24 | The text's length is the sum of the part lengths plus one newline per part |
| FileHandler.LinesIsJoin | utils/file_handler.py:21-24 | Each part followed by "\n" equals "\n".join of the parts plus a trailing empty part |
| FileHandler.LinesSplit | utils/file_handler.py:21-24 | Newline-free parts are recovered by splitting on "\n", followed by one "" |
| FileHandler.PdfText | utils/file_handler.py:9-15 | Fails exactly when the PDF reader raises. Otherwise the text's length is the page texts' total plus one per page |
| FileHandler.DocxText | utils/file_handler.py:18-24 | Fails exactly when the Word reader raises. Otherwise the text's length is the paragraphs' total plus one per paragraph |
| FileHandler.ParseUploadedFile | utils/file_handler.py:9-43 | pdf, docx, and txt/md are sent to their readers by the lowercased last dot-segment, and a reader's or the UTF-8 decoder's exception propagates. Any other extension fails with 不支持的文件类型: + ext |
| FileHandler.AcceptedUploadsParse | utils/file_handler.py:18-43 | A file the upload validation accepts is never refused for its extension. It fails exactly when the Word reader (for docx) or the UTF-8 decoder (for txt) raises on its content |
| FileHandler.DocxParagraphsRecovered | utils/file_handler.py:18-24 | When the Word reader succeeds, a .DOCX file's text splits back on "\n" into its newline-free paragraphs plus one "" |

## Left out

- The SQLite engine: connections, SQL text, `check_same_thread` and the ALTER TABLE migration (database.py:21-56). Tables are sequences and the schema's keys are the `Valid` invariant.
- `CURRENT_TIMESTAMP`, `datetime.now`, `time.time`, `format_date_time` and `uuid4`. These are parameters: `now`, `clock`, the two hex candidates and the date string.
- The `strftime` branch for a non-string `created_at` (app.py:134-136). Stored timestamps are always strings here.
- A duplicate `file_id` insert raises `IntegrityError` in the source. `Database.AddKnowledgeFile` reports it as a `Failure`.
- The JSON encoding of the knowledge-file-id column. It is abstracted as NULL, an encoded list, or text that `json.loads` rejects, and lists are of string ids.
- The `SessionService` wrappers `save_message`, `get_messages`, `get_messages_for_report`, `get_session`, `update_session_sids`, `get_session_stats`, `list_sessions` and `delete_session`, and the module-level functions. They pass their arguments to the store unchanged, so the `Database` functions model them.
- The module-level singletons (`get_db`, `get_*_service`) and configuration loading.
- WebSocket transport, threads, SSL, `run_forever`, `requests`, `raise_for_status` and console printing. A call is given the finite frame sequence it receives, or the reply or exception it gets.
- Frames that fail to decode, and blue frames missing `header`/`payload` keys. These raise inside the socket callback. Frames are well-formed data here.
- HMAC-SHA256, HMAC-SHA1, MD5, base64, UTF-8 encoding, `urlencode` quoting and UTF-8 decoding. They are uninterpreted parameters. `BlueAssistant.CreateUrl` assumes the quoting never yields "&", as URL quoting guarantees.
- Floating-point settings: temperature 0.7 and 0.5, and `wiki_filter_score` 0.83. The "x.xxMB" size message (app.py:75-79) is also left out. `App.Validation.TooLarge` carries the size in bytes.
- `ReportGenerator.generate`'s HTTP call (services/report_service.py:27-91).
- PyPDF2 and python-docx parsing, and UTF-8 decoding of uploads. Each is a parameter that returns the extracted text or reports the exception it raises.
- `parse_uploaded_file` is imported by app.py (app.py:15) but never called: uploads are sent to the knowledge base as raw bytes. `FileHandler.AcceptedUploadsParse` relates two functions the program does not compose, and says what would happen if it did.
- Streamlit rendering, `st.rerun`, the error and success toasts, temporary files, and `session_state` plumbing.
- KnowledgeService.UploadResult: a reply whose `data` is present but null raises `AttributeError` in the source. The model treats it like an absent `data`.
- KnowledgeService.ListResult: a reply whose `data` is present but null raises `AttributeError` in the source. The model treats it like an absent `data`, with total 0 and files [].
- KnowledgeService.MapReply: a `desc` present but null is returned as `None` by the source. The model only distinguishes an absent `desc` from a string one.
- KnowledgeService.DeleteFileIdsValue: `str(x)` of a non-string scalar id is not modelled, because scalar ids are strings here. For a list holding an id with a comma, only the joined value is determined; the split-back is not promised.
- `urlparse` in `WsParam.__init__` (services/blue_assistant.py:31-32). `BlueAssistant.WsParam` takes `host` and `path` as given, independent of `url`.
- Text.Lower: lowercases only the ASCII letters A-Z, while Python's `str.lower` also lowers other capitals ("É" becomes "é", and "İ" becomes two characters). The accept/refuse verdicts of upload validation and file parsing do not change, because the only ASCII letters that `str.lower` produces from non-ASCII characters are "k" (from the Kelvin sign) and the "i" of "İ", and neither occurs in "txt", "docx", "pdf" or "md". The extension reported in `App.Validation.UnsupportedType` and in the 不支持的文件类型 message can differ for a name such as "a.É".
- Text.ExtensionAfterDot: "lowercased" means `Text.Lower`, so the lemma shares that ASCII-only gap.

## Findings

| source | as written | input that shows it | evidently intended | confidence | as-written member | corrected member |
|---|---|---|---|---|---|---|
| database.py:345-360 | `delete_session` deletes only the sessions row. `connect()` never turns on foreign keys, so the declared ON DELETE CASCADE (database.py:80) never fires | create session "s", add one message to it, delete "s": get_messages("s") still returns that message | the session's messages go with it, as the schema and the docstring (database.py:347) declare | not executed | Database.DeleteSessionLeavesMessages | Database.DeleteSessionCascading |
