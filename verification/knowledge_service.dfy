/** The knowledge-base client: request signing and headers, the id
    normalisation of delete and search, the search request body, the search
    stream fold, and the mapping of upload/delete/list replies to results.
    HTTP and WebSocket transport are not modelled: a reply is given as a value
    and a search as the finite sequence of frames it receives. */
module KnowledgeService {

  import opened Wrappers
  import Seqs
  import Text

  type Bytes = seq<bv8>

  /** The primitives the signature is built from. */
  datatype Primitives = Primitives(
    utf8: string -> Bytes,
    md5Hex: Bytes -> string,
    hmacSha1: (Bytes, Bytes) -> Bytes,
    base64: Bytes -> string)

  datatype Auth = Auth(appId: string, apiSecret: string)

  /** `str(int(time.time()))` for a clock reading of `now` whole seconds. */
  function Timestamp(now: nat): (r: string)
    ensures forall i :: 0 <= i < |r| ==> '0' <= r[i] <= '9'
    ensures Text.DecimalToNat(r) == now
  {
    Text.DecimalRoundTrip(now);
    Text.NatToDecimal(now)
  }

  /** `get_signature`: base64 of the HMAC-SHA1, keyed by the secret, of the MD5
      hex digest of app id followed by timestamp; the clock supplies the
      timestamp when none is given. */
  function Signature(auth: Auth, timestamp: Option<string>, now: nat, pr: Primitives): (r: string)
    ensures var ts := if timestamp.Some? then timestamp.value else Timestamp(now);
      r == pr.base64(pr.hmacSha1(pr.utf8(auth.apiSecret), pr.utf8(pr.md5Hex(pr.utf8(auth.appId + ts)))))
  {
    var ts := if timestamp.Some? then timestamp.value else Timestamp(now);
    var checkSum := pr.md5Hex(pr.utf8(auth.appId + ts));
    pr.base64(pr.hmacSha1(pr.utf8(auth.apiSecret), pr.utf8(checkSum)))
  }

  /** The signature sees only the secret and the concatenation of app id and
      timestamp: given a timestamp, the clock plays no part, and splitting the
      same text differently between app id and timestamp signs alike. */
  lemma SignatureSeesConcatenation(a1: Auth, t1: string, a2: Auth, t2: string, n1: nat, n2: nat, pr: Primitives)
    requires a1.apiSecret == a2.apiSecret && a1.appId + t1 == a2.appId + t2
    ensures Signature(a1, Some(t1), n1, pr) == Signature(a2, Some(t2), n2, pr)
  {
  }

  /** Leaving the timestamp out signs the clock's reading. */
  lemma SignatureDefaultsToClock(auth: Auth, now: nat, other: nat, pr: Primitives)
    ensures Signature(auth, None, now, pr) == Signature(auth, Some(Timestamp(now)), other, pr)
  {
  }

  /** Python truthiness of an optional string. */
  predicate Truthy(s: Option<string>)
  {
    s.Some? && s.value != ""
  }

  /** `get_headers`: app id, timestamp and the signature over that same
      timestamp, plus `Content-Type` exactly when one is given and non-empty. */
  function Headers(auth: Auth, timestamp: Option<string>, contentType: Option<string>, now: nat, pr: Primitives)
    : (h: map<string, string>)
    ensures "appId" in h && h["appId"] == auth.appId
    ensures "timestamp" in h && h["timestamp"] == (if timestamp.Some? then timestamp.value else Timestamp(now))
    ensures "signature" in h && h["signature"] == Signature(auth, Some(h["timestamp"]), now, pr)
    ensures "Content-Type" in h <==> Truthy(contentType)
    ensures Truthy(contentType) ==> h["Content-Type"] == contentType.value
    ensures h.Keys <= {"appId", "timestamp", "signature", "Content-Type"}
  {
    var ts := if timestamp.Some? then timestamp.value else Timestamp(now);
    var base := map["appId" := auth.appId, "timestamp" := ts, "signature" := Signature(auth, Some(ts), now, pr)];
    if Truthy(contentType) then base["Content-Type" := contentType.value] else base
  }

  /** The headers a clock-stamped request carries: the timestamp reads back as
      the clock and the signature is the one `get_signature` gives for it. */
  lemma HeadersAtClock(auth: Auth, contentType: Option<string>, now: nat, pr: Primitives)
    ensures var h := Headers(auth, None, contentType, now, pr);
      && Text.DecimalToNat(h["timestamp"]) == now
      && h["signature"] == Signature(auth, None, now, pr)
  {
  }

  // ------------------------------------------------------------------
  // File id arguments
  // ------------------------------------------------------------------

  /** `file_ids` as callers pass it: a list or a single id. */
  datatype FileIds = IdList(ids: seq<string>) | Single(id: string)

  /** `delete_document`'s `fileIds` form value: a list is joined with ",",
      so an empty list sends "" and a one-element list sends its id. */
  function DeleteFileIdsValue(f: FileIds): (r: string)
    ensures f.Single? ==> r == f.id
    ensures f.IdList? && |f.ids| == 0 ==> r == ""
    ensures f.IdList? && |f.ids| == 1 ==> r == f.ids[0]
    ensures (f.IdList? && |f.ids| >= 1 && forall k :: 0 <= k < |f.ids| ==> ',' !in f.ids[k])
              ==> Text.Split(r, ',') == f.ids
  {
    match f
    case IdList(ids) =>
      if |ids| >= 1 && forall k :: 0 <= k < |ids| ==> ',' !in ids[k] then
        Text.SplitJoin(ids, ',');
        Text.Join(ids, ",")
      else Text.Join(ids, ",")
    case Single(id) => id
  }

  /** `search_document`'s `fileIds` list. */
  function SearchFileIds(f: FileIds): (r: seq<string>)
    ensures f.IdList? ==> r == f.ids
    ensures f.Single? ==> r == [f.id]
  {
    match f
    case IdList(ids) => ids
    case Single(id) => [id]
  }

  /** Delete and search name the same documents: splitting the delete value at
      commas gives the search list, for any non-empty argument whose ids are
      free of commas. */
  lemma DeleteAndSearchAgree(f: FileIds)
    requires f.IdList? ==> |f.ids| >= 1
    requires forall k :: 0 <= k < |SearchFileIds(f)| ==> ',' !in SearchFileIds(f)[k]
    ensures Text.Split(DeleteFileIdsValue(f), ',') == SearchFileIds(f)
  {
    if f.Single? {
      assert SearchFileIds(f)[0] == f.id;
      Text.SplitJoin([f.id], ',');
    }
  }

  /** The one argument on which the two calls part: an empty list makes
      delete send "", which splits into one empty id, while search sends no
      ids at all. */
  lemma EmptyListDisagrees()
    ensures DeleteFileIdsValue(IdList([])) == ""
    ensures Text.Split(DeleteFileIdsValue(IdList([])), ',') == [""]
    ensures SearchFileIds(IdList([])) == []
  {
  }

  // ------------------------------------------------------------------
  // Search request
  // ------------------------------------------------------------------

  datatype ChatMessage = ChatMessage(role: string, content: string)

  /** The search request body; the float settings (filter score, temperature)
      are left out. */
  datatype SearchBody = SearchBody(promptTemplate: string, fileIds: seq<string>, messages: seq<ChatMessage>)

  const WikiPromptTemplate: string :=
    "请将以下内容作为已知信息：\n<wikicontent>\n请根据以上内容回答用户的问题。\n问题:<wikiquestion>\n回答:"

  /** The search body: the question as the only message, then each history
      message inserted at the front in turn, so the history ends up reversed
      ahead of the question. */
  method BuildSearchBody(fileIds: FileIds, question: string, history: Option<seq<ChatMessage>>)
    returns (body: SearchBody)
    ensures body.messages == Seqs.Reverse(history.GetOr([])) + [ChatMessage("user", question)]
    ensures body.fileIds == SearchFileIds(fileIds)
    ensures body.promptTemplate == WikiPromptTemplate
  {
    var messages := [ChatMessage("user", question)];
    var h := if history.Some? then history.value else [];
    var i := 0;
    while i < |h|
      invariant 0 <= i <= |h|
      invariant messages == Seqs.Reverse(h[..i]) + [ChatMessage("user", question)]
    {
      assert h[..i + 1] == h[..i] + [h[i]];
      Seqs.ReverseSnoc(h[..i], h[i]);
      messages := [h[i]] + messages;
      i := i + 1;
    }
    assert h[..|h|] == h;
    body := SearchBody(WikiPromptTemplate, SearchFileIds(fileIds), messages);
  }

  /** The question is the last message, and the history ahead of it runs
      from its most recent message back to its first. */
  lemma SearchMessagesOrder(history: seq<ChatMessage>, question: string)
    ensures var m := Seqs.Reverse(history) + [ChatMessage("user", question)];
      && |m| == |history| + 1
      && m[|history|] == ChatMessage("user", question)
      && forall i :: 0 <= i < |history| ==> m[i] == history[|history| - 1 - i]
  {
    Seqs.ReverseIndex(history);
  }

  /** The WebSocket URL of a search; nothing in it is percent-encoded. */
  function SearchUrl(wsUrl: string, auth: Auth, now: nat, pr: Primitives): string
  {
    var ts := Timestamp(now);
    wsUrl + "?" + ("appId=" + auth.appId + "&timestamp=" + ts + "&signature=" + Signature(auth, Some(ts), now, pr))
  }

  lemma QueryShape(appId: string, ts: string, sig: string)
    ensures "appId=" + appId + "&timestamp=" + ts + "&signature=" + sig
            == Text.Join(["appId=" + appId, "timestamp=" + ts, "signature=" + sig], "&")
  {
    Text.JoinThree("appId=" + appId, "timestamp=" + ts, "signature=" + sig, "&");
  }

  lemma QuerySplits(appId: string, ts: string, sig: string)
    requires '&' !in appId && '&' !in ts && '&' !in sig
    ensures var parts := ["appId=" + appId, "timestamp=" + ts, "signature=" + sig];
      Text.Split(Text.Join(parts, "&"), '&') == parts
  {
    var parts := ["appId=" + appId, "timestamp=" + ts, "signature=" + sig];
    assert forall k :: 0 <= k < |parts| ==> '&' !in parts[k];
    Text.SplitJoin(parts, '&');
  }

  /** After the base URL and "?", a search URL's query splits at "&" back into
      its three parameters, in order, when the app id holds no "&" (the
      timestamp is digits and base64 never yields "&"). */
  lemma SearchUrlQuery(wsUrl: string, auth: Auth, now: nat, pr: Primitives)
    requires forall b :: '&' !in pr.base64(b)
    requires '&' !in auth.appId
    ensures var ts := Timestamp(now);
      var parts := ["appId=" + auth.appId, "timestamp=" + ts, "signature=" + Signature(auth, Some(ts), now, pr)];
      && SearchUrl(wsUrl, auth, now, pr) == wsUrl + "?" + Text.Join(parts, "&")
      && Text.Split(Text.Join(parts, "&"), '&') == parts
  {
    var ts := Timestamp(now);
    var sig := Signature(auth, Some(ts), now, pr);
    QueryShape(auth.appId, ts, sig);
    assert '&' !in ts;
    QuerySplits(auth.appId, ts, sig);
  }

  // ------------------------------------------------------------------
  // Search stream
  // ------------------------------------------------------------------

  /** A search frame: `code` (absent when the frame has none), `content`
      (absent read as "") and `status` (absent read as 0). */
  datatype Frame = Frame(code: Option<int>, content: string, status: int)

  /** The answer pieces collected so far and whether the socket is closed. */
  datatype Collect = Collect(parts: seq<string>, closed: bool)

  /** `on_message`: a frame whose code is not 0 closes; otherwise non-empty
      content is collected and status 2 closes. */
  function OnMessage(c: Collect, f: Frame): (r: Collect)
    ensures f.code != Some(0) ==> r == c.(closed := true)
    ensures f.code == Some(0) ==> r.parts == c.parts + (if f.content != "" then [f.content] else [])
    ensures f.code == Some(0) ==> (r.closed <==> c.closed || f.status == 2)
  {
    if f.code != Some(0) then c.(closed := true)
    else
      var parts := if f.content != "" then c.parts + [f.content] else c.parts;
      Collect(parts, c.closed || f.status == 2)
  }

  function Run(c: Collect, frames: seq<Frame>): Collect
    decreases |frames|
  {
    if |frames| == 0 || c.closed then c else Run(OnMessage(c, frames[0]), frames[1..])
  }

  /** `search_document`'s return value: the collected pieces joined. */
  function SearchAnswer(frames: seq<Frame>): string
  {
    Seqs.Concat(Run(Collect([], false), frames).parts)
  }

  // Reference description.

  predicate Stops(f: Frame)
  {
    f.code != Some(0) || f.status == 2
  }

  predicate Appends(f: Frame)
  {
    f.code == Some(0) && f.content != ""
  }

  /** The frames up to and including the first one that ends the search. */
  function Delivered(frames: seq<Frame>): seq<Frame>
  {
    Seqs.ThroughFirst(frames, Stops)
  }

  lemma DeliveredCons(f: Frame, rest: seq<Frame>)
    ensures Delivered([f] + rest) == if Stops(f) then [f] else [f] + Delivered(rest)
  {
    Seqs.ThroughFirstCons(f, rest, Stops);
  }

  /** What the first frame contributes to the reference description. */
  function Head(f: Frame): seq<string>
  {
    if Appends(f) then [f.content] else []
  }

  /** The texts of the frames that carry one, in order. */
  function Texts(fs: seq<Frame>): seq<string>
  {
    if |fs| == 0 then [] else Head(fs[0]) + Texts(fs[1..])
  }

  /** The reference list of answer pieces: the texts of the delivered frames. */
  function Pieces(frames: seq<Frame>): seq<string>
  {
    Texts(Delivered(frames))
  }

  lemma PiecesEmpty()
    ensures Pieces([]) == []
  {
    assert Delivered([]) == [];
  }

  lemma StopsFirst(p: seq<string>, f: Frame, rest: seq<Frame>)
    requires Stops(f)
    ensures Run(Collect(p, false), [f] + rest) == Collect(p + Pieces([f] + rest), true)
    ensures Seqs.FirstIndex([f] + rest, Stops).Some?
  {
    DeliveredCons(f, rest);
    assert ([f] + rest)[0] == f;
    assert [f][1..] == [];
    assert Texts([f]) == Head(f) + Texts([]);
    assert Pieces([f] + rest) == Head(f) + [];
  }

  lemma PassesFirst(p: seq<string>, f: Frame, rest: seq<Frame>)
    requires !Stops(f)
    ensures Run(Collect(p, false), [f] + rest) == Run(Collect(p + Head(f), false), rest)
    ensures Pieces([f] + rest) == Head(f) + Pieces(rest)
    ensures Seqs.FirstIndex([f] + rest, Stops).Some? == Seqs.FirstIndex(rest, Stops).Some?
  {
    var fs := [f] + rest;
    assert fs[0] == f && fs[1..] == rest;
    DeliveredCons(f, rest);
    assert ([f] + Delivered(rest))[1..] == Delivered(rest);
  }

  lemma PassStep(p: seq<string>, f: Frame, rest: seq<Frame>)
    requires !Stops(f)
    requires Run(Collect(p + Head(f), false), rest)
             == Collect(p + Head(f) + Pieces(rest), Seqs.FirstIndex(rest, Stops).Some?)
    ensures Run(Collect(p, false), [f] + rest)
            == Collect(p + Pieces([f] + rest), Seqs.FirstIndex([f] + rest, Stops).Some?)
  {
    PassesFirst(p, f, rest);
    AppendAssociates(p, Head(f), Pieces(rest));
  }

  lemma AppendAssociates(a: seq<string>, b: seq<string>, c: seq<string>)
    ensures a + b + c == a + (b + c)
  {
  }

  /** The pieces collected from an open start are the contents of the
      delivered frames that carry text, in order; the socket ends closed
      exactly when some frame ends the search. */
  lemma {:induction false} RunIsReference(p: seq<string>, frames: seq<Frame>)
    ensures Run(Collect(p, false), frames) == Collect(p + Pieces(frames), Seqs.FirstIndex(frames, Stops).Some?)
    decreases |frames|
  {
    if |frames| == 0 {
      PiecesEmpty();
      assert p + [] == p;
    } else {
      var f, rest := frames[0], frames[1..];
      assert frames == [f] + rest;
      if Stops(f) {
        StopsFirst(p, f, rest);
      } else {
        RunIsReference(p + Head(f), rest);
        PassStep(p, f, rest);
      }
    }
  }

  /** The answer is the concatenation of the text of every successful frame
      up to the one that ends the search; nothing after an error frame counts. */
  lemma SearchAnswerIsReference(frames: seq<Frame>)
    ensures SearchAnswer(frames) == Seqs.Concat(Texts(Delivered(frames)))
  {
    RunIsReference([], frames);
    assert [] + Pieces(frames) == Pieces(frames);
  }

  /** A frame without a code ends the search as an error frame does. */
  lemma MissingCodeStops(f: Frame, rest: seq<Frame>)
    requires f.code.None?
    ensures SearchAnswer([f] + rest) == ""
  {
    assert ([f] + rest)[0] == f;
    assert OnMessage(Collect([], false), f) == Collect([], true);
    assert Run(Collect([], false), [f] + rest) == Collect([], true);
  }

  // ------------------------------------------------------------------
  // Replies of the HTTP endpoints
  // ------------------------------------------------------------------

  /** The part of a reply body the client reads. `data` is the endpoint's
      `data` object when present. */
  datatype ReplyBody<D> = ReplyBody(code: Option<int>, desc: Option<string>, sid: Option<string>, data: Option<D>)

  /** The outcome of an HTTP call: a JSON body, or a `RequestException`
      (connection failure or an error status) with its text. */
  datatype Reply<D> = Answered(body: ReplyBody<D>) | RequestError(message: string)

  /** The dictionaries the three calls return. */
  datatype Outcome<T> =
    | Succeeded(payload: T, sid: Option<string>)
    | Rejected(error: string, code: Option<int>)
    | Unreachable(error: string)

  /** Code 0 is success carrying the payload read from `data`; any other
      code, or none, is a failure with the reply's `desc`, or `default` when
      there is none; a transport error carries its message. */
  function MapReply<D, T>(reply: Reply<D>, payload: Option<D> -> T, default: string): (r: Outcome<T>)
    ensures r.Succeeded? <==> reply.Answered? && reply.body.code == Some(0)
    ensures r.Succeeded? ==> r.payload == payload(reply.body.data) && r.sid == reply.body.sid
    ensures r.Rejected? <==> reply.Answered? && reply.body.code != Some(0)
    ensures r.Rejected? ==> r.error == reply.body.desc.GetOr(default) && r.code == reply.body.code
    ensures r.Unreachable? <==> reply.RequestError?
    ensures r.Unreachable? ==> r.error == reply.message
  {
    match reply
    case RequestError(message) => Unreachable(message)
    case Answered(body) =>
      if body.code == Some(0) then Succeeded(payload(body.data), body.sid)
      else Rejected(body.desc.GetOr(default), body.code)
  }

  /** Upload's `data` object: the `fileId` it may carry. */
  datatype UploadData = UploadData(fileId: Option<string>)

  datatype Uploaded = Uploaded(fileId: Option<string>, fileName: string)

  function UploadedFrom(fileName: string): Option<UploadData> -> Uploaded
  {
    (d: Option<UploadData>) => Uploaded(if d.Some? then d.value.fileId else None, fileName)
  }

  /** `upload_document`'s result for a reply, the file name defaulting to the
      path's last component. */
  function UploadResult(reply: Reply<UploadData>, fileName: Option<string>, path: string): (r: Outcome<Uploaded>)
    ensures r.Succeeded? ==> r.payload.fileName == fileName.GetOr(Text.LastSegment(path, '/'))
    ensures r.Succeeded? ==> reply.Answered? && r.payload.fileId == (if reply.body.data.Some? then reply.body.data.value.fileId else None)
    ensures r.Rejected? ==> reply.Answered? && r.error == reply.body.desc.GetOr("上传失败")
  {
    var name := if fileName.Some? then fileName.value else Text.LastSegment(path, '/');
    MapReply(reply, UploadedFrom(name), "上传失败")
  }

  /** `delete_document`'s result: nothing beyond the sid on success. */
  function DeleteResult(reply: Reply<()>): (r: Outcome<()>)
    ensures r.Rejected? ==> reply.Answered? && r.error == reply.body.desc.GetOr("删除失败")
    ensures r.Succeeded? <==> reply.Answered? && reply.body.code == Some(0)
  {
    MapReply(reply, (d: Option<()>) => (), "删除失败")
  }

  /** One row of the document list, as far as the application reads it. */
  datatype DocumentRow = DocumentRow(fileId: Option<string>, fileName: Option<string>)

  /** List's `data` object: `total` and `rows` when present. */
  datatype ListData = ListData(total: Option<int>, rows: Option<seq<DocumentRow>>)

  datatype Listing = Listing(total: int, files: seq<DocumentRow>)

  function ListingFrom(d: Option<ListData>): Listing
  {
    if d.None? then Listing(0, [])
    else Listing(d.value.total.GetOr(0), d.value.rows.GetOr([]))
  }

  /** `get_document_list`'s result: total and rows default to 0 and []. */
  function ListResult(reply: Reply<ListData>): (r: Outcome<Listing>)
    ensures r.Succeeded? ==> reply.Answered?
    ensures r.Succeeded? && reply.body.data.None? ==> r.payload == Listing(0, [])
    ensures r.Succeeded? && reply.body.data.Some? ==>
              r.payload.total == reply.body.data.value.total.GetOr(0)
              && r.payload.files == reply.body.data.value.rows.GetOr([])
    ensures r.Rejected? ==> reply.Answered? && r.error == reply.body.desc.GetOr("获取列表失败")
  {
    MapReply(reply, ListingFrom, "获取列表失败")
  }

  /** The three calls agree on what counts as success, and a rejection without
      a description carries the call's own default text. */
  lemma CallsAgreeOnSuccess(code: Option<int>, sid: Option<string>, name: string)
    ensures var u := UploadResult(Answered(ReplyBody(code, None, sid, None)), Some(name), "");
      var d := DeleteResult(Answered(ReplyBody(code, None, sid, None)));
      var l := ListResult(Answered(ReplyBody(code, None, sid, None)));
      && (u.Succeeded? <==> code == Some(0)) && (d.Succeeded? <==> code == Some(0))
      && (l.Succeeded? <==> code == Some(0))
      && (code != Some(0) ==> u.error == "上传失败" && d.error == "删除失败" && l.error == "获取列表失败")
  {
  }

  /** The body of a list request: page and size always, the name and extension
      filters only when given and non-empty. */
  datatype ListRequest = ListRequest(currentPage: int, pageSize: int, fileName: Option<string>, extName: Option<string>)

  function ListRequestBody(fileName: Option<string>, extName: Option<string>, currentPage: int, pageSize: int)
    : (r: ListRequest)
    ensures r.currentPage == currentPage && r.pageSize == pageSize
    ensures r.fileName.Some? <==> Truthy(fileName)
    ensures r.extName.Some? <==> Truthy(extName)
    ensures r.fileName.Some? ==> r.fileName == fileName
    ensures r.extName.Some? ==> r.extName == extName
  {
    ListRequest(currentPage, pageSize,
                if Truthy(fileName) then fileName else None,
                if Truthy(extName) then extName else None)
  }
}
