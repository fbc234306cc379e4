/** The blue coach's streaming client: the request frame, the per-frame
    handler folded over the frames the server sends, and the signed connection
    URL. Socket transport is not modelled: a call is given the finite sequence
    of frames it receives. Hashing, base64, UTF-8 encoding and URL quoting are
    function parameters. */
module BlueAssistant {

  import opened Wrappers
  import Seqs
  import Text

  datatype Turn = Turn(role: string, content: string)

  datatype RequestHeader = RequestHeader(appId: string, uid: string)

  /** The `parameter.chat` object; the temperature (0.7) is a float and left out. */
  datatype ChatParameters = ChatParameters(domain: string, maxTokens: nat, topK: nat)

  /** The request frame: `header`, `parameter.chat` and `payload.message.text`. */
  datatype Request = Request(header: RequestHeader, parameter: ChatParameters, messages: seq<Turn>)

  /** `_gen_params`: the history when there is one, then the question as a user
      turn, with the fixed uid, domain and generation limits. */
  function GenParams(appId: string, question: string, history: Option<seq<Turn>>): (r: Request)
    ensures var h := history.GetOr([]);
      && |r.messages| == |h| + 1
      && r.messages[..|h|] == h
      && r.messages[|h|] == Turn("user", question)
    ensures r.header == RequestHeader(appId, "user123")
    ensures r.parameter == ChatParameters("generalv3.5", 2048, 5)
  {
    var messages := if history.Some? && |history.value| > 0 then history.value else [];
    Request(RequestHeader(appId, "user123"), ChatParameters("generalv3.5", 2048, 5),
            messages + [Turn("user", question)])
  }

  // ------------------------------------------------------------------
  // Response frames
  // ------------------------------------------------------------------

  /** A response frame: `header.code`, `header.sid` when present,
      `payload.choices.status` and `payload.choices.text[0].content`. */
  datatype Frame = Frame(code: int, sid: Option<string>, status: int, content: string)

  /** What the client holds while a call runs. */
  datatype Stream = Stream(answer: string, sid: string, closed: bool)

  /** `_on_message`: an error frame closes the socket and changes nothing else;
      any other frame may replace the sid, appends its content, and closes on
      status 2. */
  function OnMessage(s: Stream, f: Frame): (r: Stream)
    ensures f.code != 0 ==> r == s.(closed := true)
    ensures f.code == 0 ==> r.answer == s.answer + f.content
    ensures f.code == 0 ==> r.sid == (if f.sid.Some? then f.sid.value else s.sid)
    ensures f.code == 0 ==> (r.closed <==> f.status == 2)
  {
    if f.code != 0 then s.(closed := true)
    else
      var sid := if f.sid.Some? then f.sid.value else s.sid;
      Stream(s.answer + f.content, sid, f.status == 2)
  }

  /** The frames delivered to the handler until the socket closes. */
  function Run(s: Stream, frames: seq<Frame>): Stream
    decreases |frames|
  {
    if |frames| == 0 || s.closed then s else Run(OnMessage(s, frames[0]), frames[1..])
  }

  /** The client object's fields. */
  datatype Assistant = Assistant(answer: string, sid: string)

  /** `chat`: resets the answer (not the sid), runs the exchange and returns
      `(answer, sid)`; the client keeps both. */
  function Chat(a: Assistant, frames: seq<Frame>): (r: (Assistant, (string, string)))
    ensures r.1 == (r.0.answer, r.0.sid)
  {
    var s := Run(Stream("", a.sid, false), frames);
    (Assistant(s.answer, s.sid), (s.answer, s.sid))
  }

  // ------------------------------------------------------------------
  // Reference description of an exchange
  // ------------------------------------------------------------------

  /** A frame after which the server closes the exchange. */
  predicate Stops(f: Frame)
  {
    f.code != 0 || f.status == 2
  }

  predicate Ok(f: Frame)
  {
    f.code == 0
  }

  /** The frames up to and including the first stopping frame. */
  function Delivered(frames: seq<Frame>): seq<Frame>
  {
    Seqs.ThroughFirst(frames, Stops)
  }

  function Content(f: Frame): string
  {
    f.content
  }

  /** The contents of the successful frames, concatenated in arrival order. */
  function AnswerOf(frames: seq<Frame>): string
  {
    if |frames| == 0 then ""
    else (if Ok(frames[0]) then frames[0].content else "") + AnswerOf(frames[1..])
  }

  predicate CarriesSid(f: Frame)
  {
    f.code == 0 && f.sid.Some?
  }

  /** The sid of the last successful frame that carries one, else `default`. */
  function LastSid(frames: seq<Frame>, default: string): string
  {
    if |frames| == 0 then default
    else
      var f := frames[|frames| - 1];
      if CarriesSid(f) then f.sid.value else LastSid(frames[..|frames| - 1], default)
  }

  lemma {:induction false} LastSidCons(f: Frame, rest: seq<Frame>, default: string)
    ensures LastSid([f] + rest, default) == LastSid(rest, if CarriesSid(f) then f.sid.value else default)
    decreases |rest|
  {
    var fs := [f] + rest;
    if |rest| > 0 {
      assert fs[|fs| - 1] == rest[|rest| - 1];
      assert fs[..|fs| - 1] == [f] + rest[..|rest| - 1];
      LastSidCons(f, rest[..|rest| - 1], default);
    } else {
      assert fs[..0] == [];
    }
  }

  lemma DeliveredCons(f: Frame, rest: seq<Frame>)
    ensures Delivered([f] + rest) == if Stops(f) then [f] else [f] + Delivered(rest)
  {
    Seqs.ThroughFirstCons(f, rest, Stops);
  }

  /** Whether some frame stops the exchange. */
  predicate AnyStops(frames: seq<Frame>)
  {
    Seqs.FirstIndex(frames, Stops).Some?
  }

  lemma StopsFirst(f: Frame, rest: seq<Frame>, a: string, sid: string)
    requires Stops(f)
    ensures var d := Delivered([f] + rest);
      Run(Stream(a, sid, false), [f] + rest)
        == Stream(a + AnswerOf(d), LastSid(d, sid), AnyStops([f] + rest))
  {
    DeliveredCons(f, rest);
    assert ([f] + rest)[0] == f;
    assert AnswerOf([f]) == if Ok(f) then f.content else "";
    assert [f][..0] == [];
  }

  lemma PassesFirst(f: Frame, rest: seq<Frame>, a: string, sid: string)
    requires !Stops(f)
    ensures var sid' := if f.sid.Some? then f.sid.value else sid;
      && Run(Stream(a, sid, false), [f] + rest) == Run(Stream(a + f.content, sid', false), rest)
      && Delivered([f] + rest) == [f] + Delivered(rest)
      && AnyStops([f] + rest) == AnyStops(rest)
      && AnswerOf([f] + Delivered(rest)) == f.content + AnswerOf(Delivered(rest))
      && LastSid([f] + Delivered(rest), sid) == LastSid(Delivered(rest), sid')
  {
    var fs := [f] + rest;
    assert fs[0] == f && fs[1..] == rest;
    DeliveredCons(f, rest);
    assert ([f] + Delivered(rest))[1..] == Delivered(rest);
    LastSidCons(f, Delivered(rest), sid);
  }

  /** Running the handler from an open stream is the reference description:
      the successful delivered frames' contents appended, the last sid they
      carry, and closed exactly when some frame stops the exchange. */
  lemma {:induction false} RunIsReference(a: string, sid: string, frames: seq<Frame>)
    ensures var d := Delivered(frames);
      Run(Stream(a, sid, false), frames) == Stream(a + AnswerOf(d), LastSid(d, sid), AnyStops(frames))
    decreases |frames|
  {
    if |frames| == 0 {
      assert Delivered(frames) == [];
      assert a + "" == a;
    } else {
      var f, rest := frames[0], frames[1..];
      assert frames == [f] + rest;
      if Stops(f) {
        StopsFirst(f, rest, a, sid);
      } else {
        var sid' := if f.sid.Some? then f.sid.value else sid;
        PassesFirst(f, rest, a, sid);
        RunIsReference(a + f.content, sid', rest);
        var d := Delivered(rest);
        assert a + f.content + AnswerOf(d) == a + (f.content + AnswerOf(d));
      }
    }
  }

  /** A call's answer is the successful delivered contents in order, its sid
      the last one delivered or the one from before the call. */
  lemma ChatIsReference(a: Assistant, frames: seq<Frame>)
    ensures var d := Delivered(frames);
      Chat(a, frames).1 == (AnswerOf(d), LastSid(d, a.sid))
  {
    RunIsReference("", a.sid, frames);
    assert "" + AnswerOf(Delivered(frames)) == AnswerOf(Delivered(frames));
  }

  /** The answer of a call does not depend on the answer of the previous one,
      while a sid from an earlier call survives a call whose frames carry none. */
  lemma ChatResetsAnswerNotSid(x: string, y: string, sid: string, frames: seq<Frame>)
    ensures Chat(Assistant(x, sid), frames) == Chat(Assistant(y, sid), frames)
    ensures (forall i :: 0 <= i < |frames| ==> frames[i].sid.None?) ==> Chat(Assistant(x, sid), frames).1.1 == sid
  {
    if forall i :: 0 <= i < |frames| ==> frames[i].sid.None? {
      ChatIsReference(Assistant(x, sid), frames);
      NoSidKeepsDefault(Delivered(frames), sid);
    }
  }

  lemma {:induction false} NoSidKeepsDefault(frames: seq<Frame>, default: string)
    requires forall i :: 0 <= i < |frames| ==> frames[i].sid.None?
    ensures LastSid(frames, default) == default
    decreases |frames|
  {
    if |frames| > 0 {
      NoSidKeepsDefault(frames[..|frames| - 1], default);
    }
  }

  /** Text received before an error frame is still returned, and nothing after it is. */
  lemma ErrorKeepsEarlierText(a: Assistant, good: seq<Frame>, bad: Frame, later: seq<Frame>)
    requires forall i :: 0 <= i < |good| ==> !Stops(good[i])
    requires bad.code != 0
    ensures Chat(a, good + [bad] + later).1.0 == AnswerOf(good)
  {
    var frames := good + [bad] + later;
    ChatIsReference(a, frames);
    FirstStopIsBad(good, bad, later);
    assert frames[..|good| + 1] == good + [bad];
    assert Delivered(frames) == good + [bad];
    AnswerOfAppend(good, [bad]);
    assert AnswerOf([bad]) == "";
    assert AnswerOf(good) + "" == AnswerOf(good);
  }

  lemma FirstStopIsBad(good: seq<Frame>, bad: Frame, later: seq<Frame>)
    requires forall i :: 0 <= i < |good| ==> !Stops(good[i])
    requires bad.code != 0
    ensures Seqs.FirstIndex(good + [bad] + later, Stops) == Some(|good|)
  {
    var frames := good + [bad] + later;
    var k := Seqs.FirstIndex(frames, Stops);
    assert frames[|good|] == bad;
    assert forall j :: 0 <= j < |good| ==> frames[j] == good[j];
  }

  lemma {:induction false} AnswerOfAppend(a: seq<Frame>, b: seq<Frame>)
    ensures AnswerOf(a + b) == AnswerOf(a) + AnswerOf(b)
    decreases |a|
  {
    if |a| > 0 {
      assert (a + b)[1..] == a[1..] + b;
      AnswerOfAppend(a[1..], b);
    } else {
      assert a + b == b;
    }
  }

  /** Three partial frames "Hel", "lo", "!" with the final status on the third
      give exactly "Hello!". */
  lemma HelloExample(a: Assistant)
    ensures Chat(a, [Frame(0, None, 0, "Hel"), Frame(0, None, 1, "lo"), Frame(0, None, 2, "!")]).1.0 == "Hello!"
  {
    var frames := [Frame(0, None, 0, "Hel"), Frame(0, None, 1, "lo"), Frame(0, None, 2, "!")];
    assert frames[1..] == [Frame(0, None, 1, "lo"), Frame(0, None, 2, "!")];
    assert frames[1..][1..] == [Frame(0, None, 2, "!")];
  }

  // ------------------------------------------------------------------
  // Connection URL
  // ------------------------------------------------------------------

  type Bytes = seq<bv8>

  /** The primitives `create_url` calls into. */
  datatype Primitives = Primitives(
    utf8: string -> Bytes,
    hmacSha256: (Bytes, Bytes) -> Bytes,
    base64: Bytes -> string,
    quotePlus: string -> string)

  /** The connection parameters. `host` and `path` are what `urlparse` takes
      from `url` (its netloc and path); URL parsing is not modelled, so they
      are given alongside `url` and nothing here ties them to it. */
  datatype WsParam = WsParam(appId: string, apiKey: string, apiSecret: string, host: string, path: string, url: string)

  /** The canonical text the HMAC signs. */
  function SignatureOrigin(host: string, date: string, path: string): string
  {
    ("host: " + host) + ['\n'] + (("date: " + date) + ['\n'] + ("GET " + path + " HTTP/1.1"))
  }

  /** A tagged first line followed by the rest is read back unambiguously. */
  lemma FirstLineInjective(tag: string, x1: string, r1: string, x2: string, r2: string)
    requires '\n' !in tag + x1 && '\n' !in tag + x2
    requires (tag + x1) + ['\n'] + r1 == (tag + x2) + ['\n'] + r2
    ensures x1 == x2 && r1 == r2
  {
    Text.SplitPiece(tag + x1, r1, '\n');
    Text.SplitPiece(tag + x2, r2, '\n');
    assert ([tag + x1] + Text.Split(r1, '\n'))[0] == tag + x1;
    assert ([tag + x2] + Text.Split(r2, '\n'))[0] == tag + x2;
    assert tag + x1 == tag + x2;
    assert x1 == (tag + x1)[|tag|..] == (tag + x2)[|tag|..] == x2;
    assert r1 == ((tag + x1) + ['\n'] + r1)[|tag + x1| + 1..];
    assert r2 == ((tag + x2) + ['\n'] + r2)[|tag + x2| + 1..];
  }

  /** The canonical text names host, date and path unambiguously when host and
      date are single lines. */
  lemma SignatureOriginInjective(h1: string, d1: string, p1: string, h2: string, d2: string, p2: string)
    requires '\n' !in h1 && '\n' !in d1 && '\n' !in h2 && '\n' !in d2
    requires SignatureOrigin(h1, d1, p1) == SignatureOrigin(h2, d2, p2)
    ensures h1 == h2 && d1 == d2 && p1 == p2
  {
    var q1 := "GET " + p1 + " HTTP/1.1";
    var q2 := "GET " + p2 + " HTTP/1.1";
    var r1 := ("date: " + d1) + ['\n'] + q1;
    var r2 := ("date: " + d2) + ['\n'] + q2;
    assert '\n' !in "host: " + h1 && '\n' !in "host: " + h2;
    assert '\n' !in "date: " + d1 && '\n' !in "date: " + d2;
    FirstLineInjective("host: ", h1, r1, h2, r2);
    FirstLineInjective("date: ", d1, q1, d2, q2);
    assert p1 == q1[4..|q1| - 9] == q2[4..|q2| - 9] == p2;
  }

  function AuthorizationOrigin(apiKey: string, signature: string): string
  {
    "api_key=\"" + apiKey + "\", algorithm=\"hmac-sha256\", headers=\"host date request-line\", signature=\""
      + signature + "\""
  }

  /** `urlencode` of the three query parameters, in insertion order. */
  function Query(pr: Primitives, authorization: string, date: string, host: string): string
  {
    Text.Join(["authorization=" + pr.quotePlus(authorization), "date=" + pr.quotePlus(date),
               "host=" + pr.quotePlus(host)], "&")
  }

  /** `create_url`: the base URL, "?", and the query carrying the doubly base64
      encoded authorization, the date and the host. `date` is the formatted
      clock reading. */
  function CreateUrl(w: WsParam, date: string, pr: Primitives): (r: string)
    requires forall s :: '&' !in pr.quotePlus(s)
    ensures var origin := SignatureOrigin(w.host, date, w.path);
      var signature := pr.base64(pr.hmacSha256(pr.utf8(w.apiSecret), pr.utf8(origin)));
      var authorization := pr.base64(pr.utf8(AuthorizationOrigin(w.apiKey, signature)));
      && r == w.url + "?" + Query(pr, authorization, date, w.host)
      && Text.Split(Query(pr, authorization, date, w.host), '&')
           == ["authorization=" + pr.quotePlus(authorization), "date=" + pr.quotePlus(date),
               "host=" + pr.quotePlus(w.host)]
  {
    var origin := SignatureOrigin(w.host, date, w.path);
    var signatureSha := pr.hmacSha256(pr.utf8(w.apiSecret), pr.utf8(origin));
    var signature := pr.base64(signatureSha);
    var authorization := pr.base64(pr.utf8(AuthorizationOrigin(w.apiKey, signature)));
    var pairs := ["authorization=" + pr.quotePlus(authorization), "date=" + pr.quotePlus(date),
                  "host=" + pr.quotePlus(w.host)];
    assert forall k :: 0 <= k < |pairs| ==> '&' !in pairs[k];
    Text.SplitJoin(pairs, '&');
    w.url + "?" + Query(pr, authorization, date, w.host)
  }
}
