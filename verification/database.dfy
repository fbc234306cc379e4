/** The transcript store: the `sessions`, `messages` and `knowledge_files` tables of
    `DatabaseManager`, as an immutable value with one function per method. SQL
    `CURRENT_TIMESTAMP` and the local clock are the parameters `now` and `clock`. */
module Database {

  import opened Wrappers
  import Seqs
  import Sorting

  /** The `knowledge_file_ids` column: NULL until first written, then the
      `json.dumps` text of a list. `RawText` stands for any other text — the
      empty string or a value `json.loads` rejects. */
  datatype IdsColumn =
    | NullIds
    | EncodedIds(ids: seq<string>)
    | RawText(text: string)

  datatype SessionRow = SessionRow(
    id: string,
    redSid: Option<string>,
    blueSid: Option<string>,
    fileIds: IdsColumn,
    createdAt: string,
    updatedAt: string)

  /** A `messages` row; `source` is NULL only when a caller passes `None`. */
  datatype Message = Message(
    id: nat,
    sessionId: string,
    role: string,
    source: Option<string>,
    content: string,
    timestamp: string)

  /** A row of `get_messages_for_report`: the NULL source read as "". */
  datatype ReportRow = ReportRow(role: string, content: string, source: string, timestamp: string)

  datatype KnowledgeFile = KnowledgeFile(
    rowId: nat,
    fileId: string,
    fileName: string,
    fileType: string,
    fileSize: Option<int>,
    content: Option<string>,
    uploadedAt: string)

  /** The three tables in insertion order, and the AUTOINCREMENT counters
      (the next id SQLite will hand out). */
  datatype Store = Store(
    sessions: seq<SessionRow>,
    messages: seq<Message>,
    files: seq<KnowledgeFile>,
    nextMessageId: nat,
    nextFileRowId: nat)

  datatype Stats = Stats(total: nat, user: nat, assistant: nat, red: nat, blue: nat)

  /** The constraints the schema enforces: `sessions.id` and `messages.id` are
      primary keys, `knowledge_files.file_id` is UNIQUE, and AUTOINCREMENT ids
      only grow. */
  ghost predicate Valid(st: Store)
  {
    && (forall i, j :: 0 <= i < j < |st.sessions| ==> st.sessions[i].id != st.sessions[j].id)
    && (forall i, j :: 0 <= i < j < |st.messages| ==> st.messages[i].id != st.messages[j].id)
    && (forall i, j :: 0 <= i < j < |st.files| ==> st.files[i].fileId != st.files[j].fileId)
    && (forall i :: 0 <= i < |st.messages| ==> st.messages[i].id < st.nextMessageId)
    && (forall i :: 0 <= i < |st.files| ==> st.files[i].rowId < st.nextFileRowId)
  }

  /** A freshly initialised database file. */
  function Empty(): (st: Store)
    ensures Valid(st)
    ensures |st.sessions| == 0 && |st.messages| == 0 && |st.files| == 0
  {
    Store([], [], [], 1, 1)
  }

  // ------------------------------------------------------------------
  // Sessions
  // ------------------------------------------------------------------

  function HasId(id: string): SessionRow -> bool
  {
    (row: SessionRow) => row.id == id
  }

  predicate HasSession(st: Store, id: string)
  {
    exists i :: 0 <= i < |st.sessions| && st.sessions[i].id == id
  }

  /** The first row with that id (`fetchone`). */
  function FindRow(rows: seq<SessionRow>, id: string): (r: Option<SessionRow>)
    ensures r.Some? <==> exists i :: 0 <= i < |rows| && rows[i].id == id
    ensures r.Some? ==> r.value in rows && r.value.id == id
  {
    match Seqs.FirstIndex(rows, HasId(id))
    case Some(i) => Some(rows[i])
    case None => None
  }

  lemma FindRowCons(r0: SessionRow, rest: seq<SessionRow>, id: string)
    ensures FindRow([r0] + rest, id) == if r0.id == id then Some(r0) else FindRow(rest, id)
  {
    assert ([r0] + rest)[0] == r0;
    assert ([r0] + rest)[1..] == rest;
  }

  /** `get_session`: the row with that id, or `None`. */
  function GetSession(st: Store, id: string): (r: Option<SessionRow>)
    ensures r.Some? <==> HasSession(st, id)
    ensures r.Some? ==> r.value in st.sessions && r.value.id == id
  {
    FindRow(st.sessions, id)
  }

  /** `UPDATE sessions SET … WHERE id = ?`: applies `f` to the row with that id. */
  function UpdateRow(rows: seq<SessionRow>, id: string, f: SessionRow -> SessionRow): (r: seq<SessionRow>)
    requires forall row :: f(row).id == row.id
    ensures |r| == |rows|
    ensures forall i :: 0 <= i < |r| ==> r[i].id == rows[i].id
    ensures forall i :: 0 <= i < |r| ==> r[i] == if rows[i].id == id then f(rows[i]) else rows[i]
  {
    seq(|rows|, i requires 0 <= i < |rows| => if rows[i].id == id then f(rows[i]) else rows[i])
  }

  /** Looking a session up after an UPDATE finds the updated row, and no other row changes. */
  lemma GetAfterUpdate(st: Store, id: string, f: SessionRow -> SessionRow, x: string)
    requires forall row :: f(row).id == row.id
    ensures var st' := st.(sessions := UpdateRow(st.sessions, id, f));
      GetSession(st', x) == (if x == id && HasSession(st, id) then Some(f(GetSession(st, x).value)) else GetSession(st, x))
  {
    var rows' := UpdateRow(st.sessions, id, f);
    Seqs.FirstIndexPointwise(st.sessions, HasId(x), rows', HasId(x));
  }

  /** An UPDATE whose id matches no row leaves the store as it was. */
  lemma UpdateMissingRow(st: Store, id: string, f: SessionRow -> SessionRow)
    requires forall row :: f(row).id == row.id
    ensures !HasSession(st, id) ==> st.(sessions := UpdateRow(st.sessions, id, f)) == st
  {
    if !HasSession(st, id) {
      assert UpdateRow(st.sessions, id, f) == st.sessions;
    }
  }

  /** `create_session`: inserts a row with no sids and no file ids, or returns
      false when the id is taken (the IntegrityError path). */
  function CreateSession(st: Store, id: string, now: string): (r: (Store, bool))
    ensures r.1 <==> !HasSession(st, id)
    ensures r.1 ==> GetSession(r.0, id) == Some(SessionRow(id, None, None, NullIds, now, now))
    ensures r.1 ==> forall x :: x != id ==> GetSession(r.0, x) == GetSession(st, x)
    ensures !r.1 ==> r.0 == st
    ensures r.0.messages == st.messages && r.0.files == st.files
    ensures Valid(st) ==> Valid(r.0)
  {
    if HasSession(st, id) then (st, false)
    else
      var row := SessionRow(id, None, None, NullIds, now, now);
      var st' := st.(sessions := st.sessions + [row]);
      assert forall x :: x != id ==> GetSession(st', x) == GetSession(st, x) by {
        forall x | x != id
          ensures GetSession(st', x) == GetSession(st, x)
        {
          Seqs.FirstIndexAppendMiss(st.sessions, row, HasId(x));
        }
      }
      assert HasId(id)(st'.sessions[|st.sessions|]);
      (st', true)
  }

  /** Python truthiness of an optional string: neither `None` nor "". */
  predicate Truthy(s: Option<string>)
  {
    s.Some? && s.value != ""
  }

  function SetSids(red: Option<string>, blue: Option<string>, now: string): SessionRow -> SessionRow
  {
    (row: SessionRow) => row.(redSid := if Truthy(red) then red else row.redSid,
                blueSid := if Truthy(blue) then blue else row.blueSid,
                updatedAt := now)
  }

  /** `update_session_sids`: overwrites only the truthy sids. */
  function UpdateSessionSids(st: Store, id: string, red: Option<string>, blue: Option<string>, now: string): (r: (Store, bool))
    ensures !Truthy(red) && !Truthy(blue) ==> r == (st, false)
    ensures Truthy(red) || Truthy(blue) ==> (r.1 <==> HasSession(st, id))
    ensures r.1 ==> GetSession(r.0, id).Some?
    ensures r.1 ==> var old_ := GetSession(st, id).value; var new_ := GetSession(r.0, id).value;
      new_ == old_.(redSid := if Truthy(red) then red else old_.redSid,
                    blueSid := if Truthy(blue) then blue else old_.blueSid,
                    updatedAt := now)
    ensures !HasSession(st, id) ==> r.0 == st
    ensures forall x :: x != id ==> GetSession(r.0, x) == GetSession(st, x)
    ensures r.0.messages == st.messages && r.0.files == st.files
    ensures Valid(st) ==> Valid(r.0)
  {
    if !Truthy(red) && !Truthy(blue) then (st, false)
    else
      var f := SetSids(red, blue, now);
      var st' := st.(sessions := UpdateRow(st.sessions, id, f));
      GetAfterUpdate(st, id, f, id);
      UpdateMissingRow(st, id, f);
      assert forall x :: x != id ==> GetSession(st', x) == GetSession(st, x) by {
        forall x | x != id { GetAfterUpdate(st, id, f, x); }
      }
      (st', HasSession(st, id))
  }

  function CreatedAt(row: SessionRow): string
  {
    row.createdAt
  }

  /** `list_sessions(limit)`: newest first, at most `limit` rows; a negative
      LIMIT means no limit in SQLite. */
  function ListSessions(st: Store, limit: int): (r: seq<SessionRow>)
    ensures |r| == if 0 <= limit < |st.sessions| then limit else |st.sessions|
    ensures forall i :: 0 <= i < |r| ==> r[i] in st.sessions
    ensures multiset(r) <= multiset(st.sessions)
    ensures !(0 <= limit < |st.sessions|) ==> multiset(r) == multiset(st.sessions)
    ensures Sorting.SortedBy(r, CreatedAt, true)
    ensures forall row, i :: row in st.sessions && row !in r && 0 <= i < |r| ==>
      Sorting.LexLe(row.createdAt, r[i].createdAt)
  {
    var sorted := Sorting.SortBy(st.sessions, CreatedAt, true);
    Sorting.SortBySorted(st.sessions, CreatedAt, true);
    var k := if 0 <= limit < |sorted| then limit else |sorted|;
    TopRowsAreNewest(st.sessions, sorted, k);
    PrefixSubMultiset(sorted, k);
    sorted[..k]
  }

  /** A prefix holds no element more often than the whole sequence does. */
  lemma PrefixSubMultiset<T>(s: seq<T>, k: nat)
    requires k <= |s|
    ensures multiset(s[..k]) <= multiset(s)
    ensures k == |s| ==> multiset(s[..k]) == multiset(s)
  {
    assert s == s[..k] + s[k..];
  }

  lemma TopRowsAreNewest(rows: seq<SessionRow>, sorted: seq<SessionRow>, k: nat)
    requires multiset(sorted) == multiset(rows) && k <= |sorted|
    requires Sorting.SortedBy(sorted, CreatedAt, true)
    ensures forall i :: 0 <= i < k ==> sorted[i] in rows
    ensures forall row, i :: row in rows && row !in sorted[..k] && 0 <= i < k ==>
      Sorting.LexLe(row.createdAt, sorted[i].createdAt)
  {
    forall i | 0 <= i < k
      ensures sorted[i] in rows
    {
      assert sorted[i] in multiset(sorted);
    }
    forall row, i | row in rows && row !in sorted[..k] && 0 <= i < k
      ensures Sorting.LexLe(row.createdAt, sorted[i].createdAt)
    {
      assert row in multiset(sorted);
      var j :| 0 <= j < |sorted| && sorted[j] == row;
      assert Sorting.InOrder(CreatedAt(sorted[i]), CreatedAt(sorted[j]), true);
    }
  }

  /** `update_session_knowledge_file_ids`: replaces the stored list. */
  function UpdateSessionKnowledgeFileIds(st: Store, id: string, ids: seq<string>, now: string): (r: (Store, bool))
    ensures r.1 <==> HasSession(st, id)
    ensures r.1 ==> GetSession(r.0, id).Some?
    ensures r.1 ==> var old_ := GetSession(st, id).value; var new_ := GetSession(r.0, id).value;
      new_ == old_.(fileIds := EncodedIds(ids), updatedAt := now)
    ensures !HasSession(st, id) ==> r.0 == st
    ensures forall x :: x != id ==> GetSession(r.0, x) == GetSession(st, x)
    ensures r.0.messages == st.messages && r.0.files == st.files
    ensures Valid(st) ==> Valid(r.0)
  {
    var f := (row: SessionRow) => row.(fileIds := EncodedIds(ids), updatedAt := now);
    var st' := st.(sessions := UpdateRow(st.sessions, id, f));
    GetAfterUpdate(st, id, f, id);
    UpdateMissingRow(st, id, f);
    assert forall x :: x != id ==> GetSession(st', x) == GetSession(st, x) by {
      forall x | x != id { GetAfterUpdate(st, id, f, x); }
    }
    (st', HasSession(st, id))
  }

  /** `get_session_knowledge_file_ids`: the stored list, or [] when the session
      is unknown, the column is NULL or empty, or its text does not parse. */
  function GetSessionKnowledgeFileIds(st: Store, id: string): (r: seq<string>)
    ensures !HasSession(st, id) ==> r == []
    ensures HasSession(st, id) && !GetSession(st, id).value.fileIds.EncodedIds? ==> r == []
  {
    match GetSession(st, id)
    case None => []
    case Some(row) =>
      match row.fileIds
      case NullIds => []
      case EncodedIds(ids) => ids
      case RawText(_) => []
  }

  /** Writing a list of file ids and reading it back gives the same list. */
  lemma KnowledgeFileIdsRoundTrip(st: Store, id: string, ids: seq<string>, now: string)
    requires HasSession(st, id)
    ensures UpdateSessionKnowledgeFileIds(st, id, ids, now).1
    ensures GetSessionKnowledgeFileIds(UpdateSessionKnowledgeFileIds(st, id, ids, now).0, id) == ids
  {
  }

  /** `delete_session` as written: removes the row and nothing else. The
      schema's ON DELETE CASCADE never fires because the connection does not
      enable foreign keys, so the session's messages stay. */
  function DeleteSession(st: Store, id: string): (r: (Store, bool))
    ensures r.1 <==> HasSession(st, id)
    ensures GetSession(r.0, id) == None
    ensures forall x :: x != id ==> GetSession(r.0, x) == GetSession(st, x)
    ensures r.0.messages == st.messages && r.0.files == st.files
    ensures Valid(st) ==> Valid(r.0)
  {
    var st' := st.(sessions := Seqs.Filter(st.sessions, (row: SessionRow) => row.id != id));
    DeleteKeepsOthers(st, st', id);
    (st', HasSession(st, id))
  }

  lemma DeleteKeepsOthers(st: Store, st': Store, id: string)
    requires st'.sessions == Seqs.Filter(st.sessions, (row: SessionRow) => row.id != id)
    ensures GetSession(st', id) == None
    ensures forall x :: x != id ==> GetSession(st', x) == GetSession(st, x)
    ensures (Valid(st) && st'.messages == st.messages && st'.files == st.files
      && st'.nextMessageId == st.nextMessageId && st'.nextFileRowId == st.nextFileRowId) ==> Valid(st')
  {
    var p := (row: SessionRow) => row.id != id;
    Seqs.FilterIsSubseq(st.sessions, p);
    forall x | x != id
      ensures GetSession(st', x) == GetSession(st, x)
    {
      FilterKeepsFirst(st.sessions, p, x);
    }
    if Valid(st) {
      SubseqKeepsDistinctIds(st'.sessions, st.sessions);
    }
  }

  /** Removing rows of other ids does not change which row is found for `x`. */
  lemma {:induction false} FilterKeepsFirst(rows: seq<SessionRow>, p: SessionRow -> bool, x: string)
    requires forall row: SessionRow :: row.id == x ==> p(row)
    ensures FindRow(Seqs.Filter(rows, p), x) == FindRow(rows, x)
    decreases |rows|
  {
    if |rows| > 0 {
      FilterKeepsFirst(rows[1..], p, x);
      FindRowCons(rows[0], rows[1..], x);
      assert rows == [rows[0]] + rows[1..];
      if p(rows[0]) {
        assert Seqs.Filter(rows, p) == [rows[0]] + Seqs.Filter(rows[1..], p);
        FindRowCons(rows[0], Seqs.Filter(rows[1..], p), x);
      }
    }
  }

  lemma {:induction false} SubseqKeepsDistinctIds(a: seq<SessionRow>, b: seq<SessionRow>)
    requires Seqs.IsSubseq(a, b)
    requires forall i, j :: 0 <= i < j < |b| ==> b[i].id != b[j].id
    ensures forall i, j :: 0 <= i < j < |a| ==> a[i].id != a[j].id
    ensures forall i :: 0 <= i < |a| ==> a[i] in b
    decreases |b|
  {
    if |a| > 0 {
      if a[0] == b[0] && Seqs.IsSubseq(a[1..], b[1..]) {
        SubseqKeepsDistinctIds(a[1..], b[1..]);
        forall j | 0 < j < |a|
          ensures a[0].id != a[j].id
        {
          assert a[1..][j - 1] in b[1..];
        }
      } else {
        SubseqKeepsDistinctIds(a, b[1..]);
      }
    }
  }

  // ------------------------------------------------------------------
  // Messages
  // ------------------------------------------------------------------

  function InSession(sid: string): Message -> bool
  {
    (m: Message) => m.sessionId == sid
  }

  function Timestamp(m: Message): string
  {
    m.timestamp
  }

  /** `add_message`: appends a row whose timestamp is the supplied one, or the
      local clock when none is given, and returns its AUTOINCREMENT id. The
      session is not checked: with foreign keys off any session id is accepted. */
  function AddMessage(st: Store, sid: string, role: string, content: string,
                      source: Option<string>, timestamp: Option<string>, clock: string): (r: (Store, nat))
    ensures |r.0.messages| == |st.messages| + 1
    ensures r.0.messages[..|st.messages|] == st.messages
    ensures var m := r.0.messages[|st.messages|];
      && m.id == r.1 && m.sessionId == sid && m.role == role && m.content == content && m.source == source
      && m.timestamp == (if timestamp.Some? then timestamp.value else clock)
    ensures Valid(st) ==> forall i :: 0 <= i < |st.messages| ==> st.messages[i].id < r.1
    ensures r.1 < r.0.nextMessageId
    ensures r.0.sessions == st.sessions && r.0.files == st.files
    ensures Valid(st) ==> Valid(r.0)
  {
    var ts := timestamp.GetOr(clock);
    var id := st.nextMessageId;
    var m := Message(id, sid, role, source, content, ts);
    (st.(messages := st.messages + [m], nextMessageId := id + 1), id)
  }

  /** `get_messages`: exactly the messages of that session, in non-decreasing
      timestamp order. */
  function GetMessages(st: Store, sid: string): (r: seq<Message>)
    ensures |r| == Seqs.Count(st.messages, InSession(sid))
    ensures multiset(r) == multiset(Seqs.Filter(st.messages, InSession(sid)))
    ensures forall m :: m in r <==> m in st.messages && m.sessionId == sid
    ensures Sorting.SortedBy(r, Timestamp, false)
  {
    var mine := Seqs.Filter(st.messages, InSession(sid));
    Seqs.CountIsFilterLength(st.messages, InSession(sid));
    Sorting.SortBySorted(mine, Timestamp, false);
    var r := Sorting.SortBy(mine, Timestamp, false);
    assert forall m :: m in r <==> m in mine by {
      forall m
        ensures m in r <==> m in mine
      {
        assert m in r <==> m in multiset(r);
        assert m in mine <==> m in multiset(mine);
      }
    }
    assert forall m :: m in mine <==> m in st.messages && m.sessionId == sid by {
      forall m | m in st.messages && m.sessionId == sid
        ensures m in mine
      {
        var i :| 0 <= i < |st.messages| && st.messages[i] == m;
        assert InSession(sid)(st.messages[i]);
      }
    }
    r
  }

  /** Adding a message to a session adds it to that session's transcript and
      to no other. */
  lemma AddMessageTranscript(st: Store, sid: string, role: string, content: string,
                             source: Option<string>, timestamp: Option<string>, clock: string, other: string)
    requires Valid(st)
    ensures var (st', id) := AddMessage(st, sid, role, content, source, timestamp, clock);
      && |GetMessages(st', sid)| == |GetMessages(st, sid)| + 1
      && (exists m :: m in GetMessages(st', sid) && m !in GetMessages(st, sid) && m.id == id)
      && (other != sid ==> GetMessages(st', other) == GetMessages(st, other))
  {
    var (st', id) := AddMessage(st, sid, role, content, source, timestamp, clock);
    var m := st'.messages[|st.messages|];
    assert st'.messages == st.messages + [m];
    Seqs.CountAppend(st.messages, [m], InSession(sid));
    assert Seqs.Count([m], InSession(sid)) == 1;
    assert m in st'.messages;
    assert m !in st.messages;
    if other != sid {
      Seqs.FilterAppend(st.messages, [m], InSession(other));
      assert Seqs.Filter([m], InSession(other)) == [];
      assert Seqs.Filter(st'.messages, InSession(other)) == Seqs.Filter(st.messages, InSession(other));
    }
  }

  /** `get_messages_for_report`: the transcript with NULL sources read as "". */
  function GetMessagesForReport(st: Store, sid: string): (r: seq<ReportRow>)
    ensures var ms := GetMessages(st, sid);
      && |r| == |ms|
      && forall i :: 0 <= i < |r| ==>
           && r[i].role == ms[i].role && r[i].content == ms[i].content
           && r[i].timestamp == ms[i].timestamp
           && r[i].source == (if ms[i].source.Some? then ms[i].source.value else "")
  {
    var ms := GetMessages(st, sid);
    seq(|ms|, i requires 0 <= i < |ms| => ReportRow(ms[i].role, ms[i].content, ms[i].source.GetOr(""), ms[i].timestamp))
  }

  /** The corrected delete: the session row and, as ON DELETE CASCADE intends,
      every message of that session. */
  function DeleteSessionCascading(st: Store, id: string): (r: (Store, bool))
    ensures r.1 <==> HasSession(st, id)
    ensures GetSession(r.0, id) == None
    ensures GetMessages(r.0, id) == []
    ensures forall x :: x != id ==> GetSession(r.0, x) == GetSession(st, x)
    ensures forall x :: x != id ==> GetMessages(r.0, x) == GetMessages(st, x)
    ensures r.0.files == st.files
  {
    var (st1, existed) := DeleteSession(st, id);
    var st' := st1.(messages := Seqs.Filter(st.messages, (m: Message) => m.sessionId != id));
    assert GetSession(st', id) == GetSession(st1, id);
    assert forall x :: x != id ==> GetSession(st', x) == GetSession(st1, x);
    assert GetMessages(st', id) == [] by {
      Seqs.CountIsFilterLength(st'.messages, InSession(id));
      Seqs.FilterNone(st'.messages, InSession(id));
    }
    assert forall x :: x != id ==> GetMessages(st', x) == GetMessages(st, x) by {
      forall x | x != id
        ensures GetMessages(st', x) == GetMessages(st, x)
      {
        Seqs.FilterFilter(st.messages, (m: Message) => m.sessionId != id, InSession(x), InSession(x));
      }
    }
    (st', existed)
  }

  /** As written, a deleted session's messages are still returned. */
  lemma DeleteSessionLeavesMessages()
    ensures var st1 := CreateSession(Empty(), "s", "2025-01-01 00:00:00").0;
      var st2 := AddMessage(st1, "s", "user", "hi", Some(""), None, "2025-01-01 08:00:00").0;
      var st3 := DeleteSession(st2, "s").0;
      GetSession(st3, "s") == None && |GetMessages(st3, "s")| == 1
  {
    var st1 := CreateSession(Empty(), "s", "2025-01-01 00:00:00").0;
    var st2 := AddMessage(st1, "s", "user", "hi", Some(""), None, "2025-01-01 08:00:00").0;
    var m := Message(1, "s", "user", Some(""), "hi", "2025-01-01 08:00:00");
    OneMessageWritten();
    DeleteKeepsMessages(st2, "s");
    assert [m][1..] == [];
    assert Seqs.Count(st2.messages, InSession("s")) == 1;
  }

  /** Deleting a session changes none of the messages `get_messages` returns for it. */
  lemma DeleteKeepsMessages(st: Store, id: string)
    ensures GetMessages(DeleteSession(st, id).0, id) == GetMessages(st, id)
  {
    var st' := DeleteSession(st, id).0;
    assert st'.messages == st.messages;
  }

  lemma OneMessageWritten()
    ensures var st1 := CreateSession(Empty(), "s", "2025-01-01 00:00:00").0;
      var st2 := AddMessage(st1, "s", "user", "hi", Some(""), None, "2025-01-01 08:00:00").0;
      st2.messages == [Message(1, "s", "user", Some(""), "hi", "2025-01-01 08:00:00")]
  {
    var st1 := CreateSession(Empty(), "s", "2025-01-01 00:00:00").0;
    assert st1.messages == [] && st1.nextMessageId == 1;
  }

  // ------------------------------------------------------------------
  // Statistics
  // ------------------------------------------------------------------

  predicate IsUser(m: Message) { m.role == "user" }
  predicate IsAssistant(m: Message) { m.role == "assistant" }
  /** `"红" in source` raises TypeError when an assistant row's source is NULL. */
  predicate Unreadable(m: Message) { m.role == "assistant" && m.source.None? }
  predicate IsRedReply(m: Message) { m.role == "assistant" && m.source.Some? && '红' in m.source.value }
  predicate IsBlueReply(m: Message)
  {
    m.role == "assistant" && m.source.Some? && '红' !in m.source.value && '蓝' in m.source.value
  }

  /** The loop of `get_session_stats` over the session's rows; `None` is the
      TypeError raised for an assistant row with a NULL source. */
  function Tally(ms: seq<Message>): (r: Option<Stats>)
    ensures r.Some? ==> r.value.total == |ms|
    ensures r.Some? ==> r.value.user + r.value.assistant <= r.value.total
    ensures r.Some? ==> r.value.red + r.value.blue <= r.value.assistant
  {
    if |ms| == 0 then Some(Stats(0, 0, 0, 0, 0))
    else
      var m := ms[0];
      match Tally(ms[1..])
      case None => None
      case Some(s) =>
        if m.role == "user" then Some(s.(total := s.total + 1, user := s.user + 1))
        else if m.role == "assistant" then
          if m.source.None? then None
          else if '红' in m.source.value then Some(s.(total := s.total + 1, assistant := s.assistant + 1, red := s.red + 1))
          else if '蓝' in m.source.value then Some(s.(total := s.total + 1, assistant := s.assistant + 1, blue := s.blue + 1))
          else Some(s.(total := s.total + 1, assistant := s.assistant + 1))
        else Some(s.(total := s.total + 1))
  }

  /** `get_session_stats`. */
  function GetSessionStats(st: Store, sid: string): (r: Option<Stats>)
    ensures r.Some? ==> r.value.total == Seqs.Count(st.messages, InSession(sid))
    ensures r.Some? ==> r.value.user + r.value.assistant <= r.value.total
    ensures r.Some? ==> r.value.red + r.value.blue <= r.value.assistant
  {
    Seqs.CountIsFilterLength(st.messages, InSession(sid));
    Tally(Seqs.Filter(st.messages, InSession(sid)))
  }

  /** The tally agrees with counting each kind of message separately. */
  lemma {:induction false} TallyIsCounts(ms: seq<Message>)
    ensures Tally(ms) == if Seqs.Count(ms, Unreadable) > 0 then None
      else Some(Stats(|ms|, Seqs.Count(ms, IsUser), Seqs.Count(ms, IsAssistant),
                      Seqs.Count(ms, IsRedReply), Seqs.Count(ms, IsBlueReply)))
    decreases |ms|
  {
    if |ms| > 0 {
      TallyIsCounts(ms[1..]);
    }
  }

  /** The rows `add_message` writes for two user questions, one red reply and one blue reply. */
  function ExampleTranscript(): seq<Message>
  {
    [ Message(1, "s", "user", Some(""), "q1", "t1"),
      Message(2, "s", "assistant", Some("红方魔鬼导师"), "a1", "t2"),
      Message(3, "s", "user", Some(""), "q2", "t3"),
      Message(4, "s", "assistant", Some("蓝方心理教练"), "a2", "t4") ]
  }

  /** Every message of the example transcript belongs to session "s". */
  lemma ExampleInSession()
    ensures Seqs.Filter(ExampleTranscript(), InSession("s")) == ExampleTranscript()
  {
    Seqs.FilterAll(ExampleTranscript(), InSession("s"));
  }

  lemma ExampleTally()
    ensures Tally(ExampleTranscript()) == Some(Stats(4, 2, 2, 1, 1))
  {
    var ms := ExampleTranscript();
    var m2, m3, m4 := ms[1], ms[2], ms[3];
    assert '红' in m2.source.value;
    assert '红' !in m4.source.value && '蓝' in m4.source.value;
    assert [m4][1..] == [];
    assert Tally([m4]) == Some(Stats(1, 0, 1, 0, 1));
    assert [m3, m4][1..] == [m4];
    assert Tally([m3, m4]) == Some(Stats(2, 1, 1, 0, 1));
    assert [m2, m3, m4][1..] == [m3, m4];
    assert Tally([m2, m3, m4]) == Some(Stats(3, 1, 2, 1, 1));
    assert ms[1..] == [m2, m3, m4];
  }

  /** Two user questions, one red reply and one blue reply give total 4, user 2,
      assistant 2, red 1, blue 1. */
  lemma StatsExample()
    ensures GetSessionStats(Store([], ExampleTranscript(), [], 5, 1), "s") == Some(Stats(4, 2, 2, 1, 1))
  {
    ExampleInSession();
    ExampleTally();
  }

  // ------------------------------------------------------------------
  // Knowledge files
  // ------------------------------------------------------------------

  function HasFileId(fileId: string): KnowledgeFile -> bool
  {
    (f: KnowledgeFile) => f.fileId == fileId
  }

  predicate HasKnowledgeFile(st: Store, fileId: string)
  {
    exists i :: 0 <= i < |st.files| && st.files[i].fileId == fileId
  }

  /** `get_knowledge_file_by_id`. */
  function GetKnowledgeFileById(st: Store, fileId: string): (r: Option<KnowledgeFile>)
    ensures r.Some? <==> HasKnowledgeFile(st, fileId)
    ensures r.Some? ==> r.value in st.files && r.value.fileId == fileId
  {
    match Seqs.FirstIndex(st.files, HasFileId(fileId))
    case Some(i) => Some(st.files[i])
    case None => None
  }

  /** `add_knowledge_file`: a duplicate `file_id` violates the UNIQUE constraint
      and the IntegrityError propagates; otherwise the new row id is returned. */
  function AddKnowledgeFile(st: Store, fileId: string, fileName: string, fileType: string,
                            fileSize: Option<int>, content: Option<string>, now: string): (r: Result<(Store, nat), string>)
    ensures r.Failure? <==> HasKnowledgeFile(st, fileId)
    ensures r.Success? ==> var (st', rowId) := r.value;
      && GetKnowledgeFileById(st', fileId) == Some(KnowledgeFile(rowId, fileId, fileName, fileType, fileSize, content, now))
      && (forall x :: x != fileId ==> GetKnowledgeFileById(st', x) == GetKnowledgeFileById(st, x))
      && (Valid(st) ==> forall i :: 0 <= i < |st.files| ==> st.files[i].rowId < rowId)
      && st'.sessions == st.sessions && st'.messages == st.messages
      && (Valid(st) ==> Valid(st'))
  {
    if HasKnowledgeFile(st, fileId) then Failure("UNIQUE constraint failed: knowledge_files.file_id")
    else
      var rowId := st.nextFileRowId;
      var row := KnowledgeFile(rowId, fileId, fileName, fileType, fileSize, content, now);
      var st' := st.(files := st.files + [row], nextFileRowId := rowId + 1);
      assert HasFileId(fileId)(st'.files[|st.files|]);
      assert forall x :: x != fileId ==> GetKnowledgeFileById(st', x) == GetKnowledgeFileById(st, x) by {
        forall x | x != fileId
          ensures GetKnowledgeFileById(st', x) == GetKnowledgeFileById(st, x)
        {
          Seqs.FirstIndexAppendMiss(st.files, row, HasFileId(x));
        }
      }
      Success((st', rowId))
  }

  function UploadedAt(f: KnowledgeFile): string
  {
    f.uploadedAt
  }

  /** `get_knowledge_files`: every row, most recently uploaded first. */
  function GetKnowledgeFiles(st: Store): (r: seq<KnowledgeFile>)
    ensures multiset(r) == multiset(st.files)
    ensures Sorting.SortedBy(r, UploadedAt, true)
  {
    Sorting.SortBySorted(st.files, UploadedAt, true);
    Sorting.SortBy(st.files, UploadedAt, true)
  }

  /** `delete_knowledge_file`: true iff a row with that `file_id` existed. */
  function DeleteKnowledgeFile(st: Store, fileId: string): (r: (Store, bool))
    ensures r.1 <==> HasKnowledgeFile(st, fileId)
    ensures !HasKnowledgeFile(r.0, fileId)
    ensures forall f :: f in r.0.files <==> f in st.files && f.fileId != fileId
    ensures r.0.sessions == st.sessions && r.0.messages == st.messages
  {
    var st' := st.(files := Seqs.Filter(st.files, (f: KnowledgeFile) => f.fileId != fileId));
    assert forall f :: f in st'.files <==> f in st.files && f.fileId != fileId by {
      forall f | f in st.files && f.fileId != fileId
        ensures f in st'.files
      {
        var i :| 0 <= i < |st.files| && st.files[i] == f;
      }
    }
    assert forall i :: 0 <= i < |st'.files| ==> st'.files[i].fileId != fileId;
    (st', HasKnowledgeFile(st, fileId))
  }

  /** `delete_all_knowledge_files`: empties the table and reports success;
      the AUTOINCREMENT counter is kept. */
  function DeleteAllKnowledgeFiles(st: Store): (r: (Store, bool))
    ensures r.1
    ensures forall x :: GetKnowledgeFileById(r.0, x) == None
    ensures |GetKnowledgeFiles(r.0)| == 0
    ensures r.0.nextFileRowId == st.nextFileRowId
    ensures r.0.sessions == st.sessions && r.0.messages == st.messages
    ensures Valid(st) ==> Valid(r.0)
  {
    (st.(files := []), true)
  }
}
