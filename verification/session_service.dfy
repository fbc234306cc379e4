/** `SessionService`: session creation with one retry and the read-modify-write
    of a session's knowledge-file id list, on top of the transcript store. The
    uuid generator is a parameter: each call supplies the `uuid4().hex` values. */
module SessionService {

  import opened Wrappers
  import Database

  predicate IsHexDigit(c: char)
  {
    '0' <= c <= '9' || 'a' <= c <= 'f'
  }

  /** The shape of `uuid.uuid4().hex`: 32 lower-case hex digits. */
  predicate IsUuidHex(h: string)
  {
    |h| == 32 && forall i :: 0 <= i < |h| ==> IsHexDigit(h[i])
  }

  /** `f"session_{uuid.uuid4().hex[:12]}"`. */
  function SessionIdFrom(hex: string): string
    requires IsUuidHex(hex)
  {
    "session_" + hex[..12]
  }

  /** A session id as `create_session` builds them. */
  predicate IsSessionId(id: string)
  {
    |id| == 20 && id[..8] == "session_" && forall i :: 8 <= i < 20 ==> IsHexDigit(id[i])
  }

  /** `create_session`: inserts the id built from `hex1`; when that id is taken,
      builds one from `hex2` and inserts it without looking at the result. */
  function CreateSession(st: Database.Store, hex1: string, hex2: string, now: string): (r: (Database.Store, string))
    requires IsUuidHex(hex1) && IsUuidHex(hex2)
    ensures IsSessionId(r.1)
    ensures Database.HasSession(r.0, r.1)
    ensures !Database.HasSession(st, SessionIdFrom(hex1)) ==>
      r.1 == SessionIdFrom(hex1) && !Database.HasSession(st, r.1)
    ensures Database.HasSession(st, SessionIdFrom(hex1)) ==> r.1 == SessionIdFrom(hex2)
    ensures !Database.HasSession(st, r.1) ==>
      Database.GetSession(r.0, r.1) == Some(Database.SessionRow(r.1, None, None, Database.NullIds, now, now))
    ensures Database.HasSession(st, r.1) ==> r.0 == st
    ensures forall x :: x != r.1 ==> Database.GetSession(r.0, x) == Database.GetSession(st, x)
    ensures r.0.messages == st.messages
    ensures Database.Valid(st) ==> Database.Valid(r.0)
  {
    var id := SessionIdFrom(hex1);
    var (st1, ok) := Database.CreateSession(st, id, now);
    if ok then (st1, id)
    else
      var id2 := SessionIdFrom(hex2);
      var (st2, _) := Database.CreateSession(st, id2, now);
      (st2, id2)
  }

  /** When both generated ids are taken, the id returned names a session that
      already existed and nothing was inserted. */
  lemma CreateSessionSecondCollision(st: Database.Store, hex1: string, hex2: string, now: string)
    requires IsUuidHex(hex1) && IsUuidHex(hex2)
    requires Database.HasSession(st, SessionIdFrom(hex1)) && Database.HasSession(st, SessionIdFrom(hex2))
    ensures CreateSession(st, hex1, hex2, now) == (st, SessionIdFrom(hex2))
  {
  }

  /** `update_knowledge_file_ids`, delegating to the store. */
  function UpdateKnowledgeFileIds(st: Database.Store, sid: string, ids: seq<string>, now: string): (Database.Store, bool)
  {
    Database.UpdateSessionKnowledgeFileIds(st, sid, ids, now)
  }

  /** `get_knowledge_file_ids`, delegating to the store. */
  function GetKnowledgeFileIds(st: Database.Store, sid: string): seq<string>
  {
    Database.GetSessionKnowledgeFileIds(st, sid)
  }

  /** Through the service, too, the list written is the list read back. */
  lemma KnowledgeFileIdsRoundTrip(st: Database.Store, sid: string, ids: seq<string>, now: string)
    requires Database.HasSession(st, sid)
    ensures UpdateKnowledgeFileIds(st, sid, ids, now).1
    ensures GetKnowledgeFileIds(UpdateKnowledgeFileIds(st, sid, ids, now).0, sid) == ids
  {
    Database.KnowledgeFileIdsRoundTrip(st, sid, ids, now);
  }

  predicate NoDuplicates(s: seq<string>)
  {
    forall i, j :: 0 <= i < j < |s| ==> s[i] != s[j]
  }

  /** `add_knowledge_file_id`: read the list, append the id if it is new, write
      the list back. */
  function AddKnowledgeFileId(st: Database.Store, sid: string, fileId: string, now: string): (r: (Database.Store, bool))
    ensures var before := GetKnowledgeFileIds(st, sid);
      fileId in before ==> r == (st, true)
    ensures var before := GetKnowledgeFileIds(st, sid);
      fileId !in before ==> (r.1 <==> Database.HasSession(st, sid))
    ensures !Database.HasSession(st, sid) ==> !r.1 && r.0 == st
    ensures var before := GetKnowledgeFileIds(st, sid);
      r.1 && fileId !in before ==> GetKnowledgeFileIds(r.0, sid) == before + [fileId]
    ensures forall x :: x != sid ==> Database.GetSession(r.0, x) == Database.GetSession(st, x)
    ensures r.0.messages == st.messages && r.0.files == st.files
    ensures Database.Valid(st) ==> Database.Valid(r.0)
  {
    var existing := GetKnowledgeFileIds(st, sid);
    if fileId !in existing then UpdateKnowledgeFileIds(st, sid, existing + [fileId], now)
    else (st, true)
  }

  /** Adding ids one at a time keeps the session's list free of duplicates. */
  lemma AddKnowledgeFileIdKeepsSet(st: Database.Store, sid: string, fileId: string, now: string)
    requires NoDuplicates(GetKnowledgeFileIds(st, sid))
    ensures NoDuplicates(GetKnowledgeFileIds(AddKnowledgeFileId(st, sid, fileId, now).0, sid))
    ensures fileId in GetKnowledgeFileIds(AddKnowledgeFileId(st, sid, fileId, now).0, sid) <==>
      Database.HasSession(st, sid)
  {
    var before := GetKnowledgeFileIds(st, sid);
    var (st', ok) := AddKnowledgeFileId(st, sid, fileId, now);
    if !Database.HasSession(st, sid) {
      assert before == [];
    } else if fileId !in before {
      assert GetKnowledgeFileIds(st', sid) == before + [fileId];
      assert (before + [fileId])[|before|] == fileId;
    } else {
      assert before != [];
    }
  }
}
