/** `ReportGenerator._build_prompt`: the user prompt sent to the report model,
    built from a conversation given as a list of dictionaries. */
module ReportService {

  import opened Wrappers
  import Text
  import Seqs
  import Database

  /** A dictionary entry: the key is absent, holds `None`, or holds a string. */
  datatype Field = Absent | Null | Str(s: string)

  datatype ConvMessage = ConvMessage(role: Field, content: Field, source: Field, timestamp: Field)

  /** `f"{msg.get(key, '')}"`: an absent key renders as "", `None` as "None". */
  function Render(f: Field): string
  {
    match f
    case Absent => ""
    case Null => "None"
    case Str(s) => s
  }

  /** `role_map.get(msg.get("role", "user"), "AI")`. */
  function RoleLabel(role: Field): (r: string)
    ensures role.Absent? ==> r == "你"
    ensures role == Str("user") ==> r == "你"
    ensures role == Str("assistant") ==> r == "AI回复"
    ensures role.Null? || (role.Str? && role.s != "user" && role.s != "assistant") ==> r == "AI"
  {
    var key := if role.Absent? then Str("user") else role;
    if key == Str("user") then "你"
    else if key == Str("assistant") then "AI回复"
    else "AI"
  }

  /** The role label, followed by "(source)" when the source is a non-empty string. */
  function Label(m: ConvMessage): (r: string)
    ensures m.source.Str? && m.source.s != "" ==> r == RoleLabel(m.role) + "(" + m.source.s + ")"
    ensures !(m.source.Str? && m.source.s != "") ==> r == RoleLabel(m.role)
  {
    var role := RoleLabel(m.role);
    match m.source
    case Str(s) => if s != "" then role + "(" + s + ")" else role
    case _ => role
  }

  /** One transcript line: `[timestamp] label: content`. */
  function FormatLine(m: ConvMessage): string
  {
    "[" + Render(m.timestamp) + "] " + Label(m) + ": " + Render(m.content)
  }

  /** One line per message, in conversation order. */
  function Lines(conv: seq<ConvMessage>): (r: seq<string>)
    ensures |r| == |conv|
    ensures forall i :: 0 <= i < |conv| ==> r[i] == FormatLine(conv[i])
  {
    seq(|conv|, i requires 0 <= i < |conv| => FormatLine(conv[i]))
  }

  /** The lines separated by blank lines. */
  function ConversationText(conv: seq<ConvMessage>): string
  {
    Text.Join(Lines(conv), "\n\n")
  }

  /** Transcript text composes: the text of `a + b` is the text of `a`, a blank
      line, then the text of `b`; an empty conversation has empty text and a single
      message is its line. */
  lemma ConversationTextConcat(a: seq<ConvMessage>, b: seq<ConvMessage>)
    ensures ConversationText([]) == ""
    ensures |a| == 1 ==> ConversationText(a) == FormatLine(a[0])
    ensures |a| >= 1 && |b| >= 1 ==>
      ConversationText(a + b) == ConversationText(a) + "\n\n" + ConversationText(b)
  {
    if |a| >= 1 && |b| >= 1 {
      assert Lines(a + b) == Lines(a) + Lines(b);
      Text.JoinConcat(Lines(a), Lines(b), "\n\n");
    }
  }

  predicate HasRole(m: ConvMessage, role: string)
  {
    m.role == Str(role)
  }

  predicate IsUser(m: ConvMessage) { HasRole(m, "user") }
  predicate IsAssistant(m: ConvMessage) { HasRole(m, "assistant") }
  predicate MissingRole(m: ConvMessage) { m.role.Absent? }

  function StatsText(total: nat, user: nat, assistant: nat): string
  {
    "\n- 总消息数：" + Text.NatToDecimal(total)
      + "\n- 用户提问：" + Text.NatToDecimal(user)
      + " 次\n- 智能体回复：" + Text.NatToDecimal(assistant) + " 次\n"
  }

  const PromptHead := "\n以下是对话内容：\n\n"
  const PromptTail := "\n\n请严格按照要求的结构生成报告。\n"

  /** `_build_prompt`. `m["role"]` in the counting comprehensions raises KeyError
      for a message without a role, before the `msg.get("role", "user")` default
      is reached; that is the `None` result. */
  function BuildPrompt(conv: seq<ConvMessage>): (r: Option<string>)
    ensures r.None? <==> exists i :: 0 <= i < |conv| && conv[i].role.Absent?
    ensures r.Some? ==>
      r.value == PromptHead + ConversationText(conv) + "\n\n"
        + StatsText(|conv|, Seqs.Count(conv, IsUser), Seqs.Count(conv, IsAssistant)) + PromptTail
  {
    if Seqs.Count(conv, MissingRole) > 0 then
      Seqs.CountIsFilterLength(conv, MissingRole);
      assert Seqs.Filter(conv, MissingRole)[0] in conv;
      None
    else
      Seqs.CountIsFilterLength(conv, MissingRole);
      var total := |conv|;
      var userCount := Seqs.Count(conv, IsUser);
      var assistantCount := Seqs.Count(conv, IsAssistant);
      Some(PromptHead + ConversationText(conv) + "\n\n" + StatsText(total, userCount, assistantCount) + PromptTail)
  }

  /** The counts in the prompt: user and assistant messages together never
      exceed the total. */
  lemma PromptCounts(conv: seq<ConvMessage>)
    ensures Seqs.Count(conv, IsUser) + Seqs.Count(conv, IsAssistant) <= |conv|
  {
    Seqs.CountDisjoint(conv, IsUser, IsAssistant);
  }

  /** A report row from the store as the dictionary the generator reads. */
  function FromReportRow(row: Database.ReportRow): ConvMessage
  {
    ConvMessage(Str(row.role), Str(row.content), Str(row.source), Str(row.timestamp))
  }

  /** A stored transcript always yields a prompt, whose total is the number of
      messages of the session. */
  lemma StoredTranscriptBuildsPrompt(st: Database.Store, sid: string)
    ensures var rows := Database.GetMessagesForReport(st, sid);
      var conv := seq(|rows|, i requires 0 <= i < |rows| => FromReportRow(rows[i]));
      && BuildPrompt(conv).Some?
      && |conv| == Seqs.Count(st.messages, Database.InSession(sid))
  {
  }
}
