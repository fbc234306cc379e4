/** The in-memory chat history of a training page and the context each persona
    is given. The history is a plain sequence and the clock a parameter. */
module ChatManager {

  import opened Wrappers
  import Seqs

  /** One entry of the chat history. `role` is "user", "red" or "blue";
      `target` is `None` when the key is absent or holds `None`. */
  datatype ChatMessage = ChatMessage(role: string, content: string, timestamp: string, target: Option<string>)

  /** The page state `clear_chat_history` resets. */
  datatype ChatState = ChatState(history: seq<ChatMessage>, currentRound: int)

  /** `add_message`: appends one entry stamped with the clock and returns it. */
  function AddMessage(history: seq<ChatMessage>, role: string, content: string,
                      target: Option<string>, clock: string): (r: (seq<ChatMessage>, ChatMessage))
    ensures |r.0| == |history| + 1
    ensures r.0[..|history|] == history
    ensures r.0[|history|] == r.1
    ensures r.1.role == role && r.1.content == content && r.1.target == target && r.1.timestamp == clock
  {
    var m := ChatMessage(role, content, clock, target);
    (history + [m], m)
  }

  predicate IsUser(m: ChatMessage)
  {
    m.role == "user"
  }

  /** Directed at red, or a legacy entry with no target. */
  predicate ForRed(m: ChatMessage)
  {
    m.target == Some("red") || m.target.None?
  }

  predicate UserToRed(m: ChatMessage)
  {
    IsUser(m) && ForRed(m)
  }

  /** `get_red_context`: the user messages, then those directed at red. */
  function RedContext(history: seq<ChatMessage>): (r: seq<ChatMessage>)
    ensures forall i :: 0 <= i < |r| ==> r[i].role == "user" && ForRed(r[i])
    ensures |r| <= Seqs.Count(history, IsUser)
  {
    var userMessages := Seqs.Filter(history, IsUser);
    Seqs.CountIsFilterLength(history, IsUser);
    Seqs.Filter(userMessages, ForRed)
  }

  /** The two-step filter is one filter by "user message directed at red or
      untargeted", and it keeps the history's order. */
  lemma RedContextIsOnePass(history: seq<ChatMessage>)
    ensures RedContext(history) == Seqs.Filter(history, UserToRed)
    ensures Seqs.IsSubseq(RedContext(history), history)
    ensures forall i :: 0 <= i < |history| && UserToRed(history[i]) ==> history[i] in RedContext(history)
  {
    Seqs.FilterFilter(history, IsUser, ForRed, UserToRed);
    Seqs.FilterIsSubseq(history, UserToRed);
  }

  /** Adding a message extends red's context by it exactly when it is a user
      message directed at red or untargeted. */
  lemma RedContextAfterAdd(history: seq<ChatMessage>, role: string, content: string,
                           target: Option<string>, clock: string)
    ensures var (h, m) := AddMessage(history, role, content, target, clock);
      RedContext(h) == RedContext(history) + (if role == "user" && (target == Some("red") || target.None?) then [m] else [])
  {
    var (h, m) := AddMessage(history, role, content, target, clock);
    RedContextIsOnePass(history);
    RedContextIsOnePass(h);
    Seqs.FilterAppend(history, [m], UserToRed);
    assert Seqs.Filter([m], UserToRed) == if UserToRed(m) then [m] else [];
  }

  /** `get_blue_context`: the whole history, as it is. */
  function BlueContext(history: seq<ChatMessage>): (r: seq<ChatMessage>)
    ensures r == history
  {
    history
  }

  /** Red sees a part of what blue sees, in the same order. */
  lemma RedContextWithinBlueContext(history: seq<ChatMessage>)
    ensures Seqs.IsSubseq(RedContext(history), BlueContext(history))
    ensures |RedContext(history)| <= |BlueContext(history)|
  {
    RedContextIsOnePass(history);
  }

  /** A user message explicitly directed at red; untargeted ones do not count. */
  predicate UserExplicitlyToRed(m: ChatMessage)
  {
    m.role == "user" && m.target == Some("red")
  }

  /** `get_last_user_message_to_red`. */
  function LastUserMessageToRed(history: seq<ChatMessage>): (r: Option<ChatMessage>)
    ensures r.None? <==> forall i :: 0 <= i < |history| ==> !UserExplicitlyToRed(history[i])
    ensures r.Some? ==>
      exists i ::
        && 0 <= i < |history| && history[i] == r.value && UserExplicitlyToRed(history[i])
        && (forall j :: i < j < |history| ==> !UserExplicitlyToRed(history[j]))
  {
    Seqs.LastMatch(history, UserExplicitlyToRed)
  }

  /** `clear_chat_history`: no messages and round 0, whatever came before. */
  function ClearChatHistory(st: ChatState): (r: ChatState)
    ensures |r.history| == 0 && r.currentRound == 0
    ensures RedContext(r.history) == [] && LastUserMessageToRed(r.history).None?
  {
    ChatState([], 0)
  }
}
