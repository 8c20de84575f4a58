/**
 * The conversation history kept in a session, and how `chat` turns it into
 * the (question, answer) pairs handed to the conversational chain: a "user"
 * message is remembered, the next "assistant" message is paired with it, an
 * assistant message without a remembered question is skipped, and messages
 * with any other role are ignored.
 */
module History {
  import opened Wrappers

  /** One entry of a reply's citation list: the `source` and `page` metadata of a retrieved chunk, either of which may be absent. */
  datatype Citation = Citation(source: Option<string>, page: Option<int>)

  /** A stored history entry; only assistant entries carry citations. */
  datatype Message = Message(role: string, content: string, citations: Option<seq<Citation>>)

  /** A (human, ai) pair of the chain's `chat_history`. */
  type Turn = (string, string)

  /** The variables of the pairing loop: the pairs so far, and `last_user`. */
  datatype PairingState = PairingState(pairs: seq<Turn>, lastUser: Option<string>)

  const Start := PairingState([], None)

  /** One turn of the pairing loop. */
  function PairStep(st: PairingState, m: Message): PairingState {
    if m.role == "user" then PairingState(st.pairs, Some(m.content))
    else if m.role == "assistant" && st.lastUser.Some? then
      PairingState(st.pairs + [(st.lastUser.value, m.content)], None)
    else st
  }

  /** The loop state after reading `msgs` from state `st`. */
  function Run(st: PairingState, msgs: seq<Message>): PairingState
    decreases |msgs|
  {
    if msgs == [] then st else PairStep(Run(st, msgs[..|msgs| - 1]), msgs[|msgs| - 1])
  }

  function Pairing(msgs: seq<Message>): PairingState {
    Run(Start, msgs)
  }

  /** The `chat_history` that `chat` builds from the stored messages. */
  function HistoryPairs(msgs: seq<Message>): seq<Turn> {
    Pairing(msgs).pairs
  }

  /** The question still waiting for an answer once `msgs` has been read. */
  function Pending(msgs: seq<Message>): Option<string> {
    Pairing(msgs).lastUser
  }

  /** The pairing loop of `chat`, proved to compute `HistoryPairs`. */
  method PairHistory(stored: seq<Message>) returns (chatHistory: seq<Turn>)
    ensures chatHistory == HistoryPairs(stored)
  {
    chatHistory := [];
    var lastUser: Option<string> := None;
    for i := 0 to |stored|
      invariant PairingState(chatHistory, lastUser) == Pairing(stored[..i])
    {
      var msg := stored[i];
      assert stored[..i + 1][..i] == stored[..i];
      if msg.role == "user" {
        lastUser := Some(msg.content);
      } else if msg.role == "assistant" && lastUser.Some? {
        chatHistory := chatHistory + [(lastUser.value, msg.content)];
        lastUser := None;
      }
    }
    assert stored[..|stored|] == stored;
  }

  /** Reading `a + b` is reading `a`, then going on with `b`. */
  lemma {:induction false} RunAppend(st: PairingState, a: seq<Message>, b: seq<Message>)
    ensures Run(st, a + b) == Run(Run(st, a), b)
    decreases |b|
  {
    if b == [] {
      assert a + b == a;
    } else {
      var b' := b[..|b| - 1];
      RunAppend(st, a, b');
      assert (a + b)[..|a + b| - 1] == a + b';
    }
  }

  lemma RunSnoc(st: PairingState, a: seq<Message>, m: Message)
    ensures Run(st, a + [m]) == PairStep(Run(st, a), m)
  {
    assert (a + [m])[..|a|] == a;
  }

  /**
   * A message extends the pairs exactly when it is an assistant message
   * answering a pending question; it then adds that question with its own
   * content, and otherwise the pairs stay as they are.
   */
  lemma PairAddedIff(msgs: seq<Message>, m: Message)
    ensures |HistoryPairs(msgs + [m])| == |HistoryPairs(msgs)| + 1 <==>
      m.role == "assistant" && Pending(msgs).Some?
    ensures m.role == "assistant" && Pending(msgs).Some? ==>
      HistoryPairs(msgs + [m]) == HistoryPairs(msgs) + [(Pending(msgs).value, m.content)]
    ensures !(m.role == "assistant" && Pending(msgs).Some?) ==>
      HistoryPairs(msgs + [m]) == HistoryPairs(msgs)
  {
    RunSnoc(Start, msgs, m);
  }

  /** A user message always becomes the pending question, replacing an unanswered one. */
  lemma LatestUserWins(msgs: seq<Message>, m: Message)
    requires m.role == "user"
    ensures Pending(msgs + [m]) == Some(m.content)
    ensures HistoryPairs(msgs + [m]) == HistoryPairs(msgs)
  {
    RunSnoc(Start, msgs, m);
  }

  /** A message of any other role can be removed from anywhere in the history without changing the pairs. */
  lemma OtherRolesIgnored(before: seq<Message>, m: Message, after: seq<Message>)
    requires m.role != "user" && m.role != "assistant"
    ensures Pairing(before + [m] + after) == Pairing(before + after)
  {
    RunAppend(Start, before + [m], after);
    RunAppend(Start, before, after);
    RunSnoc(Start, before, m);
  }

  /** The number of messages with the given role. */
  function RoleCount(msgs: seq<Message>, role: string): nat
    decreases |msgs|
  {
    if msgs == [] then 0
    else RoleCount(msgs[..|msgs| - 1], role) + (if msgs[|msgs| - 1].role == role then 1 else 0)
  }

  /**
   * Every pair uses up one user and one assistant message: there are no
   * more pairs than answers, and the pairs plus the pending question are no
   * more than the questions.
   */
  lemma {:induction false} PairCount(msgs: seq<Message>)
    ensures |HistoryPairs(msgs)| <= RoleCount(msgs, "assistant")
    ensures |HistoryPairs(msgs)| + (if Pending(msgs).Some? then 1 else 0) <= RoleCount(msgs, "user")
    decreases |msgs|
  {
    if msgs != [] {
      var init, m := msgs[..|msgs| - 1], msgs[|msgs| - 1];
      PairCount(init);
      assert Pairing(msgs) == PairStep(Pairing(init), m) by {
        RunSnoc(Start, init, m);
        assert init + [m] == msgs;
      }
      assert RoleCount(msgs, "user") == RoleCount(init, "user") + (if m.role == "user" then 1 else 0);
      assert RoleCount(msgs, "assistant") == RoleCount(init, "assistant") + (if m.role == "assistant" then 1 else 0);
    }
  }

  /** A question followed by its answer adds exactly that pair, whatever came before. */
  lemma ExchangePaired(msgs: seq<Message>, question: Message, answer: Message)
    requires question.role == "user" && answer.role == "assistant"
    ensures HistoryPairs(msgs + [question, answer]) == HistoryPairs(msgs) + [(question.content, answer.content)]
    ensures Pending(msgs + [question, answer]) == None
  {
    RunSnoc(Start, msgs, question);
    RunSnoc(Start, msgs + [question], answer);
    assert msgs + [question] + [answer] == msgs + [question, answer];
  }

  /** A history as `chat` writes it: user and assistant messages, alternating, starting with a user message. */
  predicate IsTranscript(h: seq<Message>)
    decreases |h|
  {
    h == [] ||
    (|h| >= 2 && IsTranscript(h[..|h| - 2]) && h[|h| - 2].role == "user" && h[|h| - 1].role == "assistant")
  }

  /** The (question, answer) contents of a transcript, exchange by exchange. */
  function Exchanges(h: seq<Message>): seq<Turn>
    requires IsTranscript(h)
    decreases |h|
  {
    if h == [] then [] else Exchanges(h[..|h| - 2]) + [(h[|h| - 2].content, h[|h| - 1].content)]
  }

  /** Pairing a transcript recovers every exchange, in order, and leaves no question pending. */
  lemma {:induction false} TranscriptPairs(h: seq<Message>)
    requires IsTranscript(h)
    ensures HistoryPairs(h) == Exchanges(h)
    ensures Pending(h) == None
    decreases |h|
  {
    if h != [] {
      var init := h[..|h| - 2];
      TranscriptPairs(init);
      ExchangePaired(init, h[|h| - 2], h[|h| - 1]);
      assert init + [h[|h| - 2], h[|h| - 1]] == h;
    }
  }
}
