/** The chat window's state: the messages on screen, the conversation history
    sent to the server, the input box and the typing indicator. `sendMessage`
    is split at its `await`: the part before the request and the part that
    handles the server's answer; the server is a parameter. */
module ChatWindow {
  import opened Common
  import Text

  datatype Sender = UserSender | BotSender
  datatype ChatMessage = ChatMessage(text: string, sender: Sender)

  datatype Role = UserRole | AssistantRole
  datatype Turn = Turn(role: Role, content: string)

  datatype ChatState = ChatState(
    messages: seq<ChatMessage>,
    history: seq<Turn>,
    input: string,
    isTyping: bool)

  /** The body posted to the chat endpoint. */
  datatype ChatRequest = ChatRequest(message: string, conversationHistory: seq<Turn>)

  /** What the request produced: the reply field of a success, or an error. */
  datatype ChatReply = Replied(reply: string) | RequestFailed

  datatype Sending = NotSent | Sent(state: ChatState, request: ChatRequest)

  const ErrorText := "Sorry, there was an error processing your message."

  /** `customInput !== undefined ? customInput : input`; `None` is `undefined`. */
  function TextToSend(st: ChatState, customInput: Option<string>): string {
    customInput.GetOr(st.input)
  }

  /** `sendMessage` up to the request: a blank text sends nothing; otherwise the
      user's message and turn are appended, the input is cleared, the typing
      indicator is shown, and the request carries the history as it was
      before this message. */
  function BeginSend(st: ChatState, customInput: Option<string>): (r: Sending)
    ensures r.NotSent? <==> Text.IsBlank(TextToSend(st, customInput))
    ensures r.Sent? ==>
      var text := TextToSend(st, customInput);
      && r.state.messages == st.messages + [ChatMessage(text, UserSender)]
      && r.state.history == st.history + [Turn(UserRole, text)]
      && r.state.input == "" && r.state.isTyping
      && r.request == ChatRequest(text, st.history)
  {
    var text := TextToSend(st, customInput);
    if Text.Trim(text) == "" then NotSent
    else
      Sent(ChatState(st.messages + [ChatMessage(text, UserSender)],
                     st.history + [Turn(UserRole, text)],
                     "", true),
           ChatRequest(text, st.history))
  }

  /** `sendMessage` after the request: a reply adds one bot message and one
      assistant turn; a failure adds the fixed error message to the screen
      only. Either way the typing indicator goes off. */
  function FinishSend(st: ChatState, outcome: ChatReply): (r: ChatState)
    ensures !r.isTyping && r.input == st.input
    ensures outcome.Replied? ==>
      r.messages == st.messages + [ChatMessage(outcome.reply, BotSender)]
      && r.history == st.history + [Turn(AssistantRole, outcome.reply)]
    ensures outcome.RequestFailed? ==>
      r.messages == st.messages + [ChatMessage(ErrorText, BotSender)] && r.history == st.history
  {
    match outcome
    case Replied(reply) =>
      st.(isTyping := false,
          messages := st.messages + [ChatMessage(reply, BotSender)],
          history := st.history + [Turn(AssistantRole, reply)])
    case RequestFailed =>
      st.(isTyping := false, messages := st.messages + [ChatMessage(ErrorText, BotSender)])
  }

  /** A whole `sendMessage` call with no other event in between; `server`
      answers the request. */
  function SendMessage(st: ChatState, customInput: Option<string>, server: ChatRequest -> ChatReply): ChatState {
    match BeginSend(st, customInput)
    case NotSent => st
    case Sent(s1, request) => FinishSend(s1, server(request))
  }

  /** The three outcomes of a send: nothing for blank text; user message then
      reply on success; user message then the error text on failure. */
  lemma SendOutcomes(st: ChatState, customInput: Option<string>, server: ChatRequest -> ChatReply)
    ensures var text := TextToSend(st, customInput);
      var r := SendMessage(st, customInput, server);
      && (Text.IsBlank(text) ==> r == st)
      && (!Text.IsBlank(text) ==>
            var request := ChatRequest(text, st.history);
            && r.input == "" && !r.isTyping
            && (server(request).Replied? ==>
                  r.messages == st.messages + [ChatMessage(text, UserSender), ChatMessage(server(request).reply, BotSender)]
                  && r.history == st.history + [Turn(UserRole, text), Turn(AssistantRole, server(request).reply)])
            && (server(request).RequestFailed? ==>
                  r.messages == st.messages + [ChatMessage(text, UserSender), ChatMessage(ErrorText, BotSender)]
                  && r.history == st.history + [Turn(UserRole, text)]))
  {
  }

  /** The role a screen message plays in the history. */
  function RoleOf(s: Sender): Role {
    match s
    case UserSender => UserRole
    case BotSender => AssistantRole
  }

  /** The history that corresponds message by message to `messages`. */
  function ToHistory(messages: seq<ChatMessage>): (h: seq<Turn>)
    ensures |h| == |messages|
    ensures forall i :: 0 <= i < |h| ==> h[i] == Turn(RoleOf(messages[i].sender), messages[i].text)
  {
    seq(|messages|, i requires 0 <= i < |messages| => Turn(RoleOf(messages[i].sender), messages[i].text))
  }

  /** Messages shown later add history turns after the existing ones: the
      history of a screen is built up message by message. */
  lemma HistoryOfAppend(a: seq<ChatMessage>, b: seq<ChatMessage>)
    ensures ToHistory(a + b) == ToHistory(a) + ToHistory(b)
    ensures ToHistory(b) == [] <==> b == []
  {
  }

  /** A successful send keeps the history in step with the screen; a failed
      one leaves the error message on screen without a history turn. */
  lemma SendKeepsHistoryInStep(st: ChatState, customInput: Option<string>, server: ChatRequest -> ChatReply)
    requires st.history == ToHistory(st.messages)
    ensures var r := SendMessage(st, customInput, server);
      var text := TextToSend(st, customInput);
      (Text.IsBlank(text) || server(ChatRequest(text, st.history)).Replied?)
        ==> r.history == ToHistory(r.messages)
    ensures var r := SendMessage(st, customInput, server);
      var text := TextToSend(st, customInput);
      (!Text.IsBlank(text) && server(ChatRequest(text, st.history)).RequestFailed?)
        ==> ToHistory(r.messages) == r.history + [Turn(AssistantRole, ErrorText)]
  {
    var r := SendMessage(st, customInput, server);
    var text := TextToSend(st, customInput);
    if !Text.IsBlank(text) {
      assert ToHistory(r.messages)[..|st.messages|] == ToHistory(st.messages);
    }
  }

  // ---------------------------------------------------------------------------
  // Loading the stored history

  /** A message as the history endpoint returns it. */
  datatype StoredChat = StoredChat(text: string, sender: string)

  /** The history request: failed, or answered with a `messages` field that may
      be missing. */
  datatype HistoryFetch = FetchFailed | Fetched(messages: Option<seq<StoredChat>>)

  function SenderOf(sender: string): Sender {
    if sender == "user" then UserSender else BotSender
  }

  /** `fetchChatHistory`: the fetched list replaces both the screen messages
      and the history; sender "user" becomes a user message and a user turn,
      anything else a bot message and an assistant turn; a failed request
      changes nothing. */
  function ApplyFetchedHistory(st: ChatState, fetch: HistoryFetch): (r: ChatState)
    ensures fetch.FetchFailed? ==> r == st
    ensures fetch.Fetched? ==>
      var list := fetch.messages.GetOr([]);
      && r.input == st.input && r.isTyping == st.isTyping
      && |r.messages| == |list| && |r.history| == |list|
      && forall i :: 0 <= i < |list| ==>
           && r.messages[i].text == list[i].text && r.history[i].content == list[i].text
           && (r.messages[i].sender == UserSender <==> list[i].sender == "user")
           && (r.history[i].role == UserRole <==> list[i].sender == "user")
  {
    match fetch
    case FetchFailed => st
    case Fetched(m) =>
      var list := m.GetOr([]);
      st.(messages := seq(|list|, i requires 0 <= i < |list| => ChatMessage(list[i].text, SenderOf(list[i].sender))),
          history := seq(|list|, i requires 0 <= i < |list| =>
                       Turn(if list[i].sender == "user" then UserRole else AssistantRole, list[i].text)))
  }

  /** After loading, the history is exactly the one the screen messages imply. */
  lemma FetchedHistoryInStep(st: ChatState, fetch: HistoryFetch)
    requires fetch.Fetched?
    ensures var r := ApplyFetchedHistory(st, fetch); r.history == ToHistory(r.messages)
  {
  }

  /** `createJournalFromConversation`: with no messages on screen nothing is
      sent; otherwise the request body carries the conversation history. */
  function JournalRequest(st: ChatState): (r: Option<seq<Turn>>)
    ensures r.None? <==> |st.messages| == 0
    ensures r.Some? ==> r.value == st.history
  {
    if |st.messages| == 0 then None else Some(st.history)
  }
}
