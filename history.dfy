/**
 * The history normaliser of `processMessage`: the chat history sent by the
 * client becomes the list of LangChain messages the conversational chain
 * is given.
 */
module History {

  /** One turn of the history as the client sends it. */
  datatype ChatRecord = ChatRecord(role: string, message: string)

  /** A LangChain chat message: a `HumanMessage` or an `AIMessage`. */
  datatype ChatMessage = Human(text: string) | Ai(text: string)

  /** The greeting that stands in for an empty history. */
  const Greeting: string := "Hello! Which product are you looking for today?"

  /** One turn: the role "user" makes a human message, every other role an AI message. */
  function ToMessage(record: ChatRecord): (m: ChatMessage)
    ensures m.text == record.message
    ensures m.Human? <==> record.role == "user"
  {
    if record.role == "user" then Human(record.message) else Ai(record.message)
  }

  /** `chatHistory.map(...)`. */
  function MapTurns(records: seq<ChatRecord>): (ms: seq<ChatMessage>)
    ensures |ms| == |records|
    ensures forall i :: 0 <= i < |records| ==>
              ms[i].text == records[i].message && (ms[i].Human? <==> records[i].role == "user")
    decreases |records|
  {
    if records == [] then [] else [ToMessage(records[0])] + MapTurns(records[1..])
  }

  /**
   * The history handed to the chain: a single AI greeting for an empty
   * history, otherwise one message per turn, in order, human exactly when
   * the turn's role is "user".
   */
  function NormaliseHistory(chatHistory: seq<ChatRecord>): (history: seq<ChatMessage>)
    ensures chatHistory == [] ==> history == [Ai(Greeting)]
    ensures chatHistory != [] ==> |history| == |chatHistory|
    ensures chatHistory != [] ==> forall i :: 0 <= i < |chatHistory| ==>
              history[i].text == chatHistory[i].message && (history[i].Human? <==> chatHistory[i].role == "user")
    ensures |history| >= 1
  {
    if |chatHistory| == 0 then [Ai(Greeting)] else MapTurns(chatHistory)
  }
}
