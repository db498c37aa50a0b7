/** Values exchanged with the chat-completion service: messages, the
    conversation list that the query enhancer grows in place, the outcome
    of one completion request, and the errors the enhancer raises. */
module Chat {

  datatype Option<+T> = None | Some(value: T)

  datatype Result<+T, +E> = Ok(value: T) | Err(error: E)

  /** One chat message, the `{"role": ..., "content": ...}` dictionary. */
  datatype Message = Message(role: string, content: string)

  function UserMessage(content: string): Message
  {
    Message("user", content)
  }

  function AssistantMessage(content: string): Message
  {
    Message("assistant", content)
  }

  /** What one request to the completion service gives back: the call raised
      an exception with the given text, or it returned the reply's content. */
  datatype Completion = Raised(error: string) | Replied(text: string)

  /** One intent of a prediction, `{"intent": ..., "reason": ...}`: the shape
      both of a decoded reply entry and of a normalised output entry. */
  datatype IntentEntry = IntentEntry(intent: string, reason: string)

  /** The exceptions the enhancer raises or catches. */
  datatype Failure =
    | CompletionFailed(message: string)        // the completion request raised
    | DecodeFailed(message: string)            // markdown/JSON/shape decoding raised
    | LabelsInvalid(positions: seq<nat>)       // entries whose label is not one of the 15 labels
    | MaxRetriesReached                        // the retry loop ran zero times

  const MaxRetriesText := "Max retries reached without successful validation"

  /** A fixed stand-in for the validation library's report of bad labels. */
  const InvalidLabelsText := "validation error: an intent label is not one of the Labels values"

  /** `str(e)` of a failure. */
  function ErrorText(f: Failure): string
  {
    match f
    case CompletionFailed(m) => m
    case DecodeFailed(m) => m
    case LabelsInvalid(_) => InvalidLabelsText
    case MaxRetriesReached => MaxRetriesText
  }

  /** The list of messages that the enhancer builds and the retry loop
      extends in place; shared by reference between caller and callee. */
  class Conversation {
    var messages: seq<Message>

    constructor (initial: seq<Message>)
      ensures messages == initial
    {
      messages := initial;
    }

    /** `messages.append(m)` */
    method Append(m: Message)
      modifies this
      ensures messages == old(messages) + [m]
    {
      messages := messages + [m];
    }

    /** `messages.extend(ms)` */
    method Extend(ms: seq<Message>)
      modifies this
      ensures messages == old(messages) + ms
    {
      messages := messages + ms;
    }
  }
}
