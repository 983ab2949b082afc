/**
 * `OpenAIManager` and `TTSManager` of main.py, reduced to the rules they
 * apply around their external services: which text is chosen for speech,
 * and how it is prepared before synthesis.
 */
module Coach {

  import opened Options

  /** The message spoken when the completion request fails. */
  const Fallback: string := "Soldier, we're experiencing technical difficulties. Stay focused!"

  /** The leading spaces put before the text so that speech does not clip its start. */
  const Lead: string := "   "

  /** What is sent to the language model: the current window and the history, as it is after the update. */
  datatype Request = Request(currentWindow: string, lastWindows: seq<string>)

  /** What the chat-completion call produced. */
  datatype Completion =
    | Reply(content: string)   // the first choice's message content, a string
    | NullContent              // the message content is `None`, so `speak_text` raises before the title is recorded
    | ApiFailed                // any exception inside the call or while reading the reply

  /**
   * `get_response(...)["say"]`: the reply's content, or the fixed fallback
   * when the call failed; `None` when the content itself is `None`. It never raises.
   */
  function Say(completion: Completion): (say: Option<string>)
    ensures completion.ApiFailed? ==> say == Some(Fallback)
    ensures completion.Reply? ==> say == Some(completion.content)
    ensures say.None? <==> completion.NullContent?
  {
    match completion
    case Reply(content) => Some(content)
    case NullContent => None
    case ApiFailed => Some(Fallback)
  }

  /**
   * The text `speak_text` hands to synthesis: `Lead + text`. Prefixing
   * `None` raises a `TypeError` outside the method's `try`, shown as `None`.
   */
  function SpeechText(say: Option<string>): (spoken: Option<string>)
    ensures spoken.None? <==> say.None?
    ensures spoken.Some? ==> |spoken.value| == |say.value| + |Lead|
    ensures spoken.Some? ==> spoken.value[..|Lead|] == Lead && spoken.value[|Lead|..] == say.value
  {
    match say
    case Some(text) => Some(Lead + text)
    case None => None
  }

  /** When the language model cannot be reached, the fallback is what gets spoken. */
  lemma FailedCompletionSpeaksFallback()
    ensures SpeechText(Say(ApiFailed)) == Some(Lead + Fallback)
  {
  }
}
