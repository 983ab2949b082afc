# focus-ai window-focus tracker, in Dafny

focus-ai is a desk coach. It polls the operating system for the title of the
focused window. When the title changes, it records the title in a short
history, asks a language model for a one-sentence message about the current
and recent windows, and speaks the message aloud. This project models the
program's deterministic core, `main.py`, with the operating system, the
language model and the speech service reduced to the outcomes they can produce:

- `Configuration` (config.dfy): the start-up check that all three secrets are non-empty.
- `Windows` (windows.dfy): `get_current_window` and its `"Unknown"` sentinel.
  Also `WindowManager`, a class whose `lastWindows` history is appended in
  place and loses its oldest title once it holds more than `maxHistory`.
  It comes with the capacity invariant and the lemma that the history is
  always the last `max_history` titles appended, in order.
- `Coach` (coach.dfy): what `get_response` yields for speech: the reply, or
  the fixed fallback text when the call fails. Also the three leading
  spaces `speak_text` adds before synthesis.
- `Focus` (focus.dfy): the `FocusAI` class. `Tick` is one pass of the
  `while True` body of `run`. `Run` makes one tick per poll over a finite
  list of polls. Both are proved equal to the pure functions `TickSpec` and
  `RunSpec`, and the lemmas about those functions state the change-detection
  properties.

An exception that escapes a tick is caught by the loop's `except`. The model
shows it as an event that leaves the state as it was at the moment of the raise.
The model names two such exceptions:

- The window lookup raises something other than `AttributeError`.
- The completion's content is `None`. `"   " + None` then raises at
  main.py:130, outside the `try` of `speak_text`. By then the title is
  already in the history, but `last_focused_window` was not updated. So the
  same title is appended again on the next tick (`Focus.FailedSpeechIsRetried`).

A design that records the new window before notifying, so that a failed
notification is dropped rather than retried, would differ from this. The code
records the window only after `speak_text` returns (main.py:176), and the
model follows the code.

## Model

| member | source | states |
|---|---|---|
| `Configuration.LoadConfig` | main.py:36-43 | start-up fails exactly when one of the three secrets is empty; otherwise the config holds the three values |
| `Windows.CurrentWindow` | main.py:54-64 | the result is the focused window's title, or "Unknown" when there is no window; it is absent exactly when the lookup raises something other than AttributeError |
| `Windows.SentinelIsAmbiguous` | main.py:61-64 | a window really titled "Unknown" reads the same as no window at all |
| `Windows.UpdatedList` | main.py:73-75 | the new list is `old + [w]` with at most its front element dropped, in order; it grows by one unless that would exceed `max_history`; it ends with `w` whenever it is non-empty |
| `Windows.UpdateKeepsBound` | main.py:73-75 | a list within capacity stays within capacity, and its new length is `min(max_history, old length + 1)` |
| `Windows.UpdateKeepsLastN` | main.py:73-75 | updating the last `n` titles seen with `w` gives the last `n` titles of the titles seen followed by `w` |
| `Windows.UpdateAllKeepsLastN` | main.py:73-75 | the same holds for any number of updates in a row |
| `Windows.UpdateAllKeepsBound` | main.py:73-75 | calling `update_window_list` once per title in turn keeps a history within capacity |
| `Windows.UpdateAllEndsWithLast` | main.py:73-75 | with capacity at least 1, after calling `update_window_list` once per title the history ends with the last title appended |
| `Windows.HistoryIsLastAppended` | main.py:50-75 | starting from the empty list, the history is exactly the last `max_history` titles appended, in arrival order (none when `max_history <= 0`) |
| `Windows.WindowManager.constructor` | main.py:50-52 | a new manager has an empty history and the given capacity, 5 by default |
| `Windows.WindowManager.UpdateWindowList` | main.py:66-75 | updates the list in place to `UpdatedList` of the old list and keeps the capacity invariant |
| `Coach.Say` | main.py:103-113 | the text to speak is the reply's content, or the fixed fallback when the call fails; it is `None` exactly when the content is `None`; it never raises |
| `Coach.SpeechText` | main.py:129-130 | the synthesised text is three spaces followed by the message, and removing them gives the message back; prefixing `None` raises |
| `Coach.FailedCompletionSpeaksFallback` | main.py:111-113 | when the language model cannot be reached, three spaces plus the fallback message are spoken |
| `Focus.Initial` | main.py:151-155 | a fresh application has an empty history and no last focused window |
| `Focus.TickAppendsOnlyOnChange` | main.py:166-172 | a tick appends to the history, and requests a message, exactly when the title read differs from the last window notified; otherwise the whole state is unchanged, including after a lookup that raised |
| `Focus.FirstTickIsChange` | main.py:155-172 | since the last window starts as `None`, the first title read is always a change; with `max_history >= 1` the history then holds just that title |
| `Focus.RepeatAfterSuccessIsIdle` | main.py:170-176 | after a tick that speaks, the title is recorded as last focused, and a repeat tick with the same title changes neither the history nor the last window |
| `Focus.RequestEndsWithCurrent` | main.py:172-173 | the history is updated before the message is requested, so the history sent ends with the current window |
| `Focus.FailedSpeechIsRetried` | main.py:172-181 | when speaking raises, the title is appended but not recorded, so the same title on the next tick counts as a change again and is appended a second time |
| `Focus.TickSpec` | main.py:166-181 | one pass of the loop body: the capacity never changes; the lookup raising leaves everything as it was, as does an unchanged title; a failed speech keeps the last window; a spoken message records the new, different title; the request carries the updated history |
| `Focus.RunSpec` | main.py:165-181 | one event per poll; the capacity never changes |
| `Focus.QuietRunNotifiesChanges` | main.py:165-176 | over polls where nothing raises, the number of spoken messages is the number of titles that differ from the one before (the first always counts); the history receives exactly those titles; the last title read is recorded |
| `Focus.QuietRunFromStart` | main.py:151-176 | from a fresh start over polls where nothing raises, the history is the last `max_history` changed titles |
| `Focus.ExampleRun` | main.py:165-176 | titles A, A, B, B, A give three messages and the history [A, B, A] |
| `Focus.FocusAI.constructor` | main.py:151-155 | a new application has an empty history of capacity 5 and no last window |
| `Focus.FocusAI.Tick` | main.py:166-181 | one pass of the loop body changes the history and the last window exactly as `TickSpec` says, and keeps the capacity invariant |
| `Focus.FocusAI.Run` | main.py:157-181 | the loop over a finite list of polls ends in the state and events `RunSpec` gives |

## Left out

- The active-window lookup (`pyautogui.getActiveWindow()`, main.py:62) is not modelled. The caller supplies its outcome as a `Lookup`: a title, no window, or some other exception.
- The chat-completion call and its prompt wording (main.py:94-110) are not modelled. The caller supplies the outcome as a `Completion`: a string reply, a `None` content, or a failure.
- Speech synthesis and audio playback (main.py:139-146) are not modelled. Every exception there is caught inside `speak_text`, so they cannot change the tracker's state.
- Building the fixed `TTSOptions` (main.py:131-137) runs outside the `try` of `speak_text`; the model assumes it does not raise. If it did, the state would change as on `SpeechFailed`: the title appended but not recorded. The audio sink is not modelled either. Note that `stop_stream`/`close` run only when playback succeeds, because there is no `finally`.
- `time.sleep` and the endless `while True` (main.py:163-181) are not modelled. `FocusAI.Run` covers any finite run of ticks instead.
- `load_dotenv` and `os.getenv` (main.py:37-40) are not modelled, nor is logging. `LoadConfig` takes the three values directly, and a variable that is not set arrives as the empty string.
- Exceptions that do not derive from `Exception` (such as `KeyboardInterrupt`) are not modelled. They would end the program rather than the tick.
