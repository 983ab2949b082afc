/**
 * `FocusAI` of main.py: the polling loop that detects a change of focused
 * window, records it in the history, asks for a message and speaks it.
 * One pass of the `while True` body is a tick; a tick whose exception
 * reaches the loop's `except` leaves the state exactly as it was when the
 * exception was raised.
 */
module Focus {

  import opened Options
  import opened Windows
  import opened Coach

  /** The state a tick reads and writes: the history, its capacity and the last window notified. */
  datatype FocusState = FocusState(history: seq<string>, maxHistory: int, lastFocused: Option<string>)

  /** What one tick did. */
  datatype TickEvent =
    | LookupFailed                                  // the window lookup raised; nothing changed
    | Unchanged(current: string)                    // same window as last notified; nothing changed
    | Notified(request: Request, spoken: string)    // history updated, message requested and spoken
    | SpeechFailed(request: Request)                // history updated, then `speak_text` raised before the title was recorded

  /** The state of a freshly constructed `FocusAI`. */
  function Initial(maxHistory: int): (s: FocusState)
    ensures s.history == [] && s.lastFocused.None? && s.maxHistory == maxHistory
  {
    FocusState([], maxHistory, None)
  }

  /** One pass of the body of `FocusAI.run`, given what the window lookup and the completion produced. */
  function TickSpec(s: FocusState, lookup: Lookup, completion: Completion): (r: (FocusState, TickEvent))
    ensures r.0.maxHistory == s.maxHistory
    ensures r.1.LookupFailed? <==> lookup.LookupRaised?
    ensures r.1.LookupFailed? || r.1.Unchanged? ==> r.0 == s
    ensures r.1.SpeechFailed? ==> r.0.lastFocused == s.lastFocused
    ensures r.1.Notified? ==> r.0.lastFocused == Some(r.1.request.currentWindow) != s.lastFocused
    ensures r.1.Notified? || r.1.SpeechFailed? ==> r.1.request.lastWindows == r.0.history
  {
    match CurrentWindow(lookup)
    case None => (s, LookupFailed)
    case Some(current) =>
      if Some(current) == s.lastFocused then (s, Unchanged(current))
      else
        var history := UpdatedList(s.history, s.maxHistory, current);
        var request := Request(current, history);
        match SpeechText(Say(completion))
        case None => (s.(history := history), SpeechFailed(request))
        case Some(spoken) => (s.(history := history, lastFocused := Some(current)), Notified(request, spoken))
  }

  /** True when the lookup gives a title that differs from the last window notified. */
  predicate IsChange(s: FocusState, lookup: Lookup)
  {
    CurrentWindow(lookup).Some? && Some(CurrentWindow(lookup).value) != s.lastFocused
  }

  /** The history is appended to exactly on a change, and by the title looked up. */
  lemma TickAppendsOnlyOnChange(s: FocusState, lookup: Lookup, completion: Completion)
    ensures var (t, e) := TickSpec(s, lookup, completion);
      t.maxHistory == s.maxHistory &&
      (e.Notified? || e.SpeechFailed? <==> IsChange(s, lookup)) &&
      (!IsChange(s, lookup) ==> t == s) &&
      t.history == if IsChange(s, lookup) then UpdatedList(s.history, s.maxHistory, CurrentWindow(lookup).value)
                   else s.history
  {
  }

  /** Before any window was notified, every title that is read is a change. */
  lemma FirstTickIsChange(maxHistory: int, lookup: Lookup, completion: Completion)
    requires !lookup.LookupRaised?
    ensures IsChange(Initial(maxHistory), lookup)
    ensures var (t, e) := TickSpec(Initial(maxHistory), lookup, completion);
      (e.Notified? || e.SpeechFailed?) && t.history == [CurrentWindow(lookup).value] <==> maxHistory >= 1
  {
  }

  /**
   * A tick that speaks records the title; an immediate repeat with the same
   * title then changes neither the history nor the last window notified.
   */
  lemma RepeatAfterSuccessIsIdle(s: FocusState, lookup: Lookup, completion: Completion, again: Lookup, next: Completion)
    requires TickSpec(s, lookup, completion).1.Notified?
    requires CurrentWindow(again) == CurrentWindow(lookup)
    ensures var (t, e) := TickSpec(s, lookup, completion);
      t.lastFocused == Some(e.request.currentWindow) &&
      TickSpec(t, again, next) == (t, Unchanged(e.request.currentWindow))
  {
  }

  /** The history is updated before the message is requested, so the request's history ends with the current window. */
  lemma RequestEndsWithCurrent(s: FocusState, lookup: Lookup, completion: Completion)
    requires s.maxHistory >= 1
    requires IsChange(s, lookup)
    ensures var (t, e) := TickSpec(s, lookup, completion);
      (e.Notified? || e.SpeechFailed?) &&
      e.request.lastWindows == t.history && |t.history| > 0 &&
      t.history[|t.history| - 1] == e.request.currentWindow == CurrentWindow(lookup).value
  {
  }

  /**
   * When speaking raises, the title is already in the history but not
   * recorded as notified, so the same title is appended once more on the next tick.
   */
  lemma FailedSpeechIsRetried(s: FocusState, lookup: Lookup, again: Lookup, next: Completion)
    requires IsChange(s, lookup)
    requires CurrentWindow(again) == CurrentWindow(lookup)
    ensures var (t, e) := TickSpec(s, lookup, NullContent);
      var current := CurrentWindow(lookup).value;
      e == SpeechFailed(Request(current, t.history)) &&
      t == s.(history := UpdatedList(s.history, s.maxHistory, current)) &&
      IsChange(t, again) &&
      TickSpec(t, again, next).0.history == UpdatedList(UpdatedList(s.history, s.maxHistory, current), s.maxHistory, current)
  {
  }

  /** One poll of the loop: what the lookup and, if asked, the completion produce. */
  datatype Poll = Poll(lookup: Lookup, completion: Completion)

  /** The state and events after ticking once per poll, in order. */
  function RunSpec(s: FocusState, polls: seq<Poll>): (r: (FocusState, seq<TickEvent>))
    ensures |r.1| == |polls| && r.0.maxHistory == s.maxHistory
    decreases |polls|
  {
    if polls == [] then (s, [])
    else
      var (t, e) := TickSpec(s, polls[0].lookup, polls[0].completion);
      var (u, es) := RunSpec(t, polls[1..]);
      (u, [e] + es)
  }

  /**
   * A poll on which nothing raises: the lookup succeeds and any reply is a
   * string. It also excludes a `None` content on polls whose title did not
   * change, where the completion is never asked for; `TickSpec` ignores the
   * completion there, so this loses no run.
   */
  predicate Quiet(p: Poll)
  {
    !p.lookup.LookupRaised? && !p.completion.NullContent?
  }

  /** The titles read on quiet polls. */
  function Titles(polls: seq<Poll>): (ts: seq<string>)
    requires forall i :: 0 <= i < |polls| ==> Quiet(polls[i])
    ensures |ts| == |polls|
    ensures forall i :: 0 <= i < |polls| ==> Some(ts[i]) == CurrentWindow(polls[i].lookup)
  {
    if polls == [] then []
    else
      assert Quiet(polls[0]);
      [CurrentWindow(polls[0].lookup).value] + Titles(polls[1..])
  }

  /** The titles at which the title differs from the one before it, the first compared with `previous`. */
  function ChangedTitles(previous: Option<string>, titles: seq<string>): (r: seq<string>)
    ensures |r| <= |titles|
    decreases |titles|
  {
    if titles == [] then []
    else (if Some(titles[0]) != previous then [titles[0]] else []) + ChangedTitles(Some(titles[0]), titles[1..])
  }

  /** The number of ticks that spoke a message. */
  function Notifications(events: seq<TickEvent>): (n: nat)
    ensures n <= |events|
  {
    if events == [] then 0 else (if events[0].Notified? then 1 else 0) + Notifications(events[1..])
  }

  /** A quiet tick records its title, and speaks and appends it exactly when it is a change. */
  lemma QuietTick(s: FocusState, p: Poll)
    requires Quiet(p)
    ensures var current := CurrentWindow(p.lookup).value;
      var (t, e) := TickSpec(s, p.lookup, p.completion);
      t.maxHistory == s.maxHistory &&
      t.lastFocused == Some(current) &&
      (e.Notified? <==> Some(current) != s.lastFocused) &&
      t.history == if Some(current) != s.lastFocused then UpdatedList(s.history, s.maxHistory, current) else s.history
  {
  }

  /** Running from the `i`-th poll is one tick followed by running from the next. */
  lemma RunSpecStep(s: FocusState, polls: seq<Poll>, i: nat)
    requires i < |polls|
    ensures var (t, e) := TickSpec(s, polls[i].lookup, polls[i].completion);
      RunSpec(s, polls[i..]) == (RunSpec(t, polls[i + 1..]).0, [e] + RunSpec(t, polls[i + 1..]).1)
  {
    assert polls[i..][1..] == polls[i + 1..];
  }

  /**
   * Over polls on which nothing raises, one message is spoken per change of
   * title, the history receives exactly the changed titles, and the last title is recorded.
   */
  lemma {:induction false} QuietRunNotifiesChanges(s: FocusState, polls: seq<Poll>)
    requires forall i :: 0 <= i < |polls| ==> Quiet(polls[i])
    ensures var (t, es) := RunSpec(s, polls);
      Notifications(es) == |ChangedTitles(s.lastFocused, Titles(polls))| &&
      t.history == UpdateAll(s.history, s.maxHistory, ChangedTitles(s.lastFocused, Titles(polls))) &&
      t.lastFocused == if polls == [] then s.lastFocused else Some(Titles(polls)[|polls| - 1])
    decreases |polls|
  {
    if polls != [] {
      var p, tail := polls[0], polls[1..];
      var current := CurrentWindow(p.lookup).value;
      var step := TickSpec(s, p.lookup, p.completion);
      var t, e := step.0, step.1;
      QuietTick(s, p);
      var run := RunSpec(t, tail);
      assert RunSpec(s, polls) == (run.0, [e] + run.1);
      assert ([e] + run.1)[1..] == run.1;
      QuietRunNotifiesChanges(t, tail);
      assert Titles(polls) == [current] + Titles(tail);
      var rest := ChangedTitles(Some(current), Titles(tail));
      if Some(current) != s.lastFocused {
        assert ChangedTitles(s.lastFocused, Titles(polls)) == [current] + rest;
        assert ([current] + rest)[1..] == rest;
      } else {
        assert ChangedTitles(s.lastFocused, Titles(polls)) == rest;
      }
    }
  }

  /**
   * From a fresh start over polls on which nothing raises, the history is the
   * last `max_history` changed titles and one message is spoken per change.
   */
  lemma QuietRunFromStart(maxHistory: int, polls: seq<Poll>)
    requires forall i :: 0 <= i < |polls| ==> Quiet(polls[i])
    ensures var (t, es) := RunSpec(Initial(maxHistory), polls);
      Notifications(es) == |ChangedTitles(None, Titles(polls))| &&
      t.history == LastN(ChangedTitles(None, Titles(polls)), Cap(maxHistory))
  {
    QuietRunNotifiesChanges(Initial(maxHistory), polls);
    HistoryIsLastAppended(maxHistory, ChangedTitles(None, Titles(polls)));
  }

  /** Titles A, A, B, B, A with the default capacity: three messages, history [A, B, A]. */
  lemma ExampleRun()
    ensures var reply := Reply("Move out, soldier!");
      var polls := [Poll(Active("A"), reply), Poll(Active("A"), reply), Poll(Active("B"), reply),
                    Poll(Active("B"), reply), Poll(Active("A"), reply)];
      var (t, es) := RunSpec(Initial(DefaultMaxHistory), polls);
      Notifications(es) == 3 && t.history == ["A", "B", "A"]
  {
    var reply := Reply("Move out, soldier!");
    var polls := [Poll(Active("A"), reply), Poll(Active("A"), reply), Poll(Active("B"), reply),
                  Poll(Active("B"), reply), Poll(Active("A"), reply)];
    QuietRunFromStart(DefaultMaxHistory, polls);
    ExampleTitles(polls);
    ExampleChanges();
  }

  /** Every poll of the example reads its title. */
  lemma ExampleTitles(polls: seq<Poll>)
    requires var reply := Reply("Move out, soldier!");
      polls == [Poll(Active("A"), reply), Poll(Active("A"), reply), Poll(Active("B"), reply),
                Poll(Active("B"), reply), Poll(Active("A"), reply)]
    ensures forall i :: 0 <= i < |polls| ==> Quiet(polls[i])
    ensures Titles(polls) == ["A", "A", "B", "B", "A"]
  {
  }

  /** The changes in A, A, B, B, A are at the first, third and fifth title. */
  lemma ExampleChanges()
    ensures ChangedTitles(None, ["A", "A", "B", "B", "A"]) == ["A", "B", "A"]
  {
  }

  class FocusAI {
    const windowManager: WindowManager
    var lastFocusedWindow: Option<string>

    ghost predicate Valid()
      reads this, windowManager
    {
      windowManager.Valid()
    }

    /** The abstract state of the running application. */
    function State(): FocusState
      reads this, windowManager
    {
      FocusState(windowManager.lastWindows, windowManager.maxHistory, lastFocusedWindow)
    }

    constructor ()
      ensures Valid() && fresh(windowManager)
      ensures State() == Initial(DefaultMaxHistory)
    {
      windowManager := new WindowManager();
      lastFocusedWindow := None;
    }

    /** One pass of the `while True` body of `run`; an escaping exception ends the pass where it was raised. */
    method Tick(lookup: Lookup, completion: Completion) returns (event: TickEvent)
      requires Valid()
      modifies this, windowManager
      ensures Valid()
      ensures (State(), event) == TickSpec(old(State()), lookup, completion)
    {
      var window := CurrentWindow(lookup);
      if window.None? {
        return LookupFailed;
      }
      var current := window.value;
      if Some(current) == lastFocusedWindow {
        return Unchanged(current);
      }
      windowManager.UpdateWindowList(current);
      var request := Request(current, windowManager.lastWindows);
      var spoken := SpeechText(Say(completion));
      if spoken.None? {
        return SpeechFailed(request);
      }
      lastFocusedWindow := Some(current);
      event := Notified(request, spoken.value);
    }

    /** `run` over a finite stretch of polls: one tick per poll, the loop never stopping on an error. */
    method Run(polls: seq<Poll>) returns (events: seq<TickEvent>)
      requires Valid()
      modifies this, windowManager
      ensures Valid()
      ensures (State(), events) == RunSpec(old(State()), polls)
    {
      events := [];
      var i := 0;
      assert polls[i..] == polls;
      assert RunSpec(State(), polls[i..]).1 == events + RunSpec(State(), polls[i..]).1;
      while i < |polls|
        invariant 0 <= i <= |polls|
        invariant Valid()
        invariant RunSpec(old(State()), polls) ==
                  (RunSpec(State(), polls[i..]).0, events + RunSpec(State(), polls[i..]).1)
      {
        ghost var before := State();
        var event := Tick(polls[i].lookup, polls[i].completion);
        RunSpecStep(before, polls, i);
        assert events + ([event] + RunSpec(State(), polls[i + 1..]).1) ==
               (events + [event]) + RunSpec(State(), polls[i + 1..]).1;
        events := events + [event];
        i := i + 1;
      }
      assert polls[i..] == [];
      assert events + RunSpec(State(), polls[i..]).1 == events;
    }
  }
}
