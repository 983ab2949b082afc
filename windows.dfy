/**
 * `WindowManager` of main.py: the title of the focused window and a bounded
 * first-in first-out history of recently focused titles.
 */
module Windows {

  import opened Options

  /** The sentinel title used when no window is focused. */
  const Unknown: string := "Unknown"

  /** The default capacity of the history. */
  const DefaultMaxHistory: int := 5

  /** What asking the operating system for the active window produced. */
  datatype Lookup =
    | Active(title: string)   // a focused window with this title
    | NoActiveWindow          // no window: reading `.title` of `None` raises AttributeError
    | LookupRaised            // any other exception, which `get_current_window` does not catch

  /**
   * `get_current_window`: the focused window's title, "Unknown" when there
   * is none, and `None` when the lookup raised an exception that escapes.
   */
  function CurrentWindow(lookup: Lookup): (r: Option<string>)
    ensures r.None? <==> lookup.LookupRaised?
    ensures r.Some? ==> lookup == Active(r.value) || (lookup.NoActiveWindow? && r.value == Unknown)
  {
    match lookup
    case Active(title) => Some(title)
    case NoActiveWindow => Some(Unknown)
    case LookupRaised => None
  }

  /** A window really titled "Unknown" cannot be told apart from no window at all. */
  lemma SentinelIsAmbiguous()
    ensures CurrentWindow(Active(Unknown)) == CurrentWindow(NoActiveWindow)
  {
  }

  /** The number of titles the history can hold: a negative `max_history` holds none. */
  function Cap(maxHistory: int): (n: nat)
    ensures maxHistory >= 0 ==> n == maxHistory
    ensures maxHistory < 0 ==> n == 0
  {
    if maxHistory < 0 then 0 else maxHistory
  }

  /**
   * The list `update_window_list` leaves behind: the new title appended, and
   * the front element dropped when the list is then longer than `maxHistory`.
   */
  function UpdatedList(windows: seq<string>, maxHistory: int, window: string): (r: seq<string>)
    ensures |r| == if |windows| + 1 > maxHistory then |windows| else |windows| + 1
    ensures |windows| + 1 - |r| <= 1
    ensures r == (windows + [window])[|windows| + 1 - |r|..]
    ensures |r| > 0 ==> r[|r| - 1] == window
  {
    var appended := windows + [window];
    if |appended| > maxHistory then appended[1..] else appended
  }

  /** The last `n` elements of `s`, or all of `s` when it is shorter. */
  function LastN(s: seq<string>, n: nat): (r: seq<string>)
    ensures |r| == if |s| <= n then |s| else n
    ensures r == s[|s| - |r|..]
  {
    if |s| <= n then s else s[|s| - n..]
  }

  /** A list within capacity stays within capacity, and grows by one until it is full. */
  lemma UpdateKeepsBound(windows: seq<string>, maxHistory: int, window: string)
    requires |windows| <= Cap(maxHistory)
    ensures |UpdatedList(windows, maxHistory, window)| <= Cap(maxHistory)
    ensures |UpdatedList(windows, maxHistory, window)| ==
            if |windows| + 1 <= Cap(maxHistory) then |windows| + 1 else Cap(maxHistory)
  {
  }

  /** One update of the last `n` titles seen gives the last `n` titles seen after it. */
  lemma UpdateKeepsLastN(seen: seq<string>, maxHistory: int, window: string)
    ensures UpdatedList(LastN(seen, Cap(maxHistory)), maxHistory, window) ==
            LastN(seen + [window], Cap(maxHistory))
  {
    var n := Cap(maxHistory);
    var kept := LastN(seen, n);
    var appended := kept + [window];
    assert UpdatedList(kept, maxHistory, window) == if |appended| > maxHistory then appended[1..] else appended;
    if |seen| <= n {
      assert kept == seen;
      if |seen| + 1 > n {
        assert LastN(seen + [window], n) == appended[1..];
      }
    } else {
      assert |appended| > maxHistory;
      assert appended[1..] == (seen + [window])[|seen| + 1 - n..];
    }
  }

  /**
   * Helper for the lemmas below: the history after `update_window_list` has
   * been called with each of `windows` in turn.
   */
  function UpdateAll(history: seq<string>, maxHistory: int, windows: seq<string>): (r: seq<string>)
    decreases |windows|
  {
    if windows == [] then history
    else UpdateAll(UpdatedList(history, maxHistory, windows[0]), maxHistory, windows[1..])
  }

  /** Any number of updates keeps a history within capacity. */
  lemma {:induction false} UpdateAllKeepsBound(history: seq<string>, maxHistory: int, windows: seq<string>)
    requires |history| <= Cap(maxHistory)
    ensures |UpdateAll(history, maxHistory, windows)| <= Cap(maxHistory)
    decreases |windows|
  {
    if windows != [] {
      UpdateKeepsBound(history, maxHistory, windows[0]);
      UpdateAllKeepsBound(UpdatedList(history, maxHistory, windows[0]), maxHistory, windows[1..]);
    }
  }

  /** With room for at least one title, the history ends with the last title appended. */
  lemma {:induction false} UpdateAllEndsWithLast(history: seq<string>, maxHistory: int, windows: seq<string>)
    requires windows != [] && maxHistory >= 1
    ensures var r := UpdateAll(history, maxHistory, windows);
      |r| > 0 && r[|r| - 1] == windows[|windows| - 1]
    decreases |windows|
  {
    if |windows| > 1 {
      UpdateAllEndsWithLast(UpdatedList(history, maxHistory, windows[0]), maxHistory, windows[1..]);
    }
  }

  /** Updating a history that holds the last titles seen keeps it the last titles seen. */
  lemma {:induction false} UpdateAllKeepsLastN(seen: seq<string>, maxHistory: int, windows: seq<string>)
    ensures UpdateAll(LastN(seen, Cap(maxHistory)), maxHistory, windows) ==
            LastN(seen + windows, Cap(maxHistory))
    decreases |windows|
  {
    if windows != [] {
      var n := Cap(maxHistory);
      var seen' := seen + [windows[0]];
      calc {
        UpdateAll(LastN(seen, n), maxHistory, windows);
        UpdateAll(UpdatedList(LastN(seen, n), maxHistory, windows[0]), maxHistory, windows[1..]);
        { UpdateKeepsLastN(seen, maxHistory, windows[0]); }
        UpdateAll(LastN(seen', n), maxHistory, windows[1..]);
        { UpdateAllKeepsLastN(seen', maxHistory, windows[1..]); }
        LastN(seen' + windows[1..], n);
        { assert seen' + windows[1..] == seen + windows; }
        LastN(seen + windows, n);
      }
    }
  }

  /** From an empty list, the history is always the last `max_history` titles appended, in order. */
  lemma HistoryIsLastAppended(maxHistory: int, windows: seq<string>)
    ensures UpdateAll([], maxHistory, windows) == LastN(windows, Cap(maxHistory))
  {
    UpdateAllKeepsLastN([], maxHistory, windows);
    assert [] + windows == windows;
  }

  class WindowManager {
    var lastWindows: seq<string>
    const maxHistory: int

    /** The capacity invariant: never more titles than `max_history` allows. */
    ghost predicate Valid()
      reads this
    {
      |lastWindows| <= Cap(maxHistory)
    }

    constructor (maxHistory: int := DefaultMaxHistory)
      ensures Valid()
      ensures lastWindows == [] && this.maxHistory == maxHistory
    {
      lastWindows := [];
      this.maxHistory := maxHistory;
    }

    /** `update_window_list`: append the title in place, then evict the oldest if over capacity. */
    method UpdateWindowList(windowName: string)
      requires Valid()
      modifies this
      ensures Valid()
      ensures lastWindows == UpdatedList(old(lastWindows), maxHistory, windowName)
    {
      lastWindows := lastWindows + [windowName];
      if |lastWindows| > maxHistory {
        lastWindows := lastWindows[1..];
      }
    }
  }
}
