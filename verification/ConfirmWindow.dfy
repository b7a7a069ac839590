/** Confirmed verification in the daemon: one Enter window at a time, misses,
    and pauses that grow. Each step is what runs between two awaits; the clock
    readings are parameters. */
module ConfirmWindow {
  import opened Outcomes

  type User = string
  type Call = nat

  const CONFIRM_MISSES := 3
  const CONFIRM_PAUSE_SECONDS := 60.0
  const CONFIRM_PAUSE_MAX_SECONDS := 3600.0

  /** What the Enter window saw; Raised: waiting for it failed. */
  datatype Pressed = Enter | Skip | Typing | NoKey | Raised

  /** What verify_confirmed finds before it comes to the pause: the call fits, or
      it may not ask at all, another user or a process outside a local session
      asks, or there is no face model. */
  datatype Check = Fits | Rejected | OtherUser | NotLocal | NoModels

  datatype Window = Window(call: Call, user: User, overlapped: bool)

  /** The open window, misses, pauses and their count per user, and the
      calls that are past their window and scanning. */
  datatype State = State(window: Option<Window>, misses: map<User, seq<real>>, paused: map<User, real>,
                         pauses: map<User, nat>, scanning: map<Call, User>)

  datatype Ending = Overlapped | Skipped | Unconfirmed | Cancelled | Scans | Failed

  /** What a step did. A miss also says how long a pause it began, if it did. */
  datatype Event =
    | Opened(call: Call, user: User, at: real)
    | Declined(call: Call, user: User, check: Check)
    | TurnedAway(call: Call, user: User, at: real, left: real)
    | Clashed(call: Call, user: User, noted: real, pause: Option<real>)
    | Closed(call: Call, user: User, ending: Ending, noted: real, pause: Option<real>)
    | Replied(call: Call, user: User, result: int)
    | Idle

  // ---------------------------------------------------------------- misses

  function Pow2(n: nat): (r: nat)
    ensures r >= 1
  {
    if n == 0 then 1 else 2 * Pow2(n - 1)
  }

  function PauseSeconds(before: nat): real {
    var seconds := CONFIRM_PAUSE_SECONDS * (Pow2(before) as real);
    if seconds < CONFIRM_PAUSE_MAX_SECONDS then seconds else CONFIRM_PAUSE_MAX_SECONDS
  }

  /** The times less than a minute old. */
  function Recent(times: seq<real>, now: real): seq<real> {
    if times == [] then []
    else Recent(times[..|times| - 1], now)
         + (if now - times[|times| - 1] < CONFIRM_PAUSE_SECONDS then [times[|times| - 1]] else [])
  }

  function MissesOf(s: State, user: User): seq<real> {
    if user in s.misses then s.misses[user] else []
  }

  function PausesOf(s: State, user: User): nat {
    if user in s.pauses then s.pauses[user] else 0
  }

  /** _confirm_missed: the new state and the pause that began. */
  function Missed(s: State, user: User, now: real): (State, Option<real>) {
    var misses := Recent(MissesOf(s, user), now) + [now];
    if |misses| < CONFIRM_MISSES then (s.(misses := s.misses[user := misses]), None)
    else
      var seconds := PauseSeconds(PausesOf(s, user));
      (s.(misses := s.misses - {user}, pauses := s.pauses[user := PausesOf(s, user) + 1],
          paused := s.paused[user := now + seconds]), Some(seconds))
  }

  // ----------------------------------------------------------------- steps

  /** verify_confirmed from the pause check up to waiting in the window. */
  function Asked(s: State, call: Call, user: User, at: real, noted: real): (State, Event) {
    if user in s.paused && s.paused[user] - at > 0.0 then (s, TurnedAway(call, user, at, s.paused[user] - at))
    else if s.window.Some? then
      var (s', pause) := Missed(s.(window := Some(s.window.value.(overlapped := true))), user, noted);
      (s', Clashed(call, user, noted, pause))
    else (s.(window := Some(Window(call, user, false))), Opened(call, user, at))
  }

  /** verify_confirmed up to waiting in the window. */
  function Requested(s: State, call: Call, user: User, check: Check, at: real, noted: real): (State, Event) {
    if check != Fits then (s, Declined(call, user, check)) else Asked(s, call, user, at, noted)
  }

  /** verify_confirmed from the end of its window up to the scan. */
  function Answered(s: State, pressed: Pressed, cancelled: bool, noted: real): (State, Event) {
    if s.window.None? then (s, Idle)
    else
      var w, closed := s.window.value, s.(window := None);
      if pressed == Raised then (closed, Closed(w.call, w.user, Failed, noted, None))
      else if w.overlapped || pressed == Typing || pressed == NoKey then
        var (s', pause) := Missed(closed, w.user, noted);
        (s', Closed(w.call, w.user, if w.overlapped then Overlapped else Unconfirmed, noted, pause))
      else if pressed == Skip then (closed, Closed(w.call, w.user, Skipped, noted, None))
      else if cancelled then (closed, Closed(w.call, w.user, Cancelled, noted, None))
      else (closed.(misses := s.misses - {w.user}, pauses := s.pauses - {w.user},
                    scanning := s.scanning[w.call := w.user]),
            Closed(w.call, w.user, Scans, noted, None))
  }

  /** The scan's result goes back to the caller. */
  function ScanDone(s: State, call: Call, result: int): (State, Event) {
    if call !in s.scanning then (s, Idle)
    else (s.(scanning := s.scanning - {call}), Replied(call, s.scanning[call], result))
  }

  /** The fields of the Manager object that confirmed verification uses. */
  class Manager {
    var confirmWindow: Option<Window>
    var confirmMisses: map<User, seq<real>>
    var confirmPaused: map<User, real>
    var confirmPauses: map<User, nat>
    var scanning: map<Call, User>

    constructor ()
      ensures Value() == State(None, map[], map[], map[], map[])
    {
      confirmWindow, confirmMisses, confirmPaused, confirmPauses, scanning := None, map[], map[], map[], map[];
    }

    function Value(): State
      reads this
    {
      State(confirmWindow, confirmMisses, confirmPaused, confirmPauses, scanning)
    }

    method ConfirmMissed(user: User, now: real) returns (pause: Option<real>)
      modifies this`confirmMisses, this`confirmPauses, this`confirmPaused
      ensures (Value(), pause) == Missed(old(Value()), user, now)
    {
      var earlier := if user in confirmMisses then confirmMisses[user] else [];
      var misses := [];
      var i := 0;
      while i < |earlier|
        invariant 0 <= i <= |earlier| && misses == Recent(earlier[..i], now)
      {
        assert earlier[..i + 1][..i] == earlier[..i];
        if now - earlier[i] < CONFIRM_PAUSE_SECONDS {
          misses := misses + [earlier[i]];
        }
        i := i + 1;
      }
      assert earlier[..i] == earlier;
      misses := misses + [now];
      if |misses| < CONFIRM_MISSES {
        confirmMisses := confirmMisses[user := misses];
        return None;
      }
      confirmMisses := confirmMisses - {user};
      var pauses := if user in confirmPauses then confirmPauses[user] else 0;
      var seconds := PauseSeconds(pauses);
      confirmPauses := confirmPauses[user := pauses + 1];
      confirmPaused := confirmPaused[user := now + seconds];
      return Some(seconds);
    }

    method Ask(call: Call, user: User, check: Check, at: real, noted: real) returns (event: Event)
      modifies this
      ensures (Value(), event) == Requested(old(Value()), call, user, check, at, noted)
    {
      if check != Fits {
        return Declined(call, user, check);
      }
      if user in confirmPaused {
        var left := confirmPaused[user] - at;
        if left > 0.0 {
          return TurnedAway(call, user, at, left);
        }
      }
      if confirmWindow.Some? {
        confirmWindow := Some(confirmWindow.value.(overlapped := true));
        var pause := ConfirmMissed(user, noted);
        return Clashed(call, user, noted, pause);
      }
      confirmWindow := Some(Window(call, user, false));
      return Opened(call, user, at);
    }

    method Answer(pressed: Pressed, cancelled: bool, noted: real) returns (event: Event)
      modifies this
      ensures (Value(), event) == Answered(old(Value()), pressed, cancelled, noted)
    {
      if confirmWindow.None? {
        return Idle;
      }
      var window := confirmWindow.value;
      confirmWindow := None;
      if pressed == Raised {
        return Closed(window.call, window.user, Failed, noted, None);
      }
      if window.overlapped {
        var pause := ConfirmMissed(window.user, noted);
        return Closed(window.call, window.user, Overlapped, noted, pause);
      }
      if pressed == Skip {
        return Closed(window.call, window.user, Skipped, noted, None);
      }
      if pressed != Enter {
        var pause := ConfirmMissed(window.user, noted);
        return Closed(window.call, window.user, Unconfirmed, noted, pause);
      }
      if cancelled {
        return Closed(window.call, window.user, Cancelled, noted, None);
      }
      confirmMisses := confirmMisses - {window.user};
      confirmPauses := confirmPauses - {window.user};
      scanning := scanning[window.call := window.user];
      return Closed(window.call, window.user, Scans, noted, None);
    }
  }
}
