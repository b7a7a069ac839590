/** Every run of confirmed verification: windows never overlap, a scan has its
    own undisturbed Enter, and misses are met by growing pauses. */
module ConfirmRuns {
  import opened Sequences
  import opened Outcomes
  import opened ConfirmWindow

  datatype Input =
    | Request(call: Call, user: User, check: Check, at: real, noted: real)
    | Answer(pressed: Pressed, cancelled: bool, noted: real)
    | Scanned(call: Call, result: int)

  datatype History = History(s: State, log: seq<Event>)

  function Step(s: State, input: Input): (State, Event) {
    match input
    case Request(call, user, check, at, noted) => Requested(s, call, user, check, at, noted)
    case Answer(pressed, cancelled, noted) => Answered(s, pressed, cancelled, noted)
    case Scanned(call, result) => ScanDone(s, call, result)
  }

  /** A run, one event for each input. */
  function Run(inputs: seq<Input>): (h: History)
    ensures |h.log| == |inputs|
  {
    if inputs == [] then History(State(None, map[], map[], map[], map[]), [])
    else
      var h := Run(inputs[..|inputs| - 1]);
      var (s, e) := Step(h.s, inputs[|inputs| - 1]);
      History(s, h.log + [e])
  }

  function Clock(inputs: seq<Input>): real {
    if inputs == [] then 0.0
    else if inputs[|inputs| - 1].Scanned? then Clock(inputs[..|inputs| - 1]) else inputs[|inputs| - 1].noted
  }

  /** The clock never goes back: not between steps, not between two readings in one. */
  predicate Timely(inputs: seq<Input>) {
    inputs == [] ||
    (Timely(inputs[..|inputs| - 1]) &&
     match inputs[|inputs| - 1]
     case Request(_, _, _, at, noted) => Clock(inputs[..|inputs| - 1]) <= at <= noted
     case Answer(_, _, noted) => Clock(inputs[..|inputs| - 1]) <= noted
     case Scanned(_, _) => true)
  }

  lemma {:induction false} RunPrefix(inputs: seq<Input>, k: nat)
    requires k <= |inputs|
    ensures Run(inputs[..k]).log == Run(inputs).log[..k]
    ensures Timely(inputs) ==> Timely(inputs[..k])
  {
    if k == |inputs| {
      assert inputs[..k] == inputs;
    } else {
      var front := inputs[..|inputs| - 1];
      RunPrefix(front, k);
      assert front[..k] == inputs[..k];
    }
  }

  /** The j-th event is the j-th step's, from the state before it. */
  lemma {:induction false} StepAt(inputs: seq<Input>, j: nat)
    requires j < |inputs|
    ensures var before := Run(inputs[..j]);
            Run(inputs).log[..j] == before.log && Run(inputs).log[j] == Step(before.s, inputs[j]).1
    ensures Timely(inputs) ==> Timely(inputs[..j]) && Timely(inputs[..j + 1])
  {
    RunPrefix(inputs, j);
    RunPrefix(inputs, j + 1);
    assert inputs[..j + 1][..j] == inputs[..j];
    assert Run(inputs).log[j] == Run(inputs).log[..j + 1][j];
  }

  // ----------------------------------------------------- reading the history

  /** The user's confirmed Enter. */
  predicate Confirms(e: Event, u: User) {
    e.Closed? && e.user == u && e.ending == Scans
  }

  predicate Misses(e: Event, u: User) {
    (e.Clashed? && e.user == u) || (e.Closed? && e.user == u && (e.ending == Overlapped || e.ending == Unconfirmed))
  }

  datatype Miss = Miss(at: real, pause: Option<real>, clash: bool, overlapped: bool)

  function MissAt(e: Event): Miss
    requires e.Clashed? || e.Closed?
  {
    Miss(e.noted, e.pause, e.Clashed?, e.Closed? && e.ending == Overlapped)
  }

  /** The user's misses since the last confirmed Enter. */
  function MissList(log: seq<Event>, u: User): seq<Miss> {
    if log == [] then []
    else
      var rest, e := MissList(log[..|log| - 1], u), log[|log| - 1];
      if Confirms(e, u) then [] else if Misses(e, u) then rest + [MissAt(e)] else rest
  }

  function PauseCount(ms: seq<Miss>): nat {
    if ms == [] then 0 else PauseCount(ms[..|ms| - 1]) + if ms[|ms| - 1].pause.Some? then 1 else 0
  }

  /** Times of the misses since the last pause. */
  function SincePause(ms: seq<Miss>): seq<real> {
    if ms == [] || ms[|ms| - 1].pause.Some? then [] else SincePause(ms[..|ms| - 1]) + [ms[|ms| - 1].at]
  }

  /** Every pause of the user is over at t. */
  predicate PausesOver(log: seq<Event>, u: User, t: real) {
    log == [] ||
    (PausesOver(log[..|log| - 1], u, t) &&
     var e := log[|log| - 1];
     Misses(e, u) && e.pause.Some? ==> e.noted + e.pause.value <= t)
  }

  predicate NoPauses(log: seq<Event>, u: User) {
    log == [] || (NoPauses(log[..|log| - 1], u) && var e := log[|log| - 1]; !(Misses(e, u) && e.pause.Some?))
  }

  // -------------------------------------------------------------- invariant

  /** How a miss may follow others: behind a pause only a minute later, but for
      the window the pausing request ran into; and never a third without a
      pause within a minute. */
  predicate Follows(ms: seq<Miss>, m: Miss) {
    var n := |ms|;
    && (n >= 1 ==> ms[n - 1].at <= m.at)
    && (n >= 1 && ms[n - 1].pause.Some?
        ==> ms[n - 1].at + CONFIRM_PAUSE_SECONDS <= m.at || (ms[n - 1].clash && m.overlapped))
    && (n >= 2 && ms[n - 2].pause.Some? ==> ms[n - 2].at + CONFIRM_PAUSE_SECONDS <= m.at)
    && (n >= 2 && ms[n - 2].pause.None? && ms[n - 1].pause.None? && m.pause.None?
        ==> ms[n - 2].at + CONFIRM_PAUSE_SECONDS <= m.at)
  }

  predicate Spaced(ms: seq<Miss>) {
    ms == [] || (Spaced(ms[..|ms| - 1]) && Follows(ms[..|ms| - 1], ms[|ms| - 1]))
  }

  /** While the user has the window: earlier pauses are over, or the last one
      began with a request that ran into this window. */
  predicate Waited(ms: seq<Miss>, overlapped: bool, now: real) {
    var n := |ms|;
    && (n >= 1 && ms[n - 1].pause.Some?
        ==> ms[n - 1].at + CONFIRM_PAUSE_SECONDS <= now || (overlapped && ms[n - 1].clash))
    && (n >= 2 && ms[n - 2].pause.Some? ==> ms[n - 2].at + CONFIRM_PAUSE_SECONDS <= now)
  }

  function PausedUntil(s: State, u: User, otherwise: real): real {
    if u in s.paused then s.paused[u] else otherwise
  }

  predicate MissesKept(s: State, ms: seq<Miss>, u: User, now: real) {
    && MissesOf(s, u) == (var times := SincePause(ms); if times == [] then [] else Recent(times, times[|times| - 1]))
    && PausesOf(s, u) == PauseCount(ms)
    && Spaced(ms) && (ms != [] ==> ms[|ms| - 1].at <= now)
  }

  predicate PauseKept(s: State, log: seq<Event>, u: User, now: real) {
    && (if u in s.paused then PausesOver(log, u, s.paused[u]) else NoPauses(log, u))
    && (u in s.paused ==> s.paused[u] <= if PausesOf(s, u) == 0 then now else now + PauseSeconds(PausesOf(s, u) - 1))
  }

  predicate WindowKept(s: State, ms: seq<Miss>, u: User, now: real) {
    s.window.Some? && s.window.value.user == u ==>
      && Waited(ms, s.window.value.overlapped, now)
      && (!s.window.value.overlapped ==> PausedUntil(s, u, now) <= now)
  }

  predicate UserInv(h: History, u: User, now: real) {
    var ms := MissList(h.log, u);
    MissesKept(h.s, ms, u, now) && PauseKept(h.s, h.log, u, now) && WindowKept(h.s, ms, u, now)
      && AtLeastAMinute(h.log, u)
  }

  // ------------------------------------------------------------ small facts

  lemma {:induction false} RecentTwice(times: seq<real>, a: real, b: real)
    requires a <= b
    ensures Recent(Recent(times, a), b) == Recent(times, b)
  {
    if times != [] {
      var front, t := times[..|times| - 1], times[|times| - 1];
      RecentTwice(front, a, b);
      var kept := Recent(front, a);
      if a - t < CONFIRM_PAUSE_SECONDS {
        assert (kept + [t])[..|kept + [t]| - 1] == kept;
      } else {
        assert kept + [] == kept;
      }
    }
  }

  lemma {:induction false} RecentLast(times: seq<real>, now: real)
    ensures Recent(times + [now], now) == Recent(times, now) + [now]
  {
    assert (times + [now])[..|times|] == times;
  }

  lemma {:induction false} PausesOverLater(log: seq<Event>, u: User, t: real, t': real)
    requires t <= t' && PausesOver(log, u, t)
    ensures PausesOver(log, u, t')
  {
    if log != [] {
      PausesOverLater(log[..|log| - 1], u, t, t');
    }
  }

  lemma {:induction false} NoPausesIsOver(log: seq<Event>, u: User, t: real)
    requires NoPauses(log, u)
    ensures PausesOver(log, u, t)
  {
    if log != [] {
      NoPausesIsOver(log[..|log| - 1], u, t);
    }
  }

  lemma {:induction false} PauseGrows(n: nat)
    ensures CONFIRM_PAUSE_SECONDS <= PauseSeconds(n) <= PauseSeconds(n + 1)
  {
  }

  predicate AtLeastAMinute(log: seq<Event>, u: User) {
    log == [] || (AtLeastAMinute(log[..|log| - 1], u) && var e := log[|log| - 1];
                  Misses(e, u) && e.pause.Some? ==> e.pause.value >= CONFIRM_PAUSE_SECONDS)
  }

  predicate AllOver(ms: seq<Miss>, t: real) {
    ms == [] || (AllOver(ms[..|ms| - 1], t)
                 && (ms[|ms| - 1].pause.Some? ==> ms[|ms| - 1].at + CONFIRM_PAUSE_SECONDS <= t))
  }

  lemma {:induction false} OverInList(log: seq<Event>, u: User, t: real)
    requires PausesOver(log, u, t) && AtLeastAMinute(log, u)
    ensures AllOver(MissList(log, u), t)
  {
    if log != [] {
      OverInList(log[..|log| - 1], u, t);
      var rest, e := MissList(log[..|log| - 1], u), log[|log| - 1];
      if Misses(e, u) && !Confirms(e, u) {
        assert (rest + [MissAt(e)])[..|rest|] == rest;
      }
    }
  }

  lemma {:induction false} OverMeansWaited(ms: seq<Miss>, overlapped: bool, now: real)
    requires AllOver(ms, now)
    ensures Waited(ms, overlapped, now)
  {
    if |ms| >= 2 {
      assert ms[..|ms| - 1][..|ms| - 2] == ms[..|ms| - 2];
      assert ms[..|ms| - 1][|ms| - 2] == ms[|ms| - 2];
    }
  }

  // ------------------------------------------------------- what a step keeps

  lemma {:induction false} LastTwoRecent(ms: seq<Miss>, now: real)
    requires |ms| >= 2 && ms[|ms| - 2].pause.None? && ms[|ms| - 1].pause.None? && ms[|ms| - 2].at <= ms[|ms| - 1].at
    ensures now - ms[|ms| - 2].at < CONFIRM_PAUSE_SECONDS ==> |Recent(SincePause(ms), now)| >= 2
  {
    var front := ms[..|ms| - 1];
    var rest := front[..|front| - 1];
    var a, b := ms[|ms| - 2].at, ms[|ms| - 1].at;
    assert SincePause(front) == SincePause(rest) + [a];
    assert SincePause(ms) == SincePause(front) + [b];
    assert SincePause(ms)[..|SincePause(front)|] == SincePause(front);
    assert SincePause(front)[..|SincePause(rest)|] == SincePause(rest);
  }

  lemma {:induction false} SinceLast(ms: seq<Miss>)
    ensures SincePause(ms) != [] ==> ms != [] && SincePause(ms)[|SincePause(ms)| - 1] == ms[|ms| - 1].at
  {
  }

  lemma {:induction false} RecentNow(s: State, ms: seq<Miss>, u: User, now: real, noted: real)
    requires MissesKept(s, ms, u, now) && now <= noted
    ensures Recent(MissesOf(s, u), noted) == Recent(SincePause(ms), noted)
  {
    var times := SincePause(ms);
    if times != [] {
      SinceLast(ms);
      RecentTwice(times, times[|times| - 1], noted);
    }
  }

  lemma {:induction false} MissedFollows(ms: seq<Miss>, m: Miss, now: real)
    requires Spaced(ms) && (ms != [] ==> ms[|ms| - 1].at <= now) && now <= m.at && Waited(ms, m.overlapped, m.at)
    requires m.pause.None? ==> |Recent(SincePause(ms), m.at)| < 2
    ensures Spaced(ms + [m])
  {
    if |ms| >= 2 {
      assert Follows(ms[..|ms| - 1], ms[|ms| - 1]);
      assert ms[..|ms| - 1][|ms| - 2] == ms[|ms| - 2];
      if ms[|ms| - 2].pause.None? && ms[|ms| - 1].pause.None? {
        LastTwoRecent(ms, m.at);
      }
    }
    assert (ms + [m])[..|ms|] == ms;
  }

  lemma {:induction false} SinceAppend(ms: seq<Miss>, m: Miss)
    ensures SincePause(ms + [m]) == if m.pause.Some? then [] else SincePause(ms) + [m.at]
    ensures PauseCount(ms + [m]) == PauseCount(ms) + if m.pause.Some? then 1 else 0
  {
    assert (ms + [m])[..|ms|] == ms;
  }

  /** A miss that may come keeps the book. */
  lemma {:induction false} MissedKeeps(s: State, ms: seq<Miss>, u: User, now: real, noted: real, clash: bool,
                                       overlapped: bool)
    requires MissesKept(s, ms, u, now) && now <= noted && Waited(ms, overlapped, noted)
    ensures var (s', pause) := Missed(s, u, noted);
            MissesKept(s', ms + [Miss(noted, pause, clash, overlapped)], u, noted)
  {
    var (s', pause) := Missed(s, u, noted);
    var m := Miss(noted, pause, clash, overlapped);
    RecentNow(s, ms, u, now, noted);
    MissedBook(s, u, noted);
    MissedFollows(ms, m, now);
    SinceAppend(ms, m);
    RecentLast(SincePause(ms), noted);
  }

  /** What a miss does to the user's book. */
  lemma {:induction false} MissedBook(s: State, u: User, noted: real)
    ensures var (s', pause) := Missed(s, u, noted); var recent := Recent(MissesOf(s, u), noted);
            && MissesOf(s', u) == (if pause.Some? then [] else recent + [noted])
            && PausesOf(s', u) == PausesOf(s, u) + (if pause.Some? then 1 else 0)
            && (pause.None? <==> |recent| < 2)
  {
  }

  /** And a pause that begins outlasts those before it. */
  lemma {:induction false} MissedPauses(s: State, log: seq<Event>, e: Event, u: User, now: real, noted: real)
    requires PauseKept(s, log, u, now) && AtLeastAMinute(log, u) && now <= noted
    requires Misses(e, u) && e.noted == noted && e.pause == Missed(s, u, noted).1
    ensures PauseKept(Missed(s, u, noted).0, log + [e], u, noted) && AtLeastAMinute(log + [e], u)
  {
    var (s', pause) := Missed(s, u, noted);
    assert (log + [e])[..|log|] == log;
    var n := PausesOf(s, u);
    PauseGrows(n);
    if n > 0 {
      PauseGrows(n - 1);
    }
    if pause.Some? {
      if u in s.paused {
        PausesOverLater(log, u, s.paused[u], noted + pause.value);
      } else {
        NoPausesIsOver(log, u, noted + pause.value);
      }
    }
  }

  lemma {:induction false} OtherEvent(log: seq<Event>, e: Event, u: User)
    requires !Misses(e, u) && !Confirms(e, u)
    ensures MissList(log + [e], u) == MissList(log, u)
    ensures forall t :: PausesOver(log + [e], u, t) == PausesOver(log, u, t)
    ensures NoPauses(log + [e], u) == NoPauses(log, u) && AtLeastAMinute(log + [e], u) == AtLeastAMinute(log, u)
  {
    assert (log + [e])[..|log|] == log;
  }

  /** A step that is neither the user's miss nor confirmed Enter, and opens no window for them. */
  lemma {:induction false} OtherStep(h: History, s': State, e: Event, u: User, now: real, now': real)
    requires UserInv(h, u, now) && now <= now' && !Misses(e, u) && !Confirms(e, u)
    requires SameBook(h.s, s', u)
    requires s'.window.Some? && s'.window.value.user == u ==>
               h.s.window.Some? && h.s.window.value.user == u
                 && (h.s.window.value.overlapped ==> s'.window.value.overlapped)
    ensures UserInv(History(s', h.log + [e]), u, now')
  {
    OtherEvent(h.log, e, u);
  }

  lemma {:induction false} UnpausedIsOver(h: History, u: User, now: real, t: real)
    requires UserInv(h, u, now) && now <= t && PausedUntil(h.s, u, t) <= t
    ensures AllOver(MissList(h.log, u), t)
  {
    if u in h.s.paused {
      PausesOverLater(h.log, u, h.s.paused[u], t);
    } else {
      NoPausesIsOver(h.log, u, t);
    }
    OverInList(h.log, u, t);
  }

  lemma {:induction false} ListOn(log: seq<Event>, e: Event, u: User)
    ensures MissList(log + [e], u) == if Confirms(e, u) then []
                                      else MissList(log, u) + (if Misses(e, u) then [MissAt(e)] else [])
  {
    assert (log + [e])[..|log|] == log;
  }

  /** The user's own miss. */
  lemma {:induction false} MissStep(h: History, s: State, e: Event, u: User, now: real, noted: real)
    requires UserInv(h, u, now) && now <= noted
    requires s.misses == h.s.misses && s.pauses == h.s.pauses && s.paused == h.s.paused
    requires Misses(e, u) && e.noted == noted && e.pause == Missed(s, u, noted).1
    requires Waited(MissList(h.log, u), e.Closed? && e.ending == Overlapped, noted)
    ensures var h' := History(Missed(s, u, noted).0, h.log + [e]);
            && MissList(h'.log, u) == MissList(h.log, u) + [MissAt(e)]
            && MissesKept(h'.s, MissList(h'.log, u), u, noted) && PauseKept(h'.s, h'.log, u, noted)
               && AtLeastAMinute(h'.log, u)
  {
    var ms := MissList(h.log, u);
    MissesSame(h.s, s, ms, u, now);
    PauseSame(h.s, s, h.log, u, now);
    MissedKeeps(s, ms, u, now, noted, e.Clashed?, e.Closed? && e.ending == Overlapped);
    MissedPauses(s, h.log, e, u, now, noted);
    ListOn(h.log, e, u);
  }

  lemma {:induction false} MissesSame(s: State, s': State, ms: seq<Miss>, u: User, now: real)
    requires MissesKept(s, ms, u, now) && s'.misses == s.misses && s'.pauses == s.pauses
    ensures MissesKept(s', ms, u, now)
  {
  }

  lemma {:induction false} PauseSame(s: State, s': State, log: seq<Event>, u: User, now: real)
    requires PauseKept(s, log, u, now) && s'.paused == s.paused && s'.pauses == s.pauses
    ensures PauseKept(s', log, u, now)
  {
  }

  lemma {:induction false} WaitedClash(ms: seq<Miss>, m: Miss, now: real)
    requires AllOver(ms, now) && m.clash
    ensures Waited(ms + [m], true, now)
  {
    OverMeansWaited(ms, true, now);
  }

  lemma {:induction false} ClashMissKeeps(h: History, s: State, e: Event, at: real, noted: real, u: User, now: real)
    requires UserInv(h, u, now) && now <= at <= noted && PausedUntil(h.s, u, at) <= at
    requires h.s.window.Some? && s == h.s.(window := Some(h.s.window.value.(overlapped := true)))
    requires e.Clashed? && e.user == u && e.noted == noted && e.pause == Missed(s, u, noted).1
    ensures UserInv(History(Missed(s, u, noted).0, h.log + [e]), u, noted)
  {
    var h', ms := ClashMissed(h, s, e, at, noted, u, now);
    ClashEnds(h', ms, MissAt(e), u, noted);
  }

  lemma {:induction false} ClashMissed(h: History, s: State, e: Event, at: real, noted: real, u: User, now: real)
    returns (h': History, ms: seq<Miss>)
    requires UserInv(h, u, now) && now <= at <= noted && PausedUntil(h.s, u, at) <= at
    requires s.misses == h.s.misses && s.pauses == h.s.pauses && s.paused == h.s.paused
    requires e.Clashed? && e.user == u && e.noted == noted && e.pause == Missed(s, u, noted).1
    ensures h' == History(Missed(s, u, noted).0, h.log + [e]) && h'.s.window == s.window
    ensures MissList(h'.log, u) == ms + [MissAt(e)] && AllOver(ms, noted)
            && MissesKept(h'.s, MissList(h'.log, u), u, noted)
    ensures PauseKept(h'.s, h'.log, u, noted) && AtLeastAMinute(h'.log, u)
  {
    ms := MissList(h.log, u);
    ClashWaited(h, at, noted, u, now);
    MissStep(h, s, e, u, now, noted);
    MissedWindow(s, u, noted);
    h' := History(Missed(s, u, noted).0, h.log + [e]);
  }

  lemma {:induction false} MissedWindow(s: State, u: User, noted: real)
    ensures Missed(s, u, noted).0.window == s.window
  {
  }

  lemma {:induction false} ClashEnds(h: History, ms: seq<Miss>, m: Miss, u: User, now: real)
    requires MissList(h.log, u) == ms + [m] && MissesKept(h.s, MissList(h.log, u), u, now)
             && PauseKept(h.s, h.log, u, now)
    requires AtLeastAMinute(h.log, u) && AllOver(ms, now) && m.clash && h.s.window.Some? && h.s.window.value.overlapped
    ensures UserInv(h, u, now)
  {
    WaitedClash(ms, m, now);
  }

  lemma {:induction false} ClashWaited(h: History, at: real, noted: real, u: User, now: real)
    requires UserInv(h, u, now) && now <= at <= noted && PausedUntil(h.s, u, at) <= at
    ensures AllOver(MissList(h.log, u), noted) && Waited(MissList(h.log, u), false, noted)
  {
    var ms := MissList(h.log, u);
    UnpausedIsOver(h, u, now, at);
    OverLater(ms, at, noted);
    OverMeansWaited(ms, false, noted);
  }

  lemma {:induction false} ClashKeeps(h: History, call: Call, at: real, noted: real, u: User, now: real)
    requires UserInv(h, u, now) && now <= at <= noted && PausedUntil(h.s, u, at) <= at && h.s.window.Some?
    ensures var (s', e) := Asked(h.s, call, u, at, noted); UserInv(History(s', h.log + [e]), u, noted)
  {
    ClashMissKeeps(h, h.s.(window := Some(h.s.window.value.(overlapped := true))), Asked(h.s, call, u, at, noted).1, at,
                   noted, u, now);
  }

  lemma {:induction false} OpenKeeps(h: History, call: Call, at: real, noted: real, u: User, now: real)
    requires UserInv(h, u, now) && now <= at <= noted && PausedUntil(h.s, u, at) <= at && h.s.window.None?
    ensures var (s', e) := Asked(h.s, call, u, at, noted); UserInv(History(s', h.log + [e]), u, noted)
  {
    var (s', e) := Asked(h.s, call, u, at, noted);
    OtherStep(h, h.s, e, u, now, noted);
    UnpausedIsOver(h, u, now, at);
    OtherEvent(h.log, e, u);
    OverLater(MissList(h.log, u), at, noted);
    WithWindow(History(h.s, h.log + [e]), call, u, noted);
  }

  /** A window for a user whose pauses are over. */
  lemma {:induction false} WithWindow(h: History, call: Call, u: User, now: real)
    requires UserInv(h, u, now) && h.s.window.None? && PausedUntil(h.s, u, now) <= now
             && AllOver(MissList(h.log, u), now)
    ensures UserInv(History(h.s.(window := Some(Window(call, u, false))), h.log), u, now)
  {
    OverMeansWaited(MissList(h.log, u), false, now);
    MissesSame(h.s, h.s.(window := Some(Window(call, u, false))), MissList(h.log, u), u, now);
  }

  lemma {:induction false} RequestKeeps(h: History, call: Call, v: User, at: real, noted: real, u: User, now: real)
    requires UserInv(h, u, now) && now <= at <= noted
    ensures var (s', e) := Asked(h.s, call, v, at, noted); UserInv(History(s', h.log + [e]), u, noted)
  {
    var (s', e) := Asked(h.s, call, v, at, noted);
    if u != v || e.TurnedAway? {
      OtherStep(h, s', e, u, now, noted);
    } else if h.s.window.Some? {
      ClashKeeps(h, call, at, noted, u, now);
    } else {
      OpenKeeps(h, call, at, noted, u, now);
    }
  }

  lemma {:induction false} OverLater(ms: seq<Miss>, t: real, t': real)
    requires AllOver(ms, t) && t <= t'
    ensures AllOver(ms, t')
  {
    if ms != [] {
      OverLater(ms[..|ms| - 1], t, t');
    }
  }

  lemma {:induction false} ClosingMissKeeps(h: History, e: Event, u: User, now: real, noted: real)
    requires UserInv(h, u, now) && now <= noted && h.s.window.Some? && h.s.window.value.user == u
    requires e.Closed? && Misses(e, u) && e.noted == noted && (e.ending == Overlapped <==> h.s.window.value.overlapped)
    requires e.pause == Missed(h.s.(window := None), u, noted).1
    ensures UserInv(History(Missed(h.s.(window := None), u, noted).0, h.log + [e]), u, noted)
  {
    MissStep(h, h.s.(window := None), e, u, now, noted);
  }

  lemma {:induction false} AnswerKeeps(h: History, pressed: Pressed, cancelled: bool, noted: real, u: User, now: real)
    requires UserInv(h, u, now) && now <= noted
    ensures var (s', e) := Answered(h.s, pressed, cancelled, noted); UserInv(History(s', h.log + [e]), u, noted)
  {
    var (s', e) := Answered(h.s, pressed, cancelled, noted);
    AnsweredFacts(h.s, pressed, cancelled, noted, u);
    if Misses(e, u) {
      ClosingMissKeeps(h, e, u, now, noted);
    } else if Confirms(e, u) {
      ConfirmStep(h, s', e, u, now, noted);
    } else {
      OtherStep(h, s', e, u, now, noted);
    }
  }

  /** What an answer means for one user: their miss, their confirmed Enter, or nothing. */
  lemma {:induction false} AnsweredFacts(s: State, pressed: Pressed, cancelled: bool, noted: real, u: User)
    ensures var (s', e) := Answered(s, pressed, cancelled, noted);
            && (Misses(e, u) ==>
                  && s.window.Some? && s.window.value.user == u && e.Closed? && e.noted == noted
                  && (e.ending == Overlapped <==> s.window.value.overlapped)
                     && (s', e.pause) == Missed(s.(window := None), u, noted))
            && (Confirms(e, u) ==>
                  && s.window.Some? && s.window.value.user == u && !s.window.value.overlapped
                  && MissesOf(s', u) == [] && PausesOf(s', u) == 0 && s'.paused == s.paused && s'.window.None?)
            && (!Misses(e, u) && !Confirms(e, u) ==> SameBook(s, s', u) && s'.window.None?)
  {
  }

  /** The user's entries are the same. */
  predicate SameBook(s: State, s': State, u: User) {
    && MissesOf(s', u) == MissesOf(s, u) && PausesOf(s', u) == PausesOf(s, u) && (u in s'.paused <==> u in s.paused)
    && (u in s'.paused ==> s'.paused[u] == s.paused[u])
  }

  /** The user's confirmed Enter: their pauses are over, and the book is empty. */
  lemma {:induction false} ConfirmStep(h: History, s': State, e: Event, u: User, now: real, noted: real)
    requires UserInv(h, u, now) && now <= noted && Confirms(e, u) && PausedUntil(h.s, u, now) <= now
    requires MissesOf(s', u) == [] && PausesOf(s', u) == 0 && s'.paused == h.s.paused && s'.window.None?
    ensures UserInv(History(s', h.log + [e]), u, noted)
  {
    ListOn(h.log, e, u);
    OtherUserPauses(h.log, e, u);
    EmptyBook(s', u, noted);
    PauseIsPast(h.s, s', h.log, h.log + [e], u, now, noted);
  }

  lemma {:induction false} EmptyBook(s: State, u: User, now: real)
    requires MissesOf(s, u) == [] && PausesOf(s, u) == 0
    ensures MissesKept(s, [], u, now)
  {
  }

  lemma {:induction false} PauseIsPast(s: State, s': State, log: seq<Event>, log': seq<Event>, u: User, now: real,
                                       noted: real)
    requires PauseKept(s, log, u, now) && now <= noted && PausedUntil(s, u, now) <= now && s'.paused == s.paused
             && PausesOf(s', u) == 0
    requires NoPauses(log', u) == NoPauses(log, u) && forall t :: PausesOver(log', u, t) == PausesOver(log, u, t)
    ensures PauseKept(s', log', u, noted)
  {
  }

  lemma {:induction false} OtherUserPauses(log: seq<Event>, e: Event, u: User)
    requires !Misses(e, u)
    ensures forall t :: PausesOver(log + [e], u, t) == PausesOver(log, u, t)
    ensures NoPauses(log + [e], u) == NoPauses(log, u) && AtLeastAMinute(log + [e], u) == AtLeastAMinute(log, u)
  {
    assert (log + [e])[..|log|] == log;
  }

  lemma {:induction false} RunKeeps(inputs: seq<Input>, u: User)
    requires Timely(inputs)
    ensures UserInv(Run(inputs), u, Clock(inputs))
  {
    if inputs != [] {
      var front, input := inputs[..|inputs| - 1], inputs[|inputs| - 1];
      RunKeeps(front, u);
      var h, now := Run(front), Clock(front);
      match input
      case Request(call, v, check, at, noted) =>
        if check == Fits {
          RequestKeeps(h, call, v, at, noted, u, now);
        } else {
          OtherStep(h, h.s, Declined(call, v, check), u, now, noted);
        }
      case Answer(pressed, cancelled, noted) => AnswerKeeps(h, pressed, cancelled, noted, u, now);
      case Scanned(call, result) =>
        var (s', e) := ScanDone(h.s, call, result);
        OtherStep(h, s', e, u, now, now);
    }
  }

  // ------------------------------------------------------ pauses, run by run

  /** A pause of the user, as the history tells it. */
  predicate Pauses(e: Event, u: User) {
    Misses(e, u) && e.pause.Some?
  }

  /** No window opens for a user while any of their pauses lasts. */
  lemma {:induction false} NoWindowWhilePaused(inputs: seq<Input>, i: nat, j: nat, u: User)
    requires Timely(inputs) && i < j < |inputs|
    ensures var log := Run(inputs).log;
            Pauses(log[i], u) && log[j].Opened? && log[j].user == u ==> log[i].noted + log[i].pause.value <= log[j].at
  {
    var log, h := Run(inputs).log, Run(inputs[..j]);
    StepAt(inputs, j);
    RunKeeps(inputs[..j], u);
    if Pauses(log[i], u) && log[j].Opened? && log[j].user == u {
      assert h.log[i] == log[i];
      OpeningIsUnpaused(h.s, inputs[j], u);
      PauseIsOver(h.log, i, u, if u in h.s.paused then h.s.paused[u] else 0.0, u in h.s.paused);
    }
  }

  lemma {:induction false} OpeningIsUnpaused(s: State, input: Input, u: User)
    requires Step(s, input).1.Opened? && Step(s, input).1.user == u
    ensures u in s.paused ==> s.paused[u] <= Step(s, input).1.at
  {
  }

  lemma {:induction false} PauseIsOver(log: seq<Event>, i: nat, u: User, t: real, paused: bool)
    requires i < |log| && Pauses(log[i], u) && (if paused then PausesOver(log, u, t) else NoPauses(log, u))
    ensures paused && log[i].noted + log[i].pause.value <= t
  {
    if i < |log| - 1 {
      PauseIsOver(log[..|log| - 1], i, u, t, paused);
    }
  }

  /** The misses a new one joins: since the last pause or confirmed Enter, less than a minute old. */
  function Counting(log: seq<Event>, u: User, now: real): seq<real> {
    Recent(SincePause(MissList(log, u)), now)
  }

  /** Those misses are the ones less than a minute old, each as often as it was noted. */
  lemma {:induction false} RecentMeans(times: seq<real>, now: real, t: real)
    ensures multiset(Recent(times, now))[t] == if now - t < 60.0 then multiset(times)[t] else 0
  {
    if times != [] {
      RecentMeans(times[..|times| - 1], now, t);
      Last(times);
    }
  }

  /** The first pause lasts a minute, each further one twice as long, an hour at most. */
  lemma {:induction false} PauseLengths()
    ensures PauseSeconds(0) == 60.0 && PauseSeconds(1) == 120.0 && PauseSeconds(2) == 240.0 && PauseSeconds(3) == 480.0
    ensures PauseSeconds(4) == 960.0 && PauseSeconds(5) == 1920.0 && forall k :: k >= 6 ==> PauseSeconds(k) == 3600.0
  {
    assert Pow2(5) == 32 by { assert Pow2(3) == 8; }
    forall k | k >= 6 ensures PauseSeconds(k) == 3600.0 {
      PowerGrows(k);
    }
  }

  lemma {:induction false} PowerGrows(k: nat)
    requires k >= 6
    ensures Pow2(k) >= 64
  {
    if k > 6 {
      PowerGrows(k - 1);
    } else {
      assert Pow2(3) == 8;
    }
  }

  /** A miss starts a pause exactly when it is the third within a minute, and the
      k-th pause without a confirmed Enter lasts 60 * 2^(k-1) seconds, an hour at most. */
  lemma {:induction false} PausesGrow(inputs: seq<Input>, j: nat, u: User)
    requires Timely(inputs) && j < |inputs|
    ensures var log := Run(inputs).log; var e := log[j];
            Misses(e, u) ==>
              && (e.pause.Some? <==> |Counting(log[..j], u, e.noted)| >= 2)
              && (e.pause.Some? ==> e.pause.value == PauseSeconds(PauseCount(MissList(log[..j], u))))
  {
    var log, h := Run(inputs).log, Run(inputs[..j]);
    StepAt(inputs, j);
    RunKeeps(inputs[..j], u);
    if Misses(log[j], u) {
      assert inputs[..j + 1][..j] == inputs[..j];
      RecentNow(h.s, MissList(h.log, u), u, Clock(inputs[..j]), log[j].noted);
      MissAsks(h.s, inputs[j], u);
    }
  }

  lemma {:induction false} MissAsks(s: State, input: Input, u: User)
    requires Misses(Step(s, input).1, u)
    ensures var e := Step(s, input).1;
            e.pause == if |Recent(MissesOf(s, u), e.noted)| + 1 < CONFIRM_MISSES then None
                       else Some(PauseSeconds(PausesOf(s, u)))
  {
  }

  // --------------------------------------------------- a minute of misses

  predicate NoConfirm(log: seq<Event>, u: User) {
    forall k :: 0 <= k < |log| ==> !Confirms(log[k], u)
  }

  lemma {:induction false} MissListSplit(log: seq<Event>, i: nat, u: User)
    requires i <= |log| && NoConfirm(log[i..], u)
    ensures MissList(log, u) == MissList(log[..i], u) + MissList(log[i..], u)
  {
    if i == |log| {
      assert log[..i] == log && log[i..] == [];
    } else {
      var front := log[..|log| - 1];
      assert log[i..][..|log| - i - 1] == front[i..];
      assert log[i..][|log| - i - 1] == log[|log| - 1];
      MissListSplit(front, i, u);
      assert front[..i] == log[..i];
    }
  }

  lemma {:induction false} SpacedAt(ms: seq<Miss>, k: nat)
    requires Spaced(ms) && k < |ms|
    ensures Follows(ms[..k], ms[k])
  {
    if k < |ms| - 1 {
      SpacedAt(ms[..|ms| - 1], k);
      assert ms[..|ms| - 1][..k] == ms[..k];
    }
  }

  predicate Within(ms: seq<Miss>, start: real) {
    forall k :: 0 <= k < |ms| ==> start <= ms[k].at < start + CONFIRM_PAUSE_SECONDS
  }

  lemma {:induction false} SpacedMinute(ms: seq<Miss>, i: nat, start: real)
    requires Spaced(ms) && i <= |ms| && Within(ms[i..], start)
    ensures |ms| - i <= 4
    ensures |ms| - i == 4 ==> ms[i + 2].clash && ms[i + 3].overlapped
  {
    var some := ms[i..];
    assert forall k :: 0 <= k < |some| ==> some[k] == ms[i + k];
    if |some| >= 3 {
      SpacedAt(ms, i + 2);
    }
    if |some| >= 4 {
      SpacedAt(ms, i + 3);
    }
    if |some| >= 5 {
      SpacedAt(ms, i + 4);
    }
  }

  /** In any minute without a confirmed Enter a user has at most four misses; and
      four only when the third ran into a window of theirs whose end is the fourth. */
  lemma {:induction false} FewMissesAMinute(inputs: seq<Input>, i: nat, j: nat, u: User, start: real)
    requires Timely(inputs) && i <= j <= |inputs|
    requires var part := Run(inputs).log[i..j]; NoConfirm(part, u) && Within(MissList(part, u), start)
    ensures var ms := MissList(Run(inputs).log[i..j], u);
            |ms| <= 4 && (|ms| == 4 ==> ms[2].clash && ms[3].overlapped)
  {
    var front := inputs[..j];
    RunPrefix(inputs, j);
    RunKeeps(front, u);
    var log := Run(front).log;
    assert log[i..] == Run(inputs).log[i..j];
    MissListSplit(log, i, u);
    var ms, before := MissList(log, u), MissList(log[..i], u);
    assert ms[|before|..] == MissList(log[i..], u);
    SpacedMinute(ms, |before|, start);
  }

  lemma {:induction false} SpacedIsSorted(ms: seq<Miss>, i: nat, j: nat)
    requires Spaced(ms) && i <= j < |ms|
    ensures ms[i].at <= ms[j].at
  {
    if i < j {
      SpacedAt(ms, j);
      SpacedIsSorted(ms, i, j - 1);
    }
  }

  lemma {:induction false} MissesAreSorted(inputs: seq<Input>, i: nat, j: nat, u: User, a: nat, b: nat)
    requires Timely(inputs) && i <= j <= |inputs| && NoConfirm(Run(inputs).log[i..j], u)
    requires a <= b < |MissList(Run(inputs).log[i..j], u)|
    ensures var ms := MissList(Run(inputs).log[i..j], u); ms[a].at <= ms[b].at
  {
    var log := LogPart(inputs, i, j, u);
    PartIsSorted(log, i, u, a, b);
  }

  lemma {:induction false} PartIsSorted(log: seq<Event>, i: nat, u: User, a: nat, b: nat)
    requires i <= |log| && Spaced(MissList(log, u)) && NoConfirm(log[i..], u) && a <= b < |MissList(log[i..], u)|
    ensures var ms := MissList(log[i..], u); ms[a].at <= ms[b].at
  {
    MissListSplit(log, i, u);
    var n := |MissList(log[..i], u)|;
    SpacedIsSorted(MissList(log, u), n + a, n + b);
  }

  /** The log up to j, whose end is the part from i to j. */
  lemma {:induction false} LogPart(inputs: seq<Input>, i: nat, j: nat, u: User) returns (log: seq<Event>)
    requires Timely(inputs) && i <= j <= |inputs|
    ensures |log| == j && log[i..] == Run(inputs).log[i..j] && Spaced(MissList(log, u))
  {
    RunPrefix(inputs, j);
    RunKeeps(inputs[..j], u);
    log := Run(inputs[..j]).log;
  }

  /** With the end counted in, more than four take a miss at the very start and one at the very end. */
  lemma {:induction false} MoreNeedsBothEnds(inputs: seq<Input>, i: nat, j: nat, u: User, start: real)
    requires Timely(inputs) && i <= j <= |inputs| && NoConfirm(Run(inputs).log[i..j], u)
    requires var ms := MissList(Run(inputs).log[i..j], u);
             |ms| > 4 && forall k :: 0 <= k < |ms| ==> start <= ms[k].at <= start + CONFIRM_PAUSE_SECONDS
    ensures var ms := MissList(Run(inputs).log[i..j], u);
            ms[0].at == start && ms[|ms| - 1].at == start + CONFIRM_PAUSE_SECONDS
  {
    var ms := MissList(Run(inputs).log[i..j], u);
    forall k | 0 <= k < |ms| ensures ms[0].at <= ms[k].at <= ms[|ms| - 1].at {
      MissesAreSorted(inputs, i, j, u, 0, k);
      MissesAreSorted(inputs, i, j, u, k, |ms| - 1);
    }
    if Within(ms, start) {
      FewMissesAMinute(inputs, i, j, u, start);
    } else if Within(ms, ms[0].at) {
      FewMissesAMinute(inputs, i, j, u, ms[0].at);
    }
  }

  /** So three when no two requests overlap. */
  lemma {:induction false} ThreeWithoutOverlap(inputs: seq<Input>, i: nat, j: nat, u: User, start: real)
    requires Timely(inputs) && i <= j <= |inputs|
    requires var part := Run(inputs).log[i..j]; NoConfirm(part, u) && Within(MissList(part, u), start)
    requires forall k :: i <= k < j ==> !Run(inputs).log[k].Clashed?
    ensures |MissList(Run(inputs).log[i..j], u)| <= 3
  {
    FewMissesAMinute(inputs, i, j, u, start);
    var part := Run(inputs).log[i..j];
    assert forall k :: 0 <= k < |part| ==> part[k] == Run(inputs).log[i + k];
    NoClashes(part, u);
  }

  lemma {:induction false} NoClashes(log: seq<Event>, u: User)
    requires forall k :: 0 <= k < |log| ==> !log[k].Clashed?
    ensures forall k :: 0 <= k < |MissList(log, u)| ==> !MissList(log, u)[k].clash
  {
    if log != [] {
      NoClashes(log[..|log| - 1], u);
    }
  }

  // ------------------------------------------------------ four do happen

  lemma {:induction false} RunOn(inputs: seq<Input>, input: Input)
    ensures var h := Run(inputs); var (s, e) := Step(h.s, input); Run(inputs + [input]) == History(s, h.log + [e])
  {
    assert (inputs + [input])[..|inputs|] == inputs;
  }

  lemma {:induction false} TimelyOn(inputs: seq<Input>, input: Input)
    requires Timely(inputs)
    requires (input.Answer? && Clock(inputs) <= input.noted)
             || (input.Request? && Clock(inputs) <= input.at <= input.noted)
    ensures Timely(inputs + [input]) && Clock(inputs + [input]) == input.noted
  {
    assert (inputs + [input])[..|inputs|] == inputs;
  }

  /** Asking into an empty room: the window and its end. */
  function Unanswered(u: User, t: real): seq<Input> {
    [Request(0, u, Fits, t, t), Answer(NoKey, false, t)]
  }

  /** Two requests that meet. */
  function Meeting(u: User, t: real): seq<Input> {
    [Request(0, u, Fits, t, t), Request(1, u, Fits, t, t), Answer(Enter, false, t)]
  }

  /** Where a user stands: no window, no pause beyond until, misses and pauses so far. */
  predicate Stands(inputs: seq<Input>, u: User, t: real, until: real, times: seq<real>, pauses: nat, ms: seq<Miss>) {
    var h := Run(inputs);
    && Timely(inputs) && Clock(inputs) == t && h.s.window.None? && PausedUntil(h.s, u, until) <= until
       && NoConfirm(h.log, u)
    && MissesOf(h.s, u) == times && PausesOf(h.s, u) == pauses && MissList(h.log, u) == ms
  }

  lemma {:induction false} TwoOn(inputs: seq<Input>, a: Input, b: Input)
    ensures inputs + [a, b] == inputs + [a] + [b]
  {
  }

  lemma {:induction false} ThreeOn(inputs: seq<Input>, a: Input, b: Input, c: Input)
    ensures inputs + [a, b, c] == inputs + [a] + [b] + [c]
  {
  }

  lemma {:induction false} UnansweredSteps(s: State, u: User, t: real)
    requires s.window.None? && PausedUntil(s, u, t) <= t && |Recent(MissesOf(s, u), t)| < 2
    ensures var (s1, e1) := Step(s, Unanswered(u, t)[0]); var (s2, e2) := Step(s1, Unanswered(u, t)[1]);
            && e1 == Opened(0, u, t) && e2 == Closed(0, u, Unconfirmed, t, None)
            && s2.window.None? && s2.paused == s.paused && PausesOf(s2, u) == PausesOf(s, u)
            && MissesOf(s2, u) == Recent(MissesOf(s, u), t) + [t]
  {
  }

  lemma {:induction false} UnansweredIsAMiss(inputs: seq<Input>, u: User, now: real, t: real, until: real,
                                             times: seq<real>, pauses: nat, ms: seq<Miss>)
    requires Stands(inputs, u, now, until, times, pauses, ms) && now <= t && until <= t && |Recent(times, t)| < 2
    ensures Stands(inputs + Unanswered(u, t), u, t, until, Recent(times, t) + [t], pauses,
                   ms + [Miss(t, None, false, false)])
  {
    var a, b := Unanswered(u, t)[0], Unanswered(u, t)[1];
    TwoOn(inputs, a, b);
    TimelyOn(inputs, a);
    TimelyOn(inputs + [a], b);
    UnansweredSteps(Run(inputs).s, u, t);
    RunOn(inputs, a);
    RunOn(inputs + [a], b);
    UnansweredList(Run(inputs).log, u, t);
  }

  lemma {:induction false} UnansweredList(log: seq<Event>, u: User, t: real)
    ensures var all := log + [Opened(0, u, t)] + [Closed(0, u, Unconfirmed, t, None)];
            MissList(all, u) == MissList(log, u) + [Miss(t, None, false, false)]
              && (NoConfirm(log, u) ==> NoConfirm(all, u))
  {
    ListOn(log, Opened(0, u, t), u);
    ListOn(log + [Opened(0, u, t)], Closed(0, u, Unconfirmed, t, None), u);
    assert MissList(log, u) + [] == MissList(log, u);
  }

  lemma {:induction false} MeetingSteps(s: State, u: User, t: real)
    requires s.window.None? && PausedUntil(s, u, t) <= t && |Recent(MissesOf(s, u), t)| == 2 && PausesOf(s, u) == 0
    ensures var (s1, e1) := Step(s, Meeting(u, t)[0]);
            var (s2, e2) := Step(s1, Meeting(u, t)[1]);
            var (s3, e3) := Step(s2, Meeting(u, t)[2]);
            && e1 == Opened(0, u, t) && e2 == Clashed(1, u, t, Some(60.0)) && e3 == Closed(0, u, Overlapped, t, None)
            && s3.window.None? && PausedUntil(s3, u, t) == t + 60.0 && PausesOf(s3, u) == 1 && MissesOf(s3, u) == [t]
  {
    assert PauseSeconds(0) == 60.0;
    var s1 := Step(s, Meeting(u, t)[0]).0;
    var s2 := Step(s1, Meeting(u, t)[1]).0;
    assert MissesOf(s2, u) == [] && Recent([], t) == [];
  }

  lemma {:induction false} MeetingIsTwo(inputs: seq<Input>, u: User, t: real, times: seq<real>, ms: seq<Miss>)
    requires Stands(inputs, u, t, t, times, 0, ms) && |Recent(times, t)| == 2
    ensures Stands(inputs + Meeting(u, t), u, t, t + 60.0, [t], 1,
                   ms + [Miss(t, Some(60.0), true, false)] + [Miss(t, None, false, true)])
  {
    var a, b, c := Meeting(u, t)[0], Meeting(u, t)[1], Meeting(u, t)[2];
    ThreeOn(inputs, a, b, c);
    TimelyOn(inputs, a);
    TimelyOn(inputs + [a], b);
    TimelyOn(inputs + [a] + [b], c);
    MeetingSteps(Run(inputs).s, u, t);
    RunOn(inputs, a);
    RunOn(inputs + [a], b);
    RunOn(inputs + [a] + [b], c);
    MeetingList(Run(inputs).log, u, t);
  }

  lemma {:induction false} MeetingList(log: seq<Event>, u: User, t: real)
    ensures var all := log + [Opened(0, u, t)] + [Clashed(1, u, t, Some(60.0))] + [Closed(0, u, Overlapped, t, None)];
            && MissList(all, u) == MissList(log, u) + [Miss(t, Some(60.0), true, false)] + [Miss(t, None, false, true)]
            && (NoConfirm(log, u) ==> NoConfirm(all, u))
  {
    ListOn(log, Opened(0, u, t), u);
    ListOn(log + [Opened(0, u, t)], Clashed(1, u, t, Some(60.0)), u);
    ListOn(log + [Opened(0, u, t)] + [Clashed(1, u, t, Some(60.0))], Closed(0, u, Overlapped, t, None), u);
    assert MissList(log, u) + [] == MissList(log, u);
  }

  const SILENT := Miss(0.0, None, false, false)
  const MET := Miss(0.0, Some(60.0), true, false)
  const ENDED := Miss(0.0, None, false, true)

  lemma {:induction false} FourAtOnce(u: User) returns (inputs: seq<Input>)
    ensures Stands(inputs, u, 0.0, 60.0, [0.0], 1, [SILENT, SILENT, MET, ENDED])
  {
    var none: seq<Input>, times: seq<real>, ms: seq<Miss> := [], [], [];
    assert Stands(none, u, 0.0, 0.0, times, 0, ms) && Recent(times, 0.0) == times;
    UnansweredIsAMiss(none, u, 0.0, 0.0, 0.0, times, 0, ms);
    RecentLast(times, 0.0);
    var one := none + Unanswered(u, 0.0);
    UnansweredIsAMiss(one, u, 0.0, 0.0, 0.0, times + [0.0], 0, ms + [SILENT]);
    RecentLast(times + [0.0], 0.0);
    var two := one + Unanswered(u, 0.0);
    MeetingIsTwo(two, u, 0.0, times + [0.0] + [0.0], ms + [SILENT] + [SILENT]);
    inputs := two + Meeting(u, 0.0);
    assert ms + [SILENT] + [SILENT] + [MET] + [ENDED] == [SILENT, SILENT, MET, ENDED];
  }

  /** The bound of four is reached. */
  lemma {:induction false} FourMissesHappen(u: User) returns (inputs: seq<Input>)
    ensures Timely(inputs) && NoConfirm(Run(inputs).log, u)
    ensures |MissList(Run(inputs).log, u)| == 4 && Within(MissList(Run(inputs).log, u), 0.0)
  {
    inputs := FourAtOnce(u);
  }

  /** With the end of the minute counted in, there can be five: the pause is over
      at that moment, and the first four are no longer recent. */
  lemma {:induction false} FiveInAClosedMinute(u: User) returns (inputs: seq<Input>)
    ensures Timely(inputs) && NoConfirm(Run(inputs).log, u) && |MissList(Run(inputs).log, u)| == 5
    ensures forall k :: 0 <= k < 5 ==> 0.0 <= MissList(Run(inputs).log, u)[k].at <= CONFIRM_PAUSE_SECONDS
  {
    inputs := FourAtOnce(u);
    var ms := [SILENT, SILENT, MET, ENDED];
    OldIsNotRecent();
    UnansweredIsAMiss(inputs, u, 0.0, 60.0, 60.0, [0.0], 1, ms);
    inputs := inputs + Unanswered(u, 60.0);
    FiveTimes(ms + [Miss(60.0, None, false, false)]);
  }

  lemma {:induction false} FiveTimes(ms: seq<Miss>)
    requires ms == [SILENT, SILENT, MET, ENDED] + [Miss(60.0, None, false, false)]
    ensures |ms| == 5 && forall k :: 0 <= k < 5 ==> 0.0 <= ms[k].at <= CONFIRM_PAUSE_SECONDS
  {
  }

  lemma {:induction false} OldIsNotRecent()
    ensures Recent([0.0], 60.0) == []
  {
    assert [0.0][..0] == [];
  }

  // ----------------------------------------------------------- the windows

  /** The window still open at the end of a history, and where it opened. */
  function OpenWindow(log: seq<Event>): (r: Option<(Window, nat)>)
    ensures r.Some? ==> r.value.1 < |log|
  {
    if log == [] then None
    else
      var e, before := log[|log| - 1], OpenWindow(log[..|log| - 1]);
      match e
      case Opened(call, user, _) => Some((Window(call, user, false), |log| - 1))
      case Closed(_, _, _, _, _) => None
      case Clashed(_, _, _, _) => (if before.Some? then Some((before.value.0.(overlapped := true), before.value.1))
                                   else None)
      case _ => before
  }

  /** Nothing opened or closed since, and no other request came, unless it overlapped. */
  lemma {:induction false} OpenWindowMeans(log: seq<Event>)
    requires OpenWindow(log).Some?
    ensures var (w, i) := OpenWindow(log).value;
            && log[i].Opened? && log[i].call == w.call && log[i].user == w.user
            && (forall k :: i < k < |log| ==> !log[k].Opened? && !log[k].Closed? && (log[k].Clashed? ==> w.overlapped))
  {
    if !log[|log| - 1].Opened? {
      OpenWindowMeans(log[..|log| - 1]);
    }
  }

  lemma {:induction false} WindowOfRun(inputs: seq<Input>)
    ensures var h := Run(inputs);
            h.s.window == (if OpenWindow(h.log).Some? then Some(OpenWindow(h.log).value.0) else None)
  {
    if inputs != [] {
      var front := inputs[..|inputs| - 1];
      WindowOfRun(front);
      WindowStep(Run(front).s, Run(front).log, inputs[|inputs| - 1]);
    }
  }

  lemma {:induction false} WindowStep(s: State, log: seq<Event>, input: Input)
    requires s.window == (if OpenWindow(log).Some? then Some(OpenWindow(log).value.0) else None)
    ensures var (s', e) := Step(s, input); var open := OpenWindow(log + [e]);
            s'.window == (if open.Some? then Some(open.value.0) else None)
  {
    var e := Step(s, input).1;
    assert (log + [e])[..|log|] == log;
  }

  lemma {:induction false} ClosingStep(s: State, input: Input)
    requires Step(s, input).1.Closed?
    ensures var e := Step(s, input).1;
            && s.window.Some? && e.call == s.window.value.call && e.user == s.window.value.user && input.Answer?
            && (e.ending == Scans ==> !s.window.value.overlapped && input.pressed == Enter && !input.cancelled)
  {
  }

  /** From an opening on, the window stays until its own closing. */
  lemma {:induction false} NextWithOpen(s: State, log: seq<Event>, input: Input, i: nat)
    requires s.window == (if OpenWindow(log).Some? then Some(OpenWindow(log).value.0) else None)
    requires i < |log| && log[i].Opened? && forall m :: i < m < |log| ==> !log[m].Closed? && !log[m].Opened?
    ensures var e := Step(s, input).1; !e.Opened? && (e.Closed? ==> e.call == log[i].call)
  {
    OpenFrom(log, i);
    if Step(s, input).1.Closed? {
      ClosingStep(s, input);
    }
  }

  predicate StillOpen(log: seq<Event>, i: nat, k: nat) {
    i < k <= |log| && log[i].Opened? && forall m :: i < m < k ==> !log[m].Closed? && !log[m].Opened?
  }

  lemma {:induction false} NextInLog(h: History, log: seq<Event>, input: Input, i: nat, k: nat)
    requires k < |log| && log[..k] == h.log && log[k] == Step(h.s, input).1 && StillOpen(log, i, k)
    requires h.s.window == (if OpenWindow(h.log).Some? then Some(OpenWindow(h.log).value.0) else None)
    ensures !log[k].Opened? && (log[k].Closed? ==> log[k].call == log[i].call)
  {
    assert forall m :: 0 <= m < k ==> h.log[m] == log[m];
    NextWithOpen(h.s, h.log, input, i);
  }

  lemma {:induction false} StaysOpen(inputs: seq<Input>, i: nat, k: nat)
    requires k < |inputs| && StillOpen(Run(inputs).log, i, k)
    ensures var log := Run(inputs).log; !log[k].Opened? && (log[k].Closed? ==> log[k].call == log[i].call)
  {
    StepAt(inputs, k);
    WindowOfRun(inputs[..k]);
    NextInLog(Run(inputs[..k]), Run(inputs).log, inputs[k], i, k);
  }

  /** A window closes before the next opens. */
  lemma {:induction false} WindowsAreDisjoint(inputs: seq<Input>, i: nat, j: nat)
    requires i < j < |inputs| && Run(inputs).log[i].Opened? && Run(inputs).log[j].Opened?
    ensures exists k :: i < k < j && Run(inputs).log[k].Closed? && Run(inputs).log[k].call == Run(inputs).log[i].call
  {
    var k := ClosesBetween(inputs, i, i + 1, j);
  }

  lemma {:induction false} ClosesBetween(inputs: seq<Input>, i: nat, k: nat, j: nat) returns (m: nat)
    requires i < k <= j < |inputs| && StillOpen(Run(inputs).log, i, k) && Run(inputs).log[j].Opened?
    ensures i < m < j && Run(inputs).log[m].Closed? && Run(inputs).log[m].call == Run(inputs).log[i].call
    decreases j - k
  {
    StaysOpen(inputs, i, k);
    if Run(inputs).log[k].Closed? {
      m := k;
    } else {
      m := ClosesBetween(inputs, i, k + 1, j);
    }
  }

  lemma {:induction false} OpenFrom(log: seq<Event>, i: nat)
    requires i < |log| && log[i].Opened? && forall m :: i < m < |log| ==> !log[m].Closed? && !log[m].Opened?
    ensures OpenWindow(log).Some? && OpenWindow(log).value.1 == i && OpenWindow(log).value.0.call == log[i].call
  {
    if i < |log| - 1 {
      OpenFrom(log[..|log| - 1], i);
    }
  }

  // ------------------------------------------- what each input leads to

  /** A request that gets as far as the window. */
  predicate ComesToWindow(input: Input, e: Event) {
    input.Request? && input.check == Fits && !e.TurnedAway?
  }

  predicate ClashedBetween(log: seq<Event>, i: nat, j: nat) {
    j <= |log| && exists k :: i < k < j && log[k].Clashed?
  }

  /** An open window is overlapped exactly when another request clashed with it. */
  lemma {:induction false} OverlappedExactly(log: seq<Event>, i: nat)
    requires StillOpen(log, i, |log|)
    ensures OpenWindow(log).Some?
    ensures OpenWindow(log).value == (Window(log[i].call, log[i].user, ClashedBetween(log, i, |log|)), i)
  {
    if i < |log| - 1 {
      var front := log[..|log| - 1];
      OverlappedExactly(front, i);
      if ClashedBetween(front, i, |front|) {
        var k :| i < k < |front| && front[k].Clashed?;
        assert log[k].Clashed?;
      }
      if ClashedBetween(log, i, |log|) && !log[|log| - 1].Clashed? {
        var k :| i < k < |log| && log[k].Clashed?;
        assert front[k].Clashed?;
      }
    }
  }

  lemma {:induction false} StillOpenFound(log: seq<Event>) returns (i: nat)
    requires OpenWindow(log).Some?
    ensures StillOpen(log, i, |log|)
  {
    OpenWindowMeans(log);
    i := OpenWindow(log).value.1;
  }

  lemma {:induction false} RequestStep(s: State, input: Input)
    requires input.Request?
    ensures var e := Step(s, input).1;
            && (e.Declined? <==> input.check != Fits)
            && (e.TurnedAway? <==> input.check == Fits && input.user in s.paused && s.paused[input.user] > input.at)
            && (e.Clashed? <==> ComesToWindow(input, e) && s.window.Some?)
            && (e.Opened? <==> ComesToWindow(input, e) && s.window.None?)
            && e.call == input.call && e.user == input.user
  {
  }

  /** While a window is open, whatever comes to it clashes with it. */
  lemma {:induction false} ClashesExactly(inputs: seq<Input>, i: nat, k: nat)
    requires k < |inputs| && StillOpen(Run(inputs).log, i, k)
    ensures Run(inputs).log[k].Clashed? <==> ComesToWindow(inputs[k], Run(inputs).log[k])
  {
    StepAt(inputs, k);
    WindowOfRun(inputs[..k]);
    StillOpenPrefix(Run(inputs).log, i, k);
    OverlappedExactly(Run(inputs[..k]).log, i);
    if inputs[k].Request? {
      RequestStep(Run(inputs[..k]).s, inputs[k]);
    }
  }

  lemma {:induction false} StillOpenPrefix(log: seq<Event>, i: nat, k: nat)
    requires k <= |log|
    ensures StillOpen(log, i, k) <==> StillOpen(log[..k], i, k)
  {
    assert forall m :: 0 <= m < k ==> log[..k][m] == log[m];
  }

  /** Another request came to the window between its opening and j. */
  ghost predicate IsDisturbed(inputs: seq<Input>, log: seq<Event>, i: nat, j: nat)
    requires |inputs| == |log| && j <= |log|
  {
    exists k :: i < k < j && ComesToWindow(inputs[k], log[k])
  }

  lemma {:induction false} DisturbedExactly(inputs: seq<Input>, i: nat, j: nat)
    requires j < |inputs| && StillOpen(Run(inputs).log, i, j)
    ensures ClashedBetween(Run(inputs).log[..j], i, j) <==> IsDisturbed(inputs, Run(inputs).log, i, j)
  {
    var log := Run(inputs).log;
    forall k | i < k < j ensures log[..j][k].Clashed? <==> ComesToWindow(inputs[k], log[k]) {
      ClashesExactly(inputs, i, k);
    }
  }

  /** The end of an undisturbed or disturbed window, by what it saw. */
  predicate EndsAs(ending: Ending, pressed: Pressed, cancelled: bool, disturbed: bool) {
    match ending
    case Failed => pressed == Raised
    case Overlapped => pressed != Raised && disturbed
    case Unconfirmed => (pressed == Typing || pressed == NoKey) && !disturbed
    case Skipped => pressed == Skip && !disturbed
    case Cancelled => pressed == Enter && cancelled && !disturbed
    case Scans => pressed == Enter && !cancelled && !disturbed
  }

  lemma {:induction false} AnswerStep(s: State, input: Input)
    requires input.Answer?
    ensures var e := Step(s, input).1;
            if s.window.None? then e == Idle
            else && e.Closed? && e.call == s.window.value.call && e.user == s.window.value.user
                 && e.noted == input.noted
                 && (forall ending :: EndsAs(ending, input.pressed, input.cancelled, s.window.value.overlapped)
                                      <==> ending == e.ending)
  {
  }

  /** An answer closes the open window, if there is one, and says exactly how it
      ended: disturbed by another request that came to it, or as it saw. */
  lemma {:induction false} AnswerExactly(inputs: seq<Input>, i: nat, j: nat)
    requires j < |inputs| && inputs[j].Answer? && StillOpen(Run(inputs).log, i, j)
    ensures var log := Run(inputs).log; var e := log[j];
            && e.Closed? && e.call == log[i].call && e.user == log[i].user && e.noted == inputs[j].noted
            && (forall ending :: EndsAs(ending, inputs[j].pressed, inputs[j].cancelled, IsDisturbed(inputs, log, i, j))
                                 <==> ending == e.ending)
            && (Misses(e, e.user)
                <==> inputs[j].pressed != Raised
                     && (IsDisturbed(inputs, log, i, j) || inputs[j].pressed == Typing || inputs[j].pressed == NoKey))
  {
    var log := Run(inputs).log;
    StepAt(inputs, j);
    WindowOfRun(inputs[..j]);
    StillOpenPrefix(log, i, j);
    OverlappedExactly(Run(inputs[..j]).log, i);
    DisturbedExactly(inputs, i, j);
    AnswerStep(Run(inputs[..j]).s, inputs[j]);
    assert EndsAs(log[j].ending, inputs[j].pressed, inputs[j].cancelled, IsDisturbed(inputs, log, i, j));
  }

  /** Without an open window an answer finds nothing. */
  lemma {:induction false} AnswerToNothing(inputs: seq<Input>, j: nat)
    requires j < |inputs| && inputs[j].Answer? && forall i :: !StillOpen(Run(inputs).log, i, j)
    ensures Run(inputs).log[j] == Idle
  {
    StepAt(inputs, j);
    WindowOfRun(inputs[..j]);
    if OpenWindow(Run(inputs[..j]).log).Some? {
      var i := StillOpenFound(Run(inputs[..j]).log);
      StillOpenPrefix(Run(inputs).log, i, j);
    }
    AnswerStep(Run(inputs[..j]).s, inputs[j]);
  }

  /** What the state holds as a user's pause began with one of their misses. */
  lemma {:induction false} PausedByMiss(inputs: seq<Input>, u: User) returns (k: nat)
    requires u in Run(inputs).s.paused
    ensures k < |inputs| && var e := Run(inputs).log[k];
            Pauses(e, u) && e.noted + e.pause.value == Run(inputs).s.paused[u]
  {
    var front := inputs[..|inputs| - 1];
    PausingStep(Run(front).s, inputs[|inputs| - 1], u);
    var e := Run(inputs).log[|inputs| - 1];
    if Pauses(e, u) {
      k := |inputs| - 1;
    } else {
      k := PausedByMiss(front, u);
      assert Run(inputs).log[k] == Run(front).log[k];
    }
  }

  lemma {:induction false} PausingStep(s: State, input: Input, u: User)
    requires u in Step(s, input).0.paused
    ensures var (s', e) := Step(s, input);
            if Pauses(e, u) then s'.paused[u] == e.noted + e.pause.value
            else u in s.paused && s'.paused[u] == s.paused[u]
  {
  }

  /** Some pause of the user lasts beyond a moment. */
  ghost predicate IsPaused(log: seq<Event>, u: User, t: real) {
    exists k :: 0 <= k < |log| && Pauses(log[k], u) && log[k].noted + log[k].pause.value > t
  }

  /** A request is declined exactly when it does not fit, turned away exactly while
      a pause of its user lasts, else clashes exactly with an open window. */
  lemma {:induction false} RequestExactly(inputs: seq<Input>, j: nat)
    requires Timely(inputs) && j < |inputs| && inputs[j].Request?
    ensures var log, input := Run(inputs).log, inputs[j]; var e := log[j];
            && (e.Declined? <==> input.check != Fits)
            && (e.TurnedAway? <==> input.check == Fits && IsPaused(log[..j], input.user, input.at))
            && (e.Clashed? <==> ComesToWindow(input, e) && exists i :: StillOpen(log, i, j))
            && (e.Opened? <==> ComesToWindow(input, e) && forall i :: !StillOpen(log, i, j))
            && e.call == input.call && e.user == input.user
  {
    StepAt(inputs, j);
    RequestStep(Run(inputs[..j]).s, inputs[j]);
    PausedExactly(inputs[..j], inputs[j].user, inputs[j].at);
    OpenExactly(inputs, j);
  }

  lemma {:induction false} OpenExactly(inputs: seq<Input>, j: nat)
    requires j <= |inputs|
    ensures Run(inputs[..j]).s.window.Some? <==> exists i :: StillOpen(Run(inputs).log, i, j)
  {
    var log := Run(inputs).log;
    RunPrefix(inputs, j);
    WindowOfRun(inputs[..j]);
    if OpenWindow(log[..j]).Some? {
      var i := StillOpenFound(log[..j]);
      StillOpenPrefix(log, i, j);
    }
    if i :| StillOpen(log, i, j) {
      StillOpenPrefix(log, i, j);
      OverlappedExactly(log[..j], i);
    }
  }

  lemma {:induction false} PausedExactly(inputs: seq<Input>, u: User, t: real)
    requires Timely(inputs)
    ensures u in Run(inputs).s.paused && Run(inputs).s.paused[u] > t <==> IsPaused(Run(inputs).log, u, t)
  {
    RunKeeps(inputs, u);
    if u in Run(inputs).s.paused {
      var k := PausedByMiss(inputs, u);
    }
    if IsPaused(Run(inputs).log, u, t) {
      StillPaused(Run(inputs).s, Run(inputs).log, u, Clock(inputs), t);
    }
  }

  lemma {:induction false} StillPaused(s: State, log: seq<Event>, u: User, now: real, t: real)
    requires PauseKept(s, log, u, now) && IsPaused(log, u, t)
    ensures u in s.paused && s.paused[u] > t
  {
    var k :| 0 <= k < |log| && Pauses(log[k], u) && log[k].noted + log[k].pause.value > t;
    PauseIsOver(log, k, u, if u in s.paused then s.paused[u] else 0.0, u in s.paused);
  }

  /** The call's own window opened at i, saw Enter at j and was undisturbed. */
  predicate ConfirmedAt(log: seq<Event>, call: Call, u: User, i: nat, j: nat) {
    && i < j < |log| && log[i].Opened? && log[i].call == call && log[i].user == u
    && log[j].Closed? && log[j].call == call && Confirms(log[j], u)
    && forall k :: i < k < j ==> !log[k].Opened? && !log[k].Closed? && !log[k].Clashed?
  }

  /** A scan begins only behind such a window. */
  lemma {:induction false} ScanHasItsWindow(inputs: seq<Input>, j: nat) returns (i: nat)
    requires j < |inputs| && Run(inputs).log[j].Closed? && Run(inputs).log[j].ending == Scans
    ensures var log := Run(inputs).log; ConfirmedAt(log, log[j].call, log[j].user, i, j)
    ensures inputs[j].Answer? && inputs[j].pressed == Enter && !inputs[j].cancelled
  {
    var log := Run(inputs).log;
    StepAt(inputs, j);
    WindowOfRun(inputs[..j]);
    ClosingStep(Run(inputs[..j]).s, inputs[j]);
    OpenWindowMeans(log[..j]);
    i := OpenWindow(log[..j]).value.1;
    assert forall m :: 0 <= m < j ==> log[..j][m] == log[m];
  }

  lemma {:induction false} ScanningWasClosed(inputs: seq<Input>, call: Call) returns (j: nat)
    requires call in Run(inputs).s.scanning
    ensures j < |inputs| && var e := Run(inputs).log[j];
            e.Closed? && e.ending == Scans && e.call == call && e.user == Run(inputs).s.scanning[call]
  {
    var front := inputs[..|inputs| - 1];
    var h, e := Run(front), Run(inputs).log[|inputs| - 1];
    ScanningStep(h.s, inputs[|inputs| - 1], call);
    if e.Closed? && e.ending == Scans && e.call == call {
      j := |inputs| - 1;
    } else {
      j := ScanningWasClosed(front, call);
      assert Run(inputs).log[j] == h.log[j];
    }
  }

  lemma {:induction false} ScanningStep(s: State, input: Input, call: Call)
    requires call in Step(s, input).0.scanning
    ensures var (s', e) := Step(s, input);
            if e.Closed? && e.ending == Scans && e.call == call then s'.scanning[call] == e.user
            else call in s.scanning && s'.scanning[call] == s.scanning[call]
  {
  }

  /** An answer from a scan has the call's own confirmed window behind it. */
  lemma {:induction false} ReplyWasConfirmed(inputs: seq<Input>, k: nat) returns (i: nat, j: nat)
    requires k < |inputs| && Run(inputs).log[k].Replied?
    ensures var log := Run(inputs).log; j < k && ConfirmedAt(log, log[k].call, log[k].user, i, j)
    ensures inputs[j].Answer? && inputs[j].pressed == Enter && !inputs[j].cancelled
    ensures inputs[k] == Scanned(Run(inputs).log[k].call, Run(inputs).log[k].result)
  {
    var log := Run(inputs).log;
    StepAt(inputs, k);
    j := ScanningWasClosed(inputs[..k], log[k].call);
    assert log[j] == log[..k][j];
    i := ScanHasItsWindow(inputs, j);
  }
}
