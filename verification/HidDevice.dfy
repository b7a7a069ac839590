/** The threads of the CTAPHID device (CTAP 2.1, section 11.2.5): the reader
    accepts and cancels, a worker runs the command and answers, and a helper
    sends keepalives meanwhile. Each step is one locked section, one message
    sent, or one join; every schedule of them is covered. */
module HidDevice {
  import opened Outcomes

  type Cid = nat
  type Request = nat

  const ERR_INVALID_LEN := 0x03
  const ERR_CHANNEL_BUSY := 0x06

  // ------------------------------------------- what the threads share

  /** _active_cid, _cancelled, _cancel_reply */
  datatype Shared = Shared(active: Option<Cid>, cancelled: bool, cancelReply: bool)

  /** _start_cbor's locked section, and whether it accepts. */
  function Claimed(s: Shared, cid: Cid): (Shared, bool) {
    if s.active.Some? then (s, false) else (s.(active := Some(cid), cancelled := false), true)
  }

  /** _cancel_active's, and whether it reaches the command. */
  function Cancelling(s: Shared, cid: Cid, reply: bool): (Shared, bool) {
    if s.active != Some(cid) then (s, false) else (s.(cancelled := true, cancelReply := reply), true)
  }

  /** The one at the end of _run_cbor, and whether it is to answer. */
  function Freeing(s: Shared): (Shared, bool) {
    (s.(active := None), !s.cancelled || s.cancelReply)
  }

  /** The fields and their locked sections. */
  class SharedFields {
    var active: Option<Cid>
    var cancelled: bool
    var cancelReply: bool

    constructor ()
      ensures Value() == Shared(None, false, true)
    {
      active, cancelled, cancelReply := None, false, true;
    }

    function Value(): Shared
      reads this
    {
      Shared(active, cancelled, cancelReply)
    }

    /** _start_cbor: refused while a command runs. */
    method StartCbor(cid: Cid) returns (accepted: bool)
      modifies this
      ensures (Value(), accepted) == Claimed(old(Value()), cid)
      ensures accepted == old(active).None?
      ensures Value() == if accepted then Shared(Some(cid), false, old(cancelReply)) else old(Value())
    {
      if active.Some? {
        return false;
      }
      active, cancelled := Some(cid), false;
      return true;
    }

    /** _cancel_active: reaches the command only on its own channel. */
    method CancelActive(cid: Cid, reply: bool) returns (reached: bool)
      modifies this
      ensures (Value(), reached) == Cancelling(old(Value()), cid, reply)
      ensures reached == (old(active) == Some(cid))
      ensures Value() == if reached then Shared(Some(cid), true, reply) else old(Value())
    {
      if active != Some(cid) {
        return false;
      }
      cancelled, cancelReply := true, reply;
      return true;
    }

    /** The end of _run_cbor: whether to answer, and the device free again. */
    method Free() returns (answers: bool)
      modifies this
      ensures (Value(), answers) == Freeing(old(Value()))
      ensures answers == !(old(cancelled) && !old(cancelReply))
      ensures Value() == Shared(None, old(cancelled), old(cancelReply))
    {
      var wasCancelled, reply := cancelled, cancelReply;
      active := None;
      answers := !(wasCancelled && !reply);
    }
  }

  // ------------------------------------------------------- the step machine

  /** Where a worker is. Created and Running hold the device, as do Stopping
      (the command returned, stop is set) and Joined (the helper is gone). */
  datatype Phase = Created | Running | Stopping | Joined | Replying | Replied | Silent
  datatype Helper = NotStarted | Waiting | Sending | Ended
  datatype Worker = Worker(cid: Cid, phase: Phase, helper: Helper)

  datatype Event =
    | Accepted(request: Request, cid: Cid)
    | TurnedDown(cid: Cid, code: nat)
    | CancelReached(request: Request, reply: bool)
    | CommandStarted(request: Request)
    | CommandEnded(request: Request)
    | Released(request: Request)
    | Keepalive(request: Request, cid: Cid)
    | Response(request: Request, cid: Cid)
    | Quiet

  /** Requests are numbered as they are accepted; workers[r] serves request r. */
  datatype State = State(shared: Shared, workers: seq<Worker>)

  datatype Step =
    | Cbor(cid: Cid, empty: bool)
    | CancelFrame(cid: Cid, reply: bool)
    | StartCommand(request: Request)
    | EndCommand(request: Request)
    | Join(request: Request)
    | Free(request: Request)
    | Reply(request: Request)
    | Timeout(request: Request)
    | SendKeepalive(request: Request)
    | EndHelper(request: Request)

  function Put(s: State, r: Request, w: Worker): State
    requires r < |s.workers|
  {
    s.(workers := s.workers[r := w])
  }

  predicate IsStopped(w: Worker) {
    w.phase != Created && w.phase != Running
  }

  /** A step that its thread cannot take changes nothing. */
  function Next(s: State, step: Step): (State, Event) {
    match step
    case Cbor(cid, empty) =>
      if empty then (s, TurnedDown(cid, ERR_INVALID_LEN))
      else
        var (shared, accepted) := Claimed(s.shared, cid);
        if !accepted then (s, TurnedDown(cid, ERR_CHANNEL_BUSY))
        else (State(shared, s.workers + [Worker(cid, Created, NotStarted)]), Accepted(|s.workers|, cid))
    case CancelFrame(cid, reply) =>
      var (shared, reached) := Cancelling(s.shared, cid, reply);
      (s.(shared := shared), if reached && s.workers != [] then CancelReached(|s.workers| - 1, reply) else Quiet)
    case _ =>
      if step.request >= |s.workers| then (s, Quiet) else WorkerStep(s, step)
  }

  function WorkerStep(s: State, step: Step): (State, Event)
    requires !step.Cbor? && !step.CancelFrame? && step.request < |s.workers|
  {
    var r, w := step.request, s.workers[step.request];
    match step
    case StartCommand(_) =>
      if w.phase == Created then (Put(s, r, w.(phase := Running, helper := Waiting)), CommandStarted(r)) else (s, Quiet)
    case EndCommand(_) => if w.phase == Running then (Put(s, r, w.(phase := Stopping)), CommandEnded(r)) else (s, Quiet)
    case Join(_) =>
      if w.phase == Stopping && w.helper == Ended then (Put(s, r, w.(phase := Joined)), Quiet) else (s, Quiet)
    case Free(_) =>
      if w.phase == Joined then
        var (shared, answers) := Freeing(s.shared);
        (Put(s.(shared := shared), r, w.(phase := if answers then Replying else Silent)), Released(r))
      else (s, Quiet)
    case Reply(_) => if w.phase == Replying then (Put(s, r, w.(phase := Replied)), Response(r, w.cid)) else (s, Quiet)
    case Timeout(_) =>
      if w.helper == Waiting && !IsStopped(w) then (Put(s, r, w.(helper := Sending)), Quiet) else (s, Quiet)
    case SendKeepalive(_) =>
      if w.helper == Sending then (Put(s, r, w.(helper := Waiting)), Keepalive(r, w.cid)) else (s, Quiet)
    case EndHelper(_) =>
      if w.helper == Waiting && IsStopped(w) then (Put(s, r, w.(helper := Ended)), Quiet) else (s, Quiet)
  }

  datatype History = History(s: State, log: seq<Event>)

  /** A run, one event for each step. */
  function Run(steps: seq<Step>): (h: History)
    ensures |h.log| == |steps|
  {
    if steps == [] then History(State(Shared(None, false, true), []), [])
    else
      var h := Run(steps[..|steps| - 1]);
      var (s, e) := Next(h.s, steps[|steps| - 1]);
      History(s, h.log + [e])
  }

  // -------------------------------------------------------- reading the log

  function Responses(log: seq<Event>, r: Request): nat {
    if log == [] then 0
    else Responses(log[..|log| - 1], r) + if log[|log| - 1].Response? && log[|log| - 1].request == r then 1 else 0
  }

  /** How the last cancel to reach the request wanted it: with a reply, or none. */
  function LastCancel(log: seq<Event>, r: Request): Option<bool> {
    if log == [] then None
    else
      var e := log[|log| - 1];
      if e.CancelReached? && e.request == r then Some(e.reply) else LastCancel(log[..|log| - 1], r)
  }

  predicate WasAccepted(log: seq<Event>, r: Request, cid: Cid) {
    log != [] && (log[|log| - 1] == Accepted(r, cid) || WasAccepted(log[..|log| - 1], r, cid))
  }

  predicate WasReleased(log: seq<Event>, r: Request) {
    log != [] && (log[|log| - 1] == Released(r) || WasReleased(log[..|log| - 1], r))
  }

  /** The request was accepted on the channel and is not yet released. */
  predicate HasDevice(log: seq<Event>, r: Request, cid: Cid) {
    WasAccepted(log, r, cid) && !WasReleased(log, r)
  }

  // -------------------------------------------------------------- invariant

  predicate HoldsDevice(w: Worker) {
    w.phase == Created || w.phase == Running || w.phase == Stopping || w.phase == Joined
  }

  predicate HelperFits(w: Worker) {
    match w.phase
    case Created => w.helper == NotStarted
    case Running => w.helper == Waiting || w.helper == Sending
    case Stopping => w.helper != NotStarted
    case _ => w.helper == Ended
  }

  /** Only the newest worker can hold the device, and then its channel is the active one. */
  predicate SharedFits(s: State) {
    var n := |s.workers|;
    && (forall r :: 0 <= r < n - 1 ==> !HoldsDevice(s.workers[r]))
    && (if n > 0 && HoldsDevice(s.workers[n - 1]) then s.shared.active == Some(s.workers[n - 1].cid)
        else s.shared.active.None?)
  }

  ghost predicate WorkerFits(h: History, r: Request)
    requires r < |h.s.workers|
  {
    var w, last := h.s.workers[r], LastCancel(h.log, r);
    && HelperFits(w) && WasAccepted(h.log, r, w.cid) && (forall cid :: WasAccepted(h.log, r, cid) ==> cid == w.cid)
    && (HoldsDevice(w) <==> !WasReleased(h.log, r))
    && Responses(h.log, r) == (if w.phase == Replied then 1 else 0)
    && (HoldsDevice(w)
        ==> (h.s.shared.cancelled <==> last.Some?) && (last.Some? ==> h.s.shared.cancelReply == last.value))
    && (!HoldsDevice(w) ==> (w.phase == Silent <==> last == Some(false)))
  }

  /** A number not yet given out has left no trace. */
  ghost predicate Unused(h: History, r: Request) {
    Responses(h.log, r) == 0 && LastCancel(h.log, r).None? && !WasReleased(h.log, r)
    && forall cid :: !WasAccepted(h.log, r, cid)
  }

  ghost predicate RequestFits(h: History, r: Request) {
    if r < |h.s.workers| then WorkerFits(h, r) else Unused(h, r)
  }

  lemma {:induction false} SharedKept(s: State, step: Step)
    requires SharedFits(s)
    ensures SharedFits(Next(s, step).0)
  {
  }

  lemma {:induction false} LogStep(log: seq<Event>, e: Event, r: Request)
    ensures Responses(log + [e], r) == Responses(log, r) + (if e.Response? && e.request == r then 1 else 0)
    ensures LastCancel(log + [e], r) == if e.CancelReached? && e.request == r then Some(e.reply) else LastCancel(log, r)
    ensures forall cid :: WasAccepted(log + [e], r, cid) <==> e == Accepted(r, cid) || WasAccepted(log, r, cid)
    ensures WasReleased(log + [e], r) <==> e == Released(r) || WasReleased(log, r)
  {
    assert (log + [e])[..|log|] == log;
  }

  lemma {:induction false} RequestKept(h: History, step: Step, r: Request)
    requires SharedFits(h.s) && RequestFits(h, r)
    ensures var (s, e) := Next(h.s, step); RequestFits(History(s, h.log + [e]), r)
  {
    LogStep(h.log, Next(h.s, step).1, r);
    if !step.Cbor? && !step.CancelFrame? && step.request < |h.s.workers| {
      if step.request == r {
        OwnStep(h, step);
      } else {
        OtherStep(h, step, r);
      }
    }
  }

  lemma {:induction false} OwnStep(h: History, step: Step)
    requires !step.Cbor? && !step.CancelFrame? && step.request < |h.s.workers| && SharedFits(h.s)
             && WorkerFits(h, step.request)
    ensures var (s, e) := WorkerStep(h.s, step); WorkerFits(History(s, h.log + [e]), step.request)
  {
    LogStep(h.log, WorkerStep(h.s, step).1, step.request);
  }

  lemma {:induction false} OtherStep(h: History, step: Step, r: Request)
    requires !step.Cbor? && !step.CancelFrame? && step.request < |h.s.workers| && step.request != r
    requires SharedFits(h.s) && RequestFits(h, r)
    ensures var (s, e) := WorkerStep(h.s, step); RequestFits(History(s, h.log + [e]), r)
  {
    LogStep(h.log, WorkerStep(h.s, step).1, r);
  }

  lemma {:induction false} RunFits(steps: seq<Step>, r: Request)
    ensures SharedFits(Run(steps).s) && RequestFits(Run(steps), r)
  {
    if steps != [] {
      var front := steps[..|steps| - 1];
      RunFits(front, r);
      SharedKept(Run(front).s, steps[|steps| - 1]);
      RequestKept(Run(front), steps[|steps| - 1], r);
    }
  }

  // ----------------------------------------------------------------- results

  /** At most one authenticator command runs. */
  lemma {:induction false} OneCommandAtATime(steps: seq<Step>, i: Request, j: Request)
    requires i < |Run(steps).s.workers| && j < |Run(steps).s.workers|
    requires Run(steps).s.workers[i].phase == Running && Run(steps).s.workers[j].phase == Running
    ensures i == j
  {
    RunFits(steps, i);
  }

  /** A finished request has exactly one response, or none exactly when the last
      cancel to reach it was a re-sync; an unfinished one has none yet. */
  lemma {:induction false} OneResponse(steps: seq<Step>, r: Request)
    requires r < |Run(steps).s.workers|
    ensures var h := Run(steps); var phase := h.s.workers[r].phase;
            && Responses(h.log, r) <= 1
            && (phase == Replied || phase == Silent
                ==> Responses(h.log, r) == if LastCancel(h.log, r) == Some(false) then 0 else 1)
            && (phase != Replied ==> Responses(h.log, r) == 0)
  {
    RunFits(steps, r);
  }

  lemma {:induction false} RunPrefix(steps: seq<Step>, k: nat)
    requires k <= |steps|
    ensures Run(steps[..k]).log == Run(steps).log[..k]
  {
    if k == |steps| {
      assert steps[..k] == steps;
    } else {
      var front := steps[..|steps| - 1];
      RunPrefix(front, k);
      assert front[..k] == steps[..k];
    }
  }

  lemma {:induction false} StepAt(steps: seq<Step>, k: nat)
    requires k < |steps|
    ensures var before := Run(steps[..k]);
            Run(steps).log[..k] == before.log && Run(steps).log[k] == Next(before.s, steps[k]).1
  {
    RunPrefix(steps, k);
    RunPrefix(steps, k + 1);
    assert steps[..k + 1][..k] == steps[..k];
    assert Run(steps).log[k] == Run(steps).log[..k + 1][k];
  }

  lemma {:induction false} CancellingStep(h: History, step: Step, r: Request, reply: bool)
    requires SharedFits(h.s) && RequestFits(h, r)
    ensures Next(h.s, step).1 == CancelReached(r, reply)
            <==> step.CancelFrame? && step.reply == reply && HasDevice(h.log, r, step.cid)
  {
  }

  /** A cancel reaches the request that has the device on the cancel's own
      channel, whenever there is one, and nothing else. */
  lemma {:induction false} CancelExactly(steps: seq<Step>, q: nat, r: Request, reply: bool)
    requires q < |steps|
    ensures var log := Run(steps).log;
            log[q] == CancelReached(r, reply)
            <==> steps[q].CancelFrame? && steps[q].reply == reply && HasDevice(log[..q], r, steps[q].cid)
  {
    StepAt(steps, q);
    RunFits(steps[..q], r);
    CancellingStep(Run(steps[..q]), steps[q], r, reply);
  }

  /** Some request has the device. */
  ghost predicate IsTaken(log: seq<Event>) {
    exists r, cid :: HasDevice(log, r, cid)
  }

  lemma {:induction false} TakenExactly(steps: seq<Step>)
    ensures IsTaken(Run(steps).log) <==> Run(steps).s.shared.active.Some?
  {
    var h := Run(steps);
    var n := |h.s.workers|;
    if h.s.shared.active.Some? {
      RunFits(steps, n);
      RunFits(steps, n - 1);
      assert HasDevice(h.log, n - 1, h.s.workers[n - 1].cid);
    } else {
      forall r, cid ensures !HasDevice(h.log, r, cid) {
        RunFits(steps, r);
      }
    }
  }

  lemma {:induction false} NumberIsNew(steps: seq<Step>)
    ensures forall cid :: !WasAccepted(Run(steps).log, |Run(steps).s.workers|, cid)
  {
    RunFits(steps, |Run(steps).s.workers|);
  }

  lemma {:induction false} AcceptingStep(s: State, step: Step)
    ensures var e := Next(s, step).1;
            && (e.Accepted? <==> step.Cbor? && !step.empty && s.shared.active.None?)
            && (e.Accepted? ==> e == Accepted(|s.workers|, step.cid))
            && (step.Cbor? && step.empty ==> e == TurnedDown(step.cid, 0x03))
            && (step.Cbor? && !step.empty && s.shared.active.Some? ==> e == TurnedDown(step.cid, 0x06))
  {
  }

  /** A command is accepted exactly when it is not empty and no request accepted
      earlier still has the device; it gets a number never used before. */
  lemma {:induction false} AcceptedExactly(steps: seq<Step>, q: nat)
    requires q < |steps|
    ensures var log := Run(steps).log;
            && (log[q].Accepted? <==> steps[q].Cbor? && !steps[q].empty && !IsTaken(log[..q]))
            && (log[q].Accepted?
                ==> log[q].cid == steps[q].cid && forall c :: !WasAccepted(log[..q], log[q].request, c))
            && (steps[q].Cbor? && steps[q].empty ==> log[q] == TurnedDown(steps[q].cid, 0x03))
            && (steps[q].Cbor? && !steps[q].empty && IsTaken(log[..q]) ==> log[q] == TurnedDown(steps[q].cid, 0x06))
  {
    StepAt(steps, q);
    TakenExactly(steps[..q]);
    NumberIsNew(steps[..q]);
    AcceptingStep(Run(steps[..q]).s, steps[q]);
  }

  lemma {:induction false} StoppingStep(s: State, step: Step, r: Request)
    requires var s' := Next(s, step).0; r < |s'.workers| && IsStopped(s'.workers[r])
    requires !(r < |s.workers| && IsStopped(s.workers[r]))
    ensures Next(s, step).1 == CommandEnded(r)
  {
  }

  lemma {:induction false} EndedBefore(steps: seq<Step>, r: Request) returns (p: nat)
    requires r < |Run(steps).s.workers| && IsStopped(Run(steps).s.workers[r])
    ensures p < |steps| && Run(steps).log[p] == CommandEnded(r)
    decreases |steps|
  {
    var front := steps[..|steps| - 1];
    var s := Run(front).s;
    if r < |s.workers| && IsStopped(s.workers[r]) {
      p := EndedBefore(front, r);
    } else {
      StoppingStep(s, steps[|steps| - 1], r);
      p := |steps| - 1;
    }
  }

  lemma {:induction false} ReleasingStep(s: State, step: Step, r: Request)
    requires Next(s, step).1 == Released(r)
    ensures step == Free(r) && r < |s.workers| && IsStopped(s.workers[r])
  {
  }

  lemma {:induction false} KeepalivesOver(h: History, step: Step, r: Request, cid: Cid)
    requires RequestFits(h, r) && WasReleased(h.log, r)
    ensures Next(h.s, step).1 != Keepalive(r, cid)
  {
  }

  /** The device is given back behind the command's end, and then the request's
      keepalives are over. */
  lemma {:induction false} ReleasedBehindCommand(steps: seq<Step>, q: nat, r: Request) returns (p: nat)
    requires q < |steps| && Run(steps).log[q] == Released(r)
    ensures steps[q] == Free(r) && p < q && Run(steps).log[p] == CommandEnded(r)
    ensures forall k, cid :: q < k < |steps| ==> Run(steps).log[k] != Keepalive(r, cid)
  {
    var log := Run(steps).log;
    StepAt(steps, q);
    ReleasingStep(Run(steps[..q]).s, steps[q], r);
    p := EndedBefore(steps[..q], r);
    assert log[p] == log[..q][p];
    forall k, cid | q < k < |steps| ensures log[k] != Keepalive(r, cid) {
      NoKeepaliveBehind(steps, q, r, k, cid);
    }
  }

  lemma {:induction false} NoKeepaliveBehind(steps: seq<Step>, q: nat, r: Request, k: nat, cid: Cid)
    requires q < k < |steps| && Run(steps).log[q] == Released(r)
    ensures Run(steps).log[k] != Keepalive(r, cid)
  {
    StepAt(steps, k);
    RunFits(steps[..k], r);
    ReleasedAt(Run(steps).log[..k], r, q);
    KeepalivesOver(Run(steps[..k]), steps[k], r, cid);
  }

  /** The command is over, and its helper at most has a keepalive to send. */
  lemma {:induction false} StoppedStays(s: State, step: Step, r: Request)
    requires r < |s.workers| && IsStopped(s.workers[r])
    ensures var (s', e) := Next(s, step);
            && r < |s'.workers| && IsStopped(s'.workers[r])
            && (s.workers[r].helper != Sending ==> s'.workers[r].helper != Sending && !(e.Keepalive? && e.request == r))
            && (e.Keepalive? && e.request == r ==> s'.workers[r].helper != Sending)
  {
  }

  lemma {:induction false} EndingStep(s: State, step: Step, r: Request)
    requires Next(s, step).1 == CommandEnded(r)
    ensures var s' := Next(s, step).0; r < |s'.workers| && IsStopped(s'.workers[r])
  {
  }

  /** Stopped from p on, and past its last keepalive from q on. */
  lemma {:induction false} StoppedFrom(steps: seq<Step>, r: Request, p: nat, k: nat)
    requires p < k <= |steps| && Run(steps).log[p] == CommandEnded(r)
    ensures var s := Run(steps[..k]).s; r < |s.workers| && IsStopped(s.workers[r])
    decreases k
  {
    StepAt(steps, k - 1);
    assert steps[..k][..k - 1] == steps[..k - 1];
    if k - 1 == p {
      EndingStep(Run(steps[..p]).s, steps[p], r);
    } else {
      StoppedFrom(steps, r, p, k - 1);
      StoppedStays(Run(steps[..k - 1]).s, steps[k - 1], r);
    }
  }

  lemma {:induction false} SilentFrom(steps: seq<Step>, r: Request, p: nat, q: nat, k: nat)
    requires p < q < k <= |steps| && Run(steps).log[p] == CommandEnded(r)
    requires Run(steps).log[q].Keepalive? && Run(steps).log[q].request == r
    ensures var s := Run(steps[..k]).s; r < |s.workers| && s.workers[r].helper != Sending
    decreases k
  {
    StepAt(steps, k - 1);
    assert steps[..k][..k - 1] == steps[..k - 1];
    StoppedFrom(steps, r, p, k - 1);
    StoppedStays(Run(steps[..k - 1]).s, steps[k - 1], r);
    if k - 1 > q {
      SilentFrom(steps, r, p, q, k - 1);
    }
  }

  /** Behind the end of its command a request has one more keepalive at most, the
      one that was on its way. */
  lemma {:induction false} OneKeepaliveBehind(steps: seq<Step>, r: Request, p: nat, q: nat, k: nat)
    requires p < q < k < |steps| && Run(steps).log[p] == CommandEnded(r)
    requires Run(steps).log[q].Keepalive? && Run(steps).log[q].request == r
    ensures !(Run(steps).log[k].Keepalive? && Run(steps).log[k].request == r)
  {
    StepAt(steps, k);
    StoppedFrom(steps, r, p, k);
    SilentFrom(steps, r, p, q, k);
    StoppedStays(Run(steps[..k]).s, steps[k], r);
  }

  lemma {:induction false} ReleasedAt(log: seq<Event>, r: Request, q: nat)
    requires q < |log| && log[q] == Released(r)
    ensures WasReleased(log, r)
  {
    if q < |log| - 1 {
      ReleasedAt(log[..|log| - 1], r, q);
    }
  }

  lemma {:induction false} NoResponseBefore(log: seq<Event>, r: Request, p: nat)
    requires Responses(log, r) == 0 && p < |log|
    ensures !(log[p].Response? && log[p].request == r)
  {
    if p < |log| - 1 {
      NoResponseBefore(log[..|log| - 1], r, p);
    }
  }

  lemma {:induction false} AcceptedBefore(log: seq<Event>, r: Request, cid: Cid) returns (p: nat)
    requires WasAccepted(log, r, cid)
    ensures p < |log| && log[p] == Accepted(r, cid)
  {
    if log[|log| - 1] == Accepted(r, cid) {
      p := |log| - 1;
    } else {
      p := AcceptedBefore(log[..|log| - 1], r, cid);
    }
  }

  /** What a keepalive or a response needs of its worker. */
  lemma {:induction false} SpeakingStep(h: History, step: Step, r: Request)
    requires RequestFits(h, r) && var e := Next(h.s, step).1; (e.Keepalive? || e.Response?) && e.request == r
    ensures r < |h.s.workers| && Next(h.s, step).1.cid == h.s.workers[r].cid && h.s.workers[r].phase != Replied
  {
  }

  /** Keepalives and the response of a request come after its acceptance, on its
      channel, and never after a response. */
  lemma {:induction false} NothingAfterResponse(steps: seq<Step>, q: nat) returns (p: nat)
    requires q < |steps| && (Run(steps).log[q].Keepalive? || Run(steps).log[q].Response?)
    ensures var log := Run(steps).log; var r := log[q].request;
            && p < q && log[p] == Accepted(r, log[q].cid)
            && forall k :: 0 <= k < q ==> !(log[k].Response? && log[k].request == r)
  {
    var log, h := Run(steps).log, Run(steps[..q]);
    var r := log[q].request;
    StepAt(steps, q);
    RunFits(steps[..q], r);
    SpeakingStep(h, steps[q], r);
    p := AcceptedBefore(h.log, r, h.s.workers[r].cid);
    forall k | 0 <= k < q ensures !(log[k].Response? && log[k].request == r) {
      NoResponseBefore(h.log, r, k);
      assert log[k] == h.log[k];
    }
  }
}
