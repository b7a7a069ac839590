/** Several processes on one credential file: every interleaving of their locked
    operations and every crash. */
module StoreRuns {
  import opened Outcomes
  import opened CredentialStore

  type Process = nat

  datatype Op = Add(c: Credential) | Increment(id: Id) | Remove(id: Id) | Destroy
  datatype Stage = Locked | Loaded | Changed | Committed

  /** The process in the lock, what it does and how far it is. */
  datatype Hold = Hold(process: Process, op: Op, stage: Stage)

  /** The file, the lock, each live process's list, and the ids ever made: an id
      is random bytes and never made twice. */
  datatype State = State(disk: seq<Credential>, lock: Option<Hold>, lists: map<Process, seq<Credential>>, used: set<Id>)

  datatype Event =
    | Counted(process: Process, id: Id, count: nat)
    | Returned(process: Process, id: Id, count: nat)
    | Other

  datatype Step =
    | Start(process: Process)
    | Lock(process: Process, op: Op)
    | Load(process: Process)
    | Change(process: Process)
    | Rename(process: Process)
    | FailSave(process: Process)
    | Return(process: Process)
    | Crash(process: Process)

  predicate IsAt(s: State, p: Process, stage: Stage) {
    s.lock.Some? && s.lock.value.process == p && s.lock.value.stage == stage && p in s.lists
  }

  function At(s: State, stage: Stage): State
    requires s.lock.Some?
  {
    s.(lock := Some(s.lock.value.(stage := stage)))
  }

  /** What an operation makes of the list; None: it ends without a change. */
  function Applied(cs: seq<Credential>, op: Op): Option<seq<Credential>> {
    match op
    case Add(c) => Some(Added(cs, c))
    case Increment(id) => if CountOf(cs, id).None? then None else Some(Incremented(cs, id))
    case Remove(id) => if CountOf(cs, id).None? then None else Some(WithoutId(cs, id))
    case Destroy => Some([])
  }

  function EventOf(s: State, p: Process, returned: bool): Event
    requires s.lock.Some? && p in s.lists
  {
    var op := s.lock.value.op;
    if op.Increment? && CountOf(s.lists[p], op.id).Some? then
      var n := CountOf(s.lists[p], op.id).value;
      if returned then Returned(p, op.id, n) else Counted(p, op.id, n)
    else Other
  }

  /** A step that its process cannot take changes nothing. */
  function Next(s: State, step: Step): (State, Event) {
    match step
    case Start(p) => (if p in s.lists then s else s.(lists := s.lists[p := s.disk]), Other)
    case Lock(p, op) =>
      if s.lock.Some? || p !in s.lists || (op.Add? && op.c.id in s.used) then (s, Other)
      else (s.(lock := Some(Hold(p, op, Locked)), used := s.used + if op.Add? then {op.c.id} else {}), Other)
    case Load(p) => (if IsAt(s, p, Locked) then At(s.(lists := s.lists[p := s.disk]), Loaded) else s, Other)
    case Change(p) =>
      if !IsAt(s, p, Loaded) then (s, Other)
      else
        var next := Applied(s.lists[p], s.lock.value.op);
        (if next.None? then s.(lock := None) else At(s.(lists := s.lists[p := next.value]), Changed), Other)
    case Rename(p) => if IsAt(s, p, Changed) then (At(s.(disk := s.lists[p]), Committed), EventOf(s, p, false))
                      else (s, Other)
    case FailSave(p) => (if IsAt(s, p, Changed) then s.(lock := None) else s, Other)
    case Return(p) => if IsAt(s, p, Committed) then (s.(lock := None), EventOf(s, p, true)) else (s, Other)
    case Crash(p) =>
      (s.(lists := s.lists - {p}, lock := if s.lock.Some? && s.lock.value.process == p then None else s.lock), Other)
  }

  datatype History = History(s: State, log: seq<Event>)

  /** A run on a file, one event for each step. */
  function Run(file: seq<Credential>, steps: seq<Step>): (h: History)
    ensures |h.log| == |steps|
  {
    if steps == [] then History(State(file, None, map[], set i | 0 <= i < |file| :: file[i].id), [])
    else
      var h := Run(file, steps[..|steps| - 1]);
      var (s, e) := Next(h.s, steps[|steps| - 1]);
      History(s, h.log + [e])
  }

  // --------------------------------------------------------------- the file

  predicate AllUsed(cs: seq<Credential>, used: set<Id>) {
    forall i :: 0 <= i < |cs| ==> cs[i].id in used
  }

  /** The list of the process in the lock, at each stage. */
  predicate HoldFits(s: State) {
    s.lock.Some? ==>
      var h := s.lock.value;
      && h.process in s.lists
      && (h.op.Add? && h.stage != Committed ==> IndexOf(s.disk, h.op.c.id).None? && h.op.c.id in s.used)
      && match h.stage
         case Locked => true
         case Loaded => s.lists[h.process] == s.disk
         case Changed => Applied(s.disk, h.op) == Some(s.lists[h.process])
         case Committed => s.lists[h.process] == s.disk && (h.op.Increment? ==> CountOf(s.disk, h.op.id).Some?)
  }

  predicate FileFits(s: State) {
    Good(s.disk) && AllUsed(s.disk, s.used) && HoldFits(s)
  }

  /** What a rename makes of the file. */
  lemma {:induction false} AppliedKeeps(cs: seq<Credential>, op: Op, used: set<Id>)
    requires Good(cs) && AllUsed(cs, used) && Applied(cs, op).Some?
             && (op.Add? ==> IndexOf(cs, op.c.id).None? && op.c.id in used)
    ensures var next := Applied(cs, op).value; Good(next) && AllUsed(next, used)
  {
    match op
    case Add(c) =>
      AddedKeeps(cs, c);
      UsedWithout(cs, Added(cs, c), used);
    case Increment(id) => IncrementedKeeps(cs, id);
    case Remove(id) =>
      WithoutIdKeeps(cs, id);
    case Destroy =>
  }

  lemma {:induction false} UsedWithout(cs: seq<Credential>, next: seq<Credential>, used: set<Id>)
    requires AllUsed(cs, used) && forall x :: x in next ==> x in cs || x.id in used
    ensures AllUsed(next, used)
  {
    forall i | 0 <= i < |next| ensures next[i].id in used {
      assert next[i] in next;
    }
  }

  lemma {:induction false} FileKept(s: State, step: Step)
    requires FileFits(s)
    ensures FileFits(Next(s, step).0)
  {
    match step
    case Rename(p) =>
      if IsAt(s, p, Changed) {
        var op := s.lock.value.op;
        AppliedKeeps(s.disk, op, s.used);
        if op.Increment? {
          IncrementedKeeps(s.disk, op.id);
        }
      }
    case _ =>
  }

  // ------------------------------------------------------------ the counters

  /** Every count of the credential on record is at most n, and those given out
      less than n while one is still to be given out. */
  predicate CountedUpTo(log: seq<Event>, id: Id, n: int) {
    log == [] ||
    (CountedUpTo(log[..|log| - 1], id, n) && var e := log[|log| - 1]; e.Counted? && e.id == id ==> e.count <= n)
  }

  predicate ReturnedUpTo(log: seq<Event>, id: Id, n: int) {
    log == [] ||
    (ReturnedUpTo(log[..|log| - 1], id, n) && var e := log[|log| - 1]; e.Returned? && e.id == id ==> e.count <= n)
  }

  predicate WasCounted(log: seq<Event>, p: Process, id: Id, n: nat) {
    log != [] && (log[|log| - 1] == Counted(p, id, n) || WasCounted(log[..|log| - 1], p, id, n))
  }

  /** The process in the lock has written the credential's new count and not yet returned it. */
  predicate IsPending(s: State, id: Id) {
    s.lock.Some? && s.lock.value.stage == Committed && s.lock.value.op == Increment(id)
  }

  predicate CounterFits(h: History, id: Id) {
    var count := CountOf(h.s.disk, id);
    && (id !in h.s.used ==> CountedUpTo(h.log, id, -1) && ReturnedUpTo(h.log, id, -1))
    && (h.s.lock.Some? && h.s.lock.value.op.Add? && h.s.lock.value.stage != Committed && h.s.lock.value.op.c.id == id ==>
          CountedUpTo(h.log, id, -1) && ReturnedUpTo(h.log, id, -1))
    && (count.Some?
        ==> CountedUpTo(h.log, id, count.value)
            && ReturnedUpTo(h.log, id, if IsPending(h.s, id) then count.value - 1 else count.value))
    && (IsPending(h.s, id) && count.Some? ==> WasCounted(h.log, h.s.lock.value.process, id, count.value))
  }

  lemma {:induction false} UpToMore(log: seq<Event>, id: Id, n: int, m: int)
    requires n <= m
    ensures CountedUpTo(log, id, n) ==> CountedUpTo(log, id, m)
    ensures ReturnedUpTo(log, id, n) ==> ReturnedUpTo(log, id, m)
  {
    if log != [] {
      UpToMore(log[..|log| - 1], id, n, m);
    }
  }

  lemma {:induction false} LogStep(log: seq<Event>, e: Event, id: Id)
    ensures forall n: int :: CountedUpTo(log + [e], id, n)
                             <==> CountedUpTo(log, id, n) && (e.Counted? && e.id == id ==> e.count <= n)
    ensures forall n: int :: ReturnedUpTo(log + [e], id, n)
                             <==> ReturnedUpTo(log, id, n) && (e.Returned? && e.id == id ==> e.count <= n)
    ensures forall p, n :: WasCounted(log + [e], p, id, n) <==> e == Counted(p, id, n) || WasCounted(log, p, id, n)
  {
    assert (log + [e])[..|log|] == log;
  }

  /** How a rename moves one credential's count. */
  lemma {:induction false} AppliedCount(cs: seq<Credential>, op: Op, id: Id)
    requires Good(cs) && Applied(cs, op).Some? && (op.Add? ==> IndexOf(cs, op.c.id).None?)
    ensures var before, now := CountOf(cs, id), CountOf(Applied(cs, op).value, id);
            now.Some? ==> if op.Add? && op.c.id == id then now == Some(op.c.count)
                          else if op == Increment(id) then before.Some? && now == Some(before.value + 1)
                          else now == before
  {
    match op
    case Add(c) => AddedKeeps(cs, c);
    case Increment(other) => IncrementedKeeps(cs, other);
    case Remove(other) => RemovedKeeps(cs, other);
    case Destroy =>
  }

  lemma {:induction false} RenameKeeps(h: History, p: Process, id: Id)
    requires FileFits(h.s) && CounterFits(h, id) && IsAt(h.s, p, Changed)
    ensures var (s, e) := Next(h.s, Rename(p)); CounterFits(History(s, h.log + [e]), id)
  {
    if h.s.lock.value.op == Increment(id) {
      RenameCounts(h, p, id);
    } else {
      RenameOther(h, p, id);
    }
  }

  /** The rename that counts up the credential itself. */
  lemma {:induction false} RenameCounts(h: History, p: Process, id: Id)
    requires FileFits(h.s) && CounterFits(h, id) && IsAt(h.s, p, Changed) && h.s.lock.value.op == Increment(id)
    ensures var (s, e) := Next(h.s, Rename(p)); CounterFits(History(s, h.log + [e]), id)
  {
    var before := CountOf(h.s.disk, id);
    LogStep(h.log, Next(h.s, Rename(p)).1, id);
    AppliedCount(h.s.disk, Increment(id), id);
    UpToMore(h.log, id, before.value, before.value + 1);
  }

  /** An event about another credential. */
  lemma {:induction false} LogElsewhere(log: seq<Event>, e: Event, id: Id)
    requires (e.Counted? || e.Returned?) ==> e.id != id
    ensures forall n: int :: CountedUpTo(log + [e], id, n) <==> CountedUpTo(log, id, n)
    ensures forall n: int :: ReturnedUpTo(log + [e], id, n) <==> ReturnedUpTo(log, id, n)
  {
    LogStep(log, e, id);
  }

  lemma {:induction false} RenameOther(h: History, p: Process, id: Id)
    requires FileFits(h.s) && CounterFits(h, id) && IsAt(h.s, p, Changed) && h.s.lock.value.op != Increment(id)
    ensures var (s, e) := Next(h.s, Rename(p)); CounterFits(History(s, h.log + [e]), id)
  {
    var op := h.s.lock.value.op;
    var (s, e) := Next(h.s, Rename(p));
    LogElsewhere(h.log, e, id);
    if op.Add? && op.c.id == id {
      AppliedCount(h.s.disk, op, id);
      UpToMore(h.log, id, -1, op.c.count);
    } else {
      RenameLeaves(h.s, p, id);
    }
  }

  /** A rename for another credential: the count stays or goes with its credential. */
  lemma {:induction false} RenameLeaves(s: State, p: Process, id: Id)
    requires FileFits(s) && IsAt(s, p, Changed) && s.lock.value.op != Increment(id)
    requires s.lock.value.op.Add? ==> s.lock.value.op.c.id != id
    ensures var s' := Next(s, Rename(p)).0;
            && (CountOf(s'.disk, id).Some? ==> CountOf(s'.disk, id) == CountOf(s.disk, id))
            && s'.used == s.used && !IsPending(s, id) && !IsPending(s', id)
  {
    AppliedCount(s.disk, s.lock.value.op, id);
  }

  /** A step that neither renames nor returns leaves the file and the counts. */
  lemma {:induction false} OtherCounts(h: History, step: Step, id: Id)
    requires FileFits(h.s) && CounterFits(h, id) && Next(h.s, step).1 == Other && Next(h.s, step).0.disk == h.s.disk
    ensures var (s, e) := Next(h.s, step); CounterFits(History(s, h.log + [e]), id)
  {
    LogStep(h.log, Other, id);
    var count := CountOf(h.s.disk, id);
    if count.Some? {
      UpToMore(h.log, id, count.value as int - 1, count.value);
    }
  }

  /** A returned count was written before. */
  lemma {:induction false} ReturnCounts(h: History, p: Process, id: Id)
    requires FileFits(h.s) && CounterFits(h, id) && IsAt(h.s, p, Committed)
    ensures var (s, e) := Next(h.s, Return(p)); CounterFits(History(s, h.log + [e]), id)
  {
    LogStep(h.log, Next(h.s, Return(p)).1, id);
    var count := CountOf(h.s.disk, id);
    if count.Some? {
      UpToMore(h.log, id, count.value as int - 1, count.value);
    }
  }

  lemma {:induction false} CounterKept(h: History, step: Step, id: Id)
    requires FileFits(h.s) && CounterFits(h, id)
    ensures var (s, e) := Next(h.s, step); CounterFits(History(s, h.log + [e]), id)
  {
    if step.Rename? && IsAt(h.s, step.process, Changed) {
      RenameKeeps(h, step.process, id);
    } else if step.Return? && IsAt(h.s, step.process, Committed) {
      ReturnCounts(h, step.process, id);
    } else {
      OtherCounts(h, step, id);
    }
  }

  lemma {:induction false} RunFits(file: seq<Credential>, steps: seq<Step>, id: Id)
    requires Good(file)
    ensures FileFits(Run(file, steps).s) && CounterFits(Run(file, steps), id)
  {
    if steps != [] {
      var front := steps[..|steps| - 1];
      RunFits(file, front, id);
      FileKept(Run(file, front).s, steps[|steps| - 1]);
      CounterKept(Run(file, front), steps[|steps| - 1], id);
    }
  }

  // ----------------------------------------------------------------- results

  /** At every moment, whatever crashed: one credential per relying party and user handle. */
  lemma {:induction false} OnePerAccount(file: seq<Credential>, steps: seq<Step>, i: nat, j: nat)
    requires Good(file) && i < j < |Run(file, steps).s.disk|
    ensures var disk := Run(file, steps).s.disk;
            !(disk[i].rp == disk[j].rp && disk[i].handle == disk[j].handle) && disk[i].id != disk[j].id
  {
    RunFits(file, steps, "");
  }

  lemma {:induction false} RunPrefix(file: seq<Credential>, steps: seq<Step>, k: nat)
    requires k <= |steps|
    ensures Run(file, steps[..k]).log == Run(file, steps).log[..k]
  {
    if k == |steps| {
      assert steps[..k] == steps;
    } else {
      var front := steps[..|steps| - 1];
      RunPrefix(file, front, k);
      assert front[..k] == steps[..k];
    }
  }

  lemma {:induction false} StepAt(file: seq<Credential>, steps: seq<Step>, k: nat)
    requires k < |steps|
    ensures var before := Run(file, steps[..k]);
            Run(file, steps).log[..k] == before.log && Run(file, steps).log[k] == Next(before.s, steps[k]).1
  {
    RunPrefix(file, steps, k);
    RunPrefix(file, steps, k + 1);
    assert steps[..k + 1][..k] == steps[..k];
    assert Run(file, steps).log[k] == Run(file, steps).log[..k + 1][k];
  }

  /** What a step takes out of the file and puts into it. */
  ghost predicate IsChange(op: Op, before: seq<Credential>, after: seq<Credential>) {
    match op
    case Add(c) => forall x :: x in after <==> x == c || (x in before && !(x.rp == c.rp && x.handle == c.handle))
    case Increment(id) =>
      |after| == |before|
      && forall i :: 0 <= i < |before|
                     ==> after[i] == if before[i].id == id then before[i].(count := before[i].count + 1) else before[i]
    case Remove(id) => forall x :: x in after <==> x in before && x.id != id
    case Destroy => after == []
  }

  /** The file changes when a process that holds the lock renames, and then as its
      operation says: an Add drops only what has both the relying party and the
      user handle of the one added, a Remove only that id. */
  lemma {:induction false} FileChangesExactly(file: seq<Credential>, steps: seq<Step>, k: nat)
    requires Good(file) && k < |steps|
    ensures var before, after := Run(file, steps[..k]).s, Run(file, steps[..k + 1]).s;
            if steps[k].Rename? && IsAt(before, steps[k].process, Changed)
            then IsChange(before.lock.value.op, before.disk, after.disk) else after.disk == before.disk
  {
    var before, p := Run(file, steps[..k]).s, steps[k].process;
    assert steps[..k + 1][..k] == steps[..k];
    RunFits(file, steps[..k], "");
    if steps[k].Rename? && IsAt(before, p, Changed) {
      AppliedChanges(before.disk, before.lock.value.op);
    }
  }

  /** The lock is given back when a save fails, when the count is returned, when
      there is nothing to change, and when its holder crashes; by nobody else. */
  lemma {:induction false} LockIsFreed(s: State, step: Step)
    requires FileFits(s) && s.lock.Some?
    ensures var (h, s') := (s.lock.value, Next(s, step).0);
            s'.lock.None?
            <==> step.process == h.process
                 && (step.Crash? || (step.FailSave? && h.stage == Changed) || (step.Return? && h.stage == Committed)
                     || (step.Change? && h.stage == Loaded && Applied(s.disk, h.op).None?))
    ensures step.FailSave? || step.Return? || step.Crash? ==> Next(s, step).0.disk == s.disk
  {
  }

  lemma {:induction false} AppliedChanges(cs: seq<Credential>, op: Op)
    requires Good(cs) && Applied(cs, op).Some? && (op.Add? ==> IndexOf(cs, op.c.id).None?)
    ensures IsChange(op, cs, Applied(cs, op).value)
  {
    match op
    case Add(c) => AddedKeeps(cs, c);
    case Increment(id) =>
    case Remove(id) => WithoutIdKeeps(cs, id);
    case Destroy =>
  }

  lemma {:induction false} UpToAt(log: seq<Event>, id: Id, n: int, i: nat)
    requires i < |log|
    ensures CountedUpTo(log, id, n) && log[i].Counted? && log[i].id == id ==> log[i].count <= n
    ensures ReturnedUpTo(log, id, n) && log[i].Returned? && log[i].id == id ==> log[i].count <= n
  {
    if i < |log| - 1 {
      UpToAt(log[..|log| - 1], id, n, i);
    }
  }

  lemma {:induction false} CountingStep(s: State, step: Step)
    requires FileFits(s) && Next(s, step).1.Counted?
    ensures var e := Next(s, step).1; var count := CountOf(s.disk, e.id); count.Some? && e.count == count.value + 1
  {
    var op := s.lock.value.op;
    IncrementedKeeps(s.disk, op.id);
  }

  lemma {:induction false} ReturningStep(s: State, step: Step)
    requires FileFits(s) && Next(s, step).1.Returned?
    ensures var e := Next(s, step).1;
            IsPending(s, e.id) && s.lock.value.process == e.process && CountOf(s.disk, e.id) == Some(e.count)
  {
  }

  /** The counts written for one credential strictly increase. */
  lemma {:induction false} CountsIncrease(file: seq<Credential>, steps: seq<Step>, i: nat, j: nat)
    requires Good(file) && i < j < |steps|
    ensures var a, b := Run(file, steps).log[i], Run(file, steps).log[j];
            a.Counted? && b.Counted? && a.id == b.id ==> a.count < b.count
  {
    var log, h := Run(file, steps).log, Run(file, steps[..j]);
    if log[i].Counted? && log[j].Counted? && log[i].id == log[j].id {
      StepAt(file, steps, j);
      RunFits(file, steps[..j], log[j].id);
      CountingStep(h.s, steps[j]);
      assert h.log[i] == log[i];
      UpToAt(h.log, log[j].id, CountOf(h.s.disk, log[j].id).value, i);
    }
  }

  /** So do the counts given out: a crash may skip one but never repeats one. */
  lemma {:induction false} ReturnsIncrease(file: seq<Credential>, steps: seq<Step>, i: nat, j: nat)
    requires Good(file) && i < j < |steps|
    ensures var a, b := Run(file, steps).log[i], Run(file, steps).log[j];
            a.Returned? && b.Returned? && a.id == b.id ==> a.count < b.count
  {
    var log, h := Run(file, steps).log, Run(file, steps[..j]);
    if log[i].Returned? && log[j].Returned? && log[i].id == log[j].id {
      StepAt(file, steps, j);
      RunFits(file, steps[..j], log[j].id);
      ReturningStep(h.s, steps[j]);
      assert h.log[i] == log[i];
      UpToAt(h.log, log[j].id, log[j].count - 1, i);
    }
  }

  lemma {:induction false} CountedBefore(log: seq<Event>, p: Process, id: Id, n: nat) returns (i: nat)
    requires WasCounted(log, p, id, n)
    ensures i < |log| && log[i] == Counted(p, id, n)
  {
    if log[|log| - 1] == Counted(p, id, n) {
      i := |log| - 1;
    } else {
      i := CountedBefore(log[..|log| - 1], p, id, n);
    }
  }

  /** A count is on disk before it is given out. */
  lemma {:induction false} ReturnedWasWritten(file: seq<Credential>, steps: seq<Step>, j: nat) returns (i: nat)
    requires Good(file) && j < |steps| && Run(file, steps).log[j].Returned?
    ensures var log := Run(file, steps).log; i < j && log[i] == Counted(log[j].process, log[j].id, log[j].count)
  {
    var log, h := Run(file, steps).log, Run(file, steps[..j]);
    StepAt(file, steps, j);
    RunFits(file, steps[..j], log[j].id);
    ReturningStep(h.s, steps[j]);
    i := CountedBefore(h.log, log[j].process, log[j].id, log[j].count);
    assert h.log[i] == log[i];
  }

  lemma {:induction false} RunOn(file: seq<Credential>, steps: seq<Step>, step: Step)
    ensures var h := Run(file, steps);
            var (s, e) := Next(h.s, step);
            Run(file, steps + [step]) == History(s, h.log + [e])
  {
    assert (steps + [step])[..|steps|] == steps;
  }

  /** Two steps of a process that nobody disturbs. */
  lemma {:induction false} LockAndLoad(s: State, p: Process, op: Op)
    requires s.lock.None? && p in s.lists && !op.Add?
    ensures var s1 := Next(s, Lock(p, op)).0; var s2 := Next(s1, Load(p)).0;
            s2 == State(s.disk, Some(Hold(p, op, Loaded)), s.lists[p := s.disk], s.used)
  {
    assert s.used + {} == s.used;
  }

  lemma {:induction false} ChangeAndRename(s: State, p: Process, id: Id, n: nat)
    requires IsAt(s, p, Loaded) && s.lock.value.op == Increment(id) && Good(s.lists[p])
             && CountOf(s.lists[p], id) == Some(n)
    ensures var s1 := Next(s, Change(p)).0; var s2 := Next(s1, Rename(p)).0;
            IsAt(s2, p, Committed) && s2.lock.value.op == Increment(id) && CountOf(s2.lists[p], id) == Some(n + 1)
  {
    IncrementedKeeps(s.lists[p], id);
  }

  /** From every reachable state with the lock free, an undisturbed increment gives out the next count. */
  lemma {:induction false} CountIsGivenOut(file: seq<Credential>, steps: seq<Step>, p: Process, id: Id, n: nat)
    requires Good(file)
    requires var s := Run(file, steps).s; s.lock.None? && p in s.lists && CountOf(s.disk, id) == Some(n)
    ensures var more := steps + [Lock(p, Increment(id))] + [Load(p)] + [Change(p)] + [Rename(p)] + [Return(p)];
            Run(file, more).log[|steps| + 4] == Returned(p, id, n + 1)
  {
    var a := steps + [Lock(p, Increment(id))];
    var b := a + [Load(p)];
    var c := b + [Change(p)];
    var d := c + [Rename(p)];
    RunFits(file, steps, id);
    RunOn(file, steps, Lock(p, Increment(id)));
    RunOn(file, a, Load(p));
    RunOn(file, b, Change(p));
    RunOn(file, c, Rename(p));
    RunOn(file, d, Return(p));
    LockAndLoad(Run(file, steps).s, p, Increment(id));
    ChangeAndRename(Run(file, b).s, p, id, n);
    ReturnGives(Run(file, d).s, p, id, n + 1);
  }

  lemma {:induction false} ReturnGives(s: State, p: Process, id: Id, n: nat)
    requires IsAt(s, p, Committed) && s.lock.value.op == Increment(id) && CountOf(s.lists[p], id) == Some(n)
    ensures Next(s, Return(p)).1 == Returned(p, id, n)
  {
  }
}
