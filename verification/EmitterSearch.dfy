/** The search for the control that lights the infrared emitter: it tries values
    on a camera's vendor controls, one byte at a time, and puts each control
    back. What the camera answers to every write is a parameter, and so is what
    the frames show. */
module EmitterSearch {
  import opened Outcomes
  import opened Sequences
  import opened Bytes

  const PER_BYTE := 5

  /** Extension unit and selector. */
  datatype Key = Key(guid: string, selector: nat)

  /** What the device says of a control, besides its current value. */
  datatype Descriptor = Descriptor(key: Key, microsoft: bool, writable: bool, readable: bool, maximum: seq<Byte>)
  datatype Control = Control(key: Key, cur: seq<Byte>, top: seq<Byte>)
  datatype Write = Write(key: Key, value: seq<Byte>)

  /** A write works, or raises and leaves the control with some value. */
  datatype Answer = Works | Raises(left: Option<seq<Byte>>)
  /** What the frames after a write show: no light, light that is accepted, or
      reading them, asking or saving raised. */
  datatype Look = Dark | Accepted | Breaks
  datatype Trial = Trial(answer: Answer, look: Look)
  /** Everything the camera does while one control is tried. */
  datatype Attempt = Attempt(trials: seq<Trial>, restore: Answer)

  /** Trials and attempts that are not listed work and stay dark. */
  function TrialAt(a: Attempt, i: nat): Trial {
    if i < |a.trials| then a.trials[i] else Trial(Works, Dark)
  }

  function AttemptAt(attempts: seq<Attempt>, i: nat): Attempt {
    if i < |attempts| then attempts[i] else Attempt([], Works)
  }

  type Values = map<Key, seq<Byte>>
  datatype State = State(values: Values, blacklist: set<Key>, stored: Option<Write>)

  datatype Outcome = Found(write: Write) | NotFound | Aborted(key: Key) | Broken

  // --------------------------------------------------------- values to try

  function Limit(top: Byte): int {
    if top < 255 then top else 255
  }

  /** The value with one byte replaced. */
  function With(value: seq<Byte>, index: nat, byte: Byte): (r: seq<Byte>)
    requires index < |value|
    ensures |r| == |value| && r[index] == byte && forall k :: 0 <= k < |value| && k != index ==> r[k] == value[k]
  {
    value[index := byte]
  }

  /** Raising one byte from v, up to n times and never past its maximum. */
  function Raised(cur: seq<Byte>, top: seq<Byte>, index: nat, v: Byte, n: nat): seq<seq<Byte>>
    requires index < |cur| && index < |top|
    decreases n
  {
    if n == 0 || v + 1 > Limit(top[index]) then []
    else [With(cur, index, v + 1)] + Raised(cur, top, index, v + 1, n - 1)
  }

  /** candidate_values, from a byte on, up to the one that has no maximum: there it raises. */
  function CandidatesFrom(cur: seq<Byte>, top: seq<Byte>, index: nat): seq<seq<Byte>>
    decreases |cur| - index
  {
    if index >= |cur| || index >= |top| then []
    else Raised(cur, top, index, cur[index], PER_BYTE) + CandidatesFrom(cur, top, index + 1)
  }

  /** The byte may be raised to w: a few steps at most, within its maximum. */
  predicate MayRaise(cur: seq<Byte>, top: seq<Byte>, i: nat, w: Byte) {
    i < |cur| && i < |top| && cur[i] < w <= top[i] && w as int - cur[i] as int <= 5
  }

  /** The value is the current one with one byte raised, within its maximum. */
  predicate IsRaise(cur: seq<Byte>, top: seq<Byte>, value: seq<Byte>) {
    |value| == |cur| && exists i :: 0 <= i < |cur| && MayRaise(cur, top, i, value[i]) && value == With(cur, i, value[i])
  }

  lemma {:induction false} RaisedIsRaise(cur: seq<Byte>, top: seq<Byte>, index: nat, v: Byte, n: nat, value: seq<Byte>)
    requires index < |cur| && index < |top| && cur[index] <= v <= cur[index] + PER_BYTE - n
             && value in Raised(cur, top, index, v, n)
    ensures IsRaise(cur, top, value)
    decreases n
  {
    if value == With(cur, index, v + 1) {
      assert MayRaise(cur, top, index, value[index]);
    } else {
      RaisedIsRaise(cur, top, index, v + 1, n - 1, value);
    }
  }

  lemma {:induction false} RaiseIsRaised(cur: seq<Byte>, top: seq<Byte>, index: nat, v: Byte, n: nat, w: Byte)
    requires index < |cur| && index < |top| && v < w <= top[index] && w <= v + n
    ensures With(cur, index, w) in Raised(cur, top, index, v, n)
    decreases n
  {
    if w > v + 1 {
      RaiseIsRaised(cur, top, index, v + 1, n - 1, w);
    }
  }

  /** Every candidate has one byte raised. */
  lemma {:induction false} CandidateIsRaise(cur: seq<Byte>, top: seq<Byte>, index: nat, value: seq<Byte>)
    requires value in CandidatesFrom(cur, top, index)
    ensures IsRaise(cur, top, value)
    decreases |cur| - index
  {
    if value in Raised(cur, top, index, cur[index], PER_BYTE) {
      RaisedIsRaise(cur, top, index, cur[index], PER_BYTE, value);
    } else {
      CandidateIsRaise(cur, top, index + 1, value);
    }
  }

  /** And every such raise is a candidate. */
  lemma {:induction false} RaiseIsCandidate(cur: seq<Byte>, top: seq<Byte>, index: nat, i: nat, w: Byte)
    requires index <= i && MayRaise(cur, top, i, w)
    ensures With(cur, i, w) in CandidatesFrom(cur, top, index)
    decreases |cur| - index
  {
    if i == index {
      RaiseIsRaised(cur, top, index, cur[index], PER_BYTE, w);
      InLeft(With(cur, i, w), Raised(cur, top, index, cur[index], PER_BYTE), CandidatesFrom(cur, top, index + 1));
    } else {
      RaiseIsCandidate(cur, top, index + 1, i, w);
      InRight(With(cur, i, w), Raised(cur, top, index, cur[index], PER_BYTE), CandidatesFrom(cur, top, index + 1));
    }
  }

  lemma {:induction false} InLeft<T>(x: T, a: seq<T>, b: seq<T>)
    requires x in a
    ensures x in a + b
  {
  }

  lemma {:induction false} InRight<T>(x: T, a: seq<T>, b: seq<T>)
    requires x in b
    ensures x in a + b
  {
  }

  /** Its inner loop: one byte raised step by step. */
  method RaiseByte(cur: seq<Byte>, top: seq<Byte>, index: nat) returns (values: seq<seq<Byte>>)
    requires index < |cur| && index < |top|
    ensures values == Raised(cur, top, index, cur[index], PER_BYTE)
  {
    var value := cur;
    var n: nat := PER_BYTE;
    values := [];
    while n > 0 && value[index] + 1 <= Limit(top[index])
      invariant 0 <= n <= PER_BYTE && |value| == |cur| && value == With(cur, index, value[index])
      invariant Raised(cur, top, index, cur[index], PER_BYTE) == values + Raised(cur, top, index, value[index], n)
    {
      value := With(value, index, value[index] + 1);
      assert value == With(cur, index, value[index]);
      Associate(values, [value], Raised(cur, top, index, value[index], n - 1));
      values := values + [value];
      n := n - 1;
    }
    assert values + [] == values;
  }

  /** candidate_values; raises: a byte has no maximum. */
  method CandidateValues(c: Control) returns (values: seq<seq<Byte>>, raises: bool)
    ensures values == CandidatesFrom(c.cur, c.top, 0) && raises == (|c.top| < |c.cur|)
  {
    values := [];
    var index: nat := 0;
    while index < |c.cur|
      invariant 0 <= index <= |c.cur| && index <= |c.top|
      invariant CandidatesFrom(c.cur, c.top, 0) == values + CandidatesFrom(c.cur, c.top, index)
    {
      if index >= |c.top| {
        assert values + [] == values;
        return values, true;
      }
      var raised := RaiseByte(c.cur, c.top, index);
      Associate(values, raised, CandidatesFrom(c.cur, c.top, index + 1));
      values := values + raised;
      index := index + 1;
    }
    assert values + [] == values;
    raises := false;
  }

  // ------------------------------------------------------- one control

  /** device.set */
  function After(values: Values, w: Write, answer: Answer): Values {
    match answer
    case Works => values[w.key := w.value]
    case Raises(left) => if left.Some? then values[w.key := left.value] else values
  }

  datatype Tried = Tried(values: Values, writes: seq<Write>, lit: Option<Write>, broken: bool)

  /** The writes of one control, from the k-th candidate on; raises: behind the last one. */
  function TryFrom(values: Values, key: Key, candidates: seq<seq<Byte>>, raises: bool, k: nat, a: Attempt): Tried
    requires k <= |candidates|
    decreases |candidates| - k
  {
    if k == |candidates| then Tried(values, [], None, raises)
    else
      var w, trial := Write(key, candidates[k]), TrialAt(a, k);
      var after := After(values, w, trial.answer);
      if trial.answer.Raises? then Tried(after, [w], None, false)
      else if trial.look == Accepted then Tried(after, [w], Some(w), false)
      else if trial.look == Breaks then Tried(after, [w], None, true)
      else Behind([w], TryFrom(after, key, candidates, raises, k + 1, a))
  }

  function Behind(writes: seq<Write>, t: Tried): Tried {
    t.(writes := writes + t.writes)
  }

  datatype Searched = Searched(s: State, outcome: Outcome, writes: seq<Write>)

  /** One control: its candidates, then its own value back, whatever happened. */
  function SearchOne(s: State, c: Control, a: Attempt): Searched {
    var t := TryFrom(s.values, c.key, CandidatesFrom(c.cur, c.top, 0), |c.top| < |c.cur|, 0, a);
    var back := Write(c.key, c.cur);
    var values := After(t.values, back, a.restore);
    var stored := if t.lit.Some? then t.lit else s.stored;
    var writes := t.writes + [back];
    if a.restore.Raises? then Searched(State(values, s.blacklist + {c.key}, stored), Aborted(c.key), writes)
    else
      Searched(State(values, s.blacklist, stored),
               if t.lit.Some? then Found(t.lit.value) else if t.broken then Broken else NotFound, writes)
  }

  function SearchFrom(s: State, cs: seq<Control>, i: nat, attempts: seq<Attempt>): Searched
    requires i <= |cs|
    decreases |cs| - i
  {
    if i == |cs| then Searched(s, NotFound, [])
    else
      var one := SearchOne(s, cs[i], AttemptAt(attempts, i));
      if one.outcome != NotFound then one else Following(one.writes, SearchFrom(one.s, cs, i + 1, attempts))
  }

  function Following(writes: seq<Write>, r: Searched): Searched {
    r.(writes := writes + r.writes)
  }

  lemma {:induction false} SearchNext(writes: seq<Write>, s: State, cs: seq<Control>, i: nat, attempts: seq<Attempt>)
    requires i < |cs|
    ensures var one := SearchOne(s, cs[i], AttemptAt(attempts, i));
            Following(writes, SearchFrom(s, cs, i, attempts))
            == if one.outcome != NotFound then Following(writes, one)
               else Following(writes + one.writes, SearchFrom(one.s, cs, i + 1, attempts))
  {
    var one := SearchOne(s, cs[i], AttemptAt(attempts, i));
    Associate(writes, one.writes, SearchFrom(one.s, cs, i + 1, attempts).writes);
  }

  /** candidate_controls: writable, readable, not Microsoft's, not blacklisted. A
      control without a maximum gets 255 for each byte. */
  function Candidates(values: Values, blacklist: set<Key>, ds: seq<Descriptor>): (cs: seq<Control>) {
    if ds == [] then []
    else (if IsCandidate(values, blacklist, ds[0]) then [ControlOf(values, ds[0])] else [])
         + Candidates(values, blacklist, ds[1..])
  }

  predicate IsCandidate(values: Values, blacklist: set<Key>, d: Descriptor) {
    !d.microsoft && d.writable && d.readable && d.key in values && d.key !in blacklist
  }

  function ControlOf(values: Values, d: Descriptor): Control
    requires d.key in values
  {
    var cur := values[d.key];
    Control(d.key, cur, if d.maximum == [] then seq(|cur|, i => 255) else d.maximum)
  }

  /** The controls have the values the camera has, and are not blacklisted. */
  predicate AreFree(cs: seq<Control>, values: Values, blacklist: set<Key>) {
    forall i :: 0 <= i < |cs| ==> cs[i].key in values && cs[i].cur == values[cs[i].key] && cs[i].key !in blacklist
  }

  lemma {:induction false} CandidatesFit(values: Values, blacklist: set<Key>, ds: seq<Descriptor>)
    ensures AreFree(Candidates(values, blacklist, ds), values, blacklist)
  {
    if ds != [] {
      CandidatesFit(values, blacklist, ds[1..]);
      var rest := Candidates(values, blacklist, ds[1..]);
      if IsCandidate(values, blacklist, ds[0]) {
        assert Candidates(values, blacklist, ds) == [ControlOf(values, ds[0])] + rest;
      } else {
        assert Candidates(values, blacklist, ds) == [] + rest == rest;
      }
    }
  }

  function Search(s: State, ds: seq<Descriptor>, attempts: seq<Attempt>): Searched {
    SearchFrom(s, Candidates(s.values, s.blacklist, ds), 0, attempts)
  }

  // ------------------------------------------------------------- the camera

  class Camera {
    var values: Values
    var blacklist: set<Key>
    var stored: Option<Write>

    constructor (values: Values, blacklist: set<Key>, stored: Option<Write>)
      ensures Value() == State(values, blacklist, stored)
    {
      this.values, this.blacklist, this.stored := values, blacklist, stored;
    }

    function Value(): State
      reads this
    {
      State(values, blacklist, stored)
    }

    method Set(w: Write, answer: Answer) returns (ok: bool)
      modifies this`values
      ensures values == After(old(values), w, answer) && ok == answer.Works?
    {
      match answer
      case Works =>
        values := values[w.key := w.value];
        ok := true;
      case Raises(left) =>
        if left.Some? {
          values := values[w.key := left.value];
        }
        ok := false;
    }

    /** The inner loop; remember is called as soon as a value is accepted. */
    method TryControl(c: Control, a: Attempt) returns (lit: Option<Write>, broken: bool, writes: seq<Write>)
      modifies this`values, this`stored
      ensures Tried(values, writes, lit, broken)
           == TryFrom(old(values), c.key, CandidatesFrom(c.cur, c.top, 0), |c.top| < |c.cur|, 0, a)
      ensures stored == if lit.Some? then lit else old(stored)
    {
      var candidates, raises := CandidateValues(c);
      ghost var all := TryFrom(values, c.key, candidates, raises, 0, a);
      lit, broken, writes := None, false, [];
      var k: nat := 0;
      while k < |candidates|
        invariant 0 <= k <= |candidates| && stored == old(stored) && lit.None? && !broken
        invariant all == Behind(writes, TryFrom(values, c.key, candidates, raises, k, a))
      {
        var w, trial := Write(c.key, candidates[k]), TrialAt(a, k);
        BehindTwice(writes, [w], TryFrom(After(values, w, trial.answer), c.key, candidates, raises, k + 1, a));
        var ok := Set(w, trial.answer);
        writes := writes + [w];
        if !ok {
          return;
        }
        if trial.look == Accepted {
          stored := Some(w);
          return Some(w), false, writes;
        }
        if trial.look == Breaks {
          return None, true, writes;
        }
        k := k + 1;
      }
      assert writes + [] == writes;
      broken := raises;
    }

    /** search */
    method Run(ds: seq<Descriptor>, attempts: seq<Attempt>) returns (outcome: Outcome, writes: seq<Write>)
      modifies this
      ensures Searched(Value(), outcome, writes) == Search(old(Value()), ds, attempts)
    {
      var controls := Candidates(values, blacklist, ds);
      ghost var all := SearchFrom(Value(), controls, 0, attempts);
      writes := [];
      var i: nat := 0;
      while i < |controls|
        invariant 0 <= i <= |controls| && all == Following(writes, SearchFrom(Value(), controls, i, attempts))
      {
        SearchNext(writes, Value(), controls, i, attempts);
        var one, tried := SearchControl(controls[i], AttemptAt(attempts, i));
        writes := writes + tried;
        if one != NotFound {
          return one, writes;
        }
        i := i + 1;
      }
      assert writes + [] == writes;
      outcome := NotFound;
    }

    /** The body of the loop, its finally included. */
    method SearchControl(c: Control, a: Attempt) returns (outcome: Outcome, writes: seq<Write>)
      modifies this
      ensures Searched(Value(), outcome, writes) == SearchOne(old(Value()), c, a)
    {
      var lit, broken, tried := TryControl(c, a);
      var back := Write(c.key, c.cur);
      var ok := Set(back, a.restore);
      writes := tried + [back];
      if !ok {
        blacklist := blacklist + {c.key};
        return Aborted(c.key), writes;
      }
      outcome := if lit.Some? then Found(lit.value) else if broken then Broken else NotFound;
    }
  }

  lemma {:induction false} BehindTwice(a: seq<Write>, b: seq<Write>, t: Tried)
    ensures Behind(a, Behind(b, t)) == Behind(a + b, t)
  {
    assert a + (b + t.writes) == a + b + t.writes;
  }

  // ----------------------------------------------------- putting things back

  /** Every write of a control is a trial or puts it back. */
  predicate AreTrials(c: Control, writes: seq<Write>) {
    forall k :: 0 <= k < |writes|
                ==> writes[k].key == c.key && (writes[k].value == c.cur || IsRaise(c.cur, c.top, writes[k].value))
  }

  /** Two cameras agree on every control but one. */
  predicate SameBut(a: Values, b: Values, key: Key) {
    a.Keys == b.Keys && forall k :: k in a && k != key ==> a[k] == b[k]
  }

  lemma {:induction false} TryingTouchesOne(values: Values, c: Control, candidates: seq<seq<Byte>>, raises: bool,
                                            k: nat, a: Attempt)
    requires c.key in values && k <= |candidates|
    requires forall i :: 0 <= i < |candidates| ==> IsRaise(c.cur, c.top, candidates[i])
    ensures var t := TryFrom(values, c.key, candidates, raises, k, a);
            SameBut(values, t.values, c.key) && AreTrials(c, t.writes)
    decreases |candidates| - k
  {
    if k < |candidates| {
      var w, trial := Write(c.key, candidates[k]), TrialAt(a, k);
      var after := After(values, w, trial.answer);
      assert SameBut(values, after, c.key);
      TryingTouchesOne(after, c, candidates, raises, k + 1, a);
    }
  }

  /** One control tried: it is back at its value, unless putting it back raised. */
  lemma {:induction false} OneIsRestored(s: State, c: Control, a: Attempt)
    requires c.key in s.values && s.values[c.key] == c.cur
    ensures var r := SearchOne(s, c, a);
            && AreTrials(c, r.writes) && SameBut(s.values, r.s.values, c.key)
            && (r.outcome.Aborted? ==> r.outcome.key == c.key && r.s.blacklist == s.blacklist + {c.key})
            && (!r.outcome.Aborted? ==> r.s.values == s.values && r.s.blacklist == s.blacklist)
  {
    var candidates := CandidatesFrom(c.cur, c.top, 0);
    forall i | 0 <= i < |candidates| ensures IsRaise(c.cur, c.top, candidates[i]) {
      CandidateIsRaise(c.cur, c.top, 0, candidates[i]);
    }
    TryingTouchesOne(s.values, c, candidates, |c.top| < |c.cur|, 0, a);
  }

  /** The value a control started with, and the maximum it was tried within. */
  predicate IsTrialOf(cs: seq<Control>, w: Write) {
    exists i :: 0 <= i < |cs| && w.key == cs[i].key && (w.value == cs[i].cur || IsRaise(cs[i].cur, cs[i].top, w.value))
  }

  predicate Restored(before: State, r: Searched) {
    if r.outcome.Aborted? then SameBut(before.values, r.s.values, r.outcome.key)
                               && r.s.blacklist == before.blacklist + {r.outcome.key}
    else r.s.values == before.values && r.s.blacklist == before.blacklist
  }

  lemma {:induction false} SearchRestores(s: State, cs: seq<Control>, i: nat, attempts: seq<Attempt>)
    requires i <= |cs| && AreFree(cs, s.values, {})
    ensures var r := SearchFrom(s, cs, i, attempts);
            && Restored(s, r) && (forall k :: 0 <= k < |r.writes| ==> IsTrialOf(cs, r.writes[k]))
            && (r.outcome.Aborted? ==> exists k :: 0 <= k < |cs| && cs[k].key == r.outcome.key)
    decreases |cs| - i
  {
    if i < |cs| {
      var one := SearchOne(s, cs[i], AttemptAt(attempts, i));
      OneIsRestored(s, cs[i], AttemptAt(attempts, i));
      forall k | 0 <= k < |one.writes| ensures IsTrialOf(cs, one.writes[k]) {
        assert one.writes[k].key == cs[i].key;
      }
      if one.outcome == NotFound {
        SearchRestores(one.s, cs, i + 1, attempts);
      }
    }
  }

  /** A search leaves every control as it found it; if it aborts, only the one it
      could not put back may differ, and that one is blacklisted. Nothing
      blacklisted before is written; and every value written is the one the
      control started with, or that with one byte raised within its maximum. */
  lemma {:induction false} SearchIsSafe(s: State, ds: seq<Descriptor>, attempts: seq<Attempt>)
    ensures var r, cs := Search(s, ds, attempts), Candidates(s.values, s.blacklist, ds);
            && Restored(s, r)
            && (forall k :: 0 <= k < |r.writes| ==> IsTrialOf(cs, r.writes[k]) && r.writes[k].key !in s.blacklist)
            && (r.outcome.Aborted? ==> r.outcome.key in r.s.blacklist && r.outcome.key !in s.blacklist)
  {
    var cs := Candidates(s.values, s.blacklist, ds);
    CandidatesFit(s.values, s.blacklist, ds);
    SearchRestores(s, cs, 0, attempts);
  }

  // ------------------------------------------------------------ many searches

  /** Searches, forgetting the camera, and whatever else changes its values
      (shutting down, other programs). */
  datatype Op = DoSearch(ds: seq<Descriptor>, attempts: seq<Attempt>) | Forget | Outside(values: Values)

  datatype Effect = Effect(outcome: Outcome, writes: seq<Write>)

  function Do(s: State, op: Op): (State, Effect) {
    match op
    case DoSearch(ds, attempts) => var r := Search(s, ds, attempts); (r.s, Effect(r.outcome, r.writes))
    case Forget => (s.(blacklist := {}, stored := None), Effect(NotFound, []))
    case Outside(values) => (s.(values := values), Effect(NotFound, []))
  }

  function Effects(s: State, ops: seq<Op>): (es: seq<Effect>)
    ensures |es| == |ops|
    decreases |ops|
  {
    if ops == [] then [] else var (s', e) := Do(s, ops[0]); [e] + Effects(s', ops[1..])
  }

  lemma {:induction false} DoKeepsListed(s: State, op: Op, key: Key)
    requires key in s.blacklist && !op.Forget?
    ensures key in Do(s, op).0.blacklist
    ensures forall k :: 0 <= k < |Do(s, op).1.writes| ==> Do(s, op).1.writes[k].key != key
  {
    if op.DoSearch? {
      SearchIsSafe(s, op.ds, op.attempts);
    }
  }

  lemma {:induction false} ListedStays(s: State, ops: seq<Op>, key: Key, j: nat)
    requires key in s.blacklist && j < |ops| && forall k :: 0 <= k <= j ==> !ops[k].Forget?
    ensures forall k :: 0 <= k < |Effects(s, ops)[j].writes| ==> Effects(s, ops)[j].writes[k].key != key
    decreases |ops|
  {
    DoKeepsListed(s, ops[0], key);
    if j > 0 {
      assert forall k :: 0 <= k <= j - 1 ==> ops[1..][k] == ops[k + 1];
      ListedStays(Do(s, ops[0]).0, ops[1..], key, j - 1);
    }
  }

  /** A control that could not be put back is not written again until the camera is forgotten. */
  lemma {:induction false} AbortedIsLeftAlone(s: State, ops: seq<Op>, i: nat, j: nat)
    requires i < j < |ops| && Effects(s, ops)[i].outcome.Aborted? && forall k :: i < k <= j ==> !ops[k].Forget?
    ensures var es := Effects(s, ops); forall k :: 0 <= k < |es[j].writes| ==> es[j].writes[k].key != es[i].outcome.key
    decreases |ops|
  {
    var (s', e) := Do(s, ops[0]);
    if i == 0 {
      SearchIsSafe(s, ops[0].ds, ops[0].attempts);
      assert forall k :: 0 <= k <= j - 1 ==> ops[1..][k] == ops[k + 1];
      ListedStays(s', ops[1..], e.outcome.key, j - 1);
    } else {
      assert forall k :: i - 1 < k <= j - 1 ==> ops[1..][k] == ops[k + 1];
      AbortedIsLeftAlone(s', ops[1..], i - 1, j - 1);
    }
  }

  // ---------------------------------------------------------- what is tried

  /** The controls tried are the vendor controls that can be read and written and
      are not blacklisted, each with its own value and its maximum. */
  lemma {:induction false} CandidatesExactly(values: Values, blacklist: set<Key>, ds: seq<Descriptor>, c: Control)
    ensures c in Candidates(values, blacklist, ds)
       <==> exists i :: 0 <= i < |ds| && !ds[i].microsoft && ds[i].writable && ds[i].readable && ds[i].key in values
                        && ds[i].key !in blacklist && c.key == ds[i].key && c.cur == values[ds[i].key]
                        && (ds[i].maximum != [] ==> c.top == ds[i].maximum)
                        && (ds[i].maximum == []
                            ==> |c.top| == |c.cur| && forall k :: 0 <= k < |c.top| ==> c.top[k] == 255)
  {
    if ds != [] {
      CandidatesExactly(values, blacklist, ds[1..], c);
      ControlIs(values, blacklist, ds[0], c);
      assert forall i :: 1 <= i < |ds| ==> ds[i] == ds[1..][i - 1];
      assert c in Candidates(values, blacklist, ds)
        <==> (IsCandidate(values, blacklist, ds[0]) && c == ControlOf(values, ds[0]))
             || c in Candidates(values, blacklist, ds[1..]);
    }
  }

  lemma {:induction false} ControlIs(values: Values, blacklist: set<Key>, d: Descriptor, c: Control)
    ensures IsCandidate(values, blacklist, d) && c == ControlOf(values, d)
       <==> !d.microsoft && d.writable && d.readable && d.key in values && d.key !in blacklist
            && c.key == d.key && c.cur == values[d.key] && (d.maximum != [] ==> c.top == d.maximum)
            && (d.maximum == [] ==> |c.top| == |c.cur| && forall k :: 0 <= k < |c.top| ==> c.top[k] == 255)
  {
    if d.key in values && d.maximum == [] && |c.top| == |values[d.key]|
       && forall k :: 0 <= k < |c.top| ==> c.top[k] == 255 {
      assert c.top == seq(|values[d.key]|, i => 255);
    }
  }

  predicate GoesOn(a: Attempt, k: nat) {
    TrialAt(a, k).answer.Works? && TrialAt(a, k).look == Dark
  }

  predicate LightsUp(a: Attempt, k: nat) {
    TrialAt(a, k).answer.Works? && TrialAt(a, k).look == Accepted
  }

  predicate Interrupts(a: Attempt, k: nat) {
    TrialAt(a, k).answer.Works? && TrialAt(a, k).look == Breaks
  }

  /** The candidates are written in their order, up to the first that does not
      stay dark; that one decides. */
  lemma {:induction false} TriedInOrder(values: Values, key: Key, candidates: seq<seq<Byte>>, raises: bool, k: nat,
                                        a: Attempt)
    requires k <= |candidates|
    ensures var t := TryFrom(values, key, candidates, raises, k, a); var n := k + |t.writes|;
            && n <= |candidates| && (forall i :: k <= i < n ==> t.writes[i - k] == Write(key, candidates[i]))
            && (forall i :: k <= i < n - 1 ==> GoesOn(a, i)) && (n < |candidates| ==> n > k && !GoesOn(a, n - 1))
            && (t.lit.Some? <==> n > k && LightsUp(a, n - 1))
               && (t.lit.Some? ==> t.lit.value == Write(key, candidates[n - 1]))
            && (t.broken
                <==> (n > k && Interrupts(a, n - 1)) || (raises && n == |candidates| && (n > k ==> GoesOn(a, n - 1))))
    decreases |candidates| - k
  {
    if k < |candidates| && GoesOn(a, k) {
      var w, trial := Write(key, candidates[k]), TrialAt(a, k);
      TriedInOrder(After(values, w, trial.answer), key, candidates, raises, k + 1, a);
      var rest := TryFrom(After(values, w, trial.answer), key, candidates, raises, k + 1, a);
      assert TryFrom(values, key, candidates, raises, k, a).writes == [w] + rest.writes;
    }
  }

  /** One control: the trials, then its own value. */
  lemma {:induction false} OneControlWrites(s: State, c: Control, a: Attempt)
    ensures var r, candidates := SearchOne(s, c, a), CandidatesFrom(c.cur, c.top, 0);
            var n := |r.writes| - 1;
            && 0 <= n <= |candidates| && r.writes[n] == Write(c.key, c.cur)
            && (forall i :: 0 <= i < n ==> r.writes[i] == Write(c.key, candidates[i]))
            && (forall i :: 0 <= i < n - 1 ==> GoesOn(a, i)) && (n < |candidates| ==> n > 0 && !GoesOn(a, n - 1))
  {
    TriedInOrder(s.values, c.key, CandidatesFrom(c.cur, c.top, 0), |c.top| < |c.cur|, 0, a);
  }

  /** What lit up is remembered, and found unless the own value could not be
      written back; the search breaks off where the camera or a missing maximum
      interrupts it. */
  lemma {:induction false} OneControlExactly(s: State, c: Control, a: Attempt)
    ensures var r, candidates := SearchOne(s, c, a), CandidatesFrom(c.cur, c.top, 0);
            var n := |r.writes| - 1;
            && 0 <= n <= |candidates|
            && (r.s.stored == if n > 0 && LightsUp(a, n - 1) then Some(r.writes[n - 1]) else s.stored)
            && (r.outcome.Aborted? <==> a.restore.Raises?)
            && (r.outcome.Found? <==> a.restore.Works? && n > 0 && LightsUp(a, n - 1))
            && (r.outcome.Found? ==> r.outcome.write == r.writes[n - 1])
            && (r.outcome.Broken? <==> a.restore.Works?
                                       && ((n > 0 && Interrupts(a, n - 1))
                                           || (|c.top| < |c.cur| && n == |candidates| && (n > 0 ==> GoesOn(a, n - 1)))))
  {
    TriedInOrder(s.values, c.key, CandidatesFrom(c.cur, c.top, 0), |c.top| < |c.cur|, 0, a);
  }
}
