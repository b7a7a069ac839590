/** The authenticator's commands: makeCredential, getAssertion with its silent
    form, getNextAssertion and reset (CTAP 2.1, sections 6.1 to 6.3 and 6.6). A
    signature is not modelled; a response says which command made it. */
module Authenticator {
  import opened Outcomes
  import opened CredentialStore

  const NEXT_ASSERTION_WINDOW := 30.0
  const CREDENTIAL_EXCLUDED := 0x19
  const OPERATION_DENIED := 0x27
  const KEEPALIVE_CANCEL := 0x2D
  const NO_CREDENTIALS := 0x2E
  const USER_ACTION_TIMEOUT := 0x2F
  const NOT_ALLOWED := 0x30
  const OTHER := 0x7F

  datatype Verdict = Success | TimedOut | NotConfirmed | Cancelled | Failed

  datatype UserInfo = UserInfo(handle: string, names: Option<(string, string)>)
  datatype Response = Response(id: Id, rp: string, verified: bool, count: nat, user: Option<UserInfo>,
                               total: Option<nat>, made: nat)

  datatype Output = NewKey(id: Id, rp: string) | Assertion(response: Response) | Fails(code: nat) | Nothing

  /** What one increment of a counter meets: the file as others left it, and
      whether saving works. */
  datatype Turn = Turn(outside: Option<seq<Credential>>, saves: bool)

  /** The turns that are not listed meet nothing unusual. */
  function TurnAt(turns: seq<Turn>, i: nat): Turn {
    if i < |turns| then turns[i] else Turn(None, true)
  }

  datatype Command =
    | Make(refused: Option<nat>, c: Credential, exclude: seq<Id>, verdict: Verdict, saves: bool)
    | Get(refused: Option<nat>, rp: string, allowed: Option<set<Id>>, silent: bool, verdict: Verdict, turns: seq<Turn>,
          noted: real)
    | GetNext(at: real, noted: real)
    | Reset(inTime: bool, verdict: Verdict)
    | Outside(file: seq<Credential>)

  /** The file, the list in memory, and the assertions waiting with their time. */
  datatype State = State(disk: seq<Credential>, list: seq<Credential>, waiting: seq<Response>, since: real)

  /** _verification_error */
  function ErrorOf(verdict: Verdict): nat {
    match verdict
    case TimedOut => USER_ACTION_TIMEOUT
    case NotConfirmed => USER_ACTION_TIMEOUT
    case Cancelled => KEEPALIVE_CANCEL
    case _ => OPERATION_DENIED
  }

  predicate IsExcluded(list: seq<Credential>, rp: string, exclude: seq<Id>) {
    exists i :: 0 <= i < |exclude| && var k := IndexOf(list, exclude[i]); k.Some? && list[k.value].rp == rp
  }

  function ResponseFor(c: Credential, count: nat, discoverable: bool, total: nat, made: nat): Response {
    Response(c.id, c.rp, true, count,
             if discoverable then Some(UserInfo(c.handle, if total > 1 then Some((c.userName, c.displayName)) else None))
             else None,
             if total > 1 then Some(total) else None, made)
  }

  function SilentResponse(c: Credential, made: nat): Response {
    Response(c.id, c.rp, false, c.count, None, None, made)
  }

  /** The loop of getAssertion over its matches. */
  datatype Ceremony = Ceremony(complete: bool, responses: seq<Response>, disk: seq<Credential>, list: seq<Credential>)

  function FileAt(turn: Turn, disk: seq<Credential>): seq<Credential> {
    if turn.outside.Some? then turn.outside.value else disk
  }

  /** One match: the response, if its counter could be written, and the file and list then. */
  datatype Tried = Tried(response: Result<Response>, disk: seq<Credential>, list: seq<Credential>)

  function Try(c: Credential, turn: Turn, disk: seq<Credential>, discoverable: bool, total: nat, made: nat): Tried {
    var found := FileAt(turn, disk);
    var count, next := CountOf(found, c.id), Incremented(found, c.id);
    if count.None? || !turn.saves then Tried(Refused, found, next)
    else Tried(Done(ResponseFor(c, count.value + 1, discoverable, total, made)), next, next)
  }

  function AssertAll(matches: seq<Credential>, i: nat, disk: seq<Credential>, list: seq<Credential>, turns: seq<Turn>,
                     discoverable: bool, made: nat): Ceremony
    requires i <= |matches|
    decreases |matches| - i
  {
    if i == |matches| then Ceremony(true, [], disk, list)
    else
      var tried := Try(matches[i], TurnAt(turns, i), disk, discoverable, |matches|, made);
      if tried.response.Refused? then Ceremony(false, [], tried.disk, tried.list)
      else Behind([tried.response.value], AssertAll(matches, i + 1, tried.disk, tried.list, turns, discoverable, made))
  }

  /** A ceremony with these responses in front. */
  function Behind(responses: seq<Response>, rest: Ceremony): Ceremony {
    rest.(responses := responses + rest.responses)
  }

  lemma {:induction false} AssertNext(responses: seq<Response>, matches: seq<Credential>, i: nat,
                                      disk: seq<Credential>, list: seq<Credential>, turns: seq<Turn>,
                                      discoverable: bool, made: nat)
    requires i < |matches|
    ensures var tried := Try(matches[i], TurnAt(turns, i), disk, discoverable, |matches|, made);
            Behind(responses, AssertAll(matches, i, disk, list, turns, discoverable, made))
            == if tried.response.Refused? then Ceremony(false, responses, tried.disk, tried.list)
               else Behind(responses + [tried.response.value],
                           AssertAll(matches, i + 1, tried.disk, tried.list, turns, discoverable, made))
  {
    var tried := Try(matches[i], TurnAt(turns, i), disk, discoverable, |matches|, made);
    if tried.response.Done? {
      BehindTwice(responses, [tried.response.value],
                  AssertAll(matches, i + 1, tried.disk, tried.list, turns, discoverable, made));
    } else {
      assert responses + [] == responses;
    }
  }

  /** What one turn of the loop makes of the whole. */
  lemma {:induction false} OneTurn(all: Ceremony, responses: seq<Response>, matches: seq<Credential>, i: nat,
                                   disk: seq<Credential>, list: seq<Credential>, turns: seq<Turn>, discoverable: bool,
                                   made: nat)
    returns (tried: Tried)
    requires i < |matches| && all == Behind(responses, AssertAll(matches, i, disk, list, turns, discoverable, made))
    ensures tried == Try(matches[i], TurnAt(turns, i), disk, discoverable, |matches|, made)
    ensures tried.response.Refused? ==> all == Ceremony(false, responses, tried.disk, tried.list)
    ensures tried.response.Done? ==>
      all == Behind(responses + [tried.response.value],
                    AssertAll(matches, i + 1, tried.disk, tried.list, turns, discoverable, made))
  {
    AssertNext(responses, matches, i, disk, list, turns, discoverable, made);
    tried := Try(matches[i], TurnAt(turns, i), disk, discoverable, |matches|, made);
  }

  lemma {:induction false} BehindTwice(a: seq<Response>, b: seq<Response>, rest: Ceremony)
    ensures Behind(a, Behind(b, rest)) == Behind(a + b, rest)
  {
    assert a + (b + rest.responses) == a + b + rest.responses;
  }

  /** One command, the made-th of a run. */
  function Do(s: State, command: Command, made: nat): (State, Output) {
    match command
    case Make(refused, c, exclude, verdict, saves) =>
      if refused.Some? then (s, Fails(refused.value))
      else if verdict != Success then (s, Fails(ErrorOf(verdict)))
      else if IsExcluded(s.list, c.rp, exclude) then (s, Fails(CREDENTIAL_EXCLUDED))
      else
        var list := Added(s.disk, c);
        if saves then (s.(disk := list, list := list), NewKey(c.id, c.rp)) else (s.(list := list), Fails(OTHER))
    case Get(refused, rp, allowed, silent, verdict, turns, noted) =>
      var matches := FindForRp(s.list, rp, allowed);
      if refused.Some? then (s, Fails(refused.value))
      else if matches == [] then (s, Fails(NO_CREDENTIALS))
      else if silent then (s, Assertion(SilentResponse(matches[0], made)))
      else if verdict != Success then (s, Fails(ErrorOf(verdict)))
      else
        var all := AssertAll(matches, 0, s.disk, s.list, turns, allowed.None?, made);
        var s' := s.(disk := all.disk, list := all.list);
        if !all.complete || all.responses == [] then (s', Fails(OTHER))
        else (s'.(waiting := all.responses[1..], since := noted), Assertion(all.responses[0]))
    case GetNext(at, noted) =>
      if s.waiting == [] then (s, Fails(NOT_ALLOWED))
      else if at - s.since > NEXT_ASSERTION_WINDOW then (s.(waiting := []), Fails(NOT_ALLOWED))
      else (s.(waiting := s.waiting[1..], since := noted), Assertion(s.waiting[0].(total := None)))
    case Reset(inTime, verdict) =>
      if !inTime then (s, Fails(NOT_ALLOWED))
      else if verdict != Success then (s, Fails(ErrorOf(verdict)))
      else (s.(disk := [], list := []), Nothing)
    case Outside(file) => (s.(disk := file), Nothing)
  }

  // -------------------------------------------------------------- the object

  class Device {
    const store: Store
    var waiting: seq<Response>
    var since: real

    constructor (store: Store)
      ensures this.store == store && waiting == [] && since == 0.0
    {
      this.store, waiting, since := store, [], 0.0;
    }

    function Value(): State
      reads this, store, store.file
    {
      State(store.file.Listed(), store.credentials, waiting, since)
    }

    method MakeCredential(refused: Option<nat>, c: Credential, exclude: seq<Id>, verdict: Verdict, saves: bool,
                          made: nat)
      returns (out: Output)
      modifies this, store, store.file
      ensures (Value(), out) == Do(old(Value()), Make(refused, c, exclude, verdict, saves), made)
    {
      if refused.Some? {
        return Fails(refused.value);
      }
      var excluded, i := false, 0;
      while i < |exclude| && !excluded
        invariant 0 <= i <= |exclude| && Value() == old(Value())
        invariant excluded ==> IsExcluded(store.credentials, c.rp, exclude)
        invariant !excluded ==> !IsExcluded(store.credentials, c.rp, exclude[..i])
      {
        var k := store.FindById(exclude[i]);
        if k.Some? && store.credentials[k.value].rp == c.rp {
          excluded := true;
        } else {
          assert forall j :: 0 <= j < i ==> exclude[..i + 1][j] == exclude[..i][j];
        }
        i := i + 1;
      }
      assert exclude[..|exclude|] == exclude;
      if verdict != Success {
        return Fails(ErrorOf(verdict));
      }
      if excluded {
        return Fails(CREDENTIAL_EXCLUDED);
      }
      var ok := store.Add(c, saves);
      return if ok then NewKey(c.id, c.rp) else Fails(OTHER);
    }

    method GetAssertion(refused: Option<nat>, rp: string, allowed: Option<set<Id>>, silent: bool, verdict: Verdict,
                        turns: seq<Turn>, noted: real, made: nat)
      returns (out: Output)
      modifies this, store, store.file
      ensures (Value(), out) == Do(old(Value()), Get(refused, rp, allowed, silent, verdict, turns, noted), made)
    {
      if refused.Some? {
        return Fails(refused.value);
      }
      var matches := FindForRp(store.credentials, rp, allowed);
      if matches == [] {
        return Fails(NO_CREDENTIALS);
      }
      if silent {
        return Assertion(SilentResponse(matches[0], made));
      }
      if verdict != Success {
        return Fails(ErrorOf(verdict));
      }
      var complete, responses := AssertEach(matches, turns, allowed.None?, made);
      if !complete {
        return Fails(OTHER);
      }
      waiting, since := responses[1..], noted;
      return Assertion(responses[0]);
    }

    /** _assert_credential: the counter is on disk before there is a response. */
    method AssertCredential(c: Credential, turn: Turn, discoverable: bool, total: nat, made: nat)
      returns (r: Result<Response>)
      modifies store, store.file
      ensures Tried(r, store.file.Listed(), store.credentials)
              == Try(c, turn, old(store.file.Listed()), discoverable, total, made)
    {
      if turn.outside.Some? {
        store.file.content := turn.outside;
      }
      var count := store.IncrementCounter(c.id, turn.saves);
      if count.Refused? {
        return Refused;
      }
      return Done(ResponseFor(c, count.value, discoverable, total, made));
    }

    /** The comprehension over the matches: a counter that cannot be written ends it. */
    method AssertEach(matches: seq<Credential>, turns: seq<Turn>, discoverable: bool, made: nat)
      returns (complete: bool, responses: seq<Response>)
      modifies store, store.file
      ensures Ceremony(complete, responses, store.file.Listed(), store.credentials)
           == AssertAll(matches, 0, old(store.file.Listed()), old(store.credentials), turns, discoverable, made)
      ensures complete ==> |responses| == |matches|
    {
      ghost var disk, list := store.file.Listed(), store.credentials;
      ghost var all := AssertAll(matches, 0, disk, list, turns, discoverable, made);
      responses := [];
      var i := 0;
      while i < |matches|
        invariant 0 <= i <= |matches| && |responses| == i && disk == store.file.Listed() && list == store.credentials
        invariant all == Behind(responses, AssertAll(matches, i, disk, list, turns, discoverable, made))
      {
        ghost var tried := OneTurn(all, responses, matches, i, disk, list, turns, discoverable, made);
        var r := AssertCredential(matches[i], TurnAt(turns, i), discoverable, |matches|, made);
        if r.Refused? {
          return false, responses;
        }
        responses := responses + [r.value];
        disk, list := store.file.Listed(), store.credentials;
        i := i + 1;
      }
      assert responses + [] == responses;
      complete := true;
    }

    method GetNextAssertion(at: real, noted: real, made: nat) returns (out: Output)
      modifies this
      ensures (Value(), out) == Do(old(Value()), GetNext(at, noted), made)
    {
      if waiting == [] {
        return Fails(NOT_ALLOWED);
      }
      if at - since > NEXT_ASSERTION_WINDOW {
        waiting := [];
        return Fails(NOT_ALLOWED);
      }
      var response := waiting[0];
      waiting, since := waiting[1..], noted;
      return Assertion(response.(total := None));
    }
  }

  // ------------------------------------------------------------ the ceremony

  /** A verified response for the credential, with the number of matches if there are several. */
  predicate Answers(r: Response, c: Credential, total: nat, made: nat) {
    r.id == c.id && r.rp == c.rp && r.verified && r.made == made && r.total == (if total > 1 then Some(total) else None)
  }

  /** All or nothing: a completed loop answers for every match, in order. */
  lemma {:induction false} AssertAllMatches(matches: seq<Credential>, i: nat, disk: seq<Credential>,
                                            list: seq<Credential>, turns: seq<Turn>, discoverable: bool, made: nat)
    requires i <= |matches|
    ensures var all := AssertAll(matches, i, disk, list, turns, discoverable, made);
            && |all.responses| <= |matches| - i && (all.complete ==> |all.responses| == |matches| - i)
            && forall k :: 0 <= k < |all.responses| ==> Answers(all.responses[k], matches[i + k], |matches|, made)
    decreases |matches| - i
  {
    if i < |matches| {
      var tried := Try(matches[i], TurnAt(turns, i), disk, discoverable, |matches|, made);
      AssertAllMatches(matches, i + 1, tried.disk, tried.list, turns, discoverable, made);
      AnswersBehind(AssertAll(matches, i + 1, tried.disk, tried.list, turns, discoverable, made).responses, matches, i,
                    made, discoverable);
    }
  }

  lemma {:induction false} AnswersBehind(rest: seq<Response>, matches: seq<Credential>, i: nat, made: nat,
                                         discoverable: bool)
    requires i < |matches| && |rest| <= |matches| - i - 1
    requires forall k :: 0 <= k < |rest| ==> Answers(rest[k], matches[i + 1 + k], |matches|, made)
    ensures forall count: nat, k :: 0 <= k <= |rest| ==>
      Answers(([ResponseFor(matches[i], count, discoverable, |matches|, made)] + rest)[k], matches[i + k], |matches|,
              made)
  {
  }

  /** The outputs of a run, whose first command is the made-th. */
  function Outputs(s: State, commands: seq<Command>, made: nat): (outs: seq<Output>)
    ensures |outs| == |commands|
    decreases |commands|
  {
    if commands == [] then []
    else var (s', out) := Do(s, commands[0], made); [out] + Outputs(s', commands[1..], made + 1)
  }

  /** A getAssertion that was verified and answered: it starts a ceremony. */
  predicate Begins(s: State, get: Command, made: nat) {
    get.Get? && !get.silent && Do(s, get, made).1.Assertion?
  }

  /** getNextAssertion again and again, each within the window of the one before,
      and in between any commands that start no new ceremony: refused, silent and
      unverified getAssertions, those whose counter cannot be written, and all others. */
  predicate InWindow(s: State, commands: seq<Command>, made: nat, since: real)
    decreases |commands|
  {
    commands == [] ||
    var s', rest := Do(s, commands[0], made).0, commands[1..];
    if commands[0].GetNext? then
      commands[0].at - since <= NEXT_ASSERTION_WINDOW && InWindow(s', rest, made + 1, commands[0].noted)
    else !Begins(s, commands[0], made) && InWindow(s', rest, made + 1, since)
  }

  /** The outputs of the getNextAssertion calls. */
  function NextOutputs(commands: seq<Command>, outs: seq<Output>): seq<Output>
    requires |commands| == |outs|
  {
    if commands == [] then []
    else (if commands[0].GetNext? then [outs[0]] else []) + NextOutputs(commands[1..], outs[1..])
  }

  /** What waits changes with a getNextAssertion that finds something, which takes
      from it, and with a new ceremony, which replaces it; with nothing else. */
  lemma {:induction false} WaitingChanges(s: State, command: Command, made: nat)
    ensures var s' := Do(s, command, made).0;
            && (command.GetNext? && s.waiting != [] ==> |s'.waiting| < |s.waiting|)
            && (Begins(s, command, made)
                ==> s'.since == command.noted && forall i :: 0 <= i < |s'.waiting| ==> s'.waiting[i].made == made)
            && (!(command.GetNext? && s.waiting != []) && !Begins(s, command, made)
                ==> s'.waiting == s.waiting && s'.since == s.since)
  {
    if Begins(s, command, made) {
      BeginsCeremony(s, command, made);
    }
  }

  /** What waits comes out in order, once each and without the count; then nothing does. */
  lemma {:induction false} WaitingComeOut(s: State, commands: seq<Command>, made: nat, since: real, i: nat)
    requires InWindow(s, commands, made, since) && (s.waiting != [] ==> s.since == since)
    requires i < |NextOutputs(commands, Outputs(s, commands, made))|
    ensures NextOutputs(commands, Outputs(s, commands, made))[i]
         == if i < |s.waiting| then Assertion(s.waiting[i].(total := None)) else Fails(NOT_ALLOWED)
    decreases |commands|
  {
    var (s', out) := Do(s, commands[0], made);
    var rest := commands[1..];
    var outs := Outputs(s', rest, made + 1);
    assert Outputs(s, commands, made) == [out] + outs;
    assert ([out] + outs)[1..] == outs;
    if commands[0].GetNext? {
      if i > 0 {
        WaitingComeOut(s', rest, made + 1, commands[0].noted, i - 1);
      }
    } else {
      WaitingChanges(s, commands[0], made);
      WaitingComeOut(s', rest, made + 1, since, i);
    }
  }

  lemma {:induction false} BeginsCeremony(s: State, get: Command, made: nat)
    requires Begins(s, get, made)
    ensures var matches, (s', out) := FindForRp(s.list, get.rp, get.allowed), Do(s, get, made);
            && get.verdict == Success && |s'.waiting| + 1 == |matches| && s'.since == get.noted
            && (forall i :: 0 <= i < |s'.waiting| ==>
                  s'.waiting[i].id == matches[i + 1].id && s'.waiting[i].verified && s'.waiting[i].made == made
                    && s'.waiting[i].rp == matches[i + 1].rp)
            && out.response.id == matches[0].id && out.response.rp == matches[0].rp && out.response.verified
               && out.response.made == made
            && out.response.total == (if |matches| > 1 then Some(|matches|) else None)
  {
    var matches := FindForRp(s.list, get.rp, get.allowed);
    AssertAllMatches(matches, 0, s.disk, s.list, get.turns, get.allowed.None?, made);
  }

  /** getAssertion, then getNextAssertion within the window: the matched
      credentials come out one by one, newest first, each made by that
      getAssertion; their number is on the first alone; and then no more come. */
  lemma {:induction false} CeremonyReturnsEach(s: State, get: Command, commands: seq<Command>, made: nat, i: nat)
    requires Begins(s, get, made) && InWindow(Do(s, get, made).0, commands, made + 1, get.noted)
    requires i < |NextOutputs(commands, Outputs(Do(s, get, made).0, commands, made + 1))|
    ensures var matches, first := FindForRp(s.list, get.rp, get.allowed), Do(s, get, made).1.response;
            && |matches| == |Do(s, get, made).0.waiting| + 1 && first.id == matches[0].id
               && first.total == (if |matches| > 1 then Some(|matches|) else None)
            && var out := NextOutputs(commands, Outputs(Do(s, get, made).0, commands, made + 1))[i];
               if i + 1 < |matches| then out.Assertion? && out.response.id == matches[i + 1].id && out.response.verified
                                         && out.response.made == made && out.response.total.None?
                                         && out == Assertion(Do(s, get, made).0.waiting[i].(total := None))
               else out == Fails(NOT_ALLOWED)
    ensures get.verdict == Success
  {
    BeginsCeremony(s, get, made);
    WaitingComeOut(Do(s, get, made).0, commands, made + 1, get.noted, i);
  }

  /** A reset in the middle of a ceremony destroys the credentials and not what
      waits: the next assertion of one of them is still handed out. */
  lemma {:induction false} ResetKeepsWaiting(s: State, at: real, noted: real, made: nat)
    requires s.waiting != [] && at - s.since <= NEXT_ASSERTION_WINDOW
    ensures var reset := Do(s, Reset(true, Success), made).0; var out := Do(reset, GetNext(at, noted), made + 1).1;
            && reset.disk == [] && reset.list == [] && out == Assertion(s.waiting[0].(total := None))
            && CountOf(reset.disk, out.response.id).None?
  {
  }

  predicate DistinctIds(cs: seq<Credential>) {
    forall i, j :: 0 <= i < j < |cs| ==> cs[i].id != cs[j].id
  }

  lemma {:induction false} MatchingIsPart(cs: seq<Credential>, rp: string, allowed: Option<set<Id>>)
    ensures forall c :: c in Matching(cs, rp, allowed)
                        <==> c in cs && c.rp == rp && (if allowed.Some? then c.id in allowed.value else c.resident)
    ensures DistinctIds(cs) ==> DistinctIds(Matching(cs, rp, allowed))
  {
    if cs != [] {
      var tail := cs[1..];
      MatchingIsPart(tail, rp, allowed);
      var rest := Matching(tail, rp, allowed);
      assert cs == [cs[0]] + tail;
      if DistinctIds(cs) {
        assert DistinctIds(tail);
        forall j | 0 <= j < |rest| ensures rest[j].id != cs[0].id {
          assert rest[j] in tail;
        }
      }
    }
  }

  lemma {:induction false} InsertKeepsDistinct(c: Credential, cs: seq<Credential>)
    requires DistinctIds(cs) && forall i :: 0 <= i < |cs| ==> cs[i].id != c.id
    ensures DistinctIds(InsertNewest(c, cs)) && forall x :: x in InsertNewest(c, cs) <==> x == c || x in cs
  {
    if cs != [] && cs[0].created > c.created {
      var rest := InsertNewest(c, cs[1..]);
      assert DistinctIds(cs[1..]);
      InsertKeepsDistinct(c, cs[1..]);
      assert cs == [cs[0]] + cs[1..];
      forall j | 0 <= j < |rest| ensures rest[j].id != cs[0].id {
        assert rest[j] in rest;
        assert rest[j] == c || rest[j] in cs[1..];
      }
    }
  }

  lemma {:induction false} NewestKeepsDistinct(cs: seq<Credential>)
    requires DistinctIds(cs)
    ensures DistinctIds(NewestFirst(cs)) && forall x :: x in NewestFirst(cs) <==> x in cs
  {
    if cs != [] {
      assert DistinctIds(cs[1..]);
      NewestKeepsDistinct(cs[1..]);
      assert cs == [cs[0]] + cs[1..];
      var rest := NewestFirst(cs[1..]);
      forall i | 0 <= i < |rest| ensures rest[i].id != cs[0].id {
        assert rest[i] in rest;
      }
      InsertKeepsDistinct(cs[0], rest);
    }
  }

  /** The matches: exactly the credentials of the relying party that the request
      allows, no id twice, newest first. */
  lemma {:induction false} MatchesAreExact(list: seq<Credential>, rp: string, allowed: Option<set<Id>>)
    requires DistinctIds(list)
    ensures var matches := FindForRp(list, rp, allowed);
            && (forall c :: c in matches
                       <==> c in list && c.rp == rp && (if allowed.Some? then c.id in allowed.value else c.resident))
            && DistinctIds(matches) && Descending(matches)
  {
    MatchingIsPart(list, rp, allowed);
    NewestKeepsDistinct(Matching(list, rp, allowed));
    NewestFirstIsStableSort(Matching(list, rp, allowed), 0.0);
  }

  // ------------------------------------------------------------ verification

  /** The response was made by a getAssertion for its relying party whose own verification succeeded. */
  predicate WasVerified(commands: seq<Command>, r: Response) {
    r.made < |commands| && var c := commands[r.made]; c.Get? && !c.silent && c.verdict == Success && c.rp == r.rp
  }

  predicate AllVerified(commands: seq<Command>, waiting: seq<Response>) {
    forall i :: 0 <= i < |waiting| ==> WasVerified(commands, waiting[i])
  }

  lemma {:induction false} MatchingRp(cs: seq<Credential>, rp: string, allowed: Option<set<Id>>)
    ensures forall i :: 0 <= i < |FindForRp(cs, rp, allowed)| ==> FindForRp(cs, rp, allowed)[i].rp == rp
  {
    MatchingIsPart(cs, rp, allowed);
    var found, matches := Matching(cs, rp, allowed), FindForRp(cs, rp, allowed);
    NewestFirstIsStableSort(found, 0.0);
    forall i | 0 <= i < |matches| ensures matches[i].rp == rp {
      assert matches[i] in multiset(matches);
      assert matches[i] in found;
    }
  }

  lemma {:induction false} StepVerified(s: State, past: seq<Command>, command: Command)
    requires AllVerified(past, s.waiting)
    ensures var (s', out) := Do(s, command, |past|); var now := past + [command];
            && AllVerified(now, s'.waiting)
            && (out.Assertion? && out.response.verified ==> WasVerified(now, out.response))
            && (out.NewKey? ==> command.Make? && command.verdict == Success)
  {
    assert forall i :: 0 <= i < |s.waiting| ==> WasVerified(past + [command], s.waiting[i]);
    if Begins(s, command, |past|) {
      BeginsCeremony(s, command, |past|);
      MatchingRp(s.list, command.rp, command.allowed);
    }
  }

  /** In every run: a new key comes from a command whose own verification
      succeeded, and so does every assertion that claims one, handed out then or later. */
  lemma {:induction false} EveryUseIsVerified(s: State, past: seq<Command>, commands: seq<Command>, i: nat)
    requires AllVerified(past, s.waiting) && i < |commands|
    ensures var out := Outputs(s, commands, |past|)[i];
            && (out.NewKey? ==> commands[i].Make? && commands[i].verdict == Success)
            && (out.Assertion? && out.response.verified
                ==> WasVerified(past + commands, out.response) && out.response.made <= |past| + i)
    decreases |commands|
  {
    var (s', out) := Do(s, commands[0], |past|);
    StepVerified(s, past, commands[0]);
    var now := past + [commands[0]];
    assert past + commands == now + commands[1..];
    if i > 0 {
      EveryUseIsVerified(s', now, commands[1..], i - 1);
    } else if out.Assertion? && out.response.verified {
      assert (past + commands)[out.response.made] == now[out.response.made];
    }
  }

  lemma {:induction false} FirstIsListed(list: seq<Credential>, rp: string, allowed: Option<set<Id>>)
    requires FindForRp(list, rp, allowed) != []
    ensures CountOf(list, FindForRp(list, rp, allowed)[0].id).Some?
  {
    var found, matches := Matching(list, rp, allowed), FindForRp(list, rp, allowed);
    MatchingIsPart(list, rp, allowed);
    NewestFirstIsStableSort(found, 0.0);
    assert matches[0] in multiset(matches);
    assert matches[0] in found;
    var k :| 0 <= k < |list| && list[k] == matches[0];
    NotFound(list, matches[0].id);
  }

  /** The silent form changes nothing, and its answer claims nothing. */
  lemma {:induction false} SilentChangesNothing(s: State, get: Command, made: nat)
    requires get.Get? && get.silent
    ensures var (s', out) := Do(s, get, made);
            s' == s && (out.Assertion? ==> !out.response.verified && CountOf(s.list, out.response.id).Some?)
  {
    if FindForRp(s.list, get.rp, get.allowed) != [] {
      FirstIsListed(s.list, get.rp, get.allowed);
    }
  }

  // ---------------------------------------------------------- what is refused

  /** CTAP's codes for a verification that failed: USER_ACTION_TIMEOUT when it ran
      out or saw no Enter, KEEPALIVE_CANCEL when it was cancelled, else OPERATION_DENIED. */
  function Denial(verdict: Verdict): nat {
    if verdict == TimedOut || verdict == NotConfirmed then 0x2F else if verdict == Cancelled then 0x2D else 0x27
  }

  /** Whether a credential is excluded is said only to a verified user: without the
      verification the answer is the same for every list and every exclude list,
      and nothing changes. */
  lemma {:induction false} NothingIsDisclosed(s: State, make: Command, made: nat)
    requires make.Make? && make.refused.None? && make.verdict != Success
    ensures Do(s, make, made) == (s, Fails(Denial(make.verdict)))
  {
  }

  /** A verified makeCredential is refused exactly when the exclude list has the id
      of a credential of the same relying party; else the new one is in the file,
      unless it cannot be saved. */
  lemma {:induction false} MadeExactly(s: State, make: Command, made: nat)
    requires make.Make? && make.refused.None? && make.verdict == Success && DistinctIds(s.list)
    ensures var (s', out) := Do(s, make, made);
            var excluded := exists k :: 0 <= k < |s.list| && s.list[k].id in make.exclude && s.list[k].rp == make.c.rp;
            && (out == Fails(0x19) <==> excluded)
            && (out == NewKey(make.c.id, make.c.rp) <==> !excluded && make.saves)
            && (s'.disk == if !excluded && make.saves then Added(s.disk, make.c) else s.disk)
            && s'.waiting == s.waiting
  {
    ExcludedExactly(s.list, make.c.rp, make.exclude);
  }

  lemma {:induction false} ExcludedExactly(list: seq<Credential>, rp: string, exclude: seq<Id>)
    requires DistinctIds(list)
    ensures IsExcluded(list, rp, exclude) <==> exists k :: 0 <= k < |list| && list[k].id in exclude && list[k].rp == rp
  {
    if k :| 0 <= k < |list| && list[k].id in exclude && list[k].rp == rp {
      var i :| 0 <= i < |exclude| && exclude[i] == list[k].id;
      NotFound(list, exclude[i]);
      assert IndexOf(list, exclude[i]).value == k;
    }
  }

  /** A reset in time and verified empties the store, any other does nothing. */
  lemma {:induction false} ResetExactly(s: State, reset: Command, made: nat)
    requires reset.Reset?
    ensures var (s', out) := Do(s, reset, made);
            if !reset.inTime then s' == s && out == Fails(0x30)
            else if reset.verdict != Success then s' == s && out == Fails(Denial(reset.verdict))
            else s'.disk == [] && s'.list == [] && out == Nothing
  {
  }

  /** getNextAssertion: more than 30 seconds after the last one there is none any
      more, and none waits. */
  lemma {:induction false} NextExactly(s: State, next: Command, made: nat)
    requires next.GetNext?
    ensures var (s', out) := Do(s, next, made);
            && s'.disk == s.disk && s'.list == s.list
            && (if s.waiting == [] || next.at - s.since > 30.0 then out == Fails(0x30) && s'.waiting == []
                else out == Assertion(s.waiting[0].(total := None)) && s'.waiting == s.waiting[1..]
                     && s'.since == next.noted)
  {
  }
}
