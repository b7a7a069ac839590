/** What a verified assertion says besides who it is for: the counter, one more
    than in the file its increment found, and the user's names. And over runs:
    the counters of one credential only rise. */
module AssertionCounts {
  import opened Sequences
  import opened Outcomes
  import opened CredentialStore
  import opened Authenticator

  /** The file the k-th increment of a getAssertion finds. */
  function FoundBy(matches: seq<Credential>, disk: seq<Credential>, turns: seq<Turn>, k: nat): seq<Credential>
    requires k < |matches|
    decreases k, 1
  {
    FileAt(TurnAt(turns, k), LeftBefore(matches, disk, turns, k))
  }

  /** What the increments before the k-th leave. */
  function LeftBefore(matches: seq<Credential>, disk: seq<Credential>, turns: seq<Turn>, k: nat): seq<Credential>
    requires k <= |matches|
    decreases k, 0
  {
    if k == 0 then disk else Incremented(FoundBy(matches, disk, turns, k - 1), matches[k - 1].id)
  }

  /** The response to a match: the counter is the next one; the user handle is in
      it exactly without an allow list, and the names exactly when there is also
      more than one match; so is the number of matches. */
  predicate Responds(r: Response, c: Credential, count: nat, listed: bool, total: nat, made: nat) {
    && r.id == c.id && r.rp == c.rp && r.verified && r.made == made && r.count == count + 1
    && (r.user.Some? <==> !listed) && (r.user.Some? ==> r.user.value.handle == c.handle)
    && (r.user.Some? ==> (r.user.value.names.Some? <==> total > 1))
    && (r.user.Some? && total > 1 ==> r.user.value.names.value == (c.userName, c.displayName))
    && (r.total.Some? <==> total > 1) && (total > 1 ==> r.total.value == total)
  }

  /** A response to the j-th match. */
  predicate RespondsAt(r: Response, matches: seq<Credential>, j: nat, disk: seq<Credential>, turns: seq<Turn>,
                       listed: bool, made: nat)
    requires j < |matches|
  {
    var count := CountOf(FoundBy(matches, disk, turns, j), matches[j].id);
    count.Some? && Responds(r, matches[j], count.value, listed, |matches|, made)
  }

  predicate AllRespond(responses: seq<Response>, matches: seq<Credential>, i: nat, disk: seq<Credential>,
                       turns: seq<Turn>, listed: bool, made: nat)
  {
    && i + |responses| <= |matches|
    && forall k :: 0 <= k < |responses| ==> RespondsAt(responses[k], matches, i + k, disk, turns, listed, made)
  }

  lemma {:induction false} RespondBehind(r: Response, rest: seq<Response>, matches: seq<Credential>, i: nat,
                                         disk: seq<Credential>, turns: seq<Turn>, listed: bool, made: nat)
    requires i < |matches| && RespondsAt(r, matches, i, disk, turns, listed, made)
    requires AllRespond(rest, matches, i + 1, disk, turns, listed, made)
    ensures AllRespond([r] + rest, matches, i, disk, turns, listed, made)
  {
    var all := [r] + rest;
    forall k | 0 <= k < |all| ensures RespondsAt(all[k], matches, i + k, disk, turns, listed, made) {
      if k > 0 {
        assert RespondsAt(rest[k - 1], matches, i + 1 + (k - 1), disk, turns, listed, made);
      }
    }
  }

  /** The loop of a getAssertion from its i-th match on. */
  lemma {:induction false} LoopResponds(matches: seq<Credential>, i: nat, disk: seq<Credential>, list: seq<Credential>,
                                        turns: seq<Turn>, listed: bool, made: nat)
    requires i <= |matches|
    ensures var all := AssertAll(matches, i, LeftBefore(matches, disk, turns, i), list, turns, !listed, made);
            AllRespond(all.responses, matches, i, disk, turns, listed, made)
            && (all.complete ==> |all.responses| == |matches| - i
                                 && all.disk == LeftBefore(matches, disk, turns, |matches|))
    decreases |matches| - i
  {
    if i < |matches| {
      var left := LeftBefore(matches, disk, turns, i);
      var tried, rest := LoopTurn(matches, i, left, list, turns, !listed, made);
      if tried.response.Done? {
        TryResponds(matches, i, disk, turns, listed, made);
        LoopResponds(matches, i + 1, disk, tried.list, turns, listed, made);
        RespondBehind(tried.response.value, rest.responses, matches, i, disk, turns, listed, made);
      }
    }
  }

  lemma {:induction false} TryResponds(matches: seq<Credential>, i: nat, disk: seq<Credential>, turns: seq<Turn>,
                                       listed: bool, made: nat)
    requires i < |matches|
    ensures var tried := Try(matches[i], TurnAt(turns, i), LeftBefore(matches, disk, turns, i), !listed, |matches|,
                             made);
            tried.response.Done?
            ==> tried.disk == LeftBefore(matches, disk, turns, i + 1)
                && RespondsAt(tried.response.value, matches, i, disk, turns, listed, made)
  {
  }

  /** One turn of the loop, and the rest of it. */
  lemma {:induction false} LoopTurn(matches: seq<Credential>, i: nat, disk: seq<Credential>, list: seq<Credential>,
                                    turns: seq<Turn>, discoverable: bool, made: nat)
    returns (tried: Tried, rest: Ceremony)
    requires i < |matches|
    ensures tried == Try(matches[i], TurnAt(turns, i), disk, discoverable, |matches|, made)
    ensures tried.response.Done?
            ==> rest == AssertAll(matches, i + 1, tried.disk, tried.list, turns, discoverable, made)
    ensures var all := AssertAll(matches, i, disk, list, turns, discoverable, made);
            if tried.response.Refused? then !all.complete && all.responses == []
            else all.complete == rest.complete && all.disk == rest.disk
                 && all.responses == [tried.response.value] + rest.responses
  {
    tried := Try(matches[i], TurnAt(turns, i), disk, discoverable, |matches|, made);
    rest := AssertAll(matches, i + 1, tried.disk, tried.list, turns, discoverable, made);
  }

  /** The answer of a verified getAssertion, and what waits behind it. */
  function Answered(s: State, get: Command, made: nat): seq<Response>
    requires Begins(s, get, made)
  {
    var (s', out) := Do(s, get, made);
    [out.response] + s'.waiting
  }

  /** A verified getAssertion answers for every match, each time with the next
      counter of the file its increment finds. */
  lemma {:induction false} CountsAreNext(s: State, get: Command, made: nat)
    requires Begins(s, get, made)
    ensures var matches := FindForRp(s.list, get.rp, get.allowed);
            && |Answered(s, get, made)| == |matches|
            && AllRespond(Answered(s, get, made), matches, 0, s.disk, get.turns, get.allowed.Some?, made)
            && Do(s, get, made).0.disk == LeftBefore(matches, s.disk, get.turns, |matches|)
  {
    var matches := FindForRp(s.list, get.rp, get.allowed);
    LoopResponds(matches, 0, s.disk, s.list, get.turns, get.allowed.Some?, made);
    var all := AssertAll(matches, 0, s.disk, s.list, get.turns, get.allowed.None?, made);
    First(all.responses);
  }

  // --------------------------------------------- what increments do to counts

  lemma {:induction false} SameIndex(cs: seq<Credential>, next: seq<Credential>, id: Id)
    requires |cs| == |next| && forall i :: 0 <= i < |cs| ==> cs[i].id == next[i].id
    ensures IndexOf(next, id) == IndexOf(cs, id)
  {
    if cs != [] {
      forall i | 0 <= i < |cs[1..]| ensures cs[1..][i].id == next[1..][i].id {
        assert cs[i + 1].id == next[i + 1].id;
      }
      SameIndex(cs[1..], next[1..], id);
    }
  }

  /** On every list: one count goes up by one, the others stay. */
  lemma {:induction false} IncrementedCounts(cs: seq<Credential>, id: Id, other: Id)
    ensures CountOf(Incremented(cs, id), other)
         == if other == id && CountOf(cs, id).Some? then Some(CountOf(cs, id).value + 1) else CountOf(cs, other)
  {
    SameIndex(cs, Incremented(cs, id), other);
    var i := IndexOf(cs, id);
    if i.Some? && other != id && IndexOf(cs, other).Some? {
      assert cs[IndexOf(cs, other).value].id == other;
    }
  }

  predicate NobodyElse(matches: seq<Credential>, turns: seq<Turn>) {
    forall k :: 0 <= k < |matches| ==> TurnAt(turns, k).outside.None?
  }

  /** With nobody else at the file, a counter raised is left as it is by the
      increments of other credentials. */
  lemma {:induction false} CountStays(matches: seq<Credential>, disk: seq<Credential>, turns: seq<Turn>, k: nat, n: nat)
    requires k < n <= |matches| && DistinctIds(matches) && NobodyElse(matches, turns)
    requires CountOf(FoundBy(matches, disk, turns, k), matches[k].id).Some?
    ensures CountOf(LeftBefore(matches, disk, turns, n), matches[k].id)
         == Some(CountOf(FoundBy(matches, disk, turns, k), matches[k].id).value + 1)
    decreases n
  {
    var id := matches[k].id;
    IncrementedCounts(FoundBy(matches, disk, turns, n - 1), matches[n - 1].id, id);
    if n - 1 > k {
      CountStays(matches, disk, turns, k, n - 1);
      assert matches[n - 1].id != id;
      assert FoundBy(matches, disk, turns, n - 1) == LeftBefore(matches, disk, turns, n - 1);
    }
  }

  /** Then every counter handed out is the one in the file left behind. */
  lemma {:induction false} CountsAreOnDisk(s: State, get: Command, made: nat, k: nat)
    requires Begins(s, get, made) && DistinctIds(s.list) && k < |Answered(s, get, made)|
    requires NobodyElse(FindForRp(s.list, get.rp, get.allowed), get.turns)
    ensures var r := Answered(s, get, made)[k]; CountOf(Do(s, get, made).0.disk, r.id) == Some(r.count)
  {
    var matches := FindForRp(s.list, get.rp, get.allowed);
    CountsAreNext(s, get, made);
    MatchesAreExact(s.list, get.rp, get.allowed);
    assert RespondsAt(Answered(s, get, made)[k], matches, 0 + k, s.disk, get.turns, get.allowed.Some?, made);
    CountStays(matches, s.disk, get.turns, k, |matches|);
  }

  // ---------------------------------------------------------------- over runs

  /** The files a getAssertion meets and leaves, in their order. */
  function TurnFiles(matches: seq<Credential>, i: nat, disk: seq<Credential>, turns: seq<Turn>): seq<seq<Credential>>
    requires i <= |matches|
    decreases |matches| - i
  {
    if i == |matches| then []
    else
      var found := FileAt(TurnAt(turns, i), disk);
      var next := Incremented(found, matches[i].id);
      if CountOf(found, matches[i].id).None? || !TurnAt(turns, i).saves then [found]
      else [found, next] + TurnFiles(matches, i + 1, next, turns)
  }

  function CommandFiles(s: State, command: Command, made: nat): seq<seq<Credential>> {
    if command.Get? && command.refused.None? && !command.silent && command.verdict == Success
    then TurnFiles(FindForRp(s.list, command.rp, command.allowed), 0, s.disk, command.turns)
    else [Do(s, command, made).0.disk]
  }

  /** What one command makes: the verified assertions, and the contents the
      credential file has meanwhile. */
  datatype Made = Made(responses: seq<Response>, files: seq<seq<Credential>>)

  function MadeBy(s: State, command: Command, made: nat): Made {
    Made(if Begins(s, command, made) then Answered(s, command, made) else [], CommandFiles(s, command, made))
  }

  function Trace(s: State, commands: seq<Command>, made: nat): seq<Made>
    decreases |commands|
  {
    if commands == [] then []
    else [MadeBy(s, commands[0], made)] + Trace(Do(s, commands[0], made).0, commands[1..], made + 1)
  }

  function FilesOf(trace: seq<Made>): seq<seq<Credential>> {
    if trace == [] then [] else trace[0].files + FilesOf(trace[1..])
  }

  function ResponsesOf(trace: seq<Made>): seq<Response> {
    if trace == [] then [] else trace[0].responses + ResponsesOf(trace[1..])
  }

  /** Every content the credential file has during a run. */
  function Files(s: State, commands: seq<Command>, made: nat): seq<seq<Credential>> {
    FilesOf(Trace(s, commands, made))
  }

  /** Nobody puts back a file with a lower counter for the credential. */
  ghost predicate NeverLowered(files: seq<seq<Credential>>, id: Id) {
    forall a, b :: 0 <= a <= b < |files| && CountOf(files[a], id).Some? && CountOf(files[b], id).Some?
                   ==> CountOf(files[a], id).value <= CountOf(files[b], id).value
  }

  /** The verified assertions of a run, in the order they are made. */
  function Asserted(s: State, commands: seq<Command>, made: nat): seq<Response> {
    ResponsesOf(Trace(s, commands, made))
  }

  /** Raised from one file to the next. */
  predicate IsRaisedAt(files: seq<seq<Credential>>, at: nat, r: Response) {
    at + 1 < |files| && r.count > 0 && CountOf(files[at], r.id) == Some(r.count - 1)
      && CountOf(files[at + 1], r.id) == Some(r.count)
  }

  lemma {:induction false} RaisedBehind(front: seq<seq<Credential>>, files: seq<seq<Credential>>, at: nat, r: Response)
    requires IsRaisedAt(files, at, r)
    ensures IsRaisedAt(front + files, |front| + at, r)
  {
    assert (front + files)[|front| + at] == files[at] && (front + files)[|front| + at + 1] == files[at + 1];
  }

  lemma {:induction false} RaisedInFront(files: seq<seq<Credential>>, more: seq<seq<Credential>>, at: nat, r: Response)
    requires IsRaisedAt(files, at, r)
    ensures IsRaisedAt(files + more, at, r)
  {
  }

  /** The first response of a loop is raised first, and the rest behind it. */
  lemma {:induction false} TryRaises(matches: seq<Credential>, i: nat, disk: seq<Credential>, turns: seq<Turn>,
                                     discoverable: bool, made: nat)
    requires i < |matches| && Try(matches[i], TurnAt(turns, i), disk, discoverable, |matches|, made).response.Done?
    ensures var tried := Try(matches[i], TurnAt(turns, i), disk, discoverable, |matches|, made);
            var two := [FileAt(TurnAt(turns, i), disk), tried.disk];
            && TurnFiles(matches, i, disk, turns) == two + TurnFiles(matches, i + 1, tried.disk, turns)
            && IsRaisedAt(two, 0, tried.response.value)
  {
    var found := FileAt(TurnAt(turns, i), disk);
    IncrementedCounts(found, matches[i].id, matches[i].id);
  }

  /** Each response is raised at its place. */
  ghost predicate RaisedEach(responses: seq<Response>, files: seq<seq<Credential>>) {
    |files| == 2 * |responses| && forall k :: 0 <= k < |responses| ==> IsRaisedAt(files, 2 * k, responses[k])
  }

  lemma {:induction false} RaisedFirst(r: Response, two: seq<seq<Credential>>, responses: seq<Response>,
                                       files: seq<seq<Credential>>)
    requires |two| == 2 && IsRaisedAt(two, 0, r) && RaisedEach(responses, files)
    ensures RaisedEach([r] + responses, two + files)
  {
    forall k | 0 <= k < |responses| + 1 ensures IsRaisedAt(two + files, 2 * k, ([r] + responses)[k]) {
      if k == 0 {
        RaisedInFront(two, files, 0, r);
      } else {
        RaisedBehind(two, files, 2 * (k - 1), responses[k - 1]);
      }
    }
  }

  lemma {:induction false} LoopRaises(matches: seq<Credential>, i: nat, disk: seq<Credential>, list: seq<Credential>,
                                      turns: seq<Turn>, discoverable: bool, made: nat)
    requires i <= |matches| && AssertAll(matches, i, disk, list, turns, discoverable, made).complete
    ensures RaisedEach(AssertAll(matches, i, disk, list, turns, discoverable, made).responses,
                       TurnFiles(matches, i, disk, turns))
    decreases |matches| - i
  {
    if i < |matches| {
      var tried, rest, two, files := FileTurn(matches, i, disk, list, turns, discoverable, made);
      LoopRaises(matches, i + 1, tried.disk, tried.list, turns, discoverable, made);
      RaisedFirst(tried.response.value, two, rest.responses, files);
    }
  }

  /** One turn of a loop that completes, with its two files. */
  lemma {:induction false} FileTurn(matches: seq<Credential>, i: nat, disk: seq<Credential>, list: seq<Credential>,
                                    turns: seq<Turn>, discoverable: bool, made: nat)
    returns (tried: Tried, rest: Ceremony, two: seq<seq<Credential>>, files: seq<seq<Credential>>)
    requires i < |matches| && AssertAll(matches, i, disk, list, turns, discoverable, made).complete
    ensures tried.response.Done? && rest == AssertAll(matches, i + 1, tried.disk, tried.list, turns, discoverable, made)
    ensures rest.complete
    ensures AssertAll(matches, i, disk, list, turns, discoverable, made).responses
         == [tried.response.value] + rest.responses
    ensures |two| == 2 && files == TurnFiles(matches, i + 1, tried.disk, turns)
    ensures TurnFiles(matches, i, disk, turns) == two + files && IsRaisedAt(two, 0, tried.response.value)
  {
    tried, rest := LoopTurn(matches, i, disk, list, turns, discoverable, made);
    TryRaises(matches, i, disk, turns, discoverable, made);
    two, files := [FileAt(TurnAt(turns, i), disk), tried.disk], TurnFiles(matches, i + 1, tried.disk, turns);
  }

  lemma {:induction false} CeremonyRaises(s: State, get: Command, made: nat)
    requires Begins(s, get, made)
    ensures RaisedEach(Answered(s, get, made), CommandFiles(s, get, made))
  {
    var matches := FindForRp(s.list, get.rp, get.allowed);
    First(AssertAll(matches, 0, s.disk, s.list, get.turns, get.allowed.None?, made).responses);
    LoopRaises(matches, 0, s.disk, s.list, get.turns, get.allowed.None?, made);
  }

  /** Responses made by one command, each raised at its place in the command's files. */
  ghost predicate AreMade(m: Made, made: nat) {
    (m.responses != [] ==> RaisedEach(m.responses, m.files))
    && forall k :: 0 <= k < |m.responses| ==> m.responses[k].made == made
  }

  ghost predicate TraceFits(trace: seq<Made>, made: nat) {
    trace == [] || (AreMade(trace[0], made) && TraceFits(trace[1..], made + 1))
  }

  lemma {:induction false} MadeByFits(s: State, command: Command, made: nat)
    ensures AreMade(MadeBy(s, command, made), made)
  {
    if Begins(s, command, made) {
      var mine := Answered(s, command, made);
      CountsAreNext(s, command, made);
      CeremonyRaises(s, command, made);
      forall k | 0 <= k < |mine| ensures mine[k].made == made {
        assert RespondsAt(mine[k], FindForRp(s.list, command.rp, command.allowed), 0 + k, s.disk, command.turns,
                          command.allowed.Some?, made);
      }
    }
  }

  lemma {:induction false} RunFits(s: State, commands: seq<Command>, made: nat)
    ensures TraceFits(Trace(s, commands, made), made)
    decreases |commands|
  {
    if commands != [] {
      MadeByFits(s, commands[0], made);
      RunFits(Do(s, commands[0], made).0, commands[1..], made + 1);
    }
  }

  /** Places in the files, one behind the other, at which the responses are raised. */
  ghost predicate Placed(responses: seq<Response>, files: seq<seq<Credential>>, places: seq<nat>) {
    && |places| == |responses|
    && (forall k :: 0 <= k < |places| ==> IsRaisedAt(files, places[k], responses[k]))
    && (forall j, k :: 0 <= j < k < |places| ==> places[j] < places[k])
  }

  lemma {:induction false} EachIsPlaced(responses: seq<Response>, files: seq<seq<Credential>>)
    returns (places: seq<nat>)
    requires RaisedEach(responses, files)
    ensures Placed(responses, files, places)
  {
    places := seq(|responses|, k => 2 * k);
  }

  lemma {:induction false} PlacedBehind(a: seq<Response>, files: seq<seq<Credential>>, p: seq<nat>,
                                        b: seq<Response>, more: seq<seq<Credential>>, q: seq<nat>)
    returns (places: seq<nat>)
    requires Placed(a, files, p) && Placed(b, more, q)
    ensures Placed(a + b, files + more, places)
  {
    var shifted := seq(|q|, k requires 0 <= k < |q| => |files| + q[k]);
    places := p + shifted;
    forall k | 0 <= k < |places| ensures IsRaisedAt(files + more, places[k], (a + b)[k]) {
      if k < |p| {
        RaisedInFront(files, more, p[k], a[k]);
      } else {
        RaisedBehind(files, more, q[k - |p|], b[k - |p|]);
      }
    }
    forall j, k | 0 <= j < k < |places| ensures places[j] < places[k] {
      if j < |p| <= k {
        assert IsRaisedAt(files, p[j], a[j]);
      }
    }
  }

  lemma {:induction false} TracePlaced(trace: seq<Made>, made: nat) returns (places: seq<nat>)
    requires TraceFits(trace, made)
    ensures Placed(ResponsesOf(trace), FilesOf(trace), places)
    decreases |trace|
  {
    places := [];
    if trace != [] {
      var rest := TracePlaced(trace[1..], made + 1);
      var mine: seq<nat> := [];
      if trace[0].responses != [] {
        mine := EachIsPlaced(trace[0].responses, trace[0].files);
      }
      places := PlacedBehind(trace[0].responses, trace[0].files, mine, ResponsesOf(trace[1..]), FilesOf(trace[1..]),
                             rest);
    }
  }

  lemma {:induction false} MadeFrom(trace: seq<Made>, made: nat, p: nat)
    requires TraceFits(trace, made) && p < |ResponsesOf(trace)|
    ensures made <= ResponsesOf(trace)[p].made
    decreases |trace|
  {
    var n := |trace[0].responses|;
    if p >= n {
      MadeFrom(trace[1..], made + 1, p - n);
    }
  }

  lemma {:induction false} MadeInOrder(trace: seq<Made>, made: nat, p: nat, q: nat)
    requires TraceFits(trace, made) && p <= q < |ResponsesOf(trace)|
    ensures ResponsesOf(trace)[p].made <= ResponsesOf(trace)[q].made
    decreases |trace|
  {
    var n := |trace[0].responses|;
    if p < n <= q {
      MadeFrom(trace[1..], made + 1, q - n);
    } else if n <= p {
      MadeInOrder(trace[1..], made + 1, p - n, q - n);
    }
  }

  /** In the order they are made the counters of one credential strictly rise,
      in every run in which nobody puts back a lower one. */
  lemma {:induction false} CountsRise(s: State, commands: seq<Command>, made: nat, p: nat, q: nat)
    requires p < q < |Asserted(s, commands, made)|
    requires var all := Asserted(s, commands, made); all[p].id == all[q].id
    requires NeverLowered(Files(s, commands, made), Asserted(s, commands, made)[p].id)
    ensures Asserted(s, commands, made)[p].count < Asserted(s, commands, made)[q].count
  {
    RunFits(s, commands, made);
    var places := TracePlaced(Trace(s, commands, made), made);
    PlacedRise(Asserted(s, commands, made), Files(s, commands, made), places, p, q);
  }

  lemma {:induction false} PlacedRise(responses: seq<Response>, files: seq<seq<Credential>>, places: seq<nat>, p: nat,
                                      q: nat)
    requires Placed(responses, files, places) && p < q < |responses| && responses[p].id == responses[q].id
    requires NeverLowered(files, responses[p].id)
    ensures responses[p].count < responses[q].count
  {
    assert IsRaisedAt(files, places[p], responses[p]) && IsRaisedAt(files, places[q], responses[q]);
    assert places[p] < places[q];
    assert CountOf(files[places[p] + 1], responses[p].id).Some? && CountOf(files[places[q]], responses[p].id).Some?;
  }

  // ------------------------------------------------------ what is handed out

  /** The same but for the number of matches, which getNextAssertion leaves out. */
  predicate IsFrom(r: Response, made: Response) {
    r.(total := None) == made.(total := None)
  }

  /** Some one of them is what was handed out. */
  ghost predicate IsAmong(r: Response, all: seq<Response>) {
    exists p :: 0 <= p < |all| && IsFrom(r, all[p])
  }

  lemma {:induction false} AmongMore(r: Response, a: seq<Response>, b: seq<Response>)
    requires IsAmong(r, a) || IsAmong(r, b)
    ensures IsAmong(r, a + b)
  {
    if p :| 0 <= p < |a| && IsFrom(r, a[p]) {
      assert (a + b)[p] == a[p];
    } else {
      var p :| 0 <= p < |b| && IsFrom(r, b[p]);
      assert (a + b)[|a| + p] == b[p];
    }
  }

  /** Every verified assertion handed out was waiting at first or was made in the run. */
  lemma {:induction false} HandedOutWasMade(s: State, commands: seq<Command>, made: nat, i: nat)
    requires i < |commands|
    requires var out := Outputs(s, commands, made)[i]; out.Assertion? && out.response.verified
    ensures IsAmong(Outputs(s, commands, made)[i].response, s.waiting + Asserted(s, commands, made))
    decreases |commands|
  {
    var (s', out) := Do(s, commands[0], made);
    var mine: seq<Response> := if Begins(s, commands[0], made) then Answered(s, commands[0], made) else [];
    var more := Asserted(s', commands[1..], made + 1);
    var r := Outputs(s, commands, made)[i].response;
    if i == 0 {
      FirstHandedOut(s, commands[0], made);
      assert IsAmong(r, s.waiting) || IsAmong(r, mine);
      if IsAmong(r, mine) {
        AmongMore(r, mine, more);
      }
    } else {
      HandedOutWasMade(s', commands[1..], made + 1, i - 1);
      WaitingIsFrom(s, commands[0], made, more, r);
    }
    AmongMore(r, s.waiting, mine + more);
  }

  lemma {:induction false} FirstHandedOut(s: State, command: Command, made: nat)
    requires var out := Do(s, command, made).1; out.Assertion? && out.response.verified
    ensures var r := Do(s, command, made).1.response;
            IsAmong(r, s.waiting) || (Begins(s, command, made) && IsAmong(r, Answered(s, command, made)))
  {
    var r := Do(s, command, made).1.response;
    if command.GetNext? {
      assert IsFrom(r, s.waiting[0]);
    } else {
      assert IsFrom(r, Answered(s, command, made)[0]);
    }
  }

  lemma {:induction false} WaitingIsFrom(s: State, command: Command, made: nat, more: seq<Response>, r: Response)
    requires IsAmong(r, Do(s, command, made).0.waiting + more)
    ensures var mine: seq<Response> := if Begins(s, command, made) then Answered(s, command, made) else [];
            IsAmong(r, s.waiting) || IsAmong(r, mine + more)
  {
    var s' := Do(s, command, made).0;
    var mine: seq<Response> := if Begins(s, command, made) then Answered(s, command, made) else [];
    var p :| 0 <= p < |s'.waiting + more| && IsFrom(r, (s'.waiting + more)[p]);
    if p >= |s'.waiting| {
      assert IsFrom(r, more[p - |s'.waiting|]);
      AmongMore(r, mine, more);
    } else if Begins(s, command, made) {
      assert IsFrom(r, mine[p + 1]);
      AmongMore(r, mine, more);
    } else {
      WaitingChanges(s, command, made);
      StillWaiting(s, command, made, p);
    }
  }

  lemma {:induction false} StillWaiting(s: State, command: Command, made: nat, p: nat)
    requires !Begins(s, command, made) && p < |Do(s, command, made).0.waiting|
    ensures exists q :: 0 <= q < |s.waiting| && s.waiting[q] == Do(s, command, made).0.waiting[p]
  {
    if command.GetNext? && s.waiting != [] {
      assert s.waiting[p + 1] == Do(s, command, made).0.waiting[p];
    } else {
      WaitingChanges(s, command, made);
      assert s.waiting[p] == Do(s, command, made).0.waiting[p];
    }
  }

  lemma {:induction false} LaterIsHigher(trace: seq<Made>, made: nat, a: Response, b: Response)
    requires TraceFits(trace, made) && IsAmong(a, ResponsesOf(trace)) && IsAmong(b, ResponsesOf(trace))
    requires a.id == b.id && a.made < b.made && NeverLowered(FilesOf(trace), a.id)
    ensures a.count < b.count
  {
    var all := ResponsesOf(trace);
    var p :| 0 <= p < |all| && IsFrom(a, all[p]);
    var q :| 0 <= q < |all| && IsFrom(b, all[q]);
    if q <= p {
      MadeInOrder(trace, made, q, p);
    }
    var places := TracePlaced(trace, made);
    PlacedRise(all, FilesOf(trace), places, p, q);
  }

  /** So a relying party sees the counter of its credential rise: of two verified
      assertions of one, that of the later getAssertion has the higher counter,
      whenever they are handed out. */
  lemma {:induction false} CountersMoveOn(s: State, commands: seq<Command>, made: nat, i: nat, j: nat)
    requires s.waiting == [] && i < |commands| && j < |commands|
    requires var outs := Outputs(s, commands, made);
             && outs[i].Assertion? && outs[i].response.verified && outs[j].Assertion? && outs[j].response.verified
             && outs[i].response.id == outs[j].response.id && outs[i].response.made < outs[j].response.made
             && NeverLowered(Files(s, commands, made), outs[i].response.id)
    ensures Outputs(s, commands, made)[i].response.count < Outputs(s, commands, made)[j].response.count
  {
    HandedOutWasMade(s, commands, made, i);
    HandedOutWasMade(s, commands, made, j);
    assert [] + Asserted(s, commands, made) == Asserted(s, commands, made);
    RunFits(s, commands, made);
    var outs := Outputs(s, commands, made);
    LaterIsHigher(Trace(s, commands, made), made, outs[i].response, outs[j].response);
  }

  // ------------------------------------------------------ when there is none

  /** Every counter can be found and written in its turn. */
  predicate CountersWork(matches: seq<Credential>, i: nat, disk: seq<Credential>, turns: seq<Turn>) {
    forall k :: i <= k < |matches| ==> CounterWorks(matches, disk, turns, k)
  }

  lemma {:induction false} LoopCompletes(matches: seq<Credential>, i: nat, disk: seq<Credential>, list: seq<Credential>,
                                         turns: seq<Turn>, discoverable: bool, made: nat)
    requires i <= |matches|
    ensures AssertAll(matches, i, LeftBefore(matches, disk, turns, i), list, turns, discoverable, made).complete
       <==> CountersWork(matches, i, disk, turns)
    decreases |matches| - i
  {
    if i < |matches| {
      var tried, rest := LoopTurn(matches, i, LeftBefore(matches, disk, turns, i), list, turns, discoverable, made);
      TryWorks(matches, i, disk, turns, discoverable, made);
      WorkOn(matches, i, disk, turns);
      if tried.response.Done? {
        LoopCompletes(matches, i + 1, disk, tried.list, turns, discoverable, made);
      }
    }
  }

  /** A counter can be found and written. */
  predicate CounterWorks(matches: seq<Credential>, disk: seq<Credential>, turns: seq<Turn>, k: nat)
    requires k < |matches|
  {
    CountOf(FoundBy(matches, disk, turns, k), matches[k].id).Some? && TurnAt(turns, k).saves
  }

  lemma {:induction false} TryWorks(matches: seq<Credential>, i: nat, disk: seq<Credential>, turns: seq<Turn>,
                                    discoverable: bool, made: nat)
    requires i < |matches|
    ensures var tried := Try(matches[i], TurnAt(turns, i), LeftBefore(matches, disk, turns, i), discoverable, |matches|,
                             made);
            (tried.response.Done? <==> CounterWorks(matches, disk, turns, i))
            && (tried.response.Done? ==> tried.disk == LeftBefore(matches, disk, turns, i + 1))
  {
  }

  lemma {:induction false} WorkOn(matches: seq<Credential>, i: nat, disk: seq<Credential>, turns: seq<Turn>)
    requires i < |matches|
    ensures CountersWork(matches, i, disk, turns)
       <==> CounterWorks(matches, disk, turns, i) && CountersWork(matches, i + 1, disk, turns)
  {
  }

  /** What getAssertion answers: refused for its parameters, NO_CREDENTIALS without
      a match, the newest match unverified and with its counter untouched when it
      is silent, the verification's error, or exactly when every counter can be
      written, an assertion; no response goes out before that. */
  lemma {:induction false} AnsweredExactly(s: State, get: Command, made: nat)
    requires get.Get?
    ensures var (s', out), matches := Do(s, get, made), FindForRp(s.list, get.rp, get.allowed);
            && (get.refused.Some? ==> s' == s && out == Fails(get.refused.value))
            && (get.refused.None? && matches == [] ==> s' == s && out == Fails(0x2E))
            && (get.refused.None? && matches != [] && get.silent ==>
                  s' == s && out.Assertion? && out.response.id == matches[0].id && out.response.rp == matches[0].rp
                  && !out.response.verified && out.response.count == matches[0].count && out.response.user.None?
                  && out.response.total.None?)
            && (get.refused.None? && matches != [] && !get.silent && get.verdict != Success ==>
                  s' == s && out == Fails(Denial(get.verdict)))
            && (get.refused.None? && matches != [] && !get.silent && get.verdict == Success ==>
                  (out.Assertion? <==> CountersWork(matches, 0, s.disk, get.turns))
                    && (!out.Assertion? ==> out == Fails(0x7F)))
  {
    var matches := FindForRp(s.list, get.rp, get.allowed);
    LoopCompletes(matches, 0, s.disk, s.list, get.turns, get.allowed.None?, made);
    LoopResponds(matches, 0, s.disk, s.list, get.turns, get.allowed.Some?, made);
  }
}
