/** Feeding the frames of a message back: it is dispatched once and whole, or,
    being longer than the sequence numbers reach, refused once. */
module HidRoundTrip {
  import opened Sequences
  import opened Outcomes
  import opened Bytes
  import opened HidFraming

  /** A report and whether another channel's command ran when it came. */
  datatype Input = Input(report: Report, busy: bool)

  function Run(d: Device, ins: seq<Input>): (Device, seq<Action>)
    decreases |ins|
  {
    if ins == [] then (d, [])
    else
      var (d', first) := Feed(d, ins[0].report, ins[0].busy);
      var (d'', rest) := Run(d', ins[1..]);
      (d'', first + rest)
  }

  // ------------------------------------------------------------ one channel

  /** A frame of a message or of its continuation. */
  function FeedOne(cid: nat, ch: Channel, input: Input): (Channel, seq<Action>)
    requires |input.report| == HID_REPORT_SIZE
  {
    if IsInit(input.report) then StartMessage(cid, ch, input.report, input.busy) else AddFrame(cid, ch, input.report)
  }

  predicate AreFull(ins: seq<Input>) {
    forall i :: 0 <= i < |ins| ==> |ins[i].report| == HID_REPORT_SIZE
  }

  function RunOne(cid: nat, ch: Channel, ins: seq<Input>): (Channel, seq<Action>)
    requires AreFull(ins)
    decreases |ins|
  {
    if ins == [] then (ch, [])
    else
      var (ch', first) := FeedOne(cid, ch, ins[0]);
      var (ch'', rest) := RunOne(cid, ch', ins[1..]);
      (ch'', first + rest)
  }

  function Reports(ins: seq<Input>): seq<Report> {
    if ins == [] then [] else [ins[0].report] + Reports(ins[1..])
  }

  lemma {:induction false} FirstReport(ins: seq<Input>)
    requires ins != []
    ensures Reports(ins)[0] == ins[0].report && Reports(ins)[1..] == Reports(ins[1..])
  {
  }

  lemma {:induction false} FirstCont(cid: DWord, rest: seq<Byte>, k: nat)
    requires rest != []
    ensures var chunk, frames := Front(rest, CONT_PAYLOAD), ContFrames(cid, rest, k);
            frames != [] && frames[0] == ContFrame(cid, k, chunk)
              && frames[1..] == ContFrames(cid, rest[|chunk|..], k + 1)
  {
  }

  /** The next of the continuation reports. */
  lemma {:induction false} NextCont(ins: seq<Input>, cid: DWord, rest: seq<Byte>, k: nat)
    requires Reports(ins) == ContFrames(cid, rest, k) && rest != []
    ensures var chunk := Front(rest, CONT_PAYLOAD);
            ins != [] && ins[0].report == ContFrame(cid, k, chunk)
              && Reports(ins[1..]) == ContFrames(cid, rest[|chunk|..], k + 1)
  {
    FirstCont(cid, rest, k);
    FirstReport(ins);
  }

  lemma {:induction false} FullReports(ins: seq<Input>, cid: DWord, rest: seq<Byte>, k: nat)
    requires Reports(ins) == ContFrames(cid, rest, k)
    ensures AreFull(ins)
    decreases |ins|
  {
    if ins != [] {
      var chunk := Front(rest, CONT_PAYLOAD);
      NextCont(ins, cid, rest, k);
      FullReports(ins[1..], cid, rest[|chunk|..], k + 1);
      assert forall i :: 1 <= i < |ins| ==> ins[i] == ins[1..][i - 1];
    }
  }

  lemma {:induction false} IdleIgnores(cid: DWord, ins: seq<Input>, rest: seq<Byte>, k: nat)
    requires Reports(ins) == ContFrames(cid, rest, k) && AreFull(ins)
    ensures RunOne(cid, IDLE, ins) == (IDLE, [])
    decreases |ins|
  {
    if ins != [] {
      var chunk := Front(rest, CONT_PAYLOAD);
      NextCont(ins, cid, rest, k);
      ContFrameReads(cid, k, chunk);
      IdleIgnores(cid, ins[1..], rest[|chunk|..], k + 1);
      var none: seq<Action> := [];
      assert FeedOne(cid, IDLE, ins[0]) == (IDLE, none);
      assert none + none == none;
    }
  }

  /** How a message ends: whole, or at the frame whose number no byte holds. */
  function Ending(m: Message): Action {
    if |m.data| <= MAX_PAYLOAD then Dispatched(m.cid, m.command, m.data) else Error(m.cid, ERR_INVALID_SEQ)
  }

  /** The channel after k continuation frames. */
  function Partial(m: Message, k: nat): Channel
    requires INIT_PAYLOAD + k * CONT_PAYLOAD < |m.data|
  {
    Channel(Some(m.command), |m.data|, m.data[..INIT_PAYLOAD + k * CONT_PAYLOAD], k)
  }

  lemma {:induction false} ContStep(m: Message, k: nat, r: Report, chunk: seq<Byte>)
    requires k <= MAX_SEQ && INIT_PAYLOAD + k * CONT_PAYLOAD < |m.data|
    requires chunk == Front(m.data[INIT_PAYLOAD + k * CONT_PAYLOAD..], CONT_PAYLOAD) && r == ContFrame(m.cid, k, chunk)
    ensures var next := INIT_PAYLOAD + (k + 1) * CONT_PAYLOAD;
            AddFrame(m.cid, Partial(m, k), r) ==
              if k == MAX_SEQ then (IDLE, [Error(m.cid, ERR_INVALID_SEQ)])
              else if |m.data| <= next then (IDLE, [Dispatched(m.cid, m.command, m.data)])
              else (Partial(m, k + 1), [])
  {
    ContFrameReads(m.cid, k, chunk);
    var off := INIT_PAYLOAD + k * CONT_PAYLOAD;
    assert m.data[..off] + chunk == m.data[..off + |chunk|];
    assert |m.data| <= off + CONT_PAYLOAD ==> m.data[..off + |chunk|] == m.data;
  }

  /** A continuation frame in the middle of its message. */
  lemma {:induction false} ContIsFed(m: Message, k: nat, ins: seq<Input>) returns (rest: seq<Byte>)
    requires k <= MAX_SEQ && INIT_PAYLOAD + k * CONT_PAYLOAD < |m.data|
    requires Reports(ins) == ContFrames(m.cid, m.data[INIT_PAYLOAD + k * CONT_PAYLOAD..], k) && AreFull(ins)
    ensures ins != [] && AreFull(ins[1..]) && Reports(ins[1..]) == ContFrames(m.cid, rest, k + 1)
    ensures var next := INIT_PAYLOAD + (k + 1) * CONT_PAYLOAD;
            if k < MAX_SEQ && next < |m.data|
            then rest == m.data[next..] && FeedOne(m.cid, Partial(m, k), ins[0]) == (Partial(m, k + 1), [])
            else FeedOne(m.cid, Partial(m, k), ins[0]) == (IDLE, [Ending(m)])
  {
    var off := INIT_PAYLOAD + k * CONT_PAYLOAD;
    rest := m.data[off..];
    var chunk := Front(rest, CONT_PAYLOAD);
    NextCont(ins, m.cid, rest, k);
    ContFrameReads(m.cid, k, chunk);
    ContStep(m, k, ins[0].report, chunk);
    rest := rest[|chunk|..];
    if off + CONT_PAYLOAD < |m.data| {
      DropTwice(m.data, off, CONT_PAYLOAD);
    }
  }

  lemma {:induction false} ContsRoundTrip(m: Message, k: nat, ins: seq<Input>)
    requires k <= MAX_SEQ && INIT_PAYLOAD + k * CONT_PAYLOAD < |m.data|
    requires Reports(ins) == ContFrames(m.cid, m.data[INIT_PAYLOAD + k * CONT_PAYLOAD..], k) && AreFull(ins)
    ensures RunOne(m.cid, Partial(m, k), ins) == (IDLE, [Ending(m)])
    decreases |ins|
  {
    var rest := ContIsFed(m, k, ins);
    if k < MAX_SEQ && INIT_PAYLOAD + (k + 1) * CONT_PAYLOAD < |m.data| {
      ContsRoundTrip(m, k + 1, ins[1..]);
      RunOneOn(m.cid, Partial(m, k), ins, Partial(m, k + 1), [], IDLE, [Ending(m)]);
    } else {
      IdleIgnores(m.cid, ins[1..], rest, k + 1);
      RunOneOn(m.cid, Partial(m, k), ins, IDLE, [Ending(m)], IDLE, []);
    }
  }

  lemma {:induction false} RunOneOn(cid: nat, ch: Channel, ins: seq<Input>, next: Channel, first: seq<Action>,
                                    end: Channel, more: seq<Action>)
    requires AreFull(ins) && ins != [] && FeedOne(cid, ch, ins[0]) == (next, first)
    requires AreFull(ins[1..]) && RunOne(cid, next, ins[1..]) == (end, more)
    ensures RunOne(cid, ch, ins) == (end, if first == [] then more else if more == [] then first else first + more)
  {
    assert first == [] ==> first + more == more;
    assert more == [] ==> first + more == first;
  }

  /** A message command, not one that is handled at its first frame. */
  predicate IsOrdinary(m: Message) {
    Encodable(m) && m.command != CTAPHID_INIT && m.command != CTAPHID_CANCEL
  }

  lemma {:induction false} FirstFrame(m: Message, ch: Channel, r: Report)
    requires IsOrdinary(m) && r == InitFrame(m)
    ensures StartMessage(m.cid, ch, r, false) ==
      if |m.data| <= INIT_PAYLOAD then (IDLE, [Dispatched(m.cid, m.command, m.data)]) else (Partial(m, 0), [])
  {
    InitFrameReads(m);
    var n := Min(|m.data|, INIT_PAYLOAD);
    assert r[7..7 + n] == m.data[..n];
    assert |m.data| <= INIT_PAYLOAD ==> m.data[..n] == m.data;
    assert INIT_PAYLOAD + 0 * CONT_PAYLOAD == INIT_PAYLOAD;
  }

  /** On a channel that is free to start, the frames of a message end in exactly
      one action and an idle channel, whatever it held before. */
  lemma {:induction false} OneRoundTrip(m: Message, ch: Channel, ins: seq<Input>)
    requires IsOrdinary(m) && Reports(ins) == Frames(m) && !ins[0].busy
    ensures AreFull(ins) && RunOne(m.cid, ch, ins) == (IDLE, [Ending(m)])
  {
    var rest := m.data[Min(|m.data|, INIT_PAYLOAD)..];
    assert Reports(ins)[0] == ins[0].report && Reports(ins)[1..] == Reports(ins[1..]);
    assert Frames(m)[0] == InitFrame(m) && Frames(m)[1..] == ContFrames(m.cid, rest, 0);
    FullReports(ins[1..], m.cid, rest, 0);
    assert forall i :: 1 <= i < |ins| ==> ins[i] == ins[1..][i - 1];
    InitFrameReads(m);
    FirstFrame(m, ch, ins[0].report);
    if |m.data| <= INIT_PAYLOAD {
      IdleIgnores(m.cid, ins[1..], rest, 0);
      assert [Ending(m)] + [] == [Ending(m)];
    } else {
      ContsRoundTrip(m, 0, ins[1..]);
      RunOneOn(m.cid, ch, ins, Partial(m, 0), [], IDLE, [Ending(m)]);
      assert [] + [Ending(m)] == [Ending(m)];
    }
  }

  // --------------------------------------------------------- among the others

  predicate IsFor(input: Input, cid: nat) {
    |input.report| >= 5 && CidOf(input.report) == cid
  }

  /** The reports on one channel. */
  function Mine(ins: seq<Input>, cid: nat): seq<Input> {
    if ins == [] then [] else (if IsFor(ins[0], cid) then [ins[0]] else []) + Mine(ins[1..], cid)
  }

  /** The actions on one channel. */
  function Of(actions: seq<Action>, cid: nat): seq<Action> {
    if actions == [] then [] else (if actions[0].cid == cid then [actions[0]] else []) + Of(actions[1..], cid)
  }

  lemma {:induction false} OfAppend(a: seq<Action>, b: seq<Action>, cid: nat)
    ensures Of(a + b, cid) == Of(a, cid) + Of(b, cid)
  {
    if a == [] {
      assert a + b == b;
    } else {
      assert (a + b)[1..] == a[1..] + b;
      OfAppend(a[1..], b, cid);
      Associate(if a[0].cid == cid then [a[0]] else [], Of(a[1..], cid), Of(b, cid));
    }
  }

  lemma {:induction false} OfNone(actions: seq<Action>, cid: nat)
    requires forall i :: 0 <= i < |actions| ==> actions[i].cid != cid
    ensures Of(actions, cid) == []
  {
    if actions != [] {
      OfNone(actions[1..], cid);
    }
  }

  /** Channels are handed out in order. */
  predicate Valid(d: Device) {
    forall cid :: cid in d.channels ==> cid < d.nextCid
  }

  /** A frame of an ordinary message on this channel. */
  predicate IsOwn(input: Input) {
    |input.report| == HID_REPORT_SIZE && !(IsInit(input.report) && LowBits(input.report) == CTAPHID_INIT)
  }

  lemma {:induction false} FeedOthers(d: Device, input: Input, cid: nat)
    requires Valid(d) && cid in d.channels && !IsFor(input, cid)
    ensures var (d', actions) := Feed(d, input.report, input.busy);
            Valid(d') && cid in d'.channels && d'.channels[cid] == d.channels[cid] && Of(actions, cid) == []
  {
    if |input.report| >= 5 {
      var r := input.report;
      var (d', actions) := Feed(d, r, input.busy);
      assert forall i :: 0 <= i < |actions| ==> actions[i].cid == CidOf(r);
      OfNone(actions, cid);
    }
  }

  lemma {:induction false} FeedMine(d: Device, input: Input, cid: nat)
    requires Valid(d) && cid in d.channels && cid != CID_BROADCAST && IsFor(input, cid) && IsOwn(input)
    ensures var (d', actions) := Feed(d, input.report, input.busy);
            var (ch, own) := FeedOne(cid, d.channels[cid], input);
            Valid(d') && cid in d'.channels && d'.channels[cid] == ch && actions == own && Of(actions, cid) == own
  {
    var own := FeedOne(cid, d.channels[cid], input).1;
    assert |own| <= 1 && (own != [] ==> own[0].cid == cid && own[1..] == []);
  }

  predicate AreOwn(ins: seq<Input>) {
    forall i :: 0 <= i < |ins| ==> IsOwn(ins[i])
  }

  /** What happens on a channel depends on its own reports alone. */
  lemma {:induction false} RunProjects(d: Device, ins: seq<Input>, cid: nat)
    requires Valid(d) && cid in d.channels && cid != CID_BROADCAST && AreOwn(Mine(ins, cid))
    ensures var (d', actions) := Run(d, ins); var (ch, own) := RunOne(cid, d.channels[cid], Mine(ins, cid));
            Valid(d') && cid in d'.channels && d'.channels[cid] == ch && Of(actions, cid) == own
    decreases |ins|
  {
    if ins != [] {
      var (d', first) := Feed(d, ins[0].report, ins[0].busy);
      var rest := ins[1..];
      if IsFor(ins[0], cid) {
        assert Mine(ins, cid)[0] == ins[0] && Mine(ins, cid)[1..] == Mine(rest, cid);
        FeedMine(d, ins[0], cid);
      } else {
        assert Mine(ins, cid) == Mine(rest, cid);
        FeedOthers(d, ins[0], cid);
      }
      RunProjects(d', rest, cid);
      OfAppend(first, Run(d', rest).1, cid);
    }
  }

  lemma {:induction false} FramesAreOwn(m: Message, ins: seq<Input>)
    requires IsOrdinary(m) && Reports(ins) == Frames(m)
    ensures AreOwn(ins)
  {
    var rest := m.data[Min(|m.data|, INIT_PAYLOAD)..];
    assert Reports(ins)[0] == ins[0].report && Reports(ins)[1..] == Reports(ins[1..]);
    assert Frames(m)[0] == InitFrame(m) && Frames(m)[1..] == ContFrames(m.cid, rest, 0);
    InitFrameReads(m);
    ContsAreOwn(m.cid, rest, 0, ins[1..]);
    assert forall i :: 1 <= i < |ins| ==> ins[i] == ins[1..][i - 1];
  }

  lemma {:induction false} ContsAreOwn(cid: DWord, rest: seq<Byte>, k: nat, ins: seq<Input>)
    requires Reports(ins) == ContFrames(cid, rest, k)
    ensures AreOwn(ins)
    decreases |ins|
  {
    if ins != [] {
      var chunk := Front(rest, CONT_PAYLOAD);
      NextCont(ins, cid, rest, k);
      ContFrameReads(cid, k, chunk);
      ContsAreOwn(cid, rest[|chunk|..], k + 1, ins[1..]);
      assert forall i :: 1 <= i < |ins| ==> ins[i] == ins[1..][i - 1];
    }
  }

  /** However the frames of a message are interleaved with other channels'
      reports: on its channel there is exactly one action, the message whole for
      every length up to 7609, ERR_INVALID_SEQ for every longer one, and the
      channel ends idle. */
  lemma {:induction false} RoundTrip(d: Device, m: Message, ins: seq<Input>)
    requires Valid(d) && m.cid in d.channels && m.cid != CID_BROADCAST && IsOrdinary(m)
    requires Reports(Mine(ins, m.cid)) == Frames(m) && !Mine(ins, m.cid)[0].busy
    ensures var (d', actions) := Run(d, ins);
            && Of(actions, m.cid)
               == [if |m.data| <= INIT_PAYLOAD + MAX_SEQ * CONT_PAYLOAD then Dispatched(m.cid, m.command, m.data)
                   else Error(m.cid, ERR_INVALID_SEQ)]
            && m.cid in d'.channels && d'.channels[m.cid] == IDLE
  {
    var mine := Mine(ins, m.cid);
    FramesAreOwn(m, mine);
    RunProjects(d, ins, m.cid);
    OneRoundTrip(m, d.channels[m.cid], mine);
  }

  // ---------------------------------------------------------- channel numbers

  lemma {:induction false} RunNumbers(d: Device, ins: seq<Input>)
    requires AllNumbered(d)
    ensures AllNumbered(Run(d, ins).0) && Run(d, ins).0.nextCid >= d.nextCid
    decreases |ins|
  {
    if ins != [] {
      NumberedStays(d, ins[0].report, ins[0].busy);
      RunNumbers(Feed(d, ins[0].report, ins[0].busy).0, ins[1..]);
    }
  }

  /** In every run from a fresh device: the number an INIT on the broadcast channel
      is told is none that any earlier one was told. */
  lemma {:induction false} NumbersAreNew(before: seq<Input>, first: Input, between: seq<Input>, second: Input)
    requires IsInitRequest(first.report) && CidOf(first.report) == 0xFFFF_FFFF
    requires IsInitRequest(second.report) && CidOf(second.report) == 0xFFFF_FFFF
    ensures var d := Run(Device(map[], 1), before).0;
            var d' := Run(Feed(d, first.report, first.busy).0, between).0;
            var a, b := Feed(d, first.report, first.busy).1, Feed(d', second.report, second.busy).1;
            |a| == 1 && a[0].InitReply? && |b| == 1 && b[0].InitReply? && a[0].newCid < b[0].newCid
  {
    var d := Run(Device(map[], 1), before).0;
    RunNumbers(Device(map[], 1), before);
    NewChannel(d, first.report, first.busy);
    NumberedStays(d, first.report, first.busy);
    RunNumbers(Feed(d, first.report, first.busy).0, between);
    var d' := Run(Feed(d, first.report, first.busy).0, between).0;
    LengthOfInit(first.report);
    LengthOfInit(second.report);
    NewChannel(d', second.report, second.busy);
  }
}
