/** Several threads sending through one lock: what the host sees is whole
    messages, one after the other, and its reassembly gets them back. */
module HidStream {
  import opened Outcomes
  import opened Sequences
  import opened Bytes
  import opened HidFraming

  type Thread = nat

  /** The thread inside the lock, between two reports: how far _send_message got. */
  datatype Holder = Holder(thread: Thread, m: Message, started: bool, offset: nat, seqNo: nat)

  /** The reports written, the lock's holder, and the messages in lock order. */
  datatype Wire = Wire(stream: seq<Report>, holder: Option<Holder>, sent: seq<Message>)

  datatype Step = Lock(thread: Thread, m: Message) | Write(thread: Thread) | Unlock(thread: Thread)

  predicate Holds(w: Wire, thread: Thread) {
    w.holder.Some? && w.holder.value.thread == thread
  }

  predicate IsWritten(h: Holder) {
    h.started && h.offset >= |h.m.data|
  }

  /** One report: the first, or the next continuation. */
  function Written(h: Holder): (Report, Holder)
    requires Encodable(h.m) && !IsWritten(h)
  {
    if !h.started then (InitFrame(h.m), h.(started := true, offset := Min(|h.m.data|, INIT_PAYLOAD), seqNo := 0))
    else
      var chunk := Front(h.m.data[h.offset..], CONT_PAYLOAD);
      (ContFrame(h.m.cid, h.seqNo, chunk), h.(offset := h.offset + |chunk|, seqNo := h.seqNo + 1))
  }

  /** A step of a thread that cannot take it changes nothing; a message too long
      to encode raises before its first report. */
  function Next(w: Wire, step: Step): Wire
    requires w.holder.Some? ==> Encodable(w.holder.value.m)
  {
    match step
    case Lock(thread, m) =>
      if w.holder.None? && Encodable(m) then w.(holder := Some(Holder(thread, m, false, 0, 0)), sent := w.sent + [m])
      else w
    case Write(thread) =>
      if Holds(w, thread) && !IsWritten(w.holder.value) then
        var (r, h) := Written(w.holder.value);
        w.(stream := w.stream + [r], holder := Some(h))
      else w
    case Unlock(thread) => if Holds(w, thread) && IsWritten(w.holder.value) then w.(holder := None) else w
  }

  function AllFrames(ms: seq<Message>): seq<Report>
    requires forall i :: 0 <= i < |ms| ==> Encodable(ms[i])
  {
    if ms == [] then [] else Frames(ms[0]) + AllFrames(ms[1..])
  }

  /** What the holder has still to write. */
  function Todo(holder: Option<Holder>): seq<Report>
    requires holder.Some? ==> Encodable(holder.value.m) && holder.value.offset <= |holder.value.m.data|
  {
    if holder.None? then []
    else
      var h := holder.value;
      if !h.started then Frames(h.m) else ContFrames(h.m.cid, h.m.data[h.offset..], h.seqNo)
  }

  predicate Inv(w: Wire) {
    && (forall i :: 0 <= i < |w.sent| ==> Encodable(w.sent[i]))
    && (w.holder.Some?
        ==> w.sent != [] && w.holder.value.m == w.sent[|w.sent| - 1]
            && w.holder.value.offset <= |w.holder.value.m.data|)
    && AllFrames(w.sent) == w.stream + Todo(w.holder)
  }

  lemma {:induction false} AllFramesAppend(ms: seq<Message>, m: Message)
    requires Encodable(m) && forall i :: 0 <= i < |ms| ==> Encodable(ms[i])
    ensures AllFrames(ms + [m]) == AllFrames(ms) + Frames(m)
  {
    if ms == [] {
      assert [m][1..] == [];
      assert Frames(m) + [] == Frames(m) && [] + [m] == [m];
    } else {
      assert (ms + [m])[1..] == ms[1..] + [m];
      AllFramesAppend(ms[1..], m);
    }
  }

  lemma {:induction false} WrittenShortens(h: Holder)
    requires Encodable(h.m) && !IsWritten(h) && h.offset <= |h.m.data|
    ensures var (r, h') := Written(h); h'.offset <= |h'.m.data| && Todo(Some(h)) == [r] + Todo(Some(h'))
  {
    var (r, h') := Written(h);
    if h.started {
      var chunk := Front(h.m.data[h.offset..], CONT_PAYLOAD);
      assert h.m.data[h.offset..][|chunk|..] == h.m.data[h.offset + |chunk|..];
    }
  }

  lemma {:induction false} NextKeeps(w: Wire, step: Step)
    requires Inv(w)
    ensures Inv(Next(w, step))
  {
    match step
    case Lock(thread, m) =>
      if w.holder.None? && Encodable(m) {
        AllFramesAppend(w.sent, m);
        assert w.stream + [] == w.stream;
      }
    case Write(thread) =>
      if Holds(w, thread) && !IsWritten(w.holder.value) {
        WriteKeeps(w);
      }
    case Unlock(thread) =>
      if Holds(w, thread) && IsWritten(w.holder.value) {
        NothingTodo(w);
        assert w.stream + [] == w.stream;
      }
  }

  lemma {:induction false} WriteKeeps(w: Wire)
    requires Inv(w) && w.holder.Some? && !IsWritten(w.holder.value)
    ensures Inv(Next(w, Write(w.holder.value.thread)))
  {
    var (r, h) := Written(w.holder.value);
    WrittenShortens(w.holder.value);
    Associate(w.stream, [r], Todo(Some(h)));
  }

  /** What any schedule of the threads leads to. */
  function Run(steps: seq<Step>): (w: Wire)
    ensures Inv(w)
  {
    if steps == [] then Wire([], None, [])
    else
      NextKeeps(Run(steps[..|steps| - 1]), steps[|steps| - 1]);
      Next(Run(steps[..|steps| - 1]), steps[|steps| - 1])
  }

  // --------------------------------------------------------------- the host

  /** A message the host has begun to receive. */
  datatype Begun = Begun(cid: DWord, command: Command, length: nat, data: seq<Byte>, next: nat)

  /** The host's reassembly: it stops at a report that does not fit. */
  function Assemble(stream: seq<Report>, begun: Option<Begun>): seq<Message>
    decreases |stream|, 0
  {
    if stream == [] || |stream[0]| != HID_REPORT_SIZE then []
    else
      var r, rest := stream[0], stream[1..];
      if begun.None? then
        if !IsInit(r) then []
        else Received(Begun(CidOf(r), LowBits(r), LengthOf(r), r[7..7 + Min(LengthOf(r), INIT_PAYLOAD)], 0), rest)
      else
        var b := begun.value;
        if IsInit(r) || CidOf(r) != b.cid || LowBits(r) != b.next || b.length < |b.data| then []
        else Received(b.(data := b.data + r[5..5 + Min(b.length - |b.data|, CONT_PAYLOAD)], next := b.next + 1), rest)
  }

  function Received(b: Begun, rest: seq<Report>): seq<Message>
    decreases |rest|, 1
  {
    if |b.data| >= b.length then [Message(b.cid, b.command, b.data)] + Assemble(rest, None) else Assemble(rest, Some(b))
  }

  predicate Fits(m: Message) {
    Encodable(m) && |m.data| <= MAX_PAYLOAD
  }

  function Halfway(m: Message, k: nat): Begun
    requires INIT_PAYLOAD + k * CONT_PAYLOAD < |m.data|
  {
    Begun(m.cid, m.command, |m.data|, m.data[..INIT_PAYLOAD + k * CONT_PAYLOAD], k)
  }

  /** The next continuation brings the host on, or completes the message. */
  lemma {:induction false} AssembleCont(m: Message, k: nat, rest: seq<Report>)
    requires Fits(m) && INIT_PAYLOAD + k * CONT_PAYLOAD < |m.data|
    ensures var off := INIT_PAYLOAD + k * CONT_PAYLOAD;
            var chunk := Front(m.data[off..], CONT_PAYLOAD);
            Assemble([ContFrame(m.cid, k, chunk)] + rest, Some(Halfway(m, k)))
            == if off + CONT_PAYLOAD >= |m.data| then [m] + Assemble(rest, None)
               else Assemble(rest, Some(Halfway(m, k + 1)))
  {
    var off := INIT_PAYLOAD + k * CONT_PAYLOAD;
    var chunk := Front(m.data[off..], CONT_PAYLOAD);
    var r := ContFrame(m.cid, k, chunk);
    ContFrameReads(m.cid, k, chunk);
    var b := Halfway(m, k);
    assert ([r] + rest)[1..] == rest;
    assert m.data[..off] + chunk == m.data[..off + |chunk|];
    assert off + CONT_PAYLOAD >= |m.data| ==> m.data[..off + |chunk|] == m.data;
    assert Assemble([r] + rest, Some(b)) == Received(b.(data := m.data[..off + |chunk|], next := k + 1), rest);
  }

  /** The next continuation frame, and those behind it. */
  lemma {:induction false} ContParts(m: Message, k: nat) returns (r: Report, more: seq<Report>)
    requires Fits(m) && INIT_PAYLOAD + k * CONT_PAYLOAD < |m.data|
    ensures ContFrames(m.cid, m.data[INIT_PAYLOAD + k * CONT_PAYLOAD..], k) == [r] + more
    ensures r == ContFrame(m.cid, k, Front(m.data[INIT_PAYLOAD + k * CONT_PAYLOAD..], CONT_PAYLOAD))
    ensures var next := INIT_PAYLOAD + (k + 1) * CONT_PAYLOAD;
            more == if next < |m.data| then ContFrames(m.cid, m.data[next..], k + 1) else []
  {
    var off := INIT_PAYLOAD + k * CONT_PAYLOAD;
    var data := m.data[off..];
    var chunk := Front(data, CONT_PAYLOAD);
    r, more := ContFrame(m.cid, k, chunk), ContFrames(m.cid, data[|chunk|..], k + 1);
    if off + CONT_PAYLOAD < |m.data| {
      DropTwice(m.data, off, CONT_PAYLOAD);
    }
  }

  lemma {:induction false} AssembleConts(m: Message, k: nat, rest: seq<Report>)
    requires Fits(m) && INIT_PAYLOAD + k * CONT_PAYLOAD < |m.data|
    ensures Assemble(ContFrames(m.cid, m.data[INIT_PAYLOAD + k * CONT_PAYLOAD..], k) + rest, Some(Halfway(m, k)))
            == [m] + Assemble(rest, None)
    decreases |m.data| - k
  {
    var r, more := ContParts(m, k);
    Associate([r], more, rest);
    AssembleCont(m, k, more + rest);
    if INIT_PAYLOAD + (k + 1) * CONT_PAYLOAD < |m.data| {
      AssembleConts(m, k + 1, rest);
    } else {
      assert [] + rest == rest;
    }
  }

  lemma {:induction false} AssembleInit(m: Message, rest: seq<Report>)
    requires Fits(m)
    ensures Assemble([InitFrame(m)] + rest, None)
         == if |m.data| <= INIT_PAYLOAD then [m] + Assemble(rest, None) else Assemble(rest, Some(Halfway(m, 0)))
  {
    InitFrameReads(m);
    var r := InitFrame(m);
    var n := Min(|m.data|, INIT_PAYLOAD);
    assert ([r] + rest)[1..] == rest;
    assert r[7..7 + n] == m.data[..n];
    assert |m.data| <= INIT_PAYLOAD ==> m.data[..n] == m.data;
    assert INIT_PAYLOAD + 0 * CONT_PAYLOAD == INIT_PAYLOAD;
    assert Assemble([r] + rest, None) == Received(Begun(m.cid, m.command, |m.data|, m.data[..n], 0), rest);
  }

  /** A whole message at the front of the stream is received as it was sent. */
  lemma {:induction false} AssembleMessage(m: Message, rest: seq<Report>)
    requires Fits(m)
    ensures Assemble(Frames(m) + rest, None) == [m] + Assemble(rest, None)
  {
    var conts := ContFrames(m.cid, m.data[Min(|m.data|, INIT_PAYLOAD)..], 0);
    assert Frames(m) + rest == [InitFrame(m)] + (conts + rest);
    AssembleInit(m, conts + rest);
    if |m.data| <= INIT_PAYLOAD {
      assert conts + rest == rest;
    } else {
      AssembleConts(m, 0, rest);
    }
  }

  lemma {:induction false} AssembleCutConts(m: Message, k: nat, j: nat)
    requires Fits(m) && INIT_PAYLOAD + k * CONT_PAYLOAD < |m.data|
    requires j < |ContFrames(m.cid, m.data[INIT_PAYLOAD + k * CONT_PAYLOAD..], k)|
    ensures Assemble(ContFrames(m.cid, m.data[INIT_PAYLOAD + k * CONT_PAYLOAD..], k)[..j], Some(Halfway(m, k))) == []
    decreases j
  {
    if j > 0 {
      var r, more := ContParts(m, k);
      CutBehind(r, more, j);
      AssembleCont(m, k, more[..j - 1]);
      if INIT_PAYLOAD + (k + 1) * CONT_PAYLOAD < |m.data| {
        AssembleCutConts(m, k + 1, j - 1);
      }
    }
  }

  lemma {:induction false} CutBehind<T>(x: T, s: seq<T>, j: nat)
    requires 0 < j <= |s|
    ensures ([x] + s)[..j] == [x] + s[..j - 1]
  {
  }

  /** A cut message is not received. */
  lemma {:induction false} AssembleCut(m: Message, j: nat)
    requires Fits(m) && j < |Frames(m)|
    ensures Assemble(Frames(m)[..j], None) == []
  {
    if j > 0 {
      var conts := ContFrames(m.cid, m.data[Min(|m.data|, INIT_PAYLOAD)..], 0);
      assert Frames(m)[..j] == [InitFrame(m)] + conts[..j - 1];
      AssembleInit(m, conts[..j - 1]);
      assert |m.data| > INIT_PAYLOAD;
      AssembleCutConts(m, 0, j - 1);
    }
  }

  lemma {:induction false} AssembleAll(ms: seq<Message>, rest: seq<Report>)
    requires forall i :: 0 <= i < |ms| ==> Encodable(ms[i]) && Fits(ms[i])
    ensures Assemble(AllFrames(ms) + rest, None) == ms + Assemble(rest, None)
  {
    if ms == [] {
      assert AllFrames(ms) + rest == rest;
    } else {
      Associate(Frames(ms[0]), AllFrames(ms[1..]), rest);
      AssembleMessage(ms[0], AllFrames(ms[1..]) + rest);
      AssembleAll(ms[1..], rest);
      Associate([ms[0]], ms[1..], Assemble(rest, None));
      assert ms == [ms[0]] + ms[1..];
    }
  }

  // ----------------------------------------------------------------- results

  /** The messages written to the end, in lock order. */
  function Complete(w: Wire): seq<Message> {
    if w.holder.Some? && w.sent != [] && !IsWritten(w.holder.value) then w.sent[..|w.sent| - 1] else w.sent
  }

  predicate IsWhole(w: Wire)
    requires forall i :: 0 <= i < |w.sent| ==> Encodable(w.sent[i])
  {
    var done := Complete(w);
    (done == w.sent && w.stream == AllFrames(done)) ||
    (w.sent != [] && w.sent == done + [w.sent[|w.sent| - 1]] &&
     var last := Frames(w.sent[|w.sent| - 1]);
     exists j :: 0 <= j < |last| && w.stream == AllFrames(done) + last[..j])
  }

  /** In every schedule the stream is the completed messages' frames in lock
      order, followed by the first reports of the one in the lock. */
  lemma {:induction false} StreamIsWhole(steps: seq<Step>)
    ensures IsWhole(Run(steps))
  {
    var w := Run(steps);
    if w.holder.Some? && !IsWritten(w.holder.value) {
      TodoIsRest(steps);
    }
    WireIsWhole(w);
  }

  lemma {:induction false} WireIsWhole(w: Wire)
    requires Inv(w)
    requires w.holder.Some? && !IsWritten(w.holder.value) ==> 0 < |Todo(w.holder)| <= |Frames(w.holder.value.m)|
    ensures IsWhole(w)
  {
    var done := Complete(w);
    if w.holder.None? || IsWritten(w.holder.value) {
      NothingTodo(w);
    } else {
      var m := w.holder.value.m;
      var last, todo := Frames(m), Todo(w.holder);
      Append(w.sent, |w.sent| - 1);
      assert w.sent[..|w.sent|] == w.sent;
      AllFramesAppend(done, m);
      CutEnd(AllFrames(done), last, w.stream, todo);
      var j := |last| - |todo|;
      assert 0 <= j < |last| && w.stream == AllFrames(done) + last[..j];
    }
  }

  lemma {:induction false} NothingTodo(w: Wire)
    requires Inv(w) && (w.holder.None? || IsWritten(w.holder.value))
    ensures w.stream == AllFrames(w.sent)
  {
    if w.holder.Some? {
      var h := w.holder.value;
      assert h.m.data[h.offset..] == [];
    }
    assert w.stream + [] == w.stream;
  }

  lemma {:induction false} CutEnd<T>(a: seq<T>, b: seq<T>, s: seq<T>, t: seq<T>)
    requires a + b == s + t && |t| <= |b|
    ensures s == a + b[..|b| - |t|]
  {
    assert s == (s + t)[..|s|] == (a + b)[..|s|];
  }

  lemma {:induction false} TodoIsRest(steps: seq<Step>)
    requires Run(steps).holder.Some? && !IsWritten(Run(steps).holder.value)
    ensures 0 < |Todo(Run(steps).holder)| <= |Frames(Run(steps).holder.value.m)|
  {
    var h := Run(steps).holder.value;
    if h.started {
      assert h.m.data[h.offset..] != [];
      OffsetFits(steps);
      ContCount(h.m.cid, h.m.data, h.offset, h.seqNo);
    }
  }

  lemma {:induction false} OffsetFits(steps: seq<Step>)
    requires Run(steps).holder.Some? && Run(steps).holder.value.started
    ensures var h := Run(steps).holder.value; h.offset >= Min(|h.m.data|, INIT_PAYLOAD)
  {
    var front := steps[..|steps| - 1];
    var w := Run(front);
    if w.holder.Some? && w.holder.value.started {
      OffsetFits(front);
    }
    OffsetStays(w, steps[|steps| - 1]);
  }

  lemma {:induction false} OffsetStays(w: Wire, step: Step)
    requires w.holder.Some? ==> Encodable(w.holder.value.m)
    requires w.holder.Some? && w.holder.value.started
             ==> w.holder.value.offset >= Min(|w.holder.value.m.data|, INIT_PAYLOAD)
    ensures var h := Next(w, step).holder;
            h.Some? && h.value.started ==> h.value.offset >= Min(|h.value.m.data|, INIT_PAYLOAD)
  {
  }

  lemma {:induction false} CountLess(cid: DWord, a: seq<Byte>, b: seq<Byte>, k: nat, n: nat)
    requires |b| <= |a|
    ensures |ContFrames(cid, b, k)| <= |ContFrames(cid, a, n)|
    decreases |a|
  {
    if b != [] {
      var x, y := Front(a, CONT_PAYLOAD), Front(b, CONT_PAYLOAD);
      CountLess(cid, a[|x|..], b[|y|..], k + 1, n + 1);
    }
  }

  lemma {:induction false} ContCount(cid: DWord, data: seq<Byte>, offset: nat, k: nat)
    requires Min(|data|, INIT_PAYLOAD) <= offset <= |data|
    ensures |ContFrames(cid, data[offset..], k)| <= |ContFrames(cid, data[Min(|data|, INIT_PAYLOAD)..], 0)|
  {
    CountLess(cid, data[Min(|data|, INIT_PAYLOAD)..], data[offset..], k, 0);
  }

  /** And within the frame limit the host gets back exactly the messages sent, in lock order. */
  lemma {:induction false} HostReceives(steps: seq<Step>)
    requires forall i :: 0 <= i < |Run(steps).sent| ==> Fits(Run(steps).sent[i])
    ensures Assemble(Run(steps).stream, None) == Complete(Run(steps))
  {
    var w := Run(steps);
    var done := Complete(w);
    StreamIsWhole(steps);
    if done == w.sent && w.stream == AllFrames(done) {
      AssembleAll(done, []);
      assert AllFrames(done) + [] == AllFrames(done) && done + [] == done;
    } else {
      var m := w.sent[|w.sent| - 1];
      var last := Frames(m);
      var j :| 0 <= j < |last| && w.stream == AllFrames(done) + last[..j];
      AssembleAll(done, last[..j]);
      AssembleCut(m, j);
      assert done + [] == done;
    }
  }
}
