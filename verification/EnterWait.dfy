/** Waiting for a lone Enter on the physical keyboards: the raw input events of
    all devices, as the reads deliver them, decide the verdict. */
module EnterWait {
  import opened Sequences
  import opened Bytes

  const EVENT_SIZE := 24
  const EV_KEY := 1
  const KEY_ESC := 1
  const KEY_ENTER := 28
  const KEY_KPENTER := 96
  const BTN_MISC := 0x100
  const PRESSED := 1
  const OTHER_KEYS_ALLOWED := 1

  datatype Verdict = Enter | Skip | Typing | NoKey

  /** struct input_event; time is two longs, the value's 32 bits are unsigned here. */
  datatype InputEvent = InputEvent(time: seq<Byte>, kind: Word, code: Word, value: DWord)

  /** What a read brings: OSError, or bytes. */
  datatype Read = Fails | Data(bytes: seq<Byte>)

  // -------------------------------------------------------- events in bytes

  predicate IsEvent(e: InputEvent) {
    |e.time| == 16
  }

  function Pack(e: InputEvent): (s: seq<Byte>)
    requires IsEvent(e)
    ensures |s| == EVENT_SIZE
  {
    e.time + PackLittleWord(e.kind) + PackLittleWord(e.code) + PackLittleDWord(e.value)
  }

  function Unpack(s: seq<Byte>): (e: InputEvent)
    requires |s| == EVENT_SIZE
    ensures IsEvent(e)
  {
    InputEvent(s[..16], LittleWord(s[16..18]), LittleWord(s[18..20]), LittleDWord(s[20..24]))
  }

  lemma {:induction false} UnpackPack(e: InputEvent)
    requires IsEvent(e)
    ensures Unpack(Pack(e)) == e
  {
    var kind, code, value := PackLittleWord(e.kind), PackLittleWord(e.code), PackLittleDWord(e.value);
    var s := Pack(e);
    assert s == e.time + kind + code + value;
    assert s[..16] == e.time && s[16..18] == kind && s[18..20] == code && s[20..24] == value;
  }

  predicate AreEvents(es: seq<InputEvent>) {
    forall i :: 0 <= i < |es| ==> IsEvent(es[i])
  }

  function PackAll(es: seq<InputEvent>): seq<Byte>
    requires AreEvents(es)
  {
    if es == [] then [] else Pack(es[0]) + PackAll(es[1..])
  }

  /** The whole events of a read; a cut one at the end is dropped. */
  function Events(data: seq<Byte>): seq<InputEvent> {
    if |data| < EVENT_SIZE then [] else [Unpack(data[..EVENT_SIZE])] + Events(data[EVENT_SIZE..])
  }

  lemma {:induction false} EventsOfPacked(es: seq<InputEvent>)
    requires AreEvents(es)
    ensures Events(PackAll(es)) == es
  {
    if es != [] {
      var data := PackAll(es);
      EventsOfPacked(es[1..]);
      UnpackPack(es[0]);
      assert data[..EVENT_SIZE] == Pack(es[0]) && data[EVENT_SIZE..] == PackAll(es[1..]);
    }
  }

  // ---------------------------------------------------------------- presses

  predicate IsPress(e: InputEvent) {
    e.kind == EV_KEY && e.value == PRESSED && e.code < BTN_MISC
  }

  function Presses(es: seq<InputEvent>): seq<Word> {
    if es == [] then [] else (if IsPress(es[0]) then [es[0].code] else []) + Presses(es[1..])
  }

  predicate IsEnter(code: Word) {
    code == KEY_ENTER || code == KEY_KPENTER
  }

  predicate IsOther(code: Word) {
    !IsEnter(code) && code != KEY_ESC
  }

  function EventsOfReads(batch: seq<Read>): seq<InputEvent> {
    if batch == [] then [] else (if batch[0].Data? then Events(batch[0].bytes) else []) + EventsOfReads(batch[1..])
  }

  function EventsOfTurns(turns: seq<seq<Read>>): seq<InputEvent> {
    if turns == [] then [] else EventsOfReads(turns[0]) + EventsOfTurns(turns[1..])
  }

  /** What a press decides after some other keys; NoKey: nothing yet. */
  function Decides(code: Word, others: nat): Verdict {
    if IsEnter(code) then Enter
    else if code == KEY_ESC then Skip
    else if others + 1 > OTHER_KEYS_ALLOWED then Typing
    else NoKey
  }

  /** The fold over the presses. */
  function Judge(codes: seq<Word>, others: nat): Verdict {
    if codes == [] then NoKey
    else if Decides(codes[0], others) != NoKey then Decides(codes[0], others)
    else Judge(codes[1..], others + 1)
  }

  /** Enter or Esc counts as the first press, or as the second after another key;
      two other keys are typing; less than that is nothing. */
  lemma {:induction false} JudgeMeans(codes: seq<Word>)
    ensures var n := |codes|; var verdict := Judge(codes, 0);
            && (verdict == Enter
                <==> (n >= 1 && IsEnter(codes[0])) || (n >= 2 && IsOther(codes[0]) && IsEnter(codes[1])))
            && (verdict == Skip
                <==> (n >= 1 && codes[0] == KEY_ESC) || (n >= 2 && IsOther(codes[0]) && codes[1] == KEY_ESC))
            && (verdict == Typing <==> n >= 2 && IsOther(codes[0]) && IsOther(codes[1]))
            && (verdict == NoKey <==> n == 0 || (n == 1 && IsOther(codes[0])))
  {
    if |codes| >= 2 && IsOther(codes[0]) {
      assert codes[1..][0] == codes[1];
      assert Judge(codes, 0) == Judge(codes[1..], 1);
    }
  }

  lemma {:induction false} PressesAppend(a: seq<InputEvent>, b: seq<InputEvent>)
    ensures Presses(a + b) == Presses(a) + Presses(b)
  {
    if a == [] {
      assert a + b == b;
    } else {
      assert (a + b)[1..] == a[1..] + b;
      PressesAppend(a[1..], b);
      Associate(if IsPress(a[0]) then [a[0].code] else [], Presses(a[1..]), Presses(b));
    }
  }

  // ---------------------------------------------------------------- the wait

  /** The verdict if the presses decide, and how many other keys came first. */
  datatype Scan = Scan(verdict: Verdict, others: nat)

  ghost predicate Agrees(scan: Scan, codes: seq<Word>, others: nat) {
    if scan.verdict != NoKey then forall more: seq<Word> :: Judge(codes + more, others) == scan.verdict
    else forall more: seq<Word> :: Judge(codes + more, others) == Judge(more, scan.others)
  }

  /** The innermost loop: the events of one read. */
  method ScanRead(data: seq<Byte>, others: nat) returns (scan: Scan)
    ensures Agrees(scan, Presses(Events(data)), others)
  {
    var otherKeys: nat, offset: nat := others, 0;
    ghost var codes := Presses(Events(data));
    while offset < |data| - EVENT_SIZE + 1
      invariant 0 <= offset <= |data|
      invariant forall more: seq<Word> :: Judge(codes + more, others)
                                          == Judge(Presses(Events(data[offset..])) + more, otherKeys)
    {
      var e := Unpack(data[offset..offset + EVENT_SIZE]);
      EventAt(data, offset);
      ghost var rest := Presses(Events(data[offset + EVENT_SIZE..]));
      if e.kind == EV_KEY && e.value == PRESSED && e.code < BTN_MISC {
        JudgeFirst(e.code, rest, otherKeys);
        if e.code == KEY_ENTER || e.code == KEY_KPENTER {
          return Scan(Enter, otherKeys);
        }
        if e.code == KEY_ESC {
          return Scan(Skip, otherKeys);
        }
        otherKeys := otherKeys + 1;
        if otherKeys > OTHER_KEYS_ALLOWED {
          return Scan(Typing, otherKeys);
        }
      } else {
        assert [] + rest == rest;
      }
      offset := offset + EVENT_SIZE;
    }
    assert Events(data[offset..]) == [];
    assert forall more: seq<Word> :: [] + more == more;
    scan := Scan(NoKey, otherKeys);
  }

  lemma {:induction false} EventAt(data: seq<Byte>, offset: nat)
    requires offset + EVENT_SIZE <= |data|
    ensures var e := Unpack(data[offset..offset + EVENT_SIZE]);
            Presses(Events(data[offset..]))
              == (if IsPress(e) then [e.code] else []) + Presses(Events(data[offset + EVENT_SIZE..]))
  {
    var s := data[offset..];
    assert s[..EVENT_SIZE] == data[offset..offset + EVENT_SIZE] && s[EVENT_SIZE..] == data[offset + EVENT_SIZE..];
  }

  lemma {:induction false} JudgeFirst(code: Word, rest: seq<Word>, others: nat)
    ensures Decides(code, others) != NoKey
            ==> forall more: seq<Word> :: Judge([code] + rest + more, others) == Decides(code, others)
    ensures Decides(code, others) == NoKey
            ==> forall more: seq<Word> :: Judge([code] + rest + more, others) == Judge(rest + more, others + 1)
  {
    forall more: seq<Word>
      ensures Judge([code] + rest + more, others) == if Decides(code, others) != NoKey then Decides(code, others)
                                                     else Judge(rest + more, others + 1)
    {
      assert ([code] + rest + more)[1..] == rest + more;
    }
  }

  lemma {:induction false} Continue(scan: Scan, codes: seq<Word>, others: nat, next: Scan, rest: seq<Word>)
    requires scan.verdict == NoKey && Agrees(scan, codes, others) && Agrees(next, rest, scan.others)
    ensures Agrees(next, codes + rest, others)
  {
    forall more: seq<Word> ensures Judge(codes + rest + more, others) == Judge(rest + more, scan.others) {
      assert codes + rest + more == codes + (rest + more);
    }
  }

  lemma {:induction false} EventsOfReadsAppend(batch: seq<Read>, read: Read)
    ensures EventsOfReads(batch + [read]) == EventsOfReads(batch) + (if read.Data? then Events(read.bytes) else [])
  {
    if batch == [] {
      assert [read][1..] == [];
    } else {
      assert (batch + [read])[1..] == batch[1..] + [read];
      EventsOfReadsAppend(batch[1..], read);
      Associate(if batch[0].Data? then Events(batch[0].bytes) else [],
                EventsOfReads(batch[1..]),
                if read.Data? then Events(read.bytes) else []);
    }
  }

  lemma {:induction false} EventsOfTurnsAppend(turns: seq<seq<Read>>, turn: seq<Read>)
    ensures EventsOfTurns(turns + [turn]) == EventsOfTurns(turns) + EventsOfReads(turn)
  {
    if turns == [] {
      assert [turn][1..] == [];
    } else {
      assert (turns + [turn])[1..] == turns[1..] + [turn];
      EventsOfTurnsAppend(turns[1..], turn);
      Associate(EventsOfReads(turns[0]), EventsOfTurns(turns[1..]), EventsOfReads(turn));
    }
  }

  /** One more read of a batch. */
  lemma {:induction false} ReadTaken(scan: Scan, batch: seq<Read>, i: nat, others: nat, next: Scan)
    requires i < |batch| && batch[i].Data? && scan.verdict == NoKey
    requires Agrees(scan, Presses(EventsOfReads(batch[..i])), others)
    requires Agrees(next, Presses(Events(batch[i].bytes)), scan.others)
    ensures Agrees(next, Presses(EventsOfReads(batch[..i + 1])), others)
  {
    var before := EventsOfReads(batch[..i]);
    Append(batch, i);
    EventsOfReadsAppend(batch[..i], batch[i]);
    PressesAppend(before, Events(batch[i].bytes));
    Continue(scan, Presses(before), others, next, Presses(Events(batch[i].bytes)));
  }

  lemma {:induction false} ReadFailed(batch: seq<Read>, i: nat)
    requires i < |batch| && batch[i].Fails?
    ensures EventsOfReads(batch[..i + 1]) == EventsOfReads(batch[..i])
  {
    Append(batch, i);
    EventsOfReadsAppend(batch[..i], batch[i]);
    assert EventsOfReads(batch[..i]) + [] == EventsOfReads(batch[..i]);
  }

  lemma {:induction false} NothingRead(others: nat)
    ensures Agrees(Scan(NoKey, others), Presses(EventsOfReads([])), others)
  {
    assert forall more: seq<Word> :: [] + more == more;
  }

  /** The middle loop: the descriptors that were ready. */
  method ScanTurn(batch: seq<Read>, others: nat) returns (scan: Scan)
    ensures Agrees(scan, Presses(EventsOfReads(batch)), others)
  {
    scan := Scan(NoKey, others);
    var i := 0;
    NothingRead(others);
    assert batch[..0] == [];
    while i < |batch|
      invariant 0 <= i <= |batch| && scan.verdict == NoKey
      invariant Agrees(scan, Presses(EventsOfReads(batch[..i])), others)
    {
      if batch[i].Data? {
        var next := ScanRead(batch[i].bytes, scan.others);
        ReadTaken(scan, batch, i, others, next);
        if next.verdict != NoKey {
          DecidedEarly(next, batch, i + 1, others);
          return next;
        }
        scan := next;
      } else {
        ReadFailed(batch, i);
      }
      i := i + 1;
    }
    assert batch[..i] == batch;
  }

  lemma {:induction false} DecidedBefore(scan: Scan, a: seq<Word>, b: seq<Word>, others: nat)
    requires scan.verdict != NoKey && Agrees(scan, a, others)
    ensures Agrees(scan, a + b, others)
  {
    forall more: seq<Word> ensures Judge(a + b + more, others) == scan.verdict {
      assert a + b + more == a + (b + more);
    }
  }

  lemma {:induction false} EventsOfReadsSplit(batch: seq<Read>, k: nat)
    requires k <= |batch|
    ensures EventsOfReads(batch) == EventsOfReads(batch[..k]) + EventsOfReads(batch[k..])
  {
    if k > 0 {
      EventsOfReadsSplit(batch[1..], k - 1);
      assert batch[1..][..k - 1] == batch[..k][1..];
      assert batch[1..][k - 1..] == batch[k..];
      Associate(if batch[0].Data? then Events(batch[0].bytes) else [],
                EventsOfReads(batch[..k][1..]),
                EventsOfReads(batch[k..]));
    } else {
      assert batch[..k] == [] && batch[k..] == batch;
    }
  }

  lemma {:induction false} DecidedEarly(scan: Scan, batch: seq<Read>, k: nat, others: nat)
    requires k <= |batch| && scan.verdict != NoKey && Agrees(scan, Presses(EventsOfReads(batch[..k])), others)
    ensures Agrees(scan, Presses(EventsOfReads(batch)), others)
  {
    EventsOfReadsSplit(batch, k);
    PressesAppend(EventsOfReads(batch[..k]), EventsOfReads(batch[k..]));
    DecidedBefore(scan, Presses(EventsOfReads(batch[..k])), Presses(EventsOfReads(batch[k..])), others);
  }

  lemma {:induction false} EventsOfTurnsSplit(turns: seq<seq<Read>>, k: nat)
    requires k <= |turns|
    ensures EventsOfTurns(turns) == EventsOfTurns(turns[..k]) + EventsOfTurns(turns[k..])
  {
    if k > 0 {
      EventsOfTurnsSplit(turns[1..], k - 1);
      assert turns[1..][..k - 1] == turns[..k][1..];
      assert turns[1..][k - 1..] == turns[k..];
      Associate(EventsOfReads(turns[0]), EventsOfTurns(turns[..k][1..]), EventsOfTurns(turns[k..]));
    } else {
      assert turns[..k] == [] && turns[k..] == turns;
    }
  }

  /** wait_for_enter: turns are the reads of each round of the loop until the
      window ends, the caller cancels, or there is no keyboard. */
  method WaitForEnter(turns: seq<seq<Read>>) returns (verdict: Verdict)
    ensures verdict == Judge(Presses(EventsOfTurns(turns)), 0)
  {
    var scan := Scan(NoKey, 0);
    var i := 0;
    assert forall more: seq<Word> :: [] + more == more;
    while i < |turns|
      invariant 0 <= i <= |turns| && scan.verdict == NoKey
      invariant Agrees(scan, Presses(EventsOfTurns(turns[..i])), 0)
    {
      EventsOfTurnsAppend(turns[..i], turns[i]);
      assert turns[..i] + [turns[i]] == turns[..i + 1];
      var next := ScanTurn(turns[i], scan.others);
      ghost var before, now := EventsOfTurns(turns[..i]), EventsOfReads(turns[i]);
      PressesAppend(before, now);
      Continue(scan, Presses(before), 0, next, Presses(now));
      if next.verdict != NoKey {
        EventsOfTurnsSplit(turns, i + 1);
        ghost var codes, rest := Presses(EventsOfTurns(turns[..i + 1])), Presses(EventsOfTurns(turns[i + 1..]));
        PressesAppend(EventsOfTurns(turns[..i + 1]), EventsOfTurns(turns[i + 1..]));
        assert Judge(codes + rest, 0) == next.verdict;
        return next.verdict;
      }
      scan := next;
      i := i + 1;
    }
    assert turns[..i] == turns;
    ghost var codes := Presses(EventsOfTurns(turns));
    assert codes + [] == codes;
    assert Judge(codes + [], 0) == Judge([], scan.others);
    verdict := NoKey;
  }

  // --------------------------------------------------- how events are split

  /** Batches of whole events, each one read of some device. */
  predicate AreBatches(batches: seq<seq<InputEvent>>) {
    forall i :: 0 <= i < |batches| ==> AreEvents(batches[i])
  }

  function AsReads(batches: seq<seq<InputEvent>>): seq<Read>
    requires AreBatches(batches)
  {
    if batches == [] then [] else [Data(PackAll(batches[0]))] + AsReads(batches[1..])
  }

  function Flatten(batches: seq<seq<InputEvent>>): seq<InputEvent> {
    if batches == [] then [] else batches[0] + Flatten(batches[1..])
  }

  function AsTurns(rounds: seq<seq<seq<InputEvent>>>): seq<seq<Read>>
    requires forall i :: 0 <= i < |rounds| ==> AreBatches(rounds[i])
  {
    if rounds == [] then [] else [AsReads(rounds[0])] + AsTurns(rounds[1..])
  }

  function FlattenAll(rounds: seq<seq<seq<InputEvent>>>): seq<InputEvent> {
    if rounds == [] then [] else Flatten(rounds[0]) + FlattenAll(rounds[1..])
  }

  lemma {:induction false} ReadsOfBatches(batches: seq<seq<InputEvent>>)
    requires AreBatches(batches)
    ensures EventsOfReads(AsReads(batches)) == Flatten(batches)
  {
    if batches != [] {
      ReadsOfBatches(batches[1..]);
      EventsOfPacked(batches[0]);
      assert AsReads(batches)[1..] == AsReads(batches[1..]);
    }
  }

  /** However whole events are split over rounds and reads, the verdict is that
      of the presses in the order they are processed. */
  lemma {:induction false} SplittingDoesNotMatter(rounds: seq<seq<seq<InputEvent>>>)
    requires forall i :: 0 <= i < |rounds| ==> AreBatches(rounds[i])
    ensures EventsOfTurns(AsTurns(rounds)) == FlattenAll(rounds)
  {
    if rounds != [] {
      SplittingDoesNotMatter(rounds[1..]);
      ReadsOfBatches(rounds[0]);
      assert AsTurns(rounds)[1..] == AsTurns(rounds[1..]);
    }
  }

  // ----------------------------------------------------------- in the bytes

  /** A press, in the 24 bytes of an event: type 1, value 1, a code below 256. A
      key held down (value 2) or let go (value 0) is none, nor is a mouse button. */
  lemma {:induction false} PressInBytes(s: seq<Byte>)
    requires |s| == 24
    ensures IsPress(Unpack(s))
       <==> s[16] == 1 && s[17] == 0 && s[19] == 0 && s[20] == 1 && s[21] == 0 && s[22] == 0 && s[23] == 0
    ensures s[19] == 0 ==> Unpack(s).code == s[18]
  {
  }

  /** Enter is 28, on the number pad 96; Esc is 1. */
  lemma {:induction false} KeysAre(code: Word)
    ensures (IsEnter(code) <==> code == 28 || code == 96) && (IsOther(code) <==> code != 28 && code != 96 && code != 1)
  {
  }

  lemma {:induction false} OnePress(e: InputEvent)
    ensures [e] + [] == [e] && Presses([e]) == if IsPress(e) then [e.code] else []
  {
    assert [e][1..] == [] && Presses([]) == [];
    assert [e.code] + [] == [e.code];
  }

  /** One event alone: an Enter let down is Enter, an Esc is Skip, all else is nothing. */
  lemma {:induction false} VerdictOnEvent(s: seq<Byte>)
    requires |s| == 24
    ensures var pressed := s[16] == 1 && s[17] == 0 && s[19] == 0 && s[20..24] == [1, 0, 0, 0];
            && (Judge(Presses(Events(s)), 0) == Enter <==> pressed && (s[18] == 28 || s[18] == 96))
            && (Judge(Presses(Events(s)), 0) == Skip <==> pressed && s[18] == 1)
            && Judge(Presses(Events(s)), 0) != Typing
  {
    PressInBytes(s);
    assert s[..24] == s && s[24..] == [];
    assert Events([]) == [] && Events(s) == [Unpack(s)] + [];
    OnePress(Unpack(s));
    var codes := Presses(Events(s));
    JudgeMeans(codes);
    var value := s[20..24];
    assert value[0] == s[20] && value[1] == s[21] && value[2] == s[22] && value[3] == s[23];
    assert s[20] == 1 && s[21] == 0 && s[22] == 0 && s[23] == 0 ==> value == [1, 0, 0, 0];
  }
}
