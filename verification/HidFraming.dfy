/** CTAPHID framing (CTAP 2.1, section 11.2.4): cutting a message into 64-byte
    reports and putting it together again, one reassembly per channel. */
module HidFraming {
  import opened Outcomes
  import opened Sequences
  import opened Bytes

  const HID_REPORT_SIZE := 64
  const INIT_PAYLOAD := 57
  const CONT_PAYLOAD := 59
  const CID_BROADCAST := 0xFFFF_FFFF
  const MAX_SEQ := 128
  /** What the sequence numbers of one message can carry. */
  const MAX_PAYLOAD := 7609

  const CTAPHID_INIT := 0x06
  const CTAPHID_CANCEL := 0x11
  const ERR_INVALID_LEN := 0x03
  const ERR_INVALID_SEQ := 0x04
  const ERR_CHANNEL_BUSY := 0x06
  const ERR_INVALID_CHANNEL := 0x0B

  type Report = seq<Byte>
  type Command = x: int | 0 <= x < 128

  datatype Message = Message(cid: DWord, command: Command, data: seq<Byte>)

  /** The length field has 16 bits; packing a longer message raises. */
  predicate Encodable(m: Message) {
    |m.data| < 0x1_0000
  }

  // -------------------------------------------------------------- sending

  function Min(a: int, b: int): int {
    if a < b then a else b
  }

  function Front(s: seq<Byte>, n: nat): seq<Byte> {
    if n <= |s| then s[..n] else s
  }

  function Zeros(n: nat): (s: seq<Byte>)
    ensures |s| == n
  {
    seq(n, i => 0)
  }

  function Pad(s: seq<Byte>): (r: Report)
    requires |s| <= HID_REPORT_SIZE
    ensures |r| == HID_REPORT_SIZE && r[..|s|] == s
  {
    s + Zeros(HID_REPORT_SIZE - |s|)
  }

  function InitFrame(m: Message): (r: Report)
    requires Encodable(m)
    ensures |r| == HID_REPORT_SIZE
  {
    Pad(PackBigDWord(m.cid) + [128 + m.command] + PackBigWord(|m.data|) + Front(m.data, INIT_PAYLOAD))
  }

  function ContFrame(cid: DWord, seqNo: nat, chunk: seq<Byte>): (r: Report)
    requires |chunk| <= CONT_PAYLOAD
    ensures |r| == HID_REPORT_SIZE
  {
    Pad(PackBigDWord(cid) + [seqNo % MAX_SEQ] + chunk)
  }

  function ContFrames(cid: DWord, rest: seq<Byte>, seqNo: nat): seq<Report>
    decreases |rest|
  {
    if rest == [] then []
    else
      var chunk := Front(rest, CONT_PAYLOAD);
      [ContFrame(cid, seqNo, chunk)] + ContFrames(cid, rest[|chunk|..], seqNo + 1)
  }

  function Frames(m: Message): seq<Report>
    requires Encodable(m)
  {
    [InitFrame(m)] + ContFrames(m.cid, m.data[Min(|m.data|, INIT_PAYLOAD)..], 0)
  }

  /** _send_message: the frames it writes. */
  method SendMessage(m: Message) returns (frames: seq<Report>)
    requires Encodable(m)
    ensures frames == Frames(m)
  {
    var length := |m.data|;
    var chunk := Front(m.data, INIT_PAYLOAD);
    frames := [Pad(PackBigDWord(m.cid) + [128 + m.command] + PackBigWord(length) + chunk)];
    var offset, seqNo: nat := |chunk|, 0;
    while offset < length
      invariant 0 <= offset <= length
      invariant Frames(m) == frames + ContFrames(m.cid, m.data[offset..], seqNo)
    {
      chunk := Front(m.data[offset..], CONT_PAYLOAD);
      ghost var before := frames;
      frames := frames + [Pad(PackBigDWord(m.cid) + [seqNo % MAX_SEQ] + chunk)];
      assert m.data[offset..][|chunk|..] == m.data[offset + |chunk|..];
      Associate(before, [ContFrame(m.cid, seqNo, chunk)], ContFrames(m.cid, m.data[offset + |chunk|..], seqNo + 1));
      offset := offset + |chunk|;
      seqNo := seqNo + 1;
    }
    assert m.data[offset..] == [];
    assert frames + [] == frames;
  }

  // -------------------------------------------------------- reading a report

  function CidOf(r: Report): DWord
    requires |r| >= 4
  {
    BigDWord(r[..4])
  }

  predicate IsInit(r: Report)
    requires |r| >= 5
  {
    r[4] >= 128
  }

  function LowBits(r: Report): Command
    requires |r| >= 5
  {
    r[4] % 128
  }

  function LengthOf(r: Report): Word
    requires |r| >= 7
  {
    BigWord(r[5..7])
  }

  lemma {:induction false} InitFrameReads(m: Message)
    requires Encodable(m)
    ensures var r := InitFrame(m);
            && CidOf(r) == m.cid && IsInit(r) && LowBits(r) == m.command && LengthOf(r) == |m.data|
            && r[7..7 + Min(|m.data|, INIT_PAYLOAD)] == Front(m.data, INIT_PAYLOAD)
  {
    var a, c, chunk := PackBigDWord(m.cid), PackBigWord(|m.data|), Front(m.data, INIT_PAYLOAD);
    var s := a + [128 + m.command] + c + chunk;
    var r := InitFrame(m);
    assert s[..4] == a && s[4] == 128 + m.command && s[5..7] == c && s[7..] == chunk;
    Sliced(r, s, 0, 4);
    Sliced(r, s, 5, 7);
    Sliced(r, s, 7, |s|);
    assert r[4] == r[..|s|][4];
  }

  lemma {:induction false} Sliced(r: Report, s: seq<Byte>, i: nat, j: nat)
    requires |s| <= |r| && r[..|s|] == s && i <= j <= |s|
    ensures r[i..j] == s[i..j]
  {
    assert forall k :: 0 <= k < |s| ==> r[k] == r[..|s|][k];
  }

  lemma {:induction false} ContFrameReads(cid: DWord, seqNo: nat, chunk: seq<Byte>)
    requires |chunk| <= CONT_PAYLOAD
    ensures var r := ContFrame(cid, seqNo, chunk);
            CidOf(r) == cid && !IsInit(r) && LowBits(r) == seqNo % MAX_SEQ && r[5..5 + |chunk|] == chunk
  {
    var a := PackBigDWord(cid);
    var s := a + [seqNo % MAX_SEQ] + chunk;
    var r := ContFrame(cid, seqNo, chunk);
    assert s[..4] == a && s[4] == seqNo % MAX_SEQ && s[5..] == chunk;
    Sliced(r, s, 0, 4);
    Sliced(r, s, 5, |s|);
    assert r[4] == r[..|s|][4];
  }

  // ------------------------------------------------------------- reassembly

  /** One channel's reassembly; no command: idle. */
  datatype Channel = Channel(command: Option<Command>, expected: nat, buffer: seq<Byte>, nextSeq: nat)

  const IDLE := Channel(None, 0, [], 0)

  /** What a report makes the device do; Raises: unpacking its length failed. */
  datatype Action =
    | Raises(cid: nat)
    | Error(cid: nat, code: Byte)
    | Dispatched(cid: nat, command: Command, payload: seq<Byte>)
    | InitReply(cid: nat, newCid: nat, nonce: seq<Byte>)
    | Cancel(cid: nat, reply: bool)

  datatype Device = Device(channels: map<nat, Channel>, nextCid: nat)

  /** report[start:start + n], as far as the report goes. */
  function Cut(r: Report, start: nat, n: nat): seq<Byte>
    requires start <= |r|
  {
    if start + n <= |r| then r[start..start + n] else r[start..]
  }

  /** A message frame on an allocated channel; busy: another channel's command runs. */
  function StartMessage(cid: nat, ch: Channel, r: Report, busy: bool): (Channel, seq<Action>)
    requires |r| >= 7
  {
    var command, length := LowBits(r), LengthOf(r);
    if command == CTAPHID_CANCEL then (ch, [Cancel(cid, true)])
    else if busy then (ch, [Error(cid, ERR_CHANNEL_BUSY)])
    else
      var buffer := Cut(r, 7, Min(length, INIT_PAYLOAD));
      if |buffer| >= length then (IDLE, [Dispatched(cid, command, buffer)])
      else (Channel(Some(command), length, buffer, 0), [])
  }

  function AddFrame(cid: nat, ch: Channel, r: Report): (Channel, seq<Action>)
    requires |r| >= 5
  {
    if ch.command.None? then (ch, [])
    else if LowBits(r) != ch.nextSeq then (IDLE, [Error(cid, ERR_INVALID_SEQ)])
    else
      var remaining := ch.expected - |ch.buffer|;
      var buffer := ch.buffer + Cut(r, 5, if remaining < 0 then 0 else Min(remaining, CONT_PAYLOAD));
      if |buffer| >= ch.expected then (IDLE, [Dispatched(cid, ch.command.value, buffer)])
      else (ch.(buffer := buffer, nextSeq := ch.nextSeq + 1), [])
  }

  /** CTAPHID_INIT: a new channel, or a re-sync of one. */
  function Init(d: Device, cid: nat, nonce: seq<Byte>): (Device, seq<Action>) {
    if |nonce| != 8 then (d, [Error(cid, ERR_INVALID_LEN)])
    else if cid == CID_BROADCAST then
      (Device(d.channels[d.nextCid := IDLE], d.nextCid + 1), [InitReply(cid, d.nextCid, nonce)])
    else
      ((if cid in d.channels then d.(channels := d.channels[cid := IDLE]) else d),
        [Cancel(cid, false), InitReply(cid, cid, nonce)])
  }

  /** feed_report */
  function Feed(d: Device, r: Report, busy: bool): (Device, seq<Action>) {
    if |r| < 5 then (d, [])
    else
      var cid := CidOf(r);
      if IsInit(r) && |r| < 7 then (d, [Raises(cid)])
      else if IsInit(r) && LowBits(r) == CTAPHID_INIT then Init(d, cid, Cut(r, 7, LengthOf(r)))
      else if IsInit(r) && (cid == CID_BROADCAST || cid !in d.channels) then (d, [Error(cid, ERR_INVALID_CHANNEL)])
      else if cid !in d.channels then (d, [])
      else
        var (ch, actions) := if IsInit(r) then StartMessage(cid, d.channels[cid], r, busy)
                             else AddFrame(cid, d.channels[cid], r);
        (d.(channels := d.channels[cid := ch]), actions)
  }

  /** The reassembly half of CtapHidDevice. */
  class HidReader {
    var channels: map<nat, Channel>
    var nextCid: nat

    constructor ()
      ensures channels == map[] && nextCid == 1
    {
      channels, nextCid := map[], 1;
    }

    function Value(): Device
      reads this
    {
      Device(channels, nextCid)
    }

    method FeedReport(r: Report, busy: bool) returns (actions: seq<Action>)
      modifies this
      ensures (Value(), actions) == Feed(old(Value()), r, busy)
    {
      if |r| < 5 {
        return [];
      }
      var cid := CidOf(r);
      if r[4] >= 128 {
        actions := HandleInitFrame(cid, r, busy);
      } else {
        actions := HandleContFrame(cid, r);
      }
    }

    method HandleInitFrame(cid: nat, r: Report, busy: bool) returns (actions: seq<Action>)
      requires |r| >= 5 && cid == CidOf(r) && IsInit(r)
      modifies this
      ensures (Value(), actions) == Feed(old(Value()), r, busy)
    {
      if |r| < 7 {
        return [Raises(cid)];
      }
      var command, length: int := LowBits(r), LengthOf(r);
      if command == CTAPHID_INIT {
        var nonce := Cut(r, 7, length);
        if |nonce| != 8 {
          return [Error(cid, ERR_INVALID_LEN)];
        }
        if cid == CID_BROADCAST {
          var newCid := nextCid;
          nextCid := nextCid + 1;
          channels := channels[newCid := IDLE];
          return [InitReply(cid, newCid, nonce)];
        }
        if cid in channels {
          channels := channels[cid := IDLE];
        }
        return [Cancel(cid, false), InitReply(cid, cid, nonce)];
      }
      if cid == CID_BROADCAST || cid !in channels {
        return [Error(cid, ERR_INVALID_CHANNEL)];
      }
      if command == CTAPHID_CANCEL {
        assert channels[cid := channels[cid]] == channels;
        return [Cancel(cid, true)];
      }
      if busy {
        assert channels[cid := channels[cid]] == channels;
        return [Error(cid, ERR_CHANNEL_BUSY)];
      }
      var channel := IDLE.(command := Some(command), expected := length,
                           buffer := Cut(r, 7, Min(length, INIT_PAYLOAD)));
      if |channel.buffer| >= length {
        channels := channels[cid := IDLE];
        return [Dispatched(cid, command, channel.buffer)];
      }
      channels := channels[cid := channel];
      return [];
    }

    method HandleContFrame(cid: nat, r: Report) returns (actions: seq<Action>)
      requires |r| >= 5 && cid == CidOf(r) && !IsInit(r)
      modifies this
      ensures forall busy :: (Value(), actions) == Feed(old(Value()), r, busy)
    {
      if cid !in channels {
        return [];
      }
      var channel := channels[cid];
      if channel.command.None? {
        assert channels[cid := channels[cid]] == channels;
        return [];
      }
      if LowBits(r) != channel.nextSeq {
        channels := channels[cid := IDLE];
        return [Error(cid, ERR_INVALID_SEQ)];
      }
      var remaining := channel.expected - |channel.buffer|;
      var taken := if remaining < 0 then 0 else Min(remaining, CONT_PAYLOAD);
      channel := channel.(nextSeq := channel.nextSeq + 1, buffer := channel.buffer + Cut(r, 5, taken));
      if |channel.buffer| >= channel.expected {
        channels := channels[cid := IDLE];
        return [Dispatched(cid, channel.command.value, channel.buffer)];
      }
      channels := channels[cid := channel];
      return [];
    }
  }

  // ---------------------------------------------------------- channel numbers

  /** Every channel was numbered by the device. */
  predicate AllNumbered(d: Device) {
    d.nextCid >= 1 && forall cid :: cid in d.channels ==> 1 <= cid < d.nextCid
  }

  lemma {:induction false} NumberedStays(d: Device, r: Report, busy: bool)
    requires AllNumbered(d)
    ensures AllNumbered(Feed(d, r, busy).0) && Feed(d, r, busy).0.nextCid >= d.nextCid
  {
  }

  /** A full INIT report: its command and its eight bytes of nonce. */
  predicate IsInitRequest(r: Report) {
    |r| == 64 && r[4] == 0x86 && r[5] == 0 && r[6] == 8
  }

  /** INIT on the broadcast channel (0xFFFFFFFF): the host is told, with its nonce,
      the number of a channel that is new, allocated from then on, and idle; the
      others stay as they are. */
  lemma {:induction false} NewChannel(d: Device, r: Report, busy: bool)
    requires AllNumbered(d) && IsInitRequest(r) && CidOf(r) == 0xFFFF_FFFF
    ensures var (d', actions) := Feed(d, r, busy);
            && |actions| == 1 && actions[0].InitReply? && actions[0].cid == 0xFFFF_FFFF && actions[0].nonce == r[7..15]
            && var number := actions[0].newCid;
               && number !in d.channels && number in d'.channels && d'.channels[number].command.None?
               && d'.nextCid > number && (forall cid :: cid != number ==> (cid in d'.channels <==> cid in d.channels))
               && (forall cid :: cid != number && cid in d.channels ==> d'.channels[cid] == d.channels[cid])
  {
    LengthOfInit(r);
  }

  lemma {:induction false} LengthOfInit(r: Report)
    requires IsInitRequest(r)
    ensures IsInit(r) && LowBits(r) == 6 && LengthOf(r) == 8 && Cut(r, 7, 8) == r[7..15]
  {
    assert r[5..7] == [r[5], r[6]];
  }

  /** INIT on a channel: its command is cancelled without a reply, whatever it was
      assembling is dropped, and the host is told the same number. */
  lemma {:induction false} ResyncedChannel(d: Device, r: Report, busy: bool)
    requires IsInitRequest(r) && CidOf(r) != 0xFFFF_FFFF
    ensures var cid := CidOf(r); var (d', actions) := Feed(d, r, busy);
            && actions == [Cancel(cid, false), InitReply(cid, cid, r[7..15])]
            && (cid in d'.channels <==> cid in d.channels) && (cid in d.channels ==> d'.channels[cid].command.None?)
            && d'.nextCid == d.nextCid
            && forall c :: c != cid && c in d.channels ==> c in d'.channels && d'.channels[c] == d.channels[c]
  {
    LengthOfInit(r);
  }

  /** Other first frames: only on an allocated channel; a cancel passes at any
      time, anything else not while another channel's command runs. */
  lemma {:induction false} FirstFrameOf(d: Device, r: Report, busy: bool)
    requires |r| == 64 && r[4] >= 0x80 && r[4] != 0x86
    ensures var cid := CidOf(r); var (d', actions) := Feed(d, r, busy);
            if cid == 0xFFFF_FFFF || cid !in d.channels then d' == d && actions == [Error(cid, 0x0B)]
            else if r[4] == 0x91 then d' == d && actions == [Cancel(cid, true)]
            else if busy then d' == d && actions == [Error(cid, 0x06)]
            else d'.nextCid == d.nextCid && forall i :: 0 <= i < |actions| ==> actions[i].Dispatched?
  {
    var cid := CidOf(r);
    if cid in d.channels {
      assert d.channels[cid := d.channels[cid]] == d.channels;
    }
  }

  // -------------------------------------------------------------- on the wire

  /** Big endian: the channel in four bytes, the length in two. */
  lemma {:induction false} FieldsInBytes(r: Report)
    requires |r| >= 7
    ensures CidOf(r) == 16777216 * r[0] as int + 65536 * r[1] as int + 256 * r[2] as int + r[3] as int
    ensures LengthOf(r) == 256 * r[5] as int + r[6] as int
  {
    assert r[..4][..2] == [r[0], r[1]] && r[..4][2..] == [r[2], r[3]] && r[5..7] == [r[5], r[6]];
  }

  /** The first report: channel, command with its top bit, length, the first 57
      bytes, zeros. */
  lemma {:induction false} FirstReport(m: Message, i: nat)
    requires Encodable(m) && i < 64
    ensures var r := InitFrame(m);
            && |r| == 64 && CidOf(r) == m.cid && r[4] == 128 + m.command && LengthOf(r) == |m.data|
            && (i >= 7 ==> r[i] == if i - 7 < |m.data| then m.data[i - 7] else 0)
  {
    InitFrameReads(m);
    var front := PackBigDWord(m.cid) + [128 + m.command] + PackBigWord(|m.data|) + Front(m.data, INIT_PAYLOAD);
    PaddedAt(front, i);
    if 7 <= i < 7 + Min(|m.data|, 57) {
      assert front[i] == m.data[i - 7];
    }
  }

  lemma {:induction false} PaddedAt(s: seq<Byte>, i: nat)
    requires |s| <= 64 && i < 64
    ensures Pad(s)[i] == if i < |s| then s[i] else 0
  {
    if i < |s| {
      assert Pad(s)[..|s|][i] == s[i];
    }
  }

  /** The k-th report behind it: channel, its number modulo 128, the next 59 bytes, zeros. */
  lemma {:induction false} NextReport(cid: DWord, data: seq<Byte>, k: nat, chunk: seq<Byte>, i: nat)
    requires chunk == Front(data, 59) && i < 64
    ensures var r := ContFrame(cid, k, chunk);
            && |r| == 64 && CidOf(r) == cid && r[4] == k % 128
            && (i >= 5 ==> r[i] == if i - 5 < |data| then data[i - 5] else 0)
  {
    ContFrameReads(cid, k, chunk);
    PaddedAt(PackBigDWord(cid) + [k % MAX_SEQ] + chunk, i);
  }

  /** Where each byte of the data lies in the reports behind the first. */
  lemma {:induction false} DataLiesBehind(cid: DWord, data: seq<Byte>, k: nat, i: nat)
    requires i < |data|
    ensures var frames := ContFrames(cid, data, k);
            i / 59 < |frames| && |frames[i / 59]| == 64
            && frames[i / 59][5 + i % 59] == data[i] && frames[i / 59][4] == (k + i / 59) % 128
    decreases |data|
  {
    var chunk := Front(data, CONT_PAYLOAD);
    if i < 59 {
      NextReport(cid, data, k, chunk, 5 + i);
    } else {
      DataLiesBehind(cid, data[|chunk|..], k + 1, i - 59);
      assert i / 59 == (i - 59) / 59 + 1 && i % 59 == (i - 59) % 59;
    }
  }

  /** Every byte of a message at its place: the first 57 in the first report, 59 in
      each of the others, which are numbered from 0 on. */
  lemma {:induction false} DataLies(m: Message, i: nat)
    requires Encodable(m) && i < |m.data|
    ensures var frames := Frames(m);
            if i < 57 then frames[0][7 + i] == m.data[i]
            else
              var j := i - 57;
              1 + j / 59 < |frames| && |frames[1 + j / 59]| == 64
              && frames[1 + j / 59][5 + j % 59] == m.data[i] && frames[1 + j / 59][4] == j / 59 % 128
  {
    if i < 57 {
      FirstReport(m, 7 + i);
    } else {
      var rest := m.data[57..];
      DataLiesBehind(m.cid, rest, 0, i - 57);
    }
  }
}
