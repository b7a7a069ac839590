/** The face authentication control's payload: a count, then for each streaming
    interface its number and its flags, little endian. */
module EmitterPayload {
  import opened Sequences
  import opened Outcomes
  import opened Bytes

  const ALTERNATIVE_FRAME_ILLUMINATION := 2
  const BACKGROUND_SUBTRACTION := 4

  datatype Entry = Entry(interface: Byte, flags: nat, offset: nat, size: nat)

  /** int.from_bytes(s, "little") */
  function LittleNat(s: seq<Byte>): nat {
    if s == [] then 0 else s[0] as int + 256 * LittleNat(s[1..])
  }

  // --------------------------------------------------------------- parsing

  predicate IsParsable(value: seq<Byte>) {
    value != [] && value[0] != 0 && (|value| - 1) / value[0] >= 2
  }

  function Stride(value: seq<Byte>): (n: nat)
    requires IsParsable(value)
    ensures n >= 2
  {
    (|value| - 1) / value[0]
  }

  /** The next n entries, starting at a position. */
  function ParseFrom(rest: seq<Byte>, stride: nat, n: nat, start: nat): seq<Entry>
    decreases n
  {
    if n == 0 || stride < 2 || |rest| < stride then []
    else [Entry(rest[0], LittleNat(rest[1..stride]), start + 1, stride - 1)]
         + ParseFrom(rest[stride..], stride, n - 1, start + stride)
  }

  function Parse(value: seq<Byte>): seq<Entry> {
    if IsParsable(value) then ParseFrom(value[1..], Stride(value), value[0], 1) else []
  }

  lemma {:induction false} ParseFirst(rest: seq<Byte>, stride: nat, n: nat, start: nat)
    requires n > 0 && 2 <= stride <= |rest|
    ensures ParseFrom(rest, stride, n, start)
         == [Entry(rest[0], LittleNat(rest[1..stride]), start + 1, stride - 1)]
           + ParseFrom(rest[stride..], stride, n - 1, start + stride)
  {
  }

  /** There is room for n strides. */
  predicate HasRoom(space: int, n: nat, stride: nat) {
    n == 0 || (space >= stride && HasRoom(space - stride, n - 1, stride))
  }

  lemma {:induction false} ProductHasRoom(space: int, n: nat, stride: nat)
    requires space >= n * stride
    ensures HasRoom(space, n, stride)
  {
    if n > 0 {
      assert n * stride == (n - 1) * stride + stride;
      assert (n - 1) * stride >= 0;
      ProductHasRoom(space - stride, n - 1, stride);
    }
  }

  lemma {:induction false} PayloadHasRoom(value: seq<Byte>)
    requires IsParsable(value)
    ensures HasRoom(|value| - 1, value[0], Stride(value))
  {
    var count: int, space := value[0], |value| - 1;
    assert space == count * (space / count) + space % count;
    ProductHasRoom(space, count, Stride(value));
  }

  lemma {:induction false} ParseNext(value: seq<Byte>, entries: seq<Entry>, stride: nat, n: nat, start: nat)
    requires stride >= 2 && n > 0 && start + stride <= |value|
    ensures var entry := Entry(value[start], LittleNat(value[start + 1..start + stride]), start + 1, stride - 1);
            entries + ParseFrom(value[start..], stride, n, start)
            == entries + [entry] + ParseFrom(value[start + stride..], stride, n - 1, start + stride)
  {
    var rest := value[start..];
    assert rest[1..stride] == value[start + 1..start + stride] && rest[stride..] == value[start + stride..];
  }

  /** parse_face_auth */
  method ParseFaceAuth(value: seq<Byte>) returns (entries: seq<Entry>)
    ensures entries == Parse(value)
    ensures |entries| == if IsParsable(value) then value[0] else 0
  {
    if value == [] {
      return [];
    }
    var count: int := value[0];
    if count == 0 {
      return [];
    }
    var stride := (|value| - 1) / count;
    if stride < 2 {
      return [];
    }
    PayloadHasRoom(value);
    entries := ParseEntries(value, count, stride);
  }

  /** Its loop. */
  method ParseEntries(value: seq<Byte>, count: nat, stride: nat) returns (entries: seq<Entry>)
    requires stride >= 2 && value != [] && HasRoom(|value| - 1, count, stride)
    ensures entries == ParseFrom(value[1..], stride, count, 1) && |entries| == count
  {
    entries := [];
    var index, start := 0, 1;
    ghost var all := ParseFrom(value[1..], stride, count, 1);
    while index < count
      invariant 0 <= index <= count && |entries| == index && 1 <= start <= |value|
                && HasRoom(|value| - start, count - index, stride)
      invariant all == entries + ParseFrom(value[start..], stride, count - index, start)
    {
      ParseNext(value, entries, stride, count - index, start);
      entries := entries + [Entry(value[start], LittleNat(value[start + 1..start + stride]), start + 1, stride - 1)];
      index, start := index + 1, start + stride;
    }
    assert entries + [] == entries;
  }

  // ------------------------------------------------------------- rewriting

  predicate HasBit(flags: nat, bit: nat)
    requires bit > 0
  {
    flags / bit % 2 == 1
  }

  /** The mode to switch on, 0 for none. */
  function Wanted(modes: nat): (mode: Byte)
    ensures mode == 0 || mode == ALTERNATIVE_FRAME_ILLUMINATION || mode == BACKGROUND_SUBTRACTION
  {
    if HasBit(modes, ALTERNATIVE_FRAME_ILLUMINATION) then ALTERNATIVE_FRAME_ILLUMINATION
    else if HasBit(modes, BACKGROUND_SUBTRACTION) then BACKGROUND_SUBTRACTION
    else 0
  }

  /** What the maximum says of an interface: its last entry's flags. */
  function Supported(entries: seq<Entry>, interface: Byte): nat {
    if entries == [] then 0
    else
      var last := entries[|entries| - 1];
      if last.interface == interface then last.flags else Supported(entries[..|entries| - 1], interface)
  }

  function PackLittle(mode: Byte, size: nat): (s: seq<Byte>)
    requires size >= 1
    ensures |s| == size
  {
    [mode] + seq(size - 1, i => 0)
  }

  lemma {:induction false} ZerosAreNothing(s: seq<Byte>)
    requires forall i :: 0 <= i < |s| ==> s[i] == 0
    ensures LittleNat(s) == 0
  {
    if s != [] {
      ZerosAreNothing(s[1..]);
    }
  }

  lemma {:induction false} PackedReads(mode: Byte, size: nat)
    requires size >= 1
    ensures LittleNat(PackLittle(mode, size)) == mode
  {
    ZerosAreNothing(PackLittle(mode, size)[1..]);
  }

  /** One entry's bytes with its wanted mode. */
  function NewChunk(chunk: seq<Byte>, best: seq<Entry>): (r: seq<Byte>)
    requires |chunk| >= 2
    ensures |r| == |chunk|
  {
    var mode := Wanted(Supported(best, chunk[0]));
    if mode == 0 then chunk else [chunk[0]] + PackLittle(mode, |chunk| - 1)
  }

  function Rewritten(rest: seq<Byte>, stride: nat, n: nat, best: seq<Entry>): (r: seq<Byte>)
    ensures |r| == |rest|
    decreases n
  {
    if n == 0 || stride < 2 || |rest| < stride then rest
    else NewChunk(rest[..stride], best) + Rewritten(rest[stride..], stride, n - 1, best)
  }

  /** The first mode chosen. */
  function FirstWanted(entries: seq<Entry>, best: seq<Entry>): Byte {
    if entries == [] then 0
    else
      var mode := Wanted(Supported(best, entries[0].interface));
      if mode != 0 then mode else FirstWanted(entries[1..], best)
  }

  function Target(current: seq<Byte>, maximum: seq<Byte>): Option<(seq<Byte>, Byte)> {
    var best := Parse(maximum);
    var chosen := FirstWanted(Parse(current), best);
    if chosen == 0 then None
    else Some(([current[0]] + Rewritten(current[1..], Stride(current), current[0], best), chosen))
  }

  /** What becomes of the flags of an interface. */
  function NewFlags(entry: Entry, best: seq<Entry>): nat {
    var mode := Wanted(Supported(best, entry.interface));
    if mode == 0 then entry.flags else mode
  }

  /** The same entries with their new flags. */
  ghost predicate AreReflagged(entries: seq<Entry>, made: seq<Entry>, best: seq<Entry>) {
    && |made| == |entries|
    && forall i :: 0 <= i < |entries| ==> made[i] == entries[i].(flags := NewFlags(entries[i], best))
  }

  lemma {:induction false} ReflaggedFirst(x: Entry, xs: seq<Entry>, y: Entry, ys: seq<Entry>, best: seq<Entry>)
    requires y == x.(flags := NewFlags(x, best)) && AreReflagged(xs, ys, best)
    ensures AreReflagged([x] + xs, [y] + ys, best)
  {
  }

  lemma {:induction false} RewrittenParses(rest: seq<Byte>, stride: nat, n: nat, best: seq<Entry>, start: nat)
    returns (entries: seq<Entry>, made: seq<Entry>)
    ensures entries == ParseFrom(rest, stride, n, start)
    ensures made == ParseFrom(Rewritten(rest, stride, n, best), stride, n, start) && AreReflagged(entries, made, best)
    decreases n
  {
    if n > 0 && 2 <= stride <= |rest| {
      var xs, ys := RewrittenParses(rest[stride..], stride, n - 1, best, start + stride);
      entries, made := FirstReflagged(rest, stride, n, best, start, xs, ys);
    } else {
      entries, made := [], [];
      NothingLeft(rest, stride, n, best, start);
    }
  }

  lemma {:induction false} NothingLeft(rest: seq<Byte>, stride: nat, n: nat, best: seq<Entry>, start: nat)
    requires n == 0 || stride < 2 || |rest| < stride
    ensures ParseFrom(rest, stride, n, start) == []
            && ParseFrom(Rewritten(rest, stride, n, best), stride, n, start) == []
  {
  }

  lemma {:induction false} FirstReflagged(rest: seq<Byte>, stride: nat, n: nat, best: seq<Entry>, start: nat,
                                          xs: seq<Entry>, ys: seq<Entry>)
    returns (entries: seq<Entry>, made: seq<Entry>)
    requires n > 0 && 2 <= stride <= |rest| && xs == ParseFrom(rest[stride..], stride, n - 1, start + stride)
    requires ys == ParseFrom(Rewritten(rest[stride..], stride, n - 1, best), stride, n - 1, start + stride)
    requires AreReflagged(xs, ys, best)
    ensures entries == ParseFrom(rest, stride, n, start)
    ensures made == ParseFrom(Rewritten(rest, stride, n, best), stride, n, start) && AreReflagged(entries, made, best)
  {
    var x, _, y, _ := BothParse(rest, stride, n, best, start);
    ReflaggedFirst(x, xs, y, ys, best);
    entries, made := [x] + xs, [y] + ys;
  }

  /** The first entries of the bytes and of the rewritten bytes, and those behind them. */
  lemma {:induction false} BothParse(rest: seq<Byte>, stride: nat, n: nat, best: seq<Entry>, start: nat)
    returns (x: Entry, xs: seq<Entry>, y: Entry, ys: seq<Entry>)
    requires n > 0 && 2 <= stride <= |rest|
    ensures ParseFrom(rest, stride, n, start) == [x] + xs
            && xs == ParseFrom(rest[stride..], stride, n - 1, start + stride)
    ensures ParseFrom(Rewritten(rest, stride, n, best), stride, n, start) == [y] + ys
    ensures ys == ParseFrom(Rewritten(rest[stride..], stride, n - 1, best), stride, n - 1, start + stride)
    ensures y == x.(flags := NewFlags(x, best))
  {
    var made, tail := NewChunk(rest[..stride], best), Rewritten(rest[stride..], stride, n - 1, best);
    Joined(made, tail);
    ParseFirst(rest, stride, n, start);
    ParseFirst(made + tail, stride, n, start);
    ChunkReads(rest, stride, best);
    x := Entry(rest[0], LittleNat(rest[1..stride]), start + 1, stride - 1);
    xs := ParseFrom(rest[stride..], stride, n - 1, start + stride);
    y := Entry(made[0], LittleNat(made[1..]), start + 1, stride - 1);
    ys := ParseFrom(tail, stride, n - 1, start + stride);
  }

  /** A rewritten chunk has its interface, and its new flags. */
  lemma {:induction false} ChunkReads(rest: seq<Byte>, stride: nat, best: seq<Entry>)
    requires 2 <= stride <= |rest|
    ensures var made := NewChunk(rest[..stride], best); var mode := Wanted(Supported(best, rest[0]));
            made[0] == rest[0] && LittleNat(made[1..]) == if mode == 0 then LittleNat(rest[1..stride]) else mode
  {
    var mode := Wanted(Supported(best, rest[0]));
    assert rest[..stride][0] == rest[0] && rest[..stride][1..] == rest[1..stride];
    if mode != 0 {
      PackedReads(mode, stride - 1);
      assert NewChunk(rest[..stride], best)[1..] == PackLittle(mode, stride - 1);
    }
  }

  lemma {:induction false} FirstWantedMeans(entries: seq<Entry>, best: seq<Entry>)
    ensures FirstWanted(entries, best) == 0
            <==> forall i :: 0 <= i < |entries| ==> Wanted(Supported(best, entries[i].interface)) == 0
  {
    if entries != [] {
      FirstWantedMeans(entries[1..], best);
      assert forall i :: 1 <= i < |entries| ==> entries[i] == entries[1..][i - 1];
    }
  }

  lemma {:induction false} At(a: seq<Byte>, b: seq<Byte>, p: nat)
    requires p < |a| + |b|
    ensures (a + b)[p] == if p < |a| then a[p] else b[p - |a|]
  {
  }

  /** Whether a position lies among the flags of one of the entries. */
  ghost predicate IsFlag(entries: seq<Entry>, p: nat) {
    exists i :: 0 <= i < |entries| && entries[i].offset <= p < entries[i].offset + entries[i].size
  }

  lemma {:induction false} FlagBehind(first: Entry, more: seq<Entry>, p: nat)
    requires IsFlag(more, p)
    ensures IsFlag([first] + more, p)
  {
    var i :| 0 <= i < |more| && more[i].offset <= p < more[i].offset + more[i].size;
    assert ([first] + more)[i + 1] == more[i];
  }

  lemma {:induction false} FlagInFront(first: Entry, more: seq<Entry>, p: nat)
    requires first.offset <= p < first.offset + first.size
    ensures IsFlag([first] + more, p)
  {
    assert ([first] + more)[0] == first;
  }

  lemma {:induction false} ChunkChange(rest: seq<Byte>, stride: nat, best: seq<Entry>, p: nat)
    requires p < stride && 2 <= stride <= |rest| && NewChunk(rest[..stride], best)[p] != rest[p]
    ensures p > 0
  {
    ChunkReads(rest, stride, best);
  }

  /** Bytes change only among an entry's flags. */
  lemma {:induction false} ChangesAreFlags(rest: seq<Byte>, stride: nat, n: nat, best: seq<Entry>, start: nat, p: nat)
    requires p < |rest| && Rewritten(rest, stride, n, best)[p] != rest[p]
    ensures IsFlag(ParseFrom(rest, stride, n, start), start + p)
    decreases n
  {
    var chunk, tail := rest[..stride], rest[stride..];
    var first, more := Entry(rest[0], LittleNat(rest[1..stride]), start + 1, stride - 1),
                       ParseFrom(tail, stride, n - 1, start + stride);
    ParseFirst(rest, stride, n, start);
    At(NewChunk(chunk, best), Rewritten(tail, stride, n - 1, best), p);
    if p < stride {
      ChunkChange(rest, stride, best, p);
      FlagInFront(first, more, start + p);
    } else {
      assert tail[p - stride] == rest[p];
      ChangesAreFlags(tail, stride, n - 1, best, start + stride, p - stride);
      FlagBehind(first, more, start + p);
    }
  }

  /** face_auth_target: nothing when no interface of the payload supports a face
      mode; otherwise the payload keeps its length, count, interface numbers,
      offsets and whatever is behind the entries, and reading it again gives
      every interface its best supported mode, or its old flags without one. */
  lemma {:induction false} TargetMeans(current: seq<Byte>, maximum: seq<Byte>)
    ensures var entries, best := Parse(current), Parse(maximum);
            var r := Target(current, maximum);
            && (r.None? <==> forall i :: 0 <= i < |entries| ==> Wanted(Supported(best, entries[i].interface)) == 0)
            && (r.Some? ==>
                  var made := r.value.0;
                  && |made| == |current| && made[0] == current[0] && |Parse(made)| == |entries|
                  && (forall i :: 0 <= i < |entries|
                                  ==> Parse(made)[i] == entries[i].(flags := NewFlags(entries[i], best)))
                  && r.value.1 == FirstWanted(entries, best) != 0)
  {
    var entries, best := Parse(current), Parse(maximum);
    FirstWantedMeans(entries, best);
    var r := Target(current, maximum);
    if r.Some? {
      var made := r.value.0;
      var stride := Stride(current);
      assert made[1..] == Rewritten(current[1..], stride, current[0], best);
      assert IsParsable(made) && Stride(made) == stride;
      var _, _ := RewrittenParses(current[1..], stride, current[0], best, 1);
    }
  }

  /** Every byte that is not among an interface's flags stays. */
  lemma {:induction false} OtherBytesStay(current: seq<Byte>, maximum: seq<Byte>, p: nat)
    requires Target(current, maximum).Some? && p < |current|
    requires !IsFlag(Parse(current), p)
    ensures Target(current, maximum).value.0[p] == current[p]
  {
    var made := Target(current, maximum).value.0;
    if p > 0 && made[p] != current[p] {
      assert current[1..][p - 1] == current[p];
      ChangesAreFlags(current[1..], Stride(current), current[0], Parse(maximum), 1, p - 1);
    }
  }

  /** face_auth_target */
  method FaceAuthTarget(current: seq<Byte>, maximum: seq<Byte>) returns (r: Option<(seq<Byte>, Byte)>)
    ensures r == Target(current, maximum)
  {
    var best := ParseFaceAuth(maximum);
    var entries := ParseFaceAuth(current);
    if entries == [] {
      return None;
    }
    PayloadHasRoom(current);
    var target, chosen := SwitchOn(current, entries, Stride(current), best);
    if chosen == 0 {
      return None;
    }
    return Some((target, chosen));
  }

  /** The loop on a copy of the payload. */
  method SwitchOn(current: seq<Byte>, entries: seq<Entry>, stride: nat, best: seq<Entry>)
    returns (made: seq<Byte>, chosen: Byte)
    requires current != [] && stride >= 2 && HasRoom(|current| - 1, |entries|, stride)
             && entries == ParseFrom(current[1..], stride, |entries|, 1)
    ensures made == [current[0]] + Rewritten(current[1..], stride, |entries|, best)
            && chosen == FirstWanted(entries, best)
  {
    var target := new Byte[|current|](i requires 0 <= i < |current| => current[i]);
    assert target[..] == current && current == [current[0]] + current[1..];
    chosen := SwitchAll(target, entries, stride, best, [current[0]], current[1..]);
    made := target[..];
  }

  /** The loop itself, over the bytes in front of the entries and the rest. */
  method SwitchAll(target: array<Byte>, entries: seq<Entry>, stride: nat, best: seq<Entry>, ghost before: seq<Byte>,
                   ghost behind: seq<Byte>)
    returns (chosen: Byte)
    requires target[..] == before + behind && stride >= 2 && HasRoom(|behind|, |entries|, stride)
    requires entries == ParseFrom(behind, stride, |entries|, |before|)
    modifies target
    ensures target[..] == before + Rewritten(behind, stride, |entries|, best) && chosen == FirstWanted(entries, best)
  {
    chosen := 0;
    var i: nat := 0;
    ghost var front, rest, left := before, behind, entries;
    ghost var end, first := front + Rewritten(rest, stride, |left|, best), FirstWanted(left, best);
    while i < |entries|
      invariant 0 <= i <= |entries| && left == entries[i..] && target[..] == front + rest
      invariant IsOnTheWay(front, rest, left, chosen, stride, best, end, first)
    {
      Rest(entries, i);
      ghost var front', rest' := OneFurther(front, rest, left, chosen, stride, best, end, first);
      var mode := SwitchEntry(target, entries[i], best);
      chosen := if chosen != 0 then chosen else mode;
      front, rest, left, i := front', rest', left[1..], i + 1;
    }
    Arrived(front, rest, left, chosen, stride, best, end, first);
  }

  /** The loop, with some entries left, is on its way to a payload and a mode. */
  ghost predicate IsOnTheWay(front: seq<Byte>, rest: seq<Byte>, left: seq<Entry>, chosen: Byte, stride: nat,
                             best: seq<Entry>, end: seq<Byte>, first: Byte)
  {
    && stride >= 2 && HasRoom(|rest|, |left|, stride) && left == ParseFrom(rest, stride, |left|, |front|)
    && end == front + Rewritten(rest, stride, |left|, best)
    && first == if chosen != 0 then chosen else FirstWanted(left, best)
  }

  lemma {:induction false} OneFurther(front: seq<Byte>, rest: seq<Byte>, left: seq<Entry>, chosen: Byte, stride: nat,
                                      best: seq<Entry>, end: seq<Byte>, first: Byte)
    returns (front': seq<Byte>, rest': seq<Byte>)
    requires IsOnTheWay(front, rest, left, chosen, stride, best, end, first) && left != []
    ensures left[0].size >= 1 && left[0].offset + left[0].size <= |front + rest|
    ensures var mode := Wanted(Supported(best, left[0].interface));
            && front' + rest' == SwitchedOn(front + rest, left[0], mode)
            && IsOnTheWay(front', rest', left[1..], if chosen != 0 then chosen else mode, stride, best, end, first)
  {
    NextEntry(front, rest, left, stride, best);
    NextWanted(left, best);
    front', rest' := front + NewChunk(rest[..stride], best), rest[stride..];
  }

  lemma {:induction false} Arrived(front: seq<Byte>, rest: seq<Byte>, left: seq<Entry>, chosen: Byte, stride: nat,
                                   best: seq<Entry>, end: seq<Byte>, first: Byte)
    requires IsOnTheWay(front, rest, left, chosen, stride, best, end, first) && left == []
    ensures front + rest == end && chosen == first
  {
  }

  lemma {:induction false} NextWanted(left: seq<Entry>, best: seq<Entry>)
    requires left != []
    ensures FirstWanted(left, best)
         == var mode := Wanted(Supported(best, left[0].interface));
           if mode != 0 then mode else FirstWanted(left[1..], best)
  {
  }

  method SwitchEntry(target: array<Byte>, entry: Entry, best: seq<Entry>) returns (mode: Byte)
    requires entry.size >= 1 && entry.offset + entry.size <= target.Length
    modifies target
    ensures mode == Wanted(Supported(best, entry.interface))
    ensures target[..] == SwitchedOn(old(target[..]), entry, mode)
  {
    mode := Wanted(Supported(best, entry.interface));
    if mode != 0 {
      WriteMode(target, entry.offset, entry.size, mode);
    }
  }

  /** The next entry lies at the start of the rest; switching it on replaces its chunk. */
  lemma {:induction false} NextEntry(front: seq<Byte>, rest: seq<Byte>, left: seq<Entry>, stride: nat, best: seq<Entry>)
    requires stride >= 2 && left != [] && HasRoom(|rest|, |left|, stride)
             && left == ParseFrom(rest, stride, |left|, |front|)
    ensures |rest| >= stride && HasRoom(|rest[stride..]|, |left[1..]|, stride)
    ensures left[0].interface == rest[0] && left[0].offset == |front| + 1 && left[0].size == stride - 1
    ensures var next := front + NewChunk(rest[..stride], best);
            && left[1..] == ParseFrom(rest[stride..], stride, |left[1..]|, |next|)
            && front + Rewritten(rest, stride, |left|, best)
               == next + Rewritten(rest[stride..], stride, |left[1..]|, best)
            && next + rest[stride..] == SwitchedOn(front + rest, left[0], Wanted(Supported(best, rest[0])))
  {
    var chunk, tail := rest[..stride], rest[stride..];
    var made := NewChunk(chunk, best);
    ParseFirst(rest, stride, |left|, |front|);
    Associate(front, made, Rewritten(tail, stride, |left| - 1, best));
    NextSwitched(front, rest, stride, best, left[0]);
  }

  lemma {:induction false} NextSwitched(front: seq<Byte>, rest: seq<Byte>, stride: nat, best: seq<Entry>, entry: Entry)
    requires 2 <= stride <= |rest| && entry.offset == |front| + 1 && entry.size == stride - 1
    ensures front + NewChunk(rest[..stride], best) + rest[stride..]
            == SwitchedOn(front + rest, entry, Wanted(Supported(best, rest[0])))
  {
    SwitchedChunk(front, rest, stride, Wanted(Supported(best, rest[0])));
    Halves(rest, stride);
    Associate(front, rest[..stride], rest[stride..]);
  }

  /** The payload with a mode written over the flags of an entry; 0 writes nothing. */
  function SwitchedOn(bytes: seq<Byte>, entry: Entry, mode: Byte): seq<Byte>
    requires entry.size >= 1 && entry.offset + entry.size <= |bytes|
  {
    if mode == 0 then bytes
    else bytes[..entry.offset] + PackLittle(mode, entry.size) + bytes[entry.offset + entry.size..]
  }

  lemma {:induction false} SwitchedChunk(front: seq<Byte>, rest: seq<Byte>, stride: nat, mode: Byte)
    requires 2 <= stride <= |rest|
    ensures var bytes, at := front + rest, |front| + 1;
            bytes[..at] + PackLittle(mode, stride - 1) + bytes[at + stride - 1..]
              == front + ([rest[0]] + PackLittle(mode, stride - 1)) + rest[stride..]
  {
    var bytes, at := front + rest, |front| + 1;
    assert bytes[..at] == front + [rest[0]];
    assert bytes[at + stride - 1..] == rest[stride..];
    assert front + [rest[0]] + PackLittle(mode, stride - 1) == front + ([rest[0]] + PackLittle(mode, stride - 1));
  }

  /** Writes the mode over size bytes, little endian. */
  method WriteMode(target: array<Byte>, offset: nat, size: nat, mode: Byte)
    requires size >= 1 && offset + size <= target.Length
    modifies target
    ensures target[..] == old(target[..])[..offset] + PackLittle(mode, size) + old(target[..])[offset + size..]
  {
    target[offset] := mode;
    var i := 1;
    while i < size
      invariant 1 <= i <= size
      invariant target[offset] == mode && forall k :: offset + 1 <= k < offset + i ==> target[k] == 0
      invariant forall k :: 0 <= k < target.Length && (k < offset || k >= offset + size) ==> target[k] == old(target[k])
    {
      target[offset + i] := 0;
      i := i + 1;
    }
    assert target[offset..offset + size] == PackLittle(mode, size);
    assert target[..offset] == old(target[..])[..offset] && target[offset + size..] == old(target[..])[offset + size..];
    assert target[..] == target[..offset] + target[offset..offset + size] + target[offset + size..];
  }

  // ------------------------------------------------ what the numbers stand for

  /** The alternative frame illumination (2) comes before the background subtraction (4). */
  lemma {:induction false} WantedMeans(modes: nat)
    ensures Wanted(modes) == 2 <==> modes / 2 % 2 == 1
    ensures Wanted(modes) == 4 <==> modes / 2 % 2 == 0 && modes / 4 % 2 == 1
    ensures Wanted(modes) == 0 <==> modes / 2 % 2 == 0 && modes / 4 % 2 == 0
  {
  }

  /** What is supported is what the last entry of the interface says. */
  lemma {:induction false} SupportedIsLast(entries: seq<Entry>, interface: Byte, k: nat)
    requires k < |entries| && entries[k].interface == interface
    requires forall j :: k < j < |entries| ==> entries[j].interface != interface
    ensures Supported(entries, interface) == entries[k].flags
  {
    if k < |entries| - 1 {
      SupportedIsLast(entries[..|entries| - 1], interface, k);
    }
  }

  /** Without one, nothing is. */
  lemma {:induction false} NoneSupported(entries: seq<Entry>, interface: Byte)
    requires forall k :: 0 <= k < |entries| ==> entries[k].interface != interface
    ensures Supported(entries, interface) == 0
  {
    if entries != [] {
      NoneSupported(entries[..|entries| - 1], interface);
    }
  }

  /** Little endian: the first byte counts least. */
  lemma {:induction false} LittleMeans(a: Byte, b: Byte, c: Byte, d: Byte)
    ensures LittleNat([a]) == a && LittleNat([a, b]) == a + 256 * b
    ensures LittleNat([a, b, c, d]) == a + 256 * b + 65536 * c + 16777216 * d
  {
    LittleFirst(a, []);
    LittleFirst(b, []);
    LittleFirst(a, [b]);
    LittleFirst(d, []);
    LittleFirst(c, [d]);
    LittleFirst(b, [c, d]);
    LittleFirst(a, [b, c, d]);
    assert [a] + [] == [a] && [b] + [] == [b] && [d] + [] == [d] && [a] + [b] == [a, b] && [c] + [d] == [c, d];
    assert [b] + [c, d] == [b, c, d] && [a] + [b, c, d] == [a, b, c, d];
  }

  lemma {:induction false} LittleFirst(a: Byte, rest: seq<Byte>)
    ensures LittleNat([a] + rest) == a + 256 * LittleNat(rest)
  {
    assert ([a] + rest)[1..] == rest;
  }

  /** Behind its first byte, the number of entries, a payload is cut into that
      many equal parts: an interface, then its flags. */
  lemma {:induction false} ParsedAt(rest: seq<Byte>, stride: nat, n: nat, start: nat, i: nat)
    requires stride >= 2 && i < n && HasRoom(|rest|, n, stride)
    ensures i * stride >= 0 && (i + 1) * stride == i * stride + stride <= |rest|
            && i < |ParseFrom(rest, stride, n, start)|
    ensures ParseFrom(rest, stride, n, start)[i]
         == Entry(rest[i * stride], LittleNat(rest[i * stride + 1..(i + 1) * stride]),
                  start + i * stride + 1, stride - 1)
    decreases n
  {
    ParseFirst(rest, stride, n, start);
    NextMultiple(i, stride);
    if i > 0 {
      NextMultiple(i - 1, stride);
      ParsedAt(rest[stride..], stride, n - 1, start + stride, i - 1);
      PartBehind(rest, stride, (i - 1) * stride);
    }
  }

  lemma {:induction false} NextMultiple(i: nat, stride: nat)
    ensures 0 <= i * stride && (i + 1) * stride == i * stride + stride && 0 * stride == 0
  {
  }

  lemma {:induction false} PartBehind(rest: seq<Byte>, stride: nat, at: nat)
    requires stride >= 2 && stride + at + stride <= |rest|
    ensures rest[stride..][at] == rest[at + stride]
    ensures rest[stride..][at + 1..at + stride] == rest[at + stride + 1..at + stride + stride]
  {
  }
}
