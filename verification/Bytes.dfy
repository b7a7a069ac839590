/** Bytes and the fixed-width integers packed into them. */
module Bytes {
  type Byte = x: int | 0 <= x < 256
  type Word = x: int | 0 <= x < 0x1_0000
  type DWord = x: int | 0 <= x < 0x1_0000_0000

  function LittleWord(s: seq<Byte>): Word
    requires |s| == 2
  {
    var low: int, high: int := s[0], s[1];
    low + 256 * high
  }

  function BigWord(s: seq<Byte>): Word
    requires |s| == 2
  {
    var high: int, low: int := s[0], s[1];
    256 * high + low
  }

  function PackLittleWord(x: Word): (s: seq<Byte>)
    ensures |s| == 2 && LittleWord(s) == x
  {
    [x % 256, x / 256]
  }

  function PackBigWord(x: Word): (s: seq<Byte>)
    ensures |s| == 2 && BigWord(s) == x
  {
    [x / 256, x % 256]
  }

  function LittleDWord(s: seq<Byte>): DWord
    requires |s| == 4
  {
    var low: int, high: int := LittleWord(s[..2]), LittleWord(s[2..]);
    low + 0x1_0000 * high
  }

  function BigDWord(s: seq<Byte>): DWord
    requires |s| == 4
  {
    var high: int, low: int := BigWord(s[..2]), BigWord(s[2..]);
    0x1_0000 * high + low
  }

  function PackLittleDWord(x: DWord): (s: seq<Byte>)
    ensures |s| == 4 && LittleDWord(s) == x
  {
    var low, high := PackLittleWord(x % 0x1_0000), PackLittleWord(x / 0x1_0000);
    assert (low + high)[..2] == low && (low + high)[2..] == high;
    low + high
  }

  function PackBigDWord(x: DWord): (s: seq<Byte>)
    ensures |s| == 4 && BigDWord(s) == x
  {
    var high, low := PackBigWord(x / 0x1_0000), PackBigWord(x % 0x1_0000);
    assert (high + low)[..2] == high && (high + low)[2..] == low;
    high + low
  }
}
