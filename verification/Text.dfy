/** Python's string operations the PAM rewriting is built from: splitlines,
    split, strip, substring search. A text read from disk has no '\r' (universal
    newlines), so "\r\n" never has to count as one line break here. */
module Text {

  predicate IsSpace(c: char) {
    var n := c as int;
    9 <= n <= 13 || 28 <= n <= 32 || n == 0x85 || n == 0xA0 || n == 0x1680
    || 0x2000 <= n <= 0x200A || n == 0x2028 || n == 0x2029 || n == 0x202F || n == 0x205F || n == 0x3000
  }

  predicate IsBreak(c: char) {
    var n := c as int;
    10 <= n <= 13 || 28 <= n <= 30 || n == 0x85 || n == 0x2028 || n == 0x2029
  }

  // ---------------------------------------------------------------- lines

  /** Length of the first line, its break included. */
  function LineEnd(t: string): (k: nat)
    requires t != ""
    ensures 1 <= k <= |t|
  {
    if IsBreak(t[0]) || |t| == 1 then 1 else 1 + LineEnd(t[1..])
  }

  lemma {:induction false} LineEndIsFirst(t: string)
    requires t != ""
    ensures var k := LineEnd(t); (forall i :: 0 <= i < k - 1 ==> !IsBreak(t[i])) && (k < |t| ==> IsBreak(t[k - 1]))
  {
    if !IsBreak(t[0]) && |t| > 1 {
      LineEndIsFirst(t[1..]);
    }
  }

  /** str.splitlines(keepends=True) */
  function SplitLines(t: string): (ls: seq<string>)
    ensures t == "" <==> ls == []
  {
    if t == "" then [] else [t[..LineEnd(t)]] + SplitLines(t[LineEnd(t)..])
  }

  /** "".join(lines) */
  function Join(ls: seq<string>): string {
    if ls == [] then "" else ls[0] + Join(ls[1..])
  }

  predicate IsLine(l: string) {
    l != "" && forall i :: 0 <= i < |l| - 1 ==> !IsBreak(l[i])
  }

  predicate EndsInBreak(l: string) {
    l != "" && IsBreak(l[|l| - 1])
  }

  /** What splitlines returns: one line each, all but the last ending in a break. */
  predicate Canonical(ls: seq<string>) {
    && (forall i :: 0 <= i < |ls| ==> IsLine(ls[i]))
    && (forall i :: 0 <= i < |ls| - 1 ==> EndsInBreak(ls[i]))
  }

  lemma {:induction false} ConsCanonical(line: string, rest: seq<string>)
    requires IsLine(line) && (rest != [] ==> EndsInBreak(line)) && Canonical(rest)
    ensures Canonical([line] + rest)
  {
  }

  lemma {:induction false} FirstIsLine(t: string)
    requires t != ""
    ensures var k := LineEnd(t); IsLine(t[..k]) && (k < |t| ==> EndsInBreak(t[..k]))
  {
    LineEndIsFirst(t);
  }

  lemma {:induction false} SplitIsCanonical(t: string)
    ensures Canonical(SplitLines(t))
  {
    if t != "" {
      var k := LineEnd(t);
      FirstIsLine(t);
      SplitIsCanonical(t[k..]);
      ConsCanonical(t[..k], SplitLines(t[k..]));
    }
  }

  lemma {:induction false} JoinCons(head: string, tail: seq<string>)
    ensures Join([head] + tail) == head + Join(tail)
  {
    assert ([head] + tail)[1..] == tail;
  }

  lemma {:induction false} JoinOfSplit(t: string)
    ensures Join(SplitLines(t)) == t
  {
    if t != "" {
      var k := LineEnd(t);
      JoinOfSplit(t[k..]);
      JoinCons(t[..k], SplitLines(t[k..]));
    }
  }

  lemma {:induction false} SplitOfJoin(ls: seq<string>)
    requires Canonical(ls)
    ensures SplitLines(Join(ls)) == ls
  {
    if ls != [] {
      var t, rest := Join(ls), Join(ls[1..]);
      assert Canonical(ls[1..]);
      SplitOfJoin(ls[1..]);
      var k := LineEnd(t);
      LineEndIsFirst(t);
      assert forall i :: 0 <= i < |ls[0]| ==> t[i] == ls[0][i];
      if ls[1..] == [] {
        assert t == ls[0];
        assert k == |t|;
      } else {
        assert t[|ls[0]| - 1] == ls[0][|ls[0]| - 1];
        assert IsBreak(t[|ls[0]| - 1]);
        assert k == |ls[0]|;
      }
      assert t[..k] == ls[0] && t[k..] == rest;
    }
  }

  lemma {:induction false} JoinAppend(a: seq<string>, b: seq<string>)
    ensures Join(a + b) == Join(a) + Join(b)
  {
    if a == [] {
      assert a + b == b;
    } else {
      assert (a + b)[1..] == a[1..] + b;
      JoinAppend(a[1..], b);
    }
  }

  // ------------------------------------------------------------ substrings

  predicate ContainsAt(t: string, m: string, k: int) {
    0 <= k <= |t| - |m| && t[k..k + |m|] == m
  }

  /** m in t */
  predicate Contains(t: string, m: string) {
    exists k :: 0 <= k <= |t| && ContainsAt(t, m, k)
  }

  predicate HasContent(m: string) {
    m != "" && forall i :: 0 <= i < |m| ==> !IsBreak(m[i])
  }

  lemma {:induction false} ContainsLeft(a: string, b: string, m: string)
    requires Contains(a, m)
    ensures Contains(a + b, m)
  {
    var k :| 0 <= k <= |a| && ContainsAt(a, m, k);
    assert (a + b)[k..k + |m|] == a[k..k + |m|];
    assert ContainsAt(a + b, m, k);
  }

  lemma {:induction false} ContainsRight(a: string, b: string, m: string)
    requires Contains(b, m)
    ensures Contains(a + b, m)
  {
    var k :| 0 <= k <= |b| && ContainsAt(b, m, k);
    assert (a + b)[|a| + k..|a| + k + |m|] == b[k..k + |m|];
    assert ContainsAt(a + b, m, |a| + k);
  }

  lemma {:induction false} StraddlesNoBreak(a: string, b: string, m: string, k: nat)
    requires HasContent(m) && ContainsAt(a + b, m, k) && k < |a| < k + |m|
    ensures b != "" && !EndsInBreak(a)
  {
    assert (a + b)[k..k + |m|][|a| - 1 - k] == a[|a| - 1];
  }

  /** A marker without line breaks lies on one side of a line break. */
  lemma {:induction false} ContainsSplit(a: string, b: string, m: string)
    requires HasContent(m) && Contains(a + b, m)
    requires a == "" || b == "" || EndsInBreak(a)
    ensures Contains(a, m) || Contains(b, m)
  {
    var t := a + b;
    var k :| 0 <= k <= |t| && ContainsAt(t, m, k);
    if k + |m| <= |a| {
      assert t[k..k + |m|] == a[k..k + |m|];
      assert ContainsAt(a, m, k);
    } else if k >= |a| {
      var j := k - |a|;
      assert (a + b)[|a| + j..|a| + j + |m|] == b[j..j + |m|];
      assert ContainsAt(b, m, j);
    } else {
      StraddlesNoBreak(a, b, m, k);
      assert false;
    }
  }

  lemma {:induction false} ContainsNeedsChar(t: string, m: string, c: char)
    requires c in m && c !in t
    ensures !Contains(t, m)
  {
    forall k ensures !ContainsAt(t, m, k) {
      var i :| 0 <= i < |m| && m[i] == c;
      assert 0 <= k <= |t| - |m| ==> t[k..k + |m|][i] == t[k + i];
    }
  }

  // ----------------------------------------------------------------- words

  predicate IsWord(w: string) {
    w != "" && forall i :: 0 <= i < |w| ==> !IsSpace(w[i])
  }

  function WordEnd(s: string): (k: nat)
    requires s != "" && !IsSpace(s[0])
    ensures 1 <= k <= |s|
  {
    if |s| == 1 || IsSpace(s[1]) then 1 else 1 + WordEnd(s[1..])
  }

  lemma {:induction false} WordEndIsFirst(s: string)
    requires s != "" && !IsSpace(s[0])
    ensures var k := WordEnd(s); (forall i :: 0 <= i < k ==> !IsSpace(s[i])) && (k < |s| ==> IsSpace(s[k]))
  {
    if |s| > 1 && !IsSpace(s[1]) {
      WordEndIsFirst(s[1..]);
    }
  }

  /** str.split() */
  function Words(s: string): (ws: seq<string>)
    ensures forall i :: 0 <= i < |ws| ==> ws[i] != ""
    decreases |s|
  {
    if s == "" then []
    else if IsSpace(s[0]) then Words(s[1..])
    else [s[..WordEnd(s)]] + Words(s[WordEnd(s)..])
  }

  lemma {:induction false} WordsAreWords(s: string)
    ensures forall i :: 0 <= i < |Words(s)| ==> IsWord(Words(s)[i])
    decreases |s|
  {
    if s != "" && IsSpace(s[0]) {
      WordsAreWords(s[1..]);
    } else if s != "" {
      WordEndIsFirst(s);
      WordsAreWords(s[WordEnd(s)..]);
    }
  }

  /** " ".join(words) */
  function JoinWords(ws: seq<string>): string {
    if ws == [] then "" else if |ws| == 1 then ws[0] else ws[0] + " " + JoinWords(ws[1..])
  }

  lemma {:induction false} WordsOfWordThen(w: string, sep: char, rest: string)
    requires IsWord(w) && IsSpace(sep)
    ensures Words(w + [sep] + rest) == [w] + Words(rest)
  {
    var s := w + [sep] + rest;
    assert s[0] == w[0];
    var k := WordEnd(s);
    WordEndIsFirst(s);
    assert forall i :: 0 <= i < |w| ==> s[i] == w[i];
    assert s[|w|] == sep;
    assert k == |w|;
    assert s[..k] == w;
    assert s[k..] == [sep] + rest;
    assert s[k..][1..] == rest;
  }

  lemma {:induction false} WordsOfWord(w: string)
    requires IsWord(w)
    ensures Words(w) == [w]
  {
    var k := WordEnd(w);
    WordEndIsFirst(w);
    assert k == |w|;
    assert w[..k] == w && w[k..] == "";
  }

  lemma {:induction false} WordsOfJoin(ws: seq<string>)
    requires forall i :: 0 <= i < |ws| ==> IsWord(ws[i])
    ensures Words(JoinWords(ws)) == ws
  {
    if ws == [] {
    } else if |ws| == 1 {
      WordsOfWord(ws[0]);
    } else {
      WordsOfJoin(ws[1..]);
      WordsOfWordThen(ws[0], ' ', JoinWords(ws[1..]));
    }
  }

  lemma {:induction false} WordsBeforeSpace(s: string, c: char)
    requires IsSpace(c)
    ensures Words(s + [c]) == Words(s)
    decreases |s|
  {
    if s == "" {
      assert s + [c] == [c];
      assert [c][1..] == "";
    } else if IsSpace(s[0]) {
      assert (s + [c])[1..] == s[1..] + [c];
      WordsBeforeSpace(s[1..], c);
    } else {
      var k := WordEnd(s);
      WordEndIsFirst(s);
      WordsBeforeSpace(s[k..], c);
      if k == |s| {
        assert s + [c] == s + [c] + "";
        WordsOfWordThen(s, c, "");
        assert s[..k] == s;
      } else {
        var t := s + [c];
        assert forall i :: 0 <= i < |s| ==> t[i] == s[i];
        WordEndIsFirst(t);
        assert WordEnd(t) == k;
        assert t[..k] == s[..k] && t[k..] == s[k..] + [c];
      }
    }
  }

  // ----------------------------------------------------------------- strip

  function LStrip(s: string): string {
    if s != "" && IsSpace(s[0]) then LStrip(s[1..]) else s
  }

  function RStrip(s: string): string {
    if s != "" && IsSpace(s[|s| - 1]) then RStrip(s[..|s| - 1]) else s
  }

  /** str.strip() */
  function Strip(s: string): string {
    RStrip(LStrip(s))
  }

  predicate AllSpace(s: string) {
    forall i :: 0 <= i < |s| ==> IsSpace(s[i])
  }

  /** What is left between the blanks on both sides. */
  lemma {:induction false} StripMeans(s: string) returns (a: string, b: string)
    ensures s == a + Strip(s) + b && AllSpace(a) && AllSpace(b) && (Strip(s) == "" || Tight(Strip(s)))
  {
    a := LStripped(s);
    b := RStripped(LStrip(s));
    assert s == a + (Strip(s) + b);
    if Strip(s) != "" {
      assert Strip(s)[0] == LStrip(s)[0];
    }
  }

  lemma {:induction false} LStripped(s: string) returns (a: string)
    ensures s == a + LStrip(s) && AllSpace(a) && (LStrip(s) != "" ==> !IsSpace(LStrip(s)[0]))
  {
    a := "";
    if s != "" && IsSpace(s[0]) {
      var rest := LStripped(s[1..]);
      a := [s[0]] + rest;
    }
  }

  lemma {:induction false} RStripped(s: string) returns (b: string)
    ensures s == RStrip(s) + b && AllSpace(b) && (RStrip(s) != "" ==> !IsSpace(RStrip(s)[|RStrip(s)| - 1]))
  {
    b := "";
    if s != "" && IsSpace(s[|s| - 1]) {
      var rest := RStripped(s[..|s| - 1]);
      b := rest + [s[|s| - 1]];
    }
  }

  /** Nothing to strip on either side. */
  predicate Tight(s: string) {
    s != "" && !IsSpace(s[0]) && !IsSpace(s[|s| - 1])
  }

  lemma {:induction false} StripOfTightLine(s: string)
    requires Tight(s)
    ensures Strip(s) == s && Strip(s + "\n") == s
  {
    var t := s + "\n";
    assert t[0] == s[0];
    assert LStrip(t) == t;
    assert t[|t| - 1] == '\n' && t[..|t| - 1] == s;
    assert RStrip(t) == RStrip(s) == s;
  }

  function StripChar(s: string, c: char): string {
    if s != "" && s[0] == c then StripChar(s[1..], c) else s
  }

  /** What is left behind the leading c's. */
  lemma {:induction false} StripCharMeans(s: string, c: char)
    ensures var r := StripChar(s, c); var n := |s| - |r|;
            n >= 0 && s[n..] == r && (forall i :: 0 <= i < n ==> s[i] == c) && (r != "" ==> r[0] != c)
  {
    if s != "" && s[0] == c {
      StripCharMeans(s[1..], c);
      assert forall i :: 1 <= i < |s| ==> s[i] == s[1..][i - 1];
    }
  }

  predicate StartsWith(s: string, p: string) {
    |p| <= |s| && s[..|p|] == p
  }

  predicate EndsWith(s: string, p: string) {
    |p| <= |s| && s[|s| - |p|..] == p
  }

  /** os.path.basename */
  function Basename(path: string): string
    decreases |path|
  {
    if '/' in path then Basename(AfterSlash(path)) else path
  }

  function AfterSlash(path: string): (r: string)
    requires '/' in path
    ensures |r| < |path|
  {
    if path[0] == '/' then path[1..] else AfterSlash(path[1..])
  }

  /** What is left behind the last slash. */
  lemma {:induction false} BasenameMeans(path: string)
    ensures var r := Basename(path); EndsWith(path, r) && '/' !in r && (r != path ==> EndsWith(path, "/" + r))
    decreases |path|
  {
    if '/' in path {
      var behind := AfterSlash(path);
      BehindSlash(path);
      BasenameMeans(behind);
      var r := Basename(path);
      EndsBehind(path, behind, r);
      if r != behind {
        EndsBehind(path, behind, "/" + r);
      }
    }
  }

  lemma {:induction false} BehindSlash(path: string)
    requires '/' in path
    ensures EndsWith(path, "/" + AfterSlash(path)) && EndsWith(path, AfterSlash(path))
  {
    if path[0] == '/' {
      assert path == "/" + path[1..];
    } else {
      BehindSlash(path[1..]);
      EndsBehind(path, path[1..], "/" + AfterSlash(path));
      EndsBehind(path, path[1..], AfterSlash(path));
    }
  }

  lemma {:induction false} EndsBehind(s: string, t: string, p: string)
    requires EndsWith(s, t) && EndsWith(t, p)
    ensures EndsWith(s, p)
  {
    assert s[|s| - |p|..] == t[|t| - |p|..];
  }

  /** The two sides of split("=", 1). */
  function BeforeEquals(s: string): string {
    if s == "" || s[0] == '=' then "" else [s[0]] + BeforeEquals(s[1..])
  }

  function AfterEquals(s: string): string {
    if s == "" then "" else if s[0] == '=' then s[1..] else AfterEquals(s[1..])
  }
}
