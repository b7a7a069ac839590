/** What inserting and removing blocks does to a service file that had none:
    every combination of blocks is reached in any order and undone exactly. */
module PamBlocks {
  import opened Text
  import opened Outcomes
  import opened PamLines

  /** Lines of a newline-terminated text. */
  predicate Whole(ls: seq<string>) {
    ls == [] || (IsLine(ls[0]) && EndsInBreak(ls[0]) && Whole(ls[1..]))
  }

  /** Some line holds m. */
  predicate Mentions(ls: seq<string>, m: string) {
    ls != [] && (Contains(ls[0], m) || Mentions(ls[1..], m))
  }

  /** No line is a marker line, as remove_block tests it. */
  predicate Unmarked(ls: seq<string>, begins: seq<string>) {
    ls == [] || (Strip(ls[0]) !in begins && Unmarked(ls[1..], begins))
  }

  predicate NoAuth(ls: seq<string>) {
    ls == [] || (!IsAuthLine(ls[0]) && NoAuth(ls[1..]))
  }

  lemma {:induction false} WholeAppend(a: seq<string>, b: seq<string>)
    ensures Whole(a + b) <==> Whole(a) && Whole(b)
  {
    if a == [] {
      assert a + b == b;
    } else {
      assert (a + b)[1..] == a[1..] + b;
      WholeAppend(a[1..], b);
    }
  }

  lemma {:induction false} MentionsAppend(a: seq<string>, b: seq<string>, m: string)
    ensures Mentions(a + b, m) <==> Mentions(a, m) || Mentions(b, m)
  {
    if a == [] {
      assert a + b == b;
    } else {
      assert (a + b)[1..] == a[1..] + b;
      MentionsAppend(a[1..], b, m);
    }
  }

  // ------------------------------------------------------------- constants

  lemma {:induction false} MarkersAreLines()
    ensures Tight(BEGIN) && Tight(WALLET_BEGIN) && Tight(END)
    ensures HasContent(BEGIN) && HasContent(WALLET_BEGIN) && HasContent(END)
  {
    BeginIsALine();
    WalletBeginIsALine();
    EndIsALine();
  }

  lemma {:induction false} BeginIsALine()
    ensures Tight(BEGIN) && HasContent(BEGIN)
  {
  }

  lemma {:induction false} WalletBeginIsALine()
    ensures Tight(WALLET_BEGIN) && HasContent(WALLET_BEGIN)
  {
  }

  lemma {:induction false} EndIsALine()
    ensures Tight(END) && HasContent(END)
  {
  }

  /** A marker line holds no other marker. */
  lemma {:induction false} MarkersDiffer(m: string, other: string)
    requires m in [BEGIN, WALLET_BEGIN, END] && other in BEGINS && m != other
    ensures !Contains(m + "\n", other)
  {
    var line := m + "\n";
    assert BEGIN[20] == '(' && WALLET_BEGIN[20] == 'k' && BEGIN[2] == WALLET_BEGIN[2] == 'B' && END[2] == 'E';
    forall k | 0 <= k <= |line| - |other| ensures !ContainsAt(line, other, k) {
      var part := line[k..k + |other|];
      assert part[0] == line[k];
      if k == 0 {
        assert part[2] == line[2] && part[20] == line[20];
      } else {
        assert line[k] != '#';
      }
    }
  }

  // ------------------------------------------------------- lines and texts

  /** A newline-terminated text is its lines, each with its break, and reads back as them. */
  lemma {:induction false} WholeOfSplit(ls: seq<string>)
    requires Canonical(ls) && (ls == [] || EndsInBreak(ls[|ls| - 1]))
    ensures Whole(ls)
  {
    if ls != [] {
      assert Canonical(ls[1..]);
      WholeOfSplit(ls[1..]);
    }
  }

  lemma {:induction false} WholeIsCanonical(ls: seq<string>)
    requires Whole(ls)
    ensures Canonical(ls) && forall i :: 0 <= i < |ls| ==> EndsInBreak(ls[i])
  {
    if ls != [] {
      WholeIsCanonical(ls[1..]);
      assert forall i :: 1 <= i < |ls| ==> ls[i] == ls[1..][i - 1];
    }
  }

  lemma {:induction false} EndedIsWhole(text: string)
    requires EndsWith(text, "\n")
    ensures var ls := SplitLines(text);
            Whole(ls) && ls != [] && EndsWith(ls[|ls| - 1], "\n") && WithNewline(ls) == ls && Join(ls) == text
  {
    var ls := SplitLines(text);
    JoinOfSplit(text);
    SplitIsCanonical(text);
    assert text[|text| - 1] == '\n';
    JoinLastChar(ls);
    WholeOfSplit(ls);
    JoinEndsWithLast(ls);
  }

  lemma {:induction false} JoinLastChar(ls: seq<string>)
    requires ls != [] && forall i :: 0 <= i < |ls| ==> ls[i] != ""
    ensures Join(ls) != "" && Join(ls)[|Join(ls)| - 1] == ls[|ls| - 1][|ls[|ls| - 1]| - 1]
  {
    if |ls| == 1 {
      assert Join(ls[1..]) == "";
    } else {
      JoinLastChar(ls[1..]);
    }
  }

  lemma {:induction false} JoinEndsWithLast(ls: seq<string>)
    requires ls != [] && Whole(ls)
    ensures EndsWith(Join(ls), "\n") <==> EndsWith(ls[|ls| - 1], "\n")
  {
    if |ls| == 1 {
      assert Join(ls[1..]) == "";
    } else {
      JoinEndsWithLast(ls[1..]);
      var rest := Join(ls[1..]);
      assert ls[1..][0] != "" && rest != "";
      assert (ls[0] + rest)[|ls[0]| + |rest| - 1..] == rest[|rest| - 1..];
    }
  }

  lemma {:induction false} MentionsOfJoin(ls: seq<string>, m: string)
    requires Whole(ls) && HasContent(m)
    ensures Contains(Join(ls), m) <==> Mentions(ls, m)
  {
    if ls != [] {
      var rest := Join(ls[1..]);
      MentionsOfJoin(ls[1..], m);
      if Contains(ls[0], m) {
        ContainsLeft(ls[0], rest, m);
      } else if Contains(rest, m) {
        ContainsRight(ls[0], rest, m);
      } else if Contains(ls[0] + rest, m) {
        ContainsSplit(ls[0], rest, m);
      }
    }
  }

  lemma {:induction false} SplitOfWhole(ls: seq<string>)
    requires Whole(ls)
    ensures SplitLines(Join(ls)) == ls
  {
    WholeIsCanonical(ls);
    SplitOfJoin(ls);
  }

  // ------------------------------------------------------------- stripping

  lemma {:induction false} LStripIsSuffix(s: string) returns (k: nat)
    ensures k <= |s| && LStrip(s) == s[k..]
  {
    if s != "" && IsSpace(s[0]) {
      k := LStripIsSuffix(s[1..]);
      k := k + 1;
    } else {
      k := 0;
    }
  }

  lemma {:induction false} RStripIsPrefix(s: string) returns (k: nat)
    ensures k <= |s| && RStrip(s) == s[..k]
  {
    if s != "" && IsSpace(s[|s| - 1]) {
      k := RStripIsPrefix(s[..|s| - 1]);
    } else {
      k := |s|;
    }
  }

  /** remove_block's test implies has_block's. */
  lemma {:induction false} StripIsContained(s: string)
    ensures Contains(s, Strip(s))
  {
    var k := LStripIsSuffix(s);
    var n := RStripIsPrefix(s[k..]);
    assert s[k..][..n] == s[k..k + n];
    assert ContainsAt(s, Strip(s), k);
  }

  lemma {:induction false} RStripKeepsFirst(s: string)
    requires s != "" && !IsSpace(s[0])
    ensures RStrip(s) != "" && RStrip(s)[0] == s[0]
  {
    if IsSpace(s[|s| - 1]) {
      RStripKeepsFirst(s[..|s| - 1]);
    }
  }

  lemma {:induction false} NotAMarker(line: string)
    requires line != "" && !IsSpace(line[0]) && line[0] != '#'
    ensures Strip(line) !in BEGINS && Strip(line) != END
  {
    RStripKeepsFirst(line);
  }

  lemma {:induction false} UnmarkedWithoutMention(ls: seq<string>, begins: seq<string>)
    requires forall m :: m in begins ==> !Mentions(ls, m)
    ensures Unmarked(ls, begins)
  {
    if ls != [] {
      StripIsContained(ls[0]);
      UnmarkedWithoutMention(ls[1..], begins);
    }
  }

  // ------------------------------------------------------ removing a block

  lemma {:induction false} OutsideUnmarked(p: seq<string>, s: seq<string>, begins: seq<string>)
    requires Unmarked(p, begins)
    ensures OutsideBlocks(p + s, begins) == p + OutsideBlocks(s, begins)
  {
    if p == [] {
      assert p + s == s;
    } else {
      assert (p + s)[1..] == p[1..] + s;
      OutsideUnmarked(p[1..], s, begins);
      assert p == [p[0]] + p[1..];
    }
  }

  lemma {:induction false} AfterInner(inner: seq<string>, s: seq<string>, begins: seq<string>, block: seq<string>)
    requires forall i :: 0 <= i < |inner| ==> Strip(inner[i]) != END
    ensures AfterBlock(inner + [END + "\n"] + s, begins, block) == OutsideBlocks(s, begins)
  {
    var all := inner + [END + "\n"] + s;
    if inner == [] {
      MarkersAreLines();
      StripOfTightLine(END);
      assert all == [END + "\n"] + s;
      assert all[1..] == s;
    } else {
      assert all[1..] == inner[1..] + [END + "\n"] + s;
      AfterInner(inner[1..], s, begins, block + [inner[0]]);
    }
  }

  /** A block as we write it: its marker, lines that are no markers, the END line. */
  function Marked(mark: string, inner: seq<string>): seq<string> {
    [mark + "\n"] + inner + [END + "\n"]
  }

  predicate IsInner(inner: seq<string>) {
    inner == [] || (inner[0] != "" && inner[0][0] != '#' && !IsSpace(inner[0][0]) && IsInner(inner[1..]))
  }

  lemma {:induction false} InnerIsUnmarked(inner: seq<string>, begins: seq<string>)
    requires IsInner(inner) && begins in [[BEGIN], [WALLET_BEGIN], BEGINS]
    ensures Unmarked(inner, begins)
    ensures forall i :: 0 <= i < |inner| ==> Strip(inner[i]) != END
  {
    if inner != [] {
      NotAMarker(inner[0]);
      InnerIsUnmarked(inner[1..], begins);
      assert forall i :: 1 <= i < |inner| ==> inner[i] == inner[1..][i - 1];
    }
  }

  lemma {:induction false} OutsideBlock(mark: string, inner: seq<string>, s: seq<string>, begins: seq<string>)
    requires mark in BEGINS && IsInner(inner) && begins in [[BEGIN], [WALLET_BEGIN], BEGINS]
    ensures OutsideBlocks(Marked(mark, inner) + s, begins)
         == (if mark in begins then [] else Marked(mark, inner)) + OutsideBlocks(s, begins)
  {
    MarkersAreLines();
    StripOfTightLine(mark);
    InnerIsUnmarked(inner, begins);
    if mark in begins {
      AfterInner(inner, s, begins, []);
      OwnBlockGoes(mark + "\n", inner, END + "\n", s, begins);
    } else {
      StripOfTightLine(END);
      EndIsNoBegin();
      OtherBlockStays(mark + "\n", inner, END + "\n", s, begins);
    }
  }

  lemma {:induction false} EndIsNoBegin()
    ensures END != BEGIN && END != WALLET_BEGIN
  {
    assert END[2] == 'E' && BEGIN[2] == WALLET_BEGIN[2] == 'B';
  }

  lemma {:induction false} OwnBlockGoes(first: string, inner: seq<string>, last: string, s: seq<string>,
                                        begins: seq<string>)
    requires Strip(first) in begins && AfterBlock(inner + [last] + s, begins, []) == OutsideBlocks(s, begins)
    ensures OutsideBlocks([first] + inner + [last] + s, begins) == [] + OutsideBlocks(s, begins)
  {
    var rest := inner + [last] + s;
    assert [first] + inner + [last] + s == [first] + rest;
    assert ([first] + rest)[1..] == rest;
    assert [] + OutsideBlocks(s, begins) == OutsideBlocks(s, begins);
  }

  lemma {:induction false} FourParts(a: seq<string>, b: seq<string>, c: seq<string>, d: seq<string>)
    ensures a + (b + (c + d)) == a + b + c + d
  {
  }

  lemma {:induction false} OtherBlockStays(first: string, inner: seq<string>, last: string, s: seq<string>,
                                           begins: seq<string>)
    requires Strip(first) !in begins && Strip(last) !in begins && Unmarked(inner, begins)
    ensures OutsideBlocks([first] + inner + [last] + s, begins) == [first] + inner + [last] + OutsideBlocks(s, begins)
  {
    var rest := [last] + s;
    FourParts([first], inner, [last], s);
    assert ([first] + (inner + rest))[1..] == inner + rest;
    OutsideUnmarked(inner, rest, begins);
    assert rest[1..] == s;
    FourParts([first], inner, [last], OutsideBlocks(s, begins));
  }

  // ------------------------------------------------------- lines left out

  /** Leaving lines out keeps the others lines. */
  lemma {:induction false} NotOursIsCanonical(ls: seq<string>)
    requires Canonical(ls)
    ensures Canonical(NotOurs(ls))
  {
    if ls != [] {
      assert Canonical(ls[1..]);
      NotOursIsCanonical(ls[1..]);
      var rest := NotOurs(ls[1..]);
      if ls[1..] == [] {
        assert rest == [];
      }
      if Ours(ls[0]) {
        assert NotOurs(ls) == rest;
      } else {
        assert NotOurs(ls) == [ls[0]] + rest;
      }
    }
  }

  /** A canonical sequence with lines left out. */
  lemma {:induction false} OutsideIsCanonical(ls: seq<string>, begins: seq<string>)
    requires Canonical(ls)
    ensures Canonical(OutsideBlocks(ls, begins))
    decreases ls
  {
    if ls != [] {
      assert Canonical(ls[1..]);
      if Strip(ls[0]) in begins {
        AfterIsCanonical(ls[1..], begins, []);
      } else {
        OutsideIsCanonical(ls[1..], begins);
        if ls[1..] == [] {
          assert OutsideBlocks(ls[1..], begins) == [];
        }
      }
    }
  }

  lemma {:induction false} AfterIsCanonical(ls: seq<string>, begins: seq<string>, block: seq<string>)
    requires Canonical(block + ls)
    ensures Canonical(AfterBlock(ls, begins, block))
    decreases ls
  {
    if ls == [] {
      assert block + ls == block;
      NotOursIsCanonical(block);
    } else if Strip(ls[0]) == END {
      assert forall i :: 0 <= i < |ls[1..]| ==> ls[1..][i] == (block + ls)[|block| + 1 + i];
      OutsideIsCanonical(ls[1..], begins);
    } else {
      assert block + [ls[0]] + ls[1..] == block + ls;
      AfterIsCanonical(ls[1..], begins, block + [ls[0]]);
    }
  }

  predicate HasEnd(ls: seq<string>) {
    ls != [] && (Strip(ls[0]) == END || HasEnd(ls[1..]))
  }

  /** No marker line has an END line behind it. */
  predicate NoBlock(ls: seq<string>, begins: seq<string>) {
    ls == [] || ((Strip(ls[0]) in begins ==> !HasEnd(ls[1..])) && NoBlock(ls[1..], begins))
  }

  lemma {:induction false} NoEndNoBlock(ls: seq<string>, begins: seq<string>)
    requires !HasEnd(ls)
    ensures NoBlock(ls, begins) && !HasEnd(NotOurs(ls))
  {
    if ls != [] {
      NoEndNoBlock(ls[1..], begins);
      LeftOutHead(ls);
    }
  }

  lemma {:induction false} LeftOutHead(ls: seq<string>)
    requires ls != []
    ensures NotOurs(ls) == NotOurs(ls[1..]) || (NotOurs(ls)[0] == ls[0] && NotOurs(ls)[1..] == NotOurs(ls[1..]))
  {
  }

  lemma {:induction false} HasEndAppend(ls: seq<string>, line: string)
    ensures HasEnd(ls + [line]) <==> HasEnd(ls) || Strip(line) == END
  {
    if ls == [] {
      assert ls + [line] == [line] && |[line][1..]| == 0;
    } else {
      assert (ls + [line])[1..] == ls[1..] + [line];
      HasEndAppend(ls[1..], line);
    }
  }

  /** remove_block leaves no block: a marker it leaves has no END behind it. */
  lemma {:induction false} OutsideHasNoBlock(ls: seq<string>, begins: seq<string>)
    ensures NoBlock(OutsideBlocks(ls, begins), begins)
    decreases ls
  {
    if ls != [] {
      if Strip(ls[0]) in begins {
        AfterHasNoBlock(ls[1..], begins, []);
      } else {
        OutsideHasNoBlock(ls[1..], begins);
        var rest := OutsideBlocks(ls[1..], begins);
        assert ([ls[0]] + rest)[1..] == rest;
      }
    }
  }

  lemma {:induction false} AfterHasNoBlock(ls: seq<string>, begins: seq<string>, block: seq<string>)
    requires !HasEnd(block)
    ensures NoBlock(AfterBlock(ls, begins, block), begins)
    decreases ls
  {
    if ls == [] {
      NoEndNoBlock(block, begins);
      NoEndNoBlock(NotOurs(block), begins);
    } else if Strip(ls[0]) == END {
      OutsideHasNoBlock(ls[1..], begins);
    } else {
      HasEndAppend(block, ls[0]);
      AfterHasNoBlock(ls[1..], begins, block + [ls[0]]);
    }
  }

  lemma {:induction false} EndAt(ls: seq<string>, j: nat)
    requires j < |ls| && Strip(ls[j]) == END
    ensures HasEnd(ls)
  {
    if j > 0 {
      EndAt(ls[1..], j - 1);
    }
  }

  lemma {:induction false} NoBlockAt(ls: seq<string>, begins: seq<string>, i: nat, j: nat)
    requires NoBlock(ls, begins) && i < j < |ls| && Strip(ls[i]) in begins
    ensures Strip(ls[j]) != END
  {
    if i > 0 {
      NoBlockAt(ls[1..], begins, i - 1, j - 1);
    } else if Strip(ls[j]) == END {
      assert ls[1..][j - 1] == ls[j];
      EndAt(ls[1..], j - 1);
    }
  }

  // ---------------------------------------------------------- patched files

  /** Lines of ours: one line each, no comment, so no part of a marker. */
  predicate Plain(s: string) {
    forall i :: 0 <= i < |s| ==> s[i] != '#' && !IsBreak(s[i])
  }

  predicate PlainLine(line: string) {
    line != "" && !IsSpace(line[0]) && Plain(line)
  }

  lemma {:induction false} ModuleIsPlain()
    ensures Plain(MODULE)
  {
  }

  lemma {:induction false} SpelledIsPlain(words: seq<string>, blanks: seq<char>)
    requires |words| == |blanks| + 1 && words[0] != ""
    requires forall i :: 0 <= i < |words| ==> Plain(words[i]) && words[i] != ""
    requires forall i :: 0 <= i < |blanks| ==> blanks[i] in [' ', '\t']
    ensures Plain(Spelled(words, blanks)) && Spelled(words, blanks) != "" && Spelled(words, blanks)[0] == words[0][0]
  {
    if blanks != [] {
      SpelledIsPlain(words[1..], blanks[1..]);
    }
  }

  lemma {:induction false} WalletLinesArePlain()
    ensures PlainLine(WALLET_HOLD_LINE) && PlainLine(WALLET_REMEMBER_LINE) && PlainLine(WALLET_RELEASE_LINE)
  {
    ModuleIsPlain();
    assert Plain("-auth") && Plain("-session") && Plain("optional") && Plain("remember_password") && Plain("kwallet");
    SpelledIsPlain(HOLD_WORDS, ['\t', '\t', ' ']);
    SpelledIsPlain(REMEMBER_WORDS, ['\t', '\t', ' ']);
    SpelledIsPlain(RELEASE_WORDS, ['\t', '\t', ' ']);
  }

  lemma {:induction false} InsertLinesArePlain()
    ensures PlainLine(INSERT_LINE) && PlainLine(LOGIN_INSERT_LINE)
  {
    ModuleIsPlain();
    assert Plain("auth") && Plain("[success=done") && Plain("ignore=ignore") && Plain("auth_err=die")
           && Plain("default=ignore]");
    SpelledIsPlain(INSERT_WORDS, ['\t', ' ', '\t']);
    SpelledIsPlain(LOGIN_WORDS, ['\t', ' ', ' ', ' ', '\t']);
  }

  lemma {:induction false} PlainMentionsNothing(line: string, m: string)
    requires PlainLine(line) && m in BEGINS
    ensures IsLine(line + "\n") && !Contains(line + "\n", m)
  {
    assert m[0] == '#';
    ContainsNeedsChar(line + "\n", m, '#');
  }

  lemma {:induction false} ContainsSelf(m: string)
    ensures Contains(m + "\n", m)
  {
    assert ContainsAt(m + "\n", m, 0);
  }

  lemma {:induction false} ContainsBeforeNewline(s: string, m: string)
    requires HasContent(m) && Contains(s + "\n", m)
    ensures Contains(s, m)
  {
    var k :| 0 <= k <= |s + "\n"| && ContainsAt(s + "\n", m, k);
    assert (s + "\n")[k..k + |m|][|m| - 1] == (s + "\n")[k + |m| - 1];
    assert s[k..k + |m|] == (s + "\n")[k..k + |m|];
    assert ContainsAt(s, m, k);
  }

  /** A block with its marker and no mention of the other one. */
  predicate IsBlock(inner: seq<string>, mark: string) {
    && mark in BEGINS && IsInner(inner) && Whole(Marked(mark, inner))
    && Mentions(Marked(mark, inner), mark)
       && !Mentions(Marked(mark, inner), if mark == BEGIN then WALLET_BEGIN else BEGIN)
  }

  lemma {:induction false} MarkedIsBlock(inner: seq<string>, mark: string)
    requires mark in BEGINS && IsInner(inner) && Whole(inner)
    requires !Mentions(inner, if mark == BEGIN then WALLET_BEGIN else BEGIN)
    ensures IsBlock(inner, mark)
  {
    var other := if mark == BEGIN then WALLET_BEGIN else BEGIN;
    MarkersAreLines();
    MarkersDiffer(mark, other);
    MarkersDiffer(END, other);
    ContainsSelf(mark);
    var first, last := [mark + "\n"], [END + "\n"];
    assert Marked(mark, inner) == first + inner + last;
    WholeAppend(first, inner);
    WholeAppend(first + inner, last);
    MentionsAppend(first, inner, mark);
    MentionsAppend(first + inner, last, mark);
    MentionsAppend(first, inner, other);
    MentionsAppend(first + inner, last, other);
  }

  lemma {:induction false} WalletIsBlock(line: string)
    requires PlainLine(line)
    ensures IsBlock([line + "\n"], WALLET_BEGIN) && WalletBlock(line) == Marked(WALLET_BEGIN, [line + "\n"])
  {
    PlainMentionsNothing(line, BEGIN);
    MarkedIsBlock([line + "\n"], WALLET_BEGIN);
  }

  /** Gate copies insert_block can write without spelling KWallet's marker. */
  predicate GoodGates(gates: seq<string>) {
    forall i :: 0 <= i < |gates| ==> HasContent(gates[i]) && gates[i][0] == '-' && !Contains(gates[i], WALLET_BEGIN)
  }

  lemma {:induction false} GatesAreInner(gates: seq<string>)
    requires GoodGates(gates)
    ensures var ls := AsLines(gates); IsInner(ls) && Whole(ls) && !Mentions(ls, WALLET_BEGIN)
  {
    if gates != [] {
      var ls := AsLines(gates);
      GatesAreInner(gates[1..]);
      assert ls[1..] == AsLines(gates[1..]);
      MarkersAreLines();
      if Contains(ls[0], WALLET_BEGIN) {
        ContainsBeforeNewline(gates[0], WALLET_BEGIN);
      }
    }
  }

  lemma {:induction false} InnerAppend(a: seq<string>, b: seq<string>)
    ensures IsInner(a + b) <==> IsInner(a) && IsInner(b)
  {
    if a == [] {
      assert a + b == b;
    } else {
      assert (a + b)[1..] == a[1..] + b;
      InnerAppend(a[1..], b);
    }
  }

  function FaceLines(gates: seq<string>, line: string): seq<string> {
    AsLines(gates) + [line + "\n"]
  }

  lemma {:induction false} FaceIsBlock(gates: seq<string>, line: string)
    requires GoodGates(gates) && PlainLine(line)
    ensures IsBlock(FaceLines(gates, line), BEGIN) && Block(gates, line) == Marked(BEGIN, FaceLines(gates, line))
  {
    GatesAreInner(gates);
    PlainMentionsNothing(line, WALLET_BEGIN);
    InnerAppend(AsLines(gates), [line + "\n"]);
    WholeAppend(AsLines(gates), [line + "\n"]);
    MentionsAppend(AsLines(gates), [line + "\n"], WALLET_BEGIN);
    MarkedIsBlock(FaceLines(gates, line), BEGIN);
  }

  /** A service file cut behind the lines in front of its first auth line and behind its last. */
  datatype Parts = Parts(head: seq<string>, auth: seq<string>, tail: seq<string>)

  function Pick(on: bool, block: seq<string>): seq<string> {
    if on then block else []
  }

  function Spliced(p: Parts, x: seq<string>, y: seq<string>, z: seq<string>): seq<string> {
    p.head + (x + (p.auth + (y + (p.tail + z))))
  }

  const HOLD := [WALLET_HOLD_LINE + "\n"]
  const REMEMBER := [WALLET_REMEMBER_LINE + "\n"]
  const RELEASE := [WALLET_RELEASE_LINE + "\n"]

  /** A service file with the face block, KWallet's two blocks, both or neither. */
  function Patched(p: Parts, face: seq<string>, insert: bool, wallet: bool): seq<string> {
    Spliced(p, Pick(insert, Marked(BEGIN, face)), Pick(wallet, Marked(WALLET_BEGIN, HOLD)),
            Pick(wallet, Marked(WALLET_BEGIN, REMEMBER)))
  }

  /** The autologin service file with or without the block that hands KWallet its password. */
  function Released(p: Parts, wallet: bool): seq<string> {
    Spliced(p, Pick(wallet, Marked(WALLET_BEGIN, RELEASE)), [], [])
  }

  predicate Free(ls: seq<string>) {
    Whole(ls) && !Mentions(ls, BEGIN) && !Mentions(ls, WALLET_BEGIN)
  }

  /** What enabling may rely on in a file it did not write: newline-terminated,
      an auth line in it, none of our markers. */
  predicate Pristine(p: Parts) {
    && Free(p.head) && Free(p.auth) && Free(p.tail) && NoAuth(p.head) && NoAuth(p.tail)
    && p.auth != [] && IsAuthLine(p.auth[0]) && IsAuthLine(p.auth[|p.auth| - 1])
    && (if p.tail == [] then EndsWith(p.auth[|p.auth| - 1], "\n") else EndsWith(p.tail[|p.tail| - 1], "\n"))
  }

  lemma {:induction false} OutsidePicked(on: bool, mark: string, inner: seq<string>, s: seq<string>,
                                         begins: seq<string>)
    requires mark in BEGINS && IsInner(inner) && begins in [[BEGIN], [WALLET_BEGIN], BEGINS]
    ensures OutsideBlocks(Pick(on, Marked(mark, inner)) + s, begins)
         == Pick(on && mark !in begins, Marked(mark, inner)) + OutsideBlocks(s, begins)
  {
    if on {
      OutsideBlock(mark, inner, s, begins);
    } else {
      assert [] + s == s;
    }
  }

  lemma {:induction false} OutsideSpliced(p: Parts, markX: string, x: seq<string>, inX: bool, y: seq<string>,
                                          z: seq<string>, inYZ: bool, begins: seq<string>)
    requires begins in [[BEGIN], [WALLET_BEGIN], BEGINS] && markX in BEGINS
    requires Unmarked(p.head, begins) && Unmarked(p.auth, begins) && Unmarked(p.tail, begins)
    requires IsInner(x) && IsInner(y) && IsInner(z)
    ensures var mx, my, mz := Marked(markX, x), Marked(WALLET_BEGIN, y), Marked(WALLET_BEGIN, z);
            var keep := WALLET_BEGIN !in begins;
            OutsideBlocks(Spliced(p, Pick(inX, mx), Pick(inYZ, my), Pick(inYZ, mz)), begins)
            == Spliced(p, Pick(inX && markX !in begins, mx), Pick(inYZ && keep, my), Pick(inYZ && keep, mz))
  {
    var mz := Pick(inYZ, Marked(WALLET_BEGIN, z));
    assert mz + [] == mz && forall q: seq<string> :: q + [] == q;
    OutsidePicked(inYZ, WALLET_BEGIN, z, [], begins);
    OutsideUnmarked(p.tail, mz, begins);
    OutsidePicked(inYZ, WALLET_BEGIN, y, p.tail + mz, begins);
    var s := Pick(inYZ, Marked(WALLET_BEGIN, y)) + (p.tail + mz);
    OutsideUnmarked(p.auth, s, begins);
    OutsidePicked(inX, markX, x, p.auth + s, begins);
    OutsideUnmarked(p.head, Pick(inX, Marked(markX, x)) + (p.auth + s), begins);
  }

  lemma {:induction false} FreeIsUnmarked(ls: seq<string>, begins: seq<string>)
    requires Free(ls) && begins in [[BEGIN], [WALLET_BEGIN], BEGINS]
    ensures Unmarked(ls, begins)
  {
    UnmarkedWithoutMention(ls, begins);
  }

  lemma {:induction false} FirstAuthBehind(a: seq<string>, s: seq<string>)
    requires NoAuth(a) && s != [] && IsAuthLine(s[0])
    ensures FirstAuth(a + s) == |a|
  {
    if a == [] {
      assert a + s == s;
    } else {
      assert (a + s)[1..] == a[1..] + s;
      FirstAuthBehind(a[1..], s);
    }
  }

  lemma {:induction false} NoLastAuth(ls: seq<string>)
    ensures NoAuth(ls) <==> AfterLastAuth(ls) == 0
  {
    if ls != [] {
      NoLastAuth(ls[1..]);
    }
  }

  lemma {:induction false} LastAuthBefore(s: seq<string>, c: seq<string>)
    requires NoAuth(c) && s != [] && IsAuthLine(s[|s| - 1])
    ensures AfterLastAuth(s + c) == |s|
  {
    assert (s + c)[1..] == s[1..] + c;
    if |s| == 1 {
      assert s[1..] + c == c;
      NoLastAuth(c);
    } else {
      LastAuthBefore(s[1..], c);
    }
  }

  /** The lines in front of the first auth line and behind the last. */
  lemma {:induction false} AuthBounds(ls: seq<string>)
    ensures var f := FirstAuth(ls); NoAuth(ls[..f]) && (f < |ls| ==> IsAuthLine(ls[f]) && f < AfterLastAuth(ls))
  {
    var f := FirstAuth(ls);
    if f > 0 {
      AuthBounds(ls[1..]);
      assert ls[..f][1..] == ls[1..][..f - 1] && ls[..f][0] == ls[0];
    }
  }

  lemma {:induction false} LastAuthBounds(ls: seq<string>)
    ensures var l := AfterLastAuth(ls); NoAuth(ls[l..]) && (l > 0 ==> IsAuthLine(ls[l - 1]))
  {
    if ls != [] {
      var k := AfterLastAuth(ls[1..]);
      LastAuthBounds(ls[1..]);
      NoLastAuth(ls[1..]);
      if k > 0 {
        assert ls[k + 1..] == ls[1..][k..] && ls[k] == ls[1..][k - 1];
      } else if !IsAuthLine(ls[0]) {
        assert ls[0..] == ls;
      }
    }
  }

  lemma {:induction false} SplicedMentions(p: Parts, x: seq<string>, y: seq<string>, z: seq<string>, m: string)
    ensures Mentions(Spliced(p, x, y, z), m)
        == (Mentions(p.head, m) || Mentions(x, m) || Mentions(p.auth, m) || Mentions(y, m) || Mentions(p.tail, m)
            || Mentions(z, m))
  {
    MentionsAppend(p.tail, z, m);
    MentionsAppend(y, p.tail + z, m);
    MentionsAppend(p.auth, y + (p.tail + z), m);
    MentionsAppend(x, p.auth + (y + (p.tail + z)), m);
    MentionsAppend(p.head, x + (p.auth + (y + (p.tail + z))), m);
  }

  lemma {:induction false} SplicedWhole(p: Parts, x: seq<string>, y: seq<string>, z: seq<string>)
    requires Whole(p.head) && Whole(x) && Whole(p.auth) && Whole(y) && Whole(p.tail) && Whole(z)
    ensures Whole(Spliced(p, x, y, z))
  {
    WholeAppend(p.tail, z);
    WholeAppend(y, p.tail + z);
    WholeAppend(p.auth, y + (p.tail + z));
    WholeAppend(x, p.auth + (y + (p.tail + z)));
    WholeAppend(p.head, x + (p.auth + (y + (p.tail + z))));
  }

  lemma {:induction false} SplicedJoin(p: Parts, x: seq<string>, y: seq<string>, z: seq<string>)
    ensures Join(Spliced(p, x, y, z))
            == Join(p.head) + (Join(x) + (Join(p.auth) + (Join(y) + (Join(p.tail) + Join(z)))))
  {
    JoinAppend(p.tail, z);
    JoinAppend(y, p.tail + z);
    JoinAppend(p.auth, y + (p.tail + z));
    JoinAppend(x, p.auth + (y + (p.tail + z)));
    JoinAppend(p.head, x + (p.auth + (y + (p.tail + z))));
  }

  lemma {:induction false} WalletBlocks()
    ensures IsBlock(HOLD, WALLET_BEGIN) && IsBlock(REMEMBER, WALLET_BEGIN) && IsBlock(RELEASE, WALLET_BEGIN)
    ensures WalletBlock(WALLET_HOLD_LINE) == Marked(WALLET_BEGIN, HOLD)
    ensures WalletBlock(WALLET_REMEMBER_LINE) == Marked(WALLET_BEGIN, REMEMBER)
    ensures WalletBlock(WALLET_RELEASE_LINE) == Marked(WALLET_BEGIN, RELEASE)
  {
    WalletLinesArePlain();
    WalletIsBlock(WALLET_HOLD_LINE);
    WalletIsBlock(WALLET_REMEMBER_LINE);
    WalletIsBlock(WALLET_RELEASE_LINE);
  }

  // ------------------------------------------------------------ main facts

  /** has_block tells which blocks are in, and the text reads back as the lines put in. */
  lemma {:induction false} PatchedHas(p: Parts, face: seq<string>, insert: bool, wallet: bool)
    requires Pristine(p) && IsBlock(face, BEGIN)
    ensures var ls := Patched(p, face, insert, wallet);
            Whole(ls) && SplitLines(Join(ls)) == ls
            && (Contains(Join(ls), BEGIN) <==> insert) && (Contains(Join(ls), WALLET_BEGIN) <==> wallet)
  {
    var ls := Patched(p, face, insert, wallet);
    var x, y, z := Pick(insert, Marked(BEGIN, face)), Pick(wallet, Marked(WALLET_BEGIN, HOLD)),
                   Pick(wallet, Marked(WALLET_BEGIN, REMEMBER));
    WalletBlocks();
    SplicedMentions(p, x, y, z, BEGIN);
    SplicedMentions(p, x, y, z, WALLET_BEGIN);
    SplicedWhole(p, x, y, z);
    SplitOfWhole(ls);
    MarkersAreLines();
    MentionsOfJoin(ls, BEGIN);
    MentionsOfJoin(ls, WALLET_BEGIN);
  }

  lemma {:induction false} LastOfAppend(a: seq<string>, b: seq<string>)
    requires b != []
    ensures (a + b)[|a + b| - 1] == b[|b| - 1]
  {
  }

  lemma {:induction false} LastOfEither(a: seq<string>, b: seq<string>, part: seq<string>)
    requires part != [] && if b != [] then b[|b| - 1] == part[|part| - 1] else a == part
    ensures a + b != [] && (a + b)[|a + b| - 1] == part[|part| - 1]
  {
  }

  lemma {:induction false} LastOfSpliced(p: Parts, x: seq<string>, y: seq<string>, z: seq<string>)
    requires p.auth != [] && (z == [] ==> y == [])
    ensures var ls, part := Spliced(p, x, y, z), LastPart(p, z);
            ls != [] && ls[|ls| - 1] == part[|part| - 1]
  {
    var part, u := LastPart(p, z), y + (p.tail + z);
    if z != [] {
      LastOfEither(p.tail, z, part);
      LastOfEither(y, p.tail + z, part);
    } else {
      assert u == p.tail;
    }
    LastOfEither(p.auth, u, part);
    LastOfEither(x, p.auth + u, part);
    LastOfEither(p.head, x + (p.auth + u), part);
  }

  lemma {:induction false} PatchedEnds(p: Parts, face: seq<string>, insert: bool, wallet: bool)
    requires Pristine(p) && IsBlock(face, BEGIN)
    ensures var ls := Patched(p, face, insert, wallet);
            LastEnds(ls) && EndsWith(Join(ls), "\n")
  {
    PatchedHas(p, face, insert, wallet);
    var x, y, z := PatchedSplices(p, face, insert, wallet);
    PristineEnds(p, z);
    SplicedEnds(p, x, y, z);
  }

  lemma {:induction false} PatchedSplices(p: Parts, face: seq<string>, insert: bool, wallet: bool)
    returns (x: seq<string>, y: seq<string>, z: seq<string>)
    ensures Patched(p, face, insert, wallet) == Spliced(p, x, y, z)
    ensures (z == [] ==> y == []) && (z != [] ==> LastEnds(z))
  {
    x, y := Pick(insert, Marked(BEGIN, face)), Pick(wallet, Marked(WALLET_BEGIN, HOLD));
    z := Pick(wallet, Marked(WALLET_BEGIN, REMEMBER));
    MarkedEnds(WALLET_BEGIN, REMEMBER);
  }

  lemma {:induction false} MarkedEnds(mark: string, inner: seq<string>)
    ensures var ls := Marked(mark, inner); ls != [] && EndsWith(ls[|ls| - 1], "\n")
  {
    assert (END + "\n")[|END|..] == "\n";
  }

  /** The part that is last. */
  function LastPart(p: Parts, z: seq<string>): seq<string> {
    if z != [] then z else if p.tail != [] then p.tail else p.auth
  }

  predicate LastEnds(ls: seq<string>) {
    ls != [] && EndsWith(ls[|ls| - 1], "\n")
  }

  lemma {:induction false} PristineEnds(p: Parts, z: seq<string>)
    requires Pristine(p) && (z != [] ==> LastEnds(z))
    ensures LastEnds(LastPart(p, z))
  {
  }

  lemma {:induction false} SplicedEnds(p: Parts, x: seq<string>, y: seq<string>, z: seq<string>)
    requires p.auth != [] && (z == [] ==> y == []) && LastEnds(LastPart(p, z)) && Whole(Spliced(p, x, y, z))
    ensures var ls := Spliced(p, x, y, z); LastEnds(ls) && EndsWith(Join(ls), "\n")
  {
    LastOfSpliced(p, x, y, z);
    JoinEndsWithLast(Spliced(p, x, y, z));
  }

  lemma {:induction false} CutHead(p: Parts, x: seq<string>, y: seq<string>, z: seq<string>)
    requires p.auth != []
    ensures var ls, rest := Spliced(p, [], y, z), p.auth + (y + (p.tail + z));
            ls == p.head + rest && ls[..|p.head|] == p.head && ls[|p.head|..] == rest && rest[0] == p.auth[0]
            && p.head + x + rest == Spliced(p, x, y, z)
  {
    var rest := p.auth + (y + (p.tail + z));
    assert [] + rest == rest;
  }

  lemma {:induction false} CutTail(p: Parts, x: seq<string>)
    requires p.auth != []
    ensures var ls, front := Spliced(p, x, [], []), p.head + (x + p.auth);
            ls == front + p.tail && ls[..|front|] == front && ls[|front|..] == p.tail
            && front[|front| - 1] == p.auth[|p.auth| - 1]
  {
    var front := p.head + (x + p.auth);
    assert [] + (p.tail + []) == p.tail;
    LastOfAppend(x, p.auth);
    LastOfAppend(p.head, x + p.auth);
    assert p.head + (x + (p.auth + p.tail)) == front + p.tail;
  }

  /** Removing one target's blocks leaves exactly the other's. */
  lemma {:induction false} PatchedRemove(p: Parts, face: seq<string>, insert: bool, wallet: bool, begins: seq<string>)
    requires Pristine(p) && IsBlock(face, BEGIN) && begins in [[BEGIN], [WALLET_BEGIN], BEGINS]
    ensures RemoveBlock(Join(Patched(p, face, insert, wallet)), begins)
         == Join(Patched(p, face, insert && BEGIN !in begins, wallet && WALLET_BEGIN !in begins))
  {
    PatchedHas(p, face, insert, wallet);
    FreeIsUnmarked(p.head, begins);
    FreeIsUnmarked(p.auth, begins);
    FreeIsUnmarked(p.tail, begins);
    WalletBlocks();
    OutsideSpliced(p, BEGIN, face, insert, HOLD, REMEMBER, wallet, begins);
  }

  /** Inserting the face block gives the same file with or without KWallet's blocks in it. */
  lemma {:induction false} PatchedInsert(p: Parts, gates: seq<string>, line: string, wallet: bool)
    requires Pristine(p) && GoodGates(gates) && PlainLine(line)
    ensures var face := FaceLines(gates, line);
            InsertBlock(Join(Patched(p, face, false, wallet)), gates, line)
              == Done(Join(Patched(p, face, true, wallet)))
  {
    var face := FaceLines(gates, line);
    FaceIsBlock(gates, line);
    PatchedHas(p, face, false, wallet);
    PatchedEnds(p, face, false, wallet);
    var y, z := Pick(wallet, Marked(WALLET_BEGIN, HOLD)), Pick(wallet, Marked(WALLET_BEGIN, REMEMBER));
    InsertSpliced(p, face, y, z, gates, line);
  }

  lemma {:induction false} InsertSpliced(p: Parts, face: seq<string>, y: seq<string>, z: seq<string>,
                                         gates: seq<string>, line: string)
    requires Pristine(p) && Marked(BEGIN, face) == Block(gates, line)
    requires var ls := Spliced(p, [], y, z);
             SplitLines(Join(ls)) == ls && ls != [] && EndsWith(ls[|ls| - 1], "\n") && !Contains(Join(ls), BEGIN)
    ensures InsertBlock(Join(Spliced(p, [], y, z)), gates, line) == Done(Join(Spliced(p, Marked(BEGIN, face), y, z)))
  {
    var ls, made, rest := Spliced(p, [], y, z), Spliced(p, Marked(BEGIN, face), y, z), p.auth + (y + (p.tail + z));
    CutHead(p, Marked(BEGIN, face), y, z);
    FirstAuthBehind(p.head, rest);
    NewlineIsThere(ls);
    InsertBetween(ls, p.head, rest, made, gates, line);
  }

  lemma {:induction false} NewlineIsThere(ls: seq<string>)
    requires ls != [] && EndsWith(ls[|ls| - 1], "\n")
    ensures WithNewline(ls) == ls
  {
  }

  lemma {:induction false} InsertBetween(ls: seq<string>, head: seq<string>, rest: seq<string>, made: seq<string>,
                                         gates: seq<string>, line: string)
    requires ls == head + rest && made == head + Block(gates, line) + rest && rest != []
    requires SplitLines(Join(ls)) == ls && WithNewline(ls) == ls && FirstAuth(ls) == |head|
             && !Contains(Join(ls), BEGIN)
    ensures InsertBlock(Join(ls), gates, line) == Done(Join(made))
  {
    assert ls[..|head|] == head && ls[|head|..] == rest;
  }

  /** Adding KWallet's blocks gives the same file with or without the face block in it. */
  lemma {:induction false} PatchedWallet(p: Parts, face: seq<string>, insert: bool)
    requires Pristine(p) && IsBlock(face, BEGIN)
    ensures InsertWalletRemember(Join(Patched(p, face, insert, false))) == Done(Join(Patched(p, face, insert, true)))
  {
    PatchedHas(p, face, insert, false);
    PatchedEnds(p, face, insert, false);
    WalletBlocks();
    var x := Pick(insert, Marked(BEGIN, face));
    CutTail(p, x);
    LastAuthBefore(p.head + (x + p.auth), p.tail);
    JoinAround(p, x, Marked(WALLET_BEGIN, HOLD), Marked(WALLET_BEGIN, REMEMBER));
  }

  lemma {:induction false} JoinAround(p: Parts, x: seq<string>, y: seq<string>, z: seq<string>)
    ensures Join(p.head + (x + p.auth) + [Join(y)] + p.tail) + Join(z) == Join(Spliced(p, x, y, z))
  {
    var front, mid := p.head + (x + p.auth), [Join(y)];
    JoinAppend(front + mid, p.tail);
    JoinAppend(front, mid);
    JoinCons(Join(y), []);
    assert mid == [Join(y)] + [] && Join(mid) == Join(y);
    JoinAppend(p.head, x + p.auth);
    JoinAppend(x, p.auth);
    SplicedJoin(p, x, y, z);
    Regroup(Join(p.head), Join(x), Join(p.auth), Join(y), Join(p.tail), Join(z));
  }

  lemma {:induction false} Regroup(a: string, b: string, c: string, d: string, e: string, f: string)
    ensures (((a + (b + c)) + d) + e) + f == a + (b + (c + (d + (e + f))))
  {
    var bc := b + c;
    assert ((a + bc) + d) + e == a + ((bc + d) + e);
    assert (a + ((bc + d) + e)) + f == a + (((bc + d) + e) + f);
    assert ((bc + d) + e) + f == bc + (d + (e + f));
    assert bc + (d + (e + f)) == b + (c + (d + (e + f)));
  }

  /** The autologin service, which only ever holds KWallet's one block. */
  lemma {:induction false} ReleasedHas(p: Parts, wallet: bool)
    requires Pristine(p)
    ensures var ls := Released(p, wallet);
            Whole(ls) && SplitLines(Join(ls)) == ls
            && !Contains(Join(ls), BEGIN) && (Contains(Join(ls), WALLET_BEGIN) <==> wallet)
  {
    var ls := Released(p, wallet);
    var x := Pick(wallet, Marked(WALLET_BEGIN, RELEASE));
    WalletBlocks();
    SplicedMentions(p, x, [], [], BEGIN);
    SplicedMentions(p, x, [], [], WALLET_BEGIN);
    SplicedWhole(p, x, [], []);
    SplitOfWhole(ls);
    MarkersAreLines();
    MentionsOfJoin(ls, BEGIN);
    MentionsOfJoin(ls, WALLET_BEGIN);
  }

  lemma {:induction false} ReleasedRemove(p: Parts, wallet: bool, begins: seq<string>)
    requires Pristine(p) && begins in [[BEGIN], [WALLET_BEGIN], BEGINS]
    ensures RemoveBlock(Join(Released(p, wallet)), begins) == Join(Released(p, wallet && WALLET_BEGIN !in begins))
  {
    ReleasedHas(p, wallet);
    FreeIsUnmarked(p.head, begins);
    FreeIsUnmarked(p.auth, begins);
    FreeIsUnmarked(p.tail, begins);
    WalletBlocks();
    OutsideSpliced(p, WALLET_BEGIN, RELEASE, wallet, HOLD, REMEMBER, false, begins);
  }

  lemma {:induction false} ReleasedInsert(p: Parts)
    requires Pristine(p)
    ensures InsertWalletRelease(Join(Released(p, false))) == Done(Join(Released(p, true)))
  {
    ReleasedHas(p, false);
    WalletBlocks();
    var block := Marked(WALLET_BEGIN, RELEASE);
    CutHead(p, block, [], []);
    var rest := p.auth + ([] + (p.tail + []));
    FirstAuthBehind(p.head, rest);
    JoinAppend(p.head + block, rest);
    JoinAppend(p.head, block);
  }

  /** remove_block leaves a file without our markers alone. */
  lemma {:induction false} RemoveFromUnmarked(text: string, begins: seq<string>)
    requires begins in [[BEGIN], [WALLET_BEGIN], BEGINS]
    requires forall m :: m in begins ==> !Contains(text, m)
    ensures RemoveBlock(text, begins) == text
  {
    var ls := SplitLines(text);
    JoinOfSplit(text);
    forall m | m in begins ensures !Mentions(ls, m) {
      MarkersAreLines();
      MentionedIsContained(ls, m);
    }
    UnmarkedWithoutMention(ls, begins);
    OutsideUnmarked(ls, [], begins);
    assert ls + [] == ls;
  }

  lemma {:induction false} MentionedIsContained(ls: seq<string>, m: string)
    ensures Mentions(ls, m) ==> Contains(Join(ls), m)
  {
    if ls != [] {
      MentionedIsContained(ls[1..], m);
      if Contains(ls[0], m) {
        ContainsLeft(ls[0], Join(ls[1..]), m);
      } else if Mentions(ls[1..], m) {
        ContainsRight(ls[0], Join(ls[1..]), m);
      }
    }
  }

  // ------------------------------------------------------ a block cut short

  /** The module by its file name, in whatever directory. */
  lemma {:induction false} OursMeans(line: string)
    ensures Ours(line) <==> ModuleOf(line).1.Some? && Basename(ModuleOf(line).1.value) == "pam_linux" + "_hello.so"
  {
  }

  lemma {:induction false} NotOursMeans(ls: seq<string>, line: string)
    ensures line in NotOurs(ls) <==> line in ls && !Ours(line)
  {
    if ls != [] {
      NotOursMeans(ls[1..], line);
      assert ls == [ls[0]] + ls[1..];
    }
  }

  predicate NoEnd(ls: seq<string>) {
    ls == [] || (Strip(ls[0]) != "# END linux-hello" && NoEnd(ls[1..]))
  }

  lemma {:induction false} AfterOpenBlock(ls: seq<string>, begins: seq<string>, block: seq<string>)
    requires NoEnd(ls)
    ensures AfterBlock(ls, begins, block) == NotOurs(block + ls)
    decreases |ls|
  {
    if ls == [] {
      assert block + ls == block;
    } else {
      AfterOpenBlock(ls[1..], begins, block + [ls[0]]);
      assert block + [ls[0]] + ls[1..] == block + ls;
    }
  }

  /** Without its END line a block costs nothing that is not ours: all that follows
      the marker stays, but for lines of the module. */
  lemma {:induction false} BlockCutShort(front: seq<string>, mark: string, rest: seq<string>, begins: seq<string>)
    requires Unmarked(front, begins) && Strip(mark) in begins && NoEnd(rest)
    ensures OutsideBlocks(front + ([mark] + rest), begins) == front + NotOurs(rest)
  {
    OutsideUnmarked(front, [mark] + rest, begins);
    assert ([mark] + rest)[1..] == rest;
    AfterOpenBlock(rest, begins, []);
    assert [] + rest == rest;
  }
}
