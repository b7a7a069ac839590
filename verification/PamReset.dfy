/** What reset makes of every file, and what it promises: whatever the manifest
    held, nothing of the module is left in /etc/pam.d. */
module PamReset {
  import opened Sequences
  import opened Text
  import opened Outcomes
  import opened PamLines
  import opened PamBlocks
  import opened PamCells
  import opened PamTargets
  import PamOwnStack

  // --------------------------------------------------------------- reset

  const BACKUP_SUFFIX := ".linux-hello" + "-backup"

  /** What reset leaves of a readable file in /etc/pam.d. */
  function CleanedEtc(text: string): Option<string> {
    if StartsWith(text, OWN_HEADER) then None
    else if !Contains(text, MODULE) then Some(text)
    else Some(RemoveLegacyLines(RemoveBlock(text, BEGINS)))
  }

  /** A path's file once the manifest entries are reverted. */
  function AfterManifest(c: Cell, dropIn: bool): Option<string> {
    if c.entry.Some? then Reverted(c, BEGINS, dropIn).text else c.text
  }

  function CleanedLock(text: string): Option<string> {
    if !Contains(text, BEGIN) then Some(text)
    else
      var cleaned := RemoveBlock(text, BEGINS);
      if Blank(cleaned) then None else Some(cleaned)
  }

  /** reset without the drop-in: its file and the user it wrote into the login configuration. */
  function WithoutDropIn(files: Files): Files {
    if DropIn in files then ForgetMain(files, AutoLoginUserOf(files)) - {DropIn} else files
  }

  /** What reset makes of one path. */
  function ResetAt(files: Files, entries: map<Path, Entry>, p: Path): Option<string> {
    var text := AfterManifest(Cell(Get(WithoutDropIn(files), p), Get(entries, p)), p == DropIn);
    if text.None? then None
    else if p.Etc? then (if EndsWith(p.service, BACKUP_SUFFIX) then None else CleanedEtc(text.value))
    else if p == LockConfig then CleanedLock(text.value)
    else text
  }

  /** What the pass over /etc/pam.d makes of a path. */
  function CleanedAt(files: Files, p: Path): Option<string> {
    var text := Get(files, p);
    if text.None? || !p.Etc? then text
    else if EndsWith(p.service, BACKUP_SUFFIX) then None
    else CleanedEtc(text.value)
  }

  function EntryLeft(files: Files, entries: map<Path, Entry>, p: Path): Option<Entry> {
    if p in entries then Reverted(Cell(Get(WithoutDropIn(files), p), Get(entries, p)), BEGINS, p == DropIn).entry
    else None
  }

  // ------------------------------------------- no line of the module is left

  lemma {:induction false} NotOursHasNone(ls: seq<string>)
    ensures NoneOurs(NotOurs(ls))
  {
    if ls != [] {
      NotOursHasNone(ls[1..]);
      assert Ours(ls[0]) ==> NotOurs(ls) == NotOurs(ls[1..]);
      assert !Ours(ls[0]) ==> NotOurs(ls)[1..] == NotOurs(ls[1..]);
    }
  }

  lemma {:induction false} PieceOfPiece(a: string, i: nat, n: nat, j: nat, m: nat)
    requires i <= n <= |a| && j <= m <= n - i
    ensures a[i..n][j..m] == a[i + j..i + m]
  {
    var u := a[i..n];
    assert forall x :: 0 <= x < |u| ==> u[x] == a[i + x];
    assert forall x :: 0 <= x < m - j ==> u[j..m][x] == u[j + x];
  }

  lemma {:induction false} ContainsItself(s: string)
    ensures Contains(s, s)
  {
    assert s[0..|s|] == s;
    assert ContainsAt(s, s, 0);
  }

  lemma {:induction false} ContainsThrough(a: string, b: string, c: string)
    requires Contains(a, b) && Contains(b, c)
    ensures Contains(a, c)
  {
    var i :| 0 <= i <= |a| && ContainsAt(a, b, i);
    var j :| 0 <= j <= |b| && ContainsAt(b, c, j);
    PieceOfPiece(a, i, i + |b|, j, j + |c|);
    assert ContainsAt(a, c, i + j);
  }

  lemma {:induction false} WordIsContained(s: string, i: nat)
    requires i < |Words(s)|
    ensures Contains(s, Words(s)[i])
    decreases |s|
  {
    if IsSpace(s[0]) {
      WordIsContained(s[1..], i);
      assert s[..1] + s[1..] == s;
      ContainsRight(s[..1], s[1..], Words(s)[i]);
    } else {
      var k := WordEnd(s);
      assert s[..k] + s[k..] == s;
      if i == 0 {
        ContainsItself(s[..k]);
        ContainsLeft(s[..k], s[k..], s[..k]);
      } else {
        WordIsContained(s[k..], i - 1);
        ContainsRight(s[..k], s[k..], Words(s)[i]);
      }
    }
  }

  lemma {:induction false} AfterSlashIsSuffix(path: string)
    requires '/' in path
    ensures AfterSlash(path) == path[|path| - |AfterSlash(path)|..]
  {
    if path[0] != '/' {
      AfterSlashIsSuffix(path[1..]);
    }
  }

  lemma {:induction false} BasenameIsContained(path: string)
    ensures Contains(path, Basename(path))
    decreases |path|
  {
    if '/' in path {
      var r := AfterSlash(path);
      BasenameIsContained(r);
      AfterSlashIsSuffix(path);
      var k := |path| - |r|;
      assert path[..k] + path[k..] == path;
      ContainsRight(path[..k], path[k..], Basename(r));
    } else {
      ContainsItself(path);
    }
  }

  lemma {:induction false} FromClosingIsSuffix(rest: seq<string>)
    ensures |FromClosing(rest)| <= |rest| && FromClosing(rest) == rest[|rest| - |FromClosing(rest)|..]
  {
    if rest != [] && !EndsWith(rest[0], "]") {
      FromClosingIsSuffix(rest[1..]);
    }
  }

  /** The module of a line is one of its words. */
  lemma {:induction false} ModuleIsAWord(line: string)
    requires ModuleOf(line).1.Some?
    ensures ModuleOf(line).1.value in Words(line)
  {
    var words := Words(line);
    if !StartsWith(words[0], "@include") {
      AfterControlIsPart(words[1..]);
      assert words == [words[0]] + words[1..];
    }
  }

  lemma {:induction false} AfterControlIsPart(rest: seq<string>)
    ensures AfterControl(rest) != [] ==> AfterControl(rest)[0] in rest
  {
    if rest != [] && StartsWith(rest[0], "[") {
      FromClosingIsSuffix(rest);
    }
  }

  lemma {:induction false} OursIsMentioned(line: string)
    requires Ours(line)
    ensures Contains(line, MODULE)
  {
    var name := ModuleOf(line).1.value;
    ModuleIsAWord(line);
    var i :| 0 <= i < |Words(line)| && Words(line)[i] == name;
    WordIsContained(line, i);
    BasenameIsContained(name);
    ContainsThrough(line, name, MODULE);
  }

  lemma {:induction false} UnmentionedHasNone(ls: seq<string>)
    requires !Contains(Join(ls), MODULE)
    ensures NoneOurs(ls)
  {
    if ls != [] {
      var rest := Join(ls[1..]);
      if Contains(rest, MODULE) {
        ContainsRight(ls[0], rest, MODULE);
      }
      UnmentionedHasNone(ls[1..]);
      if Ours(ls[0]) {
        OursIsMentioned(ls[0]);
        ContainsLeft(ls[0], rest, MODULE);
      }
    }
  }

  lemma {:induction false} CleanedHasNone(text: string)
    requires CleanedEtc(text).Some?
    ensures NoneOurs(SplitLines(CleanedEtc(text).value))
  {
    if Contains(text, MODULE) {
      var ls := SplitLines(RemoveBlock(text, BEGINS));
      SplitIsCanonical(RemoveBlock(text, BEGINS));
      NotOursHasNone(ls);
      NotOursIsCanonical(ls);
      SplitOfJoin(NotOurs(ls));
    } else {
      JoinOfSplit(text);
      UnmentionedHasNone(SplitLines(text));
    }
  }

  // ----------------------------------------------- which lines reset drops

  /** Whether a block is open behind the line. */
  predicate OpenBehind(line: string, begins: seq<string>, open: bool) {
    if open then Strip(line) != END else Strip(line) in begins
  }

  /** Whether a block is open before line k. */
  predicate OpenAt(ls: seq<string>, begins: seq<string>, open: bool, k: nat)
    requires k <= |ls|
  {
    if k == 0 then open else OpenAt(ls[1..], begins, OpenBehind(ls[0], begins, open), k - 1)
  }

  /** The first line goes: a line of the module, a marker, or in a block that has its END. */
  predicate Goes(ls: seq<string>, begins: seq<string>, open: bool)
    requires ls != []
  {
    Ours(ls[0]) || if open then HasEnd(ls) else Strip(ls[0]) in begins
  }

  /** What is left, decided line by line. */
  function Left(ls: seq<string>, begins: seq<string>, open: bool): seq<string> {
    if ls == [] then []
    else (if Goes(ls, begins, open) then [] else [ls[0]]) + Left(ls[1..], begins, OpenBehind(ls[0], begins, open))
  }

  lemma {:induction false} NotOursAppend(a: seq<string>, b: seq<string>)
    ensures NotOurs(a + b) == NotOurs(a) + NotOurs(b)
  {
    if a == [] {
      assert a + b == b;
    } else {
      assert (a + b)[1..] == a[1..] + b;
      NotOursAppend(a[1..], b);
      Associate(if Ours(a[0]) then [] else [a[0]], NotOurs(a[1..]), NotOurs(b));
    }
  }

  /** The two passes of reset over a file drop exactly the lines that go. */
  lemma {:induction false} OutsideIsLeft(ls: seq<string>, begins: seq<string>)
    ensures NotOurs(OutsideBlocks(ls, begins)) == Left(ls, begins, false)
    decreases ls
  {
    if ls != [] {
      var rest := ls[1..];
      if Strip(ls[0]) in begins {
        BlockIsLeft(rest, begins, []);
        assert [] + Left(rest, begins, true) == Left(rest, begins, true);
      } else {
        OutsideIsLeft(rest, begins);
        NotOursAppend([ls[0]], OutsideBlocks(rest, begins));
        assert [ls[0]][1..] == [];
      }
    }
  }

  lemma {:induction false} BlockIsLeft(ls: seq<string>, begins: seq<string>, block: seq<string>)
    ensures NotOurs(AfterBlock(ls, begins, block))
            == (if HasEnd(ls) then [] else NotOurs(block)) + Left(ls, begins, true)
    decreases ls
  {
    if ls == [] {
      NotOursTwice(block);
    } else {
      var rest := ls[1..];
      if Strip(ls[0]) == END {
        OutsideIsLeft(rest, begins);
        assert Left(ls, begins, true) == [] + Left(rest, begins, false);
      } else {
        BlockIsLeft(rest, begins, block + [ls[0]]);
        NotOursAppend(block, [ls[0]]);
        NotOursOne(ls[0]);
        Associate(NotOurs(block), NotOurs([ls[0]]), Left(rest, begins, true));
      }
    }
  }

  lemma {:induction false} NotOursOne(line: string)
    ensures NotOurs([line]) == if Ours(line) then [] else [line]
  {
    assert [line][1..] == [];
  }

  lemma {:induction false} NotOursTwice(ls: seq<string>)
    ensures NotOurs(NotOurs(ls)) == NotOurs(ls)
  {
    if ls != [] {
      NotOursTwice(ls[1..]);
      assert [ls[0]][1..] == [];
      NotOursAppend([ls[0]], NotOurs(ls[1..]));
      assert Ours(ls[0]) ==> NotOurs(ls) == NotOurs(ls[1..]);
    }
  }

  // ---------------------------------------------------- our header coming back

  const HEADER_LINE := "#%PAM-1.0\n"
  const CREATED := "# Created by " + "linux-hello"

  /** Index of the first line that stays. */
  function FirstLeft(ls: seq<string>, begins: seq<string>, open: bool): (k: nat)
    ensures k <= |ls|
  {
    if ls == [] then 0
    else if !Goes(ls, begins, open) then 0
    else 1 + FirstLeft(ls[1..], begins, OpenBehind(ls[0], begins, open))
  }

  /** The first line that stays starts with this piece. */
  predicate LeavesFirst(ls: seq<string>, begins: seq<string>, open: bool, piece: string) {
    var j := FirstLeft(ls, begins, open);
    j < |ls| && StartsWith(ls[j], piece)
  }

  /** The first two lines that stay are this one and one that starts with this piece. */
  predicate Hides(ls: seq<string>, begins: seq<string>, line: string, piece: string) {
    var i := FirstLeft(ls, begins, false);
    i < |ls| && ls[i] == line && LeavesFirst(ls[i + 1..], begins, OpenAt(ls, begins, false, i + 1), piece)
  }

  /** They are the head of one of our own files. */
  predicate HidesHeader(ls: seq<string>, begins: seq<string>) {
    Hides(ls, begins, HEADER_LINE, CREATED)
  }

  lemma {:induction false} LeftFrom(ls: seq<string>, begins: seq<string>, open: bool, i: nat)
    requires i == FirstLeft(ls, begins, open)
    ensures i == |ls| ==> Left(ls, begins, open) == []
    ensures i < |ls| ==> Left(ls, begins, open) == [ls[i]] + Left(ls[i + 1..], begins, OpenAt(ls, begins, open, i + 1))
  {
    if ls != [] && Goes(ls, begins, open) {
      var o := OpenBehind(ls[0], begins, open);
      LeftFrom(ls[1..], begins, o, i - 1);
      LeftSkips(ls, begins, open);
      if i < |ls| {
        DropTwice(ls, 1, i);
      }
    }
  }

  lemma {:induction false} LeftSkips(ls: seq<string>, begins: seq<string>, open: bool)
    requires ls != [] && Goes(ls, begins, open)
    ensures Left(ls, begins, open) == Left(ls[1..], begins, OpenBehind(ls[0], begins, open))
  {
    var rest := Left(ls[1..], begins, OpenBehind(ls[0], begins, open));
    assert [] + rest == rest;
  }

  lemma {:induction false} LeftIsCanonical(ls: seq<string>, begins: seq<string>, open: bool)
    requires Canonical(ls)
    ensures Canonical(Left(ls, begins, open))
  {
    if ls != [] {
      var o := OpenBehind(ls[0], begins, open);
      assert Canonical(ls[1..]);
      LeftIsCanonical(ls[1..], begins, o);
      var rest := Left(ls[1..], begins, o);
      if ls[1..] == [] {
        assert rest == [];
      }
      assert Left(ls, begins, open) == rest || Left(ls, begins, open) == [ls[0]] + rest;
    }
  }

  /** A piece without breaks at the start of a text lies in its first line. */
  lemma {:induction false} PieceInLine(line: string, more: string, piece: string)
    requires HasContent(piece) && (more == "" || EndsInBreak(line))
    ensures StartsWith(line + more, piece) <==> StartsWith(line, piece)
  {
    var t := line + more;
    assert |piece| <= |t| ==> forall i :: 0 <= i < |piece| ==> t[..|piece|][i] == t[i];
    assert forall i :: 0 <= i < |line| ==> t[i] == line[i];
    if |piece| <= |line| {
      assert t[..|piece|] == line[..|piece|];
    }
  }

  lemma {:induction false} HeadOfText(first: string, more: string, line: string, piece: string)
    requires IsLine(first) && (more == "" || EndsInBreak(first))
    requires IsLine(line) && EndsInBreak(line) && HasContent(piece)
    ensures StartsWith(first + more, line + piece) <==> first == line && StartsWith(more, piece)
  {
    var t, head := first + more, line + piece;
    assert forall i :: 0 <= i < |first| ==> t[i] == first[i];
    assert head[|line| - 1] == line[|line| - 1];
    if |first| == |line| {
      assert t[..|line|] == first && t[|line|..] == more;
      assert |head| <= |t| ==> t[..|head|] == first + more[..|piece|];
      assert head[..|line|] == line && head[|line|..] == piece;
      assert |head| <= |t| ==> t[..|head|][..|line|] == first && t[..|head|][|line|..] == more[..|piece|];
    } else {
      assert forall i :: 0 <= i < |line| ==> head[i] == line[i];
      assert |head| <= |t| ==> forall i :: 0 <= i < |head| ==> t[..|head|][i] == t[i];
    }
  }

  /** A text starts with a line and a piece of the next exactly when its lines do. */
  lemma {:induction false} StartsWithLine(ls: seq<string>, line: string, piece: string)
    requires Canonical(ls) && IsLine(line) && EndsInBreak(line) && HasContent(piece)
    ensures StartsWith(Join(ls), line + piece) <==> |ls| >= 2 && ls[0] == line && StartsWith(ls[1], piece)
  {
    if ls != [] {
      HeadOfText(ls[0], Join(ls[1..]), line, piece);
    }
    if |ls| >= 2 {
      PieceInLine(ls[1], Join(ls[1..][1..]), piece);
    }
  }

  /** After reset a file starts with our header exactly when it did not before,
      names the module, and the first two lines that are neither in a block nor
      the module's are that header. */
  lemma {:induction false} HeaderComesBack(text: string)
    requires CleanedEtc(text).Some?
    ensures StartsWith(CleanedEtc(text).value, OWN_HEADER)
            <==> Contains(text, MODULE) && HidesHeader(SplitLines(text), BEGINS)
  {
    SplitIsCanonical(text);
    CleanedIsLeft(text);
    HeaderLeft(SplitLines(text), BEGINS);
  }

  lemma {:induction false} CleanedIsLeft(text: string)
    ensures RemoveLegacyLines(RemoveBlock(text, BEGINS)) == Join(Left(SplitLines(text), BEGINS, false))
  {
    var ls := SplitLines(text);
    SplitIsCanonical(text);
    OutsideIsCanonical(ls, BEGINS);
    SplitOfJoin(OutsideBlocks(ls, BEGINS));
    OutsideIsLeft(ls, BEGINS);
  }

  lemma {:induction false} HeaderLeft(ls: seq<string>, begins: seq<string>)
    requires Canonical(ls)
    ensures StartsWith(Join(Left(ls, begins, false)), OWN_HEADER) <==> HidesHeader(ls, begins)
  {
    LeftIsCanonical(ls, begins, false);
    HeaderIsTwoLines();
    StartsWithLine(Left(ls, begins, false), HEADER_LINE, CREATED);
    LeftHides(ls, begins, HEADER_LINE, CREATED);
  }

  /** The first two lines that stay. */
  lemma {:induction false} LeftHides(ls: seq<string>, begins: seq<string>, line: string, piece: string)
    ensures var left := Left(ls, begins, false);
            |left| >= 2 && left[0] == line && StartsWith(left[1], piece) <==> Hides(ls, begins, line, piece)
  {
    var i := FirstLeft(ls, begins, false);
    LeftFrom(ls, begins, false, i);
    if i < |ls| {
      var rest, o := ls[i + 1..], OpenAt(ls, begins, false, i + 1);
      FirstStarts(rest, begins, o, piece);
      FirstTwo(ls[i], Left(rest, begins, o));
    }
  }

  lemma {:induction false} FirstTwo<T>(x: T, more: seq<T>)
    ensures var all := [x] + more; all[0] == x && (|all| >= 2 <==> more != []) && (more != [] ==> all[1] == more[0])
  {
  }

  lemma {:induction false} FirstStarts(ls: seq<string>, begins: seq<string>, open: bool, piece: string)
    ensures var left := Left(ls, begins, open);
            left != [] && StartsWith(left[0], piece) <==> LeavesFirst(ls, begins, open, piece)
  {
    LeftFrom(ls, begins, open, FirstLeft(ls, begins, open));
  }

  lemma {:induction false} HeaderIsTwoLines()
    ensures OWN_HEADER == HEADER_LINE + CREATED && IsLine(HEADER_LINE) && EndsInBreak(HEADER_LINE)
            && HasContent(CREATED)
  {
  }

  /** It takes a marker or a line of the module among the first two lines. */
  lemma {:induction false} HeaderIsHiddenOnTop(text: string)
    requires !StartsWith(text, OWN_HEADER) && HidesHeader(SplitLines(text), BEGINS)
    ensures var ls := SplitLines(text);
            |ls| >= 2 && (Ours(ls[0]) || Ours(ls[1]) || Strip(ls[0]) in BEGINS || Strip(ls[1]) in BEGINS)
  {
    SplitIsCanonical(text);
    JoinOfSplit(text);
    HeaderIsTwoLines();
    HiddenInLines(SplitLines(text), BEGINS);
  }

  lemma {:induction false} HiddenInLines(ls: seq<string>, begins: seq<string>)
    requires Canonical(ls) && !StartsWith(Join(ls), HEADER_LINE + CREATED) && HidesHeader(ls, begins)
    ensures |ls| >= 2 && (Ours(ls[0]) || Ours(ls[1]) || Strip(ls[0]) in begins || Strip(ls[1]) in begins)
  {
    HeaderIsTwoLines();
    StartsWithLine(ls, HEADER_LINE, CREATED);
    HiddenIsGone(ls, begins);
  }

  lemma {:induction false} HiddenIsGone(ls: seq<string>, begins: seq<string>)
    requires HidesHeader(ls, begins) && !(|ls| >= 2 && ls[0] == HEADER_LINE && StartsWith(ls[1], CREATED))
    ensures |ls| >= 2 && (Ours(ls[0]) || Ours(ls[1]) || Strip(ls[0]) in begins || Strip(ls[1]) in begins)
  {
    assert ls[1..][0] == ls[1];
    assert !Goes(ls, begins, false) ==> FirstLeft(ls, begins, false) == 0 && !OpenAt(ls, begins, false, 1);
    assert !Goes(ls[1..], begins, false) ==> FirstLeft(ls[1..], begins, false) == 0;
  }

  lemma {:induction false} CommentLine(line: string)
    requires line != "" && line[0] == '#'
    ensures !Ours(line)
  {
  }

  lemma {:induction false} MarkerChars()
    ensures |BEGIN| > 2 && |WALLET_BEGIN| > 2 && BEGIN[1] == WALLET_BEGIN[1] == ' '
            && BEGIN[2] == WALLET_BEGIN[2] == 'B'
  {
  }

  lemma {:induction false} NoMarker(s: string)
    requires |s| > 2 && (s[1] != ' ' || s[2] != 'B')
    ensures s !in BEGINS
  {
    MarkerChars();
  }

  lemma {:induction false} HeaderLinesStay()
    ensures !Ours(HEADER_LINE) && !Ours(CREATED)
  {
    CommentLine(HEADER_LINE);
    CommentLine(CREATED);
  }

  lemma {:induction false} HeaderIsNoMarker()
    ensures Strip(HEADER_LINE) !in BEGINS
  {
    var h := "#%PAM-1.0";
    StripOfTightLine(h);
    NoMarker(h);
  }

  lemma {:induction false} CreatedIsNoMarker()
    ensures Strip(CREATED) !in BEGINS
  {
    StripOfTightLine(CREATED);
    NoMarker(CREATED);
  }

  lemma {:induction false} HiddenBehind(own: string, a: string, b: string, begins: seq<string>)
    requires Ours(own) && Strip(own) !in begins && !Ours(a) && Strip(a) !in begins && !Ours(b) && Strip(b) !in begins
    requires a == HEADER_LINE && StartsWith(b, CREATED)
    ensures HidesHeader([own, a, b], begins)
  {
    var ls := [own, a, b];
    assert ls[1..] == [a, b] && ls[2..] == [b] && [a, b][1..] == [b];
    assert FirstLeft([b], begins, false) == 0;
    assert FirstLeft([a, b], begins, false) == 0;
    assert FirstLeft(ls, begins, false) == 1;
    assert !OpenAt([a, b], begins, false, 1);
    assert !OpenAt(ls, begins, false, 2);
  }

  /** And every line of the module hides the header behind it. */
  lemma {:induction false} HeaderBehindOwnLine(own: string)
    requires Ours(own) && IsLine(own) && EndsInBreak(own) && Strip(own) !in BEGINS
    ensures var kept := CleanedEtc(own + OWN_HEADER); kept.Some? && StartsWith(kept.value, OWN_HEADER)
  {
    var text := own + OWN_HEADER;
    HeaderIsTwoLines();
    HeaderLinesStay();
    HeaderIsNoMarker();
    CreatedIsNoMarker();
    BehindOwnLine(own, HEADER_LINE, CREATED);
    HiddenBehind(own, HEADER_LINE, CREATED, BEGINS);
    HeaderComesBack(text);
  }

  lemma {:induction false} BehindOwnLine(own: string, line: string, piece: string)
    requires Ours(own) && IsLine(own) && EndsInBreak(own) && !Ours(line) && IsLine(line) && EndsInBreak(line)
             && HasContent(piece)
    ensures var text := own + (line + piece);
            !StartsWith(text, line + piece) && Contains(text, MODULE) && SplitLines(text) == [own, line, piece]
  {
    var ls := [own, line, piece];
    JoinOfThree(own, line, piece);
    SplitOfJoin(ls);
    HeadOfText(own, line + piece, line, piece);
    OursIsMentioned(own);
    ContainsLeft(own, line + piece, MODULE);
  }

  lemma {:induction false} JoinOfThree(a: string, b: string, c: string)
    ensures Join([a, b, c]) == a + (b + c)
  {
    assert [a, b, c][1..] == [b, c] && [b, c][1..] == [c] && [c][1..] == [];
    assert Join([c]) == c + Join([]);
    assert c + "" == c;
  }

  lemma {:induction false} HeaderCanComeBack()
    ensures exists text: string :: CleanedEtc(text).Some? && StartsWith(CleanedEtc(text).value, OWN_HEADER)
  {
    PamOwnStack.OwnLineFacts();
    OwnLineIsPlain();
    PlainMentionsNothing(OWN_STACK_LINE, BEGIN);
    NotAMarker(OWN_STACK_LINE + "\n");
    HeaderBehindOwnLine(OWN_STACK_LINE + "\n");
  }

  lemma {:induction false} OwnLineIsPlain()
    ensures PlainLine(OWN_STACK_LINE)
  {
    ModuleIsPlain();
    assert Plain("auth") && Plain("[success=ok") && Plain("default=die]") && Plain("no_password");
    SpelledIsPlain(OWN_WORDS, ['\t', ' ', '\t', ' ']);
  }

  // -------------------------------------------------------- the whole tree

  /** Whatever the manifest holds, reset removes the drop-in, and no file it
      leaves in /etc/pam.d has a line of the module. A file of ours it leaves
      is one whose header was hidden. */
  lemma {:induction false} ResetLeavesNothing(files: Files, entries: map<Path, Entry>, service: string)
    ensures ResetAt(files, entries, DropIn).None?
    ensures var t := ResetAt(files, entries, Etc(service)); t.Some? ==> NoneOurs(SplitLines(t.value))
    ensures var t := ResetAt(files, entries, Etc(service));
            t.Some? ==>
              var found := AfterManifest(Cell(Get(WithoutDropIn(files), Etc(service)), Get(entries, Etc(service))),
                                         false);
              found.Some? && (StartsWith(t.value, OWN_HEADER)
                              <==> Contains(found.value, MODULE) && HidesHeader(SplitLines(found.value), BEGINS))
  {
    var found := AfterManifest(Cell(Get(WithoutDropIn(files), Etc(service)), Get(entries, Etc(service))), false);
    if found.Some? && !EndsWith(service, BACKUP_SUFFIX) && CleanedEtc(found.value).Some? {
      CleanedHasNone(found.value);
      HeaderComesBack(found.value);
    }
  }

  // ----------------------------------------------------- the lock's option

  /** Also with its record lost the option comes off the lock screen's
      configuration, and a file that holds nothing else goes. */
  lemma {:induction false} ResetTakesOptionOff(files: Files, entries: map<Path, Entry>, u: string)
    requires (u == "" || EndsWith(u, "\n")) && !HasAnyBlock(u)
    requires Get(files, LockConfig) == Some(u + OPTION_BLOCK) && LockConfig !in entries
    ensures ResetAt(files, entries, LockConfig) == if Blank(u) then None else Some(u)
  {
    OptionText(u, BEGINS);
    assert Get(WithoutDropIn(files), LockConfig) == Get(files, LockConfig);
  }

  /** Recorded, it comes off as disable takes it off. */
  lemma {:induction false} ResetRestoresOption(files: Files, entries: map<Path, Entry>, found: Option<string>)
    requires IsForeign(found) && IsOptionCell(found, Cell(Get(files, LockConfig), Get(entries, LockConfig)), true)
    ensures ResetAt(files, entries, LockConfig) == found
  {
    var c := Cell(Get(files, LockConfig), Get(entries, LockConfig));
    assert Get(WithoutDropIn(files), LockConfig) == Get(files, LockConfig);
    RevertOptionCell(found, c, true, BEGINS);
  }
}
