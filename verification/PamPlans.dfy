/** Which files each target is about: what turning it on and off does to every
    path of the tree, with the services by name, and when it is refused. */
module PamPlans {
  import opened Sequences
  import opened Text
  import opened Outcomes
  import opened PamLines
  import opened PamBlocks
  import opened PamCells
  import opened PamTargets
  import opened PamMeaning
  import opened PamEnable
  import PamOwnStack

  // -------------------------------------------------------- what must be there

  /** A line that _is_auth_line finds, by its words: an auth line, or common-auth
      included; behind a dash also where the module of a line would stand. */
  predicate IsAuth(words: seq<string>)
    requires forall i :: 0 <= i < |words| ==> words[i] != ""
  {
    || (words != [] && StripChar(words[0], '-') == "auth")
    || (|words| >= 2 && StartsWith(words[0], "@include") && words[1] == "common-auth")
    || (words != [] && words[0][..1] == "-" && StripChar(words[0], '-') == "@include"
        && AfterControl(words[1..]) != [] && AfterControl(words[1..])[0] == "common-auth")
  }

  lemma {:induction false} AuthLineMeans(line: string)
    ensures IsAuthLine(line) <==> IsAuth(Words(line))
  {
    var words := Words(line);
    if words != [] {
      FirstWord(words[0]);
    }
  }

  lemma {:induction false} FirstWord(w: string)
    requires w != ""
    ensures StartsWith(w, "@include") ==> w[0] == '@' && StripChar(w, '-') != "auth"
    ensures w[0] == '#' ==> StripChar(w, '-') != "auth" && StripChar(w, '-') != "@include"
    ensures StripChar(w, '-') == "@include" && !StartsWith(w, "@include") ==> w[..1] == "-"
    ensures w[..1] == "-" <==> w[0] == '-'
  {
    if StartsWith(w, "@include") {
      assert w[..8][0] == '@';
    }
    assert "auth"[0] == 'a' && "@include"[0] == '@' && "-"[0] == '-';
    assert w[..1][0] == w[0];
    if w[0] == '-' {
      assert w[..1] == "-";
    }
  }

  /** Some line of the text is an auth line. */
  predicate HasAuthLine(text: string) {
    exists i :: 0 <= i < |SplitLines(text)| && IsAuth(Words(SplitLines(text)[i]))
  }

  lemma {:induction false} FirstAuthFinds(ls: seq<string>)
    ensures FirstAuth(ls) < |ls| <==> exists i :: 0 <= i < |ls| && IsAuth(Words(ls[i]))
    ensures AfterLastAuth(ls) > 0 <==> FirstAuth(ls) < |ls|
  {
    if ls != [] {
      AuthLineMeans(ls[0]);
      FirstAuthFinds(ls[1..]);
      if i :| 0 <= i < |ls[1..]| && IsAuth(Words(ls[1..][i])) {
        assert IsAuth(Words(ls[i + 1]));
      }
      if i :| 1 <= i < |ls| && IsAuth(Words(ls[i])) {
        assert IsAuth(Words(ls[1..][i - 1]));
      }
    }
  }

  /** The file a service is patched from exists, and without our block it has an
      auth line, or spells the marker in a longer line. */
  predicate CanTakeFace(d: Disk, service: string) {
    Source(d, service).Some? &&
    var clean := RemoveBlock(Source(d, service).value, [BEGIN]);
    Contains(clean, BEGIN) || HasAuthLine(clean)
  }

  predicate CanTakeWallet(d: Disk, service: string) {
    Source(d, service).Some? &&
    var clean := RemoveBlock(Source(d, service).value, [WALLET_BEGIN]);
    Contains(clean, WALLET_BEGIN) || HasAuthLine(clean)
  }

  lemma {:induction false} FaceRefusedExactly(text: string, gates: seq<string>, line: string)
    ensures InsertBlock(text, gates, line).Done? <==> Contains(text, BEGIN) || HasAuthLine(text)
  {
    FirstAuthFinds(SplitLines(text));
    NewlineKeepsAuth(SplitLines(text));
  }

  lemma {:induction false} NewlineKeepsAuth(ls: seq<string>)
    ensures FirstAuth(WithNewline(ls)) < |WithNewline(ls)| <==> FirstAuth(ls) < |ls|
  {
    if ls != [] {
      WordsBeforeSpace(ls[|ls| - 1], '\n');
    }
    SameAuth(ls, WithNewline(ls));
  }

  lemma {:induction false} WalletRefusedExactly(text: string)
    ensures InsertWalletRelease(text).Done? <==> Contains(text, WALLET_BEGIN) || HasAuthLine(text)
    ensures InsertWalletRemember(text).Done? <==> Contains(text, WALLET_BEGIN) || HasAuthLine(text)
  {
    FirstAuthFinds(SplitLines(text));
    if text != "" && !EndsWith(text, "\n") {
      EndedLines(text);
      FirstAuthFinds(SplitLines(text + "\n"));
    }
  }

  /** A newline behind a text without one ends its last line, or adds an empty one. */
  lemma {:induction false} EndedLines(text: string)
    requires text != "" && !EndsWith(text, "\n")
    ensures FirstAuth(SplitLines(text + "\n")) < |SplitLines(text + "\n")|
       <==> FirstAuth(SplitLines(text)) < |SplitLines(text)|
  {
    if EndsInBreak(SplitLines(text)[|SplitLines(text)| - 1]) {
      EmptyLineAdded(text);
    } else {
      LastLineEnded(text);
    }
    SameAuth(SplitLines(text), SplitLines(text + "\n"));
  }

  /** Lines with the same words have auth lines alike, empty lines behind them or not. */
  lemma {:induction false} SameAuth(ls: seq<string>, made: seq<string>)
    requires |ls| <= |made| && forall i :: 0 <= i < |made| ==> Words(made[i]) == if i < |ls| then Words(ls[i]) else []
    ensures FirstAuth(made) < |made| <==> FirstAuth(ls) < |ls|
  {
    FirstAuthFinds(ls);
    FirstAuthFinds(made);
    if i :| 0 <= i < |ls| && IsAuth(Words(ls[i])) {
      assert IsAuth(Words(made[i]));
    }
    if i :| 0 <= i < |made| && IsAuth(Words(made[i])) {
      assert i < |ls| && IsAuth(Words(ls[i]));
    }
  }

  lemma {:induction false} EmptyLineAdded(text: string)
    requires text != "" && EndsInBreak(SplitLines(text)[|SplitLines(text)| - 1])
    ensures SplitLines(text + "\n") == SplitLines(text) + ["\n"] && Words("\n") == []
  {
    var ls := SplitLines(text);
    SplitIsCanonical(text);
    JoinOfSplit(text);
    JoinAppend(ls, ["\n"]);
    JoinOne("\n");
    assert Canonical(ls + ["\n"]);
    SplitOfJoin(ls + ["\n"]);
    WordsBeforeSpace("", '\n');
    assert "" + ['\n'] == "\n";
  }

  lemma {:induction false} LastLineEnded(text: string)
    requires text != "" && !EndsInBreak(SplitLines(text)[|SplitLines(text)| - 1])
    ensures |SplitLines(text + "\n")| == |SplitLines(text)|
    ensures forall i :: 0 <= i < |SplitLines(text)| ==> Words(SplitLines(text + "\n")[i]) == Words(SplitLines(text)[i])
  {
    var ls := SplitLines(text);
    SplitIsCanonical(text);
    JoinOfSplit(text);
    Last(ls);
    EndedIs(ls[..|ls| - 1], ls[|ls| - 1], text);
    WordsBeforeSpace(ls[|ls| - 1], '\n');
  }

  lemma {:induction false} EndedIs(front: seq<string>, last: string, text: string)
    requires Canonical(front + [last]) && !EndsInBreak(last) && Join(front + [last]) == text
    ensures SplitLines(text + "\n") == front + [last + "\n"]
  {
    var made := front + [last + "\n"];
    JoinAppend(front, [last]);
    JoinAppend(front, [last + "\n"]);
    JoinOne(last);
    JoinOne(last + "\n");
    assert Join(front) + (last + "\n") == Join(front) + last + "\n";
    assert IsLine((front + [last])[|front|]);
    assert forall i :: 0 <= i < |front| ==> made[i] == (front + [last])[i];
    assert Canonical(made);
    SplitOfJoin(made);
  }

  lemma {:induction false} JoinOne(line: string)
    ensures Join([line]) == line
  {
    assert [line][1..] == [];
    assert line + "" == line;
  }

  // ------------------------------------------------------ one service's file

  /** The face block in the file a service is read from: what insert_block makes
      of the file found without it, with the gates and the line given, and the
      manifest records it if anything was written. */
  predicate FaceGoesIn(before: Disk, after: Disk, gatesIn: Files, service: string, line: string, target: Target) {
    Source(before, service).Some? &&
    var text := Source(before, service).value;
    var made := InsertBlock(RemoveBlock(text, [BEGIN]), Gates(gatesIn, text), line);
    && made.Done? && Source(after, service) == Some(made.value)
       && IsRecorded(before, after, Etc(service), made.value, target)
  }

  predicate WalletGoesIn(before: Disk, after: Disk, service: string, release: bool, target: Target) {
    Source(before, service).Some? &&
    var clean := RemoveBlock(Source(before, service).value, [WALLET_BEGIN]);
    var made := if release then InsertWalletRelease(clean) else InsertWalletRemember(clean);
    && made.Done? && Source(after, service) == Some(made.value)
       && IsRecorded(before, after, Etc(service), made.value, target)
  }

  /** A path that was written has what was written recorded for the target. */
  predicate IsRecorded(before: Disk, after: Disk, p: Path, text: string, target: Target) {
    CellAt(after, p) == CellAt(before, p)
    || (Get(after.files, p) == Some(text) && Get(after.manifest, p).Some?
        && Get(after.manifest, p).value.target == target && Get(after.manifest, p).value.recorded == text)
  }

  predicate SameBut(before: Disk, after: Disk, p: Path) {
    after == WithCell(before, p, CellAt(after, p))
  }

  /** Every path but these has the file and the entry it had. */
  ghost predicate OnlyAt(before: Disk, after: Disk, paths: set<Path>) {
    forall p :: p !in paths ==> CellAt(after, p) == CellAt(before, p)
  }

  /** What a service is read from lies at three paths. */
  lemma {:induction false} SourceIsLocal(a: Disk, b: Disk, service: string)
    requires forall p :: p in {Etc(service), VendorLib(service), VendorEtc(service)} ==> CellAt(a, p) == CellAt(b, p)
    ensures Source(a, service) == Source(b, service)
  {
    assert CellAt(a, VendorLib(service)) == CellAt(b, VendorLib(service));
    assert CellAt(a, VendorEtc(service)) == CellAt(b, VendorEtc(service));
  }

  /** The file PAM reads for a service: the one in /etc, else the vendor's in
      usr/lib, else that in usr/etc. */
  lemma {:induction false} FoundMeans(d: Disk, service: string)
    ensures Source(d, service)
         == if Etc(service) in d.files then Some(d.files[Etc(service)])
            else if VendorLib(service) in d.files then Some(d.files[VendorLib(service)])
            else if VendorEtc(service) in d.files then Some(d.files[VendorEtc(service)]) else None
    ensures Find(d.files, service).Some? <==> Source(d, service).Some?
    ensures Source(d, service) == TextAt(d.files, Find(d.files, service))
  {
  }

  lemma {:induction false} FaceStep(sys: System, d: Disk, service: string, target: Target, user: Option<string>)
    ensures var r := Step(sys, d, Item(service, Insert), target, user);
            && (r.Done? <==> CanTakeFace(d, service))
            && (r.Done?
                ==> FaceGoesIn(d, WithCell(d, Etc(service), r.value), d.files, service, LineFor(service), target))
  {
    if Source(d, service).Some? {
      var text := Source(d, service).value;
      var made := InsertBlock(RemoveBlock(text, [BEGIN]), Gates(d.files, text), LineFor(service));
      FaceRefusedExactly(RemoveBlock(text, [BEGIN]), Gates(d.files, text), LineFor(service));
      var r := FaceRewrites(sys, d, service, target, user, text, made);
      if r.Done? {
        RewrittenGoesIn(d, service, text, made, target, r.value);
      }
    }
  }

  lemma {:induction false} FaceRewrites(sys: System, d: Disk, service: string, target: Target, user: Option<string>,
                                        text: string, made: Result<string>)
    returns (r: Result<Cell>)
    requires Source(d, service) == Some(text)
    requires made == InsertBlock(RemoveBlock(text, [BEGIN]), Gates(d.files, text), LineFor(service))
    ensures r == Step(sys, d, Item(service, Insert), target, user)
    ensures r == Rewritten(CellAt(d, Etc(service)), text, made, target)
  {
    r := Step(sys, d, Item(service, Insert), target, user);
  }

  /** Whatever is written over a service is what it is read from then, and recorded. */
  lemma {:induction false} RewrittenGoesIn(d: Disk, service: string, text: string, made: Result<string>, target: Target,
                                           c: Cell)
    requires Source(d, service) == Some(text) && Rewritten(CellAt(d, Etc(service)), text, made, target) == Done(c)
    ensures made.Done? && var after := WithCell(d, Etc(service), c);
            Source(after, service) == Some(made.value) && IsRecorded(d, after, Etc(service), made.value, target)
  {
    WithCellAt(d, Etc(service), c);
    VendorStays(d, service, c);
    var after := WithCell(d, Etc(service), c);
    assert CellAt(after, Etc(service)) == c;
  }

  lemma {:induction false} WalletStep(sys: System, d: Disk, service: string, release: bool, target: Target,
                                      user: Option<string>)
    ensures var r := Step(sys, d, Item(service, if release then WalletRelease else WalletRemember), target, user);
            && (r.Done? <==> CanTakeWallet(d, service))
            && (r.Done? ==> WalletGoesIn(d, WithCell(d, Etc(service), r.value), service, release, target))
  {
    if Source(d, service).Some? {
      var text := Source(d, service).value;
      var clean := RemoveBlock(text, [WALLET_BEGIN]);
      var made := if release then InsertWalletRelease(clean) else InsertWalletRemember(clean);
      WalletRefusedExactly(clean);
      var r := WalletRewrites(sys, d, service, release, target, user, text, made);
      if r.Done? {
        RewrittenGoesIn(d, service, text, made, target, r.value);
      }
    }
  }

  lemma {:induction false} WalletRewrites(sys: System, d: Disk, service: string, release: bool, target: Target,
                                          user: Option<string>, text: string, made: Result<string>)
    returns (r: Result<Cell>)
    requires Source(d, service) == Some(text)
    requires made == var clean := RemoveBlock(text, [WALLET_BEGIN]);
                     if release then InsertWalletRelease(clean) else InsertWalletRemember(clean)
    ensures r == Step(sys, d, Item(service, if release then WalletRelease else WalletRemember), target, user)
    ensures r == Rewritten(CellAt(d, Etc(service)), text, made, target)
  {
    r := Step(sys, d, Item(service, if release then WalletRelease else WalletRemember), target, user);
  }

  lemma {:induction false} VendorStays(d: Disk, service: string, c: Cell)
    ensures var after := WithCell(d, Etc(service), c);
            Source(after, service) == SourceText(c, TextAt(d.files, Vendor(d.files, service)))
  {
    var after := WithCell(d, Etc(service), c);
    WithCellAt(d, Etc(service), c);
    assert CellAt(after, VendorLib(service)) == CellAt(d, VendorLib(service));
    assert CellAt(after, VendorEtc(service)) == CellAt(d, VendorEtc(service));
  }

  /** The marker is then in the file; and with the marker nowhere else the block
      stands in front of the first auth line. */
  lemma {:induction false} FaceIsIn(before: Disk, after: Disk, gatesIn: Files, service: string, line: string,
                                    target: Target)
    requires FaceGoesIn(before, after, gatesIn, service, line, target) && PlainLine(line)
    ensures Contains(Source(after, service).value, BEGIN)
    ensures var clean := RemoveBlock(Source(before, service).value, [BEGIN]);
            PlainEnd(clean) && !Contains(clean, BEGIN)
            ==> InPlace(SplitLines(Source(after, service).value),
                        Block(Gates(gatesIn, Source(before, service).value), line))
  {
    var text := Source(before, service).value;
    var clean, gates := RemoveBlock(text, [BEGIN]), Gates(gatesIn, text);
    if !Contains(clean, BEGIN) {
      BlockIsFound(clean, gates, line);
      if PlainEnd(clean) {
        GatesAreCopies(gatesIn, text);
        InsertedInPlace(clean, gates, line);
      }
    }
  }

  lemma {:induction false} BlockIsFound(text: string, gates: seq<string>, line: string)
    requires !Contains(text, BEGIN) && InsertBlock(text, gates, line).Done?
    ensures Contains(InsertBlock(text, gates, line).value, BEGIN)
  {
    var ls := WithNewline(SplitLines(text));
    var k := FirstAuth(ls);
    InsertBlockIs(text, gates, line);
    var rest := AsLines(gates) + [line + "\n", END + "\n"];
    assert Block(gates, line) == [BEGIN + "\n"] + rest;
    JoinAppend(ls[..k] + Block(gates, line), ls[k..]);
    JoinAppend(ls[..k], Block(gates, line));
    JoinCons(BEGIN + "\n", rest);
    ContainsSelf(BEGIN);
    ContainsLeft(BEGIN + "\n", Join(rest), BEGIN);
    ContainsRight(Join(ls[..k]), Join(Block(gates, line)), BEGIN);
    ContainsLeft(Join(ls[..k] + Block(gates, line)), Join(ls[k..]), BEGIN);
  }

  // ---------------------------------------------------------------- the plan

  lemma {:induction false} OneStep(sys: System, d: Disk, a: Item, target: Target, user: Option<string>)
    ensures EnableAll(sys, d, [a], target, user)
         == var r := Step(sys, d, a, target, user);
           if r.Refused? then Refused else Done(WithCell(d, PathOf(a), r.value))
  {
    assert [a][1..] == [];
  }

  lemma {:induction false} MoreSteps(sys: System, d: Disk, a: Item, more: seq<Item>, target: Target,
                                     user: Option<string>)
    ensures EnableAll(sys, d, [a] + more, target, user)
         == var r := Step(sys, d, a, target, user);
            if r.Refused? then Refused else EnableAll(sys, WithCell(d, PathOf(a), r.value), more, target, user)
  {
    assert ([a] + more)[1..] == more;
  }

  /** A target with one service and nothing else. */
  lemma {:induction false} OneService(sys: System, d: Disk, service: string, target: Target, user: Option<string>)
    requires Plan(sys, d.files, target) == [Item(service, Insert)]
    ensures var r := Enabled(sys, d, target, user);
            && (r.Refused? <==> !CanTakeFace(d, service))
            && (r.Done? ==> OnlyAt(d, r.value, {Etc(service)})
                            && FaceGoesIn(d, r.value, d.files, service, LineFor(service), target))
  {
    OneStep(sys, d, Item(service, Insert), target, user);
    FaceStep(sys, d, service, target, user);
    var r := Step(sys, d, Item(service, Insert), target, user);
    if r.Done? {
      WithCellAt(d, Etc(service), r.value);
    }
  }

  // ---------------------------------------------------------- admin prompts

  lemma {:induction false} EnableAdmin(sys: System, d: Disk, user: Option<string>)
    ensures var r := Enabled(sys, d, Admin, user);
            && (r.Refused? <==> !CanTakeFace(d, "polkit-1"))
            && (r.Done? ==> OnlyAt(d, r.value, {Etc("polkit-1")})
                            && FaceGoesIn(d, r.value, d.files, "polkit-1", INSERT_LINE, Admin))
  {
    FoundMeans(d, "polkit-1");
    if Find(d.files, "polkit-1").Some? {
      OneService(sys, d, "polkit-1", Admin, user);
      ScansFirst();
    }
  }

  /** The services that scan at once, and those that wait for an empty password. */
  lemma {:induction false} ScansFirst()
    ensures LineFor("polkit-1") == LineFor("sudo") == LineFor("sudo-i") == LineFor("kde") == INSERT_LINE
    ensures LineFor("plasmalogin") == LineFor("sddm") == LOGIN_INSERT_LINE
  {
    assert "polkit-1"[1] == 'o' && "sudo"[1] == 'u' && "sudo-i"[1] == 'u' && "kde"[0] == 'k';
    assert "plasmalogin"[1] == 'l' && "sddm"[1] == 'd' && "plasmalogin"[0] == 'p';
  }

  // ------------------------------------------------------------------ sudo

  /** sudo-i pulls in sudo's auth stack. */
  predicate BringsSudo(d: Disk) {
    Source(d, "sudo-i").Some? &&
    var ls := SplitLines(Source(d, "sudo-i").value);
    exists i :: 0 <= i < |ls| && IsSudoLine(Words(ls[i]))
  }

  predicate IsSudoLine(words: seq<string>) {
    |words| >= 3 && StripChar(words[0], '-') == "auth" && (words[1] == "include" || words[1] == "substack")
    && words[2] == "sudo"
  }

  lemma {:induction false} PullsInExactly(ls: seq<string>)
    ensures AnyPullsIn(ls, "sudo") <==> exists i :: 0 <= i < |ls| && IsSudoLine(Words(ls[i]))
  {
    if ls != [] {
      PullsInExactly(ls[1..]);
      if i :| 0 <= i < |ls[1..]| && IsSudoLine(Words(ls[1..][i])) {
        assert IsSudoLine(Words(ls[i + 1]));
      }
      if i :| 1 <= i < |ls| && IsSudoLine(Words(ls[i])) {
        assert IsSudoLine(Words(ls[1..][i - 1]));
      }
    }
  }

  predicate WantsSudo(d: Disk) {
    Source(d, "sudo").Some?
  }

  /** sudo-i gets a block of its own, unless the one in sudo is in it already. */
  predicate WantsSudoI(d: Disk) {
    Source(d, "sudo-i").Some? && !(Source(d, "sudo").Some? && BringsSudo(d))
  }

  lemma {:induction false} SudoPlan(sys: System, d: Disk)
    ensures Plan(sys, d.files, Sudo)
         == (if WantsSudo(d) then [Item("sudo", Insert)] else [])
           + (if WantsSudoI(d) then [Item("sudo-i", Insert)] else [])
  {
    FoundMeans(d, "sudo");
    FoundMeans(d, "sudo-i");
    if Source(d, "sudo-i").Some? {
      PullsInExactly(SplitLines(Source(d, "sudo-i").value));
    }
  }

  /** The tree while sudo-i is written: sudo is done. */
  function BetweenSudos(before: Disk, after: Disk): Files {
    Set(after.files, Etc("sudo-i"), Get(before.files, Etc("sudo-i")))
  }

  /** What turning sudo on leaves. */
  ghost predicate SudoGoesIn(d: Disk, after: Disk) {
    && OnlyAt(d, after, {Etc("sudo"), Etc("sudo-i")})
    && (if WantsSudo(d) then FaceGoesIn(d, after, d.files, "sudo", INSERT_LINE, Sudo)
        else CellAt(after, Etc("sudo")) == CellAt(d, Etc("sudo")))
    && (if WantsSudoI(d) then FaceGoesIn(d, after, BetweenSudos(d, after), "sudo-i", INSERT_LINE, Sudo)
        else CellAt(after, Etc("sudo-i")) == CellAt(d, Etc("sudo-i")))
  }

  lemma {:induction false} EnableSudo(sys: System, d: Disk, user: Option<string>)
    ensures var r := Enabled(sys, d, Sudo, user);
            && (r.Refused? <==> (!WantsSudo(d) && !WantsSudoI(d)) || (WantsSudo(d) && !CanTakeFace(d, "sudo"))
                                || (WantsSudoI(d) && !CanTakeFace(d, "sudo-i")))
            && (r.Done? ==> SudoGoesIn(d, r.value))
  {
    SudoPlan(sys, d);
    if WantsSudo(d) && WantsSudoI(d) {
      BothSudos(sys, d, user);
    } else if WantsSudo(d) {
      assert [Item("sudo", Insert)] + [] == [Item("sudo", Insert)];
      SudoAlone(sys, d, user);
    } else if WantsSudoI(d) {
      assert [] + [Item("sudo-i", Insert)] == [Item("sudo-i", Insert)];
      SudoIAlone(sys, d, user);
    }
  }

  lemma {:induction false} SudoAlone(sys: System, d: Disk, user: Option<string>)
    requires WantsSudo(d) && !WantsSudoI(d) && Plan(sys, d.files, Sudo) == [Item("sudo", Insert)]
    ensures var r := Enabled(sys, d, Sudo, user);
            (r.Refused? <==> !CanTakeFace(d, "sudo")) && (r.Done? ==> SudoGoesIn(d, r.value))
  {
    OneService(sys, d, "sudo", Sudo, user);
    ScansFirst();
    Differ();
  }

  lemma {:induction false} SudoIAlone(sys: System, d: Disk, user: Option<string>)
    requires !WantsSudo(d) && WantsSudoI(d) && Plan(sys, d.files, Sudo) == [Item("sudo-i", Insert)]
    ensures var r := Enabled(sys, d, Sudo, user);
            (r.Refused? <==> !CanTakeFace(d, "sudo-i")) && (r.Done? ==> SudoGoesIn(d, r.value))
  {
    OneService(sys, d, "sudo-i", Sudo, user);
    ScansFirst();
    Differ();
    var r := Enabled(sys, d, Sudo, user);
    if r.Done? {
      BetweenIsBefore(d, r.value);
    }
  }

  lemma {:induction false} Differ()
    ensures Etc("sudo") != Etc("sudo-i") && Etc("plasmalogin") != Etc("sddm") && Etc("kde") != Etc("kde-face")
    ensures Etc("plasmalogin") != Etc("plasmalogin-autologin")
  {
    assert |"sudo"| != |"sudo-i"| && |"plasmalogin"| != |"sddm"| && |"kde"| != |"kde-face"|;
    assert |"plasmalogin"| != |"plasmalogin-autologin"|;
  }

  lemma {:induction false} BetweenIsBefore(d: Disk, after: Disk)
    requires OnlyAt(d, after, {Etc("sudo-i")})
    ensures BetweenSudos(d, after) == d.files
  {
    var between := BetweenSudos(d, after);
    forall p ensures Get(between, p) == Get(d.files, p) {
      assert CellAt(after, p) == CellAt(d, p) || p == Etc("sudo-i");
    }
    SameTree(between, d.files);
  }

  lemma {:induction false} SameTree(a: Files, b: Files)
    requires forall p :: Get(a, p) == Get(b, p)
    ensures a == b
  {
    forall p ensures (p in a <==> p in b) && (p in a ==> a[p] == b[p]) {
      assert Get(a, p) == Get(b, p);
    }
  }

  lemma {:induction false} BothSudos(sys: System, d: Disk, user: Option<string>)
    requires WantsSudo(d) && WantsSudoI(d)
    requires Plan(sys, d.files, Sudo) == [Item("sudo", Insert)] + [Item("sudo-i", Insert)]
    ensures var r := Enabled(sys, d, Sudo, user);
            && (r.Refused? <==> !CanTakeFace(d, "sudo") || !CanTakeFace(d, "sudo-i"))
            && (r.Done? ==> SudoGoesIn(d, r.value))
  {
    var r := SudoThenSudoI(sys, d, user);
  }

  lemma {:induction false} SudoThenSudoI(sys: System, d: Disk, user: Option<string>) returns (r: Result<Disk>)
    requires WantsSudo(d) && WantsSudoI(d)
    ensures r == EnableAll(sys, d, [Item("sudo", Insert)] + [Item("sudo-i", Insert)], Sudo, user)
    ensures r.Refused? <==> !CanTakeFace(d, "sudo") || !CanTakeFace(d, "sudo-i")
    ensures r.Done? ==> SudoGoesIn(d, r.value)
  {
    MoreSteps(sys, d, Item("sudo", Insert), [Item("sudo-i", Insert)], Sudo, user);
    var first, mid := SudoFirst(sys, d, user);
    r := Refused;
    if first.Done? {
      r := SudoILast(sys, mid, user);
      if r.Done? {
        Differ();
        BehindSudo(d, mid, r.value);
      }
    }
  }

  lemma {:induction false} SudoFirst(sys: System, d: Disk, user: Option<string>)
    returns (first: Result<Cell>, mid: Disk)
    ensures first == Step(sys, d, Item("sudo", Insert), Sudo, user) && (first.Done? <==> CanTakeFace(d, "sudo"))
    ensures first.Done? ==>
      && mid == WithCell(d, Etc("sudo"), first.value) && OnlyAt(d, mid, {Etc("sudo")})
      && FaceGoesIn(d, mid, d.files, "sudo", INSERT_LINE, Sudo)
         && CanTakeFace(mid, "sudo-i") == CanTakeFace(d, "sudo-i")
  {
    first, mid := Step(sys, d, Item("sudo", Insert), Sudo, user), d;
    FaceStep(sys, d, "sudo", Sudo, user);
    ScansFirst();
    if first.Done? {
      mid := WithCell(d, Etc("sudo"), first.value);
      WithCellAt(d, Etc("sudo"), first.value);
      Differ();
      SourceIsLocal(d, mid, "sudo-i");
    }
  }

  lemma {:induction false} SudoILast(sys: System, d: Disk, user: Option<string>) returns (r: Result<Disk>)
    ensures r == EnableAll(sys, d, [Item("sudo-i", Insert)], Sudo, user) && (r.Refused? <==> !CanTakeFace(d, "sudo-i"))
    ensures r.Done? ==> OnlyAt(d, r.value, {Etc("sudo-i")})
                        && FaceGoesIn(d, r.value, d.files, "sudo-i", INSERT_LINE, Sudo)
  {
    OneStep(sys, d, Item("sudo-i", Insert), Sudo, user);
    FaceStep(sys, d, "sudo-i", Sudo, user);
    ScansFirst();
    r := EnableAll(sys, d, [Item("sudo-i", Insert)], Sudo, user);
    var step := Step(sys, d, Item("sudo-i", Insert), Sudo, user);
    if step.Done? {
      WithCellAt(d, Etc("sudo-i"), step.value);
    }
  }

  lemma {:induction false} BehindSudo(d: Disk, mid: Disk, after: Disk)
    requires OnlyAt(d, mid, {Etc("sudo")}) && OnlyAt(mid, after, {Etc("sudo-i")}) && Etc("sudo") != Etc("sudo-i")
    requires FaceGoesIn(d, mid, d.files, "sudo", INSERT_LINE, Sudo)
    requires FaceGoesIn(mid, after, mid.files, "sudo-i", INSERT_LINE, Sudo)
    requires WantsSudo(d) && WantsSudoI(d)
    ensures SudoGoesIn(d, after)
  {
    OnlyAtBoth(d, mid, after, {Etc("sudo")}, {Etc("sudo-i")});
    assert {Etc("sudo")} + {Etc("sudo-i")} == {Etc("sudo"), Etc("sudo-i")};
    FaceStays(d, mid, after, d.files, "sudo", INSERT_LINE, Sudo);
    assert CellAt(mid, Etc("sudo-i")) == CellAt(d, Etc("sudo-i"));
    BetweenIsMid(d, mid, after);
    FaceAfter(d, mid, after, BetweenSudos(d, after), "sudo-i", INSERT_LINE, Sudo);
  }

  /** What another step leaves of a service's block. */
  lemma {:induction false} FaceStays(d: Disk, mid: Disk, after: Disk, files: Files, service: string, line: string,
                                     target: Target)
    requires FaceGoesIn(d, mid, files, service, line, target)
    requires forall p :: p in {Etc(service), VendorLib(service), VendorEtc(service)}
                         ==> CellAt(after, p) == CellAt(mid, p)
    ensures FaceGoesIn(d, after, files, service, line, target)
  {
    SourceIsLocal(mid, after, service);
    assert CellAt(after, Etc(service)) == CellAt(mid, Etc(service));
  }

  /** And what went before it changes nothing. */
  lemma {:induction false} FaceAfter(d: Disk, mid: Disk, after: Disk, files: Files, service: string, line: string,
                                     target: Target)
    requires FaceGoesIn(mid, after, files, service, line, target)
    requires forall p :: p in {Etc(service), VendorLib(service), VendorEtc(service)} ==> CellAt(mid, p) == CellAt(d, p)
    ensures FaceGoesIn(d, after, files, service, line, target)
  {
    SourceIsLocal(d, mid, service);
    assert CellAt(mid, Etc(service)) == CellAt(d, Etc(service));
  }

  lemma {:induction false} BetweenIsMid(d: Disk, mid: Disk, after: Disk)
    requires OnlyAt(mid, after, {Etc("sudo-i")}) && CellAt(mid, Etc("sudo-i")) == CellAt(d, Etc("sudo-i"))
    ensures BetweenSudos(d, after) == mid.files
  {
    var between := BetweenSudos(d, after);
    forall p ensures Get(between, p) == Get(mid.files, p) {
      assert CellAt(after, p) == CellAt(mid, p) || p == Etc("sudo-i");
    }
    SameTree(between, mid.files);
  }

  // --------------------------------------------------------- the login screen

  function LoginService(d: Disk): string {
    if Source(d, "plasmalogin").Some? then "plasmalogin" else "sddm"
  }

  lemma {:induction false} EnableLogin(sys: System, d: Disk, user: Option<string>)
    ensures var r, service := Enabled(sys, d, Login, user), LoginService(d);
            && (r.Refused? <==> !CanTakeFace(d, service))
            && (r.Done? ==> OnlyAt(d, r.value, {Etc(service)})
                            && FaceGoesIn(d, r.value, d.files, service, LOGIN_INSERT_LINE, Login))
  {
    FoundMeans(d, "plasmalogin");
    FoundMeans(d, "sddm");
    ScansFirst();
    if Source(d, LoginService(d)).Some? {
      OneService(sys, d, LoginService(d), Login, user);
    }
  }

  // --------------------------------------------------------- the lock screen

  /** The greeter knows the face-only service, and there is a service to make it from. */
  predicate HasFaceService(sys: System, d: Disk) {
    sys.kdeFace && (Source(d, "kde-fingerprint").Some? || Source(d, "kde").Some?)
  }

  /** That service, from the fingerprint stack if there is one. */
  function FaceService(d: Disk): Result<string>
    requires Source(d, "kde-fingerprint").Some? || Source(d, "kde").Some?
  {
    if Source(d, "kde-fingerprint").Some? then PamOwnStack.OwnStack(Source(d, "kde-fingerprint").value, true)
    else PamOwnStack.OwnStack(Source(d, "kde").value, false)
  }

  /** A file in its place that is not ours. */
  predicate HasForeignFace(d: Disk) {
    Etc("kde-face") in d.files && !StartsWith(d.files[Etc("kde-face")], OWN_HEADER)
  }

  /** The lock screen's option: as it was if our marker is in the file, else our
      block behind what the file held, and recorded. */
  predicate OptionGoesIn(before: Disk, after: Disk) {
    if LockConfig in before.files && Contains(before.files[LockConfig], BEGIN)
    then CellAt(after, LockConfig) == CellAt(before, LockConfig)
    else
      var was := if LockConfig in before.files then before.files[LockConfig] else "";
      LockConfig in after.files &&
      var now := after.files[LockConfig];
      && (now == was + OPTION_BLOCK || now == was + "\n" + OPTION_BLOCK || now == was + "\n\n" + OPTION_BLOCK)
      && Get(after.manifest, LockConfig).Some? && Get(after.manifest, LockConfig).value.target == LockScreen
      && Get(after.manifest, LockConfig).value.recorded == now
  }

  lemma {:induction false} OptionStep(sys: System, d: Disk, user: Option<string>)
    ensures var r := Step(sys, d, LOCK_OPTION, LockScreen, user);
            r.Done? && OptionGoesIn(d, WithCell(d, LockConfig, r.value))
  {
    var c := OptionInto(CellAt(d, LockConfig), LockScreen);
    assert Step(sys, d, LOCK_OPTION, LockScreen, user) == Done(c);
    WithCellAt(d, LockConfig, c);
    OptionWritten(d, WithCell(d, LockConfig, c), OPTION_BLOCK);
  }

  lemma {:induction false} OptionWritten(d: Disk, after: Disk, block: string)
    requires block == OPTION_BLOCK && CellAt(after, LockConfig) == OptionInto(CellAt(d, LockConfig), LockScreen)
    ensures OptionGoesIn(d, after)
  {
    assert CellAt(after, LockConfig).text == Get(after.files, LockConfig);
    assert CellAt(after, LockConfig).entry == Get(after.manifest, LockConfig);
    var was := if LockConfig in d.files then d.files[LockConfig] else "";
    NothingBetween(was, block);
  }

  lemma {:induction false} NothingBetween(was: string, block: string)
    ensures was + "" + block == was + block && "" + block == block
  {
  }

  lemma {:induction false} OwnStep(sys: System, d: Disk, user: Option<string>)
    requires HasFaceService(sys, d)
    ensures var r := Step(sys, d, KDE_FACE, LockScreen, user);
            && (r.Refused? <==> HasForeignFace(d) || FaceService(d).Refused?)
            && (r.Done? ==> r.value == Cell(Some(FaceService(d).value),
                                            Some(Entry(Created, LockScreen, FaceService(d).value, ""))))
  {
    FoundMeans(d, "kde-fingerprint");
    FoundMeans(d, "kde");
  }

  lemma {:induction false} EnableLockScreen(sys: System, d: Disk, user: Option<string>)
    ensures var r := Enabled(sys, d, LockScreen, user);
            if HasFaceService(sys, d) then
              && (r.Refused? <==> HasForeignFace(d) || FaceService(d).Refused?)
              && (r.Done? ==>
                    && OnlyAt(d, r.value, {Etc("kde-face"), LockConfig}) && OptionGoesIn(d, r.value)
                    && CellAt(r.value, Etc("kde-face"))
                       == Cell(Some(FaceService(d).value), Some(Entry(Created, LockScreen, FaceService(d).value, ""))))
            else
              && (r.Refused? <==> !CanTakeFace(d, "kde"))
              && (r.Done? ==> OnlyAt(d, r.value, {Etc("kde")})
                              && FaceGoesIn(d, r.value, d.files, "kde", INSERT_LINE, LockScreen))
  {
    FoundMeans(d, "kde-fingerprint");
    FoundMeans(d, "kde");
    ScansFirst();
    if HasFaceService(sys, d) {
      OwnAndOption(sys, d, user);
    } else if Source(d, "kde").Some? {
      OneService(sys, d, "kde", LockScreen, user);
    }
  }

  lemma {:induction false} OwnAndOption(sys: System, d: Disk, user: Option<string>)
    requires HasFaceService(sys, d) && Plan(sys, d.files, LockScreen) == [KDE_FACE, LOCK_OPTION]
    ensures var r := Enabled(sys, d, LockScreen, user);
            && (r.Refused? <==> HasForeignFace(d) || FaceService(d).Refused?)
            && (r.Done? ==>
                  && OnlyAt(d, r.value, {Etc("kde-face"), LockConfig}) && OptionGoesIn(d, r.value)
                  && CellAt(r.value, Etc("kde-face"))
                     == Cell(Some(FaceService(d).value), Some(Entry(Created, LockScreen, FaceService(d).value, ""))))
  {
    assert [KDE_FACE, LOCK_OPTION] == [KDE_FACE] + [LOCK_OPTION];
    MoreSteps(sys, d, KDE_FACE, [LOCK_OPTION], LockScreen, user);
    var first, mid := OwnFirst(sys, d, user);
    if first.Done? {
      OptionLast(sys, mid, user);
      var r := EnableAll(sys, mid, [LOCK_OPTION], LockScreen, user);
      OptionFrom(d, mid, r.value);
      OnlyAtBoth(d, mid, r.value, {Etc("kde-face")}, {LockConfig});
      assert {Etc("kde-face")} + {LockConfig} == {Etc("kde-face"), LockConfig};
    }
  }

  lemma {:induction false} OwnFirst(sys: System, d: Disk, user: Option<string>) returns (first: Result<Cell>, mid: Disk)
    requires HasFaceService(sys, d)
    ensures first == Step(sys, d, KDE_FACE, LockScreen, user)
    ensures first.Refused? <==> HasForeignFace(d) || FaceService(d).Refused?
    ensures first.Done? ==>
      && mid == WithCell(d, PathOf(KDE_FACE), first.value) && OnlyAt(d, mid, {Etc("kde-face")})
      && CellAt(mid, LockConfig) == CellAt(d, LockConfig)
      && CellAt(mid, Etc("kde-face"))
         == Cell(Some(FaceService(d).value), Some(Entry(Created, LockScreen, FaceService(d).value, "")))
  {
    first, mid := Step(sys, d, KDE_FACE, LockScreen, user), d;
    OwnStep(sys, d, user);
    if first.Done? {
      mid := WithCell(d, Etc("kde-face"), first.value);
      WithCellAt(d, Etc("kde-face"), first.value);
    }
  }

  lemma {:induction false} OptionLast(sys: System, d: Disk, user: Option<string>)
    ensures var r := EnableAll(sys, d, [LOCK_OPTION], LockScreen, user);
            r.Done? && OnlyAt(d, r.value, {LockConfig}) && OptionGoesIn(d, r.value)
            && CellAt(r.value, Etc("kde-face")) == CellAt(d, Etc("kde-face"))
  {
    OneStep(sys, d, LOCK_OPTION, LockScreen, user);
    OptionStep(sys, d, user);
    WithCellAt(d, LockConfig, Step(sys, d, LOCK_OPTION, LockScreen, user).value);
  }

  lemma {:induction false} OptionFrom(d: Disk, mid: Disk, after: Disk)
    requires CellAt(mid, LockConfig) == CellAt(d, LockConfig) && OptionGoesIn(mid, after)
    ensures OptionGoesIn(d, after)
  {
    assert Get(mid.files, LockConfig) == Get(d.files, LockConfig);
  }

  // --------------------------------------------------------- automatic login

  /** Who is to be logged in: the one asked for, or whom the drop-in names. */
  function ChosenUser(d: Disk, user: Option<string>): Option<string> {
    if user.Some? && user.value != "" then user else AutoLoginUserOf(d.files)
  }

  predicate NamesSomeoneElse(d: Disk, user: string) {
    LoginConf in d.files && UserIn(d.files[LoginConf]).Some? && UserIn(d.files[LoginConf]).value != user
  }

  predicate CanLogIn(d: Disk, user: Option<string>) {
    var chosen := ChosenUser(d, user);
    chosen.Some? && IsUserName(chosen.value) && !NamesSomeoneElse(d, chosen.value)
  }

  predicate HasLoginManager(sys: System, d: Disk) {
    sys.loginManager && Source(d, "plasmalogin").Some? && Source(d, "plasmalogin-autologin").Some?
  }

  predicate LogsIn(sys: System, before: Disk, after: Disk, user: Option<string>)
    requires ChosenUser(before, user).Some?
  {
    var text := DropInText(ChosenUser(before, user).value, sys.wayland);
    CellAt(after, DropIn) == Cell(Some(text), Some(Entry(Created, AutoLogin, text, "")))
  }

  lemma {:induction false} DropInStep(sys: System, d: Disk, user: Option<string>)
    ensures var r := Step(sys, d, DROP_IN, AutoLogin, user);
            && (r.Refused? <==> !CanLogIn(d, user))
            && (r.Done? ==> LogsIn(sys, d, WithCell(d, DropIn, r.value), user))
  {
    var r := Step(sys, d, DROP_IN, AutoLogin, user);
    if r.Done? {
      WithCellAt(d, DropIn, r.value);
    }
  }

  lemma {:induction false} EnableAutoLogin(sys: System, d: Disk, user: Option<string>)
    ensures var r := Enabled(sys, d, AutoLogin, user);
            && (r.Refused? <==> !HasLoginManager(sys, d) || !CanTakeWallet(d, "plasmalogin-autologin")
                                || !CanTakeWallet(d, "plasmalogin") || !CanLogIn(d, user))
            && (r.Done? ==>
                  && OnlyAt(d, r.value, {Etc("plasmalogin-autologin"), Etc("plasmalogin"), DropIn})
                  && WalletGoesIn(d, r.value, "plasmalogin-autologin", true, AutoLogin)
                  && WalletGoesIn(d, r.value, "plasmalogin", false, AutoLogin)
                  && LogsIn(sys, d, r.value, user))
  {
    FoundMeans(d, "plasmalogin");
    FoundMeans(d, "plasmalogin-autologin");
    if HasLoginManager(sys, d) {
      WalletAndDropIn(sys, d, user);
    }
  }

  lemma {:induction false} WalletAndDropIn(sys: System, d: Disk, user: Option<string>)
    requires Plan(sys, d.files, AutoLogin) == [RELEASE_ITEM, REMEMBER_ITEM, DROP_IN]
    ensures var r := Enabled(sys, d, AutoLogin, user);
            && (r.Refused? <==> !CanTakeWallet(d, "plasmalogin-autologin") || !CanTakeWallet(d, "plasmalogin")
                                || !CanLogIn(d, user))
            && (r.Done? ==>
                  && OnlyAt(d, r.value, {Etc("plasmalogin-autologin"), Etc("plasmalogin"), DropIn})
                  && WalletGoesIn(d, r.value, "plasmalogin-autologin", true, AutoLogin)
                  && WalletGoesIn(d, r.value, "plasmalogin", false, AutoLogin)
                  && LogsIn(sys, d, r.value, user))
  {
    assert [RELEASE_ITEM, REMEMBER_ITEM, DROP_IN] == [RELEASE_ITEM] + [REMEMBER_ITEM, DROP_IN];
    MoreSteps(sys, d, RELEASE_ITEM, [REMEMBER_ITEM, DROP_IN], AutoLogin, user);
    var first, mid := ReleaseFirst(sys, d, user);
    if first.Done? {
      RememberAndDropIn(sys, mid, user);
      var r := EnableAll(sys, mid, [REMEMBER_ITEM, DROP_IN], AutoLogin, user);
      if r.Done? {
        AllThree(sys, d, mid, r.value, user);
      }
    }
  }

  lemma {:induction false} ReleaseFirst(sys: System, d: Disk, user: Option<string>)
    returns (first: Result<Cell>, mid: Disk)
    ensures first == Step(sys, d, RELEASE_ITEM, AutoLogin, user)
    ensures first.Done? <==> CanTakeWallet(d, "plasmalogin-autologin")
    ensures first.Done? ==>
      && mid == WithCell(d, PathOf(RELEASE_ITEM), first.value) && OnlyAt(d, mid, {Etc("plasmalogin-autologin")})
      && WalletGoesIn(d, mid, "plasmalogin-autologin", true, AutoLogin)
      && ChosenUser(mid, user) == ChosenUser(d, user) && CanLogIn(mid, user) == CanLogIn(d, user)
      && CanTakeWallet(mid, "plasmalogin") == CanTakeWallet(d, "plasmalogin")
  {
    first, mid := Step(sys, d, RELEASE_ITEM, AutoLogin, user), d;
    WalletStep(sys, d, "plasmalogin-autologin", true, AutoLogin, user);
    if first.Done? {
      mid := WithCell(d, Etc("plasmalogin-autologin"), first.value);
      WithCellAt(d, Etc("plasmalogin-autologin"), first.value);
      OthersStay(d, mid, user);
    }
  }

  lemma {:induction false} OthersStay(d: Disk, mid: Disk, user: Option<string>)
    requires OnlyAt(d, mid, {Etc("plasmalogin-autologin")})
    ensures ChosenUser(mid, user) == ChosenUser(d, user) && CanLogIn(mid, user) == CanLogIn(d, user)
    ensures CanTakeWallet(mid, "plasmalogin") == CanTakeWallet(d, "plasmalogin")
  {
    Differ();
    SourceIsLocal(d, mid, "plasmalogin");
    SameUser(d, mid, user);
  }

  lemma {:induction false} SameUser(d: Disk, mid: Disk, user: Option<string>)
    requires CellAt(mid, DropIn) == CellAt(d, DropIn) && CellAt(mid, LoginConf) == CellAt(d, LoginConf)
    ensures ChosenUser(mid, user) == ChosenUser(d, user) && CanLogIn(mid, user) == CanLogIn(d, user)
  {
    assert Get(mid.files, DropIn) == Get(d.files, DropIn) && Get(mid.files, LoginConf) == Get(d.files, LoginConf);
  }

  lemma {:induction false} RememberAndDropIn(sys: System, d: Disk, user: Option<string>)
    ensures var r := EnableAll(sys, d, [REMEMBER_ITEM, DROP_IN], AutoLogin, user);
            && (r.Refused? <==> !CanTakeWallet(d, "plasmalogin") || !CanLogIn(d, user))
            && (r.Done? ==> OnlyAt(d, r.value, {Etc("plasmalogin"), DropIn})
                            && WalletGoesIn(d, r.value, "plasmalogin", false, AutoLogin)
                               && LogsIn(sys, d, r.value, user))
  {
    assert [REMEMBER_ITEM, DROP_IN] == [REMEMBER_ITEM] + [DROP_IN];
    MoreSteps(sys, d, REMEMBER_ITEM, [DROP_IN], AutoLogin, user);
    var first, mid := RememberFirst(sys, d, user);
    if first.Done? {
      DropInLast(sys, mid, user);
      var r := EnableAll(sys, mid, [DROP_IN], AutoLogin, user);
      if r.Done? {
        WalletStays(d, mid, r.value, "plasmalogin", false);
      }
    }
  }

  lemma {:induction false} RememberFirst(sys: System, d: Disk, user: Option<string>)
    returns (first: Result<Cell>, mid: Disk)
    ensures first == Step(sys, d, REMEMBER_ITEM, AutoLogin, user) && (first.Done? <==> CanTakeWallet(d, "plasmalogin"))
    ensures first.Done? ==>
      && mid == WithCell(d, PathOf(REMEMBER_ITEM), first.value) && OnlyAt(d, mid, {Etc("plasmalogin")})
      && WalletGoesIn(d, mid, "plasmalogin", false, AutoLogin)
      && ChosenUser(mid, user) == ChosenUser(d, user) && CanLogIn(mid, user) == CanLogIn(d, user)
  {
    first, mid := Step(sys, d, REMEMBER_ITEM, AutoLogin, user), d;
    WalletStep(sys, d, "plasmalogin", false, AutoLogin, user);
    if first.Done? {
      mid := WithCell(d, Etc("plasmalogin"), first.value);
      WithCellAt(d, Etc("plasmalogin"), first.value);
      SameUser(d, mid, user);
    }
  }

  lemma {:induction false} DropInLast(sys: System, d: Disk, user: Option<string>)
    ensures var r := EnableAll(sys, d, [DROP_IN], AutoLogin, user);
            && (r.Refused? <==> !CanLogIn(d, user))
            && (r.Done? ==> OnlyAt(d, r.value, {DropIn}) && LogsIn(sys, d, r.value, user))
  {
    OneStep(sys, d, DROP_IN, AutoLogin, user);
    DropInStep(sys, d, user);
    var r := Step(sys, d, DROP_IN, AutoLogin, user);
    if r.Done? {
      WithCellAt(d, DropIn, r.value);
    }
  }

  lemma {:induction false} WalletStays(d: Disk, mid: Disk, after: Disk, service: string, release: bool)
    requires WalletGoesIn(d, mid, service, release, AutoLogin)
    requires forall p :: p in {Etc(service), VendorLib(service), VendorEtc(service)}
                         ==> CellAt(after, p) == CellAt(mid, p)
    ensures WalletGoesIn(d, after, service, release, AutoLogin)
  {
    SourceIsLocal(mid, after, service);
    assert CellAt(after, Etc(service)) == CellAt(mid, Etc(service));
  }

  lemma {:induction false} AllThree(sys: System, d: Disk, mid: Disk, after: Disk, user: Option<string>)
    requires OnlyAt(d, mid, {Etc("plasmalogin-autologin")}) && OnlyAt(mid, after, {Etc("plasmalogin"), DropIn})
    requires WalletGoesIn(d, mid, "plasmalogin-autologin", true, AutoLogin)
    requires WalletGoesIn(mid, after, "plasmalogin", false, AutoLogin)
    requires ChosenUser(mid, user).Some? && LogsIn(sys, mid, after, user)
             && ChosenUser(mid, user) == ChosenUser(d, user)
    ensures OnlyAt(d, after, {Etc("plasmalogin-autologin"), Etc("plasmalogin"), DropIn})
    ensures WalletGoesIn(d, after, "plasmalogin-autologin", true, AutoLogin)
    ensures WalletGoesIn(d, after, "plasmalogin", false, AutoLogin) && LogsIn(sys, d, after, user)
  {
    Differ();
    forall p | p !in {Etc("plasmalogin-autologin"), Etc("plasmalogin"), DropIn}
      ensures CellAt(after, p) == CellAt(d, p)
    {
      assert CellAt(after, p) == CellAt(mid, p) && CellAt(mid, p) == CellAt(d, p);
    }
    WalletStays(d, mid, after, "plasmalogin-autologin", true);
    SourceIsLocal(d, mid, "plasmalogin");
    assert CellAt(mid, Etc("plasmalogin")) == CellAt(d, Etc("plasmalogin"));
  }

  // --------------------------------------------------------------- turning off

  lemma {:induction false} RevertOne(d: Disk, p: Path, begins: seq<string>)
    requires p != DropIn
    ensures var after := RevertAt(d, p, begins);
            OnlyAt(d, after, {p}) && CellAt(after, p) == Reverted(CellAt(d, p), begins, false)
  {
    WithCellAt(d, p, Reverted(CellAt(d, p), begins, false));
  }

  lemma {:induction false} OffOne(d: Disk, a: Item, keepOption: bool)
    ensures DisableAll(d, [a], keepOption)
         == if a.kind == LockOption && keepOption then d else RevertAt(d, PathOf(a), BeginsOf(a.kind))
  {
    assert [a][1..] == [];
  }

  lemma {:induction false} OffMore(d: Disk, a: Item, more: seq<Item>, keepOption: bool)
    ensures DisableAll(d, [a] + more, keepOption)
         == var mid := if a.kind == LockOption && keepOption then d else RevertAt(d, PathOf(a), BeginsOf(a.kind));
            DisableAll(mid, more, keepOption)
  {
    assert ([a] + more)[1..] == more;
  }

  /** A service's file with the face block taken out, if the service is found. */
  predicate FaceComesOut(before: Disk, after: Disk, service: string) {
    CellAt(after, Etc(service)) == Reverted(CellAt(before, Etc(service)), [BEGIN], false)
  }

  lemma {:induction false} DisableOneService(sys: System, d: Disk, service: string, target: Target, keepOption: bool)
    requires DisablePlan(sys, d.files, target) == [Item(service, Insert)]
    ensures var after := Disabled(sys, d, target, keepOption);
            OnlyAt(d, after, {Etc(service)}) && FaceComesOut(d, after, service)
  {
    OffOne(d, Item(service, Insert), keepOption);
    RevertOne(d, Etc(service), [BEGIN]);
  }

  lemma {:induction false} DisableAdmin(sys: System, d: Disk, keepOption: bool)
    ensures var after := Disabled(sys, d, Admin, keepOption);
            if Source(d, "polkit-1").Some?
            then OnlyAt(d, after, {Etc("polkit-1")}) && FaceComesOut(d, after, "polkit-1")
            else after == d
  {
    FoundMeans(d, "polkit-1");
    if Source(d, "polkit-1").Some? {
      DisableOneService(sys, d, "polkit-1", Admin, keepOption);
    }
  }

  lemma {:induction false} DisableLogin(sys: System, d: Disk, keepOption: bool)
    ensures var after, service := Disabled(sys, d, Login, keepOption), LoginService(d);
            if Source(d, service).Some? then OnlyAt(d, after, {Etc(service)}) && FaceComesOut(d, after, service)
            else after == d
  {
    FoundMeans(d, "plasmalogin");
    FoundMeans(d, "sddm");
    if Source(d, LoginService(d)).Some? {
      DisableOneService(sys, d, LoginService(d), Login, keepOption);
    }
  }

  lemma {:induction false} DisableSudo(sys: System, d: Disk, keepOption: bool)
    ensures var after := Disabled(sys, d, Sudo, keepOption);
            && OnlyAt(d, after, {Etc("sudo"), Etc("sudo-i")})
            && (if WantsSudo(d) then FaceComesOut(d, after, "sudo")
                else CellAt(after, Etc("sudo")) == CellAt(d, Etc("sudo")))
            && (if WantsSudoI(d) then FaceComesOut(d, after, "sudo-i")
                else CellAt(after, Etc("sudo-i")) == CellAt(d, Etc("sudo-i")))
  {
    SudoPlan(sys, d);
    Differ();
    if WantsSudo(d) && WantsSudoI(d) {
      OffMore(d, Item("sudo", Insert), [Item("sudo-i", Insert)], keepOption);
      RevertOne(d, Etc("sudo"), [BEGIN]);
      var mid := RevertAt(d, Etc("sudo"), [BEGIN]);
      OffOne(mid, Item("sudo-i", Insert), keepOption);
      RevertOne(mid, Etc("sudo-i"), [BEGIN]);
      var after := RevertAt(mid, Etc("sudo-i"), [BEGIN]);
      assert CellAt(after, Etc("sudo")) == CellAt(mid, Etc("sudo"))
             && CellAt(mid, Etc("sudo-i")) == CellAt(d, Etc("sudo-i"));
      OnlyAtBoth(d, mid, after, {Etc("sudo")}, {Etc("sudo-i")});
    } else if WantsSudo(d) {
      assert [Item("sudo", Insert)] + [] == [Item("sudo", Insert)];
      DisableOneService(sys, d, "sudo", Sudo, keepOption);
    } else if WantsSudoI(d) {
      assert [] + [Item("sudo-i", Insert)] == [Item("sudo-i", Insert)];
      DisableOneService(sys, d, "sudo-i", Sudo, keepOption);
    }
  }

  lemma {:induction false} OnlyAtBoth(d: Disk, mid: Disk, after: Disk, a: set<Path>, b: set<Path>)
    requires OnlyAt(d, mid, a) && OnlyAt(mid, after, b)
    ensures OnlyAt(d, after, a + b)
  {
    forall p | p !in a + b ensures CellAt(after, p) == CellAt(d, p) {
      assert CellAt(after, p) == CellAt(mid, p) && CellAt(mid, p) == CellAt(d, p);
    }
  }

  lemma {:induction false} DisableLockScreen(sys: System, d: Disk, keepOption: bool)
    ensures var after := Disabled(sys, d, LockScreen, keepOption);
            if HasFaceService(sys, d) then
              && OnlyAt(d, after, {Etc("kde-face"), LockConfig}) && FaceComesOut(d, after, "kde-face")
              && CellAt(after, LockConfig)
                 == (if keepOption then CellAt(d, LockConfig) else Reverted(CellAt(d, LockConfig), [BEGIN], false))
            else if Source(d, "kde").Some? then OnlyAt(d, after, {Etc("kde")}) && FaceComesOut(d, after, "kde")
            else after == d
  {
    FoundMeans(d, "kde-fingerprint");
    FoundMeans(d, "kde");
    if HasFaceService(sys, d) {
      OffOwnAndOption(sys, d, keepOption);
    } else if Source(d, "kde").Some? {
      DisableOneService(sys, d, "kde", LockScreen, keepOption);
    }
  }

  lemma {:induction false} OffOwnAndOption(sys: System, d: Disk, keepOption: bool)
    requires Plan(sys, d.files, LockScreen) == [KDE_FACE, LOCK_OPTION]
    ensures var after := Disabled(sys, d, LockScreen, keepOption);
            && OnlyAt(d, after, {Etc("kde-face"), LockConfig}) && FaceComesOut(d, after, "kde-face")
            && CellAt(after, LockConfig)
               == (if keepOption then CellAt(d, LockConfig) else Reverted(CellAt(d, LockConfig), [BEGIN], false))
  {
    assert [KDE_FACE, LOCK_OPTION] == [KDE_FACE] + [LOCK_OPTION];
    OffMore(d, KDE_FACE, [LOCK_OPTION], keepOption);
    RevertOne(d, Etc("kde-face"), [BEGIN]);
    var mid := RevertAt(d, Etc("kde-face"), [BEGIN]);
    OffOne(mid, LOCK_OPTION, keepOption);
    RevertOne(mid, LockConfig, [BEGIN]);
    assert CellAt(mid, LockConfig) == CellAt(d, LockConfig);
    var after := Disabled(sys, d, LockScreen, keepOption);
    assert CellAt(after, Etc("kde-face")) == CellAt(mid, Etc("kde-face"));
    OnlyAtBoth(d, mid, after, {Etc("kde-face")}, {LockConfig});
  }

  /** KWallet's blocks out of the login manager's two services. */
  predicate WalletsComeOut(before: Disk, after: Disk) {
    && CellAt(after, Etc("plasmalogin-autologin"))
       == Reverted(CellAt(before, Etc("plasmalogin-autologin")), [WALLET_BEGIN], false)
    && CellAt(after, Etc("plasmalogin")) == Reverted(CellAt(before, Etc("plasmalogin")), [WALLET_BEGIN], false)
  }

  /** No drop-in, and its user no longer in the login configuration. */
  predicate DropInComesOut(before: Disk, after: Disk) {
    && CellAt(after, DropIn) == Cell(None, None)
    && CellAt(after, LoginConf)
       == Cell(Get(ForgetMain(before.files, NamedByDropIn(before)), LoginConf), Get(before.manifest, LoginConf))
  }

  /** The drop-in goes, and so does its user from the login configuration; then
      KWallet's blocks, whether or not the login manager is still there. */
  lemma {:induction false} DisableAutoLogin(sys: System, d: Disk, keepOption: bool)
    ensures var after := Disabled(sys, d, AutoLogin, keepOption);
            && OnlyAt(d, after, {DropIn, LoginConf, Etc("plasmalogin-autologin"), Etc("plasmalogin")})
            && DropInComesOut(d, after) && WalletsComeOut(d, after)
  {
    assert [DROP_IN, RELEASE_ITEM, REMEMBER_ITEM] == [DROP_IN] + [RELEASE_ITEM, REMEMBER_ITEM];
    OffMore(d, DROP_IN, [RELEASE_ITEM, REMEMBER_ITEM], keepOption);
    RevertDropIn(d);
    var mid := RevertAt(d, DropIn, [BEGIN]);
    OffWallets(mid, keepOption);
    AllOut(d, mid, Disabled(sys, d, AutoLogin, keepOption));
  }

  lemma {:induction false} AllOut(d: Disk, mid: Disk, after: Disk)
    requires OnlyAt(d, mid, {DropIn, LoginConf}) && DropInComesOut(d, mid)
    requires OnlyAt(mid, after, {Etc("plasmalogin-autologin"), Etc("plasmalogin")}) && WalletsComeOut(mid, after)
    ensures OnlyAt(d, after, {DropIn, LoginConf, Etc("plasmalogin-autologin"), Etc("plasmalogin")})
    ensures DropInComesOut(d, after) && WalletsComeOut(d, after)
  {
    OnlyAtBoth(d, mid, after, {DropIn, LoginConf}, {Etc("plasmalogin-autologin"), Etc("plasmalogin")});
    assert CellAt(after, DropIn) == CellAt(mid, DropIn) && CellAt(after, LoginConf) == CellAt(mid, LoginConf);
    assert CellAt(mid, Etc("plasmalogin")) == CellAt(d, Etc("plasmalogin"));
    assert CellAt(mid, Etc("plasmalogin-autologin")) == CellAt(d, Etc("plasmalogin-autologin"));
  }

  function NamedByDropIn(d: Disk): Option<string> {
    if DropIn in d.files then UserIn(d.files[DropIn]) else None
  }

  lemma {:induction false} RevertDropIn(d: Disk)
    ensures var after := RevertAt(d, DropIn, [BEGIN]);
            OnlyAt(d, after, {DropIn, LoginConf}) && DropInComesOut(d, after)
  {
    var d' := d.(files := ForgetMain(d.files, NamedByDropIn(d)));
    assert RevertAt(d, DropIn, [BEGIN]) == WithCell(d', DropIn, Cell(None, None));
    WithCellAt(d', DropIn, Cell(None, None));
  }

  lemma {:induction false} OffWallets(d: Disk, keepOption: bool)
    ensures var after := DisableAll(d, [RELEASE_ITEM, REMEMBER_ITEM], keepOption);
            OnlyAt(d, after, {Etc("plasmalogin-autologin"), Etc("plasmalogin")}) && WalletsComeOut(d, after)
  {
    assert [RELEASE_ITEM, REMEMBER_ITEM] == [RELEASE_ITEM] + [REMEMBER_ITEM];
    OffMore(d, RELEASE_ITEM, [REMEMBER_ITEM], keepOption);
    RevertOne(d, Etc("plasmalogin-autologin"), [WALLET_BEGIN]);
    var mid := RevertAt(d, Etc("plasmalogin-autologin"), [WALLET_BEGIN]);
    OffOne(mid, REMEMBER_ITEM, keepOption);
    RevertOne(mid, Etc("plasmalogin"), [WALLET_BEGIN]);
    var after := RevertAt(mid, Etc("plasmalogin"), [WALLET_BEGIN]);
    Differ();
    assert CellAt(mid, Etc("plasmalogin")) == CellAt(d, Etc("plasmalogin"));
    assert CellAt(after, Etc("plasmalogin-autologin")) == CellAt(mid, Etc("plasmalogin-autologin"));
    OnlyAtBoth(d, mid, after, {Etc("plasmalogin-autologin")}, {Etc("plasmalogin")});
  }

  // ------------------------------------------------------ and nothing else

  /** Every path a target may touch. */
  function TargetPaths(target: Target): set<Path> {
    match target
    case LockScreen => {Etc("kde-face"), LockConfig, Etc("kde")}
    case Admin => {Etc("polkit-1")}
    case Sudo => {Etc("sudo"), Etc("sudo-i")}
    case Login => {Etc("plasmalogin"), Etc("sddm")}
    case AutoLogin => {Etc("plasmalogin-autologin"), Etc("plasmalogin"), DropIn, LoginConf}
  }

  lemma {:induction false} EnabledStaysIn(sys: System, d: Disk, target: Target, user: Option<string>)
    requires Enabled(sys, d, target, user).Done?
    ensures OnlyAt(d, Enabled(sys, d, target, user).value, TargetPaths(target))
  {
    match target
    case LockScreen => EnableLockScreen(sys, d, user);
    case Admin => EnableAdmin(sys, d, user);
    case Sudo => EnableSudo(sys, d, user);
    case Login => EnableLogin(sys, d, user);
    case AutoLogin => EnableAutoLogin(sys, d, user);
  }

  lemma {:induction false} RevertsStayIn(d: Disk, plan: seq<Item>, keepOption: bool, paths: set<Path>)
    requires forall i :: 0 <= i < |plan|
                         ==> PathOf(plan[i]) in paths && (PathOf(plan[i]) == DropIn ==> LoginConf in paths)
    ensures OnlyAt(d, DisableAll(d, plan, keepOption), paths)
    decreases |plan|
  {
    if plan != [] {
      var a, more := plan[0], plan[1..];
      assert plan == [a] + more;
      OffMore(d, a, more, keepOption);
      var mid := if a.kind == LockOption && keepOption then d else RevertAt(d, PathOf(a), BeginsOf(a.kind));
      RevertStaysIn(d, a, paths);
      RevertsStayIn(mid, more, keepOption, paths);
      OnlyAtBoth(d, mid, DisableAll(d, plan, keepOption), paths, paths);
      assert paths + paths == paths;
    }
  }

  lemma {:induction false} RevertStaysIn(d: Disk, a: Item, paths: set<Path>)
    requires PathOf(a) in paths && (PathOf(a) == DropIn ==> LoginConf in paths)
    ensures OnlyAt(d, RevertAt(d, PathOf(a), BeginsOf(a.kind)), paths)
  {
    if PathOf(a) == DropIn {
      assert RevertAt(d, DropIn, BeginsOf(a.kind)) == RevertAt(d, DropIn, [BEGIN]);
      RevertDropIn(d);
    } else {
      RevertOne(d, PathOf(a), BeginsOf(a.kind));
    }
  }

  /** Also when disable stops halfway. */
  lemma {:induction false} PartlyOffStaysIn(sys: System, d: Disk, target: Target, keepOption: bool, count: nat)
    requires count <= |DisablePlan(sys, d.files, target)|
    ensures OnlyAt(d, DisableAll(d, DisablePlan(sys, d.files, target)[..count], keepOption), TargetPaths(target))
  {
    PlanStaysIn(sys, d, target);
    RevertsStayIn(d, DisablePlan(sys, d.files, target)[..count], keepOption, TargetPaths(target));
  }

  lemma {:induction false} PlanStaysIn(sys: System, d: Disk, target: Target)
    ensures var plan := DisablePlan(sys, d.files, target);
            forall i :: 0 <= i < |plan| ==> PathOf(plan[i]) in TargetPaths(target)
                                            && (PathOf(plan[i]) == DropIn ==> LoginConf in TargetPaths(target))
  {
  }
}
