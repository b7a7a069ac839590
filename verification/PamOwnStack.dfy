/** build_own_stack: the lock screen's face-only service, made from the
    fingerprint stack (or from kde). */
module PamOwnStack {
  import opened Sequences
  import opened Text
  import opened Outcomes
  import opened PamLines
  import opened PamBlocks
  import opened PamMeaning
  import PamStack

  const HEADER_0 := "#%PAM-1.0"
  const HEADER_1 := "# Created by " + "linux-hello" + ": face unlock " + "on the Plasma " + "lock screen."
  const HEADER_2 := "# Removed again " + "by 'linux-hello" + "-cli reset-" + "system'."
  const HEADER := [HEADER_0 + "\n", HEADER_1 + "\n", HEADER_2 + "\n"]

  /** A protective check of the fingerprint stack; never the fingerprint module
      itself, an unconditional permit or an include. */
  predicate Keep(line: string, fromFingerprint: bool) {
    var (kind, name) := ModuleOf(line);
    fromFingerprint && kind == Some("auth") && name.Some? && EndsWith(name.value, ".so")
      && Basename(name.value) !in OWN_STACK_DROP
  }

  predicate IsPamHeader(line: string) {
    StartsWith(line, "#%PAM")
  }

  /** An auth line the face stack does not take over. */
  predicate Replaced(line: string, fromFingerprint: bool) {
    !IsPamHeader(line) && IsAuthLine(line) && !Keep(line, fromFingerprint)
  }

  /** Everything up to the line ours replaces, ours, and what is kept behind it. */
  function OwnBody(ls: seq<string>, fromFingerprint: bool): Result<seq<string>> {
    if ls == [] then Refused
    else
      var line := Ended(ls[0]);
      if Replaced(line, fromFingerprint) then
        Done([OWN_STACK_LINE + "\n"] + Behind(ls[1..], fromFingerprint))
      else
        var rest := OwnBody(ls[1..], fromFingerprint);
        if rest.Refused? then Refused else Done((if IsPamHeader(line) then [] else [line]) + rest.value)
  }

  function Behind(ls: seq<string>, fromFingerprint: bool): seq<string> {
    if ls == [] then []
    else
      var line := Ended(ls[0]);
      (if IsPamHeader(line) || Replaced(line, fromFingerprint) then [] else [line])
      + Behind(ls[1..], fromFingerprint)
  }

  function OwnStack(source: string, fromFingerprint: bool): Result<string> {
    var body := OwnBody(SplitLines(source), fromFingerprint);
    if body.Refused? then Refused else Done(Join(HEADER + body.value))
  }

  /** The result when body is written and ls is still to come. */
  function Progress(ls: seq<string>, fromFingerprint: bool, body: seq<string>, placed: bool): Result<seq<string>> {
    if placed then Done(body + Behind(ls, fromFingerprint))
    else
      var rest := OwnBody(ls, fromFingerprint);
      if rest.Refused? then Refused else Done(body + rest.value)
  }

  /** What the loop appends for a line. */
  function Appended(line: string, fromFingerprint: bool, placed: bool): seq<string> {
    if IsPamHeader(line) then []
    else if !IsAuthLine(line) || Keep(line, fromFingerprint) then [line]
    else if placed then [] else [OWN_STACK_LINE + "\n"]
  }

  function PlacedAfter(line: string, fromFingerprint: bool, placed: bool): bool {
    placed || Replaced(line, fromFingerprint)
  }

  lemma {:induction false} ProgressStep(ls: seq<string>, fromFingerprint: bool, body: seq<string>, placed: bool)
    requires ls != []
    ensures var line := Ended(ls[0]);
            Progress(ls, fromFingerprint, body, placed)
            == Progress(ls[1..], fromFingerprint,
                        body + Appended(line, fromFingerprint, placed),
                        PlacedAfter(line, fromFingerprint, placed))
  {
    var app, behind, rest := Appended(Ended(ls[0]), fromFingerprint, placed), Behind(ls[1..], fromFingerprint),
                             OwnBody(ls[1..], fromFingerprint);
    Associate(body, app, behind);
    if rest.Done? {
      Associate(body, app, rest.value);
    }
  }

  lemma {:induction false} ProgressFirst(ls: seq<string>, fromFingerprint: bool)
    ensures Progress(ls, fromFingerprint, [], false) == OwnBody(ls, fromFingerprint)
  {
    var whole := OwnBody(ls, fromFingerprint);
    assert whole.Done? ==> [] + whole.value == whole.value;
  }

  lemma {:induction false} ProgressLast(fromFingerprint: bool, body: seq<string>, placed: bool)
    ensures Progress([], fromFingerprint, body, placed) == if placed then Done(body) else Refused
  {
    assert body + [] == body;
  }

  /** The body of the loop: what it has written leads to the same result as before. */
  method TakeLine(line: string, fromFingerprint: bool, body: seq<string>, placed: bool, ghost rest: seq<string>)
    returns (body': seq<string>, placed': bool)
    requires rest != [] && line == Ended(rest[0])
    ensures Progress(rest, fromFingerprint, body, placed) == Progress(rest[1..], fromFingerprint, body', placed')
  {
    body', placed' := body, placed;
    if !IsPamHeader(line) {
      var keep := Keep(line, fromFingerprint);
      if !IsAuthLine(line) {
        body' := body + [line];
      } else if !placed && !keep {
        body' := body + [OWN_STACK_LINE + "\n"];
        placed' := true;
      } else if keep {
        body' := body + [line];
      }
    }
    assert body' == body + Appended(line, fromFingerprint, placed)
           && placed' == PlacedAfter(line, fromFingerprint, placed);
    ProgressStep(rest, fromFingerprint, body, placed);
  }

  method BuildOwnStack(source: string, fromFingerprint: bool) returns (r: Result<string>)
    ensures r == OwnStack(source, fromFingerprint)
  {
    var lines := SplitLines(source);
    var body, placed := BuildBody(lines, fromFingerprint);
    r := if placed then Done(Join(HEADER + body)) else Refused;
  }

  /** Its loop. */
  method BuildBody(lines: seq<string>, fromFingerprint: bool) returns (body: seq<string>, placed: bool)
    ensures OwnBody(lines, fromFingerprint) == if placed then Done(body) else Refused
  {
    body, placed := [], false;
    ghost var goal, rest := OwnBody(lines, fromFingerprint), lines;
    ProgressFirst(lines, fromFingerprint);
    var i := 0;
    while i < |lines|
      invariant 0 <= i <= |lines| && rest == lines[i..]
      invariant goal == Progress(rest, fromFingerprint, body, placed)
    {
      Rest(lines, i);
      body, placed := TakeLine(Ended(lines[i]), fromFingerprint, body, placed, rest);
      rest, i := rest[1..], i + 1;
    }
    ProgressLast(fromFingerprint, body, placed);
  }

  // ---------------------------------------------------- what is kept

  /** A protective check: of the fingerprint stack, an auth line of a module that
      is neither the fingerprint module nor the one that permits everything. */
  predicate IsProtective(words: seq<string>, fromFingerprint: bool) {
    && fromFingerprint && words != [] && StripChar(words[0], '-') == "auth" && AfterControl(words[1..]) != []
    && var name := AfterControl(words[1..])[0];
       EndsWith(name, ".so") && Basename(name) != "pam_fprintd.so" && Basename(name) != "pam_permit.so"
  }

  lemma {:induction false} KeepMeans(line: string, fromFingerprint: bool)
    ensures Keep(line, fromFingerprint) <==> IsProtective(Words(line), fromFingerprint)
  {
    var words := Words(line);
    if words != [] {
      assert "auth"[0] == 'a' && "@include"[0] == '@';
      if StartsWith(words[0], "@include") {
        assert words[0][..8][0] == '@';
      }
    }
  }

  /** A line of the source that is in the face stack too. */
  predicate IsTakenOver(line: string, fromFingerprint: bool) {
    !StartsWith(line, "#%PAM") && (!IsAuthLine(line) || IsProtective(Words(line), fromFingerprint))
  }

  /** Behind our line: exactly what is taken over. */
  lemma {:induction false} BehindExactly(ls: seq<string>, ff: bool, line: string)
    ensures line in Behind(ls, ff) <==> exists i :: 0 <= i < |ls| && line == Ended(ls[i]) && IsTakenOver(line, ff)
  {
    if ls != [] {
      BehindExactly(ls[1..], ff, line);
      KeepMeans(Ended(ls[0]), ff);
      assert forall i :: 1 <= i < |ls| ==> ls[i] == ls[1..][i - 1];
    }
  }

  /** The face stack holds our line and exactly the lines taken over. */
  lemma {:induction false} OwnBodyExactly(ls: seq<string>, ff: bool, line: string)
    requires OwnBody(ls, ff).Done?
    ensures line in OwnBody(ls, ff).value
       <==> line == OWN_STACK_LINE + "\n" || exists i :: 0 <= i < |ls| && line == Ended(ls[i]) && IsTakenOver(line, ff)
  {
    KeepMeans(Ended(ls[0]), ff);
    assert forall i :: 1 <= i < |ls| ==> ls[i] == ls[1..][i - 1];
    if Replaced(Ended(ls[0]), ff) {
      BehindExactly(ls[1..], ff, line);
    } else {
      OwnBodyExactly(ls[1..], ff, line);
    }
  }

  /** And there is one unless every auth line of the source is protective. */
  lemma {:induction false} OwnBodyRefusedExactly(ls: seq<string>, ff: bool)
    ensures OwnBody(ls, ff).Refused?
       <==> forall i :: 0 <= i < |ls| && IsAuthLine(Ended(ls[i]))
                        ==> StartsWith(Ended(ls[i]), "#%PAM") || IsProtective(Words(Ended(ls[i])), ff)
  {
    if ls != [] {
      OwnBodyRefusedExactly(ls[1..], ff);
      KeepMeans(Ended(ls[0]), ff);
      assert forall i :: 1 <= i < |ls| ==> ls[i] == ls[1..][i - 1];
    }
  }

  // ---------------------------------------------------- what is in the file

  /** The lines that are no auth lines, headers left out. */
  function OtherLines(ls: seq<string>): seq<string> {
    if ls == [] then []
    else
      var line := Ended(ls[0]);
      (if IsPamHeader(line) || IsAuthLine(line) then [] else [line]) + OtherLines(ls[1..])
  }

  function OursCount(ls: seq<string>): nat {
    if ls == [] then 0 else (if Ours(ls[0]) then 1 else 0) + OursCount(ls[1..])
  }

  lemma {:induction false} EndedTwice(l: string)
    ensures Ended(Ended(l)) == Ended(l)
  {
    assert (l + "\n")[|l|..] == "\n";
  }

  lemma {:induction false} ModuleHasNoDirectory()
    ensures Basename(MODULE) == MODULE
  {
    assert '/' !in "pam_linux" && '/' !in "_hello.so";
  }

  lemma {:induction false} OwnWordsModule(words: seq<string>)
    requires words == OWN_WORDS
    ensures AfterControl(words[1..]) == words[3..] && words[3] == MODULE && words[0] == "auth"
  {
    OwnLineEntry(words);
  }

  lemma {:induction false} OwnLineFacts()
    ensures IsAuthLine(OWN_STACK_LINE + "\n") && Ended(OWN_STACK_LINE + "\n") == OWN_STACK_LINE + "\n"
    ensures Ours(OWN_STACK_LINE + "\n") && !IsPamHeader(OWN_STACK_LINE + "\n")
  {
    OwnLineMeaning(_ => []);
    EndedLast(OWN_STACK_LINE);
    OwnLineWords();
    NewlineChangesNoWord(_ => [], OWN_STACK_LINE);
    OwnWordsModule(OWN_WORDS);
    ModuleHasNoDirectory();
    OursByWords(OWN_STACK_LINE + "\n", OWN_WORDS);
  }

  lemma {:induction false} EndedLast(l: string)
    ensures Ended(l + "\n") == l + "\n"
  {
    assert (l + "\n")[|l|..] == "\n";
  }

  lemma {:induction false} OursByWords(line: string, words: seq<string>)
    requires Words(line) == words && |words| >= 4 && words[0] == "auth"
    requires AfterControl(words[1..]) == words[3..] && Basename(words[3]) == MODULE
    ensures Ours(line) && !IsPamHeader(line)
  {
    assert words[3..][0] == words[3];
    HeaderIsComment(line);
  }

  lemma {:induction false} HeaderIsComment(line: string)
    ensures IsPamHeader(line) ==> Words(line) != [] && Words(line)[0][0] == '#'
  {
    if IsPamHeader(line) {
      assert line[..5][0] == '#';
    }
  }

  lemma {:induction false} BehindFirst(ls: seq<string>, ff: bool)
    requires ls != []
    ensures var line, rest := Ended(ls[0]), Behind(ls[1..], ff);
            Behind(ls, ff) == if IsPamHeader(line) || Replaced(line, ff) then rest else [line] + rest
  {
  }

  lemma {:induction false} OthersFirst(ls: seq<string>)
    requires ls != []
    ensures var line, rest := Ended(ls[0]), OtherLines(ls[1..]);
            OtherLines(ls) == if IsPamHeader(line) || IsAuthLine(line) then rest else [line] + rest
  {
  }

  /** The non-auth lines stay, in order. */
  lemma {:induction false} BehindKeepsOthers(ls: seq<string>, ff: bool)
    ensures OtherLines(Behind(ls, ff)) == OtherLines(ls)
  {
    if ls != [] {
      var line, rest := Ended(ls[0]), Behind(ls[1..], ff);
      BehindKeepsOthers(ls[1..], ff);
      BehindFirst(ls, ff);
      OthersFirst(ls);
      if !(IsPamHeader(line) || Replaced(line, ff)) {
        EndedTwice(ls[0]);
        Joined([line], rest);
        OthersFirst([line] + rest);
      }
    }
  }

  lemma {:induction false} OwnBodyKeepsOthers(ls: seq<string>, ff: bool)
    requires OwnBody(ls, ff).Done?
    ensures OtherLines(OwnBody(ls, ff).value) == OtherLines(ls)
  {
    var line := Ended(ls[0]);
    EndedTwice(ls[0]);
    if Replaced(line, ff) {
      var rest := Behind(ls[1..], ff);
      BehindKeepsOthers(ls[1..], ff);
      OwnLineFacts();
      OthersBehindAuth(OWN_STACK_LINE + "\n", rest);
    } else {
      OwnBodyKeepsOthers(ls[1..], ff);
      var rest := OwnBody(ls[1..], ff).value;
      assert IsPamHeader(line) ==> [] + rest == rest;
      OthersCons(line, rest);
    }
  }

  lemma {:induction false} OthersCons(line: string, rest: seq<string>)
    ensures OtherLines([line] + rest)
            == (if IsPamHeader(Ended(line)) || IsAuthLine(Ended(line)) then [] else [Ended(line)]) + OtherLines(rest)
  {
    assert ([line] + rest)[1..] == rest;
  }

  lemma {:induction false} OthersBehindAuth(line: string, rest: seq<string>)
    requires IsAuthLine(Ended(line))
    ensures OtherLines([line] + rest) == OtherLines(rest)
  {
    OthersCons(line, rest);
    assert [] + OtherLines(rest) == OtherLines(rest);
  }

  /** Where our line goes: the first line that is not taken over. */
  function Site(ls: seq<string>, ff: bool): (k: nat)
    ensures k <= |ls|
  {
    if ls == [] || Replaced(Ended(ls[0]), ff) then 0 else 1 + Site(ls[1..], ff)
  }

  /** The lines with their newline, headers left out. */
  function Copied(ls: seq<string>): seq<string> {
    if ls == [] then []
    else (if IsPamHeader(Ended(ls[0])) then [] else [Ended(ls[0])]) + Copied(ls[1..])
  }

  /** The body is the source up to that line, ours in its place, and behind it
      everything but what is not taken over. */
  lemma {:induction false} OwnBodyShape(ls: seq<string>, ff: bool)
    ensures var k := Site(ls, ff);
            OwnBody(ls, ff) == if k == |ls| then Refused
                               else Done(Copied(ls[..k]) + ([OWN_STACK_LINE + "\n"] + Behind(ls[k + 1..], ff)))
  {
    var k := Site(ls, ff);
    if ls != [] {
      if Replaced(Ended(ls[0]), ff) {
        assert ls[..k] == [];
        var v := [OWN_STACK_LINE + "\n"] + Behind(ls[1..], ff);
        assert [] + v == v;
      } else {
        OwnBodyShape(ls[1..], ff);
        if k < |ls| {
          CopiedStep(ls, k, [OWN_STACK_LINE + "\n"] + Behind(ls[k + 1..], ff));
        }
      }
    }
  }

  lemma {:induction false} CopiedStep(ls: seq<string>, k: nat, own: seq<string>)
    requires 0 < k < |ls|
    ensures ls[k + 1..] == ls[1..][k..]
    ensures Copied(ls[..k]) + own
         == (if IsPamHeader(Ended(ls[0])) then [] else [Ended(ls[0])]) + (Copied(ls[1..][..k - 1]) + own)
  {
    assert ls[..k][0] == ls[0] && ls[..k][1..] == ls[1..][..k - 1];
  }

  lemma {:induction false} OursAppend(a: seq<string>, b: seq<string>)
    ensures OursCount(a + b) == OursCount(a) + OursCount(b) && (NoneOurs(a + b) <==> NoneOurs(a) && NoneOurs(b))
  {
    if a == [] {
      assert a + b == b;
    } else {
      assert (a + b)[1..] == a[1..] + b;
      OursAppend(a[1..], b);
    }
  }

  lemma {:induction false} OursSingle(l: string)
    ensures OursCount([l]) == if Ours(l) then 1 else 0
  {
    assert [l][1..] == [];
  }

  lemma {:induction false} OursEnded(l: string)
    ensures Ours(Ended(l)) == Ours(l)
  {
    NewlineChangesNoWord(_ => [], l);
  }

  lemma {:induction false} CopiesAddNone(ls: seq<string>, ff: bool)
    requires NoneOurs(ls)
    ensures OursCount(Copied(ls)) == 0 && OursCount(Behind(ls, ff)) == 0
  {
    if ls != [] {
      CopiesAddNone(ls[1..], ff);
      OursEnded(ls[0]);
      var line := Ended(ls[0]);
      OursSingle(line);
      OursAppend(if IsPamHeader(line) then [] else [line], Copied(ls[1..]));
      OursAppend(if IsPamHeader(line) || Replaced(line, ff) then [] else [line], Behind(ls[1..], ff));
    }
  }

  /** One line of the file is ours, when none of the source's was. */
  lemma {:induction false} OwnBodyHasOneOfOurs(ls: seq<string>, ff: bool)
    requires OwnBody(ls, ff).Done? && NoneOurs(ls)
    ensures OursCount(OwnBody(ls, ff).value) == 1
  {
    var k := Site(ls, ff);
    OwnBodyParts(ls, ff);
    NoneOursParts(ls, k);
    CopiesAddNone(ls[..k], ff);
    CopiesAddNone(ls[k + 1..], ff);
    OwnLineFacts();
    OneBetween(Copied(ls[..k]), OWN_STACK_LINE + "\n", Behind(ls[k + 1..], ff));
  }

  lemma {:induction false} OwnBodyParts(ls: seq<string>, ff: bool)
    requires OwnBody(ls, ff).Done?
    ensures var k := Site(ls, ff);
            k < |ls| && OwnBody(ls, ff).value == Copied(ls[..k]) + ([OWN_STACK_LINE + "\n"] + Behind(ls[k + 1..], ff))
  {
    OwnBodyShape(ls, ff);
  }

  lemma {:induction false} NoneOursParts(ls: seq<string>, k: nat)
    requires k < |ls| && NoneOurs(ls)
    ensures NoneOurs(ls[..k]) && NoneOurs(ls[k + 1..])
  {
    assert ls == ls[..k] + ([ls[k]] + ls[k + 1..]);
    OursAppend(ls[..k], [ls[k]] + ls[k + 1..]);
    OursAppend([ls[k]], ls[k + 1..]);
  }

  lemma {:induction false} OneBetween(a: seq<string>, line: string, b: seq<string>)
    requires OursCount(a) == 0 && OursCount(b) == 0 && Ours(line)
    ensures OursCount(a + ([line] + b)) == 1
  {
    OursSingle(line);
    OursAppend([line], b);
    OursAppend(a, [line] + b);
  }

  // ------------------------------------------------------- what it means

  /** The checks kept in front of our line. */
  function FrontChecks(inc: Includes, ls: seq<string>, ff: bool): seq<PamStack.Entry> {
    StackOf(inc, Copied(ls[..Site(ls, ff)]))
  }

  function BehindChecks(inc: Includes, ls: seq<string>, ff: bool): seq<PamStack.Entry> {
    var k := Site(ls, ff);
    if k < |ls| then StackOf(inc, Behind(ls[k + 1..], ff)) else []
  }

  lemma {:induction false} StackAround(inc: Includes, a: seq<string>, own: string, behind: seq<string>)
    requires EntriesOf(inc, own) == [OWN_ENTRY]
    ensures StackOf(inc, a + ([own] + behind)) == StackOf(inc, a) + ([OWN_ENTRY] + StackOf(inc, behind))
  {
    SingleEntry(inc, own);
    StackAppend(inc, [own], behind);
    StackAppend(inc, a, [own] + behind);
  }

  /** The three parts of the body, and what they mean. */
  lemma {:induction false} PartsMean(inc: Includes, ls: seq<string>, ff: bool)
    returns (a: seq<string>, own: string, behind: seq<string>)
    requires OwnBody(ls, ff).Done?
    ensures OwnBody(ls, ff).value == a + ([own] + behind) && EntriesOf(inc, own) == [OWN_ENTRY]
    ensures StackOf(inc, a) == FrontChecks(inc, ls, ff) && StackOf(inc, behind) == BehindChecks(inc, ls, ff)
  {
    a, own, behind := Parts(ls, ff);
    FrontAndBehind(inc, ls, ff, a, behind);
    OwnMeans(inc, own);
  }

  lemma {:induction false} FrontAndBehind(inc: Includes, ls: seq<string>, ff: bool, a: seq<string>, behind: seq<string>)
    requires var k := Site(ls, ff); k < |ls| && a == Copied(ls[..k]) && behind == Behind(ls[k + 1..], ff)
    ensures StackOf(inc, a) == FrontChecks(inc, ls, ff) && StackOf(inc, behind) == BehindChecks(inc, ls, ff)
  {
  }

  lemma {:induction false} OwnMeans(inc: Includes, own: string)
    requires own == OWN_STACK_LINE + "\n"
    ensures EntriesOf(inc, own) == [OWN_ENTRY]
  {
    OwnLineMeaning(inc);
  }

  lemma {:induction false} Parts(ls: seq<string>, ff: bool) returns (a: seq<string>, own: string, behind: seq<string>)
    requires OwnBody(ls, ff).Done?
    ensures OwnBody(ls, ff).value == a + ([own] + behind) && own == OWN_STACK_LINE + "\n"
    ensures var k := Site(ls, ff); k < |ls| && a == Copied(ls[..k]) && behind == Behind(ls[k + 1..], ff)
  {
    OwnBodyParts(ls, ff);
    var k := Site(ls, ff);
    a, own, behind := Copied(ls[..k]), OWN_STACK_LINE + "\n", Behind(ls[k + 1..], ff);
  }

  lemma {:induction false} OwnBodyStack(inc: Includes, ls: seq<string>, ff: bool)
    requires OwnBody(ls, ff).Done?
    ensures StackOf(inc, OwnBody(ls, ff).value) == FrontChecks(inc, ls, ff) + ([OWN_ENTRY] + BehindChecks(inc, ls, ff))
  {
    var a, own, behind := PartsMean(inc, ls, ff);
    StackAround(inc, a, own, behind);
  }

  /** Every line break of the text is a newline. */
  predicate OnlyNewlines(ls: seq<string>) {
    ls == [] || (PlainEnd(ls[0]) && IsLine(ls[0]) && OnlyNewlines(ls[1..]))
  }

  lemma {:induction false} CopiedWhole(ls: seq<string>, ff: bool)
    requires OnlyNewlines(ls)
    ensures Whole(Copied(ls)) && Whole(Behind(ls, ff))
  {
    if ls != [] {
      CopiedWhole(ls[1..], ff);
      EndedLine(ls[0]);
      var line := Ended(ls[0]);
      WholeSingle(line);
      WholeAppend(if IsPamHeader(line) then [] else [line], Copied(ls[1..]));
      WholeAppend(if IsPamHeader(line) || Replaced(line, ff) then [] else [line], Behind(ls[1..], ff));
    }
  }

  lemma {:induction false} OnlyNewlinesParts(ls: seq<string>, k: nat)
    requires OnlyNewlines(ls) && k <= |ls|
    ensures OnlyNewlines(ls[..k]) && OnlyNewlines(ls[k..])
  {
    if k > 0 {
      OnlyNewlinesParts(ls[1..], k - 1);
      assert ls[..k][1..] == ls[1..][..k - 1] && ls[k..] == ls[1..][k - 1..];
    }
  }

  lemma {:induction false} OwnLineIsLine()
    ensures Whole([OWN_STACK_LINE + "\n"])
  {
    ModuleIsPlain();
    assert Plain("auth") && Plain("[success=ok") && Plain("default=die]") && Plain("no_password");
    SpelledIsPlain(OWN_WORDS, ['\t', ' ', '\t', ' ']);
    WholeSingle(OWN_STACK_LINE + "\n");
  }

  lemma {:induction false} CommentLine(inc: Includes, l: string)
    requires HasContent(l) && l[0] == '#'
    ensures Whole([l + "\n"]) && StackOf(inc, [l + "\n"]) == []
  {
    WholeSingle(l + "\n");
    CommentHasNoEntry(inc, l + "\n");
    SingleEntry(inc, l + "\n");
  }

  lemma {:induction false} ContentAppend(a: string, b: string)
    requires HasContent(a) && HasContent(b)
    ensures HasContent(a + b) && (a + b)[0] == a[0]
  {
  }

  lemma {:induction false} HeaderContent()
    ensures HasContent(HEADER_0) && HasContent(HEADER_1) && HasContent(HEADER_2)
    ensures HEADER_0[0] == '#' && HEADER_1[0] == '#' && HEADER_2[0] == '#'
  {
    FirstHeader();
    SecondHeader();
    ThirdHeader();
  }

  lemma {:induction false} FirstHeader()
    ensures HasContent(HEADER_0) && HEADER_0[0] == '#'
  {
  }

  lemma {:induction false} SecondHeader()
    ensures HasContent(HEADER_1) && HEADER_1[0] == '#'
  {
    var a, b, c, d, e := "# Created by ", "linux-hello", ": face unlock ", "on the Plasma ", "lock screen.";
    ContentAppend(a, b);
    ContentAppend(a + b, c);
    ContentAppend(a + b + c, d);
    ContentAppend(a + b + c + d, e);
  }

  lemma {:induction false} ThirdHeader()
    ensures HasContent(HEADER_2) && HEADER_2[0] == '#'
  {
    var a, b, c, d := "# Removed again ", "by 'linux-hello", "-cli reset-", "system'.";
    ContentAppend(a, b);
    ContentAppend(a + b, c);
    ContentAppend(a + b + c, d);
  }

  lemma {:induction false} CommentLines(inc: Includes, a: string, b: string, c: string)
    requires Whole([a]) && Whole([b]) && Whole([c]) && StackOf(inc, [a]) == [] && StackOf(inc, [b]) == []
             && StackOf(inc, [c]) == []
    ensures Whole([a, b, c]) && StackOf(inc, [a, b, c]) == []
  {
    assert [a, b, c] == [a] + [b] + [c];
    WholeAppend([a], [b]);
    WholeAppend([a] + [b], [c]);
    StackOfThree(inc, [a], [b], [c]);
  }

  lemma {:induction false} HeaderLines(inc: Includes)
    ensures Whole(HEADER) && StackOf(inc, HEADER) == []
  {
    HeaderContent();
    CommentLine(inc, HEADER_0);
    CommentLine(inc, HEADER_1);
    CommentLine(inc, HEADER_2);
    CommentLines(inc, HEADER_0 + "\n", HEADER_1 + "\n", HEADER_2 + "\n");
  }

  /** The built file reads back as its header and body. */
  lemma {:induction false} OwnStackLines(inc: Includes, source: string, ff: bool)
    requires OnlyNewlines(SplitLines(source)) && OwnStack(source, ff).Done?
    ensures SplitLines(OwnStack(source, ff).value) == HEADER + OwnBody(SplitLines(source), ff).value
    ensures StackOf(inc, SplitLines(OwnStack(source, ff).value)) == StackOf(inc, OwnBody(SplitLines(source), ff).value)
  {
    var ls := SplitLines(source);
    OwnBodyShape(ls, ff);
    var k, body := Site(ls, ff), OwnBody(ls, ff).value;
    OnlyNewlinesParts(ls, k);
    OnlyNewlinesParts(ls, k + 1);
    CopiedWhole(ls[..k], ff);
    CopiedWhole(ls[k + 1..], ff);
    OwnLineIsLine();
    WholeAppend([OWN_STACK_LINE + "\n"], Behind(ls[k + 1..], ff));
    WholeAppend(Copied(ls[..k]), [OWN_STACK_LINE + "\n"] + Behind(ls[k + 1..], ff));
    HeaderLines(inc);
    WholeAppend(HEADER, body);
    SplitOfWhole(HEADER + body);
    StackAppend(inc, HEADER, body);
    assert [] + StackOf(inc, body) == StackOf(inc, body);
  }

  /** The auth stack of the built file. */
  function FaceStack(inc: Includes, source: string, ff: bool): seq<PamStack.Entry>
    requires OwnStack(source, ff).Done?
  {
    StackOf(inc, SplitLines(OwnStack(source, ff).value))
  }

  /** The checks kept in front, ours, and the rest. */
  lemma {:induction false} OwnStackEntries(inc: Includes, source: string, ff: bool)
    requires OnlyNewlines(SplitLines(source)) && OwnStack(source, ff).Done?
    ensures FaceStack(inc, source, ff)
         == FrontChecks(inc, SplitLines(source), ff) + ([OWN_ENTRY] + BehindChecks(inc, SplitLines(source), ff))
  {
    OwnStackLines(inc, source, ff);
    OwnBodyStack(inc, SplitLines(source), ff);
  }

  ghost predicate NeedsFace(stack: seq<PamStack.Entry>) {
    forall answers: PamStack.Answers :: PamStack.Succeeds(stack, answers)
                                        ==> answers(OWN_CHECK) == PamStack.Code("success")
  }

  lemma {:induction false} NeedsFaceIf(stack: seq<PamStack.Entry>, front: seq<PamStack.Entry>,
                                       behind: seq<PamStack.Entry>)
    requires stack == front + ([OWN_ENTRY] + behind)
    requires forall i :: 0 <= i < |front| ==> PamStack.CannotGrantEarly(front[i])
    ensures NeedsFace(stack)
  {
    forall answers: PamStack.Answers | answers(OWN_CHECK) != PamStack.Code("success")
      ensures !PamStack.Succeeds(stack, answers)
    {
      PamStack.OwnStackNeedsFace(front, OWN_ENTRY, behind, answers, PamStack.START);
    }
  }

  lemma {:induction false} NeedsFaceOnlyIf(stack: seq<PamStack.Entry>, front: seq<PamStack.Entry>,
                                           behind: seq<PamStack.Entry>, at: nat)
    requires stack == front + ([OWN_ENTRY] + behind)
    requires forall i :: 0 <= i < |front| ==> PamStack.IsKeyword(front[i]) && front[i].check != OWN_CHECK
    requires at < |front| && PamStack.IsSufficient(front[at])
    ensures !NeedsFace(stack)
  {
    PamStack.SufficientInFrontGrants(front, OWN_ENTRY, behind, at, PamStack.START);
    assert PamStack.Succeeds(stack, PamStack.AllBut(OWN_CHECK));
  }

  lemma {:induction false} NeedsFaceExactly(stack: seq<PamStack.Entry>, front: seq<PamStack.Entry>,
                                            behind: seq<PamStack.Entry>)
    requires stack == front + ([OWN_ENTRY] + behind)
    requires forall i :: 0 <= i < |front| ==> PamStack.IsKeyword(front[i]) && front[i].check != OWN_CHECK
    ensures NeedsFace(stack) <==> forall i :: 0 <= i < |front| ==> !PamStack.IsSufficient(front[i])
  {
    if at :| 0 <= at < |front| && PamStack.IsSufficient(front[at]) {
      NeedsFaceOnlyIf(stack, front, behind, at);
    } else {
      NeedsFaceIf(stack, front, behind);
    }
  }

  /** The face stack, built from any source whose entries in front of our line
      are required, requisite, optional or substacks, never succeeds without a match. */
  lemma {:induction false} FaceStackNeedsFace(inc: Includes, source: string, ff: bool)
    requires OnlyNewlines(SplitLines(source)) && OwnStack(source, ff).Done?
    requires var front := FrontChecks(inc, SplitLines(source), ff);
             forall i :: 0 <= i < |front| ==> PamStack.CannotGrantEarly(front[i])
    ensures NeedsFace(FaceStack(inc, source, ff))
  {
    var behind := BehindChecks(inc, SplitLines(source), ff);
    OwnStackEntries(inc, source, ff);
    NeedsFaceIf(FaceStack(inc, source, ff), FrontChecks(inc, SplitLines(source), ff), behind);
  }

  /** Among keyword lines exactly that: a sufficient line in front of ours
      makes a stack that can succeed without a match. */
  lemma {:induction false} FaceStackNeedsFaceExactly(inc: Includes, source: string, ff: bool)
    requires OnlyNewlines(SplitLines(source)) && OwnStack(source, ff).Done?
    requires var front := FrontChecks(inc, SplitLines(source), ff);
             forall i :: 0 <= i < |front| ==> PamStack.IsKeyword(front[i]) && front[i].check != OWN_CHECK
    ensures var front := FrontChecks(inc, SplitLines(source), ff);
            NeedsFace(FaceStack(inc, source, ff))
            <==> forall i :: 0 <= i < |front| ==> !PamStack.IsSufficient(front[i])
  {
    var front := FrontChecks(inc, SplitLines(source), ff);
    var behind := BehindChecks(inc, SplitLines(source), ff);
    OwnStackEntries(inc, source, ff);
    NeedsFaceExactly(FaceStack(inc, source, ff), front, behind);
  }
}
