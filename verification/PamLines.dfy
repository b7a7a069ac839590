/** The text functions of integration/pam.py: which lines are auth lines, which
    are checks ("gates"), and how marked blocks go into a service file and out
    of it again. */
module PamLines {
  import opened Text
  import opened Outcomes

  // Long strings are written as sums of short ones: the verifier unfolds a literal
  // character by character wherever it meets one, and a sum only where it is asked to.

  const MODULE := "pam_linux" + "_hello.so"
  const BEGIN := "# BEGIN " + "linux-hello " + "(managed by " + "linux-hello, " + "do not edit)"
  const END := "# END linux-hello"
  const WALLET_BEGIN := "# BEGIN " + "linux-hello " + "kwallet " + "(managed by " + "linux-hello, " + "do not edit)"
  const BEGINS := [BEGIN, WALLET_BEGIN]

  /** A word, the blank behind it and what follows. */
  function Then(word: string, blank: char, rest: string): string {
    word + [blank] + rest
  }

  /** Words with the given blanks between them. */
  function Spelled(words: seq<string>, blanks: seq<char>): string
    requires |words| == |blanks| + 1
  {
    if blanks == [] then words[0] else Then(words[0], blanks[0], Spelled(words[1..], blanks[1..]))
  }

  const HOLD_WORDS := ["-auth", "optional", MODULE, "remember_password"]
  const REMEMBER_WORDS := ["-session", "optional", MODULE, "remember_password"]
  const RELEASE_WORDS := ["-auth", "optional", MODULE, "kwallet"]
  const INSERT_WORDS := ["auth", "[success=done", "default=ignore]", MODULE]
  const LOGIN_WORDS := ["auth", "[success=done", "ignore=ignore", "auth_err=die", "default=ignore]", MODULE]
  const OWN_WORDS := ["auth", "[success=ok", "default=die]", MODULE, "no_password"]

  const WALLET_HOLD_LINE := Spelled(HOLD_WORDS, ['\t', '\t', ' '])
  const WALLET_REMEMBER_LINE := Spelled(REMEMBER_WORDS, ['\t', '\t', ' '])
  const WALLET_RELEASE_LINE := Spelled(RELEASE_WORDS, ['\t', '\t', ' '])
  const INSERT_LINE := Spelled(INSERT_WORDS, ['\t', ' ', '\t'])
  const LOGIN_INSERT_LINE := Spelled(LOGIN_WORDS, ['\t', ' ', ' ', ' ', '\t'])
  const OWN_STACK_LINE := Spelled(OWN_WORDS, ['\t', ' ', '\t', ' '])
  const OWN_HEADER := "#%PAM-1.0\n" + "# Created by " + "linux-hello"

  const OWN_STACK_DROP := ["pam_fprintd.so", "pam_permit.so"]
  const GATES: map<string, Option<string>> := map[
    "pam_faillock.so" := Some("preauth"),
    "pam_nologin.so" := None,
    "pam_access.so" := None,
    "pam_shells.so" := None,
    "pam_securetty.so" := None,
    "pam_listfile.so" := None,
    "pam_time.so" := None]

  // ------------------------------------------------------- reading a line

  /** Words after the control field, which is one word or a [ ... ] group. */
  function AfterControl(rest: seq<string>): seq<string> {
    if rest == [] then []
    else if StartsWith(rest[0], "[") then
      var r := FromClosing(rest);
      if r == [] then [] else r[1..]
    else rest[1..]
  }

  function FromClosing(rest: seq<string>): seq<string> {
    if rest == [] || EndsWith(rest[0], "]") then rest else FromClosing(rest[1..])
  }

  /** (type, module) of a config line; split() of the line and of the stripped
      line are the same words. */
  function ModuleOf(line: string): (Option<string>, Option<string>) {
    var words := Words(line);
    if words == [] || words[0][0] == '#' then (None, None)
    else if StartsWith(words[0], "@include") then
      (Some("@include"), if |words| > 1 then Some(words[1]) else None)
    else
      var rest := AfterControl(words[1..]);
      (Some(StripChar(words[0], '-')), if rest == [] then None else Some(rest[0]))
  }

  predicate IsAuthLine(line: string) {
    var (kind, name) := ModuleOf(line);
    kind == Some("auth") || (kind == Some("@include") && name == Some("common-auth"))
  }

  predicate Ours(line: string) {
    var name := ModuleOf(line).1;
    name.Some? && Basename(name.value) == MODULE
  }

  // ---------------------------------------------------------------- gates

  /** The checks that a match must not skip: a required or requisite auth line of
      one of these modules, faillock's only where it checks before the password. */
  predicate IsCheck(words: seq<string>) {
    && |words| >= 3 && StripChar(words[0], '-') == "auth" && (words[1] == "required" || words[1] == "requisite")
    && (Basename(words[2]) in {"pam_nologin.so", "pam_access.so", "pam_shells.so", "pam_securetty.so",
                               "pam_listfile.so", "pam_time.so"}
        || (Basename(words[2]) == "pam_faillock.so" && "preauth" in words[3..]))
  }

  /** What a line adds to the gates: a check in front of the password becomes a
      line of its own with the dash; every other line adds nothing. */
  function GateLine(line: string): Option<string> {
    var parts := Words(line);
    if |parts| < 3 || StripChar(parts[0], '-') != "auth" || parts[1] !in ["required", "requisite"] then None
    else
      var name := Basename(parts[2]);
      if name !in GATES || (GATES[name].Some? && GATES[name].value !in parts[3..]) then None
      else Some(GateCopy(parts[1], parts[2..]))
  }

  /** gate_line copies exactly the checks. */
  lemma {:induction false} ChecksAreGates(line: string)
    ensures GateLine(line).Some? <==> IsCheck(Words(line))
    ensures IsCheck(Words(line)) ==> GateLine(line) == Some(GateCopy(Words(line)[1], Words(line)[2..]))
  {
  }

  function GateCopy(control: string, rest: seq<string>): string {
    Then("-auth", '\t', Then(control, '\t', JoinWords(rest)))
  }

  lemma {:induction false} GateCopyWords(control: string, rest: seq<string>)
    requires IsWord(control) && forall i :: 0 <= i < |rest| ==> IsWord(rest[i])
    ensures Words(GateCopy(control, rest)) == ["-auth", control] + rest
  {
    var tail := JoinWords(rest);
    WordsOfJoin(rest);
    WordsOfWordThen(control, '\t', tail);
    WordsOfWordThen("-auth", '\t', Then(control, '\t', tail));
    TwoInFront("-auth", control, rest);
  }

  lemma {:induction false} TwoInFront(a: string, b: string, rest: seq<string>)
    ensures [a] + ([b] + rest) == [a, b] + rest
  {
  }

  lemma {:induction false} GateCopyIsOneLine(control: string, rest: seq<string>)
    requires IsWord(control) && forall i :: 0 <= i < |rest| ==> IsWord(rest[i])
    ensures HasContent(GateCopy(control, rest))
  {
    JoinWordsHasNoBreak(rest);
  }

  /** A gate copy is one line with the words of the line it copies. */
  lemma {:induction false} GateLineWords(line: string)
    requires GateLine(line).Some?
    ensures var gate := GateLine(line).value;
            Words(gate) == ["-auth"] + Words(line)[1..] && HasContent(gate)
  {
    var parts := Words(line);
    WordsAreWords(line);
    GateCopyWords(parts[1], parts[2..]);
    GateCopyIsOneLine(parts[1], parts[2..]);
    assert ["-auth", parts[1]] + parts[2..] == ["-auth"] + parts[1..];
  }

  lemma {:induction false} JoinWordsHasNoBreak(ws: seq<string>)
    requires forall i :: 0 <= i < |ws| ==> IsWord(ws[i])
    ensures forall i :: 0 <= i < |JoinWords(ws)| ==> !IsBreak(JoinWords(ws)[i])
  {
    if |ws| > 1 {
      JoinWordsHasNoBreak(ws[1..]);
    }
  }

  /** gate_line maps its own output to itself. */
  lemma {:induction false} GateLineIsNormal(line: string)
    requires GateLine(line).Some?
    ensures GateLine(GateLine(line).value) == GateLine(line)
  {
    GateLineWords(line);
    var parts, copy := Words(line), Words(GateLine(line).value);
    assert copy[1] == parts[1] && copy[2..] == parts[2..] && copy[3..] == parts[3..];
  }

  /** The gate copies of some lines, each once, in the order first seen. */
  function GatesOf(lines: seq<string>): seq<string> {
    if lines == [] then []
    else
      var gates, gate := GatesOf(lines[..|lines| - 1]), GateLine(lines[|lines| - 1]);
      if gate.Some? && gate.value !in gates then gates + [gate.value] else gates
  }

  /** Exactly the copies of the checks among the lines, without duplicates. */
  lemma {:induction false} GatesOfIsExact(lines: seq<string>)
    ensures forall g :: g in GatesOf(lines)
                        <==> exists i :: 0 <= i < |lines| && IsCheck(Words(lines[i])) && GateLine(lines[i]) == Some(g)
    ensures forall i, j :: 0 <= i < j < |GatesOf(lines)| ==> GatesOf(lines)[i] != GatesOf(lines)[j]
  {
    if lines != [] {
      var front := lines[..|lines| - 1];
      GatesOfIsExact(front);
      ChecksAreGates(lines[|lines| - 1]);
      forall g
        ensures g in GatesOf(lines)
                <==> exists i :: 0 <= i < |lines| && IsCheck(Words(lines[i])) && GateLine(lines[i]) == Some(g)
      {
        if i :| 0 <= i < |lines| && IsCheck(Words(lines[i])) && GateLine(lines[i]) == Some(g) {
          if i < |front| {
            assert IsCheck(Words(front[i])) && GateLine(front[i]) == Some(g);
          }
        }
        if g in GatesOf(front) {
          var i :| 0 <= i < |front| && IsCheck(Words(front[i])) && GateLine(front[i]) == Some(g);
          assert IsCheck(Words(lines[i])) && GateLine(lines[i]) == Some(g);
        }
      }
    }
  }

  /** _gates: collect them in one pass. */
  method CollectGates(lines: seq<string>) returns (gates: seq<string>)
    ensures gates == GatesOf(lines)
  {
    gates := [];
    var i := 0;
    while i < |lines|
      invariant 0 <= i <= |lines| && gates == GatesOf(lines[..i])
    {
      var gate := GateLine(lines[i]);
      assert lines[..i + 1][..i] == lines[..i];
      if gate.Some? && gate.value !in gates {
        gates := gates + [gate.value];
      }
      i := i + 1;
    }
    assert lines[..i] == lines;
  }

  // --------------------------------------------------------------- blocks

  function WithNewline(ls: seq<string>): seq<string> {
    if ls == [] || EndsWith(ls[|ls| - 1], "\n") then ls
    else ls[..|ls| - 1] + [ls[|ls| - 1] + "\n"]
  }

  function FirstAuth(ls: seq<string>): (k: nat)
    ensures k <= |ls|
  {
    if ls == [] || IsAuthLine(ls[0]) then 0 else 1 + FirstAuth(ls[1..])
  }

  /** Position behind the last auth line, 0 without one. */
  function AfterLastAuth(ls: seq<string>): (k: nat)
    ensures k <= |ls|
  {
    if ls == [] then 0
    else
      var k := AfterLastAuth(ls[1..]);
      if k > 0 then k + 1 else if IsAuthLine(ls[0]) then 1 else 0
  }

  function AsLines(gates: seq<string>): (ls: seq<string>)
    ensures |ls| == |gates| && forall i :: 0 <= i < |gates| ==> ls[i] == gates[i] + "\n"
  {
    seq(|gates|, i requires 0 <= i < |gates| => gates[i] + "\n")
  }

  function Block(gates: seq<string>, line: string): seq<string> {
    [BEGIN + "\n"] + AsLines(gates) + [line + "\n", END + "\n"]
  }

  function WalletBlock(line: string): seq<string> {
    [WALLET_BEGIN + "\n", line + "\n", END + "\n"]
  }

  /** insert_block */
  function InsertBlock(text: string, gates: seq<string>, line: string): Result<string> {
    if Contains(text, BEGIN) then Done(text)
    else
      var lines := WithNewline(SplitLines(text));
      var k := FirstAuth(lines);
      if k == |lines| then Refused else Done(Join(lines[..k] + Block(gates, line) + lines[k..]))
  }

  /** insert_wallet_release */
  function InsertWalletRelease(text: string): Result<string> {
    if Contains(text, WALLET_BEGIN) then Done(text)
    else
      var lines := SplitLines(text);
      var k := FirstAuth(lines);
      if k == |lines| then Refused
      else Done(Join(lines[..k]) + Join(WalletBlock(WALLET_RELEASE_LINE)) + Join(lines[k..]))
  }

  /** insert_wallet_remember */
  function InsertWalletRemember(text: string): Result<string> {
    if Contains(text, WALLET_BEGIN) then Done(text)
    else
      var ended := if text != "" && !EndsWith(text, "\n") then text + "\n" else text;
      var lines := SplitLines(ended);
      var k := AfterLastAuth(lines);
      if k == 0 then Refused
      else Done(Join(lines[..k] + [Join(WalletBlock(WALLET_HOLD_LINE))] + lines[k..])
                + Join(WalletBlock(WALLET_REMEMBER_LINE)))
  }

  function NotOurs(ls: seq<string>): seq<string> {
    if ls == [] then [] else (if Ours(ls[0]) then [] else [ls[0]]) + NotOurs(ls[1..])
  }

  predicate NoneOurs(ls: seq<string>) {
    ls == [] || (!Ours(ls[0]) && NoneOurs(ls[1..]))
  }

  /** The lines outside every block marked by one of begins. */
  function OutsideBlocks(ls: seq<string>, begins: seq<string>): seq<string> {
    if ls == [] then []
    else if Strip(ls[0]) in begins then AfterBlock(ls[1..], begins, [])
    else [ls[0]] + OutsideBlocks(ls[1..], begins)
  }

  /** The same inside a block; without its END line, foreign lines are kept. */
  function AfterBlock(ls: seq<string>, begins: seq<string>, block: seq<string>): seq<string> {
    if ls == [] then NotOurs(block)
    else if Strip(ls[0]) == END then OutsideBlocks(ls[1..], begins)
    else AfterBlock(ls[1..], begins, block + [ls[0]])
  }

  function RemoveBlock(text: string, begins: seq<string>): string {
    Join(OutsideBlocks(SplitLines(text), begins))
  }

  /** remove_block: one pass with the open block, if any, set aside. */
  method RemoveBlockPass(text: string, begins: seq<string>) returns (cleaned: string)
    ensures cleaned == RemoveBlock(text, begins)
  {
    var lines := SplitLines(text);
    var out: seq<string> := [];
    var block: Option<seq<string>> := None;
    var i := 0;
    while i < |lines|
      invariant 0 <= i <= |lines|
      invariant OutsideBlocks(lines, begins) == out +
        (if block.None? then OutsideBlocks(lines[i..], begins) else AfterBlock(lines[i..], begins, block.value))
    {
      var line := lines[i];
      assert lines[i..][1..] == lines[i + 1..];
      if block.None? && Strip(line) in begins {
        block := Some([]);
      } else if block.Some? {
        block := if Strip(line) == END then None else Some(block.value + [line]);
      } else {
        out := out + [line];
      }
      i := i + 1;
    }
    assert lines[i..] == [];
    if block.Some? {
      out := out + NotOurs(block.value);
    } else {
      assert out + [] == out;
    }
    cleaned := Join(out);
  }

  /** remove_legacy_lines */
  function RemoveLegacyLines(text: string): string {
    Join(NotOurs(SplitLines(text)))
  }
}
