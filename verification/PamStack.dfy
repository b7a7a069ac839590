/** How Linux-PAM runs an auth stack (Linux-PAM System Administrators' Guide,
    section 4.1, and pam.conf(5)), and what putting our line and the gate copies
    in front of a stack means for it. */
module PamStack {

  datatype Action = Accept | Finish | Fail | Stop | Pass | Restart | Skip(count: nat)

  /** A [value=action ...] table; values it does not list use the default. */
  datatype Control = Control(actions: map<string, Action>, default: Action) {
    function On(code: string): Action {
      if code in actions then actions[code] else default
    }
  }

  const REQUIRED := Control(map["success" := Accept, "new_authtok_reqd" := Accept, "ignore" := Pass], Fail)
  const REQUISITE := Control(map["success" := Accept, "new_authtok_reqd" := Accept, "ignore" := Pass], Stop)
  const SUFFICIENT := Control(map["success" := Finish, "new_authtok_reqd" := Finish], Pass)
  const OPTIONAL := Control(map["success" := Accept, "new_authtok_reqd" := Accept], Pass)

  /** check: the module and its arguments. The "-" in front of a line only keeps
      a missing module out of the log, so it makes no difference here. */
  datatype Entry = Entry(control: Control, check: seq<string>) | Substack(entries: seq<Entry>)

  /** What a module answers; one that is not installed still counts. */
  datatype Answer = Absent | Code(code: string) {
    function Said(): string {
      if Absent? then "module_unknown" else code
    }
  }

  /** One answer per check: running a check twice gives the same answer. */
  type Answers = seq<string> -> Answer

  datatype Impression = Undefined | Positive | Negative
  datatype Verdict = Verdict(impression: Impression, status: string)

  const MUST_FAIL := "perm_denied"
  const START := Verdict(Undefined, MUST_FAIL)

  function Noted(v: Verdict, code: string): Verdict {
    if v.impression.Undefined? || (v.impression.Positive? && v.status == "success") then Verdict(Positive, code) else v
  }

  function Blamed(v: Verdict, code: string): Verdict {
    if v.impression.Negative? then v else Verdict(Negative, if code == "ignore" then MUST_FAIL else code)
  }

  function ActionOn(e: Entry, answers: Answers): Action
    requires e.Entry?
  {
    e.control.On(answers(e.check).Said())
  }

  /** The dispatch loop. A substack goes on with the verdict reached; what ends it
      ends nothing else, and a reset in it goes back to where it began. */
  function Run(stack: seq<Entry>, answers: Answers, v: Verdict, base: Verdict): Verdict
    decreases stack
  {
    if stack == [] then v
    else
      var e, rest := stack[0], stack[1..];
      if e.Substack? then Run(rest, answers, Run(e.entries, answers, v, v), base)
      else
        var code := answers(e.check).Said();
        match ActionOn(e, answers)
        case Accept => Run(rest, answers, Noted(v, code), base)
        case Finish => var w := Noted(v, code); if w.impression.Positive? then w else Run(rest, answers, w, base)
        case Fail => Run(rest, answers, Blamed(v, code), base)
        case Stop => Blamed(v, code)
        case Pass => Run(rest, answers, v, base)
        case Restart => Run(rest, answers, base, base)
        case Skip(n) => if n <= |rest| then Run(rest[n..], answers, v, base) else Verdict(Negative, MUST_FAIL)
  }

  predicate Granted(v: Verdict) {
    v.impression.Positive? && v.status == "success"
  }

  predicate Succeeds(stack: seq<Entry>, answers: Answers) {
    Granted(Run(stack, answers, START, START))
  }

  // ------------------------------------------------------------- the block

  const FACE_LINE := Control(map["success" := Finish], Pass)
  const LOGIN_FACE_LINE := Control(map["success" := Finish, "ignore" := Pass, "auth_err" := Stop], Pass)
  const OWN_FACE_LINE := Control(map["success" := Accept], Stop)

  /** A gate lets the stack go on: its check passed or has no opinion. */
  predicate Passes(a: Answer) {
    a.Said() == "success" || a.Said() == "ignore"
  }

  /** A gate fails: neither passed nor asking for a new password. */
  predicate Denies(a: Answer) {
    !Passes(a) && a.Said() != "new_authtok_reqd"
  }

  predicate IsGate(e: Entry) {
    e.Entry? && (e.control == REQUIRED || e.control == REQUISITE)
  }

  /** The check passes. */
  predicate Clears(e: Entry, answers: Answers) {
    e.Entry? && Passes(answers(e.check))
  }

  predicate Affirms(e: Entry, answers: Answers) {
    e.Entry? && answers(e.check).Said() == "success"
  }

  predicate AllPass(gates: seq<Entry>, answers: Answers) {
    gates == [] || (Clears(gates[0], answers) && AllPass(gates[1..], answers))
  }

  predicate AnySucceeds(gates: seq<Entry>, answers: Answers) {
    gates != [] && (Affirms(gates[0], answers) || AnySucceeds(gates[1..], answers))
  }

  /** Some gate with this control fails. */
  predicate AnyDenies(gates: seq<Entry>, answers: Answers, control: Control) {
    gates != []
    && ((gates[0].Entry? && gates[0].control == control && Denies(answers(gates[0].check)))
        || AnyDenies(gates[1..], answers, control))
  }

  /** Our face line behind the gate copies, in front of the service's own stack. */
  function WithFace(gates: seq<Entry>, face: Entry, stack: seq<Entry>): seq<Entry> {
    gates + ([face] + stack)
  }

  predicate IsFace(face: Entry) {
    face.Entry? && (face.control == FACE_LINE || face.control == LOGIN_FACE_LINE)
  }

  predicate Matches(face: Entry, answers: Answers) {
    face.Entry? && answers(face.check) == Code("success")
  }

  /** A failed match ends the stack, at a login screen only. */
  predicate Ends(face: Entry, answers: Answers) {
    face.Entry? && face.control == LOGIN_FACE_LINE && answers(face.check) == Code("auth_err")
  }

  // -------------------------------------------------- running from a verdict

  /** Run from the start, the stack comes to its end without any module having
      said a word that counts. */
  predicate Unheard(stack: seq<Entry>, answers: Answers) {
    stack == [] ||
    var e, rest := stack[0], stack[1..];
    if e.Substack? then Run(e.entries, answers, START, START) == START && Unheard(rest, answers)
    else match ActionOn(e, answers)
      case Pass => Unheard(rest, answers)
      case Skip(n) => n <= |rest| && Unheard(rest[n..], answers)
      case _ => false
  }

  /** Two runs, one with a head start: the same once something was heard. */
  predicate Paired(v: Verdict, w: Verdict, head: Verdict) {
    if v.impression.Undefined? then v == START && w == head else w == v
  }

  lemma {:induction false} StaysHeard(stack: seq<Entry>, answers: Answers, v: Verdict, base: Verdict)
    requires !v.impression.Undefined? && !base.impression.Undefined?
    ensures !Run(stack, answers, v, base).impression.Undefined?
    decreases stack
  {
    if stack != [] {
      var e, rest := stack[0], stack[1..];
      if e.Substack? {
        StaysHeard(e.entries, answers, v, v);
        StaysHeard(rest, answers, Run(e.entries, answers, v, v), base);
      } else {
        var code, action := answers(e.check).Said(), ActionOn(e, answers);
        StaysHeard(rest, answers, v, base);
        StaysHeard(rest, answers, Noted(v, code), base);
        StaysHeard(rest, answers, Blamed(v, code), base);
        StaysHeard(rest, answers, base, base);
        if action.Skip? && action.count <= |rest| {
          StaysHeard(rest[action.count..], answers, v, base);
        }
      }
    }
  }

  /** Inside a substack both runs stay paired: its resets go back to where each began. */
  lemma {:induction false} SubstackKeepsPair(stack: seq<Entry>, answers: Answers, v: Verdict, w: Verdict, head: Verdict)
    requires Granted(head) && Paired(v, w, head)
    ensures Paired(Run(stack, answers, v, START), Run(stack, answers, w, head), head)
    decreases stack
  {
    if stack != [] {
      var e, rest := stack[0], stack[1..];
      if e.Substack? {
        NestedKeepsPair(e, answers, v, w, head);
        SubstackKeepsPair(rest, answers, Run(e.entries, answers, v, v), Run(e.entries, answers, w, w), head);
      } else {
        var code, action := answers(e.check).Said(), ActionOn(e, answers);
        SubstackKeepsPair(rest, answers, v, w, head);
        SubstackKeepsPair(rest, answers, Noted(v, code), Noted(w, code), head);
        SubstackKeepsPair(rest, answers, Blamed(v, code), Blamed(w, code), head);
        SubstackKeepsPair(rest, answers, START, head, head);
        if action.Skip? && action.count <= |rest| {
          SubstackKeepsPair(rest[action.count..], answers, v, w, head);
        }
      }
    }
  }

  lemma {:induction false} NestedKeepsPair(e: Entry, answers: Answers, v: Verdict, w: Verdict, head: Verdict)
    requires e.Substack? && Granted(head) && Paired(v, w, head)
    ensures Paired(Run(e.entries, answers, v, v), Run(e.entries, answers, w, w), head)
    decreases e
  {
    if v.impression.Undefined? {
      SubstackKeepsPair(e.entries, answers, v, w, head);
    } else {
      StaysHeard(e.entries, answers, v, v);
    }
  }

  /** A head start of passed checks changes the outcome exactly for a stack that
      is unheard: it decides nothing, and the head start stands. */
  lemma {:induction false} HeadStartExactly(stack: seq<Entry>, answers: Answers, w: Verdict)
    requires Granted(w)
    ensures Granted(Run(stack, answers, w, START))
       <==> Granted(Run(stack, answers, START, START)) || Unheard(stack, answers)
    decreases |stack|
  {
    if stack != [] {
      var e, rest := stack[0], stack[1..];
      HeadStartExactly(rest, answers, w);
      if e.Substack? {
        NestedKeepsPair(e, answers, START, w, w);
      } else {
        var action := ActionOn(e, answers);
        if action.Skip? && action.count <= |rest| {
          HeadStartExactly(rest[action.count..], answers, w);
        }
      }
    }
  }

  /** A verdict that is no success and that nothing but a reset turns into one. */
  predicate Doomed(v: Verdict) {
    v.impression.Negative? || (v.impression.Positive? && v.status != "success")
  }

  /** Some such verdict; ends: one that a "done" ends the stack with. */
  function Failed(ends: bool): Verdict {
    Verdict(if ends then Positive else Negative, MUST_FAIL)
  }

  /** A substack leaves a failure one, of a kind that depends on its kind alone. */
  lemma {:induction false} FailuresStay(stack: seq<Entry>, answers: Answers, v: Verdict, base: Verdict, v': Verdict,
                                        base': Verdict)
    requires Doomed(v) && Doomed(base) && Doomed(v') && Doomed(base')
    requires v.impression == v'.impression && base.impression == base'.impression
    ensures Doomed(Run(stack, answers, v, base)) && Doomed(Run(stack, answers, v', base'))
    ensures Run(stack, answers, v, base).impression == Run(stack, answers, v', base').impression
    decreases stack
  {
    if stack != [] {
      var e, rest := stack[0], stack[1..];
      if e.Substack? {
        FailuresStay(e.entries, answers, v, v, v', v');
        FailuresStay(rest, answers, Run(e.entries, answers, v, v), base, Run(e.entries, answers, v', v'), base');
      } else {
        var code, action := answers(e.check).Said(), ActionOn(e, answers);
        FailuresStay(rest, answers, v, base, v', base');
        FailuresStay(rest, answers, Blamed(v, code), base, Blamed(v', code), base');
        FailuresStay(rest, answers, base, base, base', base');
        if action.Skip? && action.count <= |rest| {
          FailuresStay(rest[action.count..], answers, v, base, v', base');
        }
      }
    }
  }

  /** Run from a failure, the stack comes to a reset of its own behind which it
      succeeds. ends: the failure is one that a "done" still ends the stack with. */
  predicate Redeemed(stack: seq<Entry>, answers: Answers, ends: bool) {
    stack != [] &&
    var e, rest := stack[0], stack[1..];
    if e.Substack? then
      Redeemed(rest, answers, Run(e.entries, answers, Failed(ends), Failed(ends)).impression.Positive?)
    else match ActionOn(e, answers)
      case Accept => Redeemed(rest, answers, ends)
      case Finish => !ends && Redeemed(rest, answers, ends)
      case Fail => Redeemed(rest, answers, false)
      case Stop => false
      case Pass => Redeemed(rest, answers, ends)
      case Restart => Succeeds(rest, answers)
      case Skip(n) => n <= |rest| && Redeemed(rest[n..], answers, ends)
  }

  lemma {:induction false} DoomedExactly(stack: seq<Entry>, answers: Answers, v: Verdict)
    requires Doomed(v)
    ensures Granted(Run(stack, answers, v, START)) <==> Redeemed(stack, answers, v.impression.Positive?)
    decreases |stack|
  {
    if stack != [] {
      var e, rest := stack[0], stack[1..];
      if e.Substack? {
        var failed := Failed(v.impression.Positive?);
        FailuresStay(e.entries, answers, v, v, failed, failed);
        DoomedExactly(rest, answers, Run(e.entries, answers, v, v));
      } else {
        var code, action := answers(e.check).Said(), ActionOn(e, answers);
        DoomedExactly(rest, answers, v);
        DoomedExactly(rest, answers, Blamed(v, code));
        if action.Skip? && action.count <= |rest| {
          DoomedExactly(rest[action.count..], answers, v);
        }
      }
    }
  }

  /** No reset among the stack's own entries; those in substacks redeem nothing. */
  ghost predicate NoRestart(stack: seq<Entry>) {
    forall i, c :: 0 <= i < |stack| && stack[i].Entry? ==> stack[i].control.On(c) != Restart
  }

  lemma {:induction false} NotRedeemed(stack: seq<Entry>, answers: Answers, ends: bool)
    requires NoRestart(stack)
    ensures !Redeemed(stack, answers, ends)
    decreases |stack|
  {
    if stack != [] {
      var e, rest := stack[0], stack[1..];
      NotRedeemed(rest, answers, true);
      NotRedeemed(rest, answers, false);
      if e.Entry? {
        var action := ActionOn(e, answers);
        if action.Skip? && action.count <= |rest| {
          NotRedeemed(rest[action.count..], answers, ends);
        }
      }
    }
  }

  // --------------------------------------------------------------- the gates

  /** What passing gates leave behind. */
  function PassedGates(gates: seq<Entry>, answers: Answers): Verdict {
    if AnySucceeds(gates, answers) then Verdict(Positive, "success") else START
  }

  lemma {:induction false} GatesPass(gates: seq<Entry>, stack: seq<Entry>, answers: Answers, v: Verdict)
    requires forall i :: 0 <= i < |gates| ==> IsGate(gates[i])
    requires AllPass(gates, answers) && (v == START || Granted(v))
    ensures Run(gates + stack, answers, v, START)
         == Run(stack, answers, if Granted(v) then v else PassedGates(gates, answers), START)
  {
    if gates == [] {
      assert gates + stack == stack;
    } else {
      assert IsGate(gates[0]);
      assert (gates + stack)[1..] == gates[1..] + stack;
      var success := Affirms(gates[0], answers);
      GatesPass(gates[1..], stack, answers, if success then Verdict(Positive, "success") else v);
    }
  }

  lemma {:induction false} RedeemedBehind(gates: seq<Entry>, stack: seq<Entry>, answers: Answers, ends: bool)
    requires forall i :: 0 <= i < |gates| ==> IsGate(gates[i])
    ensures Redeemed(gates + stack, answers, ends)
       <==> !AnyDenies(gates, answers, REQUISITE)
            && Redeemed(stack, answers, ends && !AnyDenies(gates, answers, REQUIRED))
  {
    ControlsDiffer();
    if gates == [] {
      assert gates + stack == stack;
    } else {
      assert IsGate(gates[0]);
      assert (gates + stack)[1..] == gates[1..] + stack;
      RedeemedBehind(gates[1..], stack, answers, ends);
      RedeemedBehind(gates[1..], stack, answers, false);
    }
  }

  lemma {:induction false} ControlsDiffer()
    ensures REQUIRED != REQUISITE && FACE_LINE != LOGIN_FACE_LINE
  {
    assert REQUIRED.On("auth_err") != REQUISITE.On("auth_err")
           && FACE_LINE.On("auth_err") != LOGIN_FACE_LINE.On("auth_err");
  }

  /** A failed gate is forgiven by a reset alone, a failed requisite one by nothing. */
  lemma {:induction false} GatesFail(gates: seq<Entry>, stack: seq<Entry>, answers: Answers, v: Verdict)
    requires forall i :: 0 <= i < |gates| ==> IsGate(gates[i])
    requires !AllPass(gates, answers) && (v == START || Granted(v))
    ensures Granted(Run(gates + stack, answers, v, START))
       <==> !AnyDenies(gates, answers, REQUISITE) && Redeemed(stack, answers, !AnyDenies(gates, answers, REQUIRED))
  {
    ControlsDiffer();
    var e, rest := gates[0], gates[1..];
    var answer := answers(e.check);
    assert IsGate(e);
    assert (gates + stack)[1..] == rest + stack;
    if Passes(answer) {
      GatesFail(rest, stack, answers, if answer.Said() == "success" then Verdict(Positive, "success") else v);
    } else if Denies(answer) {
      DoomedExactly(rest + stack, answers, Blamed(v, answer.Said()));
      RedeemedBehind(rest, stack, answers, false);
    } else {
      DoomedExactly(rest + stack, answers, Noted(v, answer.Said()));
      RedeemedBehind(rest, stack, answers, true);
    }
  }

  lemma {:induction false} AllPassMeans(gates: seq<Entry>, answers: Answers)
    ensures AllPass(gates, answers) <==> forall g :: g in gates ==> Clears(g, answers)
    ensures AnySucceeds(gates, answers) <==> exists g :: g in gates && Affirms(g, answers)
  {
    if gates != [] {
      AllPassMeans(gates[1..], answers);
      assert gates == [gates[0]] + gates[1..];
    }
  }

  // ---------------------------------------------------------- what it means

  /** The face line alone: a match grants, and only the login screen's line stops at a failed match. */
  lemma {:induction false} FaceLineStep(face: Entry, stack: seq<Entry>, answers: Answers, v: Verdict, ends: bool)
    requires IsFace(face) && (v == START || Granted(v))
    ensures Granted(Run([face] + stack, answers, v, START))
       <==> Matches(face, answers) || (!Ends(face, answers) && Granted(Run(stack, answers, v, START)))
    ensures Redeemed([face] + stack, answers, ends)
       <==> !(Matches(face, answers) && ends) && !Ends(face, answers) && Redeemed(stack, answers, ends)
  {
    ControlsDiffer();
    assert ([face] + stack)[1..] == stack;
  }

  /** Who gets in once gate copies and our line are in front of a stack. All
      checks passing: on a match, or if the face line does not end it and the
      stack succeeds, or is unheard where a check was not. A check failing: only
      where a reset redeems it. */
  predicate LetsIn(gates: seq<Entry>, face: Entry, stack: seq<Entry>, answers: Answers) {
    if AllPass(gates, answers) then
      Matches(face, answers)
      || (!Ends(face, answers) && (Succeeds(stack, answers)
                                   || (Unheard(stack, answers) && AnySucceeds(gates, answers))))
    else
      var ends := !AnyDenies(gates, answers, REQUIRED);
      && !AnyDenies(gates, answers, REQUISITE) && !(Matches(face, answers) && ends) && !Ends(face, answers)
      && Redeemed(stack, answers, ends)
  }

  /** Exactly that, for every stack whatsoever and every answer of its modules. */
  lemma {:induction false} PatchedStackExactly(gates: seq<Entry>, face: Entry, stack: seq<Entry>, answers: Answers)
    requires (forall i :: 0 <= i < |gates| ==> IsGate(gates[i])) && IsFace(face)
    ensures Succeeds(WithFace(gates, face, stack), answers) <==> LetsIn(gates, face, stack, answers)
  {
    if AllPass(gates, answers) {
      var v := PassedGates(gates, answers);
      GatesPass(gates, [face] + stack, answers, START);
      FaceLineStep(face, stack, answers, v, false);
      if AnySucceeds(gates, answers) {
        HeadStartExactly(stack, answers, v);
      }
    } else {
      GatesFail(gates, [face] + stack, answers, START);
      FaceLineStep(face, stack, answers, START, !AnyDenies(gates, answers, REQUIRED));
    }
  }

  /** So without a reset in the stack every copied check has to pass. */
  lemma {:induction false} LetsInWithoutReset(gates: seq<Entry>, face: Entry, stack: seq<Entry>, answers: Answers)
    requires NoRestart(stack)
    ensures LetsIn(gates, face, stack, answers)
       <==> (forall g :: g in gates ==> Clears(g, answers))
            && (Matches(face, answers)
                || (!Ends(face, answers) && (Succeeds(stack, answers)
                                             || (Unheard(stack, answers) && AnySucceeds(gates, answers)))))
  {
    AllPassMeans(gates, answers);
    NotRedeemed(stack, answers, !AnyDenies(gates, answers, REQUIRED));
  }

  predicate IsKeyword(e: Entry) {
    e.Entry?
    && (e.control == REQUIRED || e.control == REQUISITE || e.control == SUFFICIENT || e.control == OPTIONAL)
  }

  predicate IsSufficient(e: Entry) {
    e.Entry? && e.control == SUFFICIENT
  }

  predicate AllKeywords(stack: seq<Entry>) {
    forall i :: 0 <= i < |stack| ==> IsKeyword(stack[i])
  }

  /** The stack holds the check the gate copies. */
  predicate HoldsCheck(stack: seq<Entry>, gate: Entry) {
    exists i :: 0 <= i < |stack| && stack[i] == gate
  }

  /** In a stack of keyword controls a check that succeeds is heard. */
  lemma {:induction false} KeywordsAreHeard(stack: seq<Entry>, answers: Answers, at: nat)
    requires AllKeywords(stack) && at < |stack| && IsGate(stack[at]) && Affirms(stack[at], answers)
    ensures !Unheard(stack, answers)
  {
    assert IsKeyword(stack[0]);
    if at > 0 {
      KeywordsAreHeard(stack[1..], answers, at - 1);
    }
  }

  /** Keyword stacks with copies of their own checks: success exactly when every
      check passes and the face matches or the stack itself succeeds. */
  lemma {:induction false} PatchedStackMeaning(gates: seq<Entry>, face: Entry, stack: seq<Entry>, answers: Answers)
    requires forall i :: 0 <= i < |gates| ==> IsGate(gates[i]) && HoldsCheck(stack, gates[i])
    requires AllKeywords(stack) && IsFace(face)
    ensures Succeeds(WithFace(gates, face, stack), answers)
       <==> (forall g :: g in gates ==> Clears(g, answers))
            && (Matches(face, answers) || (!Ends(face, answers) && Succeeds(stack, answers)))
  {
    PatchedStackExactly(gates, face, stack, answers);
    LetsInWithoutReset(gates, face, stack, answers);
    AllPassMeans(gates, answers);
    if AnySucceeds(gates, answers) {
      var g :| g in gates && Affirms(g, answers);
      assert HoldsCheck(stack, g);
      var i :| 0 <= i < |stack| && stack[i] == g;
      KeywordsAreHeard(stack, answers, i);
    }
  }

  /** For every stack at all, jumps, resets and substacks included: with the copied checks
      passing, whoever got in without the face line still does. */
  lemma {:induction false} PasswordKeepsWorking(gates: seq<Entry>, face: Entry, stack: seq<Entry>, answers: Answers)
    requires forall i :: 0 <= i < |gates| ==> IsGate(gates[i])
    requires forall g :: g in gates ==> Clears(g, answers)
    requires face.Entry? && face.control == FACE_LINE && Succeeds(stack, answers)
    ensures Succeeds(WithFace(gates, face, stack), answers)
  {
    ControlsDiffer();
    AllPassMeans(gates, answers);
    PatchedStackExactly(gates, face, stack, answers);
  }

  // ------------------------------------------------------------ where it fails

  const JUMP := Entry(Control(map["success" := Skip(1)], Pass), ["unix"])
  const RESET := Entry(Control(map["success" := Restart], Pass), ["env"])
  const CHECK := Entry(REQUIRED, ["nologin"])
  const PASSWORD := Entry(REQUIRED, ["unix"])
  const FACE := Entry(FACE_LINE, ["face"])

  /** A jump over a copied check: the stack is unheard, the copy is heard. */
  lemma {:induction false} JumpsBreakTheEquivalence()
    ensures var stack, answers := [JUMP, CHECK], AllBut(["face"]);
            && IsGate(CHECK) && HoldsCheck(stack, CHECK) && Passes(answers(CHECK.check)) && !Matches(FACE, answers)
            && !Succeeds(stack, answers) && Succeeds(WithFace([CHECK], FACE, stack), answers)
  {
    var stack, answers := [JUMP, CHECK], AllBut(["face"]);
    assert ["nologin"] != ["face"] && ["unix"] != ["face"] by {
      assert "nologin"[0] != "face"[0] && "unix"[0] != "face"[0];
    }
    assert stack[1] == CHECK && stack[1..] == [CHECK];
    assert [CHECK][1..] == [];
    assert Unheard(stack, answers);
    assert Run(stack, answers, START, START) == START;
    assert AllPass([CHECK], answers) && AnySucceeds([CHECK], answers);
    assert FACE.control == FACE_LINE;
    ControlsDiffer();
    PatchedStackExactly([CHECK], FACE, stack, answers);
  }

  /** A reset behind our block: a failed check is forgiven. */
  lemma {:induction false} ResetsForgiveAFailedCheck()
    ensures var stack, answers := [RESET, PASSWORD], AllBut(["nologin"]);
            IsGate(CHECK) && !Passes(answers(CHECK.check)) && Succeeds(WithFace([CHECK], FACE, stack), answers)
  {
    var stack, answers := [RESET, PASSWORD], AllBut(["nologin"]);
    assert ["env"] != ["nologin"] && ["unix"] != ["nologin"] && ["face"] != ["nologin"] by {
      assert "env"[0] != "nologin"[0] && "unix"[0] != "nologin"[0] && "face"[0] != "nologin"[0];
    }
    assert stack[1..] == [PASSWORD] && [PASSWORD][1..] == [];
    assert Succeeds([PASSWORD], answers) && Redeemed(stack, answers, false);
    assert [CHECK][1..] == [];
    ControlsDiffer();
    assert AnyDenies([CHECK], answers, REQUIRED) && !AnyDenies([CHECK], answers, REQUISITE);
    PatchedStackExactly([CHECK], FACE, stack, answers);
  }

  /** A gate whose module is not installed: nobody gets in, by face or password.
      The dash in front of the copy does not have it skipped. */
  lemma {:induction false} MissingGateDenies(gates: seq<Entry>, face: Entry, stack: seq<Entry>, answers: Answers,
                                             i: nat)
    requires (forall k :: 0 <= k < |gates| ==> IsGate(gates[k])) && IsFace(face) && NoRestart(stack)
    requires i < |gates| && gates[i].Entry? && answers(gates[i].check).Absent?
    ensures !Succeeds(WithFace(gates, face, stack), answers)
  {
    PatchedStackExactly(gates, face, stack, answers);
    LetsInWithoutReset(gates, face, stack, answers);
    assert gates[i] in gates;
  }

  /** At an input: the check's module is gone, the face matches, the stack would
      succeed, and the patched one does not. */
  lemma {:induction false} MissingGateCostsAccess()
    ensures var answers := Missing(["nologin"]);
            Matches(FACE, answers) && Succeeds([PASSWORD], answers)
              && !Succeeds(WithFace([CHECK], FACE, [PASSWORD]), answers)
  {
    var answers := Missing(["nologin"]);
    assert ["unix"] != ["nologin"] && ["face"] != ["nologin"] by {
      assert "unix"[0] != "nologin"[0] && "face"[0] != "nologin"[0];
    }
    assert [PASSWORD][1..] == [];
    assert REQUIRED.On("success") == Accept;
    assert NoRestart([PASSWORD]);
    MissingGateDenies([CHECK], FACE, [PASSWORD], answers, 0);
  }

  /** Every check succeeds except one whose module is not installed. */
  function Missing(check: seq<string>): Answers {
    c => if c == check then Absent else Code("success")
  }

  // ------------------------------------------------------- the face stack

  /** An entry that does not end the stack with a success; no substack does. */
  predicate CannotGrantEarly(e: Entry) {
    e.Substack? || e.control == REQUIRED || e.control == REQUISITE || e.control == OPTIONAL
  }

  /** Lines in front of the face-only line that grant nothing by themselves:
      the stack succeeds only with a match, whatever follows. */
  lemma {:induction false} OwnStackNeedsFace(front: seq<Entry>, own: Entry, behind: seq<Entry>, answers: Answers,
                                             v: Verdict)
    requires forall i :: 0 <= i < |front| ==> CannotGrantEarly(front[i])
    requires own.Entry? && own.control == OWN_FACE_LINE && answers(own.check) != Code("success")
    ensures !Granted(Run(front + ([own] + behind), answers, v, START))
    decreases |front|
  {
    var all := front + ([own] + behind);
    if front == [] {
      assert all == [own] + behind;
      assert all[0] == own;
    } else {
      var e := front[0];
      assert CannotGrantEarly(e) && all[0] == e;
      assert all[1..] == front[1..] + ([own] + behind);
      if e.Substack? {
        OwnStackNeedsFace(front[1..], own, behind, answers, Run(e.entries, answers, v, v));
      } else {
        var code := answers(e.check).Said();
        OwnStackNeedsFace(front[1..], own, behind, answers, v);
        OwnStackNeedsFace(front[1..], own, behind, answers, Noted(v, code));
        OwnStackNeedsFace(front[1..], own, behind, answers, Blamed(v, code));
      }
    }
  }

  /** Among keyword lines the condition is exact: one sufficient line in front
      of the face line lets someone in without a match. */
  lemma {:induction false} SufficientInFrontGrants(front: seq<Entry>, own: Entry, behind: seq<Entry>, at: nat,
                                                   v: Verdict)
    requires own.Entry? && forall i :: 0 <= i < |front| ==> IsKeyword(front[i]) && front[i].check != own.check
    requires at < |front| && IsSufficient(front[at]) && (v == START || Granted(v))
    ensures Granted(Run(front + ([own] + behind), AllBut(own.check), v, START))
  {
    var all, answers := front + ([own] + behind), AllBut(own.check);
    assert IsKeyword(front[0]) && all[0] == front[0] && front[0].check != own.check;
    assert all[1..] == front[1..] + ([own] + behind);
    if front[0].control != SUFFICIENT {
      assert at > 0;
      assert forall i :: 0 <= i < |front[1..]| ==> front[1..][i] == front[i + 1];
      SufficientInFrontGrants(front[1..], own, behind, at - 1, Verdict(Positive, "success"));
    }
  }

  /** Every check succeeds except one. */
  function AllBut(check: seq<string>): Answers {
    c => if c == check then Code("auth_err") else Code("success")
  }
}
