/** The PAM module's decision: what identify returns for every order in which
    its two tasks finish, and what a success for an elevation has behind it. */
module PamModule {
  import opened Outcomes
  import CW = ConfirmWindow
  import CR = ConfirmRuns
  import PamTargets

  const PAM_SUCCESS := 0
  const PAM_AUTH_ERR := 7
  const PAM_AUTHINFO_UNAVAIL := 9
  const PAM_IGNORE := 25
  const PAM_CONV_AGAIN := 30
  const PAM_INCOMPLETE := 31

  // The service's result codes
  const NO_FACE_MODEL := 10
  const TIMEOUT_REACHED := 11
  const ABORT := 12
  const INVALID_DEVICE := 14
  const NOT_CONFIRMED := 16
  const CONFIRM_PAUSED := 17
  const SKIPPED := 18
  const NOT_LOCAL := 19
  const CONFIRM_CONFLICT := 20
  const CANCELLED := 250

  const SESSION_SERVICES := ["kde", "kde-fingerprint", "kde-face", "kscreensaver", "plasmalogin", "sddm", "gdm-password",
                             "lightdm", "greetd", "xscreensaver", "swaylock", "hyprlock", "i3lock", "sddm-greeter"]

  datatype Workaround = Off | Input | Native
  datatype Status = Answered | TimedOut | Unavailable | Failed
  datatype Answer = Answer(status: Status, result: nat)
  datatype Kind = Unset | LinuxHello | Pam

  /** What the module finds when it is called: its arguments, the handle's items,
      the configuration, and what its library calls return. typed: the login
      screen's form holds a password; requester: the asking process is known. */
  datatype Call = Call(service: Option<string>, args: seq<string>, asksPassword: bool, formCode: nat, typed: bool,
                       configError: bool, userCode: nat, enabledCode: nat, conversationCode: nat,
                       confirmElevation: bool, workaround: Workaround, requester: bool)

  /** The two tasks reaching their locked section, with what each brings. */
  datatype Turn = FaceTurn | PasswordTurn

  predicate NeedsConfirmation(c: Call) {
    "no_password" !in c.args && c.confirmElevation && (c.service.None? || c.service.value !in SESSION_SERVICES)
  }

  predicate PasswordFirst(c: Call) {
    c.asksPassword && c.service.Some? && c.service.value in PamTargets.PASSWORD_FIRST_SERVICES
  }

  /** Everything before the face is asked went well; a typed password did not come first. */
  predicate GetsToFace(c: Call) {
    && (PasswordFirst(c) ==> c.formCode == PAM_SUCCESS && !c.typed)
    && !c.configError && c.userCode == PAM_SUCCESS && c.enabledCode == PAM_SUCCESS && c.conversationCode == PAM_SUCCESS
  }

  /** A password prompt runs next to the scan. */
  predicate AsksBoth(c: Call) {
    c.asksPassword && "no_password" !in c.args && !PasswordFirst(c) && c.workaround != Off
  }

  predicate Matched(a: Answer) {
    a.status == Answered && a.result == 0
  }

  /** linux_hello_error, the code only. */
  function ErrorCode(result: nat): (r: nat)
    ensures r != PAM_SUCCESS && r != PAM_IGNORE
  {
    if result == NO_FACE_MODEL || result == INVALID_DEVICE then PAM_AUTHINFO_UNAVAIL else PAM_AUTH_ERR
  }

  /** linux_hello_status, the code only. */
  function StatusCode(result: nat): (r: nat)
    ensures r == PAM_SUCCESS <==> result == 0
  {
    if result != 0 then ErrorCode(result) else PAM_SUCCESS
  }

  /** The services of a session: a screen that is locked or a login. */
  predicate IsSessionService(service: string) {
    service in {"kde", "kde-fingerprint", "kde-face", "kscreensaver", "plasmalogin", "sddm", "gdm-password", "lightdm",
                "greetd", "xscreensaver", "swaylock", "hyprlock", "i3lock", "sddm-greeter"}
  }

  /** Enter is asked for unless the caller or the configuration says otherwise or
      the service is a session's; so for sudo and for polkit. */
  lemma {:induction false} WhoIsAsked(c: Call)
    ensures NeedsConfirmation(c)
       <==> "no_password" !in c.args && c.confirmElevation && !(c.service.Some? && IsSessionService(c.service.value))
    ensures !IsSessionService("sudo") && !IsSessionService("sudo-i") && !IsSessionService("polkit-1")
    ensures !IsSessionService("su") && !IsSessionService("run0")
  {
    assert "sudo"[1] == 'u' && "sudo-i"[1] == 'u' && "su"[1] == 'u' && "run0"[0] == 'r';
    assert "polkit-1"[1] == 'o' && "plasmalogin"[1] == 'l';
    assert "sddm"[1] == 'd' && "swaylock"[1] == 'w' && "sddm-greeter"[1] == 'd' && "kde"[0] == 'k';
  }

  /** Without the password's prompt first: only at these two login screens. */
  lemma {:induction false} PasswordComesFirst(c: Call)
    ensures PasswordFirst(c) <==> c.asksPassword && (c.service == Some("plasmalogin") || c.service == Some("sddm"))
  {
  }

  /** A prompt for the password runs next to the scan unless the call may not ask,
      the login screen has the password already, or no workaround can end it. */
  lemma {:induction false} PromptRunsBeside(c: Call)
    ensures AsksBoth(c)
       <==> c.asksPassword && "no_password" !in c.args && c.workaround != Off
            && c.service != Some("plasmalogin") && c.service != Some("sddm")
  {
    PasswordComesFirst(c);
  }

  /** The codes: success for a match alone, no information (9) without a face model
      or camera, an authentication error (7) for everything else. */
  lemma {:induction false} CodesAre(result: nat)
    ensures StatusCode(result) == if result == 0 then 0 else if result == 10 || result == 14 then 9 else 7
  {
  }

  // ------------------------------------------------------------- the race

  /** The task that got to its locked section first; a password task that was
      never started takes no turn. */
  function First(turns: seq<Turn>, both: bool): Kind {
    if turns == [] then Unset
    else if turns[0] == FaceTurn then LinuxHello
    else if both then Pam
    else First(turns[1..], both)
  }

  /** The face is first exactly if it finishes before any password that is asked for. */
  lemma {:induction false} FirstMeans(turns: seq<Turn>, both: bool)
    ensures First(turns, both) == LinuxHello
       <==> exists i :: 0 <= i < |turns| && turns[i] == FaceTurn
                        && forall j :: 0 <= j < i ==> !(both && turns[j] == PasswordTurn)
    ensures First(turns, both) == Pam
       <==> exists i :: 0 <= i < |turns| && both && turns[i] == PasswordTurn
                        && forall j :: 0 <= j < i ==> turns[j] == PasswordTurn
    ensures First(turns, both) == Unset <==> forall i :: 0 <= i < |turns| ==> turns[i] == PasswordTurn && !both
  {
    if turns != [] {
      var rest := turns[1..];
      FirstMeans(rest, both);
      assert forall i :: 1 <= i < |turns| ==> turns[i] == rest[i - 1];
      if turns[0] == FaceTurn {
        assert First(turns, both) == LinuxHello;
      } else if both {
        assert First(turns, both) == Pam && turns[0] == PasswordTurn;
      } else {
        if i :| 0 <= i < |rest| && rest[i] == FaceTurn {
          assert turns[i + 1] == FaceTurn;
        }
      }
    }
  }

  /** confirmation_type, set under the mutex, and read when the wait is over. */
  class Race {
    var kind: Kind

    constructor ()
      ensures kind == Unset
    {
      kind := Unset;
    }

    /** A task's locked section. */
    method Take(mine: Kind)
      modifies this
      ensures kind == if old(kind) == Unset then mine else old(kind)
    {
      if kind == Unset {
        kind := mine;
      }
    }

    /** Both tasks run to the end of the schedule, the waiting thread looking at
        any moment: whatever it sees but Unset is what stays. */
    method Play(turns: seq<Turn>, both: bool) returns (seen: seq<Kind>)
      requires kind == Unset
      modifies this
      ensures kind == First(turns, both)
      ensures |seen| == |turns| && forall i :: 0 <= i < |seen| ==> seen[i] == First(turns[..i + 1], both)
      ensures forall i :: 0 <= i < |seen| ==> seen[i] == Unset || seen[i] == kind
    {
      seen := [];
      var i := 0;
      while i < |turns|
        invariant 0 <= i <= |turns| && |seen| == i && kind == First(turns[..i], both)
        invariant forall j :: 0 <= j < i ==> seen[j] == First(turns[..j + 1], both)
      {
        FirstAppend(turns[..i], turns[i], both);
        assert turns[..i] + [turns[i]] == turns[..i + 1];
        if turns[i] == FaceTurn {
          Take(LinuxHello);
        } else if both {
          Take(Pam);
        }
        seen := seen + [kind];
        i := i + 1;
      }
      assert turns[..i] == turns;
      forall j | 0 <= j < |seen| ensures seen[j] == Unset || seen[j] == kind {
        FirstStays(turns, j + 1, both);
      }
    }
  }

  lemma {:induction false} FirstAppend(turns: seq<Turn>, turn: Turn, both: bool)
    ensures First(turns + [turn], both)
         == if First(turns, both) != Unset then First(turns, both)
            else if turn == FaceTurn then LinuxHello else if both then Pam else Unset
  {
    if turns != [] {
      assert (turns + [turn])[1..] == turns[1..] + [turn];
      FirstAppend(turns[1..], turn, both);
    }
  }

  lemma {:induction false} FirstStays(turns: seq<Turn>, k: nat, both: bool)
    requires k <= |turns|
    ensures First(turns[..k], both) == Unset || First(turns[..k], both) == First(turns, both)
  {
    if k > 0 && turns[0] != FaceTurn && !both {
      assert turns[..k][1..] == turns[1..][..k - 1];
      FirstStays(turns[1..], k - 1, both);
    }
  }

  // ------------------------------------------------------------- the module

  /** needs_confirmation */
  method AsksForEnter(c: Call, noPassword: bool) returns (needed: bool)
    requires noPassword == ("no_password" in c.args)
    ensures needed == NeedsConfirmation(c)
  {
    if noPassword || !c.confirmElevation {
      return false;
    }
    if c.service.None? {
      return true;
    }
    var i := 0;
    while i < |SESSION_SERVICES|
      invariant 0 <= i <= |SESSION_SERVICES| && c.service.value !in SESSION_SERVICES[..i]
    {
      if SESSION_SERVICES[i] == c.service.value {
        return false;
      }
      i := i + 1;
    }
    return true;
  }

  /** identify_confirmed */
  method IdentifyConfirmed(c: Call, answer: Answer) returns (code: nat)
    ensures code == ConfirmedCode(c.requester, answer)
    ensures code == PAM_SUCCESS <==> c.requester && Matched(answer)
    ensures code == PAM_IGNORE <==>
      !c.requester || (answer.status == Answered
                       && answer.result in [SKIPPED, NOT_LOCAL, CONFIRM_CONFLICT, NOT_CONFIRMED, CONFIRM_PAUSED])
  {
    if !c.requester {
      return PAM_IGNORE;
    }
    if answer.status != Answered {
      return PAM_AUTHINFO_UNAVAIL;
    }
    if answer.result == 0 {
      code := StatusCode(answer.result);
    } else if answer.result in [SKIPPED, NOT_LOCAL, CONFIRM_CONFLICT, NOT_CONFIRMED, CONFIRM_PAUSED] {
      code := PAM_IGNORE;
    } else {
      code := ErrorCode(answer.result);
    }
  }

  /** identify succeeds exactly when everything before went well and either the
      confirmed verification answered a match, or no confirmation is needed,
      the scan's answer came before the password, and it was a match. */
  predicate Approved(c: Call, confirmed: Answer, scan: Answer, turns: seq<Turn>) {
    GetsToFace(c) &&
    if NeedsConfirmation(c) then c.asksPassword && c.requester && Matched(confirmed)
    else First(turns, AsksBoth(c)) == LinuxHello && Matched(scan)
  }

  /** The password task's answer is awaited and there: the prompt won, or the
      scan did without a match. */
  predicate TakesPassword(c: Call, scan: Answer, turns: seq<Turn>) {
    GetsToFace(c) && !NeedsConfirmation(c) && AsksBoth(c) && First(turns, true) != Unset &&
    (First(turns, true) == Pam || !Matched(scan))
  }

  /** What goes wrong, or comes first, before the face is asked for. */
  function BeforeFace(c: Call): Option<nat> {
    if PasswordFirst(c) && c.formCode == PAM_CONV_AGAIN then Some(PAM_INCOMPLETE)
    else if PasswordFirst(c) && (c.formCode != PAM_SUCCESS || c.typed) then Some(PAM_IGNORE)
    else if c.configError then Some(PAM_AUTHINFO_UNAVAIL)
    else if c.userCode != PAM_SUCCESS then Some(c.userCode)
    else if c.enabledCode != PAM_SUCCESS then Some(c.enabledCode)
    else if c.conversationCode != PAM_SUCCESS then Some(c.conversationCode)
    else None
  }

  /** A typed password goes on to the stack whatever the state of the rest (25, or
      31 while the form is still open); a broken configuration is no information (9). */
  lemma {:induction false} BeforeFaceMeans(c: Call)
    ensures BeforeFace(c).None? <==> GetsToFace(c)
    ensures PasswordFirst(c) && c.formCode == 30 ==> BeforeFace(c) == Some(31)
    ensures PasswordFirst(c) && c.formCode != 30 && (c.formCode != 0 || c.typed) ==> BeforeFace(c) == Some(25)
    ensures (PasswordFirst(c) ==> c.formCode == 0 && !c.typed) && c.configError ==> BeforeFace(c) == Some(9)
    ensures GetsToFace(c.(userCode := 0)) && c.userCode != 0 ==> BeforeFace(c) == Some(c.userCode)
    ensures GetsToFace(c.(enabledCode := 0)) && c.enabledCode != 0 ==> BeforeFace(c) == Some(c.enabledCode)
  {
  }

  /** The code of a scan that was first; password: what the prompt beside it brings. */
  function ScanCode(both: bool, scan: Answer, password: nat): nat {
    if Matched(scan) then PAM_SUCCESS
    else if both && password == PAM_SUCCESS then PAM_IGNORE
    else if !both && scan.status == Unavailable then PAM_AUTHINFO_UNAVAIL
    else if scan.status == Answered then StatusCode(scan.result)
    else PAM_AUTH_ERR
  }

  /** identify: confirmed and scan are what the service would answer, password
      what the prompt returns, turns the order in which the tasks finish. None
      is a call still waiting at the end of turns. */
  method Identify(c: Call, confirmed: Answer, scan: Answer, password: nat, turns: seq<Turn>) returns (code: Option<nat>)
    ensures code == Some(PAM_SUCCESS) <==> Approved(c, confirmed, scan, turns)
    ensures TakesPassword(c, scan, turns) && password == PAM_SUCCESS ==> code == Some(PAM_IGNORE)
    ensures PasswordFirst(c) && c.typed && c.formCode != PAM_CONV_AGAIN ==> code == Some(PAM_IGNORE)
    ensures code.None? <==> GetsToFace(c) && !NeedsConfirmation(c) && First(turns, AsksBoth(c)) == Unset
    ensures BeforeFace(c).Some? ==> code == BeforeFace(c)
    ensures BeforeFace(c).None? && NeedsConfirmation(c)
            ==> code == Some(if c.asksPassword then ConfirmedCode(c.requester, confirmed) else PAM_IGNORE)
    ensures BeforeFace(c).None? && !NeedsConfirmation(c) && First(turns, AsksBoth(c)) == Pam
            ==> code == Some(if password != PAM_SUCCESS then password else PAM_IGNORE)
    ensures BeforeFace(c).None? && !NeedsConfirmation(c) && First(turns, AsksBoth(c)) == LinuxHello
            ==> code == Some(ScanCode(AsksBoth(c), scan, password))
  {
    var noPassword := false;
    var i := 0;
    while i < |c.args|
      invariant 0 <= i <= |c.args| && noPassword == ("no_password" in c.args[..i])
    {
      if c.args[i] == "no_password" {
        noPassword := true;
      }
      i := i + 1;
    }
    assert c.args[..i] == c.args;

    var passwordFirst := c.asksPassword && c.service.Some? && c.service.value in PamTargets.PASSWORD_FIRST_SERVICES;
    if passwordFirst {
      if c.formCode == PAM_CONV_AGAIN {
        return Some(PAM_INCOMPLETE);
      }
      if c.formCode != PAM_SUCCESS || c.typed {
        return Some(PAM_IGNORE);
      }
    }
    if c.configError {
      return Some(PAM_AUTHINFO_UNAVAIL);
    }
    if c.userCode != PAM_SUCCESS {
      return Some(c.userCode);
    }
    if c.enabledCode != PAM_SUCCESS {
      return Some(c.enabledCode);
    }
    if c.conversationCode != PAM_SUCCESS {
      return Some(c.conversationCode);
    }
    var needed := AsksForEnter(c, noPassword);
    if needed {
      if !c.asksPassword {
        return Some(PAM_IGNORE);
      }
      var r := IdentifyConfirmed(c, confirmed);
      return Some(r);
    }

    var both := c.asksPassword && !noPassword && !passwordFirst && c.workaround != Off;
    var race := new Race();
    var seen := race.Play(turns, both);
    if race.kind == Unset {
      return None;
    }
    if race.kind == Pam {
      return Some(if password != PAM_SUCCESS then password else PAM_IGNORE);
    }
    var result := match scan.status
      case Answered => scan.result
      case TimedOut => TIMEOUT_REACHED
      case Unavailable => ABORT
      case Failed => ABORT;
    if both && result != 0 {
      return Some(if password != PAM_SUCCESS then StatusCode(result) else PAM_IGNORE);
    }
    if scan.status == Unavailable {
      return Some(PAM_AUTHINFO_UNAVAIL);
    }
    return Some(StatusCode(result));
  }

  // --------------------------------------------- both sides of the confirmation

  /** What the daemon's VerifyConfirmed answers at an event, if it ends the call. */
  function ReplyOf(e: CW.Event): Option<nat> {
    match e
    case Declined(_, _, check) =>
      if check == CW.OtherUser || check == CW.NotLocal then Some(NOT_LOCAL)
      else if check == CW.NoModels then Some(NO_FACE_MODEL) else None
    case TurnedAway(_, _, _, _) => Some(CONFIRM_PAUSED)
    case Clashed(_, _, _, _) => Some(CONFIRM_CONFLICT)
    case Replied(_, _, result) => if result >= 0 then Some(result) else None
    case Closed(_, _, ending, _, _) =>
      (match ending
       case Overlapped => Some(CONFIRM_CONFLICT)
       case Skipped => Some(SKIPPED)
       case Unconfirmed => Some(NOT_CONFIRMED)
       case Cancelled => Some(CANCELLED)
       case Scans => None
       case Failed => None)
    case Opened(_, _, _) => None
    case Idle => None
  }

  /** What identify_confirmed returns for an answer. */
  function ConfirmedCode(requester: bool, answer: Answer): nat {
    if !requester then PAM_IGNORE
    else if answer.status != Answered then PAM_AUTHINFO_UNAVAIL
    else if answer.result in [SKIPPED, NOT_LOCAL, CONFIRM_CONFLICT, NOT_CONFIRMED, CONFIRM_PAUSED] then PAM_IGNORE
    else StatusCode(answer.result)
  }

  /** What each event of the daemon becomes in the PAM stack: whatever refuses the
      face before a scan leaves the call to the password (25), the rest does not. */
  lemma {:induction false} RefusalsFallThrough(e: CW.Event, answer: Answer)
    requires answer.status == Answered && ReplyOf(e) == Some(answer.result)
    requires !e.Replied?
    ensures (e.Declined? || e.TurnedAway? || e.Clashed? || (e.Closed? && e.ending != CW.Scans && e.ending != CW.Failed))
    ensures ConfirmedCode(true, answer)
         == if e.Declined? && e.check == CW.NoModels then 9
            else if e.Closed? && e.ending == CW.Cancelled then 7
            else 25
  {
  }

  /** And a scan's own result: a match alone succeeds. */
  lemma {:induction false} ScanResultMeans(e: CW.Event, answer: Answer)
    requires answer.status == Answered && e.Replied? && ReplyOf(e) == Some(answer.result)
    ensures ConfirmedCode(true, answer) == 0 <==> e.result == 0
  {
  }

  /** The service's codes for them. */
  lemma {:induction false} ReplyCodes(e: CW.Event)
    ensures e.TurnedAway? ==> ReplyOf(e) == Some(17)
    ensures e.Clashed? || (e.Closed? && e.ending == CW.Overlapped) ==> ReplyOf(e) == Some(20)
    ensures e.Closed? && e.ending == CW.Skipped ==> ReplyOf(e) == Some(18)
    ensures e.Closed? && e.ending == CW.Unconfirmed ==> ReplyOf(e) == Some(16)
    ensures e.Closed? && e.ending == CW.Cancelled ==> ReplyOf(e) == Some(250)
    ensures e.Declined? && (e.check == CW.OtherUser || e.check == CW.NotLocal) ==> ReplyOf(e) == Some(19)
    ensures e.Declined? && e.check == CW.NoModels ==> ReplyOf(e) == Some(10)
    ensures e.Opened? || e.Idle? || (e.Closed? && e.ending == CW.Scans) ==> ReplyOf(e).None?
  {
  }

  /** The daemon answered the call, at one of its events. */
  predicate Answers(log: seq<CW.Event>, call: CW.Call, user: string, a: Answer) {
    a.status == Answered ==>
      exists k :: 0 <= k < |log| && !log[k].Idle? && log[k].call == call && log[k].user == user
                  && ReplyOf(log[k]) == Some(a.result)
  }

  /** With confirmation on, no no_password argument and a service that is not a
      session's, a success means: this call's own window saw Enter, no other
      request ran into it, and then the scan matched. */
  lemma {:induction false} ElevationNeedsEnter(c: Call, confirmed: Answer, scan: Answer, turns: seq<Turn>,
                                               inputs: seq<CR.Input>, call: CW.Call, user: string)
      returns (i: nat, j: nat, k: nat)
    requires c.confirmElevation && "no_password" !in c.args
             && (c.service.Some? ==> c.service.value !in SESSION_SERVICES)
    requires Approved(c, confirmed, scan, turns) && Answers(CR.Run(inputs).log, call, user, confirmed)
    ensures var log := CR.Run(inputs).log;
            i < j < k < |log| && CR.ConfirmedAt(log, call, user, i, j) && log[k] == CW.Replied(call, user, 0)
    ensures inputs[j].Answer? && inputs[j].pressed == CW.Enter && inputs[k] == CR.Scanned(call, 0)
  {
    var log := CR.Run(inputs).log;
    k :| 0 <= k < |log| && !log[k].Idle? && log[k].call == call && log[k].user == user && ReplyOf(log[k]) == Some(0);
    i, j := CR.ReplyWasConfirmed(inputs, k);
  }
}
