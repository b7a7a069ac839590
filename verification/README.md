# Linux Hello, verified

A Dafny model of the parts of Linux Hello that decide something: who gets in,
what is written into the system, and what a passkey client sees. It covers

- the rewriting of PAM service files (`linux-hello/src/integration/pam.py`), down
  to what the rewritten stacks mean to Linux-PAM (System Administrators' Guide,
  section 4.1, and pam.conf(5)): `Text`, `PamLines`, `PamBlocks`, `PamStack`,
  `PamMeaning`, `PamEnable`, `PamOwnStack`, `PamIncludes`;
- the PamIntegration object over a whole tree of files and its manifest:
  `PamCells`, `PamTargets`, `PamPlans`, `PamLogin`, `PamRuns`, `PamService`,
  `PamReset`;
- confirmed verification, in the daemon, in the key wait and in the PAM module:
  `ConfirmWindow`, `ConfirmRuns`, `EnterWait`, `PamModule`;
- the CTAPHID transport (CTAP 2.1, section 11.2): `HidFraming`, `HidRoundTrip`,
  `HidStream`, `HidDevice`;
- the passkey store and the authenticator's commands (CTAP 2.1, sections 6.1 to
  6.3): `CredentialStore`, `StoreRuns`, `Authenticator`, `AssertionCounts`;
- the infrared emitter's control payload and the search for it:
  `EmitterPayload`, `EmitterSearch`.

`dafny verify dfyconfig.toml` checks everything.

How it is built. Text functions are functions on strings. Loops, and objects
whose methods change their fields, are methods and classes, each proved against
a function of the old state; the theorems are lemmas about those functions.
Concurrency is a step machine: a run is any sequence of steps of any thread or
process, a step that its thread cannot take changes nothing, and every step
leaves one event in a log, so a statement about all runs is a statement about
all logs. Clock readings, answers of modules and of the camera, failing writes,
crashes and what other processes do are inputs.

Findings, where the code does not do what one would expect:

- `reset` can leave a file of its own in `/etc/pam.d`: a face-only service with a
  line of the module or a marked block on top of its header is cleaned into a file
  that starts with the header. `PamReset.HeaderCanComeBack` gives one,
  `PamReset.HeaderComesBack` says exactly when it happens.
- A check that a stack jumps over still counts when it is copied in front: a stack
  that comes to its end without a word that counts denies by itself and lets in
  behind a gate that succeeded. `PamStack.JumpsBreakTheEquivalence` gives one;
  `PamStack.PatchedStackExactly` and `PamStack.LetsInWithoutReset` say for every
  stack exactly who gets in.
- A reset in a stack forgives a copied check that failed in front of it
  (`PamStack.ResetsForgiveAFailedCheck`); `PamStack.LetsIn` says exactly when.
- The comment at `linux-hello/src/integration/pam.py:201-202` does not hold: a
  leading "-" only keeps Linux-PAM from logging the missing module, the entry still
  answers module_unknown. With the module of a gate copy gone nobody gets in, by
  face or by password (`PamStack.MissingGateDenies`,
  `PamStack.MissingGateCostsAccess`).
- `has_block` looks for the marker anywhere, `remove_block` only on a line of its
  own. With the marker inside a longer comment enabling succeeds, writes nothing
  and shows as enabled (`PamEnable.MarkerInAComment`); `PamEnable.InsertPlaces`
  says exactly when the block gets into its place.
- A service file without a newline at its end gains one for good:
  `PamEnable.InsertThenRemove`.
- `enable` saves the manifest behind its rollback: if that fails, the files are
  changed and the manifest does not know (`PamService.PamIntegration.TurnOn`,
  ending `Unsaved`); `disable` has no rollback at all.
- The bound of four misses a minute holds for 60 seconds with the end excluded.
  With the end included there can be five (`ConfirmRuns.FiveInAClosedMinute`), only
  with misses at both ends (`ConfirmRuns.MoreNeedsBothEnds`).
- A getAssertion that fails leaves the assertions of an earlier one waiting, and
  makeCredential and reset do so too: `Authenticator.WaitingChanges` says exactly
  what changes them, and `Authenticator.ResetKeepsWaiting` that an assertion of a
  destroyed credential still comes out.

## Model

| member | source | states |
|---|---|---|
| `PamStack.PatchedStackExactly` | `linux-hello/src/integration/pam.py:39-57` | For every stack at all (any bracket control, jumps, resets and substacks included) and every answer of its modules: with gate copies and the face entry in front, the Linux-PAM dispatch loop succeeds exactly when LetsIn holds, which speaks of the gates, the match and the stack by itself |
| `PamStack.LetsInWithoutReset` | `linux-hello/src/integration/pam.py:86-98` | For every stack without a reset, LetsIn is: every gate passes, and the face matches, or the attempt is not ended by a failed match at a login screen and the stack succeeds by itself, or is unheard by itself while a gate succeeds |
| `PamStack.PatchedStackMeaning` | `linux-hello/src/integration/pam.py:39-57` | So for required, requisite, sufficient and optional entries and copies of their own checks: exactly when every copied check passes and either the face matches or the stack succeeds by itself; at a login screen a failed match ends the attempt |
| `PamStack.PasswordKeepsWorking` | `linux-hello/src/integration/pam.py:39-41` | For every stack at all, jumps, resets and substacks included: whoever got in before still does once the copied checks pass |
| `PamStack.JumpsBreakTheEquivalence` | `linux-hello/src/integration/pam.py:86-98` | A stack with a jump over a copied check, unheard by itself, lets someone in once patched; PatchedStackExactly says when that happens |
| `PamStack.ResetsForgiveAFailedCheck` | `linux-hello/src/integration/pam.py:86-98` | A stack with a reset behind our block lets someone in although a copied check failed |
| `PamStack.MissingGateDenies` | `linux-hello/src/integration/pam.py:192-203` | Whenever the module of a gate copy is not installed, nobody gets in through a stack without resets, by face or by password |
| `PamStack.MissingGateCostsAccess` | `linux-hello/src/integration/pam.py:201-202` | At an input: the module is gone, the face matches and the stack by itself succeeds, yet the patched stack denies |
| `PamMeaning.InsertLineMeaning` | `linux-hello/src/integration/pam.py:39-41` | The inserted text line, read as pam.conf(5) reads it, is the entry with success=done and default=ignore for our module |
| `PamMeaning.KeywordsAreTables` | `linux-hello/src/integration/pam.py:86-98` | The four keywords are the tables pam.conf(5) gives for them |
| `PamMeaning.WalletLinesMean` | `linux-hello/src/integration/pam.py:34-36` | KWallet's lines: two optional auth entries, with remember_password and with kwallet, and one session line, which adds nothing to the auth stack |
| `PamMeaning.PatchedFileExactly` | `linux-hello/src/integration/pam.py:192-218` | The same, exactly, for the text insert_block writes into any service file (bracket controls, jumps, resets, includes and substacks of any service), newline-terminated or not |
| `PamMeaning.PatchedFileMeaning` | `linux-hello/src/integration/pam.py:192-218` | For a file whose auth stack is its own keyword lines: every check passes, and the face matches or the file as found lets them in; a failed match at a login screen ends the attempt |
| `PamEnable.GatesOfFlat` | `linux-hello/src/integration/pam.py:482-489` | In a flat file the gates found by the include walk are exactly those of its own lines |
| `PamEnable.EnablingMeans` | `linux-hello/src/integration/pam.py:663-684` | From the files on disk: enabling a target succeeds on every service file with a place for the block, and the file then in force lets in exactly those LetsIn names, with the checks of the include closure as gates and the file without our block as stack |
| `PamEnable.EnablingFlatFile` | `linux-hello/src/integration/pam.py:663-684` | On a flat file: exactly when the original's checks pass and the face matches or the original lets them in |
| `PamEnable.InsertPlaces` | `linux-hello/src/integration/pam.py:663-684` | A step that succeeds leaves the block in front of the first auth line exactly when the marker is not spelled anywhere in what remove_block leaves of the file |
| `PamEnable.MarkerInAComment` | `linux-hello/src/integration/pam.py:188-189` | A family of files, the marker behind a comment's first words: enabling succeeds, writes nothing, and the file has no block in place |
| `PamEnable.InsertThenRemove` | `linux-hello/src/integration/pam.py:206-246` | Inserting and removing the block restores a newline-terminated file byte for byte and ends any other in a newline |
| `PamLines.ChecksAreGates` | `linux-hello/src/integration/pam.py:86-98` | gate_line copies a line exactly when it is a required or requisite auth line of nologin, access, shells, securetty, listfile or time, or of faillock with preauth among its arguments |
| `Text.StripCharMeans` | `linux-hello/src/integration/pam.py:192-203` | lstrip takes off exactly the leading characters |
| `Text.BasenameMeans` | `linux-hello/src/integration/pam.py:192-203` | basename is what is behind the last slash |
| `Text.StripMeans` | `linux-hello/src/integration/pam.py:226-246` | strip takes off exactly the blanks on both sides |
| `PamLines.GateLineWords` | `linux-hello/src/integration/pam.py:192-203` | A gate copy is one line, with the words of the line it copies and "-auth" in front |
| `PamLines.GateLineIsNormal` | `linux-hello/src/integration/pam.py:192-203` | gate_line maps its own output to itself |
| `PamLines.GatesOfIsExact` | `linux-hello/src/integration/pam.py:482-489` | The collected gates are exactly the copies of those checks among the lines, without duplicates |
| `PamLines.CollectGates` | `linux-hello/src/integration/pam.py:482-489` | The collecting loop computes them |
| `PamLines.RemoveBlockPass` | `linux-hello/src/integration/pam.py:226-246` | The loop with its open block set aside computes the lines outside blocks; an unterminated block gives back its foreign lines |
| `PamBlocks.PatchedInsert` | `linux-hello/src/integration/pam.py:206-218` | Inserting the face block gives the same file with and without KWallet's blocks in it |
| `PamBlocks.PatchedWallet` | `linux-hello/src/integration/pam.py:264-275` | Adding KWallet's blocks gives the same file with and without the face block in it |
| `PamBlocks.PatchedRemove` | `linux-hello/src/integration/pam.py:226-246` | Removing one target's blocks from any combination leaves exactly the other's, byte for byte |
| `PamBlocks.ReleasedInsert` | `linux-hello/src/integration/pam.py:253-261` | insert_wallet_release puts its block in front of the first auth line and nothing else changes |
| `PamBlocks.RemoveFromUnmarked` | `linux-hello/src/integration/pam.py:226-246` | A text without markers comes through remove_block unchanged |
| `PamBlocks.BlockCutShort` | `linux-hello/src/integration/pam.py:242-245` | Without its END line a block costs nothing that is not ours: all that follows the marker stays but for lines of the module |
| `PamBlocks.OursMeans` | `linux-hello/src/integration/pam.py:221-223` | A line is ours when the file name of its module is, in whatever directory |
| `PamOwnStack.BuildOwnStack` | `linux-hello/src/integration/pam.py:283-321` | The loop with its placed flag computes the face-only service, or refuses a source without an auth section |
| `PamOwnStack.OwnBodyKeepsOthers` | `linux-hello/src/integration/pam.py:283-321` | All non-auth lines but the header stay, in order |
| `PamOwnStack.OwnBodyShape` | `linux-hello/src/integration/pam.py:297-321` | The body is the source up to the first line not taken over, our line in its place, and behind it only what is kept |
| `PamOwnStack.OwnBodyHasOneOfOurs` | `linux-hello/src/integration/pam.py:297-321` | A source without our module gives a body with exactly one line of it |
| `PamOwnStack.OwnBodyExactly` | `linux-hello/src/integration/pam.py:297-321` | The built stack has our line and exactly the lines taken over: all but headers and auth lines, and of the fingerprint stack the auth lines of modules other than pam_fprintd.so and pam_permit.so |
| `PamOwnStack.OwnBodyRefusedExactly` | `linux-hello/src/integration/pam.py:297-321` | It is refused exactly when every auth line of the source is such a protective one |
| `PamOwnStack.FaceStackNeedsFace` | `linux-hello/src/integration/pam.py:50-52` | If the entries in front of our line are required, requisite, optional or substacks, whatever services are included, the built stack never succeeds without a match, whatever the modules answer |
| `PamOwnStack.FaceStackNeedsFaceExactly` | `linux-hello/src/integration/pam.py:102-104` | Among keyword lines that condition is exact: it fails for every source with a sufficient line in front of ours |
| `PamIncludes.WalkIsExact` | `linux-hello/src/integration/pam.py:457-480` | On every include graph, cyclic ones too, with at most eight files to follow: the walk follows exactly the reachable files, each once, and finds exactly their auth lines |
| `PamIncludes.GatesAreExact` | `linux-hello/src/integration/pam.py:457-489` | So the gates are exactly the normalised checks of the include closure, each once |
| `PamIncludes.ItemMeans` | `linux-hello/src/integration/pam.py:457-480` | By the words of a line: it leads to the service it includes or has as a substack, if that is found; it is an auth line of its own if it does neither |
| `PamIncludes.ChainIsCut` | `linux-hello/src/integration/pam.py:99-100` | Of a chain of includes exactly the first eight are followed |
| `PamPlans.AuthLineMeans` | `linux-hello/src/integration/pam.py:161-185` | By the words of a line: _is_auth_line finds auth lines and common-auth included |
| `PamCells.InsertCell` | `linux-hello/src/integration/pam.py:663-684` | Turning the face block on works exactly when the service has an auth line, whatever other blocks are in the file, and records how the file came to be |
| `PamCells.RememberCell` | `linux-hello/src/integration/pam.py:731-753` | The same for KWallet's blocks in the login service |
| `PamCells.ReleaseCell` | `linux-hello/src/integration/pam.py:731-753` | The same for the block in the auto-login service |
| `PamCells.RevertCell` | `linux-hello/src/integration/pam.py:825-881` | Reverting some blocks leaves exactly the others; with none left the file is as found, or gone if it was a copy |
| `PamCells.OptionCell` | `linux-hello/src/integration/pam.py:709-729` | Turning the lock screen's option on appends its block with the right separator, once |
| `PamCells.RevertOptionCell` | `linux-hello/src/integration/pam.py:825-881` | Reverting the option restores the configuration byte for byte, separator included, or removes a file we made |
| `PamCells.RevertedExactly` | `linux-hello/src/integration/pam.py:825-881` | Exactly when reverting removes a file (a copy only as we wrote it, one we made also when only blanks are left), and what it leaves otherwise |
| `PamLogin.DropInNames` | `linux-hello/src/integration/pam.py:797-823` | The drop-in written for a user names exactly that user when it is read back |
| `PamLogin.NamesFit` | `linux-hello/src/integration/pam.py:136-136` | A user name accepted for it is one word that can add no line, key or comment, and not root |
| `PamLogin.NamesThatFit` | `linux-hello/src/integration/pam.py:136-136` | And every such word is accepted |
| `PamLogin.ForgottenExactly` | `linux-hello/src/integration/pam.py:773-795` | After the user is forgotten the login configuration does not name them; one that names nobody, and every other file, stays |
| `PamLogin.ForgottenKeeps` | `linux-hello/src/integration/pam.py:773-795` | Every line that does not name the user stays |
| `PamLogin.LastNamedCounts` | `linux-hello/src/integration/pam.py:143-154` | Of several users named in the group the last one counts |
| `PamLogin.ResetForgetsUser` | `linux-hello/src/integration/pam.py:606-613` | After reset there is no drop-in and the login configuration does not name its user |
| `PamPlans.EnableAdmin` | `linux-hello/src/integration/pam.py:431-432` | enable admin, by name: only polkit-1's file changes, it then has the face block, and exactly when it is refused |
| `PamPlans.EnableSudo` | `linux-hello/src/integration/pam.py:433-439` | enable sudo, by name: only the files of sudo and sudo-i change; sudo has the block if it is found, sudo-i exactly if it is found and sudo is not both found and pulled in by it; and exactly when it is refused |
| `PamPlans.EnableLogin` | `linux-hello/src/integration/pam.py:440-444` | enable login, by name: plasmalogin, else sddm, with the line that waits for an empty password; and exactly when it is refused |
| `PamPlans.EnableLockScreen` | `linux-hello/src/integration/pam.py:427-430` | enable lock-screen, by name: with a greeter that knows it and a stack to make it from, the kde-face service and the lock screen's option, else kde; and exactly when it is refused |
| `PamPlans.EnableAutoLogin` | `linux-hello/src/integration/pam.py:445-455` | enable auto-login, by name: KWallet's blocks in plasmalogin-autologin and plasmalogin, and the drop-in naming the user; and exactly when it is refused |
| `PamPlans.FaceIsIn` | `linux-hello/src/integration/pam.py:663-684` | The marker is then in the file the service is read from, and, if it was nowhere else, the block with the gates of that file in front of the first auth line |
| `PamPlans.DisableAdmin` | `linux-hello/src/integration/pam.py:576-598` | disable admin, by name: polkit-1's file is reverted, nothing else |
| `PamPlans.DisableSudo` | `linux-hello/src/integration/pam.py:576-598` | disable sudo, by name |
| `PamPlans.DisableLogin` | `linux-hello/src/integration/pam.py:576-598` | disable login, by name |
| `PamPlans.DisableLockScreen` | `linux-hello/src/integration/pam.py:576-598` | disable lock-screen, by name; keep_kde_config leaves the option |
| `PamPlans.DisableAutoLogin` | `linux-hello/src/integration/pam.py:576-598` | disable auto-login, by name, whether or not the login manager is still there: no drop-in, its user forgotten, KWallet's blocks reverted |
| `PamRuns.FilesFollowTargets` | `linux-hello/src/integration/pam.py:535-598` | After any two runs of enable and disable over the five targets that leave the same targets on, every file is the same |
| `PamRuns.RunsRestoreTheTree` | `linux-hello/src/integration/pam.py:535-598` | A run that ends with no target on restores the whole tree, the file two targets share included, and empties the manifest |
| `PamService.PamIntegration.TurnOn` | `linux-hello/src/integration/pam.py:535-574` | enable, for every failing step, every point of failure in it and a failing save of the manifest: the whole plan is done and recorded; or every file and what the manifest records are as before the call; or, if only the save failed, the plan is done and the manifest as before; without failures it is refused exactly as PamPlans says, and no path outside the target's own changes |
| `PamService.PamIntegration.PutBack` | `linux-hello/src/integration/pam.py:558-566` | The except branch restores every path from any state that differs only on the plan's paths |
| `PamService.PamIntegration.TurnOff` | `linux-hello/src/integration/pam.py:576-598` | disable reverts the plan item by item; failing in front of any item it stays where it is, and the manifest changes only at the end; an unparsable manifest stops it before anything changes; without failures it completes, and no path outside the target's own changes |
| `PamService.PamIntegration.Reset` | `linux-hello/src/integration/pam.py:600-660` | reset, step by step, brings every path to what ResetAt says, whatever the manifest held |
| `PamReset.ResetLeavesNothing` | `linux-hello/src/integration/pam.py:600-660` | After reset the drop-in is gone, no file left in /etc/pam.d has a line of the module, and a file starts with our header exactly when HidesHeader holds of it |
| `PamReset.CleanedHasNone` | `linux-hello/src/integration/pam.py:221-223` | A cleaned file has no line whose module is ours, found through the two different tests the code makes (substring and parsed module) |
| `PamReset.CleanedIsLeft` | `linux-hello/src/integration/pam.py:226-246` | The two passes of reset drop exactly the lines that go: of the module, markers, and lines of a block that has its END |
| `PamReset.HeaderComesBack` | `linux-hello/src/integration/pam.py:636-645` | Exactly when reset leaves a file that starts with our header: the first two lines that stay are that header behind lines that go |
| `PamReset.HeaderIsHiddenOnTop` | `linux-hello/src/integration/pam.py:636-645` | That takes a marker or a line of the module among the first two lines |
| `PamReset.HeaderBehindOwnLine` | `linux-hello/src/integration/pam.py:636-645` | Every line of the module in front of our header is such a file |
| `PamReset.HeaderCanComeBack` | `linux-hello/src/integration/pam.py:636-645` | Such files exist: reset does not remove every file of ours |
| `PamReset.ResetRestoresOption` | `linux-hello/src/integration/pam.py:646-657` | reset brings the lock screen's configuration back byte for byte |
| `PamReset.ResetTakesOptionOff` | `linux-hello/src/integration/pam.py:646-657` | Also with its record lost the option comes off, and a file that holds nothing else goes |
| `ConfirmWindow.Manager.ConfirmMissed` | `linux-hello/src/daemon/manager.py:289-301` | The method keeps the misses less than a minute old, adds this one, and at the third starts a pause |
| `ConfirmWindow.Manager.Ask` | `linux-hello/src/daemon/manager.py:225-264` | The part of verify_confirmed up to its window, its refusals in front of the pause check included, as the step function of the runs |
| `ConfirmWindow.Manager.Answer` | `linux-hello/src/daemon/manager.py:270-287` | The part behind the window, as the step function of the runs |
| `ConfirmRuns.AnswerExactly` | `linux-hello/src/daemon/manager.py:266-287` | In every run, from its inputs: an answer closes the open window, disturbed exactly if another request that fits and was not turned away came in between; else it is a miss exactly for typing and for no key, skipped exactly for Esc, cancelled or scanning exactly for Enter |
| `ConfirmRuns.AnswerToNothing` | `linux-hello/src/daemon/manager.py:266-287` | Without an open window an answer finds nothing |
| `ConfirmRuns.RequestExactly` | `linux-hello/src/daemon/manager.py:225-264` | In every run: a request is declined exactly if it does not fit, turned away exactly while a pause of its user lasts, else clashes exactly with an open window, else opens one |
| `ConfirmRuns.NoWindowWhilePaused` | `linux-hello/src/daemon/manager.py:251-265` | In every run: no Enter window opens for a user while any earlier pause of theirs lasts |
| `ConfirmRuns.PausesGrow` | `linux-hello/src/daemon/manager.py:289-301` | A miss starts a pause exactly when two more since the last pause or confirmed Enter are less than a minute old, and the k-th pause in a row lasts min(60 * 2^(k-1), 3600) seconds |
| `ConfirmRuns.PauseLengths` | `linux-hello/src/daemon/manager.py:45-53` | 60, 120, 240, 480, 960, 1920 seconds, then 3600 each |
| `ConfirmRuns.RecentMeans` | `linux-hello/src/daemon/manager.py:289-291` | The misses counted are those less than 60 seconds old, each as often as it was noted |
| `ConfirmRuns.FewMissesAMinute` | `linux-hello/src/daemon/manager.py:42-53` | Any 60 seconds (end excluded) without a confirmed Enter hold at most four misses of a user, and four only when the third ran into a window of theirs whose end is the fourth |
| `ConfirmRuns.FourMissesHappen` | `linux-hello/src/daemon/manager.py:42-53` | The bound of four is reached: a run with four misses at one moment |
| `ConfirmRuns.FiveInAClosedMinute` | `linux-hello/src/daemon/manager.py:289-301` | Five are reached in a minute with its end included: that run continued at second 60 |
| `ConfirmRuns.MoreNeedsBothEnds` | `linux-hello/src/daemon/manager.py:289-301` | More than four in such a minute take a miss at its very start and one at its very end |
| `ConfirmRuns.ThreeWithoutOverlap` | `linux-hello/src/daemon/manager.py:42-53` | At most three when no two requests overlap |
| `ConfirmRuns.WindowsAreDisjoint` | `linux-hello/src/daemon/manager.py:256-272` | Between two openings the first window closes |
| `ConfirmRuns.ScanHasItsWindow` | `linux-hello/src/daemon/manager.py:266-287` | Every scan has its own window, which saw Enter, was not cancelled, and no other request reached the window check meanwhile |
| `ConfirmRuns.ReplyWasConfirmed` | `linux-hello/src/daemon/manager.py:266-287` | So has every answer of a scan |
| `PamModule.AsksForEnter` | `linux-hello/src/pam/main.cc:234-251` | Confirmation is needed exactly without no_password, with confirm_elevation, for a service that is unknown or not a session's |
| `PamModule.WhoIsAsked` | `linux-hello/src/pam/main.cc:234-251` | By name: not for the fourteen session services; for sudo, sudo-i, su, run0 and polkit-1 |
| `PamModule.PasswordComesFirst` | `linux-hello/src/pam/main.cc:253-265` | Only plasmalogin and sddm wait for an empty password |
| `PamModule.PromptRunsBeside` | `linux-hello/src/pam/main.cc:578-592` | When a password prompt runs next to the scan |
| `PamModule.BeforeFaceMeans` | `linux-hello/src/pam/main.cc:453-490` | What ends the call before the face is asked for, and with which code; a typed password goes on to the stack whatever else fails |
| `PamModule.FirstMeans` | `linux-hello/src/pam/main.cc:542-592` | The face is first exactly if it finishes before any password that is asked for |
| `PamModule.RefusalsFallThrough` | `linux-hello/src/pam/main.cc:356-426` | Whatever the daemon answers before a scan falls through to the password, but a missing face model (9) and a cancelled request (7) |
| `PamModule.ReplyCodes` | `linux-hello/src/daemon/manager.py:225-287` | The result codes the daemon answers with, by number |
| `PamModule.ScanResultMeans` | `linux-hello/src/pam/main.cc:123-130` | Of a scan's own results 0 alone succeeds |
| `PamModule.CodesAre` | `linux-hello/src/pam/main.cc:77-130` | 9 without a face model or camera, 7 for everything else but a match |
| `PamModule.IdentifyConfirmed` | `linux-hello/src/pam/main.cc:356-426` | PAM_SUCCESS exactly on an answered match for a known requester; PAM_IGNORE exactly for the refusals |
| `PamModule.Race.Play` | `linux-hello/src/pam/main.cc:542-592` | For every order of the two tasks, what the waiting thread sees but Unset is the first task to reach its locked section, and stays |
| `PamModule.Identify` | `linux-hello/src/pam/main.cc:437-713` | identify returns PAM_SUCCESS exactly when everything before went well and the confirmed verification matched, or none was needed and the scan's answer came first and matched; a typed password is passed on with PAM_IGNORE |
| `PamModule.ElevationNeedsEnter` | `linux-hello/src/pam/main.cc:523-529` | Both sides together: with confirm_elevation, no no_password and no session service, success means this call's own undisturbed window saw Enter and then the scan matched |
| `EnterWait.WaitForEnter` | `linux-hello/src/daemon/confirm.py:131-172` | The three nested loops return the verdict of a fold over the filtered presses, for every split of the data over rounds, devices and reads, cut events and failing reads included |
| `EnterWait.JudgeMeans` | `linux-hello/src/daemon/confirm.py:158-169` | That verdict: ENTER or SKIP as the first press or behind one other key, TYPING at two other keys, else NOTHING |
| `EnterWait.PressInBytes` | `linux-hello/src/daemon/confirm.py:149-158` | A press in the 24 bytes of an event: type 1, value 1, code below 256; holding and letting go are none |
| `EnterWait.KeysAre` | `linux-hello/src/daemon/confirm.py:158-169` | 28 and 96 are Enter, 1 is Esc, all else other keys |
| `EnterWait.VerdictOnEvent` | `linux-hello/src/daemon/confirm.py:149-169` | One event alone, in its bytes: Enter for 28 and 96 let down, Skip for 1, else nothing |
| `EnterWait.EventsOfPacked` | `linux-hello/src/daemon/confirm.py:50-52` | Packed events read back |
| `EnterWait.SplittingDoesNotMatter` | `linux-hello/src/daemon/confirm.py:153-168` | However whole events are split, the events processed are those sent, in order |
| `HidFraming.SendMessage` | `linux-hello/src/webauthn/ctaphid.py:269-289` | The loop writes the frames of the message |
| `HidFraming.InitFrameReads` | `linux-hello/src/webauthn/ctaphid.py:277-280` | The fields of a first frame read back |
| `HidFraming.ContFrameReads` | `linux-hello/src/webauthn/ctaphid.py:285-287` | The fields of a continuation frame read back, its number modulo 128 |
| `HidFraming.FirstReport` | `linux-hello/src/webauthn/ctaphid.py:277-280` | Every byte of a first report: channel, command with its top bit, length, 57 bytes of data, zeros |
| `HidFraming.FieldsInBytes` | `linux-hello/src/webauthn/ctaphid.py:95-110` | Channel and length are read big endian |
| `HidFraming.DataLies` | `linux-hello/src/webauthn/ctaphid.py:269-289` | Where each byte of a message lies: 57 in the first report, 59 in each of the others, numbered from 0 on |
| `HidFraming.HidReader.FeedReport` | `linux-hello/src/webauthn/ctaphid.py:95-155` | feed_report and its handlers compute Feed, for reports of every length |
| `HidFraming.NewChannel` | `linux-hello/src/webauthn/ctaphid.py:163-186` | INIT on the broadcast channel tells the host, with its nonce, the number of a channel that is new, allocated and idle from then on |
| `HidFraming.ResyncedChannel` | `linux-hello/src/webauthn/ctaphid.py:163-186` | INIT on a channel cancels its command without a reply, drops what it was assembling and tells the host the same number |
| `HidFraming.FirstFrameOf` | `linux-hello/src/webauthn/ctaphid.py:107-135` | Other first frames: refused on an unallocated channel; a cancel always passes; the rest not while another channel's command runs |
| `HidRoundTrip.NumbersAreNew` | `linux-hello/src/webauthn/ctaphid.py:163-186` | In every run from a fresh device no two such INITs are told the same number |
| `HidRoundTrip.RoundTrip` | `linux-hello/src/webauthn/ctaphid.py:95-155` | Fed back in any interleaving with other channels' reports, the frames of a message end in exactly one action on their channel: the message whole for every length up to 57 + 128 * 59, ERR_INVALID_SEQ for every longer one; the channel ends idle |
| `HidRoundTrip.RunProjects` | `linux-hello/src/webauthn/ctaphid.py:95-155` | What happens on a channel depends on its own reports alone |
| `HidStream.StreamIsWhole` | `linux-hello/src/webauthn/ctaphid.py:269-289` | In every schedule of sending threads the report stream is whole messages in lock order, then the first reports of the one being sent |
| `HidStream.HostReceives` | `linux-hello/src/webauthn/ctaphid.py:80-84` | A host that reassembles the stream gets back exactly the completed messages, in lock order, for payloads within the frame limit |
| `HidDevice.SharedFields.StartCbor` | `linux-hello/src/webauthn/ctaphid.py:213-221` | The locked section that accepts a command, or refuses it while one runs, as the step machine has it |
| `HidDevice.SharedFields.CancelActive` | `linux-hello/src/webauthn/ctaphid.py:258-265` | The locked section of a cancel reaches only the active channel |
| `HidDevice.SharedFields.Free` | `linux-hello/src/webauthn/ctaphid.py:238-247` | The locked section at the end decides whether to answer and frees the device |
| `HidDevice.OneCommandAtATime` | `linux-hello/src/webauthn/ctaphid.py:208-242` | In every interleaving at most one authenticator command runs |
| `HidDevice.AcceptedExactly` | `linux-hello/src/webauthn/ctaphid.py:208-221` | In every schedule a command is accepted exactly when it is not empty and no request accepted earlier still has the device, with a number never used before; else 0x03 or 0x06 |
| `HidDevice.CancelExactly` | `linux-hello/src/webauthn/ctaphid.py:258-265` | In every schedule a cancel reaches a request exactly when it comes on the channel of the request that has the device |
| `HidDevice.ReleasedBehindCommand` | `linux-hello/src/webauthn/ctaphid.py:228-242` | The device is given back behind the end of the command, and no keepalive of the request follows |
| `HidDevice.OneKeepaliveBehind` | `linux-hello/src/webauthn/ctaphid.py:223-256` | Behind the end of its command a request has one more keepalive at most |
| `HidDevice.OneResponse` | `linux-hello/src/webauthn/ctaphid.py:238-251` | A finished request has exactly one response, or none exactly when the last cancel to reach it was an INIT re-sync; an unfinished one has none |
| `HidDevice.NothingAfterResponse` | `linux-hello/src/webauthn/ctaphid.py:223-256` | Keepalives and the response lie behind the acceptance, on its channel, and never behind the response |
| `CredentialStore.AddedKeeps` | `linux-hello/src/webauthn/store.py:117-127` | Adding a fresh credential keeps one per relying party and user handle; exactly those with both its relying party and its handle go |
| `CredentialStore.IncrementedKeeps` | `linux-hello/src/webauthn/store.py:152-159` | Incrementing raises one count by one and changes no other |
| `CredentialStore.RemovedKeeps` | `linux-hello/src/webauthn/store.py:161-169` | Removing takes one credential and changes no other |
| `CredentialStore.NewestFirstIsStableSort` | `linux-hello/src/webauthn/store.py:135-144` | find_for_rp's order: newest first, a permutation, equally old ones in their order |
| `CredentialStore.Store.Add` | `linux-hello/src/webauthn/store.py:117-127` | add reloads, replaces and saves; a failed save leaves the file |
| `CredentialStore.Store.IncrementCounter` | `linux-hello/src/webauthn/store.py:146-159` | increment_counter returns a count exactly when it is on disk |
| `CredentialStore.Store.Remove` | `linux-hello/src/webauthn/store.py:161-169` | remove answers whether the credential was there, and saves only then |
| `StoreRuns.OnePerAccount` | `linux-hello/src/webauthn/store.py:117-127` | In every interleaving of processes and crashes the file holds one credential per relying party and user handle |
| `StoreRuns.FileChangesExactly` | `linux-hello/src/webauthn/store.py:117-181` | In every run the file changes only when a process in the lock renames, and then exactly as its operation says: an Add drops only what has both its relying party and its handle |
| `StoreRuns.LockIsFreed` | `linux-hello/src/webauthn/store.py:72-115` | The lock is given back when a save fails, a count is returned, there is nothing to change or its holder crashes, and by nobody else; none of these touches the file |
| `StoreRuns.CountsIncrease` | `linux-hello/src/webauthn/store.py:146-159` | The counts written for one credential strictly increase in commit order |
| `StoreRuns.ReturnsIncrease` | `linux-hello/src/webauthn/store.py:146-159` | The counts returned strictly increase: a crash may skip one and never repeats one |
| `StoreRuns.CountIsGivenOut` | `linux-hello/src/webauthn/store.py:146-159` | From every reachable state with the lock free, an undisturbed increment gives out the next count |
| `StoreRuns.ReturnedWasWritten` | `linux-hello/src/webauthn/store.py:149-159` | A returned count was committed before, by the same process |
| `Authenticator.Device.MakeCredential` | `linux-hello/src/webauthn/authenticator.py:182-263` | make_credential from its exclude list on: verification before anything is disclosed or made |
| `Authenticator.Device.GetAssertion` | `linux-hello/src/webauthn/authenticator.py:265-311` | get_assertion, silent or verified; a counter that cannot be written ends it and keeps the older waiting assertions |
| `Authenticator.Device.GetNextAssertion` | `linux-hello/src/webauthn/authenticator.py:350-361` | get_next_assertion within its window, and after it |
| `Authenticator.EveryUseIsVerified` | `linux-hello/src/webauthn/authenticator.py:99-105` | In every run of commands each new key comes from a command whose own verification succeeded, and each verified assertion from a getAssertion for its relying party whose own did, handed out then or later |
| `Authenticator.CeremonyReturnsEach` | `linux-hello/src/webauthn/authenticator.py:303-361` | getAssertion then getNextAssertion within the window, with any commands in between that begin no new ceremony, failing verified getAssertions included: each matched credential comes out once, in order, exactly as its getAssertion made it, with their number on the first only; then NOT_ALLOWED |
| `Authenticator.NothingIsDisclosed` | `linux-hello/src/webauthn/authenticator.py:212-228` | makeCredential without a verification answers the same for every list and exclude list, and changes nothing |
| `Authenticator.MadeExactly` | `linux-hello/src/webauthn/authenticator.py:212-263` | A verified one is refused exactly when the exclude list has a credential of the same relying party; else it is in the file unless that cannot be saved |
| `Authenticator.ResetExactly` | `linux-hello/src/webauthn/authenticator.py:364-371` | A reset in time and verified empties the store, any other does nothing |
| `AssertionCounts.AnsweredExactly` | `linux-hello/src/webauthn/authenticator.py:265-311` | What getAssertion answers in each case, with CTAP's codes; an assertion exactly when every counter can be written |
| `AssertionCounts.CountsAreNext` | `linux-hello/src/webauthn/authenticator.py:324-348` | A verified getAssertion answers for every match with the counter one above that in the file its increment finds, the user handle exactly without an allow list, and the names exactly when there is also more than one match |
| `AssertionCounts.CountsAreOnDisk` | `linux-hello/src/webauthn/authenticator.py:324-330` | With distinct ids and nobody else at the file, every counter handed out is the one in the file left behind |
| `AssertionCounts.CountsRise` | `linux-hello/src/webauthn/authenticator.py:324-330` | In every run in which nobody puts back a lower one: in the order they are made, the counters of one credential strictly rise |
| `AssertionCounts.CountersMoveOn` | `linux-hello/src/webauthn/authenticator.py:324-361` | So do those handed out, by getAssertion or later by getNextAssertion: the later getAssertion has the higher counter |
| `Authenticator.WaitingChanges` | `linux-hello/src/webauthn/authenticator.py:303-361` | What waits changes with a getNextAssertion that finds something and with a new ceremony, and with no other command in no other state |
| `Authenticator.NextExactly` | `linux-hello/src/webauthn/authenticator.py:350-361` | getNextAssertion within 30 seconds of the last one hands out the next, later there is none any more |
| `Authenticator.ResetKeepsWaiting` | `linux-hello/src/webauthn/authenticator.py:350-361` | After a reset getNextAssertion still hands out an assertion of a destroyed credential |
| `Authenticator.MatchesAreExact` | `linux-hello/src/webauthn/store.py:135-144` | The matches are exactly the allowed credentials of the relying party, no id twice, newest first |
| `Authenticator.SilentChangesNothing` | `linux-hello/src/webauthn/authenticator.py:292-322` | The silent form changes no counter and nothing else, and its answer claims no verification |
| `EmitterPayload.ParseFaceAuth` | `linux-hello/src/emitter.py:46-69` | The loop parses as many entries as the payload counts, never past its end |
| `EmitterPayload.ParsedAt` | `linux-hello/src/emitter.py:46-69` | The i-th entry in closed form: its interface byte, then its flags, little endian |
| `EmitterPayload.LittleMeans` | `linux-hello/src/emitter.py:46-69` | Little endian: the first byte counts least |
| `EmitterPayload.WantedMeans` | `linux-hello/src/emitter.py:72-90` | The mode of bit 1 comes before that of bit 2 |
| `EmitterPayload.SupportedIsLast` | `linux-hello/src/emitter.py:72-90` | What an interface supports is what its last entry in the maximum says |
| `EmitterPayload.FaceAuthTarget` | `linux-hello/src/emitter.py:72-90` | Editing the copy in place computes Target |
| `EmitterPayload.TargetMeans` | `linux-hello/src/emitter.py:72-90` | None exactly when no interface supports a face mode; otherwise length, count, interface numbers and offsets stay, and re-parsing gives each interface its preferred supported mode, else its old flags |
| `EmitterPayload.OtherBytesStay` | `linux-hello/src/emitter.py:79-90` | Every byte outside the entries' flags stays |
| `EmitterSearch.CandidateValues` | `linux-hello/src/emitter.py:371-385` | The nested loops compute the candidate values, and raise exactly when the maximum is shorter than the value |
| `EmitterSearch.CandidateIsRaise` | `linux-hello/src/emitter.py:371-385` | Every candidate differs from the current value in one byte, raised by at most five within its maximum |
| `EmitterSearch.RaiseIsCandidate` | `linux-hello/src/emitter.py:371-385` | Every such value is a candidate |
| `EmitterSearch.CandidatesExactly` | `linux-hello/src/emitter.py:355-368` | The controls tried are exactly the vendor controls that can be read and written and are not blacklisted |
| `EmitterSearch.OneControlWrites` | `linux-hello/src/emitter.py:405-431` | One control: its candidates in order up to the first that does not stay dark, then its own value |
| `EmitterSearch.OneControlExactly` | `linux-hello/src/emitter.py:405-431` | What lit up is remembered at once, and found unless the own value cannot be written back; broken off exactly where the camera or a missing maximum interrupts it |
| `EmitterSearch.Camera.Run` | `linux-hello/src/emitter.py:388-432` | search, with its try and finally, computes Search for all answers of the camera |
| `EmitterSearch.SearchIsSafe` | `linux-hello/src/emitter.py:388-432` | A search leaves every control as it found it; if it aborts, only the control it could not put back may differ, and that one is blacklisted; nothing blacklisted is written; every value written is the start value or one byte raised within its maximum |
| `EmitterSearch.AbortedIsLeftAlone` | `linux-hello/src/emitter.py:157-168` | Over any run of searches, such a control is not written again until the camera is forgotten |

## Left out

- Camera capture, recognition, D-Bus, polkit, logind, uhid, terminal handling and the settings page: foreign code or user interface; their answers are inputs.
- Signatures, CBOR, COSE, keystores and attestation: a response only says which command made it.
- File modes, ownership, SELinux labels, fsync and directory creation: only the replacement of file content is modelled.
- sha256 in the manifest: a recorded digest is represented by the recorded text.
- Files that cannot be read or decoded: they are not part of the modelled tree, except that an unparsable manifest is.
- Text files with carriage returns: Python's universal newlines turn them into newlines before the modelled functions see them.
- PamRuns.RunsRestoreTheTree: runs have one auto-login user, none of our markers at the start, no gate copy that spells KWallet's marker, newline-terminated managed files that no other managed file includes, and a login configuration that names nobody; an edit by someone else between two writes is absorbed into what the manifest records and is outside these runs.
- PamRuns.FilesFollowTargets: under the same conditions; keep_kde_config is modelled in PamService.PamIntegration.TurnOff but not in the runs.
- PamMeaning.PatchedFileExactly: leaves out files in which an @include of a service other than common-auth brings auth lines in front of the first auth line, and files that end in a line break other than a newline, a form feed for instance.
- PamEnable.EnablingMeans: under the same conditions as PamMeaning.PatchedFileExactly.
- PamEnable.InsertPlaces: for files that do not end in a line break other than a newline.
- PamEnable.InsertThenRemove: under the same condition as PamEnable.InsertPlaces.
- PamOwnStack.FaceStackNeedsFace: for sources whose line breaks are newlines, as in PamOwnStack.FaceStackNeedsFaceExactly.
- PamCells.InsertCell: for newline-terminated files in which none of our markers is spelled; PamEnable.InsertPlaces and PamEnable.InsertThenRemove say what happens to the others.
- PamCells.RememberCell: under the same condition as PamCells.InsertCell.
- PamCells.ReleaseCell: under the same condition as PamCells.InsertCell.
- PamCells.RevertCell: under the same condition as PamCells.InsertCell.
- PamService.PamIntegration.TurnOn: writes of the except branch itself are taken to work.
- refresh, targets and the status queries of PamIntegration: they add only easy members.
- The lock screen's pause after failed scans (`_streak`, `_wait_for_activity`) and the camera lock: a plain counter and a plain lock.
- ConfirmWindow.Manager.Ask: what the checks in front of the pause look at (accounts, sessions, face models) is one input that says which of them refuses.
- PamModule.Identify: the native and input workarounds that end a password prompt after a match are foreign calls; a prompt that never ends is not modelled.
- HidFraming.HidReader.FeedReport: more than 2^32 channels are not modelled.
- HidStream.StreamIsWhole: a raw send that raises in the middle of a message is not modelled.
- HidDevice.OneCommandAtATime: that a cancel interrupts the face verification is the authenticator's part and not modelled.
- StoreRuns.CountsIncrease: credential ids are never made twice (they are random bytes); a corrupt credential file raises before anything changes and is not modelled.
- Authenticator.Device.MakeCredential: the checks of its parameters are one input that says which error they raise, as in Authenticator.Device.GetAssertion; selection and getInfo are not modelled.
- EmitterSearch.Camera.Run: one camera; saving the blacklist is taken to work.
- The emitter's Session, activate, plan and the flash analyser: they add only easy members or floating point.
