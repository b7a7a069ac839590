/** The login manager's two files: the drop-in names its user, and forgetting a
    user leaves a configuration that does not name them. */
module PamLogin {
  import opened Sequences
  import opened Text
  import opened Outcomes
  import opened PamLines
  import opened PamBlocks
  import opened PamTargets
  import PamCells
  import PamReset

  /** The two sides of the first equals sign. */
  lemma {:induction false} EqualsSplit(key: string, value: string)
    requires '=' !in key
    ensures BeforeEquals(key + "=" + value) == key && AfterEquals(key + "=" + value) == value
  {
    var s := key + "=" + value;
    if key == "" {
      assert s[0] == '=' && s[1..] == value;
    } else {
      EqualsSplit(key[1..], value);
      assert s[1..] == key[1..] + "=" + value && s[0] == key[0];
      assert [key[0]] + key[1..] == key;
    }
  }

  lemma {:induction false} CommentLine(line: string)
    requires HasContent(line) && Tight(line) && line[0] == '#'
    ensures var s := Strip(line + "\n"); !IsGroup(s) && !IsUserLine(s)
  {
    StripOfTightLine(line);
    assert line[..1] == "#";
  }

  lemma {:induction false} GroupLine()
    ensures var s := Strip("[Autologin]" + "\n"); IsGroup(s) && s[1..|s| - 1] == AUTOLOGIN_GROUP
    ensures HasContent("[Autologin]")
  {
    var line := "[Autologin]";
    StripOfTightLine(line);
    assert line[1..|line| - 1] == "Autologin";
  }

  lemma {:induction false} UserLine(user: string)
    requires IsUserName(user)
    ensures var s := Strip("User=" + user + "\n"); !IsGroup(s) && IsUserLine(s) && Strip(AfterEquals(s)) == user
    ensures HasContent("User=" + user)
  {
    var s := "User=" + user;
    NameIsTight(user);
    assert s == "User" + "=" + user && s[0] == 'U' && s[|s| - 1] == user[|user| - 1] && s[4] == '=';
    EqualsSplit("User", user);
    StripOfTightLine(s);
    StripOfTightLine("User");
    StripOfTightLine(user);
    assert s + "\n" == "User=" + user + "\n";
    assert s[..1][0] == 'U';
  }

  lemma {:induction false} NameIsTight(user: string)
    requires IsUserName(user)
    ensures Tight(user) && HasContent(user) && '=' !in user
  {
    forall i | 0 <= i < |user| ensures !IsSpace(user[i]) && !IsBreak(user[i]) && user[i] != '=' {
    }
  }

  /** What a drop-in may name: one word that is not root and that can add no line,
      no key, no group and no comment to it. */
  lemma {:induction false} NamesFit(user: string)
    requires IsUserName(user)
    ensures user != "" && user != "root" && IsWord(user) && BreakFree(user)
    ensures forall c :: c in "=[]#'/\\\"" ==> c !in user
    ensures user[0] !in "0123456789.@-"
  {
    NameIsTight(user);
    forall c | c in user ensures IsNameStart(c) || '0' <= c <= '9' || c in ['.', '@', '-'] {
      var i :| 0 <= i < |user| && user[i] == c;
    }
  }

  /** And every such word but root may be named: letters, digits and "_.@-", not
      beginning with a digit or one of ".@-". */
  lemma {:induction false} NamesThatFit(user: string)
    ensures IsUserName(user)
       <==> user != "" && user != "root" && user[0] !in "0123456789.@-"
            && forall i :: 0 <= i < |user| ==> 'a' <= user[i] <= 'z' || 'A' <= user[i] <= 'Z' || '0' <= user[i] <= '9'
                                               || user[i] in "_.@-"
  {
    if user != "" {
      assert '0' <= user[0] <= '9' <==> user[0] in "0123456789" by { DigitsAre(user[0]); }
      assert user[0] in "0123456789.@-" <==> user[0] in "0123456789" || user[0] in ".@-";
    }
  }

  lemma {:induction false} DigitsAre(c: char)
    ensures '0' <= c <= '9' <==> c in "0123456789"
  {
    var d := "0123456789";
    assert d[0] == '0' && d[1] == '1' && d[2] == '2' && d[3] == '3' && d[4] == '4' && d[5] == '5' && d[6] == '6';
    assert d[7] == '7' && d[8] == '8' && d[9] == '9';
    if '0' <= c <= '9' {
      assert c == d[(c as int) - ('0' as int)];
    }
  }

  /** A line of another key. */
  lemma {:induction false} OtherKey(key: string, value: string)
    requires Tight(key) && '=' !in key && key != "User" && key[0] != '[' && key[0] != '#' && Tight(value)
    ensures var s := Strip(key + "=" + value + "\n"); !IsGroup(s) && !IsUserLine(s)
  {
    var s := key + "=" + value;
    EqualsSplit(key, value);
    assert s[0] == key[0] && s[|s| - 1] == value[|value| - 1];
    StripOfTightLine(s);
    StripOfTightLine(key);
  }

  lemma {:induction false} SessionLine()
    ensures var s := Strip("Session=plasma" + "\n"); !IsGroup(s) && !IsUserLine(s)
    ensures HasContent("Session=plasma")
  {
    var key, value := "Session", "plasma";
    assert key + "=" + value == "Session=plasma";
    OtherKey(key, value);
  }

  predicate BreakFree(s: string) {
    forall i :: 0 <= i < |s| ==> !IsBreak(s[i])
  }

  /** A comment put together from two pieces. */
  lemma {:induction false} CommentOf(a: string, b: string)
    requires BreakFree(a) && BreakFree(b) && a != "" && a[0] == '#' && b != "" && !IsSpace(b[|b| - 1])
    ensures HasContent(a + b) && Tight(a + b) && (a + b)[0] == '#'
  {
  }

  lemma {:induction false} CommentsAre()
    ensures HasContent(DROP_IN_CREATED) && Tight(DROP_IN_CREATED) && DROP_IN_CREATED[0] == '#'
    ensures HasContent(DROP_IN_REMOVED) && Tight(DROP_IN_REMOVED) && DROP_IN_REMOVED[0] == '#'
  {
    CreatedIs();
    RemovedIs();
  }

  lemma {:induction false} CreatedIs()
    ensures HasContent(DROP_IN_CREATED) && Tight(DROP_IN_CREATED) && DROP_IN_CREATED[0] == '#'
  {
    var a, b := "# Created by " + "linux-hello" + ": log in ", "automatically, " + "then lock the " + "screen.";
    assert BreakFree("# Created by ") && BreakFree("linux-hello") && BreakFree(": log in ");
    assert BreakFree("automatically, ") && BreakFree("then lock the ") && BreakFree("screen.");
    CommentOf(a, b);
    Regrouped("# Created by " + "linux-hello" + ": log in ", "automatically, ", "then lock the ", "screen.");
  }

  lemma {:induction false} RemovedIs()
    ensures HasContent(DROP_IN_REMOVED) && Tight(DROP_IN_REMOVED) && DROP_IN_REMOVED[0] == '#'
  {
    var a, b := "# Removed again ", "by 'linux-hello" + "-cli disable " + "auto-login'.";
    assert BreakFree(a) && BreakFree("by 'linux-hello") && BreakFree("-cli disable ") && BreakFree("auto-login'.");
    CommentOf(a, b);
    Regrouped(a, "by 'linux-hello", "-cli disable ", "auto-login'.");
  }

  lemma {:induction false} Regrouped(a: string, b: string, c: string, d: string)
    ensures a + (b + c + d) == a + b + c + d
  {
  }

  lemma {:induction false} LineIsWhole(line: string, rest: seq<string>)
    requires HasContent(line) && Whole(rest)
    ensures Whole([line + "\n"] + rest)
  {
    WholeAppend([line + "\n"], rest);
  }

  /** The lines of a drop-in, and whom they name. */
  lemma {:induction false} LinesName(a: string, b: string, group: string, u: string, rest: seq<string>, user: string)
    requires var s := Strip(a); !IsGroup(s) && !IsUserLine(s)
    requires var s := Strip(b); !IsGroup(s) && !IsUserLine(s)
    requires var s := Strip(group); IsGroup(s) && s[1..|s| - 1] == AUTOLOGIN_GROUP
    requires var s := Strip(u); !IsGroup(s) && IsUserLine(s) && Strip(AfterEquals(s)) == user
    requires rest == [] || (|rest| == 1 && var s := Strip(rest[0]); !IsGroup(s) && !IsUserLine(s))
    ensures IniUser([a, b, group, u] + rest, None, None) == Some(user)
  {
    var ls := [a, b, group, u] + rest;
    assert ls[1..] == [b, group, u] + rest && ls[1..][1..] == [group, u] + rest;
    assert ls[1..][1..][1..] == [u] + rest && ls[1..][1..][1..][1..] == rest;
    assert rest != [] ==> rest[1..] == [];
    assert IniUser(rest, Some(AUTOLOGIN_GROUP), Some(user)) == Some(user);
    assert IniUser([u] + rest, Some(AUTOLOGIN_GROUP), None) == Some(user);
    assert IniUser([group, u] + rest, None, None) == Some(user);
  }

  /** The drop-in written for a user names them when it is read back. */
  lemma {:induction false} DropInNames(user: string, wayland: bool)
    requires IsUserName(user)
    ensures UserIn(DropInText(user, wayland)) == Some(user)
  {
    var session := if wayland then ["Session=plasma" + "\n"] else [];
    CommentsAre();
    CommentLine(DROP_IN_CREATED);
    CommentLine(DROP_IN_REMOVED);
    GroupLine();
    UserLine(user);
    SessionLine();
    LinesName(DROP_IN_CREATED + "\n", DROP_IN_REMOVED + "\n", "[Autologin]" + "\n", "User=" + user + "\n",
              session, user);
    var ls := [DROP_IN_CREATED + "\n", DROP_IN_REMOVED + "\n", "[Autologin]" + "\n", "User=" + user + "\n"] + session;
    assert Whole([]);
    if wayland {
      LineIsWhole("Session=plasma", []);
      assert session == ["Session=plasma" + "\n"] + [];
    }
    LineIsWhole("User=" + user, session);
    LineIsWhole("[Autologin]", ["User=" + user + "\n"] + session);
    LineIsWhole(DROP_IN_REMOVED, ["[Autologin]" + "\n"] + (["User=" + user + "\n"] + session));
    LineIsWhole(DROP_IN_CREATED,
                [DROP_IN_REMOVED + "\n"] + (["[Autologin]" + "\n"] + (["User=" + user + "\n"] + session)));
    assert ls == [DROP_IN_CREATED + "\n"]
           + ([DROP_IN_REMOVED + "\n"] + (["[Autologin]" + "\n"] + (["User=" + user + "\n"] + session)));
    SplitOfWhole(ls);
  }

  /** Lines that name nobody leave it at that. */
  lemma {:induction false} NobodyNamed(ls: seq<string>, group: Option<string>, before: Option<string>)
    requires IniUser(ls, group, None).None?
    ensures IniUser(ls, group, before) == before
  {
    if ls != [] {
      var s := Strip(ls[0]);
      if IsGroup(s) {
        NobodyNamed(ls[1..], Some(s[1..|s| - 1]), before);
      } else {
        if group == Some(AUTOLOGIN_GROUP) && IsUserLine(s) {
          IniUserStays(ls[1..], group, Some(Strip(AfterEquals(s))));
        }
        NobodyNamed(ls[1..], group, before);
      }
    }
  }

  /** Of several users named in the group the last one counts. */
  lemma {:induction false} LastNamedCounts(line: string, rest: seq<string>, user: string, before: Option<string>)
    requires NamesUser(line, user) && !IsGroup(Strip(line)) && IniUser(rest, Some("Autologin"), None).None?
    ensures IniUser([line] + rest, Some("Autologin"), before) == Some(user)
  {
    OneLine(line, rest, Some("Autologin"), user, before);
    NobodyNamed(rest, Some("Autologin"), Some(user));
  }

  // -------------------------------------------------------------- forgetting

  /** A line that names the user, inside the group. */
  predicate NamesUser(line: string, user: string) {
    IsUserLine(Strip(line)) && Strip(AfterEquals(Strip(line))) == user
  }

  /** Only lines that name the user go. */
  lemma {:induction false} ForgottenKeeps(ls: seq<string>, group: Option<string>, user: string, line: string)
    requires line in ls && !NamesUser(line, user)
    ensures line in Forgotten(ls, group, user)
  {
    var s := Strip(ls[0]);
    First(ls);
    if line != ls[0] {
      ForgottenKeeps(ls[1..], if IsGroup(s) then Some(s[1..|s| - 1]) else group, user, line);
    }
  }

  /** The lines are still one each. */
  lemma {:induction false} ForgottenIsCanonical(ls: seq<string>, group: Option<string>, user: string)
    requires Canonical(ls)
    ensures Canonical(Forgotten(ls, group, user)) && (ls == [] ==> Forgotten(ls, group, user) == [])
  {
    if ls != [] {
      var s := Strip(ls[0]);
      var next := if IsGroup(s) then Some(s[1..|s| - 1]) else group;
      First(ls);
      assert Canonical(ls[1..]);
      ForgottenIsCanonical(ls[1..], next, user);
      OneLine(ls[0], ls[1..], group, user, None);
      var rest := Forgotten(ls[1..], next, user);
      ConsCanonical(ls[0], rest);
      assert [] + rest == rest;
    }
  }

  /** What one line says of the user, and what forgetting makes of it. */
  lemma {:induction false} OneLine(line: string, rest: seq<string>, group: Option<string>, user: string,
                                   before: Option<string>)
    ensures var s := Strip(line);
            var next := if IsGroup(s) then Some(s[1..|s| - 1]) else group;
            var inside := !IsGroup(s) && group == Some(AUTOLOGIN_GROUP) && IsUserLine(s);
            && IniUser([line] + rest, group, before)
               == IniUser(rest, next, if inside then Some(Strip(AfterEquals(s))) else before)
            && Forgotten([line] + rest, group, user)
               == (if inside && Strip(AfterEquals(s)) == user then [] else [line]) + Forgotten(rest, next, user)
  {
    assert ([line] + rest)[1..] == rest;
  }

  lemma {:induction false} NobodyLeft(ls: seq<string>, group: Option<string>, user: string, before: Option<string>)
    requires before != Some(user)
    ensures IniUser(Forgotten(ls, group, user), group, before) != Some(user)
  {
    if ls != [] {
      First(ls);
      var next, named, left := LineLeft(ls[0], ls[1..], group, user, before);
      NobodyLeft(ls[1..], next, user, named);
    }
  }

  /** One line, and what forgetting and reading go on with. */
  lemma {:induction false} LineLeft(line: string, more: seq<string>, group: Option<string>, user: string,
                                    before: Option<string>)
    returns (next: Option<string>, named: Option<string>, left: seq<string>)
    requires before != Some(user)
    ensures left == Forgotten([line] + more, group, user) && named != Some(user)
    ensures IniUser(left, group, before) == IniUser(Forgotten(more, next, user), next, named)
  {
    var s := Strip(line);
    var inside := !IsGroup(s) && group == Some(AUTOLOGIN_GROUP) && IsUserLine(s);
    next := if IsGroup(s) then Some(s[1..|s| - 1]) else group;
    var rest := Forgotten(more, next, user);
    OneLine(line, more, group, user, before);
    OneLine(line, rest, group, user, before);
    left := Forgotten([line] + more, group, user);
    if inside && Strip(AfterEquals(s)) == user {
      named := before;
      assert [] + rest == rest;
    } else {
      named := if inside then Some(Strip(AfterEquals(s))) else before;
    }
  }

  /** After disable or reset the login configuration does not name the drop-in's
      user; without that name it is as it was. */
  lemma {:induction false} ForgottenExactly(files: Files, user: string)
    requires user != "" && LoginConf in files
    ensures LoginConf in ForgetMain(files, Some(user)) && UserIn(ForgetMain(files, Some(user))[LoginConf]) != Some(user)
    ensures forall p :: p != LoginConf ==> Get(ForgetMain(files, Some(user)), p) == Get(files, p)
    ensures UserIn(files[LoginConf]).None? ==> ForgetMain(files, Some(user)) == files
  {
    var ls := SplitLines(files[LoginConf]);
    SplitIsCanonical(files[LoginConf]);
    JoinOfSplit(files[LoginConf]);
    ForgottenIsCanonical(ls, None, user);
    SplitOfJoin(Forgotten(ls, None, user));
    NobodyLeft(ls, None, user, None);
    if UserIn(files[LoginConf]).None? {
      NobodyForgotten(ls, None, user);
    }
  }

  /** After reset there is no drop-in, and the login configuration does not name
      its user. The manifest never records the configuration. */
  lemma {:induction false} ResetForgetsUser(files: Files, entries: map<Path, PamCells.Entry>, user: string)
    requires AutoLoginUserOf(files) == Some(user) && LoginConf !in entries
    ensures PamReset.ResetAt(files, entries, DropIn).None?
    ensures var conf := PamReset.ResetAt(files, entries, LoginConf);
            (conf.Some? <==> LoginConf in files) && (conf.Some? ==> UserIn(conf.value) != Some(user))
  {
    if LoginConf in files {
      ForgottenExactly(files, user);
    }
  }
}
