/** Service files as stacks: what a line means to Linux-PAM, and that the text
    insert_block and build_own_stack write means what their comments say. */
module PamMeaning {
  import opened Sequences
  import opened Text
  import opened Outcomes
  import opened PamLines
  import opened PamBlocks
  import PamStack

  // ----------------------------------------------------- parsing a control

  function NatOf(s: string): Option<nat> {
    if s == "" then None
    else
      var digit := s[|s| - 1] as int - '0' as int;
      if !(0 <= digit <= 9) then None
      else if |s| == 1 then Some(digit)
      else var front := NatOf(s[..|s| - 1]); if front.None? then None else Some(10 * front.value + digit)
  }

  function ActionOf(s: string): PamStack.Action {
    if s == "ok" then PamStack.Accept
    else if s == "done" then PamStack.Finish
    else if s == "die" then PamStack.Stop
    else if s == "ignore" then PamStack.Pass
    else if s == "reset" then PamStack.Restart
    else if NatOf(s).Some? then PamStack.Skip(NatOf(s).value)
    else PamStack.Fail
  }

  function WithoutBrackets(token: string): string {
    var inner := if StartsWith(token, "[") then token[1..] else token;
    if EndsWith(inner, "]") then inner[..|inner| - 1] else inner
  }

  /** The value=action pair a word of a bracketed control spells. */
  function PairOf(token: string): (string, string) {
    var pair := WithoutBrackets(token);
    (BeforeEquals(pair), AfterEquals(pair))
  }

  /** The pairs of a bracketed control, up to the closing bracket. */
  function PairsOf(words: seq<string>): seq<(string, string)> {
    if words == [] then []
    else if EndsWith(words[0], "]") then [PairOf(words[0])]
    else [PairOf(words[0])] + PairsOf(words[1..])
  }

  /** Values not listed take the default, which is to fail. */
  function TableOf(pairs: seq<(string, string)>): PamStack.Control {
    if pairs == [] then PamStack.Control(map[], PamStack.Fail)
    else
      var c, (key, value) := TableOf(pairs[..|pairs| - 1]), pairs[|pairs| - 1];
      if key == "default" then c.(default := ActionOf(value)) else c.(actions := c.actions[key := ActionOf(value)])
  }

  function ControlOf(words: seq<string>): PamStack.Control {
    if words == [] then PamStack.Control(map[], PamStack.Fail)
    else if StartsWith(words[0], "[") then TableOf(PairsOf(words))
    else if words[0] == "required" then PamStack.REQUIRED
    else if words[0] == "requisite" then PamStack.REQUISITE
    else if words[0] == "sufficient" then PamStack.SUFFICIENT
    else if words[0] == "optional" then PamStack.OPTIONAL
    else PamStack.Control(map[], PamStack.Fail)
  }

  function EntryOf(words: seq<string>): PamStack.Entry
    requires words != []
  {
    PamStack.Entry(ControlOf(words[1..]), AfterControl(words[1..]))
  }

  /** The auth stacks of the services that lines include, whatever they are. */
  type Includes = string -> seq<PamStack.Entry>

  /** An auth line with this word as its control. */
  predicate HasControl(line: string, control: string) {
    var words := Words(line);
    ModuleOf(line).0 == Some("auth") && |words| >= 3 && words[1] == control
  }

  /** The entries a line adds to the auth stack; an include adds those of the
      other service, a substack has them as one entry. */
  function EntriesOf(inc: Includes, line: string): seq<PamStack.Entry> {
    var (kind, name) := ModuleOf(line);
    if kind == Some("@include") then (if name.Some? then inc(name.value) else [])
    else if kind != Some("auth") then []
    else if HasControl(line, "include") then inc(Words(line)[2])
    else if HasControl(line, "substack") then [PamStack.Substack(inc(Words(line)[2]))]
    else [EntryOf(Words(line))]
  }

  function StackOf(inc: Includes, ls: seq<string>): seq<PamStack.Entry> {
    if ls == [] then [] else EntriesOf(inc, ls[0]) + StackOf(inc, ls[1..])
  }

  lemma {:induction false} StackAppend(inc: Includes, a: seq<string>, b: seq<string>)
    ensures StackOf(inc, a + b) == StackOf(inc, a) + StackOf(inc, b)
  {
    if a == [] {
      assert a + b == b;
    } else {
      assert (a + b)[1..] == a[1..] + b;
      StackAppend(inc, a[1..], b);
      Associate(EntriesOf(inc, a[0]), StackOf(inc, a[1..]), StackOf(inc, b));
    }
  }

  // -------------------------------------------------------- our own lines

  lemma {:induction false} PairParts(key: string, value: string)
    requires '=' !in key
    ensures BeforeEquals(key + "=" + value) == key && AfterEquals(key + "=" + value) == value
  {
    var s := key + "=" + value;
    if key == "" {
      assert s == "=" + value && s[1..] == value;
    } else {
      assert s[1..] == key[1..] + "=" + value;
      PairParts(key[1..], value);
    }
  }

  lemma {:induction false} CommentHasNoEntry(inc: Includes, line: string)
    requires line != "" && line[0] == '#'
    ensures EntriesOf(inc, line) == [] && !IsAuthLine(line)
  {
    assert Words(line)[0][0] == '#';
  }

  /** The first word of a bracketed control, one in the middle, and the last. */
  lemma {:induction false} OpensTable(token: string, key: string, value: string)
    requires token == "[" + key + "=" + value && '=' !in key && value != "" && value[|value| - 1] != ']'
    ensures PairOf(token) == (key, value) && StartsWith(token, "[") && !EndsWith(token, "]")
  {
    assert token[1..] == key + "=" + value;
    assert token[|token| - 1] == value[|value| - 1];
    PairParts(key, value);
  }

  lemma {:induction false} InTable(token: string, key: string, value: string)
    requires token == key + "=" + value && '=' !in key && key != "" && key[0] != '[' && value != ""
             && value[|value| - 1] != ']'
    ensures PairOf(token) == (key, value) && !EndsWith(token, "]")
  {
    assert token[0] == key[0];
    assert token[|token| - 1] == value[|value| - 1];
    PairParts(key, value);
  }

  lemma {:induction false} ClosesTable(token: string, key: string, value: string)
    requires token == key + "=" + value + "]" && '=' !in key && key != "" && key[0] != '['
    ensures PairOf(token) == (key, value) && EndsWith(token, "]")
  {
    assert token[0] == key[0];
    assert token[|token| - 1..] == "]";
    assert token[..|token| - 1] == key + "=" + value;
    PairParts(key, value);
  }

  lemma {:induction false} ModuleIsWord()
    ensures IsWord(MODULE)
  {
  }

  lemma {:induction false} WordsOfSpelled(words: seq<string>, blanks: seq<char>)
    requires |words| == |blanks| + 1
    requires forall i :: 0 <= i < |words| ==> IsWord(words[i])
    requires forall i :: 0 <= i < |blanks| ==> IsSpace(blanks[i])
    ensures Words(Spelled(words, blanks)) == words
  {
    if blanks == [] {
      WordsOfWord(words[0]);
    } else {
      WordsOfSpelled(words[1..], blanks[1..]);
      WordsOfWordThen(words[0], blanks[0], Spelled(words[1..], blanks[1..]));
    }
  }

  lemma {:induction false} InsertLineWords()
    ensures Words(INSERT_LINE) == INSERT_WORDS
  {
    ModuleIsWord();
    assert IsWord("auth") && IsWord("[success=done") && IsWord("default=ignore]");
    WordsOfSpelled(INSERT_WORDS, ['\t', ' ', '\t']);
  }

  lemma {:induction false} LoginLineWords()
    ensures Words(LOGIN_INSERT_LINE) == LOGIN_WORDS
  {
    ModuleIsWord();
    assert IsWord("auth") && IsWord("[success=done") && IsWord("default=ignore]") && IsWord("ignore=ignore")
           && IsWord("auth_err=die");
    WordsOfSpelled(LOGIN_WORDS, ['\t', ' ', ' ', ' ', '\t']);
  }

  lemma {:induction false} OwnLineWords()
    ensures Words(OWN_STACK_LINE) == OWN_WORDS
  {
    ModuleIsWord();
    assert IsWord("auth") && IsWord("[success=ok") && IsWord("default=die]") && IsWord("no_password");
    WordsOfSpelled(OWN_WORDS, ['\t', ' ', '\t', ' ']);
  }

  const FACE_CHECK := [MODULE]
  const OWN_CHECK := [MODULE, "no_password"]

  /** A line with a bracketed control of two words, and of four. */
  lemma {:induction false} EntryOfTwo(words: seq<string>, a: string, z: string, p: (string, string),
                                      q: (string, string))
    requires |words| >= 3 && words[1] == a && words[2] == z
    requires StartsWith(a, "[") && !EndsWith(a, "]") && EndsWith(z, "]") && PairOf(a) == p && PairOf(z) == q
    ensures EntryOf(words) == PamStack.Entry(TableOf([p, q]), words[3..])
  {
    var w0, w1 := words[1..], words[2..];
    Rest(words, 1);
    Rest(words, 2);
    ClosesHere(w1, q);
    ClosesLater(w0, p, w1, [q]);
    assert [p] + [q] == [p, q];
    BracketEntry(words, [p, q], w1);
  }

  lemma {:induction false} EntryOfFour(words: seq<string>, a: string, b: string, c: string, z: string,
                                       p: (string, string), q: (string, string), r: (string, string),
                                       s: (string, string))
    requires |words| >= 5 && words[1] == a && words[2] == b && words[3] == c && words[4] == z
    requires StartsWith(a, "[") && !EndsWith(a, "]") && !EndsWith(b, "]") && !EndsWith(c, "]") && EndsWith(z, "]")
    requires PairOf(a) == p && PairOf(b) == q && PairOf(c) == r && PairOf(z) == s
    ensures EntryOf(words) == PamStack.Entry(TableOf([p, q, r, s]), words[5..])
  {
    var w0, w1, w2, w3 := words[1..], words[2..], words[3..], words[4..];
    Rest(words, 1);
    Rest(words, 2);
    Rest(words, 3);
    Rest(words, 4);
    ClosesHere(w3, s);
    ClosesLater(w2, r, w3, [s]);
    ClosesLater(w1, q, w3, [r] + [s]);
    ClosesLater(w0, p, w3, [q] + ([r] + [s]));
    FourInOne(p, q, r, s);
    BracketEntry(words, [p, q, r, s], w3);
  }

  lemma {:induction false} FourInOne<T>(p: T, q: T, r: T, s: T)
    ensures [p] + ([q] + ([r] + [s])) == [p, q, r, s]
  {
  }

  lemma {:induction false} BracketEntry(words: seq<string>, pairs: seq<(string, string)>, closing: seq<string>)
    requires |words| >= 2 && StartsWith(words[1], "[")
    requires PairsOf(words[1..]) == pairs && FromClosing(words[1..]) == closing && closing != []
    ensures EntryOf(words) == PamStack.Entry(TableOf(pairs), closing[1..])
  {
  }

  lemma {:induction false} ClosesHere(words: seq<string>, pair: (string, string))
    requires words != [] && EndsWith(words[0], "]") && PairOf(words[0]) == pair
    ensures FromClosing(words) == words && PairsOf(words) == [pair]
  {
  }

  lemma {:induction false} ClosesLater(words: seq<string>, pair: (string, string), closing: seq<string>,
                                       pairs: seq<(string, string)>)
    requires words != [] && !EndsWith(words[0], "]") && PairOf(words[0]) == pair
    requires FromClosing(words[1..]) == closing && PairsOf(words[1..]) == pairs
    ensures FromClosing(words) == closing && PairsOf(words) == [pair] + pairs
  {
  }

  lemma {:induction false} SuccessDone()
    ensures PairOf("[success=done") == ("success", "done") && StartsWith("[success=done", "[")
            && !EndsWith("[success=done", "]")
  {
    OpensTable("[success=done", "success", "done");
  }

  lemma {:induction false} SuccessOk()
    ensures PairOf("[success=ok") == ("success", "ok") && StartsWith("[success=ok", "[")
            && !EndsWith("[success=ok", "]")
  {
    OpensTable("[success=ok", "success", "ok");
  }

  lemma {:induction false} IgnoreIgnore()
    ensures PairOf("ignore=ignore") == ("ignore", "ignore") && !EndsWith("ignore=ignore", "]")
  {
    InTable("ignore=ignore", "ignore", "ignore");
  }

  lemma {:induction false} AuthErrDie()
    ensures PairOf("auth_err=die") == ("auth_err", "die") && !EndsWith("auth_err=die", "]")
  {
    InTable("auth_err=die", "auth_err", "die");
  }

  lemma {:induction false} DefaultIgnore()
    ensures PairOf("default=ignore]") == ("default", "ignore") && EndsWith("default=ignore]", "]")
  {
    ClosesTable("default=ignore]", "default", "ignore");
  }

  lemma {:induction false} DefaultDie()
    ensures PairOf("default=die]") == ("default", "die") && EndsWith("default=die]", "]")
  {
    ClosesTable("default=die]", "default", "die");
  }

  lemma {:induction false} TableOne(key: string, value: string)
    requires key != "default"
    ensures TableOf([(key, value)]) == PamStack.Control(map[key := ActionOf(value)], PamStack.Fail)
  {
    assert [(key, value)][..0] == [];
  }

  lemma {:induction false} InsertLineEntry(words: seq<string>)
    requires words == INSERT_WORDS
    ensures EntryOf(words) == PamStack.Entry(PamStack.FACE_LINE, words[3..])
  {
    SuccessDone();
    DefaultIgnore();
    EntryOfTwo(words, "[success=done", "default=ignore]", ("success", "done"), ("default", "ignore"));
    FaceTable();
  }

  lemma {:induction false} FaceTable()
    ensures TableOf([("success", "done"), ("default", "ignore")]) == PamStack.FACE_LINE
  {
    var pairs := [("success", "done"), ("default", "ignore")];
    TableOne("success", "done");
    assert pairs[..1] == [("success", "done")];
  }

  lemma {:induction false} LoginLineEntry(words: seq<string>)
    requires words == LOGIN_WORDS
    ensures EntryOf(words) == PamStack.Entry(PamStack.LOGIN_FACE_LINE, words[5..])
  {
    SuccessDone();
    IgnoreIgnore();
    AuthErrDie();
    DefaultIgnore();
    EntryOfFour(words, "[success=done", "ignore=ignore", "auth_err=die", "default=ignore]",
                ("success", "done"), ("ignore", "ignore"), ("auth_err", "die"), ("default", "ignore"));
    LoginTable();
  }

  lemma {:induction false} LoginTable()
    ensures TableOf([("success", "done"), ("ignore", "ignore"), ("auth_err", "die"), ("default", "ignore")])
            == PamStack.LOGIN_FACE_LINE
  {
    var pairs := [("success", "done"), ("ignore", "ignore"), ("auth_err", "die"), ("default", "ignore")];
    TableOne("success", "done");
    assert pairs[..3][..2][..1] == [("success", "done")];
    assert pairs[..3][2] == pairs[2] && pairs[..3][..2][1] == pairs[1];
    assert TableOf(pairs[..3][..2])
           == PamStack.Control(map["success" := PamStack.Finish, "ignore" := PamStack.Pass], PamStack.Fail);
  }

  lemma {:induction false} OwnLineEntry(words: seq<string>)
    requires words == OWN_WORDS
    ensures EntryOf(words) == PamStack.Entry(PamStack.OWN_FACE_LINE, words[3..])
  {
    SuccessOk();
    DefaultDie();
    EntryOfTwo(words, "[success=ok", "default=die]", ("success", "ok"), ("default", "die"));
    OwnTable();
  }

  lemma {:induction false} OwnTable()
    ensures TableOf([("success", "ok"), ("default", "die")]) == PamStack.OWN_FACE_LINE
  {
    var pairs := [("success", "ok"), ("default", "die")];
    TableOne("success", "ok");
    assert pairs[..1] == [("success", "ok")];
  }

  /** What pam.conf(5) says the four keywords stand for. */
  lemma {:induction false} KeywordsAreTables()
    ensures TableOf([("success", "ok"), ("new_authtok_reqd", "ok"), ("ignore", "ignore"), ("default", "bad")])
            == PamStack.REQUIRED
    ensures TableOf([("success", "ok"), ("new_authtok_reqd", "ok"), ("ignore", "ignore"), ("default", "die")])
            == PamStack.REQUISITE
    ensures TableOf([("success", "done"), ("new_authtok_reqd", "done"), ("default", "ignore")]) == PamStack.SUFFICIENT
    ensures TableOf([("success", "ok"), ("new_authtok_reqd", "ok"), ("default", "ignore")]) == PamStack.OPTIONAL
  {
    TwoThenDefault("ok", PamStack.Accept, "ignore", PamStack.Pass);
    TwoThenDefault("done", PamStack.Finish, "ignore", PamStack.Pass);
    ThreeThenDefault("bad", PamStack.Fail);
    ThreeThenDefault("die", PamStack.Stop);
  }

  lemma {:induction false} TwoThenDefault(value: string, action: PamStack.Action, rest: string,
                                          otherwise: PamStack.Action)
    requires ActionOf(value) == action && ActionOf(rest) == otherwise
    ensures TableOf([("success", value), ("new_authtok_reqd", value), ("default", rest)])
            == PamStack.Control(map["success" := action, "new_authtok_reqd" := action], otherwise)
  {
    var pairs := [("success", value), ("new_authtok_reqd", value), ("default", rest)];
    TableOne("success", value);
    assert pairs[..2][..1] == [("success", value)] && pairs[..2] == pairs[..|pairs| - 1];
    assert |"success"| == 7 && |"default"| == 7 && |"new_authtok_reqd"| == 16 && "success"[0] == 's'
           && "default"[0] == 'd';
    assert TableOf(pairs[..2]) == PamStack.Control(map["success" := action, "new_authtok_reqd" := action],
                                                   PamStack.Fail);
  }

  lemma {:induction false} ThreeThenDefault(rest: string, otherwise: PamStack.Action)
    requires ActionOf(rest) == otherwise
    ensures TableOf([("success", "ok"), ("new_authtok_reqd", "ok"), ("ignore", "ignore"), ("default", rest)])
            == PamStack.Control(map["success" := PamStack.Accept, "new_authtok_reqd" := PamStack.Accept,
                                    "ignore" := PamStack.Pass], otherwise)
  {
    var pairs := [("success", "ok"), ("new_authtok_reqd", "ok"), ("ignore", "ignore"), ("default", rest)];
    TableOne("success", "ok");
    assert pairs[..3][..2][..1] == [("success", "ok")] && pairs[..3][..2] == pairs[..2];
    assert |"success"| == 7 && |"default"| == 7 && |"new_authtok_reqd"| == 16 && |"ignore"| == 6;
    assert "success"[0] == 's' && "default"[0] == 'd';
    assert TableOf(pairs[..3][..2])
           == PamStack.Control(map["success" := PamStack.Accept, "new_authtok_reqd" := PamStack.Accept], PamStack.Fail);
  }

  // ------------------------------------------------- the patched file's stack

  /** A line whose first word is auth, with or without the dash. */
  lemma {:induction false} AuthWords(line: string)
    requires Words(line) != [] && StripChar(Words(line)[0], '-') == "auth"
    ensures IsAuthLine(line) && ModuleOf(line).0 == Some("auth")
  {
    var w := Words(line)[0];
    assert w[0] == '-' || w[0] == 'a';
  }

  lemma {:induction false} AuthLineEntry(inc: Includes, line: string, words: seq<string>, control: PamStack.Control,
                                         check: seq<string>)
    requires Words(line) == words && |words| >= 2 && StripChar(words[0], '-') == "auth"
    requires words[1] != "include" && words[1] != "substack"
    requires EntryOf(words) == PamStack.Entry(control, check)
    ensures EntriesOf(inc, line + "\n") == [PamStack.Entry(control, check)] && IsAuthLine(line + "\n")
  {
    WordsBeforeSpace(line, '\n');
    AuthWords(line + "\n");
  }

  const FACE_ENTRY := PamStack.Entry(PamStack.FACE_LINE, FACE_CHECK)
  const LOGIN_ENTRY := PamStack.Entry(PamStack.LOGIN_FACE_LINE, FACE_CHECK)
  const OWN_ENTRY := PamStack.Entry(PamStack.OWN_FACE_LINE, OWN_CHECK)

  lemma {:induction false} InsertLineMeaning(inc: Includes)
    ensures EntriesOf(inc, INSERT_LINE + "\n") == [FACE_ENTRY] && IsAuthLine(INSERT_LINE + "\n")
  {
    InsertLineWords();
    InsertLineEntry(INSERT_WORDS);
    assert INSERT_WORDS[3..] == FACE_CHECK && INSERT_WORDS[1][0] == '[';
    AuthLineEntry(inc, INSERT_LINE, INSERT_WORDS, PamStack.FACE_LINE, FACE_CHECK);
  }

  lemma {:induction false} LoginLineMeaning(inc: Includes)
    ensures EntriesOf(inc, LOGIN_INSERT_LINE + "\n") == [LOGIN_ENTRY] && IsAuthLine(LOGIN_INSERT_LINE + "\n")
  {
    LoginLineWords();
    LoginLineEntry(LOGIN_WORDS);
    assert LOGIN_WORDS[5..] == FACE_CHECK && LOGIN_WORDS[1][0] == '[';
    AuthLineEntry(inc, LOGIN_INSERT_LINE, LOGIN_WORDS, PamStack.LOGIN_FACE_LINE, FACE_CHECK);
  }

  lemma {:induction false} OwnLineMeaning(inc: Includes)
    ensures EntriesOf(inc, OWN_STACK_LINE + "\n") == [OWN_ENTRY] && IsAuthLine(OWN_STACK_LINE + "\n")
  {
    OwnLineWords();
    OwnLineEntry(OWN_WORDS);
    assert OWN_WORDS[3..] == OWN_CHECK && OWN_WORDS[1][0] == '[';
    AuthLineEntry(inc, OWN_STACK_LINE, OWN_WORDS, PamStack.OWN_FACE_LINE, OWN_CHECK);
  }

  /** KWallet's lines: two optional entries of the auth stack with what they tell
      the module, and a session line, which adds nothing to it. */
  lemma {:induction false} WalletLinesMean(inc: Includes)
    ensures EntriesOf(inc, WALLET_HOLD_LINE + "\n")
            == [PamStack.Entry(PamStack.OPTIONAL, [MODULE, "remember_password"])]
    ensures EntriesOf(inc, WALLET_RELEASE_LINE + "\n") == [PamStack.Entry(PamStack.OPTIONAL, [MODULE, "kwallet"])]
    ensures EntriesOf(inc, WALLET_REMEMBER_LINE + "\n") == []
  {
    HoldMeans(inc);
    ReleaseMeans(inc);
    RememberMeans(inc);
  }

  lemma {:induction false} OptionalEntry(words: seq<string>, check: seq<string>)
    requires |words| == 4 && words[1] == "optional" && check == [words[2], words[3]]
    ensures EntryOf(words) == PamStack.Entry(PamStack.OPTIONAL, check) && words[1] != "include"
            && words[1] != "substack"
  {
    var rest := words[1..];
    assert rest[0] == "optional" && rest[0][0] == 'o' && "["[0] == '[' && "include"[0] == 'i' && "substack"[0] == 's';
    assert "required"[0] == 'r' && "requisite"[0] == 'r' && "sufficient"[0] == 's';
    assert rest[1..] == check;
  }

  lemma {:induction false} HoldMeans(inc: Includes)
    ensures EntriesOf(inc, WALLET_HOLD_LINE + "\n")
            == [PamStack.Entry(PamStack.OPTIONAL, [MODULE, "remember_password"])]
  {
    HoldWords();
    OptionalEntry(HOLD_WORDS, [MODULE, "remember_password"]);
    AuthLineEntry(inc, WALLET_HOLD_LINE, HOLD_WORDS, PamStack.OPTIONAL, [MODULE, "remember_password"]);
  }

  lemma {:induction false} ReleaseMeans(inc: Includes)
    ensures EntriesOf(inc, WALLET_RELEASE_LINE + "\n") == [PamStack.Entry(PamStack.OPTIONAL, [MODULE, "kwallet"])]
  {
    ReleaseWords();
    OptionalEntry(RELEASE_WORDS, [MODULE, "kwallet"]);
    AuthLineEntry(inc, WALLET_RELEASE_LINE, RELEASE_WORDS, PamStack.OPTIONAL, [MODULE, "kwallet"]);
  }

  lemma {:induction false} RememberMeans(inc: Includes)
    ensures EntriesOf(inc, WALLET_REMEMBER_LINE + "\n") == []
  {
    RememberWords();
    WordsBeforeSpace(WALLET_REMEMBER_LINE, '\n');
    var w := "-session";
    assert REMEMBER_WORDS[0] == w && w[0] == '-' && w[1..] == "session" && "session"[0] == 's';
    assert StripChar(w, '-') == "session" && "auth"[0] == 'a' && "@include"[0] == '@';
  }

  lemma {:induction false} HoldWords()
    ensures Words(WALLET_HOLD_LINE) == HOLD_WORDS
  {
    ModuleIsWord();
    assert IsWord("-auth") && IsWord("optional") && IsWord("remember_password");
    WordsOfSpelled(HOLD_WORDS, ['\t', '\t', ' ']);
  }

  lemma {:induction false} ReleaseWords()
    ensures Words(WALLET_RELEASE_LINE) == RELEASE_WORDS
  {
    ModuleIsWord();
    assert IsWord("-auth") && IsWord("optional") && IsWord("kwallet");
    WordsOfSpelled(RELEASE_WORDS, ['\t', '\t', ' ']);
  }

  lemma {:induction false} RememberWords()
    ensures Words(WALLET_REMEMBER_LINE) == REMEMBER_WORDS
  {
    ModuleIsWord();
    assert IsWord("-session") && IsWord("optional") && IsWord("remember_password");
    WordsOfSpelled(REMEMBER_WORDS, ['\t', '\t', ' ']);
  }

  // ---------------------------------------------------------- the gate copies

  lemma {:induction false} KeywordEntry(words: seq<string>)
    requires |words| >= 3 && words[1] in ["required", "requisite"]
    ensures EntryOf(words) == PamStack.Entry(if words[1] == "required" then PamStack.REQUIRED
                                             else PamStack.REQUISITE, words[2..])
    ensures words[1] != "include"
  {
    RequiredControl(words[1..]);
    assert words[1..][1..] == words[2..];
  }

  lemma {:induction false} RequiredControl(rest: seq<string>)
    requires rest != [] && rest[0] in ["required", "requisite"]
    ensures ControlOf(rest) == (if rest[0] == "required" then PamStack.REQUIRED else PamStack.REQUISITE)
    ensures AfterControl(rest) == rest[1..] && rest[0] != "include" && rest[0] != "substack"
  {
    assert rest[0][0] == 'r' && "["[0] == '[' && "include"[0] == 'i' && "substack"[0] == 's';
  }

  /** The entry a gate copy adds. */
  function CopyEntry(gate: string): PamStack.Entry {
    if Words(gate) == [] then PamStack.Entry(PamStack.REQUIRED, []) else EntryOf(Words(gate))
  }

  function CopyEntries(gates: seq<string>): (entries: seq<PamStack.Entry>)
    ensures |entries| == |gates| && forall i :: 0 <= i < |gates| ==> entries[i] == CopyEntry(gates[i])
  {
    if gates == [] then [] else [CopyEntry(gates[0])] + CopyEntries(gates[1..])
  }

  /** What gate_line gives out: lines that are their own copies. */
  predicate AreCopies(gates: seq<string>) {
    gates == [] || (GateLine(gates[0]) == Some(gates[0]) && AreCopies(gates[1..]))
  }

  lemma {:induction false} CopyMeaning(inc: Includes, gate: string)
    requires GateLine(gate) == Some(gate)
    ensures EntriesOf(inc, gate + "\n") == [CopyEntry(gate)] && PamStack.IsGate(CopyEntry(gate))
    ensures CopyEntry(gate).Entry? && CopyEntry(gate).check == Words(gate)[2..] && IsLine(gate + "\n")
  {
    var words := Words(gate);
    GateLineWords(gate);
    KeywordEntry(words);
    AuthLineEntry(inc, gate, words, CopyEntry(gate).control, CopyEntry(gate).check);
  }

  lemma {:induction false} CopiesAreGates(gates: seq<string>)
    requires AreCopies(gates)
    ensures forall i :: 0 <= i < |gates| ==> PamStack.IsGate(CopyEntries(gates)[i])
  {
    if gates != [] {
      CopiesAreGates(gates[1..]);
      CopyMeaning(_ => [], gates[0]);
    }
  }

  /** The gate copies as entries, one each. */
  lemma {:induction false} GateEntries(inc: Includes, gates: seq<string>)
    requires AreCopies(gates)
    ensures StackOf(inc, AsLines(gates)) == CopyEntries(gates) && Whole(AsLines(gates))
  {
    if gates != [] {
      GateEntries(inc, gates[1..]);
      CopyMeaning(inc, gates[0]);
      assert AsLines(gates)[1..] == AsLines(gates[1..]);
    }
  }

  lemma {:induction false} CollectedAreCopies(ls: seq<string>)
    ensures AreCopies(GatesOf(ls))
  {
    GatesOfIsExact(ls);
    var gates := GatesOf(ls);
    forall i | 0 <= i < |gates| ensures GateLine(gates[i]) == Some(gates[i]) {
      assert gates[i] in gates;
      var j :| 0 <= j < |ls| && GateLine(ls[j]) == Some(gates[i]);
      GateLineIsNormal(ls[j]);
    }
    EachIsCopy(gates);
  }

  lemma {:induction false} EachIsCopy(gates: seq<string>)
    requires forall i :: 0 <= i < |gates| ==> GateLine(gates[i]) == Some(gates[i])
    ensures AreCopies(gates)
  {
    if gates != [] {
      assert forall i :: 0 <= i < |gates[1..]| ==> gates[1..][i] == gates[i + 1];
      EachIsCopy(gates[1..]);
    }
  }

  // ------------------------------------------------- the patched file's stack

  lemma {:induction false} SingleEntry(inc: Includes, line: string)
    ensures StackOf(inc, [line]) == EntriesOf(inc, line)
  {
    assert [line][1..] == [];
    assert StackOf(inc, [line]) == EntriesOf(inc, line) + [];
  }

  lemma {:induction false} MarkerStack(inc: Includes)
    ensures StackOf(inc, [BEGIN + "\n"]) == [] && StackOf(inc, [END + "\n"]) == []
  {
    CommentHasNoEntry(inc, BEGIN + "\n");
    CommentHasNoEntry(inc, END + "\n");
    SingleEntry(inc, BEGIN + "\n");
    SingleEntry(inc, END + "\n");
  }

  /** The block as a stack: the copied checks, then our line. */
  lemma {:induction false} BlockStack(inc: Includes, gates: seq<string>, line: string, face: PamStack.Entry)
    requires AreCopies(gates) && EntriesOf(inc, line + "\n") == [face]
    ensures StackOf(inc, Block(gates, line)) == CopyEntries(gates) + [face]
  {
    GateEntries(inc, gates);
    MarkerStack(inc);
    SingleEntry(inc, line + "\n");
    BlockParts([BEGIN + "\n"], AsLines(gates), line + "\n", END + "\n");
    StackOfBlock(inc, [BEGIN + "\n"], AsLines(gates), [line + "\n"], [END + "\n"]);
  }

  lemma {:induction false} BlockParts(first: seq<string>, copies: seq<string>, line: string, last: string)
    ensures first + copies + [line, last] == first + copies + ([line] + [last])
  {
    assert [line, last] == [line] + [last];
  }

  lemma {:induction false} StackOfBlock(inc: Includes, first: seq<string>, copies: seq<string>, mid: seq<string>,
                                        last: seq<string>)
    requires StackOf(inc, first) == [] && StackOf(inc, last) == []
    ensures StackOf(inc, first + copies + (mid + last)) == StackOf(inc, copies) + StackOf(inc, mid)
  {
    StackAppend(inc, mid, last);
    StackBehind(inc, first, copies);
    StackAppend(inc, first + copies, mid + last);
    assert StackOf(inc, mid) + [] == StackOf(inc, mid);
  }

  lemma {:induction false} WholeBlock(gates: seq<string>, line: string)
    requires AreCopies(gates) && PlainLine(line)
    ensures Whole(Block(gates, line))
  {
    GateEntries(_ => [], gates);
    MarkersAreLines();
    BlockParts([BEGIN + "\n"], AsLines(gates), line + "\n", END + "\n");
    WholeParts([BEGIN + "\n"], AsLines(gates), [line + "\n"], [END + "\n"]);
  }

  lemma {:induction false} WholeParts(first: seq<string>, copies: seq<string>, mid: seq<string>, last: seq<string>)
    requires Whole(first) && Whole(copies) && Whole(mid) && Whole(last)
    ensures Whole(first + copies + (mid + last))
  {
    WholeAppend(mid, last);
    WholeAppend(first, copies);
    WholeAppend(first + copies, mid + last);
  }

  lemma {:induction false} StackBehind(inc: Includes, a: seq<string>, b: seq<string>)
    requires StackOf(inc, a) == []
    ensures StackOf(inc, a + b) == StackOf(inc, b)
  {
    StackAppend(inc, a, b);
    assert [] + StackOf(inc, b) == StackOf(inc, b);
  }

  lemma {:induction false} StackOfThree(inc: Includes, a: seq<string>, b: seq<string>, c: seq<string>)
    ensures StackOf(inc, a + b + c) == StackOf(inc, a) + StackOf(inc, b) + StackOf(inc, c)
  {
    StackAppend(inc, a, b);
    StackAppend(inc, a + b, c);
  }

  lemma {:induction false} RegroupEntries(copies: seq<PamStack.Entry>, face: PamStack.Entry, stack: seq<PamStack.Entry>)
    ensures [] + (copies + [face]) + stack == PamStack.WithFace(copies, face, stack)
  {
  }

  /** A text that ends in a newline or in the middle of a line. */
  predicate PlainEnd(text: string) {
    text != "" && (text[|text| - 1] == '\n' || !IsBreak(text[|text| - 1]))
  }

  lemma {:induction false} NewlineChangesNoWord(inc: Includes, line: string)
    ensures Words(line + "\n") == Words(line) && IsAuthLine(line + "\n") == IsAuthLine(line)
    ensures EntriesOf(inc, line + "\n") == EntriesOf(inc, line)
  {
    WordsBeforeSpace(line, '\n');
  }

  /** The completed last line. */
  function Ended(l: string): string {
    if EndsWith(l, "\n") then l else l + "\n"
  }

  lemma {:induction false} EndedSame(inc: Includes, l: string)
    ensures IsAuthLine(Ended(l)) == IsAuthLine(l) && EntriesOf(inc, Ended(l)) == EntriesOf(inc, l)
  {
    NewlineChangesNoWord(inc, l);
  }

  lemma {:induction false} EndedLine(l: string)
    requires IsLine(l) && PlainEnd(l)
    ensures IsLine(Ended(l)) && EndsInBreak(Ended(l))
  {
    if l[|l| - 1] == '\n' {
      assert l[|l| - 1..] == "\n";
    }
  }

  lemma {:induction false} WholeFront(ls: seq<string>)
    requires Canonical(ls) && ls != []
    ensures Whole(ls[..|ls| - 1])
  {
    if |ls| > 1 {
      assert Canonical(ls[1..]);
      WholeFront(ls[1..]);
      assert ls[..|ls| - 1] == [ls[0]] + ls[1..][..|ls| - 2];
      assert ls[..|ls| - 1][1..] == ls[1..][..|ls| - 2];
    }
  }

  lemma {:induction false} SameLast(inc: Includes, front: seq<string>, a: string, b: string)
    requires IsAuthLine(a) == IsAuthLine(b) && EntriesOf(inc, a) == EntriesOf(inc, b)
    ensures StackOf(inc, front + [a]) == StackOf(inc, front + [b]) && FirstAuth(front + [a]) == FirstAuth(front + [b])
  {
    if front == [] {
      assert front + [a] == [a] && front + [b] == [b];
      SingleEntry(inc, a);
      SingleEntry(inc, b);
    } else {
      assert (front + [a])[1..] == front[1..] + [a] && (front + [b])[1..] == front[1..] + [b];
      SameLast(inc, front[1..], a, b);
    }
  }

  lemma {:induction false} WithNewlineParts(ls: seq<string>)
    requires ls != []
    ensures ls == ls[..|ls| - 1] + [ls[|ls| - 1]] && WithNewline(ls) == ls[..|ls| - 1] + [Ended(ls[|ls| - 1])]
  {
  }

  lemma {:induction false} WholeSingle(l: string)
    requires IsLine(l) && EndsInBreak(l)
    ensures Whole([l])
  {
    assert [l][1..] == [];
  }

  lemma {:induction false} WholeWithNewline(ls: seq<string>)
    requires Canonical(ls) && ls != [] && PlainEnd(ls[|ls| - 1])
    ensures Whole(WithNewline(ls))
  {
    var front, last := ls[..|ls| - 1], ls[|ls| - 1];
    WithNewlineParts(ls);
    EndedLine(last);
    WholeFront(ls);
    WholeSingle(Ended(last));
    WholeAppend(front, [Ended(last)]);
  }

  lemma {:induction false} SameWithNewline(inc: Includes, ls: seq<string>)
    ensures StackOf(inc, WithNewline(ls)) == StackOf(inc, ls) && FirstAuth(WithNewline(ls)) == FirstAuth(ls)
  {
    if ls != [] {
      var front, last := ls[..|ls| - 1], ls[|ls| - 1];
      WithNewlineParts(ls);
      EndedSame(inc, last);
      SameLast(inc, front, last, Ended(last));
    }
  }

  lemma {:induction false} PlainEndOfLast(text: string)
    requires PlainEnd(text)
    ensures SplitLines(text) != [] && PlainEnd(SplitLines(text)[|SplitLines(text)| - 1])
  {
    JoinOfSplit(text);
    SplitIsCanonical(text);
    JoinLastChar(SplitLines(text));
  }

  /** A file with an auth line to put our block in front of, and nothing of the
      auth stack before it: an @include of another service may stand there only
      if that has no auth lines. */
  predicate HasSite(inc: Includes, ls: seq<string>) {
    FirstAuth(ls) < |ls| && StackOf(inc, ls[..FirstAuth(ls)]) == []
  }

  predicate CanPatch(inc: Includes, text: string) {
    PlainEnd(text) && !Contains(text, BEGIN) && HasSite(inc, SplitLines(text))
  }

  /** insert_block: the stack of the file it writes. */
  lemma {:induction false} PatchedTextStack(inc: Includes, text: string, gates: seq<string>, line: string,
                                            face: PamStack.Entry)
    requires CanPatch(inc, text) && AreCopies(gates) && PlainLine(line) && EntriesOf(inc, line + "\n") == [face]
    ensures var patched := InsertBlock(text, gates, line);
            && patched.Done?
            && StackOf(inc, SplitLines(patched.value))
               == PamStack.WithFace(CopyEntries(gates), face, StackOf(inc, SplitLines(text)))
  {
    var ls := WithNewline(SplitLines(text));
    PatchSite(inc, text);
    WholeBlock(gates, line);
    BlockStack(inc, gates, line, face);
    PatchedLines(inc, ls, FirstAuth(ls), Block(gates, line), CopyEntries(gates), face);
    InsertBlockIs(text, gates, line);
  }

  lemma {:induction false} PatchSite(inc: Includes, text: string)
    requires CanPatch(inc, text)
    ensures var ls := WithNewline(SplitLines(text));
            Whole(ls) && StackOf(inc, ls) == StackOf(inc, SplitLines(text)) && HasSite(inc, ls)
  {
    SplitIsCanonical(text);
    PlainEndOfLast(text);
    SiteOfLines(inc, SplitLines(text));
  }

  lemma {:induction false} SiteOfLines(inc: Includes, ls: seq<string>)
    requires Canonical(ls) && ls != [] && PlainEnd(ls[|ls| - 1]) && HasSite(inc, ls)
    ensures var all := WithNewline(ls); Whole(all) && StackOf(inc, all) == StackOf(inc, ls) && HasSite(inc, all)
  {
    WholeWithNewline(ls);
    SameWithNewline(inc, ls);
    FrontIsSame(ls, FirstAuth(ls));
  }

  lemma {:induction false} InsertBlockIs(text: string, gates: seq<string>, line: string)
    requires !Contains(text, BEGIN) && FirstAuth(WithNewline(SplitLines(text))) < |WithNewline(SplitLines(text))|
    ensures var ls := WithNewline(SplitLines(text)); var k := FirstAuth(ls);
            InsertBlock(text, gates, line) == Done(Join(ls[..k] + Block(gates, line) + ls[k..]))
  {
  }

  lemma {:induction false} FrontIsSame(ls: seq<string>, k: nat)
    requires k < |ls|
    ensures |WithNewline(ls)| == |ls| && WithNewline(ls)[..k] == ls[..k]
  {
    WithNewlineParts(ls);
  }

  lemma {:induction false} PatchedLines(inc: Includes, ls: seq<string>, k: nat, block: seq<string>,
                                        copies: seq<PamStack.Entry>, face: PamStack.Entry)
    requires Whole(ls) && Whole(block) && k <= |ls| && StackOf(inc, ls[..k]) == []
             && StackOf(inc, block) == copies + [face]
    ensures StackOf(inc, SplitLines(Join(ls[..k] + block + ls[k..])))
            == PamStack.WithFace(copies, face, StackOf(inc, ls))
  {
    Halves(ls, k);
    InsertedStack(inc, ls[..k], block, ls[k..], copies, face);
  }

  /** Lines put behind lines without entries come first in the stack. */
  lemma {:induction false} InsertedStack(inc: Includes, a: seq<string>, block: seq<string>, b: seq<string>,
                                         copies: seq<PamStack.Entry>, face: PamStack.Entry)
    requires Whole(a + b) && Whole(block) && StackOf(inc, a) == [] && StackOf(inc, block) == copies + [face]
    ensures StackOf(inc, SplitLines(Join(a + block + b))) == PamStack.WithFace(copies, face, StackOf(inc, a + b))
  {
    WholeAppend(a, b);
    WholeAppend(a, block);
    WholeAppend(a + block, b);
    SplitOfWhole(a + block + b);
    InsertedEntries(inc, a, block, b, copies, face);
  }

  lemma {:induction false} InsertedEntries(inc: Includes, a: seq<string>, block: seq<string>, b: seq<string>,
                                           copies: seq<PamStack.Entry>, face: PamStack.Entry)
    requires StackOf(inc, a) == [] && StackOf(inc, block) == copies + [face]
    ensures StackOf(inc, a + block + b) == PamStack.WithFace(copies, face, StackOf(inc, a + b))
  {
    StackBehind(inc, a, b);
    StackOfThree(inc, a, block, b);
    RegroupEntries(copies, face, StackOf(inc, b));
  }

  // ------------------------------------------------------- what the file means

  function FaceEntry(login: bool): PamStack.Entry {
    if login then LOGIN_ENTRY else FACE_ENTRY
  }

  function FaceLine(login: bool): string {
    if login then LOGIN_INSERT_LINE else INSERT_LINE
  }

  lemma {:induction false} FaceLineMeaning(inc: Includes, login: bool)
    ensures EntriesOf(inc, FaceLine(login) + "\n") == [FaceEntry(login)] && PlainLine(FaceLine(login))
  {
    InsertLineMeaning(inc);
    LoginLineMeaning(inc);
    InsertLinesArePlain();
  }

  /** For every service file, with bracket controls, jumps, resets, includes and
      substacks, every set of gate copies and every answer of the modules: with
      our block in it, exactly those get in whom LetsIn names. */
  lemma {:induction false} PatchedFileExactly(inc: Includes, text: string, gates: seq<string>, login: bool,
                                              answers: PamStack.Answers)
    requires CanPatch(inc, text) && AreCopies(gates)
    ensures var patched := InsertBlock(text, gates, FaceLine(login));
            && patched.Done?
            && (PamStack.Succeeds(StackOf(inc, SplitLines(patched.value)), answers)
                <==> PamStack.LetsIn(CopyEntries(gates), FaceEntry(login), StackOf(inc, SplitLines(text)), answers))
  {
    FaceLineMeaning(inc, login);
    PatchedTextStack(inc, text, gates, FaceLine(login), FaceEntry(login));
    CopiesAreGates(gates);
    PamStack.PatchedStackExactly(CopyEntries(gates), FaceEntry(login), StackOf(inc, SplitLines(text)), answers);
  }

  /** A service file whose whole auth stack is its own required, requisite,
      sufficient and optional lines. */
  predicate IsFlat(ls: seq<string>) {
    forall i :: 0 <= i < |ls| ==> ModuleOf(ls[i]).0 != Some("@include")
                                  && (ModuleOf(ls[i]).0 == Some("auth") ==> PamStack.IsKeyword(EntryOf(Words(ls[i]))))
  }

  /** Every check among the lines lets the stack go on. */
  predicate ChecksPass(ls: seq<string>, answers: PamStack.Answers) {
    forall i :: 0 <= i < |ls| && IsCheck(Words(ls[i])) ==> PamStack.Passes(answers(Words(ls[i])[2..]))
  }

  lemma {:induction false} IncludeIsNoKeyword(words: seq<string>)
    requires |words| >= 3 && words[1] in ["include", "substack"]
    ensures !PamStack.IsKeyword(EntryOf(words))
  {
    var rest := words[1..];
    var a, b := "include", "substack";
    assert rest[0] == a || rest[0] == b;
    assert a[0] == 'i' && b[0] == 's' && b[1] == 'u' && b[2] == 'b';
    assert "required"[0] == "requisite"[0] == 'r' && "sufficient"[2] == 'f' && "optional"[0] == 'o' && "["[0] == '[';
    assert !StartsWith(a, "[") && !StartsWith(b, "[");
    var none := PamStack.Control(map[], PamStack.Fail);
    assert ControlOf(rest) == none && none.On("success") == PamStack.Fail;
    assert PamStack.REQUIRED.On("success") == PamStack.REQUISITE.On("success") == PamStack.OPTIONAL.On("success")
           == PamStack.Accept;
    assert PamStack.SUFFICIENT.On("success") == PamStack.Finish;
  }

  lemma {:induction false} FlatLineEntries(inc: Includes, line: string)
    requires ModuleOf(line).0 != Some("@include")
             && (ModuleOf(line).0 == Some("auth") ==> PamStack.IsKeyword(EntryOf(Words(line))))
    ensures EntriesOf(inc, line) == if ModuleOf(line).0 == Some("auth") then [EntryOf(Words(line))] else []
  {
    if HasControl(line, "include") || HasControl(line, "substack") {
      IncludeIsNoKeyword(Words(line));
    }
  }

  lemma {:induction false} FlatStack(inc: Includes, ls: seq<string>)
    requires IsFlat(ls)
    ensures PamStack.AllKeywords(StackOf(inc, ls))
  {
    if ls != [] {
      FlatStack(inc, ls[1..]);
      FlatLineEntries(inc, ls[0]);
    }
  }

  lemma {:induction false} NoAuthNoStack(inc: Includes, ls: seq<string>)
    requires IsFlat(ls) && NoAuth(ls)
    ensures StackOf(inc, ls) == []
  {
    if ls != [] {
      NoAuthNoStack(inc, ls[1..]);
    }
  }

  lemma {:induction false} FlatFront(inc: Includes, ls: seq<string>)
    requires IsFlat(ls)
    ensures StackOf(inc, ls[..FirstAuth(ls)]) == []
  {
    AuthBounds(ls);
    NoAuthNoStack(inc, ls[..FirstAuth(ls)]);
  }

  lemma {:induction false} EntryInStack(inc: Includes, ls: seq<string>, i: nat)
    requires IsFlat(ls) && i < |ls| && ModuleOf(ls[i]).0 == Some("auth")
    ensures EntryOf(Words(ls[i])) in StackOf(inc, ls)
  {
    if i == 0 {
      FlatLineEntries(inc, ls[0]);
    } else {
      EntryInStack(inc, ls[1..], i - 1);
    }
  }

  /** The copy of a check is the check's own entry. */
  lemma {:induction false} CopyIsOriginal(inc: Includes, ls: seq<string>, j: nat)
    requires IsFlat(ls) && j < |ls| && IsCheck(Words(ls[j]))
    ensures GateLine(ls[j]).Some?
    ensures var copy := CopyEntry(GateLine(ls[j]).value);
            copy == EntryOf(Words(ls[j])) && copy.Entry? && copy.check == Words(ls[j])[2..]
              && PamStack.HoldsCheck(StackOf(inc, ls), copy)
  {
    var words := Words(ls[j]);
    ChecksAreGates(ls[j]);
    GateLineWords(ls[j]);
    AuthWords(ls[j]);
    assert Words(GateLine(ls[j]).value)[1..] == words[1..];
    KeywordEntry(words);
    EntryInStack(inc, ls, j);
  }

  lemma {:induction false} FlatCopies(inc: Includes, ls: seq<string>, answers: PamStack.Answers)
    requires IsFlat(ls)
    ensures var copies := CopyEntries(GatesOf(ls));
            && (forall i :: 0 <= i < |copies| ==> PamStack.HoldsCheck(StackOf(inc, ls), copies[i]))
            && ((forall g :: g in copies ==> PamStack.Clears(g, answers)) <==> ChecksPass(ls, answers))
  {
    var gates := GatesOf(ls);
    var copies := CopyEntries(gates);
    GatesOfIsExact(ls);
    forall i | 0 <= i < |copies|
      ensures PamStack.HoldsCheck(StackOf(inc, ls), copies[i])
      ensures ChecksPass(ls, answers) ==> PamStack.Clears(copies[i], answers)
    {
      assert gates[i] in gates;
      var j :| 0 <= j < |ls| && IsCheck(Words(ls[j])) && GateLine(ls[j]) == Some(gates[i]);
      CopyIsOriginal(inc, ls, j);
    }
    if forall g :: g in copies ==> PamStack.Clears(g, answers) {
      forall j | 0 <= j < |ls| && IsCheck(Words(ls[j])) ensures PamStack.Passes(answers(Words(ls[j])[2..])) {
        CopyIsOriginal(inc, ls, j);
        assert GateLine(ls[j]).value in gates;
        var i :| 0 <= i < |gates| && gates[i] == GateLine(ls[j]).value;
        assert copies[i] in copies;
      }
    }
  }

  /** For a flat file and its own checks that is: every check passes, and the
      face matches or the file's own stack succeeds; a failed match at a login
      screen ends the attempt. */
  lemma {:induction false} PatchedFileMeaning(inc: Includes, text: string, login: bool, answers: PamStack.Answers)
    requires PlainEnd(text) && !Contains(text, BEGIN)
    requires var ls := SplitLines(text); IsFlat(ls) && FirstAuth(ls) < |ls|
    ensures var ls, face := SplitLines(text), FaceEntry(login);
            var patched := InsertBlock(text, GatesOf(ls), FaceLine(login));
            && patched.Done?
            && (PamStack.Succeeds(StackOf(inc, SplitLines(patched.value)), answers)
                <==> ChecksPass(ls, answers)
                     && (PamStack.Matches(face, answers)
                         || (!PamStack.Ends(face, answers) && PamStack.Succeeds(StackOf(inc, ls), answers))))
  {
    var ls := SplitLines(text);
    FlatFront(inc, ls);
    CollectedAreCopies(ls);
    FaceLineMeaning(inc, login);
    PatchedTextStack(inc, text, GatesOf(ls), FaceLine(login), FaceEntry(login));
    CopiesAreGates(GatesOf(ls));
    FlatStack(inc, ls);
    FlatCopies(inc, ls, answers);
    PamStack.PatchedStackMeaning(CopyEntries(GatesOf(ls)), FaceEntry(login), StackOf(inc, ls), answers);
  }
}
