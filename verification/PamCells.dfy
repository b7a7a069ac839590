/** One managed file and its manifest entry: what turning a target on and off
    does to it. A recorded sha256 is represented by the recorded text. */
module PamCells {
  import opened Text
  import opened Outcomes
  import opened PamLines
  import opened PamBlocks

  datatype Target = LockScreen | Admin | Sudo | Login | AutoLogin
  datatype Action = Inserted | Copied | Created
  datatype Entry = Entry(action: Action, target: Target, recorded: string, separator: string)

  /** A path's file, if it exists, and its manifest entry, if it has one. */
  datatype Cell = Cell(text: Option<string>, entry: Option<Entry>)

  predicate HasAnyBlock(text: string) {
    Contains(text, BEGIN) || Contains(text, WALLET_BEGIN)
  }

  predicate Blank(text: string) {
    forall i :: 0 <= i < |text| ==> IsSpace(text[i])
  }

  /** _action */
  function ActionFor(entry: Option<Entry>, text: string, found: Action): Action {
    if entry.Some? && HasAnyBlock(text) then entry.value.action else found
  }

  /** _enable_insert and _enable_wallet from the point where the new text is known. */
  function Rewritten(c: Cell, text: string, made: Result<string>, target: Target): Result<Cell> {
    if made.Refused? then Refused
    else if made.value == text then Done(c)
    else
      var action := ActionFor(c.entry, text, if c.text.Some? then Inserted else Copied);
      Done(Cell(Some(made.value), Some(Entry(action, target, made.value, ""))))
  }

  /** The file a service is patched from: its own, or the vendor's. */
  function SourceText(c: Cell, vendor: Option<string>): Option<string> {
    if c.text.Some? then c.text else vendor
  }

  function InsertInto(c: Cell, vendor: Option<string>, gates: seq<string>, line: string, target: Target): Result<Cell> {
    var source := SourceText(c, vendor);
    if source.None? then Refused
    else Rewritten(c, source.value, InsertBlock(RemoveBlock(source.value, [BEGIN]), gates, line), target)
  }

  function WalletInto(c: Cell, vendor: Option<string>, release: bool, target: Target): Result<Cell> {
    var source := SourceText(c, vendor);
    if source.None? then Refused
    else
      var clean := RemoveBlock(source.value, [WALLET_BEGIN]);
      Rewritten(c, source.value, if release then InsertWalletRelease(clean) else InsertWalletRemember(clean), target)
  }

  /** _revert; dropIn: the path is the auto-login drop-in, ours by its name. */
  function Reverted(c: Cell, begins: seq<string>, dropIn: bool): Cell {
    if c.text.None? then Cell(None, None)
    else
      var text := c.text.value;
      var cleaned := RemoveBlock(text, begins);
      if dropIn || StartsWith(text, OWN_HEADER) then Cell(None, None)
      else if HasAnyBlock(cleaned) then
        if cleaned == text then c
        else Cell(Some(cleaned), if c.entry.Some? then Some(c.entry.value.(recorded := cleaned)) else None)
      else RevertedLast(text, cleaned, c.entry)
  }

  /** The same once no block of ours is left. */
  function RevertedLast(text: string, cleaned: string, entry: Option<Entry>): Cell {
    var untouched := entry.Some? && text == entry.value.recorded;
    if entry.Some? && entry.value.action == Created then
      if untouched || Blank(cleaned) then Cell(None, None) else Cell(Some(cleaned), None)
    else if cleaned == text then Cell(Some(text), None)
    else if entry.Some? && entry.value.action == Copied && untouched then Cell(None, None)
    else
      var separator := if entry.Some? then entry.value.separator else "";
      Cell(Some(if separator != "" && EndsWith(cleaned, separator) then cleaned[..|cleaned| - |separator|]
                else cleaned), None)
  }

  // --------------------------------------------------------- service files

  /** A service as found: its text, whether that is the copy in /etc, and what
      enabling would write into it. */
  datatype Service = Service(base: string, inEtc: bool, gates: seq<string>, line: string)

  /** Newline-terminated, none of our markers, not one of our own files, and no
      gate copy that spells KWallet's marker. */
  predicate IsFair(v: Service) {
    && EndsWith(v.base, "\n") && !Contains(v.base, BEGIN) && !Contains(v.base, WALLET_BEGIN)
    && !StartsWith(v.base, OWN_HEADER) && GoodGates(v.gates) && PlainLine(v.line)
  }

  function PartsOf(ls: seq<string>): Parts {
    PartsAt(ls, FirstAuth(ls), AfterLastAuth(ls))
  }

  function PartsAt(ls: seq<string>, f: nat, l: nat): Parts
    requires f <= |ls| && l <= |ls|
  {
    if f <= l then Parts(ls[..f], ls[f..l], ls[l..]) else Parts(ls, [], [])
  }

  function PartsOfService(v: Service): Parts {
    PartsOf(SplitLines(v.base))
  }

  predicate HasAuth(v: Service) {
    FirstAuth(SplitLines(v.base)) < |SplitLines(v.base)|
  }

  function Face(v: Service): seq<string> {
    FaceLines(v.gates, v.line)
  }

  /** The file with the blocks of the targets that are on. */
  function PatchedText(v: Service, insert: bool, wallet: bool): string {
    Join(Patched(PartsOfService(v), Face(v), insert, wallet))
  }

  function ReleasedText(v: Service, wallet: bool): string {
    Join(Released(PartsOfService(v), wallet))
  }

  /** Cut into three, the middle part not empty. */
  predicate IsCut(ls: seq<string>, p: Parts, first: string, last: string) {
    && ls == p.head + (p.auth + p.tail) && p.auth != [] && p.auth[0] == first && p.auth[|p.auth| - 1] == last
    && ls != [] && (if p.tail == [] then last else p.tail[|p.tail| - 1]) == ls[|ls| - 1]
  }

  lemma {:induction false} CutAt(ls: seq<string>, f: nat, l: nat)
    requires f < l <= |ls|
    ensures IsCut(ls, PartsAt(ls, f, l), ls[f], ls[l - 1])
  {
    assert ls == ls[..f] + (ls[f..l] + ls[l..]);
    assert ls[f..l][0] == ls[f] && ls[f..l][l - f - 1] == ls[l - 1];
    assert l < |ls| ==> ls[l..][|ls| - l - 1] == ls[|ls| - 1];
  }

  lemma {:induction false} CutOrder(ls: seq<string>) returns (f: nat, l: nat)
    requires FirstAuth(ls) < |ls|
    ensures f == FirstAuth(ls) < l == AfterLastAuth(ls) <= |ls| && PartsOf(ls) == PartsAt(ls, f, l)
  {
    AuthBounds(ls);
    f, l := FirstAuth(ls), AfterLastAuth(ls);
  }

  lemma {:induction false} CutIsFree(ls: seq<string>)
    requires FirstAuth(ls) < AfterLastAuth(ls)
    ensures var p := PartsOf(ls); NoAuth(p.head) && NoAuth(p.tail)
  {
    AuthBounds(ls);
    LastAuthBounds(ls);
  }

  lemma {:induction false} CutParts(ls: seq<string>)
    requires FirstAuth(ls) < |ls|
    ensures var f, l := FirstAuth(ls), AfterLastAuth(ls); f < l && IsCut(ls, PartsOf(ls), ls[f], ls[l - 1])
  {
    var f, l := CutOrder(ls);
    CutAt(ls, f, l);
  }

  lemma {:induction false} CutEnds(ls: seq<string>)
    requires FirstAuth(ls) < |ls|
    ensures var p := PartsOf(ls); p.auth != [] && IsAuthLine(p.auth[0]) && IsAuthLine(p.auth[|p.auth| - 1])
  {
    CutParts(ls);
    AuthBounds(ls);
    LastAuthBounds(ls);
  }

  lemma {:induction false} FreeParts(a: seq<string>, b: seq<string>, c: seq<string>)
    requires Free(a + (b + c))
    ensures Free(a) && Free(b) && Free(c)
  {
    WholeAppend(b, c);
    WholeAppend(a, b + c);
    MentionsAppend(b, c, BEGIN);
    MentionsAppend(a, b + c, BEGIN);
    MentionsAppend(b, c, WALLET_BEGIN);
    MentionsAppend(a, b + c, WALLET_BEGIN);
  }

  lemma {:induction false} PristineOf(ls: seq<string>)
    requires Free(ls) && FirstAuth(ls) < |ls| && EndsWith(ls[|ls| - 1], "\n")
    ensures Pristine(PartsOf(ls))
  {
    CutParts(ls);
    CutIsFree(ls);
    CutEnds(ls);
    var p := PartsOf(ls);
    FreeParts(p.head, p.auth, p.tail);
  }

  lemma {:induction false} FreeLines(text: string)
    requires EndsWith(text, "\n") && !Contains(text, BEGIN) && !Contains(text, WALLET_BEGIN)
    ensures var ls := SplitLines(text); Free(ls) && ls != [] && EndsWith(ls[|ls| - 1], "\n") && Join(ls) == text
  {
    var ls := SplitLines(text);
    EndedIsWhole(text);
    MarkersAreLines();
    MentionsOfJoin(ls, BEGIN);
    MentionsOfJoin(ls, WALLET_BEGIN);
  }

  lemma {:induction false} FairIsPristine(v: Service)
    requires IsFair(v) && HasAuth(v)
    ensures Pristine(PartsOfService(v)) && IsBlock(Face(v), BEGIN)
  {
    FreeLines(v.base);
    PristineOf(SplitLines(v.base));
    FaceIsBlock(v.gates, v.line);
  }

  lemma {:induction false} NothingPatched(p: Parts, face: seq<string>)
    ensures Patched(p, face, false, false) == p.head + (p.auth + p.tail)
            && Released(p, false) == p.head + (p.auth + p.tail)
  {
    assert [] + (p.tail + []) == p.tail;
    assert [] + (p.auth + p.tail) == p.auth + p.tail;
  }

  lemma {:induction false} BaseIsUnpatched(v: Service)
    requires IsFair(v) && HasAuth(v)
    ensures PatchedText(v, false, false) == v.base && ReleasedText(v, false) == v.base
  {
    var ls := SplitLines(v.base);
    CutParts(ls);
    NothingPatched(PartsOf(ls), Face(v));
    EndedIsWhole(v.base);
  }

  lemma {:induction false} HeaderChars()
    ensures |OWN_HEADER| == 34 && 'B' !in OWN_HEADER && OWN_HEADER[32] == 'l' && OWN_HEADER[33] == 'o'
  {
    assert 'B' !in "#%PAM-1.0\n" && 'B' !in "# Created by " && 'B' !in "linux-hello";
    assert OWN_HEADER[32] == "linux-hello"[9] && OWN_HEADER[33] == "linux-hello"[10];
  }

  /** A block of ours cannot make a file look like one of our own files. */
  lemma {:induction false} NotOurHeader(head: string, block: string, rest: string)
    requires |block| >= 3 && block[0] == '#' && block[2] == 'B' && !StartsWith(head + rest, OWN_HEADER)
    ensures !StartsWith(head + (block + rest), OWN_HEADER)
  {
    HeaderChars();
    var t, n := head + (block + rest), |head|;
    assert t[n] == '#' && t[n + 2] == 'B';
    if |t| >= 34 {
      if n + 2 < 34 {
        assert t[..34][n + 2] == 'B';
      } else if n < 34 {
        assert t[..34][n] == '#';
      } else {
        assert t[..34] == (head + rest)[..34];
      }
    }
  }

  predicate BlockText(s: string) {
    s == "" || (|s| >= 3 && s[0] == '#' && s[2] == 'B')
  }

  lemma {:induction false} NotOurHeaderAround(h: string, x: string, rest: string)
    requires BlockText(x) && !StartsWith(h + rest, OWN_HEADER)
    ensures !StartsWith(h + (x + rest), OWN_HEADER)
  {
    if x == "" {
      assert x + rest == rest;
    } else {
      NotOurHeader(h, x, rest);
    }
  }

  lemma {:induction false} NotOurHeaderSpliced(h: string, x: string, a: string, y: string, t: string, z: string)
    requires BlockText(x) && BlockText(y) && BlockText(z) && !StartsWith(h + (a + t), OWN_HEADER)
    ensures !StartsWith(h + (x + (a + (y + (t + z)))), OWN_HEADER)
  {
    var all := h + (a + t);
    assert all + "" == all && z + "" == z;
    NotOurHeaderAround(all, z, "");
    assert all + z == (h + a) + (t + z);
    NotOurHeaderAround(h + a, y, t + z);
    assert (h + a) + (y + (t + z)) == h + (a + (y + (t + z)));
    NotOurHeaderAround(h, x, a + (y + (t + z)));
  }

  lemma {:induction false} MarkedText(mark: string, inner: seq<string>)
    requires mark in BEGINS
    ensures BlockText(Join(Marked(mark, inner)))
  {
    var m := Marked(mark, inner);
    assert m[0] == mark + "\n" && mark[0] == '#' && mark[2] == 'B';
    assert Join(m)[0] == m[0][0] && Join(m)[2] == m[0][2];
  }

  lemma {:induction false} PickText(on: bool, mark: string, inner: seq<string>)
    requires mark in BEGINS
    ensures BlockText(Join(Pick(on, Marked(mark, inner))))
  {
    MarkedText(mark, inner);
  }

  lemma {:induction false} PatchedIsNoHeader(v: Service, insert: bool, wallet: bool)
    requires IsFair(v) && HasAuth(v)
    ensures !StartsWith(PatchedText(v, insert, wallet), OWN_HEADER)
  {
    var p := PartsOfService(v);
    var x, y, z := Pick(insert, Marked(BEGIN, Face(v))), Pick(wallet, Marked(WALLET_BEGIN, HOLD)),
                   Pick(wallet, Marked(WALLET_BEGIN, REMEMBER));
    BaseIsJoin(v);
    PickText(insert, BEGIN, Face(v));
    PickText(wallet, WALLET_BEGIN, HOLD);
    PickText(wallet, WALLET_BEGIN, REMEMBER);
    SplicedJoin(p, x, y, z);
    NotOurHeaderSpliced(Join(p.head), Join(x), Join(p.auth), Join(y), Join(p.tail), Join(z));
  }

  lemma {:induction false} BaseIsJoin(v: Service)
    requires IsFair(v) && HasAuth(v)
    ensures var p := PartsOfService(v); v.base == Join(p.head) + (Join(p.auth) + Join(p.tail))
  {
    var ls := SplitLines(v.base);
    JoinOfSplit(v.base);
    CutParts(ls);
    var p := PartsOf(ls);
    JoinAppend(p.auth, p.tail);
    JoinAppend(p.head, p.auth + p.tail);
  }

  lemma {:induction false} ReleasedIsNoHeader(v: Service, wallet: bool)
    requires IsFair(v) && HasAuth(v)
    ensures !StartsWith(ReleasedText(v, wallet), OWN_HEADER)
  {
    var p := PartsOfService(v);
    var x := Pick(wallet, Marked(WALLET_BEGIN, RELEASE));
    BaseIsJoin(v);
    PickText(wallet, WALLET_BEGIN, RELEASE);
    SplicedJoin(p, x, [], []);
    NotOurHeaderSpliced(Join(p.head), Join(x), Join(p.auth), "", Join(p.tail), "");
  }

  /** Everything the cells below need to know about the patched texts. */
  lemma {:induction false} PatchedTexts(v: Service, insert: bool, wallet: bool)
    requires IsFair(v) && HasAuth(v)
    ensures var t := PatchedText(v, insert, wallet);
            (Contains(t, BEGIN) <==> insert) && (Contains(t, WALLET_BEGIN) <==> wallet) && !StartsWith(t, OWN_HEADER)
            && RemoveBlock(t, [BEGIN]) == PatchedText(v, false, wallet)
            && RemoveBlock(t, [WALLET_BEGIN]) == PatchedText(v, insert, false)
            && RemoveBlock(t, BEGINS) == v.base
    ensures InsertBlock(PatchedText(v, false, wallet), v.gates, v.line) == Done(PatchedText(v, true, wallet))
    ensures InsertWalletRemember(PatchedText(v, insert, false)) == Done(PatchedText(v, insert, true))
    ensures PatchedText(v, false, false) == v.base
  {
    BaseIsUnpatched(v);
    PatchedTextHas(v, insert, wallet);
    PatchedTextLoses(v, insert, wallet);
    PatchedTextGains(v, insert, wallet);
  }

  lemma {:induction false} PatchedTextHas(v: Service, insert: bool, wallet: bool)
    requires IsFair(v) && HasAuth(v)
    ensures var t := PatchedText(v, insert, wallet);
            (Contains(t, BEGIN) <==> insert) && (Contains(t, WALLET_BEGIN) <==> wallet) && !StartsWith(t, OWN_HEADER)
  {
    FairIsPristine(v);
    PatchedIsNoHeader(v, insert, wallet);
    PatchedHas(PartsOfService(v), Face(v), insert, wallet);
  }

  lemma {:induction false} PatchedTextLoses(v: Service, insert: bool, wallet: bool)
    requires IsFair(v) && HasAuth(v)
    ensures var t := PatchedText(v, insert, wallet);
            && RemoveBlock(t, [BEGIN]) == PatchedText(v, false, wallet)
               && RemoveBlock(t, [WALLET_BEGIN]) == PatchedText(v, insert, false)
            && RemoveBlock(t, BEGINS) == PatchedText(v, false, false)
  {
    MarkersAreTwo();
    RemovedText(v, insert, wallet, [BEGIN]);
    RemovedText(v, insert, wallet, [WALLET_BEGIN]);
    RemovedText(v, insert, wallet, BEGINS);
  }

  lemma {:induction false} MarkersAreTwo()
    ensures BEGIN !in [WALLET_BEGIN] && WALLET_BEGIN !in [BEGIN]
  {
    assert BEGIN[20] == '(' && WALLET_BEGIN[20] == 'k';
  }

  lemma {:induction false} PatchedTextGains(v: Service, insert: bool, wallet: bool)
    requires IsFair(v) && HasAuth(v)
    ensures InsertBlock(PatchedText(v, false, wallet), v.gates, v.line) == Done(PatchedText(v, true, wallet))
    ensures InsertWalletRemember(PatchedText(v, insert, false)) == Done(PatchedText(v, insert, true))
  {
    FairIsPristine(v);
    PatchedInsert(PartsOfService(v), v.gates, v.line, wallet);
    PatchedWallet(PartsOfService(v), Face(v), insert);
  }

  lemma {:induction false} ReleasedTexts(v: Service)
    requires IsFair(v) && HasAuth(v)
    ensures var t := ReleasedText(v, true);
            !Contains(t, BEGIN) && Contains(t, WALLET_BEGIN) && !StartsWith(t, OWN_HEADER)
            && RemoveBlock(t, [WALLET_BEGIN]) == v.base && RemoveBlock(t, BEGINS) == v.base
            && RemoveBlock(v.base, [WALLET_BEGIN]) == v.base && InsertWalletRelease(v.base) == Done(t)
  {
    FairIsPristine(v);
    BaseIsUnpatched(v);
    ReleasedIsNoHeader(v, true);
    ReleasedHas(PartsOfService(v), true);
    ReleasedRemove(PartsOfService(v), true, [WALLET_BEGIN]);
    ReleasedRemove(PartsOfService(v), true, BEGINS);
    ReleasedRemove(PartsOfService(v), false, [WALLET_BEGIN]);
    ReleasedInsert(PartsOfService(v));
  }

  // ----------------------------------------------------- cells of a service

  function FoundAction(v: Service): Action {
    if v.inEtc then Inserted else Copied
  }

  predicate Records(c: Cell, action: Action) {
    c.text.Some? && c.entry.Some? && c.entry.value.action == action && c.entry.value.recorded == c.text.value
      && c.entry.value.separator == ""
  }

  /** The service untouched: its file as found, no entry. */
  predicate IsUntouched(v: Service, c: Cell) {
    c == Cell(if v.inEtc then Some(v.base) else None, None)
  }

  /** The service with the face block, KWallet's blocks, both or neither. */
  predicate IsServiceCell(v: Service, c: Cell, insert: bool, wallet: bool) {
    if insert || wallet then HasAuth(v) && c.text == Some(PatchedText(v, insert, wallet)) && Records(c, FoundAction(v))
    else IsUntouched(v, c)
  }

  predicate IsReleaseCell(v: Service, c: Cell, wallet: bool) {
    if wallet then HasAuth(v) && c.text == Some(ReleasedText(v, true)) && Records(c, FoundAction(v))
    else IsUntouched(v, c)
  }

  /** What the files in /etc and the vendor directory hold agrees with the service. */
  predicate VendorFits(v: Service, vendor: Option<string>) {
    !v.inEtc ==> vendor == Some(v.base)
  }

  lemma {:induction false} FairWithoutAuth(v: Service)
    requires IsFair(v) && !HasAuth(v)
    ensures RemoveBlock(v.base, [BEGIN]) == v.base && RemoveBlock(v.base, [WALLET_BEGIN]) == v.base
            && RemoveBlock(v.base, BEGINS) == v.base
    ensures InsertBlock(v.base, v.gates, v.line).Refused?
    ensures InsertWalletRelease(v.base).Refused? && InsertWalletRemember(v.base).Refused?
  {
    RemoveFromUnmarked(v.base, [BEGIN]);
    RemoveFromUnmarked(v.base, [WALLET_BEGIN]);
    RemoveFromUnmarked(v.base, BEGINS);
    EndedIsWhole(v.base);
    NoAuthMeansNoLast(SplitLines(v.base));
  }

  lemma {:induction false} NoAuthMeansNoLast(ls: seq<string>)
    requires FirstAuth(ls) == |ls|
    ensures AfterLastAuth(ls) == 0
  {
    AuthBounds(ls);
    assert ls[..|ls|] == ls;
    NoLastAuth(ls);
  }

  /** Writing a text over a file that already holds a block keeps how it came to be. */
  lemma {:induction false} RewrittenCell(c: Cell, vendor: Option<string>, text: string, made: string, target: Target,
                                         found: Action, on: bool)
    requires SourceText(c, vendor) == Some(text) && (made == text ==> on)
    requires if on then HasAnyBlock(text) && Records(c, found)
             else c.entry.None? && found == (if c.text.Some? then Inserted else Copied)
    ensures var r := Rewritten(c, text, Done(made), target);
            r.Done? && r.value.text == Some(made) && Records(r.value, found)
  {
  }

  /** Taking blocks out of a file of ours: it stays while another block is in
      it, and is as found once none is. */
  lemma {:induction false} RevertedCell(c: Cell, begins: seq<string>, cleaned: string, found: Action, on: bool)
    requires Records(c, found) && found != Created && !StartsWith(c.text.value, OWN_HEADER)
    requires RemoveBlock(c.text.value, begins) == cleaned && HasAnyBlock(cleaned) == on
             && (cleaned == c.text.value ==> on)
    ensures var r := Reverted(c, begins, false);
            if on then r.text == Some(cleaned) && Records(r, found)
            else r == Cell(if found == Inserted then Some(cleaned) else None, None)
  {
  }

  lemma {:induction false} ServiceSource(v: Service, c: Cell, vendor: Option<string>, insert: bool, wallet: bool)
    requires IsFair(v) && HasAuth(v) && IsServiceCell(v, c, insert, wallet) && VendorFits(v, vendor)
    ensures SourceText(c, vendor) == Some(PatchedText(v, insert, wallet))
    ensures if insert || wallet then Records(c, FoundAction(v)) else c.entry.None? && c.text.Some? == v.inEtc
  {
    BaseIsUnpatched(v);
  }

  /** Turning the face block on: succeeds exactly when the file has an auth
      line, whatever else is in the file already. */
  lemma {:induction false} InsertCell(v: Service, c: Cell, vendor: Option<string>, insert: bool, wallet: bool,
                                      target: Target)
    requires IsFair(v) && IsServiceCell(v, c, insert, wallet) && VendorFits(v, vendor)
    ensures var r := InsertInto(c, vendor, v.gates, v.line, target);
            (r.Done? <==> HasAuth(v)) && (r.Done? ==> IsServiceCell(v, r.value, true, wallet))
  {
    if HasAuth(v) {
      var text, made := PatchedText(v, insert, wallet), PatchedText(v, true, wallet);
      InsertedText(v, insert, wallet);
      ServiceSource(v, c, vendor, insert, wallet);
      InsertIntoText(c, vendor, text, PatchedText(v, false, wallet), made, v.gates, v.line, target);
      RewrittenCell(c, vendor, text, made, target, FoundAction(v), insert || wallet);
    } else {
      FairWithoutAuth(v);
    }
  }

  lemma {:induction false} InsertedText(v: Service, insert: bool, wallet: bool)
    requires IsFair(v) && HasAuth(v)
    ensures var text, made := PatchedText(v, insert, wallet), PatchedText(v, true, wallet);
            && (insert || wallet ==> HasAnyBlock(text)) && (made == text ==> insert)
            && RemoveBlock(text, [BEGIN]) == PatchedText(v, false, wallet)
            && InsertBlock(PatchedText(v, false, wallet), v.gates, v.line) == Done(made)
  {
    PatchedTextHas(v, insert, wallet);
    PatchedTextHas(v, true, wallet);
    PatchedTextLoses(v, insert, wallet);
    PatchedTextGains(v, insert, wallet);
  }

  lemma {:induction false} InsertIntoText(c: Cell, vendor: Option<string>, text: string, clean: string, made: string,
                                          gates: seq<string>, line: string, target: Target)
    requires SourceText(c, vendor) == Some(text) && RemoveBlock(text, [BEGIN]) == clean
             && InsertBlock(clean, gates, line) == Done(made)
    ensures InsertInto(c, vendor, gates, line, target) == Rewritten(c, text, Done(made), target)
  {
  }

  lemma {:induction false} RememberCell(v: Service, c: Cell, vendor: Option<string>, insert: bool, wallet: bool,
                                        target: Target)
    requires IsFair(v) && IsServiceCell(v, c, insert, wallet) && VendorFits(v, vendor)
    ensures var r := WalletInto(c, vendor, false, target);
            (r.Done? <==> HasAuth(v)) && (r.Done? ==> IsServiceCell(v, r.value, insert, true))
  {
    if HasAuth(v) {
      var text, made := PatchedText(v, insert, wallet), PatchedText(v, insert, true);
      RememberedText(v, insert, wallet);
      ServiceSource(v, c, vendor, insert, wallet);
      WalletIntoText(c, vendor, text, PatchedText(v, insert, false), made, false, target);
      RewrittenCell(c, vendor, text, made, target, FoundAction(v), insert || wallet);
    } else {
      FairWithoutAuth(v);
    }
  }

  lemma {:induction false} RememberedText(v: Service, insert: bool, wallet: bool)
    requires IsFair(v) && HasAuth(v)
    ensures var text, made := PatchedText(v, insert, wallet), PatchedText(v, insert, true);
            && (insert || wallet ==> HasAnyBlock(text)) && (made == text ==> wallet)
            && RemoveBlock(text, [WALLET_BEGIN]) == PatchedText(v, insert, false)
            && InsertWalletRemember(PatchedText(v, insert, false)) == Done(made)
  {
    PatchedTextHas(v, insert, wallet);
    PatchedTextHas(v, insert, true);
    PatchedTextLoses(v, insert, wallet);
    PatchedTextGains(v, insert, wallet);
  }

  lemma {:induction false} WalletIntoText(c: Cell, vendor: Option<string>, text: string, clean: string, made: string,
                                          release: bool, target: Target)
    requires SourceText(c, vendor) == Some(text) && RemoveBlock(text, [WALLET_BEGIN]) == clean
    requires (if release then InsertWalletRelease(clean) else InsertWalletRemember(clean)) == Done(made)
    ensures WalletInto(c, vendor, release, target) == Rewritten(c, text, Done(made), target)
  {
  }

  lemma {:induction false} ReleaseCell(v: Service, c: Cell, vendor: Option<string>, wallet: bool, target: Target)
    requires IsFair(v) && IsReleaseCell(v, c, wallet) && VendorFits(v, vendor)
    ensures var r := WalletInto(c, vendor, true, target);
            (r.Done? <==> HasAuth(v)) && (r.Done? ==> IsReleaseCell(v, r.value, true))
  {
    if HasAuth(v) {
      ReleasedTexts(v);
      assert SourceText(c, vendor) == Some(if wallet then ReleasedText(v, true) else v.base);
    } else {
      FairWithoutAuth(v);
    }
  }

  /** Turning blocks off leaves exactly the others, and with none left the file as found. */
  lemma {:induction false} RevertCell(v: Service, c: Cell, insert: bool, wallet: bool, begins: seq<string>)
    requires IsFair(v) && IsServiceCell(v, c, insert, wallet) && begins in [[BEGIN], [WALLET_BEGIN], BEGINS]
    ensures IsServiceCell(v, Reverted(c, begins, false), insert && BEGIN !in begins, wallet && WALLET_BEGIN !in begins)
  {
    if insert || wallet {
      var i, w := insert && BEGIN !in begins, wallet && WALLET_BEGIN !in begins;
      RemovedText(v, insert, wallet, begins);
      PatchedTexts(v, insert, wallet);
      PatchedTexts(v, i, w);
      RevertedCell(c, begins, PatchedText(v, i, w), FoundAction(v), i || w);
    } else {
      RevertUntouched(v, c, begins);
    }
  }

  lemma {:induction false} RemovedText(v: Service, insert: bool, wallet: bool, begins: seq<string>)
    requires IsFair(v) && HasAuth(v) && begins in [[BEGIN], [WALLET_BEGIN], BEGINS]
    ensures RemoveBlock(PatchedText(v, insert, wallet), begins)
         == PatchedText(v, insert && BEGIN !in begins, wallet && WALLET_BEGIN !in begins)
  {
    FairIsPristine(v);
    PatchedRemove(PartsOfService(v), Face(v), insert, wallet, begins);
  }

  lemma {:induction false} RevertUntouched(v: Service, c: Cell, begins: seq<string>)
    requires IsFair(v) && IsUntouched(v, c) && begins in [[BEGIN], [WALLET_BEGIN], BEGINS]
    ensures Reverted(c, begins, false) == c
  {
    RemoveFromUnmarked(v.base, begins);
  }

  lemma {:induction false} RevertReleaseCell(v: Service, c: Cell, wallet: bool, begins: seq<string>)
    requires IsFair(v) && IsReleaseCell(v, c, wallet) && begins in [[WALLET_BEGIN], BEGINS]
    ensures IsReleaseCell(v, Reverted(c, begins, false), false)
  {
    if wallet {
      ReleasedTexts(v);
    } else {
      RevertUntouched(v, c, begins);
    }
  }

  // ----------------------------------------------- the lock screen's option

  const OPTION_LINES := ["[Authenticators]\n", "Face=true\n"]
  const OPTION_BLOCK := Join(Marked(BEGIN, OPTION_LINES))

  function Separator(text: string): string {
    if text == "" || EndsWith(text, "\n\n") then "" else if EndsWith(text, "\n") then "\n" else "\n\n"
  }

  /** _enable_kde_config */
  function OptionInto(c: Cell, target: Target): Cell {
    if c.text.None? then Cell(Some(OPTION_BLOCK), Some(Entry(Created, target, OPTION_BLOCK, "")))
    else
      var text := c.text.value;
      if Contains(text, BEGIN) then c
      else
        var made := text + Separator(text) + OPTION_BLOCK;
        Cell(Some(made), Some(Entry(Inserted, target, made, Separator(text))))
  }

  /** None of our markers, not one of our own files. */
  predicate IsForeign(text: Option<string>) {
    text.Some? ==> !HasAnyBlock(text.value) && !StartsWith(text.value, OWN_HEADER)
  }

  predicate IsOptionCell(found: Option<string>, c: Cell, on: bool) {
    if !on then c == Cell(found, None)
    else if found.None? then c.text == Some(OPTION_BLOCK) && Records(c, Created)
    else c.text == Some(found.value + Separator(found.value) + OPTION_BLOCK)
         && c.entry.Some? && c.entry.value.action == Inserted && c.entry.value.recorded == c.text.value
         && c.entry.value.separator == Separator(found.value)
  }

  lemma {:induction false} OptionIsBlock()
    ensures IsBlock(OPTION_LINES, BEGIN)
  {
    var a, b := OPTION_LINES[0], OPTION_LINES[1];
    assert WALLET_BEGIN[0] == '#';
    assert '#' !in a && '#' !in b;
    ContainsNeedsChar(a, WALLET_BEGIN, '#');
    ContainsNeedsChar(b, WALLET_BEGIN, '#');
    OptionLinesAreInner();
    assert OPTION_LINES == [a, b];
    TwoMentionNothing(a, b, WALLET_BEGIN);
    MarkedIsBlock(OPTION_LINES, BEGIN);
  }

  lemma {:induction false} TwoMentionNothing(a: string, b: string, m: string)
    requires !Contains(a, m) && !Contains(b, m)
    ensures !Mentions([a, b], m)
  {
    assert [a, b][1..] == [b] && |[b][1..]| == 0;
    assert !Mentions([b], m);
  }

  lemma {:induction false} OptionLinesAreInner()
    ensures IsInner(OPTION_LINES) && Whole(OPTION_LINES)
  {
    TwoAreInner(OPTION_LINES[0], OPTION_LINES[1]);
  }

  lemma {:induction false} TwoAreInner(a: string, b: string)
    requires IsLine(a) && EndsInBreak(a) && IsLine(b) && EndsInBreak(b)
    requires a[0] != '#' && !IsSpace(a[0]) && b[0] != '#' && !IsSpace(b[0])
    ensures IsInner([a, b]) && Whole([a, b])
  {
    assert [a, b][1..] == [b];
    assert Whole([b]) && IsInner([b]);
  }

  /** A text without our markers, as lines. */
  lemma {:induction false} FreeText(u: string) returns (ls: seq<string>)
    requires (u == "" || EndsWith(u, "\n")) && !HasAnyBlock(u)
    ensures Join(ls) == u && Free(ls)
  {
    ls := SplitLines(u);
    JoinOfSplit(u);
    if u != "" {
      FreeLines(u);
    }
  }

  /** Lines with a block behind them: the block is found and comes off again. */
  lemma {:induction false} BlockBehind(ls: seq<string>, inner: seq<string>, begins: seq<string>)
    requires Free(ls) && IsBlock(inner, BEGIN) && begins in [[BEGIN], BEGINS]
    ensures var text := Join(ls + Marked(BEGIN, inner));
            Contains(text, BEGIN) && !Contains(text, WALLET_BEGIN) && RemoveBlock(text, begins) == Join(ls)
  {
    var block := Marked(BEGIN, inner);
    BlockMentions(ls, inner);
    SplitOfWhole(ls + block);
    FreeIsUnmarked(ls, begins);
    OutsideUnmarked(ls, block, begins);
    OutsideBlock(BEGIN, inner, [], begins);
    assert block + [] == block;
    assert ls + ([] + []) == ls;
  }

  lemma {:induction false} BlockMentions(ls: seq<string>, inner: seq<string>)
    requires Free(ls) && IsBlock(inner, BEGIN)
    ensures var all := ls + Marked(BEGIN, inner);
            Whole(all) && Contains(Join(all), BEGIN) && !Contains(Join(all), WALLET_BEGIN)
  {
    var block := Marked(BEGIN, inner);
    WholeAppend(ls, block);
    MarkersAreLines();
    assert BEGIN != WALLET_BEGIN by { assert |BEGIN| != |WALLET_BEGIN|; }
    MentionsAppend(ls, block, BEGIN);
    MentionsAppend(ls, block, WALLET_BEGIN);
    MentionsOfJoin(ls + block, BEGIN);
    MentionsOfJoin(ls + block, WALLET_BEGIN);
  }

  /** A text with our option block behind it. */
  lemma {:induction false} OptionText(u: string, begins: seq<string>)
    requires (u == "" || EndsWith(u, "\n")) && !HasAnyBlock(u) && begins in [[BEGIN], BEGINS]
    ensures Contains(u + OPTION_BLOCK, BEGIN) && !Contains(u + OPTION_BLOCK, WALLET_BEGIN)
    ensures RemoveBlock(u + OPTION_BLOCK, begins) == u
  {
    var ls := FreeText(u);
    OptionIsBlock();
    BlockBehind(ls, OPTION_LINES, begins);
    JoinAppend(ls, Marked(BEGIN, OPTION_LINES));
  }

  lemma {:induction false} SeparatedEnds(text: string)
    ensures var sep, u := Separator(text), text + Separator(text);
            (u == "" || EndsWith(u, "\n")) && EndsWith(u, sep) && u[..|u| - |sep|] == text
  {
    var sep, u := Separator(text), text + Separator(text);
    assert u[|u| - |sep|..] == sep;
    assert sep != "" ==> u[|u| - 1..] == "\n";
    if sep == "" && u != "" {
      assert u == text && u[|u| - 2..] == "\n\n";
      assert u[|u| - 1..] == u[|u| - 2..][1..];
    }
  }

  lemma {:induction false} SeparatedIsNoHeader(text: string)
    requires !StartsWith(text, OWN_HEADER)
    ensures !StartsWith(text + Separator(text), OWN_HEADER)
  {
    var u := text + Separator(text);
    HeaderChars();
    if |u| >= 34 {
      if |text| >= 34 {
        assert u[..34] == text[..34];
      } else {
        assert u[..34][|text|] == '\n';
      }
    }
  }

  lemma {:induction false} SeparatedText(text: string)
    requires !HasAnyBlock(text) && !StartsWith(text, OWN_HEADER)
    ensures var sep, u := Separator(text), text + Separator(text);
            (u == "" || EndsWith(u, "\n")) && !HasAnyBlock(u) && !StartsWith(u, OWN_HEADER) && EndsWith(u, sep)
              && u[..|u| - |sep|] == text
  {
    SeparatedEnds(text);
    SeparatedIsNoHeader(text);
    MarkersAreLines();
    NewlinesMentionNothing(text, BEGIN);
    NewlinesMentionNothing(text, WALLET_BEGIN);
    assert text + "" == text;
  }

  lemma {:induction false} NewlinesMentionNothing(text: string, m: string)
    requires HasContent(m) && !Contains(text, m)
    ensures !Contains(text + "\n", m) && !Contains(text + "\n\n", m)
  {
    assert text + "\n\n" == (text + "\n") + "\n";
    if Contains(text + "\n", m) {
      ContainsBeforeNewline(text, m);
    }
    if Contains(text + "\n\n", m) {
      ContainsBeforeNewline(text + "\n", m);
    }
  }

  lemma {:induction false} OptionIsFound(found: Option<string>, text: string)
    requires IsForeign(found)
    requires text == if found.None? then OPTION_BLOCK else found.value + Separator(found.value) + OPTION_BLOCK
    ensures Contains(text, BEGIN)
  {
    var u := InFrontOfOption(found, text, OPTION_BLOCK);
    OptionText(u, [BEGIN]);
  }

  lemma {:induction false} InFrontOfOption(found: Option<string>, text: string, block: string) returns (u: string)
    requires IsForeign(found) && text == if found.None? then block else found.value + Separator(found.value) + block
    ensures text == u + block && (u == "" || EndsWith(u, "\n")) && !HasAnyBlock(u)
  {
    if found.Some? {
      u := found.value + Separator(found.value);
      SeparatedText(found.value);
    } else {
      u := "";
      EmptyIsForeign();
      Nothing(block);
    }
  }

  lemma {:induction false} Nothing(s: string)
    ensures "" + s == s
  {
  }

  lemma {:induction false} OptionStays(c: Cell, target: Target)
    requires c.text.Some? && Contains(c.text.value, BEGIN)
    ensures OptionInto(c, target) == c
  {
  }

  lemma {:induction false} OptionCell(found: Option<string>, c: Cell, on: bool, target: Target)
    requires IsForeign(found) && IsOptionCell(found, c, on)
    ensures IsOptionCell(found, OptionInto(c, target), true)
  {
    if on {
      OptionIsFound(found, c.text.value);
      OptionStays(c, target);
    }
  }

  lemma {:induction false} OptionIsNoHeader(u: string)
    requires !StartsWith(u, OWN_HEADER)
    ensures !StartsWith(u + OPTION_BLOCK, OWN_HEADER)
  {
    MarkedText(BEGIN, OPTION_LINES);
    assert OPTION_BLOCK + "" == OPTION_BLOCK && u + "" == u;
    NotOurHeaderAround(u, OPTION_BLOCK, "");
  }

  lemma {:induction false} RevertedInserted(c: Cell, begins: seq<string>, cleaned: string, entry: Entry)
    requires c.text.Some? && c.entry == Some(entry) && entry.action == Inserted && !StartsWith(c.text.value, OWN_HEADER)
    requires RemoveBlock(c.text.value, begins) == cleaned && !HasAnyBlock(cleaned) && cleaned != c.text.value
    requires EndsWith(cleaned, entry.separator)
    ensures Reverted(c, begins, false) == Cell(Some(cleaned[..|cleaned| - |entry.separator|]), None)
  {
    assert entry.separator == "" ==> cleaned[..|cleaned| - |entry.separator|] == cleaned;
  }

  lemma {:induction false} RevertedCreated(c: Cell, begins: seq<string>, cleaned: string)
    requires Records(c, Created) && !StartsWith(c.text.value, OWN_HEADER)
    requires RemoveBlock(c.text.value, begins) == cleaned && !HasAnyBlock(cleaned)
    ensures Reverted(c, begins, false) == Cell(None, None)
  {
  }

  lemma {:induction false} RevertOptionCell(found: Option<string>, c: Cell, on: bool, begins: seq<string>)
    requires IsForeign(found) && IsOptionCell(found, c, on) && begins in [[BEGIN], BEGINS]
    ensures IsOptionCell(found, Reverted(c, begins, false), false)
  {
    if !on {
      if found.Some? {
        RemoveFromUnmarked(found.value, begins);
      }
    } else if found.None? {
      EmptyIsForeign();
      OptionText("", begins);
      OptionIsNoHeader("");
      assert "" + OPTION_BLOCK == OPTION_BLOCK;
      RevertedCreated(c, begins, "");
    } else {
      var u := found.value + Separator(found.value);
      SeparatedText(found.value);
      OptionText(u, begins);
      OptionIsNoHeader(u);
      RevertedInserted(c, begins, u, c.entry.value);
    }
  }

  lemma {:induction false} EmptyIsForeign()
    ensures !HasAnyBlock("") && !StartsWith("", OWN_HEADER)
  {
    MarkersAreLines();
  }

  // ------------------------------------------------------- what a revert does

  /** Reverting removes a file exactly when it is one of ours by name or header,
      or when none of our blocks is left and it was made or copied by us: a copy
      only as we wrote it and with our block gone, a file we made also when
      nothing but blanks is left. Otherwise everything outside our blocks stays,
      but for the separator recorded in front of a block. */
  lemma {:induction false} RevertedExactly(c: Cell, begins: seq<string>, dropIn: bool)
    requires c.text.Some?
    ensures var text, r := c.text.value, Reverted(c, begins, dropIn);
            var cleaned := RemoveBlock(text, begins);
            var asWritten := c.entry.Some? && text == c.entry.value.recorded;
            && (r.text.None?
                <==> dropIn || StartsWith(text, OWN_HEADER)
                     || (!HasAnyBlock(cleaned) && c.entry.Some?
                         && ((c.entry.value.action == Created && (asWritten || Blank(cleaned)))
                             || (c.entry.value.action == Copied && asWritten && cleaned != text))))
            && (r.text.Some?
                ==> r.text.value == cleaned || (c.entry.Some? && r.text.value + c.entry.value.separator == cleaned))
            && (r.text.Some? && HasAnyBlock(cleaned) ==> r.text.value == cleaned)
            && (r.entry.Some? ==> HasAnyBlock(cleaned))
  {
    var text := c.text.value;
    var cleaned := RemoveBlock(text, begins);
    if c.entry.Some? {
      var separator := c.entry.value.separator;
      if EndsWith(cleaned, separator) {
        assert cleaned[..|cleaned| - |separator|] + separator == cleaned;
      }
    }
  }
}
