/** PamIntegration over a whole tree: which files a target means, turning
    targets on and off, and the manifest. Files are the map from path to text;
    an unreadable file is not part of the tree. */
module PamTargets {
  import opened Text
  import opened Outcomes
  import opened PamLines
  import opened PamCells
  import PamIncludes
  import PamOwnStack

  datatype Path =
    | Etc(service: string)
    | VendorLib(service: string)
    | VendorEtc(service: string)
    | LockConfig
    | LoginConf
    | DropIn

  type Files = map<Path, string>
  datatype Disk = Disk(files: Files, manifest: map<Path, Entry>)

  /** What the machine has besides its PAM files: a greeter that knows kde-face,
      the login manager's binary, and Plasma's Wayland session. */
  datatype System = System(kdeFace: bool, loginManager: bool, wayland: bool)

  datatype Kind = Own | LockOption | Insert | WalletRelease | WalletRemember | AutoLoginUser
  datatype Item = Item(service: string, kind: Kind)

  const PASSWORD_FIRST_SERVICES := ["plasmalogin", "sddm"]
  const KDE_FACE := Item("kde-face", Own)
  const LOCK_OPTION := Item("kscreenlockerrc", LockOption)
  const RELEASE_ITEM := Item("plasmalogin-autologin", WalletRelease)
  const REMEMBER_ITEM := Item("plasmalogin", WalletRemember)
  const DROP_IN := Item("plasmalogin.conf.d", AutoLoginUser)

  function PathOf(item: Item): Path {
    match item.kind
    case LockOption => LockConfig
    case AutoLoginUser => DropIn
    case _ => Etc(item.service)
  }

  function Get<K, V>(m: map<K, V>, k: K): Option<V> {
    if k in m then Some(m[k]) else None
  }

  function Set<K, V>(m: map<K, V>, k: K, v: Option<V>): map<K, V> {
    if v.Some? then m[k := v.value] else m - {k}
  }

  function CellAt(d: Disk, p: Path): Cell {
    Cell(Get(d.files, p), Get(d.manifest, p))
  }

  function WithCell(d: Disk, p: Path, c: Cell): Disk {
    Disk(Set(d.files, p, c.text), Set(d.manifest, p, c.entry))
  }

  lemma {:induction false} WithCellAt(d: Disk, p: Path, c: Cell)
    ensures CellAt(WithCell(d, p, c), p) == c
    ensures forall q :: q != p ==> CellAt(WithCell(d, p, c), q) == CellAt(d, q)
  {
  }

  // ------------------------------------------------------- finding services

  function Vendor(files: Files, service: string): Option<Path> {
    if VendorLib(service) in files then Some(VendorLib(service))
    else if VendorEtc(service) in files then Some(VendorEtc(service))
    else None
  }

  function Find(files: Files, service: string): Option<Path> {
    if Etc(service) in files then Some(Etc(service)) else Vendor(files, service)
  }

  function TextAt(files: Files, p: Option<Path>): Option<string> {
    if p.Some? then Get(files, p.value) else None
  }

  predicate IsServicePath(p: Path) {
    p.Etc? || p.VendorLib? || p.VendorEtc?
  }

  function FindMap(files: Files): map<string, Path> {
    var names := set p | p in files && IsServicePath(p) :: p.service;
    map s | s in names && Find(files, s).Some? :: Find(files, s).value
  }

  function GraphOf(files: Files): PamIncludes.Files<Path> {
    PamIncludes.Files(map p | p in files :: PamIncludes.ItemsOf(FindMap(files), SplitLines(files[p])))
  }

  /** _gates */
  function Gates(files: Files, text: string): seq<string> {
    var items := PamIncludes.ItemsOf(FindMap(files), SplitLines(RemoveBlock(text, BEGINS)));
    GatesOf(PamIncludes.AuthLines(GraphOf(files), items, 0, {}).found)
  }

  /** One line of _includes. */
  predicate PullsIn(line: string, other: string) {
    var parts := Words(line);
    |parts| >= 3 && StripChar(parts[0], '-') == "auth" && parts[1] in ["include", "substack"] && parts[2] == other
  }

  predicate AnyPullsIn(ls: seq<string>, other: string) {
    ls != [] && (PullsIn(ls[0], other) || AnyPullsIn(ls[1..], other))
  }

  predicate Includes(files: Files, service: string, other: string) {
    var text := TextAt(files, Find(files, service));
    text.Some? && AnyPullsIn(SplitLines(text.value), other)
  }

  /** _plan */
  function Plan(sys: System, files: Files, target: Target): seq<Item> {
    match target
    case LockScreen =>
      if sys.kdeFace && (Find(files, "kde-fingerprint").Some? || Find(files, "kde").Some?) then [KDE_FACE, LOCK_OPTION]
      else if Find(files, "kde").Some? then [Item("kde", Insert)] else []
    case Admin => if Find(files, "polkit-1").Some? then [Item("polkit-1", Insert)] else []
    case Sudo =>
      var sudo := if Find(files, "sudo").Some? then [Item("sudo", Insert)] else [];
      if Find(files, "sudo-i").Some? && !(sudo != [] && Includes(files, "sudo-i", "sudo")) then
        sudo + [Item("sudo-i", Insert)]
      else sudo
    case Login =>
      if Find(files, "plasmalogin").Some? then [Item("plasmalogin", Insert)]
      else if Find(files, "sddm").Some? then [Item("sddm", Insert)] else []
    case AutoLogin =>
      if sys.loginManager && Find(files, "plasmalogin").Some? && Find(files, "plasmalogin-autologin").Some?
      then [RELEASE_ITEM, REMEMBER_ITEM, DROP_IN] else []
  }

  // ----------------------------------------------------- the login manager

  const AUTOLOGIN_GROUP := "Autologin"

  /** The User key of the [Autologin] group; the last one counts. */
  function IniUser(ls: seq<string>, group: Option<string>, user: Option<string>): Option<string> {
    if ls == [] then user
    else
      var s := Strip(ls[0]);
      if IsGroup(s) then IniUser(ls[1..], Some(s[1..|s| - 1]), user)
      else IniUser(ls[1..], group,
                   if group == Some(AUTOLOGIN_GROUP) && IsUserLine(s) then Some(Strip(AfterEquals(s))) else user)
  }

  predicate IsGroup(s: string) {
    |s| >= 2 && s[0] == '[' && s[|s| - 1] == ']'
  }

  predicate IsUserLine(s: string) {
    '=' in s && !StartsWith(s, "#") && Strip(BeforeEquals(s)) == "User"
  }

  function UserIn(text: string): Option<string> {
    IniUser(SplitLines(text), None, None)
  }

  /** _forget_main_autologin: the lines without those naming the user. */
  function Forgotten(ls: seq<string>, group: Option<string>, user: string): seq<string> {
    if ls == [] then []
    else
      var s := Strip(ls[0]);
      if IsGroup(s) then [ls[0]] + Forgotten(ls[1..], Some(s[1..|s| - 1]), user)
      else (if group == Some(AUTOLOGIN_GROUP) && IsUserLine(s) && Strip(AfterEquals(s)) == user then [] else [ls[0]])
           + Forgotten(ls[1..], group, user)
  }

  function ForgetMain(files: Files, user: Option<string>): Files {
    if user.None? || user.value == "" || LoginConf !in files then files
    else files[LoginConf := Join(Forgotten(SplitLines(files[LoginConf]), None, user.value))]
  }

  lemma {:induction false} IniUserStays(ls: seq<string>, group: Option<string>, user: Option<string>)
    requires user.Some?
    ensures IniUser(ls, group, user).Some?
  {
    if ls != [] {
      var s := Strip(ls[0]);
      IniUserStays(ls[1..], if IsGroup(s) then Some(s[1..|s| - 1]) else group,
                   if !IsGroup(s) && group == Some(AUTOLOGIN_GROUP) && IsUserLine(s)
                   then Some(Strip(AfterEquals(s))) else user);
    }
  }

  /** A configuration that names nobody loses nothing. */
  lemma {:induction false} NobodyForgotten(ls: seq<string>, group: Option<string>, user: string)
    requires IniUser(ls, group, None).None?
    ensures Forgotten(ls, group, user) == ls
  {
    if ls != [] {
      var s := Strip(ls[0]);
      if IsGroup(s) {
        NobodyForgotten(ls[1..], Some(s[1..|s| - 1]), user);
      } else {
        if group == Some(AUTOLOGIN_GROUP) && IsUserLine(s) {
          IniUserStays(ls[1..], group, Some(Strip(AfterEquals(s))));
        }
        NobodyForgotten(ls[1..], group, user);
      }
    }
  }

  function AutoLoginUserOf(files: Files): Option<string> {
    if DropIn !in files then None
    else var user := UserIn(files[DropIn]); if user == Some("") then None else user
  }

  predicate IsNameStart(c: char) {
    'A' <= c <= 'Z' || 'a' <= c <= 'z' || c == '_'
  }

  predicate IsUserName(user: string) {
    && user != "" && user != "root" && IsNameStart(user[0])
    && forall i :: 1 <= i < |user| ==> IsNameStart(user[i]) || '0' <= user[i] <= '9' || user[i] in ['.', '@', '-']
  }

  const DROP_IN_CREATED := "# Created by " + "linux-hello" + ": log in " + "automatically, " + "then lock the "
    + "screen."
  const DROP_IN_REMOVED := "# Removed again " + "by 'linux-hello" + "-cli disable " + "auto-login'."

  function DropInText(user: string, wayland: bool): string {
    Join([DROP_IN_CREATED + "\n", DROP_IN_REMOVED + "\n", "[Autologin]" + "\n", "User=" + user + "\n"]
         + if wayland then ["Session=plasma" + "\n"] else [])
  }

  // --------------------------------------------------------- on and off

  function LineFor(service: string): string {
    if service in PASSWORD_FIRST_SERVICES then LOGIN_INSERT_LINE else INSERT_LINE
  }

  /** _enable_own */
  function OwnInto(files: Files, c: Cell, target: Target): Result<Cell> {
    if c.text.Some? && !StartsWith(c.text.value, OWN_HEADER) then Refused
    else
      var fingerprint := TextAt(files, Find(files, "kde-fingerprint"));
      var source := if fingerprint.Some? then fingerprint else TextAt(files, Find(files, "kde"));
      if source.None? then Refused
      else
        var made := PamOwnStack.OwnStack(source.value, fingerprint.Some?);
        if made.Refused? then Refused
        else Done(Cell(Some(made.value), Some(Entry(Created, target, made.value, ""))))
  }

  /** _enable_autologin */
  function DropInInto(sys: System, files: Files, user: Option<string>, target: Target): Result<Cell> {
    var chosen := if user.Some? && user.value != "" then user else AutoLoginUserOf(files);
    if chosen.None? || !IsUserName(chosen.value) then Refused
    else
      var named := if LoginConf in files then UserIn(files[LoginConf]) else None;
      if named.Some? && named.value != chosen.value then Refused
      else var text := DropInText(chosen.value, sys.wayland);
           Done(Cell(Some(text), Some(Entry(Created, target, text, ""))))
  }

  /** One step of enable: what becomes of the item's file and entry. */
  function Step(sys: System, d: Disk, item: Item, target: Target, user: Option<string>): Result<Cell> {
    var c, vendor := CellAt(d, PathOf(item)), TextAt(d.files, Vendor(d.files, item.service));
    match item.kind
    case Own => OwnInto(d.files, c, target)
    case LockOption => Done(OptionInto(c, target))
    case AutoLoginUser => DropInInto(sys, d.files, user, target)
    case WalletRelease => WalletInto(c, vendor, true, target)
    case WalletRemember => WalletInto(c, vendor, false, target)
    case Insert =>
      var source := SourceText(c, vendor);
      if source.None? then Refused
      else InsertInto(c, vendor, Gates(d.files, source.value), LineFor(item.service), target)
  }

  function EnableAll(sys: System, d: Disk, plan: seq<Item>, target: Target, user: Option<string>): Result<Disk>
    decreases |plan|
  {
    if plan == [] then Done(d)
    else
      var r := Step(sys, d, plan[0], target, user);
      if r.Refused? then Refused else EnableAll(sys, WithCell(d, PathOf(plan[0]), r.value), plan[1..], target, user)
  }

  /** enable, when no write fails: the new disk, or Refused with everything put back. */
  function Enabled(sys: System, d: Disk, target: Target, user: Option<string>): Result<Disk> {
    var plan := Plan(sys, d.files, target);
    if plan == [] then Refused else EnableAll(sys, d, plan, target, user)
  }

  /** _revert at an item's path, for the blocks of its kind. */
  function RevertAt(d: Disk, p: Path, begins: seq<string>): Disk {
    var c := CellAt(d, p);
    var d' := if p == DropIn && c.text.Some? then d.(files := ForgetMain(d.files, UserIn(c.text.value))) else d;
    WithCell(d', p, Reverted(c, begins, p == DropIn))
  }

  function BeginsOf(kind: Kind): seq<string> {
    if kind.WalletRelease? || kind.WalletRemember? then [WALLET_BEGIN] else [BEGIN]
  }

  function DisableAll(d: Disk, plan: seq<Item>, keepOption: bool): Disk
    decreases |plan|
  {
    if plan == [] then d
    else if plan[0].kind == LockOption && keepOption then DisableAll(d, plan[1..], keepOption)
    else DisableAll(RevertAt(d, PathOf(plan[0]), BeginsOf(plan[0].kind)), plan[1..], keepOption)
  }

  /** disable: for auto-login also when the login manager is gone, the drop-in first. */
  function DisablePlan(sys: System, files: Files, target: Target): seq<Item> {
    if target == AutoLogin then [DROP_IN, RELEASE_ITEM, REMEMBER_ITEM] else Plan(sys, files, target)
  }

  function Disabled(sys: System, d: Disk, target: Target, keepOption: bool): Disk {
    DisableAll(d, DisablePlan(sys, d.files, target), keepOption)
  }
}
