/** Runs of enable and disable: after any of them the files are decided by what
    is on, and with nothing on they are as they were found. */
module PamRuns {
  import opened Text
  import opened Outcomes
  import opened PamLines
  import opened PamBlocks
  import opened PamCells
  import opened PamTargets
  import PamIncludes
  import PamMeaning
  import PamOwnStack

  /** A machine as first found. names: the services reached through includes
      from the files we patch. */
  datatype World = World(sys: System, files: Files, user: string, names: set<string>)

  /** Some target means this item on this machine. */
  predicate Planned(w: World, item: Item) {
    exists target: Target :: item in Plan(w.sys, w.files, target)
  }

  /** A service file we put blocks into. */
  predicate IsManaged(w: World, s: string) {
    Planned(w, Item(s, Insert)) || Planned(w, Item(s, WalletRelease)) || Planned(w, Item(s, WalletRemember))
  }

  function BaseOf(w: World, s: string): string {
    var text := TextAt(w.files, Find(w.files, s));
    if text.Some? then text.value else ""
  }

  function ServiceOf(w: World, s: string): Service {
    Service(BaseOf(w, s), Etc(s) in w.files, Gates(w.files, BaseOf(w, s)), LineFor(s))
  }

  /** Every service a line pulls in is among the names. */
  predicate Named(ls: seq<string>, names: set<string>) {
    ls == [] || ((PamIncludes.IncludedBy(ls[0]).Some? ==> PamIncludes.IncludedBy(ls[0]).value in names)
                 && Named(ls[1..], names))
  }

  /** The conditions a run starts from: none of our markers or files anywhere,
      managed files newline-terminated and not reached through includes, and a
      login configuration that names nobody. */
  ghost predicate IsFairWorld(w: World) {
    && (forall p :: p in w.files ==> !HasAnyBlock(w.files[p]) && !StartsWith(w.files[p], OWN_HEADER))
    && (forall s :: IsManaged(w, s) ==> IsFair(ServiceOf(w, s)) && Named(SplitLines(BaseOf(w, s)), w.names))
    && (forall n :: n in w.names ==> !IsManaged(w, n) && n != "kde-face" && Named(SplitLines(BaseOf(w, n)), w.names))
    && DropIn !in w.files && (LoginConf in w.files ==> UserIn(w.files[LoginConf]).None?)
    && IsUserName(w.user)
  }

  /** The lock screen's own service as it would be built. */
  function OwnText(w: World): Result<string> {
    var fingerprint := TextAt(w.files, Find(w.files, "kde-fingerprint"));
    var source := if fingerprint.Some? then fingerprint else TextAt(w.files, Find(w.files, "kde"));
    if source.None? then Refused else PamOwnStack.OwnStack(source.value, fingerprint.Some?)
  }

  /** What a path holds when exactly the items in on are on. */
  predicate IsCell(w: World, on: set<Item>, p: Path, c: Cell) {
    match p
    case Etc(s) =>
      if s == "kde-face" then
        if KDE_FACE in on then p !in w.files && OwnText(w).Done? && c.text == Some(OwnText(w).value) && c.entry.Some?
        else c == Cell(Get(w.files, p), None)
      else if !IsManaged(w, s) then c == Cell(Get(w.files, p), None)
      else if s == "plasmalogin-autologin" then IsReleaseCell(ServiceOf(w, s), c, RELEASE_ITEM in on)
      else IsServiceCell(ServiceOf(w, s), c, Item(s, Insert) in on, Item(s, WalletRemember) in on)
    case LockConfig => IsOptionCell(Get(w.files, p), c, LOCK_OPTION in on)
    case DropIn =>
      if DROP_IN in on then c.text == Some(DropInText(w.user, w.sys.wayland)) && c.entry.Some?
      else c == Cell(None, None)
    case _ => c == Cell(Get(w.files, p), None)
  }

  ghost predicate Inv(w: World, d: Disk, on: set<Item>) {
    (forall i :: i in on ==> Planned(w, i))
      && forall p {:trigger IsCell(w, on, p, CellAt(d, p))} :: IsCell(w, on, p, CellAt(d, p))
  }

  // --------------------------------------------------- nothing else matters

  lemma {:induction false} NothingOnAtFirst(w: World)
    requires IsFairWorld(w)
    ensures Inv(w, Disk(w.files, map[]), {})
  {
    var d := Disk(w.files, map[]);
    forall p ensures IsCell(w, {}, p, CellAt(d, p)) {
      if p.Etc? && IsManaged(w, p.service) {
        assert IsFair(ServiceOf(w, p.service));
        ManagedIsFound(w, p.service);
      }
    }
  }

  lemma {:induction false} ManagedIsFound(w: World, s: string)
    requires IsManaged(w, s)
    ensures Find(w.files, s).Some? && s != "kde-face"
  {
  }

  /** The files are decided by what is on. */
  lemma {:induction false} FilesFollowItems(w: World, d: Disk, e: Disk, on: set<Item>)
    requires IsFairWorld(w) && Inv(w, d, on) && Inv(w, e, on)
    ensures d.files == e.files
  {
    forall p ensures Get(d.files, p) == Get(e.files, p) {
      assert IsCell(w, on, p, CellAt(d, p)) && IsCell(w, on, p, CellAt(e, p));
    }
    assert forall p :: p in d.files <==> Get(d.files, p).Some?;
    assert forall p :: p in e.files <==> Get(e.files, p).Some?;
    forall p | p in d.files ensures p in e.files && d.files[p] == e.files[p] {
      assert Get(d.files, p) == Get(e.files, p);
    }
  }

  /** With nothing on, the tree is as found and the manifest empty. */
  lemma {:induction false} NothingOnRestores(w: World, d: Disk)
    requires IsFairWorld(w) && Inv(w, d, {})
    ensures d == Disk(w.files, map[])
  {
    forall p ensures CellAt(d, p) == Cell(Get(w.files, p), None) {
      assert IsCell(w, {}, p, CellAt(d, p));
      if p.Etc? && IsManaged(w, p.service) {
        ManagedIsFound(w, p.service);
      }
    }
    forall p ensures Get(d.files, p) == Get(w.files, p) && p !in d.manifest {
      assert CellAt(d, p) == Cell(Get(w.files, p), None);
    }
    forall p | p in w.files ensures p in d.files && d.files[p] == w.files[p] {
      assert Get(d.files, p) == Get(w.files, p);
    }
    forall p | p in d.files ensures p in w.files {
      assert Get(d.files, p) == Get(w.files, p);
    }
    assert d.manifest == map[];
  }

  // ----------------------------------------------- reading the tree meanwhile

  /** A service that is not ours is found where it was, with the same text. */
  lemma {:induction false} ForeignFound(w: World, d: Disk, on: set<Item>, s: string)
    requires Inv(w, d, on) && !IsManaged(w, s) && s != "kde-face"
    ensures Find(d.files, s) == Find(w.files, s)
            && TextAt(d.files, Find(d.files, s)) == TextAt(w.files, Find(w.files, s))
  {
    assert IsCell(w, on, Etc(s), CellAt(d, Etc(s)));
    VendorSame(w, d, on, s);
  }

  lemma {:induction false} VendorSame(w: World, d: Disk, on: set<Item>, s: string)
    requires Inv(w, d, on)
    ensures Vendor(d.files, s) == Vendor(w.files, s)
    ensures TextAt(d.files, Vendor(d.files, s)) == TextAt(w.files, Vendor(w.files, s))
  {
    assert IsCell(w, on, VendorLib(s), CellAt(d, VendorLib(s)));
    assert IsCell(w, on, VendorEtc(s), CellAt(d, VendorEtc(s)));
    assert Get(d.files, VendorLib(s)) == Get(w.files, VendorLib(s));
    assert Get(d.files, VendorEtc(s)) == Get(w.files, VendorEtc(s));
  }

  lemma {:induction false} FindMapAt(files: Files, s: string)
    ensures Get(FindMap(files), s) == Find(files, s)
  {
    var names := set p | p in files && IsServicePath(p) :: p.service;
    if Find(files, s).Some? {
      var p := Find(files, s).value;
      assert p in files && IsServicePath(p) && p.service == s;
      assert s in names;
    }
  }

  lemma {:induction false} SameItems(a: map<string, Path>, b: map<string, Path>, ls: seq<string>, names: set<string>)
    requires Named(ls, names) && forall n :: n in names ==> Get(a, n) == Get(b, n)
    ensures PamIncludes.ItemsOf(a, ls) == PamIncludes.ItemsOf(b, ls)
  {
    if ls != [] {
      SameItems(a, b, ls[1..], names);
      var name := PamIncludes.IncludedBy(ls[0]);
      if name.Some? {
        assert Get(a, name.value) == Get(b, name.value);
      }
    }
  }

  /** The files the names lead to. */
  function Reach(files: Files, names: set<string>): set<Path> {
    set n | n in names && Find(files, n).Some? :: Find(files, n).value
  }

  lemma {:induction false} NamedIsCovered(files: Files, ls: seq<string>, names: set<string>)
    requires Named(ls, names)
    ensures PamIncludes.Covers(PamIncludes.ItemsOf(FindMap(files), ls), Reach(files, names))
  {
    if ls != [] {
      NamedIsCovered(files, ls[1..], names);
      var items := PamIncludes.ItemsOf(FindMap(files), ls);
      assert items[1..] == PamIncludes.ItemsOf(FindMap(files), ls[1..]);
      var name := PamIncludes.IncludedBy(ls[0]);
      if name.Some? {
        FindMapAt(files, name.value);
      }
      PamIncludes.CoversCons(items, Reach(files, names));
    }
  }

  lemma {:induction false} GraphAt(files: Files, p: Path)
    ensures GraphOf(files).At(p) == if p in files then PamIncludes.ItemsOf(FindMap(files), SplitLines(files[p])) else []
  {
  }

  lemma {:induction false} NamesAgree(w: World, d: Disk, on: set<Item>)
    requires IsFairWorld(w) && Inv(w, d, on)
    ensures forall n :: n in w.names ==> Get(FindMap(w.files), n) == Get(FindMap(d.files), n)
  {
    forall n | n in w.names ensures Get(FindMap(w.files), n) == Get(FindMap(d.files), n) {
      ForeignFound(w, d, on, n);
      FindMapAt(w.files, n);
      FindMapAt(d.files, n);
    }
  }

  lemma {:induction false} ReachAgrees(w: World, d: Disk, on: set<Item>, n: string)
    requires IsFairWorld(w) && Inv(w, d, on) && n in w.names && Find(w.files, n).Some?
    ensures var p := Find(w.files, n).value;
            GraphOf(w.files).At(p) == GraphOf(d.files).At(p)
            && PamIncludes.Covers(GraphOf(w.files).At(p), Reach(w.files, w.names))
  {
    var p := Find(w.files, n).value;
    ForeignFound(w, d, on, n);
    NamesAgree(w, d, on);
    assert BaseOf(w, n) == w.files[p] == d.files[p];
    GraphAt(w.files, p);
    GraphAt(d.files, p);
    SameItems(FindMap(w.files), FindMap(d.files), SplitLines(w.files[p]), w.names);
    NamedIsCovered(w.files, SplitLines(w.files[p]), w.names);
  }

  lemma {:induction false} SameGraph(w: World, d: Disk, on: set<Item>)
    requires IsFairWorld(w) && Inv(w, d, on)
    ensures var c := Reach(w.files, w.names);
            PamIncludes.Closed(GraphOf(w.files), c)
            && forall p :: p in c ==> GraphOf(w.files).At(p) == GraphOf(d.files).At(p)
  {
    var c := Reach(w.files, w.names);
    forall p | p in c
      ensures GraphOf(w.files).At(p) == GraphOf(d.files).At(p) && PamIncludes.Covers(GraphOf(w.files).At(p), c)
    {
      var n :| n in w.names && Find(w.files, n) == Some(p);
      ReachAgrees(w, d, on, n);
    }
  }

  /** While targets go on and off, the gates of a managed file stay the same. */
  lemma {:induction false} GatesStay(w: World, d: Disk, on: set<Item>, s: string, text: string)
    requires IsFairWorld(w) && Inv(w, d, on) && IsManaged(w, s) && RemoveBlock(text, BEGINS) == BaseOf(w, s)
    ensures Gates(d.files, text) == Gates(w.files, BaseOf(w, s))
  {
    var base := BaseOf(w, s);
    assert IsFair(ServiceOf(w, s)) && Named(SplitLines(base), w.names);
    RemoveFromUnmarked(base, BEGINS);
    NamesAgree(w, d, on);
    SameItems(FindMap(w.files), FindMap(d.files), SplitLines(base), w.names);
    NamedIsCovered(w.files, SplitLines(base), w.names);
    SameGraph(w, d, on);
    PamIncludes.SameWalk(GraphOf(w.files), GraphOf(d.files), PamIncludes.ItemsOf(FindMap(w.files), SplitLines(base)), 0,
                         {}, Reach(w.files, w.names));
  }

  // ------------------------------------------------------ the plan stays too

  lemma {:induction false} FoundStays(w: World, d: Disk, on: set<Item>, s: string)
    requires IsFairWorld(w) && Inv(w, d, on) && s != "kde-face"
    ensures Find(d.files, s).Some? <==> Find(w.files, s).Some?
  {
    VendorSame(w, d, on, s);
    assert IsCell(w, on, Etc(s), CellAt(d, Etc(s)));
    if IsManaged(w, s) {
      ManagedIsFound(w, s);
    }
  }

  lemma {:induction false} PullsInAppend(a: seq<string>, b: seq<string>, other: string)
    ensures AnyPullsIn(a + b, other) <==> AnyPullsIn(a, other) || AnyPullsIn(b, other)
  {
    if a == [] {
      assert a + b == b;
    } else {
      assert (a + b)[1..] == a[1..] + b;
      PullsInAppend(a[1..], b, other);
    }
  }

  lemma {:induction false} CopiesPullNothing(gates: seq<string>, other: string)
    requires forall i :: 0 <= i < |gates| ==> GateLine(gates[i]) == Some(gates[i])
    ensures !AnyPullsIn(AsLines(gates), other)
  {
    if gates != [] {
      assert AsLines(gates)[1..] == AsLines(gates[1..]);
      CopiesPullNothing(gates[1..], other);
      WordsBeforeSpace(gates[0], '\n');
      assert Words(gates[0])[1] in ["required", "requisite"];
    }
  }

  lemma {:induction false} GatesAreNormal(files: Files, text: string)
    ensures var gates := Gates(files, text); forall i :: 0 <= i < |gates| ==> GateLine(gates[i]) == Some(gates[i])
  {
    var items := PamIncludes.ItemsOf(FindMap(files), SplitLines(RemoveBlock(text, BEGINS)));
    var found := PamIncludes.AuthLines(GraphOf(files), items, 0, {}).found;
    var gates := Gates(files, text);
    GatesOfIsExact(found);
    forall i | 0 <= i < |gates| ensures GateLine(gates[i]) == Some(gates[i]) {
      assert gates[i] in gates;
      var j :| 0 <= j < |found| && GateLine(found[j]) == Some(gates[i]);
      GateLineIsNormal(found[j]);
    }
  }

  lemma {:induction false} CommentPullsNothing(line: string, other: string)
    requires line != "" && line[0] == '#'
    ensures !AnyPullsIn([line], other)
  {
    assert Words(line)[0][0] == '#';
    assert [line][1..] == [];
  }

  lemma {:induction false} FaceLinePullsNothing(other: string)
    ensures !AnyPullsIn([INSERT_LINE + "\n"], other)
  {
    PamMeaning.InsertLineWords();
    WordsBeforeSpace(INSERT_LINE, '\n');
    assert INSERT_WORDS[1][0] == '[' && "include"[0] == 'i' && "substack"[0] == 's';
    assert [INSERT_LINE + "\n"][1..] == [];
  }

  lemma {:induction false} FaceBlockPullsNothing(gates: seq<string>, other: string)
    requires forall i :: 0 <= i < |gates| ==> GateLine(gates[i]) == Some(gates[i])
    ensures !AnyPullsIn(Marked(BEGIN, FaceLines(gates, INSERT_LINE)), other)
  {
    CopiesPullNothing(gates, other);
    FaceLinePullsNothing(other);
    CommentPullsNothing(BEGIN + "\n", other);
    CommentPullsNothing(END + "\n", other);
    var first, inner, last := [BEGIN + "\n"], FaceLines(gates, INSERT_LINE), [END + "\n"];
    PullsInAppend(AsLines(gates), [INSERT_LINE + "\n"], other);
    PullsInAppend(first, inner, other);
    PullsInAppend(first + inner, last, other);
  }

  lemma {:induction false} PatchedPullsTheSame(v: Service, other: string)
    requires IsFair(v) && HasAuth(v) && v.line == INSERT_LINE
    requires forall i :: 0 <= i < |v.gates| ==> GateLine(v.gates[i]) == Some(v.gates[i])
    ensures AnyPullsIn(SplitLines(PatchedText(v, true, false)), other) == AnyPullsIn(SplitLines(v.base), other)
  {
    var p, x := PartsOfService(v), Marked(BEGIN, Face(v));
    FairIsPristine(v);
    PatchedHas(p, Face(v), true, false);
    CutParts(SplitLines(v.base));
    FaceBlockPullsNothing(v.gates, other);
    PullsAround(p, x, other);
  }

  lemma {:induction false} PullsAround(p: Parts, x: seq<string>, other: string)
    requires !AnyPullsIn(x, other)
    ensures AnyPullsIn(Spliced(p, x, [], []), other) == AnyPullsIn(p.head + (p.auth + p.tail), other)
  {
    assert [] + (p.tail + []) == p.tail;
    PullsInAppend(p.head, x + (p.auth + p.tail), other);
    PullsInAppend(x, p.auth + p.tail, other);
    PullsInAppend(p.head, p.auth + p.tail, other);
  }

  /** The items a plan can hold. */
  predicate HasShape(item: Item) {
    match item.kind
    case Own => item == KDE_FACE
    case LockOption => item == LOCK_OPTION
    case Insert => item.service in ["kde", "polkit-1", "sudo", "sudo-i", "plasmalogin", "sddm"]
    case WalletRelease => item == RELEASE_ITEM
    case WalletRemember => item == REMEMBER_ITEM
    case AutoLoginUser => item == DROP_IN
  }

  lemma {:induction false} PlanShape(sys: System, files: Files, target: Target, item: Item)
    requires item in Plan(sys, files, target)
    ensures HasShape(item)
  {
  }

  lemma {:induction false} NamesInPlans(w: World, item: Item)
    requires Planned(w, item)
    ensures HasShape(item)
  {
    var target :| item in Plan(w.sys, w.files, target);
    PlanShape(w.sys, w.files, target, item);
  }

  lemma {:induction false} IncludesStays(w: World, d: Disk, on: set<Item>)
    requires IsFairWorld(w) && Inv(w, d, on)
    ensures Includes(d.files, "sudo-i", "sudo") == Includes(w.files, "sudo-i", "sudo")
  {
    var s := "sudo-i";
    if !IsManaged(w, s) {
      assert s != "kde-face";
      ForeignFound(w, d, on, s);
    } else {
      var v := ServiceOf(w, s);
      assert IsFair(v);
      ManagedIsFound(w, s);
      VendorSame(w, d, on, s);
      SudoCell(w, d, on);
      if Item(s, Insert) in on {
        GatesAreNormal(w.files, BaseOf(w, s));
        PatchedPullsTheSame(v, "sudo");
      }
    }
  }

  lemma {:induction false} SudoCell(w: World, d: Disk, on: set<Item>)
    requires IsFairWorld(w) && Inv(w, d, on) && IsManaged(w, "sudo-i")
    ensures IsServiceCell(ServiceOf(w, "sudo-i"), CellAt(d, Etc("sudo-i")), Item("sudo-i", Insert) in on, false)
    ensures LineFor("sudo-i") == INSERT_LINE
  {
    var s := "sudo-i";
    assert IsCell(w, on, Etc(s), CellAt(d, Etc(s)));
    assert s != "kde-face" && s != "plasmalogin-autologin" && s != "plasmalogin" && s != "sddm";
    if Item(s, WalletRemember) in on {
      NamesInPlans(w, Item(s, WalletRemember));
    }
  }

  /** What a target means does not change while targets go on and off. */
  lemma {:induction false} PlanStays(w: World, d: Disk, on: set<Item>, target: Target)
    requires IsFairWorld(w) && Inv(w, d, on)
    ensures Plan(w.sys, d.files, target) == Plan(w.sys, w.files, target)
  {
    FoundStays(w, d, on, "kde-fingerprint");
    FoundStays(w, d, on, "kde");
    FoundStays(w, d, on, "polkit-1");
    FoundStays(w, d, on, "sudo");
    FoundStays(w, d, on, "sudo-i");
    FoundStays(w, d, on, "plasmalogin");
    FoundStays(w, d, on, "plasmalogin-autologin");
    FoundStays(w, d, on, "sddm");
    IncludesStays(w, d, on);
  }

  // ------------------------------------------------------------- one step

  /** Changing one path's cell and item leaves the other paths as they should be. */
  lemma {:induction false} OthersStay(w: World, d: Disk, on: set<Item>, item: Item, c: Cell, on': set<Item>)
    requires Inv(w, d, on) && (on' == on + {item} || on' == on - {item}) && (forall i :: i in on' ==> Planned(w, i))
    requires item.kind == LockOption ==> item == LOCK_OPTION
    requires item.kind == AutoLoginUser ==> item == DROP_IN
    requires IsCell(w, on', PathOf(item), c)
    ensures Inv(w, WithCell(d, PathOf(item), c), on')
  {
    var p := PathOf(item);
    WithCellAt(d, p, c);
    forall q ensures IsCell(w, on', q, CellAt(WithCell(d, p, c), q)) {
      if q != p {
        assert IsCell(w, on, q, CellAt(d, q));
        OtherCellStays(w, on, on', q, CellAt(d, q));
      }
    }
  }

  /** A path's cell is decided by the items at that path. */
  lemma {:induction false} OtherCellStays(w: World, on: set<Item>, on': set<Item>, q: Path, c: Cell)
    requires forall i: Item :: PathOf(i) == q ==> (i in on <==> i in on')
    ensures IsCell(w, on, q, c) <==> IsCell(w, on', q, c)
  {
    assert PathOf(KDE_FACE) == Etc("kde-face") && PathOf(RELEASE_ITEM) == Etc("plasmalogin-autologin");
    assert PathOf(LOCK_OPTION) == LockConfig && PathOf(DROP_IN) == DropIn;
    if q.Etc? {
      assert PathOf(Item(q.service, Insert)) == q && PathOf(Item(q.service, WalletRemember)) == q;
    }
  }

  /** A managed service and its place in /etc, at any time of a run. */
  lemma {:induction false} ManagedCell(w: World, d: Disk, on: set<Item>, s: string)
    requires IsFairWorld(w) && Inv(w, d, on) && IsManaged(w, s)
    ensures IsFair(ServiceOf(w, s)) && VendorFits(ServiceOf(w, s), TextAt(d.files, Vendor(d.files, s)))
    ensures var c := CellAt(d, Etc(s));
            if s == "plasmalogin-autologin" then IsReleaseCell(ServiceOf(w, s), c, RELEASE_ITEM in on)
            else IsServiceCell(ServiceOf(w, s), c, Item(s, Insert) in on, Item(s, WalletRemember) in on)
  {
    ManagedIsFound(w, s);
    VendorSame(w, d, on, s);
    assert IsCell(w, on, Etc(s), CellAt(d, Etc(s)));
  }

  lemma {:induction false} ServiceCellIs(w: World, on: set<Item>, s: string, c: Cell, insert: bool, wallet: bool)
    requires IsManaged(w, s) && s != "plasmalogin-autologin" && IsServiceCell(ServiceOf(w, s), c, insert, wallet)
    requires insert == (Item(s, Insert) in on) && wallet == (Item(s, WalletRemember) in on)
    ensures IsCell(w, on, Etc(s), c)
  {
    ManagedIsFound(w, s);
  }

  /** Step for an insert item is InsertInto with the gates found at first. */
  lemma {:induction false} InsertResult(w: World, d: Disk, on: set<Item>, s: string, target: Target,
                                        user: Option<string>)
    requires IsFairWorld(w) && Inv(w, d, on) && IsManaged(w, s) && s != "plasmalogin-autologin"
    ensures Step(w.sys, d, Item(s, Insert), target, user)
         == InsertInto(CellAt(d, Etc(s)), TextAt(d.files, Vendor(d.files, s)), ServiceOf(w, s).gates,
                       ServiceOf(w, s).line, target)
  {
    SourceIsBase(w, d, on, s);
    GatesStay(w, d, on, s, SourceText(CellAt(d, Etc(s)), TextAt(d.files, Vendor(d.files, s))).value);
  }

  lemma {:induction false} CellInserted(w: World, d: Disk, on: set<Item>, s: string, target: Target,
                                        user: Option<string>)
    returns (r: Result<Cell>)
    requires IsFairWorld(w) && Inv(w, d, on) && IsManaged(w, s) && s != "plasmalogin-autologin"
    ensures r == Step(w.sys, d, Item(s, Insert), target, user)
    ensures r.Done? ==> IsServiceCell(ServiceOf(w, s), r.value, true, Item(s, WalletRemember) in on)
  {
    ManagedCell(w, d, on, s);
    InsertResult(w, d, on, s, target, user);
    var vendor, insert, wallet := TextAt(d.files, Vendor(d.files, s)), Item(s, Insert) in on,
                                  Item(s, WalletRemember) in on;
    InsertCell(ServiceOf(w, s), CellAt(d, Etc(s)), vendor, insert, wallet, target);
    r := Step(w.sys, d, Item(s, Insert), target, user);
  }

  lemma {:induction false} InsertStep(w: World, d: Disk, on: set<Item>, s: string, target: Target, user: Option<string>)
    requires IsFairWorld(w) && Inv(w, d, on) && Planned(w, Item(s, Insert))
    ensures var r := Step(w.sys, d, Item(s, Insert), target, user);
            r.Done? ==> Inv(w, WithCell(d, Etc(s), r.value), on + {Item(s, Insert)})
  {
    NamesInPlans(w, Item(s, Insert));
    var r := CellInserted(w, d, on, s, target, user);
    if r.Done? {
      InsertOn(w, d, on, s, r.value);
    }
  }

  lemma {:induction false} InsertOn(w: World, d: Disk, on: set<Item>, s: string, c: Cell)
    requires Inv(w, d, on) && Planned(w, Item(s, Insert)) && IsManaged(w, s) && s != "plasmalogin-autologin"
    requires IsServiceCell(ServiceOf(w, s), c, true, Item(s, WalletRemember) in on)
    ensures Inv(w, WithCell(d, Etc(s), c), on + {Item(s, Insert)})
  {
    PutService(w, d, on, Item(s, Insert), c, on + {Item(s, Insert)});
  }

  /** A service's file with the blocks that are to be in it. */
  lemma {:induction false} PutService(w: World, d: Disk, on: set<Item>, item: Item, c: Cell, on': set<Item>)
    requires Inv(w, d, on) && (on' == on + {item} || on' == on - {item}) && (forall i :: i in on' ==> Planned(w, i))
    requires item.kind in [Insert, WalletRemember] && IsManaged(w, item.service)
             && item.service != "plasmalogin-autologin"
    requires IsServiceCell(ServiceOf(w, item.service), c, Item(item.service, Insert) in on',
                           Item(item.service, WalletRemember) in on')
    ensures Inv(w, WithCell(d, Etc(item.service), c), on')
  {
    ServiceCellIs(w, on', item.service, c, Item(item.service, Insert) in on',
                  Item(item.service, WalletRemember) in on');
    OthersStay(w, d, on, item, c, on');
  }

  lemma {:induction false} SourceIsBase(w: World, d: Disk, on: set<Item>, s: string)
    requires IsFairWorld(w) && Inv(w, d, on) && IsManaged(w, s) && s != "plasmalogin-autologin"
    ensures var source := SourceText(CellAt(d, Etc(s)), TextAt(d.files, Vendor(d.files, s)));
            source.Some? && RemoveBlock(source.value, BEGINS) == BaseOf(w, s)
  {
    ManagedCell(w, d, on, s);
    var v, insert, wallet := ServiceOf(w, s), Item(s, Insert) in on, Item(s, WalletRemember) in on;
    if insert || wallet {
      PatchedTexts(v, insert, wallet);
    } else {
      RemoveFromUnmarked(v.base, BEGINS);
    }
  }

  lemma {:induction false} RememberResult(w: World, d: Disk, on: set<Item>, s: string, target: Target)
    requires IsFairWorld(w) && Inv(w, d, on) && IsManaged(w, s) && s != "plasmalogin-autologin"
    ensures var r := WalletInto(CellAt(d, Etc(s)), TextAt(d.files, Vendor(d.files, s)), false, target);
            r.Done? ==> IsServiceCell(ServiceOf(w, s), r.value, Item(s, Insert) in on, true)
  {
    ManagedCell(w, d, on, s);
    RememberCell(ServiceOf(w, s), CellAt(d, Etc(s)), TextAt(d.files, Vendor(d.files, s)), Item(s, Insert) in on,
                 Item(s, WalletRemember) in on, target);
  }

  lemma {:induction false} RememberOn(w: World, d: Disk, on: set<Item>, s: string, c: Cell)
    requires Inv(w, d, on) && Planned(w, Item(s, WalletRemember)) && s != "plasmalogin-autologin"
    requires IsServiceCell(ServiceOf(w, s), c, Item(s, Insert) in on, true)
    ensures Inv(w, WithCell(d, Etc(s), c), on + {Item(s, WalletRemember)})
  {
    PutService(w, d, on, Item(s, WalletRemember), c, on + {Item(s, WalletRemember)});
  }

  lemma {:induction false} RememberStep(w: World, d: Disk, on: set<Item>, s: string, target: Target)
    requires IsFairWorld(w) && Inv(w, d, on) && Planned(w, Item(s, WalletRemember)) && s != "plasmalogin-autologin"
    ensures var r := WalletInto(CellAt(d, Etc(s)), TextAt(d.files, Vendor(d.files, s)), false, target);
            r.Done? ==> Inv(w, WithCell(d, Etc(s), r.value), on + {Item(s, WalletRemember)})
  {
    RememberResult(w, d, on, s, target);
    var r := WalletInto(CellAt(d, Etc(s)), TextAt(d.files, Vendor(d.files, s)), false, target);
    if r.Done? {
      RememberOn(w, d, on, s, r.value);
    }
  }

  lemma {:induction false} ReleaseStep(w: World, d: Disk, on: set<Item>, target: Target, user: Option<string>)
    requires IsFairWorld(w) && Inv(w, d, on) && Planned(w, RELEASE_ITEM)
    ensures var r := Step(w.sys, d, RELEASE_ITEM, target, user);
            r.Done? ==> Inv(w, WithCell(d, PathOf(RELEASE_ITEM), r.value), on + {RELEASE_ITEM})
  {
    var s := "plasmalogin-autologin";
    var c, v, vendor := CellAt(d, Etc(s)), ServiceOf(w, s), TextAt(d.files, Vendor(d.files, s));
    ManagedCell(w, d, on, s);
    ReleaseCell(v, c, vendor, RELEASE_ITEM in on, target);
    var r := Step(w.sys, d, RELEASE_ITEM, target, user);
    if r.Done? {
      OthersStay(w, d, on, RELEASE_ITEM, r.value, on + {RELEASE_ITEM});
    }
  }

  lemma {:induction false} OptionStep(w: World, d: Disk, on: set<Item>, target: Target, user: Option<string>)
    requires IsFairWorld(w) && Inv(w, d, on) && Planned(w, LOCK_OPTION)
    ensures var r := Step(w.sys, d, LOCK_OPTION, target, user);
            r.Done? && Inv(w, WithCell(d, PathOf(LOCK_OPTION), r.value), on + {LOCK_OPTION})
  {
    var c := CellAt(d, LockConfig);
    assert IsCell(w, on, LockConfig, c);
    OptionCell(Get(w.files, LockConfig), c, LOCK_OPTION in on, target);
    OthersStay(w, d, on, LOCK_OPTION, OptionInto(c, target), on + {LOCK_OPTION});
  }

  lemma {:induction false} OwnStep(w: World, d: Disk, on: set<Item>, target: Target, user: Option<string>)
    requires IsFairWorld(w) && Inv(w, d, on) && Planned(w, KDE_FACE)
    ensures var r := Step(w.sys, d, KDE_FACE, target, user);
            r.Done? ==> Inv(w, WithCell(d, PathOf(KDE_FACE), r.value), on + {KDE_FACE})
  {
    var p := Etc("kde-face");
    var c, r := CellAt(d, p), Step(w.sys, d, KDE_FACE, target, user);
    assert IsCell(w, on, p, c);
    KdeIsForeign(w);
    ForeignFound(w, d, on, "kde-fingerprint");
    ForeignFound(w, d, on, "kde");
    if r.Done? {
      OthersStay(w, d, on, KDE_FACE, r.value, on + {KDE_FACE});
    }
  }

  lemma {:induction false} LockScreenPlan(sys: System, files: Files, target: Target)
    ensures KDE_FACE in Plan(sys, files, target)
            ==> target == LockScreen && Item("kde", Insert) !in Plan(sys, files, target)
    ensures Item("kde", Insert) in Plan(sys, files, target) ==> target == LockScreen
  {
  }

  lemma {:induction false} NotPlanned(w: World, item: Item)
    requires !HasShape(item)
    ensures !Planned(w, item)
  {
    if Planned(w, item) {
      NamesInPlans(w, item);
    }
  }

  lemma {:induction false} KdeIsForeign(w: World)
    requires Planned(w, KDE_FACE)
    ensures !IsManaged(w, "kde") && !IsManaged(w, "kde-fingerprint")
  {
    forall target {
      LockScreenPlan(w.sys, w.files, target);
    }
    NotPlanned(w, Item("kde", WalletRelease));
    NotPlanned(w, Item("kde", WalletRemember));
    NotPlanned(w, Item("kde-fingerprint", Insert));
    NotPlanned(w, Item("kde-fingerprint", WalletRelease));
    NotPlanned(w, Item("kde-fingerprint", WalletRemember));
  }

  lemma {:induction false} DropInStep(w: World, d: Disk, on: set<Item>, target: Target, user: Option<string>)
    requires IsFairWorld(w) && Inv(w, d, on) && Planned(w, DROP_IN) && user == Some(w.user)
    ensures var r := Step(w.sys, d, DROP_IN, target, user);
            r.Done? ==> Inv(w, WithCell(d, PathOf(DROP_IN), r.value), on + {DROP_IN})
  {
    var r := Step(w.sys, d, DROP_IN, target, user);
    if r.Done? {
      OthersStay(w, d, on, DROP_IN, r.value, on + {DROP_IN});
    }
  }

  /** One step of enable turns its item on and nothing else. */
  lemma {:induction false} StepKeeps(w: World, d: Disk, on: set<Item>, item: Item, target: Target, user: Option<string>)
    requires IsFairWorld(w) && Inv(w, d, on) && Planned(w, item)
             && (item.kind == AutoLoginUser ==> user == Some(w.user))
    ensures var r := Step(w.sys, d, item, target, user);
            r.Done? ==> Inv(w, WithCell(d, PathOf(item), r.value), on + {item})
  {
    NamesInPlans(w, item);
    match item.kind
    case Own => OwnStep(w, d, on, target, user);
    case LockOption => OptionStep(w, d, on, target, user);
    case Insert => InsertStep(w, d, on, item.service, target, user);
    case WalletRelease => ReleaseStep(w, d, on, target, user);
    case WalletRemember => RememberStep(w, d, on, item.service, target);
    case AutoLoginUser => DropInStep(w, d, on, target, user);
  }

  function ItemSet(plan: seq<Item>): set<Item> {
    set i | i in plan
  }

  lemma {:induction false} EnableAllKeeps(w: World, d: Disk, on: set<Item>, plan: seq<Item>, target: Target,
                                          user: Option<string>)
    requires IsFairWorld(w) && Inv(w, d, on) && user == Some(w.user) && forall i :: i in plan ==> Planned(w, i)
    ensures var r := EnableAll(w.sys, d, plan, target, user); r.Done? ==> Inv(w, r.value, on + ItemSet(plan))
    decreases |plan|
  {
    if plan == [] {
      assert on + ItemSet(plan) == on;
    } else {
      var r := Step(w.sys, d, plan[0], target, user);
      StepKeeps(w, d, on, plan[0], target, user);
      if r.Done? {
        EnableAllKeeps(w, WithCell(d, PathOf(plan[0]), r.value), on + {plan[0]}, plan[1..], target, user);
        assert on + {plan[0]} + ItemSet(plan[1..]) == on + ItemSet(plan);
      }
    }
  }

  lemma {:induction false} PlanIsPlanned(w: World, target: Target)
    ensures forall i :: i in Plan(w.sys, w.files, target) ==> Planned(w, i)
  {
  }

  lemma {:induction false} EnableKeeps(w: World, d: Disk, on: set<Item>, target: Target, user: Option<string>)
    requires IsFairWorld(w) && Inv(w, d, on) && user == Some(w.user)
    ensures var r := Enabled(w.sys, d, target, user);
            r.Done? ==> Inv(w, r.value, on + ItemSet(Plan(w.sys, w.files, target)))
  {
    PlanStays(w, d, on, target);
    PlanIsPlanned(w, target);
    EnableAllKeeps(w, d, on, Plan(w.sys, w.files, target), target, user);
  }

  // -------------------------------------------------------------- turning off

  /** A file that is not ours is left alone. */
  lemma {:induction false} ForeignCell(text: Option<string>, begins: seq<string>)
    requires IsForeign(text) && begins in [[BEGIN], [WALLET_BEGIN], BEGINS]
    ensures Reverted(Cell(text, None), begins, false) == Cell(text, None)
  {
    if text.Some? {
      RemoveFromUnmarked(text.value, begins);
    }
  }

  lemma {:induction false} OwnTextIsOurs(w: World)
    requires OwnText(w).Done?
    ensures StartsWith(OwnText(w).value, OWN_HEADER)
  {
    var fingerprint := TextAt(w.files, Find(w.files, "kde-fingerprint"));
    var source := if fingerprint.Some? then fingerprint else TextAt(w.files, Find(w.files, "kde"));
    OwnStackIsOurs(source.value, fingerprint.Some?);
  }

  lemma {:induction false} OwnStackIsOurs(source: string, ff: bool)
    requires PamOwnStack.OwnStack(source, ff).Done?
    ensures StartsWith(PamOwnStack.OwnStack(source, ff).value, OWN_HEADER)
  {
    var body := PamOwnStack.OwnBody(SplitLines(source), ff).value;
    var a, b, c := PamOwnStack.HEADER_0 + "\n", PamOwnStack.HEADER_1 + "\n", PamOwnStack.HEADER_2 + "\n";
    JoinBehind(a, b, c, body);
    HeaderStarts(Join([c] + body));
  }

  lemma {:induction false} JoinBehind(a: string, b: string, c: string, body: seq<string>)
    ensures Join([a, b, c] + body) == a + (b + Join([c] + body))
  {
    assert [a, b, c] + body == [a] + ([b] + ([c] + body));
    JoinCons(a, [b] + ([c] + body));
    JoinCons(b, [c] + body);
  }

  lemma {:induction false} HeaderStarts(rest: string)
    ensures StartsWith(PamOwnStack.HEADER_0 + "\n" + (PamOwnStack.HEADER_1 + "\n" + rest), OWN_HEADER)
  {
    var t := PamOwnStack.HEADER_0 + "\n" + (PamOwnStack.HEADER_1 + "\n" + rest);
    var more := ": face unlock " + "on the Plasma " + "lock screen.";
    assert PamOwnStack.HEADER_1 == "# Created by " + "linux-hello" + more;
    assert PamOwnStack.HEADER_0 + "\n" == "#%PAM-1.0\n";
    assert t == OWN_HEADER + (more + "\n" + rest);
  }

  lemma {:induction false} RevertOwn(w: World, d: Disk, on: set<Item>)
    requires IsFairWorld(w) && Inv(w, d, on)
    ensures Inv(w, RevertAt(d, PathOf(KDE_FACE), [BEGIN]), on - {KDE_FACE})
  {
    var p := Etc("kde-face");
    var c := CellAt(d, p);
    assert IsCell(w, on, p, c);
    if KDE_FACE in on {
      OwnTextIsOurs(w);
    } else {
      ForeignCell(Get(w.files, p), [BEGIN]);
    }
    OthersStay(w, d, on, KDE_FACE, Reverted(c, [BEGIN], false), on - {KDE_FACE});
  }

  lemma {:induction false} RevertOption(w: World, d: Disk, on: set<Item>)
    requires IsFairWorld(w) && Inv(w, d, on)
    ensures Inv(w, RevertAt(d, LockConfig, [BEGIN]), on - {LOCK_OPTION})
  {
    var c := CellAt(d, LockConfig);
    assert IsCell(w, on, LockConfig, c);
    RevertOptionCell(Get(w.files, LockConfig), c, LOCK_OPTION in on, [BEGIN]);
    OthersStay(w, d, on, LOCK_OPTION, Reverted(c, [BEGIN], false), on - {LOCK_OPTION});
  }

  /** The login configuration names nobody, so nothing is taken out of it. */
  lemma {:induction false} MainStays(w: World, d: Disk, on: set<Item>, user: Option<string>)
    requires IsFairWorld(w) && Inv(w, d, on)
    ensures ForgetMain(d.files, user) == d.files
  {
    assert IsCell(w, on, LoginConf, CellAt(d, LoginConf));
    if user.Some? && LoginConf in d.files {
      var text := d.files[LoginConf];
      NobodyForgotten(SplitLines(text), None, user.value);
      JoinOfSplit(text);
      assert d.files[LoginConf := text] == d.files;
    }
  }

  lemma {:induction false} RevertDropIn(w: World, d: Disk, on: set<Item>)
    requires IsFairWorld(w) && Inv(w, d, on)
    ensures Inv(w, RevertAt(d, DropIn, [BEGIN]), on - {DROP_IN})
  {
    var c := CellAt(d, DropIn);
    if c.text.Some? {
      MainStays(w, d, on, UserIn(c.text.value));
    }
    assert IsCell(w, on, DropIn, c);
    assert d.(files := d.files) == d;
    OthersStay(w, d, on, DROP_IN, Reverted(c, [BEGIN], true), on - {DROP_IN});
  }

  lemma {:induction false} CellReverted(w: World, d: Disk, on: set<Item>, s: string, kind: Kind) returns (c: Cell)
    requires IsFairWorld(w) && Inv(w, d, on) && IsManaged(w, s) && s != "plasmalogin-autologin"
             && kind in [Insert, WalletRemember]
    ensures c == Reverted(CellAt(d, Etc(s)), BeginsOf(kind), false)
    ensures var on' := on - {Item(s, kind)};
            IsServiceCell(ServiceOf(w, s), c, Item(s, Insert) in on', Item(s, WalletRemember) in on')
  {
    ManagedCell(w, d, on, s);
    c := BlockReverted(ServiceOf(w, s), CellAt(d, Etc(s)), Item(s, Insert) in on, Item(s, WalletRemember) in on, kind);
  }

  lemma {:induction false} BlockReverted(v: Service, c: Cell, insert: bool, wallet: bool, kind: Kind) returns (r: Cell)
    requires IsFair(v) && IsServiceCell(v, c, insert, wallet) && kind in [Insert, WalletRemember]
    ensures r == Reverted(c, BeginsOf(kind), false)
            && IsServiceCell(v, r, insert && kind != Insert, wallet && kind != WalletRemember)
  {
    BeginsOfBlock(kind);
    RevertCell(v, c, insert, wallet, BeginsOf(kind));
    r := Reverted(c, BeginsOf(kind), false);
  }

  lemma {:induction false} RevertInsert(w: World, d: Disk, on: set<Item>, s: string, kind: Kind)
    requires IsFairWorld(w) && Inv(w, d, on) && IsManaged(w, s) && s != "plasmalogin-autologin"
             && kind in [Insert, WalletRemember]
    ensures Inv(w, RevertAt(d, Etc(s), BeginsOf(kind)), on - {Item(s, kind)})
  {
    var c := CellReverted(w, d, on, s, kind);
    PutService(w, d, on, Item(s, kind), c, on - {Item(s, kind)});
  }

  lemma {:induction false} BeginsOfBlock(kind: Kind)
    requires kind in [Insert, WalletRemember]
    ensures BeginsOf(kind) in [[BEGIN], [WALLET_BEGIN], BEGINS]
    ensures (BEGIN in BeginsOf(kind) <==> kind == Insert)
            && (WALLET_BEGIN in BeginsOf(kind) <==> kind == WalletRemember)
  {
    assert |BEGIN| != |WALLET_BEGIN|;
  }

  lemma {:induction false} RevertRelease(w: World, d: Disk, on: set<Item>)
    requires IsFairWorld(w) && Inv(w, d, on) && IsManaged(w, "plasmalogin-autologin")
    ensures Inv(w, RevertAt(d, PathOf(RELEASE_ITEM), [WALLET_BEGIN]), on - {RELEASE_ITEM})
  {
    var s := "plasmalogin-autologin";
    var c := CellAt(d, Etc(s));
    ManagedCell(w, d, on, s);
    RevertReleaseCell(ServiceOf(w, s), c, RELEASE_ITEM in on, [WALLET_BEGIN]);
    OthersStay(w, d, on, RELEASE_ITEM, Reverted(c, [WALLET_BEGIN], false), on - {RELEASE_ITEM});
  }

  lemma {:induction false} RevertForeign(w: World, d: Disk, on: set<Item>, item: Item)
    requires IsFairWorld(w) && Inv(w, d, on) && PathOf(item) == Etc(item.service)
    requires !IsManaged(w, item.service) && item.service != "kde-face"
             && item.kind in [Insert, WalletRelease, WalletRemember]
    ensures Inv(w, RevertAt(d, PathOf(item), BeginsOf(item.kind)), on - {item})
  {
    var p := Etc(item.service);
    assert IsCell(w, on, p, CellAt(d, p));
    ForeignCell(Get(w.files, p), BeginsOf(item.kind));
    OthersStay(w, d, on, item, CellAt(d, p), on - {item});
  }

  /** Reverting at an item's path turns that item off and nothing else. */
  lemma {:induction false} RevertKeeps(w: World, d: Disk, on: set<Item>, item: Item)
    requires IsFairWorld(w) && Inv(w, d, on) && HasShape(item)
    ensures Inv(w, RevertAt(d, PathOf(item), BeginsOf(item.kind)), on - {item})
  {
    match item.kind
    case Own => RevertOwn(w, d, on);
    case LockOption => RevertOption(w, d, on);
    case AutoLoginUser => RevertDropIn(w, d, on);
    case WalletRelease =>
      if IsManaged(w, item.service) { RevertRelease(w, d, on); } else { RevertForeign(w, d, on, item); }
    case _ =>
      if IsManaged(w, item.service) { RevertInsert(w, d, on, item.service, item.kind); }
      else { RevertForeign(w, d, on, item); }
  }

  lemma {:induction false} DisableAllKeeps(w: World, d: Disk, on: set<Item>, plan: seq<Item>)
    requires IsFairWorld(w) && Inv(w, d, on) && forall i :: i in plan ==> HasShape(i)
    ensures Inv(w, DisableAll(d, plan, false), on - ItemSet(plan))
    decreases |plan|
  {
    if plan == [] {
      assert on - ItemSet(plan) == on;
    } else {
      RevertKeeps(w, d, on, plan[0]);
      DisableAllKeeps(w, RevertAt(d, PathOf(plan[0]), BeginsOf(plan[0].kind)), on - {plan[0]}, plan[1..]);
      assert on - {plan[0]} - ItemSet(plan[1..]) == on - ItemSet(plan);
    }
  }

  lemma {:induction false} DisableKeeps(w: World, d: Disk, on: set<Item>, target: Target)
    requires IsFairWorld(w) && Inv(w, d, on)
    ensures Inv(w, Disabled(w.sys, d, target, false), on - ItemSet(DisablePlan(w.sys, w.files, target)))
  {
    PlanStays(w, d, on, target);
    var plan := DisablePlan(w.sys, w.files, target);
    forall i | i in plan ensures HasShape(i) {
      if target != AutoLogin {
        PlanShape(w.sys, w.files, target, i);
      }
    }
    DisableAllKeeps(w, d, on, plan);
  }

  // ---------------------------------------------------------------- whole runs

  datatype Call = Enable(target: Target) | Disable(target: Target)

  /** A disk and the targets turned on by the calls so far; a refused enable
      changes neither. */
  datatype Progress = Progress(disk: Disk, targets: set<Target>)

  function After(sys: System, user: string, p: Progress, call: Call): Progress {
    match call
    case Enable(t) =>
      var r := Enabled(sys, p.disk, t, Some(user));
      if r.Done? then Progress(r.value, p.targets + {t}) else p
    case Disable(t) => Progress(Disabled(sys, p.disk, t, false), p.targets - {t})
  }

  function AfterAll(sys: System, user: string, p: Progress, calls: seq<Call>): Progress
    decreases |calls|
  {
    if calls == [] then p else AfterAll(sys, user, After(sys, user, p, calls[0]), calls[1..])
  }

  /** What some targets mean together. */
  function ItemsFor(w: World, targets: set<Target>): set<Item> {
    set t, i | t in targets && i in Plan(w.sys, w.files, t) :: i
  }

  lemma {:induction false} PlansAreDisjoint(sys: System, files: Files, t: Target, u: Target, i: Item)
    requires t != u && i in Plan(sys, files, t)
    ensures i !in DisablePlan(sys, files, u)
  {
  }

  lemma {:induction false} ItemsForOff(w: World, targets: set<Target>, t: Target)
    ensures ItemsFor(w, targets) - ItemSet(DisablePlan(w.sys, w.files, t)) == ItemsFor(w, targets - {t})
  {
    forall u, i | u in targets && u != t && i in Plan(w.sys, w.files, u) ensures i !in DisablePlan(w.sys, w.files, t) {
      PlansAreDisjoint(w.sys, w.files, u, t, i);
    }
  }

  lemma {:induction false} CallKeeps(w: World, p: Progress, call: Call)
    requires IsFairWorld(w) && Inv(w, p.disk, ItemsFor(w, p.targets))
    ensures var q := After(w.sys, w.user, p, call); Inv(w, q.disk, ItemsFor(w, q.targets))
  {
    match call
    case Enable(t) =>
      EnableKeeps(w, p.disk, ItemsFor(w, p.targets), t, Some(w.user));
      assert ItemsFor(w, p.targets) + ItemSet(Plan(w.sys, w.files, t)) == ItemsFor(w, p.targets + {t});
    case Disable(t) =>
      DisableKeeps(w, p.disk, ItemsFor(w, p.targets), t);
      ItemsForOff(w, p.targets, t);
  }

  lemma {:induction false} RunKeeps(w: World, p: Progress, calls: seq<Call>)
    requires IsFairWorld(w) && Inv(w, p.disk, ItemsFor(w, p.targets))
    ensures var q := AfterAll(w.sys, w.user, p, calls); Inv(w, q.disk, ItemsFor(w, q.targets))
    decreases |calls|
  {
    if calls != [] {
      CallKeeps(w, p, calls[0]);
      RunKeeps(w, After(w.sys, w.user, p, calls[0]), calls[1..]);
    }
  }

  function FirstFound(w: World): Progress {
    Progress(Disk(w.files, map[]), {})
  }

  /** After any two runs from the same machine that leave the same targets on,
      every file is the same. */
  lemma {:induction false} FilesFollowTargets(w: World, calls: seq<Call>, others: seq<Call>)
    requires IsFairWorld(w)
    ensures var p, q := AfterAll(w.sys, w.user, FirstFound(w), calls), AfterAll(w.sys, w.user, FirstFound(w), others);
            p.targets == q.targets ==> p.disk.files == q.disk.files
  {
    var p, q := AfterAll(w.sys, w.user, FirstFound(w), calls), AfterAll(w.sys, w.user, FirstFound(w), others);
    NothingOnAtFirst(w);
    assert ItemsFor(w, {}) == {};
    RunKeeps(w, FirstFound(w), calls);
    RunKeeps(w, FirstFound(w), others);
    if p.targets == q.targets {
      FilesFollowItems(w, p.disk, q.disk, ItemsFor(w, p.targets));
    }
  }

  /** A run that ends with no target on restores every file, the one two targets
      share included, and leaves the manifest empty. */
  lemma {:induction false} RunsRestoreTheTree(w: World, calls: seq<Call>)
    requires IsFairWorld(w)
    ensures var p := AfterAll(w.sys, w.user, FirstFound(w), calls);
            p.targets == {} ==> p.disk == Disk(w.files, map[])
  {
    var p := AfterAll(w.sys, w.user, FirstFound(w), calls);
    NothingOnAtFirst(w);
    assert ItemsFor(w, {}) == {};
    RunKeeps(w, FirstFound(w), calls);
    if p.targets == {} {
      NothingOnRestores(w, p.disk);
    }
  }
}
