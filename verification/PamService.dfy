/** The PamIntegration object: enable with its rollback, disable, and reset,
    working step by step on the files and the manifest. */
module PamService {
  import opened Sequences
  import opened Text
  import opened Outcomes
  import opened PamLines
  import opened PamBlocks
  import opened PamCells
  import opened PamTargets
  import opened PamReset
  import PamPlans

  /** The state file on disk. */
  datatype StateFile = Missing | Unparsable | Saved(entries: map<Path, Entry>) {
    /** _load_state, where it loads. */
    function Entries(): map<Path, Entry> {
      if Saved? then entries else map[]
    }
  }

  /** What can go wrong in a step besides a refusal: an exception before the
      file is replaced, or after that and before the entry is recorded. */
  datatype Fault = NoFault | BeforeWrite | AfterWrite

  /** How a call ends: all done; raised in a step; or all written and then the
      manifest could not be saved. */
  datatype Ending = Complete | Raised | Unsaved

  class PamIntegration {
    const sys: System
    var files: Files
    var manifest: StateFile

    constructor (sys: System, files: Files, manifest: StateFile)
      ensures this.sys == sys && this.files == files && this.manifest == manifest
    {
      this.sys, this.files, this.manifest := sys, files, manifest;
    }

    /** enable, for every outcome of every step and of saving the manifest.
        Complete, it did what the plan says; raised anywhere, every file is as
        before the call and so is what the manifest records. Saving the manifest
        lies behind the rollback: if that fails, the files are changed and the
        manifest does not know. */
    method TurnOn(target: Target, user: Option<string>, fault: nat -> Fault, saves: bool) returns (ending: Ending)
      modifies this
      ensures ending != Raised ==>
        var r := Enabled(sys, Disk(old(files), old(manifest.Entries())), target, user);
        r.Done? && files == r.value.files
          && manifest == if ending == Complete then Saved(r.value.manifest) else old(manifest)
      ensures ending == Raised ==> files == old(files) && manifest.Entries() == old(manifest.Entries())
      ensures ending == Unsaved ==> !saves
      ensures !old(manifest).Unparsable? && !MayFail(fault)
              && Enabled(sys, Disk(old(files), old(manifest.Entries())), target, user).Done?
              ==> ending == if saves then Complete else Unsaved
      ensures forall p :: p !in PamPlans.TargetPaths(target) ==> Get(files, p) == Get(old(files), p)
    {
      var plan := Plan(sys, files, target);
      if plan == [] || manifest.Unparsable? {
        return Raised;
      }
      var before := files;
      var saved := manifest.Entries();
      var raised, state := ApplyPlan(plan, saved, target, user, fault);
      if raised {
        PutBack(plan, before);
        if saves {
          manifest := Saved(saved);
        }
        return Raised;
      }
      OnStaysIn(sys, Disk(before, saved), target, user);
      if !saves {
        return Unsaved;
      }
      manifest := Saved(state);
      ending := Complete;
    }

    /** The loop over the plan, up to the first step that raises. */
    method ApplyPlan(plan: seq<Item>, saved: map<Path, Entry>, target: Target, user: Option<string>,
                     fault: nat -> Fault)
      returns (raised: bool, state: map<Path, Entry>)
      modifies this`files
      ensures SameElsewhere(plan, files, old(files))
      ensures !raised ==> EnableAll(sys, Disk(old(files), saved), plan, target, user) == Done(Disk(files, state))
      ensures raised ==> EnableAll(sys, Disk(old(files), saved), plan, target, user).Refused?
                         || MayFail(fault)
    {
      raised, state := false, saved;
      ghost var goal, rest := EnableAll(sys, Disk(files, saved), plan, target, user), plan;
      var i := 0;
      while i < |plan|
        invariant 0 <= i <= |plan| && rest == plan[i..] && SameElsewhere(plan, files, old(files))
        invariant goal == EnableAll(sys, Disk(files, state), rest, target, user)
      {
        ghost var was := files;
        EnableAllStep(sys, Disk(files, state), rest, target, user);
        Rest(plan, i);
        raised, state := ApplyStep(plan[i], state, target, user, fault(i));
        SameElsewhereSet(plan, i, was, files, old(files));
        if raised {
          return;
        }
        rest, i := rest[1..], i + 1;
      }
    }

    /** One step of the plan: the file is replaced, then its entry recorded. */
    method ApplyStep(item: Item, state: map<Path, Entry>, target: Target, user: Option<string>, fault: Fault)
      returns (raised: bool, state': map<Path, Entry>)
      modifies this`files
      ensures forall p :: p != PathOf(item) ==> Get(files, p) == Get(old(files), p)
      ensures !raised ==> var r := Step(sys, Disk(old(files), state), item, target, user);
                          r.Done? && Disk(files, state') == WithCell(Disk(old(files), state), PathOf(item), r.value)
      ensures raised ==> Step(sys, Disk(old(files), state), item, target, user).Refused? || fault != NoFault
    {
      state' := state;
      var r := Step(sys, Disk(files, state), item, target, user);
      if r.Refused? || fault == BeforeWrite {
        return true, state;
      }
      files := Set(files, PathOf(item), r.value.text);
      if fault == AfterWrite {
        return true, state;
      }
      return false, Set(state, PathOf(item), r.value.entry);
    }

    /** The except branch: every path of the plan back to what it held. */
    method PutBack(plan: seq<Item>, before: Files)
      requires SameElsewhere(plan, files, before)
      modifies this`files
      ensures files == before
    {
      var i := 0;
      while i < |plan|
        invariant 0 <= i <= |plan|
        invariant SameElsewhere(plan[i..], files, before)
      {
        var p := PathOf(plan[i]);
        ghost var was := files;
        if p !in before {
          files := files - {p};
        } else if p !in files || files[p] != before[p] {
          files := files[p := before[p]];
        }
        PutBackOne(plan[i..], was, files, before);
        assert plan[i..][1..] == plan[i + 1..];
        i := i + 1;
      }
      assert forall p :: Get(files, p) == Get(before, p);
      SameFiles(files, before);
    }

    /** disable, raising in front of any step or when the manifest is saved: the
        items up to there are reverted, and there is no way back; the manifest
        changes only when all are. An unparsable one stops it at once. */
    method TurnOff(target: Target, keepOption: bool, fault: nat -> bool, saves: bool)
      returns (ending: Ending, count: nat)
      modifies this
      ensures var plan := DisablePlan(sys, old(files), target);
              && count <= |plan|
              && var d := DisableAll(Disk(old(files), old(manifest.Entries())), plan[..count], keepOption);
                 && files == d.files && manifest == (if ending == Complete then Saved(d.manifest) else old(manifest))
                 && (ending != Raised ==> count == |plan|) && (ending == Unsaved ==> !saves)
      ensures old(manifest).Unparsable? ==> ending == Raised && count == 0
      ensures !old(manifest).Unparsable? && (forall i :: !fault(i)) ==> ending == if saves then Complete else Unsaved
      ensures ending != Raised
              ==> files == Disabled(sys, Disk(old(files), old(manifest.Entries())), target, keepOption).files
      ensures forall p :: p !in PamPlans.TargetPaths(target) ==> Get(files, p) == Get(old(files), p)
    {
      var plan := DisablePlan(sys, files, target);
      OffStaysIn(sys, Disk(files, manifest.Entries()), target, keepOption);
      assert plan[..|plan|] == plan;
      assert plan[..0] == [];
      if manifest.Unparsable? {
        return Raised, 0;
      }
      var d := Disk(files, manifest.Entries());
      ghost var first := d;
      var i := 0;
      while i < |plan|
        invariant 0 <= i <= |plan| && manifest == old(manifest) && files == d.files
        invariant d == DisableAll(first, plan[..i], keepOption)
      {
        if fault(i) {
          return Raised, i;
        }
        DisableNext(first, plan[..i], plan[i], keepOption);
        assert plan[..i] + [plan[i]] == plan[..i + 1];
        if !(plan[i].kind == LockOption && keepOption) {
          d := RevertAt(d, PathOf(plan[i]), BeginsOf(plan[i].kind));
          files := d.files;
        }
        i := i + 1;
      }
      if !saves {
        return Unsaved, i;
      }
      manifest := Saved(d.manifest);
      return Complete, i;
    }

    /** reset: the drop-in first, also with a broken manifest; then everything
        recorded; then what older versions left. */
    method Reset()
      modifies this
      ensures forall p :: Get(files, p) == ResetAt(old(files), old(manifest.Entries()), p)
      ensures manifest.Saved?
      ensures forall p :: Get(manifest.entries, p) == EntryLeft(old(files), old(manifest.Entries()), p)
    {
      var entries := manifest.Entries();
      files := WithoutDropIn(files);
      ghost var first := Disk(files, entries);
      var state := RevertRecorded(entries);
      ghost var second := files;
      CleanServices();
      ghost var third := files;
      CleanLockConfig();
      manifest := Saved(state);
      forall p ensures Get(files, p) == ResetAt(old(files), old(manifest.Entries()), p) {
        assert Get(second, p) == AfterManifest(CellAt(first, p), p == DropIn);
        assert Get(third, p) == CleanedAt(second, p);
      }
    }

    /** The lock screen's configuration. */
    method CleanLockConfig()
      modifies this`files
      ensures forall p :: p != LockConfig ==> Get(files, p) == Get(old(files), p)
      ensures Get(files, LockConfig) == if LockConfig in old(files) then CleanedLock(old(files)[LockConfig]) else None
    {
      if LockConfig in files && Contains(files[LockConfig], BEGIN) {
        var cleaned := RemoveBlock(files[LockConfig], BEGINS);
        files := if Blank(cleaned) then files - {LockConfig} else files[LockConfig := cleaned];
      }
    }

    /** _revert for every recorded path, in any order. */
    method RevertRecorded(entries: map<Path, Entry>) returns (state: map<Path, Entry>)
      requires DropIn !in files
      modifies this`files
      ensures forall p :: Get(files, p) == AfterManifest(CellAt(Disk(old(files), entries), p), p == DropIn)
      ensures forall p :: Get(state, p)
                          == if p in entries
                             then Reverted(CellAt(Disk(old(files), entries), p), BEGINS, p == DropIn).entry else None
    {
      ghost var first := Disk(files, entries);
      state := entries;
      var todo := entries.Keys;
      while todo != {}
        invariant todo <= entries.Keys && DropIn !in files
        invariant forall p :: p !in entries || p in todo ==> CellAt(Disk(files, state), p) == CellAt(first, p)
        invariant forall p :: p in entries && p !in todo
                              ==> CellAt(Disk(files, state), p) == Reverted(CellAt(first, p), BEGINS, p == DropIn)
        decreases todo
      {
        var p :| p in todo;
        var c := Reverted(Cell(Get(files, p), Get(state, p)), BEGINS, p == DropIn);
        WithCellAt(Disk(files, state), p, c);
        files, state := Set(files, p, c.text), Set(state, p, c.entry);
        todo := todo - {p};
      }
      forall p ensures Get(files, p) == AfterManifest(CellAt(first, p), p == DropIn) {
        assert CellAt(Disk(files, state), p).text == Get(files, p);
      }
      forall p
        ensures Get(state, p) == if p in entries then Reverted(CellAt(first, p), BEGINS, p == DropIn).entry else None
      {
        assert CellAt(Disk(files, state), p).entry == Get(state, p);
      }
    }

    /** The pass over /etc/pam.d. */
    method CleanServices()
      modifies this`files
      ensures forall p :: Get(files, p) == CleanedAt(old(files), p)
    {
      var before := files;
      var todo := set p | p in files && p.Etc?;
      while todo != {}
        invariant forall p :: p in todo ==> p in before && p.Etc?
        invariant forall p :: p in before && p.Etc? && p !in todo ==> Get(files, p) == CleanedAt(before, p)
        invariant forall p :: p in todo || p !in before || !p.Etc? ==> Get(files, p) == Get(before, p)
        decreases todo
      {
        var p :| p in todo;
        assert Get(files, p) == Get(before, p);
        var text := files[p];
        if EndsWith(p.service, BACKUP_SUFFIX) || StartsWith(text, OWN_HEADER) {
          files := files - {p};
        } else if Contains(text, MODULE) {
          files := files[p := RemoveLegacyLines(RemoveBlock(text, BEGINS))];
        }
        todo := todo - {p};
      }
    }
  }

  ghost predicate MayFail(fault: nat -> Fault) {
    exists i: nat :: fault(i) != NoFault
  }

  lemma {:induction false} OnStaysIn(sys: System, d: Disk, target: Target, user: Option<string>)
    ensures var r := Enabled(sys, d, target, user);
            r.Done? ==> forall p :: p !in PamPlans.TargetPaths(target) ==> Get(r.value.files, p) == Get(d.files, p)
  {
    if Enabled(sys, d, target, user).Done? {
      PamPlans.EnabledStaysIn(sys, d, target, user);
      OutsideStays(d, Enabled(sys, d, target, user).value, PamPlans.TargetPaths(target));
    }
  }

  lemma {:induction false} OffStaysIn(sys: System, d: Disk, target: Target, keepOption: bool)
    ensures var plan := DisablePlan(sys, d.files, target);
            forall k, p :: 0 <= k <= |plan| && p !in PamPlans.TargetPaths(target)
                           ==> Get(DisableAll(d, plan[..k], keepOption).files, p) == Get(d.files, p)
  {
    var plan := DisablePlan(sys, d.files, target);
    forall k, p | 0 <= k <= |plan| && p !in PamPlans.TargetPaths(target)
      ensures Get(DisableAll(d, plan[..k], keepOption).files, p) == Get(d.files, p)
    {
      PamPlans.PartlyOffStaysIn(sys, d, target, keepOption, k);
      OutsideStays(d, DisableAll(d, plan[..k], keepOption), PamPlans.TargetPaths(target));
    }
  }

  lemma {:induction false} OutsideStays(a: Disk, b: Disk, paths: set<Path>)
    requires PamPlans.OnlyAt(a, b, paths)
    ensures forall p :: p !in paths ==> Get(b.files, p) == Get(a.files, p)
  {
    forall p | p !in paths ensures Get(b.files, p) == Get(a.files, p) {
      assert CellAt(b, p) == CellAt(a, p);
    }
  }

  /** Two trees agree on every path outside the plan. */
  ghost predicate SameElsewhere(plan: seq<Item>, a: Files, b: Files) {
    forall p :: (forall j :: 0 <= j < |plan| ==> PathOf(plan[j]) != p) ==> Get(a, p) == Get(b, p)
  }

  lemma {:induction false} SameElsewhereSet(plan: seq<Item>, i: nat, was: Files, now: Files, before: Files)
    requires i < |plan| && SameElsewhere(plan, was, before)
    requires forall p :: p != PathOf(plan[i]) ==> Get(now, p) == Get(was, p)
    ensures SameElsewhere(plan, now, before)
  {
    forall p | forall j :: 0 <= j < |plan| ==> PathOf(plan[j]) != p ensures Get(now, p) == Get(before, p) {
      assert PathOf(plan[i]) != p;
    }
  }

  lemma {:induction false} PutBackOne(plan: seq<Item>, was: Files, now: Files, before: Files)
    requires plan != [] && SameElsewhere(plan, was, before)
    requires forall q :: Get(now, q) == if q == PathOf(plan[0]) then Get(before, q) else Get(was, q)
    ensures SameElsewhere(plan[1..], now, before)
  {
    forall p | forall j :: 0 <= j < |plan[1..]| ==> PathOf(plan[1..][j]) != p ensures Get(now, p) == Get(before, p) {
      if p != PathOf(plan[0]) {
        forall j | 0 <= j < |plan| ensures PathOf(plan[j]) != p {
          assert j > 0 ==> plan[j] == plan[1..][j - 1];
        }
      }
    }
  }

  lemma {:induction false} DisableNext(d: Disk, plan: seq<Item>, item: Item, keepOption: bool)
    ensures DisableAll(d, plan + [item], keepOption)
         == var e := DisableAll(d, plan, keepOption);
            if item.kind == LockOption && keepOption then e else RevertAt(e, PathOf(item), BeginsOf(item.kind))
    decreases |plan|
  {
    if plan == [] {
      assert plan + [item] == [item] && |[item][1..]| == 0;
    } else {
      assert (plan + [item])[1..] == plan[1..] + [item];
      if plan[0].kind == LockOption && keepOption {
        DisableNext(d, plan[1..], item, keepOption);
      } else {
        DisableNext(RevertAt(d, PathOf(plan[0]), BeginsOf(plan[0].kind)), plan[1..], item, keepOption);
      }
    }
  }

  lemma {:induction false} EnableAllStep(sys: System, d: Disk, plan: seq<Item>, target: Target, user: Option<string>)
    requires plan != []
    ensures var r := Step(sys, d, plan[0], target, user);
            EnableAll(sys, d, plan, target, user)
            == if r.Refused? then Refused
               else EnableAll(sys, WithCell(d, PathOf(plan[0]), r.value), plan[1..], target, user)
  {
  }

  lemma {:induction false} SameFiles(a: Files, b: Files)
    requires forall p :: Get(a, p) == Get(b, p)
    ensures a == b
  {
    forall p ensures p in a <==> p in b {
      assert Get(a, p) == Get(b, p);
    }
    forall p | p in a ensures a[p] == b[p] {
      assert Get(a, p) == Get(b, p);
    }
  }
}
