/** Enabling a target on a service file, from the files on disk to what the
    patched stack means, and when the block is in the file at all. */
module PamEnable {
  import opened Sequences
  import opened Text
  import opened Outcomes
  import opened PamLines
  import opened PamBlocks
  import opened PamCells
  import opened PamTargets
  import opened PamMeaning
  import PamIncludes
  import PamStack

  /** What a service is patched from: its file in /etc, or the vendor's. */
  function Source(d: Disk, service: string): Option<string> {
    SourceText(CellAt(d, Etc(service)), TextAt(d.files, Vendor(d.files, service)))
  }

  // ------------------------------------------------------ is the block there

  /** The face block stands in the file, with no auth line before it. */
  predicate InPlace(ls: seq<string>, block: seq<string>) {
    exists k :: 0 <= k <= |ls| - |block| && ls[k..][..|block|] == block && NoAuth(ls[..k])
  }

  lemma {:induction false} CutOut(a: seq<string>, block: seq<string>, b: seq<string>)
    requires NoAuth(a)
    ensures InPlace(a + block + b, block)
  {
    var ls, k := a + block + b, |a|;
    assert ls[k..][..|block|] == block && ls[..k] == a;
  }

  /** A block has its marker first and its END last. */
  lemma {:induction false} BlockEnds(ls: seq<string>, gates: seq<string>, line: string)
    requires InPlace(ls, Block(gates, line))
    ensures !NoBlock(ls, [BEGIN])
  {
    var block := Block(gates, line);
    var k :| 0 <= k <= |ls| - |block| && ls[k..][..|block|] == block && NoAuth(ls[..k]);
    var n := |block| - 1;
    assert ls[k] == block[0] && ls[k + n] == block[n];
    MarkersAreLines();
    StripOfTightLine(BEGIN);
    StripOfTightLine(END);
    if NoBlock(ls, [BEGIN]) {
      NoBlockAt(ls, [BEGIN], k, k + n);
    }
  }

  lemma {:induction false} InsertedInPlace(text: string, gates: seq<string>, line: string)
    requires PlainEnd(text) && !Contains(text, BEGIN) && AreCopies(gates) && PlainLine(line)
             && InsertBlock(text, gates, line).Done?
    ensures InPlace(SplitLines(InsertBlock(text, gates, line).value), Block(gates, line))
  {
    var ls := WithNewline(SplitLines(text));
    SplitIsCanonical(text);
    PlainEndOfLast(text);
    WholeWithNewline(SplitLines(text));
    WholeBlock(gates, line);
    AuthBounds(ls);
    PlacedLines(ls, FirstAuth(ls), Block(gates, line));
    InsertBlockIs(text, gates, line);
  }

  lemma {:induction false} PlacedLines(ls: seq<string>, k: nat, block: seq<string>)
    requires Whole(ls) && Whole(block) && k <= |ls| && NoAuth(ls[..k])
    ensures InPlace(SplitLines(Join(ls[..k] + block + ls[k..])), block)
  {
    Halves(ls, k);
    WholeAppend(ls[..k], ls[k..]);
    WholeAppend(ls[..k], block);
    WholeAppend(ls[..k] + block, ls[k..]);
    SplitOfWhole(ls[..k] + block + ls[k..]);
    CutOut(ls[..k], block, ls[k..]);
  }

  lemma {:induction false} RemovedHasNoBlock(text: string, gates: seq<string>, line: string)
    ensures !InPlace(SplitLines(RemoveBlock(text, [BEGIN])), Block(gates, line))
  {
    var ls := SplitLines(text);
    SplitIsCanonical(text);
    OutsideIsCanonical(ls, [BEGIN]);
    SplitOfJoin(OutsideBlocks(ls, [BEGIN]));
    OutsideHasNoBlock(ls, [BEGIN]);
    if InPlace(OutsideBlocks(ls, [BEGIN]), Block(gates, line)) {
      BlockEnds(OutsideBlocks(ls, [BEGIN]), gates, line);
    }
  }

  /** A step that succeeds leaves the block in the file exactly when the marker is
      not spelled anywhere in what remove_block leaves: has_block finds it inside
      a longer line, remove_block only on a line of its own. */
  lemma {:induction false} InsertPlaces(c: Cell, vendor: Option<string>, gates: seq<string>, line: string,
                                        target: Target)
    requires SourceText(c, vendor).Some? && InsertInto(c, vendor, gates, line, target).Done?
    requires PlainEnd(RemoveBlock(SourceText(c, vendor).value, [BEGIN])) && AreCopies(gates) && PlainLine(line)
    ensures var now := SourceText(InsertInto(c, vendor, gates, line, target).value, vendor);
            && now.Some?
            && (InPlace(SplitLines(now.value), Block(gates, line))
                <==> !Contains(RemoveBlock(SourceText(c, vendor).value, [BEGIN]), BEGIN))
  {
    var text := SourceText(c, vendor).value;
    var clean := RemoveBlock(text, [BEGIN]);
    InsertWrites(c, vendor, text, gates, line, target);
    if Contains(clean, BEGIN) {
      RemovedHasNoBlock(text, gates, line);
    } else {
      InsertedInPlace(clean, gates, line);
    }
  }

  lemma {:induction false} InsertWrites(c: Cell, vendor: Option<string>, text: string, gates: seq<string>,
                                        line: string, target: Target)
    requires SourceText(c, vendor) == Some(text)
    ensures var r := InsertInto(c, vendor, gates, line, target);
            var made := InsertBlock(RemoveBlock(text, [BEGIN]), gates, line);
            (r.Done? <==> made.Done?) && (r.Done? ==> SourceText(r.value, vendor) == Some(made.value))
  {
  }

  /** At an input: the marker behind a word of comment. Enabling succeeds and
      leaves the file as it is, which shows as enabled. */
  lemma {:induction false} MarkerInAComment(note: string, gates: seq<string>, line: string, target: Target)
    requires note != "" && HasContent(note) && !IsSpace(note[0])
    ensures var text := note + BEGIN + "\n";
            var c := Cell(Some(text), None);
            InsertInto(c, None, gates, line, target) == Done(c) && Contains(text, BEGIN)
              && !InPlace(SplitLines(text), Block(gates, line))
  {
    var marked := note + BEGIN;
    var text := marked + "\n";
    BeginIsALine();
    StripOfTightLine(marked);
    LoneLine(marked);
    assert |marked| > |BEGIN|;
    OutsideLone(text, [BEGIN]);
    ContainsSelf(BEGIN);
    ContainsRight(note, BEGIN + "\n", BEGIN);
    assert note + (BEGIN + "\n") == text;
    RemovedHasNoBlock(text, gates, line);
  }

  lemma {:induction false} LoneLine(l: string)
    requires HasContent(l)
    ensures SplitLines(l + "\n") == [l + "\n"]
  {
    var ls := [l + "\n"];
    assert ls[1..] == [];
    assert Join(ls) == (l + "\n") + Join(ls[1..]);
    assert Join(ls) == l + "\n";
    SplitOfJoin(ls);
  }

  lemma {:induction false} OutsideLone(text: string, begins: seq<string>)
    requires SplitLines(text) == [text] && Strip(text) !in begins
    ensures RemoveBlock(text, begins) == text
  {
    var none: seq<string> := [];
    assert [text][1..] == none;
    assert OutsideBlocks(none, begins) == none;
    assert OutsideBlocks([text], begins) == [text] + none == [text];
    assert Join([text]) == text + "";
  }

  // ------------------------------------------------------ in and out again

  lemma {:induction false} CopiesAreInner(gates: seq<string>)
    requires AreCopies(gates)
    ensures IsInner(AsLines(gates))
  {
    if gates != [] {
      CopiesAreInner(gates[1..]);
      assert AsLines(gates)[1..] == AsLines(gates[1..]);
    }
  }

  lemma {:induction false} BlockGoes(a: seq<string>, gates: seq<string>, line: string, b: seq<string>)
    requires AreCopies(gates) && PlainLine(line) && Unmarked(a, [BEGIN]) && Unmarked(b, [BEGIN])
    ensures OutsideBlocks(a + Block(gates, line) + b, [BEGIN]) == a + b
  {
    var inner := AsLines(gates) + [line + "\n"];
    CopiesAreInner(gates);
    InnerAppend(AsLines(gates), [line + "\n"]);
    assert Block(gates, line) == Marked(BEGIN, inner);
    Associate(a, Block(gates, line), b);
    OutsideUnmarked(a, Block(gates, line) + b, [BEGIN]);
    OutsideBlock(BEGIN, inner, b, [BEGIN]);
    OutsideUnmarked(b, [], [BEGIN]);
    assert b + [] == b && [] + b == b;
  }

  lemma {:induction false} JoinWithNewline(text: string)
    requires text != ""
    ensures Join(WithNewline(SplitLines(text))) == Ended(text)
  {
    var ls := SplitLines(text);
    var front, last := ls[..|ls| - 1], ls[|ls| - 1];
    JoinOfSplit(text);
    SplitIsCanonical(text);
    WithNewlineParts(ls);
    JoinAppend(front, [last]);
    JoinAppend(front, [Ended(last)]);
    JoinCons(last, []);
    JoinCons(Ended(last), []);
    assert [last] + [] == [last] && [Ended(last)] + [] == [Ended(last)];
    assert Join([last]) == last && Join([Ended(last)]) == Ended(last);
    SameEnd(Join(front), last);
  }

  lemma {:induction false} SameEnd(front: string, last: string)
    requires last != ""
    ensures front + Ended(last) == Ended(front + last)
  {
    var t := front + last;
    assert t[|t| - 1..] == last[|last| - 1..];
  }

  lemma {:induction false} UnmarkedText(text: string)
    requires !Contains(text, BEGIN) && text != ""
    ensures Unmarked(WithNewline(SplitLines(text)), [BEGIN])
  {
    var ls := SplitLines(text);
    JoinWithNewline(text);
    BeginIsALine();
    if Contains(Ended(text), BEGIN) {
      ContainsBeforeNewline(text, BEGIN);
    }
    MentionedIsContained(WithNewline(ls), BEGIN);
    UnmarkedWithoutMention(WithNewline(ls), [BEGIN]);
  }

  /** Taking the block out again restores the file exactly when it ended in a
      newline; otherwise it gains one. */
  lemma {:induction false} InsertThenRemove(text: string, gates: seq<string>, line: string)
    requires PlainEnd(text) && !Contains(text, BEGIN) && AreCopies(gates) && PlainLine(line)
             && InsertBlock(text, gates, line).Done?
    ensures RemoveBlock(InsertBlock(text, gates, line).value, [BEGIN])
            == (if EndsWith(text, "\n") then text else text + "\n")
  {
    var ls := WithNewline(SplitLines(text));
    SplitIsCanonical(text);
    PlainEndOfLast(text);
    WholeWithNewline(SplitLines(text));
    WholeBlock(gates, line);
    UnmarkedText(text);
    InsertBlockIs(text, gates, line);
    OutAgain(ls, FirstAuth(ls), gates, line);
    JoinWithNewline(text);
  }

  lemma {:induction false} OutAgain(ls: seq<string>, k: nat, gates: seq<string>, line: string)
    requires Whole(ls) && k <= |ls| && Unmarked(ls, [BEGIN]) && AreCopies(gates) && PlainLine(line)
    ensures RemoveBlock(Join(ls[..k] + Block(gates, line) + ls[k..]), [BEGIN]) == Join(ls)
  {
    var a, b := ls[..k], ls[k..];
    Halves(ls, k);
    WholeBlock(gates, line);
    WholeAppend(a, b);
    WholeAppend(a, Block(gates, line));
    WholeAppend(a + Block(gates, line), b);
    SplitOfWhole(a + Block(gates, line) + b);
    UnmarkedAppend(a, b, [BEGIN]);
    BlockGoes(a, gates, line, b);
  }

  lemma {:induction false} UnmarkedAppend(a: seq<string>, b: seq<string>, begins: seq<string>)
    ensures Unmarked(a + b, begins) <==> Unmarked(a, begins) && Unmarked(b, begins)
  {
    if a == [] {
      assert a + b == b;
    } else {
      assert (a + b)[1..] == a[1..] + b;
      UnmarkedAppend(a[1..], b, begins);
    }
  }

  // ------------------------------------------------------------ what it means

  lemma {:induction false} GatesAreCopies(files: Files, text: string)
    ensures AreCopies(Gates(files, text))
  {
    var items := PamIncludes.ItemsOf(FindMap(files), SplitLines(RemoveBlock(text, BEGINS)));
    CollectedAreCopies(PamIncludes.AuthLines(GraphOf(files), items, 0, {}).found);
  }

  lemma {:induction false} LineForIs(service: string)
    ensures LineFor(service) == FaceLine(service in PASSWORD_FIRST_SERVICES)
  {
  }

  /** Enabling a target on any service file that has a place for our block, for
      all stacks the file includes and all answers of the modules: the file then
      in force lets in exactly those whom LetsIn names, with the checks of the
      whole include closure as gates and the file without our block as stack. */
  lemma {:induction false} EnablingMeans(sys: System, d: Disk, service: string, target: Target, user: Option<string>,
                                         inc: Includes, answers: PamStack.Answers)
    requires Source(d, service).Some? && CanPatch(inc, RemoveBlock(Source(d, service).value, [BEGIN]))
    ensures var text := Source(d, service).value;
            var r, vendor := Step(sys, d, Item(service, Insert), target, user),
                             TextAt(d.files, Vendor(d.files, service));
            && r.Done? && SourceText(r.value, vendor).Some?
            && (PamStack.Succeeds(StackOf(inc, SplitLines(SourceText(r.value, vendor).value)), answers)
                <==> PamStack.LetsIn(CopyEntries(Gates(d.files, text)), FaceEntry(service in PASSWORD_FIRST_SERVICES),
                                     StackOf(inc, SplitLines(RemoveBlock(text, [BEGIN]))), answers))
  {
    var text := Source(d, service).value;
    GatesAreCopies(d.files, text);
    LineForIs(service);
    StepInserts(sys, d, service, target, user, text);
    PatchedFileExactly(inc, RemoveBlock(text, [BEGIN]), Gates(d.files, text), service in PASSWORD_FIRST_SERVICES,
                       answers);
  }

  lemma {:induction false} StepInserts(sys: System, d: Disk, service: string, target: Target, user: Option<string>,
                                       text: string)
    requires Source(d, service) == Some(text)
    ensures var r, vendor := Step(sys, d, Item(service, Insert), target, user),
                             TextAt(d.files, Vendor(d.files, service));
            var made := InsertBlock(RemoveBlock(text, [BEGIN]), Gates(d.files, text), LineFor(service));
            (r.Done? <==> made.Done?) && (r.Done? ==> SourceText(r.value, vendor) == Some(made.value))
  {
    InsertWrites(CellAt(d, Etc(service)), TextAt(d.files, Vendor(d.files, service)), text, Gates(d.files, text),
                 LineFor(service), target);
  }

  // -------------------------------------------------------------- flat files

  /** A line of a flat file pulls nothing in. */
  lemma {:induction false} FlatLine<P>(find: map<string, P>, line: string)
    requires ModuleOf(line).0 != Some("@include")
             && (ModuleOf(line).0 == Some("auth") ==> PamStack.IsKeyword(EntryOf(Words(line))))
    ensures !PamIncludes.ItemOf(find, line).Lead?
    ensures GateLine(line).Some? ==> PamIncludes.ItemOf(find, line) == PamIncludes.Own(line)
  {
    var parts := Words(line);
    if |parts| >= 3 && parts[1] in ["include", "substack"] {
      IncludeIsNoKeyword(parts);
    }
    if GateLine(line).Some? {
      AuthWords(line);
    }
  }

  lemma {:induction false} OwnLinesAppend<P>(a: seq<PamIncludes.Item<P>>, item: PamIncludes.Item<P>)
    ensures PamIncludes.OwnLines(a + [item]) == PamIncludes.OwnLines(a) + (if item.Own? then [item.line] else [])
  {
    if a == [] {
      assert a + [item] == [item];
    } else {
      assert (a + [item])[1..] == a[1..] + [item];
      OwnLinesAppend(a[1..], item);
      Associate(if a[0].Own? then [a[0].line] else [],
                PamIncludes.OwnLines(a[1..]),
                if item.Own? then [item.line] else []);
    }
  }

  lemma {:induction false} NoLeads<P>(files: PamIncludes.Files<P>, items: seq<PamIncludes.Item<P>>)
    requires forall i :: 0 <= i < |items| ==> !items[i].Lead?
    ensures PamIncludes.AuthLines(files, items, 0, {}).found == PamIncludes.OwnLines(items)
  {
    if items != [] {
      NoLeads(files, items[1..]);
    }
  }

  lemma {:induction false} FlatGates<P>(find: map<string, P>, ls: seq<string>)
    requires IsFlat(ls)
    ensures GatesOf(PamIncludes.OwnLines(PamIncludes.ItemsOf(find, ls))) == GatesOf(ls)
  {
    if ls != [] {
      var front, last := ls[..|ls| - 1], ls[|ls| - 1];
      FlatGates(find, front);
      FlatLine(find, last);
      Last(ls);
      OwnOfLast(find, front, last);
      SameGates(PamIncludes.OwnLines(PamIncludes.ItemsOf(find, front)), front, last,
                PamIncludes.ItemOf(find, last).Own?);
    }
  }

  lemma {:induction false} OwnOfLast<P>(find: map<string, P>, front: seq<string>, last: string)
    ensures PamIncludes.OwnLines(PamIncludes.ItemsOf(find, front + [last]))
         == PamIncludes.OwnLines(PamIncludes.ItemsOf(find, front))
           + (if PamIncludes.ItemOf(find, last).Own? then [last] else [])
  {
    var items := PamIncludes.ItemsOf(find, front);
    assert PamIncludes.ItemsOf(find, front + [last]) == items + [PamIncludes.ItemOf(find, last)];
    OwnLinesAppend(items, PamIncludes.ItemOf(find, last));
  }

  lemma {:induction false} SameGates(found: seq<string>, front: seq<string>, line: string, own: bool)
    requires GatesOf(found) == GatesOf(front) && (GateLine(line).Some? ==> own)
    ensures GatesOf(found + (if own then [line] else [])) == GatesOf(front + [line])
  {
    GatesOfLast(front, line);
    if own {
      GatesOfLast(found, line);
    } else {
      assert found + [] == found;
    }
  }

  lemma {:induction false} GatesOfLast(found: seq<string>, line: string)
    ensures GatesOf(found + [line]) == var gates, gate := GatesOf(found), GateLine(line);
                                       if gate.Some? && gate.value !in gates then gates + [gate.value] else gates
  {
    assert (found + [line])[..|found|] == found;
  }

  /** The gates of a flat file are its own checks. */
  lemma {:induction false} GatesOfFlat(files: Files, text: string)
    requires IsFlat(SplitLines(text)) && !HasAnyBlock(text)
    ensures Gates(files, text) == GatesOf(SplitLines(text))
  {
    var ls, find := SplitLines(text), FindMap(files);
    RemoveFromUnmarked(text, BEGINS);
    forall i | 0 <= i < |ls| ensures !PamIncludes.ItemsOf(find, ls)[i].Lead? {
      FlatLine(find, ls[i]);
    }
    NoLeads(GraphOf(files), PamIncludes.ItemsOf(find, ls));
    FlatGates(find, ls);
  }

  /** On a flat file without our blocks: every check of it passes, and the face
      matches or the file as found lets them in; a failed match at a login
      screen ends the attempt. */
  lemma {:induction false} EnablingFlatFile(sys: System, d: Disk, service: string, target: Target,
                                            user: Option<string>, inc: Includes, answers: PamStack.Answers)
    requires Source(d, service).Some? && var text := Source(d, service).value;
             PlainEnd(text) && !HasAnyBlock(text) && IsFlat(SplitLines(text))
               && FirstAuth(SplitLines(text)) < |SplitLines(text)|
    ensures var text, face := Source(d, service).value, FaceEntry(service in PASSWORD_FIRST_SERVICES);
            var r, vendor := Step(sys, d, Item(service, Insert), target, user),
                             TextAt(d.files, Vendor(d.files, service));
            && r.Done? && SourceText(r.value, vendor).Some?
            && (PamStack.Succeeds(StackOf(inc, SplitLines(SourceText(r.value, vendor).value)), answers)
                <==> ChecksPass(SplitLines(text), answers)
                     && (PamStack.Matches(face, answers)
                         || (!PamStack.Ends(face, answers)
                             && PamStack.Succeeds(StackOf(inc, SplitLines(text)), answers))))
  {
    var text := Source(d, service).value;
    RemoveFromUnmarked(text, [BEGIN]);
    GatesOfFlat(d.files, text);
    LineForIs(service);
    StepInserts(sys, d, service, target, user, text);
    PatchedFileMeaning(inc, text, service in PASSWORD_FIRST_SERVICES, answers);
  }
}
