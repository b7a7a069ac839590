/** _auth_lines: the auth lines of a service file with its includes followed,
    over an arbitrary include graph. */
module PamIncludes {
  import opened Text
  import opened Outcomes
  import opened PamLines

  const MAX_INCLUDE_DEPTH := 8

  /** What a line is to the walk: an auth line of its own, a way into another
      file that exists, or nothing. */
  datatype Item<+P> = Own(line: string) | Lead(to: P) | Nothing

  /** The service a line pulls in. */
  function IncludedBy(line: string): Option<string> {
    var parts := Words(line);
    if parts == [] || parts[0][0] == '#' then None
    else if parts[0] == "@include" && |parts| > 1 then Some(parts[1])
    else if |parts| >= 3 && StripChar(parts[0], '-') == "auth" && parts[1] in ["include", "substack"] then
      Some(parts[2])
    else None
  }

  /** find: where _find finds a service. */
  function ItemOf<P>(find: map<string, P>, line: string): Item<P> {
    var parts, name := Words(line), IncludedBy(line);
    if name.Some? then (if name.value in find then Lead(find[name.value]) else Nothing)
    else if parts != [] && parts[0][0] != '#' && StripChar(parts[0], '-') == "auth" then Own(line)
    else Nothing
  }

  /** A line with these words includes a service, or has it as a substack. */
  predicate Brings(words: seq<string>, service: string) {
    || (|words| >= 2 && words[0] == "@include" && words[1] == service)
    || (|words| >= 3 && StripChar(words[0], '-') == "auth" && (words[1] == "include" || words[1] == "substack")
        && words[2] == service)
  }

  /** What a line is to the walk, by its words. */
  lemma {:induction false} ItemMeans<P>(find: map<string, P>, line: string)
    ensures forall p :: ItemOf(find, line) == Lead(p)
                        <==> exists service :: Brings(Words(line), service) && service in find && find[service] == p
    ensures ItemOf(find, line).Own?
            <==> Words(line) != [] && StripChar(Words(line)[0], '-') == "auth"
                 && forall service :: !Brings(Words(line), service)
    ensures ItemOf(find, line).Own? ==> ItemOf(find, line).line == line
  {
    var words, name := Words(line), IncludedBy(line);
    forall service ensures Brings(words, service) <==> name == Some(service) {
      NoComment(words);
    }
    assert name.Some? ==> Brings(words, name.value);
  }

  lemma {:induction false} NoComment(words: seq<string>)
    requires forall i :: 0 <= i < |words| ==> words[i] != ""
    ensures words != [] && (StripChar(words[0], '-') == "auth" || words[0] == "@include") ==> words[0][0] != '#'
    ensures words != [] && words[0] == "@include" ==> StripChar(words[0], '-') != "auth"
  {
    assert "@include"[0] == '@' && "auth"[0] == 'a';
  }

  function ItemsOf<P>(find: map<string, P>, lines: seq<string>): (items: seq<Item<P>>)
    ensures |items| == |lines| && forall i :: 0 <= i < |lines| ==> items[i] == ItemOf(find, lines[i])
  {
    if lines == [] then [] else [ItemOf(find, lines[0])] + ItemsOf(find, lines[1..])
  }

  /** The readable files and what is in them. */
  datatype Files<!P(==)> = Files(items: map<P, seq<Item<P>>>) {
    function At(p: P): seq<Item<P>> {
      if p in items then items[p] else []
    }
  }

  function OwnLines<P>(items: seq<Item<P>>): seq<string> {
    if items == [] then [] else (if items[0].Own? then [items[0].line] else []) + OwnLines(items[1..])
  }

  /** found: the lines in order; followed: the files gone into, in order; seen: every file met. */
  datatype Walk<!P(==)> = Walk(found: seq<string>, followed: seq<P>, seen: set<P>)

  /** An item the walk does not go into. */
  predicate Passed<P>(item: Item<P>, depth: nat, seen: set<P>) {
    !item.Lead? || item.to in seen || depth >= MAX_INCLUDE_DEPTH
  }

  function AuthLines<P>(files: Files<P>, items: seq<Item<P>>, depth: nat, seen: set<P>): (w: Walk<P>)
    requires depth <= MAX_INCLUDE_DEPTH
    decreases MAX_INCLUDE_DEPTH - depth, |items|
  {
    if items == [] then Walk([], [], seen)
    else if Passed(items[0], depth, seen) then
      var rest := AuthLines(files, items[1..], depth, seen);
      rest.(found := (if items[0].Own? then [items[0].line] else []) + rest.found)
    else
      var p := items[0].to;
      var inner := AuthLines(files, files.At(p), depth + 1, seen + {p});
      var rest := AuthLines(files, items[1..], depth, inner.seen);
      Walk(inner.found + rest.found, [p] + inner.followed + rest.followed, rest.seen)
  }

  // ------------------------------------------------------------- the closure

  /** A set of files that holds what the items, and its own files, lead to. */
  ghost predicate Covers<P>(items: seq<Item<P>>, c: set<P>) {
    forall i :: 0 <= i < |items| && items[i].Lead? ==> items[i].to in c
  }

  ghost predicate Closed<P>(files: Files<P>, c: set<P>) {
    forall p :: p in c ==> Covers(files.At(p), c)
  }

  predicate NoRepeat<T(==)>(s: seq<T>) {
    s == [] || (s[0] !in s[1..] && NoRepeat(s[1..]))
  }

  lemma {:induction false} NoRepeatAppend<T>(a: seq<T>, b: seq<T>)
    requires NoRepeat(a) && NoRepeat(b) && forall x :: x in a ==> x !in b
    ensures NoRepeat(a + b)
  {
    if a == [] {
      assert a + b == b;
    } else {
      assert (a + b)[1..] == a[1..] + b;
      NoRepeatAppend(a[1..], b);
    }
  }

  /** All auth lines of the files together. */
  function LinesOf<P>(files: Files<P>, ps: seq<P>): multiset<string> {
    if ps == [] then multiset{} else multiset(OwnLines(files.At(ps[0]))) + LinesOf(files, ps[1..])
  }

  lemma {:induction false} LinesOfAppend<P>(files: Files<P>, a: seq<P>, b: seq<P>)
    ensures LinesOf(files, a + b) == LinesOf(files, a) + LinesOf(files, b)
  {
    if a == [] {
      assert a + b == b;
    } else {
      assert (a + b)[1..] == a[1..] + b;
      LinesOfAppend(files, a[1..], b);
    }
  }

  function Elems<P>(s: seq<P>): set<P> {
    set x | x in s
  }

  lemma {:induction false} ElemsCons<P>(p: P, a: seq<P>, b: seq<P>)
    ensures Elems([p] + a + b) == {p} + Elems(a) + Elems(b)
  {
  }

  lemma {:induction false} NoRepeatCons<P>(p: P, a: seq<P>, b: seq<P>)
    requires NoRepeat(a) && NoRepeat(b) && p !in Elems(a) && p !in Elems(b) && Elems(a) !! Elems(b)
    ensures NoRepeat([p] + a + b)
  {
    assert ([p] + a)[1..] == a;
    forall x | x in [p] + a ensures x !in b {
      assert x == p || x in Elems(a);
    }
    NoRepeatAppend([p] + a, b);
  }

  /** Going into p adds p, what is found in it, and what the rest leads to. */
  lemma {:induction false} StepInto<P>(files: Files<P>, items: seq<Item<P>>, depth: nat, seen: set<P>)
    requires depth <= MAX_INCLUDE_DEPTH && items != [] && !Passed(items[0], depth, seen)
    ensures var p := items[0].to;
            var inner := AuthLines(files, files.At(p), depth + 1, seen + {p});
            var rest := AuthLines(files, items[1..], depth, inner.seen);
            AuthLines(files, items, depth, seen)
              == Walk(inner.found + rest.found, [p] + inner.followed + rest.followed, rest.seen)
  {
  }

  lemma {:induction false} StepPast<P>(files: Files<P>, items: seq<Item<P>>, depth: nat, seen: set<P>)
    requires depth <= MAX_INCLUDE_DEPTH && items != [] && Passed(items[0], depth, seen)
    ensures var w, rest := AuthLines(files, items, depth, seen), AuthLines(files, items[1..], depth, seen);
            w.followed == rest.followed && w.seen == rest.seen
            && multiset(w.found)
               == (if items[0].Own? then multiset{items[0].line} else multiset{}) + multiset(rest.found)
  {
  }

  /** Whatever the graph: each file is followed at most once. */
  lemma {:induction false} WalkOnce<P>(files: Files<P>, items: seq<Item<P>>, depth: nat, seen: set<P>)
    requires depth <= MAX_INCLUDE_DEPTH
    ensures var w := AuthLines(files, items, depth, seen);
            NoRepeat(w.followed) && w.seen == seen + Elems(w.followed) && Elems(w.followed) !! seen
    decreases MAX_INCLUDE_DEPTH - depth, |items|
  {
    if items != [] {
      if Passed(items[0], depth, seen) {
        WalkOnce(files, items[1..], depth, seen);
      } else {
        var p := items[0].to;
        WalkOnce(files, files.At(p), depth + 1, seen + {p});
        var inner := AuthLines(files, files.At(p), depth + 1, seen + {p});
        WalkOnce(files, items[1..], depth, inner.seen);
        var rest := AuthLines(files, items[1..], depth, inner.seen);
        StepInto(files, items, depth, seen);
        OnceInto(p, inner, rest, seen);
      }
    }
  }

  lemma {:induction false} OnceInto<P>(p: P, inner: Walk<P>, rest: Walk<P>, seen: set<P>)
    requires p !in seen
    requires NoRepeat(inner.followed) && inner.seen == seen + {p} + Elems(inner.followed)
             && Elems(inner.followed) !! (seen + {p})
    requires NoRepeat(rest.followed) && rest.seen == inner.seen + Elems(rest.followed)
             && Elems(rest.followed) !! inner.seen
    ensures var followed := [p] + inner.followed + rest.followed;
            NoRepeat(followed) && rest.seen == seen + Elems(followed) && Elems(followed) !! seen
  {
    ElemsCons(p, inner.followed, rest.followed);
    NoRepeatCons(p, inner.followed, rest.followed);
  }

  /** The lines of a walk are the items' own auth lines and those of the files followed. */
  ghost predicate Finds<P>(files: Files<P>, items: seq<Item<P>>, w: Walk<P>) {
    forall line :: multiset(w.found)[line] == multiset(OwnLines(items))[line] + LinesOf(files, w.followed)[line]
  }

  /** And it finds them. */
  lemma {:induction false} WalkFinds<P>(files: Files<P>, items: seq<Item<P>>, depth: nat, seen: set<P>)
    returns (w: Walk<P>)
    requires depth <= MAX_INCLUDE_DEPTH
    ensures w == AuthLines(files, items, depth, seen) && Finds(files, items, w)
    decreases MAX_INCLUDE_DEPTH - depth, |items|, 1
  {
    w := AuthLines(files, items, depth, seen);
    if items == [] {
      FindsNothing(files, items, seen);
    } else if Passed(items[0], depth, seen) {
      var rest := WalkFinds(files, items[1..], depth, seen);
      StepPast(files, items, depth, seen);
      FindsPast(files, items, rest, w);
    } else {
      w := WalkFindsInto(files, items, depth, seen);
    }
  }

  lemma {:induction false} FindsNothing<P>(files: Files<P>, items: seq<Item<P>>, seen: set<P>)
    requires items == []
    ensures Finds(files, items, Walk([], [], seen))
  {
  }

  lemma {:induction false} WalkFindsInto<P>(files: Files<P>, items: seq<Item<P>>, depth: nat, seen: set<P>)
    returns (w: Walk<P>)
    requires depth <= MAX_INCLUDE_DEPTH && items != [] && !Passed(items[0], depth, seen)
    ensures w == AuthLines(files, items, depth, seen) && Finds(files, items, w)
    decreases MAX_INCLUDE_DEPTH - depth, |items|, 0
  {
    var p := items[0].to;
    var inner := WalkFinds(files, files.At(p), depth + 1, seen + {p});
    var rest := WalkFinds(files, items[1..], depth, inner.seen);
    w := Walk(inner.found + rest.found, [p] + inner.followed + rest.followed, rest.seen);
    FindsBehind(files, items, inner, rest, w);
    StepInto(files, items, depth, seen);
  }

  lemma {:induction false} FindsPast<P>(files: Files<P>, items: seq<Item<P>>, rest: Walk<P>, w: Walk<P>)
    requires items != [] && Finds(files, items[1..], rest) && w.followed == rest.followed
    requires multiset(w.found) == (if items[0].Own? then multiset{items[0].line} else multiset{}) + multiset(rest.found)
    ensures Finds(files, items, w)
  {
    OwnLinesCons(items);
  }

  lemma {:induction false} FindsBehind<P>(files: Files<P>, items: seq<Item<P>>, inner: Walk<P>, rest: Walk<P>,
                                          w: Walk<P>)
    requires items != [] && items[0].Lead? && Finds(files, files.At(items[0].to), inner)
             && Finds(files, items[1..], rest)
    requires w == Walk(inner.found + rest.found, [items[0].to] + inner.followed + rest.followed, rest.seen)
    ensures Finds(files, items, w)
  {
    OwnLinesCons(items);
    FindsInto(files, items[0].to, inner, rest, multiset(OwnLines(items[1..])));
  }

  lemma {:induction false} FindsInto<P>(files: Files<P>, p: P, inner: Walk<P>, rest: Walk<P>, own: multiset<string>)
    requires Finds(files, files.At(p), inner)
             && forall line :: multiset(rest.found)[line] == own[line] + LinesOf(files, rest.followed)[line]
    ensures forall line :: multiset(inner.found + rest.found)[line]
                           == own[line] + LinesOf(files, [p] + inner.followed + rest.followed)[line]
  {
    LinesOfCons(files, p, inner.followed, rest.followed);
    assert multiset(inner.found + rest.found) == multiset(inner.found) + multiset(rest.found);
  }

  lemma {:induction false} OwnLinesCons<P>(items: seq<Item<P>>)
    requires items != []
    ensures multiset(OwnLines(items))
            == (if items[0].Own? then multiset{items[0].line} else multiset{}) + multiset(OwnLines(items[1..]))
    ensures !items[0].Own? ==> multiset(OwnLines(items)) == multiset(OwnLines(items[1..]))
  {
    assert !items[0].Own? ==> OwnLines(items) == OwnLines(items[1..]);
  }

  lemma {:induction false} LinesOfCons<P>(files: Files<P>, p: P, a: seq<P>, b: seq<P>)
    ensures LinesOf(files, [p] + a + b) == multiset(OwnLines(files.At(p))) + LinesOf(files, a) + LinesOf(files, b)
  {
    LinesOfAppend(files, [p] + a, b);
    assert ([p] + a)[1..] == a;
  }

  /** Followed from a small closure, the depth limit never bites, so everything
      a met file leads to is met too. */
  lemma {:induction false} WalkReaches<P>(files: Files<P>, items: seq<Item<P>>, depth: nat, seen: set<P>, c: set<P>)
    requires depth <= MAX_INCLUDE_DEPTH && depth <= |seen|
    requires seen <= c && |c| <= MAX_INCLUDE_DEPTH && Covers(items, c) && Closed(files, c)
    ensures var w := AuthLines(files, items, depth, seen);
            seen <= w.seen <= c && Covers(items, w.seen)
            && (forall p :: p in w.seen && p !in seen ==> Covers(files.At(p), w.seen))
    decreases MAX_INCLUDE_DEPTH - depth, |items|
  {
    if items != [] {
      var item := items[0];
      if !item.Lead? || item.to in seen {
        WalkReaches(files, items[1..], depth, seen, c);
        CoversCons(items, AuthLines(files, items, depth, seen).seen);
      } else {
        var p := item.to;
        assert p in c;
        SubsetSize(seen + {p}, c);
        WalkReaches(files, files.At(p), depth + 1, seen + {p}, c);
        var inner := AuthLines(files, files.At(p), depth + 1, seen + {p});
        SubsetSize(seen, inner.seen);
        WalkReaches(files, items[1..], depth, inner.seen, c);
        var rest := AuthLines(files, items[1..], depth, inner.seen);
        CoversCons(items, rest.seen);
        forall q | q in rest.seen && q !in seen ensures Covers(files.At(q), rest.seen) {
          if q in inner.seen {
            assert Covers(files.At(q), inner.seen);
          }
        }
      }
    }
  }

  lemma {:induction false} CoversCons<P>(items: seq<Item<P>>, c: set<P>)
    requires items != [] && Covers(items[1..], c) && (items[0].Lead? ==> items[0].to in c)
    ensures Covers(items, c)
  {
    forall i | 0 <= i < |items| && items[i].Lead? ensures items[i].to in c {
      if i > 0 {
        assert items[1..][i - 1] == items[i];
      }
    }
  }

  lemma {:induction false} SubsetSize<P>(a: set<P>, b: set<P>)
    requires a <= b
    ensures |a| <= |b|
  {
    if a != {} {
      var x :| x in a;
      SubsetSize(a - {x}, b - {x});
    }
  }

  /** Reached from the lines by following includes. */
  ghost predicate Reached<P(!new)>(files: Files<P>, items: seq<Item<P>>, p: P) {
    forall c: set<P> :: Covers(items, c) && Closed(files, c) ==> p in c
  }

  /** With at most eight files to follow, on any graph, cyclic ones too: the walk
      follows exactly the reachable files, each once, and finds exactly their
      auth lines and the text's own. */
  lemma {:induction false} WalkIsExact<P(!new)>(files: Files<P>, items: seq<Item<P>>, c: set<P>)
    requires Covers(items, c) && Closed(files, c) && |c| <= MAX_INCLUDE_DEPTH
    ensures var w := AuthLines(files, items, 0, {});
            NoRepeat(w.followed) && (forall p :: p in w.followed <==> Reached(files, items, p))
            && multiset(w.found) == multiset(OwnLines(items)) + LinesOf(files, w.followed)
  {
    var w := AuthLines(files, items, 0, {});
    WalkOnce(files, items, 0, {});
    var _ := WalkFinds(files, items, 0, {});
    WalkReaches(files, items, 0, {}, c);
    assert Closed(files, w.seen);
    assert forall p :: p in w.followed <==> p in Elems(w.followed);
    forall p | p in w.followed ensures Reached(files, items, p) {
      forall d: set<P> | Covers(items, d) && Closed(files, d) ensures p in d {
        WalkStaysIn(files, items, 0, {}, d);
      }
    }
  }

  lemma {:induction false} WalkStaysIn<P>(files: Files<P>, items: seq<Item<P>>, depth: nat, seen: set<P>, c: set<P>)
    requires depth <= MAX_INCLUDE_DEPTH && seen <= c && Covers(items, c) && Closed(files, c)
    ensures AuthLines(files, items, depth, seen).seen <= c
    decreases MAX_INCLUDE_DEPTH - depth, |items|
  {
    if items != [] {
      assert Covers(items[1..], c);
      if Passed(items[0], depth, seen) {
        WalkStaysIn(files, items[1..], depth, seen, c);
      } else {
        var p := items[0].to;
        assert p in c;
        WalkStaysIn(files, files.At(p), depth + 1, seen + {p}, c);
        var inner := AuthLines(files, files.At(p), depth + 1, seen + {p});
        WalkStaysIn(files, items[1..], depth, inner.seen, c);
      }
    }
  }

  lemma {:induction false} LineOfFollowed<P>(files: Files<P>, ps: seq<P>, line: string)
    ensures line in LinesOf(files, ps) <==> exists p :: p in ps && line in OwnLines(files.At(p))
  {
    if ps != [] {
      LineOfFollowed(files, ps[1..], line);
      FirstOrRest(ps);
    }
  }

  lemma {:induction false} FirstOrRest<P>(ps: seq<P>)
    requires ps != []
    ensures forall p :: p in ps <==> p == ps[0] || p in ps[1..]
  {
    assert ps == [ps[0]] + ps[1..];
  }

  /** Lines of a text or of a file it reaches. */
  ghost predicate InClosure<P(!new)>(files: Files<P>, items: seq<Item<P>>, line: string) {
    line in OwnLines(items) || exists p :: Reached(files, items, p) && line in OwnLines(files.At(p))
  }

  /** So the gates written into a block are exactly the checks of the whole
      closure, normalised and without duplicates. */
  lemma {:induction false} GatesAreExact<P(!new)>(files: Files<P>, items: seq<Item<P>>, c: set<P>)
    requires Covers(items, c) && Closed(files, c) && |c| <= MAX_INCLUDE_DEPTH
    ensures var gates := GatesOf(AuthLines(files, items, 0, {}).found);
            (forall g :: g in gates <==> exists line :: InClosure(files, items, line) && IsCheck(Words(line))
                                                        && GateLine(line) == Some(g))
            && (forall i, j :: 0 <= i < j < |gates| ==> gates[i] != gates[j])
            && (forall g :: g in gates ==> GateLine(g) == Some(g))
  {
    var w := AuthLines(files, items, 0, {});
    var gates := GatesOf(w.found);
    WalkIsExact(files, items, c);
    GatesOfIsExact(w.found);
    forall line ensures line in w.found <==> InClosure(files, items, line) {
      LineOfFollowed(files, w.followed, line);
      assert line in w.found <==> line in multiset(w.found);
      assert line in OwnLines(items) <==> line in multiset(OwnLines(items));
    }
    forall g
      ensures g in gates <==> exists line :: line in w.found && IsCheck(Words(line)) && GateLine(line) == Some(g)
    {
      if g in gates {
        var i :| 0 <= i < |w.found| && IsCheck(Words(w.found[i])) && GateLine(w.found[i]) == Some(g);
        assert w.found[i] in w.found;
      }
    }
    forall g | g in gates ensures GateLine(g) == Some(g) {
      var i :| 0 <= i < |w.found| && IsCheck(Words(w.found[i])) && GateLine(w.found[i]) == Some(g);
      GateLineIsNormal(w.found[i]);
    }
  }

  /** Two sets of files that agree on a closed part are walked alike from inside it. */
  lemma {:induction false} SameWalk<P>(files: Files<P>, other: Files<P>, items: seq<Item<P>>, depth: nat, seen: set<P>,
                                       c: set<P>)
    requires depth <= MAX_INCLUDE_DEPTH && Covers(items, c) && Closed(files, c)
    requires forall p :: p in c ==> files.At(p) == other.At(p)
    ensures AuthLines(files, items, depth, seen) == AuthLines(other, items, depth, seen)
    decreases MAX_INCLUDE_DEPTH - depth, |items|
  {
    if items != [] {
      assert Covers(items[1..], c);
      if Passed(items[0], depth, seen) {
        SameWalk(files, other, items[1..], depth, seen, c);
      } else {
        var p := items[0].to;
        assert p in c;
        SameWalk(files, other, files.At(p), depth + 1, seen + {p}, c);
        var inner := AuthLines(files, files.At(p), depth + 1, seen + {p});
        SameWalk(files, other, items[1..], depth, inner.seen, c);
      }
    }
  }

  // ------------------------------------------------------------- the limit

  lemma {:induction false} ChainFrom(files: Files<nat>, k: nat, depth: nat, seen: set<nat>, n: nat)
    requires depth <= 8 && (forall i: nat :: i < n ==> files.At(i) == [Lead(i + 1)])
             && (forall i :: i in seen ==> i < k)
    requires k + 8 - depth <= n
    ensures var w := AuthLines(files, [Lead(k)], depth, seen);
            |w.followed| == 8 - depth && forall i :: 0 <= i < 8 - depth ==> w.followed[i] == k + i
    decreases 8 - depth
  {
    var items: seq<Item<nat>> := [Lead(k)];
    assert items[1..] == [];
    if depth < 8 {
      ChainFrom(files, k + 1, depth + 1, seen + {k}, n);
      var inner := AuthLines(files, files.At(k), depth + 1, seen + {k});
      var w := AuthLines(files, items, depth, seen);
      assert w.followed == [k] + inner.followed + [];
    }
  }

  /** Of a chain of includes exactly the first eight are followed. */
  lemma {:induction false} ChainIsCut(files: Files<nat>)
    requires forall i: nat :: i < 9 ==> files.At(i) == [Lead(i + 1)]
    ensures AuthLines(files, [Lead(0)], 0, {}).followed == [0, 1, 2, 3, 4, 5, 6, 7]
  {
    ChainFrom(files, 0, 0, {}, 9);
  }
}
