/** The passkey store of one user: its operations on the credential list, and
    the object that reloads, changes and atomically replaces the file. */
module CredentialStore {
  import opened Sequences
  import opened Outcomes

  type Id = string

  datatype Credential = Credential(id: Id, rp: string, handle: string, userName: string, displayName: string,
                                   keyRef: string, count: nat, resident: bool, created: real)

  predicate SameAccount(a: Credential, b: Credential) {
    a.rp == b.rp && a.handle == b.handle
  }

  // ------------------------------------------------------------ on the list

  function WithoutAccount(cs: seq<Credential>, c: Credential): seq<Credential> {
    if cs == [] then [] else (if SameAccount(cs[0], c) then [] else [cs[0]]) + WithoutAccount(cs[1..], c)
  }

  function Added(cs: seq<Credential>, c: Credential): seq<Credential> {
    WithoutAccount(cs, c) + [c]
  }

  function WithoutId(cs: seq<Credential>, id: Id): seq<Credential> {
    if cs == [] then [] else (if cs[0].id == id then [] else [cs[0]]) + WithoutId(cs[1..], id)
  }

  /** find_by_id, as an index. */
  function IndexOf(cs: seq<Credential>, id: Id): (r: Option<nat>)
    ensures r.Some? ==> r.value < |cs| && cs[r.value].id == id
  {
    if cs == [] then None
    else if cs[0].id == id then Some(0)
    else
      var r := IndexOf(cs[1..], id);
      if r.None? then None else Some(r.value + 1)
  }

  lemma {:induction false} NotFound(cs: seq<Credential>, id: Id)
    ensures IndexOf(cs, id).None? <==> forall i :: 0 <= i < |cs| ==> cs[i].id != id
  {
    if cs != [] {
      NotFound(cs[1..], id);
      assert cs == [cs[0]] + cs[1..];
    }
  }

  function CountOf(cs: seq<Credential>, id: Id): Option<nat> {
    var i := IndexOf(cs, id);
    if i.Some? then Some(cs[i.value].count) else None
  }

  function Incremented(cs: seq<Credential>, id: Id): seq<Credential> {
    var i := IndexOf(cs, id);
    if i.None? then cs else cs[i.value := cs[i.value].(count := cs[i.value].count + 1)]
  }

  // --------------------------------------------------------- what lists keep

  /** Distinct ids, and one credential for each relying party and user handle. */
  predicate Good(cs: seq<Credential>) {
    forall i, j :: 0 <= i < j < |cs| ==> cs[i].id != cs[j].id && !SameAccount(cs[i], cs[j])
  }

  /** The first credential differs from all others, and the others are as good. */
  lemma {:induction false} GoodTail(cs: seq<Credential>)
    requires cs != [] && Good(cs)
    ensures Good(cs[1..]) && forall x :: x in cs[1..] ==> x.id != cs[0].id && !SameAccount(cs[0], x)
  {
    forall x | x in cs[1..] ensures x.id != cs[0].id && !SameAccount(cs[0], x) {
      var k :| 0 <= k < |cs[1..]| && cs[1..][k] == x;
      assert cs[k + 1] == x;
    }
  }

  lemma {:induction false} GoodCons(c: Credential, cs: seq<Credential>)
    requires Good(cs) && forall x :: x in cs ==> x.id != c.id && !SameAccount(c, x)
    ensures Good([c] + cs)
  {
  }

  /** Leaving out an account keeps the rest, and only the rest. */
  lemma {:induction false} WithoutAccountKeeps(cs: seq<Credential>, c: Credential)
    requires Good(cs)
    ensures var rest := WithoutAccount(cs, c);
            Good(rest) && (forall x :: x in rest <==> x in cs && !(x.rp == c.rp && x.handle == c.handle))
  {
    if cs != [] {
      GoodTail(cs);
      WithoutAccountKeeps(cs[1..], c);
      First(cs);
      var rest := WithoutAccount(cs[1..], c);
      if SameAccount(cs[0], c) {
        assert [] + rest == rest;
      } else {
        GoodCons(cs[0], rest);
      }
    }
  }

  lemma {:induction false} WithoutIdKeeps(cs: seq<Credential>, id: Id)
    requires Good(cs)
    ensures var rest := WithoutId(cs, id);
            Good(rest) && (forall x :: x in rest <==> x in cs && x.id != id)
  {
    if cs != [] {
      GoodTail(cs);
      WithoutIdKeeps(cs[1..], id);
      First(cs);
      var rest := WithoutId(cs[1..], id);
      if cs[0].id == id {
        assert [] + rest == rest;
      } else {
        GoodCons(cs[0], rest);
      }
    }
  }

  /** Adding a credential with a fresh id: its account is now its alone. */
  lemma {:induction false} AddedKeeps(cs: seq<Credential>, c: Credential)
    requires Good(cs) && IndexOf(cs, c.id).None?
    ensures Good(Added(cs, c))
    ensures forall x :: x in Added(cs, c) <==> x == c || (x in cs && !(x.rp == c.rp && x.handle == c.handle))
    ensures CountOf(Added(cs, c), c.id) == Some(c.count)
    ensures forall id :: id != c.id && CountOf(Added(cs, c), id).Some? ==> CountOf(cs, id) == CountOf(Added(cs, c), id)
  {
    WithoutAccountKeeps(cs, c);
    var rest := WithoutAccount(cs, c);
    NotFound(cs, c.id);
    forall i | 0 <= i < |rest| ensures rest[i].id != c.id && !SameAccount(rest[i], c) {
      assert rest[i] in rest;
    }
    CountIsHeld(Added(cs, c), |rest|);
    forall id | id != c.id && CountOf(Added(cs, c), id).Some? ensures CountOf(cs, id) == CountOf(Added(cs, c), id) {
      var i := IndexOf(Added(cs, c), id).value;
      assert rest[i] in rest;
      var k :| 0 <= k < |cs| && cs[k] == rest[i];
      CountIsHeld(cs, k);
    }
  }

  lemma {:induction false} CountIsHeld(cs: seq<Credential>, i: nat)
    requires Good(cs) && i < |cs|
    ensures CountOf(cs, cs[i].id) == Some(cs[i].count)
  {
    NotFound(cs, cs[i].id);
  }

  lemma {:induction false} IncrementedKeeps(cs: seq<Credential>, id: Id)
    requires Good(cs) && CountOf(cs, id).Some?
    ensures Good(Incremented(cs, id)) && |Incremented(cs, id)| == |cs|
    ensures CountOf(Incremented(cs, id), id) == Some(CountOf(cs, id).value + 1)
    ensures forall other :: other != id ==> CountOf(Incremented(cs, id), other) == CountOf(cs, other)
  {
    var i, next := IndexOf(cs, id).value, Incremented(cs, id);
    assert forall k :: 0 <= k < |cs|
                       ==> next[k].id == cs[k].id && next[k].rp == cs[k].rp && next[k].handle == cs[k].handle;
    CountIsHeld(next, i);
    forall other | other != id ensures CountOf(next, other) == CountOf(cs, other) {
      var k := IndexOf(cs, other);
      NotFound(cs, other);
      NotFound(next, other);
      if k.Some? {
        CountIsHeld(next, k.value);
      }
    }
  }

  lemma {:induction false} RemovedKeeps(cs: seq<Credential>, id: Id)
    requires Good(cs)
    ensures Good(WithoutId(cs, id)) && CountOf(WithoutId(cs, id), id).None?
    ensures forall other :: other != id ==> CountOf(WithoutId(cs, id), other) == CountOf(cs, other)
  {
    WithoutIdKeeps(cs, id);
    var rest := WithoutId(cs, id);
    NotFound(rest, id);
    forall other | other != id ensures CountOf(rest, other) == CountOf(cs, other) {
      var k := IndexOf(cs, other);
      NotFound(cs, other);
      NotFound(rest, other);
      if k.Some? {
        assert cs[k.value] in rest;
        var i :| 0 <= i < |rest| && rest[i] == cs[k.value];
        CountIsHeld(rest, i);
      } else {
        assert forall i :: 0 <= i < |rest| ==> rest[i].id != other;
      }
    }
  }

  // ------------------------------------------------------------ newest first

  function Matching(cs: seq<Credential>, rp: string, allowed: Option<set<Id>>): seq<Credential> {
    if cs == [] then []
    else
      var fits := cs[0].rp == rp && if allowed.Some? then cs[0].id in allowed.value else cs[0].resident;
      (if fits then [cs[0]] else []) + Matching(cs[1..], rp, allowed)
  }

  function InsertNewest(c: Credential, sorted: seq<Credential>): seq<Credential> {
    if sorted == [] || sorted[0].created <= c.created then [c] + sorted else [sorted[0]] + InsertNewest(c, sorted[1..])
  }

  /** sorted(..., key=created_at, reverse=True), which is stable. */
  function NewestFirst(cs: seq<Credential>): seq<Credential> {
    if cs == [] then [] else InsertNewest(cs[0], NewestFirst(cs[1..]))
  }

  /** find_for_rp */
  function FindForRp(cs: seq<Credential>, rp: string, allowed: Option<set<Id>>): seq<Credential> {
    NewestFirst(Matching(cs, rp, allowed))
  }

  predicate Descending(cs: seq<Credential>) {
    forall i, j :: 0 <= i < j < |cs| ==> cs[i].created >= cs[j].created
  }

  /** The credentials made at one moment. */
  function MadeAt(cs: seq<Credential>, t: real): seq<Credential> {
    if cs == [] then [] else (if cs[0].created == t then [cs[0]] else []) + MadeAt(cs[1..], t)
  }

  lemma {:induction false} InsertedMembers(c: Credential, cs: seq<Credential>)
    ensures multiset(InsertNewest(c, cs)) == multiset([c]) + multiset(cs)
  {
    if cs != [] && cs[0].created > c.created {
      InsertedMembers(c, cs[1..]);
      assert cs == [cs[0]] + cs[1..];
    }
  }

  lemma {:induction false} InsertedDescends(c: Credential, cs: seq<Credential>)
    requires Descending(cs)
    ensures Descending(InsertNewest(c, cs))
  {
    if cs != [] && cs[0].created > c.created {
      var rest := InsertNewest(c, cs[1..]);
      assert Descending(cs[1..]);
      InsertedDescends(c, cs[1..]);
      InsertedMembers(c, cs[1..]);
      forall j | 0 <= j < |rest| ensures cs[0].created >= rest[j].created {
        assert rest[j] in multiset(rest);
        assert rest[j] == c || rest[j] in cs[1..];
      }
    }
  }

  lemma {:induction false} InsertedIsStable(c: Credential, cs: seq<Credential>, t: real)
    ensures MadeAt(InsertNewest(c, cs), t) == (if c.created == t then [c] else []) + MadeAt(cs, t)
  {
    if cs == [] || cs[0].created <= c.created {
      assert ([c] + cs)[1..] == cs;
    } else {
      var rest := InsertNewest(c, cs[1..]);
      InsertedIsStable(c, cs[1..], t);
      assert ([cs[0]] + rest)[1..] == rest;
      var mine: seq<Credential> := if c.created == t then [c] else [];
      var first: seq<Credential> := if cs[0].created == t then [cs[0]] else [];
      assert mine == [] || first == [];
      assert first + (mine + MadeAt(cs[1..], t)) == mine + (first + MadeAt(cs[1..], t)) by {
        Associate(first, mine, MadeAt(cs[1..], t));
        Associate(mine, first, MadeAt(cs[1..], t));
        assert first + mine == mine + first;
      }
    }
  }

  /** Newest first, nothing lost or made up, and equally old ones in their order. */
  lemma {:induction false} NewestFirstIsStableSort(cs: seq<Credential>, t: real)
    ensures Descending(NewestFirst(cs))
    ensures multiset(NewestFirst(cs)) == multiset(cs)
    ensures MadeAt(NewestFirst(cs), t) == MadeAt(cs, t)
  {
    if cs != [] {
      NewestFirstIsStableSort(cs[1..], t);
      InsertedMembers(cs[0], NewestFirst(cs[1..]));
      InsertedDescends(cs[0], NewestFirst(cs[1..]));
      InsertedIsStable(cs[0], NewestFirst(cs[1..]), t);
      assert cs == [cs[0]] + cs[1..];
    }
  }

  // ------------------------------------------------------------- the object

  /** The file: missing, or the list it holds. */
  class StoreFile {
    var content: Option<seq<Credential>>

    constructor (content: Option<seq<Credential>>)
      ensures this.content == content
    {
      this.content := content;
    }

    function Listed(): seq<Credential>
      reads this
    {
      if content.Some? then content.value else []
    }
  }

  class Store {
    const file: StoreFile
    var credentials: seq<Credential>

    constructor (file: StoreFile)
      ensures this.file == file && credentials == file.Listed()
    {
      this.file := file;
      this.credentials := file.Listed();
    }

    /** load */
    method Load()
      modifies this
      ensures credentials == file.Listed()
    {
      credentials := file.Listed();
    }

    /** _save, saves: whether the rename happens; if not, the file stays. */
    method Save(saves: bool)
      modifies file
      ensures file.content == if saves then Some(credentials) else old(file.content)
    {
      if saves {
        file.content := Some(credentials);
      }
    }

    /** add, under the lock */
    method Add(c: Credential, saves: bool) returns (ok: bool)
      modifies this, file
      ensures ok == saves && credentials == Added(old(file.Listed()), c)
      ensures file.content == if ok then Some(credentials) else old(file.content)
    {
      Load();
      var kept := OtherAccounts(c);
      credentials := kept + [c];
      Save(saves);
      ok := saves;
    }

    /** The comprehension of add. */
    method OtherAccounts(c: Credential) returns (kept: seq<Credential>)
      ensures kept == WithoutAccount(credentials, c)
    {
      var all := credentials;
      kept := [];
      var i := 0;
      while i < |all|
        invariant 0 <= i <= |all| && WithoutAccount(all, c) == kept + WithoutAccount(all[i..], c)
      {
        Rest(all, i);
        if !SameAccount(all[i], c) {
          Associate(kept, [all[i]], WithoutAccount(all[i + 1..], c));
          kept := kept + [all[i]];
        } else {
          assert [] + WithoutAccount(all[i + 1..], c) == WithoutAccount(all[i + 1..], c);
        }
        i := i + 1;
      }
      assert all[i..] == [] && kept + [] == kept;
    }

    /** increment_counter, under the lock: the new count once it is on disk. */
    method IncrementCounter(id: Id, saves: bool) returns (r: Result<nat>)
      modifies this, file
      ensures r.Done? <==> saves && CountOf(old(file.Listed()), id).Some?
      ensures r.Done? ==> r.value == CountOf(old(file.Listed()), id).value + 1 && file.content == Some(credentials)
      ensures r.Refused? ==> file.content == old(file.content)
      ensures credentials == Incremented(old(file.Listed()), id)
    {
      Load();
      var i := FindById(id);
      if i.None? {
        return Refused;
      }
      var credential := credentials[i.value];
      credential := credential.(count := credential.count + 1);
      credentials := credentials[i.value := credential];
      Save(saves);
      return if saves then Done(credential.count) else Refused;
    }

    method FindById(id: Id) returns (r: Option<nat>)
      ensures r == IndexOf(credentials, id)
    {
      var i := 0;
      while i < |credentials|
        invariant 0 <= i <= |credentials|
        invariant IndexOf(credentials, id)
          == var rest := IndexOf(credentials[i..], id); if rest.None? then None else Some(i + rest.value)
      {
        Rest(credentials, i);
        if credentials[i].id == id {
          return Some(i);
        }
        i := i + 1;
      }
      assert credentials[i..] == [];
      return None;
    }

    /** remove, under the lock */
    method Remove(id: Id, saves: bool) returns (r: Result<bool>)
      modifies this, file
      ensures credentials == WithoutId(old(file.Listed()), id)
      ensures r == Done(false) <==> CountOf(old(file.Listed()), id).None?
      ensures r == Done(true) <==> saves && CountOf(old(file.Listed()), id).Some?
      ensures file.content == if r == Done(true) then Some(credentials) else old(file.content)
    {
      Load();
      var before := |credentials|;
      WithoutIdLength(credentials, id);
      credentials := OtherIds(id);
      if |credentials| == before {
        return Done(false);
      }
      Save(saves);
      return if saves then Done(true) else Refused;
    }

    /** The comprehension of remove. */
    method OtherIds(id: Id) returns (kept: seq<Credential>)
      ensures kept == WithoutId(credentials, id)
    {
      var all := credentials;
      kept := [];
      var i := 0;
      while i < |all|
        invariant 0 <= i <= |all| && WithoutId(all, id) == kept + WithoutId(all[i..], id)
      {
        Rest(all, i);
        if all[i].id != id {
          Associate(kept, [all[i]], WithoutId(all[i + 1..], id));
          kept := kept + [all[i]];
        } else {
          assert [] + WithoutId(all[i + 1..], id) == WithoutId(all[i + 1..], id);
        }
        i := i + 1;
      }
      assert all[i..] == [] && kept + [] == kept;
    }
  }

  lemma {:induction false} WithoutIdLength(cs: seq<Credential>, id: Id)
    ensures |WithoutId(cs, id)| == |cs| <==> IndexOf(cs, id).None?
    ensures |WithoutId(cs, id)| <= |cs|
  {
    if cs != [] {
      WithoutIdLength(cs[1..], id);
    }
  }
}
