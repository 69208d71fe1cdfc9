/** The server's reconciliation diff, `SyncServer.compare_client_files_with_local`:
    two inventories in, three action lists out (files to fetch from the
    client, server files to delete, and server files to copy under a new
    name). The lists are specified by recursive functions over a growing
    prefix of the input, which is how the source's loops build them, and
    `Compare` is the loop itself, proved equal to them. */
module Reconcile {
  import opened Common
  import opened Inventory

  /** A copy-and-rename instruction `[server name, client name]`. */
  datatype Pair = Pair(existing: string, created: string)

  datatype Actions = Actions(get: seq<Entry>, delete: seq<Entry>, duplicate: seq<Pair>)

  /** What the first pass decides for one client entry. */
  datatype Verdict =
    | Unchanged             // first server entry with that name has the same hash
    | Modified(stale: Entry) // it has another hash: delete it and fetch
    | Copied(source: string) // no such name, but a server file has this hash
    | Missing               // neither name nor hash on the server: fetch

  /** The first-pass classification of client entry `c` against `server`:
      the first server entry with the same name decides; failing that, the
      first server entry with the same hash. */
  function Classify(server: Inv, c: Entry): Verdict {
    match FirstNamed(server, c.name)
    case Some(i) =>
      if server[i].hash == c.hash then Unchanged else Modified(server[i])
    case None =>
      match FirstHashed(server, c.hash)
      case Some(j) => Copied(server[j].name)
      case None => Missing
  }

  /** What each verdict means, in terms of the first-match scans. */
  lemma ClassifyMeaning(server: Inv, c: Entry)
    ensures var v := Classify(server, c);
      && (v == Unchanged <==> exists i :: IsFirstNamed(server, c.name, i) && server[i].hash == c.hash)
      && (v.Modified? <==> exists i :: IsFirstNamed(server, c.name, i) && server[i].hash != c.hash)
      && (v.Modified? ==> exists i :: IsFirstNamed(server, c.name, i) && v.stale == server[i])
      && (v.Copied? <==> !HasName(server, c.name) && HasHash(server, c.hash))
      && (v.Copied? ==> exists j :: IsFirstHashed(server, c.hash, j) && v.source == server[j].name)
      && (v == Missing <==> !HasName(server, c.name) && !HasHash(server, c.hash))
  {
    match FirstNamed(server, c.name)
    case Some(i) =>
      forall k | IsFirstNamed(server, c.name, k) ensures k == i {
        FirstNamedUnique(server, c.name, i, k);
      }
    case None =>
      match FirstHashed(server, c.hash)
      case Some(j) =>
      case None =>
  }

  predicate NeedsFetch(v: Verdict) {
    v.Modified? || v == Missing
  }

  /** `files_to_get`: client entries whose verdict is Modified or Missing, in
      client order. */
  function Fetches(server: Inv, client: Inv): seq<Entry>
    decreases |client|
  {
    if client == [] then []
    else
      var c := client[|client| - 1];
      Fetches(server, client[..|client| - 1]) + (if NeedsFetch(Classify(server, c)) then [c] else [])
  }

  /** First-pass part of `files_to_delete`: the stale server entries of the
      Modified verdicts, in client order. */
  function Stale(server: Inv, client: Inv): seq<Entry>
    decreases |client|
  {
    if client == [] then []
    else
      var v := Classify(server, client[|client| - 1]);
      Stale(server, client[..|client| - 1]) + (if v.Modified? then [v.stale] else [])
  }

  /** `files_to_duplicate`: one pair per Copied verdict, in client order. */
  function Copies(server: Inv, client: Inv): seq<Pair>
    decreases |client|
  {
    if client == [] then []
    else
      var c := client[|client| - 1];
      var v := Classify(server, c);
      Copies(server, client[..|client| - 1]) + (if v.Copied? then [Pair(v.source, c.name)] else [])
  }

  /** Second-pass part of `files_to_delete`: server entries whose name no
      client entry has, in server order. */
  function Orphans(server: Inv, client: Inv): seq<Entry>
    decreases |server|
  {
    if server == [] then []
    else
      var s := server[|server| - 1];
      Orphans(server[..|server| - 1], client) + (if HasName(client, s.name) then [] else [s])
  }

  /** The three lists `compare_client_files_with_local` hands to `update`. */
  function Diff(server: Inv, client: Inv): Actions {
    Actions(Fetches(server, client), Stale(server, client) + Orphans(server, client), Copies(server, client))
  }

  /** A client entry is fetched exactly when its verdict is Modified or
      Missing. */
  lemma {:induction false} FetchesMembers(server: Inv, client: Inv, e: Entry)
    ensures e in Fetches(server, client) <==> e in client && NeedsFetch(Classify(server, e))
    decreases |client|
  {
    if client != [] {
      var n := |client| - 1;
      FetchesMembers(server, client[..n], e);
      assert e in client <==> e in client[..n] || e == client[n] by {
        assert client == client[..n] + [client[n]];
      }
    }
  }

  /** The fetch list never names a file twice when the client list does not. */
  lemma {:induction false} FetchesDistinct(server: Inv, client: Inv)
    requires DistinctNames(client)
    ensures DistinctNames(Fetches(server, client))
    decreases |client|
  {
    if client != [] {
      var n := |client| - 1;
      var init := client[..n];
      FetchesDistinct(server, init);
      var r0 := Fetches(server, init);
      var r := Fetches(server, client);
      forall i | 0 <= i < |r0| ensures r0[i].name != client[n].name {
        assert r0[i] in r0;
        FetchesMembers(server, init, r0[i]);
        var k :| 0 <= k < n && init[k] == r0[i];
        assert client[k] == r0[i];
      }
      forall i, j | 0 <= i < j < |r| ensures r[i].name != r[j].name {
        assert r[i] == r0[i];
        if j < |r0| {
          assert r[j] == r0[j];
        }
      }
    }
  }

  /** A server entry is deleted by the first pass exactly when it is the
      stale entry of some client entry's Modified verdict. */
  lemma {:induction false} StaleMembers(server: Inv, client: Inv, e: Entry)
    ensures e in Stale(server, client) <==> exists c :: c in client && Classify(server, c) == Modified(e)
    decreases |client|
  {
    if client != [] {
      var n := |client| - 1;
      StaleMembers(server, client[..n], e);
      assert forall c :: c in client <==> c in client[..n] || c == client[n] by {
        assert client == client[..n] + [client[n]];
      }
    }
  }

  /** A copy instruction exists exactly for each client entry whose verdict
      is Copied, from that verdict's source to the entry's name. */
  lemma {:induction false} CopiesMembers(server: Inv, client: Inv, p: Pair)
    ensures p in Copies(server, client) <==>
      exists c :: c in client && Classify(server, c) == Copied(p.existing) && p.created == c.name
    decreases |client|
  {
    if client != [] {
      var n := |client| - 1;
      CopiesMembers(server, client[..n], p);
      assert forall c :: c in client <==> c in client[..n] || c == client[n] by {
        assert client == client[..n] + [client[n]];
      }
    }
  }

  /** The second pass deletes exactly the server entries whose name no
      client entry has: never one whose name the client lists. */
  lemma {:induction false} OrphansMembers(server: Inv, client: Inv, e: Entry)
    ensures e in Orphans(server, client) <==> e in server && !HasName(client, e.name)
    decreases |server|
  {
    if server != [] {
      var n := |server| - 1;
      OrphansMembers(server[..n], client, e);
      assert e in server <==> e in server[..n] || e == server[n] by {
        assert server == server[..n] + [server[n]];
      }
    }
  }

  /** One more client entry extends each first-pass list by that entry's
      contribution. */
  lemma ExtendFirstPass(server: Inv, client: Inv, i: nat)
    requires i < |client|
    ensures var c, v := client[i], Classify(server, client[i]);
      && Fetches(server, client[..i + 1]) == Fetches(server, client[..i]) + (if NeedsFetch(v) then [c] else [])
      && Stale(server, client[..i + 1]) == Stale(server, client[..i]) + (if v.Modified? then [v.stale] else [])
      && Copies(server, client[..i + 1]) == Copies(server, client[..i]) + (if v.Copied? then [Pair(v.source, c.name)] else [])
  {
    assert client[..i + 1][..i] == client[..i];
  }

  /** The source's inner `for server_file in ...: if ... : found = True; break`
      scan over names. */
  method ScanName(server: Inv, n: string) returns (found: bool, j: nat)
    ensures found <==> HasName(server, n)
    ensures found ==> IsFirstNamed(server, n, j)
  {
    found := false;
    j := 0;
    while j < |server|
      invariant 0 <= j <= |server|
      invariant forall k :: 0 <= k < j ==> server[k].name != n
    {
      if server[j].name == n {
        found := true;
        return;
      }
      j := j + 1;
    }
  }

  /** The fallback scan over hashes. */
  method ScanHash(server: Inv, h: string) returns (found: bool, j: nat)
    ensures found <==> HasHash(server, h)
    ensures found ==> IsFirstHashed(server, h, j)
  {
    found := false;
    j := 0;
    while j < |server|
      invariant 0 <= j <= |server|
      invariant forall k :: 0 <= k < j ==> server[k].hash != h
    {
      if server[j].hash == h {
        found := true;
        return;
      }
      j := j + 1;
    }
  }

  /** The source's nested first-match loops with their `found` flag. */
  method Compare(server: Inv, client: Inv) returns (get: seq<Entry>, delete: seq<Entry>, duplicate: seq<Pair>)
    ensures Actions(get, delete, duplicate) == Diff(server, client)
  {
    get, delete, duplicate := [], [], [];
    var i := 0;
    while i < |client|
      invariant 0 <= i <= |client|
      invariant get == Fetches(server, client[..i])
      invariant delete == Stale(server, client[..i])
      invariant duplicate == Copies(server, client[..i])
    {
      var c := client[i];
      ExtendFirstPass(server, client, i);
      var found, j := ScanName(server, c.name);
      if found {
        FirstNamedUnique(server, c.name, j, FirstNamed(server, c.name).value);
        if c.hash != server[j].hash {
          delete := delete + [server[j]];
          get := get + [c];
        }
      } else {
        found, j := ScanHash(server, c.hash);
        if found {
          FirstHashedUnique(server, c.hash, j, FirstHashed(server, c.hash).value);
          duplicate := duplicate + [Pair(server[j].name, c.name)];
        } else {
          get := get + [c];
        }
      }
      i := i + 1;
    }
    assert client[..i] == client;
    var orphans := OrphanPass(server, client);
    delete := delete + orphans;
  }

  /** The second pass: every server entry whose name no client entry has. */
  method OrphanPass(server: Inv, client: Inv) returns (delete: seq<Entry>)
    ensures delete == Orphans(server, client)
  {
    delete := [];
    var i := 0;
    while i < |server|
      invariant 0 <= i <= |server|
      invariant delete == Orphans(server[..i], client)
    {
      var s := server[i];
      var found := false;
      var j := 0;
      while j < |client|
        invariant 0 <= j <= |client|
        invariant forall k :: 0 <= k < j ==> client[k].name != s.name
        invariant !found
      {
        if client[j].name == s.name {
          found := true;
          break;
        }
        j := j + 1;
      }
      if !found {
        delete := delete + [s];
      }
      assert server[..i + 1][..i] == server[..i];
      i := i + 1;
    }
    assert server[..i] == server;
  }

  // ---------------------------------------------------------------------
  // Properties of the diff

  /** Diffing a tree against itself asks for nothing, provided no basename
      occurs twice in it. */
  lemma SelfDiffEmpty(x: Inv)
    requires DistinctNames(x)
    ensures Diff(x, x) == Actions([], [], [])
  {
    forall c | c in x
      ensures Classify(x, c) == Unchanged
    {
      var k :| 0 <= k < |x| && x[k] == c;
      assert IsFirstNamed(x, c.name, k);
    }
    forall e | e in x
      ensures HasName(x, e.name)
    {
      var k :| 0 <= k < |x| && x[k] == e;
    }
    FirstPassQuiet(x, x);
    NoOrphans(x, x);
  }

  /** A client inventory whose every entry is Unchanged yields no first-pass
      action. */
  lemma {:induction false} FirstPassQuiet(server: Inv, client: Inv)
    requires forall c :: c in client ==> Classify(server, c) == Unchanged
    ensures Fetches(server, client) == [] && Stale(server, client) == [] && Copies(server, client) == []
    decreases |client|
  {
    if client != [] {
      var n := |client| - 1;
      var init, last := client[..n], client[n];
      forall c | c in init ensures Classify(server, c) == Unchanged {
        assert c in client;
      }
      FirstPassQuiet(server, init);
      assert last in client;
      var v := Classify(server, last);
      assert v == Unchanged;
      assert Fetches(server, client) == Fetches(server, init) + [];
      assert Stale(server, client) == Stale(server, init) + [];
      assert Copies(server, client) == Copies(server, init) + [];
    }
  }

  /** A server inventory whose every name the client has yields no orphan. */
  lemma {:induction false} NoOrphans(server: Inv, client: Inv)
    requires forall e :: e in server ==> HasName(client, e.name)
    ensures Orphans(server, client) == []
    decreases |server|
  {
    if server != [] {
      var n := |server| - 1;
      var last := server[n];
      assert last in server;
      forall e | e in server[..n] ensures HasName(client, e.name) {
        assert e in server;
      }
      NoOrphans(server[..n], client);
      assert Orphans(server, client) == Orphans(server[..n], client) + [];
    }
  }

  /** With a repeated basename the self-diff is not empty: the second
      entry's name first matches the first entry, whose hash differs. */
  lemma SelfDiffRepeatedName()
    ensures var x := [Entry("/s/a", "f.txt", "h1"), Entry("/s/b", "f.txt", "h2")];
      Diff(x, x) == Actions([x[1]], [x[0]], [])
  {
    var x := [Entry("/s/a", "f.txt", "h1"), Entry("/s/b", "f.txt", "h2")];
    assert FirstNamed(x, "f.txt") == Some(0);
    assert Classify(x, x[0]) == Unchanged;
    assert Classify(x, x[1]) == Modified(x[0]);
    assert x[..1] == [x[0]] && x[..1][..0] == [] && x[..1][|x[..1]| - 1] == x[0];
    assert Fetches(x, x[..1]) == [];
    assert Stale(x, x[..1]) == Stale(x, []) + [];
    assert Copies(x, x[..1]) == Copies(x, []) + [];
    assert HasName(x, x[0].name) && HasName(x, x[1].name);
    assert Orphans(x[..1], x) == [];
    assert Fetches(x, x) == [] + [x[1]];
    assert Stale(x, x) == [] + [x[0]];
    assert Copies(x, x) == [] + [];
    assert Orphans(x, x) == [] + [];
  }

  /** Every server entry scheduled for deletion is either named by no client
      entry, or is the first server entry of a name whose client entry has
      another hash and is fetched. */
  lemma DeleteSound(server: Inv, client: Inv, e: Entry)
    requires e in Diff(server, client).delete
    ensures e in server
    ensures !HasName(client, e.name) ||
      exists f :: f in Diff(server, client).get && f.name == e.name && f.hash != e.hash
  {
    if e in Stale(server, client) {
      StaleMembers(server, client, e);
      var c :| c in client && Classify(server, c) == Modified(e);
      ClassifyMeaning(server, c);
      var i :| IsFirstNamed(server, c.name, i) && e == server[i];
      FetchesMembers(server, client, c);
      assert c in Fetches(server, client);
    } else {
      OrphansMembers(server, client, e);
    }
  }

  /** Every copy instruction names an existing server file whose hash is
      that of the client entry it creates, and a target name the server
      does not have. */
  lemma DuplicateSound(server: Inv, client: Inv, p: Pair)
    requires p in Diff(server, client).duplicate
    ensures HasName(server, p.existing) && !HasName(server, p.created)
    ensures exists i, c :: (0 <= i < |server| && c in client &&
      server[i].name == p.existing && c.name == p.created && server[i].hash == c.hash)
  {
    CopiesMembers(server, client, p);
    var c :| c in client && Classify(server, c) == Copied(p.existing) && p.created == c.name;
    ClassifyMeaning(server, c);
    var j :| IsFirstHashed(server, c.hash, j) && p.existing == server[j].name;
    assert 0 <= j < |server| && server[j].name == p.existing;
  }

  /** A fetched entry may still have its hash on the server under another
      name: only entries with no name match are considered for copying. */
  lemma FetchDespiteHashElsewhere()
    ensures var server := [Entry("/s", "a.txt", "h1"), Entry("/s", "b.txt", "h2")];
      var client := [Entry("/c", "a.txt", "h2")];
      Diff(server, client) == Actions(client, server, [])
  {
    var server := [Entry("/s", "a.txt", "h1"), Entry("/s", "b.txt", "h2")];
    var client := [Entry("/c", "a.txt", "h2")];
    assert FirstNamed(server, "a.txt") == Some(0);
    assert Classify(server, client[0]) == Modified(server[0]);
    assert client[..0] == [] && server[..1] == [server[0]] && server[..1][..0] == [];
    assert HasName(client, "a.txt");
    assert !HasName(client, "b.txt");
    assert Orphans(server[..1], client) == [];
  }

  // ---------------------------------------------------------------------
  // The location of an entry never matters

  function EraseVerdict(v: Verdict): Verdict {
    if v.Modified? then Modified(Erase(v.stale)) else v
  }

  function EraseActions(a: Actions): Actions {
    Actions(EraseAll(a.get), EraseAll(a.delete), a.duplicate)
  }

  lemma FindNameErase(s: Inv, n: string, from: nat)
    requires from <= |s|
    ensures FindName(EraseAll(s), n, from) == FindName(s, n, from)
    decreases |s| - from
  {
    if from < |s| {
      FindNameErase(s, n, from + 1);
    }
  }

  lemma FindHashErase(s: Inv, h: string, from: nat)
    requires from <= |s|
    ensures FindHash(EraseAll(s), h, from) == FindHash(s, h, from)
    decreases |s| - from
  {
    if from < |s| {
      FindHashErase(s, h, from + 1);
    }
  }

  lemma ClassifyErase(s: Inv, e: Entry)
    ensures Classify(EraseAll(s), Erase(e)) == EraseVerdict(Classify(s, e))
  {
    FindNameErase(s, e.name, 0);
    FindHashErase(s, e.hash, 0);
  }

  lemma EraseAllAppend(a: Inv, b: Inv)
    ensures EraseAll(a + b) == EraseAll(a) + EraseAll(b)
  {
  }

  lemma EraseAllPrefix(a: Inv, k: nat)
    requires k <= |a|
    ensures EraseAll(a)[..k] == EraseAll(a[..k])
  {
  }

  lemma HasNameErase(a: Inv, n: string)
    ensures HasName(EraseAll(a), n) == HasName(a, n)
  {
    if HasName(a, n) {
      var i :| 0 <= i < |a| && a[i].name == n;
      assert EraseAll(a)[i].name == n;
    }
  }

  lemma NeedsFetchErase(s: Inv, e: Entry)
    ensures NeedsFetch(Classify(EraseAll(s), Erase(e))) == NeedsFetch(Classify(s, e))
  {
    ClassifyErase(s, e);
  }

  lemma {:induction false} FetchesErase(s: Inv, c: Inv)
    ensures EraseAll(Fetches(s, c)) == Fetches(EraseAll(s), EraseAll(c))
    decreases |c|
  {
    if c != [] {
      var n := |c| - 1;
      var es, ec := EraseAll(s), EraseAll(c);
      FetchesErase(s, c[..n]);
      EraseAllPrefix(c, n);
      NeedsFetchErase(s, c[n]);
      var tail := if NeedsFetch(Classify(s, c[n])) then [c[n]] else [];
      EraseAllAppend(Fetches(s, c[..n]), tail);
      assert EraseAll(tail) == if NeedsFetch(Classify(es, ec[n])) then [ec[n]] else [];
    }
  }

  lemma {:induction false} StaleErase(s: Inv, c: Inv)
    ensures EraseAll(Stale(s, c)) == Stale(EraseAll(s), EraseAll(c))
    decreases |c|
  {
    if c != [] {
      var n := |c| - 1;
      StaleErase(s, c[..n]);
      EraseAllPrefix(c, n);
      ClassifyErase(s, c[n]);
      var v := Classify(s, c[n]);
      EraseAllAppend(Stale(s, c[..n]), if v.Modified? then [v.stale] else []);
    }
  }

  lemma {:induction false} CopiesErase(s: Inv, c: Inv)
    ensures Copies(s, c) == Copies(EraseAll(s), EraseAll(c))
    decreases |c|
  {
    if c != [] {
      var n := |c| - 1;
      CopiesErase(s, c[..n]);
      EraseAllPrefix(c, n);
      ClassifyErase(s, c[n]);
    }
  }

  lemma {:induction false} OrphansErase(s: Inv, c: Inv)
    ensures EraseAll(Orphans(s, c)) == Orphans(EraseAll(s), EraseAll(c))
    decreases |s|
  {
    if s != [] {
      var n := |s| - 1;
      OrphansErase(s[..n], c);
      EraseAllPrefix(s, n);
      HasNameErase(c, s[n].name);
      EraseAllAppend(Orphans(s[..n], c), if HasName(c, s[n].name) then [] else [s[n]]);
    }
  }

  /** Reconciliation cannot tell two trees apart that differ only in where
      their files live: erasing every location before the diff gives the
      diff's own actions with their locations erased. */
  lemma DiffIgnoresLocation(server: Inv, client: Inv)
    ensures EraseActions(Diff(server, client)) == Diff(EraseAll(server), EraseAll(client))
  {
    FetchesErase(server, client);
    StaleErase(server, client);
    CopiesErase(server, client);
    OrphansErase(server, client);
    EraseAllAppend(Stale(server, client), Orphans(server, client));
  }
}
