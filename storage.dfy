/** The filesystem effects of `SyncServer.update`, on an abstract disk that
    maps a (directory, file name) path to the file's bytes. `shutil.copy`
    joins the server's root folder with a bare name, while `os.remove` joins
    the entry's own directory with its name; either call raises when its
    source is missing, which ends the server process, so the functions below
    report the first failure together with the disk as it was left. */
module Storage {
  import opened Common
  import opened Inventory
  import opened Reconcile

  datatype Path = Path(dir: string, name: string)

  type Bytes = seq<bv8>

  type Disk = map<Path, Bytes>

  datatype Fault =
    | CopySourceMissing(src: Path)    // `FileNotFoundError` from `shutil.copy`
    | CopyOntoItself(src: Path)       // `shutil.SameFileError`: source and target are one file
    | RemoveTargetMissing(target: Path)

  /** The disk after a sequence of effects, and the fault that stopped it. */
  datatype Outcome = Outcome(disk: Disk, fault: Option<Fault>)

  /** `shutil.copy(join(root, existing), join(root, created))`: a missing
      source raises, and so does a target that is the source itself. */
  function Copy(disk: Disk, root: string, p: Pair): (o: Outcome)
    ensures o.fault == None <==> Path(root, p.existing) in disk && p.existing != p.created
    ensures o.fault == Some(CopyOntoItself(Path(root, p.existing))) <==>
      Path(root, p.existing) in disk && p.existing == p.created
    ensures o.fault == None ==> o.disk == disk[Path(root, p.created) := disk[Path(root, p.existing)]]
    ensures o.fault != None ==> o.disk == disk
  {
    var src := Path(root, p.existing);
    if src !in disk then Outcome(disk, Some(CopySourceMissing(src)))
    else if p.existing == p.created then Outcome(disk, Some(CopyOntoItself(src)))
    else Outcome(disk[Path(root, p.created) := disk[src]], None)
  }

  /** `os.remove(join(location, name))`. */
  function Remove(disk: Disk, e: Entry): (o: Outcome)
    ensures o.fault == None <==> Path(e.location, e.name) in disk
    ensures o.disk == disk - {Path(e.location, e.name)}
  {
    var target := Path(e.location, e.name);
    if target in disk then Outcome(disk - {target}, None)
    else Outcome(disk, Some(RemoveTargetMissing(target)))
  }

  /** The copy loop of `update`, stopping at the first failure. */
  function CopyAll(disk: Disk, root: string, pairs: seq<Pair>): Outcome
    decreases |pairs|
  {
    if pairs == [] then Outcome(disk, None)
    else
      var o := Copy(disk, root, pairs[0]);
      if o.fault.Some? then o else CopyAll(o.disk, root, pairs[1..])
  }

  /** The delete loop of `update`, stopping at the first failure. */
  function RemoveAll(disk: Disk, entries: seq<Entry>): Outcome
    decreases |entries|
  {
    if entries == [] then Outcome(disk, None)
    else
      var o := Remove(disk, entries[0]);
      if o.fault.Some? then o else RemoveAll(o.disk, entries[1..])
  }

  /** `update`'s effect on the disk: every copy, then every delete. */
  function Apply(disk: Disk, root: string, duplicate: seq<Pair>, delete: seq<Entry>): Outcome {
    var c := CopyAll(disk, root, duplicate);
    if c.fault.Some? then c else RemoveAll(c.disk, delete)
  }

  function PathOf(e: Entry): Path {
    Path(e.location, e.name)
  }

  function PathsOf(entries: seq<Entry>): set<Path> {
    set e | e in entries :: PathOf(e)
  }

  predicate DistinctPaths(entries: seq<Entry>) {
    forall i, j :: 0 <= i < j < |entries| ==> PathOf(entries[i]) != PathOf(entries[j])
  }

  /** Deleting succeeds exactly when the entries name distinct files that
      all exist, and then removes exactly those files. */
  lemma {:induction false} RemoveAllExact(disk: Disk, entries: seq<Entry>)
    ensures RemoveAll(disk, entries).fault == None <==>
      DistinctPaths(entries) && PathsOf(entries) <= disk.Keys
    ensures RemoveAll(disk, entries).fault == None ==>
      RemoveAll(disk, entries).disk == disk - PathsOf(entries)
    decreases |entries|
  {
    if entries != [] {
      var e, rest := entries[0], entries[1..];
      var o := Remove(disk, e);
      RemoveAllExact(o.disk, rest);
      assert PathsOf(entries) == {PathOf(e)} + PathsOf(rest) by {
        assert forall x :: x in entries <==> x == e || x in rest;
      }
      assert DistinctPaths(entries) <==> DistinctPaths(rest) && PathOf(e) !in PathsOf(rest) by {
        if DistinctPaths(rest) && PathOf(e) !in PathsOf(rest) {
          forall i, j | 0 <= i < j < |entries|
            ensures PathOf(entries[i]) != PathOf(entries[j])
          {
            if i > 0 {
              assert entries[i] == rest[i - 1] && entries[j] == rest[j - 1];
            } else {
              assert entries[j] in rest;
            }
          }
        }
        if DistinctPaths(entries) {
          forall x | x in rest ensures PathOf(x) != PathOf(e) {
            var k :| 0 <= k < |rest| && rest[k] == x;
            assert entries[k + 1] == x;
          }
        }
      }
    }
  }

  /** No copy writes onto its own source, nor a name that another copy
      reads or writes. */
  predicate Independent(pairs: seq<Pair>) {
    && (forall i :: 0 <= i < |pairs| ==> pairs[i].created != pairs[i].existing)
    && (forall i, j :: 0 <= i < |pairs| && 0 <= j < |pairs| && i != j ==>
          pairs[i].created != pairs[j].created && pairs[i].created != pairs[j].existing)
  }

  /** The paths the copies write. */
  function Targets(root: string, pairs: seq<Pair>): set<Path> {
    set p | p in pairs :: Path(root, p.created)
  }

  lemma IndependentTail(pairs: seq<Pair>)
    requires pairs != [] && Independent(pairs)
    ensures Independent(pairs[1..])
    ensures forall q :: q in pairs[1..] ==> q.existing != pairs[0].created && q.created != pairs[0].created
  {
    var rest := pairs[1..];
    forall i | 0 <= i < |rest| ensures rest[i].created != rest[i].existing {
      assert rest[i] == pairs[i + 1];
    }
    forall i, j | 0 <= i < |rest| && 0 <= j < |rest| && i != j
      ensures rest[i].created != rest[j].created && rest[i].created != rest[j].existing
    {
      assert rest[i] == pairs[i + 1] && rest[j] == pairs[j + 1];
    }
    forall q | q in rest
      ensures q.existing != pairs[0].created && q.created != pairs[0].created
    {
      var k :| 0 <= k < |rest| && rest[k] == q;
      assert pairs[k + 1] == q;
    }
  }

  /** Copying from files that exist onto other names never fails. When the
      copies are independent, each new name ends up with the bytes of its source and
      nothing else changes. */
  lemma {:induction false} CopyAllExact(disk: Disk, root: string, pairs: seq<Pair>)
    requires forall p :: p in pairs ==> Path(root, p.existing) in disk
    requires Independent(pairs)
    ensures CopyAll(disk, root, pairs).fault == None
    ensures CopyAll(disk, root, pairs).disk.Keys == disk.Keys + Targets(root, pairs)
    ensures forall p :: p in pairs ==>
      CopyAll(disk, root, pairs).disk[Path(root, p.created)] == disk[Path(root, p.existing)]
    ensures forall q :: q in disk && q !in Targets(root, pairs) ==> CopyAll(disk, root, pairs).disk[q] == disk[q]
    decreases |pairs|
  {
    if pairs != [] {
      var p, rest := pairs[0], pairs[1..];
      var d1 := disk[Path(root, p.created) := disk[Path(root, p.existing)]];
      assert Copy(disk, root, p) == Outcome(d1, None);
      IndependentTail(pairs);
      forall q | q in rest ensures Path(root, q.existing) in d1 {
        assert q in pairs;
      }
      CopyAllExact(d1, root, rest);
      var d := CopyAll(d1, root, rest).disk;
      assert CopyAll(disk, root, pairs) == CopyAll(d1, root, rest);
      assert Targets(root, pairs) == {Path(root, p.created)} + Targets(root, rest) by {
        assert forall x :: x in pairs <==> x == p || x in rest;
      }
      forall x | x in pairs ensures d[Path(root, x.created)] == disk[Path(root, x.existing)] {
        if x != p {
          assert x in rest;
        } else {
          assert Path(root, p.created) !in Targets(root, rest);
        }
      }
    }
  }

  /** The rename case: the client renamed `a` to `b`, so the server is told
      to copy `a` to `b` and to delete `a`. Because copies run first, `b`
      gets `a`'s bytes and only then is `a` removed. */
  lemma RenameKeepsContent(disk: Disk, root: string, a: string, b: string, h: string)
    requires a != b && Path(root, a) in disk
    ensures var o := Apply(disk, root, [Pair(a, b)], [Entry(root, a, h)]);
      && o.fault == None
      && o.disk == disk[Path(root, b) := disk[Path(root, a)]] - {Path(root, a)}
  {
    var d1 := disk[Path(root, b) := disk[Path(root, a)]];
    assert CopyAll(disk, root, [Pair(a, b)]) == Outcome(d1, None);
    assert RemoveAll(d1, [Entry(root, a, h)]) == Outcome(d1 - {Path(root, a)}, None);
  }

  /** Had the deletes come first, the rename's source would be gone. */
  lemma DeleteFirstLosesRename(disk: Disk, root: string, a: string, b: string, h: string)
    requires Path(root, a) in disk
    ensures var r := RemoveAll(disk, [Entry(root, a, h)]);
      && r.fault == None
      && CopyAll(r.disk, root, [Pair(a, b)]).fault == Some(CopySourceMissing(Path(root, a)))
  {
    var e := Entry(root, a, h);
    assert Remove(disk, e) == Outcome(disk - {Path(root, a)}, None);
    assert [e][1..] == [];
    assert RemoveAll(disk, [e]) == RemoveAll(disk - {Path(root, a)}, []);
  }

  /** A copy source outside the root folder is not found, because the copy
      looks for it in the root folder: a file in a sub-directory cannot be
      the source of a copy. */
  lemma NestedSourceNotFound(disk: Disk, root: string, sub: string, a: string, b: string)
    requires sub != root && Path(sub, a) in disk && Path(root, a) !in disk
    ensures Apply(disk, root, [Pair(a, b)], []) == Outcome(disk, Some(CopySourceMissing(Path(root, a))))
  {
  }

  /** Removing the same entry twice fails on the second removal, or on the
      first when the file is missing to begin with. */
  lemma RemoveTwiceFails(disk: Disk, e: Entry)
    ensures RemoveAll(disk, [e, e]).fault == Some(RemoveTargetMissing(PathOf(e)))
  {
    var d0 := disk - {PathOf(e)};
    assert [e, e][1..] == [e];
    assert RemoveAll(d0, [e]).fault == Some(RemoveTargetMissing(PathOf(e)));
    if PathOf(e) in disk {
      assert RemoveAll(disk, [e, e]) == RemoveAll(d0, [e]);
    }
  }

  /** Two client entries of one basename, both with another hash than the
      server's file of that name, each mark that file stale. */
  lemma RepeatedClientNameDiff()
    ensures var server := [Entry("/s", "f.txt", "h3")];
      var client := [Entry("/c/a", "f.txt", "h1"), Entry("/c/b", "f.txt", "h2")];
      Diff(server, client) == Actions(client, [server[0], server[0]], [])
  {
    var server := [Entry("/s", "f.txt", "h3")];
    var client := [Entry("/c/a", "f.txt", "h1"), Entry("/c/b", "f.txt", "h2")];
    assert FirstNamed(server, "f.txt") == Some(0);
    assert Classify(server, client[0]) == Modified(server[0]);
    assert Classify(server, client[1]) == Modified(server[0]);
    assert client[..1] == [client[0]] && client[..1][..0] == [] && server[..0] == [];
    assert Fetches(server, client[..1]) == [] + [client[0]];
    assert Stale(server, client[..1]) == [] + [server[0]];
    assert Copies(server, client[..1]) == [] + [];
    assert Fetches(server, client) == [client[0]] + [client[1]];
    assert Stale(server, client) == [server[0]] + [server[0]];
    assert Copies(server, client) == [] + [];
    assert HasName(client, "f.txt");
    assert Orphans(server, client) == [] + [];
  }

  /** One basename in two client folders, both with another hash than the
      server's file of that name: the server deletes that file twice, and
      the second `os.remove` fails whatever the disk holds. */
  lemma RepeatedClientNameCrashes(disk: Disk)
    ensures var server := [Entry("/s", "f.txt", "h3")];
      var client := [Entry("/c/a", "f.txt", "h1"), Entry("/c/b", "f.txt", "h2")];
      var d := Diff(server, client);
      && d == Actions(client, [server[0], server[0]], [])
      && Apply(disk, "/s", d.duplicate, d.delete).fault == Some(RemoveTargetMissing(Path("/s", "f.txt")))
  {
    RepeatedClientNameDiff();
    var e := Entry("/s", "f.txt", "h3");
    RemoveTwiceFails(disk, e);
    assert CopyAll(disk, "/s", []) == Outcome(disk, None);
  }

  // ---------------------------------------------------------------------
  // Diff followed by update

  /** `disk` holds, directly under `root`, exactly the files of `inv`, and
      every entry's hash is `md5` of its file's bytes. */
  predicate Mirrors(disk: Disk, root: string, inv: Inv, md5: Bytes -> string) {
    && (forall e :: e in inv ==>
         e.location == root && Path(root, e.name) in disk && md5(disk[Path(root, e.name)]) == e.hash)
    && (forall p :: p in disk && p.dir == root ==> HasName(inv, p.name))
  }

  /** No two copy instructions write the same name. */
  predicate DistinctTargets(pairs: seq<Pair>) {
    forall i, j :: 0 <= i < j < |pairs| ==> pairs[i].created != pairs[j].created
  }

  lemma {:induction false} CopiesCreateDistinct(server: Inv, client: Inv)
    requires DistinctNames(client)
    ensures DistinctTargets(Copies(server, client))
    decreases |client|
  {
    if client != [] {
      var n := |client| - 1;
      var init := client[..n];
      CopiesCreateDistinct(server, init);
      var r0 := Copies(server, init);
      var r := Copies(server, client);
      var v := Classify(server, client[n]);
      assert r == r0 + (if v.Copied? then [Pair(v.source, client[n].name)] else []);
      forall i | 0 <= i < |r0| ensures r0[i].created != client[n].name {
        CopySource(server, init, r0[i]);
        var k, j :| 0 <= k < n && IsFirstHashed(server, init[k].hash, j) &&
          init[k].name == r0[i].created && server[j].name == r0[i].existing &&
          Classify(server, init[k]) == Copied(r0[i].existing);
        assert client[k] == init[k];
      }
      forall i, j | 0 <= i < j < |r| ensures r[i].created != r[j].created {
        assert r[i] == r0[i];
        if j < |r0| {
          assert r[j] == r0[j];
          assert r0[i].created != r0[j].created;
        } else {
          assert r[j].created == client[n].name;
          assert r0[i].created != client[n].name;
        }
      }
    }
  }

  /** A copy instruction comes from a client entry with a Copied verdict:
      its target is that entry's name, which the server lacks, and its source
      is the first server file with that entry's hash. */
  lemma CopySource(server: Inv, client: Inv, p: Pair)
    requires p in Copies(server, client)
    ensures !HasName(server, p.created)
    ensures exists k, j :: (0 <= k < |client| && IsFirstHashed(server, client[k].hash, j) &&
      client[k].name == p.created && server[j].name == p.existing &&
      Classify(server, client[k]) == Copied(p.existing))
  {
    CopiesMembers(server, client, p);
    var c :| c in client && Classify(server, c) == Copied(p.existing) && p.created == c.name;
    ClassifyMeaning(server, c);
    var j :| IsFirstHashed(server, c.hash, j) && p.existing == server[j].name;
    var k :| 0 <= k < |client| && client[k] == c;
  }

  lemma StaleNamed(server: Inv, client: Inv, e: Entry)
    requires e in Stale(server, client)
    ensures e in server
    ensures exists k :: 0 <= k < |client| && client[k].name == e.name && Classify(server, client[k]) == Modified(e)
  {
    StaleMembers(server, client, e);
    var c :| c in client && Classify(server, c) == Modified(e);
    ClassifyMeaning(server, c);
    var i :| IsFirstNamed(server, c.name, i) && e == server[i];
    var k :| 0 <= k < |client| && client[k] == c;
  }

  lemma {:induction false} StaleDistinct(server: Inv, client: Inv)
    requires DistinctNames(client)
    ensures DistinctNames(Stale(server, client))
    decreases |client|
  {
    if client != [] {
      var n := |client| - 1;
      var init := client[..n];
      StaleDistinct(server, init);
      var r0 := Stale(server, init);
      var r := Stale(server, client);
      var v := Classify(server, client[n]);
      assert r == r0 + (if v.Modified? then [v.stale] else []);
      forall i | 0 <= i < |r0| ensures r0[i].name != client[n].name {
        assert r0[i] in r0;
        StaleNamed(server, init, r0[i]);
        var k :| 0 <= k < n && init[k].name == r0[i].name;
        assert client[k] == init[k];
      }
      ClassifyMeaning(server, client[n]);
      if v.Modified? {
        var m :| IsFirstNamed(server, client[n].name, m) && v.stale == server[m];
        assert v.stale.name == client[n].name;
      }
      forall i, j | 0 <= i < j < |r| ensures r[i].name != r[j].name {
        assert r[i] == r0[i];
        if j < |r0| {
          assert r[j] == r0[j];
          assert r0[i].name != r0[j].name;
        } else {
          assert r[j].name == client[n].name;
          assert r0[i].name != client[n].name;
        }
      }
    }
  }

  lemma {:induction false} OrphansDistinct(server: Inv, client: Inv)
    requires DistinctNames(server)
    ensures DistinctNames(Orphans(server, client))
    decreases |server|
  {
    if server != [] {
      var n := |server| - 1;
      var init := server[..n];
      OrphansDistinct(init, client);
      var r0 := Orphans(init, client);
      var r := Orphans(server, client);
      assert r == r0 + (if HasName(client, server[n].name) then [] else [server[n]]);
      forall i | 0 <= i < |r0| ensures r0[i].name != server[n].name {
        assert r0[i] in r0;
        OrphansMembers(init, client, r0[i]);
        var k :| 0 <= k < n && init[k] == r0[i];
        assert server[k] == r0[i];
      }
      forall i, j | 0 <= i < j < |r| ensures r[i].name != r[j].name {
        assert r[i] == r0[i];
        if j < |r0| {
          assert r[j] == r0[j];
          assert r0[i].name != r0[j].name;
        } else {
          assert r[j] == server[n];
          assert r0[i].name != server[n].name;
        }
      }
    }
  }

  /** The copy phase of a diff on a mirrored flat tree: every source exists,
      no target is a server name, each target is named by a client entry
      with the source's hash, and no two copies write the same target. */
  lemma DiffCopiesSafe(disk: Disk, root: string, server: Inv, client: Inv, md5: Bytes -> string)
    requires Mirrors(disk, root, server, md5)
    requires DistinctNames(client)
    ensures var pairs := Copies(server, client);
      && (forall p :: p in pairs ==> Path(root, p.existing) in disk && !HasName(server, p.created))
      && (forall p :: p in pairs ==> exists k :: (0 <= k < |client| && client[k].name == p.created &&
            md5(disk[Path(root, p.existing)]) == client[k].hash && Classify(server, client[k]).Copied?))
      && Independent(pairs)
  {
    var pairs := Copies(server, client);
    CopiesCreateDistinct(server, client);
    forall p | p in pairs
      ensures Path(root, p.existing) in disk && !HasName(server, p.created)
      ensures exists k :: (0 <= k < |client| && client[k].name == p.created &&
        md5(disk[Path(root, p.existing)]) == client[k].hash && Classify(server, client[k]).Copied?)
    {
      CopySource(server, client, p);
      var k, j :| 0 <= k < |client| && IsFirstHashed(server, client[k].hash, j) &&
        client[k].name == p.created && server[j].name == p.existing &&
        Classify(server, client[k]) == Copied(p.existing);
      assert server[j] in server;
    }
    forall i | 0 <= i < |pairs| ensures pairs[i].created != pairs[i].existing {
      assert pairs[i] in pairs;
      CopySource(server, client, pairs[i]);
      var k, m :| 0 <= k < |client| && IsFirstHashed(server, client[k].hash, m) &&
        client[k].name == pairs[i].created && server[m].name == pairs[i].existing &&
        Classify(server, client[k]) == Copied(pairs[i].existing);
      assert HasName(server, pairs[i].existing);
    }
    forall i, j | 0 <= i < |pairs| && 0 <= j < |pairs| && i != j
      ensures pairs[i].created != pairs[j].created && pairs[i].created != pairs[j].existing
    {
      assert pairs[i] in pairs && pairs[j] in pairs;
      CopySource(server, client, pairs[j]);
      var k, m :| 0 <= k < |client| && IsFirstHashed(server, client[k].hash, m) &&
        client[k].name == pairs[j].created && server[m].name == pairs[j].existing &&
        Classify(server, client[k]) == Copied(pairs[j].existing);
      assert HasName(server, pairs[j].existing);
      if i > j {
        assert pairs[j].created != pairs[i].created;
      }
    }
  }

  /** The delete phase of a diff on a mirrored flat tree: it names distinct
      existing files, each a server file whose name the client has only
      with another hash, or not at all. */
  lemma DiffDeletesSafe(disk: Disk, root: string, server: Inv, client: Inv, md5: Bytes -> string)
    requires Mirrors(disk, root, server, md5)
    requires DistinctNames(server) && DistinctNames(client)
    ensures var del := Diff(server, client).delete;
      && DistinctPaths(del) && PathsOf(del) <= disk.Keys
      && (forall e :: e in del ==> PathOf(e) == Path(root, e.name) && HasName(server, e.name))
      && (forall e :: e in del ==> forall k :: 0 <= k < |client| && client[k].name == e.name ==>
            Classify(server, client[k]).Modified?)
  {
    var stale, orphans := Stale(server, client), Orphans(server, client);
    var del := stale + orphans;
    forall e | e in del
      ensures e in server && PathOf(e) == Path(root, e.name) && PathOf(e) in disk
      ensures forall k :: 0 <= k < |client| && client[k].name == e.name ==> Classify(server, client[k]).Modified?
    {
      if e in stale {
        StaleNamed(server, client, e);
        var k :| 0 <= k < |client| && client[k].name == e.name && Classify(server, client[k]) == Modified(e);
        forall k' | 0 <= k' < |client| && client[k'].name == e.name
          ensures Classify(server, client[k']).Modified?
        {
          assert k' == k;
        }
      } else {
        OrphansMembers(server, client, e);
      }
      var m :| 0 <= m < |server| && server[m] == e;
    }
    DeletesDistinct(server, client);
    forall i, j | 0 <= i < j < |del| ensures PathOf(del[i]) != PathOf(del[j]) {
      assert del[i] in del && del[j] in del;
    }
  }

  /** No name is deleted twice: a stale entry's name is one the client
      has, an orphan's name is not. */
  lemma DeletesDistinct(server: Inv, client: Inv)
    requires DistinctNames(server) && DistinctNames(client)
    ensures DistinctNames(Diff(server, client).delete)
  {
    var stale, orphans := Stale(server, client), Orphans(server, client);
    var del := stale + orphans;
    StaleDistinct(server, client);
    OrphansDistinct(server, client);
    forall i, j | 0 <= i < j < |del| ensures del[i].name != del[j].name {
      if j < |stale| {
        assert del[i] == stale[i] && del[j] == stale[j];
      } else if i >= |stale| {
        assert del[i] == orphans[i - |stale|] && del[j] == orphans[j - |stale|];
      } else {
        assert del[i] in stale && del[j] in orphans;
        StaleNamed(server, client, del[i]);
        OrphansMembers(server, client, del[j]);
      }
    }
  }

  /** The copies and deletes of one diff, applied to a flat server tree
      whose hashes are right, leave under the root exactly the client's
      names other than those still to be fetched, each with the client's
      hash; the names still to be fetched are absent. */
  lemma DiffThenApply(disk: Disk, root: string, server: Inv, client: Inv, md5: Bytes -> string)
    requires Mirrors(disk, root, server, md5)
    requires DistinctNames(server) && DistinctNames(client)
    ensures var d := Diff(server, client);
      var o := Apply(disk, root, d.duplicate, d.delete);
      && o.fault == None
      && (forall c :: c in client && NeedsFetch(Classify(server, c)) ==> Path(root, c.name) !in o.disk)
      && (forall c :: c in client && !NeedsFetch(Classify(server, c)) ==>
            Path(root, c.name) in o.disk && md5(o.disk[Path(root, c.name)]) == c.hash)
      && (forall q :: q in o.disk && q.dir == root ==> HasName(client, q.name))
  {
    var d := Diff(server, client);
    ApplyCompletes(disk, root, server, client, md5);
    forall c | c in client && NeedsFetch(Classify(server, c))
      ensures Path(root, c.name) !in Apply(disk, root, d.duplicate, d.delete).disk
    {
      ClientEntryFetched(disk, root, server, client, md5, c);
    }
    forall c | c in client && !NeedsFetch(Classify(server, c))
      ensures var o := Apply(disk, root, d.duplicate, d.delete);
        Path(root, c.name) in o.disk && md5(o.disk[Path(root, c.name)]) == c.hash
    {
      ClientEntryKept(disk, root, server, client, md5, c);
    }
    NoStrayFiles(disk, root, server, client, md5);
  }

  lemma ApplyCompletes(disk: Disk, root: string, server: Inv, client: Inv, md5: Bytes -> string)
    requires Mirrors(disk, root, server, md5)
    requires DistinctNames(server) && DistinctNames(client)
    ensures var d := Diff(server, client);
      var c := CopyAll(disk, root, d.duplicate);
      && c.fault == None
      && Apply(disk, root, d.duplicate, d.delete) == Outcome(c.disk - PathsOf(d.delete), None)
  {
    var d := Diff(server, client);
    DiffCopiesSafe(disk, root, server, client, md5);
    DiffDeletesSafe(disk, root, server, client, md5);
    CopyAllExact(disk, root, d.duplicate);
    RemoveAllExact(CopyAll(disk, root, d.duplicate).disk, d.delete);
  }

  lemma NoStrayFiles(disk: Disk, root: string, server: Inv, client: Inv, md5: Bytes -> string)
    requires Mirrors(disk, root, server, md5)
    requires DistinctNames(server) && DistinctNames(client)
    ensures var d := Diff(server, client);
      forall q :: q in Apply(disk, root, d.duplicate, d.delete).disk && q.dir == root ==> HasName(client, q.name)
  {
    var d := Diff(server, client);
    var pairs, del := d.duplicate, d.delete;
    DiffCopiesSafe(disk, root, server, client, md5);
    CopyAllExact(disk, root, pairs);
    ApplyCompletes(disk, root, server, client, md5);
    var d1 := CopyAll(disk, root, pairs).disk;
    var o := Apply(disk, root, pairs, del);
    forall q | q in o.disk && q.dir == root ensures HasName(client, q.name) {
      assert q in d1 && q !in PathsOf(del);
      StrayCheck(disk, root, server, client, md5, q);
    }
  }

  /** One file left under the root after the copies, and not deleted, has
      a name the client lists. */
  lemma StrayCheck(disk: Disk, root: string, server: Inv, client: Inv, md5: Bytes -> string, q: Path)
    requires Mirrors(disk, root, server, md5)
    requires DistinctNames(server) && DistinctNames(client)
    requires q.dir == root
    requires q in disk || exists p :: p in Copies(server, client) && q == Path(root, p.created)
    requires q !in PathsOf(Diff(server, client).delete)
    ensures HasName(client, q.name)
  {
    var pairs := Copies(server, client);
    if exists p :: p in pairs && q == Path(root, p.created) {
      var p :| p in pairs && q == Path(root, p.created);
      CopySource(server, client, p);
    } else {
      var m :| 0 <= m < |server| && server[m].name == q.name;
      assert server[m] in server;
      OrphansMembers(server, client, server[m]);
      assert PathOf(server[m]) == q;
    }
  }

  lemma ClientEntryFetched(disk: Disk, root: string, server: Inv, client: Inv, md5: Bytes -> string, c: Entry)
    requires Mirrors(disk, root, server, md5)
    requires DistinctNames(server) && DistinctNames(client)
    requires c in client && NeedsFetch(Classify(server, c))
    ensures var d := Diff(server, client);
      Path(root, c.name) !in Apply(disk, root, d.duplicate, d.delete).disk
  {
    var d := Diff(server, client);
    var pairs, del := d.duplicate, d.delete;
    DiffCopiesSafe(disk, root, server, client, md5);
    DiffDeletesSafe(disk, root, server, client, md5);
    CopyAllExact(disk, root, pairs);
    ApplyCompletes(disk, root, server, client, md5);
    var v := Classify(server, c);
    ClassifyMeaning(server, c);
    if v.Modified? {
      var m :| IsFirstNamed(server, c.name, m) && v.stale == server[m];
      StaleMembers(server, client, v.stale);
      assert v.stale in del;
      assert PathOf(v.stale) in PathsOf(del);
    } else {
      var kc :| 0 <= kc < |client| && client[kc] == c;
      forall p | p in pairs ensures Path(root, p.created) != Path(root, c.name) {
        var k :| 0 <= k < |client| && client[k].name == p.created &&
          md5(disk[Path(root, p.existing)]) == client[k].hash && Classify(server, client[k]).Copied?;
      }
      assert Path(root, c.name) !in disk;
    }
  }

  lemma ClientEntryKept(disk: Disk, root: string, server: Inv, client: Inv, md5: Bytes -> string, c: Entry)
    requires Mirrors(disk, root, server, md5)
    requires DistinctNames(server) && DistinctNames(client)
    requires c in client && !NeedsFetch(Classify(server, c))
    ensures var d := Diff(server, client);
      var o := Apply(disk, root, d.duplicate, d.delete);
      Path(root, c.name) in o.disk && md5(o.disk[Path(root, c.name)]) == c.hash
  {
    var d := Diff(server, client);
    var pairs, del := d.duplicate, d.delete;
    DiffCopiesSafe(disk, root, server, client, md5);
    DiffDeletesSafe(disk, root, server, client, md5);
    CopyAllExact(disk, root, pairs);
    ApplyCompletes(disk, root, server, client, md5);
    var d1 := CopyAll(disk, root, pairs).disk;
    var o := Apply(disk, root, pairs, del);
    var v := Classify(server, c);
    ClassifyMeaning(server, c);
    var kc :| 0 <= kc < |client| && client[kc] == c;
    forall e | e in del ensures PathOf(e) != Path(root, c.name) {
    }
    assert Path(root, c.name) !in PathsOf(del);
    if v == Unchanged {
      var m :| IsFirstNamed(server, c.name, m) && server[m].hash == c.hash;
      assert server[m] in server;
      forall p | p in pairs ensures Path(root, p.created) != Path(root, c.name) {
      }
      assert d1[Path(root, c.name)] == disk[Path(root, c.name)];
    } else {
      var p := Pair(v.source, c.name);
      CopiesMembers(server, client, p);
      assert p in pairs;
      var k :| 0 <= k < |client| && client[k].name == p.created &&
        md5(disk[Path(root, p.existing)]) == client[k].hash && Classify(server, client[k]).Copied?;
      assert k == kc;
      assert d1[Path(root, c.name)] == disk[Path(root, p.existing)];
    }
  }
}
