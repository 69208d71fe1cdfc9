/** The situations the repository's integration tests set up, stated on the
    reconciliation diff: the server's listing and the client's listing after
    the test's change, and the three action lists the server derives. */
module Scenarios {
  import opened Common
  import opened Inventory
  import opened Reconcile
  import opened Storage

  /** A new client file the server has never seen is fetched. */
  lemma ClientFileAdd()
    ensures var client := [Entry("/c", "test001.txt", "h1")];
      Diff([], client) == Actions(client, [], [])
  {
    var client := [Entry("/c", "test001.txt", "h1")];
    assert Classify([], client[0]) == Missing;
    assert client[..0] == [];
  }

  /** A file the client deleted is deleted on the server. */
  lemma ClientFileDelete()
    ensures var server := [Entry("/s", "test002.txt", "h2")];
      Diff(server, []) == Actions([], server, [])
  {
    var server := [Entry("/s", "test002.txt", "h2")];
    assert !HasName([], "test002.txt");
    assert server[..0] == [];
  }

  /** A file the client renamed is copied to its new name on the server and
      the old name deleted, with no transfer; the copy runs before the
      delete, so the new name keeps the bytes. */
  lemma ClientFileRename(disk: Disk)
    requires Path("/s", "test003a.txt") in disk
    ensures var server := [Entry("/s", "test003a.txt", "h3")];
      var client := [Entry("/c", "test003b.txt", "h3")];
      var d := Diff(server, client);
      && d == Actions([], server, [Pair("test003a.txt", "test003b.txt")])
      && Apply(disk, "/s", d.duplicate, d.delete) ==
           Outcome(disk[Path("/s", "test003b.txt") := disk[Path("/s", "test003a.txt")]] - {Path("/s", "test003a.txt")}, None)
  {
    var server := [Entry("/s", "test003a.txt", "h3")];
    var client := [Entry("/c", "test003b.txt", "h3")];
    assert FirstNamed(server, "test003b.txt") == None;
    assert FirstHashed(server, "h3") == Some(0);
    assert Classify(server, client[0]) == Copied("test003a.txt");
    assert client[..0] == [] && server[..0] == [];
    assert !HasName(client, "test003a.txt");
    RenameKeepsContent(disk, "/s", "test003a.txt", "test003b.txt", "h3");
  }

  /** A file the client edited is deleted on the server and fetched again. */
  lemma ClientFileModify()
    ensures var server := [Entry("/s", "test004.txt", "h4")];
      var client := [Entry("/c", "test004.txt", "h4e")];
      Diff(server, client) == Actions(client, server, [])
  {
    var server := [Entry("/s", "test004.txt", "h4")];
    var client := [Entry("/c", "test004.txt", "h4e")];
    assert FirstNamed(server, "test004.txt") == Some(0);
    var v := Classify(server, client[0]);
    assert v == Modified(server[0]);
    assert client[..0] == [] && server[..0] == [];
    assert Fetches(server, client) == [] + [client[0]];
    assert Stale(server, client) == [] + [server[0]];
    assert Copies(server, client) == [] + [];
    assert HasName(client, "test004.txt");
    assert Orphans(server, client) == [] + [];
  }

  /** A client copy of a file the server holds is made by a local copy on
      the server, the original staying as it is. */
  lemma ClientFileAddWithSameMd5()
    ensures var server := [Entry("/s", "test005a.txt", "h5")];
      var client := [Entry("/c", "test005a.txt", "h5"), Entry("/c", "test005b.txt", "h5")];
      Diff(server, client) == Actions([], [], [Pair("test005a.txt", "test005b.txt")])
  {
    var server := [Entry("/s", "test005a.txt", "h5")];
    var client := [Entry("/c", "test005a.txt", "h5"), Entry("/c", "test005b.txt", "h5")];
    assert FirstNamed(server, "test005a.txt") == Some(0);
    assert FirstNamed(server, "test005b.txt") == None;
    assert FirstHashed(server, "h5") == Some(0);
    assert Classify(server, client[0]) == Unchanged;
    assert Classify(server, client[1]) == Copied("test005a.txt");
    assert client[..1] == [client[0]] && client[..1][..0] == [] && server[..0] == [];
    assert Fetches(server, client[..1]) == [];
    assert Stale(server, client[..1]) == Stale(server, []) + [];
    assert Copies(server, client[..1]) == [];
    assert HasName(client, "test005a.txt");
    assert Orphans(server, client) == Orphans([], client) + [];
  }

  /** A file added on the server alone is deleted there. */
  lemma ServerFileAdd()
    ensures var server := [Entry("/s", "kept.txt", "hk"), Entry("/s", "test006.txt", "h6")];
      var client := [Entry("/c", "kept.txt", "hk")];
      Diff(server, client) == Actions([], [server[1]], [])
  {
    var server := [Entry("/s", "kept.txt", "hk"), Entry("/s", "test006.txt", "h6")];
    var client := [Entry("/c", "kept.txt", "hk")];
    assert FirstNamed(server, "kept.txt") == Some(0);
    assert Classify(server, client[0]) == Unchanged;
    assert client[..0] == [] && server[..1] == [server[0]] && server[..1][..0] == [];
    assert HasName(client, "kept.txt") && !HasName(client, "test006.txt");
    assert Orphans(server[..1], client) == [];
    assert Orphans(server, client) == [] + [server[1]];
  }

  /** A file deleted on the server alone is fetched from the client again. */
  lemma ServerFileDelete()
    ensures var server := [Entry("/s", "kept.txt", "hk")];
      var client := [Entry("/c", "kept.txt", "hk"), Entry("/c", "test007.txt", "h7")];
      Diff(server, client) == Actions([client[1]], [], [])
  {
    var server := [Entry("/s", "kept.txt", "hk")];
    var client := [Entry("/c", "kept.txt", "hk"), Entry("/c", "test007.txt", "h7")];
    assert FirstNamed(server, "kept.txt") == Some(0);
    assert FirstNamed(server, "test007.txt") == None;
    assert FirstHashed(server, "h7") == None;
    assert Classify(server, client[0]) == Unchanged;
    assert Classify(server, client[1]) == Missing;
    assert client[..1] == [client[0]] && client[..1][..0] == [] && server[..0] == [];
    assert Fetches(server, client[..1]) == [] && Stale(server, client[..1]) == [];
    assert Copies(server, client[..1]) == [];
    assert Fetches(server, client) == [] + [client[1]];
    assert HasName(client, "kept.txt");
  }

  /** The server takes its listing before it waits for a connection, so a
      file deleted on the server while it waits is still in the listing the
      client's list is compared with. The diff is then empty and the file is
      not fetched back in that cycle; only the next cycle, with a fresh
      listing, fetches it (`ServerFileDelete`). */
  lemma ServerFileDeleteStaleListing(disk: Disk)
    requires Path("/s", "test007.txt") !in disk
    ensures var listing := [Entry("/s", "test007.txt", "h7")];
      var client := [Entry("/c", "test007.txt", "h7")];
      var d := Diff(listing, client);
      && d == Actions([], [], [])
      && Apply(disk, "/s", d.duplicate, d.delete) == Outcome(disk, None)
      && Path("/s", "test007.txt") !in Apply(disk, "/s", d.duplicate, d.delete).disk
  {
    var listing := [Entry("/s", "test007.txt", "h7")];
    var client := [Entry("/c", "test007.txt", "h7")];
    assert FirstNamed(listing, "test007.txt") == Some(0);
    assert Classify(listing, client[0]) == Unchanged;
    assert client[..0] == [] && listing[..0] == [];
    assert Fetches(listing, client) == [] + [];
    assert Stale(listing, client) == [] + [];
    assert Copies(listing, client) == [] + [];
    assert HasName(client, "test007.txt");
    assert Orphans(listing, client) == [] + [];
  }

  /** A stale listing can also make `update` crash: a server file that is in
      the listing, that the client does not have, and that was deleted while
      the server waited, is an orphan whose `os.remove` raises. */
  lemma StaleListingOrphanCrashes(disk: Disk)
    requires Path("/s", "x.txt") !in disk
    ensures var listing := [Entry("/s", "x.txt", "h")];
      var d := Diff(listing, []);
      && d == Actions([], listing, [])
      && Apply(disk, "/s", d.duplicate, d.delete) == Outcome(disk, Some(RemoveTargetMissing(Path("/s", "x.txt"))))
  {
    var listing := [Entry("/s", "x.txt", "h")];
    assert !HasName([], "x.txt");
    assert listing[..0] == [];
    assert Orphans(listing, []) == [] + [listing[0]];
    assert CopyAll(disk, "/s", []) == Outcome(disk, None);
  }
}
