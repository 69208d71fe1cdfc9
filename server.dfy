/** `SyncServer`: one connection's worth of the server's `run` loop. The
    server reads control messages until a `filelist` arrives, reconciles
    the client's inventory with its own, updates its folder, asks for each
    file it still lacks (storing what the upload channel delivers), sends
    `sync:done`, and shuts the connection down. The listing that
    `read_local_storage` produces, `ast.literal_eval`, `str()` of a list and
    the bytes each upload delivers are parameters. */
module Server {
  import opened Common
  import opened Inventory
  import opened Reconcile
  import opened Storage
  import opened Framing
  import opened Tagging

  /** Why the server process dies on a connection. */
  datatype Crash =
    | HeaderUnreadable       // `int()` on a frame header raises
    | Untagged               // a message without ':' makes `split(':')[1]` raise
    | ListUnreadable         // `ast.literal_eval` rejects the file list
    | FileError(f: Fault)    // `shutil.copy` or `os.remove` raises

  /** How a connection ends for the server. */
  datatype Close =
    | Finished               // `sync:done` sent, connection shut down
    | Stalled                // still waiting in `recv` when the data runs out
    | Crashed(why: Crash)

  /** The outcome of the receive loop: the data of the first `filelist`
      message, unless the connection ends before one arrives. */
  datatype Reading = Got(data: string) | Ended(close: Close)

  /** The server's receive loop from receiver state `rx`: messages of any
      type other than `filelist` are read and dropped. */
  function AwaitFileList(rx: Rx, chunks: seq<string>): Reading
    decreases |chunks|
  {
    match Pull(ServerSide, rx, chunks)
    case Starved(_) => Ended(Stalled)
    case BadHeader => Ended(Crashed(HeaderUnreadable))
    case Message(p, rest) =>
      match Untag(p)
      case None => Ended(Crashed(Untagged))
      case Some((t, d)) => if t == "filelist" then Got(d) else AwaitFileList(AtStart, rest)
  }

  /** One chunk of the receive loop. */
  lemma AwaitStep(rx: Rx, chunks: seq<string>)
    requires chunks != []
    ensures AwaitFileList(rx, chunks) ==
      match Feed(ServerSide, rx, chunks[0])
      case HeaderError => Ended(Crashed(HeaderUnreadable))
      case Next(next, None) => AwaitFileList(next, chunks[1..])
      case Next(_, Some(p)) =>
        match Untag(p)
        case None => Ended(Crashed(Untagged))
        case Some((t, d)) => if t == "filelist" then Got(d) else AwaitFileList(AtStart, chunks[1..])
  {
  }

  /** The frame asking the client for one file: `'filerequest:' + str([e])`. */
  function RequestFrame(render: Inv -> string, e: Entry): string {
    Frame(Tag("filerequest", render([e])))
  }

  /** The frame that closes the dialogue. */
  function DoneFrame(): string {
    Frame(Tag("sync", "done"))
  }

  function RequestFrames(render: Inv -> string, get: Inv): (r: seq<string>)
    ensures |r| == |get| && forall i :: 0 <= i < |get| ==> r[i] == RequestFrame(render, get[i])
  {
    seq(|get|, i requires 0 <= i < |get| => RequestFrame(render, get[i]))
  }

  /** The folder after `FileServer().receive_file(name, root)` for each
      requested entry in turn: each stores what the upload delivered under
      the entry's name in the server's root. */
  function Received(disk: Disk, root: string, get: Inv, upload: Entry -> Bytes): Disk
    decreases |get|
  {
    if get == [] then disk
    else
      var last := get[|get| - 1];
      Received(disk, root, get[..|get| - 1], upload)[Path(root, last.name) := upload(last)]
  }

  /** The paths under the root that receiving the requested files writes. */
  function Written(root: string, get: Inv): set<Path> {
    set e | e in get :: Path(root, e.name)
  }

  /** Receiving adds a file under the root for each requested name and
      touches nothing else. */
  lemma {:induction false} ReceivedFrame(disk: Disk, root: string, get: Inv, upload: Entry -> Bytes)
    ensures var r := Received(disk, root, get, upload);
      && r.Keys == disk.Keys + Written(root, get)
      && forall q :: q in disk && q !in Written(root, get) ==> r[q] == disk[q]
    decreases |get|
  {
    if get != [] {
      var n := |get| - 1;
      ReceivedFrame(disk, root, get[..n], upload);
      assert get == get[..n] + [get[n]];
      assert Written(root, get) == Written(root, get[..n]) + {Path(root, get[n].name)};
    }
  }

  /** With no name requested twice, each requested name ends up holding
      what the upload of that entry delivered. */
  lemma {:induction false} ReceivedContent(disk: Disk, root: string, get: Inv, upload: Entry -> Bytes)
    requires DistinctNames(get)
    ensures var r := Received(disk, root, get, upload);
      forall i :: 0 <= i < |get| ==> Path(root, get[i].name) in r && r[Path(root, get[i].name)] == upload(get[i])
    decreases |get|
  {
    if get != [] {
      var n := |get| - 1;
      var init := get[..n];
      ReceivedContent(disk, root, init, upload);
      forall i | 0 <= i < n ensures Path(root, get[i].name) != Path(root, get[n].name) && get[i] == init[i] {
      }
    }
  }

  /** What a connection leaves behind: the frames sent, the folder, the
      request list and how it ended. */
  datatype Session = Session(sent: seq<string>, disk: Disk, request: Inv, close: Close)

  /** One connection, given the server's listing of its own folder. */
  function Serve(root: string, listing: Inv, disk: Disk, request: Inv, chunks: seq<string>,
                 parseList: string -> Option<Inv>, render: Inv -> string, upload: Entry -> Bytes): Session
  {
    match AwaitFileList(AtStart, chunks)
    case Ended(c) => Session([], disk, request, c)
    case Got(d) =>
      match parseList(d)
      case None => Session([], disk, request, Crashed(ListUnreadable))
      case Some(files) =>
        var a := Diff(listing, files);
        var o := Apply(disk, root, a.duplicate, a.delete);
        if o.fault.Some? then Session([], o.disk, request, Crashed(FileError(o.fault.value)))
        else Session(RequestFrames(render, a.get) + [DoneFrame()], Received(o.disk, root, a.get, upload), [], Finished)
  }

  /** A connection on which a well-formed list arrives from a client whose
      uploads carry the hashes it reported, served from a flat folder that
      the listing still describes when the list arrives (the listing is
      taken before `accept`, so nothing may change the folder in between),
      with no name listed twice on either side: the
      server asks for exactly the files it lacks, and ends up holding every
      client name with the client's hash and nothing else under its root. */
  lemma ServeSyncs(root: string, listing: Inv, disk: Disk, request: Inv, chunks: seq<string>,
                   parseList: string -> Option<Inv>, render: Inv -> string, upload: Entry -> Bytes,
                   md5: Bytes -> string, client: Inv)
    requires Mirrors(disk, root, listing, md5)
    requires DistinctNames(listing) && DistinctNames(client)
    requires AwaitFileList(AtStart, chunks).Got? && parseList(AwaitFileList(AtStart, chunks).data) == Some(client)
    requires forall e :: e in client ==> md5(upload(e)) == e.hash
    ensures var s := Serve(root, listing, disk, request, chunks, parseList, render, upload);
      && s.close == Finished && s.request == []
      && s.sent == RequestFrames(render, Fetches(listing, client)) + [DoneFrame()]
      && (forall c :: c in client ==> Path(root, c.name) in s.disk && md5(s.disk[Path(root, c.name)]) == c.hash)
      && (forall q :: q in s.disk && q.dir == root ==> HasName(client, q.name))
  {
    var a := Diff(listing, client);
    var o := Apply(disk, root, a.duplicate, a.delete);
    DiffThenApply(disk, root, listing, client, md5);
    ReceiveFills(o.disk, root, listing, client, md5, upload);
    ReceiveAddsClientNames(o.disk, root, listing, client, upload);
  }

  /** Receiving the fetch list fills in every client name the folder still
      lacks with the client's hash, and leaves the others as they were. */
  lemma ReceiveFills(disk: Disk, root: string, server: Inv, client: Inv, md5: Bytes -> string, upload: Entry -> Bytes)
    requires DistinctNames(client)
    requires forall c :: c in client && !NeedsFetch(Classify(server, c)) ==>
      Path(root, c.name) in disk && md5(disk[Path(root, c.name)]) == c.hash
    requires forall e :: e in client ==> md5(upload(e)) == e.hash
    ensures var r := Received(disk, root, Fetches(server, client), upload);
      forall c :: c in client ==> Path(root, c.name) in r && md5(r[Path(root, c.name)]) == c.hash
  {
    var get := Fetches(server, client);
    var r := Received(disk, root, get, upload);
    FetchesDistinct(server, client);
    ReceivedFrame(disk, root, get, upload);
    ReceivedContent(disk, root, get, upload);
    forall c | c in client ensures Path(root, c.name) in r && md5(r[Path(root, c.name)]) == c.hash {
      FetchesMembers(server, client, c);
      if c in get {
        var i :| 0 <= i < |get| && get[i] == c;
      } else {
        forall e | e in get ensures Path(root, e.name) != Path(root, c.name) {
          FetchesMembers(server, client, e);
          var i, j :| 0 <= i < |client| && 0 <= j < |client| && client[i] == e && client[j] == c;
        }
      }
    }
  }

  /** Every file receiving adds carries a client name. */
  lemma ReceiveAddsClientNames(disk: Disk, root: string, server: Inv, client: Inv, upload: Entry -> Bytes)
    requires forall q :: q in disk && q.dir == root ==> HasName(client, q.name)
    ensures var r := Received(disk, root, Fetches(server, client), upload);
      forall q :: q in r && q.dir == root ==> HasName(client, q.name)
  {
    var get := Fetches(server, client);
    var r := Received(disk, root, get, upload);
    ReceivedFrame(disk, root, get, upload);
    forall q | q in r && q.dir == root ensures HasName(client, q.name) {
      if q !in disk {
        var e :| e in get && q == Path(root, e.name);
        FetchesMembers(server, client, e);
        var i :| 0 <= i < |client| && client[i] == e;
      }
    }
  }

  class SyncServer {
    /** `LOCAL_FOLDER`: the folder kept in line with the client. */
    var localFolder: string
    /** `CURRENT_FILE_LIST`: the listing taken when the connection opened. */
    var currentFileList: Inv
    /** `REQUEST_FILE_LIST`: the files still wanted from the client. */
    var requestFileList: Inv
    /** The files on the server's disk. */
    var disk: Disk

    constructor(localFolder: string, disk: Disk)
      ensures this.localFolder == localFolder && this.disk == disk
      ensures currentFileList == [] && requestFileList == []
    {
      this.localFolder := localFolder;
      this.disk := disk;
      currentFileList := [];
      requestFileList := [];
    }

    /** `update`: every copy, then every delete; on success the request
        list becomes the fetch list. A failing copy or delete ends the
        method (the exception) with the disk as it was left. */
    method Update(getFiles: Inv, deleteFiles: Inv, copyRenameFiles: seq<Pair>) returns (fault: Option<Fault>)
      modifies this
      ensures Outcome(disk, fault) == Apply(old(disk), localFolder, copyRenameFiles, deleteFiles)
      ensures requestFileList == if fault.None? then getFiles else old(requestFileList)
      ensures localFolder == old(localFolder) && currentFileList == old(currentFileList)
    {
      var i := 0;
      while i < |copyRenameFiles|
        invariant 0 <= i <= |copyRenameFiles|
        invariant CopyAll(old(disk), localFolder, copyRenameFiles) == CopyAll(disk, localFolder, copyRenameFiles[i..])
        invariant localFolder == old(localFolder) && currentFileList == old(currentFileList)
        invariant requestFileList == old(requestFileList)
      {
        var p := copyRenameFiles[i];
        assert copyRenameFiles[i..][0] == p && copyRenameFiles[i..][1..] == copyRenameFiles[i + 1..];
        var src := Path(localFolder, p.existing);
        if src !in disk {
          return Some(CopySourceMissing(src));
        }
        if p.existing == p.created {
          return Some(CopyOntoItself(src));
        }
        disk := disk[Path(localFolder, p.created) := disk[src]];
        i := i + 1;
      }
      assert copyRenameFiles[i..] == [];
      var k := 0;
      while k < |deleteFiles|
        invariant 0 <= k <= |deleteFiles|
        invariant Apply(old(disk), localFolder, copyRenameFiles, deleteFiles) == RemoveAll(disk, deleteFiles[k..])
        invariant localFolder == old(localFolder) && currentFileList == old(currentFileList)
        invariant requestFileList == old(requestFileList)
      {
        var e := deleteFiles[k];
        assert deleteFiles[k..][0] == e && deleteFiles[k..][1..] == deleteFiles[k + 1..];
        var target := Path(e.location, e.name);
        if target !in disk {
          return Some(RemoveTargetMissing(target));
        }
        disk := disk - {target};
        k := k + 1;
      }
      assert deleteFiles[k..] == [];
      requestFileList := getFiles;
      fault := None;
    }

    /** `compare_client_files_with_local`: the diff of the client's list
        against the current listing, applied by `update`. */
    method CompareClientFilesWithLocal(files: Inv) returns (fault: Option<Fault>)
      modifies this
      ensures var a := Diff(old(currentFileList), files);
        && Outcome(disk, fault) == Apply(old(disk), localFolder, a.duplicate, a.delete)
        && requestFileList == if fault.None? then a.get else old(requestFileList)
      ensures localFolder == old(localFolder) && currentFileList == old(currentFileList)
    {
      var get, delete, duplicate := Compare(currentFileList, files);
      fault := Update(get, delete, duplicate);
    }

    /** `process_file_list_message`: parse the list, then reconcile.
        `None` is a list that `ast.literal_eval` rejects. */
    method ProcessFileListMessage(data: string, parseList: string -> Option<Inv>) returns (r: Option<Option<Fault>>)
      modifies this
      ensures parseList(data).None? ==> r.None? && disk == old(disk) && requestFileList == old(requestFileList)
      ensures parseList(data).Some? <==> r.Some?
      ensures r.Some? ==>
        var a := Diff(old(currentFileList), parseList(data).value);
        && Outcome(disk, r.value) == Apply(old(disk), localFolder, a.duplicate, a.delete)
        && requestFileList == if r.value.None? then a.get else old(requestFileList)
      ensures localFolder == old(localFolder) && currentFileList == old(currentFileList)
    {
      match parseList(data)
      case None =>
        r := None;
      case Some(files) =>
        var fault := CompareClientFilesWithLocal(files);
        r := Some(fault);
    }

    /** The receive loop of `run`: chunks are collected into frames and
        each complete message is split on ':'; the loop ends on the first
        `filelist` message, on a header `int()` cannot read, on a message
        without ':', or, with the data exhausted, waiting in `recv`. */
    method ReceiveFileList(chunks: seq<string>) returns (r: Reading)
      ensures r == AwaitFileList(AtStart, chunks)
    {
      var messageStart := true;
      var messageTotal: string := [];
      var messageLength: int := 0;
      var i := 0;
      while i < |chunks|
        invariant 0 <= i <= |chunks|
        invariant messageStart ==> messageTotal == []
        invariant AwaitFileList(AtStart, chunks) ==
          AwaitFileList(RxOf(messageStart, messageTotal, messageLength), chunks[i..])
      {
        ghost var rx := RxOf(messageStart, messageTotal, messageLength);
        assert chunks[i..][0] == chunks[i] && chunks[i..][1..] == chunks[i + 1..];
        AwaitStep(rx, chunks[i..]);
        var ok, message;
        ok, messageStart, messageTotal, messageLength, message :=
          Accumulate(ServerSide, messageStart, messageTotal, messageLength, chunks[i]);
        if !ok {
          return Ended(Crashed(HeaderUnreadable));
        }
        i := i + 1;
        if message.Some? {
          var tagged := Untag(message.value);
          if tagged.None? {
            return Ended(Crashed(Untagged));
          }
          if tagged.value.0 == "filelist" {
            return Got(tagged.value.1);
          }
        }
      }
      return Ended(Stalled);
    }

    /** The request loop of `run`: one `filerequest` frame per wanted file,
        in order, each followed by storing that file's upload under its name
        in the root; then `sync:done`, and the request list is cleared. */
    method SendRequests(render: Inv -> string, upload: Entry -> Bytes) returns (sent: seq<string>)
      modifies this`disk, this`requestFileList
      ensures sent == RequestFrames(render, old(requestFileList)) + [DoneFrame()]
      ensures disk == Received(old(disk), localFolder, old(requestFileList), upload)
      ensures requestFileList == []
    {
      sent := [];
      var k := 0;
      while k < |requestFileList|
        invariant 0 <= k <= |requestFileList|
        invariant requestFileList == old(requestFileList)
        invariant sent == RequestFrames(render, requestFileList[..k])
        invariant disk == Received(old(disk), localFolder, requestFileList[..k], upload)
      {
        var e := requestFileList[k];
        sent := sent + [RequestFrame(render, e)];
        disk := disk[Path(localFolder, e.name) := upload(e)];
        assert requestFileList[..k + 1][..k] == requestFileList[..k];
        k := k + 1;
      }
      assert requestFileList[..k] == requestFileList;
      requestFileList := [];
      sent := sent + [DoneFrame()];
    }

    /** The body of `run` for one accepted connection: take the listing,
        receive until a `filelist` message, reconcile, request the missing
        files and close the dialogue. */
    method ServeConnection(listing: Inv, chunks: seq<string>, parseList: string -> Option<Inv>,
                           render: Inv -> string, upload: Entry -> Bytes)
      returns (sent: seq<string>, close: Close)
      modifies this
      ensures Session(sent, disk, requestFileList, close) ==
        Serve(localFolder, listing, old(disk), old(requestFileList), chunks, parseList, render, upload)
      ensures localFolder == old(localFolder) && currentFileList == listing
    {
      currentFileList := listing;
      sent := [];
      var reading := ReceiveFileList(chunks);
      if reading.Ended? {
        close := reading.close;
        return;
      }
      var r := ProcessFileListMessage(reading.data, parseList);
      if r.None? {
        close := Crashed(ListUnreadable);
        return;
      }
      if r.value.Some? {
        close := Crashed(FileError(r.value.value));
        return;
      }
      sent := SendRequests(render, upload);
      close := Finished;
    }
  }
}
