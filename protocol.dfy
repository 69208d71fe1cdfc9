/** The two programs talking to each other over the control channel: what
    the client writes, the server reads, and the other way round, when the
    socket hands over each frame in chunks that respect frame boundaries. */
module Protocol {
  import opened Common
  import opened Inventory
  import opened Reconcile
  import opened Storage
  import opened Framing
  import opened Tagging
  import Server
  import Client

  /** The client's `filelist` frame, however it is cut into chunks with the
      header in the first one, reaches the server's receive loop as the
      rendered list, whatever follows it on the socket. */
  lemma FileListArrives(listing: Inv, render: Inv -> string, chunks: seq<string>, rest: seq<string>)
    requires ':' !in render(listing)
    requires |Tag("filelist", render(listing))| < Pow10(HeaderWidth)
    requires Chunking(chunks, Frame(Tag("filelist", render(listing))))
    ensures Server.AwaitFileList(AtStart, chunks + rest) == Server.Got(render(listing))
  {
    var p := Tag("filelist", render(listing));
    FrameRoundTrip(ServerSide, p, chunks, rest);
    TagRoundTrip("filelist", render(listing));
  }

  /** The (folder, name) pairs the client uploads for a list of requests. */
  function Uploaded(get: Inv): (r: seq<(string, string)>)
    ensures |r| == |get| && forall i :: 0 <= i < |get| ==> r[i] == (get[i].location, get[i].name)
  {
    seq(|get|, i requires 0 <= i < |get| => (get[i].location, get[i].name))
  }

  /** What the client needs of `str()` and `ast.literal_eval` for one
      request: the rendered one-entry list has no ':' (which the split would
      cut at), fits the header, and parses back to the entry's fields. */
  predicate Requestable(render: Inv -> string, parseRequest: string -> Option<seq<seq<string>>>, e: Entry) {
    && ':' !in render([e])
    && |Tag("filerequest", render([e]))| < Pow10(HeaderWidth)
    && parseRequest(render([e])) == Some([Fields(e)])
  }

  /** The payloads of the server's frames: one request per wanted file,
      then `sync:done`. */
  function Payloads(render: Inv -> string, get: Inv): (r: seq<string>)
    ensures |r| == |get| + 1 && r[|get|] == Tag("sync", "done")
    ensures forall i :: 0 <= i < |get| ==> r[i] == Tag("filerequest", render([get[i]]))
    decreases |get|
  {
    if get == [] then [Tag("sync", "done")]
    else [Tag("filerequest", render([get[0]]))] + Payloads(render, get[1..])
  }

  /** A request for a requestable entry makes the client upload that
      entry's file and go on; `sync:done` stops it, synced. */
  lemma RequestReactions(e: Entry, render: Inv -> string, parseRequest: string -> Option<seq<seq<string>>>)
    requires Requestable(render, parseRequest, e)
    ensures Client.React(Tag("filerequest", render([e])), parseRequest) == Client.Proceed(Some((e.location, e.name)))
    ensures Client.React(Tag("sync", "done"), parseRequest) == Client.Stop(Client.Synced)
  {
    ClientCommandOfTagged("filerequest", render([e]));
    ClientCommandOfTagged("sync", "done");
    RequestTargetOfEntry(e);
  }

  /** Reacting to those payloads, the client uploads each requested file
      in order and stops, synced. */
  lemma ClientAnswersRequests(get: Inv, render: Inv -> string, ending: Ending,
                              parseRequest: string -> Option<seq<seq<string>>>)
    requires forall e :: e in get ==> Requestable(render, parseRequest, e)
    ensures Client.Settle(Client.Reactions(Payloads(render, get), parseRequest), ending, []) ==
      Client.Conversation(Uploaded(get), Client.Synced)
  {
    var rs, targets := Client.Reactions(Payloads(render, get), parseRequest), Uploaded(get);
    forall i | 0 <= i < |targets| ensures rs[i] == Client.Proceed(Some(targets[i])) {
      assert get[i] in get;
      RequestReactions(get[i], render, parseRequest);
    }
    ClientCommandOfTagged("sync", "done");
    Client.UploadsThenStop(rs, targets, Client.Synced, ending, []);
    assert [] + targets == targets;
  }

  /** Every payload fits the header: the requests because the entries are
      requestable, `sync:done` because it is short. */
  lemma PayloadsFit(get: Inv, render: Inv -> string, parseRequest: string -> Option<seq<seq<string>>>)
    requires forall e :: e in get ==> Requestable(render, parseRequest, e)
    ensures forall k :: 0 <= k < |Payloads(render, get)| ==> |Payloads(render, get)[k]| < Pow10(HeaderWidth)
  {
    var ps := Payloads(render, get);
    PowAtLeastTen(HeaderWidth);
    forall k | 0 <= k < |get| ensures |ps[k]| < Pow10(HeaderWidth) {
      assert get[k] in get;
    }
  }

  /** The server's request frames followed by `sync:done`, each delivered in
      chunks of its own, make the client upload each requested file in
      order and then stop, synced. */
  lemma ClientServesRequests(get: Inv, cuts: seq<seq<string>>, render: Inv -> string,
                             parseRequest: string -> Option<seq<seq<string>>>)
    requires |cuts| == |get| + 1
    requires forall k :: 0 <= k < |cuts| ==> Chunking(cuts[k], Frame(Payloads(render, get)[k]))
    requires forall e :: e in get ==> Requestable(render, parseRequest, e)
    ensures Client.Converse(AtStart, Flatten(cuts), parseRequest, []) ==
      Client.Conversation(Uploaded(get), Client.Synced)
  {
    var ps := Payloads(render, get);
    PayloadsFit(get, render, parseRequest);
    FramesRoundTrip(ClientSide, ps, cuts);
    Client.ConverseReadsMessages(Flatten(cuts), parseRequest, []);
    ClientAnswersRequests(get, render, Waiting(AtStart), parseRequest);
  }

  /** The server's frames are the payloads, framed. */
  lemma SentFramesPayloads(render: Inv -> string, get: Inv)
    ensures |Server.RequestFrames(render, get) + [Server.DoneFrame()]| == |Payloads(render, get)|
    ensures forall k :: 0 <= k < |Payloads(render, get)| ==>
      (Server.RequestFrames(render, get) + [Server.DoneFrame()])[k] == Frame(Payloads(render, get)[k])
  {
  }

  /** One whole dialogue. The client's list reaches a server whose folder
      its listing still describes; the server asks for the files it lacks and
      stores their uploads; the client, reading the server's frames, uploads
      exactly those files in the server's order and ends synced. Afterwards
      the server's root holds every client name with the client's hash and
      nothing else. */
  lemma Dialogue(root: string, listing: Inv, disk: Disk, request: Inv, client: Inv,
                 toServer: seq<string>, parseList: string -> Option<Inv>, render: Inv -> string,
                 upload: Entry -> Bytes, md5: Bytes -> string,
                 cuts: seq<seq<string>>, parseRequest: string -> Option<seq<seq<string>>>)
    requires Mirrors(disk, root, listing, md5)
    requires DistinctNames(listing) && DistinctNames(client)
    requires ':' !in render(client) && |Tag("filelist", render(client))| < Pow10(HeaderWidth)
    requires Chunking(toServer, Frame(Tag("filelist", render(client))))
    requires parseList(render(client)) == Some(client)
    requires forall e :: e in client ==> md5(upload(e)) == e.hash && Requestable(render, parseRequest, e)
    requires |cuts| == |Server.Serve(root, listing, disk, request, toServer, parseList, render, upload).sent|
    requires forall i :: 0 <= i < |cuts| ==>
      Chunking(cuts[i], Server.Serve(root, listing, disk, request, toServer, parseList, render, upload).sent[i])
    ensures var s := Server.Serve(root, listing, disk, request, toServer, parseList, render, upload);
      && s.close == Server.Finished
      && Client.Converse(AtStart, Flatten(cuts), parseRequest, []) ==
           Client.Conversation(Uploaded(Fetches(listing, client)), Client.Synced)
      && (forall c :: c in client ==> Path(root, c.name) in s.disk && md5(s.disk[Path(root, c.name)]) == c.hash)
      && (forall q :: q in s.disk && q.dir == root ==> HasName(client, q.name))
  {
    FileListArrives(client, render, toServer, []);
    assert toServer + [] == toServer;
    Server.ServeSyncs(root, listing, disk, request, toServer, parseList, render, upload, md5, client);
    var s := Server.Serve(root, listing, disk, request, toServer, parseList, render, upload);
    var get := Fetches(listing, client);
    forall e | e in get ensures Requestable(render, parseRequest, e) {
      FetchesMembers(listing, client, e);
    }
    SentFramesPayloads(render, get);
    ClientServesRequests(get, cuts, render, parseRequest);
  }
}
