/** `SyncClient`: one run of the client. It connects, sends its inventory
    as a `filelist` message, and then reads the server's messages: each
    `filerequest` names a file to upload over the separate file channel,
    `sync` ends the dialogue and closes the socket, and any other type is
    skipped. The listing that `read_local_storage` produces, `str()` of a
    list and `ast.literal_eval` are parameters; an upload is recorded as
    the (folder, name) pair handed to `FileClient().send_file`. */
module Client {
  import opened Common
  import opened Inventory
  import opened Framing
  import opened Tagging

  /** Why the client process dies. */
  datatype Crash =
    | HeaderUnreadable       // `int()` on a frame header raises, an empty chunk included
    | Untagged               // a message without ':' makes `split(':')[1]` raise
    | RequestUnreadable      // `ast.literal_eval` or the `[0][0]`/`[0][1]` indexing raises

  /** How a run ends for the client. */
  datatype End =
    | Synced                 // `sync` received, socket closed
    | Stalled                // still waiting in `recv` when the data runs out
    | Crashed(why: Crash)

  /** The uploads a run starts, in order, and how it ends. */
  datatype Conversation = Conversation(uploads: seq<(string, string)>, end: End)

  /** `process_file_request_message` up to the upload: the folder and name
      of the requested file, or `None` where parsing or indexing raises. */
  function Target(data: string, parseRequest: string -> Option<seq<seq<string>>>): Option<(string, string)> {
    match parseRequest(data)
    case None => None
    case Some(v) => RequestTarget(v)
  }

  /** What one complete message makes the client do: stop the loop, or
      go on reading, having started an upload or not. */
  datatype Reaction = Stop(end: End) | Proceed(upload: Option<(string, string)>)

  /** The dispatch on one complete message. */
  function React(message: string, parseRequest: string -> Option<seq<seq<string>>>): Reaction {
    match ClientCommand(message)
    case None => Stop(Crashed(Untagged))
    case Some(SyncDone) => Stop(Synced)
    case Some(Ignore) => Proceed(None)
    case Some(FetchRequest(d)) =>
      match Target(d, parseRequest)
      case None => Stop(Crashed(RequestUnreadable))
      case Some(t) => Proceed(Some(t))
  }

  function UploadOf(u: Option<(string, string)>): seq<(string, string)> {
    if u.Some? then [u.value] else []
  }

  /** The client's receive loop from receiver state `rx`, chunk by chunk,
      after the uploads `done`. */
  function Converse(rx: Rx, chunks: seq<string>, parseRequest: string -> Option<seq<seq<string>>>,
                    done: seq<(string, string)>): Conversation
    decreases |chunks|
  {
    if chunks == [] then Conversation(done, Stalled)
    else match Feed(ClientSide, rx, chunks[0])
      case HeaderError => Conversation(done, Crashed(HeaderUnreadable))
      case Next(next, None) => Converse(next, chunks[1..], parseRequest, done)
      case Next(_, Some(m)) =>
        match React(m, parseRequest)
        case Stop(e) => Conversation(done, e)
        case Proceed(u) => Converse(AtStart, chunks[1..], parseRequest, done + UploadOf(u))
  }

  /** The same loop read message by message: what the client does is
      decided by the messages that the framing delivers. */
  lemma {:induction false} ConverseByMessage(rx: Rx, chunks: seq<string>, parseRequest: string -> Option<seq<seq<string>>>,
                                             done: seq<(string, string)>)
    ensures Converse(rx, chunks, parseRequest, done) ==
      match Pull(ClientSide, rx, chunks)
      case Starved(_) => Conversation(done, Stalled)
      case BadHeader => Conversation(done, Crashed(HeaderUnreadable))
      case Message(m, rest) =>
        match React(m, parseRequest)
        case Stop(e) => Conversation(done, e)
        case Proceed(u) => Converse(AtStart, rest, parseRequest, done + UploadOf(u))
    decreases |chunks|
  {
    if chunks != [] {
      match Feed(ClientSide, rx, chunks[0])
      case HeaderError =>
      case Next(next, None) => ConverseByMessage(next, chunks[1..], parseRequest, done);
      case Next(_, Some(m)) =>
    }
  }

  /** The client's reaction to each message of a list, in order. */
  function Reactions(messages: seq<string>, parseRequest: string -> Option<seq<seq<string>>>): (r: seq<Reaction>)
    ensures |r| == |messages| && forall i :: 0 <= i < |messages| ==> r[i] == React(messages[i], parseRequest)
  {
    seq(|messages|, i requires 0 <= i < |messages| => React(messages[i], parseRequest))
  }

  /** Where a run of reactions leads: it goes on up to the first `Stop`,
      and past the last message ends as the stream carrying them did. */
  function Settle(reactions: seq<Reaction>, ending: Ending, done: seq<(string, string)>): Conversation
    decreases |reactions|
  {
    if reactions == [] then
      Conversation(done, if ending == Broken then Crashed(HeaderUnreadable) else Stalled)
    else match reactions[0]
      case Stop(e) => Conversation(done, e)
      case Proceed(u) => Settle(reactions[1..], ending, done + UploadOf(u))
  }

  /** The client reacts to the messages the framing delivers, one after the
      other, and to nothing else about the chunks. */
  lemma {:induction false} ConverseReadsMessages(chunks: seq<string>, parseRequest: string -> Option<seq<seq<string>>>,
                                                 done: seq<(string, string)>)
    ensures var (messages, ending) := ReadAll(ClientSide, chunks);
      Converse(AtStart, chunks, parseRequest, done) == Settle(Reactions(messages, parseRequest), ending, done)
    decreases |chunks|
  {
    ConverseByMessage(AtStart, chunks, parseRequest, done);
    match Pull(ClientSide, AtStart, chunks)
    case Starved(_) =>
    case BadHeader =>
    case Message(m, rest) =>
      var (ms, e) := ReadAll(ClientSide, rest);
      assert ReadAll(ClientSide, chunks) == ([m] + ms, e);
      assert Reactions([m] + ms, parseRequest)[1..] == Reactions(ms, parseRequest);
      match React(m, parseRequest)
      case Stop(_) =>
      case Proceed(u) => ConverseReadsMessages(rest, parseRequest, done + UploadOf(u));
  }

  /** Reactions that each start one upload, followed by one that stops the
      client: the client makes exactly those uploads, in order, and ends as
      the last one says. */
  lemma {:induction false} UploadsThenStop(reactions: seq<Reaction>, targets: seq<(string, string)>, e: End,
                                           ending: Ending, done: seq<(string, string)>)
    requires |reactions| == |targets| + 1
    requires forall i :: 0 <= i < |targets| ==> reactions[i] == Proceed(Some(targets[i]))
    requires reactions[|targets|] == Stop(e)
    ensures Settle(reactions, ending, done) == Conversation(done + targets, e)
    decreases |targets|
  {
    if targets == [] {
      assert done + targets == done;
    } else {
      forall i | 0 <= i < |targets[1..]| ensures reactions[1..][i] == Proceed(Some(targets[1..][i])) {
        assert reactions[1..][i] == reactions[i + 1] && targets[1..][i] == targets[i + 1];
      }
      assert reactions[1..][|targets[1..]|] == reactions[|targets|];
      UploadsThenStop(reactions[1..], targets[1..], e, ending, done + [targets[0]]);
      assert done + [targets[0]] + targets[1..] == done + targets;
    }
  }

  class SyncClient {
    /** `LOCAL_FOLDER`: the folder whose contents the server mirrors. */
    var localFolder: string
    /** `CURRENT_FILE_LIST`: the listing sent to the server. */
    var currentFileList: Inv
    /** Whether `SOCKET` is connected to the server. */
    var connected: bool
    /** Frames written to the control socket. */
    var outbox: seq<string>
    /** The (folder, name) of each file handed to `FileClient().send_file`. */
    var uploads: seq<(string, string)>

    constructor(localFolder: string)
      ensures this.localFolder == localFolder
      ensures currentFileList == [] && !connected && outbox == [] && uploads == []
    {
      this.localFolder := localFolder;
      currentFileList := [];
      connected := false;
      outbox := [];
      uploads := [];
    }

    /** `send_initial_file_list_to_server`: record the listing and send it
        as one `filelist` frame. */
    method SendInitialFileListToServer(listing: Inv, render: Inv -> string)
      modifies this`currentFileList, this`outbox
      ensures currentFileList == listing
      ensures outbox == old(outbox) + [Frame(Tag("filelist", render(listing)))]
    {
      currentFileList := listing;
      var data := "filelist:" + render(currentFileList);
      assert data == Tag("filelist", render(listing));
      outbox := outbox + [Header(|data|) + data];
    }

    /** `process_file_request_message`: upload the file named by element
        `[0][1]` from the folder in element `[0][0]`; `false` where the
        parse or the indexing raises. */
    method ProcessFileRequestMessage(data: string, parseRequest: string -> Option<seq<seq<string>>>) returns (ok: bool)
      modifies this`uploads
      ensures ok <==> Target(data, parseRequest).Some?
      ensures uploads == if ok then old(uploads) + [Target(data, parseRequest).value] else old(uploads)
    {
      var fileData := parseRequest(data);
      if fileData.None? || |fileData.value| == 0 || |fileData.value[0]| < 2 {
        return false;
      }
      var fileName := fileData.value[0][1];
      uploads := uploads + [(fileData.value[0][0], fileName)];
      ok := true;
    }

    /** The dispatch on one complete message: split it on ':', upload on
        `filerequest`, stop on `sync`, skip anything else. */
    method HandleMessage(message: string, parseRequest: string -> Option<seq<seq<string>>>)
      returns (reaction: Reaction)
      modifies this`uploads
      ensures reaction == React(message, parseRequest)
      ensures uploads == old(uploads) + if reaction.Proceed? then UploadOf(reaction.upload) else []
    {
      var tagged := Untag(message);
      if tagged.None? {
        return Stop(Crashed(Untagged));
      }
      var messageType, messageData := tagged.value.0, tagged.value.1;
      if messageType == "filerequest" {
        var ok := ProcessFileRequestMessage(messageData, parseRequest);
        if !ok {
          return Stop(Crashed(RequestUnreadable));
        }
        reaction := Proceed(Target(messageData, parseRequest));
      } else if messageType == "sync" {
        reaction := Stop(Synced);
      } else {
        reaction := Proceed(None);
      }
    }

    /** One pass of the receive loop: the chunk goes into the frame being
        collected and a completed message is handled. `more` is whether the
        loop goes on, and `end` how it stopped where it does not. */
    method ReceiveChunk(messageStart: bool, messageTotal: string, messageLength: int, chunk: string,
                        rest: seq<string>, parseRequest: string -> Option<seq<seq<string>>>)
      returns (more: bool, end: End, start: bool, total: string, length: int)
      requires messageStart ==> messageTotal == []
      modifies this`uploads
      ensures start ==> total == []
      ensures Converse(RxOf(messageStart, messageTotal, messageLength), [chunk] + rest, parseRequest, old(uploads)) ==
        if more then Converse(RxOf(start, total, length), rest, parseRequest, uploads)
        else Conversation(uploads, end)
    {
      assert ([chunk] + rest)[0] == chunk && ([chunk] + rest)[1..] == rest;
      var ok, message;
      ok, start, total, length, message := Accumulate(ClientSide, messageStart, messageTotal, messageLength, chunk);
      if !ok {
        return false, Crashed(HeaderUnreadable), start, total, length;
      }
      more, end := true, Stalled;
      if message.Some? {
        var reaction := HandleMessage(message.value, parseRequest);
        if reaction.Stop? {
          more, end := false, reaction.end;
        }
      }
    }

    /** The receive loop of `run`: chunks are collected into frames and
        each complete message is split on ':' and dispatched, until `sync`
        arrives, a header or message cannot be read, or the data runs out. */
    method ReceiveLoop(chunks: seq<string>, parseRequest: string -> Option<seq<seq<string>>>) returns (end: End)
      modifies this`uploads
      ensures Conversation(uploads, end) == Converse(AtStart, chunks, parseRequest, old(uploads))
    {
      ghost var whole := Converse(AtStart, chunks, parseRequest, old(uploads));
      var messageStart := true;
      var messageTotal: string := [];
      var messageLength: int := 0;
      var i := 0;
      while i < |chunks|
        invariant 0 <= i <= |chunks|
        invariant messageStart ==> messageTotal == []
        invariant whole == Converse(RxOf(messageStart, messageTotal, messageLength), chunks[i..], parseRequest, uploads)
      {
        assert chunks[i..] == [chunks[i]] + chunks[i + 1..];
        var more;
        more, end, messageStart, messageTotal, messageLength :=
          ReceiveChunk(messageStart, messageTotal, messageLength, chunks[i], chunks[i + 1..], parseRequest);
        if !more {
          return;
        }
        i := i + 1;
      }
      return Stalled;
    }

    /** `run`: connect, send the inventory once, then handle the server's
        messages until `sync` and close the socket. The outer loop ends
        after this one pass. */
    method Run(listing: Inv, chunks: seq<string>, render: Inv -> string,
               parseRequest: string -> Option<seq<seq<string>>>) returns (end: End)
      modifies this
      ensures outbox == old(outbox) + [Frame(Tag("filelist", render(listing)))]
      ensures currentFileList == listing
      ensures Conversation(uploads, end) == Converse(AtStart, chunks, parseRequest, old(uploads))
      ensures connected <==> end != Synced
      ensures localFolder == old(localFolder)
    {
      connected := true;
      SendInitialFileListToServer(listing, render);
      end := ReceiveLoop(chunks, parseRequest);
      if end == Synced {
        connected := false;
      }
    }
  }
}
