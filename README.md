# server-sync, modelled in Dafny

server-sync keeps a folder on a server in line with a folder on a client.
The client connects, sends its inventory (a list of `[root, name, md5]`
triples) as a `filelist` message, and the server reconciles that list with
its own listing: it decides which files to fetch from the client, which of
its own files to delete, and which of its files to copy under a new name
because the client has the same bytes under that name. It then copies and
deletes on its disk, asks for each missing file with a `filerequest`
message, receives each upload, sends `sync:done`, and closes the
connection. Control messages travel as frames: a 10-character,
left-justified decimal length header followed by the message.

The model covers:

- **Reconciliation** (`reconcile.dfy`). `Reconcile.Compare` is the
  source's loop nest over the two inventories. It is proved equal to `Diff`,
  which is built from recursive specification functions (`Fetches`,
  `Stale`, `Copies`, `Orphans`). Lemmas state what each list holds. They
  also prove three further facts: a tree diffed against itself yields
  nothing when no basename repeats; every delete and copy is sound; and the
  location field never influences the result.
- **The disk effects of `update`** (`storage.dfy`). The disk is a map from
  (directory, name) to bytes. Copies run first, joined with the root folder,
  then deletes, joined with each entry's own directory. The first missing
  file stops the run. `Storage.DiffThenApply` proves that on a flat tree
  with distinct names, the diff's copies and deletes never fail. Afterwards
  the root holds exactly the client's names, minus the ones still to be
  fetched.
- **Framing** (`framing.dfy`). The header is built with `f"{n:<10}"` and
  read back with `int(data[:10])`, including `int()`'s whitespace and
  underscore rules. One pass of the receive loop is the method
  `Framing.Accumulate`, called by both programs' loops
  (`Server.SyncServer.ReceiveFileList` and `Client.SyncClient.ReceiveChunk`)
  and specified by the function `Framing.Feed`. Lemmas cover:
  - frames arriving intact under any chunking that keeps the header in the
    first chunk;
  - stalls when the socket hands over more than one frame at once;
  - a client crash on an empty chunk, which the server skips.
- **Message tagging** (`tagging.dfy`). `str.split(':')` is modelled with
  fields 0 and 1. Data holding a ':' arrives truncated, and a message with
  no ':' crashes the receiver. The client's dispatch acts on `filerequest`
  and `sync` and ignores everything else.
- **The server** (`server.dfy`). `Server.SyncServer` is a class holding
  `LOCAL_FOLDER`, `CURRENT_FILE_LIST`, `REQUEST_FILE_LIST` and the disk.
  Its methods are proved against the functions above. `Server.Serve` is
  one connection as a function, and `Server.ServeSyncs` is what a
  well-formed connection achieves.
- **The client** (`client.dfy`). `Client.SyncClient` is a class that
  sends its list once, handles requests, and stops at `sync`.
  `Client.Converse` is its receive loop as a function.
- **The whole dialogue** (`protocol.dfy`). `Protocol.Dialogue` joins the
  two programs end to end. The client's list reaches the server. The
  server's frames make the client upload exactly the fetch list, in order,
  and end synced. The server then holds every client name with the
  client's hash, and nothing else, under its root.
- **The integration tests' situations** (`scenarios.dfy`), as concrete
  diffs.

Everything the programs get from outside is a parameter:
- `read_local_storage` and `md5` (`listing`, `md5`);
- `ast.literal_eval` (`parseList`, `parseRequest`);
- `str()` of a list (`render`);
- the bytes each upload delivers (`upload`);
- the chunks each `recv` returns (`chunks`).

## Model

| member | source | states |
|---|---|---|
| Inventory.FirstNamed | server-sync.py:235-247 | the name scan finds an entry iff one has that name, and then the first one |
| Inventory.FirstHashed | server-sync.py:252-259 | the hash scan finds an entry iff one has that hash, and then the first one |
| Reconcile.ClassifyMeaning | server-sync.py:232-262 | each client entry is Unchanged, Modified or Copied exactly when the first name match (or, failing that, the first hash match) says so, and Missing when neither name nor hash is on the server |
| Reconcile.ScanName | server-sync.py:235-247 | the inner name loop finds a match iff the server has that name, stopping at the first |
| Reconcile.ScanHash | server-sync.py:252-259 | the inner md5 loop finds a match iff the server has that hash, stopping at the first |
| Reconcile.Compare | server-sync.py:215-277 | the loop nest computes exactly `Diff`: fetches, stale and orphan deletes, copies |
| Reconcile.OrphanPass | server-sync.py:266-275 | the second pass collects exactly the orphans |
| Reconcile.ExtendFirstPass | server-sync.py:232-262 | one more client entry appends its own contribution to each first-pass list |
| Reconcile.FetchesMembers | server-sync.py:232-262 | an entry is fetched iff it is a client entry whose verdict is Modified or Missing |
| Reconcile.FetchesDistinct | server-sync.py:232-262 | the fetch list repeats no name when the client list does not |
| Reconcile.StaleMembers | server-sync.py:236-245 | a server entry is deleted by the first pass iff it is the stale entry of some client entry's Modified verdict |
| Reconcile.CopiesMembers | server-sync.py:251-259 | a copy pair exists iff some client entry's verdict is Copied from that source, to that entry's name |
| Reconcile.OrphansMembers | server-sync.py:266-275 | a server entry is an orphan iff no client entry has its name |
| Reconcile.FirstPassQuiet | server-sync.py:232-262 | client entries that are all Unchanged produce no fetch, stale delete or copy |
| Reconcile.NoOrphans | server-sync.py:266-275 | when the client has every server name there is no orphan |
| Reconcile.SelfDiffEmpty | server-sync.py:215-277 | a tree without repeated basenames diffed against itself gives three empty lists |
| Reconcile.SelfDiffRepeatedName | server-sync.py:235-247 | with a repeated basename the self-diff fetches the second entry and deletes the first |
| Reconcile.DeleteSound | server-sync.py:232-275 | every deleted entry is a server entry, either unnamed by the client or replaced by a fetched entry of the same name and another hash |
| Reconcile.DuplicateSound | server-sync.py:251-259 | every copy reads an existing server name with the client entry's hash and writes a name the server lacks |
| Reconcile.FetchDespiteHashElsewhere | server-sync.py:236-262 | a modified file is fetched even when the server holds its new hash under another name |
| Reconcile.ClassifyErase | server-sync.py:236-255 | the verdict does not depend on any entry's location |
| Reconcile.FetchesErase | server-sync.py:232-262 | the fetch list does not depend on locations beyond carrying them along |
| Reconcile.StaleErase | server-sync.py:236-245 | the stale deletes do not depend on locations beyond carrying them along |
| Reconcile.CopiesErase | server-sync.py:251-259 | the copy pairs do not depend on locations |
| Reconcile.OrphansErase | server-sync.py:266-275 | the orphans do not depend on locations beyond carrying them along |
| Reconcile.DiffIgnoresLocation | server-sync.py:215-277 | two trees that differ only in locations give the same diff up to locations |
| Storage.Copy | server-sync.py:293 | a copy succeeds iff its source exists in the root folder and the new name differs from it, and then writes the source's bytes under the new name in the root folder; an existing source copied onto itself raises `SameFileError`; a failed copy changes nothing |
| Storage.Remove | server-sync.py:298 | a delete succeeds iff the file exists at the entry's own location, and removes exactly that path |
| Storage.RemoveAllExact | server-sync.py:296-298 | the delete loop succeeds iff its paths are distinct and all exist, and then removes exactly those paths |
| Storage.CopyAllExact | server-sync.py:291-293 | independent copies from existing sources onto other names succeed, give each new name its source's bytes, and change nothing else |
| Storage.RenameKeepsContent | server-sync.py:279-298 | a rename (copy a to b, delete a) leaves b with a's bytes and a gone, because copies run first |
| Storage.DeleteFirstLosesRename | server-sync.py:281-283 | with deletes first, the rename's copy would find no source |
| Storage.NestedSourceNotFound | server-sync.py:293 | a copy source outside the root folder is not found, since the copy looks for it in the root |
| Storage.RemoveTwiceFails | server-sync.py:296-298 | deleting the same entry twice always raises, on the second removal or on the first |
| Storage.RepeatedClientNameDiff | server-sync.py:236-247 | two client entries of one basename, both differing from the server's file of that name, each fetch and each mark that file for deletion |
| Storage.RepeatedClientNameCrashes | server-sync.py:236-298 | one basename in two client folders, both with another hash than the server's file of that name, deletes that server file twice, and the second `os.remove` raises on any disk |
| Storage.CopiesCreateDistinct | server-sync.py:251-259 | no two copies write the same name when the client list repeats no name |
| Storage.CopySource | server-sync.py:251-259 | each copy comes from a client entry whose hash is first found at the copy's source |
| Storage.StaleNamed | server-sync.py:236-245 | each stale delete is a server entry named by a Modified client entry |
| Storage.StaleDistinct | server-sync.py:236-245 | the stale deletes repeat no name when the client list does not |
| Storage.OrphansDistinct | server-sync.py:266-275 | the orphans repeat no name when the server list does not |
| Storage.DeletesDistinct | server-sync.py:232-275 | the whole delete list repeats no name |
| Storage.DiffCopiesSafe | server-sync.py:291-293 | on a mirrored flat tree every copy source exists, no target is a server name (so none is its own source), and copies are independent |
| Storage.DiffDeletesSafe | server-sync.py:296-298 | on a mirrored flat tree every delete names a distinct existing file the client no longer has with that hash |
| Storage.ApplyCompletes | server-sync.py:279-298 | the diff's copies and deletes run without a fault |
| Storage.ClientEntryFetched | server-sync.py:279-298 | after the update, a name still to be fetched is absent from the root |
| Storage.ClientEntryKept | server-sync.py:279-298 | after the update, a name not to be fetched is present with the client's hash |
| Storage.StrayCheck | server-sync.py:264-298 | a file surviving the update under the root has a client name |
| Storage.NoStrayFiles | server-sync.py:264-298 | after the update every file under the root has a client name |
| Storage.DiffThenApply | server-sync.py:215-301 | diff then update succeeds; every client name not fetched holds the client's hash, every fetched name is absent, nothing else remains |
| Framing.Decimal | server-sync.py:183 | the numeral is non-empty and all digits |
| Framing.LeftJustify | server-sync.py:183 | the padded text starts with the input, is at least the width, and the padding is spaces |
| Framing.TrimLeftMeaning | server-sync.py:143 | `int()` strips exactly the leading whitespace |
| Framing.TrimRightMeaning | server-sync.py:143 | `int()` strips exactly the trailing whitespace |
| Framing.DigitRunMeaning | server-sync.py:143 | a digit run starts with a digit, and each underscore in it is followed by a digit |
| Framing.DecimalWidth | server-sync.py:183 | the length fits in 10 digits iff it is below 10^10 |
| Framing.HeaderExactWidth | server-sync.py:183 | the header is exactly 10 characters iff the length is below 10^10 |
| Framing.RunValueDecimal | server-sync.py:143 | the decimal numeral of a length is a digit run denoting that length |
| Framing.TrimPadding | server-sync.py:143 | the header's space padding is stripped back off |
| Framing.ParseUnsigned | server-sync.py:143 | `int()` of a padded digit run is its value |
| Framing.HeaderParses | server-sync.py:143 | `int()` reads back every header written by the sender |
| Framing.EmptyIsNoNumber | client-sync.py:133-134 | an empty header is no number |
| Framing.Accumulate | server-sync.py:141-162 | one `recv` of the receive loop, called by both programs (the client's is client-sync.py:133-153): it fails iff `int()` of the header fails, otherwise it moves to the next receiver state and yields a message when the frame completes |
| Framing.Collecting | server-sync.py:150-154 | the rest of a frame, in non-empty chunks, completes exactly the payload and leaves what follows untouched |
| Framing.HeaderChunk | server-sync.py:142-147 | a first chunk holding the whole header starts collecting with the payload's length |
| Framing.FrameRoundTrip | server-sync.py:138-163 | a frame whose payload fits the header arrives intact however it is chunked, provided the first chunk holds the header |
| Framing.FramesRoundTrip | client-sync.py:130-153 | back-to-back frames, each chunked on its own, arrive as exactly their payloads in order |
| Framing.OvershootStalls | server-sync.py:154 | once more than the frame has been collected, the loop waits forever |
| Framing.CoalescedFramesStall | server-sync.py:154 | a chunk that holds a frame and the start of the next delivers neither |
| Framing.ClientEmptyChunkBreaks | client-sync.py:132-134 | an empty chunk where a header is due crashes the client |
| Framing.ServerSkipsEmptyChunk | server-sync.py:141 | the server ignores empty chunks |
| Tagging.FirstColon | server-sync.py:166 | finds the first ':' if there is one, and reports none only when there is no ':' |
| Tagging.SplitFields | server-sync.py:166-168 | no field of `split(':')` contains ':' |
| Tagging.SplitJoin | server-sync.py:166-168 | joining the fields with ':' gives back the message |
| Tagging.JoinSplit | server-sync.py:166-168 | fields without ':' split back out of their join |
| Tagging.UntagMeaning | server-sync.py:166-168 | reading type and data fails iff there is no ':'; otherwise `type:data` is a prefix of the message, ended by the end or by a ':' |
| Tagging.TagRoundTrip | client-sync.py:157-159 | type and data without ':' are read back intact |
| Tagging.TagTruncates | server-sync.py:168 | data holding a ':' is cut at its first ':' |
| Tagging.ClientCommandOfTagged | client-sync.py:157-166 | `filerequest` carries its data, `sync` ends the dialogue, and any other type is ignored |
| Tagging.RequestTargetOfEntry | client-sync.py:196-203 | a one-entry request yields that entry's folder and name |
| Server.AwaitStep | server-sync.py:140-170 | one `recv` of the receive loop: a header error, more waiting, a non-`filelist` message that is dropped, or the list's data |
| Server.ReceivedFrame | server-sync.py:185 | receiving the uploads adds each requested name under the root and touches nothing else |
| Server.ReceivedContent | server-sync.py:185 | each requested name holds its upload when no name is requested twice |
| Server.ReceiveFills | server-sync.py:185 | after receiving, every client name is present with the client's hash |
| Server.ReceiveAddsClientNames | server-sync.py:185 | receiving adds only client names |
| Server.ServeSyncs | server-sync.py:170-199 | a well-formed list ends with `sync:done` sent, the request list empty, one request per fetch, and the root holding exactly the client's names with their hashes |
| Server.SyncServer.constructor | server-sync.py:65-77 | the server starts on its folder with empty file and request lists |
| Server.SyncServer.Update | server-sync.py:279-301 | the disk becomes `Apply` of the copies then deletes; the request list becomes the fetch list unless a file operation raised |
| Server.SyncServer.CompareClientFilesWithLocal | server-sync.py:215-277 | the disk and request list after diffing against the current listing and updating |
| Server.SyncServer.ProcessFileListMessage | server-sync.py:201-213 | an unparsable list changes nothing; otherwise the list is reconciled |
| Server.SyncServer.ReceiveFileList | server-sync.py:135-170 | the receive loop returns the first `filelist` data, or how the connection ended |
| Server.SyncServer.SendRequests | server-sync.py:175-194 | sends one request per wanted file then `sync:done`, stores each upload, clears the request list |
| Server.SyncServer.ServeConnection | server-sync.py:125-199 | one connection's frames, disk, request list and ending are those of `Serve` |
| Client.ConverseByMessage | client-sync.py:130-166 | the chunk-by-chunk loop behaves as the message-by-message loop over what the framing delivers |
| Client.ConverseReadsMessages | client-sync.py:130-166 | the client's run is decided by the sequence of messages read and how the stream ended |
| Client.UploadsThenStop | client-sync.py:161-166 | requests followed by a stop upload each target in order and end as the stop says |
| Client.SyncClient.constructor | client-sync.py:62-74 | the client starts unconnected with nothing sent or uploaded |
| Client.SyncClient.SendInitialFileListToServer | client-sync.py:173-188 | records the listing and sends one `filelist` frame |
| Client.SyncClient.ProcessFileRequestMessage | client-sync.py:190-203 | uploads `[0][1]` from folder `[0][0]` iff the request parses and is long enough |
| Client.SyncClient.HandleMessage | client-sync.py:155-166 | the dispatch on one message: crash without ':', upload on `filerequest`, stop on `sync`, skip others |
| Client.SyncClient.ReceiveChunk | client-sync.py:131-166 | one pass of the loop continues the conversation the specification function describes |
| Client.SyncClient.ReceiveLoop | client-sync.py:127-166 | the loop's uploads and ending are those of `Converse` |
| Client.SyncClient.Run | client-sync.py:113-170 | sends the list once, then converses; the socket is closed iff the run ended synced |
| Protocol.FileListArrives | client-sync.py:183-185 | the client's `filelist` frame reaches the server's loop as the rendered list |
| Protocol.Payloads | server-sync.py:176-194 | the server's messages are one `filerequest` per wanted file, then `sync:done` |
| Protocol.RequestReactions | client-sync.py:157-166 | a request makes the client upload the entry; `sync:done` stops it, synced |
| Protocol.ClientAnswersRequests | client-sync.py:155-166 | the server's messages make the client upload each wanted file in order and end synced |
| Protocol.PayloadsFit | server-sync.py:183 | every payload fits the header: for the `filerequest` payloads this is the `Requestable` hypothesis itself; what is proved is that `sync:done` fits |
| Protocol.SentFramesPayloads | server-sync.py:180-194 | the sent frames are the payloads, framed |
| Protocol.ClientServesRequests | client-sync.py:130-166 | the server's frames, chunked, make the client upload exactly the wanted files and end synced |
| Protocol.Dialogue | server-sync.py:170-199 | end to end: the server finishes, the client uploads exactly the fetch list in order and ends synced, and the server's root holds exactly the client's names with their hashes |
| Scenarios.ClientFileAdd | test-sync.py:65-113 | a new client file is fetched |
| Scenarios.ClientFileDelete | test-sync.py:116-187 | a file the client removed is deleted on the server |
| Scenarios.ClientFileRename | test-sync.py:190-266 | a rename becomes a local copy plus a delete, and the new name keeps the bytes |
| Scenarios.ClientFileModify | test-sync.py:269-370 | an edited file is deleted on the server and fetched |
| Scenarios.ClientFileAddWithSameMd5 | test-sync.py:373-479 | a client copy of a server file becomes a local copy |
| Scenarios.ServerFileAdd | test-sync.py:483-530 | a file only on the server is deleted |
| Scenarios.ServerFileDelete | test-sync.py:534-606 | a file deleted only on the server is fetched again once the listing no longer holds it |
| Scenarios.ServerFileDeleteStaleListing | server-sync.py:127-129 | a file deleted on the server while it waits in `accept` is still in the listing taken before, so the diff is empty and the file stays missing for that cycle (test-sync.py:578-583 waits two client cycles for this reason) |
| Scenarios.StaleListingOrphanCrashes | server-sync.py:127-129 | a listed file deleted while the server waits, and absent on the client, is an orphan whose `os.remove` raises |

## Left out

- Pickle: a frame's payload is the message text itself, and the header counts its characters. The source pickles the text and counts the bytes of the pickle. Lengths therefore differ from the source's by the pickle overhead.
- `ast.literal_eval` and `str()` of a list are the parameters `parseList`, `parseRequest` and `render`. Python's literal syntax is not modelled.
- `read_local_storage`, `os.walk` and `hashlib.md5` are not modelled. The listing and the `md5` function are parameters.
- Sockets are not modelled. `recv` is the given sequence of chunks, and the 1024-byte limit is not imposed. `send`, `accept`, `connect` and `shutdown` are recorded only as frames sent and the closed flag.
- The file channel is not modelled. `FileServer` and `FileClient` are replaced by an `upload` parameter, and the client records the (folder, name) pairs it would send.
- `time.sleep` is not modelled, nor is the client's restart every 60 seconds.
- Argument parsing and `sys.exit` in both constructors are not modelled.
- The server's outer `while True` over connections is not modelled. One connection is. `CURRENT_FILE_LIST` is taken before `accept` (server-sync.py:127-129), so it may be older than the folder when the client's list arrives; `Scenarios.ServerFileDeleteStaleListing` and `Scenarios.StaleListingOrphanCrashes` show the consequences.
- `os.path.join` is modelled as a (directory, name) pair. An absolute name or a trailing separator, which `join` would treat specially, is not modelled.
- `shutil.copy` onto an existing directory is not modelled. Only files are on the disk.
- Reconcile.SelfDiffEmpty: holds only when no basename repeats in the tree. `Reconcile.SelfDiffRepeatedName` shows the counterexample for nested folders that share a file name.
- Storage.DiffThenApply: assumes a flat server tree whose entries all sit directly in the root folder. The first pass compares basenames only, and a copy reads from the root folder (`Storage.NestedSourceNotFound`).
- Storage.DiffThenApply: assumes no basename occurs twice in the client's list. One basename in two client folders, both differing from the server's copy, makes the server delete its file twice and crash (`Storage.RepeatedClientNameCrashes`).
- Server.ServeSyncs: assumes every upload's md5 is the hash the client reported. A file changed on the client during the dialogue is not modelled.
- Server.ServeSyncs: assumes no basename occurs twice in the client's list, for the reason given for `Storage.DiffThenApply`; with one, the server crashes as `Storage.RepeatedClientNameCrashes` shows.
- Server.ServeSyncs: assumes the listing still describes the folder when the client's list arrives (the `Mirrors` hypothesis). The source takes the listing before `accept`, so a file changed on the server while it waits breaks this; see `Scenarios.ServerFileDeleteStaleListing` and `Scenarios.StaleListingOrphanCrashes`.
- Protocol.Dialogue: assumes the listing still describes the folder when the client's list arrives, as `Server.ServeSyncs` does; a listing taken before `accept` may be stale.
- Protocol.Dialogue: assumes a flat server tree and no basename repeated on either side, as `Server.ServeSyncs` does; a repeated client basename crashes the server (`Storage.RepeatedClientNameCrashes`).
- The progress lines both programs print are not modelled. These include `update`'s "Copying file: … and renaming to …" line (server-sync.py:292), which the integration tests look for in the server's log.
- `socket.send` is not modelled as a partial write. Both programs call `send`, not `sendall` (server-sync.py:184, server-sync.py:194, client-sync.py:188), so the socket may accept only part of a frame. The model records each frame as written whole.
