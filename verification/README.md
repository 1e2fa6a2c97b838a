# drop-file in Dafny

drop-file sends a file or a directory from one machine to another through a server. A sender packs a
directory into an archive, announces it with its size and hash, and gets a code; a receiver asks the server
for that code, confirms, and the server relays the file between the two connections. The receiver compares
the hash and unpacks the archive.

This project models that path and proves what it is for: **the receiver ends up with the sender's tree**.

- `Bytes`, `Streams`: bytes, little-endian sizes, and the C++ file streams as objects with a position.
- `Codec`, `Zstd`, `ToyCodec`: the contract of the compression library as a record of functions and laws (any
  chunking, errors allowed, whole-frame inverse); the two loops around it, proved against specification
  functions for every codec that keeps the contract; and one codec that keeps it.
- `EntryInfo`, `FileTree`, `Walks`, `Archive`, `WellOrdered`, `Listed`: entry headers, directory trees, path strings
  and where they lead, packing with back-patched lengths, and which entries an archive holds in which order.
- `Unpack`, `Containment`, `RoundTrip`, `Exactness`: the unpack loop on arbitrary bytes and a whole file system,
  which paths keep it below its target, the whole-tree round trip, and the exact condition under which that
  restores everything.
- `Framing`, `Transfer`: length-prefixed messages, and the three counting loops of a transfer as methods.
- `Relay`, `RelaySafety`, `RelayProgress`: the three parties as a state machine over bounded FIFO channels in
  any interleaving: safety against an arbitrary sender and crashes; conservation, deadlock freedom,
  termination and delivery when everybody keeps to the program.
- `SessionCodes`, `Sessions`, `SessionSafety`: the table of waiting senders, as an object and as a concurrent
  system of draws outside the lock, locked inserts, claims and sweeps.
- `Digest`: the chunked file hash and its comparison in hexadecimal.
- `EndToEnd`: a confirmed transfer of a directory, from packing to unpacking.

`dafny verify dfyconfig.toml` verifies the project.

## What the proofs found

`zstd::compress` gives the end directive only with a read that comes up short (src/client/zstd.cpp:30-34). A file
whose length is a positive multiple of the read buffer therefore never has its frame ended, and what the codec
still held back is missing from the archive. The code is modelled as it is. `ToyCodec.RoundTripExactly` (for a
file) and `Exactness.TreeSurvivesExactly` (for a directory) state for which lengths everything comes back with
every codec that keeps the contract: exactly for those that are zero or no multiple of the buffer. Unpacking
such an archive still succeeds and yields a prefix of the file (`Zstd.RecoveredContent`).

When a sender announces a message above 1 MiB, `getMessageLength` throws (src/SocketBase.cpp:56-61), and the handler
of the receiver's connection sends the error text to the receiver as one more message
(src/server/ServerSideClientSession.cpp:42-43). A receiver that is in its counting loop writes it into its file, and
if no more bytes are missing than the text has, it acknowledges. `RelaySafety.TextIsWritten` gives such a run and
`RelaySafety.AnySenderIsClipped` the exact condition on what was sent. The hash comparison comes after that.

The repository's README says that the receiver unpacks and then checks the checksum. The code compares the
hashes first and unpacks only if they agree (src/client/DropFileReceiveClient.cpp:36-38);
`EndToEnd.FinishReceiving` follows the code.

## Model

| member | source | states |
|---|---|---|
| EntryInfo.ParseIsInverse | src/client/FSEntryInfo.cpp:18-66 | Entry headers are a two-way inverse: a read yields a given header if and only if the bytes ahead begin with that header as written, its path has at most 4096 bytes and its payload fits into what remains |
| EntryInfo.HeaderLayout | src/client/FSEntryInfo.cpp:54-66 | Where the fields stand: the kind byte (1 for a directory), eight bytes worth the path length, the path, eight bytes worth the payload length |
| Bytes.SizeValue | src/client/FSEntryInfo.cpp:61 | Eight bytes are worth the sum in which the first counts ones and each later one 256 times as much |
| EntryInfo.ParseErrors | src/client/FSEntryInfo.cpp:18-52 | Each exception of the read is thrown exactly for the byte counts and values given for it, by absolute positions |
| EntryInfo.ReadFromStream | src/client/FSEntryInfo.cpp:18-52 | Reads what the parser specifies, error by error, and on success has consumed exactly the printed header and stands at the payload |
| EntryInfo.WriteToStream | src/client/FSEntryInfo.cpp:54-66 | Writes the header at the put position and returns where in the file its payload length stands; for a path that is too long only the kind byte has been written |
| EntryInfo.WriteCompressedLength | src/client/FSEntryInfo.cpp:68-73 | Replaces eight bytes at the given position, keeps all others, and leaves the position at the end |
| EntryInfo.PatchIsOnePass | src/client/FSEntryInfo.cpp:63-73 | A header written with length 0, its payload, and the patch afterwards give the same bytes as a header with the length known in advance |
| Zstd.FeedChunk | src/client/zstd.cpp:37-47 | The inner loop computes the specified session whatever the codec consumes and emits per call, and appends and counts exactly its output, also up to an error |
| Zstd.Compress | src/client/zstd.cpp:14-51 | Appends exactly what compressing the rest of the input puts out, in failure as in success, and returns its length or the error |
| Zstd.CompressFeedsEverything | src/client/zstd.cpp:29-50 | The codec has been fed the whole content in order, the file holds exactly what it emitted, and the frame is ended if and only if the length is no multiple of the read buffer |
| Zstd.CompressFailure | src/client/zstd.cpp:37-47 | When compression fails, the file holds exactly what the codec had put out for a beginning of the content |
| Zstd.ContentCompresses | src/client/zstd.cpp:39-47 | With a codec that reports no error, compression never fails, and the "impossible" exception is not thrown |
| Zstd.DrainChunk | src/client/zstd.cpp:76-83 | The inner loop decompresses a chunk to its last byte and writes the outputs in order, up to an error if there is one |
| Zstd.Decompress | src/client/zstd.cpp:53-86 | Consumes exactly the payload if it is there, never a byte beyond it, and appends what decompressing it gives, also when it fails on the way |
| Zstd.PayloadAccepted | src/client/zstd.cpp:65-85 | However its chunks are cut, a compressor's output is decompressed without error |
| Zstd.DecompressWrites | src/client/zstd.cpp:65-85 | What has been written, also on an error, is exactly what the codec produced for a beginning of the payload, and for all of it without one |
| Zstd.RecoveredContent | src/client/zstd.cpp:29-85 | Decompressing a compressed file yields a prefix of it: all of it if the frame was ended or the file is empty, strictly less if it was not and the length is not a whole number of blocks |
| ToyCodec.ToyIsLawful | src/client/zstd.cpp:37-48 | The codec contract can be met, by a codec that consumes everything and emits in pieces of any size |
| ToyCodec.RoundTripExactly | src/client/zstd.cpp:30-34 | A content comes back with every codec that keeps the contract if and only if its length is 0 or no multiple of the read buffer |
| FileTree.ComponentsOfJoin | src/client/ArchiveManager.cpp:80 | Joining a path and a name with a slash adds exactly that name, so joined paths are unambiguous |
| FileTree.ComponentsSplit | src/client/ArchiveManager.cpp:39 | A slash anywhere in a path string parts the names before it from those behind it |
| Walks.WalkLaws | src/client/ArchiveManager.cpp:38-50 | Anywhere on the way a name and a `..` behind it cancel, a `.` counts for nothing, and so does a `..` in the root |
| Walks.FilePlain | src/client/ArchiveManager.cpp:50-55 | A relative path of proper names opens the file they name below the directory, exactly if every directory on the way is there and no directory has its name |
| Walks.ReachLaws | src/client/ArchiveManager.cpp:50 | A file's directory is reached through existing directories one by one; a `..` behind one of them leads back |
| Walks.UpAndOver | src/client/ArchiveManager.cpp:50 | `../` and a name opens a file beside the target, unless a directory has that name; such an entry leads away exactly if it does not name the target itself |
| Walks.AbsolutePaths | src/client/ArchiveManager.cpp:39-50 | An absolute path leads from the root, whatever the target |
| Walks.NeverOpened | src/client/ArchiveManager.cpp:50-55 | Empty paths and those that end in a slash, `.` or `..` never open a file |
| Walks.MakeDirsExactly | src/client/ArchiveManager.cpp:38-39 | Creating directories for proper names succeeds exactly if none is a file's; then they are all there and nothing else has changed, otherwise those before the first file are |
| Walks.MakeDirsDots | src/client/ArchiveManager.cpp:38-39 | `.` and `..` create nothing, and lead where they lead in any walk |
| FileTree.Filesystem.CreateDirectories | src/client/ArchiveManager.cpp:38-39 | Walks the names from the root, `.` and `..` included, creates every missing directory on the way, and fails where something else stands there |
| Archive.AddDirectory | src/client/ArchiveManager.cpp:90-93 | Appends the directory's entry, or refuses a path that is too long and leaves the archive as it is |
| Archive.AddFile | src/client/ArchiveManager.cpp:95-108 | With its seek back and forth, appends the entry that a one-pass writer would have written and changes nothing before it; when compression fails, a header with length 0 and what was written of the payload |
| Archive.PackDirectory | src/client/ArchiveManager.cpp:74-88 | Recursive packing with patched lengths appends the one-pass serialisation of the whole directory, exactly up to the first error if there is one |
| Archive.CreateArchive | src/client/ArchiveManager.cpp:59-72 | Refuses an existing target; otherwise the archive is the one-pass serialisation of the tree, exactly up to the first error |
| Archive.PacksExactlyWhen | src/client/FSEntryInfo.cpp:7-16 | Packing succeeds if and only if no path in the tree is longer than 4096 bytes |
| Listed.ArchiveListsTree | src/client/ArchiveManager.cpp:74-108 | The entries of an archive are exactly those for the directories and files of the tree, with their contents; each path string is the names on the way from the root with one byte between neighbours |
| Listed.TreePacksExactly | src/client/ArchiveManager.cpp:74-108 | Packing succeeds if and only if, for everything in the tree, the lengths of the names on its way and one slash between neighbours add up to at most 4096 |
| WellOrdered.PathsDistinct | src/client/ArchiveManager.cpp:74-88 | The entries of a directory are for pairwise distinct path strings |
| WellOrdered.ParentsFirst | src/client/ArchiveManager.cpp:76-87 | Each entry stands in the packed directory itself or in one whose entry comes before it |
| WellOrdered.ArchiveWellOrdered | src/client/ArchiveManager.cpp:59-88 | An archive begins with its root, its paths are pairwise distinct, and every other entry comes after its parent directory's |
| Unpack.UnpackFile | src/client/ArchiveManager.cpp:49-57 | Opens the file where its path leads, fills it with what its payload decompresses to, and leaves the read position behind the payload |
| Unpack.UnpackArchive | src/client/ArchiveManager.cpp:21-47 | Total on arbitrary bytes: it stops, the position never passes the end, without error it is exactly at the end, and the whole file system is what the specification says, also after an error; absolute paths and `..` lead where they lead |
| Containment.EntryLeavesExactly | src/client/ArchiveManager.cpp:38-52 | An entry can change something that is not below the target, on some file system, if and only if its path leads away from the target, which is decided from the path alone |
| Containment.UnpackStaysBelow | src/client/ArchiveManager.cpp:35-43 | If no entry's path leads away, unpacking changes nothing but what is below the target, whatever else the bytes hold and even if it fails |
| Containment.ForwardStays | src/client/ArchiveManager.cpp:39-50 | Relative paths without `..` never lead away |
| Unpack.FileWritten | src/client/ArchiveManager.cpp:49-57 | A file entry is refused and changes nothing if its path opens no file; otherwise that file alone changes, and holds what the codec produced for a beginning of the payload, for all of it without an error, in place of what it held before |
| Unpack.UnpackPiece | src/client/ArchiveManager.cpp:35-43 | Unpacking a well-formed entry and what is behind it is unpacking the entry, and then the rest unless that failed |
| Unpack.AcceptedIsWellFormed | src/client/ArchiveManager.cpp:35-43 | Accepted archives are sequences of well-formed entries, byte for byte, one per round and at least 17 bytes each |
| RoundTrip.UnpackAppliesEntries | src/client/ArchiveManager.cpp:35-43 | Unpacking a serialised list of entries carries out exactly these entries in order |
| RoundTrip.UnpackPacked | src/client/ArchiveManager.cpp:21-108 | Every packed archive unpacks without error into a target without the root name: each path of the tree holds its directory or what is recovered of its file, every other path of the file system what it held before |
| RoundTrip.OpenFileLost | src/client/zstd.cpp:30-34 | A tree with a file whose frame was not ended, with a length that is not whole blocks, has a path whose content does not come back |
| RoundTrip.TreeRoundTrip | src/client/ArchiveManager.cpp:21-108 | Unpacking what packing wrote creates exactly the original paths, kinds and contents and nothing else, if no file length is a positive multiple of the read buffer; it does not if one is that is not also whole blocks |
| Exactness.TreeSurvivesExactly | src/client/ArchiveManager.cpp:21-108 | A directory comes back with every codec that keeps the contract if and only if none of its file lengths is a positive multiple of the read buffer |
| Framing.ChunksCarry | src/SocketBase.cpp:15-26 | A message of n bytes becomes ceil(n / BUFFER_SIZE) non-empty frames that fit the buffer and together are the message; an empty one becomes none |
| Framing.ChunksAreFull | src/SocketBase.cpp:18-22 | Every frame of a message but the last has exactly 1 MiB |
| Framing.FrameLayout | src/SocketBase.cpp:28-34 | A frame is eight bytes that are worth its length, and the data |
| Framing.ParseFrameIsInverse | src/SocketBase.cpp:28-63 | A frame is received if and only if the bytes to come begin with it and it is at most 1 MiB long |
| Framing.ParseFrameFails | src/SocketBase.cpp:52-63 | A receive fails for the size exactly if more than 1 MiB is announced, and for a closed connection exactly if fewer bytes come than announced |
| Framing.AnswerArrives | src/SocketBase.cpp:56-57 | A peer that announces too much receives one message that says so, any other nothing |
| Framing.MessagesArrive | src/SocketBase.cpp:15-63 | Whatever messages are sent one after the other, exactly their frames arrive, none is refused for its size, and together they carry the messages in order |
| Framing.Socket.Send | src/SocketBase.cpp:15-26 | The counting loop puts exactly the specified frames on the wire |
| Framing.Socket.Receive | src/SocketBase.cpp:44-70 | Takes one frame off the wire and sends nothing; an oversize length is answered and refused, a closed connection is an error |
| Framing.Socket.ReceiveACK | src/SocketBase.cpp:126-139 | Succeeds if and only if the next frame is ACK, and then has consumed exactly that; every other outcome has its error |
| Framing.Socket.SendACK | src/SocketBase.cpp:141-143 | The acknowledgement is a single frame |
| Transfer.ClippedCarries | src/server/ServerSideClientSession.cpp:77-84 | Clipping, dropping empty frames and re-framing pass on exactly the first `expected_bytes` bytes, in non-empty frames that fit |
| Transfer.GatherExactly | src/server/ServerSideClientSession.cpp:75-84 | A counting loop ends without error and with given frames if and only if the peer sent exactly these next, none is over 1 MiB, and they are just enough: the last one is the first to reach the expected size |
| Transfer.GatherEnds | src/server/ServerSideClientSession.cpp:77-84 | A counting loop ends in one of two ways for any bytes: with just enough, or having taken every message that came, fewer bytes than expected, and then the error of the next |
| Transfer.ServeRefuses | src/server/ServerSideClientSession.cpp:64-67 | Unless the receiver's first message is ACK, the transfer fails, the sender hears nothing, and the receiver has been sent the metadata and, if its message was too long, the answer to that |
| Transfer.ServeExactly | src/server/ServerSideClientSession.cpp:62-92 | Given a sender with enough frames, the transfer succeeds if and only if the receiver acknowledges twice; it never succeeds with another sender; and then the receiver was sent precisely the declared bytes and the sender two ACKs |
| Transfer.ServeStarted | src/server/ServerSideClientSession.cpp:67-86 | After the confirmation, for all bytes of both peers: the sender is sent two ACKs if and only if its messages were enough and the receiver acknowledged again, otherwise one, with the refusal behind it if its next message is too long; when its messages run out, the receiver has been sent all they carried |
| Transfer.ReceiveFile | src/server/ServerSideClientSession.cpp:62-92 | Against any bytes from both peers, sends on both connections exactly what `Serve` specifies and ends with its error, for every way of ending |
| Transfer.GetUserConfirmation | src/client/DropFileReceiveClient.cpp:76-85 | Anything but y sends the abort message and fails; y sends ACK |
| Transfer.ReceiveFileImpl | src/client/DropFileReceiveClient.cpp:87-106 | Never overwrites; otherwise the file holds the first `expected_bytes` bytes of the frames gathered, also after an error, and ACK goes out if and only if all of them came |
| Transfer.SendFSEntry | src/client/DropFileSendClient.cpp:53-73 | Without a first ACK it fails and sends no file byte; with it the whole file goes out in non-empty frames that fit, and it succeeds if and only if a second ACK comes |
| RelaySafety.StepKeepsSafe | src/server/ServerSideClientSession.cpp:26-92 | Every step of server and receiver, any frames of any size of any peer in the sender's place, the server's handling of a message that is too long, and every crash keep handshake and byte accounting intact |
| RelaySafety.HonestIsAny | src/client/DropFileSendClient.cpp:53-73 | A sender that keeps to the program is one of the arbitrary ones, so what holds against any sender holds for it |
| RelaySafety.AnySenderIsClipped | src/client/DropFileReceiveClient.cpp:93-102 | In every reachable state against any sender the server has passed on a prefix of what was sent, at most what was declared and exactly that after its loop. A receiver that leaves its loop has written exactly the first declared bytes that were sent if the server did not come to a message above 1 MiB before it had them; if it did, the file ends with the server's error text |
| RelaySafety.FailsExactly | src/SocketBase.cpp:52-63 | When the receiver has left its loop, the server has failed if and only if the sender's k-th message was above 1 MiB with fewer than the declared bytes before it, for some k |
| RelaySafety.TextIsWritten | src/server/ServerSideClientSession.cpp:42-43 | An input: one declared byte and a first message of 1 MiB and one byte leave the receiver acknowledging a file that is no prefix of what was sent |
| RelaySafety.NothingBeforeConfirmation | src/server/ServerSideClientSession.cpp:64-86 | No byte is relayed and the sender is not started before the receiver confirmed, nothing ever if it declined; a finished server means a finished receiver with everything written |
| RelaySafety.ServerAgrees | src/server/ServerSideClientSession.cpp:75-84 | In every reachable state after the server's loop, its steps add up to what its method does with the same bytes on the wire: frames taken, frames sent on, bytes left over |
| RelaySafety.ReceiverAgrees | src/client/DropFileReceiveClient.cpp:93-102 | In every reachable state after the receiver's loop, its file is what its method makes of the frames the server sent on, an error text included |
| RelayProgress.Conservation | src/server/ServerSideClientSession.cpp:75-84 | In every reachable state of an honest run, written, in flight, held, in flight and unread bytes concatenate to the file, and the server's counter is the length of the matching prefix |
| RelayProgress.StepDecreases | src/server/ServerSideClientSession.cpp:77-86 | Every step of every party decreases a measure over unsent bytes, frames in flight and phases |
| RelayProgress.RunsAreShort | src/server/ServerSideClientSession.cpp:62-92 | No run has more steps than four per byte and a constant |
| RelayProgress.SomebodyCanMove | src/server/ServerSideClientSession.cpp:62-92 | Deadlock freedom: while a party has not finished, some party has a step, even with channels that hold one frame |
| RelayProgress.EveryRunDelivers | src/server/ServerSideClientSession.cpp:62-92 | Every run ends; where it cannot go on, everybody has finished, and with a confirming receiver the received bytes are the file and all messages are consumed, also for size 0 |
| RelayProgress.SenderKnows | src/client/DropFileSendClient.cpp:55-71 | No file byte leaves an honest sender before the confirmation has reached the server; when its last receiveACK succeeds, the receiver has written the whole file |
| SessionCodes.CodeInjective | src/server/SessionsManager.cpp:67-69 | Adjective, noun and number can be read back from a code, although adjectives contain dashes, as long as nouns do not |
| SessionCodes.CodeReads | src/server/SessionsManager.cpp:67-69 | A code is adjective, dash, noun, dash, and digits that are read back as the number, without a leading zero |
| SessionCodes.CountCodes | src/server/SessionsManager.cpp:67-69 | There are exactly 101 codes for each pair of a distinct adjective and a distinct noun |
| SessionCodes.FreeCodeExactly | src/server/SessionsManager.cpp:43-49 | A draw can find a free code if and only if fewer than all codes are in use |
| Sessions.SessionsManager.RegisterSender | src/server/SessionsManager.cpp:43-54 | The first drawn code that is free is taken, with sender, metadata and time; no other entry changes |
| Sessions.SessionsManager.GetSenderWithMetadata | src/server/SessionsManager.cpp:56-65 | A known code yields what was registered under it and leaves the table; an unknown one changes nothing |
| Sessions.SessionsManager.TerminateTimeoutClients | src/server/SessionsManager.cpp:29-41 | With a clock re-read for each entry, in any order and whatever it reads, an entry stays if and only if it is no older than the timeout at its visit, and those that stay are unchanged |
| SessionSafety.StepInv | src/server/SessionsManager.cpp:29-65 | Every draw, locked insert, claim, sweep and clock tick keeps the invariants of table and history |
| SessionSafety.SessionLinearity | src/server/SessionsManager.cpp:43-65 | Over every interleaving each registration is exactly one of live, claimed, expired; no sender goes to two receivers; a claim returns what was registered together under its code; expiry only above the timeout, and once |
| SessionSafety.NothingOverwritten | src/server/SessionsManager.cpp:47-51 | No step overwrites a live entry or forgets a registration, claim or expiry |
| SessionSafety.ClaimedForGood | src/server/SessionsManager.cpp:56-65 | Along every run, once claimed is always claimed, never live again and never expired, although codes are reused |
| SessionSafety.SweepExactly | src/server/SessionsManager.cpp:29-41 | A sweep expires exactly the live registrations that are too old when visited and keeps exactly the others |
| SessionSafety.SweepPossible | src/server/SessionsManager.cpp:29-41 | A sweep can run in every reachable state with any readings of the clock |
| SessionSafety.TimeoutBound | src/server/SessionsManager.cpp:29-41 | If visits of an entry are at most d apart, no live session is ever older than the timeout plus d |
| SessionSafety.SessionCapacity | src/server/SessionsManager.cpp:43-74 | In every reachable state there are at most adjectives times nouns times 101 sessions, and a handler can still find a code exactly while there are fewer |
| SessionSafety.InsertIsRegisterSender | src/server/SessionsManager.cpp:46-52 | An insert of the concurrent system leaves the table and logs the code that the method's contract gives for that one draw |
| SessionSafety.ClaimIsGetSender | src/server/SessionsManager.cpp:56-65 | A claim of the concurrent system leaves the table that the method's contract gives, and records exactly what it returns |
| Digest.CalculateFileHash | src/Utils.cpp:18-53 | For an incremental digest, reading blocks of 8192 bytes until a read comes up short gives, for every length, the string that feeding the content in any other pieces gives |
| Digest.WholeIsFed | src/Utils.cpp:38-45 | However the content is cut, its digest is what feeding the pieces in order ends with |
| Digest.LastBytesTellsApart | src/Utils.cpp:38-52 | With the example digest, two different contents of one length of at most 32 bytes have different hash strings |
| Digest.LastBytesIsIncremental | src/Utils.cpp:38-48 | The laws asked of a digest can be met, by one that keeps the last 32 bytes |
| Digest.BinaryToHumanReadable | src/Utils.cpp:55-61 | The loop yields two hexadecimal digits for each byte |
| Digest.HexReads | src/Utils.cpp:55-61 | Reading the string two lower-case digits at a time, the first worth sixteen times as much, gives the bytes back |
| Digest.HexInjective | src/Utils.cpp:55-61 | Different byte strings have different hexadecimal forms |
| Digest.ValidateFileHash | src/client/DropFileReceiveClient.cpp:57-65 | Fails if the file cannot be read or its hash string is not the announced one, and otherwise does not |
| Digest.HashCheckExactly | src/client/DropFileReceiveClient.cpp:60-63 | Comparing the strings accepts if and only if the digests are equal |
| EndToEnd.FinishReceiving | src/client/DropFileReceiveClient.cpp:36-38 | With a wrong hash nothing is unpacked; with the right one an archive is unpacked into the current directory and a plain file is left alone |
| EndToEnd.DirectoryArrives | src/client/DropFileReceiveClient.cpp:19-39 | Every confirmed transfer of a packed directory ends, the hash agrees, and unpacking what arrived yields the sender's tree and nothing else |

## Left out

- TLS, Boost.Asio, certificates, `ClientSocket`, asynchronous reads: connections are reliable FIFO byte or frame channels.
- The internals of zstd and SHA-256: any codec and any incremental digest that keep the stated laws. Failing context creation and failing digest calls are not modelled.
- JSON, `InitSessionMessage` and the first-message limit: the metadata is one given non-empty message and well typed.
- Argument parsing, progress bars, logging, disk-space checks, temporary directories, `bytesToHumanReadable`: easy one-branch claims.
- Symbolic links, special files, permissions, files that cannot be opened for packing, and files that change during packing or transfer: the tree is stable and holds directories and regular files only.
- File systems with symbolic links: `..` goes up one name. Names are bytes, and the limit of 1000 missing directories in a row is not modelled. The target is given by the plain names from the root.
- A directory that is sent as `.` or with a trailing slash has `.` or an empty path as its root name; the tree theorems ask for a proper name.
- A kind byte other than 0 or 1 is a parse failure here. Lengths are little-endian with eight bytes, whatever the machine.
- `readsome` returns any non-empty part of what is left of the file, and nothing only at its end.
- Counters are unbounded; sizes are below 2^64 where the code reads or writes them.
- The receiver acknowledges before it flushes its file (src/client/DropFileReceiveClient.cpp:103-104): "written" means handed to the stream.
- Closing connections, and the error texts sent to a peer that is refused or does not keep to the handshake. `Relay` has the text that a receiver gets for a message of the sender that is too long; `Transfer.Serve` ends before the handler sends it.
- FeedChunk and DrainChunk are the loops inside `zstd::compress` and `zstd::decompress`, given as methods of their own.
- RoundTrip.OpenFileLost: leaves out files whose length is a positive multiple of both the read buffer and the block size, because the library's contract does not say whether a whole block has come out by then.
- RoundTrip.TreeRoundTrip: for one given codec the converse leaves out the same lengths. `Exactness.TreeSurvivesExactly` closes this by quantifying over codecs.
- RelayProgress.EveryRunDelivers: assumes that no party crashes and that the declared size is the file's; the results of `RelaySafety` do not.
- Sessions.SessionsManager.RegisterSender: takes the drawn codes as a given list and returns no code if none is free, because the retry loop ends only by chance.
- Sessions.SessionsManager.CurrentSessions: only counts the table; `SessionSafety.SessionCapacity` bounds that count.
- SessionSafety.TimeoutBound: in the concurrent system the clock never goes back. The sweep itself is specified for any clock.
- SessionSafety.SessionLinearity: a client registers at most once, which is how the server calls `registerSender` (src/server/ServerSideClientSession.cpp:44-51).
