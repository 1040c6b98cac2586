# AgFS: a verified model of its protocol and its aggregation

AgFS mounts several remote trees as one. A client sends file operations over a hand-written binary protocol to
servers that execute them in a command loop, merges the directory listings it gets back, tags the names that clash, and
routes later calls by reading the tags or by asking everybody. This project models the three parts in Dafny and proves
what they promise. `dafny verify dfyconfig.toml` checks everything.

## How it is built

Nothing frames a message on an AgFS connection: the two ends stay aligned only because each handler reads exactly what
its stub writes, and the reverse.

- `Bytes`, `Wire`: machine words, host byte order and the encodings of src/agfsio.cpp. `AgfsIo` holds the functions
  themselves, as methods on a `Socket` object, with partial reads, running totals and byte swapping.
- `Disk`: the local file operations of a server on a tree of files and directories. `Pieces`: the courses the transfer
  of a WRITE can take, piece by piece, with full, short and failing local writes.
- `Process`: a program seen from its end of a connection, as a value: send, receive, act on the local tree. `Run` is
  what such a program does alone on given input, with the exact order of bytes in and out. `Protocol` describes every
  client stub and server handler this way, and the local operation behind each call.
- `Client` and `Server` are the classes of src/serverconnection.cpp and src/agfs-server.cpp, method by method, with
  their loops. Each method is proved to do what its stub or handler does under `Run`.
- `Exchange` lets client and server work on one connection with two byte queues: either side may move whenever it can,
  one byte at a time, so every interleaving and every chunking is a run. Its theorem `AnySchedule` says that scheduling
  does not matter. `Rpc` uses it to show that every call ends as its local operation does, and when it leaves the
  connection aligned; `Disturbances` shows what happens when it does not. `Monitor` adds the lock and any number of
  threads. `Composition` splits an interleaved run into what each side does alone, and `Closure` joins this to the
  sessions of the command loop, so that the contracts of the methods close on each other.
- `StdMap`, `Tags`, `Disambiguation`, `Merge`: the order of std::map, the tag `{:server:}`, the index class of
  src/disambiguater.cpp, and what an index and its listing contain. `Agfs` holds the FUSE callbacks of src/agfs.cpp and
  `Origin` the end-to-end results about them. There, a call on a connection is the local operation of its server, which
  is what `Rpc` proves.
- `Keys` and `Handshake`: key generation, key files, and session set-up.

What sockets and local files decide during a call is a parameter, `Chance`, that stands for any such decision: how much
the client's one read of READ data returns, whether a local read fails, and in which pieces the data of a WRITE is
taken and what becomes of each. Theorems hold for all its values. A call is *undisturbed* when that one read returned
everything and no local write failed, unless it was that of the last piece.

## Assumptions

- Queues are unbounded, reliable and in order. A blocking read of a command, mask, size, error, string or stat returns
  everything it asks for unless the peer has gone (the assumption of src/agfsio.hpp:6-11), and writes to the socket
  succeed. The explicit loops see arbitrary chunks, and the single unlooped read of READ data may come up short. On an
  interleaved connection the client stays to the end of its call.
- Local writes may be short or fail, and local reads may be short or fail.
- The mode of a served node says directory if and only if the node is one (`Disk.Node`), as lstat promises.
- The served tree changes only through the session. Times are not advanced by a write.
- Memory can be allocated; READ sizes are below 2^63, as `std::vector::resize` demands, and files stay below 2^63 bytes.

## What the code does not do

Found while proving, each with the exact condition under which the expected behaviour holds:

- Under every schedule and for any number of threads, a call leaves the connection aligned if and only if it was
  undisturbed (`Rpc.CallIsLocal`, `Monitor.AlignedIffCalm`). A READ of two bytes of which one is fetched turns the
  denial of the next ACCESS into a success (`Disturbances.ShortReadCorruptsNext`); a WRITE whose first local write fails
  lets the server take the rest of the data for commands, such as STOP (`Disturbances.FailedWriteStopsServer`).
- A short local write loses the rest of its piece, and the next piece takes its place: of [1, 2, 3], with one byte
  written of the first two, the file gets [1, 3] (`Pieces.ShortWriteLosesBytes`). The file gets the buffer, and the
  reported size is that of the buffer, if and only if every local write took its whole piece (`Pieces.WholeIffFull`,
  `Rpc.WriteReports`).
- A heartbeat that gets no answer closes the socket only on a big-endian host: elsewhere the conversion in
  `agfs_read_cmd` turns the untouched `NONE` into another value (`Client.ServerConnection.Heartbeat`).
- READ returns the slice at its offset, and WRITE replaces it, if and only if the offset is below 2^63 (or there is
  nothing to read or write): other seeks fail unnoticed and the operation works on the start of the file
  (`Rpc.ReadIsSlice`, `Rpc.WriteIsSplice`).
- READDIR answers ENOTDIR for everything that is not a directory, because its second test overwrites the ENOENT of the
  first: it reports what opendir would if and only if the path exists or is missing with ENOTDIR (`Disk.ListingError`).
- A tag reads back to its server if and only if the server name contains no `:}` and does not begin with `}`
  (`Tags.TagRoundTripExact`).
- A file of one server whose name another server has too, as a directory, is listed under its plain name. Opening that
  name works if and only if no other server has it, getattr returns the listed stat if and only if its server is the
  first that has it (`Origin.ListedLeadsBack`), and the listed names are distinct if and only if there is no such file
  (`Origin.MountedNamesDistinct`). `Origin.ClashingOpen` and `Origin.ClashingNames` are two servers where it fails.
- A directory on several servers is listed with the stat of the last server and answers getattr with that of the first
  (`Origin.DirectoryStat`).
- A connection that is down answers access with an uninitialised variable, so it may count as a holder of any path
  (`Client.ServerConnection.CheckAccess`, `Origin.OpenBroadcast`), and readdir with an empty directory
  (`Client.ServerConnection.ReadDir`).
- An empty client key matches an empty key list (`Keys.KeyListRoundTrip`).

## Model

| member | source | states |
|---|---|---|
| Bytes.SwappedMemoryIsBigEndian | src/agfsio.cpp:10-14 | What a word puts on the wire does not depend on the byte order of the sender |
| Bytes.SwappedReadIsBigEndian | src/agfsio.cpp:16-21 | What is understood does not depend on the byte order of the receiver |
| Bytes.SwappedZero | src/agfsio.cpp:42-60 | Zero stays zero in any byte order |
| Wire.ErrorInverse | src/agfsio.cpp:49-60 | Errors survive the wire, negative ones included |
| Wire.StatInverse | src/agfsio.cpp:105-207 | Exactly the six carried fields of a stat survive, in 44 bytes; the others arrive as zero |
| Wire.StatFields | src/agfsio.cpp:105-151 | The place of each of the six fields in the 44 bytes |
| Wire.FieldDelimited | src/agfsio.cpp:10-207 | One encoded field followed by any bytes reads back as that field and leaves those bytes; a string with a NUL is cut but consumed whole |
| Wire.SelfDelimiting | src/agfsio.cpp:10-207 | The same for any sequence of fields |
| Wire.EncodingInjective | src/agfsio.cpp:10-207 | Streams of the same shape that agree carry the same fields and the same remainder |
| Protocol.CommandBytes | src/constants.hpp:51-88 | The two bytes of every command |
| AgfsIo.WriteWord | src/agfsio.cpp:10-53 | A swapped word leaves the host as its big-endian image, on either byte order |
| AgfsIo.ReadWord | src/agfsio.cpp:16-60 | A word is read over the variable's memory and swapped, after full, partial and failed reads alike |
| AgfsIo.StaleCmd | src/agfsio.cpp:16-21 | The value of a command variable after a failed or one-byte read, for both byte orders |
| AgfsIo.WriteCmd | src/agfsio.cpp:10-14 | Appends the encoded command and nothing else |
| AgfsIo.ReadCmd | src/agfsio.cpp:16-21 | Consumes up to two bytes; the command is the decoded one, or the stale value when fewer came |
| AgfsIo.WriteMask | src/agfsio.cpp:23-27 | Appends the encoded mask |
| AgfsIo.ReadMask | src/agfsio.cpp:29-34 | Consumes up to four bytes and decodes them when all came |
| AgfsIo.WriteSize | src/agfsio.cpp:36-40 | Appends the encoded size |
| AgfsIo.ReadSize | src/agfsio.cpp:42-47 | Consumes up to eight bytes and decodes them when all came |
| AgfsIo.WriteError | src/agfsio.cpp:49-53 | Appends the two's complement image of the error |
| AgfsIo.ReadError | src/agfsio.cpp:55-60 | Recovers the signed error |
| AgfsIo.ReadSizeBadFd | src/agfsio.cpp:42-47 | On a closed descriptor the variable is swapped all the same |
| AgfsIo.ReadErrorBadFd | src/agfsio.cpp:55-60 | The same for errors |
| AgfsIo.WriteString | src/agfsio.cpp:62-78 | Appends length and bytes and returns their total |
| AgfsIo.ReadString | src/agfsio.cpp:80-103 | Reads the string up to its first NUL and consumes its whole length; a string that breaks off is read to the end of input |
| AgfsIo.WriteStat | src/agfsio.cpp:105-151 | Six writes append the 44-byte record |
| AgfsIo.ReadStat | src/agfsio.cpp:153-207 | Six reads consume the record and rebuild the carried fields; the total counts partial reads |
| Disk.SpliceAt | src/agfs-server.cpp:367-381 | Every byte of a file after a positioned write: buffer inside the range, old byte or zero fill outside |
| Disk.WriteChunks | src/agfs-server.cpp:374-387 | Writing two chunks one after the other is writing their concatenation |
| Disk.SliceExtends | src/agfs-server.cpp:306-309 | A partial file read and its continuation make the slice of both |
| Disk.SpliceThenSlice | src/agfs-server.cpp:299-381 | Reading the written range returns the buffer |
| Disk.LstatIs | src/agfs-server.cpp:165-176 | The attributes of a node, with the length of a file as its size, or the errno of lstat |
| Disk.AccessIs | src/agfs-server.cpp:201-205 | Granted with 0 when the path is there and the mask is not denied, refused with -1 otherwise |
| Disk.OpenIs | src/agfs-server.cpp:419-430 | The errno of a missing path, EISDIR, the errno of a refusal, or 0 |
| Disk.JoinIs | src/agfs-server.cpp:253-256 | The path of a name in a directory and in the root |
| Disk.Modes | src/disambiguater.cpp:22 | Which modes are those of directories |
| Disk.ListingError | src/agfs-server.cpp:227-236 | READDIR reports what opendir would if and only if the path exists or is missing with ENOTDIR |
| Pieces.Conserved | src/agfs-server.cpp:369-393 | No more bytes are put into the file than were taken, and no more taken than were sent; all of them unless a local write failed or the client had gone |
| Pieces.WholeIffFull | src/agfs-server.cpp:374-387 | The whole buffer is written if and only if every local write took its whole piece; then the file gets just that |
| Pieces.ShortWriteLosesBytes | src/agfs-server.cpp:376-381 | A short local write after which a later byte takes the place of the lost one |
| Protocol.NothingLeftIffUndisturbed | src/agfs-server.cpp:374-387 | A call leaves nothing unread if and only if it was undisturbed |
| Protocol.TransferRuns | src/agfs-server.cpp:369-393 | The transfer alone takes what its pieces take, writes what they write, leaves the rest and reports |
| Exchange.Diamond | src/serverconnection.cpp:149-361 | Steps of client and server commute: neither disables or changes the other |
| Exchange.AnySchedule | src/serverconnection.cpp:149-361 | If one schedule ends in n steps, every first step leaves exactly n - 1 to the same end, unless it takes up another command |
| Exchange.AnyRun | src/serverconnection.cpp:149-361 | No run is longer than n, and what remains after it is n minus its length |
| Exchange.MaximalRun | src/serverconnection.cpp:149-361 | A run that cannot go on has reached that one state |
| Exchange.DoneTogether | src/agfs-server.cpp:150-431 | When the client has its reply the server has finished the handler too |
| Exchange.SrvRuns | src/agfs-server.cpp:150-431 | When all the bytes a handler needs are there, the server may go to its end alone, as a run |
| Rpc.GetAttrExchange | src/serverconnection.cpp:149-168 | GETATTR ends with the reply that `Rpc.GetAttrIs` spells out, aligned |
| Rpc.AccessExchange | src/serverconnection.cpp:179-195 | ACCESS ends with the raw result of access, aligned |
| Rpc.OpenExchange | src/serverconnection.cpp:331-345 | OPEN ends with the status of open, aligned |
| Rpc.EntriesExchange | src/agfs-server.cpp:247-259 | The client rebuilds the server's entries in order with their carried stats, and no byte remains |
| Rpc.ReadDirExchange | src/serverconnection.cpp:206-238 | READDIR ends with the local listing, aligned |
| Rpc.ReadExchange | src/serverconnection.cpp:249-272 | READ ends with the local bytes the client has fetched; the others stay on the connection |
| Rpc.WriteBody | src/serverconnection.cpp:298-319 | The data phase of WRITE: in whatever pieces, the file gets what the pieces put there, what they do not take stays on the connection, and the outcome is reported |
| Rpc.WriteExchange | src/serverconnection.cpp:284-320 | WRITE, with its reply in the middle, ends with the local result and the local tree for any course of its transfer |
| Rpc.BeatExchange | src/serverconnection.cpp:347-361 | An answered heartbeat keeps the connection |
| Rpc.Exchanged | src/serverconnection.cpp:149-361 | Every call, disturbed or not, reaches the end its local operation prescribes, with one command served |
| Rpc.Settled | src/serverconnection.cpp:149-361 | A client that has its reply has the local one, and the connection is aligned if and only if the call was undisturbed |
| Rpc.CallIsLocal | src/agfs-server.cpp:88-144 | Every run of an undisturbed call has at most one fixed number of steps, cannot get stuck, and ends with the local reply and tree on an aligned connection; in every run, disturbed or not, a client with its reply is on an aligned connection if and only if the call was undisturbed |
| Rpc.GetAttrIs | src/agfs-server.cpp:165-176 | The reply of GETATTR spelled out: the six carried attributes, or -errno |
| Rpc.ReadFailure | src/agfs-server.cpp:290-318 | READ answers the errno of a failed open, -1 when it is a directory or a local read fails and there is something to read, and no error otherwise |
| Rpc.RefusedOpens | src/agfs-server.cpp:284-399 | READ reports what the operating system refuses for flags 0, WRITE what it refuses for flags 1, and then nothing changes |
| Rpc.ReadReports | src/serverconnection.cpp:262-269 | READ never returns more than asked; the error is the number of bytes that came, and the rest is zeros |
| Rpc.ReadIsSlice | src/agfs-server.cpp:299-318 | An undisturbed READ returns exactly the slice if and only if the offset is seekable (or there is nothing to read) |
| Rpc.WriteReports | src/agfs-server.cpp:383-393 | WRITE reports the errno of a local write that fails, otherwise the number of bytes put into the file, which is the size of the buffer if and only if every local write was full |
| Rpc.WriteIsSplice | src/agfs-server.cpp:361-387 | WRITE changes only its file, by what the pieces put; with full local writes it replaces exactly the range if and only if the offset is seekable (or there is nothing to write) |
| Rpc.WriteThenRead | src/agfs-server.cpp:299-381 | READ of the range just written returns the buffer |
| Disturbances.ShortReadCorruptsNext | src/serverconnection.cpp:262-269 | A READ of two bytes of which one is fetched, after which a denied ACCESS is understood as granted |
| Disturbances.FailedWriteStopsServer | src/agfs-server.cpp:383-386 | A WRITE whose first local write fails, after which the server takes the data for STOP |
| Monitor.EnterKeeps | src/serverconnection.cpp:150-156 | A thread that takes the free monitor starts its exchange on an aligned connection |
| Monitor.MoveCounts | src/serverconnection.cpp:149-361 | A step of the thread inside or of the server uses up one of the steps left of the call |
| Monitor.ServeMoves | src/agfs-server.cpp:88-144 | The server moves only during a call |
| Monitor.LeaveKeeps | src/serverconnection.cpp:149-361 | The monitor is released on an aligned connection if and only if the call was undisturbed |
| Monitor.Reachable | src/serverconnection.cpp:149-361 | The invariant holds in every world of every run of any number of threads as long as no completed call was disturbed |
| Monitor.Linearizable | src/serverconnection.cpp:149-361 | In every interleaving in which no completed call was disturbed, replies and tree are those of a local file system serving the calls one at a time in order of completion, at most one thread is inside, and a free monitor means an aligned connection on which just those calls were served |
| Monitor.AlignedIffCalm | src/serverconnection.cpp:149-361 | In every interleaving, the connection was aligned whenever the monitor was free if and only if no completed call was disturbed |
| Monitor.OnlyWritesChange | src/agfs-server.cpp:146-431 | Over any sequence of calls a file changes only if some data was written to it, and no file appears or disappears |
| Monitor.NoMutualWaiting | src/serverconnection.cpp:284-320 | While a call is in progress some step of its thread or of the server is possible, unless the server has taken leftovers for a command: they are never both blocked |
| Monitor.CallEnds | src/serverconnection.cpp:149-361 | Such a call releases the monitor after a bounded number of steps of whatever kind |
| Composition.EachAlone | src/agfs-server.cpp:88-144 | Any interleaved run splits into the bytes going up and down on which each side, alone, does the same |
| Composition.CallFits | src/serverconnection.cpp:149-361 | For every call and chance there are bytes up and down on which stub and command loop, each alone, give the local reply and the local tree and leave what the call leaves |
| Closure.StubSends | src/serverconnection.cpp:149-361 | Whatever the client is answered, it sends the request of its call; only the first error of a WRITE matters |
| Closure.RequestFits | src/serverconnection.cpp:149-361 | The bytes up are that request |
| Closure.WriteRequestBytes | src/serverconnection.cpp:149-361 | The bytes of a WRITE: size, offset and data follow only if the file opens for writing |
| Closure.RequestBytes | src/serverconnection.cpp:149-361 | The bytes of every other request, field by field: size before offset, masks of four bytes, lengths of eight |
| Closure.SessionServesCall | src/agfs-server.cpp:88-144 | Any session of the command loop on the request of a call handles that call first, sends what the client needs for the local reply, and leaves the local tree and what the call leaves unread |
| Closure.MethodReturns | src/serverconnection.cpp:149-361 | A client method that follows its stub on those bytes returns that reply |
| Server.ClientConnection.ProcessHeartbeat | src/agfs-server.cpp:146-148 | Answers a heartbeat and reads nothing |
| Server.ClientConnection.ProcessGetAttr | src/agfs-server.cpp:159-177 | Follows its handler on complete requests and reads broken-off ones to the end |
| Server.ClientConnection.ProcessAccess | src/agfs-server.cpp:188-206 | The same, with the mask |
| Server.ClientConnection.ProcessReaddir | src/agfs-server.cpp:217-261 | Two walks of the directory send the count and then every name and stat |
| Server.ClientConnection.WriteEntries | src/agfs-server.cpp:238-259 | The two loops of the listing |
| Server.ClientConnection.ProcessRead | src/agfs-server.cpp:272-319 | Sends the local result of READ, which fails if and only if a local read did |
| Server.ClientConnection.ReadLoop | src/agfs-server.cpp:299-312 | For any pattern of short file reads the loop returns the slice and its length, or -1 if and only if a read fails |
| Server.ClientConnection.MovePiece | src/agfs-server.cpp:374-386 | One pass: what was read, what was written and where the session is then, for full, short and failing local writes and for a client that has gone |
| Server.ClientConnection.WritePiece | src/agfs-server.cpp:378-386 | The local write of one pass |
| Server.ClientConnection.TransferLoop | src/agfs-server.cpp:369-387 | The loop takes a course that is possible for its size, is where that course leads, and ends with its total, last result and error; the course is made of what the local writes returned |
| Server.ClientConnection.TransferData | src/agfs-server.cpp:367-393 | The data phase and its report, for the course the loop took |
| Server.ClientConnection.ProcessWrite | src/agfs-server.cpp:339-394 | Follows its handler for the course its transfer took, whatever the local writes did; that course is made of what they returned, is possible, and ends early only when one failed or the client had gone |
| Server.ClientConnection.ProcessOpen | src/agfs-server.cpp:405-431 | Follows its handler |
| Server.ClientConnection.Dispatch | src/agfs-server.cpp:104-140 | Each command follows its own handler, with the local results it had; unknown commands do nothing |
| Server.ClientConnection.ProcessCommands | src/agfs-server.cpp:88-144 | Ends on every input, also malformed, with the socket closed after at most (bytes + 6) passes; missed beats are never given back and the session survives five of them; every pass follows the handler of the command it read, with the results its local calls had |
| Server.ClientConnection.OnePass | src/agfs-server.cpp:93-141 | One pass: a missed beat, a handled command, or the end |
| Server.WriteAccount | src/agfs-server.cpp:369-393 | The account of a WRITE for any local writes: what is in the file is what the pieces put there, with its size reported unless a local write failed; with all data sent, size minus the bytes taken are left unread, and none are if and only if no local write failed or the last piece's did |
| Server.EntriesSent | src/agfs-server.cpp:249-259 | Sending the entries one by one is the listing of the protocol |
| Client.ServerConnection.constructor | src/serverconnection.cpp:17-27 | A new connection connects at once and is not closed |
| Client.ServerConnection.Connect | src/serverconnection.cpp:66-125 | The socket is kept exactly when the answer is ACCEPT, whatever else or however little arrives |
| Client.ServerConnection.Stop | src/serverconnection.cpp:49-59 | Sends STOP on an open connection, drops it, marks it closed and returns the result of close |
| Client.ServerConnection.GetAttr | src/serverconnection.cpp:149-168 | Follows its stub |
| Client.ServerConnection.CheckAccess | src/serverconnection.cpp:179-195 | Follows its stub on an open connection; on a dead one nothing is promised of the result |
| Client.ServerConnection.ReadDir | src/serverconnection.cpp:206-238 | Follows its stub on an open connection; a dead one gives an empty listing without an error |
| Client.ServerConnection.ReadEntries | src/serverconnection.cpp:226-234 | The loop on the unsigned count, which wraps around at its end, runs exactly count times |
| Client.ServerConnection.ReadFile | src/serverconnection.cpp:249-272 | Follows its stub for however many bytes its one read returns; the rest of the data is zeros, the error is the number read and the other bytes stay on the socket |
| Client.ServerConnection.WriteFile | src/serverconnection.cpp:284-320 | Follows its stub for any chunking of the buffer, unless the last thing that happened was that writing to the socket failed |
| Client.ServerConnection.SendData | src/serverconnection.cpp:298-317 | The second round of WRITE |
| Client.ServerConnection.Open | src/serverconnection.cpp:331-345 | Follows its stub |
| Client.ServerConnection.Heartbeat | src/serverconnection.cpp:347-361 | A missing answer closes the socket if and only if the host is big-endian; an answer closes it if and only if it is NONE |
| StdMap.Ordered | src/disambiguater.cpp:80-97 | Iteration visits every key once in ascending byte order |
| StdMap.LessIs | src/disambiguater.cpp:80-97 | The order is that of std::string: a proper prefix comes first, otherwise the first byte that differs decides |
| Tags.Find | src/disambiguater.cpp:138-139 | The first occurrence of a marker |
| Tags.TagRoundTrip | src/disambiguater.cpp:136-157 | A tag printed after a tag-free prefix is read back, whatever follows it |
| Tags.TagRoundTripExact | src/disambiguater.cpp:136-157 | Behind a tag-free prefix the server comes back if and only if it contains no `:}` and does not begin with `}` |
| Tags.TagBytes | src/disambiguater.cpp:115 | The printed tag, byte by byte |
| Tags.AmbiguateIs | src/disambiguater.cpp:136-157 | What every path is taken apart into, also with one marker only and with the end marker first |
| Disambiguation.Disambiguater.AddFilepath | src/disambiguater.cpp:18-34 | Files a directory, by its mode, with the last stat; files anything else once for each server, or reports the duplicate and changes nothing; keeps the index well formed |
| Disambiguation.Disambiguater.AddPath | src/disambiguater.cpp:36-52 | The overload without a stat files a zero stat |
| Disambiguation.Disambiguater.AddFilepaths | src/disambiguater.cpp:54-63 | Adds in order and stops at the first duplicate |
| Disambiguation.AddAllStops | src/disambiguater.cpp:57-61 | Nothing is added after the first duplicate, and the result is -EEXIST |
| Disambiguation.Disambiguater.DisambiguatedFilepathsWithStats | src/disambiguater.cpp:102-128 | Lists files in key order, tagged when several servers hold them, then directories |
| Disambiguation.Disambiguater.DisambiguatedFilepaths | src/disambiguater.cpp:76-100 | The same names in the same order |
| Disambiguation.Disambiguater.ClearPaths | src/disambiguater.cpp:130-134 | Empties the index |
| Merge.AddedPair | src/disambiguater.cpp:18-34 | An addition fails exactly when the pair of path and server is present, and otherwise adds that pair |
| Merge.IndexInvariant | src/disambiguater.cpp:18-134 | Over all runs of adds and clears: no empty vector, distinct servers in each, and exactly the successfully added pairs |
| Merge.ListingCount | src/disambiguater.cpp:76-128 | The listing has one entry for each recorded pair and each directory |
| Merge.FilesOrdered | src/disambiguater.cpp:102-121 | The files come first, by path and then in the order in which their holders were added |
| Merge.DirsOrdered | src/disambiguater.cpp:122-126 | The directories follow, by path |
| Merge.Merged | src/disambiguater.cpp:54-63 | Merging duplicate-free listings of different servers never fails, and the index says what the listings say, directories with their last stat |
| Merge.UnionListing | src/disambiguater.cpp:102-128 | An entry is listed if and only if some server reports it, under its own name when it is the only one and tagged otherwise |
| Merge.OrderIndependence | src/disambiguater.cpp:54-128 | The names do not depend on the order of the reports |
| Merge.PermutedReports | src/disambiguater.cpp:54-128 | Asking the same servers in another order gives the same reports |
| Merge.ListingInjective | src/disambiguater.cpp:102-128 | Listed names are pairwise distinct if and only if no directory shares its name with a file that has one holder |
| Agfs.Mount.Getattr | src/agfs.cpp:95-128 | Asks the tagged server, or all connected ones in order until one succeeds |
| Agfs.Mount.Access | src/agfs.cpp:130-153 | Asks the tagged server, or all of them, dead ones included, until one grants it |
| Agfs.Mount.CheckExistance | src/agfs.cpp:66-79 | The servers that report the path, in order, and the dead ones whose stale variable happens not to be negative |
| Agfs.Mount.Open | src/agfs.cpp:366-393 | The server of the tag, or the only one that reports an untagged path, answers if it is connected: with the status of its local open on the path without the tag, and a handle unless that is an error; otherwise -ENOENT |
| Agfs.Mount.Readdir | src/agfs.cpp:176-219 | FUSE is handed ".", ".." and every entry of the merged listing with its stat, and the error |
| Agfs.Mount.Gather | src/agfs.cpp:189-206 | The loop over the servers: index and error |
| Agfs.Mount.Read | src/agfs.cpp:395-415 | Through a handle: the errno of the open, -1 for a directory or a local read that fails, or the bytes of the file in the range and their number, with zeros for those that did not come |
| Agfs.Mount.Write | src/agfs.cpp:417-434 | Through a handle: the errno of the open and nothing changed; otherwise only that file changes, by what the pieces put there, and the result is their number or the errno of the local write that failed; with full local writes it is the buffer at its offset |
| Origin.OpenBroadcast | src/agfs.cpp:366-393 | An untagged path is opened on a server exactly when precisely one reports it and that one is connected, with the status of its local open; otherwise the result is -ENOENT |
| Origin.OpenTagged | src/agfs.cpp:366-393 | A tagged path is opened on the server of its tag, under the path without the tag, or fails with -ENOENT |
| Origin.GetattrFirst | src/agfs.cpp:104-127 | An untagged path gets the attributes of the first connected server that has it |
| Origin.GetattrNone | src/agfs.cpp:104-127 | When no connected server has the path, the error is that of the last connected one: -2, or the errno of its lstat |
| Origin.GetattrDown | src/agfs.cpp:104-127 | When no server is connected the result is a zeroed success |
| Origin.GetattrTagged | src/agfs.cpp:101-103 | A tagged path gets what the server of its tag says about the path without it |
| Origin.GetattrTagLost | src/agfs.cpp:101-118 | When that server is not connected, all are asked for the path without the tag |
| Origin.AccessBroadcast | src/agfs.cpp:138-152 | Access to an untagged path is granted exactly when some server grants it, or there is no server |
| Origin.AccessTagged | src/agfs.cpp:138-141 | Access to a tagged path is granted by the server of its tag alone, when the path is there and the mask is not denied |
| Origin.ReaddirStatus | src/agfs.cpp:182-206 | Listing succeeds exactly when one of the servers asked, that of the tag or all, is down or has the directory; otherwise the error is -ENOTDIR |
| Origin.UnionOfServers | src/agfs.cpp:176-219 | An entry is in the mounted listing if and only if it is a file of a connected server, tagged when several have it, or a directory of one, with the stat of the last that has it; files and directories are told apart by what the servers have, not by their stats |
| Origin.DirectoriesOfServers | src/agfs.cpp:176-219 | The directories listed are exactly the directories of the connected servers |
| Origin.KindShows | src/disambiguater.cpp:22-33 | The mode in a listed stat says whether the server has a directory there |
| Origin.ReaddirTagged | src/agfs.cpp:189-195 | A tagged directory is asked of the server of its tag alone, and its names appear as they are |
| Origin.TaggedLeadsBack | src/agfs.cpp:366-393 | A tagged listed file leads to the server of its tag, which answers the open on the untagged path |
| Origin.ListedLeadsBack | src/agfs.cpp:176-219 | Every listed non-directory comes from a file of one server. That server answers the open, with its status for its path there and a handle unless that is an error, if and only if the name is tagged or no other server has it; otherwise open fails. Getattr returns the listed stat if and only if the name is tagged or that server is the first that has it |
| Origin.SoleLeadsBack | src/agfs.cpp:95-128 | The untagged case of this |
| Origin.UntaggedOpen | src/agfs.cpp:371-377 | An untagged name is opened by the one server that has it, and not at all when several do |
| Origin.UntaggedGetattr | src/agfs.cpp:104-118 | An untagged name gets the attributes its first server has for it |
| Origin.MountedNamesDistinct | src/agfs.cpp:211-215 | The names of a mounted listing are distinct if and only if no name is a directory on one server and the only file of that name on another |
| Origin.ClashingOpen | src/agfs.cpp:371-377 | Two servers where the file of one cannot be opened |
| Origin.ClashingNames | src/agfs.cpp:211-215 | The same two servers: two listed entries have one name |
| Origin.DirectoryStat | src/disambiguater.cpp:22-23 | A shared directory is listed with the last server's stat, and getattr agrees exactly when the first server's stat is the same |
| Origin.WriteThenRead | src/agfs.cpp:395-434 | What is written through a handle, with full local writes, is read back through it |
| Keys.GenerateKey | src/agfs-keygen.cpp:74-87 | The key is the hex image of 256 random bytes, 512 characters long |
| Keys.HexAt | src/agfs-keygen.cpp:17-87 | The two digits of each byte, upper half first, from 0 to 9 and A to F |
| Keys.HexInjective | src/agfs-keygen.cpp:78-87 | Different random bytes give different keys |
| Keys.HexIsWord | src/agfs-keygen.cpp:17 | A key contains no white space and no NUL |
| Keys.ReadKeyFile | src/agfs.cpp:606-612 | The words of a printed key file come back |
| Keys.KeyFileRoundTrip | src/agfs-keygen.cpp:70-90 | The client reads back the host, port and key that were printed |
| Keys.PrintedLines | src/agfs-keygen.cpp:70-93 | How the lines of both files look |
| Keys.FindKey | src/agfs-server.cpp:38-50 | The scanning loop ends on every text, with stale variables after failed extractions |
| Keys.KeyListRoundTrip | src/agfs-keygen.cpp:92-93 | Scanning the printed list finds the first line with the key and nothing else, except that an empty key matches an empty list |
| Handshake.Construct | src/agfs-server.cpp:18-82 | The object is usable exactly when key, user and mount are good, with the mount of the matching line; otherwise one refusal is sent; a whole key is judged as the model of the constructor says |
| Handshake.VerdictIs | src/agfs-server.cpp:53-76 | Which refusal is sent for an unknown key, user or mount, by the first line with the key |
| Handshake.ServeClient | src/agfsd.cpp:101-104 | Constructing the connection and entering the command loop is the greeting of the interleaved model, and the session begins where it ends |
| Handshake.GreetingIsAdmission | src/agfs-server.cpp:88-91 | The greeting is what the constructor does, and then the ACCEPT of the command loop |
| Handshake.HandshakeExchange | src/serverconnection.cpp:95-124 | Key up, verdict down, both sides aligned |
| Handshake.ConnectedIffIssued | src/serverconnection.cpp:95-124 | Under every schedule the client ends connected exactly when the first line with its key names an existing user and mount; then, and only then, the server is in its loop, and it serves the tree of that mount |
| Handshake.SessionBegins | src/serverconnection.cpp:95-124 | Where that handshake ends, a shared connection on that tree may begin |
| Handshake.IssuedKeyConnects | src/agfs-keygen.cpp:70-93 | A freshly issued key, read from the printed files, is accepted for its mount |

## Left out

- Sockets, name lookup, socket options, fork, accept, setuid and setgid: calls into the system; connections exist or not.
- Real timeouts on the client, and partial delivery of scalar, string and stat fields while the peer is alive: the code does not retry them, so alignment is not a theorem there. The server's timeout on a command is modelled.
- A key list file that cannot be opened: the constructor's loop then never ends, because the end-of-file flag is never set.
- STOP, reconnecting and the loop of `heartbeatThread` in the concurrent model: it starts after a successful connect and has no calls on a closed connection.
- AgfsIo.WriteString: does not model the early return after a failed write, because src/agfsio.hpp:6-11 assumes none.
- AgfsIo.ReadString: does not model the negative results of a failed read, for the same reason.
- AgfsIo.WriteStat: the same as WriteString, for each of its six writes.
- AgfsIo.ReadStat: the same as ReadString, for each of its six reads.
- The exception that boost throws in READDIR when a path can be looked up neither as present nor as missing.
- Open flags that create or truncate (FUSE does not pass them to open), symbolic links, and timestamps changed by a write.
- The clean-up of descriptors and handles (`agfs_release`, missing close calls), memory allocation and logging.
- The FUSE callbacks that work on the client's own file system (mknod, mkdir, rename, chmod, xattr and the like).
- `addFilepaths` for paths without stats: the same loop as the one modelled, and the FUSE callbacks do not use it.
- The quality of the random bytes, option parsing, src/agfs-client.cpp.
