/**
 * The exchanges of AgFS. A stub is the client half of an exchange (src/serverconnection.cpp), a handler the server
 * half (src/agfs-server.cpp); `Local` is the file operation the exchange stands for.
 */
module Protocol {
  import opened Bytes
  import opened Wire
  import opened Disk
  import opened Pieces
  import opened Process

  // namespace cmd of src/constants.hpp
  const STOP: U16 := 0
  const HEARTBEAT: U16 := 1
  const GETATTR: U16 := 2
  const ACCEPT: U16 := 3
  const INVALID_KEY: U16 := 4
  const MOUNT_NOT_FOUND: U16 := 5
  const USER_NOT_FOUND: U16 := 6
  const ACCESS: U16 := 7
  const READDIR: U16 := 8
  const READ: U16 := 9
  const WRITE: U16 := 10
  const NONE: U16 := 11
  const OPEN: U16 := 12

  // The numbers as they stand in constants.hpp, most significant byte first.
  lemma CommandBytes()
    ensures EncCmd(STOP) == [0, 0] && EncCmd(HEARTBEAT) == [0, 1] && EncCmd(GETATTR) == [0, 2]
    ensures EncCmd(ACCEPT) == [0, 3] && EncCmd(INVALID_KEY) == [0, 4]
    ensures EncCmd(MOUNT_NOT_FOUND) == [0, 5] && EncCmd(USER_NOT_FOUND) == [0, 6]
    ensures EncCmd(ACCESS) == [0, 7] && EncCmd(READDIR) == [0, 8] && EncCmd(READ) == [0, 9] && EncCmd(WRITE) == [0, 10]
    ensures EncCmd(NONE) == [0, 11] && EncCmd(OPEN) == [0, 12]
  {
    SmallCmd(0); SmallCmd(1); SmallCmd(2); SmallCmd(3); SmallCmd(4); SmallCmd(5); SmallCmd(6);
    SmallCmd(7); SmallCmd(8); SmallCmd(9); SmallCmd(10); SmallCmd(11); SmallCmd(12);
  }

  datatype Call =
    | GetAttr(path: CStr)
    | CheckAccess(path: CStr, mask: U32)
    | ReadDir(path: CStr)
    | ReadFile(path: CStr, size: U64, offset: U64)
    | WriteFile(path: CStr, offset: U64, data: Content)
    | OpenFile(path: CStr, flags: U32)
    | Beat

  datatype Reply =
    | Attributes(st: Stat, e: I64)
    | Status(e: I64)
    | Files(files: seq<(Str, Stat)>, e: I64)
    | Data(data: Str, e: I64)
    | Written(n: U64, e: I64)
    | Beaten(alive: bool)
    | Connected(ok: bool)

  // Where a handler leaves the server: at the top of its command loop, or with the session closed.
  datatype ServerEnd = AtTop | Closed

  // What sockets and local files decide during a call: the pieces of the transfer of a WRITE, how many bytes the one
  // read of the data of a READ returns, and whether a local read fails in the middle of a file.
  datatype Chance = Chance(pieces: seq<Piece>, fetched: nat, fails: bool)

  const UNEVENTFUL := Chance([], 0, false)

  // Of n bytes wanted, `fetched` come; 0 and numbers that are too large stand for all of them.
  function Fetch(n: nat, fetched: nat): (m: nat)
    ensures m <= n && (n > 0 ==> m > 0)
  {
    if 0 < fetched <= n then fetched else n
  }

  /* ---- Strings on the connection: two writes, two reads ---- */

  function SendString<R>(s: Str, k: Proc<R>): Proc<R>
    requires Sized(s)
  {
    Send(EncSize(|s|), SendBytes(s, k))
  }

  function RecvString<R>(k: Str -> Proc<R>): Proc<R> {
    Recv(8, (nb: Str) => RecvExactly(DecSize(nb), (sb: Str) => k(CString(sb))))
  }

  /* ---- Client stubs; the helpers name the points where a stub waits and what it does next ---- */

  function GetAttrStub(path: CStr): Proc<Reply> {
    Send(EncCmd(GETATTR), SendString(path, AwaitAttributes()))
  }

  function AwaitAttributes(): Proc<Reply> {
    Recv(8, (eb: Str) => GetAttrReply(DecError(eb)))
  }

  function GetAttrReply(e: I64): Proc<Reply> {
    if e >= 0 then Recv(STAT_BYTES, (sb: Str) => Ret(Attributes(DecStat(sb), e)))
    else Ret(Attributes(ZERO_STAT, e))
  }

  function AccessStub(path: CStr, mask: U32): Proc<Reply> {
    Send(EncCmd(ACCESS), SendString(path, SendMask(mask)))
  }

  function OpenStub(path: CStr, flags: U32): Proc<Reply> {
    Send(EncCmd(OPEN), SendString(path, SendMask(flags)))
  }

  function SendMask(mask: U32): Proc<Reply> {
    Send(EncMask(mask), Recv(8, (eb: Str) => Ret(Status(DecError(eb)))))
  }

  function ReadDirStub(path: CStr): Proc<Reply> {
    Send(EncCmd(READDIR), SendString(path, AwaitListing()))
  }

  function AwaitListing(): Proc<Reply> {
    Recv(8, (eb: Str) => ReadDirReply(DecError(eb)))
  }

  function ReadDirReply(e: I64): Proc<Reply> {
    if e >= 0 then Recv(8, (nb: Str) => RecvEntries(DecSize(nb), [], e))
    else Ret(Files([], e))
  }

  function RecvEntries(count: nat, files: seq<(Str, Stat)>, e: I64): Proc<Reply>
    decreases count, 1
  {
    if count == 0 then Ret(Files(files, e))
    else RecvString((name: Str) => RecvEntryStat(count, files, e, name))
  }

  function RecvEntryStat(count: Positive, files: seq<(Str, Stat)>, e: I64, name: Str): Proc<Reply>
    decreases count, 0
  {
    Recv(STAT_BYTES, (sb: Str) => RecvEntries(count - 1, files + [(name, DecStat(sb))], e))
  }

  function ReadStub(path: CStr, size: U64, offset: U64, fetched: nat): Proc<Reply> {
    Send(EncCmd(READ), SendString(path, SendRange(size, offset, fetched)))
  }

  function SendRange(size: U64, offset: U64, fetched: nat): Proc<Reply> {
    Send(EncSize(size), Send(EncSize(offset), AwaitData(fetched)))
  }

  function AwaitData(fetched: nat): Proc<Reply> {
    Recv(8, (eb: Str) => ReadReply(DecError(eb), fetched))
  }

  function ReadReply(e: I64, fetched: nat): Proc<Reply> {
    if e >= 0 then Recv(8, (nb: Str) => RecvData(DecSize(nb), e, fetched))
    else Ret(Data([], e))
  }

  // One read into a zeroed buffer of n bytes, whatever it returns.
  function RecvData(n: nat, e: I64, fetched: nat): Proc<Reply> {
    RecvExactly(Fetch(n, fetched), (d: Str) => Ret(DataReply(d, n, e)))
  }

  function DataReply(d: Str, n: nat, e: I64): Reply {
    Data(if |d| <= n then d + Zeros(n - |d|) else d, MinError(|d|, e))
  }

  // std::min of the length read and the error
  function MinError(n: nat, e: I64): I64 {
    if n < e then n else e
  }

  function WriteStub(path: CStr, offset: U64, data: Content): Proc<Reply> {
    Send(EncCmd(WRITE), SendString(path, AwaitOpened(offset, data)))
  }

  function AwaitOpened(offset: U64, data: Content): Proc<Reply> {
    Recv(8, (eb: Str) => WriteOpened(offset, data, DecError(eb)))
  }

  function WriteOpened(offset: U64, data: Content, e: I64): Proc<Reply> {
    if e < 0 then Ret(Written(0, e))
    else Send(EncSize(|data|), Send(EncSize(offset), SendBody(data)))
  }

  function SendBody(data: Content): Proc<Reply> {
    SendBytes(data, AwaitReport(|data|))
  }

  function AwaitReport(n: U64): Proc<Reply> {
    Recv(8, (eb: Str) => WriteReply(n, DecError(eb)))
  }

  function WriteReply(n: U64, e: I64): Proc<Reply> {
    if e >= 0 then Recv(8, (nb: Str) => Ret(Written(DecSize(nb), e)))
    else Ret(Written(n, e))
  }

  function BeatStub(): Proc<Reply> {
    Send(EncCmd(HEARTBEAT), Recv(2, (cb: Str) => Ret(Beaten(DecCmd(cb) != NONE))))
  }

  // connect(), once a socket is open
  function ConnectStub(key: Str): Proc<Reply>
    requires Sized(key)
  {
    SendString(key, AwaitVerdict())
  }

  function AwaitVerdict(): Proc<Reply> {
    Recv(2, (cb: Str) => Ret(Connected(DecCmd(cb) == ACCEPT)))
  }

  function Stub(c: Call, o: Chance): Proc<Reply> {
    match c
    case GetAttr(path) => GetAttrStub(path)
    case CheckAccess(path, mask) => AccessStub(path, mask)
    case ReadDir(path) => ReadDirStub(path)
    case ReadFile(path, size, offset) => ReadStub(path, size, offset, o.fetched)
    case WriteFile(path, offset, data) => WriteStub(path, offset, data)
    case OpenFile(path, flags) => OpenStub(path, flags)
    case Beat => BeatStub()
  }

  /* ---- Server handlers, after the two command bytes have been read ---- */

  const TOP: Proc<ServerEnd> := Ret(AtTop)

  function GetAttrHandler(t: Tree): Proc<ServerEnd> {
    RecvString((path: Str) => AnswerGetAttr(t, path))
  }

  function AnswerGetAttr(t: Tree, path: Str): Proc<ServerEnd> {
    var (st, e) := Lstat(t, path);
    Send(EncError(e), if e >= 0 then Send(EncStat(st), TOP) else TOP)
  }

  function AccessHandler(t: Tree): Proc<ServerEnd> {
    RecvString((path: Str) => AnswerAccess(t, path))
  }

  function AnswerAccess(t: Tree, path: Str): Proc<ServerEnd> {
    Recv(4, (mb: Str) => Send(EncError(Access(t, path, DecMask(mb))), TOP))
  }

  function OpenHandler(t: Tree): Proc<ServerEnd> {
    RecvString((path: Str) => AnswerOpen(t, path))
  }

  function AnswerOpen(t: Tree, path: Str): Proc<ServerEnd> {
    Recv(4, (mb: Str) => Send(EncError(OpenStatus(t, path, DecMask(mb))), TOP))
  }

  function ReadDirHandler(t: Tree): Proc<ServerEnd> {
    RecvString((path: Str) => AnswerReadDir(t, path))
  }

  function AnswerReadDir(t: Tree, path: Str): Proc<ServerEnd> {
    var (files, e) := Listing(t, path);
    Send(EncError(e), if e >= 0 then SendListing(files) else TOP)
  }

  function SendListing(files: seq<(CStr, Stat)>): Proc<ServerEnd>
    requires |files| < TWO_64
  {
    Send(EncSize(|files|), SendEntries(files))
  }

  function SendEntries(files: seq<(CStr, Stat)>): Proc<ServerEnd> {
    if files == [] then TOP
    else SendString(files[0].0, Send(EncStat(files[0].1), SendEntries(files[1..])))
  }

  function ReadHandler(t: Tree, fails: bool): Proc<ServerEnd> {
    RecvString((path: Str) => AwaitReadSize(t, path, fails))
  }

  function AwaitReadSize(t: Tree, path: Str, fails: bool): Proc<ServerEnd> {
    Recv(8, (nb: Str) => AwaitReadOffset(t, path, DecSize(nb), fails))
  }

  function AwaitReadOffset(t: Tree, path: Str, size: U64, fails: bool): Proc<ServerEnd> {
    Recv(8, (ob: Str) => AnswerRead(t, path, size, DecSize(ob), fails))
  }

  function AnswerRead(t: Tree, path: Str, size: U64, offset: U64, fails: bool): Proc<ServerEnd> {
    var (d, e) := Read(t, path, size, offset, fails);
    SendData(d, e)
  }

  function SendData(d: Content, e: I64): Proc<ServerEnd> {
    Send(EncError(e), if e >= 0 then Send(EncSize(|d|), SendBytes(d, TOP)) else TOP)
  }

  function WriteHandler(t: Tree, pieces: seq<Piece>): Proc<ServerEnd> {
    RecvString((path: Str) => AnswerWrite(t, path, pieces))
  }

  function AnswerWrite(t: Tree, path: Str, pieces: seq<Piece>): Proc<ServerEnd> {
    var e := OpenStatus(t, path, O_WRONLY);
    Send(EncError(e), if e < 0 then TOP else AwaitWriteSize(path, pieces))
  }

  function AwaitWriteSize(path: Str, pieces: seq<Piece>): Proc<ServerEnd> {
    Recv(8, (nb: Str) => AwaitWriteOffset(path, DecSize(nb), pieces))
  }

  function AwaitWriteOffset(path: Str, n: U64, pieces: seq<Piece>): Proc<ServerEnd> {
    Recv(8, (ob: Str) => TransferIfPossible(path, Position(DecSize(ob)), n, pieces))
  }

  // Pieces that are no course of this transfer describe no run of the handler.
  function TransferIfPossible(path: Str, pos: nat, n: U64, pieces: seq<Piece>): Proc<ServerEnd> {
    if Possible(pieces, n, pos) then Transfer(path, pos, n, 0, 0, pieces) else TOP
  }

  // The transfer loop: take a piece from the connection, write to the file, until everything has been taken, the client
  // has gone or a local write fails. `last` is the result of the last read or write.
  function Transfer(path: Str, pos: nat, want: nat, written: nat, last: nat, pieces: seq<Piece>): Proc<ServerEnd>
    requires Possible(pieces, want, pos)
    decreases |pieces|
  {
    if want == 0 then WriteReport(written, last)
    else
      match pieces[0]
      case Gone => WriteReport(written, 0)
      case Failed(read, errno) => Recv(read, (_: Str) => WriteFailed(errno))
      case Wrote(read, n) =>
        var k := Transfer(path, pos + n, want - read, written + n, n, pieces[1..]);
        Recv(read, (chunk: Str) => Store(path, pos, chunk[..Min(n, |chunk|)], k))
  }

  function Store(path: Str, pos: nat, bs: Str, k: Proc<ServerEnd>): Proc<ServerEnd> {
    Local((t: Tree) => WriteAt(t, path, pos, bs), k)
  }

  function WriteFailed(errno: Errno): Proc<ServerEnd> {
    Send(EncError(-(errno as int)), TOP)
  }

  // The report of the last result, which is never negative here, and the number of bytes written.
  function WriteReport(written: nat, last: nat): Proc<ServerEnd> {
    Send(EncError(AsError(last)), Send(EncSize(AsSize(written)), TOP))
  }

  // In their 64-bit types; no larger number occurs.
  function AsSize(n: nat): U64 {
    Min(n, TWO_64 - 1)
  }

  function AsError(n: nat): I64 {
    Min(n, TWO_63 - 1)
  }

  // What follows the transfer, when so much had been written before.
  function Reported(written: nat, last: nat, ps: seq<Piece>): Proc<ServerEnd> {
    match Failure(ps)
    case Some(errno) => WriteFailed(errno)
    case None => WriteReport(written + Total(ps), if ps == [] then last else LastResult(ps))
  }

  // The switch of processCommands; an unknown command is ignored.
  function Handler(c: U16, t: Tree, o: Chance): Proc<ServerEnd> {
    if c == STOP then Ret(Closed)
    else if c == HEARTBEAT then Send(EncCmd(HEARTBEAT), TOP)
    else if c == GETATTR then GetAttrHandler(t)
    else if c == READDIR then ReadDirHandler(t)
    else if c == ACCESS then AccessHandler(t)
    else if c == READ then ReadHandler(t, o.fails)
    else if c == WRITE then WriteHandler(t, o.pieces)
    else if c == OPEN then OpenHandler(t)
    else TOP
  }

  /* ---- The local operation behind a call ---- */

  // The pieces are a course of this transfer, if there is one, with the client there to the end; the buffer of a READ
  // can be allocated.
  predicate Admissible(t: Tree, c: Call, o: Chance) {
    match c
    case WriteFile(path, offset, data) =>
      OpenStatus(t, path, O_WRONLY) == 0 ==> Possible(o.pieces, |data|, Position(offset)) && Stays(o.pieces)
    case ReadFile(_, size, _) => size < TWO_63
    case _ => true
  }

  function CarriedFiles(files: seq<(CStr, Stat)>): (r: seq<(Str, Stat)>)
    ensures |r| == |files|
  {
    seq(|files|, i requires 0 <= i < |files| => (files[i].0, Carried(files[i].1)))
  }

  function LocalReply(t: Tree, c: Call, o: Chance): Reply {
    match c
    case GetAttr(path) => var (st, e) := Lstat(t, path); Attributes(Carried(st), e)
    case CheckAccess(path, mask) => Status(Access(t, path, mask))
    case ReadDir(path) => var (files, e) := Listing(t, path); Files(CarriedFiles(files), e)
    case ReadFile(path, size, offset) =>
      var (d, e) := Read(t, path, size, offset, o.fails);
      if e < 0 then Data([], e) else DataReply(d[..Fetch(|d|, o.fetched)], |d|, |d|)
    case WriteFile(path, offset, data) =>
      var e := OpenStatus(t, path, O_WRONLY);
      if e < 0 then Written(0, e) else WriteOutcome(|data|, o.pieces)
    case OpenFile(path, flags) => Status(OpenStatus(t, path, flags))
    case Beat => Beaten(true)
  }

  // When a local write failed, the number is the one the client has sent.
  function WriteOutcome(n: U64, pieces: seq<Piece>): Reply {
    match Failure(pieces)
    case Some(errno) => Written(n, -(errno as int))
    case None => Written(AsSize(Total(pieces)), AsError(LastResult(pieces)))
  }

  function LocalTree(t: Tree, c: Call, o: Chance): Tree {
    match c
    case WriteFile(path, offset, data) =>
      if OpenStatus(t, path, O_WRONLY) < 0 then t else WriteAt(t, path, Position(offset), Put(data, o.pieces))
    case _ => t
  }

  // What a call leaves unread on the way to the server, and on the way to the client.
  function LeftUp(t: Tree, c: Call, o: Chance): Str {
    match c
    case WriteFile(path, offset, data) =>
      if OpenStatus(t, path, O_WRONLY) < 0 then [] else data[Min(Taken(o.pieces), |data|)..]
    case _ => []
  }

  function LeftDown(t: Tree, c: Call, o: Chance): Str {
    match c
    case ReadFile(path, size, offset) =>
      var (d, e) := Read(t, path, size, offset, o.fails);
      if e < 0 then [] else d[Fetch(|d|, o.fetched)..]
    case _ => []
  }

  // The one read of the data of a READ returned all of it; a local write that failed in a WRITE was that of the last
  // piece.
  predicate Undisturbed(t: Tree, c: Call, o: Chance) {
    match c
    case ReadFile(path, size, offset) =>
      var (d, e) := Read(t, path, size, offset, o.fails);
      e < 0 || Fetch(|d|, o.fetched) == |d|
    case WriteFile(path, _, data) =>
      OpenStatus(t, path, O_WRONLY) < 0 || Failure(o.pieces) == None || Taken(o.pieces) == |data|
    case _ => true
  }

  lemma NothingLeftIffUndisturbed(t: Tree, c: Call, o: Chance)
    requires Admissible(t, c, o)
    ensures LeftUp(t, c, o) == [] && LeftDown(t, c, o) == [] <==> Undisturbed(t, c, o)
  {
    if c.WriteFile? && OpenStatus(t, c.path, O_WRONLY) == 0 {
      Conserved(o.pieces, |c.data|, Position(c.offset), c.data);
    }
  }

  /* ---- The two writes and the two reads of a string, in a run ---- */

  lemma SentString<R>(s: Str, k: Proc<R>, before: Snapshot, r: R, z: Snapshot)
    requires Sized(s) && Does(k, before.(trace := before.trace + Outs(EncString(s))), r, z)
    ensures Does(SendString(s, k), before, r, z)
  {
    var mid := before.(trace := before.trace + Outs(EncSize(|s|)));
    OutsAppend(EncSize(|s|), s);
    assert mid.trace + Outs(s) == before.trace + Outs(EncString(s));
    Sent(s, k, mid, r, z);
    Sent(EncSize(|s|), SendBytes(s, k), before, r, z);
  }

  lemma GotString<R>(k: Str -> Proc<R>, s: Snapshot, r: R, z: Snapshot)
    requires match DecField(KText, s.input)
             case Some((f, rest)) => Does(k(f.s), Consume(s, |s.input| - |rest|), r, z)
             case None => BrokenOff(s, z)
    ensures Does(RecvString(k), s, r, z)
  {
    var after := (sb: Str) => k(CString(sb));
    var outer := (nb: Str) => RecvExactly(DecSize(nb), after);
    if 8 <= |s.input| {
      var n, s1 := DecSize(s.input[..8]), Consume(s, 8);
      if n == 0 {
        assert s1.input[..0] == [] && s1.input[0..] == s1.input;
      } else {
        if n <= |s1.input| { ConsumeTwice(s, 8, n); }
        Got(n, after, s1, r, z);
      }
    }
    Got(8, outer, s, r, z);
  }

  lemma FinishString<R>(k: Str -> Proc<R>, s: Snapshot)
    ensures Finish(RecvString(k), s) ==
            match DecField(KText, s.input)
            case Some((f, rest)) => Finish(k(f.s), Consume(s, |s.input| - |rest|))
            case None => None
  {
    var after := (sb: Str) => k(CString(sb));
    var outer := (nb: Str) => RecvExactly(DecSize(nb), after);
    FinishRecv(8, outer, s);
    if 8 <= |s.input| {
      var n, s1 := DecSize(s.input[..8]), Consume(s, 8);
      if n == 0 {
        assert s1.input[..0] == [] && s1.input[0..] == s1.input;
      } else {
        FinishRecv(n, after, s1);
        if n <= |s1.input| { ConsumeTwice(s, 8, n); }
      }
    }
  }

  /* ---- The transfer of a WRITE, in a run ---- */

  // The transfer alone: it takes what its pieces take, leaves the rest, writes what they write, and reports.
  ghost predicate Accounted(path: Str, pos: nat, want: nat, written: nat, last: nat, ps: seq<Piece>,
                            input: Str, t: Tree)
    requires Possible(ps, want, pos) && Taken(ps) <= |input|
  {
    Run(Transfer(path, pos, want, written, last, ps), input, t) ==
    Preceded(Ins(input[..Taken(ps)]), Run(Reported(written, last, ps), input[Taken(ps)..],
                                          WriteAt(t, path, pos, Put(input, ps))))
  }

  lemma {:induction false} TransferRuns(path: Str, pos: nat, want: nat, written: nat, last: nat, ps: seq<Piece>,
                                        input: Str, t: Tree)
    requires Possible(ps, want, pos) && Taken(ps) <= |input|
    ensures Accounted(path, pos, want, written, last, ps, input, t)
    decreases |ps|
  {
    if want == 0 || !ps[0].Wrote? {
      TransferEnds(path, pos, want, written, last, ps, input, t);
    } else {
      var Wrote(read, n) := ps[0];
      TransferRuns(path, pos + n, want - read, written + n, n, ps[1..], input[read..],
                   WriteAt(t, path, pos, input[..n]));
      TransferGoesOn(path, pos, want, written, last, ps, input, t);
    }
  }

  lemma TransferEnds(path: Str, pos: nat, want: nat, written: nat, last: nat, ps: seq<Piece>, input: Str, t: Tree)
    requires Possible(ps, want, pos) && Taken(ps) <= |input| && (want == 0 || !ps[0].Wrote?)
    ensures Accounted(path, pos, want, written, last, ps, input, t)
  {
    WriteNothing(t, path, pos);
    if want > 0 {
      assert ps[1..] == [] && Taken(ps[1..]) == 0 && Total(ps[1..]) == 0;
      assert Put(input, ps) == [];
    }
    assert input[..0] == [] && input[0..] == input;
    if want == 0 || ps[0].Gone? {
      Unpreceded(Run(Reported(written, last, ps), input, t));
    }
  }

  lemma FirstPieceRuns(path: Str, pos: nat, want: nat, written: nat, last: nat, ps: seq<Piece>, input: Str, t: Tree)
    requires want > 0 && Possible(ps, want, pos) && ps[0].Wrote? && ps[0].read <= |input|
    ensures var Wrote(read, n) := ps[0];
            Run(Transfer(path, pos, want, written, last, ps), input, t) ==
            Preceded(Ins(input[..read]), Run(Transfer(path, pos + n, want - read, written + n, n, ps[1..]),
                                             input[read..], WriteAt(t, path, pos, input[..n])))
  {
    assert input[..ps[0].read][..ps[0].n] == input[..ps[0].n];
  }

  // From the end of the later pieces to the end of all of them.
  lemma SameEnd(path: Str, pos: nat, written: nat, last: nat, ps: seq<Piece>, input: Str, t: Tree)
    requires ps != [] && ps[0].Wrote? && ps[0].n <= ps[0].read && Taken(ps) <= |input|
    ensures var Wrote(read, n) := ps[0];
            var rest, input', t' := ps[1..], input[read..], WriteAt(t, path, pos, input[..n]);
            && Taken(rest) <= |input'|
            && Run(Reported(written + n, n, rest), input'[Taken(rest)..],
                   WriteAt(t', path, pos + n, Put(input', rest))) ==
               Run(Reported(written, last, ps), input[Taken(ps)..], WriteAt(t, path, pos, Put(input, ps)))
            && input[..read] + input'[..Taken(rest)] == input[..Taken(ps)]
  {
    var Wrote(read, n) := ps[0];
    LaterPieces(ps, n);
    assert Reported(written + n, n, ps[1..]) == Reported(written, last, ps);
    WriteFirst(t, path, pos, input, ps);
    assert input[read..][Taken(ps[1..])..] == input[Taken(ps)..];
  }

  lemma TransferGoesOn(path: Str, pos: nat, want: nat, written: nat, last: nat, ps: seq<Piece>, input: Str, t: Tree)
    requires want > 0 && Possible(ps, want, pos) && Taken(ps) <= |input| && ps[0].Wrote?
    requires var Wrote(read, n) := ps[0];
             Accounted(path, pos + n, want - read, written + n, n, ps[1..], input[read..],
                       WriteAt(t, path, pos, input[..n]))
    ensures Accounted(path, pos, want, written, last, ps, input, t)
  {
    FirstPieceRuns(path, pos, want, written, last, ps, input, t);
    SameEnd(path, pos, written, last, ps, input, t);
    var read := ps[0].read;
    PrecededJoined(input[..read], input[read..][..Taken(ps[1..])],
                   Run(Reported(written, last, ps), input[Taken(ps)..], WriteAt(t, path, pos, Put(input, ps))));
  }

  lemma PrecededJoined<R>(a: Str, b: Str, r: Option<Outcome<R>>)
    ensures Preceded(Ins(a), Preceded(Ins(b), r)) == Preceded(Ins(a + b), r)
  {
    InsAppend(a, b);
    PrecededTwice(Ins(a), Ins(b), r);
  }

  // What the report puts on the socket: one negative error, or an error that is not negative and the number of bytes.
  function ReportBytes(ps: seq<Piece>): Str {
    match Failure(ps)
    case Some(errno) => EncError(-(errno as int))
    case None => EncError(AsError(LastResult(ps))) + EncSize(AsSize(Total(ps)))
  }

  lemma ReportRuns(ps: seq<Piece>, input: Str, t: Tree)
    ensures Run(Reported(0, 0, ps), input, t) == Some(Outcome(AtTop, Outs(ReportBytes(ps)), input, t))
  {
    match Failure(ps)
    case Some(errno) =>
      assert Outs(EncError(-(errno as int))) + [] == Outs(ReportBytes(ps));
    case None =>
      var a, b := EncError(AsError(LastResult(ps))), EncSize(AsSize(Total(ps)));
      OutsAppend(a, b);
      assert Reported(0, 0, ps) == Send(a, Send(b, TOP));
      assert Run(Send(b, TOP), input, t) == Some(Outcome(AtTop, Outs(b) + [], input, t));
      assert Outs(a) + (Outs(b) + []) == Outs(ReportBytes(ps));
  }
}
