/**
 * Remote calls are local calls. For every call, the exchange of stub and handler over an aligned connection ends, under
 * every schedule, with the reply and the tree of the local operation and the server waiting for its next command; both
 * queues are empty if and only if the call was undisturbed.
 */
module Rpc {
  import opened Bytes
  import opened Wire
  import opened Disk
  import opened Pieces
  import opened Process
  import opened Protocol
  import opened Exchange

  function Start(c: Call, t: Tree, o: Chance, served: nat): Link {
    Link(Stub(c, o), TOP, [], [], t, o, served)
  }

  function End(c: Call, t: Tree, o: Chance, served: nat): Link {
    Link(Ret(LocalReply(t, c, o)), TOP, LeftUp(t, c, o), LeftDown(t, c, o), LocalTree(t, c, o), o, served + 1)
  }

  ghost predicate Exchanges(c: Call, t: Tree, o: Chance, served: nat) {
    Reaches(Start(c, t, o, served), End(c, t, o, served))
  }

  // Nothing under way, and the server waits for a command.
  ghost predicate Aligned(l: Link) {
    l.srv == TOP && l.c2s == [] && l.s2c == []
  }

  /* ---- Strings ---- */

  // A process that has been given the two pieces of a string.
  function Fed<R>(p: Proc<R>, s: CStr): Proc<R>
    requires p.Recv?
  {
    var q := p.kr(EncSize(|s|));
    if s != [] && q.Recv? then q.kr(s) else q
  }

  predicate WantsString<R>(p: Proc<R>, s: CStr) {
    && p.Recv? && p.n == 8 && !p.kr(EncSize(|s|)).Ret? && !Fed(p, s).Ret?
    && (s != [] ==> p.kr(EncSize(|s|)).Recv? && p.kr(EncSize(|s|)).n == |s|)
  }

  lemma CliSendsString(l: Link, s: CStr, k: Proc<Reply>)
    requires l.cli == SendString(s, k)
    ensures Reaches(l, l.(cli := k, c2s := l.c2s + EncString(s)))
  {
    CliSends(l);
    Associate(l.c2s, EncSize(|s|), s);
    if s == [] {
      assert EncString(s) == EncSize(|s|);
    } else {
      var l1 := l.(cli := l.cli.k, c2s := l.c2s + l.cli.bs);
      CliSends(l1);
      Compose(l, l1, l.(cli := k, c2s := l.c2s + EncString(s)));
    }
  }

  lemma SrvSendsString(l: Link, s: CStr, k: Proc<ServerEnd>)
    requires l.srv == SendString(s, k)
    ensures Reaches(l, l.(srv := k, s2c := l.s2c + EncString(s)))
  {
    SrvSends(l);
    Associate(l.s2c, EncSize(|s|), s);
    if s == [] {
      assert EncString(s) == EncSize(|s|);
    } else {
      var l1 := l.(srv := l.srv.k, s2c := l.s2c + l.srv.bs);
      SrvSends(l1);
      Compose(l, l1, l.(srv := k, s2c := l.s2c + EncString(s)));
    }
  }

  lemma SrvReceivesString(l: Link, s: CStr, rest: Str)
    requires WantsString(l.srv, s)
    requires l.c2s == EncString(s) + rest
    ensures Reaches(l, l.(srv := Fed(l.srv, s), c2s := rest))
  {
    Associate(EncSize(|s|), s, rest);
    SrvReceives(l, EncSize(|s|), s + rest);
    var l1 := l.(srv := l.srv.kr(EncSize(|s|)), c2s := s + rest);
    if s == [] {
      assert s + rest == rest;
    } else {
      SrvReceives(l1, s, rest);
      Compose(l, l1, l.(srv := Fed(l.srv, s), c2s := rest));
    }
  }

  lemma CliReceivesString(l: Link, s: CStr, rest: Str)
    requires WantsString(l.cli, s)
    requires l.s2c == EncString(s) + rest
    ensures Reaches(l, l.(cli := Fed(l.cli, s), s2c := rest))
  {
    Associate(EncSize(|s|), s, rest);
    CliReceives(l, EncSize(|s|), s + rest);
    var l1 := l.(cli := l.cli.kr(EncSize(|s|)), s2c := s + rest);
    if s == [] {
      assert s + rest == rest;
    } else {
      CliReceives(l1, s, rest);
      Compose(l, l1, l.(cli := Fed(l.cli, s), s2c := rest));
    }
  }

  lemma CStrKept(s: CStr)
    ensures CString(s) == s && DecSize(EncSize(|s|)) == |s|
  {
    CStringExact(s);
    SizeInverse(|s|);
  }

  /* ---- The opening common to all calls: command and path ---- */

  lemma StringWanted(k: Str -> Proc<ServerEnd>, s: CStr)
    requires !k(s).Ret?
    ensures WantsString(RecvString(k), s) && Fed(RecvString(k), s) == k(s)
  {
    CStrKept(s);
  }

  // After the client has sent the command and the path, and the server has read both.
  lemma Opening(l: Link, c: U16, path: CStr, k: Proc<Reply>, answer: Str -> Proc<ServerEnd>)
    requires l.cli == Send(EncCmd(c), SendString(path, k))
    requires l.srv == TOP && l.c2s == []
    requires Handler(c, l.tree, l.o) == RecvString(answer) && !answer(path).Ret?
    ensures Reaches(l, l.(cli := k, srv := answer(path), served := l.served + 1))
  {
    CommandSent(l, c, path, k);
    var l1 := l.(cli := k, c2s := EncCmd(c) + EncString(path));
    SrvDispatches(l1, c, EncString(path));
    var l2 := l.(cli := k, srv := RecvString(answer), c2s := EncString(path), served := l.served + 1);
    Compose(l, l1, l2);
    assert EncString(path) == EncString(path) + [];
    StringWanted(answer, path);
    SrvReceivesString(l2, path, []);
    Compose(l, l2, l.(cli := k, srv := answer(path), served := l.served + 1));
  }

  lemma CommandSent(l: Link, c: U16, path: CStr, k: Proc<Reply>)
    requires l.cli == Send(EncCmd(c), SendString(path, k)) && l.c2s == []
    ensures Reaches(l, l.(cli := k, c2s := EncCmd(c) + EncString(path)))
  {
    CliSends(l);
    assert [] + EncCmd(c) == EncCmd(c);
    var l1 := l.(cli := l.cli.k, c2s := EncCmd(c));
    CliSendsString(l1, path, k);
    Compose(l, l1, l.(cli := k, c2s := EncCmd(c) + EncString(path)));
  }

  // One field from the client, read at once by the server.
  lemma FieldUp(l: Link)
    requires l.cli.Send? && l.srv.Recv? && |l.cli.bs| == l.srv.n && l.c2s == []
    requires !l.srv.kr(l.cli.bs).Ret?
    ensures Reaches(l, l.(cli := l.cli.k, srv := l.srv.kr(l.cli.bs)))
  {
    CliSends(l);
    var l1 := l.(cli := l.cli.k, c2s := l.c2s + l.cli.bs);
    assert l1.c2s == l.cli.bs + [];
    SrvReceives(l1, l.cli.bs, []);
    Compose(l, l1, l.(cli := l.cli.k, srv := l.srv.kr(l.cli.bs)));
  }

  // One field from the server, read at once by the client.
  lemma FieldDown(l: Link)
    requires l.srv.Send? && l.cli.Recv? && |l.srv.bs| == l.cli.n && l.s2c == []
    ensures Reaches(l, l.(srv := l.srv.k, cli := l.cli.kr(l.srv.bs)))
  {
    SrvSends(l);
    var l1 := l.(srv := l.srv.k, s2c := l.s2c + l.srv.bs);
    assert l1.s2c == l.srv.bs + [];
    CliReceives(l1, l.srv.bs, []);
    Compose(l, l1, l.(srv := l.srv.k, cli := l.cli.kr(l.srv.bs)));
  }

  /* ---- One lemma per exchange ---- */

  lemma BeatExchange(t: Tree, o: Chance, served: nat)
    ensures Exchanges(Beat, t, o, served)
  {
    var a := Start(Beat, t, o, served);
    var l := a.(cli := BeatStub().k, srv := Send(EncCmd(HEARTBEAT), TOP), served := served + 1);
    BeatCommand(a);
    BeatAnswer(l);
    Compose(a, l, End(Beat, t, o, served));
  }

  lemma BeatCommand(l: Link)
    requires l.cli == BeatStub() && l.srv == TOP && l.c2s == []
    ensures Reaches(l, l.(cli := BeatStub().k, srv := Send(EncCmd(HEARTBEAT), TOP), served := l.served + 1))
  {
    var l1 := l.(cli := l.cli.k, c2s := l.c2s + EncCmd(HEARTBEAT));
    CliSends(l);
    assert l1.c2s == EncCmd(HEARTBEAT) + [];
    SrvDispatches(l1, HEARTBEAT, []);
    Compose(l, l1, l1.(srv := Send(EncCmd(HEARTBEAT), TOP), c2s := [], served := l.served + 1));
  }

  lemma BeatAnswer(l: Link)
    requires l.cli == BeatStub().k && l.srv == Send(EncCmd(HEARTBEAT), TOP) && l.s2c == []
    ensures Reaches(l, l.(cli := Ret(Beaten(true)), srv := TOP))
  {
    CmdInverse(HEARTBEAT);
    FieldDown(l);
  }

  lemma GetAttrAnswer(l: Link, path: CStr)
    requires l.cli == AwaitAttributes()
    requires l.srv == AnswerGetAttr(l.tree, path) && l.s2c == []
    ensures Reaches(l, l.(cli := Ret(LocalReply(l.tree, GetAttr(path), l.o)), srv := TOP))
  {
    var (st, e) := Lstat(l.tree, path);
    ErrorInverse(e);
    FieldDown(l);
    var l1 := l.(srv := l.srv.k, cli := GetAttrReply(e));
    if e >= 0 {
      StatInverse(st);
      FieldDown(l1);
      Compose(l, l1, l.(cli := Ret(Attributes(Carried(st), e)), srv := TOP));
    }
  }

  lemma GetAttrExchange(path: CStr, t: Tree, o: Chance, served: nat)
    ensures Exchanges(GetAttr(path), t, o, served)
  {
    var a := Start(GetAttr(path), t, o, served);
    Opening(a, GETATTR, path, AwaitAttributes(), (p: Str) => AnswerGetAttr(t, p));
    var l1 := a.(served := served + 1, cli := AwaitAttributes(), srv := AnswerGetAttr(t, path));
    GetAttrAnswer(l1, path);
    Compose(a, l1, End(GetAttr(path), t, o, served));
  }

  lemma AccessExchange(path: CStr, mask: U32, t: Tree, o: Chance, served: nat)
    ensures Exchanges(CheckAccess(path, mask), t, o, served)
  {
    var a := Start(CheckAccess(path, mask), t, o, served);
    Opening(a, ACCESS, path, SendMask(mask), (p: Str) => AnswerAccess(t, p));
    var l1 := a.(served := served + 1, cli := SendMask(mask), srv := AnswerAccess(t, path));
    MaskInverse(mask);
    FieldUp(l1);
    var l2 := l1.(cli := l1.cli.k, srv := Send(EncError(Access(t, path, mask)), TOP));
    Compose(a, l1, l2);
    ErrorInverse(Access(t, path, mask));
    FieldDown(l2);
    Compose(a, l2, End(CheckAccess(path, mask), t, o, served));
  }

  lemma OpenExchange(path: CStr, flags: U32, t: Tree, o: Chance, served: nat)
    ensures Exchanges(OpenFile(path, flags), t, o, served)
  {
    var a := Start(OpenFile(path, flags), t, o, served);
    Opening(a, OPEN, path, SendMask(flags), (p: Str) => AnswerOpen(t, p));
    var l1 := a.(served := served + 1, cli := SendMask(flags), srv := AnswerOpen(t, path));
    MaskInverse(flags);
    FieldUp(l1);
    var l2 := l1.(cli := l1.cli.k, srv := Send(EncError(OpenStatus(t, path, flags)), TOP));
    Compose(a, l1, l2);
    ErrorInverse(OpenStatus(t, path, flags));
    FieldDown(l2);
    Compose(a, l2, End(OpenFile(path, flags), t, o, served));
  }

  // One pass of the listing loops: the client has read exactly the entry the server has written.
  lemma EntryExchange(l: Link, files: seq<(CStr, Stat)>, got: seq<(Str, Stat)>, e: I64)
    requires files != [] && l.s2c == []
    requires l.cli == RecvEntries(|files|, got, e) && l.srv == SendEntries(files)
    ensures Reaches(l, l.(cli := RecvEntries(|files| - 1, got + [(files[0].0, Carried(files[0].1))], e),
                          srv := SendEntries(files[1..])))
  {
    var (name, st) := files[0];
    var k := Send(EncStat(st), SendEntries(files[1..]));
    CStrKept(name);
    SrvSendsString(l, name, k);
    assert [] + EncString(name) == EncString(name) + [];
    var l1 := l.(srv := k, s2c := EncString(name));
    CliReceivesString(l1, name, []);
    var l2 := l.(cli := RecvEntryStat(|files|, got, e, name), srv := k);
    Compose(l, l1, l2);
    StatInverse(st);
    FieldDown(l2);
    Compose(l, l2, l.(cli := RecvEntries(|files| - 1, got + [(name, Carried(st))], e), srv := SendEntries(files[1..])));
  }

  // READDIR stream fidelity: the client rebuilds the sequence of entries and nothing is left over.
  lemma {:induction false} EntriesExchange(l: Link, files: seq<(CStr, Stat)>, got: seq<(Str, Stat)>, e: I64)
    requires l.cli == RecvEntries(|files|, got, e) && l.srv == SendEntries(files) && l.s2c == []
    ensures Reaches(l, l.(cli := Ret(Files(got + CarriedFiles(files), e)), srv := TOP))
    decreases |files|
  {
    var end := l.(cli := Ret(Files(got + CarriedFiles(files), e)), srv := TOP);
    if files == [] {
      assert got + CarriedFiles(files) == got;
      assert Steps(0, l, end);
    } else {
      EntryExchange(l, files, got, e);
      var got' := got + [(files[0].0, Carried(files[0].1))];
      var l1 := l.(cli := RecvEntries(|files| - 1, got', e), srv := SendEntries(files[1..]));
      EntriesExchange(l1, files[1..], got', e);
      assert got' + CarriedFiles(files[1..]) == got + CarriedFiles(files);
      Compose(l, l1, end);
    }
  }

  lemma ReadDirAnswer(l: Link, path: CStr)
    requires l.cli == AwaitListing() && l.srv == AnswerReadDir(l.tree, path) && l.s2c == []
    ensures Reaches(l, l.(cli := Ret(LocalReply(l.tree, ReadDir(path), l.o)), srv := TOP))
  {
    var (files, e) := Listing(l.tree, path);
    var end := l.(cli := Ret(Files(CarriedFiles(files), e)), srv := TOP);
    ErrorInverse(e);
    FieldDown(l);
    var l1 := l.(srv := l.srv.k, cli := ReadDirReply(e));
    if e >= 0 {
      SizeInverse(|files|);
      FieldDown(l1);
      var l2 := l.(cli := RecvEntries(|files|, [], e), srv := SendEntries(files));
      Compose(l, l1, l2);
      EntriesExchange(l2, files, [], e);
      assert [] + CarriedFiles(files) == CarriedFiles(files);
      Compose(l, l2, end);
    }
  }

  lemma ReadDirExchange(path: CStr, t: Tree, o: Chance, served: nat)
    ensures Exchanges(ReadDir(path), t, o, served)
  {
    var a := Start(ReadDir(path), t, o, served);
    Opening(a, READDIR, path, AwaitListing(), (p: Str) => AnswerReadDir(t, p));
    var l1 := a.(served := served + 1, cli := AwaitListing(), srv := AnswerReadDir(t, path));
    ReadDirAnswer(l1, path);
    Compose(a, l1, l1.(cli := Ret(LocalReply(t, ReadDir(path), o)), srv := TOP));
  }

  // The reply half of a READ: error, and unless negative the length and the bytes, of which the client fetches what
  // its one read returns.
  lemma ReadAnswer(l: Link, d: Content, e: I64, fetched: nat)
    requires l.cli == AwaitData(fetched) && l.srv == SendData(d, e) && l.s2c == []
    requires e >= 0 ==> e == |d|
    requires e < 0 ==> d == []
    ensures var m := Fetch(|d|, fetched);
            var reply := if e < 0 then Data([], e) else DataReply(d[..m], |d|, |d|);
            Reaches(l, l.(cli := Ret(reply), srv := TOP, s2c := d[m..]))
  {
    ErrorInverse(e);
    FieldDown(l);
    var l1 := l.(srv := l.srv.k, cli := ReadReply(e, fetched));
    if e >= 0 {
      SizeInverse(|d|);
      FieldDown(l1);
      var l2 := l.(srv := SendBytes(d, TOP), cli := RecvData(|d|, e, fetched));
      Compose(l, l1, l2);
      DataFetched(l2, d, fetched);
      Compose(l, l2, l.(cli := Ret(DataReply(d[..Fetch(|d|, fetched)], |d|, |d|)), srv := TOP,
                        s2c := d[Fetch(|d|, fetched)..]));
    }
  }

  lemma DataFetched(l: Link, d: Content, fetched: nat)
    requires l.cli == RecvData(|d|, |d|, fetched) && l.srv == SendBytes(d, TOP) && l.s2c == []
    ensures var m := Fetch(|d|, fetched);
            Reaches(l, l.(cli := Ret(DataReply(d[..m], |d|, |d|)), srv := TOP, s2c := d[m..]))
  {
    var m := Fetch(|d|, fetched);
    var end := l.(cli := Ret(DataReply(d[..m], |d|, |d|)), srv := TOP, s2c := d[m..]);
    if d == [] {
      assert Steps(0, l, end);
    } else {
      SomeReceived(l, d, m);
      assert l.cli.kr(d[..m]) == end.cli;
    }
  }

  // The server sends d, and the client takes the first m bytes of it.
  lemma SomeReceived(l: Link, d: Chunk, m: Positive)
    requires m <= |d| && l.cli.Recv? && l.cli.n == m && l.srv == Send(d, TOP) && l.s2c == []
    ensures Reaches(l, l.(cli := l.cli.kr(d[..m]), srv := TOP, s2c := d[m..]))
  {
    SrvSends(l);
    assert [] + d == d == d[..m] + d[m..];
    var l1 := l.(srv := TOP, s2c := d);
    CliReceives(l1, d[..m], d[m..]);
    Compose(l, l1, l.(cli := l.cli.kr(d[..m]), srv := TOP, s2c := d[m..]));
  }

  // When the server has the parameters of a READ.
  function ReadAsked(path: CStr, size: U64, offset: U64, t: Tree, o: Chance, served: nat): Link {
    Link(AwaitData(o.fetched), AnswerRead(t, path, size, offset, o.fails), [], [], t, o, served + 1)
  }

  lemma RangeSent(l: Link, path: CStr, size: U64, offset: U64)
    requires l.cli == SendRange(size, offset, l.o.fetched) && l.srv == AwaitReadSize(l.tree, path, l.o.fails)
    requires l.c2s == [] && l.s2c == [] && l.served > 0
    ensures Reaches(l, ReadAsked(path, size, offset, l.tree, l.o, l.served - 1))
  {
    SizeInverse(size);
    FieldUp(l);
    var l' := l.(cli := l.cli.k, srv := AwaitReadOffset(l.tree, path, size, l.o.fails));
    SizeInverse(offset);
    FieldUp(l');
    Compose(l, l', ReadAsked(path, size, offset, l.tree, l.o, l.served - 1));
  }

  lemma ReadExchange(path: CStr, size: U64, offset: U64, t: Tree, o: Chance, served: nat)
    ensures Exchanges(ReadFile(path, size, offset), t, o, served)
  {
    var a, b := Start(ReadFile(path, size, offset), t, o, served), ReadAsked(path, size, offset, t, o, served);
    Opening(a, READ, path, SendRange(size, offset, o.fetched), (p: Str) => AwaitReadSize(t, p, o.fails));
    var l1 := a.(served := served + 1, cli := SendRange(size, offset, o.fetched),
                 srv := AwaitReadSize(t, path, o.fails));
    RangeSent(l1, path, size, offset);
    Compose(a, l1, b);
    var (d, e) := Read(t, path, size, offset, o.fails);
    ReadAnswer(b, d, e, o.fetched);
    Compose(a, b, End(ReadFile(path, size, offset), t, o, served));
  }

  // The report half of a WRITE.
  lemma ReportReceived(l: Link, n: U64, ps: seq<Piece>)
    requires l.cli == AwaitReport(n) && l.s2c == ReportBytes(ps)
    ensures Reaches(l, l.(cli := Ret(WriteOutcome(n, ps)), s2c := []))
  {
    match Failure(ps)
    case Some(errno) =>
      ErrorInverse(-(errno as int));
      CliReceives(l, EncError(-(errno as int)), []);
    case None =>
      var a, b := EncError(AsError(LastResult(ps))), EncSize(AsSize(Total(ps)));
      ErrorInverse(AsError(LastResult(ps)));
      SizeInverse(AsSize(Total(ps)));
      CliReceives(l, a, b);
      var l1 := l.(cli := WriteReply(n, AsError(LastResult(ps))), s2c := b);
      assert b == b + [];
      CliReceives(l1, b, []);
      Compose(l, l1, l.(cli := Ret(WriteOutcome(n, ps)), s2c := []));
  }

  // The server's half of the data phase: in whatever pieces the buffer x is taken and written, the file gets what the
  // pieces put there, and what they do not take stays on the connection.
  lemma SrvTransfers(l: Link, path: Str, pos: nat, ps: seq<Piece>, x: Str)
    requires Possible(ps, |x|, pos) && Stays(ps)
    requires l.srv == Transfer(path, pos, |x|, 0, 0, ps) && l.c2s == x && l.s2c == []
    ensures Taken(ps) <= |x|
    ensures Reaches(l, l.(srv := TOP, c2s := x[Taken(ps)..], s2c := ReportBytes(ps),
                          tree := WriteAt(l.tree, path, pos, Put(x, ps))))
  {
    Conserved(ps, |x|, pos, x);
    TransferRuns(path, pos, |x|, 0, 0, ps, x, l.tree);
    TransferAnswers(path, pos, |x|, 0, 0, ps, x, l.tree);
    ReportRuns(ps, x[Taken(ps)..], WriteAt(l.tree, path, pos, Put(x, ps)));
    SrvRuns(l);
    NoneSent(x[..Taken(ps)], Outs(ReportBytes(ps)));
    SentOuts(ReportBytes(ps));
    assert [] + ReportBytes(ps) == ReportBytes(ps);
  }

  // When a WRITE has ended.
  function WriteDone(l: Link, path: CStr, offset: U64, data: Content): Link
    requires Taken(l.o.pieces) <= |data|
  {
    var ps := l.o.pieces;
    l.(cli := Ret(WriteOutcome(|data|, ps)), srv := TOP, c2s := data[Taken(ps)..],
       tree := WriteAt(l.tree, path, Position(offset), Put(data, ps)))
  }

  // The data phase of a WRITE: sender and transfer loop, in whatever pieces.
  lemma WriteBody(l: Link, path: CStr, offset: U64, data: Content)
    requires Admissible(l.tree, WriteFile(path, offset, data), l.o)
    requires OpenStatus(l.tree, path, O_WRONLY) == 0
    requires l.cli == SendBody(data) && l.srv == TransferIfPossible(path, Position(offset), |data|, l.o.pieces)
    requires l.c2s == [] && l.s2c == []
    ensures Taken(l.o.pieces) <= |data| && Reaches(l, WriteDone(l, path, offset, data))
  {
    var ps := l.o.pieces;
    if data != [] { CliSends(l); }
    assert [] + data == data;
    var l1 := l.(cli := AwaitReport(|data|), c2s := data);
    assert data == [] ==> Steps(0, l, l1);
    SrvTransfers(l1, path, Position(offset), ps, data);
    var l2 := WriteDone(l1, path, offset, data).(cli := l1.cli, s2c := ReportBytes(ps));
    Compose(l, l1, l2);
    ReportReceived(l2, |data|, ps);
    Compose(l, l2, WriteDone(l, path, offset, data));
  }

  // The second round of a WRITE, entered only when the file could be opened.
  lemma WriteAccepted(l: Link, path: CStr, offset: U64, data: Content)
    requires Admissible(l.tree, WriteFile(path, offset, data), l.o)
    requires OpenStatus(l.tree, path, O_WRONLY) == 0
    requires l.cli == WriteOpened(offset, data, 0) && l.srv == AwaitWriteSize(path, l.o.pieces)
    requires l.c2s == [] && l.s2c == []
    ensures Taken(l.o.pieces) <= |data| && Reaches(l, WriteDone(l, path, offset, data))
  {
    SizeInverse(|data|);
    FieldUp(l);
    var l1 := l.(cli := Send(EncSize(offset), SendBody(data)), srv := AwaitWriteOffset(path, |data|, l.o.pieces));
    SizeInverse(offset);
    FieldUp(l1);
    var l2 := l.(cli := SendBody(data), srv := TransferIfPossible(path, Position(offset), |data|, l.o.pieces));
    Compose(l, l1, l2);
    WriteBody(l2, path, offset, data);
    Compose(l, l2, WriteDone(l, path, offset, data));
  }

  lemma WriteEnds(l: Link, path: CStr, offset: U64, data: Content, served: nat)
    requires Admissible(l.tree, WriteFile(path, offset, data), l.o) && OpenStatus(l.tree, path, O_WRONLY) == 0
    requires l.c2s == [] && l.s2c == [] && l.served == served + 1
    ensures Taken(l.o.pieces) <= |data|
    ensures WriteDone(l, path, offset, data) == End(WriteFile(path, offset, data), l.tree, l.o, served)
  {
    Conserved(l.o.pieces, |data|, Position(offset), data);
  }

  // When both sides know whether the file could be opened.
  function WriteAnswered(path: CStr, offset: U64, data: Content, t: Tree, o: Chance, served: nat): Link {
    var e := OpenStatus(t, path, O_WRONLY);
    Link(WriteOpened(offset, data, e), if e < 0 then TOP else AwaitWriteSize(path, o.pieces), [], [], t, o, served + 1)
  }

  lemma WriteOpening(path: CStr, offset: U64, data: Content, t: Tree, o: Chance, served: nat)
    ensures Reaches(Start(WriteFile(path, offset, data), t, o, served), WriteAnswered(path, offset, data, t, o, served))
  {
    var a := Start(WriteFile(path, offset, data), t, o, served);
    Opening(a, WRITE, path, AwaitOpened(offset, data), (p: Str) => AnswerWrite(t, p, o.pieces));
    var l1 := a.(served := served + 1, cli := AwaitOpened(offset, data), srv := AnswerWrite(t, path, o.pieces));
    ErrorInverse(OpenStatus(t, path, O_WRONLY));
    FieldDown(l1);
    Compose(a, l1, WriteAnswered(path, offset, data, t, o, served));
  }

  // The interactive exchange: the client sends nothing more until it has the first error.
  lemma WriteExchange(path: CStr, offset: U64, data: Content, t: Tree, o: Chance, served: nat)
    requires Admissible(t, WriteFile(path, offset, data), o)
    ensures Exchanges(WriteFile(path, offset, data), t, o, served)
  {
    var a, l := Start(WriteFile(path, offset, data), t, o, served), WriteAnswered(path, offset, data, t, o, served);
    WriteOpening(path, offset, data, t, o, served);
    if OpenStatus(t, path, O_WRONLY) >= 0 {
      WriteAccepted(l, path, offset, data);
      WriteEnds(l, path, offset, data, served);
      Compose(a, l, WriteDone(l, path, offset, data));
    }
  }

  // RPC transparency of one call, along one schedule ...
  lemma Exchanged(c: Call, t: Tree, o: Chance, served: nat)
    requires Admissible(t, c, o)
    ensures Exchanges(c, t, o, served)
  {
    match c
    case GetAttr(path) => GetAttrExchange(path, t, o, served);
    case CheckAccess(path, mask) => AccessExchange(path, mask, t, o, served);
    case ReadDir(path) => ReadDirExchange(path, t, o, served);
    case ReadFile(path, size, offset) => ReadExchange(path, size, offset, t, o, served);
    case WriteFile(path, offset, data) => WriteExchange(path, offset, data, t, o, served);
    case OpenFile(path, flags) => OpenExchange(path, flags, t, o, served);
    case Beat => BeatExchange(t, o, served);
  }

  // A client that has its reply: as long as the server has not taken leftovers of the call for another command, the
  // reply is the local one, and the connection is aligned if and only if the call was undisturbed.
  lemma Settled(c: Call, t: Tree, o: Chance, served: nat, n: nat, z: Link)
    requires Admissible(t, c, o) && Steps(n, z, End(c, t, o, served)) && z.cli.Ret?
    ensures z.cli == Ret(LocalReply(t, c, o))
    ensures Aligned(z) ==> n == 0
    ensures LeftDown(t, c, o) == [] ==> n == 0
    ensures Aligned(z) && z.served == served + 1 <==> Undisturbed(t, c, o)
  {
    var end := End(c, t, o, served);
    ReplyStays(n, z, end);
    NothingLeftIffUndisturbed(t, c, o);
    if LeftDown(t, c, o) == [] {
      DoneTogether(n, z, end);
    }
  }

  // ... and therefore along all of them. For every run of the exchange of an undisturbed call: it is no longer than one
  // fixed number of steps, it cannot get stuck earlier, and once the client has its reply, that is the local one, the
  // tree is the local one and the connection is aligned. A disturbed call never leaves the connection aligned: bytes
  // are left over, or have been taken for another command.
  lemma CallIsLocal(c: Call, t: Tree, o: Chance, served: nat, run: seq<Link>) returns (n: nat)
    requires Admissible(t, c, o)
    requires IsRun(run) && run[0] == Start(c, t, o, served)
    ensures Steps(n, Start(c, t, o, served), End(c, t, o, served))
    ensures var z := run[|run| - 1];
            && (Undisturbed(t, c, o) ==> |run| <= n + 1 && (Halted(z) <==> |run| == n + 1))
            && (Undisturbed(t, c, o) && z.cli.Ret? ==> z == End(c, t, o, served))
            && (z.cli.Ret? && z.served <= served + 1 ==> z.cli.r == LocalReply(t, c, o))
            && (z.cli.Ret? ==> (Aligned(z) && z.served == served + 1 <==> Undisturbed(t, c, o)))
  {
    var end, z := End(c, t, o, served), run[|run| - 1];
    Exchanged(c, t, o, served);
    n :| Steps(n, Start(c, t, o, served), end);
    NothingLeftIffUndisturbed(t, c, o);
    if Undisturbed(t, c, o) || z.served <= served + 1 {
      AnyRun(n, run, end);
      if z.cli.Ret? {
        Settled(c, t, o, served, n + 1 - |run|, z);
      }
    }
    if Undisturbed(t, c, o) && Halted(z) {
      MaximalRun(n, run, end);
    }
  }

  /* ---- What the calls promise about files ---- */

  // GETATTR: the six carried attributes of the node, with the length of a file as its size, or the errno of lstat.
  lemma GetAttrIs(t: Tree, path: CStr, o: Chance)
    ensures var reply := LocalReply(t, GetAttr(path), o);
            if path !in t then reply == Attributes(ZERO_STAT, -2)
            else
              var a := t[path].attr;
              match t[path].body
              case Hidden(errno) => reply == Attributes(ZERO_STAT, -(errno as int))
              case Dir(_) =>
                reply == Attributes(Stat(a.dev, a.mode, a.size, a.atime, a.mtime, a.ctime, 0, 0, 0, 0), 0)
              case File(data) =>
                reply == Attributes(Stat(a.dev, a.mode, |data|, a.atime, a.mtime, a.ctime, 0, 0, 0, 0), 0)
  {
    LstatIs(t, path);
  }

  // READ of a path that does not open answers its errno; of one that does, -1 if there is something to read and it is a
  // directory or a local read fails, and no error otherwise.
  lemma ReadFailure(t: Tree, path: CStr, size: U64, offset: U64, o: Chance)
    ensures var reply, e := LocalReply(t, ReadFile(path, size, offset), o), OpenStatus(t, path, O_RDONLY);
            && (e < 0 ==> reply == Data([], e))
            && (e == 0 && size > 0 && (t[path].body.Dir? || o.fails) ==> reply == Data([], -1))
            && (e == 0 && size == 0 ==> reply == Data([], 0))
            && (e == 0 && t[path].body.File? && !o.fails ==> reply.e >= 0)
  {
    if OpenStatus(t, path, O_RDONLY) == 0 && size == 0 && t[path].body.File? && !o.fails {
      var content: Content := t[path].body.data;
      assert Slice(content, Position(offset), 0) == [];
    }
  }

  // READ opens its file with flags 0 and WRITE with flags 1: what is refused under these is what they report.
  lemma RefusedOpens(t: Tree, path: CStr, offset: U64, size: U64, data: Content, o: Chance)
    requires path in t && t[path].body.File?
    ensures 0 in t[path].refused ==>
              LocalReply(t, ReadFile(path, size, offset), o) == Data([], -(t[path].refused[0] as int))
    ensures 1 in t[path].refused ==>
              && LocalReply(t, WriteFile(path, offset, data), o) == Written(0, -(t[path].refused[1] as int))
              && LocalTree(t, WriteFile(path, offset, data), o) == t
    ensures 1 !in t[path].refused ==>
              LocalReply(t, WriteFile(path, offset, data), o) == WriteOutcome(|data|, o.pieces)
  {}

  // READ: never more than was asked for. The error is the number of bytes that came, which are the beginning of the
  // reply; the rest of it is zeros. All of them came if and only if the call was undisturbed ...
  lemma ReadReports(t: Tree, path: CStr, size: U64, offset: U64, o: Chance)
    requires OpenStatus(t, path, O_RDONLY) == 0 && t[path].body.File? && !o.fails
    ensures var reply := LocalReply(t, ReadFile(path, size, offset), o);
            var slice := Slice(t[path].body.data, Position(offset), size);
            && 0 <= reply.e <= |reply.data| == |slice| <= size
            && reply.data == slice[..reply.e] + Zeros(|slice| - reply.e)
            && (reply.e == |slice| <==> Undisturbed(t, ReadFile(path, size, offset), o))
  {}

  // ... and then the reply has the bytes from the offset on -- for offsets a signed 64-bit seek accepts. For any other
  // offset the seek fails unnoticed and the file is read from its beginning.
  lemma ReadIsSlice(t: Tree, path: CStr, size: U64, offset: U64, o: Chance)
    requires OpenStatus(t, path, O_RDONLY) == 0 && t[path].body.File? && !o.fails
    requires Undisturbed(t, ReadFile(path, size, offset), o)
    ensures var content := t[path].body.data;
            LocalReply(t, ReadFile(path, size, offset), o).data ==
            content[Min(offset, |content|)..Min(offset + size, |content|)]
            <==> offset < TWO_63 || size == 0 || content == []
  {
    var content := t[path].body.data;
    var slice := Slice(content, Position(offset), size);
    ReadReports(t, path, size, offset, o);
    assert slice[..|slice|] + Zeros(0) == slice;
    SlicedFar(content, size, offset);
  }

  // Nothing is ever found beyond 2^63.
  lemma SlicedFar(content: Content, size: U64, offset: U64)
    ensures Slice(content, Position(offset), size) == content[Min(offset, |content|)..Min(offset + size, |content|)]
            <==> offset < TWO_63 || size == 0 || content == []
  {
    if offset >= TWO_63 {
      assert content[Min(offset, |content|)..Min(offset + size, |content|)] == [];
    }
  }

  // WRITE: a local write that fails is reported with its errno. Otherwise the reported size is the number of bytes put
  // into the file, and it is the size of the buffer if and only if every local write took its whole piece ...
  lemma WriteReports(t: Tree, path: CStr, offset: U64, data: Content, o: Chance)
    requires OpenStatus(t, path, O_WRONLY) == 0 && Admissible(t, WriteFile(path, offset, data), o)
    ensures var reply := LocalReply(t, WriteFile(path, offset, data), o);
            && (reply.e >= 0 <==> Failure(o.pieces) == None)
            && (forall errno :: Failure(o.pieces) == Some(errno) ==> reply == Written(|data|, -(errno as int)))
            && (reply.e >= 0 ==> reply.n == |Put(data, o.pieces)|)
            && (reply.e >= 0 && reply.n == |data| <==> Full(o.pieces))
  {
    Conserved(o.pieces, |data|, Position(offset), data);
    WholeIffFull(o.pieces, |data|, Position(offset), data);
  }

  // ... and then the file is the old one with the range replaced -- for the same offsets, or when there is nothing to
  // write. Other files stay as they are.
  lemma WriteIsSplice(t: Tree, path: CStr, offset: U64, data: Content, o: Chance)
    requires OpenStatus(t, path, O_WRONLY) == 0 && Admissible(t, WriteFile(path, offset, data), o)
    ensures var t' := LocalTree(t, WriteFile(path, offset, data), o);
            && path in t' && t'[path].body.File? && t' == t[path := t'[path]]
            && t'[path].body.data == Splice(t[path].body.data, Position(offset), Put(data, o.pieces))
            && (Full(o.pieces) ==> (t'[path].body.data == Splice(t[path].body.data, offset, data) <==>
                                      offset < TWO_63 || data == []))
  {
    Conserved(o.pieces, |data|, Position(offset), data);
    WholeIffFull(o.pieces, |data|, Position(offset), data);
    if Full(o.pieces) {
      assert data[..|data|] == data;
      SplicedFar(t[path].body.data, offset, data);
    }
  }

  // Nothing is ever spliced beyond 2^63.
  lemma SplicedFar(content: Content, offset: U64, data: Content)
    ensures Splice(content, Position(offset), data) == Splice(content, offset, data) <==> offset < TWO_63 || data == []
  {}

  // A READ of the range of an undisturbed WRITE with full local writes returns the buffer.
  lemma WriteThenRead(t: Tree, path: CStr, offset: U64, data: Content, o: Chance, o': Chance)
    requires OpenStatus(t, path, O_WRONLY) == 0 && OpenStatus(t, path, O_RDONLY) == 0
    requires Admissible(t, WriteFile(path, offset, data), o) && Full(o.pieces)
    requires !o'.fails && Fetch(|data|, o'.fetched) == |data|
    ensures var t' := LocalTree(t, WriteFile(path, offset, data), o);
            LocalReply(t', ReadFile(path, |data|, offset), o') == Data(data, |data|)
  {
    var content, t' := t[path].body.data, LocalTree(t, WriteFile(path, offset, data), o);
    WholeIffFull(o.pieces, |data|, Position(offset), data);
    assert data[..|data|] == data;
    WriteIsSplice(t, path, offset, data, o);
    SpliceThenSlice(content, Position(offset), data);
    WholeRead(t', path, |data|, offset, o', data);
  }

  lemma WholeRead(t: Tree, path: CStr, size: U64, offset: U64, o: Chance, slice: Content)
    requires OpenStatus(t, path, O_RDONLY) == 0 && t[path].body.File? && !o.fails
    requires Slice(t[path].body.data, Position(offset), size) == slice && Fetch(|slice|, o.fetched) == |slice|
    ensures LocalReply(t, ReadFile(path, size, offset), o) == Data(slice, |slice|)
  {
    assert slice[..|slice|] + Zeros(0) == slice;
  }
}
