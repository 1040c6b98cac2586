/**
 * The methods close on each other: the session that the command loop of ClientConnection runs on the request of a
 * method of ServerConnection sends what that method needs to return the local reply.
 */
module Closure {
  import opened Bytes
  import opened Wire
  import opened Disk
  import opened Pieces
  import opened Process
  import opened Protocol
  import opened Composition
  import opened Server

  /* ---- The request of a call ---- */

  // What the client sends for a call. Of a WRITE, the sizes and the data go out only if the file can be opened.
  function Request(c: Call, t: Tree): Str {
    match c
    case GetAttr(path) => EncCmd(GETATTR) + (EncString(path) + [])
    case CheckAccess(path, mask) => EncCmd(ACCESS) + (EncString(path) + (EncMask(mask) + []))
    case ReadDir(path) => EncCmd(READDIR) + (EncString(path) + [])
    case ReadFile(path, size, offset) => EncCmd(READ) + (EncString(path) + (EncSize(size) + (EncSize(offset) + [])))
    case WriteFile(path, offset, data) =>
      EncCmd(WRITE) + (EncString(path) + WriteData(data, offset, OpenStatus(t, path, O_WRONLY)))
    case OpenFile(path, flags) => EncCmd(OPEN) + (EncString(path) + (EncMask(flags) + []))
    case Beat => EncCmd(HEARTBEAT) + []
  }

  function WriteData(data: Content, offset: U64, e: I64): Str {
    if e < 0 then [] else EncSize(|data|) + (EncSize(offset) + data)
  }

  // The bytes of a request in their order on the wire, for numbers of one byte: the path behind a length of eight
  // bytes, masks and flags of four bytes, and size before offset.
  lemma RequestBytes(t: Tree, x: Byte, m: Byte, n: Byte)
    requires x != 0
    ensures Request(GetAttr([x]), t) == [0, 2] + OnePath(x)
    ensures Request(CheckAccess([x], m), t) == [0, 7] + (OnePath(x) + [0, 0, 0, m])
    ensures Request(ReadDir([x]), t) == [0, 8] + OnePath(x)
    ensures Request(OpenFile([x], m), t) == [0, 12] + (OnePath(x) + [0, 0, 0, m])
    ensures Request(ReadFile([x], m, n), t) == [0, 9] + (OnePath(x) + OneSizes(m, n))
  {
    CommandBytes();
    SmallPath(x);
    SmallMask(m);
    TwoSizes(m, n, []);
    assert OneSizes(m, n) + [] == OneSizes(m, n);
  }

  function OnePath(x: Byte): Str {
    [0, 0, 0, 0, 0, 0, 0, 1, x]
  }

  function OneSizes(m: Byte, n: Byte): Str {
    [0, 0, 0, 0, 0, 0, 0, m, 0, 0, 0, 0, 0, 0, 0, n]
  }

  lemma SmallPath(x: Byte)
    requires x != 0
    ensures EncString([x]) == OnePath(x)
  {
    SmallSize(1);
  }

  lemma TwoSizes(m: Byte, n: Byte, rest: Str)
    ensures EncSize(m) + (EncSize(n) + rest) == OneSizes(m, n) + rest
  {
    SmallSize(m);
    SmallSize(n);
  }

  // Of a WRITE: the size, the offset and the data, if the file opens with flags 1.
  lemma WriteRequestBytes(t: Tree, x: Byte, n: Byte, data: Content)
    requires x != 0 && |data| < 256
    ensures Request(WriteFile([x], n, data), t) ==
            [0, 10] + (OnePath(x) + if OpenStatus(t, [x], 1) < 0 then [] else OneSizes(|data|, n) + data)
  {
    CommandBytes();
    SmallPath(x);
    TwoSizes(|data|, n, data);
  }

  // What a program sends when it runs on this input.
  function Sends<R>(p: Proc<R>, input: Str): Str {
    var o := Run(p, input, map[]);
    if o.Some? then SentBytes(o.value.trace) else []
  }

  predicate Completes<R>(p: Proc<R>, input: Str) {
    Run(p, input, map[]).Some?
  }

  lemma SendsSend<R>(bs: Chunk, k: Proc<R>, input: Str)
    ensures Completes(Send(bs, k), input) == Completes(k, input)
    ensures Completes(k, input) ==> Sends(Send(bs, k), input) == bs + Sends(k, input)
  {
    if Completes(k, input) { SentFirst(bs, Run(k, input, map[]).value.trace); }
  }

  lemma SendsString<R>(s: CStr, k: Proc<R>, input: Str)
    ensures Completes(SendString(s, k), input) == Completes(k, input)
    ensures Completes(k, input) ==> Sends(SendString(s, k), input) == EncString(s) + Sends(k, input)
  {
    SendsSend(EncSize(|s|), SendBytes(s, k), input);
    if s == [] {
      assert EncString(s) == EncSize(|s|);
    } else {
      SendsSend(s, k, input);
      Associate(EncSize(|s|), s, Sends(k, input));
    }
  }

  lemma SendsRecv<R>(n: Positive, kr: Str -> Proc<R>, input: Str)
    requires Completes(Recv(n, kr), input)
    ensures n <= |input| && Completes(kr(input[..n]), input[n..])
    ensures Sends(Recv(n, kr), input) == Sends(kr(input[..n]), input[n..])
  {
    NoneSent(input[..n], Run(kr(input[..n]), input[n..], map[]).value.trace);
  }

  // Programs that only receive.
  lemma {:induction false} EntriesSilent(count: nat, files: seq<(Str, Stat)>, e: I64, input: Str)
    requires Completes(RecvEntries(count, files, e), input)
    ensures Sends(RecvEntries(count, files, e), input) == []
    decreases count, 1
  {
    if count > 0 {
      var p := RecvEntries(count, files, e);
      SendsRecv(8, p.kr, input);
      var n, rest := DecSize(input[..8]), input[8..];
      if n > 0 {
        SendsRecv(n, p.kr(input[..8]).kr, rest);
        EntrySilent(count, files, e, CString(rest[..n]), rest[n..]);
      } else {
        EntrySilent(count, files, e, CString([]), rest);
      }
    }
  }

  lemma EntrySilent(count: Positive, files: seq<(Str, Stat)>, e: I64, name: Str, input: Str)
    requires Completes(RecvEntryStat(count, files, e, name), input)
    ensures Sends(RecvEntryStat(count, files, e, name), input) == []
    decreases count, 0
  {
    SendsRecv(STAT_BYTES, RecvEntryStat(count, files, e, name).kr, input);
    EntriesSilent(count - 1, files + [(name, DecStat(input[..STAT_BYTES]))], e, input[STAT_BYTES..]);
  }

  lemma ReplySilent(n: Positive, kr: Str -> Proc<Reply>, input: Str)
    requires Completes(Recv(n, kr), input) && forall x: Str :: Quiet(kr(x))
    ensures Sends(Recv(n, kr), input) == []
  {
    SendsRecv(n, kr, input);
    var p, rest := kr(input[..n]), input[n..];
    if p.Recv? {
      SendsRecv(p.n, p.kr, rest);
    }
  }

  // At most one more read, and the end.
  ghost predicate Quiet(p: Proc<Reply>) {
    p.Ret? || (p.Recv? && forall x: Str :: p.kr(x).Ret?)
  }

  lemma ListingSilent(input: Str)
    requires Completes(AwaitListing(), input)
    ensures Sends(AwaitListing(), input) == []
  {
    SendsRecv(8, AwaitListing().kr, input);
    var e, rest := DecError(input[..8]), input[8..];
    if e >= 0 {
      SendsRecv(8, ReadDirReply(e).kr, rest);
      EntriesSilent(DecSize(rest[..8]), [], e, rest[8..]);
    }
  }

  lemma DataSilent(fetched: nat, input: Str)
    requires Completes(AwaitData(fetched), input)
    ensures Sends(AwaitData(fetched), input) == []
  {
    SendsRecv(8, AwaitData(fetched).kr, input);
    var e, rest := DecError(input[..8]), input[8..];
    if e >= 0 {
      SendsRecv(8, ReadReply(e, fetched).kr, rest);
      var n, body := DecSize(rest[..8]), rest[8..];
      if n > 0 {
        SendsRecv(Fetch(n, fetched), RecvData(n, e, fetched).kr, body);
      }
    }
  }

  // The client waits for the first error before it sends the data.
  lemma WriteSends(offset: U64, data: Content, input: Str)
    requires Completes(AwaitOpened(offset, data), input)
    ensures 8 <= |input| && Sends(AwaitOpened(offset, data), input) == WriteData(data, offset, DecError(input[..8]))
  {
    SendsRecv(8, AwaitOpened(offset, data).kr, input);
    var e, rest := DecError(input[..8]), input[8..];
    if e >= 0 {
      SendsSend(EncSize(|data|), Send(EncSize(offset), SendBody(data)), rest);
      SendsSend(EncSize(offset), SendBody(data), rest);
      if data != [] { SendsSend(data, AwaitReport(|data|), rest); }
      ReplySilent(8, AwaitReport(|data|).kr, rest);
      assert data + [] == data;
    }
  }

  lemma MaskSends(mask: U32, input: Str)
    requires Completes(SendMask(mask), input)
    ensures Sends(SendMask(mask), input) == EncMask(mask) + []
  {
    SendsSend(EncMask(mask), SendMask(mask).k, input);
    ReplySilent(8, SendMask(mask).k.kr, input);
  }

  lemma CommandSends(cmd: U16, path: CStr, k: Proc<Reply>, input: Str)
    requires Completes(Send(EncCmd(cmd), SendString(path, k)), input)
    ensures Completes(k, input)
    ensures Sends(Send(EncCmd(cmd), SendString(path, k)), input) == EncCmd(cmd) + (EncString(path) + Sends(k, input))
  {
    SendsSend(EncCmd(cmd), SendString(path, k), input);
    SendsString(path, k, input);
  }

  // Whatever the client is answered, it sends the request; only the first error of a WRITE matters.
  lemma StubSends(c: Call, t: Tree, o: Chance, input: Str)
    requires Completes(Stub(c, o), input)
    requires c.WriteFile? && 8 <= |input| ==> DecError(input[..8]) == OpenStatus(t, c.path, O_WRONLY)
    ensures Sends(Stub(c, o), input) == Request(c, t)
  {
    match c
    case GetAttr(path) =>
      CommandSends(GETATTR, path, AwaitAttributes(), input);
      ReplySilent(8, AwaitAttributes().kr, input);
    case CheckAccess(path, mask) =>
      CommandSends(ACCESS, path, SendMask(mask), input);
      MaskSends(mask, input);
    case ReadDir(path) =>
      CommandSends(READDIR, path, AwaitListing(), input);
      ListingSilent(input);
    case ReadFile(path, size, offset) =>
      CommandSends(READ, path, SendRange(size, offset, o.fetched), input);
      SendsSend(EncSize(size), SendRange(size, offset, o.fetched).k, input);
      SendsSend(EncSize(offset), AwaitData(o.fetched), input);
      DataSilent(o.fetched, input);
    case WriteFile(path, offset, data) =>
      CommandSends(WRITE, path, AwaitOpened(offset, data), input);
      WriteSends(offset, data, input);
    case OpenFile(path, flags) =>
      CommandSends(OPEN, path, SendMask(flags), input);
      MaskSends(flags, input);
    case Beat =>
      SendsSend(EncCmd(HEARTBEAT), BeatStub().k, input);
      ReplySilent(2, BeatStub().k.kr, input);
  }

  /* ---- The first answer to a WRITE ---- */

  // The loop that serves one command is one run of its handler.
  lemma OneCommand(up: Str, t: Tree, o: Chance, rest: Str, sent: Str, t': Tree)
    requires Serves(TOP, up, t, o, 1, rest, sent, t')
    ensures 2 <= |up|
    ensures var x := Run(Handler(DecCmd(up[..2]), t, o), up[2..], t);
            && x.Some? && x.value.r == AtTop && x.value.rest == rest && x.value.tree == t'
            && SentBytes(x.value.trace) == sent
  {
    var x := Run(Handler(DecCmd(up[..2]), t, o), up[2..], t);
    assert [] + Ins(up[..2]) == Ins(up[..2]);
    NoneSent(up[..2], x.value.trace);
  }

  lemma SentAfter(s: Str, es: seq<Event>, fs: seq<Event>)
    requires es == Ins(s) + fs
    ensures SentBytes(es) == SentBytes(fs)
  {
    NoneSent(s, fs);
  }

  // The handler sends the first error as soon as it has the path.
  lemma WriteAnswers(path: CStr, more: Str, ps: seq<Piece>, t: Tree)
    requires Run(WriteHandler(t, ps), EncString(path) + more, t).Some?
    ensures var e, x := OpenStatus(t, path, O_WRONLY), Run(WriteHandler(t, ps), EncString(path) + more, t).value;
            EncError(e) <= SentBytes(x.trace)
  {
    var e := OpenStatus(t, path, O_WRONLY);
    PathRead(path, more, ps, t);
    var run := Run(AnswerWrite(t, path, ps).k, more, t).value;
    SentAfter(EncString(path), Run(WriteHandler(t, ps), EncString(path) + more, t).value.trace,
              Outs(EncError(e)) + run.trace);
    SentFirst(EncError(e), run.trace);
  }

  lemma PathRead(path: CStr, more: Str, ps: seq<Piece>, t: Tree)
    ensures Run(WriteHandler(t, ps), EncString(path) + more, t) ==
            Preceded(Ins(EncString(path)), Run(AnswerWrite(t, path, ps), more, t))
  {
    var s := Snapshot(EncString(path) + more, [], t);
    FinishString((p: Str) => AnswerWrite(t, p, ps), s);
    TextDelimited(path, more);
    CStringExact(path);
    Front(EncString(path), more);
    assert Consume(s, |EncString(path)|) == Snapshot(more, [] + Ins(EncString(path)), t);
    assert [] + Ins(EncString(path)) == Ins(EncString(path));
    FromFinish(WriteHandler(t, ps), s, Ins(EncString(path)), AnswerWrite(t, path, ps), more);
  }

  lemma FromFinish(p: Proc<ServerEnd>, s: Snapshot, es: seq<Event>, q: Proc<ServerEnd>, rest: Str)
    requires s.trace == [] && Finish(p, s) == Finish(q, Snapshot(rest, es, s.tree))
    ensures Run(p, s.input, s.tree) == Preceded(es, Run(q, rest, s.tree))
  {
    var x := Run(p, s.input, s.tree);
    if x.Some? {
      assert [] + x.value.trace == x.value.trace;
    }
  }

  lemma FirstAnswer(path: CStr, more: Str, t: Tree, o: Chance, rest: Str, sent: Str, t': Tree)
    requires Serves(TOP, EncCmd(WRITE) + (EncString(path) + more), t, o, 1, rest, sent, t')
    ensures 8 <= |sent| && DecError(sent[..8]) == OpenStatus(t, path, O_WRONLY)
  {
    var input := EncString(path) + more;
    Front(EncCmd(WRITE), input);
    CmdInverse(WRITE);
    OneCommand(EncCmd(WRITE) + input, t, o, rest, sent, t');
    WriteAnswers(path, more, o.pieces, t);
    ErrorInverse(OpenStatus(t, path, O_WRONLY));
    assert sent[..8] == EncError(OpenStatus(t, path, O_WRONLY));
  }

  // For a call and any chance: the two byte strings, of which the first is the request.
  lemma RequestFits(c: Call, t: Tree, o: Chance) returns (down: Str)
    requires Admissible(t, c, o)
    ensures Yields(Stub(c, o), down, LocalReply(t, c, o), LeftDown(t, c, o), Request(c, t))
    ensures Serves(TOP, Request(c, t), t, o, 1, LeftUp(t, c, o), down, LocalTree(t, c, o))
  {
    var up;
    up, down := CallFits(c, t, o);
    if c.WriteFile? {
      CommandSends(WRITE, c.path, AwaitOpened(c.offset, c.data), down);
      WriteSends(c.offset, c.data, down);
      FirstAnswer(c.path, Sends(AwaitOpened(c.offset, c.data), down), t, o, LeftUp(t, c, o), down, LocalTree(t, c, o));
    }
    StubSends(c, t, o, down);
  }

  /* ---- The session on a request ---- */

  lemma RequestParsed(c: Call, t: Tree, s: Snapshot)
    requires c.WriteFile? && OpenStatus(t, c.path, O_WRONLY) == 0 && s.input == Request(c, t)[2..]
    ensures var r := WriteRequest(s);
            && r.Some? && r.value.path == c.path && r.value.size == |c.data| && r.value.offset == c.offset
            && r.value.ready.input == c.data
  {
    var rest := WriteData(c.data, c.offset, 0);
    Front(EncCmd(WRITE), EncString(c.path) + rest);
    TextDelimited(c.path, rest);
    CStringExact(c.path);
    SizesParsed(c.data, c.offset);
  }

  lemma SizesParsed(data: Content, offset: U64)
    ensures var rest := WriteData(data, offset, 0);
            DecSize(rest[..8]) == |data| && DecSize(rest[8..16]) == offset && rest[16..] == data
  {
    SizeInverse(|data|);
    SizeInverse(offset);
    var rest := WriteData(data, offset, 0);
    assert rest[..8] == EncSize(|data|) && rest[8..16] == EncSize(offset);
  }

  // The pieces of a genuine session on a request are a course of its transfer, and the client stays.
  lemma GenuineOnRequest(c: Call, t: Tree, o: Chance, s: Snapshot, z: Snapshot)
    requires c.WriteFile? && s.input == Request(c, t)[2..] && s.tree == t
    requires Performed(WriteHandler(t, o.pieces), s, z) && GenuineWrite(o.pieces, s, z)
    ensures Admissible(t, c, o)
  {
    if OpenStatus(t, c.path, O_WRONLY) == 0 {
      RequestParsed(c, t, s);
      StaysToTheEnd(o.pieces, WriteRequest(s).value, s, z);
    }
  }

  // A client that has sent all its data is not gone during the transfer.
  lemma StaysToTheEnd(ps: seq<Piece>, q: WriteParameters, s: Snapshot, z: Snapshot)
    requires Performed(WriteHandler(s.tree, ps), s, z) && WriteRequest(s) == Some(q) && |q.ready.input| == q.size
    requires OpenStatus(s.tree, q.path, O_WRONLY) == 0 && Genuine(ps, q.size, Position(q.offset), q.ready, z)
    ensures Stays(ps)
  {
    WriteAccount(ps, q, s, z);
    if !Stays(ps) { GoneIsShort(ps, q.size, Position(q.offset)); }
  }

  // One pass of the command loop on a request.
  lemma PassOnRequest(c: Call, t: Tree, s: Snapshot, p: Pass, z: Snapshot)
    requires p.Handled? && Passed(s, p, z) && s.input == Request(c, t) && s.tree == t
    requires c.ReadFile? ==> c.size < TWO_63
    ensures 2 <= |s.input| && p.cmd == DecCmd(s.input[..2])
    ensures Does(Handler(p.cmd, t, p.o), Consume(s, 2), EndOf(p.cmd), z)
    ensures Admissible(t, c, p.o)
  {
    CommandOf(c, t);
    if c.WriteFile? { GenuineOnRequest(c, t, p.o, Consume(s, 2), z); }
  }

  lemma PassServesCall(c: Call, t: Tree, s: Snapshot, p: Pass, z: Snapshot, fetched: nat) returns (o: Chance, down: Str)
    requires p.Handled? && Passed(s, p, z) && s.input == Request(c, t) && s.tree == t
    requires c.ReadFile? ==> c.size < TWO_63
    ensures o == p.o.(fetched := fetched) && Admissible(t, c, o)
    ensures z.input == LeftUp(t, c, o) && z.tree == LocalTree(t, c, o)
    ensures SentBytes(z.trace) == SentBytes(s.trace) + down
    ensures Yields(Stub(c, o), down, LocalReply(t, c, o), LeftDown(t, c, o), Request(c, t))
  {
    PassOnRequest(c, t, s, p, z);
    o := p.o.(fetched := fetched);
    SameHandler(p.cmd, t, p.o, fetched);
    down := RequestFits(c, t, o);
    OneCommand(Request(c, t), t, o, LeftUp(t, c, o), down, LocalTree(t, c, o));
    HandledSends(Handler(p.cmd, t, o), s, EndOf(p.cmd), z);
  }

  // How much the client fetches does not matter to the server.
  lemma SameHandler(cmd: U16, t: Tree, o: Chance, fetched: nat)
    ensures Handler(cmd, t, o) == Handler(cmd, t, o.(fetched := fetched))
  {}

  lemma HandledSends(h: Proc<ServerEnd>, s: Snapshot, r: ServerEnd, z: Snapshot)
    requires 2 <= |s.input| && Does(h, Consume(s, 2), r, z) && Run(h, s.input[2..], s.tree).Some?
    ensures var x := Run(h, s.input[2..], s.tree).value;
            z.input == x.rest && z.tree == x.tree && SentBytes(z.trace) == SentBytes(s.trace) + SentBytes(x.trace)
  {
    var s1, x := Consume(s, 2), Run(h, s.input[2..], s.tree).value;
    SentBytesAppend(s.trace, Ins(s.input[..2]));
    SentIns(s.input[..2]);
    SentBytesAppend(s1.trace, x.trace);
    assert SentBytes(s.trace) + [] == SentBytes(s.trace);
  }

  // The session of the command loop on the request of a call: the first command it handles is that call. With the
  // pieces and local reads that the session happened to have, and any number of bytes `fetched` by the client, the
  // session sends `down`, changes the tree as the local operation does and leaves what the call leaves; and a client
  // method that follows its stub returns the local reply on `down`.
  lemma SessionServesCall(c: Call, t: Tree, states: seq<Snapshot>, passes: seq<Pass>, i: nat, fetched: nat)
    returns (o: Chance, down: Str)
    requires Session(states, passes) && i < |passes| && passes[i].Handled?
    requires forall j :: 0 <= j < i ==> passes[j].Missed?
    requires states[0].input == Request(c, t) && states[0].tree == t
    requires c.ReadFile? ==> c.size < TWO_63
    ensures o == passes[i].o.(fetched := fetched) && Admissible(t, c, o)
    ensures var s, z := states[0], states[i + 1];
            && z.input == LeftUp(t, c, o) && z.tree == LocalTree(t, c, o)
            && SentBytes(z.trace) == SentBytes(s.trace) + down
    ensures Yields(Stub(c, o), down, LocalReply(t, c, o), LeftDown(t, c, o), Request(c, t))
  {
    MissedNothing(states, passes, i);
    assert PassAt(states, passes, i);
    o, down := PassServesCall(c, t, states[i], passes[i], states[i + 1], fetched);
  }

  // The number of a call's command.
  function CommandNumber(c: Call): U16 {
    match c
    case GetAttr(_) => GETATTR
    case CheckAccess(_, _) => ACCESS
    case ReadDir(_) => READDIR
    case ReadFile(_, _, _) => READ
    case WriteFile(_, _, _) => WRITE
    case OpenFile(_, _) => OPEN
    case Beat => HEARTBEAT
  }

  lemma CommandOf(c: Call, t: Tree)
    ensures 2 <= |Request(c, t)| && DecCmd(Request(c, t)[..2]) == CommandNumber(c)
  {
    CmdInverse(CommandNumber(c));
    assert Request(c, t)[..2] == EncCmd(CommandNumber(c));
  }

  lemma {:induction false} MissedNothing(states: seq<Snapshot>, passes: seq<Pass>, i: nat)
    requires Session(states, passes) && i <= |passes| && forall j :: 0 <= j < i ==> passes[j].Missed?
    ensures states[i] == states[0]
  {
    if i > 0 {
      MissedNothing(states, passes, i - 1);
      assert PassAt(states, passes, i - 1);
    }
  }

  // A client method that follows its stub on those bytes returns that reply and leaves those bytes.
  lemma MethodReturns(c: Call, o: Chance, s: Snapshot, r: Reply, z: Snapshot, reply: Reply, rest: Str, up: Str)
    requires s.tree == map[] && Does(Stub(c, o), s, r, z) && Yields(Stub(c, o), s.input, reply, rest, up)
    ensures r == reply && z.input == rest && SentBytes(z.trace) == SentBytes(s.trace) + up
  {
    SentBytesAppend(s.trace, Run(Stub(c, o), s.input, map[]).value.trace);
  }
}
