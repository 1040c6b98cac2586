/** src/serverconnection.cpp: the client's end of a connection. */
module Client {
  import opened Bytes
  import opened Wire
  import opened Disk
  import opened Pieces
  import opened Process
  import opened Protocol
  import opened AgfsIo

  // Command and path have gone out.
  function Asked(c: U16, path: CStr, s: Snapshot): Snapshot {
    s.(trace := s.trace + Outs(EncCmd(c)) + Outs(EncString(path)))
  }

  lemma Asks(c: U16, path: CStr, k: Proc<Reply>, s: Snapshot, r: Reply, z: Snapshot)
    requires Does(k, Asked(c, path, s), r, z)
    ensures Does(Send(EncCmd(c), SendString(path, k)), s, r, z)
  {
    SentString(path, k, s.(trace := s.trace + Outs(EncCmd(c))), r, z);
    Sent(EncCmd(c), SendString(path, k), s, r, z);
  }

  // One pass of the listing loop, as a run.
  lemma EntryRead(count: Positive, files: seq<(Str, Stat)>, e: I64, s: Snapshot)
    ensures Finish(RecvEntries(count, files, e), s) ==
            match DecField(KText, s.input)
            case None => None
            case Some((f, rest)) =>
              var s1 := Consume(s, |s.input| - |rest|);
              if |rest| < STAT_BYTES then None
              else
                var file := (f.s, DecStat(rest[..STAT_BYTES]));
                Finish(RecvEntries(count - 1, files + [file], e), Consume(s1, STAT_BYTES))
  {
    var k := (name: Str) => RecvEntryStat(count, files, e, name);
    FinishString(k, s);
    match DecField(KText, s.input)
    case None =>
    case Some((f, rest)) =>
      FinishRecv(STAT_BYTES, RecvEntryStat(count, files, e, f.s).kr, Consume(s, |s.input| - |rest|));
  }

  // The data of a READ, of which one read has returned `got`.
  lemma DataReceived(e: I64, n: U64, s: Snapshot, s1: Snapshot, got: Str, z: Snapshot)
    requires e >= 0 && (8 <= |s.input| ==> n == DecSize(s.input[..8]) && s1 == Consume(s, 8))
    requires |s.input| < 8 ==> s1.input == [] && s1.tree == s.tree
    requires |got| <= n && got <= s1.input && z == Consume(s1, |got|) && (got == [] <==> n == 0 || s1.input == [])
    ensures Does(ReadReply(e, |got|), s, DataReply(got, n, e), z)
  {
    if n > 0 && got != [] {
      assert s1.input[..|got|] == got;
      Got(|got|, RecvData(n, e, |got|).kr, s1, DataReply(got, n, e), z);
    } else if n > 0 {
      Got(n, RecvData(n, e, 0).kr, s1, DataReply(got, n, e), z);
    } else {
      assert z == s1;
    }
    Got(8, ReadReply(e, |got|).kr, s, DataReply(got, n, e), z);
  }

  class ServerConnection {
    const hostname: Str
    const port: Str
    const key: Str
    const host: Endian   // of the machine the client runs on
    var socket: Socket?  // null stands for the negative descriptors
    var closed: bool
    var failedCommand: bool
    var connectionStopped: bool

    // A new connection connects at once.
    constructor (hostname: Str, port: Str, key: Str, host: Endian, dialled: Socket?)
      requires Sized(key) && (dialled != null ==> dialled.host == host)
      modifies dialled
      ensures this.hostname == hostname && this.port == port && this.key == key && this.host == host && !closed
      ensures socket != null ==> socket == dialled
      ensures dialled != null ==> (socket != null <==> Accepted(old(dialled.input)))
      ensures dialled != null ==>
                Does(ConnectStub(key), Snapshot(old(dialled.input), old(dialled.trace), map[]),
                     Connected(socket != null), Snapshot(dialled.input, dialled.trace, map[]))
    {
      this.hostname, this.port, this.key, this.host := hostname, port, key, host;
      socket, closed, failedCommand, connectionStopped := null, false, false, false;
      new;
      Connect(dialled);
    }

    // The answer of the server to the key.
    static predicate Accepted(input: Str) {
      2 <= |input| && DecCmd(input[..2]) == ACCEPT
    }

    // A program on this end serves no files.
    ghost function Now(): Snapshot
      requires socket != null
      reads this, socket
    {
      Snapshot(socket.input, socket.trace, map[])
    }

    // `dialled` is the socket that DNS lookup and connect(2) came up with, if any. Whatever the server answers, also
    // nothing or half a command, the connection is kept exactly when the answer is ACCEPT.
    method Connect(dialled: Socket?)
      requires Sized(key)
      modifies this`socket, dialled
      ensures socket != null ==> socket == dialled
      ensures dialled == null ==> socket == null
      ensures dialled != null ==> (socket != null <==> Accepted(old(dialled.input)))
      ensures dialled != null ==>
                Does(ConnectStub(key), Snapshot(old(dialled.input), old(dialled.trace), map[]),
                     Connected(socket != null), Snapshot(dialled.input, dialled.trace, map[]))
    {
      socket := dialled;
      if socket == null {
        return;
      }
      ghost var s0 := Now();
      var _ := WriteString(socket, key);
      ghost var s1 := Now();
      var n, resp := ReadCmd(socket, NONE);
      ghost var z := Now();
      if n < 2 {
        StaleCmd(socket.host, s1.input[..n], NONE);
      }
      if resp != ACCEPT {
        socket := null;
      }
      Got(2, AwaitVerdict().kr, s1, Connected(resp == ACCEPT), z);
      SentString(key, AwaitVerdict(), s0, Connected(resp == ACCEPT), z);
    }

    // `closing` is what close(2) returns.
    method Stop(closing: I64) returns (e: I64)
      modifies this, socket
      ensures socket == null && closed && e == if old(socket) != null then closing else 0
      ensures old(socket) != null ==>
                old(socket).trace == old(socket.trace) + Outs(EncCmd(STOP)) && old(socket).input == old(socket.input)
    {
      e := 0;
      if socket != null {
        var _ := WriteCmd(socket, STOP);
        e := closing;
        socket := null;
      }
      closed := true;
    }

    method GetAttr(path: CStr) returns (st: Stat, e: I64)
      requires socket != null
      modifies socket
      ensures Does(GetAttrStub(path), old(Now()), Attributes(st, e), Now())
    {
      var _ := WriteCmd(socket, GETATTR);
      var _ := WriteString(socket, path);
      ghost var s1 := Now();
      e := 0;
      var n: nat;
      n, e := ReadError(socket, e);
      ghost var s2 := Now();
      st := ZERO_STAT;
      if e >= 0 {
        n, st := ReadStat(socket);
        Got(STAT_BYTES, GetAttrReply(e).kr, s2, Attributes(st, e), Now());
      }
      Got(8, AwaitAttributes().kr, s1, Attributes(st, e), Now());
      Asks(GETATTR, path, AwaitAttributes(), old(Now()), Attributes(st, e), Now());
    }

    // Called on dead connections too, and answers there with whatever happens to be in its variable.
    method CheckAccess(path: CStr, mask: U32) returns (e: I64)
      modifies socket
      ensures socket != null ==> Does(AccessStub(path, mask), old(Now()), Status(e), Now())
    {
      if socket == null {
        e := *;
        e := ReadErrorBadFd(host, e);
        return;
      }
      var _ := WriteCmd(socket, ACCESS);
      var _ := WriteString(socket, path);
      ghost var s1 := Now();
      var _ := WriteMask(socket, mask);
      ghost var s2 := Now();
      e := *;  // not initialised before it is read into
      var n: nat;
      n, e := ReadError(socket, e);
      Got(8, SendMask(mask).k.kr, s2, Status(e), Now());
      Sent(EncMask(mask), SendMask(mask).k, s1, Status(e), Now());
      Asks(ACCESS, path, SendMask(mask), old(Now()), Status(e), Now());
    }

    method Open(path: CStr, flags: U32) returns (e: I64)
      requires socket != null
      modifies socket
      ensures Does(OpenStub(path, flags), old(Now()), Status(e), Now())
    {
      var _ := WriteCmd(socket, OPEN);
      var _ := WriteString(socket, path);
      ghost var s1 := Now();
      var _ := WriteMask(socket, flags);
      ghost var s2 := Now();
      e := 0;
      var n: nat;
      n, e := ReadError(socket, e);
      Got(8, SendMask(flags).k.kr, s2, Status(e), Now());
      Sent(EncMask(flags), SendMask(flags).k, s1, Status(e), Now());
      Asks(OPEN, path, SendMask(flags), old(Now()), Status(e), Now());
    }

    // Called on dead connections too, and finds an empty directory there.
    method ReadDir(path: CStr) returns (files: seq<(Str, Stat)>, e: I64)
      modifies socket
      ensures socket != null ==> Does(ReadDirStub(path), old(Now()), Files(files, e), Now())
      ensures socket == null ==> files == [] && e == 0
    {
      if socket == null {
        e := ReadErrorBadFd(host, 0);
        SwappedZero(host, 8);
        files := [];
        if e >= 0 {
          var count := ReadSizeBadFd(host, 0);
          assert count == 0;
        }
        return;
      }
      var _ := WriteCmd(socket, READDIR);
      var _ := WriteString(socket, path);
      ghost var s1 := Now();
      e := 0;
      var n: nat;
      n, e := ReadError(socket, e);
      ghost var s2 := Now();
      files := [];
      if e >= 0 {
        var count: U64;
        n, count := ReadSize(socket, 0);
        ghost var s3 := Now();
        files := ReadEntries(count, e);
        if n == 8 { assert s3 == Consume(s2, 8); }
        Got(8, ReadDirReply(e).kr, s2, Files(files, e), Now());
      }
      Got(8, AwaitListing().kr, s1, Files(files, e), Now());
      Asks(READDIR, path, AwaitListing(), old(Now()), Files(files, e), Now());
    }

    // while (count-- > 0) on an unsigned count: exactly count passes, after which the counter has wrapped around
    method ReadEntries(n: U64, ghost e: I64) returns (files: seq<(Str, Stat)>)
      requires socket != null
      modifies socket
      ensures Does(RecvEntries(n, [], e), old(Now()), Files(files, e), Now())
      ensures |files| == n
      ensures old(socket.input) == [] ==> socket.input == []
    {
      ghost var s := Now();
      files := [];
      var count: U64 := n;
      while true
        invariant |files| == n - count
        invariant
          || Finish(RecvEntries(count, files, e), Now()) == Finish(RecvEntries(n, [], e), s)
          || (Finish(RecvEntries(n, [], e), s) == None && socket.input == [])
        invariant s.input == [] ==> socket.input == []
        decreases count
      {
        var before := count;
        count := if count == 0 then TWO_64 - 1 else count - 1;
        if !(before > 0) {
          FinishRet(Files(files, e), Now());
          break;
        }
        ghost var s1 := Now();
        EntryRead(before, files, e, s1);
        var m, file := ReadString(socket);
        var k, st := ReadStat(socket);
        files := files + [(file, st)];
      }
    }

    // The data is fetched with a single read, so the caller may get less than the server sent: `got` is what came.
    method ReadFile(path: CStr, size: U64, offset: U64) returns (data: Str, e: I64, ghost got: Str)
      requires socket != null
      modifies socket
      ensures Does(ReadStub(path, size, offset, |got|), old(Now()), Data(data, e), Now())
      ensures ReadInOne(old(socket.input), data, e, got, socket.input)
    {
      var _ := WriteCmd(socket, READ);
      var _ := WriteString(socket, path);
      ghost var s1 := Now();
      var _ := WriteSize(socket, size);
      ghost var s2 := Now();
      var _ := WriteSize(socket, offset);
      ghost var s3 := Now();
      data, e, got := ReceiveData();
      Sent(EncSize(offset), AwaitData(|got|), s2, Data(data, e), Now());
      Sent(EncSize(size), SendRange(size, offset, |got|).k, s1, Data(data, e), Now());
      Asks(READ, path, SendRange(size, offset, |got|), old(Now()), Data(data, e), Now());
    }

    method ReceiveData() returns (data: Str, e: I64, ghost got: Str)
      requires socket != null
      modifies socket
      ensures Does(AwaitData(|got|), old(Now()), Data(data, e), Now())
      ensures ReadInOne(old(socket.input), data, e, got, socket.input)
    {
      ghost var s := Now();
      e := 0;
      var n: nat;
      n, e := ReadError(socket, e);
      data, got := [], [];
      if e >= 0 {
        data, e, got := FetchData(e);
      }
      Got(8, AwaitData(|got|).kr, s, Data(data, e), Now());
    }

    // The length, and one read of the data into a zeroed buffer.
    method FetchData(accepted: I64) returns (data: Str, e: I64, ghost got: Str)
      requires socket != null && accepted >= 0
      modifies socket
      ensures Does(ReadReply(accepted, |got|), old(Now()), Data(data, e), Now())
      ensures Fetched(old(socket.input), accepted, data, e, got, socket.input)
    {
      ghost var s := Now();
      var n, amount := ReadSize(socket, 0);
      ghost var s1 := Now();
      if n == 8 { assert s1 == Consume(s, 8); }
      var bs := socket.ReadSome(amount);
      got := bs;
      data := bs + Zeros(amount - |bs|);
      e := MinError(|bs|, accepted);
      assert Data(data, e) == DataReply(got, amount, accepted);
      assert Now() == Consume(s1, |got|);
      DataReceived(accepted, amount, s, s1, got, Now());
    }

    // What came of a length and so many bytes: the beginning, filled up with zeros. The rest stays on the connection.
    static ghost predicate Fetched(input: Str, accepted: I64, data: Str, e: I64, got: Str, left: Str) {
      8 <= |input| ==>
        var n := DecSize(input[..8]);
        got + left == input[8..] && |got| <= n && data == got + Zeros(n - |got|) && e == MinError(|got|, accepted)
    }

    static ghost predicate ReadInOne(reply: Str, data: Str, e: I64, got: Str, left: Str) {
      8 <= |reply| && DecError(reply[..8]) >= 0 ==> Fetched(reply[8..], DecError(reply[..8]), data, e, got, left)
    }

    // The last thing that happened on the connection is that writing to it failed.
    static ghost predicate EndsInFault(trace: seq<Event>) {
      trace != [] && trace[|trace| - 1] == Fault
    }

    // `broken` says that this ended the exchange without a reply.
    method WriteFile(path: CStr, offset: U64, data: Content) returns (written: U64, e: I64, ghost broken: bool)
      requires socket != null
      modifies socket
      ensures !broken ==> Does(WriteStub(path, offset, data), old(Now()), Written(written, e), Now())
      ensures broken ==> written == 0 && e < 0 && EndsInFault(socket.trace)
    {
      var _ := WriteCmd(socket, WRITE);
      var _ := WriteString(socket, path);
      ghost var s1 := Now();
      e := 0;
      var n: nat;
      n, e := ReadError(socket, e);
      ghost var s2 := Now();
      broken := false;
      if e < 0 {
        written := 0;
      } else {
        written, e, broken := SendData(offset, data, e);
      }
      if !broken {
        Got(8, AwaitOpened(offset, data).kr, s1, Written(written, e), Now());
        Asks(WRITE, path, AwaitOpened(offset, data), old(Now()), Written(written, e), Now());
      }
    }

    method SendData(offset: U64, data: Content, accepted: I64) returns (written: U64, e: I64, ghost broken: bool)
      requires socket != null && accepted >= 0
      modifies socket
      ensures !broken ==> Does(WriteOpened(offset, data, accepted), old(Now()), Written(written, e), Now())
      ensures broken ==> written == 0 && e < 0 && EndsInFault(socket.trace)
      ensures old(socket.input) == [] ==> socket.input == []
    {
      var _ := WriteSize(socket, |data|);
      ghost var s1 := Now();
      var _ := WriteSize(socket, offset);
      ghost var s2 := Now();
      written, e, broken := 0, accepted, false;
      assert s2.trace + Outs(data[..0]) == s2.trace;
      while written != |data|
        invariant written <= |data| && e >= 0 && !broken
        invariant Now() == s2.(trace := s2.trace + Outs(data[..written]))
        decreases |data| - written
      {
        var n, errno := socket.WriteSome(data[written..]);
        if n < 0 {
          written, e, broken := 0, -(errno as int), true;
          return;
        }
        PieceSent(s2.trace, data, written, n);
        e := n;
        written := written + n;
      }
      assert data[..written] == data;
      ghost var s3 := Now();
      var n: nat;
      n, e := ReadError(socket, e);
      ghost var s4 := Now();
      if e >= 0 {
        n, written := ReadSize(socket, written);
        Got(8, WriteReply(|data|, e).kr, s4, Written(written, e), Now());
      }
      Got(8, AwaitReport(|data|).kr, s3, Written(written, e), Now());
      Sent(data, AwaitReport(|data|), s2, Written(written, e), Now());
      Sent(EncSize(offset), SendBody(data), s1, Written(written, e), Now());
      Sent(EncSize(|data|), WriteOpened(offset, data, accepted).k, old(Now()), Written(written, e), Now());
    }

    // A reply is read over the value NONE, and a timeout is meant to leave NONE in place. It does only on a big-endian
    // host: elsewhere the conversion turns the untouched NONE into another number and the dead socket is kept.
    method Heartbeat() returns (e: I64)
      requires socket != null
      modifies this`socket, socket
      ensures e == 0
      ensures socket != null ==> socket == old(socket)
      ensures old(socket.input) == [] ==> (socket == null <==> old(socket).host.Big?)
      ensures |old(socket.input)| == 1 ==>
                (socket == null <==> old(socket).host.Big? && old(socket.input) == [0])
      ensures 2 <= |old(socket.input)| ==> (socket == null <==> DecCmd(old(socket.input)[..2]) == NONE)
      ensures Does(BeatStub(), old(Now()), Beaten(socket != null),
                   Snapshot(old(socket).input, old(socket).trace, map[]))
    {
      var _ := WriteCmd(socket, HEARTBEAT);
      ghost var s1 := Now();
      var n, resp := ReadCmd(socket, NONE);
      ghost var z := Now();
      if n < 2 {
        StaleCmd(socket.host, s1.input[..n], NONE);
      }
      if resp == NONE {
        socket := null;
      }
      Got(2, BeatStub().k.kr, s1, Beaten(resp != NONE), z);
      Sent(EncCmd(HEARTBEAT), BeatStub().k, old(Now()), Beaten(resp != NONE), z);
      e := 0;
    }
  }

  lemma PieceSent(before: seq<Event>, data: Str, written: nat, n: nat)
    requires written + n <= |data|
    ensures before + Outs(data[..written]) + Outs(data[written..][..n]) == before + Outs(data[..written + n])
  {}
}
