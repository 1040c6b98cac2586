/** src/agfs-server.cpp: the server's end of a connection, its command loop and its handlers. */
module Server {
  import opened Bytes
  import opened Wire
  import opened Disk
  import opened Pieces
  import opened Process
  import opened Protocol
  import opened AgfsIo

  const MAX_MISSED: nat := 5

  // A handler has run from one snapshot to another and is back at the top of the loop.
  ghost predicate Performed(p: Proc<ServerEnd>, s: Snapshot, z: Snapshot) {
    Does(p, s, AtTop, z)
  }

  // The two sizes of a READ.
  lemma GotRange(t: Tree, path: Str, fails: bool, s: Snapshot, z: Snapshot)
    requires 16 <= |s.input| ==>
               Performed(AnswerRead(t, path, DecSize(s.input[..8]), DecSize(s.input[8..16]), fails), Consume(s, 16), z)
    requires |s.input| < 16 ==> BrokenOff(s, z)
    ensures Performed(AwaitReadSize(t, path, fails), s, z)
  {
    if 8 <= |s.input| {
      var s1 := Consume(s, 8);
      if 8 <= |s1.input| { ConsumeTwice(s, 8, 8); }
      Got(8, AwaitReadOffset(t, path, DecSize(s.input[..8]), fails).kr, s1, AtTop, z);
    }
    Got(8, AwaitReadSize(t, path, fails).kr, s, AtTop, z);
  }

  // The reply to a READ.
  lemma DataSent(d: Content, e: I64, s: Snapshot, z: Snapshot)
    requires z == s.(trace := s.trace + Outs(EncError(e)) + if e >= 0 then Outs(EncSize(|d|)) + Outs(d) else [])
    ensures Performed(SendData(d, e), s, z)
  {
    var s1 := s.(trace := s.trace + Outs(EncError(e)));
    if e >= 0 {
      var s2 := s1.(trace := s1.trace + Outs(EncSize(|d|)));
      assert s2.trace + Outs(d) == z.trace;
      Sent(d, TOP, s2, AtTop, z);
      Sent(EncSize(|d|), SendBytes(d, TOP), s1, AtTop, z);
    } else {
      assert s1.trace == z.trace;
    }
    Sent(EncError(e), SendData(d, e).k, s, AtTop, z);
  }

  /* ---- WRITE ---- */

  // The session after the pieces of a transfer.
  function MovedTo(s: Snapshot, path: Str, pos: nat, ps: seq<Piece>): Snapshot
    requires Taken(ps) <= |s.input|
  {
    Snapshot(s.input[Taken(ps)..], s.trace + Ins(s.input[..Taken(ps)]), WriteAt(s.tree, path, pos, Put(s.input, ps)))
  }

  // The transfer and its report.
  lemma TransferFinishes(path: Str, pos: nat, size: nat, ps: seq<Piece>, s: Snapshot)
    requires Possible(ps, size, pos) && Taken(ps) <= |s.input|
    ensures var done := MovedTo(s, path, pos, ps);
            Finish(Transfer(path, pos, size, 0, 0, ps), s) ==
            Some((AtTop, done.(trace := done.trace + Outs(ReportBytes(ps)))))
  {
    TransferRuns(path, pos, size, 0, 0, ps, s.input, s.tree);
    ReportRuns(ps, s.input[Taken(ps)..], WriteAt(s.tree, path, pos, Put(s.input, ps)));
    EventsJoined(s.trace, Ins(s.input[..Taken(ps)]), Outs(ReportBytes(ps)));
  }

  lemma EventsJoined(a: seq<Event>, b: seq<Event>, c: seq<Event>)
    ensures (a + b) + c == a + (b + c)
  {}

  // The two sizes of a WRITE.
  lemma GotParameters(path: Str, ps: seq<Piece>, s: Snapshot, z: Snapshot)
    requires 16 <= |s.input| ==>
               Performed(TransferIfPossible(path, Position(DecSize(s.input[8..16])), DecSize(s.input[..8]), ps),
                         Consume(s, 16), z)
    requires |s.input| < 16 ==> BrokenOff(s, z)
    ensures Performed(AwaitWriteSize(path, ps), s, z)
  {
    if 8 <= |s.input| {
      var s1 := Consume(s, 8);
      if 8 <= |s1.input| { ConsumeTwice(s, 8, 8); }
      Got(8, AwaitWriteOffset(path, DecSize(s.input[..8]), ps).kr, s1, AtTop, z);
    }
    Got(8, AwaitWriteSize(path, ps).kr, s, AtTop, z);
  }

  datatype WriteParameters = WriteParameters(path: Str, size: U64, offset: U64, ready: Snapshot)

  // The parameters of a complete WRITE request, and the snapshot once they have been read.
  ghost function WriteRequest(s: Snapshot): Option<WriteParameters> {
    match DecField(KText, s.input)
    case None => None
    case Some((f, rest)) =>
      var s1 := Consume(s, |s.input| - |rest|);
      if |rest| < 16 then None
      else Some(WriteParameters(f.s, DecSize(rest[..8]), DecSize(rest[8..16]), Ready(s1)))
  }

  // After the first error has been reported and size and offset have been read.
  ghost function Ready(s: Snapshot): Snapshot
    requires 16 <= |s.input|
  {
    Consume(s.(trace := s.trace + Outs(EncError(0))), 16)
  }

  lemma RequestRead(s: Snapshot, path: Str, s1: Snapshot)
    requires |s1.input| <= |s.input| && s1 == Consume(s, |s.input| - |s1.input|)
    requires match DecField(KText, s.input)
             case Some((f, rest)) => f == Text(path) && rest == s1.input
             case None => s1.input == []
    ensures match WriteRequest(s)
            case Some(q) => 16 <= |s1.input| &&
              q == WriteParameters(path, DecSize(s1.input[..8]), DecSize(s1.input[8..16]), Ready(s1))
            case None => |s1.input| < 16
  {}

  // The pieces are a course of the transfer of `size` bytes that the connection has; the client is gone only when
  // nothing more came from it.
  ghost predicate Genuine(ps: seq<Piece>, size: nat, pos: nat, s: Snapshot, z: Snapshot) {
    Possible(ps, size, pos) && Taken(ps) <= |s.input| && (Stays(ps) || z.input == [])
  }

  // The same for a whole request, if there is one and its file can be opened.
  ghost predicate GenuineWrite(ps: seq<Piece>, s: Snapshot, z: Snapshot) {
    match WriteRequest(s)
    case Some(q) =>
      OpenStatus(s.tree, q.path, O_WRONLY) == 0 ==> Genuine(ps, q.size, Position(q.offset), q.ready, z)
    case None => true
  }

  // The account of a WRITE, for any pieces and any short or failing local writes: what was put into the file is what
  // the pieces put there, never more than was taken, and its size is reported unless a local write failed. If all the
  // data was sent, the bytes not taken are left on the connection, and nothing is left if and only if no local write
  // failed or the one that did was that of the last piece.
  lemma WriteAccount(ps: seq<Piece>, q: WriteParameters, s: Snapshot, z: Snapshot)
    requires Performed(WriteHandler(s.tree, ps), s, z) && WriteRequest(s) == Some(q)
    requires OpenStatus(s.tree, q.path, O_WRONLY) == 0 && Genuine(ps, q.size, Position(q.offset), q.ready, z)
    ensures var put := Put(q.ready.input, ps);
            && |put| == Total(ps) <= Taken(ps) <= q.size
            && z.input == q.ready.input[Taken(ps)..]
            && z.tree == WriteAt(s.tree, q.path, Position(q.offset), put)
            && z.trace == q.ready.trace + Ins(q.ready.input[..Taken(ps)]) + Outs(ReportBytes(ps))
    ensures |q.ready.input| == q.size ==> |z.input| == q.size - Taken(ps)
    ensures |q.ready.input| == q.size ==> (z.input == [] <==> Failure(ps) == None || Taken(ps) == q.size)
  {
    Conserved(ps, q.size, Position(q.offset), q.ready.input);
    TransferFinishes(q.path, Position(q.offset), q.size, ps, q.ready);
    RequestFinishes(ps, q, s);
    FinishIsDone(WriteHandler(s.tree, ps), s, AtTop, z);
  }

  // From the transfer to the whole handler.
  lemma RequestFinishes(ps: seq<Piece>, q: WriteParameters, s: Snapshot)
    requires WriteRequest(s) == Some(q) && OpenStatus(s.tree, q.path, O_WRONLY) == 0
    requires Possible(ps, q.size, Position(q.offset))
    ensures Finish(WriteHandler(s.tree, ps), s) ==
            Finish(Transfer(q.path, Position(q.offset), q.size, 0, 0, ps), q.ready)
  {
    var rest := PathOf(s, q);
    PathFinishes(s, q.path, rest, ps);
    AcceptedFinishes(q.path, ps, Consume(s, |s.input| - |rest|));
  }

  lemma PathOf(s: Snapshot, q: WriteParameters) returns (rest: Str)
    requires WriteRequest(s) == Some(q)
    ensures DecField(KText, s.input) == Some((Text(q.path), rest)) && 16 <= |rest| <= |s.input|
    ensures q.size == DecSize(rest[..8]) && q.offset == DecSize(rest[8..16])
    ensures rest == Consume(s, |s.input| - |rest|).input && q.ready == Ready(Consume(s, |s.input| - |rest|))
  {
    rest := DecField(KText, s.input).value.1;
  }

  lemma PathFinishes(s: Snapshot, path: Str, rest: Str, ps: seq<Piece>)
    requires DecField(KText, s.input) == Some((Text(path), rest))
    ensures Finish(WriteHandler(s.tree, ps), s) == Finish(AnswerWrite(s.tree, path, ps), Consume(s, |s.input| - |rest|))
  {
    FinishString((p: Str) => AnswerWrite(s.tree, p, ps), s);
  }

  // From the first error on.
  lemma AcceptedFinishes(path: Str, ps: seq<Piece>, s: Snapshot)
    requires 16 <= |s.input| && OpenStatus(s.tree, path, O_WRONLY) == 0
    ensures Finish(AnswerWrite(s.tree, path, ps), s) ==
            Finish(TransferIfPossible(path, Position(DecSize(s.input[8..16])), DecSize(s.input[..8]), ps), Ready(s))
  {
    FinishSend(EncError(0), AwaitWriteSize(path, ps), s);
    ParametersFinish(path, ps, s.(trace := s.trace + Outs(EncError(0))));
  }

  lemma ParametersFinish(path: Str, ps: seq<Piece>, s: Snapshot)
    requires 16 <= |s.input|
    ensures Finish(AwaitWriteSize(path, ps), s) ==
            Finish(TransferIfPossible(path, Position(DecSize(s.input[8..16])), DecSize(s.input[..8]), ps),
                   Consume(s, 16))
  {
    ConsumeTwice(s, 8, 8);
    FinishRecv(8, AwaitWriteSize(path, ps).kr, s);
    FinishRecv(8, AwaitWriteOffset(path, DecSize(s.input[..8]), ps).kr, Consume(s, 8));
  }

  /* ---- The transfer loop, piece by piece ---- */

  // A piece has been read (now), and some of it has been written (z) ...
  lemma PieceWritten(s: Snapshot, path: Str, pos: nat, size: nat, ps: seq<Piece>, data: Chunk, n: Positive,
                     now: Snapshot, z: Snapshot)
    requires Underway(ps, size, pos) && Taken(ps) + |data| <= |s.input| && n <= |data|
    requires Taken(ps + [Wrote(|data|, n)]) == Taken(ps) + |data|
    requires data == s.input[Taken(ps)..][..|data|] && now == Consume(MovedTo(s, path, pos, ps), |data|)
    requires z == now.(tree := WriteAt(now.tree, path, pos + Total(ps), data[..n]))
    ensures z == MovedTo(s, path, pos, ps + [Wrote(|data|, n)])
  {
    var ps', put, part := ps + [Wrote(|data|, n)], Put(s.input, ps), data[..n];
    assert part == s.input[Taken(ps)..][..n];
    NextPut(s.input, ps, size, pos, |data|, n);
    WriteOnto(s.tree, path, pos, put, part, Put(s.input, ps'), |put|);
    MovedOn(s, path, pos, ps, ps', |data|, z.tree);
  }

  lemma MovedOn(s: Snapshot, path: Str, pos: nat, ps: seq<Piece>, ps': seq<Piece>, m: nat, t: Tree)
    requires Taken(ps') == Taken(ps) + m <= |s.input| && WriteAt(s.tree, path, pos, Put(s.input, ps')) == t
    ensures MovedTo(s, path, pos, ps') == Consume(MovedTo(s, path, pos, ps), m).(tree := t)
  {
    Advanced(s, Taken(ps), m);
  }

  // ... or nothing.
  lemma PieceFailed(s: Snapshot, path: Str, pos: nat, size: nat, ps: seq<Piece>, data: Chunk, errno: Errno,
                    now: Snapshot)
    requires Underway(ps, size, pos) && Taken(ps) + |data| <= |s.input| && Taken(ps) + |data| <= size
    requires now == Consume(MovedTo(s, path, pos, ps), |data|)
    ensures var ps' := ps + [Failed(|data|, errno)];
            && Possible(ps', size, pos) && Taken(ps') == Taken(ps) + |data| && Total(ps') == Total(ps)
            && now == MovedTo(s, path, pos, ps')
  {
    NextEnds(s.input, ps, size, pos, Failed(|data|, errno));
    MovedOn(s, path, pos, ps, ps + [Failed(|data|, errno)], |data|, MovedTo(s, path, pos, ps).tree);
  }

  lemma ClientGone(s: Snapshot, path: Str, pos: nat, size: nat, ps: seq<Piece>)
    requires Underway(ps, size, pos) && Taken(ps) == |s.input| < size
    ensures var ps' := ps + [Gone];
            && Possible(ps', size, pos) && Taken(ps') == Taken(ps) && Total(ps') == Total(ps)
            && MovedTo(s, path, pos, ps') == MovedTo(s, path, pos, ps)
  {
    NextEnds(s.input, ps, size, pos, Gone);
    MovedOn(s, path, pos, ps, ps + [Gone], 0, MovedTo(s, path, pos, ps).tree);
    NothingTaken(MovedTo(s, path, pos, ps));
  }

  lemma TransferBegins(s: Snapshot, path: Str, pos: nat)
    ensures MovedTo(s, path, pos, []) == s
  {
    WriteNothing(s.tree, path, pos);
    NothingTaken(s);
  }

  lemma ResultFits(ps: seq<Piece>, size: U64, pos: nat)
    requires Possible(ps, size, pos) && pos < TWO_63
    ensures Total(ps) < TWO_64 && LastResult(ps) < TWO_63
  {
    Conserved(ps, size, pos, []);
  }

  lemma NothingTaken(s: Snapshot)
    ensures Consume(s, 0) == s
  {
    assert s.input[0..] == s.input && s.input[..0] == [] && s.trace + Ins([]) == s.trace;
  }

  lemma Advanced(s: Snapshot, n: nat, m: nat)
    requires n + m <= |s.input|
    ensures s.input[n..][..m] == s.input[n..n + m] && s.input[n..][m..] == s.input[n + m..]
    ensures s.input[..n] + s.input[n..][..m] == s.input[..n + m]
    ensures s.trace + Ins(s.input[..n]) + Ins(s.input[n..][..m]) == s.trace + Ins(s.input[..n + m])
  {}

  // Without input nothing is transferred.
  lemma NothingMoved(s: Snapshot, path: Str, pos: nat, size: nat, ps: seq<Piece>)
    requires s.input == [] && Possible(ps, size, pos) && Taken(ps) == 0
    ensures MovedTo(s, path, pos, ps) == s
  {
    Conserved(ps, size, pos, s.input);
    WriteNothing(s.tree, path, pos);
    assert s.trace + Ins([]) == s.trace;
  }

  // From the parameters to the end of a WRITE, also when they broke off and the transfer had nothing to work with.
  lemma WriteReceived(path: Str, size: U64, offset: U64, ps: seq<Piece>, s: Snapshot, ready: Snapshot, z: Snapshot)
    requires 16 <= |s.input| ==>
               size == DecSize(s.input[..8]) && offset == DecSize(s.input[8..16]) && ready == Consume(s, 16)
    requires |s.input| < 16 ==> ready.input == [] && ready.tree == s.tree
    requires Genuine(ps, size, Position(offset), ready, z)
    requires var done := MovedTo(ready, path, Position(offset), ps);
             z == done.(trace := done.trace + Outs(ReportBytes(ps)))
    ensures Performed(AwaitWriteSize(path, ps), s, z)
  {
    if 16 <= |s.input| {
      TransferFinishes(path, Position(offset), size, ps, ready);
    } else {
      NothingMoved(ready, path, Position(offset), size, ps);
    }
    GotParameters(path, ps, s, z);
  }

  /* ---- The command loop ---- */

  function EndOf(cmd: U16): ServerEnd {
    if cmd == STOP then Closed else AtTop
  }

  // One pass of the loop: nothing arrived in time (or ever will), or a command was read and handled.
  datatype Pass = Missed | Handled(cmd: U16, o: Chance)

  // A command has been handled, with what chance decided.
  ghost predicate Answered(cmd: U16, o: Chance, s: Snapshot, z: Snapshot) {
    Does(Handler(cmd, s.tree, o), s, EndOf(cmd), z) && (cmd == WRITE ==> GenuineWrite(o.pieces, s, z))
  }

  ghost predicate Passed(s: Snapshot, p: Pass, z: Snapshot) {
    match p
    case Missed => z == s
    case Handled(cmd, o) =>
      && s.input != [] && |z.input| < |s.input|
      && (2 <= |s.input| ==> cmd == DecCmd(s.input[..2]))
      && Answered(cmd, o, Consume(s, Min(2, |s.input|)), z)
  }

  // What the local reads and writes of the handlers returned, in order.
  datatype LocalResult = ReadOk(n: nat) | ReadFails | WriteOk(n: nat) | WriteFails(errno: Errno)

  function PieceResult(p: Piece): seq<LocalResult> {
    match p
    case Wrote(_, n) => [WriteOk(n)]
    case Failed(_, errno) => [WriteFails(errno)]
    case Gone => []
  }

  function WriteResults(ps: seq<Piece>): seq<LocalResult> {
    if ps == [] then [] else WriteResults(ps[..|ps| - 1]) + PieceResult(ps[|ps| - 1])
  }

  lemma OneResultMore(ps: seq<Piece>, p: Piece)
    ensures WriteResults(ps + [p]) == WriteResults(ps) + PieceResult(p)
  {
    assert (ps + [p])[..|ps|] == ps;
  }

  // What chance has decided about a command is what the local calls made for it have returned.
  ghost predicate Happened(cmd: U16, o: Chance, calls: seq<LocalResult>) {
    if cmd == WRITE then calls == WriteResults(o.pieces)
    else if cmd == READ then o.fails <==> ReadFails in calls
    else calls == []
  }

  ghost predicate PassHappened(p: Pass, calls: seq<LocalResult>) {
    match p
    case Missed => calls == []
    case Handled(cmd, o) => Happened(cmd, o, calls)
  }

  // The local calls of a session are those of its passes.
  ghost predicate SessionHappened(passes: seq<Pass>, calls: seq<LocalResult>) {
    if passes == [] then calls == []
    else
      exists k :: 0 <= k <= |calls| && SessionHappened(passes[..|passes| - 1], calls[..k])
                  && PassHappened(passes[|passes| - 1], calls[k..])
  }

  lemma OnePassHappened(passes: seq<Pass>, calls: seq<LocalResult>, p: Pass, more: seq<LocalResult>)
    requires SessionHappened(passes, calls) && PassHappened(p, more)
    ensures SessionHappened(passes + [p], calls + more)
  {
    var k, all := |calls|, calls + more;
    assert (passes + [p])[..|passes|] == passes && all[..k] == calls && all[k..] == more;
  }

  function CountMissed(passes: seq<Pass>): nat {
    if passes == [] then 0 else CountMissed(passes[..|passes| - 1]) + if passes[|passes| - 1].Missed? then 1 else 0
  }

  // states[i] is the session before pass i
  ghost predicate PassAt(states: seq<Snapshot>, passes: seq<Pass>, i: nat) {
    i < |passes| && i + 1 < |states| && Passed(states[i], passes[i], states[i + 1])
  }

  ghost predicate Session(states: seq<Snapshot>, passes: seq<Pass>) {
    |states| == |passes| + 1 && forall i: nat :: i < |passes| ==> PassAt(states, passes, i)
  }

  // A recorded session: its states, its passes and the local calls made in them.
  ghost predicate Recorded(states: seq<Snapshot>, passes: seq<Pass>, calls: seq<LocalResult>) {
    Session(states, passes) && SessionHappened(passes, calls)
  }

  lemma OnePassMore(states: seq<Snapshot>, passes: seq<Pass>, calls: seq<LocalResult>, p: Pass, z: Snapshot,
                    more: seq<LocalResult>)
    requires Recorded(states, passes, calls) && Passed(states[|passes|], p, z) && PassHappened(p, more)
    ensures Recorded(states + [z], passes + [p], calls + more)
    ensures CountMissed(passes + [p]) == CountMissed(passes) + if p.Missed? then 1 else 0
  {
    LastPass(states, passes, p, z);
    OnePassHappened(passes, calls, p, more);
    SessionGrows(states, passes, p, z);
    assert (passes + [p])[..|passes|] == passes;
  }

  lemma SessionGrows(states: seq<Snapshot>, passes: seq<Pass>, p: Pass, z: Snapshot)
    requires Session(states, passes) && PassAt(states + [z], passes + [p], |passes|)
    ensures Session(states + [z], passes + [p])
  {
    forall i: nat | i < |passes| + 1 ensures PassAt(states + [z], passes + [p], i) {
      if i < |passes| {
        SamePass(states, passes, z, p, i);
      }
    }
  }

  lemma LastPass(states: seq<Snapshot>, passes: seq<Pass>, p: Pass, z: Snapshot)
    requires |states| == |passes| + 1 && Passed(states[|passes|], p, z)
    ensures PassAt(states + [z], passes + [p], |passes|)
  {}

  lemma SamePass(states: seq<Snapshot>, passes: seq<Pass>, z: Snapshot, p: Pass, i: nat)
    requires PassAt(states, passes, i)
    ensures PassAt(states + [z], passes + [p], i)
  {
    var ss, pp := states + [z], passes + [p];
    assert ss[i] == states[i] && ss[i + 1] == states[i + 1] && pp[i] == passes[i];
  }

  /* ---- READDIR ---- */

  // What the listing loop puts on the socket.
  function EntriesBytes(files: seq<(CStr, Stat)>): Str {
    if files == [] then []
    else EntriesBytes(files[..|files| - 1]) + (EncString(files[|files| - 1].0) + EncStat(files[|files| - 1].1))
  }

  lemma {:induction false} EntriesSent(files: seq<(CStr, Stat)>, s: Snapshot)
    ensures Performed(SendEntries(files), s, s.(trace := s.trace + Outs(EntriesBytes(files))))
  {
    var z := s.(trace := s.trace + Outs(EntriesBytes(files)));
    if files == [] {
      assert s.trace + Outs([]) == s.trace;
    } else {
      var (name, st) := files[0];
      var s1 := s.(trace := s.trace + Outs(EncSize(|name|)));
      var s2 := s1.(trace := s1.trace + Outs(name));
      var s3 := s2.(trace := s2.trace + Outs(EncStat(st)));
      EntriesSent(files[1..], s3);
      EntriesBytesFront(files);
      OutsAppend(EncSize(|name|), name);
      OutsAppend(EncString(name), EncStat(st));
      OutsAppend(EncString(name) + EncStat(st), EntriesBytes(files[1..]));
      assert s3.trace + Outs(EntriesBytes(files[1..])) == z.trace;
      Sent(EncStat(st), SendEntries(files[1..]), s2, AtTop, z);
      Sent(name, Send(EncStat(st), SendEntries(files[1..])), s1, AtTop, z);
      Sent(EncSize(|name|), SendBytes(name, Send(EncStat(st), SendEntries(files[1..]))), s, AtTop, z);
    }
  }

  lemma {:induction false} EntriesBytesFront(files: seq<(CStr, Stat)>)
    requires files != []
    ensures EntriesBytes(files) == EncString(files[0].0) + EncStat(files[0].1) + EntriesBytes(files[1..])
  {
    var n := |files| - 1;
    var last := EncString(files[n].0) + EncStat(files[n].1);
    if n == 0 {
      assert files[..0] == [] == files[1..];
      assert [] + last == last + [];
    } else {
      EntriesBytesFront(files[..n]);
      assert files[1..][..n - 1] == files[..n][1..];
      Associate(EncString(files[0].0) + EncStat(files[0].1), EntriesBytes(files[..n][1..]), last);
    }
  }

  class ClientConnection {
    var socket: Socket?  // null once closed
    var tree: Tree       // the files below mountPoint_
    var beatsMissed: nat
    ghost var calls: seq<LocalResult>  // the results of the local reads and writes so far

    constructor (socket: Socket, tree: Tree)
      ensures this.socket == socket && this.tree == tree && beatsMissed == 0 && calls == []
    {
      this.socket := socket;
      this.tree := tree;
      beatsMissed := 0;
      calls := [];
    }

    ghost function Now(): Snapshot
      requires socket != null
      reads this, socket
    {
      Snapshot(socket.input, socket.trace, tree)
    }

    method ProcessHeartbeat()
      requires socket != null
      modifies socket
      ensures Performed(Handler(HEARTBEAT, tree, UNEVENTFUL), old(Now()), Now())
      ensures socket.input == old(socket.input)
    {
      var _ := WriteCmd(socket, HEARTBEAT);
      Sent(EncCmd(HEARTBEAT), TOP, old(Now()), AtTop, Now());
    }

    method ProcessGetAttr()
      requires socket != null
      modifies socket
      ensures Performed(GetAttrHandler(tree), old(Now()), Now())
      ensures |socket.input| <= |old(socket.input)|
    {
      ghost var t := tree;
      var _, path := ReadString(socket);
      ghost var s1 := Now();
      var (st, e) := Lstat(tree, path);
      var _ := WriteError(socket, e);
      ghost var s2 := Now();
      if e >= 0 {
        var _ := WriteStat(socket, st);
        Sent(EncStat(st), TOP, s2, AtTop, Now());
      }
      Sent(EncError(e), AnswerGetAttr(t, path).k, s1, AtTop, Now());
      GotString((p: Str) => AnswerGetAttr(t, p), old(Now()), AtTop, Now());
    }

    method ProcessAccess()
      requires socket != null
      modifies socket
      ensures Performed(AccessHandler(tree), old(Now()), Now())
      ensures |socket.input| <= |old(socket.input)|
    {
      ghost var t := tree;
      var _, path := ReadString(socket);
      ghost var s1 := Now();
      var mask: U32 := *;  // not initialised before it is read into
      var n: nat;
      n, mask := ReadMask(socket, mask);
      ghost var s2 := Now();
      var result := Access(tree, path, mask);
      var _ := WriteError(socket, result);
      Sent(EncError(result), TOP, s2, AtTop, Now());
      Got(4, AnswerAccess(t, path).kr, s1, AtTop, Now());
      GotString((p: Str) => AnswerAccess(t, p), old(Now()), AtTop, Now());
    }

    method ProcessOpen()
      requires socket != null
      modifies socket
      ensures Performed(OpenHandler(tree), old(Now()), Now())
      ensures |socket.input| <= |old(socket.input)|
    {
      ghost var t := tree;
      var _, path := ReadString(socket);
      ghost var s1 := Now();
      var n, mask := ReadMask(socket, 0);
      ghost var s2 := Now();
      var e := OpenStatus(tree, path, mask);
      var _ := WriteError(socket, e);
      Sent(EncError(e), TOP, s2, AtTop, Now());
      Got(4, AnswerOpen(t, path).kr, s1, AtTop, Now());
      GotString((p: Str) => AnswerOpen(t, p), old(Now()), AtTop, Now());
    }

    method ProcessReaddir()
      requires socket != null
      modifies socket
      ensures Performed(ReadDirHandler(tree), old(Now()), Now())
      ensures |socket.input| <= |old(socket.input)|
    {
      ghost var t := tree;
      var _, path := ReadString(socket);
      ghost var s1 := Now();
      var e: I64 := 0;
      if path !in tree {
        e := -ENOENT;
      }
      if !(path in tree && tree[path].body.Dir?) {
        e := -ENOTDIR;
      }
      var _ := WriteError(socket, e);
      ghost var s2 := Now();
      if e >= 0 {
        WriteEntries(path);
      }
      Sent(EncError(e), AnswerReadDir(t, path).k, s1, AtTop, Now());
      GotString((p: Str) => AnswerReadDir(t, p), old(Now()), AtTop, Now());
    }

    // Counts the entries of the directory, then walks it again and writes each name and stat.
    method WriteEntries(path: Str)
      requires socket != null && path in tree && tree[path].body.Dir?
      modifies socket
      ensures Performed(SendListing(Listing(tree, path).0), old(Now()), Now())
      ensures socket.input == old(socket.input)
    {
      ghost var t, files := tree, Listing(tree, path).0;
      var names := tree[path].body.children;
      var count := 0;
      for i := 0 to |names|
        invariant count == i
      {
        count := count + 1;
      }
      var _ := WriteSize(socket, count);
      ghost var s1 := Now();
      for i := 0 to |names|
        invariant socket.input == s1.input && tree == t
        invariant socket.trace == s1.trace + Outs(EntriesBytes(files[..i]))
      {
        var _ := WriteString(socket, names[i]);
        var _ := WriteStat(socket, EntryStat(tree, path, names[i]));
        EntryWritten(s1.trace, files, i);
      }
      assert files[..|names|] == files;
      EntriesSent(files, s1);
      Sent(EncSize(|files|), SendEntries(files), old(Now()), AtTop, Now());
    }

    // read(2) of a file: any number of bytes up to what is left, none only at the end of the file, or an error
    method LocalRead(path: Str, pos: nat, want: Positive) returns (fails: bool, bs: Str)
      requires path in tree && tree[path].body.File?
      modifies this`calls
      ensures bs <= Slice(tree[path].body.data, pos, want)
      ensures !fails ==> (bs == [] <==> pos >= |tree[path].body.data|)
      ensures calls == old(calls) + [if fails then ReadFails else ReadOk(|bs|)]
    {
      var all := Slice(tree[path].body.data, pos, want);
      var m: nat := *;
      fails := *;
      bs := if fails then [] else if 0 < m <= |all| then all[..m] else all;
      calls := calls + [if fails then ReadFails else ReadOk(|bs|)];
    }

    // The size and the offset of a READ or WRITE.
    method ReadRange() returns (size: U64, offset: U64)
      requires socket != null
      modifies socket
      ensures 16 <= |old(socket.input)| ==>
                && size == DecSize(old(socket.input)[..8]) && offset == DecSize(old(socket.input)[8..16])
                && Now() == Consume(old(Now()), 16)
      ensures |old(socket.input)| < 16 ==> socket.input == []
      ensures |socket.input| <= |old(socket.input)|
    {
      ghost var s := Now();
      var n, m;
      n, size := ReadSize(socket, 0);
      m, offset := ReadSize(socket, 0);
      if n + m == 16 { ConsumeTwice(s, 8, 8); }
    }

    method ProcessRead() returns (ghost fails: bool)
      requires socket != null
      modifies socket, this`calls
      ensures Performed(ReadHandler(tree, fails), old(Now()), Now())
      ensures old(calls) <= calls && (fails <==> ReadFails in calls[|old(calls)|..])
      ensures |socket.input| <= |old(socket.input)|
    {
      ghost var t := tree;
      var _, path := ReadString(socket);
      ghost var s1 := Now();
      var size, offset := ReadRange();
      fails := ReadAndReply(path, size, offset);
      GotRange(t, path, fails, s1, Now());
      GotString((p: Str) => AwaitReadSize(t, p, fails), old(Now()), AtTop, Now());
    }

    method ReadAndReply(path: Str, size: U64, offset: U64) returns (ghost fails: bool)
      requires socket != null
      modifies socket, this`calls
      ensures old(calls) <= calls && (fails <==> ReadFails in calls[|old(calls)|..])
      ensures Performed(AnswerRead(tree, path, size, offset, fails), old(Now()), Now())
      ensures socket.input == old(socket.input)
    {
      var e := OpenStatus(tree, path, O_RDONLY);
      var buf: Content := [];
      fails := false;
      if e < 0 {
        var _ := WriteError(socket, e);
      } else {
        buf, e, fails := ReadLoop(path, size, offset);
        var _ := WriteError(socket, e);
        if e >= 0 {
          var _ := WriteSize(socket, |buf|);
          var _ := socket.Write(buf);
        }
      }
      DataSent(buf, e, old(Now()), Now());
    }

    // The file position is where lseek left it; reading stops at the size asked for, at the end of the file or on an
    // error.
    method ReadLoop(path: Str, size: U64, offset: U64) returns (buf: Content, e: I64, ghost fails: bool)
      requires OpenStatus(tree, path, O_RDONLY) == 0
      modifies this`calls
      ensures (buf, e) == Read(tree, path, size, offset, fails)
      ensures old(calls) <= calls && (fails <==> ReadFails in calls[|old(calls)|..])
    {
      var pos := Position(offset);
      buf := [];
      e := 0;
      fails := false;
      if tree[path].body.Dir? {
        e := if size == 0 then 0 else -1;
        return;
      }
      ghost var data := tree[path].body.data;
      while |buf| != size
        invariant |buf| <= size && buf == Slice(data, pos, |buf|)
        invariant old(calls) <= calls && ReadFails !in calls[|old(calls)|..]
        decreases size - |buf|
      {
        var failed, bs := LocalRead(path, pos + |buf|, size - |buf|);
        if failed {
          assert calls[|old(calls)|..][|calls| - 1 - |old(calls)|] == ReadFails;
          return [], -1, true;
        }
        if bs == [] {
          break;
        }
        SliceExtends(data, pos, |buf|, size - |buf|, bs);
        buf := buf + bs;
      }
      e := |buf|;
    }

    // write(2) to a file: takes any positive part of the chunk, or fails
    method LocalWrite(path: Str, pos: nat, chunk: Chunk) returns (n: int, errno: Errno)
      modifies this`tree, this`calls
      ensures n == -1 || 0 < n <= |chunk|
      ensures calls == old(calls) + [if n > 0 then WriteOk(n) else WriteFails(errno)]
      ensures n > 0 ==> pos + n < TWO_63 && tree == WriteAt(old(tree), path, pos, chunk[..n])
      ensures n == -1 ==> tree == old(tree)
    {
      var m: nat, fails: bool := *, *;
      errno := *;
      n := if 0 < m <= |chunk| then m else |chunk|;
      if fails || pos + n >= TWO_63 {
        n := -1;
      } else {
        tree := WriteAt(tree, path, pos, chunk[..n]);
      }
      calls := calls + [if n > 0 then WriteOk(n) else WriteFails(errno)];
    }

    // The second half of a pass of the transfer loop: what the socket had goes into the file. n is what was written,
    // p what became of the piece.
    method WritePiece(path: Str, start: nat, written: nat, data: Chunk, ghost size: nat, ghost s: Snapshot,
                      ghost ps: seq<Piece>)
      returns (n: int, errno: Errno, ghost p: Piece)
      requires socket != null && Underway(ps, size, start) && written == Total(ps)
      requires Taken(ps) + |data| <= size && Taken(ps) + |data| <= |s.input|
      requires var now := MovedTo(s, path, start, ps);
               data == now.input[..|data|] && Now() == Consume(now, |data|)
      modifies this`tree, this`calls
      ensures p == if n > 0 then Wrote(|data|, n) else Failed(|data|, errno)
      ensures calls == old(calls) + PieceResult(p)
      ensures Taken(ps + [p]) == Taken(ps) + |data| && Total(ps + [p]) == written + if n > 0 then n else 0
      ensures if n > 0 then Underway(ps + [p], size, start) else Possible(ps + [p], size, start)
      ensures Now() == MovedTo(s, path, start, ps + [p])
    {
      ghost var read := Now();
      n, errno := LocalWrite(path, start + written, data);
      p := if n > 0 then Wrote(|data|, n) else Failed(|data|, errno);
      if n > 0 {
        NextWritten(ps, size, start, |data|, n);
        PieceWritten(s, path, start, size, ps, data, n, read, Now());
      } else {
        PieceFailed(s, path, start, size, ps, data, errno, read);
      }
    }

    // One pass of the transfer loop. m is what was read, n what was written, p what became of it.
    method MovePiece(path: Str, size: nat, start: nat, read: nat, written: nat, ghost s: Snapshot, ghost ps: seq<Piece>)
      returns (m: nat, n: int, errno: Errno, ghost p: Piece)
      requires socket != null && Underway(ps, size, start) && read == Taken(ps) < size && written == Total(ps)
      requires read <= |s.input| && Now() == MovedTo(s, path, start, ps)
      modifies socket, this`tree, this`calls
      ensures calls == old(calls) + PieceResult(p)
      ensures if m == 0 then p == Gone && n == -1 && socket.input == []
              else p == if n > 0 then Wrote(m, n) else Failed(m, errno)
      ensures if n > 0 then Underway(ps + [p], size, start) else Possible(ps + [p], size, start)
      ensures read + m <= size && read + m <= |s.input|
      ensures Taken(ps + [p]) == read + m && Total(ps + [p]) == written + if n > 0 then n else 0
      ensures Now() == MovedTo(s, path, start, ps + [p])
    {
      ghost var now := Now();
      var data := socket.ReadSome(size - read);
      m := |data|;
      if data == [] {
        n, errno, p := -1, 1, Gone;
        NothingTaken(now);
        ClientGone(s, path, start, size, ps);
      } else {
        assert data == now.input[..|data|];
        n, errno, p := WritePiece(path, start, written, data, size, s, ps);
      }
    }

    // Socket to file, piece by piece, until everything has been read, the client has gone or a local write fails.
    // e is what the last read or write returned.
    method TransferLoop(path: Str, size: U64, start: nat)
      returns (written: nat, e: nat, failed: Option<Errno>, ghost ps: seq<Piece>)
      requires socket != null
      modifies socket, this`tree, this`calls
      ensures Genuine(ps, size, start, old(Now()), Now()) && Now() == MovedTo(old(Now()), path, start, ps)
      ensures written == Total(ps) && failed == Failure(ps) && (failed.None? ==> e == LastResult(ps))
      ensures calls == old(calls) + WriteResults(ps)
    {
      ghost var s := Now();
      var read := 0;
      written, e, failed, ps := 0, 0, None, [];
      TransferBegins(s, path, start);
      while read != size
        invariant socket == old(socket) && Underway(ps, size, start) && failed.None?
        invariant read == Taken(ps) <= size && read <= |s.input| && written == Total(ps) && e == LastResult(ps)
        invariant Now() == MovedTo(s, path, start, ps) && calls == old(calls) + WriteResults(ps)
        decreases size - read
      {
        ghost var p;
        var m, n, errno: Errno;
        m, n, errno, p := MovePiece(path, size, start, read, written, s, ps);
        LastOne(ps, size, start, p);
        OneResultMore(ps, p);
        ps := ps + [p];
        if m == 0 {
          e := 0;
          return;
        }
        read := read + m;
        if n <= 0 {
          failed := Some(errno);
          return;
        }
        e, written := n, written + n;
      }
      AllTaken(ps, size, start);
    }

    // The report of a transfer.
    method WriteReport(written: U64, e: I64, failed: Option<Errno>, ghost ps: seq<Piece>)
      requires socket != null && failed == Failure(ps)
      requires failed.None? ==> e == AsError(LastResult(ps)) && written == AsSize(Total(ps))
      modifies socket
      ensures Now() == old(Now()).(trace := old(socket.trace) + Outs(ReportBytes(ps)))
    {
      ghost var before := socket.trace;
      if failed.Some? {
        var _ := WriteError(socket, -(failed.value as int));
        return;
      }
      var _ := WriteError(socket, e);
      if e >= 0 {
        var _ := WriteSize(socket, written);
      }
      OutsJoined(before, EncError(e), EncSize(written));
    }

    // The data phase and the report.
    method TransferData(path: Str, size: U64, offset: U64) returns (ghost ps: seq<Piece>)
      requires socket != null && OpenStatus(tree, path, O_WRONLY) == 0
      modifies socket, this`tree, this`calls
      ensures calls == old(calls) + WriteResults(ps)
      ensures Genuine(ps, size, Position(offset), old(Now()), Now())
      ensures var done := MovedTo(old(Now()), path, Position(offset), ps);
              Now() == done.(trace := done.trace + Outs(ReportBytes(ps)))
    {
      var written, e, failed: Option<Errno>;
      written, e, failed, ps := TransferLoop(path, size, Position(offset));
      ResultFits(ps, size, Position(offset));
      WriteReport(written, if failed.None? then e else 0, failed, ps);
    }

    method ReceiveData(path: Str) returns (ghost ps: seq<Piece>)
      requires socket != null && OpenStatus(tree, path, O_WRONLY) == 0
      modifies socket, this`tree, this`calls
      ensures calls == old(calls) + WriteResults(ps)
      ensures Performed(AwaitWriteSize(path, ps), old(Now()), Now())
      ensures 16 <= |old(socket.input)| ==>
                Genuine(ps, DecSize(old(socket.input)[..8]), Position(DecSize(old(socket.input)[8..16])),
                        Consume(old(Now()), 16), Now())
      ensures |socket.input| <= |old(socket.input)|
    {
      ghost var s := Now();
      var size, offset := ReadRange();
      ghost var ready := Now();
      ps := TransferData(path, size, offset);
      WriteReceived(path, size, offset, ps, s, ready, Now());
    }

    // Open the file, report, and receive the data if there is a file to put it in.
    method OpenAndReceive(path: Str) returns (ghost ps: seq<Piece>)
      requires socket != null
      modifies socket, this`tree, this`calls
      ensures calls == old(calls) + WriteResults(ps)
      ensures Performed(AnswerWrite(old(tree), path, ps), old(Now()), Now())
      ensures OpenStatus(old(tree), path, O_WRONLY) == 0 && 16 <= |old(socket.input)| ==>
                Genuine(ps, DecSize(old(socket.input)[..8]), Position(DecSize(old(socket.input)[8..16])),
                        Ready(old(Now())), Now())
      ensures |socket.input| <= |old(socket.input)| && (|old(socket.input)| < 16 ==> tree == old(tree))
    {
      ghost var t := tree;
      var e := OpenStatus(tree, path, O_WRONLY);
      var _ := WriteError(socket, e);
      ps := [];
      if e >= 0 {
        ps := ReceiveData(path);
      }
      Sent(EncError(e), AnswerWrite(t, path, ps).k, old(Now()), AtTop, Now());
    }

    method ProcessWrite() returns (ghost ps: seq<Piece>)
      requires socket != null
      modifies socket, this`tree, this`calls
      ensures calls == old(calls) + WriteResults(ps)
      ensures Performed(WriteHandler(old(tree), ps), old(Now()), Now())
      ensures GenuineWrite(ps, old(Now()), Now())
      ensures |socket.input| <= |old(socket.input)|
    {
      ghost var t := tree;
      var _, path := ReadString(socket);
      RequestRead(old(Now()), path, Now());
      ps := OpenAndReceive(path);
      GotString((p: Str) => AnswerWrite(t, p, ps), old(Now()), AtTop, Now());
    }

    // The switch of the command loop. Unknown commands are ignored.
    method Dispatch(cmd: U16) returns (ghost o: Chance)
      requires socket != null && cmd != STOP
      modifies socket, this`tree, this`calls
      ensures Answered(cmd, o, old(Now()), Now())
      ensures old(calls) <= calls && Happened(cmd, o, calls[|old(calls)|..])
      ensures |socket.input| <= |old(socket.input)|
    {
      o := UNEVENTFUL;
      if cmd == HEARTBEAT {
        ProcessHeartbeat();
      } else if cmd == GETATTR {
        ProcessGetAttr();
      } else if cmd == READDIR {
        ProcessReaddir();
      } else if cmd == ACCESS {
        ProcessAccess();
      } else if cmd == READ {
        ghost var fails := ProcessRead();
        o := o.(fails := fails);
      } else if cmd == WRITE {
        ghost var ps := ProcessWrite();
        o := o.(pieces := ps);
      } else if cmd == OPEN {
        ProcessOpen();
      } else {
        NothingDone(Now());
      }
    }

    // Ends for every client: each pass consumes a request byte or uses up one of six missed beats, which are never
    // given back. `passes` and `states` record the session.
    method ProcessCommands() returns (ghost states: seq<Snapshot>, ghost passes: seq<Pass>)
      requires socket != null && beatsMissed == 0
      modifies this, socket
      ensures socket == null
      ensures |passes| <= |old(socket.input)| + 6
      ensures beatsMissed == CountMissed(passes) <= 6
      ensures exists made :: calls == old(calls) + made && Recorded(states, passes, made)
      ensures states[0] == old(Now()).(trace := old(socket.trace) + Outs(EncCmd(ACCEPT)))
      ensures tree == states[|passes|].tree
      ensures passes != []
      ensures match passes[|passes| - 1]
              case Missed => beatsMissed == 6
              case Handled(cmd, _) => cmd == STOP
    {
      var _ := WriteCmd(socket, ACCEPT);
      states, passes := [Now()], [];
      ghost var made := [];
      var done := false;
      while !done
        invariant Recorded(states, passes, made) && calls == old(calls) + made
        invariant beatsMissed == CountMissed(passes) <= MAX_MISSED + 1
        invariant !done ==> socket == old(socket) && states[|passes|] == Now() && beatsMissed <= MAX_MISSED
        invariant done ==> socket == null && tree == states[|passes|].tree && passes != [] && Ended(passes, beatsMissed)
        invariant states[0] == old(Now()).(trace := old(socket.trace) + Outs(EncCmd(ACCEPT)))
        invariant |passes| + |states[|passes|].input| <= |old(socket.input)| + beatsMissed
        decreases !done, |states[|passes|].input| + MAX_MISSED + 1 - beatsMissed
      {
        ghost var p, more := Missed, [];
        done, p, more := OnePass();
        ghost var z := Snapshot(old(socket).input, old(socket).trace, tree);
        OnePassMore(states, passes, made, p, z, more);
        CallsJoined(old(calls), made, more);
        states, passes, made := states + [z], passes + [p], made + more;
      }
    }

    // One pass of the command loop.
    method OnePass() returns (done: bool, ghost p: Pass, ghost made: seq<LocalResult>)
      requires socket != null && beatsMissed <= MAX_MISSED
      modifies this, socket
      ensures Passed(old(Now()), p, Snapshot(old(socket).input, old(socket).trace, tree))
      ensures calls == old(calls) + made && PassHappened(p, made)
      ensures beatsMissed == old(beatsMissed) + if p.Missed? then 1 else 0
      ensures socket == if done then null else old(socket)
      ensures done <==> match p case Missed => beatsMissed > MAX_MISSED case Handled(cmd, _) => cmd == STOP
    {
      ghost var s := Now();
      var timeout: bool := *;
      var respVal: int, cmd: U16 := -1, GETATTR;
      if !timeout {
        respVal, cmd := ReadCmd(socket, GETATTR);
      }
      done := false;
      if respVal <= 0 {
        p := Missed;
        assert Now() == s;
        beatsMissed := beatsMissed + 1;
        if beatsMissed > MAX_MISSED {
          socket, done := null, true;
        }
      } else if cmd == STOP {
        p := Handled(STOP, UNEVENTFUL);
        NothingDone(Now());
        socket, done := null, true;
      } else {
        ghost var o := Dispatch(cmd);
        p := Handled(cmd, o);
      }
      made := calls[|old(calls)|..];
    }
  }

  lemma CallsJoined(a: seq<LocalResult>, b: seq<LocalResult>, c: seq<LocalResult>)
    ensures (a + b) + c == a + (b + c)
  {}

  // An unknown command, or STOP.
  lemma NothingDone(s: Snapshot)
    ensures s.trace + [] == s.trace
  {}

  // How the session ended: too many missed beats, or a STOP.
  predicate Ended(passes: seq<Pass>, beatsMissed: nat)
    requires passes != []
  {
    match passes[|passes| - 1]
    case Missed => beatsMissed == MAX_MISSED + 1
    case Handled(cmd, _) => cmd == STOP
  }

  lemma EntryWritten(before: seq<Event>, files: seq<(CStr, Stat)>, i: nat)
    requires i < |files|
    ensures before + Outs(EntriesBytes(files[..i])) + Outs(EncString(files[i].0)) + Outs(EncStat(files[i].1))
            == before + Outs(EntriesBytes(files[..i + 1]))
  {
    assert files[..i + 1][..i] == files[..i];
    OutsJoined(before, EntriesBytes(files[..i]), EncString(files[i].0));
    OutsJoined(before, EntriesBytes(files[..i]) + EncString(files[i].0), EncStat(files[i].1));
    Associate(EntriesBytes(files[..i]), EncString(files[i].0), EncStat(files[i].1));
  }
}
