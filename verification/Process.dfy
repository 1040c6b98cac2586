/**
 * A sequential program seen from the two ends of its connection: what it sends and receives, in order.
 * The client stubs and the server handlers are described as processes; `Run` is what one of them does alone,
 * on the bytes its peer will have sent.
 */
module Process {
  import opened Bytes
  import opened Disk
  import opened Pieces

  type Chunk = s: Str | s != [] witness [0]

  datatype Proc<R> =
    | Ret(r: R)
    | Send(bs: Chunk, k: Proc<R>)
    // takes n bytes as soon as they are there
    | Recv(n: Positive, kr: Str -> Proc<R>)
    // does something to the local tree
    | Local(act: Tree -> Tree, k: Proc<R>)

  // Reads and writes of zero bytes return at once.
  function SendBytes<R>(bs: Str, k: Proc<R>): Proc<R> {
    if bs == [] then k else Send(bs, k)
  }

  function RecvExactly<R>(n: nat, k: Str -> Proc<R>): Proc<R> {
    if n == 0 then k([]) else Recv(n, k)
  }

  // What crosses one end of a connection, byte by byte and in the order it happens.
  // A fault is a write to the connection that failed; no program described here has one.
  datatype Event = Out(b: Byte) | In(b: Byte) | Fault

  function Outs(bs: Str): (es: seq<Event>)
    ensures |es| == |bs|
  {
    seq(|bs|, i requires 0 <= i < |bs| => Out(bs[i]))
  }

  function Ins(bs: Str): (es: seq<Event>)
    ensures |es| == |bs|
  {
    seq(|bs|, i requires 0 <= i < |bs| => In(bs[i]))
  }

  // result, trace, unread input and final tree of a completed run
  datatype Outcome<R> = Outcome(r: R, trace: seq<Event>, rest: Str, tree: Tree)

  // None: the input ended before the program did.
  function Run<R>(p: Proc<R>, input: Str, t: Tree): (o: Option<Outcome<R>>)
    ensures o.Some? ==> |o.value.rest| <= |input|
    decreases |input|, p
  {
    match p
    case Ret(r) => Some(Outcome(r, [], input, t))
    case Send(bs, k) => Preceded(Outs(bs), Run(k, input, t))
    case Recv(n, kr) =>
      if |input| < n then None
      else Preceded(Ins(input[..n]), Run(kr(input[..n]), input[n..], t))
    case Local(act, k) => Run(k, input, act(t))
  }

  // The same with these events before it.
  function Preceded<R>(es: seq<Event>, o: Option<Outcome<R>>): (r: Option<Outcome<R>>)
    ensures r.Some? <==> o.Some?
    ensures o.Some? ==> r.value == o.value.(trace := es + o.value.trace)
  {
    match o
    case None => None
    case Some(out) => Some(out.(trace := es + out.trace))
  }

  lemma Unpreceded<R>(o: Option<Outcome<R>>)
    ensures Preceded([], o) == o
  {
    if o.Some? {
      assert [] + o.value.trace == o.value.trace;
    }
  }

  lemma PrecededTwice<R>(a: seq<Event>, b: seq<Event>, o: Option<Outcome<R>>)
    ensures Preceded(a + b, o) == Preceded(a, Preceded(b, o))
  {
    if o.Some? {
      assert (a + b) + o.value.trace == a + (b + o.value.trace);
    }
  }

  lemma OutsAppend(a: Str, b: Str)
    ensures Outs(a + b) == Outs(a) + Outs(b)
  {}

  lemma InsAppend(a: Str, b: Str)
    ensures Ins(a + b) == Ins(a) + Ins(b)
  {}

  /* ---- Following a program through its run ---- */

  // The observable state of a program at one end: unread input, what has crossed the connection, the local tree.
  datatype Snapshot = Snapshot(input: Str, trace: seq<Event>, tree: Tree)

  // A program described by p goes from snapshot s to z and ends with r. When its input ends too early it has read all
  // of it and left the tree alone.
  ghost predicate Does<R>(p: Proc<R>, s: Snapshot, r: R, z: Snapshot) {
    match Run(p, s.input, s.tree)
    case Some(o) => r == o.r && z == Snapshot(o.rest, s.trace + o.trace, o.tree)
    case None => BrokenOff(s, z)
  }

  predicate BrokenOff(s: Snapshot, z: Snapshot) {
    z.input == [] && z.tree == s.tree
  }

  function Consume(s: Snapshot, n: nat): Snapshot
    requires n <= |s.input|
  {
    s.(input := s.input[n..], trace := s.trace + Ins(s.input[..n]))
  }

  lemma ConsumeTwice(s: Snapshot, m: nat, n: nat)
    requires m + n <= |s.input|
    ensures Consume(Consume(s, m), n) == Consume(s, m + n)
    ensures s.input[m..][..n] == s.input[m..m + n]
  {}

  lemma Sent<R>(bs: Str, k: Proc<R>, s: Snapshot, r: R, z: Snapshot)
    requires Does(k, s.(trace := s.trace + Outs(bs)), r, z)
    ensures Does(SendBytes(bs, k), s, r, z)
  {}

  lemma Got<R>(n: Positive, kr: Str -> Proc<R>, s: Snapshot, r: R, z: Snapshot)
    requires n <= |s.input| ==> Does(kr(s.input[..n]), Consume(s, n), r, z)
    requires n > |s.input| ==> BrokenOff(s, z)
    ensures Does(Recv(n, kr), s, r, z)
  {}

  // The same, forwards: how a run goes on from here.
  function Finish<R>(p: Proc<R>, s: Snapshot): Option<(R, Snapshot)> {
    match Run(p, s.input, s.tree)
    case Some(o) => Some((o.r, Snapshot(o.rest, s.trace + o.trace, o.tree)))
    case None => None
  }

  lemma FinishRet<R>(r: R, s: Snapshot)
    ensures Finish(Ret(r), s) == Some((r, s))
  {
    assert s.trace + [] == s.trace;
  }

  lemma FinishRecv<R>(n: Positive, kr: Str -> Proc<R>, s: Snapshot)
    ensures Finish(Recv(n, kr), s) == if n <= |s.input| then Finish(kr(s.input[..n]), Consume(s, n)) else None
  {
    if n <= |s.input| {
      var run := Run(kr(s.input[..n]), s.input[n..], s.tree);
      if run.Some? {
        assert s.trace + Ins(s.input[..n]) + run.value.trace == s.trace + (Ins(s.input[..n]) + run.value.trace);
      }
    }
  }

  lemma FinishSend<R>(bs: Chunk, k: Proc<R>, s: Snapshot)
    ensures Finish(Send(bs, k), s) == Finish(k, s.(trace := s.trace + Outs(bs)))
  {
    var run := Run(k, s.input, s.tree);
    if run.Some? {
      assert s.trace + Outs(bs) + run.value.trace == s.trace + (Outs(bs) + run.value.trace);
    }
  }

  lemma FinishIsDone<R>(p: Proc<R>, s: Snapshot, r: R, z: Snapshot)
    requires Finish(p, s).Some?
    ensures Does(p, s, r, z) <==> Finish(p, s) == Some((r, z))
  {}

  /* ---- What a trace sends ---- */

  // The bytes a trace sends.
  function SentBytes(es: seq<Event>): Str {
    if es == [] then []
    else SentBytes(es[..|es| - 1]) + (match es[|es| - 1] case Out(b) => [b] case _ => [])
  }

  lemma {:induction false} SentBytesAppend(a: seq<Event>, b: seq<Event>)
    ensures SentBytes(a + b) == SentBytes(a) + SentBytes(b)
  {
    if b == [] {
      assert a + b == a;
    } else {
      var n := |b| - 1;
      assert (a + b)[..|a + b| - 1] == a + b[..n] && (a + b)[|a + b| - 1] == b[n];
      SentBytesAppend(a, b[..n]);
      Associate(SentBytes(a), SentBytes(b[..n]), match b[n] case Out(x) => [x] case _ => []);
    }
  }

  lemma {:induction false} SentOuts(bs: Str)
    ensures SentBytes(Outs(bs)) == bs
  {
    if bs != [] {
      var n := |bs| - 1;
      assert Outs(bs)[..n] == Outs(bs[..n]);
      SentOuts(bs[..n]);
      assert bs[..n] + [bs[n]] == bs;
    }
  }

  lemma {:induction false} SentIns(bs: Str)
    ensures SentBytes(Ins(bs)) == []
  {
    if bs != [] {
      var n := |bs| - 1;
      assert Ins(bs)[..n] == Ins(bs[..n]);
      SentIns(bs[..n]);
    }
  }

  lemma SentFirst(bs: Str, es: seq<Event>)
    ensures SentBytes(Outs(bs) + es) == bs + SentBytes(es)
  {
    SentBytesAppend(Outs(bs), es);
    SentOuts(bs);
  }

  lemma NoneSent(bs: Str, es: seq<Event>)
    ensures SentBytes(Ins(bs) + es) == SentBytes(es)
  {
    SentBytesAppend(Ins(bs), es);
    SentIns(bs);
  }
}
