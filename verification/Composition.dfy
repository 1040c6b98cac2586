/**
 * The two views of a program agree. Interleaved step by step on one connection (module Exchange), client and server
 * consume and produce exactly what each does when run alone on the bytes the other sends (`Run`, which the methods of
 * ServerConnection and ClientConnection are proved to follow). So the contracts of the methods fit together.
 */
module Composition {
  import opened Bytes
  import opened Wire
  import opened Disk
  import opened Pieces
  import opened Process
  import opened Protocol
  import opened Exchange
  import Rpc

  /* ---- A program alone ---- */

  // Run alone on `input`, the program ends with r and leaves `rest`, having sent `sent`.
  ghost predicate Yields<R>(p: Proc<R>, input: Str, r: R, rest: Str, sent: Str) {
    var o := Run(p, input, map[]);
    o.Some? && o.value.r == r && o.value.rest == rest && SentBytes(o.value.trace) == sent
  }

  // The command loop alone: finish the handler, then serve k commands.
  function Loop(p: Proc<ServerEnd>, input: Str, t: Tree, o: Chance, k: nat): Option<Outcome<ServerEnd>>
    decreases k, 1
  {
    match Run(p, input, t)
    case None => None
    case Some(x) => LoopFrom(x, o, k)
  }

  // At the top of the loop.
  function LoopFrom(x: Outcome<ServerEnd>, o: Chance, k: nat): Option<Outcome<ServerEnd>>
    decreases k, 0
  {
    if k == 0 then Some(x)
    else if x.r == Closed || |x.rest| < 2 then None
    else
      Preceded(x.trace + Ins(x.rest[..2]), Loop(Handler(DecCmd(x.rest[..2]), x.tree, o), x.rest[2..], x.tree, o, k - 1))
  }

  ghost predicate Serves(p: Proc<ServerEnd>, input: Str, t: Tree, o: Chance, k: nat, rest: Str, sent: Str, t': Tree) {
    var x := Loop(p, input, t, o, k);
    x.Some? && x.value.r == AtTop && x.value.rest == rest && SentBytes(x.value.trace) == sent && x.value.tree == t'
  }

  /* ---- One step less alone, one step in the interleaving ---- */

  lemma ClientSends(bs: Chunk, k: Proc<Reply>, input: Str, r: Reply, rest: Str, sent: Str)
    requires Yields(SendBytes(bs[1..], k), input, r, rest, sent)
    ensures Yields(Send(bs, k), input, r, rest, [bs[0]] + sent)
  {
    var es := Run(k, input, map[]).value.trace;
    assert bs == [bs[0]] + bs[1..];
    SentFirst(bs, es);
    SentFirst(bs[1..], es);
    Associate([bs[0]], bs[1..], SentBytes(es));
    if bs[1..] == [] { assert Outs(bs[1..]) + es == es; }
  }

  lemma ClientReceives(n: Positive, kr: Str -> Proc<Reply>, q: Str, more: Str, r: Reply, rest: Str, sent: Str)
    requires n <= |q| && Yields(kr(q[..n]), q[n..] + more, r, rest, sent)
    ensures Yields(Recv(n, kr), q + more, r, rest, sent)
  {
    TakeFromFront(q, more, n);
    NoneSent(q[..n], Run(kr(q[..n]), q[n..] + more, map[]).value.trace);
  }

  // What the client has still to receive and send when it takes one step of the interleaving.
  lemma ClientSteps(a: Link, down: Str, r: Reply, rest: Str, sent: Str)
    requires CliEnabled(a) && Yields(CliStep(a).cli, CliStep(a).s2c + down, r, rest, sent)
    ensures Yields(a.cli, a.s2c + down, r, rest, if a.cli.Send? then [a.cli.bs[0]] + sent else sent)
  {
    match a.cli
    case Send(bs, k) => ClientSends(bs, k, a.s2c + down, r, rest, sent);
    case Recv(n, kr) => ClientReceives(n, kr, a.s2c, down, r, rest, sent);
  }

  // Putting events before a handler puts them before the whole loop.
  lemma Prefixed(p: Proc<ServerEnd>, input: Str, t: Tree, p': Proc<ServerEnd>, input': Str, t': Tree,
                 o: Chance, k: nat, es: seq<Event>)
    requires Run(p, input, t) == Preceded(es, Run(p', input', t'))
    ensures Loop(p, input, t, o, k) == Preceded(es, Loop(p', input', t', o, k))
  {
    var x := Run(p', input', t');
    if x.Some? {
      PrefixedFrom(x.value, o, k, es);
    }
  }

  lemma PrefixedFrom(x: Outcome<ServerEnd>, o: Chance, k: nat, es: seq<Event>)
    ensures LoopFrom(x.(trace := es + x.trace), o, k) == Preceded(es, LoopFrom(x, o, k))
  {
    if k > 0 && x.r == AtTop && 2 <= |x.rest| {
      var cs := Ins(x.rest[..2]);
      assert (es + x.trace) + cs == es + (x.trace + cs);
      PrecededTwice(es, x.trace + cs, Loop(Handler(DecCmd(x.rest[..2]), x.tree, o), x.rest[2..], x.tree, o, k - 1));
    }
  }

  // What the server has still to receive and send when it takes one step of the interleaving.
  lemma ServerSteps(a: Link, up: Str, k: nat, rest: Str, sent: Str, t': Tree)
    requires SrvEnabled(a) && k + SrvStep(a).served - a.served >= 0
    requires var l := SrvStep(a); Serves(l.srv, l.c2s + up, l.tree, a.o, k, rest, sent, t')
    ensures Serves(a.srv, a.c2s + up, a.tree, a.o, k + SrvStep(a).served - a.served, rest,
                   if a.srv.Send? then [a.srv.bs[0]] + sent else sent, t')
  {
    var l := SrvStep(a);
    var x := Loop(l.srv, l.c2s + up, l.tree, a.o, k);
    match a.srv
    case Ret(_) =>
      TakeFromFront(a.c2s, up, 2);
      assert [] + Ins(a.c2s[..2]) == Ins(a.c2s[..2]);
      NoneSent(a.c2s[..2], x.value.trace);
    case Recv(n, kr) =>
      TakeFromFront(a.c2s, up, n);
      Prefixed(a.srv, a.c2s + up, a.tree, l.srv, l.c2s + up, l.tree, a.o, k, Ins(a.c2s[..n]));
      NoneSent(a.c2s[..n], x.value.trace);
    case Send(bs, p) =>
      ServerSends(bs, p, a.c2s + up, a.tree, a.o, k, rest, sent, t');
    case Local(act, p) =>
      Unpreceded(Run(p, a.c2s + up, act(a.tree)));
      Prefixed(a.srv, a.c2s + up, a.tree, p, a.c2s + up, act(a.tree), a.o, k, []);
      Unpreceded(x);
  }

  lemma ServerSends(bs: Chunk, p: Proc<ServerEnd>, input: Str, t: Tree, o: Chance, k: nat,
                    rest: Str, sent: Str, t': Tree)
    requires Serves(SendBytes(bs[1..], p), input, t, o, k, rest, sent, t')
    ensures Serves(Send(bs, p), input, t, o, k, rest, [bs[0]] + sent, t')
  {
    var tail := SendBytes(bs[1..], p);
    SendByByte(bs, p, input, t);
    Prefixed(Send(bs, p), input, t, tail, input, t, o, k, Outs([bs[0]]));
    var es := Loop(tail, input, t, o, k).value.trace;
    SentFirst([bs[0]], es);
  }

  // Sending a byte and then the others is sending them all.
  lemma SendByByte(bs: Chunk, k: Proc<ServerEnd>, input: Str, t: Tree)
    ensures Run(Send(bs, k), input, t) == Preceded(Outs([bs[0]]), Run(SendBytes(bs[1..], k), input, t))
  {
    var o := Run(k, input, t);
    assert bs == [bs[0]] + bs[1..];
    OutsAppend([bs[0]], bs[1..]);
    if o.Some? {
      assert Outs(bs) + o.value.trace == Outs([bs[0]]) + (Outs(bs[1..]) + o.value.trace);
      if bs[1..] == [] { assert Outs(bs[1..]) + o.value.trace == o.value.trace; }
    }
  }

  // What remains of a run that leads from a to end: each side alone does it, `up` goes to the server and `down` comes
  // back.
  ghost predicate Remains(a: Link, end: Link, up: Str, down: Str)
    requires end.cli.Ret?
  {
    && a.served <= end.served && a.o == end.o
    && Yields(a.cli, a.s2c + down, end.cli.r, end.s2c, up)
    && Serves(a.srv, a.c2s + up, a.tree, a.o, end.served - a.served, end.c2s, down, end.tree)
  }

  lemma BeforeClientStep(a: Link, end: Link, up: Str, down: Str)
    requires end.cli.Ret? && CliEnabled(a) && Remains(CliStep(a), end, up, down)
    ensures Remains(a, end, if a.cli.Send? then [a.cli.bs[0]] + up else up, down)
  {
    ClientSteps(a, down, end.cli.r, end.s2c, up);
    if a.cli.Send? {
      Associate(a.c2s, [a.cli.bs[0]], up);
    }
  }

  lemma BeforeServerStep(a: Link, end: Link, up: Str, down: Str)
    requires end.cli.Ret? && SrvEnabled(a) && Remains(SrvStep(a), end, up, down)
    ensures Remains(a, end, up, if a.srv.Send? then [a.srv.bs[0]] + down else down)
  {
    ServerSteps(a, up, end.served - SrvStep(a).served, end.c2s, down, end.tree);
    if a.srv.Send? {
      Associate(a.s2c, [a.srv.bs[0]], down);
    }
  }

  // From any point of a run to its end.
  lemma {:induction false} EachAlone(n: nat, a: Link, end: Link) returns (up: Str, down: Str)
    requires Steps(n, a, end) && end.cli.Ret? && end.srv == TOP
    ensures Remains(a, end, up, down)
    decreases n
  {
    if n == 0 {
      up, down := [], [];
      assert a.s2c + down == a.s2c && a.c2s + up == a.c2s;
    } else if CliEnabled(a) && Steps(n - 1, CliStep(a), end) {
      up, down := EachAlone(n - 1, CliStep(a), end);
      BeforeClientStep(a, end, up, down);
      up := if a.cli.Send? then [a.cli.bs[0]] + up else up;
    } else {
      up, down := EachAlone(n - 1, SrvStep(a), end);
      BeforeServerStep(a, end, up, down);
      down := if a.srv.Send? then [a.srv.bs[0]] + down else down;
    }
  }

  // For every call there are two byte strings such that a client method that follows its stub on `down` returns the
  // local reply and sends `up`, and a server loop that serves one command on `up` sends `down` and leaves the local
  // tree; an undisturbed call leaves no byte unread.
  lemma CallFits(c: Call, t: Tree, o: Chance) returns (up: Str, down: Str)
    requires Admissible(t, c, o)
    ensures Yields(Stub(c, o), down, LocalReply(t, c, o), LeftDown(t, c, o), up)
    ensures Serves(TOP, up, t, o, 1, LeftUp(t, c, o), down, LocalTree(t, c, o))
  {
    Rpc.Exchanged(c, t, o, 0);
    var n: nat :| Steps(n, Rpc.Start(c, t, o, 0), Rpc.End(c, t, o, 0));
    up, down := EachAlone(n, Rpc.Start(c, t, o, 0), Rpc.End(c, t, o, 0));
    assert [] + down == down && [] + up == up;
  }
}
