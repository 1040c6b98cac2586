/**
 * Client and server at work on one connection: two processes and two FIFO byte queues. Either side may move whenever
 * it can, one byte or one blocking read at a time, so a run of the system is any interleaving with any chunking of
 * what is sent. The scheduling does not matter: that is `AnySchedule`.
 */
module Exchange {
  import opened Bytes
  import opened Disk
  import opened Pieces
  import opened Process
  import opened Protocol

  // `served` counts the commands the server has taken up, `o` is what chance decides about them.
  datatype Link = Link(cli: Proc<Reply>, srv: Proc<ServerEnd>, c2s: Str, s2c: Str, tree: Tree, o: Chance, served: nat)

  /* ---- One step of one side ---- */

  predicate CliEnabled(l: Link) {
    match l.cli
    case Ret(_) => false
    case Send(_, _) => true
    case Recv(n, _) => n <= |l.s2c|
    case Local(_, _) => false  // clients serve no files
  }

  function CliStep(l: Link): Link
    requires CliEnabled(l)
  {
    match l.cli
    case Send(bs, k) =>
      l.(cli := SendBytes(bs[1..], k), c2s := l.c2s + [bs[0]])
    case Recv(n, kr) => l.(cli := kr(l.s2c[..n]), s2c := l.s2c[n..])
  }

  // At the top of its loop the server waits for the two bytes of a command.
  predicate SrvEnabled(l: Link) {
    match l.srv
    case Ret(r) => r.AtTop? && 2 <= |l.c2s|
    case Send(_, _) => true
    case Recv(n, _) => n <= |l.c2s|
    case Local(_, _) => true
  }

  function SrvStep(l: Link): Link
    requires SrvEnabled(l)
  {
    match l.srv
    case Ret(_) =>
      l.(srv := Handler(Wire.DecCmd(l.c2s[..2]), l.tree, l.o), c2s := l.c2s[2..], served := l.served + 1)
    case Send(bs, k) =>
      l.(srv := SendBytes(bs[1..], k), s2c := l.s2c + [bs[0]])
    case Recv(n, kr) => l.(srv := kr(l.c2s[..n]), c2s := l.c2s[n..])
    case Local(act, k) => l.(srv := k, tree := act(l.tree))
  }

  predicate Halted(l: Link) {
    !CliEnabled(l) && !SrvEnabled(l)
  }

  // Whatever the server does next, it does not finish a handler other than by sending the last byte of an answer.
  predicate Answering(l: Link) {
    SrvEnabled(l) && (SrvStep(l).srv.Ret? ==> l.srv.Send?)
  }

  // The system can go from a to b in exactly n steps, under some schedule in which every handler ends by answering.
  ghost predicate Steps(n: nat, a: Link, b: Link)
    decreases n
  {
    if n == 0 then a == b
    else
      || (CliEnabled(a) && Steps(n - 1, CliStep(a), b))
      || (Answering(a) && Steps(n - 1, SrvStep(a), b))
  }

  ghost predicate Reaches(a: Link, b: Link) {
    exists n: nat :: Steps(n, a, b)
  }

  // b is a successor of a.
  ghost predicate Next(a: Link, b: Link) {
    || (CliEnabled(a) && b == CliStep(a))
    || (SrvEnabled(a) && b == SrvStep(a))
  }

  lemma {:induction false} StepsCompose(m: nat, n: nat, a: Link, b: Link, c: Link)
    requires Steps(m, a, b) && Steps(n, b, c)
    ensures Steps(m + n, a, c)
    decreases m
  {
    if m > 0 {
      if CliEnabled(a) && Steps(m - 1, CliStep(a), b) {
        StepsCompose(m - 1, n, CliStep(a), b, c);
      } else {
        StepsCompose(m - 1, n, SrvStep(a), b, c);
      }
    }
  }

  lemma Compose(a: Link, b: Link, c: Link)
    requires Reaches(a, b) && Reaches(b, c)
    ensures Reaches(a, c)
  {
    var m: nat :| Steps(m, a, b);
    var n: nat :| Steps(n, b, c);
    StepsCompose(m, n, a, b, c);
  }

  /* ---- Scheduling does not matter ---- */

  lemma TakeFromFront(q: Str, more: Str, n: nat)
    requires n <= |q|
    ensures (q + more)[..n] == q[..n] && (q + more)[n..] == q[n..] + more
  {}

  // Steps of the two sides commute: each only removes from the front of the queue the other appends to.
  lemma Diamond(l: Link)
    requires CliEnabled(l) && SrvEnabled(l)
    ensures SrvEnabled(CliStep(l)) && CliEnabled(SrvStep(l))
    ensures SrvStep(CliStep(l)) == CliStep(SrvStep(l))
    ensures Answering(CliStep(l)) == Answering(l)
  {
    var c, s := CliStep(l), SrvStep(l);
    if l.cli.Send? {
      var b := [l.cli.bs[0]];
      match l.srv {
        case Ret(_) => TakeFromFront(l.c2s, b, 2);
        case Send(_, _) =>
        case Recv(n, _) => TakeFromFront(l.c2s, b, n);
        case Local(_, _) =>
      }
    }
    if l.cli.Recv? && l.srv.Send? {
      TakeFromFront(l.s2c, [l.srv.bs[0]], l.cli.n);
    }
  }

  // Nothing happens after b but perhaps another command.
  predicate Final(b: Link) {
    !CliEnabled(b) && (SrvEnabled(b) ==> b.srv.Ret?)
  }

  // If some schedule ends in n steps, then every first step leaves exactly n - 1 to the same end, unless it takes up
  // more commands: no schedule gets stuck earlier, runs longer, or ends anywhere else.
  lemma {:induction false} AnySchedule(n: nat, a: Link, a': Link, end: Link)
    requires Steps(n, a, end) && Final(end)
    requires Next(a, a') && (SrvEnabled(end) ==> a'.served <= end.served)
    ensures n > 0 && Steps(n - 1, a', end) && a'.served <= end.served
    decreases n
  {
    if n == 0 {
      assert false;
    } else {
      if CliEnabled(a) && SrvEnabled(a) {
        Diamond(a);
        var c, s, z := CliStep(a), SrvStep(a), SrvStep(CliStep(a));
        assert Next(c, z) && Next(s, z);
        if a' == c && Answering(a) && Steps(n - 1, s, end) {
          ServedGrows(n - 1, s, end);
          AnySchedule(n - 1, s, z, end);
        } else if a' == s && Steps(n - 1, c, end) {
          AnySchedule(n - 1, c, z, end);
        }
      }
      ServedGrows(n - 1, a', end);
    }
  }

  lemma {:induction false} ServedGrows(n: nat, a: Link, b: Link)
    requires Steps(n, a, b)
    ensures a.served <= b.served
    decreases n
  {
    if n > 0 {
      if CliEnabled(a) && Steps(n - 1, CliStep(a), b) {
        ServedGrows(n - 1, CliStep(a), b);
      } else {
        ServedGrows(n - 1, SrvStep(a), b);
      }
    }
  }

  ghost predicate IsRun(run: seq<Link>) {
    run != [] && forall i :: 0 <= i < |run| - 1 ==> Next(run[i], run[i + 1])
  }

  lemma {:induction false} RunServes(run: seq<Link>)
    requires IsRun(run)
    ensures run[0].served <= run[|run| - 1].served
    decreases |run|
  {
    if |run| > 1 {
      RunServes(run[1..]);
    }
  }

  // The same over whole runs: after i steps of any schedule, n - i steps remain, so none is longer than n.
  lemma {:induction false} AnyRun(n: nat, run: seq<Link>, end: Link)
    requires IsRun(run) && Steps(n, run[0], end) && Final(end)
    requires SrvEnabled(end) ==> run[|run| - 1].served <= end.served
    ensures |run| <= n + 1 && Steps(n + 1 - |run|, run[|run| - 1], end)
    ensures run[|run| - 1].served <= end.served
    decreases |run|
  {
    if |run| > 1 {
      RunServes(run[1..]);
      AnySchedule(n, run[0], run[1], end);
      AnyRun(n - 1, run[1..], end);
    } else {
      ServedGrows(n, run[0], end);
    }
  }

  // A run that cannot be extended has reached the one end.
  lemma MaximalRun(n: nat, run: seq<Link>, end: Link)
    requires IsRun(run) && Steps(n, run[0], end) && Final(end)
    requires SrvEnabled(end) ==> run[|run| - 1].served <= end.served
    requires Halted(run[|run| - 1])
    ensures run[|run| - 1] == end && |run| == n + 1
  {
    AnyRun(n, run, end);
  }

  // A client that is done has been answered in full, so the server is done too: nothing happens behind its back.
  lemma {:induction false} DoneTogether(n: nat, a: Link, end: Link)
    requires Steps(n, a, end) && a.cli.Ret? && end.srv.Ret? && end.s2c == []
    ensures n == 0 && a == end
  {
    if n > 0 {
      OnlyServerLeft(n, a, end);
    }
  }

  lemma {:induction false} OnlyServerLeft(n: nat, a: Link, end: Link)
    requires n > 0 && Steps(n, a, end) && a.cli.Ret? && end.srv.Ret?
    ensures |end.s2c| > |a.s2c|
    decreases n
  {
    if n > 1 {
      OnlyServerLeft(n - 1, SrvStep(a), end);
    }
  }

  // A reply is final.
  lemma {:induction false} ReplyStays(n: nat, a: Link, b: Link)
    requires Steps(n, a, b) && a.cli.Ret?
    ensures b.cli == a.cli
    decreases n
  {
    if n > 0 {
      ReplyStays(n - 1, SrvStep(a), b);
    }
  }

  /* ---- Macro steps used to follow one convenient schedule ---- */

  lemma {:induction false} CliSends(l: Link)
    requires l.cli.Send?
    ensures Reaches(l, l.(cli := l.cli.k, c2s := l.c2s + l.cli.bs))
    decreases |l.cli.bs|
  {
    var bs := l.cli.bs;
    var l' := CliStep(l);
    assert Steps(1, l, l') by { assert Steps(0, l', l'); }
    if |bs| == 1 {
      assert bs == [bs[0]];
    } else {
      CliSends(l');
      Associate(l.c2s, [bs[0]], bs[1..]);
      assert [bs[0]] + bs[1..] == bs;
      Compose(l, l', l.(cli := l.cli.k, c2s := l.c2s + bs));
    }
  }

  lemma {:induction false} SrvSends(l: Link)
    requires l.srv.Send?
    ensures Reaches(l, l.(srv := l.srv.k, s2c := l.s2c + l.srv.bs))
    decreases |l.srv.bs|
  {
    var bs := l.srv.bs;
    var l' := SrvStep(l);
    assert Steps(1, l, l') by { assert Steps(0, l', l'); }
    if |bs| == 1 {
      assert bs == [bs[0]];
    } else {
      SrvSends(l');
      Associate(l.s2c, [bs[0]], bs[1..]);
      assert [bs[0]] + bs[1..] == bs;
      Compose(l, l', l.(srv := l.srv.k, s2c := l.s2c + bs));
    }
  }

  lemma CliReceives(l: Link, x: Str, rest: Str)
    requires l.cli.Recv? && |x| == l.cli.n && l.s2c == x + rest
    ensures Reaches(l, l.(cli := l.cli.kr(x), s2c := rest))
  {
    Front(x, rest);
    assert Steps(1, l, CliStep(l)) by { assert Steps(0, CliStep(l), CliStep(l)); }
  }

  lemma SrvReceives(l: Link, x: Str, rest: Str)
    requires l.srv.Recv? && |x| == l.srv.n && l.c2s == x + rest
    requires !l.srv.kr(x).Ret?
    ensures Reaches(l, l.(srv := l.srv.kr(x), c2s := rest))
  {
    Front(x, rest);
    assert Steps(1, l, SrvStep(l)) by { assert Steps(0, SrvStep(l), SrvStep(l)); }
  }

  lemma SrvDispatches(l: Link, c: U16, rest: Str)
    requires l.srv == TOP && l.c2s == Wire.EncCmd(c) + rest
    requires !Handler(c, l.tree, l.o).Ret?
    ensures Reaches(l, l.(srv := Handler(c, l.tree, l.o), c2s := rest, served := l.served + 1))
  {
    Front(Wire.EncCmd(c), rest);
    Wire.CmdInverse(c);
    assert Steps(1, l, SrvStep(l)) by { assert Steps(0, SrvStep(l), SrvStep(l)); }
  }

  lemma SrvActs(l: Link)
    requires l.srv.Local? && !l.srv.k.Ret?
    ensures Reaches(l, l.(srv := l.srv.k, tree := l.srv.act(l.tree)))
  {
    assert Steps(1, l, SrvStep(l)) by { assert Steps(0, SrvStep(l), SrvStep(l)); }
  }

  // The last thing the program does on this input is to send.
  predicate Answers(p: Proc<ServerEnd>, input: Str, t: Tree)
    decreases |input|, p
  {
    match p
    case Ret(_) => true
    case Send(_, k) => Answers(k, input, t)
    case Recv(n, kr) => n <= |input| && !kr(input[..n]).Ret? && Answers(kr(input[..n]), input[n..], t)
    case Local(act, k) => !k.Ret? && Answers(k, input, act(t))
  }

  // The server may go on alone to the end of its handler when all the bytes it needs are there.
  lemma {:induction false} SrvRuns(l: Link)
    requires Answers(l.srv, l.c2s, l.tree) && Run(l.srv, l.c2s, l.tree).Some?
    ensures var o := Run(l.srv, l.c2s, l.tree).value;
            Reaches(l, l.(srv := Ret(o.r), c2s := o.rest, s2c := l.s2c + SentBytes(o.trace), tree := o.tree))
    decreases |l.c2s|, l.srv
  {
    var o := Run(l.srv, l.c2s, l.tree).value;
    var end := l.(srv := Ret(o.r), c2s := o.rest, s2c := l.s2c + SentBytes(o.trace), tree := o.tree);
    match l.srv
    case Ret(r) =>
      assert l.s2c + [] == l.s2c;
      assert Steps(0, l, end);
    case Send(bs, k) =>
      SrvSends(l);
      var l' := l.(srv := k, s2c := l.s2c + bs);
      SrvRuns(l');
      SentFirst(bs, Run(k, l.c2s, l.tree).value.trace);
      Associate(l.s2c, bs, SentBytes(Run(k, l.c2s, l.tree).value.trace));
      Compose(l, l', end);
    case Recv(n, kr) =>
      var x, rest := l.c2s[..n], l.c2s[n..];
      assert l.c2s == x + rest;
      SrvReceives(l, x, rest);
      SrvRuns(l.(srv := kr(x), c2s := rest));
      NoneSent(x, Run(kr(x), rest, l.tree).value.trace);
      Compose(l, l.(srv := kr(x), c2s := rest), end);
    case Local(act, k) =>
      SrvActs(l);
      SrvRuns(l.(srv := k, tree := act(l.tree)));
      Compose(l, l.(srv := k, tree := act(l.tree)), end);
  }

  // The transfer loop answers once it has its pieces.
  lemma {:induction false} TransferAnswers(path: Str, pos: nat, want: nat, written: nat, last: nat, ps: seq<Piece>,
                                           input: Str, t: Tree)
    requires Possible(ps, want, pos) && Taken(ps) <= |input|
    ensures Answers(Transfer(path, pos, want, written, last, ps), input, t)
    decreases |ps|
  {
    if want > 0 && ps[0].Wrote? {
      var Wrote(read, n) := ps[0];
      assert input[..read][..n] == input[..n];
      TransferAnswers(path, pos + n, want - read, written + n, n, ps[1..], input[read..],
                      WriteAt(t, path, pos, input[..n]));
    }
  }
}
