/**
 * One ServerConnection shared by any number of threads: FUSE callbacks and the heartbeat thread. Each public method
 * holds `monitor_` from its first write to its last read. A world is the state of the threads, the lock, the two byte
 * queues and the server; a step is one move of one thread or of the server.
 */
module Monitor {
  import opened Bytes
  import opened Disk
  import opened Pieces
  import opened Process
  import opened Protocol
  import opened Exchange
  import Rpc

  datatype Thread = Outside | Inside(call: Call, proc: Proc<Reply>)

  // A completed call, in the order of completion, and what chance decided about it.
  datatype Entry = Entry(tid: nat, call: Call, o: Chance, reply: Reply)

  datatype World = World(
    threads: map<nat, Thread>, owner: Option<nat>,
    srv: Proc<ServerEnd>, c2s: Str, s2c: Str, tree: Tree, o: Chance, served: nat,
    log: seq<Entry>)

  // The connection as one thread (or nobody, when p is a finished process) sees it.
  function LinkOf(w: World, p: Proc<Reply>): Link {
    Link(p, w.srv, w.c2s, w.s2c, w.tree, w.o, w.served)
  }

  function WithLink(w: World, l: Link): World {
    w.(srv := l.srv, c2s := l.c2s, s2c := l.s2c, tree := l.tree, o := l.o, served := l.served)
  }

  const IDLE: Proc<Reply> := Ret(Beaten(true))

  // Nothing under way, the server waits for a command, and it has served just the calls that were made.
  ghost predicate Aligned(w: World) {
    w.srv == TOP && w.c2s == [] && w.s2c == [] && w.served == |w.log|
  }

  // After `connect` has succeeded.
  ghost predicate Initial(w: World, t0: Tree) {
    && w.owner == None && (forall t :: t in w.threads ==> w.threads[t].Outside?)
    && w.log == [] && Aligned(w) && w.tree == t0
  }

  // lock_guard: waits until the monitor is free.
  ghost predicate Enter(w: World, w': World, t: nat, c: Call, o: Chance) {
    && t in w.threads && w.threads[t].Outside? && w.owner == None && Admissible(w.tree, c, o)
    && w' == w.(threads := w.threads[t := Inside(c, Stub(c, o))], owner := Some(t), o := o)
  }

  // A thread inside a method does its next write or read; it does not look at the lock again.
  ghost predicate Work(w: World, w': World, t: nat) {
    && t in w.threads && w.threads[t].Inside? && CliEnabled(LinkOf(w, w.threads[t].proc))
    && var l := CliStep(LinkOf(w, w.threads[t].proc));
    w' == WithLink(w, l).(threads := w.threads[t := w.threads[t].(proc := l.cli)])
  }

  ghost predicate Serve(w: World, w': World) {
    SrvEnabled(LinkOf(w, IDLE)) && w' == WithLink(w, SrvStep(LinkOf(w, IDLE)))
  }

  // The method returns and the lock_guard releases the monitor.
  ghost predicate Leave(w: World, w': World, t: nat) {
    && t in w.threads && w.threads[t].Inside? && w.threads[t].proc.Ret?
    && w' == w.(threads := w.threads[t := Outside], owner := None,
                log := w.log + [Entry(t, w.threads[t].call, w.o, w.threads[t].proc.r)])
  }

  ghost predicate Step(w: World, w': World) {
    || (exists t, c, o :: Enter(w, w', t, c, o))
    || (exists t :: Work(w, w', t))
    || Serve(w, w')
    || (exists t :: Leave(w, w', t))
  }

  ghost predicate StepAt(run: seq<World>, i: nat) {
    i + 1 < |run| && Step(run[i], run[i + 1])
  }

  ghost predicate IsRun(run: seq<World>, t0: Tree) {
    && run != [] && Initial(run[0], t0)
    && forall i: nat :: i + 1 < |run| ==> StepAt(run, i)
  }

  /* ---- The specification: a plain local file system, one operation at a time ---- */

  // The tree after performing the logged calls locally, in order.
  function Replay(t0: Tree, log: seq<Entry>): Tree {
    if log == [] then t0
    else LocalTree(Replay(t0, log[..|log| - 1]), log[|log| - 1].call, log[|log| - 1].o)
  }

  // Every reply is the one the local operation gives at its place in that order.
  predicate Faithful(t0: Tree, log: seq<Entry>) {
    log == [] ||
    var init, e := log[..|log| - 1], log[|log| - 1];
    Faithful(t0, init) && e.reply == LocalReply(Replay(t0, init), e.call, e.o)
  }

  // No completed call was disturbed.
  predicate Calm(t0: Tree, log: seq<Entry>) {
    log == [] ||
    var init, e := log[..|log| - 1], log[|log| - 1];
    Calm(t0, init) && Undisturbed(Replay(t0, init), e.call, e.o)
  }

  // A file of the local file system is what it was unless somebody wrote some data to it.
  lemma {:induction false} OnlyWritesChange(t0: Tree, log: seq<Entry>, path: Str)
    requires forall i :: 0 <= i < |log| && log[i].call.WriteFile? && log[i].call.path == path ==> log[i].call.data == []
    ensures Replay(t0, log).Keys == t0.Keys
    ensures path in t0 ==> Replay(t0, log)[path] == t0[path]
  {
    if log != [] {
      OnlyWritesChange(t0, log[..|log| - 1], path);
      var e := log[|log| - 1];
      if e.call.WriteFile? && e.call.path == path {
        PutOfNothing(e.o.pieces);
        WriteNothing(Replay(t0, log[..|log| - 1]), path, Position(e.call.offset));
      }
    }
  }

  /* ---- The invariant ---- */

  ghost predicate MutualExclusion(w: World) {
    forall t :: t in w.threads && w.threads[t].Inside? ==> w.owner == Some(t)
  }

  // Nobody inside.
  ghost predicate Quiet(w: World, t0: Tree) {
    Aligned(w) && w.tree == Replay(t0, w.log)
  }

  // The call in progress is n steps away from the end its local operation prescribes.
  ghost predicate Pending(w: World, t0: Tree, t: nat, n: nat) {
    && t in w.threads && w.threads[t].Inside? && Admissible(Replay(t0, w.log), w.threads[t].call, w.o)
    && Steps(n, LinkOf(w, w.threads[t].proc), Rpc.End(w.threads[t].call, Replay(t0, w.log), w.o, |w.log|))
  }

  // The call in progress has been disturbed, and the server has taken leftovers of it for another command.
  ghost predicate Astray(w: World) {
    w.served > |w.log| + 1
  }

  // What is still to come for thread t: so many steps, if the server does not go astray.
  ghost predicate OnTrack(w: World, t0: Tree, t: nat) {
    && t in w.threads && w.threads[t].Inside?
    && (Undisturbed(Replay(t0, w.log), w.threads[t].call, w.o) ==> !Astray(w))
    && (!Astray(w) ==> exists n: nat :: Pending(w, t0, t, n))
  }

  ghost predicate Inv(w: World, t0: Tree) {
    && Faithful(t0, w.log)
    && MutualExclusion(w)
    && match w.owner
       case None => Quiet(w, t0)
       case Some(t) => OnTrack(w, t0, t)
  }

  lemma EnterKeeps(w: World, w': World, t0: Tree, t: nat, c: Call, o: Chance)
    requires Inv(w, t0) && Enter(w, w', t, c, o)
    ensures Inv(w', t0)
  {
    var tree, k := Replay(t0, w.log), |w.log|;
    Rpc.Exchanged(c, tree, o, k);
    var n: nat :| Steps(n, Rpc.Start(c, tree, o, k), Rpc.End(c, tree, o, k));
    assert Pending(w', t0, t, n);
  }

  // A step of the connection during a call of thread t.
  ghost predicate Moves(w: World, w': World, t: nat) {
    && w.owner == Some(t) == w'.owner && t in w.threads && w.threads[t].Inside?
    && w'.threads.Keys == w.threads.Keys && w'.threads[t].Inside?
    && w'.threads[t].call == w.threads[t].call && w'.o == w.o && w'.log == w.log
    && Next(LinkOf(w, w.threads[t].proc), LinkOf(w', w'.threads[t].proc))
  }

  // It uses up exactly one of the steps left.
  lemma MoveCounts(w: World, w': World, t0: Tree, t: nat, n: nat)
    requires Moves(w, w', t) && Pending(w, t0, t, n)
    requires Undisturbed(Replay(t0, w.log), w.threads[t].call, w.o) || !Astray(w')
    ensures n > 0 && Pending(w', t0, t, n - 1) && !Astray(w')
  {
    var c, tree := w.threads[t].call, Replay(t0, w.log);
    NothingLeftIffUndisturbed(tree, c, w.o);
    AnySchedule(n, LinkOf(w, w.threads[t].proc), LinkOf(w', w'.threads[t].proc), Rpc.End(c, tree, w.o, |w.log|));
  }

  lemma MoveKeeps(w: World, w': World, t0: Tree, t: nat)
    requires Inv(w, t0) && Moves(w, w', t) && MutualExclusion(w')
    ensures Inv(w', t0)
  {
    if !Astray(w) && (Undisturbed(Replay(t0, w.log), w.threads[t].call, w.o) || !Astray(w')) {
      var n: nat :| Pending(w, t0, t, n);
      MoveCounts(w, w', t0, t, n);
    }
  }

  // A step of the thread inside, and of the server, is such a step. While the monitor is free the server has nothing
  // to do, so its steps belong to the call in progress.
  lemma WorkMoves(w: World, w': World, t0: Tree, t: nat)
    requires Inv(w, t0) && Work(w, w', t)
    ensures Moves(w, w', t) && MutualExclusion(w')
  {}

  lemma ServeMoves(w: World, w': World, t0: Tree)
    requires Inv(w, t0) && Serve(w, w')
    ensures w.owner.Some? && Moves(w, w', w.owner.value) && MutualExclusion(w')
  {
    var l := LinkOf(w, w.threads[w.owner.value].proc);
    assert SrvEnabled(l) && SrvStep(l) == SrvStep(LinkOf(w, IDLE)).(cli := l.cli);
  }

  // The monitor is released on an aligned connection if and only if the call was undisturbed; then the reply is the
  // local one.
  lemma LeaveKeeps(w: World, w': World, t0: Tree, t: nat)
    requires Inv(w, t0) && Leave(w, w', t)
    ensures w'.owner == None && (Aligned(w') <==> Undisturbed(Replay(t0, w.log), w.threads[t].call, w.o))
    ensures Aligned(w') ==> Inv(w', t0)
  {
    var c, tree, k := w.threads[t].call, Replay(t0, w.log), |w.log|;
    var l := LinkOf(w, w.threads[t].proc);
    assert w'.log[..k] == w.log;
    if !Astray(w) {
      var n: nat :| Pending(w, t0, t, n);
      Rpc.Settled(c, tree, w.o, k, n, l);
      NothingLeftIffUndisturbed(tree, c, w.o);
    }
  }

  lemma StepKeeps(w: World, w': World, t0: Tree)
    requires Inv(w, t0) && Step(w, w')
    requires w'.owner == None ==> Aligned(w')
    ensures Inv(w', t0)
  {
    if t, c, o :| Enter(w, w', t, c, o) {
      EnterKeeps(w, w', t0, t, c, o);
    } else if t :| Work(w, w', t) {
      WorkMoves(w, w', t0, t);
      MoveKeeps(w, w', t0, t);
    } else if Serve(w, w') {
      ServeMoves(w, w', t0);
      MoveKeeps(w, w', t0, w.owner.value);
    } else {
      var t :| Leave(w, w', t);
      LeaveKeeps(w, w', t0, t);
    }
  }

  // As long as no completed call was disturbed, the invariant holds.
  lemma {:induction false} Reachable(run: seq<World>, t0: Tree, i: nat)
    requires IsRun(run, t0) && i < |run| && Calm(t0, run[i].log)
    ensures Inv(run[i], t0)
  {
    if i > 0 {
      var w, w' := run[i - 1], run[i];
      assert StepAt(run, i - 1);
      LogOf(w, w', t0);
      Reachable(run, t0, i - 1);
      if t :| Leave(w, w', t) {
        LeaveKeeps(w, w', t0, t);
      } else {
        StaysEntered(w, w', t0);
        StepKeeps(w, w', t0);
      }
    }
  }

  // Only leaving adds to the log.
  lemma LogOf(w: World, w': World, t0: Tree)
    requires Step(w, w') && Calm(t0, w'.log)
    ensures Calm(t0, w.log)
    ensures forall t :: Leave(w, w', t) ==> Undisturbed(Replay(t0, w.log), w.threads[t].call, w.o)
  {
    if t :| Leave(w, w', t) {
      assert w'.log[..|w.log|] == w.log;
    }
  }

  lemma StaysEntered(w: World, w': World, t0: Tree)
    requires Inv(w, t0) && Step(w, w') && !(exists t :: Leave(w, w', t))
    ensures w'.owner.Some?
  {
    if Serve(w, w') { ServeMoves(w, w', t0); }
  }

  /* ---- What it means for the users of the connection ---- */

  // In every interleaving of undisturbed calls: while the monitor is free the two ends are aligned, at most one thread
  // is inside, and the completed calls, replies and tree are those of a local file system on which the same calls ran
  // one after the other.
  lemma Linearizable(run: seq<World>, t0: Tree, i: nat)
    requires IsRun(run, t0) && i < |run| && Calm(t0, run[i].log)
    ensures Faithful(t0, run[i].log)
    ensures run[i].owner == None ==> Aligned(run[i]) && run[i].tree == Replay(t0, run[i].log)
    ensures MutualExclusion(run[i])
  {
    Reachable(run, t0, i);
  }

  // And only then: a connection on which the monitor was never free without being aligned is one on which no completed
  // call was disturbed.
  lemma {:induction false} AlignedIffCalm(run: seq<World>, t0: Tree, i: nat)
    requires IsRun(run, t0) && i < |run|
    ensures (forall j: nat :: j <= i && run[j].owner == None ==> Aligned(run[j])) <==> Calm(t0, run[i].log)
  {
    if Calm(t0, run[i].log) {
      forall j: nat | j <= i && run[j].owner == None ensures Aligned(run[j]) {
        CalmBefore(run, t0, j, i);
        Reachable(run, t0, j);
      }
    }
    if i > 0 && (forall j: nat :: j <= i && run[j].owner == None ==> Aligned(run[j])) {
      assert StepAt(run, i - 1);
      AlignedIffCalm(run, t0, i - 1);
      Reachable(run, t0, i - 1);
      StillCalm(run[i - 1], run[i], t0);
    }
  }

  lemma {:induction false} CalmBefore(run: seq<World>, t0: Tree, j: nat, i: nat)
    requires IsRun(run, t0) && j <= i < |run| && Calm(t0, run[i].log)
    ensures Calm(t0, run[j].log)
    decreases i
  {
    if j < i {
      assert StepAt(run, i - 1);
      LogOf(run[i - 1], run[i], t0);
      CalmBefore(run, t0, j, i - 1);
    }
  }

  lemma StillCalm(w: World, w': World, t0: Tree)
    requires Inv(w, t0) && Calm(t0, w.log) && Step(w, w') && (w'.owner == None ==> Aligned(w'))
    ensures Calm(t0, w'.log)
  {
    if t :| Leave(w, w', t) {
      LeaveKeeps(w, w', t0, t);
      assert w'.log[..|w.log|] == w.log;
    }
  }

  // Client and server are never both blocked: a call in progress can move, or the server can, or the call returns.
  // This includes disturbed calls, unless the server has taken leftovers for a command.
  lemma NoMutualWaiting(run: seq<World>, t0: Tree, i: nat, t: nat)
    requires IsRun(run, t0) && i < |run| && run[i].owner == Some(t)
    requires Calm(t0, run[i].log) && !Astray(run[i])
    ensures t in run[i].threads && run[i].threads[t].Inside?
    ensures exists w' :: Work(run[i], w', t) || Serve(run[i], w') || Leave(run[i], w', t)
  {
    Reachable(run, t0, i);
    var w := run[i];
    var n: nat :| Pending(w, t0, t, n);
    var l := LinkOf(w, w.threads[t].proc);
    if n == 0 {
      var w' := w.(threads := w.threads[t := Outside], owner := None,
                   log := w.log + [Entry(t, w.threads[t].call, w.o, w.threads[t].proc.r)]);
      assert Leave(w, w', t);
    } else if CliEnabled(l) {
      var l' := CliStep(l);
      assert Work(w, WithLink(w, l').(threads := w.threads[t := w.threads[t].(proc := l'.cli)]), t);
    } else {
      assert SrvEnabled(LinkOf(w, IDLE));
      assert Serve(w, WithLink(w, SrvStep(LinkOf(w, IDLE))));
    }
  }

  // Thread t is inside its call throughout worlds i to j, and the server has not gone astray.
  ghost predicate Holds(run: seq<World>, i: nat, j: nat, t: nat) {
    i <= j < |run| && forall k :: i <= k <= j ==> run[k].owner == Some(t) && !Astray(run[k])
  }

  // A call in progress ends: from any world, only so many steps can happen before the monitor is released.
  lemma CallEnds(run: seq<World>, t0: Tree, i: nat, t: nat) returns (n: nat)
    requires IsRun(run, t0) && i < |run| && run[i].owner == Some(t)
    requires Calm(t0, run[i].log) && !Astray(run[i])
    ensures forall j: nat :: Holds(run, i, j, t) ==> j <= i + n
  {
    Reachable(run, t0, i);
    n :| Pending(run[i], t0, t, n);
    forall j: nat | Holds(run, i, j, t) ensures j <= i + n {
      CountDown(run, t0, i, j, t, n);
    }
  }

  lemma {:induction false} CountDown(run: seq<World>, t0: Tree, i: nat, j: nat, t: nat, n: nat)
    requires IsRun(run, t0) && Holds(run, i, j, t) && Calm(t0, run[i].log) && Pending(run[i], t0, t, n)
    ensures j <= i + n && Pending(run[j], t0, t, n - (j - i)) && run[j].log == run[i].log
    decreases j
  {
    if j > i {
      assert run[j - 1].owner == Some(t) == run[j].owner && !Astray(run[j]);
      CountDown(run, t0, i, j - 1, t, n);
      NextCounts(run, t0, j - 1, t, n - (j - 1 - i));
    }
  }

  lemma NextCounts(run: seq<World>, t0: Tree, j: nat, t: nat, n: nat)
    requires IsRun(run, t0) && j + 1 < |run| && Calm(t0, run[j].log)
    requires run[j].owner == Some(t) == run[j + 1].owner && !Astray(run[j + 1]) && Pending(run[j], t0, t, n)
    ensures n > 0 && Pending(run[j + 1], t0, t, n - 1) && run[j + 1].log == run[j].log
  {
    Reachable(run, t0, j);
    assert StepAt(run, j);
    OneStepLess(run[j], run[j + 1], t0, t, n);
  }

  lemma OneStepLess(w: World, w': World, t0: Tree, t: nat, n: nat)
    requires Inv(w, t0) && Step(w, w') && w.owner == Some(t) == w'.owner && !Astray(w')
    requires Pending(w, t0, t, n)
    ensures n > 0 && Pending(w', t0, t, n - 1) && w'.log == w.log
  {
    if u :| Work(w, w', u) {
      WorkMoves(w, w', t0, u);
    } else if Serve(w, w') {
      ServeMoves(w, w', t0);
    }
    MoveCounts(w, w', t0, t, n);
  }
}
