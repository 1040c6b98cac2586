/**
 * Session set-up: `ServerConnection::connect` against the constructor of `ClientConnection` and the first line of
 * `processCommands`.
 */
module Handshake {
  import opened Bytes
  import opened Wire
  import opened Disk
  import opened Process
  import opened Protocol
  import opened Exchange
  import opened AgfsIo
  import opened Keys
  import opened Rpc
  import Monitor
  import Server

  // The state of the server's machine that decides: the key list, the users, and the trees below existing mounts.
  datatype Host = Host(authkeys: Str, users: set<Str>, mounts: map<Str, Tree>)

  // Key first, then user, then mount.
  function Verdict(host: Host, key: Str): U16 {
    match Scan(Stream(host.authkeys, false, false), KeyEntry([], [], []), key)
    case None => INVALID_KEY
    case Some(e) =>
      if e.user !in host.users then USER_NOT_FOUND
      else if e.mount !in host.mounts then MOUNT_NOT_FOUND
      else ACCEPT
  }

  // Over a printed key list: 4 (INVALID_KEY) when no line has the key, 6 (USER_NOT_FOUND) when the first one that has
  // it names an unknown user, 5 (MOUNT_NOT_FOUND) when it names a known user and an unknown mount, and 3 (ACCEPT)
  // otherwise.
  lemma VerdictIs(host: Host, entries: seq<KeyEntry>, key: Str)
    requires host.authkeys == KeyList(entries) && entries != [] && forall e :: e in entries ==> Printable(e)
    ensures var m := FirstMatch(entries, key);
            && (m.None? ==> Verdict(host, key) == 4)
            && (m.Some? && m.value.user !in host.users ==> Verdict(host, key) == 6)
            && (m.Some? && m.value.user in host.users && m.value.mount !in host.mounts ==> Verdict(host, key) == 5)
            && (m.Some? && m.value.user in host.users && m.value.mount in host.mounts ==>
                  Verdict(host, key) == 3 && MountOf(host, key) == m.value.mount)
  {
    KeyListRoundTrip(entries, key);
  }

  // The mount an accepted client gets.
  function MountOf(host: Host, key: Str): Str
    requires Verdict(host, key) == ACCEPT
  {
    Scan(Stream(host.authkeys, false, false), KeyEntry([], [], []), key).value.mount
  }

  // The server's part: read the key, serve the mount and say so, or refuse.
  function Greeting(host: Host): Proc<ServerEnd> {
    RecvString((key: Str) => Greet(host, key))
  }

  function Greet(host: Host, key: Str): Proc<ServerEnd> {
    if Verdict(host, key) == ACCEPT then Mounting(host, key, Send(EncCmd(ACCEPT), TOP))
    else Send(EncCmd(Verdict(host, key)), Ret(Closed))
  }

  function Mounting(host: Host, key: Str, k: Proc<ServerEnd>): Proc<ServerEnd>
    requires Verdict(host, key) == ACCEPT
  {
    Local((_: Tree) => host.mounts[MountOf(host, key)], k)
  }

  // The constructor, which sends refusals only: the ACCEPT is left to processCommands.
  function Admission(host: Host): Proc<ServerEnd> {
    RecvString((key: Str) => Admit(host, key))
  }

  function Admit(host: Host, key: Str): Proc<ServerEnd> {
    if Verdict(host, key) == ACCEPT then Mounting(host, key, TOP) else Send(EncCmd(Verdict(host, key)), Ret(Closed))
  }

  // The greeting is the constructor, and then the ACCEPT with which processCommands begins.
  lemma GreetingIsAdmission(host: Host, s: Snapshot)
    ensures Finish(Greeting(host), s) ==
            match Finish(Admission(host), s)
            case Some((AtTop, z)) => Some((AtTop, z.(trace := z.trace + Outs(EncCmd(ACCEPT)))))
            case refused => refused
  {
    FinishString((key: Str) => Greet(host, key), s);
    FinishString((key: Str) => Admit(host, key), s);
    match DecField(KText, s.input)
    case None =>
    case Some((f, rest)) => KeyJudged(host, f.s, Consume(s, |s.input| - |rest|));
  }

  lemma KeyJudged(host: Host, key: Str, s: Snapshot)
    ensures Finish(Greet(host, key), s) ==
            match Finish(Admit(host, key), s)
            case Some((AtTop, z)) => Some((AtTop, z.(trace := z.trace + Outs(EncCmd(ACCEPT)))))
            case refused => refused
    ensures Finish(Admit(host, key), s) == Some((VerdictEnd(Verdict(host, key)), Judged(host, key, s)))
  {
    var v := Verdict(host, key);
    if v == ACCEPT {
      var s1 := s.(tree := host.mounts[MountOf(host, key)]);
      FinishSend(EncCmd(ACCEPT), TOP, s1);
      FinishRet(AtTop, s1);
      FinishRet(AtTop, s1.(trace := s1.trace + Outs(EncCmd(ACCEPT))));
    } else {
      FinishSend(EncCmd(v), Ret(Closed), s);
      FinishRet(Closed, s.(trace := s.trace + Outs(EncCmd(v))));
    }
  }

  // After the constructor: the mount is served, or one refusal has been sent.
  function Judged(host: Host, key: Str, s: Snapshot): Snapshot {
    var v := Verdict(host, key);
    if v == ACCEPT then s.(tree := host.mounts[MountOf(host, key)]) else s.(trace := s.trace + Outs(EncCmd(v)))
  }

  // The state of the server on this socket; a refused client is served no files.
  ghost function Now(fd: Socket, c: Server.ClientConnection?): Snapshot
    reads fd, c
  {
    Snapshot(fd.input, fd.trace, if c != null then c.tree else map[])
  }

  // The constructor of ClientConnection; null stands for an object whose socket_ is -1. A key that breaks off is
  // judged as it is.
  method Construct(fd: Socket, host: Host) returns (c: Server.ClientConnection?, ghost key: Str)
    modifies fd
    ensures c != null <==> Verdict(host, key) == ACCEPT
    ensures c != null ==> fresh(c) && c.socket == fd && c.beatsMissed == 0 && c.tree == host.mounts[MountOf(host, key)]
    ensures match DecField(KText, old(fd.input))
            case Some((f, _)) =>
              f == Text(key)
              && Finish(Admission(host), old(Now(fd, null))) == Some((if c != null then AtTop else Closed, Now(fd, c)))
            case None => fd.input == []
  {
    ghost var s := Now(fd, null);
    var _, clientKey := ReadString(fd);
    key := clientKey;
    ghost var s1 := Now(fd, null);
    c := Answer(fd, host, clientKey);
    FinishString((k: Str) => Admit(host, k), s);
    KeyJudged(host, key, s1);
  }

  method Answer(fd: Socket, host: Host, key: Str) returns (c: Server.ClientConnection?)
    modifies fd
    ensures fd.input == old(fd.input)
    ensures c != null <==> Verdict(host, key) == ACCEPT
    ensures c != null ==> fresh(c) && c.socket == fd && c.beatsMissed == 0 && c.tree == host.mounts[MountOf(host, key)]
    ensures Now(fd, c) == Judged(host, key, old(Now(fd, null)))
  {
    c := null;
    var v, mount := Decide(host, key);
    if v == ACCEPT {
      c := new Server.ClientConnection(fd, host.mounts[mount]);
    } else {
      Refuse(fd, v);
    }
  }

  function VerdictEnd(v: U16): ServerEnd {
    if v == ACCEPT then AtTop else Closed
  }

  // What the server does with a client: construct the connection and, if that worked, serve its commands. With a whole
  // key, the greeting leads to the beginning of the session, or to the end of it.
  method ServeClient(fd: Socket, host: Host)
    returns (ghost key: Str, ghost states: seq<Snapshot>, ghost passes: seq<Server.Pass>)
    modifies fd
    ensures Verdict(host, key) == ACCEPT ==> states != [] && Server.Session(states, passes)
    ensures match DecField(KText, old(fd.input))
            case Some((f, _)) =>
              f == Text(key) && (Verdict(host, key) == ACCEPT ==> states != []) &&
              Finish(Greeting(host), old(Now(fd, null))) ==
              Some(if Verdict(host, key) == ACCEPT then (AtTop, states[0]) else (Closed, Now(fd, null)))
            case None => true
  {
    GreetingIsAdmission(host, Now(fd, null));
    var c;
    c, key := Construct(fd, host);
    states, passes := [], [];
    if c != null {
      states, passes := c.ProcessCommands();
    }
  }

  // The checks of the constructor, in its order.
  method Decide(host: Host, key: Str) returns (v: U16, mount: Str)
    ensures v == Verdict(host, key)
    ensures v == ACCEPT ==> mount == MountOf(host, key) && mount in host.mounts
  {
    mount := [];
    var found := FindKey(host.authkeys, key);
    if found == None {
      v := INVALID_KEY;
    } else if found.value.user !in host.users {
      v := USER_NOT_FOUND;
    } else if found.value.mount !in host.mounts {
      v := MOUNT_NOT_FOUND;
    } else {
      v, mount := ACCEPT, found.value.mount;
    }
  }

  method Refuse(fd: Socket, v: U16)
    modifies fd
    ensures fd.input == old(fd.input) && fd.trace == old(fd.trace) + Outs(EncCmd(v))
  {
    var _ := WriteCmd(fd, v);
  }

  // A connection on which nothing has happened yet; t is what the server serves before it knows the mount.
  function Before(host: Host, key: CStr, t: Tree): Link {
    Link(ConnectStub(key), Greeting(host), [], [], t, UNEVENTFUL, 0)
  }

  function Settled(host: Host, key: CStr, t: Tree): Link {
    if Verdict(host, key) == ACCEPT then
      Link(Ret(Connected(true)), TOP, [], [], host.mounts[MountOf(host, key)], UNEVENTFUL, 0)
    else Link(Ret(Connected(false)), Ret(Closed), [], [], t, UNEVENTFUL, 0)
  }

  lemma Greeted(l: Link, host: Host, key: CStr)
    requires l == Before(host, key, l.tree).(cli := AwaitVerdict(), srv := Greet(host, key))
    ensures Reaches(l, Settled(host, key, l.tree))
  {
    var v := Verdict(host, key);
    CmdInverse(v);
    if v == ACCEPT {
      SrvActs(l);
      var l1 := l.(srv := Send(EncCmd(ACCEPT), TOP), tree := host.mounts[MountOf(host, key)]);
      FieldDown(l1);
      Compose(l, l1, Settled(host, key, l.tree));
    } else {
      FieldDown(l);
    }
  }

  lemma KeyDelivered(l: Link, host: Host, key: CStr)
    requires l.cli == ConnectStub(key) && l.srv == Greeting(host) && l.c2s == [] && l.s2c == []
    ensures Reaches(l, l.(cli := AwaitVerdict(), srv := Greet(host, key)))
  {
    CliSendsString(l, key, AwaitVerdict());
    assert [] + EncString(key) == EncString(key) + [];
    var l1 := l.(cli := AwaitVerdict(), c2s := EncString(key));
    StringWanted((k: Str) => Greet(host, k), key);
    SrvReceivesString(l1, key, []);
    Compose(l, l1, l.(cli := AwaitVerdict(), srv := Greet(host, key)));
  }

  lemma HandshakeExchange(host: Host, key: CStr, t: Tree)
    ensures Reaches(Before(host, key, t), Settled(host, key, t))
  {
    var a := Before(host, key, t);
    KeyDelivered(a, host, key);
    var l := a.(cli := AwaitVerdict(), srv := Greet(host, key));
    Greeted(l, host, key);
    Compose(a, l, Settled(host, key, t));
  }

  // The first line of the key list with this key names an existing user and an existing mount.
  predicate Issued(host: Host, entries: seq<KeyEntry>, key: Str) {
    var m := FirstMatch(entries, key);
    m.Some? && m.value.user in host.users && m.value.mount in host.mounts
  }

  // Under every schedule the handshake ends, with both queues empty, and the client ends up connected exactly when the
  // first line of the key list that has its key names an existing user and an existing mount; then, and only then, the
  // server is in its command loop, and it serves that mount. `entries` are the keys issued so far, `key` one the client
  // holds.
  lemma ConnectedIffIssued(host: Host, entries: seq<KeyEntry>, key: CStr, t: Tree, run: seq<Link>) returns (n: nat)
    requires host.authkeys == KeyList(entries) && entries != [] && forall e :: e in entries ==> Printable(e)
    requires IsRun(run) && run[0] == Before(host, key, t)
    ensures |run| <= n + 1 && (Halted(run[|run| - 1]) <==> |run| == n + 1)
    ensures Halted(run[|run| - 1]) ==>
              run[|run| - 1] ==
              if Issued(host, entries, key) then
                var mount := FirstMatch(entries, key).value.mount;
                Link(Ret(Connected(true)), TOP, [], [], host.mounts[mount], UNEVENTFUL, 0)
              else Link(Ret(Connected(false)), Ret(Closed), [], [], t, UNEVENTFUL, 0)
  {
    KeyListRoundTrip(entries, key);
    HandshakeExchange(host, key, t);
    n :| Steps(n, Before(host, key, t), Settled(host, key, t));
    AnyRun(n, run, Settled(host, key, t));
    if Halted(run[|run| - 1]) {
      MaximalRun(n, run, Settled(host, key, t));
    }
  }

  // The connection, once settled, shared by threads that have not called anything yet.
  function Shared(l: Link, threads: set<nat>): Monitor.World {
    Monitor.World(map t | t in threads :: Monitor.Outside, None, l.srv, l.c2s, l.s2c, l.tree, l.o, l.served, [])
  }

  // Where the handshake of an issued key ends, the runs of the shared connection begin: on the mount of that key.
  lemma SessionBegins(host: Host, entries: seq<KeyEntry>, key: CStr, t: Tree, run: seq<Link>, threads: set<nat>)
    requires host.authkeys == KeyList(entries) && entries != [] && forall e :: e in entries ==> Printable(e)
    requires IsRun(run) && run[0] == Before(host, key, t) && Halted(run[|run| - 1]) && Issued(host, entries, key)
    ensures Monitor.Initial(Shared(run[|run| - 1], threads), host.mounts[FirstMatch(entries, key).value.mount])
  {
    var _ := ConnectedIffIssued(host, entries, key, t, run);
  }

  // From the key generator to the connection: a client that read its key file, and a server that read the list, agree
  // that the key issued last is good, unless the same key was issued before.
  lemma IssuedKeyConnects(host: Host, entries: seq<KeyEntry>, issued: KeyEntry, name: Str, port: Str, random: Str)
    requires |random| == KEY_LEN && issued.key == Hex(random)
    requires forall e :: e in entries ==> Printable(e) && e.key != issued.key
    requires IsWord(issued.mount) && IsWord(issued.user) && IsWord(name) && IsWord(port)
    requires host.authkeys == KeyList(entries + [issued])
    requires issued.user in host.users && issued.mount in host.mounts
    ensures ParsedKeyFile(KeyFile(name, port, issued.key)) == (name, port, issued.key)
    ensures Verdict(host, issued.key) == ACCEPT && MountOf(host, issued.key) == issued.mount
  {
    HexIsWord(random);
    KeyFileRoundTrip(name, port, issued.key);
    KeyListRoundTrip(entries + [issued], issued.key);
    LastMatches(entries, issued);
  }

  lemma {:induction false} LastMatches(entries: seq<KeyEntry>, issued: KeyEntry)
    requires forall e :: e in entries ==> e.key != issued.key
    ensures FirstMatch(entries + [issued], issued.key) == Some(issued)
  {
    if entries != [] {
      assert (entries + [issued])[1..] == entries[1..] + [issued];
      LastMatches(entries[1..], issued);
    }
  }
}
