/**
 * src/agfs.cpp: many connections mounted as one tree. Calls on a connection are the local operations of its server,
 * which is what module Rpc proves of the exchanges.
 */
module Agfs {
  import opened Bytes
  import opened Wire
  import opened Disk
  import opened Pieces
  import opened Protocol
  import opened StdMap
  import opened Tags
  import opened Disambiguation
  import opened Merge
  import opened Rpc

  // Short enough for a path with its tag moved out to be a C string still.
  type FusePath = s: Str | |s| < 0x2000_0000_0000_0000 && 0 !in s

  // A connection: the tree its server serves, and whether `connected()` holds. On a connection that is down, access
  // returns an uninitialised variable, and `stale` is what that happens to hold.
  datatype Server = Server(tree: Tree, up: bool, stale: I64)

  // file_handle_t
  datatype Handle = Handle(server: Str, file: CStr)

  type Connections = map<Str, Server>

  function Split(path: FusePath): (r: (Str, CStr)) {
    var (server, file) := Ambiguate(path);
    assert |file| < TWO_63 && 0 !in file;
    (server, file)
  }

  ghost predicate AllUp(conns: Connections) {
    forall h :: h in conns ==> conns[h].up
  }

  // The conversion of a 64-bit result to the int of the FUSE callbacks.
  function ToInt(u: int): int {
    var m := u % TWO_32;
    if m < TWO_32 / 2 then m else m - TWO_32
  }

  /* ---- One server ---- */

  function AskAttr(s: Server, file: CStr): (Stat, I64) {
    var a := LocalReply(s.tree, GetAttr(file), UNEVENTFUL);
    (a.st, a.e)
  }

  function AskAccess(s: Server, file: CStr, mask: U32): I64 {
    if s.up then LocalReply(s.tree, CheckAccess(file, mask), UNEVENTFUL).e else s.stale
  }

  function AskOpen(s: Server, file: CStr, flags: U32): I64 {
    LocalReply(s.tree, OpenFile(file, flags), UNEVENTFUL).e
  }

  // On a connection that is down nothing can be read, and the error and the count keep their initial zeros.
  function AskListing(s: Server, file: CStr): (seq<Entry>, I64) {
    if !s.up then ([], 0)
    else
      var a := LocalReply(s.tree, ReadDir(file), UNEVENTFUL);
      (a.files, a.e)
  }

  /* ---- Several servers, in the order of the map ---- */

  // Goes on after an error, stops at the first success; `sofar` is the result of the last server asked.
  function AskEach(conns: Connections, keys: seq<Str>, file: CStr, sofar: (Stat, I64)): (Stat, I64)
    requires forall k :: k in keys ==> k in conns
    decreases |keys|
  {
    if keys == [] then sofar
    else if !conns[keys[0]].up then AskEach(conns, keys[1..], file, sofar)
    else
      var r := AskAttr(conns[keys[0]], file);
      if r.1 >= 0 then r else AskEach(conns, keys[1..], file, r)
  }

  function GetattrResult(conns: Connections, path: FusePath): (Stat, I64) {
    var (server, file) := Split(path);
    var (st, e) :=
      if server in conns && conns[server].up then AskAttr(conns[server], file)
      else AskEach(conns, Ordered(conns.Keys), file, (ZERO_STAT, 0));
    (if e >= 0 then st else ZERO_STAT, e)
  }

  // access: the same walk over results of access(2); a connection that is down is asked too.
  function AccessEach(conns: Connections, keys: seq<Str>, file: CStr, mask: U32, sofar: I64): I64
    requires forall k :: k in keys ==> k in conns
    decreases |keys|
  {
    if keys == [] then sofar
    else
      var r := AskAccess(conns[keys[0]], file, mask);
      if r >= 0 then r else AccessEach(conns, keys[1..], file, mask, r)
  }

  function AccessResult(conns: Connections, path: FusePath, mask: U32): I64 {
    var (server, file) := Split(path);
    if server in conns then AskAccess(conns[server], file, mask)
    else AccessEach(conns, Ordered(conns.Keys), file, mask, 0)
  }

  function Having(conns: Connections, keys: seq<Str>, path: CStr): seq<Str>
    requires forall k :: k in keys ==> k in conns
  {
    if keys == [] then []
    else
      var k := keys[|keys| - 1];
      Having(conns, keys[..|keys| - 1], path) + if AskAccess(conns[k], path, F_OK) >= 0 then [k] else []
  }

  function OpenAt(conns: Connections, server: Str, file: CStr, flags: U32): (Option<Handle>, I64) {
    if server in conns && conns[server].up then
      var e := AskOpen(conns[server], file, flags);
      (if e >= 0 then Some(Handle(server, file)) else None, e)
    else (None, -ENOENT)
  }

  function OpenResult(conns: Connections, path: FusePath, flags: U32): (Option<Handle>, I64) {
    var (server, file) := Split(path);
    if server != [] then OpenAt(conns, server, file, flags)
    else
      var hosts := Having(conns, Ordered(conns.Keys), path);
      if |hosts| != 1 then (None, -ENOENT) else OpenAt(conns, hosts[0], file, flags)
  }

  // The listings of the servers that have one.
  function Reports(conns: Connections, keys: seq<Str>, file: CStr): seq<Source>
    requires forall k :: k in keys ==> k in conns
  {
    if keys == [] then []
    else
      var k := keys[|keys| - 1];
      var (files, e) := AskListing(conns[k], file);
      Reports(conns, keys[..|keys| - 1], file) + if e >= 0 then [Source(k, files)] else []
  }

  // a tagged path goes to one server, any other to all
  function Queried(conns: Connections, path: FusePath): (r: seq<Str>)
    ensures forall k :: k in r ==> k in conns
  {
    var (server, _) := Split(path);
    if server in conns then [server] else Ordered(conns.Keys)
  }

  function ReaddirSources(conns: Connections, path: FusePath): seq<Source> {
    Reports(conns, Queried(conns, path), Split(path).1)
  }

  function ReaddirResult(conns: Connections, path: FusePath): (seq<Entry>, I64) {
    var ss := ReaddirSources(conns, path);
    (MergedListing(AddEach(EMPTY, ss)), if ss == [] then -ENOTDIR else 0)
  }

  // The result of FUSE read and write: a length or an error, through an unsigned 64-bit value into an int.
  function ReadResult(conns: Connections, fh: Handle, size: U64, offset: U64, o: Chance): (Str, int) {
    if OnServer(conns, fh) then
      var a := LocalReply(conns[fh.server].tree, ReadFile(fh.file, size, offset), o);
      if a.e >= 0 then (a.data, ToInt(|a.data|)) else ([], ToInt(Unsigned(a.e)))
    else ([], ToInt(Unsigned(-ENOENT)))
  }

  function WriteResult(conns: Connections, fh: Handle, buf: Content, offset: U64, o: Chance): (Connections, int) {
    if OnServer(conns, fh) then
      var s, c := conns[fh.server], WriteFile(fh.file, offset, buf);
      var a := LocalReply(s.tree, c, o);
      (conns[fh.server := s.(tree := LocalTree(s.tree, c, o))], ToInt(if a.e >= 0 then a.n else Unsigned(a.e)))
    else (conns, ToInt(Unsigned(-ENOENT)))
  }

  // The handle leads to a connection that is up.
  predicate OnServer(conns: Connections, fh: Handle) {
    fh.server in conns && conns[fh.server].up
  }

  function OpensWith(conns: Connections, fh: Handle, flags: U32): I64
    requires OnServer(conns, fh)
  {
    OpenStatus(conns[fh.server].tree, fh.file, flags)
  }

  // The handle leads to a file of this content, from which an undisturbed call reads.
  ghost predicate Reads(conns: Connections, fh: Handle, size: U64, offset: U64, o: Chance, content: Content) {
    && OnServer(conns, fh) && OpensWith(conns, fh, O_RDONLY) == 0
    && conns[fh.server].tree[fh.file].body == File(content)
    && !o.fails && Undisturbed(conns[fh.server].tree, ReadFile(fh.file, size, offset), o)
    && offset < TWO_63 && size < TWO_32 / 2
  }

  // A failing read or write hands its negative errno to FUSE unchanged, although it passes through unsigned numbers.
  lemma ErrorsSurvive(e: I64)
    requires -4096 < e < 0
    ensures ToInt(Unsigned(e)) == e
  {}

  lemma LengthsSurvive(n: nat)
    requires n < TWO_32 / 2
    ensures ToInt(n) == n
  {}

  // A handle that leads to a file of this content, with the bytes in the range from the position on.
  ghost predicate ReadsFrom(conns: Connections, fh: Handle, size: U64, offset: U64, o: Chance, slice: Content) {
    && OnServer(conns, fh) && OpensWith(conns, fh, O_RDONLY) == 0
    && conns[fh.server].tree[fh.file].body.File? && !o.fails && size < TWO_32 / 2
    && slice == Slice(conns[fh.server].tree[fh.file].body.data, Position(offset), size)
  }

  // A directory, or a file where a local read fails.
  ghost predicate FailsToRead(conns: Connections, fh: Handle, size: U64, o: Chance) {
    && OnServer(conns, fh) && OpensWith(conns, fh, O_RDONLY) == 0
    && size > 0 && (conns[fh.server].tree[fh.file].body.Dir? || o.fails)
  }

  lemma ReadFails(conns: Connections, fh: Handle, size: U64, offset: U64, o: Chance)
    requires FailsToRead(conns, fh, size, o)
    ensures ReadResult(conns, fh, size, offset, o) == ([], -1)
  {
    ReadFailure(conns[fh.server].tree, fh.file, size, offset, o);
    ErrorsSurvive(-1);
  }

  // The length is that of the range, even when not all of it has come and the rest is zeros.
  lemma ReadsSome(conns: Connections, fh: Handle, size: U64, offset: U64, o: Chance, slice: Content)
    requires ReadsFrom(conns, fh, size, offset, o, slice)
    ensures var m := Fetch(|slice|, o.fetched);
            ReadResult(conns, fh, size, offset, o) == (slice[..m] + Zeros(|slice| - m), |slice|)
  {
    ReadReports(conns[fh.server].tree, fh.file, size, offset, o);
  }

  // What a read through a handle is: the errno of the open, -1 for a directory and for a local read that fails, or the
  // bytes of the file in the range and their number.
  lemma ReadMeans(conns: Connections, fh: Handle, size: U64, offset: U64, o: Chance)
    ensures var (buf, result) := ReadResult(conns, fh, size, offset, o);
            && (!OnServer(conns, fh) ==> buf == [] && result == -ENOENT)
            && (OnServer(conns, fh) && OpensWith(conns, fh, O_RDONLY) < 0 ==>
                  buf == [] && result == OpensWith(conns, fh, O_RDONLY))
            && (forall content :: Reads(conns, fh, size, offset, o, content) ==>
                  buf == content[Min(offset, |content|)..Min(offset + size, |content|)] && result == |buf|)
            && (FailsToRead(conns, fh, size, o) ==> buf == [] && result == -1)
            && (forall slice :: ReadsFrom(conns, fh, size, offset, o, slice) ==>
                  buf == slice[..Fetch(|slice|, o.fetched)] + Zeros(|slice| - Fetch(|slice|, o.fetched))
                  && result == |slice|)
  {
    if FailsToRead(conns, fh, size, o) { ReadFails(conns, fh, size, offset, o); }
    forall slice | ReadsFrom(conns, fh, size, offset, o, slice)
      ensures var m := Fetch(|slice|, o.fetched);
              ReadResult(conns, fh, size, offset, o) == (slice[..m] + Zeros(|slice| - m), |slice|)
    {
      ReadsSome(conns, fh, size, offset, o, slice);
    }
    if OnServer(conns, fh) && OpensWith(conns, fh, O_RDONLY) < 0 {
      ErrorsSurvive(OpensWith(conns, fh, O_RDONLY));
    }
    forall content | Reads(conns, fh, size, offset, o, content)
      ensures var (buf, result) := ReadResult(conns, fh, size, offset, o);
              buf == content[Min(offset, |content|)..Min(offset + size, |content|)] && result == |buf|
    {
      ReadThrough(conns, fh, size, offset, o, content);
    }
  }

  lemma ReadThrough(conns: Connections, fh: Handle, size: U64, offset: U64, o: Chance, content: Content)
    requires Reads(conns, fh, size, offset, o, content)
    ensures var (buf, result) := ReadResult(conns, fh, size, offset, o);
            buf == content[Min(offset, |content|)..Min(offset + size, |content|)] && result == |buf|
  {
    ReadReports(conns[fh.server].tree, fh.file, size, offset, o);
    ReadIsSlice(conns[fh.server].tree, fh.file, size, offset, o);
  }

  // A handle that can be written through.
  ghost predicate Writes(conns: Connections, fh: Handle, buf: Content, offset: U64, o: Chance) {
    && OnServer(conns, fh) && OpensWith(conns, fh, O_WRONLY) == 0 && |buf| < TWO_32 / 2
    && Admissible(conns[fh.server].tree, WriteFile(fh.file, offset, buf), o)
  }

  // What a write through a handle is: the errno of the open and nothing changed, or what the pieces put into that one
  // file, and their number or the errno of the local write that failed. With full local writes, that is the buffer at
  // its offset.
  lemma WriteMeans(conns: Connections, fh: Handle, buf: Content, offset: U64, o: Chance)
    ensures var (after, result) := WriteResult(conns, fh, buf, offset, o);
            && (!OnServer(conns, fh) ==> after == conns && result == -ENOENT)
            && (OnServer(conns, fh) && OpensWith(conns, fh, O_WRONLY) < 0 ==>
                  after == conns && result == OpensWith(conns, fh, O_WRONLY))
            && (Writes(conns, fh, buf, offset, o) ==>
                  && OnlyFileChanges(conns, after, fh)
                  && ContentAt(after, fh) == Splice(ContentAt(conns, fh), Position(offset), Put(buf, o.pieces))
                  && (Failure(o.pieces) == None ==> result == |Put(buf, o.pieces)|)
                  && (forall errno :: Failure(o.pieces) == Some(errno) ==> result == -(errno as int))
                  && (Full(o.pieces) && offset < TWO_63 ==>
                        && result == |buf|
                        && ContentAt(after, fh) == Splice(ContentAt(conns, fh), offset, buf)))
  {
    if OnServer(conns, fh) && OpensWith(conns, fh, O_WRONLY) < 0 {
      ErrorsSurvive(OpensWith(conns, fh, O_WRONLY));
    }
    if Writes(conns, fh, buf, offset, o) {
      WriteThrough(conns, fh, buf, offset, o);
    }
  }

  // The length or the errno of a write through a handle.
  lemma WriteReturns(conns: Connections, fh: Handle, buf: Content, offset: U64, o: Chance)
    requires Writes(conns, fh, buf, offset, o)
    ensures var result := WriteResult(conns, fh, buf, offset, o).1;
            && (Failure(o.pieces) == None ==> result == |Put(buf, o.pieces)|)
            && (forall errno :: Failure(o.pieces) == Some(errno) ==> result == -(errno as int))
            && (Full(o.pieces) ==> result == |buf|)
  {
    var a := LocalReply(conns[fh.server].tree, WriteFile(fh.file, offset, buf), o);
    assert WriteResult(conns, fh, buf, offset, o).1 == ToInt(if a.e >= 0 then a.n else Unsigned(a.e));
    WriteReports(conns[fh.server].tree, fh.file, offset, buf, o);
    if a.e < 0 {
      ErrorsSurvive(a.e);
    } else {
      Conserved(o.pieces, |buf|, Position(offset), buf);
      LengthsSurvive(a.n);
    }
  }

  lemma WriteThrough(conns: Connections, fh: Handle, buf: Content, offset: U64, o: Chance)
    requires Writes(conns, fh, buf, offset, o)
    ensures var (after, result) := WriteResult(conns, fh, buf, offset, o);
            && OnlyFileChanges(conns, after, fh)
            && ContentAt(after, fh) == Splice(ContentAt(conns, fh), Position(offset), Put(buf, o.pieces))
            && (Failure(o.pieces) == None ==> result == |Put(buf, o.pieces)|)
            && (forall errno :: Failure(o.pieces) == Some(errno) ==> result == -(errno as int))
            && (Full(o.pieces) && offset < TWO_63 ==>
                  result == |buf| && ContentAt(after, fh) == Splice(ContentAt(conns, fh), offset, buf))
  {
    WriteReturns(conns, fh, buf, offset, o);
    WriteIsSplice(conns[fh.server].tree, fh.file, offset, buf, o);
  }

  ghost function ContentAt(conns: Connections, fh: Handle): Str {
    if fh.server in conns && fh.file in conns[fh.server].tree && conns[fh.server].tree[fh.file].body.File? then
      conns[fh.server].tree[fh.file].body.data
    else []
  }

  // Connections that differ at most in the content of this one file.
  ghost predicate OnlyFileChanges(conns: Connections, after: Connections, fh: Handle) {
    && after.Keys == conns.Keys
    && (forall h :: h in conns && h != fh.server ==> after[h] == conns[h])
    && (fh.server in conns ==>
          && after[fh.server].up == conns[fh.server].up
          && after[fh.server].tree.Keys == conns[fh.server].tree.Keys
          && forall p :: p in conns[fh.server].tree && p != fh.file ==>
               after[fh.server].tree[p] == conns[fh.server].tree[p])
  }

  lemma ReportsNext(conns: Connections, keys: seq<Str>, i: nat, file: CStr)
    requires i < |keys| && forall k :: k in keys ==> k in conns
    ensures var (files, e) := AskListing(conns[keys[i]], file);
            var before := Reports(conns, keys[..i], file);
            Reports(conns, keys[..i + 1], file) == if e >= 0 then before + [Source(keys[i], files)] else before
    ensures AskListing(conns[keys[i]], file).1 in {0, -ENOTDIR}
  {
    assert keys[..i + 1][..i] == keys[..i];
    assert Reports(conns, keys[..i], file) + [] == Reports(conns, keys[..i], file);
  }

  lemma HavingNext(conns: Connections, keys: seq<Str>, i: nat, path: CStr)
    requires i < |keys| && forall k :: k in keys ==> k in conns
    ensures var before := Having(conns, keys[..i], path);
            Having(conns, keys[..i + 1], path) ==
            if AskAccess(conns[keys[i]], path, F_OK) >= 0 then before + [keys[i]] else before
  {
    assert keys[..i + 1][..i] == keys[..i];
    assert Having(conns, keys[..i], path) + [] == Having(conns, keys[..i], path);
  }

  // The server reports that the path exists; on a connection that is down that depends on a stale variable.
  predicate Exists(s: Server, path: Str) {
    if s.up then Present(s.tree, path) else s.stale >= 0
  }

  lemma AppendAscending(r: seq<Str>, init: seq<Str>, k: Str)
    requires Ascending(r) && Ascending(init + [k]) && forall x :: x in r ==> x in init
    ensures Ascending(r + [k])
  {
    var keys := init + [k];
    forall i | 0 <= i < |r| ensures Less(r[i], k) {
      assert r[i] in r;
      var j :| 0 <= j < |init| && init[j] == r[i];
      assert Less(keys[j], keys[|init|]);
    }
  }

  lemma {:induction false} HavingIs(conns: Connections, keys: seq<Str>, path: CStr)
    requires Ascending(keys) && forall k :: k in keys ==> k in conns
    ensures Ascending(Having(conns, keys, path))
    ensures forall k :: k in Having(conns, keys, path) <==> k in keys && Exists(conns[k], path)
  {
    if keys != [] {
      var n := |keys| - 1;
      var k, init := keys[n], keys[..n];
      HavingIs(conns, init, path);
      assert keys == init + [k];
      AppendAscending(Having(conns, init, path), init, k);
    }
  }

  ghost predicate OnlyAt(conns: Connections, path: Str, h: Str) {
    h in conns && Exists(conns[h], path) && forall k :: k in conns && Exists(conns[k], path) ==> k == h
  }

  // The servers that report the path are the one if there is just one.
  lemma OnlyHolder(conns: Connections, path: CStr, hosts: seq<Str>)
    requires hosts == Having(conns, Ordered(conns.Keys), path) && |hosts| == 1
    ensures OnlyAt(conns, path, hosts[0])
  {
    HavingIs(conns, Ordered(conns.Keys), path);
    assert hosts[0] in hosts;
    forall k | k in conns && Exists(conns[k], path) ensures k == hosts[0] { assert k in hosts; }
  }

  lemma HolderAlone(conns: Connections, path: CStr, h: Str)
    requires OnlyAt(conns, path, h)
    ensures Having(conns, Ordered(conns.Keys), path) == [h]
  {
    var hosts := Having(conns, Ordered(conns.Keys), path);
    HavingIs(conns, Ordered(conns.Keys), path);
    assert h in hosts;
    forall i | 0 <= i < |hosts| ensures hosts[i] == h { assert hosts[i] in hosts; }
    if |hosts| > 1 { LessTrichotomy(hosts[0], hosts[1]); }
  }

  // A connected server answers an open: with the status of the local open, and a handle for the path there unless that
  // is an error.
  ghost predicate OpensOn(conns: Connections, h: Str, file: CStr, flags: U32, r: (Option<Handle>, I64)) {
    h in conns && conns[h].up &&
    var e := OpenStatus(conns[h].tree, file, flags);
    r == (if e >= 0 then Some(Handle(h, file)) else None, e)
  }

  // The path leads to the server of its tag, or, when it has none, to the only one that reports it.
  ghost predicate Leads(conns: Connections, path: FusePath, h: Str) {
    h in conns && if Split(path).0 != [] then h == Split(path).0 else OnlyAt(conns, path, h)
  }

  // An open is answered by the connected server the path leads to, on the path without its tag; when there is no such
  // server it fails with ENOENT (2).
  ghost predicate Opened(conns: Connections, path: FusePath, flags: U32, r: (Option<Handle>, I64)) {
    && (forall h :: Leads(conns, path, h) && conns[h].up ==> OpensOn(conns, h, Split(path).1, flags, r))
    && ((forall h :: Leads(conns, path, h) ==> !conns[h].up) ==> r == (None, -2))
  }

  lemma OpenAtMeans(conns: Connections, h: Str, file: CStr, flags: U32)
    ensures if h in conns && conns[h].up then OpensOn(conns, h, file, flags, OpenAt(conns, h, file, flags))
            else OpenAt(conns, h, file, flags) == (None, -2)
  {}

  lemma OpenMeans(conns: Connections, path: FusePath, flags: U32)
    ensures Opened(conns, path, flags, OpenResult(conns, path, flags))
  {
    var (server, file) := Split(path);
    if server != [] {
      OpenAtMeans(conns, server, file, flags);
      assert server in conns ==> Leads(conns, path, server);
    } else {
      UntaggedMeans(conns, path, file, flags);
    }
  }

  lemma UntaggedMeans(conns: Connections, path: FusePath, file: CStr, flags: U32)
    requires Split(path) == ([], file)
    ensures Opened(conns, path, flags, OpenResult(conns, path, flags))
  {
    var hosts := Having(conns, Ordered(conns.Keys), path);
    forall h | Leads(conns, path, h) ensures hosts == [h] {
      HolderAlone(conns, path, h);
    }
    if |hosts| == 1 {
      OnlyHolder(conns, path, hosts);
      assert Leads(conns, path, hosts[0]);
      OpenAtMeans(conns, hosts[0], file, flags);
    }
  }

  const DOT: Str := [46]

  // What FUSE is given for a listing.
  function Filled(files: seq<Entry>): seq<(Str, Option<Stat>)> {
    [(DOT, None), (DOT + DOT, None)] + seq(|files|, i requires 0 <= i < |files| => (files[i].0, Some(files[i].1)))
  }

  // "." and "..", and then every entry of the listing with its stat.
  lemma FilledIs(files: seq<Entry>)
    ensures |Filled(files)| == 2 + |files| && Filled(files)[0] == ([46], None) && Filled(files)[1] == ([46, 46], None)
    ensures forall i :: 0 <= i < |files| ==> Filled(files)[2 + i] == (files[i].0, Some(files[i].1))
  {
    assert DOT + DOT == [46, 46];
  }

  class Mount {
    var connections: Connections

    constructor (connections: Connections)
      ensures this.connections == connections
    {
      this.connections := connections;
    }

    method Getattr(path: FusePath) returns (st: Stat, e: I64)
      ensures (st, e) == GetattrResult(connections, path)
    {
      var (server, file) := Split(path);
      var retVal: (Stat, I64);
      if server in connections && connections[server].up {
        retVal := AskAttr(connections[server], file);
      } else {
        retVal := GetattrAny(connections, Ordered(connections.Keys), file);
      }
      e := retVal.1;
      st := if e >= 0 then retVal.0 else ZERO_STAT;
    }

    static method GetattrAny(conns: Connections, keys: seq<Str>, file: CStr) returns (retVal: (Stat, I64))
      requires forall k :: k in keys ==> k in conns
      ensures retVal == AskEach(conns, keys, file, (ZERO_STAT, 0))
    {
      retVal := (ZERO_STAT, 0);
      for i := 0 to |keys|
        invariant AskEach(conns, keys, file, (ZERO_STAT, 0)) == AskEach(conns, keys[i..], file, retVal)
      {
        assert keys[i..][1..] == keys[i + 1..];
        if conns[keys[i]].up {
          retVal := AskAttr(conns[keys[i]], file);
          if retVal.1 >= 0 {
            break;
          }
        }
      }
    }

    method Access(path: FusePath, mask: U32) returns (res: I64)
      ensures res == AccessResult(connections, path, mask)
    {
      var (server, file) := Split(path);
      if server in connections {
        res := AskAccess(connections[server], file, mask);
      } else {
        res := AccessAny(connections, Ordered(connections.Keys), file, mask);
      }
    }

    static method AccessAny(conns: Connections, keys: seq<Str>, file: CStr, mask: U32) returns (res: I64)
      requires forall k :: k in keys ==> k in conns
      ensures res == AccessEach(conns, keys, file, mask, 0)
    {
      res := 0;
      for i := 0 to |keys|
        invariant AccessEach(conns, keys, file, mask, 0) == AccessEach(conns, keys[i..], file, mask, res)
      {
        assert keys[i..][1..] == keys[i + 1..];
        res := AskAccess(conns[keys[i]], file, mask);
        if res >= 0 {
          break;
        }
      }
    }

    method CheckExistance(path: CStr) returns (hosts: seq<Str>)
      ensures hosts == Having(connections, Ordered(connections.Keys), path)
    {
      hosts := [];
      var keys := Ordered(connections.Keys);
      for i := 0 to |keys|
        invariant hosts == Having(connections, keys[..i], path)
      {
        var e := AskAccess(connections[keys[i]], path, F_OK);
        HavingNext(connections, keys, i, path);
        if e >= 0 {
          hosts := hosts + [keys[i]];
        }
      }
      assert keys[..|keys|] == keys;
    }

    method Open(path: FusePath, flags: U32) returns (fh: Option<Handle>, e: I64)
      ensures (fh, e) == OpenResult(connections, path, flags)
      ensures Opened(connections, path, flags, (fh, e))
    {
      OpenMeans(connections, path, flags);
      var (server, file) := Split(path);
      if server == [] {
        var servers := CheckExistance(path);
        if |servers| != 1 {
          return None, -ENOENT;
        }
        server := servers[0];
      }
      fh, e := None, -ENOENT;
      if server in connections && connections[server].up {
        e := AskOpen(connections[server], file, flags);
        if e >= 0 {
          fh := Some(Handle(server, file));
        }
      }
    }

    // filler is called for ".", ".." and every merged entry.
    method Readdir(path: FusePath) returns (filled: seq<(Str, Option<Stat>)>, err: I64)
      ensures (filled, err) == (Filled(ReaddirResult(connections, path).0), ReaddirResult(connections, path).1)
      ensures var listed := ReaddirResult(connections, path).0;
              && |filled| == 2 + |listed| && filled[0] == ([46], None) && filled[1] == ([46, 46], None)
              && forall i :: 0 <= i < |listed| ==> filled[2 + i] == (listed[i].0, Some(listed[i].1))
    {
      var (server, file) := Split(path);
      var disam := new Disambiguater();
      var keys := if server in connections then [server] else Ordered(connections.Keys);
      err := Gather(connections, disam, keys, file);
      var listed := disam.DisambiguatedFilepathsWithStats();
      filled := Fill(listed);
      FilledIs(listed);
      disam.ClearPaths();
    }

    // Asks one server after the other; the error stays -ENOTDIR until one of them has the directory.
    static method Gather(conns: Connections, disam: Disambiguater, keys: seq<Str>, file: CStr) returns (err: I64)
      requires disam.Contents() == EMPTY && forall k :: k in keys ==> k in conns
      modifies disam
      ensures disam.Contents() == AddEach(EMPTY, Reports(conns, keys, file))
      ensures err == if Reports(conns, keys, file) == [] then -ENOTDIR else 0
    {
      err := -ENOTDIR;
      for i := 0 to |keys|
        invariant WellFormed(disam.Contents())
        invariant disam.Contents() == AddEach(EMPTY, Reports(conns, keys[..i], file))
        invariant err == if Reports(conns, keys[..i], file) == [] then -ENOTDIR else 0
      {
        var (files, temp) := AskListing(conns[keys[i]], file);
        ReportsNext(conns, keys, i, file);
        if temp >= 0 {
          AddOneMore(EMPTY, Reports(conns, keys[..i], file), Source(keys[i], files));
          var _ := disam.AddFilepaths(files, keys[i]);
          err := temp;
        }
      }
      assert keys[..|keys|] == keys;
    }

    static method Fill(listed: seq<Entry>) returns (filled: seq<(Str, Option<Stat>)>)
      ensures filled == Filled(listed)
    {
      filled := [(DOT, None), (DOT + DOT, None)];
      for i := 0 to |listed|
        invariant filled == Filled(listed[..i])
      {
        filled := filled + [(listed[i].0, Some(listed[i].1))];
      }
      assert listed[..|listed|] == listed;
    }

    // `o` is what chance decides about the call.
    method Read(fh: Handle, size: U64, offset: U64, o: Chance) returns (buf: Str, result: int)
      ensures (buf, result) == ReadResult(connections, fh, size, offset, o)
      ensures !OnServer(connections, fh) ==> buf == [] && result == -ENOENT
      ensures OnServer(connections, fh) && OpensWith(connections, fh, O_RDONLY) < 0 ==>
                buf == [] && result == OpensWith(connections, fh, O_RDONLY)
      ensures forall content :: Reads(connections, fh, size, offset, o, content) ==>
                buf == content[Min(offset, |content|)..Min(offset + size, |content|)] && result == |buf|
      ensures FailsToRead(connections, fh, size, o) ==> buf == [] && result == -1
      ensures forall slice :: ReadsFrom(connections, fh, size, offset, o, slice) ==>
                buf == slice[..Fetch(|slice|, o.fetched)] + Zeros(|slice| - Fetch(|slice|, o.fetched))
                && result == |slice|
    {
      buf := [];
      var data: Str, e: I64 := [], -ENOENT;
      if fh.server in connections && connections[fh.server].up {
        var a := LocalReply(connections[fh.server].tree, ReadFile(fh.file, size, offset), o);
        data, e := a.data, a.e;
        if e >= 0 {
          buf := data;
        }
      }
      result := ToInt(if e >= 0 then |data| else Unsigned(e));
      ReadMeans(connections, fh, size, offset, o);
    }

    method Write(fh: Handle, buf: Content, offset: U64, o: Chance) returns (result: int)
      modifies this
      ensures (connections, result) == WriteResult(old(connections), fh, buf, offset, o)
      ensures !OnServer(old(connections), fh) ==> connections == old(connections) && result == -ENOENT
      ensures OnServer(old(connections), fh) && OpensWith(old(connections), fh, O_WRONLY) < 0 ==>
                connections == old(connections) && result == OpensWith(old(connections), fh, O_WRONLY)
      ensures Writes(old(connections), fh, buf, offset, o) ==>
                && OnlyFileChanges(old(connections), connections, fh)
                && ContentAt(connections, fh) ==
                     Splice(ContentAt(old(connections), fh), Position(offset), Put(buf, o.pieces))
                && (Failure(o.pieces) == None ==> result == |Put(buf, o.pieces)|)
                && (forall errno :: Failure(o.pieces) == Some(errno) ==> result == -(errno as int))
                && (Full(o.pieces) && offset < TWO_63 ==>
                      && result == |buf|
                      && ContentAt(connections, fh) == Splice(ContentAt(old(connections), fh), offset, buf))
    {
      var n: U64, e: I64 := 0, -ENOENT;
      if fh.server in connections && connections[fh.server].up {
        var s, c := connections[fh.server], WriteFile(fh.file, offset, buf);
        var a := LocalReply(s.tree, c, o);
        n, e := a.n, a.e;
        connections := connections[fh.server := s.(tree := LocalTree(s.tree, c, o))];
      }
      result := ToInt(if e >= 0 then n else Unsigned(e));
      WriteMeans(old(connections), fh, buf, offset, o);
    }
  }

  lemma {:induction false} AddOneMore(ix: Index, ss: seq<Source>, s: Source)
    ensures AddEach(ix, ss + [s]) == AddAll(AddEach(ix, ss), s.values, s.host).0
    decreases |ss|
  {
    if ss == [] {
      assert ss + [s] == [s] && [s][1..] == [];
    } else {
      assert (ss + [s])[1..] == ss[1..] + [s];
      AddOneMore(AddAll(ix, ss[0].values, ss[0].host).0, ss[1..], s);
    }
  }
}
