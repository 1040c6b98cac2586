/** End to end over src/agfs.cpp and src/disambiguater.cpp: what is listed leads back to where it came from. */
module Origin {
  import opened Bytes
  import opened Wire
  import opened Disk
  import opened Pieces
  import opened Protocol
  import opened StdMap
  import opened Tags
  import opened Disambiguation
  import opened Merge
  import opened Agfs
  import Rpc

  /* ---- Resolving an untagged path ---- */

  // An untagged path is opened on a server exactly when precisely one server reports that it exists, and that one is
  // connected.
  lemma OpenBroadcast(conns: Connections, path: FusePath, flags: U32)
    requires Split(path) == ([], path)
    ensures forall h :: OnlyAt(conns, path, h) && conns[h].up ==>
              OpensOn(conns, h, path, flags, OpenResult(conns, path, flags))
    ensures (forall h :: OnlyAt(conns, path, h) ==> !conns[h].up) ==> OpenResult(conns, path, flags) == (None, -ENOENT)
  {
    OpenMeans(conns, path, flags);
    forall h | OnlyAt(conns, path, h) ensures Leads(conns, path, h) {}
  }

  // A tagged path is opened on the server of its tag, under the path without the tag, or not at all.
  lemma OpenTagged(conns: Connections, path: FusePath, flags: U32)
    requires Split(path).0 != []
    ensures var (server, file) := Split(path);
            if server in conns && conns[server].up
            then OpensOn(conns, server, file, flags, OpenResult(conns, path, flags))
            else OpenResult(conns, path, flags) == (None, -ENOENT)
  {
    OpenMeans(conns, path, flags);
    var server := Split(path).0;
    assert server in conns ==> Leads(conns, path, server);
  }

  // The connection is up, and its server has the path.
  predicate Has(s: Server, path: Str) {
    s.up && Present(s.tree, path)
  }

  // Server i is the first connected one, in map order, that has the path.
  ghost predicate FirstWith(conns: Connections, keys: seq<Str>, path: Str, i: nat)
    requires forall k :: k in keys ==> k in conns
  {
    i < |keys| && Has(conns[keys[i]], path) && forall j :: 0 <= j < i ==> !Has(conns[keys[j]], path)
  }

  lemma {:induction false} AskEachFirst(conns: Connections, keys: seq<Str>, path: CStr, sofar: (Stat, I64), i: nat)
    requires forall k :: k in keys ==> k in conns
    requires FirstWith(conns, keys, path, i)
    ensures AskEach(conns, keys, path, sofar) == AskAttr(conns[keys[i]], path)
    decreases |keys|
  {
    if i > 0 {
      var next := if conns[keys[0]].up then AskAttr(conns[keys[0]], path) else sofar;
      assert !Has(conns[keys[0]], path);
      assert FirstWith(conns, keys[1..], path, i - 1);
      AskEachFirst(conns, keys[1..], path, next, i - 1);
    }
  }

  // Server i is the last one in map order that is connected.
  ghost predicate LastUp(conns: Connections, keys: seq<Str>, i: nat)
    requires forall k :: k in keys ==> k in conns
  {
    i < |keys| && conns[keys[i]].up && forall j :: i < j < |keys| ==> !conns[keys[j]].up
  }

  lemma {:induction false} AskEachDown(conns: Connections, keys: seq<Str>, path: CStr, sofar: (Stat, I64))
    requires forall k :: k in keys ==> k in conns && !conns[k].up
    ensures AskEach(conns, keys, path, sofar) == sofar
    decreases |keys|
  {
    if keys != [] {
      AskEachDown(conns, keys[1..], path, sofar);
    }
  }

  lemma {:induction false} AskEachNone(conns: Connections, keys: seq<Str>, path: CStr, sofar: (Stat, I64), i: nat)
    requires forall k :: k in keys ==> k in conns && !Has(conns[k], path)
    requires LastUp(conns, keys, i)
    ensures AskEach(conns, keys, path, sofar) == AskAttr(conns[keys[i]], path)
    decreases |keys|
  {
    var rest := keys[1..];
    var next := if conns[keys[0]].up then AskAttr(conns[keys[0]], path) else sofar;
    if i == 0 {
      forall k | k in rest ensures k in conns && !conns[k].up {
        var j :| 0 <= j < |rest| && rest[j] == k;
        assert keys[j + 1] == k;
      }
      AskEachDown(conns, rest, path, next);
    } else {
      AskEachNone(conns, rest, path, next, i - 1);
    }
  }

  // An untagged path gets the attributes of the first connected server that has it ...
  lemma GetattrFirst(conns: Connections, path: FusePath, i: nat)
    requires Split(path) == ([], path) && [] !in conns && FirstWith(conns, Ordered(conns.Keys), path, i)
    ensures GetattrResult(conns, path) == (Carried(StatOf(conns[Ordered(conns.Keys)[i]].tree[path])), 0)
  {
    AskEachFirst(conns, Ordered(conns.Keys), path, (ZERO_STAT, 0), i);
  }

  // ... the error of the last connected one when none of them has it ...
  lemma GetattrNone(conns: Connections, path: FusePath, i: nat)
    requires Split(path) == ([], path) && [] !in conns && LastUp(conns, Ordered(conns.Keys), i)
    requires forall k :: k in conns ==> !Has(conns[k], path)
    ensures var t := conns[Ordered(conns.Keys)[i]].tree;
            GetattrResult(conns, path) ==
            (ZERO_STAT, if path in t && t[path].body.Hidden? then -(t[path].body.errno as int) else -2)
  {
    var keys := Ordered(conns.Keys);
    var r, s := AskEach(conns, keys, path, (ZERO_STAT, 0)), conns[keys[i]];
    AskEachNone(conns, keys, path, (ZERO_STAT, 0), i);
    AskMissing(s, path);
    UntaggedAsks(conns, path, r);
  }

  lemma UntaggedAsks(conns: Connections, path: FusePath, r: (Stat, I64))
    requires Split(path) == ([], path) && [] !in conns
    requires r == AskEach(conns, Ordered(conns.Keys), path, (ZERO_STAT, 0))
    ensures GetattrResult(conns, path) == (if r.1 >= 0 then r.0 else ZERO_STAT, r.1)
  {}

  lemma AskMissing(s: Server, path: CStr)
    requires !Present(s.tree, path)
    ensures AskAttr(s, path) ==
            (ZERO_STAT, if path in s.tree && s.tree[path].body.Hidden? then -(s.tree[path].body.errno as int) else -2)
  {
    Rpc.GetAttrIs(s.tree, path, UNEVENTFUL);
  }

  // ... and a zeroed success when none is connected.
  lemma GetattrDown(conns: Connections, path: FusePath)
    requires Split(path) == ([], path) && forall k :: k in conns ==> !conns[k].up
    ensures GetattrResult(conns, path) == (ZERO_STAT, 0)
  {
    AskEachDown(conns, Ordered(conns.Keys), path, (ZERO_STAT, 0));
  }

  // A tagged path gets what the server of its tag says about the path without it ...
  lemma GetattrTagged(conns: Connections, path: FusePath)
    requires var server := Split(path).0; server in conns && conns[server].up
    ensures var (server, file) := Split(path);
            var reply := LocalReply(conns[server].tree, GetAttr(file), UNEVENTFUL);
            GetattrResult(conns, path) == (reply.st, reply.e)
  {
    var (server, file) := Split(path);
    Rpc.GetAttrIs(conns[server].tree, file, UNEVENTFUL);
  }

  // ... and what all of them say when that one is not connected.
  lemma GetattrTagLost(conns: Connections, path: FusePath, file: FusePath)
    requires var server := Split(path).0; !(server in conns && conns[server].up)
    requires file == Split(path).1 && TagFree(file) && [] !in conns
    ensures GetattrResult(conns, path) == GetattrResult(conns, file)
  {
    NoTag(file);
  }

  // Access to a tagged path is granted by the server of its tag: when the path without it is there and the mask is not
  // denied. A connection that is down answers with its stale variable.
  lemma AccessTagged(conns: Connections, path: FusePath, mask: U32)
    requires Split(path).0 in conns
    ensures var (server, file) := Split(path);
            var s := conns[server];
            AccessResult(conns, path, mask) ==
            if !s.up then s.stale
            else if file in s.tree && !s.tree[file].body.Hidden? && (mask == 0 || mask !in s.tree[file].denied) then 0
            else -1
  {}

  lemma {:induction false} AccessEachIs(conns: Connections, keys: seq<Str>, path: CStr, mask: U32, sofar: I64)
    requires forall k :: k in keys ==> k in conns
    ensures (exists k :: k in keys && AskAccess(conns[k], path, mask) >= 0) ==>
              AccessEach(conns, keys, path, mask, sofar) >= 0
    ensures (forall k :: k in keys ==> AskAccess(conns[k], path, mask) < 0) ==>
              if keys == [] then AccessEach(conns, keys, path, mask, sofar) == sofar
              else AccessEach(conns, keys, path, mask, sofar) < 0
    decreases |keys|
  {
    if keys != [] {
      AccessEachIs(conns, keys[1..], path, mask, AskAccess(conns[keys[0]], path, mask));
      assert keys == [keys[0]] + keys[1..];
    }
  }

  // Access to an untagged path is granted exactly when some server grants it, or when there is no server at all.
  lemma AccessBroadcast(conns: Connections, path: FusePath, mask: U32)
    requires Split(path) == ([], path) && [] !in conns
    ensures AccessResult(conns, path, mask) >= 0 <==>
              conns == map[] || exists k :: k in conns && AskAccess(conns[k], path, mask) >= 0
  {
    var keys := Ordered(conns.Keys);
    AccessEachIs(conns, keys, path, mask, 0);
    if conns != map[] {
      var k :| k in conns;
      assert k in keys;
    } else {
      assert conns.Keys == {};
    }
  }

  // Listing a directory succeeds exactly when one of the servers asked succeeds.
  lemma {:induction false} ReportsStatus(conns: Connections, keys: seq<Str>, file: CStr)
    requires forall k :: k in keys ==> k in conns
    ensures Reports(conns, keys, file) != [] <==> exists k :: k in keys && AskListing(conns[k], file).1 >= 0
  {
    if keys != [] {
      var n := |keys| - 1;
      var init, last := keys[..n], keys[n];
      ReportsStatus(conns, init, file);
      if k :| k in init && AskListing(conns[k], file).1 >= 0 {
        assert k in keys;
      }
      if k :| k in keys && AskListing(conns[k], file).1 >= 0 {
        assert k == last || k in init;
      }
    }
  }

  // A server that is down answers with an empty listing, which counts as a success.
  lemma ReaddirStatus(conns: Connections, path: FusePath)
    ensures var (server, file) := Split(path);
            ReaddirResult(conns, path).1 ==
            if exists k :: k in conns && (server in conns ==> k == server)
                           && (!conns[k].up || (file in conns[k].tree && conns[k].tree[file].body.Dir?))
            then 0 else -20
  {
    var (server, file) := Split(path);
    ReportsStatus(conns, Queried(conns, path), file);
    forall k | k in conns
      ensures AskListing(conns[k], file).1 >= 0 <==>
                !conns[k].up || (file in conns[k].tree && conns[k].tree[file].body.Dir?)
    {}
    forall k ensures k in Queried(conns, path) <==> k in conns && (server in conns ==> k == server) {}
  }

  /* ---- What the servers report for one directory ---- */

  predicate IsName(n: Str) {
    n != [] && SLASH !in n && 0 !in n
  }

  predicate HasChild(t: Tree, d: Str, n: Str) {
    d in t && t[d].body.Dir? && n in t[d].body.children
  }

  // In directory d the listing and the paths agree: distinct names, each of which is a path that lstat finds, and no
  // such path without a name.
  ghost predicate Coherent(t: Tree, d: Str) {
    && (d in t && t[d].body.Dir? ==> forall i, j :: 0 <= i < j < |t[d].body.children| ==>
          t[d].body.children[i] != t[d].body.children[j])
    && (forall n :: HasChild(t, d, n) ==> IsName(n) && Present(t, Join(d, n)))
    && (forall n :: IsName(n) && Present(t, Join(d, n)) ==> HasChild(t, d, n))
  }

  function ChildStat(t: Tree, d: Str, n: Str): Stat {
    Carried(EntryStat(t, d, n))
  }

  // Server h is connected and has n in directory d ...
  predicate Child(conns: Connections, h: Str, d: Str, n: Str) {
    h in conns && conns[h].up && HasChild(conns[h].tree, d, n)
  }

  predicate FileAt(t: Tree, path: Str) {
    path in t && t[path].body.File?
  }

  predicate DirAt(t: Tree, path: Str) {
    path in t && t[path].body.Dir?
  }

  // ... as a file, with this stat ...
  ghost predicate ChildFile(conns: Connections, h: Str, d: Str, n: Str, st: Stat) {
    Child(conns, h, d, n) && st == ChildStat(conns[h].tree, d, n) && FileAt(conns[h].tree, Join(d, n))
  }

  // ... or as a directory.
  ghost predicate ChildDir(conns: Connections, h: Str, d: Str, n: Str) {
    Child(conns, h, d, n) && DirAt(conns[h].tree, Join(d, n))
  }

  // The index tells files and directories apart by the mode of their stat, and that is right.
  lemma KindShows(t: Tree, d: Str, n: Str)
    requires Present(t, Join(d, n))
    ensures IsDir(ChildStat(t, d, n)) <==> DirAt(t, Join(d, n))
    ensures DirMode(ChildStat(t, d, n).mode) <==> DirAt(t, Join(d, n))
    ensures FileAt(t, Join(d, n)) <==> !DirAt(t, Join(d, n))
  {}

  lemma ListingOf(s: Server, d: CStr)
    requires s.up ==> Coherent(s.tree, d)
    ensures AskListing(s, d).1 >= 0 <==> !s.up || (d in s.tree && s.tree[d].body.Dir?)
    ensures forall n, st :: (n, st) in AskListing(s, d).0 <==>
              s.up && HasChild(s.tree, d, n) && st == ChildStat(s.tree, d, n)
    ensures DistinctNames(AskListing(s, d).0)
  {
    if s.up && d in s.tree && s.tree[d].body.Dir? {
      var files, names := AskListing(s, d).0, s.tree[d].body.children;
      assert |files| == |names|;
      assert forall i :: 0 <= i < |files| ==> files[i] == (names[i], ChildStat(s.tree, d, names[i]));
      forall n, st | HasChild(s.tree, d, n) && st == ChildStat(s.tree, d, n) ensures (n, st) in files {
        var i :| 0 <= i < |names| && names[i] == n;
        assert files[i] == (n, st);
      }
    }
  }

  lemma {:induction false} ReportsHosts(conns: Connections, keys: seq<Str>, d: CStr)
    requires Ascending(keys) && forall k :: k in keys ==> k in conns
    ensures var ss := Reports(conns, keys, d);
            && (forall i :: 0 <= i < |ss| ==> ss[i].host in keys && ss[i].values == AskListing(conns[ss[i].host], d).0)
            && (forall k :: k in keys && AskListing(conns[k], d).1 >= 0 ==> Source(k, AskListing(conns[k], d).0) in ss)
            && DistinctHosts(ss)
  {
    if keys != [] {
      var n := |keys| - 1;
      var k, init := keys[n], keys[..n];
      LastIsNew(keys);
      ReportsHosts(conns, init, d);
      assert keys == init + [k];
    }
  }

  // A tag-free directory is asked of every server.
  lemma AskedOfAll(conns: Connections, d: FusePath)
    requires TagFree(d) && [] !in conns
    ensures Split(d) == ([], d)
    ensures ReaddirSources(conns, d) == Reports(conns, Ordered(conns.Keys), d)
  {}

  // The directory is coherent on every connected server.
  ghost predicate Consistent(conns: Connections, d: Str) {
    forall h :: h in conns && conns[h].up ==> Coherent(conns[h].tree, d)
  }

  lemma SourcesProper(conns: Connections, d: FusePath)
    requires TagFree(d) && [] !in conns && Consistent(conns, d)
    ensures Proper(ReaddirSources(conns, d))
  {
    AskedOfAll(conns, d);
    var ss := ReaddirSources(conns, d);
    ReportsHosts(conns, Ordered(conns.Keys), d);
    forall k | 0 <= k < |ss| ensures DistinctNames(ss[k].values) {
      ListingOf(conns[ss[k].host], d);
    }
  }

  lemma HeldIsChild(conns: Connections, d: FusePath, h: Str, n: Str, st: Stat)
    requires TagFree(d) && [] !in conns && Consistent(conns, d)
    requires HoldsFile(ReaddirSources(conns, d), h, n, st)
    ensures ChildFile(conns, h, d, n, st)
  {
    AskedOfAll(conns, d);
    var ss := ReaddirSources(conns, d);
    ReportsHosts(conns, Ordered(conns.Keys), d);
    var k :| 0 <= k < |ss| && ss[k].host == h && (n, st) in ss[k].values;
    ListingOf(conns[h], d);
    KindShows(conns[h].tree, d, n);
  }

  lemma HostReports(conns: Connections, d: FusePath, h: Str) returns (k: nat)
    requires TagFree(d) && [] !in conns && Consistent(conns, d) && h in conns && AskListing(conns[h], d).1 >= 0
    ensures k < |ReaddirSources(conns, d)| && ReaddirSources(conns, d)[k] == Source(h, AskListing(conns[h], d).0)
  {
    AskedOfAll(conns, d);
    ReportsHosts(conns, Ordered(conns.Keys), d);
    var ss, s := ReaddirSources(conns, d), Source(h, AskListing(conns[h], d).0);
    assert s in ss;
    k :| 0 <= k < |ss| && ss[k] == s;
  }

  lemma ChildIsHeld(conns: Connections, d: FusePath, h: Str, n: Str, st: Stat)
    requires TagFree(d) && [] !in conns && Consistent(conns, d) && ChildFile(conns, h, d, n, st)
    ensures HoldsFile(ReaddirSources(conns, d), h, n, st)
  {
    ListingOf(conns[h], d);
    KindShows(conns[h].tree, d, n);
    var k := HostReports(conns, d, h);
    assert (n, st) in ReaddirSources(conns, d)[k].values;
  }

  // The sources of the listing hold the files of the servers.
  lemma HeldAre(conns: Connections, d: FusePath, h: Str, n: Str, st: Stat)
    requires TagFree(d) && [] !in conns && Consistent(conns, d)
    ensures HoldsFile(ReaddirSources(conns, d), h, n, st) <==> ChildFile(conns, h, d, n, st)
  {
    if HoldsFile(ReaddirSources(conns, d), h, n, st) { HeldIsChild(conns, d, h, n, st); }
    if ChildFile(conns, h, d, n, st) { ChildIsHeld(conns, d, h, n, st); }
  }

  lemma {:induction false} LastDirIsDir(ss: seq<Source>, p: Str)
    ensures LastDir(ss, p).Some? ==> IsDir(LastDir(ss, p).value)
  {
    if ss != [] {
      LastDirInIsDir(ss[|ss| - 1].values, p);
      LastDirIsDir(ss[..|ss| - 1], p);
    }
  }

  lemma {:induction false} LastDirInIsDir(values: seq<Entry>, p: Str)
    ensures LastDirIn(values, p).Some? ==> IsDir(LastDirIn(values, p).value)
  {
    if values != [] {
      LastDirInIsDir(values[..|values| - 1], p);
    }
  }

  // At most one server has a file n in directory d.
  ghost predicate SoleFile(conns: Connections, d: Str, n: Str) {
    forall h, k, st, st' :: ChildFile(conns, h, d, n, st) && ChildFile(conns, k, d, n, st') ==> h == k
  }

  // The name under which file n of server h appears in the mounted directory d.
  ghost function MountedName(conns: Connections, d: Str, h: Str, n: Str): Str {
    if SoleFile(conns, d, n) then n else Tagged(n, h)
  }

  lemma SoleIsSole(conns: Connections, d: FusePath, n: Str)
    requires TagFree(d) && [] !in conns && Consistent(conns, d)
    ensures SoleFile(conns, d, n) <==> Sole(ReaddirSources(conns, d), n)
  {
    var ss := ReaddirSources(conns, d);
    forall k, st ensures HoldsFile(ss, k, n, st) <==> ChildFile(conns, k, d, n, st) {
      HeldAre(conns, d, k, n, st);
    }
  }

  lemma MountedNameIs(conns: Connections, d: FusePath, h: Str, n: Str)
    requires TagFree(d) && [] !in conns && Consistent(conns, d)
    ensures MountedName(conns, d, h, n) == ListedName(ReaddirSources(conns, d), h, n)
  {
    SoleIsSole(conns, d, n);
  }

  // Server j is the last one, in map order, that has n as a directory in d.
  ghost predicate LastDirAt(conns: Connections, d: Str, n: Str, j: nat) {
    var keys := Ordered(conns.Keys);
    && j < |keys| && ChildDir(conns, keys[j], d, n)
    && forall k :: j < k < |keys| ==> !ChildDir(conns, keys[k], d, n)
  }

  lemma LastDirExistsAt(conns: Connections, d: Str, n: Str, h: Str) returns (j: nat)
    requires ChildDir(conns, h, d, n)
    ensures LastDirAt(conns, d, n, j)
  {
    var keys := Ordered(conns.Keys);
    var i :| 0 <= i < |keys| && keys[i] == h;
    j := LastDirFrom(conns, keys, d, n, i);
  }

  lemma {:induction false} LastDirFrom(conns: Connections, keys: seq<Str>, d: Str, n: Str, i: nat) returns (j: nat)
    requires i < |keys| && ChildDir(conns, keys[i], d, n)
    ensures j < |keys| && ChildDir(conns, keys[j], d, n)
    ensures forall k :: j < k < |keys| ==> !ChildDir(conns, keys[k], d, n)
    decreases |keys| - i
  {
    if k :| i < k < |keys| && ChildDir(conns, keys[k], d, n) {
      j := LastDirFrom(conns, keys, d, n, k);
    } else {
      j := i;
    }
  }

  /* ---- Directories ---- */

  lemma {:induction false} LastDirInIs(values: seq<Entry>, n: Str, st: Stat)
    requires DistinctNames(values) && (n, st) in values && IsDir(st)
    ensures LastDirIn(values, n) == Some(st)
  {
    var m := |values| - 1;
    if values[m] != (n, st) {
      var i :| 0 <= i < |values| && values[i] == (n, st);
      assert values[..m][i] == (n, st);
      assert values[m].0 != n;
      LastDirInIs(values[..m], n, st);
    }
  }

  // One server's contribution.
  lemma LastDirOfServer(s: Server, d: CStr, n: Str)
    requires s.up ==> Coherent(s.tree, d)
    ensures LastDirIn(AskListing(s, d).0, n) ==
            if s.up && HasChild(s.tree, d, n) && IsDir(ChildStat(s.tree, d, n)) then Some(ChildStat(s.tree, d, n))
            else None
  {
    var values := AskListing(s, d).0;
    ListingOf(s, d);
    LastDirInExists(values, n);
    forall i | 0 <= i < |values| ensures (values[i].0, values[i].1) in values {}
    if s.up && HasChild(s.tree, d, n) && IsDir(ChildStat(s.tree, d, n)) {
      LastDirInIs(values, n, ChildStat(s.tree, d, n));
    }
  }

  lemma {:induction false} LastDirOfReports(conns: Connections, keys: seq<Str>, d: CStr, n: Str, j: nat)
    requires Consistent(conns, d) && (forall k :: k in keys ==> k in conns)
    requires j < |keys| && ChildDir(conns, keys[j], d, n)
    requires forall k :: j < k < |keys| ==> !ChildDir(conns, keys[k], d, n)
    ensures LastDir(Reports(conns, keys, d), n) == Some(ChildStat(conns[keys[j]].tree, d, n))
  {
    var m := |keys| - 1;
    var ss := Reports(conns, keys, d);
    LastDirOfServer(conns[keys[m]], d, n);
    if Child(conns, keys[m], d, n) { KindShows(conns[keys[m]].tree, d, n); }
    if j == m {
      ListingOf(conns[keys[m]], d);
      assert ss[|ss| - 1].values == AskListing(conns[keys[m]], d).0;
    } else {
      LastDirOfReports(conns, keys[..m], d, n, j);
      if AskListing(conns[keys[m]], d).1 >= 0 {
        assert ss[..|ss| - 1] == Reports(conns, keys[..m], d);
      } else {
        assert ss == Reports(conns, keys[..m], d);
      }
    }
  }

  lemma DirHasHost(conns: Connections, d: FusePath, n: Str)
    requires TagFree(d) && [] !in conns && Consistent(conns, d)
    requires LastDir(ReaddirSources(conns, d), n).Some?
    ensures exists k :: ChildDir(conns, k, d, n)
  {
    AskedOfAll(conns, d);
    var ss := ReaddirSources(conns, d);
    ReportsHosts(conns, Ordered(conns.Keys), d);
    LastDirExists(ss, n);
    var s :| s in ss && ReportsDir(s, n);
    var i :| 0 <= i < |s.values| && s.values[i].0 == n && IsDir(s.values[i].1);
    assert (n, s.values[i].1) in s.values;
    ListingOf(conns[s.host], d);
    KindShows(conns[s.host].tree, d, n);
    assert ChildDir(conns, s.host, d, n);
  }

  // What the mount lists as directory n is what the last server says that has one.
  lemma LastDirIs(conns: Connections, d: FusePath, n: Str, st: Stat)
    requires TagFree(d) && [] !in conns && Consistent(conns, d)
    ensures LastDir(ReaddirSources(conns, d), n) == Some(st) <==> ListsDir(conns, d, n, st)
  {
    AskedOfAll(conns, d);
    var keys := Ordered(conns.Keys);
    if LastDir(ReaddirSources(conns, d), n).Some? {
      DirHasHost(conns, d, n);
      var h :| ChildDir(conns, h, d, n);
      var j := LastDirExistsAt(conns, d, n, h);
      LastDirOfReports(conns, keys, d, n, j);
    }
    if j: nat :| LastDirAt(conns, d, n, j) && st == ChildStat(conns[keys[j]].tree, d, n) {
      LastDirOfReports(conns, keys, d, n, j);
    }
  }

  // The entry of a file of some connected server, and of a directory of some.
  ghost predicate ListsFile(conns: Connections, d: Str, e: Entry) {
    exists h, n :: ChildFile(conns, h, d, n, e.1) && e.0 == MountedName(conns, d, h, n)
  }

  ghost predicate ListsDir(conns: Connections, d: Str, n: Str, st: Stat) {
    exists j: nat :: LastDirAt(conns, d, n, j) && st == ChildStat(conns[Ordered(conns.Keys)[j]].tree, d, n)
  }

  // The mounted listing is the union of what the connected servers have: every file of every server, under its own name
  // when only that server has it and tagged otherwise; every directory once, with the stat of the last server that has
  // it; and nothing else.
  lemma UnionOfServers(conns: Connections, d: FusePath, e: Entry)
    requires TagFree(d) && [] !in conns && Consistent(conns, d)
    ensures e in ReaddirResult(conns, d).0 <==> ListsFile(conns, d, e) || ListsDir(conns, d, e.0, e.1)
  {
    var ss := ReaddirSources(conns, d);
    SourcesProper(conns, d);
    UnionListing(ss, e);
    LastDirIs(conns, d, e.0, e.1);
    if h, n :| HoldsFile(ss, h, n, e.1) && e.0 == ListedName(ss, h, n) {
      HeldAre(conns, d, h, n, e.1);
      MountedNameIs(conns, d, h, n);
    }
    if h, n :| ChildFile(conns, h, d, n, e.1) && e.0 == MountedName(conns, d, h, n) {
      HeldAre(conns, d, h, n, e.1);
      MountedNameIs(conns, d, h, n);
    }
  }

  // In particular, the directories listed are the directories of the servers.
  lemma DirectoriesOfServers(conns: Connections, d: FusePath, n: Str)
    requires TagFree(d) && [] !in conns && Consistent(conns, d)
    ensures (exists st: Stat :: DirMode(st.mode) && (n, st) in ReaddirResult(conns, d).0) <==>
              exists h :: ChildDir(conns, h, d, n)
  {
    if st: Stat :| DirMode(st.mode) && (n, st) in ReaddirResult(conns, d).0 {
      UnionOfServers(conns, d, (n, st));
    }
    if h :| ChildDir(conns, h, d, n) {
      var j := LastDirExistsAt(conns, d, n, h);
      var st := ChildStat(conns[Ordered(conns.Keys)[j]].tree, d, n);
      UnionOfServers(conns, d, (n, st));
      KindShows(conns[Ordered(conns.Keys)[j]].tree, d, n);
      assert DirMode(st.mode) && (n, st) in ReaddirResult(conns, d).0;
    }
  }

  // A tagged directory is asked of the server of its tag alone, and its names appear as they are.
  lemma ReaddirTagged(conns: Connections, path: FusePath, h: Str, d: CStr, e: Entry)
    requires Split(path) == (h, d) && h in conns && (conns[h].up ==> Coherent(conns[h].tree, d))
    ensures e in ReaddirResult(conns, path).0 <==> Child(conns, h, d, e.0) && e.1 == ChildStat(conns[h].tree, d, e.0)
  {
    var ss, values := ReaddirSources(conns, path), AskListing(conns[h], d).0;
    ListingOf(conns[h], d);
    assert Reports(conns, [h][..0], d) == [];
    assert ss == if AskListing(conns[h], d).1 >= 0 then [Source(h, values)] else [];
    UnionListing(ss, e);
    OneSource(ss, h, values, e);
  }

  lemma OneSource(ss: seq<Source>, h: Str, values: seq<Entry>, e: Entry)
    requires DistinctNames(values) && (ss == [Source(h, values)] || (ss == [] && values == []))
    ensures IsReported(ss, e) <==> e in values
  {
    forall k, p, st ensures HoldsFile(ss, k, p, st) <==> !IsDir(st) && k == h && (p, st) in values {
      if ss != [] && k == h && (p, st) in values { assert ss[0].host == h && (p, st) in ss[0].values; }
    }
    assert forall p :: Sole(ss, p);
    LastDirOf(ss, h, values, e);
    if e in values && !IsDir(e.1) {
      assert HoldsFile(ss, h, e.0, e.1) && e.0 == ListedName(ss, h, e.0);
    }
  }

  lemma LastDirOf(ss: seq<Source>, h: Str, values: seq<Entry>, e: Entry)
    requires DistinctNames(values) && (ss == [Source(h, values)] || (ss == [] && values == []))
    ensures LastDir(ss, e.0) == Some(e.1) <==> IsDir(e.1) && e in values
  {
    if ss != [] {
      assert ss[..0] == [];
      LastDirInExists(values, e.0);
      LastDirInIsDir(values, e.0);
      if LastDirIn(values, e.0).Some? {
        var i :| 0 <= i < |values| && values[i].0 == e.0 && IsDir(values[i].1);
        LastDirInIs(values, e.0, values[i].1);
      }
      if IsDir(e.1) && e in values { LastDirInIs(values, e.0, e.1); }
    }
  }

  /* ---- From a listed name back to its origin ---- */

  ghost predicate TagFreeNames(conns: Connections, d: Str) {
    forall h, n :: Child(conns, h, d, n) ==> TagFree(n)
  }

  ghost predicate AdmissibleHosts(conns: Connections) {
    forall h :: h in conns ==> h != [] && Taggable(h) && 0 !in h
  }

  lemma JoinTagFree(d: Str, n: Str)
    requires TagFree(d) && TagFree(n)
    ensures TagFree(Join(d, n))
  {
    var p := Join(d, n);
    forall i: nat | i <= |p| ensures !At(p, BEGIN_BRACE, i) && !At(p, END_BRACE, i) {
      AtBytes(p, OPEN_BRACE, COLON, i);
      AtBytes(p, COLON, CLOSE_BRACE, i);
      var cut := |p| - |n|;
      if i + 1 < |d| {
        TagFreeBytes(d, i);
      } else if cut <= i && i + 1 < |p| {
        TagFreeBytes(n, i - cut);
      }
    }
  }

  lemma JoinTagged(d: Str, n: Str, h: Str)
    ensures Join(d, Tagged(n, h)) == Tagged(Join(d, n), h)
  {}

  // On coherent servers a path below d is there exactly when the directory has the name.
  lemma HasIsChild(conns: Connections, d: FusePath, h: Str, n: Str)
    requires Consistent(conns, d) && h in conns && IsName(n)
    ensures Has(conns[h], Join(d, n)) <==> Child(conns, h, d, n)
  {}

  // The first server, in map order, that has n in directory d.
  ghost predicate FirstChild(conns: Connections, d: Str, n: Str, h: Str) {
    Child(conns, h, d, n) && forall k :: Child(conns, k, d, n) ==> k == h || Less(h, k)
  }

  lemma FirstChildIsFirst(conns: Connections, d: FusePath, n: Str, h: Str) returns (i: nat)
    requires Consistent(conns, d) && FirstChild(conns, d, n, h) && IsName(n)
    ensures FirstWith(conns, Ordered(conns.Keys), Join(d, n), i) && Ordered(conns.Keys)[i] == h
  {
    var keys := Ordered(conns.Keys);
    i :| 0 <= i < |keys| && keys[i] == h;
    HasIsChild(conns, d, h, n);
    forall j | 0 <= j < i ensures !Has(conns[keys[j]], Join(d, n)) {
      assert keys[j] in keys && Less(keys[j], keys[i]);
      HasIsChild(conns, d, keys[j], n);
      LessTrichotomy(keys[j], h);
    }
  }

  lemma FirstChildExists(conns: Connections, d: Str, n: Str, h: Str) returns (k: Str)
    requires Child(conns, h, d, n)
    ensures FirstChild(conns, d, n, k)
  {
    var s := set x | x in conns && Child(conns, x, d, n);
    assert h in s;
    k := Least(s);
    assert IsLeast(k, s);
  }

  // An untagged name below d gets the attributes its first server has for it.
  lemma UntaggedGetattr(conns: Connections, d: FusePath, n: Str, h: Str, path: FusePath)
    requires TagFree(d) && TagFree(n) && AdmissibleHosts(conns) && Consistent(conns, d)
    requires FirstChild(conns, d, n, h) && path == Join(d, n)
    ensures GetattrResult(conns, path) == (ChildStat(conns[h].tree, d, n), 0)
  {
    JoinTagFree(d, n);
    NoTag(path);
    var i := FirstChildIsFirst(conns, d, n, h);
    GetattrFirst(conns, path, i);
  }

  // No server but h has the name n in directory d.
  ghost predicate NobodyElse(conns: Connections, d: Str, n: Str, h: Str) {
    forall k :: Child(conns, k, d, n) ==> k == h
  }

  // It opens on the one server that has it, and not at all when there are several.
  lemma UntaggedOpen(conns: Connections, d: FusePath, n: Str, h: Str, path: FusePath, flags: U32)
    requires TagFree(d) && TagFree(n) && AdmissibleHosts(conns) && Consistent(conns, d) && AllUp(conns)
    requires Child(conns, h, d, n) && path == Join(d, n)
    ensures if NobodyElse(conns, d, n, h) then OpensOn(conns, h, path, flags, OpenResult(conns, path, flags))
            else OpenResult(conns, path, flags) == (None, -ENOENT)
  {
    JoinTagFree(d, n);
    NoTag(path);
    OpenBroadcast(conns, path, flags);
    forall k | k in conns ensures Exists(conns[k], path) <==> Child(conns, k, d, n) {
      HasIsChild(conns, d, k, n);
    }
    if NobodyElse(conns, d, n, h) {
      assert OnlyAt(conns, path, h);
    }
  }

  // A tagged name leads to the server of its tag, whatever others have.
  lemma TaggedLeadsBack(conns: Connections, d: FusePath, h: Str, n: Str, path: FusePath, flags: U32)
    requires TagFree(d) && AdmissibleHosts(conns) && Consistent(conns, d) && TagFree(n)
    requires Child(conns, h, d, n)
    requires path == Join(d, Tagged(n, h))
    ensures |Join(d, n)| < TWO_63 && 0 !in Join(d, n)
    ensures GetattrResult(conns, path) == (ChildStat(conns[h].tree, d, n), 0)
    ensures conns[h].up && OpensOn(conns, h, Join(d, n), flags, OpenResult(conns, path, flags))
  {
    JoinTagged(d, n, h);
    JoinTagFree(d, n);
    assert Tagged(Join(d, n), h) + [] == path && Join(d, n) + [] == Join(d, n);
    TagRoundTrip(Join(d, n), h, []);
    OpenTagged(conns, path, flags);
    GetattrTagged(conns, path);
  }

  // Beside the only server that has n as a file, the others that have it have it as a directory.
  lemma OthersAreDirectories(conns: Connections, d: Str, n: Str, h: Str, k: Str)
    requires Consistent(conns, d) && SoleFile(conns, d, n) && Child(conns, k, d, n) && k != h
    requires Child(conns, h, d, n) && FileAt(conns[h].tree, Join(d, n))
    ensures ChildDir(conns, k, d, n)
  {
    assert ChildFile(conns, h, d, n, ChildStat(conns[h].tree, d, n));
    assert !ChildFile(conns, k, d, n, ChildStat(conns[k].tree, d, n));
    KindShows(conns[k].tree, d, n);
  }

  // The untagged name of a file that only server h has leads to h exactly when no other server has the name.
  lemma SoleLeadsBack(conns: Connections, d: FusePath, h: Str, n: Str, path: FusePath, flags: U32)
    requires TagFree(d) && AdmissibleHosts(conns) && Consistent(conns, d) && AllUp(conns) && TagFree(n)
    requires Child(conns, h, d, n) && FileAt(conns[h].tree, Join(d, n)) && SoleFile(conns, d, n)
    requires path == Join(d, n)
    ensures if NobodyElse(conns, d, n, h) then OpensOn(conns, h, path, flags, OpenResult(conns, path, flags))
            else OpenResult(conns, path, flags) == (None, -ENOENT)
    ensures GetattrResult(conns, path) == (ChildStat(conns[h].tree, d, n), 0) <==> FirstChild(conns, d, n, h)
  {
    UntaggedOpen(conns, d, n, h, path, flags);
    var k := FirstChildExists(conns, d, n, h);
    UntaggedGetattr(conns, d, n, k, path);
    if k != h {
      OthersAreDirectories(conns, d, n, h, k);
      KindShows(conns[h].tree, d, n);
      KindShows(conns[k].tree, d, n);
      LessTrichotomy(h, k);
    }
  }

  // Every non-directory in the listing of a tag-free directory comes from a file of one server. Its listed name,
  // appended to the directory, leads back to that file: open goes to that server with the path the file has there if
  // and only if the name is tagged or no other server has it, as anything, and fails otherwise; getattr returns the
  // listed stat if and only if the name is tagged or that server is the first that has it.
  lemma ListedLeadsBack(conns: Connections, d: FusePath, e: Entry, path: FusePath, flags: U32) returns (h: Str, n: CStr)
    requires TagFree(d) && AdmissibleHosts(conns) && Consistent(conns, d) && AllUp(conns) && TagFreeNames(conns, d)
    requires e in ReaddirResult(conns, d).0 && !DirMode(e.1.mode)
    requires path == Join(d, e.0)
    ensures ChildFile(conns, h, d, n, e.1) && e.0 == MountedName(conns, d, h, n)
    ensures |Join(d, n)| < TWO_63 && 0 !in Join(d, n)
    ensures if !SoleFile(conns, d, n) || NobodyElse(conns, d, n, h)
            then OpensOn(conns, h, Join(d, n), flags, OpenResult(conns, path, flags))
            else OpenResult(conns, path, flags) == (None, -ENOENT)
    ensures GetattrResult(conns, path) == (e.1, 0) <==> !SoleFile(conns, d, n) || FirstChild(conns, d, n, h)
  {
    UnionOfServers(conns, d, e);
    if j: nat :| LastDirAt(conns, d, e.0, j) && e.1 == ChildStat(conns[Ordered(conns.Keys)[j]].tree, d, e.0) {
      KindShows(conns[Ordered(conns.Keys)[j]].tree, d, e.0);
    }
    var host, name :| ChildFile(conns, host, d, name, e.1) && e.0 == MountedName(conns, d, host, name);
    h := host;
    n := name;
    if SoleFile(conns, d, n) {
      SoleLeadsBack(conns, d, h, n, path, flags);
    } else {
      TaggedLeadsBack(conns, d, h, n, path, flags);
    }
  }

  /* ---- All names of a mounted directory ---- */

  // A name that is a directory on one server and the only file of that name on another.
  ghost predicate KindClash(conns: Connections, d: Str, n: Str) {
    SoleFile(conns, d, n) && (exists h, st :: ChildFile(conns, h, d, n, st)) && exists k :: ChildDir(conns, k, d, n)
  }

  // The entries of a mounted listing have different names if and only if no name clashes in kind.
  lemma MountedNamesDistinct(conns: Connections, d: FusePath)
    requires TagFree(d) && AdmissibleHosts(conns) && Consistent(conns, d) && TagFreeNames(conns, d)
    requires forall h, k, n :: h in conns && Child(conns, k, d, n) ==> Fits(n, h)
    ensures AllDistinct(Names(ReaddirResult(conns, d).0)) <==> forall n :: !KindClash(conns, d, n)
  {
    var ix := AddEach(EMPTY, ReaddirSources(conns, d));
    MountedIndex(conns, d);
    ListingInjective(ix);
    forall n ensures KindClash(conns, d, n) <==> n in ix.dirs && n in ix.files && |ix.files[n]| == 1 {
      MountedClash(conns, d, n);
    }
  }

  // The index behind the listing can be read back.
  lemma MountedIndex(conns: Connections, d: FusePath)
    requires TagFree(d) && AdmissibleHosts(conns) && Consistent(conns, d) && TagFreeNames(conns, d)
    requires forall h, k, n :: h in conns && Child(conns, k, d, n) ==> Fits(n, h)
    ensures Readable(AddEach(EMPTY, ReaddirSources(conns, d)))
  {
    var ss := ReaddirSources(conns, d);
    var ix := AddEach(EMPTY, ss);
    SourcesProper(conns, d);
    Merged(ss);
    forall p, i | p in ix.files && 0 <= i < |ix.files[p]|
      ensures var (h, st) := ix.files[p][i]; ChildFile(conns, h, d, p, st)
    {
      var (h, st) := ix.files[p][i];
      assert (h, st) in Holders(ix, p);
      HeldAre(conns, d, h, p, st);
    }
    forall p | p in ix.files ensures TagFree(p) && |p| < TWO_63 {
      var (h, st) := ix.files[p][0];
      assert ChildFile(conns, h, d, p, st);
    }
    forall p | p in ix.dirs ensures TagFree(p) && |p| < TWO_63 {
      DirHasHost(conns, d, p);
      var k :| ChildDir(conns, k, d, p);
    }
  }

  lemma MountedClash(conns: Connections, d: FusePath, n: Str)
    requires TagFree(d) && [] !in conns && Consistent(conns, d)
    ensures var ix := AddEach(EMPTY, ReaddirSources(conns, d));
            KindClash(conns, d, n) <==> n in ix.dirs && n in ix.files && |ix.files[n]| == 1
  {
    MountedFiles(conns, d, n);
    MountedDirs(conns, d, n);
  }

  // A file with one holder in the index is the only one of its name.
  lemma MountedFiles(conns: Connections, d: FusePath, n: Str)
    requires TagFree(d) && [] !in conns && Consistent(conns, d)
    ensures var ix := AddEach(EMPTY, ReaddirSources(conns, d));
            n in ix.files && |ix.files[n]| == 1 <==>
              SoleFile(conns, d, n) && exists h, st :: ChildFile(conns, h, d, n, st)
  {
    var ss := ReaddirSources(conns, d);
    SourcesProper(conns, d);
    Merged(ss);
    SoleIsSole(conns, d, n);
    IndexedFiles(conns, d, n);
    if n in AddEach(EMPTY, ss).files { SoleIffOne(AddEach(EMPTY, ss), ss, n); }
  }

  lemma IndexedFiles(conns: Connections, d: FusePath, n: Str)
    requires TagFree(d) && [] !in conns && Consistent(conns, d)
    ensures n in AddEach(EMPTY, ReaddirSources(conns, d)).files <==> exists h, st :: ChildFile(conns, h, d, n, st)
  {
    var ss := ReaddirSources(conns, d);
    var ix := AddEach(EMPTY, ss);
    SourcesProper(conns, d);
    Merged(ss);
    if n in ix.files {
      var (h, st) := ix.files[n][0];
      assert (h, st) in Holders(ix, n);
      HeldAre(conns, d, h, n, st);
    }
    if h, st :| ChildFile(conns, h, d, n, st) {
      HeldAre(conns, d, h, n, st);
      assert (h, st) in Holders(ix, n);
    }
  }

  lemma MountedDirs(conns: Connections, d: FusePath, n: Str)
    requires TagFree(d) && [] !in conns && Consistent(conns, d)
    ensures n in AddEach(EMPTY, ReaddirSources(conns, d)).dirs <==> exists k :: ChildDir(conns, k, d, n)
  {
    var ss := ReaddirSources(conns, d);
    SourcesProper(conns, d);
    Merged(ss);
    if LastDir(ss, n).Some? { DirHasHost(conns, d, n); }
    if k :| ChildDir(conns, k, d, n) {
      var j := LastDirExistsAt(conns, d, n, k);
      LastDirIs(conns, d, n, ChildStat(conns[Ordered(conns.Keys)[j]].tree, d, n));
    }
  }

  // A directory that several servers have is listed with the stat of the last of them, while getattr returns that of
  // the first server that has the name: the two agree exactly when these two stats do.
  lemma DirectoryStat(conns: Connections, d: FusePath, n: Str, path: FusePath, h: Str, j: nat)
    requires TagFree(d) && AdmissibleHosts(conns) && Consistent(conns, d) && TagFree(n) && path == Join(d, n)
    requires FirstChild(conns, d, n, h) && LastDirAt(conns, d, n, j)
    ensures var listed := ChildStat(conns[Ordered(conns.Keys)[j]].tree, d, n);
            && (n, listed) in ReaddirResult(conns, d).0
            && (GetattrResult(conns, path) == (listed, 0) <==> ChildStat(conns[h].tree, d, n) == listed)
  {
    UntaggedGetattr(conns, d, n, h, path);
    UnionOfServers(conns, d, (n, ChildStat(conns[Ordered(conns.Keys)[j]].tree, d, n)));
  }

  /* ---- A clash in kind ---- */

  const ROOT: FusePath := [SLASH]
  const X: CStr := [120]
  const DIR_STAT := ZERO_STAT.(mode := 0x41ED)
  const FILE_STAT := ZERO_STAT.(mode := 0x81A4)

  // A server with one name, x, in its root.
  function WithX(n: Node): Server {
    Server(map[ROOT := Inode(DIR_STAT, Dir([X]), map[], {}), Join(ROOT, X) := n], true, 0)
  }

  const FILE_X: Node := Inode(FILE_STAT, File([]), map[], {})
  const DIR_X: Node := Inode(DIR_STAT, Dir([]), map[], {})

  // Server "a" has x as a file, server "b" has it as a directory.
  const CLASHING: Connections := map[[97] := WithX(FILE_X), [98] := WithX(DIR_X)]

  lemma WithXCoherent(n: Node)
    requires !n.body.Hidden?
    ensures Coherent(WithX(n).tree, ROOT)
  {
    var t := WithX(n).tree;
    forall m | IsName(m) && Present(t, Join(ROOT, m)) ensures HasChild(t, ROOT, m) {
      assert Join(ROOT, m)[1..] == m;
      assert Join(ROOT, X)[1..] == X;
    }
  }

  lemma ClashingProper()
    ensures TagFree(ROOT) && TagFree(X) && AdmissibleHosts(CLASHING) && AllUp(CLASHING) && Consistent(CLASHING, ROOT)
    ensures forall h, n :: Child(CLASHING, h, ROOT, n) <==> h in CLASHING && n == X
  {
    WithXCoherent(FILE_X);
    WithXCoherent(DIR_X);
  }

  lemma ClashingKinds()
    ensures ChildFile(CLASHING, [97], ROOT, X, FILE_STAT) && ChildDir(CLASHING, [98], ROOT, X)
    ensures KindClash(CLASHING, ROOT, X)
  {
    ClashingProper();
    assert ChildFile(CLASHING, [97], ROOT, X, FILE_STAT) && ChildDir(CLASHING, [98], ROOT, X);
  }

  lemma ClashingHolders()
    ensures Child(CLASHING, [97], ROOT, X) && Child(CLASHING, [98], ROOT, X)
  {
    ClashingKinds();
  }

  // The file that "a" would open ...
  lemma FileXOpens(flags: U32)
    ensures AskOpen(WithX(FILE_X), Join(ROOT, X), flags) == 0
  {}

  // ... cannot be opened on the mount ...
  lemma ClashingOpen(flags: U32)
    ensures OpenResult(CLASHING, Join(ROOT, X), flags) == (None, -ENOENT)
  {
    ClashingProper();
    ClashingHolders();
    TwoHolders(CLASHING, ROOT, X, [97], [98], Join(ROOT, X), flags);
  }

  // A name that two servers have, as anything, does not open untagged.
  lemma TwoHolders(conns: Connections, d: FusePath, n: Str, h: Str, k: Str, path: FusePath, flags: U32)
    requires TagFree(d) && TagFree(n) && AdmissibleHosts(conns) && Consistent(conns, d) && AllUp(conns)
    requires Child(conns, h, d, n) && Child(conns, k, d, n) && h != k && path == Join(d, n)
    ensures OpenResult(conns, path, flags) == (None, -ENOENT)
  {
    UntaggedOpen(conns, d, n, h, path, flags);
  }

  // ... and the listing has two entries of the same name.
  lemma ClashingNames()
    ensures !AllDistinct(Names(ReaddirResult(CLASHING, ROOT).0))
  {
    ClashingProper();
    ClashingKinds();
    MountedNamesDistinct(CLASHING, ROOT);
  }

  /* ---- Handles ---- */

  // What is written through a handle, with full local writes, is read back through it.
  lemma WriteThenRead(conns: Connections, fh: Handle, buf: Content, offset: U64, o: Chance, o': Chance)
    requires Writes(conns, fh, buf, offset, o) && Full(o.pieces)
    requires OpensWith(conns, fh, O_RDONLY) == 0 && !o'.fails && Fetch(|buf|, o'.fetched) == |buf|
    ensures var (after, result) := WriteResult(conns, fh, buf, offset, o);
            result == |buf| && ReadResult(after, fh, |buf|, offset, o') == (buf, |buf|)
  {
    var t := conns[fh.server].tree;
    WholeIffFull(o.pieces, |buf|, Position(offset), buf);
    WriteThrough(conns, fh, buf, offset, o);
    Rpc.WriteThenRead(t, fh.file, offset, buf, o, o');
  }
}
