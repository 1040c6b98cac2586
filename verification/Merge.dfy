/** What the index and its listing contain: over all runs of its operations, and after merging several listings. */
module Merge {
  import opened Bytes
  import opened Wire
  import opened Disk
  import opened StdMap
  import opened Tags
  import opened Disambiguation

  /* ---- All runs of the index ---- */

  datatype Op = AddOp(value: Entry, server: Str) | ClearOp

  function Apply(ix: Index, op: Op): Index {
    match op
    case AddOp(value, server) => Add(ix, value, server).0
    case ClearOp => EMPTY
  }

  function AfterOps(ops: seq<Op>): Index {
    if ops == [] then EMPTY else Apply(AfterOps(ops[..|ops| - 1]), ops[|ops| - 1])
  }

  // The (path, server) pairs in the index.
  ghost function Pairs(ix: Index): set<(Str, Str)> {
    set p, i | p in ix.files && 0 <= i < |ix.files[p]| :: (p, ix.files[p][i].0)
  }

  // The pairs whose addition succeeded since the last clear.
  ghost function Recorded(ops: seq<Op>): set<(Str, Str)> {
    if ops == [] then {}
    else
      var before := ops[..|ops| - 1];
      match ops[|ops| - 1]
      case ClearOp => {}
      case AddOp(value, server) =>
        Recorded(before)
        + if !IsDir(value.1) && Add(AfterOps(before), value, server).1 == 0 then {(value.0, server)} else {}
  }

  lemma AddedPair(ix: Index, value: Entry, server: Str)
    requires WellFormed(ix)
    ensures var (ix', e) := Add(ix, value, server);
            && WellFormed(ix')
            && (e == 0 || e == -EEXIST)
            && (e == -EEXIST <==> !IsDir(value.1) && (value.0, server) in Pairs(ix))
            && Pairs(ix') == Pairs(ix) + if IsDir(value.1) || e != 0 then {} else {(value.0, server)}
  {
    var (path, st) := value;
    if !IsDir(st) {
      var es := Holders(ix, path);
      if HasServer(es, server) {
        var i :| 0 <= i < |es| && es[i].0 == server;
        assert (path, server) in Pairs(ix);
      } else {
        var ix' := Add(ix, value, server).0;
        assert ix'.files[path][|es|].0 == server;
        forall q | q in Pairs(ix) + {(path, server)} ensures q in Pairs(ix') {
          if q in Pairs(ix) {
            var p, i :| p in ix.files && 0 <= i < |ix.files[p]| && q == (p, ix.files[p][i].0);
            assert ix'.files[p][i] == ix.files[p][i];
          }
        }
      }
    }
  }

  // Index invariant: in every run the vectors are non-empty with distinct servers, and the index holds exactly the
  // pairs whose addition succeeded.
  lemma {:induction false} IndexInvariant(ops: seq<Op>)
    ensures WellFormed(AfterOps(ops)) && Pairs(AfterOps(ops)) == Recorded(ops)
  {
    if ops != [] {
      var before := ops[..|ops| - 1];
      IndexInvariant(before);
      match ops[|ops| - 1]
      case ClearOp =>
      case AddOp(value, server) => AddedPair(AfterOps(before), value, server);
    }
  }

  ghost function PairsOf(p: Str, es: seq<Entry>): set<(Str, Str)> {
    set i | 0 <= i < |es| :: (p, es[i].0)
  }

  lemma {:induction false} CountOne(p: Str, es: seq<Entry>)
    requires DistinctServers(es)
    ensures |PairsOf(p, es)| == |es|
  {
    if es != [] {
      var n := |es| - 1;
      CountOne(p, es[..n]);
      assert PairsOf(p, es) == PairsOf(p, es[..n]) + {(p, es[n].0)};
      assert (p, es[n].0) !in PairsOf(p, es[..n]);
    }
  }

  ghost function PairsIn(keys: seq<Str>, files: map<Str, seq<Entry>>): set<(Str, Str)>
    requires forall k :: k in keys ==> k in files
  {
    set k, i | k in keys && 0 <= i < |files[k]| :: (k, files[k][i].0)
  }

  lemma PairsSplit(keys: seq<Str>, files: map<Str, seq<Entry>>)
    requires keys != [] && keys[|keys| - 1] !in keys[..|keys| - 1] && forall j :: j in keys ==> j in files
    ensures var k, init := keys[|keys| - 1], keys[..|keys| - 1];
            && PairsIn(keys, files) == PairsIn(init, files) + PairsOf(k, files[k])
            && |PairsIn(keys, files)| == |PairsIn(init, files)| + |PairsOf(k, files[k])|
  {}

  lemma LastIsNew(keys: seq<Str>)
    requires Ascending(keys) && keys != []
    ensures keys[|keys| - 1] !in keys[..|keys| - 1] && Ascending(keys[..|keys| - 1])
  {
    var n := |keys| - 1;
    if keys[n] in keys[..n] {
      var j :| 0 <= j < n && keys[j] == keys[n];
      AscendingDistinct(keys, j, n);
    }
  }

  lemma {:induction false} CountAll(keys: seq<Str>, files: map<Str, seq<Entry>>)
    requires Ascending(keys) && forall k :: k in keys ==> k in files && DistinctServers(files[k])
    ensures |PairsIn(keys, files)| == |ListFiles(keys, files)|
  {
    if keys != [] {
      LastIsNew(keys);
      PairsSplit(keys, files);
      CountAll(keys[..|keys| - 1], files);
      CountOne(keys[|keys| - 1], files[keys[|keys| - 1]]);
    }
  }

  // The listing names a file once for every recorded pair, and every directory once.
  lemma ListingCount(ops: seq<Op>)
    ensures |MergedListing(AfterOps(ops))| == |Recorded(ops)| + |AfterOps(ops).dirs|
  {
    IndexInvariant(ops);
    var ix := AfterOps(ops);
    CountAll(Ordered(ix.files.Keys), ix.files);
    assert PairsIn(Ordered(ix.files.Keys), ix.files) == Pairs(ix);
  }

  /* ---- Merging the listings of several servers ---- */

  datatype Source = Source(host: Str, values: seq<Entry>)

  function AddEach(ix: Index, sources: seq<Source>): Index
    decreases |sources|
  {
    if sources == [] then ix
    else AddEach(AddAll(ix, sources[0].values, sources[0].host).0, sources[1..])
  }

  // host reports `path` as something other than a directory
  ghost predicate HoldsFile(ss: seq<Source>, host: Str, path: Str, st: Stat) {
    !IsDir(st) && exists k :: 0 <= k < |ss| && ss[k].host == host && (path, st) in ss[k].values
  }

  function LastDirIn(values: seq<Entry>, path: Str): Option<Stat> {
    if values == [] then None
    else
      var v := values[|values| - 1];
      if v.0 == path && IsDir(v.1) then Some(v.1) else LastDirIn(values[..|values| - 1], path)
  }

  // the stat of the last source that reports `path` as a directory
  function LastDir(ss: seq<Source>, path: Str): Option<Stat> {
    if ss == [] then None
    else
      var d := LastDirIn(ss[|ss| - 1].values, path);
      if d.Some? then d else LastDir(ss[..|ss| - 1], path)
  }

  ghost predicate DistinctNames(values: seq<Entry>) {
    forall i, j :: 0 <= i < j < |values| ==> values[i].0 != values[j].0
  }

  ghost predicate DistinctHosts(ss: seq<Source>) {
    forall i, j :: 0 <= i < j < |ss| ==> ss[i].host != ss[j].host
  }

  ghost predicate Proper(ss: seq<Source>) {
    DistinctHosts(ss) && forall k :: 0 <= k < |ss| ==> DistinctNames(ss[k].values)
  }

  // The index says of files and directories what the sources say.
  ghost predicate Represents(ix: Index, ss: seq<Source>) {
    && WellFormed(ix)
    && (forall p, h, st :: (h, st) in Holders(ix, p) <==> HoldsFile(ss, h, p, st))
    && (forall p :: LastDir(ss, p) == if p in ix.dirs then Some(ix.dirs[p]) else None)
  }

  lemma NewSource(ix: Index, ss: seq<Source>, host: Str)
    requires Represents(ix, ss)
    ensures Represents(ix, ss + [Source(host, [])])
  {
    var ss' := ss + [Source(host, [])];
    forall h, p, st ensures HoldsFile(ss', h, p, st) <==> HoldsFile(ss, h, p, st) {
      if HoldsFile(ss, h, p, st) {
        var k :| 0 <= k < |ss| && ss[k].host == h && (p, st) in ss[k].values;
        assert ss'[k] == ss[k];
      }
    }
    assert ss'[..|ss|] == ss;
  }

  lemma HoldsMore(ss: seq<Source>, host: Str, vs: seq<Entry>, v: Entry, h: Str, p: Str, st: Stat)
    ensures HoldsFile(ss + [Source(host, vs + [v])], h, p, st) <==>
            HoldsFile(ss + [Source(host, vs)], h, p, st) || (!IsDir(st) && h == host && v == (p, st))
  {
    var a, b := ss + [Source(host, vs)], ss + [Source(host, vs + [v])];
    if HoldsFile(a, h, p, st) {
      var k :| 0 <= k < |a| && a[k].host == h && (p, st) in a[k].values;
      assert b[k].host == h && (p, st) in b[k].values;
    }
    if !IsDir(st) && h == host && v == (p, st) {
      assert b[|ss|].host == h && (p, st) in b[|ss|].values;
    }
    if HoldsFile(b, h, p, st) && !(h == host && v == (p, st)) {
      var k :| 0 <= k < |b| && b[k].host == h && (p, st) in b[k].values;
      assert a[k].host == h && (p, st) in a[k].values;
    }
  }

  lemma NoClash(ix: Index, ss: seq<Source>, host: Str, vs: seq<Entry>, path: Str)
    requires Represents(ix, ss + [Source(host, vs)])
    requires forall k :: 0 <= k < |ss| ==> ss[k].host != host
    requires forall i :: 0 <= i < |vs| ==> vs[i].0 != path
    ensures !HasServer(Holders(ix, path), host)
  {}

  lemma OneValueMore(ix: Index, ss: seq<Source>, host: Str, vs: seq<Entry>, v: Entry)
    requires Represents(ix, ss + [Source(host, vs)])
    requires forall k :: 0 <= k < |ss| ==> ss[k].host != host
    requires forall i :: 0 <= i < |vs| ==> vs[i].0 != v.0
    ensures Add(ix, v, host).1 == 0 && Represents(Add(ix, v, host).0, ss + [Source(host, vs + [v])])
  {
    var (path, st) := v;
    var a, b := ss + [Source(host, vs)], ss + [Source(host, vs + [v])];
    var ix' := Add(ix, v, host).0;
    assert (vs + [v])[..|vs|] == vs && a[..|ss|] == ss == b[..|ss|];
    NoClash(ix, ss, host, vs, path);
    forall h, p, s ensures (h, s) in Holders(ix', p) <==> HoldsFile(b, h, p, s) {
      HoldsMore(ss, host, vs, v, h, p, s);
    }
    AddedPair(ix, v, host);
  }

  lemma {:induction false} OneSourceMore(ix: Index, ss: seq<Source>, host: Str, vs: seq<Entry>, rest: seq<Entry>)
    requires Represents(ix, ss + [Source(host, vs)])
    requires forall k :: 0 <= k < |ss| ==> ss[k].host != host
    requires DistinctNames(vs + rest)
    ensures AddAll(ix, rest, host).1 == 0
    ensures Represents(AddAll(ix, rest, host).0, ss + [Source(host, vs + rest)])
    decreases |rest|
  {
    if rest == [] {
      assert vs + rest == vs;
    } else {
      assert forall i :: 0 <= i < |vs| ==> (vs + rest)[i] == vs[i];
      assert (vs + rest)[|vs|] == rest[0];
      OneValueMore(ix, ss, host, vs, rest[0]);
      assert vs + [rest[0]] + rest[1..] == vs + rest;
      OneSourceMore(Add(ix, rest[0], host).0, ss, host, vs + [rest[0]], rest[1..]);
    }
  }

  lemma NextSource(done: seq<Source>, todo: seq<Source>)
    requires Proper(done + todo) && todo != []
    ensures (done + [todo[0]]) + todo[1..] == done + todo
    ensures DistinctNames(todo[0].values) && forall k :: 0 <= k < |done| ==> done[k].host != todo[0].host
  {
    var all := done + todo;
    assert all[|done|] == todo[0] && forall k :: 0 <= k < |done| ==> all[k] == done[k];
  }

  lemma {:induction false} EachRepresented(ix: Index, done: seq<Source>, todo: seq<Source>)
    requires Represents(ix, done) && Proper(done + todo)
    ensures Represents(AddEach(ix, todo), done + todo)
    decreases |todo|
  {
    if todo == [] {
      assert done + todo == done;
    } else {
      var s := todo[0];
      NextSource(done, todo);
      NewSource(ix, done, s.host);
      assert [] + s.values == s.values;
      OneSourceMore(ix, done, s.host, [], s.values);
      EachRepresented(AddAll(ix, s.values, s.host).0, done + [s], todo[1..]);
    }
  }

  // No addition fails, and the merged index represents all sources.
  lemma Merged(ss: seq<Source>)
    requires Proper(ss)
    ensures Represents(AddEach(EMPTY, ss), ss)
  {
    assert [] + ss == ss;
    EachRepresented(EMPTY, [], ss);
  }

  /* ---- What a merged listing contains ---- */

  lemma {:induction false} InListFiles(keys: seq<Str>, files: map<Str, seq<Entry>>, e: Entry)
    requires forall k :: k in keys ==> k in files
    ensures e in ListFiles(keys, files) <==>
            exists k, i :: k in keys && 0 <= i < |files[k]| && e == Listed(k, files[k], i)
  {
    if keys != [] {
      var n := |keys| - 1;
      var k := keys[n];
      InListFiles(keys[..n], files, e);
      var chunk := ListedAll(k, files[k], |files[k]|);
      assert keys == keys[..n] + [k];
      if e in chunk {
        var i :| 0 <= i < |chunk| && chunk[i] == e;
        assert e == Listed(k, files[k], i);
      }
      if j, i :| j in keys && 0 <= i < |files[j]| && e == Listed(j, files[j], i) {
        if j == k { assert chunk[i] == e; }
      }
    }
  }

  // An entry of the listing is a held file in its listed form, or a directory.
  lemma InListing(ix: Index, e: Entry)
    ensures e in MergedListing(ix) <==>
            || (exists k, i :: k in ix.files && 0 <= i < |ix.files[k]| && e == Listed(k, ix.files[k], i))
            || (e.0 in ix.dirs && e.1 == ix.dirs[e.0])
  {
    var keys, dirKeys := Ordered(ix.files.Keys), Ordered(ix.dirs.Keys);
    InListFiles(keys, ix.files, e);
    var dirs := ListDirs(dirKeys, ix.dirs);
    if e in dirs {
      var i :| 0 <= i < |dirs| && dirs[i] == e;
      assert dirKeys[i] in dirKeys;
    }
    if e.0 in ix.dirs && e.1 == ix.dirs[e.0] {
      var i :| 0 <= i < |dirKeys| && dirKeys[i] == e.0;
      assert dirs[i] == e;
    }
    if k, i :| k in ix.files && 0 <= i < |ix.files[k]| && e == Listed(k, ix.files[k], i) {
      assert k in keys;
    }
  }

  // Holder p of file k, for every entry of the files of a listing.
  datatype Slot = Slot(k: Str, p: nat)

  function Slots(keys: seq<Str>, files: map<Str, seq<Entry>>): (r: seq<Slot>)
    requires forall k :: k in keys ==> k in files
    ensures forall i :: 0 <= i < |r| ==> r[i].k in keys && r[i].p < |files[r[i].k]|
  {
    if keys == [] then []
    else
      var k := keys[|keys| - 1];
      var chunk := seq(|files[k]|, p requires 0 <= p < |files[k]| => Slot(k, p));
      Slots(keys[..|keys| - 1], files) + chunk
  }

  lemma {:induction false} SlotsList(keys: seq<Str>, files: map<Str, seq<Entry>>)
    requires forall k :: k in keys ==> k in files
    ensures |Slots(keys, files)| == |ListFiles(keys, files)|
    ensures forall i :: 0 <= i < |ListFiles(keys, files)| ==>
              var s := Slots(keys, files)[i]; ListFiles(keys, files)[i] == Listed(s.k, files[s.k], s.p)
  {
    if keys != [] {
      SlotsList(keys[..|keys| - 1], files);
    }
  }

  // By path, and then by the order in which the holders were added.
  predicate Earlier(a: Slot, b: Slot) {
    Less(a.k, b.k) || (a.k == b.k && a.p < b.p)
  }

  lemma {:induction false} SlotsOrdered(keys: seq<Str>, files: map<Str, seq<Entry>>, i: nat, j: nat)
    requires Ascending(keys) && (forall k :: k in keys ==> k in files) && i < j < |Slots(keys, files)|
    ensures Earlier(Slots(keys, files)[i], Slots(keys, files)[j])
  {
    var init, last := keys[..|keys| - 1], keys[|keys| - 1];
    var a := Slots(init, files);
    if j < |a| {
      SlotsOrdered(init, files, i, j);
    } else if i < |a| {
      var z :| 0 <= z < |init| && init[z] == a[i].k;
      assert Less(keys[z], last);
    }
  }

  // The number of files in a listing.
  function FileCount(ix: Index): (n: nat)
    ensures n + |ix.dirs| == |MergedListing(ix)|
  {
    assert |Ordered(ix.dirs.Keys)| == |ix.dirs|;
    |ListFiles(Ordered(ix.files.Keys), ix.files)|
  }

  // The order of a listing: first the files ...
  lemma FilesOrdered(ix: Index, i: nat, j: nat) returns (a: Slot, b: Slot)
    requires i < j < FileCount(ix)
    ensures a.k in ix.files && a.p < |ix.files[a.k]| && MergedListing(ix)[i] == Listed(a.k, ix.files[a.k], a.p)
    ensures b.k in ix.files && b.p < |ix.files[b.k]| && MergedListing(ix)[j] == Listed(b.k, ix.files[b.k], b.p)
    ensures Earlier(a, b)
  {
    var keys := Ordered(ix.files.Keys);
    SlotsList(keys, ix.files);
    SlotsOrdered(keys, ix.files, i, j);
    a, b := Slots(keys, ix.files)[i], Slots(keys, ix.files)[j];
    assert a.k in keys && b.k in keys;
  }

  // ... and then the directories by path.
  lemma DirsOrdered(ix: Index, i: nat, j: nat)
    requires FileCount(ix) <= i < j < |MergedListing(ix)|
    ensures var r := MergedListing(ix);
            r[i].0 in ix.dirs && r[i].1 == ix.dirs[r[i].0] && r[j].0 in ix.dirs && Less(r[i].0, r[j].0)
  {
    var dirKeys, n := Ordered(ix.dirs.Keys), FileCount(ix);
    assert dirKeys[i - n] in dirKeys && dirKeys[j - n] in dirKeys;
  }

  // Only one host holds this file.
  ghost predicate Sole(ss: seq<Source>, path: Str) {
    forall h, st, h', st' :: HoldsFile(ss, h, path, st) && HoldsFile(ss, h', path, st') ==> h == h'
  }

  lemma SoleIffOne(ix: Index, ss: seq<Source>, path: Str)
    requires Represents(ix, ss) && path in ix.files
    ensures |ix.files[path]| == 1 <==> Sole(ss, path)
  {
    var es := ix.files[path];
    assert es == Holders(ix, path);
    if |es| == 1 {
      forall h, st, h', st' | HoldsFile(ss, h, path, st) && HoldsFile(ss, h', path, st') ensures h == h' {
        assert (h, st) in es && (h', st') in es;
      }
    } else {
      assert es[0] in es && es[1] in es;
      assert HoldsFile(ss, es[0].0, path, es[0].1) && HoldsFile(ss, es[1].0, path, es[1].1);
    }
  }

  // The listed form of a file of a host, in terms of the sources alone.
  ghost function ListedName(ss: seq<Source>, host: Str, path: Str): Str {
    if Sole(ss, path) then path else Tagged(path, host)
  }

  ghost predicate IsReported(ss: seq<Source>, e: Entry) {
    || (exists h, path :: HoldsFile(ss, h, path, e.1) && e.0 == ListedName(ss, h, path))
    || LastDir(ss, e.0) == Some(e.1)
  }

  lemma ListedIsReported(ix: Index, ss: seq<Source>, k: Str, i: nat)
    requires Represents(ix, ss) && k in ix.files && i < |ix.files[k]|
    ensures IsReported(ss, Listed(k, ix.files[k], i))
  {
    SoleIffOne(ix, ss, k);
    var (h, st) := ix.files[k][i];
    assert (h, st) in Holders(ix, k);
    assert HoldsFile(ss, h, k, st) && Listed(k, ix.files[k], i).0 == ListedName(ss, h, k);
  }

  lemma ReportedIsListed(ix: Index, ss: seq<Source>, h: Str, path: Str, st: Stat)
    requires Represents(ix, ss) && HoldsFile(ss, h, path, st)
    ensures path in ix.files
    ensures exists i :: 0 <= i < |ix.files[path]| && (ListedName(ss, h, path), st) == Listed(path, ix.files[path], i)
  {
    assert (h, st) in Holders(ix, path);
    SoleIffOne(ix, ss, path);
    var es := ix.files[path];
    var i :| 0 <= i < |es| && es[i] == (h, st);
    assert (ListedName(ss, h, path), st) == Listed(path, es, i);
  }

  // The merged listing is the union: one entry for each host and file it reports, with the host's stat, one for each
  // directory with the stat of the last host that has it, and nothing else.
  lemma UnionListing(ss: seq<Source>, e: Entry)
    requires Proper(ss)
    ensures e in MergedListing(AddEach(EMPTY, ss)) <==> IsReported(ss, e)
  {
    var ix := AddEach(EMPTY, ss);
    Merged(ss);
    InListing(ix, e);
    if k, i :| k in ix.files && 0 <= i < |ix.files[k]| && e == Listed(k, ix.files[k], i) {
      ListedIsReported(ix, ss, k, i);
    }
    if h, path :| HoldsFile(ss, h, path, e.1) && e.0 == ListedName(ss, h, path) {
      ReportedIsListed(ix, ss, h, path, e.1);
    }
  }

  // The sources report the same, in whatever order.
  ghost predicate SameReports(ss: seq<Source>, ss': seq<Source>) {
    && (forall h, p, st :: HoldsFile(ss, h, p, st) <==> HoldsFile(ss', h, p, st))
    && (forall p :: LastDir(ss, p).Some? <==> LastDir(ss', p).Some?)
  }

  lemma {:induction false} LastDirInExists(values: seq<Entry>, p: Str)
    ensures LastDirIn(values, p).Some? <==> exists i :: 0 <= i < |values| && values[i].0 == p && IsDir(values[i].1)
  {
    if values != [] {
      LastDirInExists(values[..|values| - 1], p);
    }
  }

  ghost predicate ReportsDir(s: Source, p: Str) {
    exists i :: 0 <= i < |s.values| && s.values[i].0 == p && IsDir(s.values[i].1)
  }

  lemma {:induction false} LastDirExists(ss: seq<Source>, p: Str)
    ensures LastDir(ss, p).Some? <==> exists s :: s in ss && ReportsDir(s, p)
  {
    if ss != [] {
      var n := |ss| - 1;
      LastDirInExists(ss[n].values, p);
      LastDirExists(ss[..n], p);
      assert ss == ss[..n] + [ss[n]];
      assert ReportsDir(ss[n], p) ==> ss[n] in ss;
      if LastDir(ss[..n], p).Some? {
        var s :| s in ss[..n] && ReportsDir(s, p);
        assert s in ss;
      }
    }
  }

  // Asking the same servers in another order is such a case.
  lemma PermutedReports(ss: seq<Source>, ss': seq<Source>)
    requires forall s :: s in ss <==> s in ss'
    ensures SameReports(ss, ss')
  {
    forall h, p, st ensures HoldsFile(ss, h, p, st) <==> HoldsFile(ss', h, p, st) {
      if HoldsFile(ss, h, p, st) {
        var k :| 0 <= k < |ss| && ss[k].host == h && (p, st) in ss[k].values;
        assert ss[k] in ss';
      }
      if HoldsFile(ss', h, p, st) {
        var k :| 0 <= k < |ss'| && ss'[k].host == h && (p, st) in ss'[k].values;
        assert ss'[k] in ss;
      }
    }
    forall p ensures LastDir(ss, p).Some? <==> LastDir(ss', p).Some? {
      LastDirExists(ss, p);
      LastDirExists(ss', p);
    }
  }

  lemma ReportedAlike(ss: seq<Source>, ss': seq<Source>, e: Entry) returns (e': Entry)
    requires SameReports(ss, ss') && IsReported(ss, e)
    ensures e'.0 == e.0 && IsReported(ss', e')
  {
    e' := e;
    if h, path :| HoldsFile(ss, h, path, e.1) && e.0 == ListedName(ss, h, path) {
      assert Sole(ss, path) == Sole(ss', path);
      assert HoldsFile(ss', h, path, e.1) && e.0 == ListedName(ss', h, path);
    } else {
      e' := (e.0, LastDir(ss', e.0).value);
    }
  }

  // The names do not depend on the order in which servers were asked or directories were read.
  lemma OrderIndependence(ss: seq<Source>, ss': seq<Source>, name: Str)
    requires Proper(ss) && Proper(ss') && SameReports(ss, ss')
    requires name in Names(MergedListing(AddEach(EMPTY, ss)))
    ensures name in Names(MergedListing(AddEach(EMPTY, ss')))
  {
    var r, r' := MergedListing(AddEach(EMPTY, ss)), MergedListing(AddEach(EMPTY, ss'));
    var i :| 0 <= i < |r| && Names(r)[i] == name;
    assert r[i] in r;
    UnionListing(ss, r[i]);
    var e' := ReportedAlike(ss, ss', r[i]);
    UnionListing(ss', e');
    var j :| 0 <= j < |r'| && r'[j] == e';
    assert Names(r')[j] == name;
  }

  /* ---- Listed names are distinct ---- */

  predicate Fits(path: Str, server: Str) {
    |path| + |server| < TWO_63 - 4
  }

  // Names and hosts under which a listing can be read back.
  ghost predicate Readable(ix: Index) {
    && WellFormed(ix)
    && (forall p :: p in ix.files ==> TagFree(p) && |p| < TWO_63)
    && (forall p, i :: p in ix.files && 0 <= i < |ix.files[p]| ==>
          ix.files[p][i].0 != [] && Taggable(ix.files[p][i].0) && Fits(p, ix.files[p][i].0))
    && (forall p :: p in ix.dirs ==> TagFree(p) && |p| < TWO_63)
  }

  lemma ReadBack(path: Str, es: seq<Entry>, i: nat)
    requires i < |es| && TagFree(path) && Taggable(es[i].0) && Fits(path, es[i].0)
    ensures |Listed(path, es, i).0| < TWO_63
    ensures Ambiguate(Listed(path, es, i).0) == (if |es| == 1 then [] else es[i].0, path)
  {
    if |es| == 1 {
      NoTag(path);
    } else {
      var t := Tagged(path, es[i].0);
      assert t + [] == t && path + [] == path;
      TagRoundTrip(path, es[i].0, []);
    }
  }

  // Every name in the part of the listing made from these keys reads back to one of them.
  lemma ReadBackKey(keys: seq<Str>, ix: Index, e: Entry)
    requires Readable(ix) && (forall k :: k in keys ==> k in ix.files) && e in ListFiles(keys, ix.files)
    ensures |e.0| < TWO_63 && Ambiguate(e.0).1 in keys
  {
    InListFiles(keys, ix.files, e);
    var k, i :| k in keys && 0 <= i < |ix.files[k]| && e == Listed(k, ix.files[k], i);
    ReadBack(k, ix.files[k], i);
  }

  ghost predicate AllDistinct(names: seq<Str>) {
    forall i, j :: 0 <= i < j < |names| ==> names[i] != names[j]
  }

  lemma ChunkDistinct(k: Str, ix: Index)
    requires Readable(ix) && k in ix.files
    ensures AllDistinct(Names(ListedAll(k, ix.files[k], |ix.files[k]|)))
  {
    var es := ix.files[k];
    forall i, j | 0 <= i < j < |es| ensures Listed(k, es, i).0 != Listed(k, es, j).0 {
      ReadBack(k, es, i);
      ReadBack(k, es, j);
    }
  }

  lemma ConcatDistinct(a: seq<Entry>, b: seq<Entry>)
    requires AllDistinct(Names(a)) && AllDistinct(Names(b))
    requires forall x, y :: x in a && y in b ==> x.0 != y.0
    ensures AllDistinct(Names(a + b))
  {}

  lemma {:induction false} FilesDistinct(keys: seq<Str>, ix: Index)
    requires Readable(ix) && Ascending(keys) && forall k :: k in keys ==> k in ix.files
    ensures AllDistinct(Names(ListFiles(keys, ix.files)))
  {
    if keys != [] {
      var n := |keys| - 1;
      var k, init := keys[n], keys[..n];
      FilesDistinct(init, ix);
      ChunkDistinct(k, ix);
      var es := ix.files[k];
      var a, b := ListFiles(init, ix.files), ListedAll(k, es, |es|);
      forall x, y | x in a && y in b ensures x.0 != y.0 {
        ReadBackKey(init, ix, x);
        var i :| 0 <= i < |b| && b[i] == y;
        ReadBack(k, es, i);
        if k in init {
          var j :| 0 <= j < n && keys[j] == k;
          AscendingDistinct(keys, j, n);
        }
      }
      ConcatDistinct(a, b);
    }
  }

  // A listed name without a tag is that of a file with one holder.
  lemma UntaggedKey(keys: seq<Str>, ix: Index, e: Entry)
    requires Readable(ix) && (forall k :: k in keys ==> k in ix.files) && e in ListFiles(keys, ix.files) && TagFree(e.0)
    ensures e.0 in ix.files && |ix.files[e.0]| == 1
  {
    InListFiles(keys, ix.files, e);
    var k, i :| k in keys && 0 <= i < |ix.files[k]| && e == Listed(k, ix.files[k], i);
    ReadBack(k, ix.files[k], i);
    NoTag(e.0);
  }

  // No name is that of a directory and of a file with one holder.
  ghost predicate NoSharedName(ix: Index) {
    forall p :: p in ix.dirs && p in ix.files ==> |ix.files[p]| != 1
  }

  // The entries of a listing have different names if and only if no name is shared that way.
  lemma ListingInjective(ix: Index)
    requires Readable(ix)
    ensures AllDistinct(Names(MergedListing(ix))) <==> NoSharedName(ix)
  {
    var keys, dirKeys := Ordered(ix.files.Keys), Ordered(ix.dirs.Keys);
    var a, b := ListFiles(keys, ix.files), ListDirs(dirKeys, ix.dirs);
    if NoSharedName(ix) {
      FilesDistinct(keys, ix);
      forall i, j | 0 <= i < j < |b| ensures Names(b)[i] != Names(b)[j] {
        LessTrichotomy(dirKeys[i], dirKeys[j]);
      }
      forall x, y | x in a && y in b ensures x.0 != y.0 {
        var j :| 0 <= j < |b| && b[j] == y;
        assert dirKeys[j] in dirKeys;
        if x.0 == y.0 { UntaggedKey(keys, ix, x); }
      }
      ConcatDistinct(a, b);
    } else {
      var p :| p in ix.dirs && p in ix.files && |ix.files[p]| == 1;
      SharedName(ix, p);
    }
  }

  lemma SharedName(ix: Index, p: Str)
    requires p in ix.dirs && p in ix.files && |ix.files[p]| == 1
    ensures !AllDistinct(Names(MergedListing(ix)))
  {
    var keys, dirKeys := Ordered(ix.files.Keys), Ordered(ix.dirs.Keys);
    var a, b := ListFiles(keys, ix.files), ListDirs(dirKeys, ix.dirs);
    var x := Listed(p, ix.files[p], 0);
    assert p in keys && p in dirKeys;
    InListFiles(keys, ix.files, x);
    var i :| 0 <= i < |a| && a[i] == x;
    var j :| 0 <= j < |dirKeys| && dirKeys[j] == p;
    SameNames(a, b, i, j);
  }

  lemma SameNames(a: seq<Entry>, b: seq<Entry>, i: nat, j: nat)
    requires i < |a| && j < |b| && a[i].0 == b[j].0
    ensures !AllDistinct(Names(a + b))
  {
    assert Names(a + b)[i] == Names(a + b)[|a| + j];
  }
}
