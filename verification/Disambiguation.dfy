/** src/disambiguater.cpp: the index of clashing file names. */
module Disambiguation {
  import opened Bytes
  import opened Wire
  import opened Disk
  import opened StdMap
  import opened Tags

  // S_ISDIR
  predicate IsDir(st: Stat) {
    st.mode / 4096 % 16 == 4
  }

  type Entry = (Str, Stat)

  // filemap_: path -> (server, stat) in order of arrival; directorymap_: path -> stat
  datatype Index = Index(files: map<Str, seq<Entry>>, dirs: map<Str, Stat>)

  const EMPTY := Index(map[], map[])

  function Holders(ix: Index, path: Str): seq<Entry> {
    if path in ix.files then ix.files[path] else []
  }

  predicate HasServer(es: seq<Entry>, server: Str) {
    exists i :: 0 <= i < |es| && es[i].0 == server
  }

  /* ---- What the operations do to an index ---- */

  function Add(ix: Index, value: Entry, server: Str): (Index, I64) {
    var (path, st) := value;
    if IsDir(st) then (ix.(dirs := ix.dirs[path := st]), 0)
    else if HasServer(Holders(ix, path), server) then (ix, -EEXIST)
    else (ix.(files := ix.files[path := Holders(ix, path) + [(server, st)]]), 0)
  }

  // Stops at the first duplicate.
  function AddAll(ix: Index, values: seq<Entry>, server: Str): (Index, I64)
    decreases |values|
  {
    if values == [] then (ix, 0)
    else
      var (ix', e) := Add(ix, values[0], server);
      if e < 0 then (ix', e) else AddAll(ix', values[1..], server)
  }

  // Values up to the first one that fails are added, and none after it.
  lemma {:induction false} AddAllStops(ix: Index, values: seq<Entry>, server: Str, i: nat)
    requires i < |values| && AddAll(ix, values[..i], server).1 == 0
    requires Add(AddAll(ix, values[..i], server).0, values[i], server).1 < 0
    ensures AddAll(ix, values, server) == (AddAll(ix, values[..i], server).0, -17)
    decreases |values|
  {
    if i > 0 {
      assert values[..i][1..] == values[1..][..i - 1];
      AddAllStops(Add(ix, values[0], server).0, values[1..], server, i - 1);
    }
  }

  // The listed form of one held file.
  function Listed(path: Str, es: seq<Entry>, i: nat): Entry
    requires i < |es|
  {
    (if |es| == 1 then path else Tagged(path, es[i].0), es[i].1)
  }

  function ListedAll(path: Str, es: seq<Entry>, n: nat): (r: seq<Entry>)
    requires n <= |es|
    ensures |r| == n
    ensures forall i :: 0 <= i < n ==> r[i] == Listed(path, es, i)
  {
    seq(n, i requires 0 <= i < n => Listed(path, es, i))
  }

  function ListFiles(keys: seq<Str>, files: map<Str, seq<Entry>>): seq<Entry>
    requires forall k :: k in keys ==> k in files
  {
    if keys == [] then []
    else
      var k := keys[|keys| - 1];
      ListFiles(keys[..|keys| - 1], files) + ListedAll(k, files[k], |files[k]|)
  }

  lemma OneKeyMore(keys: seq<Str>, i: nat, files: map<Str, seq<Entry>>)
    requires i < |keys| && forall k :: k in keys ==> k in files
    ensures var k := keys[i];
            ListFiles(keys[..i + 1], files) == ListFiles(keys[..i], files) + ListedAll(k, files[k], |files[k]|)
  {
    assert keys[..i + 1][..i] == keys[..i];
  }

  function ListDirs(keys: seq<Str>, dirs: map<Str, Stat>): (r: seq<Entry>)
    requires forall k :: k in keys ==> k in dirs
    ensures |r| == |keys|
    ensures forall i :: 0 <= i < |keys| ==> r[i] == (keys[i], dirs[keys[i]])
  {
    seq(|keys|, i requires 0 <= i < |keys| => (keys[i], dirs[keys[i]]))
  }

  // Files in key order, each with its holders in order of arrival, then directories in key order.
  function MergedListing(ix: Index): seq<Entry> {
    ListFiles(Ordered(ix.files.Keys), ix.files) + ListDirs(Ordered(ix.dirs.Keys), ix.dirs)
  }

  function Names(es: seq<Entry>): (r: seq<Str>)
    ensures |r| == |es|
    ensures forall i :: 0 <= i < |es| ==> r[i] == es[i].0
  {
    seq(|es|, i requires 0 <= i < |es| => es[i].0)
  }

  lemma NamesOfBoth(files: seq<Entry>, keys: seq<Str>, dirs: map<Str, Stat>)
    requires forall k :: k in keys ==> k in dirs
    ensures Names(files + ListDirs(keys, dirs)) == Names(files) + keys
  {}

  // Every vector is non-empty and names each server once.
  ghost predicate WellFormed(ix: Index) {
    forall p :: p in ix.files ==> ix.files[p] != [] && DistinctServers(ix.files[p])
  }

  ghost predicate DistinctServers(es: seq<Entry>) {
    forall i, j :: 0 <= i < j < |es| ==> es[i].0 != es[j].0
  }

  class Disambiguater {
    var filemap: map<Str, seq<Entry>>
    var directorymap: map<Str, Stat>

    constructor ()
      ensures Contents() == EMPTY
    {
      filemap, directorymap := map[], map[];
    }

    ghost function Contents(): Index
      reads this
    {
      Index(filemap, directorymap)
    }

    // filemap_[path] creates an empty vector when there is none.
    method AddFilepath(value: Entry, server: Str) returns (e: I64)
      requires WellFormed(Contents())
      modifies this
      ensures (Contents(), e) == Add(old(Contents()), value, server)
      ensures WellFormed(Contents())
      ensures DirMode(value.1.mode) ==>
                e == 0 && filemap == old(filemap) && directorymap == old(directorymap)[value.0 := value.1]
      ensures !DirMode(value.1.mode) ==>
                directorymap == old(directorymap) && (e == 0 <==> !HasServer(Holders(old(Contents()), value.0), server))
    {
      var (path, st) := value;
      if IsDir(st) {
        directorymap := directorymap[path := st];
        return 0;
      }
      if path !in filemap {
        filemap := filemap[path := []];
      }
      for i := 0 to |filemap[path]|
        invariant forall j :: 0 <= j < i ==> filemap[path][j].0 != server
      {
        if filemap[path][i].0 == server {
          return -EEXIST;
        }
      }
      filemap := filemap[path := filemap[path] + [(server, st)]];
      assert filemap == old(filemap)[path := Holders(old(Contents()), path) + [(server, st)]];
      return 0;
    }

    // The overload without a stat files the path under a zero stat, even if it is a directory.
    method AddPath(path: Str, server: Str) returns (e: I64)
      requires WellFormed(Contents())
      modifies this
      ensures (Contents(), e) == Add(old(Contents()), (path, ZERO_STAT), server)
      ensures WellFormed(Contents())
    {
      e := AddFilepath((path, ZERO_STAT), server);
    }

    method AddFilepaths(values: seq<Entry>, server: Str) returns (e: I64)
      requires WellFormed(Contents())
      modifies this
      ensures (Contents(), e) == AddAll(old(Contents()), values, server)
      ensures WellFormed(Contents())
    {
      e := 0;
      for i := 0 to |values|
        invariant WellFormed(Contents()) && e == 0
        invariant AddAll(old(Contents()), values, server) == AddAll(Contents(), values[i..], server)
      {
        assert values[i..][1..] == values[i + 1..];
        e := AddFilepath(values[i], server);
        if e < 0 {
          return;
        }
      }
    }

    method DisambiguatedFilepathsWithStats() returns (r: seq<Entry>)
      ensures r == MergedListing(Contents())
    {
      r := [];
      var fileKeys, dirKeys := Ordered(filemap.Keys), Ordered(directorymap.Keys);
      var files := WalkFiles(fileKeys, filemap);
      var dirs := WalkDirs(dirKeys, directorymap);
      r := files + dirs;
    }

    static method WalkFiles(keys: seq<Str>, files: map<Str, seq<Entry>>) returns (r: seq<Entry>)
      requires forall k :: k in keys ==> k in files
      ensures r == ListFiles(keys, files)
    {
      r := [];
      for i := 0 to |keys|
        invariant r == ListFiles(keys[..i], files)
      {
        var held := HeldWithStats(keys[i], files[keys[i]]);
        r := r + held;
        OneKeyMore(keys, i, files);
      }
      assert keys[..|keys|] == keys;
    }

    static method WalkDirs(keys: seq<Str>, dirs: map<Str, Stat>) returns (r: seq<Entry>)
      requires forall k :: k in keys ==> k in dirs
      ensures r == ListDirs(keys, dirs)
    {
      r := [];
      for i := 0 to |keys|
        invariant r == ListDirs(keys, dirs)[..i]
      {
        r := r + [(keys[i], dirs[keys[i]])];
      }
    }

    // One file: its own name when a single server holds it, a tagged name for each server otherwise.
    static method HeldWithStats(path: Str, servers: seq<Entry>) returns (r: seq<Entry>)
      ensures r == ListedAll(path, servers, |servers|)
    {
      if |servers| == 1 {
        return [(path, servers[0].1)];
      }
      r := [];
      for i := 0 to |servers|
        invariant r == ListedAll(path, servers, i)
      {
        var file := path + BEGIN_BRACE + servers[i].0 + END_BRACE;
        r := r + [(file, servers[i].1)];
      }
    }

    // The same walk without the stats.
    method DisambiguatedFilepaths() returns (r: seq<Str>)
      ensures r == Names(MergedListing(Contents()))
    {
      var fileKeys, dirKeys := Ordered(filemap.Keys), Ordered(directorymap.Keys);
      var files := WalkFileNames(fileKeys, filemap);
      var dirs := WalkDirNames(dirKeys);
      r := files + dirs;
      NamesOfBoth(ListFiles(fileKeys, filemap), dirKeys, directorymap);
    }

    static method WalkDirNames(keys: seq<Str>) returns (r: seq<Str>)
      ensures r == keys
    {
      r := [];
      for i := 0 to |keys|
        invariant r == keys[..i]
      {
        r := r + [keys[i]];
      }
    }

    static method WalkFileNames(keys: seq<Str>, files: map<Str, seq<Entry>>) returns (r: seq<Str>)
      requires forall k :: k in keys ==> k in files
      ensures r == Names(ListFiles(keys, files))
    {
      r := [];
      for i := 0 to |keys|
        invariant r == Names(ListFiles(keys[..i], files))
      {
        var held := Held(keys[i], files[keys[i]]);
        r := r + held;
        OneKeyMore(keys, i, files);
      }
      assert keys[..|keys|] == keys;
    }

    static method Held(path: Str, servers: seq<Entry>) returns (r: seq<Str>)
      ensures r == Names(ListedAll(path, servers, |servers|))
    {
      if |servers| == 1 {
        return [path];
      }
      r := [];
      for i := 0 to |servers|
        invariant r == Names(ListedAll(path, servers, i))
      {
        r := r + [path + BEGIN_BRACE + servers[i].0 + END_BRACE];
      }
    }

    method ClearPaths()
      modifies this
      ensures Contents() == EMPTY
    {
      filemap, directorymap := map[], map[];
    }
  }
}
