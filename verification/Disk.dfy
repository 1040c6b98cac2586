/**
 * The local file operations a server performs for its client, on a tree of files and directories.
 * A tree maps the path a client names (relative to the mount point) to a node.
 */
module Disk {
  import opened Bytes
  import opened Wire

  // errno values; every local call that fails sets one of them
  type Errno = n: int | 0 < n < 4096 witness 1
  const ENOENT: I64 := 2
  const EEXIST: I64 := 17
  const ENOTDIR: I64 := 20
  const EISDIR: I64 := 21

  const O_RDONLY: U32 := 0
  const O_WRONLY: U32 := 1
  const F_OK: U32 := 0

  type Content = s: Str | |s| < TWO_63
  // A name or path as the operating system hands it over: a C string.
  type CStr = s: Str | |s| < TWO_63 && 0 !in s
  type Children = s: seq<CStr> | |s| < TWO_63

  // Hidden: a path at which lstat fails, as below a directory that cannot be searched.
  datatype Body = File(data: Content) | Dir(children: Children) | Hidden(errno: Errno)

  // S_IFDIR in the type bits of a mode
  predicate DirMode(mode: U32) {
    mode / 0x1000 % 0x10 == 4
  }

  // 040755 is the mode of a directory; 0100644 (a regular file), 0120777, 020600 and 060600 are not.
  lemma Modes()
    ensures DirMode(0x41ED)
    ensures !DirMode(0x81A4) && !DirMode(0xA1FF) && !DirMode(0x2180) && !DirMode(0x6180)
  {}

  // `refused` holds the open flags the operating system rejects for this node, `denied` the access masks.
  datatype Inode = Inode(attr: Stat, body: Body, refused: map<U32, Errno>, denied: set<U32>)

  // The mode of a node says whether it is a directory.
  type Node = n: Inode | n.body.Hidden? || (n.body.Dir? <==> DirMode(n.attr.mode))
    witness Inode(ZERO_STAT, Hidden(1), map[], {})

  type Tree = map<Str, Node>

  const SLASH: Byte := 47

  // boost's operator/= and FUSE agree on this for the paths used here: one separator between directory and name
  function Join(dir: Str, name: Str): Str {
    if dir == [SLASH] then dir + name else dir + [SLASH] + name
  }

  function StatOf(n: Node): Stat {
    if n.body.File? then n.attr.(size := |n.body.data|) else n.attr
  }

  // lstat finds the path.
  predicate Present(t: Tree, path: Str) {
    path in t && !t[path].body.Hidden?
  }

  // The errno with which lstat and open fail on a path they do not find.
  function Missing(t: Tree, path: Str): Errno
    requires !Present(t, path)
  {
    if path in t then t[path].body.errno else ENOENT as int
  }

  function Lstat(t: Tree, path: Str): (Stat, I64) {
    if Present(t, path) then (StatOf(t[path]), 0) else (ZERO_STAT, -(Missing(t, path) as int))
  }

  // lstat gives the attributes of a node, with the length of a file as its size, or the errno: 2 where nothing is.
  lemma LstatIs(t: Tree, path: Str)
    ensures path !in t ==> Lstat(t, path) == (ZERO_STAT, -2)
    ensures path in t ==>
              match t[path].body
              case File(data) => Lstat(t, path) == (t[path].attr.(size := |data|), 0)
              case Dir(_) => Lstat(t, path) == (t[path].attr, 0)
              case Hidden(errno) => Lstat(t, path) == (ZERO_STAT, -(errno as int))
  {}

  // access(2): the raw result, 0 or -1, not an errno
  function Access(t: Tree, path: Str, mask: U32): I64 {
    if Present(t, path) && (mask == F_OK || mask !in t[path].denied) then 0 else -1
  }

  function OpenStatus(t: Tree, path: Str, flags: U32): I64 {
    if !Present(t, path) then -(Missing(t, path) as int)
    else if t[path].body.Dir? && flags % 4 != O_RDONLY then -EISDIR
    else if flags in t[path].refused then -(t[path].refused[flags] as int)
    else 0
  }

  // access grants a path that is there unless the mask is denied; mask 0 asks only whether it is there.
  lemma AccessIs(t: Tree, path: Str, mask: U32)
    ensures path in t && !t[path].body.Hidden? && (mask == 0 || mask !in t[path].denied) ==> Access(t, path, mask) == 0
    ensures path !in t || t[path].body.Hidden? || (mask != 0 && mask in t[path].denied) ==> Access(t, path, mask) == -1
  {}

  // open fails with the errno of the path, with EISDIR (21) for anything but reading a directory, or as it is refused.
  lemma OpenIs(t: Tree, path: Str, flags: U32)
    ensures path !in t ==> OpenStatus(t, path, flags) == -2
    ensures path in t ==>
              match t[path].body
              case Hidden(errno) => OpenStatus(t, path, flags) == -(errno as int)
              case Dir(_) => flags % 4 != 0 ==> OpenStatus(t, path, flags) == -21
              case File(_) => true
    ensures path in t && !t[path].body.Hidden? && (t[path].body.File? || flags % 4 == 0) ==>
              OpenStatus(t, path, flags) == if flags in t[path].refused then -(t[path].refused[flags] as int) else 0
  {}

  // lstat of one directory entry; the buffer stays zero when it fails
  function EntryStat(t: Tree, dir: Str, name: Str): Stat {
    Lstat(t, Join(dir, name)).0
  }

  function Entries(t: Tree, dir: Str, names: seq<CStr>): (r: seq<(CStr, Stat)>)
    ensures |r| == |names|
    ensures forall i :: 0 <= i < |r| ==> r[i] == (names[i], EntryStat(t, dir, names[i]))
  {
    seq(|names|, i requires 0 <= i < |names| => (names[i], EntryStat(t, dir, names[i])))
  }

  // A path that does not exist is not a directory either, and the second test overwrites the error of the first.
  function Listing(t: Tree, path: Str): (seq<(CStr, Stat)>, I64) {
    if path in t && t[path].body.Dir? then (Entries(t, path, t[path].body.children), 0) else ([], -ENOTDIR)
  }

  // What opendir(3) would report.
  function OpendirStatus(t: Tree, path: Str): I64 {
    if !Present(t, path) then -(Missing(t, path) as int) else if t[path].body.Dir? then 0 else -ENOTDIR
  }

  // The error of a READDIR is the expected one unless the path is missing for another reason than ENOTDIR, in which
  // case ENOTDIR hides that reason.
  lemma ListingError(t: Tree, path: Str)
    ensures Listing(t, path).1 == OpendirStatus(t, path) <==> Present(t, path) || Missing(t, path) == ENOTDIR
    ensures Listing(t, path).1 == if path in t && t[path].body.Dir? then 0 else -20
  {}

  // lseek to an offset with the top bit set fails; the result is ignored and the position stays 0.
  function Position(offset: U64): (pos: nat)
    ensures pos < TWO_63
  {
    if offset < TWO_63 then offset else 0
  }

  function Slice(data: Str, pos: nat, size: nat): (r: Str)
    ensures |r| <= size && |r| <= |data|
  {
    data[Min(pos, |data|)..Min(pos + size, |data|)]
  }

  // open, lseek and the read loop. A read(2) that fails, as it always does on a directory, leaves its raw -1; `fails`
  // says that one does in a file.
  function Read(t: Tree, path: Str, size: U64, offset: U64, fails: bool): (Content, I64) {
    var e := OpenStatus(t, path, O_RDONLY);
    if e < 0 then ([], e)
    else if t[path].body.Dir? || fails then ([], if size == 0 then 0 else -1)
    else
      var d: Content := Slice(t[path].body.data, Position(offset), size);
      (d, |d|)
  }

  // The path of a name in a directory, and in the root.
  lemma JoinIs(dir: Str, name: Str)
    ensures Join([47], name) == [47] + name
    ensures dir != [47] ==> Join(dir, name) == dir + [47] + name
  {}

  // write(2) at a position: overwrites, extends, and fills a gap with zeros; no bytes, no effect
  function Splice(data: Str, pos: nat, bs: Str): (r: Str)
    ensures bs == [] ==> r == data
    ensures bs != [] ==> |r| == if pos + |bs| > |data| then pos + |bs| else |data|
  {
    if bs == [] then data
    else
      (if pos <= |data| then data[..pos] else data + Zeros(pos - |data|))
      + bs
      + (if pos + |bs| <= |data| then data[pos + |bs|..] else [])
  }

  predicate Writable(t: Tree, path: Str, pos: nat, n: nat) {
    path in t && t[path].body.File? && pos + n < TWO_63
  }

  // No file reaches 2^63 bytes; what would lie beyond is not written.
  function Fitting(pos: nat, bs: Str): (r: Str)
    ensures r <= bs && (r != [] ==> pos + |r| < TWO_63)
    ensures pos + |bs| < TWO_63 ==> r == bs
  {
    if pos + |bs| < TWO_63 then bs else if pos < TWO_63 then bs[..TWO_63 - 1 - pos] else []
  }

  function WriteAt(t: Tree, path: Str, pos: nat, bs: Str): Tree {
    if path in t && t[path].body.File? then
      t[path := t[path].(body := File(Splice(t[path].body.data, pos, Fitting(pos, bs))))]
    else t
  }

  /* ---- Properties of the splice ---- */

  // Byte i of a spliced file: the buffer inside the range, the old byte or zero outside it.
  lemma SpliceAt(data: Str, pos: nat, bs: Str, i: nat)
    requires bs != [] && i < |Splice(data, pos, bs)|
    ensures Splice(data, pos, bs)[i] ==
            if pos <= i < pos + |bs| then bs[i - pos] else if i < |data| then data[i] else 0
  {}

  // Two consecutive chunks write what one write of both would have written.
  lemma SpliceChunks(data: Str, pos: nat, a: Str, b: Str)
    ensures Splice(Splice(data, pos, a), pos + |a|, b) == Splice(data, pos, a + b)
  {}

  lemma WriteChunks(t: Tree, path: Str, pos: nat, a: Str, b: Str)
    ensures WriteAt(WriteAt(t, path, pos, a), path, pos + |a|, b) == WriteAt(t, path, pos, a + b)
    ensures Writable(t, path, pos, |a| + |b|) ==> Writable(WriteAt(t, path, pos, a), path, pos + |a|, |b|)
  {
    if path in t && t[path].body.File? {
      var data, a', b' := t[path].body.data, Fitting(pos, a), Fitting(pos + |a|, b);
      assert Fitting(pos, a + b) == a' + b';
      if b' == [] {
        assert a' + b' == a';
      } else {
        SpliceChunks(data, pos, a, b');
      }
    }
  }

  // A read continues where the one before stopped.
  lemma SliceExtends(data: Str, pos: nat, n: nat, want: nat, bs: Str)
    requires |Slice(data, pos, n)| == n && bs <= Slice(data, pos + n, want) && bs != []
    ensures Slice(data, pos, n) + bs == Slice(data, pos, n + |bs|)
  {}

  // Reading back the range just written returns the buffer.
  lemma SpliceThenSlice(data: Str, pos: nat, bs: Str)
    ensures Slice(Splice(data, pos, bs), pos, |bs|) == bs
  {}
}
