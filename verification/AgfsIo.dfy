/** src/agfsio.cpp over a socket: each function with its partial reads, running totals and byte-order conversions. */
module AgfsIo {
  import opened Bytes
  import opened Wire
  import opened Process

  // One end of an established connection, as the program holding it sees it.
  class Socket {
    const host: Endian
    var input: Str               // the bytes still to arrive, in order; when it is empty the peer has gone
    ghost var trace: seq<Event>  // what this end has sent and received so far

    constructor (host: Endian, input: Str)
      ensures this.host == host && this.input == input && trace == []
    {
      this.host := host;
      this.input := input;
      trace := [];
    }

    // write(2) of a buffer the kernel takes as a whole
    method Write(bs: Str) returns (n: nat)
      modifies this
      ensures n == |bs| && input == old(input) && trace == old(trace) + Outs(bs)
    {
      trace := trace + Outs(bs);
      n := |bs|;
    }

    // write(2) that takes only some of the buffer, or fails
    method WriteSome(bs: Chunk) returns (n: int, errno: nat)
      modifies this
      ensures (n == -1 || 0 < n <= |bs|) && 0 < errno < 4096
      ensures input == old(input) && trace == old(trace) + if n > 0 then Outs(bs[..n]) else [Fault]
    {
      var m: nat, fails: bool := *, *;
      errno := *;
      errno := if 0 < errno < 4096 then errno else 1;
      n := if fails then -1 else if 0 < m <= |bs| then m else |bs|;
      trace := trace + if n > 0 then Outs(bs[..n]) else [Fault];
    }

    // read(2) that blocks until everything asked for is there, or the peer has gone
    method Read(want: nat) returns (bs: Str)
      modifies this
      ensures bs == old(input)[..Min(want, |old(input)|)] && input == old(input)[|bs|..]
      ensures trace == old(trace) + Ins(bs)
    {
      var n := Min(want, |input|);
      bs := input[..n];
      input := input[n..];
      trace := trace + Ins(bs);
    }

    // read(2) that returns what happens to be there: at least one byte unless nothing is wanted or the peer has gone,
    // and no more than a signed result can count
    method ReadSome(want: nat) returns (bs: Str)
      modifies this
      ensures |bs| <= want && |bs| < TWO_63 && bs <= old(input) && input == old(input)[|bs|..]
      ensures bs == [] <==> want == 0 || old(input) == []
      ensures trace == old(trace) + Ins(bs)
    {
      var m: nat := *;
      bs := Read(if 0 < m <= want && m < TWO_63 then m else Min(want, TWO_63 - 1));
    }
  }

  /* ---- Scalars ---- */

  // Swap, then copy the memory of the word to the socket.
  method WriteWord(fd: Socket, k: nat, v: nat) returns (n: nat)
    requires v < Pow256(k)
    modifies fd
    ensures n == k && fd.input == old(fd.input) && fd.trace == old(fd.trace) + Outs(BigEndian(k, v))
  {
    var word := SwapToBig(fd.host, k, v);
    n := fd.Write(Memory(fd.host, k, word));
    SwappedMemoryIsBigEndian(fd.host, k, v);
  }

  // Read over the memory of the word, then swap, whether or not anything was read.
  method ReadWord(fd: Socket, k: nat, init: nat) returns (n: nat, v: nat)
    requires init < Pow256(k)
    modifies fd
    ensures n == Min(k, |old(fd.input)|) && v < Pow256(k)
    ensures fd.input == old(fd.input)[n..] && fd.trace == old(fd.trace) + Ins(old(fd.input)[..n])
    ensures n == k ==> v == FromBigEndian(old(fd.input)[..k])
    ensures n == 0 ==> v == SwapToBig(fd.host, k, init)
    ensures v == SwapToBig(fd.host, k, FromMemory(fd.host, old(fd.input)[..n] + Memory(fd.host, k, init)[n..]))
  {
    var got := fd.Read(k);
    n := |got|;
    var word := FromMemory(fd.host, got + Memory(fd.host, k, init)[n..]);
    v := SwapToBig(fd.host, k, word);
    if n == k {
      assert got + Memory(fd.host, k, init)[n..] == got;
      SwappedReadIsBigEndian(fd.host, got);
    }
    if n == 0 {
      assert got + Memory(fd.host, k, init)[n..] == Memory(fd.host, k, init);
      MemoryHolds(fd.host, k, init);
    }
  }

  // A command read over the initial value of its variable when fewer than two bytes came.
  function Stale(h: Endian, got: Str, init: U16): U16
    requires |got| < 2
  {
    Pow256Values();
    SwapToBig(h, 2, FromMemory(h, got + Memory(h, 2, init)[|got|..]))
  }

  // On a little-endian host the untouched variable comes out with its bytes swapped.
  lemma StaleCmd(h: Endian, got: Str, c: U16)
    requires |got| < 2 && c < 256
    ensures got == [] ==> Stale(h, got, c) == if h.Little? then 256 * c else c
    ensures |got| == 1 ==> Stale(h, got, c) == 256 * got[0] + if h.Little? then 0 else c
  {
    Pow256Values();
    var big := BigEndian(2, c);
    assert big == [0, c] by { assert BigEndian(1, 0) == [] + [0]; }
    assert Reverse(big) == [c, 0] by { assert big[1..] == [c] && Reverse([c]) == [c]; }
    var mem := got + Memory(h, 2, c)[|got|..];
    SwappedReadIsBigEndian(h, mem);
    assert mem[..1] == [mem[0]] && FromBigEndian([mem[0]]) == mem[0] by { assert [mem[0]][..0] == []; }
    var high: nat, low: nat := mem[0], mem[1];
    assert FromBigEndian(mem) == high * 256 + low;
  }

  method WriteCmd(fd: Socket, c: U16) returns (n: nat)
    modifies fd
    ensures n == 2 && fd.input == old(fd.input) && fd.trace == old(fd.trace) + Outs(EncCmd(c))
  {
    Pow256Values();
    n := WriteWord(fd, 2, c);
  }

  method ReadCmd(fd: Socket, init: U16) returns (n: nat, c: U16)
    modifies fd
    ensures n == Min(2, |old(fd.input)|)
    ensures fd.input == old(fd.input)[n..] && fd.trace == old(fd.trace) + Ins(old(fd.input)[..n])
    ensures n == 2 ==> c == DecCmd(old(fd.input)[..2])
    ensures n < 2 ==> c == Stale(fd.host, old(fd.input)[..n], init)
  {
    Pow256Values();
    n, c := ReadWord(fd, 2, init);
  }

  method WriteMask(fd: Socket, m: U32) returns (n: nat)
    modifies fd
    ensures n == 4 && fd.input == old(fd.input) && fd.trace == old(fd.trace) + Outs(EncMask(m))
  {
    Pow256Values();
    n := WriteWord(fd, 4, m);
  }

  method ReadMask(fd: Socket, init: U32) returns (n: nat, m: U32)
    modifies fd
    ensures n == Min(4, |old(fd.input)|)
    ensures fd.input == old(fd.input)[n..] && fd.trace == old(fd.trace) + Ins(old(fd.input)[..n])
    ensures n == 4 ==> m == DecMask(old(fd.input)[..4])
  {
    Pow256Values();
    n, m := ReadWord(fd, 4, init);
  }

  // Also used for the 64-bit device and time fields, which are converted the same way.
  method WriteSize(fd: Socket, size: U64) returns (n: nat)
    modifies fd
    ensures n == 8 && fd.input == old(fd.input) && fd.trace == old(fd.trace) + Outs(EncSize(size))
  {
    Pow256Values();
    n := WriteWord(fd, 8, size);
  }

  method ReadSize(fd: Socket, init: U64) returns (n: nat, size: U64)
    modifies fd
    ensures n == Min(8, |old(fd.input)|)
    ensures fd.input == old(fd.input)[n..] && fd.trace == old(fd.trace) + Ins(old(fd.input)[..n])
    ensures n == 8 ==> size == DecSize(old(fd.input)[..8])
  {
    Pow256Values();
    n, size := ReadWord(fd, 8, init);
  }

  method WriteError(fd: Socket, e: I64) returns (n: nat)
    modifies fd
    ensures n == 8 && fd.input == old(fd.input) && fd.trace == old(fd.trace) + Outs(EncError(e))
  {
    n := WriteSize(fd, Unsigned(e));
  }

  method ReadError(fd: Socket, init: I64) returns (n: nat, e: I64)
    modifies fd
    ensures n == Min(8, |old(fd.input)|)
    ensures fd.input == old(fd.input)[n..] && fd.trace == old(fd.trace) + Ins(old(fd.input)[..n])
    ensures n == 8 ==> e == DecError(old(fd.input)[..8])
  {
    var u: U64;
    n, u := ReadSize(fd, Unsigned(init));
    e := Signed(u);
  }

  /* ---- Reading from a descriptor that is not open ---- */

  // The read fails, and the variable is swapped all the same.
  method ReadSizeBadFd(h: Endian, init: U64) returns (size: U64)
    ensures size == SwappedSize(h, init)
    ensures init == 0 ==> size == 0
  {
    SwappedZero(h, 8);
    size := SwappedSize(h, init);
  }

  method ReadErrorBadFd(h: Endian, init: I64) returns (e: I64)
    ensures e == Signed(SwappedSize(h, Unsigned(init)))
    ensures init == 0 ==> e == 0
  {
    var u := ReadSizeBadFd(h, Unsigned(init));
    e := Signed(u);
  }

  function SwappedSize(h: Endian, v: U64): U64 {
    Pow256Values(); SwapToBig(h, 8, v)
  }

  /* ---- Strings ---- */

  method WriteString(fd: Socket, s: Str) returns (total: nat)
    requires Sized(s)
    modifies fd
    ensures total == 8 + |s| && fd.input == old(fd.input) && fd.trace == old(fd.trace) + Outs(EncString(s))
  {
    var n := WriteSize(fd, |s|);
    total := n;
    n := fd.Write(s);
    total := total + n;
    OutsAppend(EncSize(|s|), s);
  }

  // The length, then that many bytes into a fresh buffer that is terminated with a NUL.
  method ReadString(fd: Socket) returns (total: nat, s: Str)
    modifies fd
    ensures total <= |old(fd.input)| && fd.input == old(fd.input)[total..]
    ensures fd.trace == old(fd.trace) + Ins(old(fd.input)[..total])
    ensures match DecField(KText, old(fd.input))
            case Some((f, rest)) => f == Text(s) && rest == fd.input
            case None => fd.input == []
  {
    var len: U64;
    total, len := ReadSize(fd, 0);
    label sized:
    var got := fd.Read(len);
    // what malloc left in the part of the buffer that was not read
    var junk: Str := *;
    if |junk| != len - |got| {
      junk := Zeros(len - |got|);
    }
    s := CString(got + junk);
    Advance(old(fd.input), total, |got|);
    if total == 8 && |got| == len {
      assert got + junk == got;
    }
    total := total + |got|;
  }

  /* ---- Stats ---- */

  method WriteStat(fd: Socket, st: Stat) returns (total: nat)
    modifies fd
    ensures total == STAT_BYTES && fd.input == old(fd.input) && fd.trace == old(fd.trace) + Outs(EncStat(st))
  {
    ghost var before := fd.trace;
    var n := WriteSize(fd, st.dev);
    total := n;
    n := WriteMask(fd, st.mode);
    total := total + n;
    n := WriteSize(fd, st.size);
    total := total + n;
    n := WriteSize(fd, st.atime);
    total := total + n;
    n := WriteSize(fd, st.mtime);
    total := total + n;
    n := WriteSize(fd, st.ctime);
    total := total + n;
    StatTrace(before, st);
  }

  lemma StatTrace(before: seq<Event>, st: Stat)
    ensures before + Outs(EncSize(st.dev)) + Outs(EncMask(st.mode)) + Outs(EncSize(st.size)) + Outs(EncSize(st.atime))
            + Outs(EncSize(st.mtime)) + Outs(EncSize(st.ctime)) == before + Outs(EncStat(st))
  {}

  lemma OutsJoined(before: seq<Event>, a: Str, b: Str)
    ensures before + Outs(a) + Outs(b) == before + Outs(a + b)
  {}

  // One step of agfs_read_stat: a 64-bit field, added to the running total of a read that started at `all`.
  method ReadSizeAt(fd: Socket, total: nat, ghost all: Str, ghost before: seq<Event>) returns (total': nat, v: U64)
    requires total <= |all| && fd.input == all[total..] && fd.trace == before + Ins(all[..total])
    modifies fd
    ensures total' == Min(total + 8, |all|)
    ensures fd.input == all[total'..] && fd.trace == before + Ins(all[..total'])
    ensures total + 8 <= |all| ==> v == DecSize(all[total..total + 8])
  {
    var n: nat;
    n, v := ReadSize(fd, 0);
    total' := total + n;
    Advance(all, total, n);
  }

  method ReadMaskAt(fd: Socket, total: nat, ghost all: Str, ghost before: seq<Event>) returns (total': nat, v: U32)
    requires total <= |all| && fd.input == all[total..] && fd.trace == before + Ins(all[..total])
    modifies fd
    ensures total' == Min(total + 4, |all|)
    ensures fd.input == all[total'..] && fd.trace == before + Ins(all[..total'])
    ensures total + 4 <= |all| ==> v == DecMask(all[total..total + 4])
  {
    var n: nat;
    n, v := ReadMask(fd, 0);
    total' := total + n;
    Advance(all, total, n);
  }

  lemma Advance(all: Str, total: nat, n: nat)
    requires total + n <= |all|
    ensures all[total..][n..] == all[total + n..]
    ensures all[total..][..n] == all[total..total + n]
    ensures Ins(all[..total]) + Ins(all[total..][..n]) == Ins(all[..total + n])
  {}

  lemma StatFields(all: Str)
    requires |all| >= STAT_BYTES
    ensures DecStat(all[..STAT_BYTES]) ==
            ZERO_STAT.(dev := DecSize(all[0..8]), mode := DecMask(all[8..12]), size := DecSize(all[12..20]),
                       atime := DecSize(all[20..28]), mtime := DecSize(all[28..36]), ctime := DecSize(all[36..44]))
  {
    var bs := all[..STAT_BYTES];
    assert bs[..8] == all[0..8] && bs[8..12] == all[8..12] && bs[12..20] == all[12..20];
    assert bs[20..28] == all[20..28] && bs[28..36] == all[28..36] && bs[36..44] == all[36..44];
  }

  method ReadStat(fd: Socket) returns (total: nat, st: Stat)
    modifies fd
    ensures total == Min(STAT_BYTES, |old(fd.input)|)
    ensures fd.input == old(fd.input)[total..] && fd.trace == old(fd.trace) + Ins(old(fd.input)[..total])
    ensures total == STAT_BYTES ==> st == DecStat(old(fd.input)[..STAT_BYTES])
  {
    ghost var all, before := fd.input, fd.trace;
    var dev: U64, mode: U32, size: U64, atime: U64, mtime: U64, ctime: U64;
    total := 0;
    total, dev := ReadSizeAt(fd, total, all, before);
    total, mode := ReadMaskAt(fd, total, all, before);
    total, size := ReadSizeAt(fd, total, all, before);
    total, atime := ReadSizeAt(fd, total, all, before);
    total, mtime := ReadSizeAt(fd, total, all, before);
    total, ctime := ReadSizeAt(fd, total, all, before);
    st := ZERO_STAT.(dev := dev, mode := mode, size := size, atime := atime, mtime := mtime, ctime := ctime);
    if total == STAT_BYTES {
      StatFields(all);
    }
  }
}
