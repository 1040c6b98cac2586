/** The wire format of src/agfsio.cpp: what each write function puts on a connection, and the inverse readings. */
module Wire {
  import opened Bytes

  // struct stat. The first six fields travel; the others stand for everything agfs_write_stat leaves behind.
  datatype Stat = Stat(dev: U64, mode: U32, size: U64, atime: U64, mtime: U64, ctime: U64,
                       ino: U64, nlink: U64, uid: U32, gid: U32)

  // memset(&buf, 0, sizeof(struct stat))
  const ZERO_STAT := Stat(0, 0, 0, 0, 0, 0, 0, 0, 0, 0)

  // What is left of a stat record once it has crossed a connection.
  function Carried(st: Stat): Stat {
    st.(ino := 0, nlink := 0, uid := 0, gid := 0)
  }

  const STAT_BYTES: nat := 44

  /* ---- Encoders ---- */

  function EncCmd(c: U16): (bs: Str)
    ensures |bs| == 2
  {
    Pow256Values(); BigEndian(2, c)
  }

  function EncMask(m: U32): (bs: Str)
    ensures |bs| == 4
  {
    Pow256Values(); BigEndian(4, m)
  }

  function EncSize(n: U64): (bs: Str)
    ensures |bs| == 8
  {
    Pow256Values(); BigEndian(8, n)
  }

  // A 64-bit two's complement pattern.
  function Unsigned(e: I64): U64 {
    if e < 0 then e + TWO_64 else e
  }

  function Signed(u: U64): I64 {
    if u >= TWO_63 then u - TWO_64 else u
  }

  function EncError(e: I64): (bs: Str)
    ensures |bs| == 8
  {
    EncSize(Unsigned(e))
  }

  predicate Sized(s: Str) {
    |s| < TWO_64
  }

  function EncString(s: Str): (bs: Str)
    requires Sized(s)
    ensures |bs| == 8 + |s|
  {
    EncSize(|s|) + s
  }

  function EncStat(st: Stat): (bs: Str)
    ensures |bs| == STAT_BYTES
  {
    EncSize(st.dev) + EncMask(st.mode) + EncSize(st.size) + EncSize(st.atime) + EncSize(st.mtime) + EncSize(st.ctime)
  }

  lemma SmallCmd(c: U16)
    requires c < 256
    ensures EncCmd(c) == [0, c]
  {
    assert BigEndian(1, 0) == [] + [0];
    Pow256Values();
  }

  // Small masks and sizes are their last byte behind zeros.
  lemma SmallMask(m: U32)
    requires m < 256
    ensures EncMask(m) == [0, 0, 0, m]
  {
    Pow256Values();
    assert BigEndian(1, 0) == [] + [0];
    assert BigEndian(2, 0) == [0, 0] && BigEndian(3, 0) == [0, 0, 0];
  }

  lemma SmallSize(n: U64)
    requires n < 256
    ensures EncSize(n) == [0, 0, 0, 0, 0, 0, 0, n]
  {
    Pow256Values();
    assert BigEndian(1, 0) == [] + [0];
    assert BigEndian(2, 0) == [0, 0] && BigEndian(3, 0) == [0, 0, 0] && BigEndian(4, 0) == [0, 0, 0, 0];
    assert BigEndian(5, 0) == [0, 0, 0, 0, 0] && BigEndian(6, 0) == [0, 0, 0, 0, 0, 0];
    assert BigEndian(7, 0) == [0, 0, 0, 0, 0, 0, 0];
  }

  /* ---- Decoders, total: a field of the wrong length reads as zero ---- */

  function DecCmd(bs: Str): U16 {
    Pow256Values(); if |bs| == 2 then FromBigEndian(bs) else 0
  }

  function DecMask(bs: Str): U32 {
    Pow256Values(); if |bs| == 4 then FromBigEndian(bs) else 0
  }

  function DecSize(bs: Str): U64 {
    Pow256Values(); if |bs| == 8 then FromBigEndian(bs) else 0
  }

  function DecError(bs: Str): I64 {
    Signed(DecSize(bs))
  }

  // The std::string made from a buffer that was terminated with a NUL: everything before the first NUL.
  function CString(s: Str): (r: Str)
    ensures |r| <= |s| && r == s[..|r|] && 0 !in r
    ensures |r| < |s| ==> s[|r|] == 0
  {
    if s == [] || s[0] == 0 then [] else [s[0]] + CString(s[1..])
  }

  function DecStat(bs: Str): Stat {
    if |bs| != STAT_BYTES then ZERO_STAT
    else
      ZERO_STAT.(dev := DecSize(bs[..8]), mode := DecMask(bs[8..12]), size := DecSize(bs[12..20]),
                 atime := DecSize(bs[20..28]), mtime := DecSize(bs[28..36]), ctime := DecSize(bs[36..44]))
  }

  /* ---- Each decoder inverts its encoder ---- */

  lemma CmdInverse(c: U16)
    ensures DecCmd(EncCmd(c)) == c
  {
    Pow256Values(); BigEndianDecodes(2, c);
  }

  lemma MaskInverse(m: U32)
    ensures DecMask(EncMask(m)) == m
  {
    Pow256Values(); BigEndianDecodes(4, m);
  }

  lemma SizeInverse(n: U64)
    ensures DecSize(EncSize(n)) == n
  {
    Pow256Values(); BigEndianDecodes(8, n);
  }

  // Negative errors survive: the sign is recovered from the top bit.
  lemma ErrorInverse(e: I64)
    ensures DecError(EncError(e)) == e
  {
    SizeInverse(Unsigned(e));
  }

  lemma FieldAt(a: Str, b: Str, c: Str)
    ensures (a + b + c)[|a|..|a| + |b|] == b
  {}

  // Exactly the six carried fields survive.
  lemma StatInverse(st: Stat)
    ensures DecStat(EncStat(st)) == Carried(st)
  {
    StatFields(st);
    SizeInverse(st.dev); MaskInverse(st.mode); SizeInverse(st.size);
    SizeInverse(st.atime); SizeInverse(st.mtime); SizeInverse(st.ctime);
  }

  // Each field sits at its place in the record.
  lemma StatFields(st: Stat)
    ensures var bs := EncStat(st);
            && bs[..8] == EncSize(st.dev) && bs[8..12] == EncMask(st.mode) && bs[12..20] == EncSize(st.size)
            && bs[20..28] == EncSize(st.atime) && bs[28..36] == EncSize(st.mtime) && bs[36..44] == EncSize(st.ctime)
  {
    var bs := EncStat(st);
    var a, b, c := EncSize(st.dev), EncMask(st.mode), EncSize(st.size);
    var d, e, f := EncSize(st.atime), EncSize(st.mtime), EncSize(st.ctime);
    assert bs[..8] == a;
    assert bs == a + b + (c + d + e + f);
    FieldAt(a, b, c + d + e + f);
    assert bs == (a + b) + c + (d + e + f);
    FieldAt(a + b, c, d + e + f);
    assert bs == (a + b + c) + d + (e + f);
    FieldAt(a + b + c, d, e + f);
    assert bs == (a + b + c + d) + e + f;
    FieldAt(a + b + c + d, e, f);
    assert bs[36..] == f && bs[36..44] == bs[36..];
  }

  lemma CStringExact(s: Str)
    ensures CString(s) == s <==> 0 !in s
  {}

  /* ---- The whole format is self-delimiting ---- */

  datatype Field = Cmd(c: U16) | Mask(m: U32) | Size(n: U64) | Error(e: I64) | Text(s: Str) | Attr(st: Stat)

  // Which read function is called for a field.
  datatype Kind = KCmd | KMask | KSize | KError | KText | KAttr

  function KindOf(f: Field): Kind {
    match f
    case Cmd(_) => KCmd
    case Mask(_) => KMask
    case Size(_) => KSize
    case Error(_) => KError
    case Text(_) => KText
    case Attr(_) => KAttr
  }

  predicate Sendable(f: Field) {
    f.Text? ==> Sized(f.s)
  }

  predicate AllSendable(fs: seq<Field>) {
    fs == [] || (Sendable(fs[0]) && AllSendable(fs[1..]))
  }

  function EncField(f: Field): Str
    requires Sendable(f)
  {
    match f
    case Cmd(c) => EncCmd(c)
    case Mask(m) => EncMask(m)
    case Size(n) => EncSize(n)
    case Error(e) => EncError(e)
    case Text(s) => EncString(s)
    case Attr(st) => EncStat(st)
  }

  // What the receiver gets for a field: strings are cut at a NUL, stats lose the fields that do not travel.
  function AsReceived(f: Field): Field {
    match f
    case Text(s) => Text(CString(s))
    case Attr(st) => Attr(Carried(st))
    case _ => f
  }

  function Width(k: Kind): nat {
    match k
    case KCmd => 2
    case KMask => 4
    case KAttr => STAT_BYTES
    case _ => 8
  }

  // Reads one field off the front of a byte stream; None when the stream ends inside it.
  function DecField(k: Kind, bs: Str): (r: Option<(Field, Str)>)
    ensures r.Some? ==> |r.value.1| < |bs| && r.value.1 == bs[|bs| - |r.value.1|..]
  {
    var w := Width(k);
    if |bs| < w then None
    else
      var head, rest := bs[..w], bs[w..];
      match k
      case KCmd => Some((Cmd(DecCmd(head)), rest))
      case KMask => Some((Mask(DecMask(head)), rest))
      case KSize => Some((Size(DecSize(head)), rest))
      case KError => Some((Error(DecError(head)), rest))
      case KAttr => Some((Attr(DecStat(head)), rest))
      case KText =>
        var n := DecSize(head);
        if |rest| < n then None else Some((Text(CString(rest[..n])), rest[n..]))
  }

  function EncAll(fs: seq<Field>): Str
    requires AllSendable(fs)
  {
    if fs == [] then [] else EncField(fs[0]) + EncAll(fs[1..])
  }

  function DecAll(ks: seq<Kind>, bs: Str): Option<(seq<Field>, Str)> {
    if ks == [] then Some(([], bs))
    else
      match DecField(ks[0], bs)
      case None => None
      case Some((f, rest)) =>
        match DecAll(ks[1..], rest)
        case None => None
        case Some((fs, left)) => Some(([f] + fs, left))
  }

  function Kinds(fs: seq<Field>): seq<Kind> {
    if fs == [] then [] else [KindOf(fs[0])] + Kinds(fs[1..])
  }

  function AsReceivedAll(fs: seq<Field>): seq<Field> {
    if fs == [] then [] else [AsReceived(fs[0])] + AsReceivedAll(fs[1..])
  }

  lemma AttrDelimited(st: Stat, rest: Str)
    ensures DecField(KAttr, EncStat(st) + rest) == Some((Attr(Carried(st)), rest))
  {
    StatInverse(st);
    Front(EncStat(st), rest);
  }

  lemma TextDelimited(s: Str, rest: Str)
    requires Sized(s)
    ensures DecField(KText, EncString(s) + rest) == Some((Text(CString(s)), rest))
  {
    SizeInverse(|s|);
    assert EncString(s) + rest == EncSize(|s|) + (s + rest);
    Front(EncSize(|s|), s + rest);
    Front(s, rest);
  }

  lemma FieldDelimited(f: Field, rest: Str)
    requires Sendable(f)
    ensures DecField(KindOf(f), EncField(f) + rest) == Some((AsReceived(f), rest))
  {
    match f
    case Cmd(c) => Front(EncCmd(c), rest); CmdInverse(c);
    case Mask(m) => Front(EncMask(m), rest); MaskInverse(m);
    case Size(n) => Front(EncSize(n), rest); SizeInverse(n);
    case Error(e) => Front(EncError(e), rest); ErrorInverse(e);
    case Attr(st) => AttrDelimited(st, rest);
    case Text(s) => TextDelimited(s, rest);
  }

  lemma DecAllCons(k: Kind, ks: seq<Kind>, bs: Str, f: Field, rest: Str, fs: seq<Field>, left: Str)
    requires DecField(k, bs) == Some((f, rest))
    requires DecAll(ks, rest) == Some((fs, left))
    ensures DecAll([k] + ks, bs) == Some(([f] + fs, left))
  {}

  // Any run of fields, followed by any bytes at all, reads back as those fields and leaves exactly those bytes.
  lemma {:induction false} SelfDelimiting(fs: seq<Field>, rest: Str)
    requires AllSendable(fs)
    ensures DecAll(Kinds(fs), EncAll(fs) + rest) == Some((AsReceivedAll(fs), rest))
  {
    if fs == [] {
      assert EncAll(fs) + rest == rest;
    } else {
      var f, gs := fs[0], fs[1..];
      var tail := EncAll(gs) + rest;
      FieldDelimited(f, tail);
      SelfDelimiting(gs, rest);
      Associate(EncField(f), EncAll(gs), rest);
      DecAllCons(KindOf(f), Kinds(gs), EncField(f) + tail, AsReceived(f), tail, AsReceivedAll(gs), rest);
    }
  }

  // Equal byte streams of the same shape come from fields the receiver cannot tell apart, so no two requests collide.
  lemma EncodingInjective(fs: seq<Field>, gs: seq<Field>, restF: Str, restG: Str)
    requires AllSendable(fs)
    requires AllSendable(gs)
    requires Kinds(fs) == Kinds(gs)
    requires EncAll(fs) + restF == EncAll(gs) + restG
    ensures AsReceivedAll(fs) == AsReceivedAll(gs) && restF == restG
  {
    SelfDelimiting(fs, restF);
    SelfDelimiting(gs, restG);
  }
}
