/** Keys and key files: what src/agfs-keygen.cpp prints, and what the client and the server read back. */
module Keys {
  import opened Bytes

  const KEY_LEN: nat := 256
  const ASCII_KEY_LEN: nat := 512

  const NEWLINE: Byte := 10
  const BLANK: Byte := 32

  /* ---- Hex encoding ---- */

  // '0'..'9', 'A'..'F'
  function HexDigit(v: nat): Byte
    requires v < 16
  {
    if v < 10 then 48 + v else 55 + v
  }

  function Hex(bs: Str): (r: Str)
    ensures |r| == 2 * |bs|
  {
    if bs == [] then [] else
      var n := |bs| - 1;
      Hex(bs[..n]) + [HexDigit(bs[n] / 16), HexDigit(bs[n] % 16)]
  }

  // "0123456789ABCDEF"
  const DIGITS: Str := [48, 49, 50, 51, 52, 53, 54, 55, 56, 57, 65, 66, 67, 68, 69, 70]

  // Two digits for each byte, the upper half first.
  lemma {:induction false} HexAt(bs: Str, i: nat)
    requires i < |bs|
    ensures Hex(bs)[2 * i] == DIGITS[bs[i] / 16] && Hex(bs)[2 * i + 1] == DIGITS[bs[i] % 16]
  {
    var n := |bs| - 1;
    if i < n {
      HexAt(bs[..n], i);
    }
  }

  // The loop over /dev/urandom; `random` is what the device delivers.
  method GenerateKey(random: Str) returns (keyStr: Str)
    requires |random| >= KEY_LEN
    ensures keyStr == Hex(random[..256]) && |keyStr| == 512 == ASCII_KEY_LEN
  {
    keyStr := [];
    var count := 0;
    while count < KEY_LEN
      invariant count <= KEY_LEN && keyStr == Hex(random[..count])
    {
      var c := random[count];
      var lower, upper := HexDigit(c % 16), HexDigit(c / 16);
      assert random[..count + 1][..count] == random[..count];
      keyStr := keyStr + [upper];
      keyStr := keyStr + [lower];
      count := count + 1;
    }
  }

  // Different random bytes give different keys.
  lemma {:induction false} HexInjective(a: Str, b: Str)
    requires Hex(a) == Hex(b)
    ensures a == b
  {
    assert |a| == |b|;
    if a != [] {
      var n, m := |a| - 1, |Hex(a)| - 2;
      assert Hex(a)[..m] == Hex(a[..n]) && Hex(b)[..m] == Hex(b[..n]);
      HexInjective(a[..n], b[..n]);
      assert Hex(a)[m] == Hex(b)[m] && Hex(a)[m + 1] == Hex(b)[m + 1];
      assert a[n] == b[n];
      assert a == a[..n] + [a[n]] && b == b[..n] + [b[n]];
    }
  }

  /* ---- Words in a text ---- */

  // isspace
  predicate IsSpace(b: Byte) {
    9 <= b <= 13 || b == BLANK
  }

  predicate IsWord(s: Str) {
    s != [] && forall i :: 0 <= i < |s| ==> !IsSpace(s[i])
  }

  lemma {:induction false} HexIsWord(bs: Str)
    requires bs != []
    ensures IsWord(Hex(bs)) && 0 !in Hex(bs)
  {
    var n := |bs| - 1;
    if n > 0 {
      HexIsWord(bs[..n]);
    }
  }

  // A std::istream over a text.
  datatype Stream = Stream(rest: Str, eof: bool, fail: bool)

  function SkipSpace(s: Str): (r: Str)
    ensures |r| <= |s| && (r != [] ==> !IsSpace(r[0]))
  {
    if s != [] && IsSpace(s[0]) then SkipSpace(s[1..]) else s
  }

  // the length of the word at the front
  function WordLength(s: Str): (n: nat)
    ensures n <= |s| && (forall i :: 0 <= i < n ==> !IsSpace(s[i])) && (n < |s| ==> IsSpace(s[n]))
  {
    if s == [] || IsSpace(s[0]) then 0 else 1 + WordLength(s[1..])
  }

  // in >> word: when nothing can be extracted, the stream fails and the word keeps its value.
  function Extract(s: Stream, word: Str): (r: (Stream, Str))
    ensures |r.0.rest| <= |s.rest|
    ensures !s.eof && !s.fail ==> r.0.eof || |r.0.rest| < |s.rest|
    ensures (s.fail ==> s.eof) ==> (r.0.fail ==> r.0.eof)
  {
    if s.eof || s.fail then (s.(fail := true), word)
    else
      var text := SkipSpace(s.rest);
      if text == [] then (Stream([], true, true), word)
      else
        var n := WordLength(text);
        (Stream(text[n..], n == |text|, false), text[..n])
  }

  lemma {:induction false} SkipsTo(gap: Str, s: Str)
    requires (forall i :: 0 <= i < |gap| ==> IsSpace(gap[i])) && (s != [] ==> !IsSpace(s[0]))
    ensures SkipSpace(gap + s) == s
  {
    if gap == [] {
      assert gap + s == s;
    } else {
      assert (gap + s)[1..] == gap[1..] + s;
      SkipsTo(gap[1..], s);
    }
  }

  lemma {:induction false} WordEnds(w: Str, rest: Str)
    requires (forall i :: 0 <= i < |w| ==> !IsSpace(w[i])) && (rest != [] ==> IsSpace(rest[0]))
    ensures WordLength(w + rest) == |w|
  {
    if w == [] {
      assert w + rest == rest;
    } else {
      assert (w + rest)[1..] == w[1..] + rest;
      WordEnds(w[1..], rest);
    }
  }

  // A word between blanks is extracted whole, and the white space behind it stays.
  lemma ExtractWord(gap: Str, w: Str, rest: Str, before: Str)
    requires (forall i :: 0 <= i < |gap| ==> IsSpace(gap[i])) && IsWord(w)
    requires rest != [] && IsSpace(rest[0])
    ensures Extract(Stream(gap + (w + rest), false, false), before) == (Stream(rest, false, false), w)
  {
    SkipsTo(gap, w + rest);
    WordEnds(w, rest);
    Front(w, rest);
  }

  /* ---- The key file of the client ---- */

  function KeyFile(host: Str, port: Str, key: Str): Str {
    host + [NEWLINE] + port + [NEWLINE] + key + [NEWLINE]
  }

  function ParsedKeyFile(text: Str): (Str, Str, Str) {
    var (s1, host) := Extract(Stream(text, false, false), []);
    var (s2, port) := Extract(s1, []);
    var (_, key) := Extract(s2, []);
    (host, port, key)
  }

  // The client reads back what the key generator printed.
  lemma KeyFileRoundTrip(host: Str, port: Str, key: Str)
    requires IsWord(host) && IsWord(port) && IsWord(key)
    ensures ParsedKeyFile(KeyFile(host, port, key)) == (host, port, key)
  {
    var nl: Str := [NEWLINE];
    var r3 := nl;
    var r2 := nl + (key + r3);
    var r1 := nl + (port + r2);
    assert KeyFile(host, port, key) == [] + (host + r1);
    ExtractWord([], host, r1, []);
    ExtractWord(nl, port, r2, []);
    ExtractWord(nl, key, r3, []);
  }

  // The three extractions of the client give what was printed.
  method ReadKeyFile(text: Str) returns (host: Str, port: Str, key: Str)
    ensures (host, port, key) == ParsedKeyFile(text)
    ensures forall h, p, k :: IsWord(h) && IsWord(p) && IsWord(k) && text == KeyFile(h, p, k) ==>
              host == h && port == p && key == k
  {
    var s := Stream(text, false, false);
    host, port, key := [], [], [];
    var r := Extract(s, host);
    s, host := r.0, r.1;
    r := Extract(s, port);
    s, port := r.0, r.1;
    r := Extract(s, key);
    s, key := r.0, r.1;
    forall h, p, k | IsWord(h) && IsWord(p) && IsWord(k) && text == KeyFile(h, p, k)
      ensures host == h && port == p && key == k
    {
      KeyFileRoundTrip(h, p, k);
    }
  }

  /* ---- The key list of the server ---- */

  datatype KeyEntry = KeyEntry(mount: Str, user: Str, key: Str)

  predicate Printable(e: KeyEntry) {
    IsWord(e.mount) && IsWord(e.user) && IsWord(e.key)
  }

  function ListLine(e: KeyEntry): Str {
    e.mount + [BLANK] + e.user + [BLANK] + e.key + [NEWLINE]
  }

  // One word to a line in the key file, three to a line in the key list: mount, user and key.
  lemma PrintedLines(a: Byte, b: Byte, c: Byte)
    ensures KeyFile([a], [b], [c]) == [a, 10, b, 10, c, 10]
    ensures ListLine(KeyEntry([a], [b], [c])) == [a, 32, b, 32, c, 10]
  {}

  // The generator appends one line for each key issued.
  function KeyList(entries: seq<KeyEntry>): Str {
    if entries == [] then [] else ListLine(entries[0]) + KeyList(entries[1..])
  }

  // One pass of the loop of the server's constructor: three extractions into variables that live across passes.
  function NextEntry(s: Stream, e: KeyEntry): (r: (Stream, KeyEntry))
    ensures |r.0.rest| <= |s.rest|
    ensures !s.eof && !s.fail ==> r.0.eof || |r.0.rest| < |s.rest|
    ensures (s.fail ==> s.eof) ==> (r.0.fail ==> r.0.eof)
  {
    var (s1, mount) := Extract(s, e.mount);
    var (s2, user) := Extract(s1, e.user);
    var (s3, key) := Extract(s2, e.key);
    (s3, KeyEntry(mount, user, key))
  }

  // while (!eof) { read; if the key matches, stop }
  function Scan(s: Stream, e: KeyEntry, key: Str): Option<KeyEntry>
    requires s.fail ==> s.eof
    decreases if s.eof then 0 else |s.rest| + 1
  {
    if s.eof then None
    else
      var (s', e') := NextEntry(s, e);
      if e'.key == key then Some(e') else Scan(s', e', key)
  }

  method FindKey(list: Str, key: Str) returns (found: Option<KeyEntry>)
    ensures found == Scan(Stream(list, false, false), KeyEntry([], [], []), key)
  {
    var s := Stream(list, false, false);
    var e := KeyEntry([], [], []);
    while !s.eof
      invariant s.fail ==> s.eof
      invariant Scan(s, e, key) == Scan(Stream(list, false, false), KeyEntry([], [], []), key)
      decreases if s.eof then 0 else |s.rest| + 1
    {
      var r := NextEntry(s, e);
      s, e := r.0, r.1;
      if e.key == key {
        return Some(e);
      }
    }
    return None;
  }

  function FirstMatch(entries: seq<KeyEntry>, key: Str): Option<KeyEntry> {
    if entries == [] then None
    else if entries[0].key == key then Some(entries[0])
    else FirstMatch(entries[1..], key)
  }

  lemma NextIsLine(gap: Str, e: KeyEntry, rest: Str, before: KeyEntry)
    requires Printable(e) && forall i :: 0 <= i < |gap| ==> IsSpace(gap[i])
    ensures NextEntry(Stream(gap + (ListLine(e) + rest), false, false), before) ==
            (Stream([NEWLINE] + rest, false, false), e)
  {
    var sp: Str := [BLANK];
    var r3 := [NEWLINE] + rest;
    var r2 := sp + (e.key + r3);
    var r1 := sp + (e.user + r2);
    assert ListLine(e) + rest == e.mount + r1;
    ExtractWord(gap, e.mount, r1, before.mount);
    ExtractWord(sp, e.user, r2, before.user);
    ExtractWord(sp, e.key, r3, before.key);
  }

  // At the last newline the extractions fail, the variables keep the last entry, and it is compared once more.
  lemma ScanEnd(gap: Str, e: KeyEntry, key: Str)
    requires gap == [] || gap == [NEWLINE]
    ensures Scan(Stream(gap, false, false), e, key) == if e.key == key then Some(e) else None
  {}

  lemma {:induction false} ScanFrom(gap: Str, entries: seq<KeyEntry>, before: KeyEntry, key: Str)
    requires (gap == [] || gap == [NEWLINE]) && (forall e :: e in entries ==> Printable(e))
    requires before.key != key
    ensures Scan(Stream(gap + KeyList(entries), false, false), before, key) == FirstMatch(entries, key)
    decreases |entries|
  {
    if entries == [] {
      assert gap + KeyList(entries) == gap;
      ScanEnd(gap, before, key);
    } else {
      NextIsLine(gap, entries[0], KeyList(entries[1..]), before);
      if entries[0].key != key {
        ScanFrom([NEWLINE], entries[1..], entries[0], key);
      }
    }
  }

  // The server finds the first line with the client's key, and nothing else; an empty key is compared with variables
  // that are still empty, so it matches exactly when there is no line at all.
  lemma KeyListRoundTrip(entries: seq<KeyEntry>, key: Str)
    requires forall e :: e in entries ==> Printable(e)
    ensures Scan(Stream(KeyList(entries), false, false), KeyEntry([], [], []), key) ==
            if key == [] && entries == [] then Some(KeyEntry([], [], [])) else FirstMatch(entries, key)
  {
    assert [] + KeyList(entries) == KeyList(entries);
    if key != [] {
      ScanFrom([], entries, KeyEntry([], [], []), key);
    } else if entries == [] {
      ScanEnd([], KeyEntry([], [], []), key);
    } else {
      NextIsLine([], entries[0], KeyList(entries[1..]), KeyEntry([], [], []));
      ScanFrom([NEWLINE], entries[1..], entries[0], key);
    }
  }
}
