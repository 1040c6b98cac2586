/** `Disambiguater::ambiguate` and the tag `{:server:}` it undoes (src/disambiguater.cpp). */
module Tags {
  import opened Bytes

  const OPEN_BRACE: Byte := 123
  const COLON: Byte := 58
  const CLOSE_BRACE: Byte := 125

  const BEGIN_BRACE: Str := [OPEN_BRACE, COLON]
  const END_BRACE: Str := [COLON, CLOSE_BRACE]

  // pat occurs in s at position i
  predicate At(s: Str, pat: Str, i: nat) {
    i + |pat| <= |s| && s[i..i + |pat|] == pat
  }

  // std::string::find: the first occurrence
  function Find(s: Str, pat: Str): (r: Option<nat>)
    ensures r.Some? ==> At(s, pat, r.value) && forall i: nat :: At(s, pat, i) ==> r.value <= i
    ensures r.None? ==> forall i: nat :: !At(s, pat, i)
  {
    FindFrom(s, pat, 0)
  }

  function FindFrom(s: Str, pat: Str, from: nat): (r: Option<nat>)
    requires from <= |s|
    ensures r.Some? ==> At(s, pat, r.value) && from <= r.value
    ensures r.Some? ==> forall i: nat :: from <= i && At(s, pat, i) ==> r.value <= i
    ensures r.None? ==> forall i: nat :: from <= i ==> !At(s, pat, i)
    decreases |s| - from
  {
    if At(s, pat, from) then Some(from)
    else if from == |s| then None
    else FindFrom(s, pat, from + 1)
  }

  // std::string::substr clips the length; the difference of two positions is a size_t and wraps around.
  function SubStr(s: Str, from: nat, len: nat): Str
    requires from <= |s|
  {
    s[from..Min(from + len, |s|)]
  }

  function SizeDifference(a: nat, b: nat): int {
    if a >= b then a - b else a - b + TWO_64
  }

  // (server, path): the server is empty when there is no tag.
  function Ambiguate(path: Str): (Str, Str)
    requires |path| < TWO_63
  {
    match (Find(path, BEGIN_BRACE), Find(path, END_BRACE))
    case (Some(b), Some(e)) =>
      (SubStr(path, b + 2, SizeDifference(e, b + 2)), path[..b] + path[e + 2..])
    case _ => ([], path)
  }

  predicate Has(s: Str, pat: Str) {
    exists i: nat :: i <= |s| && At(s, pat, i)
  }

  predicate TagFree(s: Str) {
    !Has(s, BEGIN_BRACE) && !Has(s, END_BRACE)
  }

  // A server name that survives inside a tag.
  predicate Taggable(server: Str) {
    !Has(server, END_BRACE) && (server != [] ==> server[0] != CLOSE_BRACE)
  }

  function Tagged(prefix: Str, server: Str): Str {
    prefix + BEGIN_BRACE + server + END_BRACE
  }

  // The printed tag, byte by byte: '{', ':', the server, ':', '}'.
  lemma TagBytes(prefix: Str, server: Str)
    ensures Tagged(prefix, server) == prefix + [123, 58] + server + [58, 125]
  {}

  ghost predicate FirstAt(s: Str, pat: Str, i: nat) {
    At(s, pat, i) && forall j: nat :: At(s, pat, j) ==> i <= j
  }

  // What a path is taken apart into, whatever it contains. Without one of the markers it is all path; otherwise the
  // server is what stands between the first begin marker and the first end marker, and the path what remains of the two
  // sides. When the end marker comes first, the wrapped length makes everything behind the begin marker the server.
  lemma AmbiguateIs(path: Str)
    requires |path| < TWO_63
    ensures (forall i: nat :: !At(path, [123, 58], i)) || (forall i: nat :: !At(path, [58, 125], i)) ==>
              Ambiguate(path) == ([], path)
    ensures forall b: nat, e: nat :: FirstAt(path, [123, 58], b) && FirstAt(path, [58, 125], e) ==>
              Ambiguate(path) == (if b + 2 <= e then path[b + 2..e] else path[b + 2..], path[..b] + path[e + 2..])
  {
    forall b: nat, e: nat | FirstAt(path, [123, 58], b) && FirstAt(path, [58, 125], e)
      ensures Ambiguate(path) == (if b + 2 <= e then path[b + 2..e] else path[b + 2..], path[..b] + path[e + 2..])
    {
      assert Find(path, BEGIN_BRACE) == Some(b) && Find(path, END_BRACE) == Some(e);
      assert SubStr(path, b + 2, SizeDifference(e, b + 2)) == if b + 2 <= e then path[b + 2..e] else path[b + 2..];
    }
  }

  lemma AtBytes(s: Str, x: Byte, y: Byte, i: nat)
    ensures At(s, [x, y], i) <==> i + 2 <= |s| && s[i] == x && s[i + 1] == y
  {}

  lemma TagFreeBytes(s: Str, i: nat)
    requires TagFree(s) && i + 1 < |s|
    ensures !(s[i] == OPEN_BRACE && s[i + 1] == COLON) && !(s[i] == COLON && s[i + 1] == CLOSE_BRACE)
  {
    AtBytes(s, OPEN_BRACE, COLON, i);
    AtBytes(s, COLON, CLOSE_BRACE, i);
  }

  // The begin marker found is the printed one.
  lemma BeginFound(prefix: Str, server: Str, suffix: Str)
    requires TagFree(prefix)
    ensures Find(Tagged(prefix, server) + suffix, BEGIN_BRACE) == Some(|prefix|)
  {
    var s := Tagged(prefix, server) + suffix;
    AtBytes(s, OPEN_BRACE, COLON, |prefix|);
    forall i: nat | i < |prefix| ensures !At(s, BEGIN_BRACE, i) {
      AtBytes(s, OPEN_BRACE, COLON, i);
      if i + 1 < |prefix| { TagFreeBytes(prefix, i); }
    }
  }

  // So is the end marker, for a server name that can stand in a tag.
  lemma EndFound(prefix: Str, server: Str, suffix: Str)
    requires TagFree(prefix) && Taggable(server)
    ensures Find(Tagged(prefix, server) + suffix, END_BRACE) == Some(|prefix| + 2 + |server|)
  {
    var s := Tagged(prefix, server) + suffix;
    var e := |prefix| + 2 + |server|;
    AtBytes(s, COLON, CLOSE_BRACE, e);
    forall i: nat | i < e ensures !At(s, END_BRACE, i) {
      AtBytes(s, COLON, CLOSE_BRACE, i);
      if i + 1 < |prefix| {
        TagFreeBytes(prefix, i);
      } else if i >= |prefix| + 2 && i + 1 < e {
        AtBytes(server, COLON, CLOSE_BRACE, i - |prefix| - 2);
      }
    }
  }

  lemma TagRoundTrip(prefix: Str, server: Str, suffix: Str)
    requires TagFree(prefix) && Taggable(server)
    requires |Tagged(prefix, server) + suffix| < TWO_63
    ensures Ambiguate(Tagged(prefix, server) + suffix) == (server, prefix + suffix)
  {
    var s := Tagged(prefix, server) + suffix;
    BeginFound(prefix, server, suffix);
    EndFound(prefix, server, suffix);
    var e := |prefix| + 2 + |server|;
    assert s[|prefix| + 2..e] == server && s[..|prefix|] == prefix && s[e + 2..] == suffix;
  }

  lemma NoTag(path: Str)
    requires TagFree(path) && |path| < TWO_63
    ensures Ambiguate(path) == ([], path)
  {}

  // For tag-free prefixes nothing weaker will do: any other server name comes back changed.
  lemma TagRoundTripExact(prefix: Str, server: Str, suffix: Str)
    requires TagFree(prefix) && |Tagged(prefix, server) + suffix| < TWO_63
    ensures Ambiguate(Tagged(prefix, server) + suffix).0 == server <==> Taggable(server)
  {
    var s := Tagged(prefix, server) + suffix;
    BeginFound(prefix, server, suffix);
    if Taggable(server) {
      TagRoundTrip(prefix, server, suffix);
    } else {
      var p := |prefix| + 2;
      if server != [] && server[0] == CLOSE_BRACE {
        // the colon of the begin marker and the brace make an end marker
        AtBytes(s, COLON, CLOSE_BRACE, p - 1);
        var e := Find(s, END_BRACE).value;
        assert e <= p - 1;
        assert |Ambiguate(s).0| == |s| - p > |server|;
      } else {
        var j: nat :| j <= |server| && At(server, END_BRACE, j);
        AtBytes(server, COLON, CLOSE_BRACE, j);
        AtBytes(s, COLON, CLOSE_BRACE, p + j);
        var e := Find(s, END_BRACE).value;
        assert e <= p + j;
        if e >= p {
          assert |Ambiguate(s).0| <= j < |server|;
        } else {
          assert |Ambiguate(s).0| == |s| - p > |server|;
        }
      }
    }
  }
}
