/** The iteration order of std::map<std::string, ...>: ascending keys, compared byte by byte. */
module StdMap {
  import opened Bytes

  predicate Less(a: Str, b: Str) {
    if b == [] then false
    else if a == [] then true
    else if a[0] != b[0] then a[0] < b[0]
    else Less(a[1..], b[1..])
  }

  // The strings agree up to position i, where the first ends or has the smaller byte.
  predicate SmallerAt(a: Str, b: Str, i: nat) {
    i <= |a| && i < |b| && a[..i] == b[..i] && (i == |a| || a[i] < b[i])
  }

  lemma SameHead(a: Str, b: Str, i: nat)
    requires i > 0 && SmallerAt(a, b, i)
    ensures a[0] == b[0]
  {
    assert a[..i][0] == a[0] && b[..i][0] == b[0];
  }

  // Less is the order of std::string: a proper prefix comes first, and otherwise the first byte that differs decides.
  lemma {:induction false} LessIs(a: Str, b: Str)
    ensures Less(a, b) <==> exists i: nat :: SmallerAt(a, b, i)
  {
    if a == [] {
      assert b != [] ==> SmallerAt(a, b, 0);
    } else if b != [] && a[0] == b[0] {
      LessIs(a[1..], b[1..]);
      assert a == [a[0]] + a[1..] && b == [b[0]] + b[1..];
      if i: nat :| SmallerAt(a[1..], b[1..], i) {
        assert a[..i + 1] == [a[0]] + a[1..][..i] && b[..i + 1] == [b[0]] + b[1..][..i];
        assert SmallerAt(a, b, i + 1);
      }
      if i: nat :| SmallerAt(a, b, i) {
        assert a[1..][..i - 1] == a[..i][1..] && b[1..][..i - 1] == b[..i][1..];
        assert SmallerAt(a[1..], b[1..], i - 1);
      }
    } else if b != [] {
      if a[0] < b[0] { assert SmallerAt(a, b, 0); }
      if i: nat :| SmallerAt(a, b, i) {
        if i > 0 { SameHead(a, b, i); }
      }
    }
  }

  lemma {:induction false} LessTrichotomy(a: Str, b: Str)
    ensures !(Less(a, b) && Less(b, a))
    ensures a != b ==> Less(a, b) || Less(b, a)
    ensures a == b ==> !Less(a, b)
  {
    if a != [] && b != [] && a[0] == b[0] {
      LessTrichotomy(a[1..], b[1..]);
      if a != b { assert a == [a[0]] + a[1..] && b == [b[0]] + b[1..]; }
    }
  }

  lemma {:induction false} LessTransitive(a: Str, b: Str, c: Str)
    requires Less(a, b) && Less(b, c)
    ensures Less(a, c)
  {
    if a != [] && a[0] == b[0] == c[0] {
      LessTransitive(a[1..], b[1..], c[1..]);
    }
  }

  predicate IsLeast(m: Str, s: set<Str>) {
    m in s && forall k :: k in s ==> k == m || Less(m, k)
  }

  lemma {:induction false} LeastExists(s: set<Str>)
    requires s != {}
    ensures exists m :: IsLeast(m, s)
  {
    var x :| x in s;
    if s == {x} {
      assert IsLeast(x, s);
    } else {
      LeastExists(s - {x});
      var y :| IsLeast(y, s - {x});
      LessTrichotomy(x, y);
      var m := if Less(x, y) then x else y;
      forall k | k in s ensures k == m || Less(m, k) {
        if Less(x, y) && k != x && k != y { LessTransitive(x, y, k); }
      }
      assert IsLeast(m, s);
    }
  }

  lemma LeastUnique(a: Str, b: Str, s: set<Str>)
    requires IsLeast(a, s) && IsLeast(b, s)
    ensures a == b
  {
    LessTrichotomy(a, b);
  }

  function Least(s: set<Str>): (m: Str)
    requires s != {}
    ensures IsLeast(m, s)
  {
    LeastExists(s);
    assert forall a, b :: IsLeast(a, s) && IsLeast(b, s) ==> a == b by {
      forall a, b | IsLeast(a, s) && IsLeast(b, s) ensures a == b { LeastUnique(a, b, s); }
    }
    var m :| IsLeast(m, s);
    m
  }

  predicate Ascending(r: seq<Str>) {
    forall i, j :: 0 <= i < j < |r| ==> Less(r[i], r[j])
  }

  // begin() to end()
  function Ordered(s: set<Str>): (r: seq<Str>)
    ensures |r| == |s|
    ensures forall k :: k in r <==> k in s
    ensures Ascending(r)
    decreases |s|
  {
    if s == {} then [] else
      var m := Least(s);
      var rest := Ordered(s - {m});
      assert forall i :: 0 <= i < |rest| ==> rest[i] in rest;
      [m] + rest
  }

  // No key is visited twice.
  lemma AscendingDistinct(r: seq<Str>, i: nat, j: nat)
    requires Ascending(r) && i < |r| && j < |r| && r[i] == r[j]
    ensures i == j
  {
    LessTrichotomy(r[i], r[j]);
  }
}
