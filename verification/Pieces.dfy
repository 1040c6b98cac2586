/**
 * The pieces of a WRITE transfer: what each read of the socket took and what the local write made of it. Sockets and
 * files decide that, so a list of pieces stands for one course the loop of the server can take.
 */
module Pieces {
  import opened Bytes
  import opened Disk

  type Positive = n: nat | n > 0 witness 1

  datatype Piece =
    | Wrote(read: Positive, n: Positive)       // `read` bytes taken, the first n of them written
    | Failed(read: Positive, errno: Errno)     // `read` bytes taken, nothing written; the transfer ends
    | Gone                                     // no more bytes: the client has gone

  // A course the transfer of `want` bytes to position pos can take.
  predicate Possible(ps: seq<Piece>, want: nat, pos: nat) {
    if want == 0 then ps == []
    else
      ps != [] &&
      match ps[0]
      case Wrote(read, n) => n <= read <= want && pos + n < TWO_63 && Possible(ps[1..], want - read, pos + n)
      case Failed(read, _) => read <= want && ps == [ps[0]]
      case Gone => ps == [ps[0]]
  }

  // Bytes taken from the connection.
  function Taken(ps: seq<Piece>): nat {
    if ps == [] then 0 else (if ps[0].Gone? then 0 else ps[0].read) + Taken(ps[1..])
  }

  // Bytes put into the file.
  function Total(ps: seq<Piece>): nat {
    if ps == [] then 0 else (if ps[0].Wrote? then ps[0].n else 0) + Total(ps[1..])
  }

  // What is put into the file: the written part of every piece. The rest of a piece is lost.
  function Put(data: Str, ps: seq<Piece>): Str {
    if ps == [] || ps[0].Gone? then []
    else
      var chunk := data[..Min(ps[0].read, |data|)];
      (if ps[0].Wrote? then chunk[..Min(ps[0].n, |chunk|)] else []) + Put(data[|chunk|..], ps[1..])
  }

  // The local error that ended the transfer.
  function Failure(ps: seq<Piece>): Option<Errno> {
    if ps != [] && ps[|ps| - 1].Failed? then Some(ps[|ps| - 1].errno) else None
  }

  // The result of the last read or write.
  function LastResult(ps: seq<Piece>): nat {
    if ps != [] && ps[|ps| - 1].Wrote? then ps[|ps| - 1].n else 0
  }

  // Every local write took its whole piece.
  predicate Full(ps: seq<Piece>) {
    forall i :: 0 <= i < |ps| ==> ps[i].Wrote? && ps[i].n == ps[i].read
  }

  predicate Stays(ps: seq<Piece>) {
    forall i :: 0 <= i < |ps| ==> !ps[i].Gone?
  }

  // The beginning of such a course: what happens while the loop goes on.
  predicate Underway(ps: seq<Piece>, want: nat, pos: nat) {
    ps == [] ||
    (ps[0].Wrote? && ps[0].n <= ps[0].read <= want && pos + ps[0].n < TWO_63
     && Underway(ps[1..], want - ps[0].read, pos + ps[0].n))
  }

  /* ---- Conservation ---- */

  // At most as many bytes are put into the file as were taken, and at most as many taken as were sent; all of them
  // unless a local write failed or the client went away.
  lemma {:induction false} Conserved(ps: seq<Piece>, want: nat, pos: nat, data: Str)
    requires Possible(ps, want, pos)
    ensures LastResult(ps) <= Total(ps) <= Taken(ps) <= want
    ensures Taken(ps) <= |data| ==> |Put(data, ps)| == Total(ps)
    ensures Failure(ps) == None && Stays(ps) ==> Taken(ps) == want
    ensures pos < TWO_63 ==> pos + Total(ps) < TWO_63
    decreases |ps|
  {
    if want > 0 && ps[0].Wrote? {
      var data' := data[|data[..Min(ps[0].read, |data|)]|..];
      Conserved(ps[1..], want - ps[0].read, pos + ps[0].n, data');
      if ps[1..] == [] {
        assert want == ps[0].read;
      } else {
        assert ps[|ps| - 1] == ps[1..][|ps| - 2];
      }
      assert Stays(ps) ==> Stays(ps[1..]);
    } else if want > 0 {
      assert ps[1..] == [];
    }
  }

  // A client that has gone had not sent everything.
  lemma {:induction false} GoneIsShort(ps: seq<Piece>, want: nat, pos: nat)
    requires Possible(ps, want, pos) && !Stays(ps)
    ensures Taken(ps) < want
    decreases |ps|
  {
    if ps[0].Wrote? {
      GoneIsShort(ps[1..], want - ps[0].read, pos + ps[0].n);
    } else {
      assert ps[1..] == [];
    }
  }

  // The whole buffer is written if and only if every local write took its whole piece; then the file gets just that.
  lemma {:induction false} WholeIffFull(ps: seq<Piece>, want: nat, pos: nat, data: Str)
    requires Possible(ps, want, pos) && want <= |data|
    ensures Total(ps) == want <==> Full(ps)
    ensures Full(ps) ==> Taken(ps) == want && Put(data, ps) == data[..want]
    decreases |ps|
  {
    if want > 0 && ps[0].Wrote? {
      var Wrote(read, n) := ps[0];
      WholeIffFull(ps[1..], want - read, pos + n, data[read..]);
      Conserved(ps[1..], want - read, pos + n, data[read..]);
      assert forall i :: 1 <= i < |ps| ==> ps[i] == ps[1..][i - 1];
      assert Full(ps) <==> n == read && Full(ps[1..]);
      if Full(ps) {
        assert data[..read] + data[read..][..want - read] == data[..want];
      }
    } else if want > 0 {
      assert ps[1..] == [];
    }
  }

  // The last part of the first piece that was cut short is lost, and what follows takes its place: three bytes of which
  // the first two came in one piece and only one of these could be written.
  lemma ShortWriteLosesBytes()
    ensures var ps := [Wrote(2, 1), Wrote(1, 1)];
            Possible(ps, 3, 0) && Total(ps) == 2 && Put([1, 2, 3], ps) == [1, 3]
  {
    var ps: seq<Piece> := [Wrote(2, 1), Wrote(1, 1)];
    assert ps[1..] == [Wrote(1, 1)] && ps[1..][1..] == [];
    assert Possible(ps[1..], 1, 1) && Put([3], ps[1..]) == [3];
    var data: Str := [1, 2, 3];
    assert data[..2] == [1, 2] && data[2..] == [3] && data[..2][..1] == [1];
  }

  /* ---- Piece by piece ---- */

  lemma {:induction false} JoinedCounts(ps: seq<Piece>, qs: seq<Piece>)
    ensures Taken(ps + qs) == Taken(ps) + Taken(qs) && Total(ps + qs) == Total(ps) + Total(qs)
  {
    if ps == [] {
      assert ps + qs == qs;
    } else {
      assert (ps + qs)[1..] == ps[1..] + qs;
      JoinedCounts(ps[1..], qs);
    }
  }

  // A course goes on from where its beginning has led.
  lemma {:induction false} JoinedPossible(ps: seq<Piece>, qs: seq<Piece>, want: nat, pos: nat)
    requires Underway(ps, want, pos)
    ensures Taken(ps) <= want
    ensures Possible(qs, want - Taken(ps), pos + Total(ps)) ==> Possible(ps + qs, want, pos)
    ensures Underway(qs, want - Taken(ps), pos + Total(ps)) ==> Underway(ps + qs, want, pos)
    decreases |ps|
  {
    if ps == [] {
      assert ps + qs == qs;
    } else {
      assert (ps + qs)[1..] == ps[1..] + qs;
      JoinedPossible(ps[1..], qs, want - ps[0].read, pos + ps[0].n);
    }
  }

  lemma PutFirst(data: Str, ps: seq<Piece>)
    requires ps != [] && ps[0].Wrote? && ps[0].n <= ps[0].read <= |data|
    ensures Put(data, ps) == data[..ps[0].n] + Put(data[ps[0].read..], ps[1..])
  {
    assert data[..ps[0].read][..ps[0].n] == data[..ps[0].n];
  }

  lemma WriteNothing(t: Tree, path: Str, pos: nat)
    ensures WriteAt(t, path, pos, []) == t
  {
    if path in t && t[path].body.File? {
      assert Splice(t[path].body.data, pos, []) == t[path].body.data;
    }
  }

  lemma {:induction false} PutOfNothing(ps: seq<Piece>)
    ensures Put([], ps) == []
  {
    if ps != [] && !ps[0].Gone? {
      PutOfNothing(ps[1..]);
    }
  }

  // The first piece, and then the others.
  lemma WriteFirst(t: Tree, path: Str, pos: nat, x: Str, ps: seq<Piece>)
    requires ps != [] && ps[0].Wrote? && ps[0].n <= ps[0].read <= |x|
    ensures WriteAt(WriteAt(t, path, pos, x[..ps[0].n]), path, pos + ps[0].n, Put(x[ps[0].read..], ps[1..])) ==
            WriteAt(t, path, pos, Put(x, ps))
  {
    var a, b, both := x[..ps[0].n], Put(x[ps[0].read..], ps[1..]), Put(x, ps);
    assert both == a + b && |a| == ps[0].n by {
      PutFirst(x, ps);
    }
    WriteOnto(t, path, pos, a, b, both, |a|);
  }

  lemma {:induction false} JoinedPut(ps: seq<Piece>, qs: seq<Piece>, want: nat, pos: nat, data: Str)
    requires Underway(ps, want, pos) && Taken(ps) <= |data|
    ensures |Put(data, ps)| == Total(ps)
    ensures Put(data, ps + qs) == Put(data, ps) + Put(data[Taken(ps)..], qs)
    decreases |ps|
  {
    if ps == [] {
      assert ps + qs == qs && data[0..] == data;
    } else {
      var read, n := ps[0].read, ps[0].n;
      var rest := data[read..];
      assert (ps + qs)[1..] == ps[1..] + qs;
      assert rest[Taken(ps[1..])..] == data[Taken(ps)..];
      PutFirst(data, ps);
      PutFirst(data, ps + qs);
      JoinedPut(ps[1..], qs, want - read, pos + n, rest);
      Associate(data[..n], Put(rest, ps[1..]), Put(data[Taken(ps)..], qs));
    }
  }

  // One more piece that is written ...
  lemma NextWritten(ps: seq<Piece>, want: nat, pos: nat, m: Positive, n: Positive)
    requires Underway(ps, want, pos) && n <= m && Taken(ps) + m <= want && pos + Total(ps) + n < TWO_63
    ensures var ps' := ps + [Wrote(m, n)];
            Underway(ps', want, pos) && Taken(ps') == Taken(ps) + m && Total(ps') == Total(ps) + n
  {
    var qs := [Wrote(m, n)];
    assert qs[1..] == [] && Taken(qs) == m && Total(qs) == n;
    JoinedCounts(ps, qs);
    assert Underway(qs, want - Taken(ps), pos + Total(ps));
    JoinedPossible(ps, qs, want, pos);
  }

  lemma NextPut(data: Str, ps: seq<Piece>, want: nat, pos: nat, m: Positive, n: Positive)
    requires Underway(ps, want, pos) && n <= m && Taken(ps) + m <= |data|
    ensures |Put(data, ps)| == Total(ps)
    ensures Put(data, ps + [Wrote(m, n)]) == Put(data, ps) + data[Taken(ps)..][..n]
  {
    var qs, rest := [Wrote(m, n)], data[Taken(ps)..];
    JoinedPut(ps, qs, want, pos, data);
    PutFirst(rest, qs);
    assert qs[1..] == [] && Put(rest, qs) == rest[..n];
  }

  lemma WriteOnto(t: Tree, path: Str, pos: nat, a: Str, b: Str, both: Str, n: nat)
    requires both == a + b && n == |a|
    ensures WriteAt(WriteAt(t, path, pos, a), path, pos + n, b) == WriteAt(t, path, pos, both)
  {
    WriteChunks(t, path, pos, a, b);
  }

  // ... and one that ends the transfer.
  lemma NextEnds(data: Str, ps: seq<Piece>, want: nat, pos: nat, p: Piece)
    requires Underway(ps, want, pos) && Taken(ps) <= |data| && !p.Wrote?
    requires Taken(ps) < want && (p.Failed? ==> Taken(ps) + p.read <= want)
    ensures var ps' := ps + [p];
            && Possible(ps', want, pos) && Total(ps') == Total(ps)
            && Taken(ps') == Taken(ps) + (if p.Failed? then p.read else 0)
            && Put(data, ps') == Put(data, ps)
  {
    var qs := [p];
    assert qs[1..] == [] && Taken(qs[1..]) == 0 && Total(qs[1..]) == 0;
    JoinedCounts(ps, qs);
    JoinedPossible(ps, qs, want, pos);
    JoinedPut(ps, qs, want, pos, data);
    assert Put(data[Taken(ps)..], qs) == [];
  }

  lemma AllTaken(ps: seq<Piece>, want: nat, pos: nat)
    requires Underway(ps, want, pos) && Taken(ps) == want
    ensures Possible(ps, want, pos) && Failure(ps) == None && Stays(ps)
  {
    JoinedPossible(ps, [], want, pos);
    assert ps + [] == ps;
    OnlyWrites(ps, want, pos);
  }

  lemma {:induction false} OnlyWrites(ps: seq<Piece>, want: nat, pos: nat)
    requires Underway(ps, want, pos)
    ensures forall i :: 0 <= i < |ps| ==> ps[i].Wrote?
    decreases |ps|
  {
    if ps != [] {
      OnlyWrites(ps[1..], want - ps[0].read, pos + ps[0].n);
      assert forall i :: 1 <= i < |ps| ==> ps[i] == ps[1..][i - 1];
    }
  }

  // What the last piece was.
  lemma LastOne(ps: seq<Piece>, want: nat, pos: nat, p: Piece)
    requires Underway(ps, want, pos)
    ensures LastResult(ps + [p]) == if p.Wrote? then p.n else 0
    ensures Failure(ps + [p]) == if p.Failed? then Some(p.errno) else None
    ensures !p.Gone? ==> Stays(ps + [p])
  {
    OnlyWrites(ps, want, pos);
  }

  // The end of the rest is the end of the whole.
  lemma LaterPieces(ps: seq<Piece>, last: nat)
    requires ps != [] && ps[0].Wrote? && ps[0].n == last
    ensures Failure(ps[1..]) == Failure(ps)
    ensures LastResult(ps) == if ps[1..] == [] then last else LastResult(ps[1..])
    ensures Stays(ps) ==> Stays(ps[1..])
  {
    if ps[1..] != [] {
      assert ps[|ps| - 1] == ps[1..][|ps| - 2];
    }
  }
}
