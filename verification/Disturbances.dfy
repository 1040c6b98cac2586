/** What goes wrong after a disturbed call, on concrete connections. */
module Disturbances {
  import opened Bytes
  import opened Wire
  import opened Disk
  import opened Pieces
  import opened Process
  import opened Protocol
  import opened Exchange
  import opened Rpc

  const MINUS_ONE: Str := [255, 255, 255, 255, 255, 255, 255, 255]

  // What the client reads when -1 comes after a byte 5.
  const SHIFTED: Str := [5, 255, 255, 255, 255, 255, 255, 255]

  lemma {:induction false} OnesValue(bs: Str)
    requires forall i :: 0 <= i < |bs| ==> bs[i] == 255
    ensures FromBigEndian(bs) == Pow256(|bs|) - 1
  {
    if bs != [] {
      OnesValue(bs[..|bs| - 1]);
    }
  }

  lemma MinusOneEncoded()
    ensures EncError(-1) == MINUS_ONE
  {
    OnesValue(MINUS_ONE);
    BigEndianEncodes(MINUS_ONE);
    Pow256Values();
  }

  lemma ShiftedIsPositive()
    ensures DecError(SHIFTED) >= 0
  {
    TopBitClear(SHIFTED);
    assert Pow256(7) * 256 == Pow256(8);
    Pow256Values();
  }

  // The denial of an ACCESS on a connection where the call before has left one byte.
  lemma DenialShifted(l: Link, e: I64)
    requires l.cli == SendMask(F_OK).k && l.srv == Send(EncError(-1), TOP) && l.c2s == [] && l.s2c == [5]
    requires e == DecError(SHIFTED)
    ensures Reaches(l, l.(cli := Ret(Status(e)), srv := TOP, s2c := [255]))
  {
    SrvSends(l);
    MinusOneEncoded();
    var l1 := l.(srv := TOP, s2c := [5] + MINUS_ONE);
    assert l1.s2c == SHIFTED + [255];
    CliReceives(l1, SHIFTED, [255]);
    Compose(l, l1, l.(cli := Ret(Status(e)), srv := TOP, s2c := [255]));
  }

  // An ACCESS of a missing path, up to the point where the server has its answer.
  lemma AccessAsked(missing: CStr, l: Link)
    requires missing !in l.tree && l.cli == Stub(CheckAccess(missing, F_OK), l.o) && l.srv == TOP && l.c2s == []
    ensures Reaches(l, l.(cli := SendMask(F_OK).k, srv := Send(EncError(-1), TOP), served := l.served + 1))
  {
    Opening(l, ACCESS, missing, SendMask(F_OK), (p: Str) => AnswerAccess(l.tree, p));
    var l1 := l.(cli := SendMask(F_OK), srv := AnswerAccess(l.tree, missing), served := l.served + 1);
    MaskInverse(F_OK);
    FieldUp(l1);
    Compose(l, l1, l1.(cli := SendMask(F_OK).k, srv := Send(EncError(-1), TOP)));
  }

  lemma AccessAfterLeftover(missing: CStr, l: Link, e: I64)
    requires missing !in l.tree && l.cli == Stub(CheckAccess(missing, F_OK), l.o) && l.srv == TOP && l.c2s == []
    requires l.s2c == [5] && e == DecError(SHIFTED)
    ensures Reaches(l, l.(cli := Ret(Status(e)), s2c := [255], served := l.served + 1))
  {
    AccessAsked(missing, l);
    var l1 := l.(cli := SendMask(F_OK).k, srv := Send(EncError(-1), TOP), served := l.served + 1);
    DenialShifted(l1, e);
    Compose(l, l1, l.(cli := Ret(Status(e)), s2c := [255], served := l.served + 1));
  }

  // A READ of two bytes of which the client's one read returns the first: the reply ends in a zero that is not in the
  // file, and the other byte stays on the connection ...
  lemma ShortRead(t: Tree, path: CStr, o: Chance)
    requires path in t && t[path].body == File([7, 5]) && t[path].refused == map[] && o.fetched == 1 && !o.fails
    ensures Exchanges(ReadFile(path, 2, 0), t, o, 0)
    ensures End(ReadFile(path, 2, 0), t, o, 0) == Link(Ret(Data([7, 0], 1)), TOP, [], [5], t, o, 1)
  {
    var d: Content := [7, 5];
    assert Slice(d, 0, 2) == d && OpenStatus(t, path, O_RDONLY) == 0;
    assert Read(t, path, 2, 0, false) == (d, 2);
    assert d[..1] == [7] && d[1..] == [5];
    assert DataReply([7], 2, 2) == Data([7, 0], 1) by { assert Zeros(1) == [0]; }
    Exchanged(ReadFile(path, 2, 0), t, o, 0);
  }

  // ... where the denial of the next ACCESS is understood as a success.
  lemma ShortReadCorruptsNext(t: Tree, path: CStr, missing: CStr, o: Chance)
    requires path in t && t[path].body == File([7, 5]) && t[path].refused == map[] && o.fetched == 1 && !o.fails
    requires missing !in t
    ensures var next := CheckAccess(missing, F_OK);
            && LocalReply(t, next, o) == Status(-1)
            && exists e: I64 :: e >= 0 && Reaches(End(ReadFile(path, 2, 0), t, o, 0).(cli := Stub(next, o)),
                                                  Link(Ret(Status(e)), TOP, [], [255], t, o, 2))
  {
    ShortRead(t, path, o);
    var l := End(ReadFile(path, 2, 0), t, o, 0).(cli := Stub(CheckAccess(missing, F_OK), o));
    AccessAfterLeftover(missing, l, DecError(SHIFTED));
    ShiftedIsPositive();
  }

  lemma StopBytes()
    ensures DecCmd([0, 0]) == STOP
  {
    var bs: Str := [0, 0];
    assert bs[..1] == [0] && [0][..0] == [];
  }

  // A WRITE whose first local write fails, with two zero bytes still to come: the server takes them for STOP.
  lemma FailedWriteStopsServer(t: Tree, path: CStr, errno: Errno, o: Chance)
    requires OpenStatus(t, path, O_WRONLY) == 0 && o.pieces == [Failed(1, errno)]
    ensures var c := WriteFile(path, 0, [7, 0, 0]);
            && Exchanges(c, t, o, 0) && LocalReply(t, c, o) == Written(3, -(errno as int))
            && SrvEnabled(End(c, t, o, 0)) && SrvStep(End(c, t, o, 0)).srv == Ret(Closed)
  {
    var c := WriteFile(path, 0, [7, 0, 0]);
    FirstPieceFails(t, path, errno, o);
    Exchanged(c, t, o, 0);
    StopBytes();
    StopTaken(End(c, t, o, 0));
  }

  lemma FirstPieceFails(t: Tree, path: CStr, errno: Errno, o: Chance)
    requires OpenStatus(t, path, O_WRONLY) == 0 && o.pieces == [Failed(1, errno)]
    ensures var c := WriteFile(path, 0, [7, 0, 0]);
            Admissible(t, c, o) && LeftUp(t, c, o) == [0, 0] && LocalReply(t, c, o) == Written(3, -(errno as int))
  {
    assert o.pieces[1..] == [] && Taken(o.pieces) == 1;
    var data: Str := [7, 0, 0];
    assert data[1..] == [0, 0];
  }

  lemma StopTaken(l: Link)
    requires l.srv == TOP && l.c2s == [0, 0] && DecCmd([0, 0]) == STOP
    ensures SrvEnabled(l) && SrvStep(l).srv == Ret(Closed)
  {
    assert l.c2s[..2] == [0, 0];
  }
}
