/** ethercateoe.c: receiving a whole Ethernet frame, blocking. */
module EoeReceive {
  import opened Bytes
  import opened Mailboxes
  import opened Eoe
  import opened EoeTransfer

  /** The checks ecx_EOErecv makes before it takes the data: error, or the state to go on with.  The
      buffer size is in st.psize. */
  function Admit(st: Rx, m: Mbx, port: byte): (r: (bool, Rx))
    ensures r.0 ==> r.1 == st.(frameSize := r.1.frameSize, frameOffset := r.1.frameOffset, frameNo := r.1.frameNo)
  {
    var no := FragmentNo(m.frameinfo2);
    if st.fragmentNo != no && no > 0 then (false, st)
    else if st.fragmentNo == 0 then
      (FrameOffset(m.frameinfo2) * 32 <= st.psize && port == FramePort(m.frameinfo1),
       st.(frameSize := FrameOffset(m.frameinfo2) * 32, frameOffset := 0, frameNo := FrameNo(m.frameinfo2)))
    else (st.frameNo == FrameNo(m.frameinfo2) && st.frameOffset == FrameOffset(m.frameinfo2) * 32, st)
  }

  predicate Ready(st: Rx) {
    st.frameOffset < 0x1_0000 && st.frameOffset <= st.psize == |st.buf| && st.fragmentNo < 0x100
  }

  lemma {:induction false} AdmitReady(st: Rx, m: Mbx, port: byte)
    requires Ready(st) && Admit(st, m, port).0
    ensures Ready(Admit(st, m, port).1)
  {
  }

  /** The mailbox holds the data its length field tells, as far as it fits the buffer. */
  predicate Whole(m: Mbx, room: nat) { DataSize(m) <= room ==> DataSize(m) <= |m.data| }

  function Keep(st: Rx, m: Mbx): (r: Rx)
    requires Ready(st) && Whole(m, |st.buf|)
    ensures Ready(r) && |r.buf| == |st.buf| && r.frameOffset <= st.frameOffset + DataSize(m)
  {
    var n := DataSize(m);
    if st.frameOffset + n <= st.psize
    then st.(buf := Put(st.buf, st.frameOffset, m.data[..n]), frameOffset := (st.frameOffset + n) % 0x1_0000,
             fragmentNo := (st.fragmentNo + 1) % 0x100)
    else st
  }

  function FinalSize(st: Rx, m: Mbx): nat {
    if TimeAppended(m.frameinfo1) then (st.frameOffset + 0x1_0000 - 4) % 0x1_0000 else st.frameOffset
  }

  datatype Result = Timeout | Failed(error: int) | Frame(psize: nat, buf: seq<byte>)

  predicate AllWhole(ms: seq<Mbx>, room: nat) { forall k :: 0 <= k < |ms| ==> Whole(ms[k], room) }

  /** ecx_EOErecv on the mailboxes that come in. */
  function Receive(st: Rx, ms: seq<Mbx>, port: byte): (r: Result)
    requires Ready(st) && AllWhole(ms, |st.buf|)
    ensures r.Frame? ==> |r.buf| == |st.buf|
    decreases |ms|
  {
    if ms == [] then Timeout
    else if !IsEoe(ms[0]) then Failed(PACKET_ERROR)
    else
      var (ok, st1) := Admit(st, ms[0], port);
      if !ok then Failed(INVALID_RX_DATA)
      else
        var st2 := Keep(st1, ms[0]);
        if LastFragment(ms[0].frameinfo1) then Frame(FinalSize(st2, ms[0]), st2.buf) else Receive(st2, ms[1..], port)
  }

  /** The frame has come whole. */
  predicate Intact(r: Result, p: seq<byte>) {
    r.Frame? && r.psize == |p| <= |r.buf| && r.buf[..|p|] == p
  }

  /** Where the last fragment of a frame starts. */
  function LastOffset(size: nat, maxdata: nat, k: nat): nat
    requires Cuttable(size, maxdata) && HasFragment(size, maxdata, k)
    decreases size - Offset(maxdata, k)
  {
    if IsLast(size, maxdata, k) then Offset(maxdata, k)
      else FragmentInside(size, maxdata, k + 1); LastOffset(size, maxdata, k + 1)
  }

  // ----- the parts of a fragment -----

  lemma {:induction false} Parts(p: seq<byte>, maxdata: nat, port: byte, frameNo: nat, cnt: nat, k: nat)
    requires Cuttable(|p|, maxdata) && HasFragment(|p|, maxdata, k) && cnt < 0x10
    ensures Offset(maxdata, k) + Size(|p|, maxdata, k) <= |p|
    ensures var m, at, n := Fragment(p, maxdata, port, frameNo, cnt, k), Offset(maxdata, k), Size(|p|, maxdata, k);
            && IsEoe(m) && DataSize(m) == n && m.data == p[at..at + n]
            && LastFragment(m.frameinfo1) == IsLast(|p|, maxdata, k) && !TimeAppended(m.frameinfo1)
            && FramePort(m.frameinfo1) == port % 0x10 && FragmentNo(m.frameinfo2) == k % 0x40
            && FrameNo(m.frameinfo2) == (frameNo + k / 0x100) % 0x10
            && FrameOffset(m.frameinfo2) * 32 == (if k % 0x100 > 0 then at else Rounded(|p|)) % 2048
  {
    FragmentInside(|p|, maxdata, k);
    FragmentSound(p, maxdata, port, frameNo, cnt, k);
    Steps(|p|, maxdata, k);
    OffsetBlocks(maxdata, k);
    var blocks := if k % 0x100 > 0 then Offset(maxdata, k) / 32 else (|p| + 31) / 32;
    hide Info1, Info2, FragmentNo, FrameNo, FrameOffset, FramePort, LastFragment, TimeAppended, DataSize, IsEoe,
      Size, IsLast;
    Header1(IsLast(|p|, maxdata, k), port);
    Header2(k, blocks, frameNo + k / 0x100);
    BlocksRound(blocks);
  }

  lemma {:induction false} BlocksRound(blocks: nat)
    ensures blocks % 0x40 * 32 == (blocks * 32) % 2048
  {
  }

  lemma {:induction false} AllFragmentsWhole(p: seq<byte>, maxdata: nat, port: byte, frameNo: nat, cnt: nat, k: nat,
                                             room: nat)
    requires Cuttable(|p|, maxdata) && HasFragment(|p|, maxdata, k) && cnt < 8
    ensures AllWhole(Fragments(p, maxdata, port, frameNo, cnt, k), room)
    decreases |p| - Offset(maxdata, k)
  {
    hide Fragment, Offset, DataSize;
    var c := NextCnt(cnt);
    Parts(p, maxdata, port, frameNo, c, k);
    Steps(|p|, maxdata, k);
    var ms := Fragments(p, maxdata, port, frameNo, cnt, k);
    if !IsLast(|p|, maxdata, k) {
      FragmentInside(|p|, maxdata, k + 1);
      AllFragmentsWhole(p, maxdata, port, frameNo, c, k + 1, room);
      var rest := Fragments(p, maxdata, port, frameNo, c, k + 1);
      assert forall j :: 0 <= j < |ms| ==>
               ms[j] == if j == 0 then Fragment(p, maxdata, port, frameNo, c, k) else rest[j - 1];
    }
  }

  /** What a caller could check: the port is one of 16, the frame fits the buffer, so does the size the
      first fragment tells, and the last fragment does not start beyond what the offset field can tell. */
  predicate Receivable(size: nat, maxdata: nat, port: byte, room: nat)
    requires Cuttable(size, maxdata)
  {
    port < 0x10 && size <= room && Rounded(size) % 2048 <= room && LastOffset(size, maxdata, 0) < 2048
  }

  /** The frame has been received up to fragment k. */
  predicate Upto(st: Rx, p: seq<byte>, maxdata: nat, frameNo: nat, k: nat) {
    && Offset(maxdata, k) <= |p| && Ready(st) && |p| <= st.psize && st.fragmentNo == k &&
      st.frameOffset == Offset(maxdata, k)
    && (k > 0 ==> st.frameNo == frameNo % 0x10) && st.buf[..Offset(maxdata, k)] == p[..Offset(maxdata, k)]
  }

  lemma {:induction false} LastOffsetAhead(size: nat, maxdata: nat, k: nat)
    requires Cuttable(size, maxdata) && HasFragment(size, maxdata, k)
    ensures Offset(maxdata, k) <= LastOffset(size, maxdata, k)
    decreases size - Offset(maxdata, k)
  {
    FragmentInside(size, maxdata, k);
    if !IsLast(size, maxdata, k) {
      FragmentInside(size, maxdata, k + 1);
      LastOffsetAhead(size, maxdata, k + 1);
    }
  }

  /** Each fragment that is due is admitted. */
  lemma {:induction false} Admitted(st: Rx, p: seq<byte>, maxdata: nat, port: byte, frameNo: nat, cnt: nat, k: nat)
    requires Cuttable(|p|, maxdata) && HasFragment(|p|, maxdata, k) && cnt < 0x10 && Upto(st, p, maxdata, frameNo, k)
    requires Offset(maxdata, k) < 2048 && port < 0x10 && Rounded(|p|) % 2048 <= st.psize
    ensures var (ok, st1) := Admit(st, Fragment(p, maxdata, port, frameNo, cnt, k), port);
            && ok && st1.fragmentNo == k < 0xff && st1.frameOffset == Offset(maxdata, k) &&
              st1.frameNo == frameNo % 0x10
            && st1.buf == st.buf && st1.psize == st.psize
  {
    hide Fragment, FragmentNo, FrameNo, FrameOffset, FramePort, HasFragment, Rounded, Offset;
    SmallParts(p, maxdata, port, frameNo, cnt, k);
  }

  lemma {:induction false} SmallParts(p: seq<byte>, maxdata: nat, port: byte, frameNo: nat, cnt: nat, k: nat)
    requires Cuttable(|p|, maxdata) && HasFragment(|p|, maxdata, k) && cnt < 0x10 && Offset(maxdata, k) < 2048 &&
             port < 0x10
    ensures k < 0x40 && (k == 0 ==> Offset(maxdata, k) == 0)
    ensures var m := Fragment(p, maxdata, port, frameNo, cnt, k);
            && FramePort(m.frameinfo1) == port && FragmentNo(m.frameinfo2) == k &&
              FrameNo(m.frameinfo2) == frameNo % 0x10
            && FrameOffset(m.frameinfo2) * 32 == if k > 0 then Offset(maxdata, k) else Rounded(|p|) % 2048
  {
    hide Fragment, FragmentNo, FrameNo, FrameOffset, FramePort, Rounded, Offset, Size, IsLast, DataSize, IsEoe,
      LastFragment, TimeAppended;
    Parts(p, maxdata, port, frameNo, cnt, k);
    FragmentInside(|p|, maxdata, k);
    SmallIndex(maxdata, k);
  }

  lemma {:induction false} SmallIndex(maxdata: nat, k: nat)
    requires Offset(maxdata, k) < 2048 && (k > 0 ==> maxdata >= 32)
    ensures k < 0x40 && (k == 0 ==> Offset(maxdata, k) == 0)
  {
    OffsetBlocks(maxdata, k);
    if k > 0 {
      assert 32 * k <= Offset(maxdata, k);
    }
  }

  lemma {:induction false} Kept(st: Rx, m: Mbx, p: seq<byte>, at: nat, n: nat)
    requires Ready(st) && Whole(m, |st.buf|) && DataSize(m) == n && at + n <= |p| <= st.psize && |p| < 0x1_0000 &&
             m.data == p[at..at + n]
    requires st.frameOffset == at && st.buf[..at] == p[..at] && st.fragmentNo < 0xff
    ensures var r := Keep(st, m);
            r == st.(buf := r.buf, frameOffset := at + n, fragmentNo := st.fragmentNo + 1) &&
              r.buf[..at + n] == p[..at + n]
  {
    hide DataSize;
    Glue(st.buf, p, at, n);
  }

  /** The fragments of a frame that can be received give the frame. */
  lemma {:induction false} ReceivesAll(st: Rx, p: seq<byte>, maxdata: nat, port: byte, frameNo: nat, cnt: nat, k: nat)
    requires Cuttable(|p|, maxdata) && HasFragment(|p|, maxdata, k) && cnt < 8 && Upto(st, p, maxdata, frameNo, k)
    requires LastOffset(|p|, maxdata, k) < 2048 && port < 0x10 && Rounded(|p|) % 2048 <= st.psize
    requires AllWhole(Fragments(p, maxdata, port, frameNo, cnt, k), |st.buf|)
    ensures Intact(Receive(st, Fragments(p, maxdata, port, frameNo, cnt, k), port), p)
    decreases |p| - Offset(maxdata, k)
  {
    hide Fragment, Offset, DataSize, Admit, Keep, LastFragment, TimeAppended, Rounded, IsEoe, Whole;
    var c, ms := NextCnt(cnt), Fragments(p, maxdata, port, frameNo, cnt, k);
    var m, at, n := Fragment(p, maxdata, port, frameNo, c, k), Offset(maxdata, k), Size(|p|, maxdata, k);
    LastOffsetAhead(|p|, maxdata, k);
    Parts(p, maxdata, port, frameNo, c, k);
    Admitted(st, p, maxdata, port, frameNo, c, k);
    var st1 := Admit(st, m, port).1;
    assert Whole(ms[0], |st.buf|);
    Kept(st1, m, p, at, n);
    Steps(|p|, maxdata, k);
    if IsLast(|p|, maxdata, k) {
      assert p[..at + n] == p;
    } else {
      FragmentInside(|p|, maxdata, k + 1);
      assert ms[1..] == Fragments(p, maxdata, port, frameNo, c, k + 1);
      ReceivesAll(Keep(st1, m), p, maxdata, port, frameNo, c, k + 1);
    }
  }

  lemma {:induction false} StampedWhole(m: Mbx, st: Rx, port: byte)
    requires m.frameinfo1 < 0x200 && Ready(st) && Whole(m, |st.buf|) && !TimeAppended(m.frameinfo1)
    ensures Whole(Stamped(m), |st.buf|) && IsEoe(Stamped(m)) == IsEoe(m)
    ensures Admit(st, Stamped(m), port) == Admit(st, m, port) && Keep(st, Stamped(m)) == Keep(st, m)
    ensures FinalSize(st, Stamped(m)) == (st.frameOffset + 0x1_0000 - 4) % 0x1_0000
    ensures LastFragment(Stamped(m).frameinfo1) == LastFragment(m.frameinfo1)
  {
    StampedHeader(m);
    hide FramePort, FrameNo, FrameOffset, LastFragment, TimeAppended;
  }

  lemma {:induction false} StampedAllWhole(ms: seq<Mbx>, room: nat)
    requires ms != [] && AllWhole(ms, room)
    ensures AllWhole(StampLast(ms), room)
  {
  }

  /** A frame with a time behind it is received without. */
  lemma {:induction false} TimeCut(st: Rx, p: seq<byte>, maxdata: nat, port: byte, frameNo: nat, cnt: nat, k: nat)
    requires Cuttable(|p|, maxdata) && HasFragment(|p|, maxdata, k) && cnt < 8 && Upto(st, p, maxdata, frameNo, k)
    requires LastOffset(|p|, maxdata, k) < 2048 && port < 0x10 && Rounded(|p|) % 2048 <= st.psize && |p| >= 4
    requires AllWhole(Fragments(p, maxdata, port, frameNo, cnt, k), |st.buf|)
    ensures AllWhole(StampLast(Fragments(p, maxdata, port, frameNo, cnt, k)), |st.buf|)
    ensures Intact(Receive(st, StampLast(Fragments(p, maxdata, port, frameNo, cnt, k)), port), p[..|p| - 4])
    decreases |p| - Offset(maxdata, k)
  {
    hide Fragment, Offset, DataSize, Admit, Keep, LastFragment, TimeAppended, Rounded, IsEoe, Whole, Stamped, FinalSize;
    var c, ms := NextCnt(cnt), Fragments(p, maxdata, port, frameNo, cnt, k);
    var m, at, n := Fragment(p, maxdata, port, frameNo, c, k), Offset(maxdata, k), Size(|p|, maxdata, k);
    StampedAllWhole(ms, |st.buf|);
    LastOffsetAhead(|p|, maxdata, k);
    Parts(p, maxdata, port, frameNo, c, k);
    Admitted(st, p, maxdata, port, frameNo, c, k);
    var st1 := Admit(st, m, port).1;
    assert Whole(ms[0], |st.buf|);
    Kept(st1, m, p, at, n);
    Steps(|p|, maxdata, k);
    if IsLast(|p|, maxdata, k) {
      LastHeader(p, maxdata, port, frameNo, c, k);
      StampedWhole(m, st, port);
      StampedWhole(m, st1, port);
      StampedWhole(m, Keep(st1, m), port);
      var buf := Keep(st1, m).buf;
      assert p[..at + n] == p && buf[..|p| - 4] == buf[..|p|][..|p| - 4];
      assert StampLast(ms) == [Stamped(m)];
    } else {
      FragmentInside(|p|, maxdata, k + 1);
      var rest := Fragments(p, maxdata, port, frameNo, c, k + 1);
      assert ms[1..] == rest && ms == [m] + rest;
      StampedRest(m, rest);
      TimeCut(Keep(st1, m), p, maxdata, port, frameNo, c, k + 1);
    }
  }

  /** Bytes that were not taken once are missing in the end. */
  lemma {:induction false} StaysShort(st: Rx, p: seq<byte>, maxdata: nat, port: byte, frameNo: nat, cnt: nat, k: nat)
    requires Cuttable(|p|, maxdata) && HasFragment(|p|, maxdata, k) && cnt < 8 && Ready(st)
    requires st.frameOffset < Offset(maxdata, k)
    requires AllWhole(Fragments(p, maxdata, port, frameNo, cnt, k), |st.buf|)
    ensures !Intact(Receive(st, Fragments(p, maxdata, port, frameNo, cnt, k), port), p)
    decreases |p| - Offset(maxdata, k)
  {
    hide Fragment, Offset, DataSize, Keep, LastFragment, TimeAppended, IsEoe, Whole, FragmentNo, FrameNo,
      FrameOffset, FramePort;
    var c, ms := NextCnt(cnt), Fragments(p, maxdata, port, frameNo, cnt, k);
    var m := Fragment(p, maxdata, port, frameNo, c, k);
    Parts(p, maxdata, port, frameNo, c, k);
    Steps(|p|, maxdata, k);
    assert Whole(ms[0], |st.buf|);
    var (ok, st1) := Admit(st, m, port);
    if ok && !IsLast(|p|, maxdata, k) {
      FragmentInside(|p|, maxdata, k + 1);
      assert ms[1..] == Fragments(p, maxdata, port, frameNo, c, k + 1);
      StaysShort(Keep(st1, m), p, maxdata, port, frameNo, c, k + 1);
    }
  }

  /** A fragment that starts beyond 2047 is not taken where it belongs. */
  lemma {:induction false} TooFar(st: Rx, p: seq<byte>, maxdata: nat, port: byte, frameNo: nat, cnt: nat, k: nat)
    requires Cuttable(|p|, maxdata) && HasFragment(|p|, maxdata, k) && cnt < 8 && Ready(st)
    requires st.frameOffset <= Offset(maxdata, k) && LastOffset(|p|, maxdata, k) >= 2048
    requires AllWhole(Fragments(p, maxdata, port, frameNo, cnt, k), |st.buf|)
    ensures !Intact(Receive(st, Fragments(p, maxdata, port, frameNo, cnt, k), port), p)
    decreases |p| - Offset(maxdata, k)
  {
    hide Fragment, Offset, DataSize, Keep, LastFragment, TimeAppended, IsEoe, Whole, FragmentNo, FrameNo, FramePort;
    var c, ms := NextCnt(cnt), Fragments(p, maxdata, port, frameNo, cnt, k);
    var m := Fragment(p, maxdata, port, frameNo, c, k);
    Parts(p, maxdata, port, frameNo, c, k);
    Steps(|p|, maxdata, k);
    assert Whole(ms[0], |st.buf|);
    var (ok, st1) := Admit(st, m, port);
    if ok && !IsLast(|p|, maxdata, k) {
      FragmentInside(|p|, maxdata, k + 1);
      assert ms[1..] == Fragments(p, maxdata, port, frameNo, c, k + 1);
      TooFar(Keep(st1, m), p, maxdata, port, frameNo, c, k + 1);
    }
  }

  /** A frame, sent in fragments without loss, is received exactly when the caller could tell so before.  The
      limits are not those of reading fragment by fragment: the buffer must hold the size rounded up to
      blocks, but frames longer than 2016 bytes can get through. */
  lemma {:induction false} ReceivedIff(st: Rx, p: seq<byte>, maxdata: nat, port: byte, frameNo: nat, cnt: nat)
    requires Cuttable(|p|, maxdata) && cnt < 8 && Ready(st) && st.fragmentNo == 0 && st.frameOffset == 0
    ensures AllWhole(Fragments(p, maxdata, port, frameNo, cnt, 0), |st.buf|)
    ensures Intact(Receive(st, Fragments(p, maxdata, port, frameNo, cnt, 0), port), p) <==>
              Receivable(|p|, maxdata, port, st.psize)
  {
    hide Fragments, LastOffset, Receive, AllWhole, Rounded;
    AllFragmentsWhole(p, maxdata, port, frameNo, cnt, 0, |st.buf|);
    if Receivable(|p|, maxdata, port, st.psize) {
      ReceivesAll(st, p, maxdata, port, frameNo, cnt, 0);
    } else if LastOffset(|p|, maxdata, 0) >= 2048 {
      TooFar(st, p, maxdata, port, frameNo, cnt, 0);
    } else {
      Refused(st, p, maxdata, port, frameNo, cnt);
    }
  }

  lemma {:induction false} Refused(st: Rx, p: seq<byte>, maxdata: nat, port: byte, frameNo: nat, cnt: nat)
    requires Cuttable(|p|, maxdata) && cnt < 8 && Ready(st) && st.fragmentNo == 0 && st.frameOffset == 0
    requires AllWhole(Fragments(p, maxdata, port, frameNo, cnt, 0), |st.buf|)
    requires port >= 0x10 || |p| > st.psize || Rounded(|p|) % 2048 > st.psize
    ensures !Intact(Receive(st, Fragments(p, maxdata, port, frameNo, cnt, 0), port), p)
  {
    if port >= 0x10 || Rounded(|p|) % 2048 > st.psize {
      Parts(p, maxdata, port, frameNo, NextCnt(cnt), 0);
      hide Fragment, FragmentNo, FrameNo, FrameOffset, FramePort, HasFragment, Rounded, IsEoe, DataSize,
        LastFragment, Keep;
    } else {
      hide Receive;
    }
  }

  /** The checks before the data of a fragment are taken. */
  method Check(m: Mbx, port: byte, ghost st: Rx, rxfragmentno: nat, rxframesize: nat, rxframeoffset: nat,
               rxframeno: nat, buffersize: nat)
    returns (ok: bool, frameSize: nat, frameOffset: nat, frameNo: nat)
    requires st == Rx(rxfragmentno, rxframesize, rxframeoffset, rxframeno, buffersize, st.buf)
    ensures ok == Admit(st, m, port).0
    ensures ok ==> Admit(st, m, port).1 == st.(frameSize := frameSize, frameOffset := frameOffset, frameNo := frameNo)
  {
    hide FragmentNo, FrameNo, FrameOffset, FramePort;
    frameSize, frameOffset, frameNo := rxframesize, rxframeoffset, rxframeno;
    if rxfragmentno != FragmentNo(m.frameinfo2) && FragmentNo(m.frameinfo2) > 0 {
      ok := false;
    } else if rxfragmentno == 0 {
      frameOffset := 0;
      frameNo := FrameNo(m.frameinfo2);
      frameSize := FrameOffset(m.frameinfo2) * 32;
      ok := frameSize <= buffersize && port == FramePort(m.frameinfo1);
    } else {
      ok := frameNo == FrameNo(m.frameinfo2) && frameOffset == FrameOffset(m.frameinfo2) * 32;
    }
  }

  /** Copy the data of a fragment if they fit. */
  method KeepData(m: Mbx, ghost st: Rx, rxfragmentno: nat, rxframeoffset: nat, buf: array<byte>)
    returns (fragmentNo: nat, frameOffset: nat)
    requires Ready(st) && Whole(m, |st.buf|) && st.fragmentNo == rxfragmentno && st.frameOffset == rxframeoffset &&
             st.buf == buf[..]
    modifies buf
    ensures Keep(st, m) == st.(fragmentNo := fragmentNo, frameOffset := frameOffset, buf := buf[..])
  {
    hide DataSize;
    fragmentNo, frameOffset := rxfragmentno, rxframeoffset;
    var eoedatasize := DataSize(m);
    if rxframeoffset + eoedatasize <= buf.Length {
      Copy(buf, rxframeoffset, m.data[..eoedatasize]);
      IsPut(st.buf, buf[..], rxframeoffset, m.data, eoedatasize);
      frameOffset := (rxframeoffset + eoedatasize) % 0x1_0000;
      fragmentNo := (rxfragmentno + 1) % 0x100;
    }
  }

  /** ecx_EOErecv: `inbox` are the mailboxes that come in before the timeout. */
  method EOErecv(inbox: seq<Mbx>, port: byte, buf: array<byte>) returns (wkc: int, psize: nat)
    requires AllWhole(inbox, buf.Length)
    modifies buf
    ensures match Receive(Rx(0, 0, 0, 0, buf.Length, old(buf[..])), inbox, port)
            case Timeout => wkc == 0 && psize == buf.Length
            case Failed(error) => wkc == error < 0 && psize == buf.Length
            case Frame(size, data) => wkc > 0 && psize == size && buf[..] == data
  {
    hide Admit, Keep, IsEoe, LastFragment, TimeAppended, Whole;
    var NotLast := true;
    var rxfragmentno: nat, rxframesize: nat, rxframeoffset: nat, rxframeno: nat := 0, 0, 0, 0;
    var k := 0;
    psize := buf.Length;
    ghost var r := Receive(Rx(0, 0, 0, 0, buf.Length, buf[..]), inbox, port);
    wkc := if k < |inbox| then 1 else 0;
    while wkc > 0 && NotLast
      invariant k <= |inbox| && (wkc > 0 && NotLast ==> k < |inbox| && psize == buf.Length)
      invariant wkc > 0 && NotLast ==>
                  Ready(Rx(rxfragmentno, rxframesize, rxframeoffset, rxframeno, buf.Length, buf[..]))
      invariant wkc > 0 && NotLast ==>
                  r == Receive(Rx(rxfragmentno, rxframesize, rxframeoffset, rxframeno, buf.Length, buf[..]),
                               inbox[k..], port)
      invariant wkc == 0 ==> r == Timeout && psize == buf.Length
      invariant wkc < 0 ==> r == Failed(wkc) && psize == buf.Length
      invariant wkc > 0 && !NotLast ==> r == Frame(psize, buf[..])
      decreases wkc > 0 && NotLast, |inbox| - k
    {
      ghost var st := Rx(rxfragmentno, rxframesize, rxframeoffset, rxframeno, buf.Length, buf[..]);
      var m := inbox[k];
      Head(inbox, k, buf.Length);
      k := k + 1;
      if !IsEoe(m) {
        wkc := PACKET_ERROR;
      } else {
        var ok;
        ok, rxframesize, rxframeoffset, rxframeno :=
          Check(m, port, st, rxfragmentno, rxframesize, rxframeoffset, rxframeno, buf.Length);
        if !ok {
          wkc := INVALID_RX_DATA;
          break;
        }
        AdmitReady(st, m, port);
        rxfragmentno, rxframeoffset := KeepData(m, Admit(st, m, port).1, rxfragmentno, rxframeoffset, buf);
        if LastFragment(m.frameinfo1) {
          if TimeAppended(m.frameinfo1) { // without the four bytes of time
            rxframeoffset := (rxframeoffset + 0x1_0000 - 4) % 0x1_0000;
          }
          NotLast := false;
          psize := rxframeoffset;
        } else {
          wkc := if k < |inbox| then 1 else 0;
        }
      }
    }
  }

  lemma {:induction false} Head(inbox: seq<Mbx>, k: nat, room: nat)
    requires k < |inbox| && AllWhole(inbox, room)
    ensures inbox[k..][0] == inbox[k] && inbox[k..][1..] == inbox[k + 1..] && Whole(inbox[k], room) &&
            AllWhole(inbox[k + 1..], room)
  {
  }

  lemma {:induction false} IsPut(was: seq<byte>, now: seq<byte>, at: nat, data: seq<byte>, n: nat)
    requires n <= |data| && at + n <= |was| == |now|
    requires now[at..at + n] == data[..n] && now[..at] == was[..at] && now[at + n..] == was[at + n..]
    ensures now == Put(was, at, data[..n])
  {
    assert now == now[..at] + now[at..at + n] + now[at + n..];
  }
}
