/** What EoE fragments carry: without loss every frame that fits, with loss no wrong frame. */
module EoeTransfer {
  import opened Bytes
  import opened Mailboxes
  import opened Eoe

  // ----- one frame, nothing lost -----

  /** The size of a frame in whole blocks. */
  function Rounded(size: nat): nat { (size + 31) / 32 * 32 }

  /** The frame has been read up to fragment k. */
  predicate ReadUpTo(st: Rx, p: seq<byte>, maxdata: nat, frameNo: nat, k: nat)
    requires Cuttable(|p|, maxdata) && HasFragment(|p|, maxdata, k)
  {
    FragmentInside(|p|, maxdata, k);
    && st.Valid() && st.fragmentNo == k > 0 && st.frameNo == frameNo % 0x10
    && st.frameSize == Rounded(|p|) && st.frameOffset == Offset(maxdata, k)
    && |p| <= st.psize && st.buf[..Offset(maxdata, k)] == p[..Offset(maxdata, k)]
  }

  predicate Delivered(st: Rx, wkc: int, p: seq<byte>) {
    wkc == 1 && st.psize == |p| <= |st.buf| && st.buf[..|p|] == p && st.Reset() == st
  }

  lemma {:induction false} FragmentSound(p: seq<byte>, maxdata: nat, port: byte, frameNo: nat, cnt: nat, k: nat)
    requires Cuttable(|p|, maxdata) && HasFragment(|p|, maxdata, k) && cnt < 0x10
    ensures Offset(maxdata, k) <= |p|
    ensures Sound(Fragment(p, maxdata, port, frameNo, cnt, k))
    ensures var m, at, n := Fragment(p, maxdata, port, frameNo, cnt, k), Offset(maxdata, k), Size(|p|, maxdata, k);
            && DataSize(m) == n && at + n <= |p| && m.data == p[at..at + n] && IsEoe(m)
            && LastFragment(m.frameinfo1) == IsLast(|p|, maxdata, k) && !TimeAppended(m.frameinfo1)
  {
    FragmentInside(|p|, maxdata, k);
    hide Info1, Info2, Offset, LastFragment, TimeAppended;
    Header1(IsLast(|p|, maxdata, k), port);
    Steps(|p|, maxdata, k);
  }

  /** Where fragment k ends, and the next begins. */
  lemma {:induction false} Steps(size: nat, maxdata: nat, k: nat)
    requires Cuttable(size, maxdata) && HasFragment(size, maxdata, k) && Offset(maxdata, k) <= size
    ensures Offset(maxdata, k) + Size(size, maxdata, k) <= size
    ensures if IsLast(size, maxdata, k) then Offset(maxdata, k) + Size(size, maxdata, k) == size
            else (
              && HasFragment(size, maxdata, k + 1)
              && Offset(maxdata, k + 1) == Offset(maxdata, k) + Size(size, maxdata, k))
  {
    if !IsLast(size, maxdata, k) {
      FragmentInside(size, maxdata, k + 1);
    }
  }

  /** What the second header word of a fragment tells, for a frame of at most 63 blocks. */
  lemma {:induction false} Numbers(p: seq<byte>, maxdata: nat, port: byte, frameNo: nat, cnt: nat, k: nat)
    requires Cuttable(|p|, maxdata) && HasFragment(|p|, maxdata, k) && cnt < 0x10 && |p| <= 2016
    ensures Offset(maxdata, k) <= |p| && (k == 0 ==> Offset(maxdata, k) == 0) && Rounded(|p|) <= 2016
    ensures var info2 := Fragment(p, maxdata, port, frameNo, cnt, k).frameinfo2;
            && FragmentNo(info2) == k && FrameNo(info2) == frameNo % 0x10
            && FrameOffset(info2) * 32 == if k > 0 then Offset(maxdata, k) else Rounded(|p|)
  {
    FragmentInside(|p|, maxdata, k);
    OffsetBlocks(maxdata, k);
    assert k < 0x40 && (k == 0 ==> Offset(maxdata, k) == 0);
    hide Fragment, Info1, Info2, FragmentNo, FrameOffset, FrameNo, IsLast, HasFragment, Size, Offset, Cuttable, Rounded;
    SmallNumber(p, maxdata, port, frameNo, cnt, k);
    SmallFields(k, |p|, Offset(maxdata, k), frameNo);
  }

  lemma {:induction false} SmallFields(k: nat, size: nat, at: nat, frameNo: nat)
    requires k < 0x40 && size <= 2016 && at <= 2016 && at % 32 == 0
    ensures Rounded(size) <= 2016
    ensures var info2 := Info2(k, if k > 0 then at / 32 else (size + 31) / 32, frameNo);
            && FragmentNo(info2) == k && FrameNo(info2) == frameNo % 0x10
            && FrameOffset(info2) * 32 == if k > 0 then at else Rounded(size)
  {
    hide Info2, FragmentNo, FrameOffset, FrameNo;
    Header2(k, if k > 0 then at / 32 else (size + 31) / 32, frameNo);
    InBlocks(at);
    InBlocks(Rounded(size));
  }

  lemma {:induction false} InBlocks(size: nat)
    requires size % 32 == 0 && size <= 2016
    ensures size / 32 % 0x40 * 32 == size
  {
  }

  lemma {:induction false} SmallNumber(p: seq<byte>, maxdata: nat, port: byte, frameNo: nat, cnt: nat, k: nat)
    requires Cuttable(|p|, maxdata) && HasFragment(|p|, maxdata, k) && cnt < 0x10 && k < 0x100
    ensures Fragment(p, maxdata, port, frameNo, cnt, k).frameinfo2
         == Info2(k, if k > 0 then Offset(maxdata, k) / 32 else (|p| + 31) / 32, frameNo)
  {
    hide Info1, Info2, IsLast, HasFragment, Size, Offset;
    assert k % 0x100 == k && k / 0x100 == 0;
  }

  /** The right fragment at the right time is accepted. */
  lemma {:induction false} NextAccepted(st: Rx, p: seq<byte>, maxdata: nat, port: byte, frameNo: nat, cnt: nat, k: nat)
    requires Cuttable(|p|, maxdata) && HasFragment(|p|, maxdata, k) && cnt < 0x10 && |p| <= 2016
    requires st.Valid() && |p| <= st.psize && (k > 0 ==> ReadUpTo(st, p, maxdata, frameNo, k))
    ensures var (st', wkc) := Accept(st, Fragment(p, maxdata, port, frameNo, cnt, k).frameinfo2);
            && wkc == 0 && st'.fragmentNo == k && st'.frameNo == frameNo % 0x10 && st'.frameSize == Rounded(|p|)
            && st'.frameOffset == Offset(maxdata, k) && st'.buf == st.buf && st'.psize == st.psize
  {
    FragmentInside(|p|, maxdata, k);
    hide Fragment, FragmentNo, FrameOffset, FrameNo, IsLast, HasFragment, Offset, Rounded;
    Numbers(p, maxdata, port, frameNo, cnt, k);
  }

  lemma {:induction false} Taken(st: Rx, m: Mbx, p: seq<byte>, at: nat, n: nat)
    requires st.Valid() && Sound(m) && DataSize(m) == n && at + n <= |p| && m.data == p[at..at + n]
    requires st.frameOffset == at && at + n <= st.frameSize && at + n <= st.psize && st.buf[..at] == p[..at]
    requires !TimeAppended(m.frameinfo1) && st.fragmentNo < 0xff
    ensures |Take(st, m).0.buf| == |st.buf| && Take(st, m).0.buf[..at + n] == p[..at + n]
    ensures var (st', wkc) := Take(st, m);
            if LastFragment(m.frameinfo1) then wkc == 1 && st' == st.Reset().(psize := at + n, buf := st'.buf)
            else wkc == 0 && st' == st.(frameOffset := at + n, fragmentNo := st.fragmentNo + 1, buf := st'.buf)
  {
    hide LastFragment, TimeAppended, DataSize;
    Glue(st.buf, p, at, n);
  }

  /** The state after fragment k was read. */
  predicate After(st: Rx, r: (Rx, int), p: seq<byte>, maxdata: nat, frameNo: nat, k: nat)
    requires Cuttable(|p|, maxdata) && HasFragment(|p|, maxdata, k)
  {
    if IsLast(|p|, maxdata, k) then Delivered(r.0, r.1, p)
    else (
      && r.1 == 0 && r.0.psize == st.psize && HasFragment(|p|, maxdata, k + 1)
      && ReadUpTo(r.0, p, maxdata, frameNo, k + 1))
  }

  lemma {:induction false} NextTaken(st: Rx, p: seq<byte>, maxdata: nat, port: byte, frameNo: nat, cnt: nat, k: nat)
    requires Cuttable(|p|, maxdata) && HasFragment(|p|, maxdata, k) && cnt < 0x10 && |p| <= 2016
    requires st.Valid() && |p| <= st.psize && (k > 0 ==> ReadUpTo(st, p, maxdata, frameNo, k))
    ensures Sound(Fragment(p, maxdata, port, frameNo, cnt, k))
    ensures After(st, Read(st, Fragment(p, maxdata, port, frameNo, cnt, k)), p, maxdata, frameNo, k)
  {
    FragmentInside(|p|, maxdata, k);
    assert st.buf[..Offset(maxdata, k)] == p[..Offset(maxdata, k)];
    hide Fragment, Offset, HasFragment, Accept, Take, LastFragment, TimeAppended, DataSize, Sound, IsLast, Size,
      After, Rounded, Read, IsEoe;
    var m, at, n := Fragment(p, maxdata, port, frameNo, cnt, k), Offset(maxdata, k), Size(|p|, maxdata, k);
    FragmentSound(p, maxdata, port, frameNo, cnt, k);
    Steps(|p|, maxdata, k);
    NextAccepted(st, p, maxdata, port, frameNo, cnt, k);
    Taken(Accept(st, m.frameinfo2).0, m, p, at, n);
    ReadParts(st, m);
    IsAfter(st, Read(st, m), p, maxdata, frameNo, k);
  }

  lemma {:induction false} ReadParts(st: Rx, m: Mbx)
    requires st.Valid() && Sound(m) && IsEoe(m) && Accept(st, m.frameinfo2).1 == 0
    ensures Read(st, m) == Take(Accept(st, m.frameinfo2).0, m)
  {
    hide Accept, Take;
  }

  lemma {:induction false} IsAfter(st: Rx, r: (Rx, int), p: seq<byte>, maxdata: nat, frameNo: nat, k: nat)
    requires Cuttable(|p|, maxdata) && HasFragment(|p|, maxdata, k) && |p| <= 2016 && |r.0.buf| == |st.buf|
    requires st.Valid() && |p| <= st.psize && Offset(maxdata, k) <= |p|
    requires var end := Offset(maxdata, k) + Size(|p|, maxdata, k);
             && end <= |p| && r.0.buf[..end] == p[..end]
             && if IsLast(|p|, maxdata, k) then r.1 == 1 && r.0 == st.Reset().(psize := end, buf := r.0.buf)
                else r.1 == 0 && r.0.psize == st.psize && r.0.fragmentNo == k + 1 && r.0.frameNo == frameNo % 0x10 &&
                     r.0.frameSize == Rounded(|p|) && r.0.frameOffset == end
    ensures After(st, r, p, maxdata, frameNo, k)
  {
    hide Offset;
    Steps(|p|, maxdata, k);
    if IsLast(|p|, maxdata, k) {
      assert r.0.buf[..|p|] == p[..|p|] == p;
    } else {
      FragmentInside(|p|, maxdata, k + 1);
    }
  }

  lemma {:induction false} Glue(buf: seq<byte>, p: seq<byte>, at: nat, n: nat)
    requires at + n <= |p| && at + n <= |buf| && buf[..at] == p[..at]
    ensures Put(buf, at, p[at..at + n])[..at + n] == p[..at + n]
  {
    var r := Put(buf, at, p[at..at + n]);
    assert r[..at + n] == r[..at] + r[at..at + n];
    assert p[..at + n] == p[..at] + p[at..at + n];
  }

  // ----- runs -----

  /** A frame handed to the caller. */
  datatype Completion = Completion(frame: seq<byte>)

  /** Fragments are read one after the other.  With each completion the caller gets the frame, and gives
      the whole buffer for the next one. */
  function Run(st: Rx, ms: seq<Mbx>, room: nat): (r: (Rx, seq<Completion>))
    requires st.Valid() && room <= |st.buf| && AllSound(ms)
    ensures |r.0.buf| == |st.buf|
    decreases |ms|
  {
    if ms == [] then (st, [])
    else
      var (st1, wkc) := Next(st, ms[0], room);
      var (st2, done) := Run(st1, ms[1..], room);
      (st2, (if wkc == 1 then [Completed(st, ms[0])] else []) + done)
  }

  function Completed(st: Rx, m: Mbx): Completion
    requires st.Valid() && Sound(m)
  {
    var r := Read(st, m).0;
    Completion(if r.psize <= |r.buf| then r.buf[..r.psize] else r.buf)
  }

  /** One fragment, and the buffer size given anew. */
  function Next(st: Rx, m: Mbx, room: nat): (r: (Rx, int))
    requires st.Valid() && Sound(m) && room <= |st.buf|
    ensures r.0.Valid() && |r.0.buf| == |st.buf|
  {
    var (st1, wkc) := Read(st, m);
    ReadValid(st, m, room);
    (st1.(psize := room), wkc)
  }

  lemma {:induction false} ReadValid(st: Rx, m: Mbx, room: nat)
    requires st.Valid() && Sound(m) && room <= |st.buf|
    ensures Read(st, m).0.(psize := room).Valid()
  {
  }

  /** Mailboxes that hold what they tell, and no time stamps. */
  predicate Untimed(ms: seq<Mbx>) { AllSound(ms) && forall j :: 0 <= j < |ms| ==> !TimeAppended(ms[j].frameinfo1) }

  predicate AllSound(ms: seq<Mbx>) { forall j :: 0 <= j < |ms| ==> Sound(ms[j]) }

  lemma {:induction false} FragmentsSound(p: seq<byte>, maxdata: nat, port: byte, frameNo: nat, cnt: nat, k: nat)
    requires Cuttable(|p|, maxdata) && HasFragment(|p|, maxdata, k) && cnt < 8
    ensures Untimed(Fragments(p, maxdata, port, frameNo, cnt, k))
    decreases |p| - Offset(maxdata, k)
  {
    hide Fragment, Offset, Sound, TimeAppended;
    var c := NextCnt(cnt);
    FragmentSound(p, maxdata, port, frameNo, c, k);
    Steps(|p|, maxdata, k);
    if !IsLast(|p|, maxdata, k) {
      FragmentInside(|p|, maxdata, k + 1);
      FragmentsSound(p, maxdata, port, frameNo, c, k + 1);
      var ms, rest := Fragments(p, maxdata, port, frameNo, cnt, k), Fragments(p, maxdata, port, frameNo, c, k + 1);
      assert forall j :: 0 <= j < |ms| ==>
               ms[j] == if j == 0 then Fragment(p, maxdata, port, frameNo, c, k) else rest[j - 1];
    }
  }

  /** Without loss a frame that fits is put together again. */
  lemma {:induction false} Reassembled(st: Rx, p: seq<byte>, maxdata: nat, port: byte, frameNo: nat, cnt: nat, k: nat)
    requires Cuttable(|p|, maxdata) && HasFragment(|p|, maxdata, k) && cnt < 8 && |p| <= 2016
    requires st.Valid() && |p| <= st.psize && (k > 0 ==> ReadUpTo(st, p, maxdata, frameNo, k))
    requires AllSound(Fragments(p, maxdata, port, frameNo, cnt, k))
    ensures Run(st, Fragments(p, maxdata, port, frameNo, cnt, k), st.psize).1 == [Completion(p)]
    decreases |p| - Offset(maxdata, k)
  {
    hide Fragment, Offset, Sound, Read, ReadUpTo;
    var c, ms := NextCnt(cnt), Fragments(p, maxdata, port, frameNo, cnt, k);
    NextTaken(st, p, maxdata, port, frameNo, c, k);
    FragmentInside(|p|, maxdata, k);
    Steps(|p|, maxdata, k);
    if IsLast(|p|, maxdata, k) {
      assert ms[1..] == [];
    } else {
      FragmentInside(|p|, maxdata, k + 1);
      var rest := Fragments(p, maxdata, port, frameNo, c, k + 1);
      assert ms[1..] == rest;
      Reassembled(Next(st, ms[0], st.psize).0, p, maxdata, port, frameNo, c, k + 1);
    }
  }

  // ----- a time stamp behind the frame -----

  /** The same fragment, with bit 9 of its first header word set: the last four bytes are a time. */
  function Stamped(m: Mbx): Mbx { m.(frameinfo1 := (m.frameinfo1 + 0x200) % 0x1_0000) }

  function StampLast(ms: seq<Mbx>): (r: seq<Mbx>)
    requires ms != []
    ensures |r| == |ms|
  {
    ms[..|ms| - 1] + [Stamped(ms[|ms| - 1])]
  }

  lemma {:induction false} StampedHeader(m: Mbx)
    requires m.frameinfo1 < 0x200
    ensures TimeAppended(Stamped(m).frameinfo1) && LastFragment(Stamped(m).frameinfo1) == LastFragment(m.frameinfo1)
    ensures FramePort(Stamped(m).frameinfo1) == FramePort(m.frameinfo1)
  {
  }

  lemma {:induction false} LastHeader(p: seq<byte>, maxdata: nat, port: byte, frameNo: nat, cnt: nat, k: nat)
    requires Cuttable(|p|, maxdata) && HasFragment(|p|, maxdata, k) && cnt < 0x10
    ensures Fragment(p, maxdata, port, frameNo, cnt, k).frameinfo1 < 0x200
  {
    hide Offset, HasFragment, Size, Info2;
  }

  /** A last fragment with a time gives a frame of four bytes less. */
  lemma {:induction false} StampedRead(st: Rx, m: Mbx)
    requires st.Valid() && Sound(m) && IsEoe(m) && Accept(st, m.frameinfo2).1 == 0
    requires m.frameinfo1 < 0x200 && LastFragment(m.frameinfo1) && !TimeAppended(m.frameinfo1)
    ensures Sound(Stamped(m)) && Read(st, Stamped(m)).1 == Read(st, m).1 == 1
    ensures Read(st, Stamped(m)).0 ==
            Read(st, m).0.(psize := (Read(st, m).0.psize + 0x1_0000 - 4) % 0x1_0000)
  {
    StampedHeader(m);
    hide Accept, LastFragment, TimeAppended, FramePort, Put;
  }

  lemma {:induction false} StampedRest(m: Mbx, rest: seq<Mbx>)
    requires rest != []
    ensures StampLast([m] + rest)[0] == m && StampLast([m] + rest)[1..] == StampLast(rest)
  {
  }

  /** A frame that is sent with a time behind it is delivered without. */
  lemma {:induction false} TimeRemoved(st: Rx, p: seq<byte>, maxdata: nat, port: byte, frameNo: nat, cnt: nat, k: nat)
    requires Cuttable(|p|, maxdata) && HasFragment(|p|, maxdata, k) && cnt < 8 && 4 <= |p| <= 2016
    requires st.Valid() && |p| <= st.psize && (k > 0 ==> ReadUpTo(st, p, maxdata, frameNo, k))
    ensures AllSound(StampLast(Fragments(p, maxdata, port, frameNo, cnt, k)))
    ensures Run(st, StampLast(Fragments(p, maxdata, port, frameNo, cnt, k)), st.psize).1 == [Completion(p[..|p| - 4])]
    decreases |p| - Offset(maxdata, k)
  {
    hide Fragment, Offset, Sound, Read, ReadUpTo, Stamped, Accept;
    var c, ms := NextCnt(cnt), Fragments(p, maxdata, port, frameNo, cnt, k);
    FragmentsSound(p, maxdata, port, frameNo, cnt, k);
    NextTaken(st, p, maxdata, port, frameNo, c, k);
    NextAccepted(st, p, maxdata, port, frameNo, c, k);
    FragmentSound(p, maxdata, port, frameNo, c, k);
    FragmentInside(|p|, maxdata, k);
    Steps(|p|, maxdata, k);
    if IsLast(|p|, maxdata, k) {
      LastHeader(p, maxdata, port, frameNo, c, k);
      StampedRead(st, ms[0]);
      LastCompleted(st, Stamped(ms[0]), p);
      assert StampLast(ms) == [Stamped(ms[0])];
    } else {
      FragmentInside(|p|, maxdata, k + 1);
      var rest := Fragments(p, maxdata, port, frameNo, c, k + 1);
      assert ms == [ms[0]] + rest;
      StampedRest(ms[0], rest);
      TimeRemoved(Next(st, ms[0], st.psize).0, p, maxdata, port, frameNo, c, k + 1);
    }
  }

  lemma {:induction false} LastCompleted(st: Rx, m: Mbx, p: seq<byte>)
    requires st.Valid() && Sound(m) && Read(st, m).1 == 1 && 4 <= |p| <= |st.buf|
    requires Read(st, m).0.psize == |p| - 4 && Read(st, m).0.buf[..|p|] == p
    ensures AllSound([m]) && Run(st, [m], st.psize).1 == [Completion(p[..|p| - 4])]
  {
    hide Read, Sound;
    var r := Read(st, m).0;
    assert r.buf[..|p| - 4] == r.buf[..|p|][..|p| - 4];
    assert [m][1..] == [];
  }

  /** No completed frame is longer than 2016 bytes, or than the buffer. */
  lemma {:induction false} CompletedFits(st: Rx, ms: seq<Mbx>, room: nat)
    requires st.Valid() && room <= |st.buf| && st.psize == room && st.frameOffset <= room
    requires Untimed(ms)
    ensures forall c :: c in Run(st, ms, room).1 ==> |c.frame| <= 2016 && |c.frame| <= room
    decreases |ms|
  {
    hide Sound, TimeAppended, Put, FragmentNo, FrameOffset, FrameNo, LastFragment;
    if ms != [] {
      CompletedFits(Next(st, ms[0], room).0, ms[1..], room);
    }
  }

  /** Whatever was read before, a frame is delivered if, and only if, it is at most 2016 bytes long and
      fits the buffer. */
  lemma {:induction false} DeliveredIff(st: Rx, p: seq<byte>, maxdata: nat, port: byte, frameNo: nat, cnt: nat,
                                        room: nat)
    requires st.Valid() && st.psize == room && st.frameOffset <= room && Cuttable(|p|, maxdata) && cnt < 8
    ensures AllSound(Fragments(p, maxdata, port, frameNo, cnt, 0))
    ensures Run(st, Fragments(p, maxdata, port, frameNo, cnt, 0), room).1 == [Completion(p)] <==>
              |p| <= 2016 && |p| <= room
  {
    hide Run, Sound, Fragments;
    FragmentsSound(p, maxdata, port, frameNo, cnt, 0);
    CompletedFits(st, Fragments(p, maxdata, port, frameNo, cnt, 0), room);
    if |p| <= 2016 && |p| <= room {
      Reassembled(st, p, maxdata, port, frameNo, cnt, 0);
    }
  }
}
