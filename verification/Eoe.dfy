/** ethercateoe.c: Ethernet frames in mailbox fragments. */
module Eoe {
  import opened Bytes
  import opened Mailboxes

  const ECT_MBXT_EOE := 2
  const PACKET_ERROR := -3
  const INVALID_RX_DATA := -11

  /** A mailbox with an EoE header: mailbox type with the counter in the upper half, length field, the two
      header words, the data. */
  datatype Mbx = Mbx(mbxtype: byte, length: uint16, frameinfo1: uint16, frameinfo2: uint16, data: seq<byte>)

  // ----- header fields -----

  function Info1(last: bool, port: byte): uint16 { (if last then 0x100 else 0) + 0x10 * (port % 0x10) }

  function Info2(fragmentNo: nat, offset: nat, frameNo: nat): uint16 {
    fragmentNo % 0x40 + 0x40 * (offset % 0x40) + 0x1000 * (frameNo % 0x10)
  }

  predicate LastFragment(info1: uint16) { info1 / 0x100 % 2 == 1 }

  predicate TimeAppended(info1: uint16) { info1 / 0x200 % 2 == 1 }

  function FramePort(info1: uint16): nat { info1 / 0x10 % 0x10 }

  function FragmentNo(info2: uint16): (no: nat)
    ensures no < 0x40
  {
    info2 % 0x40
  }

  function FrameOffset(info2: uint16): (blocks: nat)
    ensures blocks < 0x40
  {
    info2 / 0x40 % 0x40
  }

  function FrameNo(info2: uint16): nat { info2 / 0x1000 % 0x10 }

  lemma {:induction false} Header1(last: bool, port: byte)
    ensures LastFragment(Info1(last, port)) == last && !TimeAppended(Info1(last, port)) &&
            FramePort(Info1(last, port)) == port % 0x10
  {
  }

  lemma {:induction false} Header2(fragmentNo: nat, offset: nat, frameNo: nat)
    ensures FragmentNo(Info2(fragmentNo, offset, frameNo)) == fragmentNo % 0x40
    ensures FrameOffset(Info2(fragmentNo, offset, frameNo)) == offset % 0x40
    ensures FrameNo(Info2(fragmentNo, offset, frameNo)) == frameNo % 0x10
  {
  }

  // ----- the fragments of a frame -----

  /** Fragments but the last hold whole blocks of 32 bytes. */
  function Block(maxdata: nat): nat { maxdata / 32 * 32 }

  function Offset(maxdata: nat, k: nat): nat {
    if k == 0 then 0 else Offset(maxdata, k - 1) + Block(maxdata)
  }

  lemma {:induction false} OffsetBlocks(maxdata: nat, k: nat)
    ensures Offset(maxdata, k) % 32 == 0 && (maxdata >= 32 ==> Offset(maxdata, k) >= 32 * k)
  {
    if k > 0 {
      OffsetBlocks(maxdata, k - 1);
    }
  }

  /** What is left of `size` bytes at fragment k is sent in one piece. */
  predicate IsLast(size: nat, maxdata: nat, k: nat) { size <= Offset(maxdata, k) + maxdata }

  /** A frame of this size has a fragment k. */
  predicate HasFragment(size: nat, maxdata: nat, k: nat) {
    k > 0 ==> HasFragment(size, maxdata, k - 1) && !IsLast(size, maxdata, k - 1)
  }

  /** A frame can be cut: it fits one mailbox, or a mailbox takes at least one block. */
  predicate Cuttable(size: nat, maxdata: nat) { size < 0x1_0000 && (size <= maxdata || maxdata >= 32) }

  lemma {:induction false} FragmentInside(size: nat, maxdata: nat, k: nat)
    requires Cuttable(size, maxdata) && HasFragment(size, maxdata, k)
    ensures Offset(maxdata, k) <= size && 32 * k <= size && (k > 0 ==> maxdata >= 32 && Offset(maxdata, k) < size)
  {
    if k > 0 {
      FragmentInside(size, maxdata, k - 1);
      OffsetBlocks(maxdata, k);
    }
  }

  function Size(size: nat, maxdata: nat, k: nat): nat
    requires Offset(maxdata, k) <= size
  {
    if IsLast(size, maxdata, k) then size - Offset(maxdata, k) else Block(maxdata)
  }

  /** Fragment k of a frame: the first tells the size of the frame in blocks, the others their offset.  Fragments
      are counted with 8 bits, so every 256th is taken for the first of another frame. */
  function Fragment(p: seq<byte>, maxdata: nat, port: byte, frameNo: nat, cnt: nat, k: nat): Mbx
    requires Cuttable(|p|, maxdata) && HasFragment(|p|, maxdata, k) && cnt < 0x10
  {
    FragmentInside(|p|, maxdata, k);
    var at, size := Offset(maxdata, k), Size(|p|, maxdata, k);
    Mbx(ECT_MBXT_EOE + 0x10 * cnt, (4 + size) % 0x1_0000, Info1(IsLast(|p|, maxdata, k), port),
        Info2(k, if k % 0x100 > 0 then at / 32 else (|p| + 31) / 32, frameNo + k / 0x100), p[at..at + size])
  }

  /** The fragments of a frame from number k on. */
  function Fragments(p: seq<byte>, maxdata: nat, port: byte, frameNo: nat, cnt: nat, k: nat): (ms: seq<Mbx>)
    requires Cuttable(|p|, maxdata) && HasFragment(|p|, maxdata, k) && cnt < 8
    ensures |ms| >= 1
    decreases |p| - Offset(maxdata, k)
  {
    var c := NextCnt(cnt);
    [Fragment(p, maxdata, port, frameNo, c, k)] +
    if IsLast(|p|, maxdata, k) then []
      else FragmentInside(|p|, maxdata, k + 1); Fragments(p, maxdata, port, frameNo, c, k + 1)
  }

  lemma {:induction false} OffsetProduct(maxdata: nat, k: nat)
    ensures Offset(maxdata, k) == k * (maxdata / 32 * 32)
  {
    var block := maxdata / 32 * 32;
    if k > 0 {
      OffsetProduct(maxdata, k - 1);
      assert k * block == (k - 1) * block + block;
    }
  }

  /** Fragment k of a frame, field by field. */
  predicate FieldsOf(m: Mbx, p: seq<byte>, maxdata: nat, port: byte, frameNo: nat, k: nat, last: bool) {
    var at, info := k * (maxdata / 32 * 32), m.frameinfo2;
    && at <= |p| && (last <==> |p| - at <= maxdata)
    && m.data == (if last then p[at..] else p[at..][..maxdata / 32 * 32])
    && m.length == (4 + |m.data|) % 65536
    && m.frameinfo1 == (if last then 256 else 0) + 16 * (port % 16)
    && info % 64 == k % 64 && info / 4096 == (frameNo + k / 256) % 16
    && info / 64 % 64 == (if k % 256 == 0 then (|p| + 31) / 32 else at / 32) % 64
  }

  /** All fragments of a frame: whole blocks of 32 bytes, as many as a mailbox takes, and in the last one what is left;
      the frame number in each. */
  lemma {:induction false} FragmentFields(p: seq<byte>, maxdata: nat, port: byte, frameNo: nat, cnt: nat, j: nat,
                                          k: nat)
    requires Cuttable(|p|, maxdata) && HasFragment(|p|, maxdata, j) && cnt < 8
    requires j <= k < j + |Fragments(p, maxdata, port, frameNo, cnt, j)|
    ensures var ms := Fragments(p, maxdata, port, frameNo, cnt, j);
            && FieldsOf(ms[k - j], p, maxdata, port, frameNo, k, k == j + |ms| - 1)
            && ms[k - j].mbxtype == 2 + 16 * Counter(cnt, k - j + 1)
    decreases k - j
  {
    hide FieldsOf, Fragment, Counter;
    var c := NextCnt(cnt);
    CounterFromNext(cnt, k - j);
    if k == j {
      NoneCounted(c);
      OneFragment(p, maxdata, port, frameNo, c, k);
    } else {
      FragmentFields(p, maxdata, port, frameNo, c, j + 1, k);
    }
  }

  lemma {:induction false} OneFragment(p: seq<byte>, maxdata: nat, port: byte, frameNo: nat, cnt: nat, k: nat)
    requires Cuttable(|p|, maxdata) && HasFragment(|p|, maxdata, k) && cnt < 8
    ensures FieldsOf(Fragment(p, maxdata, port, frameNo, cnt, k), p, maxdata, port, frameNo, k, IsLast(|p|, maxdata, k))
    ensures Fragment(p, maxdata, port, frameNo, cnt, k).mbxtype == 2 + 16 * cnt
  {
    hide HasFragment, Info1, Info2, Offset;
    OffsetProduct(maxdata, k);
    FragmentInside(|p|, maxdata, k);
    var at := Offset(maxdata, k);
    var offset := if k % 256 == 0 then (|p| + 31) / 32 else at / 32;
    HeaderParts(IsLast(|p|, maxdata, k), port, k, offset, frameNo + k / 256);
    assert !IsLast(|p|, maxdata, k) ==> p[at..][..maxdata / 32 * 32] == p[at..at + maxdata / 32 * 32];
    assert IsLast(|p|, maxdata, k) ==> p[at..] == p[at..at + (|p| - at)];
  }

  lemma {:induction false} HeaderParts(last: bool, port: byte, no: nat, offset: nat, frameNo: nat)
    ensures Info1(last, port) == (if last then 256 else 0) + 16 * (port % 16)
    ensures var info := Info2(no, offset, frameNo);
            info % 64 == no % 64 && info / 64 % 64 == offset % 64 && info / 4096 == frameNo % 16
  {
  }

  // ----- reading fragments -----

  /** The variables a caller of ecx_EOEreadfragment keeps: the fragment expected next, size, offset and
      number of the frame being read, the size of the buffer, the buffer. */
  datatype Rx = Rx(fragmentNo: nat, frameSize: nat, frameOffset: nat, frameNo: nat, psize: nat, buf: seq<byte>)
  {
    predicate Valid() { frameOffset <= frameSize <= 2016 && psize <= |buf| && fragmentNo < 0x100 }

    function Reset(): Rx { this.(fragmentNo := 0, frameSize := 0, frameOffset := 0, frameNo := 0) }
  }

  predicate IsEoe(m: Mbx) { m.mbxtype % 0x10 == ECT_MBXT_EOE }

  function DataSize(m: Mbx): nat { (m.length + 0x1_0000 - 4) % 0x1_0000 }

  /** The mailbox holds the data its length field tells. */
  predicate Sound(m: Mbx) { DataSize(m) <= 2016 ==> DataSize(m) <= |m.data| }

  /** The first part of reading: is it the fragment that was expected?  Otherwise reading starts over. */
  function Accept(st: Rx, info2: uint16): (r: (Rx, int))
    requires st.Valid()
    ensures r.0.Valid() && r.0.buf == st.buf && r.0.psize == st.psize
  {
    var no := FragmentNo(info2);
    var st := if st.fragmentNo != no && st.fragmentNo != 0 then st.Reset() else st;
    if st.fragmentNo != no && no > 0 then (st, INVALID_RX_DATA)
    else if st.fragmentNo == 0 then
      (st.(frameSize := FrameOffset(info2) * 32, frameOffset := 0, frameNo := FrameNo(info2)), 0)
    else if st.frameNo != FrameNo(info2) || st.frameOffset != FrameOffset(info2) * 32 then (st.Reset(), INVALID_RX_DATA)
    else (st, 0)
  }

  /** The second part: take the data, and finish with the last fragment. */
  function Take(st: Rx, m: Mbx): (r: (Rx, int))
    requires st.Valid() && Sound(m)
    ensures |r.0.buf| == |st.buf| && r.1 >= 0
  {
    var n := DataSize(m);
    var st := if st.frameOffset + n <= st.frameSize && st.frameOffset + n <= st.psize
              then st.(buf := Put(st.buf, st.frameOffset, m.data[..n]), frameOffset := st.frameOffset + n,
                       fragmentNo := (st.fragmentNo + 1) % 0x100)
              else st;
    if LastFragment(m.frameinfo1) then
      var size := if TimeAppended(m.frameinfo1) then (st.frameOffset + 0x1_0000 - 4) % 0x1_0000 else st.frameOffset;
      (st.Reset().(psize := size), 1)
    else (st, 0)
  }

  /** ecx_EOEreadfragment as a function of its variables. */
  function Read(st: Rx, m: Mbx): (r: (Rx, int))
    requires st.Valid() && Sound(m)
    ensures |r.0.buf| == |st.buf|
  {
    if !IsEoe(m) then (st, PACKET_ERROR)
    else
      var (st1, wkc) := Accept(st, m.frameinfo2);
      if wkc < 0 then (st1, wkc) else Take(st1, m)
  }

  /** A mailbox is refused exactly when it is no EoE (-3), or a fragment that neither begins a frame nor is the one
      due: in number, in frame, and in offset.  Nothing is stored, and after a fragment refused (-11) a frame has to
      begin anew. */
  lemma {:induction false} RefusedIff(st: Rx, m: Mbx)
    requires st.Valid() && Sound(m)
    ensures var (after, wkc) := Read(st, m);
            var no, offset, frame := m.frameinfo2 % 64, m.frameinfo2 / 64 % 64, m.frameinfo2 / 4096;
            var due := no == st.fragmentNo && frame == st.frameNo && 32 * offset == st.frameOffset;
            && (m.mbxtype % 16 != 2 ==> after == st && wkc == -3)
            && (m.mbxtype % 16 == 2 ==> (wkc < 0 <==> no > 0 && !due))
            && (m.mbxtype % 16 == 2 && wkc < 0 ==> after.buf == st.buf && after.fragmentNo == 0 && wkc == -11)
            && (wkc < 0 ==> after.psize == st.psize)
  {
    hide Take;
  }
}
