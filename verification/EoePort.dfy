/** ethercateoe.c: sending Ethernet frames, and reading them fragment by fragment. */
module EoePort {
  import opened Bytes
  import opened Mailboxes
  import opened Eoe

  /** The part of a slave, and of ecx_EOEsend, that outlives a call; what was put into the slave's mailbox. */
  class Sender {
    const mbx_l: nat
    var mbx_cnt: nat
    var txframeno: nat
    var mailbox: seq<Mbx>

    constructor (mbx_l: nat)
      ensures Valid() && this.mbx_l == mbx_l && mailbox == []
    {
      this.mbx_l, mbx_cnt, txframeno, mailbox := mbx_l, 0, 0, [];
    }

    ghost predicate Valid()
      reads this
    {
      mbx_cnt < 8 && txframeno < 0x100
    }

    /** The mailbox with fragment k of a frame.  It is counted with 8 bits. */
    method NextFragment(p: seq<byte>, port: byte, txfragmentno: nat, txframeoffset: nat, ghost no: nat, ghost k: nat)
      returns (m: Mbx, NotLast: bool, txframesize: nat)
      requires Valid() && mbx_l >= 10 && Cuttable(|p|, mbx_l - 10) && HasFragment(|p|, mbx_l - 10, k)
      requires txframeoffset == Offset(mbx_l - 10, k) <= |p| && CountsTo(txframeno, txfragmentno, no, k)
      modifies this`mbx_cnt, this`txframeno
      ensures Valid() && mbx_cnt == NextCnt(old(mbx_cnt)) && Counted(txframeno, no, k)
      ensures m == Fragment(p, mbx_l - 10, port, no, mbx_cnt, k)
      ensures NotLast == !IsLast(|p|, mbx_l - 10, k) && txframesize == Size(|p|, mbx_l - 10, k)
    {
      hide Offset, HasFragment, Info1, Info2, CountsTo, Counted;
      var maxdata := mbx_l - 10;
      Numbered(txframeno, txfragmentno, no, k, txframeoffset / 32, (|p| + 31) / 32);
      txframesize := |p| - txframeoffset;
      if txframesize > maxdata { // whole blocks
        txframesize := maxdata / 32 * 32;
      }
      LastSize(|p|, maxdata, k);
      var frameinfo1;
      if txframesize == |p| - txframeoffset {
        frameinfo1 := Info1(true, port);
        NotLast := false;
      } else {
        frameinfo1 := Info1(false, port);
        NotLast := true;
      }
      var frameinfo2;
      if txfragmentno > 0 {
        frameinfo2 := Info2(txfragmentno, txframeoffset / 32, txframeno);
      } else {
        txframeno := (txframeno + 1) % 0x100;
        frameinfo2 := Info2(txfragmentno, (|p| + 31) / 32, txframeno);
      }
      mbx_cnt := NextCnt(mbx_cnt);
      m := Mbx(ECT_MBXT_EOE + 0x10 * mbx_cnt, (4 + txframesize) % 0x1_0000, frameinfo1, frameinfo2,
               p[txframeoffset..txframeoffset + txframesize]);
    }

    /** ecx_EOEsend.  The slave takes the first `oks` mailboxes, then sending fails.  A frame takes up one frame
        number, and one more for every 256 fragments. */
    method EOEsend(port: byte, p: seq<byte>, oks: nat) returns (wkc: int)
      requires Valid() && mbx_l >= 10 && Cuttable(|p|, mbx_l - 10)
      modifies this
      ensures var ms := Fragments(p, mbx_l - 10, port, (old(txframeno) + 1) % 0x100, old(mbx_cnt), 0);
              && mailbox == old(mailbox) + ms[..if oks < |ms| then oks else |ms|]
              && (wkc > 0 <==> oks >= |ms|)
              && txframeno == (old(txframeno) + 1 + (if oks < |ms| then oks else |ms| - 1) / 0x100) % 0x100
      ensures Valid()
    {
      hide Fragment, Fragments, Offset, HasFragment, IsLast, Size, Cuttable, CountsTo, Counted;
      var txfragmentno: nat, txframeoffset: nat, left: nat := 0, 0, oks;
      var NotLast, txframesize, m;
      ghost var maxdata, no, k: nat := mbx_l - 10, (txframeno + 1) % 0x100, 0;
      StartsAt(|p|, maxdata);
      CountedFrom(txframeno);
      ghost var ms, todo := Fragments(p, maxdata, port, no, mbx_cnt, 0), Fragments(p, maxdata, port, no, mbx_cnt, 0);
      NotLast, wkc := true, 1;
      ghost var done: seq<Mbx> := [];
      while NotLast && wkc > 0
        invariant Valid() && mailbox == old(mailbox) + done && |done| == oks - left && left <= oks
        invariant if NotLast && wkc > 0 then CountsTo(txframeno, txfragmentno, no, k)
                  else Counted(txframeno, no, k)
        invariant ms == done + todo && |done| == if NotLast || wkc == 0 then k else k + 1
        invariant NotLast && wkc > 0 ==> (
                    && HasFragment(|p|, maxdata, k) && txframeoffset == Offset(maxdata, k) <= |p|
                    && todo == Fragments(p, maxdata, port, no, mbx_cnt, k))
        invariant if wkc > 0 then NotLast || todo == [] else left == 0 && todo != []
        decreases NotLast && wkc > 0, |p| - txframeoffset
      {
        ghost var cnt := mbx_cnt;
        NumberOf(txframeno, txfragmentno, no, k);
        m, NotLast, txframesize := NextFragment(p, port, txfragmentno, txframeoffset, no, k);
        Ahead(|p|, maxdata, k);
        FragmentsStep(p, maxdata, port, no, cnt, k);
        if left > 0 { // the slave takes the mailbox
          wkc := 1;
          mailbox := mailbox + [m];
          left := left - 1;
          Moved(old(mailbox), done, todo, m);
          done, todo := done + [m], todo[1..];
        } else {
          wkc := 0;
        }
        if NotLast && wkc > 0 {
          txframeoffset := txframeoffset + txframesize;
          CountedOn(txframeno, txfragmentno, no, k);
          txfragmentno := (txfragmentno + 1) % 0x100;
          k := k + 1;
        }
      }
      assert ms[..|done|] == done;
      CountedTo(txframeno, old(txframeno), k);
    }
  }

  /** The counters of frames and fragments before fragment k is sent. */
  predicate CountsTo(txframeno: nat, txfragmentno: nat, no: nat, k: nat) {
    && txfragmentno == k % 0x100
    && (txframeno + if txfragmentno == 0 then 1 else 0) % 0x100 == (no + k / 0x100) % 0x100
  }

  /** The counter of frames after fragment k is sent. */
  predicate Counted(txframeno: nat, no: nat, k: nat) { txframeno == (no + k / 0x100) % 0x100 }

  lemma {:induction false} CountedFrom(txframeno: nat)
    ensures CountsTo(txframeno, 0, (txframeno + 1) % 0x100, 0)
  {
  }

  lemma {:induction false} CountedTo(txframeno: nat, before: nat, k: nat)
    requires Counted(txframeno, (before + 1) % 0x100, k)
    ensures txframeno == (before + 1 + k / 0x100) % 0x100
  {
  }

  lemma {:induction false} CountedOn(txframeno: nat, txfragmentno: nat, no: nat, k: nat)
    requires txfragmentno == k % 0x100 && Counted(txframeno, no, k)
    ensures CountsTo(txframeno, (txfragmentno + 1) % 0x100, no, k + 1)
  {
  }

  lemma {:induction false} NumberOf(txframeno: nat, txfragmentno: nat, no: nat, k: nat)
    requires CountsTo(txframeno, txfragmentno, no, k)
    ensures txfragmentno == k % 0x100
  {
  }

  /** A header tells a fragment number modulo 64 and a frame number modulo 16. */
  lemma {:induction false} SameNumbers(fragmentNo: nat, k: nat, frameNo: nat, frameNo': nat, offset: nat)
    requires fragmentNo == k % 0x100 && frameNo == frameNo' % 0x100
    ensures Info2(fragmentNo, offset, frameNo) == Info2(k, offset, frameNo')
  {
    By64(k);
    By16(frameNo');
  }

  /** The header gets the numbers of fragment k, whether it is counted as a first one or not. */
  lemma {:induction false} Numbered(txframeno: nat, txfragmentno: nat, no: nat, k: nat, offset: nat, blocks: nat)
    requires CountsTo(txframeno, txfragmentno, no, k) && txframeno < 0x100
    ensures var next := if txfragmentno > 0 then txframeno else (txframeno + 1) % 0x100;
            && Counted(next, no, k)
            && Info2(txfragmentno, if txfragmentno > 0 then offset else blocks, next)
            == Info2(k, if k % 0x100 > 0 then offset else blocks, no + k / 0x100)
  {
    hide Info2;
    var next := if txfragmentno > 0 then txframeno else (txframeno + 1) % 0x100;
    assert next == (no + k / 0x100) % 0x100;
    SameNumbers(txfragmentno, k, next, no + k / 0x100, if txfragmentno > 0 then offset else blocks);
  }

  lemma {:induction false} By64(x: nat)
    ensures x % 0x100 % 0x40 == x % 0x40
  {
    assert x == 0x40 * (4 * (x / 0x100)) + x % 0x100;
  }

  lemma {:induction false} By16(x: nat)
    ensures x % 0x100 % 0x10 == x % 0x10
  {
    assert x == 0x10 * (16 * (x / 0x100)) + x % 0x100;
  }

  lemma {:induction false} Moved(before: seq<Mbx>, done: seq<Mbx>, todo: seq<Mbx>, m: Mbx)
    requires todo != [] && todo[0] == m
    ensures before + (done + [m]) == (before + done) + [m] && (done + [m]) + todo[1..] == done + todo
  {
    assert todo == [m] + todo[1..];
  }

  lemma {:induction false} FragmentsStep(p: seq<byte>, maxdata: nat, port: byte, frameNo: nat, cnt: nat, k: nat)
    requires Cuttable(|p|, maxdata) && HasFragment(|p|, maxdata, k) && cnt < 8
    ensures NextCnt(cnt) < 8 && Fragments(p, maxdata, port, frameNo, cnt, k)[0]
            == Fragment(p, maxdata, port, frameNo, NextCnt(cnt), k)
    ensures if IsLast(|p|, maxdata, k) then Fragments(p, maxdata, port, frameNo, cnt, k)[1..] == []
            else HasFragment(|p|, maxdata, k + 1) &&
                 Fragments(p, maxdata, port, frameNo, cnt, k)[1..]
                   == Fragments(p, maxdata, port, frameNo, NextCnt(cnt), k + 1)
  {
    hide Fragment, Offset;
  }

  lemma {:induction false} StartsAt(size: nat, maxdata: nat)
    ensures HasFragment(size, maxdata, 0) && Offset(maxdata, 0) == 0
  {
  }

  lemma {:induction false} Ahead(size: nat, maxdata: nat, k: nat)
    requires Cuttable(size, maxdata) && HasFragment(size, maxdata, k)
    ensures Offset(maxdata, k) <= size
    ensures !IsLast(size, maxdata, k) ==> HasFragment(size, maxdata, k + 1) && Size(size, maxdata, k) > 0
    ensures !IsLast(size, maxdata, k) ==> Offset(maxdata, k + 1) == Offset(maxdata, k) + Size(size, maxdata, k) <= size
  {
    FragmentInside(size, maxdata, k);
    if !IsLast(size, maxdata, k) {
      FragmentInside(size, maxdata, k + 1);
    }
  }

  lemma {:induction false} LastSize(size: nat, maxdata: nat, k: nat)
    requires Cuttable(size, maxdata) && HasFragment(size, maxdata, k) && Offset(maxdata, k) <= size
    ensures var rest := size - Offset(maxdata, k);
            var n := if rest > maxdata then maxdata / 32 * 32 else rest;
            n == Size(size, maxdata, k) && (n == rest <==> IsLast(size, maxdata, k))
  {
  }

  /** The variables of a caller of ecx_EOEreadfragment. */
  class Receiver {
    var rxfragmentno: nat
    var rxframesize: nat
    var rxframeoffset: nat
    var rxframeno: nat
    var psize: nat
    const buf: array<byte>

    constructor (size: nat)
      ensures State().Valid() && psize == size && rxfragmentno == 0 && fresh(buf)
    {
      rxfragmentno, rxframesize, rxframeoffset, rxframeno, psize := 0, 0, 0, 0, size;
      buf := new byte[size](_ => 0);
    }

    ghost function State(): Rx
      reads this, buf
    {
      Rx(rxfragmentno, rxframesize, rxframeoffset, rxframeno, psize, buf[..])
    }

    method Restart()
      modifies this`rxfragmentno, this`rxframesize, this`rxframeoffset, this`rxframeno
      ensures State() == old(State()).Reset()
    {
      rxfragmentno, rxframesize, rxframeoffset, rxframeno := 0, 0, 0, 0;
    }

    /** Is it the fragment that was expected? */
    method Expect(frameinfo2: uint16) returns (wkc: int)
      requires State().Valid()
      modifies this
      ensures State() == Accept(old(State()), frameinfo2).0 && wkc == Accept(old(State()), frameinfo2).1
    {
      hide FragmentNo, FrameOffset, FrameNo;
      wkc := 0;
      ghost var was := State();
      // not the fragment that is due
      if rxfragmentno != FragmentNo(frameinfo2) {
        if rxfragmentno != 0 {
          Restart();
        }
        // a new frame can only begin with fragment 0
        if FragmentNo(frameinfo2) > 0 {
          return INVALID_RX_DATA;
        }
      }
      if rxfragmentno == 0 { // a new frame
        rxframesize := FrameOffset(frameinfo2) * 32;
        rxframeoffset := 0;
        rxframeno := FrameNo(frameinfo2);
      } else if rxframeno != FrameNo(frameinfo2) || rxframeoffset != FrameOffset(frameinfo2) * 32 {
        Restart();
        return INVALID_RX_DATA;
      }
    }

    /** memcpy to the current offset of the frame buffer. */
    method CopyData(data: seq<byte>, n: nat)
      requires n <= |data| && rxframeoffset + n <= buf.Length
      modifies buf
      ensures State() == old(State()).(buf := Put(old(State()).buf, rxframeoffset, data[..n]))
    {
      ghost var was := buf[..];
      Copy(buf, rxframeoffset, data[..n]);
      assert buf[..] == buf[..rxframeoffset] + buf[rxframeoffset..rxframeoffset + n] + buf[rxframeoffset + n..];
      assert buf[..] == Put(was, rxframeoffset, data[..n]);
    }

    /** Copy the data, and finish with the last fragment. */
    method TakeData(m: Mbx) returns (wkc: int)
      requires State().Valid() && Sound(m)
      modifies this, buf
      ensures State() == Take(old(State()), m).0 && wkc == Take(old(State()), m).1
    {
      hide LastFragment, TimeAppended, Put;
      wkc := 0;
      var eoedatasize := DataSize(m);
      // inside the frame and the buffer?
      if rxframeoffset + eoedatasize <= rxframesize && rxframeoffset + eoedatasize <= psize {
        CopyData(m.data, eoedatasize);
        rxframeoffset := rxframeoffset + eoedatasize;
        rxfragmentno := (rxfragmentno + 1) % 0x100;
      }
      if LastFragment(m.frameinfo1) {
        if TimeAppended(m.frameinfo1) { // without the four bytes of time
          rxframeoffset := (rxframeoffset + 0x1_0000 - 4) % 0x1_0000;
        }
        psize := rxframeoffset;
        Restart();
        wkc := 1;
      }
    }

    /** ecx_EOEreadfragment */
    method EOEreadfragment(m: Mbx) returns (wkc: int)
      requires State().Valid() && Sound(m)
      modifies this, buf
      ensures State() == Read(old(State()), m).0 && wkc == Read(old(State()), m).1
    {
      hide Accept, Take, IsEoe;
      if !IsEoe(m) {
        return PACKET_ERROR;
      }
      wkc := Expect(m.frameinfo2);
      if wkc >= 0 {
        wkc := TakeData(m);
      }
    }
  }
}
