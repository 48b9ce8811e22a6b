/** ethercatcoe.c: ecx_SDOwrite and ecx_SDOread. */
module SdoPort {
  import opened Bytes
  import opened Mailboxes
  import opened Sdo

  /** What becomes of a mailbox sent: it does not get into the slave or gets no answer, a proper response, or
      another one (an abort, say). */
  datatype Reply = Silent | Accepted | Refused

  function ReplyTo(replies: seq<Reply>, k: nat): Reply { if k < |replies| then replies[k] else Silent }

  /** How many of `total` mailboxes are sent, from number k on.  Without a proper response to the first
      nothing more is sent; later only a wrong response stops the download, not a missing one. */
  function Sent(replies: seq<Reply>, total: nat, k: nat): (n: nat)
    requires k <= total
    ensures k <= n <= total
    decreases total - k
  {
    if k == total then total
    else if ReplyTo(replies, k).Refused? || (k == 0 && !ReplyTo(replies, k).Accepted?) then k + 1
    else Sent(replies, total, k + 1)
  }

  function SegmentCount(size: nat, at: nat, chunk: nat): (n: nat)
    requires at <= size && chunk > 0
    ensures n >= 1
    decreases size - at
  {
    if Kept(size - at) <= chunk then 1 else 1 + SegmentCount(size, at + chunk, chunk)
  }

  lemma {:induction false} SegmentsCounted(ms: seq<Mailbox>, p: seq<byte>, at: nat, chunk: nat, toggle: bool)
    requires AllValid(ms) && at <= |p| && chunk > 0 && Segments(ms, p, at, chunk, toggle)
    ensures |ms| == SegmentCount(|p|, at, chunk)
    decreases |p| - at
  {
    if Kept(|p| - at) > chunk {
      SegmentsCounted(ms[1..], p, at + chunk, chunk, !toggle);
    }
  }

  /** Segments before the last one, from position `from` to `to`. */
  predicate Upto(ms: seq<Mailbox>, p: seq<byte>, from: nat, to: nat, chunk: nat, toggle: bool, toggle': bool)
    requires AllValid(ms) && from <= |p| && chunk > 0
    decreases |ms|
  {
    if ms == [] then from == to && toggle == toggle'
    else
      && chunk < Kept(|p| - from) && Segment(ms[0], p[from..from + chunk], toggle, false)
      && Upto(ms[1..], p, from + chunk, to, chunk, !toggle, toggle')
  }

  lemma {:induction false} UptoOn(ms: seq<Mailbox>, p: seq<byte>, from: nat, to: nat, chunk: nat, toggle: bool,
                                  toggle': bool, m: Mailbox)
    requires AllValid(ms) && m.Valid() && from <= |p| && chunk > 0 && Upto(ms, p, from, to, chunk, toggle, toggle')
    requires to <= |p| && chunk < Kept(|p| - to) && Segment(m, p[to..to + chunk], toggle', false)
    ensures Upto(ms + [m], p, from, to + chunk, chunk, toggle, !toggle')
    decreases |ms|
  {
    hide Segment;
    if ms != [] {
      UptoOn(ms[1..], p, from + chunk, to, chunk, !toggle, toggle', m);
      assert (ms + [m])[1..] == ms[1..] + [m];
    } else {
      assert (ms + [m])[1..] == [];
    }
  }

  lemma {:induction false} Join(ms: seq<Mailbox>, tail: seq<Mailbox>, p: seq<byte>, from: nat, to: nat, chunk: nat,
                                toggle: bool, toggle': bool)
    requires AllValid(ms) && AllValid(tail) && from <= |p| && to <= |p| && chunk > 0
    requires Upto(ms, p, from, to, chunk, toggle, toggle') && Segments(tail, p, to, chunk, toggle')
    ensures AllValid(ms + tail) && Segments(ms + tail, p, from, chunk, toggle)
    decreases |ms|
  {
    hide Segment;
    if ms != [] {
      Join(ms[1..], tail, p, from + chunk, to, chunk, !toggle, toggle');
      assert (ms + tail)[1..] == ms[1..] + tail;
    } else {
      assert ms + tail == tail;
    }
  }

  /** A download that was not finished could have been. */
  lemma {:induction false} Rest(p: seq<byte>, at: nat, chunk: nat, toggle: bool) returns (ms: seq<Mailbox>)
    requires at <= |p| && 7 <= chunk <= AREA
    ensures AllValid(ms) && Segments(ms, p, at, chunk, toggle)
    decreases |p| - at
  {
    hide Segment;
    var left := Kept(|p| - at);
    if left <= chunk {
      var m := SomeSegment(p[at..at + left], toggle, true);
      ms := [m];
    } else {
      var m := SomeSegment(p[at..at + chunk], toggle, false);
      var more := Rest(p, at + chunk, chunk, !toggle);
      ms := [m] + more;
      assert ms[1..] == more;
    }
  }

  lemma {:induction false} SomeSegment(d: seq<byte>, toggle: bool, last: bool) returns (m: Mailbox)
    requires |d| <= AREA
    ensures m.Valid() && Segment(m, d, toggle, last)
  {
    var command: byte := (if last then 1 + (if |d| < 7 then 2 * (7 - |d|) else 0) else 0) + if toggle then 0x10 else 0;
    m := Mailbox(if last && |d| < 7 then 0x0a
      else |d| + 3, ECT_MBXT_COE, 0x1000 * ECT_COES_SDOREQ, command, Put(Zeros(AREA), 0, d));
    assert m.area[..|d|] == m.area[0..0 + |d|];
  }

  /** The master's side of a slave's mailbox: its size, the mailbox counter, and what was handed to
      ecx_mbxsend, in order. */
  class Master {
    const mbx_l: nat
    var mbx_cnt: nat
    var outbox: seq<Mailbox>

    constructor (mbx_l: nat)
      requires 0x10 <= mbx_l <= 1486
      ensures Valid() && this.mbx_l == mbx_l && outbox == []
    {
      this.mbx_l, mbx_cnt, outbox := mbx_l, 0, [];
    }

    ghost predicate Valid()
      reads this
    {
      mbx_cnt < 8 && 0x10 <= mbx_l <= 1486
    }

    /** Fill in the parts all SDO requests have in common. */
    method Request(SDOp: Mailbox) returns (m: Mailbox)
      requires Valid()
      modifies this`mbx_cnt
      ensures Valid() && IsCoe(m, ECT_COES_SDOREQ) && m == SDOp.(mbxtype := m.mbxtype, canopen := m.canopen)
    {
      mbx_cnt := NextCnt(mbx_cnt);
      m := SDOp.(mbxtype := ECT_MBXT_COE + 0x10 * mbx_cnt, canopen := 0x1000 * ECT_COES_SDOREQ);
    }

    method ExpeditedRequest(index: uint16, subindex: byte, p: seq<byte>) returns (m: Mailbox)
      requires Valid() && |p| <= 4
      modifies this`mbx_cnt
      ensures Valid() && m.Valid() && Expedited(m, index, subindex, p)
    {
      hide IsCoe;
      var area := Put(Zeros(AREA), 0, [Lo(index), Hi(index), subindex]);
      assert area[0..3] == [Lo(index), Hi(index), subindex];
      assert area[0] == area[0..3][0] && area[1] == area[0..3][1] && area[2] == area[0..3][2];
      area := Put(area, 3, p);
      m := Request(Mailbox(0x0a, 0, 0, ECT_SDO_DOWN_EXP + 4 * ((4 - |p|) % 4), area));
    }

    method InitRequest(index: uint16, subindex: byte, CA: bool, p: seq<byte>, framedatasize: nat) returns (m: Mailbox)
      requires Valid() && framedatasize <= |p| < 0x8000_0000 && 7 + framedatasize <= AREA
      modifies this`mbx_cnt
      ensures Valid() && m.Valid() && Init(m, index, subindex, CA, p, framedatasize)
    {
      hide IsCoe, Put, Long, Word, Lo, Hi, Head;
      var sub := if CA && subindex > 1 then 1 else subindex;
      var head := Head(index, sub, |p|);
      var area := Put(Zeros(AREA), 0, head);
      PutParts(Zeros(AREA), 0, head);
      assert area[..7] == area[0..0 + 7] == head;
      PutParts(area, 7, p[..framedatasize]);
      area := Put(area, 7, p[..framedatasize]);
      HeadFields(area, index, sub, |p|);
      m := Request(Mailbox(0x0a + framedatasize, 0, 0, if CA then ECT_SDO_DOWN_INIT_CA else ECT_SDO_DOWN_INIT, area));
    }

    /** One segment: the buffer still holds what was sent before. */
    method SegmentRequest(SDOp: Mailbox, d: seq<byte>, NotLast: bool, toggle: bool) returns (m: Mailbox)
      requires Valid() && SDOp.Valid() && |d| <= AREA
      modifies this`mbx_cnt
      ensures Valid() && m.Valid() && Segment(m, d, toggle, !NotLast)
    {
      hide IsCoe;
      var command: byte := if NotLast then 0x00 else 0x01;
      var length: uint16;
      if !NotLast && |d| < 7 {
        length := 0x0a; // a segment has at least seven bytes
        command := 0x01 + 2 * (7 - |d|); // how many of them are not used
      } else {
        length := |d| + 3;
      }
      command := command + if toggle then 0x10 else 0;
      m := Request(Mailbox(length, 0, 0, command, Put(SDOp.area, 0, d)));
      assert m.area[..|d|] == m.area[0..0 + |d|];
    }

    /** The segments of a download.  `replies` are those to all its mailboxes, the first included. */
    method WriteSegments(SDOp: Mailbox, p: seq<byte>, at: nat, maxdata: nat, replies: seq<Reply>)
      returns (wkc: int, ghost segments: seq<Mailbox>)
      requires Valid() && SDOp.Valid() && at <= |p| && 7 <= maxdata <= AREA
      modifies this
      ensures Valid() && AllValid(segments) && Segments(segments, p, at, maxdata, false)
      ensures Written(replies, outbox, old(outbox), segments, wkc)
    {
      hide Segment, Segments, Upto, IsCoe, Sent, Written;
      var m, hp, toggle, NotLast, k := SDOp, at, false, true, 1;
      ghost var sent: seq<Mailbox> := []; // segments sent but for the last
      wkc := 1;
      segments := Rest(p, at, maxdata, false);
      Begin(p, at, maxdata);
      while NotLast
        invariant Valid() && m.Valid() && AllValid(sent) && AllValid(segments)
        invariant NotLast ==> k == 1 + |sent| && hp <= |p| && outbox == old(outbox) + sent
        invariant NotLast ==> Upto(sent, p, at, hp, maxdata, false, toggle)
        invariant NotLast ==> forall total: nat :: 1 + |sent| <= total ==>
                    Sent(replies, total, 1) == Sent(replies, total, 1 + |sent|)
        invariant !NotLast ==> Segments(segments, p, at, maxdata, false)
        invariant !NotLast ==> Written(replies, outbox, old(outbox), segments, wkc)
        decreases NotLast, |p| - hp
      {
        ghost var before, was, t := sent, outbox, toggle;
        var framedatasize := Kept(|p| - hp);
        NotLast := false;
        if framedatasize > maxdata {
          framedatasize := maxdata;
          NotLast := true;
        }
        ghost var d := p[hp..hp + framedatasize];
        m := SegmentRequest(m, p[hp..hp + framedatasize], NotLast, toggle);
        outbox := outbox + [m];
        var reply := ReplyTo(replies, k);
        k := k + 1;
        wkc := if reply.Accepted? then 1 else 0;
        if !NotLast {
          LastOne(sent, p, at, hp, maxdata, t, m);
          segments := sent + [m];
          LastWritten(replies, old(outbox), sent, m, wkc);
        } else {
          UptoOn(sent, p, at, hp, maxdata, false, t, m);
          if reply.Refused? {
            NotLast := false;
            ghost var rest := Rest(p, hp + maxdata, maxdata, !t);
            Join(sent + [m], rest, p, at, hp + maxdata, maxdata, false, !t);
            segments := sent + [m] + rest;
            NotEmpty(rest, p, hp + maxdata, maxdata, !t);
            RefusedWritten(replies, old(outbox), sent, m, rest);
          } else {
            SentOn(replies, 1 + |sent|);
          }
          sent := sent + [m];
        }
        hp := hp + framedatasize;
        toggle := !toggle;
      }
    }

    /** ecx_SDOwrite.  A download that is cut short sends the first mailboxes of a whole one. */
    method SDOwrite(index: uint16, subindex: byte, CA: bool, p: seq<byte>, replies: seq<Reply>)
      returns (wkc: int, ghost ms: seq<Mailbox>)
      requires Valid() && |p| < 0x8000_0000
      modifies this
      ensures Valid() && Download(ms, index, subindex, CA, p, mbx_l - 0x10)
      ensures var n := Sent(replies, |ms|, 0);
              && outbox == old(outbox) + ms[..n]
              && (wkc > 0 <==> n == |ms| && ReplyTo(replies, 0).Accepted? && ReplyTo(replies, |ms| - 1).Accepted?)
    {
      hide Segments, Expedited, Init, Written;
      var maxdata := mbx_l - 0x10;
      var m;
      if |p| <= 4 && !CA {
        m := ExpeditedRequest(index, subindex, p);
        outbox := outbox + [m];
        wkc := if ReplyTo(replies, 0).Accepted? then 1 else 0;
        ms := [m];
      } else {
        var framedatasize, NotLast := Kept(|p|), false;
        if framedatasize > maxdata {
          framedatasize := maxdata; // the rest goes in segments
          NotLast := true;
        }
        m := InitRequest(index, subindex, CA, p, framedatasize);
        outbox := outbox + [m];
        wkc := if ReplyTo(replies, 0).Accepted? then 1 else 0;
        ghost var segments: seq<Mailbox> := [];
        if NotLast {
          if wkc > 0 {
            ghost var was := outbox;
            wkc, segments := WriteSegments(m, p, framedatasize, maxdata + 7, replies);
            FirstWritten(replies, outbox, old(outbox), m, segments, wkc);
          } else {
            segments := Rest(p, framedatasize, maxdata + 7, false);
            NotEmpty(segments, p, framedatasize, maxdata + 7, false);
          }
        }
        ms := [m] + segments;
        assert ms[1..] == segments;
      }
    }

    method UploadRequest(index: uint16, subindex: byte, command: byte) returns (m: Mailbox)
      requires Valid()
      modifies this`mbx_cnt
      ensures Valid() && m.Valid() && Asks(m, index, subindex, command)
    {
      hide IsCoe, Put, Long, Word, Lo, Hi, Head;
      var head := Head(index, subindex, 0);
      var area := Put(Zeros(AREA), 0, head);
      PutParts(Zeros(AREA), 0, head);
      assert area[..7] == area[0..0 + 7] == head;
      HeadFields(area, index, subindex, 0);
      m := Request(Mailbox(0x0a, 0, 0, command, area));
    }

    /** ecx_SDOread.  `inbox` is what becomes of each request; `room` is the size of the parameter buffer.
        `hangs` tells that the requests go on for ever, from the end of `inbox` on. */
    method SDOread(index: uint16, subindex: byte, CA: bool, room: nat, inbox: seq<Reception>)
      returns (wkc: int, data: seq<byte>, hangs: bool)
      requires Valid() && Sane(inbox)
      modifies this
      ensures Valid() && (hangs <==> Outcome(inbox, index, room).Hangs?)
      ensures !hangs ==> wkc >= 0 && (wkc > 0 <==> Outcome(inbox, index, room).Value?)
      ensures data == Outcome(inbox, index, room).data
      ensures exists asked ::
                && outbox == old(outbox) + asked && AllValid(asked)
                && Requests(asked, index, if CA && subindex > 1 then 1 else subindex, CA)
    {
      hide IsCoe, SegmentSize, Sound, Long, Requests, Asks;
      var sub := if CA && subindex > 1 then 1 else subindex;
      var m := UploadRequest(index, sub, if CA then ECT_SDO_UP_REQ_CA else ECT_SDO_UP_REQ);
      outbox := outbox + [m];
      ghost var asked := [m];
      FirstAsked(m, index, sub, CA);
      data, hangs := [], false;
      wkc := if inbox != [] && inbox[0].Got? then 1 else 0;
      if wkc > 0 {
        var a := inbox[0].m;
        ReceivedSound(inbox);
        if IsCoe(a, ECT_COES_SDORES) && Index(a) == index {
          if a.command / 2 % 2 == 1 { // expedited
            var bytesize := 4 - a.command / 4 % 4;
            if room >= bytesize {
              data := a.area[3..3 + bytesize];
            } else {
              wkc := 0;
            }
          } else {
            var SDOlen := Long(a.area, 3);
            if SDOlen <= room {
              SizeSound(a);
              var Framedatasize := a.length - 10;
              if Framedatasize < SDOlen { // the rest comes in segments
                data := a.area[7..7 + Framedatasize];
                assert Received(inbox)[1..] == Received(inbox[1..]);
                var NotLast, toggle, k := true, false, 1;
                while NotLast && k < |inbox|
                  invariant Valid() && 1 <= k <= |inbox| && AllValid(asked) && |asked| >= 1
                  invariant outbox == old(outbox) + asked && Requests(asked, index, sub, CA) &&
                            toggle == (|asked| % 2 == 0)
                  invariant NotLast ==> AllSound(Received(inbox[k..]))
                  invariant NotLast ==> Outcome(inbox, index, room) == Collect(Received(inbox[k..]), data)
                  invariant !NotLast ==> wkc >= 0 && (wkc > 0 <==> Outcome(inbox, index, room) == Value(data))
                  invariant !NotLast && wkc == 0 ==> Outcome(inbox, index, room) == Upload.Error(data)
                  decreases NotLast, |inbox| - k
                {
                  m := UploadRequest(index, sub, ECT_SDO_SEG_UP_REQ + if toggle then 0x10 else 0);
                  AskedOn(asked, index, sub, CA, m);
                  assert old(outbox) + (asked + [m]) == outbox + [m];
                  outbox := outbox + [m];
                  asked := asked + [m];
                  wkc := if inbox[k].Got? then 1 else 0;
                  assert inbox[k..][0] == inbox[k] && inbox[k..][1..] == inbox[k + 1..];
                  if wkc > 0 {
                    a := inbox[k].m;
                    assert Received(inbox[k..])[1..] == Received(inbox[k + 1..]);
                    if IsSegment(a) {
                      SegmentFits(a);
                      data := data + a.area[..SegmentSize(a)];
                      if a.command % 2 == 1 {
                        NotLast := false;
                      }
                    } else {
                      NotLast := false;
                      wkc := 0;
                    }
                  }
                  k := k + 1;
                  toggle := !toggle;
                }
                hangs := NotLast;
              } else { // it is all here
                data := a.area[7..7 + SDOlen];
              }
            } else {
              wkc := 0;
            }
          }
        } else {
          wkc := 0;
        }
      }
    }
  }

  /** A request for an object, or for the next segment of it. */
  predicate Asks(m: Mailbox, index: uint16, subindex: byte, command: byte)
    requires m.Valid()
  {
    IsCoe(m, ECT_COES_SDOREQ) && m.length == 0x0a && m.command == command && Index(m) == index && m.area[2] == subindex
  }

  /** One request for the object, then requests for segments, with alternating toggle. */
  predicate Requests(ms: seq<Mailbox>, index: uint16, subindex: byte, CA: bool)
    requires AllValid(ms)
  {
    && ms != [] && Asks(ms[0], index, subindex, if CA then ECT_SDO_UP_REQ_CA else ECT_SDO_UP_REQ)
    && forall k :: 0 < k < |ms| ==> Asks(ms[k], index, subindex, ECT_SDO_SEG_UP_REQ + if k % 2 == 0 then 0x10 else 0)
  }

  lemma {:induction false} FirstAsked(m: Mailbox, index: uint16, subindex: byte, CA: bool)
    requires m.Valid() && Asks(m, index, subindex, if CA then ECT_SDO_UP_REQ_CA else ECT_SDO_UP_REQ)
    ensures AllValid([m]) && Requests([m], index, subindex, CA)
  {
  }

  lemma {:induction false} AskedOn(ms: seq<Mailbox>, index: uint16, subindex: byte, CA: bool, m: Mailbox)
    requires AllValid(ms) && Requests(ms, index, subindex, CA)
    requires m.Valid() && Asks(m, index, subindex, ECT_SDO_SEG_UP_REQ + if |ms| % 2 == 0 then 0x10 else 0)
    ensures AllValid(ms + [m]) && Requests(ms + [m], index, subindex, CA)
  {
    hide Asks;
  }

  lemma {:induction false} SizeSound(m: Mailbox)
    requires Sound(m)
    ensures |m.area| == AREA && m.length <= AREA + 3
  {
  }

  /** The segments that were sent, and what comes of it. */
  predicate Written(replies: seq<Reply>, outbox: seq<Mailbox>, before: seq<Mailbox>, segments: seq<Mailbox>, wkc: int) {
    var n := Sent(replies, 1 + |segments|, 1);
    && outbox == before + segments[..n - 1]
    && (wkc > 0 <==> n == 1 + |segments| && ReplyTo(replies, |segments|).Accepted?)
  }

  lemma {:induction false} Begin(p: seq<byte>, at: nat, chunk: nat)
    requires at <= |p| && chunk > 0
    ensures Upto([], p, at, at, chunk, false, false)
  {
  }

  lemma {:induction false} NotEmpty(ms: seq<Mailbox>, p: seq<byte>, at: nat, chunk: nat, toggle: bool)
    requires AllValid(ms) && at <= |p| && chunk > 0 && Segments(ms, p, at, chunk, toggle)
    ensures ms != []
  {
  }

  lemma {:induction false} LastOne(sent: seq<Mailbox>, p: seq<byte>, at: nat, hp: nat, chunk: nat, toggle: bool,
                                   m: Mailbox)
    requires AllValid(sent) && m.Valid() && at <= |p| && hp <= |p| && chunk > 0 && Kept(|p| - hp) <= chunk
    requires Upto(sent, p, at, hp, chunk, false, toggle) && Segment(m, p[hp..hp + Kept(|p| - hp)], toggle, true)
    ensures AllValid(sent + [m]) && Segments(sent + [m], p, at, chunk, false)
  {
    hide Segment;
    Join(sent, [m], p, at, hp, chunk, false, toggle);
  }

  lemma {:induction false} SentOn(replies: seq<Reply>, k: nat)
    requires k > 0 && !ReplyTo(replies, k).Refused?
    ensures forall total: nat :: k + 1 <= total ==> Sent(replies, total, k) == Sent(replies, total, k + 1)
  {
  }

  lemma {:induction false} LastWritten(replies: seq<Reply>, before: seq<Mailbox>, sent: seq<Mailbox>, m: Mailbox,
                                       wkc: int)
    requires Sent(replies, 2 + |sent|, 1) == Sent(replies, 2 + |sent|, 1 + |sent|)
    requires wkc > 0 <==> ReplyTo(replies, 1 + |sent|).Accepted?
    ensures Written(replies, before + sent + [m], before, sent + [m], wkc)
  {
    assert Sent(replies, 2 + |sent|, 1 + |sent|) == 2 + |sent|;
    assert (sent + [m])[..1 + |sent|] == sent + [m];
    assert before + (sent + [m]) == before + sent + [m];
  }

  lemma {:induction false} RefusedWritten(replies: seq<Reply>, before: seq<Mailbox>, sent: seq<Mailbox>, m: Mailbox,
                                          rest: seq<Mailbox>)
    requires rest != [] && ReplyTo(replies, 1 + |sent|).Refused?
    requires Sent(replies, 1 + |sent + [m] + rest|, 1) == Sent(replies, 1 + |sent + [m] + rest|, 1 + |sent|)
    ensures Written(replies, before + sent + [m], before, sent + [m] + rest, 0)
  {
    assert (sent + [m] + rest)[..1 + |sent|] == sent + [m];
    assert before + (sent + [m]) == before + sent + [m];
  }

  lemma {:induction false} FirstWritten(replies: seq<Reply>, outbox: seq<Mailbox>, before: seq<Mailbox>, m: Mailbox,
                                        segments: seq<Mailbox>, wkc: int)
    requires ReplyTo(replies, 0).Accepted? && Written(replies, outbox, before + [m], segments, wkc)
    ensures var ms, n := [m] + segments, Sent(replies, 1 + |segments|, 0);
            outbox == before + ms[..n] && (wkc > 0 <==> n == |ms| && ReplyTo(replies, |ms| - 1).Accepted?)
  {
    var n := Sent(replies, 1 + |segments|, 0);
    assert n == Sent(replies, 1 + |segments|, 1);
    assert ([m] + segments)[..n] == [m] + segments[..n - 1];
    assert before + ([m] + segments[..n - 1]) == (before + [m]) + segments[..n - 1];
  }

  /** The requests of an upload field by field: command 0x40, or 0x50 for complete access, and then 0x60 and 0x70 in
      turn for the segments; index, low byte first, and subindex. */
  lemma {:induction false} UploadFields(ms: seq<Mailbox>, index: uint16, subindex: byte, CA: bool, k: nat)
    requires AllValid(ms) && Requests(ms, index, subindex, CA) && k < |ms|
    ensures var m := ms[k];
            && m.mbxtype % 0x10 == 3 && m.canopen / 0x1000 == 2 && m.length == 10
            && m.command == (if k == 0 then (if CA then 0x50 else 0x40) else if k % 2 == 1 then 0x60 else 0x70)
            && m.area[0] == index % 0x100 && m.area[1] == index / 0x100 && m.area[2] == subindex
  {
    assert Asks(ms[k], index, subindex, ms[k].command);
    Halves(ms[k].area[0], ms[k].area[1], index);
  }

  lemma {:induction false} Halves(lo: byte, hi: byte, w: uint16)
    requires Word(lo, hi) == w
    ensures lo == w % 0x100 && hi == w / 0x100
  {
  }

  /** The mailboxes of a download field by field: everything at once with commands 0x2f, 0x2b, 0x27 and 0x23 for one to
      four bytes; or 0x21 (0x31 for complete access) and the size, low byte first; then segments with commands
      0x00 and 0x10 in turn, one more for the last, and two more for each byte it has less than seven. */
  lemma {:induction false} DownloadFields(ms: seq<Mailbox>, index: uint16, subindex: byte, CA: bool, p: seq<byte>,
                                          maxdata: nat)
    requires Download(ms, index, subindex, CA, p, maxdata) && |p| < 0x1_0000_0000
    ensures AllValid(ms) && ms != []
    ensures var m, n := ms[0], |p|;
            && m.mbxtype % 0x10 == 3 && m.canopen / 0x1000 == 2
            && m.area[0] == index % 0x100 && m.area[1] == index / 0x100
            && m.area[2] == (if CA && subindex > 1 then 1 else subindex)
            && (n <= 4 && !CA ==>
                  && m.command == (if n == 1 then 0x2f else if n == 2 then 0x2b else if n == 3 then 0x27 else 0x23)
                  && m.length == 10 && m.area[3..3 + n] == p)
            && (n > 4 || CA ==>
                  && m.command == (if CA then 0x31 else 0x21)
                  && m.area[3] == n % 0x100 && m.area[4] == n / 0x100 % 0x100
                  && m.area[5] == n / 0x1_0000 % 0x100 && m.area[6] == n / 0x100_0000)
  {
    hide Segments;
    var m, n := ms[0], |p|;
    Halves(m.area[0], m.area[1], index);
    if n > 4 || CA {
      LongFields(m.area[3], m.area[4], m.area[5], m.area[6], n);
    }
  }

  lemma {:induction false} LongFields(a: byte, b: byte, c: byte, d: byte, n: nat)
    requires Word(a, b) + 0x1_0000 * Word(c, d) == n
    ensures a == n % 0x100 && b == n / 0x100 % 0x100 && c == n / 0x1_0000 % 0x100 && d == n / 0x100_0000
  {
    var lo, hi := Word(a, b), Word(c, d);
    Halves(a, b, lo);
    Halves(c, d, hi);
    hide Word;
    assert n / 0x1_0000 == hi && n % 0x1_0000 == lo;
    LowHalf(n);
    HighHalf(n);
  }

  /** The k-th segment of a download field by field, when it begins with byte `from`. */
  predicate FieldsOf(m: Mailbox, p: seq<byte>, from: nat, chunk: nat, toggle: bool, last: bool)
    requires m.Valid()
  {
    && from <= |p| && (last <==> |p| - from <= chunk)
    && var d := if last then p[from..] else p[from..][..chunk];
       && m.mbxtype % 16 == 3 && m.canopen / 4096 == 2 && |d| <= |m.area| && m.area[..|d|] == d
       && m.length == (if last && |d| < 7 then 10 else 3 + |d|)
       && m.command == (if toggle then 16 else 0) + (if last then 1 + 2 * (if |d| < 7 then 7 - |d| else 0) else 0)
  }

  lemma {:induction false} OneSegment(m: Mailbox, p: seq<byte>, from: nat, chunk: nat, toggle: bool, last: bool)
    requires m.Valid() && from <= |p| && chunk > 0 && (last <==> |p| - from <= chunk)
    requires Segment(m, if last then p[from..|p|] else p[from..from + chunk], toggle, last)
    ensures FieldsOf(m, p, from, chunk, toggle, last)
  {
    assert !last ==> p[from..][..chunk] == p[from..from + chunk];
  }

  /** Below 65536 bytes, the segments hold what the first mailbox has no room for, in order, each but the last as much
      as a mailbox takes, with the toggle bit in turn. */
  lemma {:induction false} SegmentFields(ms: seq<Mailbox>, p: seq<byte>, at: nat, chunk: nat, toggle: bool, k: nat)
    requires AllValid(ms) && at <= |p| < 0x1_0000 && chunk > 0 && Segments(ms, p, at, chunk, toggle) && k < |ms|
    ensures FieldsOf(ms[k], p, at + k * chunk, chunk, toggle != (k % 2 == 1), k == |ms| - 1)
    decreases k
  {
    hide Segment, FieldsOf, Kept;
    assert Kept(|p| - at) == |p| - at;
    if k == 0 {
      OneSegment(ms[0], p, at, chunk, toggle, |ms| == 1);
    } else {
      SegmentFields(ms[1..], p, at + chunk, chunk, !toggle, k - 1);
      assert at + chunk + (k - 1) * chunk == at + k * chunk;
    }
  }
}
