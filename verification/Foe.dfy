/** ethercatfoe.c: files in numbered packets, each acknowledged before the next is sent. */
module Foe {
  import opened Bytes
  import opened Mailboxes

  const ECT_MBXT_FOE := 4
  const ECT_FOE_READ := 1
  const ECT_FOE_WRITE := 2
  const ECT_FOE_DATA := 3
  const ECT_FOE_ACK := 4
  const ECT_FOE_ERROR := 5
  const ECT_FOE_BUSY := 6
  const PACKET_ERROR := -3
  const FOE_ERROR := -5
  const FOE_BUF2SMALL := -6
  const FOE_PACKETNUMBER := -7
  const FOE_FILE_NOTFOUND := -10

  /** A mailbox with a FoE header.  `number` is the password, packet number or error code; `data` the file
      name or the data. */
  datatype Mbx = Mbx(length: uint16, mbxtype: byte, opcode: byte, number: nat, data: seq<byte>)

  /** What the master receives: nothing in time, or a mailbox.  `taken` tells whether the mailbox sent in turn,
      if any, gets into the slave. */
  datatype Event = Silent | Got(m: Mbx, taken: bool)

  predicate IsFoe(m: Mbx) { m.mbxtype % 0x10 == ECT_MBXT_FOE }

  // ----- packets -----

  /** The packets of a file: full ones, and a last one that is not full. */
  function Packets(p: seq<byte>, maxdata: nat): (ps: seq<seq<byte>>)
    requires maxdata > 0
    ensures |ps| >= 1
    decreases |p|
  {
    if |p| < maxdata then [p] else [p[..maxdata]] + Packets(p[maxdata..], maxdata)
  }

  function Joined(ps: seq<seq<byte>>): seq<byte> {
    if ps == [] then [] else ps[0] + Joined(ps[1..])
  }

  /** All packets but the last are full, and the last is not. */
  predicate Sizes(ps: seq<seq<byte>>, maxdata: nat) {
    ps != [] && |ps[|ps| - 1]| < maxdata && forall k :: 0 <= k < |ps| - 1 ==> |ps[k]| == maxdata
  }

  lemma {:induction false} SizesOn(d: seq<byte>, ps: seq<seq<byte>>, maxdata: nat)
    requires |d| == maxdata && Sizes(ps, maxdata)
    ensures Sizes([d] + ps, maxdata) && ([d] + ps)[1..] == ps
  {
  }

  /** The packets make up the file; all but the last are full, and the last is not. */
  lemma {:induction false} PacketsMakeUp(p: seq<byte>, maxdata: nat)
    requires maxdata > 0
    ensures Joined(Packets(p, maxdata)) == p && Sizes(Packets(p, maxdata), maxdata)
    decreases |p|
  {
    hide Sizes;
    if |p| < maxdata {
      LastSize(p, maxdata);
    } else {
      PacketsMakeUp(p[maxdata..], maxdata);
      SizesOn(p[..maxdata], Packets(p[maxdata..], maxdata), maxdata);
      assert p == p[..maxdata] + p[maxdata..];
    }
  }

  lemma {:induction false} LastSize(p: seq<byte>, maxdata: nat)
    requires |p| < maxdata
    ensures Sizes([p], maxdata) && Joined([p]) == p
  {
    assert [p][1..] == [];
  }

  lemma {:induction false} PacketCount(p: seq<byte>, maxdata: nat)
    requires maxdata > 0
    ensures |Packets(p, maxdata)| == |p| / maxdata + 1
    decreases |p|
  {
    if |p| >= maxdata {
      PacketCount(p[maxdata..], maxdata);
      OneLess(|p|, maxdata);
    } else {
      Quotient(|p|, maxdata, 0);
    }
  }

  lemma {:induction false} OneLess(x: nat, m: nat)
    requires 0 < m <= x
    ensures x / m == (x - m) / m + 1
  {
    var q := (x - m) / m;
    assert m * q <= x - m < m * q + m;
    assert m * (q + 1) == m * q + m;
    Quotient(x, m, q + 1);
  }

  lemma {:induction false} Quotient(x: nat, m: nat, q: nat)
    requires m > 0 && m * q <= x < m * q + m
    ensures x / m == q
  {
    var d := x / m;
    assert m * d <= x < m * d + m;
    if d < q {
      Multiples(m, d + 1, q);
    } else if d > q {
      Multiples(m, q + 1, d);
    }
  }

  lemma {:induction false} Multiples(m: nat, a: nat, b: nat)
    requires a <= b
    ensures m * a <= m * b && m * a == m * (a - 1) + m
  {
    assert m * b == m * a + m * (b - a);
  }

  // ----- reading -----

  /** The data a packet tells with its length field; the mailbox is cleared before it is received. */
  function SegmentData(m: Mbx): seq<byte> {
    var n := (m.length + 0x1_0000 - 6) % 0x1_0000;
    if n <= |m.data| then m.data[..n] else m.data + Zeros(n - |m.data|)
  }

  lemma {:induction false} DataTold(m: Mbx, number: nat, d: seq<byte>)
    requires IsData(m, number, d)
    ensures SegmentData(m) == d
  {
  }

  datatype Reading = Reading(wkc: int, data: seq<byte>)

  /** The packet loop of ecx_FOEread after `last` packets. */
  function Read(events: seq<Event>, maxdata: nat, room: nat, last: nat, data: seq<byte>): Reading
    decreases |events|
  {
    if events == [] || events[0].Silent? then Reading(0, data)
    else
      var m := events[0].m;
      if !IsFoe(m) then Reading(PACKET_ERROR, data)
      else if m.opcode == ECT_FOE_ERROR then Reading(FOE_ERROR, data)
      else if m.opcode != ECT_FOE_DATA then Reading(PACKET_ERROR, data)
      else if m.number == last + 1 && |data| + |SegmentData(m)| <= room then
        var read := data + SegmentData(m);
        if !events[0].taken then Reading(0, read)
        else if |SegmentData(m)| == maxdata then Read(events[1..], maxdata, room, last + 1, read)
        else Reading(1, read)
      else Reading(FOE_BUF2SMALL, data)
  }

  /** A data packet. */
  predicate IsData(m: Mbx, number: nat, d: seq<byte>) {
    IsFoe(m) && m.opcode == ECT_FOE_DATA && m.number == number && m.data == d && m.length == 6 + |d|
  }

  /** The packets, from number `last` + 1 on, then anything. */
  predicate Brings(events: seq<Event>, ps: seq<seq<byte>>, last: nat) {
    |ps| <= |events| && forall k :: 0 <= k < |ps| ==>
        events[k].Got? && events[k].taken && IsData(events[k].m, last + 1 + k, ps[k])
  }

  /** A file is read back exactly when it fits the buffer; what comes after its last packet is not looked at. */
  lemma {:induction false} ReadBackIff(events: seq<Event>, p: seq<byte>, maxdata: nat, room: nat, last: nat,
                                       data: seq<byte>)
    requires maxdata > 0 && |data| <= room && Brings(events, Packets(p, maxdata), last)
    ensures Read(events, maxdata, room, last, data) == Reading(1, data + p) <==> |data| + |p| <= room
    ensures |Read(events, maxdata, room, last, data).data| <= room
    decreases |p|
  {
    hide IsFoe, SegmentData;
    var ps := Packets(p, maxdata);
    assert events[0].Got? && IsData(events[0].m, last + 1, ps[0]);
    DataTold(events[0].m, last + 1, ps[0]);
    if |p| >= maxdata {
      if |data| + maxdata <= room {
        assert ps[1..] == Packets(p[maxdata..], maxdata);
        assert forall k :: 0 <= k < |ps| - 1 ==> events[1..][k] == events[k + 1] && ps[1..][k] == ps[k + 1];
        ReadBackIff(events[1..], p[maxdata..], maxdata, room, last + 1, data + p[..maxdata]);
        assert data + p[..maxdata] + p[maxdata..] == data + p;
      }
    }
  }

  // ----- writing -----

  /** How many data packets a write sends, and its result; `n` is how many there are. */
  function Write(events: seq<Event>, n: nat, sent: nat): (r: (nat, int))
    requires sent <= n
    ensures sent <= r.0 <= n
    decreases |events|
  {
    if events == [] || events[0].Silent? then (sent, 0)
    else
      var m := events[0].m;
      if !IsFoe(m) then (sent, PACKET_ERROR)
      else if m.opcode == ECT_FOE_ACK then
        if m.number != sent then (sent, FOE_PACKETNUMBER)
        else if sent == n then (sent, 1)
        else if events[0].taken then Write(events[1..], n, sent + 1) else (sent, 0)
      else if m.opcode == ECT_FOE_BUSY then (sent, 1)
      else if m.opcode == ECT_FOE_ERROR then (sent, if m.number == 0x8001 then FOE_FILE_NOTFOUND else FOE_ERROR)
      else (sent, PACKET_ERROR)
  }

  predicate IsAck(e: Event, number: nat) { e.Got? && IsFoe(e.m) && e.m.opcode == ECT_FOE_ACK && e.m.number == number }

  predicate IsBusy(e: Event) { e.Got? && IsFoe(e.m) && e.m.opcode == ECT_FOE_BUSY }

  /** The packets from number `sent` + 1 to `k` were asked for and taken. */
  predicate Acked(events: seq<Event>, sent: nat, k: nat) {
    sent <= k && k - sent <= |events| && forall i :: 0 <= i < k - sent ==> IsAck(events[i], sent + i) && events[i].taken
  }

  /** The slave ends the write after packet k: it is busy, or packet k was the last one and it acknowledges it. */
  predicate Ends(events: seq<Event>, n: nat, sent: nat, k: nat) {
    && sent <= k <= n && Acked(events, sent, k) && k - sent < |events|
    && (IsBusy(events[k - sent]) || (k == n && IsAck(events[k - sent], n)))
  }

  /** Then k packets are sent and the write reports success. */
  lemma {:induction false} StopsAt(events: seq<Event>, n: nat, sent: nat, k: nat)
    requires Ends(events, n, sent, k)
    ensures Write(events, n, sent) == (k, 1)
    decreases |events|
  {
    hide IsFoe;
    if sent < k {
      assert IsAck(events[0], sent + 0) && events[0].taken;
      AckedOn(events, sent, k);
      assert events[1..][k - (sent + 1)] == events[k - sent];
      StopsAt(events[1..], n, sent + 1, k);
    } else {
      assert events[k - sent] == events[0];
      Stopped(events, n, sent);
    }
  }

  /** A write reports success exactly when every packet is acknowledged, or when the slave is busy at some
      point: then it stops there, with the rest of the file unsent. */
  lemma {:induction false} SuccessIff(events: seq<Event>, n: nat, sent: nat)
    requires sent <= n
    ensures Write(events, n, sent).1 > 0 <==> exists k: nat :: Ends(events, n, sent, k)
    decreases |events|
  {
    hide IsFoe;
    if k: nat :| Ends(events, n, sent, k) {
      StopsAt(events, n, sent, k);
    } else if events != [] && IsAck(events[0], sent) && sent < n && events[0].taken {
      var rest, next := events[1..], sent + 1;
      SuccessIff(rest, n, next);
      if k: nat :| Ends(rest, n, next, k) {
        AckedBack(events, sent, k);
        assert rest[k - next] == events[k - sent];
        assert Ends(events, n, sent, k);
      }
    } else {
      Stopped(events, n, sent);
      assert Acked(events, sent, sent);
      assert !Ends(events, n, sent, sent);
    }
  }

  /** Every packet was sent exactly when success was not reported too early. */
  lemma {:induction false} WholeIff(events: seq<Event>, n: nat, sent: nat)
    requires sent <= n
    ensures Write(events, n, sent) == (n, 1) <==> Ends(events, n, sent, n)
  {
    hide Write, Ends;
    SuccessIff(events, n, sent);
    if Ends(events, n, sent, n) {
      StopsAt(events, n, sent, n);
    } else if k: nat :| Ends(events, n, sent, k) {
      StopsAt(events, n, sent, k);
    }
  }

  /** With k packets asked for and taken, any mailbox but the acknowledgement for the next one ends the write there. */
  lemma {:induction false} RefusedAt(events: seq<Event>, n: nat, sent: nat, k: nat)
    requires sent <= k <= n && Acked(events, sent, k) && k - sent < |events|
    requires k == n || !IsAck(events[k - sent], k)
    ensures var e, (packets, wkc) := events[k - sent], Write(events, n, sent);
            && packets == k
            && (e.Silent? ==> wkc == 0)
            && (e.Got? && e.m.mbxtype % 16 != 4 ==> wkc == -3)
            && (e.Got? && e.m.mbxtype % 16 == 4 ==>
                  && (e.m.opcode == 4 ==> wkc == if e.m.number == k then 1 else -7)
                  && (e.m.opcode == 5 ==> wkc == if e.m.number == 0x8001 then -10 else -5)
                  && (e.m.opcode == 6 ==> wkc == 1)
                  && (e.m.opcode !in {4, 5, 6} ==> wkc == -3))
    decreases |events|
  {
    if sent < k {
      hide IsFoe;
      assert IsAck(events[0], sent + 0) && events[0].taken;
      AckedOn(events, sent, k);
      assert events[1..][k - (sent + 1)] == events[k - sent];
      RefusedAt(events[1..], n, sent + 1, k);
    } else {
      assert events[k - sent] == events[0];
    }
  }

  lemma {:induction false} AckedBack(events: seq<Event>, sent: nat, k: nat)
    requires events != [] && IsAck(events[0], sent) && events[0].taken && Acked(events[1..], sent + 1, k)
    ensures Acked(events, sent, k)
  {
    forall i | 0 <= i < k - sent ensures IsAck(events[i], sent + i) && events[i].taken {
      if i > 0 {
        assert IsAck(events[1..][i - 1], sent + 1 + (i - 1));
      }
    }
  }

  lemma {:induction false} AckedOn(events: seq<Event>, sent: nat, k: nat)
    requires events != [] && sent < k && Acked(events, sent, k)
    ensures Acked(events[1..], sent + 1, k)
  {
    forall i | 0 <= i < k - sent - 1 ensures IsAck(events[1..][i], sent + 1 + i) && events[1..][i].taken {
      assert IsAck(events[i + 1], sent + (i + 1));
    }
  }

  lemma {:induction false} Stopped(events: seq<Event>, n: nat, sent: nat)
    requires sent <= n && !(events != [] && IsAck(events[0], sent) && sent < n && events[0].taken)
    ensures Write(events, n, sent).0 == sent
    ensures Write(events, n, sent).1 > 0 <==> events != [] && (IsBusy(events[0]) || (sent == n && IsAck(events[0], n)))
  {
    hide IsFoe;
  }

  // ----- the master -----

  /** What ecx_FOEwrite has to send: nothing at all for an empty file. */
  function ToSend(p: seq<byte>, maxdata: nat): seq<seq<byte>>
    requires maxdata > 0
  {
    if p == [] then [] else Packets(p, maxdata)
  }

  /** An empty file gives no packet at all, any other one more than it has full ones. */
  lemma {:induction false} SendCount(p: seq<byte>, maxdata: nat)
    requires maxdata > 0
    ensures |ToSend(p, maxdata)| == if p == [] then 0 else |p| / maxdata + 1
  {
    PacketCount(p, maxdata);
  }

  lemma {:induction false} FirstPackets(p: seq<byte>, maxdata: nat, k: nat)
    requires maxdata > 0 && k < |Packets(p, maxdata)|
    ensures k * maxdata <= |p| && Joined(Packets(p, maxdata)[..k]) == p[..k * maxdata]
    decreases k
  {
    var ps := Packets(p, maxdata);
    if k > 0 {
      var rest := p[maxdata..];
      FirstPackets(rest, maxdata, k - 1);
      assert k * maxdata == maxdata + (k - 1) * maxdata;
      assert ps[1..] == Packets(rest, maxdata) && ps[..k][1..] == Packets(rest, maxdata)[..k - 1];
      assert p[..k * maxdata] == p[..maxdata] + rest[..(k - 1) * maxdata];
    }
  }

  /** A slave that is busy after k packets (right after the request, say) ends the write with success; it has the file
      only when all packets were sent, or all but an empty last one. */
  lemma {:induction false} BusyEnds(events: seq<Event>, p: seq<byte>, maxdata: nat, k: nat)
    requires maxdata > 0 && p != [] && k <= |ToSend(p, maxdata)|
    requires Acked(events, 0, k) && k < |events| && IsBusy(events[k])
    ensures Write(events, |ToSend(p, maxdata)|, 0) == (k, 1)
    ensures Joined(ToSend(p, maxdata)[..k]) == p <==> k == |ToSend(p, maxdata)| || k * maxdata == |p|
  {
    hide Acked, Packets;
    var ps := ToSend(p, maxdata);
    StopsAt(events, |ps|, 0, k);
    if k == |ps| {
      assert ps[..k] == ps;
      PacketsMakeUp(p, maxdata);
    } else {
      FirstPackets(p, maxdata, k);
      assert k * maxdata == |p| ==> p[..k * maxdata] == p;
    }
  }

  /** Data packets numbered from 1 on. */
  predicate Numbered(ms: seq<Mbx>, ps: seq<seq<byte>>) {
    |ms| <= |ps| && forall k :: 0 <= k < |ms| ==> IsData(ms[k], k + 1, ps[k])
  }

  predicate IsRequest(m: Mbx, opcode: byte, filename: seq<byte>, password: nat, maxdata: nat) {
    && IsFoe(m) && m.opcode == opcode && m.number == password && m.length == 6 + |m.data|
    && m.data == if |filename| > maxdata then filename[..maxdata] else filename
  }

  /** The data of the first n packets. */
  function Payload(events: seq<Event>, n: nat): seq<byte>
    requires n <= |events| && forall k :: 0 <= k < n ==> events[k].Got?
  {
    if n == 0 then [] else Payload(events, n - 1) + SegmentData(events[n - 1].m)
  }

  /** The first n mailboxes are FoE data packets, numbered from 1 on. */
  predicate Accepted(events: seq<Event>, n: nat) {
    n <= |events| && forall k :: 0 <= k < n ==>
        events[k].Got? && events[k].m.mbxtype % 16 == 4 && events[k].m.opcode == 3 && events[k].m.number == k + 1
  }

  predicate AllAcked(events: seq<Event>, n: nat, data: seq<byte>) {
    Accepted(events, n) && (forall k :: 0 <= k < n ==> events[k].taken) && data == Payload(events, n)
  }

  /** The data is that of the first n packets, whose acknowledgements got into the slave, and of the packet
      after them if its own did not. */
  predicate AckedData(events: seq<Event>, n: nat, data: seq<byte>) {
    || AllAcked(events, n, data)
    || (Accepted(events, n + 1) && (forall k :: 0 <= k < n ==> events[k].taken) && !events[n].taken &&
        data == Payload(events, n + 1))
  }

  /** The acknowledgement of packet k. */
  predicate IsAckOf(m: Mbx, k: nat) {
    m.mbxtype % 16 == 4 && m.opcode == 4 && m.number == k && m.length == 6 && m.data == []
  }

  lemma {:induction false} AckNone(events: seq<Event>)
    ensures AllAcked(events, 0, [])
  {
  }

  lemma {:induction false} AckStep(events: seq<Event>, k: nat, data: seq<byte>, m: Mbx)
    requires k < |events| && AllAcked(events, k, data)
    requires events[k].Got? && IsFoe(events[k].m) && events[k].m.opcode == ECT_FOE_DATA && events[k].m.number == k + 1
    requires IsFoe(m) && m.opcode == ECT_FOE_ACK && m.number == k + 1 && m.length == 6 && m.data == []
    ensures Accepted(events, k + 1) && Payload(events, k + 1) == data + SegmentData(events[k].m) && IsAckOf(m, k + 1)
    ensures events[k].taken ==> AllAcked(events, k + 1, data + SegmentData(events[k].m))
    ensures !events[k].taken ==> AckedData(events, k, data + SegmentData(events[k].m))
  {
    hide SegmentData;
  }

  class Master {
    const mbx_l: nat
    var mbx_cnt: nat
    var outbox: seq<Mbx>

    constructor (mbx_l: nat)
      requires 12 < mbx_l <= 1486
      ensures Valid() && this.mbx_l == mbx_l && outbox == []
    {
      this.mbx_l, mbx_cnt, outbox := mbx_l, 0, [];
    }

    ghost predicate Valid()
      reads this
    {
      mbx_cnt < 8 && 12 < mbx_l <= 1486
    }

    method NewMbx(opcode: byte, number: nat, data: seq<byte>) returns (m: Mbx)
      requires Valid() && |data| <= 1486
      modifies this`mbx_cnt
      ensures Valid() && IsFoe(m) && m.opcode == opcode && m.number == number && m.data == data &&
              m.length == 6 + |data|
    {
      mbx_cnt := NextCnt(mbx_cnt);
      m := Mbx(6 + |data|, ECT_MBXT_FOE + 0x10 * mbx_cnt, opcode, number, data);
    }

    method Request(opcode: byte, filename: seq<byte>, password: nat) returns (m: Mbx)
      requires Valid()
      modifies this`mbx_cnt
      ensures Valid() && IsRequest(m, opcode, filename, password, mbx_l - 12) && m.data <= filename
    {
      hide IsFoe;
      var fnsize := |filename|;
      if fnsize > mbx_l - 12 {
        fnsize := mbx_l - 12;
      }
      m := NewMbx(opcode, password, filename[..fnsize]);
    }

    /** ecx_FOEwrite, once the request is in the slave. */
    method FOEwrite(filename: seq<byte>, password: nat, p: seq<byte>, events: seq<Event>)
      returns (wkc: int, ghost ms: seq<Mbx>)
      requires Valid()
      modifies this
      ensures Valid() && outbox == old(outbox) + ms && ms != [] &&
              IsRequest(ms[0], 2, filename, password, mbx_l - 12) && ms[0].data <= filename
      ensures Numbered(ms[1..], ToSend(p, mbx_l - 12))
      ensures Write(events, if p == [] then 0 else |p| / (mbx_l - 12) + 1, 0) == (|ms| - 1, wkc)
    {
      hide IsFoe, Packets, Write;
      var maxdata := mbx_l - 12;
      SendCount(p, maxdata);
      var request := Request(ECT_FOE_WRITE, filename, password);
      outbox := outbox + [request];
      ms := [request];
      ghost var sent: seq<Mbx> := [];
      ghost var ps := ToSend(p, maxdata);
      var at: nat, psize: nat, sendpacket: nat, segmentdata: nat := 0, |p|, 0, 0;
      var dofinalzero, worktodo, k := false, true, 0;
      wkc := 1;
      ghost var n := 0;
      assert p[0..] == p && ps[0..] == ps && events[0..] == events;
      while worktodo
        invariant Valid() && k <= |events| && outbox == old(outbox) + [request] + sent && Numbered(sent, ps)
        invariant worktodo ==> at + psize == |p| && sendpacket == |sent| && k == |sent|
        invariant worktodo ==> ps[|sent|..] == Remaining(p[at..], maxdata, dofinalzero)
        invariant worktodo ==> Write(events, |ps|, 0) == Write(events[k..], |ps|, |sent|)
        invariant !worktodo ==> Write(events, |ps|, 0) == (|sent|, wkc)
        decreases worktodo, |events| - k
      {
        WriteStep(events, k, |ps|, |sent|);
        worktodo := false;
        if k == |events| || events[k].Silent? {
          wkc := 0;
        } else {
          var m := events[k].m;
          if !IsFoe(m) {
            wkc := PACKET_ERROR;
          } else if m.opcode == ECT_FOE_ACK {
            if m.number == sendpacket {
              wkc := 1;
              var tsize := if psize > maxdata then maxdata else psize;
              if tsize > 0 || dofinalzero {
                ghost var final := dofinalzero;
                dofinalzero := false;
                segmentdata := tsize;
                psize := psize - segmentdata;
                // EOF is a packet that is not full: after a full last one comes an empty one
                if psize == 0 && segmentdata == maxdata {
                  dofinalzero := true;
                }
                var data := NewMbx(ECT_FOE_DATA, sendpacket + 1, p[at..at + segmentdata]);
                NextPacket(p, at, maxdata, segmentdata, final, dofinalzero);
                if events[k].taken {
                  worktodo := true;
                  outbox := outbox + [data];
                  sendpacket := sendpacket + 1;
                  OneSent(sent, ps, data);
                  sent := sent + [data];
                  at := at + segmentdata;
                } else {
                  wkc := 0;
                }
              }
            } else {
              wkc := FOE_PACKETNUMBER;
            }
          } else if m.opcode == ECT_FOE_BUSY {
            wkc := 1;
            if sendpacket > 0 { // resend: has no effect any more, the loop ends here
              if psize == 0 {
                dofinalzero := true;
              }
              psize := psize + segmentdata;
              sendpacket := sendpacket - 1;
            }
          } else if m.opcode == ECT_FOE_ERROR {
            wkc := if m.number == 0x8001 then FOE_FILE_NOTFOUND else FOE_ERROR;
          } else {
            wkc := PACKET_ERROR;
          }
          k := k + 1;
        }
      }
      ms := [request] + sent;
      assert ms[1..] == sent;
      assert old(outbox) + ms == old(outbox) + [request] + sent;
    }

    /** ecx_FOEread, once the request is in the slave: the packets are acknowledged one by one. */
    method FOEread(filename: seq<byte>, password: nat, room: nat, events: seq<Event>)
      returns (wkc: int, data: seq<byte>, ghost acks: seq<Mbx>)
      requires Valid()
      modifies this
      ensures Valid() && Read(events, mbx_l - 12, room, 0, []) == Reading(wkc, data)
      ensures acks != [] && IsRequest(acks[0], 1, filename, password, mbx_l - 12) && acks[0].data <= filename
      ensures forall k :: 0 < k < |acks| ==> IsAckOf(acks[k], k)
      ensures outbox == old(outbox) + acks && AckedData(events, |acks| - 1, data)
    {
      hide IsFoe, Read, SegmentData, Payload, Accepted, IsAckOf;
      var maxdata := mbx_l - 12;
      AckNone(events);
      var m := Request(ECT_FOE_READ, filename, password);
      outbox := outbox + [m];
      acks := [m];
      data := [];
      var prevpacket, worktodo, k := 0, true, 0;
      wkc := 1;
      assert events[0..] == events;
      while worktodo
        invariant Valid() && k <= |events| && outbox == old(outbox) + acks
        invariant acks != [] && IsRequest(acks[0], ECT_FOE_READ, filename, password, maxdata)
        invariant acks[0].data <= filename
        invariant forall i :: 0 < i < |acks| ==> IsAckOf(acks[i], i)
        invariant worktodo ==> |acks| == prevpacket + 1 && k == prevpacket && AllAcked(events, k, data)
        invariant AckedData(events, |acks| - 1, data)
        invariant worktodo ==>
                    Read(events, maxdata, room, 0, []) == Read(events[k..], maxdata, room, prevpacket, data)
        invariant !worktodo ==> Read(events, maxdata, room, 0, []) == Reading(wkc, data)
        decreases worktodo, |events| - k
      {
        ReadStep(events, k, maxdata, room, prevpacket, data);
        worktodo := false;
        if k == |events| || events[k].Silent? {
          wkc := 0;
        } else {
          var a := events[k].m;
          if !IsFoe(a) {
            wkc := PACKET_ERROR;
          } else if a.opcode == ECT_FOE_DATA {
            prevpacket := prevpacket + 1;
            var segment := SegmentData(a);
            if a.number == prevpacket && |data| + |segment| <= room {
              ghost var before := data;
              data := data + segment;
              if |segment| == maxdata {
                worktodo := true;
              }
              m := NewMbx(ECT_FOE_ACK, a.number, []);
              AckStep(events, k, before, m);
              wkc := 1;
              if events[k].taken {
                assert old(outbox) + (acks + [m]) == outbox + [m];
                outbox := outbox + [m];
                acks := acks + [m];
              } else {
                wkc := 0;
                worktodo := false;
              }
            } else {
              wkc := FOE_BUF2SMALL;
            }
          } else if a.opcode == ECT_FOE_ERROR {
            wkc := FOE_ERROR;
          } else {
            wkc := PACKET_ERROR;
          }
          k := k + 1;
        }
      }
    }
  }

  lemma {:induction false} ReadStep(events: seq<Event>, k: nat, maxdata: nat, room: nat, last: nat, data: seq<byte>)
    requires k <= |events|
    ensures Read(events[k..], maxdata, room, last, data) ==
            if k == |events| || events[k].Silent? then Reading(0, data)
            else
              var m := events[k].m;
              if !IsFoe(m) then Reading(PACKET_ERROR, data)
              else if m.opcode == ECT_FOE_ERROR then Reading(FOE_ERROR, data)
              else if m.opcode != ECT_FOE_DATA then Reading(PACKET_ERROR, data)
              else if m.number == last + 1 && |data| + |SegmentData(m)| <= room then
                var read := data + SegmentData(m);
                if !events[k].taken then Reading(0, read)
                else if |SegmentData(m)| == maxdata then Read(events[k + 1..], maxdata, room, last + 1, read)
                else Reading(1, read)
              else Reading(FOE_BUF2SMALL, data)
  {
    hide IsFoe, SegmentData;
    if k < |events| {
      assert events[k..][0] == events[k] && events[k..][1..] == events[k + 1..];
    }
  }

  /** Full packets lead on to the next one. */
  lemma {:induction false} ReadsOn(events: seq<Event>, n: nat, maxdata: nat, room: nat, data: seq<byte>)
    requires AllAcked(events, n, data) && |data| <= room
    requires forall k :: 0 <= k < n ==> |SegmentData(events[k].m)| == maxdata
    ensures Read(events, maxdata, room, 0, []) == Read(events[n..], maxdata, room, n, data)
    decreases n
  {
    hide Read, SegmentData;
    if n == 0 {
      assert events[0..] == events;
    } else {
      var before := Payload(events, n - 1);
      ReadsOn(events, n - 1, maxdata, room, before);
      ReadStep(events, n - 1, maxdata, room, n - 1, before);
    }
  }

  /** How a read ends after n full packets: what follows them is not there, not the next packet, too much, or
      the last packet. */
  lemma {:induction false} ReadEnds(events: seq<Event>, n: nat, maxdata: nat, room: nat, data: seq<byte>)
    requires AllAcked(events, n, data) && |data| <= room && n < |events|
    requires forall k :: 0 <= k < n ==> |SegmentData(events[k].m)| == maxdata
    ensures var e, r := events[n], Read(events, maxdata, room, 0, []);
            && (e.Silent? ==> r == Reading(0, data))
            && (e.Got? && e.m.mbxtype % 16 != 4 ==> r == Reading(-3, data))
            && (e.Got? && e.m.mbxtype % 16 == 4 && e.m.opcode == 5 ==> r == Reading(-5, data))
            && (e.Got? && e.m.mbxtype % 16 == 4 && e.m.opcode != 5 && e.m.opcode != 3 ==> r == Reading(-3, data))
            && (e.Got? && e.m.mbxtype % 16 == 4 && e.m.opcode == 3 ==>
                  var d := SegmentData(e.m);
                  && (e.m.number != n + 1 || |data| + |d| > room ==> r == Reading(-6, data))
                  && (e.m.number == n + 1 && |data| + |d| <= room && e.taken && |d| != maxdata ==>
                        r == Reading(1, data + d)))
  {
    hide Read, SegmentData, AllAcked;
    ReadsOn(events, n, maxdata, room, data);
    ReadStep(events, n, maxdata, room, n, data);
  }

  /** What a write sends, a read takes: the packets of a file that is not empty, in order, give the file. */
  lemma {:induction false} RoundTripIff(ms: seq<Mbx>, events: seq<Event>, p: seq<byte>, maxdata: nat, room: nat)
    requires maxdata > 0 && p != [] && Numbered(ms, ToSend(p, maxdata)) && |ms| == |ToSend(p, maxdata)| <= |events|
    requires forall k :: 0 <= k < |ms| ==> events[k] == Got(ms[k], true)
    ensures |ms| == |p| / maxdata + 1
    ensures Read(events, maxdata, room, 0, []) == Reading(1, p) <==> |p| <= room
  {
    hide IsData, Packets, Read;
    PacketCount(p, maxdata);
    var ps := Packets(p, maxdata);
    assert Brings(events, ps, 0) by {
      forall k | 0 <= k < |ps| ensures events[k].Got? && events[k].taken && IsData(events[k].m, 0 + 1 + k, ps[k]) {
        assert events[k] == Got(ms[k], true);
      }
    }
    ReadBackIff(events, p, maxdata, room, 0, []);
    assert [] + p == p;
  }

  /** The packets still to be sent. */
  function Remaining(rest: seq<byte>, maxdata: nat, dofinalzero: bool): seq<seq<byte>>
    requires maxdata > 0
  {
    if rest != [] || dofinalzero then Packets(rest, maxdata) else []
  }

  lemma {:induction false} NextPacket(p: seq<byte>, at: nat, maxdata: nat, n: nat, final: bool, final': bool)
    requires maxdata > 0 && at <= |p| && n == (if |p| - at > maxdata then maxdata else |p| - at) && (n > 0 || final)
    requires final' <==> at + n == |p| && n == maxdata
    ensures var ps := Remaining(p[at..], maxdata, final);
            ps != [] && ps[0] == p[at..at + n] && ps[1..] == Remaining(p[at + n..], maxdata, final')
  {
    var rest := p[at..];
    if |rest| >= maxdata {
      assert rest[maxdata..] == p[at + n..];
    }
  }

  lemma {:induction false} OneSent(sent: seq<Mbx>, ps: seq<seq<byte>>, m: Mbx)
    requires Numbered(sent, ps) && |sent| < |ps| && IsData(m, |sent| + 1, ps[|sent|])
    ensures Numbered(sent + [m], ps) && ps[|sent|..][1..] == ps[|sent| + 1..] && ps[|sent|..][0] == ps[|sent|]
  {
    hide IsData;
  }

  lemma {:induction false} WriteStep(events: seq<Event>, k: nat, n: nat, sent: nat)
    requires k <= |events| && sent <= n
    ensures k < |events| ==> events[k..][0] == events[k] && events[k..][1..] == events[k + 1..]
    ensures Write(events[k..], n, sent) ==
            if k == |events| || events[k].Silent? then (sent, 0)
            else if !IsFoe(events[k].m) then (sent, PACKET_ERROR)
            else if events[k].m.opcode == ECT_FOE_ACK then
              if events[k].m.number != sent then (sent, FOE_PACKETNUMBER)
              else if sent == n then (sent, 1)
              else if events[k].taken then Write(events[k + 1..], n, sent + 1) else (sent, 0)
            else if events[k].m.opcode == ECT_FOE_BUSY then (sent, 1)
            else if events[k].m.opcode == ECT_FOE_ERROR
              then (sent, if events[k].m.number == 0x8001 then FOE_FILE_NOTFOUND else FOE_ERROR)
            else (sent, PACKET_ERROR)
  {
    hide IsFoe;
  }
}
