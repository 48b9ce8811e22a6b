/** nicdrv.c: sending and receiving with a redundant cable. */
module Redundancy {
  import opened Bytes
  import opened Datagram
  import opened FrameIndex
  import opened Ring

  const NOFRAME := -1
  const OTHERFRAME := -2
  const RX_PRIM: uint16 := 0x0101
  const RX_SEC: uint16 := 0x0404

  /** A received frame: MAC source word 1, whether it is an EtherCAT frame, what follows the header. */
  datatype Packet = Packet(sa: uint16, ecat: bool, payload: seq<byte>)

  /** One network interface: the frames waiting in its socket, the temporary buffer behind the Ethernet
      header, and per index the buffer state, the buffer and the source of the frame in it. */
  datatype View = View(socket: seq<Packet>, temp: seq<byte>, stat: seq<BufState>, rxbuf: seq<seq<byte>>,
                       rxsa: seq<uint16>)
  {
    predicate Valid() {
      && |stat| == |rxbuf| == |rxsa| == EC_MAXBUF && |temp| == EC_BUFSIZE
      && (forall i :: 0 <= i < EC_MAXBUF ==> |rxbuf[i]| == EC_BUFSIZE)
      && (forall i :: 0 <= i < EC_MAXBUF && stat[i].Rcvd? ==> Elength(rxbuf[i]) + 2 <= EC_BUFSIZE)
      && (forall k :: 0 <= k < |socket| ==> Takeable(socket[k]))
    }
  }

  /** Whatever is on the wire; only a length field in a frame with an index is followed, and must not lead out
      of the buffers.  (The Ethernet payload has at least 46 bytes.) */
  predicate Takeable(p: Packet) {
    && |p.payload| <= EC_BUFSIZE
    && (p.ecat ==> |p.payload| >= 4 && (p.payload[3] < EC_MAXBUF ==> Elength(p.payload) + 2 <= EC_BUFSIZE))
  }

  /** The length field, which is also where the last working counter is. */
  function Elength(rx: seq<byte>): nat
    requires |rx| >= 2
  {
    WordAt(rx, 0) % 0x1000
  }

  /** A frame that ends where its length field says, or later. */
  predicate Framed(p: seq<byte>) {
    4 <= |p| <= EC_BUFSIZE && Elength(p) + 2 <= |p|
  }

  /** memcpy of n bytes to the beginning. */
  function Over(dst: seq<byte>, src: seq<byte>, n: nat): (r: seq<byte>)
    requires n <= |src| && n <= |dst|
    ensures |r| == |dst| && r[..n] == src[..n]
  {
    src[..n] + dst[n..]
  }

  function WkcAt(rx: seq<byte>, l: nat): uint16
    requires l + 2 <= |rx|
  {
    WordAt(rx, l)
  }

  predicate Lengths(lens: seq<nat>) {
    |lens| == EC_MAXBUF && forall i :: 0 <= i < EC_MAXBUF ==> 4 <= lens[i] <= EC_BUFSIZE
  }

  /** ecx_inframe as a function of the interface's state. */
  function Poll(v: View, idx: nat, lens: seq<nat>): (r: (View, int))
    requires v.Valid() && idx < EC_MAXBUF && Lengths(lens)
    ensures |r.0.stat| == |r.0.rxbuf| == |r.0.rxsa| == EC_MAXBUF
  {
    if v.stat[idx].Rcvd? then
      (v.(stat := v.stat[idx := Complete]), WkcAt(v.rxbuf[idx], Elength(v.rxbuf[idx])))
    else if v.socket == [] then (v, NOFRAME)
    else
      var p := v.socket[0];
      var temp := Over(v.temp, p.payload, |p.payload|);
      var v := v.(socket := v.socket[1..], temp := temp);
      if !p.ecat then (v, OTHERFRAME)
      else
        var idxf := temp[3];
        if idxf == idx then
          var rx := Over(v.rxbuf[idx], temp, lens[idx]);
          (v.(rxbuf := v.rxbuf[idx := rx], stat := v.stat[idx := Complete], rxsa := v.rxsa[idx := p.sa]),
           WkcAt(rx, Elength(temp)))
        else if idxf < EC_MAXBUF && v.stat[idxf].Tx? then
          (v.(rxbuf := v.rxbuf[idxf := Over(v.rxbuf[idxf], temp, lens[idxf])], stat := v.stat[idxf := Rcvd],
              rxsa := v.rxsa[idxf := p.sa]), OTHERFRAME)
        else (v, OTHERFRAME)
  }

  lemma {:induction false} PollValid(v: View, idx: nat, lens: seq<nat>)
    requires v.Valid() && idx < EC_MAXBUF && Lengths(lens)
    ensures Poll(v, idx, lens).0.Valid()
  {
  }

  /** n polls, as long as the frame was not found. */
  function Polled(v: View, idx: nat, lens: seq<nat>, n: nat): (r: (View, int))
    requires v.Valid() && idx < EC_MAXBUF && Lengths(lens)
    ensures r.0.Valid()
  {
    if n == 0 then (v, NOFRAME)
    else
      var before := Polled(v, idx, lens, n - 1);
      PollValid(before.0, idx, lens);
      if before.1 > NOFRAME then before else Poll(before.0, idx, lens)
  }

  // ----- when a frame is found -----

  predicate Ours(p: Packet, idx: nat) { p.ecat && |p.payload| >= 4 && p.payload[3] == idx }

  /** Frames of other indices only. */
  predicate Others(socket: seq<Packet>, idx: nat) {
    forall k :: 0 <= k < |socket| ==> !Ours(socket[k], idx)
  }

  /** At most n bytes of the frame are in the buffer, and its working counter is known if it is among them. */
  predicate Taken(rx: seq<byte>, p: seq<byte>, n: nat, wkc: int) {
    var m := if |p| <= n then |p| else n;
    m <= |rx| && rx[..m] == p[..m] && (Framed(p) && Elength(p) + 2 <= m ==> wkc == ReadWkc(p))
  }

  /** The frame is in the buffer of its index, with its source and its working counter. */
  predicate Found(v: View, idx: nat, lens: seq<nat>, p: Packet, wkc: int)
    requires v.Valid() && idx < EC_MAXBUF && Lengths(lens)
  {
    && wkc > NOFRAME && v.rxsa[idx] == p.sa && Others(v.socket, idx)
    && Taken(v.rxbuf[idx], p.payload, lens[idx], wkc)
  }

  /** The frame waits in the socket, behind q others; or someone else has put it into its buffer. */
  predicate Coming(v: View, idx: nat, lens: seq<nat>, p: Packet, q: nat)
    requires v.Valid() && idx < EC_MAXBUF && Lengths(lens)
  {
    if v.stat[idx].Rcvd? then Found(v, idx, lens, p, WkcAt(v.rxbuf[idx], Elength(v.rxbuf[idx])))
    else
      && q < |v.socket| && v.socket[q] == p && Ours(p, idx)
      && Others(v.socket[..q], idx) && Others(v.socket[q + 1..], idx)
  }

  /** Nothing will come. */
  predicate Silent(v: View, idx: nat)
    requires v.Valid() && idx < EC_MAXBUF
  {
    !v.stat[idx].Rcvd? && Others(v.socket, idx)
  }

  lemma {:induction false} PollOther(v: View, idx: nat, lens: seq<nat>)
    requires v.Valid() && idx < EC_MAXBUF && Lengths(lens) && !v.stat[idx].Rcvd?
    requires v.socket != [] ==> !Ours(v.socket[0], idx)
    ensures var r := Poll(v, idx, lens);
            r.1 <= NOFRAME && r.0.stat[idx] == v.stat[idx] && r.0.socket == if v.socket == [] then [] else v.socket[1..]
  {
  }

  /** A frame goes through the temporary buffer into the buffer of its index. */
  lemma {:induction false} TakesFrame(rxbuf: seq<byte>, temp: seq<byte>, p: seq<byte>, n: nat)
    requires |rxbuf| == |temp| == EC_BUFSIZE && 4 <= |p| <= EC_BUFSIZE && Elength(p) + 2 <= EC_BUFSIZE
    requires 4 <= n <= EC_BUFSIZE
    ensures var temp' := Over(temp, p, |p|);
            var rx := Over(rxbuf, temp', n);
            && temp'[3] == p[3] && Elength(temp') == Elength(p)
            && WkcAt(rx, Elength(temp')) > NOFRAME && Taken(rx, p, n, WkcAt(rx, Elength(temp')))
  {
    var temp' := Over(temp, p, |p|);
    var rx, m, l := Over(rxbuf, temp', n), if |p| <= n then |p| else n, Elength(p);
    assert temp'[..|p|] == p && temp'[0] == p[0] && temp'[1] == p[1] && temp'[3] == p[3];
    assert rx[..m] == rx[..n][..m] == temp'[..m] == temp'[..|p|][..m] == p[..m];
    if l + 2 <= m {
      assert rx[l] == rx[..m][l] == p[l] && rx[l + 1] == rx[..m][l + 1] == p[l + 1];
    }
  }

  lemma {:induction false} PollOurs(v: View, idx: nat, lens: seq<nat>)
    requires v.Valid() && idx < EC_MAXBUF && Lengths(lens) && !v.stat[idx].Rcvd?
    requires v.socket != [] && Ours(v.socket[0], idx) && Others(v.socket[1..], idx)
    ensures var r := Poll(v, idx, lens);
            r.0.Valid() && Found(r.0, idx, lens, v.socket[0], r.1) && r.0.stat[idx].Complete?
  {
    hide Taken, Over, Elength, WkcAt, Others;
    PollValid(v, idx, lens);
    TakesFrame(v.rxbuf[idx], v.temp, v.socket[0].payload, lens[idx]);
  }

  /** While only other frames come, every poll takes one of them. */
  lemma {:induction false} Waiting(v: View, idx: nat, lens: seq<nat>, n: nat)
    requires v.Valid() && idx < EC_MAXBUF && Lengths(lens) && !v.stat[idx].Rcvd?
    requires forall k :: 0 <= k < n && k < |v.socket| ==> !Ours(v.socket[k], idx)
    ensures var r := Polled(v, idx, lens, n);
            && r.1 <= NOFRAME && r.0.stat[idx] == v.stat[idx]
            && r.0.socket == if n <= |v.socket| then v.socket[n..] else []
  {
    if n > 0 {
      Waiting(v, idx, lens, n - 1);
      PollOther(Polled(v, idx, lens, n - 1).0, idx, lens);
    }
  }

  lemma {:induction false} PollStored(v: View, idx: nat, lens: seq<nat>, p: Packet)
    requires v.Valid() && idx < EC_MAXBUF && Lengths(lens) && v.stat[idx].Rcvd? && Coming(v, idx, lens, p, 0)
    ensures var r := Poll(v, idx, lens); r.0.Valid() && Found(r.0, idx, lens, p, r.1) && r.0.stat[idx].Complete?
  {
    PollValid(v, idx, lens);
  }

  /** A frame that comes is found. */
  lemma {:induction false} Arrives(v: View, idx: nat, lens: seq<nat>, p: Packet, q: nat, n: nat)
    requires v.Valid() && idx < EC_MAXBUF && Lengths(lens) && Coming(v, idx, lens, p, q) && n > q
    ensures var r := Polled(v, idx, lens, n); Found(r.0, idx, lens, p, r.1) && r.0.stat[idx].Complete?
    decreases n
  {
    hide Poll, Found, Others, Ours, Elength, WkcAt;
    if v.stat[idx].Rcvd? {
      PollStored(v, idx, lens, p);
      FoundWkc(Poll(v, idx, lens).0, idx, lens, p, Poll(v, idx, lens).1);
      assert Polled(v, idx, lens, 0) == (v, NOFRAME);
      Stays(v, idx, lens, 1, n);
    } else {
      assert forall k :: 0 <= k < q ==> v.socket[k] == v.socket[..q][k];
      OthersAt(v.socket[..q], idx);
      Waiting(v, idx, lens, q);
      var r := Polled(v, idx, lens, q);
      assert r.0.socket[0] == p && r.0.socket[1..] == v.socket[q + 1..];
      PollOurs(r.0, idx, lens);
      FoundWkc(Poll(r.0, idx, lens).0, idx, lens, p, Poll(r.0, idx, lens).1);
      Stays(v, idx, lens, q + 1, n);
    }
  }

  lemma {:induction false} OthersAt(socket: seq<Packet>, idx: nat)
    requires Others(socket, idx)
    ensures forall k :: 0 <= k < |socket| ==> !Ours(socket[k], idx)
  {
  }

  lemma {:induction false} FoundWkc(v: View, idx: nat, lens: seq<nat>, p: Packet, wkc: int)
    requires v.Valid() && idx < EC_MAXBUF && Lengths(lens) && Found(v, idx, lens, p, wkc)
    ensures wkc > NOFRAME
  {
  }

  lemma {:induction false} Stays(v: View, idx: nat, lens: seq<nat>, m: nat, n: nat)
    requires v.Valid() && idx < EC_MAXBUF && Lengths(lens) && m <= n
    requires Polled(v, idx, lens, m).1 > NOFRAME
    ensures Polled(v, idx, lens, n) == Polled(v, idx, lens, m)
  {
    hide Poll;
    if m < n {
      Stays(v, idx, lens, m, n - 1);
    }
  }

  // ----- frames of other indices -----

  /** The first frame in the socket has index j. */
  predicate FirstHas(v: View, j: nat) { v.socket != [] && Ours(v.socket[0], j) }

  /** A poll for one index leaves the buffers of all others alone, but that it stores the frame of an index someone
      waits for. */
  lemma {:induction false} OtherBuffers(v: View, idx: nat, lens: seq<nat>, j: nat)
    requires v.Valid() && idx < EC_MAXBUF && Lengths(lens) && j < EC_MAXBUF && j != idx
    ensures var v' := Poll(v, idx, lens).0;
            if !v.stat[idx].Rcvd? && FirstHas(v, j) && v.stat[j].Tx?
            then v'.stat[j].Rcvd? && v'.rxsa[j] == v.socket[0].sa &&
                 v'.rxbuf[j] == Over(v.rxbuf[j], Over(v.temp, v.socket[0].payload, |v.socket[0].payload|), lens[j])
            else v'.stat[j] == v.stat[j] && v'.rxsa[j] == v.rxsa[j] && v'.rxbuf[j] == v.rxbuf[j]
    ensures Poll(v, idx, lens).0.socket ==
            if v.stat[idx].Rcvd? || v.socket == [] then v.socket else v.socket[1..]
  {
    if v.socket != [] {
      var p := v.socket[0].payload;
      assert Over(v.temp, p, |p|)[..|p|] == p;
      assert |p| >= 4 ==> Over(v.temp, p, |p|)[3] == p[3];
    }
  }

  /** Someone waits for a frame of index j, and it comes, or has come. */
  predicate Awaits(v: View, j: nat, lens: seq<nat>, p: Packet, q: nat)
    requires v.Valid() && j < EC_MAXBUF && Lengths(lens)
  {
    (v.stat[j].Tx? || v.stat[j].Rcvd?) && Coming(v, j, lens, p, q)
  }

  lemma {:induction false} OthersRest(socket: seq<Packet>, j: nat)
    requires Others(socket, j) && socket != []
    ensures Others(socket[1..], j)
  {
  }

  /** The frame one waits for does not get lost when another index is polled for. */
  lemma {:induction false} OtherKept(v: View, idx: nat, lens: seq<nat>, j: nat, p: Packet, q: nat)
    requires v.Valid() && idx < EC_MAXBUF && Lengths(lens) && j < EC_MAXBUF && j != idx && Awaits(v, j, lens, p, q)
    ensures Poll(v, idx, lens).0.Valid()
    ensures exists q': nat :: q' <= q && Awaits(Poll(v, idx, lens).0, j, lens, p, q')
  {
    hide Poll, Over, Elength, WkcAt, Taken;
    var v' := Poll(v, idx, lens).0;
    PollValid(v, idx, lens);
    OtherBuffers(v, idx, lens, j);
    if v.stat[j].Rcvd? {
      if v'.socket != v.socket {
        OthersRest(v.socket, j);
      }
      assert Awaits(v', j, lens, p, q);
    } else if v'.socket == v.socket {
      assert Awaits(v', j, lens, p, q);
    } else if q == 0 {
      TakesFrame(v.rxbuf[j], v.temp, p.payload, lens[j]);
      OverWords(v.rxbuf[j], Over(v.temp, p.payload, |p.payload|), lens[j]);
      assert v.socket[1..] == v'.socket;
      assert Awaits(v', j, lens, p, 0);
    } else {
      assert v'.socket[..q - 1] == v.socket[..q][1..] && v'.socket[q..] == v.socket[q + 1..];
      OthersRest(v.socket[..q], j);
      assert Awaits(v', j, lens, p, q - 1);
    }
  }

  lemma {:induction false} OverWords(rxbuf: seq<byte>, temp: seq<byte>, n: nat)
    requires |rxbuf| == |temp| == EC_BUFSIZE && 4 <= n <= EC_BUFSIZE
    ensures Elength(Over(rxbuf, temp, n)) == Elength(temp)
  {
    var rx := Over(rxbuf, temp, n);
    assert rx[0] == rx[..n][0] == temp[..n][0] && rx[1] == rx[..n][1] == temp[..n][1];
  }

  lemma {:induction false} OtherKeptOn(v: View, idx: nat, lens: seq<nat>, j: nat, p: Packet, q: nat, n: nat)
    requires v.Valid() && idx < EC_MAXBUF && Lengths(lens) && j < EC_MAXBUF && j != idx && Awaits(v, j, lens, p, q)
    ensures exists q': nat :: q' <= q && Awaits(Polled(v, idx, lens, n).0, j, lens, p, q')
  {
    hide Poll, Awaits;
    if n == 0 {
      assert Awaits(Polled(v, idx, lens, 0).0, j, lens, p, q);
    } else {
      OtherKeptOn(v, idx, lens, j, p, q, n - 1);
      var before := Polled(v, idx, lens, n - 1).0;
      var q1: nat :| q1 <= q && Awaits(before, j, lens, p, q1);
      OtherKept(before, idx, lens, j, p, q1);
      var q2: nat :| q2 <= q1 && Awaits(Poll(before, idx, lens).0, j, lens, p, q2);
      assert Awaits(Polled(v, idx, lens, n).0, j, lens, p, if Polled(v, idx, lens, n - 1).1 > NOFRAME then q1 else q2);
    }
  }

  /** Whoever has polled for another index before, and however often: a frame that comes is found. */
  lemma {:induction false} ArrivesAnyway(v: View, idx: nat, lens: seq<nat>, j: nat, p: Packet, q: nat, n: nat, m: nat)
    requires v.Valid() && idx < EC_MAXBUF && Lengths(lens) && j < EC_MAXBUF && j != idx && Awaits(v, j, lens, p, q)
    requires m > q
    ensures var r := Polled(Polled(v, idx, lens, n).0, j, lens, m); Found(r.0, j, lens, p, r.1) && r.0.stat[j].Complete?
  {
    hide Poll, Polled, Coming, Found;
    OtherKeptOn(v, idx, lens, j, p, q, n);
    var v' := Polled(v, idx, lens, n).0;
    var q': nat :| q' <= q && Awaits(v', j, lens, p, q');
    Arrives(v', j, lens, p, q', m);
  }

  // ----- what an interface receives -----

  datatype Awaited = Nothing | Frame(p: Packet)

  /** Which of the frames of one try get lost on the way: the frame, the dummy, and the frame sent again. */
  datatype Loss = Loss(first: bool, dummy: bool, again: bool)

  /** What becomes of a frame that an interface sends, when it may get lost. */
  function Out(nodes: seq<Node>, cable: Cable, side: Side, p: seq<byte>, lost: bool): Arrival
    requires cable.CutAfter? ==> cable.k <= |nodes|
  {
    if lost then Lost else Sent(nodes, cable, side, p)
  }

  /** What comes out at a side when the primary sends frame f and the secondary the dummy d. */
  function Comes(nodes: seq<Node>, cable: Cable, side: Side, f: seq<byte>, d: seq<byte>, loss: Loss): Awaited
    requires cable.CutAfter? ==> cable.k <= |nodes|
  {
    var a, b := Out(nodes, cable, Primary, f, loss.first), Out(nodes, cable, Secondary, d, loss.dummy);
    if a.At? && a.side == side then Frame(Packet(RX_PRIM, true, a.payload))
    else if b.At? && b.side == side then Frame(Packet(RX_SEC, true, b.payload))
    else Nothing
  }

  /** The frame will be found within `timeout` polls; or there is none to be found. */
  ghost predicate Ready(v: View, idx: nat, lens: seq<nat>, e: Awaited, timeout: nat)
    requires v.Valid() && idx < EC_MAXBUF && Lengths(lens)
  {
    if e.Nothing? then Silent(v, idx) else exists q: nat :: q < timeout && Coming(v, idx, lens, e.p, q)
  }

  predicate Outcome(v: View, idx: nat, lens: seq<nat>, e: Awaited, wkc: int)
    requires v.Valid() && idx < EC_MAXBUF && Lengths(lens)
  {
    if e.Nothing? then wkc <= NOFRAME && Silent(v, idx) else Found(v, idx, lens, e.p, wkc)
  }

  lemma {:induction false} PollingEnds(v: View, idx: nat, lens: seq<nat>, e: Awaited, timeout: nat, n: nat)
    requires v.Valid() && idx < EC_MAXBUF && Lengths(lens) && Ready(v, idx, lens, e, timeout)
    requires n >= timeout || Polled(v, idx, lens, n).1 > NOFRAME
    ensures Outcome(Polled(v, idx, lens, n).0, idx, lens, e, Polled(v, idx, lens, n).1)
  {
    hide Coming, Found, Ours, Polled;
    match e
    case Nothing => Waiting(v, idx, lens, n);
    case Frame(p) =>
      var q: nat :| q < timeout && Coming(v, idx, lens, p, q);
      if n > q {
        Arrives(v, idx, lens, p, q, n);
      } else {
        Arrives(v, idx, lens, p, q, q + 1);
        Stays(v, idx, lens, n, q + 1);
      }
  }

  // ----- what slaves do to frames -----

  /** A slave keeps the length of a frame, its length field and its index. */
  ghost predicate Honest(f: Node) {
    forall p :: Framed(p) ==> |f(p)| == |p| && f(p)[..4] == p[..4]
  }

  lemma {:induction false} ProcessFramed(nodes: seq<Node>, from: nat, to: nat, p: seq<byte>)
    requires from <= to <= |nodes| && Framed(p) && forall k :: 0 <= k < |nodes| ==> Honest(nodes[k])
    ensures Framed(Process(nodes, from, to, p)) && |Process(nodes, from, to, p)| == |p|
    ensures Process(nodes, from, to, p)[3] == p[3]
  {
    if from < to {
      ProcessFramed(nodes, from, to - 1, p);
      var before := Process(nodes, from, to - 1, p);
      var after := nodes[to - 1](before);
      assert Honest(nodes[to - 1]) && after[..4] == before[..4];
      assert after[0] == after[..4][0] && after[1] == after[..4][1] && after[3] == after[..4][3];
      assert before[0] == before[..4][0] && before[1] == before[..4][1] && before[3] == before[..4][3];
    }
  }
}
