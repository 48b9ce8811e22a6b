/** nicdrv.c: two network interfaces on a ring of slaves. */
module RedundantPort {
  import opened Bytes
  import opened Datagram
  import opened FrameIndex
  import opened Ring
  import opened Redundancy
  import opened CableLoss

  /** One network interface. */
  class Stack {
    var socket: seq<Packet>
    const tempbuf: array<byte>
    const rxbufstat: array<BufState>
    const rxbuf: array<seq<byte>>
    const rxsa: array<uint16>

    constructor ()
      ensures State().Valid() && socket == [] && fresh(Repr())
      ensures forall i :: 0 <= i < EC_MAXBUF ==> State().stat[i].Empty?
    {
      socket := [];
      tempbuf := new byte[EC_BUFSIZE](_ => 0);
      rxbufstat := new BufState[EC_MAXBUF](_ => Empty);
      rxbuf := new seq<byte>[EC_MAXBUF](_ => Zeros(EC_BUFSIZE));
      rxsa := new uint16[EC_MAXBUF](_ => 0);
    }

    ghost function Repr(): set<object> { {this, tempbuf, rxbufstat, rxbuf, rxsa} }

    ghost function State(): View
      reads Repr()
    {
      View(socket, tempbuf[..], rxbufstat[..], rxbuf[..], rxsa[..])
    }

    /** ecx_inframe */
    method InFrame(idx: nat, lens: seq<nat>) returns (rval: int)
      requires State().Valid() && idx < EC_MAXBUF && Lengths(lens)
      modifies Repr()
      ensures State() == Poll(old(State()), idx, lens).0 && rval == Poll(old(State()), idx, lens).1
    {
      rval := NOFRAME;
      if rxbufstat[idx].Rcvd? { // another caller took it off the wire
        var l := Elength(rxbuf[idx]);
        rval := WkcAt(rxbuf[idx], l);
        rxbufstat[idx] := Complete;
      } else if socket != [] {
        var p := socket[0];
        socket := socket[1..];
        Copy(tempbuf, 0, p.payload);
        assert tempbuf[..] == Over(old(State()).temp, p.payload, |p.payload|);
        rval := OTHERFRAME;
        if p.ecat {
          var l := Elength(tempbuf[..]);
          var idxf := tempbuf[3];
          if idxf == idx { // its own
            rxbuf[idx] := Over(rxbuf[idx], tempbuf[..], lens[idx]);
            rval := WkcAt(rxbuf[idx], l);
            rxbufstat[idx] := Complete;
            rxsa[idx] := p.sa;
          } else if idxf < EC_MAXBUF && rxbufstat[idxf].Tx? { // another caller's
            rxbuf[idxf] := Over(rxbuf[idxf], tempbuf[..], lens[idxf]);
            rxbufstat[idxf] := Rcvd;
            rxsa[idxf] := p.sa;
          }
        }
      }
    }

    method SetBufStat(idx: nat, bufstat: BufState)
      requires State().Valid() && idx < EC_MAXBUF
      modifies rxbufstat
      ensures State() == old(State()).(stat := old(State()).stat[idx := bufstat])
    {
      rxbufstat[idx] := bufstat;
    }

    /** A frame comes out of the cable. */
    method Deliver(p: Packet)
      modifies this`socket
      ensures State() == old(State()).(socket := old(State()).socket + [p])
    {
      socket := socket + [p];
    }

    /** memcpy into the receive buffer of an index. */
    method FillBuf(idx: nat, src: seq<byte>, n: nat)
      requires State().Valid() && idx < EC_MAXBUF && n <= |src| && n <= EC_BUFSIZE
      modifies rxbuf
      ensures State() == old(State()).(rxbuf := old(State()).rxbuf[idx := Over(old(State()).rxbuf[idx], src, n)])
    {
      rxbuf[idx] := Over(rxbuf[idx], src, n);
    }

    method Buf(idx: nat) returns (b: seq<byte>)
      requires State().Valid() && idx < EC_MAXBUF
      ensures b == State().rxbuf[idx]
    {
      b := rxbuf[idx];
    }

    method Source(idx: nat) returns (sa: uint16)
      requires State().Valid() && idx < EC_MAXBUF
      ensures sa == State().rxsa[idx]
    {
      sa := rxsa[idx];
    }
  }

  class Port {
    var redundant: bool
    const stack: Stack
    const redstack: Stack
    const txbuf: array<seq<byte>>
    const txsa: array<uint16>
    var txbuflength: seq<nat> // without the Ethernet header
    var txbuf2: seq<byte>
    const nodes: seq<Node>
    const cable: Cable

    constructor (stack: Stack, redstack: Stack, nodes: seq<Node>, cable: Cable, dummy: seq<byte>)
      requires stack.State().Valid() && redstack.State().Valid() && stack.Repr() !! redstack.Repr()
      requires cable.CutAfter? ==> cable.k <= |nodes|
      requires forall k :: 0 <= k < |nodes| ==> Honest(nodes[k])
      ensures Valid() && redundant && txbuf2 == dummy && this.stack == stack && this.redstack == redstack
      ensures this.nodes == nodes && this.cable == cable
    {
      this.stack, this.redstack, this.nodes, this.cable := stack, redstack, nodes, cable;
      redundant, txbuf2 := true, dummy;
      txbuf := new seq<byte>[EC_MAXBUF](_ => Zeros(EC_BUFSIZE));
      txsa := new uint16[EC_MAXBUF](_ => RX_PRIM);
      txbuflength := seq(EC_MAXBUF, _ => EC_BUFSIZE - ETH_HEADERSIZE);
    }

    ghost predicate Valid()
      reads this, txbuf, txsa, stack.Repr(), redstack.Repr()
    {
      && stack.State().Valid() && redstack.State().Valid() && stack.Repr() !! redstack.Repr()
      && this !in stack.Repr() + redstack.Repr()
      && txbuf !in stack.Repr() + redstack.Repr() && txsa !in stack.Repr() + redstack.Repr()
      && txbuf.Length == txsa.Length == EC_MAXBUF && Lengths(txbuflength)
      && (forall i :: 0 <= i < EC_MAXBUF ==> |txbuf[i]| == EC_BUFSIZE)
      && (cable.CutAfter? ==> cable.k <= |nodes|) && (forall k :: 0 <= k < |nodes| ==> Honest(nodes[k]))
    }

    /** The frame of an index as it is sent. */
    ghost function TxFrame(idx: nat): (r: seq<byte>)
      requires txbuf.Length == EC_MAXBUF && |txbuflength| == EC_MAXBUF && idx < EC_MAXBUF
      requires |txbuf[idx]| >= txbuflength[idx]
      ensures |r| == txbuflength[idx]
      reads this, txbuf
    {
      txbuf[idx][..txbuflength[idx]]
    }

    /** A frame goes out at one side; if it is not lost, what comes out of the ring waits in a socket. */
    method Send(side: Side, sa: uint16, payload: seq<byte>, lost: bool)
      requires Valid() && Framed(payload)
      modifies stack`socket, redstack`socket
      ensures Valid()
      ensures stack.State() == Received(old(stack.State()), Primary, Out(nodes, cable, side, payload, lost), sa)
      ensures redstack.State() ==
              Received(old(redstack.State()), Secondary, Out(nodes, cable, side, payload, lost), sa)
    {
      var a := Out(nodes, cable, side, payload, lost);
      ArrivesFramed(nodes, cable, side, payload);
      if a.At? {
        if a.side.Primary? {
          stack.Deliver(Packet(sa, true, a.payload));
        } else {
          redstack.Deliver(Packet(sa, true, a.payload));
        }
      }
    }

    /** ecx_outframe */
    method OutFrame(idx: nat, side: Side, lost: bool)
      requires Valid() && idx < EC_MAXBUF && Framed(TxFrame(idx))
      modifies stack.Repr(), redstack.Repr()
      ensures Valid() && TxFrame(idx) == old(TxFrame(idx))
      ensures var a := Out(nodes, cable, side, TxFrame(idx), lost);
              && stack.State() == Received(if side.Primary? then InTx(old(stack.State()), idx)
                else old(stack.State()), Primary, a, txsa[idx])
              && redstack.State()
                == Received(if side.Secondary? then InTx(old(redstack.State()), idx)
                  else old(redstack.State()), Secondary, a, txsa[idx])
    {
      hide Stack.State, Out, Received;
      if side.Primary? {
        stack.SetBufStat(idx, Tx);
      } else {
        redstack.SetBufStat(idx, Tx);
      }
      Send(side, txsa[idx], txbuf[idx][..txbuflength[idx]], lost);
    }

    /** The part of ecx_outframe_red that sends the dummy frame. */
    method SendDummy(idx: nat, lost: bool)
      requires Valid() && idx < EC_MAXBUF && Framed(txbuf2)
      modifies this`txbuf2, stack.Repr(), redstack.Repr()
      ensures Valid() && TxFrame(idx) == old(TxFrame(idx)) && txbuf2 == old(txbuf2)[3 := idx] && Framed(txbuf2)
      ensures var b := Out(nodes, cable, Secondary, txbuf2, lost);
              && stack.State() == Received(old(stack.State()), Primary, b, RX_SEC)
              && redstack.State() == Received(InTx(old(redstack.State()), idx), Secondary, b, RX_SEC)
    {
      hide Stack.State, Out, Received;
      DummyFramed(txbuf2, idx);
      txbuf2 := txbuf2[3 := idx]; // the index of the dummy frame
      redstack.SetBufStat(idx, Tx);
      Send(Secondary, RX_SEC, txbuf2, lost);
    }

    /** ecx_outframe_red */
    method OutFrameRed(idx: nat, loss: Loss)
      requires Valid() && idx < EC_MAXBUF && Framed(TxFrame(idx)) && TxFrame(idx)[3] == idx && Framed(txbuf2)
      requires Others(stack.State().socket, idx) && Others(redstack.State().socket, idx)
      modifies this`txbuf2, txsa, stack.Repr(), redstack.Repr()
      ensures Valid() && TxFrame(idx) == old(TxFrame(idx)) && txsa[idx] == RX_PRIM
      ensures redundant ==>
                && txbuf2 == old(txbuf2)[3 := idx] && Framed(txbuf2)
                && Sending(stack.State(), idx, txbuflength, Comes(nodes, cable, Primary, TxFrame(idx), txbuf2, loss),
                           |old(stack.State()).socket|)
                && Sending(redstack.State(), idx, txbuflength,
                           Comes(nodes, cable, Secondary, TxFrame(idx), txbuf2, loss), |old(redstack.State()).socket|)
      ensures !redundant ==>
                var p := Out(nodes, cable, Primary, TxFrame(idx), loss.first);
                stack.State() == Received(InTx(old(stack.State()), idx), Primary, p, RX_PRIM)
    {
      hide Stack.State, Out, Received, Sending, Comes;
      ghost var v1, v2, f := stack.State(), redstack.State(), TxFrame(idx);
      txsa[idx] := RX_PRIM;
      OutFrame(idx, Primary, loss.first);
      if redundant {
        SendDummy(idx, loss.dummy);
        SentReady(v1, v2, idx, txbuflength, nodes, cable, f, txbuf2, loss);
      }
    }

    /** Poll both interfaces until both have found their frame, or the time is up. */
    method PollBoth(idx: nat, timeout: nat) returns (wkc: int, wkc2: int)
      requires Valid() && idx < EC_MAXBUF && redundant
      modifies stack.Repr(), redstack.Repr()
      ensures Valid() && TxFrame(idx) == old(TxFrame(idx))
      ensures exists n: nat :: 0 < n && (n >= timeout || (wkc > NOFRAME && wkc2 > NOFRAME)) &&
                (stack.State(), wkc) == Polled(old(stack.State()), idx, txbuflength, n) &&
                (redstack.State(), wkc2) == Polled(old(redstack.State()), idx, txbuflength, n)
    {
      hide Stack.State, Poll;
      wkc, wkc2 := NOFRAME, NOFRAME;
      ghost var v1, v2 := stack.State(), redstack.State();
      var n := 0;
      while n == 0 || ((wkc <= NOFRAME || wkc2 <= NOFRAME) && n < timeout)
        invariant Valid() && n <= timeout + 1
        invariant (stack.State(), wkc) == Polled(v1, idx, txbuflength, n)
        invariant (redstack.State(), wkc2) == Polled(v2, idx, txbuflength, n)
        decreases timeout + 1 - n
      {
        PollValid(stack.State(), idx, txbuflength);
        PollValid(redstack.State(), idx, txbuflength);
        if wkc <= NOFRAME { // still missing
          wkc := stack.InFrame(idx, txbuflength);
        }
        if wkc2 <= NOFRAME {
          wkc2 := redstack.InFrame(idx, txbuflength);
        }
        n := n + 1;
      }
    }

    /** Poll the secondary interface until the frame is found, or the time is up. */
    method PollRed(idx: nat, timeout: nat) returns (wkc: int)
      requires Valid() && idx < EC_MAXBUF
      modifies redstack.Repr()
      ensures Valid() && TxFrame(idx) == old(TxFrame(idx))
      ensures exists n: nat ::
                && 0 < n && (n >= timeout || wkc > NOFRAME)
                && (redstack.State(), wkc) == Polled(old(redstack.State()), idx, txbuflength, n)
    {
      hide Stack.State, Poll;
      wkc := NOFRAME;
      ghost var v := redstack.State();
      var n := 0;
      while n == 0 || (wkc <= NOFRAME && n < timeout)
        invariant Valid() && n <= timeout + 1
        invariant (redstack.State(), wkc) == Polled(v, idx, txbuflength, n)
        decreases timeout + 1 - n
      {
        PollValid(redstack.State(), idx, txbuflength);
        if wkc <= NOFRAME {
          wkc := redstack.InFrame(idx, txbuflength);
        }
        n := n + 1;
      }
    }

    /** memcpy from the secondary receive buffer of an index to the primary one. */
    method SecondaryToPrimary(idx: nat)
      requires Valid() && idx < EC_MAXBUF && Elength(redstack.State().rxbuf[idx]) + 2 <= EC_BUFSIZE
      modifies stack.rxbuf
      ensures Valid() && TxFrame(idx) == old(TxFrame(idx)) && redstack.State() == old(redstack.State())
      ensures stack.State() == Filled(old(stack.State()), idx, redstack.State().rxbuf[idx], txbuflength[idx])
    {
      hide Stack.State;
      var b := redstack.Buf(idx);
      stack.FillBuf(idx, b, txbuflength[idx]);
    }

    /** memcpy from the primary receive buffer of an index to its transmit buffer. */
    method PrimaryToTx(idx: nat)
      requires Valid() && idx < EC_MAXBUF
      modifies txbuf
      ensures Valid() && TxFrame(idx) == stack.State().rxbuf[idx][..txbuflength[idx]]
      ensures stack.State() == old(stack.State()) && redstack.State() == old(redstack.State())
    {
      hide Stack.State;
      var b := stack.Buf(idx);
      txbuf[idx] := Over(txbuf[idx], b, txbuflength[idx]);
    }

    /** The MAC source words of the frames that were received, 0 for none. */
    method Sources(idx: nat, wkc: int, wkc2: int) returns (primrx: uint16, secrx: uint16)
      requires Valid() && idx < EC_MAXBUF
      ensures primrx == if wkc > NOFRAME then stack.State().rxsa[idx] else 0
      ensures secrx == if wkc2 > NOFRAME then redstack.State().rxsa[idx] else 0
    {
      primrx, secrx := 0, 0;
      if wkc > NOFRAME {
        primrx := stack.Source(idx);
      }
      if wkc2 > NOFRAME {
        secrx := redstack.Source(idx);
      }
    }

    /** Send the frame again, over the secondary interface. */
    method Resend(idx: nat, timeout: nat, ghost f: seq<byte>, lost: bool) returns (wkc2: int)
      requires Valid() && idx < EC_MAXBUF && TxFrame(idx) == f && Framed(f) && f[3] == idx
      requires cable.CutAfter? && cable.k < |nodes| && Others(redstack.State().socket, idx)
      requires timeout > |redstack.State().socket|
      modifies stack.Repr(), redstack.Repr()
      ensures Valid() && TxFrame(idx) == f && Others(redstack.State().socket, idx)
      ensures stack.State().socket == old(stack.State()).socket
      ensures |redstack.State().socket| <= |old(redstack.State()).socket|
      ensures if lost then wkc2 <= NOFRAME && stack.State() == old(stack.State())
              else Arrived(stack.State(), idx, txbuflength, Process(nodes, cable.k, |nodes|, f), wkc2)
    {
      hide Stack.State, Out, Polled, Honest, Others, Framed, Arrived;
      ghost var v1, v2, p, sa := stack.State(), redstack.State(), Process(nodes, cable.k, |nodes|, f), txsa[idx];
      ghost var e := if lost then Nothing else Frame(Packet(sa, true, p));
      OutFrame(idx, Secondary, lost);
      hide Valid, TxFrame, Received, Ready, Seen, Drained;
      ResendReady(v1, v2, idx, txbuflength, nodes, cable, f, sa, lost, timeout);
      ghost var v2' := redstack.State();
      wkc2 := PollRed(idx, timeout);
      PolledRed(v2', idx, txbuflength, e, timeout, redstack.State(), wkc2);
      DrainedAgain(v2, v2', redstack.State(), idx);
      SeenIs(redstack.State(), idx, txbuflength, e, wkc2);
      if wkc2 > NOFRAME { // the caller reads the primary buffer
        ArrivedFramed(redstack.State(), idx, txbuflength, p, wkc2);
        SecondaryToPrimary(idx);
        FilledArrived(v1, redstack.State(), idx, txbuflength, p, wkc2);
      }
    }

    /** The part of ecx_waitinframe_red that sends the frame again, as it came back if it did. */
    method SendOn(idx: nat, timeout: nat, lost: bool, back: bool, wkc: int, ghost x: seq<byte>) returns (wkc': int)
      requires Valid() && idx < EC_MAXBUF && Framed(x) && x[3] == idx && |x| == txbuflength[idx]
      requires if back then Arrived(stack.State(), idx, txbuflength, x, wkc) else TxFrame(idx) == x && wkc <= NOFRAME
      requires cable.CutAfter? && cable.k < |nodes| && Others(redstack.State().socket, idx)
      requires timeout > |redstack.State().socket|
      modifies txbuf, stack.Repr(), redstack.Repr()
      ensures Valid() && Others(redstack.State().socket, idx)
      ensures stack.State().socket == old(stack.State()).socket
      ensures |redstack.State().socket| <= |old(redstack.State()).socket|
      ensures if lost && !back then wkc' <= NOFRAME && TxFrame(idx) == x
              else Arrived(stack.State(), idx, txbuflength,
                           if lost then x else Process(nodes, cable.k, |nodes|, x), wkc')
    {
      hide Stack.State, Others, Framed, Arrived, Process;
      if back {
        WholeArrived(stack.State(), idx, txbuflength, x, wkc);
        PrimaryToTx(idx);
      }
      wkc' := wkc;
      var wkc2 := Resend(idx, timeout, x, lost);
      ArrivedWkc(stack.State(), idx, txbuflength, Process(nodes, cable.k, |nodes|, x), wkc2);
      if wkc2 > NOFRAME {
        wkc' := wkc2;
      }
    }

    /** The part of ecx_waitinframe_red behind the loop. */
    method Reroute(idx: nat, timeout: nat, loss: Loss, wkc1: int, wkc2: int, ghost f: seq<byte>, ghost d: seq<byte>)
      returns (wkc: int)
      requires Valid() && idx < EC_MAXBUF && TxFrame(idx) == f && Framed(f) && f[3] == idx
      requires Seen(stack.State(), idx, txbuflength, Comes(nodes, cable, Primary, f, d, loss), wkc1)
      requires Seen(redstack.State(), idx, txbuflength, Comes(nodes, cable, Secondary, f, d, loss), wkc2)
      requires timeout > |redstack.State().socket|
      modifies txbuf, stack.Repr(), redstack.Repr()
      ensures Valid() && Others(stack.State().socket, idx) && Others(redstack.State().socket, idx)
      ensures stack.State().socket == old(stack.State()).socket
      ensures |redstack.State().socket| <= |old(redstack.State()).socket|
      ensures var r := Answered(nodes, cable, f, d, loss);
              Ends(stack.State(), idx, txbuflength, r, wkc) && (r.NoFrame? ==> TxFrame(idx) == f)
    {
      hide Stack.State, Others, Framed, Arrived, Comes, Answered, Process, Seen, Elength;
      ghost var v1, v2, lens := stack.State(), redstack.State(), txbuflength;
      ghost var e1, e2 := Comes(nodes, cable, Primary, f, d, loss), Comes(nodes, cable, Secondary, f, d, loss);
      SeenIs(v1, idx, lens, e1, wkc1);
      SeenIs(v2, idx, lens, e2, wkc2);
      var primrx, secrx := Sources(idx, wkc1, wkc2);
      Routes(nodes, cable, f, d, loss, e1, e2);
      wkc := wkc1;
      // both frames went all the way round the ring
      if primrx == RX_SEC && secrx == RX_PRIM {
        RoutedRound(nodes, cable, f, d, loss, e1, e2);
        ArrivedFramed(v2, idx, lens, e2.p.payload, wkc2);
        SecondaryToPrimary(idx);
        FilledArrived(v1, v2, idx, lens, e2.p.payload, wkc2);
        wkc := wkc2;
      }
      // the secondary frame did not get round to the primary port
      if (primrx == 0 && secrx == RX_SEC) || (primrx == RX_PRIM && secrx == RX_SEC) {
        RoutedBack(nodes, cable, f, d, loss, e1, e2);
        ghost var x := if e1.Frame? then e1.p.payload else f;
        wkc := SendOn(idx, timeout, loss.again, primrx == RX_PRIM, wkc1, x);
      }
    }

    /** ecx_waitinframe_red: the primary receive buffer ends up with what the ring makes of the frames, whatever
        the state of the cable and whichever of them get lost. */
    method WaitInFrameRed(idx: nat, timeout: nat, timeout2: nat, loss: Loss, ghost f: seq<byte>, ghost d: seq<byte>)
      returns (wkc: int)
      requires Valid() && redundant && idx < EC_MAXBUF && TxFrame(idx) == f && Framed(f) && f[3] == idx
      requires Ready(stack.State(), idx, txbuflength, Comes(nodes, cable, Primary, f, d, loss), timeout)
      requires Ready(redstack.State(), idx, txbuflength, Comes(nodes, cable, Secondary, f, d, loss), timeout)
      requires timeout2 > |redstack.State().socket|
      modifies txbuf, stack.Repr(), redstack.Repr()
      ensures Valid() && Others(stack.State().socket, idx) && Others(redstack.State().socket, idx)
      ensures Drained(old(stack.State()), stack.State(), idx) && Drained(old(redstack.State()), redstack.State(), idx)
      ensures var r := Answered(nodes, cable, f, d, loss);
              Ends(stack.State(), idx, txbuflength, r, wkc) && (r.NoFrame? ==> TxFrame(idx) == f)
    {
      hide TxFrame, Stack.State, Polled, Others, Framed, Ready, Comes, Answered, Drained, Seen, Ends;
      ghost var v1, v2, lens := stack.State(), redstack.State(), txbuflength;
      ghost var e1, e2 := Comes(nodes, cable, Primary, f, d, loss), Comes(nodes, cable, Secondary, f, d, loss);
      var wkc1, wkc2 := PollBoth(idx, timeout);
      ghost var v1', v2' := stack.State(), redstack.State();
      PolledBoth(v1, v2, idx, lens, e1, e2, timeout, v1', v2', wkc1, wkc2);
      DrainedTo(v2, v2', idx);
      wkc := Reroute(idx, timeout2, loss, wkc1, wkc2, f, d);
      DrainedMore(v1, v1', stack.State(), idx);
      DrainedMore(v2, v2', redstack.State(), idx);
    }

    /** One try of ecx_srconfirm. */
    method TryOnce(idx: nat, timeout: nat, timeout2: nat, loss: Loss, ghost f: seq<byte>, ghost d: seq<byte>)
      returns (wkc: int)
      requires Valid() && redundant && idx < EC_MAXBUF && TxFrame(idx) == f && Framed(f) && f[3] == idx
      requires Framed(txbuf2) && txbuf2[3 := idx] == d
      requires Others(stack.State().socket, idx) && Others(redstack.State().socket, idx)
      requires timeout > |stack.State().socket| && timeout > |redstack.State().socket| &&
               timeout2 > |redstack.State().socket| + 1
      modifies this`txbuf2, txsa, txbuf, stack.Repr(), redstack.Repr()
      ensures Valid() && Others(stack.State().socket, idx) && Others(redstack.State().socket, idx)
      ensures |stack.State().socket| <= |old(stack.State()).socket|
      ensures |redstack.State().socket| <= |old(redstack.State()).socket| && txbuf2 == d && Framed(d)
      ensures var r := Answered(nodes, cable, f, d, loss);
              Ends(stack.State(), idx, txbuflength, r, wkc) && (r.NoFrame? ==> TxFrame(idx) == f)
    {
      hide Stack.State, Others, Ready, Comes, Answered, Arrived, Drained, Elength;
      ghost var v1, v2 := stack.State(), redstack.State();
      OutFrameRed(idx, loss);
      ghost var v1', v2' := stack.State(), redstack.State();
      ReadyLonger(v1', idx, txbuflength, Comes(nodes, cable, Primary, f, d, loss), |v1.socket| + 1, timeout);
      ReadyLonger(v2', idx, txbuflength, Comes(nodes, cable, Secondary, f, d, loss), |v2.socket| + 1, timeout);
      wkc := WaitInFrameRed(idx, timeout, timeout2, loss, f, d);
      DrainedAgain(v1, v1', stack.State(), idx);
      DrainedAgain(v2, v2', redstack.State(), idx);
    }

    /** ecx_srconfirm: send a frame and wait for it, again and again while nothing comes.  The timers are given as
        numbers of polls, and as the losses of the tries there is time for. */
    method SrConfirm(idx: nat, timeout: nat, timeout2: nat, losses: seq<Loss>) returns (wkc: int)
      requires Valid() && redundant && idx < EC_MAXBUF && losses != []
      requires Framed(TxFrame(idx)) && TxFrame(idx)[3] == idx && Framed(txbuf2)
      requires Others(stack.State().socket, idx) && Others(redstack.State().socket, idx)
      requires timeout > |stack.State().socket| && timeout > |redstack.State().socket| &&
               timeout2 > |redstack.State().socket| + 1
      modifies this`txbuf2, txsa, txbuf, stack.Repr(), redstack.Repr()
      ensures Valid() && Others(stack.State().socket, idx) && Others(redstack.State().socket, idx)
      ensures Ends(stack.State(), idx, txbuflength,
                   Tries(nodes, cable, old(TxFrame(idx)), old(txbuf2)[3 := idx], losses), wkc)
    {
      ghost var f, d, n1, n2 := TxFrame(idx), txbuf2[3 := idx], |stack.State().socket|, |redstack.State().socket|;
      hide Valid, Stack.State, Others, Answered, Tries, Arrived, TxFrame, Elength;
      wkc := NOFRAME;
      var tries := 0;
      TriesNone(nodes, cable, f, d);
      while tries == 0 || (wkc <= NOFRAME && tries < |losses|)
        invariant Valid() && Others(stack.State().socket, idx) && Others(redstack.State().socket, idx)
        invariant |stack.State().socket| <= n1 && |redstack.State().socket| <= n2
        invariant Framed(txbuf2) && txbuf2[3 := idx] == d && tries <= |losses|
        invariant Ends(stack.State(), idx, txbuflength, Tries(nodes, cable, f, d, losses[..tries]), wkc)
        invariant wkc <= NOFRAME ==> TxFrame(idx) == f
        decreases |losses| - tries
      {
        TriesOn(nodes, cable, f, d, losses, tries);
        EndsNone(stack.State(), idx, txbuflength, Tries(nodes, cable, f, d, losses[..tries]), wkc);
        wkc := TryOnce(idx, timeout, timeout2, losses[tries], f, d);
        tries := tries + 1;
        EndsNone(stack.State(), idx, txbuflength, Tries(nodes, cable, f, d, losses[..tries]), wkc);
      }
      TriesEnd(nodes, cable, f, d, losses, tries);
    }
  }

  /** The frame is in the receive buffer of the index, as much of it as was sent, with its counter. */
  predicate Arrived(v: View, idx: nat, lens: seq<nat>, p: seq<byte>, wkc: int) {
    idx < |v.rxbuf| && idx < |lens| && wkc > NOFRAME && Taken(v.rxbuf[idx], p, lens[idx], wkc)
  }

  /** A try ends with the answer. */
  predicate Ends(v: View, idx: nat, lens: seq<nat>, r: Answer, wkc: int) {
    if r.NoFrame? then wkc <= NOFRAME else Arrived(v, idx, lens, r.frame, wkc)
  }

  lemma {:induction false} EndsNone(v: View, idx: nat, lens: seq<nat>, r: Answer, wkc: int)
    requires Ends(v, idx, lens, r, wkc)
    ensures r == NoFrame <==> wkc <= NOFRAME
  {
  }

  /** An interface was polled: there are no more frames in its socket than before, and fewer, or none, if its frame
      was still to come. */
  predicate Drained(v: View, v': View, idx: nat) {
    |v'.socket| <= |v.socket| && (idx < |v.stat| && !v.stat[idx].Rcvd? && v.socket != [] ==> |v'.socket| < |v.socket|)
  }

  /** An interface has found what came. */
  predicate Seen(v: View, idx: nat, lens: seq<nat>, e: Awaited, wkc: int)
    requires v.Valid() && idx < EC_MAXBUF
  {
    && Others(v.socket, idx) && (wkc > NOFRAME <==> e.Frame?)
    && (e.Frame? ==> v.rxsa[idx] == e.p.sa && Arrived(v, idx, lens, e.p.payload, wkc))
  }

  lemma {:induction false} SeenIs(v: View, idx: nat, lens: seq<nat>, e: Awaited, wkc: int)
    requires v.Valid() && idx < EC_MAXBUF && Seen(v, idx, lens, e, wkc)
    ensures Others(v.socket, idx) && (wkc > NOFRAME <==> e.Frame?)
    ensures e.Frame? ==> v.rxsa[idx] == e.p.sa && Arrived(v, idx, lens, e.p.payload, wkc)
  {
  }

  function Filled(v: View, idx: nat, src: seq<byte>, n: nat): View
    requires v.Valid() && idx < EC_MAXBUF && n <= |src| && n <= EC_BUFSIZE
  {
    v.(rxbuf := v.rxbuf[idx := Over(v.rxbuf[idx], src, n)])
  }

  lemma {:induction false} FilledArrived(v1: View, v2: View, idx: nat, lens: seq<nat>, p: seq<byte>, wkc: int)
    requires v1.Valid() && v2.Valid() && idx < EC_MAXBUF && Lengths(lens) && Arrived(v2, idx, lens, p, wkc)
    ensures Arrived(Filled(v1, idx, v2.rxbuf[idx], lens[idx]), idx, lens, p, wkc)
  {
    var n := lens[idx];
    var m, rx := if |p| <= n then |p| else n, Over(v1.rxbuf[idx], v2.rxbuf[idx], n);
    assert rx[..m] == rx[..n][..m] == v2.rxbuf[idx][..n][..m] == v2.rxbuf[idx][..m];
  }

  lemma {:induction false} ArrivedFramed(v: View, idx: nat, lens: seq<nat>, p: seq<byte>, wkc: int)
    requires v.Valid() && idx < EC_MAXBUF && Lengths(lens) && Arrived(v, idx, lens, p, wkc) && Framed(p)
    ensures Elength(v.rxbuf[idx]) + 2 <= EC_BUFSIZE
  {
    var m := if |p| <= lens[idx] then |p| else lens[idx];
    assert v.rxbuf[idx][0] == v.rxbuf[idx][..m][0] == p[0] && v.rxbuf[idx][1] == v.rxbuf[idx][..m][1] == p[1];
  }

  lemma {:induction false} WholeArrived(v: View, idx: nat, lens: seq<nat>, p: seq<byte>, wkc: int)
    requires v.Valid() && idx < EC_MAXBUF && Lengths(lens) && Arrived(v, idx, lens, p, wkc) && |p| == lens[idx]
    ensures v.rxbuf[idx][..lens[idx]] == p
  {
    assert p[..|p|] == p;
  }

  lemma {:induction false} ArrivedWkc(v: View, idx: nat, lens: seq<nat>, p: seq<byte>, wkc: int)
    ensures Arrived(v, idx, lens, p, wkc) ==> wkc > NOFRAME
  {
  }

  lemma {:induction false} DrainedTo(v: View, v': View, idx: nat)
    requires Drained(v, v', idx)
    ensures |v'.socket| <= |v.socket|
  {
  }

  lemma {:induction false} DrainedMore(v: View, v': View, v'': View, idx: nat)
    requires Drained(v, v', idx) && |v''.socket| <= |v'.socket|
    ensures Drained(v, v'', idx)
  {
  }

  /** A frame was sent, and looked for. */
  lemma {:induction false} DrainedAgain(v: View, v': View, v'': View, idx: nat)
    requires |v'.socket| <= |v.socket| + 1 && idx < |v'.stat| && v'.stat[idx].Tx? && Drained(v', v'', idx)
    ensures |v''.socket| <= |v.socket|
  {
  }

  // ----- polling -----

  lemma {:induction false} PolledRed(v: View, idx: nat, lens: seq<nat>, e: Awaited, timeout: nat, v': View, wkc: int)
    requires v.Valid() && idx < EC_MAXBUF && Lengths(lens) && Ready(v, idx, lens, e, timeout)
    requires exists n: nat :: 0 < n && (n >= timeout || wkc > NOFRAME) && (v', wkc) == Polled(v, idx, lens, n)
    ensures v'.Valid() && Seen(v', idx, lens, e, wkc) && Drained(v, v', idx)
  {
    hide Ready, Found, Polled, Drained, Arrived;
    var n: nat :| 0 < n && (n >= timeout || wkc > NOFRAME) && (v', wkc) == Polled(v, idx, lens, n);
    PollingEnds(v, idx, lens, e, timeout, n);
    OutcomeSeen(v', idx, lens, e, wkc);
    PolledDrained(v, idx, lens, n);
  }

  lemma {:induction false} PolledBoth(v1: View, v2: View, idx: nat, lens: seq<nat>, e1: Awaited, e2: Awaited,
                                      timeout: nat, v1': View, v2': View, wkc: int, wkc2: int)
    requires v1.Valid() && v2.Valid() && idx < EC_MAXBUF && Lengths(lens)
    requires Ready(v1, idx, lens, e1, timeout) && Ready(v2, idx, lens, e2, timeout)
    requires exists n: nat :: 0 < n && (n >= timeout || (wkc > NOFRAME && wkc2 > NOFRAME)) &&
               (v1', wkc) == Polled(v1, idx, lens, n) && (v2', wkc2) == Polled(v2, idx, lens, n)
    ensures v1'.Valid() && Seen(v1', idx, lens, e1, wkc) && Drained(v1, v1', idx)
    ensures v2'.Valid() && Seen(v2', idx, lens, e2, wkc2) && Drained(v2, v2', idx)
  {
    hide Ready, Seen, Polled, Drained;
    var n: nat :| 0 < n && (n >= timeout || (wkc > NOFRAME && wkc2 > NOFRAME)) &&
      (v1', wkc) == Polled(v1, idx, lens, n) && (v2', wkc2) == Polled(v2, idx, lens, n);
    PolledRed(v1, idx, lens, e1, timeout, v1', wkc);
    PolledRed(v2, idx, lens, e2, timeout, v2', wkc2);
  }

  lemma {:induction false} OutcomeSeen(v: View, idx: nat, lens: seq<nat>, e: Awaited, wkc: int)
    requires v.Valid() && idx < EC_MAXBUF && Lengths(lens) && Outcome(v, idx, lens, e, wkc)
    ensures Seen(v, idx, lens, e, wkc)
  {
    hide Ours, Taken;
  }

  lemma {:induction false} PolledDrained(v: View, idx: nat, lens: seq<nat>, n: nat)
    requires v.Valid() && idx < EC_MAXBUF && Lengths(lens) && n > 0
    ensures Drained(v, Polled(v, idx, lens, n).0, idx)
  {
    if n > 1 {
      PolledDrained(v, idx, lens, n - 1);
      PollShrinks(Polled(v, idx, lens, n - 1).0, idx, lens);
    } else {
      assert Polled(v, idx, lens, 0) == (v, NOFRAME);
      PollShrinks(v, idx, lens);
    }
  }

  lemma {:induction false} PollShrinks(v: View, idx: nat, lens: seq<nat>)
    requires v.Valid() && idx < EC_MAXBUF && Lengths(lens)
    ensures Drained(v, Poll(v, idx, lens).0, idx)
  {
  }

  lemma {:induction false} ReadyLonger(v: View, idx: nat, lens: seq<nat>, e: Awaited, timeout: nat, longer: nat)
    requires v.Valid() && idx < EC_MAXBUF && Lengths(lens) && Ready(v, idx, lens, e, timeout) && timeout <= longer
    ensures Ready(v, idx, lens, e, longer)
  {
    hide Coming;
  }

  // ----- sending -----

  lemma {:induction false} DummyFramed(p: seq<byte>, idx: byte)
    requires Framed(p)
    ensures Framed(p[3 := idx])
  {
  }

  /** An interface after a frame has travelled the ring. */
  function Received(v: View, side: Side, a: Arrival, sa: uint16): View {
    if a.At? && a.side == side then v.(socket := v.socket + [Packet(sa, true, a.payload)]) else v
  }

  function InTx(v: View, idx: nat): View
    requires idx < |v.stat|
  {
    v.(stat := v.stat[idx := Tx])
  }

  /** A frame was sent, or two, while n others waited; nobody else has taken what comes. */
  ghost predicate Sending(v: View, idx: nat, lens: seq<nat>, e: Awaited, n: nat) {
    && v.Valid() && idx < EC_MAXBUF && Lengths(lens)
    && v.stat[idx].Tx? && |v.socket| <= n + 1 && Ready(v, idx, lens, e, n + 1)
  }

  /** Both frames are out: each interface will find what comes out of the ring on its side. */
  lemma {:induction false} SentReady(v1: View, v2: View, idx: nat, lens: seq<nat>, nodes: seq<Node>, cable: Cable,
                                     f: seq<byte>, d: seq<byte>, loss: Loss)
    requires v1.Valid() && v2.Valid() && idx < EC_MAXBUF && Lengths(lens)
    requires (cable.CutAfter? ==> cable.k <= |nodes|) && (forall k :: 0 <= k < |nodes| ==> Honest(nodes[k]))
    requires Framed(f) && Framed(d) && f[3] == d[3] == idx && Others(v1.socket, idx) && Others(v2.socket, idx)
    ensures var a, b := Out(nodes, cable, Primary, f, loss.first), Out(nodes, cable, Secondary, d, loss.dummy);
            var v1', v2' := Received(Received(InTx(v1, idx), Primary, a, RX_PRIM), Primary, b, RX_SEC),
                            Received(InTx(Received(v2, Secondary, a, RX_PRIM), idx), Secondary, b, RX_SEC);
            && Sending(v1', idx, lens, Comes(nodes, cable, Primary, f, d, loss), |v1.socket|)
            && Sending(v2', idx, lens, Comes(nodes, cable, Secondary, f, d, loss), |v2.socket|)
  {
    hide Honest, Framed, Sent, Sending;
    ArrivesFramed(nodes, cable, Primary, f);
    ArrivesFramed(nodes, cable, Secondary, d);
    FromPrimary(nodes, cable, f);
    FromSecondary(nodes, cable, d);
    var a, b := Out(nodes, cable, Primary, f, loss.first), Out(nodes, cable, Secondary, d, loss.dummy);
    OneReady(v1, idx, lens, Primary, a, b);
    OneReady(v2, idx, lens, Secondary, a, b);
    assert InTx(Received(v2, Secondary, a, RX_PRIM), idx) == Received(InTx(v2, idx), Secondary, a, RX_PRIM);
  }

  /** At most one of the two frames comes out at each side. */
  lemma {:induction false} OneReady(v: View, idx: nat, lens: seq<nat>, side: Side, a: Arrival, b: Arrival)
    requires v.Valid() && idx < EC_MAXBUF && Lengths(lens) && Others(v.socket, idx)
    requires a.At? ==> Framed(a.payload) && a.payload[3] == idx
    requires b.At? ==> Framed(b.payload) && b.payload[3] == idx
    requires !(a.At? && b.At? && a.side == b.side)
    ensures var v' := Received(Received(InTx(v, idx), side, a, RX_PRIM), side, b, RX_SEC);
            var e := if a.At? && a.side == side then Frame(Packet(RX_PRIM, true, a.payload))
                     else if b.At? && b.side == side then Frame(Packet(RX_SEC, true, b.payload)) else Nothing;
            Sending(v', idx, lens, e, |v.socket|)
  {
    if a.At? && a.side == side {
      LastReady(InTx(v, idx), idx, lens, Packet(RX_PRIM, true, a.payload));
    } else if b.At? && b.side == side {
      LastReady(InTx(v, idx), idx, lens, Packet(RX_SEC, true, b.payload));
    }
  }

  lemma {:induction false} LastReady(v: View, idx: nat, lens: seq<nat>, p: Packet)
    requires v.Valid() && idx < EC_MAXBUF && Lengths(lens) && Others(v.socket, idx) && v.stat[idx].Tx?
    requires p.ecat && Framed(p.payload) && p.payload[3] == idx
    ensures Sending(v.(socket := v.socket + [p]), idx, lens, Frame(p), |v.socket|)
  {
    var v' := v.(socket := v.socket + [p]);
    var q := |v.socket|;
    assert v'.socket[..q] == v.socket && v'.socket[q + 1..] == [];
    assert v'.Valid();
    assert Coming(v', idx, lens, p, q);
  }

  lemma {:induction false} ArrivesFramed(nodes: seq<Node>, cable: Cable, side: Side, p: seq<byte>)
    requires (cable.CutAfter? ==> cable.k <= |nodes|) && (forall k :: 0 <= k < |nodes| ==> Honest(nodes[k])) &&
             Framed(p)
    ensures var a := Sent(nodes, cable, side, p); a.At? ==>
              Framed(a.payload) && |a.payload| == |p| && a.payload[3] == p[3]
  {
    FromPrimary(nodes, cable, p);
    FromSecondary(nodes, cable, p);
    match cable
    case Whole => ProcessFramed(nodes, 0, |nodes|, p);
    case CutAfter(k) =>
      ProcessFramed(nodes, 0, k, p);
      ProcessFramed(nodes, k, |nodes|, p);
  }

  lemma {:induction false} ResendReady(v1: View, v2: View, idx: nat, lens: seq<nat>, nodes: seq<Node>, cable: Cable,
                                       f: seq<byte>, sa: uint16, lost: bool, timeout: nat)
    requires v2.Valid() && idx < EC_MAXBUF && Lengths(lens) && Others(v2.socket, idx) && timeout > |v2.socket|
    requires cable.CutAfter? && cable.k < |nodes| && (forall k :: 0 <= k < |nodes| ==> Honest(nodes[k]))
    requires Framed(f) && f[3] == idx
    ensures var a, p := Out(nodes, cable, Secondary, f, lost), Process(nodes, cable.k, |nodes|, f);
            var v2', e := Received(InTx(v2, idx), Secondary, a, sa),
                          if lost then Nothing else Frame(Packet(sa, true, p));
            && Framed(p) && Received(v1, Primary, a, sa) == v1
            && v2'.Valid() && Ready(v2', idx, lens, e, timeout) && v2'.stat[idx].Tx?
            && |v2'.socket| <= |v2.socket| + 1
  {
    hide Honest, Framed, Sent;
    var a, p := Out(nodes, cable, Secondary, f, lost), Process(nodes, cable.k, |nodes|, f);
    var v2' := Received(InTx(v2, idx), Secondary, a, sa);
    FromSecondary(nodes, cable, f);
    ProcessFramed(nodes, cable.k, |nodes|, f);
    if lost {
      assert v2' == InTx(v2, idx);
    } else {
      LastReady(InTx(v2, idx), idx, lens, Packet(sa, true, p));
      ReadyLonger(v2', idx, lens, Frame(Packet(sa, true, p)), |v2.socket| + 1, timeout);
    }
  }

  // ----- what the sources of the two frames tell about the cable -----

  function From(e: Awaited): uint16 { if e.Frame? then e.p.sa else 0 }

  lemma {:induction false} Routes(nodes: seq<Node>, cable: Cable, f: seq<byte>, d: seq<byte>, loss: Loss, e1: Awaited,
                                  e2: Awaited)
    requires cable.CutAfter? ==> cable.k <= |nodes|
    requires e1 == Comes(nodes, cable, Primary, f, d, loss) && e2 == Comes(nodes, cable, Secondary, f, d, loss)
    ensures
      || (From(e1) == RX_SEC && From(e2) == RX_PRIM)
      || ((From(e1) == 0 || From(e1) == RX_PRIM) && From(e2) == RX_SEC)
      || Answered(nodes, cable, f, d, loss) == if e1.Frame? then Of(e1.p.payload) else NoFrame
  {
    ComesAre(nodes, cable, f, d, loss);
  }

  lemma {:induction false} RoutedRound(nodes: seq<Node>, cable: Cable, f: seq<byte>, d: seq<byte>, loss: Loss,
                                       e1: Awaited, e2: Awaited)
    requires (cable.CutAfter? ==> cable.k <= |nodes|) && (forall k :: 0 <= k < |nodes| ==> Honest(nodes[k]))
    requires e1 == Comes(nodes, cable, Primary, f, d, loss) && e2 == Comes(nodes, cable, Secondary, f, d, loss)
    requires Framed(f) && From(e1) == RX_SEC && From(e2) == RX_PRIM
    ensures Answered(nodes, cable, f, d, loss) == Of(e2.p.payload) && Framed(e2.p.payload)
  {
    ComesAre(nodes, cable, f, d, loss);
    ProcessFramed(nodes, 0, |nodes|, f);
  }

  lemma {:induction false} RoutedBack(nodes: seq<Node>, cable: Cable, f: seq<byte>, d: seq<byte>, loss: Loss,
                                      e1: Awaited, e2: Awaited)
    requires (cable.CutAfter? ==> cable.k <= |nodes|) && (forall k :: 0 <= k < |nodes| ==> Honest(nodes[k]))
    requires e1 == Comes(nodes, cable, Primary, f, d, loss) && e2 == Comes(nodes, cable, Secondary, f, d, loss)
    requires Framed(f) && From(e1) != RX_SEC && From(e2) == RX_SEC
    ensures cable.CutAfter? && cable.k < |nodes| && (e1.Frame? ==> e1.p.sa == RX_PRIM)
    ensures var x := if e1.Frame? then e1.p.payload else f;
            && Framed(x) && |x| == |f| && x[3] == f[3]
            && Answered(nodes, cable, f, d, loss) ==
               if !loss.again then Of(Process(nodes, cable.k, |nodes|, x)) else if e1.Frame? then Of(x) else NoFrame
  {
    ComesAre(nodes, cable, f, d, loss);
    if cable.CutAfter? {
      ProcessFramed(nodes, 0, cable.k, f);
    }
  }
}
