/** Cycles some of whose frames did not come back. */
module LostFrames {
  import opened Bytes
  import opened Datagram
  import opened FrameIndex
  import opened ProcessData
  import opened LogicalExchange

  /** The IO map byte at p after a cycle over a tiling some of whose frames came back: old where the
      frame is lost and outside the tiling, answered elsewhere. */
  function ByteAfter(bus: Bus, com: byte, parts: seq<Part>, got: seq<bool>, shift: nat, sent: seq<byte>,
                     iomap: seq<byte>, p: nat): byte
    requires |parts| == |got| && p < |iomap|
    requires forall k :: 0 <= k < |parts| ==> parts[k].off + parts[k].len <= |sent|
  {
    if parts == [] then iomap[p]
    else
      var Part(addr, off, len) := parts[0];
      if off + shift <= p < off + shift + len then
        if got[0] then Returned(bus, com, addr, sent[off..off + len])[p - shift - off] else iomap[p]
      else ByteAfter(bus, com, parts[1..], got[1..], shift, sent, iomap, p)
  }

  lemma {:induction false} StoredByte(bus: Bus, job: Job, sent: seq<byte>, iomap: seq<byte>, p: nat)
    requires job.com in {LRD, LRW} && job.part.off + job.part.len <= |sent|
    requires job.part.off + job.shift + job.part.len <= |iomap| && p < |iomap|
    ensures var Part(addr, off, len) := job.part;
            Stored(bus, job, sent, iomap)[p] ==
              if off + job.shift <= p < off + job.shift + len
              then Returned(bus, job.com, addr, sent[off..off + len])[p - job.shift - off] else iomap[p]
  {
    hide Returned, Put;
    var Part(addr, off, len) := job.part;
    PutByte(iomap, off + job.shift, Returned(bus, job.com, addr, sent[off..off + len]), p);
  }

  lemma {:induction false} PutByte(s: seq<byte>, at: nat, data: seq<byte>, p: nat)
    requires at + |data| <= |s| && p < |s|
    ensures Put(s, at, data)[p] == if at <= p < at + |data| then data[p - at] else s[p]
  {
  }

  lemma {:induction false} CollectedStep(bus: Bus, com: byte, parts: seq<Part>, got: seq<bool>, shift: nat,
                                         sent: seq<byte>, iomap: seq<byte>) returns (iomap1: seq<byte>)
    requires parts != [] && |parts| == |got| && |sent| == |iomap| && Inside(Jobs(com, parts, shift), |iomap|)
    ensures Jobs(com, parts, shift)[0] == Job(com, parts[0], shift)
    ensures iomap1 == (if got[0] then Stored(bus, Job(com, parts[0], shift), sent, iomap) else iomap)
    ensures Inside(Jobs(com, parts[1..], shift), |iomap|)
    ensures Collected(bus, Jobs(com, parts, shift), got, sent, iomap)
            == Collected(bus, Jobs(com, parts[1..], shift), got[1..], sent, iomap1)
  {
    iomap1 := if got[0] then Stored(bus, Job(com, parts[0], shift), sent, iomap) else iomap;
    assert Jobs(com, parts, shift)[1..] == Jobs(com, parts[1..], shift);
  }

  lemma {:induction false} Untouched(bus: Bus, com: byte, parts: seq<Part>, got: seq<bool>, shift: nat, addr: nat,
                                     off: nat, total: nat, sent: seq<byte>, iomap: seq<byte>, p: nat)
    requires com in {LRD, LRW} && |parts| == |got| && Tiles(parts, addr, off, total)
    requires |sent| == |iomap| && off + shift + total <= |iomap|
    requires Inside(Jobs(com, parts, shift), |iomap|)
    requires p < |iomap| && !(off + shift <= p < off + shift + total)
    ensures Collected(bus, Jobs(com, parts, shift), got, sent, iomap)[p] == iomap[p]
    decreases |parts|
  {
    if parts != [] {
      var iomap1 := CollectedStep(bus, com, parts, got, shift, sent, iomap);
      StoredByte(bus, Job(com, parts[0], shift), sent, iomap, p);
      hide Collected, Stored, Returned;
      Untouched(bus, com, parts[1..], got[1..], shift, addr + parts[0].len, off + parts[0].len,
                total - parts[0].len, sent,
                iomap1, p);
    }
  }

  /** Lost frames leave their piece of the IO map as it was; all others are answered. */
  lemma {:induction false} LossIsLocal(bus: Bus, com: byte, parts: seq<Part>, got: seq<bool>, shift: nat, addr: nat,
                                       off: nat, total: nat, sent: seq<byte>, iomap: seq<byte>, p: nat)
    requires com in {LRD, LRW} && |parts| == |got| && Tiles(parts, addr, off, total)
    requires |sent| == |iomap| && off + shift + total <= |iomap|
    requires Inside(Jobs(com, parts, shift), |iomap|) && p < |iomap|
    requires forall k :: 0 <= k < |parts| ==> parts[k].off + parts[k].len <= |sent|
    ensures Collected(bus, Jobs(com, parts, shift), got, sent, iomap)[p]
            == ByteAfter(bus, com, parts, got, shift, sent, iomap, p)
    decreases |parts|
  {
    hide Collected, Stored, Returned, Inside, Jobs, ByteAfter;
    if parts == [] {
      NoParts(bus, com, shift, sent, iomap, p);
    } else {
      var len := parts[0].len;
      var iomap1 := CollectedStep(bus, com, parts, got, shift, sent, iomap);
      JobInside(com, parts, shift, |iomap|);
      StoredByte(bus, Job(com, parts[0], shift), sent, iomap, p);
      AfterStep(bus, com, parts, got, shift, sent, iomap, p);
      if off + shift <= p < off + shift + len {
        Untouched(bus, com, parts[1..], got[1..], shift, addr + len, off + len, total - len, sent, iomap1, p);
      } else {
        LossIsLocal(bus, com, parts[1..], got[1..], shift, addr + len, off + len, total - len, sent, iomap1, p);
        SameByte(bus, com, parts[1..], got[1..], shift, sent, iomap, iomap1, p);
      }
    }
  }

  lemma {:induction false} NoParts(bus: Bus, com: byte, shift: nat, sent: seq<byte>, iomap: seq<byte>, p: nat)
    requires |sent| == |iomap| && p < |iomap| && Inside(Jobs(com, [], shift), |iomap|)
    ensures Collected(bus, Jobs(com, [], shift), [], sent, iomap)[p]
            == ByteAfter(bus, com, [], [], shift, sent, iomap, p)
  {
  }

  lemma {:induction false} JobInside(com: byte, parts: seq<Part>, shift: nat, size: nat)
    requires parts != [] && Inside(Jobs(com, parts, shift), size)
    ensures parts[0].off + parts[0].len <= size && parts[0].off + shift + parts[0].len <= size
  {
    assert Jobs(com, parts, shift)[0] == Job(com, parts[0], shift);
  }

  lemma {:induction false} AfterStep(bus: Bus, com: byte, parts: seq<Part>, got: seq<bool>, shift: nat,
                                     sent: seq<byte>, iomap: seq<byte>, p: nat)
    requires |parts| == |got| && p < |iomap| && parts != []
    requires forall k :: 0 <= k < |parts| ==> parts[k].off + parts[k].len <= |sent|
    ensures ByteAfter(bus, com, parts, got, shift, sent, iomap, p) ==
            var Part(addr, off, len) := parts[0];
            if off + shift <= p < off + shift + len then
              if got[0] then Returned(bus, com, addr, sent[off..off + len])[p - shift - off] else iomap[p]
            else ByteAfter(bus, com, parts[1..], got[1..], shift, sent, iomap, p)
  {
    hide Returned;
  }

  lemma {:induction false} SameByte(bus: Bus, com: byte, parts: seq<Part>, got: seq<bool>, shift: nat,
                                    sent: seq<byte>, iomap: seq<byte>, iomap': seq<byte>, p: nat)
    requires |parts| == |got| && |iomap| == |iomap'| && p < |iomap| && iomap[p] == iomap'[p]
    requires forall k :: 0 <= k < |parts| ==> parts[k].off + parts[k].len <= |sent|
    ensures ByteAfter(bus, com, parts, got, shift, sent, iomap, p)
            == ByteAfter(bus, com, parts, got, shift, sent, iomap', p)
    decreases |parts|
  {
    if parts != [] {
      SameByte(bus, com, parts[1..], got[1..], shift, sent, iomap, iomap', p);
    }
  }

  // ----- the first frame, which carries the reference clock -----

  /** The first entry a frame arrived for. */
  function FirstArrived(entries: seq<Entry>, replies: Replies): (k: nat)
    ensures k <= |entries| && (k < |entries| ==> Arrived(entries[k], replies))
    ensures forall i :: 0 <= i < k ==> !Arrived(entries[i], replies)
    decreases |entries|
  {
    if entries == [] || Arrived(entries[0], replies) then 0 else 1 + FirstArrived(entries[1..], replies)
  }

  lemma {:induction false} FitsPlain(entries: seq<Entry>, replies: Replies, dcl: nat, size: nat)
    requires InMap(entries, size)
    ensures Fits(entries, replies, false, dcl, size)
    decreases |entries|
  {
    if entries != [] {
      FitsPlain(entries[1..], replies, dcl, size);
    }
  }

  /** The frame that is taken for the first one is the first that arrives, and DCl bytes of it are copied.  A
      cycle with the clock stays inside the IO map exactly when none arrives, it brings no data, or DCl bytes fit
      behind where its data belongs. */
  lemma {:induction false} FitsIff(entries: seq<Entry>, replies: Replies, dcl: nat, size: nat)
    requires InMap(entries, size)
    ensures Fits(entries, replies, true, dcl, size) <==>
            var k := FirstArrived(entries, replies);
            k < |entries| && Copied(entries[k], replies) ==> entries[k].data + dcl <= size
    decreases |entries|
  {
    if entries != [] {
      FitsPlain(entries[1..], replies, dcl, size);
      FitsIff(entries[1..], replies, dcl, size);
    }
  }

  /** Some frame brings data for byte p of the IO map. */
  predicate Rewritten(entries: seq<Entry>, replies: Replies, p: nat)
    decreases |entries|
  {
    entries != [] &&
    ((Copied(entries[0], replies) && entries[0].data <= p < entries[0].data + entries[0].length) ||
     Rewritten(entries[1..], replies, p))
  }

  /** Behind the first frame a byte no longer depends on what was there before exactly when it is rewritten. */
  lemma {:induction false} LaterByte(t: Tally, t': Tally, entries: seq<Entry>, replies: Replies, dcl: nat, dcto: nat,
                                     p: nat)
    requires InMap(entries, |t.iomap|) && |t.iomap| == |t'.iomap| && !t.first && !t'.first && p < |t.iomap|
    ensures Fits(entries, replies, false, dcl, |t.iomap|)
    ensures Gather(t, entries, replies, dcl, dcto).iomap[p] == Gather(t', entries, replies, dcl, dcto).iomap[p] <==>
            Rewritten(entries, replies, p) || t.iomap[p] == t'.iomap[p]
    decreases |entries|
  {
    FitsPlain(entries, replies, dcl, |t.iomap|);
    if entries != [] {
      var e := entries[0];
      FitsPlain([e], replies, dcl, |t.iomap|);
      var t1, t1' := GatherOne(t, e, replies, dcl, dcto), GatherOne(t', e, replies, dcl, dcto);
      OneByte(t, e, replies, dcl, dcto, p);
      OneByte(t', e, replies, dcl, dcto, p);
      hide GatherOne;
      LaterByte(t1, t1', entries[1..], replies, dcl, dcto, p);
      if Copied(e, replies) && e.data <= p < e.data + e.length {
        assert t1.iomap[p] == t1'.iomap[p];
      }
    }
  }

  /** One byte of the IO map after one entry. */
  lemma {:induction false} OneByte(t: Tally, e: Entry, replies: Replies, dcl: nat, dcto: nat, p: nat)
    requires Fits([e], replies, t.first, dcl, |t.iomap|) && p < |t.iomap|
    requires t.first ==> dcl <= EC_MAXLRWDATA && dcto + 8 <= EC_BUFSIZE
    ensures var n := if t.first then dcl else e.length;
            GatherOne(t, e, replies, dcl, dcto).iomap[p] ==
            if Copied(e, replies) && e.data <= p < e.data + n then replies[e.idx].buf[EC_HEADERSIZE + (p - e.data)]
            else t.iomap[p]
  {
    hide WordAt;
  }

  /** Byte p is copied with the length of the one, but not of the other. */
  predicate Between(e: Entry, dcl: nat, p: nat) {
    e.data <= p && (p < e.data + e.length <==> p >= e.data + dcl)
  }

  /** What decides about byte p when the length DCl is used for entry k: it belongs to the IO map either way, or
      it is rewritten later, or what was received for it is what was there. */
  predicate Harmless(t: Tally, entries: seq<Entry>, k: nat, replies: Replies, dcl: nat, p: nat)
    requires k < |entries| && p < |t.iomap| && Copied(entries[k], replies) && InMap(entries, |t.iomap|)
    requires dcl <= EC_MAXLRWDATA
  {
    Between(entries[k], dcl, p) ==>
      Rewritten(entries[k + 1..], replies, p) ||
      replies[entries[k].idx].buf[EC_HEADERSIZE + (p - entries[k].data)] == t.iomap[p]
  }

  /** The first arrived entry is the first one. */
  lemma {:induction false} FirstHere(t: Tally, entries: seq<Entry>, replies: Replies, dcl: nat, dcto: nat, p: nat)
    requires entries != [] && Arrived(entries[0], replies) && t.first && InMap(entries, |t.iomap|) && p < |t.iomap|
    requires Fits(entries, replies, true, dcl, |t.iomap|) && dcl <= EC_MAXLRWDATA && dcto + 8 <= EC_BUFSIZE
    ensures Fits(entries, replies, false, dcl, |t.iomap|)
    ensures Gather(t, entries, replies, dcl, dcto).iomap[p]
            == Gather(t.(first := false), entries, replies, dcl, dcto).iomap[p] <==>
            (Copied(entries[0], replies) ==> Harmless(t, entries, 0, replies, dcl, p))
  {
    var e, t' := entries[0], t.(first := false);
    FitsPlain(entries, replies, dcl, |t.iomap|);
    FitsPlain([e], replies, dcl, |t.iomap|);
    assert [e][1..] == [] && Fits([e], replies, true, dcl, |t.iomap|);
    OneByte(t, e, replies, dcl, dcto, p);
    OneByte(t', e, replies, dcl, dcto, p);
    LaterByte(GatherOne(t, e, replies, dcl, dcto), GatherOne(t', e, replies, dcl, dcto), entries[1..], replies, dcl,
              dcto, p);
    hide GatherOne, Rewritten;
  }

  /** Byte p is the one of a cycle without the clock. */
  predicate SameByClock(t: Tally, entries: seq<Entry>, replies: Replies, dcl: nat, dcto: nat, p: nat)
    requires t.first && p < |t.iomap| && dcl <= EC_MAXLRWDATA && dcto + 8 <= EC_BUFSIZE
    requires Fits(entries, replies, true, dcl, |t.iomap|) && Fits(entries, replies, false, dcl, |t.iomap|)
  {
    Gather(t, entries, replies, dcl, dcto).iomap[p]
    == Gather(t.(first := false), entries, replies, dcl, dcto).iomap[p]
  }

  lemma {:induction false} ClockByteIff(t: Tally, entries: seq<Entry>, replies: Replies, dcl: nat, dcto: nat, p: nat)
    requires t.first && InMap(entries, |t.iomap|) && p < |t.iomap|
    requires Fits(entries, replies, true, dcl, |t.iomap|) && dcl <= EC_MAXLRWDATA && dcto + 8 <= EC_BUFSIZE
    ensures Fits(entries, replies, false, dcl, |t.iomap|)
    ensures SameByClock(t, entries, replies, dcl, dcto, p) <==>
            var k := FirstArrived(entries, replies);
            k < |entries| && Copied(entries[k], replies) ==> Harmless(t, entries, k, replies, dcl, p)
    decreases |entries|
  {
    FitsPlain(entries, replies, dcl, |t.iomap|);
    if entries != [] {
      if Arrived(entries[0], replies) {
        FirstHere(t, entries, replies, dcl, dcto, p);
      } else {
        hide Rewritten;
        ClockByteIff(t, entries[1..], replies, dcl, dcto, p);
        var k := FirstArrived(entries[1..], replies);
        assert k < |entries[1..]| ==> entries[1..][k] == entries[k + 1] && entries[1..][k + 1..] == entries[k + 2..];
      }
    }
  }

  /** A cycle with the clock leaves the IO map of one without exactly when no byte between the length of the
      first frame that arrived and DCl is left with a difference; always when that frame has length DCl, as the
      first frame sent does. */
  lemma {:induction false} ClockMapIff(t: Tally, entries: seq<Entry>, replies: Replies, dcl: nat, dcto: nat)
    requires t.first && InMap(entries, |t.iomap|)
    requires Fits(entries, replies, true, dcl, |t.iomap|) && dcl <= EC_MAXLRWDATA && dcto + 8 <= EC_BUFSIZE
    ensures Fits(entries, replies, false, dcl, |t.iomap|)
    ensures Gather(t, entries, replies, dcl, dcto).iomap
            == Gather(t.(first := false), entries, replies, dcl, dcto).iomap <==>
            var k := FirstArrived(entries, replies);
            k < |entries| && Copied(entries[k], replies) ==>
              forall p :: 0 <= p < |t.iomap| ==> Harmless(t, entries, k, replies, dcl, p)
    ensures var k := FirstArrived(entries, replies);
            k < |entries| && entries[k].length == dcl ==>
              Gather(t, entries, replies, dcl, dcto).iomap
              == Gather(t.(first := false), entries, replies, dcl, dcto).iomap
  {
    FitsPlain(entries, replies, dcl, |t.iomap|);
    var k := FirstArrived(entries, replies);
    var a, b := Gather(t, entries, replies, dcl, dcto).iomap,
                Gather(t.(first := false), entries, replies, dcl, dcto).iomap;
    forall p | 0 <= p < |t.iomap|
      ensures a[p] == b[p] <==>
              (k < |entries| && Copied(entries[k], replies) ==> Harmless(t, entries, k, replies, dcl, p))
    {
      ClockByteIff(t, entries, replies, dcl, dcto, p);
    }
    hide Rewritten, Gather;
  }

  /** With the first frame lost, the end of a longer second frame is not stored although it arrived. */
  lemma {:induction false} LostFirstFrame(lost: Entry, e: Entry, replies: Replies, t: Tally, dcto: nat)
    requires t.first && !Arrived(lost, replies) && Arrived(e, replies) && replies[e.idx].buf[2] == LRW
    requires lost.data + lost.length <= |t.iomap|
    requires lost.length < e.length <= EC_MAXLRWDATA && e.data + e.length <= |t.iomap| && dcto + 8 <= EC_BUFSIZE
    ensures Fits([lost, e], replies, true, lost.length, |t.iomap|)
    ensures forall p :: e.data + lost.length <= p < e.data + e.length ==>
              Gather(t, [lost, e], replies, lost.length, dcto).iomap[p] == t.iomap[p]
  {
    var dcl := lost.length;
    assert [lost, e][1..] == [e] && [e][1..] == [] && [lost][1..] == [];
    assert Fits([e], replies, true, dcl, |t.iomap|);
    assert Fits([lost], replies, true, dcl, |t.iomap|);
    var t' := GatherOne(t, e, replies, dcl, dcto);
    assert Gather(t, [e], replies, dcl, dcto) == t';
  }

  /** A group of 1477 bytes of outputs in segments of 1466 and 11 bytes, with the clock. */
  predicate TwoSegments(g: Group) {
    && g.logstartaddr == 0 && g.Obytes == 1477 && g.Ibytes == 0 && g.outputs == 0 && g.inputs == 1477
    && g.hasdc && !g.blockLRW && g.nsegments == 2 && g.Isegment == 1 && g.Ioffset == 11
    && |g.IOsegment| >= 2 && g.IOsegment[0] == 1466 && g.IOsegment[1] == 11
  }

  lemma {:induction false} TwoSegmented(g: Group)
    requires TwoSegments(g)
    ensures Segmented(g)
  {
  }

  /** They were sent from a map of 1477 bytes, and the first frame was lost. */
  ghost predicate FirstLost(g: Group, sent: seq<Sent>, entries: seq<Entry>, map0: seq<byte>, time: seq<byte>,
                            replies: Replies)
    requires TwoSegments(g)
  {
    TwoSegmented(g);
    && |map0| == 1477 && |entries| == 2 && AllCarry(sent, entries, Plan(g, false), map0, true, g.dcadr, time)
    && !Arrived(entries[0], replies) && Arrived(entries[1], replies) && replies[entries[1].idx].buf[2] == LRW
  }

  lemma {:induction false} TwoJobs(g: Group)
    requires TwoSegments(g)
    ensures Mapped(g, false) && Plan(g, false) == Jobs(LRW, [Part(0, 0, 1466), Part(1466, 1466, 11)], 0)
  {
    assert g.IOsegment[..2] == [1466, 11] && [1466, 11][1..] == [11] && g.IOsegment[..1] == [1466];
    assert Sum([11]) == 11 && Sum([1466]) == 1466;
    assert Lens(g, 0, 0) == [1466, 11];
    assert Cut([11], 1466, 1466, 11, false) == [Part(1466, 1466, 11)];
    assert Cut([1466, 11], 0, 0, 1477, false) == [Part(0, 0, 1466)] + [Part(1466, 1466, 11)];
  }

  /** A cycle of it whose first frame is lost copies 1466 bytes to where 11 are left in the IO map. */
  lemma {:induction false} LostFirstOverrun(g: Group, sent: seq<Sent>, entries: seq<Entry>, map0: seq<byte>,
                                            time: seq<byte>, replies: Replies)
    requires TwoSegments(g) && FirstLost(g, sent, entries, map0, time, replies)
    ensures Mapped(g, false) && |entries| == 2
    ensures entries[0] == Entry(entries[0].idx, 0, 1466) && entries[1] == Entry(entries[1].idx, 1466, 11)
    ensures InMap(entries, |map0|) && !Fits(entries, replies, true, entries[0].length, |map0|)
    ensures entries[1].data + entries[0].length == |map0| + 1455
  {
    hide Frame, Plan, Mapped, Fits, Arrived;
    TwoJobs(g);
    assert Carries(sent[0], entries[0], Plan(g, false)[0], map0, true, g.dcadr, time);
    assert Carries(sent[1], entries[1], Plan(g, false)[1], map0, false, g.dcadr, time);
    FitsIff(entries, replies, entries[0].length, |map0|);
  }

  /** The replies that are frames with process data: a wait that was given up leaves a negative result and whatever
      was in the buffer before. */
  function Came(replies: Replies): (came: Replies) {
    map i | i in replies && replies[i].wkc >= 0 && replies[i].buf[2] in {10, 11, 12} :: replies[i]
  }

  lemma {:induction false} OneCame(t: Tally, e: Entry, replies: Replies, dcl: nat, dcto: nat)
    requires Fits([e], replies, t.first, dcl, |t.iomap|)
    requires t.first ==> dcl <= EC_MAXLRWDATA && dcto + 8 <= EC_BUFSIZE
    ensures Fits([e], Came(replies), t.first, dcl, |t.iomap|)
    ensures (Arrived(e, replies) <==> e.idx in Came(replies)) && (Arrived(e, Came(replies)) <==> Arrived(e, replies))
    ensures var t' := GatherOne(t, e, replies, dcl, dcto);
            GatherOne(t, e, Came(replies), dcl, dcto) == t' && (t'.valid <==> t.valid || e.idx in Came(replies))
  {
  }

  /** A wait that was given up counts as a lost frame, and the result is one exactly when some frame came. */
  lemma {:induction false} OnlyCame(t: Tally, entries: seq<Entry>, replies: Replies, dcl: nat, dcto: nat)
    requires Fits(entries, replies, t.first, dcl, |t.iomap|) && InMap(entries, |t.iomap|)
    requires t.first ==> dcl <= EC_MAXLRWDATA && dcto + 8 <= EC_BUFSIZE
    ensures Fits(entries, Came(replies), t.first, dcl, |t.iomap|)
    ensures var t' := Gather(t, entries, replies, dcl, dcto);
            && Gather(t, entries, Came(replies), dcl, dcto) == t'
            && (t'.valid <==> t.valid || exists k :: 0 <= k < |entries| && entries[k].idx in Came(replies))
    decreases |entries|
  {
    hide GatherOne, Arrived, Came, InMap, Fits;
    if entries == [] {
      NothingFits(replies, t.first, dcl, |t.iomap|);
    } else {
      var came := Came(replies);
      FitsStep(entries, replies, t.first, dcl, |t.iomap|);
      FitsStep(entries, came, t.first, dcl, |t.iomap|);
      OneCame(t, entries[0], replies, dcl, dcto);
      OnlyCame(GatherOne(t, entries[0], replies, dcl, dcto), entries[1..], replies, dcl, dcto);
      assert entries == [entries[0]] + entries[1..];
    }
  }

  lemma {:induction false} NothingFits(replies: Replies, first: bool, dcl: nat, size: nat)
    ensures Fits([], Came(replies), first, dcl, size)
  {
  }
}
