/** Where LRW is blocked, LRD and LWR together do what LRW does; and what the exchange needs. */
module ReadWriteExchange {
  import opened Bytes
  import opened Datagram
  import opened FrameIndex
  import opened ProcessData
  import opened LogicalExchange

  // ----- the LRD and LWR datagrams tile inputs and outputs -----

  lemma {:induction false} ReadTiles(g: Group) returns (parts: seq<Part>)
    requires Mapped(g, false) && g.Ibytes > 0
    ensures ReadJobs(g) == Jobs(LRD, parts, 0) && |ReadJobs(g)| == |parts|
    ensures Tiles(parts, g.logstartaddr + g.Obytes, g.inputs, g.Ibytes)
  {
    var lens := Lens(g, g.Isegment, g.Ioffset);
    parts := Cut(lens, g.logstartaddr + g.Obytes, g.inputs, g.Ibytes, false);
    var all, i := g.IOsegment[..g.nsegments], g.Isegment;
    SumSplit(all, i);
    assert all[..i] == g.IOsegment[..i] && all[i..][0] == g.IOsegment[i] &&
           all[i..][1..] == g.IOsegment[i + 1..g.nsegments];
    assert lens[1..] == g.IOsegment[i + 1..g.nsegments];
    CutTiles(lens, g.logstartaddr + g.Obytes, g.inputs, g.Ibytes, false);
  }

  lemma {:induction false} WriteTiles(g: Group) returns (parts: seq<Part>)
    requires Mapped(g, false) && g.Obytes > 0
    ensures WriteJobs(g) == Jobs(LWR, parts, 0) && |WriteJobs(g)| == |parts|
    ensures Tiles(parts, g.logstartaddr, g.outputs, g.Obytes)
  {
    AllLens(g);
    parts := Cut(Lens(g, 0, 0), g.logstartaddr, g.outputs, g.Obytes, true);
    CutTiles(Lens(g, 0, 0), g.logstartaddr, g.outputs, g.Obytes, true);
  }

  // ----- the data -----

  lemma {:induction false} CollectedJoin(bus: Bus, jobs: seq<Job>, got: seq<bool>, jobs': seq<Job>, got': seq<bool>,
                                         sent: seq<byte>, iomap: seq<byte>)
    requires |jobs| == |got| && |jobs'| == |got'| && |sent| == |iomap|
    requires Inside(jobs, |iomap|) && Inside(jobs', |iomap|) && Inside(jobs + jobs', |iomap|)
    ensures Collected(bus, jobs + jobs', got + got', sent, iomap)
            == Collected(bus, jobs', got', sent, Collected(bus, jobs, got, sent, iomap))
    decreases |jobs|
  {
    if jobs == [] {
      assert jobs + jobs' == jobs' && got + got' == got';
    } else {
      assert (jobs + jobs')[1..] == jobs[1..] + jobs' && (got + got')[1..] == got[1..] + got';
      CollectedJoin(bus, jobs[1..], got[1..], jobs', got', sent,
                    if got[0] then Stored(bus, jobs[0], sent, iomap) else iomap);
    }
  }

  /** Answers to LWR leave the IO map alone. */
  lemma {:induction false} WritesStoreNothing(bus: Bus, jobs: seq<Job>, got: seq<bool>, sent: seq<byte>,
                                              iomap: seq<byte>)
    requires |jobs| == |got| && |sent| == |iomap| && Inside(jobs, |iomap|)
    requires forall k :: 0 <= k < |jobs| ==> jobs[k].com == LWR
    ensures Collected(bus, jobs, got, sent, iomap) == iomap
    decreases |jobs|
  {
    if jobs != [] {
      WritesStoreNothing(bus, jobs[1..], got[1..], sent, iomap);
    }
  }

  lemma {:induction false} InsideJoin(jobs: seq<Job>, jobs': seq<Job>, size: nat)
    requires Inside(jobs, size) && Inside(jobs', size)
    ensures Inside(jobs + jobs', size)
  {
  }

  lemma {:induction false} AllGotJoin(m: nat, n: nat)
    ensures AllGot(m + n) == AllGot(m) + AllGot(n)
  {
  }

  /** What the read datagrams store. */
  lemma {:induction false} ReadsCollected(g: Group, bus: Bus, map0: seq<byte>, iomap: seq<byte>)
    requires Mapped(g, false) && |map0| == |iomap| && g.inputs + g.Ibytes <= |iomap|
    ensures Inside(ReadJobs(g), |iomap|)
    ensures Collected(bus, ReadJobs(g), AllGot(|ReadJobs(g)|), map0, iomap)
            == Put(iomap, g.inputs, Inserted(bus, g.logstartaddr + g.Obytes, Zeros(g.Ibytes)))
  {
    if g.Ibytes > 0 {
      var parts := ReadTiles(g);
      TilesInside(LRD, parts, 0, g.logstartaddr + g.Obytes, g.inputs, g.Ibytes, |iomap|);
      hide ReadJobs, Collected, Put, Inserted, Returned, Tiles, Inside, Jobs, AllGot;
      AtOnce(bus, LRD, ReadJobs(g), parts, 0, g.logstartaddr + g.Obytes, g.inputs, g.inputs, g.Ibytes, map0, iomap);
      ReturnedInserted(bus, g.logstartaddr + g.Obytes, map0[g.inputs..g.inputs + g.Ibytes]);
    } else {
      assert Inserted(bus, g.logstartaddr + g.Obytes, Zeros(0)) == [];
    }
  }

  lemma {:induction false} WritesInside(g: Group, size: nat)
    requires Mapped(g, false) && g.outputs + g.Obytes <= size
    ensures Inside(WriteJobs(g), size) && forall k :: 0 <= k < |WriteJobs(g)| ==> WriteJobs(g)[k].com == LWR
  {
    if g.Obytes > 0 {
      var parts := WriteTiles(g);
      TilesInside(LWR, parts, 0, g.logstartaddr, g.outputs, g.Obytes, size);
    }
  }

  lemma {:induction false} CyclicJoin(jobs: seq<Job>, jobs': seq<Job>, size: nat)
    requires Cyclic(jobs, size) && Cyclic(jobs', size)
    ensures Cyclic(jobs + jobs', size)
  {
    hide Inside;
    InsideJoin(jobs, jobs', size);
  }

  lemma {:induction false} JobsCyclic(com: byte, parts: seq<Part>, size: nat)
    requires com in {LRD, LWR} && Inside(Jobs(com, parts, 0), size)
    requires forall k :: 0 <= k < |parts| ==> parts[k].len <= EC_MAXLRWDATA - EC_FIRSTDCDATAGRAM
    ensures Cyclic(Jobs(com, parts, 0), size)
  {
    hide Inside;
  }

  lemma {:induction false} ReadCyclic(g: Group, size: nat)
    requires Mapped(g, false) && Inside(ReadJobs(g), size)
    ensures Cyclic(ReadJobs(g), size)
  {
    hide Inside, Cut, Cyclic, Lens;
    if g.Ibytes > 0 {
      CutSizes(g, g.Isegment, g.Ioffset, g.logstartaddr + g.Obytes, g.inputs, g.Ibytes, false);
      JobsCyclic(LRD, Cut(Lens(g, g.Isegment, g.Ioffset), g.logstartaddr + g.Obytes, g.inputs, g.Ibytes, false), size);
    } else {
      NoneCyclic(size);
    }
  }

  lemma {:induction false} WriteCyclic(g: Group, size: nat)
    requires Mapped(g, false) && Inside(WriteJobs(g), size)
    ensures Cyclic(WriteJobs(g), size)
  {
    hide Inside, Cut, Cyclic, Lens;
    if g.Obytes > 0 {
      CutSizes(g, 0, 0, g.logstartaddr, g.outputs, g.Obytes, true);
      JobsCyclic(LWR, Cut(Lens(g, 0, 0), g.logstartaddr, g.outputs, g.Obytes, true), size);
    } else {
      NoneCyclic(size);
    }
  }

  lemma {:induction false} NoneCyclic(size: nat)
    ensures Cyclic([], size)
  {
  }

  lemma {:induction false} BlockedCyclic(g: Group, size: nat)
    requires Mapped(g, false) && g.blockLRW && CycleLength(g, false) > 0 && g.inputs + g.Ibytes <= size
    requires Inside(ReadJobs(g), size) && Inside(WriteJobs(g), size)
    ensures Plan(g, false) != [] && Cyclic(Plan(g, false), size)
  {
    hide Inside, Cut, Cyclic, Lens;
    ReadCyclic(g, size);
    WriteCyclic(g, size);
    CyclicJoin(ReadJobs(g), WriteJobs(g), size);
  }

  /** The datagrams of a cycle without LRW store the answer to reading the inputs, and nothing else. */
  lemma {:induction false} BlockedCollected(g: Group, bus: Bus, map0: seq<byte>, iomap: seq<byte>)
    requires Mapped(g, false) && g.blockLRW && CycleLength(g, false) > 0
    requires |map0| == |iomap| && g.inputs + g.Ibytes <= |iomap|
    ensures Plan(g, false) != [] && Cyclic(Plan(g, false), |iomap|)
    ensures Collected(bus, Plan(g, false), AllGot(|Plan(g, false)|), map0, iomap)
            == Put(iomap, g.inputs, Inserted(bus, g.logstartaddr + g.Obytes, Zeros(g.Ibytes)))
  {
    var rd, wr := ReadJobs(g), WriteJobs(g);
    ReadsCollected(g, bus, map0, iomap);
    WritesInside(g, |iomap|);
    BlockedCyclic(g, |iomap|);
    assert Plan(g, false) == rd + wr;
    AllGotJoin(|rd|, |wr|);
    CollectedJoin(bus, rd, AllGot(|rd|), wr, AllGot(|wr|), map0, iomap);
    WritesStoreNothing(bus, wr, AllGot(|wr|), map0, Collected(bus, rd, AllGot(|rd|), map0, iomap));
  }

  /** A cycle without LRW, whatever its segments and the order its frames come back in: the inputs
      are read as one, everything else in the IO map stays, and the counters are added up. */
  lemma {:induction false} BlockedCycle(g: Group, bus: Bus, sent: seq<Sent>, entries: seq<Entry>, map0: seq<byte>,
                                        time: seq<byte>, replies: Replies, t: Tally, dcl: nat, dcto: nat)
    requires Mapped(g, false) && g.blockLRW && CycleLength(g, false) > 0
    requires AllCarry(sent, entries, Plan(g, false), map0, g.hasdc, g.dcadr, time)
    requires Delivered(bus, sent, entries, replies) && (forall e :: e in entries ==> e.idx in replies)
    requires |time| == |bus.clock| == 8 && |map0| == |t.iomap| && g.inputs + g.Ibytes <= |t.iomap|
    requires t == Tally(t.iomap, 0, false, g.hasdc, time)
    requires g.hasdc ==> entries != [] && dcl == entries[0].length && dcto == EC_HEADERSIZE + 12 + dcl
    requires g.hasdc ==> g.dcadr == bus.station
    ensures Fits(entries, replies, g.hasdc, dcl, |t.iomap|) &&
            (g.hasdc ==> dcl <= EC_MAXLRWDATA && dcto + 8 <= EC_BUFSIZE)
    ensures var t' := Gather(t, entries, replies, dcl, dcto);
            && t'.iomap == Put(t.iomap, g.inputs, Inserted(bus, g.logstartaddr + g.Obytes, Zeros(g.Ibytes)))
            && t'.valid && t'.wkc == Counters(bus, Plan(g, false), AllGot(|Plan(g, false)|))
  {
    BlockedCollected(g, bus, map0, t.iomap);
    CarriedCount(sent, entries, Plan(g, false), map0, g.hasdc, g.dcadr, time);
    AllAnswered(entries, replies);
    hide AllCarry, Delivered, Gather, Collected, Counters, Plan, Mapped, Put, Inserted;
    GatherAll(bus, sent, entries, Plan(g, false), map0, g.hasdc, g.dcadr, time, replies, t, dcl, dcto);
    assert AllGot(|entries|)[0];
  }

  /** The IO map after a cycle with LRW, and after one without. */
  function AfterLrw(g: Group, bus: Bus, map0: seq<byte>, iomap: seq<byte>): (r: seq<byte>)
    requires g.inputs == g.outputs + g.Obytes && g.inputs + g.Ibytes <= |iomap| == |map0|
    ensures |r| == |iomap|
  {
    Put(iomap, Source(g), Inserted(bus, g.logstartaddr, map0[Source(g)..Source(g) + g.Obytes + g.Ibytes]))
  }

  function AfterLrd(g: Group, bus: Bus, iomap: seq<byte>): (r: seq<byte>)
    requires g.inputs + g.Ibytes <= |iomap|
    ensures |r| == |iomap|
  {
    Put(iomap, g.inputs, Inserted(bus, g.logstartaddr + g.Obytes, Zeros(g.Ibytes)))
  }

  lemma {:induction false} InputByte(g: Group, bus: Bus, map0: seq<byte>, iomap: seq<byte>, i: nat)
    requires g.inputs == g.outputs + g.Obytes && g.inputs + g.Ibytes <= |iomap| == |map0|
    requires g.inputs <= i < g.inputs + g.Ibytes
    ensures AfterLrw(g, bus, map0, iomap)[i] == bus.insert(g.logstartaddr + i - g.outputs, map0[i])
    ensures AfterLrd(g, bus, iomap)[i] == bus.insert(g.logstartaddr + i - g.outputs, 0)
  {
    var n, at := g.Obytes + g.Ibytes, Source(g);
    assert map0[at..at + n][i - at] == map0[i] && at + g.Obytes == g.inputs;
    assert g.logstartaddr + (i - at) == g.logstartaddr + i - g.outputs;
  }
}
