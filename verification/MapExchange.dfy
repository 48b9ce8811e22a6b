/** From the mapping to the cycle: after an exchange every slave's inputs are where its pointer says, and
    the outputs sent for it are those at its output pointer. */
module MapExchange {
  import opened Bytes
  import opened Datagram
  import opened Mapping
  import opened Segments
  import opened MapGroup
  import opened MapLayout
  import O = MapOverlap
  import OL = OverlapLayout
  import PD = ProcessData
  import L = LogicalExchange
  import R = ReadWriteExchange

  /** A cycle: the slaves, what was sent, the IO map it was sent from, what came back, and the state of the
      receive side before. */
  datatype Cycle = Cycle(bus: L.Bus, sent: seq<PD.Sent>, entries: seq<PD.Entry>, map0: seq<byte>, time: seq<byte>,
                         replies: PD.Replies, t: PD.Tally, dcl: nat, dcto: nat)

  /** The cycle sends what the group needs. */
  ghost predicate SentFor(c: Cycle, g: PD.Group, overlap: bool) {
    && L.Mapped(g, overlap) && !g.blockLRW && PD.CycleLength(g, overlap) > 0
    && PD.AllCarry(c.sent, c.entries, PD.Plan(g, overlap), c.map0, g.hasdc, g.dcadr, c.time)
    && L.Source(g) + PD.CycleLength(g, overlap) <= |c.map0|
  }

  /** All its frames came back. */
  ghost predicate Done(c: Cycle, g: PD.Group, overlap: bool) {
    && SentFor(c, g, overlap)
    && L.Delivered(c.bus, c.sent, c.entries, c.replies) && (forall e :: e in c.entries ==> e.idx in c.replies)
    && |c.time| == |c.bus.clock| == 8 && |c.map0| == |c.t.iomap|
    && L.Target(g, overlap) + PD.CycleLength(g, overlap) <= |c.t.iomap|
    && c.t == PD.Tally(c.t.iomap, 0, false, g.hasdc, c.time)
    && (g.hasdc ==> c.dcl == c.entries[0].length && c.dcto == EC_HEADERSIZE + 12 + c.dcl && g.dcadr == c.bus.station)
    && Receivable(c)
  }

  predicate Receivable(c: Cycle) {
    && PD.Fits(c.entries, c.replies, c.t.first, c.dcl, |c.t.iomap|)
    && (c.t.first ==> c.dcl <= PD.EC_MAXLRWDATA && c.dcto + 8 <= EC_BUFSIZE)
  }

  /** The IO map after the cycle. */
  function MapAfter(c: Cycle): (m: seq<byte>)
    requires Receivable(c)
    ensures |m| == |c.t.iomap|
  {
    PD.Gather(c.t, c.entries, c.replies, c.dcl, c.dcto).iomap
  }

  // ----- inputs -----

  /** Byte k of the exchange is what the slaves make of logical address logstartaddr + k. */
  lemma {:induction false} ByteExchanged(c: Cycle, g: PD.Group, overlap: bool, k: nat)
    requires Done(c, g, overlap) && k < PD.CycleLength(g, overlap) && L.Source(g) == 0
    ensures L.Target(g, overlap) + k < |c.t.iomap| == |c.map0| && k < |c.map0| && Receivable(c)
    ensures MapAfter(c)[L.Target(g, overlap) + k] == c.bus.insert(g.logstartaddr + k, c.map0[k])
  {
    hide PD.AllCarry, L.Delivered, PD.Gather, PD.Plan, L.Mapped, PD.Fits;
    L.CycleIsOneExchange(g, overlap, c.bus, c.sent, c.entries, c.map0, c.time, c.replies, c.t, c.dcl, c.dcto);
  }

  lemma {:induction false} DoneRoom(c: Cycle, g: PD.Group, overlap: bool)
    requires Done(c, g, overlap)
    ensures Receivable(c) && |c.map0| == |c.t.iomap| && SentFor(c, g, overlap)
  {
  }

  /** A byte of a run, found through the slave's pointer. */
  lemma {:induction false} RunArrives(c: Cycle, g: PD.Group, s: Slave, from: nat, j: nat)
    requires Done(c, g, false) && g.outputs == 0 && g.inputs == g.Obytes
    requires Leads(s, Input, from, 8 * g.logstartaddr) && g.logstartaddr <= from / 8
    requires from / 8 + j < g.logstartaddr + g.Obytes + g.Ibytes
    ensures s.inputs.At? && Receivable(c) && s.inputs.offset + j < |c.map0| == |c.t.iomap|
    ensures MapAfter(c)[s.inputs.offset + j] == c.bus.insert(from / 8 + j, c.map0[s.inputs.offset + j])
  {
    hide Done, Leads, MapAfter, Receivable, PD.Gather;
    LeadsByte(s, Input, from, g.logstartaddr);
    ByteExchanged(c, g, false, s.inputs.offset + j);
    DoneRoom(c, g, false);
  }

  lemma {:induction false} LeadsByte(s: Slave, kind: Kind, from: nat, logstart: nat)
    requires Leads(s, kind, from, 8 * logstart) && logstart <= from / 8
    ensures PointerOf(s, kind).At? && PointerOf(s, kind).offset == from / 8 - logstart
  {
  }

  lemma {:induction false} GroupStart(slaves: seq<Slave>, g: PD.Group, group: nat, slaves': seq<Slave>, g': PD.Group,
                                      oruns: seq<Run>, oend: nat, iruns: seq<Run>, iend: nat)
    requires AllSized(slaves) && |g.IOsegment| == EC_MAXIOSEGMENTS
    requires GroupMapped(slaves, g, group, slaves', g', oruns, oend, iruns, iend)
    ensures g'.outputs == 0 && g'.inputs == g'.Obytes && g'.logstartaddr == g.logstartaddr
  {
    hide LaidOut, After, PackAll, Steps, AnyBlocks, Chosen;
  }

  /** What a reader of the map needs to know of one run. */
  predicate Placed(slaves': seq<Slave>, g: PD.Group, kind: Kind, r: Run) {
    && r.slave < |slaves'| && Leads(slaves'[r.slave], kind, r.from, 8 * g.logstartaddr) && g.logstartaddr <= r.from / 8
    && r.to <= 8 * (g.logstartaddr + g.Obytes + if kind.Input? then g.Ibytes else 0)
  }

  lemma {:induction false} RunsPlaced(slaves: seq<Slave>, g: PD.Group, group: nat, slaves': seq<Slave>, g': PD.Group,
                                      oruns: seq<Run>, oend: nat, iruns: seq<Run>, iend: nat, kind: Kind, i: nat)
    requires AllSized(slaves) && |g.IOsegment| == EC_MAXIOSEGMENTS && Unmapped(slaves)
    requires group == 0 ==> g.logstartaddr == 0
    requires GroupMapped(slaves, g, group, slaves', g', oruns, oend, iruns, iend)
    requires i < |if kind.Output? then oruns else iruns|
    ensures Placed(slaves', g', kind, (if kind.Output? then oruns else iruns)[i])
  {
    hide GroupMapped, AllSized, Unmapped, Leads;
    MapIsPacked(slaves, g, group, slaves', g', oruns, oend, iruns, iend);
    GroupStart(slaves, g, group, slaves', g', oruns, oend, iruns, iend);
    PointersLead(slaves, g, group, slaves', g', oruns, oend, iruns, iend);
  }

  /** Sequential map: byte j of a slave's inputs, counted from its input pointer, is what the exchange
      gives for the logical address the slave's data was mapped to. */
  lemma {:induction false} InputsArrive(slaves: seq<Slave>, g: PD.Group, group: nat, slaves': seq<Slave>,
                                        g': PD.Group, oruns: seq<Run>, oend: nat, iruns: seq<Run>, iend: nat,
                                        c: Cycle, i: nat, j: nat)
    requires AllSized(slaves) && |g.IOsegment| == EC_MAXIOSEGMENTS && Unmapped(slaves)
    requires group == 0 ==> g.logstartaddr == 0
    requires GroupMapped(slaves, g, group, slaves', g', oruns, oend, iruns, iend) && Done(c, g', false)
    requires i < |iruns| && 8 * (iruns[i].from / 8 + j) < iruns[i].to
    ensures iruns[i].slave < |slaves'| && slaves'[iruns[i].slave].inputs.At?
    ensures var off := slaves'[iruns[i].slave].inputs.offset;
            && Receivable(c) && off + j < |c.map0| == |c.t.iomap|
            && MapAfter(c)[off + j] == c.bus.insert(iruns[i].from / 8 + j, c.map0[off + j])
  {
    hide Done, Leads, MapAfter, Receivable, GroupMapped, AllSized, Unmapped;
    RunsPlaced(slaves, g, group, slaves', g', oruns, oend, iruns, iend, Input, i);
    GroupStart(slaves, g, group, slaves', g', oruns, oend, iruns, iend);
    RunArrives(c, g', slaves'[iruns[i].slave], iruns[i].from, j);
  }

  lemma {:induction false} SlotPlaced(slaves: seq<Slave>, g: PD.Group, group: nat, slaves': seq<Slave>, g': PD.Group,
                                      slots: seq<O.Slot>, end: nat, i: nat)
    requires AllSized(slaves) && |g.IOsegment| == EC_MAXIOSEGMENTS && slaves != [] && Unmapped(slaves)
    requires group == 0 ==> g.logstartaddr == 0
    requires O.OverlapMapped(slaves, g, group, slaves', g', slots, end)
    requires i < |slots| && slots[i].slave < |slaves|
    ensures slots[i].slave < |slaves'| && g'.logstartaddr <= slots[i].start
    ensures var s, s', off := slaves[slots[i].slave], slaves'[slots[i].slave], slots[i].start - g'.logstartaddr;
            && (s.Obits > 0 ==> s'.outputs == At(off)) && (s.Ibits > 0 ==> s'.inputs == At(off + g'.Obytes))
    ensures slots[i].oend <= g'.logstartaddr + g'.Obytes && slots[i].iend <= g'.logstartaddr + g'.Ibytes
  {
    hide O.OverlapMapped, AllSized, Unmapped, O.Fills;
    OL.OverlapIsPacked(slaves, g, group, slaves', g', slots, end);
    O.WhatOverlapBlocks(slaves, g, group, slaves', g', slots, end);
    OL.OverlapPointers(slaves, g, group, slaves', g', slots, end, i);
  }

  lemma {:induction false} SlotArrives(c: Cycle, g: PD.Group, in_: nat, k: nat)
    requires Done(c, g, true) && g.outputs == 0 && g.inputs == g.Obytes && k < PD.CycleLength(g, true) &&
             in_ == g.Obytes + k
    ensures Receivable(c) && in_ < |c.t.iomap| == |c.map0| && k < |c.map0|
    ensures MapAfter(c)[in_] == c.bus.insert(g.logstartaddr + k, c.map0[k])
  {
    hide Done, MapAfter, Receivable;
    ByteExchanged(c, g, true, k);
    DoneRoom(c, g, true);
  }

  lemma {:induction false} OverlapStart(slaves: seq<Slave>, g: PD.Group, group: nat, slaves': seq<Slave>,
                                        g': PD.Group, slots: seq<O.Slot>, end: nat)
    requires AllSized(slaves) && |g.IOsegment| == EC_MAXIOSEGMENTS && slaves != []
    requires O.OverlapMapped(slaves, g, group, slaves', g', slots, end)
    ensures g'.outputs == 0 && g'.inputs == g'.Obytes && g'.logstartaddr == g.logstartaddr
  {
    hide O.Slotted, O.AfterSlots, PackAll, AnyBlocks, O.Members, O.SlotSteps;
  }

  /** Overlapped map: the same, though what is sent for these addresses lies elsewhere, where the slave's
      outputs are. */
  lemma {:induction false} OverlapInputsArrive(slaves: seq<Slave>, g: PD.Group, group: nat, slaves': seq<Slave>,
                                               g': PD.Group, slots: seq<O.Slot>, end: nat, c: Cycle, i: nat, j: nat)
    requires AllSized(slaves) && |g.IOsegment| == EC_MAXIOSEGMENTS && slaves != [] && Unmapped(slaves)
    requires group == 0 ==> g.logstartaddr == 0
    requires O.OverlapMapped(slaves, g, group, slaves', g', slots, end) && Done(c, g', true)
    requires i < |slots| && slots[i].slave < |slaves| && slaves[slots[i].slave].Ibits > 0
    requires slots[i].start + j < slots[i].iend
    ensures slots[i].slave < |slaves'| && slaves'[slots[i].slave].inputs.At? && g'.logstartaddr <= slots[i].start
    ensures var in_, out_ := slaves'[slots[i].slave].inputs.offset, slots[i].start - g'.logstartaddr;
            && Receivable(c) && in_ + j < |c.t.iomap| && out_ + j < |c.map0|
            && MapAfter(c)[in_ + j] == c.bus.insert(slots[i].start + j, c.map0[out_ + j])
  {
    hide Done, MapAfter, Receivable, O.OverlapMapped, AllSized, Unmapped;
    SlotPlaced(slaves, g, group, slaves', g', slots, end, i);
    OverlapStart(slaves, g, group, slaves', g', slots, end);
    var k := slots[i].start - g'.logstartaddr + j;
    SlotArrives(c, g', g'.Obytes + k, k);
  }

  // ----- outputs -----

  /** The first datagram of the frame is an LRW, or LWR, that carries the byte for the logical address. */
  predicate CarriesByte(s: PD.Sent, com: byte, addr: nat, b: byte) {
    var r := Walk(s.bytes, ETH_HEADERSIZE + EC_ELENGTHSIZE);
    && r.Read? && r.ds != [] && r.ds[0].command == com
    && var start := r.ds[0].adp + 0x1_0000 * r.ds[0].ado;
       start <= addr < start + |r.ds[0].data| && r.ds[0].data[addr - start] == b
  }

  /** Each byte of a tiling lies in one of its parts. */
  lemma {:induction false} PartOf(parts: seq<PD.Part>, addr: nat, off: nat, total: nat, k: nat) returns (n: nat)
    requires L.Tiles(parts, addr, off, total) && k < total
    ensures n < |parts| && parts[n].addr - addr == parts[n].off - off <= k < parts[n].off - off + parts[n].len
    ensures addr <= parts[n].addr && off <= parts[n].off
    decreases |parts|
  {
    var len := parts[0].len;
    if k < len {
      n := 0;
    } else {
      var m := PartOf(parts[1..], addr + len, off + len, total - len, k - len);
      n := m + 1;
    }
  }

  lemma {:induction false} FrameCarries(s: PD.Sent, e: PD.Entry, job: PD.Job, map0: seq<byte>, dc: bool,
                                        dcadr: uint16, time: seq<byte>, k: nat)
    requires PD.Carries(s, e, job, map0, dc, dcadr, time) && job.com in {LWR, LRW} && k < job.part.len
    ensures job.part.off + k < |map0| && CarriesByte(s, job.com, job.part.addr + k, map0[job.part.off + k])
  {
    hide Layout, Walk;
    var ds := PD.Datagrams(job, s.idx, map0, dc, dcadr, time);
    WalkInverts(s.bytes, ETH_HEADERSIZE + EC_ELENGTHSIZE, ds, PD.Follows(dc));
  }

  lemma {:induction false} MappedSegmented(g: PD.Group, overlap: bool)
    requires L.Mapped(g, overlap)
    ensures PD.Segmented(g)
  {
  }

  /** Every byte to be sent is in some frame, under its logical address. */
  lemma {:induction false} ByteSent(c: Cycle, g: PD.Group, overlap: bool, k: nat)
    requires SentFor(c, g, overlap) && k < PD.CycleLength(g, overlap)
    ensures L.Source(g) + k < |c.map0|
    ensures exists n :: 0 <= n < |c.sent| && CarriesByte(c.sent[n], LRW, g.logstartaddr + k, c.map0[L.Source(g) + k])
  {
    hide PD.Plan, L.Tiles, L.Mapped, CarriesByte;
    var parts, shift := L.PlanTiles(g, overlap);
    MappedSegmented(g, overlap);
    var n := PartOf(parts, g.logstartaddr, L.Source(g), PD.CycleLength(g, overlap), k);
    var p := parts[n];
    assert PD.Carries(c.sent[n], c.entries[n], PD.Plan(g, overlap)[n], c.map0, g.hasdc && n == 0, g.dcadr, c.time);
    FrameCarries(c.sent[n], c.entries[n], PD.Plan(g, overlap)[n], c.map0, g.hasdc && n == 0, g.dcadr, c.time,
                 g.logstartaddr + k - p.addr);
  }

  /** Sequential map: byte j of a slave's outputs, counted from its output pointer, goes out in some frame
      for the logical address the slave's data was mapped to. */
  lemma {:induction false} OutputsSent(slaves: seq<Slave>, g: PD.Group, group: nat, slaves': seq<Slave>, g': PD.Group,
                                       oruns: seq<Run>, oend: nat, iruns: seq<Run>, iend: nat, c: Cycle, i: nat,
                                       j: nat)
    requires AllSized(slaves) && |g.IOsegment| == EC_MAXIOSEGMENTS && Unmapped(slaves)
    requires group == 0 ==> g.logstartaddr == 0
    requires GroupMapped(slaves, g, group, slaves', g', oruns, oend, iruns, iend) && SentFor(c, g', false)
    requires i < |oruns| && 8 * (oruns[i].from / 8 + j) < oruns[i].to
    ensures oruns[i].slave < |slaves'| && slaves'[oruns[i].slave].outputs.At?
    ensures var off := slaves'[oruns[i].slave].outputs.offset;
            && off + j < |c.map0|
            && exists n :: 0 <= n < |c.sent| && CarriesByte(c.sent[n], LRW, oruns[i].from / 8 + j, c.map0[off + j])
  {
    hide SentFor, Leads, CarriesByte, GroupMapped, AllSized, Unmapped;
    RunsPlaced(slaves, g, group, slaves', g', oruns, oend, iruns, iend, Output, i);
    GroupStart(slaves, g, group, slaves', g', oruns, oend, iruns, iend);
    RunSent(c, g', slaves'[oruns[i].slave], oruns[i].from, j);
  }

  lemma {:induction false} RunSent(c: Cycle, g: PD.Group, s: Slave, from: nat, j: nat)
    requires SentFor(c, g, false) && g.outputs == 0 && g.inputs == g.Obytes
    requires Leads(s, Output, from, 8 * g.logstartaddr) && g.logstartaddr <= from / 8
    requires from / 8 + j < g.logstartaddr + g.Obytes
    ensures s.outputs.At? && s.outputs.offset + j < |c.map0|
    ensures exists n :: 0 <= n < |c.sent| && CarriesByte(c.sent[n], LRW, from / 8 + j, c.map0[s.outputs.offset + j])
  {
    hide SentFor, Leads, CarriesByte;
    LeadsByte(s, Output, from, g.logstartaddr);
    ByteSent(c, g, false, s.outputs.offset + j);
  }

  /** Overlapped map: the same. */
  lemma {:induction false} OverlapOutputsSent(slaves: seq<Slave>, g: PD.Group, group: nat, slaves': seq<Slave>,
                                              g': PD.Group, slots: seq<O.Slot>, end: nat, c: Cycle, i: nat, j: nat)
    requires AllSized(slaves) && |g.IOsegment| == EC_MAXIOSEGMENTS && slaves != [] && Unmapped(slaves)
    requires group == 0 ==> g.logstartaddr == 0
    requires O.OverlapMapped(slaves, g, group, slaves', g', slots, end) && SentFor(c, g', true)
    requires i < |slots| && slots[i].slave < |slaves| && slaves[slots[i].slave].Obits > 0
    requires slots[i].start + j < slots[i].oend
    ensures slots[i].slave < |slaves'| && slaves'[slots[i].slave].outputs.At?
    ensures var off := slaves'[slots[i].slave].outputs.offset;
            && off + j < |c.map0|
            && exists n :: 0 <= n < |c.sent| && CarriesByte(c.sent[n], LRW, slots[i].start + j, c.map0[off + j])
  {
    hide SentFor, CarriesByte, O.OverlapMapped, AllSized, Unmapped;
    SlotPlaced(slaves, g, group, slaves', g', slots, end, i);
    OverlapStart(slaves, g, group, slaves', g', slots, end);
    ByteSent(c, g', true, slots[i].start - g'.logstartaddr + j);
  }

  // ----- where LRW is blocked -----

  /** The cycle sends what the group needs, as LRD and LWR. */
  ghost predicate SentBlocked(c: Cycle, g: PD.Group) {
    && L.Mapped(g, false) && g.blockLRW && PD.CycleLength(g, false) > 0
    && PD.AllCarry(c.sent, c.entries, PD.Plan(g, false), c.map0, g.hasdc, g.dcadr, c.time)
  }

  ghost predicate DoneBlocked(c: Cycle, g: PD.Group) {
    && SentBlocked(c, g)
    && L.Delivered(c.bus, c.sent, c.entries, c.replies) && (forall e :: e in c.entries ==> e.idx in c.replies)
    && |c.time| == |c.bus.clock| == 8 && |c.map0| == |c.t.iomap| && g.inputs + g.Ibytes <= |c.t.iomap|
    && c.t == PD.Tally(c.t.iomap, 0, false, g.hasdc, c.time)
    && (g.hasdc ==> c.entries != [] && c.dcl == c.entries[0].length && c.dcto == EC_HEADERSIZE + 12 + c.dcl &&
                    g.dcadr == c.bus.station)
    && Receivable(c)
  }

  lemma {:induction false} ByteRead(c: Cycle, g: PD.Group, k: nat)
    requires DoneBlocked(c, g) && k < g.Ibytes
    ensures Receivable(c) && g.inputs + k < |c.t.iomap|
    ensures MapAfter(c)[g.inputs + k] == c.bus.insert(g.logstartaddr + g.Obytes + k, 0)
  {
    hide PD.AllCarry, L.Delivered, PD.Gather, PD.Plan, L.Mapped, PD.Fits;
    R.BlockedCycle(g, c.bus, c.sent, c.entries, c.map0, c.time, c.replies, c.t, c.dcl, c.dcto);
    assert L.Inserted(c.bus, g.logstartaddr + g.Obytes, Zeros(g.Ibytes))[k]
        == c.bus.insert(g.logstartaddr + g.Obytes + k, 0);
  }

  /** Where LRW is blocked, byte j of a slave's inputs is what the slaves give for its logical address, whatever was
      in the IO map. */
  lemma {:induction false} BlockedInputsArrive(slaves: seq<Slave>, g: PD.Group, group: nat, slaves': seq<Slave>,
                                               g': PD.Group, oruns: seq<Run>, oend: nat, iruns: seq<Run>, iend: nat,
                                               c: Cycle, i: nat, j: nat)
    requires AllSized(slaves) && |g.IOsegment| == EC_MAXIOSEGMENTS && Unmapped(slaves)
    requires group == 0 ==> g.logstartaddr == 0
    requires GroupMapped(slaves, g, group, slaves', g', oruns, oend, iruns, iend) && DoneBlocked(c, g')
    requires i < |iruns| && 8 * (iruns[i].from / 8 + j) < iruns[i].to
    ensures iruns[i].slave < |slaves'| && slaves'[iruns[i].slave].inputs.At?
    ensures var off := slaves'[iruns[i].slave].inputs.offset;
            Receivable(c) && off + j < |c.t.iomap| && MapAfter(c)[off + j] == c.bus.insert(iruns[i].from / 8 + j, 0)
  {
    hide DoneBlocked, Leads, MapAfter, Receivable, GroupMapped, AllSized, Unmapped;
    RunsPlaced(slaves, g, group, slaves', g', oruns, oend, iruns, iend, Input, i);
    GroupStart(slaves, g, group, slaves', g', oruns, oend, iruns, iend);
    MapIsPacked(slaves, g, group, slaves', g', oruns, oend, iruns, iend);
    LeadsByte(slaves'[iruns[i].slave], Input, iruns[i].from, g'.logstartaddr);
    ByteRead(c, g', iruns[i].from / 8 + j - g'.logstartaddr - g'.Obytes);
  }

  lemma {:induction false} ByteWritten(c: Cycle, g: PD.Group, k: nat)
    requires SentBlocked(c, g) && k < g.Obytes
    ensures g.outputs + k < |c.map0|
    ensures exists n :: 0 <= n < |c.sent| && CarriesByte(c.sent[n], LWR, g.logstartaddr + k, c.map0[g.outputs + k])
  {
    hide L.Tiles, CarriesByte;
    MappedSegmented(g, false);
    var parts := R.WriteTiles(g);
    var m := PartOf(parts, g.logstartaddr, g.outputs, g.Obytes, k);
    var n := |PD.ReadJobs(g)| + m;
    assert PD.Plan(g, false)[n] == PD.Job(LWR, parts[m], 0);
    assert PD.Carries(c.sent[n], c.entries[n], PD.Plan(g, false)[n], c.map0, g.hasdc && n == 0, g.dcadr, c.time);
    FrameCarries(c.sent[n], c.entries[n], PD.Plan(g, false)[n], c.map0, g.hasdc && n == 0, g.dcadr, c.time,
                 g.logstartaddr + k - parts[m].addr);
  }

  /** And its outputs go out in an LWR under their logical address. */
  lemma {:induction false} BlockedOutputsSent(slaves: seq<Slave>, g: PD.Group, group: nat, slaves': seq<Slave>,
                                              g': PD.Group, oruns: seq<Run>, oend: nat, iruns: seq<Run>, iend: nat,
                                              c: Cycle, i: nat, j: nat)
    requires AllSized(slaves) && |g.IOsegment| == EC_MAXIOSEGMENTS && Unmapped(slaves)
    requires group == 0 ==> g.logstartaddr == 0
    requires GroupMapped(slaves, g, group, slaves', g', oruns, oend, iruns, iend) && SentBlocked(c, g')
    requires i < |oruns| && 8 * (oruns[i].from / 8 + j) < oruns[i].to
    ensures oruns[i].slave < |slaves'| && slaves'[oruns[i].slave].outputs.At?
    ensures var off := slaves'[oruns[i].slave].outputs.offset;
            && off + j < |c.map0|
            && exists n :: 0 <= n < |c.sent| && CarriesByte(c.sent[n], LWR, oruns[i].from / 8 + j, c.map0[off + j])
  {
    hide SentBlocked, Leads, CarriesByte, GroupMapped, AllSized, Unmapped;
    RunsPlaced(slaves, g, group, slaves', g', oruns, oend, iruns, iend, Output, i);
    GroupStart(slaves, g, group, slaves', g', oruns, oend, iruns, iend);
    LeadsByte(slaves'[oruns[i].slave], Output, oruns[i].from, g'.logstartaddr);
    ByteWritten(c, g', oruns[i].from / 8 + j - g'.logstartaddr);
  }
}
