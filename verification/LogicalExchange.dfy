/** The segmented exchange of process data is one exchange with logical memory.

    The slaves are any function on logical memory: what they insert into the byte at an address, and
    how far they count up the working counter of a datagram. */
module LogicalExchange {
  import opened Bytes
  import opened Datagram
  import opened FrameIndex
  import opened ProcessData

  /** `insert(a, b)`: what a passing read or read-write datagram carries on for the byte at address a
      when it came in with b there.  `count(com, a, n)`: the working counter of a datagram over the
      n bytes from address a on.  `clock`: the system time of the slave with the reference clock, `station`: its
      station address. */
  datatype Bus = Bus(insert: (nat, byte) -> byte, count: (byte, nat, nat) -> uint16, clock: seq<byte>, station: uint16)

  /** The bytes of a run of logical memory after a read or read-write datagram passed. */
  function Inserted(bus: Bus, addr: nat, data: seq<byte>): (r: seq<byte>)
    ensures |r| == |data|
    ensures forall i :: 0 <= i < |data| ==> r[i] == bus.insert(addr + i, data[i])
  {
    seq(|data|, i requires 0 <= i < |data| => bus.insert(addr + i, data[i]))
  }

  /** What a datagram sent with `data` brings back. */
  function Returned(bus: Bus, com: byte, addr: nat, data: seq<byte>): (r: seq<byte>)
    ensures |r| == |data|
  {
    if com in {LRD, LRW} then Inserted(bus, addr, Payload(com, data)) else Payload(com, data)
  }

  function Address(d: Dgram): nat { d.adp + 0x1_0000 * d.ado }

  /** A datagram after it passed all slaves.  Only the slave with the reference clock answers to its station address,
      and only its register 0x0910 is its system time. */
  function Answer(bus: Bus, d: Dgram): (a: Dgram)
    ensures |a.data| == |d.data|
  {
    if d.command in {LRD, LRW} then
      d.(data := Inserted(bus, Address(d), d.data), wkc := bus.count(d.command, Address(d), |d.data|))
    else if d.command == LWR then d.(wkc := bus.count(d.command, Address(d), |d.data|))
    else if d.command == FRMW && d.adp == bus.station && d.ado == 0x0910 && |bus.clock| == |d.data| then
      d.(data := bus.clock)
    else d
  }

  function Answers(bus: Bus, ds: seq<Dgram>): (r: seq<Dgram>)
    ensures |r| == |ds| && forall k :: 0 <= k < |ds| ==> r[k] == Answer(bus, ds[k])
  {
    seq(|ds|, k requires 0 <= k < |ds| => Answer(bus, ds[k]))
  }

  /** What was received is the sent frame after it passed all slaves. */
  ghost predicate Answered(bus: Bus, sent: Sent, r: Received) {
    && (forall ds, follows :: Frame(sent.bytes, ETH_HEADERSIZE, ds, follows) ==>
        Frame(r.buf, 0, Answers(bus, ds), follows))
    && |r.buf| == EC_BUFSIZE && WordAt(r.buf, 0) % 0x1000 + 2 <= |r.buf| && r.wkc == ReadWkc(r.buf)
  }

  /** Every frame that came back is the answer to the frame sent under its index; the others are lost. */
  ghost predicate Delivered(bus: Bus, sent: seq<Sent>, entries: seq<Entry>, replies: Replies)
    requires |sent| == |entries|
  {
    forall k :: 0 <= k < |sent| && entries[k].idx in replies ==> Answered(bus, sent[k], replies[entries[k].idx])
  }

  // ----- one frame -----

  function Counted(bus: Bus, job: Job): nat {
    bus.count(job.com, job.part.addr, job.part.len) * if job.com == LWR then 2 else 1
  }

  /** The IO map after the answer to a job was stored; `sent` is the map it was sent from. */
  function Stored(bus: Bus, job: Job, sent: seq<byte>, iomap: seq<byte>): (r: seq<byte>)
    requires job.part.off + job.part.len <= |sent| && job.part.off + job.shift + job.part.len <= |iomap|
    ensures |r| == |iomap|
  {
    if job.com == LWR then iomap
    else Put(iomap, job.part.off + job.shift,
             Returned(bus, job.com, job.part.addr, sent[job.part.off..job.part.off + job.part.len]))
  }

  /** The answer frame of a job, as the receive loop reads it. */
  lemma {:induction false} AnswerFrame(bus: Bus, sent: Sent, e: Entry, job: Job, iomap: seq<byte>, dc: bool,
                                       dcadr: uint16, time: seq<byte>, r: Received)
    requires Carries(sent, e, job, iomap, dc, dcadr, time) && Answered(bus, sent, r)
    requires |time| == |bus.clock| == 8 && job.com in {LRD, LWR, LRW} && e.length <= EC_MAXLRWDATA - EC_FIRSTDCDATAGRAM
    requires dc ==> dcadr == bus.station
    ensures r.buf[2] == job.com && r.wkc > EC_NOFRAME
    ensures r.buf[EC_HEADERSIZE..][..e.length] ==
              Returned(bus, job.com, job.part.addr, iomap[job.part.off..job.part.off + job.part.len])
    ensures WordAt(r.buf, EC_HEADERSIZE + e.length) == bus.count(job.com, job.part.addr, job.part.len)
    ensures !dc ==> r.wkc == bus.count(job.com, job.part.addr, job.part.len)
    ensures dc ==> r.buf[EC_HEADERSIZE + 12 + e.length..][..8] == bus.clock
  {
    var ds := Datagrams(job, sent.idx, iomap, dc, dcadr, time);
    var as_ := Answers(bus, ds);
    assert Frame(r.buf, 0, as_, Follows(dc));
    assert r.buf[2] == as_[0].command;
    hide Frame, Layout, Holds;
    FrameSize(job, sent.idx, iomap, dc, dcadr, time);
    SameSize(bus, ds);
    assert as_[..0] == [];
    DataSlot(r.buf, as_, Follows(dc), 0);
    WkcSlot(r.buf, as_, Follows(dc));
    assert Address(ds[0]) == job.part.addr;
    if dc {
      DataSlot(r.buf, as_, Follows(dc), 1);
      assert as_[..1] == [as_[0]] && [as_[0]][1..] == [];
      assert TotalSize(as_[..1]) == 12 + e.length;
    }
  }

  lemma {:induction false} SameSize(bus: Bus, ds: seq<Dgram>)
    ensures TotalSize(Answers(bus, ds)) == TotalSize(ds)
    decreases |ds|
  {
    if ds != [] {
      assert Answers(bus, ds)[1..] == Answers(bus, ds[1..]);
      SameSize(bus, ds[1..]);
    }
  }

  // ----- all frames of a cycle -----

  /** Which entries got an answer. */
  function Got(entries: seq<Entry>, replies: Replies): (got: seq<bool>)
    ensures |got| == |entries|
  {
    seq(|entries|, k requires 0 <= k < |entries| => entries[k].idx in replies)
  }

  predicate Inside(jobs: seq<Job>, size: nat) {
    forall k :: 0 <= k < |jobs| ==>
      jobs[k].part.off + jobs[k].part.len <= size && jobs[k].part.off + jobs[k].shift + jobs[k].part.len <= size
  }

  /** The IO map after the answers that came were stored one after the other. */
  function Collected(bus: Bus, jobs: seq<Job>, got: seq<bool>, sent: seq<byte>, iomap: seq<byte>): (r: seq<byte>)
    requires |jobs| == |got| && |sent| == |iomap| && Inside(jobs, |iomap|)
    ensures |r| == |iomap|
    decreases |jobs|
  {
    if jobs == [] then iomap
    else Collected(bus, jobs[1..], got[1..], sent, if got[0] then Stored(bus, jobs[0], sent, iomap) else iomap)
  }

  /** The sum of the working counters that came; outputs count twice when written by LWR. */
  function Counters(bus: Bus, jobs: seq<Job>, got: seq<bool>): nat
    requires |jobs| == |got|
    decreases |jobs|
  {
    if jobs == [] then 0 else (if got[0] then Counted(bus, jobs[0]) else 0) + Counters(bus, jobs[1..], got[1..])
  }

  /** The jobs are process data, and frames stay within bounds. */
  predicate Cyclic(jobs: seq<Job>, size: nat) {
    && Inside(jobs, size)
    && forall k :: 0 <= k < |jobs| ==>
         jobs[k].com in {LRD, LWR, LRW} && jobs[k].part.len <= EC_MAXLRWDATA - EC_FIRSTDCDATAGRAM
  }

  /** One entry of the receive loop. */
  lemma {:induction false} GatherJob(bus: Bus, sent: Sent, e: Entry, job: Job, iomap: seq<byte>, dc: bool,
                                     dcadr: uint16, time: seq<byte>, replies: Replies, t: Tally, dcl: nat, dcto: nat)
    requires Carries(sent, e, job, iomap, dc, dcadr, time) && e.idx in replies && Answered(bus, sent, replies[e.idx])
    requires |time| == |bus.clock| == 8 && Cyclic([job], |t.iomap|) && |iomap| == |t.iomap|
    requires dc ==> dcadr == bus.station
    requires t.first == dc && (dc ==> t.wkc == 0 && dcl == e.length && dcto == EC_HEADERSIZE + 12 + e.length)
    ensures Fits([e], replies, t.first, dcl, |t.iomap|) && Arrived(e, replies)
    ensures GatherOne(t, e, replies, dcl, dcto) ==
            Tally(Stored(bus, job, iomap, t.iomap), t.wkc + Counted(bus, job), true, false,
                  if dc then bus.clock else t.time)
  {
    assert [job][0] == job;
    var rx := replies[e.idx].buf;
    AnswerFrame(bus, sent, e, job, iomap, dc, dcadr, time, replies[e.idx]);
    if dc {
      assert rx[dcto..dcto + 8] == rx[dcto..][..8];
    }
    assert Fits([e][1..], replies, false, dcl, |t.iomap|);
  }

  lemma {:induction false} CarryRest(sent: seq<Sent>, entries: seq<Entry>, jobs: seq<Job>, iomap: seq<byte>,
                                     first: bool, dcadr: uint16, time: seq<byte>)
    requires jobs != [] && AllCarry(sent, entries, jobs, iomap, first, dcadr, time)
    ensures Carries(sent[0], entries[0], jobs[0], iomap, first, dcadr, time)
    ensures AllCarry(sent[1..], entries[1..], jobs[1..], iomap, false, dcadr, time)
  {
    hide Carries;
    forall k | 0 <= k < |sent[1..]|
      ensures Carries(sent[1..][k], entries[1..][k], jobs[1..][k], iomap, false, dcadr, time)
    {
      assert Carries(sent[k + 1], entries[k + 1], jobs[k + 1], iomap, first && k + 1 == 0, dcadr, time);
    }
  }

  /** The tally of a cycle, whichever frames came back: what was collected, the sum of the counters,
      and whether anything came. */
  ghost predicate Tallied(t: Tally, t': Tally, bus: Bus, jobs: seq<Job>, got: seq<bool>, iomap: seq<byte>)
    requires |jobs| == |got| && |iomap| == |t.iomap| && Inside(jobs, |t.iomap|)
  {
    && t'.iomap == Collected(bus, jobs, got, iomap, t.iomap)
    && t'.wkc == t.wkc + Counters(bus, jobs, got)
    && (t'.valid <==> t.valid || true in got)
  }

  lemma {:induction false} NothingTallied(t: Tally, bus: Bus, jobs: seq<Job>, got: seq<bool>, iomap: seq<byte>)
    requires jobs == [] && got == [] && |iomap| == |t.iomap|
    ensures Tallied(t, t, bus, jobs, got, iomap)
  {
  }

  lemma {:induction false} TalliedOn(t: Tally, t1: Tally, t': Tally, bus: Bus, jobs: seq<Job>, got: seq<bool>,
                                     iomap: seq<byte>)
    requires jobs != [] && |jobs| == |got| && |iomap| == |t.iomap| && Inside(jobs, |t.iomap|)
    requires t1.iomap == (if got[0] then Stored(bus, jobs[0], iomap, t.iomap) else t.iomap)
    requires t1.wkc == t.wkc + (if got[0] then Counted(bus, jobs[0]) else 0)
    requires t1.valid == (t.valid || got[0])
    requires Tallied(t1, t', bus, jobs[1..], got[1..], iomap)
    ensures Tallied(t, t', bus, jobs, got, iomap)
  {
    assert got == [got[0]] + got[1..];
  }

  /** The receive loop stores exactly the answers that came, and adds up their counters.  With the
      reference clock in the first frame this needs the first frame to have come back. */
  lemma {:induction false} GatherAll(bus: Bus, sent: seq<Sent>, entries: seq<Entry>, jobs: seq<Job>, iomap: seq<byte>,
                                     first: bool, dcadr: uint16, time: seq<byte>, replies: Replies, t: Tally,
                                     dcl: nat, dcto: nat)
    requires AllCarry(sent, entries, jobs, iomap, first, dcadr, time) && Delivered(bus, sent, entries, replies)
    requires |time| == |bus.clock| == 8 && Cyclic(jobs, |t.iomap|) && |iomap| == |t.iomap|
    requires t.first == first && (first ==> dcadr == bus.station)
    requires first ==> jobs != [] && entries[0].idx in replies && t.wkc == 0 &&
                       dcl == entries[0].length && dcto == EC_HEADERSIZE + 12 + dcl
    ensures first ==> dcl <= EC_MAXLRWDATA && dcto + 8 <= EC_BUFSIZE
    ensures Fits(entries, replies, first, dcl, |t.iomap|)
    ensures Tallied(t, Gather(t, entries, replies, dcl, dcto), bus, jobs, Got(entries, replies), iomap)
    ensures Gather(t, entries, replies, dcl, dcto).time == if first then bus.clock else t.time
    decreases |jobs|
  {
    hide Carries, Answered, Stored, GatherOne, Tallied;
    if jobs == [] {
      NothingTallied(t, bus, jobs, Got(entries, replies), iomap);
    } else {
      CarryRest(sent, entries, jobs, iomap, first, dcadr, time);
      var got := Got(entries, replies);
      assert got[1..] == Got(entries[1..], replies) && got == [got[0]] + got[1..];
      var t1 := t;
      if entries[0].idx in replies {
        assert Cyclic([jobs[0]], |t.iomap|);
        CarriedEntry(sent[0], entries[0], jobs[0], iomap, first, dcadr, time);
        GatherJob(bus, sent[0], entries[0], jobs[0], iomap, first, dcadr, time, replies, t, dcl, dcto);
        t1 := GatherOne(t, entries[0], replies, dcl, dcto);
      } else {
        Unanswered(t, entries[0], entries, jobs, replies, dcl, dcto, iomap, sent[0], first, dcadr, time);
      }
      GatherAll(bus, sent[1..], entries[1..], jobs[1..], iomap, false, dcadr, time, replies, t1, dcl, dcto);
      TalliedOn(t, t1, Gather(t, entries, replies, dcl, dcto), bus, jobs, got, iomap);
    }
  }

  lemma {:induction false} CarriedEntry(sent: Sent, e: Entry, job: Job, iomap: seq<byte>, dc: bool, dcadr: uint16,
                                        time: seq<byte>)
    requires Carries(sent, e, job, iomap, dc, dcadr, time)
    ensures e == Entry(sent.idx, job.part.off + job.shift, job.part.len)
  {
  }

  lemma {:induction false} Unanswered(t: Tally, e: Entry, entries: seq<Entry>, jobs: seq<Job>, replies: Replies,
                                      dcl: nat, dcto: nat, iomap: seq<byte>, sent: Sent, dc: bool, dcadr: uint16,
                                      time: seq<byte>)
    requires jobs != [] && Carries(sent, e, jobs[0], iomap, dc, dcadr, time) && Cyclic(jobs, |t.iomap|)
    requires e.idx !in replies && !t.first
    ensures Fits([e], replies, t.first, dcl, |t.iomap|) && !Arrived(e, replies)
    ensures GatherOne(t, e, replies, dcl, dcto) == t
  {
    assert Fits([e][1..], replies, t.first, dcl, |t.iomap|);
  }

  // ----- a cycle with LRW is one exchange -----

  lemma {:induction false} SumSplit(s: seq<nat>, k: nat)
    requires k <= |s|
    ensures Sum(s) == Sum(s[..k]) + Sum(s[k..])
    decreases k
  {
    if k > 0 {
      assert s[..k][1..] == s[1..][..k - 1] && s[1..][k - 1..] == s[k..];
      SumSplit(s[1..], k - 1);
    } else {
      assert s[..0] == [] && s[0..] == s;
    }
  }

  /** The parts follow each other in logical memory and in the IO map, and make up `total` bytes. */
  predicate Tiles(parts: seq<Part>, addr: nat, off: nat, total: nat) {
    if parts == [] then total == 0
    else parts[0].addr == addr && parts[0].off == off && parts[0].len <= total &&
         Tiles(parts[1..], addr + parts[0].len, off + parts[0].len, total - parts[0].len)
  }

  /** A segment loop whose lengths make up what there is to send sends exactly that. */
  lemma {:induction false} CutTiles(lens: seq<nat>, addr: nat, off: nat, rest: nat, clip: bool)
    requires |lens| >= 1 && (if clip then Sum(lens) >= rest else Sum(lens) == rest)
    ensures Tiles(Cut(lens, addr, off, rest, clip), addr, off, rest)
    decreases |lens|
  {
    var len := if clip && rest < lens[0] then rest else lens[0];
    if rest - len != 0 && |lens| > 1 {
      CutTiles(lens[1..], addr + len, off + len, rest - len, clip);
      assert Cut(lens, addr, off, rest, clip)[1..] == Cut(lens[1..], addr + len, off + len, rest - len, clip);
    } else {
      assert |lens| == 1 ==> Sum(lens[1..]) == 0;
      assert Cut(lens, addr, off, rest, clip)[1..] == [];
    }
  }

  function AllGot(n: nat): seq<bool> { seq(n, _ => true) }

  lemma {:induction false} TilesInside(com: byte, parts: seq<Part>, shift: nat, addr: nat, off: nat, total: nat,
                                       size: nat)
    requires Tiles(parts, addr, off, total) && off + total <= size && off + shift + total <= size
    ensures Inside(Jobs(com, parts, shift), size)
    decreases |parts|
  {
    if parts != [] {
      var jobs := Jobs(com, parts, shift);
      TilesInside(com, parts[1..], shift, addr + parts[0].len, off + parts[0].len, total - parts[0].len, size);
      assert jobs[1..] == Jobs(com, parts[1..], shift);
      InsideRest(jobs, size);
    }
  }

  /** Storing the answers of a tiling one by one stores the answer to all of it at once. */
  lemma {:induction false} CollectedAtOnce(bus: Bus, com: byte, parts: seq<Part>, shift: nat, addr: nat, off: nat,
                                           total: nat, sent: seq<byte>, iomap: seq<byte>)
    requires com in {LRD, LRW} && Tiles(parts, addr, off, total)
    requires |sent| == |iomap| && off + total <= |iomap| && off + shift + total <= |iomap|
    requires Inside(Jobs(com, parts, shift), |iomap|)
    ensures Collected(bus, Jobs(com, parts, shift), AllGot(|parts|), sent, iomap)
            == Put(iomap, off + shift, Returned(bus, com, addr, sent[off..off + total]))
    decreases |parts|
  {
    hide Returned, Put, Stored;
    var jobs := Jobs(com, parts, shift);
    if parts == [] {
      PutNothing(bus, com, addr, sent[off..off + total], iomap, off + shift);
    } else {
      var len := parts[0].len;
      var mid, end := off + len, off + total;
      var iomap1 := Stored(bus, jobs[0], sent, iomap);
      FirstStored(bus, com, parts[0], shift, sent, iomap);
      assert jobs[1..] == Jobs(com, parts[1..], shift) && AllGot(|parts|)[1..] == AllGot(|parts[1..]|);
      TilesInside(com, parts[1..], shift, addr + len, mid, total - len, |iomap|);
      CollectedAtOnce(bus, com, parts[1..], shift, addr + len, mid, total - len, sent, iomap1);
      assert mid + (total - len) == end && mid + shift == off + shift + len;
      ReturnedSplit(bus, com, addr, sent[off..end], len);
      assert sent[off..end][..len] == sent[off..mid] && sent[off..end][len..] == sent[mid..end];
      PutPut(iomap, off + shift, Returned(bus, com, addr, sent[off..mid]),
             Returned(bus, com, addr + len, sent[mid..end]));
    }
  }

  lemma {:induction false} FirstStored(bus: Bus, com: byte, part: Part, shift: nat, sent: seq<byte>, iomap: seq<byte>)
    requires com in {LRD, LRW} && part.off + part.len <= |sent| && part.off + shift + part.len <= |iomap|
    ensures Stored(bus, Job(com, part, shift), sent, iomap)
            == Put(iomap, part.off + shift, Returned(bus, com, part.addr, sent[part.off..part.off + part.len]))
  {
  }

  lemma {:induction false} PutNothing(bus: Bus, com: byte, addr: nat, data: seq<byte>, iomap: seq<byte>, at: nat)
    requires data == [] && at <= |iomap|
    ensures Put(iomap, at, Returned(bus, com, addr, data)) == iomap
  {
    assert Returned(bus, com, addr, data) == [];
  }

  lemma {:induction false} InsideRest(jobs: seq<Job>, size: nat)
    requires jobs != [] && Inside(jobs[1..], size) && Inside([jobs[0]], size)
    ensures Inside(jobs, size)
  {
    assert [jobs[0]][0] == jobs[0];
    assert forall k :: 1 <= k < |jobs| ==> jobs[k] == jobs[1..][k - 1];
  }

  lemma {:induction false} ReturnedSplit(bus: Bus, com: byte, addr: nat, data: seq<byte>, k: nat)
    requires k <= |data| && com in {LRD, LRW}
    ensures Returned(bus, com, addr, data)
            == Returned(bus, com, addr, data[..k]) + Returned(bus, com, addr + k, data[k..])
  {
    var whole, front, back := Returned(bus, com, addr, data), Returned(bus, com, addr, data[..k]),
      Returned(bus, com, addr + k, data[k..]);
    forall i | 0 <= i < |data|
      ensures whole[i] == (front + back)[i]
    {
      if i >= k {
        assert back[i - k] == bus.insert(addr + k + (i - k), Payload(com, data[k..])[i - k]);
      }
    }
  }

  lemma {:induction false} PutPut(s: seq<byte>, at: nat, a: seq<byte>, b: seq<byte>)
    requires at + |a| + |b| <= |s|
    ensures Put(Put(s, at, a), at + |a|, b) == Put(s, at, a + b)
  {
  }

  /** The group's segments make up the cycle, and the inputs follow the outputs: what the mapper
      leaves behind. */
  predicate Mapped(g: Group, overlap: bool) {
    && Segmented(g)
    && Sum(g.IOsegment[..g.nsegments]) == CycleLength(g, overlap)
    && g.inputs == g.outputs + g.Obytes
    && (!overlap ==> Sum(g.IOsegment[..g.Isegment]) + g.Ioffset == g.Obytes)
  }

  /** Where a cycle takes its data from. */
  function Source(g: Group): nat {
    if g.Obytes > 0 then g.outputs else g.inputs
  }

  lemma {:induction false} AllLens(g: Group)
    requires Segmented(g)
    ensures Lens(g, 0, 0) == g.IOsegment[..g.nsegments]
  {
  }

  /** Where a cycle with LRW puts the answer: in an overlapped map behind the outputs. */
  function Target(g: Group, overlap: bool): nat {
    if overlap && g.Obytes > 0 then g.outputs + g.Obytes else Source(g)
  }

  /** A cycle with LRW sends a tiling of its logical addresses. */
  lemma {:induction false} PlanTiles(g: Group, overlap: bool) returns (parts: seq<Part>, shift: nat)
    requires Mapped(g, overlap) && !g.blockLRW && CycleLength(g, overlap) > 0
    ensures parts != [] && Plan(g, overlap) == Jobs(LRW, parts, shift) && |Plan(g, overlap)| == |parts|
    ensures Target(g, overlap) == Source(g) + shift <= g.inputs
    ensures Tiles(parts, g.logstartaddr, Source(g), CycleLength(g, overlap))
    ensures forall k :: 0 <= k < |parts| ==> parts[k].len <= EC_MAXLRWDATA - EC_FIRSTDCDATAGRAM
  {
    AllLens(g);
    shift := if overlap && g.Obytes > 0 then g.Obytes else 0;
    parts := Cut(Lens(g, 0, 0), g.logstartaddr, Source(g), CycleLength(g, overlap), false);
    CutTiles(Lens(g, 0, 0), g.logstartaddr, Source(g), CycleLength(g, overlap), false);
    CutSizes(g, 0, 0, g.logstartaddr, Source(g), CycleLength(g, overlap), false);
  }

  lemma {:induction false} PlanCyclic(g: Group, overlap: bool, size: nat)
    requires Mapped(g, overlap) && !g.blockLRW && CycleLength(g, overlap) > 0
    requires Target(g, overlap) + CycleLength(g, overlap) <= size
    ensures Plan(g, overlap) != [] && Cyclic(Plan(g, overlap), size)
  {
    var parts, shift := PlanTiles(g, overlap);
    TilesInside(LRW, parts, shift, g.logstartaddr, Source(g), CycleLength(g, overlap), size);
  }

  lemma {:induction false} PlanCollected(g: Group, overlap: bool, bus: Bus, map0: seq<byte>, iomap: seq<byte>)
    requires Mapped(g, overlap) && !g.blockLRW && CycleLength(g, overlap) > 0
    requires |map0| == |iomap| && Target(g, overlap) + CycleLength(g, overlap) <= |iomap|
    requires Inside(Plan(g, overlap), |iomap|)
    ensures Collected(bus, Plan(g, overlap), AllGot(|Plan(g, overlap)|), map0, iomap) ==
            Put(iomap, Target(g, overlap),
                Inserted(bus, g.logstartaddr, map0[Source(g)..Source(g) + CycleLength(g, overlap)]))
  {
    hide Plan, Collected, Put, Inserted, Returned, Tiles, Inside, Jobs, AllGot;
    var n, at := CycleLength(g, overlap), Target(g, overlap);
    var parts, shift := PlanTiles(g, overlap);
    AtOnce(bus, LRW, Plan(g, overlap), parts, shift, g.logstartaddr, Source(g), at, n, map0, iomap);
    ReturnedInserted(bus, g.logstartaddr, map0[Source(g)..Source(g) + n]);
  }

  lemma {:induction false} AtOnce(bus: Bus, com: byte, jobs: seq<Job>, parts: seq<Part>, shift: nat, addr: nat,
                                  off: nat, at: nat, n: nat, map0: seq<byte>, iomap: seq<byte>)
    requires com in {LRD, LRW} && jobs == Jobs(com, parts, shift) && Tiles(parts, addr, off, n) && at == off + shift
    requires |map0| == |iomap| && off + n <= |iomap| && at + n <= |iomap| && Inside(jobs, |iomap|)
    ensures Collected(bus, jobs, AllGot(|jobs|), map0, iomap)
            == Put(iomap, at, Returned(bus, com, addr, map0[off..off + n]))
  {
    hide Collected, Tiles, Inside, Jobs, Put, Returned, AllGot;
    CollectedAtOnce(bus, com, parts, shift, addr, off, n, map0, iomap);
  }

  lemma {:induction false} ReturnedInserted(bus: Bus, addr: nat, data: seq<byte>)
    ensures Returned(bus, LRW, addr, data) == Inserted(bus, addr, data)
    ensures Returned(bus, LRD, addr, data) == Inserted(bus, addr, Zeros(|data|))
  {
  }

  /** A cycle with LRW, in however many segments, with or without the reference clock in the first
      frame, and with the frames coming back in any order, leaves in the IO map what a single
      exchange over all its logical addresses would, and returns the sum of the working counters. */
  lemma {:induction false} CycleIsOneExchange(g: Group, overlap: bool, bus: Bus, sent: seq<Sent>, entries: seq<Entry>,
                                              map0: seq<byte>, time: seq<byte>, replies: Replies, t: Tally, dcl: nat,
                                              dcto: nat)
    requires Mapped(g, overlap) && !g.blockLRW && CycleLength(g, overlap) > 0
    requires AllCarry(sent, entries, Plan(g, overlap), map0, g.hasdc, g.dcadr, time)
    requires Delivered(bus, sent, entries, replies) && (forall e :: e in entries ==> e.idx in replies)
    requires |time| == |bus.clock| == 8 && |map0| == |t.iomap|
    requires Target(g, overlap) + CycleLength(g, overlap) <= |t.iomap|
    requires t == Tally(t.iomap, 0, false, g.hasdc, time)
    requires g.hasdc ==> dcl == entries[0].length && dcto == EC_HEADERSIZE + 12 + dcl && g.dcadr == bus.station
    ensures Fits(entries, replies, g.hasdc, dcl, |t.iomap|) &&
            (g.hasdc ==> dcl <= EC_MAXLRWDATA && dcto + 8 <= EC_BUFSIZE)
    ensures var t', n := Gather(t, entries, replies, dcl, dcto), CycleLength(g, overlap);
            && t'.iomap == Put(t.iomap, Target(g, overlap),
                               Inserted(bus, g.logstartaddr, map0[Source(g)..Source(g) + n]))
            && t'.valid && t'.wkc == Counters(bus, Plan(g, overlap), AllGot(|Plan(g, overlap)|))
  {
    PlanCyclic(g, overlap, |t.iomap|);
    PlanCollected(g, overlap, bus, map0, t.iomap);
    CarriedCount(sent, entries, Plan(g, overlap), map0, g.hasdc, g.dcadr, time);
    AllAnswered(entries, replies);
    hide AllCarry, Delivered, Gather, Collected, Counters, Plan, Mapped, Put, Inserted;
    GatherAll(bus, sent, entries, Plan(g, overlap), map0, g.hasdc, g.dcadr, time, replies, t, dcl, dcto);
    assert AllGot(|entries|)[0];
  }

  lemma {:induction false} CutSizes(g: Group, start: nat, skip: nat, addr: nat, off: nat, rest: nat, clip: bool)
    requires Segmented(g) && start < g.nsegments && skip <= g.IOsegment[start]
    ensures forall k :: 0 <= k < |Cut(Lens(g, start, skip), addr, off, rest, clip)| ==>
              Cut(Lens(g, start, skip), addr, off, rest, clip)[k].len <= EC_MAXLRWDATA - EC_FIRSTDCDATAGRAM
  {
    var lens := Lens(g, start, skip);
    assert forall k :: 1 <= k < |lens| ==> lens[k] == g.IOsegment[start + k];
    CutBounded(lens, addr, off, rest, clip, EC_MAXLRWDATA - EC_FIRSTDCDATAGRAM);
  }

  lemma {:induction false} CutBounded(lens: seq<nat>, addr: nat, off: nat, rest: int, clip: bool, max: nat)
    requires |lens| >= 1 && (clip ==> rest >= 0) && forall k :: 0 <= k < |lens| ==> lens[k] <= max
    ensures forall k :: 0 <= k < |Cut(lens, addr, off, rest, clip)| ==> Cut(lens, addr, off, rest, clip)[k].len <= max
    decreases |lens|
  {
    var len := if clip && rest < lens[0] then rest else lens[0];
    if rest - len != 0 && |lens| > 1 {
      CutBounded(lens[1..], addr + len, off + len, rest - len, clip, max);
    }
  }

  lemma {:induction false} CarriedCount(sent: seq<Sent>, entries: seq<Entry>, jobs: seq<Job>, iomap: seq<byte>,
                                        first: bool, dcadr: uint16, time: seq<byte>)
    requires AllCarry(sent, entries, jobs, iomap, first, dcadr, time)
    ensures |sent| == |entries| == |jobs|
  {
  }

  lemma {:induction false} AllAnswered(entries: seq<Entry>, replies: Replies)
    requires forall e :: e in entries ==> e.idx in replies
    ensures Got(entries, replies) == AllGot(|entries|)
  {
  }
}
