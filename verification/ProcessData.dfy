/** Cyclic exchange of process data: ecx_main_send_processdata, ecx_receive_processdata_group and
    the index stack between them.

    Pointers into the IO map are offsets into its array.  The frames handed to the network
    interface are kept in `wire`; what came back for an index is an input of the receive side. */
module ProcessData {
  import opened Bytes
  import opened Datagram
  import opened FrameIndex

  const DCSYSTIME: uint16 := 0x0910
  const EC_MAXLRWDATA := 1486
  const EC_FIRSTDCDATAGRAM := 20
  const EC_NOFRAME := -1

  /** What the sender reads of ec_groupt, and the address of the slave with the reference clock. */
  datatype Group = Group(
    logstartaddr: nat, Obytes: nat, outputs: nat, Ibytes: nat, inputs: nat,
    hasdc: bool, dcadr: uint16, blockLRW: bool,
    nsegments: nat, Isegment: nat, Ioffset: nat, IOsegment: seq<nat>)

  /** A piece of process data: its logical address, its place in the IO map, its length. */
  datatype Part = Part(addr: nat, off: nat, len: nat)

  /** A datagram to be sent; what comes back is stored `shift` bytes after where it came from. */
  datatype Job = Job(com: byte, part: Part, shift: nat)

  /** An entry of the index stack. */
  datatype Entry = Entry(idx: nat, data: nat, length: nat)

  /** A frame on the wire. */
  datatype Sent = Sent(idx: nat, bytes: seq<byte>)

  function Max(a: nat, b: nat): nat { if a > b then a else b }

  function Sum(s: seq<nat>): nat {
    if s == [] then 0 else s[0] + Sum(s[1..])
  }

  // ----- what is to be sent -----

  /** The segment lengths from segment `start` on, the first shortened by `skip`. */
  function Lens(g: Group, start: nat, skip: nat): (lens: seq<nat>)
    requires start < g.nsegments <= |g.IOsegment| && skip <= g.IOsegment[start]
    ensures |lens| == g.nsegments - start
  {
    [g.IOsegment[start] - skip] + g.IOsegment[start + 1..g.nsegments]
  }

  lemma {:induction false} LensAt(g: Group, start: nat, skip: nat, k: nat)
    requires start < g.nsegments <= |g.IOsegment| && skip <= g.IOsegment[start] && k < g.nsegments - start
    ensures Lens(g, start, skip)[k] == g.IOsegment[start + k] - if k == 0 then skip else 0
  {
  }

  /** The pieces a segment loop sends: one per length until nothing is left, or no length is. */
  function Cut(lens: seq<nat>, addr: nat, off: nat, rest: int, clip: bool): (parts: seq<Part>)
    requires |lens| >= 1 && (clip ==> rest >= 0)
    ensures 1 <= |parts| <= |lens|
    decreases |lens|
  {
    var len := if clip && rest < lens[0] then rest else lens[0];
    [Part(addr, off, len)] +
    if rest - len != 0 && |lens| > 1 then Cut(lens[1..], addr + len, off + len, rest - len, clip) else []
  }

  lemma {:induction false} CutStep(lens: seq<nat>, addr: nat, off: nat, rest: int, clip: bool, len: nat, more: bool)
    requires |lens| >= 1 && (clip ==> rest >= 0)
    requires len == if clip && rest < lens[0] then rest else lens[0]
    requires more <==> rest - len != 0 && |lens| > 1
    ensures Cut(lens, addr, off, rest, clip)[0] == Part(addr, off, len)
    ensures more ==> Cut(lens, addr, off, rest, clip)[1..] == Cut(lens[1..], addr + len, off + len, rest - len, clip)
    ensures !more ==> Cut(lens, addr, off, rest, clip)[1..] == []
  {
  }

  function Jobs(com: byte, parts: seq<Part>, shift: nat): (jobs: seq<Job>)
    ensures |jobs| == |parts|
    ensures forall k :: 0 <= k < |parts| ==> jobs[k] == Job(com, parts[k], shift)
  {
    seq(|parts|, k requires 0 <= k < |parts| => Job(com, parts[k], shift))
  }

  /** The segment list fits the process data, as the mapper leaves it. */
  predicate Segmented(g: Group) {
    && 1 <= g.nsegments <= |g.IOsegment|
    && g.Isegment < g.nsegments && g.Ioffset <= g.IOsegment[g.Isegment]
    && forall k :: 0 <= k < g.nsegments ==> g.IOsegment[k] <= EC_MAXLRWDATA - EC_FIRSTDCDATAGRAM
  }

  lemma {:induction false} ListLength(g: Group)
    requires Segmented(g)
    ensures g.nsegments <= |g.IOsegment|
  {
  }

  /** Number of bytes of a cycle: an overlapped map uses the larger of the two sides. */
  function CycleLength(g: Group, overlap: bool): nat {
    if overlap then Max(g.Obytes, g.Ibytes) else g.Obytes + g.Ibytes
  }

  function ReadJobs(g: Group): seq<Job>
    requires Segmented(g)
  {
    if g.Ibytes > 0
    then Jobs(LRD, Cut(Lens(g, g.Isegment, g.Ioffset), g.logstartaddr + g.Obytes, g.inputs, g.Ibytes, false), 0)
    else []
  }

  function WriteJobs(g: Group): seq<Job>
    requires Segmented(g)
  {
    if g.Obytes > 0 then Jobs(LWR, Cut(Lens(g, 0, 0), g.logstartaddr, g.outputs, g.Obytes, true), 0) else []
  }

  /** The datagrams of one cycle. */
  function Plan(g: Group, overlap: bool): seq<Job>
    requires Segmented(g)
  {
    if CycleLength(g, overlap) == 0 then []
    else if g.blockLRW then ReadJobs(g) + WriteJobs(g)
    else
      Jobs(LRW, Cut(Lens(g, 0, 0), g.logstartaddr, if g.Obytes > 0 then g.outputs else g.inputs,
                    CycleLength(g, overlap), false),
           if overlap && g.Obytes > 0 then g.Obytes else 0)
  }

  // ----- the frame of a job -----

  /** The datagrams of a frame: the job's, and the distribution of the reference clock if `dc`. */
  function Datagrams(job: Job, idx: byte, iomap: seq<byte>, dc: bool, dcadr: uint16, time: seq<byte>): seq<Dgram>
    requires job.part.off + job.part.len <= |iomap| && job.part.addr < 0x1_0000_0000
  {
    [Fresh(job.com, idx, job.part.addr % 0x1_0000, job.part.addr / 0x1_0000,
           iomap[job.part.off..job.part.off + job.part.len])] +
    if dc then [Fresh(FRMW, idx, dcadr, DCSYSTIME, time)] else []
  }

  lemma {:induction false} FrameSize(job: Job, idx: byte, iomap: seq<byte>, dc: bool, dcadr: uint16, time: seq<byte>)
    requires job.part.off + job.part.len <= |iomap| && job.part.addr < 0x1_0000_0000
    ensures TotalSize(Datagrams(job, idx, iomap, dc, dcadr, time)) == 12 + job.part.len + if dc then 12 + |time| else 0
  {
    var ds := Datagrams(job, idx, iomap, dc, dcadr, time);
    assert TotalSize(ds[1..]) == if dc then 12 + |time| else 0 by {
      if dc {
        assert ds[1..] == [Fresh(FRMW, idx, dcadr, DCSYSTIME, time)];
        assert ds[1..][1..] == [];
      }
    }
  }

  function Follows(dc: bool): seq<bool> {
    if dc then [true, false] else [false]
  }

  /** The frame on the wire and the stack entry belong to the job. */
  ghost predicate Carries(sent: Sent, e: Entry, job: Job, iomap: seq<byte>, dc: bool, dcadr: uint16, time: seq<byte>) {
    && sent.idx < EC_MAXBUF
    && e == Entry(sent.idx, job.part.off + job.shift, job.part.len)
    && job.part.off + job.part.len <= |iomap| && job.part.addr < 0x1_0000_0000
    && Frame(sent.bytes, ETH_HEADERSIZE, Datagrams(job, sent.idx, iomap, dc, dcadr, time), Follows(dc))
  }

  /** A 32-bit address as four bytes. */
  function AddressBytes(addr: nat): seq<byte>
    requires addr < 0x1_0000_0000
  {
    [addr % 0x100, addr / 0x100 % 0x100, addr / 0x1_0000 % 0x100, addr / 0x100_0000]
  }

  lemma {:induction false} AddressHalves(addr: nat)
    requires addr < 0x1_0000_0000
    ensures var lo, hi := addr % 0x1_0000, addr / 0x1_0000;
            AddressBytes(addr) == [lo % 0x100, lo / 0x100, hi % 0x100, hi / 0x100]
  {
    LowHalf(addr);
    HighHalf(addr);
  }

  lemma {:induction false} FrameHolds(sent: Sent, e: Entry, job: Job, iomap: seq<byte>, dc: bool, dcadr: uint16,
                                      time: seq<byte>)
    requires Carries(sent, e, job, iomap, dc, dcadr, time) && |time| == 8
    ensures |sent.bytes| >= 16
    ensures var f, n, a := sent.bytes, job.part.len, job.part.addr;
            && Word(f[14], f[15]) == 0x1000 + 12 + n + (if dc then 20 else 0)
            && Holds(f, 16, Fresh(job.com, sent.idx, a % 0x1_0000, a / 0x1_0000,
                                  iomap[job.part.off..job.part.off + n]), dc)
            && (dc ==> Holds(f, 28 + n, Fresh(FRMW, sent.idx, dcadr, DCSYSTIME, time), false))
  {
    var f, ds, follows := sent.bytes, Datagrams(job, sent.idx, iomap, dc, dcadr, time), Follows(dc);
    FrameSize(job, sent.idx, iomap, dc, dcadr, time);
    hide Holds, Fresh;
    HoldsAt(f, 16, ds, follows, 0);
    assert ds[..0] == [];
    if dc {
      HoldsAt(f, 16, ds, follows, 1);
      assert ds[..1] == [ds[0]] && [ds[0]][1..] == [];
      assert |ds[0].data| == job.part.len by {
        FreshSize(job.com, sent.idx, job.part.addr % 0x1_0000, job.part.addr / 0x1_0000,
                  iomap[job.part.off..job.part.off + job.part.len]);
      }
    }
  }

  lemma {:induction false} FreshSize(com: byte, idx: byte, adp: uint16, ado: uint16, data: seq<byte>)
    ensures |Fresh(com, idx, adp, ado, data).data| == |data|
  {
  }

  /** The frame byte by byte: length and type of the EtherCAT frame; command, index, logical address, length and
      data of the first datagram; and with the clock, a second one: command 14 to station dcadr, register 0x0910. */
  lemma {:induction false} FrameBytes(sent: Sent, e: Entry, job: Job, iomap: seq<byte>, dc: bool, dcadr: uint16,
                                      time: seq<byte>)
    requires Carries(sent, e, job, iomap, dc, dcadr, time) && job.com in {LRD, LWR, LRW} && |time| == 8
    ensures var f, n := sent.bytes, job.part.len;
            && |f| >= 28 + n && Word(f[14], f[15]) == 0x1000 + 12 + n + (if dc then 20 else 0)
            && f[16] == (if job.com == LRD then 10 else if job.com == LWR then 11 else 12) && f[17] == sent.idx
            && f[18..22] == AddressBytes(job.part.addr) && f[22] == n % 0x100
            && f[23] == n / 0x100 + (if dc then 0x80 else 0)
            && (job.com != LRD ==> f[26..26 + n] == iomap[job.part.off..job.part.off + n])
            && f[26 + n] == f[27 + n] == 0
    ensures dc ==>
              var f, at := sent.bytes, 28 + job.part.len;
              && |f| >= at + 20 && f[at] == 14 && f[at + 1] == sent.idx
              && f[at + 2..at + 6] == [dcadr % 0x100, dcadr / 0x100, 0x10, 0x09]
              && f[at + 6] == 8 && f[at + 7] == 0 && f[at + 10..at + 18] == time && f[at + 18] == f[at + 19] == 0
  {
    hide Holds, Frame, AddressBytes, Word;
    var f, n, a := sent.bytes, job.part.len, job.part.addr;
    FrameHolds(sent, e, job, iomap, dc, dcadr, time);
    AddressHalves(a);
    DatagramBytes(f, 16, Fresh(job.com, sent.idx, a % 0x1_0000, a / 0x1_0000,
                               iomap[job.part.off..job.part.off + n]), dc);
    if dc {
      DatagramBytes(f, 28 + n, Fresh(FRMW, sent.idx, dcadr, DCSYSTIME, time), false);
    }
  }

  function FreeCount(stat: seq<BufState>): nat {
    if stat == [] then 0 else (if stat[0].Empty? then 1 else 0) + FreeCount(stat[1..])
  }

  lemma {:induction false} FreeTaken(stat: seq<BufState>, idx: nat, b: BufState)
    requires idx < |stat| && stat[idx].Empty? && !b.Empty?
    ensures FreeCount(stat[idx := b]) == FreeCount(stat) - 1
    decreases |stat|
  {
    if idx > 0 {
      assert stat[idx := b][1..] == stat[1..][idx - 1 := b];
      FreeTaken(stat[1..], idx - 1, b);
    } else {
      assert stat[idx := b][1..] == stat[1..];
    }
  }

  lemma {:induction false} SomeFree(stat: seq<BufState>)
    requires FreeCount(stat) > 0
    ensures exists i :: 0 <= i < |stat| && stat[i].Empty?
    decreases |stat|
  {
    if stat != [] && !stat[0].Empty? {
      SomeFree(stat[1..]);
      var i :| 0 <= i < |stat[1..]| && stat[1..][i].Empty?;
      assert stat[i + 1].Empty?;
    }
  }

  /** The jobs stay inside the IO map and the logical address space. */
  predicate InReach(jobs: seq<Job>, size: nat) {
    forall k :: 0 <= k < |jobs| ==>
      && jobs[k].part.off + jobs[k].part.len <= size
      && jobs[k].part.addr < 0x1_0000_0000
      && jobs[k].part.len <= EC_MAXLRWDATA - EC_FIRSTDCDATAGRAM
  }

  /** One frame and one stack entry per job; the first frame carries the reference clock if `first`. */
  ghost predicate AllCarry(sent: seq<Sent>, entries: seq<Entry>, jobs: seq<Job>, iomap: seq<byte>, first: bool,
                           dcadr: uint16, time: seq<byte>) {
    && |sent| == |entries| == |jobs|
    && forall k :: 0 <= k < |sent| ==> Carries(sent[k], entries[k], jobs[k], iomap, first && k == 0, dcadr, time)
  }

  function Indices(entries: seq<Entry>): set<nat> {
    set e | e in entries :: e.idx
  }

  /** The entries took distinct indices that were free. */
  ghost predicate Taken(stat: seq<BufState>, stat': seq<BufState>, entries: seq<Entry>) {
    && |stat| == |stat'| == EC_MAXBUF && FreeCount(stat') == FreeCount(stat) - |entries|
    && (forall k :: 0 <= k < |entries| ==>
          entries[k].idx < EC_MAXBUF && stat[entries[k].idx].Empty? && stat'[entries[k].idx].Tx?)
    && (forall i :: 0 <= i < EC_MAXBUF && stat'[i] != stat[i] ==> i in Indices(entries))
    && (forall j, k :: 0 <= j < k < |entries| ==> entries[j].idx != entries[k].idx)
  }

  lemma {:induction false} CarryOne(sent: seq<Sent>, entries: seq<Entry>, jobs: seq<Job>, one: Sent, e: Entry,
                                    job: Job, iomap: seq<byte>, first: bool, dcadr: uint16, time: seq<byte>)
    requires AllCarry(sent, entries, jobs, iomap, first, dcadr, time)
    requires Carries(one, e, job, iomap, first && sent == [], dcadr, time)
    ensures AllCarry(sent + [one], entries + [e], jobs + [job], iomap, first, dcadr, time)
  {
  }

  lemma {:induction false} NothingSent(stat: seq<BufState>, iomap: seq<byte>, first: bool, dcadr: uint16,
                                       time: seq<byte>)
    requires |stat| == EC_MAXBUF
    ensures AllCarry([], [], [], iomap, first, dcadr, time) && Taken(stat, stat, [])
  {
  }

  /** The jobs took as many indices as they are. */
  lemma {:induction false} TakenCount(stat: seq<BufState>, stat': seq<BufState>, sent: seq<Sent>, entries: seq<Entry>,
                                      jobs: seq<Job>, iomap: seq<byte>, first: bool, dcadr: uint16, time: seq<byte>)
    requires AllCarry(sent, entries, jobs, iomap, first, dcadr, time) && Taken(stat, stat', entries)
    ensures |sent| == |entries| == |jobs| && FreeCount(stat') == FreeCount(stat) - |jobs|
  {
  }

  lemma {:induction false} Dropped<T>(s: seq<T>, n: nat)
    requires n < |s|
    ensures s[n..][0] == s[n] && s[n..][1..] == s[n + 1..]
  {
  }

  lemma {:induction false} InReachOne(jobs: seq<Job>, k: nat, size: nat)
    requires InReach(jobs, size) && k < |jobs|
    ensures InReach([jobs[k]], size)
  {
  }

  /** A segment loop has come to piece k: what is still to be sent, from which lengths. */
  ghost predicate Rest(parts: seq<Part>, lens: seq<nat>, k: nat, more: bool, addr: nat, off: nat, rest: int, clip: bool)
  {
    && k <= |parts| && k <= |lens|
    && if more then k < |lens| && (clip ==> rest >= 0) && parts[k..] == Cut(lens[k..], addr, off, rest, clip)
       else k == |parts|
  }

  lemma {:induction false} RestStart(lens: seq<nat>, addr: nat, off: nat, rest: int, clip: bool)
    requires |lens| >= 1 && (clip ==> rest >= 0)
    ensures Rest(Cut(lens, addr, off, rest, clip), lens, 0, true, addr, off, rest, clip)
  {
    hide Cut;
    assert lens[0..] == lens && Cut(lens, addr, off, rest, clip)[0..] == Cut(lens, addr, off, rest, clip);
  }

  lemma {:induction false} RestLength(parts: seq<Part>, lens: seq<nat>, k: nat, addr: nat, off: nat, rest: int,
                                      clip: bool)
    requires Rest(parts, lens, k, true, addr, off, rest, clip)
    ensures k < |lens| && (clip ==> rest >= 0)
  {
  }

  lemma {:induction false} RestDone(parts: seq<Part>, lens: seq<nat>, k: nat, addr: nat, off: nat, rest: int,
                                    clip: bool)
    requires Rest(parts, lens, k, false, addr, off, rest, clip)
    ensures k == |parts|
  {
  }

  /** The next job of a segment loop. */
  lemma {:induction false} NextJob(com: byte, parts: seq<Part>, lens: seq<nat>, shift: nat, k: nat, addr: nat,
                                   off: nat, rest: int, clip: bool, len: nat, more: bool, size: nat)
    requires Rest(parts, lens, k, true, addr, off, rest, clip) && InReach(Jobs(com, parts, shift), size)
    requires len == if clip && rest < lens[k] then rest else lens[k]
    requires more <==> rest - len != 0 && k + 1 < |lens|
    ensures InReach([Job(com, Part(addr, off, len), shift)], size) && k < |parts|
    ensures Jobs(com, parts, shift)[..k + 1] == Jobs(com, parts, shift)[..k] + [Job(com, Part(addr, off, len), shift)]
    ensures Rest(parts, lens, k + 1, more, addr + len, off + len, rest - len, clip)
  {
    hide Cut, InReach;
    var left := lens[k..];
    Dropped(lens, k);
    assert left[0] == lens[k];
    CutStep(left, addr, off, rest, clip, len, more);
    Dropped(parts, k);
    InReachOne(Jobs(com, parts, shift), k, size);
  }

  lemma {:induction false} Assoc<T>(a: seq<T>, b: seq<T>, c: seq<T>)
    ensures (a + b) + c == a + (b + c)
  {
  }

  lemma {:induction false} CarryJoin(sent: seq<Sent>, entries: seq<Entry>, jobs: seq<Job>, sent': seq<Sent>,
                                     entries': seq<Entry>, jobs': seq<Job>, iomap: seq<byte>, first: bool,
                                     first': bool, dcadr: uint16, time: seq<byte>)
    requires AllCarry(sent, entries, jobs, iomap, first, dcadr, time)
    requires AllCarry(sent', entries', jobs', iomap, first', dcadr, time)
    requires first' == (first && jobs == [])
    ensures AllCarry(sent + sent', entries + entries', jobs + jobs', iomap, first, dcadr, time)
  {
    hide Carries;
    forall k | 0 <= k < |sent + sent'|
      ensures Carries((sent + sent')[k], (entries + entries')[k], (jobs + jobs')[k], iomap,
                      first && k == 0, dcadr, time)
    {
      if k >= |sent| {
        var j := k - |sent|;
        assert Carries(sent'[j], entries'[j], jobs'[j], iomap, first' && j == 0, dcadr, time);
      }
    }
  }

  lemma {:induction false} TakenJoin(stat: seq<BufState>, mid: seq<BufState>, stat': seq<BufState>,
                                     entries: seq<Entry>, entries': seq<Entry>)
    requires Taken(stat, mid, entries) && Taken(mid, stat', entries')
    ensures Taken(stat, stat', entries + entries')
  {
    assert Indices(entries + entries') == Indices(entries) + Indices(entries');
    forall k | 0 <= k < |entries|
      ensures entries[k].idx !in Indices(entries') && stat'[entries[k].idx].Tx?
    {
      assert !mid[entries[k].idx].Empty?;
    }
    forall k | 0 <= k < |entries'|
      ensures stat[entries'[k].idx].Empty?
    {
      assert entries'[k].idx !in Indices(entries);
    }
  }

  lemma {:induction false} ReachSplit(jobs: seq<Job>, jobs': seq<Job>, size: nat)
    requires InReach(jobs + jobs', size)
    ensures InReach(jobs, size) && InReach(jobs', size)
  {
    var all := jobs + jobs';
    assert forall k :: 0 <= k < |jobs| ==> jobs[k] == all[k];
    assert forall k :: 0 <= k < |jobs'| ==> jobs'[k] == all[|jobs| + k];
  }

  lemma {:induction false} TakeOne(stat: seq<BufState>, stat': seq<BufState>, entries: seq<Entry>, e: Entry)
    requires Taken(stat, stat', entries) && e.idx < EC_MAXBUF && stat'[e.idx].Empty?
    ensures Taken(stat, stat'[e.idx := Tx], entries + [e])
  {
    FreeTaken(stat', e.idx, Tx);
    assert Indices([e]) == {e.idx};
    assert Taken(stat', stat'[e.idx := Tx], [e]);
    TakenJoin(stat, stat', stat'[e.idx := Tx], entries, [e]);
  }

  // ----- what comes back -----

  /** What waiting for an index gave: the working counter, and the receive buffer of the index. */
  datatype Received = Received(wkc: int, buf: seq<byte>)

  type Replies = r: map<nat, Received> | forall i :: i in r ==> |r[i].buf| == EC_BUFSIZE witness map[]

  /** The state of the receive loop. */
  datatype Tally = Tally(iomap: seq<byte>, wkc: int, valid: bool, first: bool, time: seq<byte>)

  /** A frame with process data arrived for the entry. */
  predicate Arrived(e: Entry, replies: Replies) {
    e.idx in replies && replies[e.idx].wkc > EC_NOFRAME && replies[e.idx].buf[2] in {LRD, LWR, LRW}
  }

  /** Such a frame brings data for the IO map. */
  predicate Copied(e: Entry, replies: Replies) { Arrived(e, replies) && replies[e.idx].buf[2] in {LRD, LRW} }

  /** The entries lie inside the IO map. */
  predicate InMap(entries: seq<Entry>, size: nat) {
    forall k :: 0 <= k < |entries| ==>
      entries[k].data + entries[k].length <= size && entries[k].length <= EC_MAXLRWDATA
  }

  /** Everything copied lies inside the IO map: while `first` holds, DCl bytes are copied whatever
      the length of the entry is. */
  predicate Fits(entries: seq<Entry>, replies: Replies, first: bool, dcl: nat, size: nat)
    decreases |entries|
  {
    entries == [] ||
    (var e := entries[0];
     && e.data + e.length <= size && e.length <= EC_MAXLRWDATA
     && (first && Copied(e, replies) ==> e.data + dcl <= size)
     && Fits(entries[1..], replies, first && !Arrived(e, replies), dcl, size))
  }

  /** The buffer states after the entries gave back their indices. */
  function Released(stat: seq<BufState>, entries: seq<Entry>): (stat': seq<BufState>)
    requires forall k :: 0 <= k < |entries| ==> entries[k].idx < |stat|
    ensures |stat'| == |stat|
    decreases |entries|
  {
    if entries == [] then stat else Released(stat[entries[0].idx := Empty], entries[1..])
  }

  /** Receiving undoes what sending did to the buffer states. */
  lemma {:induction false} ReleasedTaken(stat: seq<BufState>, stat': seq<BufState>, entries: seq<Entry>)
    requires Taken(stat, stat', entries)
    ensures Released(stat', entries) == stat
  {
    forall i | 0 <= i < EC_MAXBUF
      ensures Released(stat', entries)[i] == stat[i]
    {
      ReleasedAt(stat', entries, i);
    }
  }

  lemma {:induction false} ReleasedAt(stat: seq<BufState>, entries: seq<Entry>, i: nat)
    requires i < |stat| && forall k :: 0 <= k < |entries| ==> entries[k].idx < |stat|
    ensures Released(stat, entries)[i] == if i in Indices(entries) then Empty else stat[i]
    decreases |entries|
  {
    if entries != [] {
      ReleasedAt(stat[entries[0].idx := Empty], entries[1..], i);
      assert entries == [entries[0]] + entries[1..];
      assert Indices(entries) == {entries[0].idx} + Indices(entries[1..]);
    }
  }

  /** What the receive loop does with one entry. */
  function GatherOne(t: Tally, e: Entry, replies: Replies, dcl: nat, dcto: nat): (t': Tally)
    requires Fits([e], replies, t.first, dcl, |t.iomap|)
    requires t.first ==> dcl <= EC_MAXLRWDATA && dcto + 8 <= EC_BUFSIZE
    ensures |t'.iomap| == |t.iomap| && t'.first == (t.first && !Arrived(e, replies))
  {
    if !Arrived(e, replies) then t
    else
      var Received(wkc, rx) := replies[e.idx];
      var factor := if rx[2] == LWR then 2 else 1;
      Tally(
        if rx[2] == LWR then t.iomap
        else Put(t.iomap, e.data, rx[EC_HEADERSIZE..][..if t.first then dcl else e.length]),
        if t.first then WordAt(rx, EC_HEADERSIZE + dcl) * factor else t.wkc + wkc * factor,
        true, false,
        if t.first then rx[dcto..dcto + 8] else t.time)
  }

  function Gather(t: Tally, entries: seq<Entry>, replies: Replies, dcl: nat, dcto: nat): (t': Tally)
    requires Fits(entries, replies, t.first, dcl, |t.iomap|)
    requires t.first ==> dcl <= EC_MAXLRWDATA && dcto + 8 <= EC_BUFSIZE
    ensures |t'.iomap| == |t.iomap|
    decreases |entries|
  {
    if entries == [] then t
    else Gather(GatherOne(t, entries[0], replies, dcl, dcto), entries[1..], replies, dcl, dcto)
  }

  lemma {:induction false} ReleasedStep(stat: seq<BufState>, entries: seq<Entry>)
    requires entries != [] && forall k :: 0 <= k < |entries| ==> entries[k].idx < |stat|
    ensures Released(stat, entries) == Released(stat[entries[0].idx := Empty], entries[1..])
  {
  }

  lemma {:induction false} FitsStep(entries: seq<Entry>, replies: Replies, first: bool, dcl: nat, size: nat)
    requires entries != [] && InMap(entries, size)
    ensures InMap([entries[0]], size) && InMap(entries[1..], size)
    ensures Fits(entries, replies, first, dcl, size) <==>
            Fits([entries[0]], replies, first, dcl, size) &&
            Fits(entries[1..], replies, first && !Arrived(entries[0], replies), dcl, size)
  {
    assert [entries[0]][1..] == [];
    assert Fits([], replies, first && !Arrived(entries[0], replies), dcl, size);
  }

  lemma {:induction false} GatherStep(t: Tally, entries: seq<Entry>, replies: Replies, dcl: nat, dcto: nat,
                                      stat: seq<BufState>)
    requires entries != [] && Fits(entries, replies, t.first, dcl, |t.iomap|)
    requires t.first ==> dcl <= EC_MAXLRWDATA && dcto + 8 <= EC_BUFSIZE
    requires forall k :: 0 <= k < |entries| ==> entries[k].idx < |stat|
    ensures Fits([entries[0]], replies, t.first, dcl, |t.iomap|)
    ensures var t1 := GatherOne(t, entries[0], replies, dcl, dcto);
            && Fits(entries[1..], replies, t1.first, dcl, |t.iomap|)
            && Gather(t, entries, replies, dcl, dcto) == Gather(t1, entries[1..], replies, dcl, dcto)
  {
    assert Fits([entries[0]][1..], replies, t.first && !Arrived(entries[0], replies), dcl, |t.iomap|);
  }

  /** What is left to do for the receive loop: whether its copies fit, and what comes of it then. */
  ghost predicate Pending(t: Tally, rest: seq<Entry>, replies: Replies, dcl: nat, dcto: nat, fits: bool, all: Tally) {
    && InMap(rest, |t.iomap|) && (t.first ==> dcl <= EC_MAXLRWDATA && dcto + 8 <= EC_BUFSIZE)
    && (fits <==> Fits(rest, replies, t.first, dcl, |t.iomap|))
    && (fits ==> all == Gather(t, rest, replies, dcl, dcto))
  }

  lemma {:induction false} PendingStep(t: Tally, t1: Tally, rest: seq<Entry>, replies: Replies, dcl: nat, dcto: nat,
                                       fits: bool, all: Tally)
    requires Pending(t, rest, replies, dcl, dcto, fits, all) && rest != []
    requires |t1.iomap| == |t.iomap| && InMap(rest[1..], |t.iomap|) && (t1.first ==> t.first)
    requires Fits(rest, replies, t.first, dcl, |t.iomap|) <==> Fits(rest[1..], replies, t1.first, dcl, |t.iomap|)
    requires Fits(rest, replies, t.first, dcl, |t.iomap|) ==>
               Gather(t1, rest[1..], replies, dcl, dcto) == Gather(t, rest, replies, dcl, dcto)
    ensures Pending(t1, rest[1..], replies, dcl, dcto, fits, all)
  {
    hide InMap, Fits, Gather;
  }

  lemma {:induction false} PendingStart(t: Tally, rest: seq<Entry>, replies: Replies, dcl: nat, dcto: nat)
    requires InMap(rest, |t.iomap|) && (t.first ==> dcl <= EC_MAXLRWDATA && dcto + 8 <= EC_BUFSIZE)
    ensures var fits := Fits(rest, replies, t.first, dcl, |t.iomap|);
            Pending(t, rest, replies, dcl, dcto, fits, if fits then Gather(t, rest, replies, dcl, dcto) else t)
  {
    hide InMap, Fits, Gather;
  }

  lemma {:induction false} NothingReleased(stat: seq<BufState>)
    ensures Released(stat, []) == stat
  {
  }

  lemma {:induction false} PendingEnd(t: Tally, replies: Replies, dcl: nat, dcto: nat, fits: bool, all: Tally)
    requires Pending(t, [], replies, dcl, dcto, fits, all)
    ensures fits && all == t
  {
  }

  class Context {
    const port: Port
    const txbuf: FrameBuffer // the transmit buffer of the index in use
    const iomap: array<byte>
    var wire: seq<Sent>
    var idxstack: seq<Entry>
    var pulled: nat
    var DCl: nat
    var DCtO: nat
    var DCtime: seq<byte>

    ghost predicate Valid()
      reads this, port
    {
      && port.Valid()
      && txbuf.frame.Length == EC_BUFSIZE
      && txbuf.frame != iomap
      && |DCtime| == 8
    }

    constructor (iomap: array<byte>)
      ensures Valid() && wire == [] && idxstack == [] && pulled == 0 && this.iomap == iomap
      ensures fresh(port) && fresh(port.rxbufstat) && fresh(txbuf) && fresh(txbuf.frame)
      ensures forall i :: 0 <= i < EC_MAXBUF ==> port.Stat()[i].Empty?
    {
      port := new Port();
      txbuf := new FrameBuffer();
      this.iomap := iomap;
      wire, idxstack, pulled, DCl, DCtO, DCtime := [], [], 0, 0, 0, Zeros(8);
    }

    /** The IO map as a value. */
    ghost function Map(): (map_: seq<byte>)
      reads iomap
      ensures |map_| == iomap.Length
    {
      iomap[..]
    }

    method PushIndex(idx: nat, data: nat, length: nat)
      modifies this`idxstack
      ensures idxstack == if |old(idxstack)| < EC_MAXBUF then old(idxstack) + [Entry(idx, data, length)]
              else old(idxstack)
    {
      if |idxstack| < EC_MAXBUF {
        idxstack := idxstack + [Entry(idx, data, length)];
      }
    }

    method BuildFrame(g: Group, job: Job, idx: byte, first: bool)
      requires Valid()
      requires job.part.len <= EC_MAXLRWDATA - EC_FIRSTDCDATAGRAM
      requires job.part.off + job.part.len <= iomap.Length && job.part.addr < 0x1_0000_0000
      modifies this`DCl, this`DCtO, txbuf`txbuflength, txbuf.frame
      ensures Valid()
      ensures txbuf.txbuflength <= EC_BUFSIZE
      ensures Frame(txbuf.frame[..txbuf.txbuflength], ETH_HEADERSIZE,
                    Datagrams(job, idx, Map(), first, g.dcadr, DCtime), Follows(first))
      ensures DCl == (if first then job.part.len else old(DCl))
      ensures DCtO == (if first then EC_HEADERSIZE + 12 + job.part.len else old(DCtO))
      ensures Map() == old(Map())
    {
      hide Layout, Holds;
      var w1, w2 := job.part.addr % 0x1_0000, job.part.addr / 0x1_0000;
      var data := iomap[job.part.off..job.part.off + job.part.len];
      txbuf.SetupDatagram(job.com, idx, w1, w2, data);
      ghost var d := Fresh(job.com, idx, w1, w2, data);
      assert Map() == old(Map());
      assert data == iomap[..][job.part.off..job.part.off + job.part.len];
      if first {
        DCl := job.part.len;
        // the clock is read by the second datagram
        DCtO := txbuf.AddDatagram(FRMW, idx, false, g.dcadr, DCSYSTIME, DCtime, [d], [false]);
        assert Map() == old(Map());
        assert [true] + [false][1..] + [false] == Follows(true);
      } else {
        assert [d] + [] == [d];
      }
      assert txbuf.txbuflength == ETH_HEADERSIZE + EC_ELENGTHSIZE
                                  + TotalSize(Datagrams(job, idx, Map(), first, g.dcadr, DCtime));
      FrameSize(job, idx, Map(), first, g.dcadr, DCtime);
      SentPart(txbuf.frame[..], ETH_HEADERSIZE, Datagrams(job, idx, Map(), first, g.dcadr, DCtime), Follows(first));
      assert txbuf.frame[..][..txbuf.txbuflength] == txbuf.frame[..txbuf.txbuflength];
    }

    /** Build and send the frame of one piece of process data, and remember it on the stack. */
    method SendOne(g: Group, job: Job, first: bool) returns (ghost sent: Sent, ghost e: Entry)
      requires Valid() && |idxstack| < EC_MAXBUF && FreeCount(port.Stat()) > 0
      requires job.part.len <= EC_MAXLRWDATA - EC_FIRSTDCDATAGRAM
      requires job.part.off + job.part.len <= iomap.Length && job.part.addr < 0x1_0000_0000
      modifies this`wire, this`idxstack, this`DCl, this`DCtO, port`lastidx, port.rxbufstat, txbuf`txbuflength,
               txbuf.frame
      ensures Valid() && Map() == old(Map())
      ensures wire == old(wire) + [sent] && idxstack == old(idxstack) + [e]
      ensures Carries(sent, e, job, Map(), first, g.dcadr, DCtime)
      ensures e.length == job.part.len && e.idx < EC_MAXBUF
      ensures old(port.Stat())[e.idx].Empty?
      ensures port.Stat() == old(port.Stat())[e.idx := Tx]
      ensures DCl == (if first then job.part.len else old(DCl))
      ensures DCtO == (if first then EC_HEADERSIZE + 12 + job.part.len else old(DCtO))
    {
      hide Port.Stat, Frame, Datagrams, FreeCount, NextFree;
      SomeFree(port.Stat());
      var idx := port.GetIndex();
      BuildFrame(g, job, idx, first);
      sent, e := Sent(idx, txbuf.frame[..txbuf.txbuflength]), Entry(idx, job.part.off + job.shift, job.part.len);
      wire := wire + [Sent(idx, txbuf.frame[..txbuf.txbuflength])];
      port.SetBufStat(idx, Tx);
      PushIndex(idx, job.part.off + job.shift, job.part.len);
      assert port.Stat() == old(port.Stat())[idx := Tx];
    }

    /** Send one more frame after those already sent in this loop. */
    method SendNext(g: Group, job: Job, dc: bool, ghost stat: seq<BufState>, ghost sent: seq<Sent>,
                    ghost entries: seq<Entry>, ghost jobs: seq<Job>, ghost first: bool, ghost wire0: seq<Sent>,
                    ghost stack0: seq<Entry>)
      returns (ghost sent': seq<Sent>, ghost entries': seq<Entry>)
      requires Valid() && |idxstack| < EC_MAXBUF && FreeCount(stat) > |jobs| && dc == (first && jobs == [])
      requires InReach([job], iomap.Length)
      requires AllCarry(sent, entries, jobs, Map(), first, g.dcadr, DCtime) && Taken(stat, port.Stat(), entries)
      requires wire == wire0 + sent && idxstack == stack0 + entries
      modifies this`wire, this`idxstack, this`DCl, this`DCtO, port`lastidx, port.rxbufstat, txbuf`txbuflength,
               txbuf.frame
      ensures Valid() && Map() == old(Map())
      ensures |sent'| == |entries'| == |jobs| + 1 && (entries != [] ==> entries'[0] == entries[0])
      ensures wire == wire0 + sent' && idxstack == stack0 + entries'
      ensures AllCarry(sent', entries', jobs + [job], Map(), first, g.dcadr, DCtime) &&
              Taken(stat, port.Stat(), entries')
      ensures if dc then DCl == entries'[0].length && DCtO == EC_HEADERSIZE + 12 + DCl
              else DCl == old(DCl) && DCtO == old(DCtO)
    {
      hide Carries, AllCarry, Taken, Port.Stat, Map;
      TakenCount(stat, port.Stat(), sent, entries, jobs, Map(), first, g.dcadr, DCtime);
      assert [job][0] == job;
      ghost var one, e := SendOne(g, job, dc);
      TakeOne(stat, old(port.Stat()), entries, e);
      CarryOne(sent, entries, jobs, one, e, job, Map(), first, g.dcadr, DCtime);
      sent', entries' := sent + [one], entries + [e];
      Assoc(wire0, sent, [one]);
      Assoc(stack0, entries, [e]);
    }

    /** The segment loop: send datagrams until nothing is left or all segments are used. */
    method SendSegments(g: Group, com: byte, start: nat, skip: nat, clip: bool, addr: nat, off: nat, rest: nat,
                        shift: nat, first: bool) returns (ghost sent: seq<Sent>, ghost entries: seq<Entry>)
      requires Valid() && Segmented(g) && start < g.nsegments && skip <= g.IOsegment[start]
      requires |idxstack| + |Cut(Lens(g, start, skip), addr, off, rest, clip)| <= EC_MAXBUF
      requires FreeCount(port.Stat()) >= |Cut(Lens(g, start, skip), addr, off, rest, clip)|
      requires InReach(Jobs(com, Cut(Lens(g, start, skip), addr, off, rest, clip), shift), iomap.Length)
      modifies this`wire, this`idxstack, this`DCl, this`DCtO, port`lastidx, port.rxbufstat, txbuf`txbuflength,
               txbuf.frame
      ensures Valid() && Map() == old(Map())
      ensures wire == old(wire) + sent && idxstack == old(idxstack) + entries
      ensures AllCarry(sent, entries, Jobs(com, Cut(Lens(g, start, skip), addr, off, rest, clip), shift),
                       Map(), first, g.dcadr, DCtime)
      ensures Taken(old(port.Stat()), port.Stat(), entries)
      ensures entries != [] && (first ==> DCl == entries[0].length && DCtO == EC_HEADERSIZE + 12 + DCl)
      ensures !first ==> DCl == old(DCl) && DCtO == old(DCtO)
    {
      hide Lens, Cut, Carries, AllCarry, Taken, Port.Stat, Map, FreeCount, InReach, Jobs, Segmented, Rest;
      ListLength(g);
      ghost var lens := Lens(g, start, skip);
      ghost var parts := Cut(lens, addr, off, rest, clip);
      ghost var jobs := Jobs(com, parts, shift);
      var LogAdr: nat, data: nat, length: int := addr, off, rest;
      var currentsegment, dc, more := start, first, true;
      RestStart(lens, addr, off, rest, clip);
      sent, entries := [], [];
      NothingSent(port.Stat(), Map(), first, g.dcadr, DCtime);
      while more
        invariant Valid() && Map() == old(Map())
        invariant |sent| == |entries| <= |parts| && currentsegment == start + |sent| <= g.nsegments
        invariant more ==> currentsegment < g.nsegments
        invariant Rest(parts, lens, |sent|, more, LogAdr, data, length, clip)
        invariant dc == (first && sent == [])
        invariant wire == old(wire) + sent && idxstack == old(idxstack) + entries
        invariant AllCarry(sent, entries, jobs[..|sent|], Map(), first, g.dcadr, DCtime)
        invariant Taken(old(port.Stat()), port.Stat(), entries)
        invariant if first && sent != [] then DCl == entries[0].length && DCtO == EC_HEADERSIZE + 12 + DCl
                  else DCl == old(DCl) && DCtO == old(DCtO)
        decreases g.nsegments - currentsegment
      {
        var sublength := g.IOsegment[currentsegment] - if currentsegment == start then skip else 0;
        LensAt(g, start, skip, |sent|);
        RestLength(parts, lens, |sent|, LogAdr, data, length, clip);
        currentsegment := currentsegment + 1;
        if clip && length - sublength < 0 {
          sublength := length;
        }
        more := length - sublength != 0 && currentsegment < g.nsegments;
        NextJob(com, parts, lens, shift, |sent|, LogAdr, data, length, clip, sublength, more, iomap.Length);
        sent, entries := SendNext(g, Job(com, Part(LogAdr, data, sublength), shift), dc, old(port.Stat()),
                                  sent, entries, jobs[..|sent|], first, old(wire), old(idxstack));
        dc := false;
        length := length - sublength;
        LogAdr := LogAdr + sublength;
        data := data + sublength;
      }
      RestDone(parts, lens, |sent|, LogAdr, data, length, clip);
      assert jobs[..|sent|] == jobs;
    }

    /** LRW is blocked: read the inputs with LRD and write the outputs with LWR. */
    method SendReadThenWrite(g: Group, hasdc: bool) returns (ghost sent: seq<Sent>, ghost entries: seq<Entry>)
      requires Valid() && Segmented(g)
      requires |idxstack| + |ReadJobs(g)| + |WriteJobs(g)| <= EC_MAXBUF
      requires FreeCount(port.Stat()) >= |ReadJobs(g)| + |WriteJobs(g)|
      requires InReach(ReadJobs(g), iomap.Length) && InReach(WriteJobs(g), iomap.Length)
      modifies this`wire, this`idxstack, this`DCl, this`DCtO, port`lastidx, port.rxbufstat, txbuf`txbuflength,
               txbuf.frame
      ensures Valid() && Map() == old(Map())
      ensures wire == old(wire) + sent && idxstack == old(idxstack) + entries
      ensures AllCarry(sent, entries, ReadJobs(g) + WriteJobs(g), Map(), hasdc, g.dcadr, DCtime)
      ensures Taken(old(port.Stat()), port.Stat(), entries)
      ensures hasdc && entries != [] ==> DCl == entries[0].length && DCtO == EC_HEADERSIZE + 12 + DCl
    {
      hide Cut, Carries, AllCarry, Taken, Port.Stat, Map;
      sent, entries := [], [];
      var first := hasdc;
      NothingSent(port.Stat(), Map(), hasdc, g.dcadr, DCtime);
      if g.Ibytes != 0 { // read the inputs
        sent, entries := SendSegments(g, LRD, g.Isegment, g.Ioffset, false, g.logstartaddr + g.Obytes, g.inputs,
                                      g.Ibytes, 0, first);
        first := false;
      }
      if g.Obytes != 0 { // write the outputs
        ghost var stat := port.Stat();
        TakenCount(old(port.Stat()), stat, sent, entries, ReadJobs(g), Map(), hasdc, g.dcadr, DCtime);
        ghost var sent2, entries2 := SendSegments(g, LWR, 0, 0, true, g.logstartaddr, g.outputs, g.Obytes, 0, first);
        TakenJoin(old(port.Stat()), stat, port.Stat(), entries, entries2);
        CarryJoin(sent, entries, ReadJobs(g), sent2, entries2, WriteJobs(g), Map(), hasdc, first, g.dcadr, DCtime);
        Assoc(old(wire), sent, sent2);
        Assoc(old(idxstack), entries, entries2);
        sent, entries := sent + sent2, entries + entries2;
      } else {
        assert ReadJobs(g) + WriteJobs(g) == ReadJobs(g);
      }
    }

    method SendProcessData(g: Group, overlap: bool) returns (wkc: int, ghost sent: seq<Sent>, ghost entries: seq<Entry>)
      requires Valid() && Segmented(g)
      requires |idxstack| + |Plan(g, overlap)| <= EC_MAXBUF && FreeCount(port.Stat()) >= |Plan(g, overlap)|
      requires InReach(Plan(g, overlap), iomap.Length)
      modifies this`wire, this`idxstack, this`DCl, this`DCtO, port`lastidx, port.rxbufstat, txbuf`txbuflength,
               txbuf.frame
      ensures Valid() && Map() == old(Map())
      ensures wkc > 0 <==> CycleLength(g, overlap) > 0
      ensures wire == old(wire) + sent && idxstack == old(idxstack) + entries
      ensures AllCarry(sent, entries, Plan(g, overlap), Map(), g.hasdc, g.dcadr, DCtime)
      ensures Taken(old(port.Stat()), port.Stat(), entries)
      ensures g.hasdc && entries != [] ==> DCl == entries[0].length && DCtO == EC_HEADERSIZE + 12 + DCl
    {
      hide Cut, Carries, AllCarry, Taken, Port.Stat, Map;
      wkc := 0;
      sent, entries := [], [];
      NothingSent(port.Stat(), Map(), g.hasdc, g.dcadr, DCtime);
      var length, iomapinputoffset;
      if overlap {
        // for an overlapping map make the frames as big as the biggest part
        length := if g.Obytes > g.Ibytes then g.Obytes else g.Ibytes;
        iomapinputoffset := g.Obytes;
      } else {
        length := g.Obytes + g.Ibytes;
        iomapinputoffset := 0;
      }
      if length != 0 {
        wkc := 1;
        if g.blockLRW {
          ReachSplit(ReadJobs(g), WriteJobs(g), iomap.Length);
          sent, entries := SendReadThenWrite(g, g.hasdc);
        } else {
          var data;
          if g.Obytes != 0 {
            data := g.outputs;
          } else {
            data := g.inputs;
            // don't compensate for an overlapping map with only inputs
            iomapinputoffset := 0;
          }
          sent, entries := SendSegments(g, LRW, 0, 0, false, g.logstartaddr, data, length, iomapinputoffset, g.hasdc);
        }
      }
    }

    /** The next stack location, -1 if the stack is empty. */
    method PullIndex() returns (pos: int)
      modifies this`pulled
      ensures if old(pulled) < |idxstack| then pos == old(pulled) && pulled == old(pulled) + 1
              else pos == -1 && pulled == old(pulled)
    {
      pos := -1;
      if pulled < |idxstack| {
        pos := pulled;
        pulled := pulled + 1;
      }
    }

    /** memcpy into the IO map. */
    method StoreInputs(at: nat, data: seq<byte>)
      requires Valid() && at + |data| <= iomap.Length
      modifies iomap
      ensures Valid() && Map() == Put(old(Map()), at, data)
    {
      Copy(iomap, at, data);
      assert Map() == Put(old(Map()), at, data);
    }

    /** `overrun` tells that a copy would go beyond the IO map. */
    method ReceiveOne(e: Entry, replies: Replies, wkc: int, first: bool, ghost valid: bool)
      returns (wkc': int, first': bool, got: bool, overrun: bool)
      requires Valid() && InMap([e], iomap.Length)
      requires first ==> DCl <= EC_MAXLRWDATA && DCtO + 8 <= EC_BUFSIZE
      modifies this`DCtime, iomap
      ensures Valid() && (overrun <==> !Fits([e], replies, first, DCl, iomap.Length))
      ensures !overrun ==>
                Tally(Map(), wkc', valid || got, first', DCtime)
                == GatherOne(Tally(old(Map()), wkc, valid, first, old(DCtime)), e, replies, DCl, DCtO)
    {
      hide WordAt, Put, Map;
      wkc', first', got, overrun := wkc, first, false, false;
      assert [e][1..] == [];
      if e.idx in replies && replies[e.idx].wkc > EC_NOFRAME {
        var wkc2, rx := replies[e.idx].wkc, replies[e.idx].buf;
        if rx[2] == LRD || rx[2] == LRW {
          if first {
            if e.data + DCl > iomap.Length {
              overrun := true;
              return;
            }
            StoreInputs(e.data, rx[EC_HEADERSIZE..][..DCl]);
            wkc' := WordAt(rx, EC_HEADERSIZE + DCl);
            DCtime := rx[DCtO..DCtO + 8];
            first' := false;
          } else {
            // what came back belongs to the IO map
            StoreInputs(e.data, rx[EC_HEADERSIZE..][..e.length]);
            wkc' := wkc + wkc2;
          }
          got := true;
        } else if rx[2] == LWR {
          if first {
            // LWR counts for half of what LRW would
            wkc' := WordAt(rx, EC_HEADERSIZE + DCl) * 2;
            DCtime := rx[DCtO..DCtO + 8];
            first' := false;
          } else {
            wkc' := wkc + wkc2 * 2;
          }
          got := true;
        }
      }
    }

    /** Handle one entry, and free its index. */
    method ReceiveNext(e: Entry, replies: Replies, wkc: int, first: bool, valid: bool, ghost entries: seq<Entry>,
                       ghost fits: bool, ghost all: Tally)
      returns (wkc': int, first': bool, valid': bool, overrun: bool)
      requires Valid() && entries != [] && entries[0] == e && iomap != txbuf.frame
      requires forall k :: 0 <= k < |entries| ==> entries[k].idx < EC_MAXBUF
      requires Pending(Tally(Map(), wkc, valid, first, DCtime), entries, replies, DCl, DCtO, fits, all)
      modifies this`DCtime, iomap, port.rxbufstat
      ensures Valid() && (overrun ==> !fits)
      ensures !overrun ==>
                Pending(Tally(Map(), wkc', valid', first', DCtime), entries[1..], replies, DCl, DCtO, fits, all)
      ensures !overrun ==> Released(port.Stat(), entries[1..]) == Released(old(port.Stat()), entries)
    {
      hide Gather, GatherOne, Released, Fits, Put, Arrived, Copied, InMap, WordAt, Port.Stat, Map;
      FitsStep(entries, replies, first, DCl, iomap.Length);
      if Fits(entries, replies, first, DCl, iomap.Length) {
        GatherStep(Tally(Map(), wkc, valid, first, DCtime), entries, replies, DCl, DCtO, port.Stat());
      }
      ReleasedStep(port.Stat(), entries);
      var got;
      wkc', first', got, overrun := ReceiveOne(e, replies, wkc, first, valid);
      valid' := valid || got;
      if !overrun {
        PendingStep(Tally(old(Map()), wkc, valid, first, old(DCtime)), Tally(Map(), wkc', valid', first', DCtime),
                    entries, replies, DCl, DCtO, fits, all);
        // the index is free again
        port.SetBufStat(e.idx, Empty);
      }
    }

    /** `overrun` tells that a copy went beyond the IO map; what comes then is not modelled. */
    method ReceiveProcessData(hasdc: bool, replies: Replies) returns (wkc: int, overrun: bool)
      requires Valid() && pulled <= |idxstack|
      requires forall k :: 0 <= k < |idxstack| ==> idxstack[k].idx < EC_MAXBUF
      requires InMap(idxstack[pulled..], iomap.Length)
      requires hasdc ==> DCl <= EC_MAXLRWDATA && DCtO + 8 <= EC_BUFSIZE
      requires iomap != txbuf.frame
      modifies this`DCtime, this`idxstack, this`pulled, iomap, port.rxbufstat
      ensures Valid() && (overrun <==> !Fits(old(idxstack[pulled..]), replies, hasdc, DCl, iomap.Length))
      ensures !overrun ==> idxstack == [] && pulled == 0
      ensures !overrun ==>
                var t := Gather(Tally(old(Map()), 0, false, hasdc, old(DCtime)), old(idxstack[pulled..]), replies,
                                DCl, DCtO);
                Map() == t.iomap && DCtime == t.time && wkc == if t.valid then t.wkc else -1
      ensures !overrun ==> port.Stat() == Released(old(port.Stat()), old(idxstack[pulled..]))
    {
      hide Gather, GatherOne, Released, Fits, Put, Arrived, Copied, InMap, WordAt, Port.Stat, Map, Pending;
      wkc, overrun := 0, false;
      var valid_wkc, first := false, hasdc;
      ghost var stack, at := idxstack, pulled; // entries from `at` on are still to be handled
      ghost var fits := Fits(stack[at..], replies, hasdc, DCl, iomap.Length);
      ghost var t := Tally(Map(), 0, false, hasdc, DCtime);
      ghost var all := if fits then Gather(t, stack[at..], replies, DCl, DCtO) else t;
      ghost var stat := Released(port.Stat(), stack[at..]);
      PendingStart(t, stack[at..], replies, DCl, DCtO);
      var pos := PullIndex();
      while pos >= 0
        invariant Valid() && idxstack == stack && at <= |stack|
        invariant if pos >= 0 then pos == at < |stack| && pulled == pos + 1 else at == pulled == |stack|
        invariant Pending(Tally(Map(), wkc, valid_wkc, first, DCtime), stack[at..], replies, DCl, DCtO, fits, all)
        invariant stat == Released(port.Stat(), stack[at..])
        decreases |stack| - at
      {
        assert stack[at..][0] == idxstack[pos] && stack[at..][1..] == stack[at + 1..];
        wkc, first, valid_wkc, overrun :=
          ReceiveNext(idxstack[pos], replies, wkc, first, valid_wkc, stack[at..], fits, all);
        if overrun {
          return;
        }
        at := at + 1;
        pos := PullIndex();
      }
      assert stack[at..] == [];
      PendingEnd(Tally(Map(), wkc, valid_wkc, first, DCtime), replies, DCl, DCtO, fits, all);
      NothingReleased(port.Stat());
      idxstack, pulled := [], 0; // clear the stack
      if !valid_wkc { // no frames have arrived
        wkc := EC_NOFRAME;
      }
    }
  }
}
