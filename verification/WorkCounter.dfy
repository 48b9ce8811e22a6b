/** Working counters: what the slaves count with LRW, and with LRD and LWR. */
module WorkCounter {
  import opened Bytes
  import opened Datagram
  import opened ProcessData
  import opened LogicalExchange
  import opened ReadWriteExchange

  /** The logical windows of a slave: its outputs at outLo .. outHi-1, its inputs at inLo .. inHi-1. */
  datatype Windows = Windows(outLo: nat, outHi: nat, inLo: nat, inHi: nat)

  /** The datagram over the n bytes from addr on touches the window. */
  function Hit(lo: nat, hi: nat, addr: nat, n: nat): nat {
    if lo < addr + n && addr < hi && lo < hi && n > 0 then 1 else 0
  }

  /** A slave counts 1 for a read, 1 for a write, and 2 for the write part of a read-write. */
  function Count(w: Windows, com: byte, addr: nat, n: nat): nat {
    (if com == LWR then 0 else Hit(w.inLo, w.inHi, addr, n)) +
    (if com == LRD then 0 else (if com == LRW then 2 else 1) * Hit(w.outLo, w.outHi, addr, n))
  }

  function CountAll(ws: seq<Windows>, com: byte, addr: nat, n: nat): nat {
    if ws == [] then 0 else Count(ws[0], com, addr, n) + CountAll(ws[1..], com, addr, n)
  }

  function Hits(parts: seq<Part>, lo: nat, hi: nat): nat {
    if parts == [] then 0 else Hit(lo, hi, parts[0].addr, parts[0].len) + Hits(parts[1..], lo, hi)
  }

  /** Datagrams that lie behind a window do not touch it. */
  lemma {:induction false} NoHits(lens: seq<nat>, addr: nat, off: nat, rest: int, clip: bool, lo: nat, hi: nat)
    requires |lens| >= 1 && (clip ==> rest >= 0) && hi <= addr
    ensures Hits(Cut(lens, addr, off, rest, clip), lo, hi) == 0
    decreases |lens|
  {
    var len := if clip && rest < lens[0] then rest else lens[0];
    if rest - len != 0 && |lens| > 1 {
      NoHits(lens[1..], addr + len, off + len, rest - len, clip, lo, hi);
      assert Cut(lens, addr, off, rest, clip)[1..] == Cut(lens[1..], addr + len, off + len, rest - len, clip);
    } else {
      assert Cut(lens, addr, off, rest, clip)[1..] == [];
    }
  }

  /** Where the datagrams take their data from makes no difference. */
  lemma {:induction false} HitsMoved(lens: seq<nat>, addr: nat, off: nat, off': nat, rest: int, lo: nat, hi: nat)
    requires |lens| >= 1
    ensures Hits(Cut(lens, addr, off, rest, false), lo, hi) == Hits(Cut(lens, addr, off', rest, false), lo, hi)
    decreases |lens|
  {
    HitsStep(lens, addr, off, rest, false, lo, hi);
    HitsStep(lens, addr, off', rest, false, lo, hi);
    hide Cut, Hits;
    var len := lens[0];
    if rest - len != 0 && |lens| > 1 {
      HitsMoved(lens[1..], addr + len, off + len, off' + len, rest - len, lo, hi);
    }
  }

  lemma {:induction false} HitsStep(lens: seq<nat>, addr: nat, off: nat, rest: int, clip: bool, lo: nat, hi: nat)
    requires |lens| >= 1 && (clip ==> rest >= 0)
    ensures var len := if clip && rest < lens[0] then rest else lens[0];
            Hits(Cut(lens, addr, off, rest, clip), lo, hi) ==
            Hit(lo, hi, addr, len) +
            if rest - len != 0 && |lens| > 1 then Hits(Cut(lens[1..], addr + len, off + len, rest - len, clip), lo, hi)
            else 0
  {
    var len := if clip && rest < lens[0] then rest else lens[0];
    if rest - len != 0 && |lens| > 1 {
      assert Cut(lens, addr, off, rest, clip)[1..] == Cut(lens[1..], addr + len, off + len, rest - len, clip);
    } else {
      assert Cut(lens, addr, off, rest, clip)[1..] == [];
    }
  }

  /** A window is touched by as many datagrams when what lies behind it is cut off. */
  lemma {:induction false} ClipHits(lens: seq<nat>, addr: nat, off: nat, off': nat, total: nat, rest: nat, lo: nat,
                                    hi: nat)
    requires |lens| >= 1 && Sum(lens) == total && rest <= total && hi <= addr + rest
    ensures Hits(Cut(lens, addr, off, total, false), lo, hi) == Hits(Cut(lens, addr, off', rest, true), lo, hi)
    decreases |lens|
  {
    HitsStep(lens, addr, off, total, false, lo, hi);
    HitsStep(lens, addr, off', rest, true, lo, hi);
    assert |lens| == 1 ==> lens[1..] == [];
    hide Cut, Hits;
    var len := lens[0];
    if total - len != 0 && |lens| > 1 {
      if rest > len {
        ClipHits(lens[1..], addr + len, off + len, off' + len, total - len, rest - len, lo, hi);
      } else {
        NoHits(lens[1..], addr + len, off + len, total - len, false, lo, hi);
      }
    }
  }

  lemma {:induction false} ElementOfSum(lens: seq<nat>, i: nat)
    requires i < |lens|
    ensures lens[i] <= Sum(lens)
    decreases |lens|
  {
    if i > 0 {
      ElementOfSum(lens[1..], i - 1);
    }
  }

  /** And when what lies before it is. */
  lemma {:induction false} HeadHits(lens: seq<nat>, addr: nat, off: nat, off': nat, total: nat, skip: nat, lo: nat,
                                    hi: nat)
    requires |lens| >= 1 && skip <= lens[0] && addr + skip <= lo
    ensures Hits(Cut(lens, addr, off, total, false), lo, hi)
         == Hits(Cut([lens[0] - skip] + lens[1..], addr + skip, off', total - skip, false), lo, hi)
  {
    var len, tail := lens[0], [lens[0] - skip] + lens[1..];
    HitsStep(lens, addr, off, total, false, lo, hi);
    HitsStep(tail, addr + skip, off', total - skip, false, lo, hi);
    assert tail[1..] == lens[1..];
    hide Cut, Hits;
    if total - len != 0 && |lens| > 1 {
      HitsMoved(lens[1..], addr + len, off + len, off' + (len - skip), total - len, lo, hi);
      assert addr + skip + (len - skip) == addr + len && total - skip - (len - skip) == total - len;
    }
  }

  lemma {:induction false} NothingLeft(lens: seq<nat>, addr: nat, off: nat, i: nat, skip: nat, lo: nat, hi: nat)
    requires i < |lens| && Sum(lens) == 0 && skip <= lens[i]
    ensures skip == 0 && Hits(Cut([lens[i] - skip] + lens[i + 1..], addr, off, 0, false), lo, hi) == 0
  {
    ElementOfSum(lens, i);
    HitsStep([lens[i] - skip] + lens[i + 1..], addr, off, 0, false, lo, hi);
  }

  lemma {:induction false} TailHits(lens: seq<nat>, addr: nat, off: nat, off': nat, total: nat, i: nat, skip: nat,
                                    lo: nat, hi: nat)
    requires i < |lens| && Sum(lens) == total && skip <= lens[i] && Sum(lens[..i]) + skip <= total
    requires addr + Sum(lens[..i]) + skip <= lo
    ensures var before := Sum(lens[..i]) + skip;
            Hits(Cut(lens, addr, off, total, false), lo, hi)
            == Hits(Cut([lens[i] - skip] + lens[i + 1..], addr + before, off', total - before, false), lo, hi)
    decreases |lens|
  {
    hide Cut, Hits;
    if i == 0 {
      assert lens[..0] == [];
      HeadHits(lens, addr, off, off', total, skip, lo, hi);
    } else {
      var len, rest := lens[0], lens[1..];
      assert lens[..i][1..] == rest[..i - 1] && rest[i..] == lens[i + 1..];
      assert Sum(lens[..i]) == len + Sum(rest[..i - 1]);
      HitsStep(lens, addr, off, total, false, lo, hi);
      if total - len != 0 {
        TailHits(rest, addr + len, off + len, off', total - len, i - 1, skip, lo, hi);
      } else {
        NothingLeft(rest, addr + Sum(lens[..i]) + skip, off', i - 1, skip, lo, hi);
      }
    }
  }

  // ----- the datagrams of a cycle -----

  function Segments(g: Group): seq<nat>
    requires Segmented(g)
  {
    g.IOsegment[..g.nsegments]
  }

  function LrwParts(g: Group): seq<Part>
    requires Segmented(g)
  {
    Cut(Lens(g, 0, 0), g.logstartaddr, Source(g), CycleLength(g, false), false)
  }

  function LrdParts(g: Group): seq<Part>
    requires Segmented(g)
  {
    Cut(Lens(g, g.Isegment, g.Ioffset), g.logstartaddr + g.Obytes, g.inputs, g.Ibytes, false)
  }

  function LwrParts(g: Group): seq<Part>
    requires Segmented(g)
  {
    Cut(Lens(g, 0, 0), g.logstartaddr, g.outputs, g.Obytes, true)
  }

  /** The slave's outputs lie in the output area and its inputs in the input area. */
  predicate Placed(g: Group, w: Windows)
  {
    var outputs, inputs, end := g.logstartaddr, g.logstartaddr + g.Obytes, g.logstartaddr + g.Obytes + g.Ibytes;
    && (w.outLo == w.outHi || outputs <= w.outLo < w.outHi <= inputs)
    && (w.inLo == w.inHi || inputs <= w.inLo < w.inHi <= end)
  }

  lemma {:induction false} EmptyWindow(parts: seq<Part>, lo: nat)
    ensures Hits(parts, lo, lo) == 0
    decreases |parts|
  {
    if parts != [] {
      EmptyWindow(parts[1..], lo);
    }
  }

  /** Each window of a slave is touched by as many LRW datagrams as LRD or LWR datagrams, whether segment
      boundaries split it or not: the boundaries are the same. */
  lemma {:induction false} WindowHits(g: Group, w: Windows)
    requires Mapped(g, false) && Placed(g, w)
    ensures Hits(LrwParts(g), w.outLo, w.outHi) == Hits(LwrParts(g), w.outLo, w.outHi)
    ensures Hits(LrwParts(g), w.inLo, w.inHi) == Hits(LrdParts(g), w.inLo, w.inHi)
  {
    AllLens(g);
    var segs, at, total := Segments(g), g.logstartaddr, CycleLength(g, false);
    if w.outLo == w.outHi {
      EmptyWindow(LrwParts(g), w.outLo);
      EmptyWindow(LwrParts(g), w.outLo);
    } else {
      ClipHits(segs, at, Source(g), g.outputs, total, g.Obytes, w.outLo, w.outHi);
    }
    if w.inLo == w.inHi {
      EmptyWindow(LrwParts(g), w.inLo);
      EmptyWindow(LrdParts(g), w.inLo);
    } else {
      var i := g.Isegment;
      assert segs[..i] == g.IOsegment[..i];
      assert Lens(g, i, g.Ioffset) == [segs[i] - g.Ioffset] + segs[i + 1..];
      TailHits(segs, at, Source(g), g.inputs, total, i, g.Ioffset, w.inLo, w.inHi);
    }
  }

  // ----- adding up -----

  function PartsCount(ws: seq<Windows>, com: byte, parts: seq<Part>): nat {
    if parts == [] then 0 else CountAll(ws, com, parts[0].addr, parts[0].len) + PartsCount(ws, com, parts[1..])
  }

  /** The slaves' counts are those of a bus. */
  ghost predicate Counts(bus: Bus, ws: seq<Windows>) {
    forall com, addr, n :: com in {LRD, LWR, LRW} ==> bus.count(com, addr, n) == CountAll(ws, com, addr, n)
  }

  lemma {:induction false} CountersOfParts(bus: Bus, ws: seq<Windows>, com: byte, parts: seq<Part>, shift: nat)
    requires Counts(bus, ws) && com in {LRD, LWR, LRW}
    ensures Counters(bus, Jobs(com, parts, shift), AllGot(|parts|))
            == (if com == LWR then 2 else 1) * PartsCount(ws, com, parts)
    decreases |parts|
  {
    if parts != [] {
      assert Jobs(com, parts, shift)[1..] == Jobs(com, parts[1..], shift) &&
             AllGot(|parts|)[1..] == AllGot(|parts[1..]|);
      CountersOfParts(bus, ws, com, parts[1..], shift);
      assert Counted(bus, Jobs(com, parts, shift)[0])
          == (if com == LWR then 2 else 1) * CountAll(ws, com, parts[0].addr, parts[0].len);
    }
  }

  lemma {:induction false} CountersJoin(bus: Bus, jobs: seq<Job>, got: seq<bool>, jobs': seq<Job>, got': seq<bool>)
    requires |jobs| == |got| && |jobs'| == |got'|
    ensures Counters(bus, jobs + jobs', got + got') == Counters(bus, jobs, got) + Counters(bus, jobs', got')
    decreases |jobs|
  {
    if jobs == [] {
      assert jobs + jobs' == jobs' && got + got' == got';
    } else {
      assert (jobs + jobs')[1..] == jobs[1..] + jobs' && (got + got')[1..] == got[1..] + got';
      CountersJoin(bus, jobs[1..], got[1..], jobs', got');
    }
  }

  lemma {:induction false} CountOne(w: Windows, com: byte, addr: nat, n: nat)
    ensures CountAll([w], com, addr, n) == Count(w, com, addr, n)
  {
    assert [w][1..] == [];
  }

  lemma {:induction false} PartsCountSplit(ws: seq<Windows>, com: byte, parts: seq<Part>)
    requires ws != []
    ensures PartsCount(ws, com, parts) == PartsCount([ws[0]], com, parts) + PartsCount(ws[1..], com, parts)
    decreases |parts|
  {
    if parts != [] {
      PartsCountSplit(ws, com, parts[1..]);
      CountOne(ws[0], com, parts[0].addr, parts[0].len);
    }
  }

  lemma {:induction false} OneSlave(w: Windows, com: byte, parts: seq<Part>)
    requires com in {LRD, LWR, LRW}
    ensures PartsCount([w], com, parts) ==
            (if com == LWR then 0 else Hits(parts, w.inLo, w.inHi)) +
            (if com == LRD then 0 else (if com == LRW then 2 else 1) * Hits(parts, w.outLo, w.outHi))
    decreases |parts|
  {
    if parts != [] {
      OneSlave(w, com, parts[1..]);
      CountOne(w, com, parts[0].addr, parts[0].len);
    }
  }

  lemma {:induction false} SlavesCount(g: Group, ws: seq<Windows>)
    requires Mapped(g, false) && forall w :: w in ws ==> Placed(g, w)
    ensures PartsCount(ws, LRW, LrwParts(g)) == PartsCount(ws, LRD, LrdParts(g)) + 2 * PartsCount(ws, LWR, LwrParts(g))
    decreases |ws|
  {
    if ws == [] {
      NoSlaves(LRW, LrwParts(g));
      NoSlaves(LRD, LrdParts(g));
      NoSlaves(LWR, LwrParts(g));
    } else {
      PartsCountSplit(ws, LRW, LrwParts(g));
      PartsCountSplit(ws, LRD, LrdParts(g));
      PartsCountSplit(ws, LWR, LwrParts(g));
      OneSlave(ws[0], LRW, LrwParts(g));
      OneSlave(ws[0], LRD, LrdParts(g));
      OneSlave(ws[0], LWR, LwrParts(g));
      WindowHits(g, ws[0]);
      SlavesCount(g, ws[1..]);
    }
  }

  lemma {:induction false} NoSlaves(com: byte, parts: seq<Part>)
    ensures PartsCount([], com, parts) == 0
    decreases |parts|
  {
    if parts != [] {
      NoSlaves(com, parts[1..]);
    }
  }

  /** Areas without data are touched by nobody. */
  lemma {:induction false} EmptyArea(g: Group, ws: seq<Windows>)
    requires Mapped(g, false) && forall w :: w in ws ==> Placed(g, w)
    ensures g.Ibytes == 0 ==> PartsCount(ws, LRD, LrdParts(g)) == 0
    ensures g.Obytes == 0 ==> PartsCount(ws, LWR, LwrParts(g)) == 0
    decreases |ws|
  {
    if ws == [] {
      NoSlaves(LRD, LrdParts(g));
      NoSlaves(LWR, LwrParts(g));
    } else {
      PartsCountSplit(ws, LRD, LrdParts(g));
      PartsCountSplit(ws, LWR, LwrParts(g));
      OneSlave(ws[0], LRD, LrdParts(g));
      OneSlave(ws[0], LWR, LwrParts(g));
      assert Placed(g, ws[0]);
      if g.Ibytes == 0 {
        EmptyWindow(LrdParts(g), ws[0].inLo);
      }
      if g.Obytes == 0 {
        EmptyWindow(LwrParts(g), ws[0].outLo);
      }
      EmptyArea(g, ws[1..]);
    }
  }

  /** The result of a cycle is the same with LRW and with LRD and LWR, wherever the segments end. */
  lemma {:induction false} SameCounters(g: Group, bus: Bus, ws: seq<Windows>)
    requires Mapped(g, false) && CycleLength(g, false) > 0 && g.blockLRW
    requires Counts(bus, ws) && forall w :: w in ws ==> Placed(g, w)
    ensures var free := g.(blockLRW := false);
            Counters(bus, Plan(g, false), AllGot(|Plan(g, false)|))
              == Counters(bus, Plan(free, false), AllGot(|Plan(free, false)|))
  {
    hide Cut, Placed, Counts;
    var free := g.(blockLRW := false);
    var rd, wr := ReadJobs(g), WriteJobs(g);
    SlavesCount(g, ws);
    EmptyArea(g, ws);
    CountersOfParts(bus, ws, LRW, LrwParts(g), 0);
    assert LrwParts(free) == LrwParts(g);
    assert Plan(free, false) == Jobs(LRW, LrwParts(g), 0);
    if g.Ibytes > 0 {
      CountersOfParts(bus, ws, LRD, LrdParts(g), 0);
    }
    if g.Obytes > 0 {
      CountersOfParts(bus, ws, LWR, LwrParts(g), 0);
    }
    AllGotJoin(|rd|, |wr|);
    CountersJoin(bus, rd, AllGot(|rd|), wr, AllGot(|wr|));
  }
}
