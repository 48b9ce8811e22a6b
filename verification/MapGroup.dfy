/** ethercatconfig.c: ecx_config_map_group, the sequential map of all slaves of a group. */
module MapGroup {
  import opened Mapping
  import opened Segments
  import PD = ProcessData

  /** The logical bits of one slave: the cursor c before it was mapped, its bits [from, to). */
  datatype Run = Run(slave: nat, fs: seq<Fmmu>, c: nat, from: nat, to: nat)

  predicate Member(s: Slave, group: nat) { group == 0 || s.group == group }

  /** Which of the first n slaves are mapped. */
  function Chosen(slaves: seq<Slave>, kind: Kind, group: nat, n: nat): (r: seq<nat>)
    requires n <= |slaves|
    ensures forall i :: 0 <= i < |r| ==> r[i] < n
  {
    if n == 0 then []
    else Chosen(slaves, kind, group, n - 1) +
         if Member(slaves[n - 1], group) && Bits(slaves[n - 1], kind) > 0 then [n - 1] else []
  }

  predicate AllSized(slaves: seq<Slave>) { forall k :: 0 <= k < |slaves| ==> Sized(slaves[k]) }

  /** The runs are those of the listed slaves, and each starts where the one before it stopped. */
  ghost predicate LaidOut(slaves: seq<Slave>, kind: Kind, order: seq<nat>, runs: seq<Run>, start: nat, end: nat)
    requires AllSized(slaves)
  {
    && |runs| == |order|
    && if runs == [] then start == end
       else
         var r := runs[|runs| - 1];
         && r.slave == order[|runs| - 1] < |slaves| && r.to == end
         && Allotted(slaves[r.slave], kind, r.fs, r.c, r.from, r.to)
         && LaidOut(slaves, kind, order[..|runs| - 1], runs[..|runs| - 1], start, r.c)
  }

  /** The slaves with their pointers and FMMUs set. */
  function After(slaves: seq<Slave>, kind: Kind, runs: seq<Run>, base: nat): (r: seq<Slave>)
    ensures |r| == |slaves|
  {
    if runs == [] then slaves
    else
      var before, run := After(slaves, kind, runs[..|runs| - 1], base), runs[|runs| - 1];
      if run.slave < |slaves| && base <= run.from / 8
      then before[run.slave := Mapped(before[run.slave], kind, run.fs, run.from, base)]
      else before
  }

  /** By how many bytes each run moved the logical address on. */
  function Advances(runs: seq<Run>): (r: seq<nat>)
    ensures |r| == |runs|
  {
    seq(|runs|, k requires 0 <= k < |runs| =>
      if runs[k].to / 8 >= runs[k].c / 8 then runs[k].to / 8 - runs[k].c / 8 else 0)
  }

  /** The last byte of a direction is filled up. */
  function Steps(runs: seq<Run>, end: nat): seq<nat> {
    Advances(runs) + if end % 8 > 0 then [1] else []
  }

  lemma {:induction false} LaidOutOn(slaves: seq<Slave>, kind: Kind, order: seq<nat>, runs: seq<Run>, start: nat,
                                     r: Run)
    requires AllSized(slaves) && LaidOut(slaves, kind, order, runs, start, r.c)
    requires r.slave < |slaves| && Allotted(slaves[r.slave], kind, r.fs, r.c, r.from, r.to)
    ensures LaidOut(slaves, kind, order + [r.slave], runs + [r], start, r.to)
  {
    assert (runs + [r])[..|runs|] == runs && (order + [r.slave])[..|runs|] == order;
  }

  lemma {:induction false} AdvancesOn(st: Segmenter, runs: seq<Run>, r: Run)
    requires st.Valid() && r.c / 8 <= r.to / 8
    ensures PackAll(st, Advances(runs + [r])) == Pack(PackAll(st, Advances(runs)), r.to / 8 - r.c / 8)
  {
    assert Advances(runs + [r]) == Advances(runs) + [r.to / 8 - r.c / 8];
    assert Advances(runs + [r])[..|runs|] == Advances(runs);
  }

  lemma {:induction false} AfterOn(slaves: seq<Slave>, kind: Kind, runs: seq<Run>, base: nat, r: Run)
    requires r.slave < |slaves| && base <= r.from / 8
    ensures After(slaves, kind, runs + [r], base) ==
            var before := After(slaves, kind, runs, base);
            before[r.slave := Mapped(before[r.slave], kind, r.fs, r.from, base)]
  {
    assert (runs + [r])[..|runs|] == runs;
  }

  /** A mapped slave has the sizes and sync managers it had. */
  predicate SameData(s: Slave, t: Slave) {
    && s.Obits == t.Obits && s.Obytes == t.Obytes && s.Ibits == t.Ibits && s.Ibytes == t.Ibytes
    && s.SM == t.SM && s.group == t.group && s.blockLRW == t.blockLRW
  }

  lemma {:induction false} MappedSame(s: Slave, kind: Kind, fs: seq<Fmmu>, from: nat, base: nat)
    requires base <= from / 8
    ensures SameData(s, Mapped(s, kind, fs, from, base))
  {
  }

  predicate AllSameData(s: seq<Slave>, t: seq<Slave>) {
    |s| == |t| && forall k :: 0 <= k < |s| ==> SameData(s[k], t[k])
  }

  lemma {:induction false} AfterSameData(slaves: seq<Slave>, kind: Kind, runs: seq<Run>, base: nat)
    ensures AllSameData(slaves, After(slaves, kind, runs, base))
  {
    if runs != [] {
      AfterSameData(slaves, kind, runs[..|runs| - 1], base);
    }
  }

  lemma {:induction false} SameAllotted(s: Slave, t: Slave, kind: Kind, fs: seq<Fmmu>, c: nat, from: nat, to: nat)
    requires SameData(s, t) && Sized(t) && Allotted(t, kind, fs, c, from, to)
    ensures Allotted(s, kind, fs, c, from, to)
  {
  }

  lemma {:induction false} AllottedOrder(s: Slave, kind: Kind, fs: seq<Fmmu>, c: nat, from: nat, to: nat)
    requires Sized(s) && Allotted(s, kind, fs, c, from, to)
    ensures c <= from <= to
  {
  }

  /** The group after the outputs are mapped up to the logical address. */
  function OutputsMapped(g: PD.Group, LogAddr: nat, st: Segmenter): PD.Group
    requires g.logstartaddr <= LogAddr
  {
    g.(outputs := 0, Obytes := LogAddr - g.logstartaddr, Isegment := st.currentsegment, Ioffset := st.segmentsize)
  }

  /** The group after the inputs are mapped up to the logical address. */
  function InputsMapped(g: PD.Group, LogAddr: nat, st: Segmenter, block: bool): PD.Group
    requires g.logstartaddr + g.Obytes <= LogAddr && st.Valid()
  {
    g.(inputs := g.Obytes, Ibytes := LogAddr - g.logstartaddr - g.Obytes,
       nsegments := st.currentsegment + 1, IOsegment := st.IOsegment[st.currentsegment := st.segmentsize],
       blockLRW := g.blockLRW || block)
  }

  predicate AnyBlocks(slaves: seq<Slave>, group: nat, n: nat)
    requires n <= |slaves|
  {
    exists k :: 0 <= k < n && Member(slaves[k], group) && slaves[k].blockLRW
  }

  /** What a pass over the slaves has done after the first n of them. */
  ghost predicate Passed(slaves: seq<Slave>, now: seq<Slave>, kind: Kind, group: nat, base: nat, n: nat,
                         runs: seq<Run>, start: nat, end: nat, st: Segmenter, st': Segmenter, block: bool)
    requires AllSized(slaves) && n <= |slaves| && st.Valid()
  {
    && LaidOut(slaves, kind, Chosen(slaves, kind, group, n), runs, start, end)
    && now == After(slaves, kind, runs, base)
    && st' == PackAll(st, Advances(runs))
    && block == AnyBlocks(slaves, group, n)
  }

  lemma {:induction false} PassStart(slaves: seq<Slave>, kind: Kind, group: nat, base: nat, c: nat, st: Segmenter)
    requires AllSized(slaves) && st.Valid()
    ensures Passed(slaves, slaves, kind, group, base, 0, [], c, c, st, st, false)
  {
  }

  lemma {:induction false} PassValid(slaves: seq<Slave>, now: seq<Slave>, kind: Kind, group: nat, base: nat, n: nat,
                                     runs: seq<Run>, start: nat, end: nat, st: Segmenter, st': Segmenter, block: bool)
    requires AllSized(slaves) && n <= |slaves| && st.Valid()
    requires Passed(slaves, now, kind, group, base, n, runs, start, end, st, st', block)
    ensures |now| == |slaves| && AllSized(now) && st'.Valid()
  {
    AfterSameData(slaves, kind, runs, base);
    assert forall k :: 0 <= k < |now| ==> SameData(slaves[k], now[k]);
  }

  lemma {:induction false} PassSkip(slaves: seq<Slave>, now: seq<Slave>, kind: Kind, group: nat, base: nat, n: nat,
                                    runs: seq<Run>, start: nat, end: nat, st: Segmenter, st': Segmenter, block: bool)
    requires AllSized(slaves) && n < |slaves| && st.Valid()
    requires Passed(slaves, now, kind, group, base, n, runs, start, end, st, st', block)
    requires |now| == |slaves| && !(Member(now[n], group) && Bits(now[n], kind) > 0)
    ensures Passed(slaves, now, kind, group, base, n + 1, runs, start, end, st, st',
                   block || (Member(now[n], group) && now[n].blockLRW))
  {
    hide LaidOut, After;
    AfterSameData(slaves, kind, runs, base);
    assert SameData(slaves[n], now[n]);
    assert Chosen(slaves, kind, group, n + 1) == Chosen(slaves, kind, group, n);
  }

  lemma {:induction false} PassRun(slaves: seq<Slave>, now: seq<Slave>, kind: Kind, group: nat, base: nat, n: nat,
                                   runs: seq<Run>, start: nat, st: Segmenter, st': Segmenter, block: bool, r: Run)
    requires AllSized(slaves) && n < |slaves| && st.Valid()
    requires Passed(slaves, now, kind, group, base, n, runs, start, r.c, st, st', block)
    requires |now| == |slaves| && AllSized(now) && st'.Valid() && Member(now[n], group) && Bits(now[n], kind) > 0
    requires r.slave == n && Allotted(now[n], kind, r.fs, r.c, r.from, r.to) && base <= r.from / 8
    ensures r.c / 8 <= r.to / 8
    ensures Passed(slaves, now[n := Mapping.Mapped(now[n], kind, r.fs, r.from, base)], kind, group, base, n + 1,
                   runs + [r], start, r.to, st, Pack(st', r.to / 8 - r.c / 8), block || now[n].blockLRW)
  {
    hide LaidOut, After, PackAll, Pack, Allotted, Mapping.Mapped;
    AfterSameData(slaves, kind, runs, base);
    assert SameData(slaves[n], now[n]);
    SameAllotted(slaves[n], now[n], kind, r.fs, r.c, r.from, r.to);
    AllottedOrder(slaves[n], kind, r.fs, r.c, r.from, r.to);
    LaidOutOn(slaves, kind, Chosen(slaves, kind, group, n), runs, start, r);
    AdvancesOn(st, runs, r);
    AfterOn(slaves, kind, runs, base, r);
  }

  function Base(g: PD.Group, group: nat): nat { if group == 0 then 0 else g.logstartaddr }

  function Unsegmented(g: PD.Group): Segmenter { Segmenter(g.IOsegment, 0, 0) }

  /** All outputs from the group's start address on, then from the next byte edge on all inputs. */
  ghost predicate GroupMapped(slaves: seq<Slave>, g: PD.Group, group: nat, slaves': seq<Slave>, g': PD.Group,
                              oruns: seq<Run>, oend: nat, iruns: seq<Run>, iend: nat)
    requires AllSized(slaves) && |g.IOsegment| == EC_MAXIOSEGMENTS
  {
    var mst := PackAll(Unsegmented(g), Steps(oruns, oend));
    && LaidOut(slaves, Output, Chosen(slaves, Output, group, |slaves|), oruns, 8 * g.logstartaddr, oend)
    && LaidOut(slaves, Input, Chosen(slaves, Input, group, |slaves|), iruns, AlignUp(oend), iend)
    && slaves' == After(After(slaves, Output, oruns, Base(g, group)), Input, iruns, Base(g, group))
    && g.logstartaddr <= AlignUp(oend) / 8 <= AlignUp(iend) / 8
    && g' == InputsMapped(OutputsMapped(g, AlignUp(oend) / 8, mst), AlignUp(iend) / 8,
                          PackAll(mst, Steps(iruns, iend)), AnyBlocks(slaves, group, |slaves|))
  }

  /** The group is blocked if it was, or a slave of it asks for that; its clock and its start stay. */
  lemma {:induction false} WhatBlocks(slaves: seq<Slave>, g: PD.Group, group: nat, slaves': seq<Slave>, g': PD.Group,
                                      oruns: seq<Run>, oend: nat, iruns: seq<Run>, iend: nat)
    requires AllSized(slaves) && |g.IOsegment| == EC_MAXIOSEGMENTS
    requires GroupMapped(slaves, g, group, slaves', g', oruns, oend, iruns, iend)
    ensures g'.blockLRW <==> g.blockLRW || exists k ::
              0 <= k < |slaves| && (group == 0 || slaves[k].group == group) && slaves[k].blockLRW
    ensures g'.logstartaddr == g.logstartaddr && g'.outputs == 0 && g'.inputs == g'.Obytes
    ensures g'.hasdc == g.hasdc && g'.dcadr == g.dcadr
  {
    hide LaidOut, After, PackAll, Steps, Chosen;
  }

  lemma {:induction false} StepsPacked(st: Segmenter, runs: seq<Run>, end: nat)
    requires st.Valid()
    ensures PackAll(st, Steps(runs, end)) ==
            if end % 8 > 0 then Pack(PackAll(st, Advances(runs)), 1) else PackAll(st, Advances(runs))
  {
    hide Advances;
    if end % 8 > 0 {
      assert (Advances(runs) + [1])[..|runs|] == Advances(runs);
    } else {
      assert Advances(runs) + [] == Advances(runs);
    }
  }

  lemma {:induction false} SameLaidOut(slaves: seq<Slave>, mid: seq<Slave>, kind: Kind, order: seq<nat>,
                                       runs: seq<Run>, start: nat, end: nat)
    requires AllSized(slaves) && AllSized(mid) && AllSameData(slaves, mid)
    requires LaidOut(mid, kind, order, runs, start, end)
    ensures LaidOut(slaves, kind, order, runs, start, end)
  {
    hide Allotted;
    if runs != [] {
      var r := runs[|runs| - 1];
      SameLaidOut(slaves, mid, kind, order[..|runs| - 1], runs[..|runs| - 1], start, r.c);
      SameAllotted(slaves[r.slave], mid[r.slave], kind, r.fs, r.c, r.from, r.to);
    }
  }

  lemma {:induction false} SameChosen(slaves: seq<Slave>, mid: seq<Slave>, kind: Kind, group: nat, n: nat)
    requires AllSameData(slaves, mid) && n <= |slaves|
    ensures Chosen(slaves, kind, group, n) == Chosen(mid, kind, group, n)
    ensures AnyBlocks(slaves, group, n) == AnyBlocks(mid, group, n)
  {
    if n > 0 {
      SameChosen(slaves, mid, kind, group, n - 1);
      assert SameData(slaves[n - 1], mid[n - 1]);
    }
  }

  lemma {:induction false} LaidOutGrows(slaves: seq<Slave>, kind: Kind, order: seq<nat>, runs: seq<Run>, start: nat,
                                        end: nat)
    requires AllSized(slaves) && LaidOut(slaves, kind, order, runs, start, end)
    ensures start <= end
  {
    hide Allotted;
    if runs != [] {
      var r := runs[|runs| - 1];
      LaidOutGrows(slaves, kind, order[..|runs| - 1], runs[..|runs| - 1], start, r.c);
      AllottedOrder(slaves[r.slave], kind, r.fs, r.c, r.from, r.to);
    }
  }

  lemma {:induction false} BothPasses(slaves: seq<Slave>, mid: seq<Slave>, slaves': seq<Slave>, g: PD.Group,
                                      group: nat, g': PD.Group, oruns: seq<Run>, oend: nat, ost: Segmenter,
                                      oblock: bool, olog: nat, mst: Segmenter, iruns: seq<Run>, iend: nat,
                                      ist: Segmenter, ilog: nat, st: Segmenter, block: bool)
    requires AllSized(slaves) && AllSized(mid) && |mid| == |slaves| && |g.IOsegment| == EC_MAXIOSEGMENTS
    requires ost.Valid() && mst.Valid() && ist.Valid() && st.Valid()
    requires Passed(slaves, mid, Output, group, Base(g, group), |slaves|, oruns, 8 * g.logstartaddr, oend,
                    Unsegmented(g), ost, oblock)
    requires 8 * olog == AlignUp(oend) && mst == if oend % 8 > 0 then Pack(ost, 1) else ost
    requires Passed(mid, slaves', Input, group, Base(g, group), |mid|, iruns, 8 * olog, iend, mst, ist, block)
    requires 8 * ilog == AlignUp(iend) && st == if iend % 8 > 0 then Pack(ist, 1) else ist
    requires g.logstartaddr <= olog <= ilog
    requires g' == InputsMapped(OutputsMapped(g, olog, mst), ilog, st, block)
    ensures GroupMapped(slaves, g, group, slaves', g', oruns, oend, iruns, iend)
  {
    hide LaidOut, After, PackAll, Pack, Advances, Allotted, AnyBlocks, Chosen;
    StepsPacked(Unsegmented(g), oruns, oend);
    StepsPacked(mst, iruns, iend);
    AfterSameData(slaves, Output, oruns, Base(g, group));
    SameLaidOut(slaves, mid, Input, Chosen(mid, Input, group, |mid|), iruns, AlignUp(oend), iend);
    SameChosen(slaves, mid, Input, group, |slaves|);
  }

  /** The fields of ecx_contextt that mapping reads and writes.  slavelist[k] is slave k + 1. */
  class Context {
    var slavelist: seq<Slave>
    var grouplist: seq<PD.Group>

    ghost predicate Valid()
      reads this
    {
      AllSized(slavelist) && forall g :: 0 <= g < |grouplist| ==> |grouplist[g].IOsegment| == EC_MAXIOSEGMENTS
    }

    /** One of the two passes over the slaves: all outputs, or all inputs. */
    method MapAll(kind: Kind, group: nat, base: nat, logAddr: nat, bitPos: nat, st: Segmenter)
      returns (LogAddr: nat, BitPos: nat, st': Segmenter, block: bool, ghost runs: seq<Run>)
      requires AllSized(slavelist) && st.Valid() && bitPos < 8 && base <= logAddr
      modifies this`slavelist
      ensures BitPos < 8 && logAddr <= LogAddr && st'.Valid() && |slavelist| == |old(slavelist)|
      ensures Passed(old(slavelist), slavelist, kind, group, base, |old(slavelist)|, runs,
                     8 * logAddr + bitPos, 8 * LogAddr + BitPos, st, st', block)
    {
      hide Passed, Pack, Allotted, Mapping.Mapped;
      LogAddr, BitPos, st', block, runs := logAddr, bitPos, st, false, [];
      ghost var slaves, start := slavelist, 8 * logAddr + bitPos;
      PassStart(slaves, kind, group, base, start, st);
      var oLogAddr := LogAddr;
      var slave := 0;
      while slave < |slavelist|
        invariant slave <= |slavelist| == |slaves| && AllSized(slavelist) && st'.Valid()
        invariant BitPos < 8 && logAddr <= oLogAddr == LogAddr
        invariant Passed(slaves, slavelist, kind, group, base, slave, runs, start, 8 * LogAddr + BitPos, st, st', block)
      {
        ghost var now := slavelist;
        if (group == 0 || group == slavelist[slave].group) && Bits(slavelist[slave], kind) > 0 {
          ghost var cursor := 8 * LogAddr + BitPos;
          var s;
          ghost var fs, from;
          s, LogAddr, BitPos, fs, from := CreateMappings(slavelist[slave], kind, base, LogAddr, BitPos);
          ghost var r := Run(slave, fs, cursor, from, 8 * LogAddr + BitPos);
          PassRun(slaves, now, kind, group, base, slave, runs, start, st, st', block, r);
          MappedSame(slavelist[slave], kind, fs, from, base);
          slavelist := slavelist[slave := s];
          st' := AddToSegments(st', LogAddr - oLogAddr);
          oLogAddr := LogAddr;
          runs := runs + [r];
        } else {
          PassSkip(slaves, now, kind, group, base, slave, runs, start, 8 * LogAddr + BitPos, st, st', block);
        }
        if (group == 0 || group == slavelist[slave].group) && slavelist[slave].blockLRW {
          block := true;
        }
        slave := slave + 1;
        PassValid(slaves, slavelist, kind, group, base, slave, runs, start, 8 * LogAddr + BitPos, st, st', block);
      }
    }

    /** A last byte that was only started is filled up. */
    method FillUp(logAddr: nat, bitPos: nat, st: Segmenter) returns (LogAddr: nat, st': Segmenter)
      requires bitPos < 8 && st.Valid()
      ensures 8 * LogAddr == AlignUp(8 * logAddr + bitPos) && st'.Valid()
      ensures st' == if bitPos > 0 then Pack(st, 1) else st
    {
      LogAddr, st' := logAddr, st;
      if bitPos != 0 {
        LogAddr := LogAddr + 1;
        st' := AddToSegments(st', 1);
      }
    }

    /** ecx_config_map_group */
    method ConfigMapGroup(group: nat)
      returns (size: nat, ghost oruns: seq<Run>, ghost oend: nat, ghost iruns: seq<Run>, ghost iend: nat)
      requires Valid()
      modifies this
      ensures |slavelist| == |old(slavelist)| && |grouplist| == |old(grouplist)|
      ensures if |slavelist| > 0 && group < |grouplist|
              then GroupMapped(old(slavelist), old(grouplist)[group], group, slavelist, grouplist[group], oruns,
                               oend, iruns, iend)
                   && grouplist == old(grouplist)[group := grouplist[group]]
                   && size == grouplist[group].Obytes + grouplist[group].Ibytes
              else size == 0 && slavelist == old(slavelist) && grouplist == old(grouplist)
      ensures |slavelist| > 0 && group < |grouplist| ==>
                var g, g', slaves := old(grouplist)[group], grouplist[group], old(slavelist);
                && (g'.blockLRW <==> g.blockLRW || exists k ::
                      0 <= k < |slaves| && (group == 0 || slaves[k].group == group) && slaves[k].blockLRW)
                && g'.logstartaddr == g.logstartaddr && g'.outputs == 0 && g'.inputs == g'.Obytes
                && g'.hasdc == g.hasdc && g'.dcadr == g.dcadr
    {
      hide Passed, Pack;
      size, oruns, oend, iruns, iend := 0, [], 0, [], 0;
      if |slavelist| > 0 && group < |grouplist| {
        var g := grouplist[group];
        var base := if group == 0 then 0 else g.logstartaddr;
        var LogAddr: nat, BitPos: nat, st := g.logstartaddr, 0, Segmenter(g.IOsegment, 0, 0);
        var block;
        ghost var slaves := slavelist;
        LogAddr, BitPos, st, block, oruns := MapAll(Output, group, base, LogAddr, BitPos, st);
        oend := 8 * LogAddr + BitPos;
        ghost var ost, oblock := st, block;
        LogAddr, st := FillUp(LogAddr, BitPos, st);
        ghost var mid, olog, mst := slavelist, LogAddr, st;
        g := OutputsMapped(g, LogAddr, st);
        PassValid(slaves, slavelist, Output, group, base, |slaves|, oruns, 8 * g.logstartaddr, oend,
                  Segmenter(g.IOsegment, 0, 0), ost, block);
        LogAddr, BitPos, st, block, iruns := MapAll(Input, group, base, LogAddr, 0, st);
        iend := 8 * LogAddr + BitPos;
        ghost var ist := st;
        LogAddr, st := FillUp(LogAddr, BitPos, st);
        g := InputsMapped(g, LogAddr, st, block);
        PassValid(mid, slavelist, Input, group, base, |mid|, iruns, AlignUp(oend), iend, mst, ist, block);
        grouplist := grouplist[group := g];
        size := LogAddr - g.logstartaddr;
        BothPasses(slaves, mid, slavelist, old(grouplist)[group], group, g, oruns, oend, ost, oblock, olog, mst,
                   iruns, iend, ist, LogAddr, st, block);
        WhatBlocks(slaves, old(grouplist)[group], group, slavelist, g, oruns, oend, iruns, iend);
      }
    }
  }
}
