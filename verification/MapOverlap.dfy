/** ethercatconfig.c: ecx_config_overlap_map_group, where a slave's outputs and inputs share logical
    addresses. */
module MapOverlap {
  import opened Mapping
  import opened Segments
  import opened MapGroup
  import opened MapLayout
  import PD = ProcessData
  import L = LogicalExchange

  /** The logical bytes of one slave: outputs in [start, oend), inputs in [start, iend). */
  datatype Slot = Slot(slave: nat, start: nat, ofs: seq<Fmmu>, oend: nat, ifs: seq<Fmmu>, iend: nat)

  function Next(slot: Slot): nat { PD.Max(slot.oend, slot.iend) }

  /** One direction of a slave is mapped to whole bytes. */
  ghost predicate Occupies(s: Slave, kind: Kind, fs: seq<Fmmu>, start: nat, end: nat)
    requires Sized(s)
  {
    if Bits(s, kind) == 0 then fs == [] && end == start
    else exists to :: Allotted(s, kind, fs, 8 * start, 8 * start, to) && AlignUp(to) == 8 * end
  }

  ghost predicate Fills(s: Slave, slot: Slot)
    requires Sized(s)
  {
    && slot.start <= slot.oend && slot.start <= slot.iend
    && Occupies(s, Output, slot.ofs, slot.start, slot.oend) && Occupies(s, Input, slot.ifs, slot.start, slot.iend)
  }

  /** The slaves of the group among the first n. */
  function Members(slaves: seq<Slave>, group: nat, n: nat): (r: seq<nat>)
    requires n <= |slaves|
    ensures forall i :: 0 <= i < |r| ==> r[i] < n
  {
    if n == 0 then [] else Members(slaves, group, n - 1) + if Member(slaves[n - 1], group) then [n - 1] else []
  }

  ghost predicate Slotted(slaves: seq<Slave>, order: seq<nat>, slots: seq<Slot>, start: nat, end: nat)
    requires AllSized(slaves)
  {
    && |slots| == |order|
    && if slots == [] then start == end
       else
         var t := slots[|slots| - 1];
         && t.slave == order[|slots| - 1] < |slaves| && Next(t) == end && Fills(slaves[t.slave], t)
         && Slotted(slaves, order[..|slots| - 1], slots[..|slots| - 1], start, t.start)
  }

  function Half(s: Slave, kind: Kind, fs: seq<Fmmu>, start: nat, base: nat): Slave {
    if Bits(s, kind) > 0 && base <= start then Mapped(s, kind, fs, 8 * start, base) else s
  }

  function Both(s: Slave, slot: Slot, base: nat): Slave {
    Half(Half(s, Output, slot.ofs, slot.start, base), Input, slot.ifs, slot.start, base)
  }

  function AfterSlots(slaves: seq<Slave>, slots: seq<Slot>, base: nat): (r: seq<Slave>)
    ensures |r| == |slaves|
  {
    if slots == [] then slaves
    else
      var before, t := AfterSlots(slaves, slots[..|slots| - 1], base), slots[|slots| - 1];
      if t.slave < |slaves| then before[t.slave := Both(before[t.slave], t, base)] else before
  }

  function SlotSteps(slots: seq<Slot>): (r: seq<nat>)
    ensures |r| == |slots|
  {
    seq(|slots|, k requires 0 <= k < |slots| =>
      if Next(slots[k]) >= slots[k].start then Next(slots[k]) - slots[k].start else 0)
  }

  /** Adding an offset to a pointer. */
  function Plus(p: Pointer, n: nat): Pointer {
    match p
    case Null => if n == 0 then Null else Stray(n)
    case At(offset) => At(offset + n)
    case Stray(address) => Stray(address + n)
  }

  function MoveInputs(slaves: seq<Slave>, n: nat): (r: seq<Slave>)
    ensures |r| == |slaves| && forall k :: 0 <= k < |r| ==> r[k] == slaves[k].(inputs := Plus(slaves[k].inputs, n))
  {
    seq(|slaves|, k requires 0 <= k < |slaves| => slaves[k].(inputs := Plus(slaves[k].inputs, n)))
  }

  lemma {:induction false} HalfSame(s: Slave, kind: Kind, fs: seq<Fmmu>, start: nat, base: nat)
    ensures SameData(s, Half(s, kind, fs, start, base))
  {
  }

  lemma {:induction false} SlotsSameData(slaves: seq<Slave>, slots: seq<Slot>, base: nat)
    ensures AllSameData(slaves, AfterSlots(slaves, slots, base))
  {
    if slots != [] {
      var t, before := slots[|slots| - 1], AfterSlots(slaves, slots[..|slots| - 1], base);
      SlotsSameData(slaves, slots[..|slots| - 1], base);
      if t.slave < |slaves| {
        var s := before[t.slave];
        HalfSame(s, Output, t.ofs, t.start, base);
        HalfSame(Half(s, Output, t.ofs, t.start, base), Input, t.ifs, t.start, base);
        assert SameData(slaves[t.slave], s);
      }
    }
  }

  lemma {:induction false} SameOccupies(s: Slave, t: Slave, kind: Kind, fs: seq<Fmmu>, start: nat, end: nat)
    requires SameData(s, t) && Sized(t) && Occupies(t, kind, fs, start, end)
    ensures Occupies(s, kind, fs, start, end)
  {
    hide Allotted;
    if Bits(s, kind) > 0 {
      var to :| Allotted(t, kind, fs, 8 * start, 8 * start, to) && AlignUp(to) == 8 * end;
      SameAllotted(s, t, kind, fs, 8 * start, 8 * start, to);
    }
  }

  // ----- the loop over the slaves -----

  /** What the loop has done after the first n slaves. */
  ghost predicate SlotsPassed(slaves: seq<Slave>, now: seq<Slave>, group: nat, base: nat, n: nat, slots: seq<Slot>,
                              start: nat, end: nat, st: Segmenter, st': Segmenter, block: bool)
    requires AllSized(slaves) && n <= |slaves| && st.Valid()
  {
    && Slotted(slaves, Members(slaves, group, n), slots, start, end)
    && now == AfterSlots(slaves, slots, base)
    && st' == PackAll(st, SlotSteps(slots))
    && block == AnyBlocks(slaves, group, n)
  }

  lemma {:induction false} NoSlots(slaves: seq<Slave>, group: nat, base: nat, c: nat, st: Segmenter)
    requires AllSized(slaves) && st.Valid()
    ensures SlotsPassed(slaves, slaves, group, base, 0, [], c, c, st, st, false)
  {
  }

  lemma {:induction false} SlotsValid(slaves: seq<Slave>, now: seq<Slave>, group: nat, base: nat, n: nat,
                                      slots: seq<Slot>, start: nat, end: nat, st: Segmenter, st': Segmenter,
                                      block: bool)
    requires AllSized(slaves) && n <= |slaves| && st.Valid()
    requires SlotsPassed(slaves, now, group, base, n, slots, start, end, st, st', block)
    ensures |now| == |slaves| && AllSized(now) && st'.Valid()
  {
    SlotsSameData(slaves, slots, base);
    assert forall k :: 0 <= k < |now| ==> SameData(slaves[k], now[k]);
  }

  lemma {:induction false} SlotsSkip(slaves: seq<Slave>, now: seq<Slave>, group: nat, base: nat, n: nat,
                                     slots: seq<Slot>, start: nat, end: nat, st: Segmenter, st': Segmenter,
                                     block: bool)
    requires AllSized(slaves) && n < |slaves| && st.Valid()
    requires SlotsPassed(slaves, now, group, base, n, slots, start, end, st, st', block)
    requires |now| == |slaves| && !Member(now[n], group)
    ensures SlotsPassed(slaves, now, group, base, n + 1, slots, start, end, st, st', block)
  {
    hide Slotted, AfterSlots;
    SlotsSameData(slaves, slots, base);
    assert SameData(slaves[n], now[n]);
    assert Members(slaves, group, n + 1) == Members(slaves, group, n);
  }

  lemma {:induction false} SlotsNext(slaves: seq<Slave>, now: seq<Slave>, group: nat, base: nat, n: nat,
                                     slots: seq<Slot>, start: nat, st: Segmenter, st': Segmenter, block: bool, t: Slot)
    requires AllSized(slaves) && n < |slaves| && st.Valid()
    requires SlotsPassed(slaves, now, group, base, n, slots, start, t.start, st, st', block)
    requires |now| == |slaves| && AllSized(now) && st'.Valid() && Member(now[n], group)
    requires t.slave == n && Fills(now[n], t)
    ensures SlotsPassed(slaves, now[n := Both(now[n], t, base)], group, base, n + 1, slots + [t], start, Next(t),
                   st, Pack(st', Next(t) - t.start), block || now[n].blockLRW)
  {
    hide PackAll, Pack, Occupies, Both, Slotted, AfterSlots, SlotSteps, Members;
    SlotsSameData(slaves, slots, base);
    assert SameData(slaves[n], now[n]);
    SameOccupies(slaves[n], now[n], Output, t.ofs, t.start, t.oend);
    SameOccupies(slaves[n], now[n], Input, t.ifs, t.start, t.iend);
    MembersOn(slaves, group, n);
    SlottedOn(slaves, Members(slaves, group, n), slots, start, t);
    AfterSlotsOn(slaves, slots, t, base);
    SlotStepsOn(st, slots, t);
  }

  lemma {:induction false} MembersOn(slaves: seq<Slave>, group: nat, n: nat)
    requires n < |slaves| && Member(slaves[n], group)
    ensures Members(slaves, group, n + 1) == Members(slaves, group, n) + [n]
  {
  }

  lemma {:induction false} SlottedOn(slaves: seq<Slave>, order: seq<nat>, slots: seq<Slot>, start: nat, t: Slot)
    requires AllSized(slaves) && Slotted(slaves, order, slots, start, t.start)
    requires t.slave < |slaves| && Fills(slaves[t.slave], t)
    ensures Slotted(slaves, order + [t.slave], slots + [t], start, Next(t))
  {
    hide Fills;
    assert (slots + [t])[..|slots|] == slots && (order + [t.slave])[..|slots|] == order;
  }

  lemma {:induction false} AfterSlotsOn(slaves: seq<Slave>, slots: seq<Slot>, t: Slot, base: nat)
    requires t.slave < |slaves|
    ensures AfterSlots(slaves, slots + [t], base) ==
            var before := AfterSlots(slaves, slots, base); before[t.slave := Both(before[t.slave], t, base)]
  {
    assert (slots + [t])[..|slots|] == slots;
  }

  lemma {:induction false} SlotStepsOn(st: Segmenter, slots: seq<Slot>, t: Slot)
    requires st.Valid() && t.start <= Next(t)
    ensures PackAll(st, SlotSteps(slots + [t])) == Pack(PackAll(st, SlotSteps(slots)), Next(t) - t.start)
  {
    assert SlotSteps(slots + [t]) == SlotSteps(slots) + [Next(t) - t.start];
    assert SlotSteps(slots + [t])[..|slots|] == SlotSteps(slots);
  }

  /** One direction of one slave, up to the next whole byte. */
  method MapHalf(s: Slave, kind: Kind, base: nat, logAddr: nat) returns (s': Slave, LogAddr: nat, ghost fs: seq<Fmmu>)
    requires Sized(s) && base <= logAddr
    ensures logAddr <= LogAddr && Occupies(s, kind, fs, logAddr, LogAddr) && s' == Half(s, kind, fs, logAddr, base)
  {
    hide Allotted, Mapping.Mapped;
    s', LogAddr, fs := s, logAddr, [];
    if Bits(s, kind) > 0 {
      var BitPos;
      ghost var from;
      s', LogAddr, BitPos, fs, from := CreateMappings(s, kind, base, logAddr, 0);
      ghost var to := 8 * LogAddr + BitPos;
      AllottedOrder(s, kind, fs, 8 * logAddr, from, to);
      FromStart(s, kind, fs, logAddr, from, to);
      if BitPos != 0 {
        LogAddr := LogAddr + 1;
        BitPos := 0;
      }
      assert AlignUp(to) == 8 * LogAddr;
    }
  }

  lemma {:induction false} FromStart(s: Slave, kind: Kind, fs: seq<Fmmu>, start: nat, from: nat, to: nat)
    requires Sized(s) && Allotted(s, kind, fs, 8 * start, from, to)
    ensures from == 8 * start
  {
  }

  /** Everything mapped, and the inputs behind the outputs in the IO map. */
  ghost predicate OverlapMapped(slaves: seq<Slave>, g: PD.Group, group: nat, slaves': seq<Slave>, g': PD.Group,
                                slots: seq<Slot>, end: nat)
    requires AllSized(slaves) && |g.IOsegment| == EC_MAXIOSEGMENTS && slaves != []
  {
    var st := PackAll(Unsegmented(g), SlotSteps(slots));
    var last := |slaves| - 1;
    && Slotted(slaves, Members(slaves, group, |slaves|), slots, g.logstartaddr, end)
    && g'.logstartaddr == g.logstartaddr
    && g'.Obytes
       == (if Member(slaves[last], group) && slots != [] then slots[|slots| - 1].oend else end) - g.logstartaddr
    && g'.Ibytes
       == (if Member(slaves[last], group) && slots != [] then slots[|slots| - 1].iend else end) - g.logstartaddr
    && g' == g.(outputs := 0, Obytes := g'.Obytes, inputs := g'.Obytes, Ibytes := g'.Ibytes, Isegment := 0,
                Ioffset := 0,
                nsegments := st.currentsegment + 1, IOsegment := st.IOsegment[st.currentsegment := st.segmentsize],
                blockLRW := g.blockLRW || AnyBlocks(slaves, group, |slaves|))
    && slaves' == MoveInputs(AfterSlots(slaves, slots, Base(g, group)), g'.Obytes)
  }

  /** The group is blocked if it was, or a slave of it asks for that; its clock and its start stay. */
  lemma {:induction false} WhatOverlapBlocks(slaves: seq<Slave>, g: PD.Group, group: nat, slaves': seq<Slave>,
                                             g': PD.Group, slots: seq<Slot>, end: nat)
    requires AllSized(slaves) && |g.IOsegment| == EC_MAXIOSEGMENTS && slaves != []
    requires OverlapMapped(slaves, g, group, slaves', g', slots, end)
    ensures g'.blockLRW <==> g.blockLRW || exists k ::
              0 <= k < |slaves| && (group == 0 || slaves[k].group == group) && slaves[k].blockLRW
    ensures g'.logstartaddr == g.logstartaddr && g'.outputs == 0 && g'.inputs == g'.Obytes
    ensures g'.hasdc == g.hasdc && g'.dcadr == g.dcadr
  {
    hide Slotted, AfterSlots, PackAll, Members, SlotSteps;
  }

  class Context {
    var slavelist: seq<Slave>
    var grouplist: seq<PD.Group>

    ghost predicate Valid()
      reads this
    {
      AllSized(slavelist) && forall g :: 0 <= g < |grouplist| ==> |grouplist[g].IOsegment| == EC_MAXIOSEGMENTS
    }

    /** The loop over all slaves.  soLogAddr and siLogAddr are those of the last slave. */
    method MapSlots(group: nat, base: nat, logAddr: nat, st: Segmenter)
      returns (mLogAddr: nat, soLogAddr: nat, siLogAddr: nat, st': Segmenter, block: bool, ghost slots: seq<Slot>)
      requires AllSized(slavelist) && st.Valid() && base <= logAddr && slavelist != []
      modifies this`slavelist
      ensures SlotsPassed(old(slavelist), slavelist, group, base, |old(slavelist)|, slots, logAddr, mLogAddr, st,
                          st', block)
      ensures logAddr <= mLogAddr && st'.Valid() && |slavelist| == |old(slavelist)|
      ensures logAddr <= soLogAddr && logAddr <= siLogAddr
      ensures if Member(old(slavelist)[|slavelist| - 1], group) && slots != []
              then soLogAddr == slots[|slots| - 1].oend && siLogAddr == slots[|slots| - 1].iend
              else soLogAddr == mLogAddr && siLogAddr == mLogAddr
    {
      hide SlotsPassed, Pack, Occupies, Half, SlotSteps;
      mLogAddr, st', block, slots := logAddr, st, false, [];
      soLogAddr, siLogAddr := mLogAddr, mLogAddr;
      ghost var slaves := slavelist;
      NoSlots(slaves, group, base, logAddr, st);
      var slave := 0;
      while slave < |slavelist|
        invariant slave <= |slavelist| == |slaves| && AllSized(slavelist) && st'.Valid()
        invariant logAddr <= mLogAddr && logAddr <= soLogAddr && logAddr <= siLogAddr
        invariant forall k :: slave <= k < |slaves| ==> slavelist[k] == slaves[k]
        invariant if slave > 0 && Member(slaves[slave - 1], group) && slots != []
                  then soLogAddr == slots[|slots| - 1].oend && siLogAddr == slots[|slots| - 1].iend
                  else soLogAddr == mLogAddr && siLogAddr == mLogAddr
        invariant SlotsPassed(slaves, slavelist, group, base, slave, slots, logAddr, mLogAddr, st, st', block)
      {
        ghost var now := slavelist;
        siLogAddr, soLogAddr := mLogAddr, mLogAddr;
        if group == 0 || group == slavelist[slave].group {
          var s;
          ghost var ofs, ifs;
          s, soLogAddr, ofs := MapHalf(slavelist[slave], Output, base, soLogAddr);
          HalfSame(slavelist[slave], Output, ofs, mLogAddr, base);
          ghost var half := s;
          s, siLogAddr, ifs := MapHalf(s, Input, base, siLogAddr);
          SameOccupies(slavelist[slave], half, Input, ifs, mLogAddr, siLogAddr);
          ghost var t := Slot(slave, mLogAddr, ofs, soLogAddr, ifs, siLogAddr);
          SlotsNext(slaves, now, group, base, slave, slots, logAddr, st, st', block, t);
          var tempLogAddr := if siLogAddr > soLogAddr then siLogAddr else soLogAddr;
          var diff := tempLogAddr - mLogAddr;
          mLogAddr := tempLogAddr;
          st' := AddToSegments(st', diff);
          if slavelist[slave].blockLRW {
            block := true;
          }
          slavelist := slavelist[slave := s];
          slots := slots + [t];
        } else {
          SlotsSkip(slaves, now, group, base, slave, slots, logAddr, mLogAddr, st, st', block);
        }
        slave := slave + 1;
        SlotsValid(slaves, slavelist, group, base, slave, slots, logAddr, mLogAddr, st, st', block);
      }
    }

    /** Move the input pointers of all slaves. */
    method MoveAll(offset: nat)
      modifies this`slavelist
      ensures slavelist == MoveInputs(old(slavelist), offset)
    {
      var slave := 0;
      while slave < |slavelist|
        invariant slave <= |slavelist| == |old(slavelist)|
        invariant forall k :: 0 <= k < |slavelist| ==>
                    slavelist[k] ==
                    if k < slave then old(slavelist)[k].(inputs := Plus(old(slavelist)[k].inputs, offset))
                      else old(slavelist)[k]
      {
        slavelist := slavelist[slave := slavelist[slave].(inputs := Plus(slavelist[slave].inputs, offset))];
        slave := slave + 1;
      }
    }

    /** ecx_config_overlap_map_group */
    method ConfigOverlapMapGroup(group: nat) returns (size: nat, ghost slots: seq<Slot>, ghost end: nat)
      requires Valid()
      modifies this
      ensures |slavelist| == |old(slavelist)| && |grouplist| == |old(grouplist)|
      ensures if |slavelist| > 0 && group < |grouplist|
              then OverlapMapped(old(slavelist), old(grouplist)[group], group, slavelist, grouplist[group], slots, end)
                   && grouplist == old(grouplist)[group := grouplist[group]]
                   && size == grouplist[group].Obytes + grouplist[group].Ibytes
              else size == 0 && slavelist == old(slavelist) && grouplist == old(grouplist)
      ensures |slavelist| > 0 && group < |grouplist| ==>
                var g, g', slaves := old(grouplist)[group], grouplist[group], old(slavelist);
                && (g'.blockLRW <==> g.blockLRW || exists k ::
                      0 <= k < |slaves| && (group == 0 || slaves[k].group == group) && slaves[k].blockLRW)
                && g'.logstartaddr == g.logstartaddr && g'.outputs == 0 && g'.inputs == g'.Obytes
                && g'.hasdc == g.hasdc && g'.dcadr == g.dcadr
    {
      hide Slotted, AfterSlots, PackAll, AnyBlocks, Members, SlotSteps;
      size, slots, end := 0, [], 0;
      if |slavelist| > 0 && group < |grouplist| {
        var g := grouplist[group];
        var base := if group == 0 then 0 else g.logstartaddr;
        var mLogAddr, soLogAddr, siLogAddr, st, block;
        mLogAddr, soLogAddr, siLogAddr, st, block, slots :=
          MapSlots(group, base, g.logstartaddr, Segmenter(g.IOsegment, 0, 0));
        end := mLogAddr;
        g := g.(IOsegment := st.IOsegment[st.currentsegment := st.segmentsize], nsegments := st.currentsegment + 1,
                Isegment := 0, Ioffset := 0, Obytes := soLogAddr - g.logstartaddr, Ibytes := siLogAddr - g.logstartaddr,
                blockLRW := g.blockLRW || block);
        g := g.(outputs := 0, inputs := g.Obytes);
        // all inputs go behind the outputs
        MoveAll(g.Obytes);
        grouplist := grouplist[group := g];
        size := g.Obytes + g.Ibytes;
        WhatOverlapBlocks(old(slavelist), old(grouplist)[group], group, slavelist, g, slots, end);
      }
    }
  }
}
