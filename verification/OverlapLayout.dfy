/** What the overlapped map promises: where every slave's data lies, and where the segments end. */
module OverlapLayout {
  import opened Mapping
  import opened Segments
  import opened MapGroup
  import opened MapLayout
  import opened MapOverlap
  import PD = ProcessData
  import L = LogicalExchange

  lemma {:induction false} SlotAt(slaves: seq<Slave>, order: seq<nat>, slots: seq<Slot>, start: nat, end: nat, j: nat)
    requires AllSized(slaves) && Slotted(slaves, order, slots, start, end) && j < |slots|
    ensures |slots| == |order| && Slotted(slaves, order[..j], slots[..j], start, slots[j].start)
    ensures slots[j].slave == order[j] < |slaves| && Fills(slaves[slots[j].slave], slots[j])
    ensures start <= slots[j].start <= Next(slots[j]) <= end
    decreases |slots|
  {
    hide Occupies;
    var n := |slots| - 1;
    if j < n {
      SlotAt(slaves, order[..n], slots[..n], start, slots[n].start, j);
      assert order[..n][..j] == order[..j] && slots[..n][..j] == slots[..j];
    } else if n > 0 {
      SlotAt(slaves, order[..n], slots[..n], start, slots[n].start, n - 1);
    }
  }

  lemma {:induction false} SlotsApart(slaves: seq<Slave>, order: seq<nat>, slots: seq<Slot>, start: nat, end: nat,
                                      i: nat, j: nat)
    requires AllSized(slaves) && Slotted(slaves, order, slots, start, end) && i < j < |slots|
    ensures Next(slots[i]) <= slots[j].start
  {
    hide Occupies;
    SlotAt(slaves, order, slots, start, end, j);
    SlotAt(slaves, order[..j], slots[..j], start, slots[j].start, i);
  }

  lemma {:induction false} MembersOrder(slaves: seq<Slave>, group: nat, n: nat, i: nat, j: nat)
    requires n <= |slaves| && i < j < |Members(slaves, group, n)|
    ensures Members(slaves, group, n)[i] < Members(slaves, group, n)[j]
  {
    if j < |Members(slaves, group, n - 1)| {
      MembersOrder(slaves, group, n - 1, i, j);
    }
  }

  lemma {:induction false} MembersIff(slaves: seq<Slave>, group: nat, n: nat, k: nat)
    requires n <= |slaves| && k < n
    ensures k in Members(slaves, group, n) <==> Member(slaves[k], group)
  {
    if k < n - 1 {
      MembersIff(slaves, group, n - 1, k);
    }
  }

  predicate HasSlot(slots: seq<Slot>, k: nat) { exists i :: 0 <= i < |slots| && slots[i].slave == k }

  /** Every slave of the group has a slot of its own, in slave order. */
  lemma {:induction false} SlotOfEach(slaves: seq<Slave>, group: nat, slots: seq<Slot>, start: nat, end: nat)
    requires AllSized(slaves) && Slotted(slaves, Members(slaves, group, |slaves|), slots, start, end)
    ensures forall i, j :: 0 <= i < j < |slots| ==> slots[i].slave < slots[j].slave && Next(slots[i]) <= slots[j].start
    ensures forall i :: 0 <= i < |slots| ==>
              slots[i].slave < |slaves| && Fills(slaves[slots[i].slave], slots[i]) && start <= slots[i].start &&
                Next(slots[i]) <= end
    ensures forall k :: 0 <= k < |slaves| ==>
              (HasSlot(slots, k) <==> group == 0 || slaves[k].group == group)
    ensures forall i :: 0 <= i < |slots| ==> Member(slaves[slots[i].slave], group)
  {
    hide Slotted, Members, Fills;
    var order := Members(slaves, group, |slaves|);
    SlotCount(slaves, order, slots, start, end);
    forall i | 0 <= i < |slots|
      ensures slots[i].slave == order[i] < |slaves| && Fills(slaves[slots[i].slave], slots[i])
      ensures start <= slots[i].start && Next(slots[i]) <= end && Member(slaves[slots[i].slave], group)
    {
      SlotAt(slaves, order, slots, start, end, i);
      MembersIff(slaves, group, |slaves|, order[i]);
    }
    forall i, j | 0 <= i < j < |slots| ensures slots[i].slave < slots[j].slave && Next(slots[i]) <= slots[j].start {
      MembersOrder(slaves, group, |slaves|, i, j);
      SlotsApart(slaves, order, slots, start, end, i, j);
    }
    forall k | 0 <= k < |slaves|
      ensures HasSlot(slots, k) <==> group == 0 || slaves[k].group == group
    {
      MembersIff(slaves, group, |slaves|, k);
      if k in order {
        var i :| 0 <= i < |order| && order[i] == k;
        assert slots[i].slave == k;
      }
    }
  }

  lemma {:induction false} SlotCount(slaves: seq<Slave>, order: seq<nat>, slots: seq<Slot>, start: nat, end: nat)
    requires AllSized(slaves) && Slotted(slaves, order, slots, start, end)
    ensures |slots| == |order| && (slots == [] ==> start == end) && (slots != [] ==> Next(slots[|slots| - 1]) == end)
  {
    hide Fills;
  }

  /** Exactly the slaves of the group get a slot.  Different slaves share no logical address; a slave's
      outputs and inputs start at the same one.  All outputs lie within the first Obytes, all inputs within the
      first Ibytes, and the larger of the two is what a cycle exchanges. */
  lemma {:induction false} OverlapIsPacked(slaves: seq<Slave>, g: PD.Group, group: nat, slaves': seq<Slave>,
                                           g': PD.Group, slots: seq<Slot>, end: nat)
    requires AllSized(slaves) && |g.IOsegment| == EC_MAXIOSEGMENTS && slaves != []
    requires OverlapMapped(slaves, g, group, slaves', g', slots, end)
    ensures forall i, j :: 0 <= i < j < |slots| ==> slots[i].slave < slots[j].slave && Next(slots[i]) <= slots[j].start
    ensures forall k :: 0 <= k < |slaves| ==>
              (HasSlot(slots, k) <==> group == 0 || slaves[k].group == group)
    ensures forall i :: 0 <= i < |slots| ==>
              slots[i].slave < |slaves| && Fills(slaves[slots[i].slave], slots[i]) &&
                g'.logstartaddr <= slots[i].start &&
              slots[i].oend <= g'.logstartaddr + g'.Obytes && slots[i].iend <= g'.logstartaddr + g'.Ibytes
    ensures PD.CycleLength(g', true) == end - g'.logstartaddr
  {
    hide Slotted, AfterSlots, PackAll, AnyBlocks, Members, SlotSteps, Fills;
    SlotOfEach(slaves, group, slots, g.logstartaddr, end);
    SlotCount(slaves, Members(slaves, group, |slaves|), slots, g.logstartaddr, end);
    var last := |slots| - 1;
    forall i | 0 <= i < |slots|
      ensures slots[i].oend <= g'.logstartaddr + g'.Obytes && slots[i].iend <= g'.logstartaddr + g'.Ibytes
    {
      if i < last {
        assert Next(slots[i]) <= slots[last].start;
        assert Fills(slaves[slots[last].slave], slots[last]);
        FillsUp(slaves[slots[last].slave], slots[last]);
      }
    }
  }

  lemma {:induction false} FillsUp(s: Slave, slot: Slot)
    requires Sized(s) && Fills(s, slot)
    ensures slot.start <= slot.oend && slot.start <= slot.iend
  {
  }

  // ----- pointers into the IO map -----

  lemma {:induction false} AfterSlotsAt(slaves: seq<Slave>, slots: seq<Slot>, base: nat, k: nat)
    requires k < |slaves| && forall i, j :: 0 <= i < j < |slots| ==> slots[i].slave < slots[j].slave
    ensures forall i :: 0 <= i < |slots| && slots[i].slave == k ==>
              AfterSlots(slaves, slots, base)[k] == Both(slaves[k], slots[i], base)
    ensures (forall i :: 0 <= i < |slots| ==> slots[i].slave != k) ==> AfterSlots(slaves, slots, base)[k] == slaves[k]
  {
    hide Both;
    if slots != [] {
      AfterSlotsAt(slaves, slots[..|slots| - 1], base, k);
    }
  }

  lemma {:induction false} BothLead(s: Slave, slot: Slot, base: nat)
    requires Sized(s) && base <= slot.start && s.outputs == Null && s.inputs == Null
    ensures var t := Both(s, slot, base);
            && (if s.Obits > 0 then t.outputs == At(slot.start - base) && t.Ostartbit == 0 else t.outputs == Null)
            && (if s.Ibits > 0 then t.inputs == At(slot.start - base) && t.Istartbit == 0 else t.inputs == Null)
  {
  }

  /** In the IO map the outputs of a slave are where they are in logical memory, counted from the start of the group
      (for group 0, from address 0), its inputs Obytes further on.  A slave without inputs is left with a stray
      pointer, unless there are no output bytes. */
  lemma {:induction false} OverlapPointers(slaves: seq<Slave>, g: PD.Group, group: nat, slaves': seq<Slave>,
                                           g': PD.Group, slots: seq<Slot>, end: nat, i: nat)
    requires AllSized(slaves) && |g.IOsegment| == EC_MAXIOSEGMENTS && slaves != [] && Unmapped(slaves)
    requires OverlapMapped(slaves, g, group, slaves', g', slots, end) && i < |slots|
    ensures |slaves'| == |slaves| && slots[i].slave < |slaves| && g'.logstartaddr <= slots[i].start
    ensures var start := if group == 0 then 0 else g'.logstartaddr;
            var s, s', off := slaves[slots[i].slave], slaves'[slots[i].slave], slots[i].start - start;
            && (if s.Obits > 0 then s'.outputs == At(off) && s'.Ostartbit == 0 else s'.outputs == Null)
            && (if s.Ibits > 0 then s'.inputs == At(off + g'.Obytes) && s'.Istartbit == 0
                else s'.inputs == if g'.Obytes == 0 then Null else Stray(g'.Obytes))
  {
    hide Slotted, AfterSlots, PackAll, AnyBlocks, Members, SlotSteps, Fills, Both;
    SlotOfEach(slaves, group, slots, g.logstartaddr, end);
    AfterSlotsAt(slaves, slots, Base(g, group), slots[i].slave);
    BothLead(slaves[slots[i].slave], slots[i], Base(g, group));
  }

  /** Mapping one group moves the input pointers of the slaves of all others, unless it has no output
      bytes. */
  lemma {:induction false} OthersMove(slaves: seq<Slave>, g: PD.Group, group: nat, slaves': seq<Slave>, g': PD.Group,
                                      slots: seq<Slot>, end: nat, k: nat)
    requires AllSized(slaves) && |g.IOsegment| == EC_MAXIOSEGMENTS && slaves != []
    requires OverlapMapped(slaves, g, group, slaves', g', slots, end) && k < |slaves| && !Member(slaves[k], group)
    ensures |slaves'| == |slaves| && (slaves'[k] == slaves[k] <==> g'.Obytes == 0)
  {
    hide Slotted, AfterSlots, PackAll, AnyBlocks, Members, SlotSteps, Fills, Both;
    SlotOfEach(slaves, group, slots, g.logstartaddr, end);
    AfterSlotsAt(slaves, slots, Base(g, group), k);
  }

  // ----- segments -----

  lemma {:induction false} SlotStepsSum(slaves: seq<Slave>, order: seq<nat>, slots: seq<Slot>, start: nat, end: nat)
    requires AllSized(slaves) && Slotted(slaves, order, slots, start, end)
    ensures start <= end && PD.Sum(SlotSteps(slots)) == end - start
  {
    hide Occupies;
    if slots != [] {
      var n := |slots| - 1;
      SlotStepsSum(slaves, order[..n], slots[..n], start, slots[n].start);
      assert SlotSteps(slots) == SlotSteps(slots[..n]) + [Next(slots[n]) - slots[n].start];
      SumSnoc(SlotSteps(slots[..n]), Next(slots[n]) - slots[n].start);
    }
  }

  lemma {:induction false} OverlapList(slaves: seq<Slave>, g: PD.Group, group: nat, slaves': seq<Slave>, g': PD.Group,
                                       slots: seq<Slot>, end: nat)
    requires AllSized(slaves) && |g.IOsegment| == EC_MAXIOSEGMENTS && slaves != []
    requires OverlapMapped(slaves, g, group, slaves', g', slots, end)
    ensures 1 <= g'.nsegments <= |g'.IOsegment|
    ensures g'.IOsegment[..g'.nsegments] == PackAll(Unsegmented(g), SlotSteps(slots)).List()
    ensures g'.outputs == 0 && g'.inputs == g'.Obytes && g'.Isegment == 0 && g'.Ioffset == 0
    ensures PD.Sum(SlotSteps(slots)) == PD.CycleLength(g', true) == end - g'.logstartaddr
    ensures Slotted(slaves, Members(slaves, group, |slaves|), slots, g.logstartaddr, end) &&
            g'.logstartaddr == g.logstartaddr
  {
    hide Slotted, AfterSlots, PackAll, AnyBlocks, Members, SlotSteps, Fills, PD.Sum, PD.CycleLength;
    OverlapIsPacked(slaves, g, group, slaves', g', slots, end);
    SlotStepsSum(slaves, Members(slaves, group, |slaves|), slots, g.logstartaddr, end);
  }

  /** The overlapped map can be exchanged cyclically exactly when there is a list of at most 64 segments
      that keeps each slave in one piece and no segment exceeds a datagram; the segments then make up the
      larger of Obytes and Ibytes. */
  lemma {:induction false} OverlapExchangeableIff(slaves: seq<Slave>, g: PD.Group, group: nat, slaves': seq<Slave>,
                                                  g': PD.Group, slots: seq<Slot>, end: nat)
    requires AllSized(slaves) && |g.IOsegment| == EC_MAXIOSEGMENTS && slaves != []
    requires OverlapMapped(slaves, g, group, slaves', g', slots, end)
    ensures L.Mapped(g', true) <==> exists parts :: Fit(parts, SlotSteps(slots)) && |parts| <= EC_MAXIOSEGMENTS
  {
    hide OverlapMapped, Slotted, PackAll, Members, SlotSteps, PD.Sum, PD.CycleLength, L.Mapped, Small;
    OverlapList(slaves, g, group, slaves', g', slots, end);
    PackedIff(Unsegmented(g), SlotSteps(slots));
    OverlapListMapped(g', g'.IOsegment[..g'.nsegments]);
  }

  lemma {:induction false} OverlapListMapped(g: PD.Group, list: seq<nat>)
    requires 1 <= g.nsegments <= |g.IOsegment| && g.IOsegment[..g.nsegments] == list
    requires g.outputs == 0 && g.inputs == g.Obytes && g.Isegment == 0 && g.Ioffset == 0
    ensures L.Mapped(g, true) <==> PD.Sum(list) == PD.CycleLength(g, true) && Small(list)
  {
    assert forall k :: 0 <= k < g.nsegments ==> list[k] == g.IOsegment[k];
  }

  lemma {:induction false} SlotStepsPrefix(slaves: seq<Slave>, order: seq<nat>, slots: seq<Slot>, start: nat,
                                           end: nat, k: nat)
    requires AllSized(slaves) && Slotted(slaves, order, slots, start, end) && k <= |slots|
    ensures start + PD.Sum(SlotSteps(slots)[..k]) == if k < |slots| then slots[k].start else end
  {
    hide Slotted;
    if k < |slots| {
      SlotAt(slaves, order, slots, start, end, k);
      SlotStepsSum(slaves, order[..k], slots[..k], start, slots[k].start);
      assert SlotSteps(slots)[..k] == SlotSteps(slots[..k]);
    } else {
      SlotStepsSum(slaves, order, slots, start, end);
      assert SlotSteps(slots)[..k] == SlotSteps(slots);
    }
  }

  /** No segment ends inside the data of a slave. */
  lemma {:induction false} OverlapNeverSplits(slaves: seq<Slave>, g: PD.Group, group: nat, slaves': seq<Slave>,
                                              g': PD.Group, slots: seq<Slot>, end: nat, j: nat, i: nat)
    requires AllSized(slaves) && |g.IOsegment| == EC_MAXIOSEGMENTS && slaves != []
    requires OverlapMapped(slaves, g, group, slaves', g', slots, end)
    requires L.Mapped(g', true) && j <= g'.nsegments && i < |slots|
    ensures var b := g.logstartaddr + PD.Sum(g'.IOsegment[..j]); b <= slots[i].start || Next(slots[i]) <= b
  {
    hide OverlapMapped, Slotted, PackAll, Members, SlotSteps, PD.Sum, PD.CycleLength, L.Mapped, Fills;
    var order := Members(slaves, group, |slaves|);
    OverlapList(slaves, g, group, slaves', g', slots, end);
    OverlapListMapped(g', g'.IOsegment[..g'.nsegments]);
    assert g'.IOsegment[..g'.nsegments][..j] == g'.IOsegment[..j];
    var k := Boundary(Unsegmented(g), SlotSteps(slots), j);
    SlotStepsPrefix(slaves, order, slots, g.logstartaddr, end, k);
    SlotAt(slaves, order, slots, g.logstartaddr, end, i);
    if k < i {
      SlotAt(slaves, order, slots, g.logstartaddr, end, k);
      SlotsApart(slaves, order, slots, g.logstartaddr, end, k, i);
    } else if i < k < |slots| {
      SlotsApart(slaves, order, slots, g.logstartaddr, end, i, k);
    }
  }

  // ----- how much a cycle stores -----

  /** A cycle stores as many bytes behind the outputs as it sends, within the size the mapping returned. */
  predicate CycleFits(g: PD.Group) { L.Target(g, true) + PD.CycleLength(g, true) <= g.Obytes + g.Ibytes }

  lemma {:induction false} CycleFitsIff(slaves: seq<Slave>, g: PD.Group, group: nat, slaves': seq<Slave>,
                                        g': PD.Group, slots: seq<Slot>, end: nat)
    requires AllSized(slaves) && |g.IOsegment| == EC_MAXIOSEGMENTS && slaves != []
    requires OverlapMapped(slaves, g, group, slaves', g', slots, end)
    ensures CycleFits(g') <==> g'.Obytes <= g'.Ibytes
  {
    hide Slotted, AfterSlots, PackAll, AnyBlocks, Members, SlotSteps, Fills;
  }

  /** How many bytes a slave's data of the kind takes in an overlapped map, where each kind is filled up to
      whole bytes. */
  function WholeBytes(s: Slave, kind: Kind): nat { (Bits(s, kind) + 7) / 8 }

  /** The sync managers looked at offer all bytes of a byte oriented slave. */
  predicate Enough(s: Slave, kind: Kind)
    requires |s.SM| == EC_MAXSM
  {
    Offered(s.SM, EC_MAXSM - 1, SmType(kind)) >= Bytes(s, kind)
  }

  lemma {:induction false} BytesTaken(s: Slave, kind: Kind, fs: seq<Fmmu>, start: nat, end: nat)
    requires Sized(s) && Enough(s, kind) && Occupies(s, kind, fs, start, end)
    ensures end == start + WholeBytes(s, kind)
  {
    hide Started, Offered;
  }

  /** The last slave in the list decides, as the mapping takes the number of output and of input bytes from
      the last one it looked at: a cycle fits exactly when that slave is outside the group or has no more
      output bytes than input bytes. */
  lemma {:induction false} LastSlaveDecides(slaves: seq<Slave>, g: PD.Group, group: nat, slaves': seq<Slave>,
                                            g': PD.Group, slots: seq<Slot>, end: nat)
    requires AllSized(slaves) && |g.IOsegment| == EC_MAXIOSEGMENTS && slaves != []
    requires OverlapMapped(slaves, g, group, slaves', g', slots, end)
    requires var s := slaves[|slaves| - 1]; Enough(s, Output) && Enough(s, Input)
    ensures var s := slaves[|slaves| - 1];
            CycleFits(g') <==> (Member(s, group) ==> WholeBytes(s, Output) <= WholeBytes(s, Input))
  {
    hide Slotted, AfterSlots, PackAll, AnyBlocks, SlotSteps, Occupies, WholeBytes, Enough, CycleFits;
    CycleFitsIff(slaves, g, group, slaves', g', slots, end);
    var last := |slaves| - 1;
    if Member(slaves[last], group) {
      LastSlot(slaves, group, slots, g.logstartaddr, end);
      var t := slots[|slots| - 1];
      BytesTaken(slaves[last], Output, t.ofs, t.start, t.oend);
      BytesTaken(slaves[last], Input, t.ifs, t.start, t.iend);
    }
  }

  lemma {:induction false} LastSlot(slaves: seq<Slave>, group: nat, slots: seq<Slot>, start: nat, end: nat)
    requires AllSized(slaves) && slaves != [] && Member(slaves[|slaves| - 1], group)
    requires Slotted(slaves, Members(slaves, group, |slaves|), slots, start, end)
    ensures slots != [] && slots[|slots| - 1].slave == |slaves| - 1
    ensures Fills(slaves[|slaves| - 1], slots[|slots| - 1])
  {
    hide Fills;
  }

  /** A single slave with sixteen bits of output and no input. */
  function OutputsOnly(): Slave {
    var sm := Sm(0x1100, 2, 3);
    Slave(16, 2, Null, 0, 0, 0, Null, 0,
          [Sm(0, 0, 0), Sm(0, 0, 0), sm, Sm(0, 0, 0), Sm(0, 0, 0), Sm(0, 0, 0), Sm(0, 0, 0),
          Sm(0, 0, 0)], [], 0, false)
  }

  /** The map that belongs to slots. */
  lemma {:induction false} MapFor(slaves: seq<Slave>, g: PD.Group, group: nat, slots: seq<Slot>, end: nat)
    returns (slaves': seq<Slave>, g': PD.Group)
    requires AllSized(slaves) && |g.IOsegment| == EC_MAXIOSEGMENTS && slaves != [] && slots != []
    requires Slotted(slaves, Members(slaves, group, |slaves|), slots, g.logstartaddr, end)
    requires Member(slaves[|slaves| - 1], group) && g.logstartaddr <= slots[|slots| - 1].oend
    requires g.logstartaddr <= slots[|slots| - 1].iend
    ensures OverlapMapped(slaves, g, group, slaves', g', slots, end)
    ensures g'.Obytes == slots[|slots| - 1].oend - g.logstartaddr
    ensures g'.Ibytes == slots[|slots| - 1].iend - g.logstartaddr
    ensures g'.blockLRW == (g.blockLRW || AnyBlocks(slaves, group, |slaves|))
    ensures slaves' == MoveInputs(AfterSlots(slaves, slots, Base(g, group)), g'.Obytes)
  {
    hide PackAll, SlotSteps, Slotted, Members, AfterSlots, AnyBlocks;
    var st, t := PackAll(Unsegmented(g), SlotSteps(slots)), slots[|slots| - 1];
    var O, I := t.oend - g.logstartaddr, t.iend - g.logstartaddr;
    g' := g.(outputs := 0, Obytes := O, inputs := O, Ibytes := I, Isegment := 0, Ioffset := 0,
             nsegments := st.currentsegment + 1, IOsegment := st.IOsegment[st.currentsegment := st.segmentsize],
             blockLRW := g.blockLRW || AnyBlocks(slaves, group, |slaves|));
    slaves' := MoveInputs(AfterSlots(slaves, slots, Base(g, group)), O);
  }

  /** It is mapped to two bytes, and a cycle stores two bytes behind them. */
  lemma {:induction false} OutputsOnlyOverrun(g: PD.Group) returns (slaves': seq<Slave>, g': PD.Group, slots: seq<Slot>)
    requires |g.IOsegment| == EC_MAXIOSEGMENTS
    ensures AllSized([OutputsOnly()])
    ensures OverlapMapped([OutputsOnly()], g, 0, slaves', g', slots, g.logstartaddr + 2)
    ensures g'.Obytes + g'.Ibytes == 2 && L.Target(g', true) + PD.CycleLength(g', true) == 4 && !CycleFits(g')
  {
    hide PackAll, SlotSteps, OverlapMapped;
    var slaves, start := [OutputsOnly()], g.logstartaddr;
    var f := Fmmu(start, 2, 0, 7, 0x1100, Output, true);
    var t := Slot(0, start, [f], start + 2, [], start);
    slots := [t];
    OutputsOnlyFills(OutputsOnly(), t, f);
    assert Members(slaves, 0, 1) == [0] by { assert Members(slaves, 0, 0) == []; }
    OneSlot(slaves, t);
    slaves', g' := MapFor(slaves, g, 0, slots, start + 2);
    OverlapPlaces(slaves, g, 0, slaves', g', slots, start + 2);
  }

  lemma {:induction false} OverlapPlaces(slaves: seq<Slave>, g: PD.Group, group: nat, slaves': seq<Slave>,
                                         g': PD.Group, slots: seq<Slot>, end: nat)
    requires AllSized(slaves) && |g.IOsegment| == EC_MAXIOSEGMENTS && slaves != []
    requires OverlapMapped(slaves, g, group, slaves', g', slots, end)
    ensures g'.outputs == 0 && g'.inputs == g'.Obytes && g'.Isegment == 0 && g'.Ioffset == 0
    ensures g'.logstartaddr == g.logstartaddr
  {
    hide Slotted, AfterSlots, PackAll, AnyBlocks, Members, SlotSteps, Fills;
  }

  lemma {:induction false} OneSlot(slaves: seq<Slave>, t: Slot)
    requires AllSized(slaves) && t.slave < |slaves| && Fills(slaves[t.slave], t)
    ensures Slotted(slaves, [t.slave], [t], t.start, Next(t))
  {
    hide Fills;
    assert [t][..0] == [] && [t.slave][..0] == [];
  }

  lemma {:induction false} OutputsOnlyFills(s: Slave, t: Slot, f: Fmmu)
    requires s == OutputsOnly().(group := s.group) && f == Fmmu(t.start, 2, 0, 7, 0x1100, Output, true)
    requires t == Slot(t.slave, t.start, [f], t.start + 2, [], t.start)
    ensures Sized(s) && Fills(s, t)
  {
    TwoBytesOut(s, t.start, f);
    assert Occupies(s, Output, t.ofs, t.start, t.oend) by {
      assert AlignUp(8 * t.start + 16) == 8 * (t.start + 2);
    }
  }

  /** Two bytes of output in sync manager 2. */
  lemma {:induction false} TwoBytesOut(s: Slave, start: nat, f: Fmmu)
    requires |s.SM| == EC_MAXSM && s.SM[2] == Sm(0x1100, 2, 3) && s.Obytes == 2
    requires forall k :: 0 <= k < EC_MAXSM && k != 2 ==> s.SM[k].SMtype != 3
    requires f == Fmmu(start, 2, 0, 7, 0x1100, Output, true)
    ensures Allotted(s, Output, [f], 8 * start, 8 * start, 8 * start + 16)
    ensures Offered(s.SM, EC_MAXSM - 1, 3) == 2
  {
    assert NextOfType(s.SM, 2, 3) == 2 && NextOfType(s.SM, 1, 3) == 2 && NextOfType(s.SM, 0, 3) == 2;
    assert s.SM[0].SMtype != 3 && s.SM[1].SMtype != 3 && s.SM[3].SMtype != 3 && s.SM[4].SMtype != 3;
    assert s.SM[5].SMtype != 3 && s.SM[6].SMtype != 3;
    assert Offered(s.SM, 1, 3) == 0;
    assert Offered(s.SM, 2, 3) == 0;
    assert Offered(s.SM, 3, 3) == 2;
    assert Offered(s.SM, 5, 3) == 2;
    assert Offered(s.SM, 7, 3) == 2;
    assert [f][..0] == [] && First(f) == 8 * start && Behind(f) == 8 * start + 16;
    assert Chain([f], 8 * start, 8 * start + 16);
    assert Started(s, Output, [f], 8 * start, 8 * start + 16);
  }

  // ----- slaves of other groups -----

  /** Before the mapping: no slave of the group has any data, but for inputs of the last slave in the list. */
  predicate NoOutputBytes(slaves: seq<Slave>, group: nat) {
    forall k :: 0 <= k < |slaves| && Member(slaves[k], group) ==>
      slaves[k].Obits == 0 && (k < |slaves| - 1 ==> slaves[k].Ibits == 0)
  }

  predicate AllEnough(slaves: seq<Slave>, group: nat)
    requires AllSized(slaves)
  {
    forall k :: 0 <= k < |slaves| && Member(slaves[k], group) ==> Enough(slaves[k], Output) && Enough(slaves[k], Input)
  }

  /** Slots take no bytes exactly when their slaves have no data. */
  lemma {:induction false} SlotsEmptyIff(slaves: seq<Slave>, order: seq<nat>, slots: seq<Slot>, start: nat, end: nat)
    requires AllSized(slaves) && Slotted(slaves, order, slots, start, end)
    requires forall i :: 0 <= i < |order| && order[i] < |slaves| ==>
               Enough(slaves[order[i]], Output) && Enough(slaves[order[i]], Input)
    ensures start <= end && |slots| == |order| && forall i :: 0 <= i < |order| ==> order[i] < |slaves|
    ensures start == end <==>
            forall i :: 0 <= i < |order| ==> slaves[order[i]].Obits == 0 && slaves[order[i]].Ibits == 0
  {
    hide Occupies, Enough;
    if slots != [] {
      var n := |slots| - 1;
      var t := slots[n];
      SlotsEmptyIff(slaves, order[..n], slots[..n], start, t.start);
      BytesTaken(slaves[t.slave], Output, t.ofs, t.start, t.oend);
      BytesTaken(slaves[t.slave], Input, t.ifs, t.start, t.iend);
      assert forall i :: 0 <= i < n ==> order[..n][i] == order[i];
      assert t.slave == order[n];
    }
  }

  lemma {:induction false} MembersHave(slaves: seq<Slave>, group: nat, n: nat)
    requires n <= |slaves|
    ensures (forall i :: 0 <= i < |Members(slaves, group, n)| ==>
               slaves[Members(slaves, group, n)[i]].Obits == 0 && slaves[Members(slaves, group, n)[i]].Ibits == 0) <==>
            forall k :: 0 <= k < n && Member(slaves[k], group) ==> slaves[k].Obits == 0 && slaves[k].Ibits == 0
    ensures forall i :: 0 <= i < |Members(slaves, group, n)| ==> Member(slaves[Members(slaves, group, n)[i]], group)
  {
    hide Member;
    if n > 0 {
      var before, all := Members(slaves, group, n - 1), Members(slaves, group, n);
      MembersHave(slaves, group, n - 1);
      assert forall i :: 0 <= i < |before| ==> all[i] == before[i];
      assert |all| > |before| ==> all[|before|] == n - 1;
    }
  }

  lemma {:induction false} ObytesZeroIff(slaves: seq<Slave>, g: PD.Group, group: nat, slaves': seq<Slave>,
                                         g': PD.Group, slots: seq<Slot>, end: nat)
    requires AllSized(slaves) && |g.IOsegment| == EC_MAXIOSEGMENTS && slaves != [] && AllEnough(slaves, group)
    requires OverlapMapped(slaves, g, group, slaves', g', slots, end)
    ensures g'.Obytes == 0 <==> NoOutputBytes(slaves, group)
  {
    hide AfterSlots, PackAll, AnyBlocks, SlotSteps, Occupies, Enough, Member, Slotted, Members;
    var last, order := |slaves| - 1, Members(slaves, group, |slaves|);
    if Member(slaves[last], group) {
      LastSlot(slaves, group, slots, g.logstartaddr, end);
      var n := |slots| - 1;
      var t := slots[n];
      BeforeLast(slaves, group, slots, g.logstartaddr, end);
      MembersHave(slaves, group, last);
      SlotsEmptyIff(slaves, Members(slaves, group, last), slots[..n], g.logstartaddr, t.start);
      BytesTaken(slaves[last], Output, t.ofs, t.start, t.oend);
    } else {
      MembersHave(slaves, group, |slaves|);
      SlotsEmptyIff(slaves, order, slots, g.logstartaddr, end);
    }
  }

  lemma {:induction false} BeforeLast(slaves: seq<Slave>, group: nat, slots: seq<Slot>, start: nat, end: nat)
    requires AllSized(slaves) && slaves != [] && Member(slaves[|slaves| - 1], group) && slots != []
    requires Slotted(slaves, Members(slaves, group, |slaves|), slots, start, end)
    ensures var n := |slots| - 1;
            Slotted(slaves, Members(slaves, group, |slaves| - 1), slots[..n], start, slots[n].start)
  {
    hide Fills;
    var order := Members(slaves, group, |slaves|);
    assert order[..|order| - 1] == Members(slaves, group, |slaves| - 1);
  }

  /** Mapping one group leaves the slaves of all others as they are exactly when no slave of it has data, but for
      inputs of the last slave in the list: told before the mapping. */
  lemma {:induction false} OthersStayIff(slaves: seq<Slave>, g: PD.Group, group: nat, slaves': seq<Slave>,
                                         g': PD.Group, slots: seq<Slot>, end: nat, k: nat)
    requires AllSized(slaves) && |g.IOsegment| == EC_MAXIOSEGMENTS && AllEnough(slaves, group)
    requires k < |slaves| && !Member(slaves[k], group)
    requires OverlapMapped(slaves, g, group, slaves', g', slots, end)
    ensures |slaves'| == |slaves| && (slaves'[k] == slaves[k] <==> NoOutputBytes(slaves, group))
  {
    hide OverlapMapped, AllEnough, NoOutputBytes;
    OthersMove(slaves, g, group, slaves', g', slots, end, k);
    ObytesZeroIff(slaves, g, group, slaves', g', slots, end);
  }

  /** A slave of group 1 with one byte of input, already mapped to the start of the IO map. */
  function MappedBefore(): Slave {
    var none := Sm(0, 0, 0);
    Slave(0, 0, Null, 0, 8, 1, At(0), 0, [none, none, none, Sm(0x1180, 1, 4), none, none, none, none], [], 1, false)
  }

  /** Mapping group 2, of one slave with two bytes of output, moves its input pointer on by two. */
  lemma {:induction false} PointerMoves(g: PD.Group) returns (slaves': seq<Slave>, g': PD.Group, slots: seq<Slot>)
    requires |g.IOsegment| == EC_MAXIOSEGMENTS
    ensures var slaves := [MappedBefore(), OutputsOnly().(group := 2)];
            && AllSized(slaves) && OverlapMapped(slaves, g, 2, slaves', g', slots, g.logstartaddr + 2)
            && |slaves'| == 2 && slaves[0].inputs == At(0) && slaves'[0].inputs == At(2)
  {
    hide PackAll, SlotSteps, OverlapMapped;
    var slaves, start := [MappedBefore(), OutputsOnly().(group := 2)], g.logstartaddr;
    var f := Fmmu(start, 2, 0, 7, 0x1100, Output, true);
    var t := Slot(1, start, [f], start + 2, [], start);
    slots := [t];
    OutputsOnlyFills(slaves[1], t, f);
    assert Members(slaves, 2, 0) == [] && Members(slaves, 2, 1) == [];
    assert Members(slaves, 2, 2) == [1];
    OneSlot(slaves, t);
    slaves', g' := MapFor(slaves, g, 2, slots, start + 2);
    assert [t][..0] == [];
    assert AfterSlots(slaves, [], Base(g, 2)) == slaves;
    assert AfterSlots(slaves, [t], Base(g, 2))[0] == slaves[0];
  }
}
