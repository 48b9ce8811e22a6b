/** Where the segments of the sequential map end. */
module MapSegments {
  import opened Mapping
  import opened Segments
  import opened MapGroup
  import opened MapLayout
  import PD = ProcessData
  import L = LogicalExchange

  /** The cursor before step k, in bytes. */
  function Cursor(runs: seq<Run>, end: nat, k: nat): nat {
    if k < |runs| then runs[k].c / 8 else if k == |runs| then end / 8 else AlignUp(end) / 8
  }

  lemma {:induction false} AdvancesSum(slaves: seq<Slave>, kind: Kind, order: seq<nat>, runs: seq<Run>, start: nat,
                                       end: nat)
    requires AllSized(slaves) && LaidOut(slaves, kind, order, runs, start, end)
    ensures start <= end && PD.Sum(Advances(runs)) == end / 8 - start / 8
  {
    hide Allotted;
    if runs != [] {
      var n := |runs| - 1;
      var r := runs[n];
      AllottedOrder(slaves[r.slave], kind, r.fs, r.c, r.from, r.to);
      AdvancesSum(slaves, kind, order[..n], runs[..n], start, r.c);
      assert Advances(runs) == Advances(runs[..n]) + [r.to / 8 - r.c / 8];
      SumSnoc(Advances(runs[..n]), r.to / 8 - r.c / 8);
    }
  }

  /** Adding up the steps gives the cursor. */
  lemma {:induction false} StepsSum(slaves: seq<Slave>, kind: Kind, order: seq<nat>, runs: seq<Run>, start: nat,
                                    end: nat, k: nat)
    requires AllSized(slaves) && LaidOut(slaves, kind, order, runs, start, end) && k <= |Steps(runs, end)|
    ensures start / 8 <= Cursor(runs, end, k) && PD.Sum(Steps(runs, end)[..k]) == Cursor(runs, end, k) - start / 8
  {
    hide LaidOut, Allotted;
    AdvancesSum(slaves, kind, order, runs, start, end);
    if k < |runs| {
      SameLength(slaves, kind, order, runs, start, end);
      Prefix(slaves, kind, order, runs, start, end, k);
      AdvancesSum(slaves, kind, order[..k], runs[..k], start, runs[k].c);
      assert Steps(runs, end)[..k] == Advances(runs[..k]);
    } else if k == |runs| {
      assert Steps(runs, end)[..k] == Advances(runs);
    } else {
      assert Steps(runs, end)[..k] == Advances(runs) + [1];
      SumSnoc(Advances(runs), 1);
    }
  }

  function AllSteps(oruns: seq<Run>, oend: nat, iruns: seq<Run>, iend: nat): seq<nat> {
    Steps(oruns, oend) + Steps(iruns, iend)
  }

  /** The group's segment list is the packing of all steps, outputs first. */
  lemma {:induction false} GroupSegments(slaves: seq<Slave>, g: PD.Group, group: nat, slaves': seq<Slave>,
                                         g': PD.Group, oruns: seq<Run>, oend: nat, iruns: seq<Run>, iend: nat)
    requires AllSized(slaves) && |g.IOsegment| == EC_MAXIOSEGMENTS
    requires GroupMapped(slaves, g, group, slaves', g', oruns, oend, iruns, iend)
    ensures var st, steps := PackAll(Unsegmented(g), AllSteps(oruns, oend, iruns, iend)),
            AllSteps(oruns, oend, iruns, iend);
            && g'.nsegments <= |g'.IOsegment| && g'.IOsegment[..g'.nsegments] == st.List()
            && PD.Sum(steps) == g'.Obytes + g'.Ibytes
            && PD.Sum(Steps(oruns, oend)) == g'.Obytes
  {
    hide LaidOut, After, AnyBlocks, Chosen, Steps, PackAll, Advances;
    var osteps, isteps := Steps(oruns, oend), Steps(iruns, iend);
    PackAllJoin(Unsegmented(g), osteps, isteps);
    StepsEnd(slaves, Output, Chosen(slaves, Output, group, |slaves|), oruns, 8 * g.logstartaddr, oend);
    StepsEnd(slaves, Input, Chosen(slaves, Input, group, |slaves|), iruns, AlignUp(oend), iend);
    SumJoin(osteps, isteps);
  }

  lemma {:induction false} StepsEnd(slaves: seq<Slave>, kind: Kind, order: seq<nat>, runs: seq<Run>, start: nat,
                                    end: nat)
    requires AllSized(slaves) && LaidOut(slaves, kind, order, runs, start, end)
    ensures start / 8 <= AlignUp(end) / 8 && PD.Sum(Steps(runs, end)) == AlignUp(end) / 8 - start / 8
  {
    hide LaidOut, Advances;
    var n := |Steps(runs, end)|;
    StepsSum(slaves, kind, order, runs, start, end, n);
    assert Steps(runs, end)[..n] == Steps(runs, end);
  }

  /** The map can be exchanged cyclically, one datagram a segment, exactly when there is a list of at
      most 64 segments that keeps each slave's advance in one piece and no segment exceeds a datagram. */
  lemma {:induction false} ExchangeableIff(slaves: seq<Slave>, g: PD.Group, group: nat, slaves': seq<Slave>,
                                           g': PD.Group, oruns: seq<Run>, oend: nat, iruns: seq<Run>, iend: nat)
    requires AllSized(slaves) && |g.IOsegment| == EC_MAXIOSEGMENTS
    requires GroupMapped(slaves, g, group, slaves', g', oruns, oend, iruns, iend)
    ensures L.Mapped(g', false) <==>
              exists parts :: Fit(parts, AllSteps(oruns, oend, iruns, iend)) && |parts| <= EC_MAXIOSEGMENTS
  {
    hide LaidOut, After, AnyBlocks, Chosen, Steps, AllSteps, PackAll;
    var steps := AllSteps(oruns, oend, iruns, iend);
    var list := PackAll(Unsegmented(g), steps).List();
    GroupSegments(slaves, g, group, slaves', g', oruns, oend, iruns, iend);
    PackedIff(Unsegmented(g), steps);
    InputStart(g, oruns, oend, iruns, iend);
    ListMapped(g', list);
  }

  lemma {:induction false} ListMapped(g: PD.Group, list: seq<nat>)
    requires g.Isegment < g.nsegments <= |g.IOsegment| && g.IOsegment[..g.nsegments] == list
    requires g.outputs == 0 && g.inputs == g.Obytes && g.Ioffset <= list[g.Isegment]
    requires PD.Sum(list) == g.Obytes + g.Ibytes ==> PD.Sum(list[..g.Isegment]) + g.Ioffset == g.Obytes
    ensures L.Mapped(g, false) <==> PD.Sum(list) == g.Obytes + g.Ibytes && Small(list)
  {
    assert forall k :: 0 <= k < g.nsegments ==> list[k] == g.IOsegment[k];
    assert list[..g.Isegment] == g.IOsegment[..g.Isegment];
  }

  /** Inputs start in the segment, and at the offset, where the outputs ended. */
  lemma {:induction false} InputStart(g: PD.Group, oruns: seq<Run>, oend: nat, iruns: seq<Run>, iend: nat)
    requires |g.IOsegment| == EC_MAXIOSEGMENTS
    ensures var st, steps := PackAll(Unsegmented(g), AllSteps(oruns, oend, iruns, iend)),
            AllSteps(oruns, oend, iruns, iend);
            var ost := PackAll(Unsegmented(g), Steps(oruns, oend));
            && ost.currentsegment <= st.currentsegment && ost.segmentsize <= st.List()[ost.currentsegment]
            && (PD.Sum(st.List()) == PD.Sum(steps) ==>
                 PD.Sum(st.List()[..ost.currentsegment]) + ost.segmentsize == PD.Sum(Steps(oruns, oend)))
  {
    hide Steps, PackAll;
    var osteps, isteps := Steps(oruns, oend), Steps(iruns, iend);
    var ost := PackAll(Unsegmented(g), osteps);
    var k := ost.currentsegment;
    PackAllJoin(Unsegmented(g), osteps, isteps);
    PackedOn(ost, isteps);
    SumJoin(osteps, isteps);
    PackedSum(Unsegmented(g), osteps);
    PackedSum(ost, isteps);
    SumSnoc(ost.IOsegment[..k], ost.segmentsize);
    assert ost.List()[..k] == ost.IOsegment[..k];
  }

  // ----- segments and slaves -----

  lemma {:induction false} CursorAround(slaves: seq<Slave>, kind: Kind, order: seq<nat>, runs: seq<Run>, start: nat,
                                        end: nat, i: nat, k: nat)
    requires AllSized(slaves) && LaidOut(slaves, kind, order, runs, start, end) && i < |runs|
    ensures if k <= i then Cursor(runs, end, k) <= runs[i].c / 8 else runs[i].to / 8 <= Cursor(runs, end, k)
  {
    hide LaidOut, Allotted;
    Prefix(slaves, kind, order, runs, start, end, i);
    if k < i {
      Later(slaves, kind, order, runs, start, end, k, i);
      Prefix(slaves, kind, order, runs, start, end, k);
    } else if i < k < |runs| {
      Later(slaves, kind, order, runs, start, end, i, k);
    }
  }

  /** The slave's bits reach beyond the byte address b. */
  predicate Splits(r: Run, b: nat) { r.from < 8 * b < r.to }

  lemma {:induction false} PassEnds(slaves: seq<Slave>, kind: Kind, order: seq<nat>, runs: seq<Run>, start: nat,
                                    end: nat, i: nat, k: nat)
    requires AllSized(slaves) && LaidOut(slaves, kind, order, runs, start, end) && i < |runs|
    ensures runs[i].slave < |slaves| && start <= runs[i].from && runs[i].to <= end
    ensures Splits(runs[i], Cursor(runs, end, k)) ==>
              Bytes(slaves[runs[i].slave], kind) == 0 && Cursor(runs, end, k) == runs[i].to / 8
  {
    hide LaidOut, Started, Offered;
    Prefix(slaves, kind, order, runs, start, end, i);
    CursorAround(slaves, kind, order, runs, start, end, i, k);
  }

  /** The cursor at which a segment ends: a step of the outputs, or one of the inputs. */
  lemma {:induction false} SegmentEnd(slaves: seq<Slave>, g: PD.Group, group: nat, slaves': seq<Slave>, g': PD.Group,
                                      oruns: seq<Run>, oend: nat, iruns: seq<Run>, iend: nat, j: nat)
    returns (k: nat, outputs: bool)
    requires AllSized(slaves) && |g.IOsegment| == EC_MAXIOSEGMENTS
    requires GroupMapped(slaves, g, group, slaves', g', oruns, oend, iruns, iend)
    requires L.Mapped(g', false) && j <= g'.nsegments
    ensures g.logstartaddr + PD.Sum(g'.IOsegment[..j]) == if outputs then Cursor(oruns, oend, k)
            else Cursor(iruns, iend, k)
    ensures if outputs then 8 * Cursor(oruns, oend, k) <= AlignUp(oend) else AlignUp(oend) <= 8 * Cursor(iruns, iend, k)
  {
    hide LaidOut, After, AnyBlocks, Chosen, Steps, PackAll;
    var osteps, isteps := Steps(oruns, oend), Steps(iruns, iend);
    var steps, list := osteps + isteps, PackAll(Unsegmented(g), AllSteps(oruns, oend, iruns, iend)).List();
    GroupSegments(slaves, g, group, slaves', g', oruns, oend, iruns, iend);
    var n := Boundary(Unsegmented(g), steps, j);
    assert list[..j] == g'.IOsegment[..j];
    outputs := n <= |osteps|;
    if outputs {
      k := n;
      assert steps[..n] == osteps[..k];
      StepsSum(slaves, Output, Chosen(slaves, Output, group, |slaves|), oruns, 8 * g.logstartaddr, oend, k);
      CursorEnd(slaves, Output, Chosen(slaves, Output, group, |slaves|), oruns, 8 * g.logstartaddr, oend, k);
    } else {
      k := n - |osteps|;
      assert steps[..n] == osteps + isteps[..k];
      SumJoin(osteps, isteps[..k]);
      StepsSum(slaves, Input, Chosen(slaves, Input, group, |slaves|), iruns, AlignUp(oend), iend, k);
    }
  }

  lemma {:induction false} CursorEnd(slaves: seq<Slave>, kind: Kind, order: seq<nat>, runs: seq<Run>, start: nat,
                                     end: nat, k: nat)
    requires AllSized(slaves) && LaidOut(slaves, kind, order, runs, start, end)
    ensures 8 * Cursor(runs, end, k) <= AlignUp(end)
  {
    hide LaidOut, Allotted;
    if k < |runs| {
      Prefix(slaves, kind, order, runs, start, end, k);
    }
  }

  /** No segment ends inside the data of a byte oriented slave.  The data of a bit oriented slave is only
      ever split at the byte edge it crosses. */
  lemma {:induction false} SplitsOnlyBits(slaves: seq<Slave>, g: PD.Group, group: nat, slaves': seq<Slave>,
                                          g': PD.Group, oruns: seq<Run>, oend: nat, iruns: seq<Run>, iend: nat,
                                          j: nat, kind: Kind, i: nat)
    requires AllSized(slaves) && |g.IOsegment| == EC_MAXIOSEGMENTS
    requires GroupMapped(slaves, g, group, slaves', g', oruns, oend, iruns, iend)
    requires L.Mapped(g', false) && j <= g'.nsegments && i < |if kind.Output? then oruns else iruns|
    ensures var r, b := (if kind.Output? then oruns else iruns)[i], g.logstartaddr + PD.Sum(g'.IOsegment[..j]);
            r.slave < |slaves| && (Splits(r, b) ==> Bytes(slaves[r.slave], kind) == 0 && b == r.to / 8)
  {
    hide LaidOut, After, AnyBlocks, Chosen, Steps, PackAll, L.Mapped, Cursor;
    var k, outputs := SegmentEnd(slaves, g, group, slaves', g', oruns, oend, iruns, iend, j);
    if kind.Output? {
      PassEnds(slaves, Output, Chosen(slaves, Output, group, |slaves|), oruns, 8 * g.logstartaddr, oend, i, k);
    } else {
      PassEnds(slaves, Input, Chosen(slaves, Input, group, |slaves|), iruns, AlignUp(oend), iend, i, k);
    }
  }

  /** The slave has fewer than 8 bits, and they cross a byte edge. */
  predicate Crosses(s: Slave, kind: Kind, r: Run) { Bytes(s, kind) == 0 && Splits(r, r.to / 8) }

  /** Some segment ends inside the slave's data. */
  ghost predicate Cut(g: PD.Group, r: Run)
    requires g.nsegments <= |g.IOsegment|
  {
    exists j: nat :: 0 < j < g.nsegments && Splits(r, g.logstartaddr + PD.Sum(g.IOsegment[..j]))
  }

  lemma {:induction false} CutAtEdge(g: PD.Group, r: Run, list: seq<nat>)
    requires g.nsegments <= |g.IOsegment| && g.IOsegment[..g.nsegments] == list && Splits(r, r.to / 8)
    requires r.to / 8 >= g.logstartaddr && EndsBehind(list, r.to / 8 - g.logstartaddr)
    ensures Cut(g, r)
  {
    hide PD.Sum, Splits;
    var j: nat :| 0 < j < |list| && PD.Sum(list[..j]) == r.to / 8 - g.logstartaddr;
    assert g.IOsegment[..j] == list[..j];
  }

  lemma {:induction false} EdgeOfCut(slaves: seq<Slave>, g: PD.Group, group: nat, slaves': seq<Slave>, g': PD.Group,
                                     oruns: seq<Run>, oend: nat, iruns: seq<Run>, iend: nat, kind: Kind, i: nat)
    requires AllSized(slaves) && |g.IOsegment| == EC_MAXIOSEGMENTS && g'.nsegments <= |g'.IOsegment|
    requires GroupMapped(slaves, g, group, slaves', g', oruns, oend, iruns, iend) && g'.logstartaddr == g.logstartaddr
    requires L.Mapped(g', false) && i < |if kind.Output? then oruns else iruns|
    requires Cut(g', (if kind.Output? then oruns else iruns)[i])
    ensures var r := (if kind.Output? then oruns else iruns)[i];
            && r.slave < |slaves| && Crosses(slaves[r.slave], kind, r) && r.to / 8 >= g.logstartaddr
            && EndsBehind(g'.IOsegment[..g'.nsegments], r.to / 8 - g.logstartaddr)
  {
    hide GroupMapped, L.Mapped, PD.Sum, Splits;
    var r, list := (if kind.Output? then oruns else iruns)[i], g'.IOsegment[..g'.nsegments];
    var j: nat :| 0 < j < g'.nsegments && Splits(r, g.logstartaddr + PD.Sum(g'.IOsegment[..j]));
    SplitsOnlyBits(slaves, g, group, slaves', g', oruns, oend, iruns, iend, j, kind, i);
    assert list[..j] == g'.IOsegment[..j];
  }

  /** Exactly when: the slave has fewer than 8 bits that cross a byte edge, and of the steps of the mapping the
      next that moves on from that edge does not fit into the segment it finds there. */
  lemma {:induction false} SplitIff(slaves: seq<Slave>, g: PD.Group, group: nat, slaves': seq<Slave>, g': PD.Group,
                                    oruns: seq<Run>, oend: nat, iruns: seq<Run>, iend: nat, kind: Kind, i: nat)
    requires AllSized(slaves) && |g.IOsegment| == EC_MAXIOSEGMENTS
    requires GroupMapped(slaves, g, group, slaves', g', oruns, oend, iruns, iend)
    requires L.Mapped(g', false) && i < |if kind.Output? then oruns else iruns|
    ensures var r := (if kind.Output? then oruns else iruns)[i];
            && r.slave < |slaves| && g'.nsegments <= |g'.IOsegment|
            && (Cut(g', r) <==>
                Crosses(slaves[r.slave], kind, r) && r.to / 8 >= g.logstartaddr &&
                BreaksBehind(Unsegmented(g), AllSteps(oruns, oend, iruns, iend), r.to / 8 - g.logstartaddr))
  {
    hide GroupMapped, AllSteps, PackAll, EndsBehind, BreaksBehind, L.Mapped, Cut, PD.Sum;
    var r, steps := (if kind.Output? then oruns else iruns)[i], AllSteps(oruns, oend, iruns, iend);
    GroupSegments(slaves, g, group, slaves', g', oruns, oend, iruns, iend);
    StartOf(slaves, g, group, slaves', g', oruns, oend, iruns, iend);
    SplitsOnlyBits(slaves, g, group, slaves', g', oruns, oend, iruns, iend, 0, kind, i);
    Lossless(g', g'.IOsegment[..g'.nsegments], PD.Sum(steps));
    if r.to / 8 >= g.logstartaddr {
      EndsIff(Unsegmented(g), steps, r.to / 8 - g.logstartaddr);
    }
    if Cut(g', r) {
      EdgeOfCut(slaves, g, group, slaves', g', oruns, oend, iruns, iend, kind, i);
    } else if r.to / 8 >= g.logstartaddr && EndsBehind(g'.IOsegment[..g'.nsegments], r.to / 8 - g.logstartaddr) &&
              Splits(r, r.to / 8) {
      CutAtEdge(g', r, g'.IOsegment[..g'.nsegments]);
    }
  }

  lemma {:induction false} StartOf(slaves: seq<Slave>, g: PD.Group, group: nat, slaves': seq<Slave>, g': PD.Group,
                                   oruns: seq<Run>, oend: nat, iruns: seq<Run>, iend: nat)
    requires AllSized(slaves) && |g.IOsegment| == EC_MAXIOSEGMENTS
    requires GroupMapped(slaves, g, group, slaves', g', oruns, oend, iruns, iend)
    ensures g'.logstartaddr == g.logstartaddr
  {
    hide LaidOut, After, AnyBlocks, Chosen, Steps, PackAll;
  }

  lemma {:induction false} Lossless(g: PD.Group, list: seq<nat>, sum: nat)
    requires L.Mapped(g, false) && g.IOsegment[..g.nsegments] == list && sum == g.Obytes + g.Ibytes
    ensures PD.Sum(list) == sum && |list| == g.nsegments
  {
  }

  // ----- a bit oriented slave that is split -----

  predicate Plain(s: Slave, bits: nat) {
    Sized(s) && s.Obits == bits && s.Ibits == 0 && Offered(s.SM, EC_MAXSM - 1, SmType(Output)) >= s.Obytes
  }

  /** 1465 bytes, twice 5 bits, and 10 bytes: the second five bits cross from byte 1465 to byte 1466,
      where the first segment ends. */
  lemma {:induction false} BitsAreSplit(slaves: seq<Slave>, g: PD.Group, slaves': seq<Slave>, g': PD.Group,
                                        oruns: seq<Run>, oend: nat, iruns: seq<Run>, iend: nat)
    requires |slaves| == 4 && Plain(slaves[0], 8 * 1465) && Plain(slaves[1], 5) && Plain(slaves[2], 5) &&
             Plain(slaves[3], 80)
    requires AllSized(slaves) && |g.IOsegment| == EC_MAXIOSEGMENTS && g.logstartaddr == 0
    requires GroupMapped(slaves, g, 0, slaves', g', oruns, oend, iruns, iend)
    ensures |oruns| == 4 && oruns[2].slave == 2
    ensures g'.IOsegment[..g'.nsegments] == [1466, 11] && Splits(oruns[2], g'.IOsegment[0])
  {
    hide LaidOut, After, AnyBlocks, Chosen, Steps, PackAll, Started, Offered;
    GroupSegments(slaves, g, 0, slaves', g', oruns, oend, iruns, iend);
    FourChosen(slaves);
    SameLength(slaves, Output, [0, 1, 2, 3], oruns, 0, oend);
    SameLength(slaves, Input, [], iruns, AlignUp(oend), iend);
    Prefix(slaves, Output, [0, 1, 2, 3], oruns, 0, oend, 3);
    FourRuns(slaves, oruns, oend);
    Adjacent(slaves, Input, [], iruns, AlignUp(oend), iend, 0);
    FourSteps(oruns, oend, iruns, iend);
    FourSegments(Unsegmented(g));
  }

  lemma {:induction false} FourChosen(slaves: seq<Slave>)
    requires |slaves| == 4 && forall k :: 0 <= k < 4 ==> slaves[k].Obits > 0 && slaves[k].Ibits == 0
    ensures Chosen(slaves, Output, 0, 4) == [0, 1, 2, 3] && Chosen(slaves, Input, 0, 4) == []
  {
    assert Chosen(slaves, Output, 0, 1) == [0] && Chosen(slaves, Input, 0, 1) == [];
    assert Chosen(slaves, Output, 0, 2) == [0, 1] && Chosen(slaves, Input, 0, 2) == [];
    assert Chosen(slaves, Output, 0, 3) == [0, 1, 2] && Chosen(slaves, Input, 0, 3) == [];
  }

  lemma {:induction false} Adjacent(slaves: seq<Slave>, kind: Kind, order: seq<nat>, runs: seq<Run>, start: nat,
                                    end: nat, k: nat)
    requires AllSized(slaves) && LaidOut(slaves, kind, order, runs, start, end) && k <= |runs|
    ensures (if k < |runs| then runs[k].c else end) == if k == 0 then start else runs[k - 1].to
  {
    hide Allotted;
    if k < |runs| {
      Prefix(slaves, kind, order, runs, start, end, k);
    }
  }

  lemma {:induction false} FourRuns(slaves: seq<Slave>, runs: seq<Run>, end: nat)
    requires |slaves| == 4 && Plain(slaves[0], 8 * 1465) && Plain(slaves[1], 5) && Plain(slaves[2], 5) &&
             Plain(slaves[3], 80)
    requires AllSized(slaves) && LaidOut(slaves, Output, [0, 1, 2, 3], runs, 0, end) && |runs| == 4
    ensures runs[0].c == 0 && runs[0].to == runs[1].c == 11720 && runs[1].to == runs[2].c == runs[2].from == 11725
    ensures runs[2].to == runs[3].c == 11730 && runs[3].to == end == 11816 && runs[2].slave == 2
  {
    hide LaidOut, Started, Offered;
    var order: seq<nat> := [0, 1, 2, 3];
    Adjacent(slaves, Output, order, runs, 0, end, 0);
    Adjacent(slaves, Output, order, runs, 0, end, 1);
    Adjacent(slaves, Output, order, runs, 0, end, 2);
    Adjacent(slaves, Output, order, runs, 0, end, 3);
    Adjacent(slaves, Output, order, runs, 0, end, 4);
    Prefix(slaves, Output, order, runs, 0, end, 0);
    Prefix(slaves, Output, order, runs, 0, end, 1);
    Prefix(slaves, Output, order, runs, 0, end, 2);
    Prefix(slaves, Output, order, runs, 0, end, 3);
  }

  lemma {:induction false} FourSteps(oruns: seq<Run>, oend: nat, iruns: seq<Run>, iend: nat)
    requires |oruns| == 4 && iruns == [] && iend == oend == 11816
    requires oruns[0].c == 0 && oruns[0].to == oruns[1].c == 11720 && oruns[1].to == oruns[2].c == 11725
    requires oruns[2].to == oruns[3].c == 11730 && oruns[3].to == 11816
    ensures AllSteps(oruns, oend, iruns, iend) == [1465, 0, 1, 11]
  {
    assert Advances(oruns) == [1465, 0, 1, 11];
  }

  lemma {:induction false} FourSegments(st: Segmenter)
    requires Empty(st)
    ensures PackAll(st, [1465, 0, 1, 11]).List() == [1466, 11]
  {
    var s1 := Pack(st, 1465);
    assert [1465, 0, 1, 11][..3] == [1465, 0, 1] && [1465, 0, 1][..2] == [1465, 0] && [1465, 0][..1] == [1465] &&
           [1465][..0] == [];
    var none: seq<nat> := [];
    assert PackAll(st, none) == st;
    assert PackAll(st, [1465]) == s1;
    assert PackAll(st, [1465, 0]) == Pack(s1, 0);
    assert PackAll(st, [1465, 0, 1]) == Pack(Pack(s1, 0), 1);
  }
}
