/** What the sequential map promises: where every slave's data lies, and where the segments end. */
module MapLayout {
  import opened Mapping
  import opened Segments
  import opened MapGroup
  import PD = ProcessData
  import L = LogicalExchange

  // ----- the slaves' data -----

  lemma {:induction false} Prefix(slaves: seq<Slave>, kind: Kind, order: seq<nat>, runs: seq<Run>, start: nat,
                                  end: nat, j: nat)
    requires AllSized(slaves) && LaidOut(slaves, kind, order, runs, start, end) && j < |runs|
    ensures LaidOut(slaves, kind, order[..j], runs[..j], start, runs[j].c)
    ensures runs[j].slave == order[j] < |slaves|
    ensures Allotted(slaves[runs[j].slave], kind, runs[j].fs, runs[j].c, runs[j].from, runs[j].to)
    ensures start <= runs[j].c <= runs[j].from <= runs[j].to <= end
    decreases |runs|
  {
    hide Allotted;
    var n := |runs| - 1;
    var r := runs[n];
    AllottedOrder(slaves[r.slave], kind, r.fs, r.c, r.from, r.to);
    if j < n {
      Prefix(slaves, kind, order[..n], runs[..n], start, r.c, j);
      assert order[..n][..j] == order[..j] && runs[..n][..j] == runs[..j];
    } else {
      LaidOutGrows(slaves, kind, order[..n], runs[..n], start, r.c);
    }
  }

  /** Slaves mapped later lie behind. */
  lemma {:induction false} Later(slaves: seq<Slave>, kind: Kind, order: seq<nat>, runs: seq<Run>, start: nat,
                                 end: nat, i: nat, j: nat)
    requires AllSized(slaves) && LaidOut(slaves, kind, order, runs, start, end) && i < j < |runs|
    ensures runs[i].to <= runs[j].c
  {
    Prefix(slaves, kind, order, runs, start, end, j);
    Prefix(slaves, kind, order[..j], runs[..j], start, runs[j].c, i);
  }

  lemma {:induction false} ChosenOrder(slaves: seq<Slave>, kind: Kind, group: nat, n: nat, i: nat, j: nat)
    requires n <= |slaves| && i < j < |Chosen(slaves, kind, group, n)|
    ensures Chosen(slaves, kind, group, n)[i] < Chosen(slaves, kind, group, n)[j]
  {
    if j < |Chosen(slaves, kind, group, n - 1)| {
      ChosenOrder(slaves, kind, group, n - 1, i, j);
    }
  }

  /** Exactly the members with data of the kind are mapped. */
  lemma {:induction false} ChosenIff(slaves: seq<Slave>, kind: Kind, group: nat, n: nat, k: nat)
    requires n <= |slaves| && k < n
    ensures k in Chosen(slaves, kind, group, n) <==> Member(slaves[k], group) && Bits(slaves[k], kind) > 0
  {
    if k < n - 1 {
      ChosenIff(slaves, kind, group, n - 1, k);
    }
  }

  predicate Increasing(runs: seq<Run>) { forall i, j :: 0 <= i < j < |runs| ==> runs[i].slave < runs[j].slave }

  /** What a pass does to a slave: its own run, or nothing. */
  lemma {:induction false} AfterAt(slaves: seq<Slave>, kind: Kind, runs: seq<Run>, base: nat, k: nat)
    requires Increasing(runs) && k < |slaves|
    requires forall i :: 0 <= i < |runs| ==> runs[i].slave < |slaves| && base <= runs[i].from / 8
    ensures forall i :: 0 <= i < |runs| && runs[i].slave == k ==>
              After(slaves, kind, runs, base)[k] == Mapped(slaves[k], kind, runs[i].fs, runs[i].from, base)
    ensures (forall i :: 0 <= i < |runs| ==> runs[i].slave != k) ==> After(slaves, kind, runs, base)[k] == slaves[k]
  {
    if runs != [] {
      AfterAt(slaves, kind, runs[..|runs| - 1], base, k);
    }
  }

  lemma {:induction false} InOrder(slaves: seq<Slave>, kind: Kind, group: nat, runs: seq<Run>, start: nat, end: nat)
    requires AllSized(slaves) && LaidOut(slaves, kind, Chosen(slaves, kind, group, |slaves|), runs, start, end)
    ensures Increasing(runs)
    ensures forall i :: 0 <= i < |runs| ==> runs[i].slave < |slaves| && start <= runs[i].from
  {
    hide LaidOut, Chosen;
    var order := Chosen(slaves, kind, group, |slaves|);
    forall i | 0 <= i < |runs|
      ensures |runs| == |order| && runs[i].slave == order[i] < |slaves| && start <= runs[i].from
    {
      Prefix(slaves, kind, order, runs, start, end, i);
      SameLength(slaves, kind, order, runs, start, end);
    }
    SameLength(slaves, kind, order, runs, start, end);
    forall i, j | 0 <= i < j < |runs| ensures runs[i].slave < runs[j].slave {
      ChosenOrder(slaves, kind, group, |slaves|, i, j);
    }
  }

  lemma {:induction false} SameLength(slaves: seq<Slave>, kind: Kind, order: seq<nat>, runs: seq<Run>, start: nat,
                                      end: nat)
    requires AllSized(slaves) && LaidOut(slaves, kind, order, runs, start, end)
    ensures |runs| == |order|
  {
  }

  /** The logical bits of different slaves do not overlap, and follow each other in slave order, all
      outputs before all inputs; exactly the slaves of the group that have data get bits, and the map is large
      enough for all of them. */
  lemma {:induction false} MapIsPacked(slaves: seq<Slave>, g: PD.Group, group: nat, slaves': seq<Slave>, g': PD.Group,
                                       oruns: seq<Run>, oend: nat, iruns: seq<Run>, iend: nat)
    requires AllSized(slaves) && |g.IOsegment| == EC_MAXIOSEGMENTS
    requires GroupMapped(slaves, g, group, slaves', g', oruns, oend, iruns, iend)
    ensures forall i, j :: 0 <= i < j < |oruns| ==> oruns[i].slave < oruns[j].slave && oruns[i].to <= oruns[j].from
    ensures forall i, j :: 0 <= i < j < |iruns| ==> iruns[i].slave < iruns[j].slave && iruns[i].to <= iruns[j].from
    ensures forall i :: 0 <= i < |oruns| ==>
              8 * g'.logstartaddr <= oruns[i].from <= oruns[i].to <= 8 * (g'.logstartaddr + g'.Obytes)
    ensures forall i :: 0 <= i < |iruns| ==>
              && 8 * (g'.logstartaddr + g'.Obytes) <= iruns[i].from <= iruns[i].to
              && iruns[i].to <= 8 * (g'.logstartaddr + g'.Obytes + g'.Ibytes)
    ensures forall k :: 0 <= k < |slaves| ==>
              ((exists i :: 0 <= i < |oruns| && oruns[i].slave == k) <==>
               (group == 0 || slaves[k].group == group) && slaves[k].Obits > 0)
    ensures forall k :: 0 <= k < |slaves| ==>
              ((exists i :: 0 <= i < |iruns| && iruns[i].slave == k) <==>
               (group == 0 || slaves[k].group == group) && slaves[k].Ibits > 0)
  {
    hide LaidOut, After, PackAll, Steps, AnyBlocks, Chosen;
    PassIsPacked(slaves, Output, group, oruns, 8 * g.logstartaddr, oend);
    PassIsPacked(slaves, Input, group, iruns, AlignUp(oend), iend);
  }

  lemma {:induction false} PassIsPacked(slaves: seq<Slave>, kind: Kind, group: nat, runs: seq<Run>, start: nat,
                                        end: nat)
    requires AllSized(slaves) && LaidOut(slaves, kind, Chosen(slaves, kind, group, |slaves|), runs, start, end)
    ensures forall i, j :: 0 <= i < j < |runs| ==> runs[i].slave < runs[j].slave && runs[i].to <= runs[j].from
    ensures forall i :: 0 <= i < |runs| ==> start <= runs[i].from <= runs[i].to <= end
    ensures forall k :: 0 <= k < |slaves| ==>
              ((exists i :: 0 <= i < |runs| && runs[i].slave == k) <==>
               Member(slaves[k], group) && Bits(slaves[k], kind) > 0)
  {
    hide LaidOut, Chosen;
    var order := Chosen(slaves, kind, group, |slaves|);
    InOrder(slaves, kind, group, runs, start, end);
    SameLength(slaves, kind, order, runs, start, end);
    forall i | 0 <= i < |runs| ensures runs[i].slave == order[i] && start <= runs[i].from <= runs[i].to <= end {
      Prefix(slaves, kind, order, runs, start, end, i);
    }
    forall i, j | 0 <= i < j < |runs| ensures runs[i].to <= runs[j].from {
      Later(slaves, kind, order, runs, start, end, i, j);
      Prefix(slaves, kind, order, runs, start, end, j);
    }
    forall k | 0 <= k < |slaves|
      ensures (exists i :: 0 <= i < |runs| && runs[i].slave == k) <==>
              Member(slaves[k], group) && Bits(slaves[k], kind) > 0
    {
      ChosenIff(slaves, kind, group, |slaves|, k);
      if k in order {
        var i :| 0 <= i < |order| && order[i] == k;
        assert runs[i].slave == k;
      }
    }
  }

  /** A slave's pointer leads to the place in the IO map that has the position of its bits in logical
      memory, counted from the start of the group. */
  predicate Leads(s: Slave, kind: Kind, from: nat, start: nat) {
    PointerOf(s, kind).At? && Startbit(s, kind) < 8 && 8 * PointerOf(s, kind).offset + Startbit(s, kind) == from - start
  }

  lemma {:induction false} MappedLeads(s: Slave, kind: Kind, fs: seq<Fmmu>, from: nat, base: nat)
    requires base <= from / 8 && PointerOf(s, kind) == Null
    ensures Leads(Mapped(s, kind, fs, from, base), kind, from, 8 * base)
  {
  }

  lemma {:induction false} OtherKind(s: Slave, kind: Kind, other: Kind, fs: seq<Fmmu>, from: nat, base: nat)
    requires base <= from / 8 && kind != other
    ensures PointerOf(Mapped(s, kind, fs, from, base), other) == PointerOf(s, other)
    ensures Startbit(Mapped(s, kind, fs, from, base), other) == Startbit(s, other)
  {
  }

  predicate Unmapped(slaves: seq<Slave>) {
    forall k :: 0 <= k < |slaves| ==> slaves[k].outputs == Null && slaves[k].inputs == Null
  }

  /** Each slave's pointers lead to its own bits, counted from the start of the group; for group 0, from address 0. */
  lemma {:induction false} PointersLead(slaves: seq<Slave>, g: PD.Group, group: nat, slaves': seq<Slave>,
                                        g': PD.Group, oruns: seq<Run>, oend: nat, iruns: seq<Run>, iend: nat)
    requires AllSized(slaves) && |g.IOsegment| == EC_MAXIOSEGMENTS && Unmapped(slaves)
    requires GroupMapped(slaves, g, group, slaves', g', oruns, oend, iruns, iend)
    ensures |slaves'| == |slaves|
    ensures var start := if group == 0 then 0 else 8 * g'.logstartaddr;
            && (forall i :: 0 <= i < |oruns| ==>
                oruns[i].slave < |slaves| && Leads(slaves'[oruns[i].slave], Output, oruns[i].from, start))
            && (forall i :: 0 <= i < |iruns| ==>
                iruns[i].slave < |slaves| && Leads(slaves'[iruns[i].slave], Input, iruns[i].from, start))
  {
    hide LaidOut, After, PackAll, Steps, AnyBlocks, Chosen, Mapping.Mapped, Leads;
    var base := Base(g, group);
    var mid := After(slaves, Output, oruns, base);
    InOrder(slaves, Output, group, oruns, 8 * g.logstartaddr, oend);
    InOrder(slaves, Input, group, iruns, AlignUp(oend), iend);
    forall k | 0 <= k < |slaves|
      ensures forall i :: 0 <= i < |oruns| && oruns[i].slave == k ==> Leads(slaves'[k], Output, oruns[i].from, 8 * base)
      ensures forall i :: 0 <= i < |iruns| && iruns[i].slave == k ==> Leads(slaves'[k], Input, iruns[i].from, 8 * base)
    {
      AfterAt(slaves, Output, oruns, base, k);
      AfterAt(mid, Input, iruns, base, k);
      LeadsAt(slaves[k], mid[k], slaves'[k], oruns, iruns, base, k);
    }
  }

  lemma {:induction false} LeadsOnce(s: Slave, kind: Kind, from: nat, start: nat, start': nat)
    requires Leads(s, kind, from, start)
    ensures Leads(s, kind, from, start') <==> start == start'
  {
  }

  /** They are the right places in the IO map exactly when group 0, if that is mapped, starts at address 0. */
  lemma {:induction false} PointersRightIff(slaves: seq<Slave>, g: PD.Group, group: nat, slaves': seq<Slave>,
                                            g': PD.Group, oruns: seq<Run>, oend: nat, iruns: seq<Run>, iend: nat)
    requires AllSized(slaves) && |g.IOsegment| == EC_MAXIOSEGMENTS && Unmapped(slaves)
    requires GroupMapped(slaves, g, group, slaves', g', oruns, oend, iruns, iend)
    ensures |slaves'| == |slaves|
    ensures forall i :: 0 <= i < |oruns| ==>
              && oruns[i].slave < |slaves|
              && (Leads(slaves'[oruns[i].slave], Output, oruns[i].from, 8 * g'.logstartaddr) <==>
                  group != 0 || g'.logstartaddr == 0)
    ensures forall i :: 0 <= i < |iruns| ==>
              && iruns[i].slave < |slaves|
              && (Leads(slaves'[iruns[i].slave], Input, iruns[i].from, 8 * g'.logstartaddr) <==>
                  group != 0 || g'.logstartaddr == 0)
  {
    hide LaidOut, After, PackAll, Steps, AnyBlocks, Chosen, Leads, GroupMapped;
    PointersLead(slaves, g, group, slaves', g', oruns, oend, iruns, iend);
    var start, start' := if group == 0 then 0 else 8 * g'.logstartaddr, 8 * g'.logstartaddr;
    forall i | 0 <= i < |oruns|
      ensures Leads(slaves'[oruns[i].slave], Output, oruns[i].from, start') <==> start == start'
    {
      LeadsOnce(slaves'[oruns[i].slave], Output, oruns[i].from, start, start');
    }
    forall i | 0 <= i < |iruns|
      ensures Leads(slaves'[iruns[i].slave], Input, iruns[i].from, start') <==> start == start'
    {
      LeadsOnce(slaves'[iruns[i].slave], Input, iruns[i].from, start, start');
    }
  }

  lemma {:induction false} LeadsAt(s: Slave, mid: Slave, s': Slave, oruns: seq<Run>, iruns: seq<Run>, base: nat, k: nat)
    requires s.outputs == Null && s.inputs == Null
    requires forall i :: 0 <= i < |oruns| ==> base <= oruns[i].from / 8
    requires forall i :: 0 <= i < |iruns| ==> base <= iruns[i].from / 8
    requires forall i :: 0 <= i < |oruns| && oruns[i].slave == k ==>
               mid == Mapped(s, Output, oruns[i].fs, oruns[i].from, base)
    requires (forall i :: 0 <= i < |oruns| ==> oruns[i].slave != k) ==> mid == s
    requires forall i :: 0 <= i < |iruns| && iruns[i].slave == k ==>
               s' == Mapped(mid, Input, iruns[i].fs, iruns[i].from, base)
    requires (forall i :: 0 <= i < |iruns| ==> iruns[i].slave != k) ==> s' == mid
    ensures forall i :: 0 <= i < |oruns| && oruns[i].slave == k ==> Leads(s', Output, oruns[i].from, 8 * base)
    ensures forall i :: 0 <= i < |iruns| && iruns[i].slave == k ==> Leads(s', Input, iruns[i].from, 8 * base)
  {
    hide Mapping.Mapped;
    forall i | 0 <= i < |oruns| && oruns[i].slave == k
      ensures Leads(mid, Output, oruns[i].from, 8 * base) && mid.inputs == Null
    {
      MappedLeads(s, Output, oruns[i].fs, oruns[i].from, base);
      OtherKind(s, Output, Input, oruns[i].fs, oruns[i].from, base);
    }
    forall i | 0 <= i < |iruns| && iruns[i].slave == k
      ensures Leads(s', Input, iruns[i].from, 8 * base) && s'.outputs == mid.outputs && s'.Ostartbit == mid.Ostartbit
    {
      MappedLeads(mid, Input, iruns[i].fs, iruns[i].from, base);
      OtherKind(mid, Input, Output, iruns[i].fs, iruns[i].from, base);
    }
  }
}
