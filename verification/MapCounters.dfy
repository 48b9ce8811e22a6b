/** The working counter of a cycle over a sequential map: the same with LRW and with LRD and LWR. */
module MapCounters {
  import opened Mapping
  import opened Segments
  import opened MapGroup
  import opened MapLayout
  import PD = ProcessData
  import L = LogicalExchange
  import W = WorkCounter

  /** The bytes that hold the bits of a run. */
  function Lo(r: Run): nat { r.from / 8 }

  function Hi(r: Run): nat { AlignUp(r.to) / 8 }

  function RunsOf(kind: Kind, oruns: seq<Run>, iruns: seq<Run>): seq<Run> { if kind.Output? then oruns else iruns }

  /** The window is empty, or that of a run. */
  ghost predicate WindowOf(runs: seq<Run>, lo: nat, hi: nat) {
    lo == hi || exists i :: 0 <= i < |runs| && lo == Lo(runs[i]) && hi == Hi(runs[i])
  }

  /** The windows in which slaves count are those the mapping gave them. */
  ghost predicate FromMapping(ws: seq<W.Windows>, oruns: seq<Run>, iruns: seq<Run>) {
    forall w :: w in ws ==> WindowOf(oruns, w.outLo, w.outHi) && WindowOf(iruns, w.inLo, w.inHi)
  }

  /** Such a window lies in the area of its kind. */
  lemma {:induction false} WindowPlaced(slaves: seq<Slave>, g: PD.Group, group: nat, slaves': seq<Slave>,
                                        g': PD.Group, oruns: seq<Run>, oend: nat, iruns: seq<Run>, iend: nat,
                                        kind: Kind, lo: nat, hi: nat)
    requires AllSized(slaves) && |g.IOsegment| == EC_MAXIOSEGMENTS
    requires GroupMapped(slaves, g, group, slaves', g', oruns, oend, iruns, iend)
    requires WindowOf(RunsOf(kind, oruns, iruns), lo, hi)
    ensures var from, to := g'.logstartaddr, g'.logstartaddr + g'.Obytes;
            lo == hi || if kind.Output? then from <= lo < hi <= to else to <= lo < hi <= to + g'.Ibytes
  {
    hide GroupMapped;
    if lo != hi {
      var runs := RunsOf(kind, oruns, iruns);
      var i :| 0 <= i < |runs| && lo == Lo(runs[i]) && hi == Hi(runs[i]);
      MapIsPacked(slaves, g, group, slaves', g', oruns, oend, iruns, iend);
      InArea(runs[i], if kind.Output? then g'.logstartaddr else g'.logstartaddr + g'.Obytes,
             g'.logstartaddr + g'.Obytes + if kind.Output? then 0 else g'.Ibytes);
    }
  }

  lemma {:induction false} InArea(r: Run, from: nat, to: nat)
    requires 8 * from <= r.from <= r.to <= 8 * to
    ensures from <= Lo(r) && Hi(r) <= to && Lo(r) <= Hi(r)
  {
  }

  lemma {:induction false} Exchanged(g: PD.Group)
    requires L.Mapped(g, false)
    ensures PD.Segmented(g)
  {
  }

  /** Whatever the slaves of a map are, a cycle over it gives the same result with LRW as with LRD and LWR. */
  lemma {:induction false} MappedCounters(slaves: seq<Slave>, g: PD.Group, group: nat, slaves': seq<Slave>,
                                          g': PD.Group, oruns: seq<Run>, oend: nat, iruns: seq<Run>, iend: nat,
                                          bus: L.Bus, ws: seq<W.Windows>)
    requires AllSized(slaves) && |g.IOsegment| == EC_MAXIOSEGMENTS
    requires GroupMapped(slaves, g, group, slaves', g', oruns, oend, iruns, iend) && L.Mapped(g', false)
    requires PD.CycleLength(g', false) > 0 && g'.blockLRW
    requires W.Counts(bus, ws) && FromMapping(ws, oruns, iruns)
    ensures var blocked, free := PD.Plan(g', false), PD.Plan(g'.(blockLRW := false), false);
            L.Counters(bus, blocked, L.AllGot(|blocked|)) == L.Counters(bus, free, L.AllGot(|free|))
  {
    hide GroupMapped, L.Mapped, WindowOf, W.Counts, PD.Plan;
    Exchanged(g');
    forall w | w in ws ensures W.Placed(g', w) {
      WindowPlaced(slaves, g, group, slaves', g', oruns, oend, iruns, iend, Output, w.outLo, w.outHi);
      WindowPlaced(slaves, g, group, slaves', g', oruns, oend, iruns, iend, Input, w.inLo, w.inHi);
    }
    W.SameCounters(g', bus, ws);
  }
}
