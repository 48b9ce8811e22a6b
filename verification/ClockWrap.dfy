/** The receive times are read from 32-bit registers: what a counter that wraps does to the delays. */
module ClockWrap {
  import opened SlaveTree
  import opened DistributedClock
  import opened PropagationDelay
  import Topology

  const HALF: int := 0x8000_0000
  const WHOLE: int := 0x1_0000_0000

  /** A time as a signed 32-bit register holds it. */
  function Int32(x: int): (r: int)
    ensures -HALF <= r < HALF
  {
    (x + HALF) % WHOLE - HALF
  }

  function Register(rt: PortTimes): PortTimes { PortTimes(Int32(rt.a), Int32(rt.b), Int32(rt.c), Int32(rt.d)) }

  function Registers(full: seq<PortTimes>): (regs: seq<PortTimes>)
    ensures |regs| == |full| && forall i :: 0 <= i < |full| ==> regs[i] == Register(full[i])
  {
    seq(|full|, i requires 0 <= i < |full| => Register(full[i]))
  }

  /** The slave as it is once its registers have been read. */
  function Latched(s: Slave, rt: PortTimes): Slave { s.(rt := Register(rt)) }

  /** The counter does not wrap between the first and the last time the frame passes the slave. */
  predicate Steady(s: Slave, rt: PortTimes) {
    forall q :: q in s.activeports ==> Int32(rt.a) + (PortTime(rt, q) - rt.a) < HALF
  }

  lemma {:induction false} WrapsOnce(t: int, d: int)
    requires 0 <= d < WHOLE
    ensures Int32(t + d) == if Int32(t) + d < HALF then Int32(t) + d else Int32(t) + d - WHOLE
  {
    var k, m := (t + HALF) / WHOLE, (t + HALF) % WHOLE;
    assert t + d + HALF == WHOLE * k + (m + d);
    if m + d < WHOLE {
      Remainder(k, m + d);
    } else {
      Remainder(k + 1, m + d - WHOLE);
    }
  }

  lemma {:induction false} Remainder(k: int, r: int)
    requires 0 <= r < WHOLE
    ensures (WHOLE * k + r) % WHOLE == r
  {
  }

  /** Port 0, where the frame came in, is taken for the entry port exactly when the counter does not wrap meanwhile. */
  lemma {:induction false} EntryIff(s: Slave, rt: PortTimes)
    requires 0 in s.activeports && s.activeports <= {0, 1, 2, 3}
    requires forall q :: q in s.activeports ==> 0 <= PortTime(rt, q) - rt.a < WHOLE
    ensures IsEntryPort(Latched(s, rt), 0) <==> Steady(s, rt)
    ensures Steady(s, rt) ==>
              forall q :: q in s.activeports ==> PortTime(Register(rt), q) - PortTime(rt, q) == Int32(rt.a) - rt.a
  {
    hide Int32;
    forall q | q in s.activeports
      ensures PortTime(Register(rt), q) == Int32(rt.a + (PortTime(rt, q) - rt.a))
      ensures var d := PortTime(rt, q) - rt.a;
              PortTime(Register(rt), q) ==
              if Int32(rt.a) + d < HALF then Int32(rt.a) + d else Int32(rt.a) + d - WHOLE
    {
      RegisterAt(rt, q);
      WrapsOnce(rt.a, PortTime(rt, q) - rt.a);
    }
    assert PortTime(Register(rt), 0) == Int32(rt.a);
  }

  lemma {:induction false} RegisterAt(rt: PortTimes, q: nat)
    requires q <= 3
    ensures PortTime(Register(rt), q) == Int32(PortTime(rt, q))
  {
    hide Int32;
  }

  // ----- how long the frame stays below a slave -----

  lemma {:induction false} Span(slaves: seq<Slave>, full: seq<PortTimes>, f: Forest, base: nat, t: int, k: nat)
    requires Reports(slaves, full, f, base, t) && k < ForestSize(f)
    ensures base + k < |slaves| <= |full|
    ensures var s, rt := slaves[base + k], full[base + k];
            && 0 in s.activeports && s.activeports <= {0, 1, 2, 3}
            && (s.hasdc ==> forall q :: q in s.activeports ==> 0 <= PortTime(rt, q) - rt.a <= RoundTrip(f))
    decreases f
  {
    var child, below := f.child, t + f.cable;
    if k == 0 {
      AtMostThree(child.kids, 0);
      if child.hasdc {
        ReturnsWithin(full[base], child.clock, child.kids, below, 0);
      }
    } else if k < Size(child) {
      Span(slaves, full, child.kids, base + 1, below, k - 1);
    } else {
      Span(slaves, full, f.more, base + Size(child), t + 2 * f.cable + RoundTrip(child.kids), k - Size(child));
    }
  }

  lemma {:induction false} ReturnsWithin(rt: PortTimes, clock: int, f: Forest, t: int, last: nat)
    requires Ordered(f, last) && Returns(rt, clock, f, t)
    ensures forall q :: q in Ports(f) ==> clock + t <= PortTime(rt, q) <= clock + t + RoundTrip(f)
    decreases f
  {
    if f.Branch? {
      ReturnsWithin(rt, clock, f.more, t + 2 * f.cable + RoundTrip(f.child.kids), f.port);
    }
  }

  // ----- the same network with its clocks set to the registers -----

  function Shift(full: seq<PortTimes>, i: nat): int { if i < |full| then Int32(full[i].a) - full[i].a else 0 }

  function Reclocked(f: Forest, full: seq<PortTimes>, base: nat): Forest {
    match f
    case Done => Done
    case Branch(port, cable, child, more) =>
      Branch(port, cable, Node(child.clock + Shift(full, base), child.hasdc, Reclocked(child.kids, full, base + 1)),
             Reclocked(more, full, base + Size(child)))
  }

  lemma {:induction false} ReclockedParts(f: Forest, full: seq<PortTimes>, base: nat)
    ensures Reclocked(f, full, base).Done? <==> f.Done?
    ensures f.Branch? ==>
              var f' := Reclocked(f, full, base);
              && f'.cable == f.cable && f'.child.hasdc == f.child.hasdc
              && f'.child.clock == f.child.clock + Shift(full, base) && f'.child.hasdc == f.child.hasdc
              && f'.child.kids == Reclocked(f.child.kids, full, base + 1)
              && f'.more == Reclocked(f.more, full, base + Size(f.child))
  {
  }

  lemma {:induction false} ShapeKept(f: Forest, full: seq<PortTimes>, base: nat)
    ensures var f' := Reclocked(f, full, base);
            ForestSize(f') == ForestSize(f) && Count(f') == Count(f) && Ports(f') == Ports(f) &&
            RoundTrip(f') == RoundTrip(f)
    decreases f
  {
    if f.Branch? {
      ShapeKept(f.child.kids, full, base + 1);
      ShapeKept(f.more, full, base + Size(f.child));
    }
  }

  lemma {:induction false} OrderKept(f: Forest, full: seq<PortTimes>, base: nat, last: nat)
    requires Ordered(f, last)
    ensures Ordered(Reclocked(f, full, base), last)
    decreases f
  {
    if f.Branch? {
      OrderKept(f.more, full, base + Size(f.child), f.port);
    }
  }

  lemma {:induction false} ArrivalsParts(f: Forest, t: int)
    ensures Arrivals(f, t) ==
            if f.Done? then []
            else [t + f.cable] + Arrivals(f.child.kids, t + f.cable) +
                 Arrivals(f.more, t + 2 * f.cable + RoundTrip(f.child.kids))
  {
  }

  lemma {:induction false} ArrivalsKept(f: Forest, full: seq<PortTimes>, base: nat, t: int)
    ensures Arrivals(Reclocked(f, full, base), t) == Arrivals(f, t)
    decreases f
  {
    hide Arrivals, RoundTrip, Reclocked;
    ReclockedParts(f, full, base);
    ArrivalsParts(f, t);
    ArrivalsParts(Reclocked(f, full, base), t);
    if f.Branch? {
      ShapeKept(f.child.kids, full, base + 1);
      ArrivalsKept(f.child.kids, full, base + 1, t + f.cable);
      ArrivalsKept(f.more, full, base + Size(f.child), t + 2 * f.cable + RoundTrip(f.child.kids));
    }
  }

  lemma {:induction false} ReturnsKept(rt: PortTimes, clock: int, f: Forest, t: int, rt': PortTimes, clock': int,
                                       full: seq<PortTimes>, base: nat)
    requires Returns(rt, clock, f, t)
    requires forall q :: q in Ports(f) ==> PortTime(rt', q) - PortTime(rt, q) == clock' - clock
    ensures Returns(rt', clock', Reclocked(f, full, base), t)
    decreases f
  {
    if f.Branch? {
      ShapeKept(f.child.kids, full, base + 1);
      ReturnsKept(rt, clock, f.more, t + 2 * f.cable + RoundTrip(f.child.kids), rt', clock', full,
                  base + Size(f.child));
    }
  }

  lemma {:induction false} StraightKept(f: Forest, full: seq<PortTimes>, base: nat)
    requires Straight(f)
    ensures Straight(Reclocked(f, full, base))
    decreases f
  {
    if f.Branch? {
      ShapeKept(f.child.kids, full, base + 1);
      StraightKept(f.child.kids, full, base + 1);
      StraightKept(f.more, full, base + Size(f.child));
    }
  }

  /** No counter of a slave with a clock wraps while the frame is below it. */
  predicate AllSteady(slaves: seq<Slave>, full: seq<PortTimes>, from: nat, to: nat) {
    to <= |slaves| <= |full| && forall k :: from <= k < to && slaves[k].hasdc ==> Steady(slaves[k], full[k])
  }

  lemma {:induction false} Sizes(f: Forest)
    requires f.Branch?
    ensures ForestSize(f) == Size(f.child) + ForestSize(f.more)
    ensures RoundTrip(f) == 2 * f.cable + RoundTrip(f.child.kids) + RoundTrip(f.more)
  {
  }

  lemma {:induction false} ReportsParts(slaves: seq<Slave>, regs: seq<PortTimes>, f: Forest, base: nat, t: int)
    requires f.Branch?
    ensures Reports(slaves, regs, f, base, t) <==>
            && base < |slaves| <= |regs| && NodeReports(slaves, regs, f.child, base, t + f.cable)
            && Reports(slaves, regs, f.child.kids, base + 1, t + f.cable)
            && Reports(slaves, regs, f.more, base + Size(f.child), t + 2 * f.cable + RoundTrip(f.child.kids))
  {
  }

  lemma {:induction false} NodeKept(slaves: seq<Slave>, full: seq<PortTimes>, c: Tree, i: nat, t: int)
    requires NodeReports(slaves, full, c, i, t) && RoundTrip(c.kids) < WHOLE
    requires slaves[i].hasdc ==> Steady(slaves[i], full[i])
    ensures var c' := Node(c.clock + Shift(full, i), c.hasdc, Reclocked(c.kids, full, i + 1));
            NodeReports(slaves, Registers(full), c', i, t)
  {
    hide Steady, Int32, IsEntryPort, Returns;
    var s, rt := slaves[i], full[i];
    ShapeKept(c.kids, full, i + 1);
    OrderKept(c.kids, full, i + 1, 0);
    if c.hasdc {
      AtMostThree(c.kids, 0);
      ReturnsWithin(rt, c.clock, c.kids, t, 0);
      EntryIff(s, rt);
      ReturnsKept(rt, c.clock, c.kids, t, Register(rt), c.clock + Shift(full, i), full, i + 1);
    }
  }

  lemma {:induction false} ReportsKept(slaves: seq<Slave>, full: seq<PortTimes>, f: Forest, base: nat, t: int)
    requires Reports(slaves, full, f, base, t) && RoundTrip(f) < WHOLE
    requires AllSteady(slaves, full, base, base + ForestSize(f))
    ensures Reports(slaves, Registers(full), Reclocked(f, full, base), base, t)
    decreases f
  {
    hide Steady, Int32, Reports, NodeReports, RoundTrip, ForestSize, Returns, Ordered, Ports, Count, Register;
    hide Reclocked;
    var f' := Reclocked(f, full, base);
    ReclockedParts(f, full, base);
    if f.Branch? {
      var child := f.child;
      Sizes(f);
      ReportsParts(slaves, full, f, base, t);
      NodeKept(slaves, full, child, base, t + f.cable);
      ShapeKept(child.kids, full, base + 1);
      ReportsKept(slaves, full, child.kids, base + 1, t + f.cable);
      ReportsKept(slaves, full, f.more, base + Size(child), t + 2 * f.cable + RoundTrip(child.kids));
      ReportsParts(slaves, Registers(full), f', base, t);
    } else {
      ReportsDone(slaves, Registers(full), base, t);
    }
  }

  lemma {:induction false} ReportsDone(slaves: seq<Slave>, regs: seq<PortTimes>, base: nat, t: int)
    ensures Reports(slaves, regs, Done, base, t)
  {
  }

  /** With registers of 32 bits, whatever the counters start from, the delays are the true travel times when port 0 is
      found as the entry port of every slave with a clock; that is, when no counter wraps before the frame has left
      its slave. */
  lemma {:induction false} WrappedDelays(root: Tree, slaves: seq<Slave>, groups: seq<Group>, full: seq<PortTimes>,
                                         r: nat)
    requires NetworkReports(slaves, full, root) && Straight(Branch(0, 0, root, Done)) && FirstClock(slaves, r)
    requires Topology.ParentsFound(slaves)
    requires |groups| >= 1 && forall i :: 1 <= i < |slaves| ==> slaves[i].group < |groups|
    requires RoundTrip(root.kids) < HALF // so that 32 bits hold every difference
    requires forall i :: 1 <= i < |slaves| && slaves[i].hasdc ==> IsEntryPort(Latched(slaves[i], full[i]), 0)
    ensures Numbered(slaves, groups) && ForestSize(Branch(0, 0, root, Done)) == |slaves| - 1
    ensures forall s :: 1 <= s < |slaves| && slaves[s].hasdc ==>
              Run(Initial(slaves, groups), Registers(full), 1, |slaves|).slaves[s].pdelay - slaves[r].pdelay
              == Arrivals(Branch(0, 0, root, Done), 0)[s - 1] - Arrivals(Branch(0, 0, root, Done), 0)[r - 1]
  {
    hide IsEntryPort, Steady, Run, Reports, Int32, Straight;
    var f := Branch(0, 0, root, Done);
    Sizes(f);
    assert RoundTrip(Done) == 0;
    forall i | 1 <= i < |slaves| && slaves[i].hasdc ensures Steady(slaves[i], full[i]) {
      Span(slaves, full, f, 1, 0, i - 1);
      EntryIff(slaves[i], full[i]);
    }
    ReportsKept(slaves, full, f, 1, 0);
    ShapeKept(f, full, 1);
    StraightKept(f, full, 1);
    ArrivalsKept(f, full, 1, 0);
    ReclockedParts(f, full, 1);
    assert Reclocked(Done, full, 1 + Size(root)) == Done;
    ScannedDelays(Reclocked(f, full, 1).child, slaves, groups, Registers(full), r);
  }
}
