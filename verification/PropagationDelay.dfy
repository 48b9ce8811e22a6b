/** The delays ecx_configdc derives are the true travel times of the frame.

    A frame leaves a slave through its branches in port order 3 - 1 - 2 and comes back by the same
    port before it takes the next branch; a cable takes equally long both ways.  Every slave with a
    clock latches it when the frame enters and whenever the frame comes back on a port.  Registers
    hold full local times here; those of 32 bits are the matter of ClockWrap. */
module PropagationDelay {
  import opened SlaveTree
  import opened DistributedClock
  import Topology

  // ----- the physics -----

  /** The time a frame needs to visit all branches and come back. */
  function RoundTrip(f: Forest): nat {
    match f
    case Done => 0
    case Branch(_, cable, child, more) => 2 * cable + RoundTrip(child.kids) + RoundTrip(more)
  }

  /** When the frame reaches each slave of a forest, if it leaves for the first branch at time t. */
  function Arrivals(f: Forest, t: int): (times: seq<int>)
    ensures |times| == ForestSize(f)
  {
    match f
    case Done => []
    case Branch(_, cable, child, more) =>
      [t + cable] + Arrivals(child.kids, t + cable) + Arrivals(more, t + 2 * cable + RoundTrip(child.kids))
  }

  function Ports(f: Forest): set<nat> {
    match f
    case Done => {}
    case Branch(port, _, _, more) => {port} + Ports(more)
  }

  /** The branches are on ports of their own, in the order 3 - 1 - 2, after port `last`. */
  predicate Ordered(f: Forest, last: nat) {
    match f
    case Done => true
    case Branch(port, _, _, more) => 1 <= port <= 3 && Rank(port) > Rank(last) && Ordered(more, port)
  }

  /** The times latched by a slave whose clock is `clock` ahead, as the frame comes back from its branches. */
  predicate Returns(rt: PortTimes, clock: int, f: Forest, t: int) {
    match f
    case Done => true
    case Branch(port, cable, child, more) =>
      var back := t + 2 * cable + RoundTrip(child.kids);
      PortTime(rt, port) == clock + back && Returns(rt, clock, more, back)
  }

  /** What a slave at place i reports that the frame reaches at time t; the ports that are not active latch
      anything, and so does a slave without a clock. */
  predicate NodeReports(slaves: seq<Slave>, regs: seq<PortTimes>, c: Tree, i: nat, t: int) {
    && i < |slaves| <= |regs|
    && slaves[i].hasdc == c.hasdc
    && slaves[i].topology == 1 + Count(c.kids)
    && slaves[i].activeports == {0} + Ports(c.kids)
    && Ordered(c.kids, 0)
    && (c.hasdc ==> PortTime(regs[i], 0) == c.clock + t && Returns(regs[i], c.clock, c.kids, t))
  }

  /** What the slaves of a forest report when the frame leaves for its first branch at time t. */
  predicate Reports(slaves: seq<Slave>, regs: seq<PortTimes>, f: Forest, base: nat, t: int)
    decreases f
  {
    match f
    case Done => true
    case Branch(_, cable, child, more) =>
      && NodeReports(slaves, regs, child, base, t + cable)
      && Reports(slaves, regs, child.kids, base + 1, t + cable)
      && Reports(slaves, regs, more, base + Size(child), t + 2 * cable + RoundTrip(child.kids))
  }

  /** Every slave of the forest has its tree parent in the slave list. */
  predicate Hung(slaves: seq<Slave>, f: Forest, base: nat, par: nat)
    decreases f
  {
    match f
    case Done => true
    case Branch(_, _, child, more) =>
      && base < |slaves| && slaves[base].parent == par
      && Hung(slaves, child.kids, base + 1, base)
      && Hung(slaves, more, base + Size(child), par)
  }

  /** Behind a slave without a clock there is at most one branch. */
  predicate Straight(f: Forest) {
    match f
    case Done => true
    case Branch(_, _, child, more) => (child.hasdc || Count(child.kids) <= 1) && Straight(child.kids) && Straight(more)
  }

  // ----- one slave -----

  /** The port the frame last came back on. */
  lemma {:induction false} LastReturn(rt: PortTimes, clock: int, f: Forest, t: int, last: nat) returns (port: nat)
    requires f.Branch? && Ordered(f, last) && Returns(rt, clock, f, t)
    ensures port in Ports(f) && 1 <= port <= 3
    ensures forall q :: q in Ports(f) ==> 1 <= q <= 3 && Rank(q) <= Rank(port)
    ensures PortTime(rt, port) == clock + t + RoundTrip(f)
    decreases f
  {
    port := f.port;
    if f.more.Branch? {
      port := LastReturn(rt, clock, f.more, t + 2 * f.cable + RoundTrip(f.child.kids), f.port);
    }
  }

  /** Later ports latch later times and come later in the order. */
  lemma {:induction false} ReturnsLater(rt: PortTimes, clock: int, f: Forest, t: int, last: nat)
    requires Ordered(f, last) && Returns(rt, clock, f, t)
    ensures forall q :: q in Ports(f) ==> 1 <= q <= 3 && Rank(q) > Rank(last) && PortTime(rt, q) >= clock + t
    decreases f
  {
    if f.Branch? {
      ReturnsLater(rt, clock, f.more, t + 2 * f.cable + RoundTrip(f.child.kids), f.port);
    }
  }

  /** The state of slave `par` when the branches f are still to be handled: their ports are
      unconsumed, the frame last came back on port `last`, at time t, and came in at time `came`. */
  predicate Waiting(p: Slave, f: Forest, clock: int, came: int, t: int, last: nat) {
    && (f.Branch? ==> p.consumedports == Ports(f)) && p.entryport == 0
    && Ordered(f, last) && Returns(p.rt, clock, f, t)
    && p.activeports >= {0, last} + Ports(f)
    && (forall q :: q in p.activeports && q !in Ports(f) ==> q <= 3 && Rank(q) <= Rank(last))
    && last <= 3
    && PortTime(p.rt, 0) == clock + came && PortTime(p.rt, last) == clock + t
    && came <= t && Count(f) < p.topology
  }

  lemma {:induction false} BranchPort(p: Slave, f: Forest, clock: int, came: int, t: int, last: nat)
    requires f.Branch? && Waiting(p, f, clock, came, t, last)
    ensures FirstOpen(p.consumedports) == f.port
    ensures PrevPort(p.activeports, f.port) == last
    ensures Waiting(p.(consumedports := p.consumedports - {f.port}), f.more, clock, came,
                    t + 2 * f.cable + RoundTrip(f.child.kids), f.port)
  {
    var back := t + 2 * f.cable + RoundTrip(f.child.kids);
    ReturnsLater(p.rt, clock, f.more, back, f.port);
    ReturnsLater(p.rt, clock, f, t, last);
    assert Ports(f) - {f.port} == Ports(f.more);
  }

  /** Everything but the link to the next slave with a clock. */
  function Unlinked(s: Slave): Slave {
    s.(dcnext := 0)
  }

  /** A slave that reports as below has entry port 0, and unconsumed ports for its own branches. */
  lemma {:induction false} OwnPorts(s: Slave, clock: int, kids: Forest, t: int)
    requires s.activeports == {0} + Ports(kids) && Ordered(kids, 0)
    requires PortTime(s.rt, 0) == clock + t && Returns(s.rt, clock, kids, t)
    requires s.topology == 1 + Count(kids)
    ensures EntryPort(s) == 0
    ensures Waiting(s.(entryport := 0, consumedports := s.activeports - {0}), kids, clock, t, t, 0)
    ensures s.topology > 1 ==> PortTime(s.rt, PrevPort(s.activeports, 0)) == clock + t + RoundTrip(kids)
    ensures s.topology <= 1 ==> RoundTrip(kids) == 0
  {
    ReturnsLater(s.rt, clock, kids, t, 0);
    assert s.activeports - {0} == Ports(kids);
    assert IsEntryPort(s, 0);
    EntryPortUnique(s, 0, EntryPort(s));
    if kids.Branch? {
      var port := LastReturn(s.rt, clock, kids, t, 0);
      assert PrevPort(s.activeports, 0) == port;
    }
  }

  lemma {:induction false} EnlistLinks(st: State, i: nat)
    requires Ready(st) && 1 <= i < |st.slaves| && st.slaves[i].hasdc
    ensures forall k :: 1 <= k < |st.slaves| && k != i ==>
              Unlinked(Enlist(st, i).slaves[k]) == Unlinked(st.slaves[k])
    ensures Unlinked(Enlist(st, i).slaves[i])
            == Unlinked(st.slaves[i].(dcprevious := Enlist(st, i).slaves[i].dcprevious))
  {
  }

  // ----- slaves without a clock on the way to one with a clock -----

  /** Slaves via .. i-1 have no clock, and slave i hangs from slave `par` by way of them. */
  ghost predicate Relayed(slaves: seq<Slave>, par: nat, via: nat, i: nat) {
    && par < via <= i < |slaves|
    && (forall k :: via <= k < i ==> !slaves[k].hasdc && slaves[k].topology == 2)
    && forall k :: via <= k <= i ==> slaves[k].parent == if k == via then par else k - 1
  }

  lemma {:induction false} RelayedParent(slaves: seq<Slave>, par: nat, via: nat, i: nat)
    requires Relayed(slaves, par, via, i) && (par == 0 || slaves[par].hasdc)
    requires forall k :: 1 <= k < |slaves| ==> slaves[k].parent < k
    ensures DcParent(slaves, i) == (via, par)
    decreases i
  {
    if i > via {
      RelayedParent(slaves, par, via, i - 1);
      assert DcParent(slaves, i) == DcParent(slaves, i - 1);
    }
  }

  lemma {:induction false} RelayedKept(slaves: seq<Slave>, slaves': seq<Slave>, par: nat, via: nat, i: nat)
    requires Relayed(slaves, par, via, i) && SameCabling(slaves, slaves')
    ensures Relayed(slaves', par, via, i)
  {
    assert forall k :: via <= k <= i ==> SameCable(slaves[k], slaves'[k]);
  }

  /** The delay of a slave behind a branch of a waiting parent is the parent's plus the travel time w between them. */
  lemma {:induction false} MeasureBranch(slaves: seq<Slave>, f: Forest, i: nat, par: nat, via: nat, clock: int,
                                         came: int, t: int, last: nat, w: nat, inner: nat)
    requires 1 <= par < via <= i < |slaves| && f.Branch?
    requires forall k :: 1 <= k < |slaves| ==> slaves[k].parent < k
    requires slaves[par].hasdc && DcParent(slaves, i) == (via, par) && slaves[i].entryport == 0
    requires Waiting(slaves[par], f, clock, came, t, last)
    requires via == par + 1 ==> t == came
    requires 2 * w + inner == 2 * f.cable + RoundTrip(f.child.kids)
    requires var s := slaves[i];
             if s.topology > 1 then PortTime(s.rt, PrevPort(s.activeports, 0)) - PortTime(s.rt, 0) == inner
             else inner == 0
    ensures var slaves' := Measure(slaves, i);
            && slaves'[i] == slaves[i].(parentport := f.port, pdelay := slaves[par].pdelay + t + w - came)
            && slaves'[par] == slaves[par].(consumedports := slaves[par].consumedports - {f.port})
            && forall k :: 0 <= k < |slaves| && k != i && k != par ==> slaves'[k] == slaves[k]
  {
    BranchPort(slaves[par], f, clock, came, t, last);
    var attached := Consume(slaves, par)[i := slaves[i].(parentport := f.port)];
    assert PortTime(attached[par].rt, f.port) == clock + t + 2 * f.cable + RoundTrip(f.child.kids);
    assert Delay(attached, i, via, par) == slaves[par].pdelay + t + w - came;
  }

  /** Handling the slave with a clock behind a branch leaves it and its parent ready for the branches that
      follow. */
  lemma {:induction false} ClockHandled(st: State, regs: seq<PortTimes>, f: Forest, c: Tree, i: nat, par: nat,
                                        via: nat, clock: int, came: int, t: int, last: nat, w: nat) returns (st': State)
    requires Ready(st) && |st.slaves| == |regs| && 1 <= par < via <= i < |regs|
    requires f.Branch? && st.slaves[par].hasdc && c.hasdc && Relayed(st.slaves, par, via, i)
    requires NodeReports(st.slaves, regs, c, i, t + w)
    requires Waiting(st.slaves[par], f, clock, came, t, last)
    requires via == par + 1 ==> t == came
    requires 2 * w + RoundTrip(c.kids) == 2 * f.cable + RoundTrip(f.child.kids)
    ensures Ready(st') && st' == Step(st, i, regs[i]) && st'.hold == 0
    ensures Waiting(st'.slaves[par], f.more, clock, came, t + 2 * f.cable + RoundTrip(f.child.kids), f.port)
    ensures Waiting(st'.slaves[i], c.kids, c.clock, t + w, t + w, 0)
    ensures st'.slaves[par].pdelay == st.slaves[par].pdelay
    ensures st'.slaves[i].pdelay == st.slaves[par].pdelay + t + w - came
    ensures forall k :: 1 <= k < i && k != par ==> Unlinked(st'.slaves[k]) == Unlinked(st.slaves[k])
  {
    var st1 := Enlist(st, i);
    EnlistLinks(st, i);
    var s := st1.slaves[i].(rt := regs[i]);
    OwnPorts(s, c.clock, c.kids, t + w);
    var s' := s.(entryport := 0, consumedports := s.activeports - {0});
    var slaves := st1.slaves[i := s'];
    assert SameCabling(st.slaves, slaves);
    RelayedKept(st.slaves, slaves, par, via, i);
    RelayedParent(slaves, par, via, i);
    assert Unlinked(slaves[par]) == Unlinked(st.slaves[par]);
    assert Waiting(slaves[par], f, clock, came, t, last);
    MeasureBranch(slaves, f, i, par, via, clock, came, t, last, w, RoundTrip(c.kids));
    BranchPort(slaves[par], f, clock, came, t, last);
    st' := st1.(slaves := Measure(slaves, i));
    assert st' == ClockStep(st, i, regs[i]);
  }

  /** The port that waits to be used up by a branch without clocks. */
  function Held(slaves: seq<Slave>, par: nat): nat
    requires par < |slaves|
  {
    if slaves[par].topology > 2 then par else 0
  }

  /** A slave without a clock on the way: nothing happens but that the port of the parent is held. */
  lemma {:induction false} RelayHandled(st: State, regs: seq<PortTimes>, c: Tree, i: nat, par: nat, via: nat)
    returns (st': State)
    requires Ready(st) && |st.slaves| == |regs| && 1 <= par < via <= i < |regs|
    requires !c.hasdc && Count(c.kids) == 1 && Relayed(st.slaves, par, via, i)
    requires NodeReports(st.slaves, regs, c, i, 0)
    requires st.hold == if i == via then 0 else Held(st.slaves, par)
    ensures Ready(st') && st' == Step(st, i, regs[i]) && st'.hold == Held(st.slaves, par)
    ensures forall k :: 1 <= k < |regs| && k != i ==> st'.slaves[k] == st.slaves[k]
  {
    st' := Step(st, i, regs[i]);
    if i > via {
      assert st.slaves[i - 1].topology == 2;
    }
  }

  /** The end of a branch without clocks uses up the port of the parent, unless it was the only one. */
  lemma {:induction false} EndHandled(st: State, regs: seq<PortTimes>, f: Forest, c: Tree, i: nat, par: nat, via: nat,
                                      clock: int, came: int, t: int, last: nat) returns (st': State)
    requires Ready(st) && |st.slaves| == |regs| && 1 <= par < via <= i < |regs| && f.Branch?
    requires !c.hasdc && Count(c.kids) == 0 && Relayed(st.slaves, par, via, i)
    requires NodeReports(st.slaves, regs, c, i, 0)
    requires Waiting(st.slaves[par], f, clock, came, t, last)
    requires st.hold == if i == via then 0 else Held(st.slaves, par)
    ensures Ready(st') && st' == Step(st, i, regs[i]) && st'.hold == 0
    ensures Waiting(st'.slaves[par], f.more, clock, came, t + 2 * f.cable + RoundTrip(f.child.kids), f.port)
    ensures st'.slaves[par].pdelay == st.slaves[par].pdelay
    ensures forall k :: 1 <= k < i && k != par ==> st'.slaves[k] == st.slaves[k]
  {
    st' := Step(st, i, regs[i]);
    BranchPort(st.slaves[par], f, clock, came, t, last);
    if i > via {
      assert st.slaves[i - 1].topology == 2;
    }
    if st.slaves[par].topology > 2 {
      assert st'.slaves[par] == st.slaves[par].(consumedports := st.slaves[par].consumedports - {f.port});
    } else {
      assert f.more.Done?;
      assert st'.slaves[par] == st.slaves[par];
    }
  }

  /** Reports and links are facts about fields the configuration does not touch. */
  lemma {:induction false} CablingKept(slaves: seq<Slave>, slaves': seq<Slave>, regs: seq<PortTimes>, f: Forest,
                                       base: nat, par: nat, t: int)
    requires 1 <= base && SameCabling(slaves, slaves')
    requires Reports(slaves, regs, f, base, t) && Hung(slaves, f, base, par)
    ensures Reports(slaves', regs, f, base, t) && Hung(slaves', f, base, par)
    decreases f
  {
    if f.Branch? {
      assert SameCable(slaves[base], slaves'[base]);
      CablingKept(slaves, slaves', regs, f.child.kids, base + 1, base, t + f.cable);
      CablingKept(slaves, slaves', regs, f.more, base + Size(f.child), par,
                  t + 2 * f.cable + RoundTrip(f.child.kids));
    }
  }

  /** Every slave with a clock of the forest has as delay its arrival time plus `offset`. */
  predicate OnTime(slaves: seq<Slave>, f: Forest, base: nat, t: int, offset: int)
    decreases f
  {
    match f
    case Done => true
    case Branch(_, cable, child, more) =>
      && base < |slaves| && (child.hasdc ==> slaves[base].pdelay == t + cable + offset)
      && OnTime(slaves, child.kids, base + 1, t + cable, offset)
      && OnTime(slaves, more, base + Size(child), t + 2 * cable + RoundTrip(child.kids), offset)
  }

  /** The slaves before hi other than `par` are as they were, up to the list links. */
  ghost predicate Settled(slaves: seq<Slave>, slaves': seq<Slave>, hi: nat, par: nat) {
    && hi <= |slaves| == |slaves'|
    && forall k :: 1 <= k < hi && k != par ==> Unlinked(slaves'[k]) == Unlinked(slaves[k])
  }

  lemma {:induction false} OnTimeKept(slaves: seq<Slave>, slaves': seq<Slave>, f: Forest, base: nat, t: int,
                                      offset: int, hi: nat, par: nat)
    requires 1 <= base && base + ForestSize(f) <= hi && par < base
    requires Settled(slaves, slaves', hi, par) && OnTime(slaves, f, base, t, offset)
    ensures OnTime(slaves', f, base, t, offset)
    decreases f
  {
    if f.Branch? {
      assert Unlinked(slaves'[base]) == Unlinked(slaves[base]);
      OnTimeKept(slaves, slaves', f.child.kids, base + 1, t + f.cable, offset, hi, par);
      OnTimeKept(slaves, slaves', f.more, base + Size(f.child), t + 2 * f.cable + RoundTrip(f.child.kids),
                 offset, hi, par);
    }
  }

  lemma {:induction false} SettledOn(slaves: seq<Slave>, mid: seq<Slave>, slaves': seq<Slave>, lo: nat, hi: nat,
                                     par: nat, q: nat)
    requires lo <= hi && (q == par || q >= lo)
    requires Settled(slaves, mid, lo, par) && Settled(mid, slaves', hi, q)
    ensures Settled(slaves, slaves', lo, par)
  {
    forall k | 1 <= k < lo && k != par
      ensures Unlinked(slaves'[k]) == Unlinked(slaves[k])
    {
      assert Unlinked(slaves'[k]) == Unlinked(mid[k]);
    }
  }

  lemma {:induction false} SameCablingOn(slaves: seq<Slave>, mid: seq<Slave>, slaves': seq<Slave>)
    requires SameCabling(slaves, mid) && SameCabling(mid, slaves')
    ensures SameCabling(slaves, slaves')
  {
    forall k | 1 <= k < |slaves|
      ensures SameCable(slaves[k], slaves'[k])
    {
      assert SameCable(slaves[k], mid[k]) && SameCable(mid[k], slaves'[k]);
    }
  }

  lemma {:induction false} WaitingKept(p: Slave, p': Slave, f: Forest, clock: int, came: int, t: int, last: nat)
    requires Unlinked(p) == Unlinked(p') && Waiting(p, f, clock, came, t, last)
    ensures Waiting(p', f, clock, came, t, last)
  {
    assert p.activeports == Unlinked(p).activeports && p.rt == Unlinked(p).rt;
  }

  /** The slaves of f from `base` on, below `par`, are the next to be handled, and the frame leaves
      `par` towards them at time t. */
  ghost predicate Next(st: State, regs: seq<PortTimes>, f: Forest, base: nat, par: nat, t: int) {
    && Ready(st) && |st.slaves| == |regs| && 1 <= par < base && base + ForestSize(f) <= |regs|
    && st.slaves[par].hasdc && st.hold == 0 && Straight(f)
    && Reports(st.slaves, regs, f, base, t) && Hung(st.slaves, f, base, par)
  }

  /** The same of one slave and what is behind it. */
  ghost predicate NextTree(st: State, regs: seq<PortTimes>, c: Tree, i: nat, t: int) {
    && Ready(st) && |st.slaves| == |regs| && 1 <= i && i + Size(c) <= |regs|
    && (c.hasdc || Count(c.kids) <= 1) && Straight(c.kids)
    && NodeReports(st.slaves, regs, c, i, t)
    && Reports(st.slaves, regs, c.kids, i + 1, t) && Hung(st.slaves, c.kids, i + 1, i)
  }

  lemma {:induction false} NextKept(st: State, st': State, regs: seq<PortTimes>, f: Forest, base: nat, par: nat, t: int)
    requires Next(st, regs, f, base, par, t) && Ready(st') && SameCabling(st.slaves, st'.slaves) && st'.hold == 0
    ensures Next(st', regs, f, base, par, t)
  {
    CablingKept(st.slaves, st'.slaves, regs, f, base, par, t);
    assert SameCable(st.slaves[par], st'.slaves[par]);
  }

  lemma {:induction false} TreeKept(st: State, st': State, regs: seq<PortTimes>, c: Tree, i: nat, t: int)
    requires NextTree(st, regs, c, i, t) && Ready(st') && SameCabling(st.slaves, st'.slaves)
    ensures NextTree(st', regs, c, i, t)
  {
    CablingKept(st.slaves, st'.slaves, regs, c.kids, i + 1, i, t);
    assert SameCable(st.slaves[i], st'.slaves[i]);
  }

  /** Behind a slave with a clock a forest is next. */
  lemma {:induction false} TreeNext(st: State, regs: seq<PortTimes>, c: Tree, i: nat, t: int)
    requires NextTree(st, regs, c, i, t) && c.hasdc && st.hold == 0
    ensures Next(st, regs, c.kids, i + 1, i, t)
  {
  }

  /** Behind one without, the one slave it has, or none. */
  lemma {:induction false} TreeRelays(st: State, regs: seq<PortTimes>, c: Tree, i: nat, t: int)
    requires NextTree(st, regs, c, i, t) && !c.hasdc && c.kids.Branch?
    ensures var k := c.kids;
            && Count(k) == 1 && k.more.Done? && Size(c) == 1 + Size(k.child)
            && RoundTrip(k) == 2 * k.cable + RoundTrip(k.child.kids)
            && NextTree(st, regs, k.child, i + 1, t + k.cable) && st.slaves[i + 1].parent == i
            && !st.slaves[i].hasdc && st.slaves[i].topology == 2
  {
    assert ForestSize(c.kids.more) == 0 && RoundTrip(c.kids.more) == 0;
  }

  lemma {:induction false} NextBranches(st: State, regs: seq<PortTimes>, f: Forest, base: nat, par: nat, t: int)
    requires Next(st, regs, f, base, par, t) && f.Branch?
    ensures NextTree(st, regs, f.child, base, t + f.cable) && Relayed(st.slaves, par, base, base)
    ensures Next(st, regs, f.more, base + Size(f.child), par, t + 2 * f.cable + RoundTrip(f.child.kids))
  {
  }

  /** Going on from slave i in state st ends where going on from slave j in state st' ends. */
  ghost predicate Meet(regs: seq<PortTimes>, st: State, i: nat, st': State, j: nat)
    requires Ready(st) && Ready(st') && |st.slaves| == |st'.slaves| == |regs|
    requires 1 <= i <= |regs| && 1 <= j <= |regs|
  {
    Run(st, regs, i, |regs|) == Run(st', regs, j, |regs|)
  }

  lemma {:induction false} MeetSelf(regs: seq<PortTimes>, st: State, i: nat)
    requires Ready(st) && |st.slaves| == |regs| && 1 <= i <= |regs|
    ensures Meet(regs, st, i, st, i)
  {
  }

  lemma {:induction false} MeetOn(regs: seq<PortTimes>, st: State, i: nat, mid: State, j: nat, st': State, k: nat)
    requires Ready(st) && Ready(mid) && Ready(st') && |st.slaves| == |mid.slaves| == |st'.slaves| == |regs|
    requires 1 <= i <= |regs| && 1 <= j <= |regs| && 1 <= k <= |regs|
    requires Meet(regs, st, i, mid, j) && Meet(regs, mid, j, st', k)
    ensures Meet(regs, st, i, st', k)
  {
  }

  lemma {:induction false} MeetStep(regs: seq<PortTimes>, st: State, i: nat)
    requires Ready(st) && |st.slaves| == |regs| && 1 <= i < |regs|
    ensures |Step(st, i, regs[i]).slaves| == |regs| && Meet(regs, st, i, Step(st, i, regs[i]), i + 1)
  {
    hide Step;
  }

  lemma {:induction false} NothingToHandle(st: State, regs: seq<PortTimes>, f: Forest, base: nat, par: nat, t: int,
                                           offset: int)
    requires Next(st, regs, f, base, par, t) && f.Done?
    ensures SameCabling(st.slaves, st.slaves) && Settled(st.slaves, st.slaves, base, par)
    ensures Meet(regs, st, base, st, base + ForestSize(f)) && OnTime(st.slaves, f, base, t, offset) && st.hold == 0
  {
    hide Reports, Hung, Meet;
    assert base + ForestSize(f) == base;
    MeetSelf(regs, st, base);
  }

  lemma {:induction false} OnTimeBranch(slaves: seq<Slave>, f: Forest, base: nat, t: int, offset: int)
    requires f.Branch? && base < |slaves| && (f.child.hasdc ==> slaves[base].pdelay == t + f.cable + offset)
    requires OnTime(slaves, f.child.kids, base + 1, t + f.cable, offset)
    requires OnTime(slaves, f.more, base + Size(f.child), t + 2 * f.cable + RoundTrip(f.child.kids), offset)
    ensures OnTime(slaves, f, base, t, offset)
  {
  }

  lemma {:induction false} OnTimeDone(slaves: seq<Slave>, base: nat, t: int, offset: int)
    ensures OnTime(slaves, Done, base, t, offset)
  {
  }

  /** A branch of `par` was handled, of which the slaves from i on belong to c. */
  ghost predicate BranchDone(st: State, st': State, regs: seq<PortTimes>, f: Forest, c: Tree, i: nat, par: nat,
                             clock: int, came: int, t: int, at: int, offset: int)
    requires f.Branch?
  {
    && Ready(st) && Ready(st') && |st.slaves| == |st'.slaves| == |regs| && st'.hold == 0
    && 1 <= par < i && i + Size(c) <= |regs|
    && SameCabling(st.slaves, st'.slaves) && Meet(regs, st, i, st', i + Size(c))
    && Waiting(st'.slaves[par], f.more, clock, came, t + 2 * f.cable + RoundTrip(f.child.kids), f.port)
    && st'.slaves[par].pdelay == st.slaves[par].pdelay && Settled(st.slaves, st'.slaves, i, par)
    && (c.hasdc ==> st'.slaves[i].pdelay == at + offset) && OnTime(st'.slaves, c.kids, i + 1, at, offset)
  }

  /** Handling the slaves of a branch from i on: those before it, from `via` on, have no clock. */
  lemma {:induction false} TreeDelays(st: State, regs: seq<PortTimes>, f: Forest, c: Tree, i: nat, par: nat, via: nat,
                                      clock: int, came: int, t: int, last: nat, w: nat, offset: int)
    returns (st': State)
    requires NextTree(st, regs, c, i, t + w) && f.Branch? && 1 <= par < via <= i
    requires Relayed(st.slaves, par, via, i) && st.slaves[par].hasdc
    requires Waiting(st.slaves[par], f, clock, came, t, last) && (via == par + 1 ==> t == came)
    requires 2 * w + RoundTrip(c.kids) == 2 * f.cable + RoundTrip(f.child.kids)
    requires st.hold == if i == via then 0 else Held(st.slaves, par)
    requires offset == st.slaves[par].pdelay - came
    ensures BranchDone(st, st', regs, f, c, i, par, clock, came, t, t + w, offset)
    decreases Size(c), 0
  {
    hide Waiting, Reports, Hung, Meet, OnTime, RoundTrip, Straight, Step;
    if c.hasdc {
      st' := ClockBranch(st, regs, f, c, i, par, via, clock, came, t, last, w, offset);
    } else if c.kids.Branch? {
      st' := RelayBranch(st, regs, f, c, i, par, via, clock, came, t, last, w, offset);
    } else {
      assert Size(c) == 1;
      st' := EndHandled(st, regs, f, c, i, par, via, clock, came, t, last);
      MeetStep(regs, st, i);
      OnTimeDone(st'.slaves, i + 1, t + w, offset);
    }
  }

  lemma {:induction false} ClockBranch(st: State, regs: seq<PortTimes>, f: Forest, c: Tree, i: nat, par: nat, via: nat,
                                       clock: int, came: int, t: int, last: nat, w: nat, offset: int)
    returns (st': State)
    requires NextTree(st, regs, c, i, t + w) && f.Branch? && 1 <= par < via <= i && c.hasdc
    requires Relayed(st.slaves, par, via, i) && st.slaves[par].hasdc
    requires Waiting(st.slaves[par], f, clock, came, t, last) && (via == par + 1 ==> t == came)
    requires 2 * w + RoundTrip(c.kids) == 2 * f.cable + RoundTrip(f.child.kids)
    requires offset == st.slaves[par].pdelay - came
    ensures BranchDone(st, st', regs, f, c, i, par, clock, came, t, t + w, offset)
    decreases ForestSize(c.kids), 2
  {
    hide Waiting, Reports, Hung, Meet, OnTime, RoundTrip, Straight, Step;
    var st1 := ClockHandled(st, regs, f, c, i, par, via, clock, came, t, last, w);
    MeetStep(regs, st, i);
    TreeKept(st, st1, regs, c, i, t + w);
    TreeNext(st1, regs, c, i, t + w);
    st' := ForestDelays(st1, regs, c.kids, i + 1, i, c.clock, t + w, t + w, 0, offset);
    assert Unlinked(st1.slaves[par]) == Unlinked(st'.slaves[par]);
    WaitingKept(st1.slaves[par], st'.slaves[par], f.more, clock, came, t + 2 * f.cable + RoundTrip(f.child.kids),
                f.port);
    SameCablingOn(st.slaves, st1.slaves, st'.slaves);
    SettledOn(st.slaves, st1.slaves, st'.slaves, i, i + 1, par, i);
    MeetOn(regs, st, i, st1, i + 1, st', i + Size(c));
  }

  lemma {:induction false} RelayBranch(st: State, regs: seq<PortTimes>, f: Forest, c: Tree, i: nat, par: nat, via: nat,
                                       clock: int, came: int, t: int, last: nat, w: nat, offset: int)
    returns (st': State)
    requires NextTree(st, regs, c, i, t + w) && f.Branch? && 1 <= par < via <= i && !c.hasdc && c.kids.Branch?
    requires Relayed(st.slaves, par, via, i) && st.slaves[par].hasdc
    requires Waiting(st.slaves[par], f, clock, came, t, last) && (via == par + 1 ==> t == came)
    requires 2 * w + RoundTrip(c.kids) == 2 * f.cable + RoundTrip(f.child.kids)
    requires st.hold == if i == via then 0 else Held(st.slaves, par)
    requires offset == st.slaves[par].pdelay - came
    ensures BranchDone(st, st', regs, f, c, i, par, clock, came, t, t + w, offset)
    decreases ForestSize(c.kids), 2
  {
    hide Waiting, Reports, Hung, Meet, OnTime, RoundTrip, Straight, Step;
    var k := c.kids;
    TreeRelays(st, regs, c, i, t + w);
    var st1 := RelayHandled(st, regs, c, i, par, via);
    MeetStep(regs, st, i);
    TreeKept(st, st1, regs, c, i, t + w);
    TreeRelays(st1, regs, c, i, t + w);
    RelayedKept(st.slaves, st1.slaves, par, via, i);
    st' := TreeDelays(st1, regs, f, k.child, i + 1, par, via, clock, came, t, last, w + k.cable, offset);
    SameCablingOn(st.slaves, st1.slaves, st'.slaves);
    MeetOn(regs, st, i, st1, i + 1, st', i + Size(c));
    OnTimeDone(st'.slaves, i + 1 + Size(k.child), t + w + 2 * k.cable + RoundTrip(k.child.kids), offset);
    OnTimeBranch(st'.slaves, k, i + 1, t + w, offset);
  }

  /** Handling all slaves of a forest that waits below `par`. */
  lemma {:induction false} ForestDelays(st: State, regs: seq<PortTimes>, f: Forest, base: nat, par: nat, clock: int,
                                        came: int, t: int, last: nat, offset: int) returns (st': State)
    requires Next(st, regs, f, base, par, t)
    requires Waiting(st.slaves[par], f, clock, came, t, last) && (base == par + 1 ==> t == came)
    requires offset == st.slaves[par].pdelay - came
    ensures Ready(st') && SameCabling(st.slaves, st'.slaves) && Meet(regs, st, base, st', base + ForestSize(f))
    ensures OnTime(st'.slaves, f, base, t, offset) && st'.hold == 0
    ensures Settled(st.slaves, st'.slaves, base, par) && st'.slaves[par].pdelay == st.slaves[par].pdelay
    decreases ForestSize(f), 1
  {
    hide Waiting, Reports, Hung, Meet, OnTime;
    if f.Done? {
      st' := st;
      NothingToHandle(st, regs, f, base, par, t, offset);
    } else {
      var mid, end, back := base + Size(f.child), base + ForestSize(f), t + 2 * f.cable + RoundTrip(f.child.kids);
      assert end == mid + ForestSize(f.more);
      NextBranches(st, regs, f, base, par, t);
      var st1 := TreeDelays(st, regs, f, f.child, base, par, base, clock, came, t, last, f.cable, offset);
      NextKept(st, st1, regs, f, base, par, t);
      NextBranches(st1, regs, f, base, par, t);
      st' := ForestDelays(st1, regs, f.more, mid, par, clock, came, back, f.port, offset);
      OnTimeKept(st1.slaves, st'.slaves, f.child.kids, base + 1, t + f.cable, offset, mid, par);
      SameCablingOn(st.slaves, st1.slaves, st'.slaves);
      SettledOn(st.slaves, st1.slaves, st'.slaves, base, mid, par, par);
      MeetOn(regs, st, base, st1, mid, st', end);
      assert f.child.hasdc ==> st'.slaves[base].pdelay == t + f.cable + offset by {
        assert Unlinked(st'.slaves[base]) == Unlinked(st1.slaves[base]);
      }
      OnTimeBranch(st'.slaves, f, base, t, offset);
    }
  }

  // ----- the whole network -----

  /** What a whole network reports: slave 1 is reached at time 0. */
  predicate NetworkReports(slaves: seq<Slave>, regs: seq<PortTimes>, root: Tree) {
    && |slaves| == |regs| == 1 + Size(root)
    && Reports(slaves, regs, Branch(0, 0, root, Done), 1, 0)
  }

  /** The first slave with a clock has no parent with one and keeps its delay. */
  lemma {:induction false} FirstHandled(st: State, regs: seq<PortTimes>, c: Tree, i: nat, t: nat) returns (st': State)
    requires NextTree(st, regs, c, i, t) && c.hasdc && Relayed(st.slaves, 0, 1, i) && !st.slaves[0].hasdc
    ensures Ready(st') && st' == Step(st, i, regs[i]) && SameCabling(st.slaves, st'.slaves) && st'.hold == 0
    ensures Waiting(st'.slaves[i], c.kids, c.clock, t, t, 0)
    ensures st'.slaves[i].pdelay == st.slaves[i].pdelay
  {
    st' := Step(st, i, regs[i]);
    OwnPorts(st.slaves[i].(rt := regs[i], dcprevious := 0), c.clock, c.kids, t);
    var slaves := Enlist(st, i).slaves;
    RelayedKept(st.slaves, slaves, 0, 1, i);
    RelayedParent(slaves, 0, 1, i);
    var s := slaves[i].(rt := regs[i]);
    var slaves' := slaves[i := s.(entryport := EntryPort(s), consumedports := s.activeports - {EntryPort(s)})];
    assert SameCabling(slaves, slaves');
    RelayedKept(slaves, slaves', 0, 1, i);
    RelayedParent(slaves', 0, 1, i);
  }

  /** A slave without a clock before it. */
  lemma {:induction false} BeforeFirst(st: State, regs: seq<PortTimes>, c: Tree, i: nat, t: nat) returns (st': State)
    requires NextTree(st, regs, c, i, t) && !c.hasdc && c.kids.Branch? && Relayed(st.slaves, 0, 1, i) && st.hold == 0
    ensures Ready(st') && st' == Step(st, i, regs[i]) && SameCabling(st.slaves, st'.slaves) && st'.hold == 0
    ensures st'.slaves[0] == st.slaves[0]
    ensures forall k :: i < k < |regs| ==> st'.slaves[k] == st.slaves[k]
  {
    TreeRelays(st, regs, c, i, t);
    st' := Step(st, i, regs[i]);
    if i > 1 {
      assert st.slaves[i - 1].topology == 2;
    }
  }

  lemma {:induction false} FirstBehind(st: State, regs: seq<PortTimes>, c: Tree, i: nat, t: nat, r: nat)
    requires NextTree(st, regs, c, i, t) && i + Size(c) == |regs|
    requires Relayed(st.slaves, 0, 1, i) && FirstClock(st.slaves, r)
    ensures if c.hasdc then r == i else r > i && c.kids.Branch?
  {
  }

  lemma {:induction false} RootDelays(st: State, regs: seq<PortTimes>, c: Tree, i: nat, t: nat, r: nat)
    returns (st': State, offset: int)
    requires NextTree(st, regs, c, i, t) && i + Size(c) == |regs|
    requires Relayed(st.slaves, 0, 1, i) && !st.slaves[0].hasdc && st.hold == 0 && FirstClock(st.slaves, r)
    ensures Ready(st') && |st'.slaves| == |regs| && SameCabling(st.slaves, st'.slaves)
    ensures Meet(regs, st, i, st', |regs|) && st'.slaves[r].pdelay == st.slaves[r].pdelay
    ensures (c.hasdc ==> st'.slaves[i].pdelay == t + offset) && OnTime(st'.slaves, c.kids, i + 1, t, offset)
    decreases Size(c)
  {
    hide Waiting, Reports, Hung, Meet, OnTime, RoundTrip, Straight, Step;
    if c.hasdc {
      FirstBehind(st, regs, c, i, t, r);
      offset := st.slaves[i].pdelay - t;
      var st1 := FirstHandled(st, regs, c, i, t);
      MeetStep(regs, st, i);
      TreeKept(st, st1, regs, c, i, t);
      TreeNext(st1, regs, c, i, t);
      st' := ForestDelays(st1, regs, c.kids, i + 1, i, c.clock, t, t, 0, offset);
      SameCablingOn(st.slaves, st1.slaves, st'.slaves);
      MeetOn(regs, st, i, st1, i + 1, st', |regs|);
    } else {
      FirstBehind(st, regs, c, i, t, r);
      var k := c.kids;
      TreeRelays(st, regs, c, i, t);
      var st1 := BeforeFirst(st, regs, c, i, t);
      MeetStep(regs, st, i);
      TreeKept(st, st1, regs, c, i, t);
      TreeRelays(st1, regs, c, i, t);
      RelayedKept(st.slaves, st1.slaves, 0, 1, i);
      FirstClockKept(st.slaves, st1.slaves, r);
      st', offset := RootDelays(st1, regs, k.child, i + 1, t + k.cable, r);
      SameCablingOn(st.slaves, st1.slaves, st'.slaves);
      MeetOn(regs, st, i, st1, i + 1, st', |regs|);
      OnTimeDone(st'.slaves, i + 1 + Size(k.child), t + 2 * k.cable + RoundTrip(k.child.kids), offset);
      OnTimeBranch(st'.slaves, k, i + 1, t, offset);
    }
  }

  lemma {:induction false} NetworkNext(root: Tree, slaves: seq<Slave>, groups: seq<Group>, regs: seq<PortTimes>)
    requires Numbered(slaves, groups) && NetworkReports(slaves, regs, root)
    requires Straight(Branch(0, 0, root, Done)) && Hung(slaves, Branch(0, 0, root, Done), 1, 0)
    ensures Ready(Initial(slaves, groups)) && NextTree(Initial(slaves, groups), regs, root, 1, 0)
    ensures Relayed(Initial(slaves, groups).slaves, 0, 1, 1)
  {
    var st := Initial(slaves, groups);
    CablingKept(slaves, st.slaves, regs, Branch(0, 0, root, Done), 1, 0, 0);
  }

  /** For every tree in which a slave without a clock has at most one branch, all cable delays and all clock offsets,
      the delay derived for each slave with a clock is that of the first, plus the time the frame takes from there. */
  lemma {:induction false} DelaysAreArrivals(root: Tree, slaves: seq<Slave>, groups: seq<Group>, regs: seq<PortTimes>,
                                             r: nat)
    requires Numbered(slaves, groups) && FirstClock(slaves, r)
    requires NetworkReports(slaves, regs, root) && Straight(Branch(0, 0, root, Done))
    requires Hung(slaves, Branch(0, 0, root, Done), 1, 0)
    ensures ForestSize(Branch(0, 0, root, Done)) == |slaves| - 1
    ensures forall s :: 1 <= s < |slaves| && slaves[s].hasdc ==>
              Run(Initial(slaves, groups), regs, 1, |slaves|).slaves[s].pdelay - slaves[r].pdelay
              == Arrivals(Branch(0, 0, root, Done), 0)[s - 1] - Arrivals(Branch(0, 0, root, Done), 0)[r - 1]
  {
    var f, st := Branch(0, 0, root, Done), Initial(slaves, groups);
    assert RoundTrip(Done) == 0;
    hide Reports, Hung, OnTime, RoundTrip, Straight, Run;
    NetworkNext(root, slaves, groups, regs);
    FirstClockKept(slaves, st.slaves, r);
    var st', offset := RootDelays(st, regs, root, 1, 0, r);
    OnTimeDone(st'.slaves, 1 + Size(root), RoundTrip(root.kids), offset);
    OnTimeBranch(st'.slaves, f, 1, 0, offset);
    SameCablingOn(slaves, st.slaves, st'.slaves);
    NetworkOnTime(slaves, st'.slaves, regs, root, offset, r);
    RunsOut(regs, st, st');
  }

  lemma {:induction false} RunsOut(regs: seq<PortTimes>, st: State, st': State)
    requires Ready(st) && Ready(st') && |st.slaves| == |st'.slaves| == |regs|
    requires Meet(regs, st, 1, st', |regs|)
    ensures Run(st, regs, 1, |regs|) == st'
  {
  }

  lemma {:induction false} NetworkOnTime(slaves: seq<Slave>, slaves': seq<Slave>, regs: seq<PortTimes>, root: Tree,
                                         offset: int, r: nat)
    requires NetworkReports(slaves, regs, root) && SameCabling(slaves, slaves')
    requires Hung(slaves, Branch(0, 0, root, Done), 1, 0)
    requires OnTime(slaves', Branch(0, 0, root, Done), 1, 0, offset)
    requires FirstClock(slaves, r) && slaves'[r].pdelay == slaves[r].pdelay
    ensures ForestSize(Branch(0, 0, root, Done)) == |slaves| - 1
    ensures forall s :: 1 <= s < |slaves| && slaves[s].hasdc ==>
              slaves'[s].pdelay - slaves[r].pdelay
              == Arrivals(Branch(0, 0, root, Done), 0)[s - 1] - Arrivals(Branch(0, 0, root, Done), 0)[r - 1]
  {
    hide Reports, Hung, OnTime, Arrivals;
    var f := Branch(0, 0, root, Done);
    CablingKept(slaves, slaves', regs, f, 1, 0, 0);
    forall s | 1 <= s < |slaves| && slaves[s].hasdc
      ensures slaves'[s].pdelay == Arrivals(f, 0)[s - 1] + offset
    {
      assert SameCable(slaves[s], slaves'[s]);
      OnTimeArrivals(slaves', regs, f, 1, 0, offset, s - 1);
    }
  }

  lemma {:induction false} OnTimeArrivals(slaves: seq<Slave>, regs: seq<PortTimes>, f: Forest, base: nat, t: int,
                                          offset: int, k: nat)
    requires OnTime(slaves, f, base, t, offset) && base + ForestSize(f) <= |slaves| && k < ForestSize(f)
    requires Reports(slaves, regs, f, base, t) && slaves[base + k].hasdc
    ensures slaves[base + k].pdelay == Arrivals(f, t)[k] + offset
    decreases f
  {
    hide Ports, Ordered, Returns, Count;
    var mid, back := base + Size(f.child), t + 2 * f.cable + RoundTrip(f.child.kids);
    var above, beside := Arrivals(f.child.kids, t + f.cable), Arrivals(f.more, back);
    assert Arrivals(f, t) == [t + f.cable] + above + beside;
    if k == 0 {
      assert f.child.hasdc;
    } else if k < Size(f.child) {
      OnTimeArrivals(slaves, regs, f.child.kids, base + 1, t + f.cable, offset, k - 1);
    } else {
      OnTimeArrivals(slaves, regs, f.more, mid, back, offset, k - Size(f.child));
    }
  }

  lemma {:induction false} ReportsLinks(slaves: seq<Slave>, regs: seq<PortTimes>, f: Forest, base: nat, t: int)
    requires Reports(slaves, regs, f, base, t) && base + ForestSize(f) <= |slaves|
    ensures Topology.Lists(Topology.Topologies(slaves), base, f) && FourPorts(f)
    decreases f
  {
    if f.Branch? {
      AtMostThree(f.child.kids, 0);
      assert Topology.Topologies(slaves)[base] == 1 + Count(f.child.kids);
      ReportsLinks(slaves, regs, f.child.kids, base + 1, t + f.cable);
      ReportsLinks(slaves, regs, f.more, base + Size(f.child), t + 2 * f.cable + RoundTrip(f.child.kids));
    }
  }

  lemma {:induction false} ReportsPorts(slaves: seq<Slave>, regs: seq<PortTimes>, f: Forest, base: nat, t: int, k: nat)
    requires Reports(slaves, regs, f, base, t) && base + ForestSize(f) <= |slaves| && k < ForestSize(f)
    ensures {} != slaves[base + k].activeports <= {0, 1, 2, 3}
    decreases f
  {
    if k == 0 {
      AtMostThree(f.child.kids, 0);
      assert 0 in slaves[base].activeports;
    } else if k < Size(f.child) {
      ReportsPorts(slaves, regs, f.child.kids, base + 1, t + f.cable, k - 1);
    } else {
      ReportsPorts(slaves, regs, f.more, base + Size(f.child), t + 2 * f.cable + RoundTrip(f.child.kids),
                   k - Size(f.child));
    }
  }

  lemma {:induction false} AtMostThree(f: Forest, last: nat)
    requires Ordered(f, last)
    ensures Count(f) <= 3 - Rank(last) && Ports(f) <= {0, 1, 2, 3}
    decreases f
  {
    if f.Branch? {
      AtMostThree(f.more, f.port);
    }
  }

  lemma {:induction false} ParentsHung(slaves: seq<Slave>, f: Forest, base: nat, par: nat)
    requires base + ForestSize(f) <= |slaves|
    requires forall k :: 0 <= k < ForestSize(f) ==> slaves[base + k].parent == Parents(f, base, par)[k]
    ensures Hung(slaves, f, base, par)
    decreases f
  {
    if f.Branch? {
      var mid := base + Size(f.child);
      var above, beside := Parents(f.child.kids, base + 1, base), Parents(f.more, mid, par);
      assert Parents(f, base, par) == [par] + above + beside;
      assert slaves[base + 0].parent == Parents(f, base, par)[0];
      forall k | 0 <= k < ForestSize(f.child.kids)
        ensures slaves[base + 1 + k].parent == above[k]
      {
        assert slaves[base + (1 + k)].parent == Parents(f, base, par)[1 + k];
      }
      forall k | 0 <= k < ForestSize(f.more)
        ensures slaves[mid + k].parent == beside[k]
      {
        assert slaves[base + (Size(f.child) + k)].parent == Parents(f, base, par)[Size(f.child) + k];
      }
      ParentsHung(slaves, f.child.kids, base + 1, base);
      ParentsHung(slaves, f.more, mid, par);
    }
  }

  lemma {:induction false} ScannedNetwork(root: Tree, slaves: seq<Slave>, groups: seq<Group>, regs: seq<PortTimes>)
    requires NetworkReports(slaves, regs, root) && Topology.ParentsFound(slaves)
    requires |groups| >= 1 && forall i :: 1 <= i < |slaves| ==> slaves[i].group < |groups|
    ensures Numbered(slaves, groups)
    ensures Hung(slaves, Branch(0, 0, root, Done), 1, 0)
  {
    var f := Branch(0, 0, root, Done);
    forall i | 1 <= i < |slaves|
      ensures Sound(slaves[i], i, |groups|)
    {
      ReportsPorts(slaves, regs, f, 1, 0, i - 1);
      EarlierParent(slaves, i);
    }
    ReportsLinks(slaves, regs, f, 1, 0);
    Topology.SearchInvertsPreorder(root, slaves);
    forall k | 0 <= k < ForestSize(f)
      ensures slaves[1 + k].parent == Parents(f, 1, 0)[k]
    {
      var s := k + 1;
      assert slaves[s].parent == Parents(f, 1, 0)[s - 1];
    }
    ParentsHung(slaves, f, 1, 0);
  }

  lemma {:induction false} EarlierParent(slaves: seq<Slave>, i: nat)
    requires Topology.ParentsFound(slaves) && 1 <= i < |slaves|
    ensures slaves[i].parent < i
  {
    assert Topology.ParentFound(Topology.Topologies(slaves), i, slaves[i].parent);
  }

  /** From link counts and latched times to delays: the parent search of the network scan followed
      by the clock configuration gives every slave with a clock its true travel time from the first one. */
  lemma {:induction false} ScannedDelays(root: Tree, slaves: seq<Slave>, groups: seq<Group>, regs: seq<PortTimes>,
                                         r: nat)
    requires NetworkReports(slaves, regs, root) && Straight(Branch(0, 0, root, Done)) && FirstClock(slaves, r)
    requires Topology.ParentsFound(slaves)
    requires |groups| >= 1 && forall i :: 1 <= i < |slaves| ==> slaves[i].group < |groups|
    ensures Numbered(slaves, groups) && ForestSize(Branch(0, 0, root, Done)) == |slaves| - 1
    ensures forall s :: 1 <= s < |slaves| && slaves[s].hasdc ==>
              Run(Initial(slaves, groups), regs, 1, |slaves|).slaves[s].pdelay - slaves[r].pdelay
              == Arrivals(Branch(0, 0, root, Done), 0)[s - 1] - Arrivals(Branch(0, 0, root, Done), 0)[r - 1]
  {
    ScannedNetwork(root, slaves, groups, regs);
    DelaysAreArrivals(root, slaves, groups, regs, r);
  }
}
