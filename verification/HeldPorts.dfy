/** Branches without clocks: the port of the parent they hang from must be used up, so that the next slave with a
    clock gets its own. */
module HeldPorts {
  import opened SlaveTree
  import opened DistributedClock
  import opened PropagationDelay

  /** No slave of the forest has a clock. */
  predicate Plain(f: Forest) {
    match f
    case Done => true
    case Branch(_, _, child, more) => !child.hasdc && Plain(child.kids) && Plain(more)
  }

  /** The slaves of the forest are listed from `base` on, below `par`. */
  predicate Listed(slaves: seq<Slave>, f: Forest, base: nat, par: nat)
    decreases f
  {
    match f
    case Done => true
    case Branch(_, _, child, more) =>
      && base < |slaves| && slaves[base].parent == par && slaves[base].hasdc == child.hasdc
      && slaves[base].topology == 1 + Count(child.kids)
      && Listed(slaves, child.kids, base + 1, base) && Listed(slaves, more, base + Size(child), par)
  }

  /** No slave of the tree has more than one branch. */
  predicate Chain(c: Tree) { c.kids.Done? || (c.kids.more.Done? && Chain(c.kids.child)) }

  lemma {:induction false} ListedKept(slaves: seq<Slave>, slaves': seq<Slave>, f: Forest, base: nat, par: nat)
    requires 1 <= base && SameCabling(slaves, slaves') && Listed(slaves, f, base, par)
    ensures Listed(slaves', f, base, par)
    decreases f
  {
    if f.Branch? {
      assert SameCable(slaves[base], slaves'[base]);
      ListedKept(slaves, slaves', f.child.kids, base + 1, base);
      ListedKept(slaves, slaves', f.more, base + Size(f.child), par);
    }
  }

  lemma {:induction false} RunSplit(st: State, regs: seq<PortTimes>, lo: nat, mid: nat, hi: nat)
    requires Ready(st) && 1 <= lo <= mid <= hi <= |st.slaves| <= |regs|
    ensures Run(st, regs, lo, hi) == Run(Run(st, regs, lo, mid), regs, mid, hi)
    decreases mid - lo
  {
    hide Step;
    if lo < mid {
      RunSplit(Step(st, lo, regs[lo]), regs, lo + 1, mid, hi);
    }
  }

  /** The parent whose port is held once slave i has been looked at. */
  function HeldAt(st: State, i: nat): nat
    requires Ready(st) && 1 <= i < |st.slaves|
  {
    var p := st.slaves[i].parent;
    if p > 0 && st.slaves[p].topology > 2 then p else st.hold
  }

  function UsedUp(s: Slave): Slave { s.(consumedports := s.consumedports - {FirstOpen(s.consumedports)}) }

  /** The slaves before `hi` are as they were, but that `held`, if any, has used up a port. */
  ghost predicate OnlyUsed(slaves: seq<Slave>, slaves': seq<Slave>, hi: nat, held: nat) {
    && hi <= |slaves| == |slaves'|
    && forall k :: 1 <= k < hi ==> slaves'[k] == if k == held then UsedUp(slaves[k]) else slaves[k]
  }

  /** The slaves before `hi` are as they were, but maybe slave p. */
  ghost predicate OnlyAt(slaves: seq<Slave>, slaves': seq<Slave>, hi: nat, p: nat) {
    hi <= |slaves| == |slaves'| && forall k :: 1 <= k < hi && k != p ==> slaves'[k] == slaves[k]
  }

  lemma {:induction false} LeafStep(st: State, i: nat, rt: PortTimes)
    requires Ready(st) && 1 <= i < |st.slaves| && !st.slaves[i].hasdc && st.slaves[i].topology == 1
    ensures var st' := Step(st, i, rt); st'.hold == 0 && OnlyUsed(st.slaves, st'.slaves, i, HeldAt(st, i))
  {
  }

  lemma {:induction false} ForkStep(st: State, i: nat, rt: PortTimes)
    requires Ready(st) && 1 <= i < |st.slaves| && !st.slaves[i].hasdc && st.slaves[i].topology > 1
    ensures var st' := Step(st, i, rt); st'.hold == HeldAt(st, i) && OnlyUsed(st.slaves, st'.slaves, i, 0)
  {
  }

  /** A tree without clocks uses up the port that is held when its first slave is reached if it is a chain; otherwise
      its slaves hold ports of their own. */
  lemma {:induction false} TreeRun(st: State, regs: seq<PortTimes>, c: Tree, i: nat)
    requires Ready(st) && |st.slaves| <= |regs| && 1 <= i && i + Size(c) <= |st.slaves|
    requires !st.slaves[i].hasdc && st.slaves[i].topology == 1 + Count(c.kids)
    requires Plain(c.kids) && Listed(st.slaves, c.kids, i + 1, i)
    ensures var st' := Run(st, regs, i, i + Size(c));
            && st'.hold == 0
            && OnlyUsed(st.slaves, st'.slaves, i, if Chain(c) then HeldAt(st, i) else 0)
    decreases Size(c), 0
  {
    hide Step, HeldAt, UsedUp, Listed, Plain;
    var st1 := Step(st, i, regs[i]);
    assert Run(st, regs, i, i + Size(c)) == Run(st1, regs, i + 1, i + Size(c));
    if c.kids.Done? {
      assert Size(c) == 1;
      LeafStep(st, i, regs[i]);
    } else {
      ForkStep(st, i, regs[i]);
      ListedKept(st.slaves, st1.slaves, c.kids, i + 1, i);
      if c.kids.more.Done? {
        OneBranch(st1, regs, c, i);
      } else {
        assert SameCable(st.slaves[i], st1.slaves[i]);
        ForestRun(st1, regs, c.kids, i + 1, i);
      }
    }
  }

  lemma {:induction false} OneBranch(st: State, regs: seq<PortTimes>, c: Tree, i: nat)
    requires Ready(st) && |st.slaves| <= |regs| && 1 <= i && i + Size(c) <= |st.slaves|
    requires c.kids.Branch? && c.kids.more.Done? && st.slaves[i].topology == 2
    requires Plain(c.kids) && Listed(st.slaves, c.kids, i + 1, i)
    ensures var st' := Run(st, regs, i + 1, i + Size(c));
            && st'.hold == 0
            && OnlyUsed(st.slaves, st'.slaves, i, if Chain(c.kids.child) then st.hold else 0)
    decreases ForestSize(c.kids), 1
  {
    assert ForestSize(c.kids.more) == 0;
    TreeRun(st, regs, c.kids.child, i + 1);
    assert HeldAt(st, i + 1) == st.hold;
  }

  /** Branches of a slave with more than one of them leave all slaves before it alone. */
  lemma {:induction false} ForestRun(st: State, regs: seq<PortTimes>, f: Forest, base: nat, par: nat)
    requires Ready(st) && |st.slaves| <= |regs| && 1 <= par < base && base + ForestSize(f) <= |st.slaves|
    requires st.slaves[par].topology > 2 && (f.Branch? || st.hold == 0)
    requires Plain(f) && Listed(st.slaves, f, base, par)
    ensures var st' := Run(st, regs, base, base + ForestSize(f));
            st'.hold == 0 && OnlyAt(st.slaves, st'.slaves, base, par)
    decreases ForestSize(f), 1
  {
    hide Step, UsedUp, Run, OnlyUsed, OnlyAt;
    if f.Branch? {
      var mid, end := base + Size(f.child), base + ForestSize(f);
      TreeRun(st, regs, f.child, base);
      var st1 := Run(st, regs, base, mid);
      assert HeldAt(st, base) == par;
      RunSplit(st, regs, base, mid, end);
      ListedKept(st.slaves, st1.slaves, f.more, mid, par);
      assert SameCable(st.slaves[par], st1.slaves[par]);
      ForestRun(st1, regs, f.more, mid, par);
      OnlyAtOn(st.slaves, st1.slaves, Run(st1, regs, mid, end).slaves, base, mid, par);
    } else {
      NothingRun(st, regs, base, par);
    }
  }

  lemma {:induction false} NothingRun(st: State, regs: seq<PortTimes>, base: nat, par: nat)
    requires Ready(st) && 1 <= base <= |st.slaves| <= |regs|
    ensures Run(st, regs, base, base) == st && OnlyAt(st.slaves, st.slaves, base, par)
  {
  }

  lemma {:induction false} OnlyAtOn(slaves: seq<Slave>, mid: seq<Slave>, slaves': seq<Slave>, lo: nat, hi: nat, p: nat)
    requires lo <= hi && (OnlyUsed(slaves, mid, lo, p) || OnlyUsed(slaves, mid, lo, 0)) && OnlyAt(mid, slaves', hi, p)
    ensures OnlyAt(slaves, slaves', lo, p)
  {
  }

  /** A branch without clocks below a slave with more than one branch uses up exactly one port of that slave if, and
      only if, no slave of the branch has more than one branch itself; otherwise it uses up none. */
  lemma {:induction false} BranchUsesPortIff(st: State, regs: seq<PortTimes>, f: Forest, base: nat, par: nat)
    requires f.Branch? && Ready(st) && |st.slaves| <= |regs| && 1 <= par < base && base + Size(f.child) <= |st.slaves|
    requires Plain(Branch(f.port, f.cable, f.child, Done)) && Listed(st.slaves, f, base, par)
    requires st.slaves[par].topology > 2
    ensures var st' := Run(st, regs, base, base + Size(f.child));
            var before, after := st.slaves[par].consumedports, st'.slaves[par].consumedports;
            && st'.hold == 0
            && after == (if Chain(f.child) then before - {FirstOpen(before)} else before)
            && forall k :: 1 <= k < base && k != par ==> st'.slaves[k] == st.slaves[k]
  {
    TreeRun(st, regs, f.child, base);
    assert HeldAt(st, base) == par;
  }

  /** So the next slave with a clock finds the port it hangs from if, and only if, each branch without clocks between
      is such a chain; here, for one such branch. */
  lemma {:induction false} OwnPortIff(st: State, regs: seq<PortTimes>, f: Forest, base: nat, par: nat, clock: int,
                                      came: int, t: int, last: nat)
    requires f.Branch? && Ready(st) && |st.slaves| <= |regs| && 1 <= par < base && base + Size(f.child) <= |st.slaves|
    requires Plain(Branch(f.port, f.cable, f.child, Done)) && Listed(st.slaves, f, base, par)
    requires f.more.Branch? && Waiting(st.slaves[par], f, clock, came, t, last)
    ensures var st' := Run(st, regs, base, base + Size(f.child));
            FirstOpen(st'.slaves[par].consumedports) == f.more.port <==> Chain(f.child)
  {
    assert Count(f) >= 2;
    BranchUsesPortIff(st, regs, f, base, par);
    BranchPort(st.slaves[par], f, clock, came, t, last);
    var p := st.slaves[par].(consumedports := st.slaves[par].consumedports - {f.port});
    BranchPort(p, f.more, clock, came, t + 2 * f.cable + RoundTrip(f.child.kids), f.port);
    assert f.more.port != f.port;
  }

  lemma {:induction false} RoundTripEven(f: Forest)
    ensures RoundTrip(f) % 2 == 0
    decreases f
  {
    if f.Branch? {
      RoundTripEven(f.child.kids);
      RoundTripEven(f.more);
    }
  }

  /** What goes wrong otherwise: behind a branch without clocks that forks, a slave with a clock and no branches is
      taken for the end of that branch.  Its delay is too short by half the time the frame is in that branch, and
      its own cable. */
  lemma {:induction false} ForkDelay(st: State, regs: seq<PortTimes>, f: Forest, base: nat, par: nat, clock: int,
                                     came: int, t: int, last: nat)
    requires f.Branch? && f.more.Branch? && Plain(Branch(f.port, f.cable, f.child, Done)) && !Chain(f.child)
    requires Ready(st) && |st.slaves| == |regs| && 1 <= par < base && base + Size(f.child) < |regs|
    requires st.slaves[par].hasdc && Listed(st.slaves, f, base, par) && Waiting(st.slaves[par], f, clock, came, t, last)
    requires f.more.child.hasdc && f.more.child.kids.Done?
    requires NodeReports(st.slaves, regs, f.more.child, base + Size(f.child),
                         t + 2 * f.cable + RoundTrip(f.child.kids) + f.more.cable)
    ensures var i, away := base + Size(f.child), 2 * f.cable + RoundTrip(f.child.kids);
            var st' := Run(st, regs, base, i + 1);
            st'.slaves[i].pdelay == st.slaves[par].pdelay + (t + away + f.more.cable - came) - (away / 2 + f.more.cable)
  {
    hide Waiting, Step, Run, NodeReports;
    var i, away := base + Size(f.child), 2 * f.cable + RoundTrip(f.child.kids);
    var w, at := away / 2, t + away + f.more.cable;
    RoundTripEven(f.child.kids);
    ForkedBranch(st, regs, f, base, par);
    var st1 := Run(st, regs, base, i);
    var c := Node(f.more.child.clock + at - (t + w), true, Done);
    LeafShifted(st.slaves, st1.slaves, regs, f.more.child, c, i, at, t + w);
    RunSplit(st, regs, base, i, i + 1);
    LastStep(st1, regs, i);
    var st2 := ClockHandled(st1, regs, f, c, i, par, i, clock, came, t, last, w);
  }

  lemma {:induction false} LastStep(st: State, regs: seq<PortTimes>, i: nat)
    requires Ready(st) && 1 <= i < |st.slaves| <= |regs|
    ensures Run(st, regs, i, i + 1) == Step(st, i, regs[i])
  {
    hide Step;
  }

  lemma {:induction false} ForkedBranch(st: State, regs: seq<PortTimes>, f: Forest, base: nat, par: nat)
    requires f.Branch? && f.more.Branch? && Plain(Branch(f.port, f.cable, f.child, Done)) && !Chain(f.child)
    requires Ready(st) && |st.slaves| == |regs| && 1 <= par < base && base + Size(f.child) < |regs|
    requires st.slaves[par].hasdc && Listed(st.slaves, f, base, par)
    ensures var i := base + Size(f.child);
            var st' := Run(st, regs, base, i);
            && st'.slaves[par] == st.slaves[par] && SameCabling(st.slaves, st'.slaves)
            && i > par + 1 && Relayed(st'.slaves, par, i, i)
  {
    var i := base + Size(f.child);
    TreeRun(st, regs, f.child, base);
    CableOf(st.slaves, Run(st, regs, base, i).slaves, i);
  }

  lemma {:induction false} CableOf(slaves: seq<Slave>, slaves': seq<Slave>, i: nat)
    requires SameCabling(slaves, slaves') && 1 <= i < |slaves|
    ensures SameCable(slaves[i], slaves'[i])
  {
  }

  /** A clock set otherwise makes up for another time of arrival. */
  lemma {:induction false} LeafShifted(slaves: seq<Slave>, slaves': seq<Slave>, regs: seq<PortTimes>, c: Tree, c': Tree,
                                       i: nat, t: int, t': int)
    requires SameCabling(slaves, slaves') && 1 <= i && NodeReports(slaves, regs, c, i, t)
    requires c.kids == c'.kids == Done && c'.hasdc == c.hasdc && c'.clock + t' == c.clock + t
    ensures NodeReports(slaves', regs, c', i, t')
  {
    CableOf(slaves, slaves', i);
  }
}
