/** ecx_configdc: the list of slaves with a distributed clock, and their propagation delays.

    The receive times the slaves latched are an input; everything the master derives from them
    is in the slave list. */
module DistributedClock {
  import opened SlaveTree

  datatype Group = Group(hasdc: bool, dcnext: nat)

  /** Latched port time of a slave. */
  function PortTime(rt: PortTimes, port: nat): int {
    match port
    case 0 => rt.a
    case 1 => rt.b
    case 2 => rt.c
    case 3 => rt.d
    case _ => 0
  }

  /** The active port before `port`, in the order 0 - 3 - 1 - 2 a frame visits them. */
  function PrevPort(active: set<nat>, port: nat): nat {
    match port
    case 0 => if 2 in active then 2 else if 1 in active then 1 else if 3 in active then 3 else port
    case 1 => if 3 in active then 3 else if 0 in active then 0 else if 2 in active then 2 else port
    case 2 => if 1 in active then 1 else if 3 in active then 3 else if 0 in active then 0 else port
    case 3 => if 0 in active then 0 else if 2 in active then 2 else if 1 in active then 1 else port
    case _ => port
  }

  /** The first unconsumed port in the order 3 - 1 - 2 - 0. */
  function FirstOpen(consumed: set<nat>): nat {
    if 3 in consumed then 3 else if 1 in consumed then 1 else if 2 in consumed then 2 else 0
  }

  /** The position of a port in the order a frame visits them. */
  function Rank(port: nat): nat {
    if port == 0 then 0 else if port == 3 then 1 else if port == 1 then 2 else 3
  }

  /** The active port with the lowest time stamp; on a tie the one a frame visits first. */
  ghost predicate IsEntryPort(s: Slave, port: nat) {
    && port in s.activeports && port <= 3
    && forall q | q in s.activeports && q <= 3 && q != port ::
         if Rank(q) < Rank(port) then PortTime(s.rt, port) < PortTime(s.rt, q)
         else PortTime(s.rt, port) <= PortTime(s.rt, q)
  }

  lemma {:induction false} EntryPortUnique(s: Slave, p: nat, q: nat)
    requires IsEntryPort(s, p) && IsEntryPort(s, q)
    ensures p == q
  {
  }

  function Half(x: int): int {
    if x < 0 then -((-x) / 2) else x / 2 // C division truncates toward zero
  }

  /** The propagation delay of slave `i` below `parent`, when `via` is the slave directly below
      `parent` on the way to `i`. */
  function Delay(slaves: seq<Slave>, i: nat, via: nat, parent: nat): int
    requires i < |slaves| && parent < |slaves|
  {
    var p, s := slaves[parent], slaves[i];
    var before := PortTime(p.rt, PrevPort(p.activeports, s.parentport));
    var dt3 := PortTime(p.rt, s.parentport) - before;
    var dt1 := if s.topology > 1
               then PortTime(s.rt, PrevPort(s.activeports, s.entryport)) - PortTime(s.rt, s.entryport)
               else 0;
    var dt1' := if dt1 > dt3 then -dt1 else dt1;
    var dt2 := if via - parent > 1 then before - PortTime(p.rt, p.entryport) else 0;
    var dt2' := if dt2 < 0 then -dt2 else dt2;
    Half(dt3 - dt1') + dt2' + p.pdelay
  }

  /** A slave is numbered after its parent, and one that answers has an open port. */
  predicate Sound(s: Slave, i: nat, ngroups: nat) {
    s.parent < i && s.group < ngroups && {} != s.activeports <= {0, 1, 2, 3}
  }

  predicate Numbered(slaves: seq<Slave>, groups: seq<Group>) {
    && |slaves| >= 1 && |groups| >= 1
    && forall i :: 1 <= i < |slaves| ==> Sound(slaves[i], i, |groups|)
  }

  // ----- what one pass of the slave loop does -----

  /** The slave list, the groups, the last slave with a clock, and the held parent (0 = none). */
  datatype State = State(slaves: seq<Slave>, groups: seq<Group>, prev: nat, hold: nat)

  ghost predicate Ready(st: State) {
    && Numbered(st.slaves, st.groups)
    && st.prev < |st.slaves| && st.hold < |st.slaves|
  }

  /** The fields the clock configuration only reads are the same. */
  predicate SameCable(s: Slave, s': Slave) {
    && s'.topology == s.topology && s'.activeports == s.activeports
    && s'.parent == s.parent && s'.hasdc == s.hasdc && s'.group == s.group
  }

  ghost predicate SameCabling(slaves: seq<Slave>, slaves': seq<Slave>) {
    && |slaves| == |slaves'|
    && forall k :: 1 <= k < |slaves| ==> SameCable(slaves[k], slaves'[k])
  }

  ghost function EntryPort(s: Slave): nat
  {
    if exists p: nat :: IsEntryPort(s, p) then var p: nat :| IsEntryPort(s, p); p else 0
  }

  /** The first ancestor with a clock (or the master), and the slave directly below it. */
  function DcParent(slaves: seq<Slave>, i: nat): (r: (nat, nat))
    requires 1 <= i < |slaves|
    requires forall k :: 1 <= k < |slaves| ==> slaves[k].parent < k
    ensures r.1 < r.0 <= i && slaves[r.0].parent == r.1
  {
    var p := slaves[i].parent;
    if p == 0 || slaves[p].hasdc then (i, p) else DcParent(slaves, p)
  }

  /** Put slave i at the end of the list of slaves with a clock. */
  function Enlist(st: State, i: nat): (st': State)
    requires st.prev < |st.slaves| && 1 <= i < |st.slaves| && st.slaves[i].group < |st.groups|
    ensures SameCabling(st.slaves, st'.slaves)
  {
    if st.slaves[0].hasdc then
      var linked := st.slaves[st.prev := st.slaves[st.prev].(dcnext := i)];
      State(linked[i := linked[i].(dcprevious := st.prev)], st.groups, i, 0)
    else
      var linked := st.slaves[0 := st.slaves[0].(hasdc := true, dcnext := i)];
      State(linked[i := linked[i].(dcprevious := 0)], st.groups[st.slaves[i].group := Group(true, i)], i, 0)
  }

  /** Take the first open port of slave p. */
  function Consume(slaves: seq<Slave>, p: nat): (slaves': seq<Slave>)
    requires p < |slaves|
    ensures SameCabling(slaves, slaves')
  {
    slaves[p := slaves[p].(consumedports := slaves[p].consumedports - {FirstOpen(slaves[p].consumedports)})]
  }

  ghost function Measure(slaves: seq<Slave>, i: nat): (slaves': seq<Slave>)
    requires 1 <= i < |slaves|
    requires forall k :: 1 <= k < |slaves| ==> slaves[k].parent < k
    ensures SameCabling(slaves, slaves')
  {
    var (via, p) := DcParent(slaves, i);
    if p == 0 then slaves
    else
      var port := if slaves[p].topology == 1 then slaves[p].entryport else FirstOpen(slaves[p].consumedports);
      var attached := Consume(slaves, p)[i := slaves[i].(parentport := port)];
      attached[i := attached[i].(pdelay := Delay(attached, i, via, p))]
  }

  /** Handle a slave with a clock, whose latched times are `rt`. */
  ghost function ClockStep(st: State, i: nat, rt: PortTimes): (st': State)
    requires Ready(st) && 1 <= i < |st.slaves|
    ensures Ready(st') && SameCabling(st.slaves, st'.slaves)
  {
    var st1 := Enlist(st, i);
    var s := st1.slaves[i].(rt := rt);
    var e := EntryPort(s);
    var s' := s.(entryport := e, consumedports := s.activeports - {e});
    st1.(slaves := Measure(st1.slaves[i := s'], i))
  }

  /** Handle a slave without a clock: a branch that ends in one uses up a port of the held parent. */
  function PlainStep(st: State, i: nat): (st': State)
    requires Ready(st) && 1 <= i < |st.slaves|
    ensures Ready(st') && SameCabling(st.slaves, st'.slaves)
  {
    var s := st.slaves[i].(rt := PortTimes(0, 0, 0, 0), consumedports := st.slaves[i].activeports);
    var slaves := st.slaves[i := s];
    var hold := if s.parent > 0 && slaves[s.parent].topology > 2 then s.parent else st.hold;
    if hold > 0 && s.topology == 1 then State(Consume(slaves, hold), st.groups, st.prev, 0)
    else State(slaves, st.groups, st.prev, hold)
  }

  ghost function Step(st: State, i: nat, rt: PortTimes): (st': State)
    requires Ready(st) && 1 <= i < |st.slaves|
    ensures Ready(st') && |st'.slaves| == |st.slaves|
    ensures SameCabling(st.slaves, st'.slaves)
  {
    if st.slaves[i].hasdc then ClockStep(st, i, rt) else PlainStep(st, i)
  }

  lemma {:induction false} StepIs(st: State, i: nat, rt: PortTimes)
    requires Ready(st) && 1 <= i < |st.slaves|
    ensures Step(st, i, rt) == if st.slaves[i].hasdc then ClockStep(st, i, rt) else PlainStep(st, i)
  {
  }

  /** Slaves lo .. hi-1 handled in order. */
  ghost function Run(st: State, regs: seq<PortTimes>, lo: nat, hi: nat): (st': State)
    requires Ready(st) && 1 <= lo <= hi <= |st.slaves| <= |regs|
    ensures Ready(st') && SameCabling(st.slaves, st'.slaves)
    decreases hi - lo
  {
    if lo == hi then st else Run(Step(st, lo, regs[lo]), regs, lo + 1, hi)
  }

  ghost function Initial(slaves: seq<Slave>, groups: seq<Group>): State
    requires |slaves| >= 1 && |groups| >= 1
  {
    State(slaves[0 := slaves[0].(hasdc := false)], groups[0 := groups[0].(hasdc := false)], 0, 0)
  }

  // ----- the list of slaves with a clock -----

  /** The last slave before i with a clock, or the master. */
  function LastClock(slaves: seq<Slave>, i: nat): (k: nat)
    requires i <= |slaves|
    ensures k == 0 || (k < i && slaves[k].hasdc)
  {
    if i <= 1 then 0 else if slaves[i - 1].hasdc then i - 1 else LastClock(slaves, i - 1)
  }

  /** The slaves before i with a clock form a doubly linked list in frame order that starts at the
      master record; `prev` is its end. */
  ghost predicate Chained(slaves: seq<Slave>, i: nat, prev: nat) {
    && 1 <= i <= |slaves|
    && prev == LastClock(slaves, i)
    && (slaves[0].hasdc <==> prev > 0)
    && forall k :: 1 <= k < i && slaves[k].hasdc ==>
         slaves[k].dcprevious == LastClock(slaves, k) && slaves[LastClock(slaves, k)].dcnext == k
  }

  lemma {:induction false} LastClockKept(slaves: seq<Slave>, slaves': seq<Slave>, i: nat)
    requires SameCabling(slaves, slaves') && i <= |slaves|
    ensures LastClock(slaves', i) == LastClock(slaves, i)
    decreases i
  {
    if i > 1 {
      assert SameCable(slaves[i - 1], slaves'[i - 1]);
      LastClockKept(slaves, slaves', i - 1);
    }
  }

  lemma {:induction false} LastClockGrows(slaves: seq<Slave>, k: nat, i: nat)
    requires 1 <= k < i <= |slaves| && slaves[k].hasdc
    ensures LastClock(slaves, i) >= k
    decreases i
  {
    if k < i - 1 && !slaves[i - 1].hasdc {
      LastClockGrows(slaves, k, i - 1);
    }
  }

  ghost predicate SameLinks(slaves: seq<Slave>, slaves': seq<Slave>) {
    && |slaves| == |slaves'|
    && forall k :: 0 <= k < |slaves| ==>
         && slaves'[k].dcnext == slaves[k].dcnext && slaves'[k].dcprevious == slaves[k].dcprevious
         && slaves'[k].hasdc == slaves[k].hasdc
  }

  lemma {:induction false} MeasureLinks(slaves: seq<Slave>, i: nat)
    requires 1 <= i < |slaves|
    requires forall k :: 1 <= k < |slaves| ==> slaves[k].parent < k
    ensures SameLinks(slaves, Measure(slaves, i))
  {
  }

  lemma {:induction false} StepLinks(st: State, i: nat, rt: PortTimes)
    requires Ready(st) && 1 <= i < |st.slaves|
    ensures var st' := Step(st, i, rt);
            if st.slaves[i].hasdc
            then st'.prev == i && SameLinks(Enlist(st, i).slaves, st'.slaves)
            else st'.prev == st.prev && SameLinks(st.slaves, st'.slaves)
  {
    if st.slaves[i].hasdc {
      var st1 := Enlist(st, i);
      var s := st1.slaves[i].(rt := rt);
      var e := EntryPort(s);
      MeasureLinks(st1.slaves[i := s.(entryport := e, consumedports := s.activeports - {e})], i);
    }
  }

  lemma {:induction false} EnlistedLinks(st: State, i: nat)
    requires Ready(st) && 1 <= i < |st.slaves| && (st.slaves[0].hasdc <==> st.prev > 0)
    ensures var s, s' := st.slaves, Enlist(st, i).slaves;
            && |s'| == |s| && s'[0].hasdc
            && forall x :: 0 <= x < |s| ==>
                 && s'[x].dcnext == (if x == st.prev then i else s[x].dcnext)
                 && s'[x].dcprevious == (if x == i then st.prev else s[x].dcprevious)
  {
  }

  /** The links after a step. */
  ghost predicate LinkedOn(s: seq<Slave>, s': seq<Slave>, i: nat, prev: nat, prev': nat)
    requires i < |s|
  {
    && |s'| == |s|
    && (if s[i].hasdc then prev' == i && s'[0].hasdc else prev' == prev && s'[0].hasdc == s[0].hasdc)
    && forall x :: 0 <= x < |s| ==>
         && s'[x].dcnext == (if x == prev && s[i].hasdc then i else s[x].dcnext)
         && s'[x].dcprevious == (if x == i && s[i].hasdc then prev else s[x].dcprevious)
  }

  lemma {:induction false} StepLinked(st: State, i: nat, rt: PortTimes)
    requires Ready(st) && 1 <= i < |st.slaves| && (st.slaves[0].hasdc <==> st.prev > 0)
    ensures LinkedOn(st.slaves, Step(st, i, rt).slaves, i, st.prev, Step(st, i, rt).prev)
  {
    hide Enlist, Step;
    StepLinks(st, i, rt);
    if st.slaves[i].hasdc {
      EnlistedLinks(st, i);
    }
  }

  lemma {:induction false} ChainOn(s: seq<Slave>, s': seq<Slave>, i: nat, prev: nat, prev': nat, k: nat)
    requires 1 <= i < |s| && Chained(s, i, prev) && LinkedOn(s, s', i, prev, prev') && SameCabling(s, s')
    requires 1 <= k < i + 1 && s'[k].hasdc
    ensures s'[k].dcprevious == LastClock(s', k) && s'[LastClock(s', k)].dcnext == k
  {
    hide Chained, LastClock, SameCabling;
    LastClockKept(s, s', k);
    CableAt(s, s', k);
    if k < i {
      ChainedAt(s, i, prev, k);
      LastClockGrows(s, k, i);
    } else {
      ChainedEnd(s, i, prev);
    }
  }

  lemma {:induction false} CableAt(s: seq<Slave>, s': seq<Slave>, k: nat)
    requires SameCabling(s, s') && 1 <= k < |s|
    ensures SameCable(s[k], s'[k])
  {
  }

  lemma {:induction false} ChainedAt(s: seq<Slave>, i: nat, prev: nat, k: nat)
    requires Chained(s, i, prev) && 1 <= k < i && s[k].hasdc
    ensures s[k].dcprevious == LastClock(s, k) < k && s[LastClock(s, k)].dcnext == k && prev == LastClock(s, i)
  {
  }

  lemma {:induction false} ChainedEnd(s: seq<Slave>, i: nat, prev: nat)
    requires Chained(s, i, prev)
    ensures prev == LastClock(s, i) && (s[0].hasdc <==> prev > 0)
  {
  }

  lemma {:induction false} ChainStep(st: State, i: nat, rt: PortTimes)
    requires Ready(st) && 1 <= i < |st.slaves| && Chained(st.slaves, i, st.prev)
    ensures Chained(Step(st, i, rt).slaves, i + 1, Step(st, i, rt).prev)
  {
    var s, s', prev' := st.slaves, Step(st, i, rt).slaves, Step(st, i, rt).prev;
    hide Step;
    StepLinked(st, i, rt);
    LastClockKept(s, s', i);
    CableAt(s, s', i);
    forall k | 1 <= k < i + 1 && s'[k].hasdc
      ensures s'[k].dcprevious == LastClock(s', k) && s'[LastClock(s', k)].dcnext == k
    {
      ChainOn(s, s', i, st.prev, prev', k);
    }
  }

  /** For every mix of slaves with and without clocks, the pass links exactly those with one, in
      frame order. */
  lemma {:induction false} ClockList(st: State, regs: seq<PortTimes>, i: nat)
    requires Ready(st) && 1 <= i <= |st.slaves| == |regs| && Chained(st.slaves, i, st.prev)
    ensures var end := Run(st, regs, i, |regs|); Chained(end.slaves, |regs|, end.prev)
    decreases |regs| - i
  {
    hide Chained, Step;
    if i < |regs| {
      ChainStep(st, i, regs[i]);
      ClockList(Step(st, i, regs[i]), regs, i + 1);
    }
  }

  // ----- the groups, and what was read -----

  /** The first slave with a clock. */
  predicate FirstClock(slaves: seq<Slave>, f: nat) {
    1 <= f < |slaves| && slaves[f].hasdc && forall k :: 1 <= k < f ==> !slaves[k].hasdc
  }

  /** Only the group of the first slave with a clock is told of it; else only the flag of group 0 is cleared. */
  ghost predicate GroupsTold(groups: seq<Group>, groups': seq<Group>, slaves: seq<Slave>, i: nat) {
    && |groups| >= 1
    && ((forall k :: 1 <= k < i && k < |slaves| ==> !slaves[k].hasdc) ==>
          groups' == groups[0 := groups[0].(hasdc := false)])
    && forall f: nat :: f < i && FirstClock(slaves, f) ==>
         && slaves[f].group < |groups|
         && groups' == groups[0 := groups[0].(hasdc := false)][slaves[f].group := Group(true, f)]
  }

  lemma {:induction false} FirstClockKept(slaves: seq<Slave>, slaves': seq<Slave>, f: nat)
    requires SameCabling(slaves, slaves')
    ensures FirstClock(slaves', f) <==> FirstClock(slaves, f)
    ensures FirstClock(slaves, f) ==> slaves'[f].group == slaves[f].group
  {
    assert forall k :: 1 <= k < |slaves| ==> SameCable(slaves[k], slaves'[k]);
  }

  lemma {:induction false} NoClockBefore(slaves: seq<Slave>, i: nat)
    requires i <= |slaves|
    ensures LastClock(slaves, i) == 0 <==> forall k :: 1 <= k < i ==> !slaves[k].hasdc
    decreases i
  {
    if i > 1 {
      NoClockBefore(slaves, i - 1);
    }
  }

  lemma {:induction false} StepGroups(st: State, i: nat, rt: PortTimes)
    requires Ready(st) && 1 <= i < |st.slaves|
    ensures Step(st, i, rt).groups == if st.slaves[i].hasdc && !st.slaves[0].hasdc
                                      then st.groups[st.slaves[i].group := Group(true, i)] else st.groups
  {
    hide Measure;
  }

  lemma {:induction false} GroupStep(st: State, i: nat, rt: PortTimes, groups: seq<Group>)
    requires Ready(st) && 1 <= i < |st.slaves| && Chained(st.slaves, i, st.prev)
    requires GroupsTold(groups, st.groups, st.slaves, i)
    ensures GroupsTold(groups, Step(st, i, rt).groups, Step(st, i, rt).slaves, i + 1)
  {
    var st' := Step(st, i, rt);
    StepGroups(st, i, rt);
    NoClockBefore(st.slaves, i);
    ChainedEnd(st.slaves, i, st.prev);
    hide Step, Chained;
    CableAt(st.slaves, st'.slaves, i);
    ToldKept(groups, st.groups, st.slaves, st'.slaves, i);
    if st.slaves[0].hasdc || !st.slaves[i].hasdc {
      ToldOn(groups, st.groups, st'.slaves, i);
    } else {
      forall f: nat | FirstClock(st'.slaves, f) && f < i + 1 ensures f == i {
        FirstClockKept(st.slaves, st'.slaves, f);
      }
    }
  }

  lemma {:induction false} ToldKept(groups: seq<Group>, groups': seq<Group>, slaves: seq<Slave>, slaves': seq<Slave>,
                                    i: nat)
    requires GroupsTold(groups, groups', slaves, i) && SameCabling(slaves, slaves')
    ensures GroupsTold(groups, groups', slaves', i)
  {
    forall f: nat | FirstClock(slaves', f)
      ensures FirstClock(slaves, f) && slaves'[f].group == slaves[f].group
    {
      FirstClockKept(slaves, slaves', f);
    }
    assert forall k :: 1 <= k < |slaves| ==> SameCable(slaves[k], slaves'[k]);
  }

  lemma {:induction false} ToldOn(groups: seq<Group>, groups': seq<Group>, slaves: seq<Slave>, i: nat)
    requires GroupsTold(groups, groups', slaves, i) && 1 <= i < |slaves|
    requires slaves[i].hasdc ==> exists k :: 1 <= k < i && slaves[k].hasdc
    ensures GroupsTold(groups, groups', slaves, i + 1)
  {
  }

  lemma {:induction false} GroupList(st: State, regs: seq<PortTimes>, i: nat, groups: seq<Group>)
    requires Ready(st) && 1 <= i <= |st.slaves| == |regs| && Chained(st.slaves, i, st.prev)
    requires GroupsTold(groups, st.groups, st.slaves, i)
    ensures var end := Run(st, regs, i, |regs|); GroupsTold(groups, end.groups, end.slaves, |regs|)
    decreases |regs| - i
  {
    hide Chained, Step, GroupsTold;
    if i < |regs| {
      ChainStep(st, i, regs[i]);
      GroupStep(st, i, regs[i], groups);
      GroupList(Step(st, i, regs[i]), regs, i + 1, groups);
    }
  }

  /** A slave with a clock has its receive times and the entry port they tell; one without has none. */
  ghost predicate HasRead(s: Slave, rt: PortTimes) {
    if s.hasdc then s.rt == rt && IsEntryPort(s, s.entryport) else s.rt == PortTimes(0, 0, 0, 0)
  }

  ghost predicate AllRead(slaves: seq<Slave>, regs: seq<PortTimes>, i: nat) {
    i <= |slaves| <= |regs| && forall k :: 1 <= k < i ==> HasRead(slaves[k], regs[k])
  }

  ghost predicate SameReading(s: Slave, s': Slave) {
    s'.hasdc == s.hasdc && s'.rt == s.rt && s'.entryport == s.entryport && s'.activeports == s.activeports
  }

  lemma {:induction false} MeasureReading(slaves: seq<Slave>, i: nat)
    requires 1 <= i < |slaves|
    requires forall k :: 1 <= k < |slaves| ==> slaves[k].parent < k
    ensures forall k :: 0 <= k < |slaves| ==> SameReading(slaves[k], Measure(slaves, i)[k])
  {
    hide Delay, FirstOpen;
  }

  lemma {:induction false} HasEntryPort(s: Slave)
    requires {} != s.activeports <= {0, 1, 2, 3}
    ensures IsEntryPort(s, EntryPort(s))
  {
    var p := if 0 in s.activeports then 0 else if 3 in s.activeports then 3 else if 1 in s.activeports then 1 else 2;
    var p1 := if 3 in s.activeports && PortTime(s.rt, 3) < PortTime(s.rt, p) then 3 else p;
    var p2 := if 1 in s.activeports && PortTime(s.rt, 1) < PortTime(s.rt, p1) then 1 else p1;
    var p3 := if 2 in s.activeports && PortTime(s.rt, 2) < PortTime(s.rt, p2) then 2 else p2;
    assert p in s.activeports;
    assert IsEntryPort(s, p3);
  }

  lemma {:induction false} ReadStep(st: State, i: nat, rt: PortTimes)
    requires Ready(st) && 1 <= i < |st.slaves|
    ensures var s' := Step(st, i, rt).slaves;
            HasRead(s'[i], rt) && forall k :: 1 <= k < i ==> SameReading(st.slaves[k], s'[k])
  {
    hide IsEntryPort, Delay, DcParent, FirstOpen, EntryPort;
    if st.slaves[i].hasdc {
      var st1 := Enlist(st, i);
      var s := st1.slaves[i].(rt := rt);
      var e := EntryPort(s);
      var s' := s.(entryport := e, consumedports := s.activeports - {e});
      assert Sound(st.slaves[i], i, |st.groups|);
      HasEntryPort(s);
      SameEntry(s, s', e);
      MeasureReading(st1.slaves[i := s'], i);
      SameEntry(s', Step(st, i, rt).slaves[i], e);
    }
  }

  lemma {:induction false} SameEntry(s: Slave, s': Slave, e: nat)
    requires IsEntryPort(s, e) && s'.rt == s.rt && s'.activeports == s.activeports
    ensures IsEntryPort(s', e)
  {
  }

  lemma {:induction false} AllReadStep(st: State, i: nat, regs: seq<PortTimes>)
    requires Ready(st) && 1 <= i < |st.slaves| == |regs| && AllRead(st.slaves, regs, i)
    ensures AllRead(Step(st, i, regs[i]).slaves, regs, i + 1)
  {
    ReadStep(st, i, regs[i]);
    var s' := Step(st, i, regs[i]).slaves;
    hide Step, IsEntryPort;
    forall k | 1 <= k < i ensures HasRead(s'[k], regs[k]) {
      assert HasRead(st.slaves[k], regs[k]) && SameReading(st.slaves[k], s'[k]);
      if st.slaves[k].hasdc {
        SameEntry(st.slaves[k], s'[k], s'[k].entryport);
      }
    }
  }

  lemma {:induction false} ReadList(st: State, regs: seq<PortTimes>, i: nat)
    requires Ready(st) && 1 <= i <= |st.slaves| == |regs| && AllRead(st.slaves, regs, i)
    ensures AllRead(Run(st, regs, i, |regs|).slaves, regs, |regs|)
    decreases |regs| - i
  {
    hide AllRead, Step;
    if i < |regs| {
      AllReadStep(st, i, regs);
      ReadList(Step(st, i, regs[i]), regs, i + 1);
    }
  }

  /** What the pass leaves behind. */
  lemma {:induction false} Configured(slaves: seq<Slave>, groups: seq<Group>, regs: seq<PortTimes>)
    requires Numbered(slaves, groups) && |regs| == |slaves|
    ensures var end := Run(Initial(slaves, groups), regs, 1, |regs|);
            && |end.slaves| == |slaves| && Chained(end.slaves, |slaves|, LastClock(end.slaves, |slaves|))
            && SameCabling(slaves, end.slaves)
            && (forall i :: 1 <= i < |slaves| ==> HasRead(end.slaves[i], regs[i]))
            && (end.slaves[0].hasdc <==> exists k :: 1 <= k < |slaves| && end.slaves[k].hasdc)
    ensures var end := Run(Initial(slaves, groups), regs, 1, |regs|);
            && (forall f: nat :: FirstClock(end.slaves, f) ==>
                  && end.slaves[f].group < |groups|
                  && end.groups == groups[0 := groups[0].(hasdc := false)][end.slaves[f].group := Group(true, f)])
            && (!end.slaves[0].hasdc ==> end.groups == groups[0 := groups[0].(hasdc := false)])
  {
    var st, n := Initial(slaves, groups), |slaves|;
    var end := Run(st, regs, 1, n);
    assert SameCabling(slaves, st.slaves);
    ClockList(st, regs, 1);
    GroupList(st, regs, 1, groups);
    ReadList(st, regs, 1);
    hide Run, HasRead;
    ChainedEnd(end.slaves, n, end.prev);
    NoClockBefore(end.slaves, n);
  }

  /** The active ports of rank below r are listed by rank, with their time stamps. */
  ghost predicate Listed(s: Slave, plist: seq<int>, tlist: seq<int>, r: nat) {
    && |plist| == |tlist| <= r
    && (forall k :: 0 <= k < |plist| ==>
          && 0 <= plist[k] <= 3 && plist[k] in s.activeports && Rank(plist[k]) < r
          && tlist[k] == PortTime(s.rt, plist[k]))
    && (forall j, k :: 0 <= j < k < |plist| ==> Rank(plist[j]) < Rank(plist[k]))
    && forall q: nat :: q <= 3 && q in s.activeports && Rank(q) < r ==> q in plist
  }

  lemma {:induction false} NothingListed(s: Slave)
    ensures Listed(s, [], [], 0)
  {
  }

  lemma {:induction false} ListNext(s: Slave, plist: seq<int>, tlist: seq<int>, port: nat, time: int)
    requires port <= 3 && time == PortTime(s.rt, port) && Listed(s, plist, tlist, Rank(port))
    ensures var r := Rank(port) + 1;
            if port in s.activeports then Listed(s, plist + [port], tlist + [time], r) else Listed(s, plist, tlist, r)
    ensures port == 0 ==> Rank(port) + 1 == Rank(3)
    ensures port == 3 ==> Rank(port) + 1 == Rank(1)
    ensures port == 1 ==> Rank(port) + 1 == Rank(2)
    ensures port == 2 ==> Rank(port) + 1 == 4
  {
    hide PortTime;
    var r := Rank(port);
    forall q: nat | q <= 3 && q in s.activeports && Rank(q) < r + 1
      ensures q in plist + [port] && (q != port ==> q in plist)
    {
    }
  }

  lemma {:induction false} AllListed(s: Slave, plist: seq<int>, tlist: seq<int>)
    requires Listed(s, plist, tlist, 4) && {} != s.activeports <= {0, 1, 2, 3}
    ensures 1 <= |tlist| == |plist| <= 4 && forall k :: 0 <= k < |plist| ==> plist[k] >= 0
  {
    hide PortTime;
    var q :| q in s.activeports;
    assert q in plist;
  }

  lemma {:induction false} LowestEnters(s: Slave, plist: seq<int>, tlist: seq<int>, entry: nat)
    requires Listed(s, plist, tlist, 4) && s.activeports <= {0, 1, 2, 3} && entry < |tlist|
    requires forall k :: 0 <= k < |tlist| ==> tlist[entry] <= tlist[k]
    requires forall k :: 0 <= k < entry ==> tlist[entry] < tlist[k]
    ensures plist[entry] >= 0 && IsEntryPort(s, plist[entry])
  {
    hide PortTime;
    var port: nat := plist[entry];
    forall q: nat | q in s.activeports && q <= 3 && q != port
      ensures if Rank(q) < Rank(port) then PortTime(s.rt, port) < PortTime(s.rt, q)
              else PortTime(s.rt, port) <= PortTime(s.rt, q)
    {
      assert q in plist;
      var k :| 0 <= k < |plist| && plist[k] == q;
      assert tlist[k] == PortTime(s.rt, plist[k]);
    }
  }

  // ----- the function itself -----

  class Context {
    var slavelist: seq<Slave>
    var grouplist: seq<Group>

    constructor (slaves: seq<Slave>, groups: seq<Group>)
      ensures slavelist == slaves && grouplist == groups
    {
      slavelist, grouplist := slaves, groups;
    }

    method ParentPort(parent: nat) returns (port: nat)
      requires parent < |slavelist|
      modifies this`slavelist
      ensures port == FirstOpen(old(slavelist[parent].consumedports))
      ensures slavelist == Consume(old(slavelist), parent)
    {
      port := 0;
      var b := slavelist[parent].consumedports;
      if 3 in b {
        port, b := 3, b - {3};
      } else if 1 in b {
        port, b := 1, b - {1};
      } else if 2 in b {
        port, b := 2, b - {2};
      } else if 0 in b {
        port, b := 0, b - {0};
      } else {
        assert b == b - {0};
      }
      slavelist := slavelist[parent := slavelist[parent].(consumedports := b)];
    }

    /** The active ports and their time stamps, and the port with the lowest stamp. */
    method FindEntryPort(i: nat) returns (port: nat)
      requires i < |slavelist| && {} != slavelist[i].activeports <= {0, 1, 2, 3}
      ensures IsEntryPort(slavelist[i], port)
    {
      hide Listed, IsEntryPort;
      var active, rt := slavelist[i].activeports, slavelist[i].rt;
      var plist, tlist: seq<int> := [], [];
      NothingListed(slavelist[i]);
      ListNext(slavelist[i], plist, tlist, 0, rt.a);
      if 0 in active {
        plist, tlist := plist + [0], tlist + [rt.a];
      }
      ListNext(slavelist[i], plist, tlist, 3, rt.d);
      if 3 in active {
        plist, tlist := plist + [3], tlist + [rt.d];
      }
      ListNext(slavelist[i], plist, tlist, 1, rt.b);
      if 1 in active {
        plist, tlist := plist + [1], tlist + [rt.b];
      }
      ListNext(slavelist[i], plist, tlist, 2, rt.c);
      if 2 in active {
        plist, tlist := plist + [2], tlist + [rt.c];
      }
      AllListed(slavelist[i], plist, tlist);
      var entry := FirstLowest(tlist);
      port := plist[entry];
      LowestEnters(slavelist[i], plist, tlist, entry);
    }

    /** The first of up to four time stamps that none is lower than. */
    static method FirstLowest(tlist: seq<int>) returns (entry: nat)
      requires 1 <= |tlist| <= 4
      ensures entry < |tlist| && forall k :: 0 <= k < |tlist| ==> tlist[entry] <= tlist[k]
      ensures forall k :: 0 <= k < entry ==> tlist[entry] < tlist[k]
    {
      entry := 0;
      if |tlist| > 1 && tlist[1] < tlist[entry] {
        entry := 1;
      }
      if |tlist| > 2 && tlist[2] < tlist[entry] {
        entry := 2;
      }
      if |tlist| > 3 && tlist[3] < tlist[entry] {
        entry := 3;
      }
    }

    /** The slave list and groups after the call; `parenthold` and `prevDCslave` are its locals. */
    method ConfigDc(regs: seq<PortTimes>) returns (found: bool)
      requires Numbered(slavelist, grouplist) && |regs| == |slavelist|
      modifies this
      ensures |slavelist| == old(|slavelist|)
      ensures var end := Run(Initial(old(slavelist), old(grouplist)), regs, 1, |regs|);
              slavelist == end.slaves && grouplist == end.groups
      ensures Chained(slavelist, |slavelist|, LastClock(slavelist, |slavelist|))
      ensures SameCabling(old(slavelist), slavelist)
      ensures forall i :: 1 <= i < |slavelist| ==> HasRead(slavelist[i], regs[i])
      ensures forall f: nat :: FirstClock(slavelist, f) ==>
                && slavelist[f].group < |grouplist|
                && grouplist == old(grouplist[0 := grouplist[0].(hasdc := false)])[slavelist[f].group := Group(true, f)]
      ensures !found ==> grouplist == old(grouplist[0 := grouplist[0].(hasdc := false)])
      ensures found <==> exists k :: 1 <= k < |slavelist| && slavelist[k].hasdc
    {
      hide Step, ClockStep, PlainStep, Chained, LastClock, FirstClock, HasRead, SameCable;
      var parenthold, prevDCslave := 0, 0;
      slavelist := slavelist[0 := slavelist[0].(hasdc := false)];
      grouplist := grouplist[0 := grouplist[0].(hasdc := false)];
      ghost var start := State(slavelist, grouplist, 0, 0);
      var i := 1;
      while i < |slavelist|
        invariant 1 <= i <= |slavelist| == |regs|
        invariant Ready(State(slavelist, grouplist, prevDCslave, parenthold))
        invariant Run(State(slavelist, grouplist, prevDCslave, parenthold), regs, i, |regs|)
                  == Run(start, regs, 1, |regs|)
      {
        ghost var st := State(slavelist, grouplist, prevDCslave, parenthold);
        if slavelist[i].hasdc {
          WithClock(i, regs[i], prevDCslave, parenthold);
          parenthold, prevDCslave := 0, i;
        } else {
          parenthold := WithoutClock(i, prevDCslave, parenthold);
        }
        StepIs(st, i, regs[i]);
        i := i + 1;
      }
      found := slavelist[0].hasdc;
      Configured(old(slavelist), old(grouplist), regs);
    }

    method WithClock(i: nat, rt: PortTimes, prevDCslave: nat, ghost hold: nat)
      requires Ready(State(slavelist, grouplist, prevDCslave, hold)) && 1 <= i < |slavelist|
      modifies this
      ensures State(slavelist, grouplist, i, 0)
              == ClockStep(State(old(slavelist), old(grouplist), prevDCslave, hold), i, rt)
    {
      slavelist := slavelist[i := slavelist[i].(consumedports := slavelist[i].activeports)];
      if !slavelist[0].hasdc {
        slavelist := slavelist[0 := slavelist[0].(hasdc := true, dcnext := i)];
        slavelist := slavelist[i := slavelist[i].(dcprevious := 0)];
        grouplist := grouplist[slavelist[i].group := Group(true, i)];
      } else {
        slavelist := slavelist[prevDCslave := slavelist[prevDCslave].(dcnext := i)];
        slavelist := slavelist[i := slavelist[i].(dcprevious := prevDCslave)];
      }
      slavelist := slavelist[i := slavelist[i].(rt := rt)];
      ghost var listed := Enlist(State(old(slavelist), old(grouplist), prevDCslave, hold), i);
      ghost var s := listed.slaves[i].(rt := rt);
      var entryport := FindEntryPort(i);
      assert IsEntryPort(s, entryport);
      EntryPortUnique(s, entryport, EntryPort(s));
      slavelist := slavelist[i := slavelist[i].(entryport := entryport,
                                                consumedports := slavelist[i].consumedports - {entryport})];
      assert slavelist == listed.slaves[i := s.(entryport := entryport, consumedports := s.activeports - {entryport})];
      MeasureDelay(i);
    }

    method WithoutClock(i: nat, ghost prev: nat, hold: nat) returns (parenthold: nat)
      requires Ready(State(slavelist, grouplist, prev, hold)) && 1 <= i < |slavelist|
      modifies this
      ensures State(slavelist, grouplist, prev, parenthold)
              == PlainStep(State(old(slavelist), old(grouplist), prev, hold), i)
    {
      parenthold := hold;
      slavelist := slavelist[i := slavelist[i].(consumedports := slavelist[i].activeports)];
      slavelist := slavelist[i := slavelist[i].(rt := PortTimes(0, 0, 0, 0))];
      var parent := slavelist[i].parent;
      // a slave without a clock first on its branch holds the root parent
      if parent > 0 && slavelist[parent].topology > 2 {
        parenthold := parent;
      }
      // a branch without clocks uses up a port of the root parent
      if parenthold > 0 && slavelist[i].topology == 1 {
        var _ := ParentPort(parenthold);
        parenthold := 0;
      }
    }

    /** Find the parent with a clock and derive the delay of slave i from the latched times. */
    method MeasureDelay(i: nat)
      requires 1 <= i < |slavelist|
      requires forall k :: 1 <= k < |slavelist| ==> slavelist[k].parent < k
      modifies this`slavelist
      ensures slavelist == Measure(old(slavelist), i)
    {
      hide PortTime, PrevPort, Half;
      var child := i;
      var parent := slavelist[i].parent;
      while !(parent == 0 || slavelist[parent].hasdc)
        invariant 1 <= child <= i && parent == slavelist[child].parent
        invariant DcParent(slavelist, child) == DcParent(slavelist, i)
        decreases child
      {
        child := parent;
        parent := slavelist[parent].parent;
      }
      if parent > 0 { // the first slave has no delay
        var port := ParentPort(parent);
        slavelist := slavelist[i := slavelist[i].(parentport := port)];
        if slavelist[parent].topology == 1 {
          slavelist := slavelist[i := slavelist[i].(parentport := slavelist[parent].entryport)];
        }
        var s, p := slavelist[i], slavelist[parent];
        var dt1, dt2 := 0, 0;
        var dt3 := PortTime(p.rt, s.parentport) - PortTime(p.rt, PrevPort(p.activeports, s.parentport));
        if s.topology > 1 { // the time spent behind its own children does not count
          dt1 := PortTime(s.rt, PrevPort(s.activeports, s.entryport)) - PortTime(s.rt, s.entryport);
        }
        if dt1 > dt3 {
          dt1 := -dt1;
        }
        if child - parent > 1 { // the frame has been to the children before it
          dt2 := PortTime(p.rt, PrevPort(p.activeports, s.parentport)) - PortTime(p.rt, p.entryport);
        }
        if dt2 < 0 {
          dt2 := -dt2;
        }
        slavelist := slavelist[i := s.(pdelay := Half(dt3 - dt1) + dt2 + p.pdelay)];
      }
    }
  }
}
