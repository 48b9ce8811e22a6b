/** Parent search of ecx_config_init: rebuild the tree from the link counts alone. */
module Topology {
  import opened SlaveTree

  /** What one link count adds to the scan's counter: an end point closes a branch, a split
      point opens one, a cross point opens two. */
  function Weight(links: int): int {
    if links == 1 then -1 else if links == 3 then 1 else if links == 4 then 2 else 0
  }

  /** The counter after scanning slaves lo .. hi-1. */
  function Balance(links: seq<int>, lo: nat, hi: nat): int
    requires lo <= hi <= |links|
    decreases hi - lo
  {
    if lo == hi then 0 else Weight(links[lo]) + Balance(links, lo + 1, hi)
  }

  /** Slave j has an open port left when the slaves j+1 .. slave-1 are hung up below it. */
  predicate Open(links: seq<int>, j: nat, slave: nat)
    requires j < slave <= |links|
  {
    links[j] > 1 && Balance(links, j, slave) >= 0
  }

  /** p is the nearest slave before `slave` with an open port, or slave 1 when there is none. */
  predicate IsNearestOpen(links: seq<int>, slave: nat, p: nat)
    requires slave <= |links|
  {
    && 1 <= p < slave
    && (p == 1 || Open(links, p, slave))
    && forall j :: p < j < slave ==> !Open(links, j, slave)
  }

  /** The slave list; entry 0 is the master record. */
  class Context {
    var slavelist: seq<Slave>

    constructor (slaves: seq<Slave>)
      ensures slavelist == slaves
    {
      slavelist := slaves;
    }

    ghost function LinkCounts(): (links: seq<int>)
      reads this
      ensures |links| == |slavelist|
    {
      seq(|slavelist|, i requires 0 <= i < |slavelist| reads this => slavelist[i].topology)
    }

    /** The backward scan for the parent of one slave. */
    method SearchParent(slave: nat) returns (parent: nat)
      requires 1 <= slave < |slavelist|
      ensures slave == 1 ==> parent == 0
      ensures slave > 1 ==> IsNearestOpen(LinkCounts(), slave, parent)
    {
      parent := 0; // the master, if none is found
      if slave > 1 {
        var topoc := 0;
        var slavec := slave - 1;
        ghost var links := LinkCounts();
        while slavec > 0
          invariant 0 <= slavec < slave
          invariant slavec > 0 ==> topoc == Balance(links, slavec + 1, slave)
          invariant slavec > 0 ==> forall j :: slavec < j < slave ==> !Open(links, j, slave)
          invariant slavec == 0 ==> IsNearestOpen(links, slave, parent)
        {
          var topology := slavelist[slavec].topology;
          if topology == 1 {
            topoc := topoc - 1;
          }
          if topology == 3 {
            topoc := topoc + 1;
          }
          if topology == 4 {
            topoc := topoc + 2;
          }
          if (topoc >= 0 && topology > 1) || slavec == 1 { // a port is left for this slave
            parent := slavec;
            slavec := 1;
          }
          slavec := slavec - 1;
        }
      }
    }

    /** The slave loop of ecx_config_init, as far as the parent is concerned. */
    method FindParents()
      requires |slavelist| >= 1
      modifies this
      ensures |slavelist| == old(|slavelist|)
      ensures slavelist[0] == old(slavelist[0])
      ensures forall s :: 1 <= s < |slavelist| ==>
                slavelist[s] == old(slavelist[s]).(parent := slavelist[s].parent)
      ensures ParentsFound(slavelist)
    {
      var slave := 1;
      while slave < |slavelist|
        invariant 1 <= slave <= |slavelist| == old(|slavelist|)
        invariant slavelist[0] == old(slavelist[0])
        invariant LinkCounts() == old(LinkCounts())
        invariant forall s :: 1 <= s < slave ==>
                    && slavelist[s] == old(slavelist[s]).(parent := slavelist[s].parent)
                    && ParentFound(LinkCounts(), s, slavelist[s].parent)
        invariant forall s :: slave <= s < |slavelist| ==> slavelist[s] == old(slavelist[s])
      {
        var parent := SearchParent(slave);
        slavelist := slavelist[slave := slavelist[slave].(parent := parent)];
        slave := slave + 1;
      }
      assert LinkCounts() == Topologies(slavelist);
    }
  }

  function Topologies(slaves: seq<Slave>): (links: seq<int>)
    ensures |links| == |slaves|
  {
    seq(|slaves|, i requires 0 <= i < |slaves| => slaves[i].topology)
  }

  predicate ParentFound(links: seq<int>, s: nat, p: nat)
    requires s <= |links|
  {
    if s == 1 then p == 0 else IsNearestOpen(links, s, p)
  }

  /** The result of the parent search over a whole slave list. */
  ghost predicate ParentsFound(slaves: seq<Slave>) {
    forall s :: 1 <= s < |slaves| ==> ParentFound(Topologies(slaves), s, slaves[s].parent)
  }

  // ----- the search inverts the preorder listing -----

  lemma {:induction false} BalanceSplit(links: seq<int>, lo: nat, mid: nat, hi: nat)
    requires lo <= mid <= hi <= |links|
    ensures Balance(links, lo, hi) == Balance(links, lo, mid) + Balance(links, mid, hi)
    decreases mid - lo
  {
    if lo < mid {
      BalanceSplit(links, lo + 1, mid, hi);
    }
  }

  /** The slaves of `links` from `base` on are those of the forest, in frame order. */
  predicate Lists(links: seq<int>, base: nat, f: Forest)
    ensures Lists(links, base, f) ==> base + ForestSize(f) <= |links|
    decreases f
  {
    match f
    case Done => base <= |links|
    case Branch(_, _, child, more) =>
      && base < |links|
      && links[base] == 1 + Count(child.kids)
      && Lists(links, base + 1, child.kids)
      && Lists(links, base + Size(child), more)
  }

  /** Seen from `hi`, no slave of lo .. hi-1 has an open port left. */
  predicate AllClosed(links: seq<int>, lo: nat, hi: nat)
    requires hi <= |links|
  {
    forall j :: lo <= j < hi ==> Balance(links, j, hi) < 0
  }

  lemma {:induction false} AllClosedJoin(links: seq<int>, lo: nat, mid: nat, hi: nat)
    requires lo <= mid <= hi <= |links|
    requires AllClosed(links, lo, mid) && AllClosed(links, mid, hi) && Balance(links, mid, hi) <= 0
    ensures AllClosed(links, lo, hi)
  {
    forall j | lo <= j < hi
      ensures Balance(links, j, hi) < 0
    {
      if j < mid {
        BalanceSplit(links, j, mid, hi);
      }
    }
  }

  lemma {:induction false} NoneOpen(links: seq<int>, base: nat)
    requires base <= |links|
    ensures AllClosed(links, base, base) && Balance(links, base, base) == 0
  {
  }

  /** A slave whose branches are all listed closes one branch itself. */
  lemma {:induction false} NodeCloses(links: seq<int>, base: nat, mid: nat)
    requires base < mid <= |links| && AllClosed(links, base + 1, mid)
    requires Weight(links[base]) + Balance(links, base + 1, mid) == -1
    ensures AllClosed(links, base, mid) && Balance(links, base, mid) == -1
  {
  }

  /** A listed forest closes one branch per tree, and seen from its end no slave of it has an
      open port left. */
  lemma {:induction false} ForestCloses(links: seq<int>, base: nat, f: Forest)
    requires Lists(links, base, f) && FourPorts(f)
    ensures Balance(links, base, base + ForestSize(f)) == 0 - Count(f)
    ensures AllClosed(links, base, base + ForestSize(f))
    decreases f
  {
    hide AllClosed, Balance;
    NoneOpen(links, base);
    if f.Branch? {
      var mid := base + Size(f.child);
      ForestCloses(links, base + 1, f.child.kids);
      NodeCloses(links, base, mid);
      ForestCloses(links, mid, f.more);
      BalanceSplit(links, base, mid, base + ForestSize(f));
      AllClosedJoin(links, base, mid, base + ForestSize(f));
    }
  }

  /** The slaves from `base` on have the given nearest open slaves. */
  ghost predicate ScanFinds(links: seq<int>, base: nat, parents: seq<nat>)
    requires base + |parents| <= |links|
  {
    forall k :: 0 <= k < |parents| ==> IsNearestOpen(links, base + k, parents[k])
  }

  lemma {:induction false} ScanFindsJoin(links: seq<int>, base: nat, ps: seq<nat>, qs: seq<nat>)
    requires base + |ps| + |qs| <= |links|
    requires ScanFinds(links, base, ps) && ScanFinds(links, base + |ps|, qs)
    ensures ScanFinds(links, base, ps + qs)
  {
    forall k | 0 <= k < |ps + qs|
      ensures IsNearestOpen(links, base + k, (ps + qs)[k])
    {
      if k >= |ps| {
        assert IsNearestOpen(links, base + |ps| + (k - |ps|), qs[k - |ps|]);
      }
    }
  }

  /** The slave behind `done` complete branches of `par` finds `par`, if that has another port. */
  lemma {:induction false} FindsParent(links: seq<int>, base: nat, par: nat, done: nat)
    requires 1 <= par < base < |links| && 2 + done <= links[par] <= 4
    requires Balance(links, par + 1, base) == 0 - done && AllClosed(links, par + 1, base)
    ensures ScanFinds(links, base, [par])
  {
    assert IsNearestOpen(links, base, par);
  }

  /** One more complete branch. */
  lemma {:induction false} BranchDone(links: seq<int>, base: nat, f: Forest, par: nat, done: nat)
    requires f.Branch? && 1 <= par < base && Lists(links, base, f) && FourPorts(f)
    requires Balance(links, par + 1, base) == 0 - done && AllClosed(links, par + 1, base)
    ensures Balance(links, base + 1, base + 1) == 0 && AllClosed(links, base + 1, base + 1)
    ensures Balance(links, par + 1, base + Size(f.child)) == 0 - (done + 1)
    ensures AllClosed(links, par + 1, base + Size(f.child))
  {
    hide AllClosed, Balance;
    var mid := base + Size(f.child);
    NoneOpen(links, base + 1);
    ForestCloses(links, base + 1, f.child.kids);
    NodeCloses(links, base, mid);
    BalanceSplit(links, par + 1, base, mid);
    AllClosedJoin(links, par + 1, base, mid);
  }

  /** Scanning back from every slave of a forest that hangs below `par`, `done` of whose branches
      come before it, stops at the true parent. */
  lemma {:induction false} ScanFindsParents(links: seq<int>, base: nat, f: Forest, par: nat, done: nat)
    requires 1 <= par < base && Lists(links, base, f) && FourPorts(f)
    requires links[par] == 1 + done + Count(f) <= 4
    requires Balance(links, par + 1, base) == 0 - done
    requires AllClosed(links, par + 1, base)
    ensures ScanFinds(links, base, Parents(f, base, par))
    decreases f
  {
    hide AllClosed, Balance, ScanFinds;
    if f.Branch? {
      var mid := base + Size(f.child);
      var above, beside := Parents(f.child.kids, base + 1, base), Parents(f.more, mid, par);
      BranchDone(links, base, f, par, done);
      FindsParent(links, base, par, done);
      ScanFindsParents(links, base + 1, f.child.kids, base, 0);
      ScanFindsJoin(links, base, [par], above);
      ScanFindsParents(links, mid, f.more, par, done + 1);
      ScanFindsJoin(links, base, [par] + above, beside);
    } else {
      NoneFound(links, base);
    }
  }

  lemma {:induction false} NoneFound(links: seq<int>, base: nat)
    requires base <= |links|
    ensures ScanFinds(links, base, [])
  {
  }

  /** The nearest open slave is unique. */
  lemma {:induction false} NearestOpenUnique(links: seq<int>, slave: nat, p: nat, q: nat)
    requires slave <= |links| && IsNearestOpen(links, slave, p) && IsNearestOpen(links, slave, q)
    ensures p == q
  {
  }

  /** For every tree with at most four ports a slave, listed in frame order, the search returns
      every slave's true parent. */
  lemma {:induction false} SearchInvertsPreorder(root: Tree, slaves: seq<Slave>)
    requires |slaves| == 1 + Size(root)
    requires Lists(Topologies(slaves), 1, Branch(0, 0, root, Done))
    requires FourPorts(Branch(0, 0, root, Done))
    requires ParentsFound(slaves)
    ensures forall s :: 1 <= s < |slaves| ==> slaves[s].parent == Parents(Branch(0, 0, root, Done), 1, 0)[s - 1]
  {
    var links := Topologies(slaves);
    ScanFindsParents(links, 2, root.kids, 1, 0);
    var below := Parents(root.kids, 2, 1);
    assert Parents(Branch(0, 0, root, Done), 1, 0) == [0] + below;
    forall s | 2 <= s < |slaves|
      ensures slaves[s].parent == below[s - 2]
    {
      assert IsNearestOpen(links, 2 + (s - 2), below[s - 2]);
      NearestOpenUnique(links, s, slaves[s].parent, below[s - 2]);
    }
  }
}
