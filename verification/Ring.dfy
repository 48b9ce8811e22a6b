/** A ring of slaves between two network interfaces, which may be cut in one place. */
module Ring {
  import opened Bytes

  /** What a slave does to a passing frame. */
  type Node = seq<byte> -> seq<byte>

  /** The cable between slave k and slave k + 1 is cut; slave 0 is the primary interface, the one behind
      the last slave is the secondary. */
  datatype Cable = Whole | CutAfter(k: nat)

  datatype Side = Primary | Secondary

  /** Slaves from + 1 .. to process the frame, in this order. */
  function Process(nodes: seq<Node>, from: nat, to: nat, p: seq<byte>): seq<byte>
    requires from <= to <= |nodes|
  {
    if from == to then p else nodes[to - 1](Process(nodes, from, to - 1, p))
  }

  lemma {:induction false} ProcessOn(nodes: seq<Node>, from: nat, mid: nat, to: nat, p: seq<byte>)
    requires from <= mid <= to <= |nodes|
    ensures Process(nodes, mid, to, Process(nodes, from, mid, p)) == Process(nodes, from, to, p)
  {
    if mid < to {
      ProcessOn(nodes, from, mid, to - 1, p);
    }
  }

  datatype Arrival = Lost | At(side: Side, payload: seq<byte>)

  /** How many cables are still ahead of a frame about to cross cable j. */
  function Ahead(n: nat, cable: Cable, j: nat, forward: bool): (r: nat)
    requires j <= n && (cable.CutAfter? ==> cable.k <= n)
  {
    match cable
    case Whole => if forward then n - j else j
    case CutAfter(k) =>
      if forward then (if j <= k then 2 * k + 1 - j else n - j) else (if j >= k then j - k + n - k + 1 else j)
  }

  /** A frame is about to cross cable j.  Going forward, the slave behind it processes the frame, going
      back it only passes it on.  At a cut the slave's port is closed: the frame turns around inside the
      slave, and one that turns from back to forward is processed on the way. */
  function Travel(nodes: seq<Node>, cable: Cable, j: nat, forward: bool, p: seq<byte>): Arrival
    requires j <= |nodes| && (cable.CutAfter? ==> cable.k <= |nodes|)
    decreases Ahead(|nodes|, cable, j, forward)
  {
    var n := |nodes|;
    if cable == CutAfter(j) then
      if forward then (if j == 0 then Lost else Travel(nodes, cable, j - 1, false, p))
      else if j == n then Lost else Travel(nodes, cable, j + 1, true, nodes[j](p))
    else if forward then (if j == n then At(Secondary, p) else Travel(nodes, cable, j + 1, true, nodes[j](p)))
    else if j == 0 then At(Primary, p) else Travel(nodes, cable, j - 1, false, p)
  }

  /** What becomes of a frame that an interface sends. */
  function Sent(nodes: seq<Node>, cable: Cable, side: Side, p: seq<byte>): Arrival
    requires cable.CutAfter? ==> cable.k <= |nodes|
  {
    if side.Primary? then Travel(nodes, cable, 0, true, p) else Travel(nodes, cable, |nodes|, false, p)
  }

  lemma {:induction false} Forward(nodes: seq<Node>, cable: Cable, j: nat, to: nat, p: seq<byte>)
    requires j <= to <= |nodes| && (cable.CutAfter? ==> cable.k <= |nodes| && (cable.k < j || to <= cable.k))
    ensures Travel(nodes, cable, j, true, p) == Travel(nodes, cable, to, true, Process(nodes, j, to, p))
  {
    if j < to {
      Forward(nodes, cable, j, to - 1, p);
    }
  }

  lemma {:induction false} Back(nodes: seq<Node>, cable: Cable, j: nat, to: nat, p: seq<byte>)
    requires to <= j <= |nodes| && (cable.CutAfter? ==> cable.k <= |nodes| && (j < cable.k || cable.k <= to))
    ensures Travel(nodes, cable, j, false, p) == Travel(nodes, cable, to, false, p)
    decreases j
  {
    if to < j {
      Back(nodes, cable, j - 1, to, p);
    }
  }

  /** In a whole ring a frame from the primary side is processed by all slaves and comes out at the
      secondary side; behind a cut it comes back, processed by the slaves before the cut. */
  lemma {:induction false} FromPrimary(nodes: seq<Node>, cable: Cable, p: seq<byte>)
    requires cable.CutAfter? ==> cable.k <= |nodes|
    ensures Sent(nodes, cable, Primary, p) ==
            match cable
            case Whole => At(Secondary, Process(nodes, 0, |nodes|, p))
            case CutAfter(k) => if k == 0 then Lost else At(Primary, Process(nodes, 0, k, p))
  {
    var to := if cable.CutAfter? then cable.k else |nodes|;
    Forward(nodes, cable, 0, to, p);
    if cable.CutAfter? && to > 0 {
      Back(nodes, cable, to - 1, 0, Process(nodes, 0, to, p));
    }
  }

  /** In a whole ring a frame from the secondary side comes out at the primary side as it was sent; behind
      a cut it comes back, processed by the slaves behind the cut. */
  lemma {:induction false} FromSecondary(nodes: seq<Node>, cable: Cable, p: seq<byte>)
    requires cable.CutAfter? ==> cable.k <= |nodes|
    ensures Sent(nodes, cable, Secondary, p) ==
            match cable
            case Whole => At(Primary, p)
            case CutAfter(k) => if k == |nodes| then Lost else At(Secondary, Process(nodes, k, |nodes|, p))
  {
    var to := if cable.CutAfter? then cable.k else 0;
    Back(nodes, cable, |nodes|, to, p);
    if cable.CutAfter? && to < |nodes| {
      Forward(nodes, cable, to + 1, |nodes|, nodes[to](p));
      ProcessOn(nodes, to, to + 1, |nodes|, p);
      assert Process(nodes, to, to + 1, p) == nodes[to](p);
    }
  }
}
