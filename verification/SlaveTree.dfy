/** The cabling of an EtherCAT network as a tree, and the slave records the master keeps about it.

    Slaves are numbered from 1 in the order a frame processes them, which is the preorder of the
    tree; number 0 is the master.  A slave is entered by port 0, and the slaves below it hang off
    its other ports. */
module SlaveTree {

  /** A slave: its local clock offset, whether it has a distributed clock, and the branches below it, in the order
      a frame takes them. */
  datatype Tree = Node(clock: int, hasdc: bool, kids: Forest)

  /** The branches still to be visited: the port, the one-way cable delay, and what is behind it. */
  datatype Forest = Done | Branch(port: nat, cable: nat, child: Tree, more: Forest)

  /** The latched receive times of the four ports (DCrtA .. DCrtD). */
  datatype PortTimes = PortTimes(a: int, b: int, c: int, d: int)

  /** The part of ec_slavet that the parent search and the clock configuration read and write.
      A port bitmap is the set of the port numbers whose bit is set. */
  datatype Slave = Slave(
    topology: int, activeports: set<nat>, consumedports: set<nat>,
    parent: nat, parentport: nat, entryport: nat,
    hasdc: bool, rt: PortTimes, pdelay: int, dcnext: nat, dcprevious: nat, group: nat)

  function Size(t: Tree): nat {
    1 + ForestSize(t.kids)
  }

  function ForestSize(f: Forest): nat {
    match f
    case Done => 0
    case Branch(_, _, child, more) => Size(child) + ForestSize(more)
  }

  /** The number of trees side by side in a forest. */
  function Count(f: Forest): nat {
    match f
    case Done => 0
    case Branch(_, _, _, more) => 1 + Count(more)
  }

  /** Every slave has at most four ports, one of which leads back to the master. */
  predicate FourPorts(f: Forest) {
    match f
    case Done => true
    case Branch(_, _, child, more) => Count(child.kids) <= 3 && FourPorts(child.kids) && FourPorts(more)
  }

  /** The parent of every slave of a forest, in frame order, when the forest hangs below slave
      `par` and its first slave has number `base`. */
  function Parents(f: Forest, base: nat, par: nat): (parents: seq<nat>)
    ensures |parents| == ForestSize(f)
  {
    match f
    case Done => []
    case Branch(_, _, child, more) =>
      [par] + Parents(child.kids, base + 1, base) + Parents(more, base + Size(child), par)
  }
}
