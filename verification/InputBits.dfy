/** Inputs bit by bit: when does it make a difference whether they are read with LRW or with LRD? */
module InputBits {
  import opened B = Bytes
  import opened Mapping
  import opened Segments
  import opened MapGroup
  import opened MapLayout
  import PD = ProcessData
  import L = LogicalExchange
  import RW = ReadWriteExchange

  // ----- bits of a byte -----

  function Weight(k: nat): nat
    requires k < 8
  {
    if k == 0 then 1 else if k == 1 then 2 else if k == 2 then 4 else if k == 3 then 8
    else if k == 4 then 16 else if k == 5 then 32 else if k == 6 then 64 else 128
  }

  predicate Bit(b: byte, k: nat)
    requires k < 8
  {
    b / Weight(k) % 2 == 1
  }

  function One(v: bool): nat { if v then 1 else 0 }

  function FromBits(b0: bool, b1: bool, b2: bool, b3: bool, b4: bool, b5: bool, b6: bool, b7: bool): byte {
    One(b0) + 2 * One(b1) + 4 * One(b2) + 8 * One(b3) + 16 * One(b4) + 32 * One(b5) + 64 * One(b6) + 128 * One(b7)
  }

  /** What is left of a byte without its last k bits. */
  function Rest(b: byte, k: nat): nat
    requires k <= 8
  {
    if k == 8 then 0 else b / Weight(k)
  }

  lemma {:induction false} BitIs(b: byte, k: nat)
    requires k < 8
    ensures Rest(b, 0) == b && Rest(b, 8) == 0 && Rest(b, k) == 2 * Rest(b, k + 1) + One(Bit(b, k))
  {
  }

  lemma {:induction false} BitsOf(b0: bool, b1: bool, b2: bool, b3: bool, b4: bool, b5: bool, b6: bool, b7: bool)
    ensures var b := FromBits(b0, b1, b2, b3, b4, b5, b6, b7);
            && Bit(b, 0) == b0 && Bit(b, 1) == b1 && Bit(b, 2) == b2 && Bit(b, 3) == b3
            && Bit(b, 4) == b4 && Bit(b, 5) == b5 && Bit(b, 6) == b6 && Bit(b, 7) == b7
  {
    var b := FromBits(b0, b1, b2, b3, b4, b5, b6, b7);
    assert b % 2 == One(b0);
    assert b / 2 == One(b1) + 2 * One(b2) + 4 * One(b3) + 8 * One(b4) + 16 * One(b5) + 32 * One(b6) + 64 * One(b7);
    assert b / 4 == One(b2) + 2 * One(b3) + 4 * One(b4) + 8 * One(b5) + 16 * One(b6) + 32 * One(b7);
    assert b / 8 == One(b3) + 2 * One(b4) + 4 * One(b5) + 8 * One(b6) + 16 * One(b7);
    assert b / 16 == One(b4) + 2 * One(b5) + 4 * One(b6) + 8 * One(b7);
    assert b / 32 == One(b5) + 2 * One(b6) + 4 * One(b7);
    assert b / 64 == One(b6) + 2 * One(b7);
    assert b / 128 == One(b7);
  }

  lemma {:induction false} SameRest(b: byte, c: byte, k: nat)
    requires k <= 8 && forall j :: k <= j < 8 ==> Bit(b, j) == Bit(c, j)
    ensures Rest(b, k) == Rest(c, k)
    decreases 8 - k
  {
    hide Bit, Rest, Weight;
    BitIs(b, if k < 8 then k else 7);
    BitIs(c, if k < 8 then k else 7);
    if k < 8 {
      SameRest(b, c, k + 1);
    }
  }

  lemma {:induction false} SameBits(b: byte, c: byte)
    ensures b == c <==> forall k :: 0 <= k < 8 ==> Bit(b, k) == Bit(c, k)
  {
    hide Bit, Rest;
    BitIs(b, 0);
    BitIs(c, 0);
    if forall k :: 0 <= k < 8 ==> Bit(b, k) == Bit(c, k) {
      SameRest(b, c, 0);
    }
  }

  // ----- slaves that answer in the bits they are mapped to -----

  predicate Covered(runs: seq<Run>, x: nat) { exists i :: 0 <= i < |runs| && runs[i].from <= x < runs[i].to }

  /** A bit that some slave is mapped to becomes the slave's, any other passes. */
  predicate BitAfter(runs: seq<Run>, value: nat -> bool, a: nat, b: byte, k: nat)
    requires k < 8
  {
    if Covered(runs, 8 * a + k) then value(8 * a + k) else Bit(b, k)
  }

  function Merged(runs: seq<Run>, value: nat -> bool, a: nat, b: byte): byte {
    FromBits(BitAfter(runs, value, a, b, 0), BitAfter(runs, value, a, b, 1), BitAfter(runs, value, a, b, 2),
             BitAfter(runs, value, a, b, 3), BitAfter(runs, value, a, b, 4), BitAfter(runs, value, a, b, 5),
             BitAfter(runs, value, a, b, 6), BitAfter(runs, value, a, b, 7))
  }

  /** The slaves on the bus are mapped to these runs and report these values. */
  ghost predicate Answers(bus: L.Bus, runs: seq<Run>, value: nat -> bool) {
    forall a, b :: bus.insert(a, b) == Merged(runs, value, a, b)
  }

  lemma {:induction false} MergedBit(runs: seq<Run>, value: nat -> bool, a: nat, b: byte, k: nat)
    requires k < 8
    ensures Bit(Merged(runs, value, a, b), k) == BitAfter(runs, value, a, b, k)
  {
    hide Bit, BitAfter, FromBits;
    BitsOf(BitAfter(runs, value, a, b, 0), BitAfter(runs, value, a, b, 1), BitAfter(runs, value, a, b, 2),
           BitAfter(runs, value, a, b, 3), BitAfter(runs, value, a, b, 4), BitAfter(runs, value, a, b, 5),
           BitAfter(runs, value, a, b, 6), BitAfter(runs, value, a, b, 7));
  }

  /** What was in a byte before matters only in the bits no slave is mapped to. */
  lemma {:induction false} SameMerged(runs: seq<Run>, value: nat -> bool, a: nat, b: byte)
    ensures Merged(runs, value, a, b) == Merged(runs, value, a, 0) <==>
            forall k :: 0 <= k < 8 && !Covered(runs, 8 * a + k) ==> !Bit(b, k)
  {
    var c, d := Merged(runs, value, a, b), Merged(runs, value, a, 0);
    SameBits(c, d);
    forall k | 0 <= k < 8
      ensures Bit(c, k) == Bit(d, k) <==> (!Covered(runs, 8 * a + k) ==> !Bit(b, k))
    {
      MergedBit(runs, value, a, b, k);
      MergedBit(runs, value, a, 0, k);
      hide Merged, Covered;
    }
  }

  // ----- the bits no slave is mapped to -----

  /** The bit was skipped to get to a byte edge, or lies behind the last run. */
  predicate Gap(runs: seq<Run>, end: nat, x: nat) {
    x >= end || exists i :: 0 <= i < |runs| && runs[i].c <= x < runs[i].from
  }

  lemma {:induction false} GapIff(slaves: seq<Slave>, kind: Kind, order: seq<nat>, runs: seq<Run>, start: nat,
                                  end: nat, x: nat)
    requires AllSized(slaves) && LaidOut(slaves, kind, order, runs, start, end) && start <= x
    ensures Covered(runs, x) <==> !Gap(runs, end, x)
    decreases |runs|
  {
    hide Allotted;
    if runs != [] {
      var n := |runs| - 1;
      var r := runs[n];
      RunsEnd(slaves, kind, order, runs, start, end);
      RunsEnd(slaves, kind, order[..n], runs[..n], start, r.c);
      assert forall i :: 0 <= i < n ==> runs[..n][i] == runs[i];
      if x < r.c {
        GapIff(slaves, kind, order[..n], runs[..n], start, r.c, x);
      } else {
        hide LaidOut;
        assert Covered(runs, x) <==> r.from <= x < r.to;
      }
    }
  }

  lemma {:induction false} RunsEnd(slaves: seq<Slave>, kind: Kind, order: seq<nat>, runs: seq<Run>, start: nat,
                                   end: nat)
    requires AllSized(slaves) && LaidOut(slaves, kind, order, runs, start, end)
    ensures forall i :: 0 <= i < |runs| ==> runs[i].c <= runs[i].from <= runs[i].to <= end
  {
    hide LaidOut, Allotted;
    forall i | 0 <= i < |runs| ensures runs[i].c <= runs[i].from <= runs[i].to <= end {
      Prefix(slaves, kind, order, runs, start, end, i);
    }
  }

  /** The bits of a byte that no slave is mapped to are 0. */
  predicate Clear(runs: seq<Run>, a: nat, b: byte) {
    forall k :: 0 <= k < 8 && !Covered(runs, 8 * a + k) ==> !Bit(b, k)
  }

  /** In the input area of the IO map every bit in a gap is 0.  Bit x of logical memory is bit x % 8 of byte
      x / 8 - logstartaddr of the map. */
  predicate GapsClear(g: PD.Group, runs: seq<Run>, end: nat, map0: seq<byte>)
    requires g.Obytes + g.Ibytes <= |map0|
  {
    forall p :: g.Obytes <= p < g.Obytes + g.Ibytes ==> GapBitsClear(runs, end, g.logstartaddr + p, map0[p])
  }

  /** The bits of a byte that lie in gaps are 0. */
  predicate GapBitsClear(runs: seq<Run>, end: nat, a: nat, b: byte) {
    forall k :: 0 <= k < 8 && Gap(runs, end, 8 * a + k) ==> !Bit(b, k)
  }

  lemma {:induction false} ClearIff(slaves: seq<Slave>, kind: Kind, order: seq<nat>, runs: seq<Run>, start: nat,
                                    end: nat, g: PD.Group, map0: seq<byte>)
    requires AllSized(slaves) && LaidOut(slaves, kind, order, runs, start, end)
    requires start == 8 * (g.logstartaddr + g.Obytes) && g.Obytes + g.Ibytes <= |map0|
    ensures (forall p :: g.Obytes <= p < g.Obytes + g.Ibytes ==> Clear(runs, g.logstartaddr + p, map0[p])) <==>
            GapsClear(g, runs, end, map0)
  {
    hide LaidOut, Bit, Covered, Gap;
    forall p: nat | g.Obytes <= p < g.Obytes + g.Ibytes
      ensures Clear(runs, g.logstartaddr + p, map0[p]) <==> GapBitsClear(runs, end, g.logstartaddr + p, map0[p])
    {
      var a := g.logstartaddr + p;
      forall k | 0 <= k < 8
        ensures (!Covered(runs, 8 * a + k) ==> !Bit(map0[p], k)) <==> (Gap(runs, end, 8 * a + k) ==> !Bit(map0[p], k))
      {
        GapIff(slaves, kind, order, runs, start, end, 8 * a + k);
      }
    }
  }

  /** LRD in place of LRW leaves the same input bytes exactly when the gaps of the input area were 0 in the IO
      map before: LRW sends what is there and gets it back, LRD sends zeros. */
  lemma {:induction false} BlockedSameIff(slaves: seq<Slave>, g: PD.Group, group: nat, slaves': seq<Slave>,
                                          g': PD.Group, oruns: seq<Run>, oend: nat, iruns: seq<Run>, iend: nat,
                                          bus: L.Bus, value: nat -> bool, map0: seq<byte>, iomap: seq<byte>)
    requires AllSized(slaves) && |g.IOsegment| == EC_MAXIOSEGMENTS
    requires GroupMapped(slaves, g, group, slaves', g', oruns, oend, iruns, iend)
    requires Answers(bus, iruns, value) && g'.Obytes + g'.Ibytes <= |iomap| == |map0|
    ensures g'.outputs == 0 && g'.inputs == g'.Obytes
    ensures (forall p :: g'.inputs <= p < g'.inputs + g'.Ibytes ==>
               RW.AfterLrw(g', bus, map0, iomap)[p] == RW.AfterLrd(g', bus, iomap)[p]) <==>
            GapsClear(g', iruns, iend, map0)
  {
    hide After, PackAll, Steps, AnyBlocks, LaidOut, Chosen, RW.AfterLrw, RW.AfterLrd, Merged, Clear, GapsClear, Bit;
    ClearIff(slaves, Input, Chosen(slaves, Input, group, |slaves|), iruns, AlignUp(oend), iend, g', map0);
    forall p: nat | g'.inputs <= p < g'.inputs + g'.Ibytes
      ensures RW.AfterLrw(g', bus, map0, iomap)[p] == RW.AfterLrd(g', bus, iomap)[p] <==>
                Clear(iruns, g'.logstartaddr + p, map0[p])
    {
      RW.InputByte(g', bus, map0, iomap, p);
      MergedClear(iruns, value, g'.logstartaddr + p, map0[p]);
    }
  }

  lemma {:induction false} MergedClear(runs: seq<Run>, value: nat -> bool, a: nat, b: byte)
    ensures Merged(runs, value, a, b) == Merged(runs, value, a, 0) <==> Clear(runs, a, b)
  {
    hide Merged, Covered, Bit;
    SameMerged(runs, value, a, b);
  }

  // ----- maps with gaps, and without -----

  lemma {:induction false} NoGaps(slaves: seq<Slave>, kind: Kind, order: seq<nat>, runs: seq<Run>, start: nat, end: nat)
    requires AllSized(slaves) && LaidOut(slaves, kind, order, runs, start, end) && start % 8 == 0
    requires forall k :: 0 <= k < |slaves| ==> Bits(slaves[k], kind) == 0 || Bytes(slaves[k], kind) > 0
    requires forall i :: 0 <= i < |order| ==> order[i] < |slaves| && Bits(slaves[order[i]], kind) > 0
    ensures end % 8 == 0 && forall i :: 0 <= i < |runs| ==> runs[i].c == runs[i].from
    decreases |runs|
  {
    hide Started, Offered;
    if runs != [] {
      var n := |runs| - 1;
      NoGaps(slaves, kind, order[..n], runs[..n], start, runs[n].c);
      assert forall i :: 0 <= i < n ==> runs[..n][i] == runs[i];
    }
  }

  lemma {:induction false} ChosenHaveBits(slaves: seq<Slave>, kind: Kind, group: nat, n: nat)
    requires n <= |slaves|
    ensures forall i :: 0 <= i < |Chosen(slaves, kind, group, n)| ==>
              Bits(slaves[Chosen(slaves, kind, group, n)[i]], kind) > 0
  {
    if n > 0 {
      ChosenHaveBits(slaves, kind, group, n - 1);
    }
  }

  /** With byte oriented inputs only it makes no difference whether LRW is blocked. */
  lemma {:induction false} ByteInputsSame(slaves: seq<Slave>, g: PD.Group, group: nat, slaves': seq<Slave>,
                                          g': PD.Group, oruns: seq<Run>, oend: nat, iruns: seq<Run>, iend: nat,
                                          map0: seq<byte>)
    requires AllSized(slaves) && |g.IOsegment| == EC_MAXIOSEGMENTS
    requires GroupMapped(slaves, g, group, slaves', g', oruns, oend, iruns, iend) && g'.Obytes + g'.Ibytes <= |map0|
    requires forall k :: 0 <= k < |slaves| ==> slaves[k].Ibits == 0 || slaves[k].Ibytes > 0
    ensures GapsClear(g', iruns, iend, map0)
  {
    hide After, PackAll, Steps, AnyBlocks, LaidOut, Chosen, Bit;
    ChosenHaveBits(slaves, Input, group, |slaves|);
    NoGaps(slaves, Input, Chosen(slaves, Input, group, |slaves|), iruns, AlignUp(oend), iend);
  }

  /** One slave with three input bits leaves five bits of its byte in a gap.  With a 1 in one of them, LRW
      brings it back and LRD does not. */
  lemma {:induction false} ThreeBitsDiffer(slaves: seq<Slave>, g: PD.Group, slaves': seq<Slave>, g': PD.Group,
                                           oruns: seq<Run>, oend: nat, iruns: seq<Run>, iend: nat, bus: L.Bus,
                                           value: nat -> bool, map0: seq<byte>, iomap: seq<byte>)
    requires |slaves| == 1 && Sized(slaves[0]) && slaves[0].Obits == 0 && slaves[0].Ibits == 3
    requires AllSized(slaves) && |g.IOsegment| == EC_MAXIOSEGMENTS && g.logstartaddr == 0
    requires GroupMapped(slaves, g, 0, slaves', g', oruns, oend, iruns, iend)
    requires Answers(bus, iruns, value) && |iomap| == |map0| == 1 && map0[0] == 0x20
    ensures g'.Obytes == 0 && g'.Ibytes == 1 && g'.outputs == 0 && g'.inputs == 0
    ensures RW.AfterLrw(g', bus, map0, iomap)[0] != RW.AfterLrd(g', bus, iomap)[0]
  {
    hide After, PackAll, Steps, AnyBlocks, Started, Offered, RW.AfterLrw, RW.AfterLrd;
    assert Chosen(slaves, Output, 0, 1) == [] && Chosen(slaves, Input, 0, 1) == [0];
    Prefix(slaves, Input, [0], iruns, 0, iend, 0);
    assert iend == 3;
    BlockedSameIff(slaves, g, 0, slaves', g', oruns, oend, iruns, iend, bus, value, map0, iomap);
    assert Gap(iruns, iend, 8 * 0 + 5) && Bit(map0[0], 5);
    assert !GapBitsClear(iruns, iend, g'.logstartaddr + 0, map0[0]);
  }
}
