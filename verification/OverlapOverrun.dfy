/** A slave whose overlapped map, with LRW blocked, is read from the wrong addresses and beyond its end. */
module OverlapOverrun {
  import opened Mapping
  import opened Segments
  import opened MapGroup
  import opened MapOverlap
  import opened OverlapLayout
  import B = Bytes
  import PD = ProcessData
  import L = LogicalExchange
  import OB = OverlapBlocked

  /** Two bytes of output, one of input, and no LRW. */
  function NoLrw(): Slave {
    var none := Sm(0, 0, 0);
    Slave(16, 2, Null, 0, 8, 1, Null, 0,
          [none, none, Sm(0x1100, 2, 3), Sm(0x1180, 1, 4), none, none, none, none], [], 0, true)
  }

  function OutFmmu(start: nat): Fmmu { Fmmu(start, 2, 0, 7, 0x1100, Output, true) }

  function InFmmu(start: nat): Fmmu { Fmmu(start, 1, 0, 7, 0x1180, Input, true) }

  lemma {:induction false} OneByteIn(start: nat)
    ensures Allotted(NoLrw(), Input, [InFmmu(start)], 8 * start, 8 * start, 8 * start + 8)
  {
    var s, f := NoLrw(), InFmmu(start);
    assert NextOfType(s.SM, 3, 4) == 3 && NextOfType(s.SM, 2, 4) == 3;
    assert NextOfType(s.SM, 1, 4) == 3 && NextOfType(s.SM, 0, 4) == 3;
    assert Offered(s.SM, 1, 4) == 0 && Offered(s.SM, 2, 4) == 0;
    assert Offered(s.SM, 3, 4) == 0 && Offered(s.SM, 4, 4) == 1;
    assert Offered(s.SM, 6, 4) == 1;
    assert Offered(s.SM, 7, 4) == 1;
    assert [f][..0] == [] && First(f) == 8 * start && Behind(f) == 8 * start + 8;
    assert Chain([f], 8 * start, 8 * start + 8);
    assert Started(s, Input, [f], 8 * start, 8 * start + 8);
  }

  lemma {:induction false} NoLrwFills(start: nat)
    ensures Sized(NoLrw())
    ensures Fills(NoLrw(), Slot(0, start, [OutFmmu(start)], start + 2, [InFmmu(start)], start + 1))
  {
    hide Allotted;
    TwoBytesOut(NoLrw(), start, OutFmmu(start));
    OneByteIn(start);
    assert AlignUp(8 * start + 16) == 8 * (start + 2) && AlignUp(8 * start + 8) == 8 * (start + 1);
  }

  lemma {:induction false} OneSegment(st: Segmenter)
    requires Empty(st)
    ensures PackAll(st, [2]).List() == [2] && PD.Sum([2]) == 2
  {
    assert [2][..0] == [] && PackAll(st, []) == st;
  }

  /** Its map has three bytes, and one segment. */
  lemma {:induction false} NoLrwMap(g: PD.Group) returns (slaves': seq<Slave>, g': PD.Group, slots: seq<Slot>)
    requires |g.IOsegment| == EC_MAXIOSEGMENTS
    ensures AllSized([NoLrw()]) && OverlapMapped([NoLrw()], g, 0, slaves', g', slots, g.logstartaddr + 2)
    ensures g'.Obytes == 2 && g'.Ibytes == 1 && g'.outputs == 0 && g'.blockLRW && OB.Overlapped(g')
    ensures g'.IOsegment[..g'.nsegments] == [2]
  {
    hide PackAll, OverlapMapped, Fills, L.Mapped;
    var slaves, start := [NoLrw()], g.logstartaddr;
    var t := Slot(0, start, [OutFmmu(start)], start + 2, [InFmmu(start)], start + 1);
    slots := [t];
    NoLrwFills(start);
    assert Members(slaves, 0, 1) == [0] by { assert Members(slaves, 0, 0) == []; }
    OneSlot(slaves, t);
    slaves', g' := MapFor(slaves, g, 0, slots, start + 2);
    assert AnyBlocks(slaves, 0, 1);
    OverlapPlaces(slaves, g, 0, slaves', g', slots, start + 2);
    OverlapList(slaves, g, 0, slaves', g', slots, start + 2);
    assert SlotSteps(slots) == [2];
    OneSegment(Unsegmented(g));
    OverlapListMapped(g', [2]);
  }

  /** A blocked cycle over it reads two bytes into the one there is, and not from where its input is. */
  lemma {:induction false} BlockedOverrun(g: PD.Group) returns (slaves': seq<Slave>, g': PD.Group, slots: seq<Slot>)
    requires |g.IOsegment| == EC_MAXIOSEGMENTS
    ensures AllSized([NoLrw()]) && OverlapMapped([NoLrw()], g, 0, slaves', g', slots, g.logstartaddr + 2)
    ensures OB.Overlapped(g') && g'.blockLRW && g'.Obytes + g'.Ibytes == 3
    ensures OB.Covered(PD.ReadJobs(g')) == 2 && g'.inputs == 2 && !L.Inside(PD.Plan(g', true), 3)
    ensures !forall bus: L.Bus :: OB.InputsRight(g', bus, B.Zeros(4), B.Zeros(4))
  {
    hide OverlapMapped, L.Mapped, PD.Plan, PD.ReadJobs, L.Inside, OB.InputsRight, OB.Covered;
    slaves', g', slots := NoLrwMap(g);
    NotAfterOne();
    InputsBehind(g');
    OB.ReadCovers(g');
    OB.BlockedInsideIff(g');
    OB.RightIff(g', B.Zeros(4), B.Zeros(4));
  }

  lemma {:induction false} NotAfterOne()
    ensures !OB.EndsAt([2], 1)
  {
    OB.OneLength([2], 1);
  }

  lemma {:induction false} InputsBehind(g: PD.Group)
    requires L.Mapped(g, true) && g.outputs == 0
    ensures g.inputs == g.Obytes
  {
  }
}
