/** What a cycle over an overlapped map does when LRW is blocked: it reads the inputs from the wrong
    logical addresses, and maybe too many of them. */
module OverlapBlocked {
  import opened Bytes
  import opened Datagram
  import opened ProcessData
  import opened LogicalExchange
  import opened ReadWriteExchange

  /** How many bytes a segment loop sends that ends when nothing is left, or when no segment is. */
  function Amount(lens: seq<nat>, rest: int): nat
    requires lens != []
  {
    lens[0] + if rest - lens[0] != 0 && |lens| > 1 then Amount(lens[1..], rest - lens[0]) else 0
  }

  lemma {:induction false} AmountTiles(lens: seq<nat>, addr: nat, off: nat, rest: int)
    requires lens != []
    ensures Tiles(Cut(lens, addr, off, rest, false), addr, off, Amount(lens, rest))
  {
    var len := lens[0];
    if rest - len != 0 && |lens| > 1 {
      AmountTiles(lens[1..], addr + len, off + len, rest - len);
      assert Cut(lens, addr, off, rest, false)[1..] == Cut(lens[1..], addr + len, off + len, rest - len, false);
    } else {
      assert Cut(lens, addr, off, rest, false)[1..] == [];
    }
  }

  /** Some segment ends after `rest` bytes. */
  predicate EndsAt(lens: seq<nat>, rest: int) { exists j :: 0 < j <= |lens| && Sum(lens[..j]) == rest }

  lemma {:induction false} FirstLength(lens: seq<nat>)
    requires lens != []
    ensures Sum(lens[..1]) == lens[0]
  {
    assert lens[..1][1..] == [];
  }

  lemma {:induction false} EndsLater(lens: seq<nat>, rest: int)
    requires |lens| > 1 && rest != lens[0]
    ensures EndsAt(lens, rest) <==> EndsAt(lens[1..], rest - lens[0])
  {
    FirstLength(lens);
    if j :| 0 < j <= |lens| && Sum(lens[..j]) == rest {
      assert lens[..j][1..] == lens[1..][..j - 1];
    }
    if j :| 0 < j <= |lens[1..]| && Sum(lens[1..][..j]) == rest - lens[0] {
      assert lens[..j + 1][1..] == lens[1..][..j];
    }
  }

  /** It sends what it was asked for if a segment ends there, everything otherwise. */
  lemma {:induction false} AmountIs(lens: seq<nat>, rest: int)
    requires lens != []
    ensures Amount(lens, rest) == if EndsAt(lens, rest) then rest else Sum(lens)
  {
    if rest == lens[0] {
      assert lens[..1][1..] == [];
      assert Sum(lens[..1]) == rest;
    } else if |lens| > 1 {
      AmountIs(lens[1..], rest - lens[0]);
      EndsLater(lens, rest);
    } else {
      assert lens[1..] == [];
      OneLength(lens, rest);
    }
  }

  lemma {:induction false} OneLength(lens: seq<nat>, rest: int)
    requires |lens| == 1 && rest != lens[0]
    ensures !EndsAt(lens, rest)
  {
    FirstLength(lens);
  }

  /** The bytes that jobs cover. */
  function Covered(jobs: seq<Job>): nat { if jobs == [] then 0 else jobs[0].part.len + Covered(jobs[1..]) }

  lemma {:induction false} TilesCovered(com: byte, parts: seq<Part>, shift: nat, addr: nat, off: nat, total: nat)
    requires Tiles(parts, addr, off, total)
    ensures Covered(Jobs(com, parts, shift)) == total
    decreases |parts|
  {
    if parts != [] {
      var n := parts[0].len;
      TilesCovered(com, parts[1..], shift, addr + n, off + n, total - n);
      assert Jobs(com, parts, shift)[1..] == Jobs(com, parts[1..], shift);
    }
  }

  /** A group as the overlapped mapping leaves it. */
  predicate Overlapped(g: Group) { Mapped(g, true) && g.Isegment == 0 && g.Ioffset == 0 }

  /** The read datagrams cover the inputs if a segment ends with them, everything a cycle exchanges otherwise. */
  lemma {:induction false} ReadCovers(g: Group)
    requires Overlapped(g)
    ensures Covered(ReadJobs(g)) ==
            if g.Ibytes == 0 then 0
            else if EndsAt(g.IOsegment[..g.nsegments], g.Ibytes) then g.Ibytes else CycleLength(g, true)
  {
    hide Cut, EndsAt, Lens, Amount, Tiles, Covered;
    if g.Ibytes > 0 {
      var lens := Lens(g, 0, 0);
      AllLens(g);
      AmountIs(lens, g.Ibytes);
      AmountTiles(lens, g.logstartaddr + g.Obytes, g.inputs, g.Ibytes);
      var parts := Cut(lens, g.logstartaddr + g.Obytes, g.inputs, g.Ibytes, false);
      ReadJobsAre(g);
      TilesCovered(LRD, parts, 0, g.logstartaddr + g.Obytes, g.inputs, Amount(lens, g.Ibytes));
    } else {
      NothingCovered(g);
    }
  }

  lemma {:induction false} NothingCovered(g: Group)
    requires Segmented(g) && g.Ibytes == 0
    ensures Covered(ReadJobs(g)) == 0
  {
  }

  /** The read datagrams cover more than there are inputs exactly when there are more output bytes, and no segment
      ends with the inputs. */
  lemma {:induction false} AmountFits(g: Group)
    requires Overlapped(g)
    ensures Covered(ReadJobs(g)) >= g.Ibytes
    ensures Covered(ReadJobs(g)) > g.Ibytes <==>
            0 < g.Ibytes < g.Obytes && !EndsAt(g.IOsegment[..g.nsegments], g.Ibytes)
  {
    hide EndsAt, ReadJobs, Covered;
    ReadCovers(g);
  }

  lemma {:induction false} OverlapReads(g: Group, bus: Bus, map0: seq<byte>, iomap: seq<byte>)
    requires Overlapped(g) && |map0| == |iomap| && g.inputs + Covered(ReadJobs(g)) <= |iomap|
    ensures Inside(ReadJobs(g), |iomap|)
    ensures Collected(bus, ReadJobs(g), AllGot(|ReadJobs(g)|), map0, iomap) ==
            Put(iomap, g.inputs, Inserted(bus, g.logstartaddr + g.Obytes, Zeros(Covered(ReadJobs(g)))))
  {
    hide ReadJobs, Collected, Put, Inserted, Returned, Tiles, Inside, Jobs, AllGot, Cut, EndsAt, Lens, Amount,
      Covered;
    var n := Covered(ReadJobs(g));
    ReadCovers(g);
    if g.Ibytes > 0 {
      var lens := Lens(g, 0, 0);
      AllLens(g);
      AmountIs(lens, g.Ibytes);
      var parts := Cut(lens, g.logstartaddr + g.Obytes, g.inputs, g.Ibytes, false);
      AmountTiles(lens, g.logstartaddr + g.Obytes, g.inputs, g.Ibytes);
      TilesInside(LRD, parts, 0, g.logstartaddr + g.Obytes, g.inputs, n, |iomap|);
      ReadJobsAre(g);
      AtOnce(bus, LRD, ReadJobs(g), parts, 0, g.logstartaddr + g.Obytes, g.inputs, g.inputs, n, map0, iomap);
      ReturnedInserted(bus, g.logstartaddr + g.Obytes, map0[g.inputs..g.inputs + n]);
    } else {
      NothingRead(g, bus, map0, iomap);
    }
  }

  lemma {:induction false} NothingRead(g: Group, bus: Bus, map0: seq<byte>, iomap: seq<byte>)
    requires Segmented(g) && g.Ibytes == 0 && |map0| == |iomap| && g.inputs <= |iomap|
    ensures Inside(ReadJobs(g), |iomap|)
    ensures Collected(bus, ReadJobs(g), AllGot(|ReadJobs(g)|), map0, iomap) ==
            Put(iomap, g.inputs, Inserted(bus, g.logstartaddr + g.Obytes, Zeros(0)))
  {
    assert Inserted(bus, g.logstartaddr + g.Obytes, Zeros(0)) == [];
  }

  lemma {:induction false} ReadJobsAre(g: Group)
    requires Segmented(g) && g.Isegment == 0 && g.Ioffset == 0 && g.Ibytes > 0
    ensures ReadJobs(g) == Jobs(LRD, Cut(Lens(g, 0, 0), g.logstartaddr + g.Obytes, g.inputs, g.Ibytes, false), 0)
  {
  }

  lemma {:induction false} OverlapWrites(g: Group, size: nat)
    requires Mapped(g, true) && g.outputs + g.Obytes <= size
    ensures Inside(WriteJobs(g), size) && forall k :: 0 <= k < |WriteJobs(g)| ==> WriteJobs(g)[k].com == LWR
  {
    if g.Obytes > 0 {
      var parts := Cut(Lens(g, 0, 0), g.logstartaddr, g.outputs, g.Obytes, true);
      AllLens(g);
      CutTiles(Lens(g, 0, 0), g.logstartaddr, g.outputs, g.Obytes, true);
      TilesInside(LWR, parts, 0, g.logstartaddr, g.outputs, g.Obytes, size);
    }
  }

  lemma {:induction false} BlockedPlan(g: Group)
    requires Overlapped(g) && g.blockLRW && CycleLength(g, true) > 0
    ensures Plan(g, true) == ReadJobs(g) + WriteJobs(g)
  {
  }

  /** The IO map after such a cycle.  Input byte p is what the slaves put at a logical address Obytes too high:
      an overlapped map has the inputs at the start of the group, not behind the outputs. */
  lemma {:induction false} OverlapBlockedCollected(g: Group, bus: Bus, map0: seq<byte>, iomap: seq<byte>)
    requires Overlapped(g) && g.blockLRW && CycleLength(g, true) > 0
    requires |map0| == |iomap| && g.inputs + Covered(ReadJobs(g)) <= |iomap|
    ensures Inside(Plan(g, true), |iomap|)
    ensures Collected(bus, Plan(g, true), AllGot(|Plan(g, true)|), map0, iomap) ==
            Put(iomap, g.inputs, Inserted(bus, g.logstartaddr + g.Obytes, Zeros(Covered(ReadJobs(g)))))
  {
    hide ReadJobs, WriteJobs, Plan, Collected, Inside, Covered;
    var rd, wr := ReadJobs(g), WriteJobs(g);
    OverlapReads(g, bus, map0, iomap);
    OverlapWrites(g, |iomap|);
    BlockedPlan(g);
    InsideJoin(rd, wr, |iomap|);
    AllGotJoin(|rd|, |wr|);
    CollectedJoin(bus, rd, AllGot(|rd|), wr, AllGot(|wr|), map0, iomap);
    WritesStoreNothing(bus, wr, AllGot(|wr|), map0, Collected(bus, rd, AllGot(|rd|), map0, iomap));
  }

  // ----- when the inputs are right -----

  /** The IO map after the cycle. */
  function BlockedMap(g: Group, bus: Bus, map0: seq<byte>, iomap: seq<byte>): (r: seq<byte>)
    requires Overlapped(g) && g.blockLRW && CycleLength(g, true) > 0
    requires |map0| == |iomap| && g.inputs + Covered(ReadJobs(g)) <= |iomap|
    ensures |r| == |iomap| && g.inputs + g.Ibytes <= |r|
  {
    OverlapBlockedCollected(g, bus, map0, iomap);
    AmountFits(g);
    Collected(bus, Plan(g, true), AllGot(|Plan(g, true)|), map0, iomap)
  }

  lemma {:induction false} InputByteIs(g: Group, bus: Bus, map0: seq<byte>, iomap: seq<byte>, p: nat)
    requires Overlapped(g) && g.blockLRW && CycleLength(g, true) > 0 && p < g.Ibytes
    requires |map0| == |iomap| && g.inputs + Covered(ReadJobs(g)) <= |iomap|
    ensures BlockedMap(g, bus, map0, iomap)[g.inputs + p] == bus.insert(g.logstartaddr + g.Obytes + p, 0)
  {
    hide Mapped, Plan, Collected, AllGot, Inside, ReadJobs, Covered, EndsAt;
    OverlapBlockedCollected(g, bus, map0, iomap);
    AmountFits(g);
  }

  /** Input byte p is the one the slaves have for its own logical address, byte p of the group. */
  predicate ByteRight(g: Group, bus: Bus, map0: seq<byte>, iomap: seq<byte>, p: nat)
    requires Overlapped(g) && g.blockLRW && CycleLength(g, true) > 0 && p < g.Ibytes
    requires |map0| == |iomap| && g.inputs + Covered(ReadJobs(g)) <= |iomap|
  {
    BlockedMap(g, bus, map0, iomap)[g.inputs + p] == bus.insert(g.logstartaddr + p, 0)
  }

  ghost predicate InputsRight(g: Group, bus: Bus, map0: seq<byte>, iomap: seq<byte>)
    requires Overlapped(g) && g.blockLRW && CycleLength(g, true) > 0
    requires |map0| == |iomap| && g.inputs + Covered(ReadJobs(g)) <= |iomap|
  {
    forall p: nat :: p < g.Ibytes ==> ByteRight(g, bus, map0, iomap, p)
  }

  /** Slaves that put a 1 into the first byte of the group, and 0 everywhere else. */
  function OneFirst(start: nat, clock: seq<byte>): Bus {
    Bus((a, b) => if a == start then 1 else 0, (c, a, n) => 0, clock, 0)
  }

  /** Whatever the slaves are, the inputs are right exactly when the group has no outputs (or no inputs). */
  lemma {:induction false} RightIff(g: Group, map0: seq<byte>, iomap: seq<byte>)
    requires Overlapped(g) && g.blockLRW && CycleLength(g, true) > 0
    requires |map0| == |iomap| && g.inputs + Covered(ReadJobs(g)) <= |iomap|
    ensures (forall bus: Bus :: InputsRight(g, bus, map0, iomap)) <==> g.Obytes == 0 || g.Ibytes == 0
  {
    hide Mapped, BlockedMap, ReadJobs, Covered;
    if g.Obytes == 0 || g.Ibytes == 0 {
      forall bus: Bus ensures InputsRight(g, bus, map0, iomap) {
        forall p: nat | p < g.Ibytes ensures ByteRight(g, bus, map0, iomap, p) {
          InputByteIs(g, bus, map0, iomap, p);
        }
      }
    } else {
      var bus := OneFirst(g.logstartaddr, []);
      InputByteIs(g, bus, map0, iomap, 0);
      assert !ByteRight(g, bus, map0, iomap, 0);
      assert !InputsRight(g, bus, map0, iomap);
    }
  }

  /** Within the bytes the mapping returned as the size of the IO map, the cycle stays inside exactly when it does
      not read more than there are inputs. */
  lemma {:induction false} BlockedInsideIff(g: Group)
    requires Overlapped(g) && g.blockLRW && CycleLength(g, true) > 0 && g.outputs == 0
    ensures Inside(Plan(g, true), g.Obytes + g.Ibytes) <==>
            !(0 < g.Ibytes < g.Obytes && !EndsAt(g.IOsegment[..g.nsegments], g.Ibytes))
  {
    var rd, wr, size := ReadJobs(g), WriteJobs(g), g.Obytes + g.Ibytes;
    assert Plan(g, true) == rd + wr;
    hide WriteJobs, Plan, EndsAt, Cut, Lens, Covered, Amount;
    AmountFits(g);
    OverlapWrites(g, size);
    if g.inputs + Covered(rd) <= size {
      var iomap := Zeros(size);
      OverlapReads(g, OneFirst(0, []), iomap, iomap);
      InsideJoin(rd, wr, size);
    } else {
      AmountTiles(Lens(g, 0, 0), g.logstartaddr + g.Obytes, g.inputs, g.Ibytes);
      AllLens(g);
      AmountIs(Lens(g, 0, 0), g.Ibytes);
      ReadCovers(g);
      ReadJobsAre(g);
      var parts := Cut(Lens(g, 0, 0), g.logstartaddr + g.Obytes, g.inputs, g.Ibytes, false);
      var k := Ending(parts, g.logstartaddr + g.Obytes, g.inputs, Covered(rd));
      assert (rd + wr)[k] == Job(LRD, parts[k], 0);
    }
  }

  /** The last part of a tiling ends with it. */
  lemma {:induction false} Ending(parts: seq<Part>, addr: nat, off: nat, total: nat) returns (k: nat)
    requires Tiles(parts, addr, off, total) && parts != []
    ensures k < |parts| && parts[k].off + parts[k].len == off + total
    decreases |parts|
  {
    k := 0;
    if |parts| > 1 {
      var n := parts[0].len;
      k := Ending(parts[1..], addr + n, off + n, total - n);
      k := k + 1;
    } else {
      assert parts[1..] == [];
    }
  }
}
