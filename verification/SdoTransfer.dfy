/** What a download sends, an upload reads back. */
module SdoTransfer {
  import opened Bytes
  import opened Sdo

  /** A slave answers an upload with what a download sent it: the same mailbox, as a response. */
  function Answer(m: Mailbox): Mailbox { m.(canopen := m.canopen % 0x1000 + 0x1000 * ECT_COES_SDORES) }

  function Answers(ms: seq<Mailbox>): (r: seq<Mailbox>)
    ensures |r| == |ms| && forall k :: 0 <= k < |ms| ==> r[k] == Answer(ms[k])
  {
    seq(|ms|, k requires 0 <= k < |ms| => Answer(ms[k]))
  }

  lemma {:induction false} SegmentRead(m: Mailbox, d: seq<byte>, toggle: bool, last: bool)
    requires m.Valid() && Segment(m, d, toggle, last)
    ensures var a := Answer(m);
            && IsCoe(a, ECT_COES_SDORES) && a.command / 0x20 == 0 && (a.command % 2 == 1 <==> last)
            && SegmentSize(a) == |d| && a.area[..|d|] == d
  {
  }

  /** Where the segments of an object of this size end that begin at position `at`. */
  function End(size: nat, at: nat, chunk: nat): (end: nat)
    requires at <= size && chunk > 0
    ensures at <= end <= size
    decreases size - at
  {
    var left := Kept(size - at);
    if left <= chunk then at + left else End(size, at + chunk, chunk)
  }

  /** Going down in steps, the size of what is left comes just above every multiple of 0x1_0000, and then 16
      bits of it say that the segment is the last. */
  lemma {:induction false} EndIff(size: nat, at: nat, chunk: nat)
    requires at <= size && 0 < chunk < 0x1_0000
    ensures End(size, at, chunk) == size <==> size - at < 0x1_0000
    decreases size - at
  {
    hide Kept;
    var left := Kept(size - at);
    if left > chunk {
      EndIff(size, at + chunk, chunk);
      if 0x1_0000 <= size - at < 0x1_0000 + chunk {
        JustAbove(size - at, chunk);
      }
    }
  }

  lemma {:induction false} JustAbove(left: nat, chunk: nat)
    requires 0x1_0000 <= left < 0x1_0000 + chunk
    ensures Kept(left) < chunk
  {
    assert left % 0x1_0000 <= left - 0x1_0000;
  }

  /** The segments, read back, give the data up to where they end. */
  lemma {:induction false} SegmentsCollected(ms: seq<Mailbox>, p: seq<byte>, at: nat, chunk: nat, toggle: bool)
    requires AllValid(ms) && at <= |p| && chunk > 0 && Segments(ms, p, at, chunk, toggle) && AllSound(Answers(ms))
    ensures Collect(Answers(ms), p[..at]) == Value(p[..End(|p|, at, chunk)])
    decreases |p| - at
  {
    hide Segment, SegmentSize, IsCoe, Sound;
    var left := Kept(|p| - at);
    if left <= chunk {
      SegmentRead(ms[0], p[at..at + left], toggle, true);
      assert p[..at + left] == p[..at] + p[at..at + left];
    } else {
      SegmentRead(ms[0], p[at..at + chunk], toggle, false);
      SegmentsCollected(ms[1..], p, at + chunk, chunk, !toggle);
      assert Answers(ms)[1..] == Answers(ms[1..]);
      assert p[..at + chunk] == p[..at] + p[at..at + chunk];
    }
  }

  lemma {:induction false} InitRead(m: Mailbox, index: uint16, subindex: byte, CA: bool, p: seq<byte>, n: nat)
    requires m.Valid() && Init(m, index, subindex, CA, p, n)
    ensures var a := Answer(m);
            && IsCoe(a, ECT_COES_SDORES) && Index(a) == index && a.command / 2 % 2 == 0 && a.length == n + 10
            && Long(a.area, 3) == |p| && 7 + n <= |a.area| && a.area[7..7 + n] == p[..n]
  {
  }

  lemma {:induction false} ExpeditedRead(m: Mailbox, index: uint16, subindex: byte, p: seq<byte>)
    requires m.Valid() && Expedited(m, index, subindex, p)
    ensures var a := Answer(m);
            && IsCoe(a, ECT_COES_SDORES) && Index(a) == index && a.command / 2 % 2 == 1 && a.length == 10
            && 4 - a.command / 4 % 4 == (if p == [] then 4 else |p|) && a.area[3..3 + |p|] == p
  {
  }

  lemma {:induction false} SoundRest(ms: seq<Mailbox>)
    requires AllSound(ms) && ms != []
    ensures AllSound(ms[1..])
  {
  }

  lemma {:induction false} SegmentsSound(ms: seq<Mailbox>, p: seq<byte>, at: nat, chunk: nat, toggle: bool)
    requires AllValid(ms) && at <= |p| && 0 < chunk <= AREA && Segments(ms, p, at, chunk, toggle)
    ensures AllSound(Answers(ms))
    decreases |p| - at
  {
    hide IsCoe;
    if Kept(|p| - at) > chunk {
      SegmentsSound(ms[1..], p, at + chunk, chunk, !toggle);
      assert Answers(ms)[1..] == Answers(ms[1..]);
    }
  }

  lemma {:induction false} DownloadSound(ms: seq<Mailbox>, index: uint16, subindex: byte, CA: bool, p: seq<byte>,
                                         maxdata: nat)
    requires Download(ms, index, subindex, CA, p, maxdata) && |p| < 0x8000_0000 && maxdata + 7 <= AREA
    ensures AllSound(Answers(ms)) && SoundFirst(Answers(ms)[0])
  {
    hide IsCoe, Segments, Segment;
    if !(|p| <= 4 && !CA) && Kept(|p|) > maxdata {
      SegmentsSound(ms[1..], p, maxdata, maxdata + 7, false);
      assert Answers(ms)[1..] == Answers(ms[1..]);
    }
  }

  lemma {:induction false} ExpeditedBack(m: Mailbox, index: uint16, subindex: byte, p: seq<byte>, room: nat)
    requires m.Valid() && Expedited(m, index, subindex, p) && AllSound([Answer(m)]) && SoundFirst(Answer(m))
    ensures Read([Answer(m)], index, room) == Value(p) <==> |p| <= room && |p| > 0
  {
    hide Expedited, IsCoe, Index, Collect, AllSound, SoundFirst;
    ExpeditedRead(m, index, subindex, p);
  }

  lemma {:induction false} InitBack(m: Mailbox, index: uint16, subindex: byte, CA: bool, p: seq<byte>, n: nat,
                                    room: nat)
    requires m.Valid() && n <= |p| && Init(m, index, subindex, CA, p, n) && AllSound([Answer(m)]) &&
             SoundFirst(Answer(m))
    ensures Read([Answer(m)], index, room) == Value(p) <==> |p| <= room && n == |p|
  {
    hide Init, IsCoe, Index, Collect, AllSound, SoundFirst, Long;
    InitRead(m, index, subindex, CA, p, n);
    var a := Answer(m);
    assert [a][1..] == [];
    if n < |p| {
      NothingMore(p[..n]);
    } else {
      assert p[..n] == p && a.area[7..7 + Long(a.area, 3)] == p;
    }
  }

  lemma {:induction false} NothingMore(data: seq<byte>)
    ensures AllSound([]) && Collect([], data) == Hangs(data)
  {
  }

  lemma {:induction false} SegmentsBack(ms: seq<Mailbox>, index: uint16, subindex: byte, CA: bool, p: seq<byte>,
                                        n: nat, chunk: nat, room: nat)
    requires AllValid(ms) && ms != [] && Init(ms[0], index, subindex, CA, p, n) && n < |p| && 0 < chunk < 0x1_0000
    requires Segments(ms[1..], p, n, chunk, false) && AllSound(Answers(ms)) && SoundFirst(Answers(ms)[0])
    ensures Read(Answers(ms), index, room) == Value(p) <==> |p| <= room && |p| - n < 0x1_0000
  {
    hide Init, IsCoe, Index, Collect, Segments, AllSound, SoundFirst, End;
    InitRead(ms[0], index, subindex, CA, p, n);
    assert Answers(ms)[1..] == Answers(ms[1..]);
    SoundRest(Answers(ms));
    SegmentsCollected(ms[1..], p, n, chunk, false);
    EndIff(|p|, n, chunk);
    assert p[..|p|] == p;
  }

  /** An object written and read back is the same, of the same length, exactly when it is shorter than 0x1_0000
      bytes, as a longer one is always cut, and is not an empty one written without complete access: that is
      sent as an expedited transfer, which has no code for length 0. */
  lemma {:induction false} RoundTripIff(ms: seq<Mailbox>, index: uint16, subindex: byte, CA: bool, p: seq<byte>,
                                        maxdata: nat, room: nat)
    requires Download(ms, index, subindex, CA, p, maxdata) && |p| < 0x8000_0000 && maxdata + 7 <= AREA
    ensures AllSound(Answers(ms)) && SoundFirst(Answers(ms)[0])
    ensures Read(Answers(ms), index, room) == Value(p) <==> |p| <= room && |p| < 0x1_0000 && (|p| > 0 || CA)
  {
    hide Init, Expedited, IsCoe, Index, Segments, AllSound, SoundFirst, Kept, Read;
    DownloadSound(ms, index, subindex, CA, p, maxdata);
    if |p| <= 4 && !CA {
      assert Answers(ms) == [Answer(ms[0])];
      ExpeditedBack(ms[0], index, subindex, p, room);
    } else if Kept(|p|) <= maxdata {
      assert Answers(ms) == [Answer(ms[0])];
      InitBack(ms[0], index, subindex, CA, p, Kept(|p|), room);
    } else {
      SegmentsBack(ms, index, subindex, CA, p, maxdata, maxdata + 7, room);
      if 0x1_0000 <= |p| < 0x1_0000 + maxdata {
        JustAbove(|p|, maxdata);
      }
    }
  }
}
