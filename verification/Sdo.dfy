/** ethercatcoe.c: SDO download and upload, expedited, normal and segmented. */
module Sdo {
  import opened Bytes

  const ECT_MBXT_COE := 3
  const ECT_COES_SDOREQ := 2
  const ECT_COES_SDORES := 3
  const ECT_SDO_DOWN_INIT := 0x21
  const ECT_SDO_DOWN_EXP := 0x23
  const ECT_SDO_DOWN_INIT_CA := 0x31
  const ECT_SDO_UP_REQ := 0x40
  const ECT_SDO_UP_REQ_CA := 0x50
  const ECT_SDO_SEG_UP_REQ := 0x60

  /** Bytes of a mailbox from the index field on. */
  const AREA: nat := 1478

  /** A mailbox with a CoE header.  `area` is what follows the command byte: index, subindex, four bytes and
      data, or the data of a segment. */
  datatype Mailbox = Mailbox(length: uint16, mbxtype: byte, canopen: uint16, command: byte, area: seq<byte>)
  {
    predicate Valid() { |area| == AREA }
  }

  function Index(m: Mailbox): uint16
    requires m.Valid()
  {
    Word(m.area[0], m.area[1])
  }

  function Long(b: seq<byte>, at: nat): nat
    requires at + 4 <= |b|
  {
    Word(b[at], b[at + 1]) + 0x1_0000 * Word(b[at + 2], b[at + 3])
  }

  predicate IsCoe(m: Mailbox, service: nat) {
    m.mbxtype % 0x10 == ECT_MBXT_COE && m.canopen / 0x1000 == service
  }

  // ----- what a download consists of -----

  /** An expedited download: size and data in one. */
  predicate Expedited(m: Mailbox, index: uint16, subindex: byte, p: seq<byte>)
    requires m.Valid()
  {
    && IsCoe(m, ECT_COES_SDOREQ) && m.length == 0x0a && |p| <= 4
    && m.command == ECT_SDO_DOWN_EXP + 4 * ((4 - |p|) % 4)
    && Index(m) == index && m.area[2] == subindex && m.area[3..3 + |p|] == p
  }

  /** The start of a normal download, with the first n bytes of the data. */
  predicate Init(m: Mailbox, index: uint16, subindex: byte, CA: bool, p: seq<byte>, n: nat)
    requires m.Valid()
  {
    && IsCoe(m, ECT_COES_SDOREQ) && n <= |p| && 7 + n <= AREA && m.length == 0x0a + n
    && m.command == (if CA then ECT_SDO_DOWN_INIT_CA else ECT_SDO_DOWN_INIT)
    && Index(m) == index && m.area[2] == (if CA && subindex > 1 then 1 else subindex)
    && Long(m.area, 3) == |p| && m.area[7..7 + n] == p[..n]
  }

  /** A segment with data d.  Seven bytes are the least a segment can have; the command of a shorter last one
      tells how many of them are unused. */
  predicate Segment(m: Mailbox, d: seq<byte>, toggle: bool, last: bool)
    requires m.Valid()
  {
    && IsCoe(m, ECT_COES_SDOREQ) && |d| <= AREA
    && m.length == (if last && |d| < 7 then 0x0a else |d| + 3)
    && m.command == (if last then 1 + (if |d| < 7 then 2 * (7 - |d|) else 0) else 0) + (if toggle then 0x10 else 0)
    && m.area[..|d|] == d
  }

  predicate AllValid(ms: seq<Mailbox>) { forall k :: 0 <= k < |ms| ==> ms[k].Valid() }

  /** What 16 bits keep of a size. */
  function Kept(size: nat): (n: nat)
    ensures n <= size && (n == size <==> size < 0x1_0000)
  {
    size % 0x1_0000
  }

  /** The data from position `at` on in segments of up to `chunk` bytes, with alternating toggle.  Each is taken
      for the last when 16 bits of the size of what is left say so. */
  predicate Segments(ms: seq<Mailbox>, p: seq<byte>, at: nat, chunk: nat, toggle: bool)
    requires AllValid(ms) && at <= |p| && chunk > 0
    decreases |p| - at
  {
    && ms != []
    && var left := Kept(|p| - at);
       if left <= chunk then |ms| == 1 && Segment(ms[0], p[at..at + left], toggle, true)
       else Segment(ms[0], p[at..at + chunk], toggle, false) && Segments(ms[1..], p, at + chunk, chunk, !toggle)
  }

  /** The mailboxes of a whole download. */
  predicate Download(ms: seq<Mailbox>, index: uint16, subindex: byte, CA: bool, p: seq<byte>, maxdata: nat) {
    && AllValid(ms) && ms != []
    && if |p| <= 4 && !CA then |ms| == 1 && Expedited(ms[0], index, subindex, p)
       else if Kept(|p|) <= maxdata then |ms| == 1 && Init(ms[0], index, subindex, CA, p, Kept(|p|))
       else Init(ms[0], index, subindex, CA, p, maxdata) && Segments(ms[1..], p, maxdata, maxdata + 7, false)
  }

  // ----- what an upload makes of the answers -----

  /** How an upload ends, if it does; `data` is what was stored in the parameter buffer by then. */
  datatype Upload = Value(data: seq<byte>) | Error(data: seq<byte>) | Hangs(data: seq<byte>)

  /** The data of a segment: the length field less 3, less the unused bytes of a short last one. */
  function SegmentSize(m: Mailbox): int {
    var n := m.length - 3;
    if m.command % 2 == 1 && n == 7 then n - m.command / 2 % 8 else n
  }

  /** An answer to a request for a segment. */
  predicate IsSegment(m: Mailbox) { IsCoe(m, ECT_COES_SDORES) && m.command / 0x20 == 0 }

  /** A segment that is not the last. */
  predicate Follows(m: Mailbox) { IsSegment(m) && m.command % 2 == 0 }

  /** An answer whose length field fits the mailbox. */
  predicate Sound(m: Mailbox) {
    m.Valid() && 3 <= m.length <= AREA + 3
  }

  /** The first answer has room for index, subindex and size, and a size that fits 31 bits. */
  predicate SoundFirst(m: Mailbox) {
    m.Valid() && m.length >= 10 && (m.command / 2 % 2 == 0 ==> Long(m.area, 3) < 0x8000_0000)
  }

  predicate AllSound(ms: seq<Mailbox>) { forall k :: 0 <= k < |ms| ==> Sound(ms[k]) }

  /** The segment loop of ecx_SDOread.  It ends at a last segment or at an answer that is no segment; a request
      that gets no answer is made again, so with no more answers it never ends. */
  function Collect(ms: seq<Mailbox>, data: seq<byte>): Upload
    requires AllSound(ms)
    decreases |ms|
  {
    if ms == [] then Hangs(data)
    else if !IsSegment(ms[0]) then Error(data)
    else
      var n := SegmentSize(ms[0]);
      var data := data + ms[0].area[..n];
      if ms[0].command % 2 == 1 then Value(data) else Collect(ms[1..], data)
  }

  /** ecx_SDOread on the answers ms; `room` is the size of the parameter buffer. */
  function Read(ms: seq<Mailbox>, index: uint16, room: nat): Upload
    requires AllSound(ms) && (ms != [] ==> SoundFirst(ms[0]))
  {
    if ms == [] then Error([])
    else if !(IsCoe(ms[0], ECT_COES_SDORES) && Index(ms[0]) == index) then Error([])
    else if ms[0].command / 2 % 2 == 1 then
      var bytesize := 4 - ms[0].command / 4 % 4;
      if room >= bytesize then Value(ms[0].area[3..3 + bytesize]) else Error([])
    else
      var SDOlen := Long(ms[0].area, 3);
      if SDOlen > room then Error([])
      else
        var Framedatasize := ms[0].length - 10;
        if Framedatasize < SDOlen then Collect(ms[1..], ms[0].area[7..7 + Framedatasize])
        else Value(ms[0].area[7..7 + SDOlen])
  }

  /** An SDO response (service 3) of CoE (type 3) for the index. */
  predicate IsOurs(m: Mailbox, index: uint16)
    requires m.Valid()
  {
    m.mbxtype % 16 == 3 && m.canopen / 4096 == 3 && m.area[0] == index % 256 && m.area[1] == index / 256
  }

  lemma {:induction false} OursIff(m: Mailbox, index: uint16)
    requires m.Valid()
    ensures IsOurs(m, index) <==> IsCoe(m, ECT_COES_SDORES) && Index(m) == index
  {
    WordOfParts(index);
  }

  /** An answer that is no SDO response or for another index gives nothing: no data is stored, whatever comes later.
      An answer that is one is looked at. */
  lemma {:induction false} OthersRefused(ms: seq<Mailbox>, index: uint16, room: nat)
    requires AllSound(ms) && ms != [] && SoundFirst(ms[0])
    ensures var m, ours, r := ms[0], IsOurs(ms[0], index), Read(ms, index, room);
            && (!ours ==> r == Error([]))
            && (ours && m.command == 0x43 ==> r == if room >= 4 then Value(m.area[3..7]) else Error([]))
            && (ours && m.command == 0x4f ==> r == if room >= 1 then Value(m.area[3..4]) else Error([]))
  {
    hide IsOurs, IsCoe, Index, Long, Collect, SoundFirst;
    OursIff(ms[0], index);
  }

  /** What comes of the answers when some requests get none: the first request is not made again. */
  datatype Reception = Nothing | Got(m: Mailbox)

  function Received(answers: seq<Reception>): (ms: seq<Mailbox>)
    ensures |ms| <= |answers|
  {
    if answers == [] then []
    else if answers[0].Nothing? then Received(answers[1..])
    else [answers[0].m] + Received(answers[1..])
  }

  predicate Sane(answers: seq<Reception>) {
    && (forall k :: 0 <= k < |answers| && answers[k].Got? ==> Sound(answers[k].m))
    && (answers != [] && answers[0].Got? ==> SoundFirst(answers[0].m))
  }

  lemma {:induction false} ReceivedSound(answers: seq<Reception>)
    requires forall k :: 0 <= k < |answers| && answers[k].Got? ==> Sound(answers[k].m)
    ensures AllSound(Received(answers))
    decreases |answers|
  {
    if answers != [] {
      ReceivedSound(answers[1..]);
    }
  }

  function Outcome(answers: seq<Reception>, index: uint16, room: nat): Upload
    requires Sane(answers)
  {
    ReceivedSound(answers);
    if answers == [] || answers[0].Nothing? then Error([]) else Read(Received(answers), index, room)
  }

  /** The segment loop never ends exactly when the slave falls silent before the last segment. */
  lemma {:induction false} HangsIff(ms: seq<Mailbox>, data: seq<byte>)
    requires AllSound(ms)
    ensures Collect(ms, data).Hangs? <==> forall k :: 0 <= k < |ms| ==> Follows(ms[k])
    decreases |ms|
  {
    hide IsCoe, SegmentSize, Sound;
    if ms != [] && Follows(ms[0]) {
      SegmentFits(ms[0]);
      HangsIff(ms[1..], data + ms[0].area[..SegmentSize(ms[0])]);
      assert forall k :: 1 <= k < |ms| ==> ms[k] == ms[1..][k - 1];
      assert forall k :: 0 <= k < |ms[1..]| ==> ms[1..][k] == ms[k + 1];
    }
  }

  lemma {:induction false} SegmentFits(m: Mailbox)
    requires Sound(m)
    ensures 0 <= SegmentSize(m) <= |m.area|
  {
  }

  // ----- how much is stored in the parameter buffer -----

  /** The bytes that segments up to the last one bring. */
  function SegmentBytes(ms: seq<Mailbox>): (n: nat)
    requires AllSound(ms)
    decreases |ms|
  {
    if ms == [] || !IsSegment(ms[0]) then 0
    else SegmentSize(ms[0]) + if Follows(ms[0]) then SegmentBytes(ms[1..]) else 0
  }

  lemma {:induction false} Collected(ms: seq<Mailbox>, data: seq<byte>)
    requires AllSound(ms)
    ensures |Collect(ms, data).data| == |data| + SegmentBytes(ms)
    decreases |ms|
  {
    hide IsCoe, SegmentSize, Sound;
    if ms != [] && IsSegment(ms[0]) {
      SegmentFits(ms[0]);
      Collected(ms[1..], data + ms[0].area[..SegmentSize(ms[0])]);
    }
  }

  /** The answers make a segmented upload, whose first part has fewer bytes than the size it announces. */
  predicate Segmented(ms: seq<Mailbox>, index: uint16, room: nat)
    requires AllSound(ms) && (ms != [] ==> SoundFirst(ms[0]))
  {
    && ms != [] && IsCoe(ms[0], ECT_COES_SDORES) && Index(ms[0]) == index && ms[0].command / 2 % 2 == 0
    && ms[0].length - 10 < Long(ms[0].area, 3) <= room
  }

  /** Only the announced size is compared with the buffer.  Whether an upload succeeds, fails or hangs, what it
      stores stays within the buffer exactly when it is not segmented or the segments, up to the last one or the
      first answer that is none, do not bring more bytes than there is room. */
  lemma {:induction false} StaysInsideIff(ms: seq<Mailbox>, index: uint16, room: nat)
    requires AllSound(ms) && (ms != [] ==> SoundFirst(ms[0]))
    ensures |Read(ms, index, room).data| <= room <==>
            Segmented(ms, index, room) ==> ms[0].length - 10 + SegmentBytes(ms[1..]) <= room
  {
    hide IsCoe, SegmentSize, SegmentBytes;
    if Segmented(ms, index, room) {
      var n := ms[0].length - 10;
      Collected(ms[1..], ms[0].area[7..7 + n]);
    }
  }

  /** So a slave that sends no more than it announces stays within the buffer. */
  lemma {:induction false} AnnouncedSize(ms: seq<Mailbox>, index: uint16, room: nat)
    requires AllSound(ms) && (ms != [] ==> SoundFirst(ms[0]))
    requires Segmented(ms, index, room) && ms[0].length - 10 + SegmentBytes(ms[1..]) <= Long(ms[0].area, 3)
    ensures |Read(ms, index, room).data| <= Long(ms[0].area, 3) <= room
  {
    hide IsCoe, SegmentSize, SegmentBytes;
    var n := ms[0].length - 10;
    Collected(ms[1..], ms[0].area[7..7 + n]);
  }

  /** Index, subindex and size at the beginning of the area. */
  function Head(index: uint16, sub: byte, size: nat): (head: seq<byte>)
    requires size < 0x8000_0000
    ensures |head| == 7
  {
    var (low, high) := (size % 0x1_0000, size / 0x1_0000);
    [Lo(index), Hi(index), sub, Lo(low), Hi(low), Lo(high), Hi(high)]
  }

  lemma {:induction false} HeadFields(area: seq<byte>, index: uint16, sub: byte, size: nat)
    requires |area| == AREA && size < 0x8000_0000 && area[..7] == Head(index, sub, size)
    ensures Word(area[0], area[1]) == index && area[2] == sub && Long(area, 3) == size
  {
    var head := Head(index, sub, size);
    assert area[0] == head[0] && area[1] == head[1] && area[2] == head[2] && area[3] == head[3];
    assert area[4] == head[4] && area[5] == head[5] && area[6] == head[6];
  }

  /** A first answer that announces five bytes and brings none. */
  lemma {:induction false} FiveAnnounced(index: uint16) returns (a: Mailbox)
    ensures Sound(a) && SoundFirst(a) && IsCoe(a, ECT_COES_SDORES) && Index(a) == index
    ensures a.command / 2 % 2 == 0 && a.length == 10 && Long(a.area, 3) == 5
  {
    hide Put, Lo, Hi, Word, Long, Head;
    var head := Head(index, 0, 5);
    a := Mailbox(10, ECT_MBXT_COE, 0x1000 * ECT_COES_SDORES, 0x41, Put(Zeros(AREA), 0, head));
    PutParts(Zeros(AREA), 0, head);
    assert a.area[..7] == a.area[0..0 + 7] == head;
    HeadFields(a.area, index, 0, 5);
  }

  /** Then a segment with a hundred bytes: they are all stored in the buffer for five. */
  lemma {:induction false} TooMuch(index: uint16) returns (ms: seq<Mailbox>)
    ensures AllSound(ms) && ms != [] && SoundFirst(ms[0])
    ensures Read(ms, index, 5).Value? && |Read(ms, index, 5).data| == 100
  {
    hide Index, Long, Zeros;
    var a := FiveAnnounced(index);
    var b := Mailbox(103, ECT_MBXT_COE, 0x1000 * ECT_COES_SDORES, 1, Zeros(AREA));
    ms := [a, b];
    assert ms[1..] == [b];
  }

  /** The same with a segment that is not the last, and then an abort: the upload fails, with the bytes stored. */
  lemma {:induction false} TooMuchThenAbort(index: uint16) returns (ms: seq<Mailbox>)
    ensures AllSound(ms) && ms != [] && SoundFirst(ms[0])
    ensures Read(ms, index, 5).Error? && |Read(ms, index, 5).data| == 100
  {
    hide Index, Long, Zeros;
    var a := FiveAnnounced(index);
    var b := Mailbox(103, ECT_MBXT_COE, 0x1000 * ECT_COES_SDORES, 0, Zeros(AREA));
    var c := Mailbox(10, ECT_MBXT_COE, 0x1000 * ECT_COES_SDORES, 0x80, Zeros(AREA));
    ms := [a, b, c];
    assert ms[1..] == [b, c] && [b, c][1..] == [c];
    var first := a.area[7..7 + 0];
    assert Collect([c], first + b.area[..100]) == Error(first + b.area[..100]);
    assert Collect([b, c], first) == Error(first + b.area[..100]);
  }
}
