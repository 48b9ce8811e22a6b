/** ethercatbase.c: building a frame of one or more datagrams, and reading it back. */
module Datagram {
  import opened Bytes

  const ETH_HEADERSIZE := 14
  const EC_HEADERSIZE := 12
  const EC_ELENGTHSIZE := 2
  const EC_WKCSIZE := 2
  const EC_ECATTYPE := 0x1000
  const EC_DATAGRAMFOLLOWS := 0x8000
  const EC_BUFSIZE := 1518

  const NOP: byte := 0
  const APRD: byte := 1
  const FPRD: byte := 4
  const BRD: byte := 7
  const LRD: byte := 10
  const LWR: byte := 11
  const LRW: byte := 12
  const FRMW: byte := 14

  /** One datagram; `adp` and `ado` are the two halves of its address. */
  datatype Dgram = Dgram(command: byte, index: byte, adp: uint16, ado: uint16, data: seq<byte>, wkc: uint16)

  /** Bytes a datagram takes on the wire: 10 of header, the data, 2 of working counter. */
  function WireSize(d: Dgram): nat { EC_HEADERSIZE - EC_ELENGTHSIZE + |d.data| + EC_WKCSIZE }

  function TotalSize(ds: seq<Dgram>): nat {
    if ds == [] then 0 else WireSize(ds[0]) + TotalSize(ds[1..])
  }

  /** The data a command carries when it is sent: commands that only read send zeros. */
  function Payload(command: byte, data: seq<byte>): (p: seq<byte>)
    ensures |p| == |data|
  {
    if command in {NOP, APRD, FPRD, BRD, LRD} then Zeros(|data|) else data
  }

  /** A datagram as it is sent. */
  function Fresh(command: byte, index: byte, adp: uint16, ado: uint16, data: seq<byte>): Dgram {
    Dgram(command, index, adp, ado, Payload(command, data), 0)
  }

  // ----- the layout of a frame -----

  /** The 16-bit field at position `at`. */
  function WordAt(f: seq<byte>, at: nat): uint16
    requires at + 2 <= |f|
  {
    Word(f[at], f[at + 1])
  }

  /** Datagram `d` starts at position `at`, with its follow bit as given.  The two interrupt bytes
      hold anything. */
  ghost predicate Holds(f: seq<byte>, at: nat, d: Dgram, follows: bool) {
    && |d.data| < 0x800
    && at + WireSize(d) <= |f|
    && f[at] == d.command && f[at + 1] == d.index
    && WordAt(f, at + 2) == d.adp && WordAt(f, at + 4) == d.ado
    && WordAt(f, at + 6) == |d.data| + (if follows then EC_DATAGRAMFOLLOWS else 0)
    && f[at + 10..at + 10 + |d.data|] == d.data
    && WordAt(f, at + 10 + |d.data|) == d.wkc
  }

  lemma {:induction false} WordBytes(w: uint16, lo: byte, hi: byte)
    requires Word(lo, hi) == w
    ensures lo == w % 0x100 && hi == w / 0x100
  {
  }

  /** A datagram byte by byte. */
  lemma {:induction false} DatagramBytes(f: seq<byte>, at: nat, d: Dgram, follows: bool)
    requires Holds(f, at, d, follows)
    ensures var n := |d.data|;
            && at + 12 + n <= |f| && f[at] == d.command && f[at + 1] == d.index
            && f[at + 2..at + 6] == [d.adp % 0x100, d.adp / 0x100, d.ado % 0x100, d.ado / 0x100]
            && f[at + 6] == n % 0x100 && f[at + 7] == n / 0x100 + (if follows then 0x80 else 0)
            && f[at + 10..at + 10 + n] == d.data
            && f[at + 10 + n] == d.wkc % 0x100 && f[at + 11 + n] == d.wkc / 0x100
  {
    var n := |d.data|;
    WordBytes(d.adp, f[at + 2], f[at + 3]);
    WordBytes(d.ado, f[at + 4], f[at + 5]);
    WordBytes(n + (if follows then EC_DATAGRAMFOLLOWS else 0), f[at + 6], f[at + 7]);
    WordBytes(d.wkc, f[at + 10 + n], f[at + 11 + n]);
  }

  /** The datagrams lie one after the other from `at` on. */
  ghost predicate Layout(f: seq<byte>, at: nat, ds: seq<Dgram>, follows: seq<bool>)
    requires |ds| == |follows|
    decreases |ds|
  {
    ds == [] || (Holds(f, at, ds[0], follows[0]) && Layout(f, at + WireSize(ds[0]), ds[1..], follows[1..]))
  }

  /** A frame of datagrams, whose EtherCAT header is at `base`. */
  ghost predicate Frame(f: seq<byte>, base: nat, ds: seq<Dgram>, follows: seq<bool>) {
    && |ds| == |follows| >= 1
    && base + EC_ELENGTHSIZE <= |f|
    && WordAt(f, base) == EC_ECATTYPE + TotalSize(ds)
    && Layout(f, base + EC_ELENGTHSIZE, ds, follows)
  }

  /** The bytes of a datagram header without its length field and interrupt bytes. */
  function Header(com: byte, idx: byte, adp: uint16, ado: uint16, dlength: uint16): (h: seq<byte>)
    ensures |h| == 8
  {
    [com, idx, Lo(adp), Hi(adp), Lo(ado), Hi(ado), Lo(dlength), Hi(dlength)]
  }

  lemma {:induction false} Built(f: seq<byte>, at: nat, d: Dgram, follows: bool)
    requires |d.data| < 0x800 && at + WireSize(d) <= |f|
    requires f[at..at + 8] == Header(d.command, d.index, d.adp, d.ado,
                                     if follows then |d.data| + EC_DATAGRAMFOLLOWS else |d.data|)
    requires f[at + 10..at + 10 + |d.data|] == d.data
    requires f[at + 10 + |d.data|] == Lo(d.wkc) && f[at + 11 + |d.data|] == Hi(d.wkc)
    ensures Holds(f, at, d, follows)
  {
    hide Lo, Hi, Word;
    var h, dlength := f[at..at + 8], if follows then |d.data| + EC_DATAGRAMFOLLOWS else |d.data|;
    WordOfParts(d.adp);
    WordOfParts(d.ado);
    WordOfParts(dlength);
    WordOfParts(d.wkc);
    assert f[at] == h[0] && f[at + 1] == h[1] && f[at + 2] == h[2] && f[at + 3] == h[3];
    assert f[at + 4] == h[4] && f[at + 5] == h[5] && f[at + 6] == h[6] && f[at + 7] == h[7];
  }

  // ----- the frame buffer -----

  class FrameBuffer {
    const frame: array<byte>
    var txbuflength: nat

    constructor ()
      ensures frame.Length == EC_BUFSIZE && fresh(frame)
    {
      frame := new byte[EC_BUFSIZE](_ => 0);
      txbuflength := 0;
    }

    method PutWord(at: nat, w: uint16)
      requires at + 2 <= frame.Length
      modifies frame
      ensures frame[..] == old(frame[..])[at := Lo(w)][at + 1 := Hi(w)]
    {
      frame[at] := Lo(w);
      frame[at + 1] := Hi(w);
    }

    method WriteDatagramData(at: nat, com: byte, data: seq<byte>)
      requires at + |data| <= frame.Length
      modifies frame
      ensures frame[at..at + |data|] == Payload(com, data)
      ensures frame[..at] == old(frame[..at]) && frame[at + |data|..] == old(frame[at + |data|..])
    {
      if |data| > 0 {
        if com == NOP || com == APRD || com == FPRD || com == BRD || com == LRD {
          Copy(frame, at, Zeros(|data|));
        } else {
          Copy(frame, at, data);
        }
      }
    }

    /** The datagram header without its length field, at position `at`. */
    method PutHeader(at: nat, com: byte, idx: byte, adp: uint16, ado: uint16, dlength: uint16)
      requires at + 8 <= frame.Length
      modifies frame
      ensures frame[at..at + 8] == Header(com, idx, adp, ado, dlength)
      ensures frame[..at] == old(frame[..at]) && frame[at + 8..] == old(frame[at + 8..])
    {
      frame[at] := com;
      frame[at + 1] := idx;
      PutWord(at + 2, adp);
      PutWord(at + 4, ado);
      PutWord(at + 6, dlength);
    }

    /** Header, data and a zero working counter, from position `at` on. */
    method PutDatagram(at: nat, com: byte, idx: byte, follows: bool, adp: uint16, ado: uint16, data: seq<byte>)
      requires |data| < 0x800 && at + 12 + |data| <= frame.Length
      modifies frame
      ensures Holds(frame[..], at, Fresh(com, idx, adp, ado, data), follows)
      ensures frame[..at] == old(frame[..at])
    {
      var dlength := if follows then |data| + EC_DATAGRAMFOLLOWS else |data|;
      ghost var before := frame[..at];
      PutHeader(at, com, idx, adp, ado, dlength);
      assert frame[..at] == before;
      ghost var headed := frame[..at + 10];
      WriteDatagramData(at + 10, com, data);
      ghost var filled := frame[..at + 10 + |data|];
      frame[at + 10 + |data|] := 0;
      frame[at + 10 + |data| + 1] := 0;
      assert frame[..at + 10 + |data|] == filled;
      assert frame[at + 10..at + 10 + |data|] == filled[at + 10..];
      assert frame[..at + 10] == filled[..at + 10] == headed;
      assert frame[at..at + 8] == headed[at..at + 8];
      assert frame[..at] == headed[..at] == before;
      Built(frame[..], at, Fresh(com, idx, adp, ado, data), follows);
    }

    method SetupDatagram(com: byte, idx: byte, adp: uint16, ado: uint16, data: seq<byte>)
      requires frame.Length == EC_BUFSIZE && ETH_HEADERSIZE + EC_HEADERSIZE + |data| + EC_WKCSIZE <= EC_BUFSIZE
      modifies this`txbuflength, frame
      ensures Frame(frame[..], ETH_HEADERSIZE, [Fresh(com, idx, adp, ado, data)], [false])
      ensures txbuflength == ETH_HEADERSIZE + EC_ELENGTHSIZE + TotalSize([Fresh(com, idx, adp, ado, data)])
      ensures frame[..ETH_HEADERSIZE] == old(frame[..ETH_HEADERSIZE])
    {
      PutWord(ETH_HEADERSIZE, EC_ECATTYPE + EC_HEADERSIZE + |data|);
      PutDatagram(ETH_HEADERSIZE + EC_ELENGTHSIZE, com, idx, false, adp, ado, data);
      txbuflength := ETH_HEADERSIZE + EC_HEADERSIZE + EC_WKCSIZE + |data|;
      SingleFrame(frame[..], ETH_HEADERSIZE, Fresh(com, idx, adp, ado, data));
    }

    /** Make room for a datagram with `length` bytes of data: add it to the frame size, and set the
        "datagram follows" flag of the first datagram. */
    method ExtendHeader(length: nat, ghost ds: seq<Dgram>, ghost follows: seq<bool>)
      requires frame.Length == EC_BUFSIZE && Frame(frame[..], ETH_HEADERSIZE, ds, follows)
      requires ETH_HEADERSIZE + EC_ELENGTHSIZE + TotalSize(ds) + EC_HEADERSIZE + length <= EC_BUFSIZE
      modifies frame
      ensures WordAt(frame[..], ETH_HEADERSIZE) == EC_ECATTYPE + TotalSize(ds) + EC_HEADERSIZE + length
      ensures Layout(frame[..], ETH_HEADERSIZE + EC_ELENGTHSIZE, ds, [true] + follows[1..])
      ensures frame[..ETH_HEADERSIZE] == old(frame[..ETH_HEADERSIZE])
    {
      ghost var f0 := frame[..];
      var elength := Word(frame[ETH_HEADERSIZE], frame[ETH_HEADERSIZE + 1]);
      PutWord(ETH_HEADERSIZE, elength + EC_HEADERSIZE + length);
      var dlength := Word(frame[ETH_HEADERSIZE + 8], frame[ETH_HEADERSIZE + 9]);
      if dlength < EC_DATAGRAMFOLLOWS {
        dlength := dlength + EC_DATAGRAMFOLLOWS;
      }
      PutWord(ETH_HEADERSIZE + 8, dlength);
      FlagFirst(f0, frame[..], ETH_HEADERSIZE + EC_ELENGTHSIZE, ds, follows);
    }

    /** Append a datagram.  `ds` and `follows` describe the datagrams already there. */
    method AddDatagram(com: byte, idx: byte, more: bool, adp: uint16, ado: uint16, data: seq<byte>,
                       ghost ds: seq<Dgram>, ghost follows: seq<bool>) returns (offset: nat)
      requires frame.Length == EC_BUFSIZE && Frame(frame[..], ETH_HEADERSIZE, ds, follows)
      requires txbuflength == ETH_HEADERSIZE + EC_ELENGTHSIZE + TotalSize(ds)
      requires txbuflength + EC_HEADERSIZE + |data| <= EC_BUFSIZE
      modifies this`txbuflength, frame
      ensures Frame(frame[..], ETH_HEADERSIZE, ds + [Fresh(com, idx, adp, ado, data)], [true] + follows[1..] + [more])
      ensures txbuflength == ETH_HEADERSIZE + EC_ELENGTHSIZE + TotalSize(ds + [Fresh(com, idx, adp, ado, data)])
      ensures offset == old(txbuflength) + 10 - ETH_HEADERSIZE
      ensures frame[..ETH_HEADERSIZE] == old(frame[..ETH_HEADERSIZE])
    {
      var prevlength := txbuflength;
      ExtendHeader(|data|, ds, follows);
      ghost var f := frame[..];
      PutDatagram(prevlength, com, idx, more, adp, ado, data);
      Appended(f, frame[..], ds, [true] + follows[1..], Fresh(com, idx, adp, ado, data), more);
      txbuflength := prevlength + EC_HEADERSIZE - EC_ELENGTHSIZE + EC_WKCSIZE + |data|;
      offset := prevlength + EC_HEADERSIZE - EC_ELENGTHSIZE - ETH_HEADERSIZE;
      assert frame[..ETH_HEADERSIZE] == frame[..prevlength][..ETH_HEADERSIZE];
    }
  }

  lemma {:induction false} Appended(f: seq<byte>, g: seq<byte>, ds: seq<Dgram>, follows: seq<bool>, d: Dgram,
                                    more: bool)
    requires |ds| == |follows| >= 1 && |f| == |g|
    requires var end := ETH_HEADERSIZE + EC_ELENGTHSIZE + TotalSize(ds); end <= |f| && f[..end] == g[..end]
    requires WordAt(f, ETH_HEADERSIZE) == EC_ECATTYPE + TotalSize(ds) + WireSize(d)
    requires Layout(f, ETH_HEADERSIZE + EC_ELENGTHSIZE, ds, follows)
    requires Holds(g, ETH_HEADERSIZE + EC_ELENGTHSIZE + TotalSize(ds), d, more)
    ensures Frame(g, ETH_HEADERSIZE, ds + [d], follows + [more])
    ensures TotalSize(ds + [d]) == TotalSize(ds) + WireSize(d)
  {
    var start, end := ETH_HEADERSIZE + EC_ELENGTHSIZE, ETH_HEADERSIZE + EC_ELENGTHSIZE + TotalSize(ds);
    assert Agree(f, g, 0, end) by {
      assert forall k :: 0 <= k < end ==> f[k] == f[..end][k] && g[k] == g[..end][k];
    }
    TotalAppend(ds, d);
    LayoutKept(f, g, start, ds, follows);
    LayoutAppend(g, start, ds, follows, d, more);
  }

  lemma {:induction false} SingleFrame(f: seq<byte>, base: nat, d: Dgram)
    requires base + 2 <= |f| && WordAt(f, base) == EC_ECATTYPE + WireSize(d)
    requires Holds(f, base + 2, d, false)
    ensures TotalSize([d]) == WireSize(d)
    ensures Frame(f, base, [d], [false])
  {
  }

  lemma {:induction false} TotalAppend(ds: seq<Dgram>, d: Dgram)
    ensures TotalSize(ds + [d]) == TotalSize(ds) + WireSize(d)
    decreases |ds|
  {
    if ds == [] {
      assert [] + [d] == [d];
    } else {
      assert (ds + [d])[1..] == ds[1..] + [d];
      TotalAppend(ds[1..], d);
    }
  }

  /** The frames have the same bytes at lo .. hi-1. */
  ghost predicate Agree(f: seq<byte>, g: seq<byte>, lo: nat, hi: nat) {
    hi <= |f| == |g| && forall k :: lo <= k < hi ==> f[k] == g[k]
  }

  lemma {:induction false} HoldsKept(f: seq<byte>, g: seq<byte>, at: nat, d: Dgram, follows: bool)
    requires Holds(f, at, d, follows) && Agree(f, g, at, at + WireSize(d))
    ensures Holds(g, at, d, follows)
  {
    assert f[at + 10..at + 10 + |d.data|] == g[at + 10..at + 10 + |d.data|];
  }

  lemma {:induction false} LayoutKept(f: seq<byte>, g: seq<byte>, at: nat, ds: seq<Dgram>, follows: seq<bool>)
    requires |ds| == |follows| && Layout(f, at, ds, follows) && Agree(f, g, at, at + TotalSize(ds))
    ensures Layout(g, at, ds, follows)
    decreases |ds|
  {
    if ds != [] {
      HoldsKept(f, g, at, ds[0], follows[0]);
      LayoutKept(f, g, at + WireSize(ds[0]), ds[1..], follows[1..]);
    }
  }

  lemma {:induction false} LayoutAppend(f: seq<byte>, at: nat, ds: seq<Dgram>, follows: seq<bool>, d: Dgram, more: bool)
    requires |ds| == |follows| && Layout(f, at, ds, follows) && Holds(f, at + TotalSize(ds), d, more)
    ensures Layout(f, at, ds + [d], follows + [more])
    decreases |ds|
  {
    if ds == [] {
      assert ds + [d] == [d] && follows + [more] == [more];
    } else {
      assert (ds + [d])[1..] == ds[1..] + [d] && (follows + [more])[1..] == follows[1..] + [more];
      LayoutAppend(f, at + WireSize(ds[0]), ds[1..], follows[1..], d, more);
    }
  }

  /** Setting the follow bit of the first datagram. */
  lemma {:induction false} FlagFirst(f: seq<byte>, g: seq<byte>, at: nat, ds: seq<Dgram>, follows: seq<bool>)
    requires |ds| == |follows| >= 1 && |f| == |g| && Layout(f, at, ds, follows) && at + TotalSize(ds) <= |f|
    requires forall k :: at <= k < |f| && k != at + 6 && k != at + 7 ==> f[k] == g[k]
    requires WordAt(g, at + 6) == |ds[0].data| + EC_DATAGRAMFOLLOWS
    ensures Layout(g, at, ds, [true] + follows[1..])
  {
    var here := at + WireSize(ds[0]);
    assert f[at + 10..at + 10 + |ds[0].data|] == g[at + 10..at + 10 + |ds[0].data|];
    assert Holds(g, at, ds[0], true);
    LayoutKept(f, g, here, ds[1..], follows[1..]);
    assert ([true] + follows[1..])[1..] == follows[1..];
  }

  // ----- reading a frame -----

  datatype Walked = Broken | Read(ds: seq<Dgram>)

  /** Read datagrams from position `at` on, for as long as the follow bit is set. */
  function Walk(f: seq<byte>, at: nat): Walked
    decreases |f| - at
  {
    if at + 12 > |f| then Broken
    else
      var dlength := WordAt(f, at + 6);
      var len := dlength % 0x800;
      if at + 12 + len > |f| then Broken
      else
        var d := Dgram(f[at], f[at + 1], WordAt(f, at + 2), WordAt(f, at + 4), f[at + 10..at + 10 + len],
                       WordAt(f, at + 10 + len));
        if dlength < EC_DATAGRAMFOLLOWS then Read([d])
        else
          match Walk(f, at + 12 + len)
          case Broken => Broken
          case Read(ds) => Read([d] + ds)
  }

  /** The follow bits of a list: set on all datagrams but the last. */
  predicate LastOnly(follows: seq<bool>) {
    forall k :: 0 <= k < |follows| ==> (follows[k] <==> k < |follows| - 1)
  }

  /** Reading a frame gives back the datagrams put into it exactly when `more` was TRUE for all
      but the last. */
  lemma {:induction false} WalkInverts(f: seq<byte>, at: nat, ds: seq<Dgram>, follows: seq<bool>)
    requires |ds| == |follows| >= 1 && Layout(f, at, ds, follows)
    ensures Walk(f, at) == Read(ds) <==> LastOnly(follows)
    decreases |ds|
  {
    var d, rest, next := ds[0], ds[1..], at + WireSize(ds[0]);
    assert ds == [d] + rest;
    assert WordAt(f, at + 6) % 0x800 == |d.data|;
    assert !follows[0] ==> Walk(f, at) == Read([d]);
    if rest == [] {
      if follows[0] && Walk(f, next).Read? {
        WalkNonEmpty(f, next);
        assert |Walk(f, at).ds| > 1;
      }
    } else {
      WalkInverts(f, next, rest, follows[1..]);
      if follows[0] {
        assert LastOnly(follows) <==> LastOnly(follows[1..]) by {
          assert forall k :: 1 <= k < |follows| ==> follows[k] == follows[1..][k - 1];
          assert LastOnly(follows) ==> forall k :: 0 <= k < |follows[1..]| ==> follows[1..][k] == follows[k + 1];
        }
        if Walk(f, next).Read? {
          assert Walk(f, at) == Read([d] + Walk(f, next).ds);
          assert ([d] + Walk(f, next).ds)[1..] == Walk(f, next).ds;
        }
      }
    }
  }

  lemma {:induction false} WalkNonEmpty(f: seq<byte>, at: nat)
    ensures Walk(f, at).Read? ==> |Walk(f, at).ds| >= 1
  {
  }

  /** A received frame is the sent one without its Ethernet header. */
  lemma {:induction false} Stripped(f: seq<byte>, ds: seq<Dgram>, follows: seq<bool>)
    requires Frame(f, ETH_HEADERSIZE, ds, follows)
    ensures Frame(f[ETH_HEADERSIZE..], 0, ds, follows)
  {
    LayoutMoved(f, ETH_HEADERSIZE, EC_ELENGTHSIZE, ds, follows);
  }

  /** The follow bits of a frame whose datagrams after the first were added with these values of `more`. */
  function Flags(mores: seq<bool>): seq<bool> { [mores != []] + mores }

  lemma {:induction false} FlagsAdded(mores: seq<bool>, more: bool)
    ensures [true] + Flags(mores)[1..] + [more] == Flags(mores + [more])
  {
  }

  lemma {:induction false} FlagsLastOnly(mores: seq<bool>)
    ensures LastOnly(Flags(mores)) <==> LastOnly(mores)
  {
    if LastOnly(Flags(mores)) {
      forall k | 0 <= k < |mores| ensures mores[k] <==> k < |mores| - 1 {
        assert Flags(mores)[k + 1] == mores[k];
      }
    }
  }

  /** A received frame is read back as the datagrams in it exactly when each of them but the first was added with
      the right `more`: TRUE for all but the last one. */
  lemma {:induction false} ReadBackIff(f: seq<byte>, ds: seq<Dgram>, mores: seq<bool>)
    requires Frame(f, ETH_HEADERSIZE, ds, Flags(mores))
    ensures Walk(f[ETH_HEADERSIZE..], EC_ELENGTHSIZE) == Read(ds) <==> LastOnly(mores)
  {
    hide Layout;
    Stripped(f, ds, Flags(mores));
    WalkInverts(f[ETH_HEADERSIZE..], EC_ELENGTHSIZE, ds, Flags(mores));
    FlagsLastOnly(mores);
  }

  /** The part of the buffer that is sent holds the whole frame. */
  lemma {:induction false} SentPart(f: seq<byte>, base: nat, ds: seq<Dgram>, follows: seq<bool>)
    requires Frame(f, base, ds, follows) && base + EC_ELENGTHSIZE + TotalSize(ds) <= |f|
    ensures Frame(f[..base + EC_ELENGTHSIZE + TotalSize(ds)], base, ds, follows)
  {
    LayoutPrefix(f, base + EC_ELENGTHSIZE, ds, follows, base + EC_ELENGTHSIZE + TotalSize(ds));
  }

  lemma {:induction false} LayoutPrefix(f: seq<byte>, at: nat, ds: seq<Dgram>, follows: seq<bool>, end: nat)
    requires |ds| == |follows| && Layout(f, at, ds, follows) && at + TotalSize(ds) <= end <= |f|
    ensures Layout(f[..end], at, ds, follows)
    decreases |ds|
  {
    if ds != [] {
      var g := f[..end];
      assert f[at + 10..at + 10 + |ds[0].data|] == g[at + 10..at + 10 + |ds[0].data|];
      assert Holds(g, at, ds[0], follows[0]);
      LayoutPrefix(f, at + WireSize(ds[0]), ds[1..], follows[1..], end);
    }
  }

  lemma {:induction false} LayoutMoved(f: seq<byte>, cut: nat, at: nat, ds: seq<Dgram>, follows: seq<bool>)
    requires |ds| == |follows| && cut <= |f| && Layout(f, cut + at, ds, follows)
    ensures Layout(f[cut..], at, ds, follows)
    decreases |ds|
  {
    if ds != [] {
      var g := f[cut..];
      assert f[cut + at + 10..cut + at + 10 + |ds[0].data|] == g[at + 10..at + 10 + |ds[0].data|];
      assert Holds(g, at, ds[0], follows[0]);
      LayoutMoved(f, cut, at + WireSize(ds[0]), ds[1..], follows[1..]);
    }
  }

  /** The working counter ecx_inframe returns for a received frame. */
  function ReadWkc(rx: seq<byte>): uint16
    requires |rx| >= 2 && WordAt(rx, 0) % 0x1000 + 2 <= |rx|
  {
    WordAt(rx, WordAt(rx, 0) % 0x1000)
  }

  lemma {:induction false} HoldsAt(f: seq<byte>, at: nat, ds: seq<Dgram>, follows: seq<bool>, k: nat)
    requires |ds| == |follows| && k < |ds| && Layout(f, at, ds, follows)
    ensures Holds(f, at + TotalSize(ds[..k]), ds[k], follows[k])
    ensures TotalSize(ds[..k]) + WireSize(ds[k]) + TotalSize(ds[k + 1..]) == TotalSize(ds)
    decreases |ds|
  {
    if k > 0 {
      assert ds[..k][1..] == ds[1..][..k - 1] && ds[1..][k..] == ds[k + 1..];
      HoldsAt(f, at + WireSize(ds[0]), ds[1..], follows[1..], k - 1);
    } else {
      assert ds[..0] == [];
    }
  }

  /** In a received frame the data of datagram k starts where the builder said. */
  lemma {:induction false} DataSlot(rx: seq<byte>, ds: seq<Dgram>, follows: seq<bool>, k: nat)
    requires Frame(rx, 0, ds, follows) && k < |ds|
    ensures EC_HEADERSIZE + TotalSize(ds[..k]) + |ds[k].data| + EC_WKCSIZE <= |rx|
    ensures rx[EC_HEADERSIZE + TotalSize(ds[..k])..][..|ds[k].data|] == ds[k].data
    ensures WordAt(rx, EC_HEADERSIZE + TotalSize(ds[..k]) + |ds[k].data|) == ds[k].wkc
  {
    var at, len := EC_HEADERSIZE + TotalSize(ds[..k]), |ds[k].data|;
    HoldsAt(rx, 2, ds, follows, k);
    assert rx[at..][..len] == rx[at..at + len];
  }

  lemma {:induction false} LengthField(t: nat)
    requires t < 0x1000
    ensures (EC_ECATTYPE + t) % 0x1000 == t
  {
  }

  /** The working counter read out of a received frame is that of its last datagram. */
  lemma {:induction false} WkcSlot(rx: seq<byte>, ds: seq<Dgram>, follows: seq<bool>)
    requires Frame(rx, 0, ds, follows) && TotalSize(ds) < 0x1000
    ensures WordAt(rx, 0) % 0x1000 + 2 <= |rx| && ReadWkc(rx) == ds[|ds| - 1].wkc
  {
    var last := |ds| - 1;
    LengthField(TotalSize(ds));
    HoldsAt(rx, 2, ds, follows, last);
    hide Layout;
    assert ds[last + 1..] == [];
    assert 2 + TotalSize(ds[..last]) + 10 + |ds[last].data| == TotalSize(ds);
  }
}
