/** ethercatconfig.c: mapping the process data of one slave into logical memory. */
module Mapping {
  const EC_MAXSM := 8

  /** A pointer: NULL, into the IO map at an offset, or what NULL becomes when an offset is added. */
  datatype Pointer = Null | At(offset: nat) | Stray(address: nat)

  datatype Kind = Output | Input

  /** A sync manager: where its data lies in the slave, how long it is, and its type (3 outputs,
      4 inputs). */
  datatype Sm = Sm(StartAddr: nat, SMlength: nat, SMtype: nat)

  datatype Fmmu = Fmmu(LogStart: nat, LogLength: nat, LogStartbit: nat, LogEndbit: nat, PhysStart: nat,
                       kind: Kind, active: bool)

  /** The part of ec_slavet the mapping reads and writes.  FMMU entries are listed as they are
      programmed; `outputs` and `inputs` are offsets into the IO map. */
  datatype Slave = Slave(
    Obits: nat, Obytes: nat, outputs: Pointer, Ostartbit: nat,
    Ibits: nat, Ibytes: nat, inputs: Pointer, Istartbit: nat,
    SM: seq<Sm>, FMMU: seq<Fmmu>, group: nat, blockLRW: bool)

  function Bits(s: Slave, kind: Kind): nat { if kind.Output? then s.Obits else s.Ibits }

  function Bytes(s: Slave, kind: Kind): nat { if kind.Output? then s.Obytes else s.Ibytes }

  function PointerOf(s: Slave, kind: Kind): Pointer { if kind.Output? then s.outputs else s.inputs }

  function Startbit(s: Slave, kind: Kind): nat { if kind.Output? then s.Ostartbit else s.Istartbit }

  function SmType(kind: Kind): nat { if kind.Output? then 3 else 4 }

  /** Byte sizes as the sync manager setup leaves them: zero for fewer than 8 bits. */
  predicate Sized(s: Slave) {
    && |s.SM| == EC_MAXSM
    && s.Obytes == (if s.Obits > 7 then (s.Obits + 7) / 8 else 0)
    && s.Ibytes == (if s.Ibits > 7 then (s.Ibits + 7) / 8 else 0)
  }

  /** The first sync manager of the type from k on, the last one if there is none before it. */
  function NextOfType(sm: seq<Sm>, k: nat, ty: nat): (r: nat)
    requires |sm| == EC_MAXSM && k < EC_MAXSM
    ensures k <= r < EC_MAXSM
    decreases EC_MAXSM - k
  {
    if k < EC_MAXSM - 1 && sm[k].SMtype != ty then NextOfType(sm, k + 1, ty) else k
  }

  /** The bytes the sync managers of the type before k offer. */
  function Offered(sm: seq<Sm>, k: nat, ty: nat): nat
    requires k <= |sm|
  {
    if k == 0 then 0 else Offered(sm, k - 1, ty) + if sm[k - 1].SMtype == ty then sm[k - 1].SMlength else 0
  }

  lemma {:induction false} NothingSkipped(sm: seq<Sm>, k: nat, ty: nat)
    requires |sm| == EC_MAXSM && k < EC_MAXSM
    ensures Offered(sm, NextOfType(sm, k, ty), ty) == Offered(sm, k, ty)
    decreases EC_MAXSM - k
  {
    if k < EC_MAXSM - 1 && sm[k].SMtype != ty {
      NothingSkipped(sm, k + 1, ty);
    }
  }

  lemma {:induction false} OfferedOn(sm: seq<Sm>, k: nat, ty: nat)
    requires |sm| == EC_MAXSM && k < EC_MAXSM
    ensures Offered(sm, k + 1, ty) <= Offered(sm, k, ty) + sm[k].SMlength
  {
  }

  // ----- windows into a slave's memory -----

  /** Where an FMMU of a byte oriented slave leads, and how many bytes it maps. */
  datatype Window = Window(phys: nat, size: nat)

  /** From sync manager k on, which ends at EndAddr: go on while data is missing and addresses connect.  Gives
      the sync manager to look at next, and the bytes of all so far. */
  function Connect(sm: seq<Sm>, ty: nat, bits: nat, k: nat, count: nat, EndAddr: nat): (r: (nat, nat))
    requires |sm| == EC_MAXSM && k < EC_MAXSM
    ensures k <= r.0 < EC_MAXSM && r.1 >= count && (8 * r.1 >= bits || r.0 > k || k == EC_MAXSM - 1)
    decreases EC_MAXSM - k
  {
    if 8 * count < bits && k < EC_MAXSM - 1 then
      var c := NextOfType(sm, k + 1, ty);
      if sm[c].StartAddr > EndAddr then (c, count)
      else Connect(sm, ty, bits, c, count + sm[c].SMlength, (sm[c].StartAddr + sm[c].SMlength) % 0x1_0000)
    else (k, count)
  }

  lemma {:induction false} ConnectStep(sm: seq<Sm>, ty: nat, bits: nat, k: nat, count: nat, EndAddr: nat)
    requires |sm| == EC_MAXSM && k < EC_MAXSM
    ensures Connect(sm, ty, bits, k, count, EndAddr) ==
            if 8 * count < bits && k < EC_MAXSM - 1 then
              var c := NextOfType(sm, k + 1, ty);
              if sm[c].StartAddr > EndAddr then (c, count)
              else Connect(sm, ty, bits, c, count + sm[c].SMlength, (sm[c].StartAddr + sm[c].SMlength) % 0x1_0000)
            else (k, count)
  {
    hide NextOfType;
  }

  /** The sync managers of one FMMU, from k on. */
  function Collected(sm: seq<Sm>, ty: nat, bits: nat, k: nat, count: nat): (r: (nat, nat))
    requires |sm| == EC_MAXSM && k < EC_MAXSM
    ensures k <= r.0 < EC_MAXSM && r.1 >= count && (8 * r.1 >= bits || r.0 > k || k == EC_MAXSM - 1)
  {
    var c := NextOfType(sm, k, ty);
    Connect(sm, ty, bits, c, count + sm[c].SMlength, (sm[c].StartAddr + sm[c].SMlength) % 0x1_0000)
  }

  /** How many bytes an FMMU maps: not what its own sync managers bring, but what all so far do, up to what is
      missing. */
  function WindowSize(bytes: nat, count: nat, done: nat): (size: nat)
    requires done <= bytes
    ensures size <= bytes - done && (count > 0 && done < bytes ==> size > 0)
  {
    if count + done > bytes then bytes - done else count
  }

  /** The windows of a byte oriented slave from sync manager k on, when those before it brought `count` bytes
      and `done` bytes are mapped. */
  function Windows(s: Slave, kind: Kind, k: nat, count: nat, done: nat): seq<Window>
    requires Sized(s) && Bytes(s, kind) > 0 && k < EC_MAXSM && done <= Bytes(s, kind)
    decreases Bytes(s, kind) - done, EC_MAXSM - k
  {
    if k < EC_MAXSM - 1 && done < Bytes(s, kind) then
      var (c, n) := Collected(s.SM, SmType(kind), Bits(s, kind), k, count);
      var size := WindowSize(Bytes(s, kind), n, done);
      [Window(s.SM[NextOfType(s.SM, k, SmType(kind))].StartAddr, size)] + Windows(s, kind, c, n, done + size)
    else []
  }

  function WindowOf(f: Fmmu): Window { Window(f.PhysStart, f.LogLength) }

  function WindowsOf(fs: seq<Fmmu>): (ws: seq<Window>)
    ensures |ws| == |fs|
  {
    seq(|fs|, k requires 0 <= k < |fs| => WindowOf(fs[k]))
  }

  /** The FMMU entries programmed so far are the first windows of a byte oriented slave. */
  ghost predicate Leading(s: Slave, kind: Kind, fs: seq<Fmmu>, k: nat, count: nat, done: nat)
    requires Sized(s) && k < EC_MAXSM
  {
    Bytes(s, kind) > 0 ==>
      && done <= Bytes(s, kind)
      && WindowsOf(fs) + Windows(s, kind, k, count, done) == Windows(s, kind, 0, 0, 0)
  }

  lemma {:induction false} LeadingStep(s: Slave, kind: Kind, fs: seq<Fmmu>, k: nat, count: nat, done: nat, k': nat,
                                       count': nat, f: Fmmu, size: nat)
    requires Sized(s) && k < EC_MAXSM - 1 && k' < EC_MAXSM && Leading(s, kind, fs, k, count, done)
    requires 8 * done < Bits(s, kind) && (k', count') == Collected(s.SM, SmType(kind), Bits(s, kind), k, count)
    requires Bytes(s, kind) > 0 && done < Bytes(s, kind) ==>
               && size == WindowSize(Bytes(s, kind), count', done)
               && WindowOf(f) == Window(s.SM[NextOfType(s.SM, k, SmType(kind))].StartAddr, size)
    ensures Leading(s, kind, fs + [f], k', count', done + size)
  {
    hide Collected, NextOfType, WindowSize;
    if Bytes(s, kind) > 0 {
      var w, rest := WindowOf(f), Windows(s, kind, k', count', done + size);
      assert WindowsOf(fs + [f]) == WindowsOf(fs) + [w];
      assert Windows(s, kind, k, count, done) == [w] + rest;
      assert WindowsOf(fs) + ([w] + rest) == (WindowsOf(fs) + [w]) + rest;
    }
  }

  lemma {:induction false} LeadingEnd(s: Slave, kind: Kind, fs: seq<Fmmu>, k: nat, count: nat, done: nat)
    requires Sized(s) && k < EC_MAXSM && Leading(s, kind, fs, k, count, done)
    requires k == EC_MAXSM - 1 || 8 * done >= Bits(s, kind)
    ensures Bytes(s, kind) > 0 ==> WindowsOf(fs) == Windows(s, kind, 0, 0, 0)
  {
    hide Collected, NextOfType, WindowSize;
    if Bytes(s, kind) > 0 {
      assert Windows(s, kind, k, count, done) == [];
      assert WindowsOf(fs) + [] == WindowsOf(fs);
    }
  }

  lemma {:induction false} LeadingStart(s: Slave, kind: Kind)
    requires Sized(s)
    ensures Leading(s, kind, [], 0, 0, 0)
  {
    hide Windows;
  }

  // ----- runs of logical bits -----

  /** The first bit of an FMMU's logical run, and the bit behind its last. */
  function First(f: Fmmu): nat { 8 * f.LogStart + f.LogStartbit }

  function Behind(f: Fmmu): int { 8 * (f.LogStart + f.LogLength) - 8 + f.LogEndbit + 1 }

  /** The runs follow each other without gaps from bit `from` to bit `to`. */
  predicate Chain(fs: seq<Fmmu>, from: nat, to: nat) {
    if fs == [] then from == to
    else First(fs[|fs| - 1]) <= to == Behind(fs[|fs| - 1]) && from <= First(fs[|fs| - 1]) &&
         Chain(fs[..|fs| - 1], from, First(fs[|fs| - 1]))
  }

  lemma {:induction false} ChainOn(fs: seq<Fmmu>, from: nat, mid: nat, f: Fmmu, to: nat)
    requires Chain(fs, from, mid) && First(f) == mid <= to == Behind(f) && from <= mid
    ensures Chain(fs + [f], from, to)
  {
    assert (fs + [f])[..|fs|] == fs;
  }

  function AlignUp(bit: nat): (r: nat)
    ensures bit <= r < bit + 8 && r % 8 == 0
  {
    (bit + 7) / 8 * 8
  }

  /** FMMU entries fs map the kind of data of the slave to the bits from `from` to `to`, starting at its
      first sync manager of that type. */
  ghost predicate Started(s: Slave, kind: Kind, fs: seq<Fmmu>, from: nat, to: nat)
    requires |s.SM| == EC_MAXSM
  {
    && fs != [] && Chain(fs, from, to)
    && (forall k :: 0 <= k < |fs| ==> fs[k].kind == kind && fs[k].active == (kind.Output? || fs[k].LogLength > 0))
    && fs[0].PhysStart == s.SM[NextOfType(s.SM, 0, SmType(kind))].StartAddr
    && fs[0].LogStart == from / 8 && fs[0].LogStartbit == from % 8
  }

  lemma {:induction false} Append(s: Slave, kind: Kind, fs: seq<Fmmu>, from: nat, mid: nat, f: Fmmu, to: nat)
    requires |s.SM| == EC_MAXSM && First(f) == mid <= to == Behind(f)
    requires f.kind == kind && f.active == (kind.Output? || f.LogLength > 0)
    requires if fs == [] then from == mid && f.LogStart == mid / 8 && f.LogStartbit == mid % 8 &&
                              f.PhysStart == s.SM[NextOfType(s.SM, 0, SmType(kind))].StartAddr
             else Started(s, kind, fs, from, mid) && from <= mid
    ensures Started(s, kind, fs + [f], from, to)
  {
    hide NextOfType;
    ChainOn(fs, from, mid, f, to);
  }

  /** What the mapping of a slave's data gives, from bit cursor c on: a slave with fewer than 8 bits
      gets exactly its bits, right behind; any other gets whole bytes from the next byte edge on, and
      all its bytes if its sync managers offer them. */
  ghost predicate Allotted(s: Slave, kind: Kind, fs: seq<Fmmu>, c: nat, from: nat, to: nat)
    requires |s.SM| == EC_MAXSM
  {
    && Started(s, kind, fs, from, to)
    && if Bytes(s, kind) == 0 then from == c && to == c + Bits(s, kind)
       else from == AlignUp(c) && to % 8 == 0 && from <= to <= from + 8 * Bytes(s, kind) &&
            (Offered(s.SM, EC_MAXSM - 1, SmType(kind)) >= Bytes(s, kind) ==> to == from + 8 * Bytes(s, kind))
  }

  // ----- the mapping of one slave -----

  /** Skip sync managers of other types. */
  method SkipTo(sm: seq<Sm>, k: nat, ty: nat) returns (r: nat)
    requires |sm| == EC_MAXSM && k < EC_MAXSM
    ensures r == NextOfType(sm, k, ty)
  {
    r := k;
    while r < EC_MAXSM - 1 && sm[r].SMtype != ty
      invariant k <= r < EC_MAXSM && NextOfType(sm, r, ty) == NextOfType(sm, k, ty)
    {
      r := r + 1;
    }
  }

  /** Collect sync managers for one FMMU: as long as data is missing, and their addresses connect. */
  method CollectSm(sm: seq<Sm>, ty: nat, bits: nat, smc: nat, byteCount: nat)
    returns (SMc: nat, ByteCount: nat, PhysStart: nat)
    requires |sm| == EC_MAXSM && smc < EC_MAXSM - 1 && byteCount >= Offered(sm, smc, ty)
    ensures smc <= SMc < EC_MAXSM
    ensures PhysStart == sm[NextOfType(sm, smc, ty)].StartAddr && ByteCount >= byteCount
    ensures 8 * ByteCount >= bits || (smc < SMc && ByteCount >= Offered(sm, SMc, ty)) || SMc == EC_MAXSM - 1
    ensures 8 * ByteCount >= bits || ByteCount >= Offered(sm, SMc, ty)
    ensures (SMc, ByteCount) == Collected(sm, ty, bits, smc, byteCount)
  {
    hide NextOfType, Connect, Offered;
    SMc := SkipTo(sm, smc, ty);
    NothingSkipped(sm, smc, ty);
    OfferedOn(sm, SMc, ty);
    PhysStart := sm[SMc].StartAddr;
    ByteCount := byteCount + sm[SMc].SMlength;
    var BitCount := 8 * ByteCount;
    var EndAddr: nat := (sm[SMc].StartAddr + sm[SMc].SMlength) % 0x1_0000;
    var connected := true;
    ghost var target := Collected(sm, ty, bits, smc, byteCount);
    while BitCount < bits && SMc < EC_MAXSM - 1 && connected // more SM for the data
      invariant smc <= SMc < EC_MAXSM && BitCount == 8 * ByteCount
      invariant ByteCount >= Offered(sm, SMc, ty) && ByteCount >= byteCount
      invariant connected ==> target == Connect(sm, ty, bits, SMc, ByteCount, EndAddr)
      invariant !connected ==> target == (SMc, ByteCount)
      invariant if connected then ByteCount >= Offered(sm, SMc + 1, ty) || SMc == EC_MAXSM - 1 else smc < SMc
      decreases EC_MAXSM - SMc
    {
      ConnectStep(sm, ty, bits, SMc, ByteCount, EndAddr);
      SMc := SMc + 1;
      NothingSkipped(sm, SMc, ty);
      SMc := SkipTo(sm, SMc, ty);
      OfferedOn(sm, SMc, ty);
      // a gap ends the FMMU's window
      if sm[SMc].StartAddr > EndAddr {
        connected := false;
      } else {
        ByteCount := ByteCount + sm[SMc].SMlength;
        BitCount := BitCount + sm[SMc].SMlength * 8;
        EndAddr := (sm[SMc].StartAddr + sm[SMc].SMlength) % 0x1_0000;
      }
    }
    if connected {
      ConnectStep(sm, ty, bits, SMc, ByteCount, EndAddr);
    }
  }

  /** One FMMU's worth of mapping: a bit oriented slave takes its bits at the cursor, a byte oriented
      one takes the bytes its sync managers bring, up to what it still misses, from the next byte on. */
  ghost predicate Placed(s: Slave, kind: Kind, byteCount: nat, done: nat, cursor: nat, phys: nat, f: Fmmu, size: nat,
                         to: nat)
  {
    && f.PhysStart == phys && f.kind == kind && f.LogLength == size && f.active == (kind.Output? || size > 0)
    && f.LogStart == First(f) / 8 && f.LogStartbit == First(f) % 8 && Behind(f) == to
    && if Bytes(s, kind) == 0 then size >= 1 && First(f) == cursor && to == cursor + Bits(s, kind)
       else
         && size == (if byteCount + done > Bytes(s, kind) then Bytes(s, kind) - done else byteCount)
         && First(f) == AlignUp(cursor) && to == First(f) + 8 * size
  }

  /** The run of logical addresses of one FMMU. */
  method Place(s: Slave, kind: Kind, byteCount: nat, done: nat, phys: nat, logAddr: nat, bitPos: nat)
    returns (f: Fmmu, FMMUsize: nat, LogAddr: nat, BitPos: nat)
    requires Sized(s) && Bits(s, kind) > 0 && bitPos < 8 && (Bytes(s, kind) > 0 ==> done < Bytes(s, kind))
    ensures BitPos < 8 && (Bytes(s, kind) > 0 ==> BitPos == 0)
    ensures Placed(s, kind, byteCount, done, 8 * logAddr + bitPos, phys, f, FMMUsize, 8 * LogAddr + BitPos)
    ensures logAddr <= f.LogStart <= LogAddr
  {
    LogAddr, BitPos := logAddr, bitPos;
    if Bytes(s, kind) == 0 { // bit oriented slave
      BitPos := BitPos + Bits(s, kind) - 1;
      if BitPos > 7 {
        LogAddr := LogAddr + 1;
        BitPos := BitPos - 8;
      }
      FMMUsize := LogAddr - logAddr + 1;
      f := Fmmu(logAddr, FMMUsize, bitPos, BitPos, phys, kind, true);
      BitPos := BitPos + 1;
      if BitPos > 7 {
        LogAddr := LogAddr + 1;
        BitPos := BitPos - 8;
      }
    } else { // byte oriented slave
      if BitPos != 0 {
        LogAddr := LogAddr + 1;
        BitPos := 0;
      }
      var start := LogAddr;
      FMMUsize := byteCount;
      if FMMUsize + done > Bytes(s, kind) {
        FMMUsize := Bytes(s, kind) - done;
      }
      LogAddr := LogAddr + FMMUsize;
      f := Fmmu(start, FMMUsize, 0, 7, phys, kind, kind.Output? || FMMUsize != 0);
    }
  }

  /** How far the mapping of a slave has got: `done` bytes in the runs fs, which end at bit `to`. */
  ghost predicate Progress(s: Slave, kind: Kind, fs: seq<Fmmu>, c: nat, from: nat, to: nat, ByteCount: nat, done: nat,
                           SMc: nat)
    requires |s.SM| == EC_MAXSM && SMc < EC_MAXSM
  {
    && from == (if Bytes(s, kind) == 0 then c else AlignUp(c))
    && if fs == [] then SMc == 0 && done == 0 && ByteCount == 0 && to == c
       else
         && Started(s, kind, fs, from, to)
         && if Bytes(s, kind) == 0 then done >= 1 && to == c + Bits(s, kind)
            else
              && to % 8 == 0 && to == from + 8 * done && done <= Bytes(s, kind)
              && (done >= Bytes(s, kind) || done >= ByteCount >= Offered(s.SM, SMc, SmType(kind)))
  }

  lemma {:induction false} ProgressStep(s: Slave, kind: Kind, fs: seq<Fmmu>, c: nat, from: nat, cursor: nat,
                                        count: nat, done: nat, smc: nat, ByteCount: nat, SMc: nat, phys: nat, f: Fmmu,
                                        size: nat, to: nat)
    requires Sized(s) && Bits(s, kind) > 0 && smc < EC_MAXSM && SMc < EC_MAXSM
    requires Progress(s, kind, fs, c, from, cursor, count, done, smc) && 8 * done < Bits(s, kind)
    requires phys == s.SM[NextOfType(s.SM, smc, SmType(kind))].StartAddr
    requires ByteCount >= count
    requires 8 * ByteCount >= Bits(s, kind) || ByteCount >= Offered(s.SM, SMc, SmType(kind))
    requires Placed(s, kind, ByteCount, done, cursor, phys, f, size, to)
    ensures Progress(s, kind, fs + [f], c, from, to, ByteCount, done + size, SMc)
  {
    hide Chain, NextOfType, Offered;
    assert First(f) == if fs == [] then from else cursor;
    Append(s, kind, fs, from, First(f), f, to);
  }

  /** The slave after one FMMU was programmed: the first one sets its pointer into the IO map. */
  function Programmed(s: Slave, kind: Kind, f: Fmmu, base: nat): Slave
    requires base <= f.LogStart
  {
    var s := s.(FMMU := s.FMMU + [f]);
    if PointerOf(s, kind) != Null then s
    else if kind.Output? then s.(outputs := At(f.LogStart - base), Ostartbit := f.LogStartbit)
    else s.(inputs := At(f.LogStart - base), Istartbit := f.LogStartbit)
  }

  /** The slave after its data was mapped from bit `from` on: a pointer set earlier is kept. */
  function Mapped(s: Slave, kind: Kind, fs: seq<Fmmu>, from: nat, base: nat): Slave
    requires base <= from / 8
  {
    var s := s.(FMMU := s.FMMU + fs);
    if PointerOf(s, kind) != Null then s
    else if kind.Output? then s.(outputs := At(from / 8 - base), Ostartbit := from % 8)
    else s.(inputs := At(from / 8 - base), Istartbit := from % 8)
  }

  lemma {:induction false} ProgrammedOn(s: Slave, kind: Kind, fs: seq<Fmmu>, from: nat, base: nat, f: Fmmu)
    requires base <= from / 8 && base <= f.LogStart
    requires fs == [] ==> f.LogStart == from / 8 && f.LogStartbit == from % 8
    ensures Programmed(if fs == [] then s else Mapped(s, kind, fs, from, base), kind, f, base) ==
            Mapped(s, kind, fs + [f], from, base)
  {
    if fs == [] {
      assert s.FMMU + [f] == s.FMMU + (fs + [f]);
    } else {
      assert (s.FMMU + fs) + [f] == s.FMMU + (fs + [f]);
    }
  }

  lemma {:induction false} NothingYet(s: Slave, kind: Kind, c: nat, from: nat)
    requires Sized(s) && from == (if Bytes(s, kind) == 0 then c else AlignUp(c))
    ensures Progress(s, kind, [], c, from, c, 0, 0, 0)
  {
  }

  lemma {:induction false} Going(s: Slave, kind: Kind, fs: seq<Fmmu>, c: nat, from: nat, to: nat, ByteCount: nat,
                                 done: nat, SMc: nat)
    requires Sized(s) && SMc < EC_MAXSM && 8 * done < Bits(s, kind)
    requires Progress(s, kind, fs, c, from, to, ByteCount, done, SMc)
    ensures Bytes(s, kind) > 0 ==> done < Bytes(s, kind)
    ensures ByteCount >= Offered(s.SM, SMc, SmType(kind)) || (Bytes(s, kind) == 0 && fs != [])
    ensures fs == [] || Bytes(s, kind) > 0
    ensures fs == [] ==> SMc == 0 && to == c
    ensures c <= from && (fs == [] || from <= to)
  {
    hide Started, NextOfType;
  }

  /** The bytes are mapped, or all sync managers were looked at. */
  lemma {:induction false} Finished(s: Slave, kind: Kind, fs: seq<Fmmu>, c: nat, from: nat, to: nat, ByteCount: nat,
                                    done: nat, SMc: nat)
    requires Sized(s) && Bits(s, kind) > 0 && SMc < EC_MAXSM
    requires Progress(s, kind, fs, c, from, to, ByteCount, done, SMc)
    requires SMc == EC_MAXSM - 1 || 8 * done >= Bits(s, kind)
    ensures Allotted(s, kind, fs, c, from, to) && fs != []
  {
    hide Started, NextOfType, Offered;
  }

  lemma {:induction false} FirstRun(s: Slave, kind: Kind, count: nat, done: nat, cursor: nat, phys: nat, f: Fmmu,
                                    size: nat, to: nat)
    requires Placed(s, kind, count, done, cursor, phys, f, size, to)
    ensures f.LogStart == (if Bytes(s, kind) == 0 then cursor else AlignUp(cursor)) / 8
    ensures f.LogStartbit == (if Bytes(s, kind) == 0 then cursor else AlignUp(cursor)) % 8
  {
  }

  lemma {:induction false} PlacedWindow(s: Slave, kind: Kind, count: nat, done: nat, cursor: nat, phys: nat, f: Fmmu,
                                        size: nat, to: nat)
    requires Placed(s, kind, count, done, cursor, phys, f, size, to)
    ensures Bytes(s, kind) > 0 && done < Bytes(s, kind) ==>
              size == WindowSize(Bytes(s, kind), count, done) && WindowOf(f) == Window(phys, size)
  {
  }

  /** ecx_config_create_output_mappings and ecx_config_create_input_mappings: the two loops differ
      only in the fields they use.  `base` is what is subtracted from a logical address to get an
      offset into the IO map. */
  method CreateMappings(s: Slave, kind: Kind, base: nat, logAddr: nat, bitPos: nat)
    returns (s': Slave, LogAddr: nat, BitPos: nat, ghost fs: seq<Fmmu>, ghost from: nat)
    requires Sized(s) && Bits(s, kind) > 0 && bitPos < 8 && base <= logAddr
    ensures BitPos < 8 && (Bytes(s, kind) > 0 ==> BitPos == 0)
    ensures Allotted(s, kind, fs, 8 * logAddr + bitPos, from, 8 * LogAddr + BitPos)
    ensures base <= from / 8 && s' == Mapped(s, kind, fs, from, base)
    ensures Bytes(s, kind) > 0 ==> WindowsOf(fs) == Windows(s, kind, 0, 0, 0)
  {
    hide Started, NextOfType, Offered, Placed, Progress, Programmed, Mapped, AlignUp, Allotted, Collected, Leading,
      Windows, WindowsOf, WindowOf, WindowSize;
    var ByteCount: nat, FMMUdone: nat, SMc := 0, 0, 0;
    s', LogAddr, BitPos, fs := s, logAddr, bitPos, [];
    ghost var c := 8 * logAddr + bitPos;
    from := if Bytes(s, kind) == 0 then c else AlignUp(c);
    NothingYet(s, kind, c, from);
    LeadingStart(s, kind);
    while SMc < EC_MAXSM - 1 && FMMUdone < (Bits(s, kind) + 7) / 8
      invariant SMc < EC_MAXSM && BitPos < 8 && base <= LogAddr
      invariant fs != [] && Bytes(s, kind) > 0 ==> BitPos == 0
      invariant Progress(s, kind, fs, c, from, 8 * LogAddr + BitPos, ByteCount, FMMUdone, SMc)
      invariant Leading(s, kind, fs, SMc, ByteCount, FMMUdone)
      invariant s' == if fs == [] then s else Mapped(s, kind, fs, from, base)
      decreases if FMMUdone < (Bits(s, kind) + 7) / 8 then 1 else 0, EC_MAXSM - SMc
    {
      Going(s, kind, fs, c, from, 8 * LogAddr + BitPos, ByteCount, FMMUdone, SMc);
      ghost var smc, count, cursor, done := SMc, ByteCount, 8 * LogAddr + BitPos, FMMUdone;
      var phys, f, FMMUsize;
      SMc, ByteCount, phys := CollectSm(s.SM, SmType(kind), Bits(s, kind), SMc, ByteCount);
      f, FMMUsize, LogAddr, BitPos := Place(s, kind, ByteCount, FMMUdone, phys, LogAddr, BitPos);
      ProgressStep(s, kind, fs, c, from, cursor, count, done, smc, ByteCount, SMc, phys, f, FMMUsize,
                   8 * LogAddr + BitPos);
      FirstRun(s, kind, ByteCount, done, cursor, phys, f, FMMUsize, 8 * LogAddr + BitPos);
      PlacedWindow(s, kind, ByteCount, FMMUdone, cursor, phys, f, FMMUsize, 8 * LogAddr + BitPos);
      LeadingStep(s, kind, fs, smc, count, done, SMc, ByteCount, f, FMMUsize);
      ProgrammedOn(s, kind, fs, from, base, f);
      fs := fs + [f];
      FMMUdone := FMMUdone + FMMUsize;
      s' := Programmed(s', kind, f, base);
    }
    Finished(s, kind, fs, c, from, 8 * LogAddr + BitPos, ByteCount, FMMUdone, SMc);
    LeadingEnd(s, kind, fs, SMc, ByteCount, FMMUdone);
  }
}
