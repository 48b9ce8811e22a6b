/** ethercatmain.c: reading a PDO section of the slave information EEPROM. */
module SiiPdo {
  import opened Bytes
  import opened Sii

  const EC_MAXSM: nat := 8
  const EC_MAXEEPDO: nat := 0x200
  const ECT_SII_PDO: uint16 := 50

  /** A PDO of the section: its index, its sync manager, the bit length of each entry. */
  datatype Pdo = Pdo(index: uint16, syncM: byte, bits: seq<byte>)

  function Sum(bits: seq<byte>): nat {
    if bits == [] then 0 else Sum(bits[..|bits| - 1]) + bits[|bits| - 1]
  }

  /** Words a PDO takes: four, and four more for each entry. */
  function Words(pdos: seq<Pdo>): nat {
    if pdos == [] then 0 else Words(pdos[..|pdos| - 1]) + 4 + 4 * |pdos[|pdos| - 1].bits|
  }

  /** One PDO is stored at a. */
  predicate Stored(rom: nat -> byte, a: nat, p: Pdo) {
    && |p.bits| < 0x100
    && Word(Direct(rom, a), Direct(rom, a + 1)) == p.index && Direct(rom, a + 2) == |p.bits| &&
      Direct(rom, a + 3) == p.syncM
    && forall k :: 0 <= k < |p.bits| ==> Direct(rom, a + 8 + 8 * k + 5) == p.bits[k]
  }

  /** The PDOs are stored one after the other from a on. */
  predicate AllStored(rom: nat -> byte, a: nat, pdos: seq<Pdo>) {
    forall v :: 0 <= v < |pdos| ==> Stored(rom, a + 2 * Words(pdos[..v]), pdos[v])
  }

  /** A section with these PDOs: its length in words, then the PDOs. */
  predicate Section(rom: nat -> byte, a: nat, pdos: seq<Pdo>) {
    && pdos != [] && a > 0 && a + 2 + 2 * Words(pdos) + 8 <= EC_MAXEEPBUF
    && Word(Direct(rom, a), Direct(rom, a + 1)) == Words(pdos)
    && AllStored(rom, a + 2, pdos)
  }

  // ----- the bytes of a section -----

  /** Each entry takes eight bytes, its bit length the sixth; the others tell nothing about sizes. */
  function EntryBytes(bits: seq<byte>): (bytes: seq<byte>)
    ensures |bytes| == 8 * |bits|
  {
    if bits == [] then [] else [0, 0, 0, 0, 0, bits[0], 0, 0] + EntryBytes(bits[1..])
  }

  /** A PDO: its index, low byte first, its number of entries, its sync manager, four more bytes and the
      entries. */
  function PdoBytes(p: Pdo): seq<byte>
    requires |p.bits| < 256
  {
    [p.index % 256, p.index / 256, |p.bits|, p.syncM, 0, 0, 0, 0] + EntryBytes(p.bits)
  }

  function AllBytes(pdos: seq<Pdo>): seq<byte>
    requires forall p :: p in pdos ==> |p.bits| < 256
  {
    if pdos == [] then [] else PdoBytes(pdos[0]) + AllBytes(pdos[1..])
  }

  predicate Has(rom: nat -> byte, a: nat, bytes: seq<byte>) {
    forall i: nat :: i < |bytes| ==> rom(a + i) == bytes[i]
  }

  lemma {:induction false} EntryAt(bits: seq<byte>, k: nat)
    requires k < |bits|
    ensures EntryBytes(bits)[8 * k + 5] == bits[k]
    decreases k
  {
    if k > 0 {
      EntryAt(bits[1..], k - 1);
    }
  }

  lemma {:induction false} HasParts(rom: nat -> byte, a: nat, x: seq<byte>, y: seq<byte>)
    requires Has(rom, a, x + y)
    ensures Has(rom, a, x) && Has(rom, a + |x|, y)
  {
    forall i: nat | i < |x| ensures rom(a + i) == x[i] {
      assert (x + y)[i] == x[i];
    }
    forall i: nat | i < |y| ensures rom(a + |x| + i) == y[i] {
      assert (x + y)[|x| + i] == y[i] && rom(a + (|x| + i)) == y[i];
    }
  }

  lemma {:induction false} PdoStored(rom: nat -> byte, a: nat, p: Pdo)
    requires |p.bits| < 256 && Has(rom, a, PdoBytes(p)) && a + 8 + 8 * |p.bits| <= 4096
    ensures Stored(rom, a, p)
  {
    var bytes := PdoBytes(p);
    assert rom(a + 0) == bytes[0] && rom(a + 1) == bytes[1] && rom(a + 2) == bytes[2] && rom(a + 3) == bytes[3];
    WordOfParts(p.index);
    forall k | 0 <= k < |p.bits| ensures Direct(rom, a + 8 + 8 * k + 5) == p.bits[k] {
      EntryAt(p.bits, k);
      assert bytes[8 + (8 * k + 5)] == p.bits[k] && rom(a + (8 + (8 * k + 5))) == p.bits[k];
    }
  }

  lemma {:induction false} WordsFromFirst(p: Pdo, rest: seq<Pdo>)
    ensures Words([p] + rest) == 4 + 4 * |p.bits| + Words(rest)
  {
    var all := [p] + rest;
    if rest == [] {
      assert all[..0] == [];
    } else {
      WordsFromFirst(p, rest[..|rest| - 1]);
      assert all[..|rest|] == [p] + rest[..|rest| - 1];
    }
  }

  lemma {:induction false} OneBefore(rom: nat -> byte, a: nat, p: Pdo, rest: seq<Pdo>)
    requires Stored(rom, a, p) && AllStored(rom, a + 8 + 8 * |p.bits|, rest)
    ensures AllStored(rom, a, [p] + rest)
  {
    hide Stored, Words;
    var all := [p] + rest;
    forall v | 0 <= v < |all| ensures Stored(rom, a + 2 * Words(all[..v]), all[v]) {
      if v == 0 {
        NoWords(all);
      } else {
        assert all[..v] == [p] + rest[..v - 1];
        WordsFromFirst(p, rest[..v - 1]);
        assert Stored(rom, a + 8 + 8 * |p.bits| + 2 * Words(rest[..v - 1]), rest[v - 1]);
      }
    }
  }

  lemma {:induction false} BytesStored(rom: nat -> byte, a: nat, pdos: seq<Pdo>)
    requires (forall p :: p in pdos ==> |p.bits| < 256) && Has(rom, a, AllBytes(pdos))
    requires a + |AllBytes(pdos)| <= 4096
    ensures AllStored(rom, a, pdos) && |AllBytes(pdos)| == 2 * Words(pdos)
    decreases |pdos|
  {
    hide Has, Stored, PdoBytes;
    if pdos == [] {
      NoWords(pdos);
    } else {
      var p, rest := pdos[0], pdos[1..];
      assert pdos == [p] + rest;
      hide AllStored, Words;
      PdoSize(p);
      HasParts(rom, a, PdoBytes(p), AllBytes(rest));
      PdoStored(rom, a, p);
      BytesStored(rom, a + |PdoBytes(p)|, rest);
      OneBefore(rom, a, p, rest);
      WordsFromFirst(p, rest);
    }
  }

  lemma {:induction false} PdoSize(p: Pdo)
    requires |p.bits| < 256
    ensures |PdoBytes(p)| == 8 + 8 * |p.bits|
  {
  }

  /** A section of the EEPROM that is these bytes, with the number of its words before them, holds the PDOs. */
  lemma {:induction false} SectionOfBytes(rom: nat -> byte, a: nat, pdos: seq<Pdo>)
    requires pdos != [] && forall p :: p in pdos ==> |p.bits| < 256
    requires a > 0 && a + 2 + |AllBytes(pdos)| + 8 <= 4096
    requires Has(rom, a, [|AllBytes(pdos)| / 2 % 256, |AllBytes(pdos)| / 2 / 256] + AllBytes(pdos))
    ensures Section(rom, a, pdos) && 2 * Words(pdos) == |AllBytes(pdos)|
  {
    hide AllStored, AllBytes;
    var head: seq<byte> := [|AllBytes(pdos)| / 2 % 256, |AllBytes(pdos)| / 2 / 256];
    HasParts(rom, a, head, AllBytes(pdos));
    BytesStored(rom, a + 2, pdos);
    assert rom(a + 0) == head[0] && rom(a + 1) == head[1];
    WordOfParts(Words(pdos));
  }

  // ----- what is to be read -----

  /** The bits a PDO contributes: none when its sync manager is out of range. */
  function BitSize(p: Pdo): nat { if p.syncM < EC_MAXSM then Sum(p.bits) else 0 }

  /** The bits of all PDOs of a sync manager. */
  function SmBits(pdos: seq<Pdo>, sm: nat): nat {
    if pdos == [] then 0
    else SmBits(pdos[..|pdos| - 1], sm) + if pdos[|pdos| - 1].syncM == sm then BitSize(pdos[|pdos| - 1]) else 0
  }

  function AllBits(pdos: seq<Pdo>): nat {
    if pdos == [] then 0 else AllBits(pdos[..|pdos| - 1]) + BitSize(pdos[|pdos| - 1])
  }

  /** The sync managers' bits from number n - 1 down. */
  function SmTotal(pdos: seq<Pdo>, n: nat): nat {
    if n == 0 then 0 else SmTotal(pdos, n - 1) + SmBits(pdos, n - 1)
  }

  /** The sizes of the eight sync managers make up the size of the section. */
  lemma {:induction false} SizesAddUp(pdos: seq<Pdo>)
    ensures SmTotal(pdos, EC_MAXSM) == AllBits(pdos)
  {
    if pdos == [] {
      NothingAddsUp(EC_MAXSM);
    } else {
      var rest := pdos[..|pdos| - 1];
      SizesAddUp(rest);
      OneMore(rest, pdos[|pdos| - 1], EC_MAXSM);
      assert pdos == rest + [pdos[|pdos| - 1]];
    }
  }

  lemma {:induction false} NothingAddsUp(n: nat)
    ensures SmTotal([], n) == 0
  {
    if n > 0 {
      NothingAddsUp(n - 1);
    }
  }

  lemma {:induction false} OneMore(pdos: seq<Pdo>, p: Pdo, n: nat)
    ensures SmTotal(pdos + [p], n) == SmTotal(pdos, n) + if p.syncM < n then BitSize(p) else 0
  {
    hide BitSize;
    assert (pdos + [p])[..|pdos|] == pdos;
    if n > 0 {
      OneMore(pdos, p, n - 1);
    }
  }

  /** The record that is filled in.  Index, SyncM and BitSize start with PDO number 1. */
  datatype EepromPdo = EepromPdo(Startpos: nat, Length: nat, Index: seq<uint16>, SyncM: seq<byte>,
                                 BitSize: seq<nat>, SMbitsize: seq<nat>)

  /** The record holds the PDOs, the sizes as 16-bit counters give them. */
  predicate Holds(r: EepromPdo, pdos: seq<Pdo>) {
    && |r.Index| == |r.SyncM| == |r.BitSize| == |pdos| && |r.SMbitsize| == EC_MAXSM
    && (forall v :: 0 <= v < |pdos| ==>
        r.Index[v] == pdos[v].index && r.SyncM[v] == pdos[v].syncM && r.BitSize[v] == BitSize(pdos[v]))
    && (forall m :: 0 <= m < EC_MAXSM ==> r.SMbitsize[m] == SmBits(pdos, m) % 0x1_0000)
  }

  lemma {:induction false} WordsGrow(pdos: seq<Pdo>, v: nat)
    requires v < |pdos|
    ensures Words(pdos[..v + 1]) == Words(pdos[..v]) + 4 + 4 * |pdos[v].bits| <= Words(pdos)
    ensures v + 1 == |pdos| || Words(pdos[..v + 1]) + 4 <= Words(pdos)
    decreases |pdos| - v
  {
    assert pdos[..v + 1][..v] == pdos[..v];
    if v + 1 < |pdos| {
      WordsGrow(pdos, v + 1);
    } else {
      assert pdos[..v + 1] == pdos;
    }
  }

  lemma {:induction false} HoldsOn(r: EepromPdo, pdos: seq<Pdo>, v: nat, r': EepromPdo)
    requires v < |pdos| && Holds(r, pdos[..v])
    requires r'.Index == r.Index + [pdos[v].index] && r'.SyncM == r.SyncM + [pdos[v].syncM] &&
             r'.BitSize == r.BitSize + [BitSize(pdos[v])]
    requires r'.SMbitsize == if pdos[v].syncM < EC_MAXSM
                             then r.SMbitsize[pdos[v].syncM := (r.SMbitsize[pdos[v].syncM] +
                               BitSize(pdos[v])) % 0x1_0000]
                             else r.SMbitsize
    ensures Holds(r', pdos[..v + 1])
  {
    hide BitSize;
    assert pdos[..v + 1][..v] == pdos[..v];
  }

  lemma {:induction false} AllBitsOn(pdos: seq<Pdo>, v: nat)
    requires v < |pdos|
    ensures AllBits(pdos[..v + 1]) == AllBits(pdos[..v]) + BitSize(pdos[v])
  {
    assert pdos[..v + 1][..v] == pdos[..v];
  }

  lemma {:induction false} SumOn(bits: seq<byte>, k: nat)
    requires k < |bits|
    ensures Sum(bits[..k + 1]) == Sum(bits[..k]) + bits[k]
  {
    assert bits[..k + 1][..k] == bits[..k];
  }

  /** Addresses of the section lie inside the buffer, chunks and all. */
  lemma {:induction false} SectionInside(a: nat, eight: bool)
    requires a + 8 <= EC_MAXEEPBUF
    ensures Inside(a, eight)
  {
  }

  /** The bit lengths of the e entries of one PDO, from a on. */
  method ReadEntries(context: Context, slave: nat, a: nat, e: nat, ghost p: Pdo) returns (bitSize: nat)
    requires context.Valid() && Stored(context.rom(slave), a, p) && e == |p.bits| && a + 8 + 8 * e + 8 <= EC_MAXEEPBUF
    modifies context`esislave, context.esibuf, context.esimap
    ensures context.Valid() && bitSize == Sum(p.bits)
  {
    hide Sii.Context.Valid, Direct;
    bitSize := 0;
    var er := 0;
    while er < e
      invariant er <= e && context.Valid() && bitSize == Sum(p.bits[..er])
    {
      SectionInside(a + 8 + 8 * er + 5, context.eep_8byte(slave));
      var b := context.SiiGetByte(slave, a + 8 + 8 * er + 5);
      SumOn(p.bits, er);
      bitSize := bitSize + b;
      er := er + 1;
    }
    assert p.bits[..er] == p.bits;
  }

  /** What the section gives when all its PDOs are in the record. */
  predicate Parsed(r: EepromPdo, Size: nat, pdos: seq<Pdo>) {
    Holds(r, pdos) && Size == AllBits(pdos) % 0x1_0000
  }

  lemma {:induction false} PdoInside(rom: nat -> byte, a: nat, pdos: seq<Pdo>, v: nat)
    requires Section(rom, a, pdos) && v < |pdos|
    ensures Stored(rom, a + 2 + 2 * Words(pdos[..v]), pdos[v])
    ensures a + 2 + 2 * Words(pdos[..v]) + 8 + 8 * |pdos[v].bits| + 8 <= EC_MAXEEPBUF
    ensures Words(pdos[..v + 1]) == Words(pdos[..v]) + 4 + 4 * |pdos[v].bits|
    ensures if v + 1 == |pdos| then Words(pdos[..v + 1]) == Words(pdos) else 1 + Words(pdos[..v + 1]) < Words(pdos)
    ensures v + 1 < EC_MAXEEPDO - 1
  {
    hide Stored, Direct;
    assert v + 1 == |pdos| ==> pdos[..v + 1] == pdos;
    WordsGrow(pdos, v);
    WordsAtLeast(pdos, v + 1);
  }

  lemma {:induction false} WordsAtLeast(pdos: seq<Pdo>, v: nat)
    requires v <= |pdos|
    ensures 4 * v <= Words(pdos[..v])
  {
    if v > 0 {
      assert pdos[..v][..v - 1] == pdos[..v - 1];
      WordsAtLeast(pdos, v - 1);
    }
  }

  /** One turn of the loop over the PDOs. */
  method NextPdo(context: Context, slave: nat, a: nat, c: nat, Size: nat, r: EepromPdo, ghost start: nat,
                 ghost pdos: seq<Pdo>, ghost v: nat)
    returns (a': nat, c': nat, Size': nat, r': EepromPdo)
    requires context.Valid() && Section(context.rom(slave), start, pdos) && v < |pdos| && Parsed(r, Size, pdos[..v])
    requires a == start + 2 + 2 * Words(pdos[..v]) && c == 1 + Words(pdos[..v])
    modifies context`esislave, context.esibuf, context.esimap
    ensures context.Valid() && Parsed(r', Size', pdos[..v + 1])
    ensures a' == start + 2 + 2 * Words(pdos[..v + 1]) && c' == 1 + Words(pdos[..v + 1])
    ensures r'.Startpos == r.Startpos && r'.Length == r.Length
  {
    hide Sii.Context.Valid, Direct, Stored, Words, AllBits, Holds, BitSize, Inside, Sum, Section;
    ghost var p := pdos[v];
    PdoInside(context.rom(slave), start, pdos, v);
    var index, e, syncM := ReadHead(context, slave, a, p);
    c' := c + 3;
    var bitSize := 0;
    if syncM < EC_MAXSM { // its entries count
      bitSize := ReadEntries(context, slave, a, e, p);
      c' := c' + 4 * e + 1;
    } else { // they do not
      c' := c' + 4 * e + 1;
    }
    a' := a + 8 + 8 * e;
    PdoBits(p, bitSize);
    r' := r.(Index := r.Index + [index], SyncM := r.SyncM + [syncM], BitSize := r.BitSize + [bitSize]);
    Size' := Size;
    HeldSizes(r, pdos[..v]);
    if syncM < EC_MAXSM {
      r' := r'.(SMbitsize := r'.SMbitsize[syncM := (r'.SMbitsize[syncM] + bitSize) % 0x1_0000]);
      Size' := (Size + bitSize) % 0x1_0000;
    }
    HoldsOn(r, pdos, v, r');
    AllBitsOn(pdos, v);
  }

  /** ecx_siiPDO on a section with these PDOs. */
  method SiiPDO(context: Context, slave: nat, t: nat, ghost pdos: seq<Pdo>) returns (Size: nat, r: EepromPdo)
    requires context.Valid() && WellFormed(context.rom(slave), context.eep_8byte(slave), 2 * ECT_SII_START)
    requires var start := Find(context.rom(slave), context.eep_8byte(slave), 2 * ECT_SII_START,
                               ECT_SII_PDO + if t > 0 then 1 else 0);
             start > 0 ==> Section(context.rom(slave), start, pdos)
    modifies context`esislave, context.esibuf, context.esimap
    ensures context.Valid()
    ensures r.Startpos == Find(context.rom(slave), context.eep_8byte(slave), 0x80, if t > 0 then 51 else 50)
    ensures if r.Startpos > 0 then Parsed(r, Size, pdos) && r.Length == Words(pdos) else Parsed(r, Size, [])
  {
    hide Sii.Context.Valid, Direct, WellFormed, Find, Stored, Words, AllBits, Holds, BitSize, Inside, Sum;
    ghost var rom := context.rom(slave);
    var t' := if t > 1 then 1 else t;
    var start := context.SiiFind(slave, ECT_SII_PDO + t');
    r := EepromPdo(start, 0, [], [], [], seq(EC_MAXSM, _ => 0));
    Size := 0;
    NothingHeld(r);
    if start > 0 {
      SectionInside(start, context.eep_8byte(slave));
      SectionInside(start + 1, context.eep_8byte(slave));
      var w := context.SiiGetWord(slave, start);
      r := r.(Length := w);
      HeldStill(r.(Length := 0), r, []);
      var a, c, nPDO := start + 2, 1, 0;
      NoWords(pdos);
      while nPDO == 0 || c < r.Length
        invariant context.Valid() && nPDO <= |pdos| && r.Startpos == start && r.Length == Words(pdos)
        invariant a == start + 2 + 2 * Words(pdos[..nPDO]) && c == 1 + Words(pdos[..nPDO])
        invariant nPDO < |pdos| <==> (nPDO == 0 || c < r.Length)
        invariant Parsed(r, Size, pdos[..nPDO])
        decreases |pdos| - nPDO
      {
        PdoInside(rom, start, pdos, nPDO);
        a, c, Size, r := NextPdo(context, slave, a, c, Size, r, start, pdos, nPDO);
        nPDO := nPDO + 1;
        if nPDO >= EC_MAXEEPDO - 1 {
          c := r.Length; // the record is full
        }
      }
      assert pdos[..nPDO] == pdos;
    }
  }

  /** Index, number of entries and sync manager of one PDO. */
  method ReadHead(context: Context, slave: nat, a: nat, ghost p: Pdo) returns (index: uint16, e: nat, syncM: byte)
    requires context.Valid() && Stored(context.rom(slave), a, p) && a + 16 <= EC_MAXEEPBUF
    modifies context`esislave, context.esibuf, context.esimap
    ensures context.Valid() && index == p.index && e == |p.bits| && syncM == p.syncM
  {
    hide Sii.Context.Valid, Direct, Inside, Word;
    SectionInside(a, context.eep_8byte(slave));
    SectionInside(a + 1, context.eep_8byte(slave));
    SectionInside(a + 2, context.eep_8byte(slave));
    SectionInside(a + 3, context.eep_8byte(slave));
    index := context.SiiGetWord(slave, a);
    e := context.SiiGetByte(slave, a + 2);
    syncM := context.SiiGetByte(slave, a + 3);
  }

  lemma {:induction false} PdoBits(p: Pdo, bitSize: nat)
    requires bitSize == if p.syncM < EC_MAXSM then Sum(p.bits) else 0
    ensures bitSize == BitSize(p)
  {
  }

  lemma {:induction false} NoWords(pdos: seq<Pdo>)
    ensures Words(pdos[..0]) == 0
  {
  }

  lemma {:induction false} NothingHeld(r: EepromPdo)
    requires r.Index == [] && r.SyncM == [] && r.BitSize == [] && r.SMbitsize == seq(EC_MAXSM, _ => 0)
    ensures Parsed(r, 0, [])
  {
  }

  lemma {:induction false} HeldStill(r: EepromPdo, r': EepromPdo, pdos: seq<Pdo>)
    requires Holds(r, pdos) && r' == r.(Length := r'.Length)
    ensures Holds(r', pdos)
  {
  }

  lemma {:induction false} HeldSizes(r: EepromPdo, pdos: seq<Pdo>)
    requires Holds(r, pdos)
    ensures |r.SMbitsize| == EC_MAXSM
  {
  }

  // ----- the sizes returned -----

  function Total(sizes: seq<nat>): nat {
    if sizes == [] then 0 else Total(sizes[..|sizes| - 1]) + sizes[|sizes| - 1]
  }

  /** 16-bit counters of parts add up to a 16-bit counter of the whole, modulo 0x1_0000. */
  lemma {:induction false} CountersAddUp(sizes: seq<nat>, pdos: seq<Pdo>, n: nat)
    requires n <= |sizes| && forall m :: 0 <= m < n ==> sizes[m] == SmBits(pdos, m) % 0x1_0000
    ensures Total(sizes[..n]) % 0x1_0000 == SmTotal(pdos, n) % 0x1_0000 && Total(sizes[..n]) <= SmTotal(pdos, n)
  {
    hide SmBits;
    if n > 0 {
      CountersAddUp(sizes, pdos, n - 1);
      assert sizes[..n][..n - 1] == sizes[..n - 1];
      Congruent(Total(sizes[..n - 1]), SmTotal(pdos, n - 1), sizes[n - 1], SmBits(pdos, n - 1));
    }
  }

  lemma {:induction false} Congruent(x: nat, y: nat, x': nat, y': nat)
    requires x % 0x1_0000 == y % 0x1_0000 && x' == y' % 0x1_0000
    ensures (x + x') % 0x1_0000 == (y + y') % 0x1_0000 && x' <= y'
  {
  }

  /** The sizes returned for the sync managers add up to the size returned for the section modulo 0x1_0000, and
      are equal to it exactly when their sum is below that, as it always is for fewer bits in all. */
  lemma {:induction false} ReturnedSizes(r: EepromPdo, Size: nat, pdos: seq<Pdo>)
    requires Parsed(r, Size, pdos)
    ensures Total(r.SMbitsize) % 0x1_0000 == Size
    ensures Total(r.SMbitsize) == Size <==> Total(r.SMbitsize) < 0x1_0000
    ensures AllBits(pdos) < 0x1_0000 ==> Total(r.SMbitsize) == Size == AllBits(pdos)
  {
    hide SmBits, SmTotal, AllBits, Total;
    assert r.SMbitsize[..EC_MAXSM] == r.SMbitsize;
    CountersAddUp(r.SMbitsize, pdos, EC_MAXSM);
    SizesAddUp(pdos);
  }
}
