/** ethercatmain.c: the slave information EEPROM, its cache, and the search for a section. */
module Sii {
  import opened Bytes

  const EC_MAXEEPBITMAP: nat := 128
  const EC_MAXEEPBUF: nat := 4096
  const ECT_SII_START: nat := 0x40

  /** What a slave's EEPROM gives without a cache: beyond the buffer nothing but 0xff. */
  function Direct(rom: nat -> byte, address: nat): byte {
    if address < EC_MAXEEPBUF then rom(address) else 0xff
  }

  /** The EEPROM is read in chunks of 4 or 8 bytes from an even address on. */
  function ChunkSize(eight: bool): nat { if eight then 8 else 4 }

  /** The chunk with this address lies inside the buffer. */
  predicate Inside(address: nat, eight: bool) {
    address < EC_MAXEEPBUF ==> address / 2 * 2 + ChunkSize(eight) <= EC_MAXEEPBUF
  }

  // ----- sections -----

  /** The category of the section at a, or the end mark 0xffff. */
  function Category(rom: nat -> byte, a: nat): uint16 { Word(Direct(rom, a), Direct(rom, a + 1)) }

  /** The length of the section at a, in words. */
  function Length(rom: nat -> byte, a: nat): uint16 { Word(Direct(rom, a + 2), Direct(rom, a + 3)) }

  function NextSection(rom: nat -> byte, a: nat): nat { a + 4 + 2 * Length(rom, a) }

  /** From a on: headers can be read, and no section ends beyond what a signed 16-bit address can tell. */
  predicate WellFormed(rom: nat -> byte, eight: bool, a: nat)
    decreases 0x8000 - a
  {
    && a <= 0x7ffd && Inside(a, eight) && Inside(a + 1, eight)
    && (Category(rom, a) != 0xffff ==> (
         Inside(a + 2, eight) && Inside(a + 3, eight) && WellFormed(rom, eight, NextSection(rom, a))))
  }

  /** The sections from a on, by the address of their category. */
  function Sections(rom: nat -> byte, eight: bool, a: nat): seq<nat>
    requires WellFormed(rom, eight, a)
    decreases 0x8000 - a
  {
    if Category(rom, a) == 0xffff then [] else [a] + Sections(rom, eight, NextSection(rom, a))
  }

  /** What the search finds: the address of the length of the section, or 0. */
  function Find(rom: nat -> byte, eight: bool, a: nat, cat: uint16): nat
    requires WellFormed(rom, eight, a)
    decreases 0x8000 - a
  {
    if Category(rom, a) == cat then a + 2
    else if Category(rom, a) == 0xffff then 0
    else Find(rom, eight, NextSection(rom, a), cat)
  }

  /** r is the address of the length of the first section of the category; or 0, and there is none. */
  predicate IsFirst(rom: nat -> byte, list: seq<nat>, cat: uint16, r: nat) {
    if r == 0 then forall k :: 0 <= k < |list| ==> Category(rom, list[k]) != cat
    else exists k :: 0 <= k < |list| && r == list[k] + 2 && Category(rom, list[k]) == cat &&
                     forall j :: 0 <= j < k ==> Category(rom, list[j]) != cat
  }

  lemma {:induction false} FirstLater(rom: nat -> byte, a: nat, rest: seq<nat>, cat: uint16, r: nat)
    requires Category(rom, a) != cat && IsFirst(rom, rest, cat, r)
    ensures IsFirst(rom, [a] + rest, cat, r)
  {
    hide Category;
    var list := [a] + rest;
    if r != 0 {
      var k :| 0 <= k < |rest| && r == rest[k] + 2 && Category(rom, rest[k]) == cat &&
        forall j :: 0 <= j < k ==> Category(rom, rest[j]) != cat;
      assert list[k + 1] == rest[k];
      assert forall j :: 0 <= j < k + 1 ==> list[j] == if j == 0 then a else rest[j - 1];
    }
  }

  lemma {:induction false} FirstHere(rom: nat -> byte, a: nat, rest: seq<nat>, cat: uint16)
    requires Category(rom, a) == cat
    ensures IsFirst(rom, [a] + rest, cat, a + 2)
  {
    assert ([a] + rest)[0] == a;
  }

  /** The search finds the first section of the category, and 0 exactly when there is none. */
  lemma {:induction false} FindsFirst(rom: nat -> byte, eight: bool, a: nat, cat: uint16)
    requires WellFormed(rom, eight, a) && cat != 0xffff
    ensures IsFirst(rom, Sections(rom, eight, a), cat, Find(rom, eight, a, cat))
    decreases 0x8000 - a
  {
    hide Category, Inside, IsFirst;
    if Category(rom, a) == 0xffff {
      NoSections(rom, cat);
    } else {
      var rest := Sections(rom, eight, NextSection(rom, a));
      if Category(rom, a) == cat {
        FirstHere(rom, a, rest, cat);
      } else {
        FindsFirst(rom, eight, NextSection(rom, a), cat);
        FirstLater(rom, a, rest, cat, Find(rom, eight, a, cat));
      }
    }
  }

  lemma {:induction false} NoSections(rom: nat -> byte, cat: uint16)
    ensures IsFirst(rom, [], cat, 0)
  {
  }

  // ----- sections as a device vendor stores them -----

  datatype Section = Section(category: uint16, words: seq<uint16>)

  /** The bytes of the sections from the first on. */
  function StoredSize(sections: seq<Section>): nat {
    if sections == [] then 0 else 4 + 2 * |sections[0].words| + StoredSize(sections[1..])
  }

  /** From address a on: category, number of words and words of each section, low byte first, then the end mark. */
  predicate Stored(rom: nat -> byte, a: nat, sections: seq<Section>)
    decreases |sections|
  {
    if sections == [] then rom(a) == 0xff && rom(a + 1) == 0xff
    else
      var s := sections[0];
      && s.category != 0xffff && |s.words| < 0x1_0000
      && rom(a) == s.category % 0x100 && rom(a + 1) == s.category / 0x100
      && rom(a + 2) == |s.words| % 0x100 && rom(a + 3) == |s.words| / 0x100
      && (forall k: nat :: k < |s.words| ==>
            rom(a + 4 + 2 * k) == s.words[k] % 0x100 && rom(a + 5 + 2 * k) == s.words[k] / 0x100)
      && Stored(rom, a + 4 + 2 * |s.words|, sections[1..])
  }

  /** Section k is the first of its category. */
  predicate FirstOf(sections: seq<Section>, cat: uint16, k: nat) {
    k < |sections| && sections[k].category == cat && forall j :: 0 <= j < k ==> sections[j].category != cat
  }

  lemma {:induction false} HeaderAt(rom: nat -> byte, a: nat, s: Section)
    requires a + 4 <= 0x1000 && |s.words| < 0x1_0000
    requires rom(a) == s.category % 0x100 && rom(a + 1) == s.category / 0x100
    requires rom(a + 2) == |s.words| % 0x100 && rom(a + 3) == |s.words| / 0x100
    ensures Category(rom, a) == s.category && NextSection(rom, a) == a + 4 + 2 * |s.words|
  {
  }

  lemma {:induction false} WellInside(a: nat, eight: bool)
    requires a + 8 <= 0x1000
    ensures Inside(a, eight)
  {
  }

  /** Every list of sections that ends 8 bytes before the end of the buffer can be walked. */
  lemma {:induction false} StoredWell(rom: nat -> byte, eight: bool, a: nat, sections: seq<Section>)
    requires Stored(rom, a, sections) && a + StoredSize(sections) + 9 <= 0x1000
    ensures WellFormed(rom, eight, a)
    decreases |sections|
  {
    hide Inside;
    WellInside(a, eight);
    WellInside(a + 1, eight);
    if sections != [] {
      HeaderAt(rom, a, sections[0]);
      WellInside(a + 2, eight);
      WellInside(a + 3, eight);
      StoredWell(rom, eight, NextSection(rom, a), sections[1..]);
    }
  }

  lemma {:induction false} FindFrom(rom: nat -> byte, eight: bool, a: nat, sections: seq<Section>, cat: uint16)
    requires Stored(rom, a, sections) && a + StoredSize(sections) + 9 <= 0x1000 && cat != 0xffff
    ensures WellFormed(rom, eight, a)
    ensures forall k: nat :: FirstOf(sections, cat, k) ==> Find(rom, eight, a, cat) == a + 2 + StoredSize(sections[..k])
    ensures (forall s :: s in sections ==> s.category != cat) ==> Find(rom, eight, a, cat) == 0
    decreases |sections|
  {
    StoredWell(rom, eight, a, sections);
    hide Inside, WellFormed;
    if sections != [] {
      var s, rest := sections[0], sections[1..];
      HeaderAt(rom, a, s);
      FindStep(rom, eight, a, cat);
      if s.category != cat {
        FindFrom(rom, eight, NextSection(rom, a), rest, cat);
        forall k: nat | FirstOf(sections, cat, k)
          ensures Find(rom, eight, a, cat) == a + 2 + StoredSize(sections[..k])
        {
          assert FirstOf(rest, cat, k - 1) && sections[..k][1..] == rest[..k - 1];
        }
        assert forall t :: t in rest ==> t in sections;
      } else {
        assert sections[..0] == [];
      }
    } else {
      FindStep(rom, eight, a, cat);
    }
  }

  lemma {:induction false} FindStep(rom: nat -> byte, eight: bool, a: nat, cat: uint16)
    requires WellFormed(rom, eight, a)
    ensures Category(rom, a) != 0xffff ==> WellFormed(rom, eight, NextSection(rom, a))
    ensures Find(rom, eight, a, cat) ==
            if Category(rom, a) == cat then a + 2 else if Category(rom, a) == 0xffff then 0
            else Find(rom, eight, NextSection(rom, a), cat)
  {
  }

  /** Of all sections stored from 0x80 on, the search finds the first of the category, behind its own two bytes and
      all bytes of the sections before it; and 0 when there is none. */
  lemma {:induction false} FindsInLayout(rom: nat -> byte, eight: bool, sections: seq<Section>, cat: uint16)
    requires Stored(rom, 0x80, sections) && 0x80 + StoredSize(sections) + 9 <= 0x1000 && cat != 0xffff
    ensures WellFormed(rom, eight, 0x80) && 2 * ECT_SII_START == 0x80
    ensures forall k: nat :: FirstOf(sections, cat, k) ==>
              Find(rom, eight, 0x80, cat) == 0x82 + StoredSize(sections[..k])
    ensures (forall s :: s in sections ==> s.category != cat) ==> Find(rom, eight, 0x80, cat) == 0
  {
    hide WellFormed, Find;
    FindFrom(rom, eight, 0x80, sections, cat);
  }

  lemma {:induction false} ChunkAround(address: nat, eight: bool)
    requires address < EC_MAXEEPBUF && Inside(address, eight)
    ensures address / 2 * 2 <= address < address / 2 * 2 + ChunkSize(eight) <= EC_MAXEEPBUF
  {
  }

  // ----- the cache -----

  /** The EEPROM fields of ecx_contextt.  A word of the bitmap is the set of its bits that are set. */
  class Context {
    const rom: nat -> nat -> byte
    const eep_8byte: nat -> bool
    var esislave: nat
    const esibuf: array<byte>
    const esimap: array<set<nat>>

    constructor (rom: nat -> nat -> byte, eep_8byte: nat -> bool)
      ensures Valid() && this.rom == rom && this.eep_8byte == eep_8byte
    {
      this.rom, this.eep_8byte, esislave := rom, eep_8byte, 0;
      esibuf := new byte[EC_MAXEEPBUF](_ => 0);
      esimap := new set<nat>[EC_MAXEEPBITMAP](_ => {});
    }

    /** The bit of the byte at this address is set. */
    ghost predicate Cached(a: nat)
      requires esimap.Length == EC_MAXEEPBITMAP
      reads esimap
    {
      a < EC_MAXEEPBUF && a % 32 in esimap[a / 32]
    }

    /** Every byte marked in the bitmap is that of the slave's EEPROM. */
    ghost predicate Valid()
      reads this, esibuf, esimap
    {
      && esibuf.Length == EC_MAXEEPBUF && esimap.Length == EC_MAXEEPBITMAP
      && forall a :: 0 <= a < EC_MAXEEPBUF && Cached(a) ==> esibuf[a] == rom(esislave)(a)
    }

    /** Forget what is cached of another slave. */
    method SelectSlave(slave: nat)
      requires Valid()
      modifies this`esislave, esimap
      ensures Valid() && esislave == slave
      ensures forall a :: Cached(a) <==> slave == old(esislave) && old(Cached(a))
    {
      if slave != esislave {
        for i := 0 to EC_MAXEEPBITMAP
          invariant forall j :: 0 <= j < i ==> esimap[j] == {}
        {
          esimap[i] := {};
        }
        esislave := slave;
      }
    }

    /** Mark the bytes of a chunk, from an even address on. */
    method MarkBytes(eadr: nat, cnt: nat)
      requires esimap.Length == EC_MAXEEPBITMAP && eadr * 2 + cnt <= EC_MAXEEPBUF
      modifies esimap
      ensures forall a :: 0 <= a < EC_MAXEEPBUF ==> (Cached(a) <==> old(Cached(a)) || eadr * 2 <= a < eadr * 2 + cnt)
    {
      ghost var map0 := esimap[..];
      // where the byte is marked
      var mapw := eadr / 16;
      var mapb := eadr * 2 - mapw * 32;
      var lp := 0;
      while lp < cnt
        invariant lp <= cnt && mapw * 32 + mapb == eadr * 2 + lp && 0 <= mapb < 32
        invariant forall a :: 0 <= a < EC_MAXEEPBUF ==>
                    (Cached(a) <==> a % 32 in map0[a / 32] || eadr * 2 <= a < eadr * 2 + lp)
      {
        // mark the bytes of the chunk
        esimap[mapw] := esimap[mapw] + {mapb};
        mapb := mapb + 1;
        if mapb > 31 {
          mapb := 0;
          mapw := mapw + 1;
        }
        lp := lp + 1;
      }
    }

    /** Read the chunk with this address into the buffer, and mark its bytes. */
    method ReadChunk(slave: nat, address: nat)
      requires Valid() && esislave == slave && address < EC_MAXEEPBUF && Inside(address, eep_8byte(slave))
      modifies esibuf, esimap
      ensures Valid() && Cached(address)
      ensures var from, n := address / 2 * 2, if eep_8byte(slave) then 8 else 4;
              forall a :: 0 <= a < 4096 ==> (Cached(a) <==> old(Cached(a)) || from <= a < from + n)
    {
      hide Cached, Inside;
      var eadr := address / 2;
      var cnt := ChunkSize(eep_8byte(slave));
      ChunkAround(address, eep_8byte(slave));
      var chunk := seq(cnt, i requires 0 <= i < cnt => rom(slave)(eadr * 2 + i));
      ghost var was := esibuf[..];
      MarkBytes(eadr, cnt);
      Copy(esibuf, eadr * 2, chunk);
      forall a | 0 <= a < EC_MAXEEPBUF && Cached(a) ensures esibuf[a] == rom(slave)(a) {
        CopiedByte(was, esibuf[..], eadr * 2, chunk, a);
        if eadr * 2 <= a < eadr * 2 + cnt {
          assert chunk[a - eadr * 2] == rom(slave)(a);
        } else {
          assert old(Cached(a)) && was[a] == old(esibuf[a]);
        }
      }
    }

    /** ecx_siigetbyte */
    method SiiGetByte(slave: nat, address: nat) returns (retval: byte)
      requires Valid()
      requires Inside(address, eep_8byte(slave)) || (esislave == slave && Cached(address))
      modifies this`esislave, esibuf, esimap
      ensures Valid() && esislave == slave && retval == Direct(rom(slave), address)
      ensures retval == if address < 4096 then rom(slave)(address) else 0xff
      ensures var known := slave == old(esislave) && old(Cached(address));
              var from, n := address / 2 * 2, if eep_8byte(slave) then 8 else 4;
              forall a :: 0 <= a < 4096 ==>
                (Cached(a) <==> (slave == old(esislave) && old(Cached(a))) ||
                                (address < 4096 && !known && from <= a < from + n))
    {
      hide Inside;
      retval := 0xff;
      SelectSlave(slave);
      if address < EC_MAXEEPBUF {
        var mapw := address / 32;
        var mapb := address - mapw * 32;
        if mapb in esimap[mapw] { // cached
          assert Cached(address);
          retval := esibuf[address];
        } else { // read a chunk from the EEPROM
          ReadChunk(slave, address);
          retval := esibuf[address];
        }
      }
    }

    method SiiGetWord(slave: nat, a: nat) returns (w: uint16)
      requires Valid() && Inside(a, eep_8byte(slave)) && Inside(a + 1, eep_8byte(slave))
      modifies this`esislave, esibuf, esimap
      ensures Valid() && w == Word(Direct(rom(slave), a), Direct(rom(slave), a + 1))
    {
      hide Valid, Inside, Direct, Word;
      var lo := SiiGetByte(slave, a);
      var hi := SiiGetByte(slave, a + 1);
      w := Word(lo, hi);
    }

    /** ecx_siifind */
    method SiiFind(slave: nat, cat: uint16) returns (a: nat)
      requires Valid() && WellFormed(rom(slave), eep_8byte(slave), 2 * ECT_SII_START)
      modifies this`esislave, esibuf, esimap
      ensures Valid() && a == Find(rom(slave), eep_8byte(slave), 2 * ECT_SII_START, cat)
    {
      hide Valid, Inside, Direct;
      ghost var e, eight := rom(slave), eep_8byte(slave);
      a := 2 * ECT_SII_START;
      var p := SiiGetWord(slave, a); // first section category
      a := a + 2;
      while p != cat && p != 0xffff
        invariant Valid() && a >= 2 && WellFormed(e, eight, a - 2) && p == Category(e, a - 2)
        invariant Find(e, eight, a - 2, cat) == Find(e, eight, 2 * ECT_SII_START, cat)
        decreases 0x8000 - a
      {
        p := SiiGetWord(slave, a);
        a := a + 2 + 2 * p; // behind this section
        p := SiiGetWord(slave, a);
        a := a + 2;
      }
      if p != cat {
        a := 0;
      }
    }
  }

  lemma {:induction false} CopiedByte(was: seq<byte>, now: seq<byte>, at: nat, data: seq<byte>, a: nat)
    requires at + |data| <= |was| == |now| && a < |now|
    requires now[at..at + |data|] == data && now[..at] == was[..at] && now[at + |data|..] == was[at + |data|..]
    ensures now[a] == if at <= a < at + |data| then data[a - at] else was[a]
  {
    if a < at {
      assert now[a] == now[..at][a];
    } else if a < at + |data| {
      assert now[a] == now[at..at + |data|][a - at];
    } else {
      assert now[a] == now[at + |data|..][a - at - |data|];
    }
  }
}
