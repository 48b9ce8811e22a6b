/** Which bytes of a slave's memory the FMMU entries of its mapping reach. */
module MapWindows {
  import opened Mapping

  /** The windows that reach the sync managers' own bytes: each as long as what its sync managers bring, the
      last one only as far as data is missing. */
  function Own(s: Slave, kind: Kind, k: nat, count: nat): seq<Window>
    requires Sized(s) && Bytes(s, kind) > 0 && k < EC_MAXSM
    decreases if count < Bytes(s, kind) then Bytes(s, kind) - count else 0, EC_MAXSM - k
  {
    if k < EC_MAXSM - 1 && count < Bytes(s, kind) then
      var (c, n) := Collected(s.SM, SmType(kind), Bits(s, kind), k, count);
      var end := if n < Bytes(s, kind) then n else Bytes(s, kind);
      [Window(s.SM[NextOfType(s.SM, k, SmType(kind))].StartAddr, end - count)] + Own(s, kind, c, n)
    else []
  }

  /** No more than two runs of connected sync managers with any bytes are needed for the data. */
  predicate TwoEnough(s: Slave, kind: Kind, k: nat, count: nat)
    requires Sized(s) && Bytes(s, kind) > 0 && k < EC_MAXSM
    decreases if count < Bytes(s, kind) then Bytes(s, kind) - count else 0, EC_MAXSM - k
  {
    k < EC_MAXSM - 1 && count < Bytes(s, kind) ==>
      var (c, n) := Collected(s.SM, SmType(kind), Bits(s, kind), k, count);
      if count > 0 then n >= Bytes(s, kind) else TwoEnough(s, kind, c, n)
  }

  lemma {:induction false} SecondSize(bytes: nat, n: nat, count: nat)
    requires count < bytes && count <= n
    ensures WindowSize(bytes, n, count) == (if n < bytes then n else bytes) - count <==> count == 0 || n >= bytes
  {
  }

  lemma {:induction false} OwnIff(s: Slave, kind: Kind, k: nat, count: nat)
    requires Sized(s) && Bytes(s, kind) > 0 && k < EC_MAXSM && count <= Bytes(s, kind)
    ensures Windows(s, kind, k, count, count) == Own(s, kind, k, count) <==> TwoEnough(s, kind, k, count)
    decreases Bytes(s, kind) - count, EC_MAXSM - k
  {
    hide Collected, NextOfType, WindowSize;
    var bytes := Bytes(s, kind);
    if k < EC_MAXSM - 1 && count < bytes {
      var (c, n) := Collected(s.SM, SmType(kind), Bits(s, kind), k, count);
      var size := WindowSize(bytes, n, count);
      SecondSize(bytes, n, count);
      var w, own := Windows(s, kind, k, count, count), Own(s, kind, k, count);
      assert w[0].size == size && w[1..] == Windows(s, kind, c, n, count + size);
      assert own[0].size == (if n < bytes then n else bytes) - count && own[1..] == Own(s, kind, c, n);
      assert w == [w[0]] + w[1..] && own == [own[0]] + own[1..];
      if n < bytes && count == 0 {
        OwnIff(s, kind, c, n);
      }
    }
  }

  /** The mapping reaches exactly the bytes of the slave's sync managers if no more than two runs of them are
      needed; otherwise the second entry already reaches beyond its sync managers. */
  lemma {:induction false} ReachesOwnIff(s: Slave, kind: Kind)
    requires Sized(s) && Bytes(s, kind) > 0
    ensures Windows(s, kind, 0, 0, 0) == Own(s, kind, 0, 0) <==> TwoEnough(s, kind, 0, 0)
  {
    OwnIff(s, kind, 0, 0);
  }

  // ----- one run -----

  /** The sync managers of the type lie one behind the other from address `base` on. */
  predicate InLine(sm: seq<Sm>, ty: nat, base: nat)
    requires |sm| == EC_MAXSM
  {
    forall k: nat :: k < 7 && sm[k].SMtype == ty ==>
      && sm[k].StartAddr == base + Offered(sm, k, ty)
      && base + Offered(sm, k + 1, ty) < 65536
  }

  lemma {:induction false} OfferedNext(sm: seq<Sm>, k: nat, ty: nat)
    requires |sm| == EC_MAXSM && k < 7 && sm[k].SMtype == ty
    ensures Offered(sm, k + 1, ty) == Offered(sm, k, ty) + sm[k].SMlength
  {
  }

  lemma {:induction false} InLineOn(sm: seq<Sm>, ty: nat, base: nat, bits: nat, k: nat)
    requires |sm| == EC_MAXSM && k < 7 && InLine(sm, ty, base) && sm[k].SMtype == ty
    requires 8 * Offered(sm, 7, ty) >= bits
    ensures var n := Offered(sm, k + 1, ty); 8 * Connect(sm, ty, bits, k, n, base + n).1 >= bits
    decreases EC_MAXSM - k
  {
    hide NextOfType, Offered, Connect;
    var n := Offered(sm, k + 1, ty);
    ConnectStep(sm, ty, bits, k, n, base + n);
    if 8 * n < bits {
      var c := NextOfType(sm, k + 1, ty);
      NothingSkipped(sm, k + 1, ty);
      if c < 7 {
        OfType(sm, k + 1, ty);
        OfferedNext(sm, c, ty);
        InLineOn(sm, ty, base, bits, c);
      }
    }
  }

  lemma {:induction false} RunFromStart(sm: seq<Sm>, ty: nat, base: nat, bits: nat)
    requires |sm| == EC_MAXSM && InLine(sm, ty, base) && 0 < bits <= 8 * Offered(sm, 7, ty)
    ensures sm[NextOfType(sm, 0, ty)].StartAddr == base && 8 * Collected(sm, ty, bits, 0, 0).1 >= bits
  {
    hide NextOfType, Offered, Connect;
    var c := NextOfType(sm, 0, ty);
    NothingSkipped(sm, 0, ty);
    NothingBefore(sm, ty);
    if c < 7 {
      OfType(sm, 0, ty);
      OfferedNext(sm, c, ty);
      InLineOn(sm, ty, base, bits, c);
    }
  }

  lemma {:induction false} NothingBefore(sm: seq<Sm>, ty: nat)
    ensures Offered(sm, 0, ty) == 0
  {
  }

  /** Sync managers that lie one behind the other, whatever others are listed between them, and bring all the
      data are mapped by a single entry. */
  lemma {:induction false} OneRun(s: Slave, kind: Kind, base: nat)
    requires Sized(s) && Bytes(s, kind) > 0
    requires InLine(s.SM, if kind.Output? then 3 else 4, base)
    requires Offered(s.SM, 7, if kind.Output? then 3 else 4) >= Bytes(s, kind)
    ensures Windows(s, kind, 0, 0, 0) == [Window(base, Bytes(s, kind))]
  {
    hide NextOfType, Offered, InLine, Collected;
    var ty, bytes, bits := SmType(kind), Bytes(s, kind), Bits(s, kind);
    RunFromStart(s.SM, ty, base, bits);
    var (e, n) := Collected(s.SM, ty, bits, 0, 0);
    assert n >= bytes;
    assert Windows(s, kind, e, n, bytes) == [];
  }

  // ----- three runs -----

  /** Twelve bytes of output in three sync managers that are apart, of four, two and six bytes. */
  function ThreeRuns(): Slave {
    var none := Sm(0, 0, 0);
    Slave(96, 12, Null, 0, 0, 0, Null, 0,
          [Sm(0x1000, 4, 3), Sm(0x1100, 2, 3), Sm(0x1200, 6, 3), none, none, none, none, none], [], 0, false)
  }

  /** The second FMMU maps six bytes of a sync manager of two, the third only two of six. */
  lemma {:induction false} ThreeRunsWrong()
    ensures Windows(ThreeRuns(), Output, 0, 0, 0) == [Window(0x1000, 4), Window(0x1100, 6), Window(0x1200, 2)]
    ensures Own(ThreeRuns(), Output, 0, 0) == [Window(0x1000, 4), Window(0x1100, 2), Window(0x1200, 6)]
  {
    var s := ThreeRuns();
    assert Collected(s.SM, 3, 96, 0, 0) == (1, 4);
    assert Collected(s.SM, 3, 96, 1, 4) == (2, 6);
    assert Collected(s.SM, 3, 96, 2, 6) == (2, 12);
    hide Collected;
    assert Windows(s, Output, 2, 12, 12) == [] && Own(s, Output, 2, 12) == [];
    assert Windows(s, Output, 2, 6, 10) == [Window(0x1200, 2)];
    assert Own(s, Output, 2, 6) == [Window(0x1200, 6)];
    assert Windows(s, Output, 1, 4, 4) == [Window(0x1100, 6)] + Windows(s, Output, 2, 6, 10);
    assert Own(s, Output, 1, 4) == [Window(0x1100, 2)] + Own(s, Output, 2, 6);
  }

  // ----- how many entries -----

  const EC_MAXFMMU := 4

  /** Every sync manager for the kind of data brings some bytes. */
  predicate NoneEmpty(s: Slave, kind: Kind)
    requires |s.SM| == EC_MAXSM
  {
    forall k :: 0 <= k < EC_MAXSM && s.SM[k].SMtype == SmType(kind) ==> s.SM[k].SMlength > 0
  }

  lemma {:induction false} OfType(sm: seq<Sm>, k: nat, ty: nat)
    requires |sm| == EC_MAXSM && k < EC_MAXSM
    ensures var c := NextOfType(sm, k, ty); c < EC_MAXSM - 1 ==> sm[c].SMtype == ty
    decreases EC_MAXSM - k
  {
    if k < EC_MAXSM - 1 && sm[k].SMtype != ty {
      OfType(sm, k + 1, ty);
    }
  }

  lemma {:induction false} Brings(s: Slave, kind: Kind, k: nat, count: nat)
    requires Sized(s) && NoneEmpty(s, kind) && k < EC_MAXSM
    ensures var (c, n) := Collected(s.SM, SmType(kind), Bits(s, kind), k, count); c < EC_MAXSM - 1 ==> n > count
  {
    hide Connect, NextOfType;
    OfType(s.SM, k, SmType(kind));
  }

  lemma {:induction false} AtMostTwo(s: Slave, kind: Kind)
    requires Sized(s) && Bytes(s, kind) > 0 && NoneEmpty(s, kind) && TwoEnough(s, kind, 0, 0)
    ensures |Windows(s, kind, 0, 0, 0)| <= 2
  {
    hide Collected, NextOfType, WindowSize, NoneEmpty;
    var bytes := Bytes(s, kind);
    ReachesOwnIff(s, kind);
    var (c, n) := Collected(s.SM, SmType(kind), Bits(s, kind), 0, 0);
    Brings(s, kind, 0, 0);
    assert Own(s, kind, 0, 0)[1..] == Own(s, kind, c, n);
    if c < EC_MAXSM - 1 && n < bytes {
      var (c', n') := Collected(s.SM, SmType(kind), Bits(s, kind), c, n);
      assert n' >= bytes;
      assert Own(s, kind, c, n)[1..] == Own(s, kind, c', n') == [];
    }
  }

  /** The FMMU entries the data of a kind takes. */
  function Entries(s: Slave, kind: Kind): nat
    requires Sized(s)
  {
    if Bits(s, kind) == 0 then 0 else if Bytes(s, kind) == 0 then 1 else |Windows(s, kind, 0, 0, 0)|
  }

  /** From sync manager k on, when those before it brought `count` bytes and `done` are mapped, data is missing
      and there are sync managers left, and still so after m more runs, each of which maps as many bytes as all
      runs so far bring. */
  predicate More(s: Slave, kind: Kind, k: nat, count: nat, done: nat, m: nat)
    requires Sized(s) && k < EC_MAXSM
    decreases m
  {
    && k < EC_MAXSM - 1 && done < Bytes(s, kind)
    && (m > 0 ==>
          var (c, n) := Collected(s.SM, SmType(kind), Bits(s, kind), k, count); More(s, kind, c, n, done + n, m - 1))
  }

  lemma {:induction false} MoreIff(s: Slave, kind: Kind, k: nat, count: nat, done: nat, m: nat)
    requires Sized(s) && Bytes(s, kind) > 0 && k < EC_MAXSM && done <= Bytes(s, kind)
    ensures |Windows(s, kind, k, count, done)| > m <==> More(s, kind, k, count, done, m)
    decreases m
  {
    hide Collected, NextOfType;
    if k < EC_MAXSM - 1 && done < Bytes(s, kind) && m > 0 {
      var (c, n) := Collected(s.SM, SmType(kind), Bits(s, kind), k, count);
      var size := WindowSize(Bytes(s, kind), n, done);
      MoreIff(s, kind, c, n, done + size, m - 1);
      if done + size < done + n {
        assert !More(s, kind, c, n, done + n, m - 1) && !More(s, kind, c, n, done + size, m - 1);
      }
    }
  }

  /** The data of a kind takes more than m entries. */
  predicate Takes(s: Slave, kind: Kind, m: nat)
    requires Sized(s)
  {
    if Bits(s, kind) == 0 then false
    else if Bytes(s, kind) == 0 then m == 0
    else More(s, kind, 0, 0, 0, m)
  }

  lemma {:induction false} TakesIff(s: Slave, kind: Kind, m: nat)
    requires Sized(s)
    ensures Takes(s, kind, m) <==> Entries(s, kind) > m
  {
    hide Windows, More;
    if Bytes(s, kind) > 0 {
      MoreIff(s, kind, 0, 0, 0, m);
    }
  }

  /** What a slave writes overruns its table of FMMU entries exactly when, for some a, its outputs take at least a
      entries and its inputs at least the rest of five. */
  lemma {:induction false} EntriesFitIff(s: Slave)
    requires Sized(s)
    ensures Entries(s, Output) + Entries(s, Input) <= EC_MAXFMMU <==>
            forall a :: 0 <= a <= EC_MAXFMMU + 1 ==> !AtLeast(s, Output, a) || !AtLeast(s, Input, EC_MAXFMMU + 1 - a)
  {
    hide Takes, Entries;
    forall kind: Kind, a: nat ensures AtLeast(s, kind, a) <==> Entries(s, kind) >= a {
      if a > 0 {
        TakesIff(s, kind, a - 1);
      }
    }
    var out := Entries(s, Output);
    if out + Entries(s, Input) > EC_MAXFMMU {
      var a: nat := if out <= EC_MAXFMMU + 1 then out else EC_MAXFMMU + 1;
      assert AtLeast(s, Output, a) && AtLeast(s, Input, EC_MAXFMMU + 1 - a);
    }
  }

  predicate AtLeast(s: Slave, kind: Kind, a: nat)
    requires Sized(s)
  {
    a > 0 ==> Takes(s, kind, a - 1)
  }

  /** When two runs are enough for each kind, a slave's entries fit its table. */
  lemma {:induction false} EntriesFit(s: Slave)
    requires Sized(s)
    requires forall kind: Kind :: Bytes(s, kind) > 0 ==> NoneEmpty(s, kind) && TwoEnough(s, kind, 0, 0)
    ensures Entries(s, Output) + Entries(s, Input) <= EC_MAXFMMU
  {
    hide Windows, TwoEnough, NoneEmpty;
    if Bytes(s, Output) > 0 {
      AtMostTwo(s, Output);
    }
    if Bytes(s, Input) > 0 {
      AtMostTwo(s, Input);
    }
  }

  /** Eleven bytes of output in five sync managers that are apart. */
  function FiveRuns(): Slave {
    var none := Sm(0, 0, 0);
    Slave(88, 11, Null, 0, 0, 0, Null, 0,
          [Sm(0x1000, 1, 3), Sm(0x1100, 1, 3), Sm(0x1200, 1, 3), Sm(0x1300, 1, 3), Sm(0x1400, 7, 3), none, none, none],
          [], 0, false)
  }

  /** They take more entries than the table has. */
  lemma {:induction false} FiveRunsOverflow()
    ensures Entries(FiveRuns(), Output) > EC_MAXFMMU
  {
    var s := FiveRuns();
    assert Collected(s.SM, 3, 88, 0, 0) == (1, 1);
    assert Collected(s.SM, 3, 88, 1, 1) == (2, 2);
    assert Collected(s.SM, 3, 88, 2, 2) == (3, 3);
    assert Collected(s.SM, 3, 88, 3, 3) == (4, 4);
    assert Collected(s.SM, 3, 88, 4, 4) == (4, 11);
    hide Collected;
    assert |Windows(s, Output, 4, 4, 10)| >= 1;
    assert |Windows(s, Output, 3, 3, 6)| == 1 + |Windows(s, Output, 4, 4, 10)|;
    assert |Windows(s, Output, 2, 2, 3)| == 1 + |Windows(s, Output, 3, 3, 6)|;
    assert |Windows(s, Output, 1, 1, 1)| == 1 + |Windows(s, Output, 2, 2, 3)|;
  }
}
