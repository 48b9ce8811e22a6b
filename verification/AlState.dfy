/** ethercatmain.c: reading the states of all slaves. */
module AlState {
  import opened Bytes
  import opened Datagram

  const ECT_REG_ALSTAT: uint16 := 0x0130
  const MAX_FPRD_MULTI: nat := 64
  const EC_STATE_ERROR: bv16 := 0x10

  /** What a slave reports: its AL status, and its AL status code. */
  datatype Status = Status(al: bv16, code: bv16)

  datatype Slave = Slave(configadr: uint16, state: bv16, ALstatuscode: bv16)

  // ----- one frame that asks many slaves -----

  /** Six bytes of an answer: status, a word that is not used, status code. */
  function StatusOf(b: seq<byte>): Status
    requires |b| == 6
  {
    Status(Word(b[0], b[1]) as bv16, Word(b[4], b[5]) as bv16)
  }

  function Requests(idx: byte, configlst: seq<uint16>): (ds: seq<Dgram>)
    ensures |ds| == |configlst|
    ensures forall k :: 0 <= k < |ds| ==> ds[k] == Fresh(FPRD, idx, configlst[k], ECT_REG_ALSTAT, Zeros(6))
  {
    seq(|configlst|, k requires 0 <= k < |configlst| => Fresh(FPRD, idx, configlst[k], ECT_REG_ALSTAT, Zeros(6)))
  }

  /** Datagrams of six bytes of data. */
  predicate Sixes(ds: seq<Dgram>) { forall k :: 0 <= k < |ds| ==> |ds[k].data| == 6 }

  lemma {:induction false} SixesSize(ds: seq<Dgram>)
    requires Sixes(ds)
    ensures TotalSize(ds) == 18 * |ds|
  {
    if ds != [] {
      SixesSize(ds[1..]);
    }
  }

  /** The first half of ecx_FPRD_multi: one frame with a datagram for each slave. */
  method BuildRequests(buf: FrameBuffer, idx: byte, configlst: seq<uint16>)
    returns (sldatapos: seq<nat>, ghost follows: seq<bool>)
    requires buf.frame.Length == EC_BUFSIZE && 1 <= |configlst| <= MAX_FPRD_MULTI
    modifies buf`txbuflength, buf.frame
    ensures Frame(buf.frame[..], ETH_HEADERSIZE, Requests(idx, configlst), follows) && LastOnly(follows)
    ensures |sldatapos| == |configlst| && forall k :: 0 <= k < |sldatapos| ==> sldatapos[k] == EC_HEADERSIZE + 18 * k
  {
    hide Layout, Holds, Frame;
    var n := |configlst|;
    buf.SetupDatagram(FPRD, idx, configlst[0], ECT_REG_ALSTAT, Zeros(6));
    sldatapos := [EC_HEADERSIZE];
    var slcnt := 1;
    ghost var ds := Requests(idx, configlst[..1]);
    assert ds == [Fresh(FPRD, idx, configlst[0], ECT_REG_ALSTAT, Zeros(6))];
    ghost var mores: seq<bool> := [];
    assert Flags(mores) == [false];
    while slcnt < n - 1
      invariant 1 <= slcnt <= n && |sldatapos| == slcnt && ds == Requests(idx, configlst[..slcnt])
      invariant slcnt <= n - 1 || n == 1
      invariant forall k :: 0 <= k < slcnt ==> sldatapos[k] == EC_HEADERSIZE + 18 * k
      invariant buf.txbuflength == ETH_HEADERSIZE + EC_ELENGTHSIZE + TotalSize(ds)
      invariant Frame(buf.frame[..], ETH_HEADERSIZE, ds, Flags(mores))
      invariant |mores| == slcnt - 1 && forall k :: 0 <= k < |mores| ==> mores[k]
    {
      SixesSize(ds);
      var at := buf.AddDatagram(FPRD, idx, true, configlst[slcnt], ECT_REG_ALSTAT, Zeros(6), ds, Flags(mores));
      sldatapos := sldatapos + [at];
      FlagsAdded(mores, true);
      mores := mores + [true];
      ds := ds + [Fresh(FPRD, idx, configlst[slcnt], ECT_REG_ALSTAT, Zeros(6))];
      slcnt := slcnt + 1;
      assert ds == Requests(idx, configlst[..slcnt]);
    }
    if slcnt < n {
      SixesSize(ds);
      var at := buf.AddDatagram(FPRD, idx, false, configlst[slcnt], ECT_REG_ALSTAT, Zeros(6), ds, Flags(mores));
      sldatapos := sldatapos + [at];
      FlagsAdded(mores, false);
      mores := mores + [false];
      ds := ds + [Fresh(FPRD, idx, configlst[slcnt], ECT_REG_ALSTAT, Zeros(6))];
      slcnt := slcnt + 1;
    }
    follows := Flags(mores);
    FlagsLastOnly(mores);
    assert configlst[..slcnt] == configlst;
    assert ds == Requests(idx, configlst);
  }

  /** The second half of ecx_FPRD_multi: copy each slave's answer out of the received frame. */
  method ReadReplies(rx: seq<byte>, sldatapos: seq<nat>, ghost ds: seq<Dgram>, ghost follows: seq<bool>)
    returns (sl: seq<Status>)
    requires Frame(rx, 0, ds, follows) && Sixes(ds) && |sldatapos| == |ds|
    requires forall k :: 0 <= k < |sldatapos| ==> sldatapos[k] == EC_HEADERSIZE + 18 * k
    ensures |sl| == |ds| && forall k :: 0 <= k < |ds| ==> sl[k] == StatusOf(ds[k].data)
  {
    hide Frame, StatusOf;
    sl := [];
    var slcnt := 0;
    while slcnt < |sldatapos|
      invariant slcnt <= |sldatapos| && |sl| == slcnt
      invariant forall k :: 0 <= k < slcnt ==> sl[k] == StatusOf(ds[k].data)
    {
      DataSlot(rx, ds, follows, slcnt);
      SixesSize(ds[..slcnt]);
      sl := sl + [StatusOf(rx[sldatapos[slcnt]..][..6])];
      slcnt := slcnt + 1;
    }
  }

  /** A datagram as it comes back from a slave with this address and status.  A slave answers to command 4 with its
      own address, and with its status at register 0x0130 and the code at 0x0134, low byte first. */
  predicate FilledIn(d: Dgram, sent: Dgram, adr: uint16, status: Status) {
    && d == sent.(data := d.data, wkc := d.wkc) && |d.data| == |sent.data|
    && (sent.command == 4 && sent.adp == adr && sent.ado == 0x0130 && |sent.data| == 6 ==>
          && (d.data[0] as int) + 0x100 * (d.data[1] as int) == status.al as int
          && (d.data[4] as int) + 0x100 * (d.data[5] as int) == status.code as int)
  }

  /** A frame sent with these datagrams comes back with the answers of the slaves. */
  ghost predicate Answers(rx: seq<byte>, sent: seq<Dgram>, configlst: seq<uint16>, replies: seq<Status>) {
    exists ds, follows ::
      Frame(rx, 0, ds, follows) && |ds| == |sent| == |configlst| == |replies| && forall k :: 0 <= k < |ds| ==>
          FilledIn(ds[k], sent[k], configlst[k], replies[k])
  }

  lemma {:induction false} FilledStatus(d: Dgram, idx: byte, adr: uint16, status: Status)
    requires FilledIn(d, Fresh(FPRD, idx, adr, ECT_REG_ALSTAT, Zeros(6)), adr, status)
    ensures |d.data| == 6 && StatusOf(d.data) == status
  {
    SameWord(Word(d.data[0], d.data[1]), status.al);
    SameWord(Word(d.data[4], d.data[5]), status.code);
  }

  lemma {:induction false} SameWord(w: uint16, b: bv16)
    requires w == b as int
    ensures w as bv16 == b
  {
  }

  /** What becomes of one frame: the index it is sent under, and whether and what comes back. */
  datatype Turn = Turn(idx: byte, answered: bool, rx: seq<byte>)

  /** ecx_FPRD_multi.  Without an answer the list keeps its zeros. */
  method FPRDMulti(buf: FrameBuffer, configlst: seq<uint16>, turn: Turn, ghost replies: seq<Status>)
    returns (sl: seq<Status>)
    requires buf.frame.Length == EC_BUFSIZE && 1 <= |configlst| == |replies| <= MAX_FPRD_MULTI
    requires turn.answered ==> Answers(turn.rx, Requests(turn.idx, configlst), configlst, replies)
    modifies buf`txbuflength, buf.frame
    ensures exists follows ::
              LastOnly(follows) && Frame(buf.frame[..], ETH_HEADERSIZE, Requests(turn.idx, configlst), follows)
    ensures sl == if turn.answered then replies else seq(|configlst|, _ => Status(0, 0))
  {
    hide Frame, StatusOf;
    sl := seq(|configlst|, _ => Status(0, 0));
    ghost var flags;
    var sldatapos;
    sldatapos, flags := BuildRequests(buf, turn.idx, configlst);
    if turn.answered {
      ghost var sent := Requests(turn.idx, configlst);
      ghost var ds: seq<Dgram>, follows: seq<bool> :|
        Frame(turn.rx, 0, ds, follows) && |ds| == |sent| && forall k :: 0 <= k < |ds| ==>
            FilledIn(ds[k], sent[k], configlst[k], replies[k]);
      forall k | 0 <= k < |ds| ensures |ds[k].data| == 6 && StatusOf(ds[k].data) == replies[k] {
        FilledStatus(ds[k], turn.idx, configlst[k], replies[k]);
      }
      sl := ReadReplies(turn.rx, sldatapos, ds, follows);
    }
  }

  // ----- the state of the whole network -----

  function Or(a: bv16, b: bv16): bv16 { a | b }

  /** All bits of a are bits of b. */
  predicate Within(a: bv16, b: bv16) { a & b == a }

  /** All status words ORed, as a broadcast read gives them. */
  function OrAll(ss: seq<Status>): bv16 {
    if ss == [] then 0 else Or(OrAll(ss[..|ss| - 1]), ss[|ss| - 1].al)
  }

  function OrCodes(ss: seq<Status>): bv16 {
    if ss == [] then 0 else Or(OrCodes(ss[..|ss| - 1]), ss[|ss| - 1].code)
  }

  function State(al: bv16): bv16 { al & 0xf }

  // ----- status words as numbers -----

  lemma {:induction false} DigitsJoin(a: bv16, b: bv16)
    requires a <= 0xfff && b < 16
    ensures (16 * a + b) as nat == 16 * (a as nat) + b as nat
  {
  }

  lemma {:induction false} Digit(b: bv16)
    requires b < 16
    ensures b as nat < 16
  {
  }

  lemma {:induction false} Digits(al: bv16)
    ensures al == 16 * (al / 16) + State(al) && al / 16 <= 0xfff && State(al) < 16
  {
  }

  lemma {:induction false} DivMod(x: nat, q: nat, r: nat)
    requires x == 16 * q + r && r < 16
    ensures x / 16 == q && x % 16 == r
  {
  }

  /** The state is the last hexadecimal digit. */
  lemma {:induction false} StateIs(al: bv16)
    ensures State(al) as nat == al as nat % 16 && (al / 16) as nat == al as nat / 16
  {
    Digits(al);
    hide State;
    var q, r := al / 16, State(al);
    DigitsJoin(q, r);
    Digit(r);
    DivMod(al as nat, q as nat, r as nat);
  }

  lemma {:induction false} DigitValues(d: bv16)
    requires d < 16
    ensures d & 1 == 0 <==> d as nat % 2 == 0
    ensures OneState(d) <==> d as nat in {1, 2, 3, 4, 8}
  {
    if d < 8 {
      assert d == 0 || d == 1 || d == 2 || d == 3 || d == 4 || d == 5 || d == 6 || d == 7;
    } else {
      assert d == 8 || d == 9 || d == 10 || d == 11 || d == 12 || d == 13 || d == 14 || d == 15;
    }
  }

  lemma {:induction false} ErrorBit(al: bv16)
    ensures al & EC_STATE_ERROR == 0 <==> State(al / 16) & 1 == 0
    ensures State(al / 16) < 16
  {
  }

  lemma {:induction false} Even(x: nat)
    ensures x % 16 % 2 == x % 2
  {
  }

  lemma {:induction false} ErrorIs(al: bv16)
    ensures al & EC_STATE_ERROR == 0 <==> al as nat / 16 % 2 == 0
  {
    ErrorBit(al);
    hide State, OneState;
    StateIs(al);
    StateIs(al / 16);
    DigitValues(State(al / 16));
    Even((al / 16) as nat);
  }

  /** The broadcast is enough exactly when its last digit is one of the five states, bit 4 is clear, and all slaves
      have counted. */
  lemma {:induction false} ShortcutIs(brd: bv16, wkc: int, n: nat)
    ensures Shortcut(brd, wkc, n) <==>
            brd as nat % 16 in {1, 2, 3, 4, 8} && brd as nat / 16 % 2 == 0 && wkc >= n
    ensures State(brd) as nat == brd as nat % 16
  {
    Digits(brd);
    hide State, OneState;
    StateIs(brd);
    ErrorIs(brd);
    DigitValues(State(brd));
  }

  function Lower(s: bv16, low: bv16): bv16 { if s < low then s else low }

  /** The lowest state, 0xff for none. */
  function Lowest(ss: seq<Status>): bv16 {
    if ss == [] then 0xff else Lower(State(ss[|ss| - 1].al), Lowest(ss[..|ss| - 1]))
  }

  /** It is the state of some slave, and no slave's is lower. */
  lemma {:induction false} LowestIsMinimum(ss: seq<Status>)
    requires ss != []
    ensures forall k :: 0 <= k < |ss| ==> Lowest(ss) <= State(ss[k].al)
    ensures exists k :: 0 <= k < |ss| && Lowest(ss) == State(ss[k].al)
  {
    var n := |ss| - 1;
    var s := State(ss[n].al);
    assert s <= 0xf;
    if n > 0 {
      LowestIsMinimum(ss[..n]);
      var k :| 0 <= k < n && Lowest(ss[..n]) == State(ss[..n][k].al);
      assert ss[..n][k] == ss[k];
    } else {
      assert ss[..0] == [];
    }
  }

  /** A status word is contained in the OR of all. */
  lemma {:induction false} OrContains(ss: seq<Status>, k: nat)
    requires k < |ss|
    ensures Within(ss[k].al, OrAll(ss))
  {
    hide Within, Or;
    var n := |ss| - 1;
    OrWithin(ss[k].al, OrAll(ss[..n]), ss[n].al);
    if k < n {
      OrContains(ss[..n], k);
      assert ss[..n][k] == ss[k];
    }
  }

  lemma {:induction false} OrWithin(a: bv16, b: bv16, c: bv16)
    ensures Within(a, b) ==> Within(a, Or(b, c))
    ensures Within(c, Or(b, c))
  {
  }

  lemma {:induction false} OrOfSame(ss: seq<Status>, al: bv16)
    requires ss != [] && forall k :: 0 <= k < |ss| ==> ss[k].al == al
    ensures OrAll(ss) == al
  {
    var n := |ss| - 1;
    if n > 0 {
      assert forall k :: 0 <= k < n ==> ss[..n][k] == ss[k];
      OrOfSame(ss[..n], al);
    } else {
      assert ss[..0] == [];
    }
  }

  /** The states the switch of ecx_readstate accepts: INIT, PRE_OP, BOOT, SAFE_OP, OPERATIONAL. */
  predicate OneState(state: bv16) { state in {1, 2, 3, 4, 8} }

  /** The single broadcast is enough. */
  predicate Shortcut(brd: bv16, wkc: int, n: nat) {
    brd & EC_STATE_ERROR == 0 && OneState(State(brd)) && wkc >= n
  }

  lemma {:induction false} PartOfState(al: bv16, o: bv16)
    requires OneState(o) && Within(al, o) && al != 0 && (o == 3 ==> al != 1 && al != 2)
    ensures al == o
  {
    assert o == 1 || o == 2 || o == 3 || o == 4 || o == 8;
  }

  /** The broadcast gives every slave the status word that asking it would give exactly when no slave
      reports more than a state, none reports nothing, and BOOT is not INIT mixed with PRE_OP. */
  lemma {:induction false} ShortcutIff(ss: seq<Status>, wkc: int)
    requires ss != [] && Shortcut(OrAll(ss), wkc, |ss|)
    ensures (forall k :: 0 <= k < |ss| ==> ss[k].al == State(OrAll(ss))) <==>
            && OrAll(ss) == State(OrAll(ss))
            && (forall k :: 0 <= k < |ss| ==> ss[k].al != 0)
            && (OrAll(ss) == 3 ==> forall k :: 0 <= k < |ss| ==> ss[k].al != 1 && ss[k].al != 2)
  {
    var o := State(OrAll(ss));
    assert OneState(o);
    hide OneState, State, Within, Or, OrAll;
    OneStateNotZero(o);
    if forall k :: 0 <= k < |ss| ==> ss[k].al == o {
      OrOfSame(ss, o);
    } else if OrAll(ss) == o && (forall k :: 0 <= k < |ss| ==> ss[k].al != 0) &&
              (o == 3 ==> forall k :: 0 <= k < |ss| ==> ss[k].al != 1 && ss[k].al != 2) {
      forall k | 0 <= k < |ss| ensures ss[k].al == o {
        OrContains(ss, k);
        PartOfState(ss[k].al, o);
      }
      assert false;
    }
  }

  lemma {:induction false} OneStateNotZero(o: bv16)
    requires OneState(o)
    ensures o != 0
  {
  }

  predicate AllReport(ss: seq<Status>, s: bv16) { forall k :: 0 <= k < |ss| ==> ss[k].al == s }

  /** When all slaves report the same state, it is that of the broadcast and the lowest. */
  lemma {:induction false} SameState(ss: seq<Status>, s: bv16)
    requires ss != [] && s in {1, 2, 3, 4, 8} && AllReport(ss, s)
    ensures State(s) == s && Lowest(ss) == s && OrAll(ss) == s
  {
    LowestIsMinimum(ss);
    OrOfSame(ss, s);
  }

  /** A status code is contained in the OR of all, which is the least that contains them. */
  lemma {:induction false} OrCodesIs(ss: seq<Status>, bound: bv16)
    ensures forall k :: 0 <= k < |ss| ==> Within(ss[k].code, OrCodes(ss))
    ensures (forall k :: 0 <= k < |ss| ==> Within(ss[k].code, bound)) ==> Within(OrCodes(ss), bound)
  {
    hide Within, Or;
    if ss == [] {
      NothingWithin(bound);
    } else {
      var n := |ss| - 1;
      OrCodesIs(ss[..n], bound);
      assert forall k :: 0 <= k < n ==> ss[..n][k] == ss[k];
      OrLeast(OrCodes(ss[..n]), ss[n].code, bound);
      forall k | 0 <= k < |ss| ensures Within(ss[k].code, OrCodes(ss)) {
        OrWithin(ss[k].code, OrCodes(ss[..n]), ss[n].code);
        assert k < n ==> Within(ss[..n][k].code, OrCodes(ss[..n]));
      }
    }
  }

  lemma {:induction false} NothingWithin(bound: bv16)
    ensures Within(0, bound)
  {
  }

  lemma {:induction false} OrLeast(a: bv16, b: bv16, bound: bv16)
    ensures Within(a, bound) && Within(b, bound) ==> Within(Or(a, b), bound)
  {
  }

  /** One slave in INIT and one in PRE_OP look like two slaves in BOOT. */
  lemma {:induction false} BootIsAmbiguous(init: Status, preop: Status)
    requires init.al == 1 && preop.al == 2
    ensures Shortcut(OrAll([init, preop]), 2, 2) && State(OrAll([init, preop])) == 3 && Lowest([init, preop]) == 1
  {
    assert [init, preop][..1] == [init] && [init][..0] == [];
    assert OrAll([init]) == 1 && Lowest([init]) == 1;
  }

  /** What the master sees of the slaves: a batch of 64 that is not answered leaves zeros. */
  function Seen(replies: seq<Status>, turns: nat -> Turn): (ss: seq<Status>)
    ensures |ss| == |replies|
    ensures forall k :: 0 <= k < |ss| ==>
              ss[k] == if turns(k / MAX_FPRD_MULTI).answered then replies[k] else Status(0, 0)
  {
    seq(|replies|, k requires 0 <= k < |replies| =>
      if turns(k / MAX_FPRD_MULTI).answered then replies[k] else Status(0, 0))
  }

  /** The station addresses of the slaves first .. last - 1. */
  function Addresses(slaves: seq<Slave>, first: nat, last: nat): (r: seq<uint16>)
    requires first <= last <= |slaves|
    ensures |r| == last - first && forall k :: 0 <= k < |r| ==> r[k] == slaves[first + k].configadr
  {
    seq<uint16>(last - first, k requires 0 <= k < last - first => slaves[first + k].configadr)
  }

  /** Batch number `batch` ends before this slave. */
  function BatchEnd(batch: nat, n: nat): nat {
    if n > MAX_FPRD_MULTI * (batch + 1) then MAX_FPRD_MULTI * (batch + 1) else n
  }

  /** Every frame that comes back has the answers of the slaves of its batch. */
  ghost predicate AllAnswer(slaves: seq<Slave>, turns: nat -> Turn, replies: seq<Status>)
    requires |slaves| == |replies|
  {
    forall b: nat :: turns(b).answered && MAX_FPRD_MULTI * b < |slaves| ==>
      var first, last := MAX_FPRD_MULTI * b, BatchEnd(b, |slaves|);
      var asked := Addresses(slaves, first, last);
      Answers(turns(b).rx, Requests(turns(b).idx, asked), asked, replies[first..last])
  }

  lemma {:induction false} BatchAnswers(slaves: seq<Slave>, turns: nat -> Turn, replies: seq<Status>, b: nat,
                                        first: nat, last: nat)
    requires |slaves| == |replies| && AllAnswer(slaves, turns, replies)
    requires first == MAX_FPRD_MULTI * b < |slaves| && last == BatchEnd(b, |slaves|)
    ensures turns(b).answered ==> Answers(turns(b).rx, Requests(turns(b).idx, Addresses(slaves, first, last)),
                                          Addresses(slaves, first, last), replies[first..last])
  {
    hide Answers;
  }

  function WithStatus(s: Slave, status: Status): Slave { s.(state := status.al, ALstatuscode := status.code) }

  /** The fields of ecx_contextt that hold states.  slavelist[k] is slave k + 1, `master` slave 0. */
  class Context {
    var slavelist: seq<Slave>
    var master: Slave

    constructor (slaves: seq<Slave>, master: Slave)
      ensures slavelist == slaves && this.master == master
    {
      slavelist, this.master := slaves, master;
    }

    /** Store the answers of slaves fslave .. lslave - 1. */
    method StoreBatch(fslave: nat, sl: seq<Status>, low: bv16, ghost seen: seq<Status>) returns (lowest: bv16)
      requires fslave + |sl| <= |slavelist| == |seen| && sl == seen[fslave..fslave + |sl|]
      requires low == Lowest(seen[..fslave]) && master.ALstatuscode == OrCodes(seen[..fslave])
      modifies this
      ensures |slavelist| == |old(slavelist)| && master == old(master).(ALstatuscode := OrCodes(seen[..fslave + |sl|]))
      ensures forall k :: 0 <= k < |slavelist| ==>
                slavelist[k] == if fslave <= k < fslave + |sl| then WithStatus(old(slavelist)[k], seen[k])
                  else old(slavelist)[k]
      ensures lowest == Lowest(seen[..fslave + |sl|])
    {
      hide Or, State, OrCodes, Lowest, Lower;
      lowest := low;
      var i := 0;
      while i < |sl|
        invariant i <= |sl| && |slavelist| == |old(slavelist)|
        invariant master == old(master).(ALstatuscode := OrCodes(seen[..fslave + i]))
        invariant forall k :: 0 <= k < |slavelist| ==>
                    slavelist[k] == if fslave <= k < fslave + i then WithStatus(old(slavelist)[k], seen[k])
                      else old(slavelist)[k]
        invariant lowest == Lowest(seen[..fslave + i])
      {
        var slave, rval := fslave + i, sl[i].al;
        assert sl[i] == seen[slave];
        OneSeen(seen, slave);
        slavelist := slavelist[slave := WithStatus(slavelist[slave], sl[i])];
        lowest := Lower(State(rval), lowest);
        master := master.(ALstatuscode := Or(master.ALstatuscode, sl[i].code));
        i := i + 1;
      }
    }

    /** ecx_readstate.  `brd` and `wkc` are what the broadcast gives, `replies` what the slaves answer when
        they are asked one by one, `turns` what becomes of the frames that ask them. */
    method ReadState(buf: FrameBuffer, brd: bv16, wkc: int, turns: nat -> Turn, ghost replies: seq<Status>)
      returns (lowest: bv16)
      requires buf.frame.Length == EC_BUFSIZE && |replies| == |slavelist| && AllAnswer(slavelist, turns, replies)
      modifies this, buf`txbuflength, buf.frame
      ensures |slavelist| == |old(slavelist)|
      ensures if Shortcut(brd, wkc, |slavelist|) then
                && lowest == State(brd) && master.state == lowest && master.ALstatuscode == 0
                && forall k :: 0 <= k < |slavelist| ==>
                    slavelist[k] == WithStatus(old(slavelist)[k], Status(State(brd), 0))
              else
                var seen := Seen(replies, turns);
                && lowest == Lowest(seen) && master.state == lowest && master.ALstatuscode == OrCodes(seen)
                && forall k :: 0 <= k < |slavelist| ==> slavelist[k] == WithStatus(old(slavelist)[k], seen[k])
      ensures brd in {1, 2, 3, 4, 8} && slavelist != [] && AllReport(replies, brd) &&
              (wkc >= |slavelist| || forall b: nat :: turns(b).answered) ==>
                lowest == brd && master.state == brd && forall k :: 0 <= k < |slavelist| ==> slavelist[k].state == brd
    {
      hide AllReport, State, OneState, OrCodes, Lowest, Seen, AllAnswer, Frame;
      var allslavespresent := wkc >= |slavelist|;
      var bitwisestate := State(brd);
      var noerrorflag := brd & EC_STATE_ERROR == 0;
      if noerrorflag {
        master := master.(ALstatuscode := 0);
      }
      var allslavessamestate := OneState(bitwisestate);
      if allslavessamestate {
        master := master.(state := bitwisestate);
      }
      if noerrorflag && allslavessamestate && allslavespresent {
        SetAll(bitwisestate);
        lowest := bitwisestate;
      } else {
        lowest := AskAll(buf, turns, replies);
      }
      if slavelist != [] {
        SameSeen(replies, turns, brd, wkc);
      }
    }

    /** Every slave is in the state of the broadcast. */
    method SetAll(bitwisestate: bv16)
      modifies this
      ensures |slavelist| == |old(slavelist)| && master == old(master)
      ensures forall k :: 0 <= k < |slavelist| ==>
                slavelist[k] == WithStatus(old(slavelist)[k], Status(bitwisestate, 0))
    {
      var slave := 0;
      while slave < |slavelist|
        invariant slave <= |slavelist| == |old(slavelist)| && master == old(master)
        invariant forall k :: 0 <= k < |slavelist| ==>
                    slavelist[k] == if k < slave then WithStatus(old(slavelist)[k], Status(bitwisestate, 0))
                      else old(slavelist)[k]
      {
        slavelist := slavelist[slave := slavelist[slave].(ALstatuscode := 0, state := bitwisestate)];
        slave := slave + 1;
      }
    }

    /** One datagram per slave, up to 64 in a frame. */
    method AskAll(buf: FrameBuffer, turns: nat -> Turn, ghost replies: seq<Status>) returns (lowest: bv16)
      requires buf.frame.Length == EC_BUFSIZE && |replies| == |slavelist| && AllAnswer(slavelist, turns, replies)
      modifies this, buf`txbuflength, buf.frame
      ensures |slavelist| == |old(slavelist)|
      ensures var seen := Seen(replies, turns);
              && lowest == Lowest(seen) && master.state == lowest && master.ALstatuscode == OrCodes(seen)
              && forall k :: 0 <= k < |slavelist| ==> slavelist[k] == WithStatus(old(slavelist)[k], seen[k])
    {
      hide State, OrCodes, Lowest, Seen, AllAnswer, Frame, Answers;
      master := master.(ALstatuscode := 0);
      lowest := 0xff;
      var fslave, batch := 0, 0;
      ghost var seen := Seen(replies, turns);
      assert seen[..0] == [];
      NothingSeen();
      while fslave < |slavelist|
        invariant fslave <= |slavelist| == |old(slavelist)| && (fslave == 64 * batch || fslave == |slavelist|)
        invariant lowest == Lowest(seen[..fslave]) && master.ALstatuscode == OrCodes(seen[..fslave])
        invariant forall k :: 0 <= k < |slavelist| ==>
                    slavelist[k] == if k < fslave then WithStatus(old(slavelist)[k], seen[k]) else old(slavelist)[k]
      {
        var lslave := |slavelist|;
        if lslave - fslave > MAX_FPRD_MULTI {
          lslave := fslave + MAX_FPRD_MULTI;
        }
        var slca := Addresses(slavelist, fslave, lslave);
        assert slca == Addresses(old(slavelist), fslave, lslave);
        BatchAnswers(old(slavelist), turns, replies, batch, fslave, lslave);
        var sl := FPRDMulti(buf, slca, turns(batch), replies[fslave..lslave]);
        OneBatch(replies, turns, fslave, lslave, batch, sl);
        lowest := StoreBatch(fslave, sl, lowest, seen);
        fslave, batch := lslave, batch + 1;
      }
      assert seen[..fslave] == seen;
      master := master.(state := lowest);
    }
  }

  lemma {:induction false} SameSeen(replies: seq<Status>, turns: nat -> Turn, brd: bv16, wkc: int)
    requires replies != []
    ensures brd in {1, 2, 3, 4, 8} && AllReport(replies, brd) ==> State(brd) == brd
    ensures brd in {1, 2, 3, 4, 8} && AllReport(replies, brd) && (forall b: nat :: turns(b).answered) ==>
              Lowest(Seen(replies, turns)) == brd && AllReport(Seen(replies, turns), brd)
    ensures brd in {1, 2, 3, 4, 8} && wkc >= |replies| ==> Shortcut(brd, wkc, |replies|)
  {
    if brd in {1, 2, 3, 4, 8} && AllReport(replies, brd) {
      SameState(replies, brd);
      if forall b: nat :: turns(b).answered {
        SameState(Seen(replies, turns), brd);
      }
    }
  }

  lemma {:induction false} NothingSeen()
    ensures Lowest([]) == 0xff && OrCodes([]) == 0
  {
  }

  lemma {:induction false} OneSeen(seen: seq<Status>, k: nat)
    requires k < |seen|
    ensures Lowest(seen[..k + 1]) == Lower(State(seen[k].al), Lowest(seen[..k]))
    ensures OrCodes(seen[..k + 1]) == Or(OrCodes(seen[..k]), seen[k].code)
  {
    hide State, Or, Lower;
    assert seen[..k + 1][..k] == seen[..k];
  }

  lemma {:induction false} OneBatch(replies: seq<Status>, turns: nat -> Turn, fslave: nat, lslave: nat, batch: nat,
                                    sl: seq<Status>)
    requires fslave == 64 * batch <= lslave <= |replies| && lslave - fslave <= MAX_FPRD_MULTI
    requires sl == if turns(batch).answered then replies[fslave..lslave] else seq(lslave - fslave, _ => Status(0, 0))
    ensures sl == Seen(replies, turns)[fslave..lslave]
  {
    forall i | 0 <= i < |sl| ensures sl[i] == Seen(replies, turns)[fslave + i] {
      assert (fslave + i) / MAX_FPRD_MULTI == batch;
    }
  }
}
