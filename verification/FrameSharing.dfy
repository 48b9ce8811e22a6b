/** Threads sharing the frame buffers of one port.

    What ecx_getindex, ecx_outframe, ecx_inframe and ecx_setbufstat do to shared memory is cut into
    steps: each look at and each change of a buffer state, each copy, each use of one of the two
    mutexes.  Frames come back in any order.  An action names the thread that moves; the scheduler
    and the wire choose the actions. */
module FrameSharing {
  import opened FrameIndex

  /** What comes back for a sent frame: the serial number of that sending, and the content. */
  datatype Reply = Reply(serial: nat, content: int, wkc: int)

  /** Where a thread is. */
  datatype Pc =
    | Idle
    | Scanning(cand: nat, cnt: nat, free: nat)// holds the index mutex; `free` was free when it got it
    | Chosen(cand: nat)                       // left the search loop, index not marked yet
    | Allocated(idx: nat)                     // after ecx_getindex
    | Marked(idx: nat)                        // buffer marked as transmitted, frame not sent yet
    | Waiting(idx: nat)                       // frame sent, not inside ecx_inframe
    | Reading(idx: nat)                       // saw its buffer filled by another thread
    | Read(idx: nat, reply: Reply)            // copied the result out of the buffer
    | Blocked(idx: nat)                       // wants the receive mutex
    | Receiving(idx: nat)                     // holds the receive mutex
    | Pulled(idx: nat, to: nat, reply: Reply) // has a frame for index `to` off the wire
    | Storing(idx: nat, to: nat, reply: Reply)// will copy it to buffer `to`
    | Stored(idx: nat, to: nat, reply: Reply) // will set the status of buffer `to`
    | Finished(idx: nat, reply: Reply)        // ecx_inframe returned this result

  /** `flying` maps the serial number of every frame on the wire to its index; `sent` has the serial
      number of the last frame sent under each index. */
  datatype State = State(
    stat: seq<BufState>, rxbuf: seq<Reply>, mutex: int, idxmutex: int, lastidx: nat,
    flying: map<nat, nat>, next: nat, sent: seq<nat>,
    threads: seq<Pc>)

  datatype Action =
    | LockIndex(t: nat, free: nat)
    | ScanNext(t: nat)
    | ScanFound(t: nat)
    | ScanOut(t: nat)
    | MarkAlloc(t: nat)
    | MarkTx(t: nat)
    | Transmit(t: nat)
    | CheckBuffer(t: nat)
    | ReadBuffer(t: nat)
    | CompleteRead(t: nat)
    | Lock(t: nat)
    | ReceiveNothing(t: nat)
    | Receive(t: nat, serial: nat, content: int, wkc: int)
    | CheckOther(t: nat)
    | Store(t: nat)
    | SetStatus(t: nat)
    | Release(t: nat)
    | Lose(serial: nat)
    | GiveUp(t: nat)
    | Resend(t: nat)

  predicate HasIndex(pc: Pc) { !pc.Idle? && !Choosing(pc) }

  /** The thread holds the index mutex. */
  predicate Choosing(pc: Pc) { pc.Scanning? || pc.Chosen? }

  /** The thread holds the receive mutex. */
  predicate Inside(pc: Pc) { pc.Receiving? || pc.Pulled? || pc.Storing? || pc.Stored? }

  /** The thread holds a frame for index `to` that it has not handed over yet. */
  predicate Carries(pc: Pc, to: nat) { (pc.Pulled? || pc.Storing? || pc.Stored?) && pc.to == to }

  predicate Shaped(s: State) {
    |s.stat| == |s.rxbuf| == |s.sent| == EC_MAXBUF
  }

  /** No frame under the index is on the wire or held by a thread: nothing will come back for it any more. */
  predicate Gone(s: State, idx: nat)
    requires Shaped(s) && idx < EC_MAXBUF
  {
    && (forall n :: n in s.flying ==> s.flying[n] != idx)
    && forall t :: 0 <= t < |s.threads| ==> !Carries(s.threads[t], idx)
  }

  predicate Enabled(s: State, a: Action) {
    && Shaped(s)
    && (!a.Lose? ==> a.t < |s.threads| && (HasIndex(s.threads[a.t]) ==> s.threads[a.t].idx < EC_MAXBUF))
    && match a
       // some index is free when a thread begins to look for one
       case LockIndex(t, free) => s.threads[t].Idle? && s.idxmutex == -1 && free < EC_MAXBUF && s.stat[free].Empty?
       case ScanNext(t) =>
         s.threads[t].Scanning? && s.threads[t].cand < EC_MAXBUF && !s.stat[s.threads[t].cand].Empty? &&
           s.threads[t].cnt < EC_MAXBUF
       case ScanFound(t) => s.threads[t].Scanning? && s.threads[t].cand < EC_MAXBUF && s.stat[s.threads[t].cand].Empty?
       // the loop gives up and takes an index in use
       case ScanOut(t) =>
         s.threads[t].Scanning? && s.threads[t].cand < EC_MAXBUF && !s.stat[s.threads[t].cand].Empty? &&
           s.threads[t].cnt >= EC_MAXBUF
       case MarkAlloc(t) => s.threads[t].Chosen? && s.threads[t].cand < EC_MAXBUF
       case MarkTx(t) => s.threads[t].Allocated?
       case Transmit(t) => s.threads[t].Marked?
       case CheckBuffer(t) => s.threads[t].Waiting?
       case ReadBuffer(t) => s.threads[t].Reading?
       case CompleteRead(t) => s.threads[t].Read?
       case Lock(t) => s.threads[t].Blocked? && s.mutex == -1
       case ReceiveNothing(t) => s.threads[t].Receiving?
       case Receive(t, serial, _, _) => s.threads[t].Receiving? && serial in s.flying
       case CheckOther(t) => s.threads[t].Pulled? && s.threads[t].to < EC_MAXBUF
       case Store(t) => s.threads[t].Storing? && s.threads[t].to < EC_MAXBUF
       case SetStatus(t) => s.threads[t].Stored? && s.threads[t].to < EC_MAXBUF
       case Release(t) => s.threads[t].Finished?
       case Lose(serial) => serial in s.flying
       // a thread gives up, or sends again, only when its frame is gone: lost, or stored in its buffer
       case GiveUp(t) => s.threads[t].Waiting? && Gone(s, s.threads[t].idx)
       case Resend(t) => s.threads[t].Waiting? && Gone(s, s.threads[t].idx)
  }

  function Move(s: State, t: nat, pc: Pc): State
    requires t < |s.threads|
  {
    s.(threads := s.threads[t := pc])
  }

  function Step(s: State, a: Action): State
    requires Enabled(s, a)
  {
    match a
    case LockIndex(t, free) => Move(s, t, Scanning(After(s.lastidx), 0, free)).(idxmutex := t)
    case ScanNext(t) =>
      var Scanning(c, n, free) := s.threads[t];
      Move(s, t, Scanning(After(c), n + 1, free))
    case ScanFound(t) => Move(s, t, Chosen(s.threads[t].cand))
    case ScanOut(t) => Move(s, t, Chosen(s.threads[t].cand))
    case MarkAlloc(t) =>
      var c := s.threads[t].cand;
      Move(s, t, Allocated(c)).(stat := s.stat[c := Alloc], lastidx := c, idxmutex := -1)
    case MarkTx(t) => var i := s.threads[t].idx; Move(s, t, Marked(i)).(stat := s.stat[i := Tx])
    case Transmit(t) =>
      var i := s.threads[t].idx;
      Move(s, t, Waiting(i)).(flying := s.flying[s.next := i], sent := s.sent[i := s.next], next := s.next + 1)
    case CheckBuffer(t) =>
      var i := s.threads[t].idx;
      Move(s, t, if s.stat[i].Rcvd? then Reading(i) else Blocked(i))
    case ReadBuffer(t) => var i := s.threads[t].idx; Move(s, t, Read(i, s.rxbuf[i]))
    case CompleteRead(t) =>
      var Read(i, r) := s.threads[t];
      Move(s, t, Finished(i, r)).(stat := s.stat[i := Complete])
    case Lock(t) => Move(s, t, Receiving(s.threads[t].idx)).(mutex := t)
    case ReceiveNothing(t) => Move(s, t, Waiting(s.threads[t].idx)).(mutex := -1)
    case Receive(t, serial, content, wkc) =>
      var i, j := s.threads[t].idx, s.flying[serial];
      var r := Reply(serial, content, wkc);
      Move(s, t, if i == j then Storing(i, i, r) else Pulled(i, j, r)).(flying := s.flying - {serial})
    case CheckOther(t) => // is someone waiting for it?
      var Pulled(i, j, r) := s.threads[t];
      if s.stat[j].Tx? then Move(s, t, Storing(i, j, r))
      else Move(s, t, Waiting(i)).(mutex := -1) // nobody waits for it
    case Store(t) =>
      var Storing(i, j, r) := s.threads[t];
      Move(s, t, Stored(i, j, r)).(rxbuf := s.rxbuf[j := r])
    case SetStatus(t) =>
      var Stored(i, j, r) := s.threads[t];
      if i == j then Move(s, t, Finished(i, s.rxbuf[i])).(stat := s.stat[i := Complete], mutex := -1)
      else Move(s, t, Waiting(i)).(stat := s.stat[j := Rcvd], mutex := -1)
    case Release(t) => Move(s, t, Idle).(stat := s.stat[s.threads[t].idx := Empty])
    case Lose(serial) => s.(flying := s.flying - {serial})
    case GiveUp(t) => Move(s, t, Idle).(stat := s.stat[s.threads[t].idx := Empty])
    case Resend(t) => Move(s, t, Allocated(s.threads[t].idx))
  }

  // ----- runs -----

  predicate Initial(s: State) {
    && Shaped(s) && s.mutex == -1 && s.idxmutex == -1 && s.lastidx < EC_MAXBUF && s.flying == map[]
    && (forall i :: 0 <= i < EC_MAXBUF ==> s.stat[i].Empty? && s.sent[i] < s.next)
    && (forall t :: 0 <= t < |s.threads| ==> s.threads[t].Idle?)
  }

  /** The states of a run: every action is enabled where it is taken. */
  ghost predicate IsRun(states: seq<State>, actions: seq<Action>) {
    && |states| == |actions| + 1
    && Initial(states[0])
    && forall k :: 0 <= k < |actions| ==> Enabled(states[k], actions[k]) && states[k + 1] == Step(states[k], actions[k])
  }

  /** No two threads hold the same index. */
  ghost predicate DistinctIndices(s: State) {
    forall t, u :: 0 <= t < u < |s.threads| && HasIndex(s.threads[t]) && HasIndex(s.threads[u]) ==>
      s.threads[t].idx != s.threads[u].idx
  }

  /** Whoever has a result has the reply to the frame last sent under its index, and so has the buffer of
      that index, until it is released. */
  ghost predicate OwnReplies(s: State) {
    && Shaped(s)
    && forall t :: 0 <= t < |s.threads| && (s.threads[t].Finished? || s.threads[t].Read?) ==>
         s.threads[t].idx < EC_MAXBUF && s.threads[t].reply.serial == s.sent[s.threads[t].idx] &&
         s.rxbuf[s.threads[t].idx] == s.threads[t].reply
  }

  /** A frame taken off the wire for another thread is never thrown away. */
  ghost predicate NothingDropped(s: State) {
    && Shaped(s)
    && forall t :: 0 <= t < |s.threads| && s.threads[t].Pulled? ==>
         s.threads[t].to < EC_MAXBUF && s.stat[s.threads[t].to].Tx?
  }

  // ----- the invariant -----

  /** The thread is waiting for the answer to the frame it sent. */
  predicate Expects(pc: Pc) {
    pc.Waiting? || pc.Blocked? || Inside(pc)
  }

  /** What one thread knows about its own buffer. */
  predicate OwnBuffer(s: State, pc: Pc)
    requires Shaped(s)
  {
    HasIndex(pc) ==>
      && pc.idx < EC_MAXBUF
      && (pc.Allocated? ==> !s.stat[pc.idx].Empty?)
      && (pc.Marked? ==> s.stat[pc.idx].Tx?)
      && (Expects(pc) ==> s.stat[pc.idx].Tx? || s.stat[pc.idx].Rcvd?)
      && (pc.Reading? ==> s.stat[pc.idx].Rcvd?)
      && (pc.Read? ==> s.stat[pc.idx].Rcvd? && pc.reply.serial == s.sent[pc.idx] && s.rxbuf[pc.idx] == pc.reply)
      && (pc.Finished? ==> s.stat[pc.idx].Complete? && pc.reply.serial == s.sent[pc.idx] && s.rxbuf[pc.idx] == pc.reply)
  }

  /** How many steps the search takes from index a to index b. */
  function Distance(a: nat, b: nat): int { if b >= a then b - a else b + EC_MAXBUF - a }

  /** What a thread that looks for an index knows: the one that was free still is and lies ahead, and the one
      it chose is free. */
  predicate Search(s: State, pc: Pc)
    requires Shaped(s)
  {
    && (pc.Scanning? ==> pc.cand < EC_MAXBUF && pc.free < EC_MAXBUF && s.stat[pc.free].Empty? &&
                         Distance(pc.cand, pc.free) < EC_MAXBUF - pc.cnt)
    && (pc.Chosen? ==> pc.cand < EC_MAXBUF && s.stat[pc.cand].Empty?)
  }

  /** What a thread knows about the frame it carries. */
  ghost predicate CarriedFrame(s: State, pc: Pc)
    requires Shaped(s)
  {
    pc.Pulled? || pc.Storing? || pc.Stored? ==>
      && pc.to < EC_MAXBUF && s.stat[pc.to].Tx? && Expected(s, pc.to)
      && pc.reply.serial == s.sent[pc.to]
      && pc.reply.serial !in s.flying
      && (pc.Pulled? ==> pc.to != pc.idx)
      && (pc.Stored? ==> s.rxbuf[pc.to] == pc.reply)
  }

  /** A thread that holds the index is waiting for the answer. */
  ghost predicate Expected(s: State, i: nat) {
    forall t :: 0 <= t < |s.threads| && HasIndex(s.threads[t]) && s.threads[t].idx == i ==> Expects(s.threads[t])
  }

  /** A frame on the wire is the last one sent under its index. */
  ghost predicate FlyingFrame(s: State, n: nat)
    requires Shaped(s) && n in s.flying
  {
    var i := s.flying[n];
    n < s.next && i < EC_MAXBUF && n == s.sent[i] && s.stat[i].Tx? && Expected(s, i)
  }

  /** Whoever looks for an index holds the index mutex. */
  ghost predicate Searches(s: State)
    requires Shaped(s)
  {
    forall t :: 0 <= t < |s.threads| ==> (Choosing(s.threads[t]) <==> s.idxmutex == t) && Search(s, s.threads[t])
  }

  ghost predicate Inv(s: State) {
    && Shaped(s)
    && DistinctIndices(s)
    && s.lastidx < EC_MAXBUF
    && Searches(s)
    && (forall t :: 0 <= t < |s.threads| ==> OwnBuffer(s, s.threads[t]) && CarriedFrame(s, s.threads[t]))
    && (forall t :: 0 <= t < |s.threads| ==> (Inside(s.threads[t]) <==> s.mutex == t))
    && (forall n :: n in s.flying ==> FlyingFrame(s, n))
    // a filled buffer holds the reply to the frame last sent under its index
    && (forall i :: 0 <= i < EC_MAXBUF && s.stat[i].Rcvd? ==> s.rxbuf[i].serial == s.sent[i] && s.sent[i] !in s.flying)
    && (forall i :: 0 <= i < EC_MAXBUF ==> s.sent[i] < s.next)
  }

  lemma {:induction false} InvInitial(s: State)
    requires Initial(s)
    ensures Inv(s)
  {
  }

  // Two lemmas per action: it keeps what is known of frames on the wire and of searches for an index, and
  // with that the whole invariant.

  lemma {:induction false} AfterLockIndex(s: State, a: Action)
    requires Inv(s) && Enabled(s, a) && a.LockIndex?
    ensures Searches(Step(s, a)) && forall n :: n in Step(s, a).flying ==> FlyingFrame(Step(s, a), n)
  {
  }

  lemma {:induction false} InvLockIndex(s: State, a: Action)
    requires Inv(s) && Enabled(s, a) && a.LockIndex?
    ensures Inv(Step(s, a))
  {
    AfterLockIndex(s, a);
    hide FlyingFrame, Searches;
  }

  lemma {:induction false} AfterScanNext(s: State, a: Action)
    requires Inv(s) && Enabled(s, a) && a.ScanNext?
    ensures Searches(Step(s, a)) && forall n :: n in Step(s, a).flying ==> FlyingFrame(Step(s, a), n)
  {
  }

  lemma {:induction false} InvScanNext(s: State, a: Action)
    requires Inv(s) && Enabled(s, a) && a.ScanNext?
    ensures Inv(Step(s, a))
  {
    AfterScanNext(s, a);
    hide FlyingFrame, Searches;
  }

  lemma {:induction false} AfterScanFound(s: State, a: Action)
    requires Inv(s) && Enabled(s, a) && a.ScanFound?
    ensures Searches(Step(s, a)) && forall n :: n in Step(s, a).flying ==> FlyingFrame(Step(s, a), n)
  {
  }

  lemma {:induction false} InvScanFound(s: State, a: Action)
    requires Inv(s) && Enabled(s, a) && a.ScanFound?
    ensures Inv(Step(s, a))
  {
    AfterScanFound(s, a);
    hide FlyingFrame, Searches;
  }

  lemma {:induction false} AfterMarkAlloc(s: State, a: Action)
    requires Inv(s) && Enabled(s, a) && a.MarkAlloc?
    ensures Searches(Step(s, a)) && forall n :: n in Step(s, a).flying ==> FlyingFrame(Step(s, a), n)
  {
  }

  lemma {:induction false} InvMarkAlloc(s: State, a: Action)
    requires Inv(s) && Enabled(s, a) && a.MarkAlloc?
    ensures Inv(Step(s, a))
  {
    AfterMarkAlloc(s, a);
    hide FlyingFrame, Searches;
  }

  lemma {:induction false} AfterMarkTx(s: State, a: Action)
    requires Inv(s) && Enabled(s, a) && a.MarkTx?
    ensures Searches(Step(s, a)) && forall n :: n in Step(s, a).flying ==> FlyingFrame(Step(s, a), n)
  {
  }

  lemma {:induction false} InvMarkTx(s: State, a: Action)
    requires Inv(s) && Enabled(s, a) && a.MarkTx?
    ensures Inv(Step(s, a))
  {
    AfterMarkTx(s, a);
    hide FlyingFrame, Searches;
  }

  lemma {:induction false} AfterTransmit(s: State, a: Action)
    requires Inv(s) && Enabled(s, a) && a.Transmit?
    ensures Searches(Step(s, a)) && forall n :: n in Step(s, a).flying ==> FlyingFrame(Step(s, a), n)
  {
  }

  lemma {:induction false} InvTransmit(s: State, a: Action)
    requires Inv(s) && Enabled(s, a) && a.Transmit?
    ensures Inv(Step(s, a))
  {
    AfterTransmit(s, a);
    hide FlyingFrame, Searches;
  }

  lemma {:induction false} AfterCheckBuffer(s: State, a: Action)
    requires Inv(s) && Enabled(s, a) && a.CheckBuffer?
    ensures Searches(Step(s, a)) && forall n :: n in Step(s, a).flying ==> FlyingFrame(Step(s, a), n)
  {
  }

  lemma {:induction false} InvCheckBuffer(s: State, a: Action)
    requires Inv(s) && Enabled(s, a) && a.CheckBuffer?
    ensures Inv(Step(s, a))
  {
    AfterCheckBuffer(s, a);
    hide FlyingFrame, Searches;
  }

  lemma {:induction false} AfterReadBuffer(s: State, a: Action)
    requires Inv(s) && Enabled(s, a) && a.ReadBuffer?
    ensures Searches(Step(s, a)) && forall n :: n in Step(s, a).flying ==> FlyingFrame(Step(s, a), n)
  {
  }

  lemma {:induction false} InvReadBuffer(s: State, a: Action)
    requires Inv(s) && Enabled(s, a) && a.ReadBuffer?
    ensures Inv(Step(s, a))
  {
    AfterReadBuffer(s, a);
    hide FlyingFrame, Searches;
  }

  lemma {:induction false} AfterCompleteRead(s: State, a: Action)
    requires Inv(s) && Enabled(s, a) && a.CompleteRead?
    ensures Searches(Step(s, a)) && forall n :: n in Step(s, a).flying ==> FlyingFrame(Step(s, a), n)
  {
  }

  lemma {:induction false} InvCompleteRead(s: State, a: Action)
    requires Inv(s) && Enabled(s, a) && a.CompleteRead?
    ensures Inv(Step(s, a))
  {
    AfterCompleteRead(s, a);
    hide FlyingFrame, Searches;
  }

  lemma {:induction false} AfterLock(s: State, a: Action)
    requires Inv(s) && Enabled(s, a) && a.Lock?
    ensures Searches(Step(s, a)) && forall n :: n in Step(s, a).flying ==> FlyingFrame(Step(s, a), n)
  {
  }

  lemma {:induction false} InvLock(s: State, a: Action)
    requires Inv(s) && Enabled(s, a) && a.Lock?
    ensures Inv(Step(s, a))
  {
    AfterLock(s, a);
    hide FlyingFrame, Searches;
  }

  lemma {:induction false} AfterReceiveNothing(s: State, a: Action)
    requires Inv(s) && Enabled(s, a) && a.ReceiveNothing?
    ensures Searches(Step(s, a)) && forall n :: n in Step(s, a).flying ==> FlyingFrame(Step(s, a), n)
  {
  }

  lemma {:induction false} InvReceiveNothing(s: State, a: Action)
    requires Inv(s) && Enabled(s, a) && a.ReceiveNothing?
    ensures Inv(Step(s, a))
  {
    AfterReceiveNothing(s, a);
    hide FlyingFrame, Searches;
  }

  lemma {:induction false} AfterReceive(s: State, a: Action)
    requires Inv(s) && Enabled(s, a) && a.Receive?
    ensures Searches(Step(s, a)) && forall n :: n in Step(s, a).flying ==> FlyingFrame(Step(s, a), n)
  {
  }

  lemma {:induction false} InvReceive(s: State, a: Action)
    requires Inv(s) && Enabled(s, a) && a.Receive?
    ensures Inv(Step(s, a))
  {
    AfterReceive(s, a);
    hide FlyingFrame, Searches;
  }

  lemma {:induction false} AfterCheckOther(s: State, a: Action)
    requires Inv(s) && Enabled(s, a) && a.CheckOther?
    ensures Searches(Step(s, a)) && forall n :: n in Step(s, a).flying ==> FlyingFrame(Step(s, a), n)
  {
  }

  lemma {:induction false} InvCheckOther(s: State, a: Action)
    requires Inv(s) && Enabled(s, a) && a.CheckOther?
    ensures Inv(Step(s, a))
  {
    AfterCheckOther(s, a);
    hide FlyingFrame, Searches;
  }

  lemma {:induction false} AfterStore(s: State, a: Action)
    requires Inv(s) && Enabled(s, a) && a.Store?
    ensures Searches(Step(s, a)) && forall n :: n in Step(s, a).flying ==> FlyingFrame(Step(s, a), n)
  {
  }

  lemma {:induction false} InvStore(s: State, a: Action)
    requires Inv(s) && Enabled(s, a) && a.Store?
    ensures Inv(Step(s, a))
  {
    AfterStore(s, a);
    hide FlyingFrame, Searches;
  }

  lemma {:induction false} AfterSetStatus(s: State, a: Action)
    requires Inv(s) && Enabled(s, a) && a.SetStatus?
    ensures Searches(Step(s, a)) && forall n :: n in Step(s, a).flying ==> FlyingFrame(Step(s, a), n)
  {
  }

  lemma {:induction false} InvSetStatus(s: State, a: Action)
    requires Inv(s) && Enabled(s, a) && a.SetStatus?
    ensures Inv(Step(s, a))
  {
    AfterSetStatus(s, a);
    hide FlyingFrame, Searches;
  }

  lemma {:induction false} AfterRelease(s: State, a: Action)
    requires Inv(s) && Enabled(s, a) && a.Release?
    ensures Searches(Step(s, a)) && forall n :: n in Step(s, a).flying ==> FlyingFrame(Step(s, a), n)
  {
  }

  lemma {:induction false} InvRelease(s: State, a: Action)
    requires Inv(s) && Enabled(s, a) && a.Release?
    ensures Inv(Step(s, a))
  {
    AfterRelease(s, a);
    hide FlyingFrame, Searches;
  }

  lemma {:induction false} AfterLose(s: State, a: Action)
    requires Inv(s) && Enabled(s, a) && a.Lose?
    ensures Searches(Step(s, a)) && forall n :: n in Step(s, a).flying ==> FlyingFrame(Step(s, a), n)
  {
  }

  lemma {:induction false} InvLose(s: State, a: Action)
    requires Inv(s) && Enabled(s, a) && a.Lose?
    ensures Inv(Step(s, a))
  {
    AfterLose(s, a);
    hide FlyingFrame, Searches;
  }

  lemma {:induction false} AfterGiveUp(s: State, a: Action)
    requires Inv(s) && Enabled(s, a) && a.GiveUp?
    ensures Searches(Step(s, a)) && forall n :: n in Step(s, a).flying ==> FlyingFrame(Step(s, a), n)
  {
  }

  lemma {:induction false} InvGiveUp(s: State, a: Action)
    requires Inv(s) && Enabled(s, a) && a.GiveUp?
    ensures Inv(Step(s, a))
  {
    AfterGiveUp(s, a);
    hide FlyingFrame, Searches;
  }

  lemma {:induction false} AfterResend(s: State, a: Action)
    requires Inv(s) && Enabled(s, a) && a.Resend?
    ensures Searches(Step(s, a)) && forall n :: n in Step(s, a).flying ==> FlyingFrame(Step(s, a), n)
  {
  }

  lemma {:induction false} InvResend(s: State, a: Action)
    requires Inv(s) && Enabled(s, a) && a.Resend?
    ensures Inv(Step(s, a))
  {
    AfterResend(s, a);
    hide FlyingFrame, Searches;
  }

  /** The search never gives up. */
  lemma {:induction false} NeverOut(s: State, t: nat)
    requires Inv(s) && t < |s.threads|
    ensures !Enabled(s, ScanOut(t))
  {
    assert Search(s, s.threads[t]);
  }

  lemma {:induction false} OutOfRange(s: State, a: Action)
    requires Enabled(s, a) && !a.Lose?
    ensures a.t < |s.threads|
  {
  }

  lemma {:induction false} InvStep(s: State, a: Action)
    requires Inv(s) && Enabled(s, a)
    ensures Inv(Step(s, a))
  {
    hide Inv, Enabled, Step;
    match a {
      case LockIndex(_, _) => InvLockIndex(s, a);
      case ScanNext(_) => InvScanNext(s, a);
      case ScanFound(_) => InvScanFound(s, a);
      case ScanOut(t) => OutOfRange(s, a); NeverOut(s, t);
      case MarkAlloc(_) => InvMarkAlloc(s, a);
      case MarkTx(_) => InvMarkTx(s, a);
      case Transmit(_) => InvTransmit(s, a);
      case CheckBuffer(_) => InvCheckBuffer(s, a);
      case ReadBuffer(_) => InvReadBuffer(s, a);
      case CompleteRead(_) => InvCompleteRead(s, a);
      case Lock(_) => InvLock(s, a);
      case ReceiveNothing(_) => InvReceiveNothing(s, a);
      case Receive(_, _, _, _) => InvReceive(s, a);
      case CheckOther(_) => InvCheckOther(s, a);
      case Store(_) => InvStore(s, a);
      case SetStatus(_) => InvSetStatus(s, a);
      case Release(_) => InvRelease(s, a);
      case Lose(_) => InvLose(s, a);
      case GiveUp(_) => InvGiveUp(s, a);
      case Resend(_) => InvResend(s, a);
    }
  }

  lemma {:induction false} InvAlways(states: seq<State>, actions: seq<Action>, k: nat)
    requires IsRun(states, actions) && k < |states|
    ensures Inv(states[k])
    decreases k
  {
    if k == 0 {
      InvInitial(states[0]);
    } else {
      InvAlways(states, actions, k - 1);
      assert states[k - 1 + 1] == Step(states[k - 1], actions[k - 1]);
      InvStep(states[k - 1], actions[k - 1]);
    }
  }

  /** In every state of every run the indices held by threads are pairwise distinct, a result is
      the reply to the frame last sent under its index, whichever thread took it off the wire, and
      no such frame is thrown away. */
  lemma {:induction false} RunsAreSafe(states: seq<State>, actions: seq<Action>, k: nat)
    requires IsRun(states, actions) && k < |states|
    ensures DistinctIndices(states[k]) && OwnReplies(states[k]) && NothingDropped(states[k])
  {
    InvAlways(states, actions, k);
  }

  /** In every run in which some index is free whenever a thread begins to look for one, the search never
      ends with an index in use: it goes on, or it finds a free one. */
  lemma {:induction false} SearchFinds(states: seq<State>, actions: seq<Action>, k: nat, t: nat)
    requires IsRun(states, actions) && k < |states| && t < |states[k].threads| && states[k].threads[t].Scanning?
    ensures !Enabled(states[k], ScanOut(t)) && (Enabled(states[k], ScanNext(t)) || Enabled(states[k], ScanFound(t)))
  {
    InvAlways(states, actions, k);
    assert Search(states[k], states[k].threads[t]);
  }

  // ----- why a thread must not give up while its frame may still come -----

  /** Give up after a timeout, although the frame is still on its way. */
  function Abandon(s: State, t: nat): State
    requires Shaped(s) && t < |s.threads| && s.threads[t].Waiting? && s.threads[t].idx < EC_MAXBUF
  {
    Move(s, t, Idle).(stat := s.stat[s.threads[t].idx := Empty])
  }

  /** Exactly when: giving up keeps the invariant if, and only if, no frame under the index is on the wire or held
      by a thread. */
  lemma {:induction false} AbandonIff(s: State, t: nat)
    requires Inv(s) && t < |s.threads| && s.threads[t].Waiting? && s.threads[t].idx < EC_MAXBUF
    ensures Inv(Abandon(s, t)) <==> Gone(s, s.threads[t].idx)
  {
    var i := s.threads[t].idx;
    if Gone(s, i) {
      InvGiveUp(s, GiveUp(t));
    } else if n :| n in s.flying && s.flying[n] == i {
      assert FlyingFrame(s, n) && !FlyingFrame(Abandon(s, t), n);
    } else {
      var u :| 0 <= u < |s.threads| && Carries(s.threads[u], i);
      assert CarriedFrame(s, s.threads[u]) && !CarriedFrame(Abandon(s, t), Abandon(s, t).threads[u]);
    }
  }

  /** The actions can be taken in order, and lead from s to s'. */
  predicate LeadsTo(s: State, actions: seq<Action>, s': State)
    decreases |actions|
  {
    if actions == [] then s == s'
    else Enabled(s, actions[0]) && LeadsTo(Step(s, actions[0]), actions[1..], s')
  }

  /** From the locked search, past d indices in use, to a frame on the wire. */
  function Sending(d: nat): seq<Action> {
    [LockIndex(0, 0)] + Passing(d) + [ScanFound(0), MarkAlloc(0), MarkTx(0), Transmit(0)]
  }

  function Passing(d: nat): seq<Action> { if d == 0 then [] else [ScanNext(0)] + Passing(d - 1) }

  function Reception(serial: nat, content: int, wkc: int): seq<Action> {
    [CheckBuffer(0), Lock(0), Receive(0, serial, content, wkc), Store(0), SetStatus(0)]
  }

  lemma {:induction false} LeadsOn(s: State, actions: seq<Action>, mid: State, actions': seq<Action>, s': State)
    requires LeadsTo(s, actions, mid) && LeadsTo(mid, actions', s')
    ensures LeadsTo(s, actions + actions', s')
    decreases |actions|
  {
    hide Enabled, Step;
    if actions == [] {
      assert actions + actions' == actions';
    } else {
      LeadsOn(Step(s, actions[0]), actions[1..], mid, actions', s');
      assert (actions + actions')[1..] == actions[1..] + actions';
    }
  }

  /** Thread 0 is idle, nobody holds a mutex, and index 0 is the only one that is free. */
  predicate OneFree(s: State) {
    && Shaped(s) && s.threads != [] && s.threads[0].Idle? && s.mutex == -1 && s.idxmutex == -1 && s.lastidx < EC_MAXBUF
    && forall i :: 0 <= i < EC_MAXBUF ==> (s.stat[i].Empty? <==> i == 0)
  }

  lemma {:induction false} Passes(s: State, c: nat, n: nat) returns (s': State)
    requires Shaped(s) && s.threads != [] && s.threads[0] == Scanning(c, n, 0) && c < EC_MAXBUF &&
             n + Distance(c, 0) < EC_MAXBUF
    requires forall i :: 0 <= i < EC_MAXBUF ==> (s.stat[i].Empty? <==> i == 0)
    ensures LeadsTo(s, Passing(Distance(c, 0)), s') && s' == Move(s, 0, Scanning(0, n + Distance(c, 0), 0))
    decreases Distance(c, 0)
  {
    if c == 0 {
      s' := s;
      assert s.threads[0 := s.threads[0]] == s.threads;
    } else {
      var s1 := Step(s, ScanNext(0));
      s' := Passes(s1, After(c), n + 1);
      assert Passing(Distance(c, 0))[1..] == Passing(Distance(After(c), 0));
      assert s1.threads[0 := s'.threads[0]] == s.threads[0 := s'.threads[0]];
    }
  }

  lemma {:induction false} SendOnce(s: State) returns (s': State)
    requires OneFree(s)
    ensures LeadsTo(s, Sending(Distance(After(s.lastidx), 0)), s')
    ensures s' == s.(threads := s.threads[0 := Waiting(0)], stat := s.stat[0 := Tx], flying := s.flying[s.next := 0],
                     sent := s.sent[0 := s.next], next := s.next + 1, lastidx := 0)
  {
    var c := After(s.lastidx);
    var d := Distance(c, 0);
    var s1 := Step(s, LockIndex(0, 0));
    assert LeadsTo(s1, [], s1) && [LockIndex(0, 0)][1..] == [];
    var s2 := Passes(s1, c, 0);
    var rest := [ScanFound(0), MarkAlloc(0), MarkTx(0), Transmit(0)];
    s' := Sends(s2);
    LeadsOn(s1, Passing(d), s2, rest, s');
    LeadsOn(s, [LockIndex(0, 0)], s1, Passing(d) + rest, s');
    assert Sending(d) == [LockIndex(0, 0)] + (Passing(d) + rest);
    assert s2.threads[0 := Waiting(0)] == s.threads[0 := Waiting(0)];
  }

  lemma {:induction false} Sends(s: State) returns (s': State)
    requires Shaped(s) && s.threads != [] && s.threads[0].Scanning? && s.threads[0].cand == 0 && s.stat[0].Empty?
    ensures LeadsTo(s, [ScanFound(0), MarkAlloc(0), MarkTx(0), Transmit(0)], s')
    ensures s' == s.(threads := s.threads[0 := Waiting(0)], stat := s.stat[0 := Tx], flying := s.flying[s.next := 0],
                     sent := s.sent[0 := s.next], next := s.next + 1, lastidx := 0, idxmutex := -1)
  {
    var actions := [ScanFound(0), MarkAlloc(0), MarkTx(0), Transmit(0)];
    var s1 := Step(s, actions[0]);
    var s2 := Step(s1, actions[1]);
    var s3 := Step(s2, actions[2]);
    s' := Step(s3, actions[3]);
    assert actions[1..][1..][1..] == [Transmit(0)] && [Transmit(0)][1..] == [];
    assert LeadsTo(s3, actions[1..][1..][1..], s');
    assert LeadsTo(s2, actions[1..][1..], s');
    assert LeadsTo(s1, actions[1..], s');
    assert s.stat[0 := Alloc][0 := Tx] == s.stat[0 := Tx];
    assert s'.threads == s.threads[0 := Waiting(0)];
  }

  lemma {:induction false} Takes(s: State, serial: nat, content: int, wkc: int) returns (s': State)
    requires Shaped(s) && s.threads != [] && s.threads[0] == Waiting(0) && s.stat[0].Tx? && s.mutex == -1
    requires serial in s.flying && s.flying[serial] == 0
    ensures LeadsTo(s, [CheckBuffer(0), Lock(0), Receive(0, serial, content, wkc)], s')
    ensures Shaped(s') && s'.sent == s.sent
    ensures s'.threads == s.threads[0 := Storing(0, 0, Reply(serial, content, wkc))]
  {
    var actions := [CheckBuffer(0), Lock(0), Receive(0, serial, content, wkc)];
    var s1 := Step(s, actions[0]);
    var s2 := Step(s1, actions[1]);
    s' := Step(s2, actions[2]);
    assert actions[1..][1..] == [Receive(0, serial, content, wkc)] && [Receive(0, serial, content, wkc)][1..] == [];
    assert LeadsTo(s2, actions[1..][1..], s');
    assert LeadsTo(s1, actions[1..], s');
    assert s'.threads == s.threads[0 := Storing(0, 0, Reply(serial, content, wkc))];
  }

  lemma {:induction false} HandsOver(s: State, reply: Reply) returns (s': State)
    requires Shaped(s) && s.threads != [] && s.threads[0] == Storing(0, 0, reply)
    ensures LeadsTo(s, [Store(0), SetStatus(0)], s')
    ensures Shaped(s') && s'.sent == s.sent && s'.threads == s.threads[0 := Finished(0, reply)]
  {
    var s1 := Step(s, Store(0));
    s' := Step(s1, SetStatus(0));
    assert [Store(0), SetStatus(0)][1..] == [SetStatus(0)] && [SetStatus(0)][1..] == [];
    assert LeadsTo(s1, [SetStatus(0)], s');
    assert s'.threads == s.threads[0 := Finished(0, reply)];
  }

  lemma {:induction false} ReceiveOnce(s: State, serial: nat, content: int, wkc: int) returns (s': State)
    requires Shaped(s) && s.threads != [] && s.threads[0] == Waiting(0) && s.stat[0].Tx? && s.mutex == -1
    requires serial in s.flying && s.flying[serial] == 0
    ensures LeadsTo(s, Reception(serial, content, wkc), s')
    ensures Shaped(s') && s'.threads == s.threads[0 := Finished(0, Reply(serial, content, wkc))] && s'.sent == s.sent
  {
    hide LeadsTo, Enabled, Step;
    var s1 := Takes(s, serial, content, wkc);
    s' := HandsOver(s1, Reply(serial, content, wkc));
    LeadsOn(s, [CheckBuffer(0), Lock(0), Receive(0, serial, content, wkc)], s1, [Store(0), SetStatus(0)], s');
    assert Reception(serial, content, wkc)
        == [CheckBuffer(0), Lock(0), Receive(0, serial, content, wkc)] + [Store(0), SetStatus(0)];
    assert s'.threads == s.threads[0 := Finished(0, Reply(serial, content, wkc))];
  }

  /** Threads 1 to k hold indices 1 to k. */
  predicate Filled(s: State, k: nat) {
    && Shaped(s) && |s.threads| >= EC_MAXBUF && k < EC_MAXBUF && s.mutex == -1 && s.idxmutex == -1 && s.lastidx == k
    && (forall t :: 0 <= t < |s.threads| ==> (t == 0 || t > k ==> s.threads[t].Idle?))
    && (forall i :: 0 <= i < EC_MAXBUF ==> (s.stat[i].Empty? <==> i == 0 || i > k))
  }

  /** Thread k takes index k. */
  function Allocating(k: nat): seq<Action> { [LockIndex(k, k), ScanFound(k), MarkAlloc(k)] }

  function Filling(k: nat): seq<Action> { if k == 0 then [] else Filling(k - 1) + Allocating(k) }

  lemma {:induction false} AllocatesNext(s: State, k: nat) returns (s': State)
    requires Filled(s, k) && k + 1 < EC_MAXBUF
    ensures LeadsTo(s, Allocating(k + 1), s') && Filled(s', k + 1)
  {
    var t := k + 1;
    var s1 := Step(s, LockIndex(t, t));
    var s2 := Step(s1, ScanFound(t));
    s' := Step(s2, MarkAlloc(t));
    assert Allocating(t)[1..][1..] == [MarkAlloc(t)] && [MarkAlloc(t)][1..] == [];
    assert LeadsTo(s2, Allocating(t)[1..][1..], s');
    assert LeadsTo(s1, Allocating(t)[1..], s');
  }

  lemma {:induction false} FillsUp(s: State, k: nat) returns (s': State)
    requires Filled(s, 0) && k < EC_MAXBUF
    ensures LeadsTo(s, Filling(k), s') && Filled(s', k)
  {
    hide Filled, Allocating;
    if k == 0 {
      s' := s;
    } else {
      var mid := FillsUp(s, k - 1);
      s' := AllocatesNext(mid, k - 1);
      LeadsOn(s, Filling(k - 1), mid, Allocating(k), s');
    }
  }

  /** The allocator goes round, so an index comes back soon only when the others are taken.  Then a thread that
      gives up too early and sends again gets the late reply to its first frame as the answer to the second. */
  lemma {:induction false} StaleReply(s: State, content: int, wkc: int)
    returns (late: State, second: State, end: State)
    requires OneFree(s)
    ensures LeadsTo(s, Sending(Distance(After(s.lastidx), 0)), late)
    ensures Shaped(late) && late.threads != [] && late.threads[0] == Waiting(0) && !Gone(late, 0)
    ensures LeadsTo(Abandon(late, 0), Sending(15), second)
    ensures LeadsTo(second, Reception(late.sent[0], content, wkc), end)
    ensures !OwnReplies(end)
  {
    late := SendOnce(s);
    var again := Abandon(late, 0);
    assert again.stat == s.stat[0 := Tx][0 := Empty] && again.threads[0].Idle?;
    second := SendOnce(again);
    assert late.sent[0] == s.next && late.flying[s.next] == 0 && second.flying[s.next] == 0;
    end := ReceiveOnce(second, s.next, content, wkc);
    assert end.threads[0].reply.serial != end.sent[0];
  }

  /** Such a run from the beginning: fifteen threads take an index each, and thread 0 the last one. */
  lemma {:induction false} StaleRun(s: State, content: int, wkc: int)
    returns (full: State, late: State, second: State, end: State)
    requires Initial(s) && |s.threads| >= EC_MAXBUF && s.lastidx == 0
    ensures LeadsTo(s, Filling(15), full) && LeadsTo(full, Sending(0), late)
    ensures Shaped(late) && late.threads != [] && late.threads[0] == Waiting(0) && !Gone(late, 0)
    ensures LeadsTo(Abandon(late, 0), Sending(15), second)
    ensures LeadsTo(second, Reception(late.sent[0], content, wkc), end)
    ensures !OwnReplies(end)
  {
    hide LeadsTo, Sending, Reception, Filling;
    full := FillsUp(s, 15);
    late, second, end := StaleReply(full, content, wkc);
  }
}
