/** EoE fragments that get lost: no frame is delivered that was not sent. */
module EoeLoss {
  import opened Bytes
  import opened Eoe
  import opened EoeTransfer

  /** A fragment that got through: which frame, which fragment, with what mailbox counter. */
  datatype Got = Got(frame: nat, k: nat, cnt: nat)

  /** A sender's frames: the data, how they are cut, the port, the number of the first one. */
  datatype Stream = Stream(frames: seq<seq<byte>>, maxdata: nat, port: byte, first: nat)

  predicate Exists(s: Stream, g: Got) {
    && g.frame < |s.frames| && g.cnt < 0x10
    && Cuttable(|s.frames[g.frame]|, s.maxdata) && HasFragment(|s.frames[g.frame]|, s.maxdata, g.k)
  }

  function Piece(s: Stream, g: Got): Mbx
    requires Exists(s, g)
  {
    Fragment(s.frames[g.frame], s.maxdata, s.port, s.first + g.frame, g.cnt, g.k)
  }

  predicate AllExist(s: Stream, gs: seq<Got>) { forall i :: 0 <= i < |gs| ==> Exists(s, gs[i]) }

  function Pieces(s: Stream, gs: seq<Got>): (ms: seq<Mbx>)
    requires AllExist(s, gs)
    ensures |ms| == |gs| && forall i :: 0 <= i < |gs| ==> ms[i] == Piece(s, gs[i])
  {
    seq(|gs|, i requires 0 <= i < |gs| => Piece(s, gs[i]))
  }

  /** Later in the stream, by fewer than `gap` frames. */
  predicate Later(a: Got, b: Got, gap: nat) {
    (a.frame < b.frame || (a.frame == b.frame && a.k < b.k)) && b.frame < a.frame + gap
  }

  /** Some fragments of the stream, in their order. */
  predicate Subsequence(gs: seq<Got>, gap: nat) {
    forall i :: 0 < i < |gs| ==> Later(gs[i - 1], gs[i], gap)
  }

  predicate Fits(s: Stream, room: nat) {
    forall i :: 0 <= i < |s.frames| ==> |s.frames[i]| <= 2016 && |s.frames[i]| <= room
  }

  /** Nothing is being read, or everything up to fragment g. */
  predicate Partial(st: Rx, s: Stream, g: Got)
    requires Exists(s, g)
  {
    var p := s.frames[g.frame];
    st.Valid() && (st.fragmentNo == 0 ||
      (HasFragment(|p|, s.maxdata, g.k + 1) && ReadUpTo(st, p, s.maxdata, s.first + g.frame, g.k + 1)))
  }

  /** What is expected comes. */
  lemma {:induction false} Expected(st: Rx, s: Stream, g: Got)
    requires Exists(s, g) && Fits(s, st.psize) && st.Valid() && g.k == st.fragmentNo
    requires g.k > 0 ==> ReadUpTo(st, s.frames[g.frame], s.maxdata, s.first + g.frame, g.k)
    ensures Sound(Piece(s, g))
    ensures Partial(Next(st, Piece(s, g), st.psize).0, s, g)
    ensures Next(st, Piece(s, g), st.psize).1 == 1 ==> Completed(st, Piece(s, g)) == Completion(s.frames[g.frame])
  {
    hide Fragment, Read, ReadUpTo;
    NextTaken(st, s.frames[g.frame], s.maxdata, s.port, s.first + g.frame, g.cnt, g.k);
  }

  lemma {:induction false} PieceHeader(s: Stream, g: Got)
    requires Exists(s, g) && |s.frames[g.frame]| <= 2016
    ensures var m := Piece(s, g);
            IsEoe(m) && Sound(m) && FragmentNo(m.frameinfo2) == g.k &&
              FrameNo(m.frameinfo2) == (s.first + g.frame) % 0x10
    ensures LastFragment(Piece(s, g).frameinfo1) == IsLast(|s.frames[g.frame]|, s.maxdata, g.k)
  {
    var p := s.frames[g.frame];
    FragmentInside(|p|, s.maxdata, g.k);
    FragmentSound(p, s.maxdata, s.port, s.first + g.frame, g.cnt, g.k);
    hide Offset, HasFragment, IsLast, LastFragment, Sound, Info1, Info2, FragmentNo, FrameNo, Size, IsEoe;
    Header2(g.k, if g.k > 0 then Offset(s.maxdata, g.k) / 32 else (|p| + 31) / 32, s.first + g.frame);
  }

  /** Another fragment of the frame being read, or of another frame: reading starts over. */
  lemma {:induction false} Unexpected(st: Rx, s: Stream, g: Got)
    requires Exists(s, g) && Fits(s, st.psize) && st.Valid() && Sound(Piece(s, g))
    requires g.k > 0 && (st.fragmentNo == g.k ==> st.frameNo != (s.first + g.frame) % 0x10)
    ensures Next(st, Piece(s, g), st.psize).1 < 0 && Next(st, Piece(s, g), st.psize).0.fragmentNo == 0
  {
    hide Piece, Sound, IsEoe, FragmentNo, FrameNo, FrameOffset, Take, Exists;
    SoundPiece(s, g, st.psize);
    PieceHeader(s, g);
  }

  /** A first fragment is read the same way whatever was read before. */
  lemma {:induction false} StartsOver(st: Rx, s: Stream, g: Got)
    requires Exists(s, g) && st.Valid() && Sound(Piece(s, g)) && g.k == 0 && |s.frames[g.frame]| <= 2016
    ensures Read(st, Piece(s, g)) == Read(st.Reset(), Piece(s, g))
  {
    hide Piece, Sound, IsEoe, FragmentNo, FrameNo, FrameOffset, Take, Exists;
    PieceHeader(s, g);
  }

  /** Only a last fragment completes a frame. */
  lemma {:induction false} CompletesLast(st: Rx, s: Stream, g: Got)
    requires Exists(s, g) && Fits(s, st.psize) && st.Valid() && Sound(Piece(s, g))
    requires Next(st, Piece(s, g), st.psize).1 == 1
    ensures IsLast(|s.frames[g.frame]|, s.maxdata, g.k)
  {
    hide Piece, Sound, IsEoe, Accept, IsLast, LastFragment, Put, TimeAppended, DataSize, Exists;
    SoundPiece(s, g, st.psize);
    PieceHeader(s, g);
  }

  /** One more fragment: what is being read stays part of the frame it belongs to, and a frame that is
      complete is the frame that was sent. */
  lemma {:induction false} OneMore(st: Rx, s: Stream, prev: seq<Got>, g: Got)
    requires Exists(s, g) && Fits(s, st.psize) && st.Valid()
    requires if prev == [] then st.fragmentNo == 0
             else |prev| == 1 && Exists(s, prev[0]) && Partial(st, s, prev[0]) && Later(prev[0], g, 16)
    ensures Sound(Piece(s, g))
    ensures Partial(Next(st, Piece(s, g), st.psize).0, s, g)
    ensures Next(st, Piece(s, g), st.psize).1 == 1 ==> Completed(st, Piece(s, g)) == Completion(s.frames[g.frame])
  {
    hide Piece, Sound, Read, Exists, Fits;
    SoundPiece(s, g, st.psize);
    if g.k == 0 {
      StartsOver(st, s, g);
      Expected(st.Reset(), s, g);
    } else if st.fragmentNo == g.k && st.frameNo == (s.first + g.frame) % 0x10 {
      SameFrame(st, s, prev[0], g);
      Expected(st, s, g);
    } else {
      Unexpected(st, s, g);
    }
  }

  lemma {:induction false} SoundPiece(s: Stream, g: Got, room: nat)
    requires Exists(s, g) && Fits(s, room)
    ensures g.frame < |s.frames| && Sound(Piece(s, g)) && |s.frames[g.frame]| <= 2016
  {
    PieceHeader(s, g);
  }

  /** Fewer than 16 frames later, the same frame number is the same frame. */
  lemma {:induction false} SameFrame(st: Rx, s: Stream, a: Got, b: Got)
    requires Exists(s, a) && Exists(s, b) && Partial(st, s, a) && Later(a, b, 16)
    requires st.fragmentNo == b.k > 0 && st.frameNo == (s.first + b.frame) % 0x10
    ensures a.frame == b.frame && ReadUpTo(st, s.frames[b.frame], s.maxdata, s.first + b.frame, b.k)
  {
    hide HasFragment, Offset;
    assert st.fragmentNo == a.k + 1 && st.frameNo == (s.first + a.frame) % 0x10;
  }

  lemma {:induction false} PiecesSound(s: Stream, gs: seq<Got>, room: nat)
    requires AllExist(s, gs) && Fits(s, room)
    ensures AllSound(Pieces(s, gs))
  {
    forall i | 0 <= i < |gs| ensures Sound(Pieces(s, gs)[i]) {
      SoundPiece(s, gs[i], room);
    }
  }

  /** The completed frames are those of the fragments at these positions, all last ones. */
  predicate Explained(s: Stream, gs: seq<Got>, done: seq<Completion>, at: seq<nat>)
    requires AllExist(s, gs)
  {
    && |at| == |done| && (forall i, j :: 0 <= i < j < |at| ==> at[i] < at[j])
    && forall j :: 0 <= j < |at| ==>
         at[j] < |gs| && IsLast(|s.frames[gs[at[j]].frame]|, s.maxdata, gs[at[j]].k) &&
         done[j] == Completion(s.frames[gs[at[j]].frame])
  }

  lemma {:induction false} ExplainedOn(s: Stream, gs: seq<Got>, done: seq<Completion>, at: seq<nat>,
                                       first: seq<Completion>)
    requires AllExist(s, gs) && gs != [] && AllExist(s, gs[1..]) && Explained(s, gs[1..], done, at)
    requires first == [] || (first == [Completion(s.frames[gs[0].frame])] &&
             IsLast(|s.frames[gs[0].frame]|, s.maxdata, gs[0].k))
    ensures Explained(s, gs, first + done, (if first == [] then [] else [0]) + Shifted(at))
  {
    hide IsLast, Exists;
  }

  lemma {:induction false} RunStep(st: Rx, s: Stream, gs: seq<Got>)
    requires st.Valid() && AllExist(s, gs) && gs != [] && AllExist(s, gs[1..])
    requires AllSound(Pieces(s, gs)) && AllSound(Pieces(s, gs[1..]))
    ensures Sound(Piece(s, gs[0]))
    ensures var (st1, wkc) := Next(st, Piece(s, gs[0]), st.psize);
            Run(st, Pieces(s, gs), st.psize).1 ==
            (if wkc == 1 then [Completed(st, Piece(s, gs[0]))] else []) + Run(st1, Pieces(s, gs[1..]), st.psize).1
  {
    hide Sound, Exists, Piece, Completed, Next;
    assert Pieces(s, gs)[0] == Piece(s, gs[0]) && Pieces(s, gs)[1..] == Pieces(s, gs[1..]);
  }

  lemma {:induction false} SafeFrom(st: Rx, s: Stream, prev: seq<Got>, gs: seq<Got>) returns (at: seq<nat>)
    requires st.Valid() && AllExist(s, gs) && Fits(s, st.psize) && AllSound(Pieces(s, gs)) && Subsequence(gs, 16)
    requires if prev == [] then st.fragmentNo == 0
             else (
               && |prev| == 1 && Exists(s, prev[0]) && Partial(st, s, prev[0])
               && (gs != [] ==> Later(prev[0], gs[0], 16)))
    ensures Explained(s, gs, Run(st, Pieces(s, gs), st.psize).1, at)
    decreases |gs|
  {
    hide Sound, Fits, Exists, Piece, Partial, IsLast, Completed, Later, Run, Pieces, AllSound, Explained, Read;
    if gs == [] {
      at := [];
      NothingExplained(st, s);
    } else {
      var g, rest := gs[0], gs[1..];
      PiecesSound(s, rest, st.psize);
      RunStep(st, s, gs);
      SoundPiece(s, g, st.psize);
      OneMore(st, s, prev, g);
      var (st1, wkc) := Next(st, Piece(s, g), st.psize);
      assert rest != [] ==> Later(gs[0], gs[1], 16);
      var later := SafeFrom(st1, s, [g], rest);
      if wkc == 1 {
        CompletesLast(st, s, g);
      }
      ExplainedOn(s, gs, Run(st1, Pieces(s, rest), st.psize).1, later,
                  if wkc == 1 then [Completion(s.frames[g.frame])] else []);
      at := (if wkc == 1 then [0] else []) + Shifted(later);
    }
  }

  lemma {:induction false} NothingExplained(st: Rx, s: Stream)
    requires st.Valid() && AllSound(Pieces(s, []))
    ensures Explained(s, [], Run(st, Pieces(s, []), st.psize).1, [])
  {
  }

  function Shifted(at: seq<nat>): (r: seq<nat>)
    ensures |r| == |at| && forall j :: 0 <= j < |at| ==> r[j] == at[j] + 1
  {
    seq(|at|, j requires 0 <= j < |at| => at[j] + 1)
  }

  lemma {:induction false} SoundRest(ms: seq<Mbx>)
    requires AllSound(ms) && ms != []
    ensures AllSound(ms[1..]) && Sound(ms[0])
  {
  }

  /** Whatever fragments get lost, as long as between two that get through there are fewer than 16
      frames: every frame delivered is one that was sent, whose last fragment got through, in the order
      they were sent, and none twice. */
  lemma {:induction false} NothingWrongDelivered(st: Rx, s: Stream, gs: seq<Got>) returns (at: seq<nat>)
    requires st.Valid() && st.fragmentNo == 0 && AllExist(s, gs) && Fits(s, st.psize) && Subsequence(gs, 16)
    ensures AllSound(Pieces(s, gs)) && |at| == |Run(st, Pieces(s, gs), st.psize).1|
    ensures forall j :: 0 <= j < |at| ==>
              at[j] < |gs| && Run(st, Pieces(s, gs), st.psize).1[j] == Completion(s.frames[gs[at[j]].frame])
    ensures forall i, j :: 0 <= i < j < |at| ==> gs[at[i]].frame < gs[at[j]].frame
  {
    PiecesSound(s, gs, st.psize);
    at := SafeFrom(st, s, [], gs);
    forall i, j | 0 <= i < j < |at| ensures gs[at[i]].frame < gs[at[j]].frame {
      InOrder(gs, at[i], at[j]);
      if gs[at[i]].frame == gs[at[j]].frame {
        NoneBehindLast(|s.frames[gs[at[i]].frame]|, s.maxdata, gs[at[i]].k, gs[at[j]].k);
      }
    }
  }

  lemma {:induction false} InOrder(gs: seq<Got>, i: nat, j: nat)
    requires Subsequence(gs, 16) && i < j < |gs|
    ensures gs[i].frame < gs[j].frame || (gs[i].frame == gs[j].frame && gs[i].k < gs[j].k)
  {
    assert Later(gs[j - 1], gs[j], 16);
    if i < j - 1 {
      InOrder(gs, i, j - 1);
    }
  }

  lemma {:induction false} NoneBehindLast(size: nat, maxdata: nat, k: nat, k': nat)
    requires HasFragment(size, maxdata, k') && k < k'
    ensures !IsLast(size, maxdata, k)
  {
    if k < k' - 1 {
      NoneBehindLast(size, maxdata, k, k' - 1);
    }
  }

  /** Sixteen frames apart the guard fails: the first fragment of one frame and the second of another,
      of the same number of blocks and cut in two the same way, are delivered as one frame. */
  lemma {:induction false} MixedAtSixteen(st: Rx, s: Stream, a: Got, b: Got)
    requires st.Valid() && st.fragmentNo == 0 && Exists(s, a) && Exists(s, b) && Fits(s, st.psize)
    requires a.k == 0 && b.k == 1 && b.frame == a.frame + 16
    requires var p, q := s.frames[a.frame], s.frames[b.frame];
             |p| == |q| && IsLast(|q|, s.maxdata, 1)
    ensures Subsequence([a, b], 17) && AllSound(Pieces(s, [a, b]))
    ensures var p, q, cut := s.frames[a.frame], s.frames[b.frame], Block(s.maxdata);
            cut <= |p| && Run(st, Pieces(s, [a, b]), st.psize).1 == [Completion(p[..cut] + q[cut..])]
  {
    var p, q, cut := s.frames[a.frame], s.frames[b.frame], Block(s.maxdata);
    assert Offset(s.maxdata, 1) == cut;
    FragmentInside(|q|, s.maxdata, 1);
    SoundPiece(s, a, st.psize);
    assert |p| <= st.psize;
    var mix := p[..cut] + q[cut..];
    MixedPieces(s, a, b, mix);
    PiecesSound(s, [a, b], st.psize);
    assert Later(a, b, 17);
    hide Run, Fragment, Offset, IsLast, HasFragment, Piece, Fits, Sound;
    assert Pieces(s, [a, b]) == [Piece(s, a), Piece(s, b)];
    assert |mix| == |p|;
    TwoFragments(st, mix, s.maxdata, s.port, s.first + a.frame, a.cnt, b.cnt);
  }

  lemma {:induction false} TwoFragments(st: Rx, p: seq<byte>, maxdata: nat, port: byte, frameNo: nat, c0: nat, c1: nat)
    requires Cuttable(|p|, maxdata) && HasFragment(|p|, maxdata, 0) && HasFragment(|p|, maxdata, 1) &&
             IsLast(|p|, maxdata, 1)
    requires c0 < 0x10 && c1 < 0x10 && |p| <= 2016 && st.Valid() && |p| <= st.psize
    requires AllSound([Fragment(p, maxdata, port, frameNo, c0, 0), Fragment(p, maxdata, port, frameNo, c1, 1)])
    ensures Run(st, [Fragment(p, maxdata, port, frameNo, c0, 0), Fragment(p, maxdata, port, frameNo, c1, 1)],
                st.psize).1 == [Completion(p)]
  {
    var m, n := Fragment(p, maxdata, port, frameNo, c0, 0), Fragment(p, maxdata, port, frameNo, c1, 1);
    assert !IsLast(|p|, maxdata, 0);
    hide Read, Offset, Fragment, IsLast, HasFragment, ReadUpTo;
    NextTaken(st, p, maxdata, port, frameNo, c0, 0);
    var st1 := Next(st, m, st.psize).0;
    NextTaken(st1, p, maxdata, port, frameNo, c1, 1);
    assert [m, n][1..] == [n] && [n][1..] == [];
    assert Run(st1, [n], st.psize).1 == [Completion(p)];
  }

  lemma {:induction false} SixteenLater(fragmentNo: nat, offset: nat, frameNo: nat)
    ensures Info2(fragmentNo, offset, frameNo + 16) == Info2(fragmentNo, offset, frameNo)
  {
  }

  lemma {:induction false} MixedPieces(s: Stream, a: Got, b: Got, mix: seq<byte>)
    requires Exists(s, a) && Exists(s, b) && a.k == 0 && b.k == 1 && b.frame == a.frame + 16
    requires |s.frames[a.frame]| == |s.frames[b.frame]| && IsLast(|s.frames[b.frame]|, s.maxdata, 1)
    requires Block(s.maxdata) <= |s.frames[a.frame]| &&
             mix == s.frames[a.frame][..Block(s.maxdata)] + s.frames[b.frame][Block(s.maxdata)..]
    ensures Cuttable(|mix|, s.maxdata) && HasFragment(|mix|, s.maxdata, 1)
    ensures Piece(s, a) == Fragment(mix, s.maxdata, s.port, s.first + a.frame, a.cnt, 0)
    ensures Piece(s, b) == Fragment(mix, s.maxdata, s.port, s.first + a.frame, b.cnt, 1)
  {
    hide Info1, Info2;
    SixteenLater(1, Offset(s.maxdata, 1) / 32, s.first + a.frame);
    var p, q, cut := s.frames[a.frame], s.frames[b.frame], Block(s.maxdata);
    assert Offset(s.maxdata, 1) == cut && Offset(s.maxdata, 0) == 0;
    assert p[..cut] == mix[..cut] && q[cut..] == mix[cut..];
    FragmentInside(|p|, s.maxdata, 0);
    FragmentInside(|q|, s.maxdata, 1);
  }

  /** The frames delivered are those of some of the fragments that got through, all last ones. */
  ghost predicate Delivered(st: Rx, s: Stream, gs: seq<Got>)
    requires st.Valid() && AllExist(s, gs) && Fits(s, st.psize)
  {
    PiecesSound(s, gs, st.psize);
    exists at :: Explained(s, gs, Run(st, Pieces(s, gs), st.psize).1, at)
  }

  /** Nothing else is delivered when between two fragments that get through there are fewer than n frames. */
  ghost predicate SafeGap(n: nat) {
    forall st: Rx, s: Stream, gs: seq<Got> ::
      st.Valid() && st.fragmentNo == 0 && AllExist(s, gs) && Fits(s, st.psize) && Subsequence(gs, n) ==>
        Delivered(st, s, gs)
  }

  /** Seventeen frames of 64 bytes, the last of ones. */
  function Seventeen(): Stream { Stream(seq(17, i => seq(64, _ => if i == 16 then 1 else 0)), 42, 0, 0) }

  lemma {:induction false} SeventeenCut()
    ensures var s := Seventeen();
            |s.frames| == 17 && (forall i :: 0 <= i < 17 ==> |s.frames[i]| == 64) &&
            Exists(s, Got(0, 0, 1)) && Exists(s, Got(16, 1, 2)) && IsLast(64, s.maxdata, 1) && Block(s.maxdata) == 32
  {
    assert Offset(42, 0) == 0 && Offset(42, 1) == 32;
    assert HasFragment(64, 42, 0);
  }

  lemma {:induction false} HalvesDiffer(j: nat)
    requires j < 17
    ensures var s := Seventeen(); s.frames[0][..32] + s.frames[16][32..] != s.frames[j]
  {
    var s := Seventeen();
    var mix := s.frames[0][..32] + s.frames[16][32..];
    assert mix[0] == s.frames[0][0] == 0 && mix[63] == s.frames[16][63] == 1;
  }

  /** The two halves are delivered as a frame that was never sent. */
  lemma {:induction false} SeventeenWrong(st: Rx)
    requires st.Valid() && st.fragmentNo == 0 && st.psize == 64
    ensures var s, gs := Seventeen(), [Got(0, 0, 1), Got(16, 1, 2)];
            AllExist(s, gs) && Fits(s, 64) && Subsequence(gs, 17) && !Delivered(st, s, gs)
  {
    var s, a, b := Seventeen(), Got(0, 0, 1), Got(16, 1, 2);
    var gs := [a, b];
    SeventeenCut();
    hide Seventeen, Exists, Run, Pieces, IsLast, Block;
    PiecesSound(s, gs, 64);
    MixedAtSixteen(st, s, a, b);
    var mix, done := s.frames[0][..32] + s.frames[16][32..], Run(st, Pieces(s, gs), 64).1;
    forall at: seq<nat> ensures !Explained(s, gs, done, at) {
      if Explained(s, gs, done, at) {
        assert done[0] == Completion(s.frames[gs[at[0]].frame]);
        HalvesDiffer(gs[at[0]].frame);
      }
    }
  }

  /** Sixteen frames is the bound. */
  lemma {:induction false} SafeGapIff(n: nat)
    ensures SafeGap(n) <==> n <= 16
  {
    hide Run, Explained, AllExist, Fits, Delivered;
    if n <= 16 {
      forall st: Rx, s: Stream, gs: seq<Got> | st.Valid() && st.fragmentNo == 0 && AllExist(s, gs) &&
        Fits(s, st.psize) && Subsequence(gs, n) ensures Delivered(st, s, gs) {
        CloserStill(gs, n, 16);
        GapSixteen(st, s, gs);
      }
    } else {
      var st := Rx(0, 0, 0, 0, 64, Zeros(64));
      SeventeenWrong(st);
      CloserStill([Got(0, 0, 1), Got(16, 1, 2)], 17, n);
    }
  }

  lemma {:induction false} CloserStill(gs: seq<Got>, m: nat, n: nat)
    requires Subsequence(gs, m) && m <= n
    ensures Subsequence(gs, n)
  {
    forall i | 0 < i < |gs| ensures Later(gs[i - 1], gs[i], n) {
      assert Later(gs[i - 1], gs[i], m);
    }
  }

  lemma {:induction false} GapSixteen(st: Rx, s: Stream, gs: seq<Got>)
    requires st.Valid() && st.fragmentNo == 0 && AllExist(s, gs) && Fits(s, st.psize) && Subsequence(gs, 16)
    ensures Delivered(st, s, gs)
  {
    hide Run, Explained, AllExist, Fits;
    PiecesSound(s, gs, st.psize);
    var at := SafeFrom(st, s, [], gs);
  }
}
