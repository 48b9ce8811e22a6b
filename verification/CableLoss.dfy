/** What a try to send a frame around the ring gives when frames get lost on the way. */
module CableLoss {
  import opened Bytes
  import opened Datagram
  import opened FrameIndex
  import opened Ring
  import opened Redundancy

  datatype Answer = NoFrame | Of(frame: seq<byte>)

  /** The frame that a try ends with, in terms of the ring. */
  function Answered(nodes: seq<Node>, cable: Cable, f: seq<byte>, d: seq<byte>, loss: Loss): Answer
    requires cable.CutAfter? ==> cable.k <= |nodes|
  {
    var n := |nodes|;
    match cable
    case Whole => if loss.dummy then NoFrame else if loss.first then Of(d) else Of(Process(nodes, 0, n, f))
    case CutAfter(k) =>
      var back := k > 0 && !loss.first; // the frame comes back to the primary interface
      var joined := k < n && !loss.dummy && !loss.again; // and what is sent again, to the secondary
      if joined then Of(Process(nodes, k, n, if back then Process(nodes, 0, k, f) else f))
      else if back then Of(Process(nodes, 0, k, f))
      else NoFrame
  }

  /** What comes out at each side. */
  lemma {:induction false} ComesAre(nodes: seq<Node>, cable: Cable, f: seq<byte>, d: seq<byte>, loss: Loss)
    requires cable.CutAfter? ==> cable.k <= |nodes|
    ensures Comes(nodes, cable, Primary, f, d, loss) ==
            match cable
            case Whole => if loss.dummy then Nothing else Frame(Packet(RX_SEC, true, d))
            case CutAfter(k) =>
              if k > 0 && !loss.first then Frame(Packet(RX_PRIM, true, Process(nodes, 0, k, f))) else Nothing
    ensures Comes(nodes, cable, Secondary, f, d, loss) ==
            match cable
            case Whole =>
              if loss.first then Nothing else Frame(Packet(RX_PRIM, true, Process(nodes, 0, |nodes|, f)))
            case CutAfter(k) =>
              if k < |nodes| && !loss.dummy then Frame(Packet(RX_SEC, true, Process(nodes, k, |nodes|, d)))
              else Nothing
  {
    FromPrimary(nodes, cable, f);
    FromSecondary(nodes, cable, d);
  }

  // ----- when all slaves have processed the frame -----

  /** Whichever way the frame goes, nothing it needs is lost. */
  predicate Complete(n: nat, cable: Cable, loss: Loss) {
    match cable
    case Whole => !loss.first && !loss.dummy
    case CutAfter(k) => n > 0 && (k > 0 ==> !loss.first) && (k < n ==> !loss.dummy && !loss.again)
  }

  predicate Correct(nodes: seq<Node>, cable: Cable, f: seq<byte>, d: seq<byte>, loss: Loss)
    requires cable.CutAfter? ==> cable.k <= |nodes|
  {
    Answered(nodes, cable, f, d, loss) == Of(Process(nodes, 0, |nodes|, f))
  }

  lemma {:induction false} CompleteIsCorrect(nodes: seq<Node>, cable: Cable, f: seq<byte>, d: seq<byte>, loss: Loss)
    requires cable.CutAfter? ==> cable.k <= |nodes|
    requires Complete(|nodes|, cable, loss)
    ensures Correct(nodes, cable, f, d, loss)
  {
    if cable.CutAfter? {
      ProcessOn(nodes, 0, cable.k, |nodes|, f);
    }
  }

  function Mark(at: nat): Node { p => if at < |p| then p[at := 1] else p }

  /** The first slaves, up to the cut, set byte 4 of a frame, the others byte 5. */
  function Marking(n: nat, k: nat): (r: seq<Node>)
    ensures |r| == n && forall j :: 0 <= j < n ==> r[j] == if j < k then Mark(4) else Mark(5)
  {
    if n == 0 then [] else Marking(n - 1, k) + [if n - 1 < k then Mark(4) else Mark(5)]
  }

  lemma {:induction false} MarksLeft(n: nat, k: nat, from: nat, to: nat, p: seq<byte>)
    requires from <= to <= n && k <= n && |p| >= 6
    ensures var q := Process(Marking(n, k), from, to, p);
            && |q| == |p| && q[..4] == p[..4]
            && q[4] == (if from < to && from < k then 1 else p[4])
            && q[5] == (if from < to && k < to then 1 else p[5])
  {
    if from < to {
      MarksLeft(n, k, from, to - 1, p);
      var q := Process(Marking(n, k), from, to - 1, p);
      var node := Marking(n, k)[to - 1];
      assert node == if to - 1 < k then Mark(4) else Mark(5);
      assert Process(Marking(n, k), from, to, p) == node(q) == q[if to - 1 < k then 4 else 5 := 1];
    }
  }

  lemma {:induction false} MarkingHonest(n: nat, k: nat)
    ensures forall j :: 0 <= j < n ==> Honest(Marking(n, k)[j])
  {
    forall j | 0 <= j < n ensures Honest(Marking(n, k)[j]) {
      var node := Marking(n, k)[j];
      assert node == if j < k then Mark(4) else Mark(5);
      forall p | Framed(p) ensures |node(p)| == |p| && node(p)[..4] == p[..4] {
      }
    }
  }

  ghost predicate AllHonest(nodes: seq<Node>) { forall j :: 0 <= j < |nodes| ==> Honest(nodes[j]) }

  /** A try is sure to end with the frame as all slaves, in order, processed it once. */
  ghost predicate Sure(n: nat, cable: Cable, loss: Loss)
    requires cable.CutAfter? ==> cable.k <= n
  {
    forall nodes: seq<Node>, f, d :: |nodes| == n && AllHonest(nodes) && Framed(f) && Framed(d) ==>
      Correct(nodes, cable, f, d, loss)
  }

  lemma {:induction false} SomethingMissing(n: nat, cable: Cable, loss: Loss)
    requires (cable.CutAfter? ==> cable.k <= n) && !Complete(n, cable, loss)
    ensures !Sure(n, cable, loss)
  {
    hide Process;
    var k := if cable.CutAfter? then cable.k else 0;
    var nodes, f, d := Marking(n, k), Zeros(6), Zeros(7);
    MarkingHonest(n, k);
    MarksLeft(n, k, 0, n, f);
    MarksLeft(n, k, 0, k, f);
    MarksLeft(n, k, k, n, f);
    assert !Correct(nodes, cable, f, d, loss);
  }

  /** It is exactly when nothing it needs is lost, whatever the slaves and the frames are. */
  lemma {:induction false} SureIff(n: nat, cable: Cable, loss: Loss)
    requires cable.CutAfter? ==> cable.k <= n
    ensures Sure(n, cable, loss) <==> Complete(n, cable, loss)
  {
    if Complete(n, cable, loss) {
      forall nodes: seq<Node>, f, d | |nodes| == n && AllHonest(nodes) && Framed(f) && Framed(d)
        ensures Correct(nodes, cable, f, d, loss) {
        CompleteIsCorrect(nodes, cable, f, d, loss);
      }
    } else {
      SomethingMissing(n, cable, loss);
    }
  }

  // ----- trying again -----

  /** The first answer. */
  function Tries(nodes: seq<Node>, cable: Cable, f: seq<byte>, d: seq<byte>, losses: seq<Loss>): Answer
    requires cable.CutAfter? ==> cable.k <= |nodes|
  {
    if losses == [] then NoFrame
    else
      var r := Answered(nodes, cable, f, d, losses[0]);
      if r.Of? then r else Tries(nodes, cable, f, d, losses[1..])
  }

  lemma {:induction false} TriesNone(nodes: seq<Node>, cable: Cable, f: seq<byte>, d: seq<byte>)
    requires cable.CutAfter? ==> cable.k <= |nodes|
    ensures Tries(nodes, cable, f, d, []) == NoFrame
  {
  }

  lemma {:induction false} TriesJoin(nodes: seq<Node>, cable: Cable, f: seq<byte>, d: seq<byte>, losses: seq<Loss>,
                                     more: seq<Loss>)
    requires cable.CutAfter? ==> cable.k <= |nodes|
    ensures var r := Tries(nodes, cable, f, d, losses);
            Tries(nodes, cable, f, d, losses + more) == if r.Of? then r else Tries(nodes, cable, f, d, more)
    decreases |losses|
  {
    if losses == [] {
      assert losses + more == more;
    } else {
      assert (losses + more)[1..] == losses[1..] + more;
      TriesJoin(nodes, cable, f, d, losses[1..], more);
    }
  }

  /** One more try, when none has given an answer. */
  lemma {:induction false} TriesOn(nodes: seq<Node>, cable: Cable, f: seq<byte>, d: seq<byte>, losses: seq<Loss>,
                                   i: nat)
    requires (cable.CutAfter? ==> cable.k <= |nodes|) && i < |losses|
    ensures Tries(nodes, cable, f, d, losses[..i]).NoFrame? ==>
              Tries(nodes, cable, f, d, losses[..i + 1]) == Answered(nodes, cable, f, d, losses[i])
  {
    assert losses[..i + 1] == losses[..i] + [losses[i]];
    TriesJoin(nodes, cable, f, d, losses[..i], [losses[i]]);
    assert [losses[i]][1..] == [];
    TriesNone(nodes, cable, f, d);
  }

  /** An answer ends the tries. */
  lemma {:induction false} TriesEnd(nodes: seq<Node>, cable: Cable, f: seq<byte>, d: seq<byte>, losses: seq<Loss>,
                                    i: nat)
    requires (cable.CutAfter? ==> cable.k <= |nodes|) && i <= |losses|
    requires i == |losses| || Tries(nodes, cable, f, d, losses[..i]).Of?
    ensures Tries(nodes, cable, f, d, losses) == Tries(nodes, cable, f, d, losses[..i])
  {
    assert losses == losses[..i] + losses[i..];
    TriesJoin(nodes, cable, f, d, losses[..i], losses[i..]);
    if i == |losses| {
      assert losses[..i] == losses;
    }
  }

  /** Nothing comes back that the code takes for an answer. */
  predicate Quiet(n: nat, cable: Cable, loss: Loss) {
    match cable
    case Whole => loss.dummy
    case CutAfter(k) => (k > 0 ==> loss.first) && (k < n ==> loss.dummy || loss.again)
  }

  /** Try i is the first that gives an answer. */
  predicate Heard(n: nat, cable: Cable, losses: seq<Loss>, i: nat) {
    i < |losses| && !Quiet(n, cable, losses[i]) && forall j :: 0 <= j < i ==> Quiet(n, cable, losses[j])
  }

  lemma {:induction false} TriesHeard(nodes: seq<Node>, cable: Cable, f: seq<byte>, d: seq<byte>, losses: seq<Loss>,
                                      i: nat)
    requires (cable.CutAfter? ==> cable.k <= |nodes|) && Heard(|nodes|, cable, losses, i)
    ensures Tries(nodes, cable, f, d, losses) == Answered(nodes, cable, f, d, losses[i])
    decreases i
  {
    if i > 0 {
      assert Quiet(|nodes|, cable, losses[0]);
      TriesHeard(nodes, cable, f, d, losses[1..], i - 1);
    }
  }

  lemma {:induction false} NothingHeard(nodes: seq<Node>, cable: Cable, f: seq<byte>, d: seq<byte>, losses: seq<Loss>)
    requires (cable.CutAfter? ==> cable.k <= |nodes|) && forall l :: l in losses ==> Quiet(|nodes|, cable, l)
    ensures Tries(nodes, cable, f, d, losses).NoFrame?
    decreases |losses|
  {
    if losses != [] {
      assert Quiet(|nodes|, cable, losses[0]);
      NothingHeard(nodes, cable, f, d, losses[1..]);
    }
  }

  predicate TriesCorrect(nodes: seq<Node>, cable: Cable, f: seq<byte>, d: seq<byte>, losses: seq<Loss>)
    requires cable.CutAfter? ==> cable.k <= |nodes|
  {
    Tries(nodes, cable, f, d, losses) == Of(Process(nodes, 0, |nodes|, f))
  }

  ghost predicate TriesSure(n: nat, cable: Cable, losses: seq<Loss>)
    requires cable.CutAfter? ==> cable.k <= n
  {
    forall nodes: seq<Node>, f, d :: |nodes| == n && AllHonest(nodes) && Framed(f) && Framed(d) ==>
      TriesCorrect(nodes, cable, f, d, losses)
  }

  lemma {:induction false} FirstHeard(n: nat, cable: Cable, losses: seq<Loss>) returns (i: nat)
    requires exists l :: l in losses && !Quiet(n, cable, l)
    ensures Heard(n, cable, losses, i)
  {
    i := 0;
    while Quiet(n, cable, losses[i])
      invariant i < |losses| && forall j :: 0 <= j < i ==> Quiet(n, cable, losses[j])
      decreases |losses| - i
    {
      assert i < |losses| - 1;
      i := i + 1;
    }
  }

  lemma {:induction false} OneHeard(n: nat, cable: Cable, losses: seq<Loss>, i: nat, i': nat)
    requires Heard(n, cable, losses, i) && Heard(n, cable, losses, i')
    ensures i == i'
  {
  }

  /** Trying again helps exactly when the first try that gives an answer loses nothing it needs: a wrong answer is
      not noticed. */
  lemma {:induction false} TriesSureIff(n: nat, cable: Cable, losses: seq<Loss>)
    requires cable.CutAfter? ==> cable.k <= n
    ensures TriesSure(n, cable, losses) <==>
            exists i: nat :: Heard(n, cable, losses, i) && Complete(n, cable, losses[i])
  {
    hide Complete, Answered, Tries;
    if exists l :: l in losses && !Quiet(n, cable, l) {
      var i := FirstHeard(n, cable, losses);
      SureIff(n, cable, losses[i]);
      forall nodes: seq<Node>, f, d | |nodes| == n
        ensures TriesCorrect(nodes, cable, f, d, losses) <==> Correct(nodes, cable, f, d, losses[i]) {
        TriesHeard(nodes, cable, f, d, losses, i);
      }
      forall i': nat | Heard(n, cable, losses, i') ensures i' == i {
        OneHeard(n, cable, losses, i, i');
      }
    } else {
      var nodes, f, d := Marking(n, 0), Zeros(6), Zeros(7);
      MarkingHonest(n, 0);
      NothingHeard(nodes, cable, f, d, losses);
      assert !TriesCorrect(nodes, cable, f, d, losses);
    }
  }

  /** A whole ring of one slave loses the frame: the dummy, with a counter of 0, passes for the answer, and nothing
      is sent again. */
  lemma {:induction false} DummyTaken(losses: seq<Loss>)
    requires losses != [] && losses[0] == Loss(true, false, false)
    ensures var dummy := Zeros(16)[0 := 14];
            && Framed(dummy) && ReadWkc(dummy) == 0
            && Tries([Mark(4)], Whole, Zeros(6), dummy, losses) == Of(dummy) != Of(Process([Mark(4)], 0, 1, Zeros(6)))
  {
    var dummy := Zeros(16)[0 := 14];
    assert WordAt(dummy, 0) == 14 && |dummy| == 16;
    hide Framed, WordAt;
    assert Answered([Mark(4)], Whole, Zeros(6), dummy, losses[0]) == Of(dummy);
    assert Process([Mark(4)], 0, 1, Zeros(6)) == Mark(4)(Zeros(6));
    assert |Mark(4)(Zeros(6))| == 6;
  }
}
