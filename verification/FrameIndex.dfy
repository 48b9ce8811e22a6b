/** Frame indices and receive buffers of nicdrv.c. */
module FrameIndex {
  const EC_MAXBUF: nat := 16

  datatype BufState = Empty | Alloc | Tx | Rcvd | Complete

  function After(idx: nat): nat {
    if idx + 1 >= EC_MAXBUF then 0 else idx + 1
  }

  /** The first index from `start` on (cyclically) whose buffer is empty; `start`
      itself when none is. */
  function NextFree(stat: seq<BufState>, start: nat, tries: nat): (idx: nat)
    requires |stat| == EC_MAXBUF && start < EC_MAXBUF && tries <= EC_MAXBUF
    ensures idx < EC_MAXBUF
    decreases tries
  {
    if tries == 0 || stat[start].Empty? then start
    else NextFree(stat, After(start), tries - 1)
  }

  /** A free index is found whenever there is one. */
  lemma {:induction false} FreeIndexFound(stat: seq<BufState>, start: nat, tries: nat, free: nat)
    requires |stat| == EC_MAXBUF && start < EC_MAXBUF && tries <= EC_MAXBUF
    requires free < EC_MAXBUF && stat[free].Empty?
    requires (if free >= start then free - start else free + EC_MAXBUF - start) <= tries
    ensures stat[NextFree(stat, start, tries)].Empty?
    decreases tries
  {
    if !stat[start].Empty? {
      assert free != start;
      FreeIndexFound(stat, After(start), tries - 1, free);
    }
  }

  lemma {:induction false} FreeIndexAlwaysFound(stat: seq<BufState>, start: nat)
    requires |stat| == EC_MAXBUF && start < EC_MAXBUF
    ensures (exists i :: 0 <= i < EC_MAXBUF && stat[i].Empty?) <==> stat[NextFree(stat, start, EC_MAXBUF)].Empty?
  {
    if exists i :: 0 <= i < EC_MAXBUF && stat[i].Empty? {
      var free :| 0 <= free < EC_MAXBUF && stat[free].Empty?;
      FreeIndexFound(stat, start, EC_MAXBUF, free);
    }
  }

  /** The k-th of the 16 indices behind index `last`. */
  function Behind(last: nat, k: nat): (idx: nat)
    ensures idx < 16
  {
    (last + 1 + k) % 16
  }

  /** Index idx is the n-th behind `last`, those before it are in use, and it is free itself unless it is the
      very next one. */
  predicate FirstBehind(stat: seq<BufState>, last: nat, n: nat, idx: nat)
    requires |stat| == EC_MAXBUF
  {
    && n < 16 && idx == Behind(last, n)
    && (forall k: nat :: k < n ==> !stat[Behind(last, k)].Empty?)
    && (n > 0 ==> stat[idx].Empty?)
  }

  lemma {:induction false} SearchFrom(stat: seq<BufState>, last: nat, n: nat, start: nat, idx: nat)
    requires |stat| == EC_MAXBUF && last < EC_MAXBUF && n <= 16 && start == Behind(last, n)
    requires idx == NextFree(stat, start, 16 - n)
    requires forall k: nat :: k < n ==> !stat[Behind(last, k)].Empty?
    ensures exists m: nat :: FirstBehind(stat, last, m, idx)
    decreases 16 - n
  {
    if n == 16 {
      assert FirstBehind(stat, last, 0, idx);
    } else if stat[start].Empty? {
      assert FirstBehind(stat, last, n, idx);
    } else {
      SearchFrom(stat, last, n + 1, After(start), idx);
    }
  }

  lemma {:induction false} SearchFirst(stat: seq<BufState>, last: nat, idx: nat)
    requires |stat| == EC_MAXBUF && last < EC_MAXBUF && idx == NextFree(stat, After(last), EC_MAXBUF)
    ensures exists n: nat :: FirstBehind(stat, last, n, idx)
  {
    hide NextFree;
    SearchFrom(stat, last, 0, After(last), idx);
  }

  class Port {
    const rxbufstat: array<BufState>
    var lastidx: nat

    constructor ()
      ensures Valid() && fresh(rxbufstat)
      ensures forall i :: 0 <= i < EC_MAXBUF ==> Stat()[i].Empty?
    {
      rxbufstat := new BufState[EC_MAXBUF](_ => Empty);
      lastidx := 0;
    }

    ghost predicate Valid()
      reads this
    {
      rxbufstat.Length == EC_MAXBUF && lastidx < EC_MAXBUF
    }

    /** The buffer states as a value. */
    ghost function Stat(): (stat: seq<BufState>)
      reads rxbufstat
      ensures |stat| == rxbufstat.Length
    {
      rxbufstat[..]
    }

    method GetIndex() returns (idx: nat)
      requires Valid()
      modifies this`lastidx, rxbufstat
      ensures Valid() && idx < EC_MAXBUF && lastidx == idx
      ensures Stat() == old(Stat())[idx := Alloc]
      ensures (exists i :: 0 <= i < EC_MAXBUF && old(Stat())[i].Empty?) <==> old(Stat())[idx].Empty?
      ensures idx == NextFree(old(Stat()), After(old(lastidx)), EC_MAXBUF)
      ensures exists n: nat :: FirstBehind(old(Stat()), old(lastidx), n, idx)
    {
      hide Behind, FirstBehind;
      idx := lastidx + 1;
      // past the last buffer comes the first
      if idx >= EC_MAXBUF {
        idx := 0;
      }
      var cnt := 0;
      ghost var start, stat := idx, rxbufstat[..];
      assert start == After(lastidx);
      ghost var found := NextFree(stat, start, EC_MAXBUF);
      SearchFirst(stat, lastidx, found);
      while !rxbufstat[idx].Empty? && cnt < EC_MAXBUF
        invariant 0 <= cnt <= EC_MAXBUF && 0 <= idx < EC_MAXBUF && rxbufstat[..] == stat
        invariant NextFree(stat, idx, EC_MAXBUF - cnt) == found
      {
        assert NextFree(stat, idx, EC_MAXBUF - cnt) == NextFree(stat, After(idx), EC_MAXBUF - cnt - 1);
        idx := idx + 1;
        cnt := cnt + 1;
        if idx >= EC_MAXBUF {
          idx := 0;
        }
      }
      assert idx == found;
      FreeIndexAlwaysFound(stat, start);
      rxbufstat[idx] := Alloc;
      lastidx := idx;
    }

    method SetBufStat(idx: nat, bufstat: BufState)
      requires Valid() && idx < EC_MAXBUF
      modifies rxbufstat
      ensures Stat() == old(Stat())[idx := bufstat]
    {
      rxbufstat[idx] := bufstat;
    }
  }
}
