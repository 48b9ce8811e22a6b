/** ethercatconfig.c: cutting the logical address space of a group into segments, one per datagram. */
module Segments {
  import opened ProcessData

  const EC_MAXIOSEGMENTS := 64
  const LIMIT: nat := EC_MAXLRWDATA - EC_FIRSTDCDATAGRAM

  /** The segment list, the index of the segment being filled, and its size so far. */
  datatype Segmenter = Segmenter(IOsegment: seq<nat>, currentsegment: nat, segmentsize: nat)
  {
    predicate Valid() { |IOsegment| == EC_MAXIOSEGMENTS && currentsegment < EC_MAXIOSEGMENTS }

    /** The list as it is stored in the end. */
    function List(): seq<nat>
      requires Valid()
    {
      IOsegment[..currentsegment] + [segmentsize]
    }
  }

  /** The mapping moved on by diff bytes.  The last segment of the list is never left: what does not
      fit into it is not counted. */
  function Pack(st: Segmenter, diff: nat): (st': Segmenter)
    requires st.Valid()
    ensures st'.Valid()
  {
    if st.segmentsize + diff > LIMIT then
      var st := st.(IOsegment := st.IOsegment[st.currentsegment := st.segmentsize]);
      if st.currentsegment < EC_MAXIOSEGMENTS - 1
      then st.(currentsegment := st.currentsegment + 1, segmentsize := diff) else st
    else st.(segmentsize := st.segmentsize + diff)
  }

  function PackAll(st: Segmenter, diffs: seq<nat>): (st': Segmenter)
    requires st.Valid()
    ensures st'.Valid()
  {
    if diffs == [] then st else Pack(PackAll(st, diffs[..|diffs| - 1]), diffs[|diffs| - 1])
  }

  /** The step of the mapping loops that keeps the segment list. */
  method AddToSegments(st: Segmenter, diff: nat) returns (st': Segmenter)
    requires st.Valid()
    ensures st' == Pack(st, diff)
  {
    st' := st;
    if st'.segmentsize + diff > LIMIT {
      st' := st'.(IOsegment := st'.IOsegment[st'.currentsegment := st'.segmentsize]);
      if st'.currentsegment < EC_MAXIOSEGMENTS - 1 {
        st' := st'.(currentsegment := st'.currentsegment + 1);
        st' := st'.(segmentsize := diff);
      }
    } else {
      st' := st'.(segmentsize := st'.segmentsize + diff);
    }
  }

  // ----- lists of lengths -----

  lemma {:induction false} SumSnoc(s: seq<nat>, x: nat)
    ensures Sum(s + [x]) == Sum(s) + x
  {
    if s != [] {
      assert (s + [x])[1..] == s[1..] + [x];
      SumSnoc(s[1..], x);
    }
  }

  lemma {:induction false} SumLast(s: seq<nat>)
    requires s != []
    ensures Sum(s) == Sum(s[..|s| - 1]) + s[|s| - 1]
  {
    assert s == s[..|s| - 1] + [s[|s| - 1]];
    SumSnoc(s[..|s| - 1], s[|s| - 1]);
  }

  function Flatten(parts: seq<seq<nat>>): seq<nat> {
    if parts == [] then [] else Flatten(parts[..|parts| - 1]) + parts[|parts| - 1]
  }

  /** The lengths are dealt out in order, and no part is too large for a datagram. */
  predicate Fit(parts: seq<seq<nat>>, diffs: seq<nat>) {
    && parts != [] && Flatten(parts) == diffs
    && forall j :: 0 <= j < |parts| ==> Sum(parts[j]) <= LIMIT
  }

  predicate Small(lens: seq<nat>) { forall j :: 0 <= j < |lens| ==> lens[j] <= LIMIT }

  // ----- what packing gives -----

  lemma {:induction false} PackStep(st: Segmenter, diff: nat)
    requires st.Valid()
    ensures Sum(st.List()) <= Sum(Pack(st, diff).List()) <= Sum(st.List()) + diff
    ensures Sum(Pack(st, diff).List()) == Sum(st.List()) + diff <==>
            diff == 0 || st.segmentsize + diff <= LIMIT || st.currentsegment < EC_MAXIOSEGMENTS - 1
  {
    var k, closed := st.currentsegment, st.IOsegment[..st.currentsegment];
    SumSnoc(closed, st.segmentsize);
    var st' := Pack(st, diff);
    if st.segmentsize + diff > LIMIT && k < EC_MAXIOSEGMENTS - 1 {
      assert st'.IOsegment[..k + 1] == closed + [st.segmentsize];
      SumSnoc(closed + [st.segmentsize], diff);
    } else {
      assert st'.IOsegment[..k] == closed;
      SumSnoc(closed, st'.segmentsize);
    }
  }

  lemma {:induction false} PackedSum(st: Segmenter, diffs: seq<nat>)
    requires st.Valid()
    ensures Sum(st.List()) <= Sum(PackAll(st, diffs).List()) <= Sum(st.List()) + Sum(diffs)
  {
    if diffs != [] {
      var rest := diffs[..|diffs| - 1];
      PackedSum(st, rest);
      SumLast(diffs);
      PackStep(PackAll(st, rest), diffs[|rest|]);
    }
  }

  /** The empty list the mapper starts with. */
  predicate Empty(st: Segmenter) { st.Valid() && st.currentsegment == 0 && st.segmentsize == 0 }

  /** No way of dealing out the lengths is ahead of the mapper's. */
  lemma {:induction false} StaysAhead(st: Segmenter, diffs: seq<nat>, parts: seq<seq<nat>>)
    requires Empty(st) && Fit(parts, diffs) && |parts| <= EC_MAXIOSEGMENTS
    ensures var st', m := PackAll(st, diffs), |parts| - 1;
            && Sum(st'.List()) == Sum(diffs) && Small(st'.List())
            && (st'.currentsegment < m || (st'.currentsegment == m && st'.segmentsize <= Sum(parts[m])))
    decreases |parts|, |parts[|parts| - 1]|
  {
    var m := |parts| - 1;
    var p := parts[m];
    if p == [] {
      if m == 0 {
        assert Flatten(parts[..0]) == [];
        assert diffs == [];
      } else {
        assert Flatten(parts) == Flatten(parts[..m]);
        StaysAhead(st, diffs, parts[..m]);
      }
    } else {
      var n := |p| - 1;
      var d, fewer, rest := p[n], parts[m := p[..n]], diffs[..|diffs| - 1];
      assert fewer[..m] == parts[..m];
      assert Flatten(parts) == (Flatten(parts[..m]) + p[..n]) + [d];
      assert Flatten(fewer) == rest && diffs[|rest|] == d;
      SumLast(p);
      SumLast(diffs);
      StaysAhead(st, rest, fewer);
      PackStep(PackAll(st, rest), d);
      PackSmall(PackAll(st, rest), d);
    }
  }

  lemma {:induction false} PackSmall(st: Segmenter, diff: nat)
    requires st.Valid() && Small(st.List()) && diff <= LIMIT
    ensures Small(Pack(st, diff).List())
  {
    var k := st.currentsegment;
    assert forall j :: 0 <= j < k ==> st.IOsegment[j] == st.List()[j];
    assert st.segmentsize == st.List()[k];
  }

  lemma {:induction false} AddToLast(parts: seq<seq<nat>>, d: nat)
    requires parts != []
    ensures Flatten(parts[|parts| - 1 := parts[|parts| - 1] + [d]]) == Flatten(parts) + [d]
  {
    var m := |parts| - 1;
    assert parts[m := parts[m] + [d]][..m] == parts[..m];
  }

  /** The segments are the sums of the parts the lengths are dealt out to. */
  predicate DealtOut(parts: seq<seq<nat>>, diffs: seq<nat>, list: seq<nat>) {
    && |parts| == |list| >= 1 && Flatten(parts) == diffs
    && forall j :: 0 <= j < |list| ==> Sum(parts[j]) == list[j]
  }

  lemma {:induction false} DealtNext(parts: seq<seq<nat>>, diffs: seq<nat>, list: seq<nat>, d: nat)
    requires DealtOut(parts, diffs, list)
    ensures DealtOut(parts + [[d]], diffs + [d], list + [d])
    ensures var m := |list| - 1;
            DealtOut(parts[m := parts[m] + [d]], diffs + [d], list[m := list[m] + d])
  {
    assert (parts + [[d]])[..|parts|] == parts;
    AddToLast(parts, d);
    SumSnoc(parts[|parts| - 1], d);
  }

  lemma {:induction false} PackList(st: Segmenter, d: nat)
    requires st.Valid()
    ensures var list, m := st.List(), st.currentsegment;
            Pack(st, d).List() == if st.segmentsize + d <= LIMIT then list[m := list[m] + d]
                                  else if m < EC_MAXIOSEGMENTS - 1 then list + [d] else list
  {
  }

  lemma {:induction false} DealtNothing(st: Segmenter)
    requires Empty(st)
    ensures DealtOut([[]], [], st.List()) && Sum(st.List()) == 0
  {
  }

  /** The mapper's own way of dealing out the lengths, as long as it loses nothing. */
  lemma {:induction false} Dealt(st: Segmenter, diffs: seq<nat>) returns (parts: seq<seq<nat>>)
    requires Empty(st) && Sum(PackAll(st, diffs).List()) == Sum(diffs)
    ensures DealtOut(parts, diffs, PackAll(st, diffs).List())
  {
    hide Flatten, DealtOut, Pack, Sum;
    DealtNothing(st);
    if diffs == [] {
      parts := [[]];
    } else {
      var d, rest := diffs[|diffs| - 1], diffs[..|diffs| - 1];
      assert diffs == rest + [d];
      var st1 := PackAll(st, rest);
      SumLast(diffs);
      PackedSum(st, rest);
      PackStep(st1, d);
      PackList(st1, d);
      var before := Dealt(st, rest);
      DealtNext(before, rest, st1.List(), d);
      assert PackAll(st, diffs) == Pack(st1, d);
      var m := |before| - 1;
      if st1.segmentsize + d > LIMIT && st1.currentsegment < EC_MAXIOSEGMENTS - 1 {
        parts := before + [[d]];
      } else {
        assert st1.segmentsize + d > LIMIT ==> st1.List()[m := st1.List()[m] + d] == st1.List();
        parts := before[m := before[m] + [d]];
      }
    }
  }

  /** The mapper's segment list covers everything with datagrams that fit a frame exactly when there is
      any such list of at most 64 segments that keeps every step of the mapping in one piece. */
  lemma {:induction false} PackedIff(st: Segmenter, diffs: seq<nat>)
    requires Empty(st)
    ensures Sum(PackAll(st, diffs).List()) == Sum(diffs) && Small(PackAll(st, diffs).List()) <==>
            exists parts :: Fit(parts, diffs) && |parts| <= EC_MAXIOSEGMENTS
  {
    var list := PackAll(st, diffs).List();
    if parts :| Fit(parts, diffs) && |parts| <= EC_MAXIOSEGMENTS {
      StaysAhead(st, diffs, parts);
    }
    if Sum(list) == Sum(diffs) && Small(list) {
      var parts := Dealt(st, diffs);
      assert forall j :: 0 <= j < |parts| ==> Sum(parts[j]) == list[j];
      assert Fit(parts, diffs);
    }
  }

  // ----- where the segments end -----

  lemma {:induction false} PackAllJoin(st: Segmenter, a: seq<nat>, b: seq<nat>)
    requires st.Valid()
    ensures PackAll(st, a + b) == PackAll(PackAll(st, a), b)
    decreases |b|
  {
    if b == [] {
      assert a + b == a;
    } else {
      assert (a + b)[..|a + b| - 1] == a + b[..|b| - 1];
      PackAllJoin(st, a, b[..|b| - 1]);
    }
  }

  /** Segments behind stay as they are, and the current one only grows. */
  lemma {:induction false} PackedOn(st: Segmenter, diffs: seq<nat>)
    requires st.Valid()
    ensures var st', k := PackAll(st, diffs), st.currentsegment;
            && k <= st'.currentsegment && st'.List()[..k] == st.List()[..k] && st.segmentsize <= st'.List()[k]
  {
    if diffs != [] {
      PackedOn(st, diffs[..|diffs| - 1]);
      PackList(PackAll(st, diffs[..|diffs| - 1]), diffs[|diffs| - 1]);
    }
  }

  lemma {:induction false} SumJoin(a: seq<nat>, b: seq<nat>)
    ensures Sum(a + b) == Sum(a) + Sum(b)
    decreases |b|
  {
    if b == [] {
      assert a + b == a;
    } else {
      SumLast(b);
      SumJoin(a, b[..|b| - 1]);
      assert a + b == (a + b[..|b| - 1]) + [b[|b| - 1]];
      SumSnoc(a + b[..|b| - 1], b[|b| - 1]);
    }
  }

  lemma {:induction false} FlattenPrefix(parts: seq<seq<nat>>, j: nat)
    requires j <= |parts|
    ensures Flatten(parts[..j]) <= Flatten(parts)
    decreases |parts|
  {
    if j == |parts| {
      assert parts[..j] == parts;
    } else {
      var m := |parts| - 1;
      FlattenPrefix(parts[..m], j);
      assert parts[..m][..j] == parts[..j];
    }
  }

  lemma {:induction false} FlattenSum(parts: seq<seq<nat>>, sums: seq<nat>)
    requires |parts| == |sums| && forall j :: 0 <= j < |sums| ==> Sum(parts[j]) == sums[j]
    ensures Sum(Flatten(parts)) == Sum(sums)
  {
    if parts != [] {
      var m := |parts| - 1;
      FlattenSum(parts[..m], sums[..m]);
      SumLast(sums);
      SumJoin(Flatten(parts[..m]), parts[m]);
    }
  }

  /** A segment ends where some step of the mapping ends. */
  lemma {:induction false} Boundary(st: Segmenter, diffs: seq<nat>, j: nat) returns (k: nat)
    requires Empty(st) && Sum(PackAll(st, diffs).List()) == Sum(diffs) && j <= |PackAll(st, diffs).List()|
    ensures k <= |diffs| && Sum(PackAll(st, diffs).List()[..j]) == Sum(diffs[..k])
  {
    var list := PackAll(st, diffs).List();
    var parts := Dealt(st, diffs);
    FlattenPrefix(parts, j);
    FlattenSum(parts[..j], list[..j]);
    k := |Flatten(parts[..j])|;
    assert diffs[..k] == Flatten(parts[..j]);
  }

  /** Step k does not fit into the segment that is being filled, and the next segment is begun. */
  predicate Breaks(st: Segmenter, diffs: seq<nat>, k: nat)
    requires st.Valid()
  {
    && k < |diffs|
    && var before := PackAll(st, diffs[..k]);
       before.segmentsize + diffs[k] > LIMIT && before.currentsegment < EC_MAXIOSEGMENTS - 1
  }

  /** Between two segments x bytes lie behind. */
  ghost predicate EndsBehind(list: seq<nat>, x: nat) { exists j: nat :: 0 < j < |list| && Sum(list[..j]) == x }

  ghost predicate BreaksBehind(st: Segmenter, diffs: seq<nat>, x: nat)
    requires st.Valid()
  {
    exists k: nat :: Breaks(st, diffs, k) && Sum(diffs[..k]) == x
  }

  /** When nothing is lost, the segments end exactly where a step breaks. */
  lemma {:induction false} EndsIff(st: Segmenter, diffs: seq<nat>, x: nat)
    requires Empty(st) && Sum(PackAll(st, diffs).List()) == Sum(diffs)
    ensures EndsBehind(PackAll(st, diffs).List(), x) <==> BreaksBehind(st, diffs, x)
    decreases |diffs|
  {
    hide Sum, Pack;
    var list := PackAll(st, diffs).List();
    if diffs == [] {
      assert |list| == 1;
    } else {
      var n := |diffs| - 1;
      var d, rest := diffs[n], diffs[..n];
      var st1 := PackAll(st, rest);
      SumLast(diffs);
      DealtNothing(st);
      PackedSum(st, rest);
      PackStep(st1, d);
      EndsIff(st, rest, x);
      BreaksOn(st, diffs, x);
      PackList(st1, d);
      EndsOn(st1.List(), list, d, x);
    }
  }

  lemma {:induction false} BreaksOn(st: Segmenter, diffs: seq<nat>, x: nat)
    requires st.Valid() && diffs != []
    ensures var n := |diffs| - 1;
            BreaksBehind(st, diffs, x) <==>
            BreaksBehind(st, diffs[..n], x) || (Breaks(st, diffs, n) && Sum(diffs[..n]) == x)
  {
    hide Sum, PackAll;
    var n := |diffs| - 1;
    assert forall k: nat :: k < n ==> diffs[..n][..k] == diffs[..k] && diffs[..n][k] == diffs[k];
    assert forall k: nat :: k < n ==> (Breaks(st, diffs[..n], k) <==> Breaks(st, diffs, k));
    if BreaksBehind(st, diffs, x) {
      var k: nat :| Breaks(st, diffs, k) && Sum(diffs[..k]) == x;
      assert k < n ==> Breaks(st, diffs[..n], k) && Sum(diffs[..n][..k]) == x;
    }
    if BreaksBehind(st, diffs[..n], x) {
      var k: nat :| Breaks(st, diffs[..n], k) && Sum(diffs[..n][..k]) == x;
      assert Breaks(st, diffs, k) && Sum(diffs[..k]) == x;
    }
  }

  lemma {:induction false} EndsOn(list: seq<nat>, list': seq<nat>, d: nat, x: nat)
    requires list != []
    requires list' == list || list' == list + [d] || list' == list[|list| - 1 := list[|list| - 1] + d]
    ensures EndsBehind(list', x) <==> EndsBehind(list, x) || (|list'| > |list| && Sum(list) == x)
  {
    hide Sum;
    assert forall j: nat :: j < |list| ==> list'[..j] == list[..j];
    if |list'| > |list| {
      assert list'[..|list|] == list;
    }
    if EndsBehind(list', x) {
      var j: nat :| 0 < j < |list'| && Sum(list'[..j]) == x;
      assert j < |list| ==> Sum(list[..j]) == x;
    }
    if EndsBehind(list, x) {
      var j: nat :| 0 < j < |list| && Sum(list[..j]) == x;
      assert Sum(list'[..j]) == x;
    }
  }
}
