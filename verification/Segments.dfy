/** Cutting the process image into pieces that fit one LRW datagram: the pieces a slave adds are kept
    whole, and the table of pieces has 64 entries. */
module Segments {

  const MAXIOSEGMENTS := 64
  /** EC_MAXLRWDATA - EC_FIRSTDCDATAGRAM */
  const LIMIT := 1518 - 14 - 2 - 10 - 2 - 4 - 20

  /** The finished segments, the size of the current one, and the bytes lost at the end of the table. */
  datatype Cut = Cut(closed: seq<nat>, size: nat, dropped: nat) {
    predicate Valid() { |closed| < MAXIOSEGMENTS }

    function All(): seq<nat> { closed + [size] }
  }

  const NO_CUT := Cut([], 0, 0)

  function Add(cut: Cut, diff: nat): (r: Cut)
    requires cut.Valid()
    ensures r.Valid()
  {
    if cut.size + diff <= LIMIT then cut.(size := cut.size + diff)
    else if |cut.closed| < MAXIOSEGMENTS - 1 then Cut(cut.closed + [cut.size], diff, cut.dropped)
    else cut.(dropped := cut.dropped + diff)
  }

  ghost function AddAll(cut: Cut, diffs: seq<nat>): (r: Cut)
    requires cut.Valid()
    ensures r.Valid()
  {
    if diffs == [] then cut else Add(AddAll(cut, diffs[..|diffs| - 1]), diffs[|diffs| - 1])
  }

  ghost function Sum(s: seq<nat>): nat {
    if s == [] then 0 else Sum(s[..|s| - 1]) + s[|s| - 1]
  }

  lemma SumAppend(s: seq<nat>, x: nat)
    ensures Sum(s + [x]) == Sum(s) + x
  {
    assert (s + [x])[..|s|] == s;
  }

  lemma AddAllAppend(cut: Cut, diffs: seq<nat>, x: nat)
    requires cut.Valid()
    ensures AddAll(cut, diffs + [x]) == Add(AddAll(cut, diffs), x)
  {
    assert (diffs + [x])[..|diffs|] == diffs;
  }

  /** The table in which the segment sizes are recorded; the entry for the current segment is only
      written when the segment is closed, and at the very end. */
  ghost predicate Records(iosegment: array<nat>, cut: Cut)
    reads iosegment
  {
    iosegment.Length == MAXIOSEGMENTS && cut.Valid() && iosegment[..|cut.closed|] == cut.closed
  }

  method AddToSegment(iosegment: array<nat>, currentsegment: nat, segmentsize: nat, diff: nat, ghost cut: Cut)
    returns (current: nat, size: nat)
    requires Records(iosegment, cut) && currentsegment == |cut.closed| && segmentsize == cut.size
    modifies iosegment
    ensures Records(iosegment, Add(cut, diff))
    ensures current == |Add(cut, diff).closed| && size == Add(cut, diff).size
  {
    current, size := currentsegment, segmentsize;
    if segmentsize + diff > LIMIT {
      iosegment[currentsegment] := segmentsize;
      if currentsegment < MAXIOSEGMENTS - 1 {
        current := currentsegment + 1;
        size := diff;
      }
    } else {
      size := segmentsize + diff;
    }
  }

  // ----- conservation -----

  ghost predicate AllFit(diffs: seq<nat>) {
    forall k :: 0 <= k < |diffs| ==> diffs[k] <= LIMIT
  }

  /** How many segments cutting greedily takes when the table is unlimited, and the size of the last. */
  ghost function Needed(diffs: seq<nat>): (r: (nat, nat)) {
    if diffs == [] then (1, 0)
    else
      var (n, size) := Needed(diffs[..|diffs| - 1]);
      var diff := diffs[|diffs| - 1];
      if size + diff <= LIMIT then (n, size + diff) else (n + 1, diff)
  }

  /** Nothing is lost but what is counted as dropped. */
  lemma {:induction false} Conserved(diffs: seq<nat>)
    ensures Sum(AddAll(NO_CUT, diffs).All()) + AddAll(NO_CUT, diffs).dropped == Sum(diffs)
  {
    if diffs == [] {
      assert Sum([0]) == 0;
    } else {
      Conserved(diffs[..|diffs| - 1]);
      var cut := AddAll(NO_CUT, diffs[..|diffs| - 1]);
      var r := AddAll(NO_CUT, diffs);
      SumAppend(cut.closed, cut.size);
      SumAppend(r.closed, r.size);
    }
  }

  /** Every segment fits its datagram. */
  lemma {:induction false} SegmentsFit(diffs: seq<nat>)
    requires AllFit(diffs)
    ensures AllFit(AddAll(NO_CUT, diffs).All())
  {
    if diffs != [] {
      var before, x := diffs[..|diffs| - 1], diffs[|diffs| - 1];
      SegmentsFit(before);
      StillFit(AddAll(NO_CUT, before), x);
    }
  }

  lemma StillFit(cut: Cut, diff: nat)
    requires cut.Valid() && AllFit(cut.All()) && diff <= LIMIT
    ensures AllFit(Add(cut, diff).All())
  {
    var s, t := cut.All(), Add(cut, diff).All();
    assert s[|cut.closed|] == cut.size;
    forall k | 0 <= k < |t| ensures t[k] <= LIMIT {
      assert k < |cut.closed| ==> t[k] == s[k];
    }
  }

  /** While the table suffices the cut is the greedy one; from then on something is lost. */
  lemma {:induction false} CutIsGreedy(diffs: seq<nat>)
    requires AllFit(diffs)
    ensures var cut := AddAll(NO_CUT, diffs);
            var (n, size) := Needed(diffs);
            if n <= MAXIOSEGMENTS then |cut.All()| == n && cut.size == size <= LIMIT && cut.dropped == 0
            else cut.dropped > 0
  {
    if diffs != [] {
      CutIsGreedy(diffs[..|diffs| - 1]);
      assert AllFit(diffs[..|diffs| - 1]);
    }
  }

  /** When every contribution fits a datagram, the segments add up to the whole image if and only if the
      greedy cut needs no more than 64 of them. */
  lemma SegmentsSumIffTableSuffices(diffs: seq<nat>)
    requires AllFit(diffs)
    ensures Sum(AddAll(NO_CUT, diffs).All()) == Sum(diffs) <==> Needed(diffs).0 <= MAXIOSEGMENTS
  {
    Conserved(diffs);
    CutIsGreedy(diffs);
  }

  /** Shares that fill a datagram each take one segment each, so with 65 of them the last share is lost. */
  lemma {:induction false} FullShares(diffs: seq<nat>)
    requires diffs != [] && forall k :: 0 <= k < |diffs| ==> diffs[k] == LIMIT
    ensures Needed(diffs) == (|diffs|, LIMIT)
  {
    var before := diffs[..|diffs| - 1];
    if before == [] {
      assert Needed(before) == (1, 0);
    } else {
      FullShares(before);
    }
  }

  lemma SixtyFiveSharesAreTooMany(diffs: seq<nat>)
    requires |diffs| == MAXIOSEGMENTS + 1 && forall k :: 0 <= k < |diffs| ==> diffs[k] == LIMIT
    ensures Sum(AddAll(NO_CUT, diffs).All()) != Sum(diffs) && AddAll(NO_CUT, diffs).dropped > 0
  {
    FullShares(diffs);
    SegmentsSumIffTableSuffices(diffs);
    CutIsGreedy(diffs);
  }

  // ----- no contribution is split -----

  /** The bytes `lo` to `hi - 1` lie in one segment. */
  ghost predicate InOneSegment(segments: seq<nat>, lo: nat, hi: nat) {
    exists k :: 0 <= k < |segments| && Sum(segments[..k]) <= lo && hi <= Sum(segments[..k + 1])
  }

  lemma {:induction false} ContributionsStayWhole(diffs: seq<nat>, j: nat)
    requires j < |diffs| && AddAll(NO_CUT, diffs).dropped == 0
    ensures InOneSegment(AddAll(NO_CUT, diffs).All(), Sum(diffs[..j]), Sum(diffs[..j + 1]))
  {
    var n := |diffs| - 1;
    if j == n {
      LastContribution(diffs);
      assert diffs[..n + 1] == diffs;
    } else {
      ContributionsStayWhole(diffs[..n], j);
      assert diffs[..n][..j] == diffs[..j] && diffs[..n][..j + 1] == diffs[..j + 1];
      SegmentsOnlyGrow(AddAll(NO_CUT, diffs[..n]), diffs[n], Sum(diffs[..j]), Sum(diffs[..j + 1]));
    }
  }

  /** The newest contribution lies in the newest segment. */
  lemma LastContribution(diffs: seq<nat>)
    requires diffs != [] && AddAll(NO_CUT, diffs).dropped == 0
    ensures InOneSegment(AddAll(NO_CUT, diffs).All(), Sum(diffs[..|diffs| - 1]), Sum(diffs))
  {
    var before, x := diffs[..|diffs| - 1], diffs[|diffs| - 1];
    var q, r := AddAll(NO_CUT, before), AddAll(NO_CUT, diffs);
    assert r == Add(q, x);
    Conserved(before);
    Conserved(diffs);
    NewestSegment(q, x);
    WholeAndRest(r.closed, r.size);
    assert r.All()[..|r.closed|] == r.closed && r.All()[..|r.closed| + 1] == r.All();
  }

  /** What is closed when a contribution has been added was there before. */
  lemma NewestSegment(q: Cut, x: nat)
    requires q.Valid() && Add(q, x).dropped == 0
    ensures Sum(Add(q, x).closed) <= Sum(q.All()) && q.dropped == 0
  {
    SumAppend(q.closed, q.size);
  }

  lemma WholeAndRest(s: seq<nat>, x: nat)
    ensures (s + [x])[..|s|] == s && (s + [x])[..|s| + 1] == s + [x]
  {
  }

  /** A segment that has become longer, behind the same ones as before */
  lemma LongerSegment(s: seq<nat>, t: seq<nat>, k: nat, lo: nat, hi: nat)
    requires k < |s| && k < |t| && s[..k] == t[..k] && s[k] <= t[k]
    requires Sum(s[..k]) <= lo && hi <= Sum(s[..k + 1])
    ensures InOneSegment(t, lo, hi)
  {
    assert s[..k + 1] == s[..k] + [s[k]] && t[..k + 1] == t[..k] + [t[k]];
    SumAppend(s[..k], s[k]);
    SumAppend(t[..k], t[k]);
    assert Sum(t[..k]) <= lo && hi <= Sum(t[..k + 1]);
  }

  lemma SegmentsOnlyGrow(cut: Cut, diff: nat, lo: nat, hi: nat)
    requires cut.Valid() && InOneSegment(cut.All(), lo, hi)
    ensures InOneSegment(Add(cut, diff).All(), lo, hi)
  {
    var s, t := cut.All(), Add(cut, diff).All();
    var k: nat :| 0 <= k < |s| && Sum(s[..k]) <= lo && hi <= Sum(s[..k + 1]);
    assert s[..k] == cut.closed[..k] == t[..k];
    LongerSegment(s, t, k, lo, hi);
  }
}
