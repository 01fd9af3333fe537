/** Which bytes of the slave's memory the units of one side map.  The process data of a side is the
    memory of its sync managers, one after the other; it is mapped rightly when byte `i` of the image is
    byte `i` of that memory. */
module SyncMemory {
  import opened Fmmu

  ghost function Addresses(start: nat, n: nat): (a: seq<nat>)
    ensures |a| == n
  {
    seq(n, (i: nat) => start + i)
  }

  /** The memory of the sync managers of type `t` before number `k`, in order. */
  ghost function Before(sm: seq<SyncManager>, t: nat, k: nat): (a: seq<nat>)
    requires k <= |sm|
  {
    if k == 0 then []
    else if sm[k - 1].smtype == t then Before(sm, t, k - 1) + Addresses(sm[k - 1].start, sm[k - 1].length)
    else Before(sm, t, k - 1)
  }

  ghost function Data(sm: seq<SyncManager>, t: nat): seq<nat> { Before(sm, t, |sm|) }

  /** The memory units `lo` to `hi - 1` map, in the order of the logical image. */
  ghost function Mapped(f: seq<Unit>, lo: nat, hi: nat): (a: seq<nat>)
    requires hi <= |f|
    decreases hi
  {
    if lo >= hi then [] else Mapped(f, lo, hi - 1) + Addresses(f[hi - 1].physStart, f[hi - 1].logLength)
  }

  /** Every byte of the image of side `d` is mapped to its own byte of process data. */
  ghost predicate RightlyMapped(s: Slave, d: Dir, lo: nat)
    requires s.unused <= |s.fmmu|
  {
    |Data(s.sm, d.SmType())| >= s.Side(d).bytes && Mapped(s.fmmu, lo, s.unused) == Data(s.sm, d.SmType())[..s.Side(d).bytes]
  }

  ghost predicate Connected(w: seq<nat>) { forall i :: 0 < i < |w| ==> w[i] == w[i - 1] + 1 }

  /** The first `n` bytes lie in one connected stretch, or in two of which the second is higher up and
      apart from the first. */
  ghost predicate TwoStretches(w: seq<nat>, n: nat) {
    n <= |w| && exists k :: 0 < k <= n && Stretches(w[..n], k)
  }

  ghost predicate Stretches(w: seq<nat>, k: nat)
    requires 0 < k <= |w|
  {
    Connected(w[..k]) && Connected(w[k..]) && (k < |w| ==> w[k] > w[k - 1] + 1)
  }

  /** The sync managers that hold the first `bits` bits lie within the 16-bit address space of the slave, all of them
      together as well, and none in front of the last of these bits is empty. */
  ghost predicate InAddressSpace(sm: seq<SyncManager>, t: nat, bits: nat) {
    forall k :: 0 <= k < |sm| && sm[k].smtype == t && 8 * |Before(sm, t, k)| < bits ==>
      0 < sm[k].length && sm[k].start + sm[k].length < 65536 && |Before(sm, t, k + 1)| < 65536
  }

  // ----- sync managers and their bytes -----

  lemma {:induction false} BeforeIsPrefix(sm: seq<SyncManager>, t: nat, k: nat, m: nat)
    requires k <= m <= |sm|
    ensures Before(sm, t, k) <= Before(sm, t, m)
    decreases m
  {
    if k < m { BeforeIsPrefix(sm, t, k, m - 1); }
  }

  /** Sync managers of other types hold no data. */
  lemma {:induction false} OthersHoldNothing(sm: seq<SyncManager>, t: nat, k: nat, m: nat)
    requires k <= m <= |sm| && forall j :: k <= j < m ==> sm[j].smtype != t
    ensures Before(sm, t, k) == Before(sm, t, m)
    decreases m
  {
    if k < m { OthersHoldNothing(sm, t, k, m - 1); }
  }

  /** While data is left behind sync manager `k`, the search finds the one that holds it. */
  lemma SkipFindsData(sm: seq<SyncManager>, t: nat, k: nat, n: nat)
    requires |sm| == MAXSM && k < MAXSM && |Before(sm, t, k)| < |Data(sm, t)| && n == Skip(sm, t, k)
    ensures sm[n].smtype == t && Before(sm, t, n) == Before(sm, t, k)
  {
    OthersHoldNothing(sm, t, k, n);
    assert Data(sm, t) == Before(sm, t, MAXSM);
  }

  /** The bytes of sync manager `k` within the process data. */
  lemma BytesOfManager(sm: seq<SyncManager>, t: nat, k: nat, off: nat, end: nat)
    requires k < |sm| && sm[k].smtype == t && off == |Before(sm, t, k)| && end == |Before(sm, t, k + 1)|
    ensures end == off + sm[k].length <= |Data(sm, t)|
    ensures forall i :: off <= i < end ==> Data(sm, t)[i] == sm[k].start + (i - off)
  {
    BeforeIsPrefix(sm, t, k + 1, |sm|);
  }

  // ----- one run -----

  /** Nowhere within bytes `off` to `end - 1` does the memory go up by more than one. */
  ghost predicate NoGap(w: seq<nat>, off: nat, end: nat) {
    off < end <= |w| && forall i :: off < i < end ==> w[i] <= w[i - 1] + 1
  }

  /** A run holds bytes `off` to `end - 1` of the data, and when data is wanted behind it, the next run
      starts at a higher address. */
  ghost predicate RunHolds(sm: seq<SyncManager>, t: nat, bits: nat, r: Run, off: nat, end: nat)
    requires |sm| == MAXSM && r.smc < MAXSM
  {
    var w := Data(sm, t);
    && NoGap(w, off, end) && end == off + r.length && end < 65536 && r.bitCount == 8 * end
    && (r.bitCount < bits ==>
          && end < |w| && w[end] > w[end - 1] + 1
          && sm[r.smc].smtype == t && |Before(sm, t, r.smc)| == end)
  }

  /** Bytes `off` to `end - 1` have been joined, the last of them those of sync manager `r.smc`. */
  ghost predicate JoinedUpTo(sm: seq<SyncManager>, t: nat, r: Run, off: nat, end: nat)
    requires |sm| == MAXSM && r.smc < MAXSM
  {
    && NoGap(Data(sm, t), off, end) && end == off + r.length && r.bitCount == 8 * end
    && sm[r.smc].smtype == t && |Before(sm, t, r.smc + 1)| == end < 65536
    && sm[r.smc].length > 0 && sm[r.smc].start + sm[r.smc].length < 65536
  }

  lemma FirstJoined(sm: seq<SyncManager>, t: nat, bits: nat, smc: nat, off: nat, n: nat, r: Run)
    requires |sm| == MAXSM && smc < MAXSM && InAddressSpace(sm, t, bits)
    requires |Before(sm, t, smc)| == off < |Data(sm, t)| && 8 * off < bits && n == Skip(sm, t, smc)
    requires r == Run(sm[n].start, sm[n].length, n, 8 * off + 8 * sm[n].length)
    ensures JoinedUpTo(sm, t, r, off, off + sm[n].length) && Data(sm, t)[off] == sm[n].start
  {
    SkipFindsData(sm, t, smc, n);
    BytesOfManager(sm, t, n, off, |Before(sm, t, n + 1)|);
  }

  /** The next sync manager is either apart from the last one joined, or it is joined too. */
  lemma NextJoined(sm: seq<SyncManager>, t: nat, bits: nat, r: Run, off: nat, end: nat, n: nat, longer: Run)
    requires |sm| == MAXSM && r.smc < MAXSM - 1 && InAddressSpace(sm, t, bits) && JoinedUpTo(sm, t, r, off, end)
    requires end < |Data(sm, t)| && 8 * end < bits && n == Skip(sm, t, r.smc + 1)
    requires longer == r.Longer(sm[n], n)
    ensures sm[n].smtype == t && |Before(sm, t, n)| == end
    ensures sm[n].start > sm[r.smc].End() ==> Data(sm, t)[end] > Data(sm, t)[end - 1] + 1
    ensures sm[n].start <= sm[r.smc].End() ==> JoinedUpTo(sm, t, longer, off, end + sm[n].length)
  {
    SkipFindsData(sm, t, r.smc + 1, n);
    BytesOfManager(sm, t, r.smc, |Before(sm, t, r.smc)|, end);
    BytesOfManager(sm, t, n, end, |Before(sm, t, n + 1)|);
  }

  lemma {:induction false} ExtendHolds(sm: seq<SyncManager>, t: nat, bits: nat, r: Run, off: nat, end: nat, last: nat, e: Run, stop: nat)
    requires |sm| == MAXSM && r.smc < MAXSM && InAddressSpace(sm, t, bits) && bits <= 8 * |Data(sm, t)|
    requires JoinedUpTo(sm, t, r, off, end) && last == sm[r.smc].End() && e == Extend(sm, t, r, last, bits) && stop == off + e.length
    ensures RunHolds(sm, t, bits, e, off, stop)
    decreases MAXSM - r.smc
  {
    if r.bitCount < bits {
      if r.smc == MAXSM - 1 { assert false; }
      var n := Skip(sm, t, r.smc + 1);
      var longer := r.Longer(sm[n], n);
      NextJoined(sm, t, bits, r, off, end, n, longer);
      if sm[n].start <= last {
        ExtendHolds(sm, t, bits, longer, off, end + sm[n].length, sm[n].End(), e, stop);
      }
    }
  }

  /** The search from a place where data is left finds a run of it. */
  lemma RunHoldsData(sm: seq<SyncManager>, t: nat, bits: nat, smc: nat, off: nat, e: Run, end: nat)
    requires |sm| == MAXSM && smc < MAXSM && InAddressSpace(sm, t, bits) && bits <= 8 * |Data(sm, t)|
    requires |Before(sm, t, smc)| == off < |Data(sm, t)| && 8 * off < bits && e == RunFrom(sm, t, smc, 8 * off, bits) && end == off + e.length
    ensures RunHolds(sm, t, bits, e, off, end) && Data(sm, t)[off] == e.start
  {
    var n := Skip(sm, t, smc);
    var r := Run(sm[n].start, sm[n].length, n, 8 * off + 8 * sm[n].length);
    FirstJoined(sm, t, bits, smc, off, n, r);
    assert e == Extend(sm, t, r, sm[n].End(), bits);
    ExtendHolds(sm, t, bits, r, off, off + sm[n].length, sm[n].End(), e, end);
  }

  // ----- the first two runs -----

  lemma {:induction false} FewerFollow(f: seq<Unit>, lo: nat, runs: seq<Run>, bytes: nat, k: nat)
    requires lo + |runs| <= |f| && k <= |runs| && Follows(f, lo, runs, bytes)
    ensures Follows(f, lo, runs[..k], bytes)
  {
    if k == |runs| {
      assert runs[..k] == runs;
    } else {
      FewerFollow(f, lo, runs[..|runs| - 1], bytes, k);
      assert runs[..|runs| - 1][..k] == runs[..k];
    }
  }

  lemma OneRun(runs: seq<Run>, bytes: nat)
    requires |runs| == 1 && runs[0].length < 65536
    ensures ByteCount(runs) == runs[0].length
    ensures Done(runs, bytes) == LastSize(runs, bytes) == if runs[0].length > bytes then bytes else runs[0].length
  {
    assert runs[..0] == [];
  }

  /** The byte counter is not reset: the second unit is given the bytes of the first run once more. */
  lemma TwoRuns(runs: seq<Run>, bytes: nat, first: nat, both: nat)
    requires |runs| == 2 && first == runs[0].length <= bytes && both == first + runs[1].length < 65536
    ensures Done(runs, bytes) == if both > bytes - first then bytes else first + both
    ensures LastSize(runs, bytes) == if both > bytes - first then bytes - first else both
  {
    OneRun(runs[..1], bytes);
  }

  /** The first unit maps the first run as far as it is wanted. */
  lemma FirstUnitMaps(s: Slave, d: Dir, lo: nat, runs: seq<Run>, bytes: nat, first: nat)
    requires RunsMapped(s, d, lo, runs) && bytes == s.Side(d).bytes && first == runs[0].length < 65536
    ensures s.fmmu[lo].physStart == runs[0].start
    ensures if |runs| == 1 then first >= bytes && s.fmmu[lo].logLength == bytes else first < bytes && s.fmmu[lo].logLength == first
  {
    FewerFollow(s.fmmu, lo, runs, bytes, 1);
    OneRun(runs[..1], bytes);
    if |runs| == 1 {
      assert runs[..1] == runs;
    } else {
      FewerIsLess(runs, 1, bytes);
    }
  }

  /** The second unit maps the rest, or too much. */
  lemma SecondUnitMaps(s: Slave, d: Dir, lo: nat, runs: seq<Run>, bytes: nat, first: nat, both: nat)
    requires RunsMapped(s, d, lo, runs) && bytes == s.Side(d).bytes && |runs| > 1
    requires first == runs[0].length < bytes && both == first + runs[1].length < 65536
    ensures s.fmmu[lo + 1].physStart == runs[1].start
    ensures s.fmmu[lo + 1].logLength == if both > bytes - first then bytes - first else both
    ensures |runs| == 2 <==> both >= bytes - first
  {
    FewerFollow(s.fmmu, lo, runs, bytes, 2);
    assert runs[..2][..1] == runs[..1];
    TwoRuns(runs[..2], bytes, first, both);
    if |runs| == 2 {
      assert runs[..2] == runs;
    } else {
      FewerIsLess(runs, 2, bytes);
    }
  }

  /** Where the first two runs lie in the data. */
  ghost predicate FirstTwoRuns(w: seq<nat>, bytes: nat, runs: seq<Run>)
    requires runs != []
  {
    var first := runs[0].length;
    && NoGap(w, 0, first) && first < 65536 && w[0] == runs[0].start && (first < bytes ==> Gap(w, first))
    && (|runs| > 1 ==>
          var both := first + runs[1].length;
          first < bytes && NoGap(w, first, both) && both < 65536 && w[first] == runs[1].start && (both < bytes ==> Gap(w, both)))
  }

  /** The memory goes up by more than one at byte `i`. */
  ghost predicate Gap(w: seq<nat>, i: nat) { 0 < i < |w| && w[i] > w[i - 1] + 1 }

  /** Run `k` of the table, found where byte `off` of the data is the next one wanted. */
  lemma RunHoldsRun(sm: seq<SyncManager>, t: nat, bits: nat, runs: seq<Run>, k: nat, off: nat, end: nat)
    requires |sm| == MAXSM && InAddressSpace(sm, t, bits) && 8 * off < bits <= 8 * |Data(sm, t)|
    requires k < |runs| && FoundIn(sm, t, bits, runs) && end == off + runs[k].length
    requires var r := After(runs, k); r.bitCount == 8 * off && r.smc < MAXSM && |Before(sm, t, r.smc)| == off
    ensures runs[k].smc < MAXSM && RunHolds(sm, t, bits, runs[k], off, end) && Data(sm, t)[off] == runs[k].start
  {
    assert FoundAt(sm, t, bits, runs, k);
    RunHoldsData(sm, t, bits, After(runs, k).smc, off, runs[k], end);
  }

  lemma WantedBits(bits: nat, bytes: nat, n: nat)
    requires bytes == (bits + 7) / 8
    ensures n < bytes <==> 8 * n < bits
  {
  }

  lemma FirstTwoRunsHold(sm: seq<SyncManager>, t: nat, bits: nat, bytes: nat, runs: seq<Run>, first: nat, both: nat)
    requires |sm| == MAXSM && InAddressSpace(sm, t, bits) && 0 < bits <= 8 * |Data(sm, t)| && bytes == (bits + 7) / 8
    requires runs != [] && FoundIn(sm, t, bits, runs) && first == runs[0].length
    requires |runs| > 1 ==> both == first + runs[1].length && (first < 65536 ==> first < bytes)
    ensures FirstTwoRuns(Data(sm, t), bytes, runs)
  {
    RunHoldsRun(sm, t, bits, runs, 0, 0, first);
    WantedBits(bits, bytes, first);
    if |runs| > 1 {
      RunHoldsRun(sm, t, bits, runs, 1, first, both);
      WantedBits(bits, bytes, both);
    }
  }

  lemma RunsLieInData(s: Slave, d: Dir, lo: nat, runs: seq<Run>, w: seq<nat>, bytes: nat)
    requires RunsMapped(s, d, lo, runs) && s.Valid() && bytes == s.Side(d).bytes > 0
    requires w == Data(s.sm, d.SmType()) && InAddressSpace(s.sm, d.SmType(), s.Side(d).bits) && |w| >= bytes
    ensures FirstTwoRuns(w, bytes, runs)
  {
    var first := runs[0].length;
    if first < 65536 { FirstUnitMaps(s, d, lo, runs, bytes, first); }
    FirstTwoRunsHold(s.sm, d.SmType(), s.Side(d).bits, bytes, runs, first, if |runs| > 1 then first + runs[1].length else first);
  }

  // ----- when the right memory is mapped -----

  lemma {:induction false} FewerMapped(f: seq<Unit>, lo: nat, k: nat, hi: nat)
    requires k <= hi <= |f|
    ensures Mapped(f, lo, k) <= Mapped(f, lo, hi)
    decreases hi
  {
    if k < hi { FewerMapped(f, lo, k, hi - 1); }
  }

  /** Connected bytes are the addresses from the first one on. */
  lemma {:induction false} ConnectedAddresses(w: seq<nat>, n: nat)
    requires 0 < n <= |w| && Connected(w[..n])
    ensures w[..n] == Addresses(w[0], n)
  {
    if n > 1 {
      assert Connected(w[..n - 1]) by { assert forall i :: 0 < i < n - 1 ==> w[..n - 1][i] == w[..n][i]; }
      ConnectedAddresses(w, n - 1);
      assert w[..n][n - 1] == w[..n][n - 2] + 1;
      assert w[..n - 1][n - 2] == w[0] + (n - 2);
    }
  }

  /** `m` is the memory mapped when the first two units are made for the first two runs. */
  ghost predicate MapsRuns(m: seq<nat>, runs: seq<Run>, bytes: nat)
    requires runs != []
  {
    var first := runs[0].length;
    if |runs| == 1 then first >= bytes && m == Addresses(runs[0].start, bytes)
    else
      var both := first + runs[1].length;
      && first < bytes
      && if both < bytes - first then Addresses(runs[0].start, first) + Addresses(runs[1].start, both) <= m
         else m == Addresses(runs[0].start, first) + Addresses(runs[1].start, bytes - first)
  }

  lemma OneMapped(f: seq<Unit>, lo: nat)
    requires lo < |f|
    ensures Mapped(f, lo, lo + 1) == Addresses(f[lo].physStart, f[lo].logLength)
  {
    assert Mapped(f, lo, lo) == [];
  }

  lemma TwoMapped(f: seq<Unit>, lo: nat)
    requires lo + 1 < |f|
    ensures Mapped(f, lo, lo + 2) == Addresses(f[lo].physStart, f[lo].logLength) + Addresses(f[lo + 1].physStart, f[lo + 1].logLength)
  {
    OneMapped(f, lo);
  }

  lemma FirstTwoUnits(s: Slave, d: Dir, lo: nat, runs: seq<Run>, bytes: nat)
    requires RunsMapped(s, d, lo, runs) && bytes == s.Side(d).bytes && runs[0].length < 65536
    requires |runs| > 1 ==> runs[0].length + runs[1].length < 65536
    ensures MapsRuns(Mapped(s.fmmu, lo, s.unused), runs, bytes)
  {
    FirstUnitMaps(s, d, lo, runs, bytes, runs[0].length);
    if |runs| == 1 {
      OneMapped(s.fmmu, lo);
    } else {
      TwoMapped(s.fmmu, lo);
      SecondUnitMaps(s, d, lo, runs, bytes, runs[0].length, runs[0].length + runs[1].length);
      FewerMapped(s.fmmu, lo, lo + 2, s.unused);
    }
  }

  /** Connected stretches have gaps only between them. */
  lemma GapSplits(v: seq<nat>, k: nat)
    requires 0 < k <= |v| && Stretches(v, k)
    ensures forall i: nat :: Gap(v, i) ==> i == k
    ensures k < |v| ==> Gap(v, k)
  {
    forall i: nat | 0 < i < |v| && i != k ensures !Gap(v, i) {
      if i < k {
        assert v[..k][i] == v[..k][i - 1] + 1;
      } else {
        assert v[k..][i - k] == v[k..][i - k - 1] + 1;
      }
    }
  }

  /** Without a gap there is one stretch. */
  lemma OneStretch(w: seq<nat>, first: nat, v: seq<nat>, k: nat)
    requires NoGap(w, 0, first) && |v| <= first && v == w[..|v|] && 0 < k <= |v| && Stretches(v, k)
    ensures v == Addresses(w[0], |v|)
  {
    assert !Gap(v, k);
    assert v[..k] == v;
    ConnectedAddresses(v, k);
  }

  /** The second stretch starts at the first gap, and there is no other gap. */
  lemma SecondStretch(w: seq<nat>, first: nat, both: nat, v: seq<nat>, k: nat)
    requires |v| <= |w| && v == w[..|v|] && 0 < k <= |v| && Stretches(v, k)
    requires first < |v| && Gap(w, first) && first < both && (both < |v| ==> Gap(w, both))
    ensures both >= |v| && v == Addresses(w[0], first) + Addresses(w[first], |v| - first)
  {
    GapSplits(v, k);
    assert Gap(v, first);
    if both < |v| { assert Gap(v, both); }
    ConnectedAddresses(v, first);
    ConnectedAddresses(v[first..], |v| - first);
    assert v[first..][..|v| - first] == v[first..];
    assert v == v[..first] + v[first..];
  }

  /** Two stretches of memory that hold the data are the ones the units map. */
  lemma StretchesAreMapped(w: seq<nat>, v: seq<nat>, runs: seq<Run>, m: seq<nat>, k: nat)
    requires runs != [] && |v| <= |w| && v == w[..|v|] && 0 < k <= |v| && Stretches(v, k)
    requires FirstTwoRuns(w, |v|, runs) && MapsRuns(m, runs, |v|)
    ensures m == v
  {
    var first := runs[0].length;
    if |runs| == 1 {
      OneStretch(w, first, v, k);
    } else {
      SecondStretch(w, first, first + runs[1].length, v, k);
    }
  }

  /** The second unit runs on without a gap. */
  lemma NoGapInUnit(v: seq<nat>, a: nat, b: nat, first: nat, both: nat)
    requires 0 < first < both
    ensures Addresses(a, first) + Addresses(b, both) <= v ==> !Gap(v, both)
  {
    var u := Addresses(a, first) + Addresses(b, both);
    assert u[both] == u[both - 1] + 1;
  }

  lemma OneUnitIsStretch(v: seq<nat>, a: nat)
    requires v != [] && v == Addresses(a, |v|)
    ensures Stretches(v, |v|)
  {
    assert v[..|v|] == v;
  }

  lemma TwoUnitsAreStretches(w: seq<nat>, v: seq<nat>, a: nat, b: nat, first: nat, both: nat)
    requires |v| <= |w| && v == w[..|v|] && 0 < first < |v| && first < both
    requires Gap(w, first) && (both < |v| ==> Gap(w, both))
    requires if both < |v| - first then Addresses(a, first) + Addresses(b, both) <= v
             else v == Addresses(a, first) + Addresses(b, |v| - first)
    ensures Stretches(v, first)
  {
    NoGapInUnit(v, a, b, first, both);
    assert Gap(v, first) && (both < |v| ==> Gap(v, both));
    assert v[..first] == Addresses(a, first);
    assert v[first..] == Addresses(b, |v| - first);
  }

  /** Rightly mapped data lies in two stretches. */
  lemma MappedAreStretches(w: seq<nat>, v: seq<nat>, runs: seq<Run>) returns (k: nat)
    requires runs != [] && 0 < |v| <= |w| && v == w[..|v|]
    requires FirstTwoRuns(w, |v|, runs) && MapsRuns(v, runs, |v|)
    ensures 0 < k <= |v| && Stretches(v, k)
  {
    var first := runs[0].length;
    if |runs| == 1 {
      k := |v|;
      OneUnitIsStretch(v, runs[0].start);
    } else {
      k := first;
      TwoUnitsAreStretches(w, v, runs[0].start, runs[1].start, first, first + runs[1].length);
    }
  }

  /** The data of a side is mapped rightly if and only if there is enough of it and it lies in at most
      two stretches of memory in ascending order.  Sync managers behind the last byte wanted may be empty. */
  lemma RightlyMappedIffTwoStretches(s: Slave, d: Dir, lo: nat, runs: seq<Run>)
    requires RunsMapped(s, d, lo, runs) && s.Valid() && s.Side(d).bytes > 0 && InAddressSpace(s.sm, d.SmType(), s.Side(d).bits)
    ensures RightlyMapped(s, d, lo) <==> TwoStretches(Data(s.sm, d.SmType()), s.Side(d).bytes)
  {
    var w, bytes, m := Data(s.sm, d.SmType()), s.Side(d).bytes, Mapped(s.fmmu, lo, s.unused);
    if |w| >= bytes {
      RunsLieInData(s, d, lo, runs, w, bytes);
      FirstTwoUnits(s, d, lo, runs, bytes);
      var v := w[..bytes];
      if m == v {
        var k := MappedAreStretches(w, v, runs);
      }
      if k :| 0 < k <= bytes && Stretches(v, k) {
        StretchesAreMapped(w, v, runs, m, k);
      }
    }
  }

  // ----- data that is mapped wrongly -----

  /** A table whose first sync managers, at the given places, are of type `t`. */
  function Table(places: seq<(nat, nat)>, t: nat): (sm: seq<SyncManager>)
    ensures |sm| == MAXSM
  {
    seq(MAXSM, (i: nat) => if i < |places| then SyncManager(places[i].0, places[i].1, t) else SyncManager(0, 0, 0))
  }

  lemma RunsApart(sm: seq<SyncManager>, t: nat, runs: seq<Run>)
    requires t > 0 && sm == Table([(0x1000, 1), (0x1100, 1), (0x1200, 1)], t) && runs != [] && FoundIn(sm, t, 24, runs)
    ensures runs[0] == Run(0x1000, 1, 1, 8) && (|runs| > 1 ==> runs[1] == Run(0x1100, 1, 2, 16))
  {
    assert FoundAt(sm, t, 24, runs, 0);
    if |runs| > 1 { assert FoundAt(sm, t, 24, runs, 1); }
  }

  /** Three stretches of one byte: the second unit is made two bytes long and covers the third byte. */
  lemma ThirdStretchIsLost(s: Slave, d: Dir, lo: nat, runs: seq<Run>)
    requires RunsMapped(s, d, lo, runs) && s.Valid() && s.Side(d).bits == 24
    requires s.sm == Table([(0x1000, 1), (0x1100, 1), (0x1200, 1)], d.SmType())
    ensures Data(s.sm, d.SmType()) == [0x1000, 0x1100, 0x1200] && Mapped(s.fmmu, lo, s.unused) == [0x1000, 0x1100, 0x1101]
  {
    DataOfThree(s.sm, d.SmType());
    RunsApart(s.sm, d.SmType(), runs);
    FirstTwoUnits(s, d, lo, runs, 3);
  }

  lemma RunsApartFound(sm: seq<SyncManager>, t: nat, runs: seq<Run>)
    requires t > 0 && sm == Table([(0x1000, 1), (0x1100, 1), (0x1200, 1)], t)
    requires runs == [Run(0x1000, 1, 1, 8), Run(0x1100, 1, 2, 16)]
    ensures FoundIn(sm, t, 24, runs)
  {
    assert FoundAt(sm, t, 24, runs, 0);
    assert FoundAt(sm, t, 24, runs, 1);
  }

  const IDLE := Unit(0, 0, 0, 0, 0, 0, false)

  /** Such a slave with its units. */
  lemma ThirdStretchOccurs() returns (s: Slave, runs: seq<Run>)
    ensures RunsMapped(s, Out, 0, runs) && s.Valid() && s.Side(Out).bits == 24
    ensures s.sm == Table([(0x1000, 1), (0x1100, 1), (0x1200, 1)], 3)
  {
    var sm := Table([(0x1000, 1), (0x1100, 1), (0x1200, 1)], 3);
    var units := [Unit(0, 1, 0, 7, 0x1000, 2, true), Unit(1, 2, 0, 7, 0x1100, 2, true), IDLE, IDLE];
    s := Slave(0, Io(24, 3, Some(0), 0), Io(0, 0, None, 0), sm, units, 2);
    runs := [Run(0x1000, 1, 1, 8), Run(0x1100, 1, 2, 16)];
    RunsApartFound(sm, 3, runs);
    assert runs[..1] == [runs[0]] && runs[..1][..0] == [];
    TwoRuns(runs, 3, 1, 2);
    OneRun(runs[..1], 3);
  }

  lemma DataOfThree(sm: seq<SyncManager>, t: nat)
    requires |sm| == MAXSM && sm[0].smtype == sm[1].smtype == sm[2].smtype == t && forall i :: 3 <= i < MAXSM ==> sm[i].smtype != t
    ensures Data(sm, t) == Addresses(sm[0].start, sm[0].length) + Addresses(sm[1].start, sm[1].length) + Addresses(sm[2].start, sm[2].length)
  {
    OthersHoldNothing(sm, t, 3, MAXSM);
    assert Before(sm, t, 1) == Addresses(sm[0].start, sm[0].length);
    assert Before(sm, t, 2) == Before(sm, t, 1) + Addresses(sm[1].start, sm[1].length);
  }

  lemma DataOfTwo(sm: seq<SyncManager>, t: nat)
    requires |sm| == MAXSM && sm[0].smtype == sm[1].smtype == t && forall i :: 2 <= i < MAXSM ==> sm[i].smtype != t
    ensures Data(sm, t) == Addresses(sm[0].start, sm[0].length) + Addresses(sm[1].start, sm[1].length)
  {
    OthersHoldNothing(sm, t, 2, MAXSM);
    assert Before(sm, t, 1) == Addresses(sm[0].start, sm[0].length);
  }

  /** A sync manager below the one before it is joined to it: the second half of the data is mapped to
      memory that belongs to neither. */
  lemma LowerStretchIsLost(s: Slave, d: Dir, lo: nat, runs: seq<Run>)
    requires RunsMapped(s, d, lo, runs) && s.Valid() && s.Side(d).bits == 64
    requires s.sm == Table([(0x1800, 4), (0x1000, 4)], d.SmType())
    ensures Data(s.sm, d.SmType()) == Addresses(0x1800, 4) + Addresses(0x1000, 4) && Mapped(s.fmmu, lo, s.unused) == Addresses(0x1800, 8)
  {
    DataOfTwo(s.sm, d.SmType());
    assert FoundAt(s.sm, d.SmType(), 64, runs, 0);
    ExtendStep(s.sm, d.SmType(), Run(0x1800, 4, 0, 32), 0x1804, 64, 1);
    assert runs[0] == Run(0x1800, 8, 1, 64);
    FirstUnitMaps(s, d, lo, runs, 8, 8);
    FirstTwoUnits(s, d, lo, runs, 8);
  }

  lemma LowerStretchOccurs() returns (s: Slave, runs: seq<Run>)
    ensures RunsMapped(s, Out, 0, runs) && s.Valid() && s.Side(Out).bits == 64
    ensures s.sm == Table([(0x1800, 4), (0x1000, 4)], 3)
  {
    var sm := Table([(0x1800, 4), (0x1000, 4)], 3);
    s := Slave(0, Io(64, 8, Some(0), 0), Io(0, 0, None, 0), sm, [Unit(0, 8, 0, 7, 0x1800, 2, true), IDLE, IDLE, IDLE], 1);
    runs := [Run(0x1800, 8, 1, 64)];
    ExtendStep(sm, 3, Run(0x1800, 4, 0, 32), 0x1804, 64, 1);
    assert FoundAt(sm, 3, 64, runs, 0);
    assert runs[..0] == [];
    OneRun(runs, 8);
  }

  lemma TwoStretchesOfFour(w: seq<nat>)
    requires w == Addresses(0x1000, 4) + Addresses(0x3000, 0) + Addresses(0x1800, 4)
    ensures TwoStretches(w, 8) && w[..8] != Addresses(0x1000, 4) + Addresses(0x3000, 4)
  {
    assert w[..8] == w;
    assert Stretches(w, 4);
    assert w[4] == 0x1800 && (Addresses(0x1000, 4) + Addresses(0x3000, 4))[4] == 0x3000;
  }

  lemma RunsAroundEmpty(sm: seq<SyncManager>, t: nat, runs: seq<Run>)
    requires t > 0 && sm == Table([(0x1000, 4), (0x3000, 0), (0x1800, 4)], t) && runs != [] && FoundIn(sm, t, 64, runs)
    ensures runs[0] == Run(0x1000, 4, 1, 32) && (|runs| > 1 ==> runs[1] == Run(0x3000, 4, 2, 64))
  {
    assert FoundAt(sm, t, 64, runs, 0);
    if |runs| > 1 { assert FoundAt(sm, t, 64, runs, 1); }
  }

  /** An empty sync manager between two others: the data lies in two stretches, and the second is lost. */
  lemma EmptySyncManagerBreaksMapping(s: Slave, d: Dir, lo: nat, runs: seq<Run>)
    requires RunsMapped(s, d, lo, runs) && s.Valid() && s.Side(d).bits == 64
    requires s.sm == Table([(0x1000, 4), (0x3000, 0), (0x1800, 4)], d.SmType())
    ensures TwoStretches(Data(s.sm, d.SmType()), 8) && Mapped(s.fmmu, lo, s.unused) == Addresses(0x1000, 4) + Addresses(0x3000, 4)
    ensures !RightlyMapped(s, d, lo)
  {
    DataOfThree(s.sm, d.SmType());
    RunsAroundEmpty(s.sm, d.SmType(), runs);
    FirstTwoUnits(s, d, lo, runs, 8);
    TwoStretchesOfFour(Data(s.sm, d.SmType()));
  }

  /** Such a slave with its units. */
  lemma EmptySyncManagerOccurs() returns (s: Slave, runs: seq<Run>)
    ensures RunsMapped(s, Out, 0, runs) && s.Valid() && s.Side(Out).bits == 64
    ensures s.sm == Table([(0x1000, 4), (0x3000, 0), (0x1800, 4)], 3)
  {
    var sm := Table([(0x1000, 4), (0x3000, 0), (0x1800, 4)], 3);
    var units := [Unit(0, 4, 0, 7, 0x1000, 2, true), Unit(4, 4, 0, 7, 0x3000, 2, true), IDLE, IDLE];
    s := Slave(0, Io(64, 8, Some(0), 0), Io(0, 0, None, 0), sm, units, 2);
    runs := [Run(0x1000, 4, 1, 32), Run(0x3000, 4, 2, 64)];
    RunsAroundEmptyFound(sm, 3, runs);
    assert runs[..1] == [runs[0]] && runs[..1][..0] == [];
    TwoRuns(runs, 8, 4, 8);
    OneRun(runs[..1], 8);
  }

  lemma RunsAroundEmptyFound(sm: seq<SyncManager>, t: nat, runs: seq<Run>)
    requires t > 0 && sm == Table([(0x1000, 4), (0x3000, 0), (0x1800, 4)], t)
    requires runs == [Run(0x1000, 4, 1, 32), Run(0x3000, 4, 2, 64)]
    ensures FoundIn(sm, t, 64, runs)
  {
    assert FoundAt(sm, t, 64, runs, 0);
    assert FoundAt(sm, t, 64, runs, 1);
  }

  /** An empty sync manager in front of all data: the data is mapped to where the empty one is. */
  lemma EmptyFirstBreaksMapping(s: Slave, d: Dir, lo: nat, runs: seq<Run>)
    requires RunsMapped(s, d, lo, runs) && s.Valid() && s.Side(d).bits == 32
    requires s.sm == Table([(0x3000, 0), (0x1000, 4)], d.SmType())
    ensures TwoStretches(Data(s.sm, d.SmType()), 4) && Mapped(s.fmmu, lo, s.unused) == Addresses(0x3000, 4)
    ensures !RightlyMapped(s, d, lo)
  {
    var w := Data(s.sm, d.SmType());
    DataOfTwo(s.sm, d.SmType());
    assert FoundAt(s.sm, d.SmType(), 32, runs, 0);
    ExtendStep(s.sm, d.SmType(), Run(0x3000, 0, 0, 0), 0x3000, 32, 1);
    assert runs[0] == Run(0x3000, 4, 1, 32);
    FirstUnitMaps(s, d, lo, runs, 4, 4);
    FirstTwoUnits(s, d, lo, runs, 4);
    assert w == Addresses(0x1000, 4) && w[..4] == w && Stretches(w, 4);
    assert w[0] == 0x1000 && Addresses(0x3000, 4)[0] == 0x3000;
  }

  // ----- a table for which the units do not suffice -----

  const SCATTERED := [(0x1000, 1), (0x1100, 1), (0x1200, 1), (0x1300, 1), (0x1400, 20)]

  lemma ScatteredRun(sm: seq<SyncManager>, t: nat, k: nat, r: Run)
    requires t > 0 && sm == Table(SCATTERED, t) && k < 4 && r == Run(SCATTERED[k].0, 1, k + 1, 8 * (k + 1))
    ensures r == RunFrom(sm, t, k, 8 * k, 192)
  {
    ExtendStep(sm, t, Run(SCATTERED[k].0, 1, k, 8 * (k + 1)), SCATTERED[k].0 + 1, 192, k + 1);
  }

  lemma ScatteredRuns(sm: seq<SyncManager>, t: nat, runs: seq<Run>)
    requires t > 0 && sm == Table(SCATTERED, t) && |runs| == 4
    requires forall k :: 0 <= k < 4 ==> runs[k] == Run(SCATTERED[k].0, 1, k + 1, 8 * (k + 1))
    ensures FoundIn(sm, t, 192, runs)
  {
    forall k | 0 <= k < 4 ensures FoundAt(sm, t, 192, runs, k) {
      ScatteredRun(sm, t, k, runs[k]);
      assert After(runs, k).smc == k && After(runs, k).bitCount == 8 * k;
    }
  }

  lemma TenBytesDone(runs: seq<Run>)
    requires |runs| == 4 && forall i :: 0 <= i < 4 ==> runs[i].length == 1
    ensures Done(runs[..3], 24) == 6 && Done(runs, 24) == 10
  {
    assert runs[..3][..2] == runs[..2] && runs[..2][..1] == runs[..1] && runs[..1][..0] == [];
    assert ByteCount(runs[..1]) == 1 && ByteCount(runs[..2]) == 2 && ByteCount(runs[..3]) == 3 && ByteCount(runs) == 4;
    assert Done(runs[..1], 24) == 1 && Done(runs[..2], 24) == 3;
  }

  lemma MoreThanFour(sm: seq<SyncManager>, t: nat, bits: nat, bytes: nat, runs: seq<Run>, units: nat)
    requires |sm| == MAXSM && FoundIn(sm, t, bits, runs) && |runs| == MAXFMMU && units == NeededFrom(sm, t, bits, bytes, 1)
    requires Done(runs[..3], bytes) < bytes && Done(runs, bytes) < bytes
    ensures units == MAXFMMU + 1
  {
    assert runs[..|runs| - 1] == runs[..3];
    UnitsCounted(sm, t, bits, bytes, runs, 1, units);
  }

  /** Four sync managers of one byte and one of twenty, apart from each other: after four units ten bytes are mapped,
      and whatever else the slave needs, the fifth unit is behind the end of its table. */
  lemma FifthUnitIsMissing(s: Slave, d: Dir)
    requires s.Valid() && s.unused <= MAXFMMU && s.Side(d).bits == 192 && s.sm == Table(SCATTERED, d.SmType())
    ensures Units(s, d) == 5 && !Suffice(s, d)
  {
    var runs := [Run(0x1000, 1, 1, 8), Run(0x1100, 1, 2, 16), Run(0x1200, 1, 3, 24), Run(0x1300, 1, 4, 32)];
    ScatteredRuns(s.sm, d.SmType(), runs);
    TenBytesDone(runs);
    MoreThanFour(s.sm, d.SmType(), s.Side(d).bits, s.Side(d).bytes, runs, Units(s, d));
  }
}
