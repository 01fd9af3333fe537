/** Analysis of recorded hysteresis loops (log_analysis_gui.py), in exact reals: the enclosed area, smoothing, and the
    phase of each sample within its cycle. */
module LogAnalysis {
  // ----- loop area -----

  function Next(i: nat, n: nat): (j: nat)
    requires i < n
    ensures j < n
  {
    if i + 1 == n then 0 else i + 1
  }

  function Cross(x: seq<real>, y: seq<real>, i: nat, j: nat): real
    requires |x| == |y| && i < |x| && j < |x|
  {
    x[i] * y[j] - x[j] * y[i]
  }

  /** The first k terms of the shoelace sum, which closes the loop from the last point to the first */
  function Shoelace(x: seq<real>, y: seq<real>, k: nat): real
    requires |x| == |y| && k <= |x|
  {
    if k == 0 then 0.0 else Shoelace(x, y, k - 1) + Cross(x, y, k - 1, Next(k - 1, |x|))
  }

  function Abs(r: real): real { if r < 0.0 then -r else r }

  function Area(x: seq<real>, y: seq<real>): real
    requires |x| == |y|
  {
    if |x| < 3 then 0.0 else 0.5 * Abs(Shoelace(x, y, |x|))
  }

  lemma NextWraps(i: nat, n: nat)
    requires i < n
    ensures (i + 1) % n == Next(i, n)
  {
  }

  method LoopArea(x: seq<real>, y: seq<real>) returns (r: real)
    requires |x| == |y|
    ensures r == Area(x, y)
  {
    if |x| < 3 {
      return 0.0;
    }
    var area := 0.0;
    for i := 0 to |x|
      invariant area == Shoelace(x, y, i)
    {
      var j := (i + 1) % |x|;
      NextWraps(i, |x|);
      area := area + (x[i] * y[j] - x[j] * y[i]);
    }
    r := 0.5 * (if area < 0.0 then -area else area);
  }

  function Shifted(s: seq<real>, d: real): (r: seq<real>)
    ensures |r| == |s|
  {
    seq(|s|, i requires 0 <= i < |s| => s[i] - d)
  }

  lemma CrossShifted(xi: real, yi: real, xj: real, yj: real, a: real, b: real)
    ensures (xi - a) * (yj - b) - (xj - a) * (yi - b) == (xi * yj - xj * yi) - b * (xi - xj) - a * (yj - yi)
  {
  }

  lemma {:induction false} ShiftTelescopes(x: seq<real>, y: seq<real>, a: real, b: real, k: nat)
    requires |x| == |y| && 0 < k < |x|
    ensures Shoelace(Shifted(x, a), Shifted(y, b), k) == Shoelace(x, y, k) - b * (x[0] - x[k]) - a * (y[k] - y[0])
  {
    CrossShifted(x[k - 1], y[k - 1], x[k], y[k], a, b);
    if k > 1 {
      ShiftTelescopes(x, y, a, b, k - 1);
    }
  }

  /** The area does not depend on where the loop lies. */
  lemma AreaIgnoresBaseline(x: seq<real>, y: seq<real>, a: real, b: real)
    requires |x| == |y|
    ensures Area(Shifted(x, a), Shifted(y, b)) == Area(x, y)
  {
    var n := |x|;
    if n >= 3 {
      ShiftTelescopes(x, y, a, b, n - 1);
      CrossShifted(x[n - 1], y[n - 1], x[0], y[0], a, b);
    }
  }

  /** A triangle has half the area its sides span, and from there every loop gets its area by cutting: the sum is that
      of the two loops a chord cuts it into. */
  lemma TriangleArea(x: seq<real>, y: seq<real>)
    requires |x| == |y| == 3
    ensures var spanned := (x[1] - x[0]) * (y[2] - y[0]) - (x[2] - x[0]) * (y[1] - y[0]);
            Area(x, y) == if spanned < 0.0 then -spanned / 2.0 else spanned / 2.0
  {
    CrossShifted(x[1], y[1], x[2], y[2], x[0], y[0]);
    assert Shoelace(x, y, 3) == Shoelace(x, y, 2) + Cross(x, y, 2, 0);
    assert Shoelace(x, y, 2) == Shoelace(x, y, 1) + Cross(x, y, 1, 2);
    assert Shoelace(x, y, 1) == Shoelace(x, y, 0) + Cross(x, y, 0, 1);
  }

  /** The terms of the open polygon */
  lemma {:induction false} OpenTerms(x: seq<real>, y: seq<real>, u: seq<real>, v: seq<real>, k: nat)
    requires |x| == |y| && |u| == |v| && k < |x| && k < |u| && u[..k + 1] == x[..k + 1] && v[..k + 1] == y[..k + 1]
    ensures Shoelace(u, v, k) == Shoelace(x, y, k)
  {
    if k > 0 {
      assert u[k] == u[..k + 1][k] && x[k] == x[..k + 1][k] && v[k] == v[..k + 1][k] && y[k] == y[..k + 1][k];
      assert u[..k] == u[..k + 1][..k] && x[..k] == x[..k + 1][..k] && v[..k] == v[..k + 1][..k] && y[..k] == y[..k + 1][..k];
      OpenTerms(x, y, u, v, k - 1);
      assert u[k - 1] == u[..k][k - 1] && x[k - 1] == x[..k][k - 1] && v[k - 1] == v[..k][k - 1] && y[k - 1] == y[..k][k - 1];
      SameCross(u, v, k - 1, k, x, y, k - 1, k);
    }
  }

  /** The rest of a loop, closed by its first point; its open terms are those of the whole from there on. */
  lemma {:induction false} RestTerms(x: seq<real>, y: seq<real>, k: nat, j: nat)
    requires |x| == |y| && 0 < k <= j < |x|
    ensures var u, v := [x[0]] + x[k..], [y[0]] + y[k..];
            Shoelace(u, v, j - k + 1) == Cross(x, y, 0, k) + Shoelace(x, y, j) - Shoelace(x, y, k)
  {
    var u, v := [x[0]] + x[k..], [y[0]] + y[k..];
    if j == k {
      assert Shoelace(u, v, 1) == Shoelace(u, v, 0) + Cross(u, v, 0, 1);
      SameCross(u, v, 0, 1, x, y, 0, k);
    } else {
      RestTerms(x, y, k, j - 1);
      SameCross(u, v, j - k, j - k + 1, x, y, j - 1, j);
    }
  }

  lemma CutAlongChord(x: seq<real>, y: seq<real>, k: nat)
    requires |x| == |y| && 0 < k < |x| - 1
    ensures Shoelace(x, y, |x|)
            == Shoelace(x[..k + 1], y[..k + 1], k + 1) + Shoelace([x[0]] + x[k..], [y[0]] + y[k..], |x| - k + 1)
  {
    FirstPart(x, y, k, Cross(x, y, 0, k));
    RestTerms(x, y, k, |x| - 1);
    LastPart(x, y, k, Cross(x, y, |x| - 1, 0));
  }

  lemma FirstPart(x: seq<real>, y: seq<real>, k: nat, chord: real)
    requires |x| == |y| && 0 < k < |x| - 1 && chord == Cross(x, y, 0, k)
    ensures Shoelace(x[..k + 1], y[..k + 1], k + 1) == Shoelace(x, y, k) - chord
  {
    OpenTerms(x, y, x[..k + 1], y[..k + 1], k);
    SameCross(x[..k + 1], y[..k + 1], k, 0, x, y, k, 0);
  }

  lemma LastPart(x: seq<real>, y: seq<real>, k: nat, closing: real)
    requires |x| == |y| && 0 < k < |x| - 1 && closing == Cross(x, y, |x| - 1, 0)
    ensures var u, v := [x[0]] + x[k..], [y[0]] + y[k..];
            Shoelace(u, v, |x| - k + 1) == Shoelace(u, v, |x| - k) + closing
    ensures Shoelace(x, y, |x|) == Shoelace(x, y, |x| - 1) + closing
  {
    SameCross([x[0]] + x[k..], [y[0]] + y[k..], |x| - k, 0, x, y, |x| - 1, 0);
  }

  lemma SameCross(u: seq<real>, v: seq<real>, i: nat, j: nat, x: seq<real>, y: seq<real>, k: nat, l: nat)
    requires |u| == |v| && i < |u| && j < |u| && |x| == |y| && k < |x| && l < |x|
    requires u[i] == x[k] && v[i] == y[k] && u[j] == x[l] && v[j] == y[l]
    ensures Cross(u, v, i, j) == Cross(x, y, k, l)
  {
  }

  function Min(s: seq<real>): (m: real)
    requires s != []
    ensures m in s && forall i :: 0 <= i < |s| ==> m <= s[i]
  {
    if |s| == 1 then s[0]
    else
      var m := Min(s[1..]);
      assert forall i :: 1 <= i < |s| ==> s[i] == s[1..][i - 1];
      if s[0] < m then s[0] else m
  }

  /** What a log is brought down by; there is no minimum of an empty log. */
  datatype Baseline = NotANumber | Number(value: real)

  method SubtractMinimum(s: seq<real>) returns (r: seq<real>, baseline: Baseline)
    ensures s == [] <==> baseline == NotANumber
    ensures s == [] ==> r == []
    ensures s != [] ==> baseline.value == Min(s) && r == Shifted(s, baseline.value) && 0.0 in r
    ensures forall i :: 0 <= i < |r| ==> r[i] >= 0.0
  {
    if s == [] {
      return [], NotANumber;
    }
    var m := Min(s);
    var k :| 0 <= k < |s| && s[k] == m;
    r, baseline := Shifted(s, m), Number(m);
    assert r[k] == 0.0;
  }

  /** The samples the baseline is taken from: at least one, if there is one, and at most all */
  function BaselineCount(samples: int, n: nat): (m: nat)
    ensures m <= n && (n > 0 ==> m > 0)
  {
    if n == 0 || samples >= n then n else if samples < 1 then 1 else samples
  }

  /** The mean of no samples is 0. */
  method SubtractBaseline(s: seq<real>, samples: int) returns (r: seq<real>, baseline: real)
    ensures r == Shifted(s, baseline)
    ensures var n := BaselineCount(samples, |s|); baseline == if n == 0 then 0.0 else Sum(s, 0, n) / n as real
    ensures s == [] ==> baseline == 0.0
    ensures s != [] ==> var m := if samples < 1 then 1 else if samples < |s| then samples else |s|;
                        baseline * m as real == Sum(s, 0, m)
  {
    var n := BaselineCount(samples, |s|);
    var total := 0.0;
    for i := 0 to n
      invariant total == Sum(s, 0, i)
    {
      total := total + s[i];
    }
    baseline := if n == 0 then 0.0 else total / n as real;
    r := Shifted(s, baseline);
  }

  /** What a log is compared against: its minimum or the mean of its first samples */
  datatype Reference = Minimum | Initial(samples: int)

  method RelativeValues(s: seq<real>, reference: Reference) returns (r: seq<real>, baseline: Baseline)
    ensures baseline == NotANumber <==> reference == Minimum && s == []
    ensures r == if baseline.Number? then Shifted(s, baseline.value) else []
    ensures reference == Minimum && s != [] ==> baseline.value == Min(s)
  {
    match reference {
      case Minimum => r, baseline := SubtractMinimum(s);
      case Initial(samples) =>
        var mean;
        r, mean := SubtractBaseline(s, samples);
        baseline := Number(mean);
    }
  }

  datatype Stats = NoStats | Stats(x0: real, y0: real, rawArea: real, relArea: real)

  /** `compute_stats`: the two areas it reports are always the same, whatever the reference. */
  method ComputeStats(x: seq<real>, y: seq<real>, reference: Reference) returns (s: Stats)
    requires |x| == |y|
    ensures s == NoStats <==> x == []
    ensures s.Stats? ==> s.rawArea == s.relArea == Area(x, y)
  {
    if x == [] {
      return NoStats;
    }
    var xr, x0 := RelativeValues(x, reference);
    var yr, y0 := RelativeValues(y, reference);
    var raw := LoopArea(x, y);
    var rel := LoopArea(xr, yr);
    AreaIgnoresBaseline(x, y, x0.value, y0.value);
    s := Stats(x0.value, y0.value, raw, rel);
  }

  // ----- where the loop starts, and which way it goes -----

  function Rotated(s: seq<real>): (r: seq<real>)
    requires s != []
    ensures |r| == |s|
  {
    s[1..] + [s[0]]
  }

  lemma {:induction false} RotatedSum(x: seq<real>, y: seq<real>, k: nat)
    requires |x| == |y| && k < |x|
    ensures Shoelace(Rotated(x), Rotated(y), k) == Shoelace(x, y, k + 1) - Cross(x, y, 0, Next(0, |x|))
  {
    if k > 0 {
      RotatedSum(x, y, k - 1);
      var n := |x|;
      assert Rotated(x)[k - 1] == x[k] && Rotated(y)[k - 1] == y[k];
      assert Rotated(x)[k] == x[Next(k, n)] && Rotated(y)[k] == y[Next(k, n)];
      SameCross(Rotated(x), Rotated(y), k - 1, k, x, y, k, Next(k, n));
    }
  }

  lemma AreaIgnoresOneRotation(x: seq<real>, y: seq<real>)
    requires |x| == |y| > 0
    ensures Area(Rotated(x), Rotated(y)) == Area(x, y)
  {
    var n := |x|;
    if n >= 3 {
      RotatedSum(x, y, n - 1);
      assert Rotated(x)[n - 1] == x[0] && Rotated(y)[n - 1] == y[0];
      assert Rotated(x)[0] == x[1] && Rotated(y)[0] == y[1];
      assert Cross(Rotated(x), Rotated(y), n - 1, 0) == Cross(x, y, 0, 1);
    }
  }

  /** It does not matter at which sample the loop is cut open. */
  lemma {:induction false} AreaIgnoresStart(x: seq<real>, y: seq<real>, r: nat)
    requires |x| == |y| && r <= |x|
    ensures Area(x[r..] + x[..r], y[r..] + y[..r]) == Area(x, y)
  {
    if r == 0 {
      assert x[0..] + x[..0] == x && y[0..] + y[..0] == y;
    } else {
      AreaIgnoresStart(x, y, r - 1);
      var x', y' := x[r - 1..] + x[..r - 1], y[r - 1..] + y[..r - 1];
      assert Rotated(x') == x[r..] + x[..r] && Rotated(y') == y[r..] + y[..r];
      AreaIgnoresOneRotation(x', y');
    }
  }

  function Reversed(s: seq<real>): (r: seq<real>)
    ensures |r| == |s|
  {
    seq(|s|, i requires 0 <= i < |s| => s[|s| - 1 - i])
  }

  lemma ReversedCross(x: seq<real>, y: seq<real>, k: nat)
    requires |x| == |y| && 0 < k < |x|
    ensures Cross(Reversed(x), Reversed(y), k - 1, k) == -Cross(x, y, |x| - 1 - k, |x| - k)
  {
    var i, j := |x| - 1 - k, |x| - k;
    assert Reversed(x)[k - 1] == x[j] && Reversed(x)[k] == x[i];
    assert Reversed(y)[k - 1] == y[j] && Reversed(y)[k] == y[i];
  }

  lemma {:induction false} ReversedSum(x: seq<real>, y: seq<real>, k: nat)
    requires |x| == |y| && k < |x|
    ensures Shoelace(Reversed(x), Reversed(y), k) == Shoelace(x, y, |x| - 1 - k) - Shoelace(x, y, |x| - 1)
  {
    if k > 0 {
      ReversedSum(x, y, k - 1);
      ReversedCross(x, y, k);
    }
  }

  /** Nor in which direction it is run through. */
  lemma AreaIgnoresDirection(x: seq<real>, y: seq<real>)
    requires |x| == |y|
    ensures Area(Reversed(x), Reversed(y)) == Area(x, y)
  {
    if |x| >= 3 {
      ReversedSum(x, y, |x| - 1);
    }
  }

  // ----- smoothing -----

  function Sum(s: seq<real>, lo: nat, hi: nat): real
    requires lo <= hi <= |s|
  {
    if lo == hi then 0.0 else Sum(s, lo, hi - 1) + s[hi - 1]
  }

  lemma SumOfOne(s: seq<real>, k: nat)
    requires k < |s|
    ensures Sum(s, k, k + 1) == s[k]
  {
    assert Sum(s, k, k) == 0.0;
  }

  lemma {:induction false} SumSplits(s: seq<real>, lo: nat, hi: nat)
    requires lo <= hi <= |s|
    ensures Sum(s, 0, hi) - Sum(s, 0, lo) == Sum(s, lo, hi)
  {
    if lo < hi {
      SumSplits(s, lo, hi - 1);
    }
  }

  /** Half the width of the window in samples; the window is odd and at least 3 wide, and not much wider than the
      record. */
  function Half(window: int, n: nat): nat {
    var w := if window < n then window else n;
    var v := if w < 3 then 3 else w;
    v / 2
  }

  /** The mean over the window around i, cut off at the ends */
  function WindowMean(s: seq<real>, i: nat, half: nat): real
    requires i < |s|
  {
    var lo := if i < half then 0 else i - half;
    var hi := if i + half + 1 > |s| then |s| else i + half + 1;
    Sum(s, lo, hi) / (hi - lo) as real
  }

  lemma MeanTimesCount(total: real, n: real)
    requires n > 0.0
    ensures total / n * n == total
  {
  }

  /** The window around sample i is that of the samples no further away than half the smallest odd number that is not
      below 3 and not below the width asked for, as far as the record goes; the mean is their sum through their number. */
  lemma WindowIs(s: seq<real>, window: int, i: nat, half: nat, lo: nat, hi: nat)
    requires i < |s| && lo == (if i < half then 0 else i - half) && hi == if i + half < |s| then i + half + 1 else |s|
    requires var w := if window < |s| then window else |s|; 2 * half + 1 >= 3 && 2 * half + 1 >= w && (half == 1 || 2 * half - 1 < w)
    ensures lo <= i < hi <= |s| && WindowMean(s, i, Half(window, |s|)) * (hi - lo) as real == Sum(s, lo, hi)
  {
    assert Half(window, |s|) == half;
    MeanTimesCount(Sum(s, lo, hi), (hi - lo) as real);
  }

  /** `moving_average` with its running sums: at every sample the mean of the window around it. */
  method MovingAverage(s: seq<real>, window: int) returns (r: seq<real>)
    ensures |r| == |s| && forall i :: 0 <= i < |s| ==> r[i] == WindowMean(s, i, Half(window, |s|))
  {
    if s == [] {
      return [];
    }
    var w := if window < |s| then window else |s|;
    w := if w < 3 then 3 else w;
    if w % 2 == 0 {
      w := w + 1;
    }
    var half: nat := w / 2;
    assert half == Half(window, |s|);
    var prefix := RunningSums(s);
    r := [];
    for i := 0 to |s|
      invariant |r| == i
      invariant forall k :: 0 <= k < i ==> r[k] == WindowMean(s, k, half)
    {
      var lo := if i < half then 0 else i - half;
      var hi := if i + half + 1 > |s| then |s| else i + half + 1;
      SumSplits(s, lo, hi);
      r := r + [(prefix[hi] - prefix[lo]) / (hi - lo) as real];
    }
  }

  method RunningSums(s: seq<real>) returns (prefix: seq<real>)
    ensures |prefix| == |s| + 1 && forall k :: 0 <= k <= |s| ==> prefix[k] == Sum(s, 0, k)
  {
    prefix := [0.0];
    for i := 0 to |s|
      invariant |prefix| == i + 1 && forall k :: 0 <= k <= i ==> prefix[k] == Sum(s, 0, k)
    {
      prefix := prefix + [prefix[i] + s[i]];
    }
  }

  // ----- phases -----

  /** A fresh search from interval j on: the first one whose end lies behind `tv`, or the last one */
  function Interval(boundaries: seq<real>, tv: real, j: nat): (k: nat)
    requires j + 1 < |boundaries|
    ensures j <= k && k + 1 < |boundaries|
    decreases |boundaries| - j
  {
    if j + 2 < |boundaries| && tv >= boundaries[j + 1] then Interval(boundaries, tv, j + 1) else j
  }

  function Phase(boundaries: seq<real>, tv: real, j: nat): real
    requires j + 1 < |boundaries|
  {
    var period := if boundaries[j + 1] - boundaries[j] > 0.000000001 then boundaries[j + 1] - boundaries[j] else 0.000000001;
    var turns := (tv - boundaries[j]) / period;
    (turns - turns.Floor as real) * 100.0
  }

  predicate Sorted(t: seq<real>) {
    forall i, j :: 0 <= i < j < |t| ==> t[i] <= t[j]
  }

  /** The latest of the times up to the i-th */
  function LatestUpTo(t: seq<real>, i: nat): real
    requires i < |t|
  {
    if i == 0 then t[0]
    else
      var l := LatestUpTo(t, i - 1);
      if t[i] > l then t[i] else l
  }

  lemma {:induction false} LatestOfSorted(t: seq<real>, i: nat)
    requires i < |t| && Sorted(t)
    ensures LatestUpTo(t, i) == t[i]
  {
    if i > 0 {
      LatestOfSorted(t, i - 1);
    }
  }

  /** What a search for an earlier time passed, a search for a later one passes too; and where a search for a later
      time has stopped, one for an earlier time goes no further. */
  lemma {:induction false} SearchResumes(boundaries: seq<real>, earlier: real, later: real, j: nat)
    requires j + 1 < |boundaries| && earlier <= later
    ensures Interval(boundaries, later, j) == Interval(boundaries, later, Interval(boundaries, earlier, j))
    ensures Interval(boundaries, later, j) == Interval(boundaries, earlier, Interval(boundaries, later, j))
    decreases |boundaries| - j
  {
    if j + 2 < |boundaries| && later >= boundaries[j + 1] {
      SearchResumes(boundaries, earlier, later, j + 1);
    }
  }

  lemma PointerFollowsLatest(boundaries: seq<real>, latest: real, tv: real)
    requires |boundaries| >= 2
    ensures Interval(boundaries, tv, Interval(boundaries, latest, 0)) == Interval(boundaries, if tv > latest then tv else latest, 0)
  {
    if tv > latest {
      SearchResumes(boundaries, latest, tv, 0);
    } else {
      SearchResumes(boundaries, tv, latest, 0);
    }
  }

  /** Where the pointer stands after the i-th sample */
  function Pointer(t: seq<real>, boundaries: seq<real>, i: nat): (j: nat)
    requires i < |t| && |boundaries| >= 2
    ensures j + 1 < |boundaries|
  {
    Interval(boundaries, LatestUpTo(t, i), 0)
  }

  function PhaseAt(t: seq<real>, boundaries: seq<real>, i: nat): real
    requires i < |t| && |boundaries| >= 2
  {
    Phase(boundaries, t[i], Pointer(t, boundaries, i))
  }

  lemma PointerMoves(t: seq<real>, boundaries: seq<real>, i: nat)
    requires i < |t| && |boundaries| >= 2
    ensures Pointer(t, boundaries, i) == Interval(boundaries, t[i], if i == 0 then 0 else Pointer(t, boundaries, i - 1))
  {
    if i > 0 {
      PointerFollowsLatest(boundaries, LatestUpTo(t, i - 1), t[i]);
    }
  }

  /** Moves the pointer on for one sample. */
  method Follow(boundaries: seq<real>, tv: real, start: nat) returns (j: nat)
    requires start + 1 < |boundaries|
    ensures j == Interval(boundaries, tv, start)
  {
    j := start;
    while j + 2 < |boundaries| && tv >= boundaries[j + 1]
      invariant j + 1 < |boundaries| && Interval(boundaries, tv, start) == Interval(boundaries, tv, j)
    {
      j := j + 1;
    }
  }

  /** `phases_from_boundaries`: the pointer never goes back, so each sample gets the interval of the latest time so
      far. */
  method Phases(t: seq<real>, boundaries: seq<real>) returns (phases: seq<real>)
    ensures |phases| == |t|
    ensures |boundaries| < 2 ==> forall i :: 0 <= i < |t| ==> phases[i] == 0.0
    ensures |boundaries| >= 2 ==> forall i :: 0 <= i < |t| ==>
              phases[i] == PhaseAt(t, boundaries, i)
  {
    if |boundaries| < 2 {
      return seq(|t|, _ => 0.0);
    }
    phases := [];
    var j: nat := 0;
    for i := 0 to |t|
      invariant |phases| == i && j + 1 < |boundaries|
      invariant j == if i == 0 then 0 else Pointer(t, boundaries, i - 1)
      invariant forall k :: 0 <= k < i ==> phases[k] == PhaseAt(t, boundaries, k)
    {
      PointerMoves(t, boundaries, i);
      j := Follow(boundaries, t[i], j);
      phases := phases + [Phase(boundaries, t[i], j)];
    }
  }

  /** For sorted times that is a fresh search for every sample. */
  lemma SortedTimesSearchAfresh(t: seq<real>, boundaries: seq<real>, phases: seq<real>)
    requires |boundaries| >= 2 && |phases| == |t| && Sorted(t)
    requires forall i :: 0 <= i < |t| ==> phases[i] == PhaseAt(t, boundaries, i)
    ensures forall i :: 0 <= i < |t| ==> phases[i] == Phase(boundaries, t[i], Interval(boundaries, t[i], 0))
  {
    forall i | 0 <= i < |t| ensures phases[i] == Phase(boundaries, t[i], Interval(boundaries, t[i], 0)) {
      LatestOfSorted(t, i);
    }
  }

  /** Between sorted boundaries every sample is in the interval it belongs to. */
  lemma {:induction false} IntervalContains(boundaries: seq<real>, tv: real, j: nat)
    requires j + 1 < |boundaries| && Sorted(boundaries) && boundaries[j] <= tv < boundaries[|boundaries| - 1]
    ensures var k := Interval(boundaries, tv, j); boundaries[k] <= tv < boundaries[k + 1]
    decreases |boundaries| - j
  {
    if j + 2 < |boundaries| && tv >= boundaries[j + 1] {
      IntervalContains(boundaries, tv, j + 1);
    }
  }

  /** Then the phase is the part of the cycle that has passed, in percent. */
  lemma PhaseIsShareOfCycle(boundaries: seq<real>, tv: real)
    requires |boundaries| >= 2 && Sorted(boundaries) && boundaries[0] <= tv < boundaries[|boundaries| - 1]
    requires forall k :: 0 <= k < |boundaries| - 1 ==> boundaries[k + 1] - boundaries[k] > 0.000000001
    ensures var k := Interval(boundaries, tv, 0);
            Phase(boundaries, tv, k) == 100.0 * ((tv - boundaries[k]) / (boundaries[k + 1] - boundaries[k]))
            && 0.0 <= Phase(boundaries, tv, k) < 100.0
  {
    IntervalContains(boundaries, tv, 0);
    var k := Interval(boundaries, tv, 0);
    var d, p := tv - boundaries[k], boundaries[k + 1] - boundaries[k];
    ShareBelowOne(d, p);
  }

  lemma ShareBelowOne(d: real, p: real)
    requires 0.0 <= d < p
    ensures 0.0 <= d / p < 1.0 && (d / p).Floor == 0
  {
    var q := d / p;
    assert q * p == d;
    assert q < 0.0 ==> q * p < 0.0;
    assert q >= 1.0 ==> q * p >= p;
  }
}
