/** The buffers behind the live graphs (`GraphBuffers`, `update_speed_graph`): arrays of fixed size
    that are filled from the front and then slide. */
module GraphBuffers {
  datatype Sample = Sample(time: real, target: real, actual: real)
  datatype RtSample = RtSample(time: real, dt: real)

  /** An entry of the input queue, stamped with wall time */
  datatype Entry = Entry(wall: real, target: real, actual: real)
  datatype RtEntry = RtEntry(wall: real, dt: real)

  /** The last n elements, or all when there are fewer */
  function LastN<T>(s: seq<T>, n: nat): (r: seq<T>)
    ensures |r| == if |s| < n then |s| else n
  {
    if |s| <= n then s else s[|s| - n..]
  }

  /** Leaving out what would fall off the window anyway changes nothing. */
  lemma WindowComposes<T>(s: seq<T>, b: seq<T>, n: nat)
    ensures LastN(LastN(s, n) + b, n) == LastN(s + b, n)
  {
    var l, r := LastN(LastN(s, n) + b, n), LastN(s + b, n);
    forall i | 0 <= i < |r| ensures l[i] == r[i] {
      var k := |s| + |b| - |r| + i;
      assert r[i] == if k < |s| then s[k] else b[k - |s|];
    }
  }

  lemma TrimmingChangesNothing<T>(s: seq<T>, b: seq<T>, n: nat)
    ensures LastN(s + LastN(b, n), n) == LastN(s + b, n)
  {
    if |b| > n {
      var t := b[|b| - n..];
      assert LastN(s + t, n) == t;
      assert (s + b)[|s| + |b| - n..] == t;
    }
  }

  // ----- whole runs -----

  function Joined<T>(batches: seq<seq<T>>): seq<T> {
    if batches == [] then [] else Joined(batches[..|batches| - 1]) + batches[|batches| - 1]
  }

  /** What is shown after a number of batches, one update after another */
  function AfterBatches<T>(batches: seq<seq<T>>, n: nat): seq<T> {
    if batches == [] then [] else LastN(AfterBatches(batches[..|batches| - 1], n) + batches[|batches| - 1], n)
  }

  /** Main result: whatever the batches, their sizes included, the window shows the end of the whole stream. */
  lemma {:induction false} WindowIsEndOfStream<T>(batches: seq<seq<T>>, n: nat)
    ensures AfterBatches(batches, n) == LastN(Joined(batches), n)
  {
    if batches != [] {
      var rest := batches[..|batches| - 1];
      WindowIsEndOfStream(rest, n);
      WindowComposes(Joined(rest), batches[|batches| - 1], n);
    }
  }

  // ----- one array -----

  /** One array of a graph gets its share of a batch. */
  method Slide(a: array<real>, ptr: nat, data: array<real>)
    requires ptr <= a.Length && data.Length <= a.Length && data != a
    modifies a
    ensures var r := LastN(old(a[..ptr]) + old(data[..]), a.Length); a[..|r|] == r
  {
    if ptr + data.Length <= a.Length {
      Append(a, ptr, data);
    } else {
      var shift := ptr + data.Length - a.Length;
      assert (old(a[..ptr]) + old(data[..]))[shift..] == old(a[shift..ptr]) + old(data[..]);
      MakeRoom(a, shift, ptr);
      PutLast(a, data);
    }
  }

  /** `a[ptr:end] = data` */
  method Append(a: array<real>, ptr: nat, data: array<real>)
    requires ptr + data.Length <= a.Length && data != a
    modifies a
    ensures a[..ptr + data.Length] == old(a[..ptr]) + old(data[..])
  {
    forall i | 0 <= i < data.Length {
      a[ptr + i] := data[i];
    }
  }

  /** `a[:-shift] = a[shift:]`; what matters of it is in front of `ptr`. */
  method MakeRoom(a: array<real>, shift: nat, ptr: nat)
    requires shift <= ptr <= a.Length
    modifies a
    ensures a[..ptr - shift] == old(a[shift..ptr])
  {
    forall i | 0 <= i < a.Length - shift {
      a[i] := a[i + shift];
    }
  }

  /** `a[-count:] = data` */
  method PutLast(a: array<real>, data: array<real>)
    requires data.Length <= a.Length && data != a
    modifies a
    ensures a[..] == old(a[..a.Length - data.Length]) + old(data[..])
  {
    forall i | 0 <= i < data.Length {
      a[a.Length - data.Length + i] := data[i];
    }
  }

  function Column<T>(s: seq<T>, f: T -> real): (c: seq<real>)
    ensures |c| == |s|
  {
    seq(|s|, i requires 0 <= i < |s| => f(s[i]))
  }

  lemma ColumnOfWindow<T>(s: seq<T>, b: seq<T>, f: T -> real, n: nat)
    ensures LastN(Column(s, f) + Column(b, f), n) == Column(LastN(s + b, n), f)
  {
    var l, r := LastN(Column(s, f) + Column(b, f), n), Column(LastN(s + b, n), f);
    forall i | 0 <= i < |r| ensures l[i] == r[i] {
      var k := |s| + |b| - |r| + i;
      assert LastN(s + b, n)[i] == if k < |s| then s[k] else b[k - |s|];
      assert l[i] == if k < |s| then Column(s, f)[k] else Column(b, f)[k - |s|];
    }
  }

  function Time(s: Sample): real { s.time }
  function Target(s: Sample): real { s.target }
  function Actual(s: Sample): real { s.actual }

  /** The three arrays hold the same samples, position by position. */
  ghost predicate Aligned(times: seq<real>, targets: seq<real>, actuals: seq<real>, s: seq<Sample>) {
    times == Column(s, Time) && targets == Column(s, Target) && actuals == Column(s, Actual)
  }

  lemma WindowKeepsAlignment(times: seq<real>, targets: seq<real>, actuals: seq<real>, s: seq<Sample>,
                             times': seq<real>, targets': seq<real>, actuals': seq<real>, b: seq<Sample>, n: nat)
    requires Aligned(times, targets, actuals, s) && Aligned(times', targets', actuals', b)
    ensures Aligned(LastN(times + times', n), LastN(targets + targets', n), LastN(actuals + actuals', n), LastN(s + b, n))
  {
    ColumnOfWindow(s, b, Time, n);
    ColumnOfWindow(s, b, Target, n);
    ColumnOfWindow(s, b, Actual, n);
  }

  function RtTime(s: RtSample): real { s.time }
  function RtDt(s: RtSample): real { s.dt }

  ghost predicate RtAligned(times: seq<real>, dts: seq<real>, s: seq<RtSample>) {
    times == Column(s, RtTime) && dts == Column(s, RtDt)
  }

  class Buffers {
    const maxPoints: nat
    var startWall: real
    var speedQueue: seq<Entry>
    var rtQueue: seq<RtEntry>
    const speedTime: array<real>
    const speedTarget: array<real>
    const speedActual: array<real>
    var ptrSpeed: nat

    const rtTime: array<real>
    const rtDt: array<real>
    var ptrRt: nat

    /** What the speed graph and the timing graph show */
    ghost var shown: seq<Sample>
    ghost var shownRt: seq<RtSample>

    ghost predicate Valid()
      reads this, speedTime, speedTarget, speedActual, rtTime, rtDt
    {
      ValidSpeed() && ValidRt() && {rtTime, rtDt} !! {speedTime, speedTarget, speedActual}
    }

    ghost predicate ValidRt()
      reads this, rtTime, rtDt
    {
      rtTime.Length == rtDt.Length == maxPoints && rtTime != rtDt && ptrRt == |shownRt| <= maxPoints
      && RtAligned(rtTime[..ptrRt], rtDt[..ptrRt], shownRt)
    }

    ghost predicate ValidSpeed()
      reads this, speedTime, speedTarget, speedActual
    {
      speedTime.Length == speedTarget.Length == speedActual.Length == maxPoints
      && speedTime != speedTarget && speedTime != speedActual && speedTarget != speedActual
      && ptrSpeed == |shown| <= maxPoints
      && Aligned(speedTime[..ptrSpeed], speedTarget[..ptrSpeed], speedActual[..ptrSpeed], shown)
    }

    constructor (maxPoints: nat, now: real)
      ensures Valid() && shown == [] && shownRt == [] && speedQueue == [] && rtQueue == [] && startWall == now && this.maxPoints == maxPoints
      ensures fresh(speedTime) && fresh(speedTarget) && fresh(speedActual) && fresh(rtTime) && fresh(rtDt)
    {
      this.maxPoints := maxPoints;
      startWall, speedQueue, rtQueue, ptrSpeed, ptrRt, shown, shownRt := now, [], [], 0, 0, [], [];
      speedTime, speedTarget, speedActual := new real[maxPoints], new real[maxPoints], new real[maxPoints];
      rtTime, rtDt := new real[maxPoints], new real[maxPoints];
    }

    method Reset(now: real)
      requires Valid()
      modifies this
      ensures Valid() && shown == [] && shownRt == [] && speedQueue == [] && rtQueue == [] && startWall == now
    {
      startWall, ptrSpeed, ptrRt, speedQueue, rtQueue := now, 0, 0, [], [];
      shown, shownRt := [], [];
    }

    /** `copy_speed`: the three arrays move together. */
    method CopySpeed(newT: array<real>, newTarget: array<real>, newActual: array<real>, ghost batch: seq<Sample>)
      requires Valid() && |batch| == newT.Length == newTarget.Length == newActual.Length <= maxPoints
      requires Aligned(newT[..], newTarget[..], newActual[..], batch)
      requires {newT, newTarget, newActual} !! {speedTime, speedTarget, speedActual, rtTime, rtDt}
      modifies `ptrSpeed, `shown, speedTime, speedTarget, speedActual
      ensures Valid() && shown == LastN(old(shown) + batch, maxPoints)
    {
      WindowKeepsAlignment(speedTime[..ptrSpeed], speedTarget[..ptrSpeed], speedActual[..ptrSpeed], shown,
                           newT[..], newTarget[..], newActual[..], batch, maxPoints);
      Slide(speedTime, ptrSpeed, newT);
      Slide(speedTarget, ptrSpeed, newTarget);
      Slide(speedActual, ptrSpeed, newActual);
      ptrSpeed := if ptrSpeed + newT.Length <= maxPoints then ptrSpeed + newT.Length else maxPoints;
      shown := LastN(shown + batch, maxPoints);
    }

    /** `copy_rt`, for the two arrays of the timing graph */
    method CopyRt(newT: array<real>, newDt: array<real>, ghost batch: seq<RtSample>)
      requires Valid() && |batch| == newT.Length == newDt.Length <= maxPoints && RtAligned(newT[..], newDt[..], batch)
      requires {newT, newDt} !! {speedTime, speedTarget, speedActual, rtTime, rtDt}
      modifies `ptrRt, `shownRt, rtTime, rtDt
      ensures Valid() && shownRt == LastN(old(shownRt) + batch, maxPoints)
    {
      ColumnOfWindow(shownRt, batch, RtTime, maxPoints);
      ColumnOfWindow(shownRt, batch, RtDt, maxPoints);
      Slide(rtTime, ptrRt, newT);
      Slide(rtDt, ptrRt, newDt);
      ptrRt := if ptrRt + newT.Length <= maxPoints then ptrRt + newT.Length else maxPoints;
      shownRt := LastN(shownRt + batch, maxPoints);
    }

    /** `update_speed_graph`: the queue is emptied into the graph.  More entries than the graph has room for are
        dropped beforehand, and that cannot be seen. */
    method UpdateSpeedGraph(isSpeedMode: bool)
      requires Valid()
      modifies `speedQueue, `ptrSpeed, `shown, speedTime, speedTarget, speedActual
      ensures Valid() && speedQueue == []
      ensures shown == LastN(old(shown) + Samples(old(speedQueue), startWall, isSpeedMode), maxPoints)
    {
      Trim();
      ghost var batch := Samples(speedQueue, startWall, isSpeedMode);
      TrimmedShowsSame(shown, old(speedQueue), startWall, isSpeedMode, maxPoints);
      if |speedQueue| == 0 {
        assert shown + batch == shown;
        return;
      }
      var newT, newTarget, newActual := Split(isSpeedMode);
      CopySpeed(newT, newTarget, newActual, batch);
    }

    method Trim()
      modifies `speedQueue
      ensures speedQueue == LastN(old(speedQueue), maxPoints)
    {
      var count := |speedQueue|;
      if count > maxPoints {
        for i := 0 to count - maxPoints
          invariant speedQueue == old(speedQueue)[i..]
        {
          speedQueue := speedQueue[1..];
        }
      }
    }

    /** The queue's entries, column by column */
    method Split(isSpeedMode: bool) returns (newT: array<real>, newTarget: array<real>, newActual: array<real>)
      modifies `speedQueue
      ensures fresh(newT) && fresh(newTarget) && fresh(newActual) && speedQueue == []
      ensures Aligned(newT[..], newTarget[..], newActual[..], Samples(old(speedQueue), startWall, isSpeedMode))
    {
      var count := |speedQueue|;
      newT, newTarget, newActual := new real[count], new real[count], new real[count];
      for i := 0 to count
        invariant speedQueue == old(speedQueue)[i..]
        invariant forall k :: 0 <= k < i ==> newT[k] == old(speedQueue)[k].wall - startWall
        invariant forall k :: 0 <= k < i ==> newTarget[k] == if isSpeedMode then old(speedQueue)[k].target else 0.0
        invariant forall k :: 0 <= k < i ==> newActual[k] == old(speedQueue)[k].actual
      {
        var e := speedQueue[0];
        speedQueue := speedQueue[1..];
        newT[i] := e.wall - startWall;
        newTarget[i] := if isSpeedMode then e.target else 0.0;
        newActual[i] := e.actual;
      }
      ghost var s := Samples(old(speedQueue), startWall, isSpeedMode);
      ColumnsOfSamples(old(speedQueue), startWall, isSpeedMode, newT[..], newTarget[..], newActual[..]);
    }

    /** `update_rt_graph`, which does the same for the timing graph */
    method UpdateRtGraph()
      requires Valid()
      modifies `rtQueue, `ptrRt, `shownRt, rtTime, rtDt
      ensures Valid() && rtQueue == []
      ensures shownRt == LastN(old(shownRt) + RtSamples(old(rtQueue), startWall), maxPoints)
    {
      TrimRt();
      ghost var batch := RtSamples(rtQueue, startWall);
      TrimmedRtShowsSame(shownRt, old(rtQueue), startWall, maxPoints);
      if |rtQueue| == 0 {
        assert shownRt + batch == shownRt;
        return;
      }
      var newT, newDt := SplitRt();
      CopyRt(newT, newDt, batch);
    }

    method TrimRt()
      modifies `rtQueue
      ensures rtQueue == LastN(old(rtQueue), maxPoints)
    {
      var count := |rtQueue|;
      if count > maxPoints {
        for i := 0 to count - maxPoints
          invariant rtQueue == old(rtQueue)[i..]
        {
          rtQueue := rtQueue[1..];
        }
      }
    }

    method SplitRt() returns (newT: array<real>, newDt: array<real>)
      modifies `rtQueue
      ensures fresh(newT) && fresh(newDt) && rtQueue == []
      ensures RtAligned(newT[..], newDt[..], RtSamples(old(rtQueue), startWall))
    {
      var count := |rtQueue|;
      newT, newDt := new real[count], new real[count];
      for i := 0 to count
        invariant rtQueue == old(rtQueue)[i..]
        invariant forall k :: 0 <= k < i ==> newT[k] == old(rtQueue)[k].wall - startWall && newDt[k] == old(rtQueue)[k].dt
      {
        var e := rtQueue[0];
        rtQueue := rtQueue[1..];
        newT[i] := e.wall - startWall;
        newDt[i] := e.dt;
      }
      ColumnsOfRtSamples(old(rtQueue), startWall, newT[..], newDt[..]);
    }
  }

  function RtSamples(queue: seq<RtEntry>, startWall: real): (s: seq<RtSample>)
    ensures |s| == |queue|
  {
    seq(|queue|, i requires 0 <= i < |queue| => RtSample(queue[i].wall - startWall, queue[i].dt))
  }

  lemma ColumnsOfRtSamples(queue: seq<RtEntry>, startWall: real, times: seq<real>, dts: seq<real>)
    requires |times| == |dts| == |queue|
    requires forall k :: 0 <= k < |queue| ==> times[k] == queue[k].wall - startWall && dts[k] == queue[k].dt
    ensures RtAligned(times, dts, RtSamples(queue, startWall))
  {
    var s := RtSamples(queue, startWall);
    forall k | 0 <= k < |queue| ensures times[k] == Column(s, RtTime)[k] && dts[k] == Column(s, RtDt)[k] {
      assert RtTime(s[k]) == times[k] && RtDt(s[k]) == dts[k];
    }
  }

  lemma TrimmedRtShowsSame(shown: seq<RtSample>, queue: seq<RtEntry>, startWall: real, n: nat)
    ensures LastN(shown + RtSamples(LastN(queue, n), startWall), n) == LastN(shown + RtSamples(queue, startWall), n)
  {
    assert RtSamples(LastN(queue, n), startWall) == LastN(RtSamples(queue, startWall), n);
    TrimmingChangesNothing(shown, RtSamples(queue, startWall), n);
  }

  function Samples(queue: seq<Entry>, startWall: real, isSpeedMode: bool): (s: seq<Sample>)
    ensures |s| == |queue|
  {
    seq(|queue|, i requires 0 <= i < |queue| =>
      Sample(queue[i].wall - startWall, if isSpeedMode then queue[i].target else 0.0, queue[i].actual))
  }

  lemma ColumnsOfSamples(queue: seq<Entry>, startWall: real, isSpeedMode: bool, times: seq<real>, targets: seq<real>, actuals: seq<real>)
    requires |times| == |targets| == |actuals| == |queue|
    requires forall k :: 0 <= k < |queue| ==> times[k] == queue[k].wall - startWall
    requires forall k :: 0 <= k < |queue| ==> targets[k] == if isSpeedMode then queue[k].target else 0.0
    requires forall k :: 0 <= k < |queue| ==> actuals[k] == queue[k].actual
    ensures Aligned(times, targets, actuals, Samples(queue, startWall, isSpeedMode))
  {
    var s := Samples(queue, startWall, isSpeedMode);
    forall k | 0 <= k < |queue|
      ensures times[k] == Column(s, Time)[k] && targets[k] == Column(s, Target)[k] && actuals[k] == Column(s, Actual)[k]
    {
      assert Time(s[k]) == times[k] && Target(s[k]) == targets[k] && Actual(s[k]) == actuals[k];
    }
  }

  lemma TrimmedShowsSame(shown: seq<Sample>, queue: seq<Entry>, startWall: real, isSpeedMode: bool, n: nat)
    ensures LastN(shown + Samples(LastN(queue, n), startWall, isSpeedMode), n)
            == LastN(shown + Samples(queue, startWall, isSpeedMode), n)
  {
    assert Samples(LastN(queue, n), startWall, isSpeedMode) == LastN(Samples(queue, startWall, isSpeedMode), n);
    TrimmingChangesNothing(shown, Samples(queue, startWall, isSpeedMode), n);
  }
}
