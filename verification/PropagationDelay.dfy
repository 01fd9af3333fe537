/** Why the delays computed by `DistributedClock.ConfigDc` are the physical ones: the loop over the
    flat slave list is followed along the wired tree. */
module PropagationDelay {
  import opened Bus
  import opened DistributedClock
  import Topology

  /** The slaves of `t` as the topology scan records them, the first one at position `base`. */
  ghost predicate Installed(slaves: seq<Slave>, t: Line, up: nat, base: nat) {
    t.Station? ==>
      && 1 <= base < |slaves|
      && slaves[base].hasdc == t.hasdc && slaves[base].topology == t.Links()
      && slaves[base].activeports == t.Active() && slaves[base].parent == up
      && Installed(slaves, t.l3, base, t.First3(base))
      && Installed(slaves, t.l1, base, t.First1(base))
      && Installed(slaves, t.l2, base, t.First2(base))
  }

  /** `x` holds the passage of the frame on the linked ports of `t`, in the slave's own clock.
      Registers of ports without a link may hold anything. */
  ghost predicate Stamped(x: PortTimes, t: Line, leave: int)
    requires t.Station?
  {
    && x.a == t.offset + t.At0(leave)
    && (t.l3.Station? ==> x.d == t.offset + t.At3(leave))
    && (t.l1.Station? ==> x.b == t.offset + t.At1(leave))
    && (t.l2.Station? ==> x.c == t.offset + t.At2(leave))
  }

  /** Every slave with a clock has latched the frame that left for `t` at time `leave`. */
  ghost predicate Latched(latched: seq<PortTimes>, t: Line, leave: int, base: nat) {
    t.Station? ==>
      && base < |latched| && (t.hasdc ==> Stamped(latched[base], t, leave))
      && Latched(latched, t.l3, t.At0(leave), t.First3(base))
      && Latched(latched, t.l1, t.At3(leave), t.First1(base))
      && Latched(latched, t.l2, t.At1(leave), t.First2(base))
  }

  /** Each slave with a clock holds the time from `origin` to the frame's arrival there. */
  ghost predicate Measured(slaves: seq<Slave>, t: Line, leave: int, base: nat, origin: int) {
    t.Station? ==>
      && base < |slaves| && (t.hasdc ==> slaves[base].pdelay == t.At0(leave) - origin)
      && Measured(slaves, t.l3, t.At0(leave), t.First3(base), origin)
      && Measured(slaves, t.l1, t.At3(leave), t.First1(base), origin)
      && Measured(slaves, t.l2, t.At1(leave), t.First2(base), origin)
  }

  lemma {:induction false} NothingToMeasure(slaves: seq<Slave>, t: Line, leave: int, base: nat, origin: int)
    requires !t.Clocked() && base + t.Size() <= |slaves|
    ensures Measured(slaves, t, leave, base, origin)
  {
    if t.Station? {
      NothingToMeasure(slaves, t.l3, t.At0(leave), t.First3(base), origin);
      NothingToMeasure(slaves, t.l1, t.At3(leave), t.First1(base), origin);
      NothingToMeasure(slaves, t.l2, t.At1(leave), t.First2(base), origin);
    }
  }

  // ----- one slave -----

  lemma EntersAtPort0(x: PortTimes, t: Line, leave: int)
    requires t.Station? && Stamped(x, t, leave)
    ensures EntryPort(t.Active(), x) == 0
  {
    assert t.At0(leave) <= t.At3(leave) <= t.At1(leave) <= t.At2(leave);
  }

  /** The time between entering a slave and its last branch coming back. */
  lemma RoundTime(x: PortTimes, t: Line, leave: int)
    requires t.Station? && t.Links() > 1 && Stamped(x, t, leave)
    ensures PortTime(x, PrevPort(t.Active(), 0)) - x.a == t.At2(leave) - t.At0(leave)
  {
  }

  /** The branch on port `p`, its first list position, and when the frame leaves for it. */
  function LineAt(t: Line, p: Port): (l: Line)
    requires t.Station? && p > 0
    ensures l < t
  {
    if p == 3 then t.l3 else if p == 1 then t.l1 else t.l2
  }

  function FirstAt(t: Line, p: Port, base: nat): nat
    requires t.Station? && p > 0
  {
    if p == 3 then t.First3(base) else if p == 1 then t.First1(base) else t.First2(base)
  }

  function LeaveAt(t: Line, p: Port, leave: int): int
    requires t.Station? && p > 0
  {
    if p == 3 then t.At0(leave) else if p == 1 then t.At3(leave) else t.At1(leave)
  }

  /** The stamps of a port and of the active port before it enclose the stay in that branch. */
  lemma BranchStamps(x: PortTimes, t: Line, p: Port, leave: int)
    requires t.Station? && p > 0 && LineAt(t, p).Station? && Stamped(x, t, leave)
    ensures PortTime(x, PrevPort(t.Active(), p)) == t.offset + LeaveAt(t, p, leave)
    ensures PortTime(x, p) == t.offset + LineAt(t, p).Back(LeaveAt(t, p, leave))
    ensures t.At0(leave) <= LeaveAt(t, p, leave)
    ensures FirstAt(t, p, 0) <= 1 ==> LeaveAt(t, p, leave) == t.At0(leave)
  {
  }

  // ----- which wirings are measured right -----

  function PortAfter(p: Port): Port {
    if p == 3 then 1 else if p == 1 then 2 else 0
  }

  function Rank(p: Port): nat {
    if p == 3 then 3 else if p == 1 then 2 else if p == 2 then 1 else 0
  }

  /** A branch that has no clock but splits does not give up the port it hangs on. */
  predicate Keeps(t: Line) { t.Station? && !t.Clocked() && t.Split() }

  /** A branch before port `p` has not given up its port. */
  predicate Kept(t: Line, p: Port)
    requires t.Station? && p > 0
  {
    (p != 3 && Keeps(t.l3)) || (p == 2 && Keeps(t.l1))
  }

  /** Downstream of a clock: only slaves with a clock split the way to a clock, and no port that a branch without
      one has kept is in the way. */
  predicate InLine(t: Line) {
    t.Clocked() ==>
      && (if t.hasdc then (t.l1.Clocked() ==> !Kept(t, 1)) && (t.l2.Clocked() ==> !Kept(t, 2)) else t.Links() == 2)
      && InLine(t.l3) && InLine(t.l1) && InLine(t.l2)
  }

  /** Upstream of all clocks a slave without one may split the line, as long as all clocks are on one branch. */
  predicate OneClocked(t: Line)
    requires t.Station?
  {
    !(t.l3.Clocked() && t.l1.Clocked()) && !(t.l3.Clocked() && t.l2.Clocked()) && !(t.l1.Clocked() && t.l2.Clocked())
  }

  predicate WellPlaced(t: Line) {
    t.Clocked() ==>
      if t.hasdc then InLine(t) else OneClocked(t) && WellPlaced(t.l3) && WellPlaced(t.l1) && WellPlaced(t.l2)
  }

  // ----- the first clock of a line -----

  /** The first branch with a clock on it */
  function ClockPort(t: Line): (p: Port)
    requires t.Station? && t.Clocked() && !t.hasdc
    ensures p > 0 && LineAt(t, p).Clocked() && t.Links() >= 2
  {
    if t.l3.Clocked() then 3 else if t.l1.Clocked() then 1 else 2
  }

  function FirstClock(t: Line): (f: Line)
    requires t.Clocked()
    ensures f.Station? && f.hasdc
  {
    if t.hasdc then t else FirstClock(LineAt(t, ClockPort(t)))
  }

  function FirstPos(t: Line, base: nat): (f: nat)
    requires t.Clocked()
    ensures base <= f && f + FirstClock(t).Size() <= base + t.Size()
  {
    if t.hasdc then base else FirstPos(LineAt(t, ClockPort(t)), FirstAt(t, ClockPort(t), base))
  }

  /** When the frame leaves for the first clock, and when it gets there */
  function FirstLeave(t: Line, leave: int): int
    requires t.Clocked()
  {
    if t.hasdc then leave else FirstLeave(LineAt(t, ClockPort(t)), LeaveAt(t, ClockPort(t), leave))
  }

  function FirstArrival(t: Line, leave: int): int {
    if t.Clocked() then FirstClock(t).At0(FirstLeave(t, leave)) else leave
  }

  /** The way to the first clock is that to the first clock of the branch it is on. */
  lemma FirstArrivalOfBranch(t: Line, leave: int)
    requires t.Clocked() && !t.hasdc
    ensures FirstArrival(t, leave) == FirstArrival(LineAt(t, ClockPort(t)), LeaveAt(t, ClockPort(t), leave))
  {
  }

  lemma {:induction false} FirstClockPlaced(w: seq<Slave>, latched: seq<PortTimes>, slaves: seq<Slave>, t: Line, up: nat, base: nat, leave: int, origin: int)
    requires t.Clocked() && Installed(w, t, up, base) && Latched(latched, t, leave, base)
    ensures var f := FirstPos(t, base);
      && f < |w| && Installed(w, FirstClock(t), w[f].parent, f) && Latched(latched, FirstClock(t), FirstLeave(t, leave), f)
      && (Measured(slaves, t, leave, base, origin) ==> Measured(slaves, FirstClock(t), FirstLeave(t, leave), f, origin))
    decreases t
  {
    if !t.hasdc {
      var q := ClockPort(t);
      FirstClockPlaced(w, latched, slaves, LineAt(t, q), base, FirstAt(t, q, base), LeaveAt(t, q, leave), origin);
    }
  }

  // How long the frame is on the way to the first clock, in the side branches before it and in those after it, and
  // how long it stays in the branches of that clock itself.

  function Path(t: Line): nat
    requires t.Clocked()
  {
    t.delay + if t.hasdc then 0 else Path(LineAt(t, ClockPort(t)))
  }

  function Early(t: Line, leave: int): (e: int)
    requires t.Clocked()
    ensures e >= 0
  {
    if t.hasdc then 0
    else LeaveAt(t, ClockPort(t), leave) - t.At0(leave) + Early(LineAt(t, ClockPort(t)), LeaveAt(t, ClockPort(t), leave))
  }

  function Late(t: Line, leave: int): (l: int)
    requires t.Clocked()
    ensures l >= 0
  {
    if t.hasdc then 0
    else
      var q := ClockPort(t);
      Late(LineAt(t, q), LeaveAt(t, q, leave)) + t.At2(leave) - LineAt(t, q).Back(LeaveAt(t, q, leave))
  }

  function Stay(t: Line, leave: int): (s: int)
    requires t.Station?
    ensures s >= 0 && (t.Links() == 1 ==> s == 0)
  {
    t.At2(leave) - t.At0(leave)
  }

  lemma {:induction false} WayToFirstClock(t: Line, leave: int)
    requires t.Clocked()
    ensures FirstArrival(t, leave) == leave + Path(t) + Early(t, leave)
    ensures t.Back(leave) == leave + 2 * Path(t) + Early(t, leave) + Late(t, leave) + Stay(FirstClock(t), FirstLeave(t, leave))
    decreases t
  {
    if !t.hasdc {
      WayToFirstClock(LineAt(t, ClockPort(t)), LeaveAt(t, ClockPort(t), leave));
    }
  }

  /** Slave `s` (with a clock) hands the frame to `t`, which hangs on its first unconsumed port `p`; `first` says that
      this is its first branch. */
  ghost predicate Feeds(s: Slave, p: Port, first: bool, t: Line, leave: int, origin: int) {
    var left := PortTime(s.dcrt, PrevPort(s.activeports, p));
    && s.entryport == 0 && s.topology > 1 && FirstPort(s.consumedports) == p
    && s.dcrt.a <= left && (first ==> left == s.dcrt.a)
    && PortTime(s.dcrt, p) - left == t.Back(leave) - leave
    && s.pdelay + (left - s.dcrt.a) == leave - origin
  }

  lemma HalfOfSum(path: nat, rest: nat)
    ensures Half(2 * path + rest) == path + rest / 2
  {
  }

  /** The delay computed from the times of a frame that entered at port 0 */
  lemma DelayFromTimes(s: Slave, x: PortTimes, parent: Slave, p: Port, f: Line, at: int, later: bool)
    requires f.Station? && Stamped(x, f, at) && s.topology == f.Links() && s.activeports == f.Active()
    ensures var left := PortTime(parent.dcrt, PrevPort(parent.activeports, p));
      var way, dt2 := PortTime(parent.dcrt, p) - left, if later then left - PortTime(parent.dcrt, parent.entryport) else 0;
      Stay(f, at) <= way && dt2 >= 0
      ==> Delay(Latch(s, x), Consume(parent), p, later) == Half(way - Stay(f, at)) + dt2 + parent.pdelay
  {
    EntersAtPort0(x, f, at);
    if f.Links() > 1 { RoundTime(x, f, at); }
  }

  /** The delay computed for the first clock of a branch is right if and only if the frame spends the same time, up
      to rounding, in the side branches before it and after it. */
  lemma RightIffEarlyIsLate(s: Slave, x: PortTimes, parent: Slave, p: Port, t: Line, leave: int, origin: int, later: bool)
    requires t.Clocked() && Stamped(x, FirstClock(t), FirstLeave(t, leave))
    requires s.topology == FirstClock(t).Links() && s.activeports == FirstClock(t).Active()
    requires Feeds(parent, p, !later, t, leave, origin)
    ensures Delay(Latch(s, x), Consume(parent), p, later) == FirstArrival(t, leave) - origin
            <==> Late(t, leave) == Early(t, leave) || Late(t, leave) == Early(t, leave) + 1
  {
    var f, at := FirstClock(t), FirstLeave(t, leave);
    WayToFirstClock(t, leave);
    DelayFromTimes(s, x, parent, p, f, at, later);
    HalfOfSum(Path(t), Early(t, leave) + Late(t, leave));
    assert t.Back(leave) - leave - Stay(f, at) == 2 * Path(t) + (Early(t, leave) + Late(t, leave));
  }

  // ----- runs -----

  /** A whole run from the beginning */
  ghost predicate Started(w: seq<Slave>, latched: seq<PortTimes>, trace: seq<State>) {
    Run(w, latched, trace) && trace[1] == State(w, 0)
  }

  /** What is not yet visited is as it was. */
  lemma {:induction false} Unvisited(w: seq<Slave>, latched: seq<PortTimes>, trace: seq<State>, i: nat, k: nat)
    requires Started(w, latched, trace) && 1 <= i <= k < |w|
    ensures trace[i].parenthold < i && |trace[i].slaves| == |w| && trace[i].slaves[k] == w[k]
  {
    if i > 1 {
      Unvisited(w, latched, trace, i - 1, k);
      assert StepAt(trace, latched, i - 1) && StateAt(w, trace, i - 1);
    }
  }

  lemma HoldIsBehind(w: seq<Slave>, latched: seq<PortTimes>, trace: seq<State>, i: nat)
    requires Started(w, latched, trace) && 1 <= i < |w|
    ensures trace[i].parenthold < i && |trace[i].slaves| == |w|
  {
    Unvisited(w, latched, trace, i, i);
  }

  /** A delay is computed once. */
  lemma {:induction false} DelayStays(w: seq<Slave>, latched: seq<PortTimes>, trace: seq<State>, i: nat, k: nat)
    requires Started(w, latched, trace) && 1 <= k < i <= |w|
    ensures |trace[i].slaves| == |trace[k + 1].slaves| == |w| && trace[i].slaves[k].pdelay == trace[k + 1].slaves[k].pdelay
    decreases i
  {
    assert StateAt(w, trace, i);
    if i > k + 1 {
      DelayStays(w, latched, trace, i - 1, k);
      HoldIsBehind(w, latched, trace, i - 1);
      assert StepAt(trace, latched, i - 1) && StateAt(w, trace, i - 1);
    }
  }

  /** The slave whose port is given up when the slaves plugged into `up` come to an end without a clock */
  ghost function Holder(w: seq<Slave>, up: nat, hold: nat): nat
    requires up < |w|
  {
    if up > 0 && w[up].topology > 2 then up else hold
  }

  lemma PlainStep(w: seq<Slave>, latched: seq<PortTimes>, trace: seq<State>, t: Line, up: nat, base: nat)
    requires Started(w, latched, trace) && t.Station? && !t.hasdc && Installed(w, t, up, base) && up < base
    ensures var st, r := trace[base], trace[base + 1];
      var h := Holder(w, up, st.parenthold);
      && |st.slaves| == |r.slaves| == |w| && r.parenthold == (if t.Links() == 1 then 0 else h)
      && forall k :: 1 <= k < base ==> r.slaves[k] == if k == h && t.Links() == 1 then Consume(st.slaves[k]) else st.slaves[k]
  {
    assert StepAt(trace, latched, base) && StateAt(w, trace, base) && StateAt(w, trace, base + 1);
    assert SameWiring(trace[base].slaves[base], w[base]);
    if up > 0 { assert SameWiring(trace[base].slaves[up], w[up]); }
  }

  /** What a branch without a clock leaves of the slaves before it */
  ghost predicate Passed(st: State, r: State, w: seq<Slave>, t: Line, up: nat, base: nat)
    requires up < |w|
  {
    if t.Stop? then r == st
    else
      && r.parenthold == 0 && base <= |st.slaves| == |r.slaves|
      && forall k :: 1 <= k < base ==>
           r.slaves[k] == if k == Holder(w, up, st.parenthold) && !t.Split() then Consume(st.slaves[k]) else st.slaves[k]
  }

  lemma {:induction false} ClocklessVisited(w: seq<Slave>, latched: seq<PortTimes>, trace: seq<State>, t: Line, up: nat, base: nat)
    requires Started(w, latched, trace) && !t.Clocked() && Installed(w, t, up, base)
    requires 1 <= base && base + t.Size() <= |w| && up < base
    ensures Passed(trace[base], trace[base + t.Size()], w, t, up, base)
    decreases t
  {
    if t.Station? {
      PlainStep(w, latched, trace, t, up, base);
      ClocklessVisited(w, latched, trace, t.l3, base, t.First3(base));
      ClocklessVisited(w, latched, trace, t.l1, base, t.First1(base));
      ClocklessVisited(w, latched, trace, t.l2, base, t.First2(base));
      BranchesPassed(trace[base], trace[base + 1], trace[t.First1(base)], trace[t.First2(base)], trace[base + t.Size()], w, t, up, base);
    }
  }

  lemma BranchesPassed(st: State, a: State, b: State, c: State, r: State, w: seq<Slave>, t: Line, up: nat, base: nat)
    requires t.Station? && !t.hasdc && up < base < |w| == |st.slaves| && w[base].topology == t.Links() && base >= 1
    requires var h := Holder(w, up, st.parenthold);
      && |a.slaves| == |w| && a.parenthold == (if t.Links() == 1 then 0 else h)
      && forall k :: 1 <= k < base ==> a.slaves[k] == if k == h && t.Links() == 1 then Consume(st.slaves[k]) else st.slaves[k]
    requires Passed(a, b, w, t.l3, base, t.First3(base)) && Passed(b, c, w, t.l1, base, t.First1(base))
    requires Passed(c, r, w, t.l2, base, t.First2(base))
    ensures Passed(st, r, w, t, up, base)
  {
  }

  /** Nothing before position `n` differs. */
  ghost predicate SameBefore(a: State, b: State, n: nat) {
    n <= |a.slaves| == |b.slaves| && forall k :: 1 <= k < n ==> a.slaves[k] == b.slaves[k]
  }

  /** Side branches before the one with the first clock do not touch what is upstream of the slave they hang on. */
  lemma SideBranchesPassed(w: seq<Slave>, latched: seq<PortTimes>, trace: seq<State>, t: Line, up: nat, base: nat)
    requires Started(w, latched, trace) && t.Clocked() && !t.hasdc && Installed(w, t, up, base)
    requires 1 <= base && base + t.Size() <= |w| && up < base
    ensures SameBefore(trace[FirstAt(t, ClockPort(t), base)], trace[base], base)
  {
    var q := ClockPort(t);
    PlainStep(w, latched, trace, t, up, base);
    assert SameBefore(trace[base + 1], trace[base], base);
    if q != 3 {
      ClocklessVisited(w, latched, trace, t.l3, base, t.First3(base));
      assert SameBefore(trace[t.First1(base)], trace[base + 1], base);
    }
    if q == 2 {
      ClocklessVisited(w, latched, trace, t.l1, base, t.First1(base));
      assert SameBefore(trace[t.First2(base)], trace[t.First1(base)], base);
    }
  }

  /** Whatever comes before the first clock of a branch, the slaves upstream of the branch are as they were when that
      clock is visited. */
  lemma {:induction false} FirstClockReached(w: seq<Slave>, latched: seq<PortTimes>, trace: seq<State>, t: Line, up: nat, base: nat)
    requires Started(w, latched, trace) && t.Clocked() && Installed(w, t, up, base)
    requires 1 <= base && base + t.Size() <= |w| && up < base
    ensures var f := FirstPos(t, base);
      && f < |w| && w[f].hasdc && DcParent(w, f) == DcParent(w, base) && |trace[base].slaves| == |w|
      && SameBefore(trace[f], trace[base], base)
    decreases t
  {
    HoldIsBehind(w, latched, trace, base);
    if !t.hasdc {
      var q := ClockPort(t);
      SideBranchesPassed(w, latched, trace, t, up, base);
      FirstClockReached(w, latched, trace, LineAt(t, q), base, FirstAt(t, q, base));
    }
  }

  // ----- visiting the first clock of a branch -----

  /** State of a slave with a clock while its branches are visited. */
  ghost predicate Ready(s: Slave, t: Line, leave: int, origin: int)
    requires t.Station?
  {
    && s.activeports == t.Active() && s.topology == t.Links() && s.entryport == 0
    && Stamped(s.dcrt, t, leave) && s.pdelay == t.At0(leave) - origin
  }

  /** Which ports are unconsumed when the branch on port `p` is about to be visited: those of all branches still to
      come, and one of an earlier branch if one was kept. */
  ghost predicate Awaits(s: Slave, t: Line, p: Port)
    requires t.Station?
  {
    match p
    case 3 => s.consumedports == Ports(false, t.l1.Station?, t.l2.Station?, t.l3.Station?)
    case 1 =>
      var c := s.consumedports;
      !c.p0 && c.p1 == t.l1.Station? && c.p2 == t.l2.Station? && (c.p3 ==> t.l3.Station?)
      && (t.l1.Station? || t.l2.Station? ==> c.p3 == Keeps(t.l3))
    case 2 =>
      var c := s.consumedports;
      !c.p0 && c.p2 == t.l2.Station? && (c.p1 ==> t.l1.Station?) && (c.p3 ==> t.l3.Station?)
      && (t.l2.Station? ==> ((c.p3 || c.p1) <==> Kept(t, 2)))
    case 0 => true
  }

  /** The slave at `base` is about to have the branch on `port` visited. */
  ghost predicate AtPort(st: State, t: Line, base: nat, port: Port, leave: int, origin: int)
    requires t.Station?
  {
    && st.parenthold == 0 && base < |st.slaves|
    && Ready(st.slaves[base], t, leave, origin) && Awaits(st.slaves[base], t, port)
  }

  /** A branch with a clock on it hangs on slave `p`, which also has one; `base` is where the branch starts. */
  ghost predicate Hangs(w: seq<Slave>, t: Line, p: nat, base: nat) {
    t.Clocked() && Installed(w, t, p, base) && 1 <= p < base && base + t.Size() <= |w| && w[p].hasdc
  }

  /** Running through a whole branch of slave `p` leaves one of its ports consumed. */
  ghost predicate BranchDone(r: State, st: State, p: nat, base: nat) {
    && r.parenthold == 0 && base <= |st.slaves| == |r.slaves|
    && forall k :: 1 <= k < base ==> r.slaves[k] == if k == p then Consume(st.slaves[k]) else st.slaves[k]
  }

  /** The first clock of a branch has been visited: one port of the slave upstream is consumed, and the delay is the
      one computed with that port. */
  lemma FirstClockVisited(w: seq<Slave>, latched: seq<PortTimes>, trace: seq<State>, t: Line, p: nat, base: nat)
    requires Started(w, latched, trace) && Hangs(w, t, p, base)
    ensures var f := FirstPos(t, base);
      && |trace[f + 1].slaves| == |w| && BranchDone(trace[f + 1], trace[base], p, base)
      && var u := trace[base].slaves[p];
         var port := if u.topology == 1 then u.entryport else FirstPort(u.consumedports);
         trace[f + 1].slaves[f] == Latch(w[f], latched[f]).(parentport := port,
           pdelay := Delay(Latch(w[f], latched[f]), Consume(u), port, base - p > 1))
  {
    var f := FirstPos(t, base);
    FirstClockReached(w, latched, trace, t, p, base);
    Unvisited(w, latched, trace, f, f);
    assert StepAt(trace, latched, f) && StateAt(w, trace, f) && StateAt(w, trace, f + 1);
    DcParentLocal(trace[f].slaves, w, f);
  }

  /** In terms of the times: right if and only if early is late. */
  lemma FirstDelayRightIff(w: seq<Slave>, latched: seq<PortTimes>, trace: seq<State>, t: Line, p: nat, base: nat,
                           port: Port, leave: int, origin: int)
    requires Started(w, latched, trace) && Hangs(w, t, p, base) && Latched(latched, t, leave, base)
    requires p < |trace[base].slaves| && Feeds(trace[base].slaves[p], port, base - p <= 1, t, leave, origin)
    ensures var f := FirstPos(t, base);
      && f < |trace[f + 1].slaves|
      && (trace[f + 1].slaves[f].pdelay == FirstArrival(t, leave) - origin
          <==> Late(t, leave) == Early(t, leave) || Late(t, leave) == Early(t, leave) + 1)
  {
    var f := FirstPos(t, base);
    FirstClockPlaced(w, latched, w, t, p, base, leave, origin);
    FirstClockVisited(w, latched, trace, t, p, base);
    RightIffEarlyIsLate(w[f], latched[f], trace[base].slaves[p], port, t, leave, origin, base - p > 1);
  }

  /** Then its own branches come next. */
  lemma FirstClockReady(w: seq<Slave>, latched: seq<PortTimes>, trace: seq<State>, t: Line, p: nat, base: nat,
                        port: Port, leave: int, origin: int)
    requires Started(w, latched, trace) && Hangs(w, t, p, base) && Latched(latched, t, leave, base)
    requires p < |trace[base].slaves| && Feeds(trace[base].slaves[p], port, base - p <= 1, t, leave, origin)
    requires Late(t, leave) == Early(t, leave) == 0
    ensures AtPort(trace[FirstPos(t, base) + 1], FirstClock(t), FirstPos(t, base), 3, FirstLeave(t, leave), origin)
  {
    var f := FirstPos(t, base);
    FirstClockPlaced(w, latched, w, t, p, base, leave, origin);
    FirstClockVisited(w, latched, trace, t, p, base);
    FirstDelayRightIff(w, latched, trace, t, p, base, port, leave, origin);
    EntersAtPort0(latched[f], FirstClock(t), FirstLeave(t, leave));
  }

  // ----- ways without side branches -----

  /** No slave without a clock splits the way to the first clock. */
  predicate Straight(t: Line)
    requires t.Clocked()
  {
    t.hasdc || (t.Links() == 2 && Straight(LineAt(t, ClockPort(t))))
  }

  lemma {:induction false} StraightWay(t: Line, leave: int, base: nat)
    requires t.Clocked() && Straight(t)
    ensures Late(t, leave) == Early(t, leave) == 0 && FirstPos(t, base) + FirstClock(t).Size() == base + t.Size()
    ensures InLine(t) <==> InLine(FirstClock(t))
    decreases t
  {
    if !t.hasdc {
      var q := ClockPort(t);
      StraightWay(LineAt(t, q), LeaveAt(t, q, leave), FirstAt(t, q, base));
    }
  }

  lemma {:induction false} InLineIsStraight(t: Line)
    requires t.Clocked() && InLine(t)
    ensures Straight(t)
    decreases t
  {
    if !t.hasdc {
      InLineIsStraight(LineAt(t, ClockPort(t)));
    }
  }

  /** When all that is behind the first clock of a straight way is measured, so is the whole. */
  lemma {:induction false} MeasuredBehind(slaves: seq<Slave>, t: Line, leave: int, base: nat, origin: int)
    requires t.Clocked() && Straight(t) && base + t.Size() <= |slaves|
    requires Measured(slaves, FirstClock(t), FirstLeave(t, leave), FirstPos(t, base), origin)
    ensures Measured(slaves, t, leave, base, origin)
    decreases t
  {
    if !t.hasdc {
      var q := ClockPort(t);
      MeasuredBehind(slaves, LineAt(t, q), LeaveAt(t, q, leave), FirstAt(t, q, base), origin);
    }
  }

  // ----- the branches of a slave with a clock -----

  /** The branch on port `p` can be measured and its port is not in use for an earlier one. */
  predicate PortFine(t: Line, p: Port)
    requires t.Station? && p > 0
  {
    InLine(LineAt(t, p)) && (LineAt(t, p).Clocked() ==> !Kept(t, p))
  }

  /** What the branch on port `p` leaves of the slave at `base` and those before it */
  ghost predicate PortDone(st: State, r: State, t: Line, base: nat, p: Port)
    requires t.Station? && p > 0
  {
    && r.parenthold == 0 && SameBefore(r, st, base) && base < |r.slaves|
    && var b := LineAt(t, p);
       r.slaves[base] == if b.Clocked() || (b.Station? && t.Links() > 2 && !b.Split()) then Consume(st.slaves[base]) else st.slaves[base]
  }

  lemma PortGivenUp(st: State, r: State, t: Line, base: nat, p: Port, leave: int, origin: int)
    requires t.Station? && p > 0 && AtPort(st, t, base, p, leave, origin) && PortFine(t, p) && PortDone(st, r, t, base, p)
    ensures AtPort(r, t, base, PortAfter(p), leave, origin)
  {
  }

  /** The port whose turn it is feeds its branch. */
  lemma PortFeeds(st: State, t: Line, base: nat, p: Port, leave: int, origin: int)
    requires t.Station? && p > 0 && AtPort(st, t, base, p, leave, origin) && LineAt(t, p).Clocked() && !Kept(t, p)
    ensures Feeds(st.slaves[base], p, FirstAt(t, p, base) - base <= 1, LineAt(t, p), LeaveAt(t, p, leave), origin)
  {
    BranchStamps(st.slaves[base].dcrt, t, p, leave);
  }

  ghost function EndAt(t: Line, p: Port, base: nat): nat
    requires t.Station? && p > 0
  {
    FirstAt(t, p, base) + LineAt(t, p).Size()
  }

  /** A slave with a clock, at position `base` of the list */
  ghost predicate Placed(w: seq<Slave>, latched: seq<PortTimes>, trace: seq<State>, t: Line, base: nat, leave: int) {
    && Started(w, latched, trace) && t.Clocked() && t.hasdc && 1 <= base && base + t.Size() <= |w|
    && Installed(w, t, w[base].parent, base) && Latched(latched, t, leave, base)
  }

  /** The first clock of a straight branch has been visited with the right result. */
  lemma StraightBranchEntered(w: seq<Slave>, latched: seq<PortTimes>, trace: seq<State>, t: Line, p: nat, base: nat,
                              port: Port, leave: int, origin: int)
    requires Started(w, latched, trace) && Hangs(w, t, p, base) && Latched(latched, t, leave, base) && Straight(t)
    requires p < |trace[base].slaves| && Feeds(trace[base].slaves[p], port, base - p <= 1, t, leave, origin)
    ensures var f, first, at := FirstPos(t, base), FirstClock(t), FirstLeave(t, leave);
      && Placed(w, latched, trace, first, f, at) && AtPort(trace[f + 1], first, f, 3, at, origin)
      && f + first.Size() == base + t.Size() && (first == t || first < t)
  {
    StraightWay(t, leave, base);
    FirstClockPlaced(w, latched, w, t, p, base, leave, origin);
    FirstClockReady(w, latched, trace, t, p, base, port, leave, origin);
    FirstClockSmaller(t);
  }

  lemma {:induction false} BranchMeasured(w: seq<Slave>, latched: seq<PortTimes>, trace: seq<State>, t: Line, p: nat,
                                          base: nat, port: Port, leave: int, origin: int)
    requires Started(w, latched, trace) && Hangs(w, t, p, base) && Latched(latched, t, leave, base) && InLine(t)
    requires p < |trace[base].slaves| && Feeds(trace[base].slaves[p], port, base - p <= 1, t, leave, origin)
    ensures BranchDone(trace[base + t.Size()], trace[base], p, base)
    ensures Measured(trace[|w|].slaves, t, leave, base, origin)
    decreases t, 4
  {
    var f, first, at := FirstPos(t, base), FirstClock(t), FirstLeave(t, leave);
    InLineIsStraight(t);
    StraightWay(t, leave, base);
    StraightBranchEntered(w, latched, trace, t, p, base, port, leave, origin);
    ClockMeasured(w, latched, trace, first, f, at, origin);
    StraightBranchDone(w, latched, trace, t, p, base, leave, origin);
  }

  /** What the slaves behind the first clock leave alone is as that clock left it. */
  lemma StraightBranchDone(w: seq<Slave>, latched: seq<PortTimes>, trace: seq<State>, t: Line, p: nat, base: nat, leave: int, origin: int)
    requires Started(w, latched, trace) && Hangs(w, t, p, base) && Straight(t)
    requires var f, r := FirstPos(t, base), trace[base + t.Size()];
      && f + 1 < |trace| && base <= f && r.parenthold == 0 && SameBefore(r, trace[f + 1], f)
      && Measured(trace[|w|].slaves, FirstClock(t), FirstLeave(t, leave), f, origin)
    ensures BranchDone(trace[base + t.Size()], trace[base], p, base)
    ensures Measured(trace[|w|].slaves, t, leave, base, origin)
  {
    FirstClockVisited(w, latched, trace, t, p, base);
    assert StateAt(w, trace, |w|);
    MeasuredBehind(trace[|w|].slaves, t, leave, base, origin);
  }

  lemma {:induction false} FirstClockSmaller(t: Line)
    requires t.Clocked()
    ensures FirstClock(t) == t || FirstClock(t) < t
    decreases t
  {
    if !t.hasdc {
      FirstClockSmaller(LineAt(t, ClockPort(t)));
    }
  }

  /** A slave with a clock whose own delay is right, and all its branches */
  lemma {:induction false} ClockMeasured(w: seq<Slave>, latched: seq<PortTimes>, trace: seq<State>, t: Line, base: nat, leave: int, origin: int)
    requires Placed(w, latched, trace, t, base, leave) && InLine(t) && AtPort(trace[base + 1], t, base, 3, leave, origin)
    ensures var r := trace[base + t.Size()];
      r.parenthold == 0 && SameBefore(r, trace[base + 1], base) && Measured(trace[|w|].slaves, t, leave, base, origin)
    decreases t, 3
  {
    PortsMeasured(w, latched, trace, t, base, 3, leave, origin);
    DelayStays(w, latched, trace, |w|, base);
    assert MeasuredFrom(trace[|w|].slaves, t, 1, leave, base, origin);
  }

  /** All branches from port `p` on are measured. */
  ghost predicate MeasuredFrom(slaves: seq<Slave>, t: Line, p: Port, leave: int, base: nat, origin: int)
    requires t.Station?
    decreases Rank(p)
  {
    p == 0 ||
    (Measured(slaves, LineAt(t, p), LeaveAt(t, p, leave), FirstAt(t, p, base), origin)
     && MeasuredFrom(slaves, t, PortAfter(p), leave, base, origin))
  }

  /** The branches of a slave with a clock, from the one on `port` on */
  lemma {:induction false} PortsMeasured(w: seq<Slave>, latched: seq<PortTimes>, trace: seq<State>, t: Line, base: nat,
                                         port: Port, leave: int, origin: int)
    requires Placed(w, latched, trace, t, base, leave) && InLine(t) && port > 0
    requires AtPort(trace[FirstAt(t, port, base)], t, base, port, leave, origin)
    ensures var r := trace[base + t.Size()];
      && r.parenthold == 0 && SameBefore(r, trace[FirstAt(t, port, base)], base)
      && MeasuredFrom(trace[|w|].slaves, t, port, leave, base, origin)
    decreases t, 2, Rank(port)
  {
    PortMeasured(w, latched, trace, t, base, port, leave, origin);
    if port != 2 {
      PortsMeasured(w, latched, trace, t, base, PortAfter(port), leave, origin);
    }
  }

  lemma {:induction false} PortMeasured(w: seq<Slave>, latched: seq<PortTimes>, trace: seq<State>, t: Line, base: nat,
                                        port: Port, leave: int, origin: int)
    requires Placed(w, latched, trace, t, base, leave) && port > 0 && PortFine(t, port)
    requires AtPort(trace[FirstAt(t, port, base)], t, base, port, leave, origin)
    ensures var st, r := trace[FirstAt(t, port, base)], trace[EndAt(t, port, base)];
      && AtPort(r, t, base, PortAfter(port), leave, origin) && SameBefore(r, st, base)
      && Measured(trace[|w|].slaves, LineAt(t, port), LeaveAt(t, port, leave), FirstAt(t, port, base), origin)
    decreases t, 1
  {
    if LineAt(t, port).Clocked() {
      ClockedPort(w, latched, trace, t, base, port, leave, origin);
    } else {
      ClocklessPort(w, latched, trace, t, base, port, leave, origin);
    }
    PortGivenUp(trace[FirstAt(t, port, base)], trace[EndAt(t, port, base)], t, base, port, leave, origin);
  }

  lemma {:induction false} ClockedPort(w: seq<Slave>, latched: seq<PortTimes>, trace: seq<State>, t: Line, base: nat,
                                       port: Port, leave: int, origin: int)
    requires Placed(w, latched, trace, t, base, leave) && port > 0 && PortFine(t, port) && LineAt(t, port).Clocked()
    requires AtPort(trace[FirstAt(t, port, base)], t, base, port, leave, origin)
    ensures PortDone(trace[FirstAt(t, port, base)], trace[EndAt(t, port, base)], t, base, port)
    ensures Measured(trace[|w|].slaves, LineAt(t, port), LeaveAt(t, port, leave), FirstAt(t, port, base), origin)
    decreases t, 0
  {
    var first := FirstAt(t, port, base);
    PortFeeds(trace[first], t, base, port, leave, origin);
    BranchMeasured(w, latched, trace, LineAt(t, port), base, first, port, LeaveAt(t, port, leave), origin);
  }

  lemma ClocklessPort(w: seq<Slave>, latched: seq<PortTimes>, trace: seq<State>, t: Line, base: nat, port: Port, leave: int, origin: int)
    requires Placed(w, latched, trace, t, base, leave) && port > 0 && !LineAt(t, port).Clocked()
    requires AtPort(trace[FirstAt(t, port, base)], t, base, port, leave, origin)
    ensures PortDone(trace[FirstAt(t, port, base)], trace[EndAt(t, port, base)], t, base, port)
    ensures Measured(trace[|w|].slaves, LineAt(t, port), LeaveAt(t, port, leave), FirstAt(t, port, base), origin)
  {
    var first := FirstAt(t, port, base);
    assert StateAt(w, trace, first) && StateAt(w, trace, |w|);
    ClocklessVisited(w, latched, trace, LineAt(t, port), base, first);
    NothingToMeasure(trace[|w|].slaves, LineAt(t, port), LeaveAt(t, port, leave), first, origin);
  }

  // ----- the whole bus -----

  /** The first clock of all: nothing is computed for it, and its branches come next. */
  lemma VeryFirstClock(w: seq<Slave>, latched: seq<PortTimes>, trace: seq<State>, t: Line, base: nat, leave: int)
    requires Placed(w, latched, trace, t, base, leave) && DcParent(w, base).0 == 0 && w[base].pdelay == 0
    ensures AtPort(trace[base + 1], t, base, 3, leave, t.At0(leave))
  {
    Unvisited(w, latched, trace, base, base);
    assert StepAt(trace, latched, base) && StateAt(w, trace, base) && StateAt(w, trace, base + 1);
    DcParentLocal(trace[base].slaves, w, base);
    EntersAtPort0(latched[base], t, leave);
  }

  /** `t` starts at `base` and has no slave with a clock upstream. */
  ghost predicate Leads(w: seq<Slave>, latched: seq<PortTimes>, trace: seq<State>, t: Line, up: nat, base: nat, leave: int) {
    && Started(w, latched, trace) && 1 <= base && base + t.Size() <= |w| && up < base
    && Installed(w, t, up, base) && Latched(latched, t, leave, base) && (up > 0 ==> DcParent(w, up).0 == 0 && !w[up].hasdc)
    && forall k :: 1 <= k < |w| ==> w[k].pdelay == 0
  }

  lemma LeadsOn(w: seq<Slave>, latched: seq<PortTimes>, trace: seq<State>, t: Line, up: nat, base: nat, p: Port, leave: int)
    requires Leads(w, latched, trace, t, up, base, leave) && t.Station? && !t.hasdc && p > 0
    ensures Leads(w, latched, trace, LineAt(t, p), base, FirstAt(t, p, base), LeaveAt(t, p, leave))
  {
  }

  lemma {:induction false} LeadMeasured(w: seq<Slave>, latched: seq<PortTimes>, trace: seq<State>, t: Line, up: nat, base: nat, leave: int)
    requires Leads(w, latched, trace, t, up, base, leave) && WellPlaced(t) && t.Clocked()
    ensures Measured(trace[|w|].slaves, t, leave, base, FirstArrival(t, leave))
    decreases t
  {
    if t.hasdc {
      VeryFirstClock(w, latched, trace, t, base, leave);
      ClockMeasured(w, latched, trace, t, base, leave, t.At0(leave));
    } else {
      var q, origin, end := ClockPort(t), FirstArrival(t, leave), trace[|w|].slaves;
      FirstArrivalOfBranch(t, leave);
      LeadsOn(w, latched, trace, t, up, base, q, leave);
      LeadMeasured(w, latched, trace, LineAt(t, q), base, FirstAt(t, q, base), LeaveAt(t, q, leave));
      assert StateAt(w, trace, |w|);
      if q != 3 { NothingToMeasure(end, t.l3, t.At0(leave), t.First3(base), origin); }
      if q != 1 { NothingToMeasure(end, t.l1, t.At3(leave), t.First1(base), origin); }
      if q != 2 { NothingToMeasure(end, t.l2, t.At1(leave), t.First2(base), origin); }
    }
  }

  /** The list of slaves as the scan leaves it, and the times latched when the frame left the master at `leave` */
  ghost predicate Setting(bus: Line, w: seq<Slave>, latched: seq<PortTimes>, trace: seq<State>, leave: int) {
    && Started(w, latched, trace) && |w| == 1 + bus.Size()
    && Installed(w, bus, 0, 1) && Latched(latched, bus, leave, 1)
    && forall k :: 1 <= k < |w| ==> w[k].pdelay == 0
  }

  /** For every bus with well placed clocks, whatever the cable delays and the slaves' clock offsets, each delay is the
      time by which the frame reaches that slave later than the first slave with a clock. */
  lemma DelaysAreArrivalTimes(bus: Line, w: seq<Slave>, latched: seq<PortTimes>, trace: seq<State>, leave: int)
    requires Setting(bus, w, latched, trace, leave) && WellPlaced(bus)
    ensures Measured(trace[|w|].slaves, bus, leave, 1, FirstArrival(bus, leave))
  {
    if bus.Clocked() {
      LeadMeasured(w, latched, trace, bus, 0, 1, leave);
    } else {
      assert StateAt(w, trace, |w|);
      NothingToMeasure(trace[|w|].slaves, bus, leave, 1, leave);
    }
  }

  /** The parents found by the topology scan are all the measurement needs to know of the wiring. */
  lemma ScannedBusIsInstalled(bus: Line, dlstatus: seq<nat>, found: seq<Topology.Slave>, slaves: seq<Slave>, t: Line, up: nat, base: nat)
    requires |slaves| == |found| == |dlstatus| && 1 <= base
    requires Topology.Reports(dlstatus, t, base) && Topology.Wired(Topology.ParentsOf(found), t, up, base)
    requires HasClocks(slaves, t, base)
    requires forall k :: 1 <= k < |slaves| ==>
      && slaves[k].activeports == Topology.OpenPorts(dlstatus[k])
      && slaves[k].topology == Topology.LinkCount(Topology.OpenPorts(dlstatus[k]))
      && slaves[k].parent == found[k].parent
    ensures Installed(slaves, t, up, base)
  {
  }

  /** The hasdc flags read from the slaves of `t`. */
  ghost predicate HasClocks(slaves: seq<Slave>, t: Line, base: nat) {
    t.Station? ==>
      && base < |slaves| && slaves[base].hasdc == t.hasdc
      && HasClocks(slaves, t.l3, t.First3(base)) && HasClocks(slaves, t.l1, t.First1(base)) && HasClocks(slaves, t.l2, t.First2(base))
  }
}
