/** Which wirings `DistributedClock.ConfigDc` measures right for all cable delays: exactly those with well placed
    clocks.  For any other there are delays, all but one of them zero, with which some slave's delay is wrong. */
module ClockPlacement {
  import opened Bus
  import opened DistributedClock
  import opened PropagationDelay

  /** The same slaves plugged into the same ports; cables and clock offsets may differ. */
  predicate SameShape(a: Line, b: Line) {
    a.Stop? == b.Stop?
    && (a.Station? ==> a.hasdc == b.hasdc && SameShape(a.l3, b.l3) && SameShape(a.l1, b.l1) && SameShape(a.l2, b.l2))
  }

  lemma {:induction false} ShapeDecides(a: Line, b: Line)
    requires SameShape(a, b)
    ensures a.Clocked() == b.Clocked() && a.Split() == b.Split() && (a.Station? ==> a.Links() == b.Links())
    ensures InLine(a) == InLine(b) && WellPlaced(a) == WellPlaced(b)
  {
    if a.Station? {
      ShapeDecides(a.l3, b.l3);
      ShapeDecides(a.l1, b.l1);
      ShapeDecides(a.l2, b.l2);
    }
  }

  // ----- cables -----

  /** No cable takes any time. */
  function Quick(t: Line): (q: Line)
    ensures SameShape(q, t) && q.Station? == t.Station? && (q.Station? ==> q.delay == 0)
  {
    if t.Stop? then Stop else Station(t.hasdc, 0, 0, Quick(t.l3), Quick(t.l1), Quick(t.l2))
  }

  /** Only the first cable does. */
  function Slow(t: Line): (s: Line)
    requires t.Station?
    ensures SameShape(s, t)
  {
    Station(t.hasdc, 1, 0, Quick(t.l3), Quick(t.l1), Quick(t.l2))
  }

  /** Quick cables, but for the branch on one port */
  function With(t: Line, p: Port, b: Line): (u: Line)
    requires t.Station? && p > 0 && SameShape(b, LineAt(t, p))
    ensures SameShape(u, t) && u.Station? && LineAt(u, p) == b
  {
    Station(t.hasdc, 0, 0, if p == 3 then b else Quick(t.l3), if p == 1 then b else Quick(t.l1), if p == 2 then b else Quick(t.l2))
  }

  /** Times at a slave whose branches take none */
  lemma IdleTimes(u: Line, leave: int, at: int)
    requires u.Station? && at == leave + u.delay && u.l3.Back(at) == u.l1.Back(at) == u.l2.Back(at) == at
    ensures u.At0(leave) == u.At3(leave) == u.At1(leave) == u.At2(leave) == at && u.Back(leave) == at + u.delay
  {
    assert u.At3(leave) == u.l3.Back(u.At0(leave));
    assert u.At1(leave) == u.l1.Back(u.At3(leave));
  }

  lemma {:induction false} QuickBack(t: Line, leave: int)
    ensures Quick(t).Back(leave) == leave
  {
    if t.Station? {
      QuickBack(t.l3, leave);
      QuickBack(t.l1, leave);
      QuickBack(t.l2, leave);
      IdleTimes(Quick(t), leave, leave);
    }
  }

  lemma QuickTimes(t: Line, leave: int)
    requires t.Station?
    ensures var q := Quick(t); q.At0(leave) == q.At3(leave) == q.At1(leave) == q.At2(leave) == leave
  {
    QuickBack(t.l3, leave);
    QuickBack(t.l1, leave);
    QuickBack(t.l2, leave);
    IdleTimes(Quick(t), leave, leave);
  }

  lemma {:induction false} QuickWay(t: Line, leave: int)
    requires t.Clocked()
    ensures Quick(t).Clocked() && FirstLeave(Quick(t), leave) == FirstArrival(Quick(t), leave) == leave
    ensures Early(Quick(t), leave) == Late(Quick(t), leave) == 0 && Stay(FirstClock(Quick(t)), leave) == 0
    decreases t
  {
    var u := Quick(t);
    ShapeDecides(u, t);
    QuickTimes(t, leave);
    if !t.hasdc {
      var q := ClockPort(t);
      ShapeDecides(u.l3, t.l3);
      ShapeDecides(u.l1, t.l1);
      QuickBack(LineAt(t, q), leave);
      QuickWay(LineAt(t, q), leave);
    }
  }

  lemma SlowTimes(t: Line, leave: int)
    requires t.Station?
    ensures var u := Slow(t); u.At0(leave) == u.At3(leave) == u.At1(leave) == u.At2(leave) == leave + 1
    ensures Slow(t).Back(leave) == leave + 2
  {
    QuickBack(t.l3, leave + 1);
    QuickBack(t.l1, leave + 1);
    QuickBack(t.l2, leave + 1);
    IdleTimes(Slow(t), leave, leave + 1);
  }

  lemma SlowWay(t: Line, leave: int)
    requires t.Clocked()
    ensures Slow(t).Clocked() && FirstArrival(Slow(t), leave) == leave + 1
    ensures Stay(FirstClock(Slow(t)), FirstLeave(Slow(t), leave)) == 0
  {
    var u := Slow(t);
    ShapeDecides(u, t);
    SlowTimes(t, leave);
    if !t.hasdc {
      var q := ClockPort(t);
      ShapeDecides(u.l3, t.l3);
      ShapeDecides(u.l1, t.l1);
      QuickWay(LineAt(t, q), leave + 1);
    }
  }

  /** Up to the branch on port `p` no time passes. */
  lemma WithTimes(t: Line, p: Port, b: Line, leave: int)
    requires t.Station? && p > 0 && SameShape(b, LineAt(t, p))
    ensures var u := With(t, p, b);
      && u.At0(leave) == LeaveAt(u, p, leave) == leave
      && (p != 3 ==> u.At3(leave) == leave) && (p == 2 ==> u.At1(leave) == leave) && u.At2(leave) == b.Back(leave)
  {
    var u, back := With(t, p, b), b.Back(leave);
    if p != 3 { QuickBack(t.l3, leave); }
    assert u.At3(leave) == if p == 3 then back else leave;
    if p != 1 { QuickBack(t.l1, u.At3(leave)); }
    assert u.At1(leave) == if p == 2 then leave else back;
    if p != 2 { QuickBack(t.l2, u.At1(leave)); }
  }

  // ----- the cable that spoils a badly wired bus -----

  /** The first port with a branch that cannot be measured */
  function BadPort(t: Line): (p: Port)
    requires t.Clocked() && t.hasdc && !InLine(t)
    ensures p > 0 && !PortFine(t, p) && LineAt(t, p).Clocked()
  {
    if !PortFine(t, 3) then 3 else if !PortFine(t, 1) then 1 else 2
  }

  /** A branch beside the one with the first clock */
  function SidePort(t: Line): (p: Port)
    requires t.Clocked() && !t.hasdc && t.Links() > 2
    ensures p > 0 && p != ClockPort(t) && LineAt(t, p).Station?
  {
    if ClockPort(t) != 3 && t.l3.Station? then 3
    else if ClockPort(t) != 1 && t.l1.Station? then 1 else 2
  }

  lemma BadBehind(t: Line)
    requires t.Clocked() && !t.hasdc
    ensures !InLine(t) && t.Links() == 2 ==> !InLine(LineAt(t, ClockPort(t)))
    ensures !WellPlaced(t) && OneClocked(t) ==> !WellPlaced(LineAt(t, ClockPort(t)))
  {
    assert (!t.l3.Clocked() ==> InLine(t.l3) && WellPlaced(t.l3)) && (!t.l1.Clocked() ==> InLine(t.l1) && WellPlaced(t.l1));
    assert !t.l2.Clocked() ==> InLine(t.l2) && WellPlaced(t.l2);
  }

  function SpoilBranch(t: Line): (u: Line)
    requires t.Clocked() && !InLine(t)
    ensures SameShape(u, t)
    decreases t
  {
    if t.hasdc then
      var p := BadPort(t);
      With(t, p, if Kept(t, p) then Slow(LineAt(t, p)) else SpoilBranch(LineAt(t, p)))
    else
      var q := ClockPort(t);
      if t.Links() == 2 then BadBehind(t); With(t, q, SpoilBranch(LineAt(t, q)))
      else With(t, SidePort(t), Slow(LineAt(t, SidePort(t))))
  }

  function SecondPort(t: Line): (p: Port)
    requires t.Clocked() && !t.hasdc && !OneClocked(t)
    ensures p > 0 && p != ClockPort(t) && LineAt(t, p).Clocked()
  {
    if t.l3.Clocked() && t.l1.Clocked() then 1 else 2
  }

  function Spoil(t: Line): (u: Line)
    requires t.Clocked() && !WellPlaced(t)
    ensures SameShape(u, t)
    decreases t
  {
    if t.hasdc then SpoilBranch(t)
    else if !OneClocked(t) then With(t, SecondPort(t), Slow(LineAt(t, SecondPort(t))))
    else BadBehind(t); With(t, ClockPort(t), Spoil(LineAt(t, ClockPort(t))))
  }

  // ----- what the spoilt cable does -----

  lemma {:induction false} SpoiltWayIsUneven(t: Line, leave: int)
    requires t.Clocked() && !InLine(t) && !Straight(t)
    ensures var u := SpoilBranch(t);
      u.Clocked() && Late(u, leave) != Early(u, leave) && Late(u, leave) != Early(u, leave) + 1
    decreases t
  {
    var u, q := SpoilBranch(t), ClockPort(t);
    ShapeDecides(u, t);
    SameClockPort(u, t);
    if t.Links() == 2 {
      BadBehind(t);
      SpoiltWayIsUneven(LineAt(t, q), leave);
      WithTimes(t, q, SpoilBranch(LineAt(t, q)), leave);
    } else {
      var b := Slow(LineAt(t, SidePort(t)));
      WithTimes(t, SidePort(t), b, leave);
      SlowTimes(LineAt(t, SidePort(t)), leave);
      SlowSide(t, SidePort(t), leave);
    }
  }

  lemma SameClockPort(u: Line, t: Line)
    requires SameShape(u, t) && u.Clocked() && t.Clocked() && !t.hasdc
    ensures ClockPort(u) == ClockPort(t)
  {
    ShapeDecides(u.l3, t.l3);
    ShapeDecides(u.l1, t.l1);
  }

  /** One slow side branch is either wholly before the first clock or wholly after it. */
  lemma SlowSide(t: Line, p: Port, leave: int)
    requires t.Clocked() && !t.hasdc && p > 0 && p != ClockPort(t) && LineAt(t, p).Station?
    ensures var u := With(t, p, Slow(LineAt(t, p)));
      u.Clocked() && ((Early(u, leave) == 0 && Late(u, leave) == 2) || (Early(u, leave) == 2 && Late(u, leave) == 0))
  {
    var b := Slow(LineAt(t, p));
    var u, q := With(t, p, b), ClockPort(t);
    ShapeDecides(u, t);
    SameClockPort(u, t);
    WithTimes(t, p, b, leave);
    SlowTimes(LineAt(t, p), leave);
    var at := LeaveAt(u, q, leave);
    assert LineAt(u, q) == Quick(LineAt(t, q));
    QuickWay(LineAt(t, q), at);
    QuickBack(LineAt(t, q), at);
    assert at == leave || at == leave + 2;
  }

  lemma {:induction false} SpoiltStraight(t: Line)
    requires t.Clocked() && !InLine(t) && Straight(t)
    ensures var u := SpoilBranch(t);
      u.Clocked() && Straight(u) && !InLine(FirstClock(t)) && FirstClock(u) == SpoilBranch(FirstClock(t))
    decreases t
  {
    var u := SpoilBranch(t);
    ShapeDecides(u, t);
    if !t.hasdc {
      BadBehind(t);
      SameClockPort(u, t);
      SpoiltStraight(LineAt(t, ClockPort(t)));
    }
  }

  // ----- wrong delays -----

  /** If its first clock has another delay than the time of arrival, a line is not measured right. */
  lemma WrongFirst(w: seq<Slave>, latched: seq<PortTimes>, trace: seq<State>, t: Line, up: nat, base: nat, leave: int, origin: int)
    requires Started(w, latched, trace) && t.Clocked() && Installed(w, t, up, base) && Latched(latched, t, leave, base)
    requires var f := FirstPos(t, base);
      f < |w| && 1 <= f < |trace[f + 1].slaves| && trace[f + 1].slaves[f].pdelay != FirstArrival(t, leave) - origin
    ensures !Measured(trace[|w|].slaves, t, leave, base, origin)
  {
    FirstClockPlaced(w, latched, trace[|w|].slaves, t, up, base, leave, origin);
    DelayStays(w, latched, trace, |w|, FirstPos(t, base));
  }

  /** The port that is consumed for a branch behind a kept port is an earlier one. */
  lemma KeptPortTaken(s: Slave, t: Line, p: Port)
    requires t.Station? && p > 0 && Awaits(s, t, p) && Kept(t, p) && LineAt(t, p).Station?
    ensures var g := FirstPort(s.consumedports); g > 0 && Rank(g) > Rank(p) && LineAt(t, g).Station?
  {
  }

  /** Up to the slow branch on port `p` all ports are stamped alike. */
  lemma StampsAlike(x: PortTimes, t: Line, p: Port, b: Line, g: Port, leave: int)
    requires t.Station? && p > 0 && SameShape(b, LineAt(t, p)) && g > 0 && Rank(g) > Rank(p) && LineAt(t, g).Station?
    requires Stamped(x, With(t, p, b), leave)
    ensures var u := With(t, p, b); PortTime(x, g) == PortTime(x, PrevPort(u.Active(), g)) == x.a
  {
    WithTimes(t, p, b, leave);
    BranchStamps(x, With(t, p, b), g, leave);
    QuickBack(LineAt(t, g), leave);
  }

  lemma KeptPortWrong(w: seq<Slave>, latched: seq<PortTimes>, trace: seq<State>, t: Line, u: Line, base: nat, p: Port, leave: int, origin: int)
    requires t.Clocked() && t.hasdc && p > 0 && LineAt(t, p).Clocked() && Kept(t, p) && u == With(t, p, Slow(LineAt(t, p)))
    requires Placed(w, latched, trace, u, base, leave) && AtPort(trace[FirstAt(u, p, base)], u, base, p, leave, origin)
    ensures !Measured(trace[|w|].slaves, LineAt(u, p), LeaveAt(u, p, leave), FirstAt(u, p, base), origin)
  {
    var b := LineAt(u, p);
    var first := FirstAt(u, p, base);
    ShapeDecides(b, LineAt(t, p));
    var f, s := FirstPos(b, first), trace[first].slaves[base];
    SameKept(u, t, p);
    WithTimes(t, p, b, leave);
    SlowWay(LineAt(t, p), leave);
    FirstClockVisited(w, latched, trace, b, base, first);
    FirstClockPlaced(w, latched, w, b, base, first, leave, origin);
    KeptPortTaken(s, u, p);
    var g := FirstPort(s.consumedports);
    SameStations(u, t, g);
    StampsAlike(s.dcrt, t, p, b, g, leave);
    DelayFromTimes(w[f], latched[f], s, g, FirstClock(b), FirstLeave(b, leave), first - base > 1);
    WrongFirst(w, latched, trace, b, base, first, leave, origin);
  }

  lemma SameKept(u: Line, t: Line, p: Port)
    requires SameShape(u, t) && t.Station? && p > 0
    ensures Kept(u, p) == Kept(t, p) && PortFine(u, p) == PortFine(t, p)
  {
    ShapeDecides(u.l3, t.l3);
    ShapeDecides(u.l1, t.l1);
    ShapeDecides(u.l2, t.l2);
  }

  lemma SameStations(u: Line, t: Line, p: Port)
    requires SameShape(u, t) && t.Station? && p > 0
    ensures LineAt(u, p).Station? == LineAt(t, p).Station?
  {
  }

  /** The ports before the bad one are measured. */
  lemma BadPortReached(w: seq<Slave>, latched: seq<PortTimes>, trace: seq<State>, t: Line, u: Line, base: nat, leave: int, origin: int)
    requires t.Clocked() && t.hasdc && !InLine(t) && SameShape(u, t)
    requires Placed(w, latched, trace, u, base, leave) && AtPort(trace[base + 1], u, base, 3, leave, origin)
    ensures var p := BadPort(t); AtPort(trace[FirstAt(u, p, base)], u, base, p, leave, origin)
  {
    var p := BadPort(t);
    if p != 3 {
      SameKept(u, t, 3);
      PortMeasured(w, latched, trace, u, base, 3, leave, origin);
    }
    if p == 2 {
      SameKept(u, t, 1);
      PortMeasured(w, latched, trace, u, base, 1, leave, origin);
    }
  }

  /** A slave with a clock whose own delay is right, but something behind it is not */
  lemma {:induction false} WrongClock(w: seq<Slave>, latched: seq<PortTimes>, trace: seq<State>, t: Line, u: Line, base: nat, leave: int, origin: int)
    requires t.Clocked() && t.hasdc && !InLine(t) && u == SpoilBranch(t)
    requires Placed(w, latched, trace, u, base, leave) && AtPort(trace[base + 1], u, base, 3, leave, origin)
    ensures !Measured(trace[|w|].slaves, u, leave, base, origin)
    decreases t, 1
  {
    BadPortReached(w, latched, trace, t, u, base, leave, origin);
    WrongPort(w, latched, trace, t, u, base, BadPort(t), leave, origin);
    UnmeasuredPort(trace[|w|].slaves, u, BadPort(t), leave, base, origin);
  }

  lemma UnmeasuredPort(slaves: seq<Slave>, t: Line, p: Port, leave: int, base: nat, origin: int)
    requires t.Station? && p > 0 && !Measured(slaves, LineAt(t, p), LeaveAt(t, p, leave), FirstAt(t, p, base), origin)
    ensures !Measured(slaves, t, leave, base, origin)
  {
  }

  lemma {:induction false} WrongPort(w: seq<Slave>, latched: seq<PortTimes>, trace: seq<State>, t: Line, u: Line, base: nat,
                                     p: Port, leave: int, origin: int)
    requires t.Clocked() && t.hasdc && !InLine(t) && p == BadPort(t) && u == SpoilBranch(t)
    requires Placed(w, latched, trace, u, base, leave) && AtPort(trace[FirstAt(u, p, base)], u, base, p, leave, origin)
    ensures !Measured(trace[|w|].slaves, LineAt(u, p), LeaveAt(u, p, leave), FirstAt(u, p, base), origin)
    decreases t, 0
  {
    if Kept(t, p) {
      KeptPortWrong(w, latched, trace, t, u, base, p, leave, origin);
    } else {
      SameKept(u, t, p);
      ShapeDecides(LineAt(u, p), LineAt(t, p));
      PortFeeds(trace[FirstAt(u, p, base)], u, base, p, leave, origin);
      WrongBranch(w, latched, trace, LineAt(t, p), LineAt(u, p), base, FirstAt(u, p, base), p, LeaveAt(u, p, leave), origin);
    }
  }

  lemma {:induction false} WrongBranch(w: seq<Slave>, latched: seq<PortTimes>, trace: seq<State>, t: Line, u: Line, p: nat,
                                       base: nat, port: Port, leave: int, origin: int)
    requires t.Clocked() && !InLine(t) && u == SpoilBranch(t)
    requires Started(w, latched, trace) && Hangs(w, u, p, base) && Latched(latched, u, leave, base)
    requires p < |trace[base].slaves| && Feeds(trace[base].slaves[p], port, base - p <= 1, u, leave, origin)
    ensures !Measured(trace[|w|].slaves, u, leave, base, origin)
    decreases t, 2
  {
    if Straight(t) {
      SpoiltStraight(t);
      FirstClockSmaller(t);
      StraightBranchEntered(w, latched, trace, u, p, base, port, leave, origin);
      WrongClock(w, latched, trace, FirstClock(t), FirstClock(u), FirstPos(u, base), FirstLeave(u, leave), origin);
      FirstClockPlaced(w, latched, trace[|w|].slaves, u, p, base, leave, origin);
    } else {
      SpoiltWayIsUneven(t, leave);
      FirstDelayRightIff(w, latched, trace, u, p, base, port, leave, origin);
      FirstClockReached(w, latched, trace, u, p, base);
      WrongFirst(w, latched, trace, u, p, base, leave, origin);
    }
  }

  /** No delay is ever computed for a clock with no other upstream. */
  lemma FirstOfAllHoldsZero(w: seq<Slave>, latched: seq<PortTimes>, trace: seq<State>, t: Line, up: nat, base: nat, leave: int)
    requires Leads(w, latched, trace, t, up, base, leave) && t.Clocked()
    ensures var f := FirstPos(t, base); 1 <= f < |w| == |trace[f + 1].slaves| && trace[f + 1].slaves[f].pdelay == 0
  {
    var f := FirstPos(t, base);
    FirstClockReached(w, latched, trace, t, up, base);
    Unvisited(w, latched, trace, f, f);
    assert StepAt(trace, latched, f) && StateAt(w, trace, f) && StateAt(w, trace, f + 1);
    DcParentLocal(trace[f].slaves, w, f);
  }

  /** A second branch with clocks, slow to reach: its first clock holds 0. */
  lemma SecondBranchWrong(w: seq<Slave>, latched: seq<PortTimes>, trace: seq<State>, t: Line, u: Line, up: nat, base: nat, leave: int)
    requires t.Clocked() && !t.hasdc && !OneClocked(t) && u == With(t, SecondPort(t), Slow(LineAt(t, SecondPort(t))))
    requires Leads(w, latched, trace, u, up, base, leave)
    ensures u.Clocked() && !Measured(trace[|w|].slaves, u, leave, base, FirstArrival(u, leave))
  {
    var p := SecondPort(t);
    SecondBranchTimes(t, u, leave);
    LeadsOn(w, latched, trace, u, up, base, p, leave);
    FirstNotZero(w, latched, trace, LineAt(u, p), base, FirstAt(u, p, base), LeaveAt(u, p, leave), FirstArrival(u, leave));
    UnmeasuredPort(trace[|w|].slaves, u, p, leave, base, FirstArrival(u, leave));
  }

  lemma FirstNotZero(w: seq<Slave>, latched: seq<PortTimes>, trace: seq<State>, t: Line, up: nat, base: nat, leave: int, origin: int)
    requires Leads(w, latched, trace, t, up, base, leave) && t.Clocked() && FirstArrival(t, leave) != origin
    ensures !Measured(trace[|w|].slaves, t, leave, base, origin)
  {
    FirstOfAllHoldsZero(w, latched, trace, t, up, base, leave);
    WrongFirst(w, latched, trace, t, up, base, leave, origin);
  }

  lemma SecondBranchTimes(t: Line, u: Line, leave: int)
    requires t.Clocked() && !t.hasdc && !OneClocked(t) && u == With(t, SecondPort(t), Slow(LineAt(t, SecondPort(t))))
    ensures u.Clocked() && FirstArrival(u, leave) == LeaveAt(u, SecondPort(t), leave) == leave
    ensures LineAt(u, SecondPort(t)).Clocked() && FirstArrival(LineAt(u, SecondPort(t)), leave) == leave + 1
  {
    var p, q := SecondPort(t), ClockPort(t);
    ShapeDecides(u, t);
    SameClockPort(u, t);
    WithTimes(t, p, LineAt(u, p), leave);
    QuickWay(LineAt(t, q), leave);
    FirstArrivalOfBranch(u, leave);
    SlowWay(LineAt(t, p), leave);
  }

  lemma LeadsPlaced(w: seq<Slave>, latched: seq<PortTimes>, trace: seq<State>, t: Line, up: nat, base: nat, leave: int)
    requires Leads(w, latched, trace, t, up, base, leave) && t.Clocked() && t.hasdc
    ensures Placed(w, latched, trace, t, base, leave) && AtPort(trace[base + 1], t, base, 3, leave, t.At0(leave))
  {
    VeryFirstClock(w, latched, trace, t, base, leave);
  }

  lemma {:induction false} WrongLead(w: seq<Slave>, latched: seq<PortTimes>, trace: seq<State>, t: Line, u: Line, up: nat, base: nat, leave: int)
    requires t.Clocked() && !WellPlaced(t) && u == Spoil(t) && Leads(w, latched, trace, u, up, base, leave)
    ensures !Measured(trace[|w|].slaves, u, leave, base, FirstArrival(u, leave))
    decreases t
  {
    ShapeDecides(u, t);
    if t.hasdc {
      LeadsPlaced(w, latched, trace, u, up, base, leave);
      WrongClock(w, latched, trace, t, u, base, leave, u.At0(leave));
    } else if !OneClocked(t) {
      SecondBranchWrong(w, latched, trace, t, u, up, base, leave);
    } else {
      var q := ClockPort(t);
      BadBehind(t);
      SameClockPort(u, t);
      FirstArrivalOfBranch(u, leave);
      LeadsOn(w, latched, trace, u, up, base, q, leave);
      WrongLead(w, latched, trace, LineAt(t, q), LineAt(u, q), base, FirstAt(u, q, base), LeaveAt(u, q, leave));
      UnmeasuredPort(trace[|w|].slaves, u, q, leave, base, FirstArrival(u, leave));
    }
  }

  // ----- every bus can be set up -----

  function SlavesOf(t: Line, up: nat, base: nat): (s: seq<Slave>)
    ensures |s| == t.Size()
  {
    if t.Stop? then []
    else
      [Slave(t.hasdc, t.Links(), t.Active(), up, t.Active(), 0, 0, NO_TIMES, 0)]
      + SlavesOf(t.l3, base, t.First3(base)) + SlavesOf(t.l1, base, t.First1(base)) + SlavesOf(t.l2, base, t.First2(base))
  }

  function TimesOf(t: Line, leave: int): (s: seq<PortTimes>)
    ensures |s| == t.Size()
  {
    if t.Stop? then []
    else
      [PortTimes(t.offset + t.At0(leave), t.offset + t.At1(leave), t.offset + t.At2(leave), t.offset + t.At3(leave))]
      + TimesOf(t.l3, t.At0(leave)) + TimesOf(t.l1, t.At3(leave)) + TimesOf(t.l2, t.At1(leave))
  }

  /** A part of a list */
  ghost predicate Holds<T>(list: seq<T>, base: nat, part: seq<T>) {
    base + |part| <= |list| && list[base..base + |part|] == part
  }

  lemma HoldsRest<T>(a: T, b: seq<T>)
    ensures Holds([a] + b, 1, b)
  {
  }

  lemma PartOf<T>(list: seq<T>, base: nat, a: seq<T>, b: seq<T>, c: seq<T>)
    requires Holds(list, base, a + b + c)
    ensures Holds(list, base + |a|, b)
  {
    var whole := a + b + c;
    forall k | 0 <= k < |b| ensures list[base + |a| + k] == b[k] {
      assert list[base + |a| + k] == list[base..base + |whole|][|a| + k] == whole[|a| + k];
    }
  }

  /** A first element and three parts behind it, at positions `l`, `m` and `n` */
  lemma InThreeParts<T>(list: seq<T>, base: nat, whole: seq<T>, a: T, b: seq<T>, c: seq<T>, d: seq<T>, l: nat, m: nat, n: nat)
    requires whole == [a] + b + c + d && Holds(list, base, whole) && l == base + 1 && m == l + |b| && n == m + |c|
    ensures base < |list| && list[base] == a && Holds(list, l, b) && Holds(list, m, c) && Holds(list, n, d)
  {
    assert list[base] == list[base..base + |whole|][0];
    assert whole == [a] + b + (c + d) && whole == ([a] + b) + c + d && whole == ([a] + b + c) + d + [];
    PartOf(list, base, [a], b, c + d);
    PartOf(list, base, [a] + b, c, d);
    PartOf(list, base, [a] + b + c, d, []);
  }

  /** Nothing measured yet, and every slave hangs on an earlier one */
  ghost predicate Untried(w: seq<Slave>, lo: nat, hi: nat) {
    hi <= |w| && forall k :: lo <= k < hi ==> w[k].parent < k && w[k].pdelay == 0
  }

  /** The slaves of a line: the first one and its branches */
  ghost predicate InParts(w: seq<Slave>, t: Line, up: nat, base: nat)
    requires t.Station?
  {
    && base < |w| && w[base] == Slave(t.hasdc, t.Links(), t.Active(), up, t.Active(), 0, 0, NO_TIMES, 0)
    && Holds(w, t.First3(base), SlavesOf(t.l3, base, t.First3(base)))
    && Holds(w, t.First1(base), SlavesOf(t.l1, base, t.First1(base)))
    && Holds(w, t.First2(base), SlavesOf(t.l2, base, t.First2(base)))
  }

  lemma SlavesInParts(w: seq<Slave>, t: Line, up: nat, base: nat)
    requires t.Station? && Holds(w, base, SlavesOf(t, up, base))
    ensures InParts(w, t, up, base)
  {
    InThreeParts(w, base, SlavesOf(t, up, base), Slave(t.hasdc, t.Links(), t.Active(), up, t.Active(), 0, 0, NO_TIMES, 0),
                 SlavesOf(t.l3, base, t.First3(base)), SlavesOf(t.l1, base, t.First1(base)), SlavesOf(t.l2, base, t.First2(base)),
                 t.First3(base), t.First1(base), t.First2(base));
  }

  lemma {:induction false} SlavesInstalled(w: seq<Slave>, t: Line, up: nat, base: nat)
    requires up < base && Holds(w, base, SlavesOf(t, up, base))
    ensures Installed(w, t, up, base)
    decreases t
  {
    if t.Station? {
      SlavesInParts(w, t, up, base);
      SlavesInstalled(w, t.l3, base, t.First3(base));
      SlavesInstalled(w, t.l1, base, t.First1(base));
      SlavesInstalled(w, t.l2, base, t.First2(base));
    }
  }

  lemma {:induction false} SlavesUntried(w: seq<Slave>, t: Line, up: nat, base: nat)
    requires up < base && Holds(w, base, SlavesOf(t, up, base))
    ensures Untried(w, base, base + t.Size())
    decreases t
  {
    if t.Station? {
      SlavesInParts(w, t, up, base);
      SlavesUntried(w, t.l3, base, t.First3(base));
      SlavesUntried(w, t.l1, base, t.First1(base));
      SlavesUntried(w, t.l2, base, t.First2(base));
      UntriedTogether(w, base, t.First3(base), t.First1(base), t.First2(base), base + t.Size());
    }
  }

  lemma UntriedTogether(w: seq<Slave>, i: nat, j: nat, k: nat, l: nat, m: nat)
    requires j == i + 1 && j <= k <= l <= m && i < |w| && w[i].parent < i && w[i].pdelay == 0
    requires Untried(w, j, k) && Untried(w, k, l) && Untried(w, l, m)
    ensures Untried(w, i, m)
  {
  }

  lemma TimesInParts(latched: seq<PortTimes>, t: Line, leave: int, base: nat)
    requires t.Station? && Holds(latched, base, TimesOf(t, leave))
    ensures base < |latched| && Stamped(latched[base], t, leave)
    ensures Holds(latched, t.First3(base), TimesOf(t.l3, t.At0(leave))) && Holds(latched, t.First1(base), TimesOf(t.l1, t.At3(leave)))
    ensures Holds(latched, t.First2(base), TimesOf(t.l2, t.At1(leave)))
  {
    InThreeParts(latched, base, TimesOf(t, leave),
                 PortTimes(t.offset + t.At0(leave), t.offset + t.At1(leave), t.offset + t.At2(leave), t.offset + t.At3(leave)),
                 TimesOf(t.l3, t.At0(leave)), TimesOf(t.l1, t.At3(leave)), TimesOf(t.l2, t.At1(leave)),
                 t.First3(base), t.First1(base), t.First2(base));
  }

  lemma {:induction false} TimesLatched(latched: seq<PortTimes>, t: Line, leave: int, base: nat)
    requires Holds(latched, base, TimesOf(t, leave))
    ensures Latched(latched, t, leave, base)
    decreases t
  {
    if t.Station? {
      TimesInParts(latched, t, leave, base);
      TimesLatched(latched, t.l3, t.At0(leave), t.First3(base));
      TimesLatched(latched, t.l1, t.At3(leave), t.First1(base));
      TimesLatched(latched, t.l2, t.At1(leave), t.First2(base));
    }
  }

  lemma {:induction false} RunExists(w: seq<Slave>, latched: seq<PortTimes>, n: nat) returns (trace: seq<State>)
    requires Valid(w) && 1 <= n <= |w| == |latched|
    ensures RunTo(w, latched, trace, n) && trace[1] == State(w, 0) && StateAt(w, trace, n)
  {
    if n == 1 {
      trace := [State(w, 0), State(w, 0)];
      RunStarts(w, latched);
      assert StateAt(w, trace, 1);
    } else {
      var before := RunExists(w, latched, n - 1);
      var next := Step(before[n - 1], n - 1, latched[n - 1]);
      RunContinues(w, latched, before, n - 1, next);
      trace := before + [next];
      assert StateAt(w, trace, n);
    }
  }

  lemma SettingExists(bus: Line, leave: int) returns (w: seq<Slave>, latched: seq<PortTimes>, trace: seq<State>)
    ensures Setting(bus, w, latched, trace, leave)
  {
    var master := Slave(false, 0, Ports(false, false, false, false), 0, Ports(false, false, false, false), 0, 0, NO_TIMES, 0);
    w, latched := [master] + SlavesOf(bus, 0, 1), [NO_TIMES] + TimesOf(bus, leave);
    HoldsRest(master, SlavesOf(bus, 0, 1));
    HoldsRest(NO_TIMES, TimesOf(bus, leave));
    SlavesInstalled(w, bus, 0, 1);
    SlavesUntried(w, bus, 0, 1);
    TimesLatched(latched, bus, leave, 1);
    trace := RunExists(w, latched, |w|);
  }

  // ----- main result -----

  /** Whatever the cables and the clock offsets, every delay is the time of the frame's arrival. */
  ghost predicate AlwaysRight(bus: Line) {
    forall cables: Line, w: seq<Slave>, latched: seq<PortTimes>, trace: seq<State>, leave: int ::
      SameShape(cables, bus) && Setting(cables, w, latched, trace, leave)
      ==> Measured(trace[|w|].slaves, cables, leave, 1, FirstArrival(cables, leave))
  }

  /** A wiring is measured right for all cables if and only if its clocks are well placed. */
  lemma RightForAllCablesIffWellPlaced(bus: Line)
    ensures AlwaysRight(bus) <==> WellPlaced(bus)
  {
    if WellPlaced(bus) {
      forall cables: Line, w: seq<Slave>, latched: seq<PortTimes>, trace: seq<State>, leave: int
        | SameShape(cables, bus) && Setting(cables, w, latched, trace, leave)
        ensures Measured(trace[|w|].slaves, cables, leave, 1, FirstArrival(cables, leave))
      {
        ShapeDecides(cables, bus);
        DelaysAreArrivalTimes(cables, w, latched, trace, leave);
      }
    } else {
      var w, latched, trace := SettingExists(Spoil(bus), 0);
      WrongLead(w, latched, trace, bus, Spoil(bus), 0, 1, 0);
    }
  }

  // ----- an example -----

  const LEAF := Station(false, 10, 0, Stop, Stop, Stop)
  const CLOCK := Station(true, 10, 0, Stop, Stop, Stop)
  const SPLIT := Station(false, 10, 0, CLOCK, LEAF, Stop)
  const SPLIT_BUS := Station(true, 10, 0, SPLIT, Stop, Stop)

  function Fresh(hasdc: bool, active: Ports, links: nat, parent: nat): Slave {
    Slave(hasdc, links, active, parent, active, 0, 0, NO_TIMES, 0)
  }

  const SPLIT_SLAVES := [
    Fresh(false, Ports(false, false, false, false), 0, 0),
    Fresh(true, Ports(true, false, false, true), 2, 0),
    Fresh(false, Ports(true, true, false, true), 3, 1),
    Fresh(true, Ports(true, false, false, false), 1, 2),
    Fresh(false, Ports(true, false, false, false), 1, 2)]

  const SPLIT_TIMES := [NO_TIMES, PortTimes(0, 0, 0, 60), NO_TIMES, PortTimes(20, 0, 0, 0), NO_TIMES]

  /** Slave 2 has no clock and two branches; its second branch is counted into the delay of slave 3,
      which sits on the first. */
  lemma SplitWithoutClockBreaksDelay(trace: seq<State>)
    requires Run(SPLIT_SLAVES, SPLIT_TIMES, trace) && trace[1] == State(SPLIT_SLAVES, 0)
    ensures StateAt(SPLIT_SLAVES, trace, 4) && trace[4].slaves[3].pdelay == 30
    ensures CLOCK.At0(SPLIT.At0(SPLIT_BUS.At0(-10))) - FirstArrival(SPLIT_BUS, -10) == 20
  {
    assert StateAt(SPLIT_SLAVES, trace, 4);
    assert StepAt(trace, SPLIT_TIMES, 1) && trace[2] == StepDc(trace[1], 1, SPLIT_TIMES[1]);
    var p := trace[2].slaves[1];
    assert DcParent(SPLIT_SLAVES, 1) == (0, 1);
    assert p.dcrt == PortTimes(0, 0, 0, 60) && p.entryport == 0 && FirstPort(p.consumedports) == 3 && p.pdelay == 0;
    assert StepAt(trace, SPLIT_TIMES, 2) && trace[3] == StepPlain(trace[2], 2);
    assert trace[3].slaves[1] == p && trace[3].parenthold == 0;
    assert StepAt(trace, SPLIT_TIMES, 3) && trace[4] == StepDc(trace[3], 3, SPLIT_TIMES[3]);
    SplitParents(trace);
    assert Latch(trace[3].slaves[3], SPLIT_TIMES[3]).topology == 1;
  }

  lemma SplitParents(trace: seq<State>)
    requires Run(SPLIT_SLAVES, SPLIT_TIMES, trace)
    ensures StateAt(SPLIT_SLAVES, trace, 3) && DcParent(trace[3].slaves, 3) == (1, 2)
  {
    assert StateAt(SPLIT_SLAVES, trace, 3);
    DcParentLocal(trace[3].slaves, SPLIT_SLAVES, 3);
    assert DcParent(SPLIT_SLAVES, 2) == (1, 2);
  }

  /** At the end of a line there is only the slave itself to latch. */
  lemma LatchedAtEnd(latched: seq<PortTimes>, t: Line, leave: int, base: nat)
    requires t.Station? && t.l3 == t.l1 == t.l2 == Stop && base < |latched| && (t.hasdc ==> Stamped(latched[base], t, leave))
    ensures Latched(latched, t, leave, base)
  {
  }

  /** The same bus, as the topology scan records it and as its clocks latch the frame. */
  lemma SplitIsWired()
    ensures Valid(SPLIT_SLAVES) && Installed(SPLIT_SLAVES, SPLIT_BUS, 0, 1) && !WellPlaced(SPLIT_BUS)
    ensures Latched(SPLIT_TIMES, SPLIT_BUS, -10, 1)
  {
    assert Installed(SPLIT_SLAVES, SPLIT, 1, 2) && Latched(SPLIT_TIMES, SPLIT, 0, 2) by {
      assert Installed(SPLIT_SLAVES, CLOCK, 2, 3) && Installed(SPLIT_SLAVES, LEAF, 2, 4);
      assert CLOCK.At0(10) == 20 && CLOCK.Back(10) == 30;
      LatchedAtEnd(SPLIT_TIMES, CLOCK, 10, 3);
      LatchedAtEnd(SPLIT_TIMES, LEAF, 30, 4);
    }
    assert SPLIT.Back(0) == 60 by {
      assert CLOCK.Back(10) == 30 && LEAF.Back(30) == 50;
    }
  }
}
