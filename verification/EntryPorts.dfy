/** Slaves that are plugged in the other way round: what `DistributedClock` makes of a frame that comes in at any
    port. */
module EntryPorts {
  import opened Bus
  import opened DistributedClock

  /** How far port `p` is behind port `e` in the cycle 0 - 3 - 1 - 2 */
  function Turn(e: Port, p: Port): nat {
    if Place(p) >= Place(e) then Place(p) - Place(e) else Place(p) + 4 - Place(e)
  }

  /** The frame came in at port `e` and passed the active ports in the order of the cycle from there. */
  ghost predicate Passed(active: Ports, x: PortTimes, e: Port) {
    && Has(active, e)
    && forall p: Port, q: Port :: Has(active, p) && Has(active, q) && Turn(e, p) <= Turn(e, q) ==> PortTime(x, p) <= PortTime(x, q)
  }

  /** The entry port is found if and only if the frame did not come back at the same time on an active port in front
      of it in the cycle from port 0; so a frame that enters at port 0 is always seen to. */
  lemma EntryFoundIff(active: Ports, x: PortTimes, e: Port)
    requires Passed(active, x, e)
    ensures EntryPort(active, x) == e <==> forall p: Port :: Has(active, p) && Place(p) < Place(e) ==> PortTime(x, e) < PortTime(x, p)
  {
    LatchedEntered(Slave(true, 0, active, 0, active, 0, 0, NO_TIMES, 0), x);
    assert forall p: Port :: Turn(e, e) <= Turn(e, p);
  }

  /** The port before `p` is the active one the frame passed last before `p`, all round the cycle. */
  lemma PreviousIsNearest(active: Ports, p: Port, r: Port)
    requires r == PrevPort(active, p)
    ensures r == p <==> forall q: Port :: Has(active, q) ==> q == p
    ensures r != p ==> Has(active, r) && forall q: Port :: Has(active, q) && q != p ==> Turn(p, q) <= Turn(p, r)
  {
    assert (Has(active, 0) <==> active.p0) && (Has(active, 1) <==> active.p1) && (Has(active, 2) <==> active.p2) && (Has(active, 3) <==> active.p3);
  }

  /** The last port on which the frame came back, wherever it came in */
  lemma LastBack(active: Ports, x: PortTimes, e: Port, p: Port)
    requires Passed(active, x, e) && Has(active, p)
    ensures Has(active, PrevPort(active, e)) && PortTime(x, p) <= PortTime(x, PrevPort(active, e))
  {
    PreviousIsNearest(active, e, PrevPort(active, e));
  }

  /** Port `left` is the one the frame passed last before it came back on port `p`. */
  ghost predicate LeftFrom(active: Ports, e: Port, p: Port, left: Port) {
    && Has(active, left) && Turn(e, left) < Turn(e, p)
    && forall q: Port :: Has(active, q) && Turn(e, q) < Turn(e, p) ==> Turn(e, q) <= Turn(e, left)
  }

  lemma LeftIsPrevious(active: Ports, e: Port, p: Port, left: Port)
    requires Has(active, p) && LeftFrom(active, e, p, left)
    ensures PrevPort(active, p) == left
  {
    PreviousIsNearest(active, p, PrevPort(active, p));
  }

  lemma HalfTruncates(n: int)
    requires n >= 0
    ensures 2 * Half(n) <= n <= 2 * Half(n) + 1 && Half(-n) == -Half(n)
  {
  }

  /** The active ports of the slave and how long the frame stayed in its branches, by whatever port it came in */
  ghost predicate Stayed(s: Slave, x: PortTimes, e: Port, stay: int) {
    && Passed(s.activeports, x, e) && EntryPort(s.activeports, x) == e
    && (s.topology > 1 <==> exists q: Port :: q != e && Has(s.activeports, q))
    && stay >= 0 && (forall q: Port :: Has(s.activeports, q) ==> PortTime(x, q) <= PortTime(x, e) + stay)
    && exists q: Port :: Has(s.activeports, q) && PortTime(x, q) == PortTime(x, e) + stay
  }

  /** The delay computed for a slave in terms of what the frame did: `way` is how long it was gone from the parent's
      port `p`, `before` how long it had been there before; times that do not fit together are counted as positive. */
  lemma DelayOf(s: Slave, x: PortTimes, e: Port, stay: int, parent: Slave, p: Port, left: Port, later: bool, way: int, before: int)
    requires Stayed(s, x, e, stay) && Has(parent.activeports, p) && LeftFrom(parent.activeports, parent.entryport, p, left)
    requires way == PortTime(parent.dcrt, p) - PortTime(parent.dcrt, left)
    requires before == PortTime(parent.dcrt, left) - PortTime(parent.dcrt, parent.entryport)
    ensures var half := Half(if stay <= way then way - stay else way + stay);
            Delay(Latch(s, x), Consume(parent), p, later)
            == half + (if !later then 0 else if before >= 0 then before else -before) + parent.pdelay
  {
    LeftIsPrevious(parent.activeports, parent.entryport, p, left);
    PreviousIsNearest(s.activeports, e, PrevPort(s.activeports, e));
    var q: Port :| Has(s.activeports, q) && PortTime(x, q) == PortTime(x, e) + stay;
    LastBack(s.activeports, x, e, q);
  }

  /** So between neighbours joined by a cable the delay is the time from the arrival at the first clock to the arrival
      here, whichever ports the frame came in at on either side. */
  lemma NeighbourDelay(s: Slave, x: PortTimes, e: Port, stay: int, parent: Slave, p: Port, left: Port, later: bool, cable: nat, before: int)
    requires Stayed(s, x, e, stay) && Passed(parent.activeports, parent.dcrt, parent.entryport)
    requires Has(parent.activeports, p) && LeftFrom(parent.activeports, parent.entryport, p, left)
    requires PortTime(parent.dcrt, p) - PortTime(parent.dcrt, left) == 2 * cable + stay
    requires before == PortTime(parent.dcrt, left) - PortTime(parent.dcrt, parent.entryport) && (later || before == 0)
    ensures Delay(Latch(s, x), Consume(parent), p, later) == parent.pdelay + before + cable
  {
    DelayOf(s, x, e, stay, parent, p, left, later, 2 * cable + stay, before);
    assert Turn(parent.entryport, parent.entryport) <= Turn(parent.entryport, left);
  }

  /** In one turn of the loop */
  lemma NeighbourMeasured(st: State, i: nat, x: PortTimes, e: Port, stay: int, p: Port, left: Port, cable: nat, before: int)
    requires ValidState(st) && 1 <= i < |st.slaves| && st.slaves[i].hasdc && Stayed(st.slaves[i], x, e, stay)
    requires var parent := st.slaves[st.slaves[i].parent];
      && st.slaves[i].parent > 0 && parent.hasdc && parent.topology != 1 && FirstPort(parent.consumedports) == p
      && Passed(parent.activeports, parent.dcrt, parent.entryport)
      && Has(parent.activeports, p) && LeftFrom(parent.activeports, parent.entryport, p, left)
      && PortTime(parent.dcrt, p) - PortTime(parent.dcrt, left) == 2 * cable + stay
      && before == PortTime(parent.dcrt, left) - PortTime(parent.dcrt, parent.entryport)
      && (i - st.slaves[i].parent > 1 || before == 0)
    ensures Step(st, i, x).slaves[i].parentport == p
    ensures Step(st, i, x).slaves[i].pdelay == st.slaves[st.slaves[i].parent].pdelay + before + cable
  {
    var parent := st.slaves[st.slaves[i].parent];
    NeighbourDelay(st.slaves[i], x, e, stay, parent, p, left, i - st.slaves[i].parent > 1, cable, before);
  }

  /** The unconsumed ports `u` of a slave entered at port `e` are given to its branches in the order of the frame,
      unless the frame came in at port 1 or 2 and there are ports on both sides of the start of the cycle. */
  lemma GivenInOrderIff(u: Ports, e: Port, p: Port)
    requires !Has(u, e) && (exists q: Port :: Has(u, q)) && p == FirstPort(u)
    ensures Has(u, p)
    ensures (forall q: Port :: Has(u, q) ==> Turn(e, p) <= Turn(e, q))
            <==> !(e == 1 && u.p3 && (u.p2 || u.p0)) && !(e == 2 && u.p0 && (u.p3 || u.p1))
  {
    assert (Has(u, 0) <==> u.p0) && (Has(u, 1) <==> u.p1) && (Has(u, 2) <==> u.p2) && (Has(u, 3) <==> u.p3);
  }

  /** Two slaves, the second plugged in by its port 1: the frame is there 10 after it was at the first. */
  lemma PluggedInByPort1(parent: Slave, s: Slave)
    requires parent.activeports == Ports(true, true, false, false) && parent.consumedports == Ports(false, true, false, false)
    requires parent.topology == 2 && parent.entryport == 0 && parent.dcrt.a == 1000 && parent.dcrt.b == 1070 && parent.pdelay == 0
    requires s.activeports == Ports(true, true, false, false) && s.topology == 2
    ensures forall x: PortTimes :: x.a == 150 && x.b == 100 ==>
      Latch(s, x).entryport == 1 && Delay(Latch(s, x), Consume(parent), FirstPort(parent.consumedports), false) == 10
  {
  }
}
