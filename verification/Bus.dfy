/** The wired bus: a tree of slaves entered at port 0, the numbering of its slaves, and the walk of
    one EtherCAT frame over it.  This is the specification side of topology detection and of the
    distributed-clock delay measurement; nothing in here looks at how the master computes. */
module Bus {

  /** A set of ports of one slave (the bitmaps `activeports` and `consumedports`). */
  datatype Ports = Ports(p0: bool, p1: bool, p2: bool, p3: bool)

  /** What is plugged into a port: nothing, or a cable of the given delay to a slave.  A frame leaves
      a slave through ports 3, 1, 2 in that order, so the slaves are numbered in that order too.
      `offset` is the unknown starting value of the slave's own receive-time clock. */
  datatype Line =
    | Stop
    | Station(hasdc: bool, delay: nat, offset: int, l3: Line, l1: Line, l2: Line)
  {
    /** Number of slaves reached through this line. */
    function Size(): nat {
      if Stop? then 0 else 1 + l3.Size() + l1.Size() + l2.Size()
    }

    /** Some slave of the line has a clock. */
    predicate Clocked() { Station? && (hasdc || l3.Clocked() || l1.Clocked() || l2.Clocked()) }

    /** Some slave of the line has more than one branch. */
    predicate Split() { Station? && (Links() > 2 || l3.Split() || l1.Split() || l2.Split()) }

    /** Number of links of the slave at the near end: its children and its upstream link. */
    function Links(): nat
      requires Station?
    {
      1 + (if l3.Station? then 1 else 0) + (if l1.Station? then 1 else 0) + (if l2.Station? then 1 else 0)
    }

    function Active(): Ports
      requires Station?
    {
      Ports(true, l1.Station?, l2.Station?, l3.Station?)
    }

    // When the near-end slave has list position `base`, its branches start at these positions.

    function First3(base: nat): nat { base + 1 }

    function First1(base: nat): nat
      requires Station?
    {
      base + 1 + l3.Size()
    }

    function First2(base: nat): nat
      requires Station?
    {
      base + 1 + l3.Size() + l1.Size()
    }

    // The frame leaves the near end of the line at time `leave`.  It is received on the slave's port
    // 0, runs through the branches 3, 1, 2 in turn and is received on each port as it comes back; a
    // port without a link hands it on at once.

    function At0(leave: int): int
      requires Station?
    {
      leave + delay
    }

    function At3(leave: int): (at: int)
      requires Station?
      ensures At0(leave) <= at
      decreases this, 1
    {
      l3.Back(At0(leave))
    }

    function At1(leave: int): (at: int)
      requires Station?
      ensures At3(leave) <= at
      decreases this, 2
    {
      l1.Back(At3(leave))
    }

    function At2(leave: int): (at: int)
      requires Station?
      ensures At1(leave) <= at
      decreases this, 3
    {
      l2.Back(At1(leave))
    }

    /** The time at which the frame is back at the near end. */
    function Back(leave: int): (back: int)
      ensures leave <= back && (Stop? ==> back == leave)
      decreases this, 4
    {
      if Stop? then leave else At2(leave) + delay
    }
  }
}
