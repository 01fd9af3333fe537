/** Topology detection in `ecx_config_init`: links and open ports are read from each slave's
    data-link status, and the parent of each slave is found by scanning the list backwards. */
module Topology {
  import opened Bus

  datatype Slave = Slave(topology: nat, activeports: Ports, parent: nat)

  /** Field of the DL status register that describes one port; 2 means open with communication. */
  function LinkField(status: nat, port: nat): nat
    requires port < 4
  {
    match port
    case 0 => status / 0x100 % 4
    case 1 => status / 0x400 % 4
    case 2 => status / 0x1000 % 4
    case 3 => status / 0x4000 % 4
  }

  function OpenPorts(status: nat): Ports {
    Ports(LinkField(status, 0) == 2, LinkField(status, 1) == 2, LinkField(status, 2) == 2, LinkField(status, 3) == 2)
  }

  function LinkCount(p: Ports): nat {
    (if p.p0 then 1 else 0) + (if p.p1 then 1 else 0) + (if p.p2 then 1 else 0) + (if p.p3 then 1 else 0)
  }

  /** Contribution of one slave to the scan counter `topoc`. */
  function Weight(links: nat): int {
    if links == 1 then -1 else if links == 3 then 1 else if links == 4 then 2 else 0
  }

  /** Value of `topoc` after the scan for position `i` has gone back to position `j`. */
  ghost function Credit(links: seq<nat>, j: nat, i: nat): int
    requires j <= i <= |links|
  {
    if j == i then 0 else Credit(links, j, i - 1) + Weight(links[i - 1])
  }

  /** Slave `j` still has a free branch for slave `i`. */
  ghost predicate Offers(links: seq<nat>, j: nat, i: nat)
    requires j < i <= |links|
  {
    links[j] > 1 && Credit(links, j, i) >= 0
  }

  /** The last slave before `i` with a branch to offer; slave 1 when there is none. */
  ghost predicate IsParent(links: seq<nat>, i: nat, j: nat)
    requires i <= |links|
  {
    && 1 <= j < i
    && (j == 1 || Offers(links, j, i))
    && forall k :: j < k < i ==> !Offers(links, k, i)
  }

  ghost function LinksOf(slaves: seq<Slave>): (s: seq<nat>)
    ensures |s| == |slaves|
    ensures forall k :: 0 <= k < |s| ==> s[k] == slaves[k].topology
  {
    seq(|slaves|, k requires 0 <= k < |slaves| => slaves[k].topology)
  }

  ghost function ParentsOf(slaves: seq<Slave>): (s: seq<nat>)
    ensures |s| == |slaves|
    ensures forall k :: 0 <= k < |s| ==> s[k] == slaves[k].parent
  {
    seq(|slaves|, k requires 0 <= k < |slaves| => slaves[k].parent)
  }

  lemma CreditStep(links: seq<nat>, j: nat, i: nat)
    requires j < i <= |links|
    ensures Credit(links, j, i) == Weight(links[j]) + Credit(links, j + 1, i)
  {
    if j + 1 < i { CreditStep(links, j, i - 1); }
  }

  lemma CreditSplit(links: seq<nat>, j: nat, m: nat, i: nat)
    requires j <= m <= i <= |links|
    ensures Credit(links, j, i) == Credit(links, j, m) + Credit(links, m, i)
  {
    if m < i { CreditSplit(links, j, m, i - 1); }
  }

  lemma CreditLocal(a: seq<nat>, b: seq<nat>, j: nat, i: nat)
    requires j <= i <= |a| && i <= |b|
    requires forall k :: j <= k < i ==> a[k] == b[k]
    ensures Credit(a, j, i) == Credit(b, j, i)
  {
    if j < i { CreditLocal(a, b, j, i - 1); }
  }

  /** The master reads `dlstatus[i]` from slave `i` (entry 0 is the master itself). */
  method ReadTopology(slavelist: array<Slave>, dlstatus: seq<nat>)
    requires slavelist.Length == |dlstatus| >= 1
    modifies slavelist
    ensures slavelist[0] == old(slavelist[0])
    ensures forall i :: 1 <= i < slavelist.Length ==>
      && slavelist[i].activeports == OpenPorts(dlstatus[i])
      && slavelist[i].topology == LinkCount(OpenPorts(dlstatus[i]))
    ensures forall i :: 1 <= i < slavelist.Length ==>
      var p, status := slavelist[i].activeports, dlstatus[i];
      && (p.p0 <==> status / 256 % 4 == 2) && (p.p1 <==> status / 1024 % 4 == 2)
      && (p.p2 <==> status / 4096 % 4 == 2) && (p.p3 <==> status / 16384 % 4 == 2)
      && slavelist[i].topology == (if p.p0 then 1 else 0) + (if p.p1 then 1 else 0) + (if p.p2 then 1 else 0) + (if p.p3 then 1 else 0)
    ensures forall i :: 2 <= i < slavelist.Length ==>
      var j := slavelist[i].parent; 1 <= j < i && (j == 1 || slavelist[j].topology > 1)
    ensures slavelist.Length > 1 ==> slavelist[1].parent == 0
    ensures forall i :: 2 <= i < slavelist.Length ==> IsParent(LinksOf(slavelist[..]), i, slavelist[i].parent)
  {
    var slave := 1;
    while slave < slavelist.Length
      invariant 1 <= slave <= slavelist.Length
      invariant slavelist[0] == old(slavelist[0])
      invariant forall i :: 1 <= i < slave ==>
        && slavelist[i].activeports == OpenPorts(dlstatus[i])
        && slavelist[i].topology == LinkCount(OpenPorts(dlstatus[i]))
      invariant slave > 1 ==> slavelist[1].parent == 0
      invariant forall i :: 2 <= i < slave ==> IsParent(LinksOf(slavelist[..]), i, slavelist[i].parent)
    {
      var b := OpenPorts(dlstatus[slave]);
      ghost var before := LinksOf(slavelist[..]);
      var parent := 0;
      if slave > 1 {
        parent := FindParent(slavelist, slave);
      }
      slavelist[slave] := Slave(LinkCount(b), b, parent);
      ghost var after := LinksOf(slavelist[..]);
      forall i | 2 <= i < slave + 1 ensures IsParent(after, i, slavelist[i].parent) {
        assert IsParent(before, i, slavelist[i].parent);
        ParentLocal(before, after, i, slavelist[i].parent);
      }
      slave := slave + 1;
    }
  }

  lemma ParentLocal(a: seq<nat>, b: seq<nat>, i: nat, j: nat)
    requires i <= |a| && i <= |b|
    requires forall k :: 0 <= k < i ==> a[k] == b[k]
    requires IsParent(a, i, j)
    ensures IsParent(b, i, j)
  {
    forall k | j <= k < i ensures Offers(a, k, i) == Offers(b, k, i) {
      CreditLocal(a, b, k, i);
    }
  }

  /** The do-while scan: `topoc` counts branches, `slavec` runs back to slave 1. */
  method FindParent(slavelist: array<Slave>, slave: nat) returns (parent: nat)
    requires 2 <= slave < slavelist.Length
    ensures IsParent(LinksOf(slavelist[..]), slave, parent)
  {
    ghost var links := LinksOf(slavelist[..]);
    parent := 0;
    var topoc: int := 0;
    var slavec: nat := slave - 1;
    var first := true;
    while first || slavec > 0
      invariant slavec < slave
      invariant first ==> slavec == slave - 1
      invariant slavec > 0 ==> topoc == Credit(links, slavec + 1, slave)
      invariant slavec > 0 ==> forall k :: slavec < k < slave ==> !Offers(links, k, slave)
      invariant slavec == 0 ==> IsParent(links, slave, parent)
      decreases slavec
    {
      first := false;
      var topology := slavelist[slavec].topology;
      CreditStep(links, slavec, slave);
      if topology == 1 {
        topoc := topoc - 1;
      }
      if topology == 3 {
        topoc := topoc + 1;
      }
      if topology == 4 {
        topoc := topoc + 2;
      }
      if (topoc >= 0 && topology > 1) || slavec == 1 {
        parent := slavec;
        slavec := 1;
      }
      slavec := slavec - 1;
    }
  }

  lemma ParentIsUnique(links: seq<nat>, i: nat, j: nat, k: nat)
    requires i <= |links| && IsParent(links, i, j) && IsParent(links, i, k)
    ensures j == k
  {
  }

  // ----- the scan recovers the wiring -----

  /** `links` holds the link counts of the slaves of `t`, the first one at position `base`. */
  ghost predicate Counted(links: seq<nat>, t: Line, base: nat) {
    t.Station? ==>
      && base < |links| && links[base] == t.Links()
      && Counted(links, t.l3, t.First3(base))
      && Counted(links, t.l1, t.First1(base))
      && Counted(links, t.l2, t.First2(base))
  }

  /** From `lo` up to `hi` nobody has credit left at `hi`. */
  ghost predicate Spent(links: seq<nat>, lo: nat, hi: nat)
    requires hi <= |links|
  {
    forall k :: lo <= k < hi ==> Credit(links, k, hi) < 0
  }

  /** A whole branch uses up exactly one unit of credit. */
  lemma {:induction false} BranchCredit(links: seq<nat>, t: Line, base: nat)
    requires Counted(links, t, base) && base + t.Size() <= |links|
    ensures Credit(links, base, base + t.Size()) == if t.Stop? then 0 else -1
  {
    if t.Station? {
      var b1, b2, end := t.First1(base), t.First2(base), base + t.Size();
      BranchCredit(links, t.l3, base + 1);
      BranchCredit(links, t.l1, b1);
      BranchCredit(links, t.l2, b2);
      CreditSplit(links, b1, b2, end);
      CreditSplit(links, base + 1, b1, end);
      CreditStep(links, base, end);
    }
  }

  /** Every later part of a branch uses up at least one unit, too. */
  lemma {:induction false} BranchSpent(links: seq<nat>, t: Line, base: nat)
    requires Counted(links, t, base) && base + t.Size() <= |links|
    ensures Spent(links, base, base + t.Size())
  {
    if t.Station? {
      var b1, b2, end := t.First1(base), t.First2(base), base + t.Size();
      BranchSpent(links, t.l3, base + 1);
      BranchSpent(links, t.l1, b1);
      BranchSpent(links, t.l2, b2);
      SpentJoin(links, base + 1, b1, b2);
      SpentJoin(links, base + 1, b2, end);
      BranchCredit(links, t, base);
    }
  }

  lemma SpentJoin(links: seq<nat>, lo: nat, mid: nat, hi: nat)
    requires lo <= mid <= hi <= |links|
    requires Spent(links, lo, mid) && Spent(links, mid, hi)
    ensures Spent(links, lo, hi)
  {
    forall k | lo <= k < mid ensures Credit(links, k, hi) < 0 {
      CreditSplit(links, k, mid, hi);
    }
  }

  /** Slave `p` offers a branch to position `base` and nobody after `p` does. */
  ghost predicate Waiting(links: seq<nat>, p: nat, base: nat)
    requires base <= |links|
  {
    1 <= p < base && Offers(links, p, base) && forall k :: p < k < base ==> !Offers(links, k, base)
  }

  /** Each slave of `t` is recorded with the parent it is wired to. */
  ghost predicate Wired(parents: seq<nat>, t: Line, parent: nat, base: nat) {
    t.Station? ==>
      && base < |parents| && parents[base] == parent
      && Wired(parents, t.l3, base, t.First3(base))
      && Wired(parents, t.l1, base, t.First1(base))
      && Wired(parents, t.l2, base, t.First2(base))
  }

  /** `parents` is what the backward scan finds for positions `lo` to `hi - 1`. */
  ghost predicate Scanned(links: seq<nat>, parents: seq<nat>, lo: nat, hi: nat)
    requires hi <= |links| == |parents|
  {
    forall i :: lo <= i < hi ==> IsParent(links, i, parents[i])
  }

  lemma {:induction false} BranchWired(links: seq<nat>, parents: seq<nat>, t: Line, p: nat, base: nat)
    requires Counted(links, t, base) && base + t.Size() <= |links| == |parents|
    requires Scanned(links, parents, base, base + t.Size())
    requires t.Station? ==> Waiting(links, p, base)
    ensures Wired(parents, t, p, base)
    decreases t, 1
  {
    if t.Station? {
      ParentIsUnique(links, base, p, parents[base]);
      ChildrenWired(links, parents, t, base);
    }
  }

  /** What a slave has left after its first one or two branches; nobody inside those has any. */
  lemma CreditAfterBranches(links: seq<nat>, t: Line, base: nat)
    requires t.Station? && Counted(links, t, base) && base + t.Size() <= |links|
    ensures var has3 := if t.l3.Station? then 1 else 0;
            var has1 := if t.l1.Station? then 1 else 0;
            && Credit(links, base, t.First1(base)) == Weight(t.Links()) - has3
            && Credit(links, base, t.First2(base)) == Weight(t.Links()) - has3 - has1
    ensures Spent(links, base + 1, t.First1(base)) && Spent(links, base + 1, t.First2(base))
  {
    var b1, b2 := t.First1(base), t.First2(base);
    BranchCredit(links, t.l3, base + 1);
    BranchCredit(links, t.l1, b1);
    BranchSpent(links, t.l3, base + 1);
    BranchSpent(links, t.l1, b1);
    CreditStep(links, base, b1);
    CreditSplit(links, base, b1, b2);
    SpentJoin(links, base + 1, b1, b2);
  }

  /** After the branches before it are done, a slave still offers its next branch. */
  lemma StillWaiting(links: seq<nat>, t: Line, base: nat)
    requires t.Station? && 1 <= base
    requires Counted(links, t, base) && base + t.Size() <= |links|
    ensures t.l3.Station? ==> Waiting(links, base, t.First3(base))
    ensures t.l1.Station? ==> Waiting(links, base, t.First1(base))
    ensures t.l2.Station? ==> Waiting(links, base, t.First2(base))
  {
    CreditAfterBranches(links, t, base);
    assert Credit(links, base, base + 1) == Weight(t.Links());
    if t.l2.Station? && t.l1.Stop? {
      assert t.First2(base) == t.First1(base);
    }
  }

  /** The three branches of the slave at `base` find that slave as their parent. */
  lemma {:induction false} ChildrenWired(links: seq<nat>, parents: seq<nat>, t: Line, base: nat)
    requires t.Station? && 1 <= base
    requires Counted(links, t, base) && base + t.Size() <= |links| == |parents|
    requires Scanned(links, parents, base + 1, base + t.Size())
    ensures Wired(parents, t.l3, base, t.First3(base))
    ensures Wired(parents, t.l1, base, t.First1(base))
    ensures Wired(parents, t.l2, base, t.First2(base))
    decreases t, 0
  {
    var b1, b2 := t.First1(base), t.First2(base);
    StillWaiting(links, t, base);
    BranchWired(links, parents, t.l3, base, base + 1);
    BranchWired(links, parents, t.l1, base, b1);
    BranchWired(links, parents, t.l2, base, b2);
  }

  /** Every slave's DL status shows exactly the ports that are wired: two bits each, which are 2 when the port is open
      and communicates. */
  ghost predicate Reports(dlstatus: seq<nat>, t: Line, base: nat) {
    t.Station? ==>
      && base < |dlstatus|
      && dlstatus[base] / 256 % 4 == 2 && (dlstatus[base] / 1024 % 4 == 2 <==> t.l1.Station?)
      && (dlstatus[base] / 4096 % 4 == 2 <==> t.l2.Station?) && (dlstatus[base] / 16384 % 4 == 2 <==> t.l3.Station?)
      && Reports(dlstatus, t.l3, t.First3(base))
      && Reports(dlstatus, t.l1, t.First1(base))
      && Reports(dlstatus, t.l2, t.First2(base))
  }

  lemma CountedFromReports(dlstatus: seq<nat>, links: seq<nat>, t: Line, base: nat)
    requires Reports(dlstatus, t, base) && |links| == |dlstatus| && 1 <= base
    requires forall k :: 1 <= k < |links| ==> links[k] == LinkCount(OpenPorts(dlstatus[k]))
    ensures Counted(links, t, base)
  {
  }

  /** For every wired tree, the parents the scan finds are the slaves the cables come from. */
  lemma ScanRecoversWiring(bus: Line, dlstatus: seq<nat>, slaves: seq<Slave>)
    requires |slaves| == |dlstatus| == 1 + bus.Size()
    requires Reports(dlstatus, bus, 1)
    requires forall i :: 1 <= i < |slaves| ==> slaves[i].topology == LinkCount(OpenPorts(dlstatus[i]))
    requires |slaves| > 1 ==> slaves[1].parent == 0
    requires forall i :: 2 <= i < |slaves| ==> IsParent(LinksOf(slaves), i, slaves[i].parent)
    ensures Wired(ParentsOf(slaves), bus, 0, 1)
  {
    if bus.Station? {
      CountedFromReports(dlstatus, LinksOf(slaves), bus, 1);
      ChildrenWired(LinksOf(slaves), ParentsOf(slaves), bus, 1);
    }
  }
}
