/** The overlapped process image (`ecx_config_overlap_map_group`): outputs and inputs of a slave share one
    logical range; in the IOmap the inputs are moved behind the outputs at the end. */
module OverlapImage {
  import opened Fmmu
  import opened Segments
  import opened ProcessImage

  predicate Member(s: Slave, group: nat) { group == 0 || s.group == group }

  /** Whole bytes needed for one side. */
  function Bytes(s: Slave, d: Dir): nat { (s.Side(d).bits + 7) / 8 }

  function Max(a: nat, b: nat): nat { if a > b then a else b }

  /** Bytes a slave takes in the logical image: the larger of its sides. */
  function Width(s: Slave, group: nat): nat {
    if Member(s, group) then Max(Bytes(s, Out), Bytes(s, In)) else 0
  }

  /** The logical address at which slave `k` starts. */
  ghost function AddrAt(list: seq<Slave>, group: nat, start: nat, k: nat): (a: nat)
    requires 1 <= k <= |list|
    ensures start <= a
  {
    if k == 1 then start else AddrAt(list, group, start, k - 1) + Width(list[k - 1], group)
  }

  /** The end of one side of slave `k`. */
  ghost function EndAt(list: seq<Slave>, group: nat, start: nat, k: nat, d: Dir): nat
    requires 1 <= k < |list|
  {
    AddrAt(list, group, start, k) + if Member(list[k], group) then Bytes(list[k], d) else 0
  }

  /** The segment table after the slaves before `k`; every slave of the group contributes. */
  ghost function CutAt(list: seq<Slave>, group: nat, k: nat): (r: Cut)
    requires 1 <= k <= |list|
    ensures r.Valid()
  {
    if k == 1 then NO_CUT
    else
      var r := CutAt(list, group, k - 1);
      if Member(list[k - 1], group) then Add(r, Width(list[k - 1], group)) else r
  }

  ghost function Widths(list: seq<Slave>, group: nat, k: nat): seq<nat>
    requires 1 <= k <= |list|
  {
    if k == 1 then []
    else
      var before := Widths(list, group, k - 1);
      if Member(list[k - 1], group) then before + [Width(list[k - 1], group)] else before
  }

  /** Side `d` of the slave is mapped at byte `a`; its data pointer is set `shift` bytes further on. */
  ghost predicate MappedAt(r: Slave, s: Slave, d: Dir, base: nat, a: nat, shift: nat) {
    && |r.fmmu| == MAXFMMU && base <= a
    && r.Side(d) == Moved(InIoMap(s.Side(d), Cursor(a, 0), base), shift)
    && exists lo, hi :: MappedBy(r, d, Cursor(a, 0), lo, hi)
  }

  function Moved(io: Io, shift: nat): Io {
    if io.ptr.Some? then io.(ptr := Some(io.ptr.value + shift)) else io
  }

  /** Both sides of slave `k` are mapped, the inputs moved by `shift`. */
  ghost predicate BothMapped(r: Slave, list: seq<Slave>, group: nat, base: nat, start: nat, k: nat, shift: nat)
    requires 1 <= k < |list|
  {
    && r.group == list[k].group && r.input.bits == list[k].input.bits
    && (Takes(list[k], Out, group) ==> MappedAt(r, list[k], Out, base, AddrAt(list, group, start, k), 0))
    && (Takes(list[k], In, group) ==> MappedAt(r, list[k], In, base, AddrAt(list, group, start, k), shift))
  }

  /** The slaves before `n` are mapped, the others are as they were. */
  ghost predicate MapState(now: seq<Slave>, list: seq<Slave>, group: nat, base: nat, start: nat, n: nat) {
    && 1 <= n <= |list| == |now| && base <= start && AllValid(list)
    && (forall k :: n <= k < |list| ==> now[k] == list[k])
    && (forall k :: 1 <= k < n ==> BothMapped(now[k], list, group, base, start, k, 0))
  }

  /** The slaves before `n` have units enough. */
  ghost predicate MembersFit(list: seq<Slave>, group: nat, n: nat)
    requires n <= |list| && AllValid(list)
  {
    forall k :: 1 <= k < n && Member(list[k], group) ==> BothSuffice(list[k])
  }

  lemma AllMembersFit(list: seq<Slave>, group: nat)
    requires AllValid(list)
    ensures MembersFit(list, group, |list|) <==> GroupFits(list, group)
  {
  }

  lemma MemberFits(list: seq<Slave>, group: nat, n: nat)
    requires 1 <= n < |list| && AllValid(list) && MembersFit(list, group, n)
    ensures if Member(list[n], group) ==> BothSuffice(list[n]) then MembersFit(list, group, n + 1) else !GroupFits(list, group)
  {
    if Member(list[n], group) ==> BothSuffice(list[n]) {
      forall k | 1 <= k < n + 1 && Member(list[k], group) ensures BothSuffice(list[k]) {
        assert k == n || k < n;
      }
    } else {
      AllMembersFit(list, group);
    }
  }

  /** Map one side of a slave, if it has data, from byte `m` on; `e` is the next free byte. */
  method MapOne(slavelist: array<Slave>, slave: nat, d: Dir, base: nat, m: nat) returns (ok: bool, e: nat, taken: bool, ghost lo: nat)
    requires 1 <= slave < slavelist.Length && slavelist[slave].Valid() && slavelist[slave].unused <= MAXFMMU && base <= m
    modifies slavelist
    ensures forall k :: 0 <= k < slavelist.Length && k != slave ==> slavelist[k] == old(slavelist[k])
    ensures taken == (old(slavelist[slave]).Side(d).bits > 0) && (ok <==> taken ==> Suffice(old(slavelist[slave]), d))
    ensures ok ==> e == m + Bytes(old(slavelist[slave]), d)
    ensures ok ==> if taken then Placed(slavelist[slave], old(slavelist[slave]), d, base, Cursor(m, 0), lo)
                   else slavelist[slave] == old(slavelist[slave])
  {
    ok, e, lo := true, m, 0;
    taken := slavelist[slave].Side(d).bits > 0;
    if taken {
      var c;
      ghost var runs;
      ok, c, lo, runs := CreateMappings(slavelist, slave, d, base, Cursor(m, 0));
      e := c.addr;
      if c.bit > 0 {
        e := e + 1;
      }
    }
  }

  /** Map both sides of one slave from byte `m` on. */
  method MapBoth(slavelist: array<Slave>, slave: nat, group: nat, base: nat, m: nat)
    returns (ok: bool, so: nat, si: nat, outputs: bool, inputs: bool)
    requires 1 <= slave < slavelist.Length && slavelist[slave].Valid() && slavelist[slave].unused <= MAXFMMU
    requires Member(slavelist[slave], group) && base <= m
    modifies slavelist
    ensures forall k :: 0 <= k < slavelist.Length && k != slave ==> slavelist[k] == old(slavelist[k])
    ensures ok <==> BothSuffice(old(slavelist[slave]))
    ensures ok ==>
      var r, s := slavelist[slave], old(slavelist[slave]);
      && r.group == s.group && r.input.bits == s.input.bits
      && so == m + Bytes(s, Out) && si == m + Bytes(s, In)
      && (outputs <==> s.output.bits > 0) && (inputs <==> s.input.bits > 0)
      && (outputs ==> MappedAt(r, s, Out, base, m, 0)) && (inputs ==> MappedAt(r, s, In, base, m, 0))
  {
    ghost var s, lo, li := slavelist[slave], 0, 0;
    si, inputs := m, false;
    ok, so, outputs, lo := MapOne(slavelist, slave, Out, base, m);
    if !ok {
      return;
    }
    ghost var half := slavelist[slave];
    if outputs { InputsAfterOutputs(half, s, base, Cursor(m, 0), lo); }
    ok, si, inputs, li := MapOne(slavelist, slave, In, base, m);
    if ok {
      SidesMapped(slavelist[slave], half, s, base, m, lo, li);
    }
  }

  lemma SidesMapped(r: Slave, half: Slave, s: Slave, base: nat, m: nat, lo: nat, li: nat)
    requires base <= m && s.Valid()
    requires if s.output.bits > 0 then Placed(half, s, Out, base, Cursor(m, 0), lo) else half == s
    requires if half.input.bits > 0 then Placed(r, half, In, base, Cursor(m, 0), li) else r == half
    ensures r.group == s.group && r.input.bits == s.input.bits && half.input == s.input
    ensures s.output.bits > 0 ==> MappedAt(r, s, Out, base, m, 0)
    ensures s.input.bits > 0 ==> MappedAt(r, s, In, base, m, 0)
  {
    var c := Cursor(m, 0);
    if s.output.bits > 0 {
      assert MappedBy(half, Out, c, lo, half.unused);
      if half.input.bits > 0 {
        KeepsUnits(r, half, Out, c, lo, half.unused, li);
      }
      assert MappedBy(r, Out, c, lo, half.unused);
    }
    if s.input.bits > 0 {
      assert MappedBy(r, In, c, li, r.unused);
    }
  }

  /** The group record after the overlapped map of a list with at least one slave. */
  ghost predicate Recorded(g: Group, list: seq<Slave>, group: nat, start: nat)
    requires |list| > 1
    reads g, g.iosegment
  {
    var n := |list| - 1;
    var r := CutAt(list, group, |list|);
    && start + g.obytes == EndAt(list, group, start, n, Out)
    && start + g.ibytes == EndAt(list, group, start, n, In)
    && g.isegment == 0 && g.ioffset == 0
    && g.outputsWKC == Contributors(list, Out, group, |list|) && g.inputsWKC == Contributors(list, In, group, |list|)
    && g.nsegments == |r.All()| && g.iosegment.Length == MAXIOSEGMENTS && g.iosegment[..g.nsegments] == r.All()
  }

  method MapGroupOverlap(slavelist: array<Slave>, g: Group, group: nat) returns (ok: bool, size: nat)
    requires slavelist.Length > 1 && AllValid(slavelist[..]) && g.iosegment.Length == MAXIOSEGMENTS
    modifies slavelist, g, g.iosegment
    ensures g.logstartaddr == old(g.logstartaddr)
    ensures ok <==> GroupFits(old(slavelist[..]), group)
    ensures ok ==>
      var list, start := old(slavelist[..]), g.logstartaddr;
      && (forall k :: 1 <= k < |list| ==> BothMapped(slavelist[k], list, group, Base(group, start), start, k, g.obytes))
      && Recorded(g, list, group, start) && size == g.obytes + g.ibytes && g.isegment == g.ioffset == 0
  {
    ghost var list := slavelist[..];
    var start := g.logstartaddr;
    var so, si;
    ok, so, si := MapAll(slavelist, g, group, start);
    if !ok {
      return false, 0;
    }
    g.isegment, g.ioffset := 0, 0;
    g.obytes, g.ibytes := so - start, si - start;
    MoveInputs(slavelist, group, g.obytes, list, Base(group, start), start);
    size := g.obytes + g.ibytes;
  }

  /** The loop over the slaves. */
  method MapAll(slavelist: array<Slave>, g: Group, group: nat, start: nat) returns (ok: bool, so: nat, si: nat)
    requires slavelist.Length > 1 && AllValid(slavelist[..]) && g.iosegment.Length == MAXIOSEGMENTS
    modifies slavelist, g`nsegments, g`outputsWKC, g`inputsWKC, g.iosegment
    ensures ok <==> GroupFits(old(slavelist[..]), group)
    ensures ok ==>
      var list := old(slavelist[..]);
      var r := CutAt(list, group, |list|);
      && MapState(slavelist[..], list, group, Base(group, start), start, |list|)
      && so == EndAt(list, group, start, |list| - 1, Out) && si == EndAt(list, group, start, |list| - 1, In)
      && g.outputsWKC == Contributors(list, Out, group, |list|) && g.inputsWKC == Contributors(list, In, group, |list|)
      && g.nsegments == |r.All()| && g.iosegment[..g.nsegments] == r.All()
  {
    ghost var list := slavelist[..];
    var base := Base(group, start);
    var m, current, segmentsize, owkc, iwkc := start, 0, 0, 0, 0;
    ok, so, si := true, start, start;
    var slave := 1;
    while slave < slavelist.Length
      invariant 1 <= slave <= slavelist.Length == |list| && ok
      invariant MapState(slavelist[..], list, group, base, start, slave) && MembersFit(list, group, slave)
      invariant Counted(list, group, start, slave, m, so, si, owkc, iwkc)
      invariant SegmentState(g.iosegment, CutAt(list, group, slave), current, segmentsize)
    {
      ok, m, so, si, owkc, iwkc, current, segmentsize :=
        Step(slavelist, slave, group, base, m, owkc, iwkc, g.iosegment, current, segmentsize, list, start);
      if !ok {
        return;
      }
      slave := slave + 1;
    }
    AllMembersFit(list, group);
    g.outputsWKC, g.inputsWKC := owkc, iwkc;
    LastSegmentEntry(g, current, segmentsize, CutAt(list, group, |list|));
  }

  /** Where the loop over the slaves stands before slave `n`. */
  ghost predicate Counted(list: seq<Slave>, group: nat, start: nat, n: nat, m: nat, so: nat, si: nat, owkc: nat, iwkc: nat)
    requires 1 <= n <= |list|
  {
    && m == AddrAt(list, group, start, n)
    && (n > 1 ==> so == EndAt(list, group, start, n - 1, Out) && si == EndAt(list, group, start, n - 1, In))
    && owkc == Contributors(list, Out, group, n) && iwkc == Contributors(list, In, group, n)
  }

  /** One round of the loop */
  method Step(slavelist: array<Slave>, slave: nat, group: nat, base: nat, m0: nat, owkc0: nat, iwkc0: nat,
              iosegment: array<nat>, current0: nat, size0: nat, ghost list: seq<Slave>, ghost start: nat)
    returns (ok: bool, m: nat, so: nat, si: nat, owkc: nat, iwkc: nat, current: nat, size: nat)
    requires slave < slavelist.Length && MapState(slavelist[..], list, group, base, start, slave)
    requires m0 == AddrAt(list, group, start, slave) && SegmentState(iosegment, CutAt(list, group, slave), current0, size0)
    requires owkc0 == Contributors(list, Out, group, slave) && iwkc0 == Contributors(list, In, group, slave)
    requires MembersFit(list, group, slave)
    modifies slavelist, iosegment
    ensures if ok then MembersFit(list, group, slave + 1) else !GroupFits(list, group)
    ensures ok ==> MapState(slavelist[..], list, group, base, start, slave + 1)
    ensures ok ==> Counted(list, group, start, slave + 1, m, so, si, owkc, iwkc)
    ensures ok ==> SegmentState(iosegment, CutAt(list, group, slave + 1), current, size)
  {
    MemberFits(list, group, slave);
    var member, outputs, inputs;
    m, owkc, iwkc, current, size := m0, owkc0, iwkc0, current0, size0;
    ok, member, so, si, outputs, inputs := VisitSlave(slavelist, slave, group, base, m, list, start);
    if !ok {
      return;
    }
    owkc, iwkc := owkc + (if outputs then 1 else 0), iwkc + (if inputs then 1 else 0);
    if member {
      var next := Max(si, so);
      current, size := AddToSegment(iosegment, current, size, next - m, CutAt(list, group, slave));
      m := next;
    }
  }

  method VisitSlave(slavelist: array<Slave>, slave: nat, group: nat, base: nat, m: nat, ghost list: seq<Slave>, ghost start: nat)
    returns (ok: bool, member: bool, so: nat, si: nat, outputs: bool, inputs: bool)
    requires slave < slavelist.Length && MapState(slavelist[..], list, group, base, start, slave)
    requires m == AddrAt(list, group, start, slave)
    modifies slavelist
    ensures ok <==> Member(list[slave], group) ==> BothSuffice(list[slave])
    ensures ok ==> MapState(slavelist[..], list, group, base, start, slave + 1)
    ensures ok ==> so == EndAt(list, group, start, slave, Out) && si == EndAt(list, group, start, slave, In)
    ensures ok ==> member == Member(list[slave], group)
    ensures ok ==> outputs == Takes(list[slave], Out, group) && inputs == Takes(list[slave], In, group)
  {
    ghost var now := slavelist[..];
    ok, so, si, outputs, inputs := true, m, m, false, false;
    member := Member(slavelist[slave], group);
    if member {
      ok, so, si, outputs, inputs := MapBoth(slavelist, slave, group, base, m);
      if !ok {
        return;
      }
    }
    MapStep(now, slavelist[..], list, group, base, start, slave);
  }

  lemma MapStep(now: seq<Slave>, next: seq<Slave>, list: seq<Slave>, group: nat, base: nat, start: nat, n: nat)
    requires MapState(now, list, group, base, start, n) && n < |list| == |next|
    requires forall k :: 0 <= k < |list| && k != n ==> next[k] == now[k]
    requires BothMapped(next[n], list, group, base, start, n, 0)
    ensures MapState(next, list, group, base, start, n + 1)
  {
  }

  /** Move the input pointers behind the outputs. */
  method MoveInputs(slavelist: array<Slave>, group: nat, obytes: nat, ghost list: seq<Slave>, ghost base: nat, ghost start: nat)
    requires MapState(slavelist[..], list, group, base, start, |list|)
    modifies slavelist
    ensures forall k :: 1 <= k < |list| ==> BothMapped(slavelist[k], list, group, base, start, k, obytes)
  {
    var slave := 1;
    while slave < slavelist.Length
      invariant 1 <= slave <= slavelist.Length == |list|
      invariant forall k :: slave <= k < |list| ==> BothMapped(slavelist[k], list, group, base, start, k, 0)
      invariant forall k :: 1 <= k < slave ==> BothMapped(slavelist[k], list, group, base, start, k, obytes)
    {
      var s := slavelist[slave];
      if Takes(s, In, group) {
        var r := s.(input := Moved(s.input, obytes));
        MovedMapped(s, r, list, group, base, start, slave, obytes);
        slavelist[slave] := r;
      }
      slave := slave + 1;
    }
  }

  lemma MovedMapped(s: Slave, r: Slave, list: seq<Slave>, group: nat, base: nat, start: nat, k: nat, shift: nat)
    requires 1 <= k < |list| && BothMapped(s, list, group, base, start, k, 0) && Takes(s, In, group)
    requires r == s.(input := Moved(s.input, shift))
    ensures BothMapped(r, list, group, base, start, k, shift)
  {
    var a := AddrAt(list, group, start, k);
    if Takes(list[k], Out, group) {
      var lo, hi :| MappedBy(s, Out, Cursor(a, 0), lo, hi);
      assert MappedBy(r, Out, Cursor(a, 0), lo, hi);
    }
    var lo, hi :| MappedBy(s, In, Cursor(a, 0), lo, hi);
    assert MappedBy(r, In, Cursor(a, 0), lo, hi);
  }

  // ----- what the image looks like -----

  lemma {:induction false} AddrGrows(list: seq<Slave>, group: nat, start: nat, j: nat, k: nat)
    requires 1 <= j <= k <= |list|
    ensures AddrAt(list, group, start, j) <= AddrAt(list, group, start, k)
  {
    if j < k { AddrGrows(list, group, start, j, k - 1); }
  }

  /** Logical ranges of different slaves do not overlap, whichever sides are taken. */
  lemma RangesDisjoint(list: seq<Slave>, group: nat, start: nat, j: nat, k: nat, d: Dir, e: Dir)
    requires 1 <= j < k < |list| && Takes(list[j], d, group) && Takes(list[k], e, group)
    ensures EndAt(list, group, start, j, d) <= AddrAt(list, group, start, k)
  {
    AddrGrows(list, group, start, j + 1, k);
  }

  /** Outputs end within the output bytes and inputs, counted from the same start, within the input bytes;
      in the IOmap the inputs come `obytes` later, so there the two do not overlap. */
  lemma SidesInRange(g: Group, list: seq<Slave>, group: nat, start: nat, k: nat, d: Dir)
    requires |list| > 1 && Recorded(g, list, group, start) && 1 <= k < |list| && Takes(list[k], d, group)
    ensures start <= AddrAt(list, group, start, k)
    ensures EndAt(list, group, start, k, d) <= start + if d.Out? then g.obytes else g.ibytes
  {
    var n := |list| - 1;
    if k < n { AddrGrows(list, group, start, k + 1, n); }
  }

  /** Where the data of slave `k` are found in the I/O map: outputs in the first `obytes` bytes, inputs in the
      `ibytes` bytes behind them, from a whole byte on, so that in the I/O map nothing is shared. */
  lemma DataSeparateInIoMap(r: Slave, g: Group, list: seq<Slave>, group: nat, start: nat, k: nat)
    requires |list| > 1 && Recorded(g, list, group, start) && 1 <= k < |list|
    requires BothMapped(r, list, group, Base(group, start), start, k, g.obytes)
    requires list[k].output.ptr == None && list[k].input.ptr == None
    ensures var first := if group > 0 then 0 else start;
      && (Takes(list[k], Out, group) ==>
            r.output.ptr.Some? && r.output.startbit == 0
            && r.output.ptr.value == first + AddrAt(list, group, start, k) - start
            && first <= r.output.ptr.value && r.output.ptr.value + Bytes(list[k], Out) <= first + g.obytes)
      && (Takes(list[k], In, group) ==>
            r.input.ptr.Some? && r.input.startbit == 0
            && r.input.ptr.value == first + g.obytes + AddrAt(list, group, start, k) - start
            && first + g.obytes <= r.input.ptr.value
            && r.input.ptr.value + Bytes(list[k], In) <= first + g.obytes + g.ibytes)
  {
    if Takes(list[k], Out, group) {
      SidesInRange(g, list, group, start, k, Out);
    }
    if Takes(list[k], In, group) {
      SidesInRange(g, list, group, start, k, In);
    }
  }

  /** And no byte of it is given to two slaves. */
  lemma NoByteIsShared(q: Slave, r: Slave, g: Group, list: seq<Slave>, group: nat, start: nat, j: nat, k: nat, d: Dir)
    requires |list| > 1 && Recorded(g, list, group, start) && 1 <= j < k < |list|
    requires BothMapped(q, list, group, Base(group, start), start, j, g.obytes)
    requires BothMapped(r, list, group, Base(group, start), start, k, g.obytes)
    requires list[j].output.ptr == list[j].input.ptr == list[k].output.ptr == list[k].input.ptr == None
    requires Takes(list[j], d, group) && Takes(list[k], d, group)
    ensures q.Side(d).ptr.Some? && r.Side(d).ptr.Some?
    ensures q.Side(d).ptr.value + (list[j].Side(d).bits + 7) / 8 <= r.Side(d).ptr.value
  {
    DataSeparateInIoMap(q, g, list, group, start, j);
    DataSeparateInIoMap(r, g, list, group, start, k);
    RangesDisjoint(list, group, start, j, k, d, d);
  }

  lemma {:induction false} CutFollowsWidths(list: seq<Slave>, group: nat, start: nat, k: nat)
    requires 1 <= k <= |list|
    ensures CutAt(list, group, k) == AddAll(NO_CUT, Widths(list, group, k))
    ensures start + Sum(Widths(list, group, k)) == AddrAt(list, group, start, k)
  {
    if k > 1 {
      CutFollowsWidths(list, group, start, k - 1);
      var w := Width(list[k - 1], group);
      var before := Widths(list, group, k - 1);
      if Member(list[k - 1], group) {
        AddAllAppend(NO_CUT, before, w);
        SumAppend(before, w);
      }
    }
  }

  /** If every slave fits a datagram, the segments add up to the larger of the two sides if and only if no
      more than 64 are needed. */
  lemma OverlapSegmentsAddUp(g: Group, list: seq<Slave>, group: nat, start: nat)
    requires |list| > 1 && Recorded(g, list, group, start) && AllFit(Widths(list, group, |list|))
    ensures AllFit(g.iosegment[..g.nsegments])
    ensures Sum(g.iosegment[..g.nsegments]) == Max(g.obytes, g.ibytes)
      <==> Needed(Widths(list, group, |list|)).0 <= MAXIOSEGMENTS
  {
    CutFollowsWidths(list, group, start, |list|);
    SegmentsFit(Widths(list, group, |list|));
    SegmentsSumIffTableSuffices(Widths(list, group, |list|));
  }
}
