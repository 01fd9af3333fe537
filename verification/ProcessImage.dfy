/** The sequential process image (`ecx_main_config_map_group`, with and without forced byte
    alignment): first all outputs, then all inputs, of every slave of the group. */
module ProcessImage {
  import opened Fmmu
  import opened Segments

  /** Slaves of other groups, and slaves without data in this direction, take no part. */
  predicate Takes(s: Slave, d: Dir, group: nat) {
    (group == 0 || s.group == group) && s.Side(d).bits > 0
  }

  function ByteEnd(c: Cursor): Cursor { Cursor(c.Byte(), 0) }

  /** The cursor after slave `s`. */
  function After(s: Slave, d: Dir, group: nat, aligned: bool, c: Cursor): (n: Cursor)
    requires c.Valid()
    ensures n.Valid() && n.Pos() >= c.Pos()
  {
    if !Takes(s, d, group) then c
    else if aligned then ByteEnd(Next(s.Side(d), c))
    else Next(s.Side(d), c)
  }

  /** The cursor before slave `k`; slaves are numbered from 1. */
  ghost function CursorAt(list: seq<Slave>, d: Dir, group: nat, aligned: bool, c: Cursor, k: nat): (n: Cursor)
    requires c.Valid() && 1 <= k <= |list|
    ensures n.Valid() && n.Pos() >= c.Pos()
  {
    if k == 1 then c else After(list[k - 1], d, group, aligned, CursorAt(list, d, group, aligned, c, k - 1))
  }

  /** The bytes each slave before `k` adds to the image. */
  ghost function Diffs(list: seq<Slave>, d: Dir, group: nat, aligned: bool, c: Cursor, k: nat): seq<nat>
    requires c.Valid() && 1 <= k <= |list|
  {
    if k == 1 then []
    else
      var before := Diffs(list, d, group, aligned, c, k - 1);
      var diff := CursorAt(list, d, group, aligned, c, k).addr - CursorAt(list, d, group, aligned, c, k - 1).addr;
      if Takes(list[k - 1], d, group) then before + [diff] else before
  }

  /** A last byte that is only partly used is counted as well. */
  function Closing(c: Cursor): seq<nat> { if c.bit > 0 then [1] else [] }

  /** Side `d` of the slave occupies its place at cursor `c`, and its data pointer says so. */
  ghost predicate Allocated(r: Slave, s: Slave, d: Dir, base: nat, c: Cursor) {
    && |r.fmmu| == MAXFMMU && base <= c.addr
    && r.Side(d) == InIoMap(s.Side(d), c, base)
    && exists lo, hi :: MappedBy(r, d, c, lo, hi)
  }

  ghost predicate AllValid(list: seq<Slave>) {
    forall k :: 1 <= k < |list| ==> list[k].Valid() && list[k].unused <= MAXFMMU
  }

  /** Fields of the group record, apart from the segment table. */
  class Group {
    var logstartaddr: nat
    var obytes: nat
    var ibytes: nat
    var nsegments: nat
    var isegment: nat
    var ioffset: nat
    var outputsWKC: nat
    var inputsWKC: nat
    const iosegment: array<nat>

    constructor (logstartaddr: nat)
      ensures this.logstartaddr == logstartaddr && iosegment.Length == MAXIOSEGMENTS && fresh(iosegment)
    {
      iosegment := new nat[MAXIOSEGMENTS];
      this.logstartaddr := logstartaddr;
      obytes, ibytes, nsegments, isegment, ioffset, outputsWKC, inputsWKC := 0, 0, 0, 0, 0, 0, 0;
    }
  }

  /** How many slaves contribute to the working counter of one direction. */
  ghost function Contributors(list: seq<Slave>, d: Dir, group: nat, k: nat): nat
    requires 1 <= k <= |list|
  {
    if k == 1 then 0 else Contributors(list, d, group, k - 1) + (if Takes(list[k - 1], d, group) then 1 else 0)
  }

  /** The slaves before `n` that belong to the group and have data in that direction */
  ghost function Members(list: seq<Slave>, d: Dir, group: nat, n: nat): set<nat>
    requires n <= |list|
  {
    set k: nat | 1 <= k < n && (group == 0 || list[k].group == group) && list[k].Side(d).bits > 0
  }

  lemma {:induction false} ContributorsCounted(list: seq<Slave>, d: Dir, group: nat, n: nat)
    requires 1 <= n <= |list|
    ensures Contributors(list, d, group, n) == |Members(list, d, group, n)|
  {
    if n == 1 {
      assert Members(list, d, group, n) == {};
    } else {
      ContributorsCounted(list, d, group, n - 1);
      if Takes(list[n - 1], d, group) {
        assert Members(list, d, group, n) == Members(list, d, group, n - 1) + {n - 1};
      } else {
        assert Members(list, d, group, n) == Members(list, d, group, n - 1);
      }
    }
  }

  /** What one pass over the slaves leaves of slave `s`; its units of the other direction are kept. */
  ghost predicate Passed(r: Slave, s: Slave, d: Dir, group: nat, base: nat, c: Cursor) {
    if Takes(s, d, group) then exists lo :: Placed(r, s, d, base, c, lo) else r == s
  }

  /** One direction of a pass: which slaves take part and where the image starts. */
  datatype Side = Side(d: Dir, group: nat, base: nat, aligned: bool, c0: Cursor) {
    predicate Valid() { c0.Valid() && base <= c0.addr }

    ghost function Cursor(list: seq<Slave>, k: nat): (c: Cursor)
      requires Valid() && 1 <= k <= |list|
      ensures c.Valid() && base <= c.addr
    {
      CursorAt(list, d, group, aligned, c0, k)
    }

    /** The segment table, `cut` before this pass, after the slaves before `k`. */
    ghost function CutAt(list: seq<Slave>, k: nat, cut: Cut): (r: Cut)
      requires Valid() && 1 <= k <= |list| && cut.Valid()
      ensures r.Valid()
    {
      if k == 1 then cut
      else
        var r := CutAt(list, k - 1, cut);
        if Takes(list[k - 1], d, group) then Add(r, Cursor(list, k).addr - Cursor(list, k - 1).addr) else r
    }

    ghost function Contributions(list: seq<Slave>, k: nat): seq<nat>
      requires Valid() && 1 <= k <= |list|
    {
      Diffs(list, d, group, aligned, c0, k)
    }
  }

  ghost predicate PassedAt(now: seq<Slave>, list: seq<Slave>, p: Side, k: nat)
    requires p.Valid() && 1 <= k < |list| == |now|
  {
    Passed(now[k], list[k], p.d, p.group, p.base, p.Cursor(list, k))
  }

  /** The slaves before `n` are mapped, the others are as they were. */
  ghost predicate PassState(now: seq<Slave>, list: seq<Slave>, p: Side, n: nat, c: Cursor) {
    && p.Valid() && 1 <= n <= |list| == |now| && AllValid(now) && c == p.Cursor(list, n)
    && (forall k :: n <= k < |list| ==> now[k] == list[k])
    && (forall k :: 1 <= k < n ==> PassedAt(now, list, p, k))
  }

  lemma PassStep(now: seq<Slave>, next: seq<Slave>, list: seq<Slave>, p: Side, n: nat, c: Cursor, a: Cursor)
    requires PassState(now, list, p, n, c) && n < |list| == |next| && AllValid(next)
    requires forall k :: 0 <= k < |list| && k != n ==> next[k] == now[k]
    requires Passed(next[n], list[n], p.d, p.group, p.base, c) && a == After(list[n], p.d, p.group, p.aligned, c)
    ensures PassState(next, list, p, n + 1, a)
  {
    assert PassedAt(next, list, p, n);
    forall k | 1 <= k < n ensures PassedAt(next, list, p, k) {
      assert PassedAt(now, list, p, k);
    }
  }

  /** Slave `s` has units enough for its part in a pass. */
  ghost predicate Fits(s: Slave, d: Dir, group: nat) {
    Takes(s, d, group) ==> s.Valid() && s.unused <= MAXFMMU && Suffice(s, d)
  }

  ghost predicate FitBefore(list: seq<Slave>, p: Side, n: nat)
    requires n <= |list|
  {
    forall k :: 1 <= k < n ==> Fits(list[k], p.d, p.group)
  }

  ghost predicate SideFits(list: seq<Slave>, p: Side) { FitBefore(list, p, |list|) }

  lemma FitStep(list: seq<Slave>, p: Side, n: nat)
    requires 1 <= n < |list| && FitBefore(list, p, n)
    ensures if Fits(list[n], p.d, p.group) then FitBefore(list, p, n + 1) else !SideFits(list, p)
  {
  }

  ghost predicate SegmentState(iosegment: array<nat>, r: Cut, current: nat, size: nat)
    reads iosegment
  {
    Records(iosegment, r) && current == |r.closed| && size == r.size
  }

  /** The slaves before `n` are mapped and counted, and their shares are in the segment table. */
  ghost predicate PassedBefore(now: seq<Slave>, list: seq<Slave>, p: Side, n: nat, c: Cursor, iosegment: array<nat>,
                               current: nat, size: nat, wkc: nat, cut: Cut)
    reads iosegment
  {
    && PassState(now, list, p, n, c) && cut.Valid()
    && wkc == Contributors(list, p.d, p.group, n)
    && SegmentState(iosegment, p.CutAt(list, n, cut), current, size)
  }

  /** One pass over the slaves, for the outputs or for the inputs, with the last byte closed at the end.
      `cut` is what the segment table holds before. */
  method MapSide(slavelist: array<Slave>, p: Side, iosegment: array<nat>, current0: nat, size0: nat, ghost cut: Cut)
    returns (ok: bool, c: Cursor, current: nat, size: nat, wkc: nat)
    requires AllValid(slavelist[..]) && slavelist.Length >= 1 && p.Valid()
    requires SegmentState(iosegment, cut, current0, size0)
    modifies slavelist, iosegment
    ensures ok <==> SideFits(old(slavelist[..]), p)
    ensures ok ==> PassState(slavelist[..], old(slavelist[..]), p, slavelist.Length, p.Cursor(old(slavelist[..]), slavelist.Length))
    ensures ok ==> c == ByteEnd(p.Cursor(old(slavelist[..]), slavelist.Length))
    ensures ok ==> wkc == Contributors(old(slavelist[..]), p.d, p.group, slavelist.Length)
    ensures ok ==> SegmentState(iosegment, CutAfter(old(slavelist[..]), p, cut), current, size)
  {
    ghost var list := slavelist[..];
    ok, c, current, size, wkc := MapSlaves(slavelist, p, iosegment, current0, size0, cut);
    if ok {
      c, current, size := CloseByte(iosegment, c, current, size, p.CutAt(list, |list|, cut));
    }
  }

  method MapSlaves(slavelist: array<Slave>, p: Side, iosegment: array<nat>, current0: nat, size0: nat, ghost cut: Cut)
    returns (ok: bool, c: Cursor, current: nat, size: nat, wkc: nat)
    requires AllValid(slavelist[..]) && slavelist.Length >= 1 && p.Valid()
    requires SegmentState(iosegment, cut, current0, size0)
    modifies slavelist, iosegment
    ensures ok <==> SideFits(old(slavelist[..]), p)
    ensures ok ==> PassedBefore(slavelist[..], old(slavelist[..]), p, slavelist.Length, c, iosegment, current, size, wkc, cut)
  {
    ghost var list := slavelist[..];
    ok, c, current, size, wkc := true, p.c0, current0, size0, 0;
    var slave := 1;
    while slave < slavelist.Length
      invariant 1 <= slave <= slavelist.Length == |list| && ok && FitBefore(list, p, slave)
      invariant PassedBefore(slavelist[..], list, p, slave, c, iosegment, current, size, wkc, cut)
    {
      var counted;
      ok, c, current, size, counted := VisitSlave(slavelist, slave, p, c, list, iosegment, current, size, cut);
      if !ok {
        return;
      }
      wkc, slave := wkc + counted, slave + 1;
    }
  }

  method VisitSlave(slavelist: array<Slave>, slave: nat, p: Side, c0: Cursor, ghost list: seq<Slave>,
                    iosegment: array<nat>, current0: nat, size0: nat, ghost cut: Cut)
    returns (ok: bool, c: Cursor, current: nat, size: nat, counted: nat)
    requires slave < slavelist.Length && PassState(slavelist[..], list, p, slave, c0)
    requires FitBefore(list, p, slave) && cut.Valid() && SegmentState(iosegment, p.CutAt(list, slave, cut), current0, size0)
    modifies slavelist, iosegment
    ensures if ok then FitBefore(list, p, slave + 1) else !SideFits(list, p)
    ensures ok ==> PassState(slavelist[..], list, p, slave + 1, c)
    ensures ok ==> SegmentState(iosegment, p.CutAt(list, slave + 1, cut), current, size)
    ensures counted == if Takes(list[slave], p.d, p.group) then 1 else 0
  {
    FitStep(list, p, slave);
    var takes := Takes(slavelist[slave], p.d, p.group);
    counted := if takes then 1 else 0;
    current, size := current0, size0;
    ok, c := PassSlave(slavelist, slave, p, c0, list);
    if ok && takes {
      current, size := AddToSegment(iosegment, current, size, c.addr - c0.addr, p.CutAt(list, slave, cut));
    }
  }

  method PassSlave(slavelist: array<Slave>, slave: nat, p: Side, c0: Cursor, ghost list: seq<Slave>) returns (ok: bool, c: Cursor)
    requires slave < slavelist.Length && PassState(slavelist[..], list, p, slave, c0)
    modifies slavelist
    ensures ok <==> Fits(list[slave], p.d, p.group)
    ensures ok ==> PassState(slavelist[..], list, p, slave + 1, c) && c0.addr <= c.addr
  {
    ghost var now := slavelist[..];
    ok, c := true, c0;
    if Takes(slavelist[slave], p.d, p.group) {
      ok, c := MapSlave(slavelist, slave, p.d, p.group, p.base, p.aligned, c);
      if !ok {
        return;
      }
    }
    PassStep(now, slavelist[..], list, p, slave, c0, c);
  }

  /** One slave of the pass. */
  method MapSlave(slavelist: array<Slave>, slave: nat, d: Dir, group: nat, base: nat, aligned: bool, c0: Cursor)
    returns (ok: bool, c: Cursor)
    requires 1 <= slave < slavelist.Length && Takes(slavelist[slave], d, group)
    requires slavelist[slave].Valid() && slavelist[slave].unused <= MAXFMMU && c0.Valid() && base <= c0.addr
    modifies slavelist
    ensures forall k :: 0 <= k < slavelist.Length && k != slave ==> slavelist[k] == old(slavelist[k])
    ensures ok <==> Suffice(old(slavelist[slave]), d)
    ensures ok ==> Passed(slavelist[slave], old(slavelist[slave]), d, group, base, c0)
    ensures ok ==> slavelist[slave].Valid() && slavelist[slave].unused <= MAXFMMU
    ensures ok ==> c == After(old(slavelist[slave]), d, group, aligned, c0) && c0.addr <= c.addr
  {
    ghost var lo, runs;
    ok, c, lo, runs := CreateMappings(slavelist, slave, d, base, c0);
    if ok && aligned && c.bit > 0 {
      c := Cursor(c.addr + 1, 0);
    }
  }

  // ----- the whole image -----

  function Base(group: nat, start: nat): nat { if group > 0 then start else 0 }

  function Outputs(group: nat, start: nat, aligned: bool): (p: Side)
    ensures p.Valid()
  {
    Side(Out, group, Base(group, start), aligned, Cursor(start, 0))
  }

  /** The inputs follow the outputs, from a fresh byte on. */
  ghost function Inputs(list: seq<Slave>, group: nat, start: nat, aligned: bool): (p: Side)
    requires |list| >= 1
    ensures p.Valid()
  {
    Side(In, group, Base(group, start), aligned, ByteEnd(Outputs(group, start, aligned).Cursor(list, |list|)))
  }

  function CloseCut(cut: Cut, c: Cursor): (r: Cut)
    requires cut.Valid()
    ensures r.Valid()
  {
    if c.bit > 0 then Add(cut, 1) else cut
  }

  /** The segment table after a whole pass. */
  ghost function CutAfter(list: seq<Slave>, p: Side, cut: Cut): (r: Cut)
    requires p.Valid() && |list| >= 1 && cut.Valid()
    ensures r.Valid()
  {
    CloseCut(p.CutAt(list, |list|, cut), p.Cursor(list, |list|))
  }

  /** Everything one direction adds to the image, with a last partly used byte. */
  ghost function Parts(list: seq<Slave>, p: Side): seq<nat>
    requires p.Valid() && |list| >= 1
  {
    p.Contributions(list, |list|) + Closing(p.Cursor(list, |list|))
  }

  /** Both directions of slave `k` are where the layout puts them. */
  ghost predicate InPlace(r: Slave, list: seq<Slave>, o: Side, i: Side, k: nat)
    requires o.Valid() && i.Valid() && 1 <= k < |list|
  {
    && (Takes(list[k], o.d, o.group) ==> Allocated(r, list[k], o.d, o.base, o.Cursor(list, k)))
    && (Takes(list[k], i.d, i.group) ==> Allocated(r, list[k], i.d, i.base, i.Cursor(list, k)))
  }

  ghost predicate AllInPlace(now: seq<Slave>, list: seq<Slave>, o: Side, i: Side)
    requires o.Valid() && i.Valid()
  {
    |now| == |list| && forall k :: 1 <= k < |list| ==> InPlace(now[k], list, o, i, k)
  }

  /** What the group record says about the image. */
  ghost predicate Recorded(g: Group, list: seq<Slave>, o: Side, i: Side)
    requires o.Valid() && i.Valid() && |list| >= 1
    reads g, g.iosegment
  {
    var n := |list|;
    var oe, ie := o.Cursor(list, n), i.Cursor(list, n);
    var ro := CutAfter(list, o, NO_CUT);
    var r := CutAfter(list, i, ro);
    && i.c0 == ByteEnd(oe)
    && o.c0.addr + g.obytes == oe.Byte() && oe.Byte() + g.ibytes == ie.Byte()
    && g.outputsWKC == Contributors(list, o.d, o.group, n) && g.inputsWKC == Contributors(list, i.d, i.group, n)
    && g.isegment == |ro.closed| && g.ioffset == ro.size
    && g.nsegments == |r.All()| && g.iosegment.Length == MAXIOSEGMENTS && g.iosegment[..g.nsegments] == r.All()
  }

  /** Close a partly used last byte. */
  method CloseByte(iosegment: array<nat>, c0: Cursor, current0: nat, size0: nat, ghost cut: Cut)
    returns (c: Cursor, current: nat, size: nat)
    requires SegmentState(iosegment, cut, current0, size0) && c0.Valid()
    modifies iosegment
    ensures c == ByteEnd(c0) && SegmentState(iosegment, CloseCut(cut, c0), current, size)
  {
    c, current, size := c0, current0, size0;
    if c.bit > 0 {
      c := Cursor(c.addr + 1, 0);
      current, size := AddToSegment(iosegment, current, size, 1, cut);
    }
  }

  method LastSegmentEntry(g: Group, current: nat, size: nat, ghost r: Cut)
    requires SegmentState(g.iosegment, r, current, size)
    modifies g`nsegments, g.iosegment
    ensures g.nsegments == |r.All()| && g.iosegment[..g.nsegments] == r.All()
  {
    g.iosegment[current] := size;
    g.nsegments := current + 1;
  }

  /** All slaves of the group have units enough for both directions. */
  ghost predicate GroupFits(list: seq<Slave>, group: nat) {
    forall k :: 1 <= k < |list| && (group == 0 || list[k].group == group) ==>
      list[k].Valid() && list[k].unused <= MAXFMMU && BothSuffice(list[k])
  }

  /** If the outputs do not fit then the group does not. */
  lemma OutputsDecide(list: seq<Slave>, o: Side)
    requires AllValid(list) && o.d.Out? && GroupFits(list, o.group)
    ensures SideFits(list, o)
  {
  }

  /** Once the outputs are mapped, the inputs fit if and only if the group did. */
  lemma InputsDecide(now: seq<Slave>, list: seq<Slave>, o: Side, i: Side)
    requires AllValid(list) && |list| >= 1 && o.Valid() && o.d.Out? && i.d.In? && i.group == o.group && SideFits(list, o)
    requires PassState(now, list, o, |list|, o.Cursor(list, |list|))
    ensures SideFits(now, i) <==> GroupFits(list, o.group)
  {
    forall k | 1 <= k < |list| && (o.group == 0 || list[k].group == o.group)
      ensures now[k].group == list[k].group && (Fits(now[k], In, o.group) <==> BothSuffice(list[k]))
    {
      assert PassedAt(now, list, o, k) && Fits(list[k], Out, o.group);
      InputsFit(now[k], list[k], o, o.Cursor(list, k));
    }
    forall k | 1 <= k < |list| ensures now[k].group == list[k].group {
      assert PassedAt(now, list, o, k);
    }
    if SideFits(now, i) {
      assert forall k :: 1 <= k < |list| ==> Fits(now[k], i.d, i.group);
    }
  }

  lemma InputsFit(r: Slave, s: Slave, o: Side, c: Cursor)
    requires o.d.Out? && (o.group == 0 || s.group == o.group) && s.Valid() && s.unused <= MAXFMMU
    requires Passed(r, s, Out, o.group, o.base, c) && Fits(s, Out, o.group)
    ensures r.group == s.group && (Fits(r, In, o.group) <==> BothSuffice(s))
  {
    if s.output.bits > 0 {
      var lo :| Placed(r, s, Out, o.base, c, lo);
      InputsAfterOutputs(r, s, o.base, c, lo);
    }
  }

  /** Both passes: `half` is where the output pass ends. */
  method MapSides(slavelist: array<Slave>, o: Side, iosegment: array<nat>)
    returns (ok: bool, half: Cursor, c: Cursor, isegment: nat, ioffset: nat, current: nat, size: nat, outputsWKC: nat, inputsWKC: nat)
    requires slavelist.Length > 1 && AllValid(slavelist[..]) && o.Valid() && o.d.Out?
    requires SegmentState(iosegment, NO_CUT, 0, 0)
    modifies slavelist, iosegment
    ensures ok <==> GroupFits(old(slavelist[..]), o.group)
    ensures ok ==> SidesMapped(slavelist[..], old(slavelist[..]), o, half, c, outputsWKC, inputsWKC)
    ensures ok ==> SegmentsAfter(iosegment, old(slavelist[..]), o, half, isegment, ioffset, current, size)
  {
    ghost var list := slavelist[..];
    half, c, isegment, ioffset, current, size, outputsWKC, inputsWKC := o.c0, o.c0, 0, 0, 0, 0, 0, 0;
    ok, half, isegment, ioffset, outputsWKC := MapSide(slavelist, o, iosegment, 0, 0, NO_CUT);
    if GroupFits(list, o.group) { OutputsDecide(list, o); }
    if !ok {
      return;
    }
    ghost var now := slavelist[..];
    var i := InputSide(o, half);
    ghost var cut := CutAfter(list, o, NO_CUT);
    InputsDecide(now, list, o, i);
    SameLayout(now, list, o, i, cut);
    ok, c, current, size, inputsWKC := MapSide(slavelist, i, iosegment, isegment, ioffset, cut);
    if ok {
      BothInPlace(slavelist[..], now, list, o, i);
    }
  }

  /** The inputs start where the outputs end. */
  function InputSide(o: Side, half: Cursor): Side { Side(In, o.group, o.base, o.aligned, half) }

  ghost predicate SidesMapped(now: seq<Slave>, list: seq<Slave>, o: Side, half: Cursor, c: Cursor, outputsWKC: nat, inputsWKC: nat) {
    && |list| >= 1 && o.Valid() && half == ByteEnd(o.Cursor(list, |list|))
    && var i := InputSide(o, half);
    && AllInPlace(now, list, o, i) && c == ByteEnd(i.Cursor(list, |list|))
    && outputsWKC == Contributors(list, Out, o.group, |list|) && inputsWKC == Contributors(list, In, o.group, |list|)
  }

  ghost predicate SegmentsAfter(iosegment: array<nat>, list: seq<Slave>, o: Side, half: Cursor, isegment: nat, ioffset: nat, current: nat, size: nat)
    requires |list| >= 1 && o.Valid() && half == ByteEnd(o.Cursor(list, |list|))
    reads iosegment
  {
    var r := CutAfter(list, o, NO_CUT);
    && isegment == |r.closed| && ioffset == r.size
    && SegmentState(iosegment, CutAfter(list, InputSide(o, half), r), current, size)
  }

  method MapGroup(slavelist: array<Slave>, g: Group, group: nat, forceByteAlignment: bool) returns (ok: bool, size: nat)
    requires slavelist.Length > 1 && AllValid(slavelist[..]) && g.iosegment.Length == MAXIOSEGMENTS
    modifies slavelist, g, g.iosegment
    ensures g.logstartaddr == old(g.logstartaddr)
    ensures ok <==> GroupFits(old(slavelist[..]), group)
    ensures ok ==>
      var list := old(slavelist[..]);
      var o := Outputs(group, g.logstartaddr, forceByteAlignment);
      var i := Inputs(list, group, g.logstartaddr, forceByteAlignment);
      AllInPlace(slavelist[..], list, o, i) && Recorded(g, list, o, i) && size == g.obytes + g.ibytes
  {
    ghost var list := slavelist[..];
    var start := g.logstartaddr;
    var o := Outputs(group, start, forceByteAlignment);
    var half, c, isegment, ioffset, current, segmentsize, outputsWKC, inputsWKC;
    ok, half, c, isegment, ioffset, current, segmentsize, outputsWKC, inputsWKC := MapSides(slavelist, o, g.iosegment);
    if !ok {
      return false, 0;
    }
    g.obytes, g.ibytes := half.addr - start, c.addr - half.addr;
    g.isegment, g.ioffset, g.outputsWKC, g.inputsWKC := isegment, ioffset, outputsWKC, inputsWKC;
    LastSegmentEntry(g, current, segmentsize, CutAfter(list, InputSide(o, half), CutAfter(list, o, NO_CUT)));
    size := c.addr - start;
  }

  lemma {:induction false} AddAllConcat(cut: Cut, a: seq<nat>, b: seq<nat>)
    requires cut.Valid()
    ensures AddAll(cut, a + b) == AddAll(AddAll(cut, a), b)
  {
    if b == [] {
      assert a + b == a;
    } else {
      AddAllConcat(cut, a, b[..|b| - 1]);
      assert (a + b)[..|a + b| - 1] == a + b[..|b| - 1];
    }
  }

  /** The output pass leaves the layout of the inputs as it was. */
  lemma SameLayout(now: seq<Slave>, list: seq<Slave>, o: Side, i: Side, cut: Cut)
    requires cut.Valid() && |list| >= 1 && o.Valid() && i.Valid() && o.d.Out? && i.d.In?
    requires PassState(now, list, o, |list|, o.Cursor(list, |list|))
    ensures forall k :: 1 <= k < |list| ==> now[k].input == list[k].input && now[k].group == list[k].group
    ensures i.Cursor(now, |list|) == i.Cursor(list, |list|)
    ensures i.CutAt(now, |list|, cut) == i.CutAt(list, |list|, cut)
    ensures Contributors(now, i.d, i.group, |list|) == Contributors(list, i.d, i.group, |list|)
  {
    forall k | 1 <= k < |list| ensures now[k].input == list[k].input && now[k].group == list[k].group {
      assert PassedAt(now, list, o, k);
    }
    SameInputs(now, list, i, |list|, cut);
  }

  lemma {:induction false} SameInputs(now: seq<Slave>, list: seq<Slave>, i: Side, n: nat, cut: Cut)
    requires cut.Valid() && 1 <= n <= |list| == |now| && i.Valid() && i.d.In?
    requires forall k :: 1 <= k < |list| ==> now[k].input == list[k].input && now[k].group == list[k].group
    ensures i.Cursor(now, n) == i.Cursor(list, n)
    ensures i.CutAt(now, n, cut) == i.CutAt(list, n, cut)
    ensures Contributors(now, i.d, i.group, n) == Contributors(list, i.d, i.group, n)
  {
    if n > 1 { SameInputs(now, list, i, n - 1, cut); }
  }

  lemma BothInPlace(last: seq<Slave>, now: seq<Slave>, list: seq<Slave>, o: Side, i: Side)
    requires |list| >= 1 && o.d.Out? && i.d.In? && o.base == i.base
    requires o.Valid() && i.Valid() && PassState(now, list, o, |list|, o.Cursor(list, |list|))
    requires PassState(last, now, i, |list|, i.Cursor(now, |list|))
    ensures AllInPlace(last, list, o, i)
  {
    SameLayout(now, list, o, i, NO_CUT);
    forall k | 1 <= k < |list| ensures InPlace(last[k], list, o, i, k) {
      assert PassedAt(now, list, o, k) && PassedAt(last, now, i, k);
      SameInputs(now, list, i, k, NO_CUT);
      SlaveInPlace(last[k], now[k], list, o, i, k);
    }
  }

  /** Mapping the inputs of a slave keeps the units that map its outputs. */
  lemma SlaveInPlace(r: Slave, m: Slave, list: seq<Slave>, o: Side, i: Side, k: nat)
    requires 1 <= k < |list| && o.Valid() && i.Valid() && o.d.Out? && i.d.In? && list[k].Valid()
    requires Passed(m, list[k], o.d, o.group, o.base, o.Cursor(list, k))
    requires Passed(r, m, i.d, i.group, i.base, i.Cursor(list, k))
    ensures InPlace(r, list, o, i, k)
  {
    var s, co, ci := list[k], o.Cursor(list, k), i.Cursor(list, k);
    if Takes(s, o.d, o.group) {
      var lo :| Placed(m, s, o.d, o.base, co, lo);
      assert MappedBy(m, o.d, co, lo, m.unused);
      if Takes(m, i.d, i.group) {
        var li :| Placed(r, m, i.d, i.base, ci, li);
        KeepsUnits(r, m, o.d, co, lo, m.unused, li);
        assert MappedBy(r, o.d, co, lo, m.unused);
      }
      assert Allocated(r, s, o.d, o.base, co);
    }
    if Takes(s, i.d, i.group) {
      var li :| Placed(r, m, i.d, i.base, ci, li);
      assert MappedBy(r, i.d, ci, li, r.unused);
      assert Allocated(r, s, i.d, i.base, ci);
    }
  }

  lemma KeepsUnits(r: Slave, m: Slave, d: Dir, c: Cursor, lo: nat, hi: nat, li: nat)
    requires |r.fmmu| == |m.fmmu| == MAXFMMU && hi <= li <= MAXFMMU && r.fmmu[..li] == m.fmmu[..li] && r.Side(d) == m.Side(d)
    requires MappedBy(m, d, c, lo, hi)
    ensures MappedBy(r, d, c, lo, hi)
  {
    assert forall k :: 0 <= k < hi ==> r.fmmu[k] == r.fmmu[..li][k] == m.fmmu[k];
    if m.Side(d).bytes > 0 {
      TilesLocal(m.fmmu, r.fmmu, d, lo, hi, c.Byte(), c.Byte() + m.Side(d).bytes);
    }
  }
}
