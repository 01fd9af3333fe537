/** What the sequential process image of `ProcessImage.MapGroup` looks like: who owns which bits, and how
    the datagram segments relate to them. */
module ImageLayout {
  import opened Fmmu
  import opened Segments
  import opened ProcessImage

  /** First bit of the image of slave `k`, and the bit after its last. */
  ghost function Lo(list: seq<Slave>, p: Side, k: nat): nat
    requires p.Valid() && 1 <= k < |list|
  {
    Start(list[k].Side(p.d), p.Cursor(list, k))
  }

  ghost function Hi(list: seq<Slave>, p: Side, k: nat): nat
    requires p.Valid() && 1 <= k < |list|
  {
    Lo(list, p, k) + Length(list[k].Side(p.d))
  }

  lemma {:induction false} CursorGrows(list: seq<Slave>, p: Side, j: nat, k: nat)
    requires p.Valid() && 1 <= j <= k <= |list|
    ensures p.Cursor(list, j).Pos() <= p.Cursor(list, k).Pos()
  {
    if j < k { CursorGrows(list, p, j, k - 1); }
  }

  lemma OwnArea(list: seq<Slave>, p: Side, k: nat)
    requires p.Valid() && 1 <= k < |list| && Takes(list[k], p.d, p.group)
    ensures p.Cursor(list, k).Pos() <= Lo(list, p, k)
    ensures Hi(list, p, k) <= p.Cursor(list, k + 1).Pos()
  {
  }

  lemma AreasDisjoint(list: seq<Slave>, p: Side, j: nat, k: nat)
    requires p.Valid() && 1 <= j < k < |list| && Takes(list[j], p.d, p.group) && Takes(list[k], p.d, p.group)
    ensures Hi(list, p, j) <= Lo(list, p, k)
  {
    OwnArea(list, p, j);
    OwnArea(list, p, k);
    CursorGrows(list, p, j + 1, k);
  }

  lemma AreaInRange(list: seq<Slave>, p: Side, k: nat)
    requires p.Valid() && 1 <= k < |list| && Takes(list[k], p.d, p.group)
    ensures p.c0.Pos() <= Lo(list, p, k)
    ensures Hi(list, p, k) <= 8 * p.Cursor(list, |list|).Byte()
  {
    OwnArea(list, p, k);
    CursorGrows(list, p, 1, k);
    CursorGrows(list, p, k + 1, |list|);
  }

  /** The image of a group: no bit belongs to two slaves, all outputs lie in the first `obytes` bytes and all
      inputs in the `ibytes` bytes after them. */
  lemma ImageIsPartitioned(list: seq<Slave>, group: nat, start: nat, aligned: bool, obytes: nat, ibytes: nat)
    requires |list| >= 1
    requires var o, i := Outputs(group, start, aligned), Inputs(list, group, start, aligned);
             start + obytes == o.Cursor(list, |list|).Byte() && start + obytes + ibytes == i.Cursor(list, |list|).Byte()
    ensures var o := Outputs(group, start, aligned);
            && (forall j, k :: 1 <= j < k < |list| && Takes(list[j], Out, group) && Takes(list[k], Out, group) ==> Hi(list, o, j) <= Lo(list, o, k))
            && (forall k :: 1 <= k < |list| && Takes(list[k], Out, group) ==>
                  8 * start <= Lo(list, o, k) <= Hi(list, o, k) <= 8 * (start + obytes))
    ensures var i := Inputs(list, group, start, aligned);
            && (forall j, k :: 1 <= j < k < |list| && Takes(list[j], In, group) && Takes(list[k], In, group) ==> Hi(list, i, j) <= Lo(list, i, k))
            && (forall k :: 1 <= k < |list| && Takes(list[k], In, group) ==>
                  8 * (start + obytes) <= Lo(list, i, k) <= Hi(list, i, k) <= 8 * (start + obytes + ibytes))
  {
    SidePartitioned(list, Outputs(group, start, aligned));
    SidePartitioned(list, Inputs(list, group, start, aligned));
  }

  lemma SidePartitioned(list: seq<Slave>, p: Side)
    requires |list| >= 1 && p.Valid()
    ensures forall j, k :: 1 <= j < k < |list| && Takes(list[j], p.d, p.group) && Takes(list[k], p.d, p.group) ==> Hi(list, p, j) <= Lo(list, p, k)
    ensures forall k :: 1 <= k < |list| && Takes(list[k], p.d, p.group) ==>
      p.c0.Pos() <= Lo(list, p, k) <= Hi(list, p, k) <= 8 * p.Cursor(list, |list|).Byte()
  {
    forall j, k | 1 <= j < k < |list| && Takes(list[j], p.d, p.group) && Takes(list[k], p.d, p.group)
      ensures Hi(list, p, j) <= Lo(list, p, k)
    {
      AreasDisjoint(list, p, j, k);
    }
    forall k | 1 <= k < |list| && Takes(list[k], p.d, p.group)
      ensures p.c0.Pos() <= Lo(list, p, k) <= Hi(list, p, k) <= 8 * p.Cursor(list, |list|).Byte()
    {
      AreaInRange(list, p, k);
    }
  }

  // ----- the bits the units map -----

  ghost predicate MapsBit(u: Unit, bit: nat) {
    8 * u.logStart + u.logStartbit <= bit <= 8 * (u.logStart + u.logLength - 1) + u.logEndbit
  }

  /** One of the units `lo` to `hi - 1` maps the bit. */
  ghost predicate Covered(f: seq<Unit>, lo: nat, hi: nat, bit: nat)
    requires hi <= |f|
    decreases hi
  {
    lo < hi && (MapsBit(f[hi - 1], bit) || Covered(f, lo, hi - 1, bit))
  }

  lemma {:induction false} TilesCover(f: seq<Unit>, d: Dir, lo: nat, hi: nat, first: nat, end: nat, bit: nat)
    requires hi <= |f| && Tiles(f, d, lo, hi, first, end)
    ensures first <= end && (Covered(f, lo, hi, bit) <==> 8 * first <= bit < 8 * end)
    decreases hi
  {
    if lo < hi { TilesCover(f, d, lo, hi - 1, first, f[hi - 1].logStart, bit); }
  }

  /** The units of a slave map exactly the bits of its image. */
  lemma UnitsCoverImage(r: Slave, d: Dir, c: Cursor, lo: nat, hi: nat, bit: nat)
    requires |r.fmmu| == MAXFMMU && MappedBy(r, d, c, lo, hi)
    ensures Covered(r.fmmu, lo, hi, bit) <==> Start(r.Side(d), c) <= bit < Start(r.Side(d), c) + Length(r.Side(d))
  {
    if r.Side(d).bytes == 0 {
      assert !Covered(r.fmmu, lo, lo, bit);
    } else {
      TilesCover(r.fmmu, d, lo, hi, c.Byte(), c.Byte() + r.Side(d).bytes, bit);
    }
  }

  /** The units of a slave's image are switched on for its direction: 2 writes to the slave, 1 reads from it. */
  lemma {:induction false} UnitsSwitchedOn(r: Slave, d: Dir, c: Cursor, lo: nat, hi: nat, k: nat)
    requires |r.fmmu| == MAXFMMU && MappedBy(r, d, c, lo, hi) && lo <= k < hi && r.fmmu[k].logLength > 0
    ensures r.fmmu[k].active && r.fmmu[k].fmmuType == if d.Out? then 2 else 1
  {
    if r.Side(d).bytes > 0 { TilesSwitchedOn(r.fmmu, d, lo, hi, c.Byte(), c.Byte() + r.Side(d).bytes, k); }
  }

  lemma {:induction false} TilesSwitchedOn(f: seq<Unit>, d: Dir, lo: nat, hi: nat, first: nat, end: nat, k: nat)
    requires hi <= |f| && Tiles(f, d, lo, hi, first, end) && lo <= k < hi && f[k].logLength > 0
    ensures f[k].active && f[k].fmmuType == if d.Out? then 2 else 1
    decreases hi
  {
    if k < hi - 1 { TilesSwitchedOn(f, d, lo, hi - 1, first, f[hi - 1].logStart, k); }
  }

  /** In the final slave list no bit of the image is mapped by two slaves in the same direction. */
  lemma NoBitIsShared(now: seq<Slave>, list: seq<Slave>, o: Side, i: Side, p: Side, j: nat, k: nat, lj: nat, hj: nat, lk: nat, hk: nat, bit: nat)
    requires o.Valid() && i.Valid() && AllInPlace(now, list, o, i) && (p == o || p == i) && 1 <= j < k < |list|
    requires Takes(list[j], p.d, p.group) && |now[j].fmmu| == MAXFMMU && MappedBy(now[j], p.d, p.Cursor(list, j), lj, hj)
    requires Takes(list[k], p.d, p.group) && |now[k].fmmu| == MAXFMMU && MappedBy(now[k], p.d, p.Cursor(list, k), lk, hk)
    ensures Covered(now[j].fmmu, lj, hj, bit) <==> Lo(list, p, j) <= bit < Hi(list, p, j)
    ensures !(Covered(now[j].fmmu, lj, hj, bit) && Covered(now[k].fmmu, lk, hk, bit))
  {
    assert InPlace(now[j], list, o, i, j) && InPlace(now[k], list, o, i, k);
    UnitsCoverImage(now[j], p.d, p.Cursor(list, j), lj, hj, bit);
    UnitsCoverImage(now[k], p.d, p.Cursor(list, k), lk, hk, bit);
    AreasDisjoint(list, p, j, k);
  }

  // ----- where the master finds the data -----

  /** A slave that had no data pointer before is told the place of its image: the bits from there on are the bits of
      the image.  A pointer that was there before is kept. */
  lemma PointerIsPlace(now: seq<Slave>, list: seq<Slave>, o: Side, i: Side, p: Side, k: nat)
    requires o.Valid() && i.Valid() && AllInPlace(now, list, o, i) && (p == o || p == i) && 1 <= k < |list|
    requires Takes(list[k], p.d, p.group)
    ensures var io, was := now[k].Side(p.d), list[k].Side(p.d);
      && io.bits == was.bits && io.bytes == was.bytes
      && (was.ptr.Some? ==> io.ptr == was.ptr && io.startbit == was.startbit)
      && (was.ptr.None? ==> io.ptr.Some? && io.startbit < 8 && 8 * (p.base + io.ptr.value) + io.startbit == Lo(list, p, k))
  {
    assert InPlace(now[k], list, o, i, k);
    PosParts(Lo(list, p, k));
    StartNotBefore(list[k].Side(p.d), p.Cursor(list, k));
  }

  lemma PosParts(pos: nat)
    ensures pos == 8 * (pos / 8) + pos % 8
  {
  }

  lemma StartNotBefore(io: Io, c: Cursor)
    requires c.Valid()
    ensures Start(io, c) / 8 >= c.addr
  {
  }

  /** The bits its units map are just those the pointer and the start bit name: fewer than eight bits as they are,
      anything larger in whole bytes. */
  lemma UnitsMapPlace(now: seq<Slave>, list: seq<Slave>, o: Side, i: Side, p: Side, k: nat, lo: nat, hi: nat, bit: nat)
    requires o.Valid() && i.Valid() && AllInPlace(now, list, o, i) && (p == o || p == i) && 1 <= k < |list|
    requires Takes(list[k], p.d, p.group) && list[k].Side(p.d).ptr.None? && list[k].Side(p.d).Consistent()
    requires |now[k].fmmu| == MAXFMMU && MappedBy(now[k], p.d, p.Cursor(list, k), lo, hi)
    ensures var io := now[k].Side(p.d);
      && io.ptr.Some?
      && (Covered(now[k].fmmu, lo, hi, bit) <==>
            var first := 8 * (p.base + io.ptr.value) + io.startbit;
            first <= bit < first + if io.bits < 8 then io.bits else 8 * ((io.bits + 7) / 8))
  {
    PointerIsPlace(now, list, o, i, p, k);
    UnitsCoverImage(now[k], p.d, p.Cursor(list, k), lo, hi, bit);
  }

  /** In the I/O map the images of the group begin at the beginning, or at the logical start address when all groups are
      mapped as one: first the outputs, in `obytes` bytes, then the inputs in `ibytes` bytes, and no bit is given to two
      slaves. */
  lemma IoMapIsPartitioned(now: seq<Slave>, g: Group, list: seq<Slave>, group: nat, start: nat, aligned: bool, d: Dir, k: nat)
    requires |list| >= 1 && AllValid(list) && Recorded(g, list, Outputs(group, start, aligned), Inputs(list, group, start, aligned))
    requires AllInPlace(now, list, Outputs(group, start, aligned), Inputs(list, group, start, aligned))
    requires 1 <= k < |list| && Takes(list[k], d, group) && list[k].Side(d).ptr.None?
    ensures var first, io := if group > 0 then 0 else start, now[k].Side(d);
      && io.ptr.Some? && io.startbit < 8 && io.bits == list[k].Side(d).bits
      && var at, size := 8 * io.ptr.value + io.startbit, if io.bits < 8 then io.bits else 8 * ((io.bits + 7) / 8);
      && (d.Out? ==> 8 * first <= at && at + size <= 8 * (first + g.obytes))
      && (d.In? ==> 8 * (first + g.obytes) <= at && at + size <= 8 * (first + g.obytes + g.ibytes))
      && forall j :: 1 <= j < k && Takes(list[j], d, group) && list[j].Side(d).ptr.None? ==>
           now[j].Side(d).ptr.Some?
           && 8 * now[j].Side(d).ptr.value + now[j].Side(d).startbit
              + (if list[j].Side(d).bits < 8 then list[j].Side(d).bits else 8 * ((list[j].Side(d).bits + 7) / 8)) <= at
  {
    var o, i := Outputs(group, start, aligned), Inputs(list, group, start, aligned);
    var p := if d.Out? then o else i;
    ImageIsPartitioned(list, group, start, aligned, g.obytes, g.ibytes);
    PointerIsPlace(now, list, o, i, p, k);
    forall j | 1 <= j < k && Takes(list[j], d, group) && list[j].Side(d).ptr.None?
      ensures var io := now[j].Side(d);
        io.ptr.Some? && 8 * (p.base + io.ptr.value) + io.startbit == Lo(list, p, j) && list[j].Valid()
    {
      PointerIsPlace(now, list, o, i, p, j);
    }
  }

  // ----- segments -----

  lemma AddAllMaybe(cut: Cut, a: seq<nat>, b: seq<nat>, more: bool, x: nat)
    requires cut.Valid() && b == if more then a + [x] else a
    ensures AddAll(cut, b) == if more then Add(AddAll(cut, a), x) else AddAll(cut, a)
    ensures Sum(b) == if more then Sum(a) + x else Sum(a)
  {
    if more {
      AddAllAppend(cut, a, x);
      SumAppend(a, x);
    }
  }

  /** The segment table follows the contributions of the slaves, which add up to the cursor. */
  lemma {:induction false} CutFollowsContributions(list: seq<Slave>, p: Side, k: nat, cut: Cut)
    requires p.Valid() && 1 <= k <= |list| && cut.Valid()
    ensures p.CutAt(list, k, cut) == AddAll(cut, p.Contributions(list, k))
    ensures p.c0.addr + Sum(p.Contributions(list, k)) == p.Cursor(list, k).addr
  {
    if k > 1 {
      CutFollowsContributions(list, p, k - 1, cut);
      AddAllMaybe(cut, p.Contributions(list, k - 1), p.Contributions(list, k), Takes(list[k - 1], p.d, p.group),
                  p.Cursor(list, k).addr - p.Cursor(list, k - 1).addr);
    }
  }

  lemma SideFollowsParts(list: seq<Slave>, p: Side, cut: Cut)
    requires p.Valid() && |list| >= 1 && cut.Valid()
    ensures CutAfter(list, p, cut) == AddAll(cut, Parts(list, p))
    ensures p.c0.addr + Sum(Parts(list, p)) == p.Cursor(list, |list|).Byte()
  {
    CutFollowsContributions(list, p, |list|, cut);
    var c := p.Cursor(list, |list|);
    assert p.Contributions(list, |list|) + [] == p.Contributions(list, |list|);
    AddAllMaybe(cut, p.Contributions(list, |list|), Parts(list, p), c.bit > 0, 1);
  }

  lemma {:induction false} SumConcat(a: seq<nat>, b: seq<nat>)
    ensures Sum(a + b) == Sum(a) + Sum(b)
  {
    if b == [] {
      assert a + b == a;
    } else {
      SumConcat(a, b[..|b| - 1]);
      assert (a + b)[..|a + b| - 1] == a + b[..|b| - 1];
    }
  }

  /** All contributions to the image of a group, outputs first. */
  ghost function AllParts(list: seq<Slave>, o: Side, i: Side): seq<nat>
    requires o.Valid() && i.Valid() && |list| >= 1
  {
    Parts(list, o) + Parts(list, i)
  }

  lemma TableFollowsParts(list: seq<Slave>, o: Side, i: Side)
    requires o.Valid() && i.Valid() && |list| >= 1 && i.c0 == ByteEnd(o.Cursor(list, |list|))
    ensures CutAfter(list, i, CutAfter(list, o, NO_CUT)) == AddAll(NO_CUT, AllParts(list, o, i))
    ensures o.c0.addr + Sum(AllParts(list, o, i)) == i.Cursor(list, |list|).Byte()
  {
    SideFollowsParts(list, o, NO_CUT);
    SideFollowsParts(list, i, CutAfter(list, o, NO_CUT));
    AddAllConcat(NO_CUT, Parts(list, o), Parts(list, i));
    SumConcat(Parts(list, o), Parts(list, i));
  }

  /** If every contribution fits a datagram, all segments do, and the segments add up to the image size
      if and only if the image needs no more than 64 of them. */
  lemma SegmentsAddUp(g: Group, list: seq<Slave>, o: Side, i: Side)
    requires o.Valid() && i.Valid() && |list| >= 1 && Recorded(g, list, o, i)
    requires AllFit(AllParts(list, o, i))
    ensures AllFit(g.iosegment[..g.nsegments]) && g.nsegments <= 64
    ensures forall k :: 0 <= k < g.nsegments ==> g.iosegment[k] <= 1466
    ensures Sum(g.iosegment[..g.nsegments]) == g.obytes + g.ibytes <==> Needed(AllParts(list, o, i)).0 <= 64
  {
    TableFollowsParts(list, o, i);
    SegmentsFit(AllParts(list, o, i));
    SegmentsSumIffTableSuffices(AllParts(list, o, i));
  }

  /** The first input byte is found in segment `isegment` at `ioffset`. */
  lemma InputsStartInSegment(g: Group, list: seq<Slave>, o: Side, i: Side)
    requires o.Valid() && i.Valid() && |list| >= 1 && Recorded(g, list, o, i)
    requires AllFit(AllParts(list, o, i)) && Needed(AllParts(list, o, i)).0 <= MAXIOSEGMENTS
    ensures g.isegment < g.nsegments && Sum(g.iosegment[..g.isegment]) + g.ioffset == g.obytes
  {
    var po, pi := Parts(list, o), Parts(list, i);
    var ro := CutAfter(list, o, NO_CUT);
    SideFollowsParts(list, o, NO_CUT);
    SideFollowsParts(list, i, ro);
    TableFollowsParts(list, o, i);
    CutIsGreedy(AllParts(list, o, i));
    ClosedStay(ro, pi);
    Conserved(po);
    SumAppend(ro.closed, ro.size);
    var all := g.iosegment[..g.nsegments];
    var r := AddAll(ro, pi);
    assert g.iosegment[..g.isegment] == all[..g.isegment] == r.closed[..g.isegment];
  }

  /** Finished segments are never changed, and what is lost stays lost. */
  lemma {:induction false} ClosedStay(cut: Cut, diffs: seq<nat>)
    requires cut.Valid()
    ensures var r := AddAll(cut, diffs);
            |cut.closed| <= |r.closed| && r.closed[..|cut.closed|] == cut.closed && cut.dropped <= r.dropped
  {
    if diffs != [] { ClosedStay(cut, diffs[..|diffs| - 1]); }
  }

  // ----- forced byte alignment -----

  lemma {:induction false} AlignedCursor(list: seq<Slave>, p: Side, k: nat)
    requires p.Valid() && p.aligned && p.c0.bit == 0 && 1 <= k <= |list|
    ensures p.Cursor(list, k).bit == 0
  {
    if k > 1 { AlignedCursor(list, p, k - 1); }
  }

  /** With forced byte alignment an image fills whole bytes, up to the next slave's. */
  lemma AlignedArea(list: seq<Slave>, p: Side, k: nat)
    requires p.Valid() && p.aligned && p.c0.bit == 0 && 1 <= k < |list| && Takes(list[k], p.d, p.group)
    ensures Lo(list, p, k) == 8 * p.Cursor(list, k).addr && (Hi(list, p, k) + 7) / 8 == p.Cursor(list, k + 1).addr
  {
    AlignedCursor(list, p, k);
    AlignedCursor(list, p, k + 1);
  }

  lemma WholeByte(lo: nat, addr: nat)
    requires lo == 8 * addr
    ensures lo % 8 == 0 && lo / 8 == addr
  {
  }

  lemma {:induction false} ContributionsPrefix(list: seq<Slave>, p: Side, k: nat, n: nat)
    requires p.Valid() && 1 <= k <= n <= |list|
    ensures p.Contributions(list, k) <= p.Contributions(list, n)
  {
    if k < n { ContributionsPrefix(list, p, k, n - 1); }
  }

  /** What slave `k` contributes, among all contributions of the image. */
  lemma ContributionOf(list: seq<Slave>, p: Side, k: nat, before: seq<nat>, after: seq<nat>) returns (j: nat)
    requires p.Valid() && 1 <= k < |list| && Takes(list[k], p.d, p.group)
    ensures var all := before + p.Contributions(list, |list|) + after;
            && j < |all|
            && p.c0.addr + Sum(all[..j]) == Sum(before) + p.Cursor(list, k).addr
            && p.c0.addr + Sum(all[..j + 1]) == Sum(before) + p.Cursor(list, k + 1).addr
  {
    var a, b := p.Contributions(list, k), p.Contributions(list, k + 1);
    j := |before| + |a|;
    ContributionsPrefix(list, p, k + 1, |list|);
    var whole := p.Contributions(list, |list|);
    PrefixSum(before, a, whole, after, before + whole + after, j);
    PrefixSum(before, b, whole, after, before + whole + after, j + 1);
    CutFollowsContributions(list, p, k, NO_CUT);
    CutFollowsContributions(list, p, k + 1, NO_CUT);
  }

  lemma PrefixSum(before: seq<nat>, a: seq<nat>, whole: seq<nat>, after: seq<nat>, all: seq<nat>, n: nat)
    requires a <= whole && n == |before| + |a| && all == before + whole + after
    ensures n <= |all| && Sum(all[..n]) == Sum(before) + Sum(a)
  {
    Slice(before, a, whole, after);
    SumConcat(before, a);
  }

  lemma Slice(before: seq<nat>, a: seq<nat>, whole: seq<nat>, after: seq<nat>)
    requires a <= whole
    ensures (before + whole + after)[..|before| + |a|] == before + a
  {
  }

  /** An aligned image lies in one segment, whatever is in the image before and after this pass. */
  lemma AlignedImageInSegment(list: seq<Slave>, p: Side, k: nat, before: seq<nat>, after: seq<nat>, all: seq<nat>, start: nat)
    requires p.Valid() && p.aligned && p.c0.bit == 0 && 1 <= k < |list| && Takes(list[k], p.d, p.group)
    requires all == before + p.Contributions(list, |list|) + after && start + Sum(before) == p.c0.addr
    requires AddAll(NO_CUT, all).dropped == 0
    ensures Lo(list, p, k) % 8 == 0 && Lo(list, p, k) / 8 >= start
    ensures InOneSegment(AddAll(NO_CUT, all).All(), Lo(list, p, k) / 8 - start, (Hi(list, p, k) + 7) / 8 - start)
  {
    AlignedArea(list, p, k);
    WholeByte(Lo(list, p, k), p.Cursor(list, k).addr);
    var j := ContributionOf(list, p, k, before, after);
    ContributionsStayWhole(all, j);
    assert Sum(all[..j]) == p.Cursor(list, k).addr - start && Sum(all[..j + 1]) == p.Cursor(list, k + 1).addr - start;
  }

  /** With forced byte alignment no image, neither output nor input, is split between two segments. */
  lemma AlignedImagesStayWhole(g: Group, list: seq<Slave>, group: nat, start: nat, d: Dir, k: nat)
    requires 1 <= k < |list| && Takes(list[k], d, group)
    requires Recorded(g, list, Outputs(group, start, true), Inputs(list, group, start, true))
    requires var all := AllParts(list, Outputs(group, start, true), Inputs(list, group, start, true));
             AllFit(all) && Needed(all).0 <= MAXIOSEGMENTS
    ensures var p := if d.Out? then Outputs(group, start, true) else Inputs(list, group, start, true);
            Lo(list, p, k) % 8 == 0 && Lo(list, p, k) / 8 >= start
            && InOneSegment(g.iosegment[..g.nsegments], Lo(list, p, k) / 8 - start, (Hi(list, p, k) + 7) / 8 - start)
  {
    var o, i := Outputs(group, start, true), Inputs(list, group, start, true);
    var all := AllParts(list, o, i);
    TableFollowsParts(list, o, i);
    CutIsGreedy(all);
    SideFollowsParts(list, o, NO_CUT);
    if d.Out? {
      OutputsFirst(list, o, i);
      AlignedImageInSegment(list, o, k, [], Closing(o.Cursor(list, |list|)) + Parts(list, i), all, start);
    } else {
      InputsLast(list, o, i);
      AlignedImageInSegment(list, i, k, Parts(list, o), Closing(i.Cursor(list, |list|)), all, start);
    }
  }

  lemma OutputsFirst(list: seq<Slave>, o: Side, i: Side)
    requires o.Valid() && i.Valid() && |list| >= 1
    ensures AllParts(list, o, i) == [] + o.Contributions(list, |list|) + (Closing(o.Cursor(list, |list|)) + Parts(list, i))
  {
  }

  lemma InputsLast(list: seq<Slave>, o: Side, i: Side)
    requires o.Valid() && i.Valid() && |list| >= 1
    ensures AllParts(list, o, i) == Parts(list, o) + i.Contributions(list, |list|) + Closing(i.Cursor(list, |list|))
  {
  }
}
