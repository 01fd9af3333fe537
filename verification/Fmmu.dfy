/** Mapping one direction of one slave into the process image
    (`ecx_config_create_output_mappings`, `ecx_config_create_input_mappings`): a cursor hands out
    logical addresses, and each run of connected sync-manager memory gets one FMMU. */
module Fmmu {

  const MAXSM := 8
  const MAXFMMU := 4

  datatype Option<T> = None | Some(value: T)

  /** Outputs go through sync managers of type 3, inputs through type 4. */
  datatype Dir = Out | In {
    function SmType(): nat { if Out? then 3 else 4 }
    function FmmuType(): nat { if Out? then 2 else 1 }
  }

  /** One FMMU: `start` and `length` in bytes of the logical image, bits within the first and last byte. */
  datatype Unit = Unit(logStart: nat, logLength: nat, logStartbit: nat, logEndbit: nat, physStart: nat, fmmuType: nat, active: bool)

  datatype SyncManager = SyncManager(start: nat, length: nat, smtype: nat) {
    /** The address behind it, in 16 bits. */
    function End(): (e: nat)
      ensures e < 65536 && (start + length - e) % 65536 == 0
    {
      (start + length) % 65536
    }
  }

  /** One direction of a slave; `ptr` is the place of its data in the IOmap. */
  datatype Io = Io(bits: nat, bytes: nat, ptr: Option<nat>, startbit: nat) {
    /** `ecx_map_sm`: fewer than eight bits count as no whole byte. */
    predicate Consistent() { bytes == if bits > 7 then (bits + 7) / 8 else 0 }
  }

  datatype Slave = Slave(group: nat, output: Io, input: Io, sm: seq<SyncManager>, fmmu: seq<Unit>, unused: nat) {
    predicate Valid() {
      |sm| == MAXSM && |fmmu| == MAXFMMU && output.Consistent() && input.Consistent()
    }

    function Side(d: Dir): Io { if d.Out? then output else input }

    function WithSide(d: Dir, io: Io): Slave { if d.Out? then this.(output := io) else this.(input := io) }
  }

  /** Next free place in the logical image. */
  datatype Cursor = Cursor(addr: nat, bit: nat) {
    predicate Valid() { bit < 8 }
    function Pos(): nat { 8 * addr + bit }
    /** The first byte that is wholly free. */
    function Byte(): nat { if bit > 0 then addr + 1 else addr }
  }

  /** Where an image of the given size starts (in bits) when placed at the cursor, and the cursor after it:
      fewer than eight bits are packed, anything larger starts on a byte. */
  function Start(io: Io, c: Cursor): nat { if io.bytes == 0 then c.Pos() else 8 * c.Byte() }
  function Length(io: Io): nat { if io.bytes == 0 then io.bits else 8 * io.bytes }
  function Next(io: Io, c: Cursor): (n: Cursor)
    ensures n.Pos() == Start(io, c) + Length(io) && n.Valid()
  {
    var p := Start(io, c) + Length(io);
    Cursor(p / 8, p % 8)
  }

  // ----- sync managers -----

  /** The next sync manager of type `t` from `smc` on; the last one when there is none. */
  function Skip(sm: seq<SyncManager>, t: nat, smc: nat): (r: nat)
    requires |sm| == MAXSM && smc < MAXSM
    ensures smc <= r < MAXSM && (r == MAXSM - 1 || sm[r].smtype == t)
    ensures forall k :: smc <= k < r ==> sm[k].smtype != t
    decreases MAXSM - smc
  {
    if smc < MAXSM - 1 && sm[smc].smtype != t then Skip(sm, t, smc + 1) else smc
  }

  /** The memory one unit is meant for: the start of the first sync manager of the run and the length of
      the run; with the sync manager the search stopped at and the bits counted so far. */
  datatype Run = Run(start: nat, length: nat, smc: nat, bitCount: nat) {
    function Longer(m: SyncManager, n: nat): Run { Run(start, length + m.length, n, bitCount + 8 * m.length) }
  }

  /** Extend a run that ends at address `end` while more bits are wanted.  A sync manager that starts
      beyond the end starts the next run; one that starts at the end or below it is joined. */
  function Extend(sm: seq<SyncManager>, t: nat, r: Run, end: nat, bits: nat): (e: Run)
    requires |sm| == MAXSM && r.smc < MAXSM
    ensures r.smc <= e.smc < MAXSM && r.length <= e.length && r.start == e.start
    decreases MAXSM - r.smc
  {
    if r.bitCount < bits && r.smc < MAXSM - 1 then
      var n := Skip(sm, t, r.smc + 1);
      if sm[n].start > end then r.(smc := n)
      else Extend(sm, t, r.Longer(sm[n], n), sm[n].End(), bits)
    else r
  }

  lemma ExtendStep(sm: seq<SyncManager>, t: nat, r: Run, end: nat, bits: nat, n: nat)
    requires |sm| == MAXSM && r.bitCount < bits && r.smc < MAXSM - 1 && n == Skip(sm, t, r.smc + 1)
    ensures Extend(sm, t, r, end, bits) ==
            if sm[n].start > end then r.(smc := n) else Extend(sm, t, r.Longer(sm[n], n), sm[n].End(), bits)
  {
  }

  /** The run that starts at the first sync manager of type `t` from `smc` on. */
  function RunFrom(sm: seq<SyncManager>, t: nat, smc: nat, bitCount: nat, bits: nat): (e: Run)
    requires |sm| == MAXSM && smc < MAXSM
    ensures smc <= e.smc < MAXSM
  {
    var n := Skip(sm, t, smc);
    Extend(sm, t, Run(sm[n].start, sm[n].length, n, bitCount + 8 * sm[n].length), sm[n].End(), bits)
  }

  /** Where the search stands after `n` runs. */
  ghost function After(runs: seq<Run>, n: nat): (r: Run)
    requires n <= |runs|
  {
    if n == 0 then Run(0, 0, 0, 0) else runs[n - 1]
  }

  /** Run `i` is the one found from where the run before it ends. */
  ghost predicate FoundAt(sm: seq<SyncManager>, t: nat, bits: nat, runs: seq<Run>, i: nat)
    requires |sm| == MAXSM && i < |runs|
  {
    var r := After(runs, i);
    r.smc < MAXSM && runs[i] == RunFrom(sm, t, r.smc, r.bitCount, bits)
  }

  /** The given runs are the first ones of a sync-manager table. */
  ghost predicate FoundIn(sm: seq<SyncManager>, t: nat, bits: nat, runs: seq<Run>)
    requires |sm| == MAXSM
  {
    forall i :: 0 <= i < |runs| ==> FoundAt(sm, t, bits, runs, i)
  }

  method SkipSm(sm: seq<SyncManager>, t: nat, from: nat) returns (smc: nat)
    requires |sm| == MAXSM && from < MAXSM
    ensures smc == Skip(sm, t, from)
  {
    smc := from;
    while smc < MAXSM - 1 && sm[smc].smtype != t
      invariant smc < MAXSM && Skip(sm, t, smc) == Skip(sm, t, from)
    {
      smc := smc + 1;
    }
  }

  method FindRun(sm: seq<SyncManager>, t: nat, from: nat, counted: nat, bits: nat) returns (r: Run)
    requires |sm| == MAXSM && from < MAXSM
    ensures r == RunFrom(sm, t, from, counted, bits)
  {
    var smc := SkipSm(sm, t, from);
    r := Run(sm[smc].start, sm[smc].length, smc, counted + 8 * sm[smc].length);
    var end: nat := sm[smc].End();
    ghost var goal := Extend(sm, t, r, end, bits);
    assert goal == RunFrom(sm, t, from, counted, bits);
    while r.bitCount < bits && r.smc < MAXSM - 1
      invariant r.smc < MAXSM
      invariant Extend(sm, t, r, end, bits) == goal
      decreases MAXSM - r.smc
    {
      smc := SkipSm(sm, t, r.smc + 1);
      ExtendStep(sm, t, r, end, bits, smc);
      if sm[smc].start > end {
        return r.(smc := smc);
      }
      r := r.Longer(sm[smc], smc);
      end := sm[smc].End();
    }
  }

  /** The given runs are the first ones of the table, and the search stands behind them. */
  ghost predicate Searched(sm: seq<SyncManager>, t: nat, bits: nat, smc: nat, bitCount: nat, runs: seq<Run>) {
    && |sm| == MAXSM && smc < MAXSM && FoundIn(sm, t, bits, runs)
    && smc == After(runs, |runs|).smc && bitCount == After(runs, |runs|).bitCount
  }

  lemma OneRunMore(sm: seq<SyncManager>, t: nat, bits: nat, smc: nat, bitCount: nat, runs: seq<Run>, r: Run)
    requires Searched(sm, t, bits, smc, bitCount, runs) && r == RunFrom(sm, t, smc, bitCount, bits)
    ensures Searched(sm, t, bits, r.smc, r.bitCount, runs + [r])
  {
    var longer := runs + [r];
    forall i | 0 <= i < |longer| ensures FoundAt(sm, t, bits, longer, i) {
      assert After(longer, i) == After(runs, i);
      if i < |runs| { assert FoundAt(sm, t, bits, runs, i); }
    }
  }

  // ----- FMMUs -----

  /** `u` maps exactly the `bits` bits from logical bit `pos` on. */
  predicate MapsBits(u: Unit, d: Dir, pos: nat, bits: nat) {
    && bits > 0 && u.fmmuType == d.FmmuType() && u.active
    && 8 * u.logStart + u.logStartbit == pos && u.logStartbit < 8
    && 8 * (u.logStart + u.logLength - 1) + u.logEndbit == pos + bits - 1 && u.logEndbit < 8
  }

  /** Units `lo` to `hi - 1` map whole bytes, seamlessly from byte `first` up to byte `end`; units of
      length 0 are not switched on. */
  ghost predicate Tiles(f: seq<Unit>, d: Dir, lo: nat, hi: nat, first: nat, end: nat)
    requires hi <= |f|
    decreases hi
  {
    if lo >= hi then first == end
    else
      var u := f[hi - 1];
      && u.logStart + u.logLength == end && u.logStartbit == 0 && u.logEndbit == 7
      && (u.logLength > 0 ==> u.fmmuType == d.FmmuType() && u.active)
      && Tiles(f, d, lo, hi - 1, first, u.logStart)
  }

  // ----- physical memory behind the units -----

  /** The 16-bit byte counter of the mapping loop, which is never reset between runs. */
  ghost function ByteCount(runs: seq<Run>): (n: nat) {
    if runs == [] then 0 else (ByteCount(runs[..|runs| - 1]) + runs[|runs| - 1].length) % 65536
  }

  /** Bytes mapped after the given runs, of `bytes` in all. */
  ghost function Done(runs: seq<Run>, bytes: nat): (n: nat)
    ensures n <= bytes
  {
    if runs == [] then 0
    else
      var done := Done(runs[..|runs| - 1], bytes);
      if ByteCount(runs) > bytes - done then bytes else done + ByteCount(runs)
  }

  /** Size of the unit made for the last of the runs. */
  ghost function LastSize(runs: seq<Run>, bytes: nat): (n: nat)
    requires runs != []
  {
    Done(runs, bytes) - Done(runs[..|runs| - 1], bytes)
  }

  /** Unit `lo + i` maps the beginning of run `i`. */
  ghost predicate Follows(f: seq<Unit>, lo: nat, runs: seq<Run>, bytes: nat)
    requires lo + |runs| <= |f|
  {
    runs == [] ||
    var n := |runs| - 1;
    && f[lo + n].physStart == runs[n].start && f[lo + n].logLength == LastSize(runs, bytes)
    && Follows(f, lo, runs[..n], bytes)
  }

  lemma {:induction false} FollowsLocal(f: seq<Unit>, g: seq<Unit>, lo: nat, runs: seq<Run>, bytes: nat)
    requires lo + |runs| <= |f| && lo + |runs| <= |g| && forall k :: lo <= k < lo + |runs| ==> f[k] == g[k]
    requires Follows(f, lo, runs, bytes)
    ensures Follows(g, lo, runs, bytes)
  {
    if runs != [] { FollowsLocal(f, g, lo, runs[..|runs| - 1], bytes); }
  }

  /** The loop goes on to another run only while bytes are left, and stops when none is. */
  ghost predicate JustEnough(runs: seq<Run>, bytes: nat) {
    runs != [] && Done(runs, bytes) == bytes && Done(runs[..|runs| - 1], bytes) < bytes
  }

  // ----- placing images -----

  /** The image of side `d`, placed at cursor `c`, is mapped by units `lo` to `hi - 1`. */
  ghost predicate MappedBy(s: Slave, d: Dir, c: Cursor, lo: nat, hi: nat)
    requires |s.fmmu| == MAXFMMU
  {
    && lo < hi <= MAXFMMU
    && if s.Side(d).bytes == 0 then hi == lo + 1 && MapsBits(s.fmmu[lo], d, c.Pos(), s.Side(d).bits)
       else Tiles(s.fmmu, d, lo, hi, c.Byte(), c.Byte() + s.Side(d).bytes)
  }

  lemma {:induction false} TilesLocal(f: seq<Unit>, g: seq<Unit>, d: Dir, lo: nat, hi: nat, first: nat, end: nat)
    requires hi <= |f| && hi <= |g| && forall k :: lo <= k < hi ==> f[k] == g[k]
    requires Tiles(f, d, lo, hi, first, end)
    ensures Tiles(g, d, lo, hi, first, end)
    decreases hi
  {
    if lo < hi { TilesLocal(f, g, d, lo, hi - 1, first, f[hi - 1].logStart); }
  }

  /** One FMMU entry for fewer than eight bits, and the cursor after it. */
  method PlaceBits(before: Unit, d: Dir, phys: nat, bits: nat, c: Cursor) returns (u: Unit, n: Cursor)
    requires 0 < bits < 8 && c.Valid()
    ensures MapsBits(u, d, c.Pos(), bits) && u.physStart == phys && n.Valid() && n.Pos() == c.Pos() + bits
    ensures u.logStart == c.addr && u.logStartbit == c.bit && u.logLength >= 1
  {
    var logAddr, bitPos := c.addr, c.bit;
    u := before.(physStart := phys, logStart := logAddr, logStartbit := bitPos);
    bitPos := bitPos + bits - 1;
    if bitPos > 7 {
      logAddr := logAddr + 1;
      bitPos := bitPos - 8;
    }
    u := u.(logLength := logAddr - u.logStart + 1, logEndbit := bitPos);
    bitPos := bitPos + 1;
    if bitPos > 7 {
      logAddr := logAddr + 1;
      bitPos := bitPos - 8;
    }
    n := Cursor(logAddr, bitPos);
    u := u.(fmmuType := d.FmmuType(), active := true);
  }

  /** One FMMU entry for `byteCount` bytes, but no more than are still to be mapped. */
  method PlaceBytes(before: Unit, d: Dir, phys: nat, byteCount: nat, todo: nat, c: Cursor) returns (u: Unit, n: Cursor)
    requires c.Valid()
    ensures u.logStart == c.Byte() && u.logStartbit == 0 && u.logEndbit == 7 && u.physStart == phys
    ensures u.logLength == if byteCount > todo then todo else byteCount
    ensures u.logLength > 0 ==> u.fmmuType == d.FmmuType() && u.active
    ensures n == Cursor(u.logStart + u.logLength, 0)
  {
    var logAddr := c.addr;
    if c.bit > 0 {
      logAddr := logAddr + 1;
    }
    u := before.(physStart := phys, logStart := logAddr, logStartbit := 0);
    var size := byteCount;
    if size > todo {
      size := todo;
    }
    logAddr := logAddr + size;
    u := u.(logLength := size, logEndbit := 7);
    n := Cursor(logAddr, 0);
    if size > 0 {
      u := u.(fmmuType := d.FmmuType(), active := true);
    }
  }

  // ----- how many units are needed -----

  /** The first `n` runs of a table */
  ghost function RunsOf(sm: seq<SyncManager>, t: nat, bits: nat, n: nat): (runs: seq<Run>)
    requires |sm| == MAXSM
    ensures |runs| == n && FoundIn(sm, t, bits, runs) && After(runs, n).smc < MAXSM
  {
    if n == 0 then []
    else
      var before := RunsOf(sm, t, bits, n - 1);
      var r := After(before, n - 1);
      OneRunMore(sm, t, bits, r.smc, r.bitCount, before, RunFrom(sm, t, r.smc, r.bitCount, bits));
      before + [RunFrom(sm, t, r.smc, r.bitCount, bits)]
  }

  /** There is only one way to find them. */
  lemma {:induction false} RunsAreUnique(sm: seq<SyncManager>, t: nat, bits: nat, a: seq<Run>, b: seq<Run>)
    requires |sm| == MAXSM && FoundIn(sm, t, bits, a) && FoundIn(sm, t, bits, b) && |a| == |b|
    ensures a == b
  {
    if a != [] {
      var n := |a| - 1;
      FewerFound(sm, t, bits, a, n);
      FewerFound(sm, t, bits, b, n);
      RunsAreUnique(sm, t, bits, a[..n], b[..n]);
      assert FoundAt(sm, t, bits, a, n) && FoundAt(sm, t, bits, b, n);
      assert After(a, n) == After(a[..n], n) && After(b, n) == After(b[..n], n);
      assert a == a[..n] + [a[n]] && b == b[..n] + [b[n]];
    }
  }

  lemma FewerFound(sm: seq<SyncManager>, t: nat, bits: nat, runs: seq<Run>, n: nat)
    requires |sm| == MAXSM && FoundIn(sm, t, bits, runs) && n <= |runs|
    ensures FoundIn(sm, t, bits, runs[..n])
  {
    forall i | 0 <= i < n ensures FoundAt(sm, t, bits, runs[..n], i) {
      assert FoundAt(sm, t, bits, runs, i) && After(runs[..n], i) == After(runs, i);
    }
  }

  /** The first `n` runs leave bytes to be mapped. */
  ghost predicate Short(sm: seq<SyncManager>, t: nat, bits: nat, bytes: nat, n: nat)
    requires |sm| == MAXSM
  {
    Done(RunsOf(sm, t, bits, n), bytes) < bytes
  }

  /** The units needed if `n - 1` are too few: the smallest number that is not; five stands for more than a slave has. */
  ghost function NeededFrom(sm: seq<SyncManager>, t: nat, bits: nat, bytes: nat, n: nat): (units: nat)
    requires |sm| == MAXSM && 1 <= n <= MAXFMMU + 1
    ensures n <= units <= MAXFMMU + 1
    decreases MAXFMMU + 1 - n
  {
    if n <= MAXFMMU && Short(sm, t, bits, bytes, n) then NeededFrom(sm, t, bits, bytes, n + 1) else n
  }

  /** The units side `d` needs: one for fewer than eight bits, otherwise one for each run until all bytes are mapped. */
  ghost function Units(s: Slave, d: Dir): (units: nat)
    requires |s.sm| == MAXSM
    ensures 1 <= units <= MAXFMMU + 1
  {
    if s.Side(d).bytes == 0 then 1 else NeededFrom(s.sm, d.SmType(), s.Side(d).bits, s.Side(d).bytes, 1)
  }

  lemma {:induction false} FewerIsLess(runs: seq<Run>, n: nat, bytes: nat)
    requires n < |runs| && Done(runs[..|runs| - 1], bytes) < bytes
    ensures Done(runs[..n], bytes) < bytes
  {
    if n < |runs| - 1 {
      var shorter := runs[..|runs| - 1];
      assert shorter[..n] == runs[..n];
      FewerIsLess(shorter, n, bytes);
    }
  }

  lemma ShortIff(sm: seq<SyncManager>, t: nat, bits: nat, bytes: nat, runs: seq<Run>, n: nat)
    requires |sm| == MAXSM && FoundIn(sm, t, bits, runs) && |runs| == n
    ensures Short(sm, t, bits, bytes, n) <==> Done(runs, bytes) < bytes
  {
    var all := RunsOf(sm, t, bits, n);
    RunsAreUnique(sm, t, bits, runs, all);
  }

  /** When the runs found so far map all bytes and all but the last did not, they are as many as are needed; when
      they do not, more are. */
  lemma {:induction false} UnitsCounted(sm: seq<SyncManager>, t: nat, bits: nat, bytes: nat, runs: seq<Run>, n: nat, units: nat)
    requires |sm| == MAXSM && FoundIn(sm, t, bits, runs) && 1 <= n <= |runs| + 1 <= MAXFMMU + 1 && bytes > 0
    requires runs != [] ==> Done(runs[..|runs| - 1], bytes) < bytes
    requires units == NeededFrom(sm, t, bits, bytes, n)
    ensures Done(runs, bytes) == bytes && n <= |runs| ==> units == |runs|
    ensures Done(runs, bytes) < bytes ==> units > |runs|
    decreases |runs| + 1 - n
  {
    if n <= |runs| {
      var first := runs[..n];
      FewerFound(sm, t, bits, runs, n);
      ShortIff(sm, t, bits, bytes, first, n);
      if n < |runs| { FewerIsLess(runs, n, bytes); } else { assert first == runs; }
      if Done(first, bytes) < bytes {
        UnitsCounted(sm, t, bits, bytes, runs, n + 1, units);
      }
    }
  }

  /** The first unit from `k` on that has not been used: its logical start is 0. */
  function FreeFrom(f: seq<Unit>, k: nat): (n: nat)
    requires |f| == MAXFMMU && k <= MAXFMMU
    ensures k <= n <= MAXFMMU && (n < MAXFMMU ==> f[n].logStart == 0)
    ensures forall j :: k <= j < n ==> f[j].logStart != 0
    decreases MAXFMMU - k
  {
    if k < MAXFMMU && f[k].logStart != 0 then FreeFrom(f, k + 1) else k
  }

  /** The first unit for side `d`: with outputs, the inputs look for an unused one. */
  function FirstUnit(s: Slave, d: Dir): (lo: nat)
    requires |s.fmmu| == MAXFMMU && s.unused <= MAXFMMU
    ensures s.unused <= lo <= MAXFMMU
    ensures if d.In? && s.output.bits > 0 then lo < MAXFMMU ==> s.fmmu[lo].logStart == 0 else lo == s.unused
  {
    if d.In? && s.output.bits > 0 then FreeFrom(s.fmmu, s.unused) else s.unused
  }

  /** The slave has units enough for side `d`. */
  ghost predicate Suffice(s: Slave, d: Dir)
    requires s.Valid() && s.unused <= MAXFMMU
  {
    FirstUnit(s, d) + Units(s, d) <= MAXFMMU
  }

  /** The slave has units enough for its inputs once its outputs are mapped. */
  ghost predicate InputsSuffice(s: Slave)
    requires s.Valid() && s.unused <= MAXFMMU
  {
    if s.output.bits == 0 then Suffice(s, In)
    else Suffice(s, Out) && FreeFrom(s.fmmu, s.unused + Units(s, Out)) + Units(s, In) <= MAXFMMU
  }

  /** The slave has units enough for both sides. */
  ghost predicate BothSuffice(s: Slave)
    requires s.Valid() && s.unused <= MAXFMMU
  {
    (s.output.bits > 0 ==> Suffice(s, Out)) && (s.input.bits > 0 ==> InputsSuffice(s))
  }

  lemma {:induction false} SameFree(f: seq<Unit>, g: seq<Unit>, k: nat)
    requires |f| == |g| == MAXFMMU && k <= MAXFMMU && f[k..] == g[k..]
    ensures FreeFrom(f, k) == FreeFrom(g, k)
    decreases MAXFMMU - k
  {
    if k < MAXFMMU {
      assert f[k] == f[k..][0] && g[k] == g[k..][0];
      assert f[k + 1..] == f[k..][1..] && g[k + 1..] == g[k..][1..];
      SameFree(f, g, k + 1);
    }
  }

  /** A slave none of whose units has been used needs no more than four for both sides. */
  lemma FreshSuffices(s: Slave)
    requires s.Valid() && s.unused == 0 && forall k :: 0 <= k < MAXFMMU ==> s.fmmu[k].logStart == 0
    ensures BothSuffice(s) <==>
      (if s.output.bits > 0 then Units(s, Out) else 0) + (if s.input.bits > 0 then Units(s, In) else 0) <= MAXFMMU
  {
  }

  /** The units of side `d` from `lo` on map the runs of the sync-manager table. */
  ghost predicate RunsMapped(s: Slave, d: Dir, lo: nat, runs: seq<Run>) {
    && |s.fmmu| == MAXFMMU && |s.sm| == MAXSM && lo + |runs| == s.unused <= MAXFMMU
    && FoundIn(s.sm, d.SmType(), s.Side(d).bits, runs)
    && JustEnough(runs, s.Side(d).bytes) && Follows(s.fmmu, lo, runs, s.Side(d).bytes)
  }

  /** The data pointer is set when the slave has none yet. */
  function InIoMap(io: Io, c: Cursor, base: nat): Io
    requires base <= c.addr
  {
    if io.ptr.Some? then io else io.(ptr := Some(Start(io, c) / 8 - base), startbit := Start(io, c) % 8)
  }

  /** What mapping side `d` at cursor `c` leaves of slave `s`. */
  ghost predicate Placed(r: Slave, s: Slave, d: Dir, base: nat, c: Cursor, lo: nat) {
    && s.Valid() && r.Valid() && s.unused <= lo <= r.unused <= MAXFMMU && base <= c.addr
    && lo == FirstUnit(s, d) && r.unused == lo + Units(s, d)
    && r.fmmu[..lo] == s.fmmu[..lo] && r.fmmu[r.unused..] == s.fmmu[r.unused..]
    && MappedBy(r, d, c, lo, r.unused)
    && r == s.WithSide(d, InIoMap(s.Side(d), c, base)).(fmmu := r.fmmu, unused := r.unused)
  }

  /** Mapping the outputs changes neither the inputs nor the sync managers, nor the units behind those it used. */
  lemma OutputsLeaveInputs(r: Slave, s: Slave, base: nat, c: Cursor, lo: nat)
    requires Placed(r, s, Out, base, c, lo)
    ensures r.sm == s.sm && r.input == s.input && (r.output.bits > 0 <==> s.output.bits > 0)
    ensures r.fmmu[r.unused..] == s.fmmu[r.unused..] && r.unused == s.unused + Units(s, Out) && r.Valid() && s.Valid()
  {
  }

  /** Whether the units suffice for the inputs can be told before the outputs are mapped. */
  lemma InputsAfterOutputs(r: Slave, s: Slave, base: nat, c: Cursor, lo: nat)
    requires Placed(r, s, Out, base, c, lo) && s.output.bits > 0
    ensures Suffice(r, In) <==> InputsSuffice(s)
  {
    OutputsLeaveInputs(r, s, base, c, lo);
    SameFree(r.fmmu, s.fmmu, r.unused);
    InputsCounted(r, s, Units(s, Out), Units(r, In));
  }

  lemma InputsCounted(r: Slave, s: Slave, outputs: nat, inputs: nat)
    requires r.Valid() && s.Valid() && r.sm == s.sm && r.input == s.input && r.output.bits > 0 && s.output.bits > 0
    requires outputs == Units(s, Out) && inputs == Units(r, In) && r.unused == s.unused + outputs <= MAXFMMU
    requires FreeFrom(r.fmmu, r.unused) == FreeFrom(s.fmmu, r.unused)
    ensures Suffice(r, In) <==> InputsSuffice(s)
  {
    assert inputs == Units(s, In);
  }

  /** Map side `d` of a slave.  `ok` is false exactly when the four FMMUs of a slave do not suffice: there the
      code runs past the end of the FMMU table. */
  method CreateMappings(slavelist: array<Slave>, slave: nat, d: Dir, base: nat, c: Cursor)
    returns (ok: bool, n: Cursor, ghost lo: nat, ghost runs: seq<Run>)
    requires slave < slavelist.Length && slavelist[slave].Valid() && slavelist[slave].Side(d).bits > 0
    requires c.Valid() && base <= c.addr && slavelist[slave].unused <= MAXFMMU
    modifies slavelist
    ensures forall k :: 0 <= k < slavelist.Length && k != slave ==> slavelist[k] == old(slavelist[k])
    ensures ok <==> Suffice(old(slavelist[slave]), d)
    ensures ok ==> Placed(slavelist[slave], old(slavelist[slave]), d, base, c, lo)
    ensures ok ==> n == Next(old(slavelist[slave]).Side(d), c)
    ensures ok && slavelist[slave].Side(d).bytes > 0 ==>
      RunsMapped(slavelist[slave], d, lo, runs)
      && FoundIn(slavelist[slave].sm, if d.Out? then 3 else 4, slavelist[slave].Side(d).bits, runs)
  {
    var s := slavelist[slave];
    var fmmuc := s.unused;
    n := c;
    if d.In? && s.output.bits > 0 {
      while fmmuc < MAXFMMU && s.fmmu[fmmuc].logStart != 0
        invariant s.unused <= fmmuc <= MAXFMMU && FreeFrom(s.fmmu, fmmuc) == FreeFrom(s.fmmu, s.unused)
      {
        fmmuc := fmmuc + 1;
      }
    }
    lo := fmmuc;
    ok, fmmuc, s, n, runs := FillUnits(s, d, base, c, fmmuc);
    slavelist[slave] := s.(unused := fmmuc);
  }

  /** Units `lo` to `fmmuc - 1` are filled, with `done` bytes, and `n` is the next free place. */
  ghost predicate Filling(s: Slave, s0: Slave, d: Dir, base: nat, c: Cursor, lo: nat, fmmuc: nat, done: nat, n: Cursor) {
    var io := s0.Side(d);
    && s0.Valid() && io.bits > 0 && c.Valid() && n.Valid() && base <= c.addr
    && lo <= fmmuc <= MAXFMMU && |s.fmmu| == MAXFMMU && s.fmmu[..lo] == s0.fmmu[..lo]
    && (if fmmuc == lo then done == 0 && n == c && s == s0
        else s == s0.WithSide(d, InIoMap(io, c, base)).(fmmu := s.fmmu))
    && (if io.bytes == 0 then fmmuc > lo ==> BitsFilled(s, d, io, c, lo, fmmuc, done, n)
        else BytesFilled(s, d, io, c, lo, fmmuc, done, n))
  }

  ghost predicate BitsFilled(s: Slave, d: Dir, io: Io, c: Cursor, lo: nat, fmmuc: nat, done: nat, n: Cursor)
    requires |s.fmmu| == MAXFMMU && lo < fmmuc <= MAXFMMU
  {
    done >= 1 && fmmuc == lo + 1 && MapsBits(s.fmmu[lo], d, c.Pos(), io.bits) && n == Next(io, c)
  }

  ghost predicate BytesFilled(s: Slave, d: Dir, io: Io, c: Cursor, lo: nat, fmmuc: nat, done: nat, n: Cursor)
    requires |s.fmmu| == MAXFMMU && lo <= fmmuc <= MAXFMMU
  {
    && done <= io.bytes && Tiles(s.fmmu, d, lo, fmmuc, c.Byte(), c.Byte() + done)
    && (fmmuc > lo ==> n == Cursor(c.Byte() + done, 0))
  }

  /** Where the mapping loop of one side stands. */
  datatype Loop = Loop(s: Slave, fmmuc: nat, n: Cursor, smc: nat, bitCount: nat, byteCount: nat, done: nat)

  /** The units from number `k` on are as they were. */
  ghost predicate SameBehind(f: seq<Unit>, g: seq<Unit>, k: nat) {
    |f| == |g| == MAXFMMU && k <= MAXFMMU && f[k..] == g[k..]
  }

  lemma SameBehindNext(f: seq<Unit>, g: seq<Unit>, h: seq<Unit>, k: nat)
    requires SameBehind(f, g, k) && k < MAXFMMU && SameBehind(h, f, k + 1)
    ensures SameBehind(h, g, k + 1)
  {
    assert f[k..][1..] == f[k + 1..] && g[k..][1..] == g[k + 1..];
  }

  ghost predicate LoopState(l: Loop, s0: Slave, d: Dir, base: nat, c: Cursor, lo: nat, runs: seq<Run>) {
    && |s0.fmmu| == MAXFMMU && s0.unused <= MAXFMMU
    && lo == FirstUnit(s0, d) && SameBehind(l.s.fmmu, s0.fmmu, l.fmmuc)
    && Searched(s0.sm, d.SmType(), s0.Side(d).bits, l.smc, l.bitCount, runs) && Filling(l.s, s0, d, base, c, lo, l.fmmuc, l.done, l.n)
    && (s0.Side(d).bytes > 0 ==> Backed(l.s, s0.Side(d), lo, l.fmmuc, runs, l.byteCount, l.done))
  }

  method FillUnits(s0: Slave, d: Dir, base: nat, c: Cursor, lo: nat) returns (ok: bool, fmmuc: nat, s: Slave, n: Cursor, ghost runs: seq<Run>)
    requires s0.Valid() && s0.Side(d).bits > 0 && c.Valid() && base <= c.addr && s0.unused <= MAXFMMU && lo == FirstUnit(s0, d)
    ensures ok <==> Suffice(s0, d)
    ensures ok ==> fmmuc <= MAXFMMU && Placed(s.(unused := fmmuc), s0, d, base, c, lo)
    ensures ok ==> n == Next(s0.Side(d), c)
    ensures ok && s0.Side(d).bytes > 0 ==> RunsMapped(s.(unused := fmmuc), d, lo, runs)
  {
    runs := [];
    var l := Loop(s0, lo, c, 0, 0, 0, 0);
    assert LoopState(l, s0, d, base, c, lo, runs);
    while l.done < (s0.Side(d).bits + 7) / 8 && l.fmmuc < MAXFMMU
      invariant LoopState(l, s0, d, base, c, lo, runs)
      decreases MAXFMMU - l.fmmuc
    {
      l, runs := FillNext(l, s0, d, base, c, lo, runs);
    }
    ok, fmmuc, s, n := l.done >= (s0.Side(d).bits + 7) / 8, l.fmmuc, l.s, l.n;
    UnitsUsed(l, s0, d, base, c, lo, runs);
    if ok {
      FilledIsPlaced(l, s0, d, base, c, lo, runs);
      if s0.Side(d).bytes > 0 { FilledIsBacked(l, s0, d, base, c, lo, runs); }
    }
  }

  /** One round of the loop: find the next run of memory and map it with the next unit. */
  method FillNext(l: Loop, s0: Slave, d: Dir, base: nat, ghost c: Cursor, ghost lo: nat, ghost runs: seq<Run>)
    returns (r: Loop, ghost longer: seq<Run>)
    requires LoopState(l, s0, d, base, c, lo, runs) && l.fmmuc < MAXFMMU && l.done < (s0.Side(d).bits + 7) / 8
    ensures LoopState(r, s0, d, base, c, lo, longer) && r.fmmuc == l.fmmuc + 1
  {
    var run := FindRun(s0.sm, d.SmType(), l.smc, l.bitCount, s0.Side(d).bits);
    longer := runs + [run];
    var byteCount := (l.byteCount + run.length) % 65536;
    var s, size, n := FillUnit(l.s, s0, d, base, c, lo, l.fmmuc, run.start, byteCount, l.done, l.n);
    r := Loop(s, l.fmmuc + 1, n, run.smc, run.bitCount, byteCount, l.done + size);
    UnitFilled(l, s0, d, base, c, lo, runs, run, longer, size, r);
  }

  /** A unit filled for the run found keeps what holds in the loop. */
  lemma UnitFilled(l: Loop, s0: Slave, d: Dir, base: nat, c: Cursor, lo: nat, runs: seq<Run>, run: Run, longer: seq<Run>, size: nat, r: Loop)
    requires LoopState(l, s0, d, base, c, lo, runs) && l.fmmuc < MAXFMMU && l.done < (s0.Side(d).bits + 7) / 8
    requires run == RunFrom(s0.sm, d.SmType(), l.smc, l.bitCount, s0.Side(d).bits) && longer == runs + [run]
    requires r == Loop(r.s, l.fmmuc + 1, r.n, run.smc, run.bitCount, (l.byteCount + run.length) % 65536, l.done + size)
    requires Filling(r.s, s0, d, base, c, lo, r.fmmuc, r.done, r.n)
    requires r.s.fmmu[..l.fmmuc] == l.s.fmmu[..l.fmmuc] && SameBehind(r.s.fmmu, l.s.fmmu, r.fmmuc)
    requires size == r.s.fmmu[l.fmmuc].logLength && r.s.fmmu[l.fmmuc].physStart == run.start
    requires var io := s0.Side(d); io.bytes > 0 ==> size == if r.byteCount > io.bytes - l.done then io.bytes - l.done else r.byteCount
    ensures LoopState(r, s0, d, base, c, lo, longer)
  {
    var io := s0.Side(d);
    OneRunMore(s0.sm, d.SmType(), io.bits, l.smc, l.bitCount, runs, run);
    if io.bytes > 0 {
      BackedStep(l.s, r.s, io, lo, l.fmmuc, runs, l.byteCount, l.done, run, longer, r.byteCount);
    }
    SameBehindNext(l.s.fmmu, s0.fmmu, r.s.fmmu, l.fmmuc);
  }

  /** The units made so far map the runs found so far. */
  ghost predicate Backed(s: Slave, io: Io, lo: nat, fmmuc: nat, runs: seq<Run>, byteCount: nat, done: nat) {
    && |s.fmmu| == MAXFMMU && fmmuc == lo + |runs| <= MAXFMMU
    && byteCount == ByteCount(runs) && done == Done(runs, io.bytes) && Follows(s.fmmu, lo, runs, io.bytes)
    && (runs != [] ==> Done(runs[..|runs| - 1], io.bytes) < io.bytes)
  }

  lemma BackedStep(s: Slave, r: Slave, io: Io, lo: nat, fmmuc: nat, runs: seq<Run>, byteCount: nat, done: nat, m: Run, longer: seq<Run>, count: nat)
    requires Backed(s, io, lo, fmmuc, runs, byteCount, done) && done < io.bytes && fmmuc < MAXFMMU
    requires longer == runs + [m] && count == (byteCount + m.length) % 65536
    requires |r.fmmu| == MAXFMMU && s.fmmu[..fmmuc] == r.fmmu[..fmmuc] && r.fmmu[fmmuc].physStart == m.start
    requires r.fmmu[fmmuc].logLength == if count > io.bytes - done then io.bytes - done else count
    ensures Backed(r, io, lo, fmmuc + 1, longer, count, done + r.fmmu[fmmuc].logLength)
  {
    assert longer[..|longer| - 1] == runs;
    FollowsLocal(s.fmmu, r.fmmu, lo, runs, io.bytes);
  }

  /** The loop has used as many units as are needed, or too few. */
  lemma UnitsUsed(l: Loop, s0: Slave, d: Dir, base: nat, c: Cursor, lo: nat, runs: seq<Run>)
    requires LoopState(l, s0, d, base, c, lo, runs) && (l.done >= (s0.Side(d).bits + 7) / 8 || l.fmmuc == MAXFMMU)
    ensures if l.done >= (s0.Side(d).bits + 7) / 8 then l.fmmuc == lo + Units(s0, d) else lo + Units(s0, d) > MAXFMMU
  {
    var io := s0.Side(d);
    if io.bytes > 0 {
      UnitsCounted(s0.sm, d.SmType(), io.bits, io.bytes, runs, 1, Units(s0, d));
    }
  }

  lemma FilledIsPlaced(l: Loop, s0: Slave, d: Dir, base: nat, c: Cursor, lo: nat, runs: seq<Run>)
    requires LoopState(l, s0, d, base, c, lo, runs) && l.fmmuc == lo + Units(s0, d) && l.done >= (s0.Side(d).bits + 7) / 8
    ensures Placed(l.s.(unused := l.fmmuc), s0, d, base, c, lo) && l.n == Next(s0.Side(d), c)
  {
    var r := l.s.(unused := l.fmmuc);
    FilledIsMapped(l.s, s0, d, base, c, lo, l.fmmuc, l.done, l.n, r);
    assert r.Side(d) == InIoMap(s0.Side(d), c, base);
  }

  lemma FilledIsMapped(s: Slave, s0: Slave, d: Dir, base: nat, c: Cursor, lo: nat, fmmuc: nat, done: nat, n: Cursor, r: Slave)
    requires Filling(s, s0, d, base, c, lo, fmmuc, done, n) && lo < fmmuc && done >= (s0.Side(d).bits + 7) / 8 && r == s.(unused := fmmuc)
    ensures MappedBy(r, d, c, lo, fmmuc) && n == Next(s0.Side(d), c)
  {
    var io := s0.Side(d);
    if io.bytes > 0 {
      assert io.bytes == (io.bits + 7) / 8 && done == io.bytes;
      PosDecides(Cursor(c.Byte() + io.bytes, 0), 8 * (c.Byte() + io.bytes));
    }
  }

  lemma FilledIsBacked(l: Loop, s0: Slave, d: Dir, base: nat, c: Cursor, lo: nat, runs: seq<Run>)
    requires LoopState(l, s0, d, base, c, lo, runs) && l.done >= (s0.Side(d).bits + 7) / 8 && s0.Side(d).bytes > 0 && l.fmmuc > lo
    ensures RunsMapped(l.s.(unused := l.fmmuc), d, lo, runs)
  {
    assert s0.Side(d).bytes == (s0.Side(d).bits + 7) / 8;
  }

  method FillUnit(s: Slave, ghost s0: Slave, d: Dir, base: nat, ghost c: Cursor, ghost lo: nat, fmmuc: nat, phys: nat, byteCount: nat, done: nat, n: Cursor)
    returns (r: Slave, size: nat, next: Cursor)
    requires Filling(s, s0, d, base, c, lo, fmmuc, done, n) && fmmuc < MAXFMMU && done < (s0.Side(d).bits + 7) / 8
    ensures Filling(r, s0, d, base, c, lo, fmmuc + 1, done + size, next)
    ensures r.fmmu[..fmmuc] == s.fmmu[..fmmuc] && SameBehind(r.fmmu, s.fmmu, fmmuc + 1)
    ensures size == r.fmmu[fmmuc].logLength && r.fmmu[fmmuc].physStart == phys
    ensures var io := s0.Side(d); io.bytes > 0 ==> size == if byteCount > io.bytes - done then io.bytes - done else byteCount
  {
    var io := s.Side(d);
    var u;
    if io.bytes == 0 {
      assert io.bits <= 7 && (io.bits + 7) / 8 == 1;
      u, next := PlaceBits(s.fmmu[fmmuc], d, phys, io.bits, n);
      BitsAdded(s, s0, d, base, c, lo, fmmuc, done, n, u, next);
    } else {
      u, next := PlaceBytes(s.fmmu[fmmuc], d, phys, byteCount, io.bytes - done, n);
      BytesAdded(s, s0, d, base, c, lo, fmmuc, done, n, u, next);
    }
    size := u.logLength;
    r := WithUnit(s, d, base, fmmuc, u);
  }

  /** The slave with one more unit; its data pointer is set when it has none yet. */
  function WithUnit(s: Slave, d: Dir, base: nat, k: nat, u: Unit): (r: Slave)
    requires k < |s.fmmu| && base <= u.logStart
    ensures r.fmmu == s.fmmu[k := u]
  {
    var r := s.(fmmu := s.fmmu[k := u]);
    if s.Side(d).ptr.None? then r.WithSide(d, s.Side(d).(ptr := Some(u.logStart - base), startbit := u.logStartbit)) else r
  }

  lemma BitsAdded(s: Slave, s0: Slave, d: Dir, base: nat, c: Cursor, lo: nat, fmmuc: nat, done: nat, n: Cursor, u: Unit, next: Cursor)
    requires Filling(s, s0, d, base, c, lo, fmmuc, done, n) && fmmuc < MAXFMMU && done == 0 && s.Side(d).bytes == 0
    requires MapsBits(u, d, n.Pos(), s.Side(d).bits) && next.Valid() && next.Pos() == n.Pos() + s.Side(d).bits
    requires u.logStart == n.addr && u.logStartbit == n.bit && u.logLength >= 1
    ensures base <= u.logStart && Filling(WithUnit(s, d, base, fmmuc, u), s0, d, base, c, lo, fmmuc + 1, done + u.logLength, next)
  {
    PosDecides(c, c.Pos());
    PosDecides(next, c.Pos() + s.Side(d).bits);
  }

  lemma PosDecides(c: Cursor, pos: nat)
    requires c.Valid() && c.Pos() == pos
    ensures c == Cursor(pos / 8, pos % 8)
  {
  }

  lemma BytesAdded(s: Slave, s0: Slave, d: Dir, base: nat, c: Cursor, lo: nat, fmmuc: nat, done: nat, n: Cursor, u: Unit, next: Cursor)
    requires Filling(s, s0, d, base, c, lo, fmmuc, done, n) && fmmuc < MAXFMMU && 0 < s.Side(d).bytes && done <= s.Side(d).bytes
    requires u.logStart == n.Byte() && u.logStartbit == 0 && u.logEndbit == 7 && u.logLength <= s.Side(d).bytes - done
    requires (u.logLength > 0 ==> u.fmmuType == d.FmmuType() && u.active) && next == Cursor(u.logStart + u.logLength, 0)
    ensures base <= u.logStart && Filling(WithUnit(s, d, base, fmmuc, u), s0, d, base, c, lo, fmmuc + 1, done + u.logLength, next)
  {
    TilesLocal(s.fmmu, s.fmmu[fmmuc := u], d, lo, fmmuc, c.Byte(), c.Byte() + done);
  }
}
