/** What one cycle of the 1 kHz control loop works with: drive states, the force limit, the last check before the
    outputs are written, and the history of cycles that the properties of whole runs are about. */
module RtCycle {
  const CONTROL_SHUTDOWN := 0x0006
  const CONTROL_SWITCH_ON := 0x0007
  const CONTROL_ENABLE_OPERATION := 0x000F
  const CONTROL_FAULT_RESET := 0x0080

  const MODE_CSP := 8
  const MODE_CSV := 9
  const MODE_CST := 10

  /** Cycles a fault reset is held */
  const RESET_CYCLES: nat := 20

  predicate IsMode(m: int) {
    m == MODE_CSP || m == MODE_CSV || m == MODE_CST
  }

  /** A mode the node knows */
  type Mode = m: int | IsMode(m) witness MODE_CSV

  /** Conversion of a 32-bit command to 8 bits with sign */
  function ToInt8(x: int): (r: int)
    ensures -128 <= r < 128 && (x - r) % 256 == 0
  {
    (x + 128) % 256 - 128
  }

  datatype InPdo = InPdo(status: nat, position: int, velocity: int, torque: int)
  datatype OutPdo = OutPdo(control: nat, mode: int, position: int, velocity: int, torque: int)

  /** Bit 3 of the status word */
  predicate IsFault(status: nat) {
    status / 8 % 2 == 1
  }

  /** The bits of the mask 0x6F: 0 to 3, 5 and 6 */
  function Masked(status: nat): nat {
    status % 16 + status / 32 % 4 * 32
  }

  function NextControlWord(status: nat, enable: bool): (control: nat)
    ensures control != CONTROL_FAULT_RESET
    ensures !enable ==> control == 0x06
    ensures enable ==> var switched, ready := status / 32 % 4 == 1 && status % 16 in {0x3, 0x7}, status / 32 % 4 == 1 && status % 16 == 0x1;
                       control == if switched then 0x0F else if ready then 0x07 else 0x06
  {
    if Masked(status) == 0x27 || Masked(status) == 0x23 then (if enable then CONTROL_ENABLE_OPERATION else CONTROL_SHUTDOWN)
    else if Masked(status) == 0x21 then (if enable then CONTROL_SWITCH_ON else CONTROL_SHUTDOWN)
    else CONTROL_SHUTDOWN
  }

  // ----- force limit -----

  function Abs(x: int): nat { if x < 0 then -x else x }

  const STALE_NS := 500_000_000

  datatype Sample = Sample(force: int, ns: int)

  predicate Recent(s: Sample, now: int) {
    s.ns > 0 && 0 <= now - s.ns < STALE_NS
  }

  datatype LimitCheck = LimitCheck(valid: bool, over: bool, peak: nat)

  function CheckForceLimit(limit: int, now: int, s0: Sample, s1: Sample): (r: LimitCheck)
    ensures r.valid <==> limit > 0 && (Recent(s0, now) || Recent(s1, now))
    ensures r.over <==> limit > 0 && ((Recent(s0, now) && Abs(s0.force) > limit) || (Recent(s1, now) && Abs(s1.force) > limit))
  {
    if limit <= 0 || !(Recent(s0, now) || Recent(s1, now)) then LimitCheck(false, false, 0)
    else
      var p0 := if Recent(s0, now) then Abs(s0.force) else 0;
      var p1 := if Recent(s1, now) && Abs(s1.force) > p0 then Abs(s1.force) else p0;
      LimitCheck(true, p1 > limit, p1)
  }

  // ----- output safety -----

  predicate TimeoutExpired(now: int, last: int, ms: int) {
    ms > 0 && last > 0 && now - last > ms * 1_000_000
  }

  /** What the last check looks at */
  datatype Guard = Guard(fault: bool, enable: bool, tripped: bool, commandLate: bool, heartbeatLate: bool) {
    predicate Stops() { fault || !enable || tripped || commandLate || heartbeatLate }
  }

  function Clamp(x: int, limit: int): (r: int)
    ensures limit >= 0 ==> -limit <= r <= limit
    ensures -limit <= x <= limit ==> r == x
  {
    if limit < 0 then 0 else if x < -limit then -limit else if x > limit then limit else x
  }

  datatype Outputs = Outputs(velocity: int, torque: int)

  /** `apply_output_safety` */
  function ApplySafety(velocity: int, torque: int, guard: Guard, maxRpm: int): (r: Outputs)
    ensures guard.fault || !guard.enable || guard.tripped || guard.commandLate || guard.heartbeatLate ==> r == Outputs(0, 0)
    ensures Abs(r.velocity) <= if maxRpm < 0 then 0 else maxRpm
    ensures !guard.fault && guard.enable && !guard.tripped && !guard.commandLate && !guard.heartbeatLate
      ==> r.torque == torque && (-maxRpm <= velocity <= maxRpm ==> r.velocity == velocity)
          && (velocity > maxRpm >= 0 ==> r.velocity == maxRpm) && (velocity < -maxRpm <= 0 ==> r.velocity == -maxRpm)
  {
    Outputs(Clamp(if guard.Stops() then 0 else velocity, maxRpm), if guard.Stops() then 0 else torque)
  }

  // ----- history -----

  /** One completed cycle: what was seen, whether a reset request was taken up, whether force control was on, the
      speed limit, and what was written in the end. */
  datatype Cycle = Cycle(guard: Guard, consumed: bool, forceControl: bool, limit: nat, pdo: OutPdo)

  /** Outputs are zero when there is a reason to stop, and the speed is always within the limit. */
  ghost predicate SafeOutputs(c: Cycle) {
    (c.guard.Stops() ==> c.pdo.velocity == 0 && c.pdo.torque == 0)
    && Abs(c.pdo.velocity) <= c.limit
  }

  /** A fault, a motor not enabled or held by the force limit, and a command or a heartbeat that is late each stop the
      motor: what a cycle writes then asks for no speed and no torque. */
  lemma EachReasonStops(log: History, n: nat)
    requires n < |log|
    ensures var g, pdo := log[n].guard, log[n].pdo;
            g.fault || !g.enable || g.tripped || g.commandLate || g.heartbeatLate ==> pdo.velocity == 0 && pdo.torque == 0
  {
    assert SafeControl(log, n);
  }

  /** So does every image that is sent: what the drive gets after such a cycle, until the next one is completed. */
  lemma StoppedIsSent(log: History, sent: seq<Sent>, k: nat)
    requires Faithful(log, sent) && k < |sent| && sent[k].cycles > 0
    ensures var g, image := log[sent[k].cycles - 1].guard, sent[k].image;
            g.fault || !g.enable || g.tripped || g.commandLate || g.heartbeatLate ==> image.velocity == 0 && image.torque == 0
  {
    EachReasonStops(log, sent[k].cycles - 1);
  }

  /** Position mode never reaches the drive, and force control means velocity mode. */
  ghost predicate SafeMode(c: Cycle) {
    (c.pdo.mode == MODE_CSV || c.pdo.mode == MODE_CST) && (c.forceControl ==> c.pdo.mode == MODE_CSV)
  }

  /** Cycles for which the reset is still held after one more cycle */
  function HoldAfter(hold: nat, fault: bool, consumed: bool): nat {
    var h := if consumed then RESET_CYCLES else hold;
    if !fault || h == 0 then 0 else h - 1
  }

  function Hold(log: seq<Cycle>, n: nat): nat
    requires n <= |log|
  {
    if n == 0 then 0 else HoldAfter(Hold(log, n - 1), log[n - 1].guard.fault, log[n - 1].consumed)
  }

  predicate ControlOk(hold: nat, fault: bool, consumed: bool, control: nat) {
    (consumed ==> fault)
    && (control == CONTROL_FAULT_RESET <==> fault && (consumed || hold > 0))
    && (fault && control != CONTROL_FAULT_RESET ==> control == CONTROL_SHUTDOWN)
  }

  /** What the control word of the n-th cycle says about resets */
  ghost predicate SafeControl(log: seq<Cycle>, n: nat)
    requires n < |log|
  {
    ControlOk(Hold(log, n), log[n].guard.fault, log[n].consumed, log[n].pdo.control)
  }

  ghost predicate SafeHistory(log: seq<Cycle>) {
    forall n :: 0 <= n < |log| ==> SafeMode(log[n]) && SafeOutputs(log[n]) && SafeControl(log, n)
  }

  /** The cycles of a run so far: each of them safe */
  type History = log: seq<Cycle> | SafeHistory(log) ghost witness []

  lemma {:induction false} HoldOfPrefix(log: seq<Cycle>, c: Cycle, n: nat)
    requires n <= |log|
    ensures Hold(log + [c], n) == Hold(log, n)
  {
    if n > 0 {
      HoldOfPrefix(log, c, n - 1);
    }
  }

  lemma HistoryGrows(log: seq<Cycle>, c: Cycle)
    requires SafeHistory(log) && SafeMode(c) && SafeOutputs(c) && SafeControl(log + [c], |log|)
    ensures SafeHistory(log + [c])
  {
    forall n | 0 <= n < |log| ensures SafeControl(log + [c], n) {
      HoldOfPrefix(log, c, n);
      assert SafeControl(log, n);
    }
  }

  /** Between decisions the reset counter is what the history says. */
  ghost predicate Held(log: seq<Cycle>, hold: nat) {
    hold == Hold(log, |log|)
  }

  /** The control word has been decided by that, and the counter is one cycle further. */
  ghost predicate Decided(log: seq<Cycle>, hold: nat, fault: bool, consumed: bool, control: nat) {
    hold == HoldAfter(Hold(log, |log|), fault, consumed) && ControlOk(Hold(log, |log|), fault, consumed, control)
  }

  /** A cycle that kept all the rules makes the history longer. */
  lemma CycleCompleted(log: History, c: Cycle, hold: nat)
    requires SafeMode(c) && SafeOutputs(c) && Decided(log, hold, c.guard.fault, c.consumed, c.pdo.control)
    ensures SafeHistory(log + [c]) && Held(log + [c], hold)
  {
    HoldOfPrefix(log, c, |log|);
    HistoryGrows(log, c);
  }

  // ----- what is sent -----

  const EMPTY_IMAGE := OutPdo(0, 0, 0, 0, 0)

  /** The image after n cycles */
  function Latest(log: seq<Cycle>, n: nat): OutPdo
    requires n <= |log|
  {
    if n == 0 then EMPTY_IMAGE else log[n - 1].pdo
  }

  /** An image that was sent after so many cycles had been completed */
  datatype Sent = Sent(image: OutPdo, cycles: nat)

  /** The drive has only ever been sent complete outputs, those of the cycle completed last. */
  ghost predicate Faithful(log: seq<Cycle>, sent: seq<Sent>) {
    forall k :: 0 <= k < |sent| ==> sent[k].cycles <= |log| && sent[k].image == Latest(log, sent[k].cycles)
  }

  lemma OneMoreSent(log: seq<Cycle>, sent: seq<Sent>)
    requires Faithful(log, sent)
    ensures Faithful(log, sent + [Sent(Latest(log, |log|), |log|)])
  {
  }

  lemma StaysFaithful(log: seq<Cycle>, sent: seq<Sent>, c: Cycle)
    requires Faithful(log, sent)
    ensures Faithful(log + [c], sent)
  {
  }

  /** So position mode is never sent, and no speed over the limit. */
  lemma NothingUnsafeIsSent(log: History, sent: seq<Sent>, k: nat)
    requires Faithful(log, sent) && k < |sent|
    ensures sent[k].image == EMPTY_IMAGE
            || (sent[k].image.mode in {9, 10} && sent[k].cycles > 0
                && Abs(sent[k].image.velocity) <= log[sent[k].cycles - 1].limit)
  {
    if sent[k].cycles > 0 {
      assert SafeControl(log, sent[k].cycles - 1);
    }
  }

  // ----- fault reset over whole runs -----

  ghost predicate FaultsThrough(log: seq<Cycle>, j: nat, n: nat)
    requires n <= |log|
  {
    forall i :: j <= i < n ==> log[i].guard.fault
  }

  /** Within the last `span` of the first n cycles a request was taken up, and the fault has lasted since. */
  ghost predicate ResetPending(log: seq<Cycle>, n: nat, span: int)
    requires n <= |log|
  {
    exists j: nat :: j < n && n - j <= span && log[j].consumed && FaultsThrough(log, j, n)
  }

  lemma PendingStep(log: seq<Cycle>, n: nat, span: int)
    requires 0 < n <= |log|
    ensures ResetPending(log, n, span)
            <==> log[n - 1].guard.fault && ((log[n - 1].consumed && span >= 1) || ResetPending(log, n - 1, span - 1))
  {
    if ResetPending(log, n, span) {
      var j: nat :| j < n && n - j <= span && log[j].consumed && FaultsThrough(log, j, n);
      assert FaultsThrough(log, j, n - 1);
    }
    if ResetPending(log, n - 1, span - 1) && log[n - 1].guard.fault {
      var j: nat :| j < n - 1 && n - 1 - j <= span - 1 && log[j].consumed && FaultsThrough(log, j, n - 1);
      assert FaultsThrough(log, j, n);
    }
    if log[n - 1].guard.fault {
      assert FaultsThrough(log, n - 1, n);
    }
  }

  lemma {:induction false} HoldIsWindow(log: seq<Cycle>, n: nat, h: nat)
    requires n <= |log|
    ensures Hold(log, n) > h <==> ResetPending(log, n, RESET_CYCLES - h - 1)
  {
    if n > 0 {
      HoldIsWindow(log, n - 1, h + 1);
      PendingStep(log, n, RESET_CYCLES - h - 1);
    }
  }

  /** Main result on resets: a fault reset is written in exactly those cycles in which the drive reports a fault
      that has lasted since a request was taken up no more than twenty cycles ago, this one included. */
  lemma ResetIffRecentRequest(log: History, n: nat)
    requires n < |log|
    ensures log[n].pdo.control == 0x80 <==> ResetPending(log, n + 1, 20)
    ensures log[n].guard.fault && log[n].pdo.control != 0x80 ==> log[n].pdo.control == 0x06
  {
    assert SafeControl(log, n);
    HoldIsWindow(log, n, 0);
    PendingStep(log, n + 1, RESET_CYCLES);
  }

  // ----- exchanges -----

  /** Failed exchanges since the last one that worked */
  function Trailing(exchanges: seq<bool>): nat {
    if exchanges == [] || exchanges[|exchanges| - 1] then 0 else 1 + Trailing(exchanges[..|exchanges| - 1])
  }

  function Failures(exchanges: seq<bool>): nat {
    if exchanges == [] then 0
    else (if exchanges[|exchanges| - 1] then 0 else 1) + Failures(exchanges[..|exchanges| - 1])
  }

  /** The run at the end consists of failures, and nothing longer does. */
  lemma {:induction false} TrailingIsLongest(exchanges: seq<bool>)
    ensures var t := Trailing(exchanges);
            t <= |exchanges| && (forall k :: |exchanges| - t <= k < |exchanges| ==> !exchanges[k])
            && (t < |exchanges| ==> exchanges[|exchanges| - t - 1])
  {
    if exchanges != [] && !exchanges[|exchanges| - 1] {
      TrailingIsLongest(exchanges[..|exchanges| - 1]);
    }
  }

  predicate CountsOk(exchanges: seq<bool>, consecutive: nat, errors: nat) {
    consecutive == Trailing(exchanges) && errors == Failures(exchanges)
  }

  lemma OneMoreExchange(exchanges: seq<bool>, good: bool, consecutive: nat, errors: nat)
    requires CountsOk(exchanges, consecutive, errors)
    ensures CountsOk(exchanges + [good], if good then 0 else consecutive + 1, if good then errors else errors + 1)
  {
    assert (exchanges + [good])[..|exchanges|] == exchanges;
  }
}
