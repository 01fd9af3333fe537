/** The motor node: the 1 kHz control loop and the callbacks that change its commands while it runs.  A cycle is cut
    into the sections of the loop body, and callbacks may come between any two of them; the results of the control
    laws are taken as they come. */
module RtLoop {
  import opened RtCycle
  import opened LimitTrip
  import opened FaultReset
  import opened RtHistory

  function ToInt16(x: int): (r: int)
    ensures -32768 <= r < 32768 && (x - r) % 65536 == 0
  {
    (x + 32768) % 65536 - 32768
  }

  /** Position mode has become velocity mode in the image. */
  predicate NoPositionMode(mode: Mode, out: OutPdo) {
    mode == MODE_CSP ==> out.mode == MODE_CSV
  }

  predicate ForceInSpeedMode(mode: Mode, forceActive: bool) {
    forceActive ==> mode == MODE_CSV
  }

  /** What holds of the image and the mode at every point of the loop body */
  ghost predicate ModeKept(stage: Stage, mode: Mode, out: OutPdo, forceActive: bool, log: History) {
    && (stage >= COMPUTED ==> NoPositionMode(mode, out))
    && (stage >= FORCE_DONE ==> ForceInSpeedMode(mode, forceActive))
    && (stage < COMPUTED ==> out == Latest(log, |log|))
  }

  /** What holds of the fault reset at every point of the loop body */
  ghost predicate ResetKept(stage: Stage, log: History, hold: nat, fault: bool, consumed: bool, control: nat) {
    if stage == CONTROLLED then Decided(log, hold, fault, consumed, control) else Held(log, hold)
  }

  /** The loop's own variables: those of the current cycle, kept from one section to the next, and behind `consumed`
      those it keeps from cycle to cycle */
  datatype Locals = Locals(stage: Stage, input: InPdo, enable: bool, fault: bool, mode: Mode, limit: int, vel: int, pos: int,
                           trq: int, forceActive: bool, control: nat, consumed: bool,
                           hold: nat, wasFault: bool, wasForceCtrl: bool, out: OutPdo)

  class Node {
    // parameters
    const autoEnable: bool
    const maxAbs: int
    const cmdTimeoutMs: int
    const heartbeatTimeoutMs: int

    // shared between the callbacks and the loop
    var target: int
    var targetPos: int
    var targetTrq: int
    var requestedOpMode: Mode
    var opMode: Mode
    var enableReq: bool
    var faultResetReq: bool
    var lastCmdNs: int
    var lastHeartbeatNs: int
    var waveform: Waveform
    var sample0: Sample
    var sample1: Sample
    var tare0: int
    var tare1: int
    var forceLimit: int
    var forceLimitTripped: bool
    var forceCtrlActive: bool
    var accelLimit: int
    var posSpeedLimit: int
    var targetForce: int
    var linearCount: int
    var linearUm: int
    var linearNs: int
    var wkcErrors: nat
    var consecutiveWkcErrors: nat

    // the loop's own
    var local: Locals

    // history
    ghost var exchanges: seq<bool>
    ghost var sent: seq<Sent>
    ghost var log: History

    function Limit(): nat { if maxAbs < 0 then 0 else maxAbs }

    ghost predicate Invariant()
      reads `exchanges, `consecutiveWkcErrors, `wkcErrors, `local, `log, `sent
    {
      && CountsOk(exchanges, consecutiveWkcErrors, wkcErrors) && Faithful(log, sent)
      && ModeKept(local.stage, local.mode, local.out, local.forceActive, log)
      && ResetKept(local.stage, log, local.hold, local.fault, local.consumed, local.control)
    }

    /** The part of the state the force limit works with */
    ghost function View(): Trip
      reads `local, `forceLimit, `forceLimitTripped, `sample0, `sample1, `tare0, `tare1
    {
      Trip(local.stage, forceLimit, local.limit, forceLimitTripped, sample0, sample1, tare0, tare1)
    }

    /** The part that decides about fault resets */
    ghost function ResetView(): Resets
      reads `local, `faultResetReq
    {
      Resets(local.stage, local.input.status, local.fault, faultResetReq, local.hold, local.consumed,
             local.control == CONTROL_FAULT_RESET)
    }

    ghost function Watched(): Watch
      reads `local, `enableReq, `lastCmdNs, `lastHeartbeatNs, `forceCtrlActive
    {
      Watch(enableReq, local.enable, lastCmdNs, lastHeartbeatNs, forceCtrlActive, local.forceActive)
    }

    /** State and histories */
    ghost function Told(): Account
      reads this
    {
      Account(View(), ResetView(), Watched(), exchanges, SentAt(sent), ShowAll(log))
    }

    function Parameters(): Settings { Settings(autoEnable, Limit(), cmdTimeoutMs, heartbeatTimeoutMs) }

    constructor (autoEnable: bool, opModeParam: int, maxAbs: int, cmdTimeoutMs: int, heartbeatTimeoutMs: int, accelParam: int,
                 forceLimitParam: int, now: int)
      ensures Invariant() && local.stage == WAITING && exchanges == [] && log == []
      ensures this.autoEnable == autoEnable && this.maxAbs == maxAbs
      ensures this.cmdTimeoutMs == cmdTimeoutMs && this.heartbeatTimeoutMs == heartbeatTimeoutMs
      ensures opMode == requestedOpMode == local.mode == if opModeParam in {8, 9, 10} then opModeParam else 9
      ensures target == targetPos == targetTrq == targetForce == 0 && !enableReq && lastCmdNs == lastHeartbeatNs == now
      ensures waveform == NoWave && sample0 == sample1 == Sample(0, 0) && tare0 == tare1 == 0 && !forceCtrlActive
      ensures forceLimit == (if forceLimitParam < 0 then 0 else forceLimitParam)
      ensures accelLimit == (if accelParam < 0 then 0 else accelParam) && posSpeedLimit == 10000
      ensures linearCount == linearUm == linearNs == 0 && local.out == EMPTY_IMAGE && !local.wasFault && !local.wasForceCtrl
      ensures LimitKept(View()) && !View().tripped && sent == [] && !faultResetReq && HoldOver(ResetView())
    {
      this.autoEnable, this.maxAbs := autoEnable, maxAbs;
      this.cmdTimeoutMs, this.heartbeatTimeoutMs := cmdTimeoutMs, heartbeatTimeoutMs;
      var mode := if IsMode(opModeParam) then opModeParam else MODE_CSV;
      opMode, requestedOpMode := mode, mode;
      target, targetPos, targetTrq := 0, 0, 0;
      enableReq, faultResetReq := false, false;
      lastCmdNs, lastHeartbeatNs := now, now;
      waveform, sample0, sample1, tare0, tare1 := NoWave, Sample(0, 0), Sample(0, 0), 0, 0;
      forceLimit, forceLimitTripped, forceCtrlActive := if forceLimitParam < 0 then 0 else forceLimitParam, false, false;
      accelLimit, posSpeedLimit := if accelParam < 0 then 0 else accelParam, 10000;
      targetForce, linearCount, linearUm, linearNs := 0, 0, 0, 0;
      wkcErrors, consecutiveWkcErrors := 0, 0;
      local := Locals(WAITING, InPdo(0, 0, 0, 0), false, false, mode, 0, 0, 0, 0, false, 0, false,
                      0, false, false, OutPdo(0, 0, 0, 0, 0));
      exchanges, sent, log := [], [], [];
    }

    // ----- the loop body, section by section -----

    /** The image goes out; without an answer the cycle ends here and the image stays as it is. */
    method Exchange(wkc: int, inp: InPdo)
      requires local.stage == WAITING && CountsOk(exchanges, consecutiveWkcErrors, wkcErrors)
      requires Faithful(log, sent) && local.out == Latest(log, |log|)
      modifies `exchanges, `sent, `wkcErrors, `consecutiveWkcErrors, `local
      ensures exchanges == old(exchanges) + [wkc > 0] && sent == old(sent) + [Sent(local.out, |log|)]
      ensures local == old(local).(stage := if wkc > 0 then RECEIVED else WAITING, input := if wkc > 0 then inp else old(local).input)
      ensures CountsOk(exchanges, consecutiveWkcErrors, wkcErrors) && Faithful(log, sent)
    {
      OneMoreExchange(exchanges, wkc > 0, consecutiveWkcErrors, wkcErrors);
      OneMoreSent(log, sent);
      exchanges, sent := exchanges + [wkc > 0], sent + [Sent(local.out, |log|)];
      if wkc <= 0 {
        wkcErrors := wkcErrors + 1;
        consecutiveWkcErrors := consecutiveWkcErrors + 1;
      } else {
        consecutiveWkcErrors := 0;
        local := local.(stage := RECEIVED, input := inp);
      }
    }

    /** On the first cycle of a fault the targets are brought back to where the motor is. */
    method EnterCycle()
      requires local.stage == RECEIVED
      modifies `local, `target, `targetPos, `targetTrq
      ensures var fault := local.input.status / 8 % 2 == 1;
              local == old(local).(stage := ENTERED, enable := autoEnable || enableReq, fault := fault, wasFault := fault)
      ensures if local.fault && !old(local).wasFault then target == 0 && targetTrq == 0 && targetPos == local.input.position
              else unchanged(`target) && unchanged(`targetTrq) && unchanged(`targetPos)
    {
      var fault := IsFault(local.input.status);
      if fault && !local.wasFault {
        targetPos := local.input.position;
        target := 0;
        targetTrq := 0;
      }
      local := local.(stage := ENTERED, enable := autoEnable || enableReq, fault := fault, wasFault := fault);
    }

    /** A new mode starts from rest. */
    method SwitchMode()
      requires local.stage == ENTERED
      modifies `local, `opMode, `target, `targetPos, `targetTrq
      ensures local == old(local).(stage := MODE_KNOWN, mode := requestedOpMode) && opMode == requestedOpMode
      ensures targetPos == if opMode != old(opMode) && opMode == MODE_CSP then local.input.position else old(targetPos)
      ensures target == if opMode != old(opMode) && opMode == MODE_CSV then 0 else old(target)
      ensures targetTrq == if opMode != old(opMode) && opMode == MODE_CST then 0 else old(targetTrq)
    {
      var mode := opMode;
      var req := requestedOpMode;
      if mode != req {
        if req == MODE_CSP {
          targetPos := local.input.position;
        } else if req == MODE_CSV {
          target := 0;
        } else if req == MODE_CST {
          targetTrq := 0;
        }
        opMode := req;
        mode := req;
      }
      local := local.(stage := MODE_KNOWN, mode := mode);
    }

    /** A waveform brings its mode with it. */
    method FollowWaveform()
      requires local.stage == MODE_KNOWN
      modifies `local, `opMode, `requestedOpMode
      ensures var mode := if waveform == SpeedWave then 9 else if waveform == PositionSine then 8 else old(local).mode;
              local == old(local).(stage := WAVE_KNOWN, mode := mode, vel := 0, pos := local.input.position, trq := 0)
      ensures if local.mode != old(local).mode then opMode == requestedOpMode == local.mode
              else unchanged(`opMode) && unchanged(`requestedOpMode)
    {
      var mode := local.mode;
      var wf := waveform;
      if wf == PositionSine {
        if mode != MODE_CSP {
          mode, opMode, requestedOpMode := MODE_CSP, MODE_CSP, MODE_CSP;
        }
      } else if wf != NoWave && mode != MODE_CSV {
        mode, opMode, requestedOpMode := MODE_CSV, MODE_CSV, MODE_CSV;
      }
      local := local.(stage := WAVE_KNOWN, mode := mode, vel := 0, pos := local.input.position, trq := 0);
    }

    /** `rpm` and `pos` are what the control law of the mode gives. */
    method Compute(rpm: int, pos: int)
      requires local.stage == WAVE_KNOWN
      modifies `local, `targetPos
      ensures local == old(local).(stage := COMPUTED, vel := if local.mode == MODE_CST then old(local).vel else rpm,
                                   trq := if local.mode == MODE_CST then targetTrq else old(local).trq,
                                   out := if local.mode == MODE_CSP then old(local).out.(mode := MODE_CSV) else old(local).out)
      ensures targetPos == (if local.mode == MODE_CSP then pos else old(targetPos))
      ensures NoPositionMode(local.mode, local.out)
    {
      if local.mode == MODE_CSP {
        targetPos := pos;
        local := local.(vel := rpm, out := local.out.(mode := MODE_CSV));
      } else if local.mode == MODE_CSV {
        local := local.(vel := rpm);
      } else if local.mode == MODE_CST {
        local := local.(trq := targetTrq);
      }
      local := local.(stage := COMPUTED);
    }

    method LoadLimit()
      requires local.stage == COMPUTED
      modifies `local
      ensures local == old(local).(stage := LIMIT_KNOWN, limit := forceLimit)
    {
      local := local.(stage := LIMIT_KNOWN, limit := forceLimit);
    }

    /** With fresh samples the motor is stopped exactly while a force is over the limit; without, nothing changes. */
    method CheckLimit(now: int)
      requires local.stage == LIMIT_KNOWN
      modifies `local, `forceLimitTripped, `target
      ensures local == old(local).(stage := LIMIT_CHECKED)
      ensures var c := CheckForceLimit(local.limit, now, sample0.(force := sample0.force - tare0), sample1.(force := sample1.force - tare1));
              forceLimitTripped == (if c.valid then c.over else old(forceLimitTripped))
              && target == (if c.over && !old(forceLimitTripped) then 0 else old(target))
    {
      var c := CheckForceLimit(local.limit, now, sample0.(force := sample0.force - tare0), sample1.(force := sample1.force - tare1));
      if c.valid {
        var was := forceLimitTripped;
        if c.over && !was {
          forceLimitTripped := true;
          target := 0;
        } else if !c.over && was {
          forceLimitTripped := false;
        }
      }
      local := local.(stage := LIMIT_CHECKED);
    }

    /** Force control takes the speed over and keeps the node in velocity mode; `rpm` is what its law gives. */
    method ForceControl(rpm: int)
      requires local.stage == LIMIT_CHECKED && NoPositionMode(local.mode, local.out)
      modifies `local, `target, `opMode, `requestedOpMode
      ensures var active := forceCtrlActive;
              local == old(local).(stage := FORCE_DONE, forceActive := active, wasForceCtrl := active,
                                   mode := if active then MODE_CSV else old(local).mode,
                                   pos := if active then local.input.position else old(local).pos,
                                   vel := if !active then old(local).vel else if forceLimitTripped then 0 else rpm,
                                   out := if active then old(local).out.(mode := MODE_CSV) else old(local).out)
      ensures if forceCtrlActive && (!old(local).wasForceCtrl || old(local).mode != MODE_CSV) then opMode == requestedOpMode == MODE_CSV
              else unchanged(`opMode) && unchanged(`requestedOpMode)
      ensures target == if forceCtrlActive && !old(local).wasForceCtrl then 0 else old(target)
      ensures NoPositionMode(local.mode, local.out) && ForceInSpeedMode(local.mode, local.forceActive)
    {
      var forceActive := forceCtrlActive;
      var mode := local.mode;
      if forceActive && !local.wasForceCtrl {
        target := 0;
        mode, opMode, requestedOpMode := MODE_CSV, MODE_CSV, MODE_CSV;
      }
      if forceActive {
        if mode != MODE_CSV {
          mode, opMode, requestedOpMode := MODE_CSV, MODE_CSV, MODE_CSV;
        }
        var vel := rpm;
        if forceLimitTripped {
          vel := 0;
        }
        local := local.(mode := mode, vel := vel, pos := local.input.position, out := local.out.(mode := MODE_CSV));
      }
      local := local.(stage := FORCE_DONE, forceActive := forceActive, wasForceCtrl := forceActive);
    }

    /** The control word.  A reset request is only taken up during a fault; until then it stays. */
    method DecideControl()
      requires local.stage == FORCE_DONE && Held(log, local.hold)
      modifies `local, `faultResetReq
      ensures local == old(local).(stage := CONTROLLED, consumed := local.fault && old(faultResetReq), control := local.control, hold := local.hold)
      ensures faultResetReq == (old(faultResetReq) && !local.fault)
      ensures !local.fault ==> local.control == NextControlWord(local.input.status, local.enable)
      ensures Decided(log, local.hold, local.fault, local.consumed, local.control)
      ensures ResetView() == Decide(old(ResetView()))
    {
      var control, consumed, hold := CONTROL_SHUTDOWN, false, local.hold;
      if local.fault {
        if faultResetReq {
          faultResetReq, consumed := false, true;
          hold := RESET_CYCLES;
        }
        if hold > 0 {
          control := CONTROL_FAULT_RESET;
          hold := hold - 1;
        }
      } else {
        hold := 0;
        control := NextControlWord(local.input.status, local.enable);
      }
      local := local.(stage := CONTROLLED, control := control, consumed := consumed, hold := hold);
    }

    ghost method Record(c: Cycle)
      requires SafeMode(c) && SafeOutputs(c) && Decided(log, local.hold, c.guard.fault, c.consumed, c.pdo.control)
      requires Faithful(log, sent)
      modifies `log
      ensures log == old(log) + [c] && Held(log, local.hold) && Faithful(log, sent)
    {
      CycleCompleted(log, c, local.hold);
      StaysFaithful(log, sent, c);
      log := log + [c];
    }

    function SeenBy(now: int): Guard
      reads this
    {
      Guard(local.fault, local.enable, forceLimitTripped, TimeoutExpired(now, lastCmdNs, cmdTimeoutMs),
            TimeoutExpired(now, lastHeartbeatNs, heartbeatTimeoutMs))
    }

    /** The last check, and the image for the next exchange */
    method WriteOutputs(now: int)
      requires local.stage == CONTROLLED && NoPositionMode(local.mode, local.out) && ForceInSpeedMode(local.mode, local.forceActive)
      requires Decided(log, local.hold, local.fault, local.consumed, local.control) && Faithful(log, sent)
      modifies `local, `log
      ensures local == old(local).(stage := WAITING, out := local.out)
      ensures Held(log, local.hold) && Faithful(log, sent)
      ensures log == old(log) + [Cycle(old(SeenBy(now)), local.consumed, local.forceActive, Limit(), local.out)]
      ensures var o := ApplySafety(local.vel, local.trq, old(SeenBy(now)), maxAbs);
              local.out == OutPdo(local.control, if local.mode == MODE_CSP then MODE_CSV else local.mode, local.pos, o.velocity, o.torque)
      ensures if maxAbs < 0 then local.out.velocity == 0 && Limit() == 0 else -maxAbs <= local.out.velocity <= maxAbs == Limit()
    {
      var g := SeenBy(now);
      var o := ApplySafety(local.vel, local.trq, g, maxAbs);
      var m: int := local.out.mode;
      if local.mode != MODE_CSP {
        m := local.mode;
      }
      var out := OutPdo(local.control, m, local.pos, o.velocity, o.torque);
      ghost var c := Cycle(g, local.consumed, local.forceActive, Limit(), out);
      Record(c);
      local := local.(stage := WAITING, out := out);
    }

    // ----- callbacks -----

    /** Force commands and force samples */
    method HandleForce(c: Command)
      requires c.OfForce()
      modifies `target, `sample0, `sample1, `tare0, `tare1, `forceLimit, `forceLimitTripped, `forceCtrlActive, `targetForce
      ensures target == if c.StopForce? then 0 else old(target)
      ensures forceCtrlActive == (c.StartForce? || (old(forceCtrlActive) && !c.StopForce?))
      ensures forceLimit == if c.ForceLimit? then c.value else old(forceLimit)
      ensures forceLimitTripped == (old(forceLimitTripped) && !(c.ForceLimit? && c.value <= 0))
      ensures sample0 == if c.Force? && c.channel == 0 then Sample(c.value, c.now) else old(sample0)
      ensures sample1 == if c.Force? && c.channel != 0 then Sample(c.value, c.now) else old(sample1)
      ensures tare0 == if c.TareReset? then 0 else if c.Tare? && c.channel == 0 then c.value else old(tare0)
      ensures tare1 == if c.TareReset? then 0 else if c.Tare? && c.channel != 0 then c.value else old(tare1)
      ensures targetForce == if c.TargetForce? then c.value else old(targetForce)
      ensures View() == Commanded(old(View()), c) && Watched() == WatchCommand(old(Watched()), c)
    {
      match c {
        case StartForce => forceCtrlActive := true;
        case StopForce => forceCtrlActive, target := false, 0;
        case ForceLimit(value) =>
          forceLimit := value;
          if value <= 0 {
            forceLimitTripped := false;
          }
        case Force(channel, value, now) =>
          if channel == 0 { sample0 := Sample(value, now); } else { sample1 := Sample(value, now); }
        case Tare(channel, value) =>
          if channel == 0 { tare0 := value; } else { tare1 := value; }
        case TareReset => tare0, tare1 := 0, 0;
        case TargetForce(value) => targetForce := value;
      }
    }

    /** The switches: enable, fault reset and the heartbeat */
    method HandleSwitch(c: Command)
      requires c.OfSwitch()
      modifies `enableReq, `faultResetReq, `lastHeartbeatNs
      ensures enableReq == if c.Enable? then c.on else old(enableReq)
      ensures faultResetReq == (c.ResetFault? || old(faultResetReq))
      ensures lastHeartbeatNs == if c.Heartbeat? then c.now else old(lastHeartbeatNs)
      ensures Watched() == WatchCommand(old(Watched()), c) && ResetView() == NextReset(old(ResetView()), Callback(c))
    {
      match c {
        case Heartbeat(now) => lastHeartbeatNs := now;
        case Enable(on) => enableReq := on;
        case ResetFault => faultResetReq := true;
      }
    }

    method HandleTarget(c: Command)
      requires c.OfTarget()
      modifies `target, `targetPos, `targetTrq, `lastCmdNs
      ensures target == if c.Speed? then c.value else old(target)
      ensures targetPos == if c.Position? then c.value else old(targetPos)
      ensures targetTrq == if c.Torque? then ToInt16(c.value) else old(targetTrq)
      ensures lastCmdNs == c.now && Watched() == WatchCommand(old(Watched()), c)
    {
      match c {
        case Speed(value, now) => target, lastCmdNs := value, now;
        case Position(value, now) => targetPos, lastCmdNs := value, now;
        case Torque(value, now) => targetTrq, lastCmdNs := ToInt16(value), now;
      }
    }

    /** Modes, limits and waveforms, and what the linear encoder says */
    method HandleMotion(c: Command)
      requires !c.OfForce() && !c.OfSwitch() && !c.OfTarget()
      modifies `requestedOpMode, `waveform, `accelLimit, `posSpeedLimit, `linearCount, `linearUm, `linearNs
      ensures requestedOpMode == (if c.OpMode? && ToInt8(c.value) in {8, 9, 10} then ToInt8(c.value)
                                  else if c.HystPosition? then 8 else old(requestedOpMode))
      ensures waveform == if c.Wave? then c.wave else if c.HystPosition? then PositionSine else old(waveform)
      ensures accelLimit == if c.AccelLimit? then c.value else old(accelLimit)
      ensures posSpeedLimit == if c.PosSpeedLimit? then c.value else if c.HystPosition? then c.maxTps else old(posSpeedLimit)
      ensures linearCount == if c.LinearCount? then c.value else old(linearCount)
      ensures linearUm == if c.LinearUm? then c.value else old(linearUm)
      ensures linearNs == if c.LinearCount? || c.LinearUm? then c.now else old(linearNs)
    {
      match c {
        case OpMode(value) =>
          var m := ToInt8(value);
          if IsMode(m) {
            requestedOpMode := m;
          }
        case Wave(wave) => waveform := wave;
        case HystPosition(maxTps) => requestedOpMode, posSpeedLimit, waveform := MODE_CSP, maxTps, PositionSine;
        case AccelLimit(value) => accelLimit := value;
        case PosSpeedLimit(value) => posSpeedLimit := value;
        case LinearCount(value, now) => linearCount, linearNs := value, now;
        case LinearUm(value, now) => linearUm, linearNs := value, now;
      }
    }

    // ----- runs -----

    /** The next section of the loop body, with whatever the bus, the clock and the control laws give */
    method Advance(d: Outside)
      requires Invariant()
      modifies this
      ensures Invariant() && old(log) <= log
      ensures Told() == FollowSection(old(Told()), Parameters(), d)
    {
      if local.stage == WAITING { AdvanceExchange(d); }
      else if local.stage == RECEIVED { AdvanceEnter(d); }
      else if local.stage == ENTERED { AdvanceMode(d); }
      else if local.stage == MODE_KNOWN { AdvanceWave(d); }
      else if local.stage == WAVE_KNOWN { AdvanceCompute(d); }
      else { AdvanceRest(d); }
    }

    method AdvanceRest(d: Outside)
      requires Invariant() && local.stage > WAVE_KNOWN
      modifies this
      ensures Invariant() && old(log) <= log
      ensures Told() == FollowSection(old(Told()), Parameters(), d)
    {
      if local.stage == COMPUTED { AdvanceLimit(d); }
      else if local.stage == LIMIT_KNOWN { AdvanceCheck(d); }
      else if local.stage == LIMIT_CHECKED { AdvanceForce(d); }
      else if local.stage == FORCE_DONE { AdvanceDecide(d); }
      else { AdvanceWrite(d); }
    }

    method AdvanceExchange(d: Outside)
      requires Invariant() && local.stage == WAITING
      modifies `exchanges, `sent, `wkcErrors, `consecutiveWkcErrors, `local
      ensures Invariant() && log == old(log)
      ensures Told() == FollowSection(old(Told()), Parameters(), d)
    {
      Exchange(d.wkc, d.inp);
      OneMoreSentAt(old(sent), Sent(local.out, |log|));
      assert View() == NextSection(old(View()), d);
      assert ResetView() == ResetSection(old(ResetView()), d);
      assert Watched() == WatchSection(old(Watched()), old(local).stage, Parameters(), d);
    }

    method AdvanceEnter(d: Outside)
      requires Invariant() && local.stage == RECEIVED
      modifies `local, `target, `targetPos, `targetTrq
      ensures Invariant() && log == old(log)
      ensures Told() == FollowSection(old(Told()), Parameters(), d)
    {
      SectionFollowed(Told(), Parameters(), d);
      EnterCycle();
    }

    method AdvanceMode(d: Outside)
      requires Invariant() && local.stage == ENTERED
      modifies `local, `opMode, `target, `targetPos, `targetTrq
      ensures Invariant() && log == old(log)
      ensures Told() == FollowSection(old(Told()), Parameters(), d)
    {
      SectionFollowed(Told(), Parameters(), d);
      SwitchMode();
    }

    method AdvanceWave(d: Outside)
      requires Invariant() && local.stage == MODE_KNOWN
      modifies `local, `opMode, `requestedOpMode
      ensures Invariant() && log == old(log)
      ensures Told() == FollowSection(old(Told()), Parameters(), d)
    {
      SectionFollowed(Told(), Parameters(), d);
      FollowWaveform();
    }

    method AdvanceCompute(d: Outside)
      requires Invariant() && local.stage == WAVE_KNOWN
      modifies `local, `targetPos
      ensures Invariant() && log == old(log)
      ensures Told() == FollowSection(old(Told()), Parameters(), d)
    {
      SectionFollowed(Told(), Parameters(), d);
      Compute(d.rpm, d.pos);
    }

    method AdvanceLimit(d: Outside)
      requires Invariant() && local.stage == COMPUTED
      modifies `local
      ensures Invariant() && log == old(log)
      ensures Told() == FollowSection(old(Told()), Parameters(), d)
    {
      SectionFollowed(Told(), Parameters(), d);
      LoadLimit();
    }

    method AdvanceCheck(d: Outside)
      requires Invariant() && local.stage == LIMIT_KNOWN
      modifies `local, `forceLimitTripped, `target
      ensures Invariant() && log == old(log)
      ensures Told() == FollowSection(old(Told()), Parameters(), d)
    {
      SectionFollowed(Told(), Parameters(), d);
      CheckLimit(d.now);
    }

    method AdvanceForce(d: Outside)
      requires Invariant() && local.stage == LIMIT_CHECKED
      modifies `local, `target, `opMode, `requestedOpMode
      ensures Invariant() && log == old(log)
      ensures Told() == FollowSection(old(Told()), Parameters(), d)
    {
      SectionFollowed(Told(), Parameters(), d);
      ForceControl(d.rpm);
    }

    method AdvanceDecide(d: Outside)
      requires Invariant() && local.stage == FORCE_DONE
      modifies `local, `faultResetReq
      ensures Invariant() && log == old(log)
      ensures Told() == FollowSection(old(Told()), Parameters(), d)
    {
      SectionFollowed(Told(), Parameters(), d);
      DecideControl();
    }

    method AdvanceWrite(d: Outside)
      requires Invariant() && local.stage == CONTROLLED
      modifies `local, `log
      ensures Invariant() && old(log) <= log
      ensures Told() == FollowSection(old(Told()), Parameters(), d)
    {
      WriteOutputs(d.now);
      OneMoreShown(old(log), log[|log| - 1]);
      assert View() == NextSection(old(View()), d);
      assert ResetView() == ResetSection(old(ResetView()), d);
      assert Watched() == WatchSection(old(Watched()), old(local).stage, Parameters(), d);
    }

    method AnswerForce(c: Command)
      requires Invariant() && c.OfForce()
      modifies `target, `sample0, `sample1, `tare0, `tare1, `forceLimit, `forceLimitTripped, `forceCtrlActive, `targetForce
      ensures Invariant() && Told() == Follow(old(Told()), Parameters(), Callback(c))
    {
      CallbackFollowed(Told(), Parameters(), c);
      HandleForce(c);
    }

    method AnswerSwitch(c: Command)
      requires Invariant() && c.OfSwitch()
      modifies `enableReq, `faultResetReq, `lastHeartbeatNs
      ensures Invariant() && Told() == Follow(old(Told()), Parameters(), Callback(c))
    {
      CallbackFollowed(Told(), Parameters(), c);
      HandleSwitch(c);
    }

    method AnswerTarget(c: Command)
      requires Invariant() && c.OfTarget()
      modifies `target, `targetPos, `targetTrq, `lastCmdNs
      ensures Invariant() && Told() == Follow(old(Told()), Parameters(), Callback(c))
    {
      CallbackFollowed(Told(), Parameters(), c);
      HandleTarget(c);
    }

    method AnswerMotion(c: Command)
      requires Invariant() && !c.OfForce() && !c.OfSwitch() && !c.OfTarget()
      modifies `requestedOpMode, `waveform, `accelLimit, `posSpeedLimit, `linearCount, `linearUm, `linearNs
      ensures Invariant() && Told() == Follow(old(Told()), Parameters(), Callback(c))
    {
      CallbackFollowed(Told(), Parameters(), c);
      HandleMotion(c);
    }

    /** A callback, in one go, or a section of the loop */
    method Perform(e: Event)
      requires Invariant()
      modifies this
      ensures Invariant() && old(log) <= log
      ensures Told() == Follow(old(Told()), Parameters(), e)
    {
      match e {
        case Callback(c) =>
          if c.OfForce() { AnswerForce(c); }
          else if c.OfSwitch() { AnswerSwitch(c); }
          else if c.OfTarget() { AnswerTarget(c); }
          else { AnswerMotion(c); }
        case Loop(d) => Advance(d);
      }
    }

    /** Main result: whatever callbacks come in between whatever sections, and whatever comes from outside, every
        cycle of the run is safe, only complete outputs of safe cycles are sent, and the error counters count. */
    method Run(events: seq<Event>)
      requires Invariant()
      modifies this
      ensures Invariant() && old(log) <= log
      ensures SafeHistory(log) && Faithful(log, sent)
      ensures consecutiveWkcErrors == Trailing(exchanges) && wkcErrors == Failures(exchanges)
      ensures Told() == FollowAll(old(Told()), Parameters(), events)
      ensures !Stuck(old(View())) ==> (Stuck(View()) <==> TrippedLate(old(View()), events))
      ensures LimitKept(old(View())) && NeverTurnedOffLate(old(View()), events) ==> LimitKept(View())
      ensures !old(faultResetReq) ==> (faultResetReq <==> Open(old(ResetView()), events))
      ensures forall k :: 0 <= k < |log| ==>
        var g, pdo := log[k].guard, log[k].pdo;
        g.fault || !g.enable || g.tripped || g.commandLate || g.heartbeatLate ==> pdo.velocity == 0 && pdo.torque == 0
      ensures forall k :: 0 <= k < |sent| && 0 < sent[k].cycles <= |log| ==>
        var g, image := log[sent[k].cycles - 1].guard, sent[k].image;
        g.fault || !g.enable || g.tripped || g.commandLate || g.heartbeatLate ==> image.velocity == 0 && image.torque == 0
      ensures forall k :: 0 <= k < |events| && StoppedAt(old(Told()), Parameters(), events, k) ==>
        var n := |FollowAll(old(Told()), Parameters(), events[..k]).cycles|;
        n < |log| && log[n].pdo.velocity == 0 && log[n].pdo.torque == 0
    {
      for k := 0 to |events|
        invariant Invariant() && old(log) <= log && Told() == FollowAll(old(Told()), Parameters(), events[..k])
      {
        Perform(events[k]);
        assert events[..k + 1][..k] == events[..k];
      }
      assert events[..|events|] == events;
      RunFacts(old(Told()), Parameters(), events, Told());
      Stops(log, sent);
      StopsWhenHeld(old(Told()), Parameters(), events, log);
    }
  }

  /** With event `k` the loop completes a cycle while the motor is held by the force limit. */
  ghost predicate StoppedAt(a: Account, s: Settings, events: seq<Event>, k: nat)
    requires k < |events|
  {
    events[k].Loop? && Through(a.t, events[..k]).stage == CONTROLLED && Through(a.t, events[..k]).tripped
  }

  lemma Stops(log: History, sent: seq<Sent>)
    requires Faithful(log, sent)
    ensures forall k :: 0 <= k < |log| ==>
      var g, pdo := log[k].guard, log[k].pdo;
      g.fault || !g.enable || g.tripped || g.commandLate || g.heartbeatLate ==> pdo.velocity == 0 && pdo.torque == 0
    ensures forall k :: 0 <= k < |sent| && 0 < sent[k].cycles <= |log| ==>
      var g, image := log[sent[k].cycles - 1].guard, sent[k].image;
      g.fault || !g.enable || g.tripped || g.commandLate || g.heartbeatLate ==> image.velocity == 0 && image.torque == 0
  {
    forall k | 0 <= k < |log|
      ensures var g, pdo := log[k].guard, log[k].pdo;
        g.fault || !g.enable || g.tripped || g.commandLate || g.heartbeatLate ==> pdo.velocity == 0 && pdo.torque == 0
    {
      EachReasonStops(log, k);
    }
    forall k | 0 <= k < |sent| && 0 < sent[k].cycles <= |log|
      ensures var g, image := log[sent[k].cycles - 1].guard, sent[k].image;
        g.fault || !g.enable || g.tripped || g.commandLate || g.heartbeatLate ==> image.velocity == 0 && image.torque == 0
    {
      StoppedIsSent(log, sent, k);
    }
  }

  /** Whatever is commanded, the motor is held by the force limit in every cycle that is completed while it is tripped. */
  lemma StopsWhenHeld(a: Account, s: Settings, events: seq<Event>, log: History)
    requires ShowAll(log) == FollowAll(a, s, events).cycles
    ensures forall k :: 0 <= k < |events| && StoppedAt(a, s, events, k) ==>
      var n := |FollowAll(a, s, events[..k]).cycles|;
      n < |log| && log[n].pdo.velocity == 0 && log[n].pdo.torque == 0
  {
    forall k | 0 <= k < |events| && StoppedAt(a, s, events, k)
      ensures var n := |FollowAll(a, s, events[..k]).cycles|;
        n < |log| && log[n].pdo.velocity == 0 && log[n].pdo.torque == 0
    {
      var before := FollowAll(a, s, events[..k]);
      PartsFollow(a, s, events[..k]);
      CycleSees(a, s, events, k, before);
      assert ShowAll(log)[|before.cycles|] == Show(log[|before.cycles|]);
      EachReasonStops(log, |before.cycles|);
    }
  }

  lemma RunFacts(a: Account, s: Settings, events: seq<Event>, n: Account)
    requires n == FollowAll(a, s, events)
    ensures !Stuck(a.t) ==> (Stuck(n.t) <==> TrippedLate(a.t, events))
    ensures LimitKept(a.t) && NeverTurnedOffLate(a.t, events) ==> LimitKept(n.t)
    ensures !a.r.pending ==> (n.r.pending <==> Open(a.r, events))
  {
    PartsFollow(a, s, events);
    if !Stuck(a.t) { StuckIffTrippedLate(a.t, events); }
    if LimitKept(a.t) && NeverTurnedOffLate(a.t, events) { KeptUnlessTurnedOffLate(a.t, events); }
    if !a.r.pending { PendingIffOpen(a.r, events); }
  }

  /** Turning the limit off between its load and the check leaves the motor stopped with no limit set: from then on
      no check is valid, so only another force limit command lets go. */
  method LimitTurnedOffTooLate(n: Node, now: int)
    requires n.Invariant() && n.local.stage == COMPUTED && n.forceLimit > 0
    requires Recent(n.sample0, now) && Abs(n.sample0.force - n.tare0) > n.forceLimit
    modifies n
    ensures n.forceLimit == 0 && n.forceLimitTripped
    ensures forall later, s0, s1 :: !CheckForceLimit(n.forceLimit, later, s0, s1).valid
  {
    n.LoadLimit();
    n.HandleForce(ForceLimit(0));
    n.CheckLimit(now);
  }

  /** One more section, as far as fault resets go */
  method Section(n: Node, d: Outside)
    requires n.Invariant()
    modifies n
    ensures n.Invariant() && n.ResetView() == ResetSection(old(n.ResetView()), d)
  {
    n.Perform(Loop(d));
  }

  /** A reset requested while there is no fault outlives a whole cycle and resets the fault that comes then, although
      nobody has asked for it since. */
  method RequestedTooEarly(n: Node, good: Outside, bad: Outside)
    requires n.Invariant() && n.local.stage == WAITING && good.wkc > 0 && bad.wkc > 0
    requires !IsFault(good.inp.status) && IsFault(bad.inp.status)
    modifies n
    ensures n.local.stage == CONTROLLED && n.local.fault && n.local.consumed && n.local.control == CONTROL_FAULT_RESET
  {
    n.Perform(Callback(ResetFault));
    for i := 0 to CONTROLLED
      invariant n.Invariant() && InCycle(n.ResetView(), good.inp.status, i)
    {
      CycleGoesOn(n.ResetView(), good, i);
      Section(n, good);
    }
    Section(n, good);
    for i := 0 to FORCE_DONE
      invariant n.Invariant() && InCycle(n.ResetView(), bad.inp.status, i)
    {
      CycleGoesOn(n.ResetView(), bad, i);
      Section(n, bad);
    }
    Section(n, bad);
  }
}
