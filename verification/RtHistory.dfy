/** The histories of the motor node as functions of what comes in: the exchanges, the images sent and the cycles
    completed by any sequence of sections and callbacks. */
module RtHistory {
  import opened RtCycle
  import opened LimitTrip
  import opened FaultReset

  /** Parameters of the node */
  datatype Settings = Settings(autoEnable: bool, limit: nat, cmdTimeoutMs: int, heartbeatTimeoutMs: int)

  /** What decides about enabling, timeouts and force control */
  datatype Watch = Watch(enableReq: bool, enable: bool, lastCmd: int, lastHeartbeat: int, forceCtrl: bool, forceActive: bool)

  function WatchSection(w: Watch, stage: Stage, s: Settings, d: Outside): Watch {
    if stage == RECEIVED then w.(enable := s.autoEnable || w.enableReq)
    else if stage == LIMIT_CHECKED then w.(forceActive := w.forceCtrl)
    else w
  }

  function WatchCommand(w: Watch, c: Command): Watch {
    match c
    case Enable(on) => w.(enableReq := on)
    case Speed(_, now) => w.(lastCmd := now)
    case Position(_, now) => w.(lastCmd := now)
    case Torque(_, now) => w.(lastCmd := now)
    case Heartbeat(now) => w.(lastHeartbeat := now)
    case StartForce => w.(forceCtrl := true)
    case StopForce => w.(forceCtrl := false)
    case _ => w
  }

  /** The part of a completed cycle that does not depend on the control laws */
  datatype Shown = Shown(guard: Guard, consumed: bool, forceControl: bool, limit: nat, resetting: bool)

  function Show(c: Cycle): Shown { Shown(c.guard, c.consumed, c.forceControl, c.limit, c.pdo.control == CONTROL_FAULT_RESET) }

  function ShowAll(log: seq<Cycle>): (r: seq<Shown>)
    ensures |r| == |log|
  {
    seq(|log|, i requires 0 <= i < |log| => Show(log[i]))
  }

  function SentAt(sent: seq<Sent>): (r: seq<nat>)
    ensures |r| == |sent|
  {
    seq(|sent|, i requires 0 <= i < |sent| => sent[i].cycles)
  }

  lemma OneMoreShown(log: seq<Cycle>, c: Cycle)
    ensures ShowAll(log + [c]) == ShowAll(log) + [Show(c)]
  {
  }

  lemma OneMoreSentAt(sent: seq<Sent>, x: Sent)
    ensures SentAt(sent + [x]) == SentAt(sent) + [x.cycles]
  {
  }

  /** What the last section of a cycle completes */
  function Completed(tripped: bool, r: Resets, w: Watch, s: Settings, now: int): Shown {
    Shown(Guard(r.fault, w.enable, tripped, TimeoutExpired(now, w.lastCmd, s.cmdTimeoutMs),
                TimeoutExpired(now, w.lastHeartbeat, s.heartbeatTimeoutMs)),
          r.consumed, w.forceActive, s.limit, r.resetting)
  }

  /** State and histories of a node: how every exchange went, after how many cycles each image was sent, and what
      every cycle saw and decided. */
  datatype Account = Account(t: Trip, r: Resets, w: Watch, exchanges: seq<bool>, sentAt: seq<nat>, cycles: seq<Shown>)

  function FollowSection(a: Account, s: Settings, d: Outside): Account {
    var exchanging, completing := a.t.stage == WAITING, a.t.stage == CONTROLLED;
    Account(NextSection(a.t, d), ResetSection(a.r, d), WatchSection(a.w, a.t.stage, s, d),
            if exchanging then a.exchanges + [d.wkc > 0] else a.exchanges,
            if exchanging then a.sentAt + [|a.cycles|] else a.sentAt,
            if completing then a.cycles + [Completed(a.t.tripped, a.r, a.w, s, d.now)] else a.cycles)
  }

  function Follow(a: Account, s: Settings, e: Event): Account {
    match e
    case Loop(d) => FollowSection(a, s, d)
    case Callback(c) => a.(t := Next(a.t, e), r := NextReset(a.r, e), w := WatchCommand(a.w, c))
  }

  /** What callbacks leave alone */
  lemma CallbackFollowed(a: Account, s: Settings, c: Command)
    ensures c.OfForce() ==> Follow(a, s, Callback(c)) == a.(t := Commanded(a.t, c), w := WatchCommand(a.w, c))
    ensures c.OfSwitch() ==> Follow(a, s, Callback(c)) == a.(r := NextReset(a.r, Callback(c)), w := WatchCommand(a.w, c))
    ensures c.OfTarget() ==> Follow(a, s, Callback(c)) == a.(w := WatchCommand(a.w, c))
    ensures !c.OfForce() && !c.OfSwitch() && !c.OfTarget() ==> Follow(a, s, Callback(c)) == a
  {
  }

  /** What the sections between two exchanges leave alone */
  lemma SectionFollowed(a: Account, s: Settings, d: Outside)
    requires a.t.stage == a.r.stage && a.t.stage != WAITING && a.t.stage != CONTROLLED
    ensures FollowSection(a, s, d) == a.(t := NextSection(a.t, d), r := ResetSection(a.r, d), w := WatchSection(a.w, a.t.stage, s, d))
  {
  }

  function FollowAll(a: Account, s: Settings, events: seq<Event>): Account {
    if events == [] then a else Follow(FollowAll(a, s, events[..|events| - 1]), s, events[|events| - 1])
  }

  /** What has been completed stays. */
  lemma {:induction false} CyclesStay(a: Account, s: Settings, events: seq<Event>, k: nat)
    requires k <= |events|
    ensures FollowAll(a, s, events[..k]).cycles <= FollowAll(a, s, events).cycles
    decreases |events|
  {
    if k == |events| {
      assert events[..k] == events;
    } else {
      var before := events[..|events| - 1];
      assert before[..k] == events[..k];
      CyclesStay(a, s, before, k);
    }
  }

  /** The loop completes a cycle with event `k`, when the account is `before`. */
  ghost predicate CompletesAt(a: Account, s: Settings, events: seq<Event>, k: nat, before: Account)
    requires k < |events|
  {
    events[k].Loop? && before == FollowAll(a, s, events[..k]) && before.t.stage == CONTROLLED
  }

  /** What such a cycle sees: the trip state, the fault and the enabling of the cycle, and whether the last command to
      the motor and the last heartbeat are older than allowed. */
  lemma CycleSees(a: Account, s: Settings, events: seq<Event>, k: nat, before: Account)
    requires k < |events| && CompletesAt(a, s, events, k, before)
    ensures |before.cycles| < |FollowAll(a, s, events).cycles|
    ensures var g, now := FollowAll(a, s, events).cycles[|before.cycles|].guard, events[k].d.now;
      && g.tripped == before.t.tripped && g.fault == before.r.fault && g.enable == before.w.enable
      && (g.commandLate <==> s.cmdTimeoutMs > 0 && before.w.lastCmd > 0 && now - before.w.lastCmd > 1_000_000 * s.cmdTimeoutMs)
      && (g.heartbeatLate <==>
            s.heartbeatTimeoutMs > 0 && before.w.lastHeartbeat > 0 && now - before.w.lastHeartbeat > 1_000_000 * s.heartbeatTimeoutMs)
  {
    assert events[..k + 1][..k] == events[..k];
    CyclesStay(a, s, events, k + 1);
  }

  predicate SetsCommand(e: Event) { e.Callback? && (e.c.Speed? || e.c.Position? || e.c.Torque?) }
  predicate SetsHeartbeat(e: Event) { e.Callback? && e.c.Heartbeat? }

  /** The time a command is late by is that of the last command to the motor, event `j`, or the one at the start. */
  lemma {:induction false} CommandTime(a: Account, s: Settings, events: seq<Event>, j: int)
    requires -1 <= j < |events| && (j >= 0 ==> SetsCommand(events[j])) && forall i :: j < i < |events| ==> !SetsCommand(events[i])
    ensures FollowAll(a, s, events).w.lastCmd == if j < 0 then a.w.lastCmd else events[j].c.now
    decreases |events|
  {
    if j < |events| - 1 { CommandTime(a, s, events[..|events| - 1], j); }
  }

  lemma {:induction false} HeartbeatTime(a: Account, s: Settings, events: seq<Event>, j: int)
    requires -1 <= j < |events| && (j >= 0 ==> SetsHeartbeat(events[j])) && forall i :: j < i < |events| ==> !SetsHeartbeat(events[i])
    ensures FollowAll(a, s, events).w.lastHeartbeat == if j < 0 then a.w.lastHeartbeat else events[j].c.now
    decreases |events|
  {
    if j < |events| - 1 { HeartbeatTime(a, s, events[..|events| - 1], j); }
  }

  lemma {:induction false} PartsFollow(a: Account, s: Settings, events: seq<Event>)
    ensures FollowAll(a, s, events).t == Through(a.t, events) && FollowAll(a, s, events).r == ResetThrough(a.r, events)
    decreases |events|
  {
    if events != [] { PartsFollow(a, s, events[..|events| - 1]); }
  }
}
