/** The force limit of the motor node: what the sections of the control loop and the callbacks mean for it, and
    when the motor is left held by a limit that is no longer set. */
module LimitTrip {
  import opened RtCycle

  datatype Waveform = NoWave | SpeedWave | PositionSine

  /** What comes in through topics and services; forces, limits and targets of force control in mN. */
  datatype Command =
    | Speed(value: int, now: int) | Position(value: int, now: int) | Torque(value: int, now: int)
    | OpMode(value: int) | Heartbeat(now: int) | Enable(on: bool) | ResetFault
    | Wave(wave: Waveform) | HystPosition(maxTps: int) | StartForce | StopForce | ForceLimit(value: int)
    | Force(channel: nat, value: int, now: int) | Tare(channel: nat, value: int) | TareReset
    | AccelLimit(value: int) | PosSpeedLimit(value: int) | TargetForce(value: int)
    | LinearCount(value: int, now: int) | LinearUm(value: int, now: int)
  {
    predicate OfTarget() { Speed? || Position? || Torque? }

    predicate OfSwitch() { Enable? || ResetFault? || Heartbeat? }

    predicate OfForce() { StartForce? || StopForce? || ForceLimit? || Force? || Tare? || TareReset? || TargetForce? }
  }

  datatype Outside = Outside(wkc: int, inp: InPdo, now: int, rpm: int, pos: int)

  datatype Event = Callback(c: Command) | Loop(d: Outside)

  // Where the loop stands in its body
  const WAITING: nat := 0
  const RECEIVED: nat := 1
  const ENTERED: nat := 2
  const MODE_KNOWN: nat := 3
  const WAVE_KNOWN: nat := 4
  const COMPUTED: nat := 5
  const LIMIT_KNOWN: nat := 6
  const LIMIT_CHECKED: nat := 7
  const FORCE_DONE: nat := 8
  const CONTROLLED: nat := 9

  type Stage = s: nat | s <= CONTROLLED

  /** What decides whether the force limit stops the motor; `limit` is the one loaded in this cycle. */
  datatype Trip = Trip(stage: Stage, forceLimit: int, limit: int, tripped: bool, s0: Sample, s1: Sample, tare0: int, tare1: int) {
    function Check(now: int): LimitCheck {
      CheckForceLimit(limit, now, s0.(force := s0.force - tare0), s1.(force := s1.force - tare1))
    }
  }

  /** One section of the loop */
  function NextSection(t: Trip, d: Outside): Trip {
    if t.stage == WAITING then t.(stage := if d.wkc > 0 then RECEIVED else WAITING)
    else if t.stage == COMPUTED then t.(stage := LIMIT_KNOWN, limit := t.forceLimit)
    else if t.stage == LIMIT_KNOWN then
      var c := t.Check(d.now);
      t.(stage := LIMIT_CHECKED, tripped := if c.valid then c.over else t.tripped)
    else if t.stage == CONTROLLED then t.(stage := WAITING)
    else t.(stage := t.stage + 1)
  }

  /** A force command or a force sample */
  function Commanded(t: Trip, c: Command): Trip
    requires c.OfForce()
  {
    match c
    case ForceLimit(value) => t.(forceLimit := value, tripped := t.tripped && value > 0)
    case Force(channel, value, now) => if channel == 0 then t.(s0 := Sample(value, now)) else t.(s1 := Sample(value, now))
    case Tare(channel, value) => if channel == 0 then t.(tare0 := value) else t.(tare1 := value)
    case TareReset => t.(tare0 := 0, tare1 := 0)
    case _ => t
  }

  function Next(t: Trip, e: Event): Trip {
    match e
    case Loop(d) => NextSection(t, d)
    case Callback(c) => if c.OfForce() then Commanded(t, c) else t
  }

  function Through(t: Trip, events: seq<Event>): Trip {
    if events == [] then t else Next(Through(t, events[..|events| - 1]), events[|events| - 1])
  }

  /** A sample counts for half a second, less its tare. */
  ghost predicate Exceeds(s: Sample, tare: int, limit: int, now: int) {
    s.ns > 0 && s.ns <= now < s.ns + 500_000_000 && (s.force - tare > limit || s.force - tare < -limit)
  }

  /** A check is over exactly if a limit was loaded and a recent sample of either channel exceeds it. */
  lemma OverIffExceeds(t: Trip, now: int)
    ensures t.Check(now).over <==> t.limit > 0 && (Exceeds(t.s0, t.tare0, t.limit, now) || Exceeds(t.s1, t.tare1, t.limit, now))
    ensures t.Check(now).valid <==> t.limit > 0 && (0 < t.s0.ns <= now < t.s0.ns + 500_000_000 || 0 < t.s1.ns <= now < t.s1.ns + 500_000_000)
  {
  }

  /** The motor is held by the force limit although none is set. */
  predicate Stuck(t: Trip) { t.tripped && t.forceLimit <= 0 }

  /** A check finds a force over the limit loaded before, which has been turned off since. */
  predicate TripsLate(t: Trip, e: Event) {
    e.Loop? && t.stage == LIMIT_KNOWN && t.forceLimit <= 0 && t.Check(e.d.now).over
  }

  predicate SetsLimit(e: Event) { e.Callback? && e.c.ForceLimit? }

  /** Such a check was made, and no limit command has come since. */
  ghost predicate TrippedLate(t: Trip, events: seq<Event>) {
    exists k :: 0 <= k < |events| && TrippedLateAt(t, events, k)
  }

  ghost predicate TrippedLateAt(t: Trip, events: seq<Event>, k: nat)
    requires k < |events|
  {
    TripsLate(Through(t, events[..k]), events[k]) && forall m :: k < m < |events| ==> !SetsLimit(events[m])
  }

  /** A stuck state is not left by a check: the limit it loads is off. */
  predicate LoadedOff(t: Trip) { Stuck(t) && t.stage == LIMIT_KNOWN ==> t.limit <= 0 }

  lemma StuckStep(t: Trip, e: Event)
    requires LoadedOff(t)
    ensures LoadedOff(Next(t, e)) && (Stuck(Next(t, e)) <==> TripsLate(t, e) || (Stuck(t) && !SetsLimit(e)))
  {
  }

  lemma {:induction false} ReachedLoadedOff(t: Trip, events: seq<Event>)
    requires LoadedOff(t)
    ensures LoadedOff(Through(t, events))
    decreases |events|
  {
    if events != [] {
      ReachedLoadedOff(t, events[..|events| - 1]);
      StuckStep(Through(t, events[..|events| - 1]), events[|events| - 1]);
    }
  }

  lemma LateBefore(t: Trip, events: seq<Event>, e: Event)
    ensures TrippedLate(t, events + [e]) <==> TripsLate(Through(t, events), e) || (TrippedLate(t, events) && !SetsLimit(e))
  {
    var all := events + [e];
    assert all[..|events|] == events;
    if TripsLate(Through(t, events), e) { assert TrippedLateAt(t, all, |events|); }
    if TrippedLate(t, events) && !SetsLimit(e) {
      var k :| 0 <= k < |events| && TrippedLateAt(t, events, k);
      assert all[..k] == events[..k];
      assert TrippedLateAt(t, all, k);
    }
    if TrippedLate(t, all) && !TripsLate(Through(t, events), e) {
      var k :| 0 <= k < |all| && TrippedLateAt(t, all, k);
      assert all[..k] == events[..k] && !SetsLimit(all[|events|]);
      assert forall m :: k < m < |events| ==> events[m] == all[m];
      assert TrippedLateAt(t, events, k);
    }
  }

  /** For every sequence of sections and callbacks: the motor ends up held without a limit if and only if a check
      was over a limit already turned off, and no limit command came after it. */
  lemma {:induction false} StuckIffTrippedLate(t: Trip, events: seq<Event>)
    requires !Stuck(t)
    ensures Stuck(Through(t, events)) <==> TrippedLate(t, events)
    decreases |events|
  {
    if events != [] {
      var before, e := events[..|events| - 1], events[|events| - 1];
      StuckIffTrippedLate(t, before);
      ReachedLoadedOff(t, before);
      StuckStep(Through(t, before), e);
      assert events == before + [e];
      LateBefore(t, before, e);
    }
  }

  /** The motor is held only while a limit is set, and a loaded limit is still set when it is checked. */
  predicate LimitKept(t: Trip) {
    (t.tripped ==> t.forceLimit > 0) && (t.stage == LIMIT_KNOWN && t.limit > 0 ==> t.forceLimit > 0)
  }

  /** The limit is turned off between its load and its check. */
  predicate TurnsOffLate(t: Trip, e: Event) {
    e.Callback? && e.c.ForceLimit? && e.c.value <= 0 && t.stage == LIMIT_KNOWN && t.limit > 0
  }

  ghost predicate NeverTurnedOffLate(t: Trip, events: seq<Event>) {
    forall k :: 0 <= k < |events| ==> !TurnsOffLate(Through(t, events[..k]), events[k])
  }

  /** One event keeps the rule unless it turns the limit off at that moment. */
  lemma KeptIffNotTurnedOffLate(t: Trip, e: Event)
    requires LimitKept(t)
    ensures LimitKept(Next(t, e)) <==> !TurnsOffLate(t, e)
  {
  }

  lemma {:induction false} KeptUnlessTurnedOffLate(t: Trip, events: seq<Event>)
    requires LimitKept(t) && NeverTurnedOffLate(t, events)
    ensures LimitKept(Through(t, events))
    decreases |events|
  {
    if events != [] {
      var before := events[..|events| - 1];
      assert forall k :: 0 <= k < |before| ==> before[..k] == events[..k];
      KeptUnlessTurnedOffLate(t, before);
      KeptIffNotTurnedOffLate(Through(t, before), events[|events| - 1]);
    }
  }
}
