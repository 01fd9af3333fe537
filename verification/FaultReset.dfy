/** Requests to reset a fault: what the sections of the control loop and the callbacks make of them, and when a request
    made before a fault resets it. */
module FaultReset {
  import opened RtCycle
  import opened LimitTrip

  /** What decides about fault resets: the last status word, whether the cycle entered has a fault, a request not yet
      taken up, the cycles for which a reset is still held, and what the last decision was. */
  datatype Resets = Resets(stage: Stage, status: nat, fault: bool, pending: bool, hold: nat, consumed: bool, resetting: bool)

  function Decide(r: Resets): Resets {
    var consumed := r.fault && r.pending;
    Resets(CONTROLLED, r.status, r.fault, r.pending && !r.fault, HoldAfter(r.hold, r.fault, consumed), consumed,
           r.fault && (consumed || r.hold > 0))
  }

  /** One section of the loop */
  function ResetSection(r: Resets, d: Outside): Resets {
    if r.stage == WAITING then (if d.wkc > 0 then r.(stage := RECEIVED, status := d.inp.status) else r)
    else if r.stage == RECEIVED then r.(stage := ENTERED, fault := IsFault(r.status))
    else if r.stage == FORCE_DONE then Decide(r)
    else if r.stage == CONTROLLED then r.(stage := WAITING)
    else r.(stage := r.stage + 1)
  }

  function NextReset(r: Resets, e: Event): Resets {
    match e
    case Loop(d) => ResetSection(r, d)
    case Callback(c) => if c.ResetFault? then r.(pending := true) else r
  }

  function ResetThrough(r: Resets, events: seq<Event>): Resets {
    if events == [] then r else NextReset(ResetThrough(r, events[..|events| - 1]), events[|events| - 1])
  }

  predicate Requests(e: Event) { e.Callback? && e.c.ResetFault? }

  predicate Decides(r: Resets, e: Event) { e.Loop? && r.stage == FORCE_DONE }

  /** The decision of a cycle with a fault takes up any request there is. */
  predicate TakesUp(r: Resets, e: Event) { Decides(r, e) && r.fault }

  /** A request that came at `j` is still open. */
  ghost predicate OpenSince(r: Resets, events: seq<Event>, j: nat)
    requires j < |events|
  {
    Requests(events[j]) && forall k :: j < k < |events| ==> !TakesUp(ResetThrough(r, events[..k]), events[k])
  }

  ghost predicate Open(r: Resets, events: seq<Event>) {
    exists j :: 0 <= j < |events| && OpenSince(r, events, j)
  }

  lemma OpenStep(r: Resets, events: seq<Event>, e: Event)
    ensures Open(r, events + [e]) <==> Requests(e) || (Open(r, events) && !TakesUp(ResetThrough(r, events), e))
  {
    var all := events + [e];
    assert all[..|events|] == events;
    assert forall k :: 0 <= k < |events| ==> all[..k] == events[..k] && all[k] == events[k];
    if Requests(e) { assert OpenSince(r, all, |events|); }
    if Open(r, events) && !TakesUp(ResetThrough(r, events), e) {
      var j :| 0 <= j < |events| && OpenSince(r, events, j);
      assert OpenSince(r, all, j);
    }
    if Open(r, all) && !Requests(e) {
      var j :| 0 <= j < |all| && OpenSince(r, all, j);
      assert !TakesUp(ResetThrough(r, all[..|events|]), all[|events|]);
      assert OpenSince(r, events, j);
    }
  }

  lemma PendingStep(r: Resets, e: Event, n: Resets)
    requires n == NextReset(r, e)
    ensures n.pending <==> Requests(e) || (r.pending && !TakesUp(r, e))
  {
  }

  /** For every sequence of sections and callbacks: a request is pending if and only if one came and no decision
      in a cycle with a fault has come since; cycles without a fault leave it. */
  lemma {:induction false} PendingIffOpen(r: Resets, events: seq<Event>)
    requires !r.pending
    ensures ResetThrough(r, events).pending <==> Open(r, events)
    decreases |events|
  {
    if events != [] {
      var before, e := events[..|events| - 1], events[|events| - 1];
      PendingIffOpen(r, before);
      PendingStep(ResetThrough(r, before), e, ResetThrough(r, events));
      assert events == before + [e];
      OpenStep(r, before, e);
    }
  }

  /** A fault begins: the section that enters a cycle sees one that the cycle before did not have. */
  predicate Begins(r: Resets, e: Event) { e.Loop? && r.stage == RECEIVED && IsFault(r.status) && !r.fault }

  /** No reset is held while there is no fault. */
  predicate HoldOver(r: Resets) {
    !r.fault && (r.stage <= RECEIVED || r.stage == CONTROLLED) ==> r.hold == 0
  }

  lemma HoldOverStep(r: Resets, e: Event)
    requires HoldOver(r)
    ensures HoldOver(NextReset(r, e))
  {
  }

  lemma {:induction false} HoldOverThrough(r: Resets, events: seq<Event>)
    requires HoldOver(r)
    ensures HoldOver(ResetThrough(r, events))
    decreases |events|
  {
    if events != [] {
      HoldOverThrough(r, events[..|events| - 1]);
      HoldOverStep(ResetThrough(r, events[..|events| - 1]), events[|events| - 1]);
    }
  }

  /** A fault begins at event `m`, and nothing is decided between that and event `k`. */
  ghost predicate Undecided(r: Resets, events: seq<Event>, m: nat, k: nat) {
    && m < k <= |events| && Begins(ResetThrough(r, events[..m]), events[m])
    && forall i :: m < i < k ==> !Decides(ResetThrough(r, events[..i]), events[i])
  }

  ghost predicate Requested(events: seq<Event>, m: nat, k: nat)
    requires k <= |events|
  {
    exists i :: m < i < k && Requests(events[i])
  }

  /** State between the beginning of a fault and its first decision */
  predicate NewFault(r: Resets, pending: bool) {
    ENTERED <= r.stage <= FORCE_DONE && r.fault && r.hold == 0 && r.pending == pending
  }

  lemma FaultBegins(r: Resets, e: Event, n: Resets)
    requires HoldOver(r) && Begins(r, e) && n == NextReset(r, e)
    ensures NewFault(n, r.pending)
  {
  }

  lemma NewFaultStep(r: Resets, pending: bool, e: Event, n: Resets)
    requires NewFault(r, pending) && !Decides(r, e) && n == NextReset(r, e)
    ensures NewFault(n, pending || Requests(e))
  {
  }

  lemma {:induction false} StillNewFault(r: Resets, events: seq<Event>, m: nat, k: nat)
    requires HoldOver(r) && Undecided(r, events, m, k)
    ensures NewFault(ResetThrough(r, events[..k]), ResetThrough(r, events[..m]).pending || Requested(events, m, k))
    decreases k
  {
    assert events[..k][..k - 1] == events[..k - 1];
    if k == m + 1 {
      HoldOverThrough(r, events[..m]);
      FaultBegins(ResetThrough(r, events[..m]), events[m], ResetThrough(r, events[..k]));
    } else {
      StillNewFault(r, events, m, k - 1);
      var before := ResetThrough(r, events[..m]).pending || Requested(events, m, k - 1);
      NewFaultStep(ResetThrough(r, events[..k - 1]), before, events[k - 1], ResetThrough(r, events[..k]));
      assert Requested(events, m, k) <==> Requested(events, m, k - 1) || Requests(events[k - 1]);
    }
  }

  lemma NewFaultDecision(r: Resets, pending: bool, e: Event, n: Resets)
    requires NewFault(r, pending) && Decides(r, e) && n == NextReset(r, e)
    ensures n.fault && (n.resetting <==> pending) && (n.consumed <==> pending)
  {
  }

  lemma OneMoreEvent(r: Resets, events: seq<Event>, k: nat, before: Resets, n: Resets)
    requires k < |events| && before == ResetThrough(r, events[..k]) && n == ResetThrough(r, events[..k + 1])
    ensures n == NextReset(before, events[k])
  {
    assert events[..k + 1][..k] == events[..k];
  }

  /** The first decision after a fault has begun resets it if and only if a request has come since it began, or one
      from before the fault is still open: a request made without a fault resets the next one. */
  lemma OldRequestResetsNewFault(r: Resets, events: seq<Event>, m: nat, k: nat, before: Resets, n: Resets)
    requires !r.pending && HoldOver(r) && k < |events| && Undecided(r, events, m, k)
    requires before == ResetThrough(r, events[..k]) && n == ResetThrough(r, events[..k + 1]) && Decides(before, events[k])
    ensures n.fault && (n.consumed <==> n.resetting) && (n.resetting <==> Open(r, events[..m]) || Requested(events, m, k))
  {
    StillNewFault(r, events, m, k);
    PendingIffOpen(r, events[..m]);
    OneMoreEvent(r, events, k, before, n);
    NewFaultDecision(before, ResetThrough(r, events[..m]).pending || Requested(events, m, k), events[k], n);
  }

  /** In a cycle with the given status word, before section `i`, with a request pending */
  predicate InCycle(r: Resets, status: nat, i: nat) {
    r.pending && r.stage == i && (i >= RECEIVED ==> r.status == status) && (i >= ENTERED ==> r.fault == IsFault(status))
  }

  lemma CycleGoesOn(r: Resets, d: Outside, i: nat)
    requires InCycle(r, d.inp.status, i) && d.wkc > 0 && i < CONTROLLED && (i == FORCE_DONE ==> !IsFault(d.inp.status))
    ensures InCycle(ResetSection(r, d), d.inp.status, i + 1)
  {
  }
}
