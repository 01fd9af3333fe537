/** Propagation-delay measurement (`ecx_configdc`): every slave latches the times at which one
    broadcast frame passes its ports, and the master derives from these local times how much later
    the frame reached each slave. */
module DistributedClock {
  import opened Bus

  type Port = p: nat | p < 4

  /** Receive times of the four ports, in the slave's own clock. */
  datatype PortTimes = PortTimes(a: int, b: int, c: int, d: int)

  const NO_TIMES := PortTimes(0, 0, 0, 0)

  datatype Slave = Slave(
    hasdc: bool, topology: nat, activeports: Ports, parent: nat,
    consumedports: Ports, entryport: Port, parentport: Port, dcrt: PortTimes, pdelay: int)

  predicate Has(s: Ports, p: Port) {
    match p case 0 => s.p0 case 1 => s.p1 case 2 => s.p2 case 3 => s.p3
  }

  /** Where a port comes in the cycle 0 - 3 - 1 - 2 */
  function Place(p: Port): nat {
    match p case 0 => 0 case 3 => 1 case 1 => 2 case 2 => 3
  }

  function Without(s: Ports, p: Port): Ports {
    match p
    case 0 => s.(p0 := false)
    case 1 => s.(p1 := false)
    case 2 => s.(p2 := false)
    case 3 => s.(p3 := false)
  }

  /** `ecx_porttime` */
  function PortTime(t: PortTimes, p: Port): int {
    match p case 0 => t.a case 1 => t.b case 2 => t.c case 3 => t.d
  }

  /** `ecx_prevport`: the previous active port in the cycle 0 - 3 - 1 - 2. */
  function PrevPort(active: Ports, p: Port): Port {
    match p
    case 0 => if active.p2 then 2 else if active.p1 then 1 else if active.p3 then 3 else 0
    case 1 => if active.p3 then 3 else if active.p0 then 0 else if active.p2 then 2 else 1
    case 2 => if active.p1 then 1 else if active.p3 then 3 else if active.p0 then 0 else 2
    case 3 => if active.p0 then 0 else if active.p2 then 2 else if active.p1 then 1 else 3
  }

  /** The port `ecx_parentport` picks among the unconsumed ones. */
  function FirstPort(s: Ports): Port {
    if s.p3 then 3 else if s.p1 then 1 else if s.p2 then 2 else 0
  }

  function Consume(s: Slave): Slave {
    s.(consumedports := Without(s.consumedports, FirstPort(s.consumedports)))
  }

  function ActiveList(active: Ports): (ports: seq<Port>) {
    (if active.p0 then [0] else []) + (if active.p3 then [3] else [])
    + (if active.p1 then [1] else []) + (if active.p2 then [2] else [])
  }

  /** The active port with the lowest time stamp; the first one listed wins a tie. */
  function EntryPort(active: Ports, t: PortTimes): Port {
    var plist := ActiveList(active);
    if plist == [] then 0
    else
      var e := plist[0];
      var e := if |plist| > 1 && PortTime(t, plist[1]) < PortTime(t, e) then plist[1] else e;
      var e := if |plist| > 2 && PortTime(t, plist[2]) < PortTime(t, e) then plist[2] else e;
      if |plist| > 3 && PortTime(t, plist[3]) < PortTime(t, e) then plist[3] else e
  }

  /** Slave `s` has latched times `t`, and its entry port is an active one with the smallest of them; of equal ones
      it is the first in the cycle. */
  ghost predicate Entered(s: Slave, t: PortTimes) {
    && s.dcrt == t && (forall p: Port :: Has(s.activeports, p) ==> Has(s.activeports, s.entryport))
    && (forall p: Port :: Has(s.activeports, p) ==> PortTime(t, s.entryport) <= PortTime(t, p))
    && (forall p: Port :: Has(s.activeports, p) && p != s.entryport && PortTime(t, s.entryport) == PortTime(t, p)
          ==> Place(s.entryport) < Place(p))
  }

  lemma LatchedEntered(s: Slave, t: PortTimes)
    ensures Entered(Latch(s, t), t)
    ensures forall p: Port :: Has(Latch(s, t).consumedports, p) <==> Has(s.activeports, p) && p != Latch(s, t).entryport
  {
  }

  /** So have all slaves with a clock before slave `n`. */
  ghost predicate AllEntered(slaves: seq<Slave>, latched: seq<PortTimes>, n: nat)
    requires n <= |slaves| == |latched|
  {
    forall k :: 1 <= k < n && slaves[k].hasdc ==> Entered(slaves[k], latched[k])
  }

  lemma EnteredStep(st: State, i: nat, latched: seq<PortTimes>)
    requires ValidState(st) && 1 <= i < |st.slaves| == |latched| && AllEntered(st.slaves, latched, i)
    ensures AllEntered(Step(st, i, latched[i]).slaves, latched, i + 1)
  {
    var r := Step(st, i, latched[i]).slaves;
    forall k | 1 <= k <= i && r[k].hasdc ensures Entered(r[k], latched[k]) {
      if k < i {
        assert r[k] == st.slaves[k].(consumedports := r[k].consumedports);
        SameEntry(st.slaves[k], r[k], latched[k]);
      } else {
        LatchedEntered(st.slaves[i], latched[i]);
        SameEntry(Latch(st.slaves[i], latched[i]), r[i], latched[i]);
      }
    }
  }

  lemma SameEntry(a: Slave, b: Slave, t: PortTimes)
    requires Entered(a, t) && b.dcrt == a.dcrt && b.activeports == a.activeports && b.entryport == a.entryport
    ensures Entered(b, t)
  {
  }

  /** Integer division by two as in C. */
  function Half(n: int): int {
    if n >= 0 then n / 2 else -((-n) / 2)
  }

  /** Delay of slave `s` connected, possibly through slaves without clocks, to port `port` of
      `parent`; `later` says that it is not on the parent's first branch. */
  function Delay(s: Slave, parent: Slave, port: Port, later: bool): int {
    var prev := PrevPort(parent.activeports, port);
    var dt3 := PortTime(parent.dcrt, port) - PortTime(parent.dcrt, prev);
    var dt1 := if s.topology > 1
               then PortTime(s.dcrt, PrevPort(s.activeports, s.entryport)) - PortTime(s.dcrt, s.entryport)
               else 0;
    var dt1 := if dt1 > dt3 then -dt1 else dt1;
    var dt2 := if later then PortTime(parent.dcrt, prev) - PortTime(parent.dcrt, parent.entryport) else 0;
    Half(dt3 - dt1) + (if dt2 < 0 then -dt2 else dt2) + parent.pdelay
  }

  /** The list as the topology scan leaves it: every slave hangs on an earlier one. */
  ghost predicate Valid(slaves: seq<Slave>) {
    |slaves| >= 1 && forall k :: 1 <= k < |slaves| ==> slaves[k].parent < k
  }

  /** Nothing but the measurement fields differs. */
  predicate SameWiring(a: Slave, b: Slave) {
    a.hasdc == b.hasdc && a.topology == b.topology && a.activeports == b.activeports && a.parent == b.parent
  }

  ghost predicate AllSameWiring(a: seq<Slave>, b: seq<Slave>) {
    |a| == |b| && forall k :: 1 <= k < |a| ==> SameWiring(a[k], b[k])
  }

  /** The nearest slave with a clock upstream of slave `i` (0 if there is none) and the slave directly below it. */
  ghost function DcParent(slaves: seq<Slave>, i: nat): (r: (nat, nat))
    requires Valid(slaves) && 1 <= i < |slaves|
    ensures r.0 < r.1 <= i
    decreases i
  {
    var p := slaves[i].parent;
    if p == 0 || slaves[p].hasdc then (p, i) else DcParent(slaves, p)
  }

  datatype State = State(slaves: seq<Slave>, parenthold: nat)

  ghost predicate ValidState(st: State) {
    Valid(st.slaves) && st.parenthold < |st.slaves|
  }

  /** The loop body for one slave: what it means on a value of the slave list. */
  ghost function Step(st: State, i: nat, t: PortTimes): (r: State)
    requires ValidState(st) && 1 <= i < |st.slaves|
    ensures AllSameWiring(r.slaves, st.slaves) && ValidState(r)
  {
    if st.slaves[i].hasdc then StepDc(st, i, t) else StepPlain(st, i)
  }

  ghost function Latch(s: Slave, t: PortTimes): Slave {
    var entry := EntryPort(s.activeports, t);
    s.(dcrt := t, entryport := entry, consumedports := Without(s.activeports, entry))
  }

  ghost function StepDc(st: State, i: nat, t: PortTimes): (r: State)
    requires ValidState(st) && 1 <= i < |st.slaves|
    ensures AllSameWiring(r.slaves, st.slaves) && ValidState(r)
  {
    var s := Latch(st.slaves[i], t);
    var (parent, child) := DcParent(st.slaves, i);
    if parent == 0 then State(st.slaves[i := s], 0)
    else
      var p := Consume(st.slaves[parent]);
      var port := if p.topology == 1 then p.entryport else FirstPort(st.slaves[parent].consumedports);
      var s := s.(parentport := port, pdelay := Delay(s, p, port, child - parent > 1));
      State(st.slaves[parent := p][i := s], 0)
  }

  ghost function StepPlain(st: State, i: nat): (r: State)
    requires ValidState(st) && 1 <= i < |st.slaves|
    ensures AllSameWiring(r.slaves, st.slaves) && ValidState(r)
  {
    var slaves := st.slaves[i := st.slaves[i].(consumedports := st.slaves[i].activeports, dcrt := NO_TIMES)];
    var parent := slaves[i].parent;
    var hold := if parent > 0 && slaves[parent].topology > 2 then parent else st.parenthold;
    if hold > 0 && slaves[i].topology == 1 then State(slaves[hold := Consume(slaves[hold])], 0)
    else State(slaves, hold)
  }

  /** `trace[i]` is the state before slave `i` is visited. */
  ghost predicate StepAt(trace: seq<State>, latched: seq<PortTimes>, i: nat)
    requires 1 <= i < |latched| && i + 1 < |trace|
  {
    ValidState(trace[i]) && i < |trace[i].slaves| && trace[i + 1] == Step(trace[i], i, latched[i])
  }

  ghost predicate StateAt(w: seq<Slave>, trace: seq<State>, i: nat)
    requires i < |trace|
  {
    ValidState(trace[i]) && AllSameWiring(trace[i].slaves, w)
  }

  /** The states of a whole run over a list that is wired like `w`. */
  ghost predicate Run(w: seq<Slave>, latched: seq<PortTimes>, trace: seq<State>) {
    && Valid(w) && |w| == |latched| && |trace| == |w| + 1
    && (forall i :: 1 <= i <= |w| ==> StateAt(w, trace, i))
    && (forall i :: 1 <= i < |w| ==> StepAt(trace, latched, i))
  }

  /** A run that has come as far as the state before slave `n`. */
  ghost predicate RunTo(w: seq<Slave>, latched: seq<PortTimes>, trace: seq<State>, n: nat) {
    && 1 <= n <= |w| == |latched| && |trace| == n + 1 && Valid(w)
    && (forall i :: 1 <= i <= n ==> StateAt(w, trace, i))
    && (forall i :: 1 <= i < n ==> StepAt(trace, latched, i))
  }

  lemma RunStarts(w: seq<Slave>, latched: seq<PortTimes>)
    requires Valid(w) && 1 <= |w| == |latched|
    ensures RunTo(w, latched, [State(w, 0), State(w, 0)], 1)
  {
  }

  lemma RunContinues(w: seq<Slave>, latched: seq<PortTimes>, trace: seq<State>, n: nat, next: State)
    requires RunTo(w, latched, trace, n) && n < |w| && StateAt(w, trace, n) && next == Step(trace[n], n, latched[n])
    ensures RunTo(w, latched, trace + [next], n + 1)
  {
    var longer := trace + [next];
    forall i | 1 <= i <= n ensures StateAt(w, longer, i) {
      assert StateAt(w, trace, i);
    }
    forall i | 1 <= i < n ensures StepAt(longer, latched, i) {
      assert StepAt(trace, latched, i);
    }
  }

  // ----- the code -----

  method FindDcParent(slavelist: array<Slave>, i: nat) returns (parent: nat, child: nat)
    requires Valid(slavelist[..]) && 1 <= i < slavelist.Length
    ensures (parent, child) == DcParent(slavelist[..], i)
  {
    child := i;
    parent := slavelist[i].parent;
    while !(parent == 0 || slavelist[parent].hasdc)
      invariant 1 <= child < slavelist.Length && parent == slavelist[child].parent
      invariant DcParent(slavelist[..], i) == DcParent(slavelist[..], child)
      decreases child
    {
      child := parent;
      parent := slavelist[parent].parent;
    }
  }

  /** `ecx_parentport` */
  method ParentPort(slavelist: array<Slave>, parent: nat) returns (port: Port)
    requires parent < slavelist.Length
    modifies slavelist
    ensures slavelist[..] == old(slavelist[..])[parent := Consume(old(slavelist[parent]))]
    ensures port == FirstPort(old(slavelist[parent].consumedports))
  {
    var b := slavelist[parent].consumedports;
    port := 0;
    if b.p3 {
      port, b := 3, b.(p3 := false);
    } else if b.p1 {
      port, b := 1, b.(p1 := false);
    } else if b.p2 {
      port, b := 2, b.(p2 := false);
    } else if b.p0 {
      port, b := 0, b.(p0 := false);
    }
    slavelist[parent] := slavelist[parent].(consumedports := b);
  }

  method MeasureSlave(slavelist: array<Slave>, i: nat, t: PortTimes, hold: nat)
    requires ValidState(State(slavelist[..], hold)) && 1 <= i < slavelist.Length && slavelist[i].hasdc
    modifies slavelist
    ensures slavelist[..] == StepDc(State(old(slavelist[..]), hold), i, t).slaves
    ensures Entered(slavelist[i], t)
    ensures forall p: Port :: Has(slavelist[i].consumedports, p) <==> Has(slavelist[i].activeports, p) && p != slavelist[i].entryport
    ensures var (parent, child) := DcParent(old(slavelist[..]), i);
      && (forall k :: 0 <= k < slavelist.Length && k != i && k != parent ==> slavelist[k] == old(slavelist[k]))
      && slavelist[0] == old(slavelist[0]) && (parent == 0 ==> slavelist[i].pdelay == old(slavelist[i]).pdelay)
      && (parent > 0 ==> slavelist[i].parentport == if slavelist[parent].topology == 1 then slavelist[parent].entryport
                                                    else FirstPort(old(slavelist[parent]).consumedports))
  {
    ghost var before := slavelist[..];
    var entry := EntryPort(slavelist[i].activeports, t);
    slavelist[i] := slavelist[i].(dcrt := t, entryport := entry, consumedports := Without(slavelist[i].activeports, entry));
    LatchedEntered(before[i], t);
    ghost var latched := slavelist[..];
    assert latched == before[i := Latch(before[i], t)];
    DcParentLocal(latched, before, i);
    var parent, child := FindDcParent(slavelist, i);
    if parent > 0 {
      var port := ParentPort(slavelist, parent);
      if slavelist[parent].topology == 1 {
        port := slavelist[parent].entryport;
      }
      var delay := Delay(slavelist[i], slavelist[parent], port, child - parent > 1);
      slavelist[i] := slavelist[i].(parentport := port, pdelay := delay);
    }
  }

  method ConfigDc(slavelist: array<Slave>, latched: seq<PortTimes>) returns (found: bool, ghost trace: seq<State>)
    requires Valid(slavelist[..]) && slavelist.Length == |latched|
    modifies slavelist
    ensures Run(old(slavelist[..]), latched, trace)
    ensures trace[1] == State(old(slavelist[..]), 0) && slavelist[..] == trace[|latched|].slaves
    ensures found <==> exists i :: 1 <= i < |latched| && old(slavelist[..])[i].hasdc
    ensures forall k :: 1 <= k < |latched| && slavelist[k].hasdc ==> Entered(slavelist[k], latched[k])
    ensures slavelist[0] == old(slavelist[0])
  {
    var parenthold := 0;
    found := false;
    ghost var before := slavelist[..];
    trace := [State(before, 0), State(before, 0)];
    RunStarts(before, latched);
    var i := 1;
    while i < slavelist.Length
      invariant 1 <= i <= slavelist.Length
      invariant RunTo(before, latched, trace, i) && trace[1] == State(before, 0) && trace[i] == State(slavelist[..], parenthold)
      invariant found <==> exists k :: 1 <= k < i && before[k].hasdc
      invariant AllEntered(slavelist[..], latched, i) && slavelist[0] == before[0]
    {
      assert StateAt(before, trace, i) && SameWiring(slavelist[..][i], before[i]);
      if slavelist[i].hasdc {
        found := true;
      }
      EnteredStep(State(slavelist[..], parenthold), i, latched);
      parenthold := VisitSlave(slavelist, i, latched[i], parenthold);
      RunContinues(before, latched, trace, i, State(slavelist[..], parenthold));
      trace := trace + [State(slavelist[..], parenthold)];
      i := i + 1;
    }
  }

  /** One round of the loop in `ConfigDc`. */
  method VisitSlave(slavelist: array<Slave>, i: nat, t: PortTimes, parenthold: nat) returns (hold: nat)
    requires ValidState(State(slavelist[..], parenthold)) && 1 <= i < slavelist.Length
    modifies slavelist
    ensures State(slavelist[..], hold) == Step(State(old(slavelist[..]), parenthold), i, t)
    ensures slavelist[0] == old(slavelist[0])
  {
    if slavelist[i].hasdc {
      MeasureSlave(slavelist, i, t, parenthold);
      hold := 0;
    } else {
      hold := SkipSlave(slavelist, i, parenthold);
    }
  }

  method SkipSlave(slavelist: array<Slave>, i: nat, parenthold: nat) returns (hold: nat)
    requires ValidState(State(slavelist[..], parenthold)) && 1 <= i < slavelist.Length
    modifies slavelist
    ensures State(slavelist[..], hold) == StepPlain(State(old(slavelist[..]), parenthold), i)
    ensures slavelist[i].dcrt == PortTimes(0, 0, 0, 0) && slavelist[i].pdelay == old(slavelist[i]).pdelay
    ensures slavelist[0] == old(slavelist[0])
  {
    hold := parenthold;
    slavelist[i] := slavelist[i].(consumedports := slavelist[i].activeports, dcrt := NO_TIMES);
    var parent := slavelist[i].parent;
    if parent > 0 && slavelist[parent].topology > 2 {
      hold := parent;
    }
    if hold > 0 && slavelist[i].topology == 1 {
      var _ := ParentPort(slavelist, hold);
      hold := 0;
    }
  }

  lemma {:induction false} DcParentLocal(a: seq<Slave>, b: seq<Slave>, i: nat)
    requires Valid(a) && Valid(b) && AllSameWiring(a, b) && 1 <= i < |a|
    ensures DcParent(a, i) == DcParent(b, i)
    decreases i
  {
    var p := a[i].parent;
    assert SameWiring(a[i], b[i]);
    if p > 0 {
      assert SameWiring(a[p], b[p]);
      if !a[p].hasdc { DcParentLocal(a, b, p); }
    }
  }
}
