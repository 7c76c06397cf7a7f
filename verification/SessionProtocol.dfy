/**
  Tracing sessions as a step system.  One management operation runs at a time,
  under the module's mutex, but it proceeds CPU by CPU and probe by probe while
  I/O on every CPU goes on reading that CPU's device array and writing to that
  CPU's trace.

  Atomic steps are: one inter-processor call on one CPU, one probe
  (un)registration, opening or closing one CPU's trace, and one I/O callback
  from scan to ring write.  A step whose guard fails changes nothing, so every
  sequence of steps is a run.

  `broken` records what must never happen: a BUG_ON, or a ring write on a CPU
  whose trace is not open on its current ring.
 */
module SessionProtocol {
  import opened Common
  import opened DeviceList

  const PROBES: nat := 4  // bio queue, bio complete, request complete, split

  /** One attempt to write an event to a CPU's ring, stored or refused. */
  datatype Attempt = Desc(devt: nat, stored: bool) | Io(devt: nat, stored: bool)

  datatype Phase =
    | Idle
    | Opening(next: nat)                                     // init_tracers
    | Registering(next: nat)                                 // _register_trace_points
    | RollingBack(todo: seq<nat>)                            // its error exits
    | Adding(bdev: Bdev, done: set<nat>)                     // iotrace_bdev_add
    | Removing(idx: nat, done: set<nat>, draining: bool)     // iotrace_bdev_remove_locked
    | Unregistering(next: nat)                               // _unregister_trace_points
    | Draining                                               // iotrace_bdev_remove_all_locked
    | Closing(next: nat)                                     // deinit_tracers
    | Resizing(next: nat)                                    // iotrace_init_buffers

  datatype State = State(
    phase: Phase,
    lists: seq<seq<Slot>>,
    num: nat,
    rings: seq<Option<nat>>,
    traces: seq<Option<nat>>,
    probes: seq<bool>,
    clients: nat,
    attempts: seq<seq<Attempt>>,
    broken: bool,
    // history: the list as of the last finished operation, and the
    // queue-to-device map its operations describe
    devices: seq<Bdev>,
    traced: map<nat, Bdev>)

  datatype Step =
    | Attach
    | OpenCpu(ok: bool)
    | Register(ok: bool)
    | RollBack
    | Detach
    | Unregister
    | Drain
    | CloseCpu
    | AddStart(bdev: Bdev, on: nat)
    | AddIpi(cpu: nat, stored: bool)
    | AddDone
    | RemoveStart(idx: nat)
    | RemoveIpi(cpu: nat)
    | RemoveDone
    | ResizeStart
    | ResizeCpu(ring: Option<nat>)
    | Callback(probe: nat, cpu: nat, queue: nat, stored: bool)

  function Init(cpus: nat): State {
    State(Idle, seq(cpus, _ => seq(MAX_DEVICES, _ => None)), 0,
          seq(cpus, _ => None), seq(cpus, _ => None), seq(PROBES, _ => false),
          0, seq(cpus, _ => []), false, [], map[])
  }

  /** The trace of this CPU is open on the CPU's current ring. */
  predicate TraceOpen(s: State, cpu: nat) {
    cpu < |s.traces| && cpu < |s.rings| && s.traces[cpu].Some? && s.traces[cpu] == s.rings[cpu]
  }

  // -------------------------------------------------------------- transitions

  function OnAttach(s: State): State {
    if !s.phase.Idle? then s
    else if s.clients > 0 then s.(clients := s.clients + 1)
    else s.(phase := Opening(0))
  }

  function OnOpenCpu(s: State, ok: bool): State {
    if !s.phase.Opening? then s
    else
      var c := s.phase.next;
      if c >= |s.traces| then s.(phase := Registering(0))
      else if c >= |s.rings| || c >= |s.attempts| || s.rings[c].None? || !ok then s.(phase := Closing(0))
      else s.(phase := Opening(c + 1), traces := s.traces[c := s.rings[c]], attempts := s.attempts[c := []])
  }

  /** What to unregister when registering probe `p` fails, in the order of the
      error labels. */
  function Undo(p: nat): seq<nat> {
    if p == 0 then [] else if p == 1 then [0] else if p == 2 then [1, 0] else [1, 2, 0]
  }

  function OnRegister(s: State, ok: bool): State {
    if !s.phase.Registering? then s
    else
      var p := s.phase.next;
      if p >= |s.probes| then s.(phase := Idle, clients := s.clients + 1)
      else if ok then s.(phase := Registering(p + 1), probes := s.probes[p := true])
      else s.(phase := RollingBack(Undo(p)))
  }

  function OnRollBack(s: State): State {
    if !s.phase.RollingBack? then s
    else if s.phase.todo == [] then s.(phase := Closing(0))
    else if s.phase.todo[0] >= |s.probes| then s
    else s.(phase := RollingBack(s.phase.todo[1..]), probes := s.probes[s.phase.todo[0] := false])
  }

  function OnDetach(s: State): State {
    if !s.phase.Idle? || s.clients == 0 then s
    else if s.clients > 1 then s.(clients := s.clients - 1)
    else s.(clients := 0, phase := Unregistering(0))
  }

  function OnUnregister(s: State): State {
    if !s.phase.Unregistering? then s
    else if s.phase.next >= |s.probes| then s.(phase := Draining)
    else s.(phase := Unregistering(s.phase.next + 1), probes := s.probes[s.phase.next := false])
  }

  function OnDrain(s: State): State {
    if !s.phase.Draining? then s
    else if s.num == 0 then s.(phase := Closing(0))
    else s.(phase := Removing(s.num - 1, {}, true))
  }

  function OnCloseCpu(s: State): State {
    if !s.phase.Closing? then s
    else if s.phase.next >= |s.traces| then s.(phase := Idle)
    else s.(phase := Closing(s.phase.next + 1), traces := s.traces[s.phase.next := None])
  }

  /** `on` is the CPU the operation runs on: it checks that CPU's array. */
  ghost function OnAddStart(s: State, b: Bdev, on: nat): State {
    if !s.phase.Idle? || on >= |s.lists| || s.num >= MAX_DEVICES || s.clients == 0 then s
    else if exists i :: 0 <= i < s.num && i < |s.lists[on]| && s.lists[on][i].Some?
                        && s.lists[on][i].value.queue == b.queue then s
    else s.(phase := Adding(b, {}))
  }

  function OnAddIpi(s: State, c: nat, stored: bool): State {
    if !s.phase.Adding? || c >= |s.lists| || c >= |s.attempts| || c in s.phase.done then s
    else if s.num >= |s.lists[c]| || !TraceOpen(s, c) then s.(broken := true)
    else s.(phase := Adding(s.phase.bdev, s.phase.done + {c}),
            lists := s.lists[c := AddSlot(s.lists[c], s.num, s.phase.bdev)],
            attempts := s.attempts[c := s.attempts[c] + [Desc(s.phase.bdev.devt, stored)]])
  }

  ghost predicate Everywhere(s: State, done: set<nat>) {
    forall c :: 0 <= c < |s.lists| ==> c in done
  }

  ghost function OnAddDone(s: State): State {
    if !s.phase.Adding? || !Everywhere(s, s.phase.done) then s
    else
      var b := s.phase.bdev;
      s.(phase := Idle, num := s.num + 1, devices := s.devices + [b], traced := s.traced[b.queue := b])
  }

  function OnRemoveStart(s: State, idx: nat): State {
    if !s.phase.Idle? || idx >= s.num then s else s.(phase := Removing(idx, {}, false))
  }

  function OnRemoveIpi(s: State, c: nat): State {
    if !s.phase.Removing? || c >= |s.lists| || c in s.phase.done then s
    else if s.num == 0 || s.phase.idx >= s.num || s.num > |s.lists[c]| then s.(broken := true)
    else s.(phase := Removing(s.phase.idx, s.phase.done + {c}, s.phase.draining),
            lists := s.lists[c := RemoveSlot(s.lists[c], s.num, s.phase.idx)])
  }

  ghost function OnRemoveDone(s: State): State {
    if !s.phase.Removing? || !Everywhere(s, s.phase.done) || s.phase.idx >= |s.devices| || s.num == 0 then s
    else
      s.(phase := if s.phase.draining then Draining else Idle,
         num := s.num - 1,
         devices := SwapRemove(s.devices, s.phase.idx),
         traced := s.traced - {s.devices[s.phase.idx].queue})
  }

  function OnResizeStart(s: State): State {
    if !s.phase.Idle? || s.clients > 0 then s else s.(phase := Resizing(0))
  }

  /** A new ring for the next CPU; a failed allocation ends the operation. */
  function OnResizeCpu(s: State, ring: Option<nat>): State {
    if !s.phase.Resizing? then s
    else if s.phase.next >= |s.rings| || ring.None? then s.(phase := Idle)
    else s.(phase := Resizing(s.phase.next + 1), rings := s.rings[s.phase.next := ring])
  }

  /** A registered probe fires on a CPU: look the queue up, write the event. */
  function OnCallback(s: State, p: nat, c: nat, q: nat, stored: bool): State {
    if p >= |s.probes| || !s.probes[p] || c >= |s.lists| || c >= |s.attempts| then s
    else
      match Scan(s.lists[c], q)
      case None => s
      case Some(b) =>
        if !TraceOpen(s, c) then s.(broken := true)
        else s.(attempts := s.attempts[c := s.attempts[c] + [Io(b.devt, stored)]])
  }

  ghost function Next(s: State, st: Step): State {
    match st
    case Attach => OnAttach(s)
    case OpenCpu(ok) => OnOpenCpu(s, ok)
    case Register(ok) => OnRegister(s, ok)
    case RollBack => OnRollBack(s)
    case Detach => OnDetach(s)
    case Unregister => OnUnregister(s)
    case Drain => OnDrain(s)
    case CloseCpu => OnCloseCpu(s)
    case AddStart(b, on) => OnAddStart(s, b, on)
    case AddIpi(c, stored) => OnAddIpi(s, c, stored)
    case AddDone => OnAddDone(s)
    case RemoveStart(idx) => OnRemoveStart(s, idx)
    case RemoveIpi(c) => OnRemoveIpi(s, c)
    case RemoveDone => OnRemoveDone(s)
    case ResizeStart => OnResizeStart(s)
    case ResizeCpu(ring) => OnResizeCpu(s, ring)
    case Callback(p, c, q, stored) => OnCallback(s, p, c, q, stored)
  }

  ghost function Run(cpus: nat, steps: seq<Step>): State {
    if steps == [] then Init(cpus)
    else Next(Run(cpus, steps[..|steps| - 1]), steps[|steps| - 1])
  }

  // --------------------------------------------------------------- invariants

  ghost predicate Shape(s: State, cpus: nat) {
    && |s.lists| == |s.rings| == |s.traces| == |s.attempts| == cpus
    && |s.probes| == PROBES && !s.broken
  }

  /** The list CPU `c` holds: the one before the operation in progress, or the
      one after it if its call already ran there. */
  ghost function Image(s: State, c: nat): seq<Bdev> {
    match s.phase
    case Adding(b, done) => if c in done then s.devices + [b] else s.devices
    case Removing(idx, done, _) =>
      if c in done && idx < |s.devices| then SwapRemove(s.devices, idx) else s.devices
    case _ => s.devices
  }

  ghost predicate ListsOk(s: State) {
    && s.num == |s.devices| && DistinctQueues(s.devices) && s.traced == ByQueue(s.devices)
    && (s.phase.Adding? ==> |s.devices| < MAX_DEVICES && !QueueTraced(s.devices, s.phase.bdev.queue))
    && (s.phase.Removing? ==> s.phase.idx < |s.devices|)
    && (forall c :: 0 <= c < |s.lists| ==> Holds(s.lists[c], Image(s, c)))
  }

  ghost predicate AllOpen(s: State) {
    forall c :: 0 <= c < |s.traces| ==> TraceOpen(s, c)
  }

  ghost predicate NoProbe(s: State) {
    forall p :: 0 <= p < |s.probes| ==> !s.probes[p]
  }

  ghost predicate EveryProbe(s: State) {
    forall p :: 0 <= p < |s.probes| ==> s.probes[p]
  }

  ghost predicate AllClosed(s: State) {
    forall c :: 0 <= c < |s.traces| ==> s.traces[c].None?
  }

  /** Which resources each phase holds. */
  ghost predicate SessionOk(s: State) {
    match s.phase
    case Idle =>
      if s.clients > 0 then AllOpen(s) && EveryProbe(s) else AllClosed(s) && NoProbe(s) && s.devices == []
    case Opening(k) =>
      && s.clients == 0 && NoProbe(s) && s.devices == [] && k <= |s.traces|
      && forall c :: 0 <= c < k ==> TraceOpen(s, c)
    case Registering(j) =>
      && s.clients == 0 && AllOpen(s) && s.devices == [] && j <= |s.probes|
      && forall p :: 0 <= p < |s.probes| ==> (s.probes[p] <==> p < j)
    case RollingBack(todo) =>
      && s.clients == 0 && AllOpen(s) && s.devices == []
      && Distinct(todo) && (forall i :: 0 <= i < |todo| ==> todo[i] < |s.probes|)
      && forall p :: 0 <= p < |s.probes| ==> (s.probes[p] <==> p in todo)
    case Adding(_, _) => s.clients > 0 && AllOpen(s) && EveryProbe(s)
    case Removing(idx, _, draining) =>
      && AllOpen(s)
      && if draining then s.clients == 0 && NoProbe(s) && idx == |s.devices| - 1 else s.clients > 0 && EveryProbe(s)
    case Unregistering(j) =>
      && s.clients == 0 && AllOpen(s) && j <= |s.probes|
      && forall p :: 0 <= p < |s.probes| ==> (s.probes[p] <==> p >= j)
    case Draining => s.clients == 0 && AllOpen(s) && NoProbe(s)
    case Closing(k) =>
      && s.clients == 0 && NoProbe(s) && s.devices == [] && k <= |s.traces|
      && forall c :: 0 <= c < k ==> s.traces[c].None?
    case Resizing(_) => s.clients == 0 && AllClosed(s) && NoProbe(s) && s.devices == []
  }

  ghost predicate Described(log: seq<Attempt>, devt: nat) {
    exists j :: 0 <= j < |log| && log[j].Desc? && log[j].devt == devt
  }

  /** Every I/O attempt comes after a description attempt for its device. */
  ghost predicate DescribedFirst(log: seq<Attempt>) {
    forall i :: 0 <= i < |log| && log[i].Io? ==> Described(log[..i], log[i].devt)
  }

  ghost predicate LogsOk(s: State) {
    forall c :: 0 <= c < |s.attempts| ==>
      && DescribedFirst(s.attempts[c])
      && forall b :: b in Image(s, c) ==> Described(s.attempts[c], b.devt)
  }

  ghost predicate Inv(s: State, cpus: nat) {
    Shape(s, cpus) && ListsOk(s) && SessionOk(s) && LogsOk(s)
  }

  // ------------------------------------------------------------- preservation

  lemma {:induction false} InitInv(cpus: nat)
    ensures Inv(Init(cpus), cpus)
  {}

  /** Steps that touch neither the arrays nor the history keep what is said
      about them, as long as each CPU's image is the same. */
  lemma {:induction false} SameLists(s: State, t: State)
    requires ListsOk(s) && LogsOk(s)
    requires t.lists == s.lists && t.num == s.num && t.devices == s.devices && t.traced == s.traced
    requires !t.phase.Adding? && !t.phase.Removing? && !s.phase.Adding? && !s.phase.Removing?
    ensures ListsOk(t)
    ensures t.attempts == s.attempts ==> LogsOk(t)
  {}

  lemma {:induction false} OpenStepInv(s: State, cpus: nat, ok: bool)
    requires Inv(s, cpus)
    ensures Inv(OnOpenCpu(s, ok), cpus)
  {
    var t := OnOpenCpu(s, ok);
    if t != s {
      SameLists(s, t);
      assert forall c :: 0 <= c < s.phase.next ==> TraceOpen(t, c) == TraceOpen(s, c);
      forall c | 0 <= c < |t.attempts|
        ensures DescribedFirst(t.attempts[c]) && forall b :: b in Image(t, c) ==> Described(t.attempts[c], b.devt)
      {
        assert Image(t, c) == [];
      }
    }
  }

  lemma {:induction false} RegisterStepInv(s: State, cpus: nat, ok: bool)
    requires Inv(s, cpus)
    ensures Inv(OnRegister(s, ok), cpus)
  {
    var t := OnRegister(s, ok);
    if t != s {
      SameLists(s, t);
      assert forall c :: 0 <= c < |s.traces| ==> TraceOpen(t, c) == TraceOpen(s, c);
      if t.phase.RollingBack? {
        assert 0 in Undo(1) && 0 in Undo(2) && 1 in Undo(2) && 0 in Undo(3) && 1 in Undo(3) && 2 in Undo(3);
      }
    }
  }

  lemma {:induction false} RollBackStepInv(s: State, cpus: nat)
    requires Inv(s, cpus)
    ensures Inv(OnRollBack(s), cpus)
  {
    var t := OnRollBack(s);
    if t != s {
      SameLists(s, t);
      assert forall c :: 0 <= c < |s.traces| ==> TraceOpen(t, c) == TraceOpen(s, c);
      if s.phase.todo != [] {
        assert s.phase.todo == [s.phase.todo[0]] + s.phase.todo[1..];
      }
    }
  }

  lemma {:induction false} AttachInv(s: State, cpus: nat)
    requires Inv(s, cpus)
    ensures Inv(OnAttach(s), cpus)
  {
    var t := OnAttach(s);
    if t != s {
      SameLists(s, t);
      assert forall c :: 0 <= c < |s.traces| ==> TraceOpen(t, c) == TraceOpen(s, c);
    }
  }

  lemma {:induction false} DetachInv(s: State, cpus: nat)
    requires Inv(s, cpus)
    ensures Inv(OnDetach(s), cpus)
  {
    var t := OnDetach(s);
    if t != s {
      SameLists(s, t);
      assert forall c :: 0 <= c < |s.traces| ==> TraceOpen(t, c) == TraceOpen(s, c);
    }
  }

  lemma {:induction false} UnregisterInv(s: State, cpus: nat)
    requires Inv(s, cpus)
    ensures Inv(OnUnregister(s), cpus)
  {
    var t := OnUnregister(s);
    if t != s {
      SameLists(s, t);
      assert forall c :: 0 <= c < |s.traces| ==> TraceOpen(t, c) == TraceOpen(s, c);
    }
  }

  lemma {:induction false} CloseStepInv(s: State, cpus: nat)
    requires Inv(s, cpus)
    ensures Inv(OnCloseCpu(s), cpus)
  {}

  lemma {:induction false} ResizeStepsInv(s: State, cpus: nat, ring: Option<nat>)
    requires Inv(s, cpus)
    ensures Inv(OnResizeStart(s), cpus) && Inv(OnResizeCpu(s, ring), cpus)
  {}

  /** Starting an operation: no call has run yet, every image is unchanged. */
  lemma {:induction false} StartKeeps(s: State, t: State, cpus: nat)
    requires Inv(s, cpus) && !s.phase.Adding? && !s.phase.Removing?
    requires t == s.(phase := t.phase)
    requires (t.phase.Adding? && t.phase.done == {}) || (t.phase.Removing? && t.phase.done == {})
    ensures forall c :: 0 <= c < |t.lists| ==> Holds(t.lists[c], Image(t, c))
    ensures LogsOk(t)
  {}

  lemma {:induction false} AddStartInv(s: State, cpus: nat, b: Bdev, on: nat)
    requires Inv(s, cpus)
    ensures Inv(OnAddStart(s, b, on), cpus)
  {
    var t := OnAddStart(s, b, on);
    if t != s {
      StartKeeps(s, t, cpus);
      assert Holds(s.lists[on], s.devices);
      forall i | 0 <= i < |s.devices| ensures s.devices[i].queue != b.queue {
        assert s.lists[on][i] == Some(s.devices[i]);
      }
      assert forall c :: 0 <= c < |s.traces| ==> TraceOpen(t, c) == TraceOpen(s, c);
    }
  }

  lemma {:induction false} RemoveStartInv(s: State, cpus: nat, idx: nat)
    requires Inv(s, cpus)
    ensures Inv(OnRemoveStart(s, idx), cpus) && Inv(OnDrain(s), cpus)
  {
    forall t | t == OnRemoveStart(s, idx) || t == OnDrain(s) ensures Inv(t, cpus) {
      if t != s {
        if t.phase.Removing? { StartKeeps(s, t, cpus); } else { SameLists(s, t); }
        assert forall c :: 0 <= c < |s.traces| ==> TraceOpen(t, c) == TraceOpen(s, c);
      }
    }
  }

  /** One more attempt, a description, or I/O of a device described before. */
  lemma {:induction false} LogGrows(log: seq<Attempt>, a: Attempt)
    requires DescribedFirst(log) && (a.Io? ==> Described(log, a.devt))
    ensures DescribedFirst(log + [a])
    ensures forall d :: Described(log, d) ==> Described(log + [a], d)
    ensures a.Desc? ==> Described(log + [a], a.devt)
  {
    var more := log + [a];
    forall i | 0 <= i < |more| && more[i].Io? ensures Described(more[..i], more[i].devt) {
      assert more[..i] == log[..i];
    }
    forall d | Described(log, d) ensures Described(more, d) {
      var j :| 0 <= j < |log| && log[j].Desc? && log[j].devt == d;
      assert more[j] == log[j];
    }
    assert more[|log|] == a;
  }

  lemma {:induction false} AddIpiInv(s: State, cpus: nat, c: nat, stored: bool)
    requires Inv(s, cpus)
    ensures Inv(OnAddIpi(s, c, stored), cpus)
  {
    var t := OnAddIpi(s, c, stored);
    if t != s {
      var b := s.phase.bdev;
      assert TraceOpen(s, c) && Holds(s.lists[c], s.devices);
      AddHolds(s.lists[c], s.devices, b);
      assert t.lists[c] == AddSlot(s.lists[c], s.num, b);
      assert forall k: nat :: k != c ==> Image(t, k) == Image(s, k);
      assert Image(t, c) == s.devices + [b] && Image(s, c) == s.devices;
      LogGrows(s.attempts[c], Desc(b.devt, stored));
      assert forall k :: 0 <= k < |s.traces| ==> TraceOpen(t, k) == TraceOpen(s, k);
    }
  }

  lemma {:induction false} AddDoneInv(s: State, cpus: nat)
    requires Inv(s, cpus)
    ensures Inv(OnAddDone(s), cpus)
  {
    var t := OnAddDone(s);
    if t != s {
      AddToMap(s.devices, s.phase.bdev);
      assert forall k :: 0 <= k < cpus ==> Image(t, k) == Image(s, k);
      assert forall k :: 0 <= k < |s.traces| ==> TraceOpen(t, k) == TraceOpen(s, k);
    }
  }

  lemma {:induction false} RemoveIpiInv(s: State, cpus: nat, c: nat)
    requires Inv(s, cpus)
    ensures Inv(OnRemoveIpi(s, c), cpus)
  {
    var t := OnRemoveIpi(s, c);
    if t != s {
      assert Holds(s.lists[c], s.devices);
      RemoveHolds(s.lists[c], s.devices, s.phase.idx);
      SwapRemoveMembers(s.devices, s.phase.idx);
      assert forall k: nat :: k != c ==> Image(t, k) == Image(s, k);
      assert Image(t, c) == SwapRemove(s.devices, s.phase.idx) && Image(s, c) == s.devices;
      assert forall k :: 0 <= k < |s.traces| ==> TraceOpen(t, k) == TraceOpen(s, k);
    }
  }

  lemma {:induction false} RemoveDoneInv(s: State, cpus: nat)
    requires Inv(s, cpus)
    ensures Inv(OnRemoveDone(s), cpus)
  {
    var t := OnRemoveDone(s);
    if t != s {
      RemoveFromMap(s.devices, s.phase.idx);
      SwapRemoveDistinct(s.devices, s.phase.idx);
      assert forall k :: 0 <= k < cpus ==> Image(t, k) == Image(s, k);
      assert forall k :: 0 <= k < |s.traces| ==> TraceOpen(t, k) == TraceOpen(s, k);
    }
  }

  /** Whatever image a CPU holds has distinct queues. */
  lemma {:induction false} ImageDistinct(s: State, c: nat)
    requires ListsOk(s)
    ensures DistinctQueues(Image(s, c))
  {}

  /** A scan that finds a device found it in the CPU's own image, and then the
      CPU's trace is open. */
  lemma {:induction false} CallbackSafe(s: State, cpus: nat, p: nat, c: nat, q: nat)
    requires Inv(s, cpus) && p < PROBES && s.probes[p] && c < cpus
    ensures Scan(s.lists[c], q) == Find(ByQueue(Image(s, c)), q)
    ensures Scan(s.lists[c], q).Some? ==> TraceOpen(s, c) && Scan(s.lists[c], q).value in Image(s, c)
  {
    ImageDistinct(s, c);
    ScanFinds(s.lists[c], Image(s, c), q);
    var r := Scan(s.lists[c], q);
    if r.Some? { FindMember(Image(s, c), q, r.value); }
  }

  /** A callback on a device of the CPU's own list writes one event with the id of
      that device to the CPU's own log, and changes nothing else. */
  lemma {:induction false} CallbackRecords(s: State, cpus: nat, p: nat, c: nat, b: Bdev, stored: bool)
    requires Inv(s, cpus) && p < PROBES && s.probes[p] && c < cpus && b in Image(s, c)
    ensures Next(s, Callback(p, c, b.queue, stored))
            == s.(attempts := s.attempts[c := s.attempts[c] + [Io(b.devt, stored)]])
  {
    CallbackSafe(s, cpus, p, c, b.queue);
    ImageDistinct(s, c);
    FindMember(Image(s, c), b.queue, b);
  }

  /** One for a queue that is not traced there, or without its probe, does nothing. */
  lemma {:induction false} CallbackIgnores(s: State, cpus: nat, p: nat, c: nat, q: nat, stored: bool)
    requires Inv(s, cpus) && p < PROBES && c < cpus && (!s.probes[p] || !QueueTraced(Image(s, c), q))
    ensures Next(s, Callback(p, c, q, stored)) == s
  {
    if s.probes[p] {
      CallbackSafe(s, cpus, p, c, q);
      var r := Scan(s.lists[c], q);
      if r.Some? {
        ImageDistinct(s, c);
        FindMember(Image(s, c), q, r.value);
      }
    }
  }

  /** One more attempt in CPU `c`'s log changes nothing else. */
  lemma {:induction false} AttemptKeeps(s: State, t: State, cpus: nat, c: nat, a: Attempt)
    requires Inv(s, cpus) && c < cpus && (a.Io? ==> Described(s.attempts[c], a.devt))
    requires t == s.(attempts := s.attempts[c := s.attempts[c] + [a]])
    ensures LogsOk(t)
  {
    LogGrows(s.attempts[c], a);
    assert forall k: nat :: Image(t, k) == Image(s, k);
  }

  lemma {:induction false} SameSession(s: State, t: State)
    requires ListsOk(s) && SessionOk(s) && t == s.(attempts := t.attempts)
    ensures ListsOk(t) && SessionOk(t)
  {
    assert forall k: nat :: Image(t, k) == Image(s, k);
    assert forall k :: 0 <= k < |s.traces| ==> TraceOpen(t, k) == TraceOpen(s, k);
  }

  lemma {:induction false} CallbackInv(s: State, cpus: nat, p: nat, c: nat, q: nat, stored: bool)
    requires Inv(s, cpus)
    ensures Inv(OnCallback(s, p, c, q, stored), cpus)
  {
    var t := OnCallback(s, p, c, q, stored);
    if t != s {
      CallbackSafe(s, cpus, p, c, q);
      SameSession(s, t);
      AttemptKeeps(s, t, cpus, c, Io(Scan(s.lists[c], q).value.devt, stored));
    }
  }

  lemma {:induction false} AddStepInv(s: State, cpus: nat, st: Step)
    requires Inv(s, cpus) && (st.AddStart? || st.AddIpi? || st.AddDone?)
    ensures Inv(Next(s, st), cpus)
  {
    match st
    case AddStart(b, on) => AddStartInv(s, cpus, b, on);
    case AddIpi(c, stored) => AddIpiInv(s, cpus, c, stored);
    case AddDone => AddDoneInv(s, cpus);
  }

  lemma {:induction false} RemoveStepInv(s: State, cpus: nat, st: Step)
    requires Inv(s, cpus) && (st.Drain? || st.RemoveStart? || st.RemoveIpi? || st.RemoveDone?)
    ensures Inv(Next(s, st), cpus)
  {
    match st
    case Drain => RemoveStartInv(s, cpus, 0);
    case RemoveStart(idx) => RemoveStartInv(s, cpus, idx);
    case RemoveIpi(c) => RemoveIpiInv(s, cpus, c);
    case RemoveDone => RemoveDoneInv(s, cpus);
  }

  lemma {:induction false} OpenStepsInv(s: State, cpus: nat, st: Step)
    requires Inv(s, cpus) && (st.Attach? || st.OpenCpu? || st.Register? || st.RollBack?)
    ensures Inv(Next(s, st), cpus)
  {
    match st
    case Attach => AttachInv(s, cpus);
    case OpenCpu(ok) => OpenStepInv(s, cpus, ok);
    case Register(ok) => RegisterStepInv(s, cpus, ok);
    case RollBack => RollBackStepInv(s, cpus);
  }

  lemma {:induction false} CloseStepsInv(s: State, cpus: nat, st: Step)
    requires Inv(s, cpus)
    requires st.Detach? || st.Unregister? || st.CloseCpu? || st.ResizeStart? || st.ResizeCpu?
    ensures Inv(Next(s, st), cpus)
  {
    match st
    case Detach => DetachInv(s, cpus);
    case Unregister => UnregisterInv(s, cpus);
    case CloseCpu => CloseStepInv(s, cpus);
    case ResizeStart => ResizeStepsInv(s, cpus, None);
    case ResizeCpu(ring) => ResizeStepsInv(s, cpus, ring);
  }

  lemma {:induction false} StepInv(s: State, cpus: nat, st: Step)
    requires Inv(s, cpus)
    ensures Inv(Next(s, st), cpus)
  {
    if st.AddStart? || st.AddIpi? || st.AddDone? {
      AddStepInv(s, cpus, st);
    } else if st.Drain? || st.RemoveStart? || st.RemoveIpi? || st.RemoveDone? {
      RemoveStepInv(s, cpus, st);
    } else if st.Attach? || st.OpenCpu? || st.Register? || st.RollBack? {
      OpenStepsInv(s, cpus, st);
    } else if st.Callback? {
      CallbackInv(s, cpus, st.probe, st.cpu, st.queue, st.stored);
    } else {
      CloseStepsInv(s, cpus, st);
    }
  }

  lemma {:induction false} RunInv(cpus: nat, steps: seq<Step>)
    ensures Inv(Run(cpus, steps), cpus)
  {
    if steps == [] {
      InitInv(cpus);
    } else {
      var k := |steps| - 1;
      RunInv(cpus, steps[..k]);
      StepInv(Run(cpus, steps[..k]), cpus, steps[k]);
    }
  }

  // ----------------------------------------------------- what every run keeps

  /** No BUG_ON fires and no event is written through a trace that is not open
      on its CPU's ring. */
  lemma {:induction false} NeverBroken(cpus: nat, steps: seq<Step>)
    ensures !Run(cpus, steps).broken
  {
    RunInv(cpus, steps);
  }

  /** Each CPU holds the list before, or the list after, the one operation in
      progress; between operations all CPUs hold the same packed list. */
  lemma {:induction false} BeforeOrAfter(cpus: nat, steps: seq<Step>, c: nat)
    requires c < cpus
    ensures var s := Run(cpus, steps);
            && |s.lists| == cpus && s.num == |s.devices| && DistinctQueues(s.devices)
            && match s.phase
               case Adding(b, done) => Holds(s.lists[c], if c in done then s.devices + [b] else s.devices)
               case Removing(i, done, _) =>
                 && i < |s.devices|
                 && Holds(s.lists[c], if c in done then SwapRemove(s.devices, i) else s.devices)
               case _ => Holds(s.lists[c], s.devices)
  {
    RunInv(cpus, steps);
    var s := Run(cpus, steps);
    assert Holds(s.lists[c], Image(s, c));
  }

  /** The map as the operation in progress will leave it. */
  ghost function MapAfter(s: State): map<nat, Bdev> {
    match s.phase
    case Adding(b, _) => s.traced[b.queue := b]
    case Removing(i, _, _) => if i < |s.devices| then s.traced - {s.devices[i].queue} else s.traced
    case _ => s.traced
  }

  /** The operation in progress has already run its call on CPU `c`. */
  predicate Reached(s: State, c: nat) {
    match s.phase
    case Adding(_, done) => c in done
    case Removing(_, done, _) => c in done
    case _ => false
  }

  /** The arrays refine a queue-to-device map: after any history, a lookup on any
      CPU answers as the map does, and during an operation as the map will after
      it if its call has run on that CPU, as the map did before it otherwise.
      Reordering by swap-removal is never seen. */
  lemma {:induction false} LookupRefinesMap(cpus: nat, steps: seq<Step>, c: nat, q: nat)
    requires c < cpus
    ensures var s := Run(cpus, steps);
            && |s.lists| == cpus
            && Scan(s.lists[c], q) == Find(if Reached(s, c) then MapAfter(s) else s.traced, q)
  {
    RunInv(cpus, steps);
    var s := Run(cpus, steps);
    ImageDistinct(s, c);
    ScanFinds(s.lists[c], Image(s, c), q);
    if s.phase.Adding? { AddToMap(s.devices, s.phase.bdev); }
    if s.phase.Removing? { RemoveFromMap(s.devices, s.phase.idx); }
  }

  /** In each CPU's log, an I/O or completion event comes after a stored
      description of its device, unless that CPU refused the description. */
  lemma {:induction false} IoIsDescribed(cpus: nat, steps: seq<Step>, c: nat, i: nat)
    requires c < cpus
    ensures var s := Run(cpus, steps);
            && |s.attempts| == cpus
            && (i < |s.attempts[c]| && s.attempts[c][i].Io? ==>
                  || (exists j :: 0 <= j < i && s.attempts[c][j] == Desc(s.attempts[c][i].devt, true))
                  || (exists j :: 0 <= j < i && s.attempts[c][j] == Desc(s.attempts[c][i].devt, false)))
  {
    RunInv(cpus, steps);
    var s := Run(cpus, steps);
    var log := s.attempts[c];
    if i < |log| && log[i].Io? {
      assert DescribedFirst(log);
      var j :| 0 <= j < |log[..i]| && log[..i][j].Desc? && log[..i][j].devt == log[i].devt;
      assert log[j] == Desc(log[i].devt, log[j].stored);
    }
  }

  /** Attached clients mean open traces and all four probes; probes, or devices
      on any CPU, mean open traces; devices between operations mean clients. */
  lemma {:induction false} SessionSafety(cpus: nat, steps: seq<Step>)
    ensures var s := Run(cpus, steps);
            && (s.clients > 0 ==> AllOpen(s) && EveryProbe(s))
            && (!NoProbe(s) ==> AllOpen(s))
            && (forall c :: 0 <= c < |s.lists| && !Holds(s.lists[c], []) ==> AllOpen(s))
            && (s.phase.Idle? && s.clients == 0 ==> AllClosed(s) && NoProbe(s) && s.devices == [])
  {
    RunInv(cpus, steps);
    var s := Run(cpus, steps);
    forall c | 0 <= c < |s.lists| && !Holds(s.lists[c], []) ensures AllOpen(s) {
      assert Holds(s.lists[c], Image(s, c));
    }
  }

  /** No ring is replaced while any trace is open on it. */
  lemma {:induction false} RingsPinned(cpus: nat, steps: seq<Step>, st: Step, c: nat)
    requires c < cpus
    ensures var s := Run(cpus, steps);
            |s.traces| == cpus && (s.traces[c].Some? ==> Next(s, st).rings == s.rings)
  {
    RunInv(cpus, steps);
  }
}
