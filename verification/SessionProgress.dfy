/**
  What the session's operations achieve.  Every request sets a goal; whatever is
  interleaved with it, no step but a failure changes the goal, every step either
  leaves the operation where it is or brings it nearer to its end, and there is
  always a step that does.
 */
module SessionProgress {
  import opened Common
  import opened DeviceList
  import opened SessionProtocol

  /** Clients and devices once the operation in progress has ended. */
  datatype Goal = Goal(clients: nat, devices: seq<Bdev>)

  ghost function GoalOf(s: State): Goal {
    match s.phase
    case Idle => Goal(s.clients, s.devices)
    case Resizing(_) => Goal(s.clients, s.devices)
    case Opening(_) => Goal(1, [])
    case Registering(_) => Goal(1, [])
    case Adding(b, _) => Goal(s.clients, s.devices + [b])
    case Removing(idx, _, draining) =>
      if draining || idx >= |s.devices| then Goal(0, []) else Goal(s.clients, SwapRemove(s.devices, idx))
    case _ => Goal(0, [])
  }

  // ------------------------------------------------------------ how far it is

  ghost function Stage(s: State): nat {
    match s.phase
    case Idle => 0
    case Resizing(_) => 1
    case Adding(_, _) => 1
    case Closing(_) => 1
    case Removing(_, _, draining) => if draining then 2 else 1
    case Draining => 2
    case RollingBack(_) => 3
    case Unregistering(_) => 3
    case Registering(_) => 4
    case Opening(_) => 5
  }

  /** The CPUs on which the call of the operation is still to run. */
  ghost function Todo(s: State, done: set<nat>): set<nat> {
    set c: nat | c < |s.lists| && c !in done
  }

  /** Devices still to be drained. */
  ghost function ToDrain(s: State): nat {
    if Stage(s) == 2 then s.num else 0
  }

  ghost function Minus(a: nat, b: nat): nat {
    if a <= b then 0 else a - b
  }

  ghost function Left(s: State): nat {
    match s.phase
    case Idle => 0
    case Resizing(k) => Minus(|s.rings|, k)
    case Adding(_, done) => |Todo(s, done)|
    case Closing(k) => Minus(|s.traces|, k)
    case Removing(_, done, _) => |Todo(s, done)|
    case Draining => |s.lists| + 1
    case RollingBack(todo) => |todo|
    case Unregistering(j) => Minus(|s.probes|, j)
    case Registering(j) => Minus(|s.probes|, j)
    case Opening(k) => Minus(|s.traces|, k)
  }

  /** `t` is nearer to the end of its operation than `s`. */
  ghost predicate Nearer(t: State, s: State) {
    || Stage(t) < Stage(s)
    || (Stage(t) == Stage(s) && ToDrain(t) < ToDrain(s))
    || (Stage(t) == Stage(s) && ToDrain(t) == ToDrain(s) && Left(t) < Left(s))
  }

  lemma {:induction false} TodoLess(s: State, t: State, done: set<nat>, c: nat)
    requires c < |s.lists| && c !in done && |t.lists| == |s.lists|
    ensures |Todo(t, done + {c})| < |Todo(s, done)|
  {
    var a, b := Todo(s, done), Todo(t, done + {c});
    assert a == b + {c} && c !in b;
  }

  lemma {:induction false} TodoFew(s: State, done: set<nat>)
    ensures |Todo(s, done)| <= |s.lists|
  {
    CountBelow(|s.lists|, Todo(s, done));
  }

  lemma {:induction false} CountBelow(n: nat, a: set<nat>)
    requires forall c :: c in a ==> c < n
    ensures |a| <= n
  {
    if n > 0 {
      CountBelow(n - 1, a - {n - 1});
    } else {
      assert a == {};
    }
  }

  // ------------------------------------------------------------------ failures

  /** The step is the failure of the operation in progress: a CPU that cannot be
      opened or a probe that does not register. */
  ghost predicate Fails(s: State, st: Step) {
    || (&& st.OpenCpu? && s.phase.Opening? && s.phase.next < |s.traces|
        && (!st.ok || s.phase.next >= |s.rings| || s.rings[s.phase.next].None?))
    || (st.Register? && s.phase.Registering? && s.phase.next < |s.probes| && !st.ok)
  }

  /** The step leaves the operation where it is: nothing or only a log changes. */
  ghost predicate Aside(s: State, st: Step) {
    Next(s, st) == s.(attempts := Next(s, st).attempts)
  }

  ghost predicate Moves(s: State, st: Step) {
    && (Aside(s, st) || Nearer(Next(s, st), s))
    && GoalOf(Next(s, st)) == if Fails(s, st) then Goal(0, []) else GoalOf(s)
  }

  lemma {:induction false} OpenMoves(s: State, cpus: nat, st: Step)
    requires Inv(s, cpus) && !s.phase.Idle? && (st.Attach? || st.OpenCpu? || st.Register? || st.RollBack?)
    ensures Moves(s, st)
  {}

  lemma {:induction false} CloseMoves(s: State, cpus: nat, st: Step)
    requires Inv(s, cpus) && !s.phase.Idle?
    requires st.Detach? || st.Unregister? || st.CloseCpu? || st.ResizeStart? || st.ResizeCpu?
    ensures Moves(s, st)
  {}

  lemma {:induction false} AddMoves(s: State, cpus: nat, st: Step)
    requires Inv(s, cpus) && !s.phase.Idle? && (st.AddStart? || st.AddIpi? || st.AddDone?)
    ensures Moves(s, st)
  {
    if st.AddIpi? && Next(s, st) != s {
      StepInv(s, cpus, st);
      TodoLess(s, Next(s, st), s.phase.done, st.cpu);
    }
  }

  lemma {:induction false} RemoveMoves(s: State, cpus: nat, st: Step)
    requires Inv(s, cpus) && !s.phase.Idle? && (st.Drain? || st.RemoveStart? || st.RemoveIpi? || st.RemoveDone?)
    ensures Moves(s, st)
  {
    if st.RemoveIpi? && Next(s, st) != s {
      StepInv(s, cpus, st);
      TodoLess(s, Next(s, st), s.phase.done, st.cpu);
    }
    TodoFew(s, {});
  }

  lemma {:induction false} CallbackAside(s: State, cpus: nat, st: Step)
    requires Inv(s, cpus) && st.Callback?
    ensures Aside(s, st) && GoalOf(Next(s, st)) == GoalOf(s)
  {
    StepInv(s, cpus, st);
  }

  /** Whatever step comes while an operation is in progress, it does not set the
      operation back, and only a failure changes its goal: to no client and no
      device. */
  lemma {:induction false} StepMoves(s: State, cpus: nat, st: Step)
    requires Inv(s, cpus) && !s.phase.Idle?
    ensures Moves(s, st)
  {
    if st.AddStart? || st.AddIpi? || st.AddDone? {
      AddMoves(s, cpus, st);
    } else if st.Drain? || st.RemoveStart? || st.RemoveIpi? || st.RemoveDone? {
      RemoveMoves(s, cpus, st);
    } else if st.Attach? || st.OpenCpu? || st.Register? || st.RollBack? {
      OpenMoves(s, cpus, st);
    } else if st.Callback? {
      CallbackAside(s, cpus, st);
    } else {
      CloseMoves(s, cpus, st);
    }
  }

  // --------------------------------------------------------------- the requests

  /** What a request asks for; one that cannot be met asks for nothing. */
  ghost function Requested(s: State, st: Step): Goal {
    match st
    case Attach => Goal(s.clients + 1, s.devices)
    case Detach => if s.clients <= 1 then Goal(0, []) else Goal(s.clients - 1, s.devices)
    case AddStart(b, on) =>
      if s.clients > 0 && on < |s.lists| && |s.devices| < MAX_DEVICES && !QueueTraced(s.devices, b.queue)
      then Goal(s.clients, s.devices + [b])
      else Goal(s.clients, s.devices)
    case RemoveStart(idx) =>
      Goal(s.clients, if idx < |s.devices| then SwapRemove(s.devices, idx) else s.devices)
    case _ => Goal(s.clients, s.devices)
  }

  /** A request made between operations sets the goal it asks for. */
  lemma {:induction false} RequestSetsGoal(s: State, cpus: nat, st: Step)
    requires Inv(s, cpus) && s.phase.Idle?
    ensures GoalOf(Next(s, st)) == Requested(s, st)
  {
    if st.AddStart? && st.on < cpus {
      assert Holds(s.lists[st.on], s.devices);
      if i :| 0 <= i < |s.devices| && s.devices[i].queue == st.bdev.queue {
        assert s.lists[st.on][i] == Some(s.devices[i]);
      }
    } else if st.Callback? {
      CallbackAside(s, cpus, st);
    }
  }

  // --------------------------------------------------------- it can be finished

  /** A step that carries the operation in progress on. */
  ghost function Onward(s: State): Step {
    match s.phase
    case Idle => Attach
    case Resizing(_) => ResizeCpu(None)
    case Opening(_) => OpenCpu(true)
    case Registering(_) => Register(true)
    case RollingBack(_) => RollBack
    case Unregistering(_) => Unregister
    case Draining => Drain
    case Closing(_) => CloseCpu
    case Adding(_, done) =>
      if Everywhere(s, done) then AddDone
      else
        var c: nat :| c < |s.lists| && c !in done;
        AddIpi(c, true)
    case Removing(_, done, _) =>
      if Everywhere(s, done) then RemoveDone
      else
        var c: nat :| c < |s.lists| && c !in done;
        RemoveIpi(c)
  }

  lemma {:induction false} OnwardNearer(s: State, cpus: nat)
    requires Inv(s, cpus) && !s.phase.Idle?
    ensures Nearer(Next(s, Onward(s)), s)
  {
    StepMoves(s, cpus, Onward(s));
    StepInv(s, cpus, Onward(s));
  }

  ghost function RunFrom(s: State, steps: seq<Step>): State
    decreases |steps|
  {
    if steps == [] then s else RunFrom(Next(s, steps[0]), steps[1..])
  }

  /** Every CPU that is still to be opened has a ring. */
  ghost predicate RingsReady(s: State) {
    s.phase.Opening? ==> forall c :: 0 <= c < |s.rings| ==> s.rings[c].Some?
  }

  /** From every reachable state the operation in progress can be brought to its
      end, and then its goal is met. */
  lemma {:induction false} CanFinish(s: State, cpus: nat) returns (steps: seq<Step>)
    requires Inv(s, cpus) && RingsReady(s)
    ensures var t := RunFrom(s, steps);
            t.phase.Idle? && Inv(t, cpus) && Goal(t.clients, t.devices) == GoalOf(s)
    decreases Stage(s), ToDrain(s), Left(s)
  {
    if s.phase.Idle? {
      steps := [];
    } else {
      var st := Onward(s);
      OnwardNearer(s, cpus);
      StepMoves(s, cpus, st);
      StepInv(s, cpus, st);
      OnwardReady(s, cpus);
      var rest := CanFinish(Next(s, st), cpus);
      steps := [st] + rest;
      assert steps[1..] == rest;
    }
  }

  /** And under any schedule without a failure it ends there: as long as it is in
      progress its goal stays, and where it ends the goal is met. */
  lemma {:induction false} EndsAtGoal(s: State, cpus: nat, steps: seq<Step>)
    requires Inv(s, cpus)
    requires forall k :: 0 <= k < |steps| ==>
               !RunFrom(s, steps[..k]).phase.Idle? && !Fails(RunFrom(s, steps[..k]), steps[k])
    ensures var t := RunFrom(s, steps);
            GoalOf(t) == GoalOf(s) && (t.phase.Idle? ==> Goal(t.clients, t.devices) == GoalOf(s))
    decreases |steps|
  {
    if steps != [] {
      var t, rest := Next(s, steps[0]), steps[1..];
      assert RunFrom(s, steps[..0]) == s;
      StepMoves(s, cpus, steps[0]);
      StepInv(s, cpus, steps[0]);
      forall k | 0 <= k < |rest| ensures !RunFrom(t, rest[..k]).phase.Idle? && !Fails(RunFrom(t, rest[..k]), rest[k]) {
        assert steps[..k + 1][1..] == rest[..k] && steps[k + 1] == rest[k];
        assert !RunFrom(s, steps[..k + 1]).phase.Idle?;
      }
      EndsAtGoal(t, cpus, rest);
    }
  }

  // ------------------------------------------------------- logs and rings

  /** CPU `c`'s log after a step: one description more by its call of an add, one
      I/O event more by a callback on a device of its list, and a new log when its
      trace is opened. */
  ghost function LogAfter(s: State, st: Step, c: nat): seq<Attempt>
    requires c < |s.attempts| && c < |s.rings| && |s.probes| == PROBES
  {
    var log := s.attempts[c];
    match st
    case AddIpi(k, stored) =>
      if k == c && s.phase.Adding? && c !in s.phase.done then log + [Desc(s.phase.bdev.devt, stored)] else log
    case OpenCpu(ok) => if ok && s.phase == Opening(c) && s.rings[c].Some? then [] else log
    case Callback(p, k, q, stored) =>
      if k == c && p < PROBES && s.probes[p] && q in ByQueue(Image(s, c))
      then log + [Io(ByQueue(Image(s, c))[q].devt, stored)]
      else log
    case _ => log
  }

  lemma {:induction false} CallbackLog(s: State, cpus: nat, st: Step, c: nat)
    requires Inv(s, cpus) && c < cpus && st.Callback?
    ensures |Next(s, st).attempts| == cpus && Next(s, st).attempts[c] == LogAfter(s, st, c)
  {
    if st.cpu < cpus && st.probe < PROBES && s.probes[st.probe] {
      CallbackSafe(s, cpus, st.probe, st.cpu, st.queue);
    }
  }

  lemma {:induction false} AddLog(s: State, cpus: nat, st: Step, c: nat)
    requires Inv(s, cpus) && c < cpus && st.AddIpi?
    ensures |Next(s, st).attempts| == cpus && Next(s, st).attempts[c] == LogAfter(s, st, c)
  {
    if st.cpu < cpus && s.phase.Adding? && st.cpu !in s.phase.done {
      assert TraceOpen(s, st.cpu) && Holds(s.lists[st.cpu], s.devices);
    }
  }

  /** Exactly these events reach the logs. */
  lemma {:induction false} LogChanges(s: State, cpus: nat, st: Step, c: nat)
    requires Inv(s, cpus) && c < cpus
    ensures |Next(s, st).attempts| == cpus && Next(s, st).attempts[c] == LogAfter(s, st, c)
  {
    if st.Callback? {
      CallbackLog(s, cpus, st, c);
    } else if st.AddIpi? {
      AddLog(s, cpus, st, c);
    }
  }

  /** A ring is replaced only by a resize, CPU by CPU. */
  lemma {:induction false} RingChanges(s: State, st: Step)
    ensures Next(s, st).rings ==
            if st.ResizeCpu? && s.phase.Resizing? && s.phase.next < |s.rings| && st.ring.Some?
            then s.rings[s.phase.next := st.ring]
            else s.rings
  {}

  /** The steps that give the remaining CPUs new rings, and the one that ends. */
  ghost function ResizeSteps(rings: seq<nat>): seq<Step> {
    if rings == [] then [ResizeCpu(None)] else [ResizeCpu(Some(rings[0]))] + ResizeSteps(rings[1..])
  }

  ghost function AllSome(rings: seq<nat>): (r: seq<Option<nat>>)
    ensures |r| == |rings| && forall i :: 0 <= i < |rings| ==> r[i] == Some(rings[i])
  {
    seq(|rings|, i requires 0 <= i < |rings| => Some(rings[i]))
  }

  /** A resize that gets its rings gives every CPU its own, in order. */
  lemma {:induction false} ResizeCarriesOn(s: State, rings: seq<nat>)
    requires s.phase.Resizing? && s.phase.next + |rings| == |s.rings|
    ensures RunFrom(s, ResizeSteps(rings)) == s.(phase := Idle, rings := s.rings[..s.phase.next] + AllSome(rings))
    decreases |rings|
  {
    if rings == [] {
      assert RunFrom(s, [ResizeCpu(None)]) == Next(s, ResizeCpu(None));
      assert s.rings[..s.phase.next] + AllSome(rings) == s.rings;
    } else {
      var t := Next(s, ResizeCpu(Some(rings[0])));
      var k := s.phase.next;
      ResizeCarriesOn(t, rings[1..]);
      assert ResizeSteps(rings)[1..] == ResizeSteps(rings[1..]);
      assert t.rings[..k + 1] + AllSome(rings[1..]) == s.rings[..k] + AllSome(rings);
    }
  }

  /** With no client attached, that is; otherwise a resize changes nothing. */
  lemma {:induction false} ResizeRuns(s: State, cpus: nat, rings: seq<nat>)
    requires Inv(s, cpus) && s.phase.Idle? && |rings| == cpus
    ensures RunFrom(s, [ResizeStart] + ResizeSteps(rings)) ==
            if s.clients == 0 then s.(rings := AllSome(rings)) else s
  {
    var t := Next(s, ResizeStart);
    assert ([ResizeStart] + ResizeSteps(rings))[1..] == ResizeSteps(rings);
    if s.clients == 0 {
      ResizeCarriesOn(t, rings);
      assert t.rings[..0] + AllSome(rings) == AllSome(rings);
    } else {
      NoResize(s, rings);
    }
  }

  lemma {:induction false} NoResize(s: State, rings: seq<nat>)
    requires s.phase.Idle?
    ensures RunFrom(s, ResizeSteps(rings)) == s
    decreases |rings|
  {
    if rings == [] {
      assert RunFrom(s, [ResizeCpu(None)]) == Next(s, ResizeCpu(None));
    } else {
      NoResize(s, rings[1..]);
      assert ResizeSteps(rings)[1..] == ResizeSteps(rings[1..]);
    }
  }

  lemma {:induction false} OnwardReady(s: State, cpus: nat)
    requires Inv(s, cpus) && !s.phase.Idle? && RingsReady(s)
    ensures RingsReady(Next(s, Onward(s))) && !Fails(s, Onward(s))
  {}
}
